# Shared document editor backend — a Dafny model

This project models the core of a small Express / Mongoose / socket.io server for a shared
document editor (`index.js`). It covers four parts:

- **Token gate** (`Auth`). `verifyToken` reads the bearer token out of the `Authorization`
  header with JavaScript's `split(" ")[1]`. A missing or empty token gets 401 "Unauthorized".
  A token the token library refuses gets 401 "Invalid token".
- **Account handlers** (`Api.Backend.Signup`, `Api.Backend.Login`). Signup refuses an address
  that is already registered. The schema lower-cases e-mail addresses, both when they are
  stored and when they are queried. Login gives one identical reply for an unknown address
  and for a wrong password.
- **Document handlers** (`Api.Backend`). These are create, get, update, delete, share, the
  list of owned documents, and the list of documents shared with the caller. They work over
  two in-memory tables, `users` and `docs`, each a map from id to record. Every handler is
  one atomic step that returns a status code and message.
- **Realtime relay** (`Relay.Rooms`). It is a map from room name to a set of socket ids.
  `join-document` inserts a socket into a room. `text-change` forwards the delta to every
  member of the room except the sender.

The pure rules sit in `Documents`:

- the `alreadyShared` test;
- the `role || "viewer"` default, with the schema's enum check;
- the entry a share appends;
- the two listing filters;
- the "most recently updated first" order of the shared list.

The model follows what the code does, not what a stricter design would do:

- `get` and `update` check neither ownership nor roles (`Api.Backend.Get`, `Api.Backend.Update`).
- An owner may share a document with themselves (`Api.OwnerSharesWithSelf`). So the invariant
  "the owner never appears in `sharedWith`" does not hold in the code, and the model does not
  claim it.
- Duplicate e-mail addresses and duplicate shares are answered with 400, which is what the
  code sends.

Outside collaborators become parameters:

- `bcrypt.hash` becomes the hash string handed to `Signup`;
- `bcrypt.compare` becomes a `compare` function;
- `jwt.sign` becomes a `sign` function;
- `jwt.verify` becomes a `verify` function returning the user id or nothing;
- the clock becomes a `now` argument, which sets the schema's `updatedAt` timestamp on
  create, update and a successful share;
- the database's id generator becomes the counters `nextUser` and `nextDoc`.

Schema validation is modelled where it decides an outcome:

- `required` refuses an empty title, content, name or address on create and signup, and the
  handler answers 500.
- A share fails at save time with 500, leaving the document unchanged, when the role is
  outside `viewer`/`editor`. It also fails when the stored title or content is empty,
  because the save validates the whole document.
- `findByIdAndUpdate` runs no validators, so `update` accepts any title and content.

## Model

| member | source | states |
|---|---|---|
| Auth.Split | index.js:24 | `split(" ")` gives at least one piece and no piece contains a space |
| Auth.JoinSplit | index.js:24 | joining the pieces of `split(" ")` with single spaces gives back the header |
| Auth.SplitJoin | index.js:24 | space-free pieces survive a join followed by a split, so splitting is injective on its range |
| Auth.SplitWord | index.js:24 | a string without spaces splits into itself alone |
| Auth.SplitAfterWord | index.js:24 | a space-free word followed by a space is split off as the first piece |
| Auth.BearerTokenExtracted | index.js:24 | `Auth.ExtractToken`, the model of `authorization?.split(" ")[1]`, of `"<scheme> <token>…"` is exactly the token, whatever follows after a further space |
| Auth.NoSpaceNoToken | index.js:24-27 | `Auth.ExtractToken` of a header without a space (a bare token) yields no token |
| Auth.Authenticate | index.js:23-36 | every refusal is 401; the message is "Unauthorized" exactly when the token is missing or empty, and "Invalid token" otherwise; the request proceeds iff the extracted token is present, non-empty and accepted by the token library, and then as the user id the token carries |
| Auth.BearerHeaderAuthenticates | index.js:23-31 | a `"Bearer <token>"` header is accepted exactly when the token library accepts the token, and is otherwise "Invalid token" |
| Auth.MalformedHeaderUnauthorized | index.js:24-27 | no header, a bare token, or `"Bearer "` with nothing after it are refused as "Unauthorized" |
| Auth.Lower | index.js:42 | the `lowercase` setter keeps the length, leaves no upper-case ASCII letter, moves each upper-case letter to its lower-case form and keeps every other character |
| Auth.LowerIdempotent | index.js:42 | lower-casing an address already stored lower-cased changes nothing |
| Documents.IsSharedWith | index.js:209-211 | `sharedWith.some(...)` holds iff some entry names the user |
| Documents.ResolveRole | index.js:60 | the "viewer" default then the enum check: refused iff a non-empty role other than viewer/editor is given; editor iff "editor" |
| Documents.WithShareAppends | index.js:215-219 | `Documents.WithShare`, the push and save, adds exactly one entry `{user, role}` at the end, keeps earlier entries, title, content, owner and creation time, moves `updatedAt`, and keeps users in `sharedWith` unique |
| Documents.WithShareIsShared | index.js:209-214 | once appended, the user counts as already shared |
| Documents.InsertByRecency | index.js:234 | inserting into the sorted list gives a permutation of the list plus the new id |
| Documents.InsertKeepsNewestFirst | index.js:234 | insertion keeps the list sorted by `updatedAt`, most recent first |
| Documents.InsertKeepsDistinct | index.js:230-234 | inserting a new id keeps the list free of duplicates |
| Api.Backend.FindByEmail | index.js:197 | `User.findOne({ email })` finds nothing iff no user has the address, and otherwise a user with that address; with unique addresses that user is `Documents.UserWithEmail`, the lookup the share contract uses |
| Api.Backend.Signup | index.js:75-99 | a registered address gives 400 "User already exists" with the user table unchanged; an empty name or address gives 500; otherwise exactly one user is added with the lower-cased address, default picture and hash, and 201 with a token for it |
| Api.Backend.Login | index.js:103-122 | unknown address and wrong password both give 400 "Invalid email or password"; a matching password gives 200 and a token for that user |
| Api.Backend.ListOwned | index.js:124-135 | the owned list holds exactly the documents whose owner is the caller (the filter `Documents.OwnedIds`), each once |
| Api.Backend.Create | index.js:137-153 | an empty title or content gives 500 and no change; otherwise 201 and exactly one new document under a fresh id with owner = caller, the given title and content, empty `sharedWith`, both timestamps at `now` |
| Api.Backend.Get | index.js:155-170 | 404 "Document not found" iff the id is unknown, otherwise 200 with the stored document, for any caller |
| Api.Backend.Update | index.js:174-191 | 404 for an unknown id with no change; otherwise only title, content and `updatedAt` change, whoever the caller is |
| Api.Backend.Share | index.js:194-225 | outcomes in order 404 document, 403 not owner, 404 user, 400 already shared, 500 when the save fails validation (role outside the enum, or stored title or content empty); every refusal leaves the store unchanged; success appends one entry for the target with the role defaulting to viewer and keeps the users table |
| Api.Backend.ListShared | index.js:228-241 | the shared list holds exactly the documents whose `sharedWith` names the caller (the filter `Documents.SharedIds`), each once, sorted by `updatedAt` descending |
| Api.Backend.Delete | index.js:244-261 | 404 for an unknown id, 403 for a non-owner, both with no change; for the owner exactly that document is removed |
| Api.SignupTwice | index.js:78-88 | after a successful signup, a second signup with the same address in any letter case gets 400, whatever its password |
| Api.LoginFailuresAlike | index.js:106-113 | a login with an unknown address and one with a wrong password get identical replies |
| Api.CreateThenGet | index.js:141-165 | a created document reads back with owner = caller, the same title and content, and empty `sharedWith` |
| Api.DeleteThenGet | index.js:247-255 | the delete succeeds iff the caller owns the document; afterwards a get of that id is 404; a refused delete changes nothing |
| Api.ShareTwice | index.js:209-218 | after a successful share, sharing again with the same address gets 400 and the list keeps the length the first share gave it |
| Api.OwnerSharesWithSelf | index.js:199-219 | the owner can share a document with a non-empty title and content with themselves, after which the owner is in `sharedWith` |
| Relay.JoinIdempotent | index.js:275 | joining (`Relay.WithMember`) is idempotent set insertion and leaves other rooms unchanged |
| Relay.Rooms.Join | index.js:274-277 | the socket is added to the room, creating it if needed, and keeps its other rooms |
| Relay.Rooms.TextChange | index.js:279-282 | the same delta goes once to every room member except the sender (the set `Relay.Recipients`), and the table is unchanged |
| Relay.Rooms.Disconnect | index.js:284-286 | the handler only logs; the transport's cleanup removes the socket from every room, and exactly the rooms it was alone in vanish |
| Relay.EditReachesOthersOnly | index.js:274-282 | with two sockets in one room, an edit by the first reaches exactly the second |
| Relay.DisconnectedReceivesNothing | index.js:279-286 | a disconnected socket receives no later edit in any room |

## Left out

- Database I/O: the MongoDB connection, Mongoose persistence and the `populate` of owner
  fields are not modelled. The collections are in-memory maps, and `get` returns the stored
  record without the owner's name and picture.
- Hashing and tokens: bcrypt hashing and comparison and JWT signing, expiry and verification
  are outside calls. They are parameters of the handlers.
- HTTP and transport: Express routing, CORS, JSON body parsing, `server.listen` and the
  socket.io transport configuration are not modelled.
- Concurrency: async interleavings and read-modify-write races between requests are not
  modelled. Each handler is one atomic step.
- Logging and real time: console logging is left out, and timestamps come from the `now`
  argument. User records carry no timestamps, because nothing reads them.
- Store failures: errors thrown by the store (lost connection, malformed ids that fail the
  ObjectId cast) are not modelled. Inside a handler's `try` they would give 500; the model
  covers only the 500 replies that schema validation causes. The share handler's user lookup
  (index.js:197) runs before its `try`, so a store error there would leave the request
  without any reply; this is not modelled either.
- Missing body fields: the model takes every body field as a string. A missing field
  (`undefined`) is not modelled; an empty string stands for it in `required` checks.
- Response bodies: the model returns status codes, messages, ids and state, not HTTP bodies.
  The body quirk of signup (`res.status(201).json(token, user._id)` sends only the token) is
  not modelled.
- Auth.Lower: lower-cases ASCII letters only. The Unicode case mapping of
  `String.prototype.toLowerCase` is not modelled.
- Api.Backend.ListOwned: states which documents are listed, not their order. The database
  returns them in its natural order, which the model does not fix.
- Api.Backend.ListShared: fixes the order only up to ties in `updatedAt`. The database's
  order among equal timestamps is not modelled.
- Relay.Rooms.Disconnect: models socket.io's own cleanup on disconnect. The `disconnect`
  handler in the source only logs.
- Room lists: `socket.join` and `socket.to` also accept an array of room names, joining or
  broadcasting to several rooms at once. The model takes the client's `docId` as a single
  room name.
- Socket self-rooms: socket.io also puts every socket in a room named after its own id. A
  `text-change` whose room name equals another socket's id would reach that socket; this is
  not modelled.
