/** The route handlers of the server over its two collections, users and documents. Each
    handler is one atomic step: it looks records up, decides a status code, and writes at
    most one record. Every document route sits behind the token gate `Auth.Authenticate`;
    the handlers here start from the caller id that gate produced. */
module Api {
  import opened Wrappers
  import opened Http
  import opened Auth
  import opened Documents

  class Backend {
    var users: map<UserId, User>
    var docs: map<DocId, Document>
    /** Next fresh ids; they stand for the database's id generator. */
    var nextUser: nat
    var nextDoc: nat

    /** Ids below the counters, one user per e-mail address, and no user twice in any
        `sharedWith` list. */
    ghost predicate Valid()
      reads this
    {
      && (forall u :: u in users ==> u < nextUser)
      && (forall d :: d in docs ==> d < nextDoc)
      && UniqueEmails(users)
      && (forall d :: d in docs ==> UniqueShares(docs[d].sharedWith))
    }

    constructor ()
      ensures Valid() && users == map[] && docs == map[]
    {
      users, docs := map[], map[];
      nextUser, nextDoc := 0, 0;
    }

    /** `User.findOne({ email })` on an address that is already lower-cased. */
    method FindByEmail(email: string) returns (found: Option<UserId>)
      ensures found.None? <==> !EmailTaken(users, email)
      ensures found.Some? ==> found.value in users && users[found.value].email == email
    {
      var pending := users.Keys;
      while pending != {}
        invariant pending <= users.Keys
        invariant forall u :: u in users && u !in pending ==> users[u].email != email
        decreases pending
      {
        var u :| u in pending;
        if users[u].email == email {
          return Some(u);
        }
        pending := pending - {u};
      }
      return None;
    }

    /** `POST /signup`: an address already registered (in any letter case) is refused with 400
        and nothing stored; a missing name or address fails the schema's `required` check
        (500); otherwise one user is stored, with the address lower-cased, the default
        picture and the password hash, and a token for the new id is issued. */
    method Signup(fullName: string, email: string, passwordHash: string, sign: UserId -> string)
      returns (reply: Reply, token: Option<string>)
      requires Valid()
      modifies this
      ensures Valid() && docs == old(docs) && nextDoc == old(nextDoc)
      ensures EmailTaken(old(users), Lower(email)) ==>
                reply == Reply(BadRequest, MsgUserExists) && token == None && users == old(users)
      ensures !EmailTaken(old(users), Lower(email)) && (fullName == "" || email == "") ==>
                reply == Reply(ServerError, MsgInternal) && token == None && users == old(users)
      ensures !EmailTaken(old(users), Lower(email)) && fullName != "" && email != "" ==>
                && reply == Reply(Created, "")
                && old(nextUser) !in old(users)
                && users == old(users)[old(nextUser) := User(fullName, Lower(email), DefaultProfilePic, passwordHash)]
                && token == Some(sign(old(nextUser)))
    {
      var existing := FindByEmail(Lower(email));
      if existing.Some? {
        return Reply(BadRequest, MsgUserExists), None;
      }
      if fullName == "" || email == "" {
        return Reply(ServerError, MsgInternal), None;
      }
      var id := nextUser;
      users := users[id := User(fullName, Lower(email), DefaultProfilePic, passwordHash)];
      nextUser := nextUser + 1;
      reply, token := Reply(Created, ""), Some(sign(id));
    }

    /** `POST /login`: an unknown address and a wrong password get the same 400 reply with the
        same message; a password that `compare` (the hashing library's check) accepts gets 200
        and a token for that user. */
    method Login(email: string, password: string, compare: (string, string) -> bool, sign: UserId -> string)
      returns (reply: Reply, token: Option<string>)
      requires UniqueEmails(users)
      ensures !EmailTaken(users, Lower(email)) ==>
                reply == Reply(BadRequest, MsgInvalidCredentials) && token == None
      ensures forall u :: u in users && users[u].email == Lower(email) ==>
                if compare(password, users[u].password)
                then reply == Reply(OK, "") && token == Some(sign(u))
                else reply == Reply(BadRequest, MsgInvalidCredentials) && token == None
    {
      var found := FindByEmail(Lower(email));
      if found.None? {
        return Reply(BadRequest, MsgInvalidCredentials), None;
      }
      var u := found.value;
      if !compare(password, users[u].password) {
        return Reply(BadRequest, MsgInvalidCredentials), None;
      }
      reply, token := Reply(OK, ""), Some(sign(u));
    }

    /** `GET /documents`: every document the caller owns, each once (in no particular order). */
    method ListOwned(caller: UserId) returns (ids: seq<DocId>)
      ensures Distinct(ids)
      ensures forall id :: id in ids <==> id in OwnedIds(docs, caller)
    {
      ids := [];
      var pending := docs.Keys;
      while pending != {}
        invariant pending <= docs.Keys
        invariant Distinct(ids)
        invariant forall id :: id in ids <==> id in OwnedIds(docs, caller) && id !in pending
        decreases pending
      {
        var id :| id in pending;
        if docs[id].owner == caller {
          ids := ids + [id];
        }
        pending := pending - {id};
      }
    }

    /** `POST /documents`: a missing title or content fails the schema's `required` check
        (500); otherwise a document owned by the caller, with an empty `sharedWith` and both
        timestamps at `now`, is stored under a fresh id. */
    method Create(caller: UserId, title: string, content: string, now: int)
      returns (reply: Reply, id: Option<DocId>)
      requires Valid()
      modifies this
      ensures Valid() && users == old(users) && nextUser == old(nextUser)
      ensures title == "" || content == "" ==>
                reply == Reply(ServerError, MsgInternal) && id == None && docs == old(docs)
      ensures title != "" && content != "" ==>
                && reply == Reply(Created, "")
                && id == Some(old(nextDoc)) && old(nextDoc) !in old(docs)
                && docs == old(docs)[old(nextDoc) := Document(title, content, caller, [], now, now)]
    {
      if title == "" || content == "" {
        return Reply(ServerError, MsgInternal), None;
      }
      var newId := nextDoc;
      docs := docs[newId := Document(title, content, caller, [], now, now)];
      nextDoc := nextDoc + 1;
      reply, id := Reply(Created, ""), Some(newId);
    }

    /** `GET /documents/:id`: 404 for an unknown id, otherwise the stored document, whoever
        the caller is. */
    method Get(id: DocId) returns (reply: Reply, doc: Option<Document>)
      ensures id !in docs ==> reply == Reply(NotFound, MsgDocumentNotFound) && doc == None
      ensures id in docs ==> reply == Reply(OK, "") && doc == Some(docs[id])
    {
      if id !in docs {
        return Reply(NotFound, MsgDocumentNotFound), None;
      }
      reply, doc := Reply(OK, ""), Some(docs[id]);
    }

    /** `PUT /documents/:id`: 404 for an unknown id; otherwise title and content are replaced
        and `updatedAt` moves to `now`, for any caller: the caller is neither the owner nor an
        editor necessarily, and owner and `sharedWith` stay as they were. */
    method Update(caller: UserId, id: DocId, title: string, content: string, now: int)
      returns (reply: Reply)
      requires Valid()
      modifies this
      ensures Valid() && users == old(users) && nextUser == old(nextUser) && nextDoc == old(nextDoc)
      ensures id !in old(docs) ==> reply == Reply(NotFound, MsgDocumentNotFound) && docs == old(docs)
      ensures id in old(docs) ==>
                && reply == Reply(OK, "")
                && docs == old(docs)[id := old(docs)[id].(title := title, content := content, updatedAt := now)]
    {
      if id !in docs {
        return Reply(NotFound, MsgDocumentNotFound);
      }
      docs := docs[id := docs[id].(title := title, content := content, updatedAt := now)];
      reply := Reply(OK, "");
    }

    /** `POST /documents/:id/share`, deciding in the order of the handler: unknown document
        (404), caller not the owner (403), no user with the address (404), user already in
        `sharedWith` (400), and a save that fails validation (500); only then is
        `{user, role || "viewer"}` appended. The save fails for a role outside the schema's
        enum, and also for a title or content that an earlier update emptied, since the whole
        document is validated. Every refusal
        leaves the store as it was. */
    method Share(caller: UserId, id: DocId, email: string, role: Option<string>, now: int)
      returns (reply: Reply)
      requires Valid()
      modifies this
      ensures Valid() && users == old(users) && nextUser == old(nextUser) && nextDoc == old(nextDoc)
      ensures var target := UserWithEmail(users, Lower(email));
        reply ==
          if id !in old(docs) then Reply(NotFound, MsgDocumentNotFound)
          else if old(docs)[id].owner != caller then Reply(Forbidden, MsgNotOwner)
          else if target.None? then Reply(NotFound, MsgUserNotFound)
          else if IsSharedWith(old(docs)[id].sharedWith, target.value) then Reply(BadRequest, MsgAlreadyShared)
          else if ResolveRole(role).None? || old(docs)[id].title == "" || old(docs)[id].content == ""
          then Reply(ServerError, MsgInternal)
          else Reply(OK, MsgShared)
      ensures reply.status != OK ==> docs == old(docs)
      ensures reply.status == OK ==>
                docs == old(docs)[id := WithShare(old(docs)[id], UserWithEmail(users, Lower(email)).value,
                                                  ResolveRole(role).value, now)]
    {
      var target := FindByEmail(Lower(email));
      if id !in docs {
        return Reply(NotFound, MsgDocumentNotFound);
      }
      var doc := docs[id];
      if doc.owner != caller {
        return Reply(Forbidden, MsgNotOwner);
      }
      if target.None? {
        return Reply(NotFound, MsgUserNotFound);
      }
      var user := target.value;
      assert Some(user) == UserWithEmail(users, Lower(email));
      if IsSharedWith(doc.sharedWith, user) {
        return Reply(BadRequest, MsgAlreadyShared);
      }
      var resolved := ResolveRole(role);
      if resolved.None? || doc.title == "" || doc.content == "" {
        return Reply(ServerError, MsgInternal);
      }
      WithShareAppends(doc, user, resolved.value, now);
      docs := docs[id := WithShare(doc, user, resolved.value, now)];
      reply := Reply(OK, MsgShared);
    }

    /** `GET /shared-documents`: every document whose `sharedWith` names the caller, each
        once, most recently updated first. */
    method ListShared(caller: UserId) returns (ids: seq<DocId>)
      ensures Distinct(ids) && NewestFirst(docs, ids)
      ensures forall id :: id in ids <==> id in SharedIds(docs, caller)
    {
      ids := [];
      var pending := docs.Keys;
      while pending != {}
        invariant pending <= docs.Keys
        invariant Distinct(ids) && NewestFirst(docs, ids)
        invariant forall id :: id in ids <==> id in SharedIds(docs, caller) && id !in pending
        decreases pending
      {
        var id :| id in pending;
        if IsSharedWith(docs[id].sharedWith, caller) {
          InsertKeepsNewestFirst(docs, ids, id);
          InsertKeepsDistinct(docs, ids, id);
          ids := InsertByRecency(docs, ids, id);
        }
        pending := pending - {id};
      }
    }

    /** `DELETE /documents/:id`: unknown id (404), caller not the owner (403), otherwise
        exactly that document is removed. */
    method Delete(caller: UserId, id: DocId) returns (reply: Reply)
      requires Valid()
      modifies this
      ensures Valid() && users == old(users) && nextUser == old(nextUser) && nextDoc == old(nextDoc)
      ensures id !in old(docs) ==> reply == Reply(NotFound, MsgDocumentNotFound) && docs == old(docs)
      ensures id in old(docs) && old(docs)[id].owner != caller ==>
                reply == Reply(Forbidden, MsgNotOwner) && docs == old(docs)
      ensures id in old(docs) && old(docs)[id].owner == caller ==>
                reply == Reply(OK, MsgDeleted) && docs == old(docs) - {id}
    {
      if id !in docs {
        return Reply(NotFound, MsgDocumentNotFound);
      }
      if docs[id].owner != caller {
        return Reply(Forbidden, MsgNotOwner);
      }
      docs := docs - {id};
      reply := Reply(OK, MsgDeleted);
    }
  }

  /** Registering an address twice: the second attempt is refused whatever its password,
      and also when the address differs only in letter case. */
  method SignupTwice(b: Backend, fullName: string, email: string, again: string,
                     hash1: string, hash2: string, sign: UserId -> string)
      returns (first: Reply, second: Reply)
    requires b.Valid() && Lower(again) == Lower(email)
    modifies b
    ensures b.Valid()
    ensures first.status == Created ==> second == Reply(BadRequest, MsgUserExists)
    ensures first.status == Created ==> |b.users| == |old(b.users)| + 1
  {
    var t;
    first, t := b.Signup(fullName, email, hash1, sign);
    if first.status == Created {
      ghost var u := old(b.nextUser);
      assert b.users[u].email == Lower(again);
    }
    second, t := b.Signup(fullName, again, hash2, sign);
  }

  /** The two ways a login can fail are indistinguishable: same status, same message. */
  method LoginFailuresAlike(b: Backend, unknown: string, known: string, password: string,
                            compare: (string, string) -> bool, sign: UserId -> string)
      returns (r1: Reply, r2: Reply)
    requires UniqueEmails(b.users)
    requires !EmailTaken(b.users, Lower(unknown))
    requires exists u :: u in b.users && b.users[u].email == Lower(known) && !compare(password, b.users[u].password)
    ensures r1 == r2 && r1.status == BadRequest
  {
    var t;
    r1, t := b.Login(unknown, password, compare, sign);
    r2, t := b.Login(known, password, compare, sign);
  }

  /** A created document reads back with the caller as owner, the given title and content
      and nobody it is shared with. */
  method CreateThenGet(b: Backend, caller: UserId, title: string, content: string, now: int)
      returns (created: Reply, got: Reply, doc: Option<Document>)
    requires b.Valid() && title != "" && content != ""
    modifies b
    ensures created.status == Created && got.status == OK && doc.Some?
    ensures doc.value.owner == caller && doc.value.title == title && doc.value.content == content
    ensures doc.value.sharedWith == []
  {
    var id;
    created, id := b.Create(caller, title, content, now);
    got, doc := b.Get(id.value);
  }

  /** After the owner deletes a document, reading it gives 404; a refused delete leaves the
      store as it was. */
  method DeleteThenGet(b: Backend, caller: UserId, id: DocId)
      returns (deleted: Reply, got: Reply)
    requires b.Valid()
    modifies b
    ensures deleted.status == OK ==> got == Reply(NotFound, MsgDocumentNotFound)
    ensures deleted.status != OK ==> b.docs == old(b.docs)
    ensures deleted.status == OK <==> id in old(b.docs) && old(b.docs)[id].owner == caller
  {
    deleted := b.Delete(caller, id);
    var doc;
    got, doc := b.Get(id);
  }

  /** Sharing twice with the same address: the second attempt is refused with 400 and the
      `sharedWith` list keeps the length the first share gave it. */
  method ShareTwice(b: Backend, caller: UserId, id: DocId, email: string,
                    role1: Option<string>, role2: Option<string>, now1: int, now2: int)
      returns (first: Reply, second: Reply)
    requires b.Valid()
    modifies b
    ensures b.Valid()
    ensures first.status == OK ==> second == Reply(BadRequest, MsgAlreadyShared)
    ensures first.status == OK ==>
              id in old(b.docs) && id in b.docs &&
              |b.docs[id].sharedWith| == |old(b.docs)[id].sharedWith| + 1
  {
    first := b.Share(caller, id, email, role1, now1);
    if first.status == OK {
      var target := UserWithEmail(b.users, Lower(email)).value;
      WithShareIsShared(old(b.docs)[id], target, ResolveRole(role1).value, now1);
    }
    second := b.Share(caller, id, email, role2, now2);
  }

  /** Nothing stops an owner from sharing a document with themselves, so the owner can end
      up in `sharedWith`. */
  method OwnerSharesWithSelf(b: Backend, caller: UserId, id: DocId, email: string, now: int)
      returns (reply: Reply)
    requires b.Valid()
    requires id in b.docs && b.docs[id].owner == caller && !IsSharedWith(b.docs[id].sharedWith, caller)
    requires b.docs[id].title != "" && b.docs[id].content != ""
    requires caller in b.users && b.users[caller].email == Lower(email)
    modifies b
    ensures reply == Reply(OK, MsgShared)
    ensures id in b.docs && IsSharedWith(b.docs[id].sharedWith, b.docs[id].owner)
  {
    reply := b.Share(caller, id, email, None, now);
    WithShareIsShared(old(b.docs)[id], caller, Viewer, now);
  }
}
