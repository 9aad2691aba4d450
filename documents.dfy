/** Records of the document store and the pure rules the document handlers apply to them:
    the `alreadyShared` test, the role default, the entry a share appends, and the two
    listing filters with the "most recently updated first" order. */
module Documents {
  import opened Wrappers
  import opened Auth

  type DocId = nat

  datatype Role = Viewer | Editor

  /** One element of a document's `sharedWith` list. */
  datatype Share = Share(user: UserId, role: Role)

  /** A stored document; `createdAt` and `updatedAt` are the schema's timestamps. */
  datatype Document = Document(
    title: string,
    content: string,
    owner: UserId,
    sharedWith: seq<Share>,
    createdAt: int,
    updatedAt: int)

  /** A stored user; `email` is kept lower-cased and `password` holds the password hash. */
  datatype User = User(fullName: string, email: string, profilePic: string, password: string)

  const DefaultProfilePic := "https://i.pravatar.cc/150"

  /** Some user has this (already lower-cased) e-mail address. */
  predicate EmailTaken(users: map<UserId, User>, email: string)
  {
    exists u :: u in users && users[u].email == email
  }

  /** At most one user per e-mail address (the schema's `unique` index). */
  ghost predicate UniqueEmails(users: map<UserId, User>)
  {
    forall u, v :: u in users && v in users && users[u].email == users[v].email ==> u == v
  }

  /** The user an e-mail address belongs to, if any. */
  ghost function UserWithEmail(users: map<UserId, User>, email: string): (r: Option<UserId>)
    ensures r.None? <==> !EmailTaken(users, email)
    ensures r.Some? ==> r.value in users && users[r.value].email == email
  {
    if EmailTaken(users, email) then
      var u :| u in users && users[u].email == email; Some(u)
    else None
  }

  /** `sharedWith.some(share => share.user == user)`. */
  function IsSharedWith(shares: seq<Share>, user: UserId): (b: bool)
    ensures b <==> exists i :: 0 <= i < |shares| && shares[i].user == user
    decreases |shares|
  {
    if shares == [] then false
    else shares[0].user == user || IsSharedWith(shares[1..], user)
  }

  /** No user appears twice in a `sharedWith` list. */
  ghost predicate UniqueShares(shares: seq<Share>)
  {
    forall i, j :: 0 <= i < j < |shares| ==> shares[i].user != shares[j].user
  }

  /** `role || "viewer"` followed by the schema's enum check at save time: an absent or
      empty role means viewer, "viewer" and "editor" name themselves, and anything else
      is refused (`None`), which makes the save fail. */
  function ResolveRole(role: Option<string>): (r: Option<Role>)
    ensures r == None <==> role.Some? && role.value !in {"", "viewer", "editor"}
    ensures r == Some(Editor) <==> role == Some("editor")
  {
    match role
    case None => Some(Viewer)
    case Some(name) =>
      if name == "" || name == "viewer" then Some(Viewer)
      else if name == "editor" then Some(Editor)
      else None
  }

  /** The document after `sharedWith.push({user, role})` and a save at time `now`. */
  function WithShare(doc: Document, user: UserId, role: Role, now: int): Document
  {
    doc.(sharedWith := doc.sharedWith + [Share(user, role)], updatedAt := now)
  }

  /** Appending an entry keeps every earlier entry, title, content and owner, adds exactly one
      entry for `user` at the end, and keeps the list free of duplicates when `user` was not
      in it yet. */
  lemma WithShareAppends(doc: Document, user: UserId, role: Role, now: int)
    requires UniqueShares(doc.sharedWith) && !IsSharedWith(doc.sharedWith, user)
    ensures var d := WithShare(doc, user, role, now);
      && d.title == doc.title && d.content == doc.content && d.owner == doc.owner
      && d.createdAt == doc.createdAt && d.updatedAt == now
      && |d.sharedWith| == |doc.sharedWith| + 1
      && d.sharedWith[..|doc.sharedWith|] == doc.sharedWith
      && d.sharedWith[|doc.sharedWith|] == Share(user, role)
      && UniqueShares(d.sharedWith)
  {
  }

  /** Once appended, the user is "already shared" for every later attempt. */
  lemma {:induction false} WithShareIsShared(doc: Document, user: UserId, role: Role, now: int)
    ensures IsSharedWith(WithShare(doc, user, role, now).sharedWith, user)
  {
    var s := WithShare(doc, user, role, now).sharedWith;
    assert s[|s| - 1].user == user;
  }

  /** The filter of `GET /documents`: documents owned by the caller. */
  function OwnedIds(docs: map<DocId, Document>, caller: UserId): set<DocId>
  {
    set id | id in docs && docs[id].owner == caller
  }

  /** The filter of `GET /shared-documents`: documents whose `sharedWith` names the caller,
      whoever owns them. */
  function SharedIds(docs: map<DocId, Document>, caller: UserId): set<DocId>
  {
    set id | id in docs && IsSharedWith(docs[id].sharedWith, caller)
  }

  ghost predicate Distinct(ids: seq<DocId>)
  {
    forall i, j :: 0 <= i < j < |ids| ==> ids[i] != ids[j]
  }

  predicate AllStored(docs: map<DocId, Document>, ids: seq<DocId>)
  {
    forall i :: 0 <= i < |ids| ==> ids[i] in docs
  }

  /** Sorted by `updatedAt`, most recent first (`sort({ updatedAt: -1 })`). */
  ghost predicate NewestFirst(docs: map<DocId, Document>, ids: seq<DocId>)
  {
    && AllStored(docs, ids)
    && forall i, j :: 0 <= i < j < |ids| ==> docs[ids[i]].updatedAt >= docs[ids[j]].updatedAt
  }

  /** Puts `id` in front of the first document that is not more recent than it. */
  function InsertByRecency(docs: map<DocId, Document>, ids: seq<DocId>, id: DocId): (r: seq<DocId>)
    requires id in docs && AllStored(docs, ids)
    ensures multiset(r) == multiset(ids) + multiset{id}
    ensures forall x :: x in r <==> x in ids || x == id
    ensures AllStored(docs, r)
    decreases |ids|
  {
    if ids == [] || docs[id].updatedAt >= docs[ids[0]].updatedAt then [id] + ids
    else
      assert ids == [ids[0]] + ids[1..];
      [ids[0]] + InsertByRecency(docs, ids[1..], id)
  }

  /** Insertion keeps the list sorted by recency. */
  lemma {:induction false} InsertKeepsNewestFirst(docs: map<DocId, Document>, ids: seq<DocId>, id: DocId)
    requires id in docs && NewestFirst(docs, ids)
    ensures NewestFirst(docs, InsertByRecency(docs, ids, id))
    decreases |ids|
  {
    if ids != [] && docs[id].updatedAt < docs[ids[0]].updatedAt {
      var tail := ids[1..];
      InsertKeepsNewestFirst(docs, tail, id);
      var rest := InsertByRecency(docs, tail, id);
      forall k | 0 <= k < |rest| ensures docs[ids[0]].updatedAt >= docs[rest[k]].updatedAt {
        assert rest[k] in rest;
        if rest[k] != id {
          var m :| 0 <= m < |tail| && tail[m] == rest[k];
          assert ids[m + 1] == rest[k];
        }
      }
    }
  }

  /** Insertion of a new id keeps the list free of duplicates. */
  lemma {:induction false} InsertKeepsDistinct(docs: map<DocId, Document>, ids: seq<DocId>, id: DocId)
    requires id in docs && AllStored(docs, ids)
    requires Distinct(ids) && id !in ids
    ensures Distinct(InsertByRecency(docs, ids, id))
    decreases |ids|
  {
    if ids != [] && docs[id].updatedAt < docs[ids[0]].updatedAt {
      var tail := ids[1..];
      InsertKeepsDistinct(docs, tail, id);
      var rest := InsertByRecency(docs, tail, id);
      assert ids[0] !in rest;
      assert InsertByRecency(docs, ids, id) == [ids[0]] + rest;
    }
  }
}
