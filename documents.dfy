/**
 * The document controller. Each handler that changes the store is a method
 * over the `Database` that runs the source's statements in order, and is
 * proved equal to a specification function on the tables; the contracts of
 * those functions state what a handler promises. The read-only handlers are
 * functions on the tables.
 */
module DocumentController {

  import opened Schema
  import opened Access
  import opened Mentions
  import opened Store

  // ---------------------------------------------------------------------
  // createDocument

  datatype CreateRequest = CreateRequest(title: Option<string>, content: Option<string>, visibility: Option<string>)

  /** `createDocument`: a title is required; content defaults to empty and visibility to private. */
  function CreateDocumentSpec(t: Tables, actor: UserId, req: CreateRequest): (r: (Tables, Status))
    ensures !Truthy(req.title) ==> r == (t, BadRequest)
    ensures Truthy(req.title) ==> r.1 == Created(|t.documents| + 1)
    ensures r.1.Created? ==>
      && |r.0.documents| == |t.documents| + 1
      && r.0.documents[..|t.documents|] == t.documents
      && DocById(r.0.documents, r.1.id) == Some(Document(
           actor, req.title.value,
           if req.content.Some? then req.content.value else "",
           if Truthy(req.visibility) then req.visibility.value else "private"))
    ensures r.0.users == t.users && r.0.versions == t.versions
    ensures r.0.shares == t.shares && r.0.resetTokens == t.resetTokens
  {
    if !Truthy(req.title) then (t, BadRequest)
    else
      var content := if Truthy(req.content) then req.content.value else "";
      var visibility := if Truthy(req.visibility) then req.visibility.value else "private";
      var doc := Document(actor, req.title.value, content, visibility);
      (t.(documents := t.documents + [doc]), Created(|t.documents| + 1))
  }

  method CreateDocument(db: Database, actor: UserId, req: CreateRequest) returns (status: Status)
    modifies db
    ensures (db.Snapshot(), status) == CreateDocumentSpec(old(db.Snapshot()), actor, req)
  {
    if !Truthy(req.title) {
      return BadRequest;
    }
    var content := if Truthy(req.content) then req.content.value else "";
    var visibility := if Truthy(req.visibility) then req.visibility.value else "private";
    db.documents := db.documents + [Document(actor, req.title.value, content, visibility)];
    status := Created(|db.documents|);
  }

  // ---------------------------------------------------------------------
  // updateDocument

  datatype UpdateRequest = UpdateRequest(content: Option<string>, title: Option<string>, visibility: Option<string>)

  /** The `updateFields` object: the columns the `UPDATE` will set. */
  datatype UpdateFields = UpdateFields(content: Option<string>, title: Option<string>, visibility: Option<string>) {
    predicate IsEmpty() {
      content.None? && title.None? && visibility.None?
    }
  }

  /** The fields present in the request, with visibility kept only for the owner. */
  function FieldsToUpdate(req: UpdateRequest, isOwner: bool): (f: UpdateFields)
    ensures f.content == req.content && f.title == req.title
    ensures f.visibility.Some? <==> req.visibility.Some? && isOwner
    ensures f.visibility.Some? ==> f.visibility == req.visibility
  {
    UpdateFields(req.content, req.title, if isOwner then req.visibility else None)
  }

  /** `UPDATE documents SET <fields> WHERE id = ?` on one row. */
  function ApplyFields(doc: Document, f: UpdateFields): (d: Document)
    ensures d.owner == doc.owner
    ensures d.content == (if f.content.Some? then f.content.value else doc.content)
    ensures d.title == (if f.title.Some? then f.title.value else doc.title)
    ensures d.visibility == (if f.visibility.Some? then f.visibility.value else doc.visibility)
  {
    Document(
      doc.owner,
      if f.title.Some? then f.title.value else doc.title,
      if f.content.Some? then f.content.value else doc.content,
      if f.visibility.Some? then f.visibility.value else doc.visibility)
  }

  /**
   * Auto-share for one mentioned address. A failing query (the address is in
   * `faults`) is caught and has no effect; an address with no account, the
   * owner's and the editor's are skipped; otherwise the user gets `view`
   * unless they already hold `edit`.
   */
  function AutoShareOne(shares: map<ShareKey, Permission>, users: seq<User>, d: DocId, owner: UserId, actor: UserId,
                        email: string, faults: set<string>): (r: map<ShareKey, Permission>)
    // an existing share keeps its permission
    ensures forall k | k in shares :: k in r && r[k] == shares[k]
    // a new share is a view share of this document for the address's account, neither owner nor editor
    ensures forall k | k in r && k !in shares ::
              && k.doc == d && r[k] == View && email !in faults && FindUserByEmail(users, email) == Some(k.user)
              && k.user != owner && k.user != actor
    // that account ends up holding a share
    ensures email !in faults && FindUserByEmail(users, email).Some? ==>
              var u := FindUserByEmail(users, email).value; u == owner || u == actor || ShareKey(d, u) in r
  {
    if email in faults then shares
    else
      match FindUserByEmail(users, email)
      case None => shares
      case Some(u) =>
        if u == owner || u == actor then shares
        else if ShareKey(d, u) !in shares || shares[ShareKey(d, u)] == View then shares[ShareKey(d, u) := View]
        else shares
  }

  /** A user that auto-share grants: reached by a non-failing mentioned address, neither owner nor editor. */
  ghost predicate Grantee(users: seq<User>, owner: UserId, actor: UserId, emails: seq<string>, faults: set<string>, u: UserId) {
    u != owner && u != actor && exists e | e in emails :: e !in faults && FindUserByEmail(users, e) == Some(u)
  }

  /** The `for (const email of mentionedEmails)` loop, in iteration order. */
  function AutoShareAll(shares: map<ShareKey, Permission>, users: seq<User>, d: DocId, owner: UserId, actor: UserId,
                        emails: seq<string>, faults: set<string>): (r: map<ShareKey, Permission>)
    // never downgrades, never deletes
    ensures forall k | k in shares :: k in r && r[k] == shares[k]
    // what is added is a view share of this document for a grantee
    ensures forall k | k in r && k !in shares ::
              k.doc == d && r[k] == View && Grantee(users, owner, actor, emails, faults, k.user)
    // every grantee ends up with a share row
    ensures forall u | Grantee(users, owner, actor, emails, faults, u) :: ShareKey(d, u) in r
    decreases |emails|
  {
    if emails == [] then shares
    else
      var next := AutoShareOne(shares, users, d, owner, actor, emails[0], faults);
      AutoShareAll(next, users, d, owner, actor, emails[1..], faults)
  }

  /** The pre-update content is archived: `content` is present and differs from the stored content. */
  predicate ContentChanges(doc: Document, req: UpdateRequest) {
    req.content.Some? && req.content.value != doc.content
  }

  /** An update with nothing to write: 400 and no `UPDATE`. */
  predicate NothingToUpdate(doc: Document, actor: UserId, req: UpdateRequest) {
    req.content.None? && req.title.None? && (req.visibility.None? || doc.owner != actor)
  }

  /**
   * `updateDocument`: gate, archive the old content as version max+1,
   * partial update, then auto-share with the mentioned users.
   */
  function UpdateDocumentSpec(t: Tables, d: DocId, actor: UserId, req: UpdateRequest, faults: set<string>): (r: (Tables, Status))
    // the gate
    ensures DocById(t.documents, d).None? ==> r == (t, NotFound)
    ensures DocById(t.documents, d).Some? && !CanWrite(t, d, actor) ==> r == (t, Forbidden)
    ensures r.1 == Ok || r.1 == BadRequest <==> CanWrite(t, d, actor)
    ensures r.1 == BadRequest <==> CanWrite(t, d, actor) && NothingToUpdate(t.documents[d - 1], actor, req)
    ensures r.1 != Ok ==> r.0 == t
  {
    match DocById(t.documents, d)
    case None => (t, NotFound)
    case Some(doc) =>
      if doc.owner != actor && ShareOf(t, d, actor) != Some(Edit) then (t, Forbidden)
      else
        var archived :=
          if ContentChanges(doc, req)
          then t.(versions := t.versions + [Version(d, MaxVersion(t.versions, d) + 1, doc.content, actor)])
          else t;
        var fields := FieldsToUpdate(req, doc.owner == actor);
        if fields.IsEmpty() then (archived, BadRequest)
        else
          var updated := archived.(documents := archived.documents[d - 1 := ApplyFields(doc, fields)]);
          if Truthy(req.content) then
            var emails := MentionedEmails(req.content.value);
            (updated.(shares := AutoShareAll(updated.shares, updated.users, d, doc.owner, actor, emails, faults)), Ok)
          else
            (updated, Ok)
  }

  method UpdateDocument(db: Database, d: DocId, actor: UserId, req: UpdateRequest, faults: set<string>) returns (status: Status)
    modifies db
    ensures (db.Snapshot(), status) == UpdateDocumentSpec(old(db.Snapshot()), d, actor, req, faults)
  {
    // SELECT d.id, d.user_id, d.content, s.permission ... LEFT JOIN document_shares
    var docCheck := DocById(db.documents, d);
    if docCheck.None? {
      return NotFound;
    }
    var document := docCheck.value;
    var permission := ShareOf(db.Snapshot(), d, actor);
    if document.owner != actor && permission != Some(Edit) {
      return Forbidden;
    }

    // archive the old content before it is overwritten
    if req.content.Some? && document.content != req.content.value {
      var newVersionNumber := MaxVersion(db.versions, d) + 1;
      db.versions := db.versions + [Version(d, newVersionNumber, document.content, actor)];
    }

    var updateFields := UpdateFields(None, None, None);
    if req.content.Some? {
      updateFields := updateFields.(content := req.content);
    }
    if req.title.Some? {
      updateFields := updateFields.(title := req.title);
    }
    if req.visibility.Some? && document.owner == actor {
      updateFields := updateFields.(visibility := req.visibility);
    }
    assert updateFields == FieldsToUpdate(req, document.owner == actor);
    if updateFields.IsEmpty() {
      return BadRequest;
    }
    db.documents := db.documents[d - 1 := ApplyFields(document, updateFields)];

    if Truthy(req.content) {
      var mentionedEmails := ExtractMentionedEmails(req.content.value);
      AutoShareMentions(db, d, document.owner, actor, mentionedEmails, faults);
    }
    return Ok;
  }

  /** The auto-share loop over the mentioned addresses; each failure is caught and the loop goes on. */
  method AutoShareMentions(db: Database, d: DocId, owner: UserId, actor: UserId, emails: seq<string>, faults: set<string>)
    modifies db
    ensures db.shares == AutoShareAll(old(db.shares), old(db.users), d, owner, actor, emails, faults)
    ensures db.users == old(db.users) && db.documents == old(db.documents)
    ensures db.versions == old(db.versions) && db.resetTokens == old(db.resetTokens)
  {
    for i := 0 to |emails|
      invariant db.users == old(db.users) && db.documents == old(db.documents)
      invariant db.versions == old(db.versions) && db.resetTokens == old(db.resetTokens)
      invariant AutoShareAll(db.shares, db.users, d, owner, actor, emails[i..], faults)
             == AutoShareAll(old(db.shares), db.users, d, owner, actor, emails, faults)
    {
      var email := emails[i];
      assert emails[i..][1..] == emails[i + 1..];
      if email in faults {
        // the query for this address throws; the error is logged and the loop goes on
        continue;
      }
      var mentioned := FindUserByEmail(db.users, email);
      if mentioned.Some? {
        var mentionedUserId := mentioned.value;
        if mentionedUserId == owner || mentionedUserId == actor {
          continue;
        }
        var key := ShareKey(d, mentionedUserId);
        if key !in db.shares || db.shares[key] == View {
          db.shares := db.shares[key := View];
        }
      }
    }
  }

  // ---------------------------------------------------------------------
  // updateSharing and removeSharing

  /** `updateSharing`: the owner grants or overwrites a user's permission. */
  function UpdateSharingSpec(t: Tables, d: DocId, actor: UserId, email: string, permission: Permission): (r: (Tables, Status))
    ensures !IsOwner(t, d, actor) ==> r == (t, Forbidden)
    ensures IsOwner(t, d, actor) && FindUserByEmail(t.users, email).None? ==> r == (t, NotFound)
    ensures IsOwner(t, d, actor) && FindUserByEmail(t.users, email) == Some(actor) ==> r == (t, BadRequest)
    ensures r.1 == Ok <==> IsOwner(t, d, actor) && FindUserByEmail(t.users, email).Some? && FindUserByEmail(t.users, email).value != actor
    ensures r.1 == Ok ==>
      var key := ShareKey(d, FindUserByEmail(t.users, email).value);
      && key in r.0.shares && r.0.shares[key] == permission
      && r.0.shares.Keys == t.shares.Keys + {key}
      && (forall k | k in t.shares && k != key :: r.0.shares[k] == t.shares[k])
    ensures r.0.users == t.users && r.0.documents == t.documents
    ensures r.0.versions == t.versions && r.0.resetTokens == t.resetTokens
  {
    if !IsOwner(t, d, actor) then (t, Forbidden)
    else
      match FindUserByEmail(t.users, email)
      case None => (t, NotFound)
      case Some(u) =>
        if u == actor then (t, BadRequest)
        else (t.(shares := t.shares[ShareKey(d, u) := permission]), Ok)
  }

  method UpdateSharing(db: Database, d: DocId, actor: UserId, email: string, permission: Permission) returns (status: Status)
    modifies db
    ensures (db.Snapshot(), status) == UpdateSharingSpec(old(db.Snapshot()), d, actor, email, permission)
  {
    var docOwner := DocById(db.documents, d);
    if docOwner.None? || docOwner.value.owner != actor {
      return Forbidden;
    }
    var userToShareWith := FindUserByEmail(db.users, email);
    if userToShareWith.None? {
      return NotFound;
    }
    var sharedUserId := userToShareWith.value;
    if sharedUserId == actor {
      return BadRequest;
    }
    db.shares := db.shares[ShareKey(d, sharedUserId) := permission];
    return Ok;
  }

  /** `removeSharing`: the owner deletes one share row; a missing row is not an error. */
  function RemoveSharingSpec(t: Tables, d: DocId, actor: UserId, email: string): (r: (Tables, Status))
    ensures !IsOwner(t, d, actor) ==> r == (t, Forbidden)
    ensures IsOwner(t, d, actor) && FindUserByEmail(t.users, email).None? ==> r == (t, NotFound)
    ensures r.1 == Ok <==> IsOwner(t, d, actor) && FindUserByEmail(t.users, email).Some?
    ensures r.1 == Ok ==>
      var key := ShareKey(d, FindUserByEmail(t.users, email).value);
      && r.0.shares.Keys == t.shares.Keys - {key}
      && (forall k | k in r.0.shares :: r.0.shares[k] == t.shares[k])
    ensures r.0.users == t.users && r.0.documents == t.documents
    ensures r.0.versions == t.versions && r.0.resetTokens == t.resetTokens
  {
    if !IsOwner(t, d, actor) then (t, Forbidden)
    else
      match FindUserByEmail(t.users, email)
      case None => (t, NotFound)
      case Some(u) => (t.(shares := t.shares - {ShareKey(d, u)}), Ok)
  }

  method RemoveSharing(db: Database, d: DocId, actor: UserId, email: string) returns (status: Status)
    modifies db
    ensures (db.Snapshot(), status) == RemoveSharingSpec(old(db.Snapshot()), d, actor, email)
  {
    var docOwner := DocById(db.documents, d);
    if docOwner.None? || docOwner.value.owner != actor {
      return Forbidden;
    }
    var userToRemove := FindUserByEmail(db.users, email);
    if userToRemove.None? {
      return NotFound;
    }
    db.shares := db.shares - {ShareKey(d, userToRemove.value)};
    return Ok;
  }

  // ---------------------------------------------------------------------
  // The read-only handlers

  /** The row `getDocumentById` returns: the document joined with its owner's email. */
  datatype DocumentView = DocumentView(id: DocId, doc: Document, ownerEmail: string)

  /** `getDocumentById`: 404 both for a missing document and for one the user may not read. */
  function GetDocumentById(t: Tables, d: DocId, u: UserId): (r: Reply<DocumentView>)
    ensures r.Success? <==> CanRead(t, d, u) && UserById(t.users, t.documents[d - 1].owner).Some?
    ensures r.Failure? ==> r.status == NotFound
    ensures r.Success? ==>
      && r.value.id == d && r.value.doc == t.documents[d - 1]
      && r.value.ownerEmail == t.users[t.documents[d - 1].owner - 1].email
  {
    match DocById(t.documents, d)
    case None => Failure(NotFound)
    case Some(doc) =>
      if !(doc.owner == u || doc.visibility == "public" || ShareKey(d, u) in t.shares) then Failure(NotFound)
      else
        match UserById(t.users, doc.owner)
        case None => Failure(NotFound)
        case Some(owner) => Success(DocumentView(d, doc, owner.email))
  }

  /** A row of the version history: the editor's email comes from a LEFT JOIN. */
  datatype VersionView = VersionView(number: nat, content: string, modifiedByEmail: Option<string>)

  function ViewOf(users: seq<User>, v: Version): (w: VersionView)
    ensures w.number == v.number && w.content == v.content
    ensures w.modifiedByEmail == if 1 <= v.modifiedBy <= |users| then Some(users[v.modifiedBy - 1].email) else None
  {
    VersionView(v.number, v.content, match UserById(users, v.modifiedBy) case Some(e) => Some(e.email) case None => None)
  }

  function ViewsOf(users: seq<User>, vs: seq<Version>): (ws: seq<VersionView>)
    ensures |ws| == |vs| && forall i | 0 <= i < |vs| :: ws[i] == ViewOf(users, vs[i])
  {
    if vs == [] then [] else [ViewOf(users, vs[0])] + ViewsOf(users, vs[1..])
  }

  ghost predicate NewestFirst(ws: seq<VersionView>) {
    forall i, j | 0 <= i < j < |ws| :: ws[i].number >= ws[j].number
  }

  /** Inserting into a history ordered newest first. */
  function InsertNewestFirst(w: VersionView, ws: seq<VersionView>): (r: seq<VersionView>)
    requires NewestFirst(ws)
    ensures NewestFirst(r) && multiset(r) == multiset(ws) + multiset{w}
    ensures forall x | x in r :: x == w || x in ws
  {
    if ws == [] || w.number >= ws[0].number then [w] + ws
    else
      var rest := InsertNewestFirst(w, ws[1..]);
      assert ws == [ws[0]] + ws[1..];
      PrependNewest(ws[0], rest);
      [ws[0]] + rest
  }

  /** A row no older than every row of a newest-first list can go in front of it. */
  lemma PrependNewest(x: VersionView, rest: seq<VersionView>)
    requires NewestFirst(rest) && forall y | y in rest :: x.number >= y.number
    ensures NewestFirst([x] + rest) && multiset([x] + rest) == multiset{x} + multiset(rest)
  {
    var r := [x] + rest;
    forall i, j | 0 <= i < j < |r| ensures r[i].number >= r[j].number {
      assert r[j] == rest[j - 1];
      if i == 0 {
        assert r[j] in rest;
      } else {
        assert r[i] == rest[i - 1];
      }
    }
  }

  /** `ORDER BY version_number DESC`. */
  function SortNewestFirst(ws: seq<VersionView>): (r: seq<VersionView>)
    ensures NewestFirst(r) && multiset(r) == multiset(ws)
  {
    if ws == [] then []
    else
      assert ws == [ws[0]] + ws[1..];
      InsertNewestFirst(ws[0], SortNewestFirst(ws[1..]))
  }

  /** `getVersionHistory`: 403 unless the user may read the document; then its versions, newest first. */
  function GetVersionHistory(t: Tables, d: DocId, u: UserId): (r: Reply<seq<VersionView>>)
    ensures r.Success? <==> CanRead(t, d, u)
    ensures r.Failure? ==> r.status == Forbidden
    ensures r.Success? ==> NewestFirst(r.value) && multiset(r.value) == multiset(ViewsOf(t.users, History(t.versions, d)))
  {
    match DocById(t.documents, d)
    case None => Failure(Forbidden)
    case Some(doc) =>
      if !(doc.owner == u || doc.visibility == "public" || ShareKey(d, u) in t.shares) then Failure(Forbidden)
      else Success(SortNewestFirst(ViewsOf(t.users, History(t.versions, d))))
  }

  /** A row of `getSharedUsers`. */
  datatype SharedUser = SharedUser(id: UserId, email: string, permission: Permission)

  /** `getSharedUsers`: only the owner sees who the document is shared with. */
  function GetSharedUsers(t: Tables, d: DocId, u: UserId): (r: Reply<set<SharedUser>>)
    ensures r.Success? <==> IsOwner(t, d, u)
    ensures r.Failure? ==> r.status == Forbidden
    ensures r.Success? ==> forall s: SharedUser ::
              s in r.value <==> ShareOf(t, d, s.id) == Some(s.permission) && UserById(t.users, s.id).Some? && UserById(t.users, s.id).value.email == s.email
  {
    match DocById(t.documents, d)
    case None => Failure(Forbidden)
    case Some(doc) =>
      if doc.owner != u then Failure(Forbidden)
      else
        Success(set k | k in t.shares && k.doc == d && 1 <= k.user <= |t.users|
                      :: SharedUser(k.user, t.users[k.user - 1].email, t.shares[k]))
  }

  /** `needle` occurs in `hay` at position `i`. */
  ghost predicate OccursAt(hay: string, needle: string, i: int) {
    0 <= i && i + |needle| <= |hay| && hay[i..i + |needle|] == needle
  }

  /** `needle` occurs in `hay`: the search's `LIKE '%term%'`, read as plain substring search. */
  function Contains(hay: string, needle: string): (r: bool)
    ensures r <==> exists i :: OccursAt(hay, needle, i)
    decreases |hay|
  {
    if needle <= hay then
      assert OccursAt(hay, needle, 0);
      true
    else if |hay| <= |needle| then
      false
    else
      var r := Contains(hay[1..], needle);
      assert forall i :: OccursAt(hay[1..], needle, i) <==> OccursAt(hay, needle, i + 1) by {
        forall i ensures OccursAt(hay[1..], needle, i) <==> OccursAt(hay, needle, i + 1) {
          if 0 <= i && i + |needle| <= |hay[1..]| {
            assert hay[1..][i..i + |needle|] == hay[i + 1..i + 1 + |needle|];
          }
        }
      }
      assert !OccursAt(hay, needle, 0);
      assert (exists i :: OccursAt(hay, needle, i)) ==> r by {
        if exists i :: OccursAt(hay, needle, i) {
          var i :| OccursAt(hay, needle, i);
          assert OccursAt(hay[1..], needle, i - 1);
        }
      }
      r
  }

  /** The search filter of `getDocuments`: no or empty term matches everything. */
  predicate MatchesSearch(doc: Document, search: Option<string>) {
    !Truthy(search) || Contains(doc.title, search.value) || Contains(doc.content, search.value)
  }

  /** A row of `getDocuments`: `permission` is present for shared documents only. */
  datatype Listing = Listing(id: DocId, title: string, visibility: string, permission: Option<Permission>)

  /** The owned documents among the first `n`, by id: `WHERE user_id = ?`. */
  function OwnedListing(t: Tables, u: UserId, search: Option<string>, n: nat): (r: seq<Listing>)
    requires n <= |t.documents|
    ensures |r| <= n
  {
    if n == 0 then [] else OwnedListing(t, u, search, n - 1) + OwnedRow(t, u, search, n)
  }

  /** Document `n`'s row of the owned listing, if `u` owns it and it matches. */
  function OwnedRow(t: Tables, u: UserId, search: Option<string>, n: nat): seq<Listing>
    requires 1 <= n <= |t.documents|
  {
    var doc := t.documents[n - 1];
    if doc.owner == u && MatchesSearch(doc, search) then [Listing(n, doc.title, doc.visibility, None)] else []
  }

  /** Every owned row is a document of `u` that matches the search, with no permission field. */
  lemma {:induction false} OwnedListingRows(t: Tables, u: UserId, search: Option<string>, n: nat)
    requires n <= |t.documents|
    ensures forall x | x in OwnedListing(t, u, search, n) ::
              && 1 <= x.id <= n && IsOwner(t, x.id, u) && MatchesSearch(t.documents[x.id - 1], search)
              && x == Listing(x.id, t.documents[x.id - 1].title, t.documents[x.id - 1].visibility, None)
    decreases n
  {
    if n > 0 {
      OwnedListingRows(t, u, search, n - 1);
    }
  }

  /** Every document of `u` that matches the search is listed. */
  lemma {:induction false} OwnedListingComplete(t: Tables, u: UserId, search: Option<string>, n: nat)
    requires n <= |t.documents|
    ensures forall id | 1 <= id <= n && IsOwner(t, id, u) && MatchesSearch(t.documents[id - 1], search) ::
              exists x | x in OwnedListing(t, u, search, n) :: x.id == id
    decreases n
  {
    if n > 0 {
      OwnedListingComplete(t, u, search, n - 1);
      var prev, r := OwnedListing(t, u, search, n - 1), OwnedListing(t, u, search, n);
      forall id | 1 <= id <= n && IsOwner(t, id, u) && MatchesSearch(t.documents[id - 1], search)
        ensures exists x | x in r :: x.id == id
      {
        if id < n {
          var x :| x in prev && x.id == id;
          assert x in r;
        } else {
          assert r[|r| - 1] in r;
        }
      }
    }
  }

  /** The owned rows come in increasing id order. */
  lemma {:induction false} OwnedListingIncreasing(t: Tables, u: UserId, search: Option<string>, n: nat)
    requires n <= |t.documents|
    ensures IdsIncreasing(OwnedListing(t, u, search, n))
    decreases n
  {
    if n > 0 {
      OwnedListingIncreasing(t, u, search, n - 1);
      OwnedListingRows(t, u, search, n - 1);
      AppendKeepsIdsIncreasing(OwnedListing(t, u, search, n - 1), OwnedRow(t, u, search, n), n);
    }
  }

  /** The documents among the first `n` that `u` holds a share row for, by id: `JOIN document_shares`. */
  function SharedListing(t: Tables, u: UserId, search: Option<string>, n: nat): (r: seq<Listing>)
    requires n <= |t.documents|
    ensures |r| <= n
  {
    if n == 0 then [] else SharedListing(t, u, search, n - 1) + SharedRow(t, u, search, n)
  }

  /** Document `n`'s row of the shared listing, if `u` holds a share row for it and it matches. */
  function SharedRow(t: Tables, u: UserId, search: Option<string>, n: nat): seq<Listing>
    requires 1 <= n <= |t.documents|
  {
    var doc := t.documents[n - 1];
    if ShareKey(n, u) in t.shares && MatchesSearch(doc, search)
    then [Listing(n, doc.title, doc.visibility, Some(t.shares[ShareKey(n, u)]))] else []
  }

  /** Every shared row is a document `u` holds a share row for, carrying that row's permission. */
  lemma {:induction false} SharedListingRows(t: Tables, u: UserId, search: Option<string>, n: nat)
    requires n <= |t.documents|
    ensures forall x | x in SharedListing(t, u, search, n) ::
              && 1 <= x.id <= n && ShareKey(x.id, u) in t.shares && MatchesSearch(t.documents[x.id - 1], search)
              && x == Listing(x.id, t.documents[x.id - 1].title, t.documents[x.id - 1].visibility, Some(t.shares[ShareKey(x.id, u)]))
    decreases n
  {
    if n > 0 {
      SharedListingRows(t, u, search, n - 1);
    }
  }

  /** Every document `u` holds a share row for and that matches the search is listed. */
  lemma {:induction false} SharedListingComplete(t: Tables, u: UserId, search: Option<string>, n: nat)
    requires n <= |t.documents|
    ensures forall id | 1 <= id <= n && ShareKey(id, u) in t.shares && MatchesSearch(t.documents[id - 1], search) ::
              exists x | x in SharedListing(t, u, search, n) :: x.id == id
    decreases n
  {
    if n > 0 {
      SharedListingComplete(t, u, search, n - 1);
      var prev, r := SharedListing(t, u, search, n - 1), SharedListing(t, u, search, n);
      forall id | 1 <= id <= n && ShareKey(id, u) in t.shares && MatchesSearch(t.documents[id - 1], search)
        ensures exists x | x in r :: x.id == id
      {
        if id < n {
          var x :| x in prev && x.id == id;
          assert x in r;
        } else {
          assert r[|r| - 1] in r;
        }
      }
    }
  }

  /** The shared rows come in increasing id order. */
  lemma {:induction false} SharedListingIncreasing(t: Tables, u: UserId, search: Option<string>, n: nat)
    requires n <= |t.documents|
    ensures IdsIncreasing(SharedListing(t, u, search, n))
    decreases n
  {
    if n > 0 {
      SharedListingIncreasing(t, u, search, n - 1);
      SharedListingRows(t, u, search, n - 1);
      AppendKeepsIdsIncreasing(SharedListing(t, u, search, n - 1), SharedRow(t, u, search, n), n);
    }
  }

  /** Rows in strictly increasing id order (`ORDER BY` aside, ids are never repeated). */
  predicate IdsIncreasing(r: seq<Listing>) {
    forall i, j | 0 <= i < j < |r| :: r[i].id < r[j].id
  }

  /** Appending at most one row for document `n` to rows of smaller ids keeps the ids increasing. */
  lemma AppendKeepsIdsIncreasing(a: seq<Listing>, b: seq<Listing>, n: nat)
    requires IdsIncreasing(a)
    requires forall x | x in a :: x.id < n
    requires |b| <= 1 && forall x | x in b :: x.id == n
    ensures IdsIncreasing(a + b)
  {
    forall i, j | 0 <= i < j < |a + b|
      ensures (a + b)[i].id < (a + b)[j].id
    {
      if j >= |a| {
        assert (a + b)[j] in b;
        assert (a + b)[i] in a;
      }
    }
  }

  /** `getDocuments`: the user's own documents and the documents shared with them. */
  function GetDocuments(t: Tables, u: UserId, search: Option<string>): (r: (seq<Listing>, seq<Listing>))
    ensures forall x | x in r.0 ::
              && IsOwner(t, x.id, u) && MatchesSearch(t.documents[x.id - 1], search)
              && x == Listing(x.id, t.documents[x.id - 1].title, t.documents[x.id - 1].visibility, None)
    ensures forall id | 1 <= id <= |t.documents| && IsOwner(t, id, u) && MatchesSearch(t.documents[id - 1], search) ::
              exists x | x in r.0 :: x.id == id
    ensures forall x | x in r.1 ::
              && 1 <= x.id <= |t.documents| && ShareKey(x.id, u) in t.shares && MatchesSearch(t.documents[x.id - 1], search)
              && x == Listing(x.id, t.documents[x.id - 1].title, t.documents[x.id - 1].visibility, Some(t.shares[ShareKey(x.id, u)]))
    ensures forall id | 1 <= id <= |t.documents| && ShareKey(id, u) in t.shares && MatchesSearch(t.documents[id - 1], search) ::
              exists x | x in r.1 :: x.id == id
    ensures IdsIncreasing(r.0) && IdsIncreasing(r.1)
  {
    var n := |t.documents|;
    OwnedListingRows(t, u, search, n);
    OwnedListingComplete(t, u, search, n);
    OwnedListingIncreasing(t, u, search, n);
    SharedListingRows(t, u, search, n);
    SharedListingComplete(t, u, search, n);
    SharedListingIncreasing(t, u, search, n);
    (OwnedListing(t, u, search, n), SharedListing(t, u, search, n))
  }
}
