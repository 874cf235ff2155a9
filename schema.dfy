/**
 * The relational store shared by both controllers: the rows of the five
 * tables, the lookups the controllers run against them, and the integrity
 * invariants the handlers keep.
 *
 * `users` and `documents` are AUTO_INCREMENT tables from which nothing is
 * deleted, so a row's id is its position plus one.
 */
module Schema {

  datatype Option<T> = None | Some(value: T)

  /** A request body's optional string field is truthy in JavaScript: present and non-empty. */
  predicate Truthy(f: Option<string>) {
    f.Some? && f.value != ""
  }

  type UserId = nat
  type DocId = nat

  /** A share grant; the source only ever compares against 'view' and 'edit'. */
  datatype Permission = View | Edit

  /** The output of the password hash; never the plaintext. */
  datatype Digest = Digest(value: seq<char>)

  datatype User = User(email: string, password: Digest)

  datatype Document = Document(owner: UserId, title: string, content: string, visibility: string)

  /** A row of `document_versions`: the content a document had before save `number`. */
  datatype Version = Version(doc: DocId, number: nat, content: string, modifiedBy: UserId)

  datatype ResetToken = ResetToken(user: UserId, token: string, expiresAt: int)

  datatype ShareKey = ShareKey(doc: DocId, user: UserId)

  datatype Tables = Tables(
    users: seq<User>,
    documents: seq<Document>,
    versions: seq<Version>,
    shares: map<ShareKey, Permission>,
    resetTokens: seq<ResetToken>)

  /** The HTTP outcome of a handler, by status code. */
  datatype Status = Ok | Created(id: nat) | BadRequest | Forbidden | NotFound

  /** A read handler's outcome: the JSON body on 200, or an error status. */
  datatype Reply<T> = Success(value: T) | Failure(status: Status)

  /** `SELECT ... FROM documents WHERE id = ?` */
  function DocById(docs: seq<Document>, id: DocId): (r: Option<Document>)
    ensures r.Some? <==> 1 <= id <= |docs|
    ensures r.Some? ==> r.value == docs[id - 1]
  {
    if 1 <= id <= |docs| then Some(docs[id - 1]) else None
  }

  /** `SELECT ... FROM users WHERE id = ?` */
  function UserById(users: seq<User>, id: UserId): (r: Option<User>)
    ensures r.Some? <==> 1 <= id <= |users|
    ensures r.Some? ==> r.value == users[id - 1]
  {
    if 1 <= id <= |users| then Some(users[id - 1]) else None
  }

  /** `SELECT id FROM users WHERE email = ?`, first row. */
  function FindUserByEmail(users: seq<User>, email: string): (r: Option<UserId>)
    ensures r.None? <==> forall i | 0 <= i < |users| :: users[i].email != email
    ensures r.Some? ==> 1 <= r.value <= |users| && users[r.value - 1].email == email
    ensures r.Some? ==> forall i | 0 <= i < r.value - 1 :: users[i].email != email
  {
    if |users| == 0 then None
    else
      match FindUserByEmail(users[..|users| - 1], email)
      case Some(id) => Some(id)
      case None => if users[|users| - 1].email == email then Some(|users|) else None
  }

  /** No two accounts share an email address. */
  ghost predicate UniqueEmails(users: seq<User>) {
    forall i, j | 0 <= i < j < |users| :: users[i].email != users[j].email
  }

  /** The version rows of document `d`, in insertion order. */
  function History(vs: seq<Version>, d: DocId): (h: seq<Version>)
    ensures |h| <= |vs|
    ensures forall v | v in h :: v in vs && v.doc == d
    ensures forall v | v in vs && v.doc == d :: v in h
  {
    if |vs| == 0 then []
    else History(vs[..|vs| - 1], d) + (if vs[|vs| - 1].doc == d then [vs[|vs| - 1]] else [])
  }

  /**
   * `History` returns each row of the document as often as the table holds it, and nothing else. Kept as a
   * lemma rather than an ensures of `History`, whose every use would otherwise carry the quantifier.
   */
  lemma {:induction false} HistoryCountsRows(vs: seq<Version>, d: DocId)
    ensures forall v :: multiset(History(vs, d))[v] == if v.doc == d then multiset(vs)[v] else 0
  {
    if |vs| > 0 {
      HistoryCountsRows(vs[..|vs| - 1], d);
      assert vs == vs[..|vs| - 1] + [vs[|vs| - 1]];
    }
  }

  /** `SELECT COALESCE(MAX(version_number), 0) FROM document_versions WHERE document_id = ?` */
  function MaxVersion(vs: seq<Version>, d: DocId): (m: nat)
    ensures forall v | v in vs && v.doc == d :: v.number <= m
    ensures m == 0 || exists v | v in vs :: v.doc == d && v.number == m
  {
    if |vs| == 0 then 0
    else
      var m := MaxVersion(vs[..|vs| - 1], d);
      var last := vs[|vs| - 1];
      assert vs == vs[..|vs| - 1] + [last];
      if last.doc == d && last.number > m then last.number else m
  }

  /** Every document's history is numbered 1, 2, ..., n in insertion order. */
  ghost predicate Numbered(vs: seq<Version>) {
    forall d: DocId, i | 0 <= i < |History(vs, d)| :: History(vs, d)[i].number == i + 1
  }

  /** The owner's rights are implicit: no share row ever names a document's owner. */
  ghost predicate OwnerNeverShared(t: Tables) {
    forall k | k in t.shares :: 1 <= k.doc <= |t.documents| && t.documents[k.doc - 1].owner != k.user
  }

  /** The integrity the handlers maintain over the whole store. */
  ghost predicate Valid(t: Tables) {
    && UniqueEmails(t.users)
    && Numbered(t.versions)
    && OwnerNeverShared(t)
    && (forall v | v in t.versions :: 1 <= v.doc <= |t.documents|)
  }

  /** Under `Numbered`, the next version number of a document is its history's length plus one. */
  lemma {:induction false} MaxVersionIsHistoryLength(vs: seq<Version>, d: DocId)
    requires Numbered(vs)
    ensures MaxVersion(vs, d) == |History(vs, d)|
  {
    if |vs| > 0 {
      var pre := vs[..|vs| - 1];
      var last := vs[|vs| - 1];
      NumberedPrefix(vs);
      MaxVersionIsHistoryLength(pre, d);
      if last.doc == d {
        assert History(vs, d) == History(pre, d) + [last];
        assert History(vs, d)[|History(pre, d)|] == last;
      }
    }
  }

  /** Dropping the newest row keeps every history numbered. */
  lemma NumberedPrefix(vs: seq<Version>)
    requires |vs| > 0 && Numbered(vs)
    ensures Numbered(vs[..|vs| - 1])
  {
    var pre := vs[..|vs| - 1];
    forall d: DocId, i | 0 <= i < |History(pre, d)|
      ensures History(pre, d)[i].number == i + 1
    {
      assert History(vs, d)[i] == History(pre, d)[i];
    }
  }

  /** A document no version row names has an empty history. */
  lemma {:induction false} HistoryOfUnused(vs: seq<Version>, d: DocId)
    requires forall v | v in vs :: v.doc != d
    ensures History(vs, d) == []
  {
    if |vs| > 0 {
      assert forall v | v in vs[..|vs| - 1] :: v in vs;
      HistoryOfUnused(vs[..|vs| - 1], d);
    }
  }

  /** Appending version `max + 1` of `d` keeps every history numbered and extends only `d`'s. */
  lemma AppendNextVersion(vs: seq<Version>, v: Version)
    requires Numbered(vs)
    requires v.number == MaxVersion(vs, v.doc) + 1
    ensures Numbered(vs + [v])
    ensures History(vs + [v], v.doc) == History(vs, v.doc) + [v]
    ensures forall d: DocId | d != v.doc :: History(vs + [v], d) == History(vs, d)
  {
    var vs' := vs + [v];
    assert vs'[..|vs'| - 1] == vs;
    MaxVersionIsHistoryLength(vs, v.doc);
    forall d: DocId, i | 0 <= i < |History(vs', d)|
      ensures History(vs', d)[i].number == i + 1
    {
      if d == v.doc && i == |History(vs, d)| {
        assert History(vs', d)[i] == v;
      } else {
        assert History(vs', d)[i] == History(vs, d)[i];
      }
    }
  }
}
