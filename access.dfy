/**
 * Who may do what to a document. The controller states these rules inline
 * in its SQL: a read filter (owner, public, or any share row) and a write
 * gate (owner, or an `edit` share). `ResolveRole` is the single effective
 * permission of a user, computed in priority order; its contract ties it to
 * the two gates.
 */
module Access {

  import opened Schema

  /** The permission stored for `(d, u)`, if any. */
  function ShareOf(t: Tables, d: DocId, u: UserId): (r: Option<Permission>)
    ensures r.Some? <==> ShareKey(d, u) in t.shares
    ensures r.Some? ==> r.value == t.shares[ShareKey(d, u)]
  {
    if ShareKey(d, u) in t.shares then Some(t.shares[ShareKey(d, u)]) else None
  }

  /** `d` exists and `u` owns it. */
  predicate IsOwner(t: Tables, d: DocId, u: UserId) {
    1 <= d <= |t.documents| && t.documents[d - 1].owner == u
  }

  /** The filter of `getDocumentById` and `getVersionHistory`: owner, public, or any share row. */
  predicate CanRead(t: Tables, d: DocId, u: UserId) {
    && 1 <= d <= |t.documents|
    && (t.documents[d - 1].owner == u || t.documents[d - 1].visibility == "public" || ShareKey(d, u) in t.shares)
  }

  /** The gate of `updateDocument`: owner, or an `edit` share. Whoever may write may read. */
  predicate CanWrite(t: Tables, d: DocId, u: UserId)
    ensures CanWrite(t, d, u) ==> CanRead(t, d, u)
  {
    && 1 <= d <= |t.documents|
    && (t.documents[d - 1].owner == u || ShareOf(t, d, u) == Some(Edit))
  }

  datatype Role = Owner | EditShare | ViewShare | PublicRead | Denied

  /** The effective permission of `u` on `d`: owner first, then a share row, then public visibility. */
  function ResolveRole(t: Tables, d: DocId, u: UserId): (r: Role)
    ensures r == Owner <==> IsOwner(t, d, u)
    ensures r != Denied <==> CanRead(t, d, u)
    ensures r == Owner || r == EditShare <==> CanWrite(t, d, u)
    ensures r == ViewShare ==> ShareOf(t, d, u) == Some(View)
    ensures r == PublicRead ==> t.documents[d - 1].visibility == "public" && ShareOf(t, d, u).None?
  {
    match DocById(t.documents, d)
    case None => Denied
    case Some(doc) =>
      if doc.owner == u then Owner
      else match ShareOf(t, d, u)
        case Some(Edit) => EditShare
        case Some(View) => ViewShare
        case None => if doc.visibility == "public" then PublicRead else Denied
  }
}
