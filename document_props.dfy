/**
 * What the document handlers promise across their whole effect and across
 * several calls: the save pipeline's versioning, partial update and
 * auto-share; the store invariants every handler keeps; version numbering
 * over a run of saves; the order of the version history; and the split of a
 * user's listing into owned and shared documents.
 */
module DocumentProperties {

  import opened Schema
  import opened Access
  import opened Mentions
  import opened DocumentController

  // ---------------------------------------------------------------------
  // One save

  /** A version row is appended if and only if the save passes the gate and changes the content; it is numbered max+1 and holds the old content and the editor. */
  lemma UpdateArchivesIffContentChanges(t: Tables, d: DocId, actor: UserId, req: UpdateRequest, faults: set<string>)
    ensures var r := UpdateDocumentSpec(t, d, actor, req, faults);
      if CanWrite(t, d, actor) && ContentChanges(t.documents[d - 1], req)
      then r.0.versions == t.versions + [Version(d, MaxVersion(t.versions, d) + 1, t.documents[d - 1].content, actor)]
      else r.0.versions == t.versions
  {
  }

  /** The save writes only the fields present, drops a non-owner's visibility, and touches no other document. */
  lemma UpdateWritesPresentFieldsOnly(t: Tables, d: DocId, actor: UserId, req: UpdateRequest, faults: set<string>)
    ensures var r := UpdateDocumentSpec(t, d, actor, req, faults);
      && |r.0.documents| == |t.documents|
      && (forall i | 0 <= i < |t.documents| && i != d - 1 :: r.0.documents[i] == t.documents[i])
      && (r.1 == Ok ==>
           var doc, doc' := t.documents[d - 1], r.0.documents[d - 1];
           && doc'.owner == doc.owner
           && doc'.content == (if req.content.Some? then req.content.value else doc.content)
           && doc'.title == (if req.title.Some? then req.title.value else doc.title)
           && doc'.visibility == (if req.visibility.Some? && doc.owner == actor then req.visibility.value else doc.visibility))
  {
  }

  /**
   * Auto-share runs only after a successful save with non-empty content; it
   * never changes or deletes an existing share row (so never downgrades
   * `edit`), adds only `view` rows for grantees of this document, and reaches
   * every grantee even when the queries for other addresses fail.
   */
  lemma UpdateAutoShares(t: Tables, d: DocId, actor: UserId, req: UpdateRequest, faults: set<string>)
    ensures var r := UpdateDocumentSpec(t, d, actor, req, faults);
      && (forall k | k in t.shares :: k in r.0.shares && r.0.shares[k] == t.shares[k])
      && (!(r.1 == Ok && Truthy(req.content)) ==> r.0.shares == t.shares)
      && (r.1 == Ok && Truthy(req.content) ==>
            var owner, emails := t.documents[d - 1].owner, MentionedEmails(req.content.value);
            && (forall k | k in r.0.shares && k !in t.shares ::
                  k.doc == d && r.0.shares[k] == View && Grantee(t.users, owner, actor, emails, faults, k.user))
            && (forall u | Grantee(t.users, owner, actor, emails, faults, u) :: ShareKey(d, u) in r.0.shares))
  {
  }

  // ---------------------------------------------------------------------
  // The store invariants

  lemma CreatePreservesValid(t: Tables, actor: UserId, req: CreateRequest)
    requires Valid(t)
    ensures var r := CreateDocumentSpec(t, actor, req);
      && Valid(r.0)
      && (r.1.Created? ==> History(r.0.versions, r.1.id) == [] && forall u :: ShareKey(r.1.id, u) !in r.0.shares)
  {
    var r := CreateDocumentSpec(t, actor, req);
    if r.1.Created? {
      assert forall k | k in r.0.shares :: r.0.documents[k.doc - 1] == t.documents[k.doc - 1];
      HistoryOfUnused(t.versions, r.1.id);
    }
  }

  /** A save changes neither accounts nor reset tokens. */
  lemma UpdateKeepsAccounts(t: Tables, d: DocId, actor: UserId, req: UpdateRequest, faults: set<string>)
    ensures var r := UpdateDocumentSpec(t, d, actor, req, faults);
      r.0.users == t.users && r.0.resetTokens == t.resetTokens
  {
  }

  /** The archived row keeps every history numbered and names an existing document. */
  lemma UpdateKeepsNumbering(t: Tables, d: DocId, actor: UserId, req: UpdateRequest, faults: set<string>)
    requires Valid(t)
    ensures var r := UpdateDocumentSpec(t, d, actor, req, faults);
      Numbered(r.0.versions) && forall v | v in r.0.versions :: 1 <= v.doc <= |r.0.documents|
  {
    var r := UpdateDocumentSpec(t, d, actor, req, faults);
    UpdateArchivesIffContentChanges(t, d, actor, req, faults);
    assert |r.0.documents| == |t.documents|;
    var archives := CanWrite(t, d, actor) && ContentChanges(t.documents[d - 1], req);
    var v := Version(d, MaxVersion(t.versions, d) + 1, if archives then t.documents[d - 1].content else "", actor);
    ArchiveKeepsNumbering(t.versions, r.0.versions, |t.documents|, v, archives);
  }

  /** Appending the next version of an existing document, or nothing, keeps the versions table valid. */
  lemma ArchiveKeepsNumbering(vs: seq<Version>, vs': seq<Version>, n: nat, v: Version, archives: bool)
    requires Numbered(vs) && forall x | x in vs :: 1 <= x.doc <= n
    requires archives ==> vs' == vs + [v] && v.number == MaxVersion(vs, v.doc) + 1 && 1 <= v.doc <= n
    requires !archives ==> vs' == vs
    ensures Numbered(vs') && forall x | x in vs' :: 1 <= x.doc <= n
  {
    if archives {
      AppendNextVersion(vs, v);
    }
  }

  /** Auto-share never grants the owner a row, and owners do not change. */
  lemma UpdateKeepsOwnerUnshared(t: Tables, d: DocId, actor: UserId, req: UpdateRequest, faults: set<string>)
    requires OwnerNeverShared(t)
    ensures OwnerNeverShared(UpdateDocumentSpec(t, d, actor, req, faults).0)
  {
    var r := UpdateDocumentSpec(t, d, actor, req, faults);
    UpdateWritesPresentFieldsOnly(t, d, actor, req, faults);
    UpdateAutoShares(t, d, actor, req, faults);
    if r.1 == Ok {
      SharesKeepOwnersOut(t, r.0, d);
    }
  }

  /** Same owners, and every new share row is for document `d` and not its owner: the owner stays unshared. */
  lemma SharesKeepOwnersOut(t: Tables, t': Tables, d: DocId)
    requires OwnerNeverShared(t) && 1 <= d <= |t.documents|
    requires |t'.documents| == |t.documents|
    requires forall i | 0 <= i < |t.documents| && i != d - 1 :: t'.documents[i] == t.documents[i]
    requires t'.documents[d - 1].owner == t.documents[d - 1].owner
    requires forall k | k in t'.shares :: k in t.shares || (k.doc == d && k.user != t.documents[d - 1].owner)
    ensures OwnerNeverShared(t')
  {
    forall k | k in t'.shares
      ensures 1 <= k.doc <= |t'.documents| && t'.documents[k.doc - 1].owner != k.user
    {
      if k.doc != d {
        assert t'.documents[k.doc - 1] == t.documents[k.doc - 1];
      }
    }
  }

  lemma UpdatePreservesValid(t: Tables, d: DocId, actor: UserId, req: UpdateRequest, faults: set<string>)
    requires Valid(t)
    ensures Valid(UpdateDocumentSpec(t, d, actor, req, faults).0)
  {
    UpdateKeepsAccounts(t, d, actor, req, faults);
    UpdateKeepsNumbering(t, d, actor, req, faults);
    UpdateKeepsOwnerUnshared(t, d, actor, req, faults);
  }

  lemma UpdateSharingPreservesValid(t: Tables, d: DocId, actor: UserId, email: string, permission: Permission)
    requires Valid(t)
    ensures Valid(UpdateSharingSpec(t, d, actor, email, permission).0)
  {
  }

  lemma RemoveSharingPreservesValid(t: Tables, d: DocId, actor: UserId, email: string)
    requires Valid(t)
    ensures Valid(RemoveSharingSpec(t, d, actor, email).0)
  {
  }

  // ---------------------------------------------------------------------
  // A run of saves

  /** A save never takes write access away: owners do not change and share rows are never removed or downgraded. */
  lemma UpdateKeepsWriters(t: Tables, d: DocId, actor: UserId, req: UpdateRequest, faults: set<string>)
    ensures var r := UpdateDocumentSpec(t, d, actor, req, faults);
      forall d': DocId, u: UserId | CanWrite(t, d', u) :: CanWrite(r.0, d', u)
  {
    var r := UpdateDocumentSpec(t, d, actor, req, faults);
    UpdateWritesPresentFieldsOnly(t, d, actor, req, faults);
    UpdateAutoShares(t, d, actor, req, faults);
    assert forall i | 0 <= i < |t.documents| :: r.0.documents[i].owner == t.documents[i].owner;
  }

  /** A save that sends new content, and may also send a title and a visibility (the editor sends all three). */
  datatype Save = Save(actor: UserId, content: string, title: Option<string>, visibility: Option<string>)

  /** The save as a step on the whole store: `updateDocument` on `d` with the save's body. */
  function SaveOn(d: DocId, faults: set<string>): (Tables, Save) -> Tables {
    (t: Tables, s: Save) => UpdateDocumentSpec(t, d, s.actor, UpdateRequest(Some(s.content), s.title, s.visibility), faults).0
  }

  /** The store after the saves, one after the other. */
  function RunSaves(t: Tables, saves: seq<Save>, step: (Tables, Save) -> Tables): Tables
    decreases |saves|
  {
    if saves == [] then t else RunSaves(step(t, saves[0]), saves[1..], step)
  }

  /** The document's content just before save `k` of the run: the original content, or what save k-1 wrote. */
  function ContentBefore(prior: string, saves: seq<Save>, k: nat): string
    requires k < |saves|
  {
    if k == 0 then prior else saves[k - 1].content
  }

  /** Each save's content differs from the content before it. */
  predicate EachChangesContent(prior: string, saves: seq<Save>) {
    forall i | 0 <= i < |saves| :: saves[i].content != ContentBefore(prior, saves, i)
  }

  /** The version rows the saves should append, numbered from `first`: row k holds the content before save k and names its editor. */
  function ExpectedVersions(d: DocId, first: nat, prior: string, saves: seq<Save>): (vs: seq<Version>)
    ensures |vs| == |saves|
  {
    seq(|saves|, k requires 0 <= k < |saves| => Version(d, first + k, ContentBefore(prior, saves, k), saves[k].actor))
  }

  /** The expected rows of a run are the first save's row followed by the rest's. */
  lemma ExpectedVersionsCons(d: DocId, first: nat, prior: string, saves: seq<Save>)
    requires saves != []
    ensures ExpectedVersions(d, first, prior, saves)
         == [Version(d, first, prior, saves[0].actor)] + ExpectedVersions(d, first + 1, saves[0].content, saves[1..])
  {
    var e, rest := ExpectedVersions(d, first, prior, saves), ExpectedVersions(d, first + 1, saves[0].content, saves[1..]);
    forall k | 1 <= k < |saves|
      ensures e[k] == rest[k - 1]
    {
      ContentBeforeTail(prior, saves, k);
    }
  }

  /** Dropping the first save shifts the run by one: what came before save k now comes before save k-1. */
  lemma ContentBeforeTail(prior: string, saves: seq<Save>, k: nat)
    requires 1 <= k < |saves|
    ensures saves[1..][k - 1] == saves[k]
    ensures ContentBefore(saves[0].content, saves[1..], k - 1) == ContentBefore(prior, saves, k)
  {
    if k > 1 {
      assert saves[1..][k - 2] == saves[k - 1];
    }
  }

  /** What one content-changing save by an editor does to the versions and the document. */
  ghost predicate ArchivesAndWrites(t: Tables, t': Tables, d: DocId, s: Save)
    requires 1 <= d <= |t.documents|
  {
    && Numbered(t'.versions)
    && 1 <= d <= |t'.documents|
    && History(t'.versions, d) == History(t.versions, d) + [Version(d, |History(t.versions, d)| + 1, t.documents[d - 1].content, s.actor)]
    && t'.documents[d - 1].content == s.content
    && forall u: UserId | CanWrite(t, d, u) :: CanWrite(t', d, u)
  }

  /** One content-changing save by an editor appends exactly the next version and keeps every editor. */
  lemma SaveArchivesAndWrites(t: Tables, d: DocId, s: Save, faults: set<string>)
    requires Numbered(t.versions) && CanWrite(t, d, s.actor) && s.content != t.documents[d - 1].content
    ensures ArchivesAndWrites(t, SaveOn(d, faults)(t, s), d, s)
  {
    var req := UpdateRequest(Some(s.content), s.title, s.visibility);
    UpdateArchivesIffContentChanges(t, d, s.actor, req, faults);
    UpdateWritesPresentFieldsOnly(t, d, s.actor, req, faults);
    UpdateKeepsWriters(t, d, s.actor, req, faults);
    MaxVersionIsHistoryLength(t.versions, d);
    AppendNextVersion(t.versions, Version(d, MaxVersion(t.versions, d) + 1, t.documents[d - 1].content, s.actor));
  }

  /**
   * Sequence bookkeeping for one induction step of `RunAppendsVersions`. This and the two lemmas after it
   * state nothing about the controller; they are kept apart only so that the proofs that use them stay cheap.
   */
  lemma AppendThenExtend(h: seq<Version>, mid: seq<Version>, final: seq<Version>, v: Version, rest: seq<Version>)
    requires mid == h + [v] && final == mid + rest
    ensures final == h + ([v] + rest)
  {
  }

  /** Sequence bookkeeping: appending the empty sequence. */
  lemma AppendNothing(h: seq<Version>)
    ensures h + [] == h
  {
  }

  /** Sequence bookkeeping: prepending the empty sequence. */
  lemma PrependNothing(h: seq<Version>)
    ensures [] + h == h
  {
  }

  /** Any step that archives and writes like a save appends the expected rows over a run. */
  lemma {:induction false} RunAppendsVersions(t: Tables, d: DocId, saves: seq<Save>, step: (Tables, Save) -> Tables)
    requires Numbered(t.versions) && 1 <= d <= |t.documents|
    requires forall s | s in saves :: CanWrite(t, d, s.actor)
    requires EachChangesContent(t.documents[d - 1].content, saves)
    requires forall t0: Tables, s: Save {:trigger step(t0, s)} | Numbered(t0.versions) && CanWrite(t0, d, s.actor) && s.content != t0.documents[d - 1].content ::
               ArchivesAndWrites(t0, step(t0, s), d, s)
    ensures History(RunSaves(t, saves, step).versions, d)
         == History(t.versions, d) + ExpectedVersions(d, |History(t.versions, d)| + 1, t.documents[d - 1].content, saves)
    decreases |saves|
  {
    if saves != [] {
      var t' := step(t, saves[0]);
      assert ArchivesAndWrites(t, t', d, saves[0]);
      assert forall s | s in saves[1..] :: s in saves;
      forall i | 0 <= i < |saves[1..]|
        ensures saves[1..][i].content != ContentBefore(saves[0].content, saves[1..], i)
      {
        ContentBeforeTail(t.documents[d - 1].content, saves, i + 1);
      }
      RunAppendsVersions(t', d, saves[1..], step);
      var h, prior := History(t.versions, d), t.documents[d - 1].content;
      var v := Version(d, |h| + 1, prior, saves[0].actor);
      var mid := History(t'.versions, d);
      assert mid == h + [v] && t'.documents[d - 1].content == saves[0].content;
      assert |mid| + 1 == |h| + 2;
      var rest := ExpectedVersions(d, |h| + 2, saves[0].content, saves[1..]);
      var final := History(RunSaves(t', saves[1..], step).versions, d);
      assert final == mid + rest;
      ExpectedVersionsCons(d, |h| + 1, prior, saves);
      AppendThenExtend(h, mid, final, v, rest);
      assert RunSaves(t, saves, step) == RunSaves(t', saves[1..], step);
    } else {
      AppendNothing(History(t.versions, d));
    }
  }

  /** Every content-changing save by an editor, on any store, archives and writes. */
  lemma SavesArchiveAndWrite(d: DocId, faults: set<string>)
    ensures forall t0: Tables, s: Save {:trigger SaveOn(d, faults)(t0, s)}
              | Numbered(t0.versions) && CanWrite(t0, d, s.actor) && s.content != t0.documents[d - 1].content ::
              ArchivesAndWrites(t0, SaveOn(d, faults)(t0, s), d, s)
  {
    forall t0: Tables, s: Save | Numbered(t0.versions) && CanWrite(t0, d, s.actor) && s.content != t0.documents[d - 1].content
      ensures ArchivesAndWrites(t0, SaveOn(d, faults)(t0, s), d, s)
    {
      SaveArchivesAndWrites(t0, d, s, faults);
    }
  }

  /** Content-changing saves by editors append their versions in order, numbered on from the current history. */
  lemma SavesAppendVersions(t: Tables, d: DocId, saves: seq<Save>, faults: set<string>)
    requires Numbered(t.versions) && 1 <= d <= |t.documents|
    requires forall s | s in saves :: CanWrite(t, d, s.actor)
    requires EachChangesContent(t.documents[d - 1].content, saves)
    ensures History(RunSaves(t, saves, SaveOn(d, faults)).versions, d)
         == History(t.versions, d) + ExpectedVersions(d, |History(t.versions, d)| + 1, t.documents[d - 1].content, saves)
  {
    SavesArchiveAndWrite(d, faults);
    RunAppendsVersions(t, d, saves, SaveOn(d, faults));
  }

  /**
   * N content-changing saves on a document without versions leave versions
   * 1..N, no gaps; version k holds the content from before save k and names
   * the editor of save k.
   */
  lemma FreshDocumentSavesNumberOneToN(t: Tables, d: DocId, saves: seq<Save>, faults: set<string>)
    requires Numbered(t.versions) && 1 <= d <= |t.documents| && History(t.versions, d) == []
    requires forall s | s in saves :: CanWrite(t, d, s.actor)
    requires EachChangesContent(t.documents[d - 1].content, saves)
    ensures var h := History(RunSaves(t, saves, SaveOn(d, faults)).versions, d);
      && |h| == |saves|
      && forall k | 0 <= k < |saves| ::
           && h[k].number == k + 1
           && h[k].content == ContentBefore(t.documents[d - 1].content, saves, k)
           && h[k].modifiedBy == saves[k].actor
  {
    SavesAppendVersions(t, d, saves, faults);
    RowsFromOne(t, d, saves, RunSaves(t, saves, SaveOn(d, faults)));
  }

  /** A store whose history of `d` went from empty to exactly the expected rows, stated row by row. */
  lemma RowsFromOne(t: Tables, d: DocId, saves: seq<Save>, final: Tables)
    requires 1 <= d <= |t.documents| && History(t.versions, d) == []
    requires History(final.versions, d)
          == History(t.versions, d) + ExpectedVersions(d, |History(t.versions, d)| + 1, t.documents[d - 1].content, saves)
    ensures var h := History(final.versions, d);
      && |h| == |saves|
      && forall k | 0 <= k < |saves| ::
           && h[k].number == k + 1
           && h[k].content == ContentBefore(t.documents[d - 1].content, saves, k)
           && h[k].modifiedBy == saves[k].actor
  {
    var rows := ExpectedVersions(d, 1, t.documents[d - 1].content, saves);
    PrependNothing(rows);
    assert History(final.versions, d) == rows;
  }


  // ---------------------------------------------------------------------
  // Reads

  /** Versions numbered in insertion order come back exactly reversed. */
  lemma {:induction false} SortReversesAscending(ws: seq<VersionView>)
    requires forall i, j | 0 <= i < j < |ws| :: ws[i].number < ws[j].number
    ensures SortNewestFirst(ws) == Reversed(ws)
    decreases |ws|
  {
    if ws != [] {
      SortReversesAscending(ws[1..]);
      InsertOldest(ws[0], Reversed(ws[1..]));
    }
  }

  function Reversed(ws: seq<VersionView>): (r: seq<VersionView>)
    ensures |r| == |ws| && forall i | 0 <= i < |ws| :: r[i] == ws[|ws| - 1 - i]
  {
    if ws == [] then [] else Reversed(ws[1..]) + [ws[0]]
  }

  /** Inserting a version older than all others puts it last. */
  lemma {:induction false} InsertOldest(w: VersionView, ws: seq<VersionView>)
    requires NewestFirst(ws) && forall x | x in ws :: w.number < x.number
    ensures InsertNewestFirst(w, ws) == ws + [w]
    decreases |ws|
  {
    if ws != [] {
      InsertOldest(w, ws[1..]);
      assert ws == [ws[0]] + ws[1..];
    }
  }

  /** With numbered histories, the version history is exactly n, n-1, ..., 1: strictly descending, newest first. */
  lemma VersionHistoryStrictlyDescending(t: Tables, d: DocId, u: UserId)
    requires Numbered(t.versions) && CanRead(t, d, u)
    ensures var r := GetVersionHistory(t, d, u);
      && r.Success? && |r.value| == |History(t.versions, d)|
      && forall i | 0 <= i < |r.value| :: r.value[i].number == |r.value| - i
  {
    var h := History(t.versions, d);
    var ws := ViewsOf(t.users, h);
    SortReversesAscending(ws);
  }

  /** With the owner never holding a share row, no document is listed both as owned and as shared. */
  lemma OwnedAndSharedDisjoint(t: Tables, u: UserId, search: Option<string>)
    requires OwnerNeverShared(t)
    ensures var (owned, shared) := GetDocuments(t, u, search);
      forall x, y | x in owned && y in shared :: x.id != y.id
  {
    OwnedNeverShared(t, u, search);
    SharedListingRows(t, u, search, |t.documents|);
  }

  /** None of the user's own documents carries a share row for them. */
  lemma OwnedNeverShared(t: Tables, u: UserId, search: Option<string>)
    requires OwnerNeverShared(t)
    ensures forall x | x in OwnedListing(t, u, search, |t.documents|) :: ShareKey(x.id, u) !in t.shares
  {
    var owned := OwnedListing(t, u, search, |t.documents|);
    OwnedListingRows(t, u, search, |t.documents|);
    forall x | x in owned
      ensures ShareKey(x.id, u) !in t.shares
    {
      OwnerHoldsNoShareRow(t, x.id, u);
    }
  }

  lemma OwnerHoldsNoShareRow(t: Tables, d: DocId, u: UserId)
    requires OwnerNeverShared(t) && IsOwner(t, d, u)
    ensures ShareKey(d, u) !in t.shares
  {
  }

}
