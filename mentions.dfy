/**
 * The mention scanner of `updateDocument`: the global regular expression
 *   /@([a-zA-Z0-9._%+-]+@[a-zA-Z0-9.-]+\.[a-zA-Z]{2,})/g
 * run with `exec` until it returns null, each capture added to a `Set`.
 *
 * `MatchesAt` is the language of the expression, stated on positions of the
 * content; `MatchEnd` is the backtracking matcher's choice at one position,
 * proved sound and complete against `MatchesAt` by `MatchEndSound` and
 * `MatchEndComplete`;
 * `Scan` is the `exec` loop; `ExtractMentionedEmails` is the loop that fills
 * the insertion-ordered set.
 */
module Mentions {

  import opened Schema

  /** The ASCII character classes of the expression (no `i` or `u` flag). */
  datatype CharClass = LocalPart | DomainPart | Letter

  predicate IsLetter(c: char) {
    'a' <= c <= 'z' || 'A' <= c <= 'Z'
  }

  predicate InClass(cls: CharClass, c: char) {
    match cls
    case Letter => IsLetter(c)
    case LocalPart => IsLetter(c) || '0' <= c <= '9' || c == '.' || c == '_' || c == '%' || c == '+' || c == '-'
    case DomainPart => IsLetter(c) || '0' <= c <= '9' || c == '.' || c == '-'
  }

  ghost predicate AllIn(cls: CharClass, w: string) {
    forall x | 0 <= x < |w| :: InClass(cls, w[x])
  }

  /** An address `local@domain.tld`: non-empty local part and domain, a top-level domain of two or more letters. */
  ghost predicate IsEmail(e: string) {
    exists local: string, domain: string, tld: string ::
      && e == local + "@" + domain + "." + tld
      && |local| >= 1 && AllIn(LocalPart, local)
      && |domain| >= 1 && AllIn(DomainPart, domain)
      && |tld| >= 2 && AllIn(Letter, tld)
  }

  /** A match of the expression with its three parts located: the marker at `p`, the address's `@` at `q`, the dot before the top-level domain at `j`. */
  ghost predicate SpanAt(s: string, p: int, q: int, j: int, k: int) {
    && 0 <= p && p + 1 < q && q + 1 < j && j + 2 < k && k <= |s|
    && s[p] == '@' && s[q] == '@' && s[j] == '.'
    && (forall x | p < x < q :: InClass(LocalPart, s[x]))
    && (forall x | q < x < j :: InClass(DomainPart, s[x]))
    && (forall x | j < x < k :: InClass(Letter, s[x]))
  }

  /** `s[p..k]` is in the language of the expression (see `MatchesAtIsMarkerAndEmail`). */
  ghost predicate MatchesAt(s: string, p: int, k: int) {
    exists q, j :: SpanAt(s, p, q, j, k)
  }

  /** A match is exactly a mention marker `@` followed by an address. */
  lemma MatchesAtIsMarkerAndEmail(s: string, p: int, k: int)
    ensures MatchesAt(s, p, k) <==> 0 <= p < k <= |s| && s[p] == '@' && IsEmail(s[p + 1..k])
  {
    if MatchesAt(s, p, k) {
      var q, j :| SpanAt(s, p, q, j, k);
      SpanIsEmail(s, p, q, j, k);
    }
    if 0 <= p < k <= |s| && s[p] == '@' && IsEmail(s[p + 1..k]) {
      var q, j := LocateEmail(s, p, k);
    }
  }

  /** Where a greedy run of `cls` characters starting at `i` stops. */
  function RunEnd(s: string, i: nat, cls: CharClass): (r: nat)
    requires i <= |s|
    ensures i <= r <= |s|
    decreases |s| - i
  {
    if i == |s| || !InClass(cls, s[i]) then i else RunEnd(s, i + 1, cls)
  }

  /** The run is all in the class and stops at the end or at the first character outside it. */
  lemma {:induction false} RunEndStops(s: string, i: nat, cls: CharClass)
    requires i <= |s|
    ensures forall x | i <= x < RunEnd(s, i, cls) :: InClass(cls, s[x])
    ensures RunEnd(s, i, cls) == |s| || !InClass(cls, s[RunEnd(s, i, cls)])
    decreases |s| - i
  {
    if i < |s| && InClass(cls, s[i]) {
      RunEndStops(s, i + 1, cls);
    }
  }

  /** The dot at `j` can end the domain part: two or more letters follow it. */
  predicate IsTldDot(s: string, j: nat)
    requires j < |s|
  {
    s[j] == '.' && RunEnd(s, j + 1, Letter) >= j + 3
  }

  /** The greedy domain part gives back characters one at a time: the last dot in `lo..hi` that can end it. */
  function LastTldDot(s: string, lo: nat, hi: int): (r: Option<nat>)
    requires hi < |s|
    ensures r.Some? ==> lo <= r.value <= hi
    decreases hi - lo
  {
    if hi < lo then None
    else if IsTldDot(s, hi) then Some(hi)
    else LastTldDot(s, lo, hi - 1)
  }

  /** The dot found can end the domain part, and no later dot in `lo..hi` can. */
  lemma {:induction false} LastTldDotIsLast(s: string, lo: nat, hi: int)
    requires hi < |s|
    ensures LastTldDot(s, lo, hi).Some? ==> IsTldDot(s, LastTldDot(s, lo, hi).value)
    ensures forall j: nat | lo <= j <= hi && (LastTldDot(s, lo, hi).None? || LastTldDot(s, lo, hi).value < j) :: !IsTldDot(s, j)
    decreases hi - lo
  {
    if lo <= hi && !IsTldDot(s, hi) {
      LastTldDotIsLast(s, lo, hi - 1);
    }
  }

  /**
   * Where the backtracking matcher's attempt at position `p` ends, if it
   * succeeds: the marker, then the local part as the whole run of local
   * characters (it cannot contain `@`), then `AfterLocal`.
   */
  function MatchEnd(s: string, p: nat): (r: Option<nat>)
    requires p < |s|
    ensures r.Some? ==> p < r.value <= |s|
  {
    if s[p] != '@' then None else AfterLocal(s, p, RunEnd(s, p + 1, LocalPart))
  }

  /** The local part's run ends at `q`: it must be non-empty and followed by the address's `@`. */
  function AfterLocal(s: string, p: nat, q: nat): (r: Option<nat>)
    requires p < q <= |s|
    ensures r.Some? ==> q < r.value <= |s|
  {
    if q == p + 1 || q == |s| || s[q] != '@' then None else AfterAt(s, q)
  }

  /** After the address's `@` at `q`: the greedy domain part backs off to the last usable dot, and the top-level domain takes every letter after it. */
  function AfterAt(s: string, q: nat): (r: Option<nat>)
    requires q < |s|
    ensures r.Some? ==> q < r.value <= |s|
  {
    match LastTldDot(s, q + 2, RunEnd(s, q + 1, DomainPart) - 1)
    case None => None
    case Some(j) => Some(RunEnd(s, j + 1, Letter))
  }

  /** What the matcher returns is a match. */
  lemma MatchEndSound(s: string, p: nat)
    requires p < |s|
    ensures MatchEnd(s, p).Some? ==> MatchesAt(s, p, MatchEnd(s, p).value)
  {
    if MatchEnd(s, p).Some? {
      var q := RunEnd(s, p + 1, LocalPart);
      RunEndStops(s, p + 1, LocalPart);
      var j := AfterAtSound(s, q);
      assert SpanAt(s, p, q, j, MatchEnd(s, p).value);
    }
  }

  /** What follows the `@` at `q` when `AfterAt` succeeds: a domain part, the dot `j`, a top-level domain. */
  lemma AfterAtSound(s: string, q: nat) returns (j: nat)
    requires q < |s| && AfterAt(s, q).Some?
    ensures q + 1 < j && j + 2 < AfterAt(s, q).value && s[j] == '.'
    ensures forall x | q < x < j :: InClass(DomainPart, s[x])
    ensures forall x | j < x < AfterAt(s, q).value :: InClass(Letter, s[x])
  {
    var e := RunEnd(s, q + 1, DomainPart);
    LastTldDotIsLast(s, q + 2, e - 1);
    j := LastTldDot(s, q + 2, e - 1).value;
    RunEndStops(s, q + 1, DomainPart);
    RunEndStops(s, j + 1, Letter);
  }

  /** No match at `p` is missed or longer than what the matcher returns. */
  lemma MatchEndComplete(s: string, p: nat)
    requires p < |s|
    ensures forall k | MatchesAt(s, p, k) :: MatchEnd(s, p).Some? && k <= MatchEnd(s, p).value
  {
    forall k | MatchesAt(s, p, k) ensures MatchEnd(s, p).Some? && k <= MatchEnd(s, p).value {
      var q', j' :| SpanAt(s, p, q', j', k);
      MatchEndLongest(s, p, q', j', k);
    }
  }

  /** What a located match captures is an address. */
  lemma SpanIsEmail(s: string, p: int, q: int, j: int, k: int)
    requires SpanAt(s, p, q, j, k)
    ensures IsEmail(s[p + 1..k])
  {
    var local, domain, tld := s[p + 1..q], s[q + 1..j], s[j + 1..k];
    assert s[p + 1..k] == local + "@" + domain + "." + tld;
    assert AllIn(LocalPart, local) && AllIn(DomainPart, domain) && AllIn(Letter, tld);
  }

  /** A marker followed by an address can be located. */
  lemma LocateEmail(s: string, p: int, k: int) returns (q: int, j: int)
    requires 0 <= p < k <= |s| && s[p] == '@' && IsEmail(s[p + 1..k])
    ensures SpanAt(s, p, q, j, k)
  {
    var local, domain, tld := EmailParts(s[p + 1..k]);
    q, j := LocateParts(s, p, k, local, domain, tld);
  }

  /** Where the parts of the address `s[p + 1..k]` sit in `s`. */
  lemma LocateParts(s: string, p: int, k: int, local: string, domain: string, tld: string) returns (q: int, j: int)
    requires 0 <= p < k <= |s| && s[p] == '@'
    requires s[p + 1..k] == local + "@" + domain + "." + tld
    requires |local| >= 1 && AllIn(LocalPart, local)
    requires |domain| >= 1 && AllIn(DomainPart, domain)
    requires |tld| >= 2 && AllIn(Letter, tld)
    ensures SpanAt(s, p, q, j, k)
  {
    var w := s[p + 1..k];
    PartsAt(local, domain, tld);
    q := p + 1 + |local|;
    j := q + 1 + |domain|;
    assert s[q] == w[|local|];
    assert s[j] == w[|local| + 1 + |domain|];
    PartIn(s, p + 1, k, 0, local, LocalPart);
    PartIn(s, p + 1, k, |local| + 1, domain, DomainPart);
    PartIn(s, p + 1, k, |local| + 2 + |domain|, tld, Letter);
  }

  /** The characters of `s` that a part of `s[lo..hi]` copies are in the part's class. */
  lemma PartIn(s: string, lo: int, hi: int, off: int, part: string, cls: CharClass)
    requires 0 <= lo <= hi <= |s| && 0 <= off && lo + off + |part| <= hi
    requires forall x | 0 <= x < |part| :: s[lo..hi][off + x] == part[x]
    requires AllIn(cls, part)
    ensures forall x | lo + off <= x < lo + off + |part| :: InClass(cls, s[x])
  {
    forall x | lo + off <= x < lo + off + |part| ensures InClass(cls, s[x]) {
      assert s[x] == s[lo..hi][off + (x - lo - off)] == part[x - lo - off];
    }
  }

  /** The three parts of an address. */
  lemma EmailParts(e: string) returns (local: string, domain: string, tld: string)
    requires IsEmail(e)
    ensures e == local + "@" + domain + "." + tld
    ensures |local| >= 1 && AllIn(LocalPart, local)
    ensures |domain| >= 1 && AllIn(DomainPart, domain)
    ensures |tld| >= 2 && AllIn(Letter, tld)
  {
    local, domain, tld :|
      && e == local + "@" + domain + "." + tld
      && |local| >= 1 && AllIn(LocalPart, local)
      && |domain| >= 1 && AllIn(DomainPart, domain)
      && |tld| >= 2 && AllIn(Letter, tld);
  }

  /** Where each part of `local@domain.tld` sits. */
  lemma PartsAt(local: string, domain: string, tld: string)
    ensures var w := local + "@" + domain + "." + tld;
      && |w| == |local| + |domain| + |tld| + 2
      && (forall x | 0 <= x < |local| :: w[x] == local[x])
      && w[|local|] == '@'
      && (forall x | 0 <= x < |domain| :: w[|local| + 1 + x] == domain[x])
      && w[|local| + 1 + |domain|] == '.'
      && (forall x | 0 <= x < |tld| :: w[|local| + 2 + |domain| + x] == tld[x])
  {
  }

  /** A run stops exactly where its characters stop being in the class. */
  lemma {:induction false} RunEndUnique(s: string, i: nat, cls: CharClass, r: nat)
    requires i <= r <= |s|
    requires forall x | i <= x < r :: InClass(cls, s[x])
    requires r == |s| || !InClass(cls, s[r])
    ensures RunEnd(s, i, cls) == r
    decreases r - i
  {
    if i < r {
      RunEndUnique(s, i + 1, cls, r);
    }
  }

  /** The matcher finds every match that starts at `p`, and ends no earlier than any of them. */
  lemma MatchEndLongest(s: string, p: nat, q': int, j': int, k: int)
    requires p < |s| && SpanAt(s, p, q', j', k)
    ensures MatchEnd(s, p).Some? && k <= MatchEnd(s, p).value
  {
    RunEndUnique(s, p + 1, LocalPart, q');
    AfterAtReaches(s, q', j', k);
  }

  /** A domain part, a dot `j'` and letters up to `k` after the `@` at `q` make `AfterAt` succeed and reach `k`. */
  lemma AfterAtReaches(s: string, q: nat, j': nat, k: int)
    requires q + 1 < j' && j' + 2 < k <= |s| && s[j'] == '.'
    requires forall x | q < x < j' :: InClass(DomainPart, s[x])
    requires forall x | j' < x < k :: InClass(Letter, s[x])
    ensures AfterAt(s, q).Some? && k <= AfterAt(s, q).value
  {
    var e := RunEnd(s, q + 1, DomainPart);
    RunEndStops(s, q + 1, DomainPart);
    assert j' < e;
    RunEndStops(s, j' + 1, Letter);
    assert IsTldDot(s, j');
    LastDotReaches(s, q + 2, e - 1, j', k);
  }

  /** If a usable dot in `lo..hi` is followed by letters up to `k`, the last usable dot is found and its letters reach `k` too. */
  lemma LastDotReaches(s: string, lo: nat, hi: int, j': nat, k: int)
    requires hi < |s| && lo <= j' <= hi && IsTldDot(s, j') && k <= RunEnd(s, j' + 1, Letter)
    ensures LastTldDot(s, lo, hi).Some? && k <= RunEnd(s, LastTldDot(s, lo, hi).value + 1, Letter)
  {
    LastTldDotIsLast(s, lo, hi);
    RunEndStops(s, j' + 1, Letter);
    var j := LastTldDot(s, lo, hi).value;
    if j' < j {
      assert !InClass(Letter, s[j]);
    }
  }

  /** The `exec` loop from `lastIndex == i`: search for the leftmost match, capture it, resume at its end. */
  function Scan(s: string, i: nat): (r: seq<string>)
    requires i <= |s|
    ensures |r| <= |s| - i
    decreases |s| - i
  {
    if i == |s| then []
    else
      match MatchEnd(s, i)
      case Some(k) => [s[i + 1..k]] + Scan(s, k)
      case None => Scan(s, i + 1)
  }

  /** Every capture is an address. */
  lemma {:induction false} ScanCapturesEmails(s: string, i: nat)
    requires i <= |s|
    ensures forall e | e in Scan(s, i) :: IsEmail(e)
    decreases |s| - i
  {
    if i < |s| {
      match MatchEnd(s, i)
      case Some(k) =>
        MatchEndSound(s, i);
        var q, j :| SpanAt(s, i, q, j, k);
        SpanIsEmail(s, i, q, j, k);
        ScanCapturesEmails(s, k);
      case None =>
        ScanCapturesEmails(s, i + 1);
    }
  }

  /** The scan captures nothing exactly when nothing from `i` on matches. */
  lemma {:induction false} ScanEmptyIffNoMatch(s: string, i: nat)
    requires i <= |s|
    ensures Scan(s, i) == [] <==> forall p, k | i <= p :: !MatchesAt(s, p, k)
    decreases |s| - i
  {
    if i < |s| {
      match MatchEnd(s, i)
      case Some(k) =>
        MatchEndSound(s, i);
      case None =>
        ScanEmptyIffNoMatch(s, i + 1);
        NoMatchAtFailure(s, i);
    }
  }

  /** Where the matcher fails, nothing matches. */
  lemma NoMatchAtFailure(s: string, p: nat)
    requires p < |s| && MatchEnd(s, p).None?
    ensures forall k :: !MatchesAt(s, p, k)
  {
    MatchEndComplete(s, p);
  }

  /** Each `exec` captures the leftmost match after `lastIndex`, taken as long as the expression allows. */
  lemma ScanTakesLeftmostLongest(s: string, i: nat, p: nat, k: nat)
    requires i <= p && MatchesAt(s, p, k)
    requires forall p', k' | i <= p' < p :: !MatchesAt(s, p', k')
    ensures Scan(s, i) != [] && MatchEnd(s, p).Some?
    ensures Scan(s, i)[0] == s[p + 1..MatchEnd(s, p).value]
    ensures k <= MatchEnd(s, p).value
  {
    MatchBounds(s, p, k);
    MatchEndCovers(s, p, k);
    forall p' | i <= p' < p
      ensures MatchEnd(s, p').None?
    {
      NoMatchEnd(s, p');
    }
    ScanFirst(s, i, p);
    ScanCaptures(s, p);
  }

  /** From `i`, the scan skips every position where the matcher fails. */
  lemma {:induction false} ScanFirst(s: string, i: nat, p: nat)
    requires i <= p <= |s|
    requires forall p' | i <= p' < p :: MatchEnd(s, p').None?
    ensures Scan(s, i) == Scan(s, p)
    decreases p - i
  {
    if i < p {
      ScanFirst(s, i + 1, p);
      ScanSkips(s, i);
    }
  }

  /**
   * A match lies inside the content. This is index bookkeeping with nothing to say about the scanner;
   * it is kept apart only so that the proofs that use it stay cheap.
   */
  lemma MatchBounds(s: string, p: int, k: int)
    requires MatchesAt(s, p, k)
    ensures 0 <= p < k <= |s|
  {
  }

  /** Where the matcher fails, `exec` moves on by one position. */
  lemma ScanSkips(s: string, i: nat)
    requires i < |s| && MatchEnd(s, i).None?
    ensures Scan(s, i) == Scan(s, i + 1)
  {
  }

  /** Where the matcher succeeds, `exec` captures the address and resumes after the match. */
  lemma ScanCaptures(s: string, i: nat)
    requires i < |s| && MatchEnd(s, i).Some?
    ensures Scan(s, i) == [s[i + 1..MatchEnd(s, i).value]] + Scan(s, MatchEnd(s, i).value)
  {
  }

  /** Where nothing matches, the matcher fails. */
  lemma NoMatchEnd(s: string, p: nat)
    requires p < |s| && forall k :: !MatchesAt(s, p, k)
    ensures MatchEnd(s, p).None?
  {
    MatchEndSound(s, p);
  }

  /** A match at `p` is found by the matcher and ends no later than what it returns. */
  lemma MatchEndCovers(s: string, p: nat, k: nat)
    requires p < |s| && MatchesAt(s, p, k)
    ensures MatchEnd(s, p).Some? && k <= MatchEnd(s, p).value
  {
    MatchEndComplete(s, p);
  }

  predicate NoDuplicates(xs: seq<string>) {
    forall i, j | 0 <= i < j < |xs| :: xs[i] != xs[j]
  }

  /** Adding `xs` one by one to an insertion-ordered set that already holds `seen`. */
  function Dedup(seen: seq<string>, xs: seq<string>): (r: seq<string>)
    ensures NoDuplicates(seen) ==> NoDuplicates(r)
    ensures forall e :: e in r <==> e in seen || e in xs
    ensures |seen| <= |r| && r[..|seen|] == seen
    decreases |xs|
  {
    if xs == [] then seen
    else Dedup(if xs[0] in seen then seen else seen + [xs[0]], xs[1..])
  }

  /** The contents of the `mentionedEmails` set, in iteration order. */
  function MentionedEmails(content: string): (r: seq<string>)
    ensures NoDuplicates(r)
    ensures forall e :: e in r <==> e in Scan(content, 0)
  {
    Dedup([], Scan(content, 0))
  }

  /** The mention set holds only addresses, and is empty exactly when the content holds no match. */
  lemma MentionedEmailsAreMatches(content: string)
    ensures forall e | e in MentionedEmails(content) :: IsEmail(e)
    ensures MentionedEmails(content) == [] <==> forall p, k :: !MatchesAt(content, p, k)
  {
    ScanCapturesEmails(content, 0);
    ScanEmptyIffNoMatch(content, 0);
  }

  /** The `while (mentionRegex.exec(content))` loop and its `Set`. */
  method ExtractMentionedEmails(content: string) returns (emails: seq<string>)
    ensures emails == MentionedEmails(content)
    ensures NoDuplicates(emails) && forall e | e in emails :: IsEmail(e)
  {
    emails := [];
    var i := 0;
    while i < |content|
      invariant 0 <= i <= |content|
      invariant Dedup(emails, Scan(content, i)) == MentionedEmails(content)
      decreases |content| - i
    {
      match MatchEnd(content, i)
      case Some(k) =>
        ScanCaptures(content, i);
        var email := content[i + 1..k];
        if email !in emails {
          emails := emails + [email];
        }
        i := k;
      case None =>
        ScanSkips(content, i);
        i := i + 1;
    }
    MentionedEmailsAreMatches(content);
  }
}
