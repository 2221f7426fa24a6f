/**
 Updating a workflow file: its action references first, then the setup-compose versions of what that
 leaves.  Neither undoes the other, and doing both again changes nothing.
 */
module WorkflowTexts {
  import opened Prelude
  import opened Text
  import opened Lines
  import opened WorkflowVersions
  import opened WorkflowRewriting
  import opened WorkflowActions

  /** The text after both rewritings, and the updates of both. */
  datatype Updated = Updated(text: string, actions: seq<ActionUpdate>, versions: seq<string>)

  function UpdatedText(text: string, latest: LatestTags, version: Option<string>): Updated {
    var rewritten := Rewrite(text, 0, latest);
    match version
    case None => Updated(rewritten, Updates(text, 0, latest), [])
    case Some(v) =>
      var lines := KeptLines(rewritten);
      Updated(NewText(rewritten, v), Updates(text, 0, latest), OldRefs(lines, v, |lines|))
  }

  method UpdatedWorkflowActionText(text: string, latest: LatestTags, version: Option<string>) returns (result: Updated)
    ensures result == UpdatedText(text, latest, version)
  {
    var rewritten, actions := UpdatedActionRefs(text, latest);
    var updated, versions := UpdatedSetupComposeVersionText(rewritten, version);
    return Updated(updated, actions, versions);
  }

  // ----- A version in a text -----

  /** `uses:` does not occur in it. */
  ghost predicate NamesNoUse(ref: string) {
    forall i :: 0 <= i <= |ref| ==> !OccursAt(ref, "uses:", i)
  }

  /** In `s`, white space or nothing, then `version:` at `q`, white space, and a reference from `b` to `e`. */
  ghost predicate HasVersion(s: string, q: nat, b: nat, e: nat) {
    && q + 8 <= b < e <= |s| && OccursAt(s, "version:", q) && (q > 0 ==> IsSpace(s[q - 1]))
    && (forall k :: q + 8 <= k < b ==> IsSpace(s[k])) && (forall k :: b <= k < e ==> IsRefChar(s[k]))
    && (e < |s| ==> !IsRefChar(s[e])) && NamesNoUse(s[b..e])
  }

  lemma NoSpaceInMatch(s: string, i: nat)
    requires i <= |s| && MatchUses(s, i).Some?
    ensures var m := MatchUses(s, i).value;
            (forall x :: i <= x < i + 5 || m.start <= x < m.end ==> !IsSpace(s[x])) &&
            (forall x :: i + 5 <= x < m.start ==> IsSpace(s[x]))
  {
    var k := MatchHasHead(s, i);
    UsesChars(s, i);
  }

  lemma VersionChars(s: string, q: nat)
    requires OccursAt(s, "version:", q)
    ensures s[q + 7] == ':' && forall x :: q <= x < q + 8 ==> s[x] != 'u' && s[x] != '/' && !IsSpace(s[x])
  {
    var found := s[q..q + 8];
    assert forall x :: q <= x < q + 8 ==> s[x] == found[x - q];
  }

  lemma OwnerPastVersion(s: string, i: nat, q: nat)
    requires i <= |s| && MatchUses(s, i).Some? && OccursAt(s, "version:", q)
    ensures MatchUses(s, i).value.start != q
  {
    var k := MatchHasHead(s, i);
    VersionChars(s, q);
  }

  /** A match that starts before the version ends before it. */
  lemma MatchEndsBefore(s: string, q: nat, b: nat, e: nat, i: nat)
    requires HasVersion(s, q, b, e) && i < q && MatchUses(s, i).Some?
    ensures MatchUses(s, i).value.end < q
  {
    NoSpaceInMatch(s, i);
    VersionChars(s, q);
    OwnerPastVersion(s, i, q);
  }

  lemma UsesAreRefChars(s: string, i: nat)
    requires OccursAt(s, "uses:", i)
    ensures s[i] == 'u' && forall x :: i <= x < i + 5 ==> IsRefChar(s[x])
  {
    UsesChars(s, i);
  }

  lemma UseInSlice(s: string, b: nat, e: nat, i: nat)
    requires b <= i && i + 5 <= e <= |s| && OccursAt(s, "uses:", i)
    ensures OccursAt(s[b..e], "uses:", i - b)
  {
    SliceOfSlice(s, b, e - b, i - b, i - b + 5);
  }

  lemma UsesIsInRef(s: string, q: nat, b: nat, e: nat, i: nat)
    requires HasVersion(s, q, b, e) && q <= i < e
    ensures !OccursAt(s, "uses:", i)
  {
    if OccursAt(s, "uses:", i) {
      UsesAreRefChars(s, i);
      VersionChars(s, q);
      if i >= b && i + 5 <= e { UseInSlice(s, b, e, i); }
    }
  }

  // ----- Another version in its place -----

  /** `t` is `s` with another reference, up to `f`, in place of the one up to `e`. */
  ghost predicate OtherVersion(s: string, t: string, q: nat, b: nat, e: nat, f: nat) {
    HasVersion(s, q, b, e) && HasVersion(t, q, b, f) && SameUpTo(s, t, b) && SameTail(s, e, t, f)
  }

  /** Where, in both texts, the versions stand. */
  datatype Span = Span(q: nat, b: nat, e: nat, f: nat)

  ghost predicate OtherAt(s: string, t: string, at: Span) {
    OtherVersion(s, t, at.q, at.b, at.e, at.f)
  }

  ghost predicate SameUpTo(s: string, t: string, n: nat) {
    n <= |s| && n <= |t| && forall x :: 0 <= x < n ==> s[x] == t[x]
  }

  /** `t` from `p` on is `s` from `i` on. */
  ghost predicate SameTail(s: string, i: nat, t: string, p: nat) {
    i <= |s| && p <= |t| && |s| - i == |t| - p && forall x :: i <= x < |s| ==> s[x] == t[x - i + p]
  }

  lemma SameUses(s: string, i: nat, t: string, p: nat)
    requires OccursAt(s, "uses:", i) && p + 5 <= |t| && forall x :: i <= x < i + 5 ==> s[x] == t[x - i + p]
    ensures OccursAt(t, "uses:", p)
  {
    UsesChars(s, i);
    assert t[p] == s[i] && t[p + 1] == s[i + 1] && t[p + 2] == s[i + 2] && t[p + 3] == s[i + 3] && t[p + 4] == s[i + 4];
  }

  /** A head is a head wherever its characters stand. */
  lemma HeadCopied(s: string, i: nat, j: nat, k: nat, l: nat, t: string, p: nat)
    requires IsHead(s, i, j, k, l) && p + (l + 2 - i) <= |t| && forall x :: i <= x < l + 2 ==> s[x] == t[x - i + p]
    ensures p <= j - i + p && p <= k - i + p && IsHead(t, p, j - i + p, k - i + p, l - i + p)
  {
    SameUses(s, i, t, p);
    forall x | p + 5 <= x < j - i + p ensures IsSpace(t[x]) { assert s[x - p + i] == t[x]; }
    forall x | j - i + p <= x < k - i + p || k - i + p < x < l - i + p ensures IsNameChar(t[x]) {
      assert s[x - p + i] == t[x];
    }
    assert s[k] == t[k - i + p] && s[l] == t[l - i + p] && s[l + 1] == t[l + 1 - i + p];
  }

  /** What decides about a match, and where its reference ends. */
  ghost predicate HeadOf(s: string, i: nat, m: Action, k: nat) {
    i <= m.start && i <= k && i <= m.at < m.end && IsHead(s, i, m.start, k, m.at) && RefEnd(s, m.at + 1) == m.end
  }

  lemma MatchHasHeadOf(s: string, i: nat, m: Action) returns (k: nat)
    requires i <= |s| && MatchUses(s, i) == Some(m)
    ensures HeadOf(s, i, m, k) && Boundary(s, i) && s[i] == 'u'
  {
    k := MatchHasHead(s, i);
    UsesChars(s, i);
  }

  lemma HeadOfFinds(s: string, i: nat, m: Action, k: nat)
    requires i <= |s| && HeadOf(s, i, m, k) && Boundary(s, i)
    ensures MatchUses(s, i) == Some(m)
  {
    HeadFinds(s, i, k, m);
  }

  lemma HeadBeforeStays(s: string, t: string, n: nat, i: nat, m: Action, k: nat)
    requires SameUpTo(s, t, n) && HeadOf(s, i, m, k) && m.end < n
    ensures HeadOf(t, i, m, k) && Boundary(s, i) == Boundary(t, i)
  {
    HeadCopied(s, i, m.start, k, m.at, t, i);
    RefEndIs(t, m.at + 1, m.end);
  }

  lemma MatchBeforeStays(s: string, t: string, q: nat, b: nat, e: nat, f: nat, i: nat)
    requires OtherVersion(s, t, q, b, e, f) && i < q && MatchUses(s, i).Some?
    ensures MatchUses(t, i) == MatchUses(s, i)
  {
    var m := MatchUses(s, i).value;
    MatchEndsBefore(s, q, b, e, i);
    MatchBeforeStaysIn(s, t, b, i, m);
  }

  lemma MatchBeforeStaysIn(s: string, t: string, n: nat, i: nat, m: Action)
    requires SameUpTo(s, t, n) && i <= n && MatchUses(s, i) == Some(m) && m.end < n
    ensures MatchUses(t, i) == Some(m)
  {
    var k := MatchHasHeadOf(s, i, m);
    HeadBeforeStays(s, t, n, i, m, k);
    HeadOfFinds(t, i, m, k);
  }

  lemma SameMatchBefore(s: string, t: string, q: nat, b: nat, e: nat, f: nat, i: nat)
    requires OtherVersion(s, t, q, b, e, f) && i < q
    ensures MatchUses(t, i) == MatchUses(s, i)
  {
    if MatchUses(s, i).Some? {
      MatchBeforeStays(s, t, q, b, e, f, i);
    } else if MatchUses(t, i).Some? {
      TailsAreSame(s, e, t, f);
      MatchBeforeStays(t, s, q, b, f, e, i);
    }
  }

  lemma SameSlice(s: string, t: string, n: nat, x: nat, y: nat)
    requires SameUpTo(s, t, n) && x <= y <= n
    ensures s[x..y] == t[x..y]
  {
  }

  lemma SameReported(s: string, m: Action, t: string, h: Action, latest: LatestTags)
    requires m.start <= m.at < m.end <= |s| && h.start <= h.at < h.end <= |t|
    requires s[m.start..m.at] == t[h.start..h.at] && s[m.at + 1..m.end] == t[h.at + 1..h.end]
    ensures Reported(s, m, latest) == Reported(t, h, latest)
  {
  }

  lemma SameEmitted(s: string, t: string, q: nat, b: nat, e: nat, f: nat, i: nat, latest: LatestTags)
    requires OtherVersion(s, t, q, b, e, f) && i < q
    ensures Emit(t, i, latest).updates == Emit(s, i, latest).updates
    ensures Emit(t, i, latest).next == Emit(s, i, latest).next <= q
  {
    SameMatchBefore(s, t, q, b, e, f, i);
    if MatchUses(s, i).Some? {
      var m := MatchUses(s, i).value;
      MatchEndsBefore(s, q, b, e, i);
      SameSlice(s, t, b, m.start, m.at);
      SameSlice(s, t, b, m.at + 1, m.end);
      SameReported(s, m, t, m, latest);
    }
  }

  lemma NoMatchInVersion(s: string, q: nat, b: nat, e: nat, i: nat)
    requires HasVersion(s, q, b, e) && q <= i < e
    ensures MatchUses(s, i).None?
  {
    UsesIsInRef(s, q, b, e, i);
  }

  lemma RefEndMoves(s: string, t: string, i: nat, p: nat, b: nat)
    requires SameTail(s, i, t, p) && i <= b <= |s|
    ensures p <= b - i + p <= |t| && RefEnd(t, b - i + p) == RefEnd(s, b) - i + p
  {
    var e := RefEnd(s, b);
    forall x | b - i + p <= x < e - i + p ensures IsRefChar(t[x]) { assert s[x - p + i] == t[x]; }
    assert e < |s| ==> s[e] == t[e - i + p];
    RefEndIs(t, b - i + p, e - i + p);
  }

  /** Where a match stands when the text from `i` on stands at `p`. */
  function Moved(m: Action, i: nat, p: nat): Action
    requires i <= m.start && i <= m.at && i <= m.end
  {
    Action(m.start - i + p, m.at - i + p, m.end - i + p)
  }

  lemma HeadAfterMoves(s: string, t: string, i: nat, p: nat, m: Action, k: nat)
    requires SameTail(s, i, t, p) && HeadOf(s, i, m, k)
    ensures p <= k - i + p && HeadOf(t, p, Moved(m, i, p), k - i + p)
  {
    HeadCopied(s, i, m.start, k, m.at, t, p);
    RefEndMoves(s, t, i, p, m.at + 1);
  }

  lemma MatchAfterMoves(s: string, t: string, i: nat, p: nat, m: Action)
    requires SameTail(s, i, t, p) && (i < |s| && s[i] == 'u' ==> Boundary(s, i) == Boundary(t, p))
    requires MatchUses(s, i) == Some(m)
    ensures MatchUses(t, p) == Some(Moved(m, i, p))
  {
    var k := MatchHasHeadOf(s, i, m);
    HeadAfterMoves(s, t, i, p, m, k);
    HeadOfFinds(t, p, Moved(m, i, p), k - i + p);
  }

  lemma SliceMoves(s: string, t: string, i: nat, p: nat, x: nat, y: nat)
    requires SameTail(s, i, t, p) && i <= x <= y <= |s|
    ensures p <= x - i + p && y - i + p <= |t| && s[x..y] == t[x - i + p..y - i + p]
  {
    var a, c := s[x..y], t[x - i + p..y - i + p];
    forall z | 0 <= z < y - x ensures a[z] == c[z] { assert s[x + z] == t[x + z - i + p]; }
  }

  lemma EmitMatch(s: string, i: nat, m: Action, latest: LatestTags)
    requires i < |s| && MatchUses(s, i) == Some(m)
    ensures Emit(s, i, latest).updates == Reported(s, m, latest) && Emit(s, i, latest).next == m.end
  {
  }

  lemma MovedReported(s: string, t: string, i: nat, p: nat, m: Action, latest: LatestTags)
    requires SameTail(s, i, t, p) && i <= m.start <= m.at < m.end <= |s|
    ensures m.end - i + p <= |t| && Reported(t, Moved(m, i, p), latest) == Reported(s, m, latest)
  {
    SliceMoves(s, t, i, p, m.start, m.at);
    SliceMoves(s, t, i, p, m.at + 1, m.end);
    SameReported(s, m, t, Moved(m, i, p), latest);
  }

  lemma SameEmittedAfter(s: string, t: string, i: nat, p: nat, latest: LatestTags)
    requires SameTail(s, i, t, p) && i < |s| && p < |t| && (s[i] == 'u' ==> Boundary(s, i) == Boundary(t, p))
    ensures Emit(t, p, latest).updates == Emit(s, i, latest).updates
    ensures Emit(t, p, latest).next - p == Emit(s, i, latest).next - i
  {
    if MatchUses(s, i).Some? {
      var m := MatchUses(s, i).value;
      MatchAfterMoves(s, t, i, p, m);
      MovedReported(s, t, i, p, m, latest);
      EmitMatch(s, i, m, latest);
      EmitMatch(t, p, Moved(m, i, p), latest);
    } else if MatchUses(t, p).Some? {
      TailsAreSame(s, i, t, p);
      MatchAfterMoves(t, s, p, i, MatchUses(t, p).value);
    }
  }

  lemma TailsAreSame(s: string, i: nat, t: string, p: nat)
    requires SameTail(s, i, t, p)
    ensures SameTail(t, p, s, i)
  {
    forall x | p <= x < |t| ensures t[x] == s[x - p + i] { assert s[x - p + i] == t[x - p + i - i + p]; }
  }

  lemma TailGoesOn(s: string, t: string, i: nat, p: nat, n: nat)
    requires SameTail(s, i, t, p) && i + n <= |s| && 0 < n
    ensures SameTail(s, i + n, t, p + n) && Boundary(s, i + n) == Boundary(t, p + n)
  {
    assert s[i + n - 1] == t[i + n - 1 - i + p];
  }

  // ----- The same reports -----

  /** At every position, what is reported there and where the scan goes on. */
  datatype Scan = Scan(reported: seq<seq<ActionUpdate>>, nexts: seq<nat>)

  ghost predicate GoesOn(c: Scan) {
    |c.reported| == |c.nexts| && forall x :: 0 <= x < |c.nexts| ==> x < c.nexts[x] <= |c.nexts|
  }

  ghost function Reports(c: Scan, i: nat): seq<ActionUpdate>
    requires GoesOn(c) && i <= |c.nexts|
    decreases |c.nexts| - i
  {
    if i == |c.nexts| then [] else c.reported[i] + Reports(c, c.nexts[i])
  }

  ghost predicate IsScan(c: Scan, s: string, latest: LatestTags) {
    |c.reported| == |c.nexts| == |s| &&
    forall x :: 0 <= x < |s| ==> c.reported[x] == Emit(s, x, latest).updates && c.nexts[x] == Emit(s, x, latest).next
  }

  lemma {:induction false} ReportsAreUpdates(s: string, latest: LatestTags, c: Scan, i: nat)
    requires IsScan(c, s, latest) && GoesOn(c) && i <= |s|
    ensures Reports(c, i) == Updates(s, i, latest)
    decreases |s| - i
  {
    if i < |s| {
      EmitFirst(s, i, latest);
      ReportsAreUpdates(s, latest, c, c.nexts[i]);
    }
  }

  lemma ScanOf(s: string, latest: LatestTags) returns (c: Scan)
    ensures IsScan(c, s, latest) && GoesOn(c) && Reports(c, 0) == Updates(s, 0, latest)
  {
    c := Scan(seq(|s|, x requires 0 <= x < |s| => Emit(s, x, latest).updates),
              seq(|s|, x requires 0 <= x < |s| => Emit(s, x, latest).next));
    ReportsAreUpdates(s, latest, c, 0);
  }

  /** Scans that agree up to `q` and both stop there report the same before it. */
  lemma {:induction false} ReportsBefore(c: Scan, d: Scan, i: nat, q: nat) returns (reports: seq<ActionUpdate>)
    requires GoesOn(c) && GoesOn(d) && i <= q <= |c.nexts| && q <= |d.nexts|
    requires forall x :: i <= x < q ==> c.reported[x] == d.reported[x] && c.nexts[x] == d.nexts[x] <= q
    ensures Reports(c, i) == reports + Reports(c, q) && Reports(d, i) == reports + Reports(d, q)
    decreases q - i
  {
    reports := [];
    if i < q {
      var rest := ReportsBefore(c, d, c.nexts[i], q);
      reports := c.reported[i] + rest;
      AppendAssociates(c.reported[i], rest, Reports(c, q));
      AppendAssociates(c.reported[i], rest, Reports(d, q));
    }
  }

  lemma {:induction false} ReportsNothing(c: Scan, i: nat, e: nat)
    requires GoesOn(c) && i <= e <= |c.nexts| && forall x :: i <= x < e ==> c.reported[x] == [] && c.nexts[x] == x + 1
    ensures Reports(c, i) == Reports(c, e)
    decreases e - i
  {
    if i < e { ReportsNothing(c, i + 1, e); }
  }

  lemma {:induction false} ReportsAfter(c: Scan, i: nat, d: Scan, p: nat)
    requires GoesOn(c) && GoesOn(d) && i <= |c.nexts| && p <= |d.nexts| && |c.nexts| - i == |d.nexts| - p
    requires forall x :: i <= x < |c.nexts| ==>
               c.reported[x] == d.reported[x - i + p] && c.nexts[x] - i == d.nexts[x - i + p] - p
    ensures Reports(c, i) == Reports(d, p)
    decreases |c.nexts| - i
  {
    if i < |c.nexts| {
      assert c.reported[i] == d.reported[i - i + p];
      var n := c.nexts[i];
      forall x | n <= x < |c.nexts|
        ensures c.reported[x] == d.reported[x - n + d.nexts[p]]
        ensures c.nexts[x] - n == d.nexts[x - n + d.nexts[p]] - d.nexts[p]
      {
        assert c.reported[x] == d.reported[x - i + p];
      }
      ReportsAfter(c, n, d, d.nexts[p]);
    }
  }

  lemma EmitsNothing(s: string, q: nat, b: nat, e: nat, x: nat, latest: LatestTags)
    requires HasVersion(s, q, b, e) && q <= x < e
    ensures Emit(s, x, latest).updates == [] && Emit(s, x, latest).next == x + 1
  {
    NoMatchInVersion(s, q, b, e, x);
  }

  lemma SameEmittedInTail(s: string, t: string, e: nat, f: nat, x: nat, latest: LatestTags)
    requires SameTail(s, e, t, f) && e <= x < |s| && s[e] != 'u'
    ensures f <= x - e + f < |t| && Emit(t, x - e + f, latest).updates == Emit(s, x, latest).updates
    ensures Emit(t, x - e + f, latest).next - f == Emit(s, x, latest).next - e
  {
    if x > e { TailGoesOn(s, t, e, f, x - e); }
    SameEmittedAfter(s, t, x, x - e + f, latest);
  }

  lemma ScansOfVersion(s: string, c: Scan, q: nat, b: nat, e: nat, latest: LatestTags)
    requires HasVersion(s, q, b, e) && IsScan(c, s, latest) && GoesOn(c)
    ensures Reports(c, q) == Reports(c, e)
  {
    forall x | q <= x < e ensures c.reported[x] == [] && c.nexts[x] == x + 1 { EmitsNothing(s, q, b, e, x, latest); }
    ReportsNothing(c, q, e);
  }

  lemma ScansOfTail(s: string, c: Scan, t: string, d: Scan, e: nat, f: nat, latest: LatestTags)
    requires SameTail(s, e, t, f) && (e < |s| ==> s[e] != 'u')
    requires IsScan(c, s, latest) && GoesOn(c) && IsScan(d, t, latest) && GoesOn(d)
    ensures Reports(c, e) == Reports(d, f)
  {
    forall x | e <= x < |c.nexts|
      ensures c.reported[x] == d.reported[x - e + f] && c.nexts[x] - e == d.nexts[x - e + f] - f
    {
      SameEmittedInTail(s, t, e, f, x, latest);
    }
    ReportsAfter(c, e, d, f);
  }

  lemma ScansBefore(s: string, c: Scan, t: string, d: Scan, at: Span, latest: LatestTags)
    returns (reports: seq<ActionUpdate>)
    requires OtherAt(s, t, at) && IsScan(c, s, latest) && GoesOn(c) && IsScan(d, t, latest) && GoesOn(d)
    ensures Reports(c, 0) == reports + Reports(c, at.q) && Reports(d, 0) == reports + Reports(d, at.q)
  {
    forall x | 0 <= x < at.q ensures c.reported[x] == d.reported[x] && c.nexts[x] == d.nexts[x] <= at.q {
      SameEmitted(s, t, at.q, at.b, at.e, at.f, x, latest);
    }
    reports := ReportsBefore(c, d, 0, at.q);
  }

  lemma NoUseAfterVersion(s: string, q: nat, b: nat, e: nat)
    requires HasVersion(s, q, b, e) && e < |s|
    ensures s[e] != 'u'
  {
  }

  lemma ScansAfter(s: string, c: Scan, t: string, d: Scan, at: Span, latest: LatestTags)
    requires OtherAt(s, t, at) && IsScan(c, s, latest) && GoesOn(c) && IsScan(d, t, latest) && GoesOn(d)
    ensures Reports(c, at.e) == Reports(d, at.f)
  {
    if at.e < |s| { NoUseAfterVersion(s, at.q, at.b, at.e); }
    ScansOfTail(s, c, t, d, at.e, at.f, latest);
  }

  lemma ScansFrom(s: string, c: Scan, t: string, d: Scan, at: Span, latest: LatestTags)
    requires OtherAt(s, t, at) && IsScan(c, s, latest) && GoesOn(c) && IsScan(d, t, latest) && GoesOn(d)
    ensures Reports(c, at.q) == Reports(d, at.q)
  {
    ScansOfVersion(s, c, at.q, at.b, at.e, latest);
    ScansOfVersion(t, d, at.q, at.b, at.f, latest);
    ScansAfter(s, c, t, d, at, latest);
  }

  lemma ScansAgree(s: string, c: Scan, t: string, d: Scan, at: Span, latest: LatestTags)
    requires OtherAt(s, t, at) && IsScan(c, s, latest) && GoesOn(c) && IsScan(d, t, latest) && GoesOn(d)
    ensures Reports(c, 0) == Reports(d, 0)
  {
    var reports := ScansBefore(s, c, t, d, at, latest);
    ScansFrom(s, c, t, d, at, latest);
  }

  /** With another version the same actions are reported. */
  lemma OtherReportsSame(s: string, t: string, at: Span, latest: LatestTags)
    requires OtherAt(s, t, at)
    ensures Updates(t, 0, latest) == Updates(s, 0, latest)
  {
    var c := ScanOf(s, latest);
    var d := ScanOf(t, latest);
    ScansAgree(s, c, t, d, at, latest);
  }

  // ----- All versions of a text -----

  /** `line` stands in `s` at `n`. */
  ghost predicate StandsAt(s: string, n: nat, line: string) {
    n + |line| <= |s| && forall x :: n <= x < n + |line| ==> s[x] == line[x - n]
  }

  lemma SliceOfStanding(s: string, n: nat, line: string, x: nat, y: nat)
    requires StandsAt(s, n, line) && x <= y <= |line|
    ensures s[n + x..n + y] == line[x..y]
  {
    var a, c := s[n + x..n + y], line[x..y];
    forall z | 0 <= z < y - x ensures a[z] == c[z] { assert s[n + x + z] == line[x + z]; }
  }

  lemma RefEndsInLine(line: string, q: nat, b: nat, e: nat, g: nat)
    requires IsVersionLine(line, q, b, e, g)
    ensures IsRefChar(line[e - 1]) && (e < |line| ==> !IsRefChar(line[e]))
  {
  }

  lemma VersionInText(s: string, n: nat, line: string, q: nat, b: nat, e: nat, g: nat)
    requires StandsAt(s, n, line) && IsVersionLine(line, q, b, e, g) && NamesNoUse(line[b..e])
    requires (n > 0 ==> IsSpace(s[n - 1])) && (n + |line| < |s| ==> IsBreak(line[|line| - 1]))
    ensures HasVersion(s, n + q, n + b, n + e)
  {
    SliceOfStanding(s, n, line, q, q + 8);
    SliceOfStanding(s, n, line, b, e);
    RefEndsInLine(line, q, b, e, g);
    forall k | n + q + 8 <= k < n + b ensures IsSpace(s[k]) { assert s[k] == line[k - n]; }
    forall k | n + b <= k < n + e ensures IsRefChar(s[k]) { assert s[k] == line[k - n]; }
    assert q > 0 ==> s[n + q - 1] == line[q - 1];
    assert e < |line| ==> s[n + e] == line[e];
  }

  /** In `t`, the line `next` stands where `line` stands in `s`, and everything else is the same. */
  ghost predicate OtherLine(s: string, t: string, n: nat, line: string, next: string) {
    && StandsAt(s, n, line) && StandsAt(t, n, next) && SameUpTo(s, t, n)
    && SameTail(s, n + |line|, t, n + |next|)
  }

  /** What surrounds a line in a text. */
  ghost predicate IsSetOff(s: string, n: nat, line: string) {
    && n <= n + |line| <= |s| && line != "" && (n > 0 ==> IsSpace(s[n - 1]))
    && (n + |line| < |s| ==> IsBreak(line[|line| - 1]))
  }

  lemma ReplacedSame(s: string, t: string, n: nat, line: string, next: string, b: nat, e: nat, r: string)
    requires OtherLine(s, t, n, line, next) && Replaced(line, next, b, e, r)
    ensures SameUpTo(s, t, n + b) && SameTail(s, n + e, t, n + b + |r|)
  {
    SpliceBefore(line, b, e, r);
    forall x | n <= x < n + b ensures s[x] == t[x] { assert line[x - n] == next[x - n]; }
    forall x | n + e <= x < |s| ensures s[x] == t[x - (n + e) + (n + b + |r|)] {
      if x < n + |line| { SpliceAt(line, b, e, r, x - n - e + b + |r|); }
    }
  }

  lemma NextIsSetOff(s: string, t: string, n: nat, line: string, next: string, b: nat, e: nat, r: string)
    requires OtherLine(s, t, n, line, next) && Replaced(line, next, b, e, r) && IsSetOff(s, n, line)
    ensures IsSetOff(t, n, next)
  {
    BareLenOfReplaced(line, next, b, e, r);
    ReplacedStaysApart(line, next, b, e, r, "x");
    assert n + |line| < |s| ==> Apart(line, "x");
  }

  lemma NextVersionStands(t: string, n: nat, line: string, q: nat, b: nat, e: nat, g: nat, r: string, next: string)
    requires IsLine(line) && IsVersionLine(line, q, b, e, g) && Replaced(line, next, b, e, r) && NamesNoUse(r)
    requires StandsAt(t, n, next) && IsSetOff(t, n, next)
    ensures HasVersion(t, n + q, n + b, n + (b + |r|))
  {
    ReplacedIsVersionLine(line, q, b, e, g, r, next);
    SpliceMiddle(line, b, e, r);
    VersionInText(t, n, next, q, b, b + |r|, g - e + b + |r|);
  }

  lemma ReplacedStands(s: string, t: string, n: nat, line: string, q: nat, b: nat, e: nat, g: nat, r: string,
                       next: string)
    requires IsLine(line) && IsVersionLine(line, q, b, e, g) && Replaced(line, next, b, e, r) && NamesNoUse(r)
    requires OtherLine(s, t, n, line, next) && IsSetOff(s, n, line)
    ensures HasVersion(t, n + q, n + b, n + (b + |r|))
  {
    NextIsSetOff(s, t, n, line, next, b, e, r);
    NextVersionStands(t, n, line, q, b, e, g, r, next);
  }

  lemma MakesOther(s: string, t: string, n: nat, line: string, next: string, q: nat, b: nat, e: nat, r: string)
    requires HasVersion(s, n + q, n + b, n + e) && HasVersion(t, n + q, n + b, n + (b + |r|))
    requires OtherLine(s, t, n, line, next) && Replaced(line, next, b, e, r)
    ensures OtherAt(s, t, Span(n + q, n + b, n + e, n + (b + |r|)))
  {
    ReplacedSame(s, t, n, line, next, b, e, r);
  }

  lemma ReplacedIsOther(s: string, t: string, n: nat, line: string, q: nat, b: nat, e: nat, g: nat, r: string,
                        next: string) returns (at: Span)
    requires IsLine(line) && IsVersionLine(line, q, b, e, g) && Replaced(line, next, b, e, r)
    requires NamesNoUse(line[b..e]) && NamesNoUse(r) && OtherLine(s, t, n, line, next) && IsSetOff(s, n, line)
    ensures OtherAt(s, t, at)
  {
    ReplacedStands(s, t, n, line, q, b, e, g, r, next);
    VersionInText(s, n, line, q, b, e, g);
    MakesOther(s, t, n, line, next, q, b, e, r);
    at := Span(n + q, n + b, n + e, n + (b + |r|));
  }

  lemma LinesStand(before: string, line: string, next: string, rest: string)
    ensures OtherLine(before + line + rest, before + next + rest, |before|, line, next)
    ensures before != "" ==> (before + line + rest)[|before| - 1] == before[|before| - 1]
  {
  }

  /** A line may stand between these texts. */
  ghost predicate FitsBetween(before: string, line: string, rest: string) {
    (before != "" ==> IsSpace(before[|before| - 1])) && line != "" && (rest != "" ==> IsBreak(line[|line| - 1]))
  }

  /** Within a text, a line with another version. */
  lemma LineReportsSame(before: string, line: string, rest: string, latest: LatestTags, version: string)
    requires IsLine(line) && VersionOf(line).Some? && IsPlainRef(version) && FitsBetween(before, line, rest)
    requires NamesNoUse(VersionOf(line).value) && NamesNoUse(version)
    ensures Updates(before + WithVersion(line, version) + rest, 0, latest) == Updates(before + line + rest, 0, latest)
  {
    var q, b, e, g, next := TakeApart(line, version);
    VersionLineIsMatched(line, q, b, e, g);
    var s, t := before + line + rest, before + next + rest;
    LinesStand(before, line, next, rest);
    var at := ReplacedIsOther(s, t, |before|, line, q, b, e, g, version, next);
    OtherReportsSame(s, t, at, latest);
  }

  lemma ConcatAppend(lines: seq<string>, line: string)
    ensures Concat(lines + [line]) == Concat(lines) + line
  {
    if lines == [] {
      assert [line][1..] == [];
    } else {
      ConcatAppend(lines[1..], line);
      assert (lines + [line])[1..] == lines[1..] + [line];
    }
  }

  /** The text with its first `n` lines rewritten. */
  function Half(lines: seq<string>, next: seq<string>, n: nat): string
    requires n <= |lines| == |next|
  {
    Concat(next[..n]) + Concat(lines[n..])
  }

  lemma LastOfConcat(lines: seq<string>, n: nat)
    requires n <= |lines| && forall k :: 0 <= k < n ==> lines[k] != ""
    ensures n > 0 ==>
              var head := Concat(lines[..n]);
              head != "" && head[|head| - 1] == lines[n - 1][|lines[n - 1]| - 1]
  {
    if n > 0 {
      assert lines[..n] == lines[..n - 1] + [lines[n - 1]];
      ConcatAppend(lines[..n - 1], lines[n - 1]);
    }
  }

  lemma NextHalf(lines: seq<string>, next: seq<string>, n: nat)
    requires n < |lines| == |next|
    ensures Half(lines, next, n) == Concat(next[..n]) + lines[n] + Concat(lines[n + 1..])
    ensures Half(lines, next, n + 1) == Concat(next[..n]) + next[n] + Concat(lines[n + 1..])
  {
    assert next[..n + 1] == next[..n] + [next[n]];
    ConcatAppend(next[..n], next[n]);
    assert lines[n..][0] == lines[n] && lines[n..][1..] == lines[n + 1..];
  }

  lemma HalfReportsSame(lines: seq<string>, version: string, next: seq<string>, n: nat, latest: LatestTags)
    requires AreNewLines(lines, version, next) && NamesNoUse(version) && n < |lines|
    requires IsOutdated(lines, version, n) ==> NamesNoUse(RefAt(lines, n).value)
    ensures Updates(Half(lines, next, n + 1), 0, latest) == Updates(Half(lines, next, n), 0, latest)
  {
    NextHalf(lines, next, n);
    NewLineIs(lines, version, n);
    if IsOutdated(lines, version, n) {
      var before, rest := Concat(next[..n]), Concat(lines[n + 1..]);
      NewLinesAreLines(lines, version, next);
      assert IsLine(lines[n]) && (n > 0 ==> IsLine(next[n - 1]));
      assert forall k :: 0 <= k < n ==> IsLine(next[k]);
      LastOfConcat(next, n);
      assert n > 0 ==> Apart(next[n - 1], next[n]);
      assert n + 1 < |lines| ==> Apart(lines[n], lines[n + 1]);
      LineReportsSame(before, lines[n], rest, latest, version);
    }
  }

  lemma NoHalf(lines: seq<string>, next: seq<string>)
    requires |lines| == |next|
    ensures Half(lines, next, 0) == Concat(lines) && Half(lines, next, |lines|) == Concat(next)
  {
    assert lines[0..] == lines && next[..0] == [];
    assert next[..|lines|] == next && lines[|lines|..] == [];
  }

  ghost predicate NoUseInOutdated(lines: seq<string>, version: string) {
    forall k :: 0 <= k < |lines| && IsOutdated(lines, version, k) ==> NamesNoUse(RefAt(lines, k).value)
  }

  lemma NextHalfReportsSame(lines: seq<string>, version: string, next: seq<string>, n: nat, latest: LatestTags)
    requires AreNewLines(lines, version, next) && NamesNoUse(version) && n < |lines| && NoUseInOutdated(lines, version)
    ensures Updates(Half(lines, next, n + 1), 0, latest) == Updates(Half(lines, next, n), 0, latest)
  {
    HalfReportsSame(lines, version, next, n, latest);
  }

  lemma {:induction false} HalvesReportSame(lines: seq<string>, version: string, next: seq<string>, n: nat,
                                            latest: LatestTags)
    requires AreNewLines(lines, version, next) && NamesNoUse(version) && n <= |lines| && NoUseInOutdated(lines, version)
    ensures Updates(Half(lines, next, n), 0, latest) == Updates(Concat(lines), 0, latest)
  {
    if n == 0 {
      NoHalf(lines, next);
    } else {
      HalvesReportSame(lines, version, next, n - 1, latest);
      NextHalfReportsSame(lines, version, next, n - 1, latest);
    }
  }

  lemma {:induction false} OutdatedIsOld(lines: seq<string>, version: string, n: nat, k: nat)
    requires k < n <= |lines| && IsOutdated(lines, version, k)
    ensures RefAt(lines, k).value in OldRefs(lines, version, n)
  {
    if k < n - 1 { OutdatedIsOld(lines, version, n - 1, k); }
  }

  /** No replaced version, nor the latest, holds `uses:`. */
  ghost predicate NoUseInVersions(text: string, version: string) {
    NamesNoUse(version) && forall r :: r in OldRefs(KeptLines(text), version, |KeptLines(text)|) ==> NamesNoUse(r)
  }

  /** Rewriting the versions of a text does not change what is to be updated about its actions. */
  lemma VersionsLeaveActions(text: string, latest: LatestTags, version: string)
    requires IsPlainRef(version) && NoUseInVersions(text, version)
    ensures Updates(NewText(text, version), 0, latest) == Updates(text, 0, latest)
  {
    var lines, next := NewTextHasNewLines(text, version);
    forall k | 0 <= k < |lines| && IsOutdated(lines, version, k) ensures NamesNoUse(RefAt(lines, k).value) {
      OutdatedIsOld(lines, version, |lines|, k);
    }
    HalvesReportSame(lines, version, next, |lines|, latest);
    NoHalf(lines, next);
  }

  /** Updating an updated workflow file changes nothing and reports nothing. */
  lemma UpdatingAgain(text: string, latest: LatestTags, version: Option<string>)
    requires PlainTags(latest)
    requires version.Some? ==> IsPlainRef(version.value) && NoUseInVersions(Rewrite(text, 0, latest), version.value)
    ensures var once := UpdatedText(text, latest, version).text;
            UpdatedText(once, latest, version) == Updated(once, [], [])
  {
    var rewritten := Rewrite(text, 0, latest);
    ActionsSettle(text, latest);
    if version.Some? {
      var once := NewText(rewritten, version.value);
      VersionsLeaveActions(rewritten, latest, version.value);
      NothingReported(once, 0, latest);
      assert once[0..] == once;
      RewritingAgain(rewritten, version.value);
    }
  }
}
