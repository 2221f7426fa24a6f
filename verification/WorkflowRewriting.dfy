/**
 What rewriting the setup-compose versions of a workflow file keeps: its lines, its steps, and
 itself when done again.
 */
module WorkflowRewriting {
  import opened Prelude
  import opened Text
  import opened Lines
  import opened WorkflowVersions

  ghost predicate IsPlainRef(r: string) {
    r != "" && forall k :: 0 <= k < |r| ==> IsRefChar(r[k])
  }

  lemma SpliceAt(s: string, p: nat, q: nat, m: string, k: nat)
    requires p <= q <= |s| && k < p + |m| + (|s| - q)
    ensures var x := Splice(s, p, q, m);
            |x| == p + |m| + (|s| - q) &&
            x[k] == if k < p then s[k] else if k < p + |m| then m[k - p] else s[k - p - |m| + q]
  {
  }

  // ----- A rewritten line -----

  /** `line` and `next` are the same up to the version, which is `r` in the latter, and after it. */
  ghost predicate Replaced(line: string, next: string, b: nat, e: nat, r: string) {
    && 0 < b < e <= |line| && next == Splice(line, b, e, r) && IsPlainRef(r)
    && (forall k :: b <= k < e ==> IsRefChar(line[k]))
  }

  lemma BareLenOfReplaced(line: string, next: string, b: nat, e: nat, r: string)
    requires Replaced(line, next, b, e, r)
    ensures |next| == |line| - e + b + |r| && BareLen(next) == BareLen(line) - e + b + |r| && BareLen(line) >= e
  {
    SpliceBefore(line, b, e, r);
    SpliceAt(line, b, e, r, |next| - 1);
    SpliceAt(line, b, e, r, |next| - 2);
    assert !IsBreak(line[e - 1]) && !IsBreak(r[|r| - 1]);
  }

  lemma ReplacedIsLine(line: string, next: string, b: nat, e: nat, r: string)
    requires Replaced(line, next, b, e, r) && IsLine(line)
    ensures IsLine(next)
  {
    BareLenOfReplaced(line, next, b, e, r);
    forall k | 0 <= k < BareLen(next) ensures !IsBreak(next[k]) {
      SpliceAt(line, b, e, r, k);
    }
  }

  lemma ReplacedStaysApart(line: string, next: string, b: nat, e: nat, r: string, other: string)
    requires Replaced(line, next, b, e, r)
    ensures Apart(line, other) ==> Apart(next, other)
    ensures Apart(other, line) ==> Apart(other, next)
  {
  }

  /** The rewritten line gives the new version at the same place. */
  lemma ReplacedIsVersionLine(line: string, q: nat, b: nat, e: nat, g: nat, r: string, next: string)
    requires IsVersionLine(line, q, b, e, g) && Replaced(line, next, b, e, r) && IsLine(line)
    ensures IsVersionLine(next, q, b, b + |r|, g - e + b + |r|)
  {
    var f, h := b + |r|, g - e + b + |r|;
    BareLenOfReplaced(line, next, b, e, r);
    ReplacedIsLine(line, next, b, e, r);
    forall k | 0 <= k < q || q + 8 <= k < b || f <= k < h ensures IsSpace(next[k]) { SpliceAt(line, b, e, r, k); }
    forall k | b <= k < f ensures IsRefChar(next[k]) { SpliceAt(line, b, e, r, k); }
    assert next[q..q + 8] == line[q..q + 8] by { SpliceBefore(line, b, e, r); }
    if h < |next| {
      SpliceAt(line, b, e, r, h);
      BareRest(next);
      CommentInBare(next, BareLen(next), h);
    }
  }

  // ----- A rewritten line is in the same step -----

  lemma UsesAt(s: string, i: nat)
    requires OccursAt(s, USES, i)
    ensures i + 34 <= |s| && s[i] == 'u' && s[i + 3] == 's' && s[i + 4] == ':' && s[i + 5] == ' ' && s[i + 6] == 'd'
    ensures forall k :: i <= k <= i + 5 ==> s[k] != '#'
  {
    UsesHasNoBreak();
    var f := s[i..i + 34];
    assert f == USES;
    assert s[i] == f[0] && s[i + 1] == f[1] && s[i + 2] == f[2] && s[i + 3] == f[3] && s[i + 4] == f[4] &&
           s[i + 5] == f[5] && s[i + 6] == f[6];
    assert USES[0] == 'u' && USES[1] == 's' && USES[2] == 'e';
  }

  /** A line that gives a version can use the action only in its comment. */
  lemma UsesInComment(line: string, q: nat, b: nat, e: nat, g: nat, i: nat)
    requires IsVersionLine(line, q, b, e, g) && OccursAt(line, USES, i)
    ensures i > g
  {
    UsesAt(line, i);
    VersionAt(line, q);
    assert !IsSpace(':') && !IsSpace('d') && !IsSpace('s') && IsSpace(' ');
    assert i + 5 >= g;
    assert g < |line| && line[g] == '#';
  }

  lemma UsesInTail(line: string, next: string, g: nat, h: nat, i: nat)
    requires g <= i && h <= |next| && g <= |line| && line[g..] == next[h..] && OccursAt(line, USES, i)
    ensures OccursAt(next, USES, i - g + h)
  {
    var n := |USES|;
    var j := i - g + h;
    assert |line| - g == |next| - h;
    SliceOfRest(line, g, i, i + n);
    SliceOfRest(next, h, j, j + n);
  }

  lemma UsesFollows(line: string, q: nat, b: nat, e: nat, g: nat, next: string, h: nat)
    requires IsVersionLine(line, q, b, e, g) && h <= |next| && line[g..] == next[h..] && HasUses(line)
    ensures HasUses(next)
  {
    var i :| 0 <= i <= |line| && OccursAt(line, USES, i);
    UsesInComment(line, q, b, e, g, i);
    UsesInTail(line, next, g, h, i);
  }

  lemma StrippedHasUses(line: string, q: nat, stripped: string)
    requires q == SpaceEnd(line, 0) && stripped == line[q..]
    ensures HasUses(stripped) <==> HasUses(line)
  {
    if HasUses(stripped) {
      var i :| 0 <= i <= |stripped| && OccursAt(stripped, USES, i);
      assert stripped[0..] == stripped;
      UsesInTail(stripped, line, 0, q, i);
    }
    if HasUses(line) {
      var i :| 0 <= i <= |line| && OccursAt(line, USES, i);
      UsesAt(line, i);
      assert i >= q;
      assert stripped[0..] == stripped;
      UsesInTail(line, stripped, q, 0, i);
    }
  }

  lemma VersionLineStep(place: Place, line: string, q: nat, b: nat, e: nat, g: nat)
    requires IsVersionLine(line, q, b, e, g)
    ensures Step(place, line) == if HasUses(line) then Some(q) else place
  {
    VersionLineIsMatched(line, q, b, e, g);
    VersionAt(line, q);
    StrippedHasUses(line, q, line[q..]);
    assert line[q..][0] == 'v';
  }

  lemma SameStep(place: Place, line: string, q: nat, b: nat, e: nat, g: nat, next: string, f: nat, h: nat)
    requires IsVersionLine(line, q, b, e, g) && IsVersionLine(next, q, b, f, h) && line[g..] == next[h..]
    ensures Step(place, line) == Step(place, next)
  {
    VersionLineStep(place, line, q, b, e, g);
    VersionLineStep(place, next, q, b, f, h);
    if HasUses(line) { UsesFollows(line, q, b, e, g, next, h); }
    if HasUses(next) { UsesFollows(next, q, b, f, h, line, g); }
  }

  // ----- All lines -----

  lemma TakeApart(line: string, latest: string) returns (q: nat, b: nat, e: nat, g: nat, next: string)
    requires VersionOf(line).Some? && IsPlainRef(latest)
    ensures next == WithVersion(line, latest)
    ensures IsVersionLine(line, q, b, e, g) && Replaced(line, next, b, e, latest)
  {
    b, e := MatchVersion(line).value.0, MatchVersion(line).value.1;
    MatchIsVersionLine(line, b, e);
    q, g :| IsVersionLine(line, q, b, e, g);
    next := WithVersion(line, latest);
  }

  lemma VersionIs(line: string, q: nat, b: nat, e: nat, g: nat, r: string)
    requires IsVersionLine(line, q, b, e, g) && line[b..e] == r
    ensures VersionOf(line) == Some(r)
  {
    VersionLineIsMatched(line, q, b, e, g);
  }

  lemma ReplacedVersion(line: string, q: nat, b: nat, e: nat, g: nat, r: string, next: string)
    requires IsVersionLine(line, q, b, e, g) && Replaced(line, next, b, e, r) && IsLine(line)
    ensures VersionOf(next) == Some(r)
  {
    var f, h := b + |r|, g - e + b + |r|;
    SpliceMiddle(line, b, e, r);
    assert next[b..f] == r;
    ReplacedIsVersionLine(line, q, b, e, g, r, next);
    VersionIs(next, q, b, f, h, r);
  }

  lemma ReplacedStep(place: Place, line: string, q: nat, b: nat, e: nat, g: nat, r: string, next: string)
    requires IsVersionLine(line, q, b, e, g) && Replaced(line, next, b, e, r) && IsLine(line)
    ensures Step(place, line) == Step(place, next)
  {
    ReplacedIsVersionLine(line, q, b, e, g, r, next);
    SpliceRest(line, b, e, r, g);
    SameStep(place, line, q, b, e, g, next, b + |r|, g - e + b + |r|);
  }

  lemma RewrittenVersion(line: string, latest: string)
    requires IsLine(line) && VersionOf(line).Some? && IsPlainRef(latest)
    ensures IsLine(WithVersion(line, latest)) && VersionOf(WithVersion(line, latest)) == Some(latest)
  {
    var q, b, e, g, next := TakeApart(line, latest);
    ReplacedIsLine(line, next, b, e, latest);
    ReplacedVersion(line, q, b, e, g, latest, next);
  }

  lemma RewrittenStep(place: Place, line: string, latest: string)
    requires IsLine(line) && VersionOf(line).Some? && IsPlainRef(latest)
    ensures Step(place, line) == Step(place, WithVersion(line, latest))
  {
    var q, b, e, g, next := TakeApart(line, latest);
    ReplacedStep(place, line, q, b, e, g, latest, next);
  }

  lemma RewrittenApart(line: string, latest: string, other: string)
    requires VersionOf(line).Some? && IsPlainRef(latest)
    ensures Apart(line, other) ==> Apart(WithVersion(line, latest), other)
    ensures Apart(other, line) ==> Apart(other, WithVersion(line, latest))
  {
    var q, b, e, g, next := TakeApart(line, latest);
    ReplacedStaysApart(line, next, b, e, latest, other);
  }

  lemma NewLineIs(lines: seq<string>, latest: string, k: nat)
    requires k < |lines|
    ensures NewLine(lines, latest, k) ==
              if IsOutdated(lines, latest, k) then WithVersion(lines[k], latest) else lines[k]
    ensures IsOutdated(lines, latest, k) ==> VersionOf(lines[k]).Some?
  {
  }

  ghost predicate AreNewLines(lines: seq<string>, latest: string, next: seq<string>) {
    && AreLines(lines) && IsPlainRef(latest) && |next| == |lines|
    && forall k :: 0 <= k < |lines| ==> next[k] == NewLine(lines, latest, k)
  }

  lemma NextPlace(lines: seq<string>, latest: string, next: seq<string>, n: nat)
    requires AreNewLines(lines, latest, next) && n < |lines| && PlaceAt(next, n) == PlaceAt(lines, n)
    ensures PlaceAt(next, n + 1) == PlaceAt(lines, n + 1)
  {
    assert IsLine(lines[n]);
    NewLineIs(lines, latest, n);
    if IsOutdated(lines, latest, n) { RewrittenStep(PlaceAt(lines, n), lines[n], latest); }
  }

  /** Every line is in the step it was in. */
  lemma {:induction false} NewPlaces(lines: seq<string>, latest: string, next: seq<string>, n: nat)
    requires AreNewLines(lines, latest, next) && n <= |lines|
    ensures PlaceAt(next, n) == PlaceAt(lines, n)
  {
    if n > 0 {
      NewPlaces(lines, latest, next, n - 1);
      NextPlace(lines, latest, next, n - 1);
    }
  }

  lemma NewLineIsLine(lines: seq<string>, latest: string, k: nat)
    requires k < |lines| && IsLine(lines[k]) && IsPlainRef(latest)
    ensures IsLine(NewLine(lines, latest, k))
  {
    NewLineIs(lines, latest, k);
    if IsOutdated(lines, latest, k) { RewrittenVersion(lines[k], latest); }
  }

  lemma NewLinesApart(lines: seq<string>, latest: string, k: nat)
    requires k + 1 < |lines| && Apart(lines[k], lines[k + 1]) && IsPlainRef(latest)
    ensures Apart(NewLine(lines, latest, k), NewLine(lines, latest, k + 1))
  {
    NewLineIs(lines, latest, k);
    NewLineIs(lines, latest, k + 1);
    var line := NewLine(lines, latest, k);
    if IsOutdated(lines, latest, k) { RewrittenApart(lines[k], latest, lines[k + 1]); }
    assert Apart(line, lines[k + 1]);
    if IsOutdated(lines, latest, k + 1) { RewrittenApart(lines[k + 1], latest, line); }
  }

  lemma NewLinesAreLines(lines: seq<string>, latest: string, next: seq<string>)
    requires AreNewLines(lines, latest, next)
    ensures AreLines(next)
  {
    forall k | 0 <= k < |next| ensures IsLine(next[k]) {
      assert IsLine(lines[k]);
      NewLineIsLine(lines, latest, k);
    }
    forall k | 0 <= k < |next| - 1 ensures Apart(next[k], next[k + 1]) {
      assert Apart(lines[k], lines[k + 1]);
      NewLinesApart(lines, latest, k);
    }
  }

  lemma NothingOutdated(lines: seq<string>, latest: string, next: seq<string>, k: nat)
    requires AreNewLines(lines, latest, next) && k < |lines|
    ensures !IsOutdated(next, latest, k)
  {
    assert IsLine(lines[k]);
    NewPlaces(lines, latest, next, k + 1);
    NewLineIs(lines, latest, k);
    if IsOutdated(lines, latest, k) { RewrittenVersion(lines[k], latest); }
  }

  lemma NothingToDoHere(lines: seq<string>, latest: string, n: nat)
    requires n < |lines| && !IsOutdated(lines, latest, n)
    requires NewLines(lines, latest, n) == lines[..n] && OldRefs(lines, latest, n) == []
    ensures NewLines(lines, latest, n + 1) == lines[..n + 1] && OldRefs(lines, latest, n + 1) == []
  {
    NewLineIs(lines, latest, n);
    assert lines[..n + 1] == lines[..n] + [lines[n]];
  }

  lemma {:induction false} NothingToDo(lines: seq<string>, latest: string, n: nat)
    requires n <= |lines| && forall k :: 0 <= k < |lines| ==> !IsOutdated(lines, latest, k)
    ensures NewLines(lines, latest, n) == lines[..n] && OldRefs(lines, latest, n) == []
  {
    if n > 0 {
      NothingToDo(lines, latest, n - 1);
      NothingToDoHere(lines, latest, n - 1);
    }
  }

  /** The rewritten text splits into the new lines. */
  lemma NewTextHasNewLines(text: string, latest: string) returns (lines: seq<string>, next: seq<string>)
    requires IsPlainRef(latest)
    ensures lines == KeptLines(text) && Concat(lines) == text && AreNewLines(lines, latest, next)
    ensures NewText(text, latest) == Concat(next) && KeptLines(Concat(next)) == next
  {
    lines := KeptLines(text);
    next := NewLines(lines, latest, |lines|);
    LinesMakeText(text);
    SplitGivesLines(text);
    NewLinesAreLines(lines, latest, next);
    TextMakesLines(next);
  }

  /** The rewritten text has the same lines, apart from the outdated versions. */
  lemma OtherLinesStay(text: string, latest: string)
    requires IsPlainRef(latest)
    ensures var lines, next := KeptLines(text), KeptLines(NewText(text, latest));
            && Concat(lines) == text && |next| == |lines|
            && forall k :: 0 <= k < |lines| ==>
                 next[k] == if IsOutdated(lines, latest, k) then WithVersion(lines[k], latest) else lines[k]
  {
    var lines, next := NewTextHasNewLines(text, latest);
    forall k | 0 <= k < |lines|
      ensures next[k] == if IsOutdated(lines, latest, k) then WithVersion(lines[k], latest) else lines[k]
    {
      NewLineIs(lines, latest, k);
    }
  }

  lemma AllUpToDate(lines: seq<string>, latest: string)
    requires forall k :: 0 <= k < |lines| ==> !IsOutdated(lines, latest, k)
    ensures NewLines(lines, latest, |lines|) == lines && OldRefs(lines, latest, |lines|) == []
  {
    NothingToDo(lines, latest, |lines|);
    assert lines[..|lines|] == lines;
  }

  /** Rewriting again changes nothing and reports nothing. */
  lemma RewritingAgain(text: string, latest: string)
    requires IsPlainRef(latest)
    ensures var once := NewText(text, latest);
            NewText(once, latest) == once && OldRefs(KeptLines(once), latest, |KeptLines(once)|) == []
  {
    var lines, next := NewTextHasNewLines(text, latest);
    forall k | 0 <= k < |next| ensures !IsOutdated(next, latest, k) { NothingOutdated(lines, latest, next, k); }
    AllUpToDate(next, latest);
  }
}
