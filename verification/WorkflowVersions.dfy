/**
 The version of the setup-compose action in workflow files: one scanner collects the versions,
 another rewrites them.
 */
module WorkflowVersions {
  import opened Prelude
  import opened Text
  import opened Lines

  // ----- One line -----

  const USES := "uses: docker/setup-compose-action@"

  predicate OccursAt(s: string, f: string, i: nat) {
    i + |f| <= |s| && s[i..i + |f|] == f
  }

  predicate StartsStep(s: string) {
    |s| >= 2 && s[0] == '-' && s[1] == ' '
  }

  predicate HasUses(s: string) {
    exists i :: 0 <= i <= |s| && OccursAt(s, USES, i)
  }

  /** The indentation of the step the line is in, or none. */
  type Place = Option<nat>

  function Step(place: Place, line: string): Place {
    var indent := SpaceEnd(line, 0);
    var stripped := line[indent..];
    if HasUses(stripped) then Some(indent)
    else if place.Some? && indent <= place.value && StartsStep(stripped) then None
    else place
  }

  predicate IsRefChar(c: char) {
    !IsSpace(c) && c != '#'
  }

  function RefEnd(s: string, b: nat): (e: nat)
    requires b <= |s|
    ensures b <= e <= |s| && (forall k :: b <= k < e ==> IsRefChar(s[k])) && (e < |s| ==> !IsRefChar(s[e]))
    decreases |s| - b
  {
    if b < |s| && IsRefChar(s[b]) then RefEnd(s, b + 1) else b
  }

  /** A comment from `g` on reaches the end, or a newline and at most one more there. */
  predicate CommentEnds(line: string, g: nat)
    requires g <= |line|
  {
    var n := LineEnd(line, g);
    n == |line| || n + 1 == |line| || (n + 2 == |line| && line[n + 1] == '\n')
  }

  /** Where the version stands that follows at `i`, with a comment or nothing behind it. */
  function After(line: string, i: nat): (m: Option<(nat, nat)>)
    requires i <= |line|
    ensures m.Some? ==> i <= m.value.0 < m.value.1 <= |line|
  {
    var b := SpaceEnd(line, i);
    var e := RefEnd(line, b);
    var g := SpaceEnd(line, e);
    if b < e && (g == |line| || (line[g] == '#' && CommentEnds(line, g))) then Some((b, e)) else None
  }

  /** Where the version stands in a line of the form `version: ref`, with a comment perhaps. */
  function MatchVersion(line: string): (m: Option<(nat, nat)>)
    ensures m.Some? ==> m.value.0 < m.value.1 <= |line|
  {
    var q := SpaceEnd(line, 0);
    if OccursAt(line, "version:", q) then After(line, q + 8) else None
  }

  /** The line is white space, `version:`, white space, a reference, white space, and a comment or nothing. */
  ghost predicate IsVersionLine(line: string, q: nat, b: nat, e: nat, g: nat) {
    && q + 8 <= b < e <= g <= |line| && OccursAt(line, "version:", q)
    && (forall k :: 0 <= k < q || q + 8 <= k < b || e <= k < g ==> IsSpace(line[k]))
    && (forall k :: b <= k < e ==> IsRefChar(line[k]))
    && (g == |line| || (line[g] == '#' && CommentEnds(line, g)))
  }

  lemma {:induction false} SpaceEndIs(s: string, i: nat, e: nat)
    requires i <= e <= |s| && (forall k :: i <= k < e ==> IsSpace(s[k])) && (e < |s| ==> !IsSpace(s[e]))
    ensures SpaceEnd(s, i) == e
  {
  }

  lemma VersionAt(line: string, q: nat)
    requires OccursAt(line, "version:", q)
    ensures line[q] == 'v' && line[q + 3] == 's' && line[q + 6] == 'n' && line[q + 7] == ':'
    ensures forall k :: q <= k < q + 8 ==> !IsSpace(line[k])
  {
  }

  lemma VersionLineIsMatched(line: string, q: nat, b: nat, e: nat, g: nat)
    requires IsVersionLine(line, q, b, e, g)
    ensures MatchVersion(line) == Some((b, e))
    ensures SpaceEnd(line, 0) == q && SpaceEnd(line, q + 8) == b && RefEnd(line, b) == e && SpaceEnd(line, e) == g
  {
    VersionAt(line, q);
    SpaceEndIs(line, 0, q);
    SpaceEndIs(line, q + 8, b);
    SpaceEndIs(line, e, g);
  }

  /** The pattern matches in one way only, the one the matcher finds. */
  lemma MatchIsVersionLine(line: string, b: nat, e: nat)
    ensures MatchVersion(line) == Some((b, e)) <==> exists q: nat, g: nat :: IsVersionLine(line, q, b, e, g)
  {
    if MatchVersion(line) == Some((b, e)) {
      assert IsVersionLine(line, SpaceEnd(line, 0), b, e, SpaceEnd(line, e));
    }
    if q: nat, g: nat :| IsVersionLine(line, q, b, e, g) {
      VersionLineIsMatched(line, q, b, e, g);
    }
  }

  // ----- Line ends do not matter -----

  /** What `Bare` cuts off is one or two line breaks. */
  lemma BareRest(line: string)
    ensures forall k :: BareLen(line) <= k < |line| ==> IsBreak(line[k])
    ensures IsLine(line) ==> forall k :: 0 <= k < BareLen(line) ==> line[k] != '\n'
    ensures |line| - BareLen(line) <= 2 && (|line| - BareLen(line) == 2 ==> line[|line| - 2] == '\r')
  {
  }

  lemma UsesHasNoBreak()
    ensures |USES| == 34 && forall k :: 0 <= k < 34 ==> !IsBreak(USES[k])
    ensures USES[3] == 's' && USES[4] == ':' && USES[5] == ' ' && USES[6] == 'd' && USES[0] == 'u' && '#' !in USES[..6]
  {
  }

  lemma UsesInPrefix(line: string, n: nat)
    requires n <= |line| && forall k :: n <= k < |line| ==> IsBreak(line[k])
    ensures HasUses(line) <==> HasUses(line[..n])
  {
    UsesHasNoBreak();
    if HasUses(line) {
      var i :| 0 <= i <= |line| && OccursAt(line, USES, i);
      assert line[i + 33] == line[i..i + 34][33] == USES[33];
      assert line[..n][i..i + 34] == line[i..i + 34];
      assert OccursAt(line[..n], USES, i);
    }
    if HasUses(line[..n]) {
      var i :| 0 <= i <= n && OccursAt(line[..n], USES, i);
      assert line[..n][i..i + 34] == line[i..i + 34];
      assert OccursAt(line, USES, i);
    }
  }

  lemma SpaceEndOfPrefix(s: string, n: nat, i: nat)
    requires i <= n <= |s| && forall k :: n <= k < |s| ==> IsSpace(s[k])
    ensures SpaceEnd(s, i) == if SpaceEnd(s[..n], i) < n then SpaceEnd(s[..n], i) else |s|
  {
  }

  lemma BlankStep(place: Place, line: string)
    requires SpaceEnd(line, 0) == |line|
    ensures Step(place, line) == place
  {
  }

  lemma TextStep(place: Place, line: string, other: string, n: nat)
    requires n <= |line| && other == line[..n] && SpaceEnd(line, 0) == SpaceEnd(other, 0) < n
    requires forall k :: n <= k < |line| ==> IsBreak(line[k])
    ensures Step(place, line) == Step(place, other)
  {
    var indent := SpaceEnd(line, 0);
    var stripped := line[indent..];
    assert stripped[..n - indent] == other[indent..];
    UsesInPrefix(stripped, n - indent);
  }

  /** Both scanners follow the steps alike. */
  lemma BareStep(place: Place, line: string)
    requires IsLine(line)
    ensures Step(place, line) == Step(place, Bare(line))
  {
    var n := BareLen(line);
    BareRest(line);
    SpaceEndOfPrefix(line, n, 0);
    if SpaceEnd(Bare(line), 0) < n {
      TextStep(place, line, Bare(line), n);
    } else {
      BlankStep(place, line);
      BlankStep(place, Bare(line));
    }
  }

  lemma {:induction false} RefEndOfPrefix(s: string, n: nat, b: nat)
    requires b <= n <= |s| && forall k :: n <= k < |s| ==> IsSpace(s[k])
    ensures RefEnd(s, b) == RefEnd(s[..n], b)
    decreases n - b
  {
    if b < n && IsRefChar(s[b]) { RefEndOfPrefix(s, n, b + 1); }
  }

  lemma CommentInBare(line: string, n: nat, g: nat)
    requires g <= n <= |line| && n == BareLen(line) && forall k :: 0 <= k < n ==> !IsBreak(line[k])
    ensures CommentEnds(line, g) && CommentEnds(line[..n], g)
  {
  }

  lemma VersionInBare(line: string, n: nat, bare: string, i: nat)
    requires i <= n == BareLen(line) && bare == line[..n] && IsLine(line)
    ensures After(line, i) == After(bare, i) && (After(line, i).Some? ==> After(line, i).value.1 <= n)
  {
    BareRest(line);
    SpaceEndOfPrefix(line, n, i);
    var b := SpaceEnd(bare, i);
    if b < n {
      RefEndOfPrefix(line, n, b);
      var e := RefEnd(bare, b);
      SpaceEndOfPrefix(line, n, e);
      var g := SpaceEnd(bare, e);
      CommentInBare(line, n, g);
    }
  }

  lemma VersionInPrefix(line: string, n: nat, q: nat)
    requires q <= n <= |line| && forall k :: n <= k < |line| ==> IsBreak(line[k])
    ensures OccursAt(line, "version:", q) <==> OccursAt(line[..n], "version:", q)
  {
    if OccursAt(line, "version:", q) {
      VersionAt(line, q);
      assert line[..n][q..q + 8] == line[q..q + 8];
    }
    if OccursAt(line[..n], "version:", q) {
      assert line[..n][q..q + 8] == line[q..q + 8];
    }
  }

  /** Both scanners find the same version. */
  lemma BareMatch(line: string)
    requires IsLine(line)
    ensures MatchVersion(line) == MatchVersion(Bare(line))
    ensures MatchVersion(line).Some? ==> MatchVersion(line).value.1 <= BareLen(line)
  {
    var n, bare := BareLen(line), Bare(line);
    BareRest(line);
    SpaceEndOfPrefix(line, n, 0);
    var q := SpaceEnd(bare, 0);
    if q < n {
      VersionInPrefix(line, n, q);
      if OccursAt(bare, "version:", q) { VersionInBare(line, n, bare, q + 8); }
    }
  }

  // ----- The two scanners -----

  /** The step that line `n - 1` is in. */
  function PlaceAt(lines: seq<string>, n: nat): Place
    requires n <= |lines|
  {
    if n == 0 then None else Step(PlaceAt(lines, n - 1), lines[n - 1])
  }

  lemma StepHolds(place: Place, line: string, indent: nat, stripped: string)
    requires indent == SpaceEnd(line, 0) && stripped == line[indent..]
    ensures var left := if place.Some? && indent <= place.value && StartsStep(stripped) then None else place;
            Step(place, line) == if HasUses(stripped) then Some(indent) else left
  {
  }

  /** Line `k` uses the action at indentation `d`, and up to line `n` no line does again or starts
      a step at this or a smaller indentation. */
  ghost predicate Opened(lines: seq<string>, k: nat, n: nat, d: nat) {
    && k < n <= |lines| && SpaceEnd(lines[k], 0) == d && HasUses(lines[k][d..])
    && forall j :: k < j < n ==> StaysIn(lines[j], d)
  }

  predicate StaysIn(line: string, d: nat) {
    var indent := SpaceEnd(line, 0);
    !HasUses(line[indent..]) && !(StartsStep(line[indent..]) && indent <= d)
  }

  /** A line is in a step of the action exactly when the last line that used it opened a step that
      no other step has ended since. */
  lemma {:induction false} PlaceMeans(lines: seq<string>, n: nat, d: nat)
    requires n <= |lines|
    ensures PlaceAt(lines, n) == Some(d) <==> exists k: nat :: Opened(lines, k, n, d)
  {
    if n > 0 {
      PlaceMeans(lines, n - 1, d);
      var line := lines[n - 1];
      var indent := SpaceEnd(line, 0);
      StepHolds(PlaceAt(lines, n - 1), line, indent, line[indent..]);
      if PlaceAt(lines, n) == Some(d) {
        if HasUses(line[indent..]) {
          assert Opened(lines, n - 1, n, d);
        } else {
          var k: nat :| Opened(lines, k, n - 1, d);
          assert Opened(lines, k, n, d);
        }
      }
      if k: nat :| Opened(lines, k, n, d) {
        if k < n - 1 {
          assert Opened(lines, k, n - 1, d);
          assert StaysIn(lines[n - 1], d);
        }
      }
    }
  }

  /** The version a line gives. */
  function VersionOf(line: string): Option<string> {
    match MatchVersion(line)
    case None => None
    case Some((b, e)) => Some(line[b..e])
  }

  /** The version of line `k`, if the line is in a step of the action. */
  function RefAt(lines: seq<string>, k: nat): Option<string>
    requires k < |lines|
  {
    if PlaceAt(lines, k + 1).Some? then VersionOf(lines[k]) else None
  }

  /** The versions in the first `n` lines. */
  function Refs(lines: seq<string>, n: nat): seq<string>
    requires n <= |lines|
  {
    if n == 0 then []
    else if RefAt(lines, n - 1).Some? then Refs(lines, n - 1) + [RefAt(lines, n - 1).value]
    else Refs(lines, n - 1)
  }

  predicate IsOutdated(lines: seq<string>, latest: string, k: nat)
    requires k < |lines|
  {
    RefAt(lines, k).Some? && RefAt(lines, k).value != latest
  }

  function WithVersion(line: string, latest: string): string {
    match MatchVersion(line)
    case None => line
    case Some((b, e)) => Splice(line, b, e, latest)
  }

  /** The line after its update, and the version replaced, if one was. */
  function UpdatedLine(line: string, latest: string, inStep: bool): (string, Option<string>) {
    if inStep && VersionOf(line).Some? && VersionOf(line).value != latest
    then (WithVersion(line, latest), VersionOf(line))
    else (line, None)
  }

  function NewLine(lines: seq<string>, latest: string, k: nat): string
    requires k < |lines|
  {
    UpdatedLine(lines[k], latest, PlaceAt(lines, k + 1).Some?).0
  }

  /** The first `n` lines after their updates. */
  function NewLines(lines: seq<string>, latest: string, n: nat): (r: seq<string>)
    requires n <= |lines|
    ensures |r| == n && forall k :: 0 <= k < n ==> r[k] == NewLine(lines, latest, k)
  {
    if n == 0 then [] else NewLines(lines, latest, n - 1) + [NewLine(lines, latest, n - 1)]
  }

  function NewText(text: string, latest: string): string {
    Concat(NewLines(KeptLines(text), latest, |KeptLines(text)|))
  }

  /** The versions replaced in the first `n` lines. */
  function OldRefs(lines: seq<string>, latest: string, n: nat): seq<string>
    requires n <= |lines|
  {
    if n == 0 then []
    else if IsOutdated(lines, latest, n - 1) then OldRefs(lines, latest, n - 1) + [RefAt(lines, n - 1).value]
    else OldRefs(lines, latest, n - 1)
  }

  function Without(refs: seq<string>, latest: string): seq<string> {
    if refs == [] then []
    else if refs[|refs| - 1] == latest then Without(refs[..|refs| - 1], latest)
    else Without(refs[..|refs| - 1], latest) + [refs[|refs| - 1]]
  }

  /** Collects the versions line by line. */
  method SetupComposeVersionRefs(text: string) returns (refs: seq<string>)
    ensures refs == Refs(BareLines(text), |BareLines(text)|)
  {
    var lines := BareLines(text);
    refs := [];
    var inStep, actionIndent: Option<nat> := false, None;
    for n := 0 to |lines|
      invariant refs == Refs(lines, n)
      invariant inStep == actionIndent.Some? && actionIndent == PlaceAt(lines, n)
    {
      var line := lines[n];
      var lineIndent := SpaceEnd(line, 0);
      var stripped := line[lineIndent..];
      StepHolds(PlaceAt(lines, n), line, lineIndent, stripped);
      if inStep && actionIndent.Some? && lineIndent <= actionIndent.value && StartsStep(stripped) {
        inStep, actionIndent := false, None;
      }
      if HasUses(stripped) {
        inStep, actionIndent := true, Some(lineIndent);
      }
      if inStep {
        var version := VersionOf(line);
        if version.Some? {
          refs := refs + [version.value];
        }
      }
    }
  }

  lemma LineHolds(lines: seq<string>, latest: string, n: nat, place: Place)
    requires n < |lines| && place == Step(PlaceAt(lines, n), lines[n])
    ensures PlaceAt(lines, n + 1) == place
    ensures var (line, replaced) := UpdatedLine(lines[n], latest, place.Some?);
            NewLines(lines, latest, n + 1) == NewLines(lines, latest, n) + [line] &&
            OldRefs(lines, latest, n + 1) ==
              if replaced.Some? then OldRefs(lines, latest, n) + [replaced.value] else OldRefs(lines, latest, n)
  {
  }

  /** Rewrites the versions line by line, and reports the old ones. */
  method UpdatedSetupComposeVersionText(text: string, latestVersion: Option<string>)
    returns (updated: string, oldRefs: seq<string>)
    ensures latestVersion.None? ==> updated == text && oldRefs == []
    ensures latestVersion.Some? ==>
              updated == NewText(text, latestVersion.value) &&
              oldRefs == OldRefs(KeptLines(text), latestVersion.value, |KeptLines(text)|)
  {
    if latestVersion.None? {
      return text, [];
    }
    var latest := latestVersion.value;
    var lines := KeptLines(text);
    var updatedLines: seq<string> := [];
    oldRefs := [];
    var inStep, actionIndent: Option<nat> := false, None;
    for n := 0 to |lines|
      invariant updatedLines == NewLines(lines, latest, n)
      invariant oldRefs == OldRefs(lines, latest, n)
      invariant inStep == actionIndent.Some? && actionIndent == PlaceAt(lines, n)
    {
      var line := lines[n];
      var lineIndent := SpaceEnd(line, 0);
      var stripped := line[lineIndent..];
      StepHolds(PlaceAt(lines, n), line, lineIndent, stripped);
      if inStep && actionIndent.Some? && lineIndent <= actionIndent.value && StartsStep(stripped) {
        inStep, actionIndent := false, None;
      }
      if HasUses(stripped) {
        inStep, actionIndent := true, Some(lineIndent);
      }
      LineHolds(lines, latest, n, actionIndent);
      var (updatedLine, replaced) := UpdatedLine(line, latest, inStep);
      updatedLines := updatedLines + [updatedLine];
      if replaced.Some? {
        oldRefs := oldRefs + [replaced.value];
      }
    }
    updated := Concat(updatedLines);
  }

  // ----- The scanners agree -----

  ghost predicate AreBare(lines: seq<string>, bare: seq<string>) {
    |bare| == |lines| && forall k :: 0 <= k < |lines| ==> IsLine(lines[k]) && bare[k] == Bare(lines[k])
  }

  lemma {:induction false} SamePlace(lines: seq<string>, bare: seq<string>, n: nat)
    requires AreBare(lines, bare) && n <= |lines|
    ensures PlaceAt(lines, n) == PlaceAt(bare, n)
  {
    if n > 0 {
      SamePlace(lines, bare, n - 1);
      BareStep(PlaceAt(lines, n - 1), lines[n - 1]);
    }
  }

  lemma SameVersion(line: string)
    requires IsLine(line)
    ensures VersionOf(line) == VersionOf(Bare(line))
  {
    BareMatch(line);
    if MatchVersion(line).Some? {
      var (b, e) := MatchVersion(line).value;
      SliceOfPrefix(line, BareLen(line), b, e);
    }
  }

  lemma SameRef(lines: seq<string>, bare: seq<string>, k: nat)
    requires AreBare(lines, bare) && k < |lines|
    ensures RefAt(lines, k) == RefAt(bare, k)
  {
    SamePlace(lines, bare, k + 1);
    SameVersion(lines[k]);
  }

  lemma WithoutAppended(refs: seq<string>, ref: string, latest: string)
    ensures Without(refs + [ref], latest) ==
              if ref == latest then Without(refs, latest) else Without(refs, latest) + [ref]
  {
  }

  /** Both scanners go on alike from a line where they find the same. */
  lemma NextOutdated(lines: seq<string>, bare: seq<string>, latest: string, n: nat, ref: Option<string>)
    requires n < |lines| == |bare| && RefAt(lines, n) == ref == RefAt(bare, n)
    requires OldRefs(lines, latest, n) == Without(Refs(bare, n), latest)
    ensures OldRefs(lines, latest, n + 1) == Without(Refs(bare, n + 1), latest)
  {
    if ref.Some? { WithoutAppended(Refs(bare, n), ref.value, latest); }
  }

  lemma {:induction false} OldAreOutdated(lines: seq<string>, bare: seq<string>, latest: string, n: nat)
    requires AreBare(lines, bare) && n <= |lines|
    ensures OldRefs(lines, latest, n) == Without(Refs(bare, n), latest)
  {
    if n > 0 {
      OldAreOutdated(lines, bare, latest, n - 1);
      SameRef(lines, bare, n - 1);
      NextOutdated(lines, bare, latest, n - 1, RefAt(bare, n - 1));
    }
  }

  /** On the same text, the versions the rewriter replaces are exactly the collected ones that differ
      from the latest. */
  lemma ScannersAgree(text: string, latest: string)
    ensures OldRefs(KeptLines(text), latest, |KeptLines(text)|) ==
            Without(Refs(BareLines(text), |BareLines(text)|), latest)
  {
    SplitGivesLines(text);
    BareLinesAreBare(text);
    OldAreOutdated(KeptLines(text), BareLines(text), latest, |KeptLines(text)|);
  }
}
