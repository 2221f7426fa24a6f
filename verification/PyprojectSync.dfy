/**
 Syncing the lower bounds of a project's dependencies with the locked versions.
 */
module PyprojectSync {
  import opened Prelude
  import opened Text
  import opened Requirements
  import opened LowerBounds
  import opened QuotedText

  // ----- The target version -----

  predicate IsSeparator(c: char) {
    c == '-' || c == '_' || c == '.'
  }

  /** The canonical name, from `i` on: separators in a row become one hyphen, letters lower case. */
  function Canonical(name: string, i: nat): string
    requires i <= |name|
    decreases |name| - i
  {
    if i == |name| then ""
    else if !IsSeparator(name[i]) then [Lower(name[i])] + Canonical(name, i + 1)
    else if i > 0 && IsSeparator(name[i - 1]) then Canonical(name, i + 1)
    else "-" + Canonical(name, i + 1)
  }

  /** The locked versions by canonical name, and the latest ones of everything else by name. */
  datatype Known = Known(locked: map<string, string>, latest: map<string, string>)

  function VersionOf(name: string, known: Known): Option<string> {
    var canonical := Canonical(name, 0);
    if canonical in known.locked then Some(known.locked[canonical])
    else if name in known.latest then Some(known.latest[name])
    else None
  }

  function TargetVersion(text: string, known: Known): Option<string> {
    var n := NameEnd(text, 0);
    var version := if n == 0 then None else VersionOf(text[..n], known);
    if version.Some? && SatisfiesUpperBounds(text, version.value) then version else None
  }

  /** The requirement that is to replace this one, if any. */
  function UpdateOf(text: string, known: Known): Option<string> {
    match TargetVersion(text, known)
    case None => None
    case Some(v) =>
      var updated := WithLowerBound(text, v);
      if updated == text then None else Some(updated)
  }

  predicate IsPending(text: string, known: Known) {
    UpdateOf(text, known).Some?
  }

  ghost predicate PlainVersions(known: Known) {
    && (forall name :: name in known.locked ==> IsPlainVersion(known.locked[name]))
    && (forall name :: name in known.latest ==> IsPlainVersion(known.latest[name]))
  }

  // ----- A written requirement is settled -----

  lemma {:induction false} NameEndOfPrefix(text: string, m: nat, i: nat)
    requires i <= m <= |text| && (m < |text| ==> !IsNameChar(text[m]))
    ensures NameEnd(text[..m], i) == NameEnd(text, i)
    decreases m - i
  {
    if i < m { NameEndOfPrefix(text, m, i + 1); }
  }

  lemma NameOfRead(text: string)
    ensures NameEnd(text, 0) == 0 <==> Read(text) == None
    ensures Read(text).Some? ==> Read(text).value.name == text[..NameEnd(text, 0)]
  {
    var m := FirstIndex(text, ';');
    NameEndOfPrefix(text, m, 0);
    assert text[..m][..NameEnd(text, 0)] == text[..NameEnd(text, 0)];
  }

  /** The specifier does not start like a name, or the extras or a missing lower bound keep it apart. */
  predicate KeepsName(r: Requirement) {
    r.extras != "" || !HasLower(r.specifier) || NameEnd(r.specifier, 0) == 0
  }

  ghost predicate IsOrdinary(text: string) {
    Read(text).Some? ==> BracketsClose(Read(text).value.specifier) && KeepsName(Read(text).value)
  }

  lemma TargetIsPlain(text: string, known: Known)
    requires PlainVersions(known) && TargetVersion(text, known).Some?
    ensures IsPlainVersion(TargetVersion(text, known).value)
    ensures Read(text).Some? && TargetVersion(text, known) == VersionOf(Read(text).value.name, known)
    ensures SatisfiesUpperBounds(text, TargetVersion(text, known).value)
  {
    NameOfRead(text);
  }

  /** The target of the written requirement is the same version, as long as it still meets the upper bounds. */
  lemma TargetAgain(text: string, known: Known, v: string)
    requires PlainVersions(known) && TargetVersion(text, known) == Some(v) && IsOrdinary(text)
    ensures TargetVersion(WithLowerBound(text, v), known) ==
              if SatisfiesUpperBounds(WithLowerBound(text, v), v) then Some(v) else None
  {
    TargetIsPlain(text, known);
    var again := NamePartStays(text, v);
    NameOfRead(WithLowerBound(text, v));
  }

  /** A written requirement is pending again exactly when white space is left after its name part and
      the target still meets its upper bounds. */
  lemma WrittenIsPendingIff(text: string, known: Known)
    requires PlainVersions(known) && IsPending(text, known) && IsOrdinary(text)
    ensures var r, v := Read(text), TargetVersion(text, known).value;
            r.Some? && (IsPending(UpdateOf(text, known).value, known) <==>
              LeavesGap(r.value) && MeetsBounds(v, r.value.specifier[JoinLen(r.value)..]))
  {
    var v := TargetVersion(text, known).value;
    TargetIsPlain(text, known);
    TargetAgain(text, known, v);
    UpperBoundsStay(text, v, v);
    RaisingAgain(text, v);
  }

  /** When nothing joins the name part, the written requirement is not pending, and the target meets
      all of its upper bounds. */
  lemma WrittenIsSettled(text: string, known: Known)
    requires PlainVersions(known) && IsPending(text, known) && IsOrdinary(text)
    requires Read(text).Some? ==> JoinLen(Read(text).value) == 0
    ensures !IsPending(UpdateOf(text, known).value, known)
    ensures SatisfiesUpperBounds(UpdateOf(text, known).value, TargetVersion(text, known).value)
  {
    var v := TargetVersion(text, known).value;
    TargetIsPlain(text, known);
    ReadIsRead(text);
    WrittenIsPendingIff(text, known);
    UpperBoundsStay(text, v, v);
  }

  /** The written requirement excludes the version it was written for exactly when the target does not
      meet the upper bounds behind what joins the name part; then it is not pending again. */
  lemma WrittenExcludesIff(text: string, known: Known)
    requires PlainVersions(known) && IsPending(text, known) && IsOrdinary(text)
    ensures var r, v, written := Read(text), TargetVersion(text, known).value, UpdateOf(text, known).value;
            r.Some? && (TargetVersion(written, known).None? <==> !SatisfiesUpperBounds(written, v)) &&
            (TargetVersion(written, known).None? <==> !MeetsBounds(v, r.value.specifier[JoinLen(r.value)..])) &&
            (TargetVersion(written, known).None? ==> !IsPending(written, known))
  {
    var v := TargetVersion(text, known).value;
    TargetIsPlain(text, known);
    TargetAgain(text, known, v);
    UpperBoundsStay(text, v, v);
  }

  /** What is pending again is settled by the next run: its extras have joined, and no gap is left. */
  lemma TwoRunsSettle(text: string, known: Known)
    requires PlainVersions(known) && IsPending(text, known) && IsOrdinary(text)
    requires IsPending(UpdateOf(text, known).value, known)
    ensures var written := UpdateOf(text, known).value;
            IsOrdinary(written) && !IsPending(UpdateOf(written, known).value, known)
  {
    var v, written := TargetVersion(text, known).value, UpdateOf(text, known).value;
    TargetIsPlain(text, known);
    WrittenIsPendingIff(text, known);
    var again := NamePartStays(text, v);
    ReadIsRead(text);
    ReadIsRead(written);
    GapIsClosed(Read(text).value, v, again);
    WrittenIsPendingIff(written, known);
  }

  // ----- White space before the extras -----

  /** There is white space between the name and the extras, so that the brackets are read as the
      start of the specifier. */
  ghost predicate HasSpacedExtras(r: Requirement) {
    r.extras == "" && ExtrasLen(r.specifier) > 0 && BracketsClose(r.specifier)
  }

  lemma SpacedExtrasJoin(r: Requirement)
    requires HasSpacedExtras(r)
    ensures var s, n := r.specifier, ExtrasLen(r.specifier);
            NameEnd(s, 0) == 0 &&
            if HasLower(s) then n < |s| && JoinLen(r) == n && (LeavesGap(r) <==> IsSpace(s[n]))
            else JoinLen(r) == 0 && !LeavesGap(r)
  {
    OnlyExtras(r.specifier, ExtrasLen(r.specifier));
  }

  /** Raising the lower bound of such a requirement changes it. */
  lemma SpacedChanges(text: string, v: string, r: Requirement)
    requires IsPlainVersion(v) && Read(text) == Some(r) && HasSpacedExtras(r)
    ensures WithLowerBound(text, v) != text
  {
    SpacedExtrasJoin(r);
    ReadIsRead(text);
    var again := NamePartStays(text, v);
    RaisedTwice(r, v, again);
    assert HasLower(r.specifier) ==> |again.name + again.extras| > |r.name + r.extras|;
  }

  lemma BoundsBehind(version: string, s: string, n: nat, t: string)
    requires n <= |s| && t == s[n..] && MeetsBounds(version, s)
    ensures MeetsBounds(version, t) <==> MeetsClause(version, t)
  {
    assert t[0..] == t && ClauseStart(t, 0);
    forall c | 0 < c <= |t| && ClauseStart(t, c) ensures MeetsClause(version, t[c..]) {
      assert t[c - 1] == s[n + c - 1] && t[c..] == s[n + c..] && ClauseStart(s, n + c);
    }
  }

  /** What the next run makes of what was written for `text`: it rewrites it if white space was left
      and the version is allowed; if the version is not allowed, it finds no target, and what was
      written excludes the version it was written for. */
  ghost predicate GoesOn(text: string, known: Known, v: string, gap: bool, allowed: bool) {
    && IsPending(text, known)
    && var written := UpdateOf(text, known).value;
    && (IsPending(written, known) <==> gap && allowed) && (TargetVersion(written, known).None? <==> !allowed)
    && (SatisfiesUpperBounds(written, v) <==> allowed)
  }

  lemma GapGoesOn(text: string, known: Known, v: string, r: Requirement)
    requires PlainVersions(known) && IsPending(text, known) && IsOrdinary(text) && TargetVersion(text, known) == Some(v)
    requires Read(text) == Some(r)
    ensures GoesOn(text, known, v, LeavesGap(r), MeetsBounds(v, r.specifier[JoinLen(r)..]))
  {
    WrittenIsPendingIff(text, known);
    WrittenExcludesIff(text, known);
  }

  lemma SpacedIsPending(text: string, known: Known, r: Requirement, v: string)
    requires PlainVersions(known) && Read(text) == Some(r)
    requires HasSpacedExtras(r) && TargetVersion(text, known) == Some(v)
    ensures IsPending(text, known) && IsOrdinary(text) && MeetsBounds(v, r.specifier)
  {
    TargetIsPlain(text, known);
    SpacedExtrasJoin(r);
    SpacedChanges(text, v, r);
  }

  /** White space between name and extras is lost when there is a lower bound.  Then, if the first
      clause behind the extras allows the version, the next run rewrites what was written exactly when
      white space follows the extras; otherwise what was written excludes the version it was written
      for, and no run rewrites it.  Without a lower bound what is written is settled. */
  lemma SpacedRequirement(text: string, known: Known, r: Requirement, v: string)
    requires PlainVersions(known) && Read(text) == Some(r)
    requires HasSpacedExtras(r) && TargetVersion(text, known) == Some(v)
    ensures var s, n := r.specifier, ExtrasLen(r.specifier);
            if HasLower(s) then n < |s| && GoesOn(text, known, v, IsSpace(s[n]), MeetsClause(v, s[n..]))
            else GoesOn(text, known, v, false, true)
  {
    var s, j := r.specifier, JoinLen(r);
    SpacedExtrasJoin(r);
    SpacedIsPending(text, known, r, v);
    GapGoesOn(text, known, v, r);
    if HasLower(s) {
      BoundsBehind(v, s, j, s[j..]);
    } else {
      assert s[0..] == s;
    }
  }

  lemma TargetOfRead(text: string, known: Known, r: Requirement, v: string)
    requires Read(text) == Some(r) && VersionOf(r.name, known) == Some(v) && MeetsBounds(v, r.specifier)
    ensures TargetVersion(text, known) == Some(v)
  {
    NameOfRead(text);
  }

  lemma BlankAsksNothing(version: string, s: string, bounds: string)
    requires s == " " + bounds && bounds != "" && !IsSpace(bounds[0])
    ensures MeetsClause(version, s) <==> MeetsClause(version, bounds)
  {
    assert SpaceEnd(s, 0) == 1 && SpaceEnd(bounds, 0) == 0 && s[1..] == bounds == bounds[0..];
  }

  lemma NoUpperHere(version: string, s: string)
    requires s != "" && !IsSpace(s[0]) && s[0] != '<'
    ensures MeetsClause(version, s)
  {
    assert s[0..] == s;
  }

  lemma FewClauses(version: string, s: string, p: nat)
    requires p < |s| && s[0] != '<' && !IsSpace(s[0]) && s[p] == '>'
    requires forall k :: 0 <= k < |s| && s[k] == ',' ==> k + 1 == p
    ensures MeetsBounds(version, s)
  {
    forall c | 0 <= c <= |s| && ClauseStart(s, c) ensures MeetsClause(version, s[c..]) {
      assert c == 0 || c == p;
      NoUpperHere(version, s[c..]);
    }
  }

  lemma BlankAndBounds(s: string, n: nat, bounds: string)
    requires IsSpaced(s, n, bounds)
    ensures s[n..] == " " + bounds && bounds != "" && !IsSpace(bounds[0]) && IsSpace(s[n])
  {
    var t := s[n..];
    assert t[0] == ' ' && t[1..] == bounds;
  }

  lemma BlankSpacedRequirement(name: string, s: string, n: nat, bounds: string, text: string, known: Known, v: string)
    requires IsName(name) && IsSpaced(s, n, bounds) && text == name + (" " + s)
    requires PlainVersions(known) && VersionOf(name, known) == Some(v) && MeetsBounds(v, s)
    ensures GoesOn(text, known, v, true, MeetsClause(v, bounds))
  {
    var r := SpaceBeforeExtras(name, s, n, bounds, text);
    TargetOfRead(text, known, r, v);
    BlankAndBounds(s, n, bounds);
    BlankAsksNothing(v, s[n..], bounds);
    SpacedRequirement(text, known, r, v);
  }

  lemma SmallSpacedRequirement(s: string, bounds: string, p: nat, known: Known, text: string, v: string)
    requires IsSmall(s, bounds, p) && text == "a " + s
    requires PlainVersions(known) && VersionOf("a", known) == Some(v) && MeetsBounds(v, s)
    ensures GoesOn(text, known, v, true, MeetsClause(v, bounds))
  {
    SmallSpaced(s, bounds, p);
    assert text == "a" + (" " + s);
    BlankSpacedRequirement("a", s, 3, bounds, text, known, v);
  }

  /** With version 5 of `a`, two runs write two requirements for `a [b] >1`. */
  lemma RunsTwice(known: Known, bounds: string, s: string, text: string, v: string)
    requires bounds == ">1" && s == "[b] " + bounds && text == "a " + s && v == "5"
    requires PlainVersions(known) && VersionOf("a", known) == Some(v)
    ensures GoesOn(text, known, v, true, true)
  {
    FewClauses(v, s, 4);
    NoUpperHere(v, bounds);
    SmallSpacedRequirement(s, bounds, 0, known, text, v);
  }

  /** With version 5 of `a`, one run writes for `a [b] <3,>1` a requirement that excludes the version 5,
      and the next leaves it. */
  lemma ExcludesItsVersion(known: Known, bounds: string, s: string, text: string, v: string)
    requires bounds == "<3,>1" && s == "[b] " + bounds && text == "a " + s && v == "5"
    requires PlainVersions(known) && VersionOf("a", known) == Some(v)
    ensures GoesOn(text, known, v, true, false)
  {
    FewClauses(v, s, 7);
    UpperThree(bounds);
    SmallSpacedRequirement(s, bounds, 3, known, text, v);
  }

  // ----- The sync loop -----

  datatype DependencyUpdate = DependencyUpdate(before: string, after: string)

  datatype Synced = Synced(text: string, updates: seq<DependencyUpdate>)

  /** One requirement: nothing to do, replaced in the text, or not found there. */
  function SyncOne(state: Synced, requirement: string, known: Known): Result<Synced, string> {
    match UpdateOf(requirement, known)
    case None => Success(state)
    case Some(updated) =>
      if !Contains(state.text, Quoted(requirement)) then Failure(requirement)
      else Success(Synced(ReplaceFirst(state.text, Quoted(requirement), Quoted(updated)),
                          state.updates + [DependencyUpdate(requirement, updated)]))
  }

  /** All requirements in order; the first one that is not found stops the sync. */
  function Sync(text: string, requirements: seq<string>, known: Known): Result<Synced, string> {
    if requirements == [] then Success(Synced(text, []))
    else
      match Sync(text, requirements[..|requirements| - 1], known)
      case Failure(missing) => Failure(missing)
      case Success(state) => SyncOne(state, requirements[|requirements| - 1], known)
  }

  lemma {:induction false} FailureStays(text: string, requirements: seq<string>, known: Known, n: nat)
    requires n <= |requirements| && Sync(text, requirements[..n], known).Failure?
    ensures Sync(text, requirements, known) == Sync(text, requirements[..n], known)
    decreases |requirements|
  {
    if n < |requirements| {
      assert requirements[..|requirements| - 1][..n] == requirements[..n];
      FailureStays(text, requirements[..|requirements| - 1], known, n);
    } else {
      assert requirements[..n] == requirements;
    }
  }

  /** Replaces the lower bounds in the text, requirement by requirement. */
  method SyncPyprojectDependencyVersions(text: string, requirements: seq<string>, known: Known)
    returns (result: Result<Synced, string>)
    ensures result == Sync(text, requirements, known)
  {
    var updatedText, updates := text, [];
    for n := 0 to |requirements|
      invariant Sync(text, requirements[..n], known) == Success(Synced(updatedText, updates))
    {
      assert requirements[..n + 1][..n] == requirements[..n];
      var requirement := requirements[n];
      var target := TargetVersion(requirement, known);
      if target.None? {
        continue;
      }
      var updated := WithLowerBound(requirement, target.value);
      if updated == requirement {
        continue;
      }
      var oldFragment, newFragment := Quoted(requirement), Quoted(updated);
      if !Contains(updatedText, oldFragment) {
        FailureStays(text, requirements, known, n + 1);
        return Failure(requirement);
      }
      updatedText := ReplaceFirst(updatedText, oldFragment, newFragment);
      updates := updates + [DependencyUpdate(requirement, updated)];
    }
    assert requirements[..|requirements|] == requirements;
    result := Success(Synced(updatedText, updates));
  }

  /** The updates a successful sync reports: those of all pending requirements, in order. */
  function Updates(requirements: seq<string>, known: Known): seq<DependencyUpdate> {
    if requirements == [] then []
    else
      var rest, last := requirements[..|requirements| - 1], requirements[|requirements| - 1];
      Updates(rest, known) +
      if IsPending(last, known) then [DependencyUpdate(last, UpdateOf(last, known).value)] else []
  }

  // ----- The file -----

  /** A project file: its stretches between double quotes, and which of them are dependency entries. */
  datatype ProjectFile = ProjectFile(pieces: seq<string>, isEntry: seq<bool>)

  function Content(file: ProjectFile): string
    requires file.pieces != []
  {
    Join(file.pieces, 0)
  }

  ghost predicate IsProjectFile(file: ProjectFile) {
    file.pieces != [] && |file.pieces| == |file.isEntry| && QuoteFree(file.pieces)
  }

  /** How many of the first `n` stretches are the entry `s`. */
  function CountEntry(file: ProjectFile, s: string, n: nat): nat
    requires n <= |file.pieces| && |file.pieces| == |file.isEntry|
  {
    if n == 0 then 0 else CountEntry(file, s, n - 1) + if file.isEntry[n - 1] && file.pieces[n - 1] == s then 1 else 0
  }

  function Count(file: ProjectFile, s: string): nat
    requires |file.pieces| == |file.isEntry|
  {
    CountEntry(file, s, |file.pieces|)
  }

  /** The requirements are the entries of the file, in some order. */
  ghost predicate Lists(requirements: seq<string>, file: ProjectFile)
    requires |file.pieces| == |file.isEntry|
  {
    forall s :: multiset(requirements)[s] == Count(file, s)
  }

  /** Entries are quoted, and a pending requirement occurs in quotes only as an entry.  Other quoted
      text may be anything, such as the project's own name, which the lock file knows a version of. */
  ghost predicate OnlyEntriesPending(file: ProjectFile, known: Known, requirements: seq<string>)
    requires |file.pieces| == |file.isEntry|
  {
    forall k :: 0 <= k < |file.pieces| ==>
      (file.isEntry[k] ==> 0 < k < |file.pieces| - 1) &&
      (!file.isEntry[k] && 0 < k < |file.pieces| - 1 && file.pieces[k] in requirements ==>
         !IsPending(file.pieces[k], known))
  }

  /** The file with the first occurrence of an entry replaced. */
  function WithEntry(file: ProjectFile, before: string, after: string): ProjectFile
    requires file.pieces != []
  {
    file.(pieces := ReplacePiece(file.pieces, FirstPiece(file.pieces, before, 1), after))
  }

  /** The file after replacing the entries of all pending requirements. */
  function SyncFile(file: ProjectFile, requirements: seq<string>, known: Known): ProjectFile
    requires file.pieces != []
    ensures SyncFile(file, requirements, known).pieces != []
  {
    if requirements == [] then file
    else
      var rest, last := SyncFile(file, requirements[..|requirements| - 1], known), requirements[|requirements| - 1];
      if IsPending(last, known) then WithEntry(rest, last, UpdateOf(last, known).value) else rest
  }

  lemma {:induction false} SomeEntry(file: ProjectFile, s: string, n: nat) returns (k: nat)
    requires n <= |file.pieces| && |file.pieces| == |file.isEntry| && CountEntry(file, s, n) > 0
    ensures k < n && file.isEntry[k] && file.pieces[k] == s
  {
    if file.isEntry[n - 1] && file.pieces[n - 1] == s {
      k := n - 1;
    } else {
      k := SomeEntry(file, s, n - 1);
    }
  }

  lemma {:induction false} CountChanges(file: ProjectFile, s: string, n: nat, i: nat, after: string)
    requires n <= |file.pieces| && |file.pieces| == |file.isEntry| && i < |file.pieces| && file.isEntry[i]
    ensures var changed := file.(pieces := file.pieces[i := after]);
            CountEntry(changed, s, n) + (if i < n && file.pieces[i] == s then 1 else 0) ==
              CountEntry(file, s, n) + if i < n && after == s then 1 else 0
  {
    if n > 0 { CountChanges(file, s, n - 1, i, after); }
  }

  /** The first occurrence of a pending requirement is an entry. */
  lemma FirstIsEntry(file: ProjectFile, known: Known, requirements: seq<string>, s: string) returns (i: nat)
    requires IsProjectFile(file) && OnlyEntriesPending(file, known, requirements) && Count(file, s) > 0
    requires s in requirements && IsPending(s, known)
    ensures i == FirstPiece(file.pieces, s, 1) < |file.pieces| && file.pieces[i] == s && file.isEntry[i]
  {
    var k := SomeEntry(file, s, |file.pieces|);
    i := FirstPiece(file.pieces, s, 1);
  }

  lemma EntryChanged(file: ProjectFile, known: Known, requirements: seq<string>, i: nat, after: string,
                     changed: ProjectFile)
    requires IsProjectFile(file) && OnlyEntriesPending(file, known, requirements)
    requires i < |file.pieces| && file.isEntry[i]
    requires changed == file.(pieces := file.pieces[i := after]) && '"' !in after
    ensures IsProjectFile(changed) && OnlyEntriesPending(changed, known, requirements)
  {
  }

  /** Replacing an entry replaces its first occurrence in the text. */
  lemma ReplaceEntry(file: ProjectFile, known: Known, requirements: seq<string>, before: string, after: string)
    returns (changed: ProjectFile)
    requires IsProjectFile(file) && OnlyEntriesPending(file, known, requirements) && Count(file, before) > 0
    requires before in requirements && IsPending(before, known) && '"' !in after && '"' !in before
    ensures changed == WithEntry(file, before, after)
    ensures IsProjectFile(changed) && OnlyEntriesPending(changed, known, requirements)
    ensures forall s :: Count(changed, s) + (if s == before then 1 else 0) ==
                          Count(file, s) + if s == after then 1 else 0
    ensures Contains(Content(file), Quoted(before))
    ensures ReplaceFirst(Content(file), Quoted(before), Quoted(after)) == Content(changed)
  {
    changed := WithEntry(file, before, after);
    var i := FirstIsEntry(file, known, requirements, before);
    EntryChanged(file, known, requirements, i, after, changed);
    ReplaceInJoin(file.pieces, 0, before, after);
    forall s
      ensures Count(changed, s) + (if s == before then 1 else 0) == Count(file, s) + if s == after then 1 else 0
    {
      CountChanges(file, s, |file.pieces|, i, after);
    }
  }

  /** What a sync needs of its inputs: plain versions, and a file whose entries are the requirements and
      whose pending requirements stand in quotes only as entries. */
  ghost predicate Syncable(file: ProjectFile, requirements: seq<string>, known: Known) {
    && IsProjectFile(file) && PlainVersions(known)
    && Lists(requirements, file) && OnlyEntriesPending(file, known, requirements)
  }

  lemma {:induction false} CountIgnoresText(file: ProjectFile, s: string, n: nat, k: nat, text: string)
    requires n <= |file.pieces| && |file.pieces| == |file.isEntry| && k < |file.pieces| && !file.isEntry[k]
    ensures CountEntry(file.(pieces := file.pieces[k := text]), s, n) == CountEntry(file, s, n)
  {
    if n > 0 { CountIgnoresText(file, s, n - 1, k, text); }
  }

  /** Text that is no entry does not matter as long as it is not listed: not even if it is a name that
      the lock file knows a version of, as the project's own name always is. */
  lemma OtherTextIsFree(file: ProjectFile, requirements: seq<string>, known: Known, k: nat, text: string)
    requires Syncable(file, requirements, known) && k < |file.pieces| && !file.isEntry[k]
    requires '"' !in text && text !in requirements
    ensures Syncable(file.(pieces := file.pieces[k := text]), requirements, known)
  {
    forall s ensures multiset(requirements)[s] == Count(file.(pieces := file.pieces[k := text]), s) {
      CountIgnoresText(file, s, |file.pieces|, k, text);
    }
  }

  lemma UpdateHasNoQuote(s: string, known: Known)
    requires PlainVersions(known) && IsPending(s, known) && '"' !in s
    ensures '"' !in UpdateOf(s, known).value
  {
    TargetIsPlain(s, known);
    WrittenHasNo(s, TargetVersion(s, known).value, '"');
  }

  /** How many of these are written as `s`. */
  ghost function Writes(done: seq<string>, known: Known, s: string): nat {
    if done == [] then 0
    else Writes(done[..|done| - 1], known, s) + if UpdateOf(done[|done| - 1], known) == Some(s) then 1 else 0
  }

  /** A file during the sync: so many entries of each pending requirement are still to be replaced, some
      of them perhaps written by the sync itself. */
  ghost predicate Remaining(file: ProjectFile, known: Known, requirements: seq<string>, done: seq<string>) {
    && IsProjectFile(file) && OnlyEntriesPending(file, known, requirements)
    && forall s :: IsPending(s, known) ==>
                     Count(file, s) + multiset(done)[s] == multiset(requirements)[s] + Writes(done, known, s)
  }

  lemma ListedIsQuoteFree(file: ProjectFile, requirements: seq<string>, s: string)
    requires IsProjectFile(file) && Lists(requirements, file) && s in requirements
    ensures '"' !in s
  {
    assert multiset(requirements)[s] > 0;
    var k := SomeEntry(file, s, |file.pieces|);
  }

  lemma NextRequirement(file: ProjectFile, known: Known, rest: seq<string>, last: string, state: Synced)
    requires file.pieces != [] && Sync(Content(file), rest, known) == Success(state)
    ensures Sync(Content(file), rest + [last], known) == SyncOne(state, last, known)
    ensures SyncFile(file, rest + [last], known) ==
              if IsPending(last, known) then WithEntry(SyncFile(file, rest, known), last, UpdateOf(last, known).value)
              else SyncFile(file, rest, known)
    ensures Updates(rest + [last], known) ==
              Updates(rest, known) +
              if IsPending(last, known) then [DependencyUpdate(last, UpdateOf(last, known).value)] else []
  {
    assert (rest + [last])[..|rest|] == rest;
  }

  ghost predicate InStep(file: ProjectFile, requirements: seq<string>, known: Known, done: seq<string>)
    requires file.pieces != []
  {
    var reached := SyncFile(file, done, known);
    Remaining(reached, known, requirements, done) &&
    Sync(Content(file), done, known) == Success(Synced(Content(reached), Updates(done, known)))
  }

  lemma WritesOneMore(rest: seq<string>, last: string, known: Known)
    ensures forall s :: Writes(rest + [last], known, s) ==
                          Writes(rest, known, s) + if UpdateOf(last, known) == Some(s) then 1 else 0
  {
    assert (rest + [last])[..|rest|] == rest;
  }

  lemma PendingStep(file: ProjectFile, requirements: seq<string>, known: Known, rest: seq<string>, last: string)
    requires file.pieces != [] && PlainVersions(known) && InStep(file, requirements, known, rest)
    requires IsPending(last, known) && '"' !in last
    requires multiset(rest)[last] < multiset(requirements)[last]
    ensures InStep(file, requirements, known, rest + [last])
  {
    var reached := SyncFile(file, rest, known);
    NextRequirement(file, known, rest, last, Synced(Content(reached), Updates(rest, known)));
    UpdateHasNoQuote(last, known);
    var changed := ReplaceEntry(reached, known, requirements, last, UpdateOf(last, known).value);
    WritesOneMore(rest, last, known);
  }

  lemma OtherStep(file: ProjectFile, requirements: seq<string>, known: Known, rest: seq<string>, last: string)
    requires file.pieces != [] && InStep(file, requirements, known, rest) && !IsPending(last, known)
    ensures InStep(file, requirements, known, rest + [last])
  {
    var reached := SyncFile(file, rest, known);
    NextRequirement(file, known, rest, last, Synced(Content(reached), Updates(rest, known)));
    assert Updates(rest, known) + [] == Updates(rest, known);
    WritesOneMore(rest, last, known);
  }

  lemma NextStep(file: ProjectFile, requirements: seq<string>, known: Known, rest: seq<string>, last: string)
    requires Syncable(file, requirements, known) && InStep(file, requirements, known, rest)
    requires last in requirements && multiset(rest)[last] < multiset(requirements)[last]
    ensures InStep(file, requirements, known, rest + [last])
  {
    if IsPending(last, known) {
      ListedIsQuoteFree(file, requirements, last);
      PendingStep(file, requirements, known, rest, last);
    } else {
      OtherStep(file, requirements, known, rest, last);
    }
  }

  /** After the first `n` requirements, the sync has succeeded so far and the file is as it says. */
  lemma {:induction false} SyncSoFar(file: ProjectFile, requirements: seq<string>, known: Known, n: nat)
    requires Syncable(file, requirements, known) && n <= |requirements|
    ensures InStep(file, requirements, known, requirements[..n])
  {
    if n > 0 {
      SyncSoFar(file, requirements, known, n - 1);
      LeftToDo(requirements, n - 1);
      NextStep(file, requirements, known, requirements[..n - 1], requirements[n - 1]);
      assert requirements[..n] == requirements[..n - 1] + [requirements[n - 1]];
    } else {
      NoStep(file, requirements, known);
    }
  }

  lemma NoStep(file: ProjectFile, requirements: seq<string>, known: Known)
    requires Syncable(file, requirements, known)
    ensures InStep(file, requirements, known, requirements[..0])
  {
    assert requirements[..0] == [];
  }

  lemma LeftToDo(requirements: seq<string>, n: nat)
    requires n < |requirements|
    ensures multiset(requirements)[requirements[n]] > multiset(requirements[..n])[requirements[n]]
  {
    assert requirements == requirements[..n] + [requirements[n]] + requirements[n + 1..];
  }

  /** The sync does not fail, and reports the updates of exactly the pending requirements. */
  lemma SyncSucceeds(file: ProjectFile, requirements: seq<string>, known: Known)
    requires Syncable(file, requirements, known)
    ensures Sync(Content(file), requirements, known) ==
              Success(Synced(Content(SyncFile(file, requirements, known)), Updates(requirements, known)))
    ensures Remaining(SyncFile(file, requirements, known), known, requirements, requirements)
  {
    SyncSoFar(file, requirements, known, |requirements|);
    assert requirements[..|requirements|] == requirements;
  }

  /** What a successful sync reports. */
  lemma {:induction false} SyncReports(text: string, requirements: seq<string>, known: Known)
    requires Sync(text, requirements, known).Success?
    ensures Sync(text, requirements, known).value.updates == Updates(requirements, known)
  {
    if requirements != [] { SyncReports(text, requirements[..|requirements| - 1], known); }
  }

  lemma {:induction false} NoUpdateIff(requirements: seq<string>, known: Known)
    ensures Updates(requirements, known) == [] <==> forall s :: s in requirements ==> !IsPending(s, known)
  {
    if requirements != [] {
      var rest, last := requirements[..|requirements| - 1], requirements[|requirements| - 1];
      assert requirements == rest + [last];
      NoUpdateIff(rest, known);
    }
  }

  lemma {:induction false} NothingPending(text: string, requirements: seq<string>, known: Known)
    requires forall s :: s in requirements ==> !IsPending(s, known)
    ensures Sync(text, requirements, known) == Success(Synced(text, []))
  {
    if requirements != [] {
      NothingPending(text, requirements[..|requirements| - 1], known);
      assert requirements[|requirements| - 1] in requirements;
    }
  }

  lemma {:induction false} WritesMeans(done: seq<string>, known: Known, s: string)
    ensures Writes(done, known, s) > 0 <==> exists r :: r in done && UpdateOf(r, known) == Some(s)
  {
    if done != [] {
      var rest, last := done[..|done| - 1], done[|done| - 1];
      assert done == rest + [last];
      WritesMeans(rest, known, s);
    }
  }

  /** The pending entries of the written file are those the sync has written and leaves pending. */
  lemma PendingInWritten(file: ProjectFile, requirements: seq<string>, known: Known, again: seq<string>, s: string)
    requires Syncable(file, requirements, known) && IsPending(s, known)
    requires Rereads(file, requirements, known, again)
    ensures s in again <==> exists r :: r in requirements && UpdateOf(r, known) == Some(s)
  {
    SyncSucceeds(file, requirements, known);
    WritesMeans(requirements, known, s);
    assert multiset(again)[s] == Count(SyncFile(file, requirements, known), s);
  }

  /** `again` are the entries of the written file, in some order. */
  ghost predicate Rereads(file: ProjectFile, requirements: seq<string>, known: Known, again: seq<string>)
    requires file.pieces != []
  {
    var written := SyncFile(file, requirements, known);
    |written.pieces| == |written.isEntry| && Lists(again, written)
  }

  /** The second run changes nothing. */
  ghost predicate SecondRunIsIdle(file: ProjectFile, requirements: seq<string>, known: Known, again: seq<string>)
    requires file.pieces != []
  {
    var written := Content(SyncFile(file, requirements, known));
    Sync(written, again, known) == Success(Synced(written, []))
  }

  /** Syncing the written file again, in whatever order its entries come, changes nothing and does not
      fail if and only if no requirement that the first run wrote is pending. */
  lemma SyncAgainIff(file: ProjectFile, requirements: seq<string>, known: Known, again: seq<string>)
    requires Syncable(file, requirements, known) && Rereads(file, requirements, known, again)
    ensures SecondRunIsIdle(file, requirements, known, again) <==>
            forall r :: r in requirements && IsPending(r, known) ==> !IsPending(UpdateOf(r, known).value, known)
  {
    var written := Content(SyncFile(file, requirements, known));
    forall s | IsPending(s, known)
      ensures s in again <==> exists r :: r in requirements && UpdateOf(r, known) == Some(s)
    {
      PendingInWritten(file, requirements, known, again, s);
    }
    if SecondRunIsIdle(file, requirements, known, again) {
      SyncReports(written, again, known);
      NoUpdateIff(again, known);
      forall r | r in requirements && IsPending(r, known) ensures !IsPending(UpdateOf(r, known).value, known) {
        assert UpdateOf(r, known) == Some(UpdateOf(r, known).value);
      }
    } else {
      if forall s :: s in again ==> !IsPending(s, known) { NothingPending(written, again, known); }
    }
  }

  /** White space is left after the name part, and the target meets the upper bounds behind it. */
  predicate LeavesWork(text: string, known: Known) {
    var r, v := Read(text), TargetVersion(text, known);
    r.Some? && v.Some? && LeavesGap(r.value) && MeetsBounds(v.value, r.value.specifier[JoinLen(r.value)..])
  }

  /** Syncing twice: the first run succeeds and reports exactly the pending requirements, and the second
      one, in whatever order the entries come, changes nothing if and only if no pending requirement
      leaves work. */
  lemma SyncTwice(file: ProjectFile, requirements: seq<string>, known: Known, again: seq<string>)
    requires Syncable(file, requirements, known) && Rereads(file, requirements, known, again)
    requires forall r :: r in requirements && IsPending(r, known) ==> IsOrdinary(r)
    ensures Sync(Content(file), requirements, known) ==
              Success(Synced(Content(SyncFile(file, requirements, known)), Updates(requirements, known)))
    ensures SecondRunIsIdle(file, requirements, known, again) <==>
            forall r :: r in requirements && IsPending(r, known) ==> !LeavesWork(r, known)
  {
    SyncSucceeds(file, requirements, known);
    SyncAgainIff(file, requirements, known, again);
    forall r | r in requirements && IsPending(r, known)
      ensures IsPending(UpdateOf(r, known).value, known) <==> LeavesWork(r, known)
    {
      WrittenIsPendingIff(r, known);
    }
  }

  /** What the first run writes and leaves pending does not stand in other quotes. */
  ghost predicate WritesOnlyEntries(file: ProjectFile, requirements: seq<string>, known: Known)
    requires |file.pieces| == |file.isEntry|
  {
    forall k, r :: 0 < k < |file.pieces| - 1 && !file.isEntry[k] && r in requirements ==>
      UpdateOf(r, known) == Some(file.pieces[k]) ==> !IsPending(file.pieces[k], known)
  }

  /** The sync changes entries only. */
  lemma {:induction false} OtherTextStays(file: ProjectFile, requirements: seq<string>, known: Known, n: nat, k: nat)
    requires Syncable(file, requirements, known) && n <= |requirements|
    ensures var reached := SyncFile(file, requirements[..n], known);
            reached.isEntry == file.isEntry && |reached.pieces| == |file.pieces| &&
            (k < |file.pieces| && !file.isEntry[k] ==> reached.pieces[k] == file.pieces[k])
  {
    if n > 0 {
      var before, last := requirements[..n - 1], requirements[n - 1];
      OtherTextStays(file, requirements, known, n - 1, k);
      SyncSoFar(file, requirements, known, n - 1);
      LeftToDo(requirements, n - 1);
      assert requirements[..n][..n - 1] == before;
      if IsPending(last, known) {
        var i := FirstIsEntry(SyncFile(file, before, known), known, requirements, last);
      }
    }
  }

  lemma StillSyncable(file: ProjectFile, requirements: seq<string>, known: Known, again: seq<string>)
    requires Syncable(file, requirements, known) && Rereads(file, requirements, known, again)
    requires WritesOnlyEntries(file, requirements, known)
    ensures Syncable(SyncFile(file, requirements, known), again, known)
  {
    var written := SyncFile(file, requirements, known);
    SyncSucceeds(file, requirements, known);
    assert requirements[..|requirements|] == requirements;
    forall k | 0 < k < |written.pieces| - 1 && !written.isEntry[k] && written.pieces[k] in again
      ensures !IsPending(written.pieces[k], known)
    {
      OtherTextStays(file, requirements, known, |requirements|, k);
      if IsPending(written.pieces[k], known) {
        PendingInWritten(file, requirements, known, again, written.pieces[k]);
      }
    }
  }

  /** And a third run has nothing to do, unless what the first one leaves pending stands in other quotes. */
  lemma SyncThrice(file: ProjectFile, requirements: seq<string>, known: Known, again: seq<string>, third: seq<string>)
    requires Syncable(file, requirements, known) && Rereads(file, requirements, known, again)
    requires forall r :: r in requirements && IsPending(r, known) ==> IsOrdinary(r)
    requires WritesOnlyEntries(file, requirements, known)
    requires Rereads(SyncFile(file, requirements, known), again, known, third)
    ensures SecondRunIsIdle(SyncFile(file, requirements, known), again, known, third)
  {
    var written := SyncFile(file, requirements, known);
    StillSyncable(file, requirements, known, again);
    forall r | r in again && IsPending(r, known) ensures !IsPending(UpdateOf(r, known).value, known) {
      PendingInWritten(file, requirements, known, again, r);
      var first :| first in requirements && UpdateOf(first, known) == Some(r);
      TwoRunsSettle(first, known);
    }
    SyncAgainIff(written, again, known, third);
  }
}
