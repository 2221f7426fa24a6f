/**
 The rules for workflow files with their characters written out: which references are outdated, what
 becomes of one, and which lines hold the version of the setup-compose action.
 */
module WorkflowRules {
  import opened Prelude
  import opened Text
  import opened TextRules
  import opened Versions
  import opened Decimals
  import opened WorkflowVersions
  import opened WorkflowRewriting
  import opened WorkflowActions

  // ----- Major versions -----

  /** The reference is `v`, these digits, and something else than a digit or nothing. */
  ghost predicate HasMajor(ref: string, digits: string) {
    && IsNumber(digits) && 1 + |digits| <= |ref| && ref[0] == 'v' && ref[1..1 + |digits|] == digits
    && (1 + |digits| < |ref| ==> !('0' <= ref[1 + |digits|] <= '9'))
  }

  lemma MajorMeans(ref: string)
    ensures forall digits :: HasMajor(ref, digits) ==> MajorVersion(ref) == Some(Number(digits))
    ensures MajorVersion(ref).Some? ==> exists digits :: HasMajor(ref, digits)
  {
    if ref != "" && ref[0] == 'v' {
      var e := DigitsEnd(ref, 1);
      forall digits | HasMajor(ref, digits) ensures digits == ref[1..e] {
        assert forall k :: 1 <= k < 1 + |digits| ==> ref[k] == ref[1..1 + |digits|][k - 1];
      }
      if e > 1 { assert HasMajor(ref, ref[1..e]); }
    }
  }

  /** Both references have a major version, and these differ as numbers. */
  ghost predicate OtherMajor(ref: string, tag: string) {
    exists a, b :: HasMajor(ref, a) && HasMajor(tag, b) && Number(a) != Number(b)
  }

  lemma OtherMajorMeans(ref: string, tag: string)
    ensures OtherMajor(ref, tag) <==>
            MajorVersion(ref).Some? && MajorVersion(tag).Some? && MajorVersion(ref) != MajorVersion(tag)
  {
    MajorMeans(ref);
    MajorMeans(tag);
    if MajorVersion(ref).Some? && MajorVersion(tag).Some? {
      var a :| HasMajor(ref, a);
      var b :| HasMajor(tag, b);
    }
  }

  /** The repository has a latest tag, of another major version than the reference. */
  ghost predicate IsOutdatedRef(repository: string, ref: string, latest: LatestTags) {
    repository in latest && latest[repository].Some? && OtherMajor(ref, latest[repository].value)
  }

  lemma NewRefMeans(repository: string, ref: string, latest: LatestTags)
    ensures NewRef(repository, ref, latest) ==
              if IsOutdatedRef(repository, ref, latest) then latest[repository].value else ref
    ensures IsOutdatedRef(repository, ref, latest) ==> latest[repository].value != ref
  {
    if repository in latest && latest[repository].Some? { OtherMajorMeans(ref, latest[repository].value); }
  }

  // ----- One match -----

  /** The place where the scan goes on. */
  function Next(s: string, i: nat): (n: nat)
    requires i < |s|
    ensures i < n <= |s|
  {
    match MatchUses(s, i)
    case None => i + 1
    case Some(m) => m.end
  }

  /** The scan that is at `from` comes to `i`. */
  predicate Reaches(s: string, from: nat, i: nat)
    requires from <= |s|
    decreases |s| - from
  {
    from == i || (from < |s| && Reaches(s, Next(s, from), i))
  }

  /** The rewriting that is at `from` has done this when it comes to `i`. */
  ghost predicate DoneBetween(s: string, from: nat, i: nat, latest: LatestTags, updated: string,
                              updates: seq<ActionUpdate>)
    requires from <= |s| && i <= |s|
  {
    && Rewrite(s, from, latest) == updated + Rewrite(s, i, latest)
    && Updates(s, from, latest) == updates + Updates(s, i, latest)
  }

  lemma NothingDone(s: string, i: nat, latest: LatestTags)
    requires i <= |s|
    ensures DoneBetween(s, i, i, latest, "", [])
  {
    assert "" + Rewrite(s, i, latest) == Rewrite(s, i, latest) && [] + Updates(s, i, latest) == Updates(s, i, latest);
  }

  lemma DoneFirst(s: string, from: nat, i: nat, latest: LatestTags, e: Emitted, updated: string,
                  updates: seq<ActionUpdate>)
    requires from < |s| && i <= |s| && e == Emit(s, from, latest) && DoneBetween(s, e.next, i, latest, updated, updates)
    ensures DoneBetween(s, from, i, latest, e.text + updated, e.updates + updates)
  {
    EmitFirst(s, from, latest);
    AppendAssociates(e.text, updated, Rewrite(s, i, latest));
    AppendAssociates(e.updates, updates, Updates(s, i, latest));
  }

  lemma {:induction false} DoneWhenReached(s: string, from: nat, i: nat, latest: LatestTags)
    returns (updated: string, updates: seq<ActionUpdate>)
    requires from <= |s| && i <= |s| && Reaches(s, from, i)
    ensures DoneBetween(s, from, i, latest, updated, updates)
    decreases |s| - from
  {
    updated, updates := "", [];
    if from == i {
      NothingDone(s, i, latest);
    } else {
      var e := Emit(s, from, latest);
      assert e.next == Next(s, from);
      var more, others := DoneWhenReached(s, e.next, i, latest);
      DoneFirst(s, from, i, latest, e, more, others);
      updated, updates := e.text + more, e.updates + others;
    }
  }

  lemma MatchIsWritten(s: string, i: nat, m: Action, repository: string, ref: string, latest: LatestTags, after: string)
    requires i <= m.start <= m.at < m.end <= |s| && after == NewRef(repository, ref, latest)
    requires s[m.start..m.at] == repository && s[m.at + 1..m.end] == ref
    ensures Written(s, i, m, latest) == s[i..m.at + 1] + after
    ensures Reported(s, m, latest) == if after != ref then [ActionUpdate(repository, ref, after)] else []
  {
  }

  lemma MatchIsRewritten(s: string, i: nat, m: Action, repository: string, ref: string, latest: LatestTags,
                         after: string)
    requires i <= |s| && MatchUses(s, i) == Some(m) && i <= m.start && m.end <= |s|
    requires s[m.start..m.at] == repository && s[m.at + 1..m.end] == ref && after == NewRef(repository, ref, latest)
    ensures Rewrite(s, i, latest) == s[i..m.at + 1] + after + Rewrite(s, m.end, latest)
    ensures Updates(s, i, latest) ==
              (if after != ref then [ActionUpdate(repository, ref, after)] else []) + Updates(s, m.end, latest)
  {
    MatchIsWritten(s, i, m, repository, ref, latest, after);
    Match(s, i, m, latest);
  }

  /** Every match that the scan comes to: its repository's latest tag stands in the rewritten text in place of
      its reference, and the update is reported, if and only if both are `v` and a number, and the numbers
      differ.  Otherwise the match stays and is not reported. */
  lemma UseIsUpdatedIff(s: string, i: nat, m: Action, latest: LatestTags)
    returns (updated: string, updates: seq<ActionUpdate>)
    requires i <= |s| && Reaches(s, 0, i) && MatchUses(s, i) == Some(m)
    ensures m.end <= |s|
    ensures var repository, ref := s[m.start..m.at], s[m.at + 1..m.end];
            var outdated := IsOutdatedRef(repository, ref, latest);
            Rewrite(s, 0, latest) ==
              updated +
              (s[i..m.at + 1] + (if outdated then latest[repository].value else ref) + Rewrite(s, m.end, latest)) &&
            Updates(s, 0, latest) ==
              updates + ((if outdated then [ActionUpdate(repository, ref, latest[repository].value)] else []) +
                         Updates(s, m.end, latest))
  {
    var repository, ref := s[m.start..m.at], s[m.at + 1..m.end];
    updated, updates := DoneWhenReached(s, 0, i, latest);
    NewRefMeans(repository, ref, latest);
    MatchIsRewritten(s, i, m, repository, ref, latest, NewRef(repository, ref, latest));
  }

  // ----- A text with one use -----

  /** From `i` to `e` stands `uses:`, blanks, owner, slash, name, at sign and a reference of printable
      characters, which ends with the text or at a blank, a line feed or a hash sign. */
  ghost predicate IsWrittenUse(s: string, i: nat, j: nat, k: nat, l: nat, e: nat) {
    && i + 5 <= j < k && k + 1 < l && l + 1 < e <= |s| && s[i..i + 5] == "uses:"
    && (forall x :: i + 5 <= x < j ==> s[x] == ' ')
    && (forall x :: j <= x < k || k < x < l ==> IsWordChar(s[x]) || s[x] == '.' || s[x] == '-')
    && s[k] == '/' && s[l] == '@'
    && (forall x :: l < x < e ==> '!' <= s[x] <= '~' && s[x] != '#')
    && (e < |s| ==> s[e] == ' ' || s[e] == '\n' || s[e] == '#')
  }

  lemma WrittenIsUse(s: string, i: nat, j: nat, k: nat, l: nat, e: nat)
    requires IsWrittenUse(s, i, j, k, l, e)
    ensures IsHead(s, i, j, k, l) && RefEnd(s, l + 1) == e
    ensures Boundary(s, i) <==> i == 0 || !IsWordChar(s[i - 1])
  {
    assert IsSpace(' ') && IsSpace('\n');
    RefEndIs(s, l + 1, e);
  }

  lemma WrittenIsFound(s: string, i: nat, j: nat, k: nat, l: nat, e: nat)
    requires IsWrittenUse(s, i, j, k, l, e)
    ensures MatchUses(s, i) == if i == 0 || !IsWordChar(s[i - 1]) then Some(Action(j, l, e)) else None
  {
    WrittenIsUse(s, i, j, k, l, e);
    if Boundary(s, i) { HeadDecides(s, i, j, k, l); }
  }

  lemma RepositoryOf(s: string, j: nat, k: nat, l: nat)
    requires j <= k < l <= |s| && s[k] == '/'
    ensures s[j..l] == s[j..k] + "/" + s[k + 1..l]
  {
  }

  lemma UsesHasColon(s: string, i: nat)
    requires i <= |s| && MatchUses(s, i).Some?
    ensures i + 4 < |s| && s[i + 4] == ':'
  {
    UsesChars(s, i);
  }

  /** What rewriting writes and reports from a place on. */
  datatype Output = Output(text: string, updates: seq<ActionUpdate>)

  ghost predicate FollowsAt(s: string, outputs: seq<Output>, x: nat, latest: LatestTags)
    requires x < |s| && |outputs| == |s| + 1
  {
    match MatchUses(s, x)
    case None => outputs[x] == Output([s[x]] + outputs[x + 1].text, outputs[x + 1].updates)
    case Some(m) =>
      var repository, ref := s[m.start..m.at], s[m.at + 1..m.end];
      var after := NewRef(repository, ref, latest);
      outputs[x] == Output(s[x..m.at + 1] + after + outputs[m.end].text,
                           (if after != ref then [ActionUpdate(repository, ref, after)] else []) +
                           outputs[m.end].updates)
  }

  /** The outputs of all places follow from one another. */
  ghost predicate Follow(s: string, outputs: seq<Output>, latest: LatestTags) {
    |outputs| == |s| + 1 && outputs[|s|] == Output("", []) && forall x :: 0 <= x < |s| ==>
    FollowsAt(s, outputs, x, latest)
  }

  lemma OutputAt(s: string, x: nat, latest: LatestTags, outputs: seq<Output>)
    requires x < |s| && |outputs| == |s| + 1
    requires forall y :: 0 <= y <= |s| ==> outputs[y] == Output(Rewrite(s, y, latest), Updates(s, y, latest))
    ensures FollowsAt(s, outputs, x, latest)
  {
    if MatchUses(s, x).Some? {
      var m := MatchUses(s, x).value;
      var repository, ref := s[m.start..m.at], s[m.at + 1..m.end];
      MatchIsRewritten(s, x, m, repository, ref, latest, NewRef(repository, ref, latest));
    } else {
      NoMatch(s, x, latest);
    }
  }

  lemma OutputsOf(s: string, latest: LatestTags) returns (outputs: seq<Output>)
    ensures Follow(s, outputs, latest) && outputs[0] == Output(Rewrite(s, 0, latest), Updates(s, 0, latest))
  {
    outputs := seq(|s| + 1, y requires 0 <= y <= |s| => Output(Rewrite(s, y, latest), Updates(s, y, latest)));
    forall x | 0 <= x < |s| ensures FollowsAt(s, outputs, x, latest) { OutputAt(s, x, latest, outputs); }
  }

  lemma CopyFirst(s: string, i: nat, e: nat, rest: string)
    requires i < e <= |s|
    ensures [s[i]] + (s[i + 1..e] + rest) == s[i..e] + rest
  {
    assert s[i..e] == [s[i]] + s[i + 1..e];
  }

  /** Where nothing matches, the text is copied and nothing is reported. */
  lemma {:induction false} NoMatchIsCopied(s: string, outputs: seq<Output>, i: nat, e: nat, latest: LatestTags)
    requires Follow(s, outputs, latest) && i <= e <= |s| && forall x :: i <= x < e ==> MatchUses(s, x).None?
    ensures outputs[i] == Output(s[i..e] + outputs[e].text, outputs[e].updates)
    decreases e - i
  {
    if i < e {
      assert FollowsAt(s, outputs, i, latest);
      NoMatchIsCopied(s, outputs, i + 1, e, latest);
      CopyFirst(s, i, e, outputs[e].text);
    } else {
      assert s[i..e] + outputs[e].text == outputs[e].text;
    }
  }

  lemma NoColonIsCopied(s: string, outputs: seq<Output>, i: nat, e: nat, latest: LatestTags)
    requires Follow(s, outputs, latest) && i <= e <= |s| && forall x :: i + 4 <= x < e + 4 && x < |s| ==> s[x] != ':'
    ensures outputs[i] == Output(s[i..e] + outputs[e].text, outputs[e].updates)
  {
    forall x | i <= x < e ensures MatchUses(s, x).None? {
      if MatchUses(s, x).Some? { UsesHasColon(s, x); }
    }
    NoMatchIsCopied(s, outputs, i, e, latest);
  }

  lemma RestIsCopied(s: string, outputs: seq<Output>, i: nat, latest: LatestTags)
    requires Follow(s, outputs, latest) && i <= |s| && forall x :: i + 4 <= x < |s| ==> s[x] != ':'
    ensures outputs[i] == Output(s[i..], [])
  {
    NoColonIsCopied(s, outputs, i, |s|, latest);
    assert s[i..|s|] + "" == s[i..];
  }

  lemma JoinUse(s: string, i: nat, l: nat, e: nat, after: string)
    requires i <= l <= e <= |s|
    ensures s[0..i] + (s[i..l] + after + s[e..]) == s[..l] + after + s[e..]
    ensures after == s[l..e] ==> s[..l] + after + s[e..] == s
  {
    assert s[..l] == s[0..i] + s[i..l];
  }

  lemma UnmatchedStays(s: string, outputs: seq<Output>, i: nat, latest: LatestTags)
    requires Follow(s, outputs, latest) && i < |s| && MatchUses(s, i).None?
    requires forall x :: 0 <= x < |s| && x != i + 4 ==> s[x] != ':'
    ensures outputs[0] == Output(s, [])
  {
    NoColonIsCopied(s, outputs, 0, i, latest);
    NoMatchIsCopied(s, outputs, i, i + 1, latest);
    RestIsCopied(s, outputs, i + 1, latest);
    assert s[0..i] + (s[i..i + 1] + s[i + 1..]) == s;
  }

  lemma FollowMatch(s: string, outputs: seq<Output>, i: nat, m: Action, ref: string, after: string,
                    latest: LatestTags)
    requires Follow(s, outputs, latest) && i < |s| && MatchUses(s, i) == Some(m) && m.end <= |s|
    requires ref == s[m.at + 1..m.end] && after == NewRef(s[m.start..m.at], ref, latest)
    requires outputs[m.end] == Output(s[m.end..], [])
    ensures outputs[i] == Output(s[i..m.at + 1] + after + s[m.end..],
                                 if after != ref then [ActionUpdate(s[m.start..m.at], ref, after)] else [])
  {
    assert FollowsAt(s, outputs, i, latest);
  }

  lemma MatchedOnce(s: string, outputs: seq<Output>, i: nat, m: Action, ref: string, after: string,
                    latest: LatestTags)
    requires Follow(s, outputs, latest) && i < |s| && MatchUses(s, i) == Some(m) && m.end <= |s|
    requires ref == s[m.at + 1..m.end] && after == NewRef(s[m.start..m.at], ref, latest)
    requires forall x :: 0 <= x < |s| && x != i + 4 ==> s[x] != ':'
    ensures outputs[0] ==
              if after != ref
              then Output(s[..m.at + 1] + after + s[m.end..], [ActionUpdate(s[m.start..m.at], ref, after)])
              else Output(s, [])
  {
    JoinUse(s, i, m.at + 1, m.end, after);
    NoColonIsCopied(s, outputs, 0, i, latest);
    RestIsCopied(s, outputs, m.end, latest);
    FollowMatch(s, outputs, i, m, ref, after, latest);
  }

  lemma MatchedOnceIff(s: string, outputs: seq<Output>, i: nat, m: Action, repository: string, ref: string,
                       latest: LatestTags)
    requires Follow(s, outputs, latest) && i < |s| && MatchUses(s, i) == Some(m) && m.end <= |s|
    requires repository == s[m.start..m.at] && ref == s[m.at + 1..m.end]
    requires forall x :: 0 <= x < |s| && x != i + 4 ==> s[x] != ':'
    ensures outputs[0] ==
              if IsOutdatedRef(repository, ref, latest)
              then Output(s[..m.at + 1] + latest[repository].value + s[m.end..],
                          [ActionUpdate(repository, ref, latest[repository].value)])
              else Output(s, [])
  {
    NewRefMeans(repository, ref, latest);
    MatchedOnce(s, outputs, i, m, ref, NewRef(repository, ref, latest), latest);
  }

  lemma OneUseOutput(s: string, outputs: seq<Output>, i: nat, j: nat, k: nat, l: nat, e: nat, repository: string,
                     ref: string, latest: LatestTags)
    requires Follow(s, outputs, latest) && IsWrittenUse(s, i, j, k, l, e)
    requires repository == s[j..l] && ref == s[l + 1..e] && forall x :: 0 <= x < |s| && x != i + 4 ==> s[x] != ':'
    ensures outputs[0] ==
              if (i == 0 || !IsWordChar(s[i - 1])) && IsOutdatedRef(repository, ref, latest)
              then Output(s[..l + 1] + latest[repository].value + s[e..],
                          [ActionUpdate(repository, ref, latest[repository].value)])
              else Output(s, [])
  {
    WrittenIsFound(s, i, j, k, l, e);
    if i == 0 || !IsWordChar(s[i - 1]) {
      MatchedOnceIff(s, outputs, i, Action(j, l, e), repository, ref, latest);
    } else {
      UnmatchedStays(s, outputs, i, latest);
    }
  }

  /** In a text with one `uses:` and no other colon, exactly the reference becomes the latest tag, and this is
      reported, if it is outdated and no word character stands before the `uses:`; otherwise the text stays. */
  lemma OneUse(s: string, i: nat, j: nat, k: nat, l: nat, e: nat, latest: LatestTags)
    requires IsWrittenUse(s, i, j, k, l, e) && forall x :: 0 <= x < |s| && x != i + 4 ==> s[x] != ':'
    ensures var repository, ref := s[j..k] + "/" + s[k + 1..l], s[l + 1..e];
            if (i == 0 || !IsWordChar(s[i - 1])) && IsOutdatedRef(repository, ref, latest) then
              Rewrite(s, 0, latest) == s[..l + 1] + latest[repository].value + s[e..] &&
              Updates(s, 0, latest) == [ActionUpdate(repository, ref, latest[repository].value)]
            else Rewrite(s, 0, latest) == s && Updates(s, 0, latest) == []
  {
    var outputs := OutputsOf(s, latest);
    RepositoryOf(s, j, k, l);
    OneUseOutput(s, outputs, i, j, k, l, e, s[j..l], s[l + 1..e], latest);
  }

  // ----- The step a line is in -----

  ghost predicate NamesAction(text: string) {
    exists before, after :: text == before + "uses: docker/setup-compose-action@" + after
  }

  lemma ActionIsNamed(text: string)
    ensures HasUses(text) <==> NamesAction(text)
  {
    UsesHasNoBreak();
    if HasUses(text) {
      var i :| 0 <= i <= |text| && OccursAt(text, USES, i);
      assert text == text[..i] + USES + text[i + 34..];
    }
    if before, after :| text == before + USES + after {
      assert OccursAt(text, USES, |before|);
    }
  }

  /** The line, without its white space in front, starts with a dash and a blank, no further in than `d`. */
  predicate StartsItem(line: string, d: nat) {
    var indent := SpaceEnd(line, 0);
    indent <= d && indent + 1 < |line| && line[indent] == '-' && line[indent + 1] == ' '
  }

  /** Line `k`, with `d` characters of white space in front, names the action, and no later one before line
      `n` names it or starts an item no further in. */
  ghost predicate InItem(lines: seq<string>, k: nat, n: nat, d: nat) {
    && k < n <= |lines| && SpaceEnd(lines[k], 0) == d && NamesAction(lines[k][d..])
    && forall j :: k < j < n ==> !NamesAction(lines[j][SpaceEnd(lines[j], 0)..]) && !StartsItem(lines[j], d)
  }

  lemma ItemIsOpened(lines: seq<string>, k: nat, n: nat, d: nat)
    ensures InItem(lines, k, n, d) <==> Opened(lines, k, n, d)
  {
    if k < n <= |lines| {
      forall j | k <= j < n
        ensures HasUses(lines[j][SpaceEnd(lines[j], 0)..]) <==> NamesAction(lines[j][SpaceEnd(lines[j], 0)..])
      {
        ActionIsNamed(lines[j][SpaceEnd(lines[j], 0)..]);
      }
    }
  }

  /** Some line before line `n` names the action, and its item goes on. */
  ghost predicate IsInItem(lines: seq<string>, n: nat) {
    exists k: nat, d: nat :: InItem(lines, k, n, d)
  }

  lemma PlaceIsItem(lines: seq<string>, n: nat)
    requires n <= |lines|
    ensures PlaceAt(lines, n).Some? <==> IsInItem(lines, n)
  {
    var place := PlaceAt(lines, n);
    if place.Some? {
      PlaceMeans(lines, n, place.value);
      var k: nat :| Opened(lines, k, n, place.value);
      ItemIsOpened(lines, k, n, place.value);
    }
    if k: nat, d: nat :| InItem(lines, k, n, d) {
      ItemIsOpened(lines, k, n, d);
      PlaceMeans(lines, n, d);
    }
  }

  // ----- A line with a version -----

  /** Blanks, `version:`, blanks, a version of printable characters from `b` to `e`, blanks, and then a line
      feed or nothing, or a hash sign and a comment on the line. */
  ghost predicate IsWrittenVersion(line: string, q: nat, b: nat, e: nat, g: nat) {
    && q + 8 <= b < e <= g <= |line| && line[q..q + 8] == "version:"
    && (forall x :: 0 <= x < q || q + 8 <= x < b || e <= x < g ==> line[x] == ' ')
    && (forall x :: b <= x < e ==> '!' <= line[x] <= '~' && line[x] != '#')
    && (g == |line| || (line[g] == '\n' && g + 1 == |line|) ||
        (line[g] == '#' && forall x :: g < x < |line| - 1 ==> line[x] != '\n'))
  }

  lemma {:induction false} CommentOnLine(line: string, g: nat)
    requires g <= |line| && forall x :: g <= x < |line| - 1 ==> line[x] != '\n'
    ensures CommentEnds(line, g)
  {
  }

  lemma WrittenIsVersionLine(line: string, q: nat, b: nat, e: nat, g: nat)
    requires IsWrittenVersion(line, q, b, e, g)
    ensures IsVersionLine(line, q, b, e, if g < |line| && line[g] == '\n' then g + 1 else g)
  {
    assert IsSpace(' ') && IsSpace('\n');
    if g < |line| && line[g] == '#' { CommentOnLine(line, g); }
  }

  lemma WrittenVersionIs(line: string, latest: string, q: nat, b: nat, e: nat, g: nat)
    requires IsWrittenVersion(line, q, b, e, g)
    ensures VersionOf(line) == Some(line[b..e]) && WithVersion(line, latest) == line[..b] + latest + line[e..]
  {
    WrittenIsVersionLine(line, q, b, e, g);
    VersionLineIsMatched(line, q, b, e, if g < |line| && line[g] == '\n' then g + 1 else g);
  }

  lemma SliceInside(line: string, b: nat, e: nat, latest: string)
    requires b <= e <= |line| && line[b..e] == latest
    ensures line[..b] + latest + line[e..] == line
  {
  }

  /** A written version is collected, and replaced by the latest one, exactly when its line is in an item that
      names the action; everything else on the line stays, and so does the line elsewhere. */
  lemma VersionIsUpdatedIff(lines: seq<string>, n: nat, latest: string, q: nat, b: nat, e: nat, g: nat)
    requires n < |lines| && IsWrittenVersion(lines[n], q, b, e, g)
    ensures RefAt(lines, n) == if IsInItem(lines, n + 1) then Some(lines[n][b..e]) else None
    ensures NewLine(lines, latest, n) ==
              if IsInItem(lines, n + 1) then lines[n][..b] + latest + lines[n][e..] else lines[n]
    ensures IsOutdated(lines, latest, n) <==> IsInItem(lines, n + 1) && lines[n][b..e] != latest
  {
    var line := lines[n];
    PlaceIsItem(lines, n + 1);
    WrittenVersionIs(line, latest, q, b, e, g);
    if line[b..e] == latest { SliceInside(line, b, e, latest); }
  }
}
