/**
 Which listed tag the updater moves to: the best tag of the same variant, else the best tag
 that pins the current floating tag.
 */
module ContainerTagChoice {
  import opened Prelude
  import opened Text
  import opened Versions
  import opened ContainerTags

  const PYTHON_REPOSITORIES := {"python", "library/python", "docker.io/library/python"}

  /** How many leading components of the version a candidate has to keep. */
  function RequiredComponents(repository: string, current: string, version: seq<nat>): seq<nat> {
    if (repository in PYTHON_REPOSITORIES || "python" <= current) && |version| >= 2 then version[..2]
    else if version == [] then []
    else version[..1]
  }

  predicate SameVariant(repository: string, current: string, tag: string) {
    match (ParseTag(current), ParseTag(tag))
    case (Some(v), Some(w)) =>
      w.prefix == v.prefix && w.suffix == v.suffix && RequiredComponents(repository, current, v.version) <= w.version
    case _ => false
  }

  predicate Pins(current: string, tag: string) {
    |tag| >= |current| + 1 && tag[|tag| - |current| - 1..] == "-" + current
  }

  function VariantOf(repository: string, current: string): string -> bool {
    tag => SameVariant(repository, current, tag)
  }

  function PinsOf(current: string): string -> bool {
    tag => Pins(current, tag)
  }

  function BestSameVariant(repository: string, current: string, tags: seq<string>): Option<string> {
    Best(Filter(tags, VariantOf(repository, current)))
  }

  function BestPinned(current: string, tags: seq<string>): Option<string> {
    Best(Filter(tags, PinsOf(current)))
  }

  /** The tag to move to, or nothing when the current one stays. */
  function Choose(repository: string, current: string, tags: seq<string>): Option<string> {
    var same := BestSameVariant(repository, current, tags);
    if same.Some? && same.value != current then same
    else
      var pinned := BestPinned(current, tags);
      if pinned.Some? && pinned.value != current then pinned else None
  }

  function LatestTag(repository: string, current: Option<string>, tags: seq<string>): Option<string> {
    if tags == [] then None
    else if current.None? || current.value == "latest" then Best(tags)
    else Choose(repository, current.value, tags)
  }

  // ----- The same variant -----

  lemma PythonInPrefix(tag: string, p: nat)
    requires p < |tag| && (tag[p] == 'v' || IsDigit(tag[p]))
    ensures "python" <= tag <==> "python" <= tag[..p]
  {
  }

  lemma StartsWithPython(tag: string)
    requires ParseTag(tag).Some?
    ensures "python" <= tag <==> "python" <= ParseTag(tag).value.prefix
  {
    var p, q, parts := ParseMatches(tag);
    SpanIsMatch(tag, p, q, parts);
    PythonInPrefix(tag, p);
  }

  /** Whatever is of the variant of a tag of my variant is of my variant: the class only narrows,
      even when the required components grow from one to two. */
  lemma VariantNarrows(repository: string, current: string, tag: string, other: string)
    requires SameVariant(repository, current, tag) && SameVariant(repository, tag, other)
    ensures SameVariant(repository, current, other)
  {
    StartsWithPython(current);
    StartsWithPython(tag);
  }

  lemma VariantOfItself(repository: string, tag: string)
    ensures SameVariant(repository, tag, tag) <==> ParseTag(tag).Some?
  {
  }

  /** The same-variant choice is idempotent: from the tag it chose it chooses that tag again. */
  lemma SameVariantIsIdempotent(repository: string, current: string, tags: seq<string>)
    requires BestSameVariant(repository, current, tags).Some?
    ensures var best := BestSameVariant(repository, current, tags).value;
            best in tags && SameVariant(repository, current, best) &&
            BestSameVariant(repository, best, tags) == Some(best)
  {
    var wide := VariantOf(repository, current);
    var best := BestSameVariant(repository, current, tags).value;
    BestHolds(tags, wide);
    var k :| FirstGreatestAt(tags, wide, k) && tags[k] == best;
    StaysBest(repository, current, tags, k);
  }

  lemma StaysBest(repository: string, current: string, tags: seq<string>, k: int)
    requires FirstGreatestAt(tags, VariantOf(repository, current), k)
    ensures BestSameVariant(repository, tags[k], tags) == Some(tags[k])
  {
    var wide, narrow := VariantOf(repository, current), VariantOf(repository, tags[k]);
    RankedIffParsed(tags[k]);
    VariantOfItself(repository, tags[k]);
    forall j | 0 <= j < |tags| && narrow(tags[j]) ensures wide(tags[j]) {
      VariantNarrows(repository, current, tags[k], tags[j]);
    }
    StaysGreatest(tags, wide, narrow, k);
    FirstGreatestIsBest(tags, narrow, k);
  }

  // ----- Rank -----

  /** Some listed tag that the rule admits ranks at least as high as the current one. */
  ghost predicate HasAsHigh(tags: seq<string>, keep: string -> bool, current: string)
    requires RankOf(current).Some?
  {
    exists k :: 0 <= k < |tags| && Ranks(tags[k], keep) && !Less(RankOf(tags[k]).value, RankOf(current).value)
  }

  lemma BestKeepsRank(tags: seq<string>, keep: string -> bool, current: string)
    requires Best(Filter(tags, keep)).Some? && RankOf(current).Some?
    ensures !Less(RankOf(Best(Filter(tags, keep)).value).value, RankOf(current).value) <==>
            HasAsHigh(tags, keep, current)
  {
    var best := Best(Filter(tags, keep)).value;
    BestIsFirstGreatest(tags, keep);
    var b :| FirstGreatestAt(tags, keep, b) && tags[b] == best;
    forall k | 0 <= k < |tags| && Ranks(tags[k], keep) && !Less(RankOf(tags[k]).value, RankOf(current).value)
      ensures !Less(RankOf(best).value, RankOf(current).value)
    {
      RanksTotallyOrdered(RankOf(best).value, RankOf(current).value, RankOf(tags[k]).value);
      RanksTotallyOrdered(RankOf(tags[k]).value, RankOf(best).value, RankOf(current).value);
    }
  }

  /** The rule by which the updater moves. */
  function RuleOf(repository: string, current: string, tags: seq<string>): string -> bool {
    if CanMoveInVariant(repository, current, tags) then VariantOf(repository, current) else PinsOf(current)
  }

  /** A move does not lower the rank if and only if some listed tag of the rule that fires ranks at
      least as high as the current one. */
  lemma MoveKeepsRankIff(repository: string, current: string, tags: seq<string>)
    requires Choose(repository, current, tags).Some? && RankOf(current).Some?
    ensures !Less(RankOf(Choose(repository, current, tags).value).value, RankOf(current).value) <==>
            HasAsHigh(tags, RuleOf(repository, current, tags), current)
  {
    BestKeepsRank(tags, RuleOf(repository, current, tags), current);
  }

  lemma ListedIsAsHigh(tags: seq<string>, keep: string -> bool, current: string)
    requires current in tags && Ranks(current, keep)
    ensures HasAsHigh(tags, keep, current)
  {
    var k :| 0 <= k < |tags| && tags[k] == current;
    RanksTotallyOrdered(RankOf(current).value, RankOf(current).value, RankOf(current).value);
  }

  /** In particular the same-variant choice never lowers the rank of a listed tag, whether it moves or not. */
  lemma SameVariantKeepsRank(repository: string, current: string, tags: seq<string>)
    requires BestSameVariant(repository, current, tags).Some?
    ensures RankOf(current).Some?
    ensures !Less(RankOf(BestSameVariant(repository, current, tags).value).value, RankOf(current).value) <==>
            HasAsHigh(tags, VariantOf(repository, current), current)
    ensures current in tags ==>
              !Less(RankOf(BestSameVariant(repository, current, tags).value).value, RankOf(current).value)
  {
    SameVariantIsIdempotent(repository, current, tags);
    RankedIffParsed(current);
    BestKeepsRank(tags, VariantOf(repository, current), current);
    if current in tags { ListedIsAsHigh(tags, VariantOf(repository, current), current); }
  }

  /** What is listed for a pinned move: the current tag, and a version joined to it by a dash. */
  function PinnedTo(version: string, current: string): string {
    version + ("-" + current)
  }

  lemma PinnedSpans(version: string, parts: seq<string>, current: string)
    requires Spells(version, 0, |version|, parts)
    ensures Spans(PinnedTo(version, current), 0, |version|, parts)
    ensures version != "" && PinnedTo(version, current)[0] != 'R'
  {
    var tag := PinnedTo(version, current);
    SpelledCharacters(version, 0, |version|, parts);
    assert forall k :: 0 <= k < |version| ==> tag[k] == version[k];
    SpellsElsewhere(version, 0, |version|, tag, 0, parts);
  }

  lemma PinnedSuffix(version: string, current: string)
    requires OneLine(current, |current|) && OneLine(version, |version|)
    ensures PinnedTo(version, current)[..0] == "" && PinnedTo(version, current)[0..|version|] == version
    ensures SuffixAt(PinnedTo(version, current), |version|) == "-" + current
  {
    var tag := PinnedTo(version, current);
    forall i | |version| < i < |tag| ensures tag[i] == current[i - |version| - 1] {}
    SuffixOfLine(tag, |version|);
    assert tag[|version|..] == "-" + current;
  }

  lemma PinnedParses(version: string, parts: seq<string>, current: string)
    requires Spells(version, 0, |version|, parts) && OneLine(current, |current|)
    ensures ParseTag(PinnedTo(version, current)) == Some(TagVersion("", version, Numbers(parts), "-" + current))
    ensures !HasReleaseStamp(PinnedTo(version, current))
  {
    SpelledCharacters(version, 0, |version|, parts);
    PinnedSpans(version, parts, current);
    PinnedSuffix(version, current);
    var tag := PinnedTo(version, current);
    ParseIsFirstMatch(tag, 0, |version|, parts);
    assert |tag| >= 8 ==> tag[..8][0] == tag[0];
  }

  lemma PinnedIsNoVariant(repository: string, version: string, parts: seq<string>, current: string)
    requires Spells(version, 0, |version|, parts) && OneLine(current, |current|)
    ensures !SameVariant(repository, current, PinnedTo(version, current))
    ensures Pins(current, PinnedTo(version, current)) && !Pins(current, current)
  {
    PinnedParses(version, parts, current);
    assert PinnedTo(version, current)[|version|..] == "-" + current;
    WeightIsBounded(current);
  }

  lemma OnlyKept(tags: seq<string>, keep: string -> bool, k: nat)
    requires k < |tags| && Ranks(tags[k], keep) && forall j :: 0 <= j < |tags| && j != k ==> !keep(tags[j])
    ensures Best(Filter(tags, keep)) == Some(tags[k])
  {
    RanksTotallyOrdered(RankOf(tags[k]).value, RankOf(tags[k]).value, RankOf(tags[k]).value);
    FirstGreatestIsBest(tags, keep, k);
  }

  lemma RanksInItsVariant(repository: string, current: string)
    requires RankOf(current).Some?
    ensures Ranks(current, VariantOf(repository, current))
  {
    RankedIffParsed(current);
    VariantOfItself(repository, current);
  }

  lemma StaysInVariant(repository: string, tags: seq<string>, current: string)
    requires |tags| == 2 && tags[0] == current && RankOf(current).Some? && !SameVariant(repository, current, tags[1])
    ensures BestSameVariant(repository, current, tags) == Some(current)
  {
    var keep := VariantOf(repository, current);
    RanksInItsVariant(repository, current);
    assert !keep(tags[1]);
    OnlyKept(tags, keep, 0);
  }

  /** With only these two listed, the current tag is the best of its variant, and the other one pins it. */
  lemma MovesToPinned(repository: string, tags: seq<string>, current: string)
    requires |tags| == 2 && tags[0] == current && RankOf(current).Some? && RankOf(tags[1]).Some?
    requires !SameVariant(repository, current, tags[1]) && Pins(current, tags[1]) && !Pins(current, current)
    ensures Choose(repository, current, tags) == Some(tags[1])
  {
    StaysInVariant(repository, tags, current);
    OnlyKept(tags, PinsOf(current), 1);
  }

  /** A listed tag can be replaced by one of lower rank: when a listed tag pins it, the updater moves
      there, however low the version in front of the dash is.  So from `9` to `1-9`, from `pg16` to
      `0.8.0-pg16`. */
  lemma PinnedTagCanGoDown(repository: string, version: string, parts: seq<string>, current: string)
    requires Spells(version, 0, |version|, parts) && OneLine(current, |current|)
    requires RankOf(current).Some? && Build("-" + current).None?
    ensures var tag := PinnedTo(version, current);
            Choose(repository, current, [current, tag]) == Some(tag) && RankOf(tag) == Some(Rank(1, Numbers(parts), 2))
    ensures RankOf(current).value.kind == 2 || KeyLess(Numbers(parts), RankOf(current).value.key) ==>
              Less(RankOf(PinnedTo(version, current)).value, RankOf(current).value)
  {
    PinnedParses(version, parts, current);
    PinnedIsNoVariant(repository, version, parts, current);
    MovesToPinned(repository, [current, PinnedTo(version, current)], current);
  }

  lemma BareTag(tag: string, parts: seq<string>)
    requires Spells(tag, 0, |tag|, parts)
    ensures ParseTag(tag) == Some(TagVersion("", tag, Numbers(parts), ""))
    ensures RankOf(tag) == Some(Rank(1, Numbers(parts), 3))
    ensures !("python" <= tag)
  {
    BareVersion(tag, parts);
    BareRank(tag, Numbers(parts));
    SpelledCharacters(tag, 0, |tag|, parts);
  }

  lemma MajorOfMinor(major: string, minor: string)
    requires IsComponent(major) && IsComponent(minor)
    ensures Spells(major, 0, |major|, [major])
    ensures var current := major + "." + minor; Spells(current, 0, |current|, [major, minor])
  {
    assert [major, minor][1..] == [minor];
  }

  lemma BestIsListed(tags: seq<string>, keep: string -> bool)
    requires Best(Filter(tags, keep)).Some?
    ensures Best(Filter(tags, keep)).value in tags && RankOf(Best(Filter(tags, keep)).value).Some?
  {
    BestHolds(tags, keep);
    var k :| FirstGreatestAt(tags, keep, k) && tags[k] == Best(Filter(tags, keep)).value;
  }

  lemma BestOfAllIsListed(tags: seq<string>)
    requires Best(tags).Some?
    ensures Best(tags).value in tags && RankOf(Best(tags).value).Some?
  {
    FilterAll(tags, EVERY_TAG);
    BestIsListed(tags, EVERY_TAG);
  }

  lemma ChosenIsListed(repository: string, current: string, tags: seq<string>)
    requires Choose(repository, current, tags).Some?
    ensures var next := Choose(repository, current, tags).value; next in tags && RankOf(next).Some? && next != current
  {
    var same := BestSameVariant(repository, current, tags);
    if same.Some? && same.value != current {
      BestIsListed(tags, VariantOf(repository, current));
    } else {
      BestIsListed(tags, PinsOf(current));
    }
  }

  /** Whatever the updater moves to is listed and ranked, and is another tag unless the current one
      is missing or floats as `latest`. */
  lemma LatestTagIsListed(repository: string, current: Option<string>, tags: seq<string>)
    requires LatestTag(repository, current, tags).Some?
    ensures var latest := LatestTag(repository, current, tags).value;
            latest in tags && RankOf(latest).Some? &&
            (current.Some? && current.value != "latest" ==> latest != current.value)
  {
    if current.None? || current.value == "latest" {
      BestOfAllIsListed(tags);
    } else {
      ChosenIsListed(repository, current.value, tags);
    }
  }

  /** An unlisted current tag can be downgraded: from `1.1` to `1`, say. */
  lemma UnlistedTagCanGoDown(repository: string, major: string, minor: string)
    requires IsComponent(major) && IsComponent(minor) && repository !in PYTHON_REPOSITORIES
    ensures var current := major + "." + minor;
            Choose(repository, current, [major]) == Some(major) &&
            RankOf(major).Some? && RankOf(current).Some? &&
            Less(RankOf(major).value, RankOf(current).value)
  {
    var current := major + "." + minor;
    MajorOfMinor(major, minor);
    BareTag(major, [major]);
    BareTag(current, [major, minor]);
    NumbersOfTwo(major, minor);
    OnlyCandidate(repository, current, major);
  }

  lemma NumbersOfTwo(major: string, minor: string)
    requires IsComponent(major) && IsComponent(minor)
    ensures Numbers([major]) == [Number(major)] && Numbers([major, minor]) == [Number(major), Number(minor)]
    ensures KeyLess(Numbers([major]), Numbers([major, minor]))
  {
  }

  lemma OnlyCandidate(repository: string, current: string, tag: string)
    requires SameVariant(repository, current, tag) && RankOf(tag).Some?
    ensures BestSameVariant(repository, current, [tag]) == Some(tag)
  {
    RanksTotallyOrdered(RankOf(tag).value, RankOf(tag).value, RankOf(tag).value);
    FirstGreatestIsBest([tag], VariantOf(repository, current), 0);
  }

  lemma BareVersion(tag: string, parts: seq<string>)
    requires Spells(tag, 0, |tag|, parts)
    ensures ParseTag(tag) == Some(TagVersion("", tag, Numbers(parts), ""))
    ensures tag != "" && tag[0] != 'R'
  {
    SpelledCharacters(tag, 0, |tag|, parts);
    assert tag[..0] == "" && tag[0..|tag|] == tag;
    assert Spans(tag, 0, |tag|, parts);
    ParseIsFirstMatch(tag, 0, |tag|, parts);
  }

  lemma BareRank(tag: string, key: seq<nat>)
    requires ParseTag(tag) == Some(TagVersion("", tag, key, "")) && tag != "" && tag[0] != 'R'
    ensures RankOf(tag) == Some(Rank(1, key, 3))
  {
  }

  // ----- Reaching a fixpoint -----

  /** Zero for a tag without a version, otherwise one more than prefix and suffix together. */
  function Weight(tag: string): nat {
    match ParseTag(tag)
    case None => 0
    case Some(v) => 1 + |v.prefix| + |v.suffix|
  }

  lemma SuffixOfLine(tag: string, q: nat)
    requires q <= |tag| && OneLine(tag, |tag|) && (AtEnd(tag, q) || StartsSuffix(tag[q]))
    ensures SuffixAt(tag, q) == tag[q..]
  {
  }

  lemma WeightOfLine(tag: string, p: nat, q: nat, parts: seq<string>)
    requires FirstSpan(tag, p, q, parts) && OneLine(tag, |tag|)
    ensures Weight(tag) == 1 + p + |tag| - q
  {
    ParseIsFirstMatch(tag, p, q, parts);
    SuffixOfLine(tag, q);
  }

  lemma WeightIsBounded(tag: string)
    ensures Weight(tag) <= 1 + |tag|
  {
  }

  /** `Pins`, character by character. */
  ghost predicate EndsWith(tag: string, current: string) {
    |tag| > |current| && tag[|tag| - |current| - 1] == '-' &&
    forall i :: |tag| - |current| <= i < |tag| ==> tag[i] == current[i - |tag| + |current|]
  }

  lemma PinsEndsWith(current: string, tag: string)
    requires Pins(current, tag)
    ensures EndsWith(tag, current)
  {
  }

  lemma LineOfPinned(current: string, tag: string, n: nat)
    requires EndsWith(tag, current) && n <= |current| && OneLine(tag, n + |tag| - |current|)
    ensures OneLine(current, n)
  {
    forall i | 0 <= i < n ensures current[i] != '\n' {
      assert tag[|tag| - |current| + i] == current[i];
    }
  }

  /** Inside a tag that pins `current`, a match right of the joining dash is a match of `current`. */
  lemma SpanOfPinned(current: string, tag: string, p: nat, q: nat, parts: seq<string>)
    requires EndsWith(tag, current) && Spans(tag, p, q, parts) && p >= |tag| - |current|
    ensures Spans(current, p - |tag| + |current|, q - |tag| + |current|, parts)
  {
    LineOfPinned(current, tag, p - |tag| + |current|);
    SpellsElsewhere(tag, DigitsStart(tag, p), q, current, |current| - |tag|, parts);
  }

  lemma SpellsInPinned(current: string, tag: string, d: nat, q: nat, parts: seq<string>)
    requires EndsWith(tag, current) && Spells(current, d, q, parts)
    ensures Spells(tag, d + |tag| - |current|, q + |tag| - |current|, parts)
  {
    SpelledCharacters(current, d, q, parts);
    var shift := |tag| - |current|;
    forall k | d <= k < q ensures tag[k + shift] == current[k] {
    }
    SpellsElsewhere(current, d, q, tag, shift, parts);
  }

  lemma SpanInPinned(current: string, tag: string, p: nat, q: nat, parts: seq<string>)
    requires EndsWith(tag, current) && OneLine(tag, |tag|) && Spans(current, p, q, parts)
    ensures Spans(tag, p + |tag| - |current|, q + |tag| - |current|, parts)
  {
    var shift, d := |tag| - |current|, DigitsStart(current, p);
    SpelledCharacters(current, d, q, parts);
    SpellsInPinned(current, tag, d, q, parts);
    assert tag[p + shift] == current[p];
    assert DigitsStart(tag, p + shift) == d + shift;
    assert q < |current| ==> tag[q + shift] == current[q];
  }

  lemma MatchLeftOfDash(current: string, tag: string, p: nat, q: nat, parts: seq<string>)
    requires EndsWith(tag, current) && Spans(tag, p, q, parts) && p < |tag| - |current|
    ensures q < |tag| - |current|
  {
    SpelledCharacters(tag, DigitsStart(tag, p), q, parts);
  }

  lemma FirstInPinned(current: string, tag: string, p: nat, q: nat, parts: seq<string>,
                      p': nat, q': nat, parts': seq<string>)
    requires EndsWith(tag, current) && OneLine(tag, |tag|)
    requires FirstSpan(tag, p, q, parts) && Spans(current, p', q', parts')
    ensures p <= p' + |tag| - |current|
  {
    SpanInPinned(current, tag, p', q', parts');
  }

  lemma MatchRightOfDash(current: string, tag: string, p: nat, q: nat, parts: seq<string>)
    requires EndsWith(tag, current) && OneLine(tag, |tag|) && FirstSpan(tag, p, q, parts) && p >= |tag| - |current|
    ensures FirstSpan(current, p - |tag| + |current|, q - |tag| + |current|, parts)
  {
    SpanOfPinned(current, tag, p, q, parts);
    forall p', q', parts' | Spans(current, p', q', parts') ensures p - |tag| + |current| <= p' {
      FirstInPinned(current, tag, p, q, parts, p', q', parts');
    }
  }

  lemma LongerWeighsMore(current: string, tag: string, p: nat, q: nat, parts: seq<string>)
    requires EndsWith(tag, current) && OneLine(tag, |tag|) && FirstSpan(tag, p, q, parts)
    ensures 1 + p + |tag| - q > Weight(current)
  {
    if p < |tag| - |current| {
      MatchLeftOfDash(current, tag, p, q, parts);
      WeightIsBounded(current);
    } else {
      MatchRightOfDash(current, tag, p, q, parts);
      LineOfPinned(current, tag, |current|);
      WeightOfLine(current, p - |tag| + |current|, q - |tag| + |current|, parts);
    }
  }

  /** A tag that pins the current one weighs more. */
  lemma PinnedWeighsMore(current: string, tag: string)
    requires Pins(current, tag) && OneLine(tag, |tag|) && ParseTag(tag).Some?
    ensures Weight(tag) > Weight(current)
  {
    var p, q, parts := ParseMatches(tag);
    WeightOfLine(tag, p, q, parts);
    PinsEndsWith(current, tag);
    LongerWeighsMore(current, tag, p, q, parts);
  }

  function Longest(tags: seq<string>): nat {
    if tags == [] then 0
    else
      var rest := Longest(tags[..|tags| - 1]);
      if |tags[|tags| - 1]| > rest then |tags[|tags| - 1]| else rest
  }

  lemma {:induction false} LongestBounds(tags: seq<string>, tag: string)
    requires tag in tags
    ensures |tag| <= Longest(tags)
  {
    if tag != tags[|tags| - 1] {
      LongestBounds(tags[..|tags| - 1], tag);
    }
  }

  /** How much a tag can still gain in weight. */
  function Room(current: string, tags: seq<string>): nat {
    if Weight(current) <= 1 + Longest(tags) then 2 + Longest(tags) - Weight(current) else 0
  }

  predicate CanMoveInVariant(repository: string, current: string, tags: seq<string>) {
    var same := BestSameVariant(repository, current, tags);
    same.Some? && same.value != current
  }

  /** Every ranked listed tag weighs more than the listed tags it pins, and than the current one if it
      pins that. */
  ghost predicate PinsWeighMore(current: string, tags: seq<string>) {
    forall pinned, tag ::
      (pinned in tags || pinned == current) && tag in tags && Pins(pinned, tag) && RankOf(tag).Some? ==>
        Weight(tag) > Weight(pinned)
  }

  /** So it is without line breaks in those that pin; other tags may hold them. */
  lemma OneLineWeighsMore(current: string, tags: seq<string>)
    requires forall pinned, tag ::
               (pinned in tags || pinned == current) && tag in tags && Pins(pinned, tag) && RankOf(tag).Some? ==>
                 OneLine(tag, |tag|)
    ensures PinsWeighMore(current, tags)
  {
    forall pinned, tag |
      (pinned in tags || pinned == current) && tag in tags && Pins(pinned, tag) && RankOf(tag).Some?
      ensures Weight(tag) > Weight(pinned)
    {
      RankedIffParsed(tag);
      PinnedWeighsMore(pinned, tag);
    }
  }

  /** A same-variant move keeps the weight and cannot be repeated; a pinned-floating move
      strictly increases the weight, which the longest tag bounds. */
  lemma MovesMakeProgress(repository: string, current: string, tags: seq<string>)
    requires Choose(repository, current, tags).Some? && PinsWeighMore(current, tags)
    ensures var next := Choose(repository, current, tags).value;
            next in tags && next != current &&
            if CanMoveInVariant(repository, current, tags) then
              Weight(next) == Weight(current) && !CanMoveInVariant(repository, next, tags)
            else Weight(next) > Weight(current)
    ensures Weight(Choose(repository, current, tags).value) <= 1 + Longest(tags)
  {
    var next := Choose(repository, current, tags).value;
    if CanMoveInVariant(repository, current, tags) {
      SameVariantIsIdempotent(repository, current, tags);
    } else {
      BestHolds(tags, PinsOf(current));
    }
    WeightIsBounded(next);
    LongestBounds(tags, next);
  }

  /** Moving again and again over a fixed list of tags, from any starting tag, comes to an end,
      at a tag from which the updater does not move. */
  function Settle(repository: string, current: string, tags: seq<string>): (last: string)
    requires PinsWeighMore(current, tags)
    ensures Choose(repository, last, tags).None?
    ensures last == current || last in tags
    decreases Room(current, tags), CanMoveInVariant(repository, current, tags)
  {
    var next := Choose(repository, current, tags);
    if next.None? then current
    else
      MovesMakeProgress(repository, current, tags);
      Settle(repository, next.value, tags)
  }
}
