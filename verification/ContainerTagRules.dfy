/**
 The rules of the tag choice with their characters and numbers written out: how a written tag is read
 and ranked, how ranks compare, and which tags are of the same variant.
 */
module ContainerTagRules {
  import opened Prelude
  import opened Text
  import opened Versions
  import opened Decimals
  import opened ContainerTags
  import opened ContainerTagChoice

  // ----- Ranks -----

  /** The keys agree up to `i`; there `a` ends or is below. */
  ghost predicate BelowAt(a: seq<nat>, b: seq<nat>, i: nat) {
    i <= |a| && i < |b| && a[..i] == b[..i] && (i == |a| || a[i] < b[i])
  }

  lemma {:induction false} BelowIsLess(a: seq<nat>, b: seq<nat>, i: nat)
    requires BelowAt(a, b, i)
    ensures KeyLess(a, b)
  {
    if i > 0 {
      assert a[0] == a[..i][0] == b[..i][0] == b[0];
      assert a[1..][..i - 1] == a[..i][1..] && b[1..][..i - 1] == b[..i][1..];
      BelowIsLess(a[1..], b[1..], i - 1);
    }
  }

  lemma {:induction false} LessIsBelow(a: seq<nat>, b: seq<nat>) returns (i: nat)
    requires KeyLess(a, b)
    ensures BelowAt(a, b, i)
  {
    i := 0;
    if a != [] && a[0] == b[0] {
      var j := LessIsBelow(a[1..], b[1..]);
      i := j + 1;
      assert a[..i] == [a[0]] + a[1..][..j] && b[..i] == [b[0]] + b[1..][..j];
    }
  }

  /** A dated tag ranks above every other.  Otherwise the first number that differs decides, a missing one
      being below any, and only then the preference. */
  lemma RanksCompare(x: Rank, y: Rank)
    ensures Less(x, y) <==>
            || x.kind < y.kind
            || (x.kind == y.kind && exists i: nat :: BelowAt(x.key, y.key, i))
            || (x.kind == y.kind && x.key == y.key && x.preference < y.preference)
  {
    if KeyLess(x.key, y.key) { var i := LessIsBelow(x.key, y.key); }
    if i: nat :| BelowAt(x.key, y.key, i) { BelowIsLess(x.key, y.key, i); }
  }

  // ----- Written tags -----

  /** No digit and no line break, and no `v` at the end, which would be read as part of the version. */
  predicate IsPrefix(prefix: string) {
    (forall k :: 0 <= k < |prefix| ==> !('0' <= prefix[k] <= '9') && prefix[k] != '\n') &&
    (prefix != "" ==> prefix[|prefix| - 1] != 'v')
  }

  /** Nothing, or a dash or an underscore and the rest of one line. */
  predicate IsSuffix(suffix: string) {
    (suffix != "" ==> suffix[0] == '-' || suffix[0] == '_') && forall k :: 0 <= k < |suffix| ==> suffix[k] != '\n'
  }

  function Version(v: bool, parts: seq<string>): string
    requires parts != []
  {
    (if v then "v" else "") + Dotted(parts)
  }

  lemma SpanFrom(tag: string, p: nat, d: nat, q: nat, parts: seq<string>)
    requires AreNumbers(parts) && p <= d <= q <= |tag| && tag[d..q] == Dotted(parts)
    requires (d == p || (d == p + 1 && tag[p] == 'v')) && OneLine(tag, p) && (q < |tag| ==> StartsSuffix(tag[q]))
    ensures Spans(tag, p, q, parts)
  {
    DottedInText(tag, d, q, parts);
    assert DigitsStart(tag, p) == d;
  }

  lemma StartOf(prefix: string, v: bool, before: string, s: string, suffix: string, tag: string)
    requires IsPrefix(prefix) && IsSuffix(suffix) && before == prefix + (if v then "v" else "")
    requires tag == before + s + suffix
    ensures |tag| == |before| + |s| + |suffix| && OneLine(tag, |prefix|) && (v ==> tag[|prefix|] == 'v')
    ensures suffix != "" ==> StartsSuffix(tag[|before| + |s|])
  {
  }

  lemma PiecesOf(prefix: string, v: bool, s: string, suffix: string, tag: string) returns (d: nat, q: nat)
    requires IsPrefix(prefix) && IsSuffix(suffix) && tag == prefix + ((if v then "v" else "") + s) + suffix
    ensures |prefix| <= d <= q <= |tag| && tag[d..q] == s && q == |prefix| + |(if v then "v" else "") + s|
    ensures (d == |prefix| || (d == |prefix| + 1 && tag[|prefix|] == 'v')) && OneLine(tag, |prefix|)
    ensures q < |tag| ==> StartsSuffix(tag[q])
  {
    var before := prefix + if v then "v" else "";
    assert tag == before + s + suffix;
    StartOf(prefix, v, before, s, suffix, tag);
    PartsOf(before, s, suffix, tag);
    d, q := |before|, |before| + |s|;
  }

  lemma WrittenSpans(prefix: string, v: bool, parts: seq<string>, suffix: string, tag: string)
    requires IsPrefix(prefix) && AreNumbers(parts) && IsSuffix(suffix) && tag == prefix + Version(v, parts) + suffix
    ensures Spans(tag, |prefix|, |prefix| + |Version(v, parts)|, parts)
  {
    var d, q := PiecesOf(prefix, v, Dotted(parts), suffix, tag);
    SpanFrom(tag, |prefix|, d, q, parts);
  }

  lemma NoEarlierSpan(prefix: string, version: string, suffix: string, tag: string, p: nat, q: nat,
                      parts: seq<string>)
    requires IsPrefix(prefix) && tag == prefix + version + suffix && Spans(tag, p, q, parts)
    ensures |prefix| <= p
  {
    SpelledCharacters(tag, DigitsStart(tag, p), q, parts);
    PartsOf(prefix, version, suffix, tag);
    assert forall k :: 0 <= k < |prefix| ==> tag[k] == tag[..|prefix|][k];
  }

  /** A tag written as prefix, optional `v`, numbers and suffix is read as exactly these. */
  lemma WrittenTagIsRead(prefix: string, v: bool, parts: seq<string>, suffix: string, tag: string)
    requires IsPrefix(prefix) && AreNumbers(parts) && IsSuffix(suffix) && tag == prefix + Version(v, parts) + suffix
    ensures ParseTag(tag) == Some(TagVersion(prefix, Version(v, parts), Numbers(parts), suffix))
  {
    var p, q := |prefix|, |prefix| + |Version(v, parts)|;
    WrittenSpans(prefix, v, parts, suffix, tag);
    forall p': nat, q': nat, parts' | Spans(tag, p', q', parts') ensures p <= p' {
      NoEarlierSpan(prefix, Version(v, parts), suffix, tag, p', q', parts');
    }
    ParseIsFirstMatch(tag, p, q, parts);
    PartsOf(prefix, Version(v, parts), suffix, tag);
    SuffixWritten(tag, q, suffix);
  }

  lemma SuffixWritten(tag: string, q: nat, suffix: string)
    requires q <= |tag| && tag[q..] == suffix && IsSuffix(suffix)
    ensures SuffixAt(tag, q) == suffix
  {
    assert forall k :: q <= k < |tag| ==> tag[k] == suffix[k - q];
  }

  // ----- The rank of a written tag -----

  const STAMP := "RELEASE.0000-00-00T00-00-00Z"

  /** The tag starts like the stamp, with any digits in place of the zeros. */
  predicate IsStamped(tag: string) {
    |tag| >= 28 && forall i :: 0 <= i < 28 ==> if STAMP[i] == '0' then '0' <= tag[i] <= '9' else tag[i] == STAMP[i]
  }

  lemma DigitsOf(tag: string, lo: nat, hi: nat)
    requires lo <= hi <= |tag|
    ensures AllDigits(tag[lo..hi]) <==> forall i :: lo <= i < hi ==> '0' <= tag[i] <= '9'
  {
    if AllDigits(tag[lo..hi]) {
      forall i | lo <= i < hi ensures '0' <= tag[i] <= '9' { assert tag[lo..hi][i - lo] == tag[i]; }
    }
  }

  lemma StampStart(tag: string, start: string)
    requires |tag| >= 8 && start == STAMP[..8]
    ensures tag[..8] == start <==> forall i :: 0 <= i < 8 ==> tag[i] == STAMP[i]
  {
    assert forall i :: 0 <= i < 8 ==> tag[..8][i] == tag[i] && start[i] == STAMP[i];
  }

  predicate IsDigitPlace(i: nat) {
    8 <= i < 12 || 13 <= i < 15 || 16 <= i < 18 || 19 <= i < 21 || 22 <= i < 24 || 25 <= i < 27
  }

  lemma StampPlaces(i: nat)
    requires i < 28
    ensures STAMP[i] == '0' <==> IsDigitPlace(i)
  {
  }

  lemma StampDigits(tag: string)
    requires |tag| >= 28
    ensures (forall i :: 0 <= i < 28 && STAMP[i] == '0' ==> '0' <= tag[i] <= '9') <==>
            AllDigits(tag[8..12]) && AllDigits(tag[13..15]) && AllDigits(tag[16..18]) &&
            AllDigits(tag[19..21]) && AllDigits(tag[22..24]) && AllDigits(tag[25..27])
  {
    DigitsOf(tag, 8, 12);
    DigitsOf(tag, 13, 15);
    DigitsOf(tag, 16, 18);
    DigitsOf(tag, 19, 21);
    DigitsOf(tag, 22, 24);
    DigitsOf(tag, 25, 27);
    forall i: nat | i < 28 ensures STAMP[i] == '0' <==> IsDigitPlace(i) { StampPlaces(i); }
  }

  lemma StampSigns(tag: string)
    requires |tag| >= 28
    ensures (forall i :: 0 <= i < 28 && STAMP[i] != '0' ==> tag[i] == STAMP[i]) <==>
            (forall i :: 0 <= i < 8 ==> tag[i] == STAMP[i]) && tag[12] == '-' && tag[15] == '-' && tag[18] == 'T' &&
            tag[21] == '-' && tag[24] == '-' && tag[27] == 'Z'
  {
    forall i: nat | i < 28 ensures STAMP[i] == '0' <==> IsDigitPlace(i) { StampPlaces(i); }
    assert STAMP[12] == STAMP[15] == STAMP[21] == STAMP[24] == '-' && STAMP[18] == 'T' && STAMP[27] == 'Z';
  }

  lemma StampMeans(tag: string)
    ensures HasReleaseStamp(tag) <==> IsStamped(tag)
  {
    if |tag| >= 28 {
      assert STAMP[..8] == "RELEASE.";
      StampStart(tag, "RELEASE.");
      StampDigits(tag);
      StampSigns(tag);
    }
  }

  /** `-p` and a number. */
  ghost predicate IsBuild(suffix: string, build: string) {
    IsNumber(build) && suffix == "-p" + build
  }

  lemma BuildMeans(suffix: string)
    ensures forall build :: IsBuild(suffix, build) ==> Build(suffix) == Some(Number(build))
    ensures Build(suffix).Some? ==> exists build :: IsBuild(suffix, build)
  {
    forall build | IsBuild(suffix, build) ensures Build(suffix) == Some(Number(build)) {
      assert suffix[..2] == "-p" && suffix[2..] == build;
    }
    if Build(suffix).Some? {
      assert suffix == "-p" + suffix[2..];
      assert IsBuild(suffix, suffix[2..]);
    }
  }

  /** Three for a plain version or one with a build number, two for any other suffix. */
  ghost predicate IsPreference(suffix: string, preference: nat) {
    preference == if suffix == "" || (exists build :: IsBuild(suffix, build)) then 3 else 2
  }

  /** A tag without a date ranks by its numbers, a build number behind them being one more. */
  lemma WrittenTagIsRanked(prefix: string, v: bool, parts: seq<string>, suffix: string, tag: string)
    requires IsPrefix(prefix) && AreNumbers(parts) && IsSuffix(suffix) && tag == prefix + Version(v, parts) + suffix
    requires !IsStamped(tag)
    ensures RankOf(tag).Some? && RankOf(tag).value.kind == 1 && IsPreference(suffix, RankOf(tag).value.preference)
    ensures forall build :: IsBuild(suffix, build) ==> RankOf(tag).value.key == Numbers(parts) + [Number(build)]
    ensures (forall build :: !IsBuild(suffix, build)) ==> RankOf(tag).value.key == Numbers(parts)
  {
    WrittenTagIsRead(prefix, v, parts, suffix, tag);
    StampMeans(tag);
    BuildMeans(suffix);
  }

  // ----- Dated tags -----

  const STARTS := [8, 13, 16, 19, 22, 25]
  const ENDS := [12, 15, 18, 21, 24, 27]

  /** Year, month, day, hour, minute and second, in that order. */
  function Moment(tag: string): (key: seq<nat>)
    requires |tag| >= 28
    ensures |key| == 6
  {
    seq(6, g requires 0 <= g < 6 => Number(tag[STARTS[g]..ENDS[g]]))
  }

  lemma MomentIs(tag: string)
    requires |tag| >= 28
    ensures Moment(tag) == [Number(tag[8..12]), Number(tag[13..15]), Number(tag[16..18]),
                            Number(tag[19..21]), Number(tag[22..24]), Number(tag[25..27])]
  {
  }

  lemma StampedRank(tag: string)
    requires '\n' !in tag && HasReleaseStamp(tag)
    ensures RankOf(tag) == Some(Rank(2, [Number(tag[8..12]), Number(tag[13..15]), Number(tag[16..18]),
                                         Number(tag[19..21]), Number(tag[22..24]), Number(tag[25..27])],
                                     SuffixPreference(tag[28..])))
  {
    assert LineEnd(tag, 28) == |tag| && tag[28..|tag|] == tag[28..];
  }

  /** On one line, a tag has a dated rank exactly when it is stamped, and then this one. */
  lemma DatedMeans(tag: string)
    requires '\n' !in tag
    ensures RankOf(tag).Some? && RankOf(tag).value.kind == 2 <==> IsStamped(tag)
    ensures IsStamped(tag) ==>
              RankOf(tag).value.key == Moment(tag) && IsPreference(tag[28..], RankOf(tag).value.preference)
  {
    StampMeans(tag);
    if IsStamped(tag) {
      BuildMeans(tag[28..]);
      StampedRank(tag);
      MomentIs(tag);
    }
  }

  lemma {:induction false} FirstDifference(x: string, y: string) returns (i: nat)
    requires |x| == |y| && x != y
    ensures BelowAsTextAt(x, y, i) || BelowAsTextAt(y, x, i)
  {
    i := 0;
    if x[0] == y[0] {
      assert x == [x[0]] + x[1..] && y == [y[0]] + y[1..];
      var j := FirstDifference(x[1..], y[1..]);
      i := j + 1;
      assert x[..i] == [x[0]] + x[1..][..j] && y[..i] == [y[0]] + y[1..][..j];
    }
  }

  lemma AgreeBefore(a: string, b: string, i: nat, lo: nat, hi: nat)
    requires lo <= hi <= i <= |a| && i <= |b| && a[..i] == b[..i]
    ensures a[lo..hi] == b[lo..hi]
  {
    assert a[lo..hi] == a[..i][lo..hi] && b[lo..hi] == b[..i][lo..hi];
  }

  lemma DifferInside(a: string, b: string, i: nat, lo: nat, hi: nat)
    requires lo <= i < hi <= |a| && hi <= |b| && BelowAsTextAt(a, b, i)
    ensures BelowAsTextAt(a[lo..hi], b[lo..hi], i - lo)
  {
    AgreeBefore(a, b, i, lo, i);
    assert a[lo..hi][..i - lo] == a[lo..i] && b[lo..hi][..i - lo] == b[lo..i];
  }

  /** A number of the stamp stands where stamps can differ. */
  lemma PlaceInStamp(a: string, b: string, i: nat) returns (g: nat)
    requires IsStamped(a) && IsStamped(b) && i < 28 && a[i] != b[i]
    ensures g < 6 && STARTS[g] <= i < ENDS[g]
  {
    assert STAMP[i] == '0';
    g := if i < 12 then 0 else if i < 15 then 1 else if i < 18 then 2 else if i < 21 then 3 else
        if i < 24 then 4 else 5;
  }

  lemma StampNumber(tag: string, g: nat)
    requires IsStamped(tag) && g < 6
    ensures IsNumber(tag[STARTS[g]..ENDS[g]])
  {
  }

  lemma EarlierNumber(a: string, b: string, i: nat, g: nat)
    requires IsStamped(a) && IsStamped(b) && BelowAsTextAt(a, b, i) && g < 6 && STARTS[g] <= i < ENDS[g]
    ensures Moment(a)[g] < Moment(b)[g]
  {
    var x, y := a[STARTS[g]..ENDS[g]], b[STARTS[g]..ENDS[g]];
    StampNumber(a, g);
    StampNumber(b, g);
    DifferInside(a, b, i, STARTS[g], ENDS[g]);
    NumbersCompare(x, y);
  }

  lemma SameNumbers(a: string, b: string, i: nat, g: nat)
    requires |a| >= 28 && |b| >= 28 && i <= 28 && a[..i] == b[..i] && g <= 6 && forall h :: 0 <= h < g ==> ENDS[h] <= i
    ensures Moment(a)[..g] == Moment(b)[..g]
  {
    forall h | 0 <= h < g ensures Moment(a)[h] == Moment(b)[h] { AgreeBefore(a, b, i, STARTS[h], ENDS[h]); }
  }

  lemma EarlierMoment(a: string, b: string, i: nat)
    requires IsStamped(a) && IsStamped(b) && i < 28 && BelowAsTextAt(a, b, i)
    ensures KeyLess(Moment(a), Moment(b))
  {
    var g := PlaceInStamp(a, b, i);
    EarlierNumber(a, b, i, g);
    SameNumbers(a, b, i, g);
    BelowIsLess(Moment(a), Moment(b), g);
  }

  lemma EarlierStamp(a: string, b: string, i: nat)
    requires |a| >= 28 && |b| >= 28 && BelowAsTextAt(a[..28], b[..28], i)
    ensures BelowAsTextAt(a, b, i)
  {
    assert a[..28][..i] == a[..i] && b[..28][..i] == b[..i];
  }

  lemma SameMoment(a: string, b: string)
    requires |a| >= 28 && |b| >= 28 && a[..28] == b[..28]
    ensures Moment(a) == Moment(b)
  {
    SameNumbers(a, b, 28, 6);
  }

  lemma MomentsCompare(a: string, b: string)
    requires IsStamped(a) && IsStamped(b)
    ensures KeyLess(Moment(a), Moment(b)) <==> BelowAsText(a[..28], b[..28])
    ensures Moment(a) == Moment(b) <==> a[..28] == b[..28]
  {
    KeysTotal(Moment(a), Moment(b));
    if a[..28] == b[..28] {
      SameMoment(a, b);
      if BelowAsText(a[..28], b[..28]) { TextOrder(a[..28], b[..28]); }
    } else {
      var i := FirstDifference(a[..28], b[..28]);
      if BelowAsTextAt(a[..28], b[..28], i) {
        EarlierStamp(a, b, i);
        EarlierMoment(a, b, i);
      } else {
        EarlierStamp(b, a, i);
        EarlierMoment(b, a, i);
        KeysTotal(Moment(b), Moment(a));
        TextOrder(b[..28], a[..28]);
      }
    }
  }

  /** Of two dated tags the one with the earlier stamp ranks lower; with one stamp the suffix decides.  A tag
      without stamp ranks below every dated one. */
  lemma DatedTagsCompare(a: string, b: string)
    requires '\n' !in a && '\n' !in b && RankOf(a).Some? && RankOf(b).Some? && IsStamped(b)
    ensures Less(RankOf(a).value, RankOf(b).value) <==>
            || !IsStamped(a) || BelowAsText(a[..28], b[..28])
            || (a[..28] == b[..28] && RankOf(a).value.preference < RankOf(b).value.preference)
    ensures IsPreference(b[28..], RankOf(b).value.preference)
  {
    DatedMeans(a);
    DatedMeans(b);
    if IsStamped(a) { MomentsCompare(a, b); } else { assert RankOf(a).value.kind == 1; }
  }

  // ----- The same variant -----

  /** The first number stays, and for Python the second one as well, if there is one. */
  predicate KeepsVersion(repository: string, current: string, v: seq<nat>, w: seq<nat>) {
    && v != [] && w != [] && w[0] == v[0]
    && ((repository == "python" || repository == "library/python" || repository == "docker.io/library/python" ||
         "python" <= current) && |v| > 1 ==>
          |w| > 1 && w[1] == v[1])
  }

  /** Both tags have a version, prefix and suffix are the same, and the version is kept so far. */
  predicate Agrees(repository: string, current: string, tag: string) {
    match (ParseTag(current), ParseTag(tag))
    case (Some(v), Some(w)) =>
      w.prefix == v.prefix && w.suffix == v.suffix && KeepsVersion(repository, current, v.version, w.version)
    case _ => false
  }

  lemma VersionIsNotEmpty(tag: string)
    requires ParseTag(tag).Some?
    ensures ParseTag(tag).value.version != []
  {
    var p, q, parts := ParseMatches(tag);
  }

  lemma VariantMeans(repository: string, current: string, tag: string)
    ensures SameVariant(repository, current, tag) <==> Agrees(repository, current, tag)
  {
    if ParseTag(current).Some? && ParseTag(tag).Some? {
      VersionIsNotEmpty(current);
      VersionIsNotEmpty(tag);
      var v, w := ParseTag(current).value.version, ParseTag(tag).value.version;
      assert |v| > 1 ==> v[..2] == [v[0], v[1]];
      assert |w| > 1 ==> w[..2] == [w[0], w[1]];
      assert v[..1] == [v[0]] && w[..1] == [w[0]];
    }
  }

  /** None of the ranked listed tags of this kind ranks above `best`. */
  ghost predicate IsGreatest(tags: seq<string>, kind: string -> bool, best: string) {
    best in tags && kind(best) && RankOf(best).Some? &&
    forall tag :: tag in tags && kind(tag) && RankOf(tag).Some? ==> !Less(RankOf(best).value, RankOf(tag).value)
  }

  lemma BestIsGreatest(tags: seq<string>, keep: string -> bool, kind: string -> bool)
    requires forall tag :: keep(tag) <==> kind(tag)
    ensures var best := Best(Filter(tags, keep));
            if best.None? then forall tag :: tag in tags && kind(tag) ==> RankOf(tag).None?
            else IsGreatest(tags, kind, best.value)
  {
    BestHolds(tags, keep);
    forall tag | tag in tags ensures exists k :: 0 <= k < |tags| && tags[k] == tag {}
    if Best(Filter(tags, keep)).None? {
      forall tag | tag in tags && kind(tag) ensures RankOf(tag).None? {
        var k :| 0 <= k < |tags| && tags[k] == tag;
        assert !Ranks(tags[k], keep);
      }
    } else {
      var k :| FirstGreatestAt(tags, keep, k) && tags[k] == Best(Filter(tags, keep)).value;
      forall tag | tag in tags && kind(tag) && RankOf(tag).Some?
        ensures !Less(RankOf(tags[k]).value, RankOf(tag).value)
      {
        var j :| 0 <= j < |tags| && tags[j] == tag;
        assert Ranks(tags[j], keep);
      }
    }
  }

  function AgreesWith(repository: string, current: string): string -> bool {
    tag => Agrees(repository, current, tag)
  }

  /** The same-variant choice: none if no ranked listed tag agrees with the current one, and otherwise one
      that does, of greatest rank. */
  lemma SameVariantMeans(repository: string, current: string, tags: seq<string>)
    ensures var best := BestSameVariant(repository, current, tags);
            if best.None? then forall tag :: tag in tags && Agrees(repository, current, tag) ==> RankOf(tag).None?
            else IsGreatest(tags, AgreesWith(repository, current), best.value)
  {
    forall tag ensures SameVariant(repository, current, tag) <==> Agrees(repository, current, tag) {
      VariantMeans(repository, current, tag);
    }
    BestIsGreatest(tags, VariantOf(repository, current), AgreesWith(repository, current));
  }

  /** Something, a dash, and the current tag. */
  ghost predicate EndsWithDash(current: string, tag: string) {
    exists start :: tag == start + ("-" + current)
  }

  lemma PinsMeans(current: string, tag: string)
    ensures Pins(current, tag) <==> EndsWithDash(current, tag)
  {
    if Pins(current, tag) { assert tag == tag[..|tag| - |current| - 1] + ("-" + current); }
  }

  ghost function DashedWith(current: string): string -> bool {
    tag => EndsWithDash(current, tag)
  }

  /** No ranked listed tag agrees with the current one, or none of them ranks above it. */
  ghost predicate IsBestOfVariant(repository: string, current: string, tags: seq<string>) {
    (forall tag :: tag in tags && Agrees(repository, current, tag) ==> RankOf(tag).None?) ||
    IsGreatest(tags, AgreesWith(repository, current), current)
  }

  /** A move goes to another tag of greatest rank among the listed ones that agree with the current one; or,
      when that is the current one or none, to a tag of greatest rank among those that end with a dash and
      the current one.  With neither there is no move. */
  lemma MoveMeans(repository: string, current: string, tags: seq<string>)
    ensures var next := Choose(repository, current, tags);
            next.Some? ==>
              next.value != current &&
              (IsGreatest(tags, AgreesWith(repository, current), next.value) ||
               (IsBestOfVariant(repository, current, tags) && IsGreatest(tags, DashedWith(current), next.value)))
    ensures Choose(repository, current, tags).None? ==>
              IsBestOfVariant(repository, current, tags) &&
              forall tag :: tag in tags && EndsWithDash(current, tag) ==> RankOf(tag).None?
  {
    SameVariantMeans(repository, current, tags);
    forall tag ensures Pins(current, tag) <==> EndsWithDash(current, tag) { PinsMeans(current, tag); }
    BestIsGreatest(tags, PinsOf(current), DashedWith(current));
    NoTagEndsWithItself(current);
    ChoiceIsEither(repository, current, tags);
  }

  lemma NoTagEndsWithItself(current: string)
    ensures !EndsWithDash(current, current)
  {
  }

  lemma ChoiceIsEither(repository: string, current: string, tags: seq<string>)
    ensures var next, same, pinned :=
              Choose(repository, current, tags), BestSameVariant(repository, current, tags), BestPinned(current, tags);
            if next.Some? then
              next.value != current && (next == same || (next == pinned && (same.None? || same.value == current)))
            else (same.None? || same.value == current) && (pinned.None? || pinned.value == current)
  {
  }

  /** Without a tag, or with `latest`, the choice is a tag of greatest rank of all. */
  lemma FloatingMeans(repository: string, current: Option<string>, tags: seq<string>)
    requires current == None || current == Some("latest")
    ensures var best := LatestTag(repository, current, tags);
            if best.None? then forall tag :: tag in tags ==> RankOf(tag).None?
            else IsGreatest(tags, EVERY_TAG, best.value)
  {
    FilterAll(tags, EVERY_TAG);
    BestIsGreatest(tags, EVERY_TAG, EVERY_TAG);
  }

  // ----- Two written tags -----

  ghost predicate IsTag(prefix: string, v: bool, parts: seq<string>, suffix: string, tag: string) {
    IsPrefix(prefix) && AreNumbers(parts) && IsSuffix(suffix) && tag == prefix + Version(v, parts) + suffix &&
    !IsStamped(tag)
  }

  /** With one suffix, the tag whose number is smaller at the first difference ranks lower. */
  lemma SmallerNumberRanksLower(p: string, v: bool, a: seq<string>, q: string, w: bool, b: seq<string>,
                                suffix: string, tag: string, other: string, i: nat)
    requires IsTag(p, v, a, suffix, tag) && IsTag(q, w, b, suffix, other) && i < |a| && i < |b|
    requires (forall k :: 0 <= k < i ==> Number(a[k]) == Number(b[k])) && Number(a[i]) < Number(b[i])
    ensures RankOf(tag).Some? && RankOf(other).Some? && Less(RankOf(tag).value, RankOf(other).value)
  {
    WrittenTagIsRanked(p, v, a, suffix, tag);
    WrittenTagIsRanked(q, w, b, suffix, other);
    var x, y := RankOf(tag).value, RankOf(other).value;
    BuildMeans(suffix);
    assert BelowAt(x.key, y.key, i);
    RanksCompare(x, y);
  }

  /** `1.9` ranks below `1.10`, although it is above as a text. */
  lemma NineRanksBelowTen(major: string, parts: seq<string>, others: seq<string>, suffix: string, tag: string,
                          other: string)
    requires parts == [major, "9"] && others == [major, "10"]
    requires IsTag("", false, parts, suffix, tag) && IsTag("", false, others, suffix, other)
    ensures RankOf(tag).Some? && RankOf(other).Some? && Less(RankOf(tag).value, RankOf(other).value)
  {
    NumbersCompare(parts[1], others[1]);
    SmallerNumberRanksLower("", false, parts, "", false, others, suffix, tag, other, 1);
  }

  /** Of two listed tags of one prefix and suffix with another first number, or for Python another second
      one, the updater stays at the current one. */
  lemma OtherVersionIsNoMove(repository: string, prefix: string, suffix: string, parts: seq<string>,
                             others: seq<string>, current: string, other: string)
    requires IsTag(prefix, false, parts, suffix, current) && IsTag(prefix, false, others, suffix, other)
    requires !KeepsVersion(repository, current, Numbers(parts), Numbers(others)) && !EndsWithDash(current, other)
    ensures Choose(repository, current, [current, other]) == None
  {
    WrittenTagIsRead(prefix, false, parts, suffix, current);
    WrittenTagIsRead(prefix, false, others, suffix, other);
    MoveMeans(repository, current, [current, other]);
  }
}
