/**
 Container image tags: how a tag is taken apart, how tags are ranked, and which listed tag
 the updater moves to.
 */
module ContainerTags {
  import opened Prelude
  import opened Text
  import opened Versions

  // ----- Taking a tag apart -----

  /** A tag read as prefix, version and suffix; `text` is the version as written. */
  datatype TagVersion = TagVersion(prefix: string, text: string, version: seq<nat>, suffix: string)

  /** Where the pattern's `$` matches. */
  predicate AtEnd(tag: string, q: nat)
    requires q <= |tag|
  {
    q == |tag| || (q == |tag| - 1 && tag[q] == '\n')
  }

  function DigitsStart(tag: string, p: nat): (d: nat)
    requires p <= |tag|
    ensures p <= d <= |tag|
  {
    if p < |tag| && tag[p] == 'v' then p + 1 else p
  }

  predicate StartsSuffix(c: char) {
    c == '-' || c == '_'
  }

  function SuffixAt(tag: string, q: nat): string
    requires q <= |tag|
  {
    if AtEnd(tag, q) then "" else tag[q..LineEnd(tag, q)]
  }

  /** The match whose version starts at `p`. */
  function MatchAt(tag: string, p: nat): Option<TagVersion>
    requires p <= |tag|
  {
    var d := DigitsStart(tag, p);
    var q := ReleaseEnd(tag, d);
    if q == d || !(AtEnd(tag, q) || StartsSuffix(tag[q])) then None
    else Some(TagVersion(tag[..p], tag[p..q], Numbers(Components(tag, d)), SuffixAt(tag, q)))
  }

  predicate MatchesAt(tag: string, p: nat) {
    p <= |tag| && MatchAt(tag, p).Some?
  }

  /** The prefix is lazy: the first position that matches wins, and it cannot pass a newline. */
  function FirstMatch(tag: string, start: nat): (found: Option<nat>)
    requires start <= |tag| && OneLine(tag, start)
    ensures match found
            case Some(p) =>
              start <= p <= |tag| && OneLine(tag, p) && MatchesAt(tag, p) &&
              forall i :: start <= i < p ==> !MatchesAt(tag, i)
            case None => forall p :: start <= p <= |tag| && OneLine(tag, p) ==> !MatchesAt(tag, p)
    decreases |tag| - start
  {
    if MatchesAt(tag, start) then Some(start)
    else if start < |tag| && tag[start] != '\n' then FirstMatch(tag, start + 1)
    else None
  }

  function ParseTag(tag: string): Option<TagVersion> {
    match FirstMatch(tag, 0)
    case Some(p) => MatchAt(tag, p)
    case None => None
  }

  // ----- The pattern, independently of the matcher -----

  /** No newline before position `p`. */
  predicate OneLine(s: string, p: nat)
    requires p <= |s|
  {
    forall i :: 0 <= i < p ==> s[i] != '\n'
  }

  /** `tag[p..q]` can be the version of a match: an optional `v`, then these components. */
  ghost predicate Spans(tag: string, p: nat, q: nat, parts: seq<string>) {
    p <= q <= |tag| && OneLine(tag, p) && Spells(tag, DigitsStart(tag, p), q, parts) &&
    (AtEnd(tag, q) || StartsSuffix(tag[q]))
  }

  lemma SpanIsMatch(tag: string, p: nat, q: nat, parts: seq<string>)
    requires Spans(tag, p, q, parts)
    ensures var d := DigitsStart(tag, p);
            d < q && ReleaseEnd(tag, d) == q && Components(tag, d) == parts && MatchesAt(tag, p)
    ensures tag[p] == 'v' || IsDigit(tag[p])
  {
    SpelledCharacters(tag, DigitsStart(tag, p), q, parts);
    ReleaseIsUnique(tag, DigitsStart(tag, p), q, parts);
  }

  lemma MatchIsSpan(tag: string, p: nat)
    requires p <= |tag| && OneLine(tag, p) && MatchesAt(tag, p)
    ensures var d := DigitsStart(tag, p); Spans(tag, p, ReleaseEnd(tag, d), Components(tag, d))
  {
    MatcherFindsRelease(tag, DigitsStart(tag, p));
  }

  /** A match of the pattern, and none has a shorter prefix. */
  ghost predicate FirstSpan(tag: string, p: nat, q: nat, parts: seq<string>) {
    Spans(tag, p, q, parts) && forall p', q', parts' :: Spans(tag, p', q', parts') ==> p <= p'
  }

  /** What the parse returns is the match with the shortest prefix. */
  lemma ParseMatches(tag: string) returns (p: nat, q: nat, parts: seq<string>)
    requires ParseTag(tag).Some?
    ensures FirstSpan(tag, p, q, parts)
    ensures ParseTag(tag) == Some(TagVersion(tag[..p], tag[p..q], Numbers(parts), SuffixAt(tag, q)))
  {
    p := FirstMatch(tag, 0).value;
    var d := DigitsStart(tag, p);
    q, parts := ReleaseEnd(tag, d), Components(tag, d);
    MatchIsSpan(tag, p);
    forall p', q', parts' | Spans(tag, p', q', parts') ensures p <= p' {
      SpanIsMatch(tag, p', q', parts');
    }
  }

  /** The parse fails only if nothing matches. */
  lemma MatchIsParsed(tag: string, p: nat, q: nat, parts: seq<string>)
    requires Spans(tag, p, q, parts)
    ensures ParseTag(tag).Some?
  {
    SpanIsMatch(tag, p, q, parts);
  }

  /** The match with the shortest prefix is all the parse depends on. */
  lemma ParseIsFirstMatch(tag: string, p: nat, q: nat, parts: seq<string>)
    requires FirstSpan(tag, p, q, parts)
    ensures ParseTag(tag) == Some(TagVersion(tag[..p], tag[p..q], Numbers(parts), SuffixAt(tag, q)))
  {
    MatchIsParsed(tag, p, q, parts);
    var p', q', parts' := ParseMatches(tag);
    SpanIsMatch(tag, p, q, parts);
    SpanIsMatch(tag, p', q', parts');
  }

  // ----- Rank -----

  /** Kind 2 is a dated release tag, kind 1 a version tag. */
  datatype Rank = Rank(kind: nat, key: seq<nat>, preference: nat)

  function Build(suffix: string): Option<nat> {
    if |suffix| > 2 && suffix[..2] == "-p" && AllDigits(suffix[2..]) then Some(Number(suffix[2..])) else None
  }

  function SuffixPreference(suffix: string): nat {
    if suffix == "" || Build(suffix).Some? then 3 else 2
  }

  /** `RELEASE.`, a date, `T`, a time, `Z`. */
  predicate HasReleaseStamp(tag: string) {
    |tag| >= 28 && tag[..8] == "RELEASE." &&
    AllDigits(tag[8..12]) && tag[12] == '-' && AllDigits(tag[13..15]) && tag[15] == '-' && AllDigits(tag[16..18]) &&
    tag[18] == 'T' &&
    AllDigits(tag[19..21]) && tag[21] == '-' && AllDigits(tag[22..24]) && tag[24] == '-' && AllDigits(tag[25..27]) &&
    tag[27] == 'Z'
  }

  function ReleaseRank(tag: string): Option<Rank> {
    if !HasReleaseStamp(tag) then None
    else
      var e := LineEnd(tag, 28);
      if !AtEnd(tag, e) then None
      else
        Some(Rank(2, [Number(tag[8..12]), Number(tag[13..15]), Number(tag[16..18]),
                      Number(tag[19..21]), Number(tag[22..24]), Number(tag[25..27])],
                  SuffixPreference(tag[28..e])))
  }

  function RankOf(tag: string): Option<Rank> {
    if ReleaseRank(tag).Some? then ReleaseRank(tag)
    else
      match ParseTag(tag)
      case None => None
      case Some(v) =>
        var key := if Build(v.suffix).Some? then v.version + [Build(v.suffix).value] else v.version;
        Some(Rank(1, key, SuffixPreference(v.suffix)))
  }

  predicate KeyLess(a: seq<nat>, b: seq<nat>) {
    b != [] && (a == [] || a[0] < b[0] || (a[0] == b[0] && KeyLess(a[1..], b[1..])))
  }

  predicate Less(a: Rank, b: Rank) {
    a.kind < b.kind ||
    (a.kind == b.kind && (KeyLess(a.key, b.key) || (a.key == b.key && a.preference < b.preference)))
  }

  lemma {:induction false} KeysTotal(a: seq<nat>, b: seq<nat>)
    ensures KeyLess(a, b) || a == b || KeyLess(b, a)
    ensures !(KeyLess(a, b) && KeyLess(b, a)) && !KeyLess(a, a)
  {
    if a != [] {
      KeysTotal(a[1..], if b == [] then [] else b[1..]);
      if b != [] && a[0] == b[0] && a[1..] == b[1..] {
        assert a == [a[0]] + a[1..] == b;
      }
    }
  }

  lemma {:induction false} KeysTransitive(a: seq<nat>, b: seq<nat>, c: seq<nat>)
    requires KeyLess(a, b) && KeyLess(b, c)
    ensures KeyLess(a, c)
  {
    if a != [] && a[0] == b[0] == c[0] {
      KeysTransitive(a[1..], b[1..], c[1..]);
    }
  }

  /** Ranks are totally ordered: lexicographic on kind, integer tuple of any length, preference. */
  lemma RanksTotallyOrdered(a: Rank, b: Rank, c: Rank)
    ensures Less(a, b) || a == b || Less(b, a)
    ensures !(Less(a, b) && Less(b, a)) && !Less(a, a)
    ensures Less(a, b) && Less(b, c) ==> Less(a, c)
  {
    KeysTotal(a.key, b.key);
    KeysTotal(a.key, a.key);
    if KeyLess(a.key, b.key) && KeyLess(b.key, c.key) {
      KeysTransitive(a.key, b.key, c.key);
    }
  }

  /** A tag has a rank exactly when the version pattern matches it: dated releases match too. */
  lemma RankedIffParsed(tag: string)
    ensures RankOf(tag).Some? <==> ParseTag(tag).Some?
  {
    if ReleaseRank(tag).Some? {
      var year := tag[8..12];
      assert IsComponent(year) && year[0] == tag[8];
      assert Spells(tag, 8, 12, [year]);
      forall i | 0 <= i < 8 ensures tag[i] != '\n' {
        assert tag[..8][i] == tag[i];
      }
      assert Spans(tag, 8, 12, [year]);
      MatchIsParsed(tag, 8, 12, [year]);
    }
  }

  // ----- The greatest rank -----

  function Filter(tags: seq<string>, keep: string -> bool): (kept: seq<string>)
    ensures forall tag :: tag in kept <==> tag in tags && keep(tag)
  {
    if tags == [] then []
    else Filter(tags[..|tags| - 1], keep) + if keep(tags[|tags| - 1]) then [tags[|tags| - 1]] else []
  }

  predicate Ranks(tag: string, keep: string -> bool) {
    keep(tag) && RankOf(tag).Some?
  }

  /** Of the ranked tags that are kept, none ranks above `tags[k]` and every earlier one ranks
      below it. */
  ghost predicate FirstGreatestAt(tags: seq<string>, keep: string -> bool, k: int) {
    0 <= k < |tags| && Ranks(tags[k], keep) &&
    forall j :: 0 <= j < |tags| && Ranks(tags[j], keep) ==>
      !Less(RankOf(tags[k]).value, RankOf(tags[j]).value) &&
      (j < k ==> Less(RankOf(tags[j]).value, RankOf(tags[k]).value))
  }

  ghost predicate IsFirstGreatest(tags: seq<string>, keep: string -> bool, best: string) {
    exists k :: FirstGreatestAt(tags, keep, k) && tags[k] == best
  }

  /** The tag the ranking loop holds after these tags. */
  function Best(tags: seq<string>): (best: Option<string>)
    ensures best.Some? ==> RankOf(best.value).Some?
  {
    if tags == [] then None
    else
      var best, tag := Best(tags[..|tags| - 1]), tags[|tags| - 1];
      if RankOf(tag).None? then best
      else if best.None? || Less(RankOf(best.value).value, RankOf(tag).value) then Some(tag)
      else best
  }

  lemma NewTagIsGreatest(tags: seq<string>, keep: string -> bool, tag: string, k: int)
    requires Ranks(tag, keep) && FirstGreatestAt(tags, keep, k) && Less(RankOf(tags[k]).value, RankOf(tag).value)
    ensures FirstGreatestAt(tags + [tag], keep, |tags|)
  {
    var best, r := RankOf(tags[k]).value, RankOf(tag).value;
    RanksTotallyOrdered(r, r, r);
    forall j | 0 <= j < |tags| && Ranks(tags[j], keep)
      ensures Less(RankOf(tags[j]).value, r) && !Less(r, RankOf(tags[j]).value)
    {
      RanksTotallyOrdered(RankOf(tags[j]).value, best, r);
      RanksTotallyOrdered(RankOf(tags[j]).value, r, best);
    }
  }

  lemma FilterAppend(tags: seq<string>, keep: string -> bool, tag: string)
    ensures Filter(tags + [tag], keep) == Filter(tags, keep) + if keep(tag) then [tag] else []
  {
  }

  lemma BestAppend(tags: seq<string>, tag: string)
    ensures Best(tags + [tag]) ==
              if RankOf(tag).None? then Best(tags)
              else if Best(tags).None? || Less(RankOf(Best(tags).value).value, RankOf(tag).value) then Some(tag)
              else Best(tags)
  {
  }

  /** `best` is what is to be found among the kept tags. */
  ghost predicate Found(tags: seq<string>, keep: string -> bool, best: Option<string>) {
    match best
    case None => forall j :: 0 <= j < |tags| ==> !Ranks(tags[j], keep)
    case Some(tag) => IsFirstGreatest(tags, keep, tag)
  }

  lemma FoundAppend(tags: seq<string>, keep: string -> bool, best: string, tag: string)
    requires RankOf(best).Some? && Found(tags, keep, Some(best))
    ensures Found(tags + [tag], keep,
                  if Ranks(tag, keep) && Less(RankOf(best).value, RankOf(tag).value) then Some(tag) else Some(best))
  {
    var k :| FirstGreatestAt(tags, keep, k) && tags[k] == best;
    if Ranks(tag, keep) && Less(RankOf(best).value, RankOf(tag).value) {
      NewTagIsGreatest(tags, keep, tag, k);
    } else {
      assert FirstGreatestAt(tags + [tag], keep, k);
    }
  }

  lemma FoundFirst(tags: seq<string>, keep: string -> bool, tag: string)
    requires Found(tags, keep, None)
    ensures Found(tags + [tag], keep, if Ranks(tag, keep) then Some(tag) else None)
  {
    if Ranks(tag, keep) {
      RanksTotallyOrdered(RankOf(tag).value, RankOf(tag).value, RankOf(tag).value);
      assert FirstGreatestAt(tags + [tag], keep, |tags|);
    }
  }

  lemma {:induction false} BestHolds(tags: seq<string>, keep: string -> bool)
    ensures Found(tags, keep, Best(Filter(tags, keep)))
  {
    if tags != [] {
      var rest, tag := tags[..|tags| - 1], tags[|tags| - 1];
      assert tags == rest + [tag];
      BestHolds(rest, keep);
      var best := Best(Filter(rest, keep));
      if best.Some? { FoundAppend(rest, keep, best.value, tag); } else { FoundFirst(rest, keep, tag); }
      FilterAppend(rest, keep, tag);
      BestAppend(Filter(rest, keep), tag);
      assert !keep(tag) ==> Filter(tags, keep) == Filter(rest, keep);
    }
  }

  /** A first greatest tag stays one when only some of the kept tags are kept. */
  lemma StaysGreatest(tags: seq<string>, wide: string -> bool, narrow: string -> bool, k: int)
    requires FirstGreatestAt(tags, wide, k) && narrow(tags[k])
    requires forall j :: 0 <= j < |tags| && narrow(tags[j]) ==> wide(tags[j])
    ensures FirstGreatestAt(tags, narrow, k)
  {
  }

  /** Choosing among the kept tags yields nothing exactly when none of them has a rank, and
      otherwise the first of greatest rank, which is the only tag so described. */
  lemma BestIsFirstGreatest(tags: seq<string>, keep: string -> bool)
    ensures Best(Filter(tags, keep)).None? <==> forall j :: 0 <= j < |tags| ==> !Ranks(tags[j], keep)
    ensures forall tag :: Best(Filter(tags, keep)) == Some(tag) <==> IsFirstGreatest(tags, keep, tag)
  {
    BestHolds(tags, keep);
  }

  lemma FirstGreatestIsBest(tags: seq<string>, keep: string -> bool, k: int)
    requires FirstGreatestAt(tags, keep, k)
    ensures Best(Filter(tags, keep)) == Some(tags[k])
  {
    BestHolds(tags, keep);
  }

  lemma KeepOneMore(rest: seq<string>, keep: string -> bool, tag: string)
    requires Filter(rest, keep) == rest && keep(tag)
    ensures Filter(rest + [tag], keep) == rest + [tag]
  {
  }

  lemma {:induction false} FilterAll(tags: seq<string>, keep: string -> bool)
    requires forall k :: 0 <= k < |tags| ==> keep(tags[k])
    ensures Filter(tags, keep) == tags
  {
    if tags != [] {
      var rest, tag := tags[..|tags| - 1], tags[|tags| - 1];
      FilterAll(rest, keep);
      KeepOneMore(rest, keep, tag);
      assert tags == rest + [tag];
    }
  }

  const EVERY_TAG: string -> bool := tag => true

  method BestRankedTag(tags: seq<string>) returns (best: Option<string>)
    ensures best.None? <==> forall j :: 0 <= j < |tags| ==> RankOf(tags[j]).None?
    ensures best.Some? ==> IsFirstGreatest(tags, EVERY_TAG, best.value)
    ensures best == Best(tags)
  {
    best := None;
    var bestRank: Option<Rank> := None;
    for i := 0 to |tags|
      invariant best == Best(tags[..i])
      invariant bestRank == if best.Some? then RankOf(best.value) else None
    {
      assert tags[..i + 1][..i] == tags[..i];
      var rank := RankOf(tags[i]);
      if rank.None? {
        continue;
      }
      if bestRank.None? || Less(bestRank.value, rank.value) {
        best, bestRank := Some(tags[i]), rank;
      }
    }
    assert tags[..|tags|] == tags;
    FilterAll(tags, EVERY_TAG);
    BestHolds(tags, EVERY_TAG);
    assert forall j :: 0 <= j < |tags| ==> (Ranks(tags[j], EVERY_TAG) <==> RankOf(tags[j]).Some?);
  }
}
