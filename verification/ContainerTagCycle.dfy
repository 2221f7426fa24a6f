/**
 When repeated tag choices come to an end: exactly if they have after as many moves as there are tags
 and one, and not always, as with line breaks in the listed tags the updater can go round in a circle.
 */
module ContainerTagCycle {
  import opened Prelude
  import opened Text
  import opened Versions
  import opened ContainerTags
  import opened ContainerTagChoice

  // ----- Coming to an end -----

  /** The tag after `n` moves; where there is no move it stays. */
  function Walk(move: string -> Option<string>, current: string, n: nat): string {
    if n == 0 then current
    else
      var tag := Walk(move, current, n - 1);
      if move(tag).None? then tag else move(tag).value
  }

  predicate RestsAt(move: string -> Option<string>, current: string, n: nat) {
    move(Walk(move, current, n)).None?
  }

  lemma {:induction false} RestIsKept(move: string -> Option<string>, current: string, n: nat, m: nat)
    requires n <= m && RestsAt(move, current, n)
    ensures RestsAt(move, current, m)
  {
    if n < m { RestIsKept(move, current, n, m - 1); }
  }

  lemma {:induction false} WalkRepeats(move: string -> Option<string>, current: string, i: nat, j: nat, d: nat)
    requires Walk(move, current, i) == Walk(move, current, j)
    ensures Walk(move, current, i + d) == Walk(move, current, j + d)
  {
    if d > 0 { WalkRepeats(move, current, i, j, d - 1); }
  }

  /** Whoever comes back to a tag without having rested never rests. */
  lemma {:induction false} NeverRests(move: string -> Option<string>, current: string, i: nat, j: nat, m: nat)
    requires i < j && Walk(move, current, i) == Walk(move, current, j) && !RestsAt(move, current, j)
    ensures !RestsAt(move, current, m)
    decreases m
  {
    if m > j {
      WalkRepeats(move, current, i, j, m - j);
      NeverRests(move, current, i, j, m - j + i);
    } else if RestsAt(move, current, m) {
      RestIsKept(move, current, m, j);
    }
  }

  lemma RemoveOnly(s: seq<string>, tag: string, k: nat) returns (rest: seq<string>)
    requires k < |s| && s[k] == tag && forall j :: 0 <= j < |s| && j != k ==> s[j] != tag
    ensures rest == s[..k] + s[k + 1..] && tag !in rest && |rest| == |s| - 1
    ensures forall j :: 0 <= j < |rest| ==> rest[j] == s[if j < k then j else j + 1]
  {
    rest := s[..k] + s[k + 1..];
  }

  lemma OthersAreListed(s: seq<string>, tags: seq<string>, last: string, rest: seq<string>)
    requires tags == rest + [last] && (forall tag :: tag in s ==> tag in tags) && last !in s
    ensures forall tag :: tag in s ==> tag in rest
  {
  }

  /** More entries than tags: one tag is entered twice. */
  lemma {:induction false} EnteredTwice(s: seq<string>, tags: seq<string>) returns (i: nat, j: nat)
    requires |s| > |tags| && forall tag :: tag in s ==> tag in tags
    ensures i < j < |s| && s[i] == s[j]
    decreases |tags|
  {
    assert s[0] in s;
    var rest, last := tags[..|tags| - 1], tags[|tags| - 1];
    assert tags == rest + [last];
    if k: nat :| k < |s| && s[k] == last {
      if l: nat :| l < |s| && s[l] == last && l != k {
        i, j := if k < l then k else l, if k < l then l else k;
      } else {
        var others := RemoveOnly(s, last, k);
        forall tag | tag in others ensures tag in tags { assert tag in s; }
        OthersAreListed(others, tags, last, rest);
        i, j := EnteredTwice(others, rest);
        i, j := if i < k then i else i + 1, if j < k then j else j + 1;
      }
    } else {
      OthersAreListed(s, tags, last, rest);
      i, j := EnteredTwice(s, rest);
    }
  }

  /** Every move goes to a listed tag. */
  ghost predicate MovesInto(move: string -> Option<string>, tags: seq<string>) {
    forall tag :: move(tag).Some? ==> move(tag).value in tags
  }

  /** A walk that has not rested so far and is longer than the list comes back to a tag. */
  lemma ComesBack(move: string -> Option<string>, current: string, tags: seq<string>) returns (i: nat, j: nat)
    requires MovesInto(move, tags) && !RestsAt(move, current, |tags| + 1)
    ensures i < j && Walk(move, current, i) == Walk(move, current, j) && !RestsAt(move, current, j)
  {
    var n := |tags| + 1;
    var visited := seq(n, k requires 0 <= k < n => Walk(move, current, k + 1));
    forall tag | tag in visited ensures tag in tags {
      var k :| 0 <= k < n && visited[k] == tag;
      if RestsAt(move, current, k) { RestIsKept(move, current, k, n); }
    }
    i, j := EnteredTwice(visited, tags);
    i, j := i + 1, j + 1;
    if RestsAt(move, current, j) { RestIsKept(move, current, j, n); }
  }

  /** Walking over a fixed list comes to an end if and only if it has after as many moves as there are
      tags, and one. */
  lemma WalkEndsIff(move: string -> Option<string>, current: string, tags: seq<string>)
    requires MovesInto(move, tags)
    ensures (exists n :: RestsAt(move, current, n)) <==> RestsAt(move, current, |tags| + 1)
  {
    if !RestsAt(move, current, |tags| + 1) {
      var i, j := ComesBack(move, current, tags);
      forall n ensures !RestsAt(move, current, n) { NeverRests(move, current, i, j, n); }
    }
  }

  function Move(repository: string, tags: seq<string>): string -> Option<string> {
    tag => Choose(repository, tag, tags)
  }

  /** Repeated choice over a fixed list, whatever is in it, comes to an end if and only if it has after
      as many moves as there are tags, and one. */
  lemma SettlesIff(repository: string, current: string, tags: seq<string>)
    ensures (exists n :: RestsAt(Move(repository, tags), current, n)) <==>
            RestsAt(Move(repository, tags), current, |tags| + 1)
  {
    var move := Move(repository, tags);
    forall tag | move(tag).Some? ensures move(tag).value in tags { ChosenIsListed(repository, tag, tags); }
    WalkEndsIff(move, current, tags);
  }

  // ----- Going round -----

  /** `tag` is a digit, a dash and a letter, and nothing or a new line after them. */
  predicate Starts(tag: string, d: char, c: char) {
    |tag| >= 3 && IsDigit(d) && tag[0] == d && tag[1] == '-' && tag[2] == c && (c == 'a' || c == 'b') &&
    (|tag| == 3 || tag[3] == '\n')
  }

  lemma NumberOfDigit(d: char)
    requires IsDigit(d)
    ensures Numbers([[d]]) == [DigitValue(d)]
  {
    assert [d][..0] == "" && Number([d]) == DigitValue(d);
  }

  lemma StartMatches(tag: string, d: char, c: char)
    requires Starts(tag, d, c)
    ensures MatchAt(tag, 0) == Some(TagVersion("", [d], [DigitValue(d)], ['-', c]))
  {
    assert DigitsEnd(tag, 0) == 1 && ReleaseEnd(tag, 0) == 1;
    assert tag[0..1] == [d] && Components(tag, 0) == [[d]];
    NumberOfDigit(d);
    assert LineEnd(tag, 1) == 3;
    assert tag[1..3] == ['-', c] && tag[..0] == "";
  }

  lemma StartParses(tag: string, d: char, c: char)
    requires Starts(tag, d, c)
    ensures ParseTag(tag) == Some(TagVersion("", [d], [DigitValue(d)], ['-', c]))
    ensures RankOf(tag) == Some(Rank(1, [DigitValue(d)], 2))
  {
    StartMatches(tag, d, c);
    assert FirstMatch(tag, 0) == Some(0);
    assert !HasReleaseStamp(tag) by { assert |tag| >= 8 ==> tag[..8][0] == tag[0]; }
  }

  lemma SameStart(repository: string, current: string, tag: string, d: char, c: char, e: char, f: char)
    requires Starts(current, d, c) && Starts(tag, e, f) && (d == e <==> c == f)
    ensures SameVariant(repository, current, tag) <==> d == e
  {
    StartParses(current, d, c);
    StartParses(tag, e, f);
    assert ['-', c][1] == c && ['-', f][1] == f;
  }

  function Digit(k: nat): char {
    if k % 2 == 0 then '1' else '2'
  }

  function Letter(k: nat): char {
    if k % 2 == 0 then 'a' else 'b'
  }

  /** In turn, the tags start with `1-a` and `2-b`. */
  ghost predicate HasStarts(tags: seq<string>) {
    |tags| == 4 && forall k :: 0 <= k < 4 ==> Starts(tags[k], Digit(k), Letter(k))
  }

  /** Only `only` pins the tag `current`. */
  ghost predicate PinnedBy(tags: seq<string>, current: string, only: nat) {
    only < |tags| && forall k :: 0 <= k < |tags| ==> (Pins(current, tags[k]) <==> k == only)
  }

  /** Among kept tags of one rank, the first is the choice. */
  lemma FirstOfRank(tags: seq<string>, keep: string -> bool, k: nat, rank: Rank)
    requires k < |tags| && keep(tags[k])
    requires forall j :: 0 <= j < |tags| && keep(tags[j]) ==> RankOf(tags[j]) == Some(rank) && k <= j
    ensures Best(Filter(tags, keep)) == Some(tags[k])
  {
    RanksTotallyOrdered(rank, rank, rank);
    FirstGreatestIsBest(tags, keep, k);
  }

  function RankAt(k: nat): Rank {
    Rank(1, [DigitValue(Digit(k))], 2)
  }

  lemma KeptAlike(repository: string, tags: seq<string>, current: string, p: nat, j: nat)
    requires HasStarts(tags) && p < 2 && Starts(current, Digit(p), Letter(p)) && j < 4
    ensures SameVariant(repository, current, tags[j]) <==> j % 2 == p
    ensures j % 2 == p ==> RankOf(tags[j]) == Some(RankAt(p))
  {
    SameStart(repository, current, tags[j], Digit(p), Letter(p), Digit(j), Letter(j));
    StartParses(tags[j], Digit(j), Letter(j));
  }

  lemma KeptRank(repository: string, tags: seq<string>, current: string, p: nat, j: nat)
    requires HasStarts(tags) && p < 2 && Starts(current, Digit(p), Letter(p))
    requires j < 4 && SameVariant(repository, current, tags[j])
    ensures RankOf(tags[j]) == Some(RankAt(p)) && p <= j
  {
    KeptAlike(repository, tags, current, p, j);
  }

  /** From any tag with such a start, the choice is the first listed one of that start. */
  lemma FirstOfVariant(repository: string, tags: seq<string>, current: string, p: nat)
    requires HasStarts(tags) && p < 2 && Starts(current, Digit(p), Letter(p))
    ensures BestSameVariant(repository, current, tags) == Some(tags[p])
  {
    var keep := VariantOf(repository, current);
    KeptAlike(repository, tags, current, p, p);
    forall j | 0 <= j < 4 && keep(tags[j]) ensures RankOf(tags[j]) == Some(RankAt(p)) && p <= j {
      KeptRank(repository, tags, current, p, j);
    }
    FirstOfRank(tags, keep, p, RankAt(p));
  }

  lemma OnlyPinned(tags: seq<string>, current: string, only: nat)
    requires HasStarts(tags) && PinnedBy(tags, current, only)
    ensures BestPinned(current, tags) == Some(tags[only])
  {
    StartParses(tags[only], Digit(only), Letter(only));
    FirstOfRank(tags, PinsOf(current), only, RankAt(only));
  }

  lemma MovesInVariant(repository: string, current: string, tags: seq<string>, next: string)
    requires BestSameVariant(repository, current, tags) == Some(next) && next != current
    ensures Choose(repository, current, tags) == Some(next)
  {
  }

  lemma MovesToPinning(repository: string, current: string, tags: seq<string>, next: string)
    requires BestSameVariant(repository, current, tags) == Some(current)
    requires BestPinned(current, tags) == Some(next) && next != current
    ensures Choose(repository, current, tags) == Some(next)
  {
  }

  /** From a listed first tag to the one that pins it. */
  lemma ToPinning(repository: string, tags: seq<string>, p: nat, pinning: string)
    requires HasStarts(tags) && p < 2 && pinning == tags[3 - p] && PinnedBy(tags, tags[p], 3 - p) && pinning != tags[p]
    ensures Choose(repository, tags[p], tags) == Some(pinning)
  {
    FirstOfVariant(repository, tags, tags[p], p);
    OnlyPinned(tags, tags[p], 3 - p);
    MovesToPinning(repository, tags[p], tags, pinning);
  }

  /** And from there to the first tag of its own start. */
  lemma ToFirst(repository: string, tags: seq<string>, p: nat, pinning: string)
    requires HasStarts(tags) && p < 2 && Starts(pinning, Digit(p), Letter(p)) && pinning != tags[p]
    ensures Choose(repository, pinning, tags) == Some(tags[p])
  {
    FirstOfVariant(repository, tags, pinning, p);
    MovesInVariant(repository, pinning, tags, tags[p]);
  }

  lemma BrokenTags(tags: seq<string>)
    requires tags == ["1-a", "2-b", "1-a\n-2-b", "2-b\n-1-a"]
    ensures HasStarts(tags) && PinnedBy(tags, tags[0], 3) && PinnedBy(tags, tags[1], 2)
    ensures tags[3] != tags[0] && tags[3] != tags[1] && tags[2] != tags[0] && tags[2] != tags[1]
  {
    assert tags[2][4..] == "-2-b" && tags[3][4..] == "-1-a";
    assert "-" + tags[0] == "-1-a" && "-" + tags[1] == "-2-b";
    assert tags[2][4..][1] == '2' && tags[3][4..][1] == '1' && "-1-a"[1] == '1' && "-2-b"[1] == '2';
  }

  /** With line breaks in the list the updater moves for ever: from `2-b` to the tag that pins it,
      from there to `1-a`, to the tag that pins that, and back. */
  lemma LineBreaksGoRound(repository: string) returns (tags: seq<string>)
    ensures |tags| == 4
    ensures Choose(repository, tags[1], tags) == Some(tags[2]) && Choose(repository, tags[2], tags) == Some(tags[0])
    ensures Choose(repository, tags[0], tags) == Some(tags[3]) && Choose(repository, tags[3], tags) == Some(tags[1])
  {
    tags := ["1-a", "2-b", "1-a\n-2-b", "2-b\n-1-a"];
    BrokenTags(tags);
    ToPinning(repository, tags, 1, tags[2]);
    ToFirst(repository, tags, 0, tags[2]);
    ToPinning(repository, tags, 0, tags[3]);
    ToFirst(repository, tags, 1, tags[3]);
  }
}
