/** Release numbers: decimal components separated by dots. */
module Versions {
  import opened Text

  // ----- The language -----

  predicate IsComponent(s: string) {
    s != "" && AllDigits(s)
  }

  /** `s[i..j]` is the text of exactly these components. */
  predicate Spells(s: string, i: nat, j: nat, parts: seq<string>)
    decreases |parts|
  {
    parts != [] && IsComponent(parts[0]) && i + |parts[0]| <= j <= |s| && s[i..i + |parts[0]|] == parts[0] &&
    var e := i + |parts[0]|;
    if |parts| == 1 then e == j
    else e < j && s[e] == '.' && Spells(s, e + 1, j, parts[1..])
  }

  /** The integers the components denote. */
  function Numbers(parts: seq<string>): seq<nat> {
    seq(|parts|, i requires 0 <= i < |parts| => Number(parts[i]))
  }

  lemma {:induction false} SpelledCharacters(s: string, i: nat, j: nat, parts: seq<string>)
    requires Spells(s, i, j, parts)
    ensures i < j && IsDigit(s[i]) && forall k :: i <= k < j ==> IsDigit(s[k]) || s[k] == '.'
    decreases |parts|
  {
    var e := i + |parts[0]|;
    assert forall k :: i <= k < e ==> s[k] == s[i..e][k - i];
    if |parts| > 1 {
      SpelledCharacters(s, e + 1, j, parts[1..]);
    }
  }

  /** Only the text itself matters, not where it stands. */
  lemma {:induction false} SpellsElsewhere(s: string, i: nat, j: nat, t: string, shift: int, parts: seq<string>)
    requires Spells(s, i, j, parts)
    requires 0 <= i + shift && j + shift <= |t| && forall k :: i <= k < j ==> t[k + shift] == s[k]
    ensures Spells(t, i + shift, j + shift, parts)
    decreases |parts|
  {
    var e := i + |parts[0]|;
    assert t[i + shift..e + shift] == s[i..e];
    if |parts| > 1 {
      SpellsElsewhere(s, e + 1, j, t, shift, parts[1..]);
    }
  }

  // ----- The matcher -----

  function DigitsEnd(s: string, i: nat): (e: nat)
    requires i <= |s|
    ensures i <= e <= |s| && (forall k :: i <= k < e ==> IsDigit(s[k])) && (e < |s| ==> !IsDigit(s[e]))
    decreases |s| - i
  {
    if i < |s| && IsDigit(s[i]) then DigitsEnd(s, i + 1) else i
  }

  predicate Continues(s: string, e: nat) {
    e + 1 < |s| && s[e] == '.' && IsDigit(s[e + 1])
  }

  /** The end of the longest release number at `i`; `i` itself if there is no digit. */
  function ReleaseEnd(s: string, i: nat): (j: nat)
    requires i <= |s|
    ensures i <= j <= |s|
    decreases |s| - i
  {
    var e := DigitsEnd(s, i);
    if i < e && Continues(s, e) then ReleaseEnd(s, e + 1) else e
  }

  function Components(s: string, i: nat): seq<string>
    requires i <= |s|
    decreases |s| - i
  {
    var e := DigitsEnd(s, i);
    if i == e then []
    else if Continues(s, e) then [s[i..e]] + Components(s, e + 1)
    else [s[i..e]]
  }

  /** No digit follows at `j`, and no dot with a digit after it. */
  predicate EndsAt(s: string, j: nat) {
    (j < |s| ==> !IsDigit(s[j])) && !Continues(s, j)
  }

  lemma ReleaseUnfolds(s: string, i: nat, e: nat)
    requires i < e <= |s| && e == DigitsEnd(s, i)
    ensures ReleaseEnd(s, i) == if Continues(s, e) then ReleaseEnd(s, e + 1) else e
    ensures Components(s, i) == if Continues(s, e) then [s[i..e]] + Components(s, e + 1) else [s[i..e]]
  {
  }

  lemma SpellsOneMore(s: string, i: nat, e: nat, j: nat, rest: seq<string>)
    requires i < e <= |s| && e == DigitsEnd(s, i) && Continues(s, e) && Spells(s, e + 1, j, rest)
    ensures Spells(s, i, j, [s[i..e]] + rest)
  {
    assert ([s[i..e]] + rest)[1..] == rest;
  }

  lemma SpellsOne(s: string, i: nat, e: nat)
    requires i < e <= |s| && e == DigitsEnd(s, i)
    ensures Spells(s, i, e, [s[i..e]])
  {
  }

  /** Where the release number ends, and that nothing continues it, once there is a digit. */
  lemma {:induction false} DigitsAreRelease(s: string, i: nat)
    requires i < |s| && IsDigit(s[i])
    ensures i < ReleaseEnd(s, i) && Spells(s, i, ReleaseEnd(s, i), Components(s, i)) && EndsAt(s, ReleaseEnd(s, i))
    decreases |s| - i
  {
    var e := DigitsEnd(s, i);
    ReleaseUnfolds(s, i, e);
    if Continues(s, e) {
      DigitsAreRelease(s, e + 1);
      SpellsOneMore(s, i, e, ReleaseEnd(s, e + 1), Components(s, e + 1));
    } else {
      SpellsOne(s, i, e);
    }
  }

  lemma MatcherFindsRelease(s: string, i: nat)
    requires i <= |s|
    ensures ReleaseEnd(s, i) == i <==> i == |s| || !IsDigit(s[i])
    ensures ReleaseEnd(s, i) != i ==> Spells(s, i, ReleaseEnd(s, i), Components(s, i)) && EndsAt(s, ReleaseEnd(s, i))
  {
    if i < |s| && IsDigit(s[i]) { DigitsAreRelease(s, i); }
  }

  lemma FirstComponentEnds(s: string, i: nat, j: nat, parts: seq<string>)
    requires Spells(s, i, j, parts) && EndsAt(s, j)
    ensures DigitsEnd(s, i) == i + |parts[0]| && s[i..i + |parts[0]|] == parts[0] && parts[0] != ""
    ensures |parts| == 1 ==> j == i + |parts[0]|
    ensures |parts| > 1 ==> Continues(s, i + |parts[0]|) && Spells(s, i + |parts[0]| + 1, j, parts[1..])
  {
  }

  lemma OneMoreComponent(s: string, i: nat, e: nat, j: nat, parts: seq<string>)
    requires i < e <= |s| && e == DigitsEnd(s, i) && Continues(s, e) && parts != [] && s[i..e] == parts[0]
    requires j == ReleaseEnd(s, e + 1) && parts[1..] == Components(s, e + 1)
    ensures j == ReleaseEnd(s, i) && parts == Components(s, i)
  {
  }

  lemma LastComponent(s: string, i: nat, e: nat, parts: seq<string>)
    requires i < e <= |s| && e == DigitsEnd(s, i) && !Continues(s, e) && |parts| == 1 && s[i..e] == parts[0]
    ensures e == ReleaseEnd(s, i) && parts == Components(s, i)
  {
  }

  /** The match is greedy and the only one that ends where no further digit or component follows. */
  lemma {:induction false} ReleaseIsUnique(s: string, i: nat, j: nat, parts: seq<string>)
    requires Spells(s, i, j, parts) && EndsAt(s, j)
    ensures j == ReleaseEnd(s, i) && parts == Components(s, i)
    decreases |parts|
  {
    FirstComponentEnds(s, i, j, parts);
    var e := i + |parts[0]|;
    if |parts| > 1 {
      ReleaseIsUnique(s, e + 1, j, parts[1..]);
      OneMoreComponent(s, i, e, j, parts);
    } else {
      LastComponent(s, i, e, parts);
    }
  }
}
