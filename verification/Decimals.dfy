/** Numbers and release numbers written with the digits `0` to `9`. */
module Decimals {
  import opened Text
  import opened Versions

  // ----- Numbers -----

  predicate IsNumber(s: string) {
    s != "" && forall k :: 0 <= k < |s| ==> '0' <= s[k] <= '9'
  }

  predicate BelowAsTextAt(x: string, y: string, i: nat) {
    i < |x| && i < |y| && x[..i] == y[..i] && x[i] < y[i]
  }

  /** `x` is below `y` at the first character where they differ. */
  ghost predicate BelowAsText(x: string, y: string) {
    exists i: nat :: BelowAsTextAt(x, y, i)
  }

  function Power10(n: nat): nat {
    if n == 0 then 1 else 10 * Power10(n - 1)
  }

  lemma {:induction false} DigitsOrder(x: string, y: string) returns (i: nat)
    requires |x| == |y| && (forall k :: 0 <= k < |x| ==> '0' <= x[k] <= '9') &&
             forall k :: 0 <= k < |y| ==> '0' <= y[k] <= '9'
    ensures if Number(x) == Number(y) then x == y
            else if Number(x) < Number(y) then BelowAsTextAt(x, y, i) else BelowAsTextAt(y, x, i)
  {
    i := 0;
    if x != "" {
      var n := |x| - 1;
      i := DigitsOrder(x[..n], y[..n]);
      if Number(x[..n]) == Number(y[..n]) {
        i := n;
        assert x == x[..n] + [x[n]] && y == y[..n] + [y[n]];
      } else {
        assert x[..n][..i] == x[..i] && y[..n][..i] == y[..i];
      }
    }
  }

  lemma {:induction false} NumberIsBounded(x: string)
    requires IsNumber(x)
    ensures Number(x) < Power10(|x|) && (x[0] != '0' ==> Power10(|x| - 1) <= Number(x))
  {
    if |x| > 1 { NumberIsBounded(x[..|x| - 1]); } else { assert Number(x[..0]) == 0; }
  }

  lemma {:induction false} PowersGrow(n: nat, m: nat)
    requires n <= m
    ensures Power10(n) <= Power10(m)
  {
    if n < m { PowersGrow(n, m - 1); }
  }

  lemma TextsDifferOnce(x: string, y: string, i: nat, j: nat)
    requires BelowAsTextAt(x, y, i) && i < j < |x| && j < |y|
    ensures x[..j] != y[..j]
  {
    assert x[..j][i] == x[i] && y[..j][i] == y[i];
  }

  lemma TextOrder(x: string, y: string)
    requires BelowAsText(x, y)
    ensures !BelowAsText(y, x) && x != y
  {
    var i: nat :| BelowAsTextAt(x, y, i);
    forall j: nat ensures !BelowAsTextAt(y, x, j) {
      if i < j < |x| && j < |y| { TextsDifferOnce(x, y, i, j); }
      if BelowAsTextAt(y, x, j) && j < i { TextsDifferOnce(y, x, j, i); }
    }
  }

  /** Numbers of one length compare as their text does, and a longer one without leading zero is larger. */
  lemma NumbersCompare(x: string, y: string)
    requires IsNumber(x) && IsNumber(y)
    ensures |x| == |y| ==> (Number(x) < Number(y) <==> BelowAsText(x, y)) && (Number(x) == Number(y) <==> x == y)
    ensures |x| < |y| && y[0] != '0' ==> Number(x) < Number(y)
  {
    if |x| == |y| {
      var i := DigitsOrder(x, y);
      if BelowAsText(x, y) { TextOrder(x, y); }
      if BelowAsText(y, x) { TextOrder(y, x); }
    } else if |x| < |y| && y[0] != '0' {
      NumberIsBounded(x);
      NumberIsBounded(y);
      PowersGrow(|x|, |y| - 1);
    }
  }

  /** Leading zeros do not count. */
  lemma {:induction false} LeadingZero(x: string)
    requires IsNumber(x) && x[0] == '0'
    ensures Number(x) == Number(x[1..])
  {
    var n := |x| - 1;
    if n > 0 {
      LeadingZero(x[..n]);
      assert x[1..][..n - 1] == x[..n][1..] && x[1..][n - 1] == x[n];
    } else {
      assert Number(x[..0]) == 0 && x[1..] == "";
    }
  }

  // ----- Numbers with dots -----

  ghost predicate AreNumbers(parts: seq<string>) {
    parts != [] && forall k :: 0 <= k < |parts| ==> IsNumber(parts[k])
  }

  /** The numbers with dots between them. */
  function Dotted(parts: seq<string>): string
    requires parts != []
  {
    if |parts| == 1 then parts[0] else parts[0] + ("." + Dotted(parts[1..]))
  }

  lemma PartsOf(before: string, s: string, after: string, tag: string)
    requires tag == before + s + after
    ensures |tag| == |before| + |s| + |after|
    ensures tag[..|before|] == before && tag[|before|..|before| + |s|] == s && tag[|before| + |s|..] == after
  {
  }

  lemma SpelledSlice(s: string, tag: string, d: nat, q: nat, parts: seq<string>)
    requires d <= q <= |tag| && tag[d..q] == s && Spells(s, 0, |s|, parts)
    ensures Spells(tag, d, q, parts)
  {
    forall k | 0 <= k < |s| ensures tag[k + d] == s[k] { assert tag[d..q][k] == tag[k + d]; }
    SpellsElsewhere(s, 0, |s|, tag, d, parts);
  }

  lemma SpellsMore(parts: seq<string>, e: nat, s: string)
    requires |parts| > 1 && IsComponent(parts[0]) && e == |parts[0]| < |s| && s[0..e] == parts[0] && s[e] == '.'
    requires Spells(s, e + 1, |s|, parts[1..])
    ensures Spells(s, 0, |s|, parts)
  {
    SpelledCharacters(s, e + 1, |s|, parts[1..]);
  }

  lemma DotBetween(first: string, rest: string, s: string)
    requires s == first + ("." + rest)
    ensures |s| == |first| + 1 + |rest|
    ensures s[0..|first|] == first && s[|first|] == '.' && s[|first| + 1..|s|] == rest
  {
    assert s[|first| + 1..|s|] == ("." + rest)[1..] == rest;
  }

  lemma SpellsWithDot(parts: seq<string>, first: string, rest: string, s: string)
    requires |parts| > 1 && first == parts[0] && IsNumber(first) && Spells(rest, 0, |rest|, parts[1..])
    requires s == first + ("." + rest)
    ensures Spells(s, 0, |s|, parts)
  {
    DotBetween(first, rest, s);
    SpelledSlice(rest, s, |first| + 1, |s|, parts[1..]);
    SpellsMore(parts, |first|, s);
  }

  lemma {:induction false} DottedIsSpelled(parts: seq<string>)
    requires AreNumbers(parts)
    ensures Spells(Dotted(parts), 0, |Dotted(parts)|, parts)
  {
    if |parts| > 1 {
      DottedIsSpelled(parts[1..]);
      SpellsWithDot(parts, parts[0], Dotted(parts[1..]), Dotted(parts));
    }
  }

  lemma DottedInText(tag: string, d: nat, q: nat, parts: seq<string>)
    requires AreNumbers(parts) && d <= q <= |tag| && tag[d..q] == Dotted(parts)
    ensures d < q && Spells(tag, d, q, parts) && IsDigit(tag[d])
  {
    DottedIsSpelled(parts);
    SpelledSlice(Dotted(parts), tag, d, q, parts);
    SpelledCharacters(tag, d, q, parts);
  }
}
