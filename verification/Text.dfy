/** Character classes, maximal runs and searching on strings. */
module Text {
  predicate IsDigit(c: char) {
    '0' <= c <= '9'
  }

  predicate IsLetterOrDigit(c: char) {
    'a' <= c <= 'z' || 'A' <= c <= 'Z' || IsDigit(c)
  }

  /** A character that `\b` takes as part of a word. */
  predicate IsWord(c: char) {
    IsLetterOrDigit(c) || c == '_'
  }

  /** Where the line that `i` is on ends. */
  function LineEnd(s: string, i: nat): (e: nat)
    requires i <= |s|
    ensures i <= e <= |s| && (forall k :: i <= k < e ==> s[k] != '\n') && (e < |s| ==> s[e] == '\n')
    decreases |s| - i
  {
    if i < |s| && s[i] != '\n' then LineEnd(s, i + 1) else i
  }

  predicate AllDigits(s: string) {
    forall i :: 0 <= i < |s| ==> IsDigit(s[i])
  }

  function DigitValue(c: char): nat {
    if IsDigit(c) then (c - '0') as nat else 0
  }

  /** The number that a string of decimal digits denotes. */
  function Number(digits: string): nat {
    if digits == "" then 0 else 10 * Number(digits[..|digits| - 1]) + DigitValue(digits[|digits| - 1])
  }

  lemma PrependAssociates(c: char, a: string, b: string)
    ensures [c] + (a + b) == ([c] + a) + b
  {
  }

  function Lower(c: char): char {
    if 'A' <= c <= 'Z' then 'a' + (c - 'A') else c
  }

  function LowerCase(s: string): string {
    seq(|s|, i requires 0 <= i < |s| => Lower(s[i]))
  }

  // ----- Searching -----

  /** The first `c` in `s` from `i` on, or the length of `s`. */
  function FirstIndexFrom(s: string, c: char, i: nat): (f: nat)
    requires i <= |s|
    ensures i <= f <= |s| && (f < |s| ==> s[f] == c) && forall k :: i <= k < f ==> s[k] != c
    decreases |s| - i
  {
    if i == |s| || s[i] == c then i else FirstIndexFrom(s, c, i + 1)
  }

  function FirstIndex(s: string, c: char): (f: nat)
    ensures f <= |s| && (f < |s| ==> s[f] == c) && forall k :: 0 <= k < f ==> s[k] != c
  {
    FirstIndexFrom(s, c, 0)
  }

  /** The last `c` in `s`, or -1. */
  function LastIndex(s: string, c: char): (i: int)
    ensures -1 <= i < |s| && (i >= 0 ==> s[i] == c) && forall k :: i < k < |s| ==> s[k] != c
  {
    if s == "" then -1
    else if s[|s| - 1] == c then |s| - 1
    else LastIndex(s[..|s| - 1], c)
  }

  lemma FirstIndexOfNone(s: string, c: char)
    requires c !in s
    ensures FirstIndex(s, c) == |s|
  {
  }

  lemma FirstIndexIs(s: string, c: char, i: nat)
    requires i < |s| && s[i] == c && forall k :: 0 <= k < i ==> s[k] != c
    ensures FirstIndex(s, c) == i
  {
  }

  lemma LastIndexIs(s: string, c: char, i: int)
    requires 0 <= i < |s| && s[i] == c && forall k :: i < k < |s| ==> s[k] != c
    ensures LastIndex(s, c) == i
  {
  }

  // ----- Names -----

  predicate IsNameChar(c: char) {
    IsLetterOrDigit(c) || c == '_' || c == '.' || c == '-'
  }

  function NameEnd(s: string, i: nat): (e: nat)
    requires i <= |s|
    ensures i <= e <= |s| && (forall k :: i <= k < e ==> IsNameChar(s[k])) && (e < |s| ==> !IsNameChar(s[e]))
    decreases |s| - i
  {
    if i < |s| && IsNameChar(s[i]) then NameEnd(s, i + 1) else i
  }

  // ----- White space -----

  /** What Python's `str.isspace`, and with it `\s` and `str.strip`, takes as white space. */
  predicate IsSpace(c: char) {
    '\U{0009}' <= c <= '\U{000D}' || '\U{001C}' <= c <= '\U{0020}' || c == '\U{0085}' || c == '\U{00A0}' ||
    c == '\U{1680}' ||
    '\U{2000}' <= c <= '\U{200A}' || c == '\U{2028}' || c == '\U{2029}' || c == '\U{202F}' || c == '\U{205F}' ||
    c == '\U{3000}'
  }

  /** Where the white space at `i` ends. */
  function SpaceEnd(s: string, i: nat): (e: nat)
    requires i <= |s|
    ensures i <= e <= |s| && (forall k :: i <= k < e ==> IsSpace(s[k])) && (e < |s| ==> !IsSpace(s[e]))
    decreases |s| - i
  {
    if i < |s| && IsSpace(s[i]) then SpaceEnd(s, i + 1) else i
  }

  function TrimEnd(s: string): (r: string)
    ensures r <= s && (r != "" ==> !IsSpace(r[|r| - 1])) && forall k :: |r| <= k < |s| ==> IsSpace(s[k])
  {
    if s != "" && IsSpace(s[|s| - 1]) then TrimEnd(s[..|s| - 1]) else s
  }

  function Strip(s: string): string {
    TrimEnd(s[SpaceEnd(s, 0)..])
  }

  lemma TrimEndOfTrimmed(s: string)
    requires s == "" || !IsSpace(s[|s| - 1])
    ensures TrimEnd(s) == s
  {
  }

  /** `s` with `m` in place of what stands from `p` to `q`. */
  function Splice(s: string, p: nat, q: nat, m: string): string
    requires p <= q <= |s|
  {
    s[..p] + m + s[q..]
  }

  lemma SpliceBefore(s: string, p: nat, q: nat, m: string)
    requires p <= q <= |s|
    ensures |Splice(s, p, q, m)| == p + |m| + (|s| - q) && forall j :: 0 <= j < p ==> Splice(s, p, q, m)[j] == s[j]
  {
  }

  lemma SpliceMiddle(s: string, p: nat, q: nat, m: string)
    requires p <= q <= |s|
    ensures Splice(s, p, q, m)[p..p + |m|] == m
  {
  }

  lemma SpliceRest(s: string, p: nat, q: nat, m: string, i: nat)
    requires p <= q <= i <= |s|
    ensures Splice(s, p, q, m)[i - q + p + |m|..] == s[i..]
  {
  }

  lemma SpliceSame(s: string, p: nat, q: nat)
    requires p <= q <= |s|
    ensures Splice(s, p, q, s[p..q]) == s
  {
  }

  lemma DropDrop(s: string, i: nat, j: nat)
    requires i + j <= |s|
    ensures s[i..][j..] == s[i + j..]
  {
  }

  lemma SliceOfPrefix(s: string, n: nat, b: nat, e: nat)
    requires b <= e <= n <= |s|
    ensures s[..n][b..e] == s[b..e]
  {
  }

  lemma SliceOfRest(s: string, g: nat, i: nat, j: nat)
    requires g <= i <= j <= |s|
    ensures s[g..][i - g..j - g] == s[i..j]
  {
  }

  lemma AppendAssociates<T>(a: seq<T>, b: seq<T>, c: seq<T>)
    ensures a + (b + c) == (a + b) + c
  {
  }

  lemma ConsPrefix(c: char, a: string, b: string)
    requires a <= b
    ensures [c] + a <= [c] + b
  {
  }

  lemma ConsSlice(s: string, i: nat, j: nat)
    requires i < j <= |s|
    ensures s[i..j] == [s[i]] + s[i + 1..j] && s[i..] == [s[i]] + s[i + 1..]
  {
  }

  lemma SliceOfSlice(s: string, i: nat, n: nat, a: nat, b: nat)
    requires a <= b <= n && i + n <= |s|
    ensures s[i..i + n][a..b] == s[i + a..i + b]
  {
    var t := s[i..i + n];
    assert |t[a..b]| == |s[i + a..i + b]|;
    assert forall k :: 0 <= k < b - a ==> t[a..b][k] == t[a + k] == s[i + a + k] == s[i + a..i + b][k];
  }
}
