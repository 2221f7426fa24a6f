/**
 One dependency requirement: its name part, its specifier, and the raising of its lower bound.
 */
module Requirements {
  import opened Prelude
  import opened Text
  import opened VersionOrder

  // ----- Taking a requirement apart -----

  datatype Requirement = Requirement(name: string, extras: string, specifier: string, marker: Option<string>)

  /** The length of the bracketed extras at the start of `s`; brackets around nothing do not match. */
  function ExtrasLen(s: string): (n: nat)
    ensures n <= |s|
  {
    var close := FirstIndex(s, ']');
    if s != "" && s[0] == '[' && 2 <= close < |s| then close + 1 else 0
  }

  /** The length of the name and the extras at the start of `s`, either of which may be empty. */
  function NamePart(s: string): (n: nat)
    ensures n <= |s|
  {
    NameEnd(s, 0) + ExtrasLen(s[NameEnd(s, 0)..])
  }

  function MarkerOf(text: string): Option<string> {
    var semicolon := FirstIndex(text, ';');
    if semicolon < |text| then Some(text[semicolon + 1..]) else None
  }

  function ReadMain(main: string, marker: Option<string>): Option<Requirement> {
    var n, x := NameEnd(main, 0), NamePart(main);
    if n == 0 then None else Some(Requirement(main[..n], main[n..x], Strip(main[x..]), marker))
  }

  function Read(text: string): Option<Requirement> {
    ReadMain(text[..FirstIndex(text, ';')], MarkerOf(text))
  }

  function Marked(main: string, marker: Option<string>): string {
    match marker
    case None => main
    case Some(m) => main + ";" + m
  }

  function Written(r: Requirement): string {
    Marked(r.name + r.extras + r.specifier, r.marker)
  }

  // ----- Version values inside a specifier -----

  predicate IsStop(c: char) {
    c == ',' || c == ';' || c == ' '
  }

  /** Where the version text at `b` ends. */
  function RunEnd(s: string, b: nat): (e: nat)
    requires b <= |s|
    ensures b <= e <= |s| && (forall k :: b <= k < e ==> !IsStop(s[k])) && (e < |s| ==> IsStop(s[e]))
    decreases |s| - b
  {
    if b < |s| && !IsStop(s[b]) then RunEnd(s, b + 1) else b
  }

  /** The last character from `i` to `q` that is not a blank, or `q`. */
  function LastNonBlank(s: string, i: nat, q: nat): (j: nat)
    requires i <= q <= |s|
    ensures i <= j <= q && (j < q ==> s[j] != ' ') && forall k :: i <= k < q && (j < k || j == q) ==> s[k] == ' '
    decreases q - i
  {
    if i == q then q
    else
      var j := LastNonBlank(s, i + 1, q);
      if j < q || s[i] == ' ' then j else i
  }

  /** Where optional white space followed by a version text ends the white space: the longest
      white space that leaves a version text behind it. */
  function ValueStart(s: string, i: nat): (b: Option<nat>)
    requires i <= |s|
    ensures b.Some? ==> i <= b.value < |s| && !IsStop(s[b.value])
  {
    var q := SpaceEnd(s, i);
    if q < |s| && !IsStop(s[q]) then Some(q)
    else
      var j := LastNonBlank(s, i, q);
      if j == q then None else Some(j)
  }

  function Value(s: string, i: nat): Option<string>
    requires i <= |s|
  {
    match ValueStart(s, i)
    case None => None
    case Some(b) => Some(s[b..RunEnd(s, b)])
  }

  // ----- The lower bound -----

  /** Where the version of the lower bound at the start of `s` begins: after `>=` or, failing that, `>`. */
  function LowerStart(s: string): (b: Option<nat>)
    ensures b.Some? ==> 0 < b.value < |s| && !IsStop(s[b.value])
  {
    if s == "" || s[0] != '>' then None
    else if |s| > 1 && s[1] == '=' && ValueStart(s, 2).Some? then ValueStart(s, 2)
    else ValueStart(s, 1)
  }

  /** The length of the lower bound at the start of `s`. */
  function LowerLen(s: string): (len: nat)
    ensures len <= |s|
  {
    match LowerStart(s)
    case None => 0
    case Some(b) => RunEnd(s, b)
  }

  /** Where the first lower bound from `i` on stands, or the length of `s`. */
  function FirstLowerFrom(s: string, i: nat): (p: nat)
    requires i <= |s|
    ensures i <= p <= |s| && (p < |s| ==> LowerLen(s[p..]) > 0) && forall k :: i <= k < p ==> LowerLen(s[k..]) == 0
    decreases |s| - i
  {
    if i == |s| || LowerLen(s[i..]) > 0 then i else FirstLowerFrom(s, i + 1)
  }

  function FirstLower(s: string): nat {
    FirstLowerFrom(s, 0)
  }

  /** Where the first lower bound of `s` ends. */
  function LowerEnd(s: string): (q: nat)
    requires FirstLower(s) < |s|
    ensures FirstLower(s) < q <= |s|
  {
    FirstLower(s) + LowerLen(s[FirstLower(s)..])
  }

  lemma ValueStartCrossesNoComma(s: string, i: nat)
    requires i <= |s| && ValueStart(s, i).Some?
    ensures forall k :: i <= k < ValueStart(s, i).value ==> s[k] != ','
  {
  }

  lemma LowerLenHolds(t: string)
    requires LowerLen(t) > 0
    ensures t[0] == '>' && (LowerLen(t) < |t| ==> IsStop(t[LowerLen(t)]))
    ensures forall k :: 0 <= k < LowerLen(t) ==> t[k] != ','
  {
    if |t| > 1 && t[1] == '=' && ValueStart(t, 2).Some? {
      ValueStartCrossesNoComma(t, 2);
    } else {
      ValueStartCrossesNoComma(t, 1);
    }
  }

  lemma LowerEndHolds(s: string)
    requires FirstLower(s) < |s|
    ensures var p, q := FirstLower(s), LowerEnd(s);
            s[p] == '>' && (q < |s| ==> IsStop(s[q])) && forall k :: p <= k < q ==> s[k] != ','
  {
    var p, q := FirstLower(s), LowerEnd(s);
    LowerLenHolds(s[p..]);
    forall k | p <= k < q ensures s[k] != ',' { assert s[k] == s[p..][k - p]; }
  }

  function AtLeast(version: string): string {
    ">=" + version
  }

  function Raised(specifier: string, version: string): string {
    var i := FirstLower(specifier);
    if specifier == "" then AtLeast(version)
    else if i < |specifier| then Splice(specifier, i, LowerEnd(specifier), AtLeast(version))
    else AtLeast(version) + "," + specifier
  }

  function WithLowerBound(text: string, version: string): string {
    match Read(text)
    case None => text
    case Some(r) => Written(r.(specifier := Raised(r.specifier, version)))
  }

  // ----- The upper bounds -----

  datatype Upper = Upper(strict: bool, version: string)

  /** `<=` with a version, or failing that `<` with a version. */
  function UpperOf(inclusive: Option<string>, exclusive: Option<string>): Option<Upper> {
    match inclusive
    case Some(v) => Some(Upper(false, v))
    case None => if exclusive.Some? then Some(Upper(true, exclusive.value)) else None
  }

  /** What follows `<=` at the start of `t`, if that stands there. */
  function Inclusive(t: string): Option<string> {
    if |t| > 1 && t[1] == '=' then Value(t, 2) else None
  }

  function UpperBare(t: string): Option<Upper> {
    if t == "" || t[0] != '<' then None else UpperOf(Inclusive(t), Value(t, 1))
  }

  /** The upper bound of the clause at the start of `s`. */
  function UpperAt(s: string): Option<Upper> {
    UpperBare(s[SpaceEnd(s, 0)..])
  }

  predicate Meets(version: string, upper: Upper) {
    match CompareVersions(version, upper.version)
    case None => false
    case Some(c) => if upper.strict then c < 0 else c <= 0
  }

  predicate ClauseStart(s: string, c: int) {
    0 <= c <= |s| && (c == 0 || s[c - 1] == ',')
  }

  predicate MeetsClause(version: string, s: string) {
    UpperAt(s).Some? ==> Meets(version, UpperAt(s).value)
  }

  predicate MeetsBounds(version: string, s: string) {
    forall c :: 0 <= c <= |s| && ClauseStart(s, c) ==> MeetsClause(version, s[c..])
  }

  predicate SatisfiesUpperBounds(text: string, version: string) {
    match Read(text)
    case None => true
    case Some(r) => MeetsBounds(version, r.specifier)
  }

  // ----- Texts that agree up to a lower bound -----

  /** `s` and `t` agree up to `k`, where both go on with `>`. */
  ghost predicate Agree(s: string, t: string, k: nat) {
    k < |s| && k < |t| && (forall j :: 0 <= j <= k ==> s[j] == t[j]) && s[k] == '>'
  }

  lemma AgreeLater(s: string, t: string, k: nat, i: nat)
    requires Agree(s, t, k) && i <= k
    ensures Agree(s[i..], t[i..], k - i)
  {
  }

  lemma {:induction false} SpaceAgrees(s: string, t: string, k: nat, i: nat)
    requires Agree(s, t, k) && i <= k
    ensures SpaceEnd(s, i) == SpaceEnd(t, i) <= k
    decreases k - i
  {
    if IsSpace(s[i]) { SpaceAgrees(s, t, k, i + 1); }
  }

  lemma {:induction false} NonBlankAgrees(s: string, t: string, k: nat, i: nat, q: nat)
    requires Agree(s, t, k) && i <= q <= k
    ensures LastNonBlank(s, i, q) == LastNonBlank(t, i, q)
    decreases q - i
  {
    if i < q { NonBlankAgrees(s, t, k, i + 1, q); }
  }

  lemma ValueStartAgrees(s: string, t: string, k: nat, i: nat)
    requires Agree(s, t, k) && i <= k
    ensures ValueStart(s, i) == ValueStart(t, i) && (ValueStart(s, i).Some? ==> ValueStart(s, i).value <= k)
  {
    SpaceAgrees(s, t, k, i);
    NonBlankAgrees(s, t, k, i, SpaceEnd(s, i));
  }

  /** The version ends before `k` in both, at the same place, or reaches beyond `k` in both. */
  lemma {:induction false} RunAgrees(s: string, t: string, k: nat, b: nat)
    requires Agree(s, t, k) && b <= k
    ensures (RunEnd(s, b) == RunEnd(t, b) < k) || (RunEnd(s, b) > k && RunEnd(t, b) > k)
    decreases k - b
  {
    if b < k && !IsStop(s[b]) { RunAgrees(s, t, k, b + 1); }
  }

  lemma TextsAgree(s: string, t: string, k: nat, b: nat, e: nat, f: nat)
    requires Agree(s, t, k) && b <= k < e <= |s| && k < f <= |t|
    ensures VersionKey(s[b..e]) == VersionKey(t[b..f])
  {
    KeysAgree(s[b..e], t[b..f], k - b);
  }

  ghost predicate SameKey(a: Option<string>, b: Option<string>) {
    (a.Some? <==> b.Some?) && (a.Some? && b.Some? ==> VersionKey(a.value) == VersionKey(b.value))
  }

  /** The versions read may differ, but not in what comparing them looks at. */
  lemma ValueAgrees(s: string, t: string, k: nat, i: nat)
    requires Agree(s, t, k) && i <= k
    ensures SameKey(Value(s, i), Value(t, i))
  {
    ValueStartAgrees(s, t, k, i);
    if ValueStart(s, i).Some? {
      var b := ValueStart(s, i).value;
      RunAgrees(s, t, k, b);
      if RunEnd(s, b) < k {
        assert s[b..RunEnd(s, b)] == t[b..RunEnd(t, b)];
      } else {
        TextsAgree(s, t, k, b, RunEnd(s, b), RunEnd(t, b));
      }
    }
  }

  /** Bounds that comparing cannot tell apart. */
  ghost predicate SameBound(a: Option<Upper>, b: Option<Upper>) {
    match (a, b)
    case (None, None) => true
    case (Some(x), Some(y)) => x.strict == y.strict && VersionKey(x.version) == VersionKey(y.version)
    case _ => false
  }

  lemma BareAgrees(s: string, t: string, k: nat)
    requires Agree(s, t, k)
    ensures SameBound(UpperBare(s), UpperBare(t))
  {
    if s[0] == '<' {
      ValueAgrees(s, t, k, 1);
      if s[1] == '=' { ValueAgrees(s, t, k, 2); }
    }
  }

  lemma UpperAgrees(s: string, t: string, k: nat)
    requires Agree(s, t, k)
    ensures SameBound(UpperAt(s), UpperAt(t))
  {
    SpaceAgrees(s, t, k, 0);
    var q := SpaceEnd(s, 0);
    AgreeLater(s, t, k, q);
    BareAgrees(s[q..], t[q..], k - q);
  }

  /** Then the clause at the start asks the same of a version. */
  lemma ClauseAgrees(version: string, s: string, t: string, k: nat)
    requires Agree(s, t, k)
    ensures MeetsClause(version, s) <==> MeetsClause(version, t)
  {
    UpperAgrees(s, t, k);
  }

  lemma LowerAgrees(s: string, t: string, k: nat)
    requires Agree(s, t, k) && k > 0
    ensures LowerLen(s) == 0 <==> LowerLen(t) == 0
  {
    ValueStartAgrees(s, t, k, 1);
    if s[1] == '=' {
      ValueStartAgrees(s, t, k, 2);
    }
  }

  // ----- The written lower bound -----

  predicate IsPlainVersion(v: string) {
    v != "" &&
    forall k :: 0 <= k < |v| ==>
      !IsSpace(v[k]) && !IsStop(v[k]) && v[k] != ']' && v[k] != '"' && v[k] != '\\'
  }

  lemma {:induction false} FirstLowerIs(s: string, p: nat, i: nat)
    requires i <= p <= |s| && (p < |s| ==> LowerLen(s[p..]) > 0) && forall k :: i <= k < p ==> LowerLen(s[k..]) == 0
    ensures FirstLowerFrom(s, i) == p
    decreases p - i
  {
    if i < p { FirstLowerIs(s, p, i + 1); }
  }

  /** `s` has the lower bound `>=` and exactly this version at `p`. */
  ghost predicate ReadsBound(s: string, p: nat, v: string) {
    var e := p + 2 + |v|;
    e <= |s| && s[p..e] == AtLeast(v) && (e < |s| ==> IsStop(s[e]))
  }

  /** This is its first lower bound. */
  ghost predicate BoundAt(s: string, p: nat, v: string) {
    ReadsBound(s, p, v) && forall k :: 0 <= k < p ==> LowerLen(s[k..]) == 0
  }

  lemma {:induction false} PlainRun(v: string, s: string, i: nat, j: nat)
    requires IsPlainVersion(v) && i <= j <= i + |v| <= |s| && s[i..i + |v|] == v &&
             (i + |v| < |s| ==> IsStop(s[i + |v|]))
    ensures RunEnd(s, j) == i + |v|
    decreases i + |v| - j
  {
    if j < i + |v| {
      assert s[j] == s[i..i + |v|][j - i];
      PlainRun(v, s, i, j + 1);
    }
  }

  lemma BoundLength(t: string, v: string)
    requires IsPlainVersion(v) && ReadsBound(t, 0, v)
    ensures LowerLen(t) == 2 + |v|
  {
    var m := t[0..2 + |v|];
    assert t[0] == m[0] && t[1] == m[1] && t[2] == m[2] == v[0];
    assert t[2..2 + |v|] == m[2..] == v;
    PlainRun(v, t, 2, 2);
  }

  lemma BoundIsFirst(s: string, p: nat, v: string)
    requires IsPlainVersion(v) && BoundAt(s, p, v)
    ensures FirstLower(s) == p && LowerLen(s[p..]) == 2 + |v|
  {
    var t := s[p..];
    assert t[0..2 + |v|] == s[p..p + 2 + |v|];
    BoundLength(t, v);
    FirstLowerIs(s, p, 0);
  }

  lemma RaisedAgain(s: string, p: nat, v: string)
    requires IsPlainVersion(v) && BoundAt(s, p, v)
    ensures Raised(s, v) == s
  {
    BoundIsFirst(s, p, v);
    SpliceSame(s, p, p + 2 + |v|);
  }

  lemma BoundAfter(s: string, p: nat, v: string, i: nat)
    requires BoundAt(s, p, v) && i <= p
    ensures BoundAt(s[i..], p - i, v)
  {
  }

  // ----- Raising the lower bound of a specifier -----

  /** Where the raised specifier has its lower bound. */
  function BoundPlace(specifier: string): nat {
    var i := FirstLower(specifier);
    if i < |specifier| then i else 0
  }

  lemma SpliceReadsBound(s: string, p: nat, q: nat, v: string)
    requires p <= q <= |s| && (q < |s| ==> IsStop(s[q]))
    ensures ReadsBound(Splice(s, p, q, AtLeast(v)), p, v)
  {
  }

  lemma SpliceAgrees(s: string, p: nat, q: nat, v: string)
    requires p < q <= |s| && s[p] == '>'
    ensures Agree(s, Splice(s, p, q, AtLeast(v)), p)
  {
  }

  /** The raised specifier has exactly the new lower bound. */
  lemma RaisedHasBound(s: string, v: string)
    requires IsPlainVersion(v)
    ensures BoundAt(Raised(s, v), BoundPlace(s), v)
  {
    var x, p := Raised(s, v), FirstLower(s);
    if p < |s| {
      LowerEndHolds(s);
      SpliceReadsBound(s, p, LowerEnd(s), v);
      SpliceAgrees(s, p, LowerEnd(s), v);
      forall k | 0 <= k < p ensures LowerLen(x[k..]) == 0 {
        AgreeLater(s, x, p, k);
        LowerAgrees(s[k..], x[k..], p - k);
      }
    }
  }

  // ----- Reading what was written -----

  lemma MarkedIsRead(main: string, marker: Option<string>)
    requires ';' !in main
    ensures var text := Marked(main, marker);
            FirstIndex(text, ';') == |main| && text[..|main|] == main && MarkerOf(text) == marker &&
            Read(text) == ReadMain(main, marker)
  {
    var text := Marked(main, marker);
    match marker
    case None => FirstIndexOfNone(text, ';');
    case Some(m) =>
      assert forall k :: 0 <= k < |main| ==> text[k] == main[k];
      FirstIndexIs(text, ';', |main|);
  }

  lemma {:induction false} NameEndShifts(m: string, n: nat, s: string, i: nat)
    requires n <= |m| && m[n..] == s && i <= |s|
    ensures NameEnd(m, n + i) == n + NameEnd(s, i)
    decreases |s| - i
  {
    if i < |s| {
      assert m[n + i] == s[i];
      NameEndShifts(m, n, s, i + 1);
    }
  }

  lemma {:induction false} NameEndPasses(m: string, i: nat, n: nat)
    requires i <= n <= |m| && forall k :: i <= k < n ==> IsNameChar(m[k])
    ensures NameEnd(m, i) == NameEnd(m, n)
    decreases n - i
  {
    if i < n { NameEndPasses(m, i + 1, n); }
  }

  /** Text after a name joins it as far as it reads as a name part itself. */
  lemma NamePartJoins(m: string, n: nat, s: string)
    requires n <= |m| && m[n..] == s && forall k :: 0 <= k < n ==> IsNameChar(m[k])
    ensures NameEnd(m, 0) == n + NameEnd(s, 0) && NamePart(m) == n + NamePart(s)
  {
    NameEndPasses(m, 0, n);
    NameEndShifts(m, n, s, 0);
    DropDrop(m, n, NameEnd(s, 0));
  }

  lemma ExtrasExtend(s: string, n: nat)
    requires 0 < n <= |s| && ExtrasLen(s[..n]) == n
    ensures ExtrasLen(s) == n && s[0] == '['
  {
  }

  /** Extras keep what follows them apart. */
  lemma ExtrasEndNamePart(s: string, n: nat)
    requires 0 < n <= |s| && ExtrasLen(s[..n]) == n
    ensures NamePart(s) == n && NameEnd(s, 0) == 0
  {
    ExtrasExtend(s, n);
    assert s[0..] == s;
  }

  ghost predicate IsName(s: string) {
    s != "" && ';' !in s && forall k :: 0 <= k < |s| ==> IsNameChar(s[k])
  }

  ghost predicate IsExtras(s: string) {
    ';' !in s && (s == "" || ExtrasLen(s) == |s|)
  }

  ghost predicate IsSpecifier(s: string) {
    ';' !in s && (s == "" || (!IsSpace(s[0]) && !IsSpace(s[|s| - 1])))
  }

  /** What reading can make of a text. */
  ghost predicate IsRead(r: Requirement) {
    IsName(r.name) && IsExtras(r.extras) && IsSpecifier(r.specifier)
  }

  lemma ExtrasAlone(s: string)
    requires ExtrasLen(s) > 0
    ensures ExtrasLen(s[..ExtrasLen(s)]) == ExtrasLen(s)
  {
  }

  lemma StripHolds(s: string)
    ensures var t, q := Strip(s), SpaceEnd(s, 0);
            (t == "" || (!IsSpace(t[0]) && !IsSpace(t[|t| - 1]))) && q + |t| <= |s| && t == s[q..q + |t|]
  {
    var t, q := Strip(s), SpaceEnd(s, 0);
    assert t == s[q..][..|t|];
    if t != "" { assert t[0] == s[q]; }
  }

  lemma PieceWithout(s: string, i: nat, j: nat, c: char)
    requires i <= j <= |s| && c !in s
    ensures c !in s[i..j]
  {
  }

  lemma ExtrasOfMain(main: string)
    requires ';' !in main
    ensures IsExtras(main[NameEnd(main, 0)..NamePart(main)])
  {
    var n, x := NameEnd(main, 0), NamePart(main);
    PieceWithout(main, n, x, ';');
    if ExtrasLen(main[n..]) > 0 {
      ExtrasAlone(main[n..]);
      assert main[n..][..x - n] == main[n..x];
    }
  }

  lemma StripWithout(s: string, c: char)
    requires c !in s
    ensures c !in Strip(s)
  {
    StripHolds(s);
    PieceWithout(s, SpaceEnd(s, 0), SpaceEnd(s, 0) + |Strip(s)|, c);
  }

  lemma SpecifierOfMain(tail: string)
    requires ';' !in tail
    ensures IsSpecifier(Strip(tail))
  {
    StripWithout(tail, ';');
    StripHolds(tail);
  }

  lemma ReadMainIs(main: string, marker: Option<string>, n: nat, x: nat, tail: string)
    requires n == NameEnd(main, 0) > 0 && x == NamePart(main) && tail == main[x..]
    ensures n <= x <= |main| && ReadMain(main, marker) == Some(Requirement(main[..n], main[n..x], Strip(tail), marker))
  {
  }

  lemma MainGivesRead(main: string, n: nat, x: nat, marker: Option<string>)
    requires ';' !in main && n == NameEnd(main, 0) > 0 && x == NamePart(main)
    ensures n <= x <= |main| && IsRead(Requirement(main[..n], main[n..x], Strip(main[x..]), marker))
  {
    ExtrasOfMain(main);
    SpecifierOfMain(main[x..]);
  }

  lemma ReadIsRead(text: string)
    requires Read(text).Some?
    ensures IsRead(Read(text).value)
  {
    var main := text[..FirstIndex(text, ';')];
    MainGivesRead(main, NameEnd(main, 0), NamePart(main), MarkerOf(text));
    ReadMainIs(main, MarkerOf(text), NameEnd(main, 0), NamePart(main), main[NamePart(main)..]);
  }

  /** How much of the text after name and extras would be read as part of them. */
  function Joined(extras: string, after: string): (n: nat)
    ensures n <= |after|
  {
    if extras != "" then 0 else NamePart(after)
  }

  lemma NamePartOfWritten(r: Requirement, after: string, main: string)
    requires IsRead(r) && main == r.name + r.extras + after
    ensures NamePart(main) == |r.name| + |r.extras| + Joined(r.extras, after)
    ensures NameEnd(main, 0) == |r.name| + (if r.extras != "" then 0 else NameEnd(after, 0))
  {
    var n, rest := |r.name|, r.extras + after;
    assert main[n..] == rest;
    assert forall k :: 0 <= k < n ==> main[k] == r.name[k];
    NamePartJoins(main, n, rest);
    if r.extras != "" {
      assert rest[..|r.extras|] == r.extras;
      ExtrasEndNamePart(rest, |r.extras|);
    } else {
      assert rest == after;
    }
  }

  /** Cutting a text made of name, extras and the rest at other places. */
  lemma CutElsewhere(main: string, name: string, extras: string, after: string, n: nat, j: nat)
    requires main == name + extras + after && |name| <= n <= |name| + |extras| + j && j <= |after|
    ensures var x := |name| + |extras| + j;
            && main[x..] == after[j..] && main[..n] + main[n..x] == name + extras + after[..j]
            && (main[..n] == name <==> n == |name|) && (n == |name| && j == 0 ==> main[n..x] == extras)
  {
  }

  ghost predicate ReadsBack(r: Requirement, after: string, again: Requirement) {
    var j := Joined(r.extras, after);
    && again.marker == r.marker && again.specifier == Strip(after[j..])
    && again.name + again.extras == r.name + r.extras + after[..j]
    && (again.name == r.name <==> r.extras != "" || NameEnd(after, 0) == 0)
    && (j == 0 ==> again.extras == r.extras)
  }

  lemma CutReadsBack(r: Requirement, after: string, main: string, n: nat, x: nat, tail: string)
    returns (again: Requirement)
    requires main == r.name + r.extras + after && tail == after[Joined(r.extras, after)..]
    requires n == |r.name| + (if r.extras != "" then 0 else NameEnd(after, 0))
    requires x == |r.name| + |r.extras| + Joined(r.extras, after)
    ensures n <= x <= |main| && main[x..] == tail && again == Requirement(main[..n], main[n..x], Strip(tail), r.marker)
    ensures ReadsBack(r, after, again)
  {
    CutElsewhere(main, r.name, r.extras, after, n, Joined(r.extras, after));
    again := Requirement(main[..n], main[n..x], Strip(tail), r.marker);
  }

  lemma MainIsRead(r: Requirement, after: string, main: string) returns (again: Requirement)
    requires IsRead(r) && main == r.name + r.extras + after
    ensures ReadMain(main, r.marker) == Some(again) && ReadsBack(r, after, again)
  {
    var n, x, tail := NameEnd(main, 0), NamePart(main), after[Joined(r.extras, after)..];
    NamePartOfWritten(r, after, main);
    again := CutReadsBack(r, after, main, n, x, tail);
    ReadMainIs(main, r.marker, n, x, tail);
  }

  /** A written requirement is read back with its marker, and with its name and extras unless the
      text after them joins them. */
  lemma ReadAgain(r: Requirement, after: string) returns (again: Requirement)
    requires IsRead(r) && ';' !in after
    ensures Read(Written(r.(specifier := after))) == Some(again) && ReadsBack(r, after, again)
  {
    var main := r.name + r.extras + after;
    MarkedIsRead(main, r.marker);
    again := MainIsRead(r, after, main);
  }
}
