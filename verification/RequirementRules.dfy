/**
 The rules for requirements with their characters and numbers written out: which versions an upper bound
 allows, how written clauses are read and raised, and which names are the same package.
 */
module RequirementRules {
  import opened Prelude
  import opened Text
  import opened Versions
  import opened Decimals
  import opened VersionOrder
  import opened Requirements
  import opened RequirementPatterns
  import opened LowerBounds
  import opened PyprojectSync

  // ----- What an upper bound allows -----

  /** Both are versions, and the first is below the bound, or for `<=` has its value. */
  ghost predicate Allows(version: string, bound: string, strict: bool) {
    var v, b := VersionKey(version), VersionKey(bound);
    v.Some? && b.Some? && (Below(v.value, b.value) || (!strict && SameValue(v.value, b.value)))
  }

  lemma MeetsMeans(version: string, upper: Upper)
    ensures Meets(version, upper) <==> Allows(version, upper.version, upper.strict)
  {
    var v, b := VersionKey(version), VersionKey(upper.version);
    if v.Some? && b.Some? { ComparisonMeans(v.value, b.value); }
  }

  lemma FirstUpperIsOne(s: string, w: nat, o: nat, b: nat, w': nat, o': nat, b': nat)
    requires IsFirstUpper(s, w, o, b) && IsFirstUpper(s, w', o', b')
    ensures w == w' && o == o' && b == b'
  {
    UpperIsAfterSpace(s, w, o, b);
    UpperIsAfterSpace(s, w', o', b');
  }

  /** The upper bound at the start of `s`, if there is one there, allows the version. */
  ghost predicate AllowedAt(version: string, s: string) {
    forall w: nat, o: nat, b: nat :: IsFirstUpper(s, w, o, b) ==> Allows(version, s[b..RunEnd(s, b)], o == 1)
  }

  lemma ClauseMeans(version: string, s: string)
    ensures MeetsClause(version, s) <==> AllowedAt(version, s)
  {
    UpperMeans(s);
    if UpperAt(s).Some? {
      var w, o, b := UpperFound(s);
      MeetsMeans(version, UpperAt(s).value);
      forall w': nat, o': nat, b': nat | IsFirstUpper(s, w', o', b') ensures w' == w && o' == o && b' == b {
        FirstUpperIsOne(s, w, o, b, w', o', b');
      }
    } else {
      forall w: nat, o: nat, b: nat ensures !IsFirstUpper(s, w, o, b) {
        if IsFirstUpper(s, w, o, b) { UpperIsFound(s, w, o, b); }
      }
    }
  }

  /** Every upper bound, at the start or after a comma, allows the version. */
  ghost predicate AllowedEverywhere(version: string, s: string) {
    forall c :: 0 <= c <= |s| && (c == 0 || s[c - 1] == ',') ==> AllowedAt(version, s[c..])
  }

  lemma BoundsMean(version: string, s: string)
    ensures MeetsBounds(version, s) <==> AllowedEverywhere(version, s)
  {
    forall c | 0 <= c <= |s| ensures MeetsClause(version, s[c..]) <==> AllowedAt(version, s[c..]) {
      ClauseMeans(version, s[c..]);
    }
  }

  /** A version satisfies the upper bounds of a requirement if and only if each of them allows it: below
      it, or for `<=` not above. */
  lemma SatisfiesMeans(text: string, version: string)
    ensures SatisfiesUpperBounds(text, version) <==>
            (Read(text).Some? ==> AllowedEverywhere(version, Read(text).value.specifier))
  {
    if Read(text).Some? { BoundsMean(version, Read(text).value.specifier); }
  }

  /** A target is allowed by every upper bound, so below every exclusive one; and it is missing only when
      no version is known or one of them does not allow it. */
  lemma TargetIsAllowed(text: string, known: Known)
    ensures TargetVersion(text, known) ==
              var r := Read(text);
              if r.Some? && VersionOf(r.value.name, known).Some? &&
                 AllowedEverywhere(VersionOf(r.value.name, known).value, r.value.specifier)
              then VersionOf(r.value.name, known) else None
  {
    NameOfRead(text);
    if Read(text).Some? && VersionOf(Read(text).value.name, known).Some? {
      SatisfiesMeans(text, VersionOf(Read(text).value.name, known).value);
    }
  }

  /** What is written for a requirement without white space before its extras allows its target. */
  lemma WrittenIsAllowed(text: string, known: Known)
    requires PlainVersions(known) && IsPending(text, known) && IsOrdinary(text)
    requires Read(text).Some? ==> JoinLen(Read(text).value) == 0
    ensures var v, again := TargetVersion(text, known).value, Read(UpdateOf(text, known).value);
            again.Some? && AllowedEverywhere(v, again.value.specifier)
  {
    var v := TargetVersion(text, known).value;
    TargetIsPlain(text, known);
    WrittenIsSettled(text, known);
    SatisfiesMeans(UpdateOf(text, known).value, v);
    var again := NamePartStays(text, v);
  }

  // ----- Written versions -----

  lemma WrittenVersionKey(parts: seq<string>, rest: string, s: string)
    requires AreNumbers(parts) && s == Dotted(parts) + rest
    requires rest != "" ==> !('0' <= rest[0] <= '9') && rest[0] != '.'
    ensures VersionKey(s) == Some(Numbers(parts))
  {
    var q := |Dotted(parts)|;
    assert s[0..q] == Dotted(parts) && (q < |s| ==> s[q] == rest[0]);
    DottedInText(s, 0, q, parts);
    ReleaseIsUnique(s, 0, q, parts);
  }

  // ----- Written clauses -----

  /** Blanks, an operator, blanks, a version and blanks. */
  datatype Clause = Clause(lead: string, op: string, gap: string, version: string, trail: string)

  predicate AreBlanks(s: string) {
    forall k :: 0 <= k < |s| ==> s[k] == ' '
  }

  /** Printable characters, and none of them ends a version or starts another clause. */
  predicate IsVersion(s: string) {
    s != "" &&
    forall k :: 0 <= k < |s| ==>
      '!' <= s[k] <= '~' && s[k] != ',' && s[k] != ';' && s[k] != '<' && s[k] != '>' && s[k] != '=' && s[k] != '[' &&
      s[k] != ']'
  }

  predicate IsClause(c: Clause) {
    && (c.op == "<" || c.op == "<=" || c.op == ">" || c.op == ">=" || c.op == "==" || c.op == "!=" || c.op == "~=")
    && AreBlanks(c.lead) && AreBlanks(c.gap) && IsVersion(c.version) && AreBlanks(c.trail)
  }

  function Bound(c: Clause): string {
    c.op + c.gap + c.version
  }

  function Words(c: Clause): string {
    c.lead + Bound(c)
  }

  function Phrase(c: Clause): string {
    Words(c) + c.trail
  }

  /** The clauses with commas between them. */
  function Specifier(clauses: seq<Clause>): string {
    if clauses == [] then ""
    else if |clauses| == 1 then Phrase(clauses[0])
    else Phrase(clauses[0]) + ("," + Specifier(clauses[1..]))
  }

  ghost predicate AreClauses(clauses: seq<Clause>) {
    forall k :: 0 <= k < |clauses| ==> IsClause(clauses[k])
  }

  /** What follows a clause. */
  predicate IsRest(rest: string) {
    rest == "" || rest[0] == ',' || rest[0] == ' '
  }

  // ----- Their upper bounds -----

  /** The clause asks of the version what its operator says. */
  ghost predicate Asks(c: Clause, version: string) {
    (c.op == "<" ==> Allows(version, c.version, true)) && (c.op == "<=" ==> Allows(version, c.version, false))
  }

  lemma RunEndIs(s: string, b: nat, e: nat)
    requires b <= e <= |s| && (forall k :: b <= k < e ==> !IsStop(s[k])) && (e < |s| ==> IsStop(s[e]))
    ensures RunEnd(s, b) == e
  {
  }

  lemma SpaceEndIs(s: string, i: nat, e: nat)
    requires i <= e <= |s| && (forall k :: i <= k < e ==> s[k] == ' ') && (e < |s| ==> !IsSpace(s[e]))
    ensures SpaceEnd(s, i) == e
  {
    assert IsSpace(' ');
  }

  /** What stands behind `i`: blanks, a version, and nothing or a comma or a blank. */
  ghost predicate ValueBehind(s: string, i: nat, gap: string, version: string) {
    var b, e := i + |gap|, i + |gap| + |version|;
    && AreBlanks(gap) && IsVersion(version) && e <= |s| && s[i..b] == gap && s[b..e] == version
    && (e < |s| ==> s[e] == ',' || s[e] == ' ')
  }

  lemma ValueOf(s: string, i: nat, gap: string, version: string)
    requires ValueBehind(s, i, gap, version)
    ensures var b := i + |gap|;
            ValueStart(s, i) == Some(b) && RunEnd(s, b) == b + |version| && Value(s, i) == Some(version)
    ensures s[i] == ' ' || s[i] == version[0]
  {
    var b, e := i + |gap|, i + |gap| + |version|;
    forall k | i <= k < b ensures s[k] == ' ' { assert s[i..b][k - i] == ' '; }
    forall k | b <= k < e ensures s[k] == version[k - b] { assert s[b..e][k - b] == version[k - b]; }
    SpaceEndIs(s, i, b);
    RunEndIs(s, b, e);
  }

  lemma Pieces(x: string, y: string, z: string, rest: string, t: string)
    requires t == x + y + z + rest
    ensures |t| == |x| + |y| + |z| + |rest|
    ensures t[..|x|] == x && t[|x|..|x| + |y|] == y && t[|x| + |y|..|x| + |y| + |z|] == z
    ensures rest != "" ==> t[|x| + |y| + |z|] == rest[0]
  {
    PartsOf(x, y, z + rest, t) by { assert t == x + y + (z + rest); }
    PartsOf(x + y, z, rest, t);
  }

  lemma BoundPieces(c: Clause, rest: string, t: string)
    requires IsClause(c) && IsRest(rest) && t == Bound(c) + rest
    ensures |Bound(c)| == |c.op| + |c.gap| + |c.version| && |t| == |Bound(c)| + |rest|
    ensures (forall k :: 0 <= k < |c.op| ==> t[k] == c.op[k]) && ValueBehind(t, |c.op|, c.gap, c.version)
  {
    Pieces(c.op, c.gap, c.version, rest, t);
    assert forall k :: 0 <= k < |c.op| ==> t[k] == t[..|c.op|][k];
  }

  lemma UpperFrom(t: string, o: nat, version: string)
    requires 1 <= o <= 2 && o < |t| && t[0] == '<' && (o == 2 <==> t[1] == '=') && Value(t, o) == Some(version)
    ensures UpperBare(t) == Some(Upper(o == 1, version))
  {
  }

  lemma BoundUpper(c: Clause, rest: string, t: string)
    requires IsClause(c) && IsRest(rest) && t == Bound(c) + rest
    ensures UpperBare(t) == if c.op == "<" then Some(Upper(true, c.version))
                            else if c.op == "<=" then Some(Upper(false, c.version)) else None
  {
    BoundPieces(c, rest, t);
    ValueOf(t, |c.op|, c.gap, c.version);
    assert t[0] == c.op[0] && (c.op == "<=" ==> t[1] == c.op[1]);
    if c.op == "<" || c.op == "<=" { UpperFrom(t, |c.op|, c.version); }
  }

  predicate IsLower(c: Clause) {
    c.op == ">" || c.op == ">="
  }

  lemma LowerAt(t: string, o: nat, b: nat)
    requires 1 <= o <= 2 && o < |t| && t[0] == '>' && (o == 2 <==> t[1] == '=') && ValueStart(t, o) == Some(b)
    ensures LowerLen(t) == RunEnd(t, b)
  {
  }

  lemma BoundLower(c: Clause, rest: string, t: string)
    requires IsClause(c) && IsRest(rest) && t == Bound(c) + rest && IsLower(c)
    ensures LowerLen(t) == |Bound(c)|
  {
    BoundPieces(c, rest, t);
    ValueOf(t, |c.op|, c.gap, c.version);
    assert t[0] == c.op[0] && (c.op == ">=" ==> t[1] == c.op[1]);
    LowerAt(t, |c.op|, |c.op| + |c.gap|);
  }

  lemma BoundStart(c: Clause, rest: string, t: string)
    requires IsClause(c) && t == Bound(c) + rest
    ensures t != "" && !IsSpace(t[0])
  {
    assert t[0] == c.op[0];
  }

  lemma ClauseStartsAt(c: Clause, rest: string, s: string)
    requires IsClause(c) && IsRest(rest) && s == Words(c) + rest
    ensures SpaceEnd(s, 0) == |c.lead| <= |s| && s[|c.lead|..] == Bound(c) + rest
  {
    var t := Bound(c) + rest;
    AppendAssociates(c.lead, Bound(c), rest);
    BoundStart(c, rest, t);
    LeadEnds(c.lead, t, s);
  }

  lemma LeadEnds(lead: string, t: string, s: string)
    requires AreBlanks(lead) && s == lead + t && t != "" && !IsSpace(t[0])
    ensures SpaceEnd(s, 0) == |lead| && s[|lead|..] == t
  {
    assert s[|lead|] == t[0];
    SpaceEndIs(s, 0, |lead|);
  }

  lemma ClauseAsks(c: Clause, rest: string, s: string, version: string)
    requires IsClause(c) && IsRest(rest) && s == Words(c) + rest
    ensures MeetsClause(version, s) <==> Asks(c, version)
  {
    ClauseStartsAt(c, rest, s);
    BoundUpper(c, rest, Bound(c) + rest);
    MeetsMeans(version, Upper(true, c.version));
    MeetsMeans(version, Upper(false, c.version));
  }

  lemma PhraseHasNo(c: Clause, d: char)
    requires IsClause(c) && (d == ',' || d == ';' || d == '[' || d == ']' || (d == '>' && !IsLower(c)))
    ensures d !in Phrase(c)
  {
  }

  /** The clauses behind a comma are those of the rest. */
  lemma ClausesBehind(version: string, x: string, rest: string, s: string)
    requires ',' !in x && s == x + ("," + rest)
    ensures MeetsBounds(version, s) <==> MeetsClause(version, s) && MeetsBounds(version, rest)
  {
    var n := |x| + 1;
    assert s[n..] == rest && s[n - 1] == ',' && s[0..] == s && rest[0..] == rest;
    assert forall k :: 0 <= k < n - 1 ==> s[k] == x[k] && s[k] != ',';
    if MeetsBounds(version, s) {
      assert ClauseStart(s, 0);
      forall c | 0 <= c <= |rest| && ClauseStart(rest, c) ensures MeetsClause(version, rest[c..]) {
        assert ClauseStart(s, n + c) && s[n + c..] == rest[c..];
      }
    }
    if MeetsClause(version, s) && MeetsBounds(version, rest) {
      forall c | 0 <= c <= |s| && ClauseStart(s, c) ensures MeetsClause(version, s[c..]) {
        if c > 0 { assert c >= n && ClauseStart(rest, c - n) && s[c..] == rest[c - n..]; }
      }
    }
  }

  lemma OneClause(version: string, s: string)
    requires ',' !in s
    ensures MeetsBounds(version, s) <==> MeetsClause(version, s)
  {
    assert s[0..] == s && ClauseStart(s, 0);
  }

  /** A version meets the bounds of a written specifier exactly when it is what each clause asks. */
  lemma {:induction false} ClausesAsk(clauses: seq<Clause>, version: string)
    requires AreClauses(clauses)
    ensures MeetsBounds(version, Specifier(clauses)) <==>
            forall k :: 0 <= k < |clauses| ==> Asks(clauses[k], version)
  {
    var s := Specifier(clauses);
    if clauses == [] {
      OneClause(version, s);
    } else {
      var c := clauses[0];
      PhraseHasNo(c, ',');
      FirstAndRest(c, clauses);
      ClauseAsks(c, Rest(clauses), s, version);
      if |clauses| == 1 {
        OneClause(version, s);
      } else {
        ClausesAsk(clauses[1..], version);
        ClausesBehind(version, Phrase(c), Specifier(clauses[1..]), s);
        assert forall k :: 1 <= k < |clauses| ==> clauses[k] == clauses[1..][k - 1];
      }
    }
  }

  // ----- Raising their lower bound -----

  function NewBound(lead: string, v: string, trail: string): Clause {
    Clause(lead, ">=", "", v, trail)
  }

  /** The first clause with a lower bound gets the new one; without such a clause it is put in front. */
  function WithNewBound(clauses: seq<Clause>, v: string): seq<Clause> {
    if HasLowerClause(clauses) then RaisedClauses(clauses, v) else [NewBound("", v, "")] + clauses
  }

  predicate HasLowerClause(clauses: seq<Clause>) {
    exists k :: 0 <= k < |clauses| && IsLower(clauses[k])
  }

  function RaisedClauses(clauses: seq<Clause>, v: string): seq<Clause> {
    if clauses == [] then []
    else if IsLower(clauses[0]) then [NewBound(clauses[0].lead, v, clauses[0].trail)] + clauses[1..]
    else [clauses[0]] + RaisedClauses(clauses[1..], v)
  }

  lemma {:induction false} LowerBehindText(x: string, y: string, s: string, i: nat)
    requires '>' !in x && s == x + y && i <= |x|
    ensures FirstLowerFrom(s, i) == |x| + FirstLower(y)
    decreases |x| - i
  {
    if i < |x| {
      assert s[i..][0] == x[i];
      LowerBehindText(x, y, s, i + 1);
    } else {
      LowerInRest(x, y, s, 0);
    }
  }

  lemma {:induction false} LowerInRest(x: string, y: string, s: string, i: nat)
    requires s == x + y && i <= |y|
    ensures FirstLowerFrom(s, |x| + i) == |x| + FirstLowerFrom(y, i)
    decreases |y| - i
  {
    assert s[|x| + i..] == y[i..];
    if i < |y| { LowerInRest(x, y, s, i + 1); }
  }

  lemma SpliceBehind(x: string, y: string, s: string, p: nat, q: nat, m: string)
    requires s == x + y && p <= q <= |y|
    ensures Splice(s, |x| + p, |x| + q, m) == x + Splice(y, p, q, m)
  {
    assert s[..|x| + p] == x + y[..p] && s[|x| + q..] == y[q..];
  }

  lemma DropOfSum(x: string, y: string, s: string, i: nat)
    requires s == x + y && i <= |y|
    ensures s[|x| + i..] == y[i..]
  {
  }

  lemma LowerEndIs(s: string, p: nat, t: string)
    requires FirstLower(s) == p < |s| && t == s[p..]
    ensures LowerEnd(s) == p + LowerLen(t)
  {
  }

  lemma LowerMovesBehind(x: string, y: string, s: string, p: nat, q: nat)
    requires '>' !in x && s == x + y && FirstLower(y) == p < |y| && LowerEnd(y) == q
    ensures FirstLower(s) == |x| + p < |s| && LowerEnd(s) == |x| + q
  {
    var t := y[p..];
    LowerBehindText(x, y, s, 0);
    DropOfSum(x, y, s, p);
    LowerEndIs(y, p, t);
    LowerEndIs(s, |x| + p, t);
  }

  lemma RaisedAt(s: string, v: string, p: nat, q: nat)
    requires FirstLower(s) == p < |s| && LowerEnd(s) == q
    ensures Raised(s, v) == Splice(s, p, q, AtLeast(v))
  {
  }

  lemma RaisedBehind(x: string, y: string, s: string, v: string)
    requires '>' !in x && s == x + y && HasLower(y)
    ensures HasLower(s) && Raised(s, v) == x + Raised(y, v)
  {
    var p, q := FirstLower(y), LowerEnd(y);
    LowerMovesBehind(x, y, s, p, q);
    RaisedAt(s, v, |x| + p, |x| + q);
    RaisedAt(y, v, p, q);
    SpliceBehind(x, y, s, p, q, AtLeast(v));
  }

  lemma NoLowerInText(x: string)
    requires '>' !in x
    ensures !HasLower(x)
  {
    assert x + "" == x;
    LowerBehindText(x, "", x, 0);
  }

  lemma RaisedAtStart(t: string, n: nat, v: string)
    requires LowerLen(t) == n > 0
    ensures HasLower(t) && Raised(t, v) == AtLeast(v) + t[n..]
  {
    assert t[0..] == t && FirstLower(t) == 0;
    assert Splice(t, 0, n, AtLeast(v)) == AtLeast(v) + t[n..];
  }

  lemma NewWords(lead: string, v: string, trail: string)
    ensures Words(NewBound(lead, v, trail)) == lead + AtLeast(v)
  {
    assert ">=" + "" + v == AtLeast(v);
  }

  lemma RaisedHere(c: Clause, rest: string, s: string, v: string)
    requires IsClause(c) && IsLower(c) && IsRest(rest) && s == Words(c) + rest
    ensures HasLower(s) && Raised(s, v) == Words(NewBound(c.lead, v, c.trail)) + rest
  {
    var t := Bound(c) + rest;
    assert s == c.lead + t && t[|Bound(c)|..] == rest;
    BoundLower(c, rest, t);
    RaisedAtStart(t, |Bound(c)|, v);
    RaisedBehind(c.lead, t, s, v);
    NewWords(c.lead, v, c.trail);
    AppendAssociates(c.lead, AtLeast(v), rest);
  }

  /** What follows the first clause. */
  function Rest(clauses: seq<Clause>): string
    requires clauses != []
  {
    clauses[0].trail + if |clauses| == 1 then "" else "," + Specifier(clauses[1..])
  }

  lemma FirstAndRest(c: Clause, clauses: seq<Clause>)
    requires clauses != [] && clauses[0] == c && AreBlanks(c.trail)
    ensures IsRest(Rest(clauses)) && Specifier(clauses) == Words(c) + Rest(clauses)
  {
    if |clauses| == 1 {
      assert c.trail + "" == c.trail;
    } else {
      AppendAssociates(Words(c), c.trail, "," + Specifier(clauses[1..]));
    }
  }

  lemma {:induction false} NoLowerNoSign(clauses: seq<Clause>)
    requires AreClauses(clauses) && !HasLowerClause(clauses)
    ensures '>' !in Specifier(clauses)
  {
    if clauses != [] {
      PhraseHasNo(clauses[0], '>');
      if |clauses| > 1 { NoLowerNoSign(clauses[1..]); }
    }
  }

  lemma FirstIsRaised(clauses: seq<Clause>, c: Clause, raised: seq<Clause>, v: string)
    requires clauses != [] && c == clauses[0] && IsClause(c) && IsLower(c)
    requires raised == [NewBound(c.lead, v, c.trail)] + clauses[1..]
    ensures HasLower(Specifier(clauses)) && Raised(Specifier(clauses), v) == Specifier(raised)
  {
    assert raised[1..] == clauses[1..];
    FirstAndRest(c, clauses);
    FirstAndRest(NewBound(c.lead, v, c.trail), raised);
    RaisedHere(c, Rest(clauses), Specifier(clauses), v);
  }

  lemma LowerIsLater(clauses: seq<Clause>)
    requires HasLowerClause(clauses) && !IsLower(clauses[0])
    ensures HasLowerClause(clauses[1..]) && clauses == [clauses[0]] + clauses[1..]
  {
    var k :| 0 <= k < |clauses| && IsLower(clauses[k]);
    assert IsLower(clauses[1..][k - 1]);
  }

  lemma {:induction false} RaisedInside(clauses: seq<Clause>, v: string)
    requires AreClauses(clauses) && HasLowerClause(clauses)
    ensures HasLower(Specifier(clauses)) && |RaisedClauses(clauses, v)| == |clauses|
    ensures Raised(Specifier(clauses), v) == Specifier(RaisedClauses(clauses, v))
  {
    var c := clauses[0];
    if IsLower(c) {
      FirstIsRaised(clauses, c, [NewBound(c.lead, v, c.trail)] + clauses[1..], v);
    } else {
      LowerIsLater(clauses);
      RaisedInside(clauses[1..], v);
      RaisedBehindClause(c, clauses[1..], RaisedClauses(clauses[1..], v), v);
    }
  }

  lemma SpecifierBehind(c: Clause, rest: seq<Clause>, clauses: seq<Clause>)
    requires rest != [] && clauses == [c] + rest
    ensures Specifier(clauses) == (Phrase(c) + ",") + Specifier(rest)
  {
    assert clauses[1..] == rest;
    AppendAssociates(Phrase(c), ",", Specifier(rest));
  }

  lemma NoSignBefore(c: Clause)
    requires IsClause(c) && !IsLower(c)
    ensures '>' !in Phrase(c) + ","
  {
    PhraseHasNo(c, '>');
  }

  lemma RaisedBehindClause(c: Clause, rest: seq<Clause>, raised: seq<Clause>, v: string)
    requires IsClause(c) && !IsLower(c) && rest != [] && |raised| == |rest|
    requires HasLower(Specifier(rest)) && Raised(Specifier(rest), v) == Specifier(raised)
    ensures HasLower(Specifier([c] + rest)) && Raised(Specifier([c] + rest), v) == Specifier([c] + raised)
  {
    SpecifierBehind(c, rest, [c] + rest);
    SpecifierBehind(c, raised, [c] + raised);
    NoSignBefore(c);
    RaisedBehind(Phrase(c) + ",", Specifier(rest), Specifier([c] + rest), v);
  }

  /** Raising a written specifier changes the first clause with a lower bound, and no other, or adds one
      clause in front. */
  lemma RaisedSpecifier(clauses: seq<Clause>, v: string)
    requires AreClauses(clauses)
    ensures HasLower(Specifier(clauses)) <==> HasLowerClause(clauses)
    ensures Raised(Specifier(clauses), v) == Specifier(WithNewBound(clauses, v))
  {
    if HasLowerClause(clauses) {
      RaisedInside(clauses, v);
    } else {
      NoLowerNoSign(clauses);
      NoLowerInText(Specifier(clauses));
      PutInFront(clauses, v);
    }
  }

  lemma PutInFront(clauses: seq<Clause>, v: string)
    requires AreClauses(clauses) && !HasLower(Specifier(clauses))
    ensures Raised(Specifier(clauses), v) == Specifier([NewBound("", v, "")] + clauses)
  {
    var longer, s := [NewBound("", v, "")] + clauses, Specifier(clauses);
    assert longer[1..] == clauses;
    FirstAndRest(NewBound("", v, ""), longer);
    NewWords("", v, "");
    if clauses != [] {
      assert |Words(clauses[0])| > 0 && |s| > 0;
      AppendAssociates(AtLeast(v), ",", s);
    }
  }

  // ----- Written requirements -----

  predicate IsPackageName(name: string) {
    name != "" && forall k :: 0 <= k < |name| ==>
      'a' <= name[k] <= 'z' || 'A' <= name[k] <= 'Z' || '0' <= name[k] <= '9' || name[k] == '_' || name[k] == '.' ||
      name[k] == '-'
  }

  /** Nothing, or brackets around something without a closing bracket or a semicolon. */
  ghost predicate AreExtras(extras: string) {
    extras == "" || exists x :: extras == "[" + x + "]" && x != "" && ']' !in x && ';' !in x
  }

  /** A requirement made of these parts, without white space around the specifier. */
  ghost predicate IsMadeOf(r: Requirement, clauses: seq<Clause>) {
    IsPackageName(r.name) && AreExtras(r.extras) && AreClauses(clauses) && r.specifier == Specifier(clauses) &&
    (clauses != [] ==> clauses[0].lead == "" && clauses[|clauses| - 1].trail == "")
  }

  lemma ExtrasAreRead(extras: string)
    requires AreExtras(extras)
    ensures IsExtras(extras)
  {
    if extras != "" {
      var x :| extras == "[" + x + "]" && x != "" && ']' !in x && ';' !in x;
      var n := |x| + 1;
      assert extras[n] == ']' && forall k :: 0 < k < n ==> extras[k] == x[k - 1];
      FirstIndexIs(extras, ']', n);
    }
  }

  lemma {:induction false} EndOfSpecifier(clauses: seq<Clause>)
    requires AreClauses(clauses) && clauses != [] && clauses[|clauses| - 1].trail == ""
    ensures ';' !in Specifier(clauses) && |Specifier(clauses)| > 0
    ensures !IsSpace(Specifier(clauses)[|Specifier(clauses)| - 1])
  {
    var c, s := clauses[0], Specifier(clauses);
    PhraseHasNo(c, ';');
    assert |clauses| == 1 ==> Phrase(c)[|Phrase(c)| - 1] == c.version[|c.version| - 1];
    if |clauses| > 1 {
      EndOfSpecifier(clauses[1..]);
      var rest := Specifier(clauses[1..]);
      assert s[|s| - 1] == rest[|rest| - 1];
    }
  }

  lemma StartOfSpecifier(clauses: seq<Clause>)
    requires AreClauses(clauses) && clauses != [] && clauses[0].lead == ""
    ensures Specifier(clauses) != "" && var d := Specifier(clauses)[0];
            d == '<' || d == '>' || d == '=' || d == '!' || d == '~'
  {
    FirstAndRest(clauses[0], clauses);
    assert Words(clauses[0])[0] == clauses[0].op[0];
  }

  lemma BeginsWithSign(s: string)
    requires s != "" && (s[0] == '<' || s[0] == '>' || s[0] == '=' || s[0] == '!' || s[0] == '~')
    requires !IsSpace(s[|s| - 1])
    ensures !IsSpace(s[0]) && NamePart(s) == 0 && NameEnd(s, 0) == 0 && Strip(s) == s
  {
    SignIsNoName(s);
    SignIsNoSpace(s);
  }

  lemma SignIsNoName(s: string)
    requires s != "" && (s[0] == '<' || s[0] == '>' || s[0] == '=' || s[0] == '!' || s[0] == '~')
    ensures NamePart(s) == 0 && NameEnd(s, 0) == 0
  {
    assert s[0..] == s && NameEnd(s, 0) == 0 && ExtrasLen(s) == 0;
  }

  lemma SignIsNoSpace(s: string)
    requires s != "" && (s[0] == '<' || s[0] == '>' || s[0] == '=' || s[0] == '!' || s[0] == '~')
    requires !IsSpace(s[|s| - 1])
    ensures !IsSpace(s[0]) && Strip(s) == s
  {
    assert s[0..] == s && SpaceEnd(s, 0) == 0;
    StripIsDrop(s);
  }

  lemma SpecifierIsRead(clauses: seq<Clause>, s: string)
    requires AreClauses(clauses) && s == Specifier(clauses)
    requires clauses != [] ==> clauses[0].lead == "" && clauses[|clauses| - 1].trail == ""
    ensures IsSpecifier(s) && NamePart(s) == 0 && NameEnd(s, 0) == 0 && Strip(s) == s
  {
    if clauses == [] {
      assert s[0..] == s;
    } else {
      StartOfSpecifier(clauses);
      EndOfSpecifier(clauses);
      BeginsWithSign(s);
    }
  }

  lemma MadeIsRead(r: Requirement, clauses: seq<Clause>)
    requires IsMadeOf(r, clauses)
    ensures IsRead(r) && Read(Written(r)) == Some(r)
  {
    SpecifierIsRead(clauses, r.specifier);
    ExtrasAreRead(r.extras);
    var again := ReadAgain(r, r.specifier);
    assert r.specifier[0..] == r.specifier && r.specifier[..0] == "";
    assert r.(specifier := r.specifier) == r;
    assert r.name + r.extras + "" == r.name + r.extras;
  }

  /** For a requirement made of name, extras, clauses and marker: the target is the known version of the
      name if that is what every clause asks, and otherwise there is none; and raising the lower bound
      changes the one clause, or adds one in front, and nothing else. */
  lemma MadeRequirement(r: Requirement, clauses: seq<Clause>, known: Known, v: string)
    requires IsMadeOf(r, clauses)
    ensures TargetVersion(Written(r), known) ==
              var version := VersionOf(r.name, known);
              if version.Some? && forall k :: 0 <= k < |clauses| ==> Asks(clauses[k], version.value) then version
              else None
    ensures WithLowerBound(Written(r), v) == Written(r.(specifier := Specifier(WithNewBound(clauses, v))))
  {
    MadeIsRead(r, clauses);
    NameOfRead(Written(r));
    if VersionOf(r.name, known).Some? { ClausesAsk(clauses, VersionOf(r.name, known).value); }
    RaisedSpecifier(clauses, v);
  }

  /** It is replaced exactly when it has a target and does not name that as its lower bound yet. */
  lemma MadeIsReplaced(r: Requirement, clauses: seq<Clause>, known: Known, v: string)
    requires IsMadeOf(r, clauses) && VersionOf(r.name, known) == Some(v)
    ensures var after := Written(r.(specifier := Specifier(WithNewBound(clauses, v))));
            UpdateOf(Written(r), known) ==
              if (forall k :: 0 <= k < |clauses| ==> Asks(clauses[k], v)) && after != Written(r) then Some(after)
              else None
  {
    MadeRequirement(r, clauses, known, v);
  }

  lemma NotBelowItself(key: seq<nat>)
    ensures !Below(key, key) && SameValue(key, key)
  {
  }

  /** No target up to an exclusive bound itself: for `<0.12.0` the version `0.12.0` is none, nor is
      `0.12` or `0.12.0rc1`. */
  lemma BoundIsNoTarget(r: Requirement, clauses: seq<Clause>, known: Known, k: nat)
    requires IsMadeOf(r, clauses) && VersionOf(r.name, known).Some? && k < |clauses| && clauses[k].op == "<"
    requires VersionKey(VersionOf(r.name, known).value).Some?
    requires VersionKey(clauses[k].version) == VersionKey(VersionOf(r.name, known).value)
    ensures TargetVersion(Written(r), known) == None
  {
    MadeRequirement(r, clauses, known, "");
    NotBelowItself(VersionKey(clauses[k].version).value);
  }

  // ----- Names -----

  predicate Separates(c: char) {
    c == '-' || c == '_' || c == '.'
  }

  /** The same letters in lower case, and the same other characters. */
  predicate IsLowered(word: string, lowered: string) {
    |lowered| == |word| && forall k :: 0 <= k < |word| ==>
      if 'A' <= word[k] <= 'Z' then lowered[k] == 'a' + (word[k] - 'A') else lowered[k] == word[k]
  }

  lemma {:induction false} CanonicalMoves(x: string, rest: string, s: string, i: nat)
    requires s == x + rest && i <= |rest| && (i == 0 && x != "" && rest != "" ==> !Separates(rest[0]))
    ensures Canonical(s, |x| + i) == Canonical(rest, i)
    decreases |rest| - i
  {
    if i < |rest| {
      assert s[|x| + i] == rest[i] && (i > 0 ==> s[|x| + i - 1] == rest[i - 1]);
      CanonicalMoves(x, rest, s, i + 1);
    }
  }

  lemma OneMoreLowered(s: string, i: nat, e: nat, more: string, lowered: string)
    requires i < e <= |s| && IsLowered(s[i + 1..e], more) && lowered == [Lower(s[i])] + more
    ensures IsLowered(s[i..e], lowered)
  {
    forall k | 1 <= k < |lowered| ensures lowered[k] == more[k - 1] && s[i..e][k] == s[i + 1..e][k - 1] {}
  }

  lemma {:induction false} CanonicalOfWord(s: string, i: nat, e: nat) returns (lowered: string)
    requires i <= e <= |s| && forall k :: i <= k < e ==> !Separates(s[k])
    ensures IsLowered(s[i..e], lowered) && Canonical(s, i) == lowered + Canonical(s, e)
    decreases e - i
  {
    lowered := "";
    if i < e {
      var more := CanonicalOfWord(s, i + 1, e);
      lowered := [Lower(s[i])] + more;
      OneMoreLowered(s, i, e, more, lowered);
      AppendAssociates([Lower(s[i])], more, Canonical(s, e));
    }
  }

  lemma {:induction false} CanonicalOfRun(s: string, i: nat, e: nat)
    requires 0 < i <= e <= |s| && Separates(s[i - 1]) && forall k :: i <= k < e ==> Separates(s[k])
    ensures Canonical(s, i) == Canonical(s, e)
    decreases e - i
  {
    if i < e { CanonicalOfRun(s, i + 1, e); }
  }

  /** The name under which a package is looked up: its words in lower case, with one hyphen for each run of
      hyphens, underscores and dots. */
  lemma CanonicalMeans(word: string, run: string, rest: string, s: string) returns (lowered: string)
    requires s == word + run + rest && (forall k :: 0 <= k < |word| ==> !Separates(word[k]))
    requires (forall k :: 0 <= k < |run| ==> Separates(run[k])) && (rest != "" ==> run != "" && !Separates(rest[0]))
    ensures IsLowered(word, lowered)
    ensures Canonical(s, 0) == if run == "" then lowered else lowered + ("-" + Canonical(rest, 0))
  {
    var n, m := |word|, |word| + |run|;
    assert s[0..n] == word && forall k :: n <= k < m ==> s[k] == run[k - n];
    lowered := CanonicalOfWord(s, 0, n);
    if run != "" {
      CanonicalOfRun(s, n + 1, m);
      CanonicalMoves(word + run, rest, s, 0);
      assert n > 0 ==> s[n - 1] == word[n - 1];
    }
  }

  /** The lock file comes first: with a version there, what is the latest does not matter, and names of one
      package have one target version; without, the latest version under the name as written counts. */
  lemma LockedComesFirst(r: Requirement, clauses: seq<Clause>, known: Known, latest: map<string, string>)
    requires IsMadeOf(r, clauses)
    ensures var canonical := Canonical(r.name, 0);
            canonical in known.locked ==>
              TargetVersion(Written(r), known.(latest := latest)) == TargetVersion(Written(r), known) &&
              (TargetVersion(Written(r), known).Some? ==>
                 TargetVersion(Written(r), known).value == known.locked[canonical])
    ensures Canonical(r.name, 0) !in known.locked && TargetVersion(Written(r), known).Some? ==>
              r.name in known.latest && TargetVersion(Written(r), known).value == known.latest[r.name]
  {
    MadeRequirement(r, clauses, known, "");
    MadeRequirement(r, clauses, known.(latest := latest), "");
  }
}
