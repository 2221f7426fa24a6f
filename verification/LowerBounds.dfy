/**
 What raising the lower bound of a requirement leaves as it was, and what raising it again does.
 */
module LowerBounds {
  import opened Prelude
  import opened Text
  import opened Requirements
  import opened VersionOrder
  import opened Versions

  /** No bracket closes at or after the first lower bound. */
  ghost predicate BracketsClose(specifier: string) {
    forall k :: FirstLower(specifier) <= k < |specifier| ==> specifier[k] != ']'
  }

  predicate HasLower(specifier: string) {
    FirstLower(specifier) < |specifier|
  }

  /** How much of the specifier joins the name part once the lower bound is raised: a specifier with
      a lower bound is written right after the name part, without the white space before it. */
  function JoinLen(r: Requirement): (n: nat)
    ensures n <= |r.specifier|
  {
    if HasLower(r.specifier) then Joined(r.extras, r.specifier) else 0
  }

  /** White space follows what joins. */
  predicate LeavesGap(r: Requirement) {
    JoinLen(r) < |r.specifier| && IsSpace(r.specifier[JoinLen(r)])
  }

  // ----- What joins the name -----

  lemma {:induction false} NameEndAgrees(s: string, t: string, k: nat, i: nat)
    requires Agree(s, t, k) && i <= k
    ensures NameEnd(s, i) == NameEnd(t, i) <= k
    decreases k - i
  {
    if IsNameChar(s[i]) { NameEndAgrees(s, t, k, i + 1); }
  }

  lemma ExtrasLenAgrees(s: string, t: string, k: nat)
    requires Agree(s, t, k) && (forall i :: k <= i < |s| ==> s[i] != ']') && forall i :: k <= i < |t| ==> t[i] != ']'
    ensures ExtrasLen(s) == ExtrasLen(t) <= k
  {
  }

  lemma NamePartAgrees(s: string, t: string, k: nat)
    requires Agree(s, t, k) && (forall i :: k <= i < |s| ==> s[i] != ']') && forall i :: k <= i < |t| ==> t[i] != ']'
    ensures NameEnd(s, 0) == NameEnd(t, 0) && NamePart(s) == NamePart(t) <= k
  {
    NameEndAgrees(s, t, k, 0);
    var n := NameEnd(s, 0);
    AgreeLater(s, t, k, n);
    ExtrasLenAgrees(s[n..], t[n..], k - n);
  }

  lemma RaisedWithout(s: string, v: string, from: nat, c: char)
    requires IsPlainVersion(v) && HasLower(s) && from == FirstLower(s) && c !in v && c != '>' && c != '='
    requires forall k :: from <= k < |s| ==> s[k] != c
    ensures forall k :: from <= k < |Raised(s, v)| ==> Raised(s, v)[k] != c
  {
    var q, m := LowerEnd(s), AtLeast(v);
    var x := Raised(s, v);
    SpliceMiddle(s, from, q, m);
    SpliceRest(s, from, q, m, q);
    forall k | from <= k < |x| ensures x[k] != c {
      if k < from + |m| {
        assert x[k] == x[from..from + |m|][k - from];
      } else {
        assert x[k] == x[from + |m|..][k - from - |m|] == s[q + (k - from - |m|)];
      }
    }
  }

  lemma PlainHasNo(v: string)
    requires IsPlainVersion(v)
    ensures ']' !in v && ';' !in v && ',' !in v
  {
  }

  /** The raised specifier joins the name part exactly as far as the old one would. */
  lemma RaisedJoins(r: Requirement, v: string)
    requires IsPlainVersion(v) && BracketsClose(r.specifier)
    ensures Joined(r.extras, Raised(r.specifier, v)) == JoinLen(r) <= BoundPlace(r.specifier)
    ensures NameEnd(Raised(r.specifier, v), 0) == if HasLower(r.specifier) then NameEnd(r.specifier, 0) else 0
  {
    var s := r.specifier;
    var x := Raised(s, v);
    if HasLower(s) {
      PlainHasNo(v);
      LowerEndHolds(s);
      SpliceAgrees(s, FirstLower(s), LowerEnd(s), v);
      RaisedWithout(s, v, FirstLower(s), ']');
      NamePartAgrees(s, x, FirstLower(s));
    } else {
      assert x[0] == '>' && x[0..] == x;
    }
  }

  lemma RaisedHasNo(s: string, v: string, c: char)
    requires IsPlainVersion(v) && c !in s && c !in v && c != '>' && c != '=' && c != ','
    ensures c !in Raised(s, v)
  {
    if HasLower(s) {
      RaisedWithout(s, v, FirstLower(s), c);
      SpliceBefore(s, FirstLower(s), LowerEnd(s), AtLeast(v));
    }
  }

  lemma RaisedKeepsStart(s: string, v: string, j: nat)
    requires IsPlainVersion(v) && j <= BoundPlace(s)
    ensures j <= |Raised(s, v)| && Raised(s, v)[..j] == s[..j]
  {
    if HasLower(s) {
      SpliceBefore(s, FirstLower(s), LowerEnd(s), AtLeast(v));
    }
  }

  /** Raising changes one lower bound, or adds one in front, and leaves every other character. */
  lemma RaisedChangesOneBound(s: string, v: string)
    requires IsPlainVersion(v)
    ensures var x := Raised(s, v);
            if HasLower(s) then
              var p, q := FirstLower(s), LowerEnd(s);
              s[p] == '>' && ',' !in s[p..q] && (q < |s| ==> IsStop(s[q])) &&
              p + 2 + |v| <= |x| && x[..p] == s[..p] && x[p..p + 2 + |v|] == ">=" + v && x[p + 2 + |v|..] == s[q..]
            else if s == "" then x == ">=" + v
            else |v| + 3 <= |x| && x[..|v| + 3] == ">=" + v + "," && x[|v| + 3..] == s
  {
    if HasLower(s) {
      LowerEndHolds(s);
      SpliceBefore(s, FirstLower(s), LowerEnd(s), AtLeast(v));
      SpliceMiddle(s, FirstLower(s), LowerEnd(s), AtLeast(v));
      SpliceRest(s, FirstLower(s), LowerEnd(s), AtLeast(v), LowerEnd(s));
    }
  }

  // ----- The requirement written -----

  /** The written requirement is the old one with what joins moved into the name part. */
  ghost predicate MovesJoined(r: Requirement, v: string, again: Requirement) {
    && JoinLen(r) <= |Raised(r.specifier, v)|
    && again.marker == r.marker
    && again.name + again.extras == r.name + r.extras + r.specifier[..JoinLen(r)]
    && again.specifier == Strip(Raised(r.specifier, v)[JoinLen(r)..])
    && (again.name == r.name <==> r.extras != "" || !HasLower(r.specifier) || NameEnd(r.specifier, 0) == 0)
    && (JoinLen(r) == 0 ==> again.extras == r.extras)
  }

  lemma ReadsBackMoves(r: Requirement, v: string, again: Requirement)
    requires IsPlainVersion(v) && BracketsClose(r.specifier) && ReadsBack(r, Raised(r.specifier, v), again)
    ensures MovesJoined(r, v, again)
  {
    RaisedJoins(r, v);
    RaisedKeepsStart(r.specifier, v, JoinLen(r));
  }

  /** Name, extras and marker stay, apart from what joins them; the name stays exactly unless there
      is a lower bound and the specifier starts like a name. */
  lemma NamePartStays(text: string, v: string) returns (again: Requirement)
    requires IsPlainVersion(v) && Read(text).Some? && BracketsClose(Read(text).value.specifier)
    ensures Read(WithLowerBound(text, v)) == Some(again)
    ensures MovesJoined(Read(text).value, v, again)
  {
    var r := Read(text).value;
    ReadIsRead(text);
    PlainHasNo(v);
    RaisedHasNo(r.specifier, v, ';');
    again := ReadAgain(r, Raised(r.specifier, v));
    ReadsBackMoves(r, v, again);
  }

  lemma ReadHasNo(text: string, c: char)
    requires c !in text && Read(text).Some?
    ensures var r := Read(text).value;
            c !in r.name && c !in r.extras && c !in r.specifier && (r.marker.Some? ==> c !in r.marker.value)
  {
    var m := FirstIndex(text, ';');
    var main := text[..m];
    var n, x := NameEnd(main, 0), NamePart(main);
    ReadMainIs(main, MarkerOf(text), n, x, main[x..]);
    PieceWithout(text, 0, m, c);
    assert text[0..m] == main;
    PieceWithout(main, n, x, c);
    StripWithout(main[x..], c);
  }

  lemma MarkedHasNo(main: string, marker: Option<string>, c: char)
    requires c !in main && (marker.Some? ==> c !in marker.value) && c != ';'
    ensures c !in Marked(main, marker)
  {
  }

  /** Raising the lower bound brings in no character but those of the version and of `>=,`. */
  lemma WrittenHasNo(text: string, v: string, c: char)
    requires IsPlainVersion(v) && c !in text && c !in v && c != '>' && c != '=' && c != ',' && c != ';'
    ensures c !in WithLowerBound(text, v)
  {
    if Read(text).Some? {
      var r := Read(text).value;
      ReadHasNo(text, c);
      RaisedHasNo(r.specifier, v, c);
      MarkedHasNo(r.name + r.extras + Raised(r.specifier, v), r.marker, c);
    }
  }

  // ----- Raising again -----

  lemma NoTrailingSpace(s: string, v: string)
    requires IsPlainVersion(v) && IsSpecifier(s)
    ensures Raised(s, v) != "" && !IsSpace(Raised(s, v)[|Raised(s, v)| - 1])
  {
    var x, m := Raised(s, v), AtLeast(v);
    assert m[|m| - 1] == v[|v| - 1];
    if HasLower(s) {
      var p, q := FirstLower(s), LowerEnd(s);
      if q == |s| {
        SpliceMiddle(s, p, q, m);
        assert x[p..p + |m|][|m| - 1] == x[|x| - 1];
      } else {
        SpliceRest(s, p, q, m, |s| - 1);
        assert x[|x| - 1..][0] == s[|s| - 1..][0];
      }
    }
  }

  lemma BoundIsNoSpace(x: string, p: nat, v: string)
    requires ReadsBound(x, p, v)
    ensures x[p] == '>'
  {
  }

  lemma GapLength(x: string, p: nat, j: nat, rest: string) returns (g: nat)
    requires j <= p < |x| && !IsSpace(x[p]) && rest == x[j..]
    ensures g == SpaceEnd(rest, 0) && j + g <= p && (g == 0 <==> !IsSpace(x[j]))
  {
    g := SpaceEnd(rest, 0);
    assert rest[p - j] == x[p] && rest[0] == x[j];
  }

  lemma StripIsDrop(y: string)
    requires y != "" && !IsSpace(y[|y| - 1])
    ensures Strip(y) == y[SpaceEnd(y, 0)..]
  {
  }

  /** Stripping what is left after the name part drops the white space at its start. */
  lemma RestStripped(x: string, p: nat, j: nat, rest: string) returns (g: nat)
    requires j <= p < |x| && !IsSpace(x[p]) && !IsSpace(x[|x| - 1]) && rest == x[j..]
    ensures j + g <= p && Strip(rest) == x[j + g..] && (g == 0 <==> !IsSpace(x[j]))
  {
    g := GapLength(x, p, j, rest);
    assert rest != "" && rest[|rest| - 1] == x[|x| - 1];
    StripIsDrop(rest);
    DropDrop(x, j, g);
  }

  /** And the new lower bound is still the first. */
  lemma StripAfterName(x: string, p: nat, v: string, j: nat, rest: string) returns (g: nat)
    requires BoundAt(x, p, v) && j <= p && !IsSpace(x[|x| - 1]) && rest == x[j..]
    ensures j + g <= p && Strip(rest) == x[j + g..] && BoundAt(x[j + g..], p - j - g, v) && (g == 0 <==> !IsSpace(x[j]))
  {
    BoundIsNoSpace(x, p, v);
    g := RestStripped(x, p, j, rest);
    BoundAfter(x, p, v, j + g);
  }

  lemma GapIsLeft(r: Requirement, v: string)
    requires IsPlainVersion(v) && IsRead(r) && BracketsClose(r.specifier)
    ensures var j := JoinLen(r); j < |Raised(r.specifier, v)| && (IsSpace(Raised(r.specifier, v)[j]) <==> LeavesGap(r))
  {
    var s, j := r.specifier, JoinLen(r);
    RaisedJoins(r, v);
    if HasLower(s) {
      LowerEndHolds(s);
      SpliceAgrees(s, FirstLower(s), LowerEnd(s), v);
    }
  }

  lemma RaisedShape(r: Requirement, v: string) returns (x: string, j: nat, p: nat)
    requires IsPlainVersion(v) && IsRead(r) && BracketsClose(r.specifier)
    ensures x == Raised(r.specifier, v) && j == JoinLen(r) && j <= p && BoundAt(x, p, v) && !IsSpace(x[|x| - 1])
    ensures IsSpace(x[j]) <==> LeavesGap(r)
  {
    x, j, p := Raised(r.specifier, v), JoinLen(r), BoundPlace(r.specifier);
    RaisedHasBound(r.specifier, v);
    RaisedJoins(r, v);
    NoTrailingSpace(r.specifier, v);
    GapIsLeft(r, v);
  }

  lemma SpecifierAgain(v: string, x: string, j: nat, p: nat) returns (y: string, q: nat)
    requires IsPlainVersion(v) && j <= p && BoundAt(x, p, v) && !IsSpace(x[|x| - 1])
    ensures y == Strip(x[j..]) && BoundAt(y, q, v)
    ensures y == x[j..] <==> !IsSpace(x[j])
  {
    var g := StripAfterName(x, p, v, j, x[j..]);
    y, q := x[j + g..], p - j - g;
    assert g > 0 ==> |y| < |x[j..]|;
  }

  /** The written specifier has the new lower bound first and is what was written unless there is a gap. */
  lemma RaisedTwice(r: Requirement, v: string, again: Requirement)
    requires IsPlainVersion(v) && IsRead(r) && BracketsClose(r.specifier) && MovesJoined(r, v, again)
    ensures Raised(again.specifier, v) == again.specifier
    ensures again.specifier == Raised(r.specifier, v)[JoinLen(r)..] <==> !LeavesGap(r)
    ensures HasLower(again.specifier) && BoundAt(again.specifier, FirstLower(again.specifier), v)
  {
    var x, j, p := RaisedShape(r, v);
    var y, q := SpecifierAgain(v, x, j, p);
    RaisedAgain(y, q, v);
    BoundIsFirst(y, q, v);
  }

  lemma Regroup(a: string, b: string, c: string, d: string, x: string, j: nat)
    requires j <= |x| && a + b == c + d + x[..j]
    ensures a + b + x[j..] == c + d + x
  {
  }

  lemma WrittenAs(r: Requirement, v: string, again: Requirement)
    requires IsPlainVersion(v) && BracketsClose(r.specifier) && MovesJoined(r, v, again)
    ensures var x := Raised(r.specifier, v);
            Written(again.(specifier := x[JoinLen(r)..])) == Written(r.(specifier := x))
  {
    var x, j := Raised(r.specifier, v), JoinLen(r);
    RaisedJoins(r, v);
    RaisedKeepsStart(r.specifier, v, j);
    Regroup(again.name, again.extras, r.name, r.extras, x, j);
  }

  lemma WrittenInjective(a: Requirement, other: string)
    ensures Written(a) == Written(a.(specifier := other)) <==> a.specifier == other
  {
    if Written(a) == Written(a.(specifier := other)) {
      assert |a.specifier| == |other|;
      var n := |a.name + a.extras|;
      assert Written(a)[n..n + |other|] == a.specifier;
      assert Written(a.(specifier := other))[n..n + |other|] == other;
    }
  }

  /** Raising the lower bound to the same version again changes nothing, exactly when no white space
      is left after the name part. */
  lemma RaisingAgain(text: string, v: string)
    requires IsPlainVersion(v) && Read(text).Some? && BracketsClose(Read(text).value.specifier)
    ensures var written := WithLowerBound(text, v);
            WithLowerBound(written, v) == written <==> !LeavesGap(Read(text).value)
  {
    var r := Read(text).value;
    var x, j := Raised(r.specifier, v), JoinLen(r);
    ReadIsRead(text);
    var again := NamePartStays(text, v);
    RaisedTwice(r, v, again);
    WrittenAs(r, v, again);
    WrittenInjective(again, x[j..]);
    assert again.(specifier := again.specifier) == again;
  }

  // ----- The upper bounds of the written requirement -----

  lemma TrimmedUpper(s: string, t: string)
    requires t == s[SpaceEnd(s, 0)..]
    ensures UpperAt(t) == UpperAt(s)
  {
  }

  /** The clauses of a text and of its rest after white space are the same. */
  lemma TrimmedClause(version: string, s: string, t: string, g: nat, c: nat)
    requires g == SpaceEnd(s, 0) && t == s[g..] && 0 < c <= |t|
    ensures ClauseStart(t, c) <==> ClauseStart(s, g + c)
    ensures t[c..] == s[g + c..]
  {
  }

  lemma SpaceAddsNoBounds(version: string, s: string, t: string, g: nat)
    requires g == SpaceEnd(s, 0) && t == s[g..] && MeetsBounds(version, t)
    ensures MeetsBounds(version, s)
  {
    assert ClauseStart(t, 0) && t[0..] == t && s[0..] == s;
    TrimmedUpper(s, t);
    forall c | 0 <= c <= |s| && ClauseStart(s, c) ensures MeetsClause(version, s[c..]) {
      if c > 0 {
        assert c > g;
        TrimmedClause(version, s, t, g, c - g);
      }
    }
  }

  lemma SpaceHidesNoBounds(version: string, s: string, t: string, g: nat)
    requires g == SpaceEnd(s, 0) && t == s[g..] && MeetsBounds(version, s)
    ensures MeetsBounds(version, t)
  {
    assert ClauseStart(s, 0) && t[0..] == t && s[0..] == s;
    TrimmedUpper(s, t);
    forall c | 0 <= c <= |t| && ClauseStart(t, c) ensures MeetsClause(version, t[c..]) {
      if c > 0 { TrimmedClause(version, s, t, g, c); }
    }
  }

  /** White space at the start does not matter. */
  lemma SpaceKeepsBounds(version: string, s: string, t: string, g: nat)
    requires g == SpaceEnd(s, 0) && t == s[g..]
    ensures MeetsBounds(version, s) <==> MeetsBounds(version, t)
  {
    if MeetsBounds(version, s) { SpaceHidesNoBounds(version, s, t, g); }
    if MeetsBounds(version, t) { SpaceAddsNoBounds(version, s, t, g); }
  }

  /** `s` and `t` agree up to `k`, then have stretches without comma that start with `>`, and go on alike. */
  ghost predicate Swaps(s: string, t: string, k: nat, a: nat, b: nat) {
    && Agree(s, t, k) && k <= a <= |s| && k <= b <= |t| && s[a..] == t[b..]
    && (forall i :: k <= i < a ==> s[i] != ',') && forall i :: k <= i < b ==> t[i] != ','
  }

  lemma LaterClause(s: string, t: string, a: nat, b: nat, c: nat)
    requires a <= |s| && b < c <= |t| && s[a..] == t[b..] && ClauseStart(t, c)
    ensures ClauseStart(s, c - b + a) && s[c - b + a..] == t[c..]
  {
  }

  lemma SwapKeepsClause(version: string, s: string, t: string, k: nat, a: nat, b: nat, c: nat)
    requires Swaps(s, t, k, a, b) && MeetsBounds(version, s) && c <= |t| && ClauseStart(t, c)
    ensures MeetsClause(version, t[c..])
  {
    if c <= k {
      assert ClauseStart(s, c);
      AgreeLater(s, t, k, c);
      ClauseAgrees(version, s[c..], t[c..], k - c);
    } else {
      assert c > b;
      LaterClause(s, t, a, b, c);
    }
  }

  lemma SwapKeepsBounds(version: string, s: string, t: string, k: nat, a: nat, b: nat)
    requires Swaps(s, t, k, a, b) && MeetsBounds(version, s)
    ensures MeetsBounds(version, t)
  {
    forall c | 0 <= c <= |t| && ClauseStart(t, c) ensures MeetsClause(version, t[c..]) {
      SwapKeepsClause(version, s, t, k, a, b, c);
    }
  }

  lemma SwapsBack(s: string, t: string, k: nat, a: nat, b: nat)
    requires Swaps(s, t, k, a, b)
    ensures Swaps(t, s, k, b, a)
  {
  }

  lemma BoundHasNoComma(x: string, p: nat, v: string)
    requires IsPlainVersion(v) && ReadsBound(x, p, v)
    ensures forall i :: p <= i < p + 2 + |v| ==> x[i] != ','
  {
  }

  lemma RaisedSwaps(s: string, v: string, x: string, j: nat)
    requires IsPlainVersion(v) && HasLower(s) && j <= FirstLower(s) && x == Raised(s, v)
    ensures var p := FirstLower(s);
            p + 2 + |v| <= |x| && Swaps(s[j..], x[j..], p - j, LowerEnd(s) - j, p + 2 + |v| - j)
  {
    var p, q, b := FirstLower(s), LowerEnd(s), FirstLower(s) + 2 + |v|;
    LowerEndHolds(s);
    SpliceAgrees(s, p, q, v);
    SpliceRest(s, p, q, AtLeast(v), q);
    RaisedHasBound(s, v);
    BoundHasNoComma(x, p, v);
    AgreeLater(s, x, p, j);
    DropDrop(s, j, q - j);
    DropDrop(x, j, b - j);
  }

  /** A new first clause adds no upper bound. */
  lemma PrependedKeepsBounds(version: string, s: string, v: string, x: string)
    requires IsPlainVersion(v) && x == AtLeast(v) + "," + s
    ensures MeetsBounds(version, x) <==> MeetsBounds(version, s)
  {
    var n := |v| + 3;
    PlainHasNo(v);
    assert x[n..] == s && s[0..] == s && x[0..] == x;
    assert forall i :: 0 <= i < n - 1 ==> x[i] == AtLeast(v)[i] && x[i] != ',';
    assert x[0] == '>' && UpperAt(x).None?;
    if MeetsBounds(version, x) {
      forall c | 0 <= c <= |s| && ClauseStart(s, c) ensures MeetsClause(version, s[c..]) {
        assert x[n - 1] == ',' && ClauseStart(x, n);
        if c > 0 { LaterClause(x, s, n, 0, c); }
      }
    }
    if MeetsBounds(version, s) {
      forall c | 0 <= c <= |x| && ClauseStart(x, c) ensures MeetsClause(version, x[c..]) {
        if c > n {
          LaterClause(s, x, 0, n, c);
        } else if c == n {
          assert ClauseStart(s, 0);
        }
      }
    }
  }

  lemma BareBoundMeets(version: string, v: string)
    requires IsPlainVersion(v)
    ensures MeetsBounds(version, AtLeast(v)) && MeetsBounds(version, "")
  {
    PlainHasNo(v);
    var x := AtLeast(v);
    assert x[0] == '>' && x[0..] == x && UpperAt(x).None?;
    assert forall i :: 0 <= i < |x| ==> x[i] != ',';
  }

  ghost predicate SameBounds(version: string, s: string, t: string) {
    MeetsBounds(version, s) <==> MeetsBounds(version, t)
  }

  lemma SwapSameBounds(version: string, s: string, t: string, k: nat, a: nat, b: nat)
    requires Swaps(s, t, k, a, b)
    ensures SameBounds(version, s, t)
  {
    SwapsBack(s, t, k, a, b);
    if MeetsBounds(version, s) { SwapKeepsBounds(version, s, t, k, a, b); }
    if MeetsBounds(version, t) { SwapKeepsBounds(version, t, s, k, b, a); }
  }

  lemma AppendedSameBounds(version: string, s: string, v: string, x: string)
    requires IsPlainVersion(v) && x == Raised(s, v) && !HasLower(s)
    ensures SameBounds(version, x, s)
  {
    if s == "" { BareBoundMeets(version, v); } else { PrependedKeepsBounds(version, s, v, x); }
  }

  lemma SplicedSameBounds(version: string, s: string, v: string, x: string, j: nat)
    requires IsPlainVersion(v) && x == Raised(s, v) && HasLower(s) && j <= FirstLower(s)
    ensures j <= |x| && SameBounds(version, x[j..], s[j..])
  {
    var p := FirstLower(s);
    RaisedSwaps(s, v, x, j);
    SwapSameBounds(version, s[j..], x[j..], p - j, LowerEnd(s) - j, p + 2 + |v| - j);
  }

  lemma RaisedSameBounds(version: string, s: string, v: string, x: string, j: nat)
    requires IsPlainVersion(v) && x == Raised(s, v) && j <= BoundPlace(s)
    ensures j <= |x| && SameBounds(version, x[j..], s[j..])
  {
    if HasLower(s) {
      SplicedSameBounds(version, s, v, x, j);
    } else {
      AppendedSameBounds(version, s, v, x);
      assert x[0..] == x && s[0..] == s;
    }
  }

  lemma StripSameBounds(version: string, rest: string)
    requires rest != "" && !IsSpace(rest[|rest| - 1])
    ensures SameBounds(version, Strip(rest), rest)
  {
    StripIsDrop(rest);
    SpaceKeepsBounds(version, rest, Strip(rest), SpaceEnd(rest, 0));
  }

  lemma RestSameBounds(version: string, x: string, j: nat)
    requires j < |x| && !IsSpace(x[|x| - 1])
    ensures SameBounds(version, Strip(x[j..]), x[j..])
  {
    StripSameBounds(version, x[j..]);
  }

  lemma AgainSameBounds(version: string, r: Requirement, v: string, again: Requirement)
    requires IsPlainVersion(v) && IsRead(r) && BracketsClose(r.specifier) && MovesJoined(r, v, again)
    ensures SameBounds(version, again.specifier, r.specifier[JoinLen(r)..])
  {
    var x, j, p := RaisedShape(r, v);
    RaisedJoins(r, v);
    RaisedSameBounds(version, r.specifier, v, x, j);
    RestSameBounds(version, x, j);
  }

  /** The upper bounds of the written requirement are those that stand after what joins the name:
      every one of them when nothing joins. */
  lemma UpperBoundsStay(text: string, v: string, version: string)
    requires IsPlainVersion(v) && Read(text).Some? && BracketsClose(Read(text).value.specifier)
    ensures var r := Read(text).value;
            SatisfiesUpperBounds(WithLowerBound(text, v), version) <==> MeetsBounds(version, r.specifier[JoinLen(r)..])
    ensures JoinLen(Read(text).value) == 0 ==>
              (SatisfiesUpperBounds(WithLowerBound(text, v), version) <==> SatisfiesUpperBounds(text, version))
  {
    var r := Read(text).value;
    ReadIsRead(text);
    var again := NamePartStays(text, v);
    AgainSameBounds(version, r, v, again);
    assert r.specifier[0..] == r.specifier;
  }

  // ----- White space before what joins -----

  lemma RestClosed(x: string, p: nat, v: string, j: nat)
    requires IsPlainVersion(v) && BoundAt(x, p, v) && j <= p && !IsSpace(x[|x| - 1])
    requires forall k :: p <= k < |x| ==> x[k] != ']'
    ensures BracketsClose(Strip(x[j..]))
  {
    var g := StripAfterName(x, p, v, j, x[j..]);
    BoundIsFirst(x[j + g..], p - j - g, v);
  }

  lemma BracketsCloseAgain(r: Requirement, v: string, again: Requirement)
    requires IsPlainVersion(v) && IsRead(r) && BracketsClose(r.specifier) && HasLower(r.specifier)
    requires MovesJoined(r, v, again)
    ensures BracketsClose(again.specifier)
  {
    PlainHasNo(v);
    RaisedWithout(r.specifier, v, FirstLower(r.specifier), ']');
    RaisedHasBound(r.specifier, v);
    RaisedJoins(r, v);
    NoTrailingSpace(r.specifier, v);
    RestClosed(Raised(r.specifier, v), FirstLower(r.specifier), v, JoinLen(r));
  }

  /** A requirement that leaves a gap has no extras, and what joins is the extras of the written one,
      which leaves none. */
  lemma GapIsClosed(r: Requirement, v: string, again: Requirement)
    requires IsPlainVersion(v) && IsRead(r) && BracketsClose(r.specifier) && LeavesGap(r) && MovesJoined(r, v, again)
    requires NameEnd(r.specifier, 0) == 0 && IsRead(again)
    ensures HasLower(r.specifier) && again.extras != "" && !LeavesGap(again) && BracketsClose(again.specifier)
  {
    BracketsCloseAgain(r, v, again);
    var j := JoinLen(r);
    assert j > 0;
    assert |again.name + again.extras| == |r.name| + |r.extras| + j;
  }

  /** Extras up to `n`, a blank, and behind it the bounds, the first lower bound among them. */
  ghost predicate IsSpaced(s: string, n: nat, bounds: string) {
    && n + 1 < |s| && ExtrasLen(s) == n > 0 && s[n] == ' ' && s[n + 1..] == bounds && ';' !in s
    && (forall k :: 0 <= k < n ==> s[k] != '>' && s[k] != ',')
    && ']' !in bounds && HasLower(bounds) && !IsSpace(bounds[0]) && !IsSpace(bounds[|bounds| - 1])
  }

  lemma SpacedSpecifier(s: string, n: nat, bounds: string)
    requires IsSpaced(s, n, bounds)
    ensures IsSpecifier(s) && s != "" && s[0] == '[' && forall k :: n < k < |s| ==> s[k] == bounds[k - n - 1]
  {
    assert forall k :: n < k < |s| ==> s[k] == s[n + 1..][k - n - 1];
  }

  lemma SpacedMain(name: string, specifier: string, main: string)
    requires IsName(name) && main == name + (" " + specifier) && IsSpecifier(specifier) && specifier != ""
    ensures ReadMain(main, None) == Some(Requirement(name, "", specifier, None))
  {
    var n, tail := |name|, " " + specifier;
    assert main[n..] == tail && main[..n] == name && main[n] == ' ';
    assert forall k :: 0 <= k < n ==> main[k] == name[k];
    NamePartJoins(main, n, tail);
    assert tail[0] == ' ' && NameEnd(tail, 0) == 0 && tail[0..] == tail;
    assert ExtrasLen(tail) == 0 && NamePart(main) == n && main[n..n] == "";
    assert SpaceEnd(tail, 0) == 1 && tail[1..] == specifier;
    TrimEndOfTrimmed(specifier);
    ReadMainIs(main, None, n, n, tail);
  }

  lemma SpacedIsRead(name: string, s: string, n: nat, bounds: string, text: string)
    requires IsName(name) && IsSpaced(s, n, bounds) && text == name + (" " + s)
    ensures Read(text) == Some(Requirement(name, "", s, None))
  {
    SpacedSpecifier(s, n, bounds);
    assert ';' !in text;
    MarkedIsRead(text, None);
    SpacedMain(name, s, text);
  }

  lemma LowerHere(s: string, i: nat)
    requires i <= |s| && LowerLen(s[i..]) > 0
    ensures i < |s| && FirstLower(s) <= i
  {
  }

  lemma LowerBehind(s: string, n: nat, bounds: string)
    requires n <= |s| && s[n..] == bounds && HasLower(bounds) && forall k :: 0 <= k < n ==> s[k] != '>'
    ensures n <= FirstLower(s) < |s|
  {
    var f := FirstLower(bounds);
    DropDrop(s, n, f);
    LowerHere(s, n + f);
    LowerEndHolds(s);
  }

  lemma OnlyExtras(s: string, n: nat)
    requires ExtrasLen(s) == n > 0
    ensures NamePart(s) == n && NameEnd(s, 0) == 0
  {
    assert s[0..] == s;
  }

  lemma ClosedBehind(s: string, n: nat)
    requires n <= FirstLower(s) && forall k :: n <= k < |s| ==> s[k] != ']'
    ensures BracketsClose(s)
  {
  }

  lemma SpacedJoins(s: string, n: nat, bounds: string)
    requires IsSpaced(s, n, bounds)
    ensures HasLower(s) && BracketsClose(s)
  {
    SpacedSpecifier(s, n, bounds);
    LowerBehind(s, n + 1, bounds);
    ClosedBehind(s, n + 1);
  }

  /** A requirement with a blank before its extras and one behind them. */
  lemma SpaceBeforeExtras(name: string, s: string, n: nat, bounds: string, text: string) returns (r: Requirement)
    requires IsName(name) && IsSpaced(s, n, bounds) && text == name + (" " + s)
    ensures Read(text) == Some(r) && r.name == name && r.extras == "" && r.specifier == s
    ensures HasLower(s) && BracketsClose(s)
  {
    SpacedIsRead(name, s, n, bounds, text);
    SpacedJoins(s, n, bounds);
    r := Requirement(name, "", s, None);
  }

  // ----- Two of them -----

  lemma KeyOfDigit(d: char)
    requires IsDigit(d)
    ensures VersionKey([d]) == Some([DigitValue(d)])
  {
    var s := [d];
    assert DigitsEnd(s, 0) == 1 && s[0..1] == s && s[..0] == "";
    assert Components(s, 0) == [s];
    assert Number(s) == DigitValue(d);
    assert Numbers([s]) == [DigitValue(d)];
  }

  lemma FiveAboveThree()
    ensures CompareVersions("5", "3") == Some(1)
  {
    KeyOfDigit('5');
    KeyOfDigit('3');
    assert Padded([5], 1) == [5] && Padded([3], 1) == [3];
  }

  /** `t` is `<3,>1`: five is not below three. */
  lemma UpperThree(t: string)
    requires |t| > 2 && t[0] == '<' && t[1] == '3' && t[2] == ','
    ensures !MeetsClause("5", t)
  {
    assert t[0..] == t && SpaceEnd(t, 0) == 0;
    assert ValueStart(t, 1) == Some(1) && RunEnd(t, 1) == 2 && t[1..2] == "3";
    assert UpperAt(t) == Some(Upper(true, "3"));
    FiveAboveThree();
  }

  lemma LastBound(s: string, p: nat)
    requires p + 2 == |s| && s[p] == '>' && IsDigit(s[p + 1]) && forall k :: 0 <= k < p ==> s[k] != '>'
    ensures FirstLower(s) == p
  {
    var t := s[p..];
    assert t[0] == '>' && t[1] == s[p + 1] && ValueStart(t, 1) == Some(1) && RunEnd(t, 1) == 2;
    assert forall k :: 0 <= k < p ==> s[k..][0] == s[k];
    FirstLowerIs(s, p, 0);
  }

  lemma SmallExtras(s: string)
    requires |s| > 3 && s[0] == '[' && s[1] != ']' && s[2] == ']'
    ensures ExtrasLen(s) == 3
  {
  }

  /** Extras of one letter, a blank, and bounds that end with the first lower bound. */
  ghost predicate IsSmall(s: string, bounds: string, p: nat) {
    && |s| > 4 && s[0] == '[' && s[1] == 'b' && s[2] == ']' && s[3] == ' ' && s[4..] == bounds
    && p + 2 == |bounds| && bounds[p] == '>' && IsDigit(bounds[p + 1]) && !IsSpace(bounds[0])
    && ';' !in bounds && ']' !in bounds && forall k :: 0 <= k < p ==> bounds[k] != '>'
  }

  lemma SmallSpaced(s: string, bounds: string, p: nat)
    requires IsSmall(s, bounds, p)
    ensures IsSpaced(s, 3, bounds)
  {
    assert forall k :: 4 <= k < |s| ==> s[k] == bounds[k - 4];
    assert ';' !in s;
    SmallExtras(s);
    LastBound(bounds, p);
  }
}
