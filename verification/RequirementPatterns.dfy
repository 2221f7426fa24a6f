/**
 The patterns behind the matchers of requirements: what each pattern can match, stated on its own,
 and which of these matches its greedy and ordered choices come to.
 */
module RequirementPatterns {
  import opened Prelude
  import opened Text
  import opened Requirements

  // ----- Extras -----

  /** A bracket, at least one character other than a closing bracket, and a closing bracket. */
  ghost predicate MatchesExtras(s: string, n: nat) {
    3 <= n <= |s| && s[0] == '[' && s[n - 1] == ']' && forall k :: 1 <= k < n - 1 ==> s[k] != ']'
  }

  lemma ExtrasMean(s: string, n: nat)
    requires n > 0
    ensures ExtrasLen(s) == n <==> MatchesExtras(s, n)
  {
    if MatchesExtras(s, n) { FirstIndexIs(s, ']', n - 1); }
  }

  // ----- Versions -----

  /** White space from `i` on, and a character of a version at `b`. */
  ghost predicate IsValueAt(s: string, i: nat, b: nat) {
    i <= b < |s| && (forall k :: i <= k < b ==> IsSpace(s[k])) && !IsStop(s[b])
  }

  /** The version starts as late as it can; there is none exactly when it can start nowhere. */
  ghost predicate IsLatestValue(s: string, i: nat, start: Option<nat>) {
    match start
    case None => forall b: nat :: !IsValueAt(s, i, b)
    case Some(b) => IsValueAt(s, i, b) && forall c: nat :: IsValueAt(s, i, c) ==> c <= b
  }

  /** White space is greedy, and gives back what a version needs: other white space than a blank can
      stand in a version. */
  lemma ValueStartMeans(s: string, i: nat)
    requires i <= |s|
    ensures IsLatestValue(s, i, ValueStart(s, i))
  {
    var q := SpaceEnd(s, i);
    var j := LastNonBlank(s, i, q);
    assert IsSpace(' ') && !IsSpace(',') && !IsSpace(';');
    forall b: nat | IsValueAt(s, i, b) ensures b <= q {}
  }

  lemma ValueMoves(s: string, p: nat, i: nat, b: nat)
    requires p <= |s| && p <= i && p <= b
    ensures IsValueAt(s[p..], i - p, b - p) <==> IsValueAt(s, i, b)
  {
    if IsValueAt(s[p..], i - p, b - p) {
      forall k | i <= k < b ensures IsSpace(s[k]) { assert s[p..][k - p] == s[k]; }
    }
  }

  // ----- Lower bounds -----

  /** At `p`, `>=` or `>`, of `o` characters, and a version that starts at `b`. */
  ghost predicate IsLowerAt(s: string, p: nat, o: nat, b: nat) {
    p + o <= |s| && 1 <= o <= 2 && s[p] == '>' && (o == 2 ==> s[p + 1] == '=') && IsValueAt(s, p + o, b)
  }

  /** The match at `p` that the pattern comes to: `>=` before `>`, and the latest start of the version. */
  ghost predicate IsFirstLowerAt(s: string, p: nat, o: nat, b: nat) {
    && IsLowerAt(s, p, o, b) && (o == 1 ==> forall c: nat :: !IsLowerAt(s, p, 2, c))
    && forall c: nat :: IsLowerAt(s, p, o, c) ==> c <= b
  }

  lemma LowerMeans(t: string)
    ensures LowerStart(t).None? ==> forall o: nat, b: nat :: !IsLowerAt(t, 0, o, b)
    ensures LowerStart(t).Some? ==> exists o: nat :: IsFirstLowerAt(t, 0, o, LowerStart(t).value)
  {
    if t != "" && t[0] == '>' {
      ValueStartMeans(t, 1);
      if |t| > 1 { ValueStartMeans(t, 2); }
      if LowerStart(t).Some? {
        var o: nat := if |t| > 1 && t[1] == '=' && ValueStart(t, 2).Some? then 2 else 1;
        assert IsFirstLowerAt(t, 0, o, LowerStart(t).value);
      }
    }
  }

  lemma LowerMoves(s: string, p: nat, o: nat, b: nat)
    requires p <= |s| && p <= b
    ensures IsLowerAt(s[p..], 0, o, b - p) <==> IsLowerAt(s, p, o, b)
  {
    ValueMoves(s, p, p + o, b);
  }

  lemma LowerLenMeans(s: string, p: nat)
    requires p <= |s|
    ensures LowerLen(s[p..]) > 0 <==> exists o: nat, b: nat :: IsLowerAt(s, p, o, b)
  {
    LowerMeans(s[p..]);
    if LowerLen(s[p..]) > 0 {
      var o: nat :| IsFirstLowerAt(s[p..], 0, o, LowerStart(s[p..]).value);
      LowerMoves(s, p, o, LowerStart(s[p..]).value + p);
      assert IsLowerAt(s, p, o, LowerStart(s[p..]).value + p);
    }
    if o: nat, b: nat :| IsLowerAt(s, p, o, b) { LowerMoves(s, p, o, b); }
  }

  lemma FirstMoves(s: string, p: nat, o: nat, b: nat)
    requires p <= |s| && p <= b && IsFirstLowerAt(s[p..], 0, o, b - p)
    ensures IsFirstLowerAt(s, p, o, b)
  {
    LowerMoves(s, p, o, b);
    forall c: nat | o == 1 ensures !IsLowerAt(s, p, 2, c) {
      if c >= p { LowerMoves(s, p, 2, c); }
    }
    forall c: nat | IsLowerAt(s, p, o, c) ensures c <= b { LowerMoves(s, p, o, c); }
  }

  lemma NoLowerBefore(s: string, p: nat, o: nat, b: nat)
    requires IsLowerAt(s, p, o, b)
    ensures FirstLower(s) <= p < |s|
  {
    LowerLenMeans(s, p);
  }

  lemma FirstLowerFound(s: string) returns (o: nat, b: nat)
    requires FirstLower(s) < |s|
    ensures IsFirstLowerAt(s, FirstLower(s), o, b) && LowerEnd(s) == RunEnd(s, b)
  {
    var p := FirstLower(s);
    var t := s[p..];
    LowerMeans(t);
    var start := LowerStart(t).value;
    o :| IsFirstLowerAt(t, 0, o, start);
    b := p + start;
    FirstMoves(s, p, o, b);
    RunEndMoves(s, p, start);
  }

  /** The search finds the leftmost place where the pattern matches, if there is one, and there the
      match that the pattern comes to, up to the next stop. */
  lemma FirstLowerMeans(s: string)
    ensures FirstLower(s) < |s| <==> exists p: nat, o: nat, b: nat :: IsLowerAt(s, p, o, b)
    ensures forall p: nat, o: nat, b: nat :: IsLowerAt(s, p, o, b) ==> FirstLower(s) <= p
    ensures FirstLower(s) < |s| ==>
              exists o: nat, b: nat :: IsFirstLowerAt(s, FirstLower(s), o, b) && LowerEnd(s) == RunEnd(s, b)
  {
    forall p: nat, o: nat, b: nat | IsLowerAt(s, p, o, b) ensures FirstLower(s) <= p < |s| {
      NoLowerBefore(s, p, o, b);
    }
    if FirstLower(s) < |s| { var o, b := FirstLowerFound(s); }
  }

  lemma {:induction false} RunEndMoves(s: string, p: nat, b: nat)
    requires p + b <= |s|
    ensures RunEnd(s, p + b) == p + RunEnd(s[p..], b)
    decreases |s| - b
  {
    if p + b < |s| {
      assert s[p..][b] == s[p + b];
      if !IsStop(s[p + b]) { RunEndMoves(s, p, b + 1); }
    }
  }

  // ----- Upper bounds -----

  /** White space up to `w`, there `<=` or `<`, of `o` characters, and a version that starts at `b`. */
  ghost predicate IsUpper(t: string, w: nat, o: nat, b: nat) {
    && w + o <= |t| && 1 <= o <= 2 && (forall k :: 0 <= k < w ==> IsSpace(t[k])) && t[w] == '<'
    && (o == 2 ==> t[w + 1] == '=') && IsValueAt(t, w + o, b)
  }

  /** The match that the pattern comes to. */
  ghost predicate IsFirstUpper(t: string, w: nat, o: nat, b: nat) {
    && IsUpper(t, w, o, b) && (o == 1 ==> forall c: nat :: !IsUpper(t, w, 2, c))
    && forall c: nat :: IsUpper(t, w, o, c) ==> c <= b
  }

  lemma UpperIsAfterSpace(t: string, w: nat, o: nat, b: nat)
    requires IsUpper(t, w, o, b)
    ensures SpaceEnd(t, 0) == w
  {
    var q := SpaceEnd(t, 0);
    assert !IsSpace('<') && !IsSpace(t[w]);
  }

  lemma UpperMoves(t: string, w: nat, o: nat, b: nat)
    requires w <= |t| && w <= b && forall k :: 0 <= k < w ==> IsSpace(t[k])
    ensures IsUpper(t[w..], 0, o, b - w) <==> IsUpper(t, w, o, b)
  {
    ValueMoves(t, w, w + o, b);
  }

  lemma BareMeans(t: string)
    ensures UpperBare(t).None? ==> forall o: nat, b: nat :: !IsUpper(t, 0, o, b)
    ensures UpperBare(t).Some? ==>
              exists o: nat, b: nat ::
                IsFirstUpper(t, 0, o, b) && UpperBare(t) == Some(Upper(o == 1, t[b..RunEnd(t, b)]))
  {
    if t != "" && t[0] == '<' {
      ValueStartMeans(t, 1);
      if |t| > 1 { ValueStartMeans(t, 2); }
      if UpperBare(t).Some? {
        var o: nat := if Inclusive(t).Some? then 2 else 1;
        var b := ValueStart(t, o).value;
        assert IsFirstUpper(t, 0, o, b);
      }
    }
  }

  lemma FirstUpperMoves(t: string, w: nat, o: nat, b: nat)
    requires w <= |t| && w <= b && (forall k :: 0 <= k < w ==> IsSpace(t[k])) && IsFirstUpper(t[w..], 0, o, b - w)
    ensures IsFirstUpper(t, w, o, b)
  {
    UpperMoves(t, w, o, b);
    forall c: nat | o == 1 ensures !IsUpper(t, w, 2, c) {
      if c >= w { UpperMoves(t, w, 2, c); }
    }
    forall c: nat | IsUpper(t, w, o, c) ensures c <= b { UpperMoves(t, w, o, c); }
  }

  lemma BareFound(t: string) returns (o: nat, b: nat)
    requires UpperBare(t).Some?
    ensures IsFirstUpper(t, 0, o, b) && UpperBare(t) == Some(Upper(o == 1, t[b..RunEnd(t, b)]))
  {
    BareMeans(t);
    o, b :| IsFirstUpper(t, 0, o, b) && UpperBare(t) == Some(Upper(o == 1, t[b..RunEnd(t, b)]));
  }

  lemma RunMoves(t: string, w: nat, c: nat)
    requires w + c <= |t|
    ensures t[w..][c..RunEnd(t[w..], c)] == t[w + c..RunEnd(t, w + c)]
  {
    RunEndMoves(t, w, c);
    SliceOfRest(t, w, w + c, RunEnd(t, w + c));
  }

  lemma UpperFound(t: string) returns (w: nat, o: nat, b: nat)
    requires UpperAt(t).Some?
    ensures IsFirstUpper(t, w, o, b) && UpperAt(t) == Some(Upper(o == 1, t[b..RunEnd(t, b)]))
  {
    w := SpaceEnd(t, 0);
    var c: nat;
    o, c := BareFound(t[w..]);
    b := w + c;
    FirstUpperMoves(t, w, o, b);
    RunMoves(t, w, c);
  }

  lemma UpperIsFound(t: string, w: nat, o: nat, b: nat)
    requires IsUpper(t, w, o, b)
    ensures UpperAt(t).Some?
  {
    UpperIsAfterSpace(t, w, o, b);
    UpperMoves(t, w, o, b);
    BareMeans(t[w..]);
  }

  /** A clause gives an upper bound exactly when the pattern matches at its start, and then the one of
      the match that the pattern comes to. */
  lemma UpperMeans(t: string)
    ensures UpperAt(t).Some? <==> exists w: nat, o: nat, b: nat :: IsUpper(t, w, o, b)
    ensures UpperAt(t).Some? ==>
              exists w: nat, o: nat, b: nat ::
                IsFirstUpper(t, w, o, b) && UpperAt(t) == Some(Upper(o == 1, t[b..RunEnd(t, b)]))
  {
    if UpperAt(t).Some? { var w, o, b := UpperFound(t); }
    if w: nat, o: nat, b: nat :| IsUpper(t, w, o, b) { UpperIsFound(t, w, o, b); }
  }
}
