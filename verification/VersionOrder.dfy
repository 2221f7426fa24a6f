/** Comparing versions by their release numbers. */
module VersionOrder {
  import opened Prelude
  import opened Text
  import opened Versions

  function VersionKey(version: string): Option<seq<nat>> {
    if ReleaseEnd(version, 0) == 0 then None else Some(Numbers(Components(version, 0)))
  }

  function Padded(key: seq<nat>, length: nat): (p: seq<nat>)
    requires |key| <= length
    ensures |p| == length
  {
    key + seq(length - |key|, i => 0)
  }

  /** Tuple comparison of keys of the same length. */
  function CompareTuples(left: seq<nat>, right: seq<nat>): int
    requires |left| == |right|
  {
    if left == [] then 0
    else if left[0] != right[0] then (if left[0] < right[0] then -1 else 1)
    else CompareTuples(left[1..], right[1..])
  }

  function CompareKeys(left: seq<nat>, right: seq<nat>): int {
    var length := if |left| < |right| then |right| else |left|;
    CompareTuples(Padded(left, length), Padded(right, length))
  }

  function CompareVersions(left: string, right: string): Option<int> {
    match (VersionKey(left), VersionKey(right))
    case (Some(l), Some(r)) => Some(CompareKeys(l, r))
    case _ => None
  }

  // ----- What the comparison means -----

  /** The component at `i` of a key continued with zeros for ever. */
  function At(key: seq<nat>, i: nat): nat {
    if i < |key| then key[i] else 0
  }

  ghost predicate SameValue(left: seq<nat>, right: seq<nat>) {
    forall i: nat :: At(left, i) == At(right, i)
  }

  /** `left` is below `right` at the first component where they differ. */
  ghost predicate DiffersAt(left: seq<nat>, right: seq<nat>, i: nat) {
    At(left, i) < At(right, i) && forall j: nat :: j < i ==> At(left, j) == At(right, j)
  }

  ghost predicate Below(left: seq<nat>, right: seq<nat>) {
    exists i: nat :: DiffersAt(left, right, i)
  }

  lemma {:induction false} TuplesDiffer(left: seq<nat>, right: seq<nat>) returns (i: nat)
    requires |left| == |right|
    ensures var c := CompareTuples(left, right);
            (c == 0 && left == right) ||
            (i < |left| && left[..i] == right[..i] &&
             ((c == -1 && left[i] < right[i]) || (c == 1 && left[i] > right[i])))
  {
    i := 0;
    if left != [] && left[0] == right[0] {
      var k := TuplesDiffer(left[1..], right[1..]);
      i := k + 1;
      if k < |left[1..]| && left[1..][..k] == right[1..][..k] {
        assert left[..i] == [left[0]] + left[1..][..k] && right[..i] == [right[0]] + right[1..][..k];
      }
      if left[1..] == right[1..] {
        assert left == [left[0]] + left[1..] && right == [right[0]] + right[1..];
      }
    }
  }

  lemma PaddedAt(key: seq<nat>, length: nat)
    requires |key| <= length
    ensures forall i :: 0 <= i < length ==> Padded(key, length)[i] == At(key, i)
  {
  }

  lemma NotBelowAndAbove(left: seq<nat>, right: seq<nat>)
    ensures !(Below(left, right) && Below(right, left))
    ensures SameValue(left, right) ==> !Below(left, right)
  {
  }

  lemma ComparisonImplies(left: seq<nat>, right: seq<nat>)
    ensures var c := CompareKeys(left, right);
            (c == 0 && SameValue(left, right)) || (c == -1 && Below(left, right)) || (c == 1 && Below(right, left))
  {
    var length := if |left| < |right| then |right| else |left|;
    var l, r := Padded(left, length), Padded(right, length);
    PaddedAt(left, length);
    PaddedAt(right, length);
    var i := TuplesDiffer(l, r);
    if l == r {
      forall k: nat ensures At(left, k) == At(right, k) {
        if k < length { assert l[k] == r[k]; }
      }
    }
    if CompareTuples(l, r) != 0 {
      forall j: nat | j < i ensures At(left, j) == At(right, j) { assert l[..i][j] == r[..i][j]; }
      assert if l[i] < r[i] then DiffersAt(left, right, i) else DiffersAt(right, left, i);
    }
  }

  /** The comparison is the lexicographic one of the keys continued with zeros. */
  lemma ComparisonMeans(left: seq<nat>, right: seq<nat>)
    ensures var c := CompareKeys(left, right);
            && -1 <= c <= 1
            && (c == 0 <==> SameValue(left, right))
            && (c == -1 <==> Below(left, right))
            && (c == 1 <==> Below(right, left))
  {
    ComparisonImplies(left, right);
    NotBelowAndAbove(left, right);
    NotBelowAndAbove(right, left);
  }

  lemma BelowTransitive(a: seq<nat>, b: seq<nat>, c: seq<nat>)
    requires (Below(a, b) || SameValue(a, b)) && (Below(b, c) || SameValue(b, c))
    ensures Below(a, c) || SameValue(a, c)
    ensures Below(a, b) || Below(b, c) ==> Below(a, c)
  {
    if Below(a, b) && Below(b, c) {
      var i: nat :| DiffersAt(a, b, i);
      var j: nat :| DiffersAt(b, c, j);
      assert DiffersAt(a, c, if i < j then i else j);
    } else if Below(a, b) {
      var i: nat :| DiffersAt(a, b, i);
      assert DiffersAt(a, c, i);
    } else if Below(b, c) {
      var j: nat :| DiffersAt(b, c, j);
      assert DiffersAt(a, c, j);
    }
  }

  /** The comparison of versions is a total preorder on the versions that start with a release
      number, and undefined exactly when one of them does not. */
  lemma VersionsTotallyPreordered(a: string, b: string, c: string)
    ensures CompareVersions(a, b).None? <==> VersionKey(a).None? || VersionKey(b).None?
    ensures VersionKey(a).Some? ==> CompareVersions(a, a) == Some(0)
    ensures CompareVersions(a, b).Some? ==> CompareVersions(b, a) == Some(-CompareVersions(a, b).value)
    ensures var ab, bc, ac := CompareVersions(a, b), CompareVersions(b, c), CompareVersions(a, c);
            ab.Some? && bc.Some? && ab.value <= 0 && bc.value <= 0 ==>
              ac.Some? && ac.value <= 0 && (ab.value < 0 || bc.value < 0 ==> ac.value < 0)
  {
    if VersionKey(a).Some? {
      var ka := VersionKey(a).value;
      ComparisonMeans(ka, ka);
      if VersionKey(b).Some? {
        var kb := VersionKey(b).value;
        ComparisonMeans(ka, kb);
        ComparisonMeans(kb, ka);
        if VersionKey(c).Some? && CompareKeys(ka, kb) <= 0 && CompareKeys(kb, VersionKey(c).value) <= 0 {
          var kc := VersionKey(c).value;
          ComparisonMeans(kb, kc);
          ComparisonMeans(ka, kc);
          BelowTransitive(ka, kb, kc);
        }
      }
    }
  }

  /** Keys compare equal exactly when the longer one only adds zeros. */
  lemma EqualUpToTrailingZeros(shorter: seq<nat>, longer: seq<nat>)
    requires |shorter| <= |longer|
    ensures CompareKeys(shorter, longer) == 0 <==>
              longer[..|shorter|] == shorter && forall i :: |shorter| <= i < |longer| ==> longer[i] == 0
  {
    ComparisonMeans(shorter, longer);
    if SameValue(shorter, longer) {
      forall i: nat | i < |longer| ensures longer[i] == At(shorter, i) { assert At(longer, i) == At(shorter, i); }
    } else {
      var i: nat :| At(shorter, i) != At(longer, i);
      assert i < |shorter| ==> longer[..|shorter|][i] == longer[i] != shorter[i];
    }
  }

  // ----- Only the leading release number counts -----

  /** A version compares as its release number alone, whatever follows that. */
  lemma OnlyReleaseCounts(s: string)
    ensures VersionKey(s) == VersionKey(s[..ReleaseEnd(s, 0)])
  {
    var j := ReleaseEnd(s, 0);
    var release := s[..j];
    MatcherFindsRelease(s, 0);
    if j > 0 {
      SpellsElsewhere(s, 0, j, release, 0, Components(s, 0));
      ReleaseIsUnique(release, 0, j, Components(s, 0));
    }
  }

  /** Two texts agree up to `k`, where both have the same character that is neither digit nor dot. */
  ghost predicate AgreeUpTo(s: string, t: string, k: nat) {
    k < |s| && k < |t| && (forall j :: 0 <= j <= k ==> s[j] == t[j]) && !IsDigit(s[k]) && s[k] != '.'
  }

  lemma SliceAgrees(s: string, t: string, k: nat, i: nat, e: nat)
    requires AgreeUpTo(s, t, k) && i <= e <= k
    ensures s[i..e] == t[i..e] && (Continues(s, e) <==> Continues(t, e)) && (Continues(s, e) ==> e < k)
  {
  }

  lemma FirstComponent(s: string, i: nat, e: nat)
    requires i <= |s| && e == DigitsEnd(s, i)
    ensures Components(s, i) ==
              if i == e then [] else if Continues(s, e) then [s[i..e]] + Components(s, e + 1) else [s[i..e]]
  {
  }

  lemma {:induction false} ComponentsAgree(s: string, t: string, k: nat, i: nat)
    requires AgreeUpTo(s, t, k) && i <= k
    ensures Components(s, i) == Components(t, i)
    decreases k - i
  {
    DigitsAgree(s, t, k, i);
    var e := DigitsEnd(s, i);
    SliceAgrees(s, t, k, i, e);
    FirstComponent(s, i, e);
    FirstComponent(t, i, e);
    if i < e && Continues(s, e) {
      ComponentsAgree(s, t, k, e + 1);
    }
  }

  lemma {:induction false} DigitsAgree(s: string, t: string, k: nat, i: nat)
    requires AgreeUpTo(s, t, k) && i <= k
    ensures DigitsEnd(s, i) == DigitsEnd(t, i) <= k
    decreases k - i
  {
    if IsDigit(s[i]) {
      DigitsAgree(s, t, k, i + 1);
    }
  }

  lemma KeysAgree(s: string, t: string, k: nat)
    requires AgreeUpTo(s, t, k)
    ensures VersionKey(s) == VersionKey(t)
  {
    ComponentsAgree(s, t, k, 0);
    MatcherFindsRelease(s, 0);
    MatcherFindsRelease(t, 0);
  }
}
