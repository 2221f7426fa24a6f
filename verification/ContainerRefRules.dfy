/**
 The guarded substitution with the characters of its boundaries written out.
 */
module ContainerRefRules {
  import opened Text
  import opened TextRules
  import opened ContainerRefs

  /** No match after any of these. */
  predicate GuardsBefore(c: char) {
    IsWordChar(c) || c == '.' || c == ':' || c == '/' || c == '@' || c == '-'
  }

  /** No match before any of these, nor before a dot and one of the first kind. */
  predicate GuardsAfter(c: char) {
    IsWordChar(c) || c == ':' || c == '/' || c == '@' || c == '-'
  }

  /** What stands from `i` on is `before`, and its neighbours let it be a reference of its own. */
  predicate StandsAlone(text: string, i: nat, before: string) {
    var e := i + |before|;
    && e <= |text| && text[i..e] == before
    && (i > 0 ==> !GuardsBefore(text[i - 1]))
    && (e < |text| ==> !GuardsAfter(text[e]))
    && (e + 1 < |text| && text[e] == '.' ==> !IsWordChar(text[e + 1]))
  }

  lemma MatchMeans(text: string, i: nat, before: string)
    requires i <= |text|
    ensures MatchesRef(text, i, before) <==> StandsAlone(text, i, before)
  {
  }

  lemma {:induction false} NothingToReplace(text: string, i: nat, e: nat, r: Replacement)
    requires i <= e <= |text| && r.before != "" && forall k :: i <= k < e ==> !StandsAlone(text, k, r.before)
    ensures Substitute(text, i, r) == text[i..e] + Substitute(text, e, r)
    decreases e - i
  {
    if i < e {
      MatchMeans(text, i, r.before);
      NothingToReplace(text, i + 1, e, r);
      assert text[i..e] == [text[i]] + text[i + 1..e];
      PrependAssociates(text[i], text[i + 1..e], Substitute(text, e, r));
    }
  }

  /** The whole text stays exactly where the reference stands alone nowhere. */
  lemma NowhereAlone(text: string, r: Replacement)
    requires r.before != "" && forall k: nat :: k < |text| ==> !StandsAlone(text, k, r.before)
    ensures Substitute(text, 0, r) == text
  {
    NothingToReplace(text, 0, |text|, r);
    assert text[0..|text|] + "" == text;
  }

  lemma RestStays(text: string, e: nat, r: Replacement)
    requires e <= |text| && r.before != "" && forall k :: e <= k < |text| ==> !StandsAlone(text, k, r.before)
    ensures Substitute(text, e, r) == text[e..]
  {
    NothingToReplace(text, e, |text|, r);
    assert text[e..|text|] + "" == text[e..];
  }

  lemma ReplacedHere(text: string, i: nat, r: Replacement, rest: string)
    requires r.before != "" && StandsAlone(text, i, r.before) && rest == text[i + |r.before|..]
    requires forall k: nat :: k < |text| && k != i ==> !StandsAlone(text, k, r.before)
    ensures Substitute(text, i, r) == r.after + rest
  {
    MatchMeans(text, i, r.before);
    RestStays(text, i + |r.before|, r);
  }

  lemma StartStays(text: string, i: nat, r: Replacement, rest: string)
    requires i <= |text| && r.before != "" && forall k :: 0 <= k < i ==> !StandsAlone(text, k, r.before)
    requires rest == Substitute(text, i, r)
    ensures Substitute(text, 0, r) == text[..i] + rest
  {
    NothingToReplace(text, 0, i, r);
    assert text[0..i] == text[..i];
  }

  /** Standing alone at one place only, the reference is replaced there, and all else stays. */
  lemma ReplacedWhereAlone(text: string, i: nat, r: Replacement)
    requires r.before != "" && StandsAlone(text, i, r.before)
    requires forall k: nat :: k < |text| && k != i ==> !StandsAlone(text, k, r.before)
    ensures Substitute(text, 0, r) == text[..i] + r.after + text[i + |r.before|..]
  {
    var rest := text[i + |r.before|..];
    ReplacedHere(text, i, r, rest);
    StartStays(text, i, r, r.after + rest);
    AppendAssociates(text[..i], r.after, rest);
  }

  // ----- One neighbour -----

  /** Letters, digits and colons, as in `redis:latest`. */
  predicate IsPlainRef(before: string) {
    before != "" && forall k :: 0 <= k < |before| ==> IsWordChar(before[k]) || before[k] == ':'
  }

  /** Behind one more character the reference is replaced unless that is a letter, a digit or one of
      `_.:/@-`. */
  lemma AfterCharacter(c: char, r: Replacement)
    requires IsPlainRef(r.before)
    ensures Substitute([c] + r.before, 0, r) ==
              if GuardsBefore(c) then [c] + r.before else [c] + r.after
  {
    var text := [c] + r.before;
    assert forall k :: 1 <= k < |text| ==> text[k] == r.before[k - 1];
    assert text[1..1 + |r.before|] == r.before && text[1 + |r.before|..] == "" && text[..1] == [c];
    assert !StandsAlone(text, 0, r.before);
    if GuardsBefore(c) {
      NowhereAlone(text, r);
    } else {
      ReplacedWhereAlone(text, 1, r);
    }
  }

  lemma EndOf(before: string, rest: string, text: string)
    requires IsPlainRef(before) && text == before + rest
    ensures |text| == |before| + |rest| && text[0..|before|] == before && text[|before|..] == rest
    ensures forall k :: 0 <= k < |before| ==> GuardsBefore(text[k])
  {
    assert forall k :: 0 <= k < |before| ==> text[k] == before[k];
  }

  /** In front of `rest` the reference is replaced unless its first character is a letter, a digit or one of
      `_:/@-`, or that is a dot and the next one a letter, a digit or `_`. */
  lemma InFrontOf(rest: string, r: Replacement)
    requires IsPlainRef(r.before) && 1 <= |rest| <= 2 && (|rest| == 2 ==> rest[0] == '.')
    ensures Substitute(r.before + rest, 0, r) ==
              if GuardsAfter(rest[0]) || (|rest| == 2 && IsWordChar(rest[1])) then r.before + rest else r.after + rest
  {
    var text, n := r.before + rest, |r.before|;
    EndOf(r.before, rest, text);
    assert text[n] == rest[0] && (|rest| == 2 ==> text[n + 1] == rest[1]);
    forall k: nat | 0 < k < |text| ensures !StandsAlone(text, k, r.before) {
      assert k > n ==> k + n > |text| || n == 1;
    }
    if GuardsAfter(rest[0]) || (|rest| == 2 && IsWordChar(rest[1])) {
      NowhereAlone(text, r);
    } else {
      ReplacedWhereAlone(text, 0, r);
    }
  }
}
