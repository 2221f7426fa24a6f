/** Replacing one quoted string in a text: the text as a whole and piece by piece between its quotes. */
module QuotedText {

  function Quoted(s: string): string {
    "\"" + s + "\""
  }

  predicate Contains(s: string, fragment: string) {
    fragment <= s || (s != "" && Contains(s[1..], fragment))
  }

  /** `s` with the first occurrence of the fragment replaced. */
  function ReplaceFirst(s: string, fragment: string, replacement: string): string {
    if fragment <= s then replacement + s[|fragment|..]
    else if s == "" then ""
    else [s[0]] + ReplaceFirst(s[1..], fragment, replacement)
  }

  // ----- Pieces -----

  /** The text whose stretches between double quotes, from `k` on, are these. */
  function Join(pieces: seq<string>, k: nat): string
    requires k < |pieces|
    decreases |pieces| - k
  {
    if k + 1 == |pieces| then pieces[k] else pieces[k] + ("\"" + Join(pieces, k + 1))
  }

  ghost predicate QuoteFree(pieces: seq<string>) {
    forall k :: 0 <= k < |pieces| ==> '"' !in pieces[k]
  }

  /** The first piece from `k` on that has a quote on both sides and is `s`, or the number of pieces. */
  function FirstPiece(pieces: seq<string>, s: string, k: nat): (i: nat)
    requires k <= |pieces|
    ensures k <= i <= |pieces| && (i < |pieces| ==> i + 1 < |pieces| && pieces[i] == s)
    ensures forall j :: k <= j < i && j + 1 < |pieces| ==> pieces[j] != s
    decreases |pieces| - k
  {
    if k + 1 >= |pieces| then |pieces| else if pieces[k] == s then k else FirstPiece(pieces, s, k + 1)
  }

  function ReplacePiece(pieces: seq<string>, i: nat, s: string): seq<string> {
    if i < |pieces| then pieces[i := s] else pieces
  }

  // ----- A quoted string in the text is a piece -----

  lemma {:induction false} PlainPasses(p: string, rest: string, s: string, t: string)
    requires '"' !in p
    ensures ReplaceFirst(p + rest, Quoted(s), Quoted(t)) == p + ReplaceFirst(rest, Quoted(s), Quoted(t))
    ensures Contains(p + rest, Quoted(s)) == Contains(rest, Quoted(s))
  {
    if p == "" {
      assert p + rest == rest;
    } else {
      var all := p + rest;
      assert all[0] == p[0] && all[1..] == p[1..] + rest;
      assert Quoted(s)[0] == '"' && !(Quoted(s) <= all);
      PlainPasses(p[1..], rest, s, t);
      assert p == [p[0]] + p[1..];
    }
  }

  lemma FirstQuote(a: string, b: string, x: string, y: string)
    requires '"' !in a && '"' !in b && a + "\"" + x == b + "\"" + y
    ensures a == b && x == y
  {
    var s := a + "\"" + x;
    assert s[|a|] == '"' && s[|b|] == '"';
    assert forall i :: 0 <= i < |a| ==> s[i] == a[i] && s[i] != '"';
    assert forall i :: 0 <= i < |b| ==> s[i] == b[i] && s[i] != '"';
    assert s[..|a|] == a && s[..|b|] == b && s[|a| + 1..] == x && s[|b| + 1..] == y;
  }

  lemma QuotedIsPiece(pieces: seq<string>, k: nat, s: string)
    requires QuoteFree(pieces) && '"' !in s && k < |pieces| && Quoted(s) <= "\"" + Join(pieces, k)
    ensures k + 1 < |pieces| && pieces[k] == s
  {
    var text := "\"" + Join(pieces, k);
    var after := text[|s| + 2..];
    assert text == Quoted(s) + after;
    assert Join(pieces, k) == text[1..] == s + "\"" + after;
    assert Join(pieces, k)[|s|] == '"';
    assert k + 1 < |pieces|;
    assert Join(pieces, k) == pieces[k] + "\"" + Join(pieces, k + 1);
    FirstQuote(s, pieces[k], after, Join(pieces, k + 1));
  }

  lemma PieceIsQuoted(pieces: seq<string>, k: nat, s: string)
    requires k + 1 < |pieces| && pieces[k] == s
    ensures Quoted(s) <= "\"" + Join(pieces, k) && ("\"" + Join(pieces, k))[|Quoted(s)|..] == Join(pieces, k + 1)
  {
  }

  /** Right after a quote, the quoted string stands exactly if the next piece is the string and a
      quote follows it. */
  lemma QuotedHere(pieces: seq<string>, k: nat, s: string)
    requires QuoteFree(pieces) && '"' !in s && k < |pieces|
    ensures Quoted(s) <= "\"" + Join(pieces, k) <==> k + 1 < |pieces| && pieces[k] == s
  {
    if Quoted(s) <= "\"" + Join(pieces, k) { QuotedIsPiece(pieces, k, s); }
    if k + 1 < |pieces| && pieces[k] == s { PieceIsQuoted(pieces, k, s); }
  }

  lemma JoinOfReplaced(pieces: seq<string>, k: nat, i: nat, t: string)
    requires k < |pieces| && i < |pieces|
    ensures i < k ==> Join(pieces[i := t], k) == Join(pieces, k)
    ensures k == i && k + 1 < |pieces| ==> Join(pieces[i := t], k) == t + ("\"" + Join(pieces, k + 1))
    decreases |pieces| - k
  {
    if k + 1 < |pieces| { JoinOfReplaced(pieces, k + 1, i, t); }
  }

  lemma ReplaceHere(pieces: seq<string>, k: nat, s: string, t: string)
    requires QuoteFree(pieces) && '"' !in s && k + 1 < |pieces| && pieces[k] == s
    ensures Contains("\"" + Join(pieces, k), Quoted(s))
    ensures ReplaceFirst("\"" + Join(pieces, k), Quoted(s), Quoted(t)) == "\"" + Join(pieces[k := t], k)
  {
    PieceIsQuoted(pieces, k, s);
    JoinOfReplaced(pieces, k, k, t);
    assert Quoted(t) + Join(pieces, k + 1) == "\"" + (t + ("\"" + Join(pieces, k + 1)));
  }

  lemma NotHere(rest: string, s: string, t: string)
    requires !(Quoted(s) <= "\"" + rest)
    ensures Contains("\"" + rest, Quoted(s)) == Contains(rest, Quoted(s))
    ensures ReplaceFirst("\"" + rest, Quoted(s), Quoted(t)) == "\"" + ReplaceFirst(rest, Quoted(s), Quoted(t))
  {
  }

  /** After a quote, replacing the quoted string replaces the first piece that is the string. */
  lemma {:induction false} ReplaceAfterQuote(pieces: seq<string>, k: nat, s: string, t: string)
    requires QuoteFree(pieces) && '"' !in s && k < |pieces|
    ensures Contains("\"" + Join(pieces, k), Quoted(s)) <==> FirstPiece(pieces, s, k) < |pieces|
    ensures ReplaceFirst("\"" + Join(pieces, k), Quoted(s), Quoted(t)) ==
              "\"" + Join(ReplacePiece(pieces, FirstPiece(pieces, s, k), t), k)
    decreases |pieces| - k, 1
  {
    if k + 1 < |pieces| && pieces[k] == s {
      ReplaceHere(pieces, k, s, t);
    } else {
      QuotedHere(pieces, k, s);
      NotHere(Join(pieces, k), s, t);
      ReplaceInJoin(pieces, k, s, t);
    }
  }

  /** Replacing the quoted string in the text replaces the first piece after the first that is the
      string and has a quote behind it; the text contains it exactly if there is one. */
  lemma {:induction false} ReplaceInJoin(pieces: seq<string>, k: nat, s: string, t: string)
    requires QuoteFree(pieces) && '"' !in s && k < |pieces|
    ensures Contains(Join(pieces, k), Quoted(s)) <==> FirstPiece(pieces, s, k + 1) < |pieces|
    ensures ReplaceFirst(Join(pieces, k), Quoted(s), Quoted(t)) ==
            Join(ReplacePiece(pieces, FirstPiece(pieces, s, k + 1), t), k)
    decreases |pieces| - k, 0
  {
    var p := pieces[k];
    if k + 1 == |pieces| {
      PlainPasses(p, "", s, t);
      assert p + "" == p;
    } else {
      var rest := "\"" + Join(pieces, k + 1);
      PlainPasses(p, rest, s, t);
      ReplaceAfterQuote(pieces, k + 1, s, t);
    }
  }
}
