/** Word characters, white space and line breaks, character by character. */
module TextRules {
  import opened Text
  import opened Lines

  predicate IsWordChar(c: char) {
    'a' <= c <= 'z' || 'A' <= c <= 'Z' || '0' <= c <= '9' || c == '_'
  }

  const BREAKS := "\U{000A}\U{000B}\U{000C}\U{000D}\U{001C}\U{001D}\U{001E}\U{0085}\U{2028}\U{2029}"

  const OTHER_WHITE_SPACE :=
    "\U{0009}\U{001F}\U{0020}\U{00A0}\U{1680}\U{2000}\U{2001}\U{2002}\U{2003}\U{2004}\U{2005}\U{2006}\U{2007}" +
    "\U{2008}\U{2009}\U{200A}\U{202F}\U{205F}\U{3000}"

  /** Of one character nothing is left by stripping exactly when it is white space as `str.strip` takes it. */
  lemma WhiteSpaceIsStripped(c: char)
    ensures Strip([c]) == if c in BREAKS || c in OTHER_WHITE_SPACE then "" else [c]
  {
    assert c in BREAKS || c in OTHER_WHITE_SPACE <==> IsSpace(c);
    assert SpaceEnd([c], 0) == if IsSpace(c) then 1 else 0;
    assert [c][0..] == [c] && [c][1..] == "";
  }

  /** A character between two others ends a line exactly when it is a break as `str.splitlines` takes it. */
  lemma BreaksEndLines(c: char)
    ensures KeptLines(['a', c, 'b']) == if c in BREAKS then [['a', c], ['b']] else [['a', c, 'b']]
  {
    var s := ['a', c, 'b'];
    assert c in BREAKS <==> IsBreak(c);
    if IsBreak(c) {
      assert LineBreak(s, 1) == 2 && LineBreak(s, 0) == 2 && s[..2] == ['a', c] && s[2..] == ['b'];
      assert ['b'][..1] == ['b'] && ['b'][1..] == [] && LineBreak(['b'], 0) == 1;
      assert KeptLines(['b']) == [['b']];
    } else {
      assert LineBreak(s, 2) == 3 && LineBreak(s, 1) == 3 && LineBreak(s, 0) == 3 && s[..3] == s && s[3..] == [];
      assert KeptLines([]) == [];
    }
  }
}
