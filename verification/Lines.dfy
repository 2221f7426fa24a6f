/** Splitting a text into lines the way `str.splitlines` does. */
module Lines {

  predicate IsBreak(c: char) {
    '\U{000A}' <= c <= '\U{000D}' || '\U{001C}' <= c <= '\U{001E}' || c == '\U{0085}' || c == '\U{2028}' ||
    c == '\U{2029}'
  }

  /** Where the line at `i` ends, including what ends it: carriage return and newline together, or
      any one line break. */
  function LineBreak(s: string, i: nat): (e: nat)
    requires i < |s|
    ensures i < e <= |s|
    decreases |s| - i
  {
    if IsBreak(s[i]) then (if s[i] == '\r' && i + 1 < |s| && s[i + 1] == '\n' then i + 2 else i + 1)
    else if i + 1 == |s| then |s|
    else LineBreak(s, i + 1)
  }

  /** The lines with their ends. */
  function KeptLines(s: string): seq<string>
    decreases |s|
  {
    if s == "" then [] else [s[..LineBreak(s, 0)]] + KeptLines(s[LineBreak(s, 0)..])
  }

  /** Where the end of a line starts. */
  function BareLen(line: string): (n: nat)
    ensures n <= |line|
  {
    var n := |line|;
    if n >= 2 && line[n - 2] == '\r' && line[n - 1] == '\n' then n - 2
    else if n >= 1 && IsBreak(line[n - 1]) then n - 1
    else n
  }

  function Bare(line: string): string {
    line[..BareLen(line)]
  }

  /** The lines without their ends. */
  function BareLines(s: string): seq<string>
    decreases |s|
  {
    if s == "" then [] else [Bare(s[..LineBreak(s, 0)])] + BareLines(s[LineBreak(s, 0)..])
  }

  function Concat(lines: seq<string>): string {
    if lines == [] then "" else lines[0] + Concat(lines[1..])
  }

  /** Breaks stand only at the end. */
  ghost predicate IsLine(line: string) {
    line != "" && forall k :: 0 <= k < BareLen(line) ==> !IsBreak(line[k])
  }

  /** Nothing joins two lines that follow each other. */
  ghost predicate Apart(line: string, next: string) {
    line != "" && next != "" && IsBreak(line[|line| - 1]) && !(line[|line| - 1] == '\r' && next[0] == '\n')
  }

  ghost predicate AreLines(lines: seq<string>) {
    && (forall k :: 0 <= k < |lines| ==> IsLine(lines[k]))
    && forall k :: 0 <= k < |lines| - 1 ==> Apart(lines[k], lines[k + 1])
  }

  // ----- Splitting and joining are inverse -----

  lemma {:induction false} LineBreakIs(s: string, i: nat, n: nat, line: string)
    requires line != "" && n == |line| <= |s| && s[..n] == line && i <= BareLen(line) && i < |s|
    requires forall k :: 0 <= k < BareLen(line) ==> !IsBreak(line[k])
    requires n < |s| ==> Apart(line, s[n..])
    ensures LineBreak(s, i) == n
    decreases |s| - i
  {
    assert forall k :: 0 <= k < n ==> s[k] == line[k];
    assert n < |s| ==> s[n..][0] == s[n];
    if i < BareLen(line) && i + 1 < |s| {
      LineBreakIs(s, i + 1, n, line);
    }
  }

  lemma {:induction false} BreakMakesLine(s: string, i: nat)
    requires i < |s| && forall k :: 0 <= k < i ==> !IsBreak(s[k])
    ensures var e := LineBreak(s, i);
            IsLine(s[..e]) && (e < |s| ==> Apart(s[..e], s[e..]))
    decreases |s| - i
  {
    if !IsBreak(s[i]) && i + 1 < |s| { BreakMakesLine(s, i + 1); }
  }

  /** The lines of a text make up the text. */
  lemma {:induction false} LinesMakeText(s: string)
    ensures Concat(KeptLines(s)) == s
    decreases |s|
  {
    if s != "" {
      var e := LineBreak(s, 0);
      LinesMakeText(s[e..]);
      assert KeptLines(s)[1..] == KeptLines(s[e..]);
      assert s == s[..e] + s[e..];
    }
  }

  lemma ConsLines(line: string, rest: seq<string>)
    requires IsLine(line) && AreLines(rest) && (rest != [] ==> Apart(line, rest[0]))
    ensures AreLines([line] + rest)
  {
  }

  lemma {:induction false} SplitGivesLines(s: string)
    ensures AreLines(KeptLines(s))
    decreases |s|
  {
    if s != "" {
      var e := LineBreak(s, 0);
      SplitGivesLines(s[e..]);
      BreakMakesLine(s, 0);
      if e < |s| {
        assert KeptLines(s[e..])[0][0] == s[e..][0];
      }
      ConsLines(s[..e], KeptLines(s[e..]));
    }
  }

  lemma {:induction false} BareLinesAreBare(s: string)
    ensures |BareLines(s)| == |KeptLines(s)|
    ensures forall k :: 0 <= k < |KeptLines(s)| ==> BareLines(s)[k] == Bare(KeptLines(s)[k])
    decreases |s|
  {
    if s != "" { BareLinesAreBare(s[LineBreak(s, 0)..]); }
  }

  /** Text made up of lines is split into these lines. */
  lemma {:induction false} TextMakesLines(lines: seq<string>)
    requires AreLines(lines)
    ensures KeptLines(Concat(lines)) == lines
  {
    if lines != [] {
      var s, rest := Concat(lines), Concat(lines[1..]);
      assert IsLine(lines[0]);
      assert s[..|lines[0]|] == lines[0] && s[|lines[0]|..] == rest;
      if |lines| > 1 {
        assert IsLine(lines[1]);
        assert Apart(lines[0], lines[1]);
        assert rest[0] == lines[1][0];
      } else {
        assert rest == "";
      }
      LineBreakIs(s, 0, |lines[0]|, lines[0]);
      assert AreLines(lines[1..]) by {
        forall k | 0 <= k < |lines| - 2
          ensures Apart(lines[1..][k], lines[1..][k + 1])
        {
          assert Apart(lines[k + 1], lines[k + 2]);
        }
      }
      TextMakesLines(lines[1..]);
    }
  }
}
