/** What a terminal should show: text split into lines, each wrapped at 80 columns, the last 25 rows
    of it on the screen. This is the reference the console code is measured against. */
module TextLayout {
  import opened Common

  const NUM_COLS := 80
  const NUM_ROWS := 25
  const CELLS := 2000

  predicate IsBreak(b: byte) {
    b == NEWLINE || b == RETURN
  }

  predicate IsPrintable(b: byte) {
    b != NUL && !IsBreak(b)
  }

  // ---------------------------------------------------------------- wrapped text

  /** The position of the first line break, or the length when there is none. */
  function FirstBreak(s: seq<byte>): (n: nat)
    ensures n <= |s|
    ensures n < |s| ==> IsBreak(s[n])
    ensures forall k :: 0 <= k < n ==> !IsBreak(s[k])
  {
    if s == [] || IsBreak(s[0]) then 0 else 1 + FirstBreak(s[1..])
  }

  /** One line in rows of 80; an empty line takes no row at all. */
  function Wrap(line: seq<byte>): seq<seq<byte>> {
    if line == [] then []
    else if |line| <= 80 then [line]
    else [line[..80]] + Wrap(line[80..])
  }

  /** The full rows at the start of an unfinished line. */
  function FullRows(line: seq<byte>): seq<seq<byte>> {
    if |line| < 80 then [] else [line[..80]] + FullRows(line[80..])
  }

  /** What is left of an unfinished line after its full rows. */
  function Rest(line: seq<byte>): (r: seq<byte>)
    ensures |r| < 80
  {
    if |line| < 80 then line else Rest(line[80..])
  }

  /** The rows a text has completed. */
  function Rows(s: seq<byte>): seq<seq<byte>>
    decreases |s|
  {
    var n := FirstBreak(s);
    if n == |s| then FullRows(s) else Wrap(s[..n]) + Rows(s[n + 1..])
  }

  /** The row it is still writing. */
  function Open(s: seq<byte>): (r: seq<byte>)
    ensures |r| < 80
    decreases |s|
  {
    var n := FirstBreak(s);
    if n == |s| then Rest(s) else Open(s[n + 1..])
  }

  // ---------------------------------------------------------------- one byte at a time

  /** Completed rows and the open row. */
  datatype Page = Page(rows: seq<seq<byte>>, open: seq<byte>)

  function Extend(p: Page, b: byte): Page {
    if IsBreak(b) then
      if p.open == [] then p else Page(p.rows + [p.open], [])
    else if |p.open| == 79 then Page(p.rows + [p.open + [b]], [])
    else Page(p.rows, p.open + [b])
  }

  function PageOf(s: seq<byte>): Page {
    Page(Rows(s), Open(s))
  }

  lemma {:induction false} BreakBefore(s: seq<byte>, b: byte)
    ensures FirstBreak(s + [b]) == if FirstBreak(s) < |s| then FirstBreak(s) else if IsBreak(b) then |s| else |s| + 1
  {
    if s == [] {
    } else if !IsBreak(s[0]) {
      assert (s + [b])[1..] == s[1..] + [b];
      BreakBefore(s[1..], b);
    }
  }

  lemma {:induction false} WrapIsFullAndRest(line: seq<byte>)
    ensures Wrap(line) == FullRows(line) + if Rest(line) == [] then [] else [Rest(line)]
  {
    if |line| == 80 {
      assert line[..80] == line && line[80..] == [];
    } else if |line| > 80 {
      WrapIsFullAndRest(line[80..]);
    }
  }

  lemma {:induction false} LineGrows(line: seq<byte>, b: byte)
    ensures FullRows(line + [b]) == FullRows(line) + if |Rest(line)| == 79 then [Rest(line) + [b]] else []
    ensures Rest(line + [b]) == if |Rest(line)| == 79 then [] else Rest(line) + [b]
  {
    if |line| == 79 {
      assert (line + [b])[..80] == line + [b] && (line + [b])[80..] == [];
    } else if |line| >= 80 {
      assert (line + [b])[..80] == line[..80] && (line + [b])[80..] == line[80..] + [b];
      LineGrows(line[80..], b);
    }
  }

  lemma PageGrowsInLine(s: seq<byte>, b: byte)
    requires FirstBreak(s) == |s|
    ensures PageOf(s + [b]) == Extend(PageOf(s), b)
  {
    BreakBefore(s, b);
    if IsBreak(b) {
      assert (s + [b])[..|s|] == s && (s + [b])[|s| + 1..] == [];
      WrapIsFullAndRest(s);
      assert Rows([]) == [] && Open([]) == [];
      assert Rows(s + [b]) == Wrap(s) + [] == Wrap(s);
      assert Wrap(s) == FullRows(s) + if Rest(s) == [] then [] else [Rest(s)];
      assert FullRows(s) + [] == FullRows(s);
    } else {
      LineGrows(s, b);
    }
  }

  /** Reading a text one byte at a time builds the wrapped text. */
  lemma {:induction false} PageGrows(s: seq<byte>, b: byte)
    ensures PageOf(s + [b]) == Extend(PageOf(s), b)
    decreases |s|
  {
    var n := FirstBreak(s);
    if n < |s| {
      BreakBefore(s, b);
      var line, rest := s[..n], s[n + 1..];
      assert (s + [b])[..n] == line && (s + [b])[n + 1..] == rest + [b];
      PageGrows(rest, b);
      PageBehind(line, PageOf(rest), b);
    } else {
      PageGrowsInLine(s, b);
    }
  }

  /** Rows in front of a page stay in front. */
  lemma PageBehind(line: seq<byte>, p: Page, b: byte)
    ensures Extend(Page(Wrap(line) + p.rows, p.open), b)
            == Page(Wrap(line) + Extend(p, b).rows, Extend(p, b).open)
  {
    assert forall r: seq<seq<byte>> :: (Wrap(line) + p.rows) + r == Wrap(line) + (p.rows + r);
  }

  // ---------------------------------------------------------------- what the page of a text is

  /** Neither a newline nor a carriage return. */
  predicate IsOneLine(s: seq<byte>) {
    10 !in s && 13 !in s
  }

  lemma {:induction false} BreakBehind(line: seq<byte>, rest: seq<byte>)
    requires IsOneLine(line)
    ensures FirstBreak(line + rest) == |line| + FirstBreak(rest)
  {
    if line == [] {
      assert line + rest == rest;
    } else {
      assert line[0] in line && (line + rest)[1..] == line[1..] + rest;
      BreakBehind(line[1..], rest);
    }
  }

  /** A line that is ended fills a row of its own, and an empty one none. */
  lemma PageOfLine(line: seq<byte>, b: byte, rest: seq<byte>)
    requires IsOneLine(line) && |line| <= 80 && (b == 10 || b == 13)
    ensures PageOf(line + [b] + rest)
      == Page((if line == [] then [] else [line]) + PageOf(rest).rows, PageOf(rest).open)
  {
    assert line + [b] + rest == line + ([b] + rest);
    BreakBehind(line, [b] + rest);
    assert (line + ([b] + rest))[..|line|] == line && (line + ([b] + rest))[|line| + 1..] == rest;
  }

  /** The last line is still open, unless it fills its row. */
  lemma PageOfLast(line: seq<byte>)
    requires IsOneLine(line) && |line| <= 80
    ensures PageOf(line) == if |line| < 80 then Page([], line) else Page([line], [])
  {
    BreakBehind(line, []);
    assert line + [] == line;
    assert FirstBreak(line) == |line|;
    assert Rows(line) == FullRows(line) && Open(line) == Rest(line);
    if |line| == 80 {
      assert line[..80] == line && line[80..] == [];
      assert [line] + FullRows([]) == [line];
    }
  }

  /** What does not fit into a row goes on in the next. */
  lemma PageOfLong(row: seq<byte>, rest: seq<byte>)
    requires IsOneLine(row) && |row| == 80 && rest != [] && rest[0] != 10 && rest[0] != 13
    ensures PageOf(row + rest) == Page([row] + PageOf(rest).rows, PageOf(rest).open)
  {
    var n := FirstBreak(rest);
    BreakBehind(row, rest);
    assert (row + rest)[..80 + n][..80] == row && (row + rest)[..80 + n][80..] == rest[..n];
    if n == |rest| {
      assert (row + rest)[..80] == row && (row + rest)[80..] == rest;
    } else {
      assert (row + rest)[80 + n + 1..] == rest[n + 1..];
      assert [row] + Wrap(rest[..n]) + Rows(rest[n + 1..]) == [row] + (Wrap(rest[..n]) + Rows(rest[n + 1..]));
    }
  }
}
