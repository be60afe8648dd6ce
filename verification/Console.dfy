/** One terminal's screen and cursor without the wrap-around bookkeeping: the meaning of putc,
    backspace and left_arrow, and what follows from it for whole texts. */
module Console {
  import opened Common
  import opened TextLayout

  /** The cursor is at column `x` of row `y`. */
  datatype Console = Console(screen: seq<byte>, x: nat, y: nat)

  /** Only right_arrow takes the cursor to column 80, behind the last one. */
  predicate Ok(c: Console) {
    |c.screen| == CELLS && c.x <= 80 && c.y < 25
  }

  function Position(c: Console): nat {
    80 * c.y + c.x
  }

  function Blanks(n: nat): (s: seq<byte>)
    ensures |s| == n && forall k :: 0 <= k < n ==> s[k] == NUL
  {
    seq(n, _ => NUL)
  }

  const FRESH := Console(Blanks(CELLS), 0, 0)

  /** The cursor moves to the start of the next row; below the last row the text scrolls up. */
  function NextRow(c: Console): (r: Console)
    requires Ok(c)
    ensures Ok(r) && r.x == 0
  {
    if c.y == 24 then Console(c.screen[80..] + Blanks(80), 0, 24) else c.(x := 0, y := c.y + 1)
  }

  /** From column 80 a character goes to the start of the next row, or below the screen, but the cursor
      stays in its row; a line break stays there as well. */
  function Put(c: Console, b: byte): (r: Console)
    requires Ok(c)
    ensures Ok(r) && r.x < 80
  {
    if c.x == 80 then
      if IsBreak(b) then c.(x := 0)
      else c.(x := 1, screen := if c.y == 24 then c.screen else c.screen[Position(c) := b])
    else if IsBreak(b) then
      if c.x == 0 then c else NextRow(c)
    else
      var d := c.(screen := c.screen[Position(c) := b]);
      if c.x == 79 then NextRow(d) else d.(x := c.x + 1)
  }

  /** The cursor may step back, unless it is at the top left or a newline character stands before it
      at the end of the previous row. */
  predicate CanStepBack(c: Console)
    requires Ok(c)
  {
    Position(c) > 0 && (c.x == 0 ==> c.screen[Position(c) - 1] != NEWLINE)
  }

  function StepBack(c: Console): (r: Console)
    requires Ok(c)
    ensures Ok(r) && (CanStepBack(c) ==> Position(r) == Position(c) - 1 && r.screen == c.screen)
    ensures !CanStepBack(c) ==> r == c
  {
    if !CanStepBack(c) then c
    else if c.x != 0 then c.(x := c.x - 1)
    else c.(x := 79, y := c.y - 1)
  }

  /** The cursor may step right, unless it is behind the last row or the row below it ends with a newline
      character. */
  predicate CanStepRight(c: Console)
    requires Ok(c)
  {
    c.x < 80 || (c.y < 24 && c.screen[80 * (c.y + 1) + 79] != NEWLINE)
  }

  /** From column 80 the cursor moves down instead, staying behind the last column. */
  function StepRight(c: Console): (r: Console)
    requires Ok(c)
    ensures Ok(r) && r.screen == c.screen
  {
    if !CanStepRight(c) then c
    else if c.x < 80 then c.(x := c.x + 1)
    else c.(y := c.y + 1)
  }

  function StepRightN(c: Console, n: nat): (r: Console)
    requires Ok(c)
    ensures Ok(r) && r.screen == c.screen
  {
    if n == 0 then c else StepRight(StepRightN(c, n - 1))
  }

  /** Where `n` steps to the right lead: along the row to column 80, then down behind the rows. */
  lemma {:induction false} SteppedRight(c: Console, n: nat)
    requires Ok(c)
    ensures var d := StepRightN(c, n);
      && (c.x + n <= 80 ==> d == c.(x := c.x + n))
      && (c.x + n > 80 ==> d.x == 80 && c.y <= d.y <= c.y + (c.x + n - 80))
      && (c.x + n > 80 && NEWLINE !in c.screen ==> d.y == Min(24, c.y + (c.x + n - 80)))
  {
    if n > 0 {
      SteppedRight(c, n - 1);
    }
  }

  function Erase(c: Console): (r: Console)
    requires Ok(c)
    ensures Ok(r) && r.x < 80
  {
    if !CanStepBack(c) then c
    else StepBack(c).(screen := c.screen[Position(c) - 1 := SPACE])
  }

  function Type(c: Console, s: seq<byte>): (r: Console)
    requires Ok(c)
    ensures Ok(r)
  {
    if s == [] then c else Put(Type(c, s[..|s| - 1]), s[|s| - 1])
  }

  function EraseN(c: Console, n: nat): (r: Console)
    requires Ok(c)
    ensures Ok(r)
  {
    if n == 0 then c else Erase(EraseN(c, n - 1))
  }

  /** No newline character ever stands in a cell. */
  lemma CellsHoldNoNewline(c: Console, b: byte)
    requires Ok(c) && NEWLINE !in c.screen
    ensures NEWLINE !in Put(c, b).screen
    ensures NEWLINE !in StepBack(c).screen && NEWLINE !in Erase(c).screen && NEWLINE !in StepRight(c).screen
  {
  }

  /** Behind the last column, where only arrow right leads, a character goes to the start of the row below, if
      there is one, and the cursor follows its column but not its row. */
  lemma PutAtEdge(c: Console, b: byte)
    requires Ok(c) && c.x == 80
    ensures b == 10 || b == 13 ==> Put(c, b) == Console(c.screen, 0, c.y)
    ensures b != 10 && b != 13 ==> Put(c, b).x == 1 && Put(c, b).y == c.y
    ensures b != 10 && b != 13 ==> forall k :: 0 <= k < CELLS ==>
      Put(c, b).screen[k] == if k == 80 * (c.y + 1) then b else c.screen[k]
  {
  }

  // ---------------------------------------------------------------- layout

  /** The first row on the screen when `rows` rows precede the open one. */
  function TopRow(rows: nat): nat {
    if rows > 24 then rows - 24 else 0
  }

  function Glyph(p: Page, row: nat, col: nat): byte {
    if row < |p.rows| then (if col < |p.rows[row]| then p.rows[row][col] else NUL)
    else if row == |p.rows| then (if col < |p.open| then p.open[col] else NUL)
    else NUL
  }

  /** The screen shows the last 25 rows of the page, the cursor stands behind its last byte. */
  predicate Shows(c: Console, p: Page) {
    && Ok(c)
    && |p.open| < 80 && (forall r :: 0 <= r < |p.rows| ==> |p.rows[r]| <= 80)
    && c.x == |p.open|
    && c.y == |p.rows| - TopRow(|p.rows|)
    && forall k :: 0 <= k < CELLS ==> c.screen[k] == Glyph(p, TopRow(|p.rows|) + k / 80, k % 80)
  }

  lemma CellOf(y: nat, x: nat, k: nat)
    requires x < 80
    ensures k == 80 * y + x <==> k / 80 == y && k % 80 == x
    ensures (k + 80) / 80 == k / 80 + 1 && (k + 80) % 80 == k % 80
  {
  }

  /** Moving on to the next row completes the open row of the page. */
  lemma NextRowShows(c: Console, p: Page)
    requires Ok(c) && |p.open| <= 80 && (forall r :: 0 <= r < |p.rows| ==> |p.rows[r]| <= 80)
    requires c.y == |p.rows| - TopRow(|p.rows|)
    requires forall k :: 0 <= k < CELLS ==> c.screen[k] == Glyph(p, TopRow(|p.rows|) + k / 80, k % 80)
    ensures Shows(NextRow(c), Page(p.rows + [p.open], []))
  {
    var q := Page(p.rows + [p.open], []);
    var d := NextRow(c);
    var top := TopRow(|p.rows|);
    forall k | 0 <= k < CELLS ensures d.screen[k] == Glyph(q, TopRow(|q.rows|) + k / 80, k % 80) {
      CellOf(0, 0, k);
      if c.y == 24 {
        if k < CELLS - 80 {
          assert d.screen[k] == c.screen[k + 80];
        }
      }
    }
  }

  lemma PutShows(c: Console, p: Page, b: byte)
    requires Shows(c, p)
    ensures Shows(Put(c, b), Extend(p, b))
  {
    if IsBreak(b) {
      if c.x != 0 {
        NextRowShows(c, p);
      }
    } else {
      var d := c.(screen := c.screen[Position(c) := b]);
      var q := Page(p.rows, p.open + [b]);
      forall k | 0 <= k < CELLS ensures d.screen[k] == Glyph(q, TopRow(|p.rows|) + k / 80, k % 80) {
        CellOf(c.y, c.x, k);
      }
      if c.x == 79 {
        NextRowShows(d, q);
      }
    }
  }

  /** For every byte string, what putc leaves on a fresh terminal is the end of the wrapped text. */
  lemma {:induction false} TypedTextIsLaidOut(s: seq<byte>)
    ensures Shows(Type(FRESH, s), PageOf(s))
  {
    if s == [] {
      assert PageOf(s) == Page([], []);
    } else {
      var t, b := s[..|s| - 1], s[|s| - 1];
      assert t + [b] == s;
      TypedTextIsLaidOut(t);
      PutShows(Type(FRESH, t), PageOf(t), b);
      PageGrows(t, b);
    }
  }

  // ---------------------------------------------------------------- backspace undoes typing

  predicate IsLine(s: seq<byte>) {
    forall k :: 0 <= k < |s| ==> !IsBreak(s[k])
  }

  /** How many rows have scrolled off once the cursor has come to absolute position `p`. */
  function Scrolled(p: nat): nat {
    if p / 80 > 24 then p / 80 - 24 else 0
  }

  /** The byte at absolute position `a`, counted from the top of the screen `c` shows, once the line
      `s` has been typed there. */
  function Written(c: Console, s: seq<byte>, a: nat): byte
    requires Ok(c)
  {
    if Position(c) <= a < Position(c) + |s| then s[a - Position(c)]
    else if a < CELLS then c.screen[a]
    else NUL
  }

  predicate Typed(c: Console, s: seq<byte>, d: Console)
    requires Ok(c) && Ok(d)
  {
    var k := Scrolled(Position(c) + |s|);
    && Position(d) + 80 * k == Position(c) + |s|
    && forall q :: 0 <= q < CELLS ==> d.screen[q] == Written(c, s, q + 80 * k)
  }

  lemma ScrollStep(c: Console, p: nat)
    requires Ok(c) && c.x < 80 && p == Position(c) + 80 * Scrolled(p)
    ensures Scrolled(p + 1) == Scrolled(p) + if c.x == 79 && c.y == 24 then 1 else 0
  {
  }

  lemma PutTypes(c: Console, s: seq<byte>, d: Console, b: byte)
    requires Ok(c) && Ok(d) && d.x < 80 && Typed(c, s, d) && !IsBreak(b)
    ensures Typed(c, s + [b], Put(d, b))
  {
    var p := Position(c) + |s|;
    ScrollStep(d, p);
    if d.x == 79 && d.y == 24 {
      PutScrolls(c, s, d, b);
    } else {
      forall q | 0 <= q < CELLS ensures Put(d, b).screen[q] == Written(c, s + [b], q + 80 * Scrolled(p)) {
        assert d.screen[q] == Written(c, s, q + 80 * Scrolled(p));
      }
    }
  }

  lemma PutScrolls(c: Console, s: seq<byte>, d: Console, b: byte)
    requires Ok(c) && Ok(d) && d.x == 79 && d.y == 24 && Typed(c, s, d) && !IsBreak(b)
    ensures Typed(c, s + [b], Put(d, b))
  {
    var p := Position(c) + |s|;
    ScrollStep(d, p);
    forall q | 0 <= q < CELLS ensures Put(d, b).screen[q] == Written(c, s + [b], q + 80 * Scrolled(p + 1)) {
      if q < CELLS - 80 {
        assert d.screen[q + 80] == Written(c, s, q + 80 + 80 * Scrolled(p));
      }
    }
  }

  /** Typing in closed form: where the cursor ends, how far the screen scrolls, every cell. */
  lemma {:induction false} LineTyped(c: Console, s: seq<byte>)
    requires Ok(c) && c.x < 80 && IsLine(s)
    ensures Type(c, s).x < 80
    ensures Typed(c, s, Type(c, s))
  {
    if s != [] {
      var t, b := s[..|s| - 1], s[|s| - 1];
      assert t + [b] == s;
      LineTyped(c, t);
      PutTypes(c, t, Type(c, t), b);
    }
  }

  /** Erasing in closed form: `n` steps back, `n` blanks. */
  lemma {:induction false} LineErased(c: Console, n: nat)
    requires Ok(c) && n <= Position(c)
    requires forall q :: Position(c) - n <= q < Position(c) ==> c.screen[q] != NEWLINE
    ensures Position(EraseN(c, n)) == Position(c) - n
    ensures forall q :: 0 <= q < CELLS ==>
      EraseN(c, n).screen[q] == if Position(c) - n <= q < Position(c) then SPACE else c.screen[q]
  {
    if n > 0 {
      LineErased(c, n - 1);
    }
  }

  /** Typing a line and erasing as many characters returns the cursor to where it logically was,
      higher by the rows scrolled, and leaves blanks in exactly the cells that were written. */
  lemma {:induction false} EraseUndoesTyping(c: Console, s: seq<byte>)
    requires Ok(c) && c.x < 80 && IsLine(s) && Scrolled(Position(c) + |s|) <= c.y
    ensures var k := Scrolled(Position(c) + |s|);
      var d := EraseN(Type(c, s), |s|);
      && d.x == c.x && d.y == c.y - k
      && forall q :: 0 <= q < CELLS ==>
           d.screen[q] == if Position(d) <= q < Position(d) + |s| then SPACE
                          else if q + 80 * k < CELLS then c.screen[q + 80 * k] else NUL
  {
    var k := Scrolled(Position(c) + |s|);
    var e := Type(c, s);
    LineTyped(c, s);
    assert Position(e) - |s| == Position(c) - 80 * k;
    LineErased(e, |s|);
    var d := EraseN(e, |s|);
    CellOf(c.y - k, c.x, Position(d));
    CellOf(d.y, d.x, Position(d));
  }
}
