/** The console code with its cursor bookkeeping and its video memory (student-distrib/lib.c), and
    the terminal switch (student-distrib/multiprocessing.c). Only character bytes are modelled; the
    attribute byte next to each is the constant ATTRIB. */
module Terminals {
  import opened Common
  import opened TextLayout
  import opened Console

  const NUM_TERMINALS := 3
  const PAGE_CELLS := 2048

  type Terminal = t: nat | t < NUM_TERMINALS

  class Display {
    /** Video memory, and for each terminal the buffer that holds its screen while it is hidden. */
    const video: array<byte>
    const videoBuf: seq<array<byte>>
    var screenX: seq<int>
    var screenY: seq<int>
    var forwardNext: seq<int>
    var backwardNext: seq<int>
    var visible: nat
    var running: nat
    var putcToVisible: bool

    ghost predicate Memory()
    {
      && video.Length == PAGE_CELLS && |videoBuf| == NUM_TERMINALS
      && (forall t: Terminal :: videoBuf[t].Length == PAGE_CELLS && videoBuf[t] != video)
      && (forall t: Terminal, u: Terminal :: t != u ==> videoBuf[t] != videoBuf[u])
    }

    /** At the last column, and only there, forward_next is 0 or 80: the mark that the next move of
        the cursor to column 0 has to go to a new row. */
    ghost predicate CursorOk(t: Terminal)
      requires |screenX| == |screenY| == |forwardNext| == |backwardNext| == NUM_TERMINALS
      reads this
    {
      && 0 <= screenX[t] <= NUM_COLS && 0 <= screenY[t] < NUM_ROWS
      && (screenX[t] == 79 <==> forwardNext[t] == 0 || forwardNext[t] == 80)
    }

    ghost predicate Valid()
      reads this
    {
      && Memory()
      && |screenX| == |screenY| == |forwardNext| == |backwardNext| == NUM_TERMINALS
      && (forall t: Terminal :: CursorOk(t))
      && visible < NUM_TERMINALS && running < NUM_TERMINALS
    }

    /** Where terminal `t` keeps its screen. */
    function Store(t: Terminal): array<byte>
      requires Memory()
      reads this
    {
      if visible == t then video else videoBuf[t]
    }

    /** The logical console of terminal `t`, wherever its screen is kept. */
    ghost function View(t: Terminal): (c: Console)
      requires Valid()
      reads this, video, videoBuf
      ensures Ok(c)
    {
      assert CursorOk(t);
      Console(Store(t)[..CELLS], screenX[t], screenY[t])
    }

    /** The terminal that output goes to. */
    function Target(): Terminal
      requires Valid()
      reads this
    {
      if putcToVisible then visible else running
    }

    // -------------------------------------------------------------- output

    /** scroll_down's two loops over the store of the terminal. */
    method Scroll(mem: array<byte>)
      requires mem.Length == PAGE_CELLS
      modifies mem
      ensures mem[..CELLS] == old(mem[80..CELLS]) + Blanks(80)
    {
      var i := 80;
      while i < CELLS
        invariant 80 <= i <= CELLS
        invariant forall k :: 80 <= k < i ==> mem[k - 80] == old(mem[k])
        invariant forall k :: i - 80 <= k < CELLS ==> mem[k] == old(mem[k])
      {
        mem[i - 80] := mem[i];
        i := i + 1;
      }
      i := 24 * 80;
      while i < CELLS
        invariant 1920 <= i <= CELLS
        invariant forall k :: 0 <= k < 1920 ==> mem[k] == old(mem[k + 80])
        invariant forall k :: 1920 <= k < i ==> mem[k] == NUL
      {
        mem[i] := NUL;
        i := i + 1;
      }
    }

    /** What every console operation leaves alone. */
    twostate predicate OthersKept(term: Terminal)
      requires old(Valid()) && Valid()
      reads this, video, videoBuf
    {
      && visible == old(visible) && running == old(running) && putcToVisible == old(putcToVisible)
      && forall t: Terminal :: t != term ==> View(t) == old(View(t))
    }

    /** No other terminal's cursor fields have changed. */
    twostate predicate OnlyCursor(term: Terminal)
      reads this
    {
      && |old(screenX)| == |old(screenY)| == |old(forwardNext)| == NUM_TERMINALS
      && |screenX| == |screenY| == |forwardNext| == |backwardNext| == NUM_TERMINALS
      && screenX == old(screenX)[term := screenX[term]]
      && screenY == old(screenY)[term := screenY[term]]
      && forwardNext == old(forwardNext)[term := forwardNext[term]]
    }

    /** An operation on one terminal's cursor and store is invisible to the others. */
    twostate lemma OthersUntouched(term: Terminal)
      requires old(Valid()) && Memory()
      requires OnlyCursor(term) && CursorOk(term)
      requires forall t: Terminal :: t != term ==> Store(t)[..CELLS] == old(Store(t)[..CELLS])
      requires visible == old(visible) && running == old(running) && putcToVisible == old(putcToVisible)
      ensures Valid() && OthersKept(term)
    {
      forall t: Terminal ensures CursorOk(t) {
        if t != term {
          assert old(CursorOk(t));
        }
      }
      forall t: Terminal | t != term ensures View(t) == old(View(t)) {
        assert Store(t)[..CELLS] == old(Store(t)[..CELLS]);
      }
    }

    /** wraparound. */
    method Wraparound(term: Terminal)
      requires |screenX| == |screenY| == |forwardNext| == |backwardNext| == NUM_TERMINALS
      modifies this`screenY, this`forwardNext, this`backwardNext
      ensures OnlyCursor(term)
      ensures var wraps := screenX[term] == 0 && (old(forwardNext[term]) == 0 || old(forwardNext[term]) == 80);
        && screenY[term] == old(screenY[term]) + (if wraps then 1 else 0)
        && forwardNext[term] == if wraps then 1 else if screenX[term] == 79 then 80
                                else if old(forwardNext[term]) == 80 then 0 else old(forwardNext[term])
    {
      if forwardNext[term] == NUM_COLS {
        forwardNext := forwardNext[term := 0];
      }
      if screenX[term] == NUM_COLS - 1 {
        forwardNext := forwardNext[term := NUM_COLS];
      }
      if screenX[term] == 0 && forwardNext[term] == 0 {
        screenY := screenY[term := screenY[term] + 1];
        backwardNext := backwardNext[term := NUM_COLS];
        forwardNext := forwardNext[term := 1];
      }
    }

    /** scroll_down. */
    method ScrollDown(term: Terminal)
      requires Memory() && |screenX| == |screenY| == NUM_TERMINALS
      modifies this`screenX, this`screenY, Store(term)
      ensures old(screenY[term]) < NUM_ROWS ==>
        screenX == old(screenX) && screenY == old(screenY) && Store(term)[..] == old(Store(term)[..])
      ensures old(screenY[term]) >= NUM_ROWS ==>
        && screenX == old(screenX)[term := 0] && screenY == old(screenY)[term := 24]
        && Store(term)[..CELLS] == old(Store(term)[80..CELLS]) + Blanks(80)
    {
      if screenY[term] >= NUM_ROWS {
        Scroll(Store(term));
        screenY := screenY[term := NUM_ROWS - 1];
        screenX := screenX[term := 0];
      }
    }

    /** The end of putc: wraparound at either end of a row, then scroll_down below the last one. */
    method Settle(term: Terminal)
      requires Memory() && |screenX| == |screenY| == |forwardNext| == |backwardNext| == NUM_TERMINALS
      requires 0 <= screenX[term] < 80 && 0 <= screenY[term] <= 25
      requires 0 < screenX[term] < 79 || screenY[term] == 25 ==> forwardNext[term] != 0 && forwardNext[term] != 80
      requires screenY[term] == 25 ==> screenX[term] == 0
      modifies this`screenX, this`screenY, this`forwardNext, this`backwardNext, Store(term)
      ensures OnlyCursor(term)
      ensures CursorOk(term)
      ensures screenX[term] == old(screenX[term])
      ensures var y := old(screenY[term]) +
          (if old(screenX[term]) == 0 && (old(forwardNext[term]) == 0 || old(forwardNext[term]) == 80) then 1 else 0);
        if y == 25 then screenY[term] == 24 && Store(term)[..CELLS] == old(Store(term)[80..CELLS]) + Blanks(80)
        else screenY[term] == y && Store(term)[..CELLS] == old(Store(term)[..CELLS])
    {
      if screenX[term] == 0 || screenX[term] == NUM_COLS || screenX[term] == NUM_COLS - 1 {
        Wraparound(term);
      }
      if screenY[term] >= NUM_ROWS {
        ScrollDown(term);
      }
    }

    /** putc. */
    method Putc(c: byte)
      requires Valid()
      modifies this, video, videoBuf
      ensures Valid() == true
      ensures OthersKept(old(Target())) == true
      ensures View(old(Target())) == Put(old(View(Target())), c)
    {
      if c == NEWLINE || c == RETURN {
        BreakRow(c);
      } else {
        WriteCell(c);
      }
    }

    /** The line break's branch of putc, and its common end. */
    method BreakRow(c: byte)
      requires Valid() && IsBreak(c)
      modifies this, video, videoBuf
      ensures Valid() == true
      ensures OthersKept(old(Target())) == true
      ensures View(old(Target())) == Put(old(View(Target())), c)
    {
      var term := Target();
      assert CursorOk(term);
      if !(screenX[term] == 0 || screenX[term] == NUM_COLS || screenX[term] == NUM_COLS - 1) {
        screenY := screenY[term := screenY[term] + 1];
      }
      screenX := screenX[term := 0];
      Settle(term);
      OthersUntouched(term);
    }

    /** The other branch, and the same end. */
    method WriteCell(c: byte)
      requires Valid() && !IsBreak(c)
      modifies this, video, videoBuf
      ensures Valid() == true
      ensures OthersKept(old(Target())) == true
      ensures View(old(Target())) == Put(old(View(Target())), c)
    {
      var term := Target();
      var mem := Store(term);
      ghost var before := View(term);
      assert CursorOk(term);
      mem[80 * screenY[term] + screenX[term]] := c;
      assert mem[..CELLS] == if Position(before) < CELLS then before.screen[Position(before) := c] else before.screen;
      screenX := screenX[term := screenX[term] + 1];
      screenX := screenX[term := screenX[term] % 80];
      screenY := screenY[term := (screenY[term] + screenX[term] / 80) % 25];
      Settle(term);
      forall t: Terminal | t != term ensures Store(t)[..CELLS] == old(Store(t)[..CELLS]) {
        assert Store(t) == old(Store(t)) != mem;
      }
      OthersUntouched(term);
    }

    /** putc from the keyboard interrupt, which sets and clears the flag around it. */
    method EchoPutc(c: byte)
      requires Valid() && !putcToVisible
      modifies this, video, videoBuf
      ensures Valid() == true
      ensures OthersKept(old(visible)) == true
      ensures View(old(visible)) == Put(old(View(visible)), c)
    {
      SetFlag(true);
      label Set:
      Putc(c);
      assert OthersKept@Set(visible);
      SetFlag(false);
      assert forall t: Terminal :: t != visible ==> View(t) == old@Set(View(t)) == old(View(t));
    }

    method SetFlag(flag: bool)
      requires Valid()
      modifies this`putcToVisible
      ensures Valid() == true
      ensures putcToVisible == flag && visible == old(visible) && running == old(running)
      ensures forall t: Terminal :: View(t) == old(View(t))
    {
      assert forall t: Terminal :: CursorOk(t);
      putcToVisible := flag;
      forall t: Terminal ensures CursorOk(t) {
        assert old(CursorOk(t));
      }
      forall t: Terminal ensures View(t) == old(View(t)) {
        assert Store(t) == old(Store(t));
      }
    }

    /** The scheduler's move to another terminal, as far as output is concerned. */
    method SetRunning(t: Terminal)
      requires Valid()
      modifies this`running
      ensures Valid() == true
      ensures running == t && visible == old(visible) && putcToVisible == old(putcToVisible)
      ensures forall u: Terminal :: View(u) == old(View(u))
    {
      assert forall u: Terminal :: CursorOk(u);
      running := t;
      forall u: Terminal ensures CursorOk(u) {
        assert old(CursorOk(u));
      }
    }

    // -------------------------------------------------------------- the keyboard's cursor moves

    /** The part of backspace and left_arrow they share: one step back on the visible terminal. */
    method MoveBack(ghost term: Terminal)
      requires Valid() && term == visible
      requires CanStepBack(View(term))
      modifies this
      ensures Valid() == true
      ensures OthersKept(term) == true
      ensures View(term) == StepBack(old(View(term)))
    {
      assert CursorOk(term);
      if screenX[visible] != 0 {
        screenX := screenX[visible := screenX[visible] - 1];
        forwardNext := forwardNext[visible := screenX[visible] + 1];
        backwardNext := backwardNext[visible := screenX[visible] - 1];
        if screenX[visible] == 0 {
          backwardNext := backwardNext[visible := NUM_COLS];
          forwardNext := forwardNext[visible := 1];
        }
      } else {
        if backwardNext[visible] == NUM_COLS {
          screenX := screenX[visible := NUM_COLS - 1];
          backwardNext := backwardNext[visible := NUM_COLS - 1];
          forwardNext := forwardNext[visible := 0];
        } else {
          screenX := screenX[visible := NUM_COLS - 1];
          forwardNext := forwardNext[visible := 80];
          backwardNext := backwardNext[visible := 78];
        }
        screenY := screenY[visible := screenY[visible] - 1];
      }
      OthersUntouched(term);
    }

    /** At column 0, is there no row above, or a newline character at its end? */
    method AtLineStart() returns (r: bool)
      requires Valid()
      ensures r <==> !CanStepBack(View(visible))
    {
      assert CursorOk(visible);
      r := screenX[visible] == 0
           && (screenY[visible] == 0 || video[80 * (screenY[visible] - 1) + NUM_COLS - 1] == NEWLINE);
    }

    /** backspace, given the keyboard's cursor index. */
    method Backspace(keyboardIdx: nat)
      requires Valid()
      modifies this, video
      ensures Valid() == true
      ensures OthersKept(old(visible)) == true
      ensures View(old(visible)) == if keyboardIdx == 0 then old(View(visible)) else Erase(old(View(visible)))
    {
      assert CursorOk(visible);
      if screenX[visible] == 0 && screenY[visible] == 0 {
        return;
      }
      if keyboardIdx == 0 {
        return;
      }
      var stuck := AtLineStart();
      if stuck {
        return;
      }
      MoveBack(visible);
      BlankCell();
    }

    method BlankCell()
      requires Valid() && View(visible).x < 80
      modifies video
      ensures Valid() == true
      ensures OthersKept(visible) == true
      ensures var c := old(View(visible));
        View(visible) == c.(screen := c.screen[Position(c) := SPACE])
    {
      assert CursorOk(visible);
      video[80 * screenY[visible] + screenX[visible]] := SPACE;
      ghost var c := old(View(visible));
      assert video[..CELLS] == c.screen[Position(c) := SPACE];
      OthersUntouched(visible);
    }

    /** left_arrow: reports whether the cursor has moved. */
    method LeftArrow(keyboardIdx: nat) returns (moved: int)
      requires Valid()
      modifies this
      ensures Valid() == true
      ensures OthersKept(old(visible)) == true
      ensures moved == if keyboardIdx != 0 && CanStepBack(old(View(visible))) then 1 else 0
      ensures View(old(visible)) == if moved == 1 then StepBack(old(View(visible))) else old(View(visible))
    {
      assert CursorOk(visible);
      if screenX[visible] == 0 && screenY[visible] == 0 {
        return 0;
      }
      if keyboardIdx == 0 {
        return 0;
      }
      var stuck := AtLineStart();
      if stuck {
        return 0;
      }
      MoveBack(visible);
      return 1;
    }

    /** right_arrow, given the keyboard's cursor index: reports whether the cursor has moved. Its test of
        the array backward_next itself against 0 is never true. */
    method RightArrow(keyboardIdx: nat) returns (moved: int)
      requires Valid()
      modifies this
      ensures Valid() == true
      ensures OthersKept(old(visible)) == true
      ensures moved == if keyboardIdx != 127 && CanStepRight(old(View(visible))) then 1 else 0
      ensures View(old(visible)) == if moved == 1 then StepRight(old(View(visible))) else old(View(visible))
    {
      assert CursorOk(visible);
      if screenX[visible] == NUM_COLS && screenY[visible] == NUM_ROWS - 1 {
        return 0;
      }
      if keyboardIdx == 127 {
        return 0;
      }
      if screenX[visible] != NUM_COLS {
        screenX := screenX[visible := screenX[visible] + 1];
        forwardNext := forwardNext[visible := screenX[visible] + 1];
        backwardNext := backwardNext[visible := screenX[visible] - 1];
        if screenX[visible] == NUM_COLS {
          backwardNext := backwardNext[visible := 0];
          forwardNext := forwardNext[visible := NUM_COLS - 1];
        }
      } else {
        if video[80 * (screenY[visible] + 1) + NUM_COLS - 1] == NEWLINE {
          return 0;
        }
        screenY := screenY[visible := screenY[visible] + 1];
      }
      OthersUntouched(visible);
      return 1;
    }

    /** The two calls at the end of the keyboard interrupt; they change no console. */
    method Refresh()
      requires Valid()
      modifies this, Store(visible)
      ensures Valid() == true
      ensures visible == old(visible) && running == old(running) && putcToVisible == old(putcToVisible)
      ensures forall t: Terminal :: View(t) == old(View(t))
    {
      ghost var term := visible;
      assert CursorOk(visible);
      Wraparound(visible);
      ScrollDown(visible);
      assert video[..CELLS] == old(video[..CELLS]) by {
        assert video[..CELLS] == video[..][..CELLS] && old(video[..CELLS]) == old(video[..][..CELLS]);
      }
      OthersUntouched(term);
    }

    // -------------------------------------------------------------- switching

    /** memcpy of a page. */
    static method CopyPage(dest: array<byte>, src: array<byte>)
      requires dest.Length == src.Length && dest != src
      modifies dest
      ensures dest[..] == src[..]
    {
      var i := 0;
      while i < dest.Length
        invariant 0 <= i <= dest.Length
        invariant forall k :: 0 <= k < i ==> dest[k] == src[k]
      {
        dest[i] := src[i];
        i := i + 1;
      }
    }

    /** switch_terminal: the old terminal's screen moves to its buffer, the new one's to video memory. */
    method SwitchTerminal(terminal: int)
      requires Valid()
      modifies this, video, videoBuf
      ensures Valid() == true
      ensures visible == if 0 <= terminal < NUM_TERMINALS then terminal else old(visible)
      ensures running == old(running) && putcToVisible == old(putcToVisible)
      ensures forall t: Terminal :: View(t) == old(View(t))
    {
      if terminal < 0 || terminal >= NUM_TERMINALS {
        return;
      }
      CopyPage(videoBuf[visible], video);
      forall i | 0 <= i < PAGE_CELLS {
        video[i] := NUL;
      }
      CopyPage(video, videoBuf[terminal]);
      visible := terminal;
      forall t: Terminal ensures CursorOk(t) {
        assert old(CursorOk(t));
      }
      forall t: Terminal ensures View(t) == old(View(t)) {
        assert old(CursorOk(t));
        assert Store(t)[..] == old(Store(t)[..]);
        assert Store(t)[..CELLS] == Store(t)[..][..CELLS] && old(Store(t)[..CELLS]) == old(Store(t)[..][..CELLS]);
      }
    }

    /** Every terminal starts empty. */
    constructor ()
      ensures Valid() && visible == 0
      ensures forall t: Terminal :: View(t) == FRESH
      ensures fresh(video) && fresh(videoBuf)
    {
      video := new byte[PAGE_CELLS](_ => NUL);
      var b0 := new byte[PAGE_CELLS](_ => NUL);
      var b1 := new byte[PAGE_CELLS](_ => NUL);
      var b2 := new byte[PAGE_CELLS](_ => NUL);
      videoBuf := [b0, b1, b2];
      screenX, screenY, forwardNext, backwardNext := [0, 0, 0], [0, 0, 0], [1, 1, 1], [NUM_COLS, NUM_COLS, NUM_COLS];
      visible, running, putcToVisible := 0, 0, false;
    }
  }
}
