/** The keyboard interrupt handler's line editor (student-distrib/idt_handlers.c) and the terminal
    read it serves (student-distrib/syscall_handlers.c), for the visible terminal while its shell
    waits in a read. */
module LineEditor {
  import opened Common
  import opened TextLayout
  import opened Console
  import opened Terminals
  import opened EditedLine

  /** not_in_prev_cmd_flag, cleared while a command has been recalled: one for all terminals. */
  class RecallFlag {
    var notInPrevCmd: bool

    constructor ()
      ensures notInPrevCmd
    {
      notInPrevCmd := true;
    }
  }

  /** The editor of one terminal. */
  class Keyboard {
    const display: Display
    const flag: RecallFlag
    const buffer: array<byte>
    const lastBuf: array<byte>
    const currentBuf: array<byte>
    var cursorIdx: nat
    var endIdx: nat
    var distanceFromRight: int
    var lastIdx: nat
    var currentIdx: nat
    var echo: bool
    var readPending: bool

    /** The line the buffers and indices stand for. */
    ghost function Edited(): Line
      reads this, flag, buffer, lastBuf, currentBuf
      requires endIdx <= buffer.Length && lastIdx <= lastBuf.Length && currentIdx <= currentBuf.Length
    {
      Line(buffer[..endIdx], cursorIdx, lastBuf[..lastIdx], currentBuf[..currentIdx], !flag.notInPrevCmd, echo)
    }

    ghost predicate Memory() {
      && buffer.Length == lastBuf.Length == currentBuf.Length == BUFFER_SIZE
      && buffer != lastBuf && buffer != currentBuf && lastBuf != currentBuf
    }

    /** The indices bound the line, and the distance is what lies right of the cursor. */
    ghost predicate Valid()
      reads this, flag, buffer, lastBuf, currentBuf
    {
      && Memory()
      && endIdx <= MAX_LINE && lastIdx <= MAX_LINE && currentIdx <= MAX_LINE
      && cursorIdx + distanceFromRight == endIdx && distanceFromRight >= 0
      && LineOk(Edited())
      && (lastIdx == 0 ==> lastBuf[0] == NUL)
    }

    /** Nothing has been typed yet. */
    constructor (display: Display, flag: RecallFlag)
      ensures Valid() && this.display == display && this.flag == flag && !readPending
      ensures Edited() == Line([], 0, [], [], !flag.notInPrevCmd, true)
      ensures fresh(buffer) && fresh(lastBuf) && fresh(currentBuf)
    {
      this.display := display;
      this.flag := flag;
      buffer := new byte[BUFFER_SIZE](_ => NUL);
      lastBuf := new byte[BUFFER_SIZE](_ => NUL);
      currentBuf := new byte[BUFFER_SIZE](_ => NUL);
      cursorIdx, endIdx, distanceFromRight, lastIdx, currentIdx := 0, 0, 0, 0, 0;
      echo, readPending := true, false;
    }

    /** What keys at another terminal change here. */
    twostate lemma KeptButFlag()
      requires old(Valid())
      requires unchanged(this, buffer, lastBuf, currentBuf)
      ensures Valid() && Edited() == old(Edited()).(recalled := !flag.notInPrevCmd)
    {
    }

    /** memset of the buffer's first `n` bytes and memcpy of `n` bytes of another over them. */
    method Load(dest: array<byte>, src: array<byte>, clear: nat, n: nat)
      requires dest.Length == src.Length == BUFFER_SIZE && dest != src
      requires clear <= BUFFER_SIZE && n <= BUFFER_SIZE
      modifies dest
      ensures dest[..n] == src[..n]
      ensures forall i :: n <= i < BUFFER_SIZE ==> dest[i] == if i < clear then NUL else old(dest[i])
    {
      forall i | 0 <= i < clear {
        dest[i] := NUL;
      }
      forall i | 0 <= i < n {
        dest[i] := src[i];
      }
    }

    /** The copy kept for the down arrow, taken after every key that reaches the end of the handler. */
    method Remember()
      requires Memory() && cursorIdx <= MAX_LINE
      modifies this`currentIdx, currentBuf
      ensures flag.notInPrevCmd ==> currentIdx == cursorIdx && currentBuf[..currentIdx] == buffer[..cursorIdx]
      ensures !flag.notInPrevCmd ==> currentIdx == old(currentIdx) && currentBuf[..] == old(currentBuf[..])
    {
      if flag.notInPrevCmd {
        Load(currentBuf, buffer, BUFFER_SIZE, cursorIdx);
        currentIdx := cursorIdx;
      }
    }

    /** Puts a character at the cursor, over another or behind the line. */
    method Insert(b: byte)
      requires Valid() && IsPrintable(b) && cursorIdx < MAX_LINE
      modifies this`cursorIdx, this`endIdx, this`distanceFromRight, buffer
      ensures Valid() == true
      ensures Edited() == old(Edited()).(text := Overwrite(old(Edited()).text, old(cursorIdx), b),
                                         cursor := old(cursorIdx) + 1)
    {
      ghost var l := Edited();
      buffer[cursorIdx] := b;
      cursorIdx := cursorIdx + 1;
      if distanceFromRight == 0 {
        endIdx := endIdx + 1;
      }
      if distanceFromRight > 0 {
        distanceFromRight := distanceFromRight - 1;
      }
      assert buffer[..endIdx] == Overwrite(l.text, l.cursor, b);
    }

    /** The buffer's part of a printable key; tells whether the character is to be echoed. */
    method Store(b: byte) returns (show: bool)
      requires Valid() && IsPrintable(b)
      modifies this, buffer, currentBuf
      ensures Valid() && Edited() == Press(old(Edited()), Char(b))
      ensures show <==> old(echo) && old(cursorIdx) < MAX_LINE
      ensures readPending == old(readPending)
    {
      if cursorIdx == BUFFER_SIZE - 1 {
        echo := false;
      }
      show := echo;
      if cursorIdx < BUFFER_SIZE - 1 {
        Insert(b);
      }
      Remember();
      assert buffer[..cursorIdx] == buffer[..endIdx][..cursorIdx];
    }

    /** The buffer's part of backspace. At the end of the line the character stays in the buffer,
        behind the new end. */
    method RemoveChar()
      requires Valid()
      modifies this, buffer
      ensures Valid() == true
      ensures readPending == old(readPending)
      ensures Edited() == Press(old(Edited()), EditedLine.Backspace)
    {
      ghost var l := Edited();
      if cursorIdx > 0 && distanceFromRight == 0 {
        buffer[cursorIdx] := NUL;
        cursorIdx := cursorIdx - 1;
        endIdx := endIdx - 1;
        echo := true;
        assert buffer[..endIdx] == l.text[..l.cursor - 1];
      } else if cursorIdx > 0 {
        cursorIdx := cursorIdx - 1;
        buffer[cursorIdx] := SPACE;
        distanceFromRight := distanceFromRight + 1;
        echo := true;
        assert buffer[..endIdx] == l.text[l.cursor - 1 := SPACE];
      }
    }

    /** What follows the call of left_arrow: the indices still bound the line exactly when it reported its
        move. */
    method GoLeft(moved: int)
      requires Valid() && cursorIdx > 0 && (moved == 0 || moved == 1)
      modifies this
      ensures Valid() <==> moved == 1
      ensures moved == 1 ==> Edited() == Press(old(Edited()), Left) && readPending == old(readPending)
    {
      distanceFromRight := distanceFromRight + moved;
      cursorIdx := cursorIdx - 1;
      echo := true;
    }

    /** What follows the call of right_arrow. */
    method GoRight(moved: int)
      requires Valid() && distanceFromRight > 0 && (moved == 0 || moved == 1)
      modifies this
      ensures Valid() == true
      ensures Edited() == Stroke(old(Edited()), Right, moved == 1) && readPending == old(readPending)
    {
      distanceFromRight := distanceFromRight - moved;
      cursorIdx := cursorIdx + moved;
      echo := true;
    }

    /** The buffer's part of the up and down arrows: the line becomes the first `n` bytes of `src`. */
    method LoadLine(src: array<byte>, clear: nat, n: nat)
      requires Valid() && (src == lastBuf || src == currentBuf)
      requires clear <= BUFFER_SIZE && n <= MAX_LINE && Text(src[..n])
      modifies this`cursorIdx, this`endIdx, this`distanceFromRight, buffer
      ensures Valid() == true
      ensures Edited() == old(Edited()).(text := src[..n], cursor := n)
    {
      Load(buffer, src, clear, n);
      cursorIdx := n;
      endIdx := cursorIdx;
      distanceFromRight := 0;
    }

    /** Whether arrow up recalls anything. */
    method CanRecall() returns (r: bool)
      requires Valid()
      ensures r <==> Edited().last != [] && !Edited().recalled
    {
      assert lastIdx > 0 ==> lastBuf[0] == Edited().last[0];
      r := lastBuf[0] != NUL && flag.notInPrevCmd;
    }

    /** Stores the newline behind the line and remembers the line. */
    method EndLine()
      requires Valid()
      modifies this`cursorIdx, this`endIdx, this`lastIdx, buffer, lastBuf
      ensures var text := old(Edited()).text;
        && buffer[..|text|] == text && buffer[|text|] == NEWLINE
        && lastIdx == |text| && lastBuf[..lastIdx] == text && (lastIdx == 0 ==> lastBuf[0] == NUL)
    {
      ghost var text := Edited().text;
      if endIdx < BUFFER_SIZE {
        buffer[endIdx] := NEWLINE;
        endIdx := endIdx + 1;
      }
      cursorIdx := endIdx;
      Load(lastBuf, buffer, BUFFER_SIZE, cursorIdx - 1);
      lastIdx := cursorIdx - 1;
      assert lastBuf[..lastIdx] == text;
    }

    /** The buffer's part of Enter. */
    method Finish()
      requires Valid()
      modifies this, flag, buffer, lastBuf, currentBuf
      ensures Valid() == true
      ensures !readPending
      ensures Edited() == Entered(old(Edited()))
      ensures var text := old(Edited()).text; buffer[..|text|] == text && buffer[|text|] == NEWLINE
    {
      flag.notInPrevCmd := true;
      EndLine();
      readPending := false;
      cursorIdx := 0;
      endIdx := 0;
      echo := true;
      distanceFromRight := 0;
      Remember();
    }

    // -------------------------------------------------------------- the read

    /** _sys_read_terminal up to its wait: the buffer is cleared, the line stays empty. */
    method BeginRead()
      requires Valid() && !readPending && endIdx == 0
      modifies this`readPending, buffer
      ensures Valid() == true
      ensures readPending && Edited() == old(Edited())
    {
      forall i | 0 <= i < BUFFER_SIZE {
        buffer[i] := NUL;
      }
      readPending := true;
    }

    /** The bytes a read may take from the line. */
    static function Allowance(nbytes: nat): nat {
      if nbytes > BUFFER_SIZE then BUFFER_SIZE - 1 else nbytes
    }

    /** What a read of a line delivers: the line, cut to the request, and a newline. */
    static function Delivery(line: seq<byte>, nbytes: nat): (d: seq<byte>)
      ensures |d| == Min(|line|, Allowance(nbytes)) + 1
    {
      line[..Min(|line|, Allowance(nbytes))] + [NEWLINE]
    }

    /** That is more than was asked for exactly when the line is as long as the request or longer. */
    static lemma OverrunsIff(line: seq<byte>, nbytes: nat)
      requires Text(line)
      ensures |Delivery(line, nbytes)| > nbytes <==> |line| >= nbytes
      ensures |line| >= nbytes ==> |Delivery(line, nbytes)| == nbytes + 1
    {
    }

    /** The copy at the end of _sys_read_terminal, to the memory from the caller's buffer on. */
    method Deliver(ghost text: seq<byte>, out: array<byte>, nbytes: int) returns (r: int)
      requires Memory() && Text(text) && buffer[..|text|] == text && buffer[|text|] == NEWLINE
      requires nbytes > 0 ==> out.Length >= |Delivery(text, nbytes)|
      requires out != buffer
      modifies out
      ensures r == if nbytes < 0 then -1 else if nbytes == 0 then 0 else |Delivery(text, nbytes)|
      ensures nbytes > 0 ==> out[..r] == Delivery(text, nbytes)
      ensures forall k :: Max(0, r) <= k < out.Length ==> out[k] == old(out[k])
    {
      if nbytes < 0 {
        return -1;
      }
      if nbytes == 0 {
        return 0;
      }
      var n := if nbytes > BUFFER_SIZE then BUFFER_SIZE - 1 else nbytes;
      var j := 0;
      while buffer[j] != NUL && buffer[j] != NEWLINE && j < n
        invariant 0 <= j <= |text| && j <= n
        invariant out[..j] == text[..j]
        invariant forall k :: j <= k < out.Length ==> out[k] == old(out[k])
        decreases n - j
      {
        assert j != |text|;
        out[j] := buffer[j];
        assert out[j] == text[j];
        j := j + 1;
      }
      assert j < |text| ==> buffer[j] == text[j];
      out[j] := NEWLINE;
      return j + 1;
    }

    // -------------------------------------------------------------- reading without a screen

    /** A key while a read is pending, as far as the buffers are concerned; `moved` is what left_arrow or
        right_arrow reports. */
    method PressKey(k: Key, moved: bool)
      requires Valid() && KeyOk(k) && Reported(Edited(), k, moved)
      modifies this, flag, buffer, currentBuf
      ensures Valid() == true
      ensures readPending == old(readPending) && Edited() == Stroke(old(Edited()), k, moved)
    {
      match k
      case Char(b) => var show := Store(b);
      case Backspace => RemoveChar();
      case Left =>
        if cursorIdx > 0 {
          GoLeft(1);
        }
      case Right =>
        if distanceFromRight > 0 && cursorIdx < BUFFER_SIZE - 1 {
          GoRight(if moved then 1 else 0);
        }
      case Up =>
        var recall := CanRecall();
        if recall {
          LoadLine(lastBuf, endIdx, lastIdx);
          flag.notInPrevCmd := false;
        }
      case Down =>
        LoadLine(currentBuf, BUFFER_SIZE, currentIdx);
        flag.notInPrevCmd := true;
    }

    /** The line editor's law: under any keys, and whatever the screen reports of arrow right, the indices
        keep bounding the line, Enter finds room for its newline, and the program receives exactly the
        edited line - as long as left_arrow reports its moves. */
    method ReadKeys(keys: seq<Key>, moves: seq<bool>, out: array<byte>, nbytes: int) returns (r: int)
      requires Valid() && readPending && AllOk(keys) && |moves| == |keys| && LeftsReported(Edited(), keys, moves)
      requires nbytes > 0 && out.Length >= |Delivery(PressAll(Edited(), keys, moves).text, nbytes)|
      requires out != buffer && out != lastBuf && out != currentBuf
      modifies this, flag, buffer, lastBuf, currentBuf, out
      ensures Valid() == true
      ensures !readPending && Edited() == Entered(PressAll(old(Edited()), keys, moves))
      ensures r == |Delivery(PressAll(old(Edited()), keys, moves).text, nbytes)|
      ensures out[..r] == Delivery(PressAll(old(Edited()), keys, moves).text, nbytes)
    {
      ghost var end := PressAll(Edited(), keys, moves);
      var i := 0;
      assert keys[0..] == keys && moves[0..] == moves;
      while i < |keys|
        invariant 0 <= i <= |keys|
        invariant Valid() == true
        invariant LeftsReported(Edited(), keys[i..], moves[i..])
        invariant PressAll(Edited(), keys[i..], moves[i..]) == end
      {
        assert keys[i..][1..] == keys[i + 1..] && moves[i..][1..] == moves[i + 1..];
        PressKey(keys[i], moves[i]);
        i := i + 1;
      }
      Finish();
      r := Deliver(end.text, out, nbytes);
    }

    // -------------------------------------------------------------- the screen's part

    /** The keyboard's buffers are not the display's, and output goes to the visible terminal. */
    ghost predicate Attached()
      reads this, display
    {
      && display.Valid() && display.putcToVisible
      && buffer != display.video && lastBuf != display.video && currentBuf != display.video
      && buffer !in display.videoBuf && lastBuf !in display.videoBuf && currentBuf !in display.videoBuf
    }

    ghost function Visible(): (c: Console)
      requires display.Valid()
      reads display, display.video, display.videoBuf
      ensures Ok(c)
    {
      display.View(display.visible)
    }

    /** Only the visible console has changed. */
    twostate predicate OnlyVisible()
      requires old(display.Valid()) && display.Valid()
      reads display, display.video, display.videoBuf
    {
      display.OthersKept(display.visible)
    }

    method Show(b: byte)
      requires Attached()
      modifies display, display.video, display.videoBuf
      ensures Attached() == true
      ensures OnlyVisible() == true
      ensures Visible() == Put(old(Visible()), b)
    {
      display.Putc(b);
    }

    /** `n` moves to the right. */
    method MoveRight(n: nat)
      requires Attached() && cursorIdx + n <= MAX_LINE
      modifies display
      ensures Attached() == true
      ensures OnlyVisible() == true
      ensures Visible() == StepRightN(old(Visible()), n)
    {
      var i := 0;
      while i < n
        invariant 0 <= i <= n
        invariant Attached() == true
        invariant OnlyVisible() == true
        invariant Visible() == StepRightN(old(Visible()), i)
      {
        var moved := display.RightArrow(cursorIdx + i);
        i := i + 1;
      }
    }

    /** Backspaces over `n` characters. */
    method EraseLine(n: nat)
      requires Attached()
      modifies display, display.video
      ensures Attached() == true
      ensures OnlyVisible() == true
      ensures Visible() == EraseN(old(Visible()), n)
    {
      var i := 0;
      while i < n
        invariant 0 <= i <= n
        invariant Attached() == true
        invariant OnlyVisible() == true
        invariant Visible() == EraseN(old(Visible()), i)
      {
        display.Backspace(n - i);
        i := i + 1;
      }
    }

    /** _sys_write_terminal: the characters of a text, leaving out NULs. */
    method Write(text: seq<byte>)
      requires Attached() && IsText(text)
      modifies display, display.video, display.videoBuf
      ensures Attached() == true
      ensures OnlyVisible() == true
      ensures Visible() == Type(old(Visible()), text)
    {
      var i := 0;
      while i < |text|
        invariant 0 <= i <= |text|
        invariant Attached() == true
        invariant OnlyVisible() == true
        invariant Visible() == Type(old(Visible()), text[..i])
      {
        assert text[..i + 1][..i] == text[..i];
        if text[i] != NUL {
          Show(text[i]);
        }
        i := i + 1;
      }
      assert text[..i] == text;
    }

    // -------------------------------------------------------------- the keys

    /** A read is pending. */
    ghost predicate InSession()
      reads this, flag, buffer, lastBuf, currentBuf, display
    {
      Valid() && readPending && Attached()
    }

    method CharKey(b: byte)
      requires InSession() && IsPrintable(b)
      modifies this, buffer, currentBuf, display, display.video, display.videoBuf
      ensures InSession() == true
      ensures Edited() == Press(old(Edited()), Char(b))
      ensures Visible() == Echo(old(Edited()), Char(b), old(Visible()))
      ensures OnlyVisible() == true
    {
      var show := Store(b);
      if show {
        Show(b);
      }
      EndOfHandler();
    }

    /** wraparound and scroll_down close the handler. */
    method EndOfHandler()
      requires Attached()
      modifies display, display.video, display.videoBuf
      ensures Attached() == true
      ensures OnlyVisible() == true
      ensures Visible() == old(Visible())
    {
      display.Refresh();
    }

    method BackspaceKey()
      requires InSession()
      modifies this, buffer, display, display.video
      ensures InSession() == true
      ensures Edited() == Press(old(Edited()), EditedLine.Backspace)
      ensures Visible() == Echo(old(Edited()), EditedLine.Backspace, old(Visible()))
      ensures OnlyVisible() == true
    {
      display.Backspace(cursorIdx);
      RemoveChar();
    }

    method LeftKey()
      requires InSession() && Reported(Edited(), Left, Moves(Left, Visible()))
      modifies this, display
      ensures InSession() == true
      ensures Edited() == Press(old(Edited()), Left)
      ensures Visible() == Echo(old(Edited()), Left, old(Visible()))
      ensures OnlyVisible() == true
    {
      if cursorIdx > 0 {
        var moved := display.LeftArrow(cursorIdx);
        GoLeft(moved);
      }
    }

    method RightKey()
      requires InSession()
      modifies this, display
      ensures InSession() == true
      ensures Edited() == After(old(Edited()), Right, old(Visible()))
      ensures Visible() == Echo(old(Edited()), Right, old(Visible()))
      ensures OnlyVisible() == true
    {
      if distanceFromRight > 0 && cursorIdx < BUFFER_SIZE - 1 {
        var moved := display.RightArrow(cursorIdx);
        GoRight(moved);
      }
    }

    /** The screen's part of arrow up and down, behind the moves: the old line is erased, the new one
        written. */
    method Redraw(erase: nat)
      requires Valid() && Attached()
      modifies display, display.video, display.videoBuf
      ensures Attached() == true
      ensures OnlyVisible() == true
      ensures Visible() == Type(EraseN(old(Visible()), erase), Edited().text)
    {
      EraseLine(erase);
      Write(buffer[..endIdx]);
    }

    method ReplaceLine(src: array<byte>, clear: nat, n: nat)
      requires Valid() && Attached() && (src == lastBuf || src == currentBuf)
      requires clear <= BUFFER_SIZE && n <= MAX_LINE && Text(src[..n])
      modifies this`cursorIdx, this`endIdx, this`distanceFromRight, buffer
      modifies display, display.video, display.videoBuf
      ensures Valid() == true
      ensures Attached() == true
      ensures Edited() == old(Edited()).(text := src[..n], cursor := n)
      ensures Visible() == Replace(old(Edited()), old(Visible()), src[..n])
      ensures OnlyVisible() == true
    {
      hide EraseN, StepRightN, Type, LineOk;
      var erase := endIdx;
      MoveRight(distanceFromRight);
      LoadLine(src, clear, n);
      Redraw(erase);
    }

    method UpKey()
      requires InSession()
      modifies this, flag, buffer, display, display.video, display.videoBuf
      ensures InSession() == true
      ensures Edited() == Press(old(Edited()), Up)
      ensures Visible() == Echo(old(Edited()), Up, old(Visible()))
      ensures OnlyVisible() == true
    {
      var recall := CanRecall();
      if recall {
        ReplaceLine(lastBuf, endIdx, lastIdx);
        flag.notInPrevCmd := false;
      }
    }

    method DownKey()
      requires InSession()
      modifies this, flag, buffer, display, display.video, display.videoBuf
      ensures InSession() == true
      ensures Edited() == Press(old(Edited()), Down)
      ensures Visible() == Echo(old(Edited()), Down, old(Visible()))
      ensures OnlyVisible() == true
    {
      ReplaceLine(currentBuf, BUFFER_SIZE, currentIdx);
      flag.notInPrevCmd := true;
    }

    /** Enter: there is always room for the newline behind the line; the read may go on. */
    method EnterKey()
      requires InSession()
      modifies this, flag, buffer, lastBuf, currentBuf, display, display.video, display.videoBuf
      ensures Valid() == true
      ensures Attached() == true
      ensures !readPending
      ensures Edited() == Entered(old(Edited()))
      ensures var text := old(Edited()).text; buffer[..|text|] == text && buffer[|text|] == NEWLINE
      ensures Visible() == Put(old(Visible()), NEWLINE)
      ensures OnlyVisible() == true
    {
      Finish();
      Show(NEWLINE);
      EndOfHandler();
    }

    /** Any key but Enter. */
    method OnKey(k: Key)
      requires InSession() && KeyOk(k) && Reported(Edited(), k, Moves(k, Visible()))
      modifies this, flag, buffer, lastBuf, currentBuf, display, display.video, display.videoBuf
      ensures InSession() == true
      ensures Edited() == After(old(Edited()), k, old(Visible()))
      ensures Visible() == Echo(old(Edited()), k, old(Visible()))
      ensures OnlyVisible() == true
    {
      match k
      case Char(b) => CharKey(b);
      case Backspace => BackspaceKey();
      case Left => LeftKey();
      case Right => RightKey();
      case Up => UpKey();
      case Down => DownKey();
    }

    // -------------------------------------------------------------- reading at a screen

    /** The memory a program reads into is none of the kernel's. */
    ghost predicate Foreign(out: array<byte>)
      reads display
    {
      && out != buffer && out != lastBuf && out != currentBuf
      && out != display.video && out !in display.videoBuf
    }

    /** The keys of a read before Enter. */
    method TypeKeys(keys: seq<Key>)
      requires InSession() && AllOk(keys) && Reports(Edited(), keys, Visible())
      modifies this, flag, buffer, lastBuf, currentBuf, display, display.video, display.videoBuf
      ensures InSession() == true
      ensures Edited() == LineAfter(old(Edited()), keys, old(Visible()))
      ensures Visible() == EchoAll(old(Edited()), keys, old(Visible()))
      ensures old(OnScreen(Edited(), Visible()) && AllFit(Edited(), keys, Visible())) ==> OnScreen(Edited(), Visible())
    {
      hide OnScreen, AllFit;
      if OnScreen(Edited(), Visible()) && AllFit(Edited(), keys, Visible()) {
        SessionStaysOnScreen(Edited(), keys, Visible());
      }
      ghost var end, shown := LineAfter(Edited(), keys, Visible()), EchoAll(Edited(), keys, Visible());
      var i := 0;
      assert keys[0..] == keys;
      while i < |keys|
        invariant 0 <= i <= |keys|
        invariant InSession() == true
        invariant Reports(Edited(), keys[i..], Visible())
        invariant LineAfter(Edited(), keys[i..], Visible()) == end
        invariant EchoAll(Edited(), keys[i..], Visible()) == shown
      {
        SessionStep(Edited(), keys[i..], Visible());
        assert keys[i..][1..] == keys[i + 1..];
        OnKey(keys[i]);
        i := i + 1;
      }
    }

    /** A whole terminal read at a screen: any keys, then Enter. The program receives the edited line, cut
        to its request, and a newline, and the screen shows what the keys echoed - as long as left_arrow
        reports its moves. */
    method ReadLine(keys: seq<Key>, out: array<byte>, nbytes: int) returns (r: int)
      requires Valid() && Attached() && !readPending && endIdx == 0
      requires AllOk(keys) && Reports(Edited(), keys, Visible())
      requires nbytes > 0 && out.Length >= |Delivery(LineAfter(Edited(), keys, Visible()).text, nbytes)|
      requires Foreign(out)
      modifies this, flag, buffer, lastBuf, currentBuf, display, display.video, display.videoBuf, out
      ensures Valid() == true
      ensures Attached() == true
      ensures !readPending && Edited() == Entered(LineAfter(old(Edited()), keys, old(Visible())))
      ensures r == |Delivery(LineAfter(old(Edited()), keys, old(Visible())).text, nbytes)|
      ensures out[..r] == Delivery(LineAfter(old(Edited()), keys, old(Visible())).text, nbytes)
      ensures Visible() == Put(EchoAll(old(Edited()), keys, old(Visible())), NEWLINE)
    {
      ghost var end := LineAfter(Edited(), keys, Visible());
      BeginRead();
      TypeKeys(keys);
      EnterKey();
      r := Deliver(end.text, out, nbytes);
    }

    /** A prompt and the read after it. */
    method ReadTurn(turn: Turn, out: array<byte>, nbytes: int) returns (line: seq<byte>)
      requires Valid() && Attached() && !readPending && endIdx == 0
      requires IsText(turn.prompt) && AllOk(turn.keys)
      requires Reports(Edited(), turn.keys, Type(Visible(), turn.prompt))
      requires nbytes > 0 && Foreign(out)
      requires |Delivery(LineAfter(Edited(), turn.keys, Type(Visible(), turn.prompt)).text, nbytes)| <= out.Length
      modifies this, flag, buffer, lastBuf, currentBuf, display, display.video, display.videoBuf, out
      ensures Valid() == true
      ensures Attached() == true
      ensures !readPending && endIdx == 0
      ensures Edited() == Entered(LineAfter(old(Edited()), turn.keys, Type(old(Visible()), turn.prompt)))
      ensures Visible() == Put(EchoAll(old(Edited()), turn.keys, Type(old(Visible()), turn.prompt)), NEWLINE)
      ensures line == Delivery(LineAfter(old(Edited()), turn.keys, Type(old(Visible()), turn.prompt)).text, nbytes)
    {
      hide LineAfter, Type, Put, EchoAll, Reports, Delivery, LineOk;
      Write(turn.prompt);
      var r := ReadLine(turn.keys, out, nbytes);
      line := out[..r];
    }

    /** The shell's loop of prompt and read. What is remembered of one read is there in the next. */
    method ReadLines(turns: seq<Turn>, out: array<byte>, nbytes: int) returns (lines: seq<seq<byte>>)
      requires Valid() && Attached() && !readPending && endIdx == 0
      requires TurnsOk(turns) && AllReport(Edited(), turns, Visible())
      requires nbytes > 0 && Foreign(out)
      requires forall line :: line in Lines(Edited(), turns, Visible()) ==> |Delivery(line, nbytes)| <= out.Length
      modifies this, flag, buffer, lastBuf, currentBuf, display, display.video, display.videoBuf, out
      ensures Valid() == true
      ensures Attached() == true
      ensures |lines| == |turns|
      ensures forall i :: 0 <= i < |turns| ==>
        lines[i] == Delivery(Lines(old(Edited()), turns, old(Visible()))[i], nbytes)
    {
      hide LineAfter, Type, Put, EchoAll, Reports, Delivery, LineOk, Entered;
      ghost var all := Lines(Edited(), turns, Visible());
      lines := [];
      assert turns[0..] == turns && all[0..] == all;
      while |lines| < |turns|
        invariant |lines| <= |turns|
        invariant Valid() == true
        invariant Attached() == true
        invariant !readPending && endIdx == 0
        invariant TurnsOk(turns[|lines|..]) && AllReport(Edited(), turns[|lines|..], Visible())
        invariant Lines(Edited(), turns[|lines|..], Visible()) == all[|lines|..]
        invariant forall i :: 0 <= i < |lines| ==> lines[i] == Delivery(all[i], nbytes)
      {
        ghost var rest := turns[|lines|..];
        assert rest[0] == turns[|lines|] && rest[1..] == turns[|lines| + 1..];
        ghost var left := Lines(Edited(), rest, Visible());
        assert left[0] == all[|lines|] && left[1..] == all[|lines| + 1..];
        var line := ReadTurn(turns[|lines|], out, nbytes);
        lines := lines + [line];
      }
    }
  }
}
