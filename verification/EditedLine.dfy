/** The line being typed at a terminal, as an overwrite-mode line, and what its keys do to the
    screen. The reference for the keyboard interrupt handler. */
module EditedLine {
  import opened Common
  import opened TextLayout
  import opened Console
  import TerminalRuns

  const BUFFER_SIZE := 128
  const MAX_LINE := 127

  /** `last` is the previous command, `current` what the down arrow restores, `recalled` whether the
      previous command has been fetched; `echo` is switched off by typing into a full line. */
  datatype Line = Line(text: seq<byte>, cursor: nat, last: seq<byte>, current: seq<byte>, recalled: bool, echo: bool)

  datatype Key = Char(b: byte) | Backspace | Left | Right | Up | Down

  predicate Text(s: seq<byte>) {
    |s| <= MAX_LINE && forall i :: 0 <= i < |s| ==> IsPrintable(s[i])
  }

  predicate LineOk(l: Line) {
    l.cursor <= |l.text| && Text(l.text) && Text(l.last) && Text(l.current)
  }

  predicate KeyOk(k: Key) {
    k.Char? ==> IsPrintable(k.b)
  }

  /** Overwriting or appending one character. */
  function Overwrite(text: seq<byte>, cursor: nat, b: byte): seq<byte>
    requires cursor <= |text|
  {
    if cursor == |text| then text + [b] else text[cursor := b]
  }

  /** A key's effect on the line when the cursor moves it asks for are made. */
  function Press(l: Line, k: Key): (r: Line)
    requires LineOk(l) && KeyOk(k)
    ensures LineOk(r)
  {
    match k
    case Char(b) =>
      var text := if l.cursor < MAX_LINE then Overwrite(l.text, l.cursor, b) else l.text;
      var cursor := Min(l.cursor + 1, MAX_LINE);
      l.(text := text, cursor := cursor, current := if l.recalled then l.current else text[..cursor],
         echo := l.echo && l.cursor < MAX_LINE)
    case Backspace =>
      if l.cursor == 0 then l
      else if l.cursor == |l.text| then l.(text := l.text[..l.cursor - 1], cursor := l.cursor - 1, echo := true)
      else l.(text := l.text[l.cursor - 1 := SPACE], cursor := l.cursor - 1, echo := true)
    case Left => if l.cursor == 0 then l else l.(cursor := l.cursor - 1, echo := true)
    case Right => if l.cursor == |l.text| then l else l.(cursor := l.cursor + 1, echo := true)
    case Up =>
      if l.last == [] || l.recalled then l
      else l.(text := l.last, cursor := |l.last|, recalled := true)
    case Down => l.(text := l.current, cursor := |l.current|, recalled := false)
  }

  /** The same when the screen reports whether its cursor has moved. Only arrow right heeds the report. */
  function Stroke(l: Line, k: Key, moved: bool): (r: Line)
    requires LineOk(l) && KeyOk(k)
    ensures LineOk(r)
  {
    if k.Right? && !moved && l.cursor < |l.text| then l.(echo := true) else Press(l, k)
  }

  /** Arrow left counts on its move: the handler moves its index in any case. */
  predicate Reported(l: Line, k: Key, moved: bool) {
    k.Left? && l.cursor > 0 ==> moved
  }

  /** The line after Enter: empty, and remembered. */
  function Entered(l: Line): (r: Line)
    requires LineOk(l)
    ensures LineOk(r)
  {
    Line([], 0, l.text, [], false, true)
  }

  predicate AllOk(ks: seq<Key>) {
    forall i :: 0 <= i < |ks| ==> KeyOk(ks[i])
  }

  function PressAll(l: Line, ks: seq<Key>, moves: seq<bool>): (r: Line)
    requires LineOk(l) && AllOk(ks) && |moves| == |ks|
    ensures LineOk(r)
    decreases |ks|
  {
    if ks == [] then l else PressAll(Stroke(l, ks[0], moves[0]), ks[1..], moves[1..])
  }

  /** left_arrow reports its moves. */
  predicate LeftsReported(l: Line, ks: seq<Key>, moves: seq<bool>)
    requires LineOk(l) && AllOk(ks) && |moves| == |ks|
    decreases |ks|
  {
    ks == [] || (Reported(l, ks[0], moves[0]) && LeftsReported(Stroke(l, ks[0], moves[0]), ks[1..], moves[1..]))
  }

  // ---------------------------------------------------------------- on the screen

  /** What left_arrow and right_arrow report. */
  predicate Moves(k: Key, c: Console)
    requires Ok(c)
  {
    match k
    case Left => CanStepBack(c)
    case Right => CanStepRight(c)
    case _ => true
  }

  /** What the key does to the console. The arrows up and down first move right as many times as there are
      characters to the end of the line. */
  function Echo(l: Line, k: Key, c: Console): (d: Console)
    requires LineOk(l) && KeyOk(k) && Ok(c)
    ensures Ok(d)
  {
    match k
    case Char(b) => if l.cursor < MAX_LINE && l.echo then Put(c, b) else c
    case Backspace => if l.cursor == 0 then c else Erase(c)
    case Left => if l.cursor == 0 then c else StepBack(c)
    case Right => if l.cursor == |l.text| then c else StepRight(c)
    case Up => if l.last == [] || l.recalled then c else Replace(l, c, l.last)
    case Down => Replace(l, c, l.current)
  }

  function Replace(l: Line, c: Console, text: seq<byte>): (d: Console)
    requires LineOk(l) && Ok(c)
    ensures Ok(d)
  {
    Type(EraseN(StepRightN(c, |l.text| - l.cursor), |l.text|), text)
  }

  /** The line after a key at the console `c`. */
  function After(l: Line, k: Key, c: Console): (r: Line)
    requires LineOk(l) && KeyOk(k) && Ok(c)
    ensures LineOk(r)
  {
    Stroke(l, k, Moves(k, c))
  }

  function MovesAll(l: Line, ks: seq<Key>, c: Console): (moves: seq<bool>)
    requires LineOk(l) && AllOk(ks) && Ok(c)
    ensures |moves| == |ks|
    decreases |ks|
  {
    if ks == [] then [] else [Moves(ks[0], c)] + MovesAll(After(l, ks[0], c), ks[1..], Echo(l, ks[0], c))
  }

  function EchoAll(l: Line, ks: seq<Key>, c: Console): (d: Console)
    requires LineOk(l) && AllOk(ks) && Ok(c)
    ensures Ok(d)
    decreases |ks|
  {
    if ks == [] then c else EchoAll(After(l, ks[0], c), ks[1..], Echo(l, ks[0], c))
  }

  /** The line after whole sessions at a console, and that left_arrow reports its moves in them. */
  function LineAfter(l: Line, ks: seq<Key>, c: Console): (r: Line)
    requires LineOk(l) && AllOk(ks) && Ok(c)
    ensures LineOk(r)
  {
    PressAll(l, ks, MovesAll(l, ks, c))
  }

  predicate Reports(l: Line, ks: seq<Key>, c: Console)
    requires LineOk(l) && AllOk(ks) && Ok(c)
  {
    LeftsReported(l, ks, MovesAll(l, ks, c))
  }

  /** A session key by key. */
  lemma SessionStep(l: Line, ks: seq<Key>, c: Console)
    requires LineOk(l) && AllOk(ks) && Ok(c) && ks != []
    ensures var next, d := After(l, ks[0], c), Echo(l, ks[0], c);
      && LineAfter(l, ks, c) == LineAfter(next, ks[1..], d)
      && EchoAll(l, ks, c) == EchoAll(next, ks[1..], d)
      && (Reports(l, ks, c) <==> Reported(l, ks[0], Moves(ks[0], c)) && Reports(next, ks[1..], d))
  {
    var moves := MovesAll(l, ks, c);
    assert moves[1..] == MovesAll(After(l, ks[0], c), ks[1..], Echo(l, ks[0], c));
  }

  // ---------------------------------------------------------------- line and screen

  /** Whatever can still be typed will be shown. */
  predicate Echoing(l: Line) {
    l.echo || l.cursor == MAX_LINE
  }

  /** The line stands on the screen, its cursor under the console's cursor. */
  predicate OnScreen(l: Line, c: Console)
    requires LineOk(l) && Ok(c)
  {
    && Echoing(l)
    && l.cursor <= Position(c) && Position(c) - l.cursor + |l.text| < CELLS
    && (c.x == 80 ==> l.cursor > 0)
    && forall i :: 0 <= i < |l.text| ==> c.screen[Position(c) - l.cursor + i] == l.text[i]
  }

  /** The key's effect on the screen fits the line: nothing is typed and no move is made from column 80,
      and the line is replaced only while echo is on, or by a full line. */
  predicate KeyFits(l: Line, k: Key, c: Console)
    requires Ok(c)
  {
    match k
    case Char(_) => l.cursor < MAX_LINE && l.echo ==> c.x < 80
    case Right => l.cursor < |l.text| && CanStepRight(c) ==> c.x < 80
    case Up => l.last == [] || l.recalled || l.echo || |l.last| == MAX_LINE
    case Down => l.echo || |l.current| == MAX_LINE
    case _ => true
  }

  lemma CharOnScreen(l: Line, b: byte, c: Console)
    requires LineOk(l) && Ok(c) && OnScreen(l, c) && IsPrintable(b) && KeyFits(l, Char(b), c)
    ensures OnScreen(Press(l, Char(b)), Echo(l, Char(b), c))
  {
    if l.cursor < MAX_LINE {
      if c.x == 79 && c.y == 24 {
        CharScrolls(l, b, c);
      } else if l.echo {
        PutInPlace(c, b);
        hide Put;
        CharInPlace(l, b, c, Put(c, b));
      }
    }
  }

  lemma PutInPlace(c: Console, b: byte)
    requires Ok(c) && c.x < 80 && !(c.x == 79 && c.y == 24) && !IsBreak(b)
    ensures Put(c, b).screen == c.screen[Position(c) := b] && Position(Put(c, b)) == Position(c) + 1
  {
  }

  lemma CharInPlace(l: Line, b: byte, c: Console, d: Console)
    requires LineOk(l) && Ok(c) && OnScreen(l, c) && IsPrintable(b) && l.cursor < MAX_LINE && l.echo
    requires Ok(d) && d.x < 80
    requires d.screen == c.screen[Position(c) := b] && Position(d) == Position(c) + 1
    ensures OnScreen(Press(l, Char(b)), d)
  {
  }

  lemma CharScrolls(l: Line, b: byte, c: Console)
    requires LineOk(l) && Ok(c) && OnScreen(l, c) && IsPrintable(b) && l.cursor < MAX_LINE
    requires c.x == 79 && c.y == 24
    ensures OnScreen(Press(l, Char(b)), Put(c, b))
  {
    var n, d := Press(l, Char(b)), Put(c, b);
    var start := Position(c) - l.cursor;
    forall i | 0 <= i < |n.text| ensures d.screen[Position(d) - n.cursor + i] == n.text[i] {
      assert d.screen[start - 80 + i] == if i == l.cursor then b else c.screen[start + i];
    }
  }

  /** Behind a line that is on the screen the cursor can always step back: left_arrow moves. */
  lemma CanStepBackInLine(l: Line, c: Console)
    requires LineOk(l) && Ok(c) && OnScreen(l, c) && l.cursor > 0
    ensures CanStepBack(c)
  {
    assert c.screen[Position(c) - l.cursor + (l.cursor - 1)] == l.text[l.cursor - 1];
  }

  lemma BackOnScreen(l: Line, k: Key, c: Console)
    requires LineOk(l) && Ok(c) && OnScreen(l, c) && (k.Backspace? || k.Left?)
    ensures OnScreen(Press(l, k), Echo(l, k, c)) && Reported(l, k, Moves(k, c))
  {
    if l.cursor > 0 {
      CanStepBackInLine(l, c);
    }
  }

  lemma RightOnScreen(l: Line, c: Console)
    requires LineOk(l) && Ok(c) && OnScreen(l, c) && KeyFits(l, Right, c)
    ensures OnScreen(After(l, Right, c), Echo(l, Right, c))
  {
  }

  /** After the moves and the erasing of arrow up and down, wherever they lead, the other line is typed in
      full view. */
  lemma ReplaceOnScreen(l: Line, c: Console, n: Line)
    requires LineOk(l) && Ok(c) && OnScreen(l, c)
    requires LineOk(n) && n.cursor == |n.text| && Echoing(n)
    ensures OnScreen(n, Replace(l, c, n.text))
  {
    hide Type, StepRight;
    var e := EraseN(StepRightN(c, |l.text| - l.cursor), |l.text|);
    assert |l.text| == 0 ==> e == c;
    TypedOnScreen(e, n.text);
  }

  /** A line just typed stands before the cursor. */
  lemma TypedOnScreen(e: Console, text: seq<byte>)
    requires Ok(e) && e.x < 80 && Text(text)
    ensures var d := Type(e, text);
      && |text| <= Position(d) && d.x < 80
      && forall i :: 0 <= i < |text| ==> d.screen[Position(d) - |text| + i] == text[i]
  {
    hide Put, Type;
    LineTyped(e, text);
    var d := Type(e, text);
    var k := Scrolled(Position(e) + |text|);
    forall i | 0 <= i < |text| ensures d.screen[Position(d) - |text| + i] == text[i] {
      assert d.screen[Position(d) - |text| + i] == Written(e, text, Position(e) + i);
    }
  }

  /** What you see is what you get: every key that fits keeps the edited line on the screen, cell for
      character, with the cursor in its place. */
  lemma KeyKeepsOnScreen(l: Line, k: Key, c: Console)
    requires LineOk(l) && Ok(c) && OnScreen(l, c) && KeyOk(k) && KeyFits(l, k, c)
    ensures OnScreen(After(l, k, c), Echo(l, k, c)) && Reported(l, k, Moves(k, c))
  {
    hide OnScreen;
    match k
    case Char(b) => CharOnScreen(l, b, c);
    case Backspace => BackOnScreen(l, k, c);
    case Left => BackOnScreen(l, k, c);
    case Right => RightOnScreen(l, c);
    case Up =>
      if l.last != [] && !l.recalled {
        ReplaceOnScreen(l, c, Press(l, k));
      }
    case Down => ReplaceOnScreen(l, c, Press(l, k));
  }

  /** After the key the console's cursor stands as far behind the start of the line as the line's own, and
      what is typed next will be shown. The start moves up by a row when the key scrolls the screen; arrow up
      and down choose it anew. */
  predicate Tracks(l: Line, k: Key, c: Console)
    requires LineOk(l) && KeyOk(k) && Ok(c)
  {
    var n, d := After(l, k, c), Echo(l, k, c);
    var scrolled := if k.Char? && l.cursor < MAX_LINE && c.x == 79 && c.y == 24 then 80 else 0;
    && Echoing(n)
    && (k.Up? || k.Down? || Position(d) - n.cursor == Position(c) - l.cursor - scrolled)
  }

  /** The condition is exact. */
  lemma KeyFitsIff(l: Line, k: Key, c: Console)
    requires LineOk(l) && Ok(c) && OnScreen(l, c) && KeyOk(k)
    ensures KeyFits(l, k, c) <==> Tracks(l, k, c)
  {
    if l.cursor > 0 {
      CanStepBackInLine(l, c);
    }
  }

  // ---------------------------------------------------------------- where it goes wrong

  /** Neither arrow switches echo back on: after one of them what is typed next is shown exactly when
      echo was on before, or the recalled line is full itself. */
  lemma RecallEchoesIff(l: Line, k: Key)
    requires LineOk(l) && (k.Down? || (k.Up? && l.last != [] && !l.recalled))
    ensures Echoing(Press(l, k)) <==> l.echo || |Press(l, k).text| == MAX_LINE
  {
  }

  /** A line of 127 characters, one more key, the up arrow, and a character that is not shown. */
  lemma {:induction false} SilentKey(text: seq<byte>, last: seq<byte>, b: byte, c: Console)
    requires Text(text) && |text| == MAX_LINE && Text(last) && 0 < |last| < MAX_LINE
    requires IsPrintable(b) && Ok(c)
    ensures var l := Press(Press(Line(text, MAX_LINE, last, text, false, true), Char(b)), Up);
      l.text == last && Press(l, Char(b)).text == last + [b] && Echo(l, Char(b), c) == c
  {
  }

  /** At the start of a row, behind the end of the line, arrow left and right do not undo each other: they
      leave the cursor behind the row above, and the next character moves it a row too high. */
  lemma StrayCharacter(l: Line, b: byte, c: Console)
    requires LineOk(l) && Ok(c) && OnScreen(l, c) && IsPrintable(b)
    requires 0 < l.cursor == |l.text| < MAX_LINE && c.x == 0
    ensures var n, d := After(After(l, Left, c), Right, Echo(l, Left, c)),
                        Echo(After(l, Left, c), Right, Echo(l, Left, c));
      && n.text == l.text && n.cursor == l.cursor && d == c.(x := 80, y := c.y - 1)
      && After(n, Char(b), d).text == l.text + [b] && Echo(n, Char(b), d).screen == c.screen[Position(c) := b]
      && Position(Echo(n, Char(b), d)) == Position(c) + 1 - 80
  {
    CanStepBackInLine(l, c);
  }

  /** Whatever is typed, erased and recalled, the console is one that runs of a terminal lead to. */
  lemma EchoReachable(l: Line, k: Key, c: Console)
    requires LineOk(l) && KeyOk(k) && Ok(c) && TerminalRuns.Reachable(c)
    ensures TerminalRuns.Reachable(Echo(l, k, c))
  {
    EchoIsAction(l, c);
    match k
    case Char(b) => TerminalRuns.StaysReachable(c, TerminalRuns.Echo(b));
    case Backspace => TerminalRuns.StaysReachable(c, TerminalRuns.EraseKey(l.cursor));
    case Left => TerminalRuns.StaysReachable(c, TerminalRuns.LeftKey(l.cursor));
    case Right => TerminalRuns.StaysReachable(c, TerminalRuns.RightKey(l.cursor));
    case Up => ReplaceReachable(l, c, l.last);
    case Down => ReplaceReachable(l, c, l.current);
  }

  /** The erasing and moving keys are actions of the display, told the line's cursor. */
  lemma EchoIsAction(l: Line, c: Console)
    requires LineOk(l) && Ok(c)
    ensures Echo(l, Backspace, c) == TerminalRuns.Apply(c, TerminalRuns.EraseKey(l.cursor))
    ensures Echo(l, Left, c) == TerminalRuns.Apply(c, TerminalRuns.LeftKey(l.cursor))
    ensures l.cursor < |l.text| ==> Echo(l, Right, c) == TerminalRuns.Apply(c, TerminalRuns.RightKey(l.cursor))
    ensures TerminalRuns.Apply(c, TerminalRuns.RightKey(127)) == c
  {
  }

  lemma ReplaceReachable(l: Line, c: Console, text: seq<byte>)
    requires LineOk(l) && Ok(c) && TerminalRuns.Reachable(c)
    ensures TerminalRuns.Reachable(Replace(l, c, text))
  {
    var end := StepRightN(c, |l.text| - l.cursor);
    MovesReachable(c, |l.text| - l.cursor);
    ErasesReachable(end, |l.text|);
    TypesReachable(EraseN(end, |l.text|), text);
  }

  lemma {:induction false} MovesReachable(c: Console, n: nat)
    requires Ok(c) && TerminalRuns.Reachable(c)
    ensures TerminalRuns.Reachable(StepRightN(c, n))
  {
    if n > 0 {
      MovesReachable(c, n - 1);
      TerminalRuns.StaysReachable(StepRightN(c, n - 1), TerminalRuns.RightKey(0));
    }
  }

  lemma {:induction false} ErasesReachable(c: Console, n: nat)
    requires Ok(c) && TerminalRuns.Reachable(c)
    ensures TerminalRuns.Reachable(EraseN(c, n))
  {
    if n > 0 {
      ErasesReachable(c, n - 1);
      TerminalRuns.StaysReachable(EraseN(c, n - 1), TerminalRuns.EraseKey(1));
    }
  }

  lemma {:induction false} TypesReachable(c: Console, s: seq<byte>)
    requires Ok(c) && TerminalRuns.Reachable(c)
    ensures TerminalRuns.Reachable(Type(c, s))
    decreases |s|
  {
    if s != [] {
      var t := s[..|s| - 1];
      TypesReachable(c, t);
      TerminalRuns.StaysReachable(Type(c, t), TerminalRuns.Output(s[|s| - 1]));
    }
  }

  /** Arrow up and down reach the end of the old line exactly when it lies in the
      cursor's row, the place behind its last column included. */
  lemma ReachesEndIff(l: Line, c: Console)
    requires LineOk(l) && Ok(c) && OnScreen(l, c) && TerminalRuns.Reachable(c)
    ensures var dist := |l.text| - l.cursor;
      Position(StepRightN(c, dist)) == Position(c) + dist <==> c.x + dist <= 80
  {
    TerminalRuns.StepsBackIff(c);
    SteppedRight(c, |l.text| - l.cursor);
  }

  /** Then they erase exactly the old line. */
  lemma ErasesLine(l: Line, c: Console)
    requires LineOk(l) && Ok(c) && OnScreen(l, c) && c.x + (|l.text| - l.cursor) <= 80
    ensures var start := Position(c) - l.cursor;
      var e := EraseN(StepRightN(c, |l.text| - l.cursor), |l.text|);
      && Position(e) == start
      && forall q :: 0 <= q < CELLS ==>
           e.screen[q] == if start <= q < start + |l.text| then SPACE else c.screen[q]
  {
    SteppedRight(c, |l.text| - l.cursor);
    var end := StepRightN(c, |l.text| - l.cursor);
    var start := Position(end) - |l.text|;
    forall q | start <= q < Position(end) ensures end.screen[q] != NEWLINE {
      assert c.screen[start + (q - start)] == l.text[q - start];
    }
    LineErased(end, |l.text|);
  }

  // ---------------------------------------------------------------- whole sessions

  predicate AllFit(l: Line, ks: seq<Key>, c: Console)
    requires LineOk(l) && Ok(c) && AllOk(ks)
    decreases |ks|
  {
    ks == [] || (KeyFits(l, ks[0], c) && AllFit(After(l, ks[0], c), ks[1..], Echo(l, ks[0], c)))
  }

  lemma {:induction false} SessionStaysOnScreen(l: Line, ks: seq<Key>, c: Console)
    requires LineOk(l) && Ok(c) && OnScreen(l, c) && AllOk(ks) && AllFit(l, ks, c)
    ensures OnScreen(LineAfter(l, ks, c), EchoAll(l, ks, c)) && Reports(l, ks, c)
    decreases |ks|
  {
    if ks != [] {
      KeyKeepsOnScreen(l, ks[0], c);
      SessionStep(l, ks, c);
      SessionStaysOnScreen(After(l, ks[0], c), ks[1..], Echo(l, ks[0], c));
    }
  }

  // ---------------------------------------------------------------- one read after another

  /** What a program writes before a read, and the keys of the read. */
  datatype Turn = Turn(prompt: seq<byte>, keys: seq<Key>)

  predicate TurnsOk(turns: seq<Turn>) {
    forall i :: 0 <= i < |turns| ==> IsText(turns[i].prompt) && AllOk(turns[i].keys)
  }

  /** The lines entered in successive reads. */
  function Lines(l: Line, turns: seq<Turn>, c: Console): (lines: seq<seq<byte>>)
    requires LineOk(l) && TurnsOk(turns) && Ok(c)
    ensures |lines| == |turns|
    decreases |turns|
  {
    if turns == [] then []
    else
      var d := Type(c, turns[0].prompt);
      var end := LineAfter(l, turns[0].keys, d);
      [end.text] + Lines(Entered(end), turns[1..], Put(EchoAll(l, turns[0].keys, d), NEWLINE))
  }

  predicate AllReport(l: Line, turns: seq<Turn>, c: Console)
    requires LineOk(l) && TurnsOk(turns) && Ok(c)
    decreases |turns|
  {
    turns == [] ||
    var d := Type(c, turns[0].prompt);
    && Reports(l, turns[0].keys, d)
    && AllReport(Entered(LineAfter(l, turns[0].keys, d)), turns[1..], Put(EchoAll(l, turns[0].keys, d), NEWLINE))
  }

  /** Arrow up and Enter repeat the line of the read before, whatever the program has written meanwhile. */
  lemma UpRepeatsLine(l: Line, first: Turn, prompt: seq<byte>, c: Console)
    requires LineOk(l) && TurnsOk([first, Turn(prompt, [Up])]) && Ok(c)
    ensures var lines := Lines(l, [first, Turn(prompt, [Up])], c);
      lines[1] == lines[0]
  {
    var turns := [first, Turn(prompt, [Up])];
    var d := Type(c, first.prompt);
    var end := LineAfter(l, first.keys, d);
    var e := Type(Put(EchoAll(l, first.keys, d), NEWLINE), prompt);
    assert turns[1..] == [Turn(prompt, [Up])];
    SessionStep(Entered(end), [Up], e);
    assert LineAfter(Entered(end), [Up], e).text == end.text;
  }
}
