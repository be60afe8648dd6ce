/** Interleaved use of the three terminals: no terminal can tell that the others exist. */
module TerminalRuns {
  import opened Common
  import opened CStrings
  import opened TextLayout
  import opened Console
  import opened Terminals

  /** Output by the running process, a key's echo, the erasing and moving keys with the keyboard's cursor
      index, a terminal switch, and a turn of the scheduler. */
  datatype Action =
    | Output(b: byte)
    | Echo(b: byte)
    | EraseKey(idx: nat)
    | LeftKey(idx: nat)
    | RightKey(idx: nat)
    | SwitchTo(terminal: int)
    | Turn(next: Terminal)

  /** What an action does to the one console it concerns. */
  function Apply(c: Console, a: Action): (r: Console)
    requires Ok(c)
    ensures Ok(r)
  {
    match a
    case Output(b) => Put(c, b)
    case Echo(b) => Put(c, b)
    case EraseKey(idx) => if idx == 0 then c else Erase(c)
    case LeftKey(idx) => if idx == 0 then c else StepBack(c)
    case RightKey(idx) => if idx == 127 then c else StepRight(c)
    case _ => c
  }

  /** The visible and the running terminal. */
  datatype Focus = Focus(visible: Terminal, running: Terminal)

  function Refocus(f: Focus, a: Action): Focus {
    match a
    case SwitchTo(n) => if 0 <= n < NUM_TERMINALS then f.(visible := n) else f
    case Turn(t) => f.(running := t)
    case _ => f
  }

  /** The terminal an action works on: processes write to their own, keys to the visible one. */
  function Concerns(f: Focus, a: Action): Terminal {
    if a.Output? then f.running else f.visible
  }

  /** The actions of a run that are terminal `t`'s own. */
  function Own(f: Focus, actions: seq<Action>, t: Terminal): seq<Action>
    decreases |actions|
  {
    if actions == [] then []
    else
      (if Concerns(f, actions[0]) == t then [actions[0]] else []) + Own(Refocus(f, actions[0]), actions[1..], t)
  }

  function Replay(c: Console, actions: seq<Action>): (r: Console)
    requires Ok(c)
    ensures Ok(r)
    decreases |actions|
  {
    if actions == [] then c else Replay(Apply(c, actions[0]), actions[1..])
  }

  /** What can stand on a terminal. */
  ghost predicate Reachable(c: Console) {
    exists actions :: c == Replay(FRESH, actions)
  }

  lemma {:induction false} ReplayMore(c: Console, actions: seq<Action>, a: Action)
    requires Ok(c)
    ensures Replay(c, actions + [a]) == Apply(Replay(c, actions), a)
    decreases |actions|
  {
    if actions == [] {
      assert [a][1..] == [];
      assert Replay(Apply(c, a), []) == Apply(c, a);
    } else {
      assert (actions + [a])[1..] == actions[1..] + [a];
      ReplayMore(Apply(c, actions[0]), actions[1..], a);
    }
  }

  /** One more action leads to a console that can stand there. */
  lemma StaysReachable(c: Console, a: Action)
    requires Ok(c) && Reachable(c)
    ensures Reachable(Apply(c, a))
  {
    var actions :| c == Replay(FRESH, actions);
    ReplayMore(FRESH, actions, a);
  }

  lemma {:induction false} ReplayHoldsNoNewline(c: Console, actions: seq<Action>)
    requires Ok(c) && NEWLINE !in c.screen
    ensures NEWLINE !in Replay(c, actions).screen
    decreases |actions|
  {
    if actions != [] {
      var a := actions[0];
      CellsHoldNoNewline(c, if a.Output? || a.Echo? then a.b else NUL);
      ReplayHoldsNoNewline(Apply(c, a), actions[1..]);
    }
  }

  /** After any run no cell of a terminal holds a newline character: the check for one before the cursor
      stops nothing, and left_arrow and backspace move from everywhere but the top left. */
  lemma StepsBackIff(c: Console)
    requires Ok(c) && Reachable(c)
    ensures NEWLINE !in c.screen
    ensures CanStepBack(c) <==> Position(c) > 0
  {
    var actions :| c == Replay(FRESH, actions);
    ReplayHoldsNoNewline(FRESH, actions);
  }

  /** One action on the display. */
  method Act(d: Display, a: Action)
    requires d.Valid() && !d.putcToVisible
    modifies d, d.video, d.videoBuf
    ensures d.Valid() == true
    ensures !d.putcToVisible
    ensures Focus(d.visible, d.running) == Refocus(old(Focus(d.visible, d.running)), a)
    ensures forall t: Terminal ::
      d.View(t) == if t == Concerns(old(Focus(d.visible, d.running)), a) then Apply(old(d.View(t)), a)
                   else old(d.View(t))
  {
    match a
    case Output(b) => d.Putc(b);
    case Echo(b) => d.EchoPutc(b);
    case EraseKey(idx) => d.Backspace(idx);
    case LeftKey(idx) => var moved := d.LeftArrow(idx);
    case RightKey(idx) => var moved := d.RightArrow(idx);
    case SwitchTo(n) => d.SwitchTerminal(n);
    case Turn(t) => d.SetRunning(t);
  }

  /** Their own part of `actions` will make of the terminals what `ends` says. */
  ghost predicate LeadsTo(d: Display, actions: seq<Action>, ends: seq<Console>)
    reads d, d.video, d.videoBuf
  {
    && d.Valid() && !d.putcToVisible && |ends| == NUM_TERMINALS
    && forall t: Terminal :: Replay(d.View(t), Own(Focus(d.visible, d.running), actions, t)) == ends[t]
  }

  method ActFirst(d: Display, actions: seq<Action>, ghost ends: seq<Console>)
    requires actions != [] && LeadsTo(d, actions, ends)
    modifies d, d.video, d.videoBuf
    ensures LeadsTo(d, actions[1..], ends) == true
  {
    hide Replay, Own, Apply, Refocus, Concerns;
    ghost var f := Focus(d.visible, d.running);
    OwnStep(d.View(0), f, actions, 0);
    OwnStep(d.View(1), f, actions, 1);
    OwnStep(d.View(2), f, actions, 2);
    Act(d, actions[0]);
  }

  /** Non-interference: after any run, every terminal's logical screen and cursor are what its own
      actions alone produce, whether it was shown or hidden when they happened. */
  method ActAll(d: Display, actions: seq<Action>)
    requires d.Valid() && !d.putcToVisible
    modifies d, d.video, d.videoBuf
    ensures d.Valid() == true
    ensures forall t: Terminal ::
      d.View(t) == Replay(old(d.View(t)), Own(old(Focus(d.visible, d.running)), actions, t))
  {
    ghost var f := Focus(d.visible, d.running);
    ghost var ends := [Replay(d.View(0), Own(f, actions, 0)), Replay(d.View(1), Own(f, actions, 1)),
                       Replay(d.View(2), Own(f, actions, 2))];
    var i := 0;
    assert actions[0..] == actions;
    while i < |actions|
      invariant 0 <= i <= |actions|
      invariant LeadsTo(d, actions[i..], ends) == true
    {
      hide LeadsTo;
      assert actions[i..][1..] == actions[i + 1..];
      ActFirst(d, actions[i..], ends);
      i := i + 1;
    }
  }

  lemma OwnStep(c: Console, f: Focus, actions: seq<Action>, t: Terminal)
    requires Ok(c) && actions != []
    ensures Replay(c, Own(f, actions, t)) ==
      Replay(if Concerns(f, actions[0]) == t then Apply(c, actions[0]) else c,
             Own(Refocus(f, actions[0]), actions[1..], t))
  {
    var rest := Own(Refocus(f, actions[0]), actions[1..], t);
    if Concerns(f, actions[0]) == t {
      assert ([actions[0]] + rest)[1..] == rest;
    } else {
      assert [] + rest == rest;
    }
  }

  /** Whose actions they are: what a process writes appears at the terminal that runs, also after a turn, and
      what a key echoes at the one that is shown, also after a switch. */
  lemma WhoseAction(f: Focus, t: Terminal, c: Console, b: byte, u: Terminal, n: int)
    requires Ok(c)
    ensures Replay(c, Own(f, [Output(b)], t)) == if t == f.running then Put(c, b) else c
    ensures Replay(c, Own(f, [Turn(u), Output(b)], t)) == if t == u then Put(c, b) else c
    ensures Replay(c, Own(f, [Echo(b)], t)) == if t == f.visible then Put(c, b) else c
    ensures Replay(c, Own(f, [SwitchTo(n), Echo(b)], t))
      == if t == (if 0 <= n < 3 then n else f.visible) then Put(c, b) else c
  {
    OneAction(f, Output(b), t, c);
    OneAction(f, Echo(b), t, c);
    TwoActions(f, Turn(u), Output(b), t, c);
    TwoActions(f, SwitchTo(n), Echo(b), t, c);
  }

  lemma OneAction(f: Focus, a: Action, t: Terminal, c: Console)
    requires Ok(c)
    ensures Replay(c, Own(f, [a], t)) == if Concerns(f, a) == t then Apply(c, a) else c
  {
    assert [a][1..] == [];
    OwnStep(c, f, [a], t);
  }

  lemma TwoActions(f: Focus, a: Action, b: Action, t: Terminal, c: Console)
    requires Ok(c)
    ensures var d := if Concerns(f, a) == t then Apply(c, a) else c;
      Replay(c, Own(f, [a, b], t)) == if Concerns(Refocus(f, a), b) == t then Apply(d, b) else d
  {
    assert [a, b][1..] == [b];
    OwnStep(c, f, [a, b], t);
    OneAction(Refocus(f, a), b, t, if Concerns(f, a) == t then Apply(c, a) else c);
  }

  // ---------------------------------------------------------------- writing a text

  function WithoutNuls(s: seq<byte>): (r: seq<byte>)
    ensures IsText(r) && |r| <= |s|
  {
    if s == [] then []
    else WithoutNuls(s[..|s| - 1]) + if s[|s| - 1] == NUL then [] else [s[|s| - 1]]
  }

  lemma OneMore(s: seq<byte>, b: byte)
    ensures WithoutNuls(s + [b]) == if b == 0 then WithoutNuls(s) else WithoutNuls(s) + [b]
  {
    assert (s + [b])[..|s|] == s;
  }

  lemma {:induction false} TextStays(s: seq<byte>)
    requires 0 !in s
    ensures WithoutNuls(s) == s
    decreases |s|
  {
    if s != [] {
      var front, last := s[..|s| - 1], s[|s| - 1];
      assert s == front + [last] && last in s;
      OneMore(front, last);
      TextStays(front);
    }
  }

  /** A NUL drops out, and nothing else. */
  lemma {:induction false} NulDropsOut(a: seq<byte>, b: seq<byte>)
    ensures WithoutNuls([0]) == []
    ensures WithoutNuls(a + b) == WithoutNuls(a) + WithoutNuls(b)
    decreases |b|
  {
    assert WithoutNuls([]) == [];
    OneMore([], 0);
    assert [] + [0] == [0];
    hide WithoutNuls;
    if b == [] {
      assert a + b == a;
      assert WithoutNuls(a) + [] == WithoutNuls(a);
    } else {
      var front, last := b[..|b| - 1], b[|b| - 1];
      Regroup(a, front, last);
      Regroup(WithoutNuls(a), WithoutNuls(front), last);
      assert b == front + [last];
      OneMore(a + front, last);
      OneMore(front, last);
      NulDropsOut(a, front);
    }
  }

  lemma Regroup(a: seq<byte>, b: seq<byte>, last: byte)
    ensures a + (b + [last]) == (a + b) + [last]
  {
  }

  const NO_SUCH_COMMAND: seq<byte> := Bytes("no such command\n")
  const TOO_MANY: seq<byte> := Bytes(
    "Too many processes are currently active.\nPlease terminate one with the 'exit' command to start more.\n")

  /** The shell's complaint about an unknown command is replaced after an execute that found no slot. */
  predicate Replaced(buf: seq<byte>, tooManyShells: bool) {
    tooManyShells && TextOf(NO_SUCH_COMMAND, 16) == TextOf(buf, 16)
  }

  /** That is a text of which 16 bytes are "no such command" and a newline. */
  lemma ReplacedIff(buf: seq<byte>, tooManyShells: bool)
    ensures Replaced(buf, tooManyShells) <==>
      tooManyShells && |buf| >= 16 && buf[..16] == Bytes("no such command\n")
  {
    ComplaintIsText();
    hide NO_SUCH_COMMAND;
    TextOfStart(NO_SUCH_COMMAND, NO_SUCH_COMMAND);
    TextOfStart(buf, NO_SUCH_COMMAND);
  }

  lemma ComplaintIsText()
    ensures IsText(NO_SUCH_COMMAND) && |NO_SUCH_COMMAND| == 16 && NO_SUCH_COMMAND == Bytes("no such command\n")
  {
    assert NO_SUCH_COMMAND == [110, 111, 32, 115, 117, 99, 104, 32, 99, 111, 109, 109, 97, 110, 100, 10];
  }

  /** What a write puts on the terminal. */
  function Written(buf: seq<byte>, nbytes: int, tooManyShells: bool): seq<byte>
    requires nbytes <= |buf|
  {
    if nbytes <= 0 then []
    else if Replaced(buf, tooManyShells) then TOO_MANY
    else WithoutNuls(buf[..nbytes])
  }

  /** A text without NULs is written as it is. */
  lemma WrittenText(buf: seq<byte>, nbytes: nat, tooManyShells: bool)
    requires nbytes <= |buf| && 0 !in buf[..nbytes]
    requires !tooManyShells || |buf| < 16 || buf[..16] != Bytes("no such command\n")
    ensures Written(buf, nbytes, tooManyShells) == buf[..nbytes]
  {
    ReplacedIff(buf, tooManyShells);
    TextStays(buf[..nbytes]);
  }

  lemma TypeNext(c: Console, s: seq<byte>, b: byte)
    requires Ok(c)
    ensures Type(c, s + [b]) == Put(Type(c, s), b)
  {
    assert (s + [b])[..|s|] == s;
  }

  lemma WithoutNulsNext(s: seq<byte>, i: nat)
    requires i < |s|
    ensures WithoutNuls(s[..i + 1]) == if s[i] == NUL then WithoutNuls(s[..i]) else WithoutNuls(s[..i]) + [s[i]]
  {
    assert s[..i + 1][..i] == s[..i];
  }

  /** What the terminals showed before a text was written. */
  datatype Shown = Shown(views: seq<Console>, visible: Terminal, running: Terminal, putcToVisible: bool)

  ghost function Now(d: Display): Shown
    requires d.Valid()
    reads d, d.video, d.videoBuf
  {
    Shown([d.View(0), d.View(1), d.View(2)], d.visible, d.running, d.putcToVisible)
  }

  /** The text `typed` has been written where output goes, and nothing else has changed. */
  ghost predicate TypedOn(d: Display, before: Shown, typed: seq<byte>)
    reads d, d.video, d.videoBuf
  {
    && d.Valid()
    && d.visible == before.visible && d.running == before.running && d.putcToVisible == before.putcToVisible
    && |before.views| == NUM_TERMINALS
    && forall t: Terminal :: Ok(before.views[t])
         && d.View(t) == if t == d.Target() then Type(before.views[t], typed) else before.views[t]
  }

  lemma NothingTyped(d: Display)
    requires d.Valid()
    ensures TypedOn(d, Now(d), [])
    ensures WithoutNuls([]) == []
  {
  }

  /** One more character of it. */
  method PutNext(d: Display, b: byte, ghost before: Shown, ghost typed: seq<byte>)
    requires TypedOn(d, before, typed)
    modifies d, d.video, d.videoBuf
    ensures TypedOn(d, before, typed + [b]) == true
  {
    TypeNext(before.views[d.Target()], typed, b);
    d.Putc(b);
  }

  /** printf of a text without conversions. */
  method Print(d: Display, text: seq<byte>)
    requires d.Valid()
    modifies d, d.video, d.videoBuf
    ensures d.Valid() == true
    ensures d.OthersKept(old(d.Target())) == true
    ensures d.View(old(d.Target())) == Type(old(d.View(d.Target())), text)
  {
    ghost var before := Now(d);
    var i := 0;
    while i < |text|
      invariant 0 <= i <= |text|
      invariant TypedOn(d, before, text[..i]) == true
    {
      hide TypedOn;
      assert text[..i] + [text[i]] == text[..i + 1];
      PutNext(d, text[i], before, text[..i]);
      i := i + 1;
    }
    assert text[..i] == text;
  }

  /** The loop of _sys_write_terminal over the bytes other than NUL. */
  method PrintBytes(d: Display, buf: seq<byte>, nbytes: nat) returns (r: nat)
    requires d.Valid() && nbytes <= |buf|
    modifies d, d.video, d.videoBuf
    ensures d.Valid() == true
    ensures d.OthersKept(old(d.Target())) == true
    ensures d.View(old(d.Target())) == Type(old(d.View(d.Target())), WithoutNuls(buf[..nbytes]))
    ensures r == |WithoutNuls(buf[..nbytes])|
  {
    ghost var before := Now(d);
    NothingTyped(d);
    assert buf[..0] == [];
    hide Type, Put, WithoutNuls;
    r := 0;
    var i := 0;
    while i < nbytes
      invariant 0 <= i <= nbytes && r == |WithoutNuls(buf[..i])|
      invariant TypedOn(d, before, WithoutNuls(buf[..i])) == true
    {
      hide TypedOn;
      WithoutNulsNext(buf, i);
      if buf[i] != NUL {
        PutNext(d, buf[i], before, WithoutNuls(buf[..i]));
        r := r + 1;
      }
      i := i + 1;
    }
  }

  /** The part of _sys_write_terminal behind its checks of the size. */
  method Emit(d: Display, buf: seq<byte>, nbytes: nat, tooManyShells: bool) returns (r: nat)
    requires d.Valid() && 0 < nbytes <= |buf|
    modifies d, d.video, d.videoBuf
    ensures d.Valid() == true
    ensures d.OthersKept(old(d.Target())) == true
    ensures d.View(old(d.Target())) == Type(old(d.View(d.Target())), Written(buf, nbytes, tooManyShells))
    ensures r == if Replaced(buf, tooManyShells) then 16 else |Written(buf, nbytes, tooManyShells)|
  {
    if tooManyShells {
      var differs := Strncmp(NO_SUCH_COMMAND, buf, 16);
      if differs == 0 {
        Print(d, TOO_MANY);
        return 16;
      }
    }
    r := PrintBytes(d, buf, nbytes);
  }

  /** _sys_write_terminal: the bytes other than NUL appear on the writing process's terminal as typed
      there, unless they are the complaint to be replaced. On a fresh terminal that is the end of the
      text wrapped at 80 columns. */
  method WriteTerminal(d: Display, buf: seq<byte>, nbytes: int, tooManyShells: bool) returns (r: int)
    requires d.Valid() && nbytes <= |buf|
    modifies d, d.video, d.videoBuf
    ensures d.Valid() == true
    ensures d.OthersKept(old(d.Target())) == true
    ensures d.View(old(d.Target())) == Type(old(d.View(d.Target())), Written(buf, nbytes, tooManyShells))
    ensures old(d.View(d.Target())) == FRESH ==>
      Shows(d.View(old(d.Target())), PageOf(Written(buf, nbytes, tooManyShells)))
    ensures !old(d.putcToVisible) ==> forall t: Terminal :: t != old(d.running) ==> d.View(t) == old(d.View(t))
    ensures r == if nbytes < 0 then -1 else if nbytes > 0 && Replaced(buf, tooManyShells) then 16
                 else |Written(buf, nbytes, tooManyShells)|
  {
    TypedTextIsLaidOut(Written(buf, nbytes, tooManyShells));
    if nbytes < 0 {
      return -1;
    }
    if nbytes == 0 {
      return 0;
    }
    r := Emit(d, buf, nbytes, tooManyShells);
  }
}
