/** Three terminals, one recall flag (student-distrib/idt_handlers.c): the line editors share the flag that
    arrow up has fetched the last command. What that does to them, and when it does nothing. */
module SharedRecall {
  import opened Common
  import opened TextLayout
  import opened EditedLine
  import opened Terminals
  import opened LineEditor

  /** A key at the visible terminal, with what left_arrow or right_arrow reports, or Enter there and the
      read that follows. */
  datatype Event = Pressed(terminal: Terminal, key: Key, moved: bool) | Enter(terminal: Terminal)

  predicate EventOk(e: Event) {
    e.Pressed? ==> KeyOk(e.key)
  }

  predicate EventsOk(events: seq<Event>) {
    forall i :: 0 <= i < |events| ==> EventOk(events[i])
  }

  predicate LinesOk(lines: seq<Line>) {
    |lines| == NUM_TERMINALS && forall t :: 0 <= t < |lines| ==> LineOk(lines[t])
  }

  function After(l: Line, e: Event): (r: Line)
    requires LineOk(l) && EventOk(e)
    ensures LineOk(r)
  {
    match e
    case Pressed(_, key, moved) => Stroke(l, key, moved)
    case Enter(_) => Entered(l)
  }

  /** An event where every terminal has a flag of its own. */
  function StepApart(lines: seq<Line>, e: Event): (r: seq<Line>)
    requires LinesOk(lines) && EventOk(e)
    ensures LinesOk(r)
  {
    lines[e.terminal := After(lines[e.terminal], e)]
  }

  /** An event as the handler treats it: the flag it leaves is every terminal's. */
  function Step(lines: seq<Line>, e: Event): (r: seq<Line>)
    requires LinesOk(lines) && EventOk(e)
    ensures LinesOk(r)
  {
    var l := After(lines[e.terminal], e);
    seq(NUM_TERMINALS, u requires 0 <= u < NUM_TERMINALS =>
      if u == e.terminal then l else lines[u].(recalled := l.recalled))
  }

  lemma StepIs(lines: seq<Line>, e: Event, r: seq<Line>)
    requires LinesOk(lines) && EventOk(e) && LinesOk(r)
    requires r[e.terminal] == After(lines[e.terminal], e)
    requires forall u: Terminal :: u != e.terminal ==> r[u] == lines[u].(recalled := r[e.terminal].recalled)
    ensures r == Step(lines, e)
  {
  }

  function RunApart(lines: seq<Line>, events: seq<Event>): (r: seq<Line>)
    requires LinesOk(lines) && EventsOk(events)
    ensures LinesOk(r)
    decreases |events|
  {
    if events == [] then lines else RunApart(StepApart(lines, events[0]), events[1..])
  }

  function Run(lines: seq<Line>, events: seq<Event>): (r: seq<Line>)
    requires LinesOk(lines) && EventsOk(events)
    ensures LinesOk(r)
    decreases |events|
  {
    if events == [] then lines else Run(Step(lines, events[0]), events[1..])
  }

  // ---------------------------------------------------------------- one event

  /** Equal but for the flag. */
  predicate Alike(l: Line, n: Line) {
    l.(recalled := n.recalled) == n
  }

  /** The flag decides nothing: arrow up finds nothing to recall or the line already recalled, or the key
      is a character after which the copy for arrow down is up to date anyhow. */
  predicate Indifferent(l: Line, e: Event)
    requires LineOk(l) && EventOk(e)
  {
    if !e.Pressed? then true
    else match e.key
      case Up => l.last == [] || (l.text == l.last && l.cursor == |l.last|)
      case Char(b) =>
        l.current == if l.cursor == MAX_LINE then l.text else l.text[..l.cursor] + [b]
      case _ => true
  }

  lemma FlagMattersIff(l: Line, e: Event)
    requires LineOk(l) && EventOk(e)
    ensures Alike(After(l.(recalled := true), e), After(l.(recalled := false), e)) <==> Indifferent(l, e)
  {
    if e.Pressed? && e.key.Char? {
      CharNeedsFlagIff(l, e.key.b);
    }
  }

  lemma CharNeedsFlagIff(l: Line, b: byte)
    requires LineOk(l) && IsPrintable(b)
    ensures Alike(Press(l.(recalled := true), Char(b)), Press(l.(recalled := false), Char(b)))
      <==> l.current == (if l.cursor == MAX_LINE then l.text else l.text[..l.cursor] + [b])
  {
    if l.cursor < MAX_LINE {
      assert Overwrite(l.text, l.cursor, b)[..l.cursor + 1] == l.text[..l.cursor] + [b];
    }
  }

  // ---------------------------------------------------------------- whole runs

  /** No terminal is left with a recalled command in its line: before an event elsewhere it is entered,
      given up with arrow down, or was never fetched. `at` is the terminal of the event before. */
  predicate NeverLeftRecalled(lines: seq<Line>, at: Terminal, events: seq<Event>)
    requires LinesOk(lines) && EventsOk(events)
    decreases |events|
  {
    events != [] ==>
      && (events[0].terminal != at ==> !lines[at].recalled)
      && NeverLeftRecalled(StepApart(lines, events[0]), events[0].terminal, events[1..])
  }

  /** The flag all `shared` lines carry is that of the terminal last used; the others' are down. */
  predicate Agree(apart: seq<Line>, shared: seq<Line>, at: Terminal)
    requires LinesOk(apart) && LinesOk(shared)
  {
    forall t: Terminal ::
      && Alike(apart[t], shared[t])
      && shared[t].recalled == apart[at].recalled
      && (t != at ==> !apart[t].recalled)
  }

  lemma StepAgrees(apart: seq<Line>, shared: seq<Line>, at: Terminal, e: Event)
    requires LinesOk(apart) && LinesOk(shared) && Agree(apart, shared, at) && EventOk(e)
    requires e.terminal != at ==> !apart[at].recalled
    ensures Agree(StepApart(apart, e), Step(shared, e), e.terminal)
  {
    assert Alike(apart[e.terminal], shared[e.terminal]) && shared[e.terminal].recalled == apart[at].recalled;
    assert apart[e.terminal] == shared[e.terminal];
  }

  /** Then the terminals do not interfere: every line is what it would be with a flag of its own. */
  lemma {:induction false} LinesDoNotInterfere(apart: seq<Line>, shared: seq<Line>, at: Terminal, events: seq<Event>)
    requires LinesOk(apart) && LinesOk(shared) && Agree(apart, shared, at) && EventsOk(events)
    requires NeverLeftRecalled(apart, at, events)
    ensures forall t: Terminal :: Alike(RunApart(apart, events)[t], Run(shared, events)[t])
    decreases |events|
  {
    if events != [] {
      StepAgrees(apart, shared, at, events[0]);
      LinesDoNotInterfere(StepApart(apart, events[0]), Step(shared, events[0]), events[0].terminal, events[1..]);
    }
  }

  /** A terminal left with a recalled command disturbs the next key elsewhere exactly when the flag matters
      to that key. */
  lemma LeftRecalledIff(apart: seq<Line>, shared: seq<Line>, at: Terminal, e: Event)
    requires LinesOk(apart) && LinesOk(shared) && Agree(apart, shared, at) && EventOk(e)
    requires e.terminal != at && apart[at].recalled
    ensures (forall t: Terminal :: Alike(StepApart(apart, e)[t], Step(shared, e)[t]))
      <==> Indifferent(apart[e.terminal], e)
  {
    hide After, Indifferent;
    var t := e.terminal;
    assert Alike(apart[t], shared[t]) && shared[t].recalled && !apart[t].recalled;
    assert apart[t] == apart[t].(recalled := false) && shared[t] == apart[t].(recalled := true);
    FlagMattersIff(apart[t], e);
    assert StepApart(apart, e)[t] == After(apart[t], e) && Step(shared, e)[t] == After(shared[t], e);
    assert forall u: Terminal :: u != t ==> Alike(StepApart(apart, e)[u], Step(shared, e)[u]);
  }

  /** Two terminals have each entered a line. Arrow up on the one, then arrow up on the other: the second
      recalls nothing. */
  lemma SecondRecallFails(lines: seq<Line>, a: Terminal, b: Terminal)
    requires LinesOk(lines) && a != b
    requires forall t: Terminal :: !lines[t].recalled
    requires lines[a].last != [] && lines[b].last != [] && lines[b].text == []
    ensures var events := [Pressed(a, Up, true), Pressed(b, Up, true)];
      && RunApart(lines, events)[b].text == lines[b].last
      && Run(lines, events)[b].text == []
  {
    var events := [Pressed(a, Up, true), Pressed(b, Up, true)];
    assert events[1..] == [Pressed(b, Up, true)] && events[1..][1..] == [];
    var apart, shared := StepApart(lines, events[0]), Step(lines, events[0]);
    assert RunApart(apart, events[1..]) == StepApart(apart, events[1]);
    assert Run(shared, events[1..]) == Step(shared, events[1]);
  }

  // ---------------------------------------------------------------- in memory

  function Buffers(kb: seq<Keyboard>): set<object> {
    (set k | k in kb :: k.buffer as object) + (set k | k in kb :: k.lastBuf) + (set k | k in kb :: k.currentBuf)
  }

  predicate Apart(k: Keyboard, l: Keyboard) {
    && k != l
    && k.buffer != l.buffer && k.buffer != l.lastBuf && k.buffer != l.currentBuf
    && k.lastBuf != l.buffer && k.lastBuf != l.lastBuf && k.lastBuf != l.currentBuf
    && k.currentBuf != l.buffer && k.currentBuf != l.lastBuf && k.currentBuf != l.currentBuf
  }

  /** Three editors with buffers of their own and one flag, each serving a read. */
  ghost predicate Desk(kb: seq<Keyboard>, flag: RecallFlag)
    reads kb, Buffers(kb), flag
  {
    && |kb| == NUM_TERMINALS
    && (forall t: Terminal :: kb[t].flag == flag)
    && (forall t: Terminal, u: Terminal :: t != u ==> Apart(kb[t], kb[u]))
    && forall t: Terminal :: kb[t].Valid() && kb[t].readPending
  }

  ghost function Lines(kb: seq<Keyboard>, flag: RecallFlag): (lines: seq<Line>)
    requires Desk(kb, flag)
    reads kb, Buffers(kb), flag
    ensures LinesOk(lines)
    ensures forall t: Terminal :: lines[t] == kb[t].Edited()
  {
    [kb[0].Edited(), kb[1].Edited(), kb[2].Edited()]
  }

  /** left_arrow reports its move. */
  predicate Reports(lines: seq<Line>, e: Event)
    requires LinesOk(lines)
  {
    e.Pressed? ==> Reported(lines[e.terminal], e.key, e.moved)
  }

  predicate AllReport(lines: seq<Line>, events: seq<Event>)
    requires LinesOk(lines) && EventsOk(events)
    decreases |events|
  {
    events != [] ==> Reports(lines, events[0]) && AllReport(Step(lines, events[0]), events[1..])
  }

  /** An event at one keyboard. */
  method Use(k: Keyboard, e: Event)
    requires k.Valid() && k.readPending && EventOk(e)
    requires e.Pressed? ==> Reported(k.Edited(), e.key, e.moved)
    modifies k, k.flag, k.buffer, k.lastBuf, k.currentBuf
    ensures k.Valid() == true
    ensures k.readPending && k.Edited() == After(old(k.Edited()), e)
  {
    match e {
      case Pressed(_, key, moved) =>
        k.PressKey(key, moved);
      case Enter(_) =>
        k.Finish();
        assert |k.Edited().text| == 0;
        k.BeginRead();
    }
  }

  /** Only the buffers of the terminal used and the common flag change. */
  method Touch(kb: seq<Keyboard>, flag: RecallFlag, e: Event)
    requires Desk(kb, flag) && EventOk(e) && Reports(Lines(kb, flag), e)
    modifies flag, kb[e.terminal], kb[e.terminal].buffer, kb[e.terminal].lastBuf, kb[e.terminal].currentBuf
    ensures Desk(kb, flag) == true
    ensures kb[e.terminal].Edited() == After(old(kb[e.terminal].Edited()), e)
    ensures forall u: Terminal :: u != e.terminal ==>
      kb[u].Edited() == old(kb[u].Edited()).(recalled := !flag.notInPrevCmd)
  {
    hide LineOk, LinesOk, After, EditedLine.Reported, Keyboard.Edited;
    Use(kb[e.terminal], e);
    forall u: Terminal | u != e.terminal
      ensures kb[u].Valid() && kb[u].readPending
      ensures kb[u].Edited() == old(kb[u].Edited()).(recalled := !flag.notInPrevCmd)
    {
      kb[u].KeptButFlag();
    }
  }

  /** One event is the step of the run with a common flag. */
  method Act(kb: seq<Keyboard>, flag: RecallFlag, e: Event)
    requires Desk(kb, flag) && EventOk(e) && Reports(Lines(kb, flag), e)
    modifies flag, kb[e.terminal], kb[e.terminal].buffer, kb[e.terminal].lastBuf, kb[e.terminal].currentBuf
    ensures Desk(kb, flag) == true
    ensures Lines(kb, flag) == Step(old(Lines(kb, flag)), e)
  {
    hide LineOk, LinesOk, After, Step, Apart, Keyboard.Valid;
    ghost var before := Lines(kb, flag);
    Touch(kb, flag, e);
    StepIs(before, e, Lines(kb, flag));
  }

  /** Every run of keys at the three terminals leaves in memory the lines that run makes. */
  method ActAll(kb: seq<Keyboard>, flag: RecallFlag, events: seq<Event>)
    requires Desk(kb, flag) && EventsOk(events) && AllReport(Lines(kb, flag), events)
    modifies flag, kb, Buffers(kb)
    ensures Desk(kb, flag) == true
    ensures Lines(kb, flag) == Run(old(Lines(kb, flag)), events)
  {
    hide LinesOk, Step, Reports, Apart, Keyboard.Valid;
    var i := 0;
    ghost var end := Run(Lines(kb, flag), events);
    assert events[0..] == events;
    while i < |events|
      invariant 0 <= i <= |events|
      invariant Desk(kb, flag) == true
      invariant AllReport(Lines(kb, flag), events[i..])
      invariant Run(Lines(kb, flag), events[i..]) == end
    {
      assert events[i..][1..] == events[i + 1..];
      Act(kb, flag, events[i]);
      i := i + 1;
    }
  }
}
