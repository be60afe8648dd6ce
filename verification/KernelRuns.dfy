/** Whole interleaved runs of the process machine: system calls, interrupts and terminal switches in
    any order. Every theorem here transfers to the kernel itself through Perform. */
module KernelRuns {
  import opened Common
  import opened FileSystem
  import opened Commands
  import M = CallStacks
  import opened CallStacks
  import opened Processes

  /** A frame is the kernel context in which the event found the CPU. A blocking RTC read is two
      events, its start and its end. */
  datatype Event =
    | ExecuteCall(command: seq<byte>, frame: Frame)
    | HaltCall(status: int)
    | Pit(frame: Frame)
    | Rtc
    | Switch(terminal: int)
    | OpenCall(name: seq<byte>)
    | CloseCall(fd: int)
    | ReadFileCall(fd: int, nbytes: int)
    | WriteRtcCall(frequency: int, nbytes: int)
    | BeginRtcRead
    | EndRtcRead
    | VidmapCall

  predicate IsInterrupt(e: Event) {
    e.Pit? || e.Rtc? || e.Switch?
  }

  /** A file system whose "shell" can be started. */
  predicate Bootable(img: Image) {
    ValidImage(img) && IsExecutable(img, SHELL)
  }

  /** A call other than execute needs a process at the head of the running terminal, and an RTC read
      ends only once its counter has run out. */
  predicate Enabled(m: Machine, e: Event)
    requires WellFormed(m)
  {
    && (IsInterrupt(e) || e.ExecuteCall? || CanCall(m))
    && (e.EndRtcRead? ==> Head(m, m.running).counter == 0)
  }

  function Step(m: Machine, img: Image, e: Event): (r: (Machine, Effect))
    requires WellFormed(m) && ValidImage(img) && Enabled(m, e)
    ensures WellFormed(r.0)
  {
    match e
    case ExecuteCall(command, frame) => Execute(m, img, command, frame)
    case HaltCall(status) => Halt(m, img, status)
    case Pit(frame) => PitTick(m, img, frame)
    case Rtc => (RtcTick(m), Back(0))
    case Switch(terminal) => (M.SwitchTerminal(m, terminal), Back(0))
    case OpenCall(name) => var (n, r) := Open(m, img, name); (n, Back(r))
    case CloseCall(fd) => var (n, r) := Close(m, fd); (n, Back(r))
    case ReadFileCall(fd, nbytes) => var (n, r) := ReadFile(m, img, fd, nbytes); (n, Back(r))
    case WriteRtcCall(frequency, nbytes) => var (n, r) := WriteRtc(m, frequency, nbytes); (n, Back(r))
    case BeginRtcRead => (ReloadCounter(m), Back(0))
    case EndRtcRead => (ReloadCounter(m), Back(0))
    case VidmapCall => (Vidmap(m), Back(0))
  }

  function After(m: Machine, img: Image, e: Event): Machine
    requires WellFormed(m) && ValidImage(img) && Enabled(m, e)
  {
    Step(m, img, e).0
  }

  predicate Legal(m: Machine, img: Image, es: seq<Event>)
    requires WellFormed(m) && ValidImage(img)
    decreases |es|
  {
    es == [] || (Enabled(m, es[0]) && Legal(After(m, img, es[0]), img, es[1..]))
  }

  function Final(m: Machine, img: Image, es: seq<Event>): (r: Machine)
    requires WellFormed(m) && ValidImage(img) && Legal(m, img, es)
    ensures WellFormed(r)
    decreases |es|
  {
    if es == [] then m else Final(After(m, img, es[0]), img, es[1..])
  }

  // ---------------------------------------------------------------- stack discipline

  function Depth(m: Machine, t: Terminal): nat
    requires WellFormed(m)
  {
    |m.stacks[t]|
  }

  /** The lowest `d` levels of terminal `t` are the same in both machines: the same slots holding
      the same processes, down to files, arguments, RTC fields and saved frames. */
  predicate SameBelow(m: Machine, n: Machine, t: Terminal, d: nat)
    requires WellFormed(m) && WellFormed(n)
  {
    && d <= Depth(m, t) && d <= Depth(n, t)
    && forall i :: 0 <= i < d ==>
         m.stacks[t][i] == n.stacks[t][i] && m.table[m.stacks[t][i]] == n.table[m.stacks[t][i]]
  }

  /** Replacing the head of any terminal touches nothing below a head. */
  lemma WithHeadKeeps(m: Machine, u: Terminal, p: Process, t: Terminal, d: nat)
    requires WellFormed(m) && m.stacks[u] != [] && d < Depth(m, t)
    requires ProcessOk(p) && p.terminal == u && p.depth == |m.stacks[u]| - 1
    ensures SameBelow(m, WithHead(m, u, p), t, d)
  {
    forall i: nat | i < d ensures m.stacks[t][i] != TopSlot(m, u) {
      assert StandsAt(m, m.stacks[t][i], t, i);
      assert StandsAt(m, TopSlot(m, u), u, |m.stacks[u]| - 1);
    }
  }

  lemma PushKeeps(m: Machine, s: Slot, p: Process, t: Terminal, d: nat)
    requires WellFormed(m) && m.table[s].None? && ProcessOk(p) && p.depth == |m.stacks[p.terminal]|
    requires d <= Depth(m, t)
    ensures SameBelow(m, Push(m, s, p), t, d)
  {
    forall i: nat | i < d ensures m.stacks[t][i] != s {
      assert StandsAt(m, m.stacks[t][i], t, i);
    }
  }

  lemma PopKeeps(m: Machine, u: Terminal, t: Terminal, d: nat)
    requires WellFormed(m) && m.stacks[u] != [] && d < Depth(m, t)
    ensures SameBelow(m, Pop(m, u), t, d)
  {
    forall i: nat | i < d ensures m.stacks[t][i] != TopSlot(m, u) {
      assert StandsAt(m, m.stacks[t][i], t, i);
      assert StandsAt(m, TopSlot(m, u), u, |m.stacks[u]| - 1);
    }
  }

  lemma SaveKeeps(m: Machine, u: Terminal, frame: Frame, t: Terminal, d: nat)
    requires WellFormed(m) && d <= Depth(m, t)
    requires d < Depth(m, t) || d == 0
    ensures SameBelow(m, SaveFrame(m, u, frame), t, d)
    ensures SaveFrame(m, u, frame).stacks == m.stacks
  {
    if m.stacks[u] != [] && d < Depth(m, t) {
      WithHeadKeeps(m, u, Head(m, u).(frame := Some(frame)), t, d);
    }
  }

  lemma SaveFillsNothing(m: Machine, t: Terminal, frame: Frame)
    requires WellFormed(m)
    ensures forall s: Slot :: SaveFrame(m, t, frame).table[s].None? <==> m.table[s].None?
    ensures SaveFrame(m, t, frame).stacks == m.stacks
  {
    if m.stacks[t] != [] {
      var h := Head(m, t);
    }
  }

  lemma SpawnAllOrNothing(m: Machine, t: Terminal, img: Image, name: seq<byte>, arguments: seq<byte>)
    requires WellFormed(m) && ValidImage(img)
    ensures var r := Spawn(m, t, img, name, arguments);
      && (r.1.Enter? <==> IsExecutable(img, name) && exists s: Slot :: m.table[s].None?)
      && (!r.1.Enter? ==> r == (m, Back(-1)))
  {
    var free := FreeSlot(m.table, 0);
    if free.Some? {
      assert m.table[free.value].None?;
    }
  }

  lemma SpawnKeeps(m: Machine, u: Terminal, img: Image, name: seq<byte>, arguments: seq<byte>, t: Terminal, d: nat)
    requires WellFormed(m) && ValidImage(img) && d <= Depth(m, t)
    ensures SameBelow(m, Spawn(m, u, img, name, arguments).0, t, d)
    ensures Depth(Spawn(m, u, img, name, arguments).0, t)
      == Depth(m, t) + if u == t && Spawn(m, u, img, name, arguments).1.Enter? then 1 else 0
  {
    var free := FreeSlot(m.table, 0);
    if IsExecutable(img, name) && free.Some? {
      var entry := EntryPoint(ProgramFile(img, name));
      PushKeeps(m.(loaded := free), free.value, Newborn(u, |m.stacks[u]|, arguments, entry), t, d);
    }
  }

  lemma ExecuteKeeps(m: Machine, img: Image, command: seq<byte>, frame: Frame, t: Terminal, d: nat)
    requires WellFormed(m) && ValidImage(img)
    requires d < Depth(m, t) || d == 0
    ensures SameBelow(m, Execute(m, img, command, frame).0, t, d)
    ensures Depth(Execute(m, img, command, frame).0, t) >= Depth(m, t)
  {
    match Parse(command)
    case Unparsable =>
    case Program(name, arguments) =>
      SaveKeeps(m, Target(m), frame, t, d);
      SpawnKeeps(SaveFrame(m, Target(m), frame), Target(m), img, name, arguments, t, d);
  }

  lemma RtcKeeps(m: Machine, t: Terminal, d: nat)
    requires WellFormed(m) && d < Depth(m, t)
    ensures SameBelow(m, RtcTick(m), t, d)
  {
    var m1 := CountDown(m, 0);
    var m2 := CountDown(m1, 1);
    CountDownKeeps(m, 0, t, d);
    CountDownKeeps(m1, 1, t, d);
    CountDownKeeps(m2, 2, t, d);
  }

  lemma CountDownKeeps(m: Machine, u: Terminal, t: Terminal, d: nat)
    requires WellFormed(m) && d < Depth(m, t)
    ensures SameBelow(m, CountDown(m, u), t, d) && CountDown(m, u).stacks == m.stacks
  {
    if m.stacks[u] != [] && Head(m, u).counter > 0 {
      WithHeadKeeps(m, u, Head(m, u).(counter := Head(m, u).counter - 1), t, d);
    }
  }

  /** A call of the running process other than execute and halt rewrites its head at most. */
  lemma CallRewritesHead(m: Machine, img: Image, e: Event)
    requires WellFormed(m) && ValidImage(img) && Enabled(m, e)
    requires !IsInterrupt(e) && !e.ExecuteCall? && !e.HaltCall?
    ensures var n := After(m, img, e);
      && n.stacks == m.stacks && n.running == m.running && n.visible == m.visible && n.loaded == m.loaded
      && (forall s: Slot :: s != TopSlot(m, m.running) ==> n.table[s] == m.table[s])
      && Head(n, m.running).frame == Head(m, m.running).frame
      && (n.videoPage == m.videoPage || e.VidmapCall?)
  {
    hide StandsAt;
  }

  lemma RotateKeeps(m: Machine, frame: Frame, t: Terminal, d: nat)
    requires WellFormed(m) && (d < Depth(m, t) || d == 0)
    ensures SameBelow(m, Rotate(m, frame), t, d) && Rotate(m, frame).stacks == m.stacks
    ensures forall s: Slot :: Rotate(m, frame).table[s].None? <==> m.table[s].None?
  {
    SaveKeeps(m, m.running, frame, t, d);
    SaveFillsNothing(m, m.running, frame);
  }

  lemma PitKeeps(m: Machine, img: Image, frame: Frame, t: Terminal, d: nat)
    requires WellFormed(m) && ValidImage(img) && (d < Depth(m, t) || d == 0)
    ensures SameBelow(m, PitTick(m, img, frame).0, t, d)
    ensures Depth(PitTick(m, img, frame).0, t) >= Depth(m, t)
  {
    RotateKeeps(m, frame, t, d);
    var r := Rotate(m, frame);
    if r.stacks[r.running] == [] {
      SpawnKeeps(r, r.running, img, SHELL, [], t, d);
    }
  }

  /** Only a halt of its own process can make a terminal less deep, and by one level; halting a base
      program leaves the depth at one. */
  lemma HaltKeeps(m: Machine, img: Image, status: int, t: Terminal, d: nat)
    requires WellFormed(m) && Bootable(img) && CanCall(m) && d < Depth(m, t)
    ensures SameBelow(m, Halt(m, img, status).0, t, d)
    ensures Depth(Halt(m, img, status).0, t) ==
      if t == m.running && Depth(m, t) > 1 then Depth(m, t) - 1 else Depth(m, t)
  {
    PopKeeps(m, m.running, t, d);
    var top := TopSlot(m, m.running);
    var popped := Retired(m);
    if popped.stacks[m.running] == [] {
      assert popped.table[top].None?;
      SpawnAllOrNothing(popped, m.running, img, SHELL, []);
      SpawnKeeps(popped, m.running, img, SHELL, [], t, d);
    }
  }

  lemma CallKeeps(m: Machine, img: Image, e: Event, t: Terminal, d: nat)
    requires WellFormed(m) && ValidImage(img) && Enabled(m, e) && d < Depth(m, t)
    requires !IsInterrupt(e) && !e.ExecuteCall? && !e.HaltCall?
    ensures SameBelow(m, After(m, img, e), t, d) && Depth(After(m, img, e), t) == Depth(m, t)
  {
    hide Step;
    CallRewritesHead(m, img, e);
    forall i: nat | i < d ensures m.stacks[t][i] != TopSlot(m, m.running) {
      assert StandsAt(m, m.stacks[t][i], t, i);
      assert StandsAt(m, TopSlot(m, m.running), m.running, |m.stacks[m.running]| - 1);
    }
  }

  /** One step, whoever takes it, leaves everything below the head of `t` as it is. */
  lemma StepKeeps(m: Machine, img: Image, e: Event, t: Terminal, d: nat)
    requires WellFormed(m) && Bootable(img) && Enabled(m, e) && d < Depth(m, t)
    ensures SameBelow(m, After(m, img, e), t, d)
    ensures !(e.HaltCall? && t == m.running) ==> Depth(After(m, img, e), t) >= Depth(m, t)
  {
    hide Run, Spawn;
    match e
    case ExecuteCall(command, frame) => ExecuteKeeps(m, img, command, frame, t, d);
    case HaltCall(status) => HaltKeeps(m, img, status, t, d);
    case Pit(frame) => PitKeeps(m, img, frame, t, d);
    case Rtc => RtcKeeps(m, t, d);
    case Switch(_) =>
    case _ => CallKeeps(m, img, e, t, d);
  }

  /** Throughout the run, before each event, terminal `t` is deeper than `d`. */
  predicate StaysAbove(m: Machine, img: Image, es: seq<Event>, t: Terminal, d: nat)
    requires WellFormed(m) && ValidImage(img) && Legal(m, img, es)
    decreases |es|
  {
    Depth(m, t) > d && (es == [] || StaysAbove(After(m, img, es[0]), img, es[1..], t, d))
  }

  /** However long a child and its own children run, and whatever other terminals do, the levels
      below them are frozen. */
  lemma {:induction false} RunKeeps(m: Machine, img: Image, es: seq<Event>, t: Terminal, d: nat)
    requires WellFormed(m) && Bootable(img) && Legal(m, img, es) && StaysAbove(m, img, es, t, d)
    ensures SameBelow(m, Final(m, img, es), t, d)
    ensures Depth(Final(m, img, es), t) > d
    decreases |es|
  {
    if es != [] {
      StepKeeps(m, img, es[0], t, d);
      RunKeeps(After(m, img, es[0]), img, es[1..], t, d);
    }
  }

  /** A level disappears in one way only: its process halts, and the level below is resumed. */
  lemma OnlyHaltReturns(m: Machine, img: Image, e: Event, t: Terminal, d: nat)
    requires WellFormed(m) && Bootable(img) && Enabled(m, e)
    requires d > 0 && Depth(m, t) > d && Depth(After(m, img, e), t) == d
    ensures e.HaltCall? && m.running == t && Depth(m, t) == d + 1
    ensures Step(m, img, e).1 == Resume(m.table[m.stacks[t][d - 1]].value.frame, e.status)
    ensures After(m, img, e).loaded == Some(m.stacks[t][d - 1])
  {
    assert StandsAt(m, m.stacks[t][d - 1], t, d - 1);
    StepKeeps(m, img, e, t, d);
    assert e.HaltCall? && m.running == t;
    HaltKeeps(m, img, e.status, t, d);
    PopKeeps(m, t, t, d);
  }

  /** A started program stands directly above its caller, whose frame has been saved. */
  lemma StartKeeps(m: Machine, img: Image, command: seq<byte>, frame: Frame)
    requires WellFormed(m) && ValidImage(img)
    requires Execute(m, img, command, frame).1.Enter?
    ensures var t := Target(m); var n := Execute(m, img, command, frame).0;
      SameBelow(SaveFrame(m, t, frame), n, t, Depth(m, t)) && Depth(n, t) == Depth(m, t) + 1
  {
    SaveKeeps(m, Target(m), frame, Target(m), 0);
    var p := Parse(command);
    SpawnKeeps(SaveFrame(m, Target(m), frame), Target(m), img, p.name, p.arguments, Target(m), Depth(m, Target(m)));
  }

  /** The whole life of a child. A process of terminal `t` starts a program from kernel context
      `frame`; anything at all happens while the terminal stays deeper; then the terminal is back at
      the old depth. The last event was the child's halt, it resumes exactly `frame` with the
      child's status, and the parent and everything below it are as they were when it called. */
  lemma {:induction false} MatchingHalt(m: Machine, img: Image, command: seq<byte>, frame: Frame, es: seq<Event>,
                                        last: Event)
    requires WellFormed(m) && Bootable(img)
    requires Execute(m, img, command, frame).1.Enter?
    requires Depth(m, Target(m)) > 0
    requires var n := Execute(m, img, command, frame).0;
      && Legal(n, img, es) && StaysAbove(n, img, es, Target(m), Depth(m, Target(m)))
      && Enabled(Final(n, img, es), last)
      && Depth(After(Final(n, img, es), img, last), Target(m)) == Depth(m, Target(m))
    ensures var t := Target(m);
      var before := Final(Execute(m, img, command, frame).0, img, es);
      var end := After(before, img, last);
      && last.HaltCall? && before.running == t
      && Step(before, img, last).1 == Resume(Some(frame), last.status)
      && SameBelow(SaveFrame(m, t, frame), end, t, Depth(m, t))
  {
    var t, d := Target(m), Depth(m, Target(m));
    var saved := SaveFrame(m, t, frame);
    var n := Execute(m, img, command, frame).0;
    StartKeeps(m, img, command, frame);
    RunKeeps(n, img, es, t, d);
    var before := Final(n, img, es);
    OnlyHaltReturns(before, img, last, t, d);
    StepKeeps(before, img, last, t, d);
    HeadReplaced(m, t, Head(m, t).(frame := Some(frame)));
  }

  lemma PopUndoesPush(m: Machine, slot: Slot, p: Process)
    requires WellFormed(m) && m.table[slot].None? && ProcessOk(p) && p.depth == |m.stacks[p.terminal]|
    ensures Pop(Push(m, slot, p), p.terminal) == m
  {
    var stack := m.stacks[p.terminal];
    assert (stack + [slot])[..|stack|] == stack;
    assert m.stacks[p.terminal := stack + [slot]][p.terminal := stack] == m.stacks;
    assert m.table[slot := Some(p)][slot := None] == m.table;
  }

  /** A successful execute pushes the child on the caller's stack, whose head's frame has been saved. */
  lemma ExecutePushes(m: Machine, img: Image, command: seq<byte>, frame: Frame) returns (slot: Slot, child: Process)
    requires CanCall(m) && ValidImage(img) && Target(m) == m.running
    requires Execute(m, img, command, frame).1.Enter?
    ensures var saved := SaveFrame(m, m.running, frame).(loaded := Some(slot));
      && WellFormed(saved) && saved.table[slot].None?
      && ProcessOk(child) && child.terminal == m.running && child.depth == |saved.stacks[m.running]|
      && Execute(m, img, command, frame).0 == Push(saved, slot, child)
  {
    hide StandsAt;
    var saved := SaveFrame(m, m.running, frame);
    slot := FreeSlot(saved.table, 0).value;
    var p := Parse(command);
    child := Newborn(m.running, |saved.stacks[m.running]|, p.arguments, EntryPoint(ProgramFile(img, p.name)));
    SameStacks(saved, saved.(loaded := Some(slot)));
  }

  lemma SameStacks(m: Machine, n: Machine)
    requires WellFormed(m) && n.stacks == m.stacks && n.table == m.table
    ensures WellFormed(n)
  {
  }

  /** A halt of the process just pushed uncovers the one below. */
  lemma HaltAfterPush(m: Machine, img: Image, slot: Slot, child: Process, status: int)
    requires CanCall(m) && ValidImage(img) && m.table[slot].None?
    requires ProcessOk(child) && child.terminal == m.running && child.depth == |m.stacks[m.running]|
    ensures var n := Push(m, slot, child);
      && n.running == m.running && n.stacks[m.running] != []
      && Halt(n, img, status) == (m.(loaded := Some(TopSlot(m, m.running)), videoPage := Some(Screen)),
                                  Resume(Head(m, m.running).frame, status))
  {
    PopUndoesPush(m, slot, child);
  }

  /** A halt right after an execute undoes it: the kernel is as it was with the caller's frame saved and
      resumed, its page loaded, and the video page on the screen. */
  lemma HaltUndoesExecute(m: Machine, img: Image, command: seq<byte>, frame: Frame, status: int)
    requires CanCall(m) && ValidImage(img) && Target(m) == m.running
    requires Execute(m, img, command, frame).1.Enter?
    ensures var n := Execute(m, img, command, frame).0;
      && n.running == m.running && n.stacks[m.running] != []
      && Halt(n, img, status)
         == (SaveFrame(m, m.running, frame).(loaded := Some(TopSlot(m, m.running)), videoPage := Some(Screen)),
             Resume(Some(frame), status))
  {
    HeadReplaced(m, m.running, Head(m, m.running).(frame := Some(frame)));
    hide Execute, Halt, Push, StandsAt, ProcessOk;
    var slot, child := ExecutePushes(m, img, command, frame);
    HaltAfterPush(SaveFrame(m, m.running, frame).(loaded := Some(slot)), img, slot, child, status);
  }

  // ---------------------------------------------------------------- execute is all or nothing

  /** When an execute call succeeds, and that a failing one leaves stacks, slots, the loaded page and
      the video page alone: all it can have changed is the saved frame of the target's head. */
  lemma ExecuteAllOrNothing(m: Machine, img: Image, command: seq<byte>, frame: Frame)
    requires WellFormed(m) && ValidImage(img)
    ensures var p := Parse(command);
      Execute(m, img, command, frame).1.Enter? <==>
        p.Program? && IsExecutable(img, p.name) && exists s: Slot :: m.table[s].None?
    ensures !Execute(m, img, command, frame).1.Enter? ==>
      && Execute(m, img, command, frame).1 == Back(-1)
      && (Execute(m, img, command, frame).0 == m
          || Execute(m, img, command, frame).0 == SaveFrame(m, Target(m), frame))
  {
    SaveFillsNothing(m, Target(m), frame);
    var p := Parse(command);
    if p.Program? {
      SpawnAllOrNothing(SaveFrame(m, Target(m), frame), Target(m), img, p.name, p.arguments);
    }
  }

  // ---------------------------------------------------------------- no terminal dies

  /** A terminal that has a process has one after every step: a base program's halt has just freed
      the slot its new shell needs. */
  lemma StepKeepsAlive(m: Machine, img: Image, e: Event, t: Terminal)
    requires WellFormed(m) && Bootable(img) && Enabled(m, e) && Depth(m, t) > 0
    ensures Depth(After(m, img, e), t) > 0
  {
    StepKeeps(m, img, e, t, 0);
    if e.HaltCall? {
      HaltKeeps(m, img, e.status, t, 0);
    }
  }

  lemma {:induction false} RunKeepsAlive(m: Machine, img: Image, es: seq<Event>, t: Terminal)
    requires WellFormed(m) && Bootable(img) && Legal(m, img, es) && Depth(m, t) > 0
    ensures Depth(Final(m, img, es), t) > 0
    decreases |es|
  {
    if es != [] {
      StepKeepsAlive(m, img, es[0], t);
      RunKeepsAlive(After(m, img, es[0]), img, es[1..], t);
    }
  }

  /** The scheduler fails to start a terminal's first shell exactly when all slots are taken. */
  lemma {:induction false} PitFailsIff(m: Machine, img: Image, frame: Frame)
    requires WellFormed(m) && Bootable(img)
    ensures PitTick(m, img, frame).1.Back? <==>
      Depth(m, (m.running + 1) % 3) == 0 && forall s: Slot :: m.table[s].Some?
  {
    hide Rotate, Spawn, StandsAt, ProcessOk;
    var r := Rotate(m, frame);
    RotateKeeps(m, frame, 0, 0);
    RotateMoves(m, frame);
    if r.stacks[r.running] == [] {
      SpawnAllOrNothing(r, r.running, img, SHELL, []);
    }
  }

  lemma RotateMoves(m: Machine, frame: Frame)
    requires WellFormed(m)
    ensures Rotate(m, frame).running == (m.running + 1) % 3
  {
  }

  // ---------------------------------------------------------------- foreground runs

  /** Execute is called by the process of the visible terminal. (The scheduler and a halting base
      program start shells where the running terminal is empty.) */
  predicate Foreground(m: Machine, e: Event) {
    |m.stacks| == NUM_TERMINALS && (e.ExecuteCall? ==> m.stacks[m.running] == [] || m.running == m.visible)
  }

  /** The mapped page and the kernel stack belong to the running terminal's head. */
  predicate Loaded(m: Machine)
    requires WellFormed(m)
  {
    m.stacks[m.running] != [] ==> m.loaded == Some(TopSlot(m, m.running))
  }

  /** Every process but the one on the CPU has a saved frame. */
  predicate FramesSaved(m: Machine)
    requires WellFormed(m)
  {
    forall s: Slot :: m.table[s].Some? ==>
      var p := m.table[s].value;
      p.frame.Some? || (p.terminal == m.running && p.depth == Depth(m, m.running) - 1)
  }

  predicate Settled(m: Machine)
    requires WellFormed(m)
  {
    Loaded(m) && FramesSaved(m)
  }

  lemma SaveSettles(m: Machine, frame: Frame)
    requires WellFormed(m) && Settled(m)
    ensures Settled(SaveFrame(m, m.running, frame))
    ensures forall s: Slot :: SaveFrame(m, m.running, frame).table[s].Some? ==>
      SaveFrame(m, m.running, frame).table[s].value.frame.Some?
  {
    if m.stacks[m.running] != [] {
      var h := Head(m, m.running);
    }
  }

  lemma PushSettles(m: Machine, slot: Slot, p: Process)
    requires WellFormed(m) && m.table[slot].None?
    requires ProcessOk(p) && p.terminal == m.running && p.depth == |m.stacks[p.terminal]|
    requires forall s: Slot :: m.table[s].Some? ==> m.table[s].value.frame.Some?
    requires m.loaded == Some(slot)
    ensures Settled(Push(m, slot, p))
  {
  }

  lemma SpawnSettles(m: Machine, img: Image, name: seq<byte>, arguments: seq<byte>)
    requires WellFormed(m) && ValidImage(img)
    requires m.stacks[m.running] == [] || Loaded(m)
    requires forall s: Slot :: m.table[s].Some? ==> m.table[s].value.frame.Some?
    ensures Settled(Spawn(m, m.running, img, name, arguments).0)
  {
    var free := FreeSlot(m.table, 0);
    if IsExecutable(img, name) && free.Some? {
      var entry := EntryPoint(ProgramFile(img, name));
      PushSettles(m.(loaded := free), free.value, Newborn(m.running, |m.stacks[m.running]|, arguments, entry));
    }
  }

  lemma ExecuteSettles(m: Machine, img: Image, command: seq<byte>, frame: Frame)
    requires WellFormed(m) && ValidImage(img) && Settled(m) && Target(m) == m.running
    ensures Settled(Execute(m, img, command, frame).0)
  {
    SaveSettles(m, frame);
    var p := Parse(command);
    if p.Program? {
      SpawnSettles(SaveFrame(m, m.running, frame), img, p.name, p.arguments);
    }
  }

  lemma HaltSettles(m: Machine, img: Image, status: int)
    requires WellFormed(m) && ValidImage(img) && CanCall(m) && Settled(m)
    ensures Settled(Halt(m, img, status).0)
    ensures var r := Halt(m, img, status).1; r.Resume? ==> r.frame.Some?
  {
    var t := m.running;
    var popped := Pop(m, t).(videoPage := Some(Screen));
    if popped.stacks[t] == [] {
      SpawnSettles(popped, img, SHELL, []);
    } else {
      var parent := Head(popped, t);
    }
  }

  lemma PitSettles(m: Machine, img: Image, frame: Frame)
    requires WellFormed(m) && ValidImage(img) && Settled(m)
    ensures Settled(PitTick(m, img, frame).0)
    ensures var r := PitTick(m, img, frame).1; r.Resume? ==> r.frame.Some?
  {
    SaveSettles(m, frame);
    var r := Rotate(m, frame);
    if r.stacks[r.running] == [] {
      SpawnSettles(r, img, SHELL, []);
    } else {
      var entering := Head(r, r.running);
    }
  }

  lemma RtcSettles(m: Machine)
    requires WellFormed(m) && Settled(m)
    ensures Settled(RtcTick(m))
  {
    CountDownSettles(m, 0);
    CountDownSettles(CountDown(m, 0), 1);
    CountDownSettles(CountDown(CountDown(m, 0), 1), 2);
  }

  lemma CountDownSettles(m: Machine, t: Terminal)
    requires WellFormed(m) && Settled(m)
    ensures Settled(CountDown(m, t))
  {
    if m.stacks[t] != [] {
      var h := Head(m, t);
    }
  }

  /** In foreground runs every step leaves the right page and kernel stack loaded and every suspended
      process with the frame it will continue from; whatever is resumed has been saved before. */
  lemma CallSettles(m: Machine, img: Image, e: Event)
    requires WellFormed(m) && ValidImage(img) && Enabled(m, e) && Settled(m)
    requires !IsInterrupt(e) && !e.ExecuteCall? && !e.HaltCall?
    ensures Settled(After(m, img, e)) && !Step(m, img, e).1.Resume?
  {
    CallRewritesHead(m, img, e);
  }

  lemma {:induction false} StepSettles(m: Machine, img: Image, e: Event)
    requires WellFormed(m) && ValidImage(img) && Enabled(m, e) && Foreground(m, e) && Settled(m)
    ensures Settled(After(m, img, e))
    ensures Step(m, img, e).1.Resume? ==> Step(m, img, e).1.frame.Some?
  {
    hide StandsAt;
    match e
    case ExecuteCall(command, frame) => ExecuteSettles(m, img, command, frame);
    case HaltCall(status) => HaltSettles(m, img, status);
    case Pit(frame) => PitSettles(m, img, frame);
    case Rtc => RtcSettles(m);
    case Switch(_) =>
    case _ => CallSettles(m, img, e);
  }

  predicate ForegroundRun(m: Machine, img: Image, es: seq<Event>)
    requires WellFormed(m) && ValidImage(img) && Legal(m, img, es)
    decreases |es|
  {
    es == [] || (Foreground(m, es[0]) && ForegroundRun(After(m, img, es[0]), img, es[1..]))
  }

  lemma {:induction false} RunSettles(m: Machine, img: Image, es: seq<Event>)
    requires WellFormed(m) && ValidImage(img) && Legal(m, img, es) && ForegroundRun(m, img, es) && Settled(m)
    ensures Settled(Final(m, img, es))
    decreases |es|
  {
    if es != [] {
      StepSettles(m, img, es[0]);
      RunSettles(After(m, img, es[0]), img, es[1..]);
    }
  }

  /** The foreground condition is needed: a successful execute call leaves the running terminal's own
      process loaded exactly when it targets the running terminal. */
  lemma ExecuteLoadsIff(m: Machine, img: Image, command: seq<byte>, frame: Frame)
    requires WellFormed(m) && ValidImage(img) && Execute(m, img, command, frame).1.Enter?
    ensures Loaded(Execute(m, img, command, frame).0) <==> Target(m) == m.running
  {
    var n := Execute(m, img, command, frame).0;
    StartKeeps(m, img, command, frame);
    if Target(m) != m.running {
      ExecuteKeeps(m, img, command, frame, m.running, 0);
      assert StandsAt(n, TopSlot(n, m.running), m.running, Depth(n, m.running) - 1);
      assert StandsAt(n, TopSlot(n, Target(m)), Target(m), Depth(n, Target(m)) - 1);
    }
  }

  // ---------------------------------------------------------------- the virtual RTC

  /** No call is made on behalf of terminal `t`: its process waits, while others do as they like in
      the foreground. */
  predicate Idle(m: Machine, e: Event, t: Terminal) {
    Foreground(m, e) && (IsInterrupt(e) || m.running != t)
  }

  predicate IdleRun(m: Machine, img: Image, es: seq<Event>, t: Terminal)
    requires WellFormed(m) && ValidImage(img) && Legal(m, img, es)
    decreases |es|
  {
    es == [] || (Idle(m, es[0], t) && IdleRun(After(m, img, es[0]), img, es[1..], t))
  }

  function RtcTicks(es: seq<Event>): nat {
    if es == [] then 0 else (if es[0].Rtc? then 1 else 0) + RtcTicks(es[1..])
  }

  function PitTicks(es: seq<Event>): nat {
    if es == [] then 0 else (if es[0].Pit? then 1 else 0) + PitTicks(es[1..])
  }

  /** `n` is `m` after the waiting head of `t` has counted down `k` ticks; its saved frame may differ. */
  predicate Waited(m: Machine, n: Machine, t: Terminal, k: nat)
    requires WellFormed(m) && WellFormed(n) && m.stacks[t] != []
  {
    && n.stacks[t] == m.stacks[t]
    && Head(n, t) == Head(m, t).(counter := Max(0, Head(m, t).counter - k), frame := Head(n, t).frame)
  }

  lemma WaitedNone(m: Machine, t: Terminal)
    requires WellFormed(m) && m.stacks[t] != []
    ensures Waited(m, m, t, 0)
  {
  }

  lemma WaitedOn(m: Machine, n: Machine, r: Machine, t: Terminal, a: nat, b: nat)
    requires WellFormed(m) && WellFormed(n) && WellFormed(r) && m.stacks[t] != []
    requires Waited(m, n, t, a) && Waited(n, r, t, b)
    ensures Waited(m, r, t, a + b)
  {
    hide StandsAt, ProcessOk;
  }

  lemma OtherHeadKept(m: Machine, u: Terminal, p: Process, t: Terminal)
    requires WellFormed(m) && m.stacks[u] != [] && m.stacks[t] != [] && u != t
    requires ProcessOk(p) && p.terminal == u && p.depth == |m.stacks[u]| - 1
    ensures Head(WithHead(m, u, p), t) == Head(m, t)
  {
    assert StandsAt(m, TopSlot(m, t), t, |m.stacks[t]| - 1);
    assert StandsAt(m, TopSlot(m, u), u, |m.stacks[u]| - 1);
  }

  lemma SaveWaits(m: Machine, u: Terminal, frame: Frame, t: Terminal)
    requires WellFormed(m) && m.stacks[t] != []
    ensures Waited(m, SaveFrame(m, u, frame), t, 0)
    ensures u != t ==> Head(SaveFrame(m, u, frame), t) == Head(m, t)
  {
    SaveFillsNothing(m, u, frame);
    if u == t {
      HeadReplaced(m, t, Head(m, t).(frame := Some(frame)));
    } else if m.stacks[u] != [] {
      OtherHeadKept(m, u, Head(m, u).(frame := Some(frame)), t);
    }
  }

  lemma SpawnWaits(m: Machine, u: Terminal, img: Image, name: seq<byte>, arguments: seq<byte>, t: Terminal)
    requires WellFormed(m) && ValidImage(img) && m.stacks[t] != [] && u != t
    ensures Waited(m, Spawn(m, u, img, name, arguments).0, t, 0)
    ensures Head(Spawn(m, u, img, name, arguments).0, t) == Head(m, t)
  {
    hide ProcessOk;
    SpawnKeeps(m, u, img, name, arguments, t, Depth(m, t));
    var n := Spawn(m, u, img, name, arguments).0;
    assert n.stacks[t] == m.stacks[t];
  }

  lemma CountDownWaits(m: Machine, u: Terminal, t: Terminal)
    requires WellFormed(m) && m.stacks[t] != []
    ensures Waited(m, CountDown(m, u), t, if u == t then 1 else 0)
    ensures Head(CountDown(m, u), t).frame == Head(m, t).frame
  {
    if m.stacks[u] != [] && Head(m, u).counter > 0 {
      var p := Head(m, u).(counter := Head(m, u).counter - 1);
      if u == t {
        HeadReplaced(m, t, p);
      } else {
        OtherHeadKept(m, u, p, t);
      }
    }
  }

  lemma RtcWaits(m: Machine, t: Terminal)
    requires WellFormed(m) && m.stacks[t] != []
    ensures Waited(m, RtcTick(m), t, 1)
    ensures Head(RtcTick(m), t).frame == Head(m, t).frame
  {
    var m1 := CountDown(m, 0);
    var m2 := CountDown(m1, 1);
    CountDownWaits(m, 0, t);
    CountDownWaits(m1, 1, t);
    CountDownWaits(m2, 2, t);
  }

  lemma ExecuteWaits(m: Machine, img: Image, command: seq<byte>, frame: Frame, t: Terminal)
    requires WellFormed(m) && ValidImage(img) && m.stacks[t] != [] && Target(m) != t
    ensures Waited(m, Execute(m, img, command, frame).0, t, 0)
    ensures Head(Execute(m, img, command, frame).0, t) == Head(m, t)
  {
    var p := Parse(command);
    if p.Program? {
      SaveWaits(m, Target(m), frame, t);
      SpawnWaits(SaveFrame(m, Target(m), frame), Target(m), img, p.name, p.arguments, t);
    }
  }

  lemma HaltWaits(m: Machine, img: Image, status: int, t: Terminal)
    requires WellFormed(m) && ValidImage(img) && CanCall(m) && m.stacks[t] != [] && m.running != t
    ensures Waited(m, Halt(m, img, status).0, t, 0)
    ensures Head(Halt(m, img, status).0, t) == Head(m, t)
  {
    hide Spawn, StandsAt, ProcessOk;
    var popped := Retired(m);
    PopKeepsOther(m, m.running, t);
    hide Pop;
    if popped.stacks[m.running] == [] {
      SpawnWaits(popped, m.running, img, SHELL, [], t);
    }
  }

  lemma RotateWaits(m: Machine, frame: Frame, t: Terminal)
    requires WellFormed(m) && m.stacks[t] != []
    ensures Waited(m, Rotate(m, frame), t, 0)
    ensures Head(Rotate(m, frame), t).frame == if m.running == t then Some(frame) else Head(m, t).frame
  {
    SaveWaits(m, m.running, frame, t);
    if m.running == t {
      HeadReplaced(m, t, Head(m, t).(frame := Some(frame)));
    }
  }

  lemma PitWaits(m: Machine, img: Image, frame: Frame, t: Terminal)
    requires WellFormed(m) && ValidImage(img) && m.stacks[t] != []
    ensures Waited(m, PitTick(m, img, frame).0, t, 0)
    ensures Head(PitTick(m, img, frame).0, t).frame == if m.running == t then Some(frame) else Head(m, t).frame
  {
    hide Rotate, Spawn, StandsAt, ProcessOk;
    var r := Rotate(m, frame);
    RotateWaits(m, frame, t);
    if r.stacks[r.running] == [] {
      SpawnWaits(r, r.running, img, SHELL, [], t);
      WaitedOn(m, r, Spawn(r, r.running, img, SHELL, []).0, t, 0, 0);
    }
  }

  lemma CallWaits(m: Machine, img: Image, e: Event, t: Terminal)
    requires WellFormed(m) && ValidImage(img) && Enabled(m, e) && m.stacks[t] != [] && m.running != t
    requires !IsInterrupt(e) && !e.ExecuteCall? && !e.HaltCall?
    ensures Waited(m, After(m, img, e), t, 0)
    ensures Head(After(m, img, e), t) == Head(m, t)
  {
    CallRewritesHead(m, img, e);
    assert StandsAt(m, TopSlot(m, t), t, |m.stacks[t]| - 1);
    assert StandsAt(m, TopSlot(m, m.running), m.running, |m.stacks[m.running]| - 1);
  }

  lemma SwitchWaits(m: Machine, terminal: int, t: Terminal)
    requires WellFormed(m) && m.stacks[t] != []
    ensures Waited(m, M.SwitchTerminal(m, terminal), t, 0)
    ensures Head(M.SwitchTerminal(m, terminal), t) == Head(m, t)
  {
  }

  /** One idle step: only an RTC tick counts, and only a PIT tick on `t` itself saves its frame. */
  lemma StepWaits(m: Machine, img: Image, e: Event, t: Terminal)
    requires WellFormed(m) && Bootable(img) && Enabled(m, e) && m.stacks[t] != [] && Idle(m, e, t)
    ensures Waited(m, After(m, img, e), t, if e.Rtc? then 1 else 0)
    ensures Head(After(m, img, e), t).frame
      == if e.Pit? && m.running == t then Some(e.frame) else Head(m, t).frame
  {
    hide Waited, StandsAt, ProcessOk, Execute, Halt, PitTick, RtcTick;
    match e
    case ExecuteCall(command, frame) => ExecuteWaits(m, img, command, frame, t);
    case HaltCall(status) => HaltWaits(m, img, status, t);
    case Pit(frame) => PitWaits(m, img, frame, t);
    case Rtc => RtcWaits(m, t);
    case Switch(terminal) => SwitchWaits(m, terminal, t);
    case _ => CallWaits(m, img, e, t);
  }

  lemma PopKeepsOther(m: Machine, u: Terminal, t: Terminal)
    requires WellFormed(m) && m.stacks[u] != [] && m.stacks[t] != [] && u != t
    ensures Pop(m, u).stacks[t] == m.stacks[t] && Head(Pop(m, u), t) == Head(m, t)
  {
    assert StandsAt(m, TopSlot(m, t), t, |m.stacks[t]| - 1);
    assert StandsAt(m, TopSlot(m, u), u, |m.stacks[u]| - 1);
  }

  lemma {:induction false} RunWaits(m: Machine, img: Image, es: seq<Event>, t: Terminal)
    requires WellFormed(m) && Bootable(img) && Legal(m, img, es) && m.stacks[t] != [] && IdleRun(m, img, es, t)
    ensures Waited(m, Final(m, img, es), t, RtcTicks(es))
    decreases |es|
  {
    hide Step, StandsAt, ProcessOk, Waited;
    WaitedNone(m, t);
    if es != [] {
      var n := After(m, img, es[0]);
      StepWaits(m, img, es[0], t);
      RunWaits(n, img, es[1..], t);
      WaitedOn(m, n, Final(m, img, es), t, if es[0].Rtc? then 1 else 0, RtcTicks(es[1..]));
    }
  }

  /** A blocking RTC read is exact: whatever the other terminals do meanwhile, it can end as soon as
      its terminal runs and as many RTC ticks have passed as its divider says, and not before. */
  lemma {:induction false} RtcReadIsExact(m: Machine, img: Image, es: seq<Event>)
    requires WellFormed(m) && Bootable(img) && CanCall(m)
    requires var n := ReloadCounter(m); Legal(n, img, es) && IdleRun(n, img, es, m.running)
    requires Final(ReloadCounter(m), img, es).running == m.running
    ensures Enabled(Final(ReloadCounter(m), img, es), EndRtcRead) <==>
      RtcTicks(es) >= Head(m, m.running).divider
  {
    var p := Head(m, m.running);
    HeadReplaced(m, m.running, p.(counter := p.divider));
    RunWaits(ReloadCounter(m), img, es, m.running);
  }

  /** Turns add up. */
  lemma TurnLaw(t: int, ticks: nat, more: nat)
    ensures ((t + ticks) % 3 + more) % 3 == (t + (ticks + more)) % 3
  {
  }

  lemma RunningAfter(m: Machine, img: Image, e: Event)
    requires WellFormed(m) && ValidImage(img) && Enabled(m, e)
    ensures After(m, img, e).running == (m.running + if e.Pit? then 1 else 0) % 3
  {
    hide Execute, Halt, PitTick, StandsAt;
    match e
    case ExecuteCall(command, frame) => ExecuteStays(m, img, command, frame);
    case HaltCall(status) => HaltStays(m, img, status);
    case Pit(frame) => PitMoves(m, img, frame);
    case Rtc =>
    case Switch(_) =>
    case _ => CallStays(m, img, e);
  }

  lemma SpawnStays(m: Machine, t: Terminal, img: Image, name: seq<byte>, arguments: seq<byte>)
    requires WellFormed(m) && ValidImage(img)
    ensures Spawn(m, t, img, name, arguments).0.running == m.running
  {
  }

  lemma HaltStays(m: Machine, img: Image, status: int)
    requires WellFormed(m) && ValidImage(img) && CanCall(m)
    ensures Halt(m, img, status).0.running == m.running
  {
    hide Spawn, StandsAt, ProcessOk;
    var popped := Retired(m);
    SpawnStays(popped, m.running, img, SHELL, []);
  }

  lemma PitMoves(m: Machine, img: Image, frame: Frame)
    requires WellFormed(m) && ValidImage(img)
    ensures PitTick(m, img, frame).0.running == (m.running + 1) % 3
  {
    hide Rotate, Spawn, StandsAt, ProcessOk;
    RotateMoves(m, frame);
    var r := Rotate(m, frame);
    SpawnStays(r, r.running, img, SHELL, []);
  }

  lemma CallStays(m: Machine, img: Image, e: Event)
    requires WellFormed(m) && ValidImage(img) && Enabled(m, e)
    requires !IsInterrupt(e) && !e.ExecuteCall? && !e.HaltCall?
    ensures After(m, img, e).running == m.running
  {
    hide Step, StandsAt;
    CallRewritesHead(m, img, e);
  }

  lemma ExecuteStays(m: Machine, img: Image, command: seq<byte>, frame: Frame)
    requires WellFormed(m) && ValidImage(img)
    ensures Execute(m, img, command, frame).0.running == m.running
  {
    hide Spawn, StandsAt, ProcessOk;
    var p := Parse(command);
    if p.Program? {
      SpawnStays(SaveFrame(m, Target(m), frame), Target(m), img, p.name, p.arguments);
    }
  }

  /** The scheduler's position depends on the PIT ticks alone: every terminal has its turn in any
      three of them. */
  lemma {:induction false} RoundRobin(m: Machine, img: Image, es: seq<Event>)
    requires WellFormed(m) && ValidImage(img) && Legal(m, img, es)
    ensures Final(m, img, es).running == (m.running + PitTicks(es)) % 3
    decreases |es|
  {
    hide Step;
    if es != [] {
      RunningAfter(m, img, es[0]);
      RoundRobin(After(m, img, es[0]), img, es[1..]);
      TurnLaw(m.running, if es[0].Pit? then 1 else 0, PitTicks(es[1..]));
    }
  }

  /** Between two turns of terminal `t` the CPU is elsewhere. */
  predicate Elsewhere(m: Machine, img: Image, es: seq<Event>, t: Terminal)
    requires WellFormed(m) && ValidImage(img) && Legal(m, img, es)
    decreases |es|
  {
    m.running != t && (es == [] || Elsewhere(After(m, img, es[0]), img, es[1..], t))
  }

  lemma {:induction false} ElsewhereKeepsFrame(m: Machine, img: Image, es: seq<Event>, t: Terminal)
    requires WellFormed(m) && Bootable(img) && Legal(m, img, es) && m.stacks[t] != []
    requires Elsewhere(m, img, es, t) && ForegroundRun(m, img, es)
    ensures Waited(m, Final(m, img, es), t, RtcTicks(es))
    ensures Head(Final(m, img, es), t).frame == Head(m, t).frame
    ensures Final(m, img, es).running != t
    decreases |es|
  {
    hide Step, StandsAt, ProcessOk, Waited;
    WaitedNone(m, t);
    if es != [] {
      var n := After(m, img, es[0]);
      StepWaits(m, img, es[0], t);
      ElsewhereKeepsFrame(n, img, es[1..], t);
      WaitedOn(m, n, Final(m, img, es), t, if es[0].Rtc? then 1 else 0, RtcTicks(es[1..]));
    }
  }

  /** Preemption is transparent: a process interrupted in context `frame` continues, at its
      terminal's next turn, from exactly that context, changed in nothing but its RTC counter. */
  lemma {:induction false} PreemptionIsTransparent(m: Machine, img: Image, frame: Frame, es: seq<Event>, back: Frame)
    requires WellFormed(m) && Bootable(img) && CanCall(m)
    requires var n := PitTick(m, img, frame).0;
      && Legal(n, img, es) && Elsewhere(n, img, es, m.running) && ForegroundRun(n, img, es)
      && Rotate(Final(n, img, es), back).running == m.running
    ensures var end := Final(PitTick(m, img, frame).0, img, es);
      && PitTick(end, img, back).1 == Resume(Some(frame), 0)
      && Waited(m, PitTick(end, img, back).0, m.running, RtcTicks(es))
  {
    hide PitTick;
    var t := m.running;
    var n := PitTick(m, img, frame).0;
    PitWaits(m, img, frame, t);
    ElsewhereKeepsFrame(n, img, es, t);
    var end := Final(n, img, es);
    PitWaits(end, img, back, t);
    TurnResumes(end, img, back, t);
  }

  /** A terminal's turn resumes the context saved in its head. */
  lemma TurnResumes(m: Machine, img: Image, frame: Frame, t: Terminal)
    requires WellFormed(m) && ValidImage(img) && m.stacks[t] != [] && m.running != t
    requires Rotate(m, frame).running == t
    ensures PitTick(m, img, frame).1 == Resume(Head(m, t).frame, 0)
  {
    SaveWaits(m, m.running, frame, t);
  }

  // ---------------------------------------------------------------- the video page

  /** A process that has mapped video memory sees its terminal's own store. */
  predicate SeesOwnStore(m: Machine)
    requires WellFormed(m)
  {
    m.stacks[m.running] != [] && Head(m, m.running).vidmap ==> m.videoPage == Some(StoreOf(m, m.running))
  }

  /** Every turn the scheduler gives establishes it, and leaves the page alone when there is no mapping. */
  lemma TurnShowsOwnStore(m: Machine, img: Image, frame: Frame)
    requires WellFormed(m) && ValidImage(img) && PitTick(m, img, frame).1.Resume?
    ensures var n := PitTick(m, img, frame).0;
      SeesOwnStore(n) && CanCall(n) && (Head(n, n.running).vidmap || n.videoPage == m.videoPage)
  {
    SaveFillsNothing(m, m.running, frame);
  }

  /** Mapping video memory establishes it as well, and is remembered for later turns. */
  lemma VidmapShowsOwnStore(m: Machine)
    requires CanCall(m)
    ensures SeesOwnStore(Vidmap(m)) && Head(Vidmap(m), m.running).vidmap
  {
    HeadReplaced(m.(videoPage := Some(StoreOf(m, m.running))), m.running, Head(m, m.running).(vidmap := true));
  }

  /** A terminal switch does not remap the page. It keeps the property exactly when it does not
      change whether the running terminal is the visible one, or the process has no mapping. */
  lemma SwitchShowsOwnStoreIff(m: Machine, terminal: Terminal)
    requires CanCall(m) && SeesOwnStore(m)
    ensures SeesOwnStore(M.SwitchTerminal(m, terminal)) <==>
      !Head(m, m.running).vidmap || (m.visible == m.running <==> terminal == m.running)
  {
  }

  /** Halting maps the screen, so a resumed parent with a mapping sees its own store exactly when its
      terminal is visible. */
  lemma HaltShowsOwnStoreIff(m: Machine, img: Image, status: int)
    requires WellFormed(m) && ValidImage(img) && CanCall(m) && Halt(m, img, status).1.Resume?
    ensures SeesOwnStore(Halt(m, img, status).0) <==>
      !m.table[m.stacks[m.running][Depth(m, m.running) - 2]].value.vidmap || m.visible == m.running
  {
    assert StandsAt(m, m.stacks[m.running][Depth(m, m.running) - 2], m.running, Depth(m, m.running) - 2);
    PopKeeps(m, m.running, m.running, Depth(m, m.running) - 1);
  }

  // ---------------------------------------------------------------- the kernel takes these steps

  /** What the kernel's callers owe beyond Enabled: strings that fit their buffers, an RTC request
      that is not negative, and a descriptor of a regular file for a file read. */
  predicate Callable(m: Machine, e: Event)
    requires WellFormed(m) && Enabled(m, e)
  {
    match e
    case ExecuteCall(command, _) => IsText(command) && Kernel.Fits(Parse(command))
    case OpenCall(name) => IsText(name)
    case WriteRtcCall(frequency, nbytes) => nbytes == 4 ==> frequency >= 0
    case ReadFileCall(fd, _) =>
      0 <= fd < FD_COUNT && Head(m, m.running).files[fd].Some? ==>
        Head(m, m.running).files[fd].value.ops == RegularOps
    case _ => true
  }

  /** One event on the kernel itself. */
  method Perform(k: Kernel, e: Event) returns (effect: Effect)
    requires k.Valid() && Bootable(k.img) && Enabled(k.machine, e) && Callable(k.machine, e)
    modifies k, k.slots
    ensures k.Valid() == true
    ensures k.machine == After(old(k.machine), k.img, e)
    ensures Realises(effect, Step(old(k.machine), k.img, e).1)
  {
    match e
    case ExecuteCall(command, frame) => effect := k.SysExecute(command, frame);
    case HaltCall(status) => effect := k.SysHalt(status);
    case Pit(frame) => effect := k.Scheduling(frame);
    case Rtc => k.RtcInterrupt(); effect := Back(0);
    case Switch(terminal) => k.SwitchTerminal(terminal); effect := Back(0);
    case OpenCall(name) => var r := k.SysOpen(name); effect := Back(r);
    case CloseCall(fd) => var r := k.SysClose(fd); effect := Back(r);
    case ReadFileCall(fd, nbytes) =>
      var buf := new byte[Max(0, nbytes)](_ => NUL);
      var r := k.SysReadFile(fd, buf, nbytes);
      effect := Back(r);
    case WriteRtcCall(frequency, nbytes) => var r := k.WriteRtcRate(frequency, nbytes); effect := Back(r);
    case BeginRtcRead => k.ReloadRtc(); effect := Back(0);
    case EndRtcRead => k.ReloadRtc(); effect := Back(0);
    case VidmapCall => k.SysVidmap(); effect := Back(0);
  }

  predicate AllCallable(m: Machine, img: Image, es: seq<Event>)
    requires WellFormed(m) && ValidImage(img) && Legal(m, img, es)
    decreases |es|
  {
    es == [] || (Callable(m, es[0]) && AllCallable(After(m, img, es[0]), img, es[1..]))
  }

  /** Any run of the kernel ends in the machine's state for that run. */
  method PerformAll(k: Kernel, es: seq<Event>)
    requires k.Valid() && Bootable(k.img)
    requires Legal(k.machine, k.img, es) && AllCallable(k.machine, k.img, es)
    modifies k, k.slots
    ensures k.Valid() == true
    ensures k.machine == Final(old(k.machine), k.img, es)
  {
    var i := 0;
    assert es[0..] == es;
    while i < |es|
      invariant 0 <= i <= |es|
      invariant k.Valid() == true
      invariant Legal(k.machine, k.img, es[i..]) && AllCallable(k.machine, k.img, es[i..])
      invariant Final(k.machine, k.img, es[i..]) == Final(old(k.machine), k.img, es)
    {
      assert es[i..][0] == es[i] && es[i..][1..] == es[i + 1..];
      var effect := Perform(k, es[i]);
      i := i + 1;
    }
  }
}
