/** Runs from boot that lead where the kernel does not do what it should: a terminal without a shell, a page
    that belongs to another process, a stale video page. */
module BootRuns {
  import opened Common
  import opened FileSystem
  import M = CallStacks
  import opened CallStacks
  import opened KernelRuns

  /** One more event at the end of a run. */
  lemma {:induction false} Append(m: Machine, img: Image, es: seq<Event>, e: Event)
    requires WellFormed(m) && ValidImage(img) && Legal(m, img, es) && Enabled(Final(m, img, es), e)
    ensures Legal(m, img, es + [e]) && Final(m, img, es + [e]) == After(Final(m, img, es), img, e)
    decreases |es|
  {
    hide Step;
    if es == [] {
      assert [e][1..] == [] && es + [e] == [e];
    } else {
      Append(After(m, img, es[0]), img, es[1..], e);
      assert (es + [e])[1..] == es[1..] + [e];
    }
  }

  /** Terminal 1 runs and is the only one in use; its processes fill the first `n` slots. */
  predicate OnlyOne(m: Machine, n: nat, visible: Terminal) {
    && WellFormed(m) && m.running == 1 && m.visible == visible
    && m.stacks[0] == [] && m.stacks[2] == [] && |m.stacks[1]| == n
    && forall s: Slot :: m.table[s].Some? <==> s < n
  }

  /** Terminal 1 is alone in use and its first process has mapped video memory. */
  predicate Mapped(m: Machine, n: nat, visible: Terminal) {
    OnlyOne(m, n, visible) && n > 0 && m.table[m.stacks[1][0]].Some? && m.table[m.stacks[1][0]].value.vidmap
  }

  /** No process has been started, terminal 0 is shown. */
  predicate Idle(m: Machine) {
    && WellFormed(m) && m.running == m.visible == 0
    && (forall t: Terminal :: m.stacks[t] == []) && forall s: Slot :: m.table[s].None?
  }

  lemma BootIsIdle()
    ensures Idle(BOOT)
  {
  }

  /** The first turn starts a shell on terminal 1. */
  lemma FirstTurn(m: Machine, img: Image, frame: Frame)
    requires Idle(m) && Bootable(img)
    ensures OnlyOne(PitTick(m, img, frame).0, 1, 0)
  {
    hide Rotate, Spawn, StandsAt, ProcessOk;
    FirstRotation(m, frame);
    FirstSpawn(Rotate(m, frame), img);
  }

  lemma FirstRotation(m: Machine, frame: Frame)
    requires Idle(m)
    ensures Rotate(m, frame) == m.(running := 1)
  {
  }

  lemma FirstSpawn(m: Machine, img: Image)
    requires WellFormed(m) && Bootable(img) && (forall t: Terminal :: m.stacks[t] == [])
    requires m.running == 1 && m.visible == 0 && forall s: Slot :: m.table[s].None?
    ensures OnlyOne(Spawn(m, 1, img, SHELL, []).0, 1, 0)
  {
    assert FreeSlot(m.table, 0) == Some(0);
  }

  lemma FirstRun(m: Machine, img: Image, frame: Frame)
    requires Idle(m) && Bootable(img)
    ensures Legal(m, img, [Pit(frame)]) && OnlyOne(Final(m, img, [Pit(frame)]), 1, 0)
  {
    FirstTurn(m, img, frame);
    hide PitTick;
    assert [Pit(frame)][1..] == [];
    assert Final(After(m, img, Pit(frame)), img, []) == After(m, img, Pit(frame));
  }

  // ---------------------------------------------------------------- no slot left for a shell

  lemma Shown(m: Machine, img: Image, n: nat, before: Terminal, visible: Terminal)
    requires Bootable(img) && OnlyOne(m, n, before)
    ensures OnlyOne(After(m, img, Switch(visible)), n, visible)
    ensures Mapped(m, n, before) ==> Mapped(After(m, img, Switch(visible)), n, visible)
  {
  }

  /** A shell started from the visible terminal 1. */
  lemma ShellStarts(m: Machine, n: nat, img: Image, frame: Frame)
    requires Bootable(img) && OnlyOne(m, n, 1) && 0 < n < MAX_PROCESSES
    ensures Execute(m, img, SHELL, frame).1.Enter? && OnlyOne(Execute(m, img, SHELL, frame).0, n + 1, 1)
    ensures After(m, img, ExecuteCall(SHELL, frame)) == Execute(m, img, SHELL, frame).0
  {
    ShellParses();
    SaveFillsNothing(m, 1, frame);
    hide SaveFrame;
    SpawnNext(SaveFrame(m, 1, frame), n, img);
  }

  lemma SpawnNext(m: Machine, n: nat, img: Image)
    requires Bootable(img) && OnlyOne(m, n, 1) && n < MAX_PROCESSES
    ensures Spawn(m, 1, img, SHELL, []).1.Enter? && OnlyOne(Spawn(m, 1, img, SHELL, []).0, n + 1, 1)
  {
    assert m.table[n].None?;
    var free := FreeSlot(m.table, 0);
  }

  lemma {:induction false} Crowd(m: Machine, img: Image, frame: Frame, es: seq<Event>, n: nat) returns (all: seq<Event>)
    requires WellFormed(m) && Bootable(img) && Legal(m, img, es)
    requires OnlyOne(Final(m, img, es), n, 1) && 0 < n <= MAX_PROCESSES
    ensures Legal(m, img, all) && OnlyOne(Final(m, img, all), MAX_PROCESSES, 1)
    decreases MAX_PROCESSES - n
  {
    if n == MAX_PROCESSES {
      all := es;
    } else {
      ShellStarts(Final(m, img, es), n, img, frame);
      hide Execute, After, Step, Legal, Final;
      var e := ExecuteCall(SHELL, frame);
      Append(m, img, es, e);
      all := Crowd(m, img, frame, es + [e], n + 1);
    }
  }

  /** If the first shell fills the slots before the scheduler comes to the next terminal, the next terminal
      gets no shell. */
  lemma {:induction false} CrowdedBoot(m: Machine, img: Image, frame: Frame) returns (es: seq<Event>)
    requires Idle(m) && Bootable(img)
    ensures Legal(m, img, es)
    ensures PitTick(Final(m, img, es), img, frame).1.Back?
  {
    FirstRun(m, img, frame);
    hide PitTick, After, Step, Legal, Final;
    Append(m, img, [Pit(frame)], Switch(1));
    Shown(Final(m, img, [Pit(frame)]), img, 1, 0, 1);
    es := Crowd(m, img, frame, [Pit(frame)] + [Switch(1)], 1);
    NoSlotLeft(Final(m, img, es), img, frame);
  }

  lemma NoSlotLeft(m: Machine, img: Image, frame: Frame)
    requires Bootable(img) && OnlyOne(m, MAX_PROCESSES, 1)
    ensures PitTick(m, img, frame).1.Back?
  {
    assert Depth(m, 2) == 0 && m.running == 1;
    hide PitTick, WellFormed;
    PitFailsIff(m, img, frame);
  }

  // ---------------------------------------------------------------- a program on the wrong terminal

  /** The first shell, on terminal 1 while terminal 0 is shown, starts a program on terminal 0: the page and
      the kernel stack in use are then not those of the running terminal's process. */
  lemma {:induction false} MisplacedProgram(m: Machine, img: Image, frame: Frame) returns (es: seq<Event>)
    requires Idle(m) && Bootable(img)
    ensures Legal(m, img, es)
    ensures var n := Final(m, img, es);
      && Execute(n, img, SHELL, frame).1.Enter? && Target(n) != n.running
      && !Loaded(Execute(n, img, SHELL, frame).0)
  {
    es := [Pit(frame)];
    FirstRun(m, img, frame);
    ShellMisplaced(Final(m, img, es), img, frame);
  }

  lemma ShellMisplaced(m: Machine, img: Image, frame: Frame)
    requires OnlyOne(m, 1, 0) && Bootable(img)
    ensures Execute(m, img, SHELL, frame).1.Enter? && Target(m) != m.running
    ensures !Loaded(Execute(m, img, SHELL, frame).0)
  {
    ShellParses();
    assert m.table[1].None?;
    ExecuteAllOrNothing(m, img, SHELL, frame);
    ExecuteLoadsIff(m, img, SHELL, frame);
  }

  // ---------------------------------------------------------------- a stale video page

  /** Terminal 1 maps video memory in the background and is then shown: it goes on writing to its buffer. */
  lemma {:induction false} StaleAfterSwitch(m: Machine, img: Image, frame: Frame) returns (es: seq<Event>)
    requires Idle(m) && Bootable(img)
    ensures Legal(m, img, es) && CanCall(Final(m, img, es)) && SeesOwnStore(Final(m, img, es))
    ensures !SeesOwnStore(M.SwitchTerminal(Final(m, img, es), 1))
  {
    FirstRun(m, img, frame);
    hide After, Step, Legal, Final, Vidmap;
    MappedInBackground(Final(m, img, [Pit(frame)]), img);
    Append(m, img, [Pit(frame)], VidmapCall);
    es := [Pit(frame)] + [VidmapCall];
  }

  lemma MappedInBackground(m: Machine, img: Image)
    requires OnlyOne(m, 1, 0) && Bootable(img)
    ensures var n := After(m, img, VidmapCall);
      CanCall(n) && SeesOwnStore(n) && !SeesOwnStore(M.SwitchTerminal(n, 1))
  {
    VidmapShowsOwnStore(m);
    SwitchShowsOwnStoreIff(Vidmap(m), 1);
  }

  lemma MapsShown(m: Machine, img: Image)
    requires OnlyOne(m, 1, 1) && Bootable(img)
    ensures Mapped(After(m, img, VidmapCall), 1, 1)
  {
    VidmapShowsOwnStore(m);
  }

  /** A mapped shell of the visible terminal 1 starts a child. */
  lemma MappedParent(m: Machine, img: Image, frame: Frame)
    requires Bootable(img) && Mapped(m, 1, 1)
    ensures Mapped(After(m, img, ExecuteCall(SHELL, frame)), 2, 1)
  {
    ShellStarts(m, 1, img, frame);
    StartKeeps(m, img, SHELL, frame);
    hide Execute;
    HeadReplaced(m, 1, Head(m, 1).(frame := Some(frame)));
  }

  /** Terminal 1 maps video memory while it is shown, starts a program, and is hidden; when the program halts,
      its parent resumes with the other terminal's screen mapped. */
  lemma {:induction false} StaleAfterHalt(m: Machine, img: Image, frame: Frame, status: int) returns (es: seq<Event>)
    requires Idle(m) && Bootable(img)
    ensures Legal(m, img, es) && CanCall(Final(m, img, es))
    ensures var (n, effect) := Halt(Final(m, img, es), img, status);
      effect.Resume? && WellFormed(n) && !SeesOwnStore(n)
  {
    FirstRun(m, img, frame);
    hide After, Step, Legal, Final;
    Append(m, img, [Pit(frame)], Switch(1));
    Shown(Final(m, img, [Pit(frame)]), img, 1, 0, 1);
    es := MappedRun(m, img, frame, [Pit(frame)] + [Switch(1)]);
    HaltedUnmapped(Final(m, img, es), img, status);
  }

  lemma {:induction false} MappedRun(m: Machine, img: Image, frame: Frame, shown: seq<Event>) returns (es: seq<Event>)
    requires WellFormed(m) && Bootable(img) && Legal(m, img, shown) && OnlyOne(Final(m, img, shown), 1, 1)
    ensures Legal(m, img, es) && Mapped(Final(m, img, es), 2, 0)
  {
    hide After, Step, Legal, Final;
    MapsShown(Final(m, img, shown), img);
    Append(m, img, shown, VidmapCall);
    es := shown + [VidmapCall];
    MappedParent(Final(m, img, es), img, frame);
    Append(m, img, es, ExecuteCall(SHELL, frame));
    es := es + [ExecuteCall(SHELL, frame)];
    Shown(Final(m, img, es), img, 2, 1, 0);
    Append(m, img, es, Switch(0));
    es := es + [Switch(0)];
  }

  lemma HaltedUnmapped(m: Machine, img: Image, status: int)
    requires Bootable(img) && Mapped(m, 2, 0)
    ensures Halt(m, img, status).1.Resume? && WellFormed(Halt(m, img, status).0)
    ensures !SeesOwnStore(Halt(m, img, status).0)
  {
    HaltShowsOwnStoreIff(m, img, status);
  }
}
