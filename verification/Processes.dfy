/** Process control blocks, execute and halt, the scheduler and the per-process system calls
    (student-distrib/syscall_handlers.c, multiprocessing.c, idt_handlers.c, paging.c). */
module Processes {
  import opened Common
  import opened CStrings
  import opened FileSystem
  import opened Commands
  import opened Numbers
  import opened CallStacks

  const EIGHT_MB := 0x800000
  const EIGHT_KB := 0x2000
  const FOUR_MB := 0x400000
  const FOUR_KB := 0x1000
  const VIDEO := 0xB8000
  const ARGUMENT_BUFFER := 128
  const PCB_SIZE := 288

  /** The physical page that holds the program of a slot. */
  function ProgramPage(slot: nat): nat {
    EIGHT_MB + slot * FOUR_MB
  }

  /** The top of a slot's kernel stack. */
  function StackTop(slot: nat): int {
    EIGHT_MB - slot * EIGHT_KB - 4
  }

  /** Where a slot's control block starts; its kernel stack grows down towards it. */
  function PcbAddress(slot: nat): int {
    EIGHT_MB - EIGHT_KB * (slot + 1) - 4
  }

  function VideoAddress(page: VideoPage): nat {
    match page
    case Screen => VIDEO
    case Buffer(t) => VIDEO + FOUR_KB * (t + 1)
  }

  /** The memory of distinct slots never meets: neither control block and kernel stack, nor the
      program pages, and all kernel stacks lie inside the 4 MB kernel page. */
  lemma SlotMemoryDisjoint(a: Slot, b: Slot)
    requires a != b
    ensures StackTop(a) <= PcbAddress(b) || StackTop(b) <= PcbAddress(a)
    ensures ProgramPage(a) + FOUR_MB <= ProgramPage(b) || ProgramPage(b) + FOUR_MB <= ProgramPage(a)
    ensures FOUR_MB <= PcbAddress(a) && PcbAddress(a) + PCB_SIZE < StackTop(a) < EIGHT_MB <= ProgramPage(b)
  {
  }

  datatype FileDesc = FileDesc(ops: FileOps, inode: nat, position: nat, flags: nat)

  function ViewFile(f: FileDesc): Option<OpenFile> {
    if f.flags == 0 then None else Some(OpenFile(f.ops, f.inode, f.position))
  }

  function ViewFiles(files: seq<FileDesc>): (v: seq<Option<OpenFile>>)
    ensures |v| == |files|
  {
    seq(|files|, fd requires 0 <= fd < |files| => ViewFile(files[fd]))
  }

  /** Every descriptor is marked open by the value 1. */
  predicate FlagsOk(files: seq<FileDesc>) {
    forall fd :: 0 <= fd < |files| ==> files[fd].flags <= 1
  }

  lemma UpdateFile(files: seq<FileDesc>, fd: nat, f: FileDesc)
    requires FlagsOk(files) && fd < |files| && f.flags <= 1
    ensures FlagsOk(files[fd := f])
    ensures ViewFiles(files[fd := f]) == ViewFiles(files)[fd := ViewFile(f)]
  {
  }

  /** pcb_t. */
  class Pcb {
    var files: seq<FileDesc>
    var arguments: seq<byte>
    var parent: Pcb?
    var processId: nat
    var ebp: nat
    var esp: nat
    var eip: nat
    var vidmap: nat
    var rtcDivider: nat
    var rtcCounter: nat

    /** The kernel starts from zeroed memory. */
    constructor Zeroed()
      ensures Clean()
    {
      files := seq(FD_COUNT, _ => FileDesc(NoOps, 0, 0, 0));
      arguments := seq(ARGUMENT_BUFFER, _ => NUL);
      parent := null;
      processId, ebp, esp, eip, vidmap, rtcDivider, rtcCounter := 0, 0, 0, 0, 0, 0, 0;
    }

    /** No descriptor above standard output is marked open. */
    ghost predicate Clean()
      reads this
    {
      && |files| == FD_COUNT && FlagsOk(files)
      && forall fd :: MIN_FD <= fd < FD_COUNT ==> files[fd].flags == 0
    }

    /** This block holds process `q` of slot `s`, started by the process of block `above`. */
    ghost predicate Holds(s: Slot, q: Process, above: Pcb?)
      reads this
    {
      && processId == s
      && parent == above
      && |files| == FD_COUNT
      && FlagsOk(files)
      && ViewFiles(files) == q.files
      && |arguments| == ARGUMENT_BUFFER
      && TextOf(arguments, ARGUMENT_BUFFER) == q.arguments
      && (q.frame.Some? ==> q.frame.value == Frame(esp, ebp))
      && eip == q.entry
      && vidmap == (if q.vidmap then 1 else 0)
      && rtcDivider == q.divider
      && rtcCounter == q.counter
    }
  }

  /** Six zeroed control blocks at distinct addresses. */
  method NewSlots() returns (slots: seq<Pcb>)
    ensures |slots| == MAX_PROCESSES && fresh(slots)
    ensures forall a: Slot, b: Slot :: a != b ==> slots[a] != slots[b]
    ensures forall s: Slot :: slots[s].Clean()
  {
    slots := [];
    while |slots| < MAX_PROCESSES
      invariant |slots| <= MAX_PROCESSES && fresh(slots)
      invariant forall a, b :: 0 <= a < b < |slots| ==> slots[a] != slots[b]
      invariant forall s :: 0 <= s < |slots| ==> slots[s].Clean()
    {
      var pcb := new Pcb.Zeroed();
      slots := slots + [pcb];
    }
  }

  /** Does the concrete effect `c` do what the machine's effect `a` says? A context that was never
      saved leaves the resumed frame open. */
  predicate Realises(c: Effect, a: Effect) {
    match a
    case Resume(None, value) => c.Resume? && c.value == value
    case _ => c == a
  }

  class Kernel {
    const img: Image
    /** The control blocks at their fixed addresses, by slot. */
    const slots: seq<Pcb>
    var active: seq<nat>
    var cur: seq<Pcb?>
    var visible: nat
    var running: nat
    var programPage: nat
    var esp0: int
    var vidmapPage: nat

    ghost var machine: Machine

    /** The control block of the n-th process of a stack, null below its first. */
    ghost function Ptr(stack: seq<Slot>, n: nat): Pcb?
      requires n <= |stack| && |slots| == MAX_PROCESSES
    {
      if n == 0 then null else slots[stack[n - 1]]
    }

    ghost predicate Memory()
      reads this
    {
      && ValidImage(img)
      && |slots| == MAX_PROCESSES == |active| && |cur| == NUM_TERMINALS
      && (forall a: Slot, b: Slot :: a != b ==> slots[a] != slots[b])
    }

    ghost predicate Heads()
      requires Memory() && WellFormed(machine)
      reads this
    {
      forall t: Terminal :: cur[t] == Ptr(machine.stacks[t], |machine.stacks[t]|)
    }

    /** The block of the process one level below `q`. */
    ghost function Above(q: Process): Pcb?
      requires Memory() && WellFormed(machine) && q.depth <= |machine.stacks[q.terminal]|
      reads this
    {
      Ptr(machine.stacks[q.terminal], q.depth)
    }

    /** The control blocks hold the machine's processes, linked as its stacks say; the blocks of
        free slots are clean. */
    ghost predicate Blocks()
      requires Memory() && WellFormed(machine)
      reads this, slots
    {
      forall s: Slot :: BlockOk(s)
    }

    ghost predicate BlockOk(s: Slot)
      requires Memory() && WellFormed(machine)
      reads this, slots
    {
      match machine.table[s]
      case Some(q) => active[s] == 1 && slots[s].Holds(s, q, Above(q))
      case None => active[s] == 0 && slots[s].Clean()
    }

    /** A change to one block, for the process standing there, leaves the others in order. */
    twostate lemma OnlyBlock(top: Slot)
      requires old(Valid()) && Memory() && WellFormed(machine)
      requires forall t: Terminal ::
        machine.stacks[t] <= old(machine.stacks[t]) || old(machine.stacks[t]) <= machine.stacks[t]
      requires forall s: Slot :: s != top ==>
        machine.table[s] == old(machine.table[s]) && active[s] == old(active[s]) && unchanged(slots[s])
      requires BlockOk(top) == true
      ensures Blocks() == true
    {
      forall s: Slot ensures BlockOk(s) {
        if s != top {
          assert old(BlockOk(s));
        }
      }
    }

    /** No block and no place on a stack has changed. */
    twostate lemma SameBlocks()
      requires old(Valid()) && Memory()
      requires machine.stacks == old(machine).stacks && machine.table == old(machine).table && active == old(active)
      requires forall s: Slot :: unchanged(slots[s])
      ensures WellFormed(machine) && Blocks()
    {
      forall s: Slot ensures BlockOk(s) {
        assert old(BlockOk(s));
      }
    }

    /** Nothing but the machine and the head block of terminal `t` has changed, and the block holds the
        machine's new head. */
    twostate lemma HeadWritten(t: Terminal)
      requires old(Valid()) && WellFormed(machine) && old(machine).stacks[t] == machine.stacks[t] != []
      requires machine == WithHead(old(machine), t, Head(machine, t))
      requires active == old(active) && cur == old(cur) && visible == old(visible) && running == old(running)
      requires programPage == old(programPage) && esp0 == old(esp0) && vidmapPage == old(vidmapPage)
      requires var top := TopSlot(machine, t);
        && slots[top].Holds(top, Head(machine, t), Ptr(machine.stacks[t], |machine.stacks[t]| - 1))
        && forall s: Slot :: s != top ==> unchanged(slots[s])
      ensures Valid()
    {
      var h := Head(old(machine), t);
      assert old(BlockOk(TopSlot(machine, t)));
      OnlyBlock(TopSlot(machine, t));
    }

    /** Where the head block of a terminal stands and what it holds. */
    lemma HeadHolds(t: Terminal)
      requires Valid() && machine.stacks[t] != []
      ensures var top, q := TopSlot(machine, t), Head(machine, t);
        && cur[t] == slots[top] && machine.table[top] == Some(q) && active[top] == 1
        && slots[top].Holds(top, q, Ptr(machine.stacks[t], q.depth))
    {
      var top, q := TopSlot(machine, t), Head(machine, t);
      assert BlockOk(top);
    }

    ghost predicate Registers()
      reads this
    {
      && visible == machine.visible && running == machine.running
      && (machine.loaded.Some? ==>
            programPage == ProgramPage(machine.loaded.value) && esp0 == StackTop(machine.loaded.value))
      && (machine.videoPage.Some? ==> vidmapPage == VideoAddress(machine.videoPage.value))
    }

    ghost predicate Valid()
      reads this, slots
    {
      Memory() && WellFormed(machine) && Heads() && Blocks() && Registers()
    }

    constructor (img: Image)
      requires ValidImage(img)
      ensures Valid() && machine == BOOT && this.img == img
      ensures fresh(slots)
    {
      this.img := img;
      var blocks := NewSlots();
      slots := blocks;
      active := [0, 0, 0, 0, 0, 0];
      cur := [null, null, null];
      visible, running := 0, 0;
      programPage, esp0, vidmapPage := 0, EIGHT_MB, 0;
      machine := BOOT;
    }

    // -------------------------------------------------------------- interrupts

    /** switch_terminal, as far as processes are concerned. */
    method SwitchTerminal(terminal: int)
      requires Valid()
      modifies this
      ensures Valid() == true
      ensures machine == CallStacks.SwitchTerminal(old(machine), terminal)
    {
      if terminal < 0 || terminal >= NUM_TERMINALS {
        return;
      }
      visible := terminal;
      machine := CallStacks.SwitchTerminal(machine, terminal);
      SameBlocks();
    }

    /** rtc_interrupt, for one terminal. */
    method CountDownHead(t: Terminal)
      requires Valid()
      modifies this, slots
      ensures Valid() == true
      ensures machine == CountDown(old(machine), t)
    {
      hide Blocks, StandsAt;
      if cur[t] != null {
        HeadHolds(t);
        if cur[t].rtcCounter > 0 {
          Decrement(t);
        }
      }
    }

    method Decrement(t: Terminal)
      requires Valid() && machine.stacks[t] != [] && Head(machine, t).counter > 0
      modifies this, slots
      ensures Valid() == true
      ensures machine == CountDown(old(machine), t)
    {
      hide Blocks, BlockOk, StandsAt, Pcb.Clean;
      HeadHolds(t);
      var pcb := cur[t];
      pcb.rtcCounter := pcb.rtcCounter - 1;
      machine := CountDown(machine, t);
      HeadWritten(t);
    }

    method RtcInterrupt()
      requires Valid()
      modifies this, slots
      ensures Valid() == true
      ensures machine == RtcTick(old(machine))
    {
      CountDownHead(0);
      CountDownHead(1);
      CountDownHead(2);
    }

    // -------------------------------------------------------------- saving a context

    method Save(term: Terminal, frame: Frame)
      requires Valid()
      modifies this, slots
      ensures Valid() == true
      ensures machine == SaveFrame(old(machine), term, frame)
    {
      hide Blocks, StandsAt;
      if cur[term] != null {
        StoreFrame(term, frame);
      }
    }

    method StoreFrame(term: Terminal, frame: Frame)
      requires Valid() && machine.stacks[term] != []
      modifies this, slots
      ensures Valid() == true
      ensures machine == SaveFrame(old(machine), term, frame)
    {
      hide Blocks, BlockOk, StandsAt, ProcessOk, Pcb.Clean;
      HeadHolds(term);
      var pcb := cur[term];
      pcb.esp := frame.esp;
      pcb.ebp := frame.ebp;
      machine := SaveFrame(machine, term, frame);
      HeadWritten(term);
    }

    // -------------------------------------------------------------- file descriptors

    method SysClose(fd: int) returns (r: int)
      requires Valid() && CanCall(machine)
      modifies this, slots
      ensures Valid() == true
      ensures (machine, r) == Close(old(machine), fd)
    {
      HeadHolds(running);
      if fd < MIN_FD || fd >= FD_COUNT {
        return -1;
      }
      if cur[running].files[fd].flags == 0 {
        return -1;
      }
      SetFile(fd, cur[running].files[fd].(flags := 0));
      return 0;
    }

    /** Writes one descriptor of the running process. */
    method SetFile(fd: nat, file: FileDesc)
      requires Valid() && CanCall(machine) && fd < FD_COUNT && file.flags <= 1
      requires ProcessOk(WithFile(Head(machine, running), fd, file)) == true
      modifies this, slots
      ensures Valid() == true
      ensures machine == WithHead(old(machine), old(running), WithFile(Head(old(machine), old(running)), fd, file))
    {
      hide Blocks, StandsAt;
      HeadHolds(running);
      ghost var q := WithFile(Head(machine, running), fd, file);
      var pcb := cur[running];
      UpdateFile(pcb.files, fd, file);
      pcb.files := pcb.files[fd := file];
      machine := WithHead(machine, running, q);
      HeadWritten(running);
    }

    static function WithFile(p: Process, fd: nat, file: FileDesc): Process
      requires fd < |p.files|
    {
      p.(files := p.files[fd := ViewFile(file)])
    }

    /** sys_open. */
    method SysOpen(name: seq<byte>) returns (r: int)
      requires Valid() && CanCall(machine) && IsText(name)
      modifies this, slots
      ensures Valid() == true
      ensures (machine, r) == Open(old(machine), img, name)
    {
      HeadHolds(running);
      var i := FindFreeFd(cur[running]);
      if i == FD_COUNT {
        return -1;
      }
      var d := ReadDentryByName(img, name);
      if d.None? {
        return -1;
      }
      if d.value.fileType == RTC_TYPE {
        OpenRtc(i, d.value);
      } else if d.value.fileType == DIRECTORY_TYPE {
        Install(i, FileDesc(DirectoryOps, 0, 0, 1), d.value);
      } else if d.value.fileType == FILE_TYPE {
        Install(i, FileDesc(RegularOps, d.value.inode, 0, 1), d.value);
      } else {
        return -1;
      }
      return i;
    }

    /** The RTC's case: _sys_open_rtc, and the descriptor. */
    method OpenRtc(fd: nat, ghost d: Dentry)
      requires Valid() && CanCall(machine) && MIN_FD <= fd < FD_COUNT && d.fileType == RTC_TYPE
      modifies this, slots
      ensures Valid() == true
      ensures machine == WithHead(old(machine), old(running), Opened(Head(old(machine), old(running)), fd, d))
    {
      OpenRtcInSteps(machine, fd, d);
      var w := WriteRtcRate(2, 4);
      Install(fd, FileDesc(RtcOps, 0, 0, 1), d);
    }

    /** Fills a descriptor of the running process; for the RTC its rate has just been set. */
    method Install(fd: nat, file: FileDesc, ghost d: Dentry)
      requires Valid() && CanCall(machine)
      requires MIN_FD <= fd < FD_COUNT && file.flags == 1 && ViewFile(file) == Descriptor(d)
      requires d.fileType == RTC_TYPE ==>
        Head(machine, running).divider == Head(machine, running).counter == DEFAULT_RTC_DIVIDER
      modifies this, slots
      ensures Valid() == true
      ensures machine == WithHead(old(machine), old(running), Opened(Head(old(machine), old(running)), fd, d))
    {
      SetFile(fd, file);
    }

    static method FindFreeFd(pcb: Pcb) returns (i: nat)
      requires |pcb.files| == FD_COUNT && FlagsOk(pcb.files)
      ensures MIN_FD <= i <= FD_COUNT
      ensures FreeFd(ViewFiles(pcb.files), MIN_FD) == if i == FD_COUNT then None else Some(i)
    {
      i := MIN_FD;
      while i < FD_COUNT && pcb.files[i].flags == 1
        invariant MIN_FD <= i <= FD_COUNT
        invariant FreeFd(ViewFiles(pcb.files), MIN_FD) == FreeFd(ViewFiles(pcb.files), i)
      {
        i := i + 1;
      }
    }

    /** _sys_write_rtc; four-byte requests for a negative frequency are never answered, see WriteRtcLaw. */
    method WriteRtcRate(frequency: int, nbytes: int) returns (r: int)
      requires Valid() && CanCall(machine)
      requires nbytes == 4 ==> frequency >= 0
      modifies this, slots
      ensures Valid() == true
      ensures (machine, r) == WriteRtc(old(machine), frequency, nbytes)
    {
      if nbytes != 4 {
        return -1;
      }
      var odd := Halve(frequency);
      if odd != 0 || frequency < 0 {
        return -1;
      }
      var f := frequency;
      if f > MAX_RTC_FREQUENCY {
        f := MAX_RTC_FREQUENCY;
      }
      var count := MAX_RTC_FREQUENCY / f;
      assert count == DividerFor(frequency);
      SetRate(count);
      return 0;
    }

    method SetRate(count: nat)
      requires Valid() && CanCall(machine) && 1 <= count <= MAX_RTC_FREQUENCY && IsPowerOfTwo(count)
      modifies this, slots
      ensures Valid() == true
      ensures machine == WithHead(old(machine), old(running),
                                  Head(old(machine), old(running)).(divider := count, counter := count))
    {
      hide Blocks, StandsAt;
      HeadHolds(running);
      ghost var q := Head(machine, running).(divider := count, counter := count);
      var pcb := cur[running];
      pcb.rtcDivider := count;
      pcb.rtcCounter := count;
      machine := WithHead(machine, running, q);
      HeadWritten(running);
    }

    /** _sys_read_rtc before and after its wait; the wait ends when the counter is zero. */
    method ReloadRtc()
      requires Valid() && CanCall(machine)
      modifies this, slots
      ensures Valid() == true
      ensures machine == ReloadCounter(old(machine))
    {
      hide Blocks, StandsAt;
      HeadHolds(running);
      ghost var p := Head(machine, running);
      var pcb := cur[running];
      pcb.rtcCounter := pcb.rtcDivider;
      machine := ReloadCounter(machine);
      HeadWritten(running);
    }

    method OwnVideoPage() returns (address: nat)
      requires Valid()
      ensures address == VideoAddress(StoreOf(machine, running))
    {
      if visible == running {
        return VIDEO;
      }
      return if running == 0 then VIDEO + FOUR_KB
             else if running == 1 then VIDEO + 2 * FOUR_KB
             else VIDEO + 3 * FOUR_KB;
    }

    /** sys_vidmap, for a pointer inside the user page. */
    method SysVidmap()
      requires Valid() && CanCall(machine)
      modifies this, slots
      ensures Valid() == true
      ensures machine == Vidmap(old(machine))
    {
      hide StandsAt;
      ghost var owner := StoreOf(machine, running);
      vidmapPage := OwnVideoPage();
      machine := machine.(videoPage := Some(owner));
      SameBlocks();
      MarkMapped();
    }

    method MarkMapped()
      requires Valid() && CanCall(machine)
      modifies this, slots
      ensures Valid() == true
      ensures machine == WithHead(old(machine), old(running), Head(old(machine), old(running)).(vidmap := true))
    {
      hide Blocks, StandsAt;
      HeadHolds(running);
      ghost var q := Head(machine, running).(vidmap := true);
      var pcb := cur[running];
      pcb.vidmap := 1;
      machine := WithHead(machine, running, q);
      HeadWritten(running);
    }

    /** sys_read of a regular file; the bytes go to `buf`. */
    method SysReadFile(fd: int, buf: array<byte>, nbytes: int) returns (r: int)
      requires Valid() && CanCall(machine)
      requires 0 <= fd < FD_COUNT && Head(machine, running).files[fd].Some? ==>
        Head(machine, running).files[fd].value.ops == RegularOps
      requires nbytes <= buf.Length
      modifies this, slots, buf
      ensures Valid() == true
      ensures (machine, r) == ReadFile(old(machine), img, fd, nbytes)
      ensures r > 0 ==>
        var f := Head(old(machine), old(running)).files[fd].value;
        buf[..r] == Slice(Contents(img, img.inodes[f.inode]), f.position, nbytes)
    {
      hide Blocks, StandsAt, Slice, Contents;
      HeadHolds(running);
      if nbytes <= 0 || fd < 0 || fd >= FD_COUNT {
        return -1;
      }
      assert ViewFiles(cur[running].files)[fd] == ViewFile(cur[running].files[fd]);
      if cur[running].files[fd].flags == 0 {
        return -1;
      }
      r := FetchFile(fd, buf, nbytes);
      if r > 0 {
        Advance(fd, r);
      }
    }

    /** The read itself. */
    method FetchFile(fd: nat, buf: array<byte>, nbytes: nat) returns (r: int)
      requires Valid() && CanCall(machine) && nbytes <= buf.Length
      requires fd < FD_COUNT && Head(machine, running).files[fd].Some?
      modifies buf
      ensures Valid() == true
      ensures var f := Head(machine, running).files[fd].value;
        if f.inode >= DIR_ENTRIES then r == -1
        else r == |Slice(Contents(img, img.inodes[f.inode]), f.position, nbytes)|
             && buf[..r] == Slice(Contents(img, img.inodes[f.inode]), f.position, nbytes)
    {
      HeadHolds(running);
      var f := cur[running].files[fd];
      assert ViewFiles(cur[running].files)[fd] == ViewFile(f);
      r := ReadData(img, f.inode, f.position, buf, 0, nbytes);
    }

    method Advance(fd: nat, count: nat)
      requires Valid() && CanCall(machine)
      requires fd < FD_COUNT && Head(machine, running).files[fd].Some?
      requires Head(machine, running).files[fd].value.ops == RegularOps
      modifies this, slots
      ensures Valid() == true
      ensures var p := Head(old(machine), old(running));
        var f := p.files[fd].value;
        machine == WithHead(old(machine), old(running),
                            p.(files := p.files[fd := Some(f.(position := f.position + count))]))
    {
      HeadHolds(running);
      var f := cur[running].files[fd];
      assert ViewFiles(cur[running].files)[fd] == ViewFile(f);
      SetFile(fd, f.(position := f.position + count));
    }

    // -------------------------------------------------------------- execute

    /** The least inactive slot, or the number of slots. */
    method FindSlot() returns (i: nat)
      requires Valid()
      ensures i <= MAX_PROCESSES
      ensures FreeSlot(machine.table, 0) == if i == MAX_PROCESSES then None else Some(i)
    {
      i := 0;
      while i < MAX_PROCESSES && active[i] == 1
        invariant 0 <= i <= MAX_PROCESSES
        invariant FreeSlot(machine.table, 0) == FreeSlot(machine.table, i)
      {
        assert BlockOk(i);
        i := i + 1;
      }
      if i < MAX_PROCESSES {
        assert BlockOk(i);
      }
    }

    /** _execute_create_PCB, together with the entry point the context switch records. The
        descriptors above standard output are left as they are. */
    method CreatePcb(pcb: Pcb, slot: Slot, argument: seq<byte>, above: Pcb?, entry: nat)
      requires pcb.Clean() && IsText(argument) && |argument| < ARGUMENT_BUFFER
      modifies pcb
      ensures forall t: Terminal, depth: nat :: pcb.Holds(slot, Newborn(t, depth, argument, entry), above)
    {
      pcb.parent := above;
      pcb.processId := slot;
      pcb.files := pcb.files[0 := FileDesc(StdinOps, 0, 0, 1)][1 := FileDesc(StdoutOps, 0, 0, 1)];
      assert ViewFiles(pcb.files) == [STDIN, STDOUT, None, None, None, None, None, None];
      pcb.vidmap := 0;
      pcb.rtcCounter := 0;
      pcb.rtcDivider := 0;
      pcb.arguments := argument + seq(ARGUMENT_BUFFER - |argument|, _ => NUL);
      TextOfPadded(argument, seq(ARGUMENT_BUFFER - |argument|, _ => NUL), ARGUMENT_BUFFER);
      pcb.eip := entry;
    }

    /** Slot `i` has been marked active for a process that does not exist yet, and its page is mapped. */
    ghost predicate Claimed(i: Slot)
      reads this, slots
    {
      && Memory() && WellFormed(machine) && Heads()
      && visible == machine.visible && running == machine.running
      && (machine.videoPage.Some? ==> vidmapPage == VideoAddress(machine.videoPage.value))
      && machine.table[i].None? && active[i] == 1 && programPage == ProgramPage(i) && slots[i].Clean()
      && forall s: Slot :: s != i ==> BlockOk(s)
    }

    /** Claims the free slot `i` for a checked program: marks it active, maps its page, loads the
        program, fills its block and makes it the head of terminal `term`. */
    method Launch(i: Slot, term: Terminal, name: seq<byte>, argument: seq<byte>, entry: nat)
      returns (image: seq<byte>)
      requires Valid() && machine.table[i].None?
      requires IsText(name) && IsExecutable(img, name) && IsText(argument) && |argument| < ARGUMENT_BUFFER
      modifies this, slots
      ensures Valid() == true
      ensures image == ProgramImage(img, name)
      ensures machine == Push(old(machine).(loaded := Some(i)), i,
                              Newborn(term, |old(machine).stacks[term]|, argument, entry))
    {
      assert BlockOk(i);
      active := active[i := 1];
      programPage := ProgramPage(i);
      image := LoadImage(name);
      hide ProgramImage, IsExecutable;
      forall s: Slot | s != i ensures BlockOk(s) {
        assert old(BlockOk(s));
      }
      Enlist(i, term, argument, entry);
    }

    /** The control block, the head and the kernel stack of the new process. */
    method Enlist(i: Slot, term: Terminal, argument: seq<byte>, entry: nat)
      requires Claimed(i) == true
      requires IsText(argument) && |argument| < ARGUMENT_BUFFER
      modifies this, slots
      ensures Valid() == true
      ensures machine == Push(old(machine).(loaded := Some(i)), i,
                              Newborn(term, |old(machine).stacks[term]|, argument, entry))
    {
      hide ProcessOk;
      CreatePcb(slots[i], i, argument, cur[term], entry);
      cur := cur[term := slots[i]];
      esp0 := StackTop(i);
      ghost var p := Newborn(term, |machine.stacks[term]|, argument, entry);
      machine := Push(machine.(loaded := Some(i)), i, p);
      hide Newborn, Pcb.Clean, Pcb.Holds, StandsAt;
      forall s: Slot | s != i ensures BlockOk(s) {
        assert old(BlockOk(s));
      }
    }

    /** The loader, which cannot fail for a checked program. */
    method LoadImage(name: seq<byte>) returns (image: seq<byte>)
      requires ValidImage(img) && IsText(name) && IsExecutable(img, name)
      ensures image == ProgramImage(img, name)
    {
      var loaded;
      loaded, image := LoadProgram(img, name);
      assert loaded != -1;
    }

    /** Everything of sys_execute after the command has been parsed and the caller's frame saved. */
    method Start(term: Terminal, name: seq<byte>, argument: seq<byte>) returns (effect: Effect)
      requires Valid()
      requires IsText(name) && IsText(argument) && |argument| < ARGUMENT_BUFFER
      modifies this, slots
      ensures Valid() == true
      ensures (machine, effect) == Spawn(old(machine), term, img, name, argument)
    {
      hide Blocks, StandsAt;
      var ok, header := ExecutableCheck(img, name);
      if !ok {
        return Back(-1);
      }
      var i := FindSlot();
      if i >= MAX_PROCESSES {
        return Back(-1);
      }
      var entry := EntryPoint(header);
      var image := Launch(i, term, name, argument, entry);
      return Enter(i, entry, image);
    }

    /** The program name and the arguments must fit their buffers with a terminator. */
    static predicate Fits(parsed: Parsed) {
      parsed.Program? ==>
        && IsText(parsed.name) && |parsed.name| < FILENAME_BUFFER
        && IsText(parsed.arguments) && |parsed.arguments| < ARGUMENT_BUFFER
    }

    /** sys_execute, called with kernel context `frame`. */
    method SysExecute(command: seq<byte>, frame: Frame) returns (effect: Effect)
      requires Valid() && IsText(command) && Fits(Parse(command))
      modifies this, slots
      ensures Valid() == true
      ensures (machine, effect) == Execute(old(machine), img, command, frame)
    {
      var parsed := ParseArgs(command);
      effect := ExecuteParsed(parsed, frame);
    }

    /** An execute call looks at the visible terminal, unless the running one is still empty. */
    method ExecuteParsed(parsed: Parsed, frame: Frame) returns (effect: Effect)
      requires Valid() && Fits(parsed)
      modifies this, slots
      ensures Valid() == true
      ensures (machine, effect) == Run(old(machine), img, parsed, frame)
    {
      if parsed.Unparsable? {
        return Back(-1);
      }
      var term := visible;
      if cur[running] == null {
        term := running;
      }
      Save(term, frame);
      effect := Start(term, parsed.name, parsed.arguments);
    }

    /** sys_execute("shell"), as the scheduler and a halting base program call it; with no process
        at the terminal's head there is no context to save. */
    method ExecuteShell() returns (effect: Effect)
      requires Valid() && machine.stacks[machine.running] == []
      modifies this, slots
      ensures Valid() == true
      ensures (machine, effect) == StartShell(old(machine), img)
    {
      var unused := Frame(0, 0);
      CallStacks.ExecuteShell(machine, img, unused);
      effect := SysExecute(SHELL, unused);
    }

    // -------------------------------------------------------------- halt

    /** The first loop of sys_halt: closes every open descriptor above standard output. */
    method CloseAll()
      requires Valid() && CanCall(machine)
      modifies this, slots
      ensures Valid() == true
      ensures CanCall(machine) && running == old(running) && machine.stacks == old(machine).stacks
      ensures slots[TopSlot(machine, running)].Clean()
      ensures Pop(machine, running) == Pop(old(machine), running)
    {
      hide Blocks, StandsAt, Pcb.Clean, Pop;
      var i := MIN_FD;
      while i < FD_COUNT
        invariant MIN_FD <= i <= FD_COUNT
        invariant Valid() == true
        invariant CanCall(machine) && running == old(running) && machine.stacks == old(machine).stacks
        invariant Pop(machine, running) == Pop(old(machine), running)
        invariant forall fd :: MIN_FD <= fd < i ==> Head(machine, running).files[fd].None?
      {
        CloseOne(i);
        i := i + 1;
      }
      HeadHolds(running);
      AllClosed(slots[TopSlot(machine, running)]);
    }

    /** Closes one descriptor if it is open. */
    method CloseOne(fd: nat)
      requires Valid() && CanCall(machine) && MIN_FD <= fd < FD_COUNT
      modifies this, slots
      ensures Valid() == true
      ensures CanCall(machine) && running == old(running) && machine.stacks == old(machine).stacks
      ensures Pop(machine, running) == Pop(old(machine), running)
      ensures Head(machine, running).files == Head(old(machine), running).files[fd := None]
    {
      hide Blocks, StandsAt;
      HeadHolds(running);
      ghost var p := Head(machine, running);
      assert ViewFiles(cur[running].files)[fd] == ViewFile(cur[running].files[fd]);
      if cur[running].files[fd].flags != 0 {
        PopForgets(machine, running, p.(files := p.files[fd := None]));
        HeadReplaced(machine, running, p.(files := p.files[fd := None]));
        var r := SysClose(fd);
      }
    }

    lemma AllClosed(pcb: Pcb)
      requires |pcb.files| == FD_COUNT && FlagsOk(pcb.files)
      requires forall fd :: MIN_FD <= fd < FD_COUNT ==> ViewFiles(pcb.files)[fd].None?
      ensures pcb.Clean()
    {
      forall fd | MIN_FD <= fd < FD_COUNT ensures pcb.files[fd].flags == 0 {
        assert ViewFiles(pcb.files)[fd] == ViewFile(pcb.files[fd]);
      }
    }

    /** Frees the slot of the running process and steps back to its parent. */
    method Retire()
      requires Valid() && CanCall(machine)
      requires slots[TopSlot(machine, running)].Clean()
      modifies this, slots
      ensures Valid() == true
      ensures running == old(running)
      ensures machine == Pop(old(machine), running).(videoPage := Some(Screen))
    {
      Unmark();
      PopHead();
      MapScreen();
    }

    /** The process has mapped no video memory any more; its descriptors stay. */
    method Unmark()
      requires Valid() && CanCall(machine)
      requires slots[TopSlot(machine, running)].Clean()
      modifies this, slots
      ensures Valid() == true
      ensures running == old(running) && machine.stacks == old(machine).stacks && CanCall(machine)
      ensures slots[TopSlot(machine, running)].Clean()
      ensures Pop(machine, running) == Pop(old(machine), running)
    {
      hide Blocks, StandsAt;
      HeadHolds(running);
      ghost var q := Head(machine, running).(vidmap := false);
      PopForgets(machine, running, q);
      var pcb := cur[running];
      pcb.vidmap := 0;
      machine := WithHead(machine, running, q);
      HeadWritten(running);
    }

    method PopHead()
      requires Valid() && CanCall(machine)
      requires slots[TopSlot(machine, running)].Clean()
      modifies this
      ensures Valid() == true
      ensures running == old(running) && machine == Pop(old(machine), running)
    {
      hide ProcessOk, Pcb.Clean, TextOf;
      HeadHolds(running);
      ghost var top, stack := TopSlot(machine, running), machine.stacks[running];
      active := active[cur[running].processId := 0];
      cur := cur[running := cur[running].parent];
      machine := Pop(machine, running);
      hide Pcb.Holds, StandsAt;
      OnlyBlock(top);
    }

    /** vidmap_paging_modify(VIDEO). */
    method MapScreen()
      requires Valid()
      modifies this`vidmapPage, this`machine
      ensures Valid() == true
      ensures machine == old(machine).(videoPage := Some(Screen))
    {
      vidmapPage := VIDEO;
      machine := machine.(videoPage := Some(Screen));
      SameBlocks();
    }

    /** sys_halt: the base program of a terminal is replaced by a new shell, any other resumes its
        parent with the status. */
    method SysHalt(status: int) returns (effect: Effect)
      requires Valid() && CanCall(machine) && IsExecutable(img, SHELL)
      modifies this, slots
      ensures Valid() == true
      ensures var after := Halt(old(machine), img, status);
        machine == after.0 && Realises(effect, after.1)
    {
      hide Blocks, StandsAt;
      CloseAll();
      Retire();
      if cur[running] == null {
        effect := ExecuteShell();
      } else {
        effect := ReturnToParent(status);
      }
    }

    method ReturnToParent(status: int) returns (effect: Effect)
      requires Valid() && CanCall(machine)
      modifies this
      ensures Valid() == true
      ensures machine == old(machine).(loaded := Some(TopSlot(old(machine), old(running))))
      ensures Realises(effect, Resume(Head(old(machine), old(running)).frame, status))
      ensures running == old(running) && cur == old(cur)
    {
      hide Blocks, StandsAt;
      HeadHolds(running);
      var pcb := cur[running];
      programPage := pcb.processId * FOUR_MB + EIGHT_MB;
      esp0 := EIGHT_MB - pcb.processId * EIGHT_KB - 4;
      machine := machine.(loaded := Some(TopSlot(machine, running)));
      SameBlocks();
      effect := Resume(Some(Frame(pcb.esp, pcb.ebp)), status);
    }

    // -------------------------------------------------------------- the scheduler

    /** scheduling: round robin over the terminals on every PIT interrupt. */
    method Scheduling(frame: Frame) returns (effect: Effect)
      requires Valid()
      modifies this, slots
      ensures Valid() == true
      ensures var after := PitTick(old(machine), img, frame);
        machine == after.0 && Realises(effect, after.1)
    {
      hide Blocks, StandsAt;
      hide Rotate, StartShell, CallStacks.EnterHead, Realises;
      LeaveTerminal(frame);
      effect := TakeTurn();
    }

    /** Saves the context and moves on to the next terminal. */
    method LeaveTerminal(frame: Frame)
      requires Valid()
      modifies this, slots
      ensures Valid() == true
      ensures machine == Rotate(old(machine), frame)
    {
      hide Blocks, StandsAt;
      Save(running, frame);
      NextTerminal();
    }

    /** The turn of the terminal now running. */
    method TakeTurn() returns (effect: Effect)
      requires Valid()
      modifies this, slots
      ensures Valid() == true
      ensures var m := old(machine);
        var after := if m.stacks[m.running] == [] then StartShell(m, img) else CallStacks.EnterHead(m);
        machine == after.0 && Realises(effect, after.1)
    {
      hide Blocks, StandsAt, Spawn;
      if cur[running] == null {
        effect := ExecuteShell();
      } else {
        effect := EnterHead();
      }
    }

    method NextTerminal()
      requires Valid()
      modifies this
      ensures Valid() == true
      ensures machine == old(machine).(running := (old(machine).running + 1) % 3)
    {
      running := (running + 1) % 3;
      machine := machine.(running := (machine.running + 1) % 3);
      SameBlocks();
    }

    method EnterHead() returns (effect: Effect)
      requires Valid() && CanCall(machine)
      modifies this
      ensures Valid() == true
      ensures var after := CallStacks.EnterHead(old(machine));
        machine == after.0 && Realises(effect, after.1)
    {
      hide Blocks, StandsAt;
      HeadHolds(running);
      effect := ReturnToParent(0);
      label Mapped:
      if cur[running].vidmap == 1 {
        vidmapPage := OwnVideoPage();
        machine := machine.(videoPage := Some(StoreOf(machine, running)));
        SameBlocks@Mapped();
      }
    }

    // -------------------------------------------------------------- what validity means for the chains

    /** Following `n` parent pointers. */
    ghost function Walk(p: Pcb?, n: nat): Pcb?
      reads *
      decreases n
    {
      if n == 0 || p == null then p else Walk(p.parent, n - 1)
    }

    lemma {:induction false} WalkDown(t: Terminal, level: nat, n: nat)
      requires Valid() && n <= level <= |machine.stacks[t]|
      ensures Walk(Ptr(machine.stacks[t], level), n) == Ptr(machine.stacks[t], level - n)
      decreases n
    {
      if n > 0 {
        var s := machine.stacks[t][level - 1];
        assert StandsAt(machine, s, t, level - 1);
        assert BlockOk(s);
        WalkDown(t, level - 1, n - 1);
      }
    }

    /** From every terminal the parent chain runs through exactly its stack and then ends: it is
        finite and meets no block twice. */
    lemma ChainIsFinite(t: Terminal)
      requires Valid()
      ensures var stack := machine.stacks[t];
        && Walk(cur[t], |stack|) == null
        && (forall n: nat :: n < |stack| ==> Walk(cur[t], n) == slots[stack[|stack| - 1 - n]])
        && (forall n: nat, k: nat :: n < k < |stack| ==> Walk(cur[t], n) != Walk(cur[t], k))
    {
      var stack := machine.stacks[t];
      WalkDown(t, |stack|, |stack|);
      forall n: nat | n < |stack| ensures Walk(cur[t], n) == slots[stack[|stack| - 1 - n]] {
        WalkDown(t, |stack|, n);
      }
      forall n: nat, k: nat | n < k < |stack| ensures Walk(cur[t], n) != Walk(cur[t], k) {
        assert StandsAt(machine, stack[|stack| - 1 - n], t, |stack| - 1 - n);
        assert StandsAt(machine, stack[|stack| - 1 - k], t, |stack| - 1 - k);
      }
    }

    /** The chains of two terminals share no block. */
    lemma ChainsAreDisjoint(t: Terminal, n: nat, u: Terminal, k: nat)
      requires Valid() && t != u
      requires Walk(cur[t], n) != null && n < |machine.stacks[t]| && k < |machine.stacks[u]|
      ensures Walk(cur[t], n) != Walk(cur[u], k)
    {
      ChainIsFinite(t);
      ChainIsFinite(u);
      var a, b := machine.stacks[t], machine.stacks[u];
      assert StandsAt(machine, a[|a| - 1 - n], t, |a| - 1 - n);
      assert StandsAt(machine, b[|b| - 1 - k], u, |b| - 1 - k);
    }

    /** The active slots are exactly the ones on the chains, so the slot a new process gets is
        reachable from no terminal. */
    lemma ActiveIffOnChain(s: Slot)
      requires Valid()
      ensures active[s] == 1 <==>
        exists t: Terminal, n: nat :: n < |machine.stacks[t]| && Walk(cur[t], n) == slots[s]
      ensures active[s] == 0 || active[s] == 1
    {
      assert BlockOk(s);
      if active[s] == 1 {
        var p := machine.table[s].value;
        var stack := machine.stacks[p.terminal];
        ChainIsFinite(p.terminal);
        assert Walk(cur[p.terminal], |stack| - 1 - p.depth) == slots[s];
      }
      if t: Terminal, n: nat :| n < |machine.stacks[t]| && Walk(cur[t], n) == slots[s] {
        var stack := machine.stacks[t];
        ChainIsFinite(t);
        assert StandsAt(machine, stack[|stack| - 1 - n], t, |stack| - 1 - n);
      }
    }
  }
}
