/** The reference machine for processes: three terminals, each with a call stack of processes.

    The kernel keeps this information in process control blocks linked by parent pointers, a table
    of active slots and a page directory entry (see Processes.dfy, which is proved to refine this
    machine). Here a process is a value, a closed file is simply absent, and starting or ending a
    program is a push or a pop. */
module CallStacks {
  import opened Common
  import opened CStrings
  import opened FileSystem
  import opened Commands
  import opened Numbers

  const NUM_TERMINALS := 3
  const MAX_PROCESSES := 6
  const MIN_FD := 2
  const FD_COUNT := 8
  const MAX_RTC_FREQUENCY := 512
  const DEFAULT_RTC_DIVIDER := 256
  const SHELL: seq<byte> := Bytes("shell")

  type Terminal = t: nat | t < NUM_TERMINALS
  type Slot = s: nat | s < MAX_PROCESSES

  /** A saved kernel context: opaque, only ever stored and handed back. */
  datatype Frame = Frame(esp: nat, ebp: nat)

  datatype FileOps = NoOps | StdinOps | StdoutOps | RtcOps | DirectoryOps | RegularOps

  datatype OpenFile = OpenFile(ops: FileOps, inode: nat, position: nat)

  /** `terminal` and `depth` say where the process stands; `frame` is None until the process has
      been suspended for the first time. */
  datatype Process = Process(
    terminal: Terminal,
    depth: nat,
    files: seq<Option<OpenFile>>,
    arguments: seq<byte>,
    frame: Option<Frame>,
    entry: nat,
    vidmap: bool,
    divider: nat,
    counter: nat)

  /** What the user page at 132 MB shows. */
  datatype VideoPage = Screen | Buffer(owner: Terminal)

  /** Each terminal has a stack of slots, the head of its chain last; `table` gives the process in a
      slot. `loaded` is the slot whose 4 MB page and kernel stack top are in use. */
  datatype Machine = Machine(
    stacks: seq<seq<Slot>>,
    table: seq<Option<Process>>,
    visible: Terminal,
    running: Terminal,
    loaded: Option<Slot>,
    videoPage: Option<VideoPage>)

  /** What the CPU does when a step is over: return to the caller, enter a new program, or continue
      a suspended kernel context. */
  datatype Effect =
    | Back(value: int)
    | Enter(slot: Slot, entry: nat, image: seq<byte>)
    | Resume(frame: Option<Frame>, value: int)

  const BOOT: Machine := Machine([[], [], []], [None, None, None, None, None, None], 0, 0, None, None)

  // ---------------------------------------------------------------- the invariant

  const STDIN := Some(OpenFile(StdinOps, 0, 0))
  const STDOUT := Some(OpenFile(StdoutOps, 0, 0))

  /** A divider is zero before the RTC is first used and a power of two up to 512 after that. */
  predicate RtcOk(p: Process) {
    && p.counter <= p.divider <= MAX_RTC_FREQUENCY
    && (p.divider == 0 || IsPowerOfTwo(p.divider))
    && (p.divider == 0 ==> forall fd :: 0 <= fd < |p.files| && p.files[fd].Some? ==> p.files[fd].value.ops != RtcOps)
  }

  predicate ProcessOk(p: Process) {
    && |p.files| == FD_COUNT
    && p.files[0] == STDIN && p.files[1] == STDOUT
    && RtcOk(p)
  }

  /** The process in slot `s` stands at level `i` of terminal `t`. */
  predicate StandsAt(m: Machine, s: Slot, t: Terminal, i: nat)
    requires |m.table| == MAX_PROCESSES
  {
    m.table[s].Some? && m.table[s].value.terminal == t && m.table[s].value.depth == i
  }

  /** Stacks and table agree: every level of a stack holds the one process that says it stands
      there, and every process in the table stands somewhere. No slot can then occur twice. */
  predicate WellFormed(m: Machine) {
    && |m.stacks| == NUM_TERMINALS && |m.table| == MAX_PROCESSES
    && (forall t: Terminal, i: nat :: i < |m.stacks[t]| ==> StandsAt(m, m.stacks[t][i], t, i))
    && (forall s: Slot :: m.table[s].Some? ==>
          var p := m.table[s].value;
          ProcessOk(p) && p.depth < |m.stacks[p.terminal]| && m.stacks[p.terminal][p.depth] == s)
  }

  // ---------------------------------------------------------------- stacks

  function TopSlot(m: Machine, t: Terminal): Slot
    requires WellFormed(m) && m.stacks[t] != []
  {
    m.stacks[t][|m.stacks[t]| - 1]
  }

  /** The process at the head of terminal `t`. */
  function Head(m: Machine, t: Terminal): (p: Process)
    requires WellFormed(m) && m.stacks[t] != []
    ensures ProcessOk(p) && p.terminal == t && p.depth == |m.stacks[t]| - 1
  {
    assert StandsAt(m, m.stacks[t][|m.stacks[t]| - 1], t, |m.stacks[t]| - 1);
    m.table[TopSlot(m, t)].value
  }

  function WithHead(m: Machine, t: Terminal, p: Process): (r: Machine)
    requires WellFormed(m) && m.stacks[t] != []
    requires ProcessOk(p) && p.terminal == t && p.depth == |m.stacks[t]| - 1
    ensures WellFormed(r)
  {
    var h := Head(m, t);
    m.(table := m.table[TopSlot(m, t) := Some(p)])
  }

  function Push(m: Machine, slot: Slot, p: Process): (r: Machine)
    requires WellFormed(m) && m.table[slot].None?
    requires ProcessOk(p) && p.depth == |m.stacks[p.terminal]|
    ensures WellFormed(r)
  {
    m.(stacks := m.stacks[p.terminal := m.stacks[p.terminal] + [slot]], table := m.table[slot := Some(p)])
  }

  function Pop(m: Machine, t: Terminal): (r: Machine)
    requires WellFormed(m) && m.stacks[t] != []
    ensures WellFormed(r)
  {
    var h := Head(m, t);
    m.(stacks := m.stacks[t := m.stacks[t][..|m.stacks[t]| - 1]], table := m.table[TopSlot(m, t) := None])
  }

  /** The least empty slot from `i` on. */
  function FreeSlot(table: seq<Option<Process>>, i: nat): (free: Option<Slot>)
    requires i <= |table| == MAX_PROCESSES
    ensures free.Some? ==> i <= free.value && table[free.value].None?
                           && forall s :: i <= s < free.value ==> table[s].Some?
    ensures free.None? ==> forall s :: i <= s < MAX_PROCESSES ==> table[s].Some?
    decreases MAX_PROCESSES - i
  {
    if i == MAX_PROCESSES then None
    else if table[i].None? then Some(i)
    else FreeSlot(table, i + 1)
  }

  // ---------------------------------------------------------------- starting and ending programs

  /** The little-endian entry point in bytes 24 to 27 of a program file. */
  function EntryPoint(file: seq<byte>): nat {
    At(file, 27) * 0x1000000 + At(file, 26) * 0x10000 + At(file, 25) * 0x100 + At(file, 24)
  }

  function ProgramFile(img: Image, name: seq<byte>): seq<byte>
    requires ValidImage(img) && IsExecutable(img, name)
  {
    Contents(img, img.inodes[Lookup(img, name).value.inode])
  }

  /** The bytes the loader places at the program's image address. */
  function ProgramImage(img: Image, name: seq<byte>): seq<byte>
    requires ValidImage(img) && IsExecutable(img, name)
  {
    ProgramFile(img, name)[..img.inodes[Lookup(img, name).value.inode].length]
  }

  /** A new process: standard input and output open and nothing else. */
  function Newborn(t: Terminal, depth: nat, arguments: seq<byte>, entry: nat): (p: Process)
    ensures ProcessOk(p)
  {
    Process(t, depth, [STDIN, STDOUT, None, None, None, None, None, None], arguments, None, entry, false, 0, 0)
  }

  /** The terminal an execute call works on. */
  function Target(m: Machine): Terminal
    requires WellFormed(m)
  {
    if m.stacks[m.running] == [] then m.running else m.visible
  }

  function SaveFrame(m: Machine, t: Terminal, frame: Frame): (r: Machine)
    requires WellFormed(m)
    ensures WellFormed(r)
  {
    if m.stacks[t] == [] then m else WithHead(m, t, Head(m, t).(frame := Some(frame)))
  }

  function Spawn(m: Machine, t: Terminal, img: Image, name: seq<byte>, arguments: seq<byte>): (r: (Machine, Effect))
    requires WellFormed(m) && ValidImage(img)
    ensures WellFormed(r.0)
  {
    if !IsExecutable(img, name) then (m, Back(-1))
    else
      match FreeSlot(m.table, 0)
      case None => (m, Back(-1))
      case Some(slot) =>
        var entry := EntryPoint(ProgramFile(img, name));
        (Push(m.(loaded := Some(slot)), slot, Newborn(t, |m.stacks[t]|, arguments, entry)),
         Enter(slot, entry, ProgramImage(img, name)))
  }

  function Execute(m: Machine, img: Image, command: seq<byte>, frame: Frame): (r: (Machine, Effect))
    requires WellFormed(m) && ValidImage(img)
    ensures WellFormed(r.0)
  {
    Run(m, img, Parse(command), frame)
  }

  function Run(m: Machine, img: Image, parsed: Parsed, frame: Frame): (r: (Machine, Effect))
    requires WellFormed(m) && ValidImage(img)
    ensures WellFormed(r.0)
  {
    match parsed
    case Unparsable => (m, Back(-1))
    case Program(name, arguments) =>
      Spawn(SaveFrame(m, Target(m), frame), Target(m), img, name, arguments)
  }

  /** The command "shell" names the program shell, without arguments. */
  lemma ShellParses()
    ensures Parse(SHELL) == Program(SHELL, []) && IsText(SHELL)
  {
    assert SHELL == [115, 104, 101, 108, 108];
    ParseRecovers([], SHELL, [], []);
    assert [] + (SHELL + ([] + [])) == SHELL;
  }

  /** What an execute call of "shell" comes to while the running terminal is empty. */
  function StartShell(m: Machine, img: Image): (r: (Machine, Effect))
    requires WellFormed(m) && ValidImage(img) && m.stacks[m.running] == []
    ensures WellFormed(r.0)
  {
    Spawn(m, m.running, img, SHELL, [])
  }

  lemma ExecuteShell(m: Machine, img: Image, frame: Frame)
    requires WellFormed(m) && ValidImage(img) && m.stacks[m.running] == []
    ensures Execute(m, img, SHELL, frame) == StartShell(m, img)
    ensures IsText(SHELL) && Parse(SHELL) == Program(SHELL, [])
  {
    ShellParses();
  }

  /** The head gone and the screen mapped. */
  function Retired(m: Machine): (r: Machine)
    requires WellFormed(m) && m.stacks[m.running] != []
    ensures WellFormed(r) && r.running == m.running && r.stacks == Pop(m, m.running).stacks
  {
    Pop(m, m.running).(videoPage := Some(Screen))
  }

  function Halt(m: Machine, img: Image, status: int): (r: (Machine, Effect))
    requires WellFormed(m) && ValidImage(img) && m.stacks[m.running] != []
    ensures WellFormed(r.0)
  {
    var popped := Retired(m);
    if popped.stacks[m.running] == [] then StartShell(popped, img)
    else
      var parent := Head(popped, m.running);
      (popped.(loaded := Some(TopSlot(popped, m.running))), Resume(parent.frame, status))
  }

  /** What becomes of the head before it is popped does not matter. */
  lemma PopForgets(m: Machine, t: Terminal, p: Process)
    requires WellFormed(m) && m.stacks[t] != []
    requires ProcessOk(p) && p.terminal == t && p.depth == |m.stacks[t]| - 1
    ensures Pop(WithHead(m, t, p), t) == Pop(m, t)
  {
    var s := TopSlot(m, t);
    assert m.table[s := Some(p)][s := None] == m.table[s := None];
  }

  // ---------------------------------------------------------------- interrupts

  /** Where terminal `t` displays: on the screen when visible, otherwise in its own buffer. */
  function StoreOf(m: Machine, t: Terminal): VideoPage {
    if m.visible == t then Screen else Buffer(t)
  }

  /** Leaves the running process with its context saved and moves to the next terminal. */
  function Rotate(m: Machine, frame: Frame): (r: Machine)
    requires WellFormed(m)
    ensures WellFormed(r)
  {
    SaveFrame(m, m.running, frame).(running := (m.running + 1) % 3)
  }

  function EnterHead(m: Machine): (r: (Machine, Effect))
    requires WellFormed(m) && m.stacks[m.running] != []
    ensures WellFormed(r.0)
  {
    var entering := Head(m, m.running);
    (m.(loaded := Some(TopSlot(m, m.running)),
        videoPage := if entering.vidmap then Some(StoreOf(m, m.running)) else m.videoPage),
     Resume(entering.frame, 0))
  }

  function PitTick(m: Machine, img: Image, frame: Frame): (r: (Machine, Effect))
    requires WellFormed(m) && ValidImage(img)
    ensures WellFormed(r.0)
  {
    var next := Rotate(m, frame);
    if next.stacks[next.running] == [] then StartShell(next, img) else EnterHead(next)
  }

  function CountDown(m: Machine, t: Terminal): (r: Machine)
    requires WellFormed(m)
    ensures WellFormed(r) && r.stacks == m.stacks
  {
    if m.stacks[t] == [] || Head(m, t).counter == 0 then m
    else WithHead(m, t, Head(m, t).(counter := Head(m, t).counter - 1))
  }

  /** Every terminal's head counts down, whether or not it is scheduled. */
  function RtcTick(m: Machine): (r: Machine)
    requires WellFormed(m)
    ensures WellFormed(r)
  {
    CountDown(CountDown(CountDown(m, 0), 1), 2)
  }

  function SwitchTerminal(m: Machine, terminal: int): Machine {
    if 0 <= terminal < NUM_TERMINALS then m.(visible := terminal) else m
  }

  // ---------------------------------------------------------------- system calls of the running process

  /** The least closed descriptor from `fd` on. */
  function FreeFd(files: seq<Option<OpenFile>>, fd: nat): (r: Option<nat>)
    requires fd <= |files|
    ensures r.Some? ==> fd <= r.value < |files| && files[r.value].None?
                        && forall k :: fd <= k < r.value ==> files[k].Some?
    ensures r.None? ==> forall k :: fd <= k < |files| ==> files[k].Some?
    decreases |files| - fd
  {
    if fd == |files| then None else if files[fd].None? then Some(fd) else FreeFd(files, fd + 1)
  }

  predicate CanCall(m: Machine) {
    WellFormed(m) && m.stacks[m.running] != []
  }

  lemma QuotientOf512(f: int)
    requires IsPowerOfTwo(f) && f <= MAX_RTC_FREQUENCY
    ensures 1 <= MAX_RTC_FREQUENCY / f <= MAX_RTC_FREQUENCY && IsPowerOfTwo(MAX_RTC_FREQUENCY / f)
    ensures MAX_RTC_FREQUENCY / f * f == MAX_RTC_FREQUENCY
  {
    assert IsPowerOfTwo(MAX_RTC_FREQUENCY) by {
      assert IsPowerOfTwo(32) && IsPowerOfTwo(4);
    }
    var q := QuotientIsPower(MAX_RTC_FREQUENCY, f);
    ExactQuotient(q, f);
  }

  /** The number of 512 Hz ticks in one period of a virtual RTC. */
  function DividerFor(frequency: int): (divider: nat)
    requires IsPowerOfTwo(frequency)
    ensures 1 <= divider <= MAX_RTC_FREQUENCY && IsPowerOfTwo(divider)
    ensures divider * frequency == MAX_RTC_FREQUENCY || (frequency > MAX_RTC_FREQUENCY && divider == 1)
  {
    QuotientOf512(Min(frequency, MAX_RTC_FREQUENCY));
    MAX_RTC_FREQUENCY / Min(frequency, MAX_RTC_FREQUENCY)
  }

  function WriteRtc(m: Machine, frequency: int, nbytes: int): (r: (Machine, int))
    requires CanCall(m)
    ensures WellFormed(r.0)
  {
    if nbytes != 4 || !IsPowerOfTwo(frequency) then (m, -1)
    else
      var divider := DividerFor(frequency);
      (WithHead(m, m.running, Head(m, m.running).(divider := divider, counter := divider)), 0)
  }

  /** What opening an entry puts into a descriptor; nothing for an unknown kind of file. */
  function Descriptor(d: Dentry): Option<OpenFile> {
    if d.fileType == RTC_TYPE then Some(OpenFile(RtcOps, 0, 0))
    else if d.fileType == DIRECTORY_TYPE then Some(OpenFile(DirectoryOps, 0, 0))
    else if d.fileType == FILE_TYPE then Some(OpenFile(RegularOps, d.inode, 0))
    else None
  }

  /** The process once `d` is open as `fd`; opening the RTC also sets its rate to 2 Hz. */
  function Opened(p: Process, fd: nat, d: Dentry): (q: Process)
    requires ProcessOk(p) && MIN_FD <= fd < FD_COUNT && Descriptor(d).Some?
    ensures ProcessOk(q) && q.terminal == p.terminal && q.depth == p.depth
  {
    var q := p.(files := p.files[fd := Descriptor(d)]);
    if d.fileType == RTC_TYPE then q.(divider := DEFAULT_RTC_DIVIDER, counter := DEFAULT_RTC_DIVIDER) else q
  }

  function Open(m: Machine, img: Image, name: seq<byte>): (r: (Machine, int))
    requires CanCall(m) && ValidImage(img)
    ensures WellFormed(r.0)
  {
    var p := Head(m, m.running);
    var fd := FreeFd(p.files, MIN_FD);
    var d := Lookup(img, name);
    if fd.None? || d.None? || Descriptor(d.value).None? then (m, -1)
    else (WithHead(m, m.running, Opened(p, fd.value, d.value)), fd.value as int)
  }

  lemma HeadReplaced(m: Machine, t: Terminal, p: Process)
    requires WellFormed(m) && m.stacks[t] != []
    requires ProcessOk(p) && p.terminal == t && p.depth == |m.stacks[t]| - 1
    ensures Head(WithHead(m, t, p), t) == p
  {
  }

  /** Opening the RTC is writing its default rate and then filling the descriptor. */
  lemma OpenRtcInSteps(m: Machine, fd: nat, d: Dentry)
    requires CanCall(m) && MIN_FD <= fd < FD_COUNT && d.fileType == RTC_TYPE
    ensures var w := WriteRtc(m, 2, 4).0;
      && CanCall(w) && w.running == m.running
      && Head(w, m.running).divider == Head(w, m.running).counter == DEFAULT_RTC_DIVIDER
      && WithHead(w, m.running, Opened(Head(w, m.running), fd, d))
         == WithHead(m, m.running, Opened(Head(m, m.running), fd, d))
  {
    assert DividerFor(2) == DEFAULT_RTC_DIVIDER;
    var p := Head(m, m.running).(divider := DEFAULT_RTC_DIVIDER, counter := DEFAULT_RTC_DIVIDER);
    HeadReplaced(m, m.running, p);
    assert WithHead(WithHead(m, m.running, p), m.running, Opened(p, fd, d)).table
        == WithHead(m, m.running, Opened(Head(m, m.running), fd, d)).table;
  }

  function Close(m: Machine, fd: int): (r: (Machine, int))
    requires CanCall(m)
    ensures WellFormed(r.0)
  {
    var p := Head(m, m.running);
    if fd < MIN_FD || fd >= FD_COUNT || p.files[fd].None? then (m, -1)
    else (WithHead(m, m.running, p.(files := p.files[fd := None])), 0)
  }

  /** Reading a regular file moves its position by the bytes delivered. */
  function ReadFile(m: Machine, img: Image, fd: int, nbytes: int): (r: (Machine, int))
    requires CanCall(m) && ValidImage(img)
    ensures WellFormed(r.0)
  {
    var p := Head(m, m.running);
    if nbytes <= 0 || fd < 0 || fd >= FD_COUNT || p.files[fd].None? || p.files[fd].value.ops != RegularOps
       || p.files[fd].value.inode >= DIR_ENTRIES then (m, -1)
    else
      var f := p.files[fd].value;
      var count := |Slice(Contents(img, img.inodes[f.inode]), f.position, nbytes)|;
      if count == 0 then (m, 0)
      else (WithHead(m, m.running, p.(files := p.files[fd := Some(f.(position := f.position + count))])), count)
  }

  /** Both ends of a blocking RTC read reload the counter; it ends only when the counter is zero. */
  function ReloadCounter(m: Machine): (r: Machine)
    requires CanCall(m)
    ensures WellFormed(r)
  {
    var p := Head(m, m.running);
    WithHead(m, m.running, p.(counter := p.divider))
  }

  function Vidmap(m: Machine): (r: Machine)
    requires CanCall(m)
    ensures WellFormed(r)
  {
    WithHead(m.(videoPage := Some(StoreOf(m, m.running))), m.running, Head(m, m.running).(vidmap := true))
  }
}
