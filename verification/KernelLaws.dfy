/** What the events of a run do to the running process, and what valid kernel memory holds for it, in plain
    numbers (student-distrib/syscall_handlers.c, multiprocessing.c, paging.c). */
module KernelLaws {
  import opened Common
  import opened FileSystem
  import Numbers
  import opened CallStacks
  import opened CallLaws
  import opened Processes
  import opened KernelRuns

  // ---------------------------------------------------------------- events of the running process

  /** The running process after the event. */
  function HeadAfter(m: Machine, img: Image, e: Event): Process
    requires CanCall(m) && ValidImage(img) && Enabled(m, e) && !IsInterrupt(e) && !e.ExecuteCall? && !e.HaltCall?
  {
    CallRewritesHead(m, img, e);
    Head(After(m, img, e), m.running)
  }

  /** Setting a rate that is a power of two up to 512. */
  lemma RateIsSet(m: Machine, img: Image, frequency: int, k: nat)
    requires CanCall(m) && ValidImage(img) && frequency == Numbers.Pow(2, k) <= 512
    ensures var q := HeadAfter(m, img, WriteRtcCall(frequency, 4));
      && q.divider * frequency == 512 && q.counter == q.divider
      && Step(m, img, WriteRtcCall(frequency, 4)).1 == Back(0)
  {
    hide Step;
    WriteRtcLaw(m, frequency, 4);
    WriteRtcStep(m, img, frequency);
  }

  lemma WriteRtcStep(m: Machine, img: Image, frequency: int)
    requires CanCall(m) && ValidImage(img)
    ensures var (n, r) := WriteRtc(m, frequency, 4);
      Step(m, img, WriteRtcCall(frequency, 4)) == (n, Back(r))
  {
  }

  /** Either end of a blocking read starts the counter again. */
  lemma CounterRestarts(m: Machine, img: Image)
    requires CanCall(m) && ValidImage(img)
    ensures HeadAfter(m, img, BeginRtcRead) == Head(m, m.running).(counter := Head(m, m.running).divider)
    ensures Head(m, m.running).counter == 0 ==> HeadAfter(m, img, EndRtcRead) == HeadAfter(m, img, BeginRtcRead)
  {
    HeadReplaced(m, m.running, Head(m, m.running).(counter := Head(m, m.running).divider));
  }

  /** The calls of a session and their events. */
  lemma SessionSteps(m: Machine, img: Image, name: seq<byte>, fd: int, nbytes: nat)
    requires CanCall(m) && ValidImage(img)
    ensures Step(m, img, OpenCall(name)) == (Open(m, img, name).0, Back(Open(m, img, name).1))
    ensures Step(m, img, ReadFileCall(fd, nbytes))
      == (ReadFile(m, img, fd, nbytes).0, Back(ReadFile(m, img, fd, nbytes).1))
    ensures Step(m, img, CloseCall(fd)) == (Close(m, fd).0, Back(Close(m, fd).1))
  {
  }

  /** One more event at the start of a run. */
  lemma Prepend(m: Machine, img: Image, e: Event, es: seq<Event>)
    requires WellFormed(m) && ValidImage(img) && Enabled(m, e) && Legal(After(m, img, e), img, es)
    ensures Legal(m, img, [e] + es) && Final(m, img, [e] + es) == Final(After(m, img, e), img, es)
  {
    hide Step;
    assert ([e] + es)[0] == e && ([e] + es)[1..] == es;
  }

  lemma ThreeEvents(m: Machine, img: Image, a: Event, b: Event, c: Event)
    requires WellFormed(m) && ValidImage(img) && Enabled(m, a)
    requires Enabled(After(m, img, a), b) && Enabled(After(After(m, img, a), img, b), c)
    ensures Legal(m, img, [a, b, c])
    ensures Final(m, img, [a, b, c]) == After(After(After(m, img, a), img, b), img, c)
  {
    var n := After(m, img, a);
    var q := After(n, img, b);
    assert Legal(After(q, img, c), img, []) && Final(After(q, img, c), img, []) == After(q, img, c);
    hide After, Legal, Final, Enabled;
    Prepend(q, img, c, []);
    Prepend(n, img, b, [c] + []);
    Prepend(m, img, a, [b] + ([c] + []));
    assert [a] + ([b] + ([c] + [])) == [a, b, c];
  }

  /** Reading moves the position of the open file, closing forgets it. */
  lemma ReadThenClose(m: Machine, img: Image, fd: int, nbytes: nat)
    requires CanCall(m) && ValidImage(img) && nbytes > 0 && Readable(m, fd)
    ensures var q := ReadFile(m, img, fd, nbytes).0;
      CanCall(q) && Close(q, fd) == Close(m, fd) && Close(q, fd).1 == 0
  {
    var p := Head(m, m.running);
    var f := p.files[fd].value;
    var count := |Slice(Contents(img, img.inodes[f.inode]), f.position, nbytes)|;
    var moved := p.(files := p.files[fd := Some(f.(position := f.position + count))]);
    ReadAdvances(m, img, fd, nbytes);
    HeadReplaced(m, m.running, moved);
    SameTable(m, moved, p.(files := p.files[fd := None]));
    assert moved.files[fd := None] == p.files[fd := None];
  }

  /** Opening a file, reading from it and closing it: the calls answer with the descriptor, with the number of
      bytes from the start of the file, and with 0, and the kernel is as it was. */
  lemma {:induction false} FileSession(m: Machine, img: Image, name: seq<byte>, i: nat, nbytes: nat, fd: int)
    requires CanCall(m) && ValidImage(img) && Open(m, img, name).1 == fd && nbytes > 0
    requires IsText(name) && IsFirst(img, name, i)
    requires img.dentries[i].fileType == 2 && img.dentries[i].inode < 63
    requires exists k :: 2 <= k < 8 && Head(m, m.running).files[k].None?
    ensures var es := [OpenCall(name), ReadFileCall(fd, nbytes), CloseCall(fd)];
      && Legal(m, img, es) && Final(m, img, es) == m
      && Step(m, img, es[0]).1 == Back(fd)
      && var n := After(m, img, es[0]);
      && CanCall(n)
      && Step(n, img, es[1]).1 == Back(|Slice(Contents(img, img.inodes[img.dentries[i].inode]), 0, nbytes)|)
      && var q := After(n, img, es[1]);
      && CanCall(q) && Step(q, img, es[2]).1 == Back(0)
  {
    OpenFills(m, img, name, i);
    OpenedReads(m, img, name, i, nbytes);
    LookupIff(img, name);
    CloseUndoesOpen(m, img, name);
    var n := Open(m, img, name).0;
    hide Open, ReadFile, Close, Step, Legal, Final, Slice, Contents, StandsAt, ProcessOk, IsFirst;
    ReadThenClose(n, img, fd, nbytes);
    var q := ReadFile(n, img, fd, nbytes).0;
    SessionSteps(m, img, name, fd, nbytes);
    SessionSteps(n, img, name, fd, nbytes);
    SessionSteps(q, img, name, fd, nbytes);
    ThreeEvents(m, img, OpenCall(name), ReadFileCall(fd, nbytes), CloseCall(fd));
  }

  // ---------------------------------------------------------------- memory

  /** The control block at the head of the running terminal is the one whose number it carries, and with the
      process loaded its own 4 MB page and the top of its own 8 KB stack are in use. */
  lemma RunsInOwnMemory(k: Kernel)
    requires k.Valid() && CanCall(k.machine) && Loaded(k.machine)
    ensures var pcb := k.cur[k.running];
      && pcb != null && pcb.processId < 6 && pcb == k.slots[pcb.processId] && k.active[pcb.processId] == 1
      && k.programPage == 0x800000 + 0x400000 * pcb.processId
      && k.esp0 == 0x800000 - 0x2000 * pcb.processId - 4
  {
    k.HeadHolds(k.running);
  }

  /** A process that sees its own store is shown video memory itself while its terminal is visible, and
      otherwise the terminal's own page behind it. */
  lemma ShowsOwnBuffer(k: Kernel)
    requires k.Valid() && CanCall(k.machine) && SeesOwnStore(k.machine)
    requires k.cur[k.running] != null && k.cur[k.running].vidmap == 1
    ensures k.vidmapPage == if k.visible == k.running then 0xB8000 else 0xB8000 + 0x1000 * (k.running + 1)
  {
    k.HeadHolds(k.running);
  }

  /** A program opens a file by its name and reads from it: the bytes are those at its beginning. */
  method OpenAndRead(k: Kernel, name: seq<byte>, ghost i: nat, buf: array<byte>, nbytes: nat)
    returns (fd: int, r: int)
    requires k.Valid() && CanCall(k.machine) && IsText(name) && IsFirst(k.img, name, i)
    requires k.img.dentries[i].fileType == 2 && k.img.dentries[i].inode < 63
    requires exists j :: 2 <= j < 8 && Head(k.machine, k.running).files[j].None?
    requires 0 < nbytes <= buf.Length
    modifies k, k.slots, buf
    ensures k.Valid() == true
    ensures 2 <= fd < 8
    ensures 0 <= r <= nbytes
    ensures buf[..r] == Slice(Contents(k.img, k.img.inodes[k.img.dentries[i].inode]), 0, nbytes)
  {
    OpenFills(k.machine, k.img, name, i);
    OpenedReads(k.machine, k.img, name, i, nbytes);
    fd := k.SysOpen(name);
    r := k.SysReadFile(fd, buf, nbytes);
  }
}
