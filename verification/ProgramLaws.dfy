/** What execute, a halting base program and a terminal's first turn start, told from the command line and the
    file system image alone (student-distrib/syscall_handlers.c). */
module ProgramLaws {
  import opened Common
  import opened FileSystem
  import opened Commands
  import opened CallStacks

  /** Spaces, a name without space or newline, and what follows it: spaces and an argument text. */
  predicate IsCommand(lead: seq<byte>, name: seq<byte>, gap: seq<byte>, arguments: seq<byte>) {
    && IsSpaces(lead) && IsSpaces(gap)
    && 0 < |name| <= 32 && 32 !in name && 10 !in name && IsText(name)
    && (arguments != [] ==> arguments[0] != 32 && (gap != [] || arguments[0] == 10))
  }

  /** The first entry called `name` is that of a program, of the file `file`. */
  predicate IsProgram(img: Image, name: seq<byte>, i: nat, file: seq<byte>)
    requires ValidImage(img)
  {
    && IsFirst(img, name, i)
    && img.dentries[i].fileType == 2 && img.dentries[i].inode < 63
    && file == Contents(img, img.inodes[img.dentries[i].inode])
    && [0x7F, 0x45, 0x4C, 0x46] <= file
  }

  /** The number in bytes 24 to 27, the least significant first; bytes the file does not have are 0. */
  function StartAddress(file: seq<byte>): nat {
    var b: seq<nat> := file + seq(28, _ => 0);
    b[24] + 256 * b[25] + 65536 * b[26] + 16777216 * b[27]
  }

  /** The first slot whose entry in the table is empty. */
  predicate IsLeastFree(m: Machine, slot: Slot)
    requires WellFormed(m)
  {
    m.table[slot].None? && forall s: Slot :: s < slot ==> m.table[s].Some?
  }

  /** A new process of terminal `t` on top of its stack: nothing but standard input and output open, no video
      memory mapped, the RTC never used. */
  function Fresh(m: Machine, t: Terminal, arguments: seq<byte>, entry: nat): Process
    requires WellFormed(m)
  {
    var stdin, stdout := Some(OpenFile(StdinOps, 0, 0)), Some(OpenFile(StdoutOps, 0, 0));
    Process(t, |m.stacks[t]|, [stdin, stdout, None, None, None, None, None, None], arguments, None, entry, false, 0, 0)
  }

  /** Slot `slot` is taken by the program of `file` on terminal `t`; it is entered at the address in the file's
      header, with all but the last byte read from the file in memory. */
  predicate Started(m: Machine, n: Machine, effect: Effect, slot: Slot, t: Terminal, file: seq<byte>,
                    arguments: seq<byte>)
    requires WellFormed(m) && file != []
  {
    && effect == Enter(slot, StartAddress(file), file[..|file| - 1])
    && n == m.(stacks := m.stacks[t := m.stacks[t] + [slot]],
               table := m.table[slot := Some(Fresh(m, t, arguments, StartAddress(file)))],
               loaded := Some(slot))
  }

  lemma AddressInHeader(file: seq<byte>)
    ensures EntryPoint(file) == StartAddress(file)
  {
  }

  lemma SpawnStarts(m: Machine, t: Terminal, img: Image, name: seq<byte>, arguments: seq<byte>, i: nat,
                    file: seq<byte>, slot: Slot)
    requires WellFormed(m) && ValidImage(img) && IsText(name) && IsProgram(img, name, i, file)
    requires IsLeastFree(m, slot)
    ensures var (n, effect) := Spawn(m, t, img, name, arguments);
      Started(m, n, effect, slot, t, file, arguments)
  {
    hide StandsAt, ProcessOk, Contents;
    LookupIff(img, name);
    ExecutableIff(img, name, i);
    AddressInHeader(file);
    hide EntryPoint, StartAddress, IsFirst, Called;
    assert FreeSlot(m.table, 0) == Some(slot);
  }

  lemma SavedTable(m: Machine, t: Terminal, frame: Frame)
    requires WellFormed(m)
    ensures var n := SaveFrame(m, t, frame);
      && n.running == m.running && n.stacks == m.stacks
      && forall s: Slot :: n.table[s].None? <==> m.table[s].None?
  {
    if m.stacks[t] != [] {
      var h := Head(m, t);
    }
  }

  /** execute, from the command line to the new process. It is put on the visible terminal, or on the running one
      as long as that is empty; the arguments are the text behind the name and its spaces. */
  lemma ExecuteStarts(m: Machine, img: Image, lead: seq<byte>, name: seq<byte>, gap: seq<byte>,
                      arguments: seq<byte>, frame: Frame, i: nat, file: seq<byte>, slot: Slot)
    requires WellFormed(m) && ValidImage(img) && IsCommand(lead, name, gap, arguments)
    requires IsProgram(img, name, i, file) && IsLeastFree(m, slot)
    ensures var t := if m.stacks[m.running] == [] then m.running else m.visible;
      var (n, effect) := Execute(m, img, lead + (name + (gap + arguments)), frame);
      Started(SaveFrame(m, t, frame), n, effect, slot, t, file, arguments)
  {
    var t := if m.stacks[m.running] == [] then m.running else m.visible;
    ParseRecovers(lead, name, gap, arguments);
    assert name[..Min(|name|, 32)] == name;
    SavedTable(m, t, frame);
    hide Parse, SaveFrame, Spawn, Started, StandsAt, ProcessOk, IsProgram;
    SpawnStarts(SaveFrame(m, t, frame), t, img, name, arguments, i, file, slot);
  }

  /** When the base program of a terminal halts, a new shell takes its place; so does a first shell on an empty
      terminal when it has its turn. */
  lemma HaltStartsShell(m: Machine, img: Image, status: int, i: nat, file: seq<byte>, slot: Slot)
    requires CanCall(m) && ValidImage(img) && |m.stacks[m.running]| == 1
    requires IsProgram(img, Bytes("shell"), i, file) && IsLeastFree(Pop(m, m.running), slot)
    ensures var (n, effect) := Halt(m, img, status);
      Started(Pop(m, m.running).(videoPage := Some(Screen)), n, effect, slot, m.running, file, [])
  {
    ShellParses();
    SpawnStarts(Retired(m), m.running, img, SHELL, [], i, file, slot);
  }

  lemma RotationFreesNothing(m: Machine, frame: Frame, slot: Slot)
    requires WellFormed(m) && IsLeastFree(m, slot)
    ensures var n := Rotate(m, frame);
      && n == SaveFrame(m, m.running, frame).(running := (m.running + 1) % 3)
      && n.stacks == m.stacks && IsLeastFree(n, slot)
  {
    SavedTable(m, m.running, frame);
  }

  lemma TurnStartsShell(m: Machine, img: Image, frame: Frame, i: nat, file: seq<byte>, slot: Slot)
    requires WellFormed(m) && ValidImage(img) && m.stacks[(m.running + 1) % 3] == []
    requires IsProgram(img, Bytes("shell"), i, file) && IsLeastFree(m, slot)
    ensures var (n, effect) := PitTick(m, img, frame);
      Started(SaveFrame(m, m.running, frame).(running := (m.running + 1) % 3), n, effect, slot,
              (m.running + 1) % 3, file, [])
  {
    ShellParses();
    RotationFreesNothing(m, frame, slot);
    hide Rotate, SaveFrame, Spawn, Started, IsLeastFree, StandsAt, ProcessOk, IsProgram;
    SpawnStarts(Rotate(m, frame), (m.running + 1) % 3, img, SHELL, [], i, file, slot);
  }
}
