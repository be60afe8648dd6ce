# A verified model of the teaching kernel

This project models, in Dafny, the stateful cores of a small x86 teaching kernel and two of its programs, and
proves what they guarantee over whole runs. `dafny verify dfyconfig.toml` checks everything.

| Part | Files | Main results |
|---|---|---|
| Processes, system calls, scheduler | `CallStacks`, `CallLaws`, `Processes`, `KernelRuns`, `BootRuns`, `Commands`, `ProgramLaws`, `KernelLaws` | the control blocks in memory refine three call stacks drawing on one table of six slots, in every run; a child's matching halt resumes exactly the frame that execute saved, through any nesting; execute is all-or-nothing; a preempted process continues as it was; the virtual RTC is exact |
| Terminals | `TextLayout`, `Console`, `Terminals`, `TerminalRuns`, `EditedLine`, `LineEditor`, `EditingLaws`, `SharedRecall` | putc lays a text out in rows of 80 and shows the last 25; three terminals do not interfere; backspace undoes typing; under any keys the program reads exactly the edited line, and the screen shows it after every key that fits, by an exact condition; editors with a common recall flag do not interfere as long as no recall is left behind |
| Files | `FileSystem`, `Streams`, `Grep`, `CStrings` | a read through the block table is a slice of the flat file; reads compose; cat writes the whole file; the sliding-buffer search of grep prints what the line-by-line reference finds, for every pattern whose first byte is below 128, and nothing for the others |
| Blinking characters | `Blinking`, `BlinkList` | the linked list and its pool of slots agree; the timing of a node in closed form, whatever happens to the others; synchronised nodes stay so |
| Numbers | `Numbers`, `Numerals` | the power-of-two test; itoa and printf write the one numeral that reads back as the number |

## How the model is built

The C code works by changing memory in place, and so does the model: control blocks are objects whose fields the
system calls assign (`Processes.Pcb`, `Processes.Kernel`), screens and buffers are arrays, loops are loops. Beside
each class stands a value that says what the memory means - the call stacks (`CallStacks.Machine`), the logical
console (`Console.Console`), the edited line (`EditedLine.Line`), the board of blinking nodes (`Blinking.Board`) -
and each method is proved to act on that value as a function does. The laws are then proved about these functions
and their runs, and the methods `KernelRuns.PerformAll`, `TerminalRuns.ActAll`, `LineEditor.Keyboard.ReadLines` and
`BlinkList.PerformAll` carry them back to memory.

Conventions:

* A clause `ensures Valid() == true` means the same as `ensures Valid()`; it keeps the verifier from checking the
  parts of the invariant one by one.
* Saved `esp`/`ebp` pairs are opaque frames. "execute does not return" is the effect `Enter`; a switch to another
  kernel context is the effect `Resume`.
* A blocking RTC read is two events: one that reloads the counter, one that is enabled when the counter is 0.
* Memory starts zeroed; a file system image is well formed when its tables and blocks are in range
  (`FileSystem.ValidImage`); where a shell must be started, "shell" is an executable in the image.
* 32-bit overflow is written out where it decides something (`Numerals`, 16-bit words in `Blinking`, truncating
  division in `Numbers`); byte counts, cursor indices and frames are unbounded.

## What turned out otherwise than intended

Each of these is proved with its exact condition.

* `read_data` stops one byte late: its guard lets through the byte at position `length`, so an empty file
  delivers one byte (`FileSystem.GuardMeetsIntentIff`, `FileSystem.EmptyFileDeliversAByte`).
* `power_of_two` never returns for negative numbers, and its caller tests the sign only afterwards
  (`Numbers.ReturnsIff`).
* `sys_execute` starts its program on the visible terminal, not the caller's. The page tables then match the
  running terminal exactly when the two coincide (`KernelRuns.ExecuteLoadsIff`), and from boot on they need not
  (`BootRuns.MisplacedProgram`).
* The scheduler fails to start a terminal's first shell exactly when all six slots are taken, and that can
  happen (`KernelRuns.PitFailsIff`, `BootRuns.CrowdedBoot`).
* The user video page goes stale when a terminal switch changes whether the running terminal is visible, and
  when a halt returns to a mapped parent in the background; the next turn repairs it
  (`KernelRuns.SwitchShowsOwnStoreIff`, `KernelRuns.HaltShowsOwnStoreIff`, `KernelRuns.TurnShowsOwnStore`). Both
  happen in short runs from boot (`BootRuns.StaleAfterSwitch`, `BootRuns.StaleAfterHalt`).
* `right_arrow` moves past the last column. From there a character or a further move to the right takes the
  screen's cursor away from the line's; a key keeps the two together exactly when it is none of these, and when
  arrow up or down is not used while echo is off (`EditedLine.KeyFitsIff`). At the start of a row, arrow left,
  arrow right and a character go astray (`EditedLine.StrayCharacter`). Arrow up and down find the end of the old
  line exactly when it is in the cursor's row (`EditedLine.ReachesEndIff`).
* After a line has been filled, neither arrow up nor arrow down switches the echo back on, so that typing may
  continue unseen (`EditedLine.RecallEchoesIff`, `EditedLine.SilentKey`).
* Arrow left counts on `left_arrow` having moved: the editor's indices stay in step exactly when it reports so
  (`LineEditor.Keyboard.GoLeft`). Behind a line that is on the screen it always moves
  (`EditedLine.CanStepBackInLine`).
* A terminal read delivers one byte more than was asked for exactly when the line is as long as the request or
  longer (`LineEditor.Keyboard.OverrunsIff`).
* All three terminals share one flag for a recalled command. A terminal that is left with one in its line disturbs
  the next key at another exactly when the flag matters to that key (`SharedRecall.LeftRecalledIff`,
  `SharedRecall.FlagMattersIff`): its arrow up, for instance, recalls nothing (`SharedRecall.SecondRecallFails`). If
  no terminal is left so, each edits as if it had a flag of its own (`SharedRecall.LinesDoNotInterfere`).
* `left_arrow` and `backspace` look for a newline character before the cursor, but none ever stands on a screen
  (`TerminalRuns.StepsBackIff`).
* `grep` compares the first byte of the pattern as a signed number, so that a pattern starting with a byte of 128 or
  more prints nothing, not even of a file that holds just the pattern (`Grep.FoundInItself`). All that should be
  printed is, for every file, exactly if the pattern starts with a byte below 128 or contains a newline
  (`Grep.PrintsAllIff`).
* Synchronising two blinking nodes always draws the off character (`Blinking.SyncDrawsStatusIff`); lengths above
  32768 last a single tick (`Blinking.DurationIsLengthIff`); a node at location 0 leaves its slot marked free
  (`BlinkList.Blinks.IoctlAdd`).

## Model

| member | source | states |
|---|---|---|
| CStrings.Strncmp | student-distrib/lib.c:719-733 | 0 exactly when the two C strings agree within n bytes |
| CStrings.TextOfPadded | student-distrib/lib.c:719-733 | padding a text with NULs does not change the string it is |
| Numbers.PowerOfTwo | student-distrib/lib.c:309-316 | terminates for every number that is not negative and returns 0 exactly for the powers of two |
| Numbers.ReturnsIff | student-distrib/lib.c:309-316 | the loop is left exactly for numbers that are not negative |
| FileSystem.ContentsAt | student-distrib/filesys.c:106-118 | the flat content of a file at a position is the byte of its block at the offset in the block |
| FileSystem.BytesOfBlock | student-distrib/filesys.c:106-131 | byte j of the block with number k in the table is byte 4096 k + j of the file, up to and including the recorded length |
| FileSystem.ReadDeliversBlocks | student-distrib/filesys.c:106-131 | every byte a read delivers is that of its block in the table, at its offset in the block |
| FileSystem.ReadData | student-distrib/filesys.c:94-134 | returns and stores exactly the slice of the flat file, zeroes the rest of the request, touches nothing else; -1 for an inode out of range |
| FileSystem.GuardMeetsIntentIff | student-distrib/filesys.c:115-118 | the number of bytes delivered is the intended one exactly when the read ends by the file's length, starts beyond it, or asks for nothing |
| FileSystem.EmptyFileDeliversAByte | student-distrib/filesys.c:115-118 | an empty file delivers the first byte of its first block |
| FileSystem.FirstMatch | student-distrib/filesys.c:35-54 | finds an entry exactly when one matches the name |
| FileSystem.LookupIff | student-distrib/filesys.c:35-54 | a lookup gives the first entry whose 32 bytes are the name, ended by a NUL unless it fills them, and fails exactly when there is none |
| FileSystem.ReadDentryByName | student-distrib/filesys.c:35-54 | the loop finds the first matching directory entry or fails |
| FileSystem.ExecutableCheck | student-distrib/syscall_handlers.c:204-222 | succeeds exactly for regular files that start with the ELF bytes, and delivers the start of the file |
| FileSystem.ExecutableIff | student-distrib/syscall_handlers.c:204-222 | an entry is executable exactly when its type is 2, its inode below 63, and its file starts with 7F 45 4C 46 |
| FileSystem.LoadProgram | student-distrib/syscall_handlers.c:244-259 | cannot fail once the check has passed; the image is the file cut to its recorded length |
| Commands.ParseArgs | student-distrib/syscall_handlers.c:166-195 | the scanning loops compute the parse of the command line |
| Commands.ParseRecovers | student-distrib/syscall_handlers.c:166-195 | printing a name without space or newline and its arguments with any spacing and parsing them again gives both back, the name cut to 32 bytes |
| Commands.UnparsableIff | student-distrib/syscall_handlers.c:176-180 | a command is refused exactly when behind its spaces comes the end or a newline |
| CallStacks.Push | student-distrib/syscall_handlers.c:131-144 | putting a process on a free slot keeps the stacks disjoint and the table in step |
| CallStacks.Pop | student-distrib/syscall_handlers.c:38-43 | so does taking the head off |
| CallStacks.FreeSlot | student-distrib/syscall_handlers.c:118-130 | the least free slot, none exactly when all are taken |
| CallStacks.FreeFd | student-distrib/syscall_handlers.c:375-385 | the least free descriptor from 2 on, none exactly when all are taken |
| CallStacks.DividerFor | student-distrib/syscall_handlers.c:674-680 | the divider is a power of two in 1..512, and 512 divided by the frequency, or 1 above 512 |
| CallStacks.OpenRtcInSteps | student-distrib/syscall_handlers.c:400-416 | opening the RTC sets the rate to 2 Hz before it fills the descriptor |
| CallLaws.OpenLaw | student-distrib/syscall_handlers.c:372-419 | open succeeds exactly when a descriptor from 2 on is free and the name has an entry of a known kind; it takes the least free one; a failure changes nothing |
| CallLaws.OpenFills | student-distrib/syscall_handlers.c:372-419 | the descriptor is the RTC, the directory, or a regular file with the inode of the first entry called so, at position 0; other types are refused |
| CallLaws.OpenedReads | student-distrib/syscall_handlers.c:337-419 | a read of n bytes through it delivers as many as lie at the start of that file |
| CallLaws.CloseLaw | student-distrib/syscall_handlers.c:428-437 | close succeeds exactly for an open descriptor from 2 to 7 and changes nothing but it |
| CallLaws.CloseUndoesOpen | student-distrib/syscall_handlers.c:372-437 | closing what open has opened restores the process, but for the rate an RTC was opened with |
| CallLaws.WriteRtcLaw | student-distrib/syscall_handlers.c:667-682 | the request is answered unless it is four bytes holding a negative number; a rate is accepted exactly as four bytes holding a power of two; divider times frequency, cut at 512, is 512 |
| CallLaws.ReadAdvances | student-distrib/syscall_handlers.c:755-765 | a read of an open file delivers as many bytes as are left, up to its size, and moves the position by them |
| CallLaws.ReadsCompose | student-distrib/syscall_handlers.c:755-765 | two reads through a descriptor are one read of both sizes |
| ProgramLaws.ExecuteStarts | student-distrib/syscall_handlers.c:84-335 | from the command line to the new process: it is entered at the little-endian number in bytes 24 to 27 of the file called so, takes the least free slot, and has the text behind the name as its arguments |
| ProgramLaws.HaltStartsShell | student-distrib/syscall_handlers.c:38-49 | a halting base program is replaced by the program of the file called shell |
| ProgramLaws.TurnStartsShell | student-distrib/multiprocessing.c:68-73 | so is an empty terminal filled at its turn |
| KernelLaws.RateIsSet | student-distrib/syscall_handlers.c:667-682 | the event of a rate that is a power of two up to 512 sets divider and counter to 512 divided by it |
| KernelLaws.CounterRestarts | student-distrib/syscall_handlers.c:691-703 | both events of a blocking read set the counter to the divider |
| KernelLaws.FileSession | student-distrib/syscall_handlers.c:337-437 | the run that opens a file, reads from it and closes it answers as it should and leaves the kernel as it was |
| KernelLaws.OpenAndRead | student-distrib/syscall_handlers.c:337-419 | opening a file by its name and reading stores the bytes at its beginning |
| KernelLaws.RunsInOwnMemory | student-distrib/syscall_handlers.c:231-302 | a loaded process runs in the 4 MB page at 8 MB + 4 MB times its number and on its own kernel stack |
| KernelLaws.ShowsOwnBuffer | student-distrib/multiprocessing.c:86-91 | a process that has mapped video memory and sees its own store is shown the screen, or the page of its own terminal |
| Processes.SlotMemoryDisjoint | student-distrib/syscall_handlers.c:231-302 | control block, kernel stack and program page of distinct slots never overlap |
| Processes.NewSlots | student-distrib/syscall_handlers.c:268-290 | six zeroed control blocks at distinct addresses, none with an open file |
| Processes.Kernel.constructor | student-distrib/multiprocessing.c:4-6 | the kernel starts with empty stacks |
| Processes.Kernel.SysExecute | student-distrib/syscall_handlers.c:84-157 | memory after execute is what execute makes of the call stacks, with the same effect and error returns |
| Processes.Kernel.Start | student-distrib/syscall_handlers.c:113-147 | check, slot, page, image, control block and head together spawn one process, or leave everything as it was |
| Processes.Kernel.FindSlot | student-distrib/syscall_handlers.c:118-130 | the loop over the active flags finds the least free slot |
| Processes.Kernel.CreatePcb | student-distrib/syscall_handlers.c:268-290 | from a clean block, exactly standard input and output open, although descriptors 2 to 7 are never cleared |
| Processes.Kernel.Launch | student-distrib/syscall_handlers.c:131-147 | program page, image, entry point and control block of the new head |
| Processes.Kernel.SysHalt | student-distrib/syscall_handlers.c:30-75 | closes the files, frees the slot, resumes the parent's saved frame with the status, or starts a new shell |
| Processes.Kernel.CloseAll | student-distrib/syscall_handlers.c:35-36 | the freed block is clean, and nothing else has changed |
| Processes.Kernel.Retire | student-distrib/syscall_handlers.c:38-46 | the head is popped and the video page points at the screen |
| Processes.Kernel.ReturnToParent | student-distrib/syscall_handlers.c:51-72 | program page and kernel stack are the new head's, whose frame is resumed |
| Processes.Kernel.Scheduling | student-distrib/multiprocessing.c:46-98 | saves the frame, moves to the next terminal, enters its head or starts its shell |
| Processes.Kernel.EnterHead | student-distrib/multiprocessing.c:83-98 | page, stack and, for a process that has mapped video memory, the video page of its own terminal |
| Processes.Kernel.SwitchTerminal | student-distrib/multiprocessing.c:15-35 | for processes only the visible terminal changes, and only to a terminal that exists |
| Processes.Kernel.RtcInterrupt | student-distrib/idt_handlers.c:461-472 | the counter of every terminal's head goes down by one unless it is 0 |
| Processes.Kernel.SysOpen | student-distrib/syscall_handlers.c:372-419 | fills the least free descriptor from 2 on for a file that exists, else changes nothing and returns -1 |
| Processes.Kernel.SysClose | student-distrib/syscall_handlers.c:428-437 | frees the descriptor; descriptors 0 and 1 are never closed |
| Processes.Kernel.SysReadFile | student-distrib/syscall_handlers.c:337-345 | checks the descriptor, delivers the slice at the position and advances it by what was delivered |
| Processes.Kernel.WriteRtcRate | student-distrib/syscall_handlers.c:667-682 | accepts exactly four-byte requests for a power of two and sets divider and counter |
| Processes.Kernel.ReloadRtc | student-distrib/syscall_handlers.c:693-701 | the counter starts again from the divider |
| Processes.Kernel.SysVidmap | student-distrib/syscall_handlers.c:468-478 | maps the store of the running terminal and marks the process |
| Processes.Kernel.ChainIsFinite | student-distrib/syscall_handlers.c:273-274 | following parent pointers from a terminal's head visits its stack from the top, no block twice, and ends in NULL |
| Processes.Kernel.ChainsAreDisjoint | student-distrib/syscall_handlers.c:273-274 | no block is on the chains of two terminals |
| Processes.Kernel.ActiveIffOnChain | student-distrib/syscall_handlers.c:40-131 | a slot is marked active exactly when its block is on a chain |
| KernelRuns.StepKeeps | student-distrib/syscall_handlers.c:30-157 | no step of any terminal changes a process below the head of a terminal |
| KernelRuns.RunKeeps | student-distrib/multiprocessing.c:46-98 | nor does any run during which the terminal stays deeper |
| KernelRuns.OnlyHaltReturns | student-distrib/syscall_handlers.c:43-72 | a level disappears only by its own halt, which resumes the frame below it |
| KernelRuns.StartKeeps | student-distrib/syscall_handlers.c:105-147 | a started program stands directly above its caller, whose frame is saved |
| KernelRuns.MatchingHalt | student-distrib/syscall_handlers.c:43-111 | from execute to the matching halt, through any interleaving and nesting: the halt resumes exactly the saved frame with the child's status, and the parent is unchanged |
| KernelRuns.HaltUndoesExecute | student-distrib/syscall_handlers.c:30-157 | a halt right after an execute restores the whole kernel, with the caller's frame resumed |
| KernelRuns.ExecuteAllOrNothing | student-distrib/syscall_handlers.c:113-144 | execute succeeds exactly for a parsable executable with a slot free; otherwise it returns -1 and nothing but the caller's saved frame has changed |
| KernelRuns.SpawnAllOrNothing | student-distrib/syscall_handlers.c:113-144 | no slot stays marked active after a failure |
| KernelRuns.StepKeepsAlive | student-distrib/syscall_handlers.c:40-49 | a terminal that has a process has one after every step |
| KernelRuns.RunKeepsAlive | student-distrib/syscall_handlers.c:40-49 | and after every run |
| KernelRuns.PitFailsIff | student-distrib/multiprocessing.c:68-73 | a turn fails to start a shell exactly when the terminal has no process and no slot is free |
| BootRuns.CrowdedBoot | student-distrib/multiprocessing.c:68-73 | a run from boot after which it fails |
| KernelRuns.StepSettles | student-distrib/multiprocessing.c:83-86 | with foreground executes, program page and kernel stack belong to the head of the running terminal, and every context resumed had been saved |
| KernelRuns.RunSettles | student-distrib/multiprocessing.c:83-86 | the same over runs |
| KernelRuns.ExecuteLoadsIff | student-distrib/syscall_handlers.c:86-96 | after an execute they belong to the running terminal's head exactly when the program was started on the running terminal |
| BootRuns.MisplacedProgram | student-distrib/syscall_handlers.c:86-96 | a run from boot after which a program is started on another terminal and the page in use is not the running process's |
| KernelRuns.StepWaits | student-distrib/idt_handlers.c:461-472 | only an RTC tick counts a waiting process down, only its own preemption saves its frame |
| KernelRuns.RunWaits | student-distrib/idt_handlers.c:461-472 | its counter falls by the number of RTC ticks, whatever the other terminals do |
| KernelRuns.RtcReadIsExact | student-distrib/syscall_handlers.c:691-703 | a read can end exactly when as many RTC ticks have passed as its divider says |
| KernelRuns.RoundRobin | student-distrib/multiprocessing.c:68-68 | the running terminal after a run depends on the PIT ticks alone: each terminal has its turn in any three |
| KernelRuns.ElsewhereKeepsFrame | student-distrib/multiprocessing.c:56-62 | while other terminals run, a saved frame stays |
| KernelRuns.PreemptionIsTransparent | student-distrib/multiprocessing.c:56-97 | a preempted process continues at its next turn from exactly the context saved, changed in nothing but its RTC counter |
| KernelRuns.TurnShowsOwnStore | student-distrib/multiprocessing.c:88-91 | a turn maps a process's video page to its terminal's own store, and leaves it alone for a process without a mapping |
| KernelRuns.VidmapShowsOwnStore | student-distrib/syscall_handlers.c:467-478 | so does mapping video memory |
| KernelRuns.SwitchShowsOwnStoreIff | student-distrib/multiprocessing.c:15-35 | a terminal switch keeps that exactly when nothing is mapped or visibility of the running terminal stays |
| KernelRuns.HaltShowsOwnStoreIff | student-distrib/syscall_handlers.c:46-46 | a halt keeps it exactly when the parent has mapped nothing or runs on the visible terminal |
| BootRuns.StaleAfterSwitch | student-distrib/multiprocessing.c:15-35 | a run from boot after which a switch leaves a stale mapping |
| BootRuns.StaleAfterHalt | student-distrib/syscall_handlers.c:46-46 | a run from boot after which a halt resumes a parent with another terminal's screen mapped |
| BootRuns.BootIsIdle | student-distrib/multiprocessing.c:4-6 | the state at boot is the one these runs start from |
| KernelRuns.Perform | student-distrib/syscall_handlers.c:30-481 | every call and interrupt acts on memory as the step of the abstract machine |
| KernelRuns.PerformAll | student-distrib/syscall_handlers.c:30-481 | so does every run, with the memory invariant kept |
| TextLayout.PageGrows | student-distrib/lib.c:460-483 | reading a text byte by byte builds the text wrapped line by line |
| TextLayout.PageOfLine | student-distrib/lib.c:460-483 | a line of up to 80 bytes ended by a newline or carriage return is a row, an empty one none |
| TextLayout.PageOfLast | student-distrib/lib.c:460-483 | a last line of less than 80 bytes is the open row |
| TextLayout.PageOfLong | student-distrib/lib.c:460-483 | behind 80 bytes the line goes on in the next row |
| Console.PutShows | student-distrib/lib.c:460-483 | one more byte keeps the screen showing the end of the page |
| Console.SteppedRight | student-distrib/lib.c:35-81 | where n moves to the right lead: along the row to column 80, then down behind the rows |
| Console.PutAtEdge | student-distrib/lib.c:460-483 | at column 80 a character goes to the row below, and only the cursor's column follows |
| Console.TypedTextIsLaidOut | student-distrib/lib.c:460-483 | every byte string typed on a fresh terminal shows its last 25 rows, wrapped at 80 columns |
| Console.LineTyped | student-distrib/lib.c:460-483 | typing a line in closed form: cursor, scrolled rows, every cell |
| Console.LineErased | student-distrib/lib.c:242-294 | erasing in closed form |
| Console.EraseUndoesTyping | student-distrib/lib.c:242-294 | n characters and n backspaces return the cursor to its logical start and blank exactly what was written, across wraps and scrolling |
| Terminals.Display.constructor | student-distrib/kernel.c:158-165 | every terminal starts empty |
| Terminals.Display.Scroll | student-distrib/lib.c:178-213 | the rows move up by one and the last is cleared |
| Terminals.Display.ScrollDown | student-distrib/lib.c:178-213 | scrolls exactly when the cursor is below the last row |
| Terminals.Display.Wraparound | student-distrib/lib.c:219-236 | the mark left at the last column decides whether column 0 means a new row |
| Terminals.Display.Putc | student-distrib/lib.c:460-483 | acts on the logical console of its terminal as the reference does, and on no other, with the cursor bookkeeping kept |
| Terminals.Display.EchoPutc | student-distrib/idt_handlers.c:101-101 | with the echo flag it works on the visible terminal |
| Terminals.Display.Backspace | student-distrib/lib.c:242-294 | steps back and blanks one cell of the visible terminal, or does nothing |
| Terminals.Display.LeftArrow | student-distrib/lib.c:89-138 | steps back and reports whether it has moved |
| Terminals.Display.RightArrow | student-distrib/lib.c:35-81 | steps right, from column 80 down instead, and reports whether it has moved |
| Terminals.Display.Refresh | student-distrib/idt_handlers.c:450-451 | the two closing calls of the handler change no console |
| Terminals.Display.SwitchTerminal | student-distrib/multiprocessing.c:15-35 | swapping video memory leaves every terminal's logical screen as it was |
| TerminalRuns.Act | student-distrib/lib.c:460-483 | one action changes one logical console only |
| TerminalRuns.ActAll | student-distrib/multiprocessing.c:15-35 | after any interleaving of output, echo, backspace, the left and right cursor keys, switches and turns every logical console is what its own actions alone produce |
| TerminalRuns.WhoseAction | student-distrib/lib.c:460-483 | what a process writes appears at the terminal that runs, what a key echoes at the one that is shown |
| TerminalRuns.WriteTerminal | student-distrib/syscall_handlers.c:601-629 | the bytes other than NUL are typed on the writer's terminal, or the message that replaces the shell's complaint when there are too many processes; from a fresh terminal that shows the end of the wrapped text |
| TerminalRuns.WrittenText | student-distrib/syscall_handlers.c:601-629 | a text without NULs is written as it is, unless it is the complaint to be replaced |
| TerminalRuns.NulDropsOut | student-distrib/syscall_handlers.c:612-629 | NULs drop out of a text wherever they stand |
| TerminalRuns.ReplacedIff | student-distrib/syscall_handlers.c:608-611 | a text is replaced exactly when there were too many processes and its first 16 bytes are the complaint |
| TerminalRuns.ReplayHoldsNoNewline | student-distrib/lib.c:460-483 | no run puts a newline character into a cell |
| TerminalRuns.StepsBackIff | student-distrib/lib.c:89-138 | after any run the cursor steps back from everywhere but the top left |
| EditedLine.CharOnScreen | student-distrib/idt_handlers.c:391-442 | a printable key keeps line and screen in step |
| EditedLine.CanStepBackInLine | student-distrib/lib.c:89-138 | behind an edited line that is on the screen the cursor can always move left |
| EditedLine.ReplaceOnScreen | student-distrib/idt_handlers.c:116-134 | wherever the moves to the right and the erasing lead, the line then written is on the screen |
| EditedLine.KeyKeepsOnScreen | student-distrib/idt_handlers.c:106-215 | after every key that fits the edited line stands on the screen, cell for character, with its cursor |
| EditedLine.KeyFitsIff | student-distrib/idt_handlers.c:106-215 | a key fits exactly when it keeps the screen's cursor with the line's and what is typed next is shown |
| EditedLine.RecallEchoesIff | student-distrib/idt_handlers.c:106-162 | after an arrow up or down typing is shown exactly when it was before, or the line is full |
| EditedLine.SilentKey | student-distrib/idt_handlers.c:393-442 | a full line, one more key, arrow up, and a character that enters the line unseen |
| EditedLine.StrayCharacter | student-distrib/lib.c:43-57 | arrow left, arrow right and a character at the start of a row: the character is stored and shown in its place, the cursor a row too high |
| EditedLine.EchoReachable | student-distrib/idt_handlers.c:106-215 | what a key makes of a terminal's screen is again one that runs lead to |
| EditedLine.EchoIsAction | student-distrib/idt_handlers.c:165-215 | backspace and the cursor keys act on the console as the display does when told the index of the cursor |
| EditedLine.ReachesEndIff | student-distrib/idt_handlers.c:116-121 | on every screen that runs lead to arrow up and down come to the end of the old line exactly when it is in the cursor's row, the place behind its last column included |
| EditedLine.ErasesLine | student-distrib/idt_handlers.c:116-129 | then they erase exactly the old line |
| EditedLine.SessionStaysOnScreen | student-distrib/idt_handlers.c:106-215 | through every sequence of keys that fit the line stays on the screen and left_arrow reports its moves |
| EditedLine.UpRepeatsLine | student-distrib/idt_handlers.c:106-136 | arrow up and Enter repeat the line of the read before |
| EditingLaws.BackspaceLaw | student-distrib/idt_handlers.c:165-186 | backspace takes the last character off a line, and blanks the one before the cursor inside a line |
| EditingLaws.CharLaw | student-distrib/idt_handlers.c:391-403 | a character goes behind the end or over the one at the cursor, and nowhere behind 127 |
| EditingLaws.CursorLaw | student-distrib/idt_handlers.c:189-215 | the cursor keys move by one within the line and leave its text |
| EditingLaws.TypedBehind | student-distrib/idt_handlers.c:391-403 | what is typed at the end of a line is appended, and is what arrow down brings back |
| EditingLaws.ErasingUndoesTyping | student-distrib/idt_handlers.c:165-177 | typing a text and as many backspaces give back line and cursor |
| EditingLaws.CorrectedTextIsRead | student-distrib/syscall_handlers.c:575-592 | the program reads the text typed without what was erased, cut to its request, and a newline |
| EditingLaws.TypingReplaces | student-distrib/idt_handlers.c:189-403 | going back and typing replaces as many characters as are typed |
| EditingLaws.UpAndDown | student-distrib/idt_handlers.c:106-162 | arrow up shows the line entered before, once, and arrow down brings back the one begun; the echo is on |
| LineEditor.Keyboard.Store | student-distrib/idt_handlers.c:393-439 | a printable key overwrites or appends in the buffer; it is shown exactly while there is room and echo is on |
| LineEditor.Keyboard.RemoveChar | student-distrib/idt_handlers.c:168-177 | backspace shortens the line or blanks a character in it |
| LineEditor.Keyboard.GoLeft | student-distrib/idt_handlers.c:193-195 | the indices bound the line exactly when left_arrow has reported its move |
| LineEditor.Keyboard.GoRight | student-distrib/idt_handlers.c:207-210 | they do whatever right_arrow reports |
| LineEditor.Keyboard.LoadLine | student-distrib/idt_handlers.c:151-161 | the line becomes the remembered one |
| LineEditor.Keyboard.Finish | student-distrib/idt_handlers.c:408-439 | there is always room for the newline behind the line, which is remembered |
| LineEditor.Keyboard.PressKey | student-distrib/idt_handlers.c:106-439 | buffers and indices follow the overwrite-mode line under every key |
| LineEditor.Keyboard.ReadKeys | student-distrib/idt_handlers.c:106-439 | under any keys and any reports of right_arrow the program receives exactly the edited line, cut to its request, and a newline |
| LineEditor.Keyboard.CharKey | student-distrib/idt_handlers.c:391-451 | buffer, indices and screen follow the overwrite-mode line |
| LineEditor.Keyboard.BackspaceKey | student-distrib/idt_handlers.c:165-186 | the same for backspace |
| LineEditor.Keyboard.LeftKey | student-distrib/idt_handlers.c:189-200 | for arrow left, when its move is reported |
| LineEditor.Keyboard.RightKey | student-distrib/idt_handlers.c:203-215 | for arrow right, whether it moves or not |
| LineEditor.Keyboard.UpKey | student-distrib/idt_handlers.c:106-136 | for arrow up, which recalls the last command |
| LineEditor.Keyboard.DownKey | student-distrib/idt_handlers.c:139-162 | for arrow down, which restores the current one |
| LineEditor.Keyboard.EnterKey | student-distrib/idt_handlers.c:408-432 | the line is complete and remembered, the read may go on |
| LineEditor.Keyboard.BeginRead | student-distrib/syscall_handlers.c:548-578 | a read starts with an empty line and what is remembered of the one before |
| LineEditor.Keyboard.Deliver | student-distrib/syscall_handlers.c:583-592 | the copying loop delivers the line cut to the request and a newline and changes nothing behind them |
| LineEditor.Keyboard.OverrunsIff | student-distrib/syscall_handlers.c:575-592 | that is one byte more than was asked for exactly when the line is at least as long as the request |
| LineEditor.Keyboard.ReadLine | student-distrib/syscall_handlers.c:543-593 | a whole read at a screen: after any keys and Enter the program receives exactly the edited line, cut to its request, and a newline |
| LineEditor.Keyboard.ReadLines | student-distrib/syscall_handlers.c:543-593 | a run of prompts and reads delivers the lines entered, each read starting with what the one before has left |
| SharedRecall.FlagMattersIff | student-distrib/idt_handlers.c:106-439 | the effect of a key depends on the flag exactly for an arrow up that would change the line, and for a character after which the copy for arrow down is out of date |
| SharedRecall.LinesDoNotInterfere | student-distrib/idt_handlers.c:13-13 | through every run of keys at the three terminals in which none is left with a recalled command, every line is what it would be with a flag of its own |
| SharedRecall.LeftRecalledIff | student-distrib/idt_handlers.c:109-141 | after a terminal has been left with one, the next key elsewhere acts as with a flag of its own exactly when the flag does not matter to it |
| SharedRecall.SecondRecallFails | student-distrib/idt_handlers.c:109-111 | arrow up at one terminal, then at another: the second recalls nothing |
| SharedRecall.Act | student-distrib/idt_handlers.c:106-439 | a key at a terminal changes the other editors in nothing but the common flag |
| SharedRecall.ActAll | student-distrib/idt_handlers.c:106-439 | so does every run: memory holds what the run with a common flag makes of the three lines |
| Streams.Descriptor.Read | student-distrib/syscall_handlers.c:755-765 | delivers the next bytes of the file and advances by their number |
| Streams.ReadsCompose | student-distrib/syscall_handlers.c:755-765 | reads of any sizes together are one read of their sum |
| Streams.SlicesJoin | student-distrib/filesys.c:115-133 | two successive slices are one |
| Streams.ReadPieces | student-distrib/syscall_handlers.c:755-765 | the same for a program that makes them |
| Streams.Cat | syscalls/ece391cat.c:21-28 | terminates and writes the whole file |
| Grep.SearchPeels | syscalls/ece391grep.c:33-46 | searching a text is searching its first line and then the rest |
| Grep.SearchOfText | syscalls/ece391grep.c:33-46 | for a text without NULs the reference prints exactly the lines that contain the pattern |
| Grep.LineFoundIff | syscalls/ece391grep.c:36-46 | a line is printed exactly when it is a + pattern + b for some a and b |
| Grep.FoundAnywhere | syscalls/ece391grep.c:36-46 | a + pattern + b is printed whatever a and b |
| Grep.FirstLineFoundIff | syscalls/ece391grep.c:33-46 | what is printed of a text is its first line, exactly when the pattern stands in it, and what is printed of the rest |
| Grep.PrintedLinesContain | syscalls/ece391grep.c:33-46 | every line printed of a text has the pattern somewhere in it |
| Grep.PaddingIsHarmless | student-distrib/filesys.c:118-118 | the extra byte of a read does not matter if it is NUL |
| Grep.Compare | syscalls/ece391support.c:35-46 | 0 exactly when the pattern stands at that place of the line |
| Grep.LineMatches | syscalls/ece391grep.c:36-44 | finds the pattern in a line exactly when it occurs there and starts with a byte below 128 |
| Grep.ShiftDown | syscalls/ece391support.c:14-17 | copying a string down over itself moves the unfinished line to the front |
| Grep.SearchBuffer | syscalls/ece391grep.c:29-60 | the lines in the buffer are searched and what follows them is kept: what is printed and what the rest will print together stay the same |
| Grep.ReadMore | syscalls/ece391grep.c:21-27 | there is always room for a byte, and no newline lies beyond the data |
| Grep.SearchFile | syscalls/ece391grep.c:9-66 | the sliding buffer prints exactly what the line-by-line search of the whole file prints, or nothing for a pattern that starts with a byte of 128 or more |
| Grep.PrintsAllIff | syscalls/ece391grep.c:10-44 | for every text that is what should be printed, exactly if the pattern starts with a byte below 128 or contains a newline |
| Grep.FoundInItself | syscalls/ece391grep.c:36-44 | a pattern on a line of its own should be printed, whatever its first byte |
| Blinking.DurationIsLengthIff | fish/blink.S:62-64 | a length lasts as long as it says exactly up to 32768; longer ones last a single tick |
| Blinking.TimerClosedForm | fish/blink.S:62-90 | countdown and status after n ticks in closed form |
| Blinking.OnExactlyWhen | fish/blink.S:62-90 | on after n ticks exactly when n mod (on + off) < on |
| Blinking.TickAlone | fish/blink.S:49-99 | a tick of the list ticks a node alone at its location as if it were the only one |
| Blinking.RunAlone | fish/blink.S:49-300 | so does every run of ticks, adds, removes and syncs elsewhere |
| Blinking.RunListed | fish/blink.S:49-300 | the same for the timer alone, whatever its cell shows |
| Blinking.BlinksInTime | fish/blink.S:49-300 | what its screen cell shows after any run, as a function of the number of ticks |
| Blinking.SyncedStaySynced | fish/blink.S:240-275 | two nodes once synchronised have equal timers and their own characters after any run of ticks and requests that leaves their locations alone |
| Blinking.AddedIs | fish/blink.S:105-184 | an added node comes first at its location, the others stay, and its on character is drawn |
| Blinking.RemovedIs | fish/blink.S:187-237 | a removal takes away the node added last at the location, and nothing else |
| Blinking.DrawnIs | fish/blink.S:49-99 | after a tick a cell shows the node there that is last in the list to expire, or what it showed before |
| Blinking.SyncDrawsStatusIff | fish/blink.S:270-285 | a sync draws the off character at its location and nothing else, which agrees with the status exactly when that is off or both characters are the same |
| BlinkList.FreeSlotIff | fish/fish.c:160-170 | a slot marked free exists exactly while the list is shorter than the pool |
| BlinkList.Pushed | fish/blink.S:159-162 | a slot linked in front of the head gives a list without cycles again |
| BlinkList.Spliced | fish/blink.S:206-217 | bypassing a slot leaves the list without it and no other change |
| BlinkList.Blinks.constructor | fish/fish.c:160-170 | the zeroed pool is an empty list |
| BlinkList.Blinks.Malloc | fish/fish.c:160-170 | the first slot marked free, or none when there is none |
| BlinkList.Blinks.Free | fish/fish.c:172-175 | zeroes one slot |
| BlinkList.Blinks.FindHelper | fish/blink.S:351-379 | ends, and finds the node added last at the location in the low word of the argument |
| BlinkList.Blinks.IoctlFind | fish/blink.S:302-349 | copies that node, or fails when there is none |
| BlinkList.Blinks.IoctlAdd | fish/blink.S:105-184 | refused exactly off the screen or with the pool used up; the node becomes the head, on; list and pool still agree exactly when its location is not 0 |
| BlinkList.Blinks.IoctlRemove | fish/blink.S:187-237 | removes precisely the node added last at the location in the low word, and frees its slot |
| BlinkList.Blinks.Unlink | fish/blink.S:206-217 | the search for the predecessor ends, and the list loses that slot only |
| BlinkList.Blinks.RtcTasklet | fish/blink.S:49-99 | walks the list once, ticking every node and drawing those that expire |
| BlinkList.Blinks.IoctlSync | fish/blink.S:240-300 | copies the timer from the node at the high word's location to the one at the low word's, or fails |
| BlinkList.Freed | fish/fish.c:172-175 | zeroing a slot that is off the list keeps list and pool in agreement |
| BlinkList.PerformAll | fish/blink.S:49-300 | through every run of requests and ticks list and pool agree, and memory stands for what the run makes of the board |
| Numerals.DigitsIff | student-distrib/lib.c:491-521 | the digits of a number are the one numeral, without a leading zero, that denotes it |
| Numerals.DigitTable | student-distrib/lib.c:491-492 | the digits are 0 to 9 and the capital letters, in order |
| Numerals.ValueJoins | student-distrib/lib.c:504-521 | in a numeral, digits further left count for more by the powers of the radix |
| Numerals.DigitCountIff | student-distrib/lib.c:491-521 | at most k digits exactly below the k-th power of the radix |
| Numerals.AtMost32Digits | student-distrib/lib.c:491-521 | one to 32 digits for every 32-bit number and radix |
| Numerals.StrLen | student-distrib/lib.c:545-551 | the length of the string in the buffer |
| Numerals.StrRev | student-distrib/lib.c:527-540 | the string is reversed in place, nothing else changes |
| Numerals.Itoa | student-distrib/lib.c:491-521 | digit loop and reversal leave the digits of the number as a string |
| Numerals.FormatUnsigned | student-distrib/lib.c:368-397 | %x and %u print a numeral without leading zero that reads back as the number |
| Numerals.FormatAligned | student-distrib/lib.c:374-384 | %#x prints exactly 8 digits of the number |
| Numerals.FormatSigned | student-distrib/lib.c:400-413 | %d prints the signed numeral that reads back as the number, the least one included |

## Left out

- Processes.Kernel.SysExecute: program names of 32 bytes or more and arguments of 128 or more, which overrun the stack buffers, are excluded; so is what the parser reads behind an empty command (the model refuses it).
- Processes.Kernel.WriteRtcRate: four-byte requests for a negative frequency are excluded, because the power-of-two test does not return on them (Numbers.ReturnsIff).
- CallLaws.WriteRtcLaw: the -1 of the specification function also stands for those requests, which are never answered.
- Processes.Kernel.SysReadFile: descriptors of directories, the RTC and terminals go to other handlers; directory reads and file writes are not modelled.
- Processes.Kernel.SysHalt: "shell" must be an executable; without it the code goes on with a NULL control block.
- Processes.Kernel.Launch: the program image is returned, not stored; the memory of user programs is not modelled.
- Processes.Pcb: the descriptor table and the argument string are sequence fields of the control block.
- FileSystem.ExecutableCheck: the header buffer of 40 bytes, into which 4096 bytes are read, is taken to hold them all.
- KernelRuns.Perform: calls that the system call handlers exclude above are excluded.
- KernelRuns.PerformAll: runs exclude those calls, and start with the kernel's PIT flag set.
- KernelRuns.RtcReadIsExact: the waiting loop is an event enabled at 0, not a loop.
- KernelRuns.PreemptionIsTransparent: execute is issued by the foreground process, see KernelRuns.ExecuteLoadsIff for what happens otherwise.
- Terminals.Display.RightArrow: its comparison of the array backward_next with 0 is never true and is not modelled.
- Terminals.Display: attribute bytes and the hardware cursor; clear and Ctrl+L, which do not reset the wrap mark.
- LineEditor.Keyboard.ReadLine: left_arrow must report its moves, as it does while the line is on the screen; the keys are those of one terminal, see SharedRecall for several.
- LineEditor.Keyboard.ReadLines: the same.
- LineEditor.Keyboard.ReadKeys: left_arrow must report its moves.
- LineEditor.Keyboard.PressKey: the same for one key.
- LineEditor.Keyboard.LeftKey: the same at a screen.
- EditedLine.UpRepeatsLine: nothing is recalled at another terminal meanwhile, see SharedRecall.SecondRecallFails.
- SharedRecall.ActAll: each terminal's shell reads again as soon as a line is entered; screens are left out, their reports of moves are part of the run.
- LineEditor.Keyboard.BeginRead: keys that reach the handler between two reads (type-ahead while a program runs) and the echo of a cleared screen are excluded; the line starts empty.
- LineEditor.Keyboard.Deliver: the memory from the caller's buffer on must hold what is written, the byte behind the buffer included when the line is as long as the request.
- LineEditor: scan codes, shift, caps lock and control keys; a key is a printable byte, backspace, an arrow or Enter.
- Grep.SearchFile: lines of at most 1023 bytes, no NUL except possibly as the last byte, a nonempty pattern, and no stray newline at the end of the uninitialised buffer.
- Blinking.BlinksInTime: locations are words different from 0, as fish's offset makes them.
- BlinkList.PerformAll: runs with an add at location 0 are excluded; such a node leaves its slot marked free (BlinkList.Blinks.IoctlAdd).
- BlinkList.Blinks: the pool's NEXT fields are a second array; copying the argument structure from user space cannot fail.
- Numerals.Itoa: the format string interpreter of printf around the conversions; %c, %s and %%.
- The shell flag, which keeps the arrow keys and typed-ahead characters to shells: the editor is modelled while a shell reads. The argument flag and getargs, which fails when there were no arguments; the error flag.
- memcpy, memset and memmove as assembly; they appear as the copies they make.
- Boot, descriptor tables, PIC and PIT programming, page flags and TLB flushes: straight-line hardware set-up.
- Signals, set_handler and sigreturn: stubs in the repository.
- The other user programs and the emulation layer: fish's frames, pingpong, counter, ls, hello.
