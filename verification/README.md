# AK kernel: verified models

AK is a small x86 kernel written in C. This project models the parts of it that keep real
state, in Dafny, and proves what every run of them guarantees. Four subsystems are covered.

**Tasks** (`TaskRing`, `Process`, `ProcessRuns`, `ProcessTheorems`, `ProcessLiveness`,
`Kernel`, `KernelRuns`). Task structures are linked into a circular list; the scheduler walks
it, unlinks dead tasks under its own feet and wakes signal waiters; fork and exit keep the
family records that `wait4` reports. `Kernel` is the code on pointers and fields. `Process`
says the same on values: tasks by pid, and the ring as the sequence of pids read from
CurrentTask on. `ProcessRuns` lets any interleaving of fork, exit, preemption,
`rt_sigsuspend` and `wait4` run, and proves one invariant of all reachable states.
`ProcessTheorems` draws from it what `wait4` reports, what wakes a sleeping task and how
long a runnable task waits; `ProcessLiveness` says exactly when a call that has blocked can
return. `KernelRuns` carries out whole runs on the pointers.

**Descriptor tables** (`Fdio`, `FdTables`). Growing tables with a moving hint, and reference
counts shared by the tables of forked tasks. A pointer is an address and `free` takes an
address out of memory, so a dangling entry is one whose address is not allocated; malloc may
reuse addresses.

**Console** (`Vga`, `LineEditor`, `Console`). The 25x80 text screen is shown to be a window
on an endless tape of cells; the line editor inside `console_read` is compared with a
reference that cancels backspaces from the right; the keyboard ring is specified by the
whole history of characters put into it, and keyboard interrupts may arrive between any two
polls.

**Files** (`FsTree`, `Tmpfs`, `Cpio`, `Initrd`). Directories as sibling lists, path lookup,
tmpfs files, and the walk over an initial ramdisk in the old binary cpio format (section
"Old Binary Format" of cpio(5)), with the encoder of that format as its inverse.

`dafny verify dfyconfig.toml` checks everything. `Sequences` and `Bytes` hold shared
definitions.

## Where the code differs from what it says or intends

- kernel/syscall/proc.c:35-37 says an exiting task has been removed from the queue. It stays
  linked, and is the current task, until a later walk passes over it
  (`Kernel.TaskSystem.UnlinkDead`).
- kernel/fs/node.c:74 says children form a sorted list. They need not: the greatest name
  comes first and every other child is put second (`FsTree.LinkedShape`), so c, b, a linked
  in this order become c, a, b (`FsTree.Unsorted`). The list is descending if and only if no
  child found more than one greater name when it was linked (`FsTree.DescendingIff`), and
  ascending, as the scan suggests, only if all names are equal (`FsTree.AscendingIff`).
- arch/x86/vga_console.c:91 says scrolling does not move the cursor. It moves it up a row.
- `refs` is meant to count the table slots that hold a descriptor. It does not when a
  descriptor is duplicated, nor when a table is copied while a cell from `fdnext` on is in
  use, which is the case after every open (`Fdio.RunsExactIff` gives the exact guard,
  `Fdio.CloneAfterOpen` the failing history).
- `wait4` with WNOHANG blocks like any other call if there is a living child
  (`ProcessTheorems.Wait4NoChildren`, `ProcessLiveness.WnohangBlocks`).
- A `wait4` that blocks, or an `rt_sigsuspend`, can return if and only if a chain of living
  children leads from the caller to a task that can run (`ProcessLiveness.CallReturnsIff`).
  It sleeps forever if there is no living child (`ProcessLiveness.ChildlessSleeps`,
  `ProcessLiveness.ChildlessSuspends`), and also if there is one but all of them sleep
  forever (`ProcessLiveness.ParentSleepsToo`).
- `fcntl` with F_DUPFD returns 0 (kernel/io/fdio.c:49), where POSIX has the new number
  (`FdTables.FdSystem.FdDupfd`, `Fdio.DupIs`).
- A line edited on the console must not grow past the point where its start leaves the
  screen, or erasing it writes in front of the screen memory (`LineEditor.EchoBound` gives
  the exact length).

## Model

| member | source | states |
|---|---|---|
| TaskRing.RingRotate | kernel/list.h:3 | a circular list has no distinguished start: read from any node it is the same well-formed ring |
| TaskRing.ListInsertAfter | kernel/list.c:13-25 | inserting into a ring of any size, and into a node with both links NULL, gives one ring with the new node behind the given one |
| TaskRing.ListInsertBefore | kernel/list.c:27-29 | the new node comes directly in front of the given one |
| TaskRing.ListRemove | kernel/list.c:31-37 | the ring loses exactly the node, whose links become NULL; the only node of a singleton ring stays linked to itself |
| TaskRing.ListUnlink | kernel/proc/sched.c:14-18 | removal during the walk: the ring loses the node, and the node still leads to its old successor |
| Process.YieldMembers | kernel/proc/sched.c:11-18 | after a yield the ring is well formed and has lost exactly the dead tasks walked over |
| Process.YieldRing | kernel/proc/sched.c:8-30 | the task entered is the first runnable one behind the current task, which comes last; none before it was runnable |
| Process.YieldTasks | arch/x86/proc/task.c:13-23 | a yield changes no task but the one entered and the saved context of the one left |
| Process.ExitTasks | kernel/proc/task.c:56-70 | an exit changes two tasks at most: the caller, and a parent on the ring, which gets the pid, the status and signal 17 |
| Process.ImmediateBits | kernel/syscall/signal.c:13-17 | on the option bits themselves: bit 0 or bit 1, and no child counted |
| ProcessRuns.NeverStuck | kernel/kmain.c:59-62 | in every state of every run the walk finds a runnable task and terminates, also when the current task goes to sleep |
| ProcessRuns.EnteredClean | arch/x86/proc/task.c:21-22 | whatever task is entered is Ready, awaits nothing and has no signal pending |
| ProcessRuns.ForkKeepsCount | kernel/proc/task.c:89-91 | fork keeps childcount equal to the number of living children, for every task on the ring |
| ProcessRuns.ExitKeepsCount | kernel/proc/task.c:56-69 | so does exit |
| ProcessRuns.ExitKeepsRecords | kernel/proc/task.c:61-67 | every task on the ring has recorded the pid and status of the latest exit among its children |
| ProcessRuns.StepKeeps | kernel/proc/task.c:41-104 | every operation keeps the invariant: one ring with every living task exactly once, parents older than children, exact child counts, signals that can be pending, exit records, wait histories |
| ProcessRuns.RunsSafe | kernel/proc/task.c:32-137 | the invariant holds in every state of every run from boot |
| ProcessTheorems.Wait4ReportsLatestChild | kernel/syscall/signal.c:12-22 | in every run, what a blocked wait4 returns is the exit of a child of the caller that happened during the wait, with that child's exit code, and no other child of the caller exited after it |
| ProcessTheorems.Wait4NoChildren | kernel/syscall/signal.c:13-17 | with a non-blocking option wait4 returns 0 at once exactly when the caller has no living child |
| ProcessTheorems.YieldLowersDistance | kernel/proc/sched.c:11-28 | each yield brings a runnable task strictly closer to the front of the ring, or enters it |
| ProcessTheorems.ForkRaisesDistance | kernel/proc/task.c:41-43 | each fork puts exactly one task in front of every other |
| ProcessTheorems.ExitLeavesRunnable | kernel/proc/task.c:64-67 | the exit of one task leaves every other runnable task runnable |
| ProcessTheorems.ExitWakesWaiter | kernel/proc/sched.c:20-25 | no wakeup is lost: the exit of a child makes a parent that waits inside wait4 runnable |
| ProcessTheorems.ForkStarts | arch/x86/proc/task.c:25-36 | a forked task is a childless child of the caller, runnable and next on the ring; the caller goes on and nobody else changes |
| ProcessTheorems.BoundedWaiting | kernel/proc/sched.c:8-30 | over any stretch of a run, a runnable task that is not entered stays runnable and has seen fewer yields than its ring distance plus the forks |
| ProcessTheorems.SuspendSleeps | kernel/proc/task.c:134-137 | rt_sigsuspend leaves its caller asleep, with nothing pending and not current |
| ProcessTheorems.StaysAsleep | kernel/proc/sched.c:20-27 | no operation of another task but the exit of a child reaches a sleeper |
| ProcessTheorems.SuspendReturns | kernel/syscall/signal.c:28-31 | in every run, the caller of rt_sigsuspend is current again only after the exit of one of its children, and sleeps until then |
| ProcessTheorems.ExitWakesSleeper | kernel/proc/task.c:64-67 | the exit of a child makes a sleeping parent runnable, in rt_sigsuspend as in wait4 |
| ProcessLiveness.StepSticks | kernel/proc/task.c:56-137 | a set of tasks that sleep with nothing pending and contain their living children is kept by every operation of any other task, and none of them is entered |
| ProcessLiveness.Rescue | kernel/proc/sched.c:8-30 | from the end of a chain of living children that can run, preemptions and exits up the chain bring the sleeping task at its head back, still inside the same call |
| ProcessLiveness.CanReturnIff | kernel/syscall/signal.c:18-21 | in every reachable state, a task that sleeps in wait4 or rt_sigsuspend returns in some continuation if and only if a chain of living children leads from it to a task that can run |
| ProcessLiveness.CallReturnsIff | kernel/syscall/signal.c:12-31 | the same at the call, for every run: a call that blocks can return if and only if such a chain starts at a living child of the caller |
| ProcessLiveness.CallNeverReturns | kernel/syscall/signal.c:18-19 | otherwise the caller is current in no later state of the run |
| ProcessLiveness.WnohangBlocks | kernel/syscall/signal.c:13-19 | a run in which wait4 with WNOHANG blocks: fork, preempt, fork, then the call by the new parent |
| ProcessLiveness.ChildlessSuspends | kernel/syscall/signal.c:28-31 | a run in which a task without children calls rt_sigsuspend and no continuation lets it return |
| ProcessLiveness.ChildlessSleeps | kernel/syscall/signal.c:18-19 | a run in which a task without children calls wait4 and no continuation lets it return |
| ProcessLiveness.ParentSleepsToo | kernel/syscall/signal.c:18-19 | a run in which the caller has a living child and still no continuation lets it return, because the child waits for nobody |
| Kernel.TaskSystem.constructor | kernel/proc/sched.c:32-36 | the boot state: the kernel task alone, Ready, linked to itself |
| Kernel.TaskSystem.TaskGet | kernel/proc/task.c:45-54 | the walk terminates and returns the task with that pid if it is on the ring, NULL otherwise |
| Kernel.TaskSystem.TellParent | kernel/proc/task.c:61-69 | a parent on the ring gets the pid, the exit code and SIGCHLD, and one child less; nobody else changes |
| Kernel.TaskSystem.TaskExit | kernel/proc/task.c:56-72 | the heap after exit holds the state that Process.Exit gives |
| Kernel.TaskSystem.TaskClone | kernel/proc/task.c:74-92 | a new structure with the next pid, the current task as parent, and the inherited and reset fields |
| Kernel.TaskSystem.TaskInsert | kernel/proc/task.c:41-43 | the new task follows the current one on the ring; pids stay distinct and the ring well formed |
| Kernel.TaskSystem.TaskFork | arch/x86/proc/task.c:25-36 | the heap after fork holds the state that Process.Fork gives, and the new pid is the next one |
| Kernel.TaskSystem.TaskSignalExec | kernel/proc/task.c:110-118 | the pending signal is taken, and a wait for it is over |
| Kernel.TaskSystem.TaskEnter | arch/x86/proc/task.c:13-23 | CurrentTask changes, and a task that was stored here executes its pending signal, while a fresh clone does not |
| Kernel.TaskSystem.UnlinkDead | kernel/proc/sched.c:14-18 | a dead task leaves the ring, and either way its next leads to the task that stood behind it |
| Kernel.TaskSystem.Accept | kernel/proc/sched.c:20-27 | a task is accepted exactly when it is Ready or waits with a pending signal that the wait accepts; a waiter becomes Ready |
| Kernel.TaskSystem.FindRunnable | kernel/proc/sched.c:10-27 | the loop terminates at the first runnable task with exactly the dead tasks before it unlinked, although it removes nodes under its own walk |
| Kernel.TaskSystem.SchedYield | kernel/proc/sched.c:8-30 | the heap after kern_sched_yield holds the state that Process.Yield gives |
| Kernel.TaskSystem.TaskSigwait | kernel/proc/task.c:134-137 | the current task sleeps and another is entered |
| Kernel.TaskSystem.Wait4 | kernel/syscall/signal.c:12-19 | returns 0 at once, or sleeps for SIGCHLD and yields |
| Kernel.TaskSystem.Wait4Tail | kernel/syscall/signal.c:20-21 | pid and status are those recorded in the caller |
| Kernel.TaskSystem.RtSigsuspend | kernel/syscall/signal.c:28-31 | sleeps with the sigwait it finds, so any signal wakes it |
| KernelRuns.Perform | kernel/syscall/signal.c:12-31 | each operation on the heap is the corresponding step of a run, gives its caller what the run says, fork the new pid, and adds only new structures to the tasks |
| KernelRuns.Execute | kernel/proc/sched.c:32-36 | any run, of any length, carried out on the heap from boot ends with well-formed pointers that hold the last state of the run, in which the invariant holds, and every call gave its caller what the run says |
| KernelRuns.WaitsAnswered | kernel/syscall/signal.c:12-22 | the pid and status that the heap code returned from a blocked wait4 are those of the exit of a child of the caller during the wait |
| Fdio.CapDoubles | kernel/io/fdio.c:15-19 | the capacity is 16 times a power of two and doubling it is exact in 16 bits up to 32768 |
| Fdio.OpenedIs | kernel/io/fdio.c:10-32 | open returns the least free number from the hint on; every other number keeps its meaning; the table doubles exactly if it was full from the hint on |
| Fdio.OthersKeep | kernel/io/fdio.c:25-65 | no operation changes the table of another task |
| Fdio.DupIs | kernel/io/fdio.c:38-50 | dup makes the least free number from the requested one on stand for what the old number stands for; no other number, hint or descriptor changes |
| Fdio.CloseIs | kernel/io/fdio.c:52-65 | close makes exactly its number stand for nothing, and leaves the hint |
| Fdio.CloneIs | kernel/proc/task.c:93-96 | in a clone every number stands for what it stands for in the parent |
| Fdio.StepDevices | kernel/io/fdio.c:25-65 | after a step a descriptor was just opened with its device, or had the same device before |
| Fdio.DevicesAreOpened | kernel/io/fdio.c:25-32 | in every state of every run each descriptor has the device of the last open at its address, with no free in between |
| Fdio.StepConserves | kernel/io/fdio.c:25-65 | open, dup, close and clone keep, for each address, slots = counted references + uncounted copies |
| Fdio.RunsConserve | kernel/io/fdio.c:25-65 | that conservation law, and refs > 0 for every allocated descriptor, in every state of every run over all tasks |
| Fdio.CloseFrees | kernel/io/fdio.c:57-61 | a close frees the descriptor exactly when only uncounted copies are left; with none, exactly when it clears the last slot |
| Fdio.NumbersRise | kernel/io/fdio.c:10-32 | the numbers that successive opens give a task never go down |
| Fdio.CountsExactly | kernel/proc/task.c:93-101 | a step leaves every copy counted if and only if it is not a successful dup and not a clone of a table with a used cell from fdnext on |
| Fdio.NoneDangling | kernel/io/fdio.c:57-61 | while every copy is counted no table holds a freed descriptor |
| Fdio.RunsCounted | kernel/proc/task.c:97-101 | in a run whose steps meet that guard every copy is counted and refs is the number of slots at all times |
| Fdio.RunsExactIff | kernel/proc/task.c:97-101 | refs is the number of slots in all states of a run up to i if and only if every step before i meets the guard |
| Fdio.CloneAfterOpen | kernel/proc/task.c:97-101 | from any exactly counted state, open then clone then close in the parent frees a descriptor that the clone still holds |
| FdTables.FdTable.constructor | kernel/io/fdio.c:67-73 | an empty table of 16 with hint 0 |
| FdTables.FdTable.FdAlloc | kernel/io/fdio.c:10-23 | the scan and growth compute Fdio.Alloc with 16-bit counters |
| FdTables.FdSystem.FdOpen | kernel/io/fdio.c:25-32 | the open step of a run; the returned number was free and now stands for a new descriptor with one reference and the given device |
| FdTables.FdSystem.FdLookup | kernel/io/fdio.c:34-36 | what the number stands for |
| FdTables.FdSystem.FdDupfd | kernel/io/fdio.c:38-50 | the dup step of a run, and -1 exactly on an unused number |
| FdTables.FdSystem.FdClose | kernel/io/fdio.c:52-65 | the close step of a run, and -1 exactly on an unused number |
| FdTables.FdTable.Copy | kernel/proc/task.c:93-96 | the clone's table holds what the parent's held |
| FdTables.FdSystem.CountRefs | kernel/proc/task.c:97-101 | one reference more for every occurrence below the hint |
| FdTables.FdSystem.CloneTable | kernel/proc/task.c:93-102 | the clone step of a run |
| Vga.CellHolds | arch/x86/vga_console.c:41 | a cell holds the character in its low byte and attribute 7 above it, for ASCII; different characters have different cells |
| Vga.PlainAppears | arch/x86/vga_console.c:61-65 | ASCII text appears from the cursor on with attribute 7, cell by cell, and nothing else changes |
| Vga.LineControls | arch/x86/vga_console.c:47-58 | newline leads to the start of the next row and carriage return nowhere, and neither changes a cell |
| Vga.PrintErase | arch/x86/vga_console.c:52-56 | a backspace takes back a printed character and leaves 0x720 |
| Vga.PosAtNext | arch/x86/vga_console.c:43-65 | how each character of a sequence moves the cursor on the tape, by its code |
| Vga.CellsAreLastPuts | arch/x86/vga_console.c:43-65 | after any character sequence each cell holds what the last print or erase at it left, and the others are unchanged |
| Vga.MovedStays | arch/x86/vga_console.c:67-80 | one character keeps the cursor in the window exactly unless it is a backspace at the window origin; the window never moves up |
| Vga.SafeStays | arch/x86/vga_console.c:43-83 | every safe character sequence keeps the cursor in the window |
| Vga.UnsafeLeaves | arch/x86/vga_console.c:52-76 | every unsafe sequence takes it out |
| Vga.VgaConsole.constructor | arch/x86/vga_console.c:21-39 | a blank window at the top of a blank tape |
| Vga.VgaConsole.Clear | arch/x86/vga_console.c:85-89 | screen and hidden rows are blank, the cursor stays |
| Vga.VgaConsole.Scroll | arch/x86/vga_console.c:92-95 | the window moves down a row; the row copied in is blank |
| Vga.VgaConsole.BufPutc | arch/x86/vga_console.c:41 | the cell under the cursor changes, on the screen and on the tape, and no other |
| Vga.VgaConsole.Place | arch/x86/vga_console.c:44-65 | newline, backspace and printing act as on the tape |
| Vga.VgaConsole.Settle | arch/x86/vga_console.c:67-80 | wrapping keeps the cell under the cursor; scrolling happens exactly below the last row |
| Vga.VgaConsole.Putc | arch/x86/vga_console.c:43-83 | the 25x80 cells stay a window of the tape on which the same characters were typed |
| Vga.VgaConsole.Write | arch/x86/console.c:27-34 | the same for every safe sequence; the window never moves back up |
| LineEditor.SurvivorsTake | arch/x86/console.c:55-69 | the pending line is what remains when each backspace cancels the nearest uncancelled character before it |
| LineEditor.EditedLine | arch/x86/console.c:53-70 | a finished line is those survivors and the newline or NUL |
| LineEditor.EchoIs | arch/x86/console.c:55-69 | the echo is the input up to the terminator without exactly those backspaces that found an empty line |
| LineEditor.EchoAll | arch/x86/console.c:63 | without backspaces everything is echoed |
| LineEditor.EchoEnds | arch/x86/console.c:63-67 | the terminator is echoed last |
| LineEditor.NewlineEnds | arch/x86/console.c:63-67 | after a newline the cursor is at the start of the next row |
| LineEditor.SomeEdits | arch/x86/console.c:53-70 | on literal bytes: backspace, newline and NUL |
| LineEditor.EchoShows | arch/x86/console.c:53-70 | while a line of plain text is typed and edited the tape shows it as pending, then blanks as far as it ever went, and nothing else changes |
| LineEditor.EchoCursor | arch/x86/console.c:55-69 | while the line is pending the cursor is as far behind its start as the line is long, and the start is still shown |
| LineEditor.EchoSafe | arch/x86/console.c:53-70 | a read whose pending line fits into 25 rows from the cursor's column on never echoes a backspace at the window origin |
| LineEditor.EchoOverruns | arch/x86/console.c:55-62 | any longer line can be erased into the origin |
| LineEditor.EchoBound | arch/x86/console.c:53-70 | all lines of up to m pending characters echo safely if and only if m characters fit into 25 rows from the cursor's column on |
| LineEditor.TypedInputSafe | arch/x86/keymap.h:3-21 | input that comes through the keymap has no carriage return, so 24 rows of it are safe |
| Console.LatestGreatest | arch/x86/console.c:36-46 | no later put has an index congruent to the read counter |
| Console.LatestIsOwn | arch/x86/console.c:36-46 | the ring delivers the next unread character exactly while at most 256 are unread |
| Console.ConsoleInput.RbufPutc | arch/x86/console.c:36-38 | the ring holds the last 256 characters put |
| Console.ConsoleInput.RbufGetc | arch/x86/console.c:40-46 | returns the latest put whose index is congruent to the read counter modulo 256 |
| Console.ConsoleInput.Poll | arch/x86/console.c:53-71 | one round of the loop is one poll of the model; of the caller's buffer it writes only the next cell, and zeroes it on a backspace |
| Console.ConsoleInput.Read | arch/x86/console.c:48-73 | buffer, length, echo and ring after a read are those of the model, under any arrival of keys |
| Console.ReadsInOrder | arch/x86/console.c:36-73 | while the reader keeps up, a read consumes exactly the characters put from its start on, in order |
| Console.ReadReturnsLine | arch/x86/console.c:48-73 | a completed read returns the survivors of the input up to the first newline or NUL, and that terminator; it has echoed all of it but the backspaces that found an empty line |
| Console.ReadShows | arch/x86/console.c:48-73 | after a read of plain text ended by Enter the tape shows the line returned, without what was taken back, and the cursor is at the start of the row behind it |
| Console.ReadFinishes | arch/x86/console.c:48-73 | progress: once a terminator has arrived, the read finishes within as many polls as characters are unread up to it |
| Console.ReadWithEcho | arch/x86/console.c:48-73 | if the pending line fits into 25 rows from the cursor's column on, a read with its echo leaves the line on the tape as typed and erased, and the cursor is on the screen after every echoed character |
| Tmpfs.WrittenAt | kernel/fs/tmpfs.c:56-64 | a write changes exactly the bytes under it and the file never shrinks |
| Tmpfs.ReadAt | kernel/fs/tmpfs.c:66-73 | a read gets exactly the bytes from the cursor on, or as many as are left |
| Tmpfs.SeekRead | kernel/fs/tmpfs.c:75-84 | which bytes are read after a seek from the start, from the cursor and, counting backwards, from the end; no seek changes a byte |
| Tmpfs.WriteReadBack | kernel/fs/tmpfs.c:56-84 | write, seek back, read gives what was written |
| Tmpfs.WriteWrite | kernel/fs/tmpfs.c:56-64 | two writes in a row are one write of both |
| Tmpfs.ChunkedRead | kernel/fs/tmpfs.c:66-73 | reads in chunks of any sizes concatenate to one read |
| Tmpfs.BytesAreLastWrites | kernel/fs/tmpfs.c:56-84 | in every run each byte is that of the last write that covered it |
| Tmpfs.TmpFile.constructor | kernel/fs/tmpfs.c:35-40 | a new file is empty with its cursor at 0 |
| Tmpfs.TmpFile.WriteFile | kernel/fs/tmpfs.c:56-64 | the buffer after a write, grown or not, is the spliced byte sequence |
| Tmpfs.TmpFile.ReadFile | kernel/fs/tmpfs.c:66-73 | the bytes from the cursor on, as many as there are |
| Tmpfs.TmpFile.SeekFile | kernel/fs/tmpfs.c:75-84 | the cursor moves as asked; from the end it counts back |
| FsTree.LessIs | kernel/fs/node.c:65-66 | names are ordered by the first unsigned byte in which they differ, and a name comes before its extensions |
| FsTree.StopAtEnds | kernel/fs/node.c:65-66 | the scan for the insertion point stops at the first child or runs off the end |
| FsTree.LinkedShape | kernel/fs/node.c:57-80 | a new child becomes the first if its name is the greatest, and the second otherwise |
| FsTree.LinkedHead | kernel/fs/node.c:57-80 | the greatest name stays first |
| FsTree.LookupLinked | kernel/fs/node.c:57-80 | linking changes no other name's lookup; its own name then finds the new child unless the first child bears it |
| FsTree.LinkedAllMembers | kernel/fs/node.c:57-80 | a directory holds exactly the children linked into it, each as often as it was linked |
| FsTree.LookupAll | kernel/fs/node.c:27-38 | with different names every linked child is found, and nothing else |
| FsTree.DescendingLinked | kernel/fs/node.c:57-80 | linking a child leaves the list descending if and only if it was and at most one name in it is greater |
| FsTree.DescendingIff | kernel/fs/node.c:57-80 | the list is descending if and only if each child, when linked, found at most one greater name among those before it |
| FsTree.AscendingIff | kernel/fs/node.c:57-80 | the list is ascending if and only if all names are equal |
| FsTree.Unsorted | kernel/fs/node.c:57-80 | linking c, b, a gives c, a, b, which is neither |
| FsTree.ComponentsJoin | kernel/fs/node.c:21-42 | a slash separates components, so leading, trailing and repeated slashes do not matter |
| FsTree.TokenStep | kernel/fs/node.c:21-42 | strtok yields the maximal slash-free runs in order |
| FsTree.SomeComponents | kernel/fs/node.c:21-42 | on literal bytes: the components of "/a//b/" |
| FsTree.LocateJoined | kernel/fs/node.c:17-46 | locating p/q is locating q from where p leads |
| FsTree.FindChild | kernel/fs/node.c:25-32 | the first child with the name, or NULL |
| FsTree.Locate | kernel/fs/node.c:17-46 | the fold of one-level lookup over the components of the path |
| FsTree.LinkChild | kernel/fs/node.c:57-80 | the sibling list stays finite and acyclic and gains the child at the place FsTree.Linked says |
| FsTree.LinkInto | kernel/fs/node.c:57-80 | linking keeps the whole tree: every directory's list is intact, no two share a child, each has its greatest name first |
| FsTree.WalkUnchanged | kernel/fs/node.c:17-80 | after linking, every path without the new name leads where it led, from any node |
| Cpio.StepAdvances | kernel/fs/cpiofs.c:61-96 | with a high size word below 0x8000 a step advances by an even amount of at least 26 bytes, past the data |
| Cpio.LengthWords | kernel/fs/cpiofs.c:80 | the length is the two size words, the high one first, as a signed 32-bit number |
| Cpio.MagicBytes | kernel/fs/cpiofs.h:7 | a header is accepted exactly if it starts with the bytes of octal 070707, the low one first |
| Cpio.EntryBytes | kernel/fs/cpiofs.h:9-21 | the encoder on literal bytes: header, padded name and data of a file |
| Cpio.TrailerBytes | kernel/fs/cpiofs.c:62-65 | the last entry of every archive on literal bytes |
| Cpio.RegionsInOrder | kernel/fs/cpiofs.c:67-97 | file data lie inside the image, pairwise disjoint, in archive order |
| Cpio.MountSucceedsIff | kernel/fs/cpiofs.c:45-65 | a mount succeeds if and only if every header up to and including the trailer has the right magic |
| Cpio.EncodedWalk | kernel/fs/cpiofs.c:45-98 | walking an encoded archive finds exactly its entries: names in order, and each entry's own bytes |
| Initrd.UnpackFile | kernel/fs/cpiofs.c:55-98 | NULL, end, or one more node for the file found, linked into the directory |
| Initrd.Mount | kernel/fs/cpiofs.c:40-53 | the walk terminates; NULL exactly on a bad magic; otherwise one unopened node per file, in the order linking gives |
| Initrd.ReadFile | kernel/fs/cpiofs.c:104-111 | the file's bytes from its cursor on, as many as there are |
| Initrd.LocateFile | kernel/fs/node.c:17-46 | a slash-free path finds the file so named in the mounted directory, or nothing |
| Initrd.ReadByName | kernel/fs/cpiofs.c:40-111 | round trip: encode, mount, locate and read gives back exactly the entry's bytes, and an unknown name is not found |

## Left out

- Kernel.TaskSystem.TaskSignalExec: does not call the signal handler, which is arbitrary user code; a handler that makes system calls is not part of a run.
- Kernel.TaskSystem.TaskClone: does not copy brk, mmapbrk, sid, pgid, sigset, sigact and cwd, which nothing modelled here reads; the descriptor table is copied in `FdTables`.
- Kernel.TaskSystem.Wait4Tail: is one step; a preemption between its two reads is not modelled.
- FdTables.FdTable.FdAlloc: reads the cell behind a full table as NULL, where the C code reads past the buffer, and requires room below 65536 descriptors.
- FdTables.FdSystem.FdDupfd: requires a free cell between `to` and the capacity, since the C code scans past the buffer otherwise.
- Console.ConsoleInput.Read: takes a finite list of key arrivals and returns -1 when it is used up, where the C code would poll on; the caller's buffer must hold the deepest pending line, since the C code ignores its length.
- FsTree.Locate: requires a path with at least one component; strcmp on a NULL token is undefined in C.
- FsTree.FileDevice keeps its data as an offset into the image; the position of a cpio file is set by Tmpfs-style seeks that are not repeated here.
- Overflow of next_pid, of refs and of the two ring counters, allocation failure, and seeks outside the file.
- The ring of tasks is linked through the task structures themselves; the pointer arithmetic of list_elem is not modelled.
- Page tables, the frame allocator, brk and mmap, ELF loading, context switching in assembly, interrupt controllers and port I/O.
- devfs, uname, user and group calls, system call dispatch, module initialisation: single-branch code.
- tmpfs_close_file, cpiofs_close_file and the sys_ wrappers around descriptors.
