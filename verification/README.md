# Yalnix: proofs about the kernel and its C library

This project models two parts of the Yalnix repository in Dafny and proves properties of them.

* The kernel of `sample/`: the life cycle of processes and the scheduler (fork, exit, wait, clock
  dispatch), virtual memory (frame bitmap, page tables, kernel-stack slots, fork's page copy, context
  switch, both break calls, program loading with its argument block), and the linked queue underneath.
* Parts of the C library of `etc/yuserlib/common/`: the bounded printer `vsnprintf`/`format_int`, the
  integer parser `strntoumax` with `vsscanf`'s integer branch, the substring search `memmem`, and the
  in-place tokeniser `strtok`/`strsep`/`strpbrk`/`__strxspn`.

`dafny verify dfyconfig.toml` checks everything within Dafny's default time limit. Every proof also
stays within a fixed resource limit:
`dafny verify --resource-limit 2000000 --verification-time-limit 0 --warn-contradictory-assumptions dfyconfig.toml`.

## How it is organised

| file | contents |
|---|---|
| `Fifo`, `Queue`, `QueueRuns` | meaning of the queue on sequences; the linked list on heap nodes with explicit freeing; any mix of operations on several queues |
| `Processes`, `ProcessInvariants`, `ProcessTheorems`, `StepWrites` | processes as a state machine on values; what every step keeps; what follows for whole runs; what each step writes |
| `Kernel` | the same steps on process blocks in the heap, each tied to its step |
| `Memory`, `ProgramLayout`, `MemorySteps`, `MemoryTheorems` | frames, page tables and kernel stacks on values; steps; invariant; theorems over runs |
| `MemoryOutcomes` | when the break calls and `LoadProgram` succeed, and what they leave, page by page |
| `FrameCounts`, `FrameLeaks` | how many frames each operation takes and gives back; frames that stay marked for nothing, per step and over runs |
| `MemoryLimits` | where the memory operations go wrong: on which inputs exactly, and what it costs |
| `Machine` | the memory operations as loops over arrays, each tied to its relation |
| `ArgStack`, `ProgramImage` | the argument block that `LoadProgram` builds; the same block read through the loaded page table |
| `System` | scheduler and memory running together |
| `PrintInt`, `BoundedPrint`, `IntText` | what an integer conversion prints; `format_int` on a bounded buffer; the same text in positional notation |
| `Printf`, `Directives`, `FormatMeaning` | reference reading of a format and the `vsnprintf` state machine; the parts of a directive; what every directive prints, uses and stores |
| `ParseInt`, `ReadInt`, `RoundTrip` | `strntoumax`, `scan_int`; how they read any text; printing and reading back |
| `IsoPrint`, `IsoFormat`, `IsoParse`, `IsoStrtok` | the C standard's integer conversions, its integer directives, `strtoumax` and `strtok`; on which inputs the code agrees with them |
| `Memmem`, `Tokens` | substring search; tokenising |

Operations that the source performs in place are methods on classes and arrays. Their `ensures` clauses
equate the new state with a step function or relation on values, and the theorems are about those.

Pids, addresses and counters are unbounded integers except where the width decides the result: the
64-bit arithmetic of the printer and the parser, the 32-bit rounding of addresses, the words of the
argument block and the truncating stores of `scan_int` are written out. The machine is 32-bit. In the
printer and the parser a `char` is a byte.

## What the model assumes

* A new pid is not in use. Idle only pauses, so only other processes call the kernel
  (`sample/hardware.c:121-128`).
* `first_free_frame_idx` has no bound check (`sample/hardware.c:103-112`): operations that allocate
  require enough free frames. Memory allocation by `malloc` succeeds.
* A program that passes the size check has text, which is not empty and starts at the first Region 1 page,
  and its data follows text without a gap. Otherwise `LoadProgram` leaves entries below the break invalid
  with a stale frame number (`sample/load_program.c:192-196`), and lowering the break would free frames of
  others. Page counts lie below 2^31.
* When the kernel page table is built the kernel break is page-aligned and lies below the two pages that are
  used to copy, and it does not move before the switch to virtual memory (`MemoryLimits.EarlyBreakExact` and
  `MemoryLimits.EarlyHeapIsTaken` say what happens if it does).
* The translation cache agrees with the tables after each flush.
* `Vsnprintf` is specified for calls that C defines: the arguments are there and of the right kind.

## What the code does differently from its documentation or from the C standard

* `SetKernelBrk` accepts addresses up to three pages below the limit, but `KCCopy` also uses the page
  four below it. `MemorySteps.NextKeeps` shows that such a call is the only step that breaks the memory
  invariant, and that it always does. `MemoryLimits.KernelHeapLosesPage` shows the page that is lost for
  address `0xF8001`; after a fork and a lower break frame 0 is free although kernel text lies in it, and the
  next process to grow its heap gets it (`MemoryLimits.OverrunFreesText`, `MemoryLimits.OverrunSharesFrame`).
* `SetKernelBrk` has no lower bound: a call below the end of kernel text or data unmaps them.
  `MemoryLimits.KernelImageExact` says for which addresses they stay mapped one to one.
* Before virtual memory is on `SetKernelBrk` only moves the break. If it is raised between the building of the
  kernel page table and the switch (where `sample/hardware.c:424` allocates), it covers pages that are not
  mapped, and idle's stack page gets the frame of the first of them (`MemoryLimits.EarlyBreakExact` has the
  condition, `MemoryLimits.EarlyHeapIsTaken` the frame). `KernelStart` also sets the break back after its first
  allocations (`sample/hardware.c:358`); `MemoryLimits.ResetExact` says when their pages are mapped nevertheless.
* Frames are lost. Every fork loses exactly two, because `create_process` takes a kernel stack and `KCCopy`
  replaces it; exit loses all frames of the process; a break that is raised over mapped pages loses theirs.
  `FrameLeaks.StepLeaks` is exact for every step, `FrameLeaks.LeaksFromBoot` for every run from boot.
* `KernelFork` copies neither `brk` nor `region_1_sp`. `MemoryLimits.ForkLosesLayout` says exactly
  when the child's bounds still describe its pages, `MemoryLimits.ForkedChildLosesPages` what the child
  loses when it first raises its break.
* `qconcat` is documented to deallocate the second queue, but leaves an empty one open.
* `strtok` also clears the delimiters in front of a token (`IsoStrtok.LeadingDelimiter`). It always returns
  what section 7.24.5.8 of ISO C11 says. One call leaves the same buffer if and only if the string does not
  start with a delimiter (`IsoStrtok.OneCallAgrees`), a run of calls if and only if what they have gone over
  neither starts with a delimiter nor has two next to each other (`IsoStrtok.RunAgrees`).
* `memmem` never finds an empty needle.
* `scan_int` succeeds without having read a digit exactly for a sign with no digit behind it and, in base 16
  or 0, for a `0x` with no hexadecimal digit behind it (`ParseInt.SucceedsDigitless`, with the inputs
  `ParseInt.LoneSign` and `ParseInt.BarePrefix`).
* `strntoumax` gives what section 7.8.2.3 of ISO C11 says of `strtoumax` if and only if no backspace or
  no-break space stands in front, every `0x` has a hexadecimal digit behind it, no sign or space stands
  without a number, and the number fits 64 bits or happens to wrap around to the largest one
  (`IsoParse.AgreesWithStandard`).
* `format_int` prints what section 7.21.6.1 of ISO C11 says if and only if no tick mark is due, zero is
  printed without `0x` and not with precision 0 (except as octal with `#`), an unsigned number gets no sign
  other than a space that padding hides, and no precision stands beside a zero flag that pads
  (`IsoPrint.AgreesWithStandard`; `IsoPrint.AsStandard` is the condition in full). What it prints on all
  inputs is `IntText.IntegerText`. `IsoFormat.DirectiveAgrees` and `IsoFormat.FormatAgrees` carry the condition
  over to directives with their flags, star arguments and length modifiers, and to formats.

## Model

| member | source | states |
|---|---|---|
| LinkedQueue.Queue.constructor | sample/queue.c:33-39 | a new queue is empty |
| LinkedQueue.Queue.Put | sample/queue.c:73-96 | appends at the tail, also when `back` dangles after the queue was emptied |
| LinkedQueue.Queue.Get | sample/queue.c:105-121 | takes the head and frees its node once; nothing from an empty queue |
| LinkedQueue.Queue.SearchFor | sample/queue.c:150-175 | the first element that the search function accepts, or none when there is none |
| LinkedQueue.Queue.IsEmpty | sample/queue.c:278-289 | true exactly when the queue holds nothing |
| LinkedQueue.Queue.Remove | sample/queue.c:183-248 | drops the first accepted element only, keeps the order of the rest, `back` is the last node afterwards |
| LinkedQueue.Queue.RemoveBehindFront | sample/queue.c:223-247 | the same for the part of the queue behind the front node |
| LinkedQueue.Queue.Close | sample/queue.c:46-66 | every node is freed exactly once, and the queue |
| LinkedQueue.Concat | sample/queue.c:255-271 | the first queue gets the elements of the second in order, in new nodes behind its own; a second queue that was not empty is closed with all nodes freed, an empty one stays open and usable |
| LinkedQueue.PutAll | sample/queue.c:258-270 | the loop appends every element of the second queue to the first, in new nodes; the second queue is unchanged |
| QueueRuns.PerformAll | sample/queue.c:73-271 | any mix of put, get, search, remove and concat on any number of queues, each sharing no node with the others, gives the answers and the contents of the same operations on sequences |
| QueueRuns.Perform | sample/queue.c:73-271 | one operation of such a mix; afterwards the open queues are valid again and share no node |
| QueueRuns.RunConserves | sample/queue.c:73-271 | over any mix, every element has been taken out or is still stored as often as it was put |
| Fifo.WithoutMultiset | sample/queue.c:183-248 | removal takes out exactly one occurrence, or nothing when nothing is accepted |
| KernelObjects.Kernel.constructor | sample/hardware.c:343-470 | boot gives the initial state of the machine: idle runs, init is ready |
| KernelObjects.Kernel.SwitchToNextReadyProcess | sample/kernel_context.c:109-160 | performs the scheduler step: requeue at the tail unless parked, take the head, resume where that process left the kernel |
| KernelObjects.Kernel.RequeueAndTake | sample/kernel_context.c:113-132 | the queue part of the scheduler: who is requeued and which process is taken |
| KernelObjects.Kernel.Requeue | sample/kernel_context.c:113-116 | the running process joins the ready queue at the tail unless it is idle, blocked or defunct |
| KernelObjects.Kernel.TakeReady | sample/kernel_context.c:118-132 | the head of the ready queue is taken, nothing from an empty one |
| KernelObjects.Kernel.TrapClock | sample/traps.c:105-110 | a clock tick is the scheduler step and keeps the invariant |
| KernelObjects.Kernel.KernelFork | sample/process_coord_syscalls.c:20-118 | performs the fork step and keeps the invariant |
| KernelObjects.Kernel.CreateProcess | sample/hardware.c:231-273 | a fresh process block with empty child queues and no parent; all others unchanged |
| KernelObjects.Kernel.AddChild | sample/process_coord_syscalls.c:92-107 | what only the parent runs: the child joins its queue and points back to it |
| KernelObjects.Kernel.KernelExit | sample/process_coord_syscalls.c:133-222 | performs the exit step and keeps the invariant |
| KernelObjects.Kernel.LeaveCurrent | sample/process_coord_syscalls.c:145-213 | everything exit does before the switch, for a live and for a defunct parent |
| KernelObjects.Kernel.MoveToDeceased | sample/process_coord_syscalls.c:184-192 | the exiting process leaves its parent's children and joins the deceased ones at the tail |
| KernelObjects.Kernel.Wake | sample/process_coord_syscalls.c:198-209 | a parent that is blocked becomes ready at the tail, any other is left alone |
| KernelObjects.Kernel.KernelWait | sample/process_coord_syscalls.c:224-279 | performs the wait step and keeps the invariant |
| KernelObjects.Kernel.ReapFirst | sample/process_coord_syscalls.c:246-253 | takes the first deceased child with its exit code, or reports the error |
| KernelObjects.Kernel.BlockCurrent | sample/process_coord_syscalls.c:260-267 | the caller joins the blocked queue and will resume inside wait |
| KernelObjects.Kernel.AttachToIdle | sample/hardware.c:494-496 | init becomes a child of idle when it first runs |
| ProcessInvariants.StepSafe | sample/process_coord_syscalls.c:20-279 | no enabled step goes wrong in a state with the invariant, and the next state has it |
| ProcessInvariants.RunSafe | sample/process_coord_syscalls.c:20-279 | the same for every run |
| ProcessInvariants.KernelNeverFaults | sample/process_coord_syscalls.c:164-219 | from boot no run meets a null parent, a freed queue or page table, or a process missing from its parent's children |
| ProcessTheorems.ExactlyOnePlace | sample/kernel_context.c:111-152 | a created process other than idle is exactly once in exactly one of running, ready, blocked, defunct; idle is in no queue |
| ProcessTheorems.ChildIffAliveWithParent | sample/process_coord_syscalls.c:92-102 | c is in the children of a live p if and only if c is alive and p is its parent, and at most once |
| ProcessTheorems.StepShape | sample/kernel_context.c:115-138 | a step adds to the ready queue only at the tail, and takes its head exactly if it ends in the scheduler |
| ProcessTheorems.Progress | sample/process_coord_syscalls.c:255-267 | from any live process a chain of live children leads to one that runs or is ready |
| ProcessTheorems.SomebodyCanRun | sample/process_coord_syscalls.c:172-219 | in every reachable state with a live process other than idle, one runs or is ready |
| ProcessTheorems.IdleOnlyWhenAllAreDead | sample/kernel_context.c:134-138 | the scheduler falls back to idle only when no other process is alive |
| ProcessTheorems.MovesUp | sample/kernel_context.c:115-138 | one step moves a ready process up by one place exactly when it dispatches |
| ProcessTheorems.StaysInLine | sample/kernel_context.c:115-138 | over a run a ready process has moved up by the number of dispatches |
| ProcessTheorems.BoundedWaiting | sample/kernel_context.c:115-138 | a process at index i of the ready queue runs after exactly i + 1 dispatches and not before, whatever happens in between |
| ProcessTheorems.BlockedHasLiveChild | sample/process_coord_syscalls.c:255-267 | a blocked process has no deceased child, and a live one that is younger than itself |
| ProcessTheorems.WokenWaiterReaps | sample/process_coord_syscalls.c:267-277 | a woken waiter takes its first deceased child with its exit code; the error there cannot occur |
| ProcessTheorems.WaitOutcome | sample/process_coord_syscalls.c:236-268 | wait fails exactly when the caller has no child of either kind, and changes nothing else; it takes the first deceased child out of the queue and returns it with its code if there is one; otherwise the caller blocks |
| ProcessTheorems.ChildrenAreConserved | sample/process_coord_syscalls.c:183-193 | forked children are the live, the deceased and the reaped ones together; each exit is reaped at most once, in exit order, with its code |
| ProcessTheorems.StepHistory | sample/process_coord_syscalls.c:175-196 | for every process the log of reaped children grows by exactly what wait returns to it in the step, the log of exits by exactly the exits of its children, the log of births by exactly its own fork (for idle: by init); defunct processes are left alone |
| ProcessTheorems.LogsOver | sample/process_coord_syscalls.c:20-279 | the same over a run: what was reaped and what exited is what wait returned and which children exited, in order |
| ProcessTheorems.WaitReturnsOnce | sample/process_coord_syscalls.c:236-277 | over any run in which p lives, what wait returns to p is a front part of its children's exits in exit order with their statuses; no child is returned twice, nor one returned before |
| ProcessTheorems.ForkReturnsTwice | sample/process_coord_syscalls.c:91-117 | fork returns the child's pid to the parent, and 0 to the child when it first runs, after as many dispatches as processes were ready before it |
| ProcessTheorems.DefunctForGood | sample/kernel_context.c:113-115 | over any run a defunct process is never dispatched again and its block never written |
| StepWrites.StepWritesExactly | sample/process_coord_syscalls.c:145-279 | for every process: its exit code and the release of its queues change by its own exit under a live parent only; its child queues by births, exits and what wait returns, in order; its parent only for init; blocked and defunct queue change at the tail, apart from a parent that is woken |
| StepWrites.ForkMakes | sample/process_coord_syscalls.c:20-107 | a new child has no children, no exit code and the running process as parent, and joins the tail of the ready queue |
| MachineObjects.Machine.KernelStart | sample/hardware.c:357-457 | kernel pages one to one with their protections, idle with one stack page in the first free frame; exactly their frames are marked; the memory invariant holds; the count of free frames |
| MachineObjects.Machine.MapKernel | sample/hardware.c:374-415 | the page-table loop: which kernel pages are valid, with which protection, and which frames are marked |
| MachineObjects.Machine.CreateIdle | sample/hardware.c:135-168 | idle gets one writable stack page in the first free frame, whatever the kernel break has done since the table was built; exactly one more frame is marked |
| MachineObjects.Machine.FirstFreeFrame | sample/hardware.c:103-112 | the lowest free frame is marked and returned |
| MachineObjects.Machine.NewKernelStack | sample/hardware.c:176-199 | two distinct free frames, the lowest ones, mapped writable |
| MachineObjects.MemBlock.constructor | sample/hardware.c:231-259 | a new process has no valid page and the default bounds |
| MachineObjects.Machine.CopyAddressSpace | sample/process_coord_syscalls.c:42-81 | each valid page is copied with its protection into a distinct free frame; used frames keep their contents; the copying page ends invalid |
| MachineObjects.Machine.KCCopy | sample/kernel_context.c:54-104 | the new process gets its own copy of both stack pages; the copying pages end invalid, nothing else in the kernel table changes |
| MachineObjects.Machine.KernelFork | sample/process_coord_syscalls.c:20-84 | all of fork's memory work is the relation that the theorems use, exact on the bitmap, and keeps the invariant; it takes four frames and one for each page of the parent |
| MachineObjects.Machine.CreateInit | sample/hardware.c:461-474 | init is cloned from idle without pages; this takes four frames |
| MachineObjects.Machine.Start | sample/hardware.c:338-474 | the memory part of the boot as a whole, from the number of frames alone: idle runs, init is cloned, the invariant holds, seven frames and the kernel's are taken |
| MachineObjects.Machine.CloneCurrent | sample/process_coord_syscalls.c:29-84 | the clone of the running process is registered and no other block changes |
| MachineObjects.Machine.KCSwitch | sample/kernel_context.c:22-52 | the running process's stack entries are saved in its block and the next one's put in place |
| MachineObjects.Machine.RetireCurrent | sample/process_coord_syscalls.c:181-219 | the exiting process's address space is gone after the switch |
| MachineObjects.Machine.KernelBrk | sample/process_coord_syscalls.c:288-351 | succeeds if and only if the rounded address lies between the start of Region 1 and the stack bound; then the pages between the breaks are mapped or unmapped, page by page as `MemoryOutcomes.BrkOutcome` says; keeps the invariant; the count of free frames changes by exactly the pages |
| MachineObjects.Machine.MoveBrk | sample/process_coord_syscalls.c:313-344 | once accepted, exactly the pages between the old and the new break are mapped or unmapped |
| MachineObjects.Machine.SetKernelBrk | sample/hardware.c:278-336 | before virtual memory is on only the rounded break is recorded; afterwards success and every page are as `MemoryOutcomes.KernelBrkOutcome` says, and the invariant holds if and only if the call failed or the address is at most four pages below the limit |
| MachineObjects.Machine.MoveKernelHeap | sample/hardware.c:293-334 | the three branches once virtual memory is on: raise, lower, refuse |
| MachineObjects.Machine.MapPages | sample/process_coord_syscalls.c:337-343 | a range of pages gets distinct frames that were free, and exactly those are marked |
| MachineObjects.Machine.UnmapPages | sample/process_coord_syscalls.c:322-328 | a range of pages is reset and exactly its frames are free again |
| MachineObjects.Machine.TearDown | sample/load_program.c:187-197 | every valid page's frame is given back; entries become invalid and keep their stale frame |
| MachineObjects.Machine.BuildAddressSpace | sample/load_program.c:187-303 | text, data and stack pages in distinct frames with their protections, every other page invalid; exactly these frames are marked once the old ones are given back |
| MachineObjects.Machine.LoadProgram | sample/load_program.c:69-251 | a linked program is loaded if and only if there is room for it, with every page, break and stack bound as `MemoryOutcomes.LoadOutcome` says, and otherwise nothing changes; keeps the invariant; the count of free frames gains the old pages and loses the new ones |
| ProgramLayout.GuardPage | sample/load_program.c:129-134 | the check leaves at least one page between data and stack |
| ProgramLayout.StackPagesCover | sample/load_program.c:107-124 | the stack pointer is a multiple of 8, below the strings, and inside the stack pages |
| MemoryOutcomes.StackPointerExact | sample/load_program.c:88-124 | the stack pointer is the highest multiple of 8 with room for the strings, argc, the pointers, two nulls and 32 words |
| MemoryOutcomes.FitsExactly | sample/load_program.c:82-134 | a linked program is accepted if and only if its entry lies in Region 1 or above and some page lies behind its data and wholly below the page of the stack pointer |
| MemoryOutcomes.LoadDoes | sample/load_program.c:69-303 | then text is executable, data and the pages from the one of the stack pointer up to the limit are writable, in frames that were free, every other page is invalid, and break and stack bound are the end of the data and the page below the stack; a refused program changes nothing |
| MemoryOutcomes.BrkDoes | sample/process_coord_syscalls.c:288-351 | a break call succeeds if and only if the rounded address lies between the start of Region 1 and the stack bound; then every page below it is valid, pages given up are invalid with their frames free, pages gained have frames that were free, and no other page changes; a refused call changes nothing |
| MemoryOutcomes.RaisedAndLowered | sample/process_coord_syscalls.c:313-344 | a break raised over unmapped pages and lowered again succeeds both times and restores the process's memory and the number of free frames |
| MemoryOutcomes.KernelBrkDoes | sample/hardware.c:293-335 | the same for the kernel break, which succeeds if and only if the address is below the break, or above it and more than three pages below the limit |
| MemorySteps.NextKeeps | sample/kernel_context.c:22-104 | fork, boot, switch, exit, both breaks, exec and stores keep exclusivity, marking, stacks and breaks, except exactly a kernel break call that reaches the pages used to copy |
| MemorySteps.BootKeeps | sample/hardware.c:374-457 | the boot state, in which exactly the mapped frames are marked, has the invariant |
| MemorySteps.KernelBrkExact | sample/hardware.c:293-327 | a successful call keeps the invariant if and only if the address is at most four pages below the limit |
| MemoryTheorems.RunKeepsExactly | sample/hardware.c:278-336 | the invariant holds all along a run if and only if no step of it is such a call |
| MemoryTheorems.FramesAreExclusive | sample/hardware.c:278-336 | over any run from boot without such a call no frame backs two distinct pages, and every mapped page's frame is marked used |
| MemoryTheorems.StepIsolates | sample/kernel_context.c:22-104 | no step of the running process changes entry, protection or contents of another process's page |
| MemoryTheorems.SwitchedOutUnchanged | sample/kernel_context.c:22-52 | over any run a process that does not run keeps its kernel stack and its Region 1 pages |
| MemoryTheorems.ForkIsEqualAndIsolated | sample/process_coord_syscalls.c:42-84 | the child's view equals the parent's page by page, its stack is the parent's at the copy, the parent is unchanged, no frame is shared, the copying pages end invalid |
| MemoryTheorems.StackSlotsFollow | sample/kernel_context.c:39-51 | after a switch the two slots hold the next process's own stack, and nobody's pages changed |
| MemoryTheorems.StackStays | sample/kernel_context.c:22-104 | no step of any process changes which frames hold the kernel stack of a process that lives through it |
| MemoryTheorems.StackStaysOver | sample/kernel_context.c:22-104 | over any run in which p lives, also while p runs, its kernel stack is in the same two frames; whenever p runs the two slots hold p's own entries |
| MemoryTheorems.ForkedStackStays | sample/kernel_context.c:54-104 | from a fork on these are the two frames, free before, that KCCopy gave to the child |
| MemoryTheorems.LayoutStays | sample/process_coord_syscalls.c:297-344 | once laid out by a load, a process's break and stack bounds describe its pages after every step of anybody |
| MemoryTheorems.HeapAndStackStayApart | sample/load_program.c:124-134 | from a load on, over any run: break aligned and at most the stack bound, exactly the pages below one and above the other mapped, an unmapped page between |
| FrameCounts.SpawnCount | sample/process_coord_syscalls.c:20-84 | fork and boot take exactly four frames and one for each page of the source |
| FrameCounts.BrkCount | sample/process_coord_syscalls.c:297-344 | a break call takes or gives back exactly one frame for each page between the breaks |
| FrameCounts.KernelBrkCount | sample/hardware.c:293-327 | the same for the kernel break |
| FrameCounts.LoadCount | sample/load_program.c:187-303 | exec gives back one frame for each old page and takes one for each page of the program |
| FrameCounts.BootCount | sample/hardware.c:374-457 | boot takes the kernel's pages, two stack pages and idle's page |
| FrameLeaks.SpawnLeaks | sample/hardware.c:231-259 | every fork leaves exactly two frames marked for nothing, the lowest that were free |
| FrameLeaks.ExitLeaks | sample/process_coord_syscalls.c:175-219 | exit leaves exactly the frames of the process marked for nothing: its pages and its stack |
| FrameLeaks.StepLeaks | sample/process_coord_syscalls.c:20-351 | every step: what is lost stays lost, and in addition exactly as many frames are lost as the step's own formula says |
| FrameLeaks.LeaksFromBoot | sample/hardware.c:338-518 | over any run from boot the number of frames marked for nothing is the sum of these losses |
| MemoryLimits.ForkLosesLayout | sample/hardware.c:248-252 | after a fork the child's bounds describe its pages if and only if the parent had no page at all |
| MemoryLimits.DefaultBreakReplacesPages | sample/process_coord_syscalls.c:297-344 | the first break call of a process with the default break replaces exactly its mapped pages below the new break; their frames stay marked and back nothing |
| MemoryLimits.ForkedChildLosesPages | sample/process_coord_syscalls.c:42-81 | fork, switch to the child, first raise of its break: the copies of the parent's pages below the new break are lost |
| MemoryLimits.KernelHeapLosesPage | sample/hardware.c:293-309 | a concrete address beyond the bound: the next fork takes a page away from the kernel heap |
| MemoryLimits.OverrunFreesText | sample/hardware.c:312-327 | such a call, a fork, a lower kernel break: frame 0 is free and the next to be allocated although kernel text is mapped to it |
| MemoryLimits.OverrunSharesFrame | sample/process_coord_syscalls.c:332-343 | the next process that grows its heap then has a page in the frame of kernel text |
| MemoryLimits.KernelImageExact | sample/hardware.c:312-327 | after a successful kernel break call the first n kernel pages are mapped one to one if and only if the address lies in or above the last of them |
| MemoryLimits.KernelImageStays | sample/hardware.c:374-415 | over any run in which no kernel break call cuts into them they stay mapped one to one |
| MemoryLimits.KernelImageFromBoot | sample/hardware.c:374-415 | the same for runs from boot and all pages that the kernel has there |
| MemoryLimits.EarlyBreakExact | sample/hardware.c:284-290 | calls between the building of the kernel page table and the switch to virtual memory: the state with idle created has the invariant if and only if they have not raised the break |
| MemoryLimits.EarlyHeapIsTaken | sample/hardware.c:417-453 | if they have raised it, the first page that they added is not mapped and idle's stack page gets its frame |
| MemoryLimits.ResetExact | sample/hardware.c:344-358 | what the allocations before the reset of the break had added is mapped if and only if the calls after the reset have raised the break as far again |
| ArgStack.CountBytes | sample/load_program.c:88-93 | the bytes of all arguments with their terminators |
| ArgStack.SaveArguments | sample/load_program.c:157-173 | the buffer holds the arguments one after the other with their terminators |
| ArgStack.BuildArguments | sample/load_program.c:325-338 | the block is in place between the stack pointer, which is 8-aligned and inside the stack pages, and the limit; nothing below it changes |
| ArgStack.ImageHead | sample/load_program.c:325-338 | for every argument list, the empty one included: argc at the stack pointer, low byte first; behind the pointers the null that ends argv, the null environment, and zeros up to the strings |
| ArgStack.ImageStrings | sample/load_program.c:327-334 | argv[i] points to a terminated copy of argument i behind all pointer words, one string after the other, the last one ending at the limit |
| ArgStack.PutArguments | sample/load_program.c:329-334 | the loop writes every argv word and string of the block in its place |
| ArgStack.StrCpy | sample/load_program.c:171-172 | copies a terminated string and its NUL and nothing else, and returns its length |
| ProgramImage.StoreSeen | sample/load_program.c:311-338 | a store through the page table changes the byte addressed and no other that the process sees, and keeps the invariant |
| ProgramImage.StoresSeen | sample/load_program.c:311-338 | the same for a range of bytes, across pages |
| ProgramImage.StackAccessible | sample/load_program.c:263-303 | after a load every byte from the stack pointer to the limit is mapped writable |
| ProgramImage.ImageThroughTable | sample/load_program.c:187-338 | the argument block stored after a load is what the program reads through its page table |
| System.MemoryIsReady | sample/kernel_context.c:142-156 | the memory operation of every enabled process step finds the processes it needs |
| System.StepKeeps | sample/kernel_context.c:109-160 | every event leaves both invariants and the match of processes and address spaces, except exactly a kernel break call that reaches the pages used to copy |
| System.StepMatches | sample/kernel_context.c:109-160 | after every event, without exception, exactly the live processes have an address space |
| System.RunIsGood | sample/hardware.c:338-518 | both invariants and the match hold in every state of every run from boot without such a call |
| System.DispatchedAsLeft | sample/kernel_context.c:151-156 | a process that is preempted, blocked or new is still alive when dispatched and finds its stack and pages as they were |
| BoundedPrint.FormatInt | etc/yuserlib/common/vsnprintf.c:44-166 | returns the length of the conversion and writes exactly what of it fits into the bound, for every bound |
| BoundedPrint.PutDigits | etc/yuserlib/common/vsnprintf.c:135-157 | the right-to-left loop puts the whole ticked number in place and its count ends at zero |
| BoundedPrint.Measure | etc/yuserlib/common/vsnprintf.c:58-104 | the counts taken beforehand are the lengths of what is printed afterwards |
| BoundedPrint.CountDigits | etc/yuserlib/common/vsnprintf.c:67-72 | the loop counts the digits of the value |
| BoundedPrint.Pad | etc/yuserlib/common/vsnprintf.c:106-112 | exactly the missing width is filled, counted also beyond the bound |
| PrintInt.RenderLength | etc/yuserlib/common/vsnprintf.c:74-104 | the length law: field width, or sign, prefix, digits and marks together, whichever is more |
| PrintInt.NumberLayout | etc/yuserlib/common/vsnprintf.c:141-157 | underscores stand exactly after every group of digits from the right and never first; without them the zero-padded digits remain |
| IntText.DigitsPositional | etc/yuserlib/common/vsnprintf.c:50-72 | digit i from the right is the character of v / base^i % base: 0 to 9, then A to F or a to f |
| IntText.CountExact | etc/yuserlib/common/vsnprintf.c:67-72 | n digits suffice if and only if the value is below base^n |
| IntText.PrintsIntegerText | etc/yuserlib/common/vsnprintf.c:44-166 | for every value, base, width, precision and flags: sign, prefix, positional digits in groups, and padding make exactly what is printed |
| IsoPrint.AgreesWithStandard | etc/yuserlib/common/vsnprintf.c:44-166 | for every value, flags, base, width and precision: the conversion prints what the C standard says if and only if the stated condition holds |
| Printf.Vsnprintf | etc/yuserlib/common/vsnprintf.c:168-488 | for every bound: the result is the length of the full output, the buffer holds its first n - 1 characters and a NUL, nothing else is written |
| Printf.PutString | etc/yuserlib/common/vsnprintf.c:406-435 | padding and the characters that the precision lets through |
| Printf.StringField | etc/yuserlib/common/vsnprintf.c:411-434 | the string's first characters, as many as the precision lets through, at one end of the field; padding elsewhere; the length law |
| Printf.PutConversion | etc/yuserlib/common/vsnprintf.c:298-476 | one terminal character appends its conversion within the bound |
| Directives.DirectiveMeaning | etc/yuserlib/common/vsnprintf.c:206-285 | a directive written by the grammar of section 7.21.6.1 of ISO C11 means its flags, width, precision, length and conversion |
| Directives.LiteralText | etc/yuserlib/common/vsnprintf.c:194-204 | text without a percent sign is copied |
| Directives.ReadFlags | etc/yuserlib/common/vsnprintf.c:206-231 | a run of flag characters sets exactly the flags that occur in it |
| FormatMeaning.LengthNames | etc/yuserlib/common/vsnprintf.c:263-297 | each length modifier, L and q included, names its integer type |
| FormatMeaning.DirectiveEffect | etc/yuserlib/common/vsnprintf.c:206-476 | anywhere in a format: the field that a directive appends, the arguments that it uses, what %n stores; %s the string or (null), %c one byte, %p and %P 0x and eight digits, %% a percent sign, an unknown conversion itself |
| FormatMeaning.FormatMeans | etc/yuserlib/common/vsnprintf.c:168-488 | the output for a format is the effect of its parts one after the other |
| FormatMeaning.UnfinishedPrintsNothing | etc/yuserlib/common/vsnprintf.c:194-297 | a directive that the format does not finish prints nothing |
| IsoFormat.DirectiveAgrees | etc/yuserlib/common/vsnprintf.c:206-476 | a directive of section 7.21.6.1 of ISO C11 for integers prints what the standard says if and only if the condition holds for its flags, width, precision and value; one for strings, characters, %n or %% always does |
| IsoFormat.FormatAgrees | etc/yuserlib/common/vsnprintf.c:168-488 | a format of text and such directives prints what the standard says when every integer directive meets the condition, a single directive if and only if it does |
| ParseInt.Strntoumax | etc/yuserlib/common/strntoumax.c:25-77 | value and end pointer of the text inside the n bytes; reads neither behind them nor behind a NUL |
| ParseInt.ReadDigits | etc/yuserlib/common/strntoumax.c:67-71 | the digit loop computes the unbounded value of the longest digit run, modulo 2^64 |
| ParseInt.NumeralParses | etc/yuserlib/common/strntoumax.c:31-76 | a text made of space, sign, prefix, digits and any rest that does not go on with a digit is parsed to the signed value of its digits, up to their end |
| ParseInt.Skipspace | etc/yuserlib/common/vsscanf.c:51-56 | stops at the first byte that is no space, at the terminating NUL at the latest |
| ParseInt.ScanInt | etc/yuserlib/common/vsscanf.c:215-268 | end of input, match failure or one conversion cut to the type of its rank |
| ParseInt.NumeralScans | etc/yuserlib/common/vsscanf.c:215-268 | a numeral within the field width is converted, stored and consumed |
| ParseInt.FailsExactly | etc/yuserlib/common/vsscanf.c:221-227 | a match failure occurs exactly when the text starts with neither a sign nor a digit |
| ParseInt.SucceedsDigitless | etc/yuserlib/common/vsscanf.c:215-268 | a conversion succeeds without a digit if and only if the field starts with a sign and no digit behind it, or in base 16 or 0 with 0x and no hexadecimal digit behind it |
| ParseInt.LoneSign | etc/yuserlib/common/vsscanf.c:221-230 | a sign for which a conversion succeeds without any digit |
| ParseInt.BarePrefix | etc/yuserlib/common/strntoumax.c:43-56 | the bare prefix for which it does |
| ReadInt.WorthExact | etc/yuserlib/common/strntoumax.c:13-24 | a character is a digit exactly if it stands in one of the two alphabets, and is worth its index there |
| ReadInt.ReadsParts | etc/yuserlib/common/strntoumax.c:25-77 | any text in its parts, each taken as far as it goes: space of exactly eight kinds of bytes, sign, prefix, digits; the result is the sum of the digits by their places with the sign, modulo 2^64, and the end lies behind the digits |
| ReadInt.EveryText | etc/yuserlib/common/strntoumax.c:25-77 | every text can be taken apart like that, for every base |
| ReadInt.ScansText | etc/yuserlib/common/vsscanf.c:215-268 | scan_int on any text: end of input, match failure, or the number that stands within the field width; what is consumed, counted and stored in each case, also under * |
| ReadInt.LongNumberScans | etc/yuserlib/common/vsscanf.c:221-228 | of a number longer than the field width the digits that fit are converted, and the scan stops at the width |
| IsoParse.AgreesWithStandard | etc/yuserlib/common/strntoumax.c:25-77 | for every text and base: value and end are those of strtoumax in the C standard if and only if the stated condition holds |
| RoundTrip.DigitsBack | etc/yuserlib/common/vsnprintf.c:141-157 | the value of the printed digits is the number they were made from |
| RoundTrip.PrintThenParse | etc/yuserlib/common/vsnprintf.c:44-166 | every value, base, width, precision and flags without tick marks: parsing gives the value back and stops right after the last digit |
| RoundTrip.PrintThenScan | etc/yuserlib/common/vsscanf.c:182-268 | the same conversion and length modifier in printf and scanf bring any argument back as the value of its C type |
| Memmem.Memmem | etc/yuserlib/common/memmem.c:14-52 | the first occurrence, or nothing exactly when there is none; an empty needle is never found |
| Memmem.SkipPastMismatch | etc/yuserlib/common/memmem.c:25-36 | the skip k passes over no match |
| Memmem.SkipPastFailure | etc/yuserlib/common/memmem.c:25-41 | the skip l passes over no match |
| Tokens.Strxspn | etc/yuserlib/common/strxspn.c:11-29 | length of the longest prefix inside (parity 0) or outside (parity 1) the set; never past the NUL |
| Tokens.Strpbrk | etc/yuserlib/common/strpbrk.c:7-12 | the first byte of the string that is in the set, or null |
| Tokens.Strsep | etc/yuserlib/common/strsep.c:7-21 | cuts one field, possibly empty, and moves the pointer behind its delimiter |
| Tokens.Strtok.Next | etc/yuserlib/common/strtok.c:7-19 | clears leading delimiters and cuts off the first piece without delimiters |
| Tokens.SepStep | etc/yuserlib/common/strtok.c:14-16 | one round of the loop: an empty field leaves the rest of the work unchanged, any other field is the token |
| Tokens.PiecesExact | etc/yuserlib/common/strtok.c:7-19 | the pieces of a string are exactly its maximal non-empty ranges without delimiters |
| Tokens.PiecesInOrder | etc/yuserlib/common/strtok.c:7-19 | the pieces are listed from left to right without overlap |
| Tokens.TokensOfRun | etc/yuserlib/common/strtok.c:7-19 | over a whole run: the pieces in order, then null for ever; tokens keep their bytes; only delimiters are changed, in the end all of them |
| IsoStrtok.OneCallAgrees | etc/yuserlib/common/strtok.c:7-19 | one call returns what the standard says, and leaves the buffer that the standard says if and only if the string does not start with a delimiter |
| IsoStrtok.LeadingDelimiter | etc/yuserlib/common/strtok.c:7-19 | a string for which it does not |
| IsoStrtok.StdRun | etc/yuserlib/common/strtok.c:7-19 | the standard's calls return the pieces, too, and put a NUL behind each of them only |
| IsoStrtok.RunAgrees | etc/yuserlib/common/strtok.c:7-19 | over n calls: the same results always, the same buffer if and only if the part gone over neither starts with a delimiter nor has two next to each other |

## Left out

- Copying: the user and kernel contexts, register values, cache flushes and `Halt`; only where a process resumes is kept.
- Kernel queues: the kernel model holds its queues as sequences; the linked list is proved against the same sequence operations but not placed inside the process blocks.
- ProcessTheorems.StepHistory: says nothing about an exit code when the parent is already defunct, because the code does not record one there.
- MachineObjects.Machine.LoadProgram: ends where the page tables are done; the file reads and the clearing of uninitialised data are stores through the new table, and a failed read (`KILL`) is not modelled.
- ArgStack.BuildArguments: works on the bytes of Region 1 as one array; `ProgramImage.ImageThroughTable` carries the result over to stores through the page table.
- Opening and decoding the executable: the fields of the load information are inputs.
- Printf.Vsnprintf: the result and the width and precision are not cut to the range of `int`; a call whose arguments are missing or of another kind is not specified.
- RoundTrip.PrintThenParse: negating the smallest signed 64-bit value is undefined in C; the model takes the usual wrap-around.
- RoundTrip.PrintThenScan: covers conversions whose letters mean the same base in both directions; `%i` prints in base 10 and reads a leading zero as octal.
- ParseInt.ScanInt: is one conversion; the rest of the `vsscanf` state machine, `%c`, `%s`, `%[` and `%n` are left out.
- Tokens.TokensOfRun: is for one set of delimiters throughout; a single call of `Tokens.Strtok.Next` may change it.
- IsoFormat.FormatAgrees: leaves out `%p`, whose form the standard leaves open, and directives that it leaves undefined; `FormatMeaning.DirectiveEffect` covers them.
- FormatMeaning.DirectiveEffect: is about the ten length modifiers that have a name; longer rows of `h` and `l` are read by `Directives.DirectiveMeaning` only.
- Terminal, disk and memory traps, `KernelDelay`, `KernelGetPid`, `qapply`: device handling or one-line members.
- The remaining string, character-class and random-number functions: one-loop members.
