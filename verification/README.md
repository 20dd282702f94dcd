# A small systems toolchain, verified

The repository holds five programs: a cooperative thread library (A3), a mark-and-sweep
allocator (A4), a linker (A2/P1), a virtual machine (A2/P2) and a recursive disassembler
(A1/P2), the last three for the X20 instruction set.  This project models the core of each and
proves what it keeps, for all inputs and all runs.  `dafny verify dfyconfig.toml` checks it.

- **Threads** (`thread_*.dfy`, `queue.dfy`): the library is a state machine whose step is any
  call by the current thread.  `ThreadInvariant` proves that every call keeps the invariant,
  `ThreadJoin` that the tortoise and the hare decide deadlock, `ThreadRuns` what whole runs
  guarantee, `ThreadCalls` what each call returns and does.  `ThreadLibrary` has the library's own form, globals updated in place over the
  linked ready list, proved equal to the state machine; `LinkedQueue` and `ThreadTable` are the
  linked structures beneath it, proved to be a sequence and a finite map.
- **Linker** (`linker*.dfy`): `Link` lays files out, rebases symbols and patches references;
  `LinkerTheory` proves that meaning is preserved, `LinkerGrouping` and `LinkerFiles` that linking
  in groups is linking at once, `LinkerVm` that the machine acts on the symbols' addresses,
  `LinkerOutcome` what the linker answers for which files, and `LinkerGenerate` that the nested
  loops compute `Link`.
- **Disassembler** (`disassembler*.dfy`): `parse_code` ends and marks a least closed set, and
  the machine executes only words in it.
- **Machine** (`vm*.dfy`, `x20.dfy`): `Vm` is one instruction on values, `VmInstructions` what
  each does by its number, `VmProcessor` the same in place on arrays, `VmFrames` the call/ret
  discipline, `VmSpinlock` the counter program on any number of cores under any schedule.
- **Allocator** (`alloc_*.dfy`): `AllocBlocks` is the block list, first fit, split and sweep;
  `AllocHeap` the headers in memory, pointers into blocks and chains of words; `AllocMarking` which
  blocks are marked and why none in use is lost; `AllocGarbage` what garbage does to the
  collector; `AllocRuns` whole runs; `AllocCount` when a null pointer can be believed;
  `AllocLibrary` the allocator in place on an array.

Some promises of the code do not hold as they stand; each has a lemma with a failing input or
family, and one that says exactly when it does hold:

- `nextBlockOfSize` compares with the request less a header, so the block it finds can be too
  small for the split that follows (`CarveBreaksTiling`, `CarveTilesIffBigEnough`,
  `OverrunBreaks`).  Requests below three words wrap around and are never met.
- `markAndSweep` returns its count as an int, so that a call can give up although it has freed
  2^32 words: from a fresh heap, exactly when that has 2^32 + 9 words or more
  (`LargeRunIsNotHonest`, `RunIsHonest`).
- `memInitialize` multiplies without a check (`HeapHasRoom`).
- `getBlock` has no answer for pointers into the last block (`LocateMeaning`,
  `LastBlockIsNotFound`).
- The comment in the collector says that a reference in an unmarked block is invalid; the code
  follows it all the same, so garbage cycles are kept (`GarbageCycleIsKept`,
  `MarkedIsReferenced`), or never left (`PlainCycleHangs`).  The model follows the code.
- `call` checks its bounds in unsigned words (`CallOverwritesProgram`, `CallSparesProgram`).
- `parse_code` takes a zero address field for undefined, so it can miss the word after a jump
  to the next word (`BlankJumpHidesCode`, `StepIsLed`, `ExecutedIsMarked`).
- A displacement that does not fit its field is patched in all the same (`Relocated20`,
  `Relocated16`).

## Model

| member | source | states |
|---|---|---|
| `ThreadInvariant.StepKeeps` | A3/thread.c:70-389 | every call, by whatever thread, keeps the whole invariant (exactly one place per live thread with a matching status, table = live threads plus at most one DONE one, unlocked mutex has an empty queue, owner never queued on its own mutex, acyclic join graph) or exits the process |
| `ThreadInvariant.YieldKeeps` | A3/thread.c:111-142 | from a consistent state the branch for a ready thread that is not WORKING is never taken; the exit happens exactly when the caller is blocked and nobody is ready |
| `ThreadInvariant.JoinKeeps` | A3/thread.c:181-217 | joining keeps the invariant, in particular the join graph stays acyclic |
| `ThreadInvariant.ReleaseKeeps` | A3/thread.c:259-280 | handing a mutex to its first waiter, or unlocking it, keeps every thread in exactly one place and the mutex laws |
| `ThreadInvariant.SignalKeeps` | A3/thread.c:325-352 | a signal moves the first waiter to the ready list or to its mutex queue and keeps the invariant, whether the mutex is free or held |
| `ThreadInvariant.WaitBlockKeeps` | A3/thread.c:304-323 | blocking on a condition after giving up the mutex keeps consistency |
| `ThreadInvariant.LockBlockKeeps` | A3/thread.c:236-257 | queueing on a held mutex keeps consistency |
| `ThreadInvariant.JoinBlockKeeps` | A3/thread.c:206-214 | blocking on a join that closes no cycle keeps consistency |
| `ThreadInvariant.BuryKeeps` | A3/thread.c:356-389 | terminating, waking the joiner and destroying the thread that terminated before keeps consistency |
| `ThreadJoin.MeetIffEndless` | A3/thread.c:149-162 | the tortoise and the hare meet exactly when the chain of observers never ends |
| `ThreadJoin.EdgeClosesCycle` | A3/thread.c:149-162 | in an acyclic graph the new edge closes a cycle exactly when the target already waits, through any number of joins, for the caller |
| `ThreadJoin.EndlessIffEdgeClosesCycle` | A3/thread.c:149-217 | walking from the caller alone decides whether the new edge closes a cycle anywhere |
| `ThreadJoin.JoinRefusesExactlyDeadlocks` | A3/thread.c:181-217 | for a live, unobserved, other target, join returns -1 exactly when the target waits for the caller, and then the state is as before; otherwise it returns 0 and adds exactly the new link |
| `ThreadJoin.JoinGraphInjective` | A3/thread.c:181-217 | no thread waits to join with two threads |
| `ThreadRuns.InitialInv` | A3/thread.c:42-62 | the state after init has the invariant |
| `ThreadRuns.RunKeeps` | A3/thread.c:70-389 | every state of every run has the invariant, or is the exit with every thread blocked |
| `ThreadRuns.ExitIffAllBlocked` | A3/thread.c:111-142 | a call ends in the deadlock exit exactly when no thread is left that could work |
| `ThreadRuns.ReferencesAreLive` | A3/thread.c:356-389 | no ready list, wait queue, observer link, current thread or next_to_destroy refers to a thread that is not in the table |
| `ThreadRuns.DestroyedThreadIsUnreferenced` | A3/thread.c:356-389 | the thread that is freed is not the running one, is in no queue and no link, and is the only one to leave the table |
| `ThreadRuns.StepLaws` | A3/thread.c:236-352 | one call changes holder, mutex queue and condition queue as its acquisitions, releases, queueings and hand-overs say |
| `ThreadRuns.AcquisitionsAlternate` | A3/thread.c:236-280 | over every run the acquisitions and releases of each mutex alternate, each release is by the last acquirer, and that thread is the recorded owner |
| `ThreadRuns.MutexQueueIsFifo` | A3/thread.c:236-280 | over every run, queue before + queued = handed over + queue after: the mutex is handed over in the order of queueing |
| `ThreadRuns.CondQueueIsFifo` | A3/thread.c:304-352 | over every run the signals take the waiters of a condition in the order in which they waited |
| `ThreadRuns.OwnerKeepsMutex` | A3/thread.c:236-280 | a thread that was handed a mutex stays its owner through every call of other threads |
| `ThreadRuns.OnlySignalsTakeWaiters` | A3/thread.c:304-352 | a thread leaves a condition queue only at its head and only by a signal of that condition |
| `ThreadRuns.WaiterResumesAsOwner` | A3/thread.c:304-352 | over every run, a thread that waits in cond_wait or mutex_lock is still waiting for its mutex, or has been given it, until it runs, and then it owns it |
| `ThreadRuns.ReadyAdvances` | A3/thread.c:111-142 | each yield brings a ready thread exactly one place forward, every other call leaves it where it is |
| `ThreadRuns.ReadyIndexCountsYields` | A3/thread.c:103-142 | over every run with n <= k yields the thread at index k of the ready list is at index k - n |
| `ThreadRuns.RoundRobin` | A3/thread.c:103-142 | the thread at index k of the ready list runs after exactly k + 1 yields, whatever happens in between |
| `ThreadCalls.CreateCall` | A3/thread.c:70-107 | the returned id is that of the one new thread, which is working and last on the ready list; nothing else changes |
| `ThreadCalls.CreatedIdsAreFresh` | A3/thread.c:70-107 | over every run no two create calls return the same id, nor that of a thread that was there before |
| `ThreadCalls.IdsCountFromOne` | A3/thread.c:42-107 | from init on the create calls return 1, 2, 3 and so on |
| `ThreadCalls.YieldCall` | A3/thread.c:111-142 | the caller goes to the end of the ready list and the first thread runs |
| `ThreadCalls.JoinResult` | A3/thread.c:181-217 | -1, -2, -3 and 0 as iffs on the table, the observers and who waits for the caller; all but 0 leave the state as it is |
| `ThreadCalls.JoinCall` | A3/thread.c:181-217 | joining a thread that is done is a yield; joining another blocks the caller and hands over to the first ready thread |
| `ThreadCalls.MutexInitCall` | A3/thread.c:221-234 | refused exactly for a null mutex; the new one is free and nobody waits for it |
| `ThreadCalls.LockCall` | A3/thread.c:236-257 | refused exactly for a null mutex or one that the caller has; else the caller owns it and goes on, or queues last and blocks |
| `ThreadCalls.UnlockCall` | A3/thread.c:259-280 | accepted exactly for the owner; the mutex goes to the first that waits, who gets ready last, or becomes free |
| `ThreadCalls.CondInitCall` | A3/thread.c:289-302 | refused exactly for a null condition; the new one has no waiters |
| `ThreadCalls.WaitCall` | A3/thread.c:304-323 | accepted exactly for the owner of the mutex, who gives it up, queues last and blocks |
| `ThreadCalls.SignalCall` | A3/thread.c:325-352 | refused exactly for a null condition; the first waiter owns its mutex and gets ready, or queues last for it |
| `ThreadCalls.TerminateCall` | A3/thread.c:356-389 | the caller is done, its joiner gets ready, the thread that terminated before is destroyed, and the first ready thread runs |
| `ThreadLibrary.Threads.constructor` | A3/thread.c:42-62 | starts in the state after init |
| `ThreadLibrary.Threads.Create` | A3/thread.c:70-107 | appends a thread with a fresh id to the ready list |
| `ThreadLibrary.Threads.Yield` | A3/thread.c:111-142 | the globals and the linked ready list end up as the state machine says, through the recursive call too |
| `ThreadLibrary.Threads.DetectDeadlock` | A3/thread.c:149-162 | the loop ends and returns true exactly when the chain of observers from the current thread never ends |
| `ThreadLibrary.Threads.TryBlock` | A3/thread.c:149-214 | marks the caller as waiting and undoes that exactly when the new edge closes a cycle |
| `ThreadLibrary.Threads.Join` | A3/thread.c:181-217 | state and return value of the state machine, where the deadlock test is "the new edge closes a cycle" and not the loop |
| `ThreadLibrary.Threads.MutexInit` | A3/thread.c:221-234 | state and return value of the state machine |
| `ThreadLibrary.Threads.MutexLock` | A3/thread.c:236-257 | state and return value of the state machine, including the null, recursive and contended cases |
| `ThreadLibrary.Threads.MutexUnlock` | A3/thread.c:259-280 | state and return value of the state machine, including refusal when not the owner |
| `ThreadLibrary.Threads.CondInit` | A3/thread.c:289-302 | state and return value of the state machine |
| `ThreadLibrary.Threads.CondWait` | A3/thread.c:304-323 | state and return value of the state machine; refused without the mutex |
| `ThreadLibrary.Threads.CondSignal` | A3/thread.c:325-352 | state and return value of the state machine for an empty queue, a free and a held mutex |
| `ThreadLibrary.Threads.Terminate` | A3/thread.c:356-389 | the state of the state machine, with the deferred destruction |
| `LinkedQueue.Queue.Push` | A3/queue.c:37-53 | appends to the contents; back is the last node again |
| `LinkedQueue.Queue.Pop` | A3/queue.c:72-89 | takes the first of the contents, or reports that there is none; back is cleared with the last node |
| `LinkedQueue.Queue.NotEmpty` | A3/queue.c:27-35 | true exactly when there are contents |
| `LinkedQueue.Queue.Iterator` | A3/queue.c:95-98 | starts at the first position |
| `LinkedQueue.Queue.Next` | A3/queue.c:103-109 | gives the element at the position and moves on by one |
| `LinkedQueue.Visit` | A3/queue.c:95-109 | iterating visits the contents once each, in order |
| `ThreadTable.Table.Put` | A3/thread_table.c:31-54 | adds the thread under an id that no thread ever had; a handle it still has is freed, and the table survives that exactly when the handle is not one of its own |
| `ThreadTable.Table.GetById` | A3/thread_table.c:57-71 | the early-stopping search is the lookup in the finite map |
| `ThreadTable.Table.Pop` | A3/thread_table.c:81-92 | removes the entry with the largest id, or reports an empty table |
| `ThreadTable.Table.Remove` | A3/thread_table.c:96-124 | removes exactly the entry with the id of the thread's handle, or reports that there is no handle or no such entry; for a handle of this table the entry is the thread's own |
| `X20.DisplacementsAgree` | A2/P2/vmx20_macros.h:44-45 | the sign-extending decoders of machine and disassembler agree and give the signed field |
| `Linker.ExtractSymbols` | A2/P1/linkx20.c:109-148 | the two lists are the file's records in reverse order, and mainx20 is reported exactly when defined |
| `Linker.CStringStopsAtNul` | A2/P1/linkx20.c:109-148 | a name is all of its field before the first NUL |
| `Linker.NameRoundTrip` | A2/P1/linkx20.c:109-148 | a name survives being written to its 16-byte field and read back |
| `LinkerTheory.Relocated20` | A2/P1/linkx20.c:227-285 | a patched 20-bit word keeps opcode and register, and the machine decodes the symbol's address exactly when the displacement fits |
| `LinkerTheory.Relocated16` | A2/P1/linkx20.c:227-285 | the same for a 16-bit field and both registers |
| `LinkerTheory.RelocateAgain` | A2/P1/linkx20.c:227-285 | a word that is patched again forgets the first patch |
| `LinkerTheory.RelocateMoved` | A2/P1/linkx20.c:227-285 | moving code and symbol together gives the same word |
| `LinkerTheory.LastRecordWins` | A2/P1/linkx20.c:227-285 | with any number of records at a word, resolution leaves there the address of the last one whose name is defined |
| `LinkerTheory.UntouchedStays` | A2/P1/linkx20.c:227-285 | a word without such a record is copied |
| `LinkerTheory.PatchAllAt` | A2/P1/linkx20.c:227-285 | with one record per word that is its symbol's address |
| `LinkerTheory.UnresolvedMembers` | A2/P1/linkx20.c:227-285 | an outsymbol is left exactly when no file defines its name |
| `LinkerTheory.LinkPreservesMeaning` | A2/P1/linkx20.c:187-289 | for all files: every word with a record of a defined name refers to that symbol's rebased address exactly when the displacement fits, the last record counting, with opcode and registers as assembled; every other word is as assembled, and exactly the undefined references remain |
| `LinkerVm.ExecutesOnTarget` | A2/P2/vmx20.c:330-349 | the address by which the linker's theorems speak is the one that Execute jumps to, loads, stores or exchanges |
| `LinkerVm.LinkedCodeActsOnSymbols` | A2/P1/linkx20.c:227-285 | when the linked code is loaded, a core that executes a resolved reference jumps to, loads from or stores to the symbol's rebased address, if it is in reach |
| `LinkerGrouping.FilePlacement` | A2/P1/linkx20.c:189-223 | each file's words are copied to its offset, its symbols are rebased, and its PC-relative targets move by exactly that offset |
| `LinkerGrouping.JoinAssociative` | A2/P1/linkx20.c:189-223 | laying files out is associative |
| `LinkerGrouping.LayoutConcat` | A2/P1/linkx20.c:189-223 | the layout of two lists of files is the layout of the one followed by that of the other |
| `LinkerGrouping.ResolvePartFirst` | A2/P1/linkx20.c:187-289 | resolving a group of files first and then the whole is resolving the whole |
| `LinkerFiles.FileRoundTrip` | A2/P1/linkx20.c:109-148 | an object file that is written and read back is the same program with its symbols reversed |
| `LinkerFiles.LinkInGroups` | A2/P1/linkx20.c:109-289 | linking is associative through the intermediate object file: same code word for word, same insymbols, same unresolved outsymbols, and the same kind of output as decided by mainx20 |
| `LinkerOutcome.LinkAnswer` | A2/P1/linkx20.c:61-314 | over the files' own records: there is no output exactly when no file has code, a duplicate is reported exactly when two records define one name, and the output is an object file exactly when no file defines mainx20 or some file uses a name that no file defines |
| `LinkerOutcome.TableIsRebased` | A2/P1/linkx20.c:189-223 | the insymbols of the output are exactly those of the files, each moved by the code before its file |
| `LinkerOutcome.ReferencesAreRebased` | A2/P1/linkx20.c:227-285 | so are the references that are resolved |
| `LinkerGenerate.UnresolvedSnoc` | A2/P1/linkx20.c:268-280 | the references that are left keep their order |
| `LinkerGenerate.InsertInsymbols` | A2/P1/linkx20.c:189-223 | copies the rebased insymbols, and reports a duplicate exactly when the names are not unique |
| `LinkerGenerate.ResolveOutsymbol` | A2/P1/linkx20.c:227-285 | scanning the table patches the word once per match and tells whether the name is defined |
| `LinkerGenerate.ResolveFile` | A2/P1/linkx20.c:227-285 | resolves one file's references in place and collects those that are left |
| `LinkerGenerate.LayOut` | A2/P1/linkx20.c:187-223 | the first pass lays out insymbols and code, and reports a duplicate exactly when a name is defined twice |
| `LinkerGenerate.ResolveAll` | A2/P1/linkx20.c:227-285 | the second pass patches the code in place and collects what is left |
| `LinkerGenerate.LinkObjects` | A2/P1/linkx20.c:57-71 | extracts the symbols of all files, looks for the entry point and generates the output |
| `LinkerGenerate.GenerateOutput` | A2/P1/linkx20.c:150-314 | the nested loops over files, symbols and table compute Link: no code, duplicate, or the resolved layout and the kind of output |
| `Disassembler.ParseCode` | A1/P2/dsx20.c:342-398 | terminates although it moves its counter backwards; with all targets in range a word is marked exactly when there is a way to it from word 0, each word following one that is no jmp, halt or ret, or being the nonzero target of a jmp, call or branch, and the marks are the least closed set; otherwise some word of that set has a target out of range |
| `Disassembler.LeadsBySpelling` | A1/P2/dsx20.c:280-385 | where a word leads, by opcode numbers and the signed field |
| `Disassembler.MarkedIsReached` | A1/P2/dsx20.c:342-398 | a least closed set is exactly the words with such a way |
| `Disassembler.VisitKeepsScanned` | A1/P2/dsx20.c:342-398 | one round of the scan keeps "everything below is closed and least", and moves back only with one mark more |
| `DisassemblerVm.StepIsLed` | A1/P2/dsx20.c:342-398 | a running core that does not return is where parse_code says the word leads, exactly unless the word is a jump with a zero address field |
| `DisassemblerVm.NormalEndLeadsNowhere` | A1/P2/dsx20.c:371-375 | a word at which the machine stops normally leads nowhere |
| `DisassemblerVm.ExecutedIsMarked` | A1/P2/dsx20.c:342-398 | every run of a core whose returns go behind executed calls stays among the marks exactly when it does so at its blank jumps; it does if the word after each marked blank jump is marked |
| `DisassemblerVm.BlankJumpHidesCode` | A1/P2/dsx20.c:342-398 | a blank jump and a halt: only word 0 is marked, and the machine executes word 1 |
| `VmFrames.CallSparesProgram` | A2/P2/vmx20.c:422-449 | a call that is not refused writes only its three slots, and stays out of the program exactly when the stack pointer is not 1 or 2 |
| `VmFrames.CallOverwritesProgram` | A2/P2/vmx20.c:422-449 | the unsigned bounds check lets a call overwrite the program that it belongs to: a concrete state |
| `VmFrames.CallEffect` | A2/P2/vmx20.c:422-449 | return address, frame pointer and a zero are pushed; frame and stack pointer are set to them |
| `VmFrames.RetEffect` | A2/P2/vmx20.c:450-474 | value, frame pointer and return address are popped and the value is stored below the restored frame pointer |
| `VmFrames.BodyKeeps` | A2/P2/vmx20.c:422-474 | up to its ret a disciplined body has kept its saved words and its callers' frames, for any nesting of calls |
| `VmFrames.CallReturns` | A2/P2/vmx20.c:422-474 | for any nesting of disciplined bodies, ret resumes just behind its call with frame and stack pointer restored and the return value below the caller's frame pointer |
| `VmFrames.NotRefused` | A2/P2/vmx20.c:422-474 | a frame that call could push, ret can pop |
| `VmInstructions.SignedArithmetic` | A2/P2/vmx20.c:404-421 | addi, subi and muli are the signed operations modulo 2^32 |
| `VmInstructions.SignedDivision` | A2/P2/vmx20.c:410-418 | divi leaves the quotient whose remainder is smaller than the divisor and has the dividend's sign, and stops on a zero divisor |
| `VmInstructions.DivisionRoundsTowardZero` | A2/P2/vmx20.c:410-418 | minus seven divided by two is minus three |
| `VmInstructions.FloatingPoint` | A2/P2/vmx20.c:374-403 | a floating-point result goes to the first register; divf stops on a zero divisor |
| `VmInstructions.Loads` | A2/P2/vmx20.c:330-349 | load, ldimm and ldaddr set one register; a load from outside memory leaves it |
| `VmInstructions.Stores` | A2/P2/vmx20.c:336-341 | store changes one word of memory, or none outside it |
| `VmInstructions.IndirectLoad` | A2/P2/vmx20.c:350-361 | ldind reads the word at the signed base plus displacement and stops outside memory |
| `VmInstructions.IndirectStore` | A2/P2/vmx20.c:362-373 | stind stores at base plus displacement and checks the number of its register |
| `VmInstructions.CompareAndExchange` | A2/P2/vmx20.c:500-516 | cmpxchg stores on equality and loads otherwise; outside memory it does neither |
| `VmInstructions.Jumps` | A2/P2/vmx20.c:475-499 | jmp, and the signed branches with both outcomes |
| `VmInstructions.Terminations` | A2/P2/vmx20.c:325-329 | halt stops normally, and a number that is no instruction as illegal |
| `VmInstructions.Identity` | A2/P2/vmx20.c:517-522 | getpid and getpn |
| `VmInstructions.Pushes` | A2/P2/vmx20.c:523-537 | push is refused exactly outside the stack's bounds, and else stores one word below |
| `VmInstructions.PopsAndStops` | A2/P2/vmx20.c:538-556 | pop loads and then stops the core as illegal |
| `VmInstructions.CallAccepted` | A2/P2/vmx20.c:422-449 | a call is accepted exactly when the stack pointer is not above the core's stack and three words below it, in unsigned words, are not inside the program; a refused call changes nothing |
| `VmInstructions.RetAccepted` | A2/P2/vmx20.c:450-474 | a ret is accepted exactly when the frame ends within the core's stack and the stack pointer is not inside the program |
| `VmProcessor.Processor.constructor` | A2/P2/vmx20.c:568-618 | a core starts with cleared registers, its stack pointer and the entry point |
| `VmProcessor.Processor.ReadWord` | A2/P2/vmx20.c:293-299 | the word, or the old value of the target when the address is out of range |
| `VmProcessor.Processor.WriteWord` | A2/P2/vmx20.c:301-307 | writes one word, or nothing and reports it |
| `VmProcessor.Processor.DoTransfer` | A2/P2/vmx20.c:330-373 | loads and stores update registers and memory in place as Transfer says |
| `VmProcessor.Processor.DoArithmetic` | A2/P2/vmx20.c:374-421 | arithmetic with wrap-around, truncating division and the zero-divisor stop |
| `VmProcessor.Processor.EnterFrame` | A2/P2/vmx20.c:433-448 | the step-by-step pushes give the frame that Call names in one piece |
| `VmProcessor.Processor.LeaveFrame` | A2/P2/vmx20.c:459-473 | the step-by-step pops give the state that Ret names in one piece |
| `VmProcessor.Processor.DoCmpxchg` | A2/P2/vmx20.c:500-516 | compare and exchange on one memory word |
| `VmProcessor.Processor.ExecuteInstruction` | A2/P2/vmx20.c:309-565 | the in-place instruction is the step Execute on values, and its result says whether the core goes on |
| `VmSpinlock.ExecuteIsMove` | A2/P2/test/test_counter_lock.asm:5-29 | the machine, decoding the assembled words, takes the step that the program text means at each address |
| `VmSpinlock.MoveLocks` | A2/P2/test/test_counter_lock.asm:10-27 | a core changes the lock word only to take it when free or to give up its own |
| `VmSpinlock.MoveCounts` | A2/P2/test/test_counter_lock.asm:18-23 | count changes only by the store of the core in its critical section, by exactly its own increment |
| `VmSpinlock.StepKeeps` | A2/P2/test/test_counter_lock.asm:5-29 | every step of every core keeps the invariant: the lock word names the one core in its critical section, and count is the sum of the increments stored |
| `VmSpinlock.MutualExclusion` | A2/P2/test/test_counter_lock.asm:10-27 | for every schedule of up to 16 cores no two are between acquire and release at once |
| `VmSpinlock.CountIsExact` | A2/P2/test/test_counter_lock.asm:5-29 | for every schedule, once all cores have stopped each has halted normally, the lock is free and count is the number of cores times the loop bound |
| `VmSpinlock.CanFinish` | A2/P2/test/test_counter_lock.asm:5-29 | from every state with the invariant some schedule makes all cores halt: the lock never blocks the program for good |
| `AllocBlocks.InfoRoundTrip` | A4/alloc.c:39-42 | an info word is exactly its two bits and its size, both ways |
| `AllocBlocks.InfoBits` | A4/alloc.c:8-42 | the allocation bit is the highest and the mark bit the next |
| `AllocBlocks.FirstFit` | A4/alloc.c:363-377 | the first free block that is at least as large as needed, or none |
| `AllocBlocks.HeapHasRoom` | A4/alloc.c:337-361 | a heap has room for a header and a word exactly from a size of four on, but for three sizes at which the multiplication wraps around; it is at least as large as asked for exactly when it does not wrap, and then has a fifth more words |
| `AllocBlocks.CarveTilesIffBigEnough` | A4/alloc.c:421-446 | the heap stays tiled exactly when the first fit has at least as many words as the request |
| `AllocBlocks.CarveBreaksTiling` | A4/alloc.c:363-446 | ten words and a request for eight: the seven-word block is taken and the tiling broken |
| `AllocBlocks.SmallRequestsNeverFit` | A4/alloc.c:363-377 | a request below three words wraps around and finds no block |
| `AllocBlocks.SweepTiles` | A4/alloc.c:277-331 | the sweep keeps the tiling |
| `AllocBlocks.SweepCoalesces` | A4/alloc.c:310-328 | no two adjacent blocks are free after it |
| `AllocBlocks.SweepKeepsExactlyTheMarked` | A4/alloc.c:286-308 | the allocated blocks after it are exactly the marked ones, in place and in order, with marks cleared |
| `AllocBlocks.SweepClearsMarks` | A4/alloc.c:286-293 | no block is marked after it |
| `AllocBlocks.FinalizersConserved` | A4/alloc.c:295-308 | of the allocated blocks with a finalizer each either is still allocated or has had it called, once |
| `AllocBlocks.FinalizersInOrder` | A4/alloc.c:286-308 | finalizers are called in the order of the blocks |
| `AllocBlocks.FreedIsGrowth` | A4/alloc.c:277-335 | the count is what the free payload grew by, with one header per merge |
| `AllocBlocks.NothingFreed` | A4/alloc.c:277-335 | a sweep that counts nothing changes nothing but marks |
| `AllocBlocks.ZeroCountMeansNoFit` | A4/alloc.c:400-419 | giving up on a zero count agrees with searching again on heaps of fewer than 2^32 words and a header, or two headers and the first block where that stays in use |
| `AllocBlocks.LargeCountIsLost` | A4/alloc.c:400-419 | on every larger heap some list, whose first block stays, frees 2^32 words and returns zero |
| `AllocHeap.LocateMeaning` | A4/alloc.c:71-96 | getBlock gives the block that starts before the pointer and ends at or after it, never the last of several, and nothing beyond the last block's first word |
| `AllocHeap.PayloadIsLocated` | A4/alloc.c:71-96 | a pointer to any payload word of a block that is not last finds that block |
| `AllocHeap.ExhaustedIsEndless` | A4/alloc.c:229-267 | a chase that is still going after as many dereferences as there are addresses never ends |
| `AllocMarking.RootsAreMarked` | A4/alloc.c:112-211 | every allocated block that a root word points into is marked |
| `AllocSpace.RootWordsAre` | A4/alloc.c:112-211 | the root words are exactly the words of the stack other than null and the globals other than the address of the heap variable |
| `AllocMarking.RootIsFollowed` | A4/alloc.c:112-152 | a root word is followed through up to a hundred words, in the heap or outside, and marks the first block that is allocated and not marked |
| `AllocMarking.RootIsGivenUp` | A4/alloc.c:112-152 | after a hundred words without such a block it marks nothing |
| `AllocMarking.MarkedFromRoots` | A4/alloc.c:112-211 | nothing else is: what the roots mark lies on the chain of a root word, and they fail only on a heap word outside every block |
| `AllocMarking.LastBlockIsNotFound` | A4/alloc.c:71-96 | a root word that points into the last block is fatal |
| `AllocMarking.QuietIsDone` | A4/alloc.c:213-274 | a pass that marks nothing has marked exactly the blocks on the chains of payload words |
| `AllocMarking.ReachableIsMarked` | A4/alloc.c:112-274 | soundness: when marking is over every allocated block that is reachable from the roots through any path of heap words is marked |
| `AllocMarking.WordPathIsMarked` | A4/alloc.c:213-274 | soundness through words: an allocated block into which any payload word leads, through any number of words of the heap, the globals and the stack, is marked |
| `AllocMarking.MarkedIsReferenced` | A4/alloc.c:112-274 | a marked block is on the chain of a root word or of a payload word; a block that no root leads to is marked exactly when it is allocated and on the chain of some payload word, even of garbage |
| `AllocMarking.GarbageCyclesAreKept` | A4/alloc.c:213-274 | when marking gets through, allocated blocks that point to each other are kept |
| `AllocGarbage.GarbageCycleIsKept` | A4/alloc.c:213-274 | no precision: a concrete heap whose only root is the heap variable, where marking gets through and a cycle that no root leads to is kept |
| `AllocGarbage.PlainCycleHangs` | A4/alloc.c:229-267 | when two payload words point at each other the collector never comes back, whatever the roots |
| `AllocRuns.GrantIsRoomy` | A4/alloc.c:421-452 | the new block has at least the requested size and less than four words more; the rest, if it is more, becomes a free block right behind it; what it is made of was free |
| `AllocRuns.ReachableSurvives` | A4/alloc.c:112-331 | a block that is reachable from a word of the stack or the globals is still allocated after the sweep, with the same place, size and finalizer |
| `AllocRuns.OverrunBreaks` | A4/alloc.c:421-446 | a first fit that is too small is split all the same: the list no longer tiles the heap, and the granted block reaches over the next header or past the heap |
| `AllocRuns.NullMeansNoFit` | A4/alloc.c:400-419 | on a heap of fewer than 2^32 words and a header, a call that gives up leaves no block that would do |
| `AllocCount.FirstBlockStays` | A4/alloc.c:112-152 | the heap variable is itself a root, so the first block, once allocated, is marked by every collection and never freed |
| `AllocCount.RunKeepsFirst` | A4/alloc.c:379-453 | over every run the first block is in use with at least three words, or the only one |
| `AllocCount.RunIsHonest` | A4/alloc.c:400-419 | on a heap of fewer than 2^32 + 9 words no run ever gives up while a block would do |
| `AllocCount.LargeRunIsNotHonest` | A4/alloc.c:400-419 | on every fresh heap of 2^32 + 9 words or more a run of three calls does: the size is the exact condition |
| `AllocRuns.StepKeepsGood` | A4/alloc.c:379-453 | every call and every write to a live payload keeps the tiling, the headers and the absence of marks |
| `AllocRuns.StepKeepsBlock` | A4/alloc.c:379-453 | a call changes no word of a block that stays |
| `AllocRuns.RunKeepsGood` | A4/alloc.c:379-453 | so does every run |
| `AllocRuns.RunKeepsBlock` | A4/alloc.c:379-453 | over every run a block that is reachable at each collection keeps its place, and its words are what the program last wrote |
| `AllocRuns.PayloadsApart` | A4/alloc.c:379-453 | in every state of every run the payloads are pairwise disjoint and inside the heap |
| `AllocLibrary.Allocator.Initialize` | A4/alloc.c:337-361 | succeeds exactly once, for a size in range and memory; the heap is then one free block, and a valid heap exactly when it has room for a header and a word |
| `AllocLibrary.Allocator.GetBlock` | A4/alloc.c:71-96 | the loop over next fields finds the block that Locate names |
| `AllocLibrary.Allocator.NextBlockOfSize` | A4/alloc.c:363-377 | the loop finds the first fit |
| `AllocLibrary.Allocator.Follow` | A4/alloc.c:121-151 | the loop that follows a word ends as Search says, with the block to mark |
| `AllocLibrary.Allocator.ScanRoots` | A4/alloc.c:112-211 | the scan of the globals or the stack marks as MarkRoots says, or crashes exactly when it does |
| `AllocLibrary.Allocator.ScanPass` | A4/alloc.c:222-271 | one pass over the heap marks a new block or establishes that none is left, or meets a word that it cannot get past |
| `AllocLibrary.Allocator.MarkHeap` | A4/alloc.c:213-274 | the passes end, and get through exactly when the chain of every payload word ends and stays within blocks; the marks are then the old ones and those of the allocated blocks on such chains |
| `AllocLibrary.Allocator.Merge` | A4/alloc.c:310-323 | the header words of a free block are updated so that it swallows the next one |
| `AllocLibrary.Allocator.SweepHeap` | A4/alloc.c:275-335 | the in-place loop with its prev pointer computes Sweep, the count and the finalizer calls, and changes no payload word |
| `AllocLibrary.Allocator.MarkAndSweep` | A4/alloc.c:108-335 | comes back exactly when marking gets through; then the list is the sweep of the marked one and the result its count as an int |
| `AllocLibrary.Allocator.Spill` | A4/alloc.c:421-446 | splits a block that is too small, overwriting exactly the six words of both headers |
| `AllocLibrary.Allocator.Take` | A4/alloc.c:421-446 | splits or takes whole the first fit in place and changes nothing outside it, or overruns it exactly when it is too small |
| `AllocLibrary.Allocator.MemAllocate` | A4/alloc.c:379-453 | the whole call is the relation Allocates: a grant, a null pointer, an overrun block or no answer; finalizers are called as the collection says |

## Left out

- Threads: the context switch, stacks and registers (a switch changes the current thread), `thread_cleanup`, failing `init` and `malloc`, more than one `init` epoch, and re-initialising a mutex or condition that is in use.  A TCB pointer is its thread id; `observer` and `handle` are null at creation.
- ThreadLibrary.Threads.Join: its precondition is the invariant, because the loop is only as good as the graph it walks; `StepKeeps` provides it in every run.
- Queue: `queue_remove` and `queue_peek`, which the library does not call, and the destruction of queues and tables.
- The ready list of the thread library is the linked queue; the queues of mutexes and conditions are sequences and the thread table is a map there, and `ThreadTable` is proved apart.
- Linker: command line, file reading and writing, and file names; an object file is its records and code words.  Outsymbol records address words of their own file, and code is shorter than 2^32 words.
- LinkerFiles.LinkInGroups: expects code in the group, unique insymbol names and at most one outsymbol record per code word; without the first two the linker refuses, and without the last the order of records counts, which reading a file back reverses.  Files are in the order of the linker's list, that of the command line reversed.
- Machine: the results of floating-point instructions are parameters of the step; instruction fetch outside memory, tracing, file loading and thread creation are not modelled.  An instruction is one atomic step, because each makes its memory accesses under one lock.
- Machine: `pop` is modelled as it is, falling through to the illegal instruction; no push/pop round trip follows.
- VmFrames.CallReturns: expects a stack within memory and bodies that keep their saved words and put the stack pointer back.
- VmSpinlock.CountIsExact: the loop bound is any positive 20-bit immediate, 10000 in the program's text; that every fair schedule ends is not claimed, only that some schedule always can.
- Disassembler: the text output.  A real target of -1 is taken for none, as in the code.
- Allocator: addresses count words, so unaligned pointers are not modelled; global and stack words are given as sequences, without the walk over stack frames; `memDump` and `pointsToAllocatedData` are left out.
- Allocator: finalizers are recorded in order and not run, so the refusal of a call from within one is not modelled.
- AllocLibrary.Allocator.MarkHeap: the unbounded chase is cut off after as many dereferences as there are readable addresses, when it is proved to be endless; the code then never comes back.
- AllocLibrary.Allocator.Initialize: `calloc` is a parameter, and the heap lies below 2^61; the header of a heap of fewer than three words is not written, since it would lie past the heap.
- AllocLibrary.Allocator.MemAllocate: memory is not specified when an overrun writes past the end of the heap; calls on a heap that an overrun has broken are not modelled.
- A1/P1 (ELF printing), the linear disassembler, and the older copies of these programs.
