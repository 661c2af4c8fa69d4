# JOS kernel: environments, system calls, scheduling, traps, fork and the monitor

This project is a Dafny model of the process core of a JOS teaching kernel
(x86, multiprocessor, lab 4 and beyond). An *environment* is a process.
The kernel keeps `NENV` environment records in one table, `envs`. The
model covers:

- the layout of environment ids (`inc/env.h`);
- every system call of `kern/syscall.c`, including the two message-passing
  designs and the dispatch switch;
- round-robin scheduling (`kern/sched.c`);
- trap routing and the return to user mode (`kern/trap.c`);
- the user-level copy-on-write `fork` and shared-memory `sfork`, with their
  page-fault handler (`lib/fork.c`);
- the kernel monitor's command-line tokenizer, command lookup, exit rule,
  `resume`/`step` and `envs` listing (`kern/monitor.c`).

The kernel state is a class, `EnvTable.Kernel`. It holds the environment
table as an `array<Env>` that system calls update in place. It also holds:

- `cur`, the slot of curenv;
- the environment free list;
- the free list of physical frames;
- frame contents.

`Kernel.Valid()` is the invariant every operation keeps:

- slots on the environment free list are FREE and distinct;
- curenv's slot is live;
- every live id names its own slot;
- every address space is well formed.

Helpers from `kern/env.c` and `kern/pmap.c` are given contracts instead of
bodies that copy the original. Neither file is part of this model. The
helpers are `envid2env`, `env_alloc`, `env_destroy`, `env_run`,
`page_lookup`, `page_insert`, `page_remove` and `page_alloc_map`.

An address space is a set of present page tables plus a map from page
number to `Pte(frame, perm)`. A system call ends in one of three outcomes,
`SysOutcome`:

- `Returned(r)`: it returns `r` to the caller;
- `Yielded`: it calls `sched_yield` and never returns;
- `Panicked`: the kernel panics.

`Kernel.State()` is the whole kernel state as a value, `KState`. Each
system call has a predicate, such as `Syscall.PageAllocSpec`, that relates
the state before the call, its arguments, its result and the state after
it. Each handler's method ensures its predicate, `Dispatch.SyscallSpec`
selects the predicate by call number, and the trap path is stated in the
same terms.

Modules, one per source file: `Machine` (words, permission bits, layout
constants, trap frames), `EnvLayout`, `Pmap`, `EnvTable`, `Syscall`, `Ipc`,
`Dispatch`, `Sched`, `Trap`, `Fork`, `Monitor`.

`duppage` and `duppage_share` name the environment they copy from as
`thisenv->env_id` (lib/fork.c:128, 132, 147), not through
`sys_getenvid`. The fork model takes `thisenv` as a parameter, the slot
the library's `thisenv` points at, and sends the id found in that slot.
`Fork.ThisenvMode` sorts what that id names for curenv, as
`Fork.ModeAtFork` reads it before `sys_exofork`:

- `NamesCur`: curenv itself, where the library's startup code points it
  (`lib/libmain.c` is not part of this model);
- `NamesNone`: nothing curenv may copy from. This is an id that does not
  resolve, or the slot `sys_exofork` hands to the new child, which has no
  page to give;
- `NamesOther`: another child of curenv.

## Model

| member | source | states |
|---|---|---|
| Machine.ToInt32 | kern/syscall.c:519-521 | reading an argument word as `int`/`envid_t` yields a 32-bit signed value congruent to the word modulo 2^32 |
| Machine.ToWord | kern/trap.c:292-293 | storing a result in `eax` keeps it modulo 2^32 |
| Machine.Int32RoundTrip | kern/syscall.c:519-521 | word→int32→word and int32→word→int32 are both the identity |
| Machine.SetTrapFlag | kern/monitor.c:325 | `eflags \|= 0x100` sets the trap-flag bit and leaves every other bit as it was |
| EnvLayout.Envx | inc/env.h:29-31 | ENVX(id) is a slot below NENV and congruent to the id modulo NENV |
| EnvLayout.MakeEnvId | inc/env.h:13-27 | an id built from a nonzero generation and a slot is positive, fits 31 bits, and decodes back to that slot and generation |
| EnvLayout.IdRoundTrip | inc/env.h:13-27 | every non-negative id with a valid generation is rebuilt exactly from its slot and generation |
| EnvLayout.SameSlotDistinctIds | inc/env.h:13-27 | two generations on one slot give distinct ids that share the slot |
| EnvLayout.NextGen | inc/env.h:13-27 | a slot's next generation is valid and differs from the generation of its previous id |
| EnvLayout.FreshIdDiffers | inc/env.h:13-27 | reusing a slot never reissues that slot's previous id |
| EnvLayout.StatusCode | inc/env.h:34-40 | the five statuses are numbered 0 to 4 |
| EnvLayout.StatusOfCode | inc/env.h:34-40 | an integer decodes to a status exactly when it is 0 to 4, and the status encodes back to it |
| EnvLayout.StatusCodesBijective | inc/env.h:34-40 | status encoding is injective and decoding inverts it |
| EnvLayout.TypeCode | inc/env.h:43-48 | the four environment types are numbered 0 to 3 |
| EnvLayout.TypeOfCode | inc/env.h:43-48 | an integer decodes to a type exactly when it is 0 to 3, and the type encodes back to it |
| EnvLayout.TypeCodesBijective | inc/env.h:43-48 | type encoding is injective and decoding inverts it |
| Pmap.PageInsert | kern/syscall.c:244 | page_insert maps the frame at the page of va with `perm \| PTE_P`, adds the page table if needed, and fails with no memory only when the table is missing and no frame is free |
| Pmap.PageRemove | kern/syscall.c:268-270 | page_remove drops exactly the mapping of va's page and keeps the address space well formed |
| Pmap.PageAllocMap | kern/syscall.c:195 | page_alloc_map takes the head frame and maps it at va's page; it fails only when the frames cannot cover the page and, if missing, its page table; the frames left are the rest of the list after those it took |
| Pmap.ZeroPage | kern/syscall.c:195 | a freshly allocated page holds PGSIZE zero bytes |
| EnvTable.Resolve | kern/syscall.c:57 | envid2env: id 0 means curenv; any other id resolves exactly when its slot is live with that id and, with checkperm, is curenv or curenv's child; every failure is -E_BAD_ENV |
| EnvTable.ResolvedIsLive | kern/syscall.c:112 | a resolved environment is not on the free list and has a positive id |
| EnvTable.StaleIdRejected | kern/syscall.c:57 | after a slot is reused, the previous id of that slot no longer resolves |
| EnvTable.Kernel.Init | inc/env.h:29-31 | the boot state: no curenv, all NENV slots free and on the free list in order |
| EnvTable.Kernel.SetEnv | inc/env.h:50-85 | replacing one record keeps the table invariant and changes only that slot |
| EnvTable.EnvAlloc | kern/syscall.c:86 | env_alloc succeeds exactly when both free lists are non-empty; its errors -E_NO_FREE_ENV and -E_NO_MEM change nothing; otherwise it takes the head of the free list and gives that slot a fresh id and the caller as parent |
| EnvTable.EnvDestroy | kern/syscall.c:59 | env_destroy leaves exactly the state AfterDestroy describes, and yields exactly when curenv destroyed itself |
| EnvTable.AfterDestroyEffects | kern/syscall.c:59 | destroying a slot keeps the table invariant, the frame list and memory; only that slot changes: it becomes DYING exactly when it is RUNNING and not curenv, otherwise FREE and on the free list; curenv is cleared exactly when it was that slot |
| EnvTable.AfterRunEffects | kern/sched.c:53 | env_run makes the chosen environment RUNNING on this CPU and counts the run; a RUNNING curenv it replaces becomes RUNNABLE; no other slot changes |
| EnvTable.EnvRun | kern/trap.c:245 | env_run applies those effects and makes the chosen slot curenv, keeping the table invariant |
| Syscall.SysGetenvid | kern/syscall.c:41-44 | returns curenv's id, which is positive and names curenv's slot |
| Syscall.SysCputs | kern/syscall.c:19-29 | a readable buffer returns 0 with the state unchanged; an unreadable one destroys curenv as AfterDestroy describes, which leaves no curenv and its slot FREE at the head of the free list, and yields |
| Syscall.SysEnvDestroy | kern/syscall.c:52-61 | -E_BAD_ENV with the state unchanged unless the id resolves with the permission check; otherwise the state AfterDestroy gives for that slot, yielding when it was curenv (then left FREE with no curenv) and returning 0 otherwise |
| Syscall.ExoforkChildIsManaged | kern/syscall.c:86-91 | the exofork child can be managed by its parent, is NOT_RUNNABLE, and resumes from the parent's registers with eax = 0, so its exofork returns 0 |
| Syscall.SysExofork | kern/syscall.c:75-92 | -E_NO_FREE_ENV, then -E_NO_MEM, each with the state unchanged; otherwise the head free slot becomes a NOT_RUNNABLE child with a fresh positive id, curenv as parent and curenv's registers with eax 0, one frame is taken, nothing else changes, and the id is returned |
| Syscall.SysEnvSetStatus | kern/syscall.c:102-126 | -E_BAD_ENV, then -E_INVAL for a code that is not a status, each with the state unchanged; any of the five status codes is stored, and only that field of that slot changes |
| Syscall.SysEnvSetPgfaultUpcall | kern/syscall.c:153-161 | -E_BAD_ENV with the state unchanged, or the entry point is stored in the target and nothing else changes |
| Syscall.SysPageAlloc | kern/syscall.c:180-196 | the checks run in the order -E_BAD_ENV, then -E_INVAL (va, perm), then -E_NO_MEM, and an error changes nothing; on success a zeroed frame is mapped at va's page with `perm \| PTE_U`, and only that address space, the frame list and that frame's contents change |
| Syscall.UnalignedPageAllocAccepted | kern/syscall.c:175-195 | an address that is not page-aligned is accepted, and the page holding it is mapped (see below) |
| Syscall.PageMap | kern/syscall.c:215-246 | every failure of page_map is -E_INVAL, -E_BAD_ENV or -E_NO_MEM, and a success yields a well-formed destination space |
| Syscall.PageMapSuccess | kern/syscall.c:215-246 | a successful page_map passed every check, and the destination then maps dstva to the very frame srcva maps, with all other mappings unchanged |
| Syscall.PageMapErrors | kern/syscall.c:215-246 | the errors come in the source's order; -E_NO_MEM happens exactly when every check passed, the destination page table is missing and no frame is free |
| Syscall.SysPageMap | kern/syscall.c:215-246 | an error from PageMap changes nothing; a success replaces only the destination's address space and the frame list with PageMap's |
| Syscall.SysPageUnmap | kern/syscall.c:256-273 | -E_INVAL for a va that is unaligned or at or above UTOP, then -E_BAD_ENV, each with the state unchanged; otherwise exactly va's mapping is removed (if any), nothing else changes and the result is 0 |
| Ipc.PageTransfer | kern/syscall.c:324-338 | a page moves only when both sides want one; it fails exactly on a bad offer (-E_INVAL) or missing memory (-E_NO_MEM); the received permission is perm, or 0 when no page was wanted |
| Ipc.TransferShares | kern/syscall.c:330-333 | a delivered page is shared: the receiver's dstva maps the sender's frame, and its other mappings are unchanged |
| Ipc.SysIpcTrySend | kern/syscall.c:314-344 | -E_BAD_ENV without a permission check, then -E_IPC_NOT_RECV, then the page errors, each changing nothing; on success only the receiver changes: it gets sender, value and permission and becomes RUNNABLE |
| Ipc.SysIpcRecv | kern/syscall.c:407-420 | -E_INVAL for an unaligned dstva below UTOP; otherwise curenv blocks as a receiver with eax 0, becomes NOT_RUNNABLE and yields |
| Ipc.SendCompletesRecv | kern/syscall.c:339-342 | a blocked receiver woken by a send is RUNNABLE, no longer receiving, holds sender and value, and its recv returns 0 |
| Ipc.UserPerm | kern/syscall.c:355 | the queued send always offers PTE_U and PTE_P and leaves the other permission bits as given |
| Ipc.SysIpcTrySendAlt | kern/syscall.c:347-393 | -E_BAD_ENV; a receiving target that is not NOT_RUNNABLE panics; a waiting target gets the message as in the polling send; otherwise curenv parks the message, becomes NOT_RUNNABLE, the target's waiting count grows by one and the CPU yields |
| Ipc.Fetch | kern/syscall.c:430-454 | the fetch panics exactly when the sender is not NOT_RUNNABLE; a page error changes nothing; success changes only the receiver's page, permission, sender id and value |
| Ipc.IpcFetchHelper | kern/syscall.c:430-454 | the kernel applies exactly the result of Fetch |
| Ipc.SlotAt | kern/syscall.c:471 | `(i + rand) % NENV`, summed on 32 bits, is a valid slot |
| Ipc.SlotAtNoWrap | kern/syscall.c:471 | because NENV divides 2^32, the 32-bit wrap of the sum does not change the slot |
| Ipc.SlotAtInjective | kern/syscall.c:470-471 | the NENV steps of the scan visit distinct slots |
| Ipc.SlotAtSurjective | kern/syscall.c:470-471 | every slot is visited at some step of the scan |
| Ipc.ScanStep | kern/syscall.c:472-484 | one step of the scan keeps the scan state well formed |
| Ipc.Scan | kern/syscall.c:468-485 | the whole scan keeps the scan state well formed |
| Ipc.ScanKeepsInv | kern/syscall.c:468-485 | after n steps, each sender parked for curenv among the visited slots was released (RUNNABLE, not sending, with its fetch error -E_INVAL or -E_NO_MEM in eax, or 0 for the sender whose fetch succeeded), unvisited slots are untouched, and the waiting count dropped by the number released |
| Ipc.ScanSlot | kern/syscall.c:471-484 | one iteration on the table in place performs exactly the step of Scan |
| Ipc.FetchAndRelease | kern/syscall.c:475-479 | fetch from a parked sender, then release it with the result in eax and decrement the receiver's waiting count |
| Ipc.ReleaseSender | kern/syscall.c:476-479 | the sender becomes RUNNABLE and stops sending with the fetch result in eax; the receiver's waiting count drops by one |
| Ipc.ScanSenders | kern/syscall.c:468-485 | the loop on the table ends in the state Scan describes after NENV steps, stopping early on a panic or a successful fetch |
| Ipc.SysIpcRecvAlt | kern/syscall.c:458-497 | -E_INVAL for a bad dstva; with senders waiting, the scan runs and returns 0 on the first successful fetch; otherwise curenv blocks as in sys_ipc_recv and yields |
| Ipc.RecvAltDelivers | kern/syscall.c:470-483 | a returning recv_alt took its message from a sender parked for curenv; that sender is released with 0 in eax, every sender released before it holds its fetch error in eax; curenv records it as the sender, and its waiting count dropped by the number of senders released |
| Ipc.RecvAltBlockReleasesAll | kern/syscall.c:464-496 | when recv_alt blocks after scanning, every sender that was parked for curenv has been released: RUNNABLE, not sending, with its fetch error (-E_INVAL or -E_NO_MEM) in eax |
| Ipc.RecvAltKeepsId | kern/syscall.c:458-497 | unless it panics, recv_alt keeps curenv's slot under the same id |
| Dispatch.SysNoCode | kern/syscall.c:507-551 | each system call has a number below NSYSCALLS |
| Dispatch.DecodeSysNo | kern/syscall.c:507-551 | a number selects a case exactly when it is below NSYSCALLS, and the case selected is the one with that number |
| Dispatch.SysNoRoundTrip | kern/syscall.c:507-551 | every call is reached by its own number and by no other |
| Dispatch.IntArg | kern/syscall.c:519-521 | a cast argument is a 32-bit signed value with the same bit pattern as the word |
| Dispatch.DispatchSyscall | kern/syscall.c:507-551 | for each of the sixteen numbers, the outcome and the new state are what that call's handler specification gives for the arguments with the source's casts (`envid_t` and `int` arguments as 32-bit signed values, permissions as their bits, addresses as words); an unknown number returns -E_INVAL with nothing changed |
| Dispatch.ReturnKeepsCurenv | kern/syscall.c:507-551 | a call that returns leaves curenv in place, under the same id, so trap can resume it |
| Sched.SlotAt | kern/sched.c:37-56 | advancing with wrap-around from NENV-1 to 0 stays in the table |
| Sched.Dist | kern/sched.c:37-56 | every slot is reached a unique number of steps after the start, and only the start is reached after 0 steps |
| Sched.DistOfSlot | kern/sched.c:37-56 | steps and slots correspond one to one within a round |
| Sched.FirstEligibleSpec | kern/sched.c:37-56 | the scan finds the eligible slot nearest after the start, or nothing exactly when no slot in the rest of the round is eligible |
| Sched.ScheduleScanChoice | kern/sched.c:37-56 | when some other slot is RUNNABLE and not idle, one is run: the first such slot in circular order after curenv |
| Sched.ScheduleFallback | kern/sched.c:61-79 | if the scan finds nothing, the kernel enters the monitor exactly when no non-idle environment is RUNNABLE or RUNNING; otherwise it runs this CPU's idle environment if that is runnable |
| Sched.ScheduleRunsLive | kern/sched.c:11-80 | whatever is run is RUNNABLE or RUNNING, and curenv's own slot is run only as this CPU's idle environment |
| Sched.RunningCurenvNotRepicked | kern/sched.c:37-79 | a RUNNING curenv is not chosen again even when nothing else can run (see below) |
| Sched.ScanRound | kern/sched.c:37-56 | the wrap-around loop returns the slot the circular scan specifies |
| Sched.AnyBusy | kern/sched.c:61-67 | the idle check finds a busy environment exactly when one exists |
| Sched.SchedYield | kern/sched.c:11-80 | sched_yield's choice is the one Schedule specifies; it changes nothing itself |
| Trap.TrapName | kern/trap.c:29-59 | the first twenty traps are named from the table, trap 48 is "System call", and every other number is "(unknown trap)" |
| Trap.TrapNameUnknown | kern/trap.c:29-59 | reserved vector 15, negative numbers and numbers from 20 except 48 are unknown |
| Trap.Classify | kern/trap.c:179-209 | page faults, breakpoint/debug traps and system calls each go to their own handler; anything else is unexpected, and it counts as in the kernel exactly when cs is the kernel code segment |
| Trap.EncodeFault | kern/trap.c:149-153 | a decoded page-fault error code fits in its three low bits |
| Trap.FaultCodeRoundTrip | kern/trap.c:149-153 | decoding the encoded user/write/protection bits gives them back |
| Trap.FaultCodeLowBits | kern/trap.c:149-153 | only the three low bits of the error code matter |
| Trap.SaveUserFrame | kern/trap.c:225-234 | a trap from user mode saves its frame into curenv and changes nothing else; with no curenv the kernel halts |
| Trap.PageFaultHandler | kern/trap.c:250-273 | every page fault that reaches the kernel panics |
| Trap.SyscallHandler | kern/trap.c:283-294 | the call made is the one SyscallSpec gives for number eax and arguments edx, ecx, ebx, edi and esi in that order; a returned value is then written into eax of the saved frame and nothing else changes; a yield or a panic writes nothing |
| Trap.Reschedule | kern/sched.c:11-80 | after a yield: env_run of the environment Schedule picks, which becomes curenv, or the monitor or a halt with the state unchanged |
| Trap.ResumeCurenv | kern/trap.c:243-245 | after the handler, a RUNNING curenv is run again; otherwise the kernel's assertion fails and it halts with the state unchanged |
| Trap.Trap | kern/trap.c:212-246 | a user trap with no curenv halts with nothing changed; otherwise trap saves a user frame into curenv and then does what TrapRouteSpec describes from that state: page faults and unexpected traps halt; a breakpoint runs the monitor and resumes curenv once a line exits it; a system call follows SyscallSpec on eax, edx, ecx, ebx, edi and esi, then writes a returned value into the saved eax and resumes curenv, reschedules on a yield, or halts on a panic; any environment resumed is curenv and RUNNING |
| Trap.RouteTrap | kern/trap.c:238-245 | trap_dispatch followed by the return to curenv does what TrapRouteSpec describes |
| Trap.TrapDispatch | kern/trap.c:179-209 | page faults and unexpected traps halt with nothing changed; a breakpoint leaves the state AfterMonitor gives and returns to trap exactly when a line exits the monitor; a system call runs syscall_handler on the saved registers and returns to trap when the call returns, reschedules when it yields and halts when it panics |
| Fork.RoPte | lib/fork.c:37-44 | the entry read through vpd/vpt has PTE_P exactly when the page is mapped, and is then its permission bits |
| Fork.PageVaSpec | lib/fork.c:115 | `pn * PGSIZE` is page-aligned and names page pn |
| Fork.DupPermSpec | lib/fork.c:121-125 | the duplicated permission is allowed and never writable; it carries COW exactly when the page was writable or COW; P, U and the AVAIL bits are kept; applying it twice changes nothing more |
| Fork.SpacesOnlyResolve | kern/syscall.c:234-237 | envid2env does not look at address spaces: a table that changed only address spaces resolves every id for curenv as before |
| Fork.SpacesOnlyMap | kern/syscall.c:215-246 | replacing one environment's address space, as a successful sys_page_map does, keeps every id, status and parent |
| Fork.MapOwnPage | lib/fork.c:128-133 | `sys_page_map(thisenv->env_id, va, envid, va, perm)` for a page curenv maps changes only address spaces (ids, statuses and parents are kept) and keeps the page in curenv; a failure changes nothing; when thisenv names no environment with the page it fails; when thisenv names curenv it fails exactly under CopyFails and otherwise maps curenv's frame into the target with the given permission, taking a frame exactly when the target lacks that page table |
| Fork.Duppage | lib/fork.c:112-135 | an unmapped page changes nothing; only address spaces ever change; a mapped page panics, changing nothing, when thisenv names no environment with the page; when thisenv names curenv, a mapped page panics exactly when a map call fails, changing nothing, and otherwise both child and parent map the frame copy-on-write, with one frame taken exactly when the child lacks the page table |
| Fork.DuppageShare | lib/fork.c:138-150 | an unmapped page changes nothing; only address spaces change, and a panic changes nothing; a mapped page panics when thisenv names no environment with it; when thisenv names curenv, a mapped page panics exactly when the map fails, and otherwise the child shares the frame with the same permissions |
| Fork.CopyPage | lib/fork.c:200-202 | with thisenv naming curenv, duplicating page pn panics exactly when the child page tables that the copy through pn adds (as NewTables counts them) outnumber the frames left, and then changes nothing and leaves the frame list empty; with thisenv naming nothing to copy from, it panics exactly when curenv maps page pn, changing nothing; otherwise the copy invariant covers pn too and exactly one frame per added page table has left the list; with thisenv naming another child, only address spaces change |
| Fork.FramesStep | lib/fork.c:128 | for one page: an unmapped page takes no frame; a mapped one fails exactly when its child page table is missing and no frame is left, which is exactly when the running count of added page tables exceeds the frames; otherwise it takes a frame exactly when its page table is new to the child |
| Fork.CopyInvSpaces | lib/fork.c:196-204 | while the copy invariant holds, only address spaces have changed since MakeChild |
| Fork.ThisenvAt | lib/fork.c:128-147 | during the copy, thisenv that named curenv at the start still names it, and thisenv that named nothing to copy from still names no environment with the next page while curenv has mapped no earlier page |
| Fork.NewTablesGrow | lib/fork.c:196-204 | copying more pages never adds fewer child page tables, so it never needs fewer frames |
| Fork.CopyTable | lib/fork.c:197-203 | a page-directory entry without a present table is skipped, with no page copied and no frame taken; otherwise the table's entries are copied as CopyEntries states; with thisenv naming curenv a panic also means that the copy up to the limit needs more frames than are left, and with thisenv naming nothing to copy from, that curenv maps a page below the limit |
| Fork.CopyEntries | lib/fork.c:199-203 | with thisenv naming curenv, the inner loop over a present page table's entries below the limit panics exactly when the copy through the end of that table adds more child page tables than frames are left; with thisenv naming nothing to copy from, exactly when curenv maps a page up to the end of that table; otherwise the copy invariant covers the whole table, or up to the limit, and exactly one frame per added page table has left the list; with thisenv naming another child, only address spaces change |
| Fork.CopyAll | lib/fork.c:196-204 | with thisenv naming curenv, the nested loop panics exactly when the copy below the limit adds more child page tables than frames are left, and then leaves the frame list empty; with thisenv naming nothing to copy from, exactly when curenv maps a page below the limit; otherwise every parent page below the limit is copied into the child, COW or shared, the parent is re-marked, and exactly one frame per added page table has left the list; with thisenv naming another child, only address spaces change; memory and the slot free list are unchanged in every case |
| Fork.CowCopyShares | lib/fork.c:196-204 | after fork's loop, child and parent map each copied page to its original frame with the same entry, never writable, COW exactly where the page was writable or COW |
| Fork.ShareCopyShares | lib/fork.c:238-246 | after sfork's loop the parent is unchanged, and the child maps each page to the same frame, writable exactly where the parent's page is |
| Fork.MakeChild | lib/fork.c:177-191 | panics exactly when no slot is free or fewer than three frames are left; otherwise a NOT_RUNNABLE child that curenv manages, with its upcall set and a zeroed exception-stack page as its only mapping; three frames are taken and memory changes only in that page's frame |
| Fork.ExoforkThisenv | lib/fork.c:177-180 | sys_exofork changes what thisenv names only when thisenv is the slot it hands out, which then names the new child with no page below the exception stack; the parent's thisenv keeps naming what it named |
| Fork.Spawn | lib/fork.c:173-204 | with thisenv naming curenv, creating the child and copying up to the limit panics exactly when no slot is free or fewer than 3 + CopyFrames frames are left (exofork's, the exception-stack page and its page table, and one per page table the copy adds); with thisenv naming nothing to copy from, exactly when no slot is free, fewer than 3 frames are left, or curenv maps a page below the limit; on success (in both cases) the slot free list loses its head and the frame list loses exactly those frames; in every case a child made means a free slot and 3 frames, and memory changes only in the zeroed exception-stack frame |
| Fork.Finish | lib/fork.c:205-207 | marking the child RUNNABLE cannot fail on the child curenv just made, whatever the copy did to address spaces; it changes only the child's status, and fork returns the child's id |
| Fork.Fork | lib/fork.c:169-208 | with thisenv naming curenv, fork panics exactly when no slot is free or fewer than 3 + CopyFrames(parent's entries below the exception stack) frames are left; with thisenv naming nothing to copy from (the state of a child that forks again), it panics exactly when no slot is free, fewer than 3 frames are left or curenv maps any page below the exception stack; on success in both cases the slot free list loses the child's slot at its head, the frame list loses exactly those frames, the child is RUNNABLE with every parent page below the exception stack a COW copy, and the parent is re-marked; memory changes only in the child's zeroed exception-stack frame |
| Fork.Sfork | lib/fork.c:212-252 | with thisenv naming curenv, sfork panics exactly when no slot is free or fewer than 3 + CopyFrames(parent's entries through the stack page) frames are left; with thisenv naming nothing to copy from, exactly when no slot is free, fewer than 3 frames are left or curenv maps any page through the stack page; on success in both cases the slot free list loses its head, the frame list loses exactly those frames, the child is RUNNABLE, shares every page below the user stack with the parent's own entry, and has the stack page COW in both; memory changes only in the child's zeroed exception-stack frame |
| Fork.SforkStack | lib/fork.c:247-251 | with thisenv naming curenv, duppage of the stack page panics exactly when the copy through it adds more child page tables than frames are left, leaving the frame list empty; with thisenv naming nothing to copy from, exactly when curenv maps the stack page; otherwise exactly one frame per added page table has left the list, and the child is made RUNNABLE with every page through the stack page copied |
| Fork.SforkShares | lib/fork.c:212-252 | after sfork, pages below the stack are shared with their write bit kept, the stack page is COW in both, and no other parent mapping changed |
| Fork.CopyPermSpec | lib/fork.c:88 | the fault copy's permission is allowed and writable, and keeps the COW bit as it was (see below) |
| Fork.Pgfault | lib/fork.c:51-98 | above UTOP it panics exactly on a write and changes nothing; a fault that is not a user write to a present COW page panics and changes nothing; otherwise it panics exactly when page_alloc_map finds no frame, and on success the frame list is what that allocation leaves, the page maps the new frame with the copy permission, PFTEMP is unmapped, and the new frame holds the bytes of the old one |
| Fork.CopyFaultPage | lib/fork.c:85-96 | it panics exactly when the allocation at PFTEMP fails, changing nothing; otherwise the frame list is what the allocation leaves, only curenv's address space and the new frame change, the faulting page maps the new frame with the new permission, PFTEMP is unmapped, and, for a faulting page other than PFTEMP, the new frame holds the bytes of its old frame |
| Fork.AllocTemp | lib/fork.c:87-90 | `sys_page_alloc(envid, PFTEMP, perm)` with curenv's own id succeeds exactly when page_alloc_map finds the frames; it then maps a zeroed frame at PFTEMP in curenv and changes nothing else, and a failure changes nothing |
| Fork.TempToPage | lib/fork.c:93-96 | the frame at PFTEMP moves to the faulting page with the new permission, and PFTEMP becomes unmapped |
| Fork.MoveToPage | lib/fork.c:91-96 | the memmove, sys_page_map and sys_page_unmap of pgfault: the frame at PFTEMP receives the bytes of the faulting page's frame and is then mapped at the faulting page with the new permission, PFTEMP becomes unmapped, and the frame list and every other slot are unchanged |
| Fork.MapTempAt | lib/fork.c:93-94 | the frame at PFTEMP is also mapped at the faulting page |
| Monitor.StrlenFrom | kern/monitor.c:414-416 | a C string ends at its first NUL |
| Monitor.LineOf | kern/monitor.c:403-404 | the command line is the prefix of the buffer before the first NUL |
| Monitor.WordEnd | kern/monitor.c:425-426 | a word runs to the next whitespace character or the end of the line |
| Monitor.StartsBelow | kern/monitor.c:412-427 | the word starts found before a position lie before it |
| Monitor.StartsBelowSpec | kern/monitor.c:412-427 | these are exactly the word starts before the position, in increasing order |
| Monitor.BlankLineRunsNothing | kern/monitor.c:431-432 | a line of whitespace has no words |
| Monitor.ArgIsWord | kern/monitor.c:414-426 | after whitespace is overwritten with NULs, each argv entry reads as its whitespace-delimited word |
| Monitor.SkipWhite | kern/monitor.c:414-415 | the whitespace loop stops at the next non-blank character or the end, NUL-ing what it passes |
| Monitor.SkipWord | kern/monitor.c:425-426 | the word loop stops at the next whitespace character or the end |
| Monitor.Tokenize | kern/monitor.c:410-428 | argv holds exactly the word starts of the line; "too many arguments" happens exactly when the line has MAXARGS or more words, with the first MAXARGS-1 recorded |
| Monitor.FindCommandSpec | kern/monitor.c:433-436 | the lookup finds the first command with the name, or nothing exactly when no command has it |
| Monitor.LookupCommand | kern/monitor.c:433-436 | the loop returns a command with that name, and nothing exactly when no command has it |
| Monitor.CommandResult | kern/monitor.c:311-331 | a command returns -1 exactly when it is resume or step and there is a curenv; every other result is 0 |
| Monitor.RunCmd | kern/monitor.c:403-439 | runcmd's result follows from the command its line names; only step with a curenv changes the table, setting curenv's trap flag |
| Monitor.RunLine | kern/monitor.c:403-439 | the same on a line value |
| Monitor.Monitor | kern/monitor.c:442-461 | the monitor runs lines until the first whose command returns a negative value; it exits exactly when ExitLine finds such a line, on that line, and only that line's effect is applied |
| Monitor.ExitLine | kern/monitor.c:454-458 | the line the monitor exits on is the first whose command returns a negative value, and there is none exactly when no line does |
| Monitor.NonFreeStep | kern/monitor.c:374-375 | one slot further, the set of slots that are not FREE gains that slot exactly when it is not FREE, and its size grows by one exactly then |
| Monitor.ListsStep | kern/monitor.c:374-391 | printing slot m's line when it is not FREE extends a listing of the first m slots, with one line per such slot at its count of such slots before it, to one of the first m + 1 |
| Monitor.BeforeCounts | kern/monitor.c:373-375 | the running count of slots that are not FREE among the first m equals the size of the set of such slots |
| Monitor.ListingSpec | kern/monitor.c:371-395 | there is exactly one line per slot that is not FREE (the count equals the number of such slots); the line of such a slot i is its id, type name and status name, and it stands at position "number of such slots before i"; no line has the status "???" |
| Monitor.ListingSound | kern/monitor.c:374-391 | every line of the listing is the line of some slot that is not FREE |
| Monitor.ListingOrder | kern/monitor.c:373 | slot order: a slot i that is not FREE has fewer such slots before it than any later slot j, so its line comes before slot j's |
| Monitor.MonEnvs | kern/monitor.c:371-395 | the loop over all NENV slots prints exactly Listing of the table, so ListingSpec, ListingSound and ListingOrder give its count, completeness and order |

## Code and comments that disagree

The model follows the code in each case below.

- `sys_env_set_status` (kern/syscall.c:94-95, 114-124). The comment allows
  only RUNNABLE and NOT_RUNNABLE, but the switch accepts all five status
  codes. `Syscall.SysEnvSetStatus` stores any of them.
- `sys_page_alloc` (kern/syscall.c:175). The comment demands a page-aligned
  `va`, but the code never checks it. `Syscall.UnalignedPageAllocAccepted`
  shows that such an address maps the page holding it.
- `sched_yield` (kern/sched.c:22-24, 37-79). The comment allows a curenv
  that is still RUNNING to be chosen again when nothing else is runnable.
  The scan stops before it reaches curenv's own slot, so such a curenv is
  never re-picked. This CPU's idle environment runs instead, or the kernel
  panics when there is none. `Sched.RunningCurenvNotRepicked` states this.
- `sched_yield` with no curenv (kern/sched.c:44-49). The scan starts at
  slot 0 and stops there, so slot 0 is never examined by the scan.
  `Sched.ScheduleScanChoice` excludes the starting slot.
- `pgfault` (lib/fork.c:88). The new permission keeps the COW bit of the
  old entry, so the private copy is still marked copy-on-write.
  `Fork.CopyPermSpec` states this.
- `page_fault_handler` (kern/trap.c:250-273). It panics before it reaches
  the code that would destroy the faulting environment, so no page fault
  reaches a user handler. `lib/fork.c`'s `pgfault` is modelled as the
  handler it would be.
- `sys_ipc_recv_alt` (kern/syscall.c:479). The waiting count drops for
  every sender the scan releases, including senders whose fetch failed.
  Each such sender is released with its error in eax.
- `pgfault` when the faulting page is PFTEMP itself. The final unmap
  removes the new copy, so the page is left unmapped. `Fork.Pgfault`
  states this as the removal of PFTEMP after the copy is mapped.
- `fork` and `sfork` in the child (lib/fork.c:164, 178-180, 220-222).
  The hint asks to fix `thisenv` in the child, but the child's branch only
  calls `sys_getenvid` and returns 0. A child's `thisenv` keeps pointing
  at its parent's slot, whose id the child may not use. So when a child
  forks again, its first mapped page below the limit panics. `Fork.Fork`
  and `Fork.Sfork` state this as their `NamesNone` case.

## Left out

- Spinlocks (`env_ipc_queue_lock`, `monitor_lock`) and concurrency between
  CPUs: each operation runs atomically on the table. Because of this, the
  model cannot show that the early returns of `sys_ipc_try_send_alt`
  (kern/syscall.c:362-369) keep the target's lock held.
- The console, the time-stamp counter and `user_mem_check` are parameters:
  `consoleChar` for `sys_cgetc`, `tsc` for `sys_ipc_recv_alt`, and
  `readable` for `sys_cputs`. What cputs prints is not modelled.
- `readline` is replaced by a sequence of lines; its NULL result, which the
  monitor skips, is not modelled.
- `sys_paging_scan` returns 0 and its printing is not modelled.
- Monitor commands other than `resume`, `step` and `envs` only print, or
  change kernel page tables that are not modelled. They are looked up, and
  they return 0.
- `env_run`'s context switch, `lcr3` and the `iret`: `env_run` returns its
  effect on the table, and the trap path reports which environment it
  resumed.
- `print_trapframe`, `print_regs` and the page-fault diagnostics are output
  only. The fault-bit decoding they print is modelled.
- `wakeup_env_eax` (kern/syscall.c:423-427) is never called.
- Page reference counts, `page_free` and the frames of page tables. Frames
  are taken from the head of a free list and never returned.
- `kern/env.c` and `kern/pmap.c` are not part of this model. Their
  functions appear only through the contracts listed above.
- `inc/syscall.h` is not part of this model. The system-call numbers follow
  the standard JOS order, with `paging_scan`, `ipc_try_send_alt` and
  `ipc_recv_alt` numbered after `ipc_recv`.
- The child's side of `fork` and `sfork` (the `cid == 0` branch) runs in
  another environment. It is represented by the child's eax = 0, which
  `Syscall.ExoforkChildIsManaged` states. The parent's `sys_getenvid`
  changes nothing and is not modelled. The upcall address is a parameter.
- `set_pgfault_handler`, called by `fork` and `sfork` before `sys_exofork`
  (lib/fork.c:174, 216). `lib/pgfault.c` is not part of this model. On its
  first use it allocates the caller's own exception-stack page and
  registers the caller's upcall. `Fork.Fork`, `Fork.Sfork`, `Fork.Spawn`
  and `Fork.MakeChild` start from the state after that call. So their
  contracts do not cover that allocation or its failure, and "curenv's
  upcall and mappings are unchanged" means unchanged from that state.
- `kern/e1000.c`, `kern/printf.c` and `user/matrixmul.c` are outside the
  modelled core.
- Trap setup (`trap_init`, `trap_init_percpu`) and the `cld` and
  interrupt-flag assertion at kernel entry.
- Fork.Fork, Fork.Sfork: page faults that the caller takes during the copy
  are not modelled. The loop in `fork` (lib/fork.c:196-204) reaches the
  page at USTACKTOP-PGSIZE, and `sfork` copies it explicitly
  (lib/fork.c:248). In both, `duppage` remaps the caller's own stack page
  read-only and COW (lib/fork.c:132). The caller's next write to its stack
  then faults, and `page_fault_handler` panics (kern/trap.c:263). So for
  that page, the parent re-marked by Marked, and every step after that
  page, describe a state that the running program does not reach. The
  model treats the copy as if the caller's stack were not touched during
  it.
- Fork.Pgfault: the memmove is stated only when the faulting page is not
  PFTEMP and its frame differs from the new one. When the faulting page is
  PFTEMP, the copy is unmapped at the end anyway.
- Fork.MapOwnPage, Fork.Duppage, Fork.DuppageShare, Fork.CopyPage,
  Fork.CopyEntries, Fork.CopyTable, Fork.CopyAll, Fork.Spawn, Fork.Fork,
  Fork.Sfork, Fork.SforkStack: when `thisenv` names another child of
  curenv (`NamesOther`), the contracts state only that ids, statuses and
  parents are kept. Fork, Sfork and Spawn also state the slot and frame
  bounds and memory. Which pages then move between curenv, that child and
  the new child is not stated: it depends on the other child's mappings.
