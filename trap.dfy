/**
 * Trap handling (kern/trap.c): the names of the processor exceptions, the
 * routing of a trap by its number, the decoding of a page-fault error code,
 * the system-call handler's use of the saved registers, and `trap` itself:
 * save the frame of a trap from user mode into curenv, dispatch, and go back
 * to curenv only if it is still RUNNING.
 *
 * Descriptor tables, the interrupt flag assertion, `cld` and all diagnostic
 * printing are left out.  Where the kernel never returns (env_run, panic, the
 * monitor loop of the scheduler) the model returns an outcome instead.
 */
module Trap {
  import opened Machine
  import opened EnvLayout
  import opened Pmap
  import opened EnvTable
  import opened Syscall
  import opened Sched
  import opened Monitor
  import opened Dispatch

  // ---------------------------------------------------------------------
  // trapname
  // ---------------------------------------------------------------------

  const ExcNames: seq<string> := [
    "Divide error", "Debug", "Non-Maskable Interrupt", "Breakpoint", "Overflow",
    "BOUND Range Exceeded", "Invalid Opcode", "Device Not Available", "Double Fault",
    "Coprocessor Segment Overrun", "Invalid TSS", "Segment Not Present", "Stack Fault",
    "General Protection", "Page Fault", "(unknown trap)", "x87 FPU Floating-Point Error",
    "Alignment Check", "Machine-Check", "SIMD Floating-Point Exception"]

  /**
   * trapname(trapno).  The bound check compares against an unsigned size, so
   * a negative trap number is out of the table's range, not an index.
   */
  function TrapName(trapno: int): (name: string)
    ensures 0 <= trapno < |ExcNames| ==> name == ExcNames[trapno]
    ensures trapno == T_SYSCALL ==> name == "System call"
    ensures !(0 <= trapno < |ExcNames|) && trapno != T_SYSCALL ==> name == "(unknown trap)"
  {
    if 0 <= trapno < |ExcNames| then ExcNames[trapno]
    else if trapno == T_SYSCALL then "System call"
    else "(unknown trap)"
  }

  /** Slot 15 of the table is reserved and named like an unknown trap; a negative number is unknown. */
  lemma TrapNameUnknown(trapno: int)
    requires trapno == 15 || trapno < 0 || (20 <= trapno && trapno != T_SYSCALL)
    ensures TrapName(trapno) == "(unknown trap)"
  {
  }

  // ---------------------------------------------------------------------
  // trap_dispatch: routing by trap number
  // ---------------------------------------------------------------------

  datatype Route =
    | ToPageFault          // page_fault_handler
    | ToBreakpoint         // break_point_handler: the monitor
    | ToSyscall            // syscall_handler
    | Unexpected(inKernel: bool)  // panic "unhandled trap in kernel" / "in user"

  /** The switch of trap_dispatch; an unexpected trap is blamed on the kernel exactly when cs is GD_KT. */
  function Classify(trapno: Word, cs: Word): (r: Route)
    ensures r == ToPageFault <==> trapno == T_PGFLT
    ensures r == ToBreakpoint <==> trapno == T_BRKPT || trapno == T_DEBUG
    ensures r == ToSyscall <==> trapno == T_SYSCALL
    ensures r.Unexpected? ==> (r.inKernel <==> cs == GD_KT)
  {
    if trapno == T_PGFLT then ToPageFault
    else if trapno == T_BRKPT || trapno == T_DEBUG then ToBreakpoint
    else if trapno == T_SYSCALL then ToSyscall
    else Unexpected(cs == GD_KT)
  }

  // ---------------------------------------------------------------------
  // The page-fault error code, as print_trapframe decodes it
  // ---------------------------------------------------------------------

  datatype FaultCode = FaultCode(user: bool, write: bool, protection: bool)

  /** Bit 2 (value 4): user mode; bit 1 (value 2): a write; bit 0 (value 1): a protection violation. */
  function DecodeFault(err: Word): FaultCode
  {
    FaultCode((err / 4) % 2 == 1, (err / 2) % 2 == 1, err % 2 == 1)
  }

  /** The error code the processor pushes for a fault of this kind. */
  function EncodeFault(f: FaultCode): (err: Word)
    ensures err < 8
  {
    (if f.user then FEC_U else 0) + (if f.write then FEC_WR else 0) + (if f.protection then FEC_PR else 0)
  }

  /** Decoding inverts encoding. */
  lemma FaultCodeRoundTrip(f: FaultCode)
    ensures DecodeFault(EncodeFault(f)) == f
  {
    var e := EncodeFault(f);
    assert e / 4 == (if f.user then 1 else 0);
    assert (e / 2) % 2 == (if f.write then 1 else 0);
  }

  /** Only the three low bits of an error code matter: a code decodes as its low three bits do. */
  lemma FaultCodeLowBits(err: Word)
    ensures DecodeFault(err) == DecodeFault(err % 8)
  {
    var q, r := err / 8, err % 8;
    assert err == 8 * q + r;
    assert err / 4 == 2 * q + r / 4;
    assert err / 2 == 4 * q + r / 2;
  }

  // ---------------------------------------------------------------------
  // trap
  // ---------------------------------------------------------------------

  datatype TrapOutcome =
    | Resumed(i: nat)   // env_run(&envs[i])
    | Halted            // panic, a failed assertion, or the page-fault handler
    | InMonitor         // the monitor is (still) waiting for commands

  /**
   * The entry half of trap: a trap from user mode (cs & 3 == 3) saves its
   * frame into curenv's env_tf, the assertion that there is a curenv
   * failing otherwise (`halt`); a trap from the kernel saves nothing.
   */
  method SaveUserFrame(k: Kernel, tf: Trapframe) returns (halt: bool, saved: Option<nat>)
    requires k.Valid()
    modifies k.envs
    ensures k.Valid()
    ensures halt <==> Cpl(tf.cs) == 3 && k.cur.None?
    ensures saved.Some? <==> Cpl(tf.cs) == 3 && k.cur.Some?
    ensures saved.Some? ==>
      && saved == k.cur
      && k.envs[..] == old(k.envs[..])[saved.value := old(k.envs[saved.value]).(tf := tf)]
    ensures saved.None? ==> k.envs[..] == old(k.envs[..])
    ensures k.State() == SaveFrame(old(k.State()), tf)
  {
    if Cpl(tf.cs) == 3 {
      if k.cur.None? {
        return true, None;
      }
      var c := k.cur.value;
      assert IdOk(k.envs[..][c], c) && Wf(k.envs[..][c].pgdir);
      k.SetEnv(c, k.envs[c].(tf := tf));
      return false, Some(c);
    }
    return false, None;
  }

  /**
   * page_fault_handler: in this kernel it always panics; the code that
   * would destroy the faulting environment after the panic never runs.
   */
  method PageFaultHandler(tf: Trapframe) returns (o: TrapOutcome)
    ensures o == Halted
  {
    o := Halted;
  }

  /** The state once trap has saved a frame from user mode into curenv's env_tf. */
  function SaveFrame(s: KState, tf: Trapframe): (s': KState)
    requires |s.envs| == NENV && (s.cur.Some? ==> s.cur.value < NENV)
    ensures TableInv(s.envs, s.cur, s.envFreeList) ==> TableInv(s'.envs, s'.cur, s'.envFreeList)
  {
    if Cpl(tf.cs) == 3 && s.cur.Some? then
      s.(envs := s.envs[s.cur.value := s.envs[s.cur.value].(tf := tf)])
    else s
  }

  /** syscall_handler's write-back: a returned value goes into eax of the saved frame, if there is one. */
  function WriteBack(s: KState, saved: Option<nat>, o: SysOutcome): (s': KState)
    requires saved.Some? ==> saved.value < |s.envs|
    ensures TableInv(s.envs, s.cur, s.envFreeList) ==> TableInv(s'.envs, s'.cur, s'.envFreeList)
  {
    if o.Returned? && saved.Some? then
      s.(envs := s.envs[saved.value := s.envs[saved.value].(tf := WithEax(s.envs[saved.value].tf, ToWord(o.r)))])
    else s
  }

  /** The state after the monitor has read `lines`: only the line that exits can have changed the table. */
  function AfterMonitor(s: KState, lines: seq<seq<char>>): (s': KState)
    requires s.cur.Some? ==> s.cur.value < |s.envs|
    ensures TableInv(s.envs, s.cur, s.envFreeList) ==> TableInv(s'.envs, s'.cur, s'.envFreeList)
  {
    match ExitLine(lines, s.cur.Some?)
    case None => s
    case Some(j) => s.(envs := AfterLine(s.envs, s.cur, lines[j]))
  }

  /**
   * syscall_handler(tf): the call number is eax, the arguments are edx, ecx,
   * ebx, edi and esi, in that order; `mid` is the state the call leaves.  A
   * returned value then goes back into the saved eax of the frame, which
   * for a trap from user mode is curenv's env_tf (slot `saved`).  A call
   * that yields or panics writes nothing.
   */
  method SyscallHandler(k: Kernel, tf: Trapframe, saved: Option<nat>, readable: bool, consoleChar: int, tsc: int)
    returns (o: SysOutcome, ghost mid: KState)
    requires k.Valid() && k.cur.Some? && (saved.Some? ==> saved.value < NENV)
    modifies k, k.envs
    ensures k.Valid() && k.envs == old(k.envs)
    ensures TableInv(mid.envs, mid.cur, mid.envFreeList)
    ensures SyscallSpec(old(k.State()), tf.regs.eax, tf.regs.edx, tf.regs.ecx, tf.regs.ebx, tf.regs.edi, tf.regs.esi,
                        readable, consoleChar, tsc, o, mid)
    ensures k.State() == WriteBack(mid, saved, o)
    ensures o.Returned? && saved.Some? ==> k.envs[saved.value].tf.regs.eax == ToWord(o.r)
  {
    var regs := tf.regs;
    o := DispatchSyscall(k, regs.eax, regs.edx, regs.ecx, regs.ebx, regs.edi, regs.esi, readable, consoleChar, tsc);
    mid := k.State();
    if o.Returned? && saved.Some? {
      var c := saved.value;
      assert IdOk(k.envs[..][c], c) && Wf(k.envs[..][c].pgdir);
      k.SetEnv(c, k.envs[c].(tf := WithEax(k.envs[c].tf, ToWord(o.r))));
    }
  }

  /**
   * The scheduler's decision applied to the state: env_run of the chosen
   * environment, the monitor loop, or the idle-environment panic.
   */
  ghost predicate RescheduleSpec(s: KState, cpu: nat, o: TrapOutcome, s': KState)
    requires TableInv(s.envs, s.cur, s.envFreeList) && cpu < NENV
  {
    match Schedule(s.envs, s.cur, cpu)
    case RunEnv(i) =>
      i < NENV && o == Resumed(i) && s' == s.(envs := AfterRun(s.envs, s.cur, i, cpu), cur := Some(i))
    case ToMonitor => o == InMonitor && s' == s
    case NoIdle => o == Halted && s' == s
  }

  /** sched_yield and what follows it: what RescheduleSpec describes. */
  method Reschedule(k: Kernel, cpu: nat) returns (o: TrapOutcome)
    requires k.Valid() && cpu < NENV
    modifies k, k.envs
    ensures k.Valid() && k.envs == old(k.envs)
    ensures RescheduleSpec(old(k.State()), cpu, o, k.State())
  {
    var choice := SchedYield(k, cpu);
    ScheduleRunsLive(k.envs[..], k.cur, cpu);
    match choice
    case RunEnv(i) =>
      EnvRun(k, i, cpu);
      o := Resumed(i);
    case ToMonitor =>
      o := InMonitor;
    case NoIdle =>
      o := Halted;
  }

  /** The last lines of trap on the state: curenv must exist and be RUNNING, and is run again. */
  ghost predicate ResumeSpec(s: KState, cpu: nat, o: TrapOutcome, s': KState)
    requires TableInv(s.envs, s.cur, s.envFreeList)
  {
    if s.cur.Some? && s.envs[s.cur.value].status == Running then
      o == Resumed(s.cur.value) && s' == s.(envs := AfterRun(s.envs, s.cur, s.cur.value, cpu))
    else o == Halted && s' == s
  }

  /** The last lines of trap: what ResumeSpec describes. */
  method ResumeCurenv(k: Kernel, cpu: nat) returns (o: TrapOutcome)
    requires k.Valid()
    modifies k, k.envs
    ensures k.Valid() && k.envs == old(k.envs)
    ensures ResumeSpec(old(k.State()), cpu, o, k.State())
  {
    if k.cur.None? || k.envs[k.cur.value].status != Running {
      return Halted;
    }
    var c := k.cur.value;
    EnvRun(k, c, cpu);
    o := Resumed(c);
  }

  /**
   * What trap does once any user frame is saved (state `s`, frame saved in
   * slot `saved`), ending in state `s'`.  A page fault or an unexpected trap
   * halts.  A breakpoint enters the monitor, which reads `lines`; curenv is
   * resumed once a line exits the monitor.  A system call does what
   * SyscallSpec says for the saved registers, leaving the state `mid`; a
   * returned value is written back and curenv resumed, a yield hands the CPU
   * to the scheduler, a panic halts.
   */
  ghost predicate TrapRouteSpec(s: KState, tf: Trapframe, saved: Option<nat>, cpu: nat, lines: seq<seq<char>>,
                                readable: bool, consoleChar: int, tsc: int,
                                o: TrapOutcome, sys: SysOutcome, mid: KState, s': KState)
    requires TableInv(s.envs, s.cur, s.envFreeList) && cpu < NENV && (saved.Some? ==> saved.value < NENV)
    requires tf.trapno == T_SYSCALL ==> s.cur.Some?
  {
    match Classify(tf.trapno, tf.cs)
    case ToPageFault => o == Halted && s' == s
    case Unexpected(_) => o == Halted && s' == s
    case ToBreakpoint =>
      if ExitLine(lines, s.cur.Some?).None? then o == InMonitor && s' == s
      else ResumeSpec(AfterMonitor(s, lines), cpu, o, s')
    case ToSyscall =>
      && TableInv(mid.envs, mid.cur, mid.envFreeList)
      && SyscallSpec(s, tf.regs.eax, tf.regs.edx, tf.regs.ecx, tf.regs.ebx, tf.regs.edi, tf.regs.esi,
                     readable, consoleChar, tsc, sys, mid)
      && (sys.Returned? ==> ResumeSpec(WriteBack(mid, saved, sys), cpu, o, s'))
      && (sys.Panicked? ==> o == Halted && s' == mid)
      && (sys.Yielded? ==> RescheduleSpec(mid, cpu, o, s'))
  }

  /**
   * trap(tf) on CPU `cpu`: save a user frame, then route the trap as
   * TrapRouteSpec describes.  A trap from user mode with no curenv halts on
   * the assertion.  The cputs verdict, the console character and the
   * time-stamp counter are passed on to the system call.  A system call from
   * kernel mode needs a curenv, as every handler acts for curenv.
   */
  method Trap(k: Kernel, tf: Trapframe, cpu: nat, lines: seq<seq<char>>,
              readable: bool, consoleChar: int, tsc: int)
    returns (o: TrapOutcome, ghost sys: SysOutcome, ghost mid: KState)
    requires k.Valid() && cpu < NENV
    requires Cpl(tf.cs) != 3 && tf.trapno == T_SYSCALL ==> k.cur.Some?
    modifies k, k.envs
    ensures k.Valid() && k.envs == old(k.envs)
    ensures Cpl(tf.cs) == 3 && old(k.cur).None? ==> o == Halted && k.State() == old(k.State())
    ensures !(Cpl(tf.cs) == 3 && old(k.cur).None?) ==>
      TrapRouteSpec(SaveFrame(old(k.State()), tf), tf, if Cpl(tf.cs) == 3 then old(k.cur) else None, cpu, lines,
                    readable, consoleChar, tsc, o, sys, mid, k.State())
    ensures o.Resumed? ==> k.cur == Some(o.i) && o.i < NENV && k.envs[o.i].status == Running
  {
    var halt, saved := SaveUserFrame(k, tf);
    o := Halted;
    sys := Panicked;
    mid := k.State();
    if !halt {
      o, sys, mid := RouteTrap(k, tf, saved, cpu, lines, readable, consoleChar, tsc);
    }
  }

  /** trap_dispatch followed by the return to curenv when trap_dispatch returns: what TrapRouteSpec describes. */
  method RouteTrap(k: Kernel, tf: Trapframe, saved: Option<nat>, cpu: nat, lines: seq<seq<char>>,
                   readable: bool, consoleChar: int, tsc: int)
    returns (o: TrapOutcome, ghost sys: SysOutcome, ghost mid: KState)
    requires k.Valid() && cpu < NENV && (saved.Some? ==> saved.value < NENV)
    requires tf.trapno == T_SYSCALL ==> k.cur.Some?
    modifies k, k.envs
    ensures k.Valid() && k.envs == old(k.envs)
    ensures TrapRouteSpec(old(k.State()), tf, saved, cpu, lines, readable, consoleChar, tsc, o, sys, mid, k.State())
    ensures o.Resumed? ==> k.cur == Some(o.i) && o.i < NENV && k.envs[o.i].status == Running
  {
    var back;
    o, back, sys, mid := TrapDispatch(k, tf, saved, cpu, lines, readable, consoleChar, tsc);
    if back {
      o := ResumeCurenv(k, cpu);
    }
  }

  /**
   * trap_dispatch(tf), with what follows when it does not return: `back`
   * says that it returned to trap, which then resumes curenv.  A page fault
   * or an unexpected trap halts and changes nothing; a breakpoint runs the
   * monitor and returns only once a line exits it; a system call runs
   * syscall_handler on the saved registers (`sys` its outcome, `mid` the
   * state it leaves before the write-back) and returns unless it yielded,
   * which reschedules, or panicked.
   */
  method TrapDispatch(k: Kernel, tf: Trapframe, saved: Option<nat>, cpu: nat, lines: seq<seq<char>>,
                      readable: bool, consoleChar: int, tsc: int)
    returns (o: TrapOutcome, back: bool, ghost sys: SysOutcome, ghost mid: KState)
    requires k.Valid() && cpu < NENV && (saved.Some? ==> saved.value < NENV)
    requires tf.trapno == T_SYSCALL ==> k.cur.Some?
    modifies k, k.envs
    ensures k.Valid() && k.envs == old(k.envs)
    ensures Classify(tf.trapno, tf.cs).ToPageFault? || Classify(tf.trapno, tf.cs).Unexpected? ==>
      !back && o == Halted && k.State() == old(k.State())
    ensures Classify(tf.trapno, tf.cs).ToBreakpoint? ==>
      && o == InMonitor && (back <==> ExitLine(lines, old(k.cur).Some?).Some?)
      && k.State() == AfterMonitor(old(k.State()), lines)
    ensures Classify(tf.trapno, tf.cs).ToSyscall? ==>
      && TableInv(mid.envs, mid.cur, mid.envFreeList)
      && SyscallSpec(old(k.State()), tf.regs.eax, tf.regs.edx, tf.regs.ecx, tf.regs.ebx, tf.regs.edi, tf.regs.esi,
                     readable, consoleChar, tsc, sys, mid)
      && (sys.Returned? ==> back && k.State() == WriteBack(mid, saved, sys))
      && (sys.Panicked? ==> !back && o == Halted && k.State() == mid)
      && (sys.Yielded? ==> !back && RescheduleSpec(mid, cpu, o, k.State()))
    ensures !back && o.Resumed? ==> k.cur == Some(o.i) && o.i < NENV && k.envs[o.i].status == Running
  {
    var route := Classify(tf.trapno, tf.cs);
    back := false;
    sys := Panicked;
    mid := k.State();
    if route.ToPageFault? {
      o := PageFaultHandler(tf);
    } else if route.Unexpected? {
      o := Halted;
    } else if route.ToBreakpoint? {
      var exited, _ := Monitor.Monitor(k, lines);
      o := InMonitor;
      back := exited;
    } else {
      var so;
      so, mid := SyscallHandler(k, tf, saved, readable, consoleChar, tsc);
      sys := so;
      o := Halted;
      if so.Yielded? {
        o := Reschedule(k, cpu);
      } else if !so.Panicked? {
        back := true;
      }
    }
  }
}
