/**
 * The system-call gateway of kern/syscall.c: decoding the call number and
 * passing the five argument words, cast to each handler's parameter types,
 * to the handler.
 *
 * The numbering lives in inc/syscall.h, which is not part of this model; the
 * standard JOS order is used, with the three calls this kernel adds
 * (paging_scan, ipc_try_send_alt, ipc_recv_alt) numbered after ipc_recv.
 */
module Dispatch {
  import opened Machine
  import opened EnvLayout
  import opened Pmap
  import opened EnvTable
  import opened Syscall
  import opened Ipc

  datatype SysNo =
    | SysCputsNo | SysCgetcNo | SysGetenvidNo | SysEnvDestroyNo
    | SysPageAllocNo | SysPageMapNo | SysPageUnmapNo | SysExoforkNo
    | SysEnvSetStatusNo | SysEnvSetPgfaultUpcallNo | SysYieldNo
    | SysIpcTrySendNo | SysIpcRecvNo
    | SysPagingScanNo | SysIpcTrySendAltNo | SysIpcRecvAltNo

  /** The number each call is made with. */
  function SysNoCode(n: SysNo): (c: Word)
    ensures c < NSYSCALLS
  {
    match n
    case SysCputsNo => 0
    case SysCgetcNo => 1
    case SysGetenvidNo => 2
    case SysEnvDestroyNo => 3
    case SysPageAllocNo => 4
    case SysPageMapNo => 5
    case SysPageUnmapNo => 6
    case SysExoforkNo => 7
    case SysEnvSetStatusNo => 8
    case SysEnvSetPgfaultUpcallNo => 9
    case SysYieldNo => 10
    case SysIpcTrySendNo => 11
    case SysIpcRecvNo => 12
    case SysPagingScanNo => 13
    case SysIpcTrySendAltNo => 14
    case SysIpcRecvAltNo => 15
  }

  const NSYSCALLS: nat := 16

  /** The `switch (syscallno)`: which case a number selects, if any. */
  function DecodeSysNo(no: Word): (n: Option<SysNo>)
    ensures n.Some? <==> no < NSYSCALLS
    ensures n.Some? ==> SysNoCode(n.value) == no
  {
    if no == 0 then Some(SysCputsNo)
    else if no == 1 then Some(SysCgetcNo)
    else if no == 2 then Some(SysGetenvidNo)
    else if no == 3 then Some(SysEnvDestroyNo)
    else if no == 4 then Some(SysPageAllocNo)
    else if no == 5 then Some(SysPageMapNo)
    else if no == 6 then Some(SysPageUnmapNo)
    else if no == 7 then Some(SysExoforkNo)
    else if no == 8 then Some(SysEnvSetStatusNo)
    else if no == 9 then Some(SysEnvSetPgfaultUpcallNo)
    else if no == 10 then Some(SysYieldNo)
    else if no == 11 then Some(SysIpcTrySendNo)
    else if no == 12 then Some(SysIpcRecvNo)
    else if no == 13 then Some(SysPagingScanNo)
    else if no == 14 then Some(SysIpcTrySendAltNo)
    else if no == 15 then Some(SysIpcRecvAltNo)
    else None
  }

  /** Every call is reached by its own number, and by no other. */
  lemma SysNoRoundTrip(n: SysNo, m: SysNo)
    ensures DecodeSysNo(SysNoCode(n)) == Some(n)
    ensures SysNoCode(n) == SysNoCode(m) ==> n == m
  {
  }

  /** `(int)a` or `(envid_t)a`: an argument word read as a signed 32-bit value. */
  function IntArg(a: Word): (i: int)
    ensures IsInt32(i) && ToWord(i) == a
  {
    Int32RoundTrip(0, a);
    ToInt32(a)
  }

  /** `(int)a` or `(unsigned)a` used as permission bits: the same 32-bit pattern. */
  function PermArg(a: Word): bv32
  {
    a as bv32
  }

  /**
   * syscall(no, a1, ..., a5) on the state.  An unknown number returns
   * -E_INVAL and changes nothing; yield yields; cputs and paging_scan return
   * 0 whatever their handler did (a cputs on an unreadable buffer destroys
   * the caller and yields first); getenvid and cgetc change nothing; every
   * other number does what its handler's specification says, with a1 ...
   * a5 cast as `syscall` casts them: envids and the status as signed 32-bit
   * values (IntArg), permission bits as a 32-bit pattern (PermArg),
   * addresses and values as they are.  The user_mem_check verdict for cputs,
   * the console character for cgetc and the time-stamp counter for
   * ipc_recv_alt are parameters.
   */
  ghost predicate SyscallSpec(s: KState, no: Word, a1: Word, a2: Word, a3: Word, a4: Word, a5: Word,
                              readable: bool, consoleChar: int, tsc: int, o: SysOutcome, s': KState)
    requires s.InSyscall()
  {
    match DecodeSysNo(no)
    case None => o == Returned(-E_INVAL) && s' == s
    case Some(n) =>
      match n
      case SysCputsNo => CputsSpec(s, readable, o, s')
      case SysCgetcNo => o == Returned(consoleChar) && s' == s
      case SysGetenvidNo => o == Returned(s.envs[s.cur.value].id) && s' == s
      case SysEnvDestroyNo => EnvDestroySpec(s, IntArg(a1), o, s')
      case SysPageAllocNo => o.Returned? && PageAllocSpec(s, IntArg(a1), a2, PermArg(a3), o.r, s')
      case SysPageMapNo => o.Returned? && PageMapSpec(s, IntArg(a1), a2, IntArg(a3), a4, PermArg(a5), o.r, s')
      case SysPageUnmapNo => o.Returned? && PageUnmapSpec(s, IntArg(a1), a2, o.r, s')
      case SysExoforkNo => o.Returned? && ExoforkSpec(s, o.r, s')
      case SysEnvSetStatusNo => o.Returned? && EnvSetStatusSpec(s, IntArg(a1), IntArg(a2), o.r, s')
      case SysEnvSetPgfaultUpcallNo => o.Returned? && EnvSetPgfaultUpcallSpec(s, IntArg(a1), a2, o.r, s')
      case SysYieldNo => o == Yielded && s' == s
      case SysIpcTrySendNo => o.Returned? && IpcTrySendSpec(s, IntArg(a1), a2, a3, PermArg(a4), o.r, s')
      case SysIpcRecvNo => IpcRecvSpec(s, a1, o, s')
      case SysPagingScanNo => o == Returned(0) && s' == s
      case SysIpcTrySendAltNo => IpcTrySendAltSpec(s, IntArg(a1), a2, a3, PermArg(a4), o, s')
      case SysIpcRecvAltNo => IpcRecvAltSpec(s, a1, tsc, o, s')
  }

  /** curenv is still in place, under the same id. */
  ghost predicate SameCurenv(s: KState, s': KState)
    requires s.InSyscall()
  {
    s'.cur == s.cur && |s'.envs| == NENV && s'.envs[s.cur.value].id == s.envs[s.cur.value].id
  }

  /**
   * A call that returns to its caller leaves curenv in place, with the same
   * id, so the result syscall_handler writes back lands in the caller's own
   * frame.  Only calls that yield clear curenv.
   */
  lemma ReturnKeepsCurenv(s: KState, no: Word, a1: Word, a2: Word, a3: Word, a4: Word, a5: Word,
                          readable: bool, consoleChar: int, tsc: int, o: SysOutcome, s': KState)
    requires s.InSyscall()
    requires SyscallSpec(s, no, a1, a2, a3, a4, a5, readable, consoleChar, tsc, o, s')
    requires o.Returned?
    ensures s'.cur == s.cur && |s'.envs| == NENV && s'.envs[s.cur.value].id == s.envs[s.cur.value].id
  {
    match DecodeSysNo(no)
    case None =>
    case Some(n) =>
      if n in {SysPageAllocNo, SysPageMapNo, SysPageUnmapNo} {
        MemoryCallKeepsCurenv(s, no, a1, a2, a3, a4, a5, readable, consoleChar, tsc, o, s');
      } else if n in {SysEnvDestroyNo, SysExoforkNo, SysEnvSetStatusNo, SysEnvSetPgfaultUpcallNo} {
        EnvCallKeepsCurenv(s, no, a1, a2, a3, a4, a5, readable, consoleChar, tsc, o, s');
      } else if n in {SysCputsNo, SysIpcTrySendNo, SysIpcRecvNo, SysIpcTrySendAltNo, SysIpcRecvAltNo} {
        IpcCallKeepsCurenv(s, no, a1, a2, a3, a4, a5, readable, consoleChar, tsc, o, s');
      }
  }

  /** ReturnKeepsCurenv for page_alloc, page_map and page_unmap. */
  lemma MemoryCallKeepsCurenv(s: KState, no: Word, a1: Word, a2: Word, a3: Word, a4: Word, a5: Word,
                              readable: bool, consoleChar: int, tsc: int, o: SysOutcome, s': KState)
    requires s.InSyscall()
    requires SyscallSpec(s, no, a1, a2, a3, a4, a5, readable, consoleChar, tsc, o, s')
    requires DecodeSysNo(no).Some? && DecodeSysNo(no).value in {SysPageAllocNo, SysPageMapNo, SysPageUnmapNo}
    ensures SameCurenv(s, s')
  {
  }

  /** ReturnKeepsCurenv for the calls that create, destroy or set up an environment. */
  lemma EnvCallKeepsCurenv(s: KState, no: Word, a1: Word, a2: Word, a3: Word, a4: Word, a5: Word,
                           readable: bool, consoleChar: int, tsc: int, o: SysOutcome, s': KState)
    requires s.InSyscall()
    requires SyscallSpec(s, no, a1, a2, a3, a4, a5, readable, consoleChar, tsc, o, s')
    requires o.Returned?
    requires DecodeSysNo(no).Some?
    requires DecodeSysNo(no).value in {SysEnvDestroyNo, SysExoforkNo, SysEnvSetStatusNo, SysEnvSetPgfaultUpcallNo}
    ensures SameCurenv(s, s')
  {
    var c := s.cur.value;
    if DecodeSysNo(no) == Some(SysEnvDestroyNo) {
      var rr := Resolve(s.envs, c, IntArg(a1), true);
      if rr.Ok? {
        assert rr.value != c;
      }
    } else if DecodeSysNo(no) == Some(SysExoforkNo) && s.envFreeList != [] && s.pageFreeList != [] {
      assert s.envFreeList[0] != c;
    }
  }

  /** ReturnKeepsCurenv for cputs and the four message-passing calls. */
  lemma IpcCallKeepsCurenv(s: KState, no: Word, a1: Word, a2: Word, a3: Word, a4: Word, a5: Word,
                           readable: bool, consoleChar: int, tsc: int, o: SysOutcome, s': KState)
    requires s.InSyscall()
    requires SyscallSpec(s, no, a1, a2, a3, a4, a5, readable, consoleChar, tsc, o, s')
    requires o.Returned?
    requires DecodeSysNo(no).Some?
    requires DecodeSysNo(no).value in {SysCputsNo, SysIpcTrySendNo, SysIpcRecvNo, SysIpcTrySendAltNo, SysIpcRecvAltNo}
    ensures SameCurenv(s, s')
  {
    if DecodeSysNo(no) == Some(SysIpcRecvAltNo) {
      RecvAltKeepsId(s.envs, s.pageFreeList, s.cur.value, a1, ToWord(tsc));
    }
  }

  /** syscall(no, a1, ..., a5): what SyscallSpec describes. */
  method DispatchSyscall(k: Kernel, no: Word, a1: Word, a2: Word, a3: Word, a4: Word, a5: Word,
                         readable: bool, consoleChar: int, tsc: int)
    returns (o: SysOutcome)
    requires k.Valid() && k.cur.Some?
    modifies k, k.envs
    ensures k.Valid() && k.envs == old(k.envs)
    ensures SyscallSpec(old(k.State()), no, a1, a2, a3, a4, a5, readable, consoleChar, tsc, o, k.State())
  {
    match DecodeSysNo(no)
    case None =>
      o := Returned(-E_INVAL);
    case Some(n) =>
      match n
      case SysCputsNo =>
        o := SysCputs(k, readable);
      case SysCgetcNo =>
        // sys_cgetc returns the character cons_getc delivers (0 when none is waiting)
        o := Returned(consoleChar);
      case SysGetenvidNo =>
        var r := SysGetenvid(k);
        o := Returned(r);
      case SysEnvDestroyNo =>
        o := SysEnvDestroy(k, IntArg(a1));
      case SysYieldNo =>
        o := Yielded;
      case SysExoforkNo =>
        var r := SysExofork(k);
        o := Returned(r);
      case SysEnvSetStatusNo =>
        var r := SysEnvSetStatus(k, IntArg(a1), IntArg(a2));
        o := Returned(r);
      case SysPageAllocNo =>
        var r := SysPageAlloc(k, IntArg(a1), a2, PermArg(a3));
        o := Returned(r);
      case SysPageMapNo =>
        var r := SysPageMap(k, IntArg(a1), a2, IntArg(a3), a4, PermArg(a5));
        o := Returned(r);
      case SysPageUnmapNo =>
        var r := SysPageUnmap(k, IntArg(a1), a2);
        o := Returned(r);
      case SysEnvSetPgfaultUpcallNo =>
        var r := SysEnvSetPgfaultUpcall(k, IntArg(a1), a2);
        o := Returned(r);
      case SysPagingScanNo =>
        o := Returned(0);
      case SysIpcTrySendNo =>
        var r := SysIpcTrySend(k, IntArg(a1), a2, a3, PermArg(a4));
        o := Returned(r);
      case SysIpcRecvNo =>
        o := SysIpcRecv(k, a1);
      case SysIpcTrySendAltNo =>
        o := SysIpcTrySendAlt(k, IntArg(a1), a2, a3, PermArg(a4));
      case SysIpcRecvAltNo =>
        o := SysIpcRecvAlt(k, a1, tsc);
  }
}
