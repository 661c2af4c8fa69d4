/**
 * Inter-environment messages (kern/syscall.c): the polling pair
 * sys_ipc_try_send / sys_ipc_recv, and the queued pair
 * sys_ipc_try_send_alt / sys_ipc_recv_alt, in which a sender that finds
 * the receiver not waiting parks its message in its own record and the
 * receiver later fetches it with ipc_fetch_helper.
 */
module Ipc {
  import opened Machine
  import opened EnvLayout
  import opened Pmap
  import opened EnvTable
  import opened Syscall

  // ---------------------------------------------------------------------
  // The page that travels with a message
  // ---------------------------------------------------------------------

  datatype Transfer = Transferred(dst: AddrSpace, free: seq<Frame>, perm: bv32) | TransferFailed(code: int)

  /** Both sides asked for a page: the receiver's dstva and the sender's srcva lie below UTOP. */
  predicate WantsPage(srcva: Word, dstva: Word)
  {
    dstva < UTOP && srcva < UTOP
  }

  /** The checks a page offered with a message must pass. */
  predicate PageOfferOk(src: AddrSpace, srcva: Word, perm: bv32)
  {
    && PgOff(srcva) == 0
    && PermAllowed(perm)
    && Pn(srcva) in src.ptes
    && !GrantsWriteOverReadOnly(perm, src.ptes[Pn(srcva)])
  }

  /**
   * The page part of a delivery, shared by sys_ipc_try_send,
   * sys_ipc_try_send_alt and ipc_fetch_helper: when both sides want a page,
   * the sender's page must be aligned, perm within PTE_SYSCALL, the page
   * mapped and writable if write access is offered (else -E_INVAL); it is
   * then inserted at dstva with `perm` (-E_NO_MEM when that fails) and the
   * received permission is `perm`.  Otherwise nothing is mapped and the
   * received permission is 0.
   */
  function PageTransfer(src: AddrSpace, dst: AddrSpace, free: seq<Frame>, srcva: Word, dstva: Word, perm: bv32)
    : (t: Transfer)
    requires Wf(dst)
    ensures t.Transferred? ==> Wf(t.dst)
    ensures t.TransferFailed? <==>
      WantsPage(srcva, dstva) && (!PageOfferOk(src, srcva, perm) || (TableOf(Pn(dstva)) !in dst.tables && free == []))
    ensures t.TransferFailed? ==> t.code == (if PageOfferOk(src, srcva, perm) then -E_NO_MEM else -E_INVAL)
    ensures t.Transferred? && !WantsPage(srcva, dstva) ==> t == Transferred(dst, free, 0)
    ensures t.Transferred? && WantsPage(srcva, dstva) ==>
      && t.perm == perm
      && t.dst.ptes == dst.ptes[Pn(dstva) := Pte(src.ptes[Pn(srcva)].frame, perm | PTE_P)]
  {
    if WantsPage(srcva, dstva) then
      if PgOff(srcva) != 0 then TransferFailed(-E_INVAL)
      else if !PermAllowed(perm) then TransferFailed(-E_INVAL)
      else match PageLookup(src, srcva)
        case None => TransferFailed(-E_INVAL)
        case Some(pte) =>
          if GrantsWriteOverReadOnly(perm, pte) then TransferFailed(-E_INVAL)
          else match PageInsert(dst, free, pte.frame, dstva, perm)
            case InsertNoMem => TransferFailed(-E_NO_MEM)
            case Inserted(s, f) => Transferred(s, f, perm)
    else Transferred(dst, free, 0)
  }

  /**
   * A delivered page is shared, not copied: afterwards the receiver's dstva
   * and the sender's srcva name the same physical frame, and the receiver's
   * other mappings are untouched.
   */
  lemma TransferShares(src: AddrSpace, dst: AddrSpace, free: seq<Frame>, srcva: Word, dstva: Word, perm: bv32)
    requires Wf(dst)
    requires WantsPage(srcva, dstva) && PageTransfer(src, dst, free, srcva, dstva, perm).Transferred?
    ensures var t := PageTransfer(src, dst, free, srcva, dstva, perm);
      && PageLookup(t.dst, dstva).Some? && PageLookup(src, srcva).Some?
      && PageLookup(t.dst, dstva).value.frame == PageLookup(src, srcva).value.frame
      && (forall pn :: pn in dst.ptes && pn != Pn(dstva) ==> pn in t.dst.ptes && t.dst.ptes[pn] == dst.ptes[pn])
  {
  }

  /** The receiver's record after a delivery from `from`. */
  function Delivered(e: Env, dst: AddrSpace, perm: bv32, from: int, value: Word): Env
  {
    e.(pgdir := dst, ipcPerm := perm, ipcRecving := false, ipcFrom := from, ipcValue := value, status := Runnable)
  }

  // ---------------------------------------------------------------------
  // The polling pair
  // ---------------------------------------------------------------------

  /**
   * sys_ipc_try_send(envid, value, srcva, perm): -E_BAD_ENV when envid does
   * not resolve (no permission check); -E_IPC_NOT_RECV unless the target is
   * blocked in sys_ipc_recv; the page errors of PageTransfer; otherwise the
   * target stops receiving, records sender, value and permission, and
   * becomes RUNNABLE.  Any error leaves everything unchanged.
   */
  ghost predicate IpcTrySendSpec(s: KState, envid: int, value: Word, srcva: Word, perm: bv32, r: int, s': KState)
    requires s.InSyscall()
  {
    match Resolve(s.envs, s.cur.value, envid, false)
    case Err(_) => r == -E_BAD_ENV && s' == s
    case Ok(d) =>
      if !s.envs[d].ipcRecving then r == -E_IPC_NOT_RECV && s' == s
      else
        var me := s.envs[s.cur.value];
        match PageTransfer(me.pgdir, s.envs[d].pgdir, s.pageFreeList, srcva, s.envs[d].ipcDstva, perm)
        case TransferFailed(c) => r == c && s' == s
        case Transferred(sp, f, p) =>
          r == 0 && s' == s.(envs := s.envs[d := Delivered(s.envs[d], sp, p, me.id, value)], pageFreeList := f)
  }

  /** sys_ipc_try_send: what IpcTrySendSpec describes. */
  method SysIpcTrySend(k: Kernel, envid: int, value: Word, srcva: Word, perm: bv32) returns (r: int)
    requires k.Valid() && k.cur.Some?
    modifies k, k.envs
    ensures k.Valid() && k.envs == old(k.envs)
    ensures IpcTrySendSpec(old(k.State()), envid, value, srcva, perm, r, k.State())
  {
    var rr := Resolve(k.envs[..], k.cur.value, envid, false);
    if rr.Err? {
      return -E_BAD_ENV;
    }
    var d := rr.value;
    var e := k.envs[d];
    if !e.ipcRecving {
      return -E_IPC_NOT_RECV;
    }
    var me := k.envs[k.cur.value];
    var t := PageTransfer(me.pgdir, e.pgdir, k.pageFreeList, srcva, e.ipcDstva, perm);
    if t.TransferFailed? {
      return t.code;
    }
    ResolvedIsLive(k.envs[..], k.cur.value, k.envFreeList, envid, false);
    assert IdOk(k.envs[..][d], d);
    k.SetEnv(d, Delivered(e, t.dst, t.perm, me.id, value));
    k.pageFreeList := t.free;
    r := 0;
  }

  /** The receiver's record while it waits: blocked, NOT_RUNNABLE, eax already 0. */
  function Waiting(e: Env, dstva: Word): Env
  {
    e.(ipcRecving := true, ipcDstva := dstva, status := NotRunnable, tf := WithEax(e.tf, 0))
  }

  /** A dstva the receive calls refuse: below UTOP but not page-aligned. */
  predicate BadDstva(dstva: Word)
  {
    dstva < UTOP && PgOff(dstva) != 0
  }

  /**
   * sys_ipc_recv(dstva): -E_INVAL for an unaligned dstva below UTOP;
   * otherwise curenv blocks (receiving, NOT_RUNNABLE, with 0 as the value
   * its sys_ipc_recv will return) and yields.
   */
  ghost predicate IpcRecvSpec(s: KState, dstva: Word, o: SysOutcome, s': KState)
    requires s.InSyscall()
  {
    if BadDstva(dstva) then o == Returned(-E_INVAL) && s' == s
    else o == Yielded && s' == s.(envs := s.envs[s.cur.value := Waiting(s.envs[s.cur.value], dstva)])
  }

  /** sys_ipc_recv: what IpcRecvSpec describes. */
  method SysIpcRecv(k: Kernel, dstva: Word) returns (o: SysOutcome)
    requires k.Valid() && k.cur.Some?
    modifies k.envs
    ensures k.Valid()
    ensures IpcRecvSpec(old(k.State()), dstva, o, k.State())
  {
    if BadDstva(dstva) {
      return Returned(-E_INVAL);
    }
    var c := k.cur.value;
    assert IdOk(k.envs[..][c], c);
    k.SetEnv(c, Waiting(k.envs[c], dstva));
    o := Yielded;
  }

  /**
   * A send that finds its target blocked wakes it with the message; the
   * receiver's sys_ipc_recv then returns 0 (its eax was cleared when it
   * blocked) and it reads sender and value from its record.
   */
  lemma SendCompletesRecv(tbl: seq<Env>, cur: nat, d: nat, dstva: Word, value: Word, s: AddrSpace, p: bv32)
    requires |tbl| == NENV && cur < NENV && d < NENV
    ensures var w := Waiting(tbl[d], dstva);
      var e := Delivered(w, s, p, tbl[cur].id, value);
      && e.tf.regs.eax == 0 && e.status == Runnable && !e.ipcRecving
      && e.ipcFrom == tbl[cur].id && e.ipcValue == value && e.ipcDstva == dstva
  {
  }

  // ---------------------------------------------------------------------
  // The queued pair
  // ---------------------------------------------------------------------

  /** `perm | PTE_U | PTE_P`: the queued pair always offers a user-visible page. */
  function UserPerm(perm: bv32): (p: bv32)
    ensures p & PTE_U != 0 && p & PTE_P != 0
    ensures p & !(PTE_U | PTE_P) == perm & !(PTE_U | PTE_P)
  {
    perm | PTE_U | PTE_P
  }

  /** The sender's record once its message is parked: sending, NOT_RUNNABLE. */
  function Parked(e: Env, to: int, value: Word, srcva: Word, perm: bv32): Env
  {
    e.(ipcSending := true, ipcTo := to, ipcValueSend := value, ipcVaSend := srcva,
       ipcPermSend := perm, status := NotRunnable)
  }

  /**
   * sys_ipc_try_send_alt(envid, value, srcva, perm): -E_BAD_ENV when envid
   * does not resolve; perm gains PTE_U | PTE_P.  A target blocked receiving
   * must be NOT_RUNNABLE (else the kernel panics) and gets the message as in
   * sys_ipc_try_send, page errors returned as they are.  A target not
   * receiving leaves the message parked in curenv's record: curenv becomes
   * NOT_RUNNABLE, the target's count of waiting senders grows by one, and
   * the CPU yields.
   */
  ghost predicate IpcTrySendAltSpec(s: KState, envid: int, value: Word, srcva: Word, perm: bv32,
                                    o: SysOutcome, s': KState)
    requires s.InSyscall()
  {
    match Resolve(s.envs, s.cur.value, envid, false)
    case Err(_) => o == Returned(-E_BAD_ENV) && s' == s
    case Ok(d) =>
      var cur := s.cur.value;
      var p := UserPerm(perm);
      if s.envs[d].ipcRecving then
        if s.envs[d].status != NotRunnable then o == Panicked && s' == s
        else match PageTransfer(s.envs[cur].pgdir, s.envs[d].pgdir, s.pageFreeList, srcva, s.envs[d].ipcDstva, p)
          case TransferFailed(c) => o == Returned(c) && s' == s
          case Transferred(sp, f, tp) =>
            && o == Returned(0)
            && s' == s.(envs := s.envs[d := Delivered(s.envs[d], sp, tp, s.envs[cur].id, value)], pageFreeList := f)
      else
        var t1 := s.envs[cur := Parked(s.envs[cur], envid, value, srcva, p)];
        && o == Yielded
        && s' == s.(envs := t1[d := t1[d].(ipcWaitingCount := t1[d].ipcWaitingCount + 1)])
  }

  /** sys_ipc_try_send_alt: what IpcTrySendAltSpec describes. */
  method SysIpcTrySendAlt(k: Kernel, envid: int, value: Word, srcva: Word, perm: bv32) returns (o: SysOutcome)
    requires k.Valid() && k.cur.Some?
    modifies k, k.envs
    ensures k.Valid() && k.envs == old(k.envs)
    ensures IpcTrySendAltSpec(old(k.State()), envid, value, srcva, perm, o, k.State())
  {
    var rr := Resolve(k.envs[..], k.cur.value, envid, false);
    if rr.Err? {
      return Returned(-E_BAD_ENV);
    }
    var d := rr.value;
    var p := UserPerm(perm);
    var me := k.envs[k.cur.value];
    ResolvedIsLive(k.envs[..], k.cur.value, k.envFreeList, envid, false);
    if k.envs[d].ipcRecving {
      var e := k.envs[d];
      if e.status != NotRunnable {
        return Panicked;
      }
      var t := PageTransfer(me.pgdir, e.pgdir, k.pageFreeList, srcva, e.ipcDstva, p);
      if t.TransferFailed? {
        return Returned(t.code);
      }
      assert IdOk(k.envs[..][d], d);
      k.SetEnv(d, Delivered(e, t.dst, t.perm, me.id, value));
      k.pageFreeList := t.free;
      return Returned(0);
    }
    var c := k.cur.value;
    assert IdOk(k.envs[..][c], c);
    k.SetEnv(c, Parked(me, envid, value, srcva, p));
    var e := k.envs[d];
    assert IdOk(k.envs[..][d], d);
    k.SetEnv(d, e.(ipcWaitingCount := e.ipcWaitingCount + 1));
    o := Yielded;
  }

  /** The outcome of ipc_fetch_helper on the table. */
  datatype FetchResult = FetchPanic | Fetched(tbl: seq<Env>, free: seq<Frame>, rf: int)

  /**
   * ipc_fetch_helper(es, ed, dstva): the parked sender must be NOT_RUNNABLE
   * (else the kernel panics); its page is offered with its parked
   * permission | PTE_U | PTE_P and moved by PageTransfer to ed at dstva.  On
   * success ed records the permission, the sender's id and the parked value
   * and the result is 0; on a page error nothing changes and the error is
   * the result.  ed's receiving flag and status are not touched.
   */
  function Fetch(tbl: seq<Env>, free: seq<Frame>, es: nat, ed: nat, dstva: Word): (f: FetchResult)
    requires es < |tbl| && ed < |tbl| && Wf(tbl[ed].pgdir)
    ensures f.Fetched? ==> |f.tbl| == |tbl| && Wf(f.tbl[ed].pgdir)
    ensures f.Fetched? ==> forall j :: 0 <= j < |tbl| && j != ed ==> f.tbl[j] == tbl[j]
    ensures f.FetchPanic? <==> tbl[es].status != NotRunnable
    ensures f.Fetched? && f.rf != 0 ==> f.tbl == tbl && f.free == free && f.rf in {-E_INVAL, -E_NO_MEM}
    ensures f.Fetched? && f.rf == 0 ==>
      && f.tbl[ed].ipcFrom == tbl[es].id && f.tbl[ed].ipcValue == tbl[es].ipcValueSend
      && f.tbl[ed] == tbl[ed].(pgdir := f.tbl[ed].pgdir, ipcPerm := f.tbl[ed].ipcPerm,
                               ipcFrom := tbl[es].id, ipcValue := tbl[es].ipcValueSend)
  {
    if tbl[es].status != NotRunnable then FetchPanic
    else
      var s := tbl[es];
      match PageTransfer(s.pgdir, tbl[ed].pgdir, free, s.ipcVaSend, dstva, UserPerm(s.ipcPermSend))
      case TransferFailed(c) => Fetched(tbl, free, c)
      case Transferred(d, f, p) =>
        Fetched(tbl[ed := tbl[ed].(pgdir := d, ipcPerm := p, ipcFrom := s.id, ipcValue := s.ipcValueSend)], f, 0)
  }

  /** ipc_fetch_helper as the kernel runs it, on the table in place. */
  method IpcFetchHelper(k: Kernel, es: nat, ed: nat, dstva: Word) returns (panicked: bool, rf: int)
    requires k.Valid() && es < NENV && ed < NENV && ed !in k.envFreeList && k.envs[ed].id > 0
    modifies k, k.envs
    ensures k.Valid() && k.envs == old(k.envs) && k.cur == old(k.cur) && k.envFreeList == old(k.envFreeList)
    ensures k.mem == old(k.mem)
    ensures var f := Fetch(old(k.envs[..]), old(k.pageFreeList), es, ed, dstva);
      && (panicked <==> f.FetchPanic?)
      && (panicked ==> k.envs[..] == old(k.envs[..]) && k.pageFreeList == old(k.pageFreeList))
      && (!panicked ==> k.envs[..] == f.tbl && k.pageFreeList == f.free && rf == f.rf)
  {
    ghost var f := Fetch(k.envs[..], k.pageFreeList, es, ed, dstva);
    var s := k.envs[es];
    if s.status != NotRunnable {
      return true, 0;
    }
    var e := k.envs[ed];
    var t := PageTransfer(s.pgdir, e.pgdir, k.pageFreeList, s.ipcVaSend, dstva, UserPerm(s.ipcPermSend));
    if t.TransferFailed? {
      return false, t.code;
    }
    assert IdOk(k.envs[..][ed], ed);
    k.SetEnv(ed, e.(pgdir := t.dst, ipcPerm := t.perm, ipcFrom := s.id, ipcValue := s.ipcValueSend));
    k.pageFreeList := t.free;
    return false, 0;
  }

  // ---------------------------------------------------------------------
  // sys_ipc_recv_alt: the scan over parked senders
  // ---------------------------------------------------------------------

  /**
   * The slot examined at step i: `(i + rand) % NENV` computed on uint32_t,
   * where the sum wraps modulo 2^32.
   */
  function SlotAt(rand: Word, i: nat): (s: nat)
    ensures s < NENV
  {
    ((i + rand) % WORD_MOD) % NENV
  }

  /** The wrap-around of the uint32_t sum never changes the slot, since NENV divides 2^32. */
  lemma SlotAtNoWrap(rand: Word, i: nat)
    ensures SlotAt(rand, i) == (i + rand) % NENV
  {
    var q := (i + rand) / WORD_MOD;
    assert i + rand == q * WORD_MOD + (i + rand) % WORD_MOD;
    assert q * WORD_MOD == (q * 0x40_0000) * NENV;
  }

  /** Steps 0..NENV-1 visit NENV different slots, hence every slot exactly once. */
  lemma SlotAtInjective(rand: Word, i: nat, j: nat)
    requires i < NENV && j < NENV && i != j
    ensures SlotAt(rand, i) != SlotAt(rand, j)
  {
    var q, r := rand / NENV, rand % NENV;
    assert rand == q * NENV + r;
    SlotAtNoWrap(rand, i);
    SlotAtNoWrap(rand, j);
    ModWrap(q, i + r);
    ModWrap(q, j + r);
  }

  /** Each slot is visited by some step. */
  lemma SlotAtSurjective(rand: Word, s: nat)
    requires s < NENV
    ensures SlotAt(rand, (s - rand % NENV) % NENV) == s
  {
    var q, r := rand / NENV, rand % NENV;
    assert rand == q * NENV + r;
    var i := (s - r) % NENV;
    SlotAtNoWrap(rand, i);
    if s >= r {
      assert i == s - r;
      ModWrap(q, s);
    } else {
      assert i == s - r + NENV;
      ModWrap(q + 1, s);
    }
  }

  /** A step less than two turns past a whole number of turns wraps at most once. */
  lemma ModWrap(q: nat, x: nat)
    requires x < 2 * NENV
    ensures (q * NENV + x) % NENV == if x < NENV then x else x - NENV
  {
    if x >= NENV {
      assert q * NENV + x == (q + 1) * NENV + (x - NENV);
    }
  }


  /** The state of the scan: the table, the free frames, the senders released so far, and whether a fetch succeeded. */
  datatype ScanState = Scanning(tbl: seq<Env>, free: seq<Frame>, woken: seq<nat>, fetched: bool) | ScanPanic

  /** A parked sender whose message is for `ed`. */
  predicate SendsTo(tbl: seq<Env>, s: nat, ed: nat)
    requires s < |tbl| && ed < |tbl|
  {
    tbl[s].ipcSending && tbl[s].ipcTo == tbl[ed].id
  }

  /** The sender's record after the receiver handled it: eax holds the fetch result, no longer sending, RUNNABLE. */
  function Released(e: Env, rf: int): Env
  {
    e.(tf := WithEax(e.tf, ToWord(rf)), ipcSending := false, status := Runnable)
  }

  predicate StateOk(st: ScanState, ed: nat)
  {
    st.Scanning? ==> |st.tbl| == NENV && ed < NENV && Wf(st.tbl[ed].pgdir)
  }

  /**
   * One iteration of the loop on slot `s`: a parked sender for ed is
   * fetched, released with the result in eax, and ed's waiting count drops
   * by one whatever the result; a successful fetch ends the scan.
   */
  function ScanStep(st: ScanState, ed: nat, dstva: Word, s: nat): (st': ScanState)
    requires StateOk(st, ed) && s < NENV
    ensures StateOk(st', ed)
  {
    if st.ScanPanic? || st.fetched then st
    else if !SendsTo(st.tbl, s, ed) then st
    else match Fetch(st.tbl, st.free, s, ed, dstva)
      case FetchPanic => ScanPanic
      case Fetched(t1, f1, rf) =>
        var t2 := t1[s := Released(t1[s], rf)];
        var t3 := t2[ed := t2[ed].(ipcWaitingCount := t2[ed].ipcWaitingCount - 1)];
        Scanning(t3, f1, st.woken + [s], rf == 0)
  }

  /** The state after the first n iterations of the loop. */
  function Scan(tbl: seq<Env>, free: seq<Frame>, ed: nat, dstva: Word, rand: Word, n: nat): (st: ScanState)
    requires |tbl| == NENV && ed < NENV && Wf(tbl[ed].pgdir)
    ensures StateOk(st, ed)
  {
    if n == 0 then Scanning(tbl, free, [], false)
    else ScanStep(Scan(tbl, free, ed, dstva, rand, n - 1), ed, dstva, SlotAt(rand, n - 1))
  }

  /** Once a fetch has succeeded or the kernel has panicked, later iterations change nothing. */
  lemma {:induction false} ScanStops(tbl: seq<Env>, free: seq<Frame>, ed: nat, dstva: Word, rand: Word, n: nat, m: nat)
    requires |tbl| == NENV && ed < NENV && Wf(tbl[ed].pgdir) && n <= m
    requires var st := Scan(tbl, free, ed, dstva, rand, n); st.ScanPanic? || st.fetched
    ensures Scan(tbl, free, ed, dstva, rand, m) == Scan(tbl, free, ed, dstva, rand, n)
    decreases m - n
  {
    if n < m {
      ScanStops(tbl, free, ed, dstva, rand, n, m - 1);
    }
  }

  /** What one fetching iteration does to the table, stated field by field. */
  lemma StepFacts(st: ScanState, ed: nat, dstva: Word, s: nat)
    requires StateOk(st, ed) && s < NENV && st.Scanning? && !st.fetched && SendsTo(st.tbl, s, ed)
    requires Fetch(st.tbl, st.free, s, ed, dstva).Fetched?
    ensures var rf := Fetch(st.tbl, st.free, s, ed, dstva).rf;
      var st' := ScanStep(st, ed, dstva, s);
      var t := st'.tbl;
      && st'.Scanning? && st'.woken == st.woken + [s] && st'.fetched == (rf == 0)
      && |t| == NENV
      && (forall j :: 0 <= j < NENV && j != s && j != ed ==> t[j] == st.tbl[j])
      && !t[s].ipcSending && t[s].status == Runnable && t[s].tf.regs.eax == ToWord(rf)
      && t[ed].id == st.tbl[ed].id && t[ed].ipcRecving == st.tbl[ed].ipcRecving
      && t[ed].ipcWaitingCount == st.tbl[ed].ipcWaitingCount - 1
      && (s != ed ==>
            && t[ed].status == st.tbl[ed].status && t[ed].tf == st.tbl[ed].tf
            && t[ed].ipcSending == st.tbl[ed].ipcSending && t[ed].ipcTo == st.tbl[ed].ipcTo)
      && (rf == 0 ==> t[ed].ipcFrom == st.tbl[s].id)
  {
  }

  /** The slots visited by the first n iterations. */
  function Visited(rand: Word, n: nat): set<nat>
  {
    set i | 0 <= i < n :: SlotAt(rand, i)
  }

  lemma VisitedNext(rand: Word, n: nat)
    requires n < NENV
    ensures Visited(rand, n + 1) == Visited(rand, n) + {SlotAt(rand, n)}
    ensures SlotAt(rand, n) !in Visited(rand, n)
  {
    forall i | 0 <= i < n
      ensures SlotAt(rand, i) != SlotAt(rand, n)
    {
      SlotAtInjective(rand, i, n);
    }
  }

  function Last(s: seq<nat>): nat
    requires s != []
  {
    s[|s| - 1]
  }

  /** The released senders are distinct visited slots, each parked for ed at the start and now released. */
  predicate WokenInv(tbl: seq<Env>, ed: nat, rand: Word, n: nat, t: seq<Env>, woken: seq<nat>)
    requires |tbl| == NENV && |t| == NENV && ed < NENV
  {
    && (forall a, b :: 0 <= a < b < |woken| ==> woken[a] != woken[b])
    && (forall w :: w in woken ==> w < NENV && w in Visited(rand, n))
    && (forall w :: w in woken && w < NENV ==> SendsTo(tbl, w, ed) && !t[w].ipcSending && t[w].status == Runnable)
  }

  /**
   * Every slot other than ed and the released senders is as it was; ed
   * keeps its id and receiving flag, its waiting count dropped by one per
   * released sender, and unless it released itself its status, registers
   * and outgoing message are as they were.
   */
  predicate FrameInv(tbl: seq<Env>, ed: nat, t: seq<Env>, woken: seq<nat>)
    requires |tbl| == NENV && |t| == NENV && ed < NENV
  {
    && (forall j :: 0 <= j < NENV && j != ed && j !in woken ==> t[j] == tbl[j])
    && t[ed].id == tbl[ed].id && t[ed].ipcRecving == tbl[ed].ipcRecving
    && t[ed].ipcWaitingCount == tbl[ed].ipcWaitingCount - |woken|
    && (ed !in woken ==>
          && t[ed].status == tbl[ed].status && t[ed].tf == tbl[ed].tf
          && t[ed].ipcSending == tbl[ed].ipcSending && t[ed].ipcTo == tbl[ed].ipcTo)
  }

  /** After a successful fetch the last released sender holds 0 in eax and ed records it as the sender. */
  predicate FetchedInv(tbl: seq<Env>, ed: nat, t: seq<Env>, woken: seq<nat>, fetched: bool)
    requires |tbl| == NENV && |t| == NENV && ed < NENV
  {
    fetched ==>
      && woken != [] && Last(woken) < NENV
      && t[Last(woken)].tf.regs.eax == 0 && t[ed].ipcFrom == tbl[Last(woken)].id
  }

  /**
   * Every released sender holds its fetch error (-E_INVAL or -E_NO_MEM) in
   * eax, except the last one when its fetch succeeded.
   */
  predicate ErrorsInv(t: seq<Env>, woken: seq<nat>, fetched: bool)
    requires |t| == NENV
  {
    forall i :: 0 <= i < |woken| && woken[i] < NENV && !(fetched && i == |woken| - 1) ==>
      t[woken[i]].tf.regs.eax in {ToWord(-E_INVAL), ToWord(-E_NO_MEM)}
  }

  /** Until a fetch succeeds, every visited slot that was parked for ed has been released. */
  predicate CompleteInv(tbl: seq<Env>, ed: nat, rand: Word, n: nat, woken: seq<nat>, fetched: bool)
    requires |tbl| == NENV && ed < NENV
  {
    !fetched ==> forall j :: j in Visited(rand, n) && j < NENV && SendsTo(tbl, j, ed) ==> j in woken
  }

  predicate ScanInv(tbl: seq<Env>, ed: nat, rand: Word, n: nat, st: ScanState)
    requires |tbl| == NENV && ed < NENV
  {
    st.Scanning? ==>
      && |st.tbl| == NENV
      && WokenInv(tbl, ed, rand, n, st.tbl, st.woken)
      && FrameInv(tbl, ed, st.tbl, st.woken)
      && FetchedInv(tbl, ed, st.tbl, st.woken, st.fetched)
      && ErrorsInv(st.tbl, st.woken, st.fetched)
      && CompleteInv(tbl, ed, rand, n, st.woken, st.fetched)
  }

  /** A slot not yet visited is not released and, as far as SendsTo and its id go, as it was. */
  lemma Unvisited(tbl: seq<Env>, ed: nat, rand: Word, n: nat, st: ScanState, s: nat)
    requires |tbl| == NENV && ed < NENV && s < NENV
    requires st.Scanning? && ScanInv(tbl, ed, rand, n, st) && s !in Visited(rand, n)
    ensures s !in st.woken
    ensures SendsTo(st.tbl, s, ed) == SendsTo(tbl, s, ed)
    ensures st.tbl[s].id == tbl[s].id
  {
  }

  /** One iteration keeps ScanInv. */
  lemma ScanStepInv(tbl: seq<Env>, ed: nat, dstva: Word, rand: Word, n: nat, st: ScanState)
    requires |tbl| == NENV && ed < NENV && n < NENV
    requires StateOk(st, ed) && ScanInv(tbl, ed, rand, n, st)
    ensures ScanInv(tbl, ed, rand, n + 1, ScanStep(st, ed, dstva, SlotAt(rand, n)))
  {
    VisitedNext(rand, n);
    var s := SlotAt(rand, n);
    if st.ScanPanic? {
      return;
    }
    Unvisited(tbl, ed, rand, n, st, s);
    if st.fetched || !SendsTo(st.tbl, s, ed) {
      SkipKeepsInv(tbl, ed, rand, n, st, s);
    } else if Fetch(st.tbl, st.free, s, ed, dstva).Fetched? {
      FetchKeepsInv(tbl, ed, dstva, rand, n, st, s);
    }
  }

  /** An iteration that releases nobody keeps ScanInv. */
  lemma SkipKeepsInv(tbl: seq<Env>, ed: nat, rand: Word, n: nat, st: ScanState, s: nat)
    requires |tbl| == NENV && ed < NENV && n < NENV && s < NENV
    requires st.Scanning? && StateOk(st, ed) && ScanInv(tbl, ed, rand, n, st)
    requires Visited(rand, n + 1) == Visited(rand, n) + {s}
    requires st.fetched || !SendsTo(tbl, s, ed)
    ensures ScanInv(tbl, ed, rand, n + 1, st)
  {
  }

  /** An iteration that fetches from slot s and releases it keeps ScanInv. */
  lemma FetchKeepsInv(tbl: seq<Env>, ed: nat, dstva: Word, rand: Word, n: nat, st: ScanState, s: nat)
    requires |tbl| == NENV && ed < NENV && n < NENV && s < NENV
    requires st.Scanning? && StateOk(st, ed) && ScanInv(tbl, ed, rand, n, st) && !st.fetched
    requires Visited(rand, n + 1) == Visited(rand, n) + {s} && s !in Visited(rand, n)
    requires s !in st.woken && SendsTo(st.tbl, s, ed) && SendsTo(tbl, s, ed) && st.tbl[s].id == tbl[s].id
    requires Fetch(st.tbl, st.free, s, ed, dstva).Fetched?
    ensures ScanInv(tbl, ed, rand, n + 1, ScanStep(st, ed, dstva, s))
  {
    StepFacts(st, ed, dstva, s);
    var st' := ScanStep(st, ed, dstva, s);
    FetchKeepsWoken(tbl, ed, dstva, rand, n, st, s);
    FetchKeepsErrors(ed, dstva, st, s);
    assert FrameInv(tbl, ed, st'.tbl, st'.woken);
    assert FetchedInv(tbl, ed, st'.tbl, st'.woken, st'.fetched);
  }

  /** The released senders stay distinct, visited and released when slot s joins them. */
  lemma FetchKeepsWoken(tbl: seq<Env>, ed: nat, dstva: Word, rand: Word, n: nat, st: ScanState, s: nat)
    requires |tbl| == NENV && ed < NENV && n < NENV && s < NENV
    requires st.Scanning? && StateOk(st, ed) && ScanInv(tbl, ed, rand, n, st) && !st.fetched
    requires Visited(rand, n + 1) == Visited(rand, n) + {s}
    requires s !in st.woken && SendsTo(st.tbl, s, ed) && SendsTo(tbl, s, ed)
    requires Fetch(st.tbl, st.free, s, ed, dstva).Fetched?
    ensures var st' := ScanStep(st, ed, dstva, s);
      st'.Scanning? && |st'.tbl| == NENV && WokenInv(tbl, ed, rand, n + 1, st'.tbl, st'.woken)
  {
    StepFacts(st, ed, dstva, s);
    var st' := ScanStep(st, ed, dstva, s);
    var t := st'.tbl;
    forall w | w in st'.woken && w < NENV
      ensures SendsTo(tbl, w, ed) && !t[w].ipcSending && t[w].status == Runnable
    {
      if w != s {
        assert w in st.woken;
      }
    }
  }

  /** The sender released by a failed fetch joins those holding an error; the earlier ones keep theirs. */
  lemma FetchKeepsErrors(ed: nat, dstva: Word, st: ScanState, s: nat)
    requires StateOk(st, ed) && s < NENV && st.Scanning? && !st.fetched && SendsTo(st.tbl, s, ed)
    requires s !in st.woken && ErrorsInv(st.tbl, st.woken, false)
    requires Fetch(st.tbl, st.free, s, ed, dstva).Fetched?
    ensures var st' := ScanStep(st, ed, dstva, s); st'.Scanning? && |st'.tbl| == NENV && ErrorsInv(st'.tbl, st'.woken, st'.fetched)
  {
    StepFacts(st, ed, dstva, s);
    var st' := ScanStep(st, ed, dstva, s);
    var t := st'.tbl;
    forall i | 0 <= i < |st'.woken| && st'.woken[i] < NENV && !(st'.fetched && i == |st'.woken| - 1)
      ensures t[st'.woken[i]].tf.regs.eax in {ToWord(-E_INVAL), ToWord(-E_NO_MEM)}
    {
      if i < |st.woken| {
        assert st'.woken[i] == st.woken[i] != s;
      }
    }
  }

  /** ScanInv holds after every number of iterations up to NENV. */
  lemma {:induction false} ScanKeepsInv(tbl: seq<Env>, free: seq<Frame>, ed: nat, dstva: Word, rand: Word, n: nat)
    requires |tbl| == NENV && ed < NENV && Wf(tbl[ed].pgdir) && n <= NENV
    ensures ScanInv(tbl, ed, rand, n, Scan(tbl, free, ed, dstva, rand, n))
  {
    if n > 0 {
      ScanKeepsInv(tbl, free, ed, dstva, rand, n - 1);
      ScanStepInv(tbl, ed, dstva, rand, n - 1, Scan(tbl, free, ed, dstva, rand, n - 1));
    }
  }

  /**
   * The outcome of sys_ipc_recv_alt(dstva) on the table: -E_INVAL for a bad
   * dstva; when senders are waiting, the full scan; a successful fetch
   * returns 0 at once, a panic stops the kernel, and otherwise curenv blocks
   * as in sys_ipc_recv on the table the scan left.
   */
  datatype RecvAltResult = RecvAltReturn(r: int, tbl: seq<Env>, free: seq<Frame>)
                         | RecvAltBlock(tbl: seq<Env>, free: seq<Frame>)
                         | RecvAltPanic

  function RecvAlt(tbl: seq<Env>, free: seq<Frame>, ed: nat, dstva: Word, rand: Word): RecvAltResult
    requires |tbl| == NENV && ed < NENV && Wf(tbl[ed].pgdir)
  {
    if BadDstva(dstva) then RecvAltReturn(-E_INVAL, tbl, free)
    else
      var st := if tbl[ed].ipcWaitingCount > 0 then Scan(tbl, free, ed, dstva, rand, NENV)
                else Scanning(tbl, free, [], false);
      match st
      case ScanPanic => RecvAltPanic
      case Scanning(t, f, _, fetched) =>
        if fetched then RecvAltReturn(0, t, f)
        else RecvAltBlock(t[ed := Waiting(t[ed], dstva)], f)
  }

  /**
   * The loop invariant of sys_ipc_recv_alt: after i iterations the kernel has
   * panicked exactly when the scan has, and otherwise the table, the page free
   * list and the success flag are the scan's.
   */
  ghost predicate AtScan(k: Kernel, tbl0: seq<Env>, free0: seq<Frame>, ed: nat, dstva: Word, rand: Word, i: nat,
                         panicked: bool, fetched: bool)
    requires |tbl0| == NENV && ed < NENV && Wf(tbl0[ed].pgdir)
    reads k, k.envs
  {
    var st := Scan(tbl0, free0, ed, dstva, rand, i);
    && (panicked <==> st.ScanPanic?)
    && (!panicked ==> st.tbl == k.envs[..] && st.free == k.pageFreeList && st.fetched == fetched)
  }

  /**
   * Iteration i of the loop in sys_ipc_recv_alt, in place: the slot
   * `(i + rand) % NENV` is examined and, if it holds a sender parked for
   * curenv, fetched from and released.
   */
  method ScanSlot(k: Kernel, ed: nat, dstva: Word, rand: Word, i: nat, ghost tbl0: seq<Env>, ghost free0: seq<Frame>)
    returns (panicked: bool, fetched: bool)
    requires k.Valid() && k.cur == Some(ed)
    requires |tbl0| == NENV && Wf(tbl0[ed].pgdir) && AtScan(k, tbl0, free0, ed, dstva, rand, i, false, false)
    modifies k, k.envs
    ensures k.Valid() && k.envs == old(k.envs) && k.cur == old(k.cur)
    ensures k.envFreeList == old(k.envFreeList) && k.mem == old(k.mem)
    ensures AtScan(k, tbl0, free0, ed, dstva, rand, i + 1, panicked, fetched)
  {
    ghost var st := Scan(tbl0, free0, ed, dstva, rand, i);
    var s := SlotAt(rand, i);
    assert Scan(tbl0, free0, ed, dstva, rand, i + 1) == ScanStep(st, ed, dstva, s);
    panicked, fetched := false, false;
    var es := k.envs[s];
    if es.ipcSending && es.ipcTo == k.envs[ed].id {
      panicked, fetched := FetchAndRelease(k, s, ed, dstva);
    }
  }

  /**
   * One sender parked for curenv, in sys_ipc_recv_alt's loop: ipc_fetch_helper,
   * then (unless it panicked) the sender's release and the decrement of
   * curenv's count of waiting senders, whether or not the fetch succeeded.
   */
  method FetchAndRelease(k: Kernel, s: nat, ed: nat, dstva: Word) returns (panicked: bool, fetched: bool)
    requires k.Valid() && k.cur == Some(ed) && s < NENV
    modifies k, k.envs
    ensures k.Valid() && k.envs == old(k.envs) && k.cur == old(k.cur)
    ensures k.envFreeList == old(k.envFreeList) && k.mem == old(k.mem)
    ensures match Fetch(old(k.envs[..]), old(k.pageFreeList), s, ed, dstva)
      case FetchPanic => panicked
      case Fetched(t1, f1, rf) =>
        var t2 := t1[s := Released(t1[s], rf)];
        && !panicked && fetched == (rf == 0) && k.pageFreeList == f1
        && k.envs[..] == t2[ed := t2[ed].(ipcWaitingCount := t2[ed].ipcWaitingCount - 1)]
  {
    assert IdOk(k.envs[..][ed], ed);
    var rf;
    panicked, rf := IpcFetchHelper(k, s, ed, dstva);
    fetched := false;
    if !panicked {
      ReleaseSender(k, s, ed, rf);
      fetched := rf == 0;
    }
  }

  /**
   * The end of a fetch in sys_ipc_recv_alt: the sender is made RUNNABLE with
   * its send result in eax, and curenv's count of waiting senders drops by one.
   */
  method ReleaseSender(k: Kernel, s: nat, ed: nat, rf: int)
    requires k.Valid() && s < NENV && ed < NENV && k.envs[s].status != Free && ed !in k.envFreeList && k.envs[ed].id > 0
    modifies k.envs
    ensures k.Valid()
    ensures var t2 := old(k.envs[..])[s := Released(old(k.envs[s]), rf)];
      k.envs[..] == t2[ed := t2[ed].(ipcWaitingCount := t2[ed].ipcWaitingCount - 1)]
  {
    var sender := k.envs[s];
    assert IdOk(k.envs[..][s], s);
    k.SetEnv(s, Released(sender, rf));
    var e := k.envs[ed];
    assert IdOk(k.envs[..][ed], ed);
    k.SetEnv(ed, e.(ipcWaitingCount := e.ipcWaitingCount - 1));
  }

  /**
   * The loop of sys_ipc_recv_alt: the slots `(i + rand) % NENV` for i from 0
   * to NENV - 1 in turn, stopping at the first successful fetch or a panic.
   */
  method ScanSenders(k: Kernel, ed: nat, dstva: Word, rand: Word) returns (panicked: bool, fetched: bool)
    requires k.Valid() && k.cur == Some(ed)
    modifies k, k.envs
    ensures k.Valid() && k.envs == old(k.envs) && k.cur == old(k.cur)
    ensures k.envFreeList == old(k.envFreeList) && k.mem == old(k.mem)
    ensures var st := Scan(old(k.envs[..]), old(k.pageFreeList), ed, dstva, rand, NENV);
      && (panicked <==> st.ScanPanic?)
      && (!panicked ==> st.tbl == k.envs[..] && st.free == k.pageFreeList && st.fetched == fetched)
  {
    ghost var tbl0 := k.envs[..];
    ghost var free0 := k.pageFreeList;
    assert IdOk(tbl0[ed], ed);
    panicked, fetched := false, false;
    var i := 0;
    while i < NENV && !panicked && !fetched
      invariant 0 <= i <= NENV
      invariant k.Valid() && k.envs == old(k.envs) && k.cur == old(k.cur)
      invariant k.envFreeList == old(k.envFreeList) && k.mem == old(k.mem)
      invariant AtScan(k, tbl0, free0, ed, dstva, rand, i, panicked, fetched)
    {
      panicked, fetched := ScanSlot(k, ed, dstva, rand, i, tbl0, free0);
      i := i + 1;
    }
    if i < NENV {
      ScanStops(tbl0, free0, ed, dstva, rand, i, NENV);
    }
  }

  /**
   * sys_ipc_recv_alt(dstva): when senders are waiting, scan all NENV slots
   * starting at a position drawn from the time-stamp counter (`tsc`, whose
   * low 32 bits are used) and fetch from each sender parked for curenv until
   * one fetch succeeds; otherwise block as sys_ipc_recv does.
   */
  ghost predicate IpcRecvAltSpec(s: KState, dstva: Word, tsc: int, o: SysOutcome, s': KState)
    requires s.InSyscall()
  {
    match RecvAlt(s.envs, s.pageFreeList, s.cur.value, dstva, ToWord(tsc))
    case RecvAltPanic =>
      o == Panicked && s'.cur == s.cur && s'.envFreeList == s.envFreeList && s'.mem == s.mem
    case RecvAltReturn(r, t, f) => o == Returned(r) && s' == s.(envs := t, pageFreeList := f)
    case RecvAltBlock(t, f) => o == Yielded && s' == s.(envs := t, pageFreeList := f)
  }

  /** sys_ipc_recv_alt: what IpcRecvAltSpec describes. */
  method SysIpcRecvAlt(k: Kernel, dstva: Word, tsc: int) returns (o: SysOutcome)
    requires k.Valid() && k.cur.Some?
    modifies k, k.envs
    ensures k.Valid() && k.envs == old(k.envs)
    ensures IpcRecvAltSpec(old(k.State()), dstva, tsc, o, k.State())
  {
    if BadDstva(dstva) {
      return Returned(-E_INVAL);
    }
    var ed := k.cur.value;
    if k.envs[ed].ipcWaitingCount > 0 {
      var panicked, fetched := ScanSenders(k, ed, dstva, ToWord(tsc));
      if panicked {
        return Panicked;
      }
      if fetched {
        return Returned(0);
      }
    }
    assert IdOk(k.envs[..][ed], ed);
    k.SetEnv(ed, Waiting(k.envs[ed], dstva));
    o := Yielded;
  }

  /**
   * What a successful sys_ipc_recv_alt guarantees: the sender it took the
   * message from was parked for curenv at the start, it is released with 0
   * in eax, curenv records it as the sender, and curenv's waiting count
   * dropped by exactly the number of senders it released.  Each sender
   * released before it holds its fetch error (-E_INVAL or -E_NO_MEM) in eax.
   */
  lemma RecvAltDelivers(tbl: seq<Env>, free: seq<Frame>, ed: nat, dstva: Word, rand: Word)
    requires |tbl| == NENV && ed < NENV && Wf(tbl[ed].pgdir)
    requires RecvAlt(tbl, free, ed, dstva, rand).RecvAltReturn? && RecvAlt(tbl, free, ed, dstva, rand).r == 0
    ensures var st := Scan(tbl, free, ed, dstva, rand, NENV);
      && st.Scanning? && st.fetched && st.woken != []
      && var s := Last(st.woken);
      && s < NENV && SendsTo(tbl, s, ed)
      && st.tbl == RecvAlt(tbl, free, ed, dstva, rand).tbl
      && st.tbl[s].tf.regs.eax == 0 && st.tbl[s].status == Runnable && !st.tbl[s].ipcSending
      && st.tbl[ed].ipcFrom == tbl[s].id
      && st.tbl[ed].ipcWaitingCount == tbl[ed].ipcWaitingCount - |st.woken|
      && (forall i :: 0 <= i < |st.woken| - 1 && st.woken[i] < NENV ==>
            st.tbl[st.woken[i]].tf.regs.eax in {ToWord(-E_INVAL), ToWord(-E_NO_MEM)})
  {
    ScanKeepsInv(tbl, free, ed, dstva, rand, NENV);
    var st := Scan(tbl, free, ed, dstva, rand, NENV);
    assert Last(st.woken) in st.woken;
  }

  /**
   * When sys_ipc_recv_alt blocks after scanning, no sender that was parked
   * for curenv at the start is still parked: each was released, RUNNABLE,
   * with its fetch error in eax.
   */
  lemma RecvAltBlockReleasesAll(tbl: seq<Env>, free: seq<Frame>, ed: nat, dstva: Word, rand: Word, s: nat)
    requires |tbl| == NENV && ed < NENV && Wf(tbl[ed].pgdir)
    requires tbl[ed].ipcWaitingCount > 0
    requires RecvAlt(tbl, free, ed, dstva, rand).RecvAltBlock?
    requires s < NENV && s != ed && SendsTo(tbl, s, ed)
    ensures var t := RecvAlt(tbl, free, ed, dstva, rand).tbl;
      && !t[s].ipcSending && t[s].status == Runnable
      && t[s].tf.regs.eax in {ToWord(-E_INVAL), ToWord(-E_NO_MEM)}
  {
    ScanKeepsInv(tbl, free, ed, dstva, rand, NENV);
    SlotAtSurjective(rand, s);
    assert s in Visited(rand, NENV);
    var st := Scan(tbl, free, ed, dstva, rand, NENV);
    var i :| 0 <= i < |st.woken| && st.woken[i] == s;
  }

  /** sys_ipc_recv_alt keeps the receiver's id: the receiver is still curenv, under the same id. */
  lemma RecvAltKeepsId(tbl: seq<Env>, free: seq<Frame>, ed: nat, dstva: Word, rand: Word)
    requires |tbl| == NENV && ed < NENV && Wf(tbl[ed].pgdir)
    ensures var r := RecvAlt(tbl, free, ed, dstva, rand);
      !r.RecvAltPanic? ==> |r.tbl| == NENV && r.tbl[ed].id == tbl[ed].id
  {
    if !BadDstva(dstva) && tbl[ed].ipcWaitingCount > 0 {
      ScanKeepsInv(tbl, free, ed, dstva, rand, NENV);
    }
  }
}
