/**
 * The environment and memory system calls of kern/syscall.c: getenvid,
 * cputs, cgetc, env_destroy, exofork, env_set_status,
 * env_set_pgfault_upcall, page_alloc, page_map and page_unmap.  Each handler
 * acts for curenv, which every handler requires to exist.
 */
module Syscall {
  import opened Machine
  import opened EnvLayout
  import opened Pmap
  import opened EnvTable

  /**
   * How a system call ends: it returns a value to the caller, it gives up
   * the CPU through sched_yield (which never returns to the handler), or the
   * kernel panics.
   */
  datatype SysOutcome = Returned(r: int) | Yielded | Panicked

  /** The page offset of an address: `PGOFF(va)`. */
  function PgOff(va: nat): nat { va % PGSIZE }

  /** sys_getenvid: curenv's id, which names curenv's own slot. */
  method SysGetenvid(k: Kernel) returns (r: int)
    requires k.Valid() && k.cur.Some?
    ensures r == k.envs[k.cur.value].id
    ensures r > 0 && Envx(r) == k.cur.value
  {
    r := k.envs[k.cur.value].id;
    assert IdOk(k.envs[..][k.cur.value], k.cur.value);
  }

  /**
   * sys_cputs(s, len): the string is printed when user_mem_assert accepts
   * the buffer; otherwise curenv is destroyed and the CPU yields.  The
   * verdict of user_mem_check (kern/pmap.c) is the parameter `readable`.
   */
  ghost predicate CputsSpec(s: KState, readable: bool, o: SysOutcome, s': KState)
    requires s.InSyscall()
  {
    if readable then o == Returned(0) && s' == s
    else o == Yielded && s' == AfterDestroy(s, s.cur.value)
  }

  /** sys_cputs: what CputsSpec describes; an unreadable buffer costs curenv its slot. */
  method SysCputs(k: Kernel, readable: bool) returns (o: SysOutcome)
    requires k.Valid() && k.cur.Some?
    modifies k, k.envs
    ensures k.Valid() && k.envs == old(k.envs)
    ensures CputsSpec(old(k.State()), readable, o, k.State())
    ensures !readable ==>
      && k.cur == None && k.envs[old(k.cur).value].status == Free
      && k.envFreeList == [old(k.cur).value] + old(k.envFreeList)
  {
    if readable {
      return Returned(0);
    }
    var i := k.cur.value;
    var _ := EnvDestroy(k, i);
    o := Yielded;
    assert IdOk(old(k.envs[..])[i], i);
  }

  /**
   * sys_env_destroy(envid): -E_BAD_ENV unless curenv may act on envid;
   * otherwise env_destroy, which yields when curenv destroyed itself.
   */
  ghost predicate EnvDestroySpec(s: KState, envid: int, o: SysOutcome, s': KState)
    requires s.InSyscall()
  {
    match Resolve(s.envs, s.cur.value, envid, true)
    case Err(_) => o == Returned(-E_BAD_ENV) && s' == s
    case Ok(i) => o == (if i == s.cur.value then Yielded else Returned(0)) && s' == AfterDestroy(s, i)
  }

  /**
   * sys_env_destroy: what EnvDestroySpec describes.  The destroyed slot is
   * live, so env_destroy leaves the table invariant intact; the call yields
   * exactly when curenv destroyed itself, and then curenv's slot is free.
   */
  method SysEnvDestroy(k: Kernel, envid: int) returns (o: SysOutcome)
    requires k.Valid() && k.cur.Some?
    modifies k, k.envs
    ensures k.Valid() && k.envs == old(k.envs)
    ensures EnvDestroySpec(old(k.State()), envid, o, k.State())
    ensures o == Yielded ==> k.cur == None && k.envs[old(k.cur).value].status == Free
  {
    var rr := Resolve(k.envs[..], k.cur.value, envid, true);
    if rr.Err? {
      return Returned(rr.code);
    }
    ResolvedIsLive(k.envs[..], k.cur.value, k.envFreeList, envid, true);
    assert IdOk(k.envs[..][rr.value], rr.value);
    var y := EnvDestroy(k, rr.value);
    o := if y then Yielded else Returned(0);
  }

  /**
   * The child sys_exofork leaves in the claimed slot: env_alloc's record,
   * NOT_RUNNABLE, with the parent's registers except that eax is 0.
   */
  function ExoforkChild(parent: Env, id: int): Env
  {
    NewEnv(id, parent.id).(status := NotRunnable, tf := WithEax(parent.tf, 0))
  }

  /**
   * The exofork child belongs to its parent: the parent may act on it with
   * the permission check on, it is not runnable yet, and its copy of the
   * parent's registers makes the same sys_exofork return 0 in the child.
   */
  lemma ExoforkChildIsManaged(tbl: seq<Env>, cur: nat, slot: nat, id: int)
    requires |tbl| == NENV && cur < NENV && slot < NENV && slot != cur
    requires id > 0 && Envx(id) == slot
    requires tbl[slot] == ExoforkChild(tbl[cur], id)
    ensures Resolve(tbl, cur, id, true) == Ok(slot)
    ensures tbl[slot].status == NotRunnable && tbl[slot].tf.regs.eax == 0
    ensures tbl[slot].tf == tbl[cur].tf.(regs := tbl[cur].tf.regs.(eax := 0))
  {
  }

  /**
   * sys_exofork: env_alloc a child of curenv; it stays NOT_RUNNABLE and
   * starts from curenv's registers with eax = 0.  Returns the child's id,
   * or env_alloc's error with nothing changed.
   */
  ghost predicate ExoforkSpec(s: KState, r: int, s': KState)
    requires s.InSyscall()
  {
    if s.envFreeList == [] then r == -E_NO_FREE_ENV && s' == s
    else if s.pageFreeList == [] then r == -E_NO_MEM && s' == s
    else
      var c := s.envFreeList[0];
      var id := MakeEnvId(NextGen(s.envs[c].id), c);
      && r == id
      && s' == s.(envs := s.envs[c := ExoforkChild(s.envs[s.cur.value], id)],
                  envFreeList := s.envFreeList[1..], pageFreeList := s.pageFreeList[1..])
  }

  /**
   * sys_exofork: what ExoforkSpec describes.  A non-negative result is the
   * positive id of the slot taken from the head of the free list, which is
   * not curenv's.
   */
  method SysExofork(k: Kernel) returns (r: int)
    requires k.Valid() && k.cur.Some?
    modifies k, k.envs
    ensures k.Valid() && k.envs == old(k.envs)
    ensures ExoforkSpec(old(k.State()), r, k.State())
    ensures r >= 0 ==>
      && old(k.envFreeList) != []
      && r > 0 && Envx(r) == old(k.envFreeList[0]) && old(k.envFreeList[0]) != k.cur.value
  {
    var parent := k.envs[k.cur.value];
    assert k.cur.value !in k.envFreeList;
    var a := EnvAlloc(k, parent.id);
    if a.Err? {
      return a.code;
    }
    var c := a.value;
    var child := ExoforkChild(parent, k.envs[c].id);
    k.SetEnv(c, child);
    r := child.id;
  }

  /**
   * sys_env_set_status(envid, status): -E_BAD_ENV unless curenv may act on
   * envid; -E_INVAL unless `status` is one of the five EnvStatus codes (all
   * five are accepted, FREE, DYING and RUNNING included); otherwise the
   * status is stored.
   */
  ghost predicate EnvSetStatusSpec(s: KState, envid: int, status: int, r: int, s': KState)
    requires s.InSyscall()
  {
    match Resolve(s.envs, s.cur.value, envid, true)
    case Err(_) => r == -E_BAD_ENV && s' == s
    case Ok(i) =>
      match StatusOfCode(status)
      case None => r == -E_INVAL && s' == s
      case Some(st) => r == 0 && s' == s.(envs := s.envs[i := s.envs[i].(status := st)])
  }

  /** sys_env_set_status: what EnvSetStatusSpec describes. */
  method SysEnvSetStatus(k: Kernel, envid: int, status: int) returns (r: int)
    requires k.Valid() && k.cur.Some?
    modifies k.envs
    ensures k.Valid()
    ensures EnvSetStatusSpec(old(k.State()), envid, status, r, k.State())
  {
    var rr := Resolve(k.envs[..], k.cur.value, envid, true);
    if rr.Err? {
      return rr.code;
    }
    var s := StatusOfCode(status);
    if s.None? {
      return -E_INVAL;
    }
    var i := rr.value;
    ResolvedIsLive(k.envs[..], k.cur.value, k.envFreeList, envid, true);
    assert IdOk(k.envs[..][i], i);
    k.SetEnv(i, k.envs[i].(status := s.value));
    r := 0;
  }

  /**
   * sys_env_set_pgfault_upcall(envid, func): -E_BAD_ENV unless curenv may
   * act on envid; otherwise the upcall entry point is stored.
   */
  ghost predicate EnvSetPgfaultUpcallSpec(s: KState, envid: int, func: Word, r: int, s': KState)
    requires s.InSyscall()
  {
    match Resolve(s.envs, s.cur.value, envid, true)
    case Err(_) => r == -E_BAD_ENV && s' == s
    case Ok(i) => r == 0 && s' == s.(envs := s.envs[i := s.envs[i].(pgfaultUpcall := func)])
  }

  /** sys_env_set_pgfault_upcall: what EnvSetPgfaultUpcallSpec describes. */
  method SysEnvSetPgfaultUpcall(k: Kernel, envid: int, func: Word) returns (r: int)
    requires k.Valid() && k.cur.Some?
    modifies k.envs
    ensures k.Valid()
    ensures EnvSetPgfaultUpcallSpec(old(k.State()), envid, func, r, k.State())
  {
    var rr := Resolve(k.envs[..], k.cur.value, envid, true);
    if rr.Err? {
      return rr.code;
    }
    var i := rr.value;
    ResolvedIsLive(k.envs[..], k.cur.value, k.envFreeList, envid, true);
    assert IdOk(k.envs[..][i], i);
    k.SetEnv(i, k.envs[i].(pgfaultUpcall := func));
    r := 0;
  }

  /**
   * sys_page_alloc(envid, va, perm): -E_BAD_ENV unless curenv may act on
   * envid; -E_INVAL if va >= UTOP or perm has a bit outside PTE_SYSCALL;
   * otherwise page_alloc_map maps a zeroed frame at va with perm | PTE_U.
   * The address is not checked for page alignment: the page holding va is
   * mapped.
   */
  ghost predicate PageAllocSpec(s: KState, envid: int, va: Word, perm: bv32, r: int, s': KState)
    requires s.InSyscall()
  {
    match Resolve(s.envs, s.cur.value, envid, true)
    case Err(_) => r == -E_BAD_ENV && s' == s
    case Ok(i) =>
      if va >= UTOP || !PermAllowed(perm) then r == -E_INVAL && s' == s
      else match PageAllocMap(s.envs[i].pgdir, s.pageFreeList, va, perm | PTE_U)
        case AllocNoMem => r == -E_NO_MEM && s' == s
        case AllocMapped(sp, free, f) =>
          && r == 0
          && s' == s.(envs := s.envs[i := s.envs[i].(pgdir := sp)], pageFreeList := free, mem := s.mem[f := ZeroPage()])
  }

  /** sys_page_alloc: what PageAllocSpec describes. */
  method SysPageAlloc(k: Kernel, envid: int, va: Word, perm: bv32) returns (r: int)
    requires k.Valid() && k.cur.Some?
    modifies k, k.envs
    ensures k.Valid() && k.envs == old(k.envs)
    ensures PageAllocSpec(old(k.State()), envid, va, perm, r, k.State())
  {
    var rr := Resolve(k.envs[..], k.cur.value, envid, true);
    if rr.Err? {
      return rr.code;
    }
    if va >= UTOP {
      return -E_INVAL;
    }
    if !PermAllowed(perm) {
      return -E_INVAL;
    }
    var i := rr.value;
    ResolvedIsLive(k.envs[..], k.cur.value, k.envFreeList, envid, true);
    var e := k.envs[i];
    assert IdOk(k.envs[..][i], i);
    match PageAllocMap(e.pgdir, k.pageFreeList, va, perm | PTE_U)
    case AllocNoMem =>
      return -E_NO_MEM;
    case AllocMapped(s, free, f) =>
      k.SetEnv(i, e.(pgdir := s));
      k.pageFreeList := free;
      k.mem := k.mem[f := ZeroPage()];
      r := 0;
  }

  /** page_alloc accepts an address inside a page and maps the page that holds it. */
  lemma UnalignedPageAllocAccepted(a: AddrSpace, free: seq<Frame>, va: Word, perm: bv32)
    requires Wf(a) && va < UTOP && PgOff(va) != 0 && PermAllowed(perm)
    requires |free| >= 2
    ensures PageAllocMap(a, free, va, perm | PTE_U).AllocMapped?
    ensures PageAllocMap(a, free, va, perm | PTE_U).space.ptes[Pn(va - PgOff(va))].frame == free[0]
  {
    assert Pn(va - PgOff(va)) == Pn(va);
  }

  // ---------------------------------------------------------------------
  // sys_page_map
  // ---------------------------------------------------------------------

  /** The outcome of sys_page_map on the table: an error, or the destination's new address space. */
  datatype MapResult = MapErr(code: int) | Mapped(dst: nat, space: AddrSpace, free: seq<Frame>)

  /** The argument checks sys_page_map performs before it looks either environment up. */
  predicate MapArgsOk(srcva: Word, dstva: Word, perm: bv32)
  {
    PgOff(srcva) == 0 && PgOff(dstva) == 0 && srcva < UTOP && dstva < UTOP && PermAllowed(perm)
  }

  /** Asking for write access is refused when the source mapping is read-only. */
  predicate GrantsWriteOverReadOnly(perm: bv32, src: Pte)
  {
    perm & PTE_W != 0 && src.perm & PTE_W == 0
  }

  /**
   * sys_page_map(srcenvid, srcva, dstenvid, dstva, perm) on the table:
   * alignment, UTOP and perm checks first (-E_INVAL), then both envids with
   * the permission check (-E_BAD_ENV), then the source page must be mapped
   * and must be writable if write access is asked for (-E_INVAL); finally
   * page_insert maps the source frame at dstva with `perm` (-E_NO_MEM when
   * it needs a page table and none is left).
   */
  function PageMap(tbl: seq<Env>, cur: nat, free: seq<Frame>, srcenvid: int, srcva: Word,
                   dstenvid: int, dstva: Word, perm: bv32): (m: MapResult)
    requires |tbl| == NENV && cur < NENV
    requires forall i :: 0 <= i < |tbl| ==> Wf(tbl[i].pgdir)
    ensures m.MapErr? ==> m.code in {-E_INVAL, -E_BAD_ENV, -E_NO_MEM}
    ensures m.Mapped? ==> m.dst < NENV && Wf(m.space)
  {
    if !MapArgsOk(srcva, dstva, perm) then MapErr(-E_INVAL)
    else
      var rs := Resolve(tbl, cur, srcenvid, true);
      if rs.Err? then MapErr(rs.code)
      else
        var rd := Resolve(tbl, cur, dstenvid, true);
        if rd.Err? then MapErr(rd.code)
        else match PageLookup(tbl[rs.value].pgdir, srcva)
          case None => MapErr(-E_INVAL)
          case Some(pte) =>
            if GrantsWriteOverReadOnly(perm, pte) then MapErr(-E_INVAL)
            else match PageInsert(tbl[rd.value].pgdir, free, pte.frame, dstva, perm)
              case InsertNoMem => MapErr(-E_NO_MEM)
              case Inserted(s, f) => Mapped(rd.value, s, f)
  }

  /**
   * When sys_page_map succeeds: both environments resolve, both addresses
   * are page-aligned user addresses, perm is within PTE_SYSCALL, the source
   * page is mapped, write access is granted only over a writable page, and
   * the destination now maps dstva to the very frame srcva maps, with
   * `perm | PTE_P`, everything else in its address space as before.
   */
  lemma PageMapSuccess(tbl: seq<Env>, cur: nat, free: seq<Frame>, srcenvid: int, srcva: Word,
                       dstenvid: int, dstva: Word, perm: bv32)
    requires |tbl| == NENV && cur < NENV
    requires forall i :: 0 <= i < |tbl| ==> Wf(tbl[i].pgdir)
    requires PageMap(tbl, cur, free, srcenvid, srcva, dstenvid, dstva, perm).Mapped?
    ensures var m := PageMap(tbl, cur, free, srcenvid, srcva, dstenvid, dstva, perm);
      var rs := Resolve(tbl, cur, srcenvid, true);
      && MapArgsOk(srcva, dstva, perm)
      && rs.Ok? && Resolve(tbl, cur, dstenvid, true) == Ok(m.dst)
      && Pn(srcva) in tbl[rs.value].pgdir.ptes
      && !GrantsWriteOverReadOnly(perm, tbl[rs.value].pgdir.ptes[Pn(srcva)])
      && m.space.ptes == tbl[m.dst].pgdir.ptes[Pn(dstva) := Pte(tbl[rs.value].pgdir.ptes[Pn(srcva)].frame, perm | PTE_P)]
  {
  }

  /**
   * The error sys_page_map reports, in order: -E_INVAL for bad arguments,
   * -E_BAD_ENV for either environment, -E_INVAL for an unmapped or
   * read-only source, -E_NO_MEM only when every check passed and the
   * destination lacks the page table with no frame left.
   */
  lemma PageMapErrors(tbl: seq<Env>, cur: nat, free: seq<Frame>, srcenvid: int, srcva: Word,
                      dstenvid: int, dstva: Word, perm: bv32)
    requires |tbl| == NENV && cur < NENV
    requires forall i :: 0 <= i < |tbl| ==> Wf(tbl[i].pgdir)
    ensures var m := PageMap(tbl, cur, free, srcenvid, srcva, dstenvid, dstva, perm);
      && (!MapArgsOk(srcva, dstva, perm) ==> m == MapErr(-E_INVAL))
      && (MapArgsOk(srcva, dstva, perm)
          && (Resolve(tbl, cur, srcenvid, true).Err? || Resolve(tbl, cur, dstenvid, true).Err?)
          ==> m == MapErr(-E_BAD_ENV))
      && (m == MapErr(-E_NO_MEM) <==>
            && MapArgsOk(srcva, dstva, perm)
            && Resolve(tbl, cur, srcenvid, true).Ok? && Resolve(tbl, cur, dstenvid, true).Ok?
            && Pn(srcva) in tbl[Resolve(tbl, cur, srcenvid, true).value].pgdir.ptes
            && !GrantsWriteOverReadOnly(perm, tbl[Resolve(tbl, cur, srcenvid, true).value].pgdir.ptes[Pn(srcva)])
            && TableOf(Pn(dstva)) !in tbl[Resolve(tbl, cur, dstenvid, true).value].pgdir.tables
            && free == [])
  {
  }

  /** sys_page_map on the state: the change PageMap describes, or nothing on an error. */
  ghost predicate PageMapSpec(s: KState, srcenvid: int, srcva: Word, dstenvid: int, dstva: Word, perm: bv32,
                              r: int, s': KState)
    requires s.InSyscall()
  {
    match PageMap(s.envs, s.cur.value, s.pageFreeList, srcenvid, srcva, dstenvid, dstva, perm)
    case MapErr(c) => r == c && s' == s
    case Mapped(d, sp, f) =>
      r == 0 && s' == s.(envs := s.envs[d := s.envs[d].(pgdir := sp)], pageFreeList := f)
  }

  /** sys_page_map: what PageMapSpec describes. */
  method SysPageMap(k: Kernel, srcenvid: int, srcva: Word, dstenvid: int, dstva: Word, perm: bv32)
    returns (r: int)
    requires k.Valid() && k.cur.Some?
    modifies k, k.envs
    ensures k.Valid() && k.envs == old(k.envs)
    ensures PageMapSpec(old(k.State()), srcenvid, srcva, dstenvid, dstva, perm, r, k.State())
  {
    var m := PageMap(k.envs[..], k.cur.value, k.pageFreeList, srcenvid, srcva, dstenvid, dstva, perm);
    match m
    case MapErr(c) =>
      return c;
    case Mapped(d, s, f) =>
      ResolvedIsLive(k.envs[..], k.cur.value, k.envFreeList, dstenvid, true);
      assert IdOk(k.envs[..][d], d);
      k.SetEnv(d, k.envs[d].(pgdir := s));
      k.pageFreeList := f;
      r := 0;
  }

  /**
   * sys_page_unmap(envid, va): -E_INVAL for an unaligned va or one at or
   * above UTOP (checked before the lookup), -E_BAD_ENV unless curenv may act
   * on envid; otherwise the mapping at va is removed if there is one, and
   * the call succeeds either way.
   */
  ghost predicate PageUnmapSpec(s: KState, envid: int, va: Word, r: int, s': KState)
    requires s.InSyscall()
  {
    if PgOff(va) != 0 || va >= UTOP then r == -E_INVAL && s' == s
    else match Resolve(s.envs, s.cur.value, envid, true)
      case Err(_) => r == -E_BAD_ENV && s' == s
      case Ok(i) =>
        var a := s.envs[i].pgdir;
        r == 0 && s' == s.(envs := s.envs[i := s.envs[i].(pgdir := a.(ptes := a.ptes - {Pn(va)}))])
  }

  /** sys_page_unmap: what PageUnmapSpec describes. */
  method SysPageUnmap(k: Kernel, envid: int, va: Word) returns (r: int)
    requires k.Valid() && k.cur.Some?
    modifies k.envs
    ensures k.Valid()
    ensures PageUnmapSpec(old(k.State()), envid, va, r, k.State())
  {
    if PgOff(va) != 0 {
      return -E_INVAL;
    }
    if va >= UTOP {
      return -E_INVAL;
    }
    var rr := Resolve(k.envs[..], k.cur.value, envid, true);
    if rr.Err? {
      return rr.code;
    }
    var i := rr.value;
    var e := k.envs[i];
    if PageLookup(e.pgdir, va).Some? {
      ResolvedIsLive(k.envs[..], k.cur.value, k.envFreeList, envid, true);
      assert IdOk(k.envs[..][i], i);
      assert Wf(k.envs[..][i].pgdir);
      k.SetEnv(i, e.(pgdir := PageRemove(e.pgdir, va)));
    } else {
      assert e.pgdir.ptes - {Pn(va)} == e.pgdir.ptes;
      assert e.(pgdir := e.pgdir) == e;
    }
    r := 0;
  }
}
