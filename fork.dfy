/**
 * User-level fork (lib/fork.c): copy-on-write fork, the shared-memory sfork,
 * the page-fault handler that gives a writer its private copy, and the page
 * duplication helpers they use.
 *
 * The library runs in curenv and reaches the kernel through system calls;
 * here each `sys_*` call is the corresponding handler of the Syscall module
 * applied to the same kernel state.  The read-only page-table window
 * (vpd/vpt) is a read of curenv's own address space.  A library panic ends
 * the caller; the model reports it as `panicked` and says nothing more about
 * the state it leaves.
 */
module Fork {
  import opened Machine
  import opened EnvLayout
  import opened Pmap
  import opened EnvTable
  import opened Syscall

  // ---------------------------------------------------------------------
  // Reading and deriving page-table entries
  // ---------------------------------------------------------------------

  /**
   * get_ro_pte(va): the entry's permission bits through the read-only
   * window; 0 when the page table or the entry is absent.  The physical
   * address bits of the entry are not represented: every caller masks them
   * off.
   */
  function RoPte(a: AddrSpace, va: nat): (pte: bv32)
    requires Wf(a)
    ensures pte & PTE_P != 0 <==> Pn(va) in a.ptes
    ensures Pn(va) in a.ptes ==> pte == a.ptes[Pn(va)].perm
  {
    if TableOf(Pn(va)) in a.tables && Pn(va) in a.ptes then a.ptes[Pn(va)].perm else 0
  }

  /** The address of page `pn`, computed in 32 bits as `pn * PGSIZE`. */
  function PageVa(pn: nat): Word
  {
    (pn * PGSIZE) % WORD_MOD
  }

  /** Page addresses are aligned, and below 4 GiB the page number comes back. */
  lemma PageVaSpec(pn: nat)
    ensures PgOff(PageVa(pn)) == 0
    ensures pn < 0x10_0000 ==> PageVa(pn) == pn * PGSIZE && Pn(PageVa(pn)) == pn
  {
    var q, r := pn / 0x10_0000, pn % 0x10_0000;
    assert pn * PGSIZE == q * WORD_MOD + r * PGSIZE;
    assert 0 <= r * PGSIZE < WORD_MOD;
    WordModOf(q, r * PGSIZE);
    PageOf(r);
  }

  /** Reduction modulo 2^32 drops whole multiples of it. */
  lemma WordModOf(q: nat, x: nat)
    requires x < WORD_MOD
    ensures (q * WORD_MOD + x) % WORD_MOD == x
  {
  }

  /** A whole number of pages is page aligned and gives its page number back. */
  lemma PageOf(r: nat)
    ensures (r * PGSIZE) % PGSIZE == 0 && (r * PGSIZE) / PGSIZE == r
  {
  }

  /** The permission duppage maps with: writable or copy-on-write pages become read-only copy-on-write. */
  function DupPerm(pte: bv32): bv32
  {
    var perm := pte & PTE_SYSCALL;
    if perm & (PTE_W | PTE_COW) != 0 then (perm & !PTE_W) | PTE_COW else perm
  }

  /**
   * What duppage promises: the permission is one sys_page_map accepts, it
   * never grants write access, it is copy-on-write exactly when the page was
   * writable or copy-on-write, every other bit is kept, and applying it
   * twice changes nothing more (which is why the parent's own mapping can be
   * remapped with it whatever it was).
   */
  lemma DupPermSpec(pte: bv32)
    ensures PermAllowed(DupPerm(pte))
    ensures DupPerm(pte) & PTE_W == 0
    ensures DupPerm(pte) & PTE_COW != 0 <==> pte & (PTE_W | PTE_COW) != 0
    ensures DupPerm(pte) & (PTE_P | PTE_U | 0x600) == pte & (PTE_P | PTE_U | 0x600)
    ensures DupPerm(DupPerm(pte)) == DupPerm(pte)
  {
  }

  /** The entry page_insert leaves for a duppage of parent entry `p`. */
  function DupPte(p: Pte): Pte
  {
    Pte(p.frame, DupPerm(p.perm) | PTE_P)
  }

  /** The entry page_insert leaves for a duppage_share of parent entry `p`: same frame, same bits. */
  function SharePte(p: Pte): Pte
  {
    Pte(p.frame, (p.perm & PTE_SYSCALL) | PTE_P)
  }

  function CopyPte(p: Pte, share: bool): Pte
  {
    if share then SharePte(p) else DupPte(p)
  }

  /** The table after page_insert of `pte` at page `pn` of slot `c` (adding the page table if missing). */
  function MapPage(tbl: seq<Env>, c: nat, pn: nat, pte: Pte): seq<Env>
    requires c < |tbl|
  {
    tbl[c := tbl[c].(pgdir := AddrSpace(tbl[c].pgdir.tables + {TableOf(pn)}, tbl[c].pgdir.ptes[pn := pte]))]
  }

  /**
   * The table after a successful copy of page `pn` from `me` to `c`: the
   * child gets the entry; a copy-on-write copy remaps the parent too.
   */
  function CopyEffect(tbl: seq<Env>, me: nat, c: nat, pn: nat, share: bool): seq<Env>
    requires me < |tbl| && c < |tbl| && pn in tbl[me].pgdir.ptes
  {
    var d := CopyPte(tbl[me].pgdir.ptes[pn], share);
    if share then MapPage(tbl, c, pn, d) else MapPage(MapPage(tbl, c, pn, d), me, pn, d)
  }

  /**
   * Whether mapping page `pn` of curenv into the environment `envid` fails:
   * above UTOP, an environment curenv may not act on, or no frame left for
   * a missing page table.
   */
  predicate CopyFails(tbl: seq<Env>, me: nat, free: seq<Frame>, envid: int, pn: nat)
    requires |tbl| == NENV && me < NENV
  {
    var rd := Resolve(tbl, me, envid, true);
    PageVa(pn) >= UTOP || rd.Err? || (TableOf(Pn(PageVa(pn))) !in tbl[rd.value].pgdir.tables && free == [])
  }

  // ---------------------------------------------------------------------
  // thisenv
  // ---------------------------------------------------------------------

  /**
   * What the id held in slot `thisenv` names for curenv `me`, as
   * sys_page_map's envid2env (with the permission check) resolves it.
   * duppage and duppage_share send `thisenv->env_id`: the id found in the
   * slot the library's thisenv points at, whichever environment runs.
   */
  function ThisenvResolves(tbl: seq<Env>, me: nat, thisenv: nat): Result<nat>
    requires |tbl| == NENV && me < NENV && thisenv < NENV
  {
    Resolve(tbl, me, tbl[thisenv].id, true)
  }

  /** thisenv names curenv itself. */
  predicate ThisenvIsCur(tbl: seq<Env>, me: nat, thisenv: nat)
    requires |tbl| == NENV && me < NENV && thisenv < NENV
  {
    ThisenvResolves(tbl, me, thisenv) == Ok(me)
  }

  /**
   * thisenv names no environment curenv may take page `pn` from: the id
   * does not resolve, or it resolves to another environment without that
   * page.
   */
  predicate ThisenvLacks(tbl: seq<Env>, me: nat, thisenv: nat, pn: nat)
    requires |tbl| == NENV && me < NENV && thisenv < NENV
  {
    var s := ThisenvResolves(tbl, me, thisenv);
    s.Err? || (s.value != me && pn !in tbl[s.value].pgdir.ptes)
  }

  /**
   * The table with every address space blanked out: what is left is each
   * slot's id, status, parent and saved state, all that envid2env and the
   * scheduler look at.
   */
  ghost function Unmapped(t: seq<Env>): seq<Env>
  {
    seq(|t|, j requires 0 <= j < |t| => t[j].(pgdir := BlankEnv.pgdir))
  }

  /** From table `t0` to `t` only address spaces changed: every id, status and parent is kept. */
  ghost predicate SpacesOnly(t0: seq<Env>, t: seq<Env>)
  {
    Unmapped(t) == Unmapped(t0)
  }

  /** Slot by slot, a table that changed only address spaces keeps everything else. */
  lemma SpacesOnlyAt(t0: seq<Env>, t: seq<Env>, j: nat)
    requires SpacesOnly(t0, t) && j < |t0|
    ensures |t| == |t0| && t[j] == t0[j].(pgdir := t[j].pgdir)
  {
    assert |t| == |Unmapped(t)|;
    assert Unmapped(t)[j] == Unmapped(t0)[j];
  }

  /** Replacing one address space changes only address spaces. */
  lemma SpacesOnlyMap(t: seq<Env>, d: nat, a: AddrSpace)
    requires d < |t|
    ensures SpacesOnly(t, t[d := t[d].(pgdir := a)])
  {
    var u := t[d := t[d].(pgdir := a)];
    assert forall j :: 0 <= j < |t| ==> Unmapped(u)[j] == Unmapped(t)[j];
  }

  /** envid2env does not look at address spaces. */
  lemma SpacesOnlyResolve(t0: seq<Env>, t: seq<Env>, me: nat, envid: int)
    requires SpacesOnly(t0, t) && |t0| == NENV && me < NENV
    ensures Resolve(t, me, envid, true) == Resolve(t0, me, envid, true)
  {
    SpacesOnlyAt(t0, t, me);
    if envid != 0 {
      SpacesOnlyAt(t0, t, Envx(envid));
    }
  }

  // ---------------------------------------------------------------------
  // duppage and duppage_share
  // ---------------------------------------------------------------------

  /**
   * sys_page_map(thisenv->env_id, va, envid, va, perm) for a page `va`
   * curenv maps, `thisenv` being the slot the library's thisenv points at.
   * Only address spaces change.  When thisenv names curenv and the
   * permission asks for write access only over a writable page, it fails
   * only as CopyFails says and otherwise maps curenv's frame at the same
   * address in the environment `envid` resolves to; when thisenv names no
   * environment with the page, it fails.
   */
  method MapOwnPage(k: Kernel, thisenv: nat, envid: int, pn: nat, perm: bv32) returns (r: int)
    requires k.Valid() && k.cur.Some? && k.envs[k.cur.value].status != Free && thisenv < NENV
    requires Pn(PageVa(pn)) in k.envs[k.cur.value].pgdir.ptes && PermAllowed(perm)
    requires !GrantsWriteOverReadOnly(perm, k.envs[k.cur.value].pgdir.ptes[Pn(PageVa(pn))])
    modifies k, k.envs
    ensures k.Valid() && k.envs == old(k.envs) && k.cur == old(k.cur)
    ensures k.envFreeList == old(k.envFreeList) && k.mem == old(k.mem)
    ensures SpacesOnly(old(k.envs[..]), k.envs[..])
    ensures Pn(PageVa(pn)) in k.envs[k.cur.value].pgdir.ptes
    ensures r != 0 ==> k.State() == old(k.State())
    ensures ThisenvLacks(old(k.envs[..]), k.cur.value, thisenv, Pn(PageVa(pn))) ==> r != 0
    ensures ThisenvIsCur(old(k.envs[..]), k.cur.value, thisenv) ==>
      (r != 0 <==> CopyFails(old(k.envs[..]), k.cur.value, old(k.pageFreeList), envid, pn))
    ensures ThisenvIsCur(old(k.envs[..]), k.cur.value, thisenv) && r == 0 ==>
      k.envs[..] == MapPage(old(k.envs[..]), Resolve(old(k.envs[..]), k.cur.value, envid, true).value,
                            Pn(PageVa(pn)), Pte(old(k.envs[k.cur.value].pgdir.ptes[Pn(PageVa(pn))]).frame, perm | PTE_P))
    ensures ThisenvIsCur(old(k.envs[..]), k.cur.value, thisenv) && r == 0 ==>
      var d := Resolve(old(k.envs[..]), k.cur.value, envid, true).value;
      k.pageFreeList == if TableOf(Pn(PageVa(pn))) in old(k.envs[..])[d].pgdir.tables then old(k.pageFreeList)
                        else old(k.pageFreeList)[1..]
  {
    var me := k.cur.value;
    var selfId := k.envs[thisenv].id;
    var va := PageVa(pn);
    ghost var t0, free0 := k.envs[..], k.pageFreeList;
    PageVaSpec(pn);
    PageMapErrors(t0, me, free0, selfId, va, envid, va, perm);
    ghost var m := PageMap(t0, me, free0, selfId, va, envid, va, perm);
    r := SysPageMap(k, selfId, va, envid, va, perm);
    if m.Mapped? {
      assert k.envs[..] == t0[m.dst := t0[m.dst].(pgdir := m.space)];
      SpacesOnlyMap(t0, m.dst, m.space);
    }
  }

  /**
   * duppage(envid, pn): nothing happens for an unmapped page; otherwise the
   * child and then the environment thisenv names map the page with
   * DupPerm, and either failure panics.  When thisenv names curenv, the
   * second mapping cannot fail once the first succeeded; when it names no
   * environment with the page, the first one fails.
   */
  method Duppage(k: Kernel, thisenv: nat, envid: int, pn: nat) returns (panicked: bool)
    requires k.Valid() && k.cur.Some? && k.envs[k.cur.value].status != Free && thisenv < NENV
    modifies k, k.envs
    ensures k.Valid() && k.envs == old(k.envs) && k.cur == old(k.cur)
    ensures k.envFreeList == old(k.envFreeList) && k.mem == old(k.mem)
    ensures SpacesOnly(old(k.envs[..]), k.envs[..])
    ensures var me := k.cur.value; var pno := Pn(PageVa(pn));
      && (pno !in old(k.envs[me].pgdir.ptes) ==>
            !panicked && k.envs[..] == old(k.envs[..]) && k.pageFreeList == old(k.pageFreeList))
      && (pno in old(k.envs[me].pgdir.ptes) && ThisenvLacks(old(k.envs[..]), me, thisenv, pno) ==>
            panicked && k.State() == old(k.State()))
    ensures var me := k.cur.value; var pno := Pn(PageVa(pn));
      ThisenvIsCur(old(k.envs[..]), me, thisenv) ==>
      && (panicked ==> k.State() == old(k.State()))
      && (pno in old(k.envs[me].pgdir.ptes) ==>
            (panicked <==> CopyFails(old(k.envs[..]), me, old(k.pageFreeList), envid, pn)))
      && (pno in old(k.envs[me].pgdir.ptes) && !panicked ==>
            k.envs[..] == CopyEffect(old(k.envs[..]), me, Resolve(old(k.envs[..]), me, envid, true).value, pno, false))
      && (pno in old(k.envs[me].pgdir.ptes) && !panicked ==>
            var d := Resolve(old(k.envs[..]), me, envid, true).value;
            k.pageFreeList == if TableOf(pno) in old(k.envs[..])[d].pgdir.tables then old(k.pageFreeList)
                              else old(k.pageFreeList)[1..])
  {
    var me := k.cur.value;
    var selfId := k.envs[thisenv].id;
    var va := PageVa(pn);
    var pte := RoPte(k.envs[me].pgdir, va);
    panicked := false;
    if pte & PTE_P != 0 {
      var perm := DupPerm(pte);
      DupPermSpec(pte);
      ghost var t0 := k.envs[..];
      ghost var p0 := k.envs[me].pgdir.ptes[Pn(va)];
      assert Pte(p0.frame, perm | PTE_P) == CopyPte(p0, false);
      var rmc := MapOwnPage(k, thisenv, envid, pn, perm);
      if rmc != 0 {
        panicked := true;
      } else {
        ghost var t1 := k.envs[..];
        PageVaSpec(pn);
        SpacesOnlyResolve(t0, t1, me, selfId);
        SpacesOnlyAt(t0, t1, me);
        SpacesOnlyAt(t0, t1, thisenv);
        if ThisenvIsCur(t0, me, thisenv) {
          assert ThisenvIsCur(t1, me, thisenv);
          assert TableOf(Pn(va)) in t1[me].pgdir.tables;
          assert t1[me].pgdir.ptes[Pn(va)].frame == p0.frame;
          assert !CopyFails(t1, me, k.pageFreeList, selfId, pn);
        }
        var rmp := MapOwnPage(k, thisenv, selfId, pn, perm);
        panicked := rmp != 0;
      }
    }
  }

  /**
   * duppage_share(envid, pn): nothing happens for an unmapped page;
   * otherwise the child maps the page with the same permission bits, from
   * the environment thisenv names.  When that is curenv, both environments
   * share the memory; when it names no environment with the page, it
   * panics.
   */
  method DuppageShare(k: Kernel, thisenv: nat, envid: int, pn: nat) returns (panicked: bool)
    requires k.Valid() && k.cur.Some? && k.envs[k.cur.value].status != Free && thisenv < NENV
    modifies k, k.envs
    ensures k.Valid() && k.envs == old(k.envs) && k.cur == old(k.cur)
    ensures k.envFreeList == old(k.envFreeList) && k.mem == old(k.mem)
    ensures SpacesOnly(old(k.envs[..]), k.envs[..])
    ensures panicked ==> k.State() == old(k.State())
    ensures var me := k.cur.value; var pno := Pn(PageVa(pn));
      && (pno !in old(k.envs[me].pgdir.ptes) ==>
            !panicked && k.envs[..] == old(k.envs[..]) && k.pageFreeList == old(k.pageFreeList))
      && (pno in old(k.envs[me].pgdir.ptes) && ThisenvLacks(old(k.envs[..]), me, thisenv, pno) ==> panicked)
    ensures var me := k.cur.value; var pno := Pn(PageVa(pn));
      ThisenvIsCur(old(k.envs[..]), me, thisenv) ==>
      && (pno in old(k.envs[me].pgdir.ptes) ==>
            (panicked <==> CopyFails(old(k.envs[..]), me, old(k.pageFreeList), envid, pn)))
      && (pno in old(k.envs[me].pgdir.ptes) && !panicked ==>
            k.envs[..] == CopyEffect(old(k.envs[..]), me, Resolve(old(k.envs[..]), me, envid, true).value, pno, true))
      && (pno in old(k.envs[me].pgdir.ptes) && !panicked ==>
            var d := Resolve(old(k.envs[..]), me, envid, true).value;
            k.pageFreeList == if TableOf(pno) in old(k.envs[..])[d].pgdir.tables then old(k.pageFreeList)
                              else old(k.pageFreeList)[1..])
  {
    var me := k.cur.value;
    var va := PageVa(pn);
    var pte := RoPte(k.envs[me].pgdir, va);
    panicked := false;
    if pte & PTE_P != 0 {
      var perm := pte & PTE_SYSCALL;
      ghost var p0 := k.envs[me].pgdir.ptes[Pn(va)];
      assert Pte(p0.frame, perm | PTE_P) == CopyPte(p0, true);
      var rm := MapOwnPage(k, thisenv, envid, pn, perm);
      panicked := rm != 0;
    }
  }

  // ---------------------------------------------------------------------
  // The copy loops of fork and sfork
  // ---------------------------------------------------------------------

  /**
   * The child's entries once every parent page below `hi` is copied, pages
   * below `shareBelow` shared and the others copied on write: such a page
   * is in the child as CopyPte makes it, and every other entry is what the
   * child had before the copy.  fork shares nothing (`shareBelow` 0); sfork
   * shares every page below its stack page.
   */
  ghost predicate Copied(P0: map<nat, Pte>, C0: map<nat, Pte>, C: map<nat, Pte>, hi: nat, shareBelow: nat)
  {
    && (forall pn :: pn in C <==> pn in C0 || (pn in P0 && pn < hi))
    && (forall pn :: pn in P0 && pn < hi ==> C[pn] == CopyPte(P0[pn], pn < shareBelow))
    && (forall pn :: pn in C0 && !(pn in P0 && pn < hi) ==> C[pn] == C0[pn])
  }

  /**
   * The parent's entries once every page below `hi` is copied: the same
   * pages, those copied on write remapped with DupPte, the shared ones and
   * those not yet copied untouched.
   */
  ghost predicate Marked(P0: map<nat, Pte>, P: map<nat, Pte>, hi: nat, shareBelow: nat)
  {
    && P.Keys == P0.Keys
    && (forall pn :: pn in P0 ==> P[pn] == if shareBelow <= pn < hi then DupPte(P0[pn]) else P0[pn])
  }

  /**
   * The state of the table while curenv `me` copies its pages below `hi`
   * into its child `c` (id `cid`), starting from table `E0`: only the two
   * address spaces have changed, curenv's page tables not at all.
   */
  ghost predicate CopyInv(tbl: seq<Env>, me: nat, cid: int, c: nat, E0: seq<Env>, hi: nat, shareBelow: nat)
  {
    && |tbl| == NENV && |E0| == NENV && me < NENV && c < NENV && me != c
    && Resolve(tbl, me, cid, true) == Ok(c)
    && tbl[me].status != Free
    && (forall j :: 0 <= j < NENV && j != c && j != me ==> tbl[j] == E0[j])
    && tbl[c] == E0[c].(pgdir := tbl[c].pgdir)
    && tbl[me] == E0[me].(pgdir := AddrSpace(E0[me].pgdir.tables, tbl[me].pgdir.ptes))
    && Copied(E0[me].pgdir.ptes, E0[c].pgdir.ptes, tbl[c].pgdir.ptes, hi, shareBelow)
    && Marked(E0[me].pgdir.ptes, tbl[me].pgdir.ptes, hi, shareBelow)
  }

  /** On the two maps: copying parent page `hi` extends the copy by one page. */
  lemma CopiedStep(P0: map<nat, Pte>, C0: map<nat, Pte>, C: map<nat, Pte>, P: map<nat, Pte>, hi: nat, shareBelow: nat)
    requires Copied(P0, C0, C, hi, shareBelow) && Marked(P0, P, hi, shareBelow) && hi in P
    ensures var share := hi < shareBelow;
      Copied(P0, C0, C[hi := CopyPte(P[hi], share)], hi + 1, shareBelow)
    ensures var share := hi < shareBelow;
      Marked(P0, if share then P else P[hi := CopyPte(P[hi], share)], hi + 1, shareBelow)
  {
    assert P[hi] == P0[hi];
  }

  /**
   * CopyInv carries over to a table `t` that differs from `tbl` only in the
   * entries of the two address spaces, once those satisfy Copied and Marked.
   */
  lemma Reframe(tbl: seq<Env>, t: seq<Env>, me: nat, cid: int, c: nat, E0: seq<Env>, hi: nat, hi': nat,
                shareBelow: nat)
    requires CopyInv(tbl, me, cid, c, E0, hi, shareBelow) && |t| == NENV
    requires forall j :: 0 <= j < NENV && j != c && j != me ==> t[j] == tbl[j]
    requires t[c] == tbl[c].(pgdir := t[c].pgdir)
    requires t[me] == tbl[me].(pgdir := AddrSpace(tbl[me].pgdir.tables, t[me].pgdir.ptes))
    requires Copied(E0[me].pgdir.ptes, E0[c].pgdir.ptes, t[c].pgdir.ptes, hi', shareBelow)
    requires Marked(E0[me].pgdir.ptes, t[me].pgdir.ptes, hi', shareBelow)
    ensures CopyInv(t, me, cid, c, E0, hi', shareBelow)
  {
    assert Resolve(t, me, cid, true) == Ok(c);
  }

  /** Copying page `hi` (or finding it unmapped) extends the copy by one page. */
  lemma CopyStep(tbl: seq<Env>, me: nat, cid: int, c: nat, E0: seq<Env>, hi: nat, shareBelow: nat)
    requires CopyInv(tbl, me, cid, c, E0, hi, shareBelow) && Wf(tbl[me].pgdir)
    ensures hi in tbl[me].pgdir.ptes ==>
      CopyInv(CopyEffect(tbl, me, c, hi, hi < shareBelow), me, cid, c, E0, hi + 1, shareBelow)
    ensures hi !in tbl[me].pgdir.ptes ==> CopyInv(tbl, me, cid, c, E0, hi + 1, shareBelow)
  {
    if hi !in tbl[me].pgdir.ptes {
      CopySkip(tbl, me, cid, c, E0, hi, hi + 1, shareBelow);
    } else if hi < shareBelow {
      SharedStep(tbl, me, cid, c, E0, hi, shareBelow);
    } else {
      CowStep(tbl, me, cid, c, E0, hi, shareBelow);
    }
  }

  /** CopyStep for a shared page: only the child's entries change. */
  lemma SharedStep(tbl: seq<Env>, me: nat, cid: int, c: nat, E0: seq<Env>, hi: nat, shareBelow: nat)
    requires CopyInv(tbl, me, cid, c, E0, hi, shareBelow) && Wf(tbl[me].pgdir)
    requires hi in tbl[me].pgdir.ptes && hi < shareBelow
    ensures CopyInv(CopyEffect(tbl, me, c, hi, true), me, cid, c, E0, hi + 1, shareBelow)
  {
    var P, C := tbl[me].pgdir.ptes, tbl[c].pgdir.ptes;
    CopiedStep(E0[me].pgdir.ptes, E0[c].pgdir.ptes, C, P, hi, shareBelow);
    var t := CopyEffect(tbl, me, c, hi, true);
    assert t[c].pgdir.ptes == C[hi := CopyPte(P[hi], true)];
    assert t[me] == tbl[me];
    Reframe(tbl, t, me, cid, c, E0, hi, hi + 1, shareBelow);
  }

  /** CopyStep for a page copied on write: both address spaces get the new entry. */
  lemma CowStep(tbl: seq<Env>, me: nat, cid: int, c: nat, E0: seq<Env>, hi: nat, shareBelow: nat)
    requires CopyInv(tbl, me, cid, c, E0, hi, shareBelow) && Wf(tbl[me].pgdir)
    requires hi in tbl[me].pgdir.ptes && shareBelow <= hi
    ensures CopyInv(CopyEffect(tbl, me, c, hi, false), me, cid, c, E0, hi + 1, shareBelow)
  {
    var P, C := tbl[me].pgdir.ptes, tbl[c].pgdir.ptes;
    CopiedStep(E0[me].pgdir.ptes, E0[c].pgdir.ptes, C, P, hi, shareBelow);
    var t := CopyEffect(tbl, me, c, hi, false);
    assert TableOf(hi) in tbl[me].pgdir.tables;
    assert t[c].pgdir.ptes == C[hi := CopyPte(P[hi], false)];
    assert t[me].pgdir == AddrSpace(tbl[me].pgdir.tables, P[hi := CopyPte(P[hi], false)]);
    Reframe(tbl, t, me, cid, c, E0, hi, hi + 1, shareBelow);
  }

  /** Pages no parent entry lies in are copied by doing nothing. */
  lemma CopySkip(tbl: seq<Env>, me: nat, cid: int, c: nat, E0: seq<Env>, lo: nat, hi: nat, shareBelow: nat)
    requires CopyInv(tbl, me, cid, c, E0, lo, shareBelow) && lo <= hi
    requires forall pn :: lo <= pn < hi ==> pn !in E0[me].pgdir.ptes
    ensures CopyInv(tbl, me, cid, c, E0, hi, shareBelow)
  {
  }

  /**
   * The page table copying page `pn` of parent entries `P0` adds to a child
   * that has the page tables `T0` plus `added`: the page's own table when
   * the page is mapped and the child has no such table yet.
   */
  function TableAdded(P0: map<nat, Pte>, T0: set<nat>, added: set<nat>, pn: nat): set<nat>
  {
    if pn in P0 && TableOf(pn) !in T0 + added then {TableOf(pn)} else {}
  }

  /**
   * The page tables the copy of parent entries `P0` below `hi` adds to a
   * child that started with the page tables `T0`.  page_insert takes one
   * frame for each.
   */
  ghost function NewTables(P0: map<nat, Pte>, T0: set<nat>, hi: nat): set<nat>
  {
    if hi == 0 then {}
    else
      var before := NewTables(P0, T0, hi - 1);
      before + TableAdded(P0, T0, before, hi - 1)
  }

  /**
   * `NT[h]` is NewTables(P0, T0, h) for every `h` below |NT|.  The copy
   * loops carry this table; the lemmas below give what they need of it.
   */
  ghost predicate Tabulates(NT: seq<set<nat>>, P0: map<nat, Pte>, T0: set<nat>)
  {
    forall h {:trigger NewTables(P0, T0, h)} :: 0 <= h < |NT| ==> NT[h] == NewTables(P0, T0, h)
  }

  /** One page further, the copy adds the page's table when TableAdded says so, and nothing else. */
  lemma TabulatedStep(NT: seq<set<nat>>, P0: map<nat, Pte>, T0: set<nat>, pn: nat)
    requires Tabulates(NT, P0, T0) && pn + 1 < |NT|
    ensures NT[pn + 1] == NT[pn] + TableAdded(P0, T0, NT[pn], pn)
  {
    assert NT[pn] == NewTables(P0, T0, pn);
    assert NT[pn + 1] == NewTables(P0, T0, pn + 1);
  }

  /** The pages between `lo` and `hi` add no page table when the parent maps none of them. */
  lemma {:induction false} NewTablesSkip(P0: map<nat, Pte>, T0: set<nat>, lo: nat, hi: nat)
    requires lo <= hi && forall pn :: lo <= pn < hi ==> pn !in P0
    ensures NewTables(P0, T0, hi) == NewTables(P0, T0, lo)
    decreases hi - lo
  {
    if lo < hi {
      NewTablesSkip(P0, T0, lo, hi - 1);
    }
  }

  /** Copying further never needs fewer page tables. */
  lemma {:induction false} NewTablesGrow(P0: map<nat, Pte>, T0: set<nat>, lo: nat, hi: nat)
    requires lo <= hi
    ensures NewTables(P0, T0, lo) <= NewTables(P0, T0, hi)
    ensures |NewTables(P0, T0, lo)| <= |NewTables(P0, T0, hi)|
    decreases hi - lo
  {
    if lo < hi {
      NewTablesGrow(P0, T0, lo, hi - 1);
      var a, b := NewTables(P0, T0, lo), NewTables(P0, T0, hi);
      assert b == a + (b - a);
    }
  }

  /** A table of NewTables(P0, T0, h) for every `h` below `n`. */
  lemma TabulateNewTables(P0: map<nat, Pte>, T0: set<nat>, n: nat) returns (NT: seq<set<nat>>)
    ensures |NT| == n && Tabulates(NT, P0, T0)
  {
    NT := seq(n, h requires 0 <= h => NewTables(P0, T0, h));
  }

  /** NewTablesGrow, read off a table `NT`: a longer copy never needs fewer page tables. */
  lemma TabulatedGrow(NT: seq<set<nat>>, P0: map<nat, Pte>, T0: set<nat>, lo: nat, hi: nat)
    requires Tabulates(NT, P0, T0) && lo <= hi < |NT|
    ensures |NT[lo]| <= |NT[hi]|
  {
    assert NT[lo] == NewTables(P0, T0, lo) && NT[hi] == NewTables(P0, T0, hi);
    NewTablesGrow(P0, T0, lo, hi);
  }

  /** NewTablesSkip, read off a table `NT`: pages curenv does not map add no page table. */
  lemma TabulatedSkip(NT: seq<set<nat>>, P0: map<nat, Pte>, T0: set<nat>, lo: nat, hi: nat)
    requires Tabulates(NT, P0, T0) && lo <= hi < |NT|
    requires forall pn :: lo <= pn < hi ==> pn !in P0
    ensures NT[hi] == NT[lo]
  {
    assert NT[lo] == NewTables(P0, T0, lo) && NT[hi] == NewTables(P0, T0, hi);
    NewTablesSkip(P0, T0, lo, hi);
  }

  /**
   * The frame accounting of a copy that has added the page tables `added`
   * to a child that started with `T0`, from the frame list `F0` of which
   * the first `base` frames were already gone: the child has exactly those
   * tables, and one further frame per added table has left the list.
   */
  ghost predicate FramesInv(tbl: seq<Env>, c: nat, T0: set<nat>, added: set<nat>, free: seq<Frame>,
                            F0: seq<Frame>, base: nat)
    requires |tbl| == NENV && c < NENV
  {
    && tbl[c].pgdir.tables == T0 + added
    && base + |added| <= |F0| && free == F0[base + |added|..]
  }

  /**
   * The frames of one page step, from `before` to `after` added tables: an
   * unmapped page takes none; a mapped page fails exactly when the copy
   * would need more page tables than `F0` has frames, and otherwise takes
   * a frame exactly when its page table is new to the child.
   */
  lemma FramesStep(tbl: seq<Env>, me: nat, cid: int, c: nat, E0: seq<Env>, pn: nat, shareBelow: nat,
                   before: set<nat>, after: set<nat>, free: seq<Frame>, F0: seq<Frame>, base: nat)
    requires CopyInv(tbl, me, cid, c, E0, pn, shareBelow) && pn < UTOP / PGSIZE
    requires FramesInv(tbl, c, E0[c].pgdir.tables, before, free, F0, base)
    requires after == before + TableAdded(E0[me].pgdir.ptes, E0[c].pgdir.tables, before, pn)
    ensures pn !in tbl[me].pgdir.ptes ==>
      base + |after| <= |F0| && FramesInv(tbl, c, E0[c].pgdir.tables, after, free, F0, base)
    ensures pn in tbl[me].pgdir.ptes ==> (CopyFails(tbl, me, free, cid, pn) <==> base + |after| > |F0|)
    ensures pn in tbl[me].pgdir.ptes && !CopyFails(tbl, me, free, cid, pn) ==>
      FramesInv(CopyEffect(tbl, me, c, pn, pn < shareBelow), c, E0[c].pgdir.tables, after,
                if TableOf(pn) in tbl[c].pgdir.tables then free else free[1..], F0, base)
  {
    PageVaSpec(pn);
    assert pn in tbl[me].pgdir.ptes <==> pn in E0[me].pgdir.ptes;
    if pn in E0[me].pgdir.ptes {
      FramesAdd(tbl[c].pgdir.tables, E0[c].pgdir.tables, before, after, TableOf(pn), free, F0, base);
      var t := CopyEffect(tbl, me, c, pn, pn < shareBelow);
      assert t[c].pgdir.tables == tbl[c].pgdir.tables + {TableOf(pn)};
    }
  }

  /**
   * The set and frame-list side of a step that needs page table `x`: it
   * fails exactly when `x` is new and the frames have run out, which is
   * exactly when more tables are needed than there are frames; otherwise
   * the child holds `x` as well, and a frame has gone exactly when `x` was
   * new.
   */
  lemma FramesAdd(tables: set<nat>, T0: set<nat>, before: set<nat>, after: set<nat>, x: nat,
                  free: seq<Frame>, F0: seq<Frame>, base: nat)
    requires tables == T0 + before
    requires base + |before| <= |F0| && free == F0[base + |before|..]
    requires after == before + (if x !in T0 + before then {x} else {})
    ensures (x !in tables && free == []) <==> base + |after| > |F0|
    ensures !(x !in tables && free == []) ==>
      && tables + {x} == T0 + after
      && base + |after| <= |F0|
      && (if x in tables then free else free[1..]) == F0[base + |after|..]
  {
    assert x in tables <==> x in T0 + before;
    if x in T0 + before {
      assert after == before;
    } else {
      assert after == before + {x};
      assert |after| == |before| + 1;
    }
  }

  /**
   * What thisenv names while curenv copies its pages: curenv itself;
   * nothing curenv may copy from (an id that does not resolve, or the new
   * child, which has no page to give); or some other child of curenv.
   */
  datatype ThisenvMode = NamesCur | NamesNone | NamesOther

  /**
   * `mode` describes thisenv (slot `thisenv`) in table `E0`, from which
   * curenv `me` copies its pages below `limit` into its child `c`.
   */
  ghost predicate ModeOf(E0: seq<Env>, me: nat, thisenv: nat, c: nat, limit: nat, mode: ThisenvMode)
    requires |E0| == NENV && me < NENV && thisenv < NENV && c < NENV
  {
    var s := ThisenvResolves(E0, me, thisenv);
    match mode
    case NamesCur => s == Ok(me)
    case NamesNone => s.Err? || (s == Ok(c) && forall q :: q < limit ==> q !in E0[c].pgdir.ptes)
    case NamesOther => true
  }

  /** A mode that holds for a copy up to `hi` holds for a shorter one. */
  lemma ModeBelow(E0: seq<Env>, me: nat, thisenv: nat, c: nat, lo: nat, hi: nat, mode: ThisenvMode)
    requires |E0| == NENV && me < NENV && thisenv < NENV && c < NENV && lo <= hi
    requires ModeOf(E0, me, thisenv, c, hi, mode)
    ensures ModeOf(E0, me, thisenv, c, lo, mode)
  {
  }

  /** Curenv maps no page below `hi`. */
  ghost predicate NoPageBelow(P0: map<nat, Pte>, hi: nat)
  {
    forall q :: q < hi ==> q !in P0
  }

  /**
   * How far a copy of curenv's pages below `hi` into child `c` has got, as
   * far as thisenv (described by `mode`) lets it be followed: naming
   * curenv or nothing to copy from, CopyInv holds and the child's page
   * tables have taken their frames from `F0` past its first `base`
   * (naming nothing, curenv also maps no page below `hi`); naming another
   * child, no id, status or parent has changed.
   */
  ghost predicate CopyAt(tbl: seq<Env>, free: seq<Frame>, me: nat, cid: int, c: nat, E0: seq<Env>,
                         NT: seq<set<nat>>, F0: seq<Frame>, base: nat, hi: nat, shareBelow: nat, mode: ThisenvMode)
    requires |E0| == NENV && me < NENV && c < NENV
  {
    match mode
    case NamesOther => SpacesOnly(E0, tbl) && E0[me].status != Free
    case _ =>
      && CopyInv(tbl, me, cid, c, E0, hi, shareBelow) && hi < |NT|
      && FramesInv(tbl, c, E0[c].pgdir.tables, NT[hi], free, F0, base)
      && (mode == NamesNone ==> NoPageBelow(E0[me].pgdir.ptes, hi))
  }

  /** A page curenv does not map extends a range of pages it does not map. */
  lemma NoPageStep(P0: map<nat, Pte>, hi: nat)
    requires NoPageBelow(P0, hi) && hi !in P0
    ensures NoPageBelow(P0, hi + 1)
  {
  }

  /** During a copy only the two address spaces change. */
  lemma CopyInvSpaces(tbl: seq<Env>, me: nat, cid: int, c: nat, E0: seq<Env>, hi: nat, shareBelow: nat)
    requires CopyInv(tbl, me, cid, c, E0, hi, shareBelow)
    ensures SpacesOnly(E0, tbl)
  {
    assert forall j :: 0 <= j < NENV ==> Unmapped(tbl)[j] == Unmapped(E0)[j];
  }

  /**
   * Page `pn` of the copy as thisenv sees it: naming curenv it names it in
   * the current table too; naming nothing to copy from, it still names
   * nothing that has page `pn` while curenv has mapped no earlier page.
   */
  lemma ThisenvAt(tbl: seq<Env>, me: nat, cid: int, c: nat, E0: seq<Env>, pn: nat, shareBelow: nat, thisenv: nat,
                  mode: ThisenvMode)
    requires CopyInv(tbl, me, cid, c, E0, pn, shareBelow) && thisenv < NENV
    requires ModeOf(E0, me, thisenv, c, pn + 1, mode)
    requires mode == NamesNone ==> NoPageBelow(E0[me].pgdir.ptes, pn)
    ensures mode == NamesCur ==> ThisenvIsCur(tbl, me, thisenv)
    ensures mode == NamesNone ==> ThisenvLacks(tbl, me, thisenv, pn)
  {
    CopyInvSpaces(tbl, me, cid, c, E0, pn, shareBelow);
    SpacesOnlyAt(E0, tbl, thisenv);
    SpacesOnlyResolve(E0, tbl, me, E0[thisenv].id);
  }

  /**
   * One page of the copy: duppage_share for a page below `shareBelow`,
   * duppage otherwise, thisenv being as `mode` says.  With `NT` tabulating
   * the page tables the copy adds, and thisenv naming curenv, it panics
   * exactly when the copy up to this page needs more of them than the
   * frames left of `F0` past its first `base`; with thisenv naming nothing
   * to copy from, exactly when curenv maps the page.  Either panic changes
   * nothing.  With thisenv naming another child, only address spaces
   * change.
   */
  method CopyPage(k: Kernel, thisenv: nat, cid: int, pn: nat, shareBelow: nat, ghost me: nat, ghost c: nat,
                  ghost E0: seq<Env>, ghost NT: seq<set<nat>>, ghost F0: seq<Frame>, ghost base: nat,
                  ghost mode: ThisenvMode)
    returns (panicked: bool)
    requires k.Valid() && k.cur == Some(me) && pn < UTOP / PGSIZE
    requires |E0| == NENV && me < NENV && c < NENV && thisenv < NENV && ModeOf(E0, me, thisenv, c, pn + 1, mode)
    requires mode != NamesOther ==> Tabulates(NT, E0[me].pgdir.ptes, E0[c].pgdir.tables) && pn + 1 < |NT|
    requires CopyAt(k.envs[..], k.pageFreeList, me, cid, c, E0, NT, F0, base, pn, shareBelow, mode)
    modifies k, k.envs
    ensures k.Valid() && k.envs == old(k.envs) && k.cur == old(k.cur)
    ensures k.envFreeList == old(k.envFreeList) && k.mem == old(k.mem)
    ensures mode != NamesOther ==>
      (panicked <==> if mode == NamesCur then base + |NT[pn + 1]| > |F0| else pn in E0[me].pgdir.ptes)
    ensures !panicked || mode == NamesOther ==>
      CopyAt(k.envs[..], k.pageFreeList, me, cid, c, E0, NT, F0, base, pn + 1, shareBelow, mode)
    ensures mode != NamesOther && panicked ==> k.State() == old(k.State())
    ensures mode == NamesCur && panicked ==> k.pageFreeList == []
  {
    PageVaSpec(pn);
    ghost var t0 := k.envs[..];
    if mode != NamesOther {
      CopyStep(t0, me, cid, c, E0, pn, shareBelow);
      TabulatedStep(NT, E0[me].pgdir.ptes, E0[c].pgdir.tables, pn);
      FramesStep(t0, me, cid, c, E0, pn, shareBelow, NT[pn], NT[pn + 1], k.pageFreeList, F0, base);
      ThisenvAt(t0, me, cid, c, E0, pn, shareBelow, thisenv, mode);
    }
    if mode == NamesOther {
      SpacesOnlyAt(E0, t0, me);
    }
    if pn < shareBelow {
      panicked := DuppageShare(k, thisenv, cid, pn);
    } else {
      panicked := Duppage(k, thisenv, cid, pn);
    }
    if mode == NamesNone && !panicked {
      NoPageStep(E0[me].pgdir.ptes, pn);
    }
  }

  /** How far the copy has got after `i` page tables, for a copy that stops at address `limitVa`. */
  function HiOf(i: nat, limitVa: nat): nat
  {
    if i * NPTENTRIES < limitVa / PGSIZE then i * NPTENTRIES else limitVa / PGSIZE
  }

  /** The copy never runs past its limit. */
  lemma HiOfBelow(i: nat, limitVa: nat)
    ensures HiOf(i, limitVa) <= limitVa / PGSIZE
  {
  }

  /** Once the page tables reach UTOP, the copy has reached any limit below it. */
  lemma HiOfEnd(i: nat, limitVa: nat)
    requires limitVa <= UTOP && (i * PTSIZE >= UTOP || i >= NPDENTRIES)
    ensures HiOf(i, limitVa) == limitVa / PGSIZE
  {
  }

  /** A page table curenv does not have holds no page to copy. */
  lemma SkipAbsentTable(tbl: seq<Env>, me: nat, cid: int, c: nat, E0: seq<Env>, i: nat, limitVa: nat, shareBelow: nat)
    requires CopyInv(tbl, me, cid, c, E0, HiOf(i, limitVa), shareBelow) && Wf(tbl[me].pgdir)
    requires i !in tbl[me].pgdir.tables
    ensures CopyInv(tbl, me, cid, c, E0, HiOf(i + 1, limitVa), shareBelow)
    ensures HiOf(i, limitVa) <= HiOf(i + 1, limitVa)
    ensures forall pn :: HiOf(i, limitVa) <= pn < HiOf(i + 1, limitVa) ==> pn !in E0[me].pgdir.ptes
  {
    forall pn | HiOf(i, limitVa) <= pn < HiOf(i + 1, limitVa)
      ensures pn !in E0[me].pgdir.ptes
    {
      assert TableOf(pn) == i;
      assert pn !in tbl[me].pgdir.ptes;
    }
    CopySkip(tbl, me, cid, c, E0, HiOf(i, limitVa), HiOf(i + 1, limitVa), shareBelow);
  }

  /** The address of entry `j` of page table `i` reaches `limitVa` exactly when its page number reaches the limit's. */
  lemma EntryAddress(i: nat, j: nat, limitVa: nat)
    requires limitVa % PGSIZE == 0
    ensures i * PTSIZE + j * PGSIZE == (i * NPTENTRIES + j) * PGSIZE
    ensures i * PTSIZE + j * PGSIZE >= limitVa <==> i * NPTENTRIES + j >= limitVa / PGSIZE
  {
  }

  /**
   * The body of the outer loop of fork and sfork for page table `i`:
   * nothing when curenv has no such page table, otherwise duppage (or
   * duppage_share) of each page of the table, stopping at `limitVa`.  With
   * thisenv naming curenv it panics exactly when the copy up to the end of
   * the table needs more new page tables in the child (as tabulated in
   * `NT`) than the frames left of `F0` past its first `base`; with thisenv
   * naming nothing to copy from, exactly when curenv maps a page up to the
   * end of the table.
   */
  method CopyTable(k: Kernel, thisenv: nat, cid: int, i: nat, limitVa: nat, shareBelow: nat, ghost me: nat,
                   ghost c: nat, ghost E0: seq<Env>, ghost NT: seq<set<nat>>, ghost F0: seq<Frame>, ghost base: nat,
                   ghost mode: ThisenvMode)
    returns (panicked: bool)
    requires k.Valid() && k.cur == Some(me) && i < NPDENTRIES && limitVa % PGSIZE == 0 && limitVa <= UTOP
    requires |E0| == NENV && me < NENV && c < NENV && thisenv < NENV
    requires ModeOf(E0, me, thisenv, c, limitVa / PGSIZE, mode)
    requires mode != NamesOther ==> Tabulates(NT, E0[me].pgdir.ptes, E0[c].pgdir.tables) && limitVa / PGSIZE < |NT|
    requires CopyAt(k.envs[..], k.pageFreeList, me, cid, c, E0, NT, F0, base, HiOf(i, limitVa), shareBelow, mode)
    modifies k, k.envs
    ensures k.Valid() && k.envs == old(k.envs) && k.cur == old(k.cur)
    ensures k.envFreeList == old(k.envFreeList) && k.mem == old(k.mem)
    ensures mode != NamesOther ==>
      (panicked <==> if mode == NamesCur then base + |NT[HiOf(i + 1, limitVa)]| > |F0|
                     else !NoPageBelow(E0[me].pgdir.ptes, HiOf(i + 1, limitVa)))
    ensures !panicked || mode == NamesOther ==>
      CopyAt(k.envs[..], k.pageFreeList, me, cid, c, E0, NT, F0, base, HiOf(i + 1, limitVa), shareBelow, mode)
    ensures mode == NamesCur && panicked ==> k.pageFreeList == [] && base + |NT[limitVa / PGSIZE]| > |F0|
    ensures mode == NamesNone && panicked ==> !NoPageBelow(E0[me].pgdir.ptes, limitVa / PGSIZE)
  {
    if i !in k.envs[k.cur.value].pgdir.tables {
      if mode != NamesOther {
        SkipAbsentTable(k.envs[..], me, cid, c, E0, i, limitVa, shareBelow);
        TabulatedSkip(NT, E0[me].pgdir.ptes, E0[c].pgdir.tables, HiOf(i, limitVa), HiOf(i + 1, limitVa));
      }
      return false;
    }
    panicked := CopyEntries(k, thisenv, cid, i, limitVa, shareBelow, me, c, E0, NT, F0, base, mode);
    if panicked && mode != NamesOther {
      HiOfBelow(i + 1, limitVa);
      if mode == NamesCur {
        TabulatedGrow(NT, E0[me].pgdir.ptes, E0[c].pgdir.tables, HiOf(i + 1, limitVa), limitVa / PGSIZE);
      }
    }
  }

  /**
   * The inner loop of fork and sfork over the entries of a page table `i`
   * that curenv has: duppage (or duppage_share) of each of its pages below
   * `limitVa`, panicking as CopyTable says.
   */
  method CopyEntries(k: Kernel, thisenv: nat, cid: int, i: nat, limitVa: nat, shareBelow: nat, ghost me: nat,
                     ghost c: nat, ghost E0: seq<Env>, ghost NT: seq<set<nat>>, ghost F0: seq<Frame>, ghost base: nat,
                     ghost mode: ThisenvMode)
    returns (panicked: bool)
    requires k.Valid() && k.cur == Some(me) && i < NPDENTRIES && limitVa % PGSIZE == 0 && limitVa <= UTOP
    requires |E0| == NENV && me < NENV && c < NENV && thisenv < NENV
    requires ModeOf(E0, me, thisenv, c, limitVa / PGSIZE, mode)
    requires mode != NamesOther ==> Tabulates(NT, E0[me].pgdir.ptes, E0[c].pgdir.tables) && limitVa / PGSIZE < |NT|
    requires CopyAt(k.envs[..], k.pageFreeList, me, cid, c, E0, NT, F0, base, HiOf(i, limitVa), shareBelow, mode)
    modifies k, k.envs
    ensures k.Valid() && k.envs == old(k.envs) && k.cur == old(k.cur)
    ensures k.envFreeList == old(k.envFreeList) && k.mem == old(k.mem)
    ensures mode != NamesOther ==>
      (panicked <==> if mode == NamesCur then base + |NT[HiOf(i + 1, limitVa)]| > |F0|
                     else !NoPageBelow(E0[me].pgdir.ptes, HiOf(i + 1, limitVa)))
    ensures !panicked || mode == NamesOther ==>
      CopyAt(k.envs[..], k.pageFreeList, me, cid, c, E0, NT, F0, base, HiOf(i + 1, limitVa), shareBelow, mode)
    ensures mode == NamesCur && panicked ==> k.pageFreeList == []
  {
    var j := 0;
    while j < NPTENTRIES
      invariant j <= NPTENTRIES
      invariant k.Valid() && k.envs == old(k.envs) && k.cur == Some(me)
      invariant k.envFreeList == old(k.envFreeList) && k.mem == old(k.mem)
      invariant CopyAt(k.envs[..], k.pageFreeList, me, cid, c, E0, NT, F0, base, HiAt(i, j, limitVa), shareBelow, mode)
    {
      EntryAddress(i, j, limitVa);
      if i * PTSIZE + j * PGSIZE >= limitVa {
        HiAtEnd(i, j, limitVa);
        break;
      }
      var pn := i * NPTENTRIES + j;
      HiAtStep(i, j, limitVa);
      ModeBelow(E0, me, thisenv, c, pn + 1, limitVa / PGSIZE, mode);
      panicked := CopyPage(k, thisenv, cid, pn, shareBelow, me, c, E0, NT, F0, base, mode);
      HiAtEnd(i, NPTENTRIES, limitVa);
      if panicked {
        if mode == NamesCur {
          TabulatedGrow(NT, E0[me].pgdir.ptes, E0[c].pgdir.tables, pn + 1, HiOf(i + 1, limitVa));
        } else if mode == NamesNone {
          assert pn in E0[me].pgdir.ptes && pn < HiOf(i + 1, limitVa);
        }
        return;
      }
      j := j + 1;
    }
    HiAtEnd(i, j, limitVa);
    panicked := false;
  }

  /** How far the copy has got after entry `j` of page table `i`, for a copy that stops at `limitVa`. */
  function HiAt(i: nat, j: nat, limitVa: nat): nat
  {
    if i * NPTENTRIES + j < limitVa / PGSIZE then i * NPTENTRIES + j else limitVa / PGSIZE
  }

  /** Below the limit, entry `j` of page table `i` is the next page to copy. */
  lemma HiAtStep(i: nat, j: nat, limitVa: nat)
    requires i * NPTENTRIES + j < limitVa / PGSIZE
    ensures HiAt(i, j, limitVa) == i * NPTENTRIES + j && HiAt(i, j + 1, limitVa) == i * NPTENTRIES + j + 1
  {
  }

  /** At the limit, or past the last entry, the copy has done page table `i`. */
  lemma HiAtEnd(i: nat, j: nat, limitVa: nat)
    requires i * NPTENTRIES + j >= limitVa / PGSIZE || j == NPTENTRIES
    requires j <= NPTENTRIES
    ensures HiAt(i, j, limitVa) == HiOf(i + 1, limitVa)
  {
  }

  /**
   * The outer loop of fork and sfork: every page table below UTOP that
   * curenv has, up to `limitVa`.  With `NT` tabulating the page tables the
   * copy adds to the child, the frame list being `F0` less its first
   * `base` frames, and thisenv naming curenv, it panics exactly when the
   * copy below `limitVa` adds more of them than there are frames; with
   * thisenv naming nothing to copy from, exactly when curenv maps a page
   * below `limitVa`.  Otherwise every parent page below `limitVa` has been
   * copied and one frame has gone to each page table the child gained.
   */
  method CopyAll(k: Kernel, thisenv: nat, cid: int, limitVa: nat, shareBelow: nat, ghost me: nat, ghost c: nat,
                 ghost E0: seq<Env>, ghost NT: seq<set<nat>>, ghost F0: seq<Frame>, ghost base: nat,
                 ghost mode: ThisenvMode)
    returns (panicked: bool)
    requires k.Valid() && k.cur == Some(me) && limitVa % PGSIZE == 0 && limitVa <= UTOP
    requires thisenv < NENV && CopyInv(k.envs[..], me, cid, c, E0, 0, shareBelow)
    requires ModeOf(E0, me, thisenv, c, limitVa / PGSIZE, mode)
    requires k.envs[c].pgdir.tables == E0[c].pgdir.tables
    requires Tabulates(NT, E0[me].pgdir.ptes, E0[c].pgdir.tables) && limitVa / PGSIZE < |NT|
    requires base <= |F0| && k.pageFreeList == F0[base..]
    modifies k, k.envs
    ensures k.Valid() && k.envs == old(k.envs) && k.cur == old(k.cur)
    ensures k.envFreeList == old(k.envFreeList) && k.mem == old(k.mem)
    ensures mode != NamesOther ==>
      (panicked <==> if mode == NamesCur then base + |NT[limitVa / PGSIZE]| > |F0|
                     else !NoPageBelow(E0[me].pgdir.ptes, limitVa / PGSIZE))
    ensures !panicked || mode == NamesOther ==>
      CopyAt(k.envs[..], k.pageFreeList, me, cid, c, E0, NT, F0, base, limitVa / PGSIZE, shareBelow, mode)
    ensures mode == NamesCur && panicked ==> k.pageFreeList == []
  {
    assert NT[0] == {} by {
      assert NT[0] == NewTables(E0[me].pgdir.ptes, E0[c].pgdir.tables, 0);
    }
    CopyInvSpaces(k.envs[..], me, cid, c, E0, 0, shareBelow);
    assert E0[me].status != Free;
    var i := 0;
    while i < NPDENTRIES
      invariant i <= NPDENTRIES
      invariant k.Valid() && k.envs == old(k.envs) && k.cur == Some(me)
      invariant k.envFreeList == old(k.envFreeList) && k.mem == old(k.mem)
      invariant CopyAt(k.envs[..], k.pageFreeList, me, cid, c, E0, NT, F0, base, HiOf(i, limitVa), shareBelow, mode)
    {
      if i * PTSIZE >= UTOP {
        HiOfEnd(i, limitVa);
        break;
      }
      panicked := CopyTable(k, thisenv, cid, i, limitVa, shareBelow, me, c, E0, NT, F0, base, mode);
      if panicked {
        return;
      }
      i := i + 1;
    }
    HiOfEnd(i, limitVa);
    panicked := false;
  }

  /**
   * A copy-on-write copy leaves parent and child mapping every copied page
   * to the parent's frame with the same entry, and a page either of them
   * could write, or that was copy-on-write, is now read-only and
   * copy-on-write in both.
   */
  lemma CowCopyShares(P0: map<nat, Pte>, C0: map<nat, Pte>, C: map<nat, Pte>, P: map<nat, Pte>, hi: nat)
    requires Copied(P0, C0, C, hi, 0) && Marked(P0, P, hi, 0)
    ensures forall pn :: pn in P0 && pn < hi ==>
      && pn in C && pn in P && C[pn] == P[pn] && C[pn].frame == P0[pn].frame
      && C[pn].perm & PTE_W == 0
      && (C[pn].perm & PTE_COW != 0 <==> P0[pn].perm & (PTE_W | PTE_COW) != 0)
  {
    forall pn | pn in P0 && pn < hi
      ensures C[pn].perm & PTE_W == 0
      ensures C[pn].perm & PTE_COW != 0 <==> P0[pn].perm & (PTE_W | PTE_COW) != 0
    {
      DupPermSpec(P0[pn].perm);
    }
  }

  /**
   * A shared copy leaves the child mapping every copied page to the
   * parent's frame, writable exactly when the parent's mapping is, and the
   * parent's entries as they were.
   */
  lemma ShareCopyShares(P0: map<nat, Pte>, C0: map<nat, Pte>, C: map<nat, Pte>, P: map<nat, Pte>, hi: nat)
    requires Copied(P0, C0, C, hi, hi) && Marked(P0, P, hi, hi)
    ensures P == P0
    ensures forall pn :: pn in P0 && pn < hi ==>
      && pn in C && C[pn].frame == P0[pn].frame
      && (C[pn].perm & PTE_W != 0 <==> P0[pn].perm & PTE_W != 0)
  {
    assert forall pn :: pn in P0 ==> P[pn] == P0[pn];
  }

  // ---------------------------------------------------------------------
  // fork and sfork
  // ---------------------------------------------------------------------

  datatype ForkOutcome = Forked(child: int) | ForkPanicked

  /** Where fork stops copying: the user exception stack gets a fresh page instead. */
  const FORK_LIMIT: nat := UXSTACKTOP - PGSIZE
  /** Where sfork stops sharing: the normal user stack is copied on write instead. */
  const SFORK_LIMIT: nat := USTACKTOP - PGSIZE

  /** The page after sfork's stack page is still below fork's limit. */
  lemma StackBelowLimit()
    ensures SFORK_LIMIT / PGSIZE + 1 <= Pn(FORK_LIMIT)
  {
  }

  /**
   * The slots after a fork from table `S0` to `T`, for curenv `me` and the
   * child `cid`: the child holds curenv's registers with eax = 0, the given
   * status and upcall, and a zeroed writable exception-stack page; curenv
   * differs at most in its page entries; no other slot changed.
   */
  ghost predicate ChildMade(S0: seq<Env>, T: seq<Env>, mem: map<Frame, PageData>, me: nat, cid: int,
                            upcall: Word, status: EnvStatus)
  {
    var c := Envx(cid); var ux := Pn(FORK_LIMIT);
    && |S0| == NENV && |T| == NENV && me < NENV && cid > 0 && c < NENV && c != me
    && T[c] == ExoforkChild(S0[me], cid).(status := status, pgfaultUpcall := upcall, pgdir := T[c].pgdir)
    && ux in T[c].pgdir.ptes && T[c].pgdir.ptes[ux].perm == PTE_W | PTE_U | PTE_P
    && FrameContents(mem, T[c].pgdir.ptes[ux].frame) == ZeroPage()
    && T[me] == S0[me].(pgdir := AddrSpace(S0[me].pgdir.tables, T[me].pgdir.ptes))
    && forall j :: 0 <= j < NENV && j != c && j != me ==> T[j] == S0[j]
  }

  /** Before the first page is copied, nothing has been copied. */
  lemma CopyStart(tbl: seq<Env>, me: nat, cid: int, c: nat, shareBelow: nat)
    requires |tbl| == NENV && me < NENV && c < NENV && me != c
    requires Resolve(tbl, me, cid, true) == Ok(c) && tbl[me].status != Free
    ensures CopyInv(tbl, me, cid, c, tbl, 0, shareBelow)
  {
  }

  /**
   * The part fork and sfork share: sys_exofork, a fresh exception-stack
   * page for the child, and the child's upcall.  The child starts from
   * curenv's registers with eax = 0, which is how the same sys_exofork
   * returns 0 in the child.  It panics exactly when a call fails: no free
   * slot, or fewer than three frames (the child's page directory, the
   * page table for its exception stack, and the stack page itself).  The
   * state is the one after set_pgfault_handler has installed curenv's own
   * handler, which happens before; sys_getenvid changes nothing.
   */
  method MakeChild(k: Kernel, upcall: Word) returns (o: ForkOutcome, ghost c: nat)
    requires k.Valid() && k.cur.Some? && k.envs[k.cur.value].status != Free
    modifies k, k.envs
    ensures k.Valid() && k.envs == old(k.envs) && k.cur == old(k.cur)
    ensures o == ForkPanicked <==> old(k.envFreeList) == [] || |old(k.pageFreeList)| < 3
    ensures o.Forked? ==>
      var me := old(k.cur.value);
      && c == Envx(o.child) && old(k.envFreeList) != [] && c == old(k.envFreeList[0])
      && k.envFreeList == old(k.envFreeList[1..]) && k.pageFreeList == old(k.pageFreeList[3..])
      && k.mem == old(k.mem)[old(k.pageFreeList[1]) := ZeroPage()]
      && ChildMade(old(k.envs[..]), k.envs[..], k.mem, me, o.child, upcall, NotRunnable)
      && k.envs[me] == old(k.envs[me]) && k.envs[c].pgdir.ptes.Keys == {Pn(FORK_LIMIT)}
      && k.envs[c].pgdir.tables == {TableOf(Pn(FORK_LIMIT))}
      && Resolve(k.envs[..], me, o.child, true) == Ok(c)
  {
    ghost var me := k.cur.value;
    o, c := ForkPanicked, 0;
    var cid := SysExofork(k);
    if cid >= 0 {
      c := Envx(cid);
      ExoforkChildIsManaged(k.envs[..], me, c, cid);
      var rp := SysPageAlloc(k, cid, FORK_LIMIT, PTE_W | PTE_U);
      if rp == 0 {
        var ru := SysEnvSetPgfaultUpcall(k, cid, upcall);
        assert ru == 0;
        o := Forked(cid);
      }
    }
  }

  /**
   * The frames the copy below `hi` of curenv's entries `P0` takes: one per
   * page table it adds to a child that has only its exception stack's.
   */
  ghost function CopyFrames(P0: map<nat, Pte>, hi: nat): nat
  {
    |NewTables(P0, {TableOf(Pn(FORK_LIMIT))}, hi)|
  }

  /** Copying more pages never takes fewer frames. */
  lemma CopyFramesGrow(P0: map<nat, Pte>, lo: nat, hi: nat)
    requires lo <= hi
    ensures CopyFrames(P0, lo) <= CopyFrames(P0, hi)
  {
    NewTablesGrow(P0, {TableOf(Pn(FORK_LIMIT))}, lo, hi);
  }

  /**
   * What thisenv (slot `thisenv`) will name for curenv `me` once fork's
   * sys_exofork has handed out slot `freeEnvs[0]` of table `S0`: curenv,
   * when its id names curenv and it is not that slot; nothing to copy
   * from, when its id does not resolve or it is that very slot (which
   * then holds the new child); otherwise another child of curenv.
   */
  function ModeAtFork(S0: seq<Env>, me: nat, thisenv: nat, freeEnvs: seq<nat>): ThisenvMode
    requires |S0| == NENV && me < NENV && thisenv < NENV
  {
    var taken := freeEnvs != [] && thisenv == freeEnvs[0];
    if !taken && ThisenvIsCur(S0, me, thisenv) then NamesCur
    else if taken || ThisenvResolves(S0, me, thisenv).Err? then NamesNone
    else NamesOther
  }

  /**
   * sys_exofork changes what thisenv names only when thisenv is the slot
   * it hands out: ModeAtFork, read before the call, describes the table
   * after it.
   */
  lemma ExoforkThisenv(S0: seq<Env>, E0: seq<Env>, mem: map<Frame, PageData>, me: nat, cid: int, thisenv: nat,
                       freeEnvs: seq<nat>, upcall: Word)
    requires TableInv(S0, Some(me), freeEnvs) && thisenv < NENV
    requires freeEnvs != [] && Envx(cid) == freeEnvs[0]
    requires ChildMade(S0, E0, mem, me, cid, upcall, NotRunnable) && E0[me] == S0[me]
    requires E0[Envx(cid)].pgdir.ptes.Keys == {Pn(FORK_LIMIT)} && Resolve(E0, me, cid, true) == Ok(Envx(cid))
    ensures ModeOf(E0, me, thisenv, Envx(cid), Pn(FORK_LIMIT), ModeAtFork(S0, me, thisenv, freeEnvs))
  {
    var c := Envx(cid);
    if thisenv != c {
      assert E0[thisenv] == S0[thisenv];
      var id := S0[thisenv].id;
      assert IdOk(S0[thisenv], thisenv);
      if id != 0 {
        assert E0[Envx(id)] == S0[Envx(id)];
      }
      assert Resolve(E0, me, id, true) == Resolve(S0, me, id, true);
    }
  }

  /**
   * MakeChild followed by the copy loop of fork (`shareBelow` 0) or sfork
   * (`shareBelow` its stack page) up to `limitVa`, thisenv being slot
   * `thisenv`.  `E0` is the table between the two, and `NT` tabulates the
   * page tables the copy adds to the child, one place past `limitVa`.
   * When thisenv names curenv the copy panics only when the frames run
   * out; when it names nothing to copy from, at curenv's first page.
   */
  method Spawn(k: Kernel, upcall: Word, limitVa: nat, shareBelow: nat, thisenv: nat)
    returns (o: ForkOutcome, ghost c: nat, ghost E0: seq<Env>, ghost NT: seq<set<nat>>)
    requires k.Valid() && k.cur.Some? && k.envs[k.cur.value].status != Free && thisenv < NENV
    requires limitVa % PGSIZE == 0 && limitVa <= FORK_LIMIT
    modifies k, k.envs
    ensures k.Valid() && k.envs == old(k.envs) && k.cur == old(k.cur)
    ensures var mode := ModeAtFork(old(k.envs[..]), old(k.cur.value), thisenv, old(k.envFreeList));
      var P0 := old(k.envs[k.cur.value].pgdir.ptes); var n := CopyFrames(P0, limitVa / PGSIZE);
      && (mode == NamesCur ==> (o == ForkPanicked <==> old(k.envFreeList) == [] || |old(k.pageFreeList)| < 3 + n))
      && (mode == NamesNone ==>
            (o == ForkPanicked <==> old(k.envFreeList) == [] || |old(k.pageFreeList)| < 3
                                    || !NoPageBelow(P0, limitVa / PGSIZE)))
      && (mode != NamesOther && o.Forked? ==>
            && old(k.envFreeList) != [] && 3 + n <= |old(k.pageFreeList)|
            && k.envFreeList == old(k.envFreeList[1..]) && k.pageFreeList == old(k.pageFreeList)[3 + n..])
    ensures o.Forked? ==> old(k.envFreeList) != [] && 3 <= |old(k.pageFreeList)|
    ensures o.Forked? ==> k.mem == old(k.mem)[old(k.pageFreeList[1]) := ZeroPage()]
    ensures o.Forked? ==>
      var me := old(k.cur.value); var mode := ModeAtFork(old(k.envs[..]), me, thisenv, old(k.envFreeList));
      && c == Envx(o.child) && old(k.envFreeList) != [] && c == old(k.envFreeList[0])
      && ChildMade(old(k.envs[..]), E0, k.mem, me, o.child, upcall, NotRunnable)
      && E0[me] == old(k.envs[me]) && E0[c].pgdir.ptes.Keys == {Pn(FORK_LIMIT)}
      && E0[c].pgdir.tables == {TableOf(Pn(FORK_LIMIT))}
      && Resolve(E0, me, o.child, true) == Ok(c) && SpacesOnly(E0, k.envs[..])
      && ModeOf(E0, me, thisenv, c, Pn(FORK_LIMIT), mode)
      && CopyAt(k.envs[..], k.pageFreeList, me, o.child, c, E0, NT, old(k.pageFreeList), 3, limitVa / PGSIZE,
                shareBelow, mode)
      && (mode != NamesOther ==>
            && Tabulates(NT, E0[me].pgdir.ptes, E0[c].pgdir.tables) && |NT| == limitVa / PGSIZE + 2
            && |NT[limitVa / PGSIZE + 1]| == CopyFrames(old(k.envs[k.cur.value].pgdir.ptes), limitVa / PGSIZE + 1))
  {
    ghost var me, F0, S0, freeEnvs := k.cur.value, k.pageFreeList, k.envs[..], k.envFreeList;
    ghost var mode := ModeAtFork(S0, me, thisenv, freeEnvs);
    var made;
    made, c := MakeChild(k, upcall);
    if made.ForkPanicked? {
      return ForkPanicked, c, k.envs[..], [];
    }
    var cid := made.child;
    E0 := k.envs[..];
    ExoforkThisenv(S0, E0, k.mem, me, cid, thisenv, freeEnvs, upcall);
    ModeBelow(E0, me, thisenv, c, limitVa / PGSIZE, Pn(FORK_LIMIT), mode);
    NT := TabulateNewTables(E0[me].pgdir.ptes, E0[c].pgdir.tables, limitVa / PGSIZE + 2);
    CopyStart(E0, me, cid, c, shareBelow);
    var panicked := CopyAll(k, thisenv, cid, limitVa, shareBelow, me, c, E0, NT, F0, 3, mode);
    if panicked {
      return ForkPanicked, c, E0, NT;
    }
    if mode != NamesOther {
      CopyInvSpaces(k.envs[..], me, cid, c, E0, limitVa / PGSIZE, shareBelow);
    }
    o := made;
  }

  /**
   * The result of fork and sfork: from the table `E0` MakeChild left,
   * copying every page below `hi` and making the child RUNNABLE (table
   * `T'`) gives the child a copy of curenv's pages below `hi` next to its
   * own exception-stack page.
   */
  lemma ForkDone(S0: seq<Env>, E0: seq<Env>, T: seq<Env>, T': seq<Env>, mem: map<Frame, PageData>, me: nat,
                 cid: int, upcall: Word, hi: nat, shareBelow: nat)
    requires ChildMade(S0, E0, mem, me, cid, upcall, NotRunnable)
    requires E0[me] == S0[me] && E0[Envx(cid)].pgdir.ptes.Keys == {Pn(FORK_LIMIT)}
    requires CopyInv(T, me, cid, Envx(cid), E0, hi, shareBelow) && hi <= Pn(FORK_LIMIT)
    requires T' == T[Envx(cid) := T[Envx(cid)].(status := Runnable)]
    ensures var c := Envx(cid); var ux := Pn(FORK_LIMIT);
      && ChildMade(S0, T', mem, me, cid, upcall, Runnable)
      && Copied(S0[me].pgdir.ptes, map[ux := T'[c].pgdir.ptes[ux]], T'[c].pgdir.ptes, hi, shareBelow)
      && Marked(S0[me].pgdir.ptes, T'[me].pgdir.ptes, hi, shareBelow)
  {
    var c := Envx(cid);
    assert E0[c].pgdir.ptes == map[Pn(FORK_LIMIT) := E0[c].pgdir.ptes[Pn(FORK_LIMIT)]];
  }

  /**
   * The last step of fork and sfork: sys_env_set_status(child,
   * ENV_RUNNABLE), which cannot fail on a child curenv just made, whatever
   * the copy did to address spaces.  When the copy ran below `hi` from the
   * table `E0` MakeChild left (`copied`), the result is the one ForkDone
   * describes.
   */
  method Finish(k: Kernel, cid: int, upcall: Word, ghost me: nat, ghost c: nat, ghost S0: seq<Env>,
                ghost E0: seq<Env>, ghost hi: nat, ghost shareBelow: nat, ghost copied: bool)
    returns (o: ForkOutcome)
    requires k.Valid() && k.cur == Some(me) && c == Envx(cid)
    requires |E0| == NENV && me < NENV && Resolve(E0, me, cid, true) == Ok(c) && SpacesOnly(E0, k.envs[..])
    requires copied ==>
      && ChildMade(S0, E0, k.mem, me, cid, upcall, NotRunnable)
      && E0[me] == S0[me] && E0[c].pgdir.ptes.Keys == {Pn(FORK_LIMIT)}
      && CopyInv(k.envs[..], me, cid, c, E0, hi, shareBelow) && hi <= Pn(FORK_LIMIT)
    modifies k.envs
    ensures k.Valid() && o == Forked(cid)
    ensures k.envs[..] == old(k.envs[..])[c := old(k.envs[c]).(status := Runnable)]
    ensures copied ==>
      var ux := Pn(FORK_LIMIT);
      && ChildMade(S0, k.envs[..], k.mem, me, cid, upcall, Runnable)
      && Copied(S0[me].pgdir.ptes, map[ux := k.envs[c].pgdir.ptes[ux]], k.envs[c].pgdir.ptes, hi, shareBelow)
      && Marked(S0[me].pgdir.ptes, k.envs[me].pgdir.ptes, hi, shareBelow)
  {
    ghost var T := k.envs[..];
    SpacesOnlyResolve(E0, T, me, cid);
    var rr := SysEnvSetStatus(k, cid, StatusCode(Runnable));
    assert rr == 0;
    StatusCodesBijective(Runnable, k.envs[c].status);
    o := Forked(cid);
    if copied {
      ForkDone(S0, E0, T, k.envs[..], k.mem, me, cid, upcall, hi, shareBelow);
    }
  }

  /**
   * fork(), thisenv being slot `thisenv`.  When thisenv names curenv (as
   * libmain leaves it): a child whose every page below the exception stack
   * is a copy-on-write copy of curenv's (curenv's own writable pages
   * turning copy-on-write as well; see CowCopyShares), with a fresh zeroed
   * exception-stack page, the given upcall, and RUNNABLE.  Returns the
   * child's id; any failure panics, and a call fails only when the slots
   * or the frames run out.  Pages at and above the exception stack are not
   * copied, so neither exception stack is ever marked copy-on-write.  When
   * thisenv names nothing to copy from (as in a child fork made, whose
   * thisenv still points at its parent's slot), the first page curenv maps
   * below the exception stack panics.
   */
  method Fork(k: Kernel, upcall: Word, thisenv: nat) returns (o: ForkOutcome)
    requires k.Valid() && k.cur.Some? && k.envs[k.cur.value].status != Free && thisenv < NENV
    modifies k, k.envs
    ensures k.Valid() && k.envs == old(k.envs) && k.cur == old(k.cur)
    ensures var mode := ModeAtFork(old(k.envs[..]), old(k.cur.value), thisenv, old(k.envFreeList));
      var P0 := old(k.envs[k.cur.value].pgdir.ptes); var n := CopyFrames(P0, Pn(FORK_LIMIT));
      && (mode == NamesCur ==> (o == ForkPanicked <==> old(k.envFreeList) == [] || |old(k.pageFreeList)| < 3 + n))
      && (mode == NamesNone ==>
            (o == ForkPanicked <==> old(k.envFreeList) == [] || |old(k.pageFreeList)| < 3
                                    || !NoPageBelow(P0, Pn(FORK_LIMIT))))
      && (mode != NamesOther && o.Forked? ==>
            && old(k.envFreeList) != [] && 3 + n <= |old(k.pageFreeList)|
            && k.envFreeList == old(k.envFreeList[1..]) && k.pageFreeList == old(k.pageFreeList)[3 + n..])
    ensures o.Forked? ==> old(k.envFreeList) != [] && 3 <= |old(k.pageFreeList)|
    ensures o.Forked? ==> k.mem == old(k.mem)[old(k.pageFreeList[1]) := ZeroPage()]
    ensures o.Forked? && ModeAtFork(old(k.envs[..]), old(k.cur.value), thisenv, old(k.envFreeList)) != NamesOther ==>
      var me := old(k.cur.value); var c := Envx(o.child); var ux := Pn(FORK_LIMIT); var P0 := old(k.envs[me].pgdir.ptes);
      && old(k.envFreeList) != [] && c == old(k.envFreeList[0])
      && ChildMade(old(k.envs[..]), k.envs[..], k.mem, me, o.child, upcall, Runnable)
      && Copied(P0, map[ux := k.envs[c].pgdir.ptes[ux]], k.envs[c].pgdir.ptes, ux, 0)
      && Marked(P0, k.envs[me].pgdir.ptes, ux, 0)
  {
    ghost var S0, me := k.envs[..], k.cur.value;
    ghost var mode := ModeAtFork(S0, me, thisenv, k.envFreeList);
    var made, c, E0, NT := Spawn(k, upcall, FORK_LIMIT, 0, thisenv);
    if made.ForkPanicked? {
      return ForkPanicked;
    }
    o := Finish(k, made.child, upcall, me, c, S0, E0, Pn(FORK_LIMIT), 0, mode != NamesOther);
  }

  /**
   * sfork(), thisenv being slot `thisenv`: like fork, except that every
   * page below the normal stack page is shared with the child
   * (duppage_share) and only the stack page itself is copied on write
   * (duppage); see SforkShares.
   */
  method Sfork(k: Kernel, upcall: Word, thisenv: nat) returns (o: ForkOutcome)
    requires k.Valid() && k.cur.Some? && k.envs[k.cur.value].status != Free && thisenv < NENV
    modifies k, k.envs
    ensures k.Valid() && k.envs == old(k.envs) && k.cur == old(k.cur)
    ensures var mode := ModeAtFork(old(k.envs[..]), old(k.cur.value), thisenv, old(k.envFreeList));
      var P0 := old(k.envs[k.cur.value].pgdir.ptes); var n := CopyFrames(P0, SFORK_LIMIT / PGSIZE + 1);
      && (mode == NamesCur ==> (o == ForkPanicked <==> old(k.envFreeList) == [] || |old(k.pageFreeList)| < 3 + n))
      && (mode == NamesNone ==>
            (o == ForkPanicked <==> old(k.envFreeList) == [] || |old(k.pageFreeList)| < 3
                                    || !NoPageBelow(P0, SFORK_LIMIT / PGSIZE + 1)))
      && (mode != NamesOther && o.Forked? ==>
            && old(k.envFreeList) != [] && 3 + n <= |old(k.pageFreeList)|
            && k.envFreeList == old(k.envFreeList[1..]) && k.pageFreeList == old(k.pageFreeList)[3 + n..])
    ensures o.Forked? ==> old(k.envFreeList) != [] && 3 <= |old(k.pageFreeList)|
    ensures o.Forked? ==> k.mem == old(k.mem)[old(k.pageFreeList[1]) := ZeroPage()]
    ensures o.Forked? && ModeAtFork(old(k.envs[..]), old(k.cur.value), thisenv, old(k.envFreeList)) != NamesOther ==>
      var me := old(k.cur.value); var c := Envx(o.child); var ux := Pn(FORK_LIMIT); var P0 := old(k.envs[me].pgdir.ptes);
      var st := SFORK_LIMIT / PGSIZE;
      && old(k.envFreeList) != [] && c == old(k.envFreeList[0])
      && ChildMade(old(k.envs[..]), k.envs[..], k.mem, me, o.child, upcall, Runnable)
      && Copied(P0, map[ux := k.envs[c].pgdir.ptes[ux]], k.envs[c].pgdir.ptes, st + 1, st)
      && Marked(P0, k.envs[me].pgdir.ptes, st + 1, st)
  {
    ghost var S0, me, F0 := k.envs[..], k.cur.value, k.pageFreeList;
    ghost var mode := ModeAtFork(S0, me, thisenv, k.envFreeList);
    var made, c, E0, NT := Spawn(k, upcall, SFORK_LIMIT, SFORK_LIMIT / PGSIZE, thisenv);
    if made.ForkPanicked? {
      CopyFramesGrow(old(k.envs[k.cur.value].pgdir.ptes), SFORK_LIMIT / PGSIZE, SFORK_LIMIT / PGSIZE + 1);
      return ForkPanicked;
    }
    StackBelowLimit();
    ModeBelow(E0, me, thisenv, c, SFORK_LIMIT / PGSIZE + 1, Pn(FORK_LIMIT), mode);
    o := SforkStack(k, thisenv, made.child, upcall, me, c, S0, E0, k.mem, NT, F0, 3, mode);
  }

  /**
   * The end of sfork, once every page below the stack page is shared:
   * duppage(child, PGNUM(USTACKTOP - PGSIZE)), then the child made
   * RUNNABLE.  With thisenv naming curenv it panics exactly when the copy
   * through the stack page needs more new page tables in the child (as
   * tabulated in `NT`) than the frames left of `F0` past its first
   * `base`; with thisenv naming nothing to copy from, exactly when curenv
   * maps the stack page.
   */
  method SforkStack(k: Kernel, thisenv: nat, cid: int, upcall: Word, ghost me: nat, ghost c: nat, ghost S0: seq<Env>,
                    ghost E0: seq<Env>, ghost mem: map<Frame, PageData>, ghost NT: seq<set<nat>>, ghost F0: seq<Frame>,
                    ghost base: nat, ghost mode: ThisenvMode)
    returns (o: ForkOutcome)
    requires k.Valid() && k.cur == Some(me) && c == Envx(cid) && mem == k.mem
    requires |E0| == NENV && me < NENV && c < NENV && thisenv < NENV
    requires ModeOf(E0, me, thisenv, c, SFORK_LIMIT / PGSIZE + 1, mode)
    requires Resolve(E0, me, cid, true) == Ok(c) && SpacesOnly(E0, k.envs[..]) && E0[me].status != Free
    requires mode != NamesOther ==>
      && ChildMade(S0, E0, mem, me, cid, upcall, NotRunnable)
      && E0[me] == S0[me] && E0[c].pgdir.ptes.Keys == {Pn(FORK_LIMIT)}
      && Tabulates(NT, E0[me].pgdir.ptes, E0[c].pgdir.tables) && SFORK_LIMIT / PGSIZE + 1 < |NT|
    requires CopyAt(k.envs[..], k.pageFreeList, me, cid, c, E0, NT, F0, base, SFORK_LIMIT / PGSIZE,
                    SFORK_LIMIT / PGSIZE, mode)
    modifies k, k.envs
    ensures k.Valid() && k.envs == old(k.envs) && k.cur == Some(me) && k.mem == mem
    ensures k.envFreeList == old(k.envFreeList)
    ensures mode != NamesOther ==>
      var n := |NT[SFORK_LIMIT / PGSIZE + 1]|;
      && (o == ForkPanicked <==> if mode == NamesCur then base + n > |F0|
                                 else SFORK_LIMIT / PGSIZE in E0[me].pgdir.ptes)
      && (o.Forked? ==> base + n <= |F0| && k.pageFreeList == F0[base + n..])
    ensures mode == NamesCur && o == ForkPanicked ==> k.pageFreeList == []
    ensures mode != NamesOther && o.Forked? ==>
      var ux := Pn(FORK_LIMIT); var st := SFORK_LIMIT / PGSIZE;
      && o.child == cid
      && ChildMade(S0, k.envs[..], mem, me, cid, upcall, Runnable)
      && Copied(S0[me].pgdir.ptes, map[ux := k.envs[c].pgdir.ptes[ux]], k.envs[c].pgdir.ptes, st + 1, st)
      && Marked(S0[me].pgdir.ptes, k.envs[me].pgdir.ptes, st + 1, st)
  {
    var panicked := CopyPage(k, thisenv, cid, SFORK_LIMIT / PGSIZE, SFORK_LIMIT / PGSIZE, me, c, E0, NT, F0, base, mode);
    if panicked {
      return ForkPanicked;
    }
    StackBelowLimit();
    if mode != NamesOther {
      CopyInvSpaces(k.envs[..], me, cid, c, E0, SFORK_LIMIT / PGSIZE + 1, SFORK_LIMIT / PGSIZE);
    }
    o := Finish(k, cid, upcall, me, c, S0, E0, SFORK_LIMIT / PGSIZE + 1, SFORK_LIMIT / PGSIZE, mode != NamesOther);
  }

  /**
   * What sfork's copy means: every parent page below the stack page `st`
   * is in the child with the parent's very entry, and the parent's is
   * unchanged; the stack page, if mapped, is the same read-only
   * copy-on-write entry in both.
   */
  lemma SforkShares(P0: map<nat, Pte>, C0: map<nat, Pte>, C: map<nat, Pte>, P: map<nat, Pte>, st: nat)
    requires Copied(P0, C0, C, st + 1, st) && Marked(P0, P, st + 1, st)
    ensures forall pn :: pn in P0 && pn < st ==>
      && pn in C && C[pn].frame == P0[pn].frame
      && (C[pn].perm & PTE_W != 0 <==> P0[pn].perm & PTE_W != 0)
    ensures st in P0 ==>
      && st in C && C[st] == P[st] && C[st].frame == P0[st].frame
      && C[st].perm & PTE_W == 0
      && (C[st].perm & PTE_COW != 0 <==> P0[st].perm & (PTE_W | PTE_COW) != 0)
    ensures P.Keys == P0.Keys && forall pn :: pn in P0 && pn != st ==> P[pn] == P0[pn]
  {
    if st in P0 {
      DupPermSpec(P0[st].perm);
    }
  }

  // ---------------------------------------------------------------------
  // pgfault
  // ---------------------------------------------------------------------

  /**
   * The fault pgfault repairs: error code exactly FEC_WR | FEC_U | FEC_PR
   * (a user-mode write to a present page) on an entry that is present and
   * copy-on-write.
   */
  predicate CowWriteFault(err: Word, pte: bv32)
  {
    err == FEC_WR + FEC_U + FEC_PR && pte & PTE_COW != 0 && pte & PTE_P != 0
  }

  /** The permission of the private copy: the old bits within PTE_SYSCALL, plus write access. */
  function CopyPerm(pte: bv32): bv32
  {
    (pte & PTE_SYSCALL) | PTE_W
  }

  /**
   * The private copy is writable, its permission is one the page syscalls
   * accept, and it keeps the copy-on-write bit of the entry it replaces.
   */
  lemma CopyPermSpec(pte: bv32)
    ensures PermAllowed(CopyPerm(pte)) && CopyPerm(pte) & PTE_W != 0
    ensures CopyPerm(pte) & PTE_COW == pte & PTE_COW
  {
  }

  /**
   * pgfault(utf) for a fault at `addr` with error code `err`.  At or above
   * UTOP a write panics and anything else is ignored.  Below UTOP only a
   * CowWriteFault is handled: a fresh frame is mapped at PFTEMP with
   * CopyPerm, the page's contents are copied into it, it is mapped over the
   * faulting page, and PFTEMP is unmapped.  The page_map and page_unmap
   * steps cannot fail once the allocation succeeded.  A fault on the page
   * at PFTEMP itself would leave that page unmapped.
   */
  method Pgfault(k: Kernel, addr: Word, err: Word) returns (panicked: bool)
    requires k.Valid() && k.cur.Some? && k.envs[k.cur.value].status != Free
    modifies k, k.envs
    ensures k.Valid() && k.envs == old(k.envs) && k.cur == old(k.cur) && k.envFreeList == old(k.envFreeList)
    ensures addr >= UTOP ==>
      && (panicked <==> (err / FEC_WR) % 2 == 1)
      && k.State() == old(k.State())
    ensures var a := old(k.envs[k.cur.value].pgdir);
      addr < UTOP && !CowWriteFault(err, RoPte(a, addr)) ==>
        panicked && k.State() == old(k.State())
    ensures var a := old(k.envs[k.cur.value].pgdir);
      addr < UTOP && CowWriteFault(err, RoPte(a, addr)) ==>
        && (panicked <==> PageAllocMap(a, old(k.pageFreeList), PFTEMP, CopyPerm(RoPte(a, addr)) | PTE_U).AllocNoMem?)
        && (!panicked ==> k.pageFreeList == PageAllocMap(a, old(k.pageFreeList), PFTEMP, CopyPerm(RoPte(a, addr)) | PTE_U).free)
    ensures addr < UTOP && !panicked ==>
      var me := k.cur.value; var a := old(k.envs[me].pgdir); var pn := Pn(addr);
      var f := old(k.pageFreeList[0]); var perm := CopyPerm(a.ptes[pn].perm);
      && pn in a.ptes && a.ptes[pn].perm & PTE_COW != 0 && old(k.pageFreeList) != []
      && k.envs[..] == old(k.envs[..])[me := old(k.envs[me]).(pgdir := k.envs[me].pgdir)]
      && k.envs[me].pgdir.ptes == (a.ptes[Pn(PFTEMP) := Pte(f, perm | PTE_U | PTE_P)][pn := Pte(f, perm | PTE_P)]) - {Pn(PFTEMP)}
      && (pn != Pn(PFTEMP) && a.ptes[pn].frame != f ==>
            k.mem == old(k.mem)[f := FrameContents(old(k.mem), a.ptes[pn].frame)])
  {
    var me := k.cur.value;
    if addr >= UTOP {
      return (err / FEC_WR) % 2 == 1;
    }
    var pte := RoPte(k.envs[me].pgdir, addr);
    if !CowWriteFault(err, pte) {
      return true;
    }
    CopyPermSpec(pte);
    panicked := CopyFaultPage(k, Pn(addr), CopyPerm(pte));
  }

  /**
   * The repair itself, for page `pn` of curenv and the copy's permission
   * `perm`: sys_page_alloc at PFTEMP (a panic when it fails), memmove of
   * the page into it, then TempToPage.
   */
  method CopyFaultPage(k: Kernel, pn: nat, perm: bv32) returns (panicked: bool)
    requires k.Valid() && k.cur.Some? && k.envs[k.cur.value].status != Free
    requires pn < UTOP / PGSIZE && pn in k.envs[k.cur.value].pgdir.ptes
    requires PermAllowed(perm) && perm & PTE_W != 0
    modifies k, k.envs
    ensures k.Valid() && k.envs == old(k.envs) && k.cur == old(k.cur) && k.envFreeList == old(k.envFreeList)
    ensures var a := old(k.envs[k.cur.value].pgdir);
      panicked <==> PageAllocMap(a, old(k.pageFreeList), PFTEMP, perm | PTE_U).AllocNoMem?
    ensures panicked ==> k.State() == old(k.State())
    ensures !panicked ==>
      var me := k.cur.value; var a := old(k.envs[me].pgdir); var f := old(k.pageFreeList[0]);
      && old(k.pageFreeList) != []
      && k.pageFreeList == PageAllocMap(a, old(k.pageFreeList), PFTEMP, perm | PTE_U).free
      && k.envs[..] == old(k.envs[..])[me := old(k.envs[me]).(pgdir := k.envs[me].pgdir)]
      && k.envs[me].pgdir.ptes == (a.ptes[Pn(PFTEMP) := Pte(f, perm | PTE_U | PTE_P)][pn := Pte(f, perm | PTE_P)]) - {Pn(PFTEMP)}
      && (pn != Pn(PFTEMP) && a.ptes[pn].frame != f ==>
            k.mem == old(k.mem)[f := FrameContents(old(k.mem), a.ptes[pn].frame)])
  {
    var me := k.cur.value;
    ghost var a, free0, S0 := k.envs[me].pgdir, k.pageFreeList, k.envs[..];
    ghost var pa := PageAllocMap(a, free0, PFTEMP, perm | PTE_U);
    var ok := AllocTemp(k, perm);
    if !ok {
      return true;
    }
    ghost var f := free0[0];
    assert k.envs[me].pgdir == pa.space && pa.frame == f;
    assert k.envs[me].pgdir.ptes == a.ptes[Pn(PFTEMP) := Pte(f, perm | PTE_U | PTE_P)];
    assert TableOf(pn) in a.tables;
    ghost var mem1, S1 := k.mem, k.envs[..];
    MoveToPage(k, pn, perm);
    SpaceTwice(S0, S1, k.envs[..], me);
    if pn != Pn(PFTEMP) && a.ptes[pn].frame != f {
      CopyOverZero(old(k.mem), f, a.ptes[pn].frame);
    }
    panicked := false;
  }

  /** Copying another frame over a just-zeroed frame `f` is a plain copy into `f`. */
  lemma CopyOverZero(mem: map<Frame, PageData>, f: Frame, src: Frame)
    requires src != f
    ensures var m1 := mem[f := ZeroPage()];
      m1[f := FrameContents(m1, src)] == mem[f := FrameContents(mem, src)]
  {
  }

  /** Two changes of one address space in a row are one change of it. */
  lemma SpaceTwice(S0: seq<Env>, S1: seq<Env>, S2: seq<Env>, me: nat)
    requires me < |S0| == |S1| == |S2| && S1 == S0[me := S0[me].(pgdir := S1[me].pgdir)]
    requires S2 == S1[me := S1[me].(pgdir := S2[me].pgdir)]
    ensures S2 == S0[me := S0[me].(pgdir := S2[me].pgdir)]
  {
  }

  /**
   * The end of pgfault once the new page is at PFTEMP: memmove of page `pn`
   * into it, then TempToPage.
   */
  method MoveToPage(k: Kernel, pn: nat, perm: bv32)
    requires k.Valid() && k.cur.Some? && k.envs[k.cur.value].status != Free
    requires pn < UTOP / PGSIZE && PermAllowed(perm) && pn in k.envs[k.cur.value].pgdir.ptes
    requires Pn(PFTEMP) in k.envs[k.cur.value].pgdir.ptes
    requires k.envs[k.cur.value].pgdir.ptes[Pn(PFTEMP)].perm & PTE_W != 0
    requires TableOf(pn) in k.envs[k.cur.value].pgdir.tables
    modifies k, k.envs
    ensures k.Valid() && k.envs == old(k.envs) && k.cur == old(k.cur) && k.envFreeList == old(k.envFreeList)
    ensures k.pageFreeList == old(k.pageFreeList)
    ensures var me := k.cur.value; var ptes := old(k.envs[me].pgdir.ptes);
      && k.envs[..] == old(k.envs[..])[me := old(k.envs[me]).(pgdir := k.envs[me].pgdir)]
      && k.envs[me].pgdir.ptes == ptes[pn := Pte(ptes[Pn(PFTEMP)].frame, perm | PTE_P)] - {Pn(PFTEMP)}
      && k.mem == old(k.mem)[ptes[Pn(PFTEMP)].frame := FrameContents(old(k.mem), ptes[pn].frame)]
  {
    var me := k.cur.value;
    // memmove(PFTEMP, ROUNDDOWN(addr, PGSIZE), PGSIZE)
    var dst := k.envs[me].pgdir.ptes[Pn(PFTEMP)].frame;
    var src := k.envs[me].pgdir.ptes[pn].frame;
    k.mem := k.mem[dst := FrameContents(k.mem, src)];
    TempToPage(k, pn, perm);
  }

  /**
   * sys_page_alloc(envid, PFTEMP, perm) with curenv's own id: it succeeds
   * exactly when page_alloc_map finds the frames, and then maps a zeroed
   * frame at PFTEMP in curenv and changes nothing else; a failure changes
   * nothing.
   */
  method AllocTemp(k: Kernel, perm: bv32) returns (ok: bool)
    requires k.Valid() && k.cur.Some? && k.envs[k.cur.value].status != Free && PermAllowed(perm)
    modifies k, k.envs
    ensures k.Valid() && k.envs == old(k.envs)
    ensures var me := old(k.cur.value);
      var pa := PageAllocMap(old(k.envs[me].pgdir), old(k.pageFreeList), PFTEMP, perm | PTE_U);
      && (ok <==> pa.AllocMapped?)
      && (!ok ==> k.State() == old(k.State()))
      && (ok ==> k.State() == old(k.State()).(envs := old(k.envs[..])[me := old(k.envs[me]).(pgdir := pa.space)],
                                              pageFreeList := pa.free, mem := old(k.mem)[pa.frame := ZeroPage()]))
  {
    var me := k.cur.value;
    var envid := SysGetenvid(k);
    assert Resolve(k.envs[..], me, envid, true) == Ok(me);
    assert IdOk(k.envs[..][me], me);
    var ra := SysPageAlloc(k, envid, PFTEMP, perm);
    ok := ra == 0;
  }

  /**
   * The last two steps of pgfault: sys_page_map(envid, PFTEMP, envid, pg,
   * perm) and sys_page_unmap(envid, PFTEMP) with curenv's own id, for a
   * writable page at PFTEMP and a page `pn` whose page table is present.
   * Neither can fail: page `pn` ends up mapping PFTEMP's frame with
   * `perm`, and PFTEMP is unmapped.
   */
  method TempToPage(k: Kernel, pn: nat, perm: bv32)
    requires k.Valid() && k.cur.Some? && k.envs[k.cur.value].status != Free
    requires pn < UTOP / PGSIZE && PermAllowed(perm)
    requires Pn(PFTEMP) in k.envs[k.cur.value].pgdir.ptes
    requires k.envs[k.cur.value].pgdir.ptes[Pn(PFTEMP)].perm & PTE_W != 0
    requires TableOf(pn) in k.envs[k.cur.value].pgdir.tables
    modifies k, k.envs
    ensures k.Valid() && k.envs == old(k.envs) && k.cur == old(k.cur) && k.envFreeList == old(k.envFreeList)
    ensures k.mem == old(k.mem) && k.pageFreeList == old(k.pageFreeList)
    ensures var me := k.cur.value;
      && k.envs[..] == old(k.envs[..])[me := old(k.envs[me]).(pgdir := k.envs[me].pgdir)]
      && k.envs[me].pgdir.ptes
         == old(k.envs[me].pgdir.ptes)[pn := Pte(old(k.envs[me].pgdir.ptes[Pn(PFTEMP)]).frame, perm | PTE_P)] - {Pn(PFTEMP)}
  {
    var myId := SysGetenvid(k);
    MapTempAt(k, myId, pn, perm);
    var ru := SysPageUnmap(k, myId, PFTEMP);
    assert ru == 0;
  }

  /**
   * sys_page_map(envid, PFTEMP, envid, addr, perm) with curenv's own id: it
   * cannot fail, and maps the frame at PFTEMP at page `pn` of curenv too.
   */
  method MapTempAt(k: Kernel, myId: int, pn: nat, perm: bv32)
    requires k.Valid() && k.cur.Some? && k.envs[k.cur.value].status != Free
    requires myId == k.envs[k.cur.value].id
    requires pn < UTOP / PGSIZE && PermAllowed(perm)
    requires Pn(PFTEMP) in k.envs[k.cur.value].pgdir.ptes
    requires k.envs[k.cur.value].pgdir.ptes[Pn(PFTEMP)].perm & PTE_W != 0
    requires TableOf(pn) in k.envs[k.cur.value].pgdir.tables
    modifies k, k.envs
    ensures k.Valid() && k.envs == old(k.envs) && k.cur == old(k.cur) && k.envFreeList == old(k.envFreeList)
    ensures k.mem == old(k.mem) && k.pageFreeList == old(k.pageFreeList)
    ensures var me := k.cur.value; var a := old(k.envs[me].pgdir);
      k.envs[..] == old(k.envs[..])[me := old(k.envs[me]).(pgdir :=
        AddrSpace(a.tables, a.ptes[pn := Pte(a.ptes[Pn(PFTEMP)].frame, perm | PTE_P)]))]
  {
    var me := k.cur.value;
    var va := PageVa(pn);
    PageVaSpec(pn);
    ghost var t0, free0 := k.envs[..], k.pageFreeList;
    assert IdOk(t0[me], me);
    assert Resolve(t0, me, myId, true) == Ok(me);
    PageMapErrors(t0, me, free0, myId, PFTEMP, myId, va, perm);
    ghost var m := PageMap(t0, me, free0, myId, PFTEMP, myId, va, perm);
    var rm := SysPageMap(k, myId, PFTEMP, myId, va, perm);
    assert m == Mapped(me, PageInsert(t0[me].pgdir, free0, t0[me].pgdir.ptes[Pn(PFTEMP)].frame, va, perm).space, free0);
    assert rm == 0;
  }
}
