/**
 * The address-space manager as the process core sees it.  kern/pmap.c is not
 * part of this model: page_lookup, page_insert, page_remove and
 * page_alloc_map are stated here as operations on an abstract address space
 * with the contracts the syscalls rely on.
 *
 * An address space is the set of page-directory slots that hold a page table
 * and a map from user page number to its entry (frame, permission bits).  Only
 * the user part below UTOP is represented.  Physical frames are handed out
 * from the head of a free list, as page_alloc does; reference counts and the
 * return of frames to the list are not represented.
 */
module Pmap {
  import opened Machine

  type Frame = nat
  type PageData = seq<bv8>

  datatype Pte = Pte(frame: Frame, perm: bv32)

  datatype AddrSpace = AddrSpace(tables: set<nat>, ptes: map<nat, Pte>)

  const EmptySpace: AddrSpace := AddrSpace({}, map[])

  /** PGNUM(va) */
  function Pn(va: nat): nat { va / PGSIZE }

  /** The page-directory slot a page number falls in: PDX of its address. */
  function TableOf(pn: nat): nat { pn / NPTENTRIES }

  /**
   * Every present entry lives in a present page table and carries PTE_P, as
   * pgdir_walk and page_insert guarantee.
   */
  predicate Wf(a: AddrSpace)
  {
    forall pn :: pn in a.ptes ==> TableOf(pn) in a.tables && a.ptes[pn].perm & PTE_P != 0
  }

  lemma EmptySpaceWf()
    ensures Wf(EmptySpace)
  {
  }

  /** page_lookup: the entry mapping the page that holds `va`, if present. */
  function PageLookup(a: AddrSpace, va: nat): Option<Pte>
  {
    if Pn(va) in a.ptes then Some(a.ptes[Pn(va)]) else None
  }

  datatype InsertResult = Inserted(space: AddrSpace, free: seq<Frame>) | InsertNoMem

  /**
   * page_insert(pgdir, frame, va, perm): map the page holding `va` to `frame`
   * with `perm | PTE_P`, replacing what was there.  A missing page table is
   * taken from the head of the free list; with none left the call fails with
   * -E_NO_MEM and changes nothing.
   */
  function PageInsert(a: AddrSpace, free: seq<Frame>, f: Frame, va: nat, perm: bv32): (r: InsertResult)
    requires Wf(a)
    ensures r.InsertNoMem? <==> TableOf(Pn(va)) !in a.tables && free == []
    ensures r.Inserted? ==> Wf(r.space)
    ensures r.Inserted? ==> r.space.ptes == a.ptes[Pn(va) := Pte(f, perm | PTE_P)]
    ensures r.Inserted? ==> r.space.tables == a.tables + {TableOf(Pn(va))}
    ensures r.Inserted? && TableOf(Pn(va)) in a.tables ==> r.free == free
    ensures r.Inserted? && TableOf(Pn(va)) !in a.tables ==> r.free == free[1..]
  {
    var t := TableOf(Pn(va));
    var ptes := a.ptes[Pn(va) := Pte(f, perm | PTE_P)];
    if t in a.tables then Inserted(AddrSpace(a.tables, ptes), free)
    else if free == [] then InsertNoMem
    else Inserted(AddrSpace(a.tables + {t}, ptes), free[1..])
  }

  /** page_remove: drop the mapping of the page that holds `va`, if any. */
  function PageRemove(a: AddrSpace, va: nat): (r: AddrSpace)
    requires Wf(a)
    ensures Wf(r) && r.tables == a.tables
    ensures r.ptes == a.ptes - {Pn(va)}
  {
    AddrSpace(a.tables, a.ptes - {Pn(va)})
  }

  datatype AllocResult = AllocMapped(space: AddrSpace, free: seq<Frame>, frame: Frame) | AllocNoMem

  /**
   * page_alloc_map(pgdir, va, perm): take a frame from the free list and map
   * it at `va`.  Fails with -E_NO_MEM when no frame is left, or when the page
   * table is missing and no second frame is left for it; the frame goes back
   * to the list then.
   */
  function PageAllocMap(a: AddrSpace, free: seq<Frame>, va: nat, perm: bv32): (r: AllocResult)
    requires Wf(a)
    ensures r.AllocNoMem? <==> free == [] || (TableOf(Pn(va)) !in a.tables && |free| == 1)
    ensures r.AllocMapped? ==> r.frame == free[0] && Wf(r.space)
    ensures r.AllocMapped? ==> r.space.ptes == a.ptes[Pn(va) := Pte(free[0], perm | PTE_P)]
    ensures r.AllocMapped? ==> r.space.tables == a.tables + {TableOf(Pn(va))}
    ensures r.AllocMapped? ==> r.free == if TableOf(Pn(va)) in a.tables then free[1..] else free[2..]
  {
    if free == [] then AllocNoMem
    else match PageInsert(a, free[1..], free[0], va, perm)
      case InsertNoMem => AllocNoMem
      case Inserted(s, rest) => AllocMapped(s, rest, free[0])
  }

  /** A freshly allocated page reads as zeros (ALLOC_ZERO). */
  function ZeroPage(): (p: PageData)
    ensures |p| == PGSIZE && forall i :: 0 <= i < |p| ==> p[i] == 0
  {
    seq(PGSIZE, _ => 0 as bv8)
  }

  /** The contents of a frame; frames never written read as zeros. */
  function FrameContents(mem: map<Frame, PageData>, f: Frame): PageData
  {
    if f in mem then mem[f] else ZeroPage()
  }
}
