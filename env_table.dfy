/**
 * The environment table: NENV records shaped like `struct Env`, the index of
 * the environment this CPU runs (`curenv`), the free lists, and the
 * operations of kern/env.c that the syscalls call.  kern/env.c is not part of
 * this model: envid2env, env_alloc, env_destroy and env_run are stated here
 * as operations with contracts, following the identifier layout of
 * inc/env.h.
 */
module EnvTable {
  import opened Machine
  import opened EnvLayout
  import opened Pmap

  /** `struct Env` without its free-list link and its IPC spinlock. */
  datatype Env = Env(
    tf: Trapframe,
    id: int,
    parentId: int,
    envType: EnvType,
    status: EnvStatus,
    runs: nat,
    cpu: int,
    pgdir: AddrSpace,
    pgfaultUpcall: Word,
    // polling IPC (the receiver's side)
    ipcRecving: bool,
    ipcDstva: Word,
    ipcValue: Word,
    ipcFrom: int,
    ipcPerm: bv32,
    // queued IPC: senders blocked on this environment, and the outgoing buffer
    ipcWaitingCount: int,
    ipcSending: bool,
    ipcVaSend: Word,
    ipcValueSend: Word,
    ipcTo: int,
    ipcPermSend: bv32)

  /** A slot that has never been used. */
  const BlankEnv: Env := Env(
    UserInitFrame, 0, 0, User, Free, 0, 0, EmptySpace, 0,
    false, 0, 0, 0, 0, 0, false, 0, 0, 0, 0)

  /** The register state env_alloc prepares: user segments, interrupts on. */
  const UserInitFrame: Trapframe := Trapframe(
    PushRegs(0, 0, 0, 0, 0, 0, 0, 0),
    GD_UD + 3, GD_UD + 3, 0, 0, 0, GD_UT + 3, FL_IF, USTACKTOP, GD_UD + 3)

  /**
   * A slot's id either is still 0 (never allocated, so free) or is positive
   * and names that slot.
   */
  predicate IdOk(e: Env, i: nat)
  {
    (e.id == 0 && e.status == Free) || (e.id > 0 && Envx(e.id) == i)
  }

  /**
   * The table invariant: NENV records with well-formed address spaces and
   * ids that name their slots; curenv names an allocated slot; the free list
   * holds distinct free slots and never curenv.
   */
  predicate TableInv(tbl: seq<Env>, cur: Option<nat>, freeEnvs: seq<nat>)
  {
    && |tbl| == NENV
    && (forall i :: 0 <= i < |tbl| ==> Wf(tbl[i].pgdir) && IdOk(tbl[i], i))
    && (cur.Some? ==> cur.value < NENV && tbl[cur.value].id > 0 && cur.value !in freeEnvs)
    && (forall k :: 0 <= k < |freeEnvs| ==> freeEnvs[k] < NENV && tbl[freeEnvs[k]].status == Free)
    && (forall a, b :: 0 <= a < b < |freeEnvs| ==> freeEnvs[a] != freeEnvs[b])
  }

  /**
   * envid2env(envid, &e, checkperm): 0 names curenv; any other id must match
   * the whole id stored in slot ENVX(envid) of a non-free slot, and with
   * `checkperm` that slot must be curenv or a child of curenv.
   */
  function Resolve(tbl: seq<Env>, cur: nat, envid: int, checkperm: bool): (r: Result<nat>)
    requires |tbl| == NENV && cur < NENV
    ensures r.Ok? ==> r.value < NENV
    ensures r.Err? ==> r.code == -E_BAD_ENV
    ensures envid == 0 ==> r == Ok(cur)
    ensures envid != 0 && r.Ok? ==> r.value == Envx(envid) && tbl[r.value].id == envid
    ensures envid != 0 ==>
      (r.Ok? <==>
        && tbl[Envx(envid)].status != Free
        && tbl[Envx(envid)].id == envid
        && (checkperm ==> Envx(envid) == cur || tbl[Envx(envid)].parentId == tbl[cur].id))
  {
    if envid == 0 then Ok(cur)
    else
      var e := tbl[Envx(envid)];
      if e.status == Free || e.id != envid then Err(-E_BAD_ENV)
      else if checkperm && Envx(envid) != cur && e.parentId != tbl[cur].id then Err(-E_BAD_ENV)
      else Ok(Envx(envid))
  }

  /** A resolved slot is allocated: its id is positive and it is not on the free list. */
  lemma ResolvedIsLive(tbl: seq<Env>, cur: nat, freeEnvs: seq<nat>, envid: int, checkperm: bool)
    requires TableInv(tbl, Some(cur), freeEnvs)
    requires Resolve(tbl, cur, envid, checkperm).Ok?
    ensures var i := Resolve(tbl, cur, envid, checkperm).value; tbl[i].id > 0 && i !in freeEnvs
  {
    var i := Resolve(tbl, cur, envid, checkperm).value;
    assert IdOk(tbl[i], i);
  }

  /**
   * An id whose slot has since been reallocated (and so carries the next
   * generation) no longer resolves, with or without the permission check.
   */
  lemma StaleIdRejected(tbl: seq<Env>, cur: nat, oldId: int, checkperm: bool)
    requires |tbl| == NENV && cur < NENV && oldId != 0
    requires tbl[Envx(oldId)].id == MakeEnvId(NextGen(oldId), Envx(oldId))
    ensures Resolve(tbl, cur, oldId, checkperm) == Err(-E_BAD_ENV)
  {
    FreshIdDiffers(oldId, Envx(oldId));
  }

  /** The record env_alloc leaves in a claimed slot. */
  function NewEnv(id: int, parentId: int): Env
  {
    BlankEnv.(id := id, parentId := parentId, status := Runnable)
  }

  /** Dropping the head of the free list keeps the invariant. */
  lemma FreeListTail(tbl: seq<Env>, cur: Option<nat>, freeEnvs: seq<nat>)
    requires TableInv(tbl, cur, freeEnvs) && freeEnvs != []
    ensures TableInv(tbl, cur, freeEnvs[1..])
    ensures freeEnvs[0] !in freeEnvs[1..]
  {
    assert forall k :: 0 <= k < |freeEnvs[1..]| ==> freeEnvs[1..][k] == freeEnvs[k + 1];
  }

  /**
   * The whole kernel state at one instant: the table, curenv, both free
   * lists and the frame contents.  Contracts that relate the state before and
   * after an operation compare two of these.
   */
  datatype KState = KState(envs: seq<Env>, cur: Option<nat>, envFreeList: seq<nat>,
                           pageFreeList: seq<Frame>, mem: map<Frame, PageData>)
  {
    /** The state a system call starts from: the table invariant holds and there is a curenv. */
    predicate InSyscall()
    {
      TableInv(envs, cur, envFreeList) && cur.Some?
    }
  }

  class Kernel {
    var envs: array<Env>
    /** curenv, as an index into envs. */
    var cur: Option<nat>
    /** env_free_list: slots env_alloc hands out, head first. */
    var envFreeList: seq<nat>
    /** page_free_list: physical frames page_alloc hands out, head first. */
    var pageFreeList: seq<Frame>
    /** The contents of physical frames. */
    var mem: map<Frame, PageData>

    ghost predicate Valid()
      reads this, envs
    {
      envs.Length == NENV && TableInv(envs[..], cur, envFreeList)
    }

    /** The current state as a value. */
    ghost function State(): KState
      reads this, envs
    {
      KState(envs[..], cur, envFreeList, pageFreeList, mem)
    }

    /** env_init: every slot free, the free list in index order, no curenv. */
    constructor Init(frames: seq<Frame>)
      ensures Valid() && fresh(envs)
      ensures cur == None && pageFreeList == frames && mem == map[]
      ensures envFreeList == seq(NENV, i => i)
      ensures forall i :: 0 <= i < NENV ==> envs[i] == BlankEnv
    {
      envs := new Env[NENV](_ => BlankEnv);
      cur := None;
      envFreeList := seq(NENV, i => i);
      pageFreeList := frames;
      mem := map[];
    }

    /** Store record `e` in slot `i`: the one in-place write every handler performs. */
    method SetEnv(i: nat, e: Env)
      requires Valid() && i < NENV
      requires Wf(e.pgdir) && IdOk(e, i)
      requires i in envFreeList ==> e.status == Free
      requires cur == Some(i) ==> e.id > 0
      modifies envs
      ensures Valid()
      ensures envs[..] == old(envs[..])[i := e]
    {
      envs[i] := e;
    }
  }

  /**
   * env_alloc(&e, parentId): claim the head of the free list, give it the next
   * generation of its slot, a fresh address space (one frame for the page
   * directory) and the status RUNNABLE.  -E_NO_FREE_ENV when no slot is free,
   * -E_NO_MEM when no frame is; either failure changes nothing.
   */
  method EnvAlloc(k: Kernel, parentId: int) returns (r: Result<nat>)
    requires k.Valid()
    modifies k, k.envs
    ensures k.Valid() && k.envs == old(k.envs) && k.cur == old(k.cur) && k.mem == old(k.mem)
    ensures old(k.envFreeList) == [] ==> r == Err(-E_NO_FREE_ENV)
    ensures old(k.envFreeList) != [] && old(k.pageFreeList) == [] ==> r == Err(-E_NO_MEM)
    ensures r.Ok? <==> old(k.envFreeList) != [] && old(k.pageFreeList) != []
    ensures r.Err? ==> r.code in {-E_NO_FREE_ENV, -E_NO_MEM}
    ensures r.Err? ==> k.envs[..] == old(k.envs[..]) && unchanged(k)
    ensures r.Ok? ==>
      && old(k.envFreeList) != [] && old(k.pageFreeList) != []
      && r.value == old(k.envFreeList[0])
      && k.envFreeList == old(k.envFreeList[1..])
      && k.pageFreeList == old(k.pageFreeList[1..])
      && k.envs[..] == old(k.envs[..])[r.value := NewEnv(MakeEnvId(NextGen(old(k.envs[r.value].id)), r.value), parentId)]
  {
    if k.envFreeList == [] {
      return Err(-E_NO_FREE_ENV);
    }
    if k.pageFreeList == [] {
      return Err(-E_NO_MEM);
    }
    var slot := k.envFreeList[0];
    var e := NewEnv(MakeEnvId(NextGen(k.envs[slot].id), slot), parentId);
    FreeListTail(k.envs[..], k.cur, k.envFreeList);
    k.envFreeList := k.envFreeList[1..];
    k.pageFreeList := k.pageFreeList[1..];
    k.SetEnv(slot, e);
    r := Ok(slot);
  }

  /**
   * env_destroy(e) on the state: an environment running on another CPU is
   * only marked DYING; otherwise env_free releases its address space, marks
   * the slot FREE and pushes it on the free list, and destroying curenv
   * clears curenv.
   */
  function AfterDestroy(s: KState, i: nat): KState
    requires i < |s.envs|
  {
    if s.envs[i].status == Running && s.cur != Some(i) then
      s.(envs := s.envs[i := s.envs[i].(status := Dying)])
    else
      s.(envs := s.envs[i := s.envs[i].(status := Free, pgdir := EmptySpace)],
         envFreeList := [i] + s.envFreeList,
         cur := if s.cur == Some(i) then None else s.cur)
  }

  /**
   * Destroying a live slot never touches another slot, the page free list or
   * memory; the slot is on the free list afterwards unless it was only marked
   * DYING, and curenv is cleared exactly when curenv itself was destroyed.
   */
  lemma AfterDestroyEffects(s: KState, i: nat)
    requires TableInv(s.envs, s.cur, s.envFreeList) && i < NENV && i !in s.envFreeList
    ensures var s' := AfterDestroy(s, i);
      && TableInv(s'.envs, s'.cur, s'.envFreeList)
      && s'.pageFreeList == s.pageFreeList && s'.mem == s.mem
      && (forall j :: 0 <= j < NENV && j != i ==> s'.envs[j] == s.envs[j])
      && (s'.envs[i].status == Dying <==> s.envs[i].status == Running && s.cur != Some(i))
      && (s'.envs[i].status != Dying ==> s'.envs[i].status == Free && i in s'.envFreeList)
      && (s'.cur.None? <==> s.cur.None? || s.cur == Some(i))
  {
    var s' := AfterDestroy(s, i);
    if !(s.envs[i].status == Running && s.cur != Some(i)) {
      assert IdOk(s.envs[i], i);
      FreeListPush(s.envs[i := s.envs[i].(status := Free, pgdir := EmptySpace)], s'.cur, s.envFreeList, i);
    } else {
      assert IdOk(s.envs[i], i);
    }
  }

  /**
   * env_destroy(e): the state change AfterDestroy describes.  Destroying
   * curenv yields (`yielded`): env_destroy then calls sched_yield.
   */
  method EnvDestroy(k: Kernel, i: nat) returns (yielded: bool)
    requires k.Valid() && i < NENV && i !in k.envFreeList
    modifies k, k.envs
    ensures k.Valid() && k.envs == old(k.envs)
    ensures k.State() == AfterDestroy(old(k.State()), i)
    ensures yielded <==> old(k.cur) == Some(i)
  {
    var e := k.envs[i];
    yielded := false;
    if e.status == Running && k.cur != Some(i) {
      k.SetEnv(i, e.(status := Dying));
    } else {
      assert IdOk(k.envs[i], i);
      k.SetEnv(i, e.(status := Free, pgdir := EmptySpace));
      yielded := k.cur == Some(i);
      if yielded {
        k.cur := None;
      }
      FreeListPush(k.envs[..], k.cur, k.envFreeList, i);
      k.envFreeList := [i] + k.envFreeList;
    }
  }

  /** Pushing a free slot that is not curenv onto the free list keeps the invariant. */
  lemma FreeListPush(tbl: seq<Env>, cur: Option<nat>, freeEnvs: seq<nat>, i: nat)
    requires TableInv(tbl, cur, freeEnvs) && i < NENV && tbl[i].status == Free
    requires i !in freeEnvs && cur != Some(i)
    ensures TableInv(tbl, cur, [i] + freeEnvs)
  {
    var fl := [i] + freeEnvs;
    forall a, b | 0 <= a < b < |fl| ensures fl[a] != fl[b] {
      if a == 0 {
        assert fl[b] == freeEnvs[b - 1];
      } else {
        assert fl[a] == freeEnvs[a - 1] && fl[b] == freeEnvs[b - 1];
      }
    }
  }

  /** What env_run does to the environment it switches away from. */
  function Preempted(e: Env): Env
  {
    if e.status == Running then e.(status := Runnable) else e
  }

  /** The table after env_run(envs[i]) on CPU `cpu` with curenv `cur`. */
  function AfterRun(tbl: seq<Env>, cur: Option<nat>, i: nat, cpu: int): seq<Env>
    requires i < |tbl| && (cur.Some? ==> cur.value < |tbl|)
  {
    var t := if cur.Some? then tbl[cur.value := Preempted(tbl[cur.value])] else tbl;
    t[i := t[i].(status := Running, runs := t[i].runs + 1, cpu := cpu)]
  }

  /**
   * env_run touches two records only: the chosen one is RUNNING on `cpu`
   * with one more run (whatever it was before, curenv included), and the
   * previous curenv, if it was RUNNING, is RUNNABLE again.
   */
  lemma AfterRunEffects(tbl: seq<Env>, cur: Option<nat>, i: nat, cpu: int)
    requires i < |tbl| && (cur.Some? ==> cur.value < |tbl|)
    ensures var t := AfterRun(tbl, cur, i, cpu);
      && |t| == |tbl|
      && t[i] == tbl[i].(status := Running, runs := tbl[i].runs + 1, cpu := cpu)
      && (cur.Some? && cur.value != i ==> t[cur.value] == Preempted(tbl[cur.value]))
      && (cur.Some? && cur.value != i && tbl[cur.value].status == Running ==> t[cur.value].status == Runnable)
      && (forall j :: 0 <= j < |tbl| && j != i && Some(j) != cur ==> t[j] == tbl[j])
  {
  }

  /**
   * env_run(e): the environment curenv was running goes back to RUNNABLE if
   * it is still RUNNING; `e` becomes curenv, RUNNING on this CPU, with one
   * more run counted.  The context switch itself is not modelled.
   */
  method EnvRun(k: Kernel, i: nat, cpu: int)
    requires k.Valid() && i < NENV && k.envs[i].status != Free
    modifies k, k.envs
    ensures k.Valid() && k.envs == old(k.envs) && k.cur == Some(i)
    ensures k.envFreeList == old(k.envFreeList) && k.pageFreeList == old(k.pageFreeList)
    ensures k.mem == old(k.mem)
    ensures k.envs[..] == AfterRun(old(k.envs[..]), old(k.cur), i, cpu)
  {
    ghost var t0 := k.envs[..];
    if k.cur.Some? {
      var c := k.cur.value;
      if k.envs[c].status == Running {
        k.SetEnv(c, k.envs[c].(status := Runnable));
      }
      assert k.envs[..] == t0[c := Preempted(t0[c])];
    }
    var e := k.envs[i];
    assert IdOk(k.envs[..][i], i);
    k.cur := Some(i);
    k.SetEnv(i, e.(status := Running, runs := e.runs + 1, cpu := cpu));
  }
}
