/**
 * Round-robin selection (kern/sched.c, sched_yield).
 *
 * The scan starts one slot past curenv (past slot 0 when there is no curenv),
 * wraps from NENV-1 to 0 and stops when it is back at its starting slot, which
 * it never examines.  The first RUNNABLE environment that is not an idle
 * environment is run.  Failing that, the kernel drops into the monitor when no
 * non-idle environment is RUNNABLE or RUNNING anywhere, and otherwise runs this
 * CPU's idle environment, envs[cpu], which must be RUNNABLE or RUNNING.
 *
 * env_run does not return in the kernel; here sched_yield returns its choice
 * and the caller applies env_run.
 */
module Sched {
  import opened Machine
  import opened EnvLayout
  import opened EnvTable

  datatype SchedChoice =
    | RunEnv(i: nat)   // env_run(&envs[i])
    | ToMonitor        // "No more runnable environments!": monitor(NULL) forever
    | NoIdle           // panic("CPU %d: No idle environment!")

  /** The slot the scan starts from and stops at. */
  function ScanStart(cur: Option<nat>): nat
  {
    if cur.Some? then cur.value else 0
  }

  /** The slot `d` steps after `start`, advancing with `if (++envid == NENV) envid = 0`. */
  function SlotAt(start: nat, d: nat): (j: nat)
    requires start < NENV && d <= NENV
    ensures j < NENV
  {
    if start + d < NENV then start + d else start + d - NENV
  }

  /** How many steps after `start` the scan reaches slot `j` (0 for `start` itself). */
  function Dist(start: nat, j: nat): (d: nat)
    requires start < NENV && j < NENV
    ensures d < NENV && SlotAt(start, d) == j
    ensures d == 0 <==> j == start
  {
    if j >= start then j - start else j + NENV - start
  }

  /** SlotAt and Dist are inverse: each step of a round lands on a distinct slot. */
  lemma DistOfSlot(start: nat, d: nat)
    requires start < NENV && d < NENV
    ensures Dist(start, SlotAt(start, d)) == d
  {
  }

  /** What the circular scan looks for. */
  predicate Eligible(e: Env)
  {
    e.status == Runnable && e.envType != Idle
  }

  /** What keeps the kernel out of the monitor. */
  predicate Busy(e: Env)
  {
    e.envType != Idle && (e.status == Runnable || e.status == Running)
  }

  /** The first eligible slot at least `d` steps after `start`, within one round. */
  function FirstEligible(tbl: seq<Env>, start: nat, d: nat): Option<nat>
    requires |tbl| == NENV && start < NENV && d <= NENV
    decreases NENV - d
  {
    if d == NENV then None
    else if Eligible(tbl[SlotAt(start, d)]) then Some(SlotAt(start, d))
    else FirstEligible(tbl, start, d + 1)
  }

  /**
   * FirstEligible finds exactly the eligible slot closest after `start` among
   * those at least `d` steps away, and finds nothing only when there is none.
   */
  lemma {:induction false} FirstEligibleSpec(tbl: seq<Env>, start: nat, d: nat)
    requires |tbl| == NENV && start < NENV && d <= NENV
    decreases NENV - d
    ensures var r := FirstEligible(tbl, start, d);
      && (r.Some? ==>
            && r.value < NENV && Eligible(tbl[r.value]) && d <= Dist(start, r.value)
            && forall m :: 0 <= m < NENV && d <= Dist(start, m) < Dist(start, r.value) ==> !Eligible(tbl[m]))
      && (r.None? <==> forall m :: 0 <= m < NENV && d <= Dist(start, m) ==> !Eligible(tbl[m]))
  {
    if d == NENV {
    } else {
      var j := SlotAt(start, d);
      DistOfSlot(start, d);
      FirstEligibleSpec(tbl, start, d + 1);
      if !Eligible(tbl[j]) {
        forall m | 0 <= m < NENV && Dist(start, m) == d
          ensures m == j
        {
        }
      }
    }
  }

  /** The whole of sched_yield's decision, as a function of the table. */
  function Schedule(tbl: seq<Env>, cur: Option<nat>, cpu: nat): SchedChoice
    requires |tbl| == NENV && cpu < NENV && (cur.Some? ==> cur.value < NENV)
  {
    match FirstEligible(tbl, ScanStart(cur), 1)
    case Some(j) => RunEnv(j)
    case None =>
      if forall m :: 0 <= m < NENV ==> !Busy(tbl[m]) then ToMonitor
      else if tbl[cpu].status == Runnable || tbl[cpu].status == Running then RunEnv(cpu)
      else NoIdle
  }

  /**
   * The scan's choice: when some slot other than the starting one is eligible,
   * the one run is eligible, is not the starting slot, is reached within
   * NENV-1 steps, and no eligible slot comes before it in circular order.
   */
  lemma ScheduleScanChoice(tbl: seq<Env>, cur: Option<nat>, cpu: nat, j: nat)
    requires |tbl| == NENV && cpu < NENV && (cur.Some? ==> cur.value < NENV)
    requires j < NENV && j != ScanStart(cur) && Eligible(tbl[j])
    ensures var o := Schedule(tbl, cur, cpu);
      && o.RunEnv? && o.i < NENV && o.i != ScanStart(cur) && Eligible(tbl[o.i])
      && 1 <= Dist(ScanStart(cur), o.i) <= Dist(ScanStart(cur), j)
      && forall m :: 0 <= m < NENV && m != ScanStart(cur) && Dist(ScanStart(cur), m) < Dist(ScanStart(cur), o.i)
           ==> !Eligible(tbl[m])
  {
    FirstEligibleSpec(tbl, ScanStart(cur), 1);
  }

  /**
   * The fallback, when the scan finds nothing: the monitor exactly when no
   * non-idle environment is RUNNABLE or RUNNING; otherwise this CPU's idle
   * environment if it is RUNNABLE or RUNNING, and a panic if it is not.
   */
  lemma ScheduleFallback(tbl: seq<Env>, cur: Option<nat>, cpu: nat)
    requires |tbl| == NENV && cpu < NENV && (cur.Some? ==> cur.value < NENV)
    requires forall m :: 0 <= m < NENV && m != ScanStart(cur) ==> !Eligible(tbl[m])
    ensures var o := Schedule(tbl, cur, cpu);
      && (o == ToMonitor <==> forall m :: 0 <= m < NENV ==> !Busy(tbl[m]))
      && (o.RunEnv? <==> (exists m :: 0 <= m < NENV && Busy(tbl[m]))
                         && (tbl[cpu].status == Runnable || tbl[cpu].status == Running))
      && (o.RunEnv? ==> o.i == cpu)
  {
    FirstEligibleSpec(tbl, ScanStart(cur), 1);
  }

  /**
   * Whatever is chosen can be run: it is RUNNABLE or RUNNING, hence not free.
   * The starting slot (curenv's) is run only as this CPU's idle environment:
   * the scan itself never re-picks curenv.
   */
  lemma ScheduleRunsLive(tbl: seq<Env>, cur: Option<nat>, cpu: nat)
    requires |tbl| == NENV && cpu < NENV && (cur.Some? ==> cur.value < NENV)
    ensures var o := Schedule(tbl, cur, cpu);
      && (o.RunEnv? ==> o.i < NENV && (tbl[o.i].status == Runnable || tbl[o.i].status == Running))
      && (o == RunEnv(ScanStart(cur)) ==> ScanStart(cur) == cpu)
  {
    FirstEligibleSpec(tbl, ScanStart(cur), 1);
  }

  /**
   * A curenv that is still RUNNING, with every other environment idle or
   * blocked, is not chosen again: this CPU's idle environment runs instead
   * (or the kernel panics when there is none).
   */
  lemma RunningCurenvNotRepicked(tbl: seq<Env>, c: nat, cpu: nat)
    requires |tbl| == NENV && c < NENV && cpu < NENV && c != cpu
    requires tbl[c].status == Running && tbl[c].envType != Idle
    requires forall m :: 0 <= m < NENV && m != c ==> !Eligible(tbl[m])
    ensures Schedule(tbl, Some(c), cpu) != RunEnv(c)
    ensures Schedule(tbl, Some(c), cpu) != ToMonitor
  {
    ScheduleFallback(tbl, Some(c), cpu);
  }

  /** The circular scan of sched_yield (kern/sched.c:37-56): the slot it would run, if any. */
  method ScanRound(k: Kernel) returns (r: Option<nat>)
    requires k.Valid()
    ensures r == FirstEligible(k.envs[..], ScanStart(k.cur), 1)
  {
    var envid := if k.cur.Some? then k.cur.value else 0;
    var envend := envid;
    envid := envid + 1;
    if envid == NENV {
      envid := 0;
    }
    ghost var d: nat := 1;
    while envid != envend
      invariant 1 <= d <= NENV && envid == SlotAt(envend, d)
      invariant FirstEligible(k.envs[..], envend, 1) == FirstEligible(k.envs[..], envend, d)
      decreases NENV - d
    {
      if k.envs[envid].status == Runnable && k.envs[envid].envType != Idle {
        return Some(envid);
      }
      envid := envid + 1;
      if envid == NENV {
        envid := 0;
      }
      d := d + 1;
    }
    assert d == NENV;
    return None;
  }

  /** The global idle check (kern/sched.c:61-67): is any non-idle environment RUNNABLE or RUNNING? */
  method AnyBusy(k: Kernel) returns (b: bool)
    requires k.Valid()
    ensures b <==> exists m :: 0 <= m < NENV && Busy(k.envs[m])
  {
    var i := 0;
    while i < NENV
      invariant i <= NENV
      invariant forall m :: 0 <= m < i ==> !Busy(k.envs[m])
    {
      if k.envs[i].envType != Idle && (k.envs[i].status == Runnable || k.envs[i].status == Running) {
        break;
      }
      i := i + 1;
    }
    return i < NENV;
  }

  /**
   * sched_yield: the circular scan, then the global idle check, then the
   * per-CPU idle fallback.  Nothing is changed; the caller runs the choice.
   */
  method SchedYield(k: Kernel, cpu: nat) returns (o: SchedChoice)
    requires k.Valid() && cpu < NENV
    ensures o == Schedule(k.envs[..], k.cur, cpu)
  {
    var found := ScanRound(k);
    if found.Some? {
      return RunEnv(found.value);
    }
    var busy := AnyBusy(k);
    if !busy {
      return ToMonitor;
    }
    if !(k.envs[cpu].status == Runnable || k.envs[cpu].status == Running) {
      return NoIdle;
    }
    return RunEnv(cpu);
  }
}
