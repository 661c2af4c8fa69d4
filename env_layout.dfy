/**
 * The environment identifier layout and the two enumerations of inc/env.h.
 *
 * An envid is a 32-bit signed word made of a 10-bit table index (low bits),
 * a 21-bit uniqueifier (generation) above it, and a sign bit that is zero for
 * every real environment.  ENVX keeps the low ten bits.
 */
module EnvLayout {
  import opened Machine

  const LOG2NENV: nat := 10
  const NENV: nat := 1024
  /** 2^21: the number of distinct uniqueifiers. */
  const NGEN: nat := 0x20_0000

  /**
   * `ENVX(envid) = envid & (NENV - 1)`.  Dafny's `%` is Euclidean, so for a
   * negative envid it yields exactly the low ten bits of the two's-complement
   * pattern, as the C mask does.
   */
  function Envx(envid: int): (x: nat)
    ensures x < NENV
    ensures (envid - x) % NENV == 0
  {
    envid % NENV
  }

  /** The generation part of a non-negative envid (bits 10..30). */
  function Uniqueifier(envid: int): int
  {
    envid / NENV
  }

  /** The envid whose uniqueifier is `gen` and whose index is `idx`. */
  function MakeEnvId(gen: nat, idx: nat): (id: int)
    requires 0 < gen < NGEN && idx < NENV
    ensures 0 < id <= INT32_MAX
    ensures Envx(id) == idx && Uniqueifier(id) == gen
  {
    gen * NENV + idx
  }

  /** Splitting an id into its two fields and joining them again gives it back. */
  lemma IdRoundTrip(id: int)
    requires 0 <= id && 0 < Uniqueifier(id) < NGEN
    ensures MakeEnvId(Uniqueifier(id), Envx(id)) == id
  {
  }

  /**
   * Two ids that differ only in the uniqueifier name the same table slot but
   * are different ids, so a lookup that compares whole ids tells them apart.
   */
  lemma SameSlotDistinctIds(gen1: nat, gen2: nat, idx: nat)
    requires 0 < gen1 < NGEN && 0 < gen2 < NGEN && idx < NENV
    requires gen1 != gen2
    ensures Envx(MakeEnvId(gen1, idx)) == Envx(MakeEnvId(gen2, idx))
    ensures MakeEnvId(gen1, idx) != MakeEnvId(gen2, idx)
  {
  }

  /**
   * The generation a reused slot receives: the next uniqueifier, wrapping
   * back to 1 (never 0, which would make the id non-positive).
   */
  function NextGen(oldId: int): (gen: nat)
    ensures 0 < gen < NGEN
    ensures gen != Uniqueifier(oldId)
  {
    if 0 <= Uniqueifier(oldId) < NGEN - 1 then Uniqueifier(oldId) + 1 else 1
  }

  /** A slot's fresh id never equals the id it had before. */
  lemma FreshIdDiffers(oldId: int, idx: nat)
    requires idx < NENV
    ensures MakeEnvId(NextGen(oldId), idx) != oldId
  {
    assert Uniqueifier(MakeEnvId(NextGen(oldId), idx)) != Uniqueifier(oldId);
  }

  // ---------------------------------------------------------------------
  // enum EnvStatus
  // ---------------------------------------------------------------------

  datatype EnvStatus = Free | Dying | Runnable | Running | NotRunnable

  function StatusCode(s: EnvStatus): (c: nat)
    ensures c < 5
  {
    match s
    case Free => 0
    case Dying => 1
    case Runnable => 2
    case Running => 3
    case NotRunnable => 4
  }

  /** The status an integer stands for, if any. */
  function StatusOfCode(c: int): (s: Option<EnvStatus>)
    ensures s.Some? <==> 0 <= c < 5
    ensures s.Some? ==> StatusCode(s.value) == c
  {
    if c == 0 then Some(Free)
    else if c == 1 then Some(Dying)
    else if c == 2 then Some(Runnable)
    else if c == 3 then Some(Running)
    else if c == 4 then Some(NotRunnable)
    else None
  }

  /** The five statuses have five distinct codes, and decoding inverts encoding. */
  lemma StatusCodesBijective(s: EnvStatus, t: EnvStatus)
    ensures StatusOfCode(StatusCode(s)) == Some(s)
    ensures StatusCode(s) == StatusCode(t) ==> s == t
  {
  }

  // ---------------------------------------------------------------------
  // enum EnvType
  // ---------------------------------------------------------------------

  datatype EnvType = User | Idle | FileServer | NetServer

  function TypeCode(t: EnvType): (c: nat)
    ensures c < 4
  {
    match t
    case User => 0
    case Idle => 1
    case FileServer => 2
    case NetServer => 3
  }

  function TypeOfCode(c: int): (t: Option<EnvType>)
    ensures t.Some? <==> 0 <= c < 4
    ensures t.Some? ==> TypeCode(t.value) == c
  {
    if c == 0 then Some(User)
    else if c == 1 then Some(Idle)
    else if c == 2 then Some(FileServer)
    else if c == 3 then Some(NetServer)
    else None
  }

  lemma TypeCodesBijective(s: EnvType, t: EnvType)
    ensures TypeOfCode(TypeCode(s)) == Some(s)
    ensures TypeCode(s) == TypeCode(t) ==> s == t
  {
  }
}
