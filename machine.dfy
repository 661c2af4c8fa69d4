/**
 * Machine-level vocabulary shared by the whole kernel model: 32-bit words and
 * the C casts between signed and unsigned words, page-table entry bits, the
 * user address-space layout, trap numbers, error codes and the saved
 * register frame.  The constants come from the JOS headers inc/mmu.h,
 * inc/memlayout.h, inc/trap.h and inc/error.h; those headers are not part of
 * this model, so their standard JOS values are written out here.
 */
module Machine {

  datatype Option<+T> = None | Some(value: T)

  /** A value or a negative JOS error code. */
  datatype Result<+T> = Ok(value: T) | Err(code: int)

  // ---------------------------------------------------------------------
  // 32-bit words and the C casts uint32_t <-> int32_t
  // ---------------------------------------------------------------------

  const WORD_MOD: int := 0x1_0000_0000
  const INT32_MIN: int := -0x8000_0000
  const INT32_MAX: int := 0x7FFF_FFFF

  /** uint32_t */
  type Word = x: int | 0 <= x < 0x1_0000_0000

  predicate IsInt32(i: int) { INT32_MIN <= i <= INT32_MAX }

  /** `(int32_t)w`: reinterpret the two's-complement bit pattern. */
  function ToInt32(w: Word): (i: int)
    ensures IsInt32(i)
    ensures (i - w) % WORD_MOD == 0
  {
    if w <= INT32_MAX then w else w - WORD_MOD
  }

  /** `(uint32_t)i`: keep the low 32 bits. */
  function ToWord(i: int): (w: Word)
    ensures (w - i) % WORD_MOD == 0
  {
    i % WORD_MOD
  }

  /** The two casts are inverse on 32-bit values. */
  lemma Int32RoundTrip(i: int, w: Word)
    requires IsInt32(i)
    ensures ToInt32(ToWord(i)) == i
    ensures ToWord(ToInt32(w)) == w
  {
    if i < 0 {
      assert ToWord(i) == i + WORD_MOD;
    }
  }

  // ---------------------------------------------------------------------
  // Page-table entry bits (inc/mmu.h) and the copy-on-write marker
  // ---------------------------------------------------------------------

  const PTE_P: bv32 := 0x001
  const PTE_W: bv32 := 0x002
  const PTE_U: bv32 := 0x004
  const PTE_AVAIL: bv32 := 0xE00
  /** The bits a user environment may pass to the page syscalls. */
  const PTE_SYSCALL: bv32 := 0xE07
  /** lib/fork.c marks copy-on-write entries with one of the PTE_AVAIL bits. */
  const PTE_COW: bv32 := 0x800

  /** `(perm & ~PTE_SYSCALL) == 0` */
  predicate PermAllowed(perm: bv32) { perm & !PTE_SYSCALL == 0 }

  // Page-fault error code bits (inc/mmu.h)
  const FEC_PR: Word := 0x1
  const FEC_WR: Word := 0x2
  const FEC_U: Word := 0x4

  // ---------------------------------------------------------------------
  // Paging geometry and the user address-space layout (inc/memlayout.h)
  // ---------------------------------------------------------------------

  const PGSIZE: nat := 4096
  const PTSIZE: nat := 0x40_0000
  const NPDENTRIES: nat := 1024
  const NPTENTRIES: nat := 1024

  const UTOP: nat := 0xEEC0_0000
  const UXSTACKTOP: nat := 0xEEC0_0000
  const USTACKTOP: nat := 0xEEBF_E000
  const UTEMP: nat := 0x40_0000
  const PFTEMP: nat := 0x7F_F000

  // ---------------------------------------------------------------------
  // Trap numbers (inc/trap.h) and segment selectors (inc/mmu.h)
  // ---------------------------------------------------------------------

  const T_DEBUG: int := 1
  const T_BRKPT: int := 3
  const T_PGFLT: int := 14
  const T_SYSCALL: int := 48

  const GD_KT: Word := 0x08
  const GD_UT: Word := 0x18
  const GD_UD: Word := 0x20
  const FL_IF: Word := 0x200
  /** The trap flag that makes the processor single-step. */
  const FL_TF: Word := 0x100

  // ---------------------------------------------------------------------
  // Error codes (inc/error.h); syscalls return their negation
  // ---------------------------------------------------------------------

  const E_BAD_ENV: int := 2
  const E_INVAL: int := 3
  const E_NO_MEM: int := 4
  const E_NO_FREE_ENV: int := 5
  const E_IPC_NOT_RECV: int := 7

  // ---------------------------------------------------------------------
  // The saved register frame (inc/trap.h)
  // ---------------------------------------------------------------------

  datatype PushRegs = PushRegs(
    edi: Word, esi: Word, ebp: Word, oesp: Word,
    ebx: Word, edx: Word, ecx: Word, eax: Word)

  datatype Trapframe = Trapframe(
    regs: PushRegs,
    es: Word, ds: Word,
    trapno: Word, err: Word,
    eip: Word, cs: Word, eflags: Word,
    esp: Word, ss: Word)

  /** The frame with its saved eax replaced: the slot a syscall returns through. */
  function WithEax(tf: Trapframe, v: Word): Trapframe
  {
    tf.(regs := tf.regs.(eax := v))
  }

  /** `(w & 3)`: the privilege level a saved code selector carries. */
  function Cpl(cs: Word): nat { cs % 4 }

  /** `eflags |= FL_TF`, written on the integer value of the word. */
  function SetTrapFlag(w: Word): (r: Word)
    ensures (r / FL_TF) % 2 == 1
    ensures r % FL_TF == w % FL_TF && r / (2 * FL_TF) == w / (2 * FL_TF)
  {
    if (w / FL_TF) % 2 == 1 then w else w + FL_TF
  }
}
