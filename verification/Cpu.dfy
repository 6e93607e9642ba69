/** The processor state that a context switch moves around: registers and word-addressed stack memory. */
module Cpu {
  import opened Words

  type Word = w: int | 0 <= w < TWO_64

  /** The general registers other than rsp. */
  datatype Regs = Regs(
    rax: Word, rbx: Word, rcx: Word, rdx: Word, rsi: Word, rdi: Word, rbp: Word,
    r8: Word, r9: Word, r10: Word, r11: Word, r12: Word, r13: Word, r14: Word, r15: Word)

  /** What a task must find unchanged after it has been preempted. */
  datatype Context = Context(regs: Regs, rip: Word, rsp: Word, rflags: Word)

  /** The registers a callee must preserve (System V AMD64 ABI, section 3.2.1). */
  datatype Saved = Saved(rbx: Word, rbp: Word, r12: Word, r13: Word, r14: Word, r15: Word)

  function SavedOf(r: Regs): Saved {
    Saved(r.rbx, r.rbp, r.r12, r.r13, r.r14, r.r15)
  }

  function WithSaved(r: Regs, s: Saved): Regs {
    r.(rbx := s.rbx, rbp := s.rbp, r12 := s.r12, r13 := s.r13, r14 := s.r14, r15 := s.r15)
  }

  /** The interrupt flag is bit 9 of rflags. */
  predicate InterruptsOn(rflags: Word) {
    rflags / 512 % 2 == 1
  }

  function InterruptsOff(rflags: Word): (r: Word)
    ensures !InterruptsOn(r)
    ensures !InterruptsOn(rflags) ==> r == rflags
  {
    if InterruptsOn(rflags) then rflags - 512 else rflags
  }

  /** Memory as 8-byte words by address; words never written read as 0. */
  type Memory = map<int, Word>

  function Rd(m: Memory, a: int): Word {
    if a in m then m[a] else 0
  }

  /** The processor aligns the stack to 16 bytes before it pushes an interrupt frame. */
  function Align16(a: int): int {
    a - a % 16
  }

  /** The words m and m' agree on addresses [lo, hi). */
  ghost predicate Agree(m: Memory, m': Memory, lo: int, hi: int) {
    forall a :: lo <= a < hi ==> Rd(m', a) == Rd(m, a)
  }

  // Reading the frames that a switched-out task leaves on its stack, from low to high addresses.

  const SAVED_WORDS: nat := 6
  const STUB_WORDS: nat := 20

  /** The six registers that context_switch pushed last. */
  function SavedAt(m: Memory, sp: int): Saved {
    Saved(Rd(m, sp + 40), Rd(m, sp + 32), Rd(m, sp + 24), Rd(m, sp + 16), Rd(m, sp + 8), Rd(m, sp))
  }

  /** The n words that were pushed, in order, down to address sp. */
  function PushedAt(m: Memory, sp: int, n: nat): seq<Word> {
    seq(n, k => Rd(m, sp + 8 * (n - 1 - k)))
  }

  /** The fifteen registers of the IRQ0 stub and the processor's own frame above them. */
  function StubAt(m: Memory, sp: int): Context {
    Context(
      Regs(Rd(m, sp + 112), Rd(m, sp + 104), Rd(m, sp + 96), Rd(m, sp + 88), Rd(m, sp + 80), Rd(m, sp + 72),
           Rd(m, sp + 64), Rd(m, sp + 56), Rd(m, sp + 48), Rd(m, sp + 40), Rd(m, sp + 32), Rd(m, sp + 24),
           Rd(m, sp + 16), Rd(m, sp + 8), Rd(m, sp)),
      Rd(m, sp + 120), Rd(m, sp + 144), Rd(m, sp + 136))
  }

  lemma FramesAgree(m: Memory, m': Memory, sp: int, n: nat, lo: int, hi: int)
    requires Agree(m, m', lo, hi) && lo <= sp
    ensures sp + 48 <= hi ==> SavedAt(m', sp) == SavedAt(m, sp)
    ensures sp + 8 * n <= hi ==> PushedAt(m', sp, n) == PushedAt(m, sp, n)
    ensures sp + 160 <= hi ==> StubAt(m', sp) == StubAt(m, sp)
  {
    if sp + 8 * n <= hi {
      forall k | 0 <= k < n
        ensures PushedAt(m', sp, n)[k] == PushedAt(m, sp, n)[k]
      {
      }
    }
  }

  /** How the compiled sched_tick uses its stack around the call of context_switch, for any compiler that keeps
      section 3.2.1 of the System V AMD64 ABI. The words from the return address into the stub down to the return
      address of context_switch are `activation`; `inner` are the callee-saved registers at the call. When
      context_switch returns with both intact, control comes back to the stub with the activation popped. The
      second argument stands for everything else the code may depend on. */
  datatype Compiled = Compiled(
    resume: Word,
    length: nat,
    activation: (Saved, nat) -> seq<Word>,
    inner: (Saved, nat) -> Saved,
    popped: (seq<Word>, Saved) -> nat)

  ghost predicate Conforms(c: Compiled) {
    c.length >= 1 &&
    forall s: Saved, j: nat ::
      && |c.activation(s, j)| == c.length
      && c.activation(s, j)[c.length - 1] == c.resume
      && c.popped(c.activation(s, j), c.inner(s, j)) == c.length
  }
}
