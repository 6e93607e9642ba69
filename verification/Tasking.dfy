/** The running system as a state machine: tasks work, the timer preempts them, new tasks are created. */
module Tasking {
  import opened Words
  import opened Cpu
  import opened Sched
  import Blocks

  const STACK_SIZE: nat := 16384

  /** What stays fixed while the system runs: the compiled scheduler, how many bytes below the aligned stack
      pointer an interrupt may use, the boot stack, and the address of the heap's pool. */
  datatype Config = Config(compiled: Compiled, depth: nat, bootLo: nat, bootHi: nat, pool: nat)

  datatype System = System(cpu: Context, mem: Memory, sched: Scheduler, heap: seq<Blocks.Block>)

  ghost predicate Reasonable(cfg: Config) {
    && Conforms(cfg.compiled)
    && 8 * FrameWords(cfg) <= cfg.depth && cfg.depth + 16 <= STACK_SIZE
    && cfg.bootLo + cfg.depth + 16 <= cfg.bootHi < TWO_64
    && cfg.pool % 8 == 0 && cfg.pool + Blocks.POOL_SIZE < TWO_64
    && (cfg.bootHi <= cfg.pool || cfg.pool + Blocks.POOL_SIZE <= cfg.bootLo)
  }

  /** Words an interrupted task has on its stack while it is switched out. */
  function FrameWords(cfg: Config): nat {
    SAVED_WORDS + cfg.compiled.length + STUB_WORDS
  }

  // Stacks.

  function StackLo(cfg: Config, ts: seq<Task>, i: nat): nat
    requires i < |ts|
  {
    if i == 0 then cfg.bootLo else ts[i].stackBase
  }

  function StackHi(cfg: Config, ts: seq<Task>, i: nat): nat
    requires i < |ts|
  {
    if i == 0 then cfg.bootHi else ts[i].stackBase + STACK_SIZE
  }

  /** Some live heap block of at least 16 KB has its payload at ptr. */
  ghost predicate HoldsStack(heap: seq<Blocks.Block>, ptr: nat) {
    exists b :: b in Blocks.Live(heap) && b.Payload() == ptr && b.size >= STACK_SIZE
  }

  /** Every created task has a heap block of its own for its stack. */
  ghost predicate StacksHeld(heap: seq<Blocks.Block>, ts: seq<Task>) {
    && (forall i :: 1 <= i < |ts| ==> HoldsStack(heap, ts[i].stackBase))
    && (forall i, j :: 1 <= i < j < |ts| ==> ts[i].stackBase != ts[j].stackBase)
  }

  // Switched-out tasks.

  predicate Interrupted(cfg: Config, m: Memory, sp: int) {
    Rd(m, sp + 48) == cfg.compiled.resume
  }

  function StubAddress(cfg: Config, sp: int): int {
    sp + 48 + 8 * cfg.compiled.length
  }

  /** The code context_switch returns to finds its activation and registers as it left them. */
  predicate Intact(cfg: Config, m: Memory, sp: int) {
    cfg.compiled.popped(PushedAt(m, sp + 48, cfg.compiled.length), SavedAt(m, sp)) == cfg.compiled.length
  }

  /** The processor state after the switch to a task whose saved stack pointer is sp: either control runs back
      through the scheduler and the stub into the interrupted code, or `ret` enters a task function. The other
      registers and the flags are then still those of the task switched from. */
  function Resumed(cfg: Config, m: Memory, sp: int, others: Regs, rflags: Word): Context
    requires 0 <= sp && sp + 56 < TWO_64
  {
    if Interrupted(cfg, m, sp) then
      StubAt(m, sp + 48 + 8 * cfg.compiled.popped(PushedAt(m, sp + 48, cfg.compiled.length), SavedAt(m, sp)))
    else
      Context(WithSaved(others, SavedAt(m, sp)), Rd(m, sp + 48), sp + 56, rflags)
  }

  /** The running task leaves an interrupt enough room on its stack. */
  predicate HasRoom(cfg: Config, rsp: int, lo: int, hi: int) {
    lo + cfg.depth + 15 <= rsp <= hi
  }

  /** A switched-out task whose frame lies intact within its stack [lo, hi). */
  predicate Suspended(cfg: Config, m: Memory, sp: int, lo: int, hi: int) {
    && lo <= sp && hi < TWO_64
    && if Interrupted(cfg, m, sp) then
         && Intact(cfg, m, sp)
         && HasRoom(cfg, StubAt(m, StubAddress(cfg, sp)).rsp, lo, hi)
         && sp + 8 * FrameWords(cfg) <= StubAt(m, StubAddress(cfg, sp)).rsp
       else sp + 56 == hi
  }

  ghost predicate Invariant(cfg: Config, s: System) {
    && Sound(s.sched)
    && Blocks.WellFormed(s.heap, cfg.pool, cfg.pool + Blocks.POOL_SIZE)
    && StacksHeld(s.heap, s.sched.tasks)
    && HasRoom(cfg, s.cpu.rsp, StackLo(cfg, s.sched.tasks, s.sched.current), StackHi(cfg, s.sched.tasks, s.sched.current))
    && forall i :: 0 <= i < |s.sched.tasks| && i != s.sched.current ==> Parked(cfg, s, i)
  }

  predicate Parked(cfg: Config, s: System, i: nat)
    requires i < |s.sched.tasks|
  {
    Suspended(cfg, s.mem, s.sched.tasks[i].rsp, StackLo(cfg, s.sched.tasks, i), StackHi(cfg, s.sched.tasks, i))
  }

  // Steps.

  datatype Action =
    | Work
    | HeapCall(op: Call)
    | Timer(others: Regs, j: nat)
    | Spawn(entry: Word)

  datatype Call = Allocate(size: nat) | Release(ptr: nat)

  /** Only the running task's stack and memory outside all stacks may change. */
  ghost predicate StacksPrivate(cfg: Config, s: System, m': Memory)
    requires s.sched.current < |s.sched.tasks|
  {
    forall i :: 0 <= i < |s.sched.tasks| && i != s.sched.current ==> StackKept(cfg, s, m', i)
  }

  ghost predicate StackKept(cfg: Config, s: System, m': Memory, i: nat)
    requires i < |s.sched.tasks|
  {
    Agree(s.mem, m', StackLo(cfg, s.sched.tasks, i), StackHi(cfg, s.sched.tasks, i))
  }

  /** What code of the running task may do to registers and memory. */
  ghost predicate TaskCode(cfg: Config, s: System, s': System)
    requires s.sched.current < |s.sched.tasks|
  {
    && StacksPrivate(cfg, s, s'.mem)
    && HasRoom(cfg, s'.cpu.rsp, StackLo(cfg, s.sched.tasks, s.sched.current), StackHi(cfg, s.sched.tasks, s.sched.current))
  }

  predicate IsStack(ts: seq<Task>, ptr: nat) {
    exists i :: 1 <= i < |ts| && ts[i].stackBase == ptr
  }

  /** A task calls kmalloc or kfree; it does not free a stack. */
  ghost predicate HeapNext(s: System, op: Call, s': System) {
    match op
    case Allocate(size) => s'.heap == Blocks.Malloc(s.heap, size).0
    case Release(ptr) => !IsStack(s.sched.tasks, ptr) && s'.heap == Blocks.Free(s.heap, ptr)
  }

  /** The running task calls sched_create_task. */
  ghost predicate SpawnNext(cfg: Config, s: System, entry: Word, s': System) {
    var (heap', base) := Blocks.Malloc(s.heap, STACK_SIZE);
    if |s.sched.tasks| >= MAX_TASKS then s'.sched == s.sched && s'.heap == s.heap
    else if base == 0 then s'.sched == s.sched && s'.heap == heap'
    else
      && s'.sched == Create(s.sched, base, base + STACK_SIZE - 56)
      && s'.heap == heap'
      && Seeded(s'.mem, base, entry)
  }

  /** A new stack: the entry function above six zero registers, at its very top. */
  predicate Seeded(m: Memory, base: nat, entry: Word) {
    Rd(m, base + STACK_SIZE - 8) == entry && SavedAt(m, base + STACK_SIZE - 56) == Saved(0, 0, 0, 0, 0, 0)
  }

  /** Where the frame of a task interrupted at rsp starts. */
  function FrameBase(cfg: Config, rsp: int): int {
    Align16(rsp) - 8 * FrameWords(cfg)
  }

  /** The complete frame of a task interrupted in context ctx. */
  ghost predicate FrameOf(cfg: Config, m: Memory, sp: int, ctx: Context, j: nat) {
    && SavedAt(m, sp) == cfg.compiled.inner(SavedOf(ctx.regs), j)
    && PushedAt(m, sp + 48, cfg.compiled.length) == cfg.compiled.activation(SavedOf(ctx.regs), j)
    && StubAt(m, StubAddress(cfg, sp)) == ctx
  }

  /** The running task's stack pointer is stored in its task structure when it is switched out. */
  function SwitchOut(s: Scheduler, sp: nat): Scheduler
    requires s.current < |s.tasks|
  {
    var t := Tick(s);
    t.(tasks := t.tasks[s.current := t.tasks[s.current].(rsp := sp)])
  }

  /** One timer interrupt, from the interrupted instruction to the next instruction of whichever task runs then. */
  ghost predicate TimerNext(cfg: Config, s: System, others: Regs, j: nat, s': System)
    requires s.sched.current < |s.sched.tasks|
  {
    var top, sp, next := Align16(s.cpu.rsp), FrameBase(cfg, s.cpu.rsp), Tick(s.sched).current;
    && InterruptsOn(s.cpu.rflags) && s'.heap == s.heap
    && (forall a :: !(top - cfg.depth <= a < top) ==> Rd(s'.mem, a) == Rd(s.mem, a))
    && if next == s.sched.current then
         s'.sched == Tick(s.sched) && s'.cpu == s.cpu
       else
         && sp >= 0 && s'.sched == SwitchOut(s.sched, sp)
         && FrameOf(cfg, s'.mem, sp, s.cpu, j)
         && next < |s.sched.tasks| && s.sched.tasks[next].rsp + 56 < TWO_64
         && s'.cpu == Resumed(cfg, s'.mem, s.sched.tasks[next].rsp, others, InterruptsOff(s.cpu.rflags))
  }

  ghost predicate Next(cfg: Config, s: System, a: Action, s': System)
    requires s.sched.current < |s.sched.tasks|
  {
    match a
    case Work => TaskCode(cfg, s, s') && s'.sched == s.sched && s'.heap == s.heap
    case HeapCall(op) => TaskCode(cfg, s, s') && s'.sched == s.sched && HeapNext(s, op, s')
    case Timer(others, j) => TimerNext(cfg, s, others, j, s')
    case Spawn(entry) => TaskCode(cfg, s, s') && entry != cfg.compiled.resume && SpawnNext(cfg, s, entry, s')
  }

  // Stacks are disjoint because heap payloads are.

  lemma StacksDisjoint(cfg: Config, heap: seq<Blocks.Block>, ts: seq<Task>, i: nat, j: nat)
    requires Reasonable(cfg) && Blocks.Tiles(heap, cfg.pool, cfg.pool + Blocks.POOL_SIZE) && StacksHeld(heap, ts)
    requires i < |ts| && j < |ts| && i != j
    ensures StackHi(cfg, ts, i) <= StackLo(cfg, ts, j) || StackHi(cfg, ts, j) <= StackLo(cfg, ts, i)
    ensures StackHi(cfg, ts, i) < TWO_64
  {
    if i > 0 {
      StackInPool(cfg, heap, ts[i].stackBase);
    }
    if j > 0 {
      StackInPool(cfg, heap, ts[j].stackBase);
    }
    if i > 0 && j > 0 {
      assert ts[i].stackBase != ts[j].stackBase;
      PayloadsDisjoint(heap, cfg.pool, cfg.pool + Blocks.POOL_SIZE, ts[i].stackBase, ts[j].stackBase);
    }
  }

  lemma PayloadsDisjoint(heap: seq<Blocks.Block>, lo: nat, hi: nat, p: nat, q: nat)
    requires Blocks.Tiles(heap, lo, hi) && HoldsStack(heap, p) && HoldsStack(heap, q) && p != q
    ensures p + STACK_SIZE <= q || q + STACK_SIZE <= p
  {
    Blocks.Partition(heap, lo, hi, lo);
    var b :| b in Blocks.Live(heap) && b.Payload() == p && b.size >= STACK_SIZE;
    var c :| c in Blocks.Live(heap) && c.Payload() == q && c.size >= STACK_SIZE;
  }

  lemma StackInPool(cfg: Config, heap: seq<Blocks.Block>, ptr: nat)
    requires Blocks.Tiles(heap, cfg.pool, cfg.pool + Blocks.POOL_SIZE) && HoldsStack(heap, ptr)
    ensures cfg.pool <= ptr && ptr + STACK_SIZE <= cfg.pool + Blocks.POOL_SIZE
  {
    var b :| b in Blocks.Live(heap) && b.Payload() == ptr && b.size >= STACK_SIZE;
    var k :| 0 <= k < |heap| && heap[k] == b;
    Blocks.TilesAt(heap, cfg.pool, cfg.pool + Blocks.POOL_SIZE, k);
  }
}
