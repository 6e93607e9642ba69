/** The timer path and task creation, instruction by instruction and statement by statement. */
module Kernel {
  import opened Words
  import opened Cpu
  import opened Sched
  import opened Tasking
  import Blocks
  import Heap
  import Preemption

  const KERNEL_CODE: Word := 0x08
  const KERNEL_DATA: Word := 0x10
  const NO_TASK: nat := 0xFFFFFFFF

  /** Addresses outside [lo, hi) hold the same words in m and m'. */
  ghost predicate OnlyWithin(m: Memory, m': Memory, lo: int, hi: int) {
    forall a :: !(lo <= a < hi) ==> Rd(m', a) == Rd(m, a)
  }

  // The assembly routines, one push or pop after the other. They work on registers and memory alone; the machine
  // below puts their results in place.

  /** The first half of context_switch: pushes the callee-saved registers. */
  method SaveRegisters(s: Saved, m0: Memory, rsp0: int) returns (m: Memory, rsp: int)
    ensures rsp == rsp0 - 48 && SavedAt(m, rsp) == s && OnlyWithin(m0, m, rsp, rsp0)
  {
    m, rsp := m0, rsp0;
    rsp := rsp - 8;
    m := m[rsp := s.rbx];
    rsp := rsp - 8;
    m := m[rsp := s.rbp];
    rsp := rsp - 8;
    m := m[rsp := s.r12];
    rsp := rsp - 8;
    m := m[rsp := s.r13];
    rsp := rsp - 8;
    m := m[rsp := s.r14];
    rsp := rsp - 8;
    m := m[rsp := s.r15];
  }

  /** The second half of context_switch, on the stack switched to: pops the registers and returns. */
  method RestoreRegisters(m: Memory, rsp0: int) returns (s: Saved, rip: Word, rsp: int)
    ensures s == SavedAt(m, rsp0) && rip == Rd(m, rsp0 + 48) && rsp == rsp0 + 56
  {
    rsp := rsp0;
    var r15 := Rd(m, rsp);
    rsp := rsp + 8;
    var r14 := Rd(m, rsp);
    rsp := rsp + 8;
    var r13 := Rd(m, rsp);
    rsp := rsp + 8;
    var r12 := Rd(m, rsp);
    rsp := rsp + 8;
    var rbp := Rd(m, rsp);
    rsp := rsp + 8;
    var rbx := Rd(m, rsp);
    rsp := rsp + 8;
    rip := Rd(m, rsp);
    rsp := rsp + 8;
    s := Saved(rbx, rbp, r12, r13, r14, r15);
  }

  /** The processor's interrupt frame. */
  method PushFrame(c: Context, m0: Memory) returns (m: Memory, rsp: int)
    ensures rsp == Align16(c.rsp) - 40 && OnlyWithin(m0, m, rsp, Align16(c.rsp))
    ensures Rd(m, rsp) == c.rip && Rd(m, rsp + 16) == c.rflags && Rd(m, rsp + 24) == c.rsp
  {
    m, rsp := m0, Align16(c.rsp);
    rsp := rsp - 8;
    m := m[rsp := KERNEL_DATA];
    rsp := rsp - 8;
    m := m[rsp := c.rsp];
    rsp := rsp - 8;
    m := m[rsp := c.rflags];
    rsp := rsp - 8;
    m := m[rsp := KERNEL_CODE];
    rsp := rsp - 8;
    m := m[rsp := c.rip];
  }

  /** The head of irq_stub_0: pushes all general registers. */
  method PushAll(r: Regs, m0: Memory, rsp0: int) returns (m: Memory, rsp: int)
    ensures rsp == rsp0 - 120 && StubAt(m, rsp).regs == r && OnlyWithin(m0, m, rsp, rsp0)
  {
    m, rsp := PushOld(r, m0, rsp0);
    m, rsp := PushNew(r, m, rsp);
  }

  /** The registers rax to rdi, rbp and r8. */
  method PushOld(r: Regs, m0: Memory, rsp0: int) returns (m: Memory, rsp: int)
    ensures rsp == rsp0 - 64 && OnlyWithin(m0, m, rsp, rsp0)
    ensures Rd(m, rsp + 56) == r.rax && Rd(m, rsp + 48) == r.rbx && Rd(m, rsp + 40) == r.rcx && Rd(m, rsp + 32) == r.rdx
    ensures Rd(m, rsp + 24) == r.rsi && Rd(m, rsp + 16) == r.rdi && Rd(m, rsp + 8) == r.rbp && Rd(m, rsp) == r.r8
  {
    m, rsp := m0, rsp0;
    rsp := rsp - 8;
    m := m[rsp := r.rax];
    rsp := rsp - 8;
    m := m[rsp := r.rbx];
    rsp := rsp - 8;
    m := m[rsp := r.rcx];
    rsp := rsp - 8;
    m := m[rsp := r.rdx];
    rsp := rsp - 8;
    m := m[rsp := r.rsi];
    rsp := rsp - 8;
    m := m[rsp := r.rdi];
    rsp := rsp - 8;
    m := m[rsp := r.rbp];
    rsp := rsp - 8;
    m := m[rsp := r.r8];
  }

  /** The registers r9 to r15. */
  method PushNew(r: Regs, m0: Memory, rsp0: int) returns (m: Memory, rsp: int)
    ensures rsp == rsp0 - 56 && OnlyWithin(m0, m, rsp, rsp0)
    ensures Rd(m, rsp + 48) == r.r9 && Rd(m, rsp + 40) == r.r10 && Rd(m, rsp + 32) == r.r11 && Rd(m, rsp + 24) == r.r12
    ensures Rd(m, rsp + 16) == r.r13 && Rd(m, rsp + 8) == r.r14 && Rd(m, rsp) == r.r15
  {
    m, rsp := m0, rsp0;
    rsp := rsp - 8;
    m := m[rsp := r.r9];
    rsp := rsp - 8;
    m := m[rsp := r.r10];
    rsp := rsp - 8;
    m := m[rsp := r.r11];
    rsp := rsp - 8;
    m := m[rsp := r.r12];
    rsp := rsp - 8;
    m := m[rsp := r.r13];
    rsp := rsp - 8;
    m := m[rsp := r.r14];
    rsp := rsp - 8;
    m := m[rsp := r.r15];
  }

  /** The tail of irq_stub_0: pops all general registers and returns from the interrupt. */
  method PopAll(m: Memory, rsp0: int) returns (c: Context)
    ensures c == StubAt(m, rsp0)
  {
    var rsp := rsp0;
    var r15 := Rd(m, rsp);
    rsp := rsp + 8;
    var r14 := Rd(m, rsp);
    rsp := rsp + 8;
    var r13 := Rd(m, rsp);
    rsp := rsp + 8;
    var r12 := Rd(m, rsp);
    rsp := rsp + 8;
    var r11 := Rd(m, rsp);
    rsp := rsp + 8;
    var r10 := Rd(m, rsp);
    rsp := rsp + 8;
    var r9 := Rd(m, rsp);
    rsp := rsp + 8;
    var r8 := Rd(m, rsp);
    rsp := rsp + 8;
    var rbp := Rd(m, rsp);
    rsp := rsp + 8;
    var rdi := Rd(m, rsp);
    rsp := rsp + 8;
    var rsi := Rd(m, rsp);
    rsp := rsp + 8;
    var rdx := Rd(m, rsp);
    rsp := rsp + 8;
    var rcx := Rd(m, rsp);
    rsp := rsp + 8;
    var rbx := Rd(m, rsp);
    rsp := rsp + 8;
    var rax := Rd(m, rsp);
    rsp := rsp + 8;
    var rip, rflags, interrupted := Rd(m, rsp), Rd(m, rsp + 16), Rd(m, rsp + 24);
    c := Context(Regs(rax, rbx, rcx, rdx, rsi, rdi, rbp, r8, r9, r10, r11, r12, r13, r14, r15), rip, interrupted, rflags);
  }

  /** Pushes the words that the compiled sched_tick keeps on the stack around its call of context_switch. */
  method PushWords(ws: seq<Word>, m0: Memory, rsp0: int) returns (m: Memory, rsp: int)
    ensures rsp == rsp0 - 8 * |ws| && PushedAt(m, rsp, |ws|) == ws && OnlyWithin(m0, m, rsp, rsp0)
  {
    m, rsp := m0, rsp0;
    for i := 0 to |ws|
      invariant rsp == rsp0 - 8 * i && OnlyWithin(m0, m, rsp, rsp0)
      invariant forall k :: 0 <= k < i ==> Rd(m, rsp0 - 8 * (k + 1)) == ws[k]
    {
      rsp := rsp - 8;
      m := m[rsp := ws[i]];
    }
  }

  /** From the interrupted instruction to the call of sched_tick: the processor's frame, the stub's, and what the
      handlers the stub calls leave below. */
  method EnterStub(c: Context, m0: Memory, scratch: Memory, depth: nat) returns (m: Memory, rsp: int)
    requires depth >= 160
    requires forall a :: a in scratch ==> Align16(c.rsp) - depth <= a < Align16(c.rsp) - 160
    ensures rsp == Align16(c.rsp) - 160 && StubAt(m, rsp) == c
    ensures OnlyWithin(m0, m, Align16(c.rsp) - depth, Align16(c.rsp))
  {
    hide StubAt;
    m, rsp := PushFrame(c, m0);
    ghost var m1 := m;
    m, rsp := PushAll(c.regs, m, rsp);
    StubBuilt(m1, m, c);
    ghost var m2 := m;
    m := m + scratch;
    Overlaid(m2, scratch, Align16(c.rsp) - depth, rsp);
    StubKept(m2, m, rsp);
  }

  /** From the start of sched_tick's switching path to the change of stacks in context_switch. */
  method LeaveFrame(cfg: Config, regs: Regs, j: nat, m0: Memory, rsp0: int) returns (m: Memory, rsp: int)
    requires Conforms(cfg.compiled)
    ensures rsp == rsp0 - 8 * (SAVED_WORDS + cfg.compiled.length)
    ensures SavedAt(m, rsp) == cfg.compiled.inner(SavedOf(regs), j)
    ensures PushedAt(m, rsp + 48, cfg.compiled.length) == cfg.compiled.activation(SavedOf(regs), j)
    ensures OnlyWithin(m0, m, rsp, rsp0)
  {
    var saved := SavedOf(regs);
    m, rsp := PushWords(cfg.compiled.activation(saved, j), m0, rsp0);
    ghost var m1 := m;
    m, rsp := SaveRegisters(cfg.compiled.inner(saved, j), m, rsp);
    PushedKept(m1, m, rsp + 48, cfg.compiled.length);
  }

  lemma PushedKept(m: Memory, m': Memory, sp: int, n: nat)
    requires forall a :: sp <= a < sp + 8 * n ==> Rd(m', a) == Rd(m, a)
    ensures PushedAt(m', sp, n) == PushedAt(m, sp, n)
  {
    FramesAgree(m, m', sp, n, sp, sp + 8 * n);
  }

  /** From the change of stacks to the next instruction of the task switched to. */
  method Continue(cfg: Config, m: Memory, sp: int, others: Regs, rflags: Word) returns (c: Context)
    requires 0 <= sp && sp + 56 < TWO_64
    ensures c == Resumed(cfg, m, sp, others, rflags)
  {
    var saved, rip, rsp := RestoreRegisters(m, sp);
    if rip == cfg.compiled.resume {
      // Back in the compiled sched_tick, which pops its activation and returns to the stub.
      c := PopAll(m, rsp - 8 + 8 * cfg.compiled.popped(PushedAt(m, rsp - 8, cfg.compiled.length), saved));
    } else {
      c := Context(WithSaved(others, saved), rip, rsp, rflags);
    }
  }

  /** zero_mem, on whole words. */
  method ZeroWords(m0: Memory, lo: int, n: nat) returns (m: Memory)
    ensures OnlyWithin(m0, m, lo, lo + 8 * n)
    ensures forall k :: 0 <= k < n ==> Rd(m, lo + 8 * k) == 0
  {
    m := m0;
    for i := 0 to n
      invariant OnlyWithin(m0, m, lo, lo + 8 * i)
      invariant forall k :: 0 <= k < i ==> Rd(m, lo + 8 * k) == 0
    {
      m := m[lo + 8 * i := 0];
    }
  }

  /** Zeroes a new stack and pushes the entry function and six zero registers. */
  method SeedStack(m0: Memory, base: nat, entry: Word) returns (m: Memory, sp: nat)
    ensures sp == base + STACK_SIZE - 56 && Seeded(m, base, entry)
    ensures OnlyWithin(m0, m, base, base + STACK_SIZE)
    ensures forall k :: 0 <= k < (STACK_SIZE - 56) / 8 ==> Rd(m, base + 8 * k) == 0
  {
    m := ZeroWords(m0, base, STACK_SIZE / 8);
    sp := base + STACK_SIZE;
    sp := sp - 8;
    m := m[sp as int := entry];
    sp := sp - 8;
    m := m[sp as int := 0];
    sp := sp - 8;
    m := m[sp as int := 0];
    sp := sp - 8;
    m := m[sp as int := 0];
    sp := sp - 8;
    m := m[sp as int := 0];
    sp := sp - 8;
    m := m[sp as int := 0];
    sp := sp - 8;
    m := m[sp as int := 0];
  }

  lemma StubBuilt(m1: Memory, m2: Memory, c: Context)
    requires var top := Align16(c.rsp);
             && OnlyWithin(m1, m2, top - 160, top - 40) && StubAt(m2, top - 160).regs == c.regs
             && Rd(m1, top - 40) == c.rip && Rd(m1, top - 24) == c.rflags && Rd(m1, top - 16) == c.rsp
    ensures StubAt(m2, Align16(c.rsp) - 160) == c
  {
  }

  lemma StubKept(m: Memory, m': Memory, sp: int)
    requires forall a :: sp <= a < sp + 160 ==> Rd(m', a) == Rd(m, a)
    ensures StubAt(m', sp) == StubAt(m, sp)
  {
  }

  lemma Overlaid(m: Memory, scratch: Memory, lo: int, hi: int)
    requires forall a :: a in scratch ==> lo <= a < hi
    ensures OnlyWithin(m, m + scratch, lo, hi)
  {
  }

  class Machine {
    const cfg: Config
    var cpu: Context
    var mem: Memory
    const tasks: array<Task>
    var count: nat
    var current: nat
    var ticks: nat
    const heap: Heap.KernelHeap

    ghost predicate Valid()
      reads this, tasks, heap, heap.mem
    {
      tasks.Length == MAX_TASKS && count <= MAX_TASKS && heap.Valid()
    }

    ghost function Scheduling(): Scheduler
      requires tasks.Length == MAX_TASKS && count <= MAX_TASKS
      reads this, tasks
    {
      Scheduler(tasks[..count], current, ticks)
    }

    ghost function View(): System
      requires tasks.Length == MAX_TASKS && count <= MAX_TASKS
      reads this, tasks, heap
    {
      System(cpu, mem, Scheduling(), heap.blocks)
    }

    /** sched_init: the booting context becomes task 0. */
    constructor (cfg: Config, cpu: Context, mem: Memory, heap: Heap.KernelHeap)
      requires heap.Valid()
      ensures Valid() && fresh(tasks) && this.heap == heap && this.cfg == cfg
      ensures View() == System(cpu, mem, Scheduler([Task(0, RUNNING, 0, 0)], 0, 0), heap.blocks)
    {
      this.cfg, this.cpu, this.mem, this.heap := cfg, cpu, mem, heap;
      tasks := new Task[MAX_TASKS](_ => Task(0, READY, 0, 0));
      count, current, ticks := 1, 0, 0;
      new;
      tasks[0] := Task(0, RUNNING, 0, 0);
    }

    // The scheduler.

    /** The search loop of sched_tick. */
    method Search() returns (next: nat)
      requires tasks.Length == MAX_TASKS && count <= MAX_TASKS && current < count
      ensures next == Choice(tasks[..count], current) && next < count
    {
      NextModulo(current, count);
      next := (current + 1) % count;
      var i := 0;
      while i < count && tasks[next].state != READY
        invariant 0 <= i <= count && next < count && next == After(current, i + 1, count)
        invariant forall e :: 1 <= e <= i ==> !IsReady(tasks[..count], After(current, e, count))
      {
        NextModulo(next, count);
        next := (next + 1) % count;
        i := i + 1;
      }
      ChoiceReached(tasks[..count], current, i + 1);
    }

    /** sched_tick up to the call of context_switch; switching tells whether that call is reached. */
    method Decide() returns (switching: bool, prev: nat)
      requires tasks.Length == MAX_TASKS && count <= MAX_TASKS && current < count
      modifies this`current, this`ticks, tasks
      ensures Scheduling() == Tick(old(Scheduling()))
      ensures prev == old(current) && (switching <==> current != prev)
    {
      hide Choice, ReadyDistance;
      prev := current;
      ghost var s := Scheduling();
      ticks := (ticks + 1) % TWO_32;
      if ticks % SCHED_SLICE != 0 || count <= 1 {
        return false, prev;
      }
      if tasks[current].state == RUNNING {
        tasks[current] := tasks[current].(state := READY);
      }
      ghost var demoted := tasks[..count];
      assert demoted == Demote(s.tasks, s.current);
      var next := Search();
      tasks[next] := tasks[next].(state := RUNNING);
      current := next;
      assert tasks[..count] == SetState(demoted, next, RUNNING);
      return next != prev, prev;
    }

    /** One timer interrupt: the processor and the stub save the interrupted task, the handlers and sched_tick use
        the stack below, and control returns to this task or to another one. `others` holds what the compiled code
        leaves in the registers it may clobber, `scratch` what it leaves on the stack, and j stands for whatever else
        its stack use depends on. */
    method TimerInterrupt(others: Regs, scratch: Memory, j: nat)
      requires Valid() && Reasonable(cfg) && Invariant(cfg, View()) && InterruptsOn(cpu.rflags)
      requires forall a :: a in scratch ==> Align16(cpu.rsp) - cfg.depth <= a < Align16(cpu.rsp) - 8 * STUB_WORDS
      modifies this, tasks
      ensures Valid() && TimerNext(cfg, old(View()), others, j, View())
    {
      ghost var s, m0 := View(), mem;
      TimerFacts(cfg, s);
      hide Invariant, Reasonable, Tick, StubAt, SavedAt, PushedAt, Resumed, Interrupted, Intact;
      hide OnlyWithin, TimerNext, Conforms;
      var m, rsp := EnterStub(cpu, mem, scratch, cfg.depth);
      var switching, prev := Decide();
      if !switching {
        cpu := PopAll(m, rsp);
        mem := m;
        Stayed(cfg, s, others, j, View());
      } else {
        SwitchTask(prev, others, j, m, rsp, s);
      }
    }

    /** The switching end of sched_tick, with memory m and stack pointer rsp as it finds them. */
    method SwitchTask(prev: nat, others: Regs, j: nat, m: Memory, rsp: int, ghost s: System)
      requires tasks.Length == MAX_TASKS && count <= MAX_TASKS && prev < count && current < count && current != prev
      requires cpu == s.cpu && heap.blocks == s.heap && prev == s.sched.current && |s.sched.tasks| == count
      requires Scheduling() == Tick(s.sched)
      requires InterruptsOn(cpu.rflags) && Conforms(cfg.compiled) && 8 * FrameWords(cfg) <= cfg.depth
      requires Align16(cpu.rsp) - cfg.depth >= 0 && Resumable(cfg, s, current)
      requires tasks[current].rsp == s.sched.tasks[current].rsp
      requires rsp == Align16(cpu.rsp) - 160 && StubAt(m, rsp) == cpu
      requires OnlyWithin(s.mem, m, Align16(cpu.rsp) - cfg.depth, Align16(cpu.rsp))
      modifies this`cpu, this`mem, tasks
      ensures TimerNext(cfg, s, others, j, View())
    {
      hide Tick, StubAt, SavedAt, PushedAt, Resumed, OnlyWithin, TimerNext, Conforms;
      ghost var t := Scheduling();
      var m', rsp' := LeaveFrame(cfg, cpu.regs, j, m, rsp);
      var sp := tasks[current].rsp;
      tasks[prev] := tasks[prev].(rsp := rsp');
      assert tasks[..count] == t.tasks[prev := t.tasks[prev].(rsp := rsp')];
      cpu := Continue(cfg, m', sp, others, InterruptsOff(cpu.rflags));
      mem := m';
      Switched(cfg, s, m, others, j, View());
    }

    /** setup_initial_stack, for the slot of the task being created: a zeroed stack from the heap that ends in the
        entry function above six zero registers. */
    method SetupInitialStack(entry: Word)
      requires Valid() && count < MAX_TASKS
      modifies this`mem, tasks, heap, heap.mem
      ensures Valid()
      ensures var (blocks, base) := Blocks.Malloc(old(heap.blocks), STACK_SIZE);
              && heap.blocks == blocks
              && tasks[..] == old(tasks[..])[count := tasks[count]] && tasks[count].stackBase == base
              && tasks[count].id == old(tasks[count].id) && tasks[count].state == old(tasks[count].state)
              && (base == 0 ==> mem == old(mem))
              && (base != 0 ==>
                    && tasks[count].rsp == base + STACK_SIZE - 56 && Seeded(mem, base, entry)
                    && OnlyWithin(old(mem), mem, base, base + STACK_SIZE)
                    && forall k :: 0 <= k < (STACK_SIZE - 56) / 8 ==> Rd(mem, base + 8 * k) == 0)
    {
      hide Blocks.Malloc;
      var base := heap.Kmalloc(STACK_SIZE);
      tasks[count] := tasks[count].(stackBase := base);
      if base == 0 {
        return;
      }
      var m, sp := SeedStack(mem, base, entry);
      tasks[count] := tasks[count].(rsp := sp);
      mem := m;
    }

    /** sched_create_task: makes a new task ready, or creates nothing when there is no free slot or no memory. No stack
        of another task is touched. */
    method CreateTask(entry: Word) returns (id: nat)
      requires Valid() && Reasonable(cfg) && Invariant(cfg, View())
      modifies this`mem, this`count, tasks, heap, heap.mem
      ensures Valid() && SpawnNext(cfg, old(View()), entry, View())
      ensures StacksPrivate(cfg, old(View()), mem)
      ensures id == if count == old(count) then 0xFFFF_FFFF else old(count)
      ensures count == old(count) <==> old(count) >= 16 || Blocks.Malloc(old(heap.blocks), 16384).1 == 0
      ensures count != old(count) ==> HoldsStack(heap.blocks, tasks[old(count)].stackBase)
    {
      hide Blocks.Malloc, Invariant, Reasonable, Seeded, StacksPrivate, OnlyWithin, Heap.KernelHeap.Valid;
      ghost var s := View();
      if count >= MAX_TASKS {
        NothingTouched(cfg, s);
        return NO_TASK;
      }
      tasks[count] := tasks[count].(id := count, state := READY);
      assert tasks[..count] == s.sched.tasks;
      SetupInitialStack(entry);
      assert tasks[..count] == s.sched.tasks;
      if tasks[count].stackBase == 0 {
        NothingTouched(cfg, s);
        return NO_TASK;
      }
      SpawnPrivate(cfg, s, mem);
      count := count + 1;
      assert tasks[..count] == s.sched.tasks + [tasks[count - 1]];
      return count - 1;
    }
  }

  lemma NothingTouched(cfg: Config, s: System)
    requires Invariant(cfg, s)
    ensures s.sched.current < |s.sched.tasks| && StacksPrivate(cfg, s, s.mem)
  {
  }

  /** A new stack lies apart from all stacks there are. */
  lemma SpawnPrivate(cfg: Config, s: System, m': Memory)
    requires Reasonable(cfg) && Invariant(cfg, s)
    requires var base := Blocks.Malloc(s.heap, STACK_SIZE).1;
             base != 0 && OnlyWithin(s.mem, m', base, base + STACK_SIZE)
    ensures StacksPrivate(cfg, s, m')
    ensures var (heap', base) := Blocks.Malloc(s.heap, STACK_SIZE); HoldsStack(heap', base)
  {
    var (heap', base) := Blocks.Malloc(s.heap, STACK_SIZE);
    var ts, n := s.sched.tasks, |s.sched.tasks|;
    var ts' := ts + [Task(n, READY, base, base + STACK_SIZE - 56)];
    Preemption.AllocateKeepsStacks(s.heap, cfg.pool, cfg.pool + Blocks.POOL_SIZE, ts, STACK_SIZE);
    Preemption.NewStackHeld(heap', ts, ts'[n]);
    forall i | 0 <= i < n && i != s.sched.current
      ensures StackKept(cfg, s, m', i)
    {
      StacksDisjoint(cfg, heap', ts', i, n);
    }
  }

  /** A timer interrupt that ends in the same task. */
  lemma Stayed(cfg: Config, s: System, others: Regs, j: nat, s': System)
    requires s.sched.current < |s.sched.tasks| && InterruptsOn(s.cpu.rflags)
    requires s'.heap == s.heap && s'.sched == Tick(s.sched) && Tick(s.sched).current == s.sched.current
    requires s'.cpu == s.cpu && OnlyWithin(s.mem, s'.mem, Align16(s.cpu.rsp) - cfg.depth, Align16(s.cpu.rsp))
    ensures TimerNext(cfg, s, others, j, s')
  {
  }

  /** A timer interrupt that switches: m is the memory when sched_tick is called. */
  lemma Switched(cfg: Config, s: System, m: Memory, others: Regs, j: nat, s': System)
    requires s.sched.current < |s.sched.tasks| && InterruptsOn(s.cpu.rflags) && 8 * FrameWords(cfg) <= cfg.depth
    requires Align16(s.cpu.rsp) - cfg.depth >= 0
    requires s'.heap == s.heap && Tick(s.sched).current != s.sched.current
    requires Resumable(cfg, s, Tick(s.sched).current) && |Tick(s.sched).tasks| == |s.sched.tasks|
    requires var top, sp := Align16(s.cpu.rsp), FrameBase(cfg, s.cpu.rsp);
             && sp >= 0 && s'.sched == SwitchOut(s.sched, sp)
             && StubAt(m, top - 160) == s.cpu
             && OnlyWithin(s.mem, m, top - cfg.depth, top)
             && OnlyWithin(m, s'.mem, sp, top - 160)
             && SavedAt(s'.mem, sp) == cfg.compiled.inner(SavedOf(s.cpu.regs), j)
             && PushedAt(s'.mem, sp + 48, cfg.compiled.length) == cfg.compiled.activation(SavedOf(s.cpu.regs), j)
    requires s'.cpu == Resumed(cfg, s'.mem, s.sched.tasks[Tick(s.sched).current].rsp, others, InterruptsOff(s.cpu.rflags))
    ensures TimerNext(cfg, s, others, j, s')
  {
    hide StubAt, SavedAt, PushedAt, Resumed, Tick;
    StubKept(m, s'.mem, Align16(s.cpu.rsp) - 160);
  }

  /** What the invariant says about the stack pointers involved in a timer interrupt. */
  lemma TimerFacts(cfg: Config, s: System)
    requires Reasonable(cfg) && Invariant(cfg, s)
    ensures s.sched.current < |s.sched.tasks| && 8 * FrameWords(cfg) <= cfg.depth
    ensures Align16(s.cpu.rsp) - cfg.depth >= 0
    ensures var t := Tick(s.sched);
            && t.current < |t.tasks| == |s.sched.tasks|
            && forall i :: 0 <= i < |s.sched.tasks| ==> t.tasks[i].rsp == s.sched.tasks[i].rsp
    ensures var next := Tick(s.sched).current;
            next != s.sched.current ==> Resumable(cfg, s, next)
  {
    TickSound(s.sched);
    var next := Tick(s.sched).current;
    if next != s.sched.current {
      assert Parked(cfg, s, next);
    }
  }

  predicate Resumable(cfg: Config, s: System, i: nat) {
    i < |s.sched.tasks| && s.sched.tasks[i].rsp + 56 < TWO_64
  }

  /** The search stops at the first ready task, or after going all the way round. */
  lemma ChoiceReached(ts: seq<Task>, cur: nat, d: nat)
    requires cur < |ts| && 1 <= d <= |ts| + 1
    requires forall e :: 1 <= e < d ==> !IsReady(ts, After(cur, e, |ts|))
    requires d == |ts| + 1 || IsReady(ts, After(cur, d, |ts|))
    ensures Choice(ts, cur) == After(cur, d, |ts|)
  {
    var r := ReadyDistance(ts, cur, 1);
    assert r == d;
  }
}
