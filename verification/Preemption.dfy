/** Preemption is transparent: over whole runs a task that is switched out continues exactly where it was. */
module Preemption {
  import opened Words
  import opened Cpu
  import opened Sched
  import opened Tasking
  import Blocks
  import HeapRuns

  // A parked task depends only on its own stack.

  lemma SuspendedAgree(cfg: Config, m: Memory, m': Memory, sp: int, lo: int, hi: int)
    requires Suspended(cfg, m, sp, lo, hi) && Agree(m, m', lo, hi)
    ensures Suspended(cfg, m', sp, lo, hi)
    ensures Interrupted(cfg, m', sp) == Interrupted(cfg, m, sp)
    ensures SavedAt(m', sp) == SavedAt(m, sp) && Rd(m', sp + 48) == Rd(m, sp + 48)
    ensures Interrupted(cfg, m, sp) ==>
              Intact(cfg, m', sp) && StubAt(m', StubAddress(cfg, sp)) == StubAt(m, StubAddress(cfg, sp))
  {
    FramesAgree(m, m', sp, 0, lo, hi);
    if Interrupted(cfg, m, sp) {
      FramesAgree(m, m', sp + 48, cfg.compiled.length, lo, hi);
      FramesAgree(m, m', StubAddress(cfg, sp), 0, lo, hi);
    }
  }

  // The invariant.

  lemma TimerStacksPrivate(cfg: Config, s: System, others: Regs, j: nat, s': System)
    requires Reasonable(cfg) && Invariant(cfg, s) && TimerNext(cfg, s, others, j, s')
    ensures StacksPrivate(cfg, s, s'.mem)
  {
    hide FrameOf, Suspended, Resumed, Tick, SwitchOut, Blocks.Tiles, Blocks.Coalesced, Blocks.Aligned, StacksHeld;
    var cur := s.sched.current;
    forall i | 0 <= i < |s.sched.tasks| && i != cur
      ensures StackKept(cfg, s, s'.mem, i)
    {
      StacksDisjoint(cfg, s.heap, s.sched.tasks, i, cur);
    }
  }

  /** A complete frame below an interrupted stack pointer can be resumed. */
  lemma FrameResumable(cfg: Config, m: Memory, ctx: Context, j: nat, lo: int, hi: int)
    requires Reasonable(cfg) && HasRoom(cfg, ctx.rsp, lo, hi) && hi < TWO_64
    requires FrameOf(cfg, m, FrameBase(cfg, ctx.rsp), ctx, j)
    ensures var sp := FrameBase(cfg, ctx.rsp);
            && Interrupted(cfg, m, sp) && Intact(cfg, m, sp) && Suspended(cfg, m, sp, lo, hi)
            && StubAt(m, StubAddress(cfg, sp)) == ctx
  {
    var sp, c := FrameBase(cfg, ctx.rsp), cfg.compiled;
    LastPushed(m, sp + 48, c.length);
    hide PushedAt, SavedAt, StubAt;
    assert |c.activation(SavedOf(ctx.regs), j)| == c.length;
  }

  lemma LastPushed(m: Memory, sp: int, n: nat)
    requires n > 0
    ensures PushedAt(m, sp, n)[n - 1] == Rd(m, sp)
  {
  }

  /** What the timer leaves on the stack of the task it switches out is a frame that can be resumed. */
  lemma SwitchedOut(cfg: Config, s: System, others: Regs, j: nat, s': System)
    requires Reasonable(cfg) && Invariant(cfg, s) && TimerNext(cfg, s, others, j, s')
    requires Tick(s.sched).current != s.sched.current
    ensures var cur, sp := s.sched.current, FrameBase(cfg, s.cpu.rsp);
            && cur < |s'.sched.tasks| && s'.sched.tasks[cur].rsp == sp
            && Interrupted(cfg, s'.mem, sp) && Intact(cfg, s'.mem, sp)
            && StubAt(s'.mem, StubAddress(cfg, sp)) == s.cpu
            && Suspended(cfg, s'.mem, sp, StackLo(cfg, s.sched.tasks, cur), StackHi(cfg, s.sched.tasks, cur))
  {
    hide FrameOf, Suspended, Interrupted, Intact, StubAt, Conforms;
    var cur := s.sched.current;
    TickSound(s.sched);
    var other := if cur == 0 then 1 else 0;
    StacksDisjoint(cfg, s.heap, s.sched.tasks, cur, other);
    FrameResumable(cfg, s'.mem, s.cpu, j, StackLo(cfg, s.sched.tasks, cur), StackHi(cfg, s.sched.tasks, cur));
  }

  // The heap keeps the stacks.

  lemma AllocateKeepsStacks(heap: seq<Blocks.Block>, lo: nat, hi: nat, ts: seq<Task>, size: nat)
    requires Blocks.WellFormed(heap, lo, hi) && StacksHeld(heap, ts)
    ensures var (heap', p) := Blocks.Malloc(heap, size);
            && Blocks.WellFormed(heap', lo, hi) && StacksHeld(heap', ts)
            && (p != 0 ==> forall i :: 1 <= i < |ts| ==> ts[i].stackBase != p)
            && (p != 0 && size == STACK_SIZE ==> HoldsStack(heap', p))
  {
    var n, i := Blocks.RoundUp(size), Blocks.FirstFit(heap, Blocks.RoundUp(size));
    Blocks.RoundUpAligned(size);
    if size != 0 && i < |heap| {
      Blocks.CarveWellFormed(heap, lo, hi, i, n);
      Blocks.CarveLive(heap, i, n);
      var g := Blocks.Granted(heap[i], n)[0];
      forall c | c in Blocks.Live(heap)
        ensures c.Payload() != g.Payload()
      {
        if c.addr == heap[i].addr {
          HeapRuns.SamePayload(heap, lo, hi, heap[i], c);
        }
      }
      GrowLive(heap, Blocks.Carve(heap, i, n), ts);
    }
  }

  lemma GrowLive(heap: seq<Blocks.Block>, heap': seq<Blocks.Block>, ts: seq<Task>)
    requires StacksHeld(heap, ts) && Blocks.Live(heap) <= Blocks.Live(heap')
    ensures StacksHeld(heap', ts)
  {
    forall i | 1 <= i < |ts|
      ensures HoldsStack(heap', ts[i].stackBase)
    {
      assert HoldsStack(heap, ts[i].stackBase);
      var b :| b in Blocks.Live(heap) && b.Payload() == ts[i].stackBase && b.size >= STACK_SIZE;
      assert b in Blocks.Live(heap');
    }
  }

  lemma ReleaseKeepsStacks(heap: seq<Blocks.Block>, lo: nat, hi: nat, ts: seq<Task>, ptr: nat)
    requires Blocks.WellFormed(heap, lo, hi) && StacksHeld(heap, ts) && !IsStack(ts, ptr)
    ensures Blocks.WellFormed(Blocks.Free(heap, ptr), lo, hi) && StacksHeld(Blocks.Free(heap, ptr), ts)
  {
    if Blocks.IsLive(heap, ptr) {
      var k := Blocks.IndexOf(heap, ptr);
      Blocks.ReleaseWellFormed(heap, lo, hi, k);
      var heap' := Blocks.Free(heap, ptr);
      forall i | 1 <= i < |ts|
        ensures HoldsStack(heap', ts[i].stackBase)
      {
        var b :| b in Blocks.Live(heap) && b.Payload() == ts[i].stackBase && b.size >= STACK_SIZE;
        assert b != heap[k];
        assert b in Blocks.Live(heap');
      }
    }
  }

  // Every step keeps the invariant.

  lemma ParkedKept(cfg: Config, s: System, s': System, i: nat)
    requires i < |s.sched.tasks| <= |s'.sched.tasks| && Parked(cfg, s, i) && StackKept(cfg, s, s'.mem, i)
    requires s'.sched.tasks[i].rsp == s.sched.tasks[i].rsp && s'.sched.tasks[i].stackBase == s.sched.tasks[i].stackBase
    ensures Parked(cfg, s', i)
  {
    SuspendedAgree(cfg, s.mem, s'.mem, s.sched.tasks[i].rsp, StackLo(cfg, s.sched.tasks, i), StackHi(cfg, s.sched.tasks, i));
  }

  /** A step that touches neither the stack nor the task structure of a parked task leaves it parked. */
  lemma OthersParked(cfg: Config, s: System, s': System)
    requires Invariant(cfg, s) && StacksPrivate(cfg, s, s'.mem) && |s.sched.tasks| <= |s'.sched.tasks|
    requires forall i :: 0 <= i < |s.sched.tasks| && i != s.sched.current ==>
               s'.sched.tasks[i].rsp == s.sched.tasks[i].rsp && s'.sched.tasks[i].stackBase == s.sched.tasks[i].stackBase
    ensures forall i :: 0 <= i < |s.sched.tasks| && i != s.sched.current ==> Parked(cfg, s', i)
  {
    hide Suspended, Agree;
    forall i | 0 <= i < |s.sched.tasks| && i != s.sched.current
      ensures Parked(cfg, s', i)
    {
      assert StackKept(cfg, s, s'.mem, i);
      ParkedKept(cfg, s, s', i);
    }
  }

  lemma WorkInvariant(cfg: Config, s: System, s': System)
    requires Reasonable(cfg) && Invariant(cfg, s) && TaskCode(cfg, s, s') && s'.sched == s.sched
    requires Blocks.WellFormed(s'.heap, cfg.pool, cfg.pool + Blocks.POOL_SIZE) && StacksHeld(s'.heap, s.sched.tasks)
    ensures Invariant(cfg, s')
  {
    OthersParked(cfg, s, s');
  }

  lemma SwitchOutSound(s: Scheduler, sp: nat)
    requires Sound(s)
    ensures Sound(SwitchOut(s, sp)) && |SwitchOut(s, sp).tasks| == |s.tasks|
    ensures SwitchOut(s, sp).current == Tick(s).current
    ensures forall i :: 0 <= i < |s.tasks| ==> SwitchOut(s, sp).tasks[i].stackBase == s.tasks[i].stackBase
    ensures forall i :: 0 <= i < |s.tasks| && i != s.current ==> SwitchOut(s, sp).tasks[i].rsp == s.tasks[i].rsp
  {
    TickSound(s);
  }

  lemma SameStacks(heap: seq<Blocks.Block>, ts: seq<Task>, ts': seq<Task>)
    requires StacksHeld(heap, ts) && |ts'| == |ts|
    requires forall i :: 0 <= i < |ts| ==> ts'[i].stackBase == ts[i].stackBase
    ensures StacksHeld(heap, ts')
  {
    forall i | 1 <= i < |ts|
      ensures HoldsStack(heap, ts'[i].stackBase)
    {
      assert HoldsStack(heap, ts[i].stackBase);
    }
  }

  /** The task switched to resumes with enough room on its stack. */
  lemma ResumedRoom(cfg: Config, m: Memory, sp: int, lo: int, hi: int, others: Regs, rflags: Word)
    requires Suspended(cfg, m, sp, lo, hi) && 0 <= sp && sp + 56 < TWO_64
    requires lo + cfg.depth + 15 <= hi
    ensures HasRoom(cfg, Resumed(cfg, m, sp, others, rflags).rsp, lo, hi)
  {
  }

  /** The invariant of the state after a timer interrupt that switches, from its parts. */
  lemma SwitchInvariant(cfg: Config, s: System, s': System, next: nat)
    requires Invariant(cfg, s) && Sound(s'.sched) && s'.heap == s.heap && |s'.sched.tasks| == |s.sched.tasks|
    requires forall i :: 0 <= i < |s.sched.tasks| ==> s'.sched.tasks[i].stackBase == s.sched.tasks[i].stackBase
    requires forall i :: 0 <= i < |s.sched.tasks| && i != s.sched.current ==> Parked(cfg, s', i)
    requires next == s'.sched.current && next < |s.sched.tasks|
    requires next != s.sched.current ==> Parked(cfg, s', s.sched.current)
    requires HasRoom(cfg, s'.cpu.rsp, StackLo(cfg, s.sched.tasks, next), StackHi(cfg, s.sched.tasks, next))
    ensures Invariant(cfg, s')
  {
    hide Parked, HasRoom, StacksHeld;
    SameStacks(s.heap, s.sched.tasks, s'.sched.tasks);
  }

  /** The facts about the scheduler part of a timer interrupt. */
  lemma TimerSched(cfg: Config, s: System, others: Regs, j: nat, s': System)
    requires Sound(s.sched) && TimerNext(cfg, s, others, j, s')
    ensures Sound(s'.sched) && |s'.sched.tasks| == |s.sched.tasks| && s'.sched.current == Tick(s.sched).current
    ensures s'.sched.current < |s.sched.tasks|
    ensures forall i :: 0 <= i < |s.sched.tasks| ==> s'.sched.tasks[i].stackBase == s.sched.tasks[i].stackBase
    ensures forall i :: 0 <= i < |s.sched.tasks| && i != s.sched.current ==> s'.sched.tasks[i].rsp == s.sched.tasks[i].rsp
  {
    TickSound(s.sched);
    if Tick(s.sched).current != s.sched.current {
      SwitchOutSound(s.sched, FrameBase(cfg, s.cpu.rsp));
    }
  }

  lemma SwitchedInRoom(cfg: Config, s: System, others: Regs, j: nat, s': System)
    requires Reasonable(cfg) && Invariant(cfg, s) && TimerNext(cfg, s, others, j, s')
    requires var next := Tick(s.sched).current;
             && next != s.sched.current && next < |s'.sched.tasks| && Parked(cfg, s', next)
             && s'.sched.tasks[next].rsp == s.sched.tasks[next].rsp
    ensures var next := Tick(s.sched).current;
            HasRoom(cfg, s'.cpu.rsp, StackLo(cfg, s'.sched.tasks, next), StackHi(cfg, s'.sched.tasks, next))
  {
    var next, ts := Tick(s.sched).current, s'.sched.tasks;
    hide Suspended, Agree, Tick, FrameOf, Resumed, HasRoom, StacksHeld, Sound, SwitchOut, Blocks.WellFormed;
    StackLength(cfg, ts, next);
    ResumedRoom(cfg, s'.mem, ts[next].rsp, StackLo(cfg, ts, next), StackHi(cfg, ts, next), others,
                InterruptsOff(s.cpu.rflags));
  }

  lemma TimerInvariant(cfg: Config, s: System, others: Regs, j: nat, s': System)
    requires Reasonable(cfg) && Invariant(cfg, s) && TimerNext(cfg, s, others, j, s')
    ensures Invariant(cfg, s')
  {
    TimerSched(cfg, s, others, j, s');
    TimerStacksPrivate(cfg, s, others, j, s');
    OthersParked(cfg, s, s');
    if s'.sched.current != s.sched.current {
      SwitchedOut(cfg, s, others, j, s');
      SwitchedInRoom(cfg, s, others, j, s');
    }
    hide Suspended, Agree, Tick, FrameOf, Resumed, HasRoom, StacksHeld, StackKept, Sound, SwitchOut, Blocks.WellFormed;
    SwitchInvariant(cfg, s, s', s'.sched.current);
  }

  lemma StackLength(cfg: Config, ts: seq<Task>, i: nat)
    requires Reasonable(cfg) && i < |ts|
    ensures StackLo(cfg, ts, i) + cfg.depth + 16 <= StackHi(cfg, ts, i)
  {
  }

  lemma NewStackHeld(heap: seq<Blocks.Block>, ts: seq<Task>, t: Task)
    requires StacksHeld(heap, ts) && HoldsStack(heap, t.stackBase)
    requires forall i :: 1 <= i < |ts| ==> ts[i].stackBase != t.stackBase
    ensures |ts| >= 1 ==> StacksHeld(heap, ts + [t])
  {
    forall i | 1 <= i < |ts + [t]|
      ensures HoldsStack(heap, (ts + [t])[i].stackBase)
    {
      assert i < |ts| ==> HoldsStack(heap, ts[i].stackBase);
    }
  }

  lemma SpawnInvariant(cfg: Config, s: System, entry: Word, s': System)
    requires Reasonable(cfg) && Invariant(cfg, s) && Next(cfg, s, Spawn(entry), s')
    ensures Invariant(cfg, s')
  {
    hide Blocks.WellFormed, Blocks.Malloc, StacksHeld, HoldsStack, StacksPrivate, HasRoom, Parked, Create, Seeded;
    var base := Blocks.Malloc(s.heap, STACK_SIZE).1;
    AllocateKeepsStacks(s.heap, cfg.pool, cfg.pool + Blocks.POOL_SIZE, s.sched.tasks, STACK_SIZE);
    if |s.sched.tasks| < MAX_TASKS && base != 0 {
      CreatedInvariant(cfg, s, entry, s', base);
    } else {
      WorkInvariant(cfg, s, s');
    }
  }

  /** A creation that succeeds: the new task has a stack of its own and is parked. */
  lemma CreatedInvariant(cfg: Config, s: System, entry: Word, s': System, base: nat)
    requires Reasonable(cfg) && Invariant(cfg, s) && TaskCode(cfg, s, s') && entry != cfg.compiled.resume
    requires |s.sched.tasks| < MAX_TASKS && s'.sched == Create(s.sched, base, base + STACK_SIZE - 56)
    requires Blocks.WellFormed(s'.heap, cfg.pool, cfg.pool + Blocks.POOL_SIZE)
    requires StacksHeld(s'.heap, s.sched.tasks) && HoldsStack(s'.heap, base) && Seeded(s'.mem, base, entry)
    requires forall i :: 1 <= i < |s.sched.tasks| ==> s.sched.tasks[i].stackBase != base
    ensures Invariant(cfg, s')
  {
    var ts, n := s.sched.tasks, |s.sched.tasks|;
    hide Suspended, Agree, StacksHeld, HoldsStack, Seeded, Parked, StackKept, HasRoom, Create, Sound;
    CreateSound(s.sched, base, base + STACK_SIZE - 56);
    NewStackHeld(s'.heap, ts, Task(n, READY, base, base + STACK_SIZE - 56));
    StackInPool(cfg, s'.heap, base);
    NewTaskParked(cfg, s', n, entry);
    OthersParked(cfg, s, s');
    CurrentRoom(cfg, s, s');
  }

  lemma CurrentRoom(cfg: Config, s: System, s': System)
    requires Sound(s.sched) && TaskCode(cfg, s, s') && s'.sched.current == s.sched.current
    requires |s.sched.tasks| <= |s'.sched.tasks| && s'.sched.tasks[s.sched.current] == s.sched.tasks[s.sched.current]
    ensures var ts, cur := s'.sched.tasks, s'.sched.current;
            HasRoom(cfg, s'.cpu.rsp, StackLo(cfg, ts, cur), StackHi(cfg, ts, cur))
  {
  }

  lemma NewTaskParked(cfg: Config, s': System, n: nat, entry: Word)
    requires 1 <= n < |s'.sched.tasks| && entry != cfg.compiled.resume
    requires Seeded(s'.mem, s'.sched.tasks[n].stackBase, entry)
    requires s'.sched.tasks[n].rsp == s'.sched.tasks[n].stackBase + STACK_SIZE - 56
    requires s'.sched.tasks[n].stackBase + STACK_SIZE < TWO_64
    ensures Parked(cfg, s', n)
  {
  }

  lemma StepInvariant(cfg: Config, s: System, a: Action, s': System)
    requires Reasonable(cfg) && Invariant(cfg, s) && Next(cfg, s, a, s')
    ensures Invariant(cfg, s')
  {
    match a
    case Work => WorkInvariant(cfg, s, s');
    case HeapCall(Allocate(size)) =>
      AllocateKeepsStacks(s.heap, cfg.pool, cfg.pool + Blocks.POOL_SIZE, s.sched.tasks, size);
      WorkInvariant(cfg, s, s');
    case HeapCall(Release(ptr)) =>
      ReleaseKeepsStacks(s.heap, cfg.pool, cfg.pool + Blocks.POOL_SIZE, s.sched.tasks, ptr);
      WorkInvariant(cfg, s, s');
    case Timer(others, j) => TimerInvariant(cfg, s, others, j, s');
    case Spawn(entry) => SpawnInvariant(cfg, s, entry, s');
  }

  /** The state sched_init leaves satisfies the invariant. */
  lemma BootInvariant(cfg: Config, cpu: Context, mem: Memory, heap: seq<Blocks.Block>)
    requires Blocks.WellFormed(heap, cfg.pool, cfg.pool + Blocks.POOL_SIZE)
    requires HasRoom(cfg, cpu.rsp, cfg.bootLo, cfg.bootHi)
    ensures Invariant(cfg, System(cpu, mem, Scheduler([Task(0, RUNNING, 0, 0)], 0, 0), heap))
  {
  }

  // Whole runs.

  ghost predicate Behavior(cfg: Config, run: seq<System>, acts: seq<Action>) {
    && |run| == |acts| + 1 && Invariant(cfg, run[0])
    && forall i :: 0 <= i < |acts| ==> run[i].sched.current < |run[i].sched.tasks| && Next(cfg, run[i], acts[i], run[i + 1])
  }

  lemma BehaviorStep(cfg: Config, run: seq<System>, acts: seq<Action>, k: nat)
    requires Behavior(cfg, run, acts) && k + 1 < |run|
    ensures |run| == |acts| + 1 && run[k].sched.current < |run[k].sched.tasks|
    ensures Next(cfg, run[k], acts[k], run[k + 1])
  {
  }

  lemma {:induction false} RunInvariant(cfg: Config, run: seq<System>, acts: seq<Action>, i: nat)
    requires Reasonable(cfg) && Behavior(cfg, run, acts) && i < |run|
    ensures Invariant(cfg, run[i])
  {
    if i > 0 {
      hide Next, Invariant, Reasonable;
      RunInvariant(cfg, run, acts, i - 1);
      BehaviorStep(cfg, run, acts, i - 1);
      StepInvariant(cfg, run[i - 1], acts[i - 1], run[i]);
    }
  }

  /** No step touches the stack or the task structure of a task that is not running. */
  lemma StepOthers(cfg: Config, s: System, a: Action, s': System, t: nat)
    requires Reasonable(cfg) && Invariant(cfg, s) && Next(cfg, s, a, s')
    requires t < |s.sched.tasks| && t != s.sched.current
    ensures t < |s'.sched.tasks| && s'.sched.tasks[t].rsp == s.sched.tasks[t].rsp
    ensures s'.sched.tasks[t].stackBase == s.sched.tasks[t].stackBase && StackKept(cfg, s, s'.mem, t)
  {
    if a.Timer? {
      TimerSched(cfg, s, a.others, a.j, s');
      TimerStacksPrivate(cfg, s, a.others, a.j, s');
    }
  }

  /** Control passes to another task only by a timer interrupt, which leaves that task's resumed state. */
  lemma OnlyTimerSwitches(cfg: Config, s: System, a: Action, s': System)
    requires Reasonable(cfg) && Invariant(cfg, s) && Next(cfg, s, a, s') && s'.sched.current != s.sched.current
    ensures a.Timer? && Tick(s.sched).current == s'.sched.current < |s.sched.tasks|
    ensures var sp := s.sched.tasks[s'.sched.current].rsp;
            && sp + 56 < TWO_64 && InterruptsOn(s.cpu.rflags)
            && s'.cpu == Resumed(cfg, s'.mem, sp, a.others, InterruptsOff(s.cpu.rflags))
  {
    if a.Timer? {
      TimerSched(cfg, s, a.others, a.j, s');
    }
  }

  /** Task t is switched out, to continue in context ctx with its stack as it was in m0. */
  ghost predicate Waits(cfg: Config, s: System, t: nat, ctx: Context, m0: Memory) {
    && t < |s.sched.tasks| && t != s.sched.current
    && var sp := s.sched.tasks[t].rsp;
    && Interrupted(cfg, s.mem, sp) && StubAt(s.mem, StubAddress(cfg, sp)) == ctx
    && Agree(m0, s.mem, ctx.rsp, StackHi(cfg, s.sched.tasks, t))
  }

  lemma StartsWaiting(cfg: Config, s: System, a: Action, s': System)
    requires Reasonable(cfg) && Invariant(cfg, s) && Next(cfg, s, a, s') && s'.sched.current != s.sched.current
    ensures Waits(cfg, s', s.sched.current, s.cpu, s.mem)
    ensures s.sched.current < |s'.sched.tasks|
    ensures StackHi(cfg, s'.sched.tasks, s.sched.current) == StackHi(cfg, s.sched.tasks, s.sched.current)
  {
    OnlyTimerSwitches(cfg, s, a, s');
    SwitchedOut(cfg, s, a.others, a.j, s');
    TimerSched(cfg, s, a.others, a.j, s');
  }

  lemma WaitsAgree(cfg: Config, s: System, m': Memory, t: nat, ctx: Context, m0: Memory)
    requires t < |s.sched.tasks| && Parked(cfg, s, t) && Waits(cfg, s, t, ctx, m0) && StackKept(cfg, s, m', t)
    ensures var sp := s.sched.tasks[t].rsp;
            && Suspended(cfg, m', sp, StackLo(cfg, s.sched.tasks, t), StackHi(cfg, s.sched.tasks, t))
            && Interrupted(cfg, m', sp) && Intact(cfg, m', sp) && StubAt(m', StubAddress(cfg, sp)) == ctx
            && Agree(m0, m', ctx.rsp, StackHi(cfg, s.sched.tasks, t))
  {
    SuspendedAgree(cfg, s.mem, m', s.sched.tasks[t].rsp, StackLo(cfg, s.sched.tasks, t), StackHi(cfg, s.sched.tasks, t));
  }

  lemma InvariantParked(cfg: Config, s: System, t: nat)
    requires Invariant(cfg, s) && t < |s.sched.tasks| && t != s.sched.current
    ensures s.sched.current < |s.sched.tasks| && Parked(cfg, s, t)
    ensures StackHi(cfg, s.sched.tasks, t) < TWO_64
  {
    assert Parked(cfg, s, t);
  }

  lemma KeepsWaiting(cfg: Config, s: System, a: Action, s': System, t: nat, ctx: Context, m0: Memory)
    requires Reasonable(cfg) && Invariant(cfg, s) && Next(cfg, s, a, s') && Waits(cfg, s, t, ctx, m0)
    ensures t < |s'.sched.tasks| && StackHi(cfg, s'.sched.tasks, t) == StackHi(cfg, s.sched.tasks, t)
    ensures s'.sched.current != t ==> Waits(cfg, s', t, ctx, m0)
    ensures s'.sched.current == t ==> s'.cpu == ctx && Agree(m0, s'.mem, ctx.rsp, StackHi(cfg, s.sched.tasks, t))
  {
    hide Next, Invariant, Reasonable, Agree, Suspended, Parked, StackKept, Interrupted, StubAt, Tick;
    InvariantParked(cfg, s, t);
    StepOthers(cfg, s, a, s', t);
    WaitsAgree(cfg, s, s'.mem, t, ctx, m0);
    if s'.sched.current == t {
      OnlyTimerSwitches(cfg, s, a, s');
    }
  }

  lemma {:induction false} WaitsUntilBack(cfg: Config, run: seq<System>, acts: seq<Action>, i: nat, j: nat, t: nat,
                                          ctx: Context, m0: Memory, hi: int)
    requires Reasonable(cfg) && Behavior(cfg, run, acts) && i <= j < |run|
    requires t < |run[i].sched.tasks| && StackHi(cfg, run[i].sched.tasks, t) == hi
    requires Waits(cfg, run[i], t, ctx, m0) && forall k :: i <= k <= j ==> run[k].sched.current != t
    ensures t < |run[j].sched.tasks| && StackHi(cfg, run[j].sched.tasks, t) == hi
    ensures Waits(cfg, run[j], t, ctx, m0)
  {
    hide Next, Invariant, Reasonable, Behavior, Waits, StackHi;
    if i < j {
      WaitsUntilBack(cfg, run, acts, i, j - 1, t, ctx, m0, hi);
      RunInvariant(cfg, run, acts, j - 1);
      BehaviorStep(cfg, run, acts, j - 1);
      KeepsWaiting(cfg, run[j - 1], acts[j - 1], run[j], t, ctx, m0);
    }
  }

  /** Preemption is transparent. Task t runs in state i, is switched out by the next step, and runs again first in
      state j: then all its registers, its instruction pointer, stack pointer and flags are what they were in
      state i, and so is every word of its stack from the stack pointer up. */
  lemma Transparent(cfg: Config, run: seq<System>, acts: seq<Action>, i: nat, j: nat, t: nat)
    requires Reasonable(cfg) && Behavior(cfg, run, acts) && i < j < |run|
    requires run[i].sched.current == t == run[j].sched.current
    requires forall k :: i < k < j ==> run[k].sched.current != t
    requires i + 1 < j
    ensures run[j].cpu == run[i].cpu
    ensures t < |run[i].sched.tasks| && Agree(run[i].mem, run[j].mem, run[i].cpu.rsp, StackHi(cfg, run[i].sched.tasks, t))
  {
    hide Next, Invariant, Reasonable, Behavior, Waits, Agree;
    RunInvariant(cfg, run, acts, i);
    BehaviorStep(cfg, run, acts, i);
    StartsWaiting(cfg, run[i], acts[i], run[i + 1]);
    WaitsUntilBack(cfg, run, acts, i + 1, j - 1, t, run[i].cpu, run[i].mem, StackHi(cfg, run[i].sched.tasks, t));
    RunInvariant(cfg, run, acts, j - 1);
    BehaviorStep(cfg, run, acts, j - 1);
    KeepsWaiting(cfg, run[j - 1], acts[j - 1], run[j], t, run[i].cpu, run[i].mem);
  }

  /** A timer interrupt that does not switch is transparent too. */
  lemma TransparentTick(cfg: Config, s: System, others: Regs, j: nat, s': System)
    requires Reasonable(cfg) && Invariant(cfg, s) && TimerNext(cfg, s, others, j, s')
    requires s'.sched.current == s.sched.current
    ensures s'.cpu == s.cpu
    ensures Agree(s.mem, s'.mem, s.cpu.rsp, StackHi(cfg, s.sched.tasks, s.sched.current))
  {
    TimerSched(cfg, s, others, j, s');
  }

  // New tasks.

  /** Task t has been created and has not run: its stack holds the entry function above six zeros. */
  ghost predicate Unstarted(cfg: Config, s: System, t: nat, entry: Word) {
    && 0 < t < |s.sched.tasks| && t != s.sched.current
    && var sp := s.sched.tasks[t].rsp;
    && Rd(s.mem, sp + 48) == entry && SavedAt(s.mem, sp) == Saved(0, 0, 0, 0, 0, 0)
    && entry != cfg.compiled.resume && sp + 56 == StackHi(cfg, s.sched.tasks, t)
  }

  /** A new task first runs its entry function, with the six callee-saved registers zero, the stack pointer at the
      very top of its stack, and interrupts off. */
  ghost predicate Entered(cfg: Config, s: System, t: nat, entry: Word) {
    && t < |s.sched.tasks| && s.sched.current == t
    && s.cpu.rip == entry && SavedOf(s.cpu.regs) == Saved(0, 0, 0, 0, 0, 0)
    && s.cpu.rsp == StackHi(cfg, s.sched.tasks, t) && !InterruptsOn(s.cpu.rflags)
  }

  lemma UnstartedAgree(cfg: Config, s: System, m': Memory, t: nat, entry: Word)
    requires Unstarted(cfg, s, t, entry) && Parked(cfg, s, t) && StackKept(cfg, s, m', t)
    ensures var sp := s.sched.tasks[t].rsp;
            Rd(m', sp + 48) == entry && SavedAt(m', sp) == Saved(0, 0, 0, 0, 0, 0) && !Interrupted(cfg, m', sp)
  {
    SuspendedAgree(cfg, s.mem, m', s.sched.tasks[t].rsp, StackLo(cfg, s.sched.tasks, t), StackHi(cfg, s.sched.tasks, t));
  }

  lemma KeepsUnstarted(cfg: Config, s: System, a: Action, s': System, t: nat, entry: Word)
    requires Reasonable(cfg) && Invariant(cfg, s) && Next(cfg, s, a, s') && Unstarted(cfg, s, t, entry)
    ensures if s'.sched.current == t then Entered(cfg, s', t, entry) else Unstarted(cfg, s', t, entry)
  {
    hide Next, Invariant, Reasonable, Agree, Suspended, Parked, StackKept, Interrupted, SavedAt, Tick;
    InvariantParked(cfg, s, t);
    StepOthers(cfg, s, a, s', t);
    UnstartedAgree(cfg, s, s'.mem, t, entry);
    if s'.sched.current == t {
      OnlyTimerSwitches(cfg, s, a, s');
    }
  }

  lemma SpawnedUnstarted(cfg: Config, s: System, entry: Word, s': System)
    requires Reasonable(cfg) && Invariant(cfg, s) && Next(cfg, s, Spawn(entry), s')
    requires |s'.sched.tasks| == |s.sched.tasks| + 1
    ensures Unstarted(cfg, s', |s.sched.tasks|, entry)
  {
  }

  /** When a created task t is first switched to, it enters its entry function. */
  lemma {:induction false} FirstRun(cfg: Config, run: seq<System>, acts: seq<Action>, i: nat, j: nat, entry: Word)
    requires Reasonable(cfg) && Behavior(cfg, run, acts) && i < j < |run| && acts[i] == Spawn(entry)
    requires var t := |run[i].sched.tasks|;
             && |run[i + 1].sched.tasks| == t + 1
             && (forall k :: i < k < j ==> run[k].sched.current != t)
    ensures var t := |run[i].sched.tasks|;
            if run[j].sched.current == t then Entered(cfg, run[j], t, entry) else Unstarted(cfg, run[j], t, entry)
    decreases j
  {
    hide Next, Invariant, Reasonable, Behavior, Unstarted, Entered;
    RunInvariant(cfg, run, acts, j - 1);
    BehaviorStep(cfg, run, acts, j - 1);
    if i < j - 1 {
      FirstRun(cfg, run, acts, i, j - 1, entry);
      KeepsUnstarted(cfg, run[j - 1], acts[j - 1], run[j], |run[i].sched.tasks|, entry);
    } else {
      SpawnedUnstarted(cfg, run[i], entry, run[j]);
      UnstartedNotCurrent(cfg, run[j], |run[i].sched.tasks|, entry);
    }
  }

  lemma UnstartedNotCurrent(cfg: Config, s: System, t: nat, entry: Word)
    requires Unstarted(cfg, s, t, entry)
    ensures s.sched.current != t
  {
  }

  /** A task that has just been entered cannot be preempted before its own code has turned interrupts on: as long as
      every step leaves them off, no timer interrupt happens and no other task runs. */
  lemma {:induction false} StuckUntilSti(cfg: Config, run: seq<System>, acts: seq<Action>, i: nat, j: nat)
    requires |run| == |acts| + 1 && Reasonable(cfg) && Behavior(cfg, run, acts) && i <= j < |run|
    requires forall k :: i <= k < j ==> !InterruptsOn(run[k].cpu.rflags)
    ensures run[j].sched.current == run[i].sched.current
    ensures forall k :: i <= k < j ==> !acts[k].Timer?
  {
    hide Next, Invariant, Reasonable, Behavior, InterruptsOn;
    if i < j {
      StuckUntilSti(cfg, run, acts, i, j - 1);
      RunInvariant(cfg, run, acts, j - 1);
      BehaviorStep(cfg, run, acts, j - 1);
      NoTimer(cfg, run[j - 1], acts[j - 1], run[j]);
    }
  }

  /** Step k, if it is the running task's own, does not turn interrupts on. */
  ghost predicate LeavesOff(run: seq<System>, acts: seq<Action>, k: nat)
    requires k < |acts| && |run| == |acts| + 1
  {
    !InterruptsOn(run[k].cpu.rflags) && !acts[k].Timer? ==> !InterruptsOn(run[k + 1].cpu.rflags)
  }

  /** Hence a created task whose code never turns interrupts on runs for ever once it has been entered. */
  lemma {:induction false} NeverYields(cfg: Config, run: seq<System>, acts: seq<Action>, i: nat, j: nat, t: nat, entry: Word)
    requires |run| == |acts| + 1 && Reasonable(cfg) && Behavior(cfg, run, acts) && i <= j < |run|
    requires Entered(cfg, run[i], t, entry) && forall k :: i <= k < j ==> LeavesOff(run, acts, k)
    ensures run[j].sched.current == t && !InterruptsOn(run[j].cpu.rflags)
  {
    hide Next, Invariant, Reasonable, Behavior, InterruptsOn;
    if i < j {
      NeverYields(cfg, run, acts, i, j - 1, t, entry);
      RunInvariant(cfg, run, acts, j - 1);
      BehaviorStep(cfg, run, acts, j - 1);
      NoTimer(cfg, run[j - 1], acts[j - 1], run[j]);
      assert LeavesOff(run, acts, j - 1);
    }
  }

  lemma NoTimer(cfg: Config, s: System, a: Action, s': System)
    requires Reasonable(cfg) && Invariant(cfg, s) && Next(cfg, s, a, s') && !InterruptsOn(s.cpu.rflags)
    ensures !a.Timer? && s'.sched.current == s.sched.current
  {
    if s'.sched.current != s.sched.current {
      OnlyTimerSwitches(cfg, s, a, s');
    }
  }
}
