/** The boot sequence across the subsystems: memory map, page allocator, heap, scheduler, first task. */
module Startup {
  import opened Words
  import opened PageSets
  import opened Cpu
  import opened Tasking
  import Blocks
  import Boot
  import Heap
  import HeapRuns
  import Kernel
  import Pmm
  import Preemption
  import Sched

  /** The pages that are free after pmm_init. */
  ghost function Available(entries: seq<Entry>): set<nat> {
    Usable(entries) - Pmm.Between(0, RESERVED_PAGES)
  }

  lemma AvailableRange(entries: seq<Entry>)
    ensures forall p :: p in Available(entries) ==> RESERVED_PAGES <= p < PAGES
  {
    forall p | p in Available(entries)
      ensures RESERVED_PAGES <= p < PAGES
    {
      UsableIsUnion(entries, p);
      assert Pmm.InRange(p, 0, RESERVED_PAGES) || RESERVED_PAGES <= p;
    }
  }

  /** The first allocation of a stack from a fresh heap succeeds. */
  lemma FirstStack(lo: nat)
    requires lo % 8 == 0 && lo > 0
    ensures Blocks.Malloc(HeapRuns.Fresh(lo), STACK_SIZE).1 == lo + Blocks.HEADER_SIZE
  {
    assert Blocks.RoundUp(STACK_SIZE) == STACK_SIZE;
  }

  lemma FreshHeap(lo: nat)
    requires lo % 8 == 0
    ensures Blocks.WellFormed(HeapRuns.Fresh(lo), lo, lo + Blocks.POOL_SIZE)
  {
    HeapRuns.RunWellFormed(lo, []);
  }

  lemma PoolAligned(cfg: Config)
    requires Reasonable(cfg)
    ensures cfg.pool % 8 == 0
  {
  }

  lemma Created(cfg: Config, s: System, entry: Word, s': System)
    requires Reasonable(cfg) && Invariant(cfg, s) && entry != cfg.compiled.resume
    requires SpawnNext(cfg, s, entry, s') && StacksPrivate(cfg, s, s'.mem) && s'.cpu == s.cpu
    requires |s.sched.tasks| < Sched.MAX_TASKS && Blocks.Malloc(s.heap, STACK_SIZE).1 != 0
    ensures Invariant(cfg, s') && |s'.sched.tasks| == |s.sched.tasks| + 1 && s'.sched.current == s.sched.current
    ensures Preemption.Unstarted(cfg, s', |s.sched.tasks|, entry)
  {
    Preemption.SpawnInvariant(cfg, s, entry, s');
    Preemption.SpawnedUnstarted(cfg, s, entry, s');
  }

  /** pmm_init and heap_init, from any memory map with a free page above 1 MB. When all bytes of
      the pool lie in free pages, no page that is still free has a byte in the pool. */
  method StartMemory(entries: seq<Entry>, hhdm: nat) returns (pmm: Pmm.PageAllocator, heap: Heap.KernelHeap)
    requires forall e :: e in entries ==> e.base + e.length < TWO_64 && e.base + 0xFFF < TWO_64
    requires hhdm % PAGE_SIZE == 0 && hhdm + 0x1_0000_0000 + Blocks.POOL_SIZE < TWO_64
    requires Available(entries) != {}
    ensures fresh(heap) && fresh(heap.mem)
    ensures pmm.Valid() && pmm.Free() == Boot.Rest(Available(entries), Boot.HEAP_PAGES)
    ensures Boot.PoolWithin(Available(entries), Min(Available(entries))) ==>
              forall p :: p in pmm.Free() ==> Boot.PageApart(hhdm, p, heap.head)
    ensures heap.Valid() && heap.head == hhdm + Min(Available(entries)) * PAGE_SIZE
    ensures heap.blocks == HeapRuns.Fresh(heap.head)
  {
    hide Pmm.FreeSet, Blocks.Tiles, Blocks.Coalesced, Heap.KernelHeap.Linked, Boot.Rest, IsMin;
    AvailableRange(entries);
    pmm := new Pmm.PageAllocator();
    pmm.Init(entries);
    heap := new Heap.KernelHeap();
    Boot.HeapInit(pmm, heap, hhdm);
  }

  /** sched_init and the creation of the first task on a fresh heap: they end in a state that satisfies the system's
      invariant, with the task created but not started. */
  method StartTasks(cfg: Config, cpu: Context, mem: Memory, heap: Heap.KernelHeap, entry: Word)
    returns (machine: Kernel.Machine)
    requires heap.Valid() && heap.head == cfg.pool && heap.blocks == HeapRuns.Fresh(cfg.pool) && cfg.pool > 0
    requires Reasonable(cfg) && HasRoom(cfg, cpu.rsp, cfg.bootLo, cfg.bootHi) && entry != cfg.compiled.resume
    modifies heap, heap.mem
    ensures machine.Valid() && machine.heap == heap && machine.cpu == cpu
    ensures Invariant(cfg, machine.View()) && machine.count == 2 && machine.current == 0
    ensures Preemption.Unstarted(cfg, machine.View(), 1, entry)
  {
    hide Reasonable, Invariant, SpawnNext, StacksPrivate, HeapRuns.Fresh, Preemption.Unstarted;
    PoolAligned(cfg);
    FreshHeap(cfg.pool);
    FirstStack(cfg.pool);
    Preemption.BootInvariant(cfg, cpu, mem, heap.blocks);
    machine := new Kernel.Machine(cfg, cpu, mem, heap);
    ghost var s := machine.View();
    var id := machine.CreateTask(entry);
    Created(cfg, s, entry, machine.View());
  }
}
