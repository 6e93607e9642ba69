/** Whole runs of kmalloc and kfree on the block list, and what they guarantee to clients. */
module HeapRuns {
  import opened Words
  import opened Blocks

  datatype HeapOp = Allocate(size: nat) | Deallocate(ptr: nat)

  /** The heap right after heap_init: one free block over the whole pool. */
  function Fresh(lo: nat): seq<Block> {
    [Block(lo, POOL_SIZE - HEADER_SIZE, true)]
  }

  /** The block list with a ledger of what each live pointer was requested for. */
  datatype Heap = Heap(blocks: seq<Block>, asked: map<nat, nat>)

  /** Sizes are 64-bit; clients free null or a live pointer. */
  predicate Legal(h: Heap, op: HeapOp) {
    match op
    case Allocate(size) => size < TWO_64
    case Deallocate(ptr) => ptr == 0 || IsLive(h.blocks, ptr)
  }

  function Next(h: Heap, op: HeapOp): Heap {
    match op
    case Allocate(size) =>
      var (bs, ptr) := Malloc(h.blocks, size);
      Heap(bs, if ptr == 0 then h.asked else h.asked[ptr := size])
    case Deallocate(ptr) => Heap(Free(h.blocks, ptr), h.asked - {ptr})
  }

  function Run(h: Heap, ops: seq<HeapOp>): Heap {
    if ops == [] then h else Next(Run(h, ops[..|ops| - 1]), ops[|ops| - 1])
  }

  predicate LegalRun(h: Heap, ops: seq<HeapOp>) {
    ops == [] || (LegalRun(h, ops[..|ops| - 1]) && Legal(Run(h, ops[..|ops| - 1]), ops[|ops| - 1]))
  }

  function Start(lo: nat): Heap {
    Heap(Fresh(lo), map[])
  }

  lemma StepWellFormed(h: Heap, op: HeapOp, lo: nat, hi: nat)
    requires WellFormed(h.blocks, lo, hi)
    ensures WellFormed(Next(h, op).blocks, lo, hi)
  {
    match op
    case Allocate(size) =>
      var n := RoundUp(size);
      RoundUpAligned(size);
      var i := FirstFit(h.blocks, n);
      if size != 0 && i < |h.blocks| {
        CarveWellFormed(h.blocks, lo, hi, i, n);
      }
    case Deallocate(ptr) =>
      if IsLive(h.blocks, ptr) {
        ReleaseWellFormed(h.blocks, lo, hi, IndexOf(h.blocks, ptr));
      }
  }

  /** In every run the blocks tile the pool, no two free blocks are neighbours, and all sizes are multiples of 8. */
  lemma {:induction false} RunWellFormed(lo: nat, ops: seq<HeapOp>)
    requires lo % 8 == 0
    ensures WellFormed(Run(Start(lo), ops).blocks, lo, lo + POOL_SIZE)
  {
    if ops == [] {
      assert Tiles(Fresh(lo)[1..], lo + POOL_SIZE, lo + POOL_SIZE);
    } else {
      RunWellFormed(lo, ops[..|ops| - 1]);
      StepWellFormed(Run(Start(lo), ops[..|ops| - 1]), ops[|ops| - 1], lo, lo + POOL_SIZE);
    }
  }

  /** The block list depends only on which blocks are live, not on the calls that led there. */
  lemma RunsAgree(lo: nat, ops: seq<HeapOp>, ops': seq<HeapOp>)
    requires lo % 8 == 0
    requires Live(Run(Start(lo), ops).blocks) == Live(Run(Start(lo), ops').blocks)
    ensures Run(Start(lo), ops).blocks == Run(Start(lo), ops').blocks
  {
    RunWellFormed(lo, ops);
    RunWellFormed(lo, ops');
    Canonical(Run(Start(lo), ops).blocks, Run(Start(lo), ops').blocks, lo, lo + POOL_SIZE);
  }

  /** Once nothing is live the heap is again the single free block it started as. */
  lemma Drained(lo: nat, ops: seq<HeapOp>)
    requires lo % 8 == 0 && Live(Run(Start(lo), ops).blocks) == {}
    ensures Run(Start(lo), ops).blocks == [Block(lo, 262112, true)]
  {
    RunsAgree(lo, ops, []);
  }

  /** kmalloc then kfree of its result restores the block list. */
  lemma AllocateThenFree(bs: seq<Block>, size: nat, lo: nat, hi: nat)
    requires WellFormed(bs, lo, hi)
    ensures var (bs', ptr) := Malloc(bs, size);
            (ptr != 0 ==> IsLive(bs', ptr)) && Free(bs', ptr) == bs
  {
    var n, i := RoundUp(size), FirstFit(bs, RoundUp(size));
    var (bs', ptr) := Malloc(bs, size);
    RoundUpAligned(size);
    if ptr != 0 {
      CarveWellFormed(bs, lo, hi, i, n);
      CarveLive(bs, i, n);
      assert bs'[i] == Granted(bs[i], n)[0];
      IndexUnique(bs', lo, hi, i);
      ReleaseWellFormed(bs', lo, hi, i);
      NotLiveYet(bs, lo, hi, i, bs'[i]);
      Canonical(Free(bs', ptr), bs, lo, hi);
    } else {
      NoNullPayload(bs, 0);
    }
  }

  /** What is carved out of a free block was not live before. */
  lemma NotLiveYet(bs: seq<Block>, lo: nat, hi: nat, i: nat, b: Block)
    requires Tiles(bs, lo, hi) && i < |bs| && bs[i].free && !b.free && b.addr == bs[i].addr
    ensures b !in Live(bs)
  {
    if b in bs {
      var j :| 0 <= j < |bs| && bs[j] == b;
      if j < i {
        Ordered(bs, lo, hi, j, i);
      } else {
        Ordered(bs, lo, hi, i, j);
      }
    }
  }

  /** kmalloc returns null, and changes nothing, exactly when nothing is asked for or no free block fits, and otherwise
      the fitting block of lowest address. */
  lemma FirstFitting(bs: seq<Block>, size: nat, lo: nat, hi: nat)
    requires Tiles(bs, lo, hi)
    ensures Malloc(bs, size).1 == 0 <==> size == 0 || forall b :: b in bs ==> !Fits(b, RoundUp(size))
    ensures Malloc(bs, size).1 == 0 ==> Malloc(bs, size).0 == bs
    ensures Malloc(bs, size).1 != 0 ==>
              exists b :: b in bs && Fits(b, RoundUp(size)) && Malloc(bs, size).1 == b.Payload() &&
                          forall c :: c in bs && Fits(c, RoundUp(size)) ==> b.addr <= c.addr
  {
    var n, i := RoundUp(size), FirstFit(bs, RoundUp(size));
    if i < |bs| {
      assert bs[i] in bs;
      forall c | c in bs && Fits(c, n)
        ensures bs[i].addr <= c.addr
      {
        var j :| 0 <= j < |bs| && bs[j] == c;
        if i < j {
          Ordered(bs, lo, hi, i, j);
        }
      }
    }
  }

  /** A block is split exactly when 64 bytes would be left over: then the client gets the rounded size and the rest is a
      free block behind it; otherwise the client gets the whole block. */
  lemma GrantedSize(bs: seq<Block>, size: nat, lo: nat, hi: nat, b: Block)
    requires Tiles(bs, lo, hi) && Malloc(bs, size).1 != 0
    requires b in bs && b.Payload() == Malloc(bs, size).1
    ensures var bs', n := Malloc(bs, size).0, RoundUp(size);
            && Block(b.addr, if b.size >= n + 64 then n else b.size, false) in bs'
            && (b.size >= n + 64 ==> Block(b.addr + 32 + n, b.size - n - 32, true) in bs')
            && |bs'| == (if b.size >= n + 64 then |bs| + 1 else |bs|)
  {
    var i, n := FirstFit(bs, RoundUp(size)), RoundUp(size);
    SamePayload(bs, lo, hi, bs[i], b);
    var m, bs' := Granted(b, n), Malloc(bs, size).0;
    assert bs'[i] == m[0];
    if b.size >= n + 64 {
      assert bs'[i + 1] == m[1];
    }
  }

  // What clients hold, for as long as they hold it.

  /** The payload of a live block meets neither another payload nor any header. */
  lemma PayloadsPrivate(bs: seq<Block>, lo: nat, hi: nat, b: Block, c: Block, x: nat)
    requires Tiles(bs, lo, hi) && b in bs && c in bs && b.Payload() <= x < b.End()
    ensures lo <= x < hi
    ensures b != c ==> !(c.addr <= x < c.End())
    ensures !(c.addr <= x < c.Payload())
  {
    Partition(bs, lo, hi, x);
  }

  /** The ledger names exactly the live pointers, and each live block covers its request with at most 63 bytes to
      spare. A request above 2^64 - 8 wraps, and then and only then the block is too small for it. */
  ghost predicate Matches(live: set<Block>, asked: map<nat, nat>) {
    && (forall p :: p in asked <==> exists b :: b in live && b.Payload() == p)
    && (forall b :: b in live && b.Payload() in asked ==> Covers(b, asked[b.Payload()]))
  }

  predicate Covers(b: Block, size: nat) {
    (b.size >= size <==> size <= TWO_64 - 8) && b.size <= size + 63
  }

  ghost predicate Ledger(h: Heap) {
    Matches(Live(h.blocks), h.asked)
  }

  lemma MatchesAdd(live: set<Block>, asked: map<nat, nat>, g: Block, size: nat)
    requires Matches(live, asked) && Covers(g, size) && forall c :: c in live ==> c.Payload() != g.Payload()
    ensures Matches(live + {g}, asked[g.Payload() := size])
  {
  }

  lemma MatchesRemove(live: set<Block>, asked: map<nat, nat>, b: Block)
    requires Matches(live, asked) && b in live && forall c :: c in live && c != b ==> c.Payload() != b.Payload()
    ensures Matches(live - {b}, asked - {b.Payload()})
  {
  }

  lemma SamePayload(bs: seq<Block>, lo: nat, hi: nat, b: Block, c: Block)
    requires Tiles(bs, lo, hi) && b in bs && c in bs && b.addr == c.addr
    ensures b == c
  {
    Partition(bs, lo, hi, lo);
  }

  /** A granted block has a payload address no live block has, and wastes at most 63 bytes of the request. */
  lemma GrantFresh(bs: seq<Block>, size: nat, lo: nat, hi: nat, i: nat)
    requires WellFormed(bs, lo, hi) && 0 < size < TWO_64 && i < |bs| && Fits(bs[i], RoundUp(size))
    ensures var g := Granted(bs[i], RoundUp(size))[0];
            g.addr == bs[i].addr && Covers(g, size) && forall c :: c in Live(bs) ==> c.Payload() != g.Payload()
  {
    RoundUpAligned(size);
    var b, g := bs[i], Granted(bs[i], RoundUp(size))[0];
    assert b in bs && g.size % 8 == 0;
    forall c | c in Live(bs)
      ensures c.Payload() != g.Payload()
    {
      if c.addr == b.addr {
        SamePayload(bs, lo, hi, b, c);
      }
    }
  }

  lemma AllocateLedger(h: Heap, size: nat, lo: nat, hi: nat)
    requires WellFormed(h.blocks, lo, hi) && Ledger(h) && size < TWO_64
    ensures Ledger(Next(h, Allocate(size)))
  {
    var i := FirstFit(h.blocks, RoundUp(size));
    if size != 0 && i < |h.blocks| {
      hide Carve, Granted, RoundUp, Matches, WellFormed, Live;
      CarveLive(h.blocks, i, RoundUp(size));
      GrantFresh(h.blocks, size, lo, hi, i);
      MatchesAdd(Live(h.blocks), h.asked, Granted(h.blocks[i], RoundUp(size))[0], size);
    }
  }

  lemma DeallocateLedger(h: Heap, ptr: nat, lo: nat, hi: nat)
    requires WellFormed(h.blocks, lo, hi) && Ledger(h) && Legal(h, Deallocate(ptr))
    ensures Ledger(Next(h, Deallocate(ptr)))
  {
    if IsLive(h.blocks, ptr) {
      var b := h.blocks[IndexOf(h.blocks, ptr)];
      ReleaseWellFormed(h.blocks, lo, hi, IndexOf(h.blocks, ptr));
      forall c | c in Live(h.blocks) && c != b
        ensures c.Payload() != ptr
      {
        if c.Payload() == ptr {
          SamePayload(h.blocks, lo, hi, b, c);
        }
      }
      MatchesRemove(Live(h.blocks), h.asked, b);
    } else {
      assert 0 !in h.asked;
    }
  }

  /** For its whole lifetime a block granted for r bytes has between r and r + 63 bytes. */
  lemma {:induction false} RunLedger(lo: nat, ops: seq<HeapOp>)
    requires lo % 8 == 0 && LegalRun(Start(lo), ops)
    ensures Ledger(Run(Start(lo), ops))
  {
    if ops != [] {
      var front, op := ops[..|ops| - 1], ops[|ops| - 1];
      RunLedger(lo, front);
      RunWellFormed(lo, front);
      var h := Run(Start(lo), front);
      match op
      case Allocate(size) => AllocateLedger(h, size, lo, lo + POOL_SIZE);
      case Deallocate(ptr) => DeallocateLedger(h, ptr, lo, lo + POOL_SIZE);
    }
  }

  /** Once every pointer has been freed, in whatever order, the heap is again what heap_init made. */
  lemma DrainedByFrees(lo: nat, ops: seq<HeapOp>)
    requires lo % 8 == 0 && LegalRun(Start(lo), ops) && Run(Start(lo), ops).asked == map[]
    ensures Run(Start(lo), ops).blocks == [Block(lo, 262112, true)]
  {
    RunLedger(lo, ops);
    var h := Run(Start(lo), ops);
    forall b
      ensures b !in Live(h.blocks)
    {
      assert b.Payload() !in h.asked;
    }
    Drained(lo, ops);
  }

  // When allocation must succeed.

  function CountLive(bs: seq<Block>): nat {
    if bs == [] then 0 else (if bs[0].free then 0 else 1) + CountLive(bs[1..])
  }

  /** Total payload of the live blocks. */
  function LiveBytes(bs: seq<Block>): nat {
    if bs == [] then 0 else (if bs[0].free then 0 else bs[0].size) + LiveBytes(bs[1..])
  }

  function CountFree(bs: seq<Block>): nat {
    if bs == [] then 0 else (if bs[0].free then 1 else 0) + CountFree(bs[1..])
  }

  function FreeBytes(bs: seq<Block>): nat {
    if bs == [] then 0 else (if bs[0].free then bs[0].size else 0) + FreeBytes(bs[1..])
  }

  /** Conservation: headers, live payloads and free payloads together are the pool. */
  lemma {:induction false} Conservation(bs: seq<Block>, lo: nat, hi: nat)
    requires Tiles(bs, lo, hi)
    ensures hi - lo == HEADER_SIZE * (CountLive(bs) + CountFree(bs)) + LiveBytes(bs) + FreeBytes(bs)
  {
    if bs != [] {
      Conservation(bs[1..], bs[0].End(), hi);
    }
  }

  /** Free blocks are separated by live ones. */
  lemma {:induction false} FewFreeBlocks(bs: seq<Block>)
    requires Coalesced(bs)
    ensures CountFree(bs) <= CountLive(bs) + (if bs != [] && bs[0].free then 1 else 0)
  {
    if bs != [] {
      FewFreeBlocks(bs[1..]);
    }
  }

  lemma {:induction false} SmallFreeBlocks(bs: seq<Block>, m: nat)
    requires forall b :: b in bs && b.free ==> b.size <= m
    ensures FreeBytes(bs) <= CountFree(bs) * m
  {
    if bs != [] {
      assert bs[0] in bs;
      SmallFreeBlocks(bs[1..], m);
      if bs[0].free {
        assert CountFree(bs) * m == m + CountFree(bs[1..]) * m;
      }
    }
  }

  lemma NoRoom(m: nat, k: nat, f: nat, bytes: nat)
    requires f <= k + 1 && bytes <= f * m
    ensures HEADER_SIZE * f + bytes <= (k + 1) * (m + 32)
  {
    assert f * m <= (k + 1) * m;
    assert (k + 1) * (m + 32) == (k + 1) * m + 32 * (k + 1);
  }

  /** When no free block exceeds m bytes, little of the pool is free. */
  lemma LittleFree(bs: seq<Block>, lo: nat, hi: nat, m: nat)
    requires WellFormed(bs, lo, hi) && forall b :: b in bs && b.free ==> b.size <= m
    ensures hi - lo - HEADER_SIZE * CountLive(bs) - LiveBytes(bs) <= (CountLive(bs) + 1) * (m + 32)
  {
    Conservation(bs, lo, hi);
    FewFreeBlocks(bs);
    SmallFreeBlocks(bs, m);
    NoRoom(m, CountLive(bs), CountFree(bs), FreeBytes(bs));
  }

  lemma FreeSizes(bs: seq<Block>, n: nat)
    requires Aligned(bs) && n % 8 == 0 && n > 0 && forall b :: b in bs ==> !Fits(b, n)
    ensures forall b :: b in bs && b.free ==> b.size <= n - 8
  {
    forall b | b in bs && b.free
      ensures b.size <= n - 8
    {
      assert !Fits(b, n);
    }
  }

  /** With k live blocks of total payload L, a request that rounds to n bytes succeeds whenever
      (k + 1) * (n + 24) < 262144 - 32 * k - L: coalescing leaves at most k + 1 free blocks. */
  lemma SuccessBound(bs: seq<Block>, lo: nat, size: nat)
    requires WellFormed(bs, lo, lo + POOL_SIZE) && 0 < size <= TWO_64 - 8
    requires (CountLive(bs) + 1) * (RoundUp(size) + 24) < POOL_SIZE - HEADER_SIZE * CountLive(bs) - LiveBytes(bs)
    ensures Malloc(bs, size).1 != 0
  {
    RoundUpAligned(size);
    FirstFitting(bs, size, lo, lo + POOL_SIZE);
    if Malloc(bs, size).1 == 0 {
      hide RoundUp, Malloc, CountLive, LiveBytes;
      FreeSizes(bs, RoundUp(size));
      LittleFree(bs, lo, lo + POOL_SIZE, RoundUp(size) - 8);
    }
  }
}
