/** heap_init: claiming the heap's pool from the page allocator. */
module Boot {
  import opened Words
  import opened PageSets
  import PageRuns
  import Pmm
  import Blocks
  import Heap

  const HEAP_PAGES: nat := 64

  /** The first k pages that repeated allocation takes from the free pages s, in order. */
  ghost function Lowest(s: set<nat>, k: nat): seq<nat> {
    if k == 0 || s == {} then [] else [Min(s)] + Lowest(s - {Min(s)}, k - 1)
  }

  /** What k allocations leave of the free pages s. */
  ghost function Rest(s: set<nat>, k: nat): set<nat> {
    if k == 0 || s == {} then s else Rest(s - {Min(s)}, k - 1)
  }

  ghost function Elements(xs: seq<nat>): set<nat> {
    set x | x in xs
  }

  /** The pages the heap writes to: 64 consecutive ones from the first it was given. */
  ghost function PoolPages(first: nat): set<nat> {
    set p: nat | p < first + HEAP_PAGES && InPool(p, first)
  }

  predicate InPool(p: nat, first: nat) {
    first <= p < first + HEAP_PAGES
  }

  /** Physical address a is one of the bytes the heap uses when its pool starts at page `first`. */
  predicate PoolByte(first: nat, a: nat) {
    first * PAGE_SIZE <= a < first * PAGE_SIZE + Blocks.POOL_SIZE
  }

  /** The pages of the pool are exactly those that hold its bytes. */
  lemma PoolBytes(first: nat, a: nat)
    ensures PoolByte(first, a) <==> a / PAGE_SIZE in PoolPages(first)
  {
    assert InPool(a / PAGE_SIZE, first) <==> a / PAGE_SIZE in PoolPages(first);
  }

  /** Every byte of the pool lies in a page of s. */
  ghost predicate PoolWithin(s: set<nat>, first: nat) {
    forall a: nat :: PoolByte(first, a) ==> a / PAGE_SIZE in s
  }

  /** No byte of the pool lies in a page of s. */
  ghost predicate PoolOutside(s: set<nat>, first: nat) {
    forall a: nat :: PoolByte(first, a) ==> a / PAGE_SIZE !in s
  }

  lemma PoolWithinPages(s: set<nat>, first: nat)
    ensures PoolWithin(s, first) <==> PoolPages(first) <= s
    ensures PoolOutside(s, first) <==> PoolPages(first) !! s
  {
    hide PoolPages, PoolByte;
    forall a: nat
      ensures PoolByte(first, a) <==> a / PAGE_SIZE in PoolPages(first)
    {
      PoolBytes(first, a);
    }
    forall p | p in PoolPages(first)
      ensures PoolByte(first, p * PAGE_SIZE) && p * PAGE_SIZE / PAGE_SIZE == p
    {
      PageStart(p);
      PoolBytes(first, p * PAGE_SIZE);
    }
  }

  lemma PageStart(p: nat)
    ensures p * PAGE_SIZE / PAGE_SIZE == p
  {
  }

  lemma RestZero(s: set<nat>)
    ensures Rest(s, 0) == s
    ensures forall k :: Rest({}, k) == {}
  {
  }

  lemma {:induction false} RestStep(s: set<nat>, k: nat)
    ensures Rest(s, k + 1) == if Rest(s, k) == {} then {} else Rest(s, k) - {Min(Rest(s, k))}
  {
    if k > 0 && s != {} {
      RestStep(s - {Min(s)}, k - 1);
    }
  }

  lemma {:induction false} LowestCount(s: set<nat>, k: nat)
    ensures |Lowest(s, k)| == if |s| < k then |s| else k
  {
    if k > 0 && s != {} {
      MinIn(s);
      assert |s - {Min(s)}| == |s| - 1;
      LowestCount(s - {Min(s)}, k - 1);
    }
  }

  lemma {:induction false} TakenOrLeft(s: set<nat>, k: nat, x: nat)
    ensures x in s <==> x in Lowest(s, k) || x in Rest(s, k)
    ensures !(x in Lowest(s, k) && x in Rest(s, k))
  {
    if k > 0 && s != {} {
      hide IsMin;
      MinIn(s);
      var s' := s - {Min(s)};
      assert Lowest(s, k) == [Min(s)] + Lowest(s', k - 1);
      TakenOrLeft(s', k - 1, x);
    }
  }

  /** Taken pages and the rest make up the free pages. */
  lemma LowestPartition(s: set<nat>, k: nat)
    ensures Elements(Lowest(s, k)) !! Rest(s, k) && Elements(Lowest(s, k)) + Rest(s, k) == s
  {
    forall x: nat
      ensures x in s <==> x in Lowest(s, k) || x in Rest(s, k)
      ensures !(x in Lowest(s, k) && x in Rest(s, k))
    {
      TakenOrLeft(s, k, x);
    }
  }

  lemma {:induction false} RestIsSubset(s: set<nat>, k: nat)
    ensures Rest(s, k) <= s
  {
    if k > 0 && s != {} {
      RestIsSubset(s - {Min(s)}, k - 1);
    }
  }

  /** Every page taken is lower than every page left. */
  lemma {:induction false} LowestFirst(s: set<nat>, k: nat, p: nat, q: nat)
    requires p in Lowest(s, k) && q in Rest(s, k)
    ensures p < q
  {
    hide IsMin;
    var m, s' := Min(s), s - {Min(s)};
    RestIsSubset(s', k - 1);
    assert Lowest(s, k) == [m] + Lowest(s', k - 1);
    assert q in s' && m < q by { MinBelow(s, q); }
    if p != m {
      LowestFirst(s', k - 1, p, q);
    }
  }

  lemma MinBelow(s: set<nat>, q: nat)
    requires q in s
    ensures Min(s) <= q
  {
  }

  /** The pages are taken in ascending order. */
  lemma {:induction false} LowestAscending(s: set<nat>, k: nat, i: nat, j: nat)
    requires i < j < |Lowest(s, k)|
    ensures Lowest(s, k)[i] < Lowest(s, k)[j]
  {
    hide IsMin;
    var m, s' := Min(s), s - {Min(s)};
    var xs' := Lowest(s', k - 1);
    assert Lowest(s, k) == [m] + xs';
    if i > 0 {
      LowestAscending(s', k - 1, i - 1, j - 1);
    } else {
      LowestIsSubset(s', k - 1, j - 1);
      MinBelow(s, xs'[j - 1]);
    }
  }

  lemma {:induction false} LowestIsSubset(s: set<nat>, k: nat, j: nat)
    requires j < |Lowest(s, k)|
    ensures Lowest(s, k)[j] in s
  {
    hide IsMin;
    var s' := s - {Min(s)};
    assert Lowest(s, k) == [Min(s)] + Lowest(s', k - 1);
    if j > 0 {
      LowestIsSubset(s', k - 1, j - 1);
    } else {
      MinIn(s);
    }
  }

  lemma MinIn(s: set<nat>)
    requires s != {}
    ensures Min(s) in s
  {
  }

  /** When k consecutive pages from the lowest free one on are free, those are the ones taken, in order. */
  lemma {:induction false} ConsecutivePages(s: set<nat>, k: nat)
    requires s != {} && forall p :: Min(s) <= p < Min(s) + k ==> p in s
    ensures Lowest(s, k) == seq(k, i requires 0 <= i => Min(s) + i)
  {
    if k > 1 {
      var m, s' := Min(s), s - {Min(s)};
      assert m + 1 in s';
      MinUnique(m + 1, s');
      ConsecutivePages(s', k - 1);
    }
  }

  /** The same in terms of pages: the whole pool is taken exactly when the 64 pages from the lowest free one on are all
      free, and then nothing else is. */
  lemma PoolPagesTaken(s: set<nat>)
    requires s != {}
    ensures PoolPages(Min(s)) <= Elements(Lowest(s, HEAP_PAGES)) <==> PoolPages(Min(s)) <= s
    ensures PoolPages(Min(s)) <= s ==> PoolPages(Min(s)) == Elements(Lowest(s, HEAP_PAGES))
  {
    var xs, m := Lowest(s, HEAP_PAGES), Min(s);
    LowestPartition(s, HEAP_PAGES);
    if PoolPages(m) <= s {
      forall p | m <= p < m + HEAP_PAGES
        ensures p in s
      {
        assert InPool(p, m);
      }
      ConsecutivePages(s, HEAP_PAGES);
      forall p
        ensures p in xs <==> p in PoolPages(m)
      {
        if p in PoolPages(m) {
          assert xs[p - m] == p;
        }
      }
    }
  }

  /** The heap owns all bytes of its pool exactly when those bytes lie in free pages. Then the pages taken are
      exactly the pages of these bytes, and no byte of the pool lies in a page that is still free. */
  lemma PoolOwnership(s: set<nat>)
    requires s != {}
    ensures PoolWithin(Elements(Lowest(s, HEAP_PAGES)), Min(s)) <==> PoolWithin(s, Min(s))
    ensures PoolWithin(s, Min(s)) ==>
              && (forall a: nat :: PoolByte(Min(s), a) <==> a / PAGE_SIZE in Elements(Lowest(s, HEAP_PAGES)))
              && PoolOutside(Rest(s, HEAP_PAGES), Min(s))
  {
    hide PoolByte, PoolPages, Lowest, Rest, PoolWithin, PoolOutside;
    var taken := Elements(Lowest(s, HEAP_PAGES));
    PoolPagesTaken(s);
    LowestPartition(s, HEAP_PAGES);
    PoolWithinPages(s, Min(s));
    PoolWithinPages(taken, Min(s));
    PoolWithinPages(Rest(s, HEAP_PAGES), Min(s));
    forall a: nat
      ensures PoolByte(Min(s), a) <==> a / PAGE_SIZE in PoolPages(Min(s))
    {
      PoolBytes(Min(s), a);
    }
  }

  /** A memory map with a hole after the lowest free page: the pool contains the bytes of page 257, which nobody
      allocated. */
  lemma PoolGapExample()
    ensures var s: set<nat> := {256, 258};
            && Min(s) == 256
            && PoolByte(Min(s), 257 * 4096) && 257 !in Elements(Lowest(s, HEAP_PAGES))
            && !PoolWithin(Elements(Lowest(s, HEAP_PAGES)), Min(s))
  {
    var s: set<nat> := {256, 258};
    MinUnique(256, s);
    PoolOwnership(s);
    LowestPartition(s, HEAP_PAGES);
    assert 257 * 4096 / PAGE_SIZE == 257;
  }

  /** While clients give back only pages of their own, no later allocation returns a page that holds a byte of an
      owned pool. */
  lemma PoolStaysOwned(s: set<nat>, held: set<nat>, ops: seq<PageRuns.PageOp>, i: nat, a: nat)
    requires s != {} && s !! held && PoolWithin(s, Min(s)) && PoolByte(Min(s), a)
    requires var start := PageRuns.Pages(Rest(s, HEAP_PAGES), held + Elements(Lowest(s, HEAP_PAGES)));
             PageRuns.LegalRun(start, ops) && PageRuns.HandsOut(start, ops, i, a / PAGE_SIZE)
    ensures exists k :: 0 <= k < i && ops[k] == PageRuns.Give(a / PAGE_SIZE)
  {
    hide PoolByte, PoolWithin, PoolOutside, Lowest, Rest;
    LowestPartition(s, HEAP_PAGES);
    PoolOwnership(s);
    var p := a / PAGE_SIZE;
    var start := PageRuns.Pages(Rest(s, HEAP_PAGES), held + Elements(Lowest(s, HEAP_PAGES)));
    PageRuns.LegalPrefix(start, ops, i);
    PageRuns.Conservation(start, ops[..i]);
    if forall k :: 0 <= k < i ==> ops[k] != PageRuns.Give(p) {
      assert ops[..0] == [];
      PageRuns.HeldUntilGiven(start, ops, 0, i, p);
      assert false;
    }
  }

  lemma PageBound(p: nat)
    requires p < PAGES
    ensures p * PAGE_SIZE < 0x1_0000_0000 && p * PAGE_SIZE % 4096 == 0
  {
  }

  /** Page p, mapped at hhdm, has no byte in the heap's pool at address head. */
  predicate PageApart(hhdm: nat, p: nat, head: nat) {
    hhdm + (p + 1) * PAGE_SIZE <= head || head + Blocks.POOL_SIZE <= hhdm + p * PAGE_SIZE
  }

  lemma FreePageApart(hhdm: nat, s: set<nat>, first: nat, p: nat)
    requires PoolOutside(s, first) && p in s
    ensures PageApart(hhdm, p, hhdm + first * PAGE_SIZE)
  {
    PageStart(p);
    assert !PoolByte(first, p * PAGE_SIZE);
  }

  /** heap_init: takes 64 pages and places the pool at the first of them. When no page is free the heap stays
      uninitialised. The other 63 addresses are not looked at. */
  method HeapInit(pmm: Pmm.PageAllocator, heap: Heap.KernelHeap, hhdm: nat)
    requires pmm.Valid() && forall p :: p in pmm.Free() ==> RESERVED_PAGES <= p < PAGES
    requires heap.Valid() && heap.head == 0
    requires hhdm % PAGE_SIZE == 0 && hhdm + 0x1_0000_0000 + Blocks.POOL_SIZE < TWO_64
    modifies pmm, pmm.bitmap, heap, heap.mem
    ensures pmm.Valid() && heap.Valid()
    ensures pmm.Free() == Rest(old(pmm.Free()), HEAP_PAGES)
    ensures old(pmm.Free()) != {} && PoolWithin(old(pmm.Free()), Min(old(pmm.Free()))) ==>
              forall p :: p in pmm.Free() ==> PageApart(hhdm, p, heap.head)
    ensures old(pmm.Free()) == {} ==> heap.head == 0
    ensures old(pmm.Free()) != {} ==>
              && heap.head == hhdm + Min(old(pmm.Free())) * PAGE_SIZE
              && heap.blocks == [Blocks.Block(heap.head, 262112, true)]
  {
    hide Rest, Pmm.FreeSet, Blocks.Tiles, Heap.KernelHeap.Linked;
    ghost var s := pmm.Free();
    RestStep(s, 0);
    RestZero(s);
    var firstPhys := pmm.Alloc();
    if firstPhys == 0 {
      return;
    }
    for i := 1 to HEAP_PAGES
      invariant pmm.Valid() && pmm.Free() == Rest(s, i)
      invariant heap.Valid() && heap.head == 0 && heap.mem.Length == Blocks.POOL_SIZE && heap.blocks == []
    {
      RestStep(s, i);
      var discarded := pmm.Alloc();
    }
    PageBound(Min(s));
    heap.Place(hhdm + firstPhys);
    if PoolWithin(s, Min(s)) {
      PoolOwnership(s);
      forall p | p in pmm.Free()
        ensures PageApart(hhdm, p, heap.head)
      {
        FreePageApart(hhdm, pmm.Free(), Min(s), p);
      }
    }
  }
}
