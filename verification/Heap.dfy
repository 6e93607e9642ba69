/** The kernel heap: a first-fit allocator on a doubly linked list of headers inside the pool's own bytes. */
module Heap {
  import opened Words
  import opened Blocks
  import opened HeapMemory

  lemma SplitAt(bs: seq<Block>, i: nat, n: nat)
    requires i < |bs| && Fits(bs[i], n) && bs[i].size >= n + HEADER_SIZE + MIN_SPLIT
    ensures |Carve(bs, i, n)| == |bs| + 1
    ensures forall k :: 0 <= k < i ==> Carve(bs, i, n)[k] == bs[k]
    ensures Carve(bs, i, n)[i] == Block(bs[i].addr, n, false)
    ensures Carve(bs, i, n)[i + 1] == Block(bs[i].Payload() + n, bs[i].size - n - HEADER_SIZE, true)
    ensures forall k :: i + 2 <= k <= |bs| ==> Carve(bs, i, n)[k] == bs[k - 1]
  {
  }

  /** What the stores of a split leave in the headers: the new one at the address `at`, its two neighbours, and
      every other header as it was. */
  ghost predicate SplitHeaders(m: seq<Byte>, base: nat, bs: seq<Block>, i: nat, n: nat, free: bool)
    requires i < |bs| && n + HEADER_SIZE <= bs[i].size
  {
    var at := bs[i].Payload() + n;
    && HeaderIn(m, base, at)
         == Header(HEAP_MAGIC, bs[i].size - n - HEADER_SIZE, true, Expected(bs, i).next, bs[i].addr)
    && HeaderIn(m, base, bs[i].addr) == Expected(bs, i).(size := n, free := free, next := at)
    && (i + 1 < |bs| ==> HeaderIn(m, base, bs[i + 1].addr) == Expected(bs, i + 1).(prev := at))
    && forall k :: 0 <= k < |bs| && k != i && k != i + 1 ==> HeaderOk(m, base, bs, k)
  }

  lemma SplitHeaderOk(m: seq<Byte>, base: nat, bs: seq<Block>, i: nat, n: nat, k: nat)
    requires i < |bs| && Fits(bs[i], n) && bs[i].size >= n + HEADER_SIZE + MIN_SPLIT && k <= |bs|
    requires SplitHeaders(m, base, bs, i, n, false)
    ensures |Carve(bs, i, n)| == |bs| + 1 && HeaderOk(m, base, Carve(bs, i, n), k)
  {
    hide Carve, HeaderIn;
    SplitAt(bs, i, n);
    if k < i {
      assert HeaderOk(m, base, bs, k);
    } else if k > i + 2 {
      assert HeaderOk(m, base, bs, k - 1);
    }
  }

  /** Linking a new header into the list turns the bytes of bs into those of the list with block i carved. */
  lemma SplitRepresents(m: seq<Byte>, m': seq<Byte>, base: nat, bs: seq<Block>, i: nat, n: nat)
    requires Represents(m, base, bs) && Coalesced(bs) && i < |bs| && |m'| == |m|
    requires Fits(bs[i], n) && n % 8 == 0 && bs[i].size >= n + HEADER_SIZE + MIN_SPLIT
    requires SplitHeaders(m', base, bs, i, n, false)
    ensures Represents(m', base, Carve(bs, i, n))
  {
    var after := Carve(bs, i, n);
    CarveWellFormed(bs, base, base + POOL_SIZE, i, n);
    SplitAt(bs, i, n);
    forall k | 0 <= k < |after|
      ensures HeaderOk(m', base, after, k)
    {
      SplitHeaderOk(m', base, bs, i, n, k);
    }
  }

  /** Changing only the free flag of block i. */
  lemma FlagRepresents(m: seq<Byte>, m': seq<Byte>, base: nat, bs: seq<Block>, i: nat, free: bool)
    requires Represents(m, base, bs) && i < |bs| && |m'| == |m|
    requires HeaderIn(m', base, bs[i].addr) == Expected(bs, i).(free := free)
    requires forall k :: 0 <= k < |bs| && k != i ==> HeaderOk(m', base, bs, k)
    ensures Represents(m', base, bs[i := bs[i].(free := free)])
  {
    var after := bs[i := bs[i].(free := free)];
    FlagTiles(bs, base, base + POOL_SIZE, i, free);
    assert bs[i] in bs;
    forall k | 0 <= k < |after|
      ensures HeaderOk(m', base, after, k)
    {
      if k != i {
        assert HeaderOk(m', base, bs, k);
      }
    }
  }

  lemma FlagTiles(bs: seq<Block>, lo: nat, hi: nat, i: nat, free: bool)
    requires Tiles(bs, lo, hi) && i < |bs|
    ensures Tiles(bs[i := bs[i].(free := free)], lo, hi)
  {
    var b, f := bs[i], bs[i].(free := free);
    Pieces(bs, i, 1);
    assert bs[i := f] == bs[..i] + [f] + bs[i + 1..];
    assert Tiles([b][1..], b.End(), b.End()) && Tiles([f][1..], b.End(), b.End());
    TilesReplace(bs[..i], [b], [f], bs[i + 1..], lo, hi, b.addr, b.End());
  }

  /** What the stores of a merge leave in the headers. */
  ghost predicate MergeHeaders(m: seq<Byte>, base: nat, bs: seq<Block>, i: nat)
    requires i + 1 < |bs|
  {
    && HeaderIn(m, base, bs[i].addr)
         == Expected(bs, i).(size := bs[i].size + HEADER_SIZE + bs[i + 1].size, next := Expected(bs, i + 1).next)
    && (i + 2 < |bs| ==> HeaderIn(m, base, bs[i + 2].addr) == Expected(bs, i + 2).(prev := bs[i].addr))
    && forall k :: 0 <= k < |bs| && k != i && k != i + 2 ==> HeaderOk(m, base, bs, k)
  }

  lemma MergeAt(bs: seq<Block>, i: nat)
    requires i + 1 < |bs| && bs[i].free && bs[i + 1].free
    ensures |Merge(bs, i)| == |bs| - 1
    ensures forall k :: 0 <= k < i ==> Merge(bs, i)[k] == bs[k]
    ensures Merge(bs, i)[i] == Joined(bs[i], bs[i + 1])
    ensures forall k :: i + 1 <= k < |bs| - 1 ==> Merge(bs, i)[k] == bs[k + 1]
  {
  }

  lemma MergedFlags(m: seq<Byte>, base: nat, bs: seq<Block>, i: nat)
    requires i + 1 < |bs| && MergeHeaders(m, base, bs, i)
    ensures forall k :: 0 <= k < |bs| ==> HeaderIn(m, base, bs[k].addr).free == bs[k].free
  {
    forall k | 0 <= k < |bs|
      ensures HeaderIn(m, base, bs[k].addr).free == bs[k].free
    {
      assert k == i || k == i + 2 || HeaderOk(m, base, bs, k);
    }
  }

  lemma FlagsSound(m: seq<Byte>, base: nat, bs: seq<Block>)
    requires Represents(m, base, bs)
    ensures forall k :: 0 <= k < |bs| ==> HeaderIn(m, base, bs[k].addr).free == bs[k].free
  {
    forall k | 0 <= k < |bs|
      ensures HeaderIn(m, base, bs[k].addr).free == bs[k].free
    {
      assert HeaderOk(m, base, bs, k);
    }
  }

  lemma MergeHeaderOk(m: seq<Byte>, base: nat, bs: seq<Block>, i: nat, k: nat)
    requires i + 1 < |bs| && bs[i].free && bs[i + 1].free && k < |bs| - 1
    requires MergeHeaders(m, base, bs, i)
    ensures |Merge(bs, i)| == |bs| - 1 && HeaderOk(m, base, Merge(bs, i), k)
  {
    hide Merge, HeaderIn;
    MergeAt(bs, i);
    if k < i {
      assert HeaderOk(m, base, bs, k);
    } else if k > i + 1 {
      assert HeaderOk(m, base, bs, k + 1);
    }
  }

  /** Unlinking the header of a free successor merges it into block i. */
  lemma MergeRepresents(m: seq<Byte>, m': seq<Byte>, base: nat, bs: seq<Block>, i: nat)
    requires Represents(m, base, bs) && i + 1 < |bs| && bs[i].free && bs[i + 1].free && |m'| == |m|
    requires MergeHeaders(m', base, bs, i)
    ensures Represents(m', base, Merge(bs, i))
  {
    Pieces(bs, i, 2);
    JoinedTiles(bs[..i], bs[i], bs[i + 1], bs[i + 2..], base, base + POOL_SIZE);
    MergeAt(bs, i);
    forall k | 0 <= k < |bs| - 1
      ensures HeaderOk(m', base, Merge(bs, i), k)
    {
      MergeHeaderOk(m', base, bs, i, k);
    }
  }

  /** Where the other blocks lie, seen from block i. */
  lemma Around(bs: seq<Block>, lo: nat, hi: nat, i: nat)
    requires Tiles(bs, lo, hi) && i < |bs|
    ensures lo <= bs[i].addr && bs[i].End() <= hi
    ensures forall k :: 0 <= k < i ==> bs[k].End() <= bs[i].addr
    ensures forall k :: i < k < |bs| ==> bs[i].End() <= bs[k].addr
    ensures i + 1 < |bs| ==> bs[i + 1].addr == bs[i].End() && bs[i + 1].End() <= hi
  {
    TilesAt(bs, lo, hi, i);
    forall k | 0 <= k < i
      ensures bs[k].End() <= bs[i].addr
    {
      Ordered(bs, lo, hi, k, i);
    }
    forall k | i < k < |bs|
      ensures bs[i].End() <= bs[k].addr
    {
      Ordered(bs, lo, hi, i, k);
    }
    if i + 1 < |bs| {
      Ordered(bs, lo, hi, i, i + 1);
      TilesAt(bs, lo, hi, i + 1);
    }
  }

  /** Writing only inside block i and the header of block j leaves the other headers as they were. */
  lemma OthersKept(m: seq<Byte>, m': seq<Byte>, base: nat, bs: seq<Block>, i: nat, j: nat)
    requires Represents(m, base, bs) && |m'| == |m| && i < |bs| && j < |bs|
    requires forall x :: 0 <= x < |m| && m'[x] != m[x] ==>
                           bs[i].addr <= base + x < bs[i].End() || bs[j].addr <= base + x < bs[j].Payload()
    ensures forall k :: 0 <= k < |bs| && k != i && k != j ==> HeaderOk(m', base, bs, k)
  {
    Around(bs, base, base + POOL_SIZE, i);
    Around(bs, base, base + POOL_SIZE, j);
    forall k | 0 <= k < |bs| && k != i && k != j
      ensures HeaderOk(m', base, bs, k)
    {
      assert HeaderOk(m, base, bs, k);
      SameHeader(m, m', base, bs[k].addr);
    }
  }

  lemma SameHeader(m: seq<Byte>, m': seq<Byte>, base: nat, a: nat)
    requires |m'| == |m| && forall x :: 0 <= x < |m| && a <= base + x < a + HEADER_SIZE ==> m'[x] == m[x]
    ensures HeaderIn(m', base, a) == HeaderIn(m, base, a)
  {
    if |m| == POOL_SIZE && InPool(base, a) {
      assert m'[a - base..a - base + HEADER_SIZE] == m[a - base..a - base + HEADER_SIZE];
    }
  }

  lemma {:induction false} FirstFitUnique(bs: seq<Block>, n: nat, i: nat)
    requires i <= |bs| && (i < |bs| ==> Fits(bs[i], n)) && forall j :: 0 <= j < i ==> !Fits(bs[j], n)
    ensures FirstFit(bs, n) == i
  {
    var k := FirstFit(bs, n);
  }

  lemma WholeGrant(bs: seq<Block>, i: nat, n: nat)
    requires i < |bs| && Fits(bs[i], n) && bs[i].size < n + HEADER_SIZE + MIN_SPLIT
    ensures Carve(bs, i, n) == bs[i := bs[i].(free := false)]
  {
  }

  /** The whole request lies in the payload of the granted block. */
  lemma GrantedCovers(bs: seq<Block>, bs': seq<Block>, lo: nat, hi: nat, size: nat)
    requires WellFormed(bs', lo, hi) && 0 < size <= TWO_64 - 8
    requires Malloc(bs, size).1 != 0 && bs' == Malloc(bs, size).0
    ensures var p := Malloc(bs, size).1; lo <= p && p + size <= hi && forall x :: p <= x < p + size ==> InPayload(bs', x)
  {
    var i := FirstFit(bs, RoundUp(size));
    RoundUpAligned(size);
    var g := Granted(bs[i], RoundUp(size))[0];
    assert bs'[i] == g;
    assert g in Live(bs');
    TilesAt(bs', lo, hi, i);
  }

  lemma KeptTwice(m: seq<Byte>, m1: seq<Byte>, m2: seq<Byte>, base: nat, bs: seq<Block>, cs: seq<Block>, ds: seq<Block>)
    requires PayloadsKept(m, m1, base, bs) && (m1 == m2 || PayloadsKept(m1, m2, base, cs))
    requires Live(ds) <= Live(cs) && Live(cs) <= Live(bs)
    ensures PayloadsKept(m, m2, base, ds)
  {
  }

  /** The header of block k is intact and says what the block is. */
  lemma HeaderSound(m: seq<Byte>, base: nat, bs: seq<Block>, k: nat)
    requires Represents(m, base, bs) && k <= |bs|
    ensures bs != [] && bs[0].addr == base
    ensures k < |bs| ==> bs[k].addr > 0 && HeaderIn(m, base, bs[k].addr) == Expected(bs, k)
  {
    if k < |bs| {
      assert HeaderOk(m, base, bs, k);
      TilesAt(bs, base, base + POOL_SIZE, k);
    }
  }

  lemma OutsideKept(m: seq<Byte>, m': seq<Byte>, base: nat, a: nat)
    requires ChangedWithin(m, m', base, a, a + HEADER_SIZE)
    ensures forall b: nat :: b + HEADER_SIZE <= a || a + HEADER_SIZE <= b ==> HeaderIn(m', base, b) == HeaderIn(m, base, b)
  {
    forall b: nat | b + HEADER_SIZE <= a || a + HEADER_SIZE <= b
      ensures HeaderIn(m', base, b) == HeaderIn(m, base, b)
    {
      HeaderUntouched(m, m', base, a, a + HEADER_SIZE, b);
    }
  }

  lemma NoMerge(bs: seq<Block>, i: nat)
    requires i < |bs| && (i + 1 == |bs| || !bs[i].free || !bs[i + 1].free)
    ensures Merge(bs, i) == bs
  {
  }

  /** A merge changes no live block, and block i keeps its place and its predecessor. */
  lemma MergeLives(bs: seq<Block>, lo: nat, hi: nat, i: nat)
    requires Tiles(bs, lo, hi) && Aligned(bs) && i < |bs|
    ensures Live(Merge(bs, i)) == Live(bs)
    ensures i < |Merge(bs, i)| && Merge(bs, i)[i].addr == bs[i].addr && Merge(bs, i)[i].free == bs[i].free
    ensures Tiles(Merge(bs, i), lo, hi) && Aligned(Merge(bs, i))
  {
    if i + 1 < |bs| && bs[i].free && bs[i + 1].free {
      Pieces(bs, i, 2);
      JoinedTiles(bs[..i], bs[i], bs[i + 1], bs[i + 2..], lo, hi);
      MergeAt(bs, i);
    }
  }

  /** The three steps of a release: the flag, the merge with the successor, the merge into the predecessor. */
  lemma ReleaseLives(bs: seq<Block>, lo: nat, hi: nat, i: nat)
    requires WellFormed(bs, lo, hi) && i < |bs| && !bs[i].free
    ensures var freed := bs[i := bs[i].(free := true)];
            var merged := Merge(freed, i);
            && Tiles(freed, lo, hi) && Aligned(freed) && WellFormed(Release(bs, i), lo, hi)
            && i < |merged| && merged[i].addr == bs[i].addr && merged[i].free
            && Release(bs, i) == (if i > 0 then Merge(merged, i - 1) else merged)
            && Live(freed) <= Live(bs) && Live(merged) == Live(freed) && Live(Release(bs, i)) == Live(freed)
  {
    var freed := bs[i := bs[i].(free := true)];
    FlagTiles(bs, lo, hi, i, true);
    assert bs[i] in bs;
    MergeLives(freed, lo, hi, i);
    FreedLive(bs, lo, hi, i);
    ReleaseWellFormed(bs, lo, hi, i);
  }

  /** Only bytes of three headers changed, so no live payload did. */
  lemma HeaderWrites(m: seq<Byte>, m': seq<Byte>, base: nat, bs: seq<Block>, i: nat, j: nat, k: nat)
    requires Tiles(bs, base, base + POOL_SIZE) && i < |bs| && j < |bs| && k < |bs| && |m'| == |m|
    requires forall x :: 0 <= x < |m| && m'[x] != m[x] ==>
                           bs[i].addr <= base + x < bs[i].Payload() || bs[j].addr <= base + x < bs[j].Payload() ||
                           bs[k].addr <= base + x < bs[k].Payload()
    ensures PayloadsKept(m, m', base, bs)
  {
    forall x | 0 <= x < |m| && m'[x] != m[x]
      ensures !InPayload(bs, base + x)
    {
      HeaderNotPayload(bs, base, base + POOL_SIZE,
                       if bs[i].addr <= base + x < bs[i].Payload() then i
                       else if bs[j].addr <= base + x < bs[j].Payload() then j else k, base + x);
    }
  }

  /** Writing only inside the header of block i leaves the other headers as they were. */
  lemma KeepHeaders(m: seq<Byte>, m': seq<Byte>, base: nat, bs: seq<Block>, i: nat)
    requires i < |bs| && Tiles(bs, base, base + POOL_SIZE)
    requires ChangedWithin(m, m', base, bs[i].addr, bs[i].Payload())
    ensures forall a: nat :: a + HEADER_SIZE <= bs[i].addr || bs[i].Payload() <= a ==>
              HeaderIn(m', base, a) == HeaderIn(m, base, a)
    ensures forall k :: 0 <= k < |bs| && k != i && HeaderOk(m, base, bs, k) ==> HeaderOk(m', base, bs, k)
  {
    Around(bs, base, base + POOL_SIZE, i);
    OutsideKept(m, m', base, bs[i].addr);
  }

  class KernelHeap {
    /** The pool's bytes, mapped from address base on. */
    const mem: array<Byte>
    var base: nat
    /** `s_head`: null until heap_init has placed the pool. */
    var head: nat
    ghost var blocks: seq<Block>

    ghost predicate Linked()
      reads this, mem
    {
      head == base && Represents(mem[..], base, blocks)
    }

    ghost predicate Valid()
      reads this, mem
    {
      && mem.Length == POOL_SIZE
      && if head == 0 then blocks == [] else Linked() && Coalesced(blocks)
    }

    constructor ()
      ensures Valid() && head == 0 && fresh(mem)
    {
      mem := new Byte[POOL_SIZE];
      base, head, blocks := 0, 0, [];
    }

    function HeaderAt(a: nat): Header
      reads this, mem
    {
      HeaderIn(mem[..], base, a)
    }

    /** Stores one header field. */
    method Store(a: nat, f: Field)
      requires mem.Length == POOL_SIZE && InPool(base, a) && f.Representable()
      modifies mem
      ensures HeaderAt(a) == f.Update(old(HeaderAt(a)))
      ensures ChangedWithin(old(mem[..]), mem[..], base, a, a + HEADER_SIZE)
      ensures forall b: nat :: b + HEADER_SIZE <= a || a + HEADER_SIZE <= b ==> HeaderAt(b) == old(HeaderAt(b))
    {
      hide HeaderIn, ChangedWithin;
      var at, bytes := a - base + f.Offset(), f.Bytes();
      forall j | at <= j < at + |bytes| {
        mem[j] := bytes[j - at];
      }
      ghost var m, m' := old(mem[..]), mem[..];
      StoreField(m, m', base, a, f);
      OutsideKept(m, m', base, a);
    }

    /** Stores a whole header, field by field. */
    method StoreHeader(a: nat, h: Header)
      requires mem.Length == POOL_SIZE && InPool(base, a)
      requires h.magic < TWO_32 && h.size < TWO_32 && h.next < TWO_64 && h.prev < TWO_64
      modifies mem
      ensures HeaderAt(a) == h
      ensures ChangedWithin(old(mem[..]), mem[..], base, a, a + HEADER_SIZE)
      ensures forall b: nat :: b + HEADER_SIZE <= a || a + HEADER_SIZE <= b ==> HeaderAt(b) == old(HeaderAt(b))
    {
      Store(a, Field.Magic(h.magic));
      Store(a, Field.Size(h.size));
      Store(a, Field.Free(h.free));
      Store(a, Field.Next(h.next));
      Store(a, Field.Prev(h.prev));
    }

    /** The last part of heap_init: one free block over the whole pool at address at. */
    method Place(at: nat)
      requires mem.Length == POOL_SIZE && head == 0 && blocks == []
      requires 0 < at && at % 8 == 0 && at + POOL_SIZE < TWO_64
      modifies this, mem
      ensures Valid() && head == base == at
      ensures blocks == [Block(at, POOL_SIZE - HEADER_SIZE, true)]
    {
      base, head := at, at;
      StoreHeader(head, Header(HEAP_MAGIC, POOL_SIZE - HEADER_SIZE, true, 0, 0));
      blocks := [Block(at, POOL_SIZE - HEADER_SIZE, true)];
      assert Tiles(blocks[1..], at + POOL_SIZE, at + POOL_SIZE);
      assert HeaderOk(mem[..], base, blocks, 0);
    }

    /** The split in kmalloc: a new free header n bytes into block i, linked in after it. */
    method Split(cur: nat, n: nat, ghost i: nat)
      requires mem.Length == POOL_SIZE && Linked() && i < |blocks| && cur == blocks[i].addr
      requires Fits(blocks[i], n) && n % 8 == 0 && blocks[i].size >= n + HEADER_SIZE + MIN_SPLIT
      modifies mem
      ensures SplitHeaders(mem[..], base, blocks, i, n, true)
      ensures forall x :: 0 <= x < POOL_SIZE && mem[x] != old(mem[x]) ==>
                            blocks[i].addr <= base + x < blocks[i].Payload() ||
                            blocks[i].Payload() + n <= base + x < blocks[i].Payload() + n + HEADER_SIZE ||
                            (i + 1 < |blocks| && blocks[i + 1].addr <= base + x < blocks[i + 1].Payload())
    {
      hide HeaderIn, Tiles, Aligned;
      ghost var hi := base + POOL_SIZE;
      Around(blocks, base, hi, i);
      if i + 1 < |blocks| {
        Around(blocks, base, hi, i + 1);
        assert HeaderOk(mem[..], base, blocks, i + 1);
      }
      assert HeaderOk(mem[..], base, blocks, i);
      var at := cur + HEADER_SIZE + n;
      var h := HeaderAt(cur);
      StoreHeader(at, Header(HEAP_MAGIC, h.size - n - HEADER_SIZE, true, h.next, cur));
      if h.next != 0 {
        Store(h.next, Field.Prev(at));
      }
      Store(cur, Field.Next(at));
      Store(cur, Field.Size(n));
      OthersKept(old(mem[..]), mem[..], base, blocks, i, if i + 1 < |blocks| then i + 1 else i);
    }

    /** The search loop of kmalloc: the header of the first free block of at least n bytes, or null. */
    method Search(n: nat) returns (cur: nat, ghost i: nat)
      requires Valid()
      ensures i == FirstFit(blocks, n)
      ensures cur == if i < |blocks| then blocks[i].addr else 0
      ensures i < |blocks| ==> cur != 0 && HeaderAt(cur) == Expected(blocks, i)
    {
      hide HeaderIn, Tiles, Aligned, Coalesced, FirstFit;
      cur, i := head, 0;
      if head != 0 {
        HeaderSound(mem[..], base, blocks, 0);
      }
      while cur != 0 && HeaderAt(cur).magic == HEAP_MAGIC && !(HeaderAt(cur).free && HeaderAt(cur).size >= n)
        invariant 0 <= i <= |blocks|
        invariant cur == if i < |blocks| then blocks[i].addr else 0
        invariant i < |blocks| ==> cur != 0 && HeaderAt(cur) == Expected(blocks, i)
        invariant forall j :: 0 <= j < i ==> !Fits(blocks[j], n)
        decreases |blocks| - i
      {
        HeaderSound(mem[..], base, blocks, i + 1);
        cur := HeaderAt(cur).next;
        i := i + 1;
      }
      FirstFitUnique(blocks, n, i);
    }

    /** Returns the payload of the first block that fits, split when it is large, or null when none fits. */
    method Kmalloc(size: nat) returns (p: nat)
      requires Valid() && size < TWO_64
      modifies mem, this`blocks
      ensures Valid()
      ensures (blocks, p) == Malloc(old(blocks), size)
      ensures p == 0 ==> mem[..] == old(mem[..])
      ensures PayloadsKept(old(mem[..]), mem[..], base, blocks)
    {
      if size == 0 {
        return 0;
      }
      hide HeaderIn, Tiles, Aligned, Coalesced, Carve, FirstFit, RoundUp, InPayload;
      RoundUpAligned(size);
      var n := RoundUp(size);
      var cur;
      ghost var i;
      cur, i := Search(n);
      if cur == 0 || HeaderAt(cur).magic != HEAP_MAGIC {
        return 0;
      }
      p := Grant(cur, n, i);
    }

    /** What kmalloc does once its search has chosen block i. */
    method Grant(cur: nat, n: nat, ghost i: nat) returns (p: nat)
      requires mem.Length == POOL_SIZE && Linked() && Coalesced(blocks)
      requires i < |blocks| && cur == blocks[i].addr && Fits(blocks[i], n) && n % 8 == 0
      modifies mem, this`blocks
      ensures Linked() && Coalesced(blocks)
      ensures blocks == Carve(old(blocks), i, n) && p == old(blocks[i].Payload())
      ensures PayloadsKept(old(mem[..]), mem[..], base, blocks)
    {
      hide HeaderIn, Tiles, Aligned, Coalesced, Carve;
      ghost var m, bs := mem[..], blocks;
      CarveWellFormed(bs, base, base + POOL_SIZE, i, n);
      Around(bs, base, base + POOL_SIZE, i);
      assert HeaderOk(m, base, bs, i);
      var h := HeaderAt(cur);
      if h.size >= n + HEADER_SIZE + MIN_SPLIT {
        Split(cur, n, i);
        ghost var m1 := mem[..];
        Store(cur, Field.Free(false));
        KeepHeaders(m1, mem[..], base, bs, i);
        SplitRepresents(m, mem[..], base, bs, i, n);
        SplitAt(bs, i, n);
        HeaderWrites(m, mem[..], base, Carve(bs, i, n), i, i + 1, if i + 1 < |bs| then i + 2 else i);
      } else {
        Store(cur, Field.Free(false));
        KeepHeaders(m, mem[..], base, bs, i);
        FlagRepresents(m, mem[..], base, bs, i, false);
        WholeGrant(bs, i, n);
        HeaderWrites(m, mem[..], base, Carve(bs, i, n), i, i, i);
      }
      blocks := Carve(bs, i, n);
      return cur + HEADER_SIZE;
    }

    /** The stores of a merge: block i grows over its successor and the list skips it. */
    method Unlink(b: nat, ghost i: nat)
      requires mem.Length == POOL_SIZE && Linked() && i + 1 < |blocks| && b == blocks[i].addr
      modifies mem
      ensures MergeHeaders(mem[..], base, blocks, i)
      ensures forall x :: 0 <= x < POOL_SIZE && mem[x] != old(mem[x]) ==>
                            blocks[i].addr <= base + x < blocks[i].Payload() ||
                            (i + 2 < |blocks| && blocks[i + 2].addr <= base + x < blocks[i + 2].Payload())
    {
      hide HeaderIn, Tiles, Aligned;
      ghost var m, bs, hi := mem[..], blocks, base + POOL_SIZE;
      Around(bs, base, hi, i);
      Around(bs, base, hi, i + 1);
      if i + 2 < |bs| {
        Around(bs, base, hi, i + 2);
        assert HeaderOk(mem[..], base, bs, i + 2);
      }
      assert HeaderOk(mem[..], base, bs, i) && HeaderOk(mem[..], base, bs, i + 1);
      var h, after := HeaderAt(b), HeaderAt(HeaderAt(b).next);
      assert after.next != 0 <==> i + 2 < |bs|;
      assert h.size + HEADER_SIZE + after.size < POOL_SIZE;
      Store(b, Field.Size(h.size + HEADER_SIZE + after.size));
      Store(b, Field.Next(after.next));
      ghost var m1 := mem[..];
      assert ChangedWithin(m, m1, base, bs[i].addr, bs[i].Payload());
      if after.next != 0 {
        Store(after.next, Field.Prev(b));
      }
      OthersKept(m, mem[..], base, bs, i, if i + 2 < |bs| then i + 2 else i);
    }

    /** `merge_next`: block i absorbs its successor when both are free. */
    method MergeNext(b: nat, ghost i: nat)
      requires mem.Length == POOL_SIZE && Linked() && i < |blocks| && b == blocks[i].addr
      modifies mem, this`blocks
      ensures Linked() && blocks == Merge(old(blocks), i)
      ensures PayloadsKept(old(mem[..]), mem[..], base, old(blocks))
      ensures forall k :: 0 <= k < |old(blocks)| ==> HeaderAt(old(blocks)[k].addr).free == old(blocks[k].free)
    {
      hide HeaderIn, Tiles, Aligned, Merge;
      ghost var m, bs := mem[..], blocks;
      HeaderSound(m, base, bs, i);
      HeaderSound(m, base, bs, if i + 1 < |bs| then i + 1 else i);
      FlagsSound(m, base, bs);
      if HeaderAt(b).next == 0 || !HeaderAt(b).free || !HeaderAt(HeaderAt(b).next).free {
        Around(bs, base, base + POOL_SIZE, i);
        NoMerge(bs, i);
        return;
      }
      Unlink(b, i);
      MergedFlags(mem[..], base, bs, i);
      HeaderWrites(m, mem[..], base, bs, i, i, if i + 2 < |bs| then i + 2 else i);
      MergeRepresents(m, mem[..], base, bs, i);
      blocks := Merge(bs, i);
    }

    /** A pointer whose header does not look like a block in use: freed before and not handed out again. */
    ghost predicate Inert(ptr: nat)
      reads this, mem
    {
      ptr >= HEADER_SIZE && var h := HeaderAt(ptr - HEADER_SIZE); h.magic != HEAP_MAGIC || h.free
    }

    /** Frees a live pointer and coalesces its block with both neighbours; null and inert pointers are ignored. */
    method Kfree(ptr: nat)
      requires Valid() && (ptr == 0 || IsLive(blocks, ptr) || Inert(ptr))
      modifies mem, this`blocks
      ensures Valid()
      ensures blocks == Blocks.Free(old(blocks), ptr)
      ensures !IsLive(old(blocks), ptr) ==> mem[..] == old(mem[..])
      ensures IsLive(old(blocks), ptr) ==> Inert(ptr)
      ensures PayloadsKept(old(mem[..]), mem[..], base, blocks)
    {
      if ptr == 0 {
        NoNullPayload(blocks, 0);
        return;
      }
      var hdr := ptr - HEADER_SIZE;
      ghost var i := IndexOf(blocks, ptr);
      if IsLive(blocks, ptr) {
        HeaderSound(mem[..], base, blocks, i);
      }
      hide HeaderIn, Tiles, Aligned, Coalesced, Release;
      var h := HeaderAt(hdr);
      if h.magic != HEAP_MAGIC || h.free {
        return;
      }
      ReleaseWellFormed(blocks, base, base + POOL_SIZE, i);
      FreeBlock(hdr, i);
    }

    /** The rest of kfree, for live block i. */
    method FreeBlock(hdr: nat, ghost i: nat)
      requires mem.Length == POOL_SIZE && Linked() && Coalesced(blocks)
      requires i < |blocks| && hdr == blocks[i].addr && !blocks[i].free
      modifies mem, this`blocks
      ensures Linked() && blocks == Release(old(blocks), i)
      ensures HeaderAt(hdr).free
      ensures PayloadsKept(old(mem[..]), mem[..], base, blocks)
    {
      hide HeaderIn, Tiles, Aligned, Merge, Release, Coalesced, PayloadsKept;
      ghost var m, bs, freed := mem[..], blocks, blocks[i := blocks[i].(free := true)];
      ReleaseLives(bs, base, base + POOL_SIZE, i);
      Around(bs, base, base + POOL_SIZE, i);
      assert HeaderOk(m, base, bs, i);
      Store(hdr, Field.Free(true));
      KeepHeaders(m, mem[..], base, bs, i);
      FlagRepresents(m, mem[..], base, bs, i, true);
      HeaderWrites(m, mem[..], base, bs, i, i, i);
      blocks := freed;
      ghost var m1 := mem[..];
      MergeNext(hdr, i);
      ghost var m2, merged := mem[..], blocks;
      KeptTwice(m, m1, m2, base, bs, freed, freed);
      assert HeaderOk(m2, base, merged, i);
      if i > 0 {
        Around(merged, base, base + POOL_SIZE, i - 1);
      }
      if HeaderAt(hdr).prev != 0 {
        MergeNext(HeaderAt(hdr).prev, i - 1);
        KeptTwice(m, m2, mem[..], base, freed, merged, blocks);
      } else {
        KeptTwice(m, m2, m2, base, freed, merged, blocks);
      }
    }

    /** As kmalloc, but the requested bytes are zero; every other byte of a live payload is kept. A size that
        wraps would make the loop leave the block, so callers must not pass one. */
    method Kzalloc(size: nat) returns (p: nat)
      requires Valid() && size <= TWO_64 - 8
      modifies mem, this`blocks
      ensures Valid()
      ensures (blocks, p) == Malloc(old(blocks), size)
      ensures p == 0 ==> mem[..] == old(mem[..])
      ensures forall x :: 0 <= x < POOL_SIZE && InPayload(blocks, base + x) ==>
                            mem[x] == if p != 0 && p <= base + x < p + size then 0 else old(mem[x])
    {
      p := Kmalloc(size);
      if p == 0 {
        return;
      }
      ghost var m, i := mem[..], FirstFit(old(blocks), RoundUp(size));
      GrantedCovers(old(blocks), blocks, base, base + POOL_SIZE, size);
      hide InPayload, Malloc, FirstFit, Carve;
      for k := 0 to size
        invariant blocks == Malloc(old(blocks), size).0
        invariant forall x :: 0 <= x < POOL_SIZE ==> mem[x] == if p <= base + x < p + k then 0 else m[x]
      {
        mem[p - base + k] := 0;
      }
      ClientWrites(m, mem[..], base, blocks);
    }
  }
}
