/** The kernel heap as a sequence of blocks in address order: the abstract state of the allocator. */
module Blocks {
  import opened Words

  const HEADER_SIZE: nat := 32
  /** A block is split only when the rest can hold a header and this many bytes. */
  const MIN_SPLIT: nat := 32
  const POOL_SIZE: nat := 64 * 4096

  /** A block with its header at addr and size payload bytes after the header. */
  datatype Block = Block(addr: nat, size: nat, free: bool) {
    function Payload(): nat {
      addr + HEADER_SIZE
    }

    function End(): nat {
      addr + HEADER_SIZE + size
    }
  }

  /** The blocks cover [lo, hi) in address order with no gap and no overlap. */
  ghost predicate Tiles(bs: seq<Block>, lo: nat, hi: nat) {
    if bs == [] then lo == hi else bs[0].addr == lo && Tiles(bs[1..], bs[0].End(), hi)
  }

  /** No two adjacent blocks are both free. */
  ghost predicate Coalesced(bs: seq<Block>) {
    |bs| >= 2 ==> !(bs[0].free && bs[1].free) && Coalesced(bs[1..])
  }

  /** Addresses and sizes are multiples of 8. */
  ghost predicate Aligned(bs: seq<Block>) {
    forall b :: b in bs ==> b.addr % 8 == 0 && b.size % 8 == 0
  }

  ghost predicate WellFormed(bs: seq<Block>, lo: nat, hi: nat) {
    Tiles(bs, lo, hi) && Coalesced(bs) && Aligned(bs)
  }

  /** The blocks that clients hold. */
  ghost function Live(bs: seq<Block>): set<Block> {
    set b | b in bs && !b.free
  }

  /** `(size + 7) & ~7ULL` in 64-bit arithmetic. */
  function RoundUp(size: nat): nat {
    (size + 7) % TWO_64 / 8 * 8
  }

  lemma RoundUpAligned(size: nat)
    ensures RoundUp(size) % 8 == 0
    ensures size <= TWO_64 - 8 ==> size <= RoundUp(size) <= size + 7
    ensures TWO_64 - 8 < size < TWO_64 ==> RoundUp(size) == 0
  {
  }

  predicate Fits(b: Block, n: nat) {
    b.free && b.size >= n
  }

  /** Index of the first block that can serve n bytes, |bs| when there is none. */
  function FirstFit(bs: seq<Block>, n: nat): (i: nat)
    ensures i <= |bs|
    ensures i < |bs| ==> Fits(bs[i], n)
    ensures forall j :: 0 <= j < i ==> !Fits(bs[j], n)
  {
    if bs == [] || Fits(bs[0], n) then 0 else FirstFit(bs[1..], n) + 1
  }

  /** What replaces block b when it is handed out for n bytes. */
  function Granted(b: Block, n: nat): seq<Block>
    requires n <= b.size
  {
    if b.size >= n + HEADER_SIZE + MIN_SPLIT then
      [Block(b.addr, n, false), Block(b.addr + HEADER_SIZE + n, b.size - n - HEADER_SIZE, true)]
    else
      [b.(free := false)]
  }

  /** Hand out block i for n bytes, splitting off the rest when it is large enough. */
  function Carve(bs: seq<Block>, i: nat, n: nat): seq<Block>
    requires i < |bs| && n <= bs[i].size
  {
    bs[..i] + Granted(bs[i], n) + bs[i + 1..]
  }

  /** Absorb block i + 1 into block i when both are free. */
  function Merge(bs: seq<Block>, i: nat): seq<Block>
    requires i < |bs|
  {
    if i + 1 < |bs| && bs[i].free && bs[i + 1].free then
      bs[..i] + [Block(bs[i].addr, bs[i].size + HEADER_SIZE + bs[i + 1].size, true)] + bs[i + 2..]
    else bs
  }

  /** Free block i and coalesce it with both neighbours. */
  function Release(bs: seq<Block>, i: nat): seq<Block>
    requires i < |bs|
  {
    var merged := Merge(bs[i := bs[i].(free := true)], i);
    if i > 0 then Merge(merged, i - 1) else merged
  }

  /** Index of the block whose payload starts at ptr, |bs| when there is none. */
  function IndexOf(bs: seq<Block>, ptr: nat): (i: nat)
    ensures i <= |bs|
    ensures i < |bs| ==> bs[i].Payload() == ptr
    ensures forall j :: 0 <= j < i ==> bs[j].Payload() != ptr
  {
    if bs == [] || bs[0].Payload() == ptr then 0 else IndexOf(bs[1..], ptr) + 1
  }

  predicate IsLive(bs: seq<Block>, ptr: nat) {
    var i := IndexOf(bs, ptr);
    i < |bs| && !bs[i].free
  }

  lemma NoNullPayload(bs: seq<Block>, ptr: nat)
    requires ptr < HEADER_SIZE
    ensures !IsLive(bs, ptr)
  {
  }

  /** What kmalloc does to the blocks, and the pointer it returns. */
  function Malloc(bs: seq<Block>, size: nat): (r: (seq<Block>, nat)) {
    var i := FirstFit(bs, RoundUp(size));
    if size == 0 || i == |bs| then (bs, 0) else (Carve(bs, i, RoundUp(size)), bs[i].Payload())
  }

  /** What kfree does to the blocks. */
  function Free(bs: seq<Block>, ptr: nat): seq<Block> {
    if IsLive(bs, ptr) then Release(bs, IndexOf(bs, ptr)) else bs
  }

  // Structure of a tiling.

  lemma {:induction false} TilesSplit(l: seq<Block>, r: seq<Block>, lo: nat, hi: nat)
    ensures Tiles(l + r, lo, hi) <==> exists mid: nat :: Tiles(l, lo, mid) && Tiles(r, mid, hi)
  {
    if l == [] {
      assert l + r == r;
      assert Tiles(l, lo, lo);
    } else {
      assert (l + r)[1..] == l[1..] + r;
      TilesSplit(l[1..], r, l[0].End(), hi);
      assert forall mid: nat :: l[0].addr == lo ==> (Tiles(l, lo, mid) <==> Tiles(l[1..], l[0].End(), mid));
    }
  }

  lemma {:induction false} CoalescedSplit(l: seq<Block>, r: seq<Block>)
    ensures Coalesced(l + r) <==> Coalesced(l) && Coalesced(r) && (l != [] && r != [] ==> !(l[|l| - 1].free && r[0].free))
  {
    if l == [] {
      assert l + r == r;
    } else {
      assert (l + r)[1..] == l[1..] + r;
      CoalescedSplit(l[1..], r);
    }
  }

  /** The tiling of a list cut at block i. */
  lemma TilesAt(bs: seq<Block>, lo: nat, hi: nat, i: nat)
    requires Tiles(bs, lo, hi) && i < |bs|
    ensures Tiles(bs[..i], lo, bs[i].addr) && Tiles(bs[i + 1..], bs[i].End(), hi)
    ensures lo <= bs[i].addr && bs[i].End() <= hi
  {
    assert bs == bs[..i] + bs[i..];
    TilesSplit(bs[..i], bs[i..], lo, hi);
    var mid: nat :| Tiles(bs[..i], lo, mid) && Tiles(bs[i..], mid, hi);
    assert bs[i..][1..] == bs[i + 1..];
    TilesGrow(bs[..i], lo, mid);
    TilesGrow(bs[i + 1..], bs[i].End(), hi);
  }

  lemma {:induction false} TilesGrow(bs: seq<Block>, lo: nat, hi: nat)
    requires Tiles(bs, lo, hi)
    ensures lo + HEADER_SIZE * |bs| <= hi
  {
    if bs != [] {
      TilesGrow(bs[1..], bs[0].End(), hi);
    }
  }

  /** Block j starts where block j - 1 ends, and after every earlier block. */
  lemma Ordered(bs: seq<Block>, lo: nat, hi: nat, i: nat, j: nat)
    requires Tiles(bs, lo, hi) && i < j < |bs|
    ensures bs[i].End() <= bs[j].addr
    ensures j == i + 1 ==> bs[i].End() == bs[j].addr
  {
    TilesAt(bs, lo, hi, i);
    assert bs[i + 1..][j - i - 1] == bs[j];
    TilesAt(bs[i + 1..], bs[i].End(), hi, j - i - 1);
  }

  lemma IndexUnique(bs: seq<Block>, lo: nat, hi: nat, i: nat)
    requires Tiles(bs, lo, hi) && i < |bs|
    ensures IndexOf(bs, bs[i].Payload()) == i
  {
    var k := IndexOf(bs, bs[i].Payload());
    if k < i {
      Ordered(bs, lo, hi, k, i);
    }
  }

  /** Blocks are pairwise disjoint, and every byte of the pool belongs to one of them. */
  lemma Partition(bs: seq<Block>, lo: nat, hi: nat, a: nat)
    requires Tiles(bs, lo, hi)
    ensures lo <= a < hi <==> exists b :: b in bs && b.addr <= a < b.End()
    ensures forall b, c :: b in bs && c in bs && b != c ==> b.End() <= c.addr || c.End() <= b.addr
  {
    forall b, c | b in bs && c in bs && b != c
      ensures b.End() <= c.addr || c.End() <= b.addr
    {
      var i :| 0 <= i < |bs| && bs[i] == b;
      var j :| 0 <= j < |bs| && bs[j] == c;
      if i < j {
        Ordered(bs, lo, hi, i, j);
      } else {
        Ordered(bs, lo, hi, j, i);
      }
    }
    forall i | 0 <= i < |bs|
      ensures lo <= bs[i].addr && bs[i].End() <= hi
    {
      TilesAt(bs, lo, hi, i);
    }
    if lo <= a < hi {
      var b := BlockAt(bs, lo, hi, a);
    }
  }

  lemma {:induction false} BlockAt(bs: seq<Block>, lo: nat, hi: nat, a: nat) returns (b: Block)
    requires Tiles(bs, lo, hi) && lo <= a < hi
    ensures b in bs && b.addr <= a < b.End()
  {
    if a < bs[0].End() {
      b := bs[0];
    } else {
      b := BlockAt(bs[1..], bs[0].End(), hi, a);
    }
  }

  // Every operation keeps the heap well formed.

  lemma Pieces(bs: seq<Block>, i: nat, n: nat)
    requires n <= 2 && i + n <= |bs|
    ensures n == 1 ==> bs == bs[..i] + [bs[i]] + bs[i + 1..]
    ensures n == 2 ==> bs == bs[..i] + [bs[i], bs[i + 1]] + bs[i + 2..]
  {
  }

  lemma {:induction false} TilesEnd(bs: seq<Block>, lo: nat, hi: nat, hi': nat)
    requires Tiles(bs, lo, hi) && Tiles(bs, lo, hi')
    ensures hi == hi'
  {
    if bs != [] {
      TilesEnd(bs[1..], bs[0].End(), hi, hi');
    }
  }

  /** Replacing a middle part by one that covers the same range keeps the tiling. */
  lemma TilesReplace(l: seq<Block>, m: seq<Block>, m': seq<Block>, r: seq<Block>, lo: nat, hi: nat, a: nat, z: nat)
    requires Tiles(l + m + r, lo, hi)
    requires m != [] && Tiles(m, a, z) && Tiles(m', a, z)
    ensures Tiles(l + m' + r, lo, hi)
  {
    TilesSplit(l + m, r, lo, hi);
    var y: nat :| Tiles(l + m, lo, y) && Tiles(r, y, hi);
    TilesSplit(l, m, lo, y);
    TilesEnd(m, a, y, z);
    TilesSplit(l, m', lo, y);
    TilesSplit(l + m', r, lo, hi);
  }

  lemma GrantedTiles(b: Block, n: nat)
    requires n <= b.size
    ensures Tiles([b], b.addr, b.End()) && Tiles(Granted(b, n), b.addr, b.End())
  {
    var m := Granted(b, n);
    assert Tiles([b][1..], b.End(), b.End());
    assert |m| == 2 ==> Tiles(m[1..][1..], b.End(), b.End());
  }

  lemma CoalescedReplace(l: seq<Block>, b: Block, m: seq<Block>, r: seq<Block>)
    requires Coalesced(l + [b] + r) && b.free
    requires m != [] && Coalesced(m)
    requires m[0].free ==> l == [] || !l[|l| - 1].free
    requires m[|m| - 1].free ==> r == [] || !r[0].free
    ensures Coalesced(l + m + r)
  {
    CoalescedSplit(l + [b], r);
    CoalescedSplit(l, [b]);
    CoalescedSplit(l, m);
    CoalescedSplit(l + m, r);
  }

  lemma CarveWellFormed(bs: seq<Block>, lo: nat, hi: nat, i: nat, n: nat)
    requires WellFormed(bs, lo, hi) && i < |bs| && Fits(bs[i], n) && n % 8 == 0
    ensures WellFormed(Carve(bs, i, n), lo, hi)
  {
    var l, b, r := bs[..i], bs[i], bs[i + 1..];
    var m := Granted(b, n);
    Pieces(bs, i, 1);
    GrantedTiles(b, n);
    TilesReplace(l, [b], m, r, lo, hi, b.addr, b.End());
    CoalescedSplit(l + [b], r);
    CoalescedReplace(l, b, m, r);
    forall c | c in l + m + r
      ensures c.addr % 8 == 0 && c.size % 8 == 0
    {
      assert b in bs && (c in bs || c in m);
    }
  }

  /** Two free neighbours as one block. */
  function Joined(b: Block, c: Block): Block {
    Block(b.addr, b.size + HEADER_SIZE + c.size, true)
  }

  /** One merge, seen from the parts l and r of the list around the free block b. */
  lemma MergeRight(l: seq<Block>, b: Block, r: seq<Block>, lo: nat, hi: nat) returns (b': Block, r': seq<Block>)
    requires b.free && Tiles(l + [b] + r, lo, hi) && Aligned(l + [b] + r) && Coalesced(r)
    ensures Merge(l + [b] + r, |l|) == l + [b'] + r'
    ensures b'.free && (r' == [] || !r'[0].free) && Coalesced(r')
    ensures Tiles(l + [b'] + r', lo, hi) && Aligned(l + [b'] + r')
    ensures Live(l + [b'] + r') == Live(l + [b] + r)
  {
    if r == [] || !r[0].free {
      b', r' := b, r;
    } else {
      var c := r[0];
      b', r' := Joined(b, c), r[1..];
      assert l + [b] + r == l + [b, c] + r';
      JoinedTiles(l, b, c, r', lo, hi);
    }
  }

  /** The second merge of a release: the free block b may be absorbed by the last block of l. */
  lemma MergeLeft(l: seq<Block>, b: Block, r: seq<Block>, lo: nat, hi: nat) returns (l': seq<Block>, b': Block)
    requires b.free && Tiles(l + [b] + r, lo, hi) && Aligned(l + [b] + r) && Coalesced(l) && l != []
    ensures Merge(l + [b] + r, |l| - 1) == l' + [b'] + r
    ensures b'.free && (l' == [] || !l'[|l'| - 1].free) && Coalesced(l')
    ensures Tiles(l' + [b'] + r, lo, hi) && Aligned(l' + [b'] + r)
    ensures Live(l' + [b'] + r) == Live(l + [b] + r)
  {
    var a := l[|l| - 1];
    if !a.free {
      l', b' := l, b;
    } else {
      l', b' := l[..|l| - 1], Joined(a, b);
      assert l == l' + [a];
      CoalescedSplit(l', [a]);
      assert l + [b] + r == l' + [a, b] + r;
      JoinedTiles(l', a, b, r, lo, hi);
    }
  }

  lemma JoinedTiles(l: seq<Block>, b: Block, c: Block, r: seq<Block>, lo: nat, hi: nat)
    requires b.free && c.free && Tiles(l + [b, c] + r, lo, hi) && Aligned(l + [b, c] + r)
    ensures Merge(l + [b, c] + r, |l|) == l + [Joined(b, c)] + r
    ensures Tiles(l + [Joined(b, c)] + r, lo, hi) && Aligned(l + [Joined(b, c)] + r)
    ensures Live(l + [Joined(b, c)] + r) == Live(l + [b, c] + r)
  {
    hide Live, Aligned;
    var bs := l + [b, c] + r;
    assert bs[..|l|] == l && bs[|l| + 2..] == r;
    Ordered(bs, lo, hi, |l|, |l| + 1);
    assert bs[|l|] == b && bs[|l| + 1] == c;
    assert Tiles([c][1..], c.End(), c.End()) && Tiles([b, c][1..], b.End(), c.End());
    assert Tiles([Joined(b, c)][1..], c.End(), c.End());
    TilesReplace(l, [b, c], [Joined(b, c)], r, lo, hi, b.addr, c.End());
    JoinedElements(l, b, c, r);
  }

  lemma JoinedElements(l: seq<Block>, b: Block, c: Block, r: seq<Block>)
    requires b.free && c.free && Aligned(l + [b, c] + r)
    ensures Aligned(l + [Joined(b, c)] + r) && Live(l + [Joined(b, c)] + r) == Live(l + [b, c] + r)
  {
    hide Live, Aligned;
    Concatenated(l + [b, c], r);
    Concatenated(l, [b, c]);
    Concatenated(l + [Joined(b, c)], r);
    Concatenated(l, [Joined(b, c)]);
    JoinedPair(b, c);
  }

  lemma JoinedPair(b: Block, c: Block)
    requires b.free && c.free && Aligned([b, c])
    ensures Aligned([Joined(b, c)]) && Live([b, c]) == {} == Live([Joined(b, c)])
  {
    assert b in [b, c] && c in [b, c];
    SumAligned(b.size, c.size);
    forall d
      ensures d in [b, c] <==> d == b || d == c
      ensures d in [Joined(b, c)] <==> d == Joined(b, c)
    {
    }
  }

  lemma SumAligned(m: nat, n: nat)
    requires m % 8 == 0 && n % 8 == 0
    ensures (m + HEADER_SIZE + n) % 8 == 0
  {
  }

  lemma Concatenated(l: seq<Block>, r: seq<Block>)
    ensures Live(l + r) == Live(l) + Live(r)
    ensures Aligned(l + r) <==> Aligned(l) && Aligned(r)
  {
    assert forall d :: d in l + r <==> d in l || d in r;
  }

  lemma ReleaseWellFormed(bs: seq<Block>, lo: nat, hi: nat, i: nat)
    requires WellFormed(bs, lo, hi) && i < |bs| && !bs[i].free
    ensures WellFormed(Release(bs, i), lo, hi)
    ensures Live(Release(bs, i)) == Live(bs) - {bs[i]}
  {
    var l, b, r := bs[..i], bs[i], bs[i + 1..];
    var f := b.(free := true);
    Pieces(bs, i, 1);
    assert bs[i := f] == l + [f] + r;
    assert Tiles([b][1..], b.End(), b.End()) && Tiles([f][1..], b.End(), b.End());
    TilesReplace(l, [b], [f], r, lo, hi, b.addr, b.End());
    CoalescedSplit(l + [b], r);
    CoalescedSplit(l, [b]);
    assert b in bs;
    FreedLive(bs, lo, hi, i);
    var f', r' := MergeRight(l, f, r, lo, hi);
    if i == 0 {
      assert l + [f'] + r' == [f'] + r';
    } else {
      var l', f'' := MergeLeft(l, f', r', lo, hi);
      CoalescedSplit(l', [f'']);
      CoalescedSplit(l' + [f''], r');
    }
  }

  lemma FreedLive(bs: seq<Block>, lo: nat, hi: nat, i: nat)
    requires Tiles(bs, lo, hi) && i < |bs| && !bs[i].free
    ensures Live(bs[i := bs[i].(free := true)]) == Live(bs) - {bs[i]}
  {
    var freed := bs[i := bs[i].(free := true)];
    forall c
      ensures c in Live(freed) <==> c in Live(bs) && c != bs[i]
    {
      if c in Live(bs) && c != bs[i] {
        var j :| 0 <= j < |bs| && bs[j] == c;
        assert freed[j] == c;
      }
      if c in Live(freed) {
        var j :| 0 <= j < |bs| && freed[j] == c;
        assert j != i && bs[j] == c;
        if j < i {
          Ordered(bs, lo, hi, j, i);
        } else {
          Ordered(bs, lo, hi, i, j);
        }
      }
    }
  }

  lemma CarveLive(bs: seq<Block>, i: nat, n: nat)
    requires i < |bs| && Fits(bs[i], n)
    ensures Live(Carve(bs, i, n)) == Live(bs) + {Granted(bs[i], n)[0]}
  {
    var after, m := Carve(bs, i, n), Granted(bs[i], n);
    Pieces(bs, i, 1);
    forall c
      ensures c in after <==> c in bs[..i] || c in bs[i + 1..] || c in m
      ensures c in bs <==> c in bs[..i] || c in bs[i + 1..] || c == bs[i]
    {
    }
    assert m[0] in m;
  }

  // The blocks are determined by what clients hold.

  /** A well-formed heap is a function of its live blocks: two block lists of one pool with the same live
      blocks are equal. */
  lemma {:induction false} Canonical(bs: seq<Block>, cs: seq<Block>, lo: nat, hi: nat)
    requires Tiles(bs, lo, hi) && Coalesced(bs)
    requires Tiles(cs, lo, hi) && Coalesced(cs)
    requires Live(bs) == Live(cs)
    ensures bs == cs
  {
    TilesGrow(bs, lo, hi);
    TilesGrow(cs, lo, hi);
    if bs != [] && cs != [] {
      FirstBlocksAgree(bs, cs, lo, hi);
      LiveTail(bs, lo, hi);
      LiveTail(cs, lo, hi);
      Canonical(bs[1..], cs[1..], bs[0].End(), hi);
    }
  }

  lemma LiveTail(bs: seq<Block>, lo: nat, hi: nat)
    requires bs != [] && Tiles(bs, lo, hi)
    ensures Live(bs[1..]) == Live(bs) - {bs[0]}
  {
    assert bs == [bs[0]] + bs[1..];
    if bs[0] in bs[1..] {
      var k :| 0 <= k < |bs| - 1 && bs[1..][k] == bs[0];
      Ordered(bs, lo, hi, 0, k + 1);
    }
  }

  /** A live block that is not the first starts no earlier than the first block ends. */
  lemma LiveAfterFirst(bs: seq<Block>, lo: nat, hi: nat, b: Block)
    requires bs != [] && Tiles(bs, lo, hi) && b in bs && b != bs[0]
    ensures b.addr >= bs[0].End()
  {
    var k :| 0 <= k < |bs| && bs[k] == b;
    Ordered(bs, lo, hi, 0, k);
  }

  lemma FirstBlocksAgree(bs: seq<Block>, cs: seq<Block>, lo: nat, hi: nat)
    requires bs != [] && Tiles(bs, lo, hi) && Coalesced(bs)
    requires cs != [] && Tiles(cs, lo, hi) && Coalesced(cs)
    requires Live(bs) == Live(cs)
    ensures bs[0] == cs[0]
  {
    if !bs[0].free {
      FirstIfLive(bs, cs, lo, hi);
    } else if !cs[0].free {
      FirstIfLive(cs, bs, lo, hi);
    } else {
      NotLonger(bs, cs, lo, hi);
      NotLonger(cs, bs, lo, hi);
    }
  }

  lemma FirstIfLive(bs: seq<Block>, cs: seq<Block>, lo: nat, hi: nat)
    requires bs != [] && Tiles(bs, lo, hi) && !bs[0].free
    requires cs != [] && Tiles(cs, lo, hi) && Live(bs) == Live(cs)
    ensures bs[0] == cs[0]
  {
    assert bs[0] in Live(bs);
    assert bs[0] in cs;
    if bs[0] != cs[0] {
      LiveAfterFirst(cs, lo, hi, bs[0]);
    }
  }

  /** A leading free block is followed by a live one, so it cannot reach further in cs than in bs. */
  lemma NotLonger(bs: seq<Block>, cs: seq<Block>, lo: nat, hi: nat)
    requires bs != [] && Tiles(bs, lo, hi) && bs[0].free && Coalesced(bs)
    requires cs != [] && Tiles(cs, lo, hi) && cs[0].free && Live(bs) == Live(cs)
    ensures cs[0].size <= bs[0].size
  {
    TilesAt(cs, lo, hi, 0);
    if |bs| > 1 {
      assert bs[1] in Live(bs);
      Ordered(bs, lo, hi, 0, 1);
      LiveAfterFirst(cs, lo, hi, bs[1]);
    }
  }
}
