/** Heap headers as the bytes they occupy in memory. */
module HeapMemory {
  import opened Words
  import opened Blocks

  const HEAP_MAGIC: nat := 0xDEADBEEF

  /** The 32 bytes of a HeapHeader: magic at 0, size at 4, free at 8, next at 16 and prev at 24, little-endian. */
  datatype Header = Header(magic: nat, size: nat, free: bool, next: nat, prev: nat)

  function Le(s: seq<Byte>): nat {
    if s == [] then 0 else s[0] + 256 * Le(s[1..])
  }

  function Pow256(n: nat): nat {
    if n == 0 then 1 else 256 * Pow256(n - 1)
  }

  /** The n bytes of v, lowest first. */
  function ToLe(v: nat, n: nat): (s: seq<Byte>)
    ensures |s| == n
  {
    if n == 0 then [] else [v % 256] + ToLe(v / 256, n - 1)
  }

  lemma {:induction false} LeRoundTrip(v: nat, n: nat)
    requires v < Pow256(n)
    ensures Le(ToLe(v, n)) == v
  {
    if n > 0 {
      LeRoundTrip(v / 256, n - 1);
      assert ToLe(v, n)[1..] == ToLe(v / 256, n - 1);
    }
  }

  lemma Widths()
    ensures Pow256(4) == TWO_32 && Pow256(8) == TWO_64
  {
    assert Pow256(4) == TWO_32;
  }

  function Decode(s: seq<Byte>): Header
    requires |s| == HEADER_SIZE
  {
    Header(Le(s[0..4]), Le(s[4..8]), s[8] != 0, Le(s[16..24]), Le(s[24..32]))
  }

  /** The fields of a header that the allocator stores one at a time. */
  datatype Field = Magic(m: nat) | Size(n: nat) | Free(f: bool) | Next(p: nat) | Prev(q: nat) {
    function Offset(): nat {
      match this case Magic(_) => 0 case Size(_) => 4 case Free(_) => 8 case Next(_) => 16 case Prev(_) => 24
    }

    predicate Representable() {
      match this
      case Magic(v) => v < TWO_32
      case Size(v) => v < TWO_32
      case Free(_) => true
      case Next(v) => v < TWO_64
      case Prev(v) => v < TWO_64
    }

    function Bytes(): seq<Byte> {
      match this
      case Magic(v) => ToLe(v, 4)
      case Size(v) => ToLe(v, 4)
      case Free(b) => [if b then 1 else 0]
      case Next(v) => ToLe(v, 8)
      case Prev(v) => ToLe(v, 8)
    }

    function Update(h: Header): Header {
      match this
      case Magic(v) => h.(magic := v)
      case Size(v) => h.(size := v)
      case Free(b) => h.(free := b)
      case Next(v) => h.(next := v)
      case Prev(v) => h.(prev := v)
    }
  }

  /** Storing the bytes of one field changes that field of the decoded header and no other. */
  lemma StoreDecodes(s: seq<Byte>, s': seq<Byte>, f: Field)
    requires |s| == |s'| == HEADER_SIZE && f.Representable()
    requires var o := f.Offset();
             forall y :: 0 <= y < HEADER_SIZE ==> s'[y] == if o <= y < o + |f.Bytes()| then f.Bytes()[y - o] else s[y]
    ensures Decode(s') == f.Update(Decode(s))
  {
    Widths();
    assert s'[f.Offset()..f.Offset() + |f.Bytes()|] == f.Bytes();
    match f
    case Magic(v) =>
      LeRoundTrip(v, 4);
      assert s'[4..8] == s[4..8] && s'[16..24] == s[16..24] && s'[24..32] == s[24..32];
    case Size(v) =>
      LeRoundTrip(v, 4);
      assert s'[0..4] == s[0..4] && s'[16..24] == s[16..24] && s'[24..32] == s[24..32];
    case Free(b) =>
      assert s'[0..4] == s[0..4] && s'[4..8] == s[4..8] && s'[16..24] == s[16..24] && s'[24..32] == s[24..32];
    case Next(v) =>
      LeRoundTrip(v, 8);
      assert s'[0..4] == s[0..4] && s'[4..8] == s[4..8] && s'[24..32] == s[24..32];
    case Prev(v) =>
      LeRoundTrip(v, 8);
      assert s'[0..4] == s[0..4] && s'[4..8] == s[4..8] && s'[16..24] == s[16..24];
  }

  predicate InPool(base: nat, a: nat) {
    base <= a && a + HEADER_SIZE <= base + POOL_SIZE
  }

  /** The header at address a of a pool whose bytes m start at address base. */
  function HeaderIn(m: seq<Byte>, base: nat, a: nat): Header {
    if |m| == POOL_SIZE && InPool(base, a) then Decode(m[a - base..a - base + HEADER_SIZE])
    else Header(0, 0, false, 0, 0)
  }

  /** Between m and m' only bytes of [lo, hi) changed. */
  ghost predicate ChangedWithin(m: seq<Byte>, m': seq<Byte>, base: nat, lo: nat, hi: nat) {
    |m'| == |m| && forall x :: 0 <= x < |m| && !(lo <= base + x < hi) ==> m'[x] == m[x]
  }

  lemma HeaderUntouched(m: seq<Byte>, m': seq<Byte>, base: nat, lo: nat, hi: nat, a: nat)
    requires ChangedWithin(m, m', base, lo, hi) && (a + HEADER_SIZE <= lo || hi <= a)
    ensures HeaderIn(m', base, a) == HeaderIn(m, base, a)
  {
    if |m| == POOL_SIZE && InPool(base, a) {
      assert m'[a - base..a - base + HEADER_SIZE] == m[a - base..a - base + HEADER_SIZE];
    }
  }

  /** Storing the bytes of a field at its place in the header at address a updates that header and no other byte. */
  lemma StoreField(m: seq<Byte>, m': seq<Byte>, base: nat, a: nat, f: Field)
    requires |m| == |m'| == POOL_SIZE && InPool(base, a) && f.Representable()
    requires var at := a - base + f.Offset();
             forall x :: 0 <= x < POOL_SIZE ==> m'[x] == if at <= x < at + |f.Bytes()| then f.Bytes()[x - at] else m[x]
    ensures HeaderIn(m', base, a) == f.Update(HeaderIn(m, base, a))
    ensures ChangedWithin(m, m', base, a, a + HEADER_SIZE)
  {
    hide Decode;
    var s, s' := m[a - base..a - base + HEADER_SIZE], m'[a - base..a - base + HEADER_SIZE];
    assert forall y :: 0 <= y < HEADER_SIZE ==> s[y] == m[a - base + y] && s'[y] == m'[a - base + y];
    StoreDecodes(s, s', f);
  }

  /** The header that block i of the list must have. */
  function Expected(bs: seq<Block>, i: nat): Header
    requires i < |bs|
  {
    Header(HEAP_MAGIC, bs[i].size, bs[i].free,
           if i + 1 < |bs| then bs[i + 1].addr else 0,
           if i > 0 then bs[i - 1].addr else 0)
  }

  predicate HeaderOk(m: seq<Byte>, base: nat, bs: seq<Block>, i: nat)
    requires i < |bs|
  {
    HeaderIn(m, base, bs[i].addr) == Expected(bs, i)
  }

  /** The bytes m hold the doubly linked list of headers of the blocks bs. */
  ghost predicate Represents(m: seq<Byte>, base: nat, bs: seq<Block>) {
    && |m| == POOL_SIZE && base % 8 == 0 && 0 < base && base + POOL_SIZE < TWO_64
    && Tiles(bs, base, base + POOL_SIZE) && Aligned(bs)
    && forall i :: 0 <= i < |bs| ==> HeaderOk(m, base, bs, i)
  }

  /** No byte of a live payload differs between m and m'. */
  ghost predicate PayloadsKept(m: seq<Byte>, m': seq<Byte>, base: nat, bs: seq<Block>) {
    |m'| == |m| && forall x :: 0 <= x < |m| && InPayload(bs, base + x) ==> m'[x] == m[x]
  }

  /** Clients that write only inside live payloads leave the whole list intact. */
  lemma ClientWrites(m: seq<Byte>, m': seq<Byte>, base: nat, bs: seq<Block>)
    requires Represents(m, base, bs) && |m'| == |m|
    requires forall x :: 0 <= x < |m| && m'[x] != m[x] ==> InPayload(bs, base + x)
    ensures Represents(m', base, bs)
  {
    forall i | 0 <= i < |bs|
      ensures HeaderOk(m', base, bs, i)
    {
      var a := bs[i].addr;
      TilesAt(bs, base, base + POOL_SIZE, i);
      assert HeaderOk(m, base, bs, i);
      forall x | a - base <= x < a - base + HEADER_SIZE
        ensures m'[x] == m[x]
      {
        HeaderNotPayload(bs, base, base + POOL_SIZE, i, base + x);
      }
      assert m'[a - base..a - base + HEADER_SIZE] == m[a - base..a - base + HEADER_SIZE];
    }
  }

  /** Address x lies in a payload that a client holds. */
  ghost predicate InPayload(bs: seq<Block>, x: int) {
    exists b :: b in Live(bs) && b.Payload() <= x < b.End()
  }

  lemma HeaderNotPayload(bs: seq<Block>, lo: nat, hi: nat, i: nat, x: nat)
    requires Tiles(bs, lo, hi) && i < |bs| && bs[i].addr <= x < bs[i].Payload()
    ensures !InPayload(bs, x)
  {
    Partition(bs, lo, hi, x);
    assert bs[i] in bs;
  }
}
