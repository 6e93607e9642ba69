/** The physical page allocator: a bitmap with cached counters that refines a set of free pages. */
module Pmm {
  import opened Words
  import opened Bits
  import opened PageSets

  const BITMAP_QWORDS: nat := 16384

  predicate IsFree(words: seq<nat>, p: nat)
    requires |words| == BITMAP_QWORDS
  {
    p < PAGES && Bit(words[p / 64], p % 64)
  }

  ghost function FreeSet(words: seq<nat>): set<nat>
    requires |words| == BITMAP_QWORDS
  {
    set p: nat | p < PAGES && IsFree(words, p)
  }

  lemma SetPage(words: seq<nat>, p: nat)
    requires |words| == BITMAP_QWORDS && p < PAGES
    ensures FreeSet(words[p / 64 := Or(words[p / 64], Pow2(p % 64))]) == FreeSet(words) + {p}
  {
    var after := words[p / 64 := Or(words[p / 64], Pow2(p % 64))];
    forall q: nat | q < PAGES
      ensures IsFree(after, q) <==> q == p || IsFree(words, q)
    {
      OrBit(words[p / 64], Pow2(p % 64), q % 64);
      PowBit(p % 64, q % 64);
    }
  }

  lemma ClearPage(words: seq<nat>, p: nat)
    requires |words| == BITMAP_QWORDS && p < PAGES
    ensures FreeSet(words[p / 64 := AndNot(words[p / 64], Pow2(p % 64))]) == FreeSet(words) - {p}
  {
    var after := words[p / 64 := AndNot(words[p / 64], Pow2(p % 64))];
    forall q: nat | q < PAGES
      ensures IsFree(after, q) <==> q != p && IsFree(words, q)
    {
      AndNotBit(words[p / 64], Pow2(p % 64), q % 64);
      PowBit(p % 64, q % 64);
    }
  }

  lemma NoFreePage(words: seq<nat>)
    requires |words| == BITMAP_QWORDS && forall k :: 0 <= k < BITMAP_QWORDS ==> words[k] == 0
    ensures FreeSet(words) == {}
  {
    forall p: nat | p < PAGES
      ensures !IsFree(words, p)
    {
      ZeroBit(p % 64);
    }
  }

  /** The lowest bit of the first nonzero word is the lowest free page. */
  lemma LowestPage(words: seq<nat>, qi: nat)
    requires |words| == BITMAP_QWORDS && qi < BITMAP_QWORDS
    requires IsWord(words[qi]) && words[qi] != 0
    requires forall k :: 0 <= k < qi ==> words[k] == 0
    ensures IsMin(qi * 64 + Ctz(words[qi]), FreeSet(words))
  {
    CtzInWord(words[qi]);
    var page := qi * 64 + Ctz(words[qi]);
    assert page / 64 == qi && page % 64 == Ctz(words[qi]);
    forall p | p in FreeSet(words)
      ensures page <= p
    {
      if p / 64 < qi {
        ZeroBit(p % 64);
      }
    }
  }

  /** The pages of one usable entry are those between its rounded bounds. */
  lemma RoundedBounds(e: Entry, p: nat)
    ensures Whole(e, p) <==> (e.base + 0xFFF) / PAGE_SIZE <= p < (e.base + e.length) / PAGE_SIZE
  {
  }

  ghost function Between(lo: nat, hi: nat): set<nat> {
    set p: nat | p < PAGES && InRange(p, lo, hi)
  }

  predicate InRange(p: nat, lo: nat, hi: nat) {
    lo <= p < hi
  }

  lemma BetweenEmpty(lo: nat, hi: nat)
    requires hi <= lo
    ensures Between(lo, hi) == {}
  {
  }

  /** One more page of a region joins the free pages f. */
  lemma BetweenGrows(f: set<nat>, lo: nat, page: nat)
    requires lo <= page
    ensures page >= PAGES ==> Between(lo, page + 1) == Between(lo, page)
    ensures page < PAGES ==> f + Between(lo, page + 1) == f + Between(lo, page) + {page}
    ensures page < PAGES ==> |Between(lo, page + 1)| == |Between(lo, page)| + 1
  {
    if page < PAGES {
      assert Between(lo, page + 1) == Between(lo, page) + {page};
    } else {
      assert Between(lo, page + 1) == Between(lo, page);
    }
  }

  /** One more reserved page leaves the free pages f. */
  lemma BetweenShrinks(f: set<nat>, page: nat)
    requires page < PAGES
    ensures page !in Between(0, page)
    ensures f - Between(0, page + 1) == f - Between(0, page) - {page}
    ensures |f * Between(0, page + 1)| == |f * Between(0, page)| + (if page in f then 1 else 0)
  {
    assert Between(0, page + 1) == Between(0, page) + {page};
    if page in f {
      assert f * Between(0, page + 1) == f * Between(0, page) + {page};
    } else {
      assert f * Between(0, page + 1) == f * Between(0, page);
    }
  }

  function EndPage(e: Entry): nat {
    (e.base + e.length) / PAGE_SIZE
  }

  /** Page n lies, with its last byte, before the end of the entry. */
  predicate Covered(e: Entry, n: nat) {
    (n + 1) * 4096 <= e.base + e.length
  }

  /** Some entry, of whatever kind, reaches beyond page n. */
  predicate Described(entries: seq<Entry>, n: nat) {
    exists e :: e in entries && Covered(e, n)
  }

  lemma CoveredBelow(e: Entry, n: nat)
    ensures Covered(e, n) <==> n < EndPage(e)
  {
  }

  /** What the second pass frees, page by page. */
  predicate UsablePage(entries: seq<Entry>, p: nat) {
    exists e :: e in entries && e.kind == 0 && e.base <= p * 4096 && (p + 1) * 4096 <= e.base + e.length
  }

  lemma FreedPages(entries: seq<Entry>, p: nat)
    ensures p in Usable(entries) - Between(0, RESERVED_PAGES) <==> 256 <= p < 1048576 && UsablePage(entries, p)
  {
    UsableIsUnion(entries, p);
    assert p < PAGES ==> (p in Between(0, RESERVED_PAGES) <==> InRange(p, 0, RESERVED_PAGES));
    if UsablePage(entries, p) {
      var e :| e in entries && e.kind == 0 && e.base <= p * 4096 && (p + 1) * 4096 <= e.base + e.length;
      assert Whole(e, p);
    }
    if e :| e in entries && e.kind == MEMMAP_USABLE && Whole(e, p) {
      assert UsablePage(entries, p);
    }
  }

  lemma PrefixStep(es: seq<Entry>, i: nat)
    requires i < |es|
    ensures Usable(es[..i + 1]) == Usable(es[..i]) + Range(es[i])
    ensures Claims(es[..i + 1]) == Claims(es[..i]) + |Range(es[i])|
  {
    assert es[..i + 1][..i] == es[..i];
  }

  lemma RangeIsBetween(e: Entry)
    ensures Range(e) == if e.kind != MEMMAP_USABLE then {}
                        else Between((e.base + 0xFFF) / PAGE_SIZE, EndPage(e))
  {
    forall p: nat
      ensures Whole(e, p) <==> InRange(p, (e.base + 0xFFF) / PAGE_SIZE, (e.base + e.length) / PAGE_SIZE)
    {
      RoundedBounds(e, p);
    }
  }

  /** A maximum of the entries' end pages bounds exactly the pages before the end of some entry. */
  lemma Farthest(entries: seq<Entry>, total: nat, n: nat)
    requires forall k :: 0 <= k < |entries| ==> EndPage(entries[k]) <= total
    requires total == 0 || exists k :: 0 <= k < |entries| && EndPage(entries[k]) == total
    ensures n < total <==> Described(entries, n)
  {
    if n < total {
      var k :| 0 <= k < |entries| && EndPage(entries[k]) == total;
      CoveredBelow(entries[k], n);
    }
    if e :| e in entries && Covered(e, n) {
      CoveredBelow(e, n);
    }
  }

  class PageAllocator {
    const bitmap: array<nat>
    var totalPages: nat
    var freePages: nat

    /** The bitmap is a sequence of 16384 machine words. */
    ghost predicate Shaped()
      reads this, bitmap
    {
      bitmap.Length == BITMAP_QWORDS && forall k :: 0 <= k < BITMAP_QWORDS ==> IsWord(bitmap[k])
    }

    ghost function Free(): set<nat>
      requires Shaped()
      reads this, bitmap
    {
      FreeSet(bitmap[..])
    }

    /** The cached counter never undercounts the set of free pages. */
    ghost predicate Valid()
      reads this, bitmap
    {
      Shaped() && freePages >= |Free()|
    }

    /** By how much the cached counter overcounts; it is exact when this is zero. */
    ghost function Drift(): nat
      requires Valid()
      reads this, bitmap
    {
      freePages - |Free()|
    }

    /** The zero-initialised statics. */
    constructor ()
      ensures Valid() && fresh(bitmap)
      ensures Free() == {} && totalPages == 0 && freePages == 0
    {
      bitmap := new nat[BITMAP_QWORDS](_ => 0);
      totalPages, freePages := 0, 0;
      new;
      NoFreePage(bitmap[..]);
    }

    method BitSet(p: nat)
      requires Shaped() && p < PAGES
      modifies bitmap
      ensures Shaped() && Free() == old(Free()) + {p}
    {
      SetPage(bitmap[..], p);
      OrBound(bitmap[p / 64], p % 64, 64);
      ghost var words := bitmap[..];
      bitmap[p / 64] := Or(bitmap[p / 64], Pow2(p % 64));
      assert bitmap[..] == words[p / 64 := Or(words[p / 64], Pow2(p % 64))];
    }

    method BitClear(p: nat)
      requires Shaped() && p < PAGES
      modifies bitmap
      ensures Shaped() && Free() == old(Free()) - {p}
    {
      ClearPage(bitmap[..], p);
      AndNotBound(bitmap[p / 64], Pow2(p % 64));
      ghost var words := bitmap[..];
      bitmap[p / 64] := AndNot(bitmap[p / 64], Pow2(p % 64));
      assert bitmap[..] == words[p / 64 := AndNot(words[p / 64], Pow2(p % 64))];
    }

    method BitTest(p: nat) returns (b: bool)
      requires Shaped() && p < PAGES
      ensures b <==> p in Free()
    {
      TestBit(bitmap[p / 64], p % 64);
      b := And(bitmap[p / 64], Pow2(p % 64)) != 0;
    }

    /** Frees exactly the pages above 1 MB that a usable entry contains. The counter is exact if and only
        if no page is wholly inside two usable entries. */
    method Init(entries: seq<Entry>)
      requires Shaped() && totalPages == 0 && freePages == 0
      requires forall e :: e in entries ==> e.base + e.length < TWO_64 && e.base + 0xFFF < TWO_64
      modifies this, bitmap
      ensures Valid()
      ensures Free() == Usable(entries) - Between(0, RESERVED_PAGES)
      ensures forall p :: p in Free() <==> 256 <= p < 1048576 && UsablePage(entries, p)
      ensures forall n: nat :: n < totalPages <==> n < 1048576 && Described(entries, n)
      ensures Drift() == 0 <==> NoSharedPage(entries)
      ensures forall p :: p in Free() ==> RESERVED_PAGES <= p < totalPages
      ensures totalPages <= PAGES
    {
      for i := 0 to BITMAP_QWORDS
        invariant Shaped() && totalPages == 0 && freePages == 0
        invariant forall k :: 0 <= k < i ==> bitmap[k] == 0
      {
        bitmap[i] := 0;
      }
      NoFreePage(bitmap[..]);
      CountPages(entries);
      MarkUsable(entries);
      ReserveLow(entries);
      forall p: nat
        ensures p in Free() <==> 256 <= p < 1048576 && UsablePage(entries, p)
      {
        FreedPages(entries, p);
      }
      hide UsablePage;
      InitCounts(entries, Free(), freePages, totalPages);
    }

    /** First pass over the memory map. */
    method CountPages(entries: seq<Entry>)
      requires totalPages == 0
      modifies this`totalPages
      ensures totalPages <= PAGES
      ensures forall n: nat :: n < totalPages <==> n < 1048576 && Described(entries, n)
      ensures forall p :: p in Usable(entries) ==> p < totalPages
    {
      for i := 0 to |entries|
        invariant forall k :: 0 <= k < i ==> EndPage(entries[k]) <= totalPages
        invariant totalPages == 0 || exists k :: 0 <= k < i && EndPage(entries[k]) == totalPages
      {
        var e := entries[i];
        var lastPage := (e.base + e.length) / PAGE_SIZE;
        if lastPage > totalPages {
          totalPages := lastPage;
        }
      }
      forall n: nat
        ensures n < totalPages <==> Described(entries, n)
      {
        Farthest(entries, totalPages, n);
      }
      forall p | p in Usable(entries)
        ensures p < totalPages && p < PAGES
      {
        UsableIsUnion(entries, p);
        var e :| e in entries && e.kind == MEMMAP_USABLE && Whole(e, p);
        RoundedBounds(e, p);
      }
      if totalPages > PAGES {
        totalPages := PAGES;
      }
    }

    /** Second pass over the memory map. */
    method MarkUsable(entries: seq<Entry>)
      requires Shaped() && Free() == {} && freePages == 0
      modifies bitmap, this`freePages
      ensures Shaped() && Free() == Usable(entries) && freePages == Claims(entries)
    {
      hide FreeSet, Between;
      for i := 0 to |entries|
        invariant Shaped() && Free() == Usable(entries[..i]) && freePages == Claims(entries[..i])
      {
        var e := entries[i];
        PrefixStep(entries, i);
        RangeIsBetween(e);
        if e.kind != MEMMAP_USABLE {
          continue;
        }
        var base := (e.base + 0xFFF) / PAGE_SIZE * PAGE_SIZE;
        var limit := (e.base + e.length) / PAGE_SIZE * PAGE_SIZE;
        assert base / PAGE_SIZE == (e.base + 0xFFF) / PAGE_SIZE && limit / PAGE_SIZE == EndPage(e);
        MarkRegion(base, limit);
      }
      assert entries[..|entries|] == entries;
    }

    /** The inner loop of the second pass: one usable region. */
    method MarkRegion(base: nat, limit: nat)
      requires Shaped() && base % PAGE_SIZE == 0 && limit % PAGE_SIZE == 0
      modifies bitmap, this`freePages
      ensures Shaped()
      ensures Free() == old(Free()) + Between(base / PAGE_SIZE, limit / PAGE_SIZE)
      ensures freePages == old(freePages) + |Between(base / PAGE_SIZE, limit / PAGE_SIZE)|
    {
      hide FreeSet, Between;
      ghost var lo, before := base / PAGE_SIZE, Free();
      var addr := base;
      BetweenEmpty(lo, lo);
      if base > limit {
        BetweenEmpty(lo, limit / PAGE_SIZE);
      }
      while addr < limit
        invariant addr % PAGE_SIZE == 0 && base <= addr && (base <= limit ==> addr <= limit)
        invariant base > limit ==> addr == base
        invariant Shaped() && Free() == before + Between(lo, addr / PAGE_SIZE)
        invariant freePages == old(freePages) + |Between(lo, addr / PAGE_SIZE)|
      {
        var page := addr / PAGE_SIZE;
        BetweenGrows(before, lo, page);
        if page < PAGES {
          BitSet(page);
          freePages := freePages + 1;
        }
        addr := addr + PAGE_SIZE;
        assert addr / PAGE_SIZE == page + 1;
      }
    }

    /** The first 1 MB is never handed out. */
    method ReserveLow(ghost entries: seq<Entry>)
      requires Shaped() && Free() == Usable(entries) && freePages == Claims(entries)
      modifies bitmap, this`freePages
      ensures Shaped() && Free() == Usable(entries) - Between(0, RESERVED_PAGES)
      ensures freePages == Claims(entries) - |Usable(entries) * Between(0, RESERVED_PAGES)|
    {
      hide FreeSet, Between;
      BetweenEmpty(0, 0);
      ClaimsExact(entries);
      ghost var usable := Usable(entries);
      for p := 0 to RESERVED_PAGES
        invariant Shaped() && Free() == usable - Between(0, p)
        invariant freePages == Claims(entries) - |usable * Between(0, p)|
      {
        BetweenShrinks(usable, p);
        SubsetSize(usable * Between(0, p + 1), usable);
        var b := BitTest(p);
        if b {
          BitClear(p);
          freePages := freePages - 1;
        }
      }
    }

    /** Takes the lowest free page and returns its address, or null when no page is free. */
    method Alloc() returns (addr: nat)
      requires Valid()
      modifies this, bitmap
      ensures Valid() && Drift() == old(Drift()) && totalPages == old(totalPages)
      ensures old(Free()) == {} ==> addr == 0 && Free() == {}
      ensures old(Free()) != {} ==>
                var p := Min(old(Free()));
                addr == p * PAGE_SIZE && Free() == old(Free()) - {p}
    {
      var qi := 0;
      while qi < BITMAP_QWORDS && bitmap[qi] == 0
        invariant 0 <= qi <= BITMAP_QWORDS && forall k :: 0 <= k < qi ==> bitmap[k] == 0
      {
        qi := qi + 1;
      }
      if qi == BITMAP_QWORDS {
        NoFreePage(bitmap[..]);
        return 0;
      }
      var bit := Ctz(bitmap[qi]);
      var page := qi * 64 + bit;
      LowestPage(bitmap[..], qi);
      MinUnique(page, Free());
      BitClear(page);
      freePages := freePages - 1;
      return page * PAGE_SIZE;
    }

    /** Gives a page back; an address beyond the bitmap, or a page that is already free, changes nothing. */
    method Release(physAddr: nat)
      requires Valid()
      modifies this, bitmap
      ensures Valid() && Drift() == old(Drift()) && totalPages == old(totalPages)
      ensures var p := physAddr / PAGE_SIZE;
              Free() == if p < PAGES then old(Free()) + {p} else old(Free())
    {
      var page := physAddr / PAGE_SIZE;
      if page >= PAGES {
        return;
      }
      var b := BitTest(page);
      if !b {
        BitSet(page);
        freePages := freePages + 1;
      }
    }

    /** `(s_total_pages - s_free_pages) * 4096` in 64-bit arithmetic: it does not wrap below zero while the
        counter is exact and every free page lies below the total. */
    method UsedBytes() returns (bytes: nat)
      requires Valid() && totalPages <= PAGES
      ensures Drift() == 0 && (forall p :: p in Free() ==> p < totalPages) ==>
                bytes == PAGE_SIZE * (totalPages - |Free()|)
    {
      var used := (totalPages - freePages) % TWO_64;
      if Drift() == 0 && forall p :: p in Free() ==> p < totalPages {
        BoundedSize(Free(), totalPages);
        assert used == totalPages - freePages;
      }
      bytes := used * PAGE_SIZE % TWO_64;
    }
  }

  lemma {:induction false} BoundedSize(s: set<nat>, n: nat)
    requires forall p :: p in s ==> p < n
    ensures |s| <= n
  {
    if n > 0 {
      BoundedSize(s - {n - 1}, n - 1);
      if n - 1 in s {
        assert s == (s - {n - 1}) + {n - 1};
      } else {
        assert s == s - {n - 1};
      }
    } else {
      assert s == {};
    }
  }

  lemma SubsetSize<T>(a: set<T>, b: set<T>)
    requires a <= b
    ensures |a| <= |b|
  {
    assert b == a + (b - a);
  }

  lemma InitCounts(entries: seq<Entry>, free: set<nat>, freePages: nat, totalPages: nat)
    requires free == Usable(entries) - Between(0, RESERVED_PAGES)
    requires freePages == Claims(entries) - |Usable(entries) * Between(0, RESERVED_PAGES)|
    requires forall p :: p in Usable(entries) ==> p < totalPages
    ensures freePages >= |free|
    ensures NoSharedPage(entries) <==> freePages == |free|
    ensures forall p :: p in free ==> RESERVED_PAGES <= p < totalPages
  {
    ClaimsExact(entries);
    var low := Between(0, RESERVED_PAGES);
    assert Usable(entries) == free + Usable(entries) * low;
    forall p | p in free
      ensures RESERVED_PAGES <= p
    {
      UsableIsUnion(entries, p);
      assert InRange(p, 0, RESERVED_PAGES) || RESERVED_PAGES <= p;
    }
  }
}
