/** Physical pages as plain sets of page numbers: the abstract state of the page allocator, and what
    its operations mean on that state. */
module PageSets {

  const PAGE_SIZE: nat := 4096
  /** Pages the bitmap can describe: 16384 words of 64 bits, that is 4 GB. */
  const PAGES: nat := 16384 * 64
  /** Pages below 1 MB are never handed out. */
  const RESERVED_PAGES: nat := 256
  const MEMMAP_USABLE: nat := 0

  /** One entry of the boot loader's memory map. */
  datatype Entry = Entry(base: nat, length: nat, kind: nat)

  /** Page p lies wholly inside the entry. */
  predicate Whole(e: Entry, p: nat) {
    e.base <= p * PAGE_SIZE && (p + 1) * PAGE_SIZE <= e.base + e.length
  }

  ghost function Range(e: Entry): set<nat> {
    set p: nat | p < PAGES && e.kind == MEMMAP_USABLE && Whole(e, p)
  }

  /** The pages that some usable entry contains wholly. */
  ghost function Usable(es: seq<Entry>): set<nat> {
    if es == [] then {} else Usable(es[..|es| - 1]) + Range(es[|es| - 1])
  }

  /** What counting entry by entry yields. */
  ghost function Claims(es: seq<Entry>): nat {
    if es == [] then 0 else Claims(es[..|es| - 1]) + |Range(es[|es| - 1])|
  }

  /** No page is wholly inside two usable entries. */
  ghost predicate NoSharedPage(es: seq<Entry>) {
    forall i, j :: 0 <= i < j < |es| ==> Range(es[i]) !! Range(es[j])
  }

  lemma {:induction false} UsableIsUnion(es: seq<Entry>, p: nat)
    ensures p in Usable(es) <==> p < PAGES && exists e :: e in es && e.kind == MEMMAP_USABLE && Whole(e, p)
  {
    if es != [] {
      var last := |es| - 1;
      assert es == es[..last] + [es[last]];
      UsableIsUnion(es[..last], p);
    }
  }

  lemma UnionSize<T>(a: set<T>, b: set<T>)
    ensures |a + b| <= |a| + |b|
    ensures |a + b| == |a| + |b| <==> a !! b
  {
    assert |a + b| == |a| + |b| - |a * b|;
    if !(a !! b) {
      var x :| x in a && x in b;
      assert x in a * b;
    }
  }

  /** Counting entry by entry is exact if and only if no page is counted twice. */
  lemma {:induction false} ClaimsExact(es: seq<Entry>)
    ensures |Usable(es)| <= Claims(es)
    ensures |Usable(es)| == Claims(es) <==> NoSharedPage(es)
  {
    if es != [] {
      var last := |es| - 1;
      var front, r := es[..last], Range(es[last]);
      ClaimsExact(front);
      UnionSize(Usable(front), r);
      SharedPageStep(es);
    }
  }

  lemma SharedPageStep(es: seq<Entry>)
    requires es != []
    ensures var last := |es| - 1;
            NoSharedPage(es) <==> NoSharedPage(es[..last]) && Usable(es[..last]) !! Range(es[last])
  {
    var last := |es| - 1;
    var front, r := es[..last], Range(es[last]);
    assert forall i :: 0 <= i < last ==> front[i] == es[i];
    if NoSharedPage(es) {
      forall p | p in Usable(front)
        ensures p !in r
      {
        UsableIsUnion(front, p);
        var i :| 0 <= i < last && front[i].kind == MEMMAP_USABLE && Whole(front[i], p);
        assert p in Range(es[i]);
      }
    }
    if NoSharedPage(front) && Usable(front) !! r {
      forall i | 0 <= i < last
        ensures Range(es[i]) !! r
      {
        RangeUsable(front, i);
      }
    }
  }

  lemma RangeUsable(es: seq<Entry>, i: nat)
    requires i < |es|
    ensures Range(es[i]) <= Usable(es)
  {
    forall p | p in Range(es[i])
      ensures p in Usable(es)
    {
      UsableIsUnion(es, p);
      assert es[i] in es;
    }
  }

  ghost predicate IsMin(p: nat, s: set<nat>) {
    p in s && forall q :: q in s ==> p <= q
  }

  lemma {:induction false} MinExists(s: set<nat>) returns (p: nat)
    requires s != {}
    ensures IsMin(p, s)
  {
    var q :| q in s;
    if s == {q} {
      p := q;
    } else {
      assert s == (s - {q}) + {q};
      var r := MinExists(s - {q});
      p := if q < r then q else r;
    }
  }

  ghost function Min(s: set<nat>): (p: nat)
    requires s != {}
    ensures IsMin(p, s)
  {
    MinWitness(s);
    var p :| IsMin(p, s);
    p
  }

  lemma MinUnique(p: nat, s: set<nat>)
    requires IsMin(p, s)
    ensures Min(s) == p
  {
  }

  lemma MinWitness(s: set<nat>)
    requires s != {}
    ensures exists p :: IsMin(p, s)
  {
    var p := MinExists(s);
  }
}
