/** Whole runs of page allocation and release, on sets of pages. */
module PageRuns {
  import opened PageSets

  datatype PageOp = Take | Give(page: nat)

  /** The free pages, and the pages that clients hold. */
  datatype Pages = Pages(free: set<nat>, held: set<nat>)

  /** Clients give back only pages they hold. */
  predicate Legal(s: Pages, op: PageOp) {
    op.Give? ==> op.page in s.held
  }

  ghost function Next(s: Pages, op: PageOp): Pages {
    match op
    case Take => if s.free == {} then s else Pages(s.free - {Min(s.free)}, s.held + {Min(s.free)})
    case Give(p) => Pages(s.free + {p}, s.held - {p})
  }

  ghost function Run(s: Pages, ops: seq<PageOp>): Pages {
    if ops == [] then s else Next(Run(s, ops[..|ops| - 1]), ops[|ops| - 1])
  }

  ghost predicate LegalRun(s: Pages, ops: seq<PageOp>) {
    forall i :: 0 <= i < |ops| ==> Legal(Run(s, ops[..i]), ops[i])
  }

  /** Step i of the run hands out page p. */
  ghost predicate HandsOut(s: Pages, ops: seq<PageOp>, i: nat, p: nat) {
    i < |ops| && ops[i] == Take && Run(s, ops[..i]).free != {} && Min(Run(s, ops[..i]).free) == p
  }

  lemma LegalPrefix(s: Pages, ops: seq<PageOp>, k: nat)
    requires LegalRun(s, ops) && k <= |ops|
    ensures LegalRun(s, ops[..k])
  {
    forall i | 0 <= i < k
      ensures Legal(Run(s, ops[..k][..i]), ops[..k][i])
    {
      assert ops[..k][..i] == ops[..i];
    }
  }

  /** Pages are conserved: each is at every moment either free or held, never both and never neither. */
  lemma {:induction false} Conservation(s: Pages, ops: seq<PageOp>)
    requires LegalRun(s, ops) && s.free !! s.held
    ensures Run(s, ops).free !! Run(s, ops).held
    ensures Run(s, ops).free + Run(s, ops).held == s.free + s.held
    ensures |Run(s, ops).free| + |Run(s, ops).held| == |s.free| + |s.held|
  {
    if ops != [] {
      var last := |ops| - 1;
      LegalPrefix(s, ops, last);
      Conservation(s, ops[..last]);
      assert Legal(Run(s, ops[..last]), ops[last]);
    }
    assert |s.free + s.held| == |s.free| + |s.held|;
    assert |Run(s, ops).free + Run(s, ops).held| == |Run(s, ops).free| + |Run(s, ops).held|;
  }

  /** A page that is held stays held until it is given back. */
  lemma {:induction false} HeldUntilGiven(s: Pages, ops: seq<PageOp>, i: nat, j: nat, p: nat)
    requires i <= j <= |ops| && p in Run(s, ops[..i]).held
    requires forall k :: i <= k < j ==> ops[k] != Give(p)
    ensures p in Run(s, ops[..j]).held
  {
    if i < j {
      HeldUntilGiven(s, ops, i, j - 1, p);
      assert ops[..j][..j - 1] == ops[..j - 1];
    }
  }

  /** No page is handed out twice without having been given back in between. */
  lemma NoDoubleHandout(s: Pages, ops: seq<PageOp>, i: nat, j: nat, p: nat)
    requires LegalRun(s, ops) && s.free !! s.held && i < j
    requires HandsOut(s, ops, i, p) && HandsOut(s, ops, j, p)
    ensures exists k :: i < k < j && ops[k] == Give(p)
  {
    assert ops[..i + 1][..i] == ops[..i];
    assert p in Run(s, ops[..i + 1]).held;
    if forall k :: i + 1 <= k < j ==> ops[k] != Give(p) {
      HeldUntilGiven(s, ops, i + 1, j, p);
      LegalPrefix(s, ops, j);
      Conservation(s, ops[..j]);
      assert false;
    }
  }

  /** When all free pages lie in [256, total), so does every page handed out: its address is never null,
      and null is returned only when no page is free. */
  lemma HandoutsInRange(s: Pages, ops: seq<PageOp>, i: nat, p: nat, total: nat)
    requires LegalRun(s, ops) && s.free !! s.held
    requires forall q :: q in s.free + s.held ==> RESERVED_PAGES <= q < total
    requires HandsOut(s, ops, i, p)
    ensures p * PAGE_SIZE >= 0x10_0000 && p < total
    ensures forall q :: q in Run(s, ops).free ==> RESERVED_PAGES <= q < total
  {
    LegalPrefix(s, ops, i);
    Conservation(s, ops[..i]);
    Conservation(s, ops);
    assert p in s.free + s.held;
  }
}
