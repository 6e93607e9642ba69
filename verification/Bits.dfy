/** 64-bit words as numbers, with the bitwise operators the page bitmap uses defined digit by digit. */
module Bits {

  function Pow2(n: nat): (p: nat)
    ensures p > 0
  {
    if n == 0 then 1 else 2 * Pow2(n - 1)
  }

  predicate IsWord(w: nat) {
    w < Pow2(64)
  }

  /** Binary digit i of w. */
  predicate Bit(w: nat, i: nat) {
    if i == 0 then w % 2 == 1 else Bit(w / 2, i - 1)
  }

  /** The operator `|`. */
  function Or(v: nat, w: nat): nat {
    if v == 0 then w else 2 * Or(v / 2, w / 2) + (if v % 2 == 1 || w % 2 == 1 then 1 else 0)
  }

  /** The operator `&`. */
  function And(v: nat, w: nat): nat {
    if v == 0 then 0 else 2 * And(v / 2, w / 2) + (if v % 2 == 1 && w % 2 == 1 then 1 else 0)
  }

  /** The expression `v & ~w`. */
  function AndNot(v: nat, w: nat): nat {
    if v == 0 then 0 else 2 * AndNot(v / 2, w / 2) + (if v % 2 == 1 && w % 2 == 0 then 1 else 0)
  }

  lemma {:induction false} ZeroBit(i: nat)
    ensures !Bit(0, i)
  {
    if i > 0 {
      ZeroBit(i - 1);
    }
  }

  lemma {:induction false} OrBit(v: nat, w: nat, i: nat)
    ensures Bit(Or(v, w), i) <==> Bit(v, i) || Bit(w, i)
  {
    if v == 0 {
      ZeroBit(i);
    } else if i > 0 {
      OrBit(v / 2, w / 2, i - 1);
    }
  }

  lemma {:induction false} AndNotBit(v: nat, w: nat, i: nat)
    ensures Bit(AndNot(v, w), i) <==> Bit(v, i) && !Bit(w, i)
  {
    if v == 0 {
      ZeroBit(i);
    } else if i > 0 {
      AndNotBit(v / 2, w / 2, i - 1);
    }
  }

  /** The word `1ULL << i` has exactly bit i set. */
  lemma {:induction false} PowBit(i: nat, j: nat)
    ensures Bit(Pow2(i), j) <==> i == j
  {
    if j == 0 {
    } else if i == 0 {
      ZeroBit(j - 1);
    } else {
      PowBit(i - 1, j - 1);
    }
  }

  /** `w & (1ULL << i)` is nonzero exactly when bit i of w is set. */
  lemma {:induction false} TestBit(w: nat, i: nat)
    ensures And(w, Pow2(i)) != 0 <==> Bit(w, i)
  {
    if w == 0 {
      ZeroBit(i);
    } else if i > 0 {
      TestBit(w / 2, i - 1);
    } else {
      AndZero(w / 2);
    }
  }

  lemma {:induction false} AndZero(v: nat)
    ensures And(v, 0) == 0
  {
    if v != 0 {
      AndZero(v / 2);
    }
  }

  /** Setting a bit below n keeps the word below 2^n. */
  lemma {:induction false} OrBound(v: nat, i: nat, n: nat)
    requires v < Pow2(n) && i < n
    ensures Or(v, Pow2(i)) < Pow2(n)
  {
    assert Pow2(n) == 2 * Pow2(n - 1);
    if v == 0 {
      PowGrows(i, n);
    } else if i > 0 {
      OrBound(v / 2, i - 1, n - 1);
      assert Or(v, 2 * Pow2(i - 1)) == 2 * Or(v / 2, Pow2(i - 1)) + v % 2;
    } else {
      OrNothing(v / 2);
      assert Or(v, 1) == 2 * (v / 2) + 1;
    }
  }

  lemma {:induction false} OrNothing(v: nat)
    ensures Or(v, 0) == v
  {
    if v != 0 {
      OrNothing(v / 2);
    }
  }

  lemma {:induction false} PowGrows(i: nat, n: nat)
    requires i < n
    ensures Pow2(i) < Pow2(n)
  {
    if i < n - 1 {
      PowGrows(i, n - 1);
    }
  }

  lemma {:induction false} AndNotBound(v: nat, w: nat)
    ensures AndNot(v, w) <= v
  {
    if v != 0 {
      AndNotBound(v / 2, w / 2);
    }
  }

  /** `__builtin_ctzll`: the index of the lowest set bit of a nonzero word. */
  function Ctz(w: nat): (n: nat)
    requires w != 0
    ensures Bit(w, n) && Pow2(n) <= w
    ensures forall j: nat :: j < n ==> !Bit(w, j)
  {
    if w % 2 == 1 then 0 else 1 + Ctz(w / 2)
  }

  lemma CtzInWord(w: nat)
    requires IsWord(w) && w != 0
    ensures Ctz(w) < 64
  {
    if Ctz(w) > 64 {
      PowGrows(64, Ctz(w));
    }
  }
}
