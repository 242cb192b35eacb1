/** Powers of two and the bits of natural numbers. */
module Bits {

  function Pow2(n: nat): (p: nat)
    ensures p >= 1
  {
    if n == 0 then 1 else 2 * Pow2(n - 1)
  }

  /** Bit `j` of `x`, bit 0 being the least significant. */
  function Bit(x: nat, j: nat): (b: nat)
    ensures b < 2
  {
    if j == 0 then x % 2 else Bit(x / 2, j - 1)
  }

  lemma {:induction false} Pow2Add(a: nat, b: nat)
    ensures Pow2(a + b) == Pow2(a) * Pow2(b)
  {
    if a > 0 {
      Pow2Add(a - 1, b);
    }
  }

  /** The bits of `lo + 2^n * hi` are those of `lo` below `n` and those of `hi` from `n` on. */
  lemma {:induction false} BitOfSplit(lo: nat, hi: nat, n: nat, p: nat)
    requires lo < Pow2(n)
    ensures Bit(lo + Pow2(n) * hi, p) == if p < n then Bit(lo, p) else Bit(hi, p - n)
  {
    if n == 0 {
      assert lo == 0;
    } else {
      var half := Pow2(n - 1) * hi;
      assert Pow2(n) * hi == 2 * half;
      var x := lo + 2 * half;
      assert x % 2 == lo % 2;
      if p > 0 {
        assert x / 2 == lo / 2 + Pow2(n - 1) * hi;
        BitOfSplit(lo / 2, hi, n - 1, p - 1);
      }
    }
  }

  /** Two numbers below `2^n` that agree on their `n` low bits are equal. */
  lemma {:induction false} BitsEqual(x: nat, y: nat, n: nat)
    requires x < Pow2(n) && y < Pow2(n)
    requires forall j :: 0 <= j < n ==> Bit(x, j) == Bit(y, j)
    ensures x == y
  {
    if n > 0 {
      forall j | 0 <= j < n - 1
        ensures Bit(x / 2, j) == Bit(y / 2, j)
      {
        assert Bit(x, j + 1) == Bit(y, j + 1);
      }
      BitsEqual(x / 2, y / 2, n - 1);
      assert Bit(x, 0) == Bit(y, 0);
    }
  }
}
