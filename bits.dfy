/**
 Bitwise arithmetic on unbounded natural numbers: bit `i` of `n`, bitwise or
 and and, and the facts that tie them together. Swift's `UInt` operations
 used by `OptionSet` are these, restricted to values below 2^64.
 */
module Bits {

  /** 2 to the power `k`. */
  function Pow2(k: nat): (r: nat)
    ensures r >= 1
  {
    if k == 0 then 1 else 2 * Pow2(k - 1)
  }

  /** Bit `i` of `n` is set. */
  predicate HasBit(n: nat, i: nat)
    decreases i
  {
    if i == 0 then n % 2 == 1 else HasBit(n / 2, i - 1)
  }

  /** Bitwise or. */
  function Or(a: nat, b: nat): nat
    decreases a + b
  {
    if a == 0 && b == 0 then 0
    else 2 * Or(a / 2, b / 2) + (if a % 2 == 1 || b % 2 == 1 then 1 else 0)
  }

  /** Bitwise and. */
  function And(a: nat, b: nat): nat
    decreases a + b
  {
    if a == 0 || b == 0 then 0
    else 2 * And(a / 2, b / 2) + (if a % 2 == 1 && b % 2 == 1 then 1 else 0)
  }

  /** Zero has no bit set. */
  lemma {:induction false} NoBitOfZero(i: nat)
    ensures !HasBit(0, i)
    decreases i
  {
    if i > 0 {
      NoBitOfZero(i - 1);
    }
  }

  /** A bit of `Or(a, b)` is set exactly when it is set in `a` or in `b`. */
  lemma {:induction false} HasBitOr(a: nat, b: nat, i: nat)
    ensures HasBit(Or(a, b), i) <==> HasBit(a, i) || HasBit(b, i)
    decreases i
  {
    if a == 0 && b == 0 {
      NoBitOfZero(i);
    } else if i > 0 {
      HasBitOr(a / 2, b / 2, i - 1);
    }
  }

  /** A bit of `And(a, b)` is set exactly when it is set in both `a` and `b`. */
  lemma {:induction false} HasBitAnd(a: nat, b: nat, i: nat)
    ensures HasBit(And(a, b), i) <==> HasBit(a, i) && HasBit(b, i)
    decreases i
  {
    if a == 0 || b == 0 {
      NoBitOfZero(i);
    } else if i > 0 {
      HasBitAnd(a / 2, b / 2, i - 1);
    }
  }

  /** A number is determined by its bits. */
  lemma {:induction false} SameBitsSameNumber(a: nat, b: nat)
    requires forall i: nat :: HasBit(a, i) <==> HasBit(b, i)
    ensures a == b
    decreases a + b
  {
    assert HasBit(a, 0) <==> HasBit(b, 0);
    if a + b > 0 {
      forall i: nat
        ensures HasBit(a / 2, i) <==> HasBit(b / 2, i)
      {
        assert HasBit(a, i + 1) <==> HasBit(b, i + 1);
      }
      if a / 2 + b / 2 < a + b {
        SameBitsSameNumber(a / 2, b / 2);
      }
    }
  }

  /** The only bit of 2^k is bit k. */
  lemma {:induction false} HasBitPow2(k: nat, i: nat)
    ensures HasBit(Pow2(k), i) <==> i == k
    decreases i
  {
    if i == 0 {
    } else if k == 0 {
      NoBitOfZero(i - 1);
    } else {
      HasBitPow2(k - 1, i - 1);
    }
  }

  /** A number below 2^k has no bit at position k or above. */
  lemma {:induction false} NoBitAtOrAbove(n: nat, k: nat, i: nat)
    requires n < Pow2(k) && k <= i
    ensures !HasBit(n, i)
    decreases i
  {
    if k == 0 {
      NoBitOfZero(i);
    } else {
      NoBitAtOrAbove(n / 2, k - 1, i - 1);
    }
  }

  /** A number with no bit at position k or above is below 2^k. */
  lemma {:induction false} BelowPow2(n: nat, k: nat)
    requires forall i: nat :: k <= i ==> !HasBit(n, i)
    ensures n < Pow2(k)
    decreases k
  {
    if k == 0 {
      if n != 0 {
        forall i: nat
          ensures HasBit(n, i) <==> HasBit(0, i)
        {
          NoBitOfZero(i);
        }
        SameBitsSameNumber(n, 0);
      }
    } else {
      forall i: nat | k - 1 <= i
        ensures !HasBit(n / 2, i)
      {
        assert !HasBit(n, i + 1);
      }
      BelowPow2(n / 2, k - 1);
    }
  }

  /** Or-ing two numbers below 2^k gives a number below 2^k. */
  lemma OrBelowPow2(a: nat, b: nat, k: nat)
    requires a < Pow2(k) && b < Pow2(k)
    ensures Or(a, b) < Pow2(k)
  {
    forall i: nat | k <= i
      ensures !HasBit(Or(a, b), i)
    {
      HasBitOr(a, b, i);
      NoBitAtOrAbove(a, k, i);
      NoBitAtOrAbove(b, k, i);
    }
    BelowPow2(Or(a, b), k);
  }

  /** And-ing with a number below 2^k gives a number below 2^k. */
  lemma AndBelowPow2(a: nat, b: nat, k: nat)
    requires b < Pow2(k)
    ensures And(a, b) < Pow2(k)
  {
    forall i: nat | k <= i
      ensures !HasBit(And(a, b), i)
    {
      HasBitAnd(a, b, i);
      NoBitAtOrAbove(b, k, i);
    }
    BelowPow2(And(a, b), k);
  }

  /** 2^(a + b) == 2^a * 2^b. */
  lemma {:induction false} Pow2Add(a: nat, b: nat)
    ensures Pow2(a + b) == Pow2(a) * Pow2(b)
    decreases a
  {
    if a > 0 {
      Pow2Add(a - 1, b);
    }
  }

  /** The powers of two that bound `UInt`, `Int` and the seven declared flag bits. */
  lemma Pow2Values()
    ensures Pow2(7) == 0x80
    ensures Pow2(63) == 0x8000_0000_0000_0000
    ensures Pow2(64) == 0x1_0000_0000_0000_0000
  {
    assert Pow2(8) == 0x100;
    Pow2Add(8, 8);
    Pow2Add(16, 16);
    Pow2Add(32, 32);
    Pow2Add(32, 31);
    Pow2Add(16, 15);
    Pow2Add(8, 7);
  }

  /** The bits of 2^k - 1 are exactly the k bits below position k. */
  lemma {:induction false} HasBitLowMask(k: nat, i: nat)
    ensures HasBit(Pow2(k) - 1, i) <==> i < k
    decreases k
  {
    if k == 0 {
      NoBitOfZero(i);
    } else if i > 0 {
      HasBitLowMask(k - 1, i - 1);
    }
  }
}
