/** Bit operations on unbounded integers with a non-negative second operand, in
    two's complement as Python computes them.  Halving is floor division, so a
    negative first operand behaves like an infinite run of sign bits. */
module Bits {
  function Pow2(k: nat): (r: nat)
    ensures r >= 1
  {
    if k == 0 then 1 else 2 * Pow2(k - 1)
  }

  function And(x: int, m: nat): nat
    decreases m
  {
    if m == 0 then 0 else 2 * And(x / 2, m / 2) + (if m % 2 == 1 then x % 2 else 0)
  }

  /** `x & ~m`. */
  function AndNot(x: int, m: nat): int
    decreases m
  {
    if m == 0 then x else 2 * AndNot(x / 2, m / 2) + (if m % 2 == 1 then 0 else x % 2)
  }

  /** `x ^ y` on non-negative operands. */
  function Xor(x: nat, y: nat): nat {
    if x == 0 then y
    else if y == 0 then x
    else 2 * Xor(x / 2, y / 2) + (if x % 2 == y % 2 then 0 else 1)
  }

  /** `x | y` on non-negative operands. */
  function Or(x: nat, y: nat): nat {
    if x == 0 then y
    else if y == 0 then x
    else 2 * Or(x / 2, y / 2) + (if x % 2 == 1 || y % 2 == 1 then 1 else 0)
  }

  ghost predicate IsPow2(n: int) {
    exists k: nat :: n == Pow2(k)
  }

  /** `x << k`. */
  function Shl(x: int, k: nat): (r: int)
    ensures x >= 0 ==> r >= 0
  {
    if k == 0 then x else 2 * Shl(x, k - 1)
  }

  /** `x >> k`, rounding toward negative infinity. */
  function Shr(x: int, k: nat): int
    decreases k
  {
    if k == 0 then x else Shr(x / 2, k - 1)
  }

  /** `(1 << k) - 1`. */
  function Mask(k: nat): nat {
    Pow2(k) - 1
  }

  lemma {:induction false} Pow2Monotone(a: nat, b: nat)
    requires a <= b
    ensures Pow2(a) <= Pow2(b)
  {
    if a < b {
      Pow2Monotone(a, b - 1);
    }
  }

  lemma Pow2Plus4(k: nat)
    ensures Pow2(k + 4) == 16 * Pow2(k)
  {
    assert Pow2(k + 2) == 4 * Pow2(k);
    assert Pow2(k + 4) == 4 * Pow2(k + 2);
  }

  lemma Pow2Values()
    ensures Pow2(1) == 2 && Pow2(2) == 4 && Pow2(3) == 8 && Pow2(4) == 16
    ensures Pow2(8) == 0x100 && Pow2(15) == 0x8000 && Pow2(16) == 0x1_0000
  {
    Pow2Plus4(0);
    Pow2Plus4(4);
    Pow2Plus4(8);
    Pow2Plus4(12);
  }

  lemma Pow2Plus16(k: nat)
    ensures Pow2(k + 16) == 0x1_0000 * Pow2(k)
  {
    Pow2Plus4(k);
    Pow2Plus4(k + 4);
    Pow2Plus4(k + 8);
    Pow2Plus4(k + 12);
  }

  lemma {:induction false} ShlIsTimes(q: int, k: nat)
    ensures Shl(q, k) == q * Pow2(k)
  {
    if k > 0 {
      ShlIsTimes(q, k - 1);
    }
  }

  lemma {:induction false} ShrAdds(x: int, j: nat, k: nat)
    ensures Shr(x, j + k) == Shr(Shr(x, j), k)
    decreases j
  {
    if j > 0 {
      ShrAdds(x / 2, j - 1, k);
    }
  }

  lemma {:induction false} ShlAdds(x: int, j: nat, k: nat)
    ensures Shl(x, j + k) == Shl(Shl(x, j), k)
  {
    if k > 0 {
      ShlAdds(x, j, k - 1);
    }
  }

  /** Masking with `k` ones keeps exactly what shifting right and back loses. */
  lemma {:induction false} MaskSplits(x: int, k: nat)
    ensures Shl(Shr(x, k), k) + And(x, Mask(k)) == x
    ensures And(x, Mask(k)) < Pow2(k)
    decreases k
  {
    if k > 0 {
      MaskSplits(x / 2, k - 1);
      MaskHalves(x, k);
    }
  }

  lemma {:induction false} MaskHalves(x: int, k: nat)
    requires k > 0
    ensures And(x, Mask(k)) == 2 * And(x / 2, Mask(k - 1)) + x % 2
  {
    assert Mask(k) == 2 * Mask(k - 1) + 1;
    assert Mask(k) / 2 == Mask(k - 1);
  }

  /** A field packed below a shifted value is read back by the mask, the value by the shift. */
  lemma {:induction false} FieldUnpacks(field: int, rest: int, k: nat)
    requires 0 <= field < Pow2(k)
    ensures And(field + Shl(rest, k), Mask(k)) == field
    ensures Shr(field + Shl(rest, k), k) == rest
    decreases k
  {
    if k > 0 {
      assert (field + Shl(rest, k)) / 2 == field / 2 + Shl(rest, k - 1);
      FieldUnpacks(field / 2, rest, k - 1);
      MaskHalves(field + Shl(rest, k), k);
    }
  }

  /** Joining a low field to a shifted value is addition. */
  lemma {:induction false} OrJoins(field: nat, rest: nat, k: nat)
    requires field < Pow2(k)
    ensures Or(field, Shl(rest, k)) == field + Shl(rest, k)
    decreases k
  {
    if k > 0 && field > 0 && Shl(rest, k) > 0 {
      OrJoins(field / 2, rest, k - 1);
      assert Shl(rest, k) / 2 == Shl(rest, k - 1);
    } else if k == 0 {
      assert field == 0;
    }
  }

  lemma {:induction false} AndSplits(x: int, m: nat)
    ensures And(x, m) + AndNot(x, m) == x
    decreases m
  {
    if m > 0 {
      AndSplits(x / 2, m / 2);
    }
  }

  /** Clearing `k` low ones rounds down to a multiple of `2^k`. */
  lemma {:induction false} AndNotMask(x: int, k: nat)
    ensures AndNot(x, Mask(k)) == Shl(Shr(x, k), k)
  {
    MaskSplits(x, k);
    AndSplits(x, Mask(k));
  }

  /** The test `x & (x - 1) == 0` recognises exactly the powers of two. */
  lemma {:induction false} PowerOfTwoTest(x: nat)
    requires x >= 1
    ensures And(x, x - 1) == 0 <==> IsPow2(x)
    decreases x
  {
    hide IsPow2;
    if x == 1 {
      OneIsPow2();
    } else if x % 2 == 0 {
      PowerOfTwoTest(x / 2);
      assert (x - 1) / 2 == x / 2 - 1;
      HalfPow2(x);
    } else {
      AndSelf(x / 2);
      assert (x - 1) / 2 == x / 2;
      OddNotPow2(x);
    }
  }

  lemma OneIsPow2()
    ensures IsPow2(1)
  {
    assert Pow2(0) == 1;
  }

  lemma HalfPow2(x: nat)
    requires x > 1 && x % 2 == 0
    ensures IsPow2(x) <==> IsPow2(x / 2)
  {
    if k: nat :| x / 2 == Pow2(k) {
      assert x == Pow2(k + 1);
    }
    if k: nat :| x == Pow2(k) {
      assert x / 2 == Pow2(k - 1);
    }
  }

  lemma OddNotPow2(x: nat)
    requires x > 1 && x % 2 == 1
    ensures !IsPow2(x)
  {
    hide Pow2;
    forall k: nat ensures x != Pow2(k) {
      Pow2IsEven(k);
    }
  }

  lemma {:induction false} Pow2IsEven(k: nat)
    ensures if k == 0 then Pow2(k) == 1 else Pow2(k) % 2 == 0
  {
    if k > 0 {
      var p := Pow2(k - 1);
      assert Pow2(k) == 2 * p;
    }
  }

  lemma {:induction false} AndSelf(x: nat)
    ensures And(x, x) == x
  {
    if x > 0 {
      AndSelf(x / 2);
    }
  }

  /** Masking twice with the same key restores the value. */
  lemma {:induction false} XorInvolution(x: nat, y: nat)
    ensures Xor(Xor(x, y), y) == x
  {
    if x > 0 && y > 0 {
      XorInvolution(x / 2, y / 2);
      var z := Xor(x, y);
      assert z / 2 == Xor(x / 2, y / 2);
      assert z % 2 == (if x % 2 == y % 2 then 0 else 1);
      if z == 0 {
        assert x / 2 == y / 2;
      }
    } else if x == 0 && y > 0 {
      XorSelf(y);
    }
  }

  lemma {:induction false} XorSelf(y: nat)
    ensures Xor(y, y) == 0
  {
    if y > 0 {
      XorSelf(y / 2);
    }
  }

  lemma {:induction false} XorBound(x: nat, y: nat, k: nat)
    requires x < Pow2(k) && y < Pow2(k)
    ensures Xor(x, y) < Pow2(k)
  {
    if x > 0 && y > 0 {
      XorBound(x / 2, y / 2, k - 1);
    }
  }

  // ---- Division ----

  lemma RemainderIs(x: int, q: int, p: int, m: int)
    requires p > 0 && x == q * p + m && 0 <= m < p
    ensures x % p == m && x / p == q
  {
    var e := x / p - q;
    assert x == p * (x / p) + x % p;
    assert p * e == m - x % p;
    AwayFromZero(p, e);
  }

  lemma AwayFromZero(p: int, e: int)
    requires p > 0
    ensures e >= 1 ==> p * e >= p
    ensures e <= -1 ==> p * e <= -p
  {
  }
}
