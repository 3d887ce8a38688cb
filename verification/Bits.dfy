/** Bitwise operators on small numbers, least significant bit first. */
module Bits {
  function Pow2(n: nat): (p: nat)
    ensures p >= 1
  {
    if n == 0 then 1 else 2 * Pow2(n - 1)
  }

  predicate LowBit(x: nat, k: nat) {
    if k == 0 then x % 2 == 1 else LowBit(x / 2, k - 1)
  }

  function BitVal(b: bool): nat {
    if b then 1 else 0
  }

  /** Apply an operator to the n low bits of x and y. */
  function Combine(op: (bool, bool) -> bool, x: nat, y: nat, n: nat): (r: nat)
    ensures r < Pow2(n)
  {
    if n == 0 then 0 else 2 * Combine(op, x / 2, y / 2, n - 1) + BitVal(op(x % 2 == 1, y % 2 == 1))
  }

  lemma {:induction false} CombineBit(op: (bool, bool) -> bool, x: nat, y: nat, n: nat, k: nat)
    requires k < n
    ensures LowBit(Combine(op, x, y, n), k) == op(LowBit(x, k), LowBit(y, k))
  {
    var r := Combine(op, x / 2, y / 2, n - 1);
    assert Combine(op, x, y, n) / 2 == r;
    if k > 0 {
      CombineBit(op, x / 2, y / 2, n - 1, k - 1);
    }
  }

  /** A number is its bits. */
  lemma {:induction false} SameBits(x: nat, y: nat, n: nat)
    requires x < Pow2(n) && y < Pow2(n) && forall k :: 0 <= k < n ==> LowBit(x, k) == LowBit(y, k)
    ensures x == y
  {
    if n > 0 {
      assert LowBit(x, 0) == LowBit(y, 0);
      forall k | 0 <= k < n - 1 ensures LowBit(x / 2, k) == LowBit(y / 2, k) {
        assert LowBit(x, k + 1) == LowBit(y, k + 1);
      }
      SameBits(x / 2, y / 2, n - 1);
    }
  }

  /** The most significant differing bit decides the order. */
  lemma {:induction false} OrderByTopBit(x: nat, y: nat, n: nat, k: nat)
    requires x < Pow2(n) && y < Pow2(n) && k < n
    requires forall i :: k < i < n ==> LowBit(x, i) == LowBit(y, i)
    requires !LowBit(x, k) && LowBit(y, k)
    ensures x < y
  {
    forall i | k <= i < n - 1 ensures LowBit(x / 2, i) == LowBit(y / 2, i) {
      assert LowBit(x, i + 1) == LowBit(y, i + 1);
    }
    if k == 0 {
      SameBits(x / 2, y / 2, n - 1);
    } else {
      OrderByTopBit(x / 2, y / 2, n - 1, k - 1);
    }
  }

  predicate And(a: bool, b: bool) { a && b }
  predicate Or(a: bool, b: bool) { a || b }
  predicate Xor(a: bool, b: bool) { a != b }
  predicate Not(a: bool, b: bool) { !a }

  lemma {:induction false} AndZero(x: nat, n: nat)
    ensures Combine(And, 0, x, n) == 0
  {
    if n > 0 {
      AndZero(x / 2, n - 1);
    }
  }

  /** Masking with one bit tests that bit. */
  lemma {:induction false} AndOneBit(k: nat, x: nat, n: nat)
    requires k < n
    ensures Combine(And, Pow2(k), x, n) == if LowBit(x, k) then Pow2(k) else 0
  {
    if k == 0 {
      AndZero(x / 2, n - 1);
    } else {
      assert Pow2(k) / 2 == Pow2(k - 1) && Pow2(k) % 2 == 0;
      AndOneBit(k - 1, x / 2, n - 1);
    }
  }

  lemma {:induction false} AllOnes(n: nat, k: nat)
    ensures LowBit(Pow2(n) - 1, k) == (k < n)
  {
    if n == 0 {
      ZeroBits(k);
    } else {
      assert (Pow2(n) - 1) / 2 == Pow2(n - 1) - 1;
      if k > 0 {
        AllOnes(n - 1, k - 1);
      }
    }
  }

  lemma {:induction false} ZeroBits(k: nat)
    ensures !LowBit(0, k)
  {
    if k > 0 {
      ZeroBits(k - 1);
    }
  }

  lemma {:induction false} ShiftedBits(v: nat, s: nat, k: nat)
    ensures LowBit(Pow2(s) * v, k) == (k >= s && LowBit(v, k - s))
  {
    if s > 0 {
      var w := Pow2(s - 1) * v;
      assert Pow2(s) * v == 2 * w;
      if k > 0 {
        ShiftedBits(v, s - 1, k - 1);
      }
    }
  }
}
