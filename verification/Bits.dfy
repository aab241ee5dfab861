/** Shifts, masks and bit lengths of naturals, by halving and doubling. */
module Bits {
  function Pow2(n: nat): (r: nat)
    ensures r > 0
  {
    if n == 0 then 1 else 2 * Pow2(n - 1)
  }

  /** `x >> n`. */
  function ShiftRight(x: nat, n: nat): (r: nat) {
    if n == 0 then x else ShiftRight(x / 2, n - 1)
  }

  /** `x << n`, before any truncation. */
  function ShiftLeft(x: nat, n: nat): (r: nat) {
    if n == 0 then x else 2 * ShiftLeft(x, n - 1)
  }

  /** `x & (1<<n - 1)`: the low `n` bits. */
  function Low(x: nat, n: nat): (r: nat) {
    if n == 0 then 0 else x % 2 + 2 * Low(x / 2, n - 1)
  }

  /** `bits.Len64`: the number of bits needed to write `x`. */
  function BitLen(x: nat): (n: nat) {
    if x == 0 then 0 else 1 + BitLen(x / 2)
  }

  lemma {:induction false} Pow2Monotone(a: nat, b: nat)
    requires a <= b
    ensures Pow2(a) <= Pow2(b)
  {
    if a < b { Pow2Monotone(a, b - 1); }
  }

  /** `BitLen(x) <= n` says exactly that `x` fits in `n` bits. */
  lemma {:induction false} BitLenFits(x: nat, n: nat)
    ensures BitLen(x) <= n <==> x < Pow2(n)
  {
    if x > 0 && n > 0 { BitLenFits(x / 2, n - 1); }
  }

  lemma {:induction false} LowFits(x: nat, n: nat)
    ensures Low(x, n) < Pow2(n)
    ensures x < Pow2(n) ==> Low(x, n) == x
  {
    if n > 0 { LowFits(x / 2, n - 1); }
  }

  lemma {:induction false} ShiftRightFits(x: nat, n: nat, k: nat)
    requires x < Pow2(n + k)
    ensures ShiftRight(x, n) < Pow2(k)
  {
    if n > 0 { ShiftRightFits(x / 2, n - 1, k); }
  }

  lemma {:induction false} ShiftRightTwice(x: nat, a: nat, b: nat)
    ensures ShiftRight(ShiftRight(x, a), b) == ShiftRight(x, a + b)
  {
    if a > 0 { ShiftRightTwice(x / 2, a - 1, b); }
  }

  /** Truncating a left shift keeps the low bits that survive it. */
  lemma {:induction false} LowOfShiftLeft(x: nat, k: nat, n: nat)
    ensures Low(ShiftLeft(x, k), n + k) == ShiftLeft(Low(x, n), k)
  {
    if k > 0 { LowOfShiftLeft(x, k - 1, n); }
  }

  /** A guard bit below the shifted value: its length counts also when the value is zero. */
  lemma {:induction false} BitLenGuard(y: nat, k: nat)
    requires k > 0
    ensures BitLen(ShiftLeft(y, k) + Pow2(k - 1)) == BitLen(y) + k
  {
    if k > 1 { BitLenGuard(y, k - 1); }
  }

  /** The length of the low `a + b` bits: the upper `b` of them decide unless they are all zero. */
  lemma {:induction false} BitLenOfLow(x: nat, a: nat, b: nat)
    ensures BitLen(Low(x, a + b)) ==
            if Low(ShiftRight(x, a), b) != 0 then BitLen(Low(ShiftRight(x, a), b)) + a else BitLen(Low(x, a))
    ensures Low(x, a + b) == 0 <==> Low(ShiftRight(x, a), b) == 0 && Low(x, a) == 0
  {
    if a > 0 { BitLenOfLow(x / 2, a - 1, b); }
  }

  // ---- single bits ----

  /** `x & y`. */
  function And(x: nat, y: nat): (r: nat) {
    if y == 0 then 0 else 2 * And(x / 2, y / 2) + (if x % 2 == 1 && y % 2 == 1 then 1 else 0)
  }

  predicate Bit(x: nat, i: nat) { ShiftRight(x, i) % 2 == 1 }

  lemma {:induction false} AndAtMost(x: nat, y: nat)
    ensures And(x, y) <= y
  {
    if y > 0 { AndAtMost(x / 2, y / 2); }
  }

  lemma {:induction false} ZeroHasNoBits(i: nat)
    ensures !Bit(0, i)
  {
    if i > 0 { ZeroHasNoBits(i - 1); }
  }

  /** Masking leaves the mask exactly when every bit of the mask is set. */
  lemma {:induction false} MaskMeans(x: nat, mask: nat)
    ensures And(x, mask) == mask <==> forall i: nat :: Bit(mask, i) ==> Bit(x, i)
  {
    if mask == 0 {
      forall i: nat ensures !Bit(0, i) { ZeroHasNoBits(i); }
    } else {
      MaskMeans(x / 2, mask / 2);
      AndAtMost(x / 2, mask / 2);
      assert And(x, mask) == mask <==> And(x / 2, mask / 2) == mask / 2 && (mask % 2 == 1 ==> x % 2 == 1);
      MaskSplit(x, mask);
    }
  }

  lemma MaskSplit(x: nat, mask: nat)
    ensures (forall i: nat :: Bit(mask, i) ==> Bit(x, i)) <==>
              (mask % 2 == 1 ==> x % 2 == 1) && forall i: nat :: Bit(mask / 2, i) ==> Bit(x / 2, i)
  {
    assert Bit(mask, 0) == (mask % 2 == 1) && Bit(x, 0) == (x % 2 == 1);
    if forall i: nat :: Bit(mask, i) ==> Bit(x, i) {
      forall i: nat | Bit(mask / 2, i) ensures Bit(x / 2, i) { assert Bit(mask, i + 1); }
    }
    if (mask % 2 == 1 ==> x % 2 == 1) && forall i: nat :: Bit(mask / 2, i) ==> Bit(x / 2, i) {
      forall i: nat | Bit(mask, i) ensures Bit(x, i) {
        if i > 0 { assert Bit(mask / 2, i - 1); }
      }
    }
  }
}
