/** What the comparison of SQL values means, in terms of the values. */
module ValueOrder {
  import opened Basics
  import opened Lex
  import opened Bits
  import opened OrderedInt
  import opened Values

  // ---- floats ----

  const FRACTION: nat := 0x10_0000_0000_0000  // 2^52

  /** The magnitude that a pattern without sign denotes, times 2^1074: a fraction alone when the exponent
      is 0, and otherwise one with a leading 1, doubled for every exponent above 1. The pattern of the
      infinity comes out above all finite ones. */
  function Magnitude(m: nat): nat {
    var e, f := m / FRACTION, m % FRACTION;
    if e == 0 then f else (FRACTION + f) * Pow2(e - 1)
  }

  /** The number that a FLOAT64 denotes, times 2^1074; both zeros denote 0. */
  function Number(bits: nat): int { if bits < TWO63 then Magnitude(bits) else 0 - Magnitude(bits - TWO63) }

  lemma Times(a: nat, b: nat, p: nat)
    requires a < b && p > 0
    ensures a * p < b * p
  {
  }

  lemma SameExponent(e: nat, f: nat, g: nat)
    requires f < g < FRACTION
    ensures Magnitude(e * FRACTION + f) < Magnitude(e * FRACTION + g)
  {
    PatternParts(e, f);
    PatternParts(e, g);
    if e > 0 { Times(FRACTION + f, FRACTION + g, Pow2(e - 1)); }
  }

  lemma PatternParts(e: nat, f: nat)
    requires f < FRACTION
    ensures (e * FRACTION + f) / FRACTION == e && (e * FRACTION + f) % FRACTION == f
  {
    var m := e * FRACTION + f;
    var q, r := m / FRACTION, m % FRACTION;
    assert m == q * FRACTION + r;
    assert q > e ==> (q - e) * FRACTION >= FRACTION;
    assert q < e ==> (e - q) * FRACTION >= FRACTION;
  }

  /** Everything with a smaller exponent is smaller. */
  lemma BelowExponent(e: nat, f: nat, k: nat, g: nat)
    requires e < k && f < FRACTION && g < FRACTION
    ensures Magnitude(e * FRACTION + f) < Magnitude(k * FRACTION + g)
  {
    PatternParts(e, f);
    PatternParts(k, g);
    Pow2Monotone(e, k - 1);
    var p := Pow2(k - 1);
    assert FRACTION * Pow2(e) <= FRACTION * p <= (FRACTION + g) * p;
    if e > 0 {
      Times(FRACTION + f, 2 * FRACTION, Pow2(e - 1));
      assert Pow2(e) == 2 * Pow2(e - 1);
    } else {
      assert Pow2(0) == 1;
    }
  }

  lemma MagnitudeGrows(m: nat, n: nat)
    requires m < n
    ensures Magnitude(m) < Magnitude(n)
  {
    var e, f, k, g := m / FRACTION, m % FRACTION, n / FRACTION, n % FRACTION;
    assert m == e * FRACTION + f && n == k * FRACTION + g;
    assert e > k ==> (e - k) * FRACTION >= FRACTION;
    if e == k { SameExponent(e, f, g); } else { BelowExponent(e, f, k, g); }
  }

  lemma SameOrder(m: nat, n: nat)
    ensures (m < n <==> Magnitude(m) < Magnitude(n)) && (m == n <==> Magnitude(m) == Magnitude(n))
  {
    if m < n { MagnitudeGrows(m, n); }
    if n < m { MagnitudeGrows(n, m); }
  }

  lemma ZeroIsZero(m: nat)
    ensures Magnitude(m) == 0 <==> m == 0
  {
    assert Magnitude(0) == 0;
    SameOrder(0, m);
  }

  /** Floats that are numbers are compared as the numbers they denote. */
  lemma FloatsByNumber(a: nat, b: nat)
    requires a < TWO64 && b < TWO64 && !IsNaN(a) && !IsNaN(b)
    ensures CompareValues(Float(a), Float(b)) < 0 <==> Number(a) < Number(b)
    ensures CompareValues(Float(a), Float(b)) == 0 <==> Number(a) == Number(b)
    ensures CompareValues(Float(a), Float(b)) > 0 <==> Number(a) > Number(b)
  {
    var m, n := Unsigned63(a), Unsigned63(b);
    SameOrder(m, n);
    ZeroIsZero(m);
    ZeroIsZero(n);
  }

  /** NaN comes before every number, and all NaNs are alike. */
  lemma NaNFirst(a: nat, b: nat)
    requires IsNaN(a)
    ensures CompareValues(Float(a), Float(b)) == (if IsNaN(b) then 0 else -1)
    ensures CompareValues(Float(b), Float(a)) == (if IsNaN(b) then 0 else 1)
  {
  }

  // ---- other scalars ----

  lemma NullFirst(v: Value)
    ensures CompareValues(Null, Null) == 0
    ensures !v.Null? ==> CompareValues(Null, v) == -1 && CompareValues(v, Null) == 1
  {
  }

  lemma ScalarsByValue(x: int, y: int)
    ensures CompareValues(Bool(false), Bool(true)) < 0 < CompareValues(Bool(true), Bool(false))
    ensures CompareValues(Int(x), Int(y)) < 0 <==> x < y
    ensures CompareValues(Ts(x), Ts(y)) < 0 <==> x < y
    ensures CompareValues(Date(x), Date(y)) < 0 <==> x < y
  {
  }

  /** Strings and bytes are compared byte by byte. */
  lemma BytesByFirstDifference(x: Bytes, y: Bytes)
    ensures CompareValues(Str(x), Str(y)) < 0 <==> FirstDiffers(x, y)
    ensures CompareValues(Byt(x), Byt(y)) < 0 <==> FirstDiffers(x, y)
  {
    LessMeans(x, y);
  }

  // ---- containers ----

  ghost predicate SameUpTo(x: seq<Value>, y: seq<Value>, k: nat) {
    k <= |x| && k <= |y| && forall i :: 0 <= i < k ==> CompareValues(x[i], y[i]) == 0
  }

  /** Arrays, structs and maps are decided by the first elements that differ, and otherwise by length. */
  lemma ContainersByFirstDifference(x: seq<Value>, y: seq<Value>) returns (k: nat)
    ensures CompareValues(Array(x), Array(y)) == CompareValues(Struct(x), Struct(y)) == CompareValues(Map(x), Map(y))
    ensures SameUpTo(x, y, k)
    ensures k < |x| && k < |y| ==> CompareValues(x[k], y[k]) != 0 && CompareValues(Array(x), Array(y)) == CompareValues(x[k], y[k])
    ensures k == |x| || k == |y| ==>
              CompareValues(Array(x), Array(y)) == (if |x| < |y| then -1 else if |x| > |y| then 1 else 0)
  {
    k := FirstDifference(x, y);
  }

  lemma {:induction false} FirstDifference(x: seq<Value>, y: seq<Value>) returns (k: nat)
    ensures SameUpTo(x, y, k)
    ensures k < |x| && k < |y| ==> CompareValues(x[k], y[k]) != 0 && CompareSeqs(x, y) == CompareValues(x[k], y[k])
    ensures k == |x| || k == |y| ==> CompareSeqs(x, y) == (if |x| < |y| then -1 else if |x| > |y| then 1 else 0)
  {
    if x == [] || y == [] || CompareValues(x[0], y[0]) != 0 {
      k := 0;
    } else {
      var j := FirstDifference(x[1..], y[1..]);
      k := j + 1;
      forall i | 0 <= i < k ensures CompareValues(x[i], y[i]) == 0 {
        if i > 0 { assert x[i] == x[1..][i - 1] && y[i] == y[1..][i - 1]; }
      }
    }
  }
}
