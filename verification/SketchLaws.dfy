/** Merging is a semilattice on all valid sketches, also those read from bytes that no additions and
    merges produce. */
module SketchLaws {
  import opened Basics
  import opened Bits
  import opened Sketches

  // ---- registers ----

  lemma PairMaxCommutes(a: seq<nat>, b: seq<nat>)
    requires |a| == |b|
    ensures PairMax(a, b) == PairMax(b, a)
  {
  }

  lemma PairMaxAssociates(a: seq<nat>, b: seq<nat>, c: seq<nat>)
    requires |a| == |b| == |c|
    ensures PairMax(PairMax(a, b), c) == PairMax(a, PairMax(b, c))
  {
  }

  function Larger(x: nat, y: nat): nat { if y > x then y else x }

  /** What register `j` of value `r` gives to a fold by `d` bits. */
  function Given(j: nat, d: nat, r: nat): (g: nat)
    ensures r > 0 ==> g >= 1
  {
    if r == 0 then 0
    else
      LowFits(j, d);
      BitLenFits(Low(j, d), d);
      FoldedRho(j, d, r)
  }

  /** Register `i` of a fold: the largest of what is given to it. */
  function Folded(regs: seq<nat>, d: nat, i: nat, n: nat): nat
    requires n <= |regs|
  {
    if n == 0 then 0
    else
      var before := Folded(regs, d, i, n - 1);
      if ShiftRight(n - 1, d) == i then Larger(before, Given(n - 1, d, regs[n - 1])) else before
  }

  lemma {:induction false} FoldAt(regs: seq<nat>, q: nat, p: nat, n: nat, i: nat)
    requires p <= q && n <= |regs| == Pow2(q) && i < Pow2(p)
    ensures Fold(regs, q, p, n)[i] == Folded(regs, q - p, i, n)
  {
    if n > 0 {
      FoldAt(regs, q, p, n - 1, i);
      ShiftRightFits(n - 1, q - p, p);
    }
  }

  lemma GivenOfLarger(j: nat, d: nat, r: nat, t: nat)
    ensures Given(j, d, Larger(r, t)) == Larger(Given(j, d, r), Given(j, d, t))
  {
  }

  /** Folding commutes with the maximum. */
  lemma {:induction false} FoldedOfPairMax(a: seq<nat>, b: seq<nat>, d: nat, i: nat, n: nat)
    requires n <= |a| == |b|
    ensures Folded(PairMax(a, b), d, i, n) == Larger(Folded(a, d, i, n), Folded(b, d, i, n))
  {
    if n > 0 {
      FoldedOfPairMax(a, b, d, i, n - 1);
      GivenOfLarger(n - 1, d, a[n - 1], b[n - 1]);
    }
  }

  lemma FoldOfPairMax(a: seq<nat>, b: seq<nat>, q: nat, p: nat)
    requires p <= q && |a| == |b| == Pow2(q)
    ensures Fold(PairMax(a, b), q, p, |a|) == PairMax(Fold(a, q, p, |a|), Fold(b, q, p, |a|))
  {
    forall i | 0 <= i < Pow2(p)
      ensures Fold(PairMax(a, b), q, p, |a|)[i] == PairMax(Fold(a, q, p, |a|), Fold(b, q, p, |a|))[i]
    {
      FoldAt(PairMax(a, b), q, p, |a|, i);
      FoldAt(a, q, p, |a|, i);
      FoldAt(b, q, p, |a|, i);
      FoldedOfPairMax(a, b, q - p, i, |a|);
    }
  }

  /** Folding by `a` bits and then by `b` gives what folding by both does. */
  lemma GivenTwice(j: nat, a: nat, b: nat, r: nat)
    ensures Given(ShiftRight(j, a), b, Given(j, a, r)) == Given(j, a + b, r)
  {
    BitLenOfLow(j, a, b);
  }

  lemma {:induction false} FoldedOfRaised(f: seq<nat>, k: nat, g: nat, d: nat, i: nat, n: nat)
    requires k < |f| && n <= |f|
    ensures Folded(f[k := Larger(f[k], g)], d, i, n) ==
              if k < n && ShiftRight(k, d) == i then Larger(Folded(f, d, i, n), Given(k, d, g)) else Folded(f, d, i, n)
  {
    if n > 0 {
      FoldedOfRaised(f, k, g, d, i, n - 1);
      if n - 1 == k { GivenOfLarger(k, d, f[k], g); }
    }
  }

  lemma FoldIsRaised(regs: seq<nat>, q: nat, p: nat, n: nat)
    requires p <= q && 0 < n <= |regs| == Pow2(q)
    ensures var k, f := ShiftRight(n - 1, q - p), Fold(regs, q, p, n - 1);
            k < |f| && Fold(regs, q, p, n) == f[k := Larger(f[k], Given(n - 1, q - p, regs[n - 1]))]
  {
    ShiftRightFits(n - 1, q - p, p);
  }

  lemma {:induction false} FoldedOfNothing(d: nat, i: nat, size: nat, n: nat)
    requires n <= size
    ensures Folded(seq(size, _ => 0), d, i, n) == 0
  {
    if n > 0 { FoldedOfNothing(d, i, size, n - 1); }
  }

  lemma {:induction false} FoldedOfFold(regs: seq<nat>, q: nat, m: nat, b: nat, i: nat, n: nat)
    requires m <= q && n <= |regs| == Pow2(q)
    ensures Folded(Fold(regs, q, m, n), b, i, Pow2(m)) == Folded(regs, q - m + b, i, n)
  {
    if n == 0 {
      FoldedOfNothing(b, i, Pow2(m), Pow2(m));
    } else {
      var f, k, g := Fold(regs, q, m, n - 1), ShiftRight(n - 1, q - m), Given(n - 1, q - m, regs[n - 1]);
      FoldedOfFold(regs, q, m, b, i, n - 1);
      FoldIsRaised(regs, q, m, n);
      FoldedOfRaised(f, k, g, b, i, Pow2(m));
      ShiftRightTwice(n - 1, q - m, b);
      GivenTwice(n - 1, q - m, b, regs[n - 1]);
    }
  }

  lemma FoldTwice(regs: seq<nat>, q: nat, m: nat, p: nat)
    requires p <= m <= q && |regs| == Pow2(q)
    ensures Fold(Fold(regs, q, m, |regs|), m, p, Pow2(m)) == Fold(regs, q, p, |regs|)
  {
    var f := Fold(regs, q, m, |regs|);
    forall i | 0 <= i < Pow2(p) ensures Fold(f, m, p, Pow2(m))[i] == Fold(regs, q, p, |regs|)[i] {
      FoldAt(f, m, p, Pow2(m), i);
      FoldAt(regs, q, p, |regs|, i);
      FoldedOfFold(regs, q, m, m - p, i, |regs|);
    }
  }

  // ---- one precision ----

  lemma JoinCommutes(a: Sketch, b: Sketch)
    requires Valid(a) && Valid(b) && a.p == b.p
    ensures Join(a, b) == Join(b, a)
  {
    PairMaxCommutes(RegistersOf(a), RegistersOf(b));
    if a.Sparse? && b.Sparse? { assert a.hashes + b.hashes == b.hashes + a.hashes; }
  }

  lemma SparseIsCanonical(a: Sketch)
    requires Valid(a) && a.Sparse?
    ensures a == Canonical(a.p, a.hashes)
  {
  }

  lemma RegistersOfUnion(p: nat, s: set<nat>, t: set<nat>)
    requires Precision(p)
    ensures Registers(p, s + t) == PairMax(Registers(p, s), Registers(p, t))
  {
    PairMaxIsRegisters(Registers(p, s), Registers(p, t), p, s, t);
    RegistersUnique(PairMax(Registers(p, s), Registers(p, t)), p, s + t);
  }

  lemma RegistersOfCanonical(p: nat, s: set<nat>)
    requires Precision(p) && Hashes(s)
    ensures Valid(Canonical(p, s)) && RegistersOf(Canonical(p, s)) == Registers(p, s)
  {
    CanonicalIsValid(p, s);
  }

  /** Joined registers are the maxima, whatever the representations. */
  lemma RegistersOfJoin(a: Sketch, b: Sketch)
    requires Valid(a) && Valid(b) && a.p == b.p
    ensures Valid(Join(a, b)) && Join(a, b).p == a.p
    ensures RegistersOf(Join(a, b)) == PairMax(RegistersOf(a), RegistersOf(b))
  {
    JoinIsValid(a, b);
    if a.Sparse? && b.Sparse? {
      RegistersOfUnion(a.p, a.hashes, b.hashes);
      RegistersOfCanonical(a.p, a.hashes + b.hashes);
    }
  }

  lemma JoinAssociates(a: Sketch, b: Sketch, c: Sketch)
    requires Valid(a) && Valid(b) && Valid(c) && a.p == b.p == c.p
    ensures Valid(Join(a, b)) && Valid(Join(b, c)) && Join(a, b).p == Join(b, c).p == a.p
    ensures Join(Join(a, b), c) == Join(a, Join(b, c))
  {
    RegistersOfJoin(a, b);
    RegistersOfJoin(b, c);
    if a.Sparse? && b.Sparse? && c.Sparse? {
      JoinIsCanonical(a.p, a.hashes + b.hashes, c.hashes);
      JoinIsCanonical(a.p, a.hashes, b.hashes + c.hashes);
      assert a.hashes + b.hashes + c.hashes == a.hashes + (b.hashes + c.hashes);
    } else {
      PairMaxAssociates(RegistersOf(a), RegistersOf(b), RegistersOf(c));
    }
  }

  lemma JoinIsIdempotent(a: Sketch)
    requires Valid(a)
    ensures Join(a, a) == a
  {
    if a.Sparse? {
      assert a.hashes + a.hashes == a.hashes;
    } else {
      assert PairMax(a.regs, a.regs) == a.regs;
    }
  }

  // ---- lowering precision ----

  lemma LowerTwice(a: Sketch, m: nat, p: nat)
    requires Valid(a) && Precision(m) && Precision(p) && p <= m
    ensures Valid(LowerTo(a, m)) && LowerTo(LowerTo(a, m), p) == LowerTo(a, p)
  {
    DowngradeIsValid(a, m);
    if p < m < a.p {
      match a
      case Sparse(_, s) => DowngradeIsCanonical(m, p, s);
      case Dense(q, regs) => FoldTwice(regs, q, m, p);
    }
  }

  /** Lowering a sketch folds its registers, also those of a hash set. */
  lemma RegistersOfLowered(a: Sketch, p: nat)
    requires Valid(a) && Precision(p) && p < a.p
    ensures Valid(LowerTo(a, p)) && RegistersOf(LowerTo(a, p)) == Fold(RegistersOf(a), a.p, p, Pow2(a.p))
  {
    DowngradeIsValid(a, p);
    if a.Sparse? {
      var s, regs := a.hashes, Registers(a.p, a.hashes);
      FoldIsRegisters(regs, a.p, p, |regs|, s);
      assert Under(s, a.p, |regs|) == s by {
        forall x | x in s ensures Index(x, a.p) < |regs| { IndexInRange(x, a.p); }
      }
      RegistersUnique(Fold(regs, a.p, p, |regs|), p, s);
      RegistersOfCanonical(p, s);
    }
  }

  lemma LowerOfSparse(a: Sketch, p: nat)
    requires Valid(a) && Precision(p) && p <= a.p && a.Sparse?
    ensures LowerTo(a, p) == Canonical(p, a.hashes)
  {
  }

  /** Lowering commutes with joining. */
  lemma LowerOfJoin(a: Sketch, b: Sketch, p: nat)
    requires Valid(a) && Valid(b) && a.p == b.p && Precision(p) && p <= a.p
    ensures Valid(Join(a, b)) && Valid(LowerTo(a, p)) && Valid(LowerTo(b, p)) && LowerTo(a, p).p == LowerTo(b, p).p == p
    ensures LowerTo(Join(a, b), p) == Join(LowerTo(a, p), LowerTo(b, p))
  {
    JoinIsValid(a, b);
    DowngradeIsValid(a, p);
    DowngradeIsValid(b, p);
    if p < a.p {
      if a.Sparse? && b.Sparse? {
        LowerOfSparse(a, p);
        LowerOfSparse(b, p);
        JoinIsCanonical(p, a.hashes, b.hashes);
        DowngradeIsCanonical(a.p, p, a.hashes + b.hashes);
      } else {
        RegistersOfLowered(a, p);
        RegistersOfLowered(b, p);
        FoldOfPairMax(RegistersOf(a), RegistersOf(b), a.p, p);
        if a.Sparse? { LowerOfSparse(a, p); }
      }
    }
  }

  // ---- merging is a semilattice ----

  lemma MergeIsCommutative(a: Sketch, b: Sketch)
    requires Valid(a) && Valid(b)
    ensures MergeInto(a, b) == MergeInto(b, a)
  {
    var p := Min(a.p, b.p);
    DowngradeIsValid(a, p);
    DowngradeIsValid(b, p);
    JoinCommutes(LowerTo(a, p), LowerTo(b, p));
  }

  /** A merge, lowered to a precision no higher, is the join of both lowered to it. */
  lemma LowerOfMerge(a: Sketch, b: Sketch, p: nat)
    requires Valid(a) && Valid(b) && Precision(p) && p <= a.p && p <= b.p
    ensures Valid(MergeInto(a, b)) && p <= MergeInto(a, b).p == Min(a.p, b.p)
    ensures Valid(LowerTo(a, p)) && Valid(LowerTo(b, p)) && LowerTo(a, p).p == LowerTo(b, p).p == p
    ensures LowerTo(MergeInto(a, b), p) == Join(LowerTo(a, p), LowerTo(b, p))
  {
    var m := Min(a.p, b.p);
    DowngradeIsValid(a, m);
    DowngradeIsValid(b, m);
    JoinIsValid(LowerTo(a, m), LowerTo(b, m));
    LowerOfJoin(LowerTo(a, m), LowerTo(b, m), p);
    LowerTwice(a, m, p);
    LowerTwice(b, m, p);
  }

  lemma MergeIsAssociative(a: Sketch, b: Sketch, c: Sketch)
    requires Valid(a) && Valid(b) && Valid(c)
    ensures Valid(MergeInto(a, b)) && Valid(MergeInto(b, c))
    ensures MergeInto(MergeInto(a, b), c) == MergeInto(a, MergeInto(b, c))
  {
    var p := Min(a.p, Min(b.p, c.p));
    LowerOfMerge(a, b, p);
    LowerOfMerge(b, c, p);
    DowngradeIsValid(c, p);
    assert Min(Min(a.p, b.p), c.p) == p;
    JoinAssociates(LowerTo(a, p), LowerTo(b, p), LowerTo(c, p));
  }

  lemma MergeIsIdempotent(a: Sketch)
    requires Valid(a)
    ensures MergeInto(a, a) == a
  {
    JoinIsIdempotent(a);
  }

  lemma OneHashIsValid(p: nat, x: nat)
    requires Precision(p) && Hash(x)
    ensures Valid(Sparse(p, {x})) && Valid(Sparse(p, {})) && Canonical(p, {x}) == Sparse(p, {x})
  {
    Pow2Monotone(MIN_PRECISION, p);
    assert Pow2(4) == 16;
  }

  lemma AddIsJoin(a: Sketch, x: nat)
    requires Valid(a) && Hash(x)
    ensures Valid(Sparse(a.p, {x})) && AddTo(a, x) == Join(a, Sparse(a.p, {x}))
  {
    OneHashIsValid(a.p, x);
    JoinNothing(a);
    assert {} + {x} == {x};
    JoinOneMore(a, {}, x);
  }

  lemma OneHashLowers(p: nat, x: nat)
    requires Precision(p) && Hash(x)
    ensures Valid(Sparse(MAX_PRECISION, {x})) && LowerTo(Sparse(MAX_PRECISION, {x}), p) == Sparse(p, {x})
  {
    OneHashIsValid(MAX_PRECISION, x);
    OneHashIsValid(p, x);
  }

  /** Adding a hash is merging the sketch of that hash alone, at the highest precision. */
  lemma AddIsMerge(a: Sketch, x: nat)
    requires Valid(a) && Hash(x)
    ensures Valid(Sparse(MAX_PRECISION, {x})) && AddTo(a, x) == MergeInto(a, Sparse(MAX_PRECISION, {x}))
  {
    AddIsJoin(a, x);
    OneHashLowers(a.p, x);
    assert Min(a.p, MAX_PRECISION) == a.p;
  }

  // ---- merging many ----

  ghost predicate AllValid(ops: seq<Sketch>) { forall i :: 0 <= i < |ops| ==> Valid(ops[i]) }

  ghost function Merged(base: Sketch, ops: seq<Sketch>): (r: Sketch)
    requires Valid(base) && AllValid(ops)
    ensures Valid(r)
  {
    if ops == [] then base
    else
      MergeIsValid(Merged(base, ops[..|ops| - 1]), ops[|ops| - 1]);
      MergeInto(Merged(base, ops[..|ops| - 1]), ops[|ops| - 1])
  }

  /** Two merges can change places. */
  lemma MergeSwaps(a: Sketch, x: Sketch, y: Sketch)
    requires Valid(a) && Valid(x) && Valid(y)
    ensures Valid(MergeInto(a, x)) && Valid(MergeInto(a, y))
    ensures MergeInto(MergeInto(a, x), y) == MergeInto(MergeInto(a, y), x)
  {
    MergeIsAssociative(a, x, y);
    MergeIsAssociative(a, y, x);
    MergeIsCommutative(x, y);
  }

  lemma MergeAgain(a: Sketch, x: Sketch)
    requires Valid(a) && Valid(x)
    ensures Valid(MergeInto(a, x)) && MergeInto(MergeInto(a, x), x) == MergeInto(a, x)
  {
    MergeIsAssociative(a, x, x);
    MergeIsIdempotent(x);
  }

  lemma {:induction false} AbsorbsBase(base: Sketch, ops: seq<Sketch>)
    requires Valid(base) && AllValid(ops)
    ensures MergeInto(Merged(base, ops), base) == Merged(base, ops)
  {
    if ops == [] {
      MergeIsIdempotent(base);
    } else {
      var init, x := ops[..|ops| - 1], ops[|ops| - 1];
      AbsorbsBase(base, init);
      MergeSwaps(Merged(base, init), x, base);
    }
  }

  lemma {:induction false} Absorbs(base: Sketch, ops: seq<Sketch>, i: nat)
    requires Valid(base) && AllValid(ops) && i < |ops|
    ensures MergeInto(Merged(base, ops), ops[i]) == Merged(base, ops)
  {
    var init, x := ops[..|ops| - 1], ops[|ops| - 1];
    if i == |init| {
      MergeAgain(Merged(base, init), x);
    } else {
      Absorbs(base, init, i);
      MergeSwaps(Merged(base, init), x, ops[i]);
    }
  }

  lemma {:induction false} AbsorbsAll(base: Sketch, a: seq<Sketch>, b: seq<Sketch>)
    requires Valid(base) && AllValid(a) && AllValid(b) && forall x :: x in b ==> x in a
    ensures MergeInto(Merged(base, a), Merged(base, b)) == Merged(base, a)
    decreases |b|
  {
    if b == [] {
      AbsorbsBase(base, a);
    } else {
      var init, x := b[..|b| - 1], b[|b| - 1];
      AbsorbsAll(base, a, init);
      assert x in a;
      var i :| 0 <= i < |a| && a[i] == x;
      Absorbs(base, a, i);
      MergeIsAssociative(Merged(base, a), Merged(base, init), x);
    }
  }

  /** Only the set of merged sketches matters: neither their order nor their repetition does. */
  lemma MergedBySet(base: Sketch, a: seq<Sketch>, b: seq<Sketch>)
    requires Valid(base) && AllValid(a) && AllValid(b) && forall x :: x in a <==> x in b
    ensures Merged(base, a) == Merged(base, b)
  {
    AbsorbsAll(base, a, b);
    AbsorbsAll(base, b, a);
    MergeIsCommutative(Merged(base, a), Merged(base, b));
  }
}
