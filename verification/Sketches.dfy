/** The value of a HyperLogLog++ sketch: what each operation does to it, and the canonical sketch
    of a set of 64-bit hashes that every history of operations reaches. Hashes are naturals below
    2^64; the hash function itself is left open. */
module Sketches {
  import opened Basics
  import opened Bits

  const HASH_BITS: nat := 64
  const MIN_PRECISION: nat := 4
  const MAX_PRECISION: nat := 24

  datatype Sketch =
    | Sparse(p: nat, hashes: set<nat>)
    | Dense(p: nat, regs: seq<nat>)

  predicate Precision(p: nat) { MIN_PRECISION <= p <= MAX_PRECISION }

  predicate Hash(x: nat) { x < Pow2(HASH_BITS) }

  ghost predicate Hashes(s: set<nat>) { forall x :: x in s ==> Hash(x) }

  function SparseLimit(p: nat): nat { Pow2(p) / 8 }

  // ---- register index and rank of a hash ----

  function Index(x: nat, p: nat): nat
    requires Precision(p)
  {
    ShiftRight(x, HASH_BITS - p)
  }

  /** `x<<p | 1<<(p-1)` in 64 bits: the low `p` bits of the shift are zero, so the union is a sum. */
  function Guarded(x: nat, p: nat): nat
    requires Precision(p)
  {
    Low(ShiftLeft(x, p), HASH_BITS) + Pow2(p - 1)
  }

  /** `LeadingZeros64(w) + 1`. */
  function Rho(x: nat, p: nat): int
    requires Precision(p)
  {
    HASH_BITS - BitLen(Guarded(x, p)) + 1
  }

  /** The rank counts the zeros after the index bits, the guard bit bounding it. */
  lemma RhoClosed(x: nat, p: nat)
    requires Precision(p)
    ensures Rho(x, p) == HASH_BITS - p - BitLen(Low(x, HASH_BITS - p)) + 1
    ensures 1 <= Rho(x, p) <= HASH_BITS - p + 1
  {
    var n := HASH_BITS - p;
    LowOfShiftLeft(x, p, n);
    BitLenGuard(Low(x, n), p);
    LowFits(x, n);
    BitLenFits(Low(x, n), n);
  }

  lemma IndexInRange(x: nat, p: nat)
    requires Precision(p) && Hash(x)
    ensures Index(x, p) < Pow2(p)
  {
    ShiftRightFits(x, HASH_BITS - p, p);
  }

  // ---- the dense registers of a set of hashes ----

  /** `m` is the largest rank among the hashes of `s` that fall in register `i`; 0 when none does. */
  ghost predicate IsMaxRho(s: set<nat>, p: nat, i: nat, m: nat)
    requires Precision(p)
  {
    && (forall x :: x in s && Index(x, p) == i ==> Rho(x, p) <= m)
    && (m == 0 || exists x :: x in s && Index(x, p) == i && Rho(x, p) == m)
  }

  ghost predicate IsRegisters(regs: seq<nat>, p: nat, s: set<nat>)
    requires Precision(p)
  {
    |regs| == Pow2(p) && forall i :: 0 <= i < |regs| ==> IsMaxRho(s, p, i, regs[i])
  }

  ghost function MaxRho(s: set<nat>, p: nat, i: nat): (m: nat)
    requires Precision(p)
    ensures IsMaxRho(s, p, i, m)
  {
    if s == {} then 0 else
      var x :| x in s;
      var m := MaxRho(s - {x}, p, i);
      assert s == s - {x} + {x};
      RhoClosed(x, p);
      if Index(x, p) == i && Rho(x, p) > m then Rho(x, p) else m
  }

  ghost function Registers(p: nat, s: set<nat>): (regs: seq<nat>)
    requires Precision(p)
    ensures IsRegisters(regs, p, s)
  {
    seq(Pow2(p), i requires 0 <= i < Pow2(p) => MaxRho(s, p, i))
  }

  lemma MaxRhoUnique(s: set<nat>, p: nat, i: nat, m: nat, n: nat)
    requires Precision(p)
    requires IsMaxRho(s, p, i, m) && IsMaxRho(s, p, i, n)
    ensures m == n
  {
    forall x | x in s ensures Rho(x, p) >= 1 { RhoClosed(x, p); }
  }

  lemma RegistersUnique(regs: seq<nat>, p: nat, s: set<nat>)
    requires Precision(p) && IsRegisters(regs, p, s)
    ensures regs == Registers(p, s)
  {
    forall i | 0 <= i < |regs| ensures regs[i] == Registers(p, s)[i] {
      MaxRhoUnique(s, p, i, regs[i], Registers(p, s)[i]);
    }
  }

  // ---- what the operations do ----

  /** `setRegister` and the merging loops: a register only rises. */
  function Raise(regs: seq<nat>, i: nat, rho: int): (r: seq<nat>)
    requires i < |regs|
  {
    if rho > regs[i] then regs[i := rho] else regs
  }

  function PairMax(a: seq<nat>, b: seq<nat>): (r: seq<nat>)
    requires |a| == |b|
  {
    seq(|a|, i requires 0 <= i < |a| => if b[i] > a[i] then b[i] else a[i])
  }

  /** A set of hashes is kept as such exactly while it fits the sparse limit. */
  ghost function Canonical(p: nat, s: set<nat>): Sketch
    requires Precision(p)
  {
    if |s| <= SparseLimit(p) then Sparse(p, s) else Dense(p, Registers(p, s))
  }

  ghost predicate Valid(h: Sketch) {
    && Precision(h.p)
    && (h.Sparse? ==> Hashes(h.hashes) && |h.hashes| <= SparseLimit(h.p))
    && (h.Dense? ==> |h.regs| == Pow2(h.p)
                     && forall i :: 0 <= i < |h.regs| ==> h.regs[i] <= HASH_BITS - h.p + 1)
  }

  ghost function AddTo(h: Sketch, x: nat): Sketch
    requires Valid(h) && Hash(x)
  {
    match h
    case Sparse(p, s) => Canonical(p, s + {x})
    case Dense(p, regs) => IndexInRange(x, p); Dense(p, Raise(regs, Index(x, p), Rho(x, p)))
  }

  /** The rank a register `r` at index `j` contributes once `d` index bits become hash bits again. */
  function FoldedRho(j: nat, d: nat, r: int): int {
    if Low(j, d) != 0 then d - BitLen(Low(j, d)) + 1 else d + r
  }

  /** One register of precision `q` folded onto registers of precision `p`. */
  function FoldStep(a: seq<nat>, q: nat, p: nat, j: nat, r: nat): (a': seq<nat>)
    requires p <= q && j < Pow2(q) && |a| == Pow2(p)
    ensures |a'| == |a|
  {
    ShiftRightFits(j, q - p, p);
    if r == 0 then a else Raise(a, ShiftRight(j, q - p), FoldedRho(j, q - p, r))
  }

  /** The first `n` registers of precision `q` folded onto precision `p`. */
  function Fold(regs: seq<nat>, q: nat, p: nat, n: nat): (r: seq<nat>)
    requires p <= q && n <= |regs| == Pow2(q)
    ensures |r| == Pow2(p)
  {
    if n == 0 then seq(Pow2(p), _ => 0)
    else FoldStep(Fold(regs, q, p, n - 1), q, p, n - 1, regs[n - 1])
  }

  ghost function LowerTo(h: Sketch, p: nat): Sketch
    requires Valid(h) && Precision(p)
  {
    if p >= h.p then h
    else match h
      case Sparse(_, s) => Canonical(p, s)
      case Dense(q, regs) => Dense(p, Fold(regs, q, p, |regs|))
  }

  ghost function RegistersOf(h: Sketch): (regs: seq<nat>)
    requires Valid(h)
    ensures |regs| == Pow2(h.p)
  {
    match h
    case Sparse(p, s) => Registers(p, s)
    case Dense(_, regs) => regs
  }

  /** Merging two sketches of one precision. */
  ghost function Join(h: Sketch, o: Sketch): Sketch
    requires Valid(h) && Valid(o) && h.p == o.p
  {
    if h.Sparse? && o.Sparse? then Canonical(h.p, h.hashes + o.hashes)
    else Dense(h.p, PairMax(RegistersOf(h), RegistersOf(o)))
  }

  // ---- folding registers is building them at the lower precision ----

  /** Index and rank at precision `p` are functions of index and rank at a higher precision `q`. */
  lemma FoldOfHash(x: nat, q: nat, p: nat)
    requires Precision(p) && Precision(q) && p <= q
    ensures Index(x, p) == ShiftRight(Index(x, q), q - p)
    ensures Rho(x, p) == FoldedRho(Index(x, q), q - p, Rho(x, q))
  {
    ShiftRightTwice(x, HASH_BITS - q, q - p);
    BitLenOfLow(x, HASH_BITS - q, q - p);
    RhoClosed(x, p);
    RhoClosed(x, q);
  }

  ghost function Under(s: set<nat>, q: nat, n: nat): set<nat>
    requires Precision(q)
  {
    set x | x in s && Index(x, q) < n
  }

  /** After `n` registers, the fold holds the registers of the hashes that fell in those `n`. */
  lemma {:induction false} FoldIsRegisters(regs: seq<nat>, q: nat, p: nat, n: nat, s: set<nat>)
    requires Precision(p) && Precision(q) && p <= q
    requires IsRegisters(regs, q, s) && n <= |regs|
    ensures IsRegisters(Fold(regs, q, p, n), p, Under(s, q, n))
  {
    if n > 0 {
      var j := n - 1;
      var a := Fold(regs, q, p, j);
      FoldIsRegisters(regs, q, p, j, s);
      ShiftRightFits(j, q - p, p);
      forall i | 0 <= i < |a| ensures IsMaxRho(Under(s, q, n), p, i, Fold(regs, q, p, n)[i]) {
        FoldOneRegister(a, q, p, j, regs[j], s, i);
      }
    }
  }

  lemma FoldOneRegister(a: seq<nat>, q: nat, p: nat, j: nat, r: nat, s: set<nat>, i: nat)
    requires Precision(p) && Precision(q) && p <= q && j < Pow2(q) && |a| == Pow2(p)
    requires IsMaxRho(s, q, j, r)
    requires i < |a| && IsMaxRho(Under(s, q, j), p, i, a[i])
    ensures IsMaxRho(Under(s, q, j + 1), p, i, FoldStep(a, q, p, j, r)[i])
  {
    var t, u, m := Under(s, q, j), Under(s, q, j + 1), FoldStep(a, q, p, j, r)[i];
    ShiftRightFits(j, q - p, p);
    forall x | x in u ensures x in t || (x in s && Index(x, q) == j && Rho(x, q) <= r && r >= 1) {
      RhoClosed(x, q);
    }
    forall x | x in u && Index(x, p) == i ensures Rho(x, p) <= m {
      FoldOfHash(x, q, p);
    }
    if m != a[i] {
      var x :| x in s && Index(x, q) == j && Rho(x, q) == r;
      FoldOfHash(x, q, p);
      assert x in u;
    } else if m != 0 {
      var x :| x in t && Index(x, p) == i && Rho(x, p) == m;
      assert x in u;
    }
  }

  lemma DowngradeIsCanonical(q: nat, p: nat, s: set<nat>)
    requires Precision(p) && Precision(q) && Hashes(s)
    requires p <= q
    ensures Valid(Canonical(q, s))
    ensures LowerTo(Canonical(q, s), p) == Canonical(p, s)
  {
    CanonicalIsValid(q, s);
    Pow2Monotone(p, q);
    if p < q && |s| > SparseLimit(q) {
      var regs := Registers(q, s);
      FoldIsRegisters(regs, q, p, |regs|, s);
      assert Under(s, q, |regs|) == s by {
        forall x | x in s ensures Index(x, q) < |regs| { IndexInRange(x, q); }
      }
      RegistersUnique(Fold(regs, q, p, |regs|), p, s);
    }
  }

  lemma CanonicalIsValid(p: nat, s: set<nat>)
    requires Precision(p) && Hashes(s)
    ensures Valid(Canonical(p, s))
  {
    forall x | x in s ensures Rho(x, p) <= HASH_BITS - p + 1 { RhoClosed(x, p); }
  }

  // ---- adding and joining reach the canonical sketch of the union ----

  lemma RaiseIsRegisters(regs: seq<nat>, p: nat, s: set<nat>, x: nat)
    requires Precision(p) && IsRegisters(regs, p, s) && Hash(x)
    ensures Index(x, p) < |regs|
    ensures IsRegisters(Raise(regs, Index(x, p), Rho(x, p)), p, s + {x})
  {
    IndexInRange(x, p);
    var r := Raise(regs, Index(x, p), Rho(x, p));
    forall i | 0 <= i < |r| ensures IsMaxRho(s + {x}, p, i, r[i]) {
      assert IsMaxRho(s, p, i, regs[i]);
      if r[i] != regs[i] {
        assert x in s + {x};
      } else if r[i] != 0 {
        var y :| y in s && Index(y, p) == i && Rho(y, p) == r[i];
        assert y in s + {x};
      }
    }
  }

  lemma PairMaxIsRegisters(a: seq<nat>, b: seq<nat>, p: nat, s: set<nat>, t: set<nat>)
    requires Precision(p) && IsRegisters(a, p, s) && IsRegisters(b, p, t)
    ensures IsRegisters(PairMax(a, b), p, s + t)
  {
    forall i | 0 <= i < |a| ensures IsMaxRho(s + t, p, i, PairMax(a, b)[i]) {
      assert IsMaxRho(s, p, i, a[i]) && IsMaxRho(t, p, i, b[i]);
      var m := PairMax(a, b)[i];
      if m != 0 {
        var x :| x in s + t && Index(x, p) == i && Rho(x, p) == m;
      }
    }
  }

  lemma SubsetSize<T>(s: set<T>, t: set<T>)
    requires s <= t
    ensures |s| <= |t|
  {
    assert t == s + (t - s);
  }

  lemma AddIsCanonical(p: nat, s: set<nat>, x: nat)
    requires Precision(p) && Hashes(s) && Hash(x)
    ensures Valid(Canonical(p, s))
    ensures AddTo(Canonical(p, s), x) == Canonical(p, s + {x})
  {
    CanonicalIsValid(p, s);
    if |s| > SparseLimit(p) {
      SubsetSize(s, s + {x});
      RaiseIsRegisters(Registers(p, s), p, s, x);
      RegistersUnique(Raise(Registers(p, s), Index(x, p), Rho(x, p)), p, s + {x});
    }
  }

  lemma JoinIsCanonical(p: nat, s: set<nat>, t: set<nat>)
    requires Precision(p) && Hashes(s) && Hashes(t)
    ensures Valid(Canonical(p, s)) && Valid(Canonical(p, t))
    ensures Join(Canonical(p, s), Canonical(p, t)) == Canonical(p, s + t)
  {
    CanonicalIsValid(p, s);
    CanonicalIsValid(p, t);
    if |s| > SparseLimit(p) || |t| > SparseLimit(p) {
      SubsetSize(s, s + t);
      SubsetSize(t, s + t);
      PairMaxIsRegisters(Registers(p, s), Registers(p, t), p, s, t);
      RegistersUnique(PairMax(Registers(p, s), Registers(p, t)), p, s + t);
    }
  }

  // ---- joining a hash set one hash at a time ----

  lemma JoinNothing(h: Sketch)
    requires Valid(h)
    ensures Join(h, Sparse(h.p, {})) == h
  {
    if h.Sparse? {
      assert h.hashes + {} == h.hashes;
    } else {
      var none := Registers(h.p, {});
      forall i | 0 <= i < |none| ensures none[i] == 0 { assert IsMaxRho({}, h.p, i, none[i]); }
      assert PairMax(h.regs, none) == h.regs;
    }
  }

  lemma JoinOneMore(h: Sketch, s: set<nat>, x: nat)
    requires Valid(h) && Valid(Sparse(h.p, s)) && Valid(Sparse(h.p, s + {x}))
    ensures Valid(Join(h, Sparse(h.p, s)))
    ensures AddTo(Join(h, Sparse(h.p, s)), x) == Join(h, Sparse(h.p, s + {x}))
  {
    var p := h.p;
    assert Hash(x) by { assert x in s + {x}; }
    match h
    case Sparse(_, t) =>
      AddIsCanonical(p, t + s, x);
      assert t + s + {x} == t + (s + {x});
    case Dense(_, regs) =>
      var rs, i, rho := Registers(p, s), Index(x, p), Rho(x, p);
      RegistersBounded(p, s);
      RaiseIsRegisters(rs, p, s, x);
      RegistersUnique(Raise(rs, i, rho), p, s + {x});
      assert Raise(PairMax(regs, rs), i, rho) == PairMax(regs, Raise(rs, i, rho));
  }

  // ---- any history ends in the canonical sketch ----

  /** How a sketch came about: created, given a hash, or merged with another. */
  datatype History = Fresh(p: nat) | Add(before: History, x: nat) | Merge(left: History, right: History)

  ghost predicate WellFormed(h: History) {
    match h
    case Fresh(p) => Precision(p)
    case Add(b, x) => WellFormed(b) && Hash(x)
    case Merge(l, r) => WellFormed(l) && WellFormed(r)
  }

  ghost function Added(h: History): set<nat> {
    match h
    case Fresh(_) => {}
    case Add(b, x) => Added(b) + {x}
    case Merge(l, r) => Added(l) + Added(r)
  }

  function LowestPrecision(h: History): nat {
    match h
    case Fresh(p) => p
    case Add(b, _) => LowestPrecision(b)
    case Merge(l, r) => Min(LowestPrecision(l), LowestPrecision(r))
  }

  /** The precisions are levelled first, downgrading a copy of the other sketch or this one. */
  ghost function MergeInto(h: Sketch, o: Sketch): Sketch
    requires Valid(h) && Valid(o)
  {
    DowngradeIsValid(h, Min(h.p, o.p));
    DowngradeIsValid(o, Min(h.p, o.p));
    Join(LowerTo(h, Min(h.p, o.p)), LowerTo(o, Min(h.p, o.p)))
  }

  /** The sketch the operations of a history produce. */
  ghost function Outcome(h: History): (s: Sketch)
    requires WellFormed(h)
    ensures Valid(s)
  {
    match h
    case Fresh(p) => Sparse(p, {})
    case Add(b, x) => AddIsValid(Outcome(b), x); AddTo(Outcome(b), x)
    case Merge(l, r) => MergeIsValid(Outcome(l), Outcome(r)); MergeInto(Outcome(l), Outcome(r))
  }

  lemma AddIsValid(h: Sketch, x: nat)
    requires Valid(h) && Hash(x)
    ensures Valid(AddTo(h, x))
  {
    RhoClosed(x, h.p);
    IndexInRange(x, h.p);
    if h.Sparse? { CanonicalIsValid(h.p, h.hashes + {x}); }
  }

  lemma {:induction false} FoldIsBounded(regs: seq<nat>, q: nat, p: nat, n: nat)
    requires p <= q && n <= |regs| == Pow2(q) && q <= HASH_BITS
    requires forall i :: 0 <= i < |regs| ==> regs[i] <= HASH_BITS - q + 1
    ensures forall i :: 0 <= i < Pow2(p) ==> Fold(regs, q, p, n)[i] <= HASH_BITS - p + 1
  {
    if n > 0 { FoldIsBounded(regs, q, p, n - 1); }
  }

  lemma DowngradeIsValid(h: Sketch, p: nat)
    requires Valid(h) && Precision(p)
    ensures Valid(LowerTo(h, p)) && LowerTo(h, p).p == Min(h.p, p)
  {
    if p < h.p {
      match h
      case Sparse(_, s) => CanonicalIsValid(p, s);
      case Dense(q, regs) => FoldIsBounded(regs, q, p, |regs|);
    }
  }

  lemma JoinIsValid(a: Sketch, b: Sketch)
    requires Valid(a) && Valid(b) && a.p == b.p
    ensures Valid(Join(a, b)) && Join(a, b).p == a.p
  {
    if a.Sparse? { RegistersBounded(a.p, a.hashes); }
    if b.Sparse? { RegistersBounded(b.p, b.hashes); }
    if a.Sparse? && b.Sparse? { CanonicalIsValid(a.p, a.hashes + b.hashes); }
  }

  lemma MergeIsValid(h: Sketch, o: Sketch)
    requires Valid(h) && Valid(o)
    ensures Valid(MergeInto(h, o))
  {
    var p := Min(h.p, o.p);
    DowngradeIsValid(h, p);
    DowngradeIsValid(o, p);
    JoinIsValid(LowerTo(h, p), LowerTo(o, p));
  }

  lemma RegistersBounded(p: nat, s: set<nat>)
    requires Precision(p)
    ensures forall i :: 0 <= i < Pow2(p) ==> Registers(p, s)[i] <= HASH_BITS - p + 1
  {
    forall x | x in s ensures Rho(x, p) <= HASH_BITS - p + 1 { RhoClosed(x, p); }
    forall i | 0 <= i < Pow2(p) ensures Registers(p, s)[i] <= HASH_BITS - p + 1 {
      assert IsMaxRho(s, p, i, Registers(p, s)[i]);
    }
  }

  /** Whatever was added and merged, in whatever order and at whatever precisions, the sketch is the
      canonical one of all added hashes at the lowest precision met. */
  lemma {:induction false} HistoryIsCanonical(h: History)
    requires WellFormed(h)
    ensures Precision(LowestPrecision(h)) && Hashes(Added(h))
    ensures Outcome(h) == Canonical(LowestPrecision(h), Added(h))
  {
    match h
    case Fresh(p) =>
    case Add(b, x) =>
      HistoryIsCanonical(b);
      AddIsCanonical(LowestPrecision(b), Added(b), x);
    case Merge(l, r) =>
      HistoryIsCanonical(l);
      HistoryIsCanonical(r);
      var p := LowestPrecision(h);
      DowngradeIsCanonical(LowestPrecision(l), p, Added(l));
      DowngradeIsCanonical(LowestPrecision(r), p, Added(r));
      JoinIsCanonical(p, Added(l), Added(r));
  }

  /** Two histories with the same hashes and lowest precision cannot be told apart. */
  lemma SameHashesSameSketch(a: History, b: History)
    requires WellFormed(a) && WellFormed(b)
    requires Added(a) == Added(b) && LowestPrecision(a) == LowestPrecision(b)
    ensures Outcome(a) == Outcome(b)
  {
    HistoryIsCanonical(a);
    HistoryIsCanonical(b);
  }
}
