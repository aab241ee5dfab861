/** The mutable sketch: a hash set while small, an array of registers afterwards. Each method is
    proved against the sketch operations of module Sketches. */
module Hll {
  import opened Basics
  import opened Lex
  import opened Bits
  import opened Sketches
  import Uvarint
  import SketchCodec

  class Hll {
    var p: nat
    var sparse: Option<set<nat>>  // None once the registers are in use
    var regs: array<nat>

    ghost function Value(): Sketch
      reads this, regs
    {
      match sparse
      case Some(s) => Sparse(p, s)
      case None => Dense(p, regs[..])
    }

    ghost predicate Ok()
      reads this, regs
    {
      Valid(Value())
    }

    constructor (precision: nat)
      requires Precision(precision)
      ensures Ok() && fresh(regs) && Value() == Outcome(Fresh(precision))
    {
      p, sparse, regs := precision, Some({}), new nat[0];
    }

    constructor Clone(o: Hll)
      requires o.Ok()
      ensures Ok() && fresh(regs) && Value() == o.Value()
    {
      p, sparse := o.p, o.sparse;
      regs := new nat[o.regs.Length](i requires 0 <= i < o.regs.Length reads o, o.regs => o.regs[i]);
      new;
      assert regs[..] == o.regs[..];
    }

    method SetRegister(x: nat)
      requires Precision(p) && Hash(x) && regs.Length == Pow2(p)
      modifies regs
      ensures Index(x, p) < regs.Length
      ensures regs[..] == Raise(old(regs[..]), Index(x, p), Rho(x, p))
    {
      IndexInRange(x, p);
      var idx := ShiftRight(x, HASH_BITS - p);
      var w := Low(ShiftLeft(x, p), HASH_BITS) + Pow2(p - 1);
      var rho := HASH_BITS - BitLen(w) + 1;
      if rho > regs[idx] {
        regs[idx] := rho;
      }
    }

    /** Replays the hash set into fresh registers, in any order. */
    method Densify()
      requires Precision(p) && sparse.Some? && Hashes(sparse.value)
      modifies this
      ensures p == old(p) && sparse.None? && fresh(regs)
      ensures Value() == Dense(p, Registers(p, old(sparse.value)))
    {
      regs := new nat[Pow2(p)](_ => 0);
      var todo := sparse.value;
      ghost var done := {};
      while todo != {}
        invariant p == old(p) && sparse == old(sparse) && fresh(regs)
        invariant done + todo == sparse.value && IsRegisters(regs[..], p, done)
        decreases |todo|
      {
        var x :| x in todo;
        RaiseIsRegisters(regs[..], p, done, x);
        SetRegister(x);
        todo, done := todo - {x}, done + {x};
      }
      RegistersUnique(regs[..], p, sparse.value);
      sparse := None;
    }

    method AddHash(x: nat)
      requires Ok() && Hash(x)
      modifies this, regs
      ensures Ok() && Value() == AddTo(old(Value()), x)
      ensures regs == old(regs) || fresh(regs)
    {
      AddIsValid(Value(), x);
      if sparse.Some? {
        sparse := Some(sparse.value + {x});
        if |sparse.value| > SparseLimit(p) {
          Densify();
        }
      } else {
        SetRegister(x);
      }
    }

    /** Reduces the precision to `q`; a higher `q` changes nothing. */
    method Downgrade(q: nat)
      requires Ok() && Precision(q)
      modifies this
      ensures Ok() && Value() == LowerTo(old(Value()), q)
      ensures regs == old(regs) || fresh(regs)
    {
      DowngradeIsValid(Value(), q);
      if q >= p { return; }
      if sparse.Some? {
        p := q;
        if |sparse.value| > SparseLimit(p) {
          Densify();
        }
        return;
      }
      var folded := FoldRegisters(regs, p, q);
      p, regs := q, folded;
    }

    static method FoldRegisters(regs: array<nat>, p: nat, q: nat) returns (folded: array<nat>)
      requires q <= p && regs.Length == Pow2(p)
      ensures fresh(folded) && folded[..] == Fold(regs[..], p, q, regs.Length)
    {
      var d := p - q;
      folded := new nat[Pow2(q)](_ => 0);
      assert folded[..] == seq(Pow2(q), _ => 0);
      for j := 0 to regs.Length
        invariant folded[..] == Fold(regs[..], p, q, j)
      {
        var r := regs[j];
        if r != 0 {
          var dropped := Low(j, d);
          var rho := if dropped != 0 then d - BitLen(dropped) + 1 else d + r;
          var ni := ShiftRight(j, d);
          ShiftRightFits(j, d, q);
          if rho > folded[ni] {
            folded[ni] := rho;
          }
        }
      }
    }

    /** Merges `o` into this sketch, which may be `o` itself; a null `o` changes nothing. */
    method Merge(o: Hll?)
      requires Ok()
      requires o != null ==> o.Ok() && (o == this || o.regs != regs)
      modifies this, regs
      ensures Ok()
      ensures o == null ==> Value() == old(Value())
      ensures o != null ==> Value() == MergeInto(old(Value()), old(o.Value()))
      ensures o != null && o != this ==> o.Value() == old(o.Value())
    {
      if o == null { return; }
      MergeIsValid(Value(), o.Value());
      if o.p > p {
        var other := new Hll.Clone(o);
        other.Downgrade(p);
        MergeLevel(other);
      } else {
        if o.p < p {
          Downgrade(o.p);
        }
        MergeLevel(o);
      }
    }

    method MergeLevel(o: Hll)
      requires Ok() && o.Ok() && p == o.p && (o == this || o.regs != regs)
      modifies this, regs
      ensures Ok() && Value() == Join(old(Value()), old(o.Value()))
      ensures o != this ==> o.Value() == old(o.Value())
    {
      JoinIsValid(Value(), o.Value());
      if o.sparse.Some? {
        MergeHashes(o.sparse.value);
      } else {
        if sparse.Some? {
          Densify();
        }
        MergeRegisters(o.regs);
      }
    }

    method MergeHashes(hashes: set<nat>)
      requires Ok() && Valid(Sparse(p, hashes))
      modifies this, regs
      ensures Ok() && Value() == Join(old(Value()), Sparse(old(p), hashes))
      ensures regs == old(regs) || fresh(regs)
    {
      var todo := hashes;
      ghost var h, done := Value(), {};
      JoinNothing(h);
      while todo != {}
        invariant done + todo == hashes && Ok() && (regs == old(regs) || fresh(regs))
        invariant Valid(Sparse(h.p, done)) && Value() == Join(h, Sparse(h.p, done))
        decreases |todo|
      {
        var x :| x in todo;
        SubsetSize(done + {x}, hashes);
        JoinOneMore(h, done, x);
        AddHash(x);
        todo, done := todo - {x}, done + {x};
      }
    }

    method MergeRegisters(other: array<nat>)
      requires regs.Length == other.Length
      modifies regs
      ensures regs[..] == PairMax(old(regs[..]), old(other[..]))
    {
      var i := 0;
      while i < other.Length
        invariant 0 <= i <= other.Length
        invariant forall k :: 0 <= k < i ==> regs[k] == PairMax(old(regs[..]), old(other[..]))[k]
        invariant forall k :: i <= k < regs.Length ==> regs[k] == old(regs[k])
        invariant forall k :: i <= k < regs.Length ==> other[k] == old(other[k])
      {
        if other[i] > regs[i] {
          regs[i] := other[i];
        }
        i := i + 1;
      }
    }

    method Encode() returns (out: Bytes)
      requires Ok()
      ensures out == SketchCodec.Encode(Value())
    {
      if sparse.Some? {
        out := SketchCodec.EncodeHashes(p, sparse.value);
      } else {
        out := [SketchCodec.VERSION, p, 1] + regs[..];
      }
    }

    /** Reads a stored sketch; a hash set over the limit goes straight to registers. */
    static method Decode(b: Bytes) returns (r: SketchCodec.Result<Hll>)
      ensures r.Ok? == SketchCodec.Decode(b).Ok?
      ensures r.Ok? ==> fresh(r.value) && r.value.Ok() && r.value.Value() == SketchCodec.Decode(b).value
      ensures r.Err? ==> r == SketchCodec.Err(SketchCodec.Decode(b).message)
    {
      SketchCodec.DecodeIsValid(b);
      if |b| < 3 { return SketchCodec.Err("HLL sketch is empty or truncated"); }
      if b[0] != SketchCodec.VERSION { return SketchCodec.Err("unsupported HLL sketch version"); }
      if !Precision(b[1]) { return SketchCodec.Err("invalid HLL sketch precision"); }
      if b[2] == 0 {
        r := DecodeSparse(b[1], b[3..]);
      } else if b[2] == 1 {
        r := DecodeDense(b[1], b[3..]);
      } else {
        r := SketchCodec.Err("invalid HLL sketch representation");
      }
    }

    static method DecodeSparse(p: nat, b: Bytes) returns (r: SketchCodec.Result<Hll>)
      requires Precision(p)
      ensures r.Ok? == SketchCodec.DecodeSparse(p, b).Ok?
      ensures r.Ok? ==> fresh(r.value) && r.value.Value() == SketchCodec.DecodeSparse(p, b).value
      ensures r.Err? ==> r == SketchCodec.Err(SketchCodec.DecodeSparse(p, b).message)
    {
      var head := Uvarint.Decode(b);
      if head.None? || head.value.0 > Pow2(p) { return SketchCodec.Err("invalid sparse HLL sketch"); }
      var read := SketchCodec.ReadHashes(b[head.value.1..], head.value.0);
      SketchCodec.ReadDeltasAreHashes(b[head.value.1..], head.value.0, 0, {});
      if read.Err? { return SketchCodec.Err(read.message); }
      var (got, rest) := read.value;
      if rest != [] { return SketchCodec.Err("trailing bytes in sparse HLL sketch"); }
      var h := new Hll(p);
      h.sparse := Some(got);
      if |got| > SparseLimit(p) {
        h.Densify();
      }
      r := SketchCodec.Ok(h);
    }

    static method DecodeDense(p: nat, b: Bytes) returns (r: SketchCodec.Result<Hll>)
      requires Precision(p)
      ensures r.Ok? == SketchCodec.DecodeDense(p, b).Ok?
      ensures r.Ok? ==> fresh(r.value) && r.value.Value() == SketchCodec.DecodeDense(p, b).value
      ensures r.Err? ==> r == SketchCodec.Err(SketchCodec.DecodeDense(p, b).message)
    {
      if |b| != Pow2(p) { return SketchCodec.Err("invalid dense HLL sketch length"); }
      for i := 0 to |b|
        invariant forall k :: 0 <= k < i ==> b[k] <= HASH_BITS - p + 1
      {
        if b[i] > HASH_BITS - p + 1 {
          assert b[i] in b;
          return SketchCodec.Err("invalid dense HLL register value");
        }
      }
      var h := new Hll(p);
      h.sparse, h.regs := None, new nat[|b|](i requires 0 <= i < |b| => b[i]);
      assert h.regs[..] == b;
      r := SketchCodec.Ok(h);
    }
  }
}
