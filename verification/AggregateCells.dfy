/** What the cells of aggregate families hold after any sequence of additions and merges. */
module AggregateCells {
  import opened Basics
  import opened Lex
  import opened Bits
  import opened BitStrings
  import opened Mutations
  import Sketches
  import SketchCodec
  import SketchLaws
  import Values

  // ---- 64-bit integers ----

  lemma EncodedValue(x: int)
    ensures BytesValue(EncodeInt64(x)) == x % TWO64
  {
    var u := x % TWO64;
    Values.Widths();
    UnpackBigEndian(u, 8);
    ValueOfBin(u, 64);
    BytesValueIsValue(BigEndian(u, 8));
  }

  lemma WrapOfRemainder(x: int)
    ensures Wrap(x % TWO64) == Wrap(x)
  {
    var q := x / TWO64;
    assert x == TWO64 * q + x % TWO64;
    SameRemainder(x % TWO64 + MAX_INT64 + 1, q);
  }

  lemma SameRemainder(a: int, q: int)
    ensures (a + TWO64 * q) % TWO64 == a % TWO64
  {
    var r, p := a % TWO64, a / TWO64;
    assert a + TWO64 * q == TWO64 * (p + q) + r;
    RemainderUnique(a + TWO64 * q, p + q, r);
  }

  lemma RemainderUnique(x: int, q: int, r: int)
    requires x == TWO64 * q + r && 0 <= r < TWO64
    ensures x % TWO64 == r
  {
    var d := x / TWO64 - q;
    assert TWO64 * d == r - x % TWO64;
    assert d >= 1 ==> TWO64 * d >= TWO64;
    assert d <= -1 ==> TWO64 * d + TWO64 <= 0;
  }

  /** A stored integer reads back as itself, wrapped to 64 bits. */
  lemma DecodeInvertsEncode(x: int)
    ensures |EncodeInt64(x)| == 8 && DecodeInt64(EncodeInt64(x)) == Wrap(x)
  {
    EncodedValue(x);
    WrapOfRemainder(x);
  }

  predicate Fits(x: int) { -MAX_INT64 - 1 <= x <= MAX_INT64 }

  lemma WrapFits(x: int)
    ensures Fits(Wrap(x)) && (Fits(x) ==> Wrap(x) == x)
  {
  }

  lemma AddCongruent(a: int, b: int, y: int)
    requires a % TWO64 == b % TWO64
    ensures (a + y) % TWO64 == (b + y) % TWO64
  {
    var q := a / TWO64 - b / TWO64;
    assert a == TWO64 * (a / TWO64) + a % TWO64 && b == TWO64 * (b / TWO64) + b % TWO64;
    assert a + y == b + y + TWO64 * q;
    SameRemainder(b + y, q);
  }

  lemma WrapAdds(x: int, y: int)
    ensures Wrap(Wrap(x) + y) == Wrap(x + y)
  {
    WrapIsCongruent(x);
    AddCongruent(Wrap(x), x, y);
    AddCongruent(Wrap(x) + y, x + y, MAX_INT64 + 1);
  }

  lemma WrapDiffers(x: int)
    ensures (Wrap(x) - x) % TWO64 == 0
  {
    var z := x + MAX_INT64 + 1;
    assert z == TWO64 * (z / TWO64) + z % TWO64;
    RemainderUnique(Wrap(x) - x, -(z / TWO64), 0);
  }

  lemma WrapIsCongruent(x: int)
    ensures Wrap(x) % TWO64 == x % TWO64
  {
    WrapDiffers(x);
    var d := (Wrap(x) - x) / TWO64;
    assert Wrap(x) - x == TWO64 * d;
    SameRemainder(x, d);
  }

  ghost predicate Holds(cell: Option<Bytes>, y: int) { cell.Some? && |cell.value| == 8 && DecodeInt64(cell.value) == y }

  lemma StoredHolds(y: int)
    requires Fits(y)
    ensures Holds(Some(EncodeInt64(y)), y)
  {
    DecodeInvertsEncode(y);
    WrapFits(y);
  }

  lemma CombineFits(kind: Kind, y: int, x: int)
    requires Fits(y) && Fits(x)
    ensures Fits(Combine(kind, y, x))
  {
    WrapFits(y + x);
  }

  /** The next value is combined from the integer held and the input. */
  lemma AddHolds(s: Schema, kind: Kind, cell: Option<Bytes>, y: int, x: int)
    requires !kind.Hll? && Holds(cell, y) && Fits(y) && Fits(x)
    ensures Holds(Aggregated(s, kind, cell, IntInput(x), false), Combine(kind, y, x))
  {
    var z := Combine(kind, y, x);
    CombineFits(kind, y, x);
    StoredHolds(z);
    assert Aggregated(s, kind, cell, IntInput(x), false) == Some(EncodeInt64(z));
  }

  /** The cell after adding the inputs one by one. */
  function AddAll(s: Schema, kind: Kind, xs: seq<int>): Option<Bytes> {
    if xs == [] then None else Aggregated(s, kind, AddAll(s, kind, xs[..|xs| - 1]), IntInput(xs[|xs| - 1]), false)
  }

  ghost predicate AllFit(xs: seq<int>) { forall i :: 0 <= i < |xs| ==> Fits(xs[i]) }

  function Folded(kind: Kind, xs: seq<int>): int
    requires xs != []
  {
    var init, x := xs[..|xs| - 1], xs[|xs| - 1];
    if init == [] then x else Combine(kind, Folded(kind, init), x)
  }

  lemma {:induction false} CellHoldsFold(s: Schema, kind: Kind, xs: seq<int>)
    requires !kind.Hll? && xs != [] && AllFit(xs)
    ensures Fits(Folded(kind, xs)) && Holds(AddAll(s, kind, xs), Folded(kind, xs))
  {
    var init, x := xs[..|xs| - 1], xs[|xs| - 1];
    assert Fits(x);
    if init == [] {
      StoredHolds(x);
      assert AddAll(s, kind, init) == None;
    } else {
      CellHoldsFold(s, kind, init);
      AddHolds(s, kind, AddAll(s, kind, init), Folded(kind, init), x);
      CombineFits(kind, Folded(kind, init), x);
    }
  }

  function Total(xs: seq<int>): int { if xs == [] then 0 else Total(xs[..|xs| - 1]) + xs[|xs| - 1] }

  lemma {:induction false} FoldIsTotal(xs: seq<int>)
    requires xs != [] && AllFit(xs)
    ensures Folded(Sum, xs) == Wrap(Total(xs))
  {
    var init, x := xs[..|xs| - 1], xs[|xs| - 1];
    assert Fits(x);
    if init == [] {
      assert Total(init) == 0;
      WrapFits(x);
    } else {
      FoldIsTotal(init);
      WrapAdds(Total(init), x);
    }
  }

  /** A sum cell holds the total of everything added, wrapped once to 64 bits. */
  lemma SumCellHoldsTotal(s: Schema, xs: seq<int>)
    requires xs != [] && AllFit(xs)
    ensures Holds(AddAll(s, Sum, xs), Wrap(Total(xs)))
  {
    CellHoldsFold(s, Sum, xs);
    FoldIsTotal(xs);
  }

  lemma {:induction false} FoldIsExtreme(xs: seq<int>)
    requires xs != []
    ensures Folded(Least, xs) in xs && forall i :: 0 <= i < |xs| ==> Folded(Least, xs) <= xs[i]
    ensures Folded(Greatest, xs) in xs && forall i :: 0 <= i < |xs| ==> xs[i] <= Folded(Greatest, xs)
  {
    var init, x := xs[..|xs| - 1], xs[|xs| - 1];
    assert xs == init + [x];
    if init != [] { FoldIsExtreme(init); }
  }

  /** A min cell holds the least of everything added, a max cell the greatest. */
  lemma ExtremeCells(s: Schema, xs: seq<int>) returns (lo: int, hi: int)
    requires xs != [] && AllFit(xs)
    ensures Holds(AddAll(s, Least, xs), lo) && lo in xs && forall i :: 0 <= i < |xs| ==> lo <= xs[i]
    ensures Holds(AddAll(s, Greatest, xs), hi) && hi in xs && forall i :: 0 <= i < |xs| ==> xs[i] <= hi
  {
    lo, hi := Folded(Least, xs), Folded(Greatest, xs);
    CellHoldsFold(s, Least, xs);
    CellHoldsFold(s, Greatest, xs);
    FoldIsExtreme(xs);
  }

  // ---- sketches ----

  const DEFAULT_PRECISION: nat := 14

  /** The stored sketch, or a fresh one, takes an item's hash or another sketch, and is encoded again;
      None when a sketch cannot be decoded. */
  ghost function HllWrite(hash: Bytes -> nat, prior: Option<Bytes>, x: Bytes, merge: bool): Option<Bytes>
    requires Sketches.Hash(hash(x))
  {
    var base := Base(prior);
    if base.Err? then None
    else
      BaseIsValid(prior);
      if merge then
        var other := SketchCodec.Decode(x);
        if other.Err? then None
        else
          SketchCodec.DecodeIsValid(x);
          Sketches.MergeIsValid(base.value, other.value);
          Some(SketchCodec.Encode(Sketches.MergeInto(base.value, other.value)))
      else
        Sketches.AddIsValid(base.value, hash(x));
        Some(SketchCodec.Encode(Sketches.AddTo(base.value, hash(x))))
  }

  ghost function Base(prior: Option<Bytes>): SketchCodec.Result<Sketches.Sketch> {
    if prior.None? then SketchCodec.Ok(Sketches.Outcome(Sketches.Fresh(DEFAULT_PRECISION))) else SketchCodec.Decode(prior.value)
  }

  lemma BaseIsValid(prior: Option<Bytes>)
    requires Base(prior).Ok?
    ensures Sketches.Valid(Base(prior).value)
  {
    if prior.Some? { SketchCodec.DecodeIsValid(prior.value); } else { Sketches.HistoryIsCanonical(Sketches.Fresh(DEFAULT_PRECISION)); }
  }

  /** The schema's sketch operation is the one on decoded sketches. */
  ghost predicate Sketching(s: Schema, hash: Bytes -> nat) {
    && (forall x :: Sketches.Hash(hash(x)))
    && (forall prior, x, merge :: s.hll(prior, x, merge) == HllWrite(hash, prior, x, merge))
  }

  /** One write to a sketch cell, and the writes that validation lets through. */
  datatype Write = Write(input: Input, merge: bool)

  predicate ValidWrite(s: Schema, w: Write) {
    if w.merge then s.hll(None, RawBytes(w.input), true).Some? else HllItem(w.input).Some?
  }

  ghost predicate ValidWrites(s: Schema, ws: seq<Write>) { forall i :: 0 <= i < |ws| ==> ValidWrite(s, ws[i]) }

  /** The cell after the writes. */
  function WriteAll(s: Schema, ws: seq<Write>): Option<Bytes> {
    if ws == [] then None else Aggregated(s, Hll, WriteAll(s, ws[..|ws| - 1]), ws[|ws| - 1].input, ws[|ws| - 1].merge)
  }

  lemma WriteStaysReadable(s: Schema, hash: Bytes -> nat, prior: Option<Bytes>, w: Write)
    requires Sketching(s, hash) && ValidWrite(s, w) && Base(prior).Ok?
    ensures var r := Aggregated(s, Hll, prior, w.input, w.merge); r.Some? && SketchCodec.Decode(r.value).Ok?
  {
    var x := if w.merge then RawBytes(w.input) else HllItem(w.input).value;
    BaseIsValid(prior);
    assert s.hll(prior, x, w.merge) == HllWrite(hash, prior, x, w.merge);
    assert s.hll(None, x, w.merge) == HllWrite(hash, None, x, w.merge);
    if w.merge {
      var other := SketchCodec.Decode(x).value;
      SketchCodec.DecodeIsValid(x);
      Sketches.MergeIsValid(Base(prior).value, other);
      SketchCodec.DecodeInvertsEncode(Sketches.MergeInto(Base(prior).value, other));
    } else {
      Sketches.AddIsValid(Base(prior).value, hash(x));
      SketchCodec.DecodeInvertsEncode(Sketches.AddTo(Base(prior).value, hash(x)));
    }
  }

  /** Whatever valid writes it takes, merges of foreign sketches included, a sketch cell never fails and
      stays readable. */
  lemma {:induction false} SketchCellStaysReadable(s: Schema, hash: Bytes -> nat, ws: seq<Write>)
    requires Sketching(s, hash) && ValidWrites(s, ws) && ws != []
    ensures WriteAll(s, ws).Some? && SketchCodec.Decode(WriteAll(s, ws).value).Ok?
  {
    var init, w := ws[..|ws| - 1], ws[|ws| - 1];
    if init != [] { SketchCellStaysReadable(s, hash, init); }
    assert ValidWrite(s, w);
    WriteStaysReadable(s, hash, WriteAll(s, init), w);
  }

  // ---- the order of writes ----

  /** The sketch that a write merges into the cell. */
  ghost function Operand(hash: Bytes -> nat, w: Write): Sketches.Sketch {
    if !w.merge then Sketches.Sparse(Sketches.MAX_PRECISION, {hash(if HllItem(w.input).Some? then HllItem(w.input).value else [])})
    else if SketchCodec.Decode(RawBytes(w.input)).Ok? then SketchCodec.Decode(RawBytes(w.input)).value
    else FRESH
  }

  const FRESH := Sketches.Sparse(DEFAULT_PRECISION, {})

  ghost function Operands(hash: Bytes -> nat, ws: seq<Write>): (r: seq<Sketches.Sketch>)
    ensures |r| == |ws| && forall i :: 0 <= i < |ws| ==> r[i] == Operand(hash, ws[i])
  {
    seq(|ws|, i requires 0 <= i < |ws| => Operand(hash, ws[i]))
  }

  lemma FreshIsValid()
    ensures Sketches.Valid(FRESH)
  {
  }

  lemma OperandIsValid(s: Schema, hash: Bytes -> nat, w: Write)
    requires Sketching(s, hash) && ValidWrite(s, w)
    ensures Sketches.Valid(Operand(hash, w)) && (w.merge ==> SketchCodec.Decode(RawBytes(w.input)).Ok?)
  {
    if w.merge {
      var x := RawBytes(w.input);
      assert s.hll(None, x, true) == HllWrite(hash, None, x, true);
      SketchCodec.DecodeIsValid(x);
    } else {
      SketchLaws.OneHashIsValid(Sketches.MAX_PRECISION, hash(HllItem(w.input).value));
    }
  }

  /** One write merges its sketch into the stored one. */
  lemma WriteMerges(s: Schema, hash: Bytes -> nat, prior: Option<Bytes>, w: Write)
    requires Sketching(s, hash) && ValidWrite(s, w) && Base(prior).Ok?
    ensures Sketches.Valid(Base(prior).value) && Sketches.Valid(Operand(hash, w))
    ensures Sketches.Valid(Sketches.MergeInto(Base(prior).value, Operand(hash, w)))
    ensures Aggregated(s, Hll, prior, w.input, w.merge) == Some(SketchCodec.Encode(Sketches.MergeInto(Base(prior).value, Operand(hash, w))))
  {
    var x := if w.merge then RawBytes(w.input) else HllItem(w.input).value;
    BaseIsValid(prior);
    OperandIsValid(s, hash, w);
    Sketches.MergeIsValid(Base(prior).value, Operand(hash, w));
    assert s.hll(prior, x, w.merge) == HllWrite(hash, prior, x, w.merge);
    if !w.merge { SketchLaws.AddIsMerge(Base(prior).value, hash(x)); }
  }

  lemma OperandsAreValid(s: Schema, hash: Bytes -> nat, ws: seq<Write>)
    requires Sketching(s, hash) && ValidWrites(s, ws)
    ensures SketchLaws.AllValid(Operands(hash, ws))
  {
    forall i | 0 <= i < |ws| ensures Sketches.Valid(Operand(hash, ws[i])) { OperandIsValid(s, hash, ws[i]); }
  }

  /** A cell holds the merge of what was written to it. */
  lemma {:induction false} SketchCellIsMerge(s: Schema, hash: Bytes -> nat, ws: seq<Write>)
    requires Sketching(s, hash) && ValidWrites(s, ws) && ws != []
    ensures SketchLaws.AllValid(Operands(hash, ws)) && Sketches.Valid(FRESH)
    ensures WriteAll(s, ws) == Some(SketchCodec.Encode(SketchLaws.Merged(FRESH, Operands(hash, ws))))
  {
    var init, w, ops := ws[..|ws| - 1], ws[|ws| - 1], Operands(hash, ws);
    FreshIsValid();
    OperandsAreValid(s, hash, ws);
    OperandsAreValid(s, hash, init);
    assert ops[..|ops| - 1] == Operands(hash, init);
    if init != [] {
      SketchCellIsMerge(s, hash, init);
      SketchCodec.DecodeInvertsEncode(SketchLaws.Merged(FRESH, Operands(hash, init)));
    }
    assert ValidWrite(s, w);
    WriteMerges(s, hash, WriteAll(s, init), w);
  }

  lemma SameOperands(hash: Bytes -> nat, ws: seq<Write>, vs: seq<Write>, x: Sketches.Sketch)
    requires (forall w :: w in ws ==> w in vs) && x in Operands(hash, ws)
    ensures x in Operands(hash, vs)
  {
    var i :| 0 <= i < |ws| && x == Operands(hash, ws)[i];
    assert ws[i] in vs;
    var j :| 0 <= j < |vs| && vs[j] == ws[i];
    assert Operands(hash, vs)[j] == x;
  }

  /** A sketch cell does not depend on the order of its writes, nor on their repetition, merges of any
      readable sketches at any precisions included. */
  lemma SketchCellIsOrderIndependent(s: Schema, hash: Bytes -> nat, ws: seq<Write>, vs: seq<Write>)
    requires Sketching(s, hash) && ValidWrites(s, ws) && ValidWrites(s, vs) && ws != [] && vs != []
    requires forall w :: w in ws <==> w in vs
    ensures WriteAll(s, ws) == WriteAll(s, vs)
  {
    SketchCellIsMerge(s, hash, ws);
    SketchCellIsMerge(s, hash, vs);
    forall x ensures x in Operands(hash, ws) <==> x in Operands(hash, vs) {
      if x in Operands(hash, ws) { SameOperands(hash, ws, vs, x); }
      if x in Operands(hash, vs) { SameOperands(hash, vs, ws, x); }
    }
    SketchLaws.MergedBySet(FRESH, Operands(hash, ws), Operands(hash, vs));
  }

  // ---- sketches with histories ----

  /** The write adds an item, or merges the encoded sketch of the history `h`. */
  ghost predicate WriteOf(w: Write, h: Sketches.History) {
    if w.merge then Sketches.WellFormed(h) && HasBytes(h, RawBytes(w.input)) else HllItem(w.input).Some?
  }

  ghost predicate HasBytes(h: Sketches.History, b: Bytes)
    requires Sketches.WellFormed(h)
  {
    Sketches.HistoryIsCanonical(h);
    b == SketchCodec.Encode(Sketches.Outcome(h))
  }

  ghost predicate WritesOf(ws: seq<Write>, hs: seq<Sketches.History>) {
    |ws| == |hs| && forall i :: 0 <= i < |ws| ==> WriteOf(ws[i], hs[i])
  }

  function After(before: Sketches.History, w: Write, h: Sketches.History, hash: Bytes -> nat): Sketches.History {
    if w.merge then Sketches.Merge(before, h) else Sketches.Add(before, hash(if HllItem(w.input).Some? then HllItem(w.input).value else []))
  }

  function HistoryOf(ws: seq<Write>, hs: seq<Sketches.History>, hash: Bytes -> nat): Sketches.History
    requires |ws| == |hs|
  {
    if ws == [] then Sketches.Fresh(DEFAULT_PRECISION)
    else After(HistoryOf(ws[..|ws| - 1], hs[..|hs| - 1], hash), ws[|ws| - 1], hs[|hs| - 1], hash)
  }

  /** One write continues the history of the cell, stored or fresh. */
  lemma WriteStep(s: Schema, hash: Bytes -> nat, before: Sketches.History, w: Write, h: Sketches.History, stored: bool)
    requires Sketching(s, hash) && Sketches.WellFormed(before) && WriteOf(w, h)
    requires !stored ==> before == Sketches.Fresh(DEFAULT_PRECISION)
    ensures Sketches.Valid(Sketches.Outcome(before))
    ensures Sketches.WellFormed(After(before, w, h, hash)) && Sketches.Valid(Sketches.Outcome(After(before, w, h, hash)))
    ensures Aggregated(s, Hll, if stored then Some(SketchCodec.Encode(Sketches.Outcome(before))) else None, w.input, w.merge)
            == Some(SketchCodec.Encode(Sketches.Outcome(After(before, w, h, hash))))
  {
    var x := if w.merge then RawBytes(w.input) else HllItem(w.input).value;
    Sketches.HistoryIsCanonical(before);
    Sketches.HistoryIsCanonical(After(before, w, h, hash));
    SketchCodec.DecodeInvertsEncode(Sketches.Outcome(before));
    var prior := if stored then Some(SketchCodec.Encode(Sketches.Outcome(before))) else None;
    assert s.hll(prior, x, w.merge) == HllWrite(hash, prior, x, w.merge);
    if w.merge {
      Sketches.HistoryIsCanonical(h);
      SketchCodec.DecodeInvertsEncode(Sketches.Outcome(h));
    }
  }

  lemma {:induction false} HistoryIsWellFormed(ws: seq<Write>, hs: seq<Sketches.History>, hash: Bytes -> nat)
    requires WritesOf(ws, hs) && forall x :: Sketches.Hash(hash(x))
    ensures Sketches.WellFormed(HistoryOf(ws, hs, hash))
  {
    if ws != [] {
      assert WriteOf(ws[|ws| - 1], hs[|hs| - 1]);
      HistoryIsWellFormed(ws[..|ws| - 1], hs[..|hs| - 1], hash);
    }
  }

  /** When the merged sketches have histories, the cell holds the bytes of the canonical sketch of
      everything written to it, at the lowest precision met, whatever the order of the writes. */
  lemma {:induction false} SketchCellIsCanonical(s: Schema, hash: Bytes -> nat, ws: seq<Write>, hs: seq<Sketches.History>)
    requires Sketching(s, hash) && WritesOf(ws, hs) && ws != []
    ensures var h := HistoryOf(ws, hs, hash);
            Sketches.WellFormed(h) && Sketches.Precision(Sketches.LowestPrecision(h)) && Sketches.Hashes(Sketches.Added(h))
    ensures var h := HistoryOf(ws, hs, hash); var c := Sketches.Canonical(Sketches.LowestPrecision(h), Sketches.Added(h));
            Sketches.Valid(c) && WriteAll(s, ws) == Some(SketchCodec.Encode(c))
  {
    var init, w, rest, h := ws[..|ws| - 1], ws[|ws| - 1], hs[..|hs| - 1], hs[|hs| - 1];
    assert WriteOf(w, h) && WritesOf(init, rest);
    HistoryIsWellFormed(ws, hs, hash);
    HistoryIsWellFormed(init, rest, hash);
    Sketches.HistoryIsCanonical(HistoryOf(ws, hs, hash));
    Sketches.HistoryIsCanonical(HistoryOf(init, rest, hash));
    if init != [] { SketchCellIsCanonical(s, hash, init, rest); }
    WriteStep(s, hash, HistoryOf(init, rest, hash), w, h, init != []);
  }
}
