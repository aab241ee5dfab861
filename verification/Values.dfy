/** Runtime SQL values: the order used by sorting and MIN/MAX, and the key bytes used by hashed
    grouping and DISTINCT. */
module Values {
  import opened Basics
  import opened Lex
  import opened Bits
  import opened BitStrings
  import opened OrderedInt
  import Uvarint

  /** A FLOAT64 is its IEEE bit pattern; a MAP lists its keys and values alternately, in key order. */
  datatype Value =
    | Null
    | Bool(b: bool)
    | Int(i: int)
    | Float(bits: nat)
    | Str(s: Bytes)
    | Byt(s: Bytes)
    | Ts(us: int)
    | Date(days: int)
    | Array(elems: seq<Value>)
    | Struct(elems: seq<Value>)
    | Map(elems: seq<Value>)

  datatype Type =
    | TBool | TInt | TFloat | TStr | TBytes | TTs | TDate
    | TArray(elem: Type)
    | TStruct(fields: seq<Type>)
    | TMap(key: Type, val: Type)

  predicate HasElemType(t: Type, i: nat) {
    t.TArray? || t.TMap? || (t.TStruct? && i < |t.fields|)
  }

  function ElemType(t: Type, i: nat): Type
    requires HasElemType(t, i)
  {
    match t
    case TArray(e) => e
    case TStruct(fs) => fs[i]
    case TMap(k, v) => if i % 2 == 0 then k else v
  }

  predicate HasType(v: Value, t: Type)
    decreases v, 1
  {
    match v
    case Null => true
    case Bool(_) => t.TBool?
    case Int(i) => t.TInt? && Int64(i)
    case Float(bits) => t.TFloat? && bits < 2 * TWO63
    case Str(_) => t.TStr?
    case Byt(_) => t.TBytes?
    case Ts(us) => t.TTs? && Int64(us)
    case Date(d) => t.TDate? && -TWO31 <= d < TWO31
    case Array(es) => t.TArray? && HaveTypes(es, t, 0)
    case Struct(es) => t.TStruct? && |es| == |t.fields| && HaveTypes(es, t, 0)
    case Map(es) => t.TMap? && |es| % 2 == 0 && HaveTypes(es, t, 0)
  }

  /** The elements from position `o` on of a container of type `t`. */
  predicate HaveTypes(es: seq<Value>, t: Type, o: nat)
    decreases es, 0
  {
    es == [] || (HasElemType(t, o) && HasType(es[0], ElemType(t, o)) && HaveTypes(es[1..], t, o + 1))
  }

  const TWO31: int := 0x8000_0000

  // ---- order ----

  function CompareInt(a: int, b: int): (c: int) { if a < b then -1 else if a > b then 1 else 0 }

  const INFINITY_BITS: nat := 0x7FF0_0000_0000_0000
  const NAN_BITS: nat := 0x7FF8_0000_0000_0001

  function Unsigned63(bits: nat): nat { if bits < TWO63 then bits else bits - TWO63 }

  predicate IsNaN(bits: nat) { Unsigned63(bits) > INFINITY_BITS }

  /** IEEE order of non-NaN patterns is sign and magnitude order; both zeros have rank 0. */
  function FloatRank(bits: nat): int { if bits < TWO63 then bits else TWO63 - bits }

  function CompareFloat(a: nat, b: nat): (c: int) {
    if IsNaN(a) && IsNaN(b) then 0
    else if IsNaN(a) then -1
    else if IsNaN(b) then 1
    else CompareInt(FloatRank(a), FloatRank(b))
  }

  /** NULL first, NaN before other floats, containers element by element and then by length.
      Values of different types are never compared; the result for them is arbitrary. */
  function CompareValues(a: Value, b: Value): (c: int)
    decreases a, 1
  {
    match (a, b)
    case (Null, Null) => 0
    case (Null, _) => -1
    case (_, Null) => 1
    case (Bool(x), Bool(y)) => if x == y then 0 else if !x then -1 else 1
    case (Int(x), Int(y)) => CompareInt(x, y)
    case (Float(x), Float(y)) => CompareFloat(x, y)
    case (Str(x), Str(y)) => Compare(x, y)
    case (Byt(x), Byt(y)) => Compare(x, y)
    case (Ts(x), Ts(y)) => CompareInt(x, y)
    case (Date(x), Date(y)) => CompareInt(x, y)
    case (Array(x), Array(y)) => CompareSeqs(x, y)
    case (Struct(x), Struct(y)) => CompareSeqs(x, y)
    case (Map(x), Map(y)) => CompareSeqs(x, y)
    case _ => 0
  }

  function CompareSeqs(x: seq<Value>, y: seq<Value>): (c: int)
    decreases x, 0
  {
    if x == [] || y == [] then CompareInt(|x|, |y|)
    else if CompareValues(x[0], y[0]) != 0 then CompareValues(x[0], y[0])
    else CompareSeqs(x[1..], y[1..])
  }

  lemma {:induction false} CompareAntisym(a: Value, b: Value)
    ensures CompareValues(a, b) == -CompareValues(b, a)
    decreases a, 1
  {
    match (a, b)
    case (Str(x), Str(y)) => CompareAntisymmetric(x, y);
    case (Byt(x), Byt(y)) => CompareAntisymmetric(x, y);
    case (Array(x), Array(y)) => CompareSeqsAntisym(x, y);
    case (Struct(x), Struct(y)) => CompareSeqsAntisym(x, y);
    case (Map(x), Map(y)) => CompareSeqsAntisym(x, y);
    case _ =>
  }

  lemma {:induction false} CompareSeqsAntisym(x: seq<Value>, y: seq<Value>)
    ensures CompareSeqs(x, y) == -CompareSeqs(y, x)
    decreases x, 0
  {
    if x != [] && y != [] {
      CompareAntisym(x[0], y[0]);
      CompareSeqsAntisym(x[1..], y[1..]);
    }
  }

  /** Chaining two comparisons: not-after composes, and a strict step makes the result strict. */
  predicate Chains(ab: int, bc: int, ac: int) {
    ab <= 0 && bc <= 0 ==> ac <= 0 && (ac == 0 <==> ab == 0 && bc == 0)
  }

  lemma {:induction false} CompareTransitive(a: Value, b: Value, c: Value, t: Type)
    requires HasType(a, t) && HasType(b, t) && HasType(c, t)
    ensures Chains(CompareValues(a, b), CompareValues(b, c), CompareValues(a, c))
    decreases a, 1
  {
    if a.Null? || b.Null? || c.Null? { return; }
    match t
    case TStr => if AtMost(a.s, b.s) && AtMost(b.s, c.s) { LessTransitive(a.s, b.s, c.s); }
    case TBytes => if AtMost(a.s, b.s) && AtMost(b.s, c.s) { LessTransitive(a.s, b.s, c.s); }
    case TArray(_) => CompareSeqsTransitive(a.elems, b.elems, c.elems, t, 0);
    case TStruct(_) => CompareSeqsTransitive(a.elems, b.elems, c.elems, t, 0);
    case TMap(_, _) => CompareSeqsTransitive(a.elems, b.elems, c.elems, t, 0);
    case _ =>
  }

  lemma {:induction false} CompareSeqsTransitive(x: seq<Value>, y: seq<Value>, z: seq<Value>, t: Type, o: nat)
    requires HaveTypes(x, t, o) && HaveTypes(y, t, o) && HaveTypes(z, t, o)
    ensures Chains(CompareSeqs(x, y), CompareSeqs(y, z), CompareSeqs(x, z))
    decreases x, 0
  {
    if x != [] && y != [] && z != [] {
      CompareTransitive(x[0], y[0], z[0], ElemType(t, o));
      CompareSeqsTransitive(x[1..], y[1..], z[1..], t, o + 1);
    }
  }

  /** On the values of one type the comparison is a total preorder. */
  lemma TotalPreorder(a: Value, b: Value, c: Value, t: Type)
    requires HasType(a, t) && HasType(b, t) && HasType(c, t)
    ensures CompareValues(a, a) == 0
    ensures CompareValues(a, b) <= 0 || CompareValues(b, a) <= 0
    ensures CompareValues(a, b) < 0 <==> CompareValues(b, a) > 0
    ensures CompareValues(a, b) <= 0 && CompareValues(b, c) <= 0 ==> CompareValues(a, c) <= 0
  {
    CompareAntisym(a, a);
    CompareAntisym(a, b);
    CompareTransitive(a, b, c, t);
  }

  // ---- key bytes ----

  const TWO32: nat := 0x1_0000_0000

  /** All NaNs and both zeros get one pattern. */
  function CanonicalBits(bits: nat): nat {
    if IsNaN(bits) then NAN_BITS else if Unsigned63(bits) == 0 then 0 else bits
  }

  function Tag(v: Value): byte {
    match v
    case Null => 'N' as int
    case Bool(_) => 'b' as int
    case Int(_) => 'i' as int
    case Float(_) => 'f' as int
    case Str(_) => 's' as int
    case Byt(_) => 'y' as int
    case Ts(_) => 't' as int
    case Date(_) => 'd' as int
    case Array(_) => 'a' as int
    case Struct(_) => 'r' as int
    case Map(_) => 'm' as int
  }

  /** Integers are written as their two's complement. */
  function Body(v: Value): (k: Bytes)
    decreases v, 1
  {
    match v
    case Null => []
    case Bool(b) => [if b then 1 else 0]
    case Int(i) => BigEndian(i % TWO64, 8)
    case Float(bits) => BigEndian(CanonicalBits(bits), 8)
    case Str(s) => Uvarint.Encode(|s|) + s
    case Byt(s) => Uvarint.Encode(|s|) + s
    case Ts(us) => BigEndian(us % TWO64, 8)
    case Date(d) => BigEndian(d % TWO32, 4)
    case Array(es) => Uvarint.Encode(|es|) + Keys(es)
    case Struct(es) => Uvarint.Encode(|es|) + Keys(es)
    case Map(es) => Uvarint.Encode(|es| / 2) + Keys(es)
  }

  function Key(v: Value): (k: Bytes)
    decreases v, 2
  {
    [Tag(v)] + Body(v)
  }

  function Keys(es: seq<Value>): (k: Bytes)
    decreases es, 0
  {
    if es == [] then [] else Key(es[0]) + Keys(es[1..])
  }

  lemma BigEndianInjective(x: nat, y: nat, n: nat, s: Bytes, t: Bytes)
    requires x < Pow2(8 * n) && y < Pow2(8 * n) && BigEndian(x, n) + s == BigEndian(y, n) + t
    ensures x == y && s == t
  {
    assert BigEndian(x, n) == (BigEndian(x, n) + s)[..n] == (BigEndian(y, n) + t)[..n] == BigEndian(y, n);
    assert s == (BigEndian(x, n) + s)[n..] && t == (BigEndian(y, n) + t)[n..];
    UnpackBigEndian(x, n);
    UnpackBigEndian(y, n);
    ValueOfBin(x, 8 * n);
    ValueOfBin(y, 8 * n);
  }

  lemma Widths()
    ensures Pow2(8 * 8) == TWO64 && Pow2(8 * 4) == TWO32
  {
    TwoTo63();
    assert Pow2(8) == 256;
    Pow2By8(8);
    Pow2By8(16);
    Pow2By8(24);
  }

  lemma LengthPrefixed(x: Bytes, y: Bytes, s: Bytes, t: Bytes)
    requires Uvarint.Encode(|x|) + x + s == Uvarint.Encode(|y|) + y + t
    ensures x == y && s == t
  {
    Associative(Uvarint.Encode(|x|), x, s);
    Associative(Uvarint.Encode(|y|), y, t);
    Uvarint.PrefixFree(|x|, |y|, x + s, y + t);
    assert x == (x + s)[..|x|] && y == (y + t)[..|x|];
    assert s == (x + s)[|x|..] && t == (y + t)[|x|..];
  }

  lemma SameFloat(a: nat, b: nat)
    requires a < TWO64 && b < TWO64
    ensures CompareFloat(a, b) == 0 <==> CanonicalBits(a) == CanonicalBits(b)
    ensures CanonicalBits(a) < TWO64
  {
  }

  predicate Scalar(ty: Type) { !ty.TArray? && !ty.TStruct? && !ty.TMap? }

  lemma Int64Determines(x: int, y: int, s: Bytes, t: Bytes)
    requires Int64(x) && Int64(y) && BigEndian(x % TWO64, 8) + s == BigEndian(y % TWO64, 8) + t
    ensures x == y && s == t
  {
    var u, w := x % TWO64, y % TWO64;
    assert u == w && s == t by {
      Widths();
      BigEndianInjective(u, w, 8, s, t);
    }
    Wrapped(x, TWO63, TWO64);
    Wrapped(y, TWO63, TWO64);
  }

  lemma Wrapped(x: int, half: int, m: nat)
    requires 0 < half && -half <= x < half && m == 2 * half
    ensures x % m == if x < 0 then x + m else x
  {
    var q := x / m;
    assert x == m * q + x % m;
    assert q >= 1 ==> m * q >= m;
    assert q <= -2 ==> m * q <= -2 * m;
  }

  lemma DateDetermines(x: int, y: int, s: Bytes, t: Bytes)
    requires -TWO31 <= x < TWO31 && -TWO31 <= y < TWO31
    requires BigEndian(x % TWO32, 4) + s == BigEndian(y % TWO32, 4) + t
    ensures x == y && s == t
  {
    var u, w := x % TWO32, y % TWO32;
    assert u == w && s == t by {
      Widths();
      BigEndianInjective(u, w, 4, s, t);
    }
    Wrapped(x, TWO31, TWO32);
    Wrapped(y, TWO31, TWO32);
  }

  lemma FloatDetermines(x: nat, y: nat, s: Bytes, t: Bytes)
    requires x < TWO64 && y < TWO64
    requires BigEndian(CanonicalBits(x), 8) + s == BigEndian(CanonicalBits(y), 8) + t
    ensures CompareFloat(x, y) == 0 && s == t
  {
    Widths();
    SameFloat(x, y);
    SameFloat(y, x);
    BigEndianInjective(CanonicalBits(x), CanonicalBits(y), 8, s, t);
  }

  lemma ByteDetermines(x: byte, y: byte, s: Bytes, t: Bytes)
    requires [x] + s == [y] + t
    ensures x == y && s == t
  {
    assert s == ([x] + s)[1..] && t == ([y] + t)[1..] && x == ([x] + s)[0];
  }

  lemma ScalarDetermines(a: Value, b: Value, ty: Type, s: Bytes, t: Bytes)
    requires HasType(a, ty) && HasType(b, ty) && !a.Null? && !b.Null? && Scalar(ty)
    requires Body(a) + s == Body(b) + t
    ensures CompareValues(a, b) == 0 && s == t
  {
    match ty
    case TBool => ByteDetermines(if a.b then 1 else 0, if b.b then 1 else 0, s, t);
    case TInt => Int64Determines(a.i, b.i, s, t);
    case TFloat => FloatDetermines(a.bits, b.bits, s, t);
    case TTs => Int64Determines(a.us, b.us, s, t);
    case TDate => DateDetermines(a.days, b.days, s, t);
    case TStr => LengthPrefixed(a.s, b.s, s, t);
    case TBytes => LengthPrefixed(a.s, b.s, s, t);
  }

  /** Key bytes are self-delimiting and identify a value up to the comparison: whatever follows two
      keys, equal bytes mean values that compare equal, and equal rests. */
  lemma {:induction false} KeyDetermines(a: Value, b: Value, ty: Type, s: Bytes, t: Bytes)
    requires HasType(a, ty) && HasType(b, ty) && Key(a) + s == Key(b) + t
    ensures CompareValues(a, b) == 0 && s == t
    decreases a, 1
  {
    Associative([Tag(a)], Body(a), s);
    Associative([Tag(b)], Body(b), t);
    ByteDetermines(Tag(a), Tag(b), Body(a) + s, Body(b) + t);
    if a.Null? {
      assert Body(a) + s == s && Body(b) + t == t;
    } else {
      BodyDetermines(a, b, ty, s, t);
    }
  }

  lemma {:induction false} BodyDetermines(a: Value, b: Value, ty: Type, s: Bytes, t: Bytes)
    requires HasType(a, ty) && HasType(b, ty) && !a.Null? && !b.Null? && Body(a) + s == Body(b) + t
    ensures CompareValues(a, b) == 0 && s == t
    decreases a, 0
  {
    match ty
    case TArray(_) => ContainerDetermines(|a.elems|, |b.elems|, a.elems, b.elems, ty, s, t);
    case TStruct(_) => ContainerDetermines(|a.elems|, |b.elems|, a.elems, b.elems, ty, s, t);
    case TMap(_, _) => ContainerDetermines(|a.elems| / 2, |b.elems| / 2, a.elems, b.elems, ty, s, t);
    case _ => ScalarDetermines(a, b, ty, s, t);
  }

  lemma {:induction false} ContainerDetermines(n: nat, m: nat, x: seq<Value>, y: seq<Value>, ty: Type, s: Bytes, t: Bytes)
    requires HaveTypes(x, ty, 0) && HaveTypes(y, ty, 0) && (n == m ==> |x| == |y|)
    requires Uvarint.Encode(n) + Keys(x) + s == Uvarint.Encode(m) + Keys(y) + t
    ensures CompareSeqs(x, y) == 0 && s == t
    decreases x, 1
  {
    Associative(Uvarint.Encode(n), Keys(x), s);
    Associative(Uvarint.Encode(m), Keys(y), t);
    Uvarint.PrefixFree(n, m, Keys(x) + s, Keys(y) + t);
    KeysDetermine(x, y, ty, 0, s, t);
  }

  lemma {:induction false} KeysDetermine(x: seq<Value>, y: seq<Value>, ty: Type, o: nat, s: Bytes, t: Bytes)
    requires |x| == |y| && HaveTypes(x, ty, o) && HaveTypes(y, ty, o) && Keys(x) + s == Keys(y) + t
    ensures CompareSeqs(x, y) == 0 && s == t
    decreases x, 0
  {
    if x == [] {
      assert Keys(x) + s == s && Keys(y) + t == t;
    } else {
      Associative(Key(x[0]), Keys(x[1..]), s);
      Associative(Key(y[0]), Keys(y[1..]), t);
      KeyDetermines(x[0], y[0], ElemType(ty, o), Keys(x[1..]) + s, Keys(y[1..]) + t);
      KeysDetermine(x[1..], y[1..], ty, o + 1, s, t);
    }
  }

  /** Values that compare equal have the same key bytes. */
  lemma {:induction false} EqualValuesEqualKeys(a: Value, b: Value, ty: Type)
    requires HasType(a, ty) && HasType(b, ty) && CompareValues(a, b) == 0
    ensures Key(a) == Key(b)
    decreases a, 1
  {
    if !a.Null? && !b.Null? {
      match ty
      case TFloat => SameFloat(a.bits, b.bits);
      case TArray(_) => EqualSeqsEqualKeys(a.elems, b.elems, ty, 0);
      case TStruct(_) => EqualSeqsEqualKeys(a.elems, b.elems, ty, 0);
      case TMap(_, _) => EqualSeqsEqualKeys(a.elems, b.elems, ty, 0);
      case _ =>
    }
  }

  lemma {:induction false} EqualSeqsEqualKeys(x: seq<Value>, y: seq<Value>, ty: Type, o: nat)
    requires HaveTypes(x, ty, o) && HaveTypes(y, ty, o) && CompareSeqs(x, y) == 0
    ensures |x| == |y| && Keys(x) == Keys(y)
    decreases x, 0
  {
    if x != [] && y != [] {
      EqualValuesEqualKeys(x[0], y[0], ElemType(ty, o));
      EqualSeqsEqualKeys(x[1..], y[1..], ty, o + 1);
    }
  }

  // ---- rows of values, as GROUP BY and DISTINCT hash them ----

  predicate RowHasTypes(row: seq<Value>, tys: seq<Type>) { HasType(Struct(row), TStruct(tys)) }

  /** Two rows agree in every column. */
  predicate SameRow(a: seq<Value>, b: seq<Value>)
    requires |a| == |b|
  {
    forall i :: 0 <= i < |a| ==> CompareValues(a[i], b[i]) == 0
  }

  lemma {:induction false} SameRowIsCompare(a: seq<Value>, b: seq<Value>)
    requires |a| == |b|
    ensures SameRow(a, b) <==> CompareSeqs(a, b) == 0
  {
    if a != [] {
      SameRowIsCompare(a[1..], b[1..]);
      assert SameRow(a, b) <==> CompareValues(a[0], b[0]) == 0 && SameRow(a[1..], b[1..]);
    }
  }

  /** The concatenated keys of two rows are the same bytes exactly when the rows agree column by
      column: hashing neither splits a group nor merges two. */
  lemma HashedRowsAgree(a: seq<Value>, b: seq<Value>, tys: seq<Type>)
    requires RowHasTypes(a, tys) && RowHasTypes(b, tys)
    ensures Keys(a) == Keys(b) <==> SameRow(a, b)
  {
    SameRowIsCompare(a, b);
    if Keys(a) == Keys(b) { KeysDetermine(a, b, TStruct(tys), 0, [], []); }
    if CompareSeqs(a, b) == 0 { EqualSeqsEqualKeys(a, b, TStruct(tys), 0); }
  }

  /** Equal keys are exactly values that compare equal. */
  lemma KeyIffEqual(a: Value, b: Value, ty: Type)
    requires HasType(a, ty) && HasType(b, ty)
    ensures Key(a) == Key(b) <==> CompareValues(a, b) == 0
  {
    if Key(a) == Key(b) { KeyDetermines(a, b, ty, [], []); }
    if CompareValues(a, b) == 0 { EqualValuesEqualKeys(a, b, ty); }
  }
}
