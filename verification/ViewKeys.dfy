/** Row keys of materialized views: the bytes sort as the key columns do. */
module ViewKeys {
  import opened Lex
  import opened OrderedInt
  import OrderedCode
  import opened Values
  import opened KeyCodec

  /** Which output columns form the key, in key order, and which one is the timestamp, if any;
      `rawKey` when the only key column is the source's own key. */
  datatype MvPlan = MvPlan(keyIdx: seq<nat>, tsIdx: int, valueIdx: seq<nat>, rawKey: bool)

  predicate KeyType(t: Type) { t.TStr? || t.TBytes? || t.TInt? || t.TTs? }

  /** The field an automatic view key schema gives a column. */
  function KeyFieldOf(t: Type): FieldType
    requires KeyType(t)
  {
    match t
    case TStr => StringField([])
    case TBytes => BytesField(false)
    case TInt => Int64Field(OrderedCodeBytes)
    case TTs => TimestampField(OrderedCodeBytes)
  }

  function KeyFields(tys: seq<Type>): (fs: seq<FieldType>)
    requires forall i :: 0 <= i < |tys| ==> KeyType(tys[i])
    ensures |fs| == |tys| && forall i :: 0 <= i < |fs| ==> fs[i] == KeyFieldOf(tys[i])
  {
    seq(|tys|, i requires 0 <= i < |tys| => KeyFieldOf(tys[i]))
  }

  /** A non-NULL key column value; strings are UTF-8 and timestamps in SQL's range. */
  predicate KeyValue(v: Value, t: Type) { KeyType(t) && !v.Null? && FieldValue(KeyFieldOf(t), v) }

  predicate KeyTuple(vs: seq<Value>, tys: seq<Type>) {
    |vs| == |tys| && forall i :: 0 <= i < |vs| ==> KeyValue(vs[i], tys[i])
  }

  lemma FieldKeyOrder(x: Value, y: Value, t: Type)
    requires KeyValue(x, t) && KeyValue(y, t)
    ensures EncodeField(KeyFieldOf(t), x).Ok?
    ensures EncodeField(KeyFieldOf(t), y).Ok?
    ensures Compare(EncodeField(KeyFieldOf(t), x).value, EncodeField(KeyFieldOf(t), y).value) == CompareValues(x, y)
  {
    if t.TInt? { IntKeyOrder(x.i, y.i); }
    if t.TTs? { IntKeyOrder(x.us, y.us); }
  }

  lemma IntKeyOrder(v: int, w: int)
    requires Int64(v) && Int64(w)
    ensures Compare(Encode(v), Encode(w)) == CompareInt(v, w)
  {
    CompareAntisymmetric(Encode(v), Encode(w));
    LessIsBelowOrPrefix(Encode(v), Encode(w));
    LessIsBelowOrPrefix(Encode(w), Encode(v));
    if v < w { EncodeOrder(v, w); }
    if w < v { EncodeOrder(w, v); }
  }

  lemma {:induction false} FieldsKeyOrder(a: seq<Value>, b: seq<Value>, tys: seq<Type>)
    requires KeyTuple(a, tys) && KeyTuple(b, tys)
    ensures EncodeFields(KeyFields(tys), a).Ok? && EncodeFields(KeyFields(tys), b).Ok?
    ensures OrderedCode.CompareFields(EncodeFields(KeyFields(tys), a).value, EncodeFields(KeyFields(tys), b).value)
         == CompareSeqs(a, b)
  {
    if tys != [] {
      FieldKeyOrder(a[0], b[0], tys[0]);
      FieldsKeyOrder(a[1..], b[1..], tys[1..]);
      assert KeyFields(tys)[1..] == KeyFields(tys[1..]);
      var x, y := EncodeFields(KeyFields(tys), a).value, EncodeFields(KeyFields(tys), b).value;
      assert x[1..] == EncodeFields(KeyFields(tys[1..]), a[1..]).value;
      assert y[1..] == EncodeFields(KeyFields(tys[1..]), b[1..]).value;
    }
  }

  // ---- view rows ----

  function Pick(vals: seq<Value>, idx: seq<nat>): (r: seq<Value>)
    requires forall i :: 0 <= i < |idx| ==> idx[i] < |vals|
    ensures |r| == |idx|
  {
    seq(|idx|, i requires 0 <= i < |idx| => vals[idx[i]])
  }

  predicate Wide(m: MvPlan, vals: seq<Value>) {
    && (forall i :: 0 <= i < |m.keyIdx| ==> m.keyIdx[i] < |vals|)
    && (forall i :: 0 <= i < |m.valueIdx| ==> m.valueIdx[i] < |vals|)
    && m.tsIdx < |vals|
  }

  /** Rows a view keeps: no NULL key, a non-negative whole-millisecond timestamp, some value. */
  predicate Accept(m: MvPlan, vals: seq<Value>)
    requires Wide(m, vals)
  {
    && (forall i :: 0 <= i < |m.keyIdx| ==> !vals[m.keyIdx[i]].Null?)
    && (m.tsIdx >= 0 ==> vals[m.tsIdx].Ts? && vals[m.tsIdx].us >= 0 && vals[m.tsIdx].us % 1000 == 0)
    && (m.valueIdx != [] ==> exists i :: 0 <= i < |m.valueIdx| && !vals[m.valueIdx[i]].Null?)
  }

  /** The sort the view's rows go through: key columns in order, then the newest timestamp. */
  function LessFrom(m: MvPlan, a: seq<Value>, b: seq<Value>, i: nat): bool
    requires Wide(m, a) && Wide(m, b) && i <= |m.keyIdx|
    decreases |m.keyIdx| - i
  {
    if i < |m.keyIdx| then
      var k := m.keyIdx[i];
      if CompareValues(a[k], b[k]) != 0 then CompareValues(a[k], b[k]) < 0 else LessFrom(m, a, b, i + 1)
    else m.tsIdx >= 0 && CompareValues(a[m.tsIdx], b[m.tsIdx]) > 0
  }

  function ViewKey(m: MvPlan, tys: seq<Type>, vals: seq<Value>): (key: Bytes)
    requires Wide(m, vals) && KeyTuple(Pick(vals, m.keyIdx), tys)
    requires m.rawKey ==> tys == [TBytes]
  {
    var key := Pick(vals, m.keyIdx);
    if m.rawKey then key[0].s
    else FieldsKeyOrder(key, key, tys); EncodeKey(KeyFields(tys), OrderedCodeStruct, key).value
  }

  lemma {:induction false} LessIsKeyThenTime(m: MvPlan, a: seq<Value>, b: seq<Value>, i: nat)
    requires Wide(m, a) && Wide(m, b) && i <= |m.keyIdx|
    ensures var c := CompareSeqs(Pick(a, m.keyIdx)[i..], Pick(b, m.keyIdx)[i..]);
            LessFrom(m, a, b, i) <==>
            c < 0 || (c == 0 && m.tsIdx >= 0 && CompareValues(a[m.tsIdx], b[m.tsIdx]) > 0)
    decreases |m.keyIdx| - i
  {
    var x, y := Pick(a, m.keyIdx), Pick(b, m.keyIdx);
    if i < |m.keyIdx| {
      LessIsKeyThenTime(m, a, b, i + 1);
      assert x[i..][1..] == x[i + 1..] && y[i..][1..] == y[i + 1..];
    }
  }

  /** Key bytes order rows exactly as their key columns do, and are equal exactly when those are. */
  lemma ViewKeyOrder(m: MvPlan, tys: seq<Type>, a: seq<Value>, b: seq<Value>)
    requires Wide(m, a) && Wide(m, b) && (m.rawKey ==> tys == [TBytes])
    requires KeyTuple(Pick(a, m.keyIdx), tys) && KeyTuple(Pick(b, m.keyIdx), tys)
    ensures Compare(ViewKey(m, tys, a), ViewKey(m, tys, b)) == CompareSeqs(Pick(a, m.keyIdx), Pick(b, m.keyIdx))
  {
    var x, y := Pick(a, m.keyIdx), Pick(b, m.keyIdx);
    FieldsKeyOrder(x, y, tys);
    if m.rawKey {
      assert x[1..] == [] && y[1..] == [];
    } else {
      OrderedCode.JoinOrder(EncodeFields(KeyFields(tys), x).value, EncodeFields(KeyFields(tys), y).value);
    }
  }

  /** Sorting view rows is sorting them by key bytes, newest first among rows of one key. */
  lemma ViewOrderIsByteOrder(m: MvPlan, tys: seq<Type>, a: seq<Value>, b: seq<Value>)
    requires Wide(m, a) && Wide(m, b) && Accept(m, a) && Accept(m, b) && (m.rawKey ==> tys == [TBytes])
    requires KeyTuple(Pick(a, m.keyIdx), tys) && KeyTuple(Pick(b, m.keyIdx), tys)
    ensures var ka, kb := ViewKey(m, tys, a), ViewKey(m, tys, b);
            LessFrom(m, a, b, 0) <==> Less(ka, kb) || (ka == kb && m.tsIdx >= 0 && a[m.tsIdx].us > b[m.tsIdx].us)
  {
    ViewKeyOrder(m, tys, a, b);
    LessIsKeyThenTime(m, a, b, 0);
    assert Pick(a, m.keyIdx)[0..] == Pick(a, m.keyIdx) && Pick(b, m.keyIdx)[0..] == Pick(b, m.keyIdx);
  }

  /** Different key tuples never share a view row. */
  lemma DistinctTuplesDistinctKeys(m: MvPlan, tys: seq<Type>, a: seq<Value>, b: seq<Value>)
    requires Wide(m, a) && Wide(m, b) && (m.rawKey ==> tys == [TBytes])
    requires KeyTuple(Pick(a, m.keyIdx), tys) && KeyTuple(Pick(b, m.keyIdx), tys)
    ensures ViewKey(m, tys, a) == ViewKey(m, tys, b) <==> Pick(a, m.keyIdx) == Pick(b, m.keyIdx)
  {
    ViewKeyOrder(m, tys, a, b);
    EqualKeyTuples(Pick(a, m.keyIdx), Pick(b, m.keyIdx), tys);
  }

  lemma {:induction false} EqualKeyTuples(x: seq<Value>, y: seq<Value>, tys: seq<Type>)
    requires KeyTuple(x, tys) && KeyTuple(y, tys)
    ensures CompareSeqs(x, y) == 0 <==> x == y
  {
    if x != [] {
      EqualKeyTuples(x[1..], y[1..], tys[1..]);
      assert x == [x[0]] + x[1..] && y == [y[0]] + y[1..];
    }
  }
}
