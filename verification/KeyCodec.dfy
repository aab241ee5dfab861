/** Row keys: one value per schema field, encoded as a singleton, delimited or OrderedCode struct. */
module KeyCodec {
  import opened Basics
  import opened Lex
  import opened Bits
  import opened BitStrings
  import opened OrderedInt
  import OrderedCode
  import opened Values

  datatype IntEncoding = BigEndianBytes | OrderedCodeBytes

  /** `esc` is the null escape in UTF-8, one character or more, empty when none is set. */
  datatype FieldType =
    | BytesField(escapeNulls: bool)
    | StringField(esc: Bytes)
    | Int64Field(ints: IntEncoding)
    | TimestampField(ints: IntEncoding)

  datatype Struct = Singleton | Delimited(d: Bytes) | OrderedCodeStruct

  const MIN_TIMESTAMP: int := -62135596800000000
  const MAX_TIMESTAMP: int := 253402300799999999

  // ---- UTF-8 ----

  predicate Continuation(c: byte) { 0x80 <= c <= 0xBF }

  /** The width of the UTF-8 character at the front of `b`, 0 when there is none. */
  function RuneWidth(b: Bytes): (n: nat)
    ensures n <= |b| && n <= 4
  {
    if b == [] then 0
    else if b[0] < 0x80 then 1
    else if 0xC2 <= b[0] <= 0xDF then (if |b| >= 2 && Continuation(b[1]) then 2 else 0)
    else if 0xE0 <= b[0] <= 0xEF then
      (if |b| >= 3 && Continuation(b[1]) && Continuation(b[2])
          && (b[0] == 0xE0 ==> b[1] >= 0xA0) && (b[0] == 0xED ==> b[1] <= 0x9F) then 3 else 0)
    else if 0xF0 <= b[0] <= 0xF4 then
      (if |b| >= 4 && Continuation(b[1]) && Continuation(b[2]) && Continuation(b[3])
          && (b[0] == 0xF0 ==> b[1] >= 0x90) && (b[0] == 0xF4 ==> b[1] <= 0x8F) then 4 else 0)
    else 0
  }

  predicate ValidUtf8(b: Bytes) {
    b == [] || (RuneWidth(b) > 0 && ValidUtf8(b[RuneWidth(b)..]))
  }

  lemma RuneWidthExtends(a: Bytes, b: Bytes)
    requires RuneWidth(a) > 0
    ensures RuneWidth(a + b) == RuneWidth(a)
  {
    var c := a + b;
    assert c[0] == a[0] && (|a| > 1 ==> c[1] == a[1]) && (|a| > 2 ==> c[2] == a[2]) && (|a| > 3 ==> c[3] == a[3]);
  }

  lemma {:induction false} ValidConcat(a: Bytes, b: Bytes)
    requires ValidUtf8(a) && ValidUtf8(b)
    ensures ValidUtf8(a + b)
  {
    if a == [] {
      assert a + b == b;
    } else {
      var n := RuneWidth(a);
      ValidConcat(a[n..], b);
      RuneWidthExtends(a, b);
      DropFront(a, b, n);
      ValidFront(a + b, n);
    }
  }

  lemma DropFront(a: Bytes, b: Bytes, n: nat)
    requires n <= |a|
    ensures (a + b)[n..] == a[n..] + b
  {
  }

  lemma ValidFront(b: Bytes, n: nat)
    requires n == RuneWidth(b) && n > 0 && ValidUtf8(b[n..])
    ensures ValidUtf8(b)
  {
  }

  // ---- fields ----

  /** The characters of a UTF-8 string. */
  function Runes(s: Bytes): set<Bytes> {
    var n := RuneWidth(s);
    if n == 0 then {} else {s[..n]} + Runes(s[n..])
  }

  /** `strings.Trim(s, esc) == ""`: trimming takes `esc` as a set of characters. */
  predicate OnlyOf(s: Bytes, esc: Bytes) { Runes(s) <= Runes(esc) }

  lemma {:induction false} RunesConcat(a: Bytes, b: Bytes)
    requires ValidUtf8(a)
    ensures Runes(a + b) == Runes(a) + Runes(b)
  {
    if a == [] {
      assert a + b == b;
    } else {
      var n := RuneWidth(a);
      RuneWidthExtends(a, b);
      DropFront(a, b, n);
      RunesConcat(a[n..], b);
      assert (a + b)[..n] == a[..n];
    }
  }

  predicate AllZero(b: Bytes) { forall i :: 0 <= i < |b| ==> b[i] == 0 }

  function EncodeInt(enc: IntEncoding, v: int): Bytes
    requires Int64(v)
  {
    match enc
    case BigEndianBytes => BigEndian(v % TWO64, 8)
    case OrderedCodeBytes => Encode(v)
  }

  ghost function DecodeInt(enc: IntEncoding, b: Bytes): Result<int> {
    match enc
    case BigEndianBytes =>
      if |b| != 8 then Err else Ok(if BytesValue(b) < TWO63 then BytesValue(b) else BytesValue(b) - TWO64)
    case OrderedCodeBytes =>
      match Read(b)
      case Err => Err
      case Ok((v, n)) => if n != |b| then Err else Ok(v)
  }

  /** A value the field can hold: NULL, or one of its SQL type. */
  predicate FieldValue(f: FieldType, v: Value) {
    match f
    case BytesField(_) => v.Null? || v.Byt?
    case StringField(esc) => v.Null? || (v.Str? && ValidUtf8(v.s) && ValidUtf8(esc))
    case Int64Field(_) => v.Null? || (v.Int? && Int64(v.i))
    case TimestampField(_) => v.Null? || (v.Ts? && MIN_TIMESTAMP <= v.us <= MAX_TIMESTAMP)
  }

  /** NULL is an error unless the field escapes it as the empty string; values the escape could be
      mistaken for get one more escape. */
  function EncodeField(f: FieldType, v: Value): (r: Result<Bytes>)
    requires FieldValue(f, v)
  {
    match f
    case BytesField(escape) =>
      if v.Null? then (if escape then Ok([]) else Err)
      else Ok(if escape && AllZero(v.s) then v.s + [0] else v.s)
    case StringField(esc) =>
      if v.Null? then (if esc != [] then Ok([]) else Err)
      else Ok(if esc != [] && OnlyOf(v.s, esc) then v.s + esc else v.s)
    case Int64Field(enc) => if v.Null? then Err else Ok(EncodeInt(enc, v.i))
    case TimestampField(enc) => if v.Null? then Err else Ok(EncodeInt(enc, v.us))
  }

  ghost function DecodeField(f: FieldType, b: Bytes): (r: Result<Value>) {
    match f
    case BytesField(escape) =>
      if escape && b == [] then Ok(Null)
      else if escape && AllZero(b) then Ok(Byt(b[..|b| - 1]))
      else Ok(Byt(b))
    case StringField(esc) =>
      if esc != [] && b == [] then Ok(Null)
      else if !ValidUtf8(b) then Err
      else if esc != [] && OnlyOf(b, esc) && |b| >= |esc| && b[|b| - |esc|..] == esc then Ok(Str(b[..|b| - |esc|]))
      else Ok(Str(b))
    case Int64Field(enc) =>
      (match DecodeInt(enc, b) case Err => Err case Ok(v) => Ok(Int(v)))
    case TimestampField(enc) =>
      match DecodeInt(enc, b)
      case Err => Err
      case Ok(v) => if MIN_TIMESTAMP <= v <= MAX_TIMESTAMP then Ok(Ts(v)) else Err
  }

  lemma IntRoundTrip(enc: IntEncoding, v: int)
    requires Int64(v)
    ensures DecodeInt(enc, EncodeInt(enc, v)) == Ok(v)
  {
    match enc
    case OrderedCodeBytes => ReadFinds(Encode(v), v);
    case BigEndianBytes =>
      var x := v % TWO64;
      assert BytesValue(BigEndian(x, 8)) == x by {
        Widths();
        BytesValueIsValue(BigEndian(x, 8));
        UnpackBigEndian(x, 8);
        ValueOfBin(x, 8 * 8);
      }
      Wrapped(v, TWO63, TWO64);
  }

  /** Decoding a field inverts encoding it, for every value the encoder accepts. */
  lemma FieldRoundTrip(f: FieldType, v: Value)
    requires FieldValue(f, v) && EncodeField(f, v).Ok?
    ensures DecodeField(f, EncodeField(f, v).value) == Ok(v)
  {
    var b := EncodeField(f, v).value;
    match f
    case BytesField(escape) =>
      if !v.Null? && escape && AllZero(v.s) { assert b[..|b| - 1] == v.s; }
    case StringField(esc) =>
      if !v.Null? && esc != [] && OnlyOf(v.s, esc) {
        RunesConcat(v.s, esc);
        ValidConcat(v.s, esc);
        assert b[..|b| - |esc|] == v.s && b[|b| - |esc|..] == esc;
      }
    case Int64Field(enc) => IntRoundTrip(enc, v.i);
    case TimestampField(enc) => IntRoundTrip(enc, v.us);
  }

  // ---- tuples of fields ----

  predicate FieldValues(fs: seq<FieldType>, vs: seq<Value>) {
    |fs| == |vs| && forall i :: 0 <= i < |fs| ==> FieldValue(fs[i], vs[i])
  }

  /** The encoded fields; the first field that cannot be encoded fails the key. */
  function EncodeFields(fs: seq<FieldType>, vs: seq<Value>): (r: Result<seq<Bytes>>)
    requires FieldValues(fs, vs)
    ensures r.Ok? ==> |r.value| == |fs|
  {
    if fs == [] then Ok([])
    else match EncodeField(fs[0], vs[0])
      case Err => Err
      case Ok(b) => match EncodeFields(fs[1..], vs[1..]) case Err => Err case Ok(bs) => Ok([b] + bs)
  }

  /** Each field decoded from its own bytes. */
  ghost function DecodeFields(fs: seq<FieldType>, bs: seq<Bytes>): (r: Result<seq<Value>>)
    requires |fs| == |bs|
  {
    if fs == [] then Ok([])
    else match DecodeField(fs[0], bs[0])
      case Err => Err
      case Ok(v) => match DecodeFields(fs[1..], bs[1..]) case Err => Err case Ok(vs) => Ok([v] + vs)
  }

  lemma DecodeFirst(fs: seq<FieldType>, b: Bytes, bs: seq<Bytes>, v: Value, vs: seq<Value>)
    requires fs != [] && |fs[1..]| == |bs| && DecodeField(fs[0], b) == Ok(v) && DecodeFields(fs[1..], bs) == Ok(vs)
    ensures DecodeFields(fs, [b] + bs) == Ok([v] + vs)
  {
    assert ([b] + bs)[1..] == bs;
  }

  lemma {:induction false} FieldsRoundTrip(fs: seq<FieldType>, vs: seq<Value>)
    requires FieldValues(fs, vs) && EncodeFields(fs, vs).Ok?
    ensures DecodeFields(fs, EncodeFields(fs, vs).value) == Ok(vs)
  {
    if fs != [] {
      var b, bs := EncodeField(fs[0], vs[0]).value, EncodeFields(fs[1..], vs[1..]).value;
      FieldRoundTrip(fs[0], vs[0]);
      FieldsRoundTrip(fs[1..], vs[1..]);
      DecodeFirst(fs, b, bs, vs[0], vs[1..]);
      assert vs == [vs[0]] + vs[1..];
    }
  }

  // ---- delimited keys ----

  /** `bytes.Index`: the first position where `d` occurs, -1 when it does not. */
  function IndexOf(s: Bytes, d: Bytes): (i: int)
    ensures -1 <= i <= |s|
  {
    if d <= s then 0
    else if s == [] then -1
    else if IndexOf(s[1..], d) < 0 then -1 else 1 + IndexOf(s[1..], d)
  }

  predicate Contains(s: Bytes, d: Bytes) { IndexOf(s, d) >= 0 }

  datatype Width = Fixed | SelfDelimiting | Variable

  function KeyWidth(f: FieldType): Width {
    match f
    case Int64Field(enc) => if enc.OrderedCodeBytes? then SelfDelimiting else Fixed
    case TimestampField(enc) => if enc.OrderedCodeBytes? then SelfDelimiting else Fixed
    case _ => Variable
  }

  function JoinWith(bs: seq<Bytes>, d: Bytes): Bytes {
    if bs == [] then [] else if |bs| == 1 then bs[0] else bs[0] + (d + JoinWith(bs[1..], d))
  }

  /** Variable-length fields must not contain the delimiter. */
  predicate Separable(fs: seq<FieldType>, bs: seq<Bytes>, d: Bytes)
    requires |fs| == |bs|
  {
    forall i :: 0 <= i < |fs| && KeyWidth(fs[i]).Variable? ==> !Contains(bs[i], d)
  }

  /** How many bytes of `rest` belong to the next field. */
  ghost function FieldExtent(f: FieldType, rest: Bytes, d: Bytes, last: bool): (r: Result<nat>)
    ensures r.Ok? ==> r.value <= |rest|
  {
    match KeyWidth(f)
    case Fixed => if |rest| < 8 then Err else Ok(8)
    case SelfDelimiting => (match Read(rest) case Err => Err case Ok((_, n)) => if n <= |rest| then Ok(n) else Err)
    case Variable =>
      if last then (if Contains(rest, d) then Err else Ok(|rest|))
      else if !Contains(rest, d) then Err else Ok(IndexOf(rest, d))
  }

  /** The next field and what is left; every field but the first stands behind a delimiter. */
  ghost function TakeField(f: FieldType, rest: Bytes, d: Bytes, first: bool, last: bool): (r: Result<(Value, Bytes)>) {
    if !first && !(d <= rest) then Err
    else
      var body := if first then rest else rest[|d|..];
      match FieldExtent(f, body, d, last)
      case Err => Err
      case Ok(n) =>
        match DecodeField(f, body[..n])
        case Err => Err
        case Ok(v) => Ok((v, body[n..]))
  }

  ghost function DecodeDelimited(fs: seq<FieldType>, rest: Bytes, d: Bytes, first: bool): (r: Result<seq<Value>>) {
    if fs == [] then (if rest == [] then Ok([]) else Err)
    else match TakeField(fs[0], rest, d, first, |fs| == 1)
      case Err => Err
      case Ok((v, left)) => PrependValues([v], DecodeDelimited(fs[1..], left, d, false))
  }

  function PrependValues(out: seq<Value>, r: Result<seq<Value>>): Result<seq<Value>> {
    match r case Err => Err case Ok(vs) => Ok(out + vs)
  }

  /** `d` does not overlap itself: no proper suffix is also a prefix. */
  predicate Unbordered(d: Bytes) {
    forall k :: 0 < k < |d| ==> d[k..] != d[..|d| - k]
  }

  /** Behind a field without the delimiter, an unbordered delimiter is found where it was put. */
  lemma {:induction false} IndexFindsDelimiter(e: Bytes, d: Bytes, rest: Bytes)
    requires d != [] && Unbordered(d) && !Contains(e, d)
    ensures IndexOf(e + (d + rest), d) == |e|
  {
    var s := e + (d + rest);
    if e == [] {
      assert s == d + rest;
    } else {
      if d <= s { EarlyOccurrence(e, d, rest); }
      assert s[1..] == e[1..] + (d + rest);
      IndexFindsDelimiter(e[1..], d, rest);
    }
  }

  /** An occurrence at the front lies in the field, or the delimiter overlaps itself. */
  lemma EarlyOccurrence(e: Bytes, d: Bytes, rest: Bytes)
    requires d <= e + (d + rest)
    ensures d <= e || (|e| < |d| && d[|e|..] == d[..|d| - |e|])
  {
    var s, k := e + (d + rest), |e|;
    assert d == s[..|d|];
    if k < |d| {
      assert s[k..|d|] == (d + rest)[..|d| - k] == d[..|d| - k];
    } else {
      assert d == e[..|d|];
    }
  }

  /** The extent found for the field in front of its successors is the field's own length. */
  lemma ExtentIsField(f: FieldType, v: Value, tail: Bytes, d: Bytes, last: bool)
    requires d != [] && Unbordered(d) && FieldValue(f, v) && EncodeField(f, v).Ok?
    requires KeyWidth(f).Variable? ==> !Contains(EncodeField(f, v).value, d)
    requires if last then tail == [] else d <= tail
    ensures FieldExtent(f, EncodeField(f, v).value + tail, d, last) == Ok(|EncodeField(f, v).value|)
  {
    var b := EncodeField(f, v).value;
    match KeyWidth(f)
    case Fixed =>
    case SelfDelimiting => ReadFinds(b + tail, if f.Int64Field? then v.i else v.us);
    case Variable =>
      if last {
        assert b + tail == b;
      } else {
        IndexFindsDelimiter(b, d, tail[|d|..]);
        assert tail == d + tail[|d|..];
      }
  }

  lemma {:induction false} DelimitedRoundTrip(fs: seq<FieldType>, vs: seq<Value>, d: Bytes, first: bool)
    requires fs != [] && d != [] && Unbordered(d) && FieldValues(fs, vs) && EncodeFields(fs, vs).Ok?
    requires Separable(fs, EncodeFields(fs, vs).value, d)
    ensures var key := JoinWith(EncodeFields(fs, vs).value, d);
            DecodeDelimited(fs, if first then key else d + key, d, first) == Ok(vs)
  {
    var bs := EncodeFields(fs, vs).value;
    var b, tail := bs[0], if |fs| == 1 then [] else d + JoinWith(bs[1..], d);
    var key := JoinWith(bs, d);
    assert key == b + tail;
    DropFront(d, key, |d|);
    assert d[|d|..] + key == key;
    ExtentIsField(fs[0], vs[0], tail, d, |fs| == 1);
    FieldRoundTrip(fs[0], vs[0]);
    assert key[..|b|] == b && key[|b|..] == tail;
    assert bs[1..] == EncodeFields(fs[1..], vs[1..]).value;
    if |fs| > 1 {
      DelimitedRoundTrip(fs[1..], vs[1..], d, false);
    }
    assert vs == [vs[0]] + vs[1..];
  }

  // ---- whole keys ----

  /** What schema validation admits: one field for a singleton, 1 to 50 delimiter bytes. */
  predicate ValidSchema(fs: seq<FieldType>, st: Struct) {
    match st
    case Singleton => |fs| == 1
    case Delimited(d) => 1 <= |d| <= 50
    case OrderedCodeStruct => true
  }

  function EncodeKey(fs: seq<FieldType>, st: Struct, vs: seq<Value>): (r: Result<Bytes>)
    requires ValidSchema(fs, st) && FieldValues(fs, vs)
  {
    match EncodeFields(fs, vs)
    case Err => Err
    case Ok(bs) =>
      match st
      case Singleton => Ok(bs[0])
      case Delimited(d) => if bs == [] then Ok(d) else if !Separable(fs, bs, d) then Err else Ok(JoinWith(bs, d))
      case OrderedCodeStruct => Ok(OrderedCode.Join(bs))
  }

  ghost function DecodeKey(fs: seq<FieldType>, st: Struct, key: Bytes): (r: Result<seq<Value>>)
    requires ValidSchema(fs, st)
  {
    match st
    case Singleton => DecodeFields(fs, [key])
    case Delimited(d) => DecodeDelimited(fs, key, d, true)
    case OrderedCodeStruct =>
      match OrderedCode.Split(key, |fs|)
      case Err => Err
      case Ok(bs) => OrderedCode.SplitLength(key, |fs|); DecodeFields(fs, bs)
  }

  /** Decoding inverts encoding for every schema with at least one field whose delimiter, if it has
      one, does not overlap itself. */
  lemma KeyRoundTrip(fs: seq<FieldType>, st: Struct, vs: seq<Value>)
    requires ValidSchema(fs, st) && FieldValues(fs, vs) && EncodeKey(fs, st, vs).Ok?
    requires fs != [] && (st.Delimited? ==> Unbordered(st.d))
    ensures DecodeKey(fs, st, EncodeKey(fs, st, vs).value) == Ok(vs)
  {
    var bs := EncodeFields(fs, vs).value;
    FieldsRoundTrip(fs, vs);
    match st
    case Singleton => assert [bs[0]] == bs;
    case Delimited(d) => DelimitedRoundTrip(fs, vs, d, true);
    case OrderedCodeStruct => OrderedCode.SplitInvertsJoin(bs);
  }

  /** The key of a schema without fields never reads back. */
  lemma NoFieldsNoRoundTrip(st: Struct)
    requires ValidSchema([], st)
    ensures EncodeKey([], st, []).Ok? && DecodeKey([], st, EncodeKey([], st, []).value).Err?
  {
    OrderedCode.NoFieldsNoRoundTrip();
  }

  ghost predicate RoundTrips(fs: seq<FieldType>, st: Struct, vs: seq<Value>)
    requires ValidSchema(fs, st) && FieldValues(fs, vs)
  {
    EncodeKey(fs, st, vs).Ok? ==> DecodeKey(fs, st, EncodeKey(fs, st, vs).value) == Ok(vs)
  }

  /** A delimiter that overlaps itself by all but `k` bytes confuses two BYTES fields. */
  lemma OverlapBreaksRoundTrip(d: Bytes, k: nat)
    requires 1 <= |d| <= 50 && 0 < k < |d| && d[k..] == d[..|d| - k]
    ensures var fs, vs := [BytesField(false), BytesField(false)], [Byt(d[..k]), Byt([])];
            FieldValues(fs, vs) && !RoundTrips(fs, Delimited(d), vs)
  {
    var fs, vs := [BytesField(false), BytesField(false)], [Byt(d[..k]), Byt([])];
    var e, key := d[..k], d[..k] + (d + []);
    ShortHasNoDelimiter(e, d);
    ShortHasNoDelimiter([], d);
    EncodeTwoBytes(e, []);
    assert JoinWith([e, []], d) == key by {
      assert [e, []][1..] == [[]] && JoinWith([[]], d) == [];
    }
    assert d <= key by {
      assert key[..k] == d[..k] && key[k..|d|] == d[..|d| - k] == d[k..];
      assert key[..|d|] == key[..k] + key[k..|d|] && d == d[..k] + d[k..];
    }
    assert FieldExtent(fs[0], key, d, false) == Ok(0);
    var r := DecodeDelimited(fs, key, d, true);
    assert DecodeField(fs[0], key[..0]) == Ok(Byt([]));
    assert r.Ok? ==> r.value[0] == Byt([]);
    assert vs[0] != Byt([]);
  }

  lemma EncodeTwoBytes(a: Bytes, b: Bytes)
    ensures EncodeFields([BytesField(false), BytesField(false)], [Byt(a), Byt(b)]) == Ok([a, b])
  {
    var fs, vs := [BytesField(false), BytesField(false)], [Byt(a), Byt(b)];
    assert fs[1..] == [BytesField(false)] && vs[1..] == [Byt(b)];
    assert EncodeFields(fs[1..][1..], vs[1..][1..]) == Ok([]);
    assert EncodeFields(fs[1..], vs[1..]) == Ok([b] + []) && [b] + [] == [b];
    assert [a] + [b] == [a, b];
  }

  lemma {:induction false} ShortHasNoDelimiter(e: Bytes, d: Bytes)
    requires |e| < |d|
    ensures !Contains(e, d)
  {
    if e != [] { ShortHasNoDelimiter(e[1..], d); }
  }

  /** Every accepted tuple of every schema survives a delimiter exactly when it is unbordered. */
  lemma DelimiterIsSafeIffUnbordered(d: Bytes)
    requires 1 <= |d| <= 50
    ensures Unbordered(d) <==>
            forall fs, vs :: fs != [] && FieldValues(fs, vs) ==> RoundTrips(fs, Delimited(d), vs)
  {
    if Unbordered(d) {
      forall fs, vs | fs != [] && FieldValues(fs, vs) ensures RoundTrips(fs, Delimited(d), vs) {
        if EncodeKey(fs, Delimited(d), vs).Ok? { KeyRoundTrip(fs, Delimited(d), vs); }
      }
    } else {
      var k :| 0 < k < |d| && d[k..] == d[..|d| - k];
      OverlapBreaksRoundTrip(d, k);
    }
  }

  // ---- the loops over fields ----

  method DecodeKeyField(f: FieldType, b: Bytes) returns (r: Result<Value>)
    ensures r == DecodeField(f, b)
  {
    match f
    case BytesField(escape) =>
      if escape && |b| == 0 { return Ok(Null); }
      return Ok(Byt(if escape && AllZero(b) then b[..|b| - 1] else b));
    case StringField(esc) =>
      if esc != [] && |b| == 0 { return Ok(Null); }
      if !ValidUtf8(b) { return Err; }
      var trim := esc != [] && OnlyOf(b, esc) && |b| >= |esc| && b[|b| - |esc|..] == esc;
      return Ok(Str(if trim then b[..|b| - |esc|] else b));
    case Int64Field(enc) =>
      var n := DecodeKeyInt(enc, b);
      return match n case Err => Err case Ok(v) => Ok(Int(v));
    case TimestampField(enc) =>
      var n := DecodeKeyInt(enc, b);
      if n.Err? || !(MIN_TIMESTAMP <= n.value <= MAX_TIMESTAMP) { return Err; }
      return Ok(Ts(n.value));
  }

  method DecodeKeyInt(enc: IntEncoding, b: Bytes) returns (r: Result<int>)
    ensures r == DecodeInt(enc, b)
  {
    if enc.OrderedCodeBytes? {
      var n := DecodeOrderedInt64(b);
      if n.Err? || n.value.1 != |b| { return Err; }
      return Ok(n.value.0);
    }
    if |b| != 8 { return Err; }
    var x := BytesValue(b);
    return Ok(if x < TWO63 then x else x - TWO64);
  }

  method NextExtent(f: FieldType, rest: Bytes, d: Bytes, last: bool) returns (r: Result<nat>)
    ensures r == FieldExtent(f, rest, d, last)
  {
    match KeyWidth(f)
    case Fixed => return if |rest| < 8 then Err else Ok(8);
    case SelfDelimiting =>
      var n := DecodeOrderedInt64(rest);
      if n.Err? || n.value.1 > |rest| { return Err; }
      return Ok(n.value.1);
    case Variable =>
      if last { return if Contains(rest, d) then Err else Ok(|rest|); }
      return if !Contains(rest, d) then Err else Ok(IndexOf(rest, d));
  }

  lemma PrependOneMore(out: seq<Value>, v: Value, r: Result<seq<Value>>)
    ensures PrependValues(out, PrependValues([v], r)) == PrependValues(out + [v], r)
  {
    if r.Ok? { assert out + ([v] + r.value) == out + [v] + r.value; }
  }

  lemma DecodeNext(fs: seq<FieldType>, i: nat, rest: Bytes, d: Bytes, out: seq<Value>)
    requires i < |fs|
    ensures PrependValues(out, DecodeDelimited(fs[i..], rest, d, i == 0)) ==
            match TakeField(fs[i], rest, d, i == 0, i == |fs| - 1)
            case Err => Err
            case Ok((v, left)) => PrependValues(out + [v], DecodeDelimited(fs[i + 1..], left, d, false))
  {
    assert fs[i..][0] == fs[i] && fs[i..][1..] == fs[i + 1..];
    var taken := TakeField(fs[i], rest, d, i == 0, i == |fs| - 1);
    if taken.Ok? { PrependOneMore(out, taken.value.0, DecodeDelimited(fs[i + 1..], taken.value.1, d, false)); }
  }

  method DecodeDelimitedKey(fs: seq<FieldType>, key: Bytes, d: Bytes) returns (r: Result<seq<Value>>)
    ensures r == DecodeDelimited(fs, key, d, true)
  {
    var rest, out: seq<Value> := key, [];
    ghost var whole := DecodeDelimited(fs, key, d, true);
    assert fs[0..] == fs && (whole.Ok? ==> [] + whole.value == whole.value);
    for i := 0 to |fs|
      invariant whole == PrependValues(out, DecodeDelimited(fs[i..], rest, d, i == 0))
    {
      var taken := TakeKeyField(fs[i], rest, d, i == 0, i == |fs| - 1);
      DecodeNext(fs, i, rest, d, out);
      if taken.Err? { return Err; }
      out, rest := out + [taken.value.0], taken.value.1;
    }
    if |rest| != 0 { return Err; }
    assert out + [] == out;
    return Ok(out);
  }

  method TakeKeyField(f: FieldType, rest: Bytes, d: Bytes, first: bool, last: bool) returns (r: Result<(Value, Bytes)>)
    ensures r == TakeField(f, rest, d, first, last)
  {
    if !first && !(d <= rest) { return Err; }
    var body := if first then rest else rest[|d|..];
    var n := NextExtent(f, body, d, last);
    if n.Err? { return Err; }
    var v := DecodeKeyField(f, body[..n.value]);
    return match v case Err => Err case Ok(x) => Ok((x, body[n.value..]));
  }
}
