/** The OrderedCode struct encoding: fields joined by 00 01, zero bytes escaped as 00 FF, an empty
    field written 00 00, and empty fields at the end left out. */
module OrderedCode {
  import opened Basics
  import opened Lex
  import opened OrderedInt

  function Escape(e: Bytes): (b: Bytes) {
    if e == [] then [] else (if e[0] == 0 then [0, 255] else [e[0]]) + Escape(e[1..])
  }

  function Segment(e: Bytes): (b: Bytes) { if e == [] then [0, 0] else Escape(e) }

  predicate AllEmpty(encs: seq<Bytes>) { forall i :: 0 <= i < |encs| ==> encs[i] == [] }

  /** What can follow a field: the end, or a separator. */
  predicate Follows(r: Bytes) { r == [] || (|r| >= 2 && r[0] == 0 && r[1] == 1) }

  /** What follows the field before `encs`: nothing once only empty fields remain. */
  function Rest(encs: seq<Bytes>): (b: Bytes)
    ensures Follows(b)
  {
    if AllEmpty(encs) then [] else [0, 1] + (Segment(encs[0]) + Rest(encs[1..]))
  }

  function Join(encs: seq<Bytes>): (b: Bytes) {
    if encs == [] then [0, 0] else Segment(encs[0]) + Rest(encs[1..])
  }

  // ---- order ----

  /** Column by column, the first difference decides. */
  function CompareFields(a: seq<Bytes>, b: seq<Bytes>): (c: int)
    requires |a| == |b|
    ensures -1 <= c <= 1 && (c == 0 <==> a == b)
  {
    if a == [] then 0
    else if Compare(a[0], b[0]) != 0 then Compare(a[0], b[0])
    else
      assert a == [a[0]] + a[1..] && b == [b[0]] + b[1..];
      CompareFields(a[1..], b[1..])
  }

  lemma EndOrder(y: Bytes, r: Bytes, s: Bytes)
    requires y != [] && Follows(r)
    ensures Less(r, Escape(y) + s)
  {
    var b := Escape(y) + s;
    assert b[0] == y[0] && (y[0] == 0 ==> b[1] == 255);
    if r != [] && y[0] == 0 { Below2(r, b); }
  }

  lemma {:induction false} EscapeOrder(x: Bytes, y: Bytes, r: Bytes, s: Bytes)
    requires Less(x, y) && Follows(r) && Follows(s)
    ensures Less(Escape(x) + r, Escape(y) + s)
  {
    if x == [] {
      assert Escape(x) + r == r;
      EndOrder(y, r, s);
    } else if x[0] == y[0] {
      var h := if x[0] == 0 then [0, 255] else [x[0]];
      EscapeOrder(x[1..], y[1..], r, s);
      CommonPrefix(h, Escape(x[1..]) + r, Escape(y[1..]) + s);
      assert Escape(x) + r == h + (Escape(x[1..]) + r);
      assert Escape(y) + s == h + (Escape(y[1..]) + s);
    } else {
      assert (Escape(x) + r)[0] == x[0] && (Escape(y) + s)[0] == y[0];
    }
  }

  /** Two bytes settle a comparison. */
  lemma Below2(a: seq<nat>, b: seq<nat>)
    requires |a| >= 2 && |b| >= 2 && a[0] == b[0] && a[1] < b[1]
    ensures Less(a, b)
  {
  }

  lemma SegmentOrder(x: Bytes, y: Bytes, r: Bytes, s: Bytes)
    requires Less(x, y) && Follows(r) && Follows(s)
    ensures Less(Segment(x) + r, Segment(y) + s)
  {
    if x == [] {
      var a, b := Segment(x) + r, Segment(y) + s;
      assert b[0] == y[0];
      if y[0] == 0 {
        assert a[0] == 0 && a[1] == 0 && b[1] == 255;
        Below2(a, b);
      }
    } else {
      EscapeOrder(x, y, r, s);
    }
  }

  lemma FieldOrder(x: Bytes, y: Bytes, r: Bytes, s: Bytes)
    requires Follows(r) && Follows(s)
    ensures Compare(Segment(x) + r, Segment(y) + s) == if x == y then Compare(r, s) else Compare(x, y)
  {
    CompareAntisymmetric(x, y);
    CompareAntisymmetric(Segment(x) + r, Segment(y) + s);
    if x == y {
      CommonPrefix(Segment(x), r, s);
    } else if Less(x, y) {
      SegmentOrder(x, y, r, s);
    } else {
      SegmentOrder(y, x, s, r);
    }
  }

  lemma {:induction false} EmptyIsLeast(a: seq<Bytes>, b: seq<Bytes>)
    requires |a| == |b| && AllEmpty(a)
    ensures CompareFields(a, b) == if AllEmpty(b) then 0 else -1
  {
    if a != [] {
      EmptyIsLeast(a[1..], b[1..]);
      assert AllEmpty(b) <==> b[0] == [] && AllEmpty(b[1..]);
    }
  }

  lemma {:induction false} CompareFieldsAntisymmetric(a: seq<Bytes>, b: seq<Bytes>)
    requires |a| == |b|
    ensures CompareFields(a, b) == -CompareFields(b, a)
  {
    if a != [] {
      CompareAntisymmetric(a[0], b[0]);
      CompareFieldsAntisymmetric(a[1..], b[1..]);
    }
  }

  lemma {:induction false} RestOrder(a: seq<Bytes>, b: seq<Bytes>)
    requires |a| == |b|
    ensures Compare(Rest(a), Rest(b)) == CompareFields(a, b)
  {
    if AllEmpty(a) {
      EmptyIsLeast(a, b);
    } else if AllEmpty(b) {
      EmptyIsLeast(b, a);
      CompareFieldsAntisymmetric(a, b);
    } else {
      var r, s := Rest(a[1..]), Rest(b[1..]);
      RestOrder(a[1..], b[1..]);
      FieldOrder(a[0], b[0], r, s);
      CommonPrefix([0, 1], Segment(a[0]) + r, Segment(b[0]) + s);
    }
  }

  /** Keys are ordered by their bytes exactly as their fields are ordered column by column; in
      particular different fields give different keys, whatever zero bytes or empty fields occur. */
  lemma JoinOrder(a: seq<Bytes>, b: seq<Bytes>)
    requires |a| == |b|
    ensures Compare(Join(a), Join(b)) == CompareFields(a, b)
  {
    if a != [] {
      RestOrder(a[1..], b[1..]);
      FieldOrder(a[0], b[0], Rest(a[1..]), Rest(b[1..]));
    }
  }

  // ---- joining, as the loops do it ----

  /** The segments of `encs`, each behind a separator. */
  function Separated(encs: seq<Bytes>): (b: Bytes) {
    if encs == [] then [] else [0, 1] + (Segment(encs[0]) + Separated(encs[1..]))
  }

  /** Cutting after the last field with content writes the same key. */
  lemma {:induction false} RestIsSeparated(encs: seq<Bytes>, k: nat)
    requires k <= |encs| && (k > 0 ==> encs[k - 1] != [])
    requires forall i :: k <= i < |encs| ==> encs[i] == []
    ensures Rest(encs) == Separated(encs[..k])
  {
    if k > 0 {
      assert !AllEmpty(encs);
      RestIsSeparated(encs[1..], k - 1);
      assert encs[..k][1..] == encs[1..][..k - 1];
    }
  }

  method LastWithContent(encs: seq<Bytes>) returns (last: int)
    ensures -1 <= last < |encs| && (last >= 0 ==> encs[last] != [])
    ensures forall i :: last < i < |encs| ==> encs[i] == []
  {
    last := -1;
    for i := 0 to |encs|
      invariant -1 <= last < i && (last >= 0 ==> encs[last] != [])
      invariant forall j :: last < j < i ==> encs[j] == []
    {
      if |encs[i]| > 0 {
        last := i;
      }
    }
  }

  method OrderedCodeJoin(encs: seq<Bytes>) returns (out: Bytes)
    ensures out == Join(encs)
  {
    var last := LastWithContent(encs);
    if last < 0 { return [0, 0]; }
    RestIsSeparated(encs[1..], last);
    assert encs[1..][..last] == encs[1..last + 1];
    out := AppendSegment([], encs[0]);
    out := AppendSeparated(out, encs[1..last + 1]);
  }

  method AppendSeparated(dst: Bytes, encs: seq<Bytes>) returns (out: Bytes)
    ensures out == dst + Separated(encs)
  {
    out := dst;
    assert encs[0..] == encs;
    for i := 0 to |encs|
      invariant out + Separated(encs[i..]) == dst + Separated(encs)
    {
      assert encs[i..][1..] == encs[i + 1..];
      Regroup(out, Segment(encs[i]), Separated(encs[i + 1..]));
      out := AppendSegment(out + [0, 1], encs[i]);
    }
  }

  lemma Regroup(out: Bytes, seg: Bytes, tail: Bytes)
    ensures out + ([0, 1] + (seg + tail)) == out + [0, 1] + seg + tail
  {
  }

  method AppendSegment(dst: Bytes, e: Bytes) returns (out: Bytes)
    ensures out == dst + Segment(e)
  {
    if |e| == 0 { return dst + [0, 0]; }
    out := dst;
    for i := 0 to |e|
      invariant out + Escape(e[i..]) == dst + Escape(e)
    {
      var c := if e[i] == 0 then [0, 255] else [e[i]];
      assert e[i..][1..] == e[i + 1..];
      Associative(out, c, Escape(e[i + 1..]));
      out := out + c;
    }
  }

  // ---- splitting ----

  /** The fields left to read from `key`, `cur` being the part of the next field already read. */
  function Parse(key: Bytes, cur: Bytes): (r: Result<seq<Bytes>>)
    decreases |key|
  {
    if key == [] then Ok([cur])
    else if key[0] != 0 then Parse(key[1..], cur + [key[0]])
    else if |key| < 2 then Err
    else if key[1] == 255 then Parse(key[2..], cur + [0])
    else if key[1] == 1 then
      match Parse(key[2..], [])
      case Err => Err
      case Ok(rest) => Ok([cur] + rest)
    else if key[1] == 0 then
      (if cur != [] || !Follows(key[2..]) then Err else Parse(key[2..], cur))
    else Err
  }

  function Empties(n: nat): (s: seq<Bytes>) { seq(n, _ => []) }

  function Split(key: Bytes, n: nat): (r: Result<seq<Bytes>>) {
    if key == [] then Ok(Empties(n))
    else match Parse(key, [])
      case Err => Err
      case Ok(segs) => if |segs| > n then Err else Ok(segs + Empties(n - |segs|))
  }

  lemma SplitLength(key: Bytes, n: nat)
    ensures Split(key, n).Ok? ==> |Split(key, n).value| == n
  {
  }

  lemma {:induction false} ParseEscape(e: Bytes, cur: Bytes, rest: Bytes)
    ensures Parse(Escape(e) + rest, cur) == Parse(rest, cur + e)
  {
    if e == [] {
      assert Escape(e) + rest == rest && cur + e == cur;
    } else {
      var c := if e[0] == 0 then [0, 255] else [e[0]];
      var key, tail := Escape(e) + rest, Escape(e[1..]) + rest;
      ParseEscape(e[1..], cur + [e[0]], rest);
      Associative(cur, [e[0]], e[1..]);
      assert [e[0]] + e[1..] == e;
      Associative(c, Escape(e[1..]), rest);
      assert key == c + tail && key[|c|..] == tail;
    }
  }

  lemma ParseSegment(e: Bytes, rest: Bytes)
    requires Follows(rest)
    ensures Parse(Segment(e) + rest, []) == Parse(rest, e)
  {
    if e == [] {
      assert (Segment(e) + rest)[2..] == rest;
    } else {
      ParseEscape(e, [], rest);
      assert [] + e == e;
    }
  }

  function TrimEmpties(encs: seq<Bytes>): (r: seq<Bytes>) {
    if AllEmpty(encs) then [] else [encs[0]] + TrimEmpties(encs[1..])
  }

  lemma {:induction false} TrimThenPad(encs: seq<Bytes>)
    ensures |TrimEmpties(encs)| <= |encs|
    ensures TrimEmpties(encs) + Empties(|encs| - |TrimEmpties(encs)|) == encs
  {
    if !AllEmpty(encs) {
      TrimThenPad(encs[1..]);
      assert encs == [encs[0]] + encs[1..];
    }
  }

  lemma {:induction false} ParseRest(e: Bytes, encs: seq<Bytes>)
    ensures Parse(Rest(encs), e) == Ok([e] + TrimEmpties(encs))
    decreases |encs|
  {
    if AllEmpty(encs) {
      assert [e] + [] == [e];
    } else {
      ParseRest(encs[0], encs[1..]);
      ParseSegment(encs[0], Rest(encs[1..]));
      assert Rest(encs)[2..] == Segment(encs[0]) + Rest(encs[1..]);
    }
  }

  /** Splitting inverts joining for every tuple of at least one field. */
  lemma SplitInvertsJoin(encs: seq<Bytes>)
    requires encs != []
    ensures Split(Join(encs), |encs|) == Ok(encs)
  {
    var e, tail := encs[0], encs[1..];
    ParseSegment(e, Rest(tail));
    ParseRest(e, tail);
    TrimThenPad(tail);
    assert encs == [e] + tail;
    assert ([e] + TrimEmpties(tail)) + Empties(|tail| - |TrimEmpties(tail)|)
        == [e] + (TrimEmpties(tail) + Empties(|tail| - |TrimEmpties(tail)|));
  }

  /** Without fields the key written is 00 00, which reads as one field too many. */
  lemma NoFieldsNoRoundTrip()
    ensures Split(Join([]), 0) == Err
  {
    assert Parse([0, 0], []) == Parse([0, 0][2..], []);
  }

  function Prepend(segs: seq<Bytes>, r: Result<seq<Bytes>>): Result<seq<Bytes>> {
    match r case Err => Err case Ok(rest) => Ok(segs + rest)
  }

  method ReadSegments(key: Bytes) returns (r: Result<seq<Bytes>>)
    ensures r == Parse(key, [])
  {
    var segs: seq<Bytes>, cur: Bytes, i := [], [], 0;
    ghost var whole := Parse(key, []);
    assert key[0..] == key && (whole.Ok? ==> segs + whole.value == whole.value);
    while i < |key|
      invariant 0 <= i <= |key| && Parse(key, []) == Prepend(segs, Parse(key[i..], cur))
    {
      ghost var rest := key[i..];
      if key[i] != 0 {
        assert rest[1..] == key[i + 1..];
        cur, i := cur + [key[i]], i + 1;
      } else if i + 1 >= |key| {
        return Err;
      } else if key[i + 1] == 255 {
        assert rest[2..] == key[i + 2..];
        cur, i := cur + [0], i + 2;
      } else if key[i + 1] == 1 {
        assert rest[2..] == key[i + 2..];
        PrependTwice(segs, cur, Parse(key[i + 2..], []));
        segs, cur, i := segs + [cur], [], i + 2;
      } else if key[i + 1] == 0 {
        if |cur| != 0 { return Err; }
        assert rest[2..] == key[i + 2..];
        i := i + 2;
        if i < |key| && !(i + 1 < |key| && key[i] == 0 && key[i + 1] == 1) {
          return Err;
        }
      } else {
        return Err;
      }
    }
    return Ok(segs + [cur]);
  }

  lemma PrependTwice(segs: seq<Bytes>, cur: Bytes, r: Result<seq<Bytes>>)
    ensures Prepend(segs, Prepend([cur], r)) == Prepend(segs + [cur], r)
  {
    if r.Ok? { assert segs + ([cur] + r.value) == segs + [cur] + r.value; }
  }

  method OrderedCodeSplit(key: Bytes, n: nat) returns (r: Result<seq<Bytes>>)
    ensures r == Split(key, n)
  {
    if |key| == 0 { return Ok(Empties(n)); }
    var read := ReadSegments(key);
    if read.Err? || |read.value| > n { return Err; }
    var segs := read.value;
    while |segs| < n
      invariant |read.value| <= |segs| <= n && segs == read.value + Empties(|segs| - |read.value|)
      decreases n - |segs|
    {
      segs := segs + [[]];
    }
    return Ok(segs);
  }
}
