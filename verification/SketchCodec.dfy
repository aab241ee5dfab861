/** The binary form of a sketch: sorted hashes as uvarint deltas, or the raw registers. */
module SketchCodec {
  import opened Basics
  import opened Lex
  import opened Bits
  import Uvarint
  import opened Sketches

  datatype Result<+T> = Ok(value: T) | Err(message: string)

  const VERSION: byte := 1

  // ---- a set in ascending order ----

  predicate StrictlyAscending(q: seq<nat>) { forall i, j :: 0 <= i < j < |q| ==> q[i] < q[j] }

  ghost function Elements(q: seq<nat>): set<nat> { set x | x in q }

  ghost predicate IsLeast(s: set<nat>, m: nat) { m in s && forall x :: x in s ==> m <= x }

  ghost function Least(s: set<nat>): (m: nat)
    requires s != {}
    ensures IsLeast(s, m)
  {
    var m :| m in s;
    if s == {m} then m else
      assert s == s - {m} + {m};
      var n := Least(s - {m});
      if n < m then n else m
  }

  ghost function Ascending(s: set<nat>): (q: seq<nat>)
    ensures StrictlyAscending(q) && Elements(q) == s
  {
    if s == {} then [] else
      var m := Least(s);
      var t := Ascending(s - {m});
      AscendingCons(m, t);
      [m] + t
  }

  lemma {:induction false} AscendingLength(s: set<nat>)
    ensures |Ascending(s)| == |s|
  {
    if s != {} { AscendingLength(s - {Least(s)}); }
  }

  lemma AscendingCons(m: nat, t: seq<nat>)
    requires StrictlyAscending(t) && forall x :: x in Elements(t) ==> m < x
    ensures StrictlyAscending([m] + t)
    ensures Elements([m] + t) == {m} + Elements(t)
  {
    forall i | 0 <= i < |t| ensures m < t[i] { assert t[i] in Elements(t); }
  }

  lemma {:induction false} AscendingUnique(q: seq<nat>, r: seq<nat>)
    requires StrictlyAscending(q) && StrictlyAscending(r) && Elements(q) == Elements(r)
    ensures q == r
  {
    if q == [] {
      assert forall i :: 0 <= i < |r| ==> r[i] in Elements(r);
    } else {
      assert q[0] in Elements(r) && r != [];
      assert r[0] in Elements(q);
      assert Elements(q[1..]) == Elements(q) - {q[0]};
      assert Elements(r[1..]) == Elements(r) - {r[0]};
      AscendingUnique(q[1..], r[1..]);
      assert q == [q[0]] + q[1..] && r == [r[0]] + r[1..];
    }
  }

  /** `sort.Slice` on the hashes in whatever order the map yields them. */
  method Sort(s: set<nat>) returns (hs: seq<nat>)
    ensures hs == Ascending(s)
  {
    hs := [];
    var todo := s;
    while todo != {}
      invariant StrictlyAscending(hs) && Elements(hs) !! todo && Elements(hs) + todo == s
      decreases |todo|
    {
      var x :| x in todo;
      assert forall i :: 0 <= i < |hs| ==> hs[i] in Elements(hs);
      hs := Insert(hs, x);
      todo := todo - {x};
    }
    AscendingUnique(hs, Ascending(s));
  }

  method Insert(hs: seq<nat>, x: nat) returns (r: seq<nat>)
    requires StrictlyAscending(hs) && x !in hs
    ensures StrictlyAscending(r) && Elements(r) == Elements(hs) + {x}
  {
    var i := 0;
    while i < |hs| && hs[i] < x
      invariant 0 <= i <= |hs| && forall k :: 0 <= k < i ==> hs[k] < x
    {
      i := i + 1;
    }
    r := hs[..i] + [x] + hs[i..];
    InsertedAscending(hs, x, i);
  }

  lemma InsertedAscending(hs: seq<nat>, x: nat, i: nat)
    requires StrictlyAscending(hs) && i <= |hs| && (forall k :: 0 <= k < i ==> hs[k] < x) && (i < |hs| ==> x < hs[i])
    ensures var r := hs[..i] + [x] + hs[i..]; StrictlyAscending(r) && Elements(r) == Elements(hs) + {x}
  {
    assert hs == hs[..i] + hs[i..];
  }

  // ---- encoding ----

  /** Ascending hashes as differences from their predecessor. */
  function Deltas(q: seq<nat>, prev: nat): (b: Bytes)
    requires StrictlyAscending(q) && (q != [] ==> prev <= q[0])
  {
    if q == [] then [] else Uvarint.Encode(q[0] - prev) + Deltas(q[1..], q[0])
  }

  method AppendDeltas(head: Bytes, hs: seq<nat>) returns (out: Bytes)
    requires StrictlyAscending(hs)
    ensures out == head + Deltas(hs, 0)
  {
    out := head;
    var prev, i := 0, 0;
    assert hs[0..] == hs;
    while i < |hs|
      invariant 0 <= i <= |hs| && (i < |hs| ==> prev <= hs[i])
      invariant out + Deltas(hs[i..], prev) == head + Deltas(hs, 0)
    {
      var e := Uvarint.Encode(hs[i] - prev);
      assert hs[i..][1..] == hs[i + 1..];
      assert out + (e + Deltas(hs[i + 1..], hs[i])) == out + e + Deltas(hs[i + 1..], hs[i]);
      out, prev, i := out + e, hs[i], i + 1;
    }
  }

  /** A version, the precision, the sparse mark, the number of hashes and their sorted deltas. */
  method EncodeHashes(p: byte, hashes: set<nat>) returns (out: Bytes)
    ensures out == [VERSION, p, 0] + (Uvarint.Encode(|hashes|) + Deltas(Ascending(hashes), 0))
  {
    var hs := Sort(hashes);
    AscendingLength(hashes);
    var count: nat := |hs|;
    out := AppendDeltas(Uvarint.Encode(count), hs);
    out := [VERSION, p, 0] + out;
  }

  ghost function Encode(h: Sketch): (b: Bytes)
    requires Valid(h)
  {
    match h
    case Sparse(p, s) => [VERSION, p, 0] + (Uvarint.Encode(|s|) + Deltas(Ascending(s), 0))
    case Dense(p, regs) => [VERSION, p, 1] + regs
  }

  // ---- decoding ----

  /** The running hash wraps at 64 bits. */
  function NextHash(prev: nat, d: nat): (x: nat)
    ensures Hash(x) && (Hash(prev + d) ==> x == prev + d)
  {
    LowFits(prev + d, HASH_BITS);
    Low(prev + d, HASH_BITS)
  }

  /** `n` deltas from the front of `b`. */
  function ReadDeltas(b: Bytes, n: nat, prev: nat, got: set<nat>): (r: Result<(set<nat>, Bytes)>)
    decreases n
  {
    if n == 0 then Ok((got, b))
    else match Uvarint.Decode(b)
      case None => Err("truncated sparse HLL sketch")
      case Some((d, k)) =>
        var x := NextHash(prev, d);
        ReadDeltas(b[k..], n - 1, x, got + {x})
  }

  method ReadHashes(b: Bytes, n: nat) returns (r: Result<(set<nat>, Bytes)>)
    ensures r == ReadDeltas(b, n, 0, {})
  {
    var rest, got, prev, i := b, {}, 0, 0;
    while i < n
      invariant 0 <= i <= n && ReadDeltas(rest, n - i, prev, got) == ReadDeltas(b, n, 0, {})
    {
      var d := Uvarint.Decode(rest);
      if d.None? { return Err("truncated sparse HLL sketch"); }
      rest := rest[d.value.1..];
      prev := NextHash(prev, d.value.0);
      got, i := got + {prev}, i + 1;
    }
    return Ok((got, rest));
  }

  ghost function DecodeSparse(p: nat, b: Bytes): (r: Result<Sketch>)
    requires Precision(p)
  {
    match Uvarint.Decode(b)
    case None => Err("invalid sparse HLL sketch")
    case Some((n, k)) =>
      if n > Pow2(p) then Err("invalid sparse HLL sketch")
      else match ReadDeltas(b[k..], n, 0, {})
        case Err(m) => Err(m)
        case Ok((s, rest)) =>
          if rest != [] then Err("trailing bytes in sparse HLL sketch") else Ok(Canonical(p, s))
  }

  ghost function DecodeDense(p: nat, b: Bytes): (r: Result<Sketch>)
    requires Precision(p)
  {
    if |b| != Pow2(p) then Err("invalid dense HLL sketch length")
    else if exists r :: r in b && r > HASH_BITS - p + 1 then Err("invalid dense HLL register value")
    else Ok(Dense(p, b))
  }

  ghost function Decode(b: Bytes): (r: Result<Sketch>) {
    if |b| < 3 then Err("HLL sketch is empty or truncated")
    else if b[0] != VERSION then Err("unsupported HLL sketch version")
    else if !Precision(b[1]) then Err("invalid HLL sketch precision")
    else if b[2] == 0 then DecodeSparse(b[1], b[3..])
    else if b[2] == 1 then DecodeDense(b[1], b[3..])
    else Err("invalid HLL sketch representation")
  }

  // ---- decoding inverts encoding ----

  lemma {:induction false} ReadDeltasInverts(q: seq<nat>, prev: nat, got: set<nat>)
    requires StrictlyAscending(q) && (q != [] ==> prev <= q[0])
    requires forall x :: x in q ==> Hash(x)
    ensures ReadDeltas(Deltas(q, prev), |q|, prev, got) == Ok((got + Elements(q), []))
  {
    if q == [] {
      assert got + Elements(q) == got;
    } else {
      var x, e, rest := q[0], Uvarint.Encode(q[0] - prev), Deltas(q[1..], q[0]);
      assert x in q;
      Uvarint.RoundTrip(x - prev, rest);
      assert NextHash(prev, x - prev) == x && (e + rest)[|e|..] == rest;
      ReadDeltasInverts(q[1..], x, got + {x});
      assert got + {x} + Elements(q[1..]) == got + Elements(q);
    }
  }

  lemma DecodeInvertsSparse(p: nat, q: seq<nat>, s: set<nat>)
    requires Precision(p) && Hashes(s) && |s| <= SparseLimit(p)
    requires StrictlyAscending(q) && Elements(q) == s && |q| == |s|
    ensures DecodeSparse(p, Uvarint.Encode(|s|) + Deltas(q, 0)) == Ok(Sparse(p, s))
  {
    var e, d := Uvarint.Encode(|s|), Deltas(q, 0);
    assert |s| < Pow2(64) by { Pow2Monotone(p, 64); }
    Uvarint.RoundTrip(|s|, d);
    assert (e + d)[|e|..] == d;
    assert ReadDeltas(d, |s|, 0, {}) == Ok((s, [])) by {
      assert forall x :: x in q ==> x in Elements(q);
      ReadDeltasInverts(q, 0, {});
      assert {} + Elements(q) == s;
    }
  }

  /** Every valid sketch survives storage. */
  lemma DecodeInvertsEncode(h: Sketch)
    requires Valid(h)
    ensures Decode(Encode(h)) == Ok(h)
  {
    var b := Encode(h);
    match h
    case Sparse(p, s) =>
      assert b[3..] == Uvarint.Encode(|s|) + Deltas(Ascending(s), 0);
      AscendingLength(s);
      DecodeInvertsSparse(p, Ascending(s), s);
    case Dense(p, regs) =>
      assert b[3..] == regs;
  }

  lemma {:induction false} ReadDeltasAreHashes(b: Bytes, n: nat, prev: nat, got: set<nat>)
    requires Hashes(got)
    ensures ReadDeltas(b, n, prev, got).Ok? ==> Hashes(ReadDeltas(b, n, prev, got).value.0)
    decreases n
  {
    if n > 0 {
      var r := Uvarint.Decode(b);
      if r.Some? {
        var x := NextHash(prev, r.value.0);
        ReadDeltasAreHashes(b[r.value.1..], n - 1, x, got + {x});
      }
    }
  }

  /** Whatever bytes are accepted, the sketch read from them is valid. */
  lemma DecodeIsValid(b: Bytes)
    ensures Decode(b).Ok? ==> Valid(Decode(b).value)
  {
    assert |b| >= 3 ==> forall i :: 0 <= i < |b[3..]| ==> b[3..][i] in b[3..];
    if |b| >= 3 && b[2] == 0 && Precision(b[1]) && Uvarint.Decode(b[3..]).Some? {
      var (n, k) := Uvarint.Decode(b[3..]).value;
      ReadDeltasAreHashes(b[3..][k..], n, 0, {});
      var r := ReadDeltas(b[3..][k..], n, 0, {});
      if r.Ok? { CanonicalIsValid(b[1], r.value.0); }
    }
  }

  /** Stored bytes say exactly which hashes were added, up to the lossy dense form: histories with
      equal hashes and precision have equal bytes, and equal bytes mean equal sketches. */
  lemma BytesOfHistories(a: History, b: History)
    requires WellFormed(a) && WellFormed(b)
    ensures (Added(a) == Added(b) && LowestPrecision(a) == LowestPrecision(b)) ==>
              Encode(Outcome(a)) == Encode(Outcome(b))
    ensures Encode(Outcome(a)) == Encode(Outcome(b)) ==> Outcome(a) == Outcome(b)
  {
    HistoryIsCanonical(a);
    HistoryIsCanonical(b);
    DecodeInvertsEncode(Outcome(a));
    DecodeInvertsEncode(Outcome(b));
  }
}
