/** Go's `encoding/binary` unsigned varints. */
module Uvarint {
  import opened Basics
  import opened Lex
  import opened Bits

  const MAX_VARINT_LEN: nat := 10

  /** `binary.AppendUvarint` onto an empty buffer. */
  function Encode(x: nat): (b: Bytes)
    ensures b != []
  {
    if x < 128 then [x] else [x % 128 + 128] + Encode(x / 128)
  }

  /** `binary.Uvarint` from byte `i` on: the value and the number of bytes read; `None` stands for
      both a truncated buffer and a value over 64 bits. */
  function DecodeAt(b: Bytes, i: nat): (r: Option<(nat, nat)>)
    requires i <= |b|
    ensures r.Some? ==> i < r.value.1 <= |b|
    decreases |b| - i
  {
    if i == |b| || i == MAX_VARINT_LEN then None
    else if b[i] < 128 then
      (if i == MAX_VARINT_LEN - 1 && b[i] > 1 then None else Some((b[i], i + 1)))
    else
      match DecodeAt(b, i + 1)
      case None => None
      case Some((v, n)) => Some((b[i] - 128 + 128 * v, n))
  }

  function Decode(b: Bytes): (r: Option<(nat, nat)>)
    ensures r.Some? ==> 0 < r.value.1 <= |b|
  {
    DecodeAt(b, 0)
  }

  /** Reading back a 64-bit value stops exactly where its encoding ends, whatever follows. */
  lemma {:induction false} RoundTripAt(pre: Bytes, x: nat, rest: Bytes)
    requires |pre| < MAX_VARINT_LEN && x < Pow2(64 - 7 * |pre|)
    ensures DecodeAt(pre + Encode(x) + rest, |pre|) == Some((x, |pre| + |Encode(x)|))
    decreases x
  {
    var b := pre + Encode(x) + rest;
    if x >= 128 {
      assert |pre| < MAX_VARINT_LEN - 1 by { assert Pow2(1) == 2; }
      var pre' := pre + [x % 128 + 128];
      assert x / 128 < Pow2(64 - 7 * |pre'|) by { Pow2By7(64 - 7 * |pre'|); }
      RoundTripAt(pre', x / 128, rest);
      assert pre' + Encode(x / 128) + rest == b;
    } else {
      assert |pre| == MAX_VARINT_LEN - 1 ==> x < 2 by { assert Pow2(1) == 2; }
    }
  }

  lemma Pow2By7(n: nat)
    ensures Pow2(n + 7) == 128 * Pow2(n)
  {
    assert Pow2(n + 7) == 2 * Pow2(n + 6) == 4 * Pow2(n + 5) == 8 * Pow2(n + 4);
    assert Pow2(n + 4) == 2 * Pow2(n + 3) == 4 * Pow2(n + 2) == 8 * Pow2(n + 1);
  }

  lemma RoundTrip(x: nat, rest: Bytes)
    requires x < Pow2(64)
    ensures Decode(Encode(x) + rest) == Some((x, |Encode(x)|))
  {
    RoundTripAt([], x, rest);
    assert [] + Encode(x) + rest == Encode(x) + rest;
  }

  /** No encoding is a proper prefix of another, so what follows one is determined. */
  lemma {:induction false} PrefixFree(x: nat, y: nat, s: seq<nat>, t: seq<nat>)
    requires Encode(x) + s == Encode(y) + t
    ensures x == y && s == t
  {
    assert (Encode(x) + s)[0] == Encode(x)[0] && (Encode(y) + t)[0] == Encode(y)[0];
    if x >= 128 {
      assert (Encode(x) + s)[1..] == Encode(x / 128) + s;
      assert (Encode(y) + t)[1..] == Encode(y / 128) + t;
      PrefixFree(x / 128, y / 128, s, t);
    } else {
      assert s == (Encode(x) + s)[1..] && t == (Encode(y) + t)[1..];
    }
  }
}
