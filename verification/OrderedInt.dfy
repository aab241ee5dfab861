/** The OrderedCode encoding of signed 64-bit integers: as many leading one bits as bytes, a zero,
    then the magnitude; negative values are complemented. */
module OrderedInt {
  import opened Lex
  import opened Bits
  import opened BitStrings

  datatype Result<+T> = Ok(value: T) | Err

  const TWO63: nat := 0x8000_0000_0000_0000

  lemma TwoTo63()
    ensures Pow2(63) == TWO63
  {
    assert Pow2(7) == 128;
    Pow2By8(7);
    Pow2By8(15);
    Pow2By8(23);
    Pow2By8(31);
    Pow2By8(39);
    Pow2By8(47);
    Pow2By8(55);
  }

  predicate Int64(v: int) { 0 <= v + TWO63 && v < TWO63 }

  /** `v`, or its complement `^v` when negative. */
  function Magnitude(v: int): nat { if v < 0 then -v - 1 else v }

  /** The least number of bytes, at least one, whose 7 bits each leave a spare bit. */
  function Size(x: nat): (n: nat)
    requires x < TWO63
    ensures 1 <= n <= 10
    ensures 7 * n - 8 < BitLen(x) + 1 <= 7 * n || (n == 1 && x == 0)
  {
    TwoTo63();
    BitLenFits(x, 63);
    (BitLen(x) + 7) / 7
  }

  function Framed(n: nat, body: BitString): (s: BitString)
    ensures |s| == n + 1 + |body|
  {
    Repeat(1, n) + ([0] + body)
  }

  function MagnitudeBits(x: nat): (s: BitString)
    requires x < TWO63
    ensures |s| == 8 * Size(x)
  {
    Framed(Size(x), Bin(x, 7 * Size(x) - 1))
  }

  function EncodeMagnitude(x: nat): (b: Bytes)
    requires x < TWO63
    ensures |b| == Size(x)
  {
    Pack(MagnitudeBits(x))
  }

  function Encode(v: int): (b: Bytes)
    requires Int64(v)
    ensures |b| == Size(Magnitude(v))
  {
    if v < 0 then Complement(EncodeMagnitude(Magnitude(v))) else EncodeMagnitude(v)
  }

  // ---- order ----

  lemma {:induction false} FrameOrder(n: nat, m: nat, s: BitString, t: BitString)
    requires n < m || (n == m && Below(s, t))
    ensures Below(Framed(n, s), Framed(m, t))
  {
    if n > 0 {
      FrameOrder(n - 1, m - 1, s, t);
      assert Framed(n, s)[1..] == Framed(n - 1, s);
      assert Framed(m, t)[1..] == Framed(m - 1, t);
    } else if m == 0 {
      assert Framed(n, s)[1..] == s && Framed(m, t)[1..] == t;
    }
  }

  lemma {:induction false} BitLenMonotone(x: nat, y: nat)
    requires x <= y
    ensures BitLen(x) <= BitLen(y)
  {
    if x > 0 { BitLenMonotone(x / 2, y / 2); }
  }

  lemma SizeOrder(x: nat, y: nat)
    requires x <= y < TWO63
    ensures Size(x) <= Size(y)
    ensures y < Pow2(7 * Size(y) - 1)
  {
    BitLenMonotone(x, y);
    BitLenFits(y, 7 * Size(y) - 1);
  }

  lemma BinOrder(x: nat, y: nat, k: nat)
    requires x < y < Pow2(k)
    ensures Below(Bin(x, k), Bin(y, k))
  {
    ValueOfBin(x, k);
    ValueOfBin(y, k);
    ValueOrder(Bin(x, k), Bin(y, k));
  }

  lemma MagnitudeOrder(x: nat, y: nat)
    requires x < y < TWO63
    ensures Below(MagnitudeBits(x), MagnitudeBits(y))
  {
    var n, m := Size(x), Size(y);
    SizeOrder(x, y);
    if n == m { BinOrder(x, y, 7 * n - 1); }
    FrameOrder(n, m, Bin(x, 7 * n - 1), Bin(y, 7 * m - 1));
  }

  lemma FirstBit(b: byte)
    ensures Bin(b, 8)[0] == if b < 128 then 0 else 1
  {
    assert Pow2(7) == 128 && Pow2(8) == 256;
    ValueOfBin(b, 8);
    ValueOfLead(Bin(b, 8));
    ValueFits(Bin(b, 8)[1..]);
  }

  lemma MagnitudeStartsHigh(x: nat)
    requires x < TWO63
    ensures EncodeMagnitude(x)[0] >= 128
  {
    UnpackPack(MagnitudeBits(x));
    FirstBit(EncodeMagnitude(x)[0]);
    assert Unpack(EncodeMagnitude(x))[0] == 1;
  }

  /** Smaller integers have smaller encodings, at a byte both encodings have. */
  lemma EncodeOrder(v: int, w: int)
    requires Int64(v) && Int64(w) && v < w
    ensures Below(Encode(v), Encode(w))
  {
    var x, y := Magnitude(v), Magnitude(w);
    if v >= 0 {
      MagnitudeOrder(x, y);
      PackOrder(MagnitudeBits(x), MagnitudeBits(y));
    } else if w < 0 {
      MagnitudeOrder(y, x);
      PackOrder(MagnitudeBits(y), MagnitudeBits(x));
      ComplementReverses(EncodeMagnitude(y), EncodeMagnitude(x));
    } else {
      MagnitudeStartsHigh(x);
      MagnitudeStartsHigh(y);
    }
  }

  lemma {:induction false} BelowNotPrefix(a: seq<nat>, b: seq<nat>)
    requires Below(a, b)
    ensures !(a <= b) && !(b <= a)
  {
    if a[0] == b[0] { BelowNotPrefix(a[1..], b[1..]); }
  }

  /** No encoding starts with another: at most one integer can be read from the front of a key. */
  lemma PrefixFree(v: int, w: int, b: Bytes)
    requires Int64(v) && Int64(w) && Encode(v) <= b && Encode(w) <= b
    ensures v == w
  {
    if v < w {
      EncodeOrder(v, w);
      BelowNotPrefix(Encode(v), Encode(w));
    } else if w < v {
      EncodeOrder(w, v);
      BelowNotPrefix(Encode(w), Encode(v));
    }
  }

  /** What reading an ordered integer from the front of `b` should yield. */
  ghost function Read(b: Bytes): (r: Result<(int, nat)>) {
    if exists v :: Int64(v) && Encode(v) <= b then
      var v :| Int64(v) && Encode(v) <= b;
      Ok((v, |Encode(v)|))
    else Err
  }

  // ---- the encoder ----

  /** The `n` leading ones go over the zeros a magnitude of that size leaves. */
  lemma FrameOfMagnitude(x: nat)
    requires x < TWO63
    ensures Repeat(1, Size(x)) + Bin(x, 8 * Size(x))[Size(x)..] == MagnitudeBits(x)
  {
    var n := Size(x);
    SizeOrder(x, x);
    BinPadded(x, n + 1, 7 * n - 1);
    assert Bin(x, 8 * n)[n..] == [0] + Bin(x, 7 * n - 1);
  }

  /** Overwrites the first `n` bits. */
  method SetLeading(b: Bytes, n: nat, v: bit) returns (r: Bytes)
    requires n <= 8 * |b|
    ensures |r| == |b|
    ensures Unpack(r) == Repeat(v, n) + Unpack(b)[n..]
  {
    r := b;
    for i := 0 to n
      invariant |r| == |b|
      invariant forall k :: 0 <= k < i ==> Unpack(r)[k] == v
      invariant Unpack(r)[i..] == Unpack(b)[i..]
    {
      assert 8 * (i / 8) + i % 8 == i;
      UnpackUpdate(r, i / 8, i % 8, v);
      r := r[i / 8 := WithBit(r[i / 8], i % 8, v)];
    }
  }

  /** The big-endian bytes of a 64-bit `x` at the end of a zeroed 10-byte buffer. */
  method FillBuffer(x: nat) returns (buf: array<byte>)
    requires x < TWO63
    ensures buf[..] == BigEndian(x, 10)
  {
    buf := new byte[10](_ => 0);
    ghost var be := BigEndian(x, 10);
    for i := 0 to 8
      invariant forall j :: 0 <= j < 10 ==> buf[j] == if j < 10 - i then 0 else be[j]
    {
      BigEndianAt(x, 10, i);
      buf[9 - i] := ByteAt(x, i);
    }
    BigEndianAt(x, 10, 8);
    BigEndianAt(x, 10, 9);
    TwoTo63();
    HighByteIsZero(x, 63, 8);
    HighByteIsZero(x, 63, 9);
  }

  method ByteCount(x: nat) returns (n: nat)
    requires x < TWO63
    ensures n == Size(x)
  {
    n := 1;
    while BitLen(x) > 7 * n - 1
      invariant 1 <= n <= Size(x)
      decreases Size(x) - n
    {
      n := n + 1;
    }
  }

  method MagnitudeBytes(x: nat) returns (enc: Bytes)
    requires x < TWO63
    ensures enc == EncodeMagnitude(x)
  {
    var n := ByteCount(x);
    var buf := FillBuffer(x);
    BigEndianSuffix(x, n, 10);
    UnpackBigEndian(x, n);
    enc := SetLeading(buf[10 - n..], n, 1);
    FrameOfMagnitude(x);
    PackUnpack(enc);
  }

  method AppendOrderedInt64(dst: Bytes, v: int) returns (out: Bytes)
    requires Int64(v)
    ensures out == dst + Encode(v)
  {
    var enc := MagnitudeBytes(Magnitude(v));
    if v < 0 {
      enc := Complement(enc);
    }
    out := dst + enc;
  }

  // ---- the decoder ----

  /** `n` is the number of leading ones, at least one, and a zero follows them. */
  ghost predicate HasFrame(s: BitString, n: nat) {
    1 <= n < |s| && (forall i :: 0 <= i < n ==> s[i] == 1) && s[n] == 0
  }

  /** The bytes with the sign taken out: complemented when the first bit is clear. */
  function Unsigned(b: Bytes): (g: Bytes)
    requires b != []
    ensures |g| == |b| && g[0] >= 128
  {
    if b[0] < 128 then Complement(b) else b
  }

  /** An encoding starts a key exactly when its sign bit and its unsigned part do. */
  lemma SignAndMagnitude(b: Bytes, v: int)
    requires b != [] && Int64(v)
    ensures Encode(v) <= b <==> (b[0] < 128 <==> v < 0) && EncodeMagnitude(Magnitude(v)) <= Unsigned(b)
  {
    var e := EncodeMagnitude(Magnitude(v));
    MagnitudeStartsHigh(Magnitude(v));
    ComplementTwice(e);
    ComplementTwice(b);
    ComplementPrefix(e, Complement(b));
  }

  lemma FrameValue(x: nat, n: nat)
    requires x < TWO63 && n == Size(x)
    ensures Value([0] + Bin(x, 7 * n - 1)) == x
    ensures Bin(x, 7 * n) == [0] + Bin(x, 7 * n - 1)
  {
    SizeOrder(x, x);
    BinPadded(x, 1, 7 * n - 1);
    BitLenFits(x, 7 * n);
    ValueOfBin(x, 7 * n);
    assert Repeat(0, 1) == [0];
  }

  /** Behind its ones, a body is the magnitude it writes exactly when that magnitude has its size. */
  lemma FrameBits(body: BitString, x: nat)
    requires x < TWO63 && |body| == 7 * Size(x) && Value(body) == x
    ensures body == Bin(x, 7 * Size(x))
  {
    BinOfValue(body);
  }

  lemma BodyOfMagnitude(x: nat)
    requires x < TWO63
    ensures var n := Size(x); MagnitudeBits(x) == Repeat(1, n) + Bin(x, 7 * n) && Value(Bin(x, 7 * n)) == x
  {
    FrameValue(x, Size(x));
  }

  lemma PrefixBits(g: Bytes, x: nat)
    requires x < TWO63
    ensures EncodeMagnitude(x) <= g <==> Size(x) <= |g| && Unpack(g)[..8 * Size(x)] == MagnitudeBits(x)
  {
    var t := MagnitudeBits(x);
    UnpackPack(t);
    if Size(x) <= |g| {
      UnpackPrefix(g, Size(x));
      PackUnpack(g[..Size(x)]);
      assert EncodeMagnitude(x) <= g <==> g[..Size(x)] == EncodeMagnitude(x);
    }
  }

  lemma SplitBits(s: BitString, n: nat, b: BitString)
    requires |b| == 7 * n && 8 * n <= |s|
    ensures s[..8 * n] == Repeat(1, n) + b <==> (forall i :: 0 <= i < n ==> s[i] == 1) && s[n..8 * n] == b
  {
    assert s[..8 * n] == s[..n] + s[n..8 * n];
    if forall i :: 0 <= i < n ==> s[i] == 1 {
      assert s[..n] == Repeat(1, n);
    } else if s[..8 * n] == Repeat(1, n) + b {
      assert forall i :: 0 <= i < n ==> s[i] == (Repeat(1, n) + b)[i] == 1;
    }
  }

  /** The bits are a magnitude exactly when they are framed by its size and write its value. */
  lemma FrameIff(s: BitString, x: nat)
    requires x < TWO63 && 8 * Size(x) <= |s|
    ensures var n := Size(x);
            s[..8 * n] == MagnitudeBits(x) <==> HasFrame(s, n) && Value(s[n..8 * n]) == x
  {
    var n := Size(x);
    BodyOfMagnitude(x);
    SplitBits(s, n, Bin(x, 7 * n));
    if Value(s[n..8 * n]) == x { FrameBits(s[n..8 * n], x); }
    assert Bin(x, 7 * n)[0] == 0 by { FrameValue(x, n); }
  }

  // ---- reading ----

  /** The frame of the unsigned bytes, or 0 when none of at most 10 bytes is there. */
  method FrameLength(g: Bytes) returns (n: nat)
    requires g != [] && g[0] >= 128
    ensures n != 0 ==> n <= 10 && HasFrame(Unpack(g), n)
    ensures n == 0 ==> forall m :: m <= 10 ==> !HasFrame(Unpack(g), m)
  {
    ghost var s := Unpack(g);
    n := 0;
    FirstBit(g[0]);
    while true
      invariant 0 <= n <= 10 && n <= |s| && forall i :: 0 <= i < n ==> s[i] == 1
      decreases 10 - n
    {
      if n / 8 >= |g| { return 0; }
      BitIsSet(g, n);
      if Bin(g[n / 8], 8)[n % 8] == 0 { break; }
      n := n + 1;
      if n > 10 { return 0; }
    }
  }

  lemma {:induction false} BitIsSet(g: Bytes, i: nat)
    requires i / 8 < |g|
    ensures Unpack(g)[i] == Bin(g[i / 8], 8)[i % 8]
    decreases |g|
  {
    if i >= 8 { BitIsSet(g[1..], i - 8); }
  }

  /** The value behind the frame, when it is below 2^63. */
  method FramedValue(g: Bytes, n: nat) returns (r: Result<nat>)
    requires 1 <= n <= |g| && n <= 10
    ensures var x := Value(Unpack(g)[n..8 * n]); r == if x < TWO63 then Ok(x) else Err
  {
    var enc := SetLeading(g[..n], n, 0);
    ghost var x := Value(Unpack(g)[n..8 * n]);
    assert BytesValue(enc) == x by {
      UnpackPrefix(g, n);
      BytesValueIsValue(enc);
      assert Unpack(g)[..8 * n][n..] == Unpack(g)[n..8 * n];
      LeadingZerosAddNothing(n, Unpack(g)[n..8 * n]);
    }
    var top := if n < 8 then 0 else n - 8;
    for i := 0 to top
      invariant forall k :: 0 <= k < i ==> enc[k] == 0
    {
      if enc[i] != 0 {
        TooHeavy(enc, i);
        return Err;
      }
    }
    var y, j := 0, top;
    assert BytesValue(enc[..j]) == 0 by { ZeroBytesValue(enc[..j]); }
    while j < n
      invariant 0 <= j <= n && y == BytesValue(enc[..j])
    {
      assert enc[..j + 1][..j] == enc[..j];
      y := y * 256 + enc[j];
      j := j + 1;
    }
    assert enc[..n] == enc;
    if y >= TWO63 { return Err; }
    return Ok(y);
  }

  lemma TooHeavy(enc: Bytes, i: nat)
    requires i + 8 < |enc| && enc[i] != 0
    ensures BytesValue(enc) >= TWO63
  {
    HighByteIsHeavy(enc, i);
    Pow2Monotone(63, 8 * (|enc| - 1 - i));
    TwoTo63();
  }

  lemma {:induction false} ZeroBytesValue(b: Bytes)
    requires forall i :: 0 <= i < |b| ==> b[i] == 0
    ensures BytesValue(b) == 0
  {
    if b != [] { ZeroBytesValue(b[..|b| - 1]); }
  }

  /** An encoding starts a key exactly when sign, frame and value agree with it. */
  lemma Legible(b: Bytes, v: int)
    requires b != [] && Int64(v)
    ensures var x, s := Magnitude(v), Unpack(Unsigned(b));
            Encode(v) <= b <==> (b[0] < 128 <==> v < 0) && Size(x) <= |b| && HasFrame(s, Size(x))
                                && Value(s[Size(x)..8 * Size(x)]) == x
  {
    var x, g := Magnitude(v), Unsigned(b);
    SignAndMagnitude(b, v);
    PrefixBits(g, x);
    if Size(x) <= |b| { FrameIff(Unpack(g), x); }
  }

  lemma ReadFinds(b: Bytes, v: int)
    requires Int64(v) && Encode(v) <= b
    ensures Read(b) == Ok((v, |Encode(v)|))
  {
    var w := Read(b).value.0;
    PrefixFree(v, w, b);
  }

  lemma FrameUnique(s: BitString, n: nat, m: nat)
    requires HasFrame(s, n) && HasFrame(s, m)
    ensures n == m
  {
  }

  function Signed(b: Bytes, x: nat): int
    requires b != []
  {
    if b[0] < 128 then -1 - x else x
  }

  /** The one integer a framed key can hold. */
  lemma ReadFramed(b: Bytes, n: nat, x: nat)
    requires b != [] && HasFrame(Unpack(Unsigned(b)), n)
    requires n <= |b| ==> x == Value(Unpack(Unsigned(b))[n..8 * n])
    ensures Read(b) == if n <= |b| && x < TWO63 && Size(x) == n then Ok((Signed(b, x), n)) else Err
  {
    if Read(b).Ok? {
      var v := Read(b).value.0;
      Legible(b, v);
      FrameUnique(Unpack(Unsigned(b)), n, Size(Magnitude(v)));
    }
    if n <= |b| && x < TWO63 && Size(x) == n {
      Legible(b, Signed(b, x));
      ReadFinds(b, Signed(b, x));
    }
  }

  lemma ReadUnframed(b: Bytes)
    requires b != [] ==> forall m :: m <= 10 ==> !HasFrame(Unpack(Unsigned(b)), m)
    ensures Read(b) == Err
  {
    if Read(b).Ok? && b != [] {
      Legible(b, Read(b).value.0);
    }
  }

  /** The decoder accepts a key exactly when it starts with the encoding of the value returned. */
  method DecodeOrderedInt64(b: Bytes) returns (r: Result<(int, nat)>)
    ensures r == Read(b)
  {
    if b == [] {
      ReadUnframed(b);
      return Err;
    }
    var g := Unsigned(b);
    var n := FrameLength(g);
    if n == 0 {
      ReadUnframed(b);
      return Err;
    }
    if |b| < n {
      ReadFramed(b, n, 0);
      return Err;
    }
    ReadFramed(b, n, Value(Unpack(g)[n..8 * n]));
    var x := FramedValue(g, n);
    if x.Err? { return Err; }
    var size := ByteCount(x.value);
    if size != n { return Err; }
    return Ok((Signed(b, x.value), n));
  }
}
