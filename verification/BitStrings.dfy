/** Strings of bits, most significant first, and the bytes they fill. */
module BitStrings {
  import opened Basics
  import opened Lex
  import opened Bits

  type bit = b: nat | b < 2
  type BitString = seq<bit>

  /** The low `k` bits of `x`. */
  function Bin(x: nat, k: nat): (s: BitString)
    ensures |s| == k
    decreases k, x
  {
    if k == 0 then [] else Bin(x / 2, k - 1) + [x % 2]
  }

  function Value(s: BitString): (x: nat) {
    if s == [] then 0 else 2 * Value(s[..|s| - 1]) + s[|s| - 1]
  }

  function Repeat(b: bit, k: nat): (s: BitString)
    ensures |s| == k && forall i :: 0 <= i < k ==> s[i] == b
  {
    if k == 0 then [] else [b] + Repeat(b, k - 1)
  }

  function Unpack(b: Bytes): (s: BitString)
    ensures |s| == 8 * |b|
  {
    if b == [] then [] else Bin(b[0], 8) + Unpack(b[1..])
  }

  function ByteOf(s: BitString): (b: byte)
    requires |s| == 8
  {
    ValueFits(s);
    Value(s)
  }

  function Pack(s: BitString): (b: Bytes)
    requires |s| % 8 == 0
    ensures |b| == |s| / 8
  {
    if s == [] then [] else [ByteOf(s[..8])] + Pack(s[8..])
  }

  // ---- numbers and bits ----

  lemma {:induction false} ValueFits(s: BitString)
    ensures Value(s) < Pow2(|s|)
    ensures |s| == 8 ==> Value(s) < 256
  {
    if s != [] { ValueFits(s[..|s| - 1]); }
    assert Pow2(8) == 256;
  }

  lemma {:induction false} ValueOfBin(x: nat, k: nat)
    ensures Value(Bin(x, k)) == Low(x, k)
    ensures x < Pow2(k) ==> Value(Bin(x, k)) == x
    decreases k
  {
    if k > 0 {
      ValueOfBin(x / 2, k - 1);
      assert Bin(x, k)[..k - 1] == Bin(x / 2, k - 1);
    }
  }

  lemma {:induction false} BinOfValue(s: BitString)
    ensures Bin(Value(s), |s|) == s
  {
    if s != [] {
      BinOfValue(s[..|s| - 1]);
      assert s == s[..|s| - 1] + [s[|s| - 1]];
    }
  }

  lemma {:induction false} BinSplit(x: nat, a: nat, b: nat)
    ensures Bin(x, a + b) == Bin(ShiftRight(x, b), a) + Bin(x, b)
    decreases b
  {
    if b == 0 {
      assert Bin(x, a) + [] == Bin(x, a);
    } else {
      BinSplit(x / 2, a, b - 1);
      assert Bin(ShiftRight(x, b), a) + (Bin(x / 2, b - 1) + [x % 2])
          == Bin(ShiftRight(x, b), a) + Bin(x / 2, b - 1) + [x % 2];
    }
  }

  lemma {:induction false} BinZero(k: nat)
    ensures Bin(0, k) == Repeat(0, k)
  {
    if k > 0 { BinZero(k - 1); }
  }

  /** A number that fits in `k` bits starts with zeros in any wider field. */
  lemma BinPadded(x: nat, a: nat, k: nat)
    requires x < Pow2(k)
    ensures Bin(x, a + k) == Repeat(0, a) + Bin(x, k)
  {
    BinSplit(x, a, k);
    ShiftRightFits(x, k, 0);
    BinZero(a);
  }

  /** The leading bit decides the upper half. */
  lemma {:induction false} ValueOfLead(s: BitString)
    requires s != []
    ensures Value(s) == Value(s[1..]) + if s[0] == 1 then Pow2(|s| - 1) else 0
  {
    if |s| > 1 {
      var t := s[..|s| - 1];
      ValueOfLead(t);
      assert s[1..][..|s| - 2] == t[1..];
    } else {
      assert s[..0] == [] && s[1..] == [];
    }
  }

  lemma {:induction false} BelowSnoc(a: seq<nat>, b: seq<nat>, x: nat, y: nat)
    requires |a| == |b|
    ensures Below(a + [x], b + [y]) <==> Below(a, b) || (a == b && x < y)
  {
    if a == [] {
      assert a + [x] == [x] && b + [y] == [y];
    } else {
      BelowSnoc(a[1..], b[1..], x, y);
      assert (a + [x])[1..] == a[1..] + [x] && (b + [y])[1..] == b[1..] + [y];
      assert a == [a[0]] + a[1..] && b == [b[0]] + b[1..];
    }
  }

  /** Equally long bit strings are ordered as the numbers they write. */
  lemma {:induction false} ValueOrder(a: BitString, b: BitString)
    requires |a| == |b|
    ensures Value(a) < Value(b) <==> Below(a, b)
    ensures Value(a) == Value(b) <==> a == b
  {
    if a != [] {
      var a', b' := a[..|a| - 1], b[..|b| - 1];
      ValueOrder(a', b');
      assert a == a' + [a[|a| - 1]] && b == b' + [b[|b| - 1]];
      BelowSnoc(a', b', a[|a| - 1], b[|b| - 1]);
    }
  }

  // ---- bytes and bits ----

  lemma {:induction false} UnpackPack(s: BitString)
    requires |s| % 8 == 0
    ensures Unpack(Pack(s)) == s
  {
    if s != [] {
      UnpackPack(s[8..]);
      BinOfValue(s[..8]);
      assert s == s[..8] + s[8..];
    }
  }

  lemma ByteOfBin(b: byte)
    ensures ByteOf(Bin(b, 8)) == b
  {
    assert Pow2(8) == 256;
    ValueOfBin(b, 8);
  }

  lemma {:induction false} PackUnpack(b: Bytes)
    ensures Pack(Unpack(b)) == b
  {
    if b != [] {
      PackUnpack(b[1..]);
      ByteOfBin(b[0]);
      assert Unpack(b)[..8] == Bin(b[0], 8) && Unpack(b)[8..] == Unpack(b[1..]);
    }
  }

  lemma {:induction false} UnpackConcat(a: Bytes, b: Bytes)
    ensures Unpack(a + b) == Unpack(a) + Unpack(b)
  {
    if a == [] {
      assert a + b == b;
    } else {
      UnpackConcat(a[1..], b);
      Associative(Bin(a[0], 8), Unpack(a[1..]), Unpack(b));
      assert (a + b)[0] == a[0] && (a + b)[1..] == a[1..] + b;
    }
  }

  lemma {:induction false} UnpackPrefix(b: Bytes, n: nat)
    requires n <= |b|
    ensures Unpack(b[..n]) == Unpack(b)[..8 * n]
  {
    if n > 0 {
      UnpackPrefix(b[1..], n - 1);
      assert b[..n][1..] == b[1..][..n - 1];
    }
  }

  lemma {:induction false} BelowCommonPrefixBits(a: seq<nat>, b: seq<nat>, s: seq<nat>, t: seq<nat>)
    requires |a| == |b| && Below(a + s, b + t)
    ensures Below(a, b) || (a == b && Below(s, t))
  {
    if a == [] {
      assert a + s == s && b + t == t;
    } else if a[0] == b[0] {
      assert (a + s)[1..] == a[1..] + s && (b + t)[1..] == b[1..] + t;
      BelowCommonPrefixBits(a[1..], b[1..], s, t);
      assert a == [a[0]] + a[1..] && b == [b[0]] + b[1..];
    }
  }

  /** A difference in the bits is the same difference in the bytes. */
  lemma {:induction false} UnpackOrder(a: Bytes, b: Bytes)
    requires Below(Unpack(a), Unpack(b))
    ensures Below(a, b)
  {
    assert a != [] && b != [];
    BelowCommonPrefixBits(Bin(a[0], 8), Bin(b[0], 8), Unpack(a[1..]), Unpack(b[1..]));
    ValueOrder(Bin(a[0], 8), Bin(b[0], 8));
    ByteOfBin(a[0]);
    ByteOfBin(b[0]);
    if a[0] == b[0] { UnpackOrder(a[1..], b[1..]); }
  }

  lemma PackOrder(s: BitString, t: BitString)
    requires |s| % 8 == 0 && |t| % 8 == 0 && Below(s, t)
    ensures Below(Pack(s), Pack(t))
  {
    UnpackPack(s);
    UnpackPack(t);
    UnpackOrder(Pack(s), Pack(t));
  }

  // ---- bytes, edited ----

  /** `^b` on every byte. */
  function Complement(b: Bytes): (r: Bytes)
    ensures |r| == |b| && forall i :: 0 <= i < |b| ==> r[i] == 255 - b[i]
  {
    if b == [] then [] else [255 - b[0]] + Complement(b[1..])
  }

  lemma {:induction false} ComplementReverses(a: Bytes, b: Bytes)
    requires Below(a, b)
    ensures Below(Complement(b), Complement(a))
  {
    if a[0] == b[0] { ComplementReverses(a[1..], b[1..]); }
  }

  lemma ComplementTwice(b: Bytes)
    ensures Complement(Complement(b)) == b
  {
    assert forall i :: 0 <= i < |b| ==> Complement(Complement(b))[i] == b[i];
  }

  lemma ComplementPrefix(a: Bytes, b: Bytes)
    ensures Complement(a) <= Complement(b) <==> a <= b
  {
    if |a| <= |b| {
      assert a <= b <==> forall i :: 0 <= i < |a| ==> a[i] == b[i];
      assert Complement(a) <= Complement(b) <==> forall i :: 0 <= i < |a| ==> Complement(a)[i] == Complement(b)[i];
    }
  }

  /** `b |= 0x80 >> k` and `b &^= 0x80 >> k`. */
  function WithBit(b: byte, k: nat, v: bit): byte
    requires k < 8
  {
    ByteOf(Bin(b, 8)[k := v])
  }

  lemma {:induction false} UnpackUpdate(b: Bytes, j: nat, k: nat, v: bit)
    requires j < |b| && k < 8
    ensures Unpack(b[j := WithBit(b[j], k, v)]) == Unpack(b)[8 * j + k := v]
  {
    var c := b[j := WithBit(b[j], k, v)];
    if j == 0 {
      BinOfValue(Bin(b[0], 8)[k := v]);
      assert c[1..] == b[1..];
    } else {
      UnpackUpdate(b[1..], j - 1, k, v);
      assert c[1..] == b[1..][j - 1 := WithBit(b[j], k, v)];
    }
  }

  /** `byte(x >> (8*k))`. */
  function ByteAt(x: nat, k: nat): (b: byte) {
    LowFits(ShiftRight(x, 8 * k), 8);
    assert Pow2(8) == 256;
    Low(ShiftRight(x, 8 * k), 8)
  }

  /** The bytes of `x`, most significant first. */
  function BigEndian(x: nat, n: nat): (b: Bytes)
    ensures |b| == n
    decreases n, x
  {
    if n == 0 then [] else BigEndian(ShiftRight(x, 8), n - 1) + [ByteAt(x, 0)]
  }

  lemma {:induction false} UnpackBigEndian(x: nat, n: nat)
    ensures Unpack(BigEndian(x, n)) == Bin(x, 8 * n)
    decreases n
  {
    if n > 0 {
      var y := ShiftRight(x, 8);
      UnpackBigEndian(y, n - 1);
      UnpackConcat(BigEndian(y, n - 1), [ByteAt(x, 0)]);
      BinSplit(x, 8 * (n - 1), 8);
      assert Unpack([ByteAt(x, 0)]) == Bin(Low(x, 8), 8);
      BinOfLow(x, 8);
    }
  }

  lemma {:induction false} BinOfLow(x: nat, k: nat)
    ensures Bin(Low(x, k), k) == Bin(x, k)
    decreases k
  {
    if k > 0 { BinOfLow(x / 2, k - 1); }
  }

  lemma {:induction false} BigEndianAt(x: nat, n: nat, k: nat)
    requires k < n
    ensures BigEndian(x, n)[n - 1 - k] == ByteAt(x, k)
    decreases n
  {
    if k > 0 {
      BigEndianAt(ShiftRight(x, 8), n - 1, k - 1);
      ShiftRightTwice(x, 8, 8 * (k - 1));
    }
  }

  lemma {:induction false} BigEndianSuffix(x: nat, n: nat, m: nat)
    requires n <= m
    ensures BigEndian(x, m)[m - n..] == BigEndian(x, n)
    decreases n
  {
    if n > 0 {
      var y := ShiftRight(x, 8);
      BigEndianSuffix(y, n - 1, m - 1);
      assert BigEndian(x, m)[m - n..] == BigEndian(y, m - 1)[m - n..] + [ByteAt(x, 0)];
    }
  }

  /** Bytes past the width of `x` are zero. */
  lemma HighByteIsZero(x: nat, w: nat, k: nat)
    requires x < Pow2(w) && w <= 8 * k
    ensures ByteAt(x, k) == 0
  {
    ShiftRightFits(x, w, 0);
    ShiftRightTwice(x, w, 8 * k - w);
    ShiftOfZero(8 * k - w);
    LowFits(0, 8);
  }

  lemma {:induction false} ShiftOfZero(n: nat)
    ensures ShiftRight(0, n) == 0
  {
    if n > 0 { ShiftOfZero(n - 1); }
  }

  // ---- the number big-endian bytes write ----

  function BytesValue(b: Bytes): (x: nat) {
    if b == [] then 0 else 256 * BytesValue(b[..|b| - 1]) + b[|b| - 1]
  }

  lemma {:induction false} ValueAppendBin(s: BitString, x: nat, k: nat)
    ensures Value(s + Bin(x, k)) == ShiftLeft(Value(s), k) + Low(x, k)
    decreases k
  {
    var t := s + Bin(x, k);
    if k == 0 {
      assert t == s;
    } else {
      ValueAppendBin(s, x / 2, k - 1);
      assert t[..|t| - 1] == s + Bin(x / 2, k - 1);
    }
  }

  lemma ShiftLeft8(x: nat)
    ensures ShiftLeft(x, 8) == 256 * x
  {
    assert ShiftLeft(x, 8) == 2 * ShiftLeft(x, 7) == 4 * ShiftLeft(x, 6) == 8 * ShiftLeft(x, 5);
    assert ShiftLeft(x, 5) == 2 * ShiftLeft(x, 4) == 4 * ShiftLeft(x, 3) == 8 * ShiftLeft(x, 2);
    assert ShiftLeft(x, 2) == 2 * ShiftLeft(x, 1) == 4 * x;
  }

  lemma {:induction false} BytesValueIsValue(b: Bytes)
    ensures BytesValue(b) == Value(Unpack(b))
  {
    if b != [] {
      var a, c := b[..|b| - 1], b[|b| - 1];
      BytesValueIsValue(a);
      assert b == a + [c];
      UnpackConcat(a, [c]);
      assert Unpack([c]) == Bin(c, 8);
      ValueAppendBin(Unpack(a), c, 8);
      ShiftLeft8(Value(Unpack(a)));
      assert Pow2(8) == 256;
      LowFits(c, 8);
    }
  }

  lemma {:induction false} LeadingZerosAddNothing(n: nat, s: BitString)
    ensures Value(Repeat(0, n) + s) == Value(s)
  {
    var t := Repeat(0, n) + s;
    if n == 0 {
      assert t == s;
    } else {
      LeadingZerosAddNothing(n - 1, s);
      ValueOfLead(t);
      assert t[1..] == Repeat(0, n - 1) + s;
    }
  }

  /** A nonzero byte with `k` bytes after it weighs at least `256^k`. */
  lemma {:induction false} HighByteIsHeavy(b: Bytes, i: nat)
    requires i < |b| && b[i] != 0
    ensures BytesValue(b) >= Pow2(8 * (|b| - 1 - i))
    decreases |b|
  {
    if i < |b| - 1 {
      var a := b[..|b| - 1];
      HighByteIsHeavy(a, i);
      Pow2By8(8 * (|a| - 1 - i));
    }
  }

  lemma Pow2By8(n: nat)
    ensures Pow2(n + 8) == 256 * Pow2(n)
  {
    assert Pow2(n + 8) == 2 * Pow2(n + 7) == 4 * Pow2(n + 6) == 8 * Pow2(n + 5) == 16 * Pow2(n + 4);
    assert Pow2(n + 4) == 2 * Pow2(n + 3) == 4 * Pow2(n + 2) == 8 * Pow2(n + 1) == 16 * Pow2(n);
  }
}
