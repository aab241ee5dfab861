/** Byte strings and their lexicographic order, as `bytes.Compare`, Go's string comparison and the
    row store's `ORDER BY row_key` define it. The order is stated on naturals so that a family's
    creation order can lead its name in one sort key. */
module Lex {
  type byte = b: nat | b < 256
  type Bytes = seq<byte>

  /** The three-way comparison of `bytes.Compare`. */
  function Compare(a: seq<nat>, b: seq<nat>): (c: int)
    ensures -1 <= c <= 1
    ensures c == 0 <==> a == b
  {
    if a == [] || b == [] then
      (if |a| < |b| then -1 else if |a| > |b| then 1 else 0)
    else if a[0] != b[0] then
      (if a[0] < b[0] then -1 else 1)
    else
      assert a == [a[0]] + a[1..] && b == [b[0]] + b[1..];
      Compare(a[1..], b[1..])
  }

  predicate Less(a: seq<nat>, b: seq<nat>) { Compare(a, b) < 0 }

  predicate AtMost(a: seq<nat>, b: seq<nat>) { Compare(a, b) <= 0 }

  /** `a` is smaller than `b` at a position both have: an order no suffix can change. */
  predicate Below(a: seq<nat>, b: seq<nat>) {
    a != [] && b != [] && (a[0] < b[0] || (a[0] == b[0] && Below(a[1..], b[1..])))
  }

  lemma {:induction false} CompareAntisymmetric(a: seq<nat>, b: seq<nat>)
    ensures Compare(a, b) == -Compare(b, a)
  {
    if a != [] && b != [] && a[0] == b[0] { CompareAntisymmetric(a[1..], b[1..]); }
  }

  lemma {:induction false} LessTransitive(a: seq<nat>, b: seq<nat>, c: seq<nat>)
    requires AtMost(a, b) && AtMost(b, c)
    ensures AtMost(a, c)
    ensures Less(a, b) || Less(b, c) ==> Less(a, c)
  {
    if a != [] && b != [] && c != [] && a[0] == b[0] == c[0] { LessTransitive(a[1..], b[1..], c[1..]); }
  }

  lemma {:induction false} LessIsBelowOrPrefix(a: seq<nat>, b: seq<nat>)
    ensures Less(a, b) <==> Below(a, b) || a < b
  {
    if a != [] && b != [] && a[0] == b[0] {
      LessIsBelowOrPrefix(a[1..], b[1..]);
      assert a == [a[0]] + a[1..] && b == [b[0]] + b[1..];
    }
  }

  lemma {:induction false} BelowExtends(a: seq<nat>, b: seq<nat>, s: seq<nat>, t: seq<nat>)
    requires Below(a, b)
    ensures Below(a + s, b + t)
  {
    if a[0] == b[0] {
      BelowExtends(a[1..], b[1..], s, t);
      assert (a + s)[1..] == a[1..] + s && (b + t)[1..] == b[1..] + t;
    }
  }

  lemma {:induction false} CommonPrefix(p: seq<nat>, a: seq<nat>, b: seq<nat>)
    ensures Compare(p + a, p + b) == Compare(a, b)
    ensures Below(p + a, p + b) == Below(a, b)
  {
    if p == [] {
      assert p + a == a && p + b == b;
    } else {
      CommonPrefix(p[1..], a, b);
      assert (p + a)[1..] == p[1..] + a && (p + b)[1..] == p[1..] + b;
    }
  }

  /** Nothing lies between a key and the key followed by a zero byte. */
  lemma {:induction false} SuccessorIsNext(k: seq<nat>, x: seq<nat>)
    ensures Less(x, k + [0]) <==> AtMost(x, k)
  {
    if k == [] {
      assert x != [] && x[0] == 0 ==> Compare(x, k + [0]) == Compare(x[1..], []);
    } else if x != [] && x[0] == k[0] {
      assert (k + [0])[1..] == k[1..] + [0];
      SuccessorIsNext(k[1..], x[1..]);
    }
  }

  // ---- the first difference ----

  /** The sequences agree up to `i`, where the first ends or is smaller. */
  predicate DiffersAt(a: seq<nat>, b: seq<nat>, i: nat) {
    i <= |a| && i < |b| && a[..i] == b[..i] && (i == |a| || a[i] < b[i])
  }

  ghost predicate FirstDiffers(a: seq<nat>, b: seq<nat>) { exists i :: DiffersAt(a, b, i) }

  lemma DiffersLater(x: nat, a: seq<nat>, b: seq<nat>, i: nat)
    ensures DiffersAt([x] + a, [x] + b, i + 1) <==> DiffersAt(a, b, i)
  {
    var c, d := [x] + a, [x] + b;
    if i <= |a| && i < |b| {
      assert c[..i + 1] == [x] + a[..i] && d[..i + 1] == [x] + b[..i];
      assert c[..i + 1][1..] == a[..i] && d[..i + 1][1..] == b[..i];
    }
  }

  lemma SameHeads(a: seq<nat>, b: seq<nat>, i: nat)
    requires DiffersAt(a, b, i)
    ensures i > 0 ==> a[0] == b[0]
  {
    if i > 0 { assert a[..i][0] == b[..i][0]; }
  }

  lemma DiffersAtOnce(a: seq<nat>, b: seq<nat>)
    requires a != [] && b != [] && a[0] != b[0]
    ensures FirstDiffers(a, b) <==> a[0] < b[0]
  {
    if a[0] < b[0] { assert DiffersAt(a, b, 0); }
    forall i: nat | DiffersAt(a, b, i) ensures i == 0 { SameHeads(a, b, i); }
  }

  /** The order is decided where the sequences first differ. */
  lemma {:induction false} LessMeans(a: seq<nat>, b: seq<nat>)
    ensures Less(a, b) <==> FirstDiffers(a, b)
  {
    if a == [] {
      assert b != [] ==> DiffersAt(a, b, 0);
    } else if b != [] {
      if a[0] != b[0] {
        DiffersAtOnce(a, b);
      } else {
        LessMeans(a[1..], b[1..]);
        assert a == [a[0]] + a[1..] && b == [a[0]] + b[1..];
        if i: nat :| DiffersAt(a[1..], b[1..], i) { DiffersLater(a[0], a[1..], b[1..], i); }
        if i: nat :| DiffersAt(a, b, i) { DiffersLater(a[0], a[1..], b[1..], i - 1); }
      }
    }
  }
}
