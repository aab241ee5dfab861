/** One column: its cells, newest first, and the edits that mutations make to it. */
module Columns {
  import opened Lex

  datatype Cell = Cell(ts: int, value: Bytes, labels: seq<Bytes>)

  predicate Descending(cs: seq<Cell>) { forall i, j :: 0 <= i < j < |cs| ==> cs[i].ts > cs[j].ts }

  predicate HasTs(cs: seq<Cell>, t: int) { exists i :: 0 <= i < |cs| && cs[i].ts == t }

  /** The cell goes in at its timestamp, in place of one that has the same. */
  function Put(cs: seq<Cell>, c: Cell): (r: seq<Cell>) {
    if cs == [] || cs[0].ts < c.ts then [c] + cs
    else if cs[0].ts == c.ts then [c] + cs[1..]
    else [cs[0]] + Put(cs[1..], c)
  }

  lemma {:induction false} PutTimes(cs: seq<Cell>, c: Cell, t: int)
    ensures HasTs(Put(cs, c), t) <==> t == c.ts || HasTs(cs, t)
  {
    var r := Put(cs, c);
    if cs == [] || cs[0].ts < c.ts {
      assert r[0] == c && forall i :: 0 <= i < |cs| ==> r[i + 1] == cs[i];
    } else if cs[0].ts == c.ts {
      assert r[0] == c && forall i :: 1 <= i < |cs| ==> r[i] == cs[i];
    } else {
      PutTimes(cs[1..], c, t);
      assert r == [cs[0]] + Put(cs[1..], c) && cs == [cs[0]] + cs[1..];
      HasTsHead(r, t);
      HasTsHead(cs, t);
    }
  }

  lemma HasTsHead(cs: seq<Cell>, t: int)
    requires cs != []
    ensures HasTs(cs, t) <==> cs[0].ts == t || HasTs(cs[1..], t)
  {
    if i :| 0 <= i < |cs[1..]| && cs[1..][i].ts == t { assert cs[i + 1].ts == t; }
  }

  lemma {:induction false} PutDescends(cs: seq<Cell>, c: Cell)
    requires Descending(cs)
    ensures Descending(Put(cs, c))
  {
    if cs != [] && cs[0].ts > c.ts {
      PutDescends(cs[1..], c);
      var rest := Put(cs[1..], c);
      forall j | 0 <= j < |rest| ensures cs[0].ts > rest[j].ts {
        PutTimes(cs[1..], c, rest[j].ts);
        assert HasTs(rest, rest[j].ts);
      }
    }
  }

  /** Where the cell goes, by position. */
  lemma {:induction false} PutAt(cs: seq<Cell>, c: Cell, k: nat)
    requires Descending(cs) && k <= |cs|
    requires forall i :: 0 <= i < k ==> cs[i].ts > c.ts
    requires k < |cs| ==> cs[k].ts <= c.ts
    ensures Put(cs, c) == cs[..k] + [c] + After(cs, c, k)
  {
    if k > 0 {
      var rest := cs[1..];
      PutAt(rest, c, k - 1);
      assert After(rest, c, k - 1) == After(cs, c, k);
      assert cs[..k] == [cs[0]] + rest[..k - 1];
      assert Put(cs, c) == [cs[0]] + (rest[..k - 1] + [c] + After(cs, c, k));
    }
  }

  function After(cs: seq<Cell>, c: Cell, k: nat): seq<Cell>
    requires k <= |cs|
  {
    if k < |cs| && cs[k].ts == c.ts then cs[k + 1..] else cs[k..]
  }

  lemma {:induction false} PutHolds(cs: seq<Cell>, c: Cell, d: Cell)
    requires Descending(cs)
    ensures d in Put(cs, c) <==> d == c || (d in cs && d.ts != c.ts)
    decreases |cs|
  {
    if cs != [] && cs[0].ts > c.ts {
      PutHolds(cs[1..], c, d);
      assert cs == [cs[0]] + cs[1..];
    } else if cs != [] && cs[0].ts == c.ts {
      assert cs == [cs[0]] + cs[1..];
    }
  }

  /** A replaced cell stays where it was; a new one is sorted in. */
  method AppendOrReplaceCell(cs: seq<Cell>, c: Cell) returns (r: seq<Cell>)
    requires Descending(cs)
    ensures r == Put(cs, c)
  {
    var i := 0;
    while i < |cs|
      invariant 0 <= i <= |cs| && forall j :: 0 <= j < i ==> cs[j].ts != c.ts
    {
      if cs[i].ts == c.ts {
        PutAt(cs, c, i);
        r := cs[i := c];
        assert r == cs[..i] + [c] + cs[i + 1..];
        return;
      }
      i := i + 1;
    }
    var k := |cs|;
    while k > 0 && cs[k - 1].ts < c.ts
      invariant 0 <= k <= |cs| && (k < |cs| ==> cs[k].ts < c.ts)
    {
      k := k - 1;
    }
    PutAt(cs, c, k);
    r := cs[..k] + [c] + cs[k..];
  }

  // ---- deleting a time range; end 0 is no end ----

  predicate InTimeRange(t: int, start: int, end: int) { start <= t && (end == 0 || t < end) }

  function Erase(cs: seq<Cell>, start: int, end: int): (r: seq<Cell>) {
    if cs == [] then []
    else if InTimeRange(cs[0].ts, start, end) then Erase(cs[1..], start, end)
    else [cs[0]] + Erase(cs[1..], start, end)
  }

  lemma {:induction false} EraseHolds(cs: seq<Cell>, start: int, end: int)
    ensures forall d :: d in Erase(cs, start, end) <==> d in cs && !InTimeRange(d.ts, start, end)
  {
    if cs != [] {
      EraseHolds(cs[1..], start, end);
      assert cs == [cs[0]] + cs[1..];
    }
  }

  lemma {:induction false} EraseDescends(cs: seq<Cell>, start: int, end: int)
    requires Descending(cs)
    ensures Descending(Erase(cs, start, end))
  {
    if cs != [] {
      EraseDescends(cs[1..], start, end);
      EraseHolds(cs[1..], start, end);
      var rest := Erase(cs[1..], start, end);
      forall j | 0 <= j < |rest| ensures cs[0].ts > rest[j].ts { assert rest[j] in cs[1..]; }
    }
  }

  lemma {:induction false} EraseAppend(a: seq<Cell>, b: seq<Cell>, start: int, end: int)
    ensures Erase(a + b, start, end) == Erase(a, start, end) + Erase(b, start, end)
  {
    if a == [] {
      assert a + b == b;
    } else {
      EraseAppend(a[1..], b, start, end);
      assert (a + b)[1..] == a[1..] + b;
    }
  }

  method EraseRange(cs: seq<Cell>, start: int, end: int) returns (kept: seq<Cell>)
    ensures kept == Erase(cs, start, end)
  {
    kept := [];
    var i := 0;
    while i < |cs|
      invariant 0 <= i <= |cs| && kept == Erase(cs[..i], start, end)
    {
      assert cs[..i + 1] == cs[..i] + [cs[i]];
      EraseAppend(cs[..i], [cs[i]], start, end);
      if !InTimeRange(cs[i].ts, start, end) {
        kept := kept + [cs[i]];
      }
      i := i + 1;
    }
    assert cs[..i] == cs;
  }

  // ---- stable sorting, newest first ----

  /** Each cell goes behind those not older than it. */
  function InsertStable(r: seq<Cell>, x: Cell): (s: seq<Cell>) {
    if r == [] || r[|r| - 1].ts >= x.ts then r + [x]
    else InsertStable(r[..|r| - 1], x) + [r[|r| - 1]]
  }

  function StableDesc(cs: seq<Cell>): (r: seq<Cell>) {
    if cs == [] then [] else InsertStable(StableDesc(cs[..|cs| - 1]), cs[|cs| - 1])
  }

  predicate WeaklyDescending(cs: seq<Cell>) { forall i, j :: 0 <= i < j < |cs| ==> cs[i].ts >= cs[j].ts }

  /** A column in order is left as it is. */
  lemma {:induction false} StableOfDescending(cs: seq<Cell>)
    requires WeaklyDescending(cs)
    ensures StableDesc(cs) == cs
  {
    if cs != [] { StableOfDescending(cs[..|cs| - 1]); }
  }

  lemma {:induction false} InsertStableAt(r: seq<Cell>, x: Cell, k: nat)
    requires k <= |r| && (k > 0 ==> r[k - 1].ts >= x.ts) && forall i :: k <= i < |r| ==> r[i].ts < x.ts
    ensures InsertStable(r, x) == r[..k] + [x] + r[k..]
  {
    if k < |r| {
      var init := r[..|r| - 1];
      InsertStableAt(init, x, k);
      assert init[..k] == r[..k] && r[k..] == init[k..] + [r[|r| - 1]];
    } else {
      assert r[..k] == r && r[k..] == [];
    }
  }

  method SortStable(cs: seq<Cell>) returns (r: seq<Cell>)
    ensures r == StableDesc(cs)
  {
    r := [];
    var i := 0;
    while i < |cs|
      invariant 0 <= i <= |cs| && r == StableDesc(cs[..i])
    {
      var k := |r|;
      while k > 0 && r[k - 1].ts < cs[i].ts
        invariant 0 <= k <= |r| && forall j :: k <= j < |r| ==> r[j].ts < cs[i].ts
      {
        k := k - 1;
      }
      InsertStableAt(r, cs[i], k);
      assert cs[..i + 1][..i] == cs[..i];
      r := r[..k] + [cs[i]] + r[k..];
      i := i + 1;
    }
    assert cs[..i] == cs;
  }

  lemma {:induction false} InsertStableKeeps(r: seq<Cell>, x: Cell)
    ensures multiset(InsertStable(r, x)) == multiset(r) + multiset{x}
  {
    if r != [] && r[|r| - 1].ts < x.ts {
      InsertStableKeeps(r[..|r| - 1], x);
      assert r == r[..|r| - 1] + [r[|r| - 1]];
    }
  }

  lemma {:induction false} InsertStableAbove(r: seq<Cell>, x: Cell, t: int)
    requires x.ts >= t && forall i :: 0 <= i < |r| ==> r[i].ts >= t
    ensures forall i :: 0 <= i < |InsertStable(r, x)| ==> InsertStable(r, x)[i].ts >= t
  {
    if r != [] && r[|r| - 1].ts < x.ts { InsertStableAbove(r[..|r| - 1], x, t); }
  }

  lemma {:induction false} InsertStableSorts(r: seq<Cell>, x: Cell)
    requires WeaklyDescending(r)
    ensures WeaklyDescending(InsertStable(r, x))
  {
    if r != [] && r[|r| - 1].ts < x.ts {
      InsertStableSorts(r[..|r| - 1], x);
      InsertStableAbove(r[..|r| - 1], x, r[|r| - 1].ts);
    }
  }

  lemma {:induction false} StableDescends(cs: seq<Cell>)
    ensures WeaklyDescending(StableDesc(cs)) && multiset(StableDesc(cs)) == multiset(cs)
  {
    if cs != [] {
      var init, last := cs[..|cs| - 1], cs[|cs| - 1];
      StableDescends(init);
      InsertStableSorts(StableDesc(init), last);
      InsertStableKeeps(StableDesc(init), last);
      assert cs == init + [last];
    }
  }

  /** Sorting part of a column first does not change the sorted whole. */
  lemma {:induction false} StableTwice(a: seq<Cell>, b: seq<Cell>)
    ensures StableDesc(StableDesc(a) + b) == StableDesc(a + b)
    decreases |b|
  {
    var sorted := StableDesc(a);
    if b == [] {
      assert a + b == a && sorted + b == sorted;
      StableDescends(a);
      StableOfDescending(sorted);
    } else {
      var init, last := b[..|b| - 1], b[|b| - 1];
      StableTwice(a, init);
      StableSnoc(a + init, last);
      StableSnoc(sorted + init, last);
      SnocLast(a, b);
      SnocLast(sorted, b);
    }
  }

  lemma SnocLast(a: seq<Cell>, b: seq<Cell>)
    requires b != []
    ensures a + b == a + b[..|b| - 1] + [b[|b| - 1]]
  {
  }

  lemma StableSnoc(a: seq<Cell>, x: Cell)
    ensures StableDesc(a + [x]) == InsertStable(StableDesc(a), x)
  {
    assert (a + [x])[..|a|] == a;
  }

  // ---- a stable sort is determined by its ties ----

  /** The cells of one time, in order. */
  function AtTime(cs: seq<Cell>, t: int): (r: seq<Cell>) {
    if cs == [] then [] else if cs[0].ts == t then [cs[0]] + AtTime(cs[1..], t) else AtTime(cs[1..], t)
  }

  lemma {:induction false} AtTimeAppend(a: seq<Cell>, b: seq<Cell>, t: int)
    ensures AtTime(a + b, t) == AtTime(a, t) + AtTime(b, t)
  {
    if a == [] {
      assert a + b == b;
    } else {
      AtTimeAppend(a[1..], b, t);
      assert (a + b)[1..] == a[1..] + b;
    }
  }

  lemma {:induction false} AtTimeInsert(r: seq<Cell>, x: Cell, t: int)
    ensures AtTime(InsertStable(r, x), t) == AtTime(r, t) + AtTime([x], t)
  {
    if r != [] && r[|r| - 1].ts < x.ts {
      var init, last := r[..|r| - 1], r[|r| - 1];
      AtTimeInsert(init, x, t);
      AtTimeAppend(InsertStable(init, x), [last], t);
      AtTimeAppend(init, [last], t);
      assert r == init + [last];
    } else {
      AtTimeAppend(r, [x], t);
    }
  }

  /** Cells of the same time keep their order. */
  lemma {:induction false} StableKeepsTies(cs: seq<Cell>, t: int)
    ensures AtTime(StableDesc(cs), t) == AtTime(cs, t)
  {
    if cs != [] {
      var init, last := cs[..|cs| - 1], cs[|cs| - 1];
      StableKeepsTies(init, t);
      AtTimeInsert(StableDesc(init), last, t);
      AtTimeAppend(init, [last], t);
      assert cs == init + [last];
    }
  }

  lemma {:induction false} DescendingByTies(a: seq<Cell>, b: seq<Cell>)
    requires WeaklyDescending(a) && WeaklyDescending(b) && |a| == |b| && forall t :: AtTime(a, t) == AtTime(b, t)
    ensures a == b
  {
    if a != [] {
      assert AtTime(a, a[0].ts) == AtTime(b, a[0].ts);
      assert AtTime(a, b[0].ts) == AtTime(b, b[0].ts);
      NewestFirst(a, b);
      forall t ensures AtTime(a[1..], t) == AtTime(b[1..], t) {
        assert AtTime(a, t) == AtTime(b, t);
        assert a[0].ts == t ==> AtTime(a, t)[1..] == AtTime(a[1..], t) && AtTime(b, t)[1..] == AtTime(b[1..], t);
      }
      DescendingByTies(a[1..], b[1..]);
      assert a == [a[0]] + a[1..] && b == [b[0]] + b[1..];
    }
  }

  lemma NewestFirst(a: seq<Cell>, b: seq<Cell>)
    requires a != [] && b != [] && WeaklyDescending(a) && WeaklyDescending(b)
    requires AtTime(a, a[0].ts) == AtTime(b, a[0].ts) && AtTime(a, b[0].ts) == AtTime(b, b[0].ts)
    ensures a[0] == b[0]
  {
    AtTimeIsThere(b, a[0].ts);
    AtTimeIsThere(a, b[0].ts);
    assert a[0].ts == b[0].ts;
    assert AtTime(a, a[0].ts)[0] == a[0] && AtTime(b, b[0].ts)[0] == b[0];
  }

  lemma {:induction false} AtTimeIsThere(cs: seq<Cell>, t: int)
    ensures AtTime(cs, t) != [] ==> exists i :: 0 <= i < |cs| && cs[i].ts == t
  {
    if cs != [] && cs[0].ts != t { AtTimeIsThere(cs[1..], t); }
  }

  /** Sorting the second part first does not change the sorted whole either. */
  lemma StableOfParts(a: seq<Cell>, b: seq<Cell>)
    ensures StableDesc(a + StableDesc(b)) == StableDesc(a + b)
  {
    var x, y := StableDesc(a + StableDesc(b)), StableDesc(a + b);
    StableDescends(a + StableDesc(b));
    StableDescends(a + b);
    forall t ensures AtTime(x, t) == AtTime(y, t) {
      StableKeepsTies(a + StableDesc(b), t);
      StableKeepsTies(a + b, t);
      StableKeepsTies(b, t);
      AtTimeAppend(a, StableDesc(b), t);
      AtTimeAppend(a, b, t);
    }
    assert |x| == |multiset(x)| == |a| + |multiset(StableDesc(b))| && |y| == |multiset(y)|;
    StableDescends(b);
    DescendingByTies(x, y);
  }
}
