/** Commits and their change records: folding the records rebuilds the rows. */
module Replay {
  import opened Basics
  import opened Lex
  import opened Names
  import opened Columns
  import opened Gc
  import opened Mutations

  // ---- user changes ----

  lemma {:induction false} ApplyAllConcat(c: Content, a: seq<Mutation>, b: seq<Mutation>, s: Schema, now: int)
    ensures var d := ApplyAll(c, a, s, now);
            ApplyAll(c, a + b, s, now) == if d.None? then None else ApplyAll(d.value, b, s, now)
    decreases |b|
  {
    if b == [] {
      assert a + b == a;
    } else {
      ApplyAllConcat(c, a, b[..|b| - 1], s, now);
      assert (a + b)[..|a + b| - 1] == a + b[..|b| - 1];
    }
  }

  function Without(c: Content, fams: seq<Name>): Content { map k | k in c && k.0 !in fams :: c[k] }

  lemma WithoutOneMore(c: Content, fams: seq<Name>, fam: Name)
    ensures DropFamily(Without(c, fams), fam) == Without(c, fams + [fam])
  {
  }

  lemma {:induction false} DropsReplay(c: Content, fams: seq<Name>, s: Schema, now: int)
    ensures ApplyAll(c, Drops(fams), s, now) == Some(Without(c, fams))
  {
    if fams == [] {
      assert Without(c, fams) == c;
    } else {
      var init := fams[..|fams| - 1];
      DropsReplay(c, init, s, now);
      assert Drops(fams)[..|fams| - 1] == Drops(init);
      WithoutOneMore(c, init, fams[|fams| - 1]);
      assert fams == init + [fams[|fams| - 1]];
    }
  }

  lemma ResolvedIsFixed(s: Schema, ts: int, auto: bool, now: int, t: int)
    requires ts == -1 || ValidTs(s, Resolve(s, ts, auto, 0))
    requires ValidTs(s, now)
    ensures var r := Resolve(s, ts, auto, now); ValidTs(s, r) && Resolve(s, r, false, t) == r
  {
  }

  /** Applying what was recorded does what the mutation did. */
  lemma ChangeReplays(c: Content, m: Mutation, s: Schema, now: int, t: int)
    requires ValidMutation(m, s) && ValidTs(s, now)
    ensures ApplyAll(c, Changes(c, m, s, now), s, t) == Apply(c, m, s, now)
  {
    match m
    case SetCell(fam, col, ts, value, auto) =>
      ResolvedIsFixed(s, ts, auto, now, t);
      OneReplay(c, SetCell(fam, col, Resolve(s, ts, auto, now), value, false), s, t);
    case DeleteFromRow =>
      var fams := Arrange(FamiliesIn(c), OrderOf(s));
      DropsReplay(c, fams, s, t);
      forall k | k in c ensures k.0 in fams { assert k.0 in Elements(fams); }
      assert Without(c, fams).Keys == {};
    case DeleteFromColumn(_, _, _) => OneReplay(c, m, s, t);
    case DeleteFromFamily(_) => OneReplay(c, m, s, t);
    case Aggregate(_, _, _, _, _, _) => OneReplay(c, m, s, t);
  }

  lemma OneReplay(c: Content, m: Mutation, s: Schema, t: int)
    ensures ApplyAll(c, [m], s, t) == Apply(c, m, s, t)
  {
    assert [m][..0] == [];
  }

  lemma {:induction false} UserChangesReplay(c: Content, ms: seq<Mutation>, s: Schema, now: int, t: int)
    requires ValidTs(s, now) && ApplyAll(c, ms, s, now).Some? && forall i :: 0 <= i < |ms| ==> ValidMutation(ms[i], s)
    ensures ApplyAll(c, AllChanges(c, ms, s, now), s, t) == ApplyAll(c, ms, s, now)
  {
    if ms != [] {
      var init, m := ms[..|ms| - 1], ms[|ms| - 1];
      var d := ApplyAll(c, init, s, now).value;
      UserChangesReplay(c, init, s, now, t);
      ChangeReplays(d, m, s, now, t);
      ApplyAllConcat(c, AllChanges(c, init, s, now), Changes(d, m, s, now), s, t);
    }
  }

  // ---- garbage-collection changes ----

  /** One deletion per removed cell, over `[ts, ts+1000)` in 64-bit arithmetic. */
  function GcRecord(k: Column, ts: int): Mutation { DeleteFromColumn(k.0, k.1, Some((ts, Wrap(ts + 1000)))) }

  function Removed(c: Content, k: Column, s: Schema, now: int): seq<Cell> { Get(c, k)[|Kept(c, k, s, now)|..] }

  function ColumnRecords(k: Column, cs: seq<Cell>): (r: seq<Mutation>)
    ensures |r| == |cs| && forall i :: 0 <= i < |r| ==> r[i] == GcRecord(k, cs[i].ts)
  {
    seq(|cs|, i requires 0 <= i < |cs| => GcRecord(k, cs[i].ts))
  }

  ghost function ColumnsIn(c: Content, fam: Name): set<Name> { set k | k in c && k.0 == fam :: k.1 }

  function Pairs(fam: Name, cols: seq<Name>): (r: seq<Column>)
    ensures |r| == |cols| && forall i :: 0 <= i < |r| ==> r[i] == (fam, cols[i])
  {
    seq(|cols|, i requires 0 <= i < |cols| => (fam, cols[i]))
  }

  ghost function ColumnsOf(c: Content, fams: seq<Name>): seq<Column> {
    if fams == [] then []
    else
      var fam := fams[|fams| - 1];
      ColumnsOf(c, fams[..|fams| - 1]) + Pairs(fam, Arrange(ColumnsIn(c, fam), ByName))
  }

  /** Families in creation order, columns by name. */
  ghost function ColumnOrder(c: Content, s: Schema): seq<Column> { ColumnsOf(c, Arrange(FamiliesIn(c), OrderOf(s))) }

  lemma {:induction false} ColumnsOfAre(c: Content, fams: seq<Name>)
    ensures forall k :: k in ColumnsOf(c, fams) <==> k in c && k.0 in fams
  {
    if fams != [] {
      var init, fam := fams[..|fams| - 1], fams[|fams| - 1];
      var cols := Arrange(ColumnsIn(c, fam), ByName);
      ColumnsOfAre(c, init);
      assert fams == init + [fam];
      forall k ensures k in Pairs(fam, cols) <==> k in c && k.0 == fam {
        assert k.1 in Elements(cols) <==> k.1 in ColumnsIn(c, fam);
        if k in c && k.0 == fam {
          assert k.1 in ColumnsIn(c, fam);
          var i :| 0 <= i < |cols| && cols[i] == k.1;
          assert Pairs(fam, cols)[i] == k;
        }
      }
    }
  }

  lemma ColumnOrderIsAll(c: Content, s: Schema)
    ensures forall k :: k in ColumnOrder(c, s) <==> k in c
  {
    var fams := Arrange(FamiliesIn(c), OrderOf(s));
    ColumnsOfAre(c, fams);
    forall k | k in c ensures k.0 in fams { assert k.0 in Elements(fams); }
  }

  ghost function RecordsFor(c: Content, ks: seq<Column>, s: Schema, now: int): seq<Mutation> {
    if ks == [] then []
    else
      var k := ks[|ks| - 1];
      RecordsFor(c, ks[..|ks| - 1], s, now) + ColumnRecords(k, Removed(c, k, s, now))
  }

  ghost function GcRecords(c: Content, s: Schema, now: int): seq<Mutation> { RecordsFor(c, ColumnOrder(c, s), s, now) }

  /** `m` is the record of a cell removed from column `k`. */
  ghost predicate Records(m: Mutation, c: Content, k: Column, s: Schema, now: int) {
    m in ColumnRecords(k, Removed(c, k, s, now))
  }

  lemma {:induction false} RecordsForAre(c: Content, ks: seq<Column>, s: Schema, now: int, m: Mutation)
    ensures m in RecordsFor(c, ks, s, now) <==> exists k :: k in ks && Records(m, c, k, s, now)
  {
    if ks != [] {
      var init, last := ks[..|ks| - 1], ks[|ks| - 1];
      RecordsForAre(c, init, s, now, m);
      assert ks == init + [last];
      assert m in RecordsFor(c, ks, s, now) <==> m in RecordsFor(c, init, s, now) || Records(m, c, last, s, now);
      if k :| k in init && Records(m, c, k, s, now) { assert k in ks; }
    }
  }

  /** The records are exactly those of the removed cells. */
  lemma GcRecordsAre(c: Content, s: Schema, now: int)
    ensures forall m :: m in GcRecords(c, s, now) <==> exists k :: k in c && Records(m, c, k, s, now)
  {
    ColumnOrderIsAll(c, s);
    forall m ensures m in GcRecords(c, s, now) <==> exists k :: k in c && Records(m, c, k, s, now) {
      RecordsForAre(c, ColumnOrder(c, s), s, now, m);
    }
  }

  // ---- replaying deletions ----

  predicate Deletion(m: Mutation) { m.DeleteFromColumn? && m.range.Some? }

  /** The deletion `m` covers time `t` of column `k`. */
  predicate Covers(m: Mutation, k: Column, t: int)
    requires Deletion(m)
  {
    (m.fam, m.col) == k && InTimeRange(t, m.range.value.0, m.range.value.1)
  }

  predicate Deletions(log: seq<Mutation>) { forall i :: 0 <= i < |log| ==> Deletion(log[i]) }

  predicate Spared(log: seq<Mutation>, k: Column, t: int)
    requires Deletions(log)
  {
    forall i :: 0 <= i < |log| ==> !Covers(log[i], k, t)
  }

  ghost predicate Cells(c: Content, s: Schema) { forall k :: k in c ==> GoodColumn(c[k], s) }

  lemma DeletionReplays(c: Content, m: Mutation, s: Schema, now: int)
    requires Deletion(m) && Cells(c, s)
    ensures Apply(c, m, s, now).Some? && Cells(Apply(c, m, s, now).value, s)
    ensures forall k, x :: x in Get(Apply(c, m, s, now).value, k) <==> x in Get(c, k) && !Covers(m, k, x.ts)
  {
    var k := (m.fam, m.col);
    EraseHolds(Get(c, k), m.range.value.0, m.range.value.1);
    if k in c { EraseIsGood(c[k], m.range.value.0, m.range.value.1, s); }
  }

  lemma {:induction false} DeletionsReplay(c: Content, log: seq<Mutation>, s: Schema, now: int)
    requires Deletions(log) && Cells(c, s)
    ensures ApplyAll(c, log, s, now).Some? && Cells(ApplyAll(c, log, s, now).value, s)
    ensures forall k, x :: x in Get(ApplyAll(c, log, s, now).value, k) <==> x in Get(c, k) && Spared(log, k, x.ts)
  {
    if log != [] {
      var init, m := log[..|log| - 1], log[|log| - 1];
      DeletionsReplay(c, init, s, now);
      var d := ApplyAll(c, init, s, now).value;
      DeletionReplays(d, m, s, now);
      forall k: Column, t: int ensures Spared(log, k, t) <==> Spared(init, k, t) && !Covers(m, k, t) {
        assert log == init + [m];
      }
    }
  }

  // ---- replaying a collection ----

  lemma {:induction false} DescendingSame(a: seq<Cell>, b: seq<Cell>)
    requires Descending(a) && Descending(b) && forall x :: x in a <==> x in b
    ensures a == b
  {
    if a == [] {
      assert forall i :: 0 <= i < |b| ==> b[i] in a;
    } else {
      assert a[0] in b;
      assert b[0] in a;
      assert a[0] == b[0];
      assert a == [a[0]] + a[1..] && b == [b[0]] + b[1..];
      forall x ensures x in a[1..] <==> x in b[1..] {
        assert x in a <==> x == a[0] || x in a[1..];
        assert x in b <==> x == b[0] || x in b[1..];
      }
      DescendingSame(a[1..], b[1..]);
    }
  }

  /** On millisecond timestamps a record covers its own cell and no other, and not even that when the
      end of its range does not fit 64 bits. */
  lemma RecordCovers(k: Column, r: int, t: int, s: Schema)
    requires !s.micros && ValidTs(s, r) && ValidTs(s, t)
    ensures Covers(GcRecord(k, r), k, t) <==> t == r && r + 1000 <= MAX_INT64
  {
    var end := Wrap(r + 1000);
    assert end == if r + 1000 <= MAX_INT64 then r + 1000 else r + 1000 - TWO64;
  }

  lemma KeptOrRemoved(c: Content, k: Column, s: Schema, now: int, x: Cell)
    requires Descending(Get(c, k)) && x in Get(c, k)
    ensures x in Removed(c, k, s, now) <==> x !in Kept(c, k, s, now)
  {
    var cs, n := Get(c, k), |Kept(c, k, s, now)|;
    assert cs == cs[..n] + cs[n..];
  }

  lemma CoveredIsRemoved(c: Content, k: Column, s: Schema, now: int, x: Cell, m: Mutation)
    requires !s.micros && GoodRow(c, s) && x in Get(c, k) && m in GcRecords(c, s, now)
    requires Deletion(m) && Covers(m, k, x.ts)
    ensures x in Removed(c, k, s, now) && x.ts + 1000 <= MAX_INT64
  {
    var j, y := RecordedCell(c, s, now, m);
    InColumn(c[j], y, s);
    InColumn(c[k], x, s);
    RecordCovers(k, y.ts, x.ts, s);
    SameTime(c[k], y, x);
  }

  lemma RecordedCell(c: Content, s: Schema, now: int, m: Mutation) returns (j: Column, y: Cell)
    requires m in GcRecords(c, s, now)
    ensures j in c && y in Removed(c, j, s, now) && y in c[j] && m == GcRecord(j, y.ts) && (m.fam, m.col) == j
  {
    GcRecordsAre(c, s, now);
    j :| j in c && Records(m, c, j, s, now);
    var gone := Removed(c, j, s, now);
    var n :| 0 <= n < |gone| && m == ColumnRecords(j, gone)[n];
    y := gone[n];
  }

  lemma InColumn(cs: seq<Cell>, x: Cell, s: Schema)
    requires GoodColumn(cs, s) && x in cs
    ensures ValidTs(s, x.ts)
  {
  }

  lemma RemovedIsRecorded(c: Content, k: Column, s: Schema, now: int, x: Cell)
    requires k in c && x in Removed(c, k, s, now)
    ensures GcRecord(k, x.ts) in GcRecords(c, s, now)
  {
    var gone := Removed(c, k, s, now);
    var n :| 0 <= n < |gone| && gone[n] == x;
    assert ColumnRecords(k, gone)[n] == GcRecord(k, x.ts);
    GcRecordsAre(c, s, now);
    assert Records(GcRecord(k, x.ts), c, k, s, now);
  }

  lemma SparedIff(c: Content, k: Column, s: Schema, now: int, x: Cell)
    requires !s.micros && GoodRow(c, s) && x in Get(c, k) && Deletions(GcRecords(c, s, now))
    ensures Spared(GcRecords(c, s, now), k, x.ts) <==> x in Kept(c, k, s, now) || x.ts + 1000 > MAX_INT64
  {
    var log := GcRecords(c, s, now);
    KeptOrRemoved(c, k, s, now, x);
    forall i | 0 <= i < |log| && Covers(log[i], k, x.ts)
      ensures x in Removed(c, k, s, now) && x.ts + 1000 <= MAX_INT64
    {
      CoveredIsRemoved(c, k, s, now, x, log[i]);
    }
    if x in Removed(c, k, s, now) && x.ts + 1000 <= MAX_INT64 {
      RemovedIsRecorded(c, k, s, now, x);
      RecordCovers(k, x.ts, x.ts, s);
    }
  }

  lemma SameTime(cs: seq<Cell>, a: Cell, b: Cell)
    requires Descending(cs) && a in cs && b in cs && a.ts == b.ts
    ensures a == b
  {
  }

  lemma RecordsAreDeletions(c: Content, s: Schema, now: int)
    ensures Deletions(GcRecords(c, s, now))
  {
    GcRecordsAre(c, s, now);
    var log := GcRecords(c, s, now);
    forall i | 0 <= i < |log| ensures Deletion(log[i]) {
      assert log[i] in log;
      var k :| k in c && Records(log[i], c, k, s, now);
    }
  }

  /** Every removed cell is recorded with a range that fits 64 bits. */
  ghost predicate RangesFit(c: Content, s: Schema, now: int) {
    forall k, x :: k in c && x in Removed(c, k, s, now) ==> x.ts + 1000 <= MAX_INT64
  }

  /** Replaying the records of a collection gives the collected row exactly when the ranges fit: the
      only valid millisecond timestamp whose range does not is the greatest one. */
  lemma CollectionReplays(c: Content, s: Schema, now: int, t: int)
    requires !s.micros && GoodRow(c, s)
    ensures ApplyAll(c, GcRecords(c, s, now), s, t).Some?
    ensures ApplyAll(c, GcRecords(c, s, now), s, t).value == CollectRow(c, s, now) <==> RangesFit(c, s, now)
  {
    var log, want := GcRecords(c, s, now), CollectRow(c, s, now);
    RecordsAreDeletions(c, s, now);
    DeletionsReplay(c, log, s, t);
    var d := ApplyAll(c, log, s, t).value;
    if RangesFit(c, s, now) {
      forall k ensures Get(d, k) == Get(want, k) { ColumnReplays(c, d, k, s, now); }
      SameColumns(d, want);
    }
    if k, x :| k in c && x in Removed(c, k, s, now) && x.ts + 1000 > MAX_INT64 {
      assert x in c[k];
      SparedIff(c, k, s, now, x);
      KeptOrRemoved(c, k, s, now, x);
      CollectRowGets(c, s, now, k);
      assert x in Get(d, k) && x !in Get(want, k);
    }
  }

  lemma ColumnReplays(c: Content, d: Content, k: Column, s: Schema, now: int)
    requires !s.micros && GoodRow(c, s) && Cells(d, s) && RangesFit(c, s, now) && Deletions(GcRecords(c, s, now))
    requires forall x :: x in Get(d, k) <==> x in Get(c, k) && Spared(GcRecords(c, s, now), k, x.ts)
    ensures Get(d, k) == Get(CollectRow(c, s, now), k)
  {
    CollectRowGets(c, s, now, k);
    forall x ensures x in Get(d, k) <==> x in Kept(c, k, s, now) {
      if x in Get(c, k) {
        SparedIff(c, k, s, now, x);
        KeptOrRemoved(c, k, s, now, x);
      }
    }
    DescendingSame(Get(d, k), Kept(c, k, s, now));
  }
}
