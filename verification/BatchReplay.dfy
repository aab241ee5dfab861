/** When the log of a batch rebuilds its rows. Entries of one key log all their user changes before all
    their collections, so a cell that was collected and written again is deleted by the log. */
module BatchReplay {
  import opened Basics
  import opened Lex
  import opened Names
  import opened Columns
  import opened Gc
  import opened Mutations
  import opened Replay
  import opened Writes
  import opened Batches

  // ---- the row and what its user changes alone give ----

  /** Away from the cells that collections have recorded, both rows hold the same cells. */
  ghost predicate SameBut(c: Content, u: Content, gc: seq<Mutation>, s: Schema) {
    && Deletions(gc) && GoodRow(c, s) && GoodRow(u, s)
    && forall k, x :: SameAt(c, u, gc, k, x)
  }

  ghost predicate SameAt(c: Content, u: Content, gc: seq<Mutation>, k: Column, x: Cell)
    requires Deletions(gc)
  {
    Spared(gc, k, x.ts) ==> (x in Get(c, k) <==> x in Get(u, k))
  }

  lemma PutSame(a: seq<Cell>, b: seq<Cell>, y: Cell, x: Cell)
    requires Descending(a) && Descending(b) && (x in a <==> x in b)
    ensures x in Put(a, y) <==> x in Put(b, y)
  {
    PutHolds(a, y, x);
    PutHolds(b, y, x);
  }

  lemma SetSame(c: Content, u: Content, gc: seq<Mutation>, s: Schema, m: Mutation)
    requires SameBut(c, u, gc, s) && m.SetCell? && ValidMutation(m, s)
    ensures SameBut(Apply(c, m, s, 0).value, Apply(u, m, s, 0).value, gc, s)
  {
    var j, y := (m.fam, m.col), Cell(Resolve(s, m.ts, m.auto, 0), m.value, []);
    ApplyKeepsRowGood(c, m, s, 0);
    ApplyKeepsRowGood(u, m, s, 0);
    ColumnIsGood(c, j, s);
    ColumnIsGood(u, j, s);
    var c', u' := Apply(c, m, s, 0).value, Apply(u, m, s, 0).value;
    forall k, x ensures SameAt(c', u', gc, k, x) {
      assert SameAt(c, u, gc, k, x);
      if k == j && Spared(gc, k, x.ts) { PutSame(Get(c, j), Get(u, j), y, x); }
    }
  }

  lemma DeleteSame(c: Content, u: Content, gc: seq<Mutation>, s: Schema, m: Mutation)
    requires SameBut(c, u, gc, s) && (m.DeleteFromColumn? || m.DeleteFromFamily?) && ValidMutation(m, s)
    ensures SameBut(Apply(c, m, s, 0).value, Apply(u, m, s, 0).value, gc, s)
  {
    ApplyKeepsRowGood(c, m, s, 0);
    ApplyKeepsRowGood(u, m, s, 0);
    var c', u' := Apply(c, m, s, 0).value, Apply(u, m, s, 0).value;
    forall k, x ensures SameAt(c', u', gc, k, x) {
      assert SameAt(c, u, gc, k, x);
      DeleteHolds(c, m, s, k, x);
      DeleteHolds(u, m, s, k, x);
    }
  }

  /** The cells that a deletion takes. */
  predicate Takes(m: Mutation, k: Column, t: int) {
    || (m.DeleteFromFamily? && k.0 == m.fam)
    || (m.DeleteFromColumn? && k == (m.fam, m.col) && (m.range.Some? ==> InTimeRange(t, m.range.value.0, m.range.value.1)))
  }

  lemma DeleteHolds(c: Content, m: Mutation, s: Schema, k: Column, x: Cell)
    requires m.DeleteFromColumn? || m.DeleteFromFamily?
    ensures x in Get(Apply(c, m, s, 0).value, k) <==> x in Get(c, k) && !Takes(m, k, x.ts)
  {
    if m.DeleteFromColumn? && m.range.Some? { EraseHolds(Get(c, (m.fam, m.col)), m.range.value.0, m.range.value.1); }
  }

  lemma ValueSame(a: seq<Cell>, b: seq<Cell>, t: int)
    requires Descending(a) && Descending(b) && forall x: Cell :: x.ts == t ==> (x in a <==> x in b)
    ensures ValueAt(a, t) == ValueAt(b, t)
  {
    var v, w := ValueAt(a, t), ValueAt(b, t);
    if v.Some? { assert v.value in b && HasTs(b, t); }
    if w.Some? { assert w.value in a && HasTs(a, t); }
  }

  lemma AggregateSame(c: Content, u: Content, gc: seq<Mutation>, s: Schema, m: Mutation)
    requires SameBut(c, u, gc, s) && m.Aggregate? && ValidMutation(m, s)
    requires Apply(c, m, s, 0).Some? && Apply(u, m, s, 0).Some?
    ensures SameBut(Apply(c, m, s, 0).value, Apply(u, m, s, 0).value, gc, s)
  {
    var j, t, kind := (m.fam, m.col), Resolve(s, m.ts, m.auto, 0), s.families[m.fam].kind;
    var a, b := Get(c, j), Get(u, j);
    ApplyKeepsRowGood(c, m, s, 0);
    ApplyKeepsRowGood(u, m, s, 0);
    ColumnIsGood(c, j, s);
    ColumnIsGood(u, j, s);
    if Spared(gc, j, t) {
      forall x: Cell | x.ts == t ensures x in a <==> x in b { assert SameAt(c, u, gc, j, x); }
      ValueSame(a, b, t);
    }
    var y, z := AggregateCell(s, kind, a, t, m.input, m.merge), AggregateCell(s, kind, b, t, m.input, m.merge);
    var c', u' := Apply(c, m, s, 0).value, Apply(u, m, s, 0).value;
    forall k, x ensures SameAt(c', u', gc, k, x) {
      assert SameAt(c, u, gc, k, x);
      if k == j {
        PutHolds(a, y, x);
        PutHolds(b, z, x);
      }
    }
  }

  /** The cell that an aggregate write puts. */
  function AggregateCell(s: Schema, kind: Kind, cs: seq<Cell>, ts: int, input: Input, merge: bool): (x: Cell)
    requires AggregateColumn(s, kind, cs, ts, input, merge).Some?
    ensures x.ts == ts && AggregateColumn(s, kind, cs, ts, input, merge).value == Put(cs, x)
  {
    var prior := ValueAt(cs, ts);
    var v := Aggregated(s, kind, if prior.Some? then Some(prior.value.value) else None, input, merge).value;
    if prior.Some? then prior.value.(value := v) else Cell(ts, v, [])
  }

  /** What a change stream records: valid, and a row deletion only as deletions of families. */
  predicate Recorded(m: Mutation, s: Schema) { ValidMutation(m, s) && !m.DeleteFromRow? }

  ghost predicate AllRecorded(ms: seq<Mutation>, s: Schema) { forall i :: 0 <= i < |ms| ==> Recorded(ms[i], s) }

  lemma ChangeSame(c: Content, u: Content, gc: seq<Mutation>, s: Schema, m: Mutation)
    requires SameBut(c, u, gc, s) && Recorded(m, s) && Apply(c, m, s, 0).Some? && Apply(u, m, s, 0).Some?
    ensures SameBut(Apply(c, m, s, 0).value, Apply(u, m, s, 0).value, gc, s)
  {
    match m
    case SetCell(_, _, _, _, _) => SetSame(c, u, gc, s, m);
    case Aggregate(_, _, _, _, _, _) => AggregateSame(c, u, gc, s, m);
    case DeleteFromColumn(_, _, _) => DeleteSame(c, u, gc, s, m);
    case DeleteFromFamily(_) => DeleteSame(c, u, gc, s, m);
  }

  lemma {:induction false} ChangesSame(c: Content, u: Content, gc: seq<Mutation>, s: Schema, ms: seq<Mutation>)
    requires SameBut(c, u, gc, s) && AllRecorded(ms, s) && ApplyAll(c, ms, s, 0).Some? && ApplyAll(u, ms, s, 0).Some?
    ensures SameBut(ApplyAll(c, ms, s, 0).value, ApplyAll(u, ms, s, 0).value, gc, s)
  {
    if ms != [] {
      var init, m := ms[..|ms| - 1], ms[|ms| - 1];
      ChangesSame(c, u, gc, s, init);
      assert Recorded(m, s);
      ChangeSame(ApplyAll(c, init, s, 0).value, ApplyAll(u, init, s, 0).value, gc, s, m);
    }
  }

  lemma ChangesAreRecorded(c: Content, m: Mutation, s: Schema, now: int)
    requires GoodRow(c, s) && ValidMutation(m, s) && ValidTs(s, now)
    ensures AllRecorded(Changes(c, m, s, now), s)
  {
    match m
    case SetCell(_, _, ts, _, auto) => ResolvedIsFixed(s, ts, auto, now, 0);
    case DeleteFromRow =>
      var fams := Arrange(FamiliesIn(c), OrderOf(s));
      forall i | 0 <= i < |fams| ensures fams[i] in s.families {
        assert fams[i] in Elements(fams);
        assert fams[i] in FamiliesIn(c);
      }
    case _ =>
  }

  lemma {:induction false} AllChangesAreRecorded(c: Content, ms: seq<Mutation>, s: Schema, now: int)
    requires GoodRow(c, s) && ValidTs(s, now) && ApplyAll(c, ms, s, now).Some?
    requires forall i :: 0 <= i < |ms| ==> ValidMutation(ms[i], s)
    ensures AllRecorded(AllChanges(c, ms, s, now), s)
  {
    if ms != [] {
      var init := ms[..|ms| - 1];
      AllChangesAreRecorded(c, init, s, now);
      ApplyAllKeepsRowGood(c, init, s, now);
      ChangesAreRecorded(ApplyAll(c, init, s, now).value, ms[|ms| - 1], s, now);
    }
  }

  lemma SparedParts(a: seq<Mutation>, b: seq<Mutation>, k: Column, t: int)
    requires Deletions(a) && Deletions(b)
    ensures Deletions(a + b) && (Spared(a + b, k, t) <==> Spared(a, k, t) && Spared(b, k, t))
  {
    var all := a + b;
    forall i | 0 <= i < |b| ensures all[|a| + i] == b[i] { }
    if Spared(all, k, t) {
      forall i | 0 <= i < |a| ensures !Covers(a[i], k, t) { assert all[i] == a[i]; }
      forall i | 0 <= i < |b| ensures !Covers(b[i], k, t) { assert all[|a| + i] == b[i]; }
    }
  }

  /** Collecting the row adds its records to the cells that may differ. */
  lemma CollectSame(c: Content, u: Content, gc: seq<Mutation>, s: Schema, gcNow: int)
    requires !s.micros && SameBut(c, u, gc, s) && RangesFit(c, s, gcNow)
    ensures SameBut(CollectRow(c, s, gcNow), u, gc + GcRecords(c, s, gcNow), s)
  {
    var d, recs := CollectRow(c, s, gcNow), GcRecords(c, s, gcNow);
    RecordsAreDeletions(c, s, gcNow);
    CollectKeepsRowGood(c, s, gcNow);
    SparedParts(gc, recs, ([], []), 0);
    forall k, x ensures SameAt(d, u, gc + recs, k, x) {
      assert SameAt(c, u, gc, k, x);
      SparedParts(gc, recs, k, x.ts);
      CollectRowGets(c, s, gcNow, k);
      if x in Get(c, k) {
        SparedIff(c, k, s, gcNow, x);
        KeptOrRemoved(c, k, s, gcNow, x);
      }
    }
  }

  // ---- one staged row ----

  /** The staged row and what its user changes alone give differ only in collected cells. */
  ghost predicate Staging(c: Content, p: Pending, s: Schema) {
    && GoodRow(p.row, s) && Deletions(p.gc) && AllRecorded(p.user, s)
    && (var u := ApplyAll(c, p.user, s, 0); u.Some? ==> SameBut(p.row, u.value, p.gc, s))
  }

  lemma StagingStarts(c: Content, s: Schema)
    requires GoodRow(c, s)
    ensures Staging(c, Pending(c, [], []), s)
  {
  }

  lemma StagingGoesOn(c: Content, p: Pending, d: Edited, s: Schema, gcNow: int)
    requires !s.micros && GoodRow(c, s) && Staging(c, p, s) && Replays(p.row, d, s) && AllRecorded(d.changes, s)
    requires RangesFit(d.after, s, gcNow)
    ensures Staging(c, Pending(CollectRow(d.after, s, gcNow), p.user + d.changes, p.gc + GcRecords(d.after, s, gcNow)), s)
  {
    var recs := GcRecords(d.after, s, gcNow);
    CollectKeepsRowGood(d.after, s, gcNow);
    RecordsAreDeletions(d.after, s, gcNow);
    SparedParts(p.gc, recs, ([], []), 0);
    ApplyAllConcat(c, p.user, d.changes, s, 0);
    if ApplyAll(c, p.user + d.changes, s, 0).Some? {
      var u := ApplyAll(c, p.user, s, 0).value;
      ChangesSame(p.row, u, p.gc, s, d.changes);
      CollectSame(d.after, ApplyAll(u, d.changes, s, 0).value, p.gc, s, gcNow);
    }
  }

  /** What the log of a staged row rebuilds. */
  ghost function Redo(c: Content, p: Pending, s: Schema): Option<Content> {
    var u := ApplyAll(c, p.user, s, 0);
    if u.None? then None else ApplyAll(u.value, p.gc, s, 0)
  }

  /** No cell that the batch collected is back in the row. */
  ghost predicate RevivesNothing(p: Pending)
    requires Deletions(p.gc)
  {
    forall k, x :: x in Get(p.row, k) ==> Spared(p.gc, k, x.ts)
  }

  lemma GoodRowIsCells(c: Content, s: Schema)
    requires GoodRow(c, s)
    ensures Cells(c, s) && NoEmptyColumn(c)
  {
  }

  /** After its collections, the replayed row holds the staged cells that no record covers. */
  lemma RedoHolds(c: Content, p: Pending, s: Schema)
    requires Staging(c, p, s) && ApplyAll(c, p.user, s, 0).Some?
    ensures Redo(c, p, s).Some? && Cells(Redo(c, p, s).value, s)
    ensures forall k, x :: x in Get(Redo(c, p, s).value, k) <==> x in Get(p.row, k) && Spared(p.gc, k, x.ts)
  {
    var u := ApplyAll(c, p.user, s, 0).value;
    GoodRowIsCells(u, s);
    DeletionsReplay(u, p.gc, s, 0);
    forall k, x ensures x in Get(Redo(c, p, s).value, k) <==> x in Get(p.row, k) && Spared(p.gc, k, x.ts) {
      assert SameAt(p.row, u, p.gc, k, x);
    }
  }

  lemma SameCells(a: Content, b: Content, s: Schema)
    requires Cells(a, s) && Cells(b, s) && forall k, x :: x in Get(a, k) <==> x in Get(b, k)
    ensures a == b
  {
    forall k ensures Get(a, k) == Get(b, k) { DescendingSame(Get(a, k), Get(b, k)); }
    SameColumns(a, b);
  }

  /** The log rebuilds a staged row exactly when its user changes replay and revive nothing. */
  lemma RedoIff(c: Content, p: Pending, s: Schema)
    requires Staging(c, p, s)
    ensures Redo(c, p, s) == Some(p.row) <==> ApplyAll(c, p.user, s, 0).Some? && RevivesNothing(p)
  {
    if ApplyAll(c, p.user, s, 0).Some? {
      RedoHolds(c, p, s);
      if RevivesNothing(p) {
        GoodRowIsCells(p.row, s);
        SameCells(Redo(c, p, s).value, p.row, s);
      } else {
        var k, x :| x in Get(p.row, k) && !Spared(p.gc, k, x.ts);
        assert x !in Get(Redo(c, p, s).value, k);
      }
    }
  }

  // ---- the whole batch ----

  ghost predicate Listed(order: seq<Bytes>, staged: map<Bytes, Pending>) { forall i :: 0 <= i < |order| ==> order[i] in staged }

  ghost predicate NoRepeats(order: seq<Bytes>) { forall i, j :: 0 <= i < j < |order| ==> order[i] != order[j] }

  ghost predicate AllRedo(rows: Rows, order: seq<Bytes>, staged: map<Bytes, Pending>, s: Schema)
    requires Listed(order, staged)
  {
    forall i :: 0 <= i < |order| ==> Redo(RowAt(rows, order[i]), staged[order[i]], s).Some?
  }

  /** The staged rows as the log rebuilds them. */
  ghost function Redone(rows: Rows, staged: map<Bytes, Pending>, s: Schema): map<Bytes, Pending> {
    map key | key in staged ::
      var d := Redo(RowAt(rows, key), staged[key], s); staged[key].(row := if d.Some? then d.value else map[])
  }

  lemma RedoOne(rows: Rows, key: Bytes, p: Pending, s: Schema)
    requires NoEmptyRow(rows)
    ensures var d := Redo(RowAt(rows, key), p, s);
            ReplayLog(rows, Logged(key, p.user) + Logged(key, p.gc), s) == if d.None? then None else Some(Save(rows, key, d.value))
  {
    var c, u := RowAt(rows, key), ApplyAll(RowAt(rows, key), p.user, s, 0);
    ReplayConcat(rows, Logged(key, p.user), Logged(key, p.gc), s);
    if u.None? {
      LoggedFails(rows, key, p.user, s);
    } else {
      var mid := Save(rows, key, u.value);
      LoggedReplays(rows, key, p.user, u.value, s);
      SaveAt(rows, key, u.value, key);
      var d := ApplyAll(u.value, p.gc, s, 0);
      if d.None? {
        LoggedFails(mid, key, p.gc, s);
      } else {
        LoggedReplays(mid, key, p.gc, d.value, s);
        SaveTwice(rows, key, u.value, d.value);
      }
    }
  }

  lemma LoggedFails(rows: Rows, key: Bytes, changes: seq<Mutation>, s: Schema)
    requires ApplyAll(RowAt(rows, key), changes, s, 0).None?
    ensures ReplayLog(rows, Logged(key, changes), s).None?
  {
    assert [Record(key, changes)][..0] == [] && ReplayLog(rows, [], s) == Some(rows);
  }

  lemma {:induction false} RedoLog(rows: Rows, order: seq<Bytes>, staged: map<Bytes, Pending>, s: Schema)
    requires NoEmptyRow(rows) && Listed(order, staged) && NoRepeats(order)
    ensures ReplayLog(rows, LogAll(order, staged), s) ==
              if AllRedo(rows, order, staged, s) then Some(SaveAll(rows, order, Redone(rows, staged, s))) else None
  {
    if order != [] {
      var init, key := order[..|order| - 1], order[|order| - 1];
      var p := staged[key];
      assert order == init + [key] && key !in init;
      RedoLog(rows, init, staged, s);
      Associative(LogAll(init, staged), Logged(key, p.user), Logged(key, p.gc));
      ReplayConcat(rows, LogAll(init, staged), Logged(key, p.user) + Logged(key, p.gc), s);
      if AllRedo(rows, init, staged, s) {
        var mid := SaveAll(rows, init, Redone(rows, staged, s));
        SaveAllAt(rows, init, Redone(rows, staged, s), key);
        SaveAllKeeps(rows, init, Redone(rows, staged, s));
        RedoOne(mid, key, p, s);
        AllRedoSnoc(rows, init, key, staged, s);
      } else {
        AllRedoSnoc(rows, init, key, staged, s);
      }
    }
  }

  lemma AllRedoSnoc(rows: Rows, init: seq<Bytes>, key: Bytes, staged: map<Bytes, Pending>, s: Schema)
    requires Listed(init, staged) && key in staged
    ensures Listed(init + [key], staged)
    ensures AllRedo(rows, init + [key], staged, s) <==> AllRedo(rows, init, staged, s) && Redo(RowAt(rows, key), staged[key], s).Some?
  {
    var order := init + [key];
    assert order[|init|] == key && forall i :: 0 <= i < |init| ==> order[i] == init[i];
  }

  ghost predicate AllStaging(rows: Rows, b: Batch, s: Schema) {
    forall key :: key in b.staged ==> Staging(RowAt(rows, key), b.staged[key], s)
  }

  /** The entry's collection removes no cell whose range does not fit 64 bits. */
  ghost predicate EntryFits(b: Batch, rows: Rows, e: Entry, s: Schema, now: int) {
    var d := EditOf(BaseOf(b, rows, e.key).row, RequestOf(e, now), s);
    d.Some? ==> RangesFit(d.value.after, s, e.gcNow)
  }

  ghost predicate BatchFits(rows: Rows, es: seq<Entry>, s: Schema, now: int) {
    forall i :: 0 <= i < |es| ==> EntryFits(StageAll(rows, es[..i], s, now), rows, es[i], s, now)
  }

  lemma EntryStaging(b: Batch, rows: Rows, e: Entry, s: Schema, now: int)
    requires !s.micros && GoodTable(rows, s) && ValidTs(s, now) && AllStaging(rows, b, s) && EntryFits(b, rows, e, s, now)
    ensures AllStaging(rows, StageEntry(b, rows, e, s, now), s)
  {
    var c, base := RowAt(rows, e.key), BaseOf(b, rows, e.key);
    var d := EditOf(base.row, RequestOf(e, now), s);
    RowIsGood(rows, e.key, s);
    StagingStarts(c, s);
    if d.Some? {
      EditReplays(base.row, RequestOf(e, now), s);
      AllChangesAreRecorded(base.row, e.ms, s, now);
      StagingGoesOn(c, base, d.value, s, e.gcNow);
    }
  }

  lemma {:induction false} BatchStaging(rows: Rows, es: seq<Entry>, s: Schema, now: int)
    requires !s.micros && GoodTable(rows, s) && ValidTs(s, now) && BatchFits(rows, es, s, now)
    ensures AllStaging(rows, StageAll(rows, es, s, now), s)
  {
    if es != [] {
      var init, e := es[..|es| - 1], es[|es| - 1];
      forall i | 0 <= i < |init| ensures EntryFits(StageAll(rows, init[..i], s, now), rows, init[i], s, now) {
        assert init[..i] == es[..i];
        assert EntryFits(StageAll(rows, es[..i], s, now), rows, es[i], s, now);
      }
      BatchStaging(rows, init, s, now);
      assert EntryFits(StageAll(rows, es[..|es| - 1], s, now), rows, es[|es| - 1], s, now);
      EntryStaging(StageAll(rows, init, s, now), rows, e, s, now);
    }
  }

  /** The row's user changes replay, and no cell that was collected is back. */
  ghost predicate Rebuilds(rows: Rows, b: Batch, s: Schema, key: Bytes)
    requires key in b.staged && Deletions(b.staged[key].gc)
  {
    ApplyAll(RowAt(rows, key), b.staged[key].user, s, 0).Some? && RevivesNothing(b.staged[key])
  }

  ghost predicate BatchRevivesNothing(rows: Rows, b: Batch, s: Schema)
    requires AllStaging(rows, b, s)
  {
    forall key :: key in b.staged ==> Rebuilds(rows, b, s, key)
  }

  lemma SavedAlike(rows: Rows, order: seq<Bytes>, a: map<Bytes, Pending>, b: map<Bytes, Pending>)
    requires NoEmptyRow(rows) && Listed(order, a) && Listed(order, b)
    ensures SaveAll(rows, order, a) == SaveAll(rows, order, b) <==> forall i :: 0 <= i < |order| ==> a[order[i]].row == b[order[i]].row
  {
    var x, y := SaveAll(rows, order, a), SaveAll(rows, order, b);
    forall key ensures RowAt(x, key) == (if key in order then a[key].row else RowAt(rows, key))
                    && RowAt(y, key) == (if key in order then b[key].row else RowAt(rows, key))
    {
      SaveAllAt(rows, order, a, key);
      SaveAllAt(rows, order, b, key);
    }
    if forall i :: 0 <= i < |order| ==> a[order[i]].row == b[order[i]].row {
      SaveAllKeeps(rows, order, a);
      SaveAllKeeps(rows, order, b);
      SameRows(x, y);
    } else {
      var i :| 0 <= i < |order| && a[order[i]].row != b[order[i]].row;
      assert order[i] in order && RowAt(x, order[i]) != RowAt(y, order[i]);
    }
  }

  lemma RebuildsIff(rows: Rows, b: Batch, s: Schema, key: Bytes)
    requires AllStaging(rows, b, s) && key in b.staged
    ensures Rebuilds(rows, b, s, key) <==>
              Redo(RowAt(rows, key), b.staged[key], s).Some? && Redone(rows, b.staged, s)[key].row == b.staged[key].row
  {
    RedoIff(RowAt(rows, key), b.staged[key], s);
  }

  lemma RevivesNothingIff(rows: Rows, b: Batch, s: Schema)
    requires Batches.Consistent(b) && AllStaging(rows, b, s)
    ensures BatchRevivesNothing(rows, b, s) <==>
              && AllRedo(rows, b.order, b.staged, s)
              && forall i :: 0 <= i < |b.order| ==> b.staged[b.order[i]].row == Redone(rows, b.staged, s)[b.order[i]].row
  {
    forall i | 0 <= i < |b.order| ensures b.order[i] in b.staged { }
    forall key | key in b.staged
      ensures Rebuilds(rows, b, s, key) <==>
                Redo(RowAt(rows, key), b.staged[key], s).Some? && Redone(rows, b.staged, s)[key].row == b.staged[key].row
    {
      RebuildsIff(rows, b, s, key);
    }
    if BatchRevivesNothing(rows, b, s) {
      forall i | 0 <= i < |b.order|
        ensures Redo(RowAt(rows, b.order[i]), b.staged[b.order[i]], s).Some?
             && b.staged[b.order[i]].row == Redone(rows, b.staged, s)[b.order[i]].row
      {
        assert Rebuilds(rows, b, s, b.order[i]);
      }
    }
  }

  lemma StagedLogIff(rows: Rows, b: Batch, s: Schema)
    requires NoEmptyRow(rows) && Batches.Consistent(b) && AllStaging(rows, b, s)
    ensures ReplayLog(rows, LogAll(b.order, b.staged), s) == Some(SaveAll(rows, b.order, b.staged)) <==> BatchRevivesNothing(rows, b, s)
  {
    RedoLog(rows, b.order, b.staged, s);
    RevivesNothingIff(rows, b, s);
    SavedAlike(rows, b.order, b.staged, Redone(rows, b.staged, s));
  }

  /** A log that rebuilt the table still does after a batch, repeated keys allowed, exactly when the
      batch revives nothing. */
  lemma BatchReplaysIff(st: State, es: seq<Entry>, s: Schema, now: int)
    requires !s.micros && GoodTable(st.rows, s) && ValidTs(s, now) && BatchFits(st.rows, es, s, now)
    requires ReplayLog(map[], st.log, s) == Some(st.rows)
    ensures AllStaging(st.rows, StageAll(st.rows, es, s, now), s)
    ensures var st' := Batches.Commit(st, es, s, now);
            ReplayLog(map[], st'.log, s) == Some(st'.rows) <==> BatchRevivesNothing(st.rows, StageAll(st.rows, es, s, now), s)
  {
    var b := StageAll(st.rows, es, s, now);
    BatchStaging(st.rows, es, s, now);
    StageAllConsistent(st.rows, es, s, now);
    ReplayConcat(map[], st.log, LogAll(b.order, b.staged), s);
    StagedLogIff(st.rows, b, s);
  }

  /** Only an aggregate into a sketch can fail when user changes are replayed. */
  lemma {:induction false} ReplaysWithoutSketches(u: Content, ms: seq<Mutation>, s: Schema)
    requires AllRecorded(ms, s)
    requires forall i :: 0 <= i < |ms| && ms[i].Aggregate? ==> !s.families[ms[i].fam].kind.Hll?
    ensures ApplyAll(u, ms, s, 0).Some?
  {
    if ms != [] {
      ReplaysWithoutSketches(u, ms[..|ms| - 1], s);
      assert Recorded(ms[|ms| - 1], s);
    }
  }

  // ---- a batch whose log does not rebuild its row ----

  function OneColumn(k: Column, cs: seq<Cell>): Content { map[k := cs] }

  lemma StoreOne(c: Content, k: Column, cs: seq<Cell>)
    requires c.Keys <= {k} && cs != []
    ensures Store(c, k, cs) == OneColumn(k, cs)
  {
  }

  lemma OneIsGood(k: Column, cs: seq<Cell>, s: Schema)
    requires k.0 in s.families && GoodColumn(cs, s)
    ensures GoodRow(OneColumn(k, cs), s)
  {
  }

  /** Of two versions the older is collected and recorded. */
  lemma SecondIsCollected(k: Column, x: Cell, y: Cell, s: Schema, gcNow: int)
    requires k.0 in s.families && s.families[k.0].rule == MaxVersions(1) && y.ts == 1000
    ensures var d := OneColumn(k, [x, y]);
            && CollectRow(d, s, gcNow) == OneColumn(k, [x]) && GcRecord(k, 1000) in GcRecords(d, s, gcNow) && RangesFit(d, s, gcNow)
  {
    var cs, rule := [x, y], MaxVersions(1);
    var d := OneColumn(k, cs);
    assert !Deletes(rule, 0, cs[0].ts, gcNow) && Deletes(rule, 1, cs[1].ts, gcNow);
    assert Live(cs, rule, gcNow) == 1 && cs[..1] == [x] && cs[1..] == [y];
    assert Kept(d, k, s, gcNow) == [x] && Removed(d, k, s, gcNow) == [y];
    RemovedIsRecorded(d, k, s, gcNow, y);
  }

  lemma OneStays(k: Column, x: Cell, s: Schema, gcNow: int)
    requires k.0 in s.families && s.families[k.0].rule == MaxVersions(1)
    ensures CollectRow(OneColumn(k, [x]), s, gcNow) == OneColumn(k, [x]) && RangesFit(OneColumn(k, [x]), s, gcNow)
  {
    assert Live([x], MaxVersions(1), gcNow) == 1 && [x][..1] == [x];
  }

  /** A second, older version is set. */
  function SetOlder(k: Column, w: Bytes): seq<Mutation> { [SetCell(k.0, k.1, 1000, w, false)] }

  /** The first version is deleted and the older one set again. */
  function SwapThem(k: Column, w: Bytes): seq<Mutation> {
    [DeleteFromColumn(k.0, k.1, Some((2000, 3000))), SetCell(k.0, k.1, 1000, w, false)]
  }

  predicate OneVersion(s: Schema, fam: Name) {
    !s.micros && fam in s.families && s.families[fam].rule == MaxVersions(1) && s.families[fam].kind.NoAggregate?
  }

  lemma SetOlderIs(k: Column, v: Bytes, w: Bytes, s: Schema, now: int)
    requires OneVersion(s, k.0)
    ensures ValidMutations(SetOlder(k, w), s)
    ensures ApplyAll(OneColumn(k, [Cell(2000, v, [])]), SetOlder(k, w), s, now) == Some(OneColumn(k, [Cell(2000, v, []), Cell(1000, w, [])]))
  {
    var x, y, m := Cell(2000, v, []), Cell(1000, w, []), SetCell(k.0, k.1, 1000, w, false);
    var c := OneColumn(k, [x]);
    OneReplay(c, m, s, now);
    assert (k.0, k.1) == k && Get(c, k) == [x];
    assert Put([x], y) == [x] + Put([x][1..], y) == [x, y];
    StoreOne(c, k, [x, y]);
    assert Apply(c, m, s, now) == Some(Store(c, k, Put([x], y)));
  }

  lemma SwapThemIs(k: Column, v: Bytes, w: Bytes, s: Schema, now: int)
    requires OneVersion(s, k.0)
    ensures ValidMutations(SwapThem(k, w), s)
    ensures ApplyAll(OneColumn(k, [Cell(2000, v, [])]), SwapThem(k, w), s, now) == Some(OneColumn(k, [Cell(1000, w, [])]))
  {
    var x, y, ms := Cell(2000, v, []), Cell(1000, w, []), SwapThem(k, w);
    var c, none := OneColumn(k, [x]), Store(OneColumn(k, [x]), k, []);
    assert ms == [ms[0]] + [ms[1]];
    ApplyAllConcat(c, [ms[0]], [ms[1]], s, now);
    OneReplay(c, ms[0], s, now);
    assert (k.0, k.1) == k && Get(c, k) == [x];
    assert Erase([x], 2000, 3000) == Erase([x][1..], 2000, 3000) == [];
    assert Apply(c, ms[0], s, now) == Some(none) && none.Keys <= {k} && Get(none, k) == [];
    OneReplay(none, ms[1], s, now);
    assert Put([], y) == [y];
    StoreOne(none, k, [y]);
    assert Apply(none, ms[1], s, now) == Some(Store(none, k, [y]));
  }

  function TwoEntries(key: Bytes, k: Column, w: Bytes, gcNow: int): seq<Entry> {
    [Entry(key, SetOlder(k, w), gcNow), Entry(key, SwapThem(k, w), gcNow)]
  }

  lemma StageEntryIs(b: Batch, rows: Rows, e: Entry, s: Schema, now: int, after: Content)
    requires ValidKey(e.key) && ValidMutations(e.ms, s) && ApplyAll(BaseOf(b, rows, e.key).row, e.ms, s, now) == Some(after)
    ensures var b' := StageEntry(b, rows, e, s, now);
            && e.key in b'.staged && b'.staged[e.key].row == CollectRow(after, s, e.gcNow)
            && b'.staged[e.key].gc == BaseOf(b, rows, e.key).gc + GcRecords(after, s, e.gcNow)
    ensures EntryFits(b, rows, e, s, now) <==> RangesFit(after, s, e.gcNow)
  {
  }

  lemma FirstStaged(rows: Rows, key: Bytes, k: Column, v: Bytes, w: Bytes, s: Schema, now: int, gcNow: int)
    requires OneVersion(s, k.0) && ValidKey(key) && rows == map[key := OneColumn(k, [Cell(2000, v, [])])]
    ensures var e := TwoEntries(key, k, w, gcNow)[0]; var b := StageEntry(Batch(map[], []), rows, e, s, now);
            && key in b.staged && b.staged[key].row == rows[key] && GcRecord(k, 1000) in b.staged[key].gc
            && EntryFits(Batch(map[], []), rows, e, s, now)
  {
    SetOlderIs(k, v, w, s, now);
    SecondIsCollected(k, Cell(2000, v, []), Cell(1000, w, []), s, gcNow);
    StageEntryIs(Batch(map[], []), rows, TwoEntries(key, k, w, gcNow)[0], s, now, OneColumn(k, [Cell(2000, v, []), Cell(1000, w, [])]));
  }

  lemma SecondStaged(b: Batch, rows: Rows, key: Bytes, k: Column, v: Bytes, w: Bytes, s: Schema, now: int, gcNow: int)
    requires OneVersion(s, k.0) && ValidKey(key)
    requires key in b.staged && b.staged[key].row == OneColumn(k, [Cell(2000, v, [])]) && GcRecord(k, 1000) in b.staged[key].gc
    ensures var e := TwoEntries(key, k, w, gcNow)[1]; var b' := StageEntry(b, rows, e, s, now);
            && key in b'.staged && b'.staged[key].row == OneColumn(k, [Cell(1000, w, [])]) && GcRecord(k, 1000) in b'.staged[key].gc
            && EntryFits(b, rows, e, s, now)
  {
    SwapThemIs(k, v, w, s, now);
    OneStays(k, Cell(1000, w, []), s, gcNow);
    StageEntryIs(b, rows, TwoEntries(key, k, w, gcNow)[1], s, now, OneColumn(k, [Cell(1000, w, [])]));
  }

  lemma BothStaged(rows: Rows, key: Bytes, k: Column, v: Bytes, w: Bytes, s: Schema, now: int, gcNow: int)
    requires OneVersion(s, k.0) && ValidKey(key) && rows == map[key := OneColumn(k, [Cell(2000, v, [])])]
    ensures var es := TwoEntries(key, k, w, gcNow); var b := StageAll(rows, es, s, now);
            && BatchFits(rows, es, s, now) && key in b.staged
            && b.staged[key].row == OneColumn(k, [Cell(1000, w, [])]) && GcRecord(k, 1000) in b.staged[key].gc
  {
    var es := TwoEntries(key, k, w, gcNow);
    FirstStaged(rows, key, k, v, w, s, now, gcNow);
    assert es[..0] == [] && es[..1] == [] + [es[0]] && es == es[..1] + [es[1]];
    StageLast(rows, [], es[0], s, now);
    StageLast(rows, es[..1], es[1], s, now);
    SecondStaged(StageAll(rows, es[..1], s, now), rows, key, k, v, w, s, now, gcNow);
  }

  lemma CoveredIsRevived(p: Pending, k: Column, y: Cell, s: Schema)
    requires !s.micros && Deletions(p.gc) && y in Get(p.row, k) && y.ts == 1000 && GcRecord(k, 1000) in p.gc
    ensures !RevivesNothing(p)
  {
    RecordCovers(k, 1000, 1000, s);
    var i :| 0 <= i < |p.gc| && p.gc[i] == GcRecord(k, 1000);
    assert Covers(p.gc[i], k, y.ts);
  }

  /** The row keeps the older version that was collected and set again, and the log deletes it. */
  lemma RepeatedKeyIsNotReplayed(st: State, key: Bytes, k: Column, v: Bytes, w: Bytes, s: Schema, now: int, gcNow: int)
    requires OneVersion(s, k.0) && ValidKey(key) && ValidTs(s, now)
    requires st.rows == map[key := OneColumn(k, [Cell(2000, v, [])])] && ReplayLog(map[], st.log, s) == Some(st.rows)
    ensures var st' := Batches.Commit(st, TwoEntries(key, k, w, gcNow), s, now);
            && RowAt(st'.rows, key) == OneColumn(k, [Cell(1000, w, [])])
            && ReplayLog(map[], st'.log, s) != Some(st'.rows)
  {
    var es, y := TwoEntries(key, k, w, gcNow), Cell(1000, w, []);
    var b := StageAll(st.rows, es, s, now);
    OneIsGood(k, [Cell(2000, v, [])], s);
    BothStaged(st.rows, key, k, v, w, s, now, gcNow);
    BatchReplaysIff(st, es, s, now);
    StageAllConsistent(st.rows, es, s, now);
    SaveAllAt(st.rows, b.order, b.staged, key);
    assert Staging(RowAt(st.rows, key), b.staged[key], s);
    CoveredIsRevived(b.staged[key], k, y, s);
    assert !Rebuilds(st.rows, b, s, key);
  }
}
