/** Stored sketches always decode, so the user changes of a batch always replay: what remains of the
    condition on a batch is that no collected cell is back. */
module SketchReplay {
  import opened Basics
  import opened Lex
  import opened Names
  import opened Columns
  import opened Mutations
  import opened Replay
  import opened Writes
  import opened Batches
  import opened BatchReplay
  import opened AggregateCells
  import Runs
  import SketchCodec

  // ---- stored sketches decode ----

  predicate IsSketch(s: Schema, fam: Name) { fam in s.families && s.families[fam].kind.Hll? }

  ghost predicate ReadableColumn(cs: seq<Cell>) { forall x :: x in cs ==> SketchCodec.Decode(x.value).Ok? }

  ghost predicate ReadableRow(c: Content, s: Schema) { forall k: Column :: IsSketch(s, k.0) ==> ReadableColumn(Get(c, k)) }

  lemma PutReadable(cs: seq<Cell>, y: Cell)
    requires Descending(cs) && ReadableColumn(cs) && SketchCodec.Decode(y.value).Ok?
    ensures ReadableColumn(Put(cs, y))
  {
    forall x | x in Put(cs, y) ensures SketchCodec.Decode(x.value).Ok? { PutHolds(cs, y, x); }
  }

  lemma StoreReadable(c: Content, k: Column, cs: seq<Cell>, s: Schema)
    requires ReadableRow(c, s) && (IsSketch(s, k.0) ==> ReadableColumn(cs))
    ensures ReadableRow(Store(c, k, cs), s)
  {
    forall j: Column | IsSketch(s, j.0) ensures ReadableColumn(Get(Store(c, k, cs), j)) { assert ReadableColumn(Get(c, j)); }
  }

  /** A valid write to a sketch column succeeds. */
  lemma SketchColumnWrites(cs: seq<Cell>, ts: int, input: Input, merge: bool, s: Schema, hash: Bytes -> nat)
    requires Sketching(s, hash) && Descending(cs) && ReadableColumn(cs) && ValidWrite(s, Write(input, merge))
    ensures AggregateColumn(s, Kind.Hll, cs, ts, input, merge).Some?
    ensures ReadableColumn(AggregateColumn(s, Kind.Hll, cs, ts, input, merge).value)
  {
    var prior := ValueAt(cs, ts);
    var b := if prior.Some? then Some(prior.value.value) else None;
    WriteStaysReadable(s, hash, b, Write(input, merge));
    PutReadable(cs, AggregateCell(s, Kind.Hll, cs, ts, input, merge));
  }

  /** A valid mutation of readable sketches succeeds and leaves them readable. */
  lemma ApplyReadable(c: Content, m: Mutation, s: Schema, now: int, hash: Bytes -> nat)
    requires Sketching(s, hash) && GoodRow(c, s) && ReadableRow(c, s) && ValidMutation(m, s)
    ensures Apply(c, m, s, now).Some? && ReadableRow(Apply(c, m, s, now).value, s)
  {
    match m
    case SetCell(fam, col, ts, value, auto) =>
      StoreReadable(c, (fam, col), Put(Get(c, (fam, col)), Cell(Resolve(s, ts, auto, now), value, [])), s);
    case DeleteFromColumn(fam, col, range) =>
      var k := (fam, col);
      if range.Some? { EraseHolds(Get(c, k), range.value.0, range.value.1); }
      StoreReadable(c, k, if range.None? then [] else Erase(Get(c, k), range.value.0, range.value.1), s);
    case DeleteFromFamily(fam) =>
      forall k: Column | IsSketch(s, k.0) ensures ReadableColumn(Get(DropFamily(c, fam), k)) { assert ReadableColumn(Get(c, k)); }
    case DeleteFromRow =>
    case Aggregate(fam, col, ts, input, auto, merge) =>
      var k, t := (fam, col), Resolve(s, ts, auto, 0);
      ColumnIsGood(c, k, s);
      if IsSketch(s, fam) { SketchColumnWrites(Get(c, k), t, input, merge, s, hash); }
      StoreReadable(c, k, AggregateColumn(s, s.families[fam].kind, Get(c, k), t, input, merge).value, s);
  }

  lemma {:induction false} ApplyAllReadable(c: Content, ms: seq<Mutation>, s: Schema, now: int, hash: Bytes -> nat)
    requires Sketching(s, hash) && GoodRow(c, s) && ReadableRow(c, s) && ValidTs(s, now)
    requires forall i :: 0 <= i < |ms| ==> ValidMutation(ms[i], s)
    ensures ApplyAll(c, ms, s, now).Some? && ReadableRow(ApplyAll(c, ms, s, now).value, s)
  {
    if ms != [] {
      var init := ms[..|ms| - 1];
      ApplyAllReadable(c, init, s, now, hash);
      ApplyAllKeepsRowGood(c, init, s, now);
      ApplyReadable(ApplyAll(c, init, s, now).value, ms[|ms| - 1], s, now, hash);
    }
  }

  lemma CollectReadable(c: Content, s: Schema, now: int)
    requires ReadableRow(c, s)
    ensures ReadableRow(CollectRow(c, s, now), s)
  {
    forall k: Column | IsSketch(s, k.0) ensures ReadableColumn(Get(CollectRow(c, s, now), k)) {
      CollectRowGets(c, s, now, k);
      assert ReadableColumn(Get(c, k));
    }
  }

  lemma {:induction false} RulesReadable(c: Content, seen: Content, rules: seq<Rule>, s: Schema)
    requires ReadableRow(c, s) && ApplyRules(c, seen, rules).Some? && forall i :: 0 <= i < |rules| ==> ValidRule(rules[i], s)
    ensures ReadableRow(ApplyRules(c, seen, rules).value.row, s)
  {
    if rules != [] {
      var init, r := rules[..|rules| - 1], rules[|rules| - 1];
      RulesReadable(c, seen, init, s);
      var m := ApplyRules(c, seen, init).value;
      var k := (r.fam, r.col);
      var x := NewCell(r, Get(m.seen, k)).value;
      assert ValidRule(r, s);
      StoreReadable(m.row, k, Put(Get(m.row, k), x), s);
    }
  }

  lemma EditReadable(c: Content, q: Request, s: Schema, hash: Bytes -> nat)
    requires Sketching(s, hash) && GoodRow(c, s) && ReadableRow(c, s) && !q.DropRowRange? && SaneClock(q, s) && EditOf(c, q, s).Some?
    ensures ReadableRow(EditOf(c, q, s).value.after, s)
  {
    match q
    case MutateRow(_, ms, now, _) => ApplyAllReadable(c, ms, s, now, hash);
    case CheckAndMutateRow(_, test, yes, no, now, _) => ApplyAllReadable(c, if test(c).value then yes else no, s, now, hash);
    case ReadModifyWriteRow(_, rules, seenAt, _) => RulesReadable(c, CollectRow(c, s, seenAt), rules, s);
  }

  ghost predicate ReadableTable(rows: Rows, s: Schema) { forall key :: ReadableRow(RowAt(rows, key), s) }

  lemma StepReadable(st: State, q: Request, s: Schema, hash: Bytes -> nat)
    requires Sketching(s, hash) && GoodTable(st.rows, s) && ReadableTable(st.rows, s) && SaneClock(q, s)
    ensures ReadableTable(Step(st, q, s).rows, s)
  {
    if q.DropRowRange? {
      forall key ensures ReadableRow(RowAt(Step(st, q, s).rows, key), s) { assert ReadableRow(RowAt(st.rows, key), s); }
    } else {
      var c := RowAt(st.rows, q.key);
      var e := EditOf(c, q, s);
      RowIsGood(st.rows, q.key, s);
      if e.Some? {
        EditReadable(c, q, s, hash);
        CollectReadable(e.value.after, s, q.gcNow);
      }
      forall key ensures ReadableRow(RowAt(Step(st, q, s).rows, key), s) {
        StepAt(st, q, s, key);
        assert ReadableRow(RowAt(st.rows, key), s);
      }
    }
  }

  lemma {:induction false} SequentialReadable(st: State, es: seq<Entry>, s: Schema, now: int, hash: Bytes -> nat)
    requires Sketching(s, hash) && GoodTable(st.rows, s) && ReadableTable(st.rows, s) && ValidTs(s, now)
    ensures ReadableTable(Sequentially(st, es, s, now).rows, s)
  {
    if es != [] {
      var init := es[..|es| - 1];
      SequentialReadable(st, init, s, now, hash);
      Runs.SequentialKeepsTableGood(st, init, s, now);
      StepReadable(Sequentially(st, init, s, now), RequestOf(es[|es| - 1], now), s, hash);
    }
  }

  /** In every run every stored sketch can be decoded. */
  lemma {:induction false} EveryStoredSketchIsReadable(calls: seq<Runs.Call>, s: Schema, hash: Bytes -> nat)
    requires Sketching(s, hash) && forall i :: 0 <= i < |calls| ==> Runs.Sane(calls[i], s)
    ensures ReadableTable(Runs.Run(calls, s).rows, s)
  {
    if calls != [] {
      var init, call := calls[..|calls| - 1], calls[|calls| - 1];
      var st := Runs.Run(init, s);
      EveryStoredSketchIsReadable(init, s, hash);
      Runs.EveryStoredRowIsGood(init, s);
      match call
      case Single(q) => StepReadable(st, q, s, hash);
      case MutateRows(es, now) =>
        SequentialReadable(st, es, s, now, hash);
        BatchIsSequential(st, es, s, now);
    }
  }

  // ---- batches ----

  ghost predicate NothingRevived(b: Batch)
    requires forall key :: key in b.staged ==> Deletions(b.staged[key].gc)
  {
    forall key :: key in b.staged ==> RevivesNothing(b.staged[key])
  }

  lemma UserChangesReplayOn(c: Content, p: Pending, s: Schema, hash: Bytes -> nat)
    requires Sketching(s, hash) && GoodRow(c, s) && ReadableRow(c, s) && Staging(c, p, s)
    ensures ApplyAll(c, p.user, s, 0).Some?
  {
    forall i | 0 <= i < |p.user| ensures ValidMutation(p.user[i], s) { assert Recorded(p.user[i], s); }
    ApplyAllReadable(c, p.user, s, 0, hash);
  }

  /** Where sketches decode, a log that rebuilt the table still does after a batch exactly when no cell
      that the batch collected is back in its row. */
  lemma BatchReplaysUnlessRevived(st: State, es: seq<Entry>, s: Schema, now: int, hash: Bytes -> nat)
    requires Sketching(s, hash) && ReadableTable(st.rows, s)
    requires !s.micros && GoodTable(st.rows, s) && ValidTs(s, now) && BatchFits(st.rows, es, s, now)
    requires ReplayLog(map[], st.log, s) == Some(st.rows)
    ensures AllStaging(st.rows, StageAll(st.rows, es, s, now), s)
    ensures var st' := Batches.Commit(st, es, s, now);
            ReplayLog(map[], st'.log, s) == Some(st'.rows) <==> NothingRevived(StageAll(st.rows, es, s, now))
  {
    var b := StageAll(st.rows, es, s, now);
    BatchReplaysIff(st, es, s, now);
    forall key | key in b.staged ensures Rebuilds(st.rows, b, s, key) <==> RevivesNothing(b.staged[key]) {
      assert ReadableRow(RowAt(st.rows, key), s);
      RowIsGood(st.rows, key, s);
      UserChangesReplayOn(RowAt(st.rows, key), b.staged[key], s, hash);
    }
  }
}
