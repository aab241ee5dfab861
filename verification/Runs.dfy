/** Whole runs of write requests, batches included: what every stored row keeps, and what the change log
    rebuilds. */
module Runs {
  import opened Basics
  import opened Lex
  import opened Names
  import opened Columns
  import opened Mutations
  import opened Replay
  import opened Writes
  import opened Batches
  import opened BatchReplay

  datatype Call = Single(q: Request) | MutateRows(es: seq<Entry>, now: int)

  ghost function After(st: State, call: Call, s: Schema): State {
    match call
    case Single(q) => Step(st, q, s)
    case MutateRows(es, now) => if Accepts(es) then Batches.Commit(st, es, s, now) else st
  }

  ghost function Run(calls: seq<Call>, s: Schema): State {
    if calls == [] then State(map[], []) else After(Run(calls[..|calls| - 1], s), calls[|calls| - 1], s)
  }

  predicate Sane(call: Call, s: Schema) {
    match call
    case Single(q) => SaneClock(q, s)
    case MutateRows(_, now) => ValidTs(s, now)
  }

  // ---- every stored row is good ----

  lemma {:induction false} SequentialKeepsTableGood(st: State, es: seq<Entry>, s: Schema, now: int)
    requires GoodTable(st.rows, s) && ValidTs(s, now)
    ensures GoodTable(Sequentially(st, es, s, now).rows, s)
  {
    if es != [] {
      SequentialKeepsTableGood(st, es[..|es| - 1], s, now);
      StepKeepsTableGood(Sequentially(st, es[..|es| - 1], s, now), RequestOf(es[|es| - 1], now), s);
    }
  }

  lemma CallKeepsTableGood(st: State, call: Call, s: Schema)
    requires GoodTable(st.rows, s) && Sane(call, s)
    ensures GoodTable(After(st, call, s).rows, s)
  {
    match call
    case Single(q) => StepKeepsTableGood(st, q, s);
    case MutateRows(es, now) =>
      SequentialKeepsTableGood(st, es, s, now);
      BatchIsSequential(st, es, s, now);
  }

  /** In every run every stored row has only known families, no empty column, and valid timestamps
      that strictly descend. */
  lemma {:induction false} EveryStoredRowIsGood(calls: seq<Call>, s: Schema)
    requires forall i :: 0 <= i < |calls| ==> Sane(calls[i], s)
    ensures GoodTable(Run(calls, s).rows, s)
  {
    if calls != [] {
      EveryStoredRowIsGood(calls[..|calls| - 1], s);
      CallKeepsTableGood(Run(calls[..|calls| - 1], s), calls[|calls| - 1], s);
    }
  }

  // ---- the log rebuilds the table ----

  ghost predicate Rebuilt(st: State, s: Schema) { GoodTable(st.rows, s) && ReplayLog(map[], st.log, s) == Some(st.rows) }

  /** One entry at a time, every entry replays. */
  lemma {:induction false} SequentialReplays(st: State, es: seq<Entry>, s: Schema, now: int)
    requires !s.micros && Rebuilt(st, s) && ValidTs(s, now) && BatchFits(st.rows, es, s, now)
    ensures Rebuilt(Sequentially(st, es, s, now), s)
  {
    if es != [] {
      var init, e := es[..|es| - 1], es[|es| - 1];
      var mid := Sequentially(st, init, s, now);
      forall i | 0 <= i < |init| ensures EntryFits(StageAll(st.rows, init[..i], s, now), st.rows, init[i], s, now) {
        assert init[..i] == es[..i] && EntryFits(StageAll(st.rows, es[..i], s, now), st.rows, es[i], s, now);
      }
      SequentialReplays(st, init, s, now);
      assert EntryFits(StageAll(st.rows, es[..|es| - 1], s, now), st.rows, es[|es| - 1], s, now);
      StagedRows(st, init, s, now, e.key);
      StepKeepsTableGood(mid, RequestOf(e, now), s);
      StepReplays(mid, RequestOf(e, now), s);
    }
  }

  /** A batch without repeated keys replays. */
  lemma DistinctBatchReplays(st: State, es: seq<Entry>, s: Schema, now: int)
    requires !s.micros && Rebuilt(st, s) && ValidTs(s, now) && BatchFits(st.rows, es, s, now) && Batches.DistinctKeys(es)
    ensures Rebuilt(Batches.Commit(st, es, s, now), s)
  {
    SequentialReplays(st, es, s, now);
    BatchIsSequential(st, es, s, now);
    DistinctBatchLogsSequentially(st, es, s, now);
  }

  /** No collection removes a cell whose range does not fit 64 bits, and a batch that repeats a key
      does not revive a collected cell. */
  ghost predicate CallReplays(st: State, call: Call, s: Schema) {
    match call
    case Single(q) => StepFits(st, q, s)
    case MutateRows(es, now) =>
      Accepts(es) ==> BatchFits(st.rows, es, s, now) && (Batches.DistinctKeys(es) || BatchRebuilds(st.rows, es, s, now))
  }

  ghost predicate BatchRebuilds(rows: Rows, es: seq<Entry>, s: Schema, now: int) {
    var b := StageAll(rows, es, s, now);
    AllStaging(rows, b, s) && BatchRevivesNothing(rows, b, s)
  }

  lemma AfterCall(st: State, call: Call, s: Schema)
    requires !s.micros && Rebuilt(st, s) && Sane(call, s) && CallReplays(st, call, s)
    ensures Rebuilt(After(st, call, s), s)
  {
    CallKeepsTableGood(st, call, s);
    match call
    case Single(q) => StepReplays(st, q, s);
    case MutateRows(es, now) =>
      if Accepts(es) {
        if Batches.DistinctKeys(es) { DistinctBatchReplays(st, es, s, now); } else { BatchReplaysIff(st, es, s, now); }
      }
  }

  /** After any run, folding the change log from the empty table rebuilds exactly the stored rows. */
  lemma {:induction false} LogRebuildsTable(calls: seq<Call>, s: Schema)
    requires !s.micros && forall i :: 0 <= i < |calls| ==> Sane(calls[i], s)
    requires forall i :: 0 <= i < |calls| ==> CallReplays(Run(calls[..i], s), calls[i], s)
    ensures Rebuilt(Run(calls, s), s)
  {
    if calls != [] {
      var init := calls[..|calls| - 1];
      forall i | 0 <= i < |init| ensures CallReplays(Run(init[..i], s), init[i], s) {
        assert init[..i] == calls[..i] && CallReplays(Run(calls[..i], s), calls[i], s);
      }
      LogRebuildsTable(init, s);
      AfterCall(Run(init, s), calls[|calls| - 1], s);
    }
  }

  // ---- requests that never write the greatest timestamp ----

  ghost predicate EarlyColumn(cs: seq<Cell>) { forall x :: x in cs ==> x.ts != MAX_VALID }

  ghost predicate EarlyRow(c: Content) { forall k :: EarlyColumn(Get(c, k)) }

  /** The mutation does not write the greatest valid timestamp. */
  predicate Early(m: Mutation, s: Schema, now: int) {
    match m
    case SetCell(_, _, ts, _, auto) => Resolve(s, ts, auto, now) != MAX_VALID
    case Aggregate(_, _, ts, _, auto, _) => Resolve(s, ts, auto, 0) != MAX_VALID
    case _ => true
  }

  predicate AllEarly(ms: seq<Mutation>, s: Schema, now: int) { forall i :: 0 <= i < |ms| ==> Early(ms[i], s, now) }

  predicate EarlyCall(call: Call, s: Schema) {
    match call
    case Single(MutateRow(_, ms, now, _)) => AllEarly(ms, s, now)
    case Single(CheckAndMutateRow(_, _, yes, no, now, _)) => AllEarly(yes, s, now) && AllEarly(no, s, now)
    case Single(ReadModifyWriteRow(_, rules, _, _)) => forall i :: 0 <= i < |rules| ==> rules[i].clock != MAX_VALID
    case Single(DropRowRange(_)) => true
    case MutateRows(es, now) => forall i :: 0 <= i < |es| ==> AllEarly(es[i].ms, s, now)
  }

  lemma PutEarly(cs: seq<Cell>, y: Cell)
    requires Descending(cs) && EarlyColumn(cs) && y.ts != MAX_VALID
    ensures EarlyColumn(Put(cs, y))
  {
    forall x | x in Put(cs, y) ensures x.ts != MAX_VALID { PutHolds(cs, y, x); }
  }

  lemma StoreEarly(c: Content, k: Column, cs: seq<Cell>)
    requires EarlyRow(c) && EarlyColumn(cs)
    ensures EarlyRow(Store(c, k, cs))
  {
    forall j ensures EarlyColumn(Get(Store(c, k, cs), j)) { assert EarlyColumn(Get(c, j)); }
  }

  lemma ApplyEarly(c: Content, m: Mutation, s: Schema, now: int)
    requires GoodRow(c, s) && EarlyRow(c) && Early(m, s, now) && Apply(c, m, s, now).Some?
    ensures EarlyRow(Apply(c, m, s, now).value)
  {
    match m
    case SetCell(fam, col, ts, value, auto) =>
      var k, y := (fam, col), Cell(Resolve(s, ts, auto, now), value, []);
      ColumnIsGood(c, k, s);
      PutEarly(Get(c, k), y);
      StoreEarly(c, k, Put(Get(c, k), y));
    case DeleteFromColumn(fam, col, range) =>
      var k := (fam, col);
      if range.Some? { EraseHolds(Get(c, k), range.value.0, range.value.1); }
      StoreEarly(c, k, if range.None? then [] else Erase(Get(c, k), range.value.0, range.value.1));
    case DeleteFromFamily(fam) =>
      forall k ensures EarlyColumn(Get(DropFamily(c, fam), k)) { assert EarlyColumn(Get(c, k)); }
    case DeleteFromRow =>
    case Aggregate(fam, col, ts, input, auto, merge) =>
      var k, t, kind := (fam, col), Resolve(s, ts, auto, 0), s.families[fam].kind;
      var y := AggregateCell(s, kind, Get(c, k), t, input, merge);
      ColumnIsGood(c, k, s);
      PutEarly(Get(c, k), y);
      StoreEarly(c, k, Put(Get(c, k), y));
  }

  lemma {:induction false} ApplyAllEarly(c: Content, ms: seq<Mutation>, s: Schema, now: int)
    requires GoodRow(c, s) && EarlyRow(c) && ValidTs(s, now) && ApplyAll(c, ms, s, now).Some?
    requires AllEarly(ms, s, now) && forall i :: 0 <= i < |ms| ==> ValidMutation(ms[i], s)
    ensures EarlyRow(ApplyAll(c, ms, s, now).value)
  {
    if ms != [] {
      var init := ms[..|ms| - 1];
      ApplyAllEarly(c, init, s, now);
      ApplyAllKeepsRowGood(c, init, s, now);
      ApplyEarly(ApplyAll(c, init, s, now).value, ms[|ms| - 1], s, now);
    }
  }

  lemma RuleEarly(c: Content, m: Modified, r: Rule, s: Schema)
    requires GoodModified(c, m, s) && EarlyRow(m.row) && EarlyRow(m.seen) && r.clock != MAX_VALID && ApplyRule(m, r).Some?
    ensures EarlyRow(ApplyRule(m, r).value.row) && EarlyRow(ApplyRule(m, r).value.seen)
  {
    var k := (r.fam, r.col);
    var cs := Get(m.seen, k);
    var x := NewCell(r, cs).value;
    assert EarlyColumn(cs);
    ColumnIsGood(m.seen, k, s);
    ColumnIsGood(m.row, k, s);
    PutEarly(Get(m.row, k), x);
    PutEarly(cs, x);
    StoreEarly(m.row, k, Put(Get(m.row, k), x));
    StoreEarly(m.seen, k, Put(cs, x));
  }

  lemma {:induction false} RulesEarly(c: Content, seen: Content, rules: seq<Rule>, s: Schema)
    requires GoodRow(c, s) && GoodRow(seen, s) && EarlyRow(c) && EarlyRow(seen) && ApplyRules(c, seen, rules).Some?
    requires forall i :: 0 <= i < |rules| ==> ValidRule(rules[i], s) && ValidTs(s, rules[i].clock) && rules[i].clock != MAX_VALID
    ensures EarlyRow(ApplyRules(c, seen, rules).value.row) && EarlyRow(ApplyRules(c, seen, rules).value.seen)
  {
    if rules != [] {
      var init := rules[..|rules| - 1];
      RulesEarly(c, seen, init, s);
      RulesReplay(c, seen, init, s);
      RuleEarly(c, ApplyRules(c, seen, init).value, rules[|rules| - 1], s);
    }
  }

  lemma CollectEarly(c: Content, s: Schema, now: int)
    requires EarlyRow(c)
    ensures EarlyRow(CollectRow(c, s, now))
  {
    forall k ensures EarlyColumn(Get(CollectRow(c, s, now), k)) {
      CollectRowGets(c, s, now, k);
      assert EarlyColumn(Get(c, k));
    }
  }

  lemma EarlyFits(c: Content, s: Schema, now: int)
    requires !s.micros && GoodRow(c, s) && EarlyRow(c)
    ensures RangesFit(c, s, now)
  {
    forall k, x | k in c && x in Removed(c, k, s, now) ensures x.ts + 1000 <= MAX_INT64 {
      assert x in c[k] && EarlyColumn(Get(c, k));
      InColumn(c[k], x, s);
    }
  }

  lemma EditEarly(c: Content, q: Request, s: Schema)
    requires GoodRow(c, s) && EarlyRow(c) && !q.DropRowRange? && SaneClock(q, s) && EarlyCall(Single(q), s) && EditOf(c, q, s).Some?
    ensures EarlyRow(EditOf(c, q, s).value.after)
  {
    match q
    case MutateRow(_, ms, now, _) => ApplyAllEarly(c, ms, s, now);
    case CheckAndMutateRow(_, test, yes, no, now, _) => ApplyAllEarly(c, if test(c).value then yes else no, s, now);
    case ReadModifyWriteRow(_, rules, seenAt, _) =>
      CollectKeepsRowGood(c, s, seenAt);
      CollectEarly(c, s, seenAt);
      RulesEarly(c, CollectRow(c, s, seenAt), rules, s);
  }

  ghost predicate EarlyTable(rows: Rows) { forall key :: EarlyRow(RowAt(rows, key)) }

  lemma StepEarly(st: State, q: Request, s: Schema)
    requires !s.micros && GoodTable(st.rows, s) && EarlyTable(st.rows) && SaneClock(q, s) && EarlyCall(Single(q), s)
    ensures EarlyTable(Step(st, q, s).rows) && StepFits(st, q, s)
  {
    if q.DropRowRange? {
      forall key ensures EarlyRow(RowAt(Step(st, q, s).rows, key)) { assert EarlyRow(RowAt(st.rows, key)); }
    } else {
      var c := RowAt(st.rows, q.key);
      var e := EditOf(c, q, s);
      RowIsGood(st.rows, q.key, s);
      if e.Some? {
        EditEarly(c, q, s);
        EditReplays(c, q, s);
        EarlyFits(e.value.after, s, q.gcNow);
        CollectEarly(e.value.after, s, q.gcNow);
      }
      forall key ensures EarlyRow(RowAt(Step(st, q, s).rows, key)) {
        StepAt(st, q, s, key);
        assert EarlyRow(RowAt(st.rows, key));
      }
    }
  }

  lemma {:induction false} BatchEarly(st: State, es: seq<Entry>, s: Schema, now: int)
    requires !s.micros && GoodTable(st.rows, s) && EarlyTable(st.rows) && ValidTs(s, now) && EarlyCall(MutateRows(es, now), s)
    ensures EarlyTable(Sequentially(st, es, s, now).rows) && BatchFits(st.rows, es, s, now)
  {
    if es != [] {
      var init, e := es[..|es| - 1], es[|es| - 1];
      var mid := Sequentially(st, init, s, now);
      BatchEarly(st, init, s, now);
      SequentialKeepsTableGood(st, init, s, now);
      StepEarly(mid, RequestOf(e, now), s);
      StagedRows(st, init, s, now, e.key);
      forall i | 0 <= i < |es| ensures EntryFits(StageAll(st.rows, es[..i], s, now), st.rows, es[i], s, now) {
        if i < |init| {
          assert init[..i] == es[..i] && EntryFits(StageAll(st.rows, init[..i], s, now), st.rows, init[i], s, now);
        }
      }
    }
  }

  /** What a caller can see of its requests: no greatest timestamp, and no key twice in a batch. */
  ghost predicate Simple(call: Call, s: Schema) {
    Sane(call, s) && EarlyCall(call, s) && (call.MutateRows? ==> Batches.DistinctKeys(call.es))
  }

  lemma SimpleReplays(st: State, call: Call, s: Schema)
    requires !s.micros && Rebuilt(st, s) && EarlyTable(st.rows) && Simple(call, s)
    ensures CallReplays(st, call, s) && EarlyTable(After(st, call, s).rows)
  {
    match call
    case Single(q) => StepEarly(st, q, s);
    case MutateRows(es, now) =>
      BatchEarly(st, es, s, now);
      BatchIsSequential(st, es, s, now);
  }

  /** Whatever simple requests were made, the log rebuilds the table. */
  lemma {:induction false} SimpleRunsRebuild(calls: seq<Call>, s: Schema)
    requires !s.micros && forall i :: 0 <= i < |calls| ==> Simple(calls[i], s)
    ensures Rebuilt(Run(calls, s), s) && EarlyTable(Run(calls, s).rows)
  {
    if calls != [] {
      SimpleRunsRebuild(calls[..|calls| - 1], s);
      SimpleReplays(Run(calls[..|calls| - 1], s), calls[|calls| - 1], s);
      AfterCall(Run(calls[..|calls| - 1], s), calls[|calls| - 1], s);
    }
  }
}
