/** A table: its stored rows and its change log, edited by the write handlers. */
module Tables {
  import opened Basics
  import opened Lex
  import opened Names
  import opened Columns
  import opened Mutations
  import opened Replay
  import opened Rows
  import opened RowEngine
  import opened Writes
  import B = Batches

  type Stored = map<Bytes, Families>

  /** The stored rows as families. */
  ghost function RowsRep(rows: Writes.Rows, s: Schema): Stored { map key | key in rows :: Rep(rows[key], s) }

  function FamiliesAt(stored: Stored, key: Bytes): Families { if key in stored then stored[key] else map[] }

  function SaveFamilies(stored: Stored, key: Bytes, fs: Families): Stored {
    if fs == map[] then stored - {key} else stored[key := fs]
  }

  lemma RepEmpty(c: Content, s: Schema)
    ensures Rep(c, s) == map[] <==> c == map[]
  {
    if c == map[] {
      assert FamiliesIn(c) == {};
    } else {
      var k :| k in c;
      assert k.0 in FamiliesIn(c);
      assert k.0 in Rep(c, s);
    }
  }

  lemma HeldAt(rows: Writes.Rows, key: Bytes, s: Schema)
    ensures FamiliesAt(RowsRep(rows, s), key) == Rep(RowAt(rows, key), s)
  {
    RepEmpty(map[], s);
  }

  ghost predicate SameAt(a: Stored, b: Stored, key: Bytes) { (key in a <==> key in b) && (key in a ==> a[key] == b[key]) }

  lemma SameEverywhere(a: Stored, b: Stored)
    requires forall key :: SameAt(a, b, key)
    ensures a == b
  {
    assert forall key :: SameAt(a, b, key) ==> (key in a <==> key in b);
    assert a.Keys == b.Keys;
    assert forall key | key in a.Keys :: SameAt(a, b, key) && a[key] == b[key];
  }

  lemma SavedAt(rows: Writes.Rows, key: Bytes, c: Content, s: Schema)
    ensures SameAt(RowsRep(Save(rows, key, c), s), SaveFamilies(RowsRep(rows, s), key, Rep(c, s)), key)
  {
    RepEmpty(c, s);
  }

  lemma SavedElsewhere(rows: Writes.Rows, key: Bytes, c: Content, fs: Families, s: Schema, k: Bytes)
    requires k != key
    ensures SameAt(RowsRep(Save(rows, key, c), s), SaveFamilies(RowsRep(rows, s), key, fs), k)
  {
  }

  lemma HeldAfterSave(rows: Writes.Rows, key: Bytes, c: Content, s: Schema)
    ensures RowsRep(Save(rows, key, c), s) == SaveFamilies(RowsRep(rows, s), key, Rep(c, s))
  {
    var a, b := RowsRep(Save(rows, key, c), s), SaveFamilies(RowsRep(rows, s), key, Rep(c, s));
    forall k ensures SameAt(a, b, k) {
      if k == key { SavedAt(rows, key, c, s); } else { SavedElsewhere(rows, key, c, Rep(c, s), s, k); }
    }
    SameEverywhere(a, b);
  }

  // ---- staging a batch ----

  datatype StagedRow = StagedRow(after: Families, user: seq<Mutation>, gc: seq<Mutation>)

  ghost predicate Holds(r: StagedRow, p: B.Pending, s: Schema) {
    GoodRow(p.row, s) && r == StagedRow(Rep(p.row, s), p.user, p.gc)
  }

  /** The staged rows and their order are those of the batch `b`. */
  ghost predicate Tracks(staged: map<Bytes, StagedRow>, order: seq<Bytes>, b: B.Batch, s: Schema) {
    && order == b.order && staged.Keys == b.staged.Keys
    && forall key :: key in staged ==> Holds(staged[key], b.staged[key], s)
  }

  lemma TracksOneMore(staged: map<Bytes, StagedRow>, order: seq<Bytes>, b: B.Batch, s: Schema, key: Bytes, r: StagedRow, p: B.Pending)
    requires Tracks(staged, order, b, s) && Holds(r, p, s)
    ensures Tracks(staged[key := r], if key in staged then order else order + [key], B.Staged(b, key, p), s)
  {
  }

  lemma BaseHolds(staged: map<Bytes, StagedRow>, order: seq<Bytes>, b: B.Batch, rows: Writes.Rows, s: Schema, key: Bytes)
    requires Tracks(staged, order, b, s) && GoodTable(rows, s)
    ensures Holds(if key in staged then staged[key] else StagedRow(FamiliesAt(RowsRep(rows, s), key), [], []),
                  B.BaseOf(b, rows, key), s)
  {
    HeldAt(rows, key, s);
    RowIsGood(rows, key, s);
  }

  /** A checked mutation has an answer when the check does and the list it chooses, if not empty, succeeds. */
  ghost predicate Answers(c: Content, found: Option<bool>, yes: seq<Mutation>, no: seq<Mutation>, s: Schema, now: int) {
    && (yes != [] || no != []) && found.Some?
    && var ms := if found.value then yes else no; ms == [] || Mutate(c, ms, s, now).Some?
  }

  class Table {
    const schema: Schema
    var stored: Stored
    var log: seq<Record>
    ghost var state: State

    ghost predicate Valid()
      reads this
    {
      GoodTable(state.rows, schema) && stored == RowsRep(state.rows, schema) && log == state.log
    }

    constructor (s: Schema)
      ensures Valid() && schema == s && state == State(map[], [])
    {
      schema := s;
      stored, log, state := map[], [], State(map[], []);
    }

    /** A private copy of the row to edit. */
    method Load(key: Bytes) returns (r: Row)
      requires Valid()
      ensures fresh(r) && r.Valid() && r.schema == schema && r.content == RowAt(state.rows, key)
    {
      HeldAt(state.rows, key, schema);
      RowIsGood(state.rows, key, schema);
      r := new Row.Copy(schema, FamiliesAt(stored, key), RowAt(state.rows, key));
    }

    /** The edited copy is collected and, with its changes, persisted in one step. */
    method CommitRow(key: Bytes, r: Row, changes: seq<Mutation>, gcNow: int)
      requires Valid() && r.Valid() && r.schema == schema
      modifies this, r
      ensures Valid() && state == Commit(old(state), key, Edited(old(r.content), changes), schema, gcNow)
    {
      ghost var e := Edited(r.content, changes);
      var gc := r.GcWithChanges(gcNow);
      HeldAfterSave(state.rows, key, r.content, schema);
      SaveIsGood(state.rows, key, r.content, schema);
      stored := SaveFamilies(stored, key, r.families);
      log := log + Logged(key, changes) + Logged(key, gc);
      state := Commit(state, key, e, schema, gcNow);
    }

    /** Validates, applies and commits; without `always`, only when something was changed. */
    method ApplyAndCommit(key: Bytes, r: Row, ms: seq<Mutation>, now: int, gcNow: int, always: bool) returns (ok: bool)
      requires Valid() && ValidTs(schema, now) && r.Valid() && r.schema == schema
      modifies this, r
      ensures var e := Mutate(old(r.content), ms, schema, now);
              && Valid() && ok == e.Some?
              && state == if e.None? || (!always && e.value.changes == []) then old(state)
                          else Commit(old(state), key, e.value, schema, gcNow)
    {
      if !ValidMutations(ms, schema) {
        return false;
      }
      var changes;
      ok, changes := r.ApplyMutations(ms, now);
      if ok && (always || changes != []) {
        CommitRow(key, r, changes, gcNow);
      }
    }

    method MutateRow(key: Bytes, ms: seq<Mutation>, now: int, gcNow: int) returns (ok: bool)
      requires Valid() && ValidTs(schema, now)
      modifies this
      ensures Valid() && state == Step(old(state), Request.MutateRow(key, ms, now, gcNow), schema)
      ensures ok == EditOf(RowAt(old(state).rows, key), Request.MutateRow(key, ms, now, gcNow), schema).Some?
    {
      if !ValidKey(key) {
        return false;
      }
      var r := Load(key);
      ok := ApplyAndCommit(key, r, ms, now, gcNow, true);
    }

    /** `test` judges the row as families, as `spec` judges its content. */
    method CheckAndMutateRow(key: Bytes, test: Families -> Option<bool>, ghost spec: Content -> Option<bool>,
                             yes: seq<Mutation>, no: seq<Mutation>, now: int, gcNow: int) returns (matched: Option<bool>)
      requires Valid() && ValidTs(schema, now) && forall c :: spec(c) == test(Rep(c, schema))
      modifies this
      ensures Valid() && state == Step(old(state), Request.CheckAndMutateRow(key, spec, yes, no, now, gcNow), schema)
      ensures var c := RowAt(old(state).rows, key);
              matched == if ValidKey(key) && Answers(c, spec(c), yes, no, schema, now) then spec(c) else None
    {
      if !ValidKey(key) || (yes == [] && no == []) {
        return None;
      }
      var r := Load(key);
      matched := test(r.families);
      if matched.None? {
        return;
      }
      var ms := if matched.value then yes else no;
      if ms == [] {
        return;
      }
      var ok := ApplyAndCommit(key, r, ms, now, gcNow, false);
      if !ok {
        matched := None;
      }
    }

    method ReadModifyWriteRow(key: Bytes, rules: seq<Rule>, seenAt: int, gcNow: int) returns (ok: bool)
      requires Valid() && SaneClock(Request.ReadModifyWriteRow(key, rules, seenAt, gcNow), schema)
      modifies this
      ensures Valid() && state == Step(old(state), Request.ReadModifyWriteRow(key, rules, seenAt, gcNow), schema)
      ensures ok == EditOf(RowAt(old(state).rows, key), Request.ReadModifyWriteRow(key, rules, seenAt, gcNow), schema).Some?
    {
      if !ValidKey(key) || !ValidRules(rules, schema) {
        return false;
      }
      var r := Load(key);
      var seen := new Row.Copy(schema, r.families, r.content);
      var _ := seen.GcWithChanges(seenAt);
      var changes;
      ok, changes := Modify(r, seen, rules);
      if ok {
        CommitRow(key, r, changes, gcNow);
      }
    }

    method StageEntry(staged: map<Bytes, StagedRow>, order: seq<Bytes>, e: B.Entry, now: int, ghost b: B.Batch)
      returns (ok: bool, staged': map<Bytes, StagedRow>, order': seq<Bytes>)
      requires Valid() && ValidTs(schema, now) && Tracks(staged, order, b, schema)
      ensures Tracks(staged', order', B.StageEntry(b, state.rows, e, schema, now), schema)
      ensures ok == EditOf(B.BaseOf(b, state.rows, e.key).row, B.RequestOf(e, now), schema).Some?
    {
      staged', order' := staged, order;
      if !ValidKey(e.key) || !ValidMutations(e.ms, schema) {
        return false, staged, order;
      }
      BaseHolds(staged, order, b, state.rows, schema, e.key);
      var base := if e.key in staged then staged[e.key] else StagedRow(FamiliesAt(stored, e.key), [], []);
      var r := new Row.Copy(schema, base.after, B.BaseOf(b, state.rows, e.key).row);
      var changes;
      ok, changes := r.ApplyMutations(e.ms, now);
      if ok {
        var gc := r.GcWithChanges(e.gcNow);
        var next := StagedRow(r.families, base.user + changes, base.gc + gc);
        TracksOneMore(staged, order, b, schema, e.key, next, B.Pending(r.content, base.user + changes, base.gc + gc));
        staged' := staged[e.key := next];
        order' := if e.key in staged then order else order + [e.key];
      }
    }

    /** Entry `i` succeeds on what the entries before it left. */
    ghost predicate Commits(rows: Writes.Rows, es: seq<B.Entry>, now: int, i: nat)
      requires i < |es|
    {
      var b := B.StageAll(rows, es[..i], schema, now);
      EditOf(B.BaseOf(b, rows, es[i].key).row, B.RequestOf(es[i], now), schema).Some?
    }

    method StageNext(staged: map<Bytes, StagedRow>, order: seq<Bytes>, es: seq<B.Entry>, i: nat, now: int)
      returns (ok: bool, staged': map<Bytes, StagedRow>, order': seq<Bytes>)
      requires Valid() && ValidTs(schema, now) && i < |es|
      requires Tracks(staged, order, B.StageAll(state.rows, es[..i], schema, now), schema)
      ensures Tracks(staged', order', B.StageAll(state.rows, es[..i + 1], schema, now), schema)
      ensures ok == Commits(state.rows, es, now, i)
    {
      assert es[..i + 1][..i] == es[..i];
      ok, staged', order' := StageEntry(staged, order, es[i], now, B.StageAll(state.rows, es[..i], schema, now));
    }

    ghost predicate Answered(rows: Writes.Rows, es: seq<B.Entry>, now: int, oks: seq<bool>) {
      |oks| <= |es| && forall i :: 0 <= i < |oks| ==> oks[i] == Commits(rows, es, now, i)
    }

    lemma AnsweredOneMore(rows: Writes.Rows, es: seq<B.Entry>, now: int, oks: seq<bool>, ok: bool)
      requires Answered(rows, es, now, oks) && |oks| < |es| && ok == Commits(rows, es, now, |oks|)
      ensures Answered(rows, es, now, oks + [ok])
    {
    }

    /** Every entry is staged on what the entries before it left. */
    method StageEntries(es: seq<B.Entry>, now: int) returns (oks: seq<bool>, staged: map<Bytes, StagedRow>, order: seq<Bytes>)
      requires Valid() && ValidTs(schema, now)
      ensures Tracks(staged, order, B.StageAll(state.rows, es, schema, now), schema)
      ensures |oks| == |es| && Answered(state.rows, es, now, oks)
    {
      oks, staged, order := [], map[], [];
      assert B.StageAll(state.rows, es[..0], schema, now) == B.Batch(map[], []);
      for i := 0 to |es|
        invariant Tracks(staged, order, B.StageAll(state.rows, es[..i], schema, now), schema)
        invariant |oks| == i && Answered(state.rows, es, now, oks)
      {
        var ok;
        ok, staged, order := StageNext(staged, order, es, i, now);
        AnsweredOneMore(state.rows, es, now, oks, ok);
        oks := oks + [ok];
      }
      assert es[..|es|] == es;
    }

    /** An accepted batch is staged, and then each staged row is saved once. */
    method MutateRows(es: seq<B.Entry>, now: int) returns (accepted: bool, oks: seq<bool>, saved: seq<Bytes>)
      requires Valid() && ValidTs(schema, now)
      modifies this
      ensures Valid() && accepted == B.Accepts(es)
      ensures state == if accepted then B.Commit(old(state), es, schema, now) else old(state)
      ensures accepted ==> saved == B.StageAll(old(state).rows, es, schema, now).order
      ensures accepted ==> |oks| == |es| && Answered(old(state).rows, es, now, oks)
    {
      var n := CountAll(es);
      accepted, oks, saved := 0 < n <= B.MAX_MUTATIONS, [], [];
      if accepted {
        var staged;
        oks, staged, saved := StageEntries(es, now);
        B.StageAllConsistent(state.rows, es, schema, now);
        SaveStaged(staged, saved, B.StageAll(state.rows, es, schema, now));
      }
    }

    method SaveStaged(staged: map<Bytes, StagedRow>, order: seq<Bytes>, ghost b: B.Batch)
      requires Valid() && Tracks(staged, order, b, schema) && B.Consistent(b)
      modifies this
      ensures Valid()
      ensures state == State(B.SaveAll(old(state).rows, b.order, b.staged), old(state).log + B.LogAll(b.order, b.staged))
    {
      ghost var st := state;
      for j := 0 to |order|
        invariant Valid()
        invariant state == State(B.SaveAll(st.rows, order[..j], b.staged), st.log + B.LogAll(order[..j], b.staged))
      {
        var key := order[j];
        B.SaveNext(st, order, b.staged, j);
        assert Holds(staged[key], b.staged[key], schema);
        SaveOne(key, staged[key], b.staged[key]);
      }
      assert order[..|order|] == order;
    }

    method SaveOne(key: Bytes, r: StagedRow, ghost p: B.Pending)
      requires Valid() && Holds(r, p, schema)
      modifies this
      ensures Valid()
      ensures state == State(Save(old(state).rows, key, p.row), old(state).log + Logged(key, r.user) + Logged(key, r.gc))
    {
      HeldAfterSave(state.rows, key, p.row, schema);
      SaveIsGood(state.rows, key, p.row, schema);
      stored := SaveFamilies(stored, key, r.after);
      log := log + Logged(key, r.user) + Logged(key, r.gc);
      state := State(Save(state.rows, key, p.row), log);
    }

    /** Deletes the rows that `drops` selects and logs one deletion per family of each. */
    method DropRowRange(drops: Bytes -> bool)
      requires Valid()
      modifies this
      ensures Valid() && state == Step(old(state), Request.DropRowRange(drops), schema)
    {
      var gone := set key | key in stored && drops(key);
      assert gone == Dropped(state.rows, drops);
      var keys := SortNames(gone, ByName);
      ghost var st := state;
      var records: seq<Record> := [];
      for i := 0 to |keys|
        invariant Valid() && state == st && records == DropRecords(st.rows, keys[..i], schema)
      {
        assert keys[..i + 1][..i] == keys[..i];
        var r := Load(keys[i]);
        var names := r.SortedFamilies();
        records := records + [Record(keys[i], Drops(names))];
      }
      assert keys[..|keys|] == keys;
      KeepsRep(state.rows, gone, schema);
      stored := stored - gone;
      log := log + records;
      state := State(st.rows - gone, log);
    }
  }

  lemma KeepsRep(rows: Writes.Rows, gone: set<Bytes>, s: Schema)
    ensures RowsRep(rows - gone, s) == RowsRep(rows, s) - gone
    ensures GoodTable(rows, s) ==> GoodTable(rows - gone, s)
  {
    var a, b := RowsRep(rows - gone, s), RowsRep(rows, s) - gone;
    forall key ensures SameAt(a, b, key) { }
    SameEverywhere(a, b);
  }

  method CountAll(es: seq<B.Entry>) returns (n: nat)
    ensures n == B.CountMutations(es)
  {
    n := 0;
    for i := 0 to |es|
      invariant n == B.CountMutations(es[..i])
    {
      assert es[..i + 1][..i] == es[..i];
      n := n + |es[i].ms|;
    }
    assert es[..|es|] == es;
  }

  /** Rules read the newest visible cell and write it to the row and to what later rules see. */
  method Modify(r: Row, seen: Row, rules: seq<Rule>) returns (ok: bool, changes: seq<Mutation>)
    requires r != seen && r.Valid() && seen.Valid() && r.schema == seen.schema
    requires forall i :: 0 <= i < |rules| ==> ValidRule(rules[i], r.schema) && ValidTs(r.schema, rules[i].clock)
    modifies r, seen
    ensures r.Valid() && ok == ApplyRules(old(r.content), old(seen.content), rules).Some?
    ensures ok ==> var m := ApplyRules(old(r.content), old(seen.content), rules).value; r.content == m.row && changes == m.changes
  {
    changes := [];
    ghost var c, d := r.content, seen.content;
    for i := 0 to |rules|
      invariant r.Valid() && seen.Valid()
      invariant ApplyRules(c, d, rules[..i]) == Some(Modified(r.content, seen.content, changes))
    {
      var rule := rules[i];
      assert rules[..i + 1][..i] == rules[..i];
      var cs := seen.CellsOf(rule.fam, rule.col);
      var x := NewCell(rule, cs);
      if x.None? {
        RulesStuck(c, d, rules, i + 1);
        return false, [];
      }
      ColumnIsGood(seen.content, (rule.fam, rule.col), seen.schema);
      NewCellIsValid(rule, cs, r.schema);
      r.SetCell(rule.fam, rule.col, x.value);
      seen.SetCell(rule.fam, rule.col, x.value);
      changes := changes + [SetCell(rule.fam, rule.col, x.value.ts, x.value.value, false)];
    }
    assert rules[..|rules|] == rules;
    ok := true;
  }

  lemma {:induction false} RulesStuck(c: Content, seen: Content, rules: seq<Rule>, n: nat)
    requires n <= |rules| && ApplyRules(c, seen, rules[..n]).None?
    ensures ApplyRules(c, seen, rules).None?
  {
    if n == |rules| {
      assert rules[..n] == rules;
    } else {
      assert rules[..|rules| - 1][..n] == rules[..n];
      RulesStuck(c, seen, rules[..|rules| - 1], n);
    }
  }
}
