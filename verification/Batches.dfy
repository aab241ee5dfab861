/** A MutateRows batch: entries are staged one after the other, and every touched row is saved once. */
module Batches {
  import opened Basics
  import opened Lex
  import opened Names
  import opened Mutations
  import opened Replay
  import opened Writes

  datatype Entry = Entry(key: Bytes, ms: seq<Mutation>, gcNow: int)

  const MAX_MUTATIONS := 100000

  function CountMutations(es: seq<Entry>): nat { if es == [] then 0 else CountMutations(es[..|es| - 1]) + |es[|es| - 1].ms| }

  /** A request with no mutation, or with too many in all, is refused as a whole. */
  predicate Accepts(es: seq<Entry>) { 0 < CountMutations(es) <= MAX_MUTATIONS }

  function RequestOf(e: Entry, now: int): Request { MutateRow(e.key, e.ms, now, e.gcNow) }

  /** The entries as requests of their own. */
  ghost function Sequentially(st: State, es: seq<Entry>, s: Schema, now: int): State {
    if es == [] then st else Step(Sequentially(st, es[..|es| - 1], s, now), RequestOf(es[|es| - 1], now), s)
  }

  /** A staged row with the changes of all the entries it has taken. */
  datatype Pending = Pending(row: Content, user: seq<Mutation>, gc: seq<Mutation>)

  datatype Batch = Batch(staged: map<Bytes, Pending>, order: seq<Bytes>)

  function BaseOf(b: Batch, rows: Rows, key: Bytes): Pending {
    if key in b.staged then b.staged[key] else Pending(RowAt(rows, key), [], [])
  }

  ghost function StageEntry(b: Batch, rows: Rows, e: Entry, s: Schema, now: int): Batch {
    var base := BaseOf(b, rows, e.key);
    StageEdit(b, base, e.key, EditOf(base.row, RequestOf(e, now), s), s, e.gcNow)
  }

  /** The edit of one entry is collected and staged; a failed one leaves the batch as it is. */
  ghost function StageEdit(b: Batch, base: Pending, key: Bytes, d: Option<Edited>, s: Schema, gcNow: int): Batch {
    match d
    case None => b
    case Some(d) => Staged(b, key, Pending(CollectRow(d.after, s, gcNow), base.user + d.changes,
                                           base.gc + GcRecords(d.after, s, gcNow)))
  }

  function Staged(b: Batch, key: Bytes, p: Pending): Batch {
    Batch(b.staged[key := p], if key in b.staged then b.order else b.order + [key])
  }

  ghost function StageAll(rows: Rows, es: seq<Entry>, s: Schema, now: int): Batch {
    if es == [] then Batch(map[], [])
    else StageEntry(StageAll(rows, es[..|es| - 1], s, now), rows, es[|es| - 1], s, now)
  }

  ghost function SaveAll(rows: Rows, order: seq<Bytes>, staged: map<Bytes, Pending>): Rows
    requires forall i :: 0 <= i < |order| ==> order[i] in staged
  {
    if order == [] then rows
    else
      var key := order[|order| - 1];
      Save(SaveAll(rows, order[..|order| - 1], staged), key, staged[key].row)
  }

  ghost function LogAll(order: seq<Bytes>, staged: map<Bytes, Pending>): seq<Record>
    requires forall i :: 0 <= i < |order| ==> order[i] in staged
  {
    if order == [] then []
    else
      var key := order[|order| - 1];
      LogAll(order[..|order| - 1], staged) + Logged(key, staged[key].user) + Logged(key, staged[key].gc)
  }

  lemma SaveNext(st: State, order: seq<Bytes>, staged: map<Bytes, Pending>, j: nat)
    requires j < |order| && forall i :: 0 <= i < |order| ==> order[i] in staged
    ensures var p := staged[order[j]];
            && SaveAll(st.rows, order[..j + 1], staged) == Save(SaveAll(st.rows, order[..j], staged), order[j], p.row)
            && st.log + LogAll(order[..j + 1], staged)
               == st.log + LogAll(order[..j], staged) + Logged(order[j], p.user) + Logged(order[j], p.gc)
  {
    var p := staged[order[j]];
    assert order[..j + 1][..j] == order[..j];
    Regroup(st.log, LogAll(order[..j], staged), Logged(order[j], p.user), Logged(order[j], p.gc));
  }

  /** Every staged row is saved exactly once. */
  ghost predicate Consistent(b: Batch) {
    && (forall i :: 0 <= i < |b.order| ==> b.order[i] in b.staged)
    && (forall i, j :: 0 <= i < j < |b.order| ==> b.order[i] != b.order[j])
    && (forall key :: key in b.staged ==> key in b.order)
  }

  lemma StagedConsistent(b: Batch, key: Bytes, p: Pending)
    requires Consistent(b)
    ensures Consistent(Staged(b, key, p))
  {
    if key !in b.staged { assert key !in b.order; }
  }

  lemma StageEntryConsistent(b: Batch, rows: Rows, e: Entry, s: Schema, now: int)
    requires Consistent(b)
    ensures var b' := StageEntry(b, rows, e, s, now); Consistent(b') && b'.staged.Keys <= b.staged.Keys + {e.key}
  {
    var base := BaseOf(b, rows, e.key);
    StageEditConsistent(b, base, e.key, EditOf(base.row, RequestOf(e, now), s), s, e.gcNow);
  }

  lemma StageEditConsistent(b: Batch, base: Pending, key: Bytes, d: Option<Edited>, s: Schema, gcNow: int)
    requires Consistent(b)
    ensures var b' := StageEdit(b, base, key, d, s, gcNow); Consistent(b') && b'.staged.Keys <= b.staged.Keys + {key}
  {
    if d.Some? {
      StagedConsistent(b, key, Pending(CollectRow(d.value.after, s, gcNow), base.user + d.value.changes,
                                       base.gc + GcRecords(d.value.after, s, gcNow)));
    }
  }

  ghost function KeysOf(es: seq<Entry>): set<Bytes> { set i | 0 <= i < |es| :: es[i].key }

  lemma KeysOfLast(es: seq<Entry>)
    requires es != []
    ensures KeysOf(es) == KeysOf(es[..|es| - 1]) + {es[|es| - 1].key}
  {
    var init, last := es[..|es| - 1], es[|es| - 1];
    forall k | k in KeysOf(init) + {last.key} ensures k in KeysOf(es) {
      if k in KeysOf(init) {
        var i :| 0 <= i < |init| && init[i].key == k;
        assert es[i].key == k;
      }
    }
  }

  lemma {:induction false} StageAllConsistent(rows: Rows, es: seq<Entry>, s: Schema, now: int)
    ensures Consistent(StageAll(rows, es, s, now)) && StageAll(rows, es, s, now).staged.Keys <= KeysOf(es)
  {
    if es != [] {
      StageAllConsistent(rows, es[..|es| - 1], s, now);
      StageEntryConsistent(StageAll(rows, es[..|es| - 1], s, now), rows, es[|es| - 1], s, now);
      KeysOfLast(es);
    }
  }

  ghost function Commit(st: State, es: seq<Entry>, s: Schema, now: int): State {
    StageAllConsistent(st.rows, es, s, now);
    var b := StageAll(st.rows, es, s, now);
    State(SaveAll(st.rows, b.order, b.staged), st.log + LogAll(b.order, b.staged))
  }

  // ---- the batch leaves the rows that its entries leave one by one ----

  lemma {:induction false} SaveAllAt(rows: Rows, order: seq<Bytes>, staged: map<Bytes, Pending>, key: Bytes)
    requires forall i :: 0 <= i < |order| ==> order[i] in staged
    ensures RowAt(SaveAll(rows, order, staged), key) == if key in order then staged[key].row else RowAt(rows, key)
  {
    if order != [] {
      SaveAllAt(rows, order[..|order| - 1], staged, key);
      assert order == order[..|order| - 1] + [order[|order| - 1]];
    }
  }

  ghost predicate NoEmptyRow(rows: Rows) { forall key :: key in rows ==> rows[key] != map[] }

  lemma {:induction false} SaveAllKeeps(rows: Rows, order: seq<Bytes>, staged: map<Bytes, Pending>)
    requires NoEmptyRow(rows) && forall i :: 0 <= i < |order| ==> order[i] in staged
    ensures NoEmptyRow(SaveAll(rows, order, staged))
  {
    if order != [] { SaveAllKeeps(rows, order[..|order| - 1], staged); }
  }

  lemma SameRows(a: Rows, b: Rows)
    requires NoEmptyRow(a) && NoEmptyRow(b) && forall key :: RowAt(a, key) == RowAt(b, key)
    ensures a == b
  {
    forall key ensures key in a <==> key in b { assert RowAt(a, key) == RowAt(b, key); }
    forall key | key in a ensures a[key] == b[key] { assert RowAt(a, key) == RowAt(b, key); }
  }

  lemma StepAt(st: State, q: Request, s: Schema, key: Bytes)
    requires !q.DropRowRange?
    ensures var e := EditOf(RowAt(st.rows, q.key), q, s);
            RowAt(Step(st, q, s).rows, key) ==
              if e.Some? && key == q.key then CollectRow(e.value.after, s, q.gcNow) else RowAt(st.rows, key)
    ensures NoEmptyRow(st.rows) ==> NoEmptyRow(Step(st, q, s).rows)
  {
    var e := EditOf(RowAt(st.rows, q.key), q, s);
    if e.Some? { SaveAt(st.rows, q.key, CollectRow(e.value.after, s, q.gcNow), key); }
  }

  lemma SaveAt(rows: Rows, key: Bytes, c: Content, k: Bytes)
    ensures RowAt(Save(rows, key, c), k) == if k == key then c else RowAt(rows, k)
    ensures NoEmptyRow(rows) ==> NoEmptyRow(Save(rows, key, c))
  {
  }

  lemma {:induction false} StagedRows(st: State, es: seq<Entry>, s: Schema, now: int, key: Bytes)
    requires NoEmptyRow(st.rows)
    ensures NoEmptyRow(Sequentially(st, es, s, now).rows)
    ensures RowAt(Sequentially(st, es, s, now).rows, key) == BaseOf(StageAll(st.rows, es, s, now), st.rows, key).row
  {
    if es != [] {
      var init, e := es[..|es| - 1], es[|es| - 1];
      StagedRows(st, init, s, now, key);
      StagedRows(st, init, s, now, e.key);
      StepAt(Sequentially(st, init, s, now), RequestOf(e, now), s, key);
    }
  }

  /** The batch leaves the same table as its entries one at a time in request order. */
  lemma BatchIsSequential(st: State, es: seq<Entry>, s: Schema, now: int)
    requires NoEmptyRow(st.rows)
    ensures Commit(st, es, s, now).rows == Sequentially(st, es, s, now).rows
  {
    var b := StageAll(st.rows, es, s, now);
    StageAllConsistent(st.rows, es, s, now);
    SaveAllKeeps(st.rows, b.order, b.staged);
    forall key ensures RowAt(Commit(st, es, s, now).rows, key) == RowAt(Sequentially(st, es, s, now).rows, key) {
      SaveAllAt(st.rows, b.order, b.staged, key);
      StagedRows(st, es, s, now, key);
    }
    StagedRows(st, es, s, now, []);
    SameRows(Commit(st, es, s, now).rows, Sequentially(st, es, s, now).rows);
  }

  // ---- with distinct keys the log is the same too ----

  lemma {:induction false} LogAllElsewhere(order: seq<Bytes>, staged: map<Bytes, Pending>, key: Bytes, p: Pending)
    requires key !in order && forall i :: 0 <= i < |order| ==> order[i] in staged
    ensures LogAll(order, staged[key := p]) == LogAll(order, staged)
  {
    if order != [] {
      assert order[|order| - 1] in order;
      LogAllElsewhere(order[..|order| - 1], staged, key, p);
    }
  }

  ghost predicate DistinctKeys(es: seq<Entry>) { forall i, j :: 0 <= i < j < |es| ==> es[i].key != es[j].key }

  lemma LogOneMore(b: Batch, key: Bytes, p: Pending)
    requires Consistent(b) && key !in b.staged
    ensures var b' := Staged(b, key, p);
            Consistent(b') && LogAll(b'.order, b'.staged) == LogAll(b.order, b.staged) + Logged(key, p.user) + Logged(key, p.gc)
  {
    var b' := Staged(b, key, p);
    StagedConsistent(b, key, p);
    assert b'.order[..|b.order|] == b.order;
    assert key !in b.order;
    LogAllElsewhere(b.order, b.staged, key, p);
  }

  lemma NotStagedYet(rows: Rows, es: seq<Entry>, s: Schema, now: int)
    requires es != [] && DistinctKeys(es)
    ensures es[|es| - 1].key !in StageAll(rows, es[..|es| - 1], s, now).staged
  {
    var init, e := es[..|es| - 1], es[|es| - 1];
    StageAllConsistent(rows, init, s, now);
    assert forall i :: 0 <= i < |init| ==> init[i] == es[i] && es[i].key != e.key;
    assert e.key !in KeysOf(init);
  }

  /** What the edit of one request logs. */
  ghost function LogOf(key: Bytes, d: Option<Edited>, s: Schema, gcNow: int): seq<Record> {
    match d
    case None => []
    case Some(d) => Logged(key, d.changes) + Logged(key, GcRecords(d.after, s, gcNow))
  }

  lemma StepLogs(st: State, q: Request, s: Schema)
    requires !q.DropRowRange?
    ensures Step(st, q, s).log == st.log + LogOf(q.key, EditOf(RowAt(st.rows, q.key), q, s), s, q.gcNow)
  {
    var d := EditOf(RowAt(st.rows, q.key), q, s);
    if d.None? {
      assert st.log + [] == st.log;
    } else {
      var gc := Logged(q.key, GcRecords(d.value.after, s, q.gcNow));
      assert st.log + (Logged(q.key, d.value.changes) + gc) == st.log + Logged(q.key, d.value.changes) + gc;
    }
  }

  lemma StageLogs(b: Batch, row: Content, key: Bytes, d: Option<Edited>, s: Schema, gcNow: int)
    requires Consistent(b) && key !in b.staged
    ensures var b' := StageEdit(b, Pending(row, [], []), key, d, s, gcNow);
            Consistent(b') && LogAll(b'.order, b'.staged) == LogAll(b.order, b.staged) + LogOf(key, d, s, gcNow)
  {
    var log := LogAll(b.order, b.staged);
    if d.None? {
      assert log + [] == log;
    } else {
      StagedLogs(b, key, CollectRow(d.value.after, s, gcNow), d.value.changes, GcRecords(d.value.after, s, gcNow));
    }
  }

  lemma StagedLogs(b: Batch, key: Bytes, row: Content, user: seq<Mutation>, gc: seq<Mutation>)
    requires Consistent(b) && key !in b.staged
    ensures var b' := Staged(b, key, Pending(row, [] + user, [] + gc));
            Consistent(b') && LogAll(b'.order, b'.staged) == LogAll(b.order, b.staged) + (Logged(key, user) + Logged(key, gc))
  {
    assert [] + user == user && [] + gc == gc;
    LogOneMore(b, key, Pending(row, user, gc));
    Associative(LogAll(b.order, b.staged), Logged(key, user), Logged(key, gc));
  }

  /** One more entry with a new key logs the same in both. */
  lemma EntryLogs(b: Batch, st: State, mid: State, e: Entry, s: Schema, now: int)
    requires Consistent(b) && e.key !in b.staged && RowAt(mid.rows, e.key) == RowAt(st.rows, e.key)
    requires st.log + LogAll(b.order, b.staged) == mid.log
    ensures var b' := StageEntry(b, st.rows, e, s, now);
            Consistent(b') && st.log + LogAll(b'.order, b'.staged) == Step(mid, RequestOf(e, now), s).log
  {
    var d := EditOf(RowAt(st.rows, e.key), RequestOf(e, now), s);
    StageLogs(b, RowAt(st.rows, e.key), e.key, d, s, e.gcNow);
    StepLogs(mid, RequestOf(e, now), s);
    Associative(st.log, LogAll(b.order, b.staged), LogOf(e.key, d, s, e.gcNow));
  }

  /** A batch without repeated keys also logs what its entries log one at a time. */
  lemma {:induction false} DistinctBatchLogsSequentially(st: State, es: seq<Entry>, s: Schema, now: int)
    requires NoEmptyRow(st.rows) && DistinctKeys(es)
    ensures Commit(st, es, s, now).log == Sequentially(st, es, s, now).log
  {
    StageAllConsistent(st.rows, es, s, now);
    if es == [] {
      assert st.log + [] == st.log;
    } else {
      var init, e := es[..|es| - 1], es[|es| - 1];
      var b, mid := StageAll(st.rows, init, s, now), Sequentially(st, init, s, now);
      DistinctBatchLogsSequentially(st, init, s, now);
      StageAllConsistent(st.rows, init, s, now);
      NotStagedYet(st.rows, es, s, now);
      StagedRows(st, init, s, now, e.key);
      EntryLogs(b, st, mid, e, s, now);
    }
  }

  lemma Regroup(a: seq<Record>, b: seq<Record>, c: seq<Record>, d: seq<Record>)
    ensures a + (b + c + d) == (a + b) + c + d
  {
  }

  lemma StageInvalid(b: Batch, rows: Rows, e: Entry, s: Schema, now: int)
    requires !ValidKey(e.key) || !ValidMutations(e.ms, s)
    ensures StageEntry(b, rows, e, s, now) == b
  {
  }

  lemma StageLast(rows: Rows, es: seq<Entry>, e: Entry, s: Schema, now: int)
    ensures StageAll(rows, es + [e], s, now) == StageEntry(StageAll(rows, es, s, now), rows, e, s, now)
  {
    assert (es + [e])[..|es|] == es;
  }

  /** An invalid entry changes nothing, wherever it stands. */
  lemma {:induction false} InvalidEntryChangesNothing(rows: Rows, a: seq<Entry>, e: Entry, c: seq<Entry>, s: Schema, now: int)
    requires !ValidKey(e.key) || !ValidMutations(e.ms, s)
    ensures StageAll(rows, a + [e] + c, s, now) == StageAll(rows, a + c, s, now)
    decreases |c|
  {
    if c == [] {
      StageLast(rows, a, e, s, now);
      StageInvalid(StageAll(rows, a, s, now), rows, e, s, now);
      assert a + c == a && a + [e] + c == a + [e];
    } else {
      var init, last := c[..|c| - 1], c[|c| - 1];
      InvalidEntryChangesNothing(rows, a, e, init, s, now);
      StageLast(rows, a + [e] + init, last, s, now);
      StageLast(rows, a + init, last, s, now);
      assert a + [e] + c == a + [e] + init + [last] && a + c == a + init + [last];
    }
  }
}
