/** Every write request as a step on the stored rows and the change log. */
module Writes {
  import opened Basics
  import opened Lex
  import opened Names
  import opened Columns
  import opened Gc
  import opened Mutations
  import opened Replay

  type Rows = map<Bytes, Content>

  datatype Record = Record(key: Bytes, changes: seq<Mutation>)

  datatype State = State(rows: Rows, log: seq<Record>)

  function RowAt(rows: Rows, key: Bytes): Content { if key in rows then rows[key] else map[] }

  /** Saving an empty row removes it. */
  function Save(rows: Rows, key: Bytes, c: Content): Rows { if c == map[] then rows - {key} else rows[key := c] }

  predicate ValidKey(key: Bytes) { 0 < |key| <= 4096 }

  // ---- read-modify-write rules ----

  datatype Change = Append(b: Bytes) | Increment(amount: int) | Unset

  /** `clock` is the server time the rule reads. */
  datatype Rule = Rule(fam: Name, col: Name, change: Change, clock: int)

  predicate ValidRule(r: Rule, s: Schema) {
    r.fam in s.families && s.families[r.fam].kind.NoAggregate? && !r.change.Unset?
  }

  predicate ValidRules(rules: seq<Rule>, s: Schema) {
    0 < |rules| <= 100000 && forall i :: 0 <= i < |rules| ==> ValidRule(rules[i], s)
  }

  /** The cell a rule writes over the newest visible one; None when that is not a 64-bit integer. */
  function NewCell(r: Rule, cs: seq<Cell>): Option<Cell> {
    var ts := if cs != [] && cs[0].ts > r.clock then cs[0].ts else r.clock;
    var was := if cs != [] then cs[0].value else [];
    match r.change
    case Append(b) => Some(Cell(ts, was + b, []))
    case Increment(amount) =>
      if cs == [] then Some(Cell(ts, EncodeInt64(amount), []))
      else if |was| != 8 then None
      else Some(Cell(ts, EncodeInt64(DecodeInt64(was) + amount), []))
    case Unset => None
  }

  /** The row, the row as the rules see it, and the changes. */
  datatype Modified = Modified(row: Content, seen: Content, changes: seq<Mutation>)

  function ApplyRules(c: Content, seen: Content, rules: seq<Rule>): (r: Option<Modified>) {
    if rules == [] then Some(Modified(c, seen, []))
    else
      var m := ApplyRules(c, seen, rules[..|rules| - 1]);
      if m.None? then None else ApplyRule(m.value, rules[|rules| - 1])
  }

  function ApplyRule(m: Modified, r: Rule): (n: Option<Modified>) {
    var k := (r.fam, r.col);
    match NewCell(r, Get(m.seen, k))
    case None => None
    case Some(x) => Some(Modified(
      Store(m.row, k, Put(Get(m.row, k), x)),
      Store(m.seen, k, Put(Get(m.seen, k), x)),
      m.changes + [SetCell(r.fam, r.col, x.ts, x.value, false)]))
  }

  // ---- requests ----

  /** `now` resolves server timestamps, `gcNow` is the time of the collection that ends the commit. */
  datatype Request =
    | MutateRow(key: Bytes, ms: seq<Mutation>, now: int, gcNow: int)
    | CheckAndMutateRow(key: Bytes, test: Content -> Option<bool>, yes: seq<Mutation>, no: seq<Mutation>, now: int, gcNow: int)
    | ReadModifyWriteRow(key: Bytes, rules: seq<Rule>, seenAt: int, gcNow: int)
    | DropRowRange(drops: Bytes -> bool)

  /** What a request does to the private copy of its row, before collection. */
  datatype Edited = Edited(after: Content, changes: seq<Mutation>)

  ghost function Mutate(c: Content, ms: seq<Mutation>, s: Schema, now: int): Option<Edited> {
    if !ValidMutations(ms, s) then None
    else match ApplyAll(c, ms, s, now)
      case None => None
      case Some(d) => Some(Edited(d, AllChanges(c, ms, s, now)))
  }

  /** The edit a request commits; None when it fails or has nothing to commit. */
  ghost function EditOf(c: Content, q: Request, s: Schema): Option<Edited>
    requires !q.DropRowRange?
  {
    if !ValidKey(q.key) then None
    else match q
      case MutateRow(_, ms, now, _) => Mutate(c, ms, s, now)
      case CheckAndMutateRow(_, test, yes, no, now, _) =>
        if (yes == [] && no == []) || test(c).None? then None
        else
          var e := Mutate(c, if test(c).value then yes else no, s, now);
          if e.Some? && e.value.changes == [] then None else e
      case ReadModifyWriteRow(_, rules, seenAt, _) =>
        if !ValidRules(rules, s) then None
        else
          var m := ApplyRules(c, CollectRow(c, s, seenAt), rules);
          if m.None? then None else Some(Edited(m.value.row, m.value.changes))
  }

  function Logged(key: Bytes, changes: seq<Mutation>): seq<Record> { if changes == [] then [] else [Record(key, changes)] }

  /** The row is collected and saved, and its user changes and then its collections are logged. */
  ghost function Commit(st: State, key: Bytes, e: Edited, s: Schema, gcNow: int): State {
    State(Save(st.rows, key, CollectRow(e.after, s, gcNow)),
          st.log + Logged(key, e.changes) + Logged(key, GcRecords(e.after, s, gcNow)))
  }

  ghost function Dropped(rows: Rows, drops: Bytes -> bool): set<Bytes> { set k | k in rows && drops(k) }

  ghost function DropRecord(rows: Rows, key: Bytes, s: Schema): Record {
    Record(key, Drops(Arrange(FamiliesIn(RowAt(rows, key)), OrderOf(s))))
  }

  ghost function DropRecords(rows: Rows, keys: seq<Bytes>, s: Schema): seq<Record> {
    if keys == [] then [] else DropRecords(rows, keys[..|keys| - 1], s) + [DropRecord(rows, keys[|keys| - 1], s)]
  }

  ghost function Step(st: State, q: Request, s: Schema): State {
    if q.DropRowRange? then
      var gone := Dropped(st.rows, q.drops);
      State(st.rows - gone, st.log + DropRecords(st.rows, Arrange(gone, ByName), s))
    else
      var e := EditOf(RowAt(st.rows, q.key), q, s);
      if e.None? then st else Commit(st, q.key, e.value, s, q.gcNow)
  }

  // ---- every stored row is good ----

  predicate SaneClock(q: Request, s: Schema) {
    match q
    case MutateRow(_, _, now, _) => ValidTs(s, now)
    case CheckAndMutateRow(_, _, _, _, now, _) => ValidTs(s, now)
    case ReadModifyWriteRow(_, rules, _, _) => forall i :: 0 <= i < |rules| ==> ValidTs(s, rules[i].clock)
    case DropRowRange(_) => true
  }

  ghost predicate GoodTable(rows: Rows, s: Schema) {
    forall key :: key in rows ==> rows[key] != map[] && GoodRow(rows[key], s)
  }

  /** An edit whose changes, replayed, give its row. */
  ghost predicate Replays(c: Content, e: Edited, s: Schema) {
    GoodRow(e.after, s) && ApplyAll(c, e.changes, s, 0) == Some(e.after)
  }

  lemma MutateReplays(c: Content, ms: seq<Mutation>, s: Schema, now: int)
    requires GoodRow(c, s) && ValidTs(s, now) && Mutate(c, ms, s, now).Some?
    ensures Replays(c, Mutate(c, ms, s, now).value, s)
  {
    ApplyAllKeepsRowGood(c, ms, s, now);
    UserChangesReplay(c, ms, s, now, 0);
  }

  ghost predicate GoodModified(c: Content, m: Modified, s: Schema) {
    GoodRow(m.row, s) && GoodRow(m.seen, s) && ApplyAll(c, m.changes, s, 0) == Some(m.row)
  }

  lemma NewCellIsValid(r: Rule, cs: seq<Cell>, s: Schema)
    requires (cs == [] || GoodColumn(cs, s)) && ValidTs(s, r.clock) && NewCell(r, cs).Some?
    ensures ValidTs(s, NewCell(r, cs).value.ts) && NewCell(r, cs).value.labels == []
  {
  }

  lemma RuleReplays(c: Content, m: Modified, r: Rule, s: Schema)
    requires GoodModified(c, m, s) && ValidRule(r, s) && ValidTs(s, r.clock) && ApplyRule(m, r).Some?
    ensures GoodModified(c, ApplyRule(m, r).value, s)
  {
    var k := (r.fam, r.col);
    var cs := Get(m.seen, k);
    var x := NewCell(r, cs).value;
    ColumnIsGood(m.seen, k, s);
    ColumnIsGood(m.row, k, s);
    NewCellIsValid(r, cs, s);
    PutIsGood(Get(m.row, k), x, s);
    PutIsGood(cs, x, s);
    StoreIsGood(m.row, k, Put(Get(m.row, k), x), s);
    StoreIsGood(m.seen, k, Put(cs, x), s);
    var change := SetCell(r.fam, r.col, x.ts, x.value, false);
    ApplyAllConcat(c, m.changes, [change], s, 0);
    OneReplay(m.row, change, s, 0);
  }

  lemma {:induction false} RulesReplay(c: Content, seen: Content, rules: seq<Rule>, s: Schema)
    requires GoodRow(c, s) && GoodRow(seen, s) && ApplyRules(c, seen, rules).Some?
    requires forall i :: 0 <= i < |rules| ==> ValidRule(rules[i], s) && ValidTs(s, rules[i].clock)
    ensures GoodModified(c, ApplyRules(c, seen, rules).value, s)
  {
    if rules != [] {
      RulesReplay(c, seen, rules[..|rules| - 1], s);
      RuleReplays(c, ApplyRules(c, seen, rules[..|rules| - 1]).value, rules[|rules| - 1], s);
    }
  }

  lemma EditReplays(c: Content, q: Request, s: Schema)
    requires GoodRow(c, s) && !q.DropRowRange? && SaneClock(q, s) && EditOf(c, q, s).Some?
    ensures Replays(c, EditOf(c, q, s).value, s)
  {
    match q
    case MutateRow(_, ms, now, _) => MutateReplays(c, ms, s, now);
    case CheckAndMutateRow(_, test, yes, no, now, _) => MutateReplays(c, if test(c).value then yes else no, s, now);
    case ReadModifyWriteRow(_, rules, seenAt, _) =>
      CollectKeepsRowGood(c, s, seenAt);
      RulesReplay(c, CollectRow(c, s, seenAt), rules, s);
  }

  lemma SaveIsGood(rows: Rows, key: Bytes, c: Content, s: Schema)
    requires GoodTable(rows, s) && GoodRow(c, s)
    ensures GoodTable(Save(rows, key, c), s)
  {
  }

  lemma RowIsGood(rows: Rows, key: Bytes, s: Schema)
    requires GoodTable(rows, s)
    ensures GoodRow(RowAt(rows, key), s)
  {
  }

  lemma StepKeepsTableGood(st: State, q: Request, s: Schema)
    requires GoodTable(st.rows, s) && SaneClock(q, s)
    ensures GoodTable(Step(st, q, s).rows, s)
  {
    if !q.DropRowRange? {
      var c := RowAt(st.rows, q.key);
      var e := EditOf(c, q, s);
      RowIsGood(st.rows, q.key, s);
      if e.Some? {
        EditReplays(c, q, s);
        CollectKeepsRowGood(e.value.after, s, q.gcNow);
        SaveIsGood(st.rows, q.key, CollectRow(e.value.after, s, q.gcNow), s);
      }
    }
  }

  // ---- folding the log ----

  ghost function ReplayRecord(rows: Rows, r: Record, s: Schema): Option<Rows> {
    match ApplyAll(RowAt(rows, r.key), r.changes, s, 0)
    case None => None
    case Some(c) => Some(Save(rows, r.key, c))
  }

  ghost function ReplayLog(rows: Rows, log: seq<Record>, s: Schema): Option<Rows> {
    if log == [] then Some(rows)
    else
      var r := ReplayLog(rows, log[..|log| - 1], s);
      if r.None? then None else ReplayRecord(r.value, log[|log| - 1], s)
  }

  lemma {:induction false} ReplayConcat(rows: Rows, a: seq<Record>, b: seq<Record>, s: Schema)
    ensures var r := ReplayLog(rows, a, s);
            ReplayLog(rows, a + b, s) == if r.None? then None else ReplayLog(r.value, b, s)
    decreases |b|
  {
    if b == [] {
      assert a + b == a;
    } else {
      ReplayConcat(rows, a, b[..|b| - 1], s);
      assert (a + b)[..|a + b| - 1] == a + b[..|b| - 1];
    }
  }

  lemma SaveTwice(rows: Rows, key: Bytes, a: Content, b: Content)
    ensures Save(Save(rows, key, a), key, b) == Save(rows, key, b) && RowAt(Save(rows, key, a), key) == a
    ensures (forall k :: k in rows ==> rows[k] != map[]) ==> Save(rows, key, RowAt(rows, key)) == rows
  {
  }

  lemma LoggedReplays(rows: Rows, key: Bytes, changes: seq<Mutation>, c: Content, s: Schema)
    requires forall k :: k in rows ==> rows[k] != map[]
    requires ApplyAll(RowAt(rows, key), changes, s, 0) == Some(c)
    ensures ReplayLog(rows, Logged(key, changes), s) == Some(Save(rows, key, c))
  {
    SaveTwice(rows, key, c, c);
    if changes != [] {
      assert [Record(key, changes)][..0] == [];
      assert ReplayLog(rows, [], s) == Some(rows);
    }
  }

  /** One commit: replaying its records gives its row exactly when no removed cell has the one
      timestamp whose range does not fit. */
  lemma CommitReplays(st: State, key: Bytes, e: Edited, s: Schema, gcNow: int)
    requires !s.micros && GoodTable(st.rows, s) && Replays(RowAt(st.rows, key), e, s)
    requires ReplayLog(map[], st.log, s) == Some(st.rows)
    ensures var st' := Commit(st, key, e, s, gcNow);
            ReplayLog(map[], st'.log, s) == Some(st'.rows) <==> RangesFit(e.after, s, gcNow)
  {
    var user, gc := Logged(key, e.changes), Logged(key, GcRecords(e.after, s, gcNow));
    var mid, want := Save(st.rows, key, e.after), CollectRow(e.after, s, gcNow);
    LoggedReplays(st.rows, key, e.changes, e.after, s);
    ReplayConcat(map[], st.log, user, s);
    ReplayConcat(map[], st.log + user, gc, s);
    CollectionReplays(e.after, s, gcNow, 0);
    var d := ApplyAll(e.after, GcRecords(e.after, s, gcNow), s, 0).value;
    SaveTwice(st.rows, key, e.after, d);
    SaveTwice(st.rows, key, d, want);
    SaveTwice(st.rows, key, want, d);
    LoggedReplays(mid, key, GcRecords(e.after, s, gcNow), d, s);
  }

  lemma LastName(keys: seq<Bytes>)
    requires Arranged(keys, ByName) && keys != []
    ensures var init, key := keys[..|keys| - 1], keys[|keys| - 1];
            Arranged(init, ByName) && key !in Elements(init) && Elements(keys) == Elements(init) + {key}
  {
    var init, key := keys[..|keys| - 1], keys[|keys| - 1];
    BeforeIsTotal(ByName, key, key);
    assert keys == init + [key];
  }

  lemma {:induction false} DropsReplayRows(rows: Rows, keys: seq<Bytes>, s: Schema)
    requires Arranged(keys, ByName)
    ensures ReplayLog(rows, DropRecords(rows, keys, s), s) == Some(rows - Elements(keys))
  {
    if keys == [] {
      assert rows - Elements(keys) == rows;
    } else {
      var init, key := keys[..|keys| - 1], keys[|keys| - 1];
      var recs, r := DropRecords(rows, init, s), DropRecord(rows, key, s);
      DropsReplayRows(rows, init, s);
      assert (recs + [r])[..|recs|] == recs;
      LastName(keys);
      DropRowReplays(rows - Elements(init), rows, key, s);
      assert rows - Elements(init) - {key} == rows - Elements(keys);
    }
  }

  lemma DropRowReplays(left: Rows, rows: Rows, key: Bytes, s: Schema)
    requires RowAt(left, key) == RowAt(rows, key)
    ensures ReplayRecord(left, DropRecord(rows, key, s), s) == Some(left - {key})
  {
    var c := RowAt(rows, key);
    var fams := Arrange(FamiliesIn(c), OrderOf(s));
    DropsReplay(c, fams, s, 0);
    forall k | k in c ensures k.0 in fams { assert k.0 in Elements(fams); }
    assert Without(c, fams).Keys == {};
  }

  /** No collection of the step removes a cell whose range does not fit 64 bits. */
  ghost predicate StepFits(st: State, q: Request, s: Schema) {
    q.DropRowRange? || (var e := EditOf(RowAt(st.rows, q.key), q, s); e.Some? ==> RangesFit(e.value.after, s, q.gcNow))
  }

  lemma StepReplays(st: State, q: Request, s: Schema)
    requires !s.micros && GoodTable(st.rows, s) && SaneClock(q, s) && ReplayLog(map[], st.log, s) == Some(st.rows)
    requires StepFits(st, q, s)
    ensures ReplayLog(map[], Step(st, q, s).log, s) == Some(Step(st, q, s).rows)
  {
    if q.DropRowRange? {
      var keys := Arrange(Dropped(st.rows, q.drops), ByName);
      DropsReplayRows(st.rows, keys, s);
      ReplayConcat(map[], st.log, DropRecords(st.rows, keys, s), s);
    } else {
      var c := RowAt(st.rows, q.key);
      if EditOf(c, q, s).Some? {
        EditReplays(c, q, s);
        CommitReplays(st, q.key, EditOf(c, q, s).value, s, q.gcNow);
      }
    }
  }

  /** The greatest valid timestamp is collected from the table but not by the log. */
  lemma GreatestTimestampIsNotReplayed(key: Bytes, fam: Name, col: Name, v: Bytes, now: int, s: Schema)
    requires !s.micros && ValidKey(key) && ValidTs(s, now)
    requires fam in s.families && s.families[fam] == ColumnFamily(s.families[fam].order, MaxVersions(0), NoAggregate)
    ensures var q := MutateRow(key, [SetCell(fam, col, MAX_VALID, v, false)], now, now);
            var st := Step(State(map[], []), q, s);
            st.rows == map[] && ReplayLog(map[], st.log, s) != Some(st.rows)
  {
    var m, k := SetCell(fam, col, MAX_VALID, v, false), (fam, col);
    var st, x := State(map[], []), Cell(MAX_VALID, v, []);
    var q := MutateRow(key, [m], now, now);
    OneReplay(map[], m, s, now);
    var c: Content := Store(map[], k, Put([], x));
    assert ApplyAll(map[], [m], s, now) == Some(c);
    var e := EditOf(map[], q, s).value;
    EditReplays(map[], q, s);
    assert c[k] == [x] && Live([x], MaxVersions(0), now) == 0;
    assert Kept(c, k, s, now) == [] && x in Removed(c, k, s, now);
    assert forall j :: j in c ==> j == k;
    assert CollectRow(c, s, now) == map[];
    assert !RangesFit(c, s, now);
    CommitReplays(st, key, e, s, now);
  }
}
