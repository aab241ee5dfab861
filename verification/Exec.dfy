/** Running a plan: scan, WHERE, projection or hashed grouping, DISTINCT, ORDER BY, OFFSET, LIMIT. */
module Exec {
  import opened Basics
  import opened Lex
  import opened Values
  import opened KeyRanges

  datatype Res<+T> = Val(v: T) | Fail

  /** One output row and its ORDER BY keys. */
  datatype OutRow = OutRow(vals: seq<Value>, keys: seq<Value>)

  /** The state of an aggregate after an addition, and whether the addition raised an error. */
  datatype Added = Added(acc: Value, failed: bool)

  /** Plain: one output row per source row. Grouped: rows with equal keys are accumulated in arrival
      order, and each group yields a row unless HAVING rejects it. */
  datatype Shape =
    | Plain(project: Row -> Res<OutRow>)
    | Grouped(keys: Row -> Res<seq<Value>>, args: Row -> Res<seq<Value>>, start: Value,
              accumulate: (Value, seq<Value>) -> Added,
              result: (seq<Value>, Value) -> Res<Option<OutRow>>,
              global: bool)  // no GROUP BY: one group even without rows

  /** A materialized view skips rows that fail, keeps accepted ones and sorts by its own order. */
  datatype Order = Unordered | ByKeys | ByKeysNoop | ViewOrder

  datatype Plan = Plan(where: Option<Expr>, shape: Shape, distinct: bool, order: Order,
                       accept: seq<Value> -> bool, less: (OutRow, OutRow) -> bool,
                       limit: Option<nat>, offset: nat)

  predicate Sorting(p: Plan) { p.order.ByKeys? || p.order.ViewOrder? }

  predicate SkipsErrors(p: Plan) { p.order.ViewOrder? }

  // ---- scanning ----

  predicate KeySorted(rows: seq<Row>) { forall i, j :: 0 <= i < j < |rows| ==> Less(rows[i].key, rows[j].key) }

  ghost function Filter(rows: seq<Row>, f: Row -> bool): (r: seq<Row>) {
    if rows == [] then []
    else if f(rows[0]) then [rows[0]] + Filter(rows[1..], f)
    else Filter(rows[1..], f)
  }

  /** The store's range scan: an empty end means unbounded. */
  predicate InStoreRange(start: Bytes, end: Bytes, k: Bytes) { AtMost(start, k) && (end == [] || Less(k, end)) }

  function StoreEnd(r: Range): Bytes { if r.end.Some? then r.end.value else [] }

  ghost function StoreScan(rows: seq<Row>, r: Range): seq<Row> {
    Filter(rows, (row: Row) => InStoreRange(r.start, StoreEnd(r), row.key))
  }

  ghost function ScanRanges(rows: seq<Row>, rs: seq<Range>): seq<Row> {
    if rs == [] then [] else StoreScan(rows, rs[0]) + ScanRanges(rows, rs[1..])
  }

  lemma {:induction false} FilterSame(rows: seq<Row>, f: Row -> bool, g: Row -> bool)
    requires forall i :: 0 <= i < |rows| ==> f(rows[i]) == g(rows[i])
    ensures Filter(rows, f) == Filter(rows, g)
  {
    if rows != [] { FilterSame(rows[1..], f, g); }
  }

  lemma {:induction false} FilterNone(rows: seq<Row>, f: Row -> bool)
    requires forall i :: 0 <= i < |rows| ==> !f(rows[i])
    ensures Filter(rows, f) == []
  {
    if rows != [] { FilterNone(rows[1..], f); }
  }

  /** When every row of `f` comes before every row of `g`, one pass finds them in that order. */
  lemma {:induction false} FilterSplit(rows: seq<Row>, f: Row -> bool, g: Row -> bool, both: Row -> bool)
    requires forall i :: 0 <= i < |rows| ==> (both(rows[i]) <==> f(rows[i]) || g(rows[i])) && !(f(rows[i]) && g(rows[i]))
    requires forall i, j :: 0 <= i < j < |rows| ==> !(g(rows[i]) && f(rows[j]))
    ensures Filter(rows, both) == Filter(rows, f) + Filter(rows, g)
  {
    if rows != [] {
      var h, a, b := [rows[0]], Filter(rows[1..], f), Filter(rows[1..], g);
      FilterSplit(rows[1..], f, g, both);
      if f(rows[0]) {
        assert h + (a + b) == h + a + b;
      } else if g(rows[0]) {
        FilterNone(rows[1..], f);
        assert a == [] && h + (a + b) == a + (h + b);
      }
    }
  }

  /** A normalized range never has a bounded empty end, so the store reads it as meant. */
  lemma StoreRangeIsRange(r: Range, k: Bytes)
    requires !Empty(r)
    ensures InStoreRange(r.start, StoreEnd(r), k) <==> Within(r, k)
  {
  }

  lemma {:induction false} LaterRangesStartLater(rs: seq<Range>, j: nat)
    requires Normalized(rs) && 0 < j < |rs|
    ensures rs[0].end.Some? && Less(rs[0].end.value, rs[j].start)
  {
    if j > 1 {
      LaterRangesStartLater(rs, j - 1);
      var r := rs[j - 1];
      CompareAntisymmetric(r.start, r.end.value);
      LessTransitive(rs[0].end.value, r.start, r.end.value);
      LessTransitive(rs[0].end.value, r.end.value, rs[j].start);
    }
  }

  lemma CoveredLater(rs: seq<Range>, k: Bytes)
    requires Normalized(rs) && rs != [] && Covered(rs[1..], k)
    ensures rs[0].end.Some? && Less(rs[0].end.value, k)
  {
    var i :| 0 <= i < |rs[1..]| && Within(rs[1..][i], k);
    LaterRangesStartLater(rs, i + 1);
    LessTransitive(rs[0].end.value, rs[i + 1].start, k);
  }

  /** Visiting normalized ranges in turn is one pass over the rows they cover. */
  lemma {:induction false} ScanIsFilter(rows: seq<Row>, rs: seq<Range>)
    requires KeySorted(rows) && Normalized(rs)
    ensures ScanRanges(rows, rs) == Filter(rows, (row: Row) => Covered(rs, row.key))
  {
    var all := (row: Row) => Covered(rs, row.key);
    if rs == [] {
      FilterNone(rows, all);
    } else {
      var f := (row: Row) => InStoreRange(rs[0].start, StoreEnd(rs[0]), row.key);
      var g := (row: Row) => Covered(rs[1..], row.key);
      ScanIsFilter(rows, rs[1..]);
      forall i | 0 <= i < |rows|
        ensures (all(rows[i]) <==> f(rows[i]) || g(rows[i])) && !(f(rows[i]) && g(rows[i]))
      {
        var k := rows[i].key;
        StoreRangeIsRange(rs[0], k);
        CoverSplit(rs, 1, k);
        assert rs[..1] == [rs[0]];
        CoverOne(rs[0], k);
        if g(rows[i]) { CoveredLater(rs, k); CompareAntisymmetric(k, rs[0].end.value); }
      }
      forall i, j | 0 <= i < j < |rows| ensures !(g(rows[i]) && f(rows[j])) {
        StoreRangeIsRange(rs[0], rows[j].key);
        if g(rows[i]) {
          CoveredLater(rs, rows[i].key);
          LessTransitive(rs[0].end.value, rows[i].key, rows[j].key);
          CompareAntisymmetric(rows[j].key, rs[0].end.value);
        }
      }
      FilterSplit(rows, f, g, all);
    }
  }

  // ---- what the sink does with the rows added to it ----

  /** The rows that stay: accepted by the view, and not seen before when DISTINCT. */
  function Kept(p: Plan, rows: seq<OutRow>): (r: seq<OutRow>) {
    if rows == [] then [] else Keep(p, Kept(p, rows[..|rows| - 1]), rows[|rows| - 1])
  }

  function Keep(p: Plan, kept: seq<OutRow>, x: OutRow): (r: seq<OutRow>) {
    if p.order.ViewOrder? && !p.accept(x.vals) then kept
    else if p.distinct && Seen(kept, x.vals) then kept
    else kept + [x]
  }

  predicate Seen(kept: seq<OutRow>, vals: seq<Value>) { exists i :: 0 <= i < |kept| && Keys(kept[i].vals) == Keys(vals) }

  /** A stable sort: each row goes behind those not after it. */
  function Sorted(p: Plan, rows: seq<OutRow>): (r: seq<OutRow>) {
    if rows == [] then [] else Insert(p, Sorted(p, rows[..|rows| - 1]), rows[|rows| - 1])
  }

  function Insert(p: Plan, r: seq<OutRow>, x: OutRow): seq<OutRow> {
    if r == [] || !p.less(x, r[|r| - 1]) then r + [x]
    else Insert(p, r[..|r| - 1], x) + [r[|r| - 1]]
  }

  function Drop(n: nat, rows: seq<OutRow>): seq<OutRow> { if n <= |rows| then rows[n..] else [] }

  function Take(n: Option<nat>, rows: seq<OutRow>): seq<OutRow> {
    if n.Some? && n.value <= |rows| then rows[..n.value] else rows
  }

  function Window(p: Plan, rows: seq<OutRow>): seq<OutRow> { Take(p.limit, Drop(p.offset, rows)) }

  /** What has been emitted before the end of the input. */
  function Emitted(p: Plan, added: seq<OutRow>): seq<OutRow> {
    if Sorting(p) then [] else Window(p, Kept(p, added))
  }

  /** What is emitted once the input has ended. */
  function Output(p: Plan, added: seq<OutRow>): seq<OutRow> {
    Window(p, if Sorting(p) then Sorted(p, Kept(p, added)) else Kept(p, added))
  }

  /** The limit is reached, so no further row is asked for. */
  predicate Full(p: Plan, added: seq<OutRow>) {
    !Sorting(p) && p.limit.Some? && |Emitted(p, added)| >= p.limit.value
  }

  lemma WindowSettles(p: Plan, a: seq<OutRow>, b: seq<OutRow>)
    requires p.limit.Some? && a <= b && |Window(p, a)| >= p.limit.value
    ensures Window(p, a) == Window(p, b)
  {
    if p.limit.value == 0 {
      assert Window(p, a) == [] == Window(p, b);
    } else {
      assert Drop(p.offset, a) <= Drop(p.offset, b);
    }
  }

  // ---- running ----

  datatype Run = Run(added: seq<OutRow>, failed: bool)

  ghost function WhereIs(p: Plan, row: Row): Truth { if p.where.None? then True else Eval(p.where.value, row) }

  ghost function Fetch(p: Plan, project: Row -> Res<OutRow>, rows: seq<Row>, added: seq<OutRow>): Run {
    if rows == [] then Run(added, false)
    else
      var w := WhereIs(p, rows[0]);
      if w == Error && !SkipsErrors(p) then Run(added, true)
      else if w != True then Fetch(p, project, rows[1..], added)
      else match project(rows[0])
        case Fail => if SkipsErrors(p) then Fetch(p, project, rows[1..], added) else Run(added, true)
        case Val(o) =>
          if Full(p, added + [o]) then Run(added + [o], false) else Fetch(p, project, rows[1..], added + [o])
  }

  datatype Group = Group(keys: seq<Value>, acc: Value)

  /** The group whose key bytes are those of `keys`, or a new one. */
  function GroupIndex(groups: seq<Group>, keys: seq<Value>): (i: nat)
    ensures i <= |groups| && (i < |groups| ==> Keys(groups[i].keys) == Keys(keys))
    ensures forall j :: 0 <= j < i ==> Keys(groups[j].keys) != Keys(keys)
  {
    if groups == [] then 0
    else if Keys(groups[0].keys) == Keys(keys) then 0
    else
      var i := GroupIndex(groups[1..], keys);
      assert forall j :: 1 <= j < 1 + i ==> groups[j] == groups[1..][j - 1];
      1 + i
  }

  /** The row's arguments are added to the group of its keys; a view goes on after an error. */
  function AddToGroup(p: Plan, groups: seq<Group>, keys: seq<Value>, args: seq<Value>): (r: Res<seq<Group>>)
    requires p.shape.Grouped?
  {
    var i := GroupIndex(groups, keys);
    var g := if i < |groups| then groups[i] else Group(keys, p.shape.start);
    var a := p.shape.accumulate(g.acc, args);
    if a.failed && !SkipsErrors(p) then Fail
    else Val(if i < |groups| then groups[i := Group(g.keys, a.acc)] else groups + [Group(keys, a.acc)])
  }

  /** One row that WHERE lets through joins its group; `Fail` when the run fails. */
  function GatherOne(p: Plan, groups: seq<Group>, row: Row): (r: Res<seq<Group>>)
    requires p.shape.Grouped?
  {
    var ks, as_ := p.shape.keys(row), p.shape.args(row);
    if ks.Fail? || as_.Fail? then (if SkipsErrors(p) then Val(groups) else Fail)
    else AddToGroup(p, groups, ks.v, as_.v)
  }

  ghost function Gather(p: Plan, rows: seq<Row>, groups: seq<Group>): (r: Res<seq<Group>>)
    requires p.shape.Grouped?
  {
    if rows == [] then Val(groups)
    else
      var w := WhereIs(p, rows[0]);
      if w == Error && !SkipsErrors(p) then Fail
      else if w != True then Gather(p, rows[1..], groups)
      else match GatherOne(p, groups, rows[0])
        case Fail => Fail
        case Val(gs) => Gather(p, rows[1..], gs)
  }

  function Deliver(p: Plan, groups: seq<Group>, added: seq<OutRow>): Run
    requires p.shape.Grouped?
  {
    if groups == [] then Run(added, false)
    else match p.shape.result(groups[0].keys, groups[0].acc)
      case Fail => if SkipsErrors(p) then Deliver(p, groups[1..], added) else Run(added, true)
      case Val(None) => Deliver(p, groups[1..], added)
      case Val(Some(o)) =>
        if Full(p, added + [o]) then Run(added + [o], false) else Deliver(p, groups[1..], added + [o])
  }

  function GlobalGroup(s: Shape, groups: seq<Group>): seq<Group>
    requires s.Grouped?
  {
    if s.global && groups == [] then [Group([], s.start)] else groups
  }

  ghost function RunShape(p: Plan, rows: seq<Row>): Run {
    match p.shape
    case Plain(project) => Fetch(p, project, rows, [])
    case Grouped(_, _, _, _, _, _) =>
      match Gather(p, rows, [])
      case Fail => Run([], true)
      case Val(groups) => Deliver(p, GlobalGroup(p.shape, groups), [])
  }

  /** The rows a plan emits over scanned rows, and whether it ends in an error. */
  ghost function RunPlan(p: Plan, rows: seq<Row>): (r: (seq<OutRow>, bool)) {
    if p.limit == Some(0) then ([], false)
    else
      var r := RunShape(p, rows);
      if r.failed then (Emitted(p, r.added), true) else (Output(p, r.added), false)
  }

  // ---- pushdown is invisible ----

  ghost predicate NeverFails(p: Plan, rows: seq<Row>) {
    SkipsErrors(p) || forall i :: 0 <= i < |rows| ==> WhereIs(p, rows[i]) != Error
  }

  ghost function TrueRows(p: Plan, rows: seq<Row>): seq<Row> { Filter(rows, (row: Row) => WhereIs(p, row) == True) }

  lemma {:induction false} FetchSeesTrueRows(p: Plan, project: Row -> Res<OutRow>, rows: seq<Row>, added: seq<OutRow>)
    requires NeverFails(p, rows)
    ensures Fetch(p, project, rows, added) == Fetch(p, project, TrueRows(p, rows), added)
    decreases |rows|
  {
    if rows != [] {
      FetchSeesTrueRows(p, project, rows[1..], added);
      if WhereIs(p, rows[0]) == True {
        assert TrueRows(p, rows)[1..] == TrueRows(p, rows[1..]);
        var o := project(rows[0]);
        if o.Val? { FetchSeesTrueRows(p, project, rows[1..], added + [o.v]); }
      }
    }
  }

  lemma {:induction false} GatherSeesTrueRows(p: Plan, rows: seq<Row>, groups: seq<Group>)
    requires p.shape.Grouped? && NeverFails(p, rows)
    ensures Gather(p, rows, groups) == Gather(p, TrueRows(p, rows), groups)
    decreases |rows|
  {
    if rows != [] {
      GatherSeesTrueRows(p, rows[1..], groups);
      if WhereIs(p, rows[0]) == True {
        assert TrueRows(p, rows)[1..] == TrueRows(p, rows[1..]);
        var gs := GatherOne(p, groups, rows[0]);
        if gs.Val? { GatherSeesTrueRows(p, rows[1..], gs.v); }
      }
    }
  }

  lemma RunSeesTrueRows(p: Plan, rows: seq<Row>)
    requires NeverFails(p, rows)
    ensures RunPlan(p, rows) == RunPlan(p, TrueRows(p, rows))
  {
    match p.shape
    case Plain(project) => FetchSeesTrueRows(p, project, rows, []);
    case Grouped(_, _, _, _, _, _) => GatherSeesTrueRows(p, rows, []);
  }

  lemma {:induction false} FilterTwice(rows: seq<Row>, f: Row -> bool, g: Row -> bool)
    requires forall i :: 0 <= i < |rows| ==> (g(rows[i]) ==> f(rows[i]))
    ensures Filter(Filter(rows, f), g) == Filter(rows, g)
    ensures forall i :: 0 <= i < |Filter(rows, f)| ==> Filter(rows, f)[i] in rows
  {
    if rows != [] {
      FilterTwice(rows[1..], f, g);
      if f(rows[0]) { assert Filter(rows, f)[1..] == Filter(rows[1..], f); }
    }
  }

  /** Rows outside the ranges are not TRUE. */
  lemma OutsideIsNotTrue(p: Plan, noPushdown: bool, rs: seq<Range>, row: Row)
    requires RangesFit(p.where, noPushdown, rs) && !Covered(rs, row.key)
    ensures WhereIs(p, row) != True
  {
    if WhereIs(p, row) == True { TrueIsReached(p.where.value, row); }
  }

  /** Scanning only the ranges of WHERE emits what a full scan emits, through grouping, DISTINCT,
      ORDER BY, OFFSET and LIMIT, provided WHERE fails on no row. */
  lemma PushdownIsInvisible(p: Plan, rows: seq<Row>, noPushdown: bool, rs: seq<Range>)
    requires KeySorted(rows) && RangesFit(p.where, noPushdown, rs) && NeverFails(p, rows)
    ensures RunPlan(p, ScanRanges(rows, rs)) == RunPlan(p, rows)
  {
    var f, g := (row: Row) => Covered(rs, row.key), (row: Row) => WhereIs(p, row) == True;
    ScanIsFilter(rows, rs);
    forall i | 0 <= i < |rows| ensures g(rows[i]) ==> f(rows[i]) {
      if !f(rows[i]) { OutsideIsNotTrue(p, noPushdown, rs, rows[i]); }
    }
    FilterTwice(rows, f, g);
    var scanned := Filter(rows, f);
    forall i | 0 <= i < |scanned| ensures SkipsErrors(p) || WhereIs(p, scanned[i]) != Error {
      assert scanned[i] in rows;
    }
    RunSeesTrueRows(p, rows);
    RunSeesTrueRows(p, scanned);
  }
}
