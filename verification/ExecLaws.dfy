/** What a run emits, in terms of positions and rows. */
module ExecLaws {
  import opened Basics
  import opened Lex
  import opened Values
  import opened KeyRanges
  import opened Exec

  /** OFFSET skips that many rows, and LIMIT bounds how many follow. */
  lemma WindowMeans(p: Plan, rows: seq<OutRow>, i: nat)
    ensures var n, rest := |Window(p, rows)|, |rows| - p.offset;
            n == (if rest < 0 then 0 else if p.limit.Some? && p.limit.value < rest then p.limit.value else rest)
    ensures i < |Window(p, rows)| ==> p.offset + i < |rows| && Window(p, rows)[i] == rows[p.offset + i]
  {
  }

  // ---- DISTINCT ----

  predicate Wanted(p: Plan, x: OutRow) { p.order.ViewOrder? ==> p.accept(x.vals) }

  /** An earlier wanted row has the same key bytes. */
  predicate Earlier(p: Plan, rows: seq<OutRow>, x: OutRow) {
    exists i :: 0 <= i < |rows| && Wanted(p, rows[i]) && Keys(rows[i].vals) == Keys(x.vals)
  }

  lemma {:induction false} SeenIsEarlier(p: Plan, rows: seq<OutRow>, x: OutRow)
    requires p.distinct
    ensures Seen(Kept(p, rows), x.vals) <==> Earlier(p, rows, x)
  {
    if rows != [] {
      var init, last := rows[..|rows| - 1], rows[|rows| - 1];
      SeenIsEarlier(p, init, x);
      SeenIsEarlier(p, init, last);
      SeenOneMore(Kept(p, init), last, x.vals);
      EarlierOneMore(p, init, last, x);
      assert init + [last] == rows;
      if Keys(last.vals) == Keys(x.vals) { SameKeysSeen(Kept(p, init), last.vals, x.vals); }
    }
  }

  lemma SameKeysSeen(kept: seq<OutRow>, a: seq<Value>, b: seq<Value>)
    requires Keys(a) == Keys(b)
    ensures Seen(kept, a) <==> Seen(kept, b)
  {
  }

  lemma SeenOneMore(kept: seq<OutRow>, y: OutRow, vals: seq<Value>)
    ensures Seen(kept + [y], vals) <==> Seen(kept, vals) || Keys(y.vals) == Keys(vals)
  {
    var more := kept + [y];
    if Keys(y.vals) == Keys(vals) { assert more[|kept|] == y; }
    if i :| 0 <= i < |kept| && Keys(kept[i].vals) == Keys(vals) { assert more[i] == kept[i]; }
  }

  lemma EarlierOneMore(p: Plan, rows: seq<OutRow>, y: OutRow, x: OutRow)
    ensures Earlier(p, rows + [y], x) <==> Earlier(p, rows, x) || (Wanted(p, y) && Keys(y.vals) == Keys(x.vals))
  {
    var more := rows + [y];
    if Wanted(p, y) && Keys(y.vals) == Keys(x.vals) { assert more[|rows|] == y; }
    if i :| 0 <= i < |rows| && Wanted(p, rows[i]) && Keys(rows[i].vals) == Keys(x.vals) { assert more[i] == rows[i]; }
  }

  /** A row stays, behind those that stayed before it, when it is wanted and, with DISTINCT, the first
      wanted one with its key bytes. */
  lemma FirstIsKept(p: Plan, rows: seq<OutRow>, x: OutRow)
    ensures Kept(p, rows + [x]) ==
              Kept(p, rows) + if Wanted(p, x) && !(p.distinct && Earlier(p, rows, x)) then [x] else []
  {
    assert (rows + [x])[..|rows|] == rows;
    if p.distinct { SeenIsEarlier(p, rows, x); }
  }

  // ---- failing ----

  lemma {:induction false} ViewFetches(p: Plan, project: Row -> Res<OutRow>, rows: seq<Row>, added: seq<OutRow>)
    requires p.order.ViewOrder?
    ensures !Fetch(p, project, rows, added).failed
    decreases |rows|
  {
    if rows != [] {
      ViewFetches(p, project, rows[1..], added);
      if project(rows[0]).Val? { ViewFetches(p, project, rows[1..], added + [project(rows[0]).v]); }
    }
  }

  lemma {:induction false} ViewGathers(p: Plan, rows: seq<Row>, groups: seq<Group>)
    requires p.order.ViewOrder? && p.shape.Grouped?
    ensures Gather(p, rows, groups).Val?
    decreases |rows|
  {
    if rows != [] {
      ViewGathers(p, rows[1..], groups);
      var gs := GatherOne(p, groups, rows[0]);
      if gs.Val? { ViewGathers(p, rows[1..], gs.v); }
    }
  }

  lemma {:induction false} ViewDelivers(p: Plan, groups: seq<Group>, added: seq<OutRow>)
    requires p.order.ViewOrder? && p.shape.Grouped?
    ensures !Deliver(p, groups, added).failed
    decreases |groups|
  {
    if groups != [] {
      ViewDelivers(p, groups[1..], added);
      var o := p.shape.result(groups[0].keys, groups[0].acc);
      if o.Val? && o.v.Some? { ViewDelivers(p, groups[1..], added + [o.v.value]); }
    }
  }

  /** Refreshing a view never fails, whatever its rows do. */
  lemma ViewsNeverFail(p: Plan, rows: seq<Row>)
    requires p.order.ViewOrder?
    ensures !RunPlan(p, rows).1
  {
    match p.shape
    case Plain(project) => ViewFetches(p, project, rows, []);
    case Grouped(_, _, _, _, _, _) =>
      ViewGathers(p, rows, []);
      ViewDelivers(p, GlobalGroup(p.shape, Gather(p, rows, []).v), []);
  }

  lemma FewRows(p: Plan, o: OutRow)
    ensures Emitted(p, []) == Output(p, []) == []
    ensures !p.order.ViewOrder? ==> Output(p, [o]) == Window(p, [o])
  {
    assert [o][..0] == [] && Kept(p, []) == [] && Exec.Sorted(p, []) == [];
    if !p.order.ViewOrder? {
      assert Kept(p, [o]) == Keep(p, [], o) == [o];
      assert Exec.Sorted(p, [o]) == [o];
    }
  }

  lemma DeliverOne(p: Plan, g: Group)
    requires p.shape.Grouped? && !p.order.ViewOrder?
    ensures Deliver(p, [g], []) == match p.shape.result(g.keys, g.acc)
                                   case Fail => Run([], true)
                                   case Val(None) => Run([], false)
                                   case Val(Some(o)) => Run([o], false)
  {
    assert [g][1..] == [];
    var o := p.shape.result(g.keys, g.acc);
    if o.Val? && o.v.Some? { assert [] + [o.v.value] == [o.v.value]; }
  }

  /** Without rows nothing is emitted, except that an aggregate without GROUP BY emits the result of
      its start, or fails with it. */
  lemma NoRows(p: Plan)
    requires p.limit != Some(0) && !p.order.ViewOrder?
    ensures var r := RunPlan(p, []);
            if p.shape.Plain? || !p.shape.global then r == ([], false)
            else match p.shape.result([], p.shape.start)
              case Fail => r == ([], true)
              case Val(None) => r == ([], false)
              case Val(Some(o)) => r == (Window(p, [o]), false)
  {
    var none := OutRow([], []);
    FewRows(p, none);
    if p.shape.Grouped? && p.shape.global {
      DeliverOne(p, Group([], p.shape.start));
      var o := p.shape.result([], p.shape.start);
      if o.Val? && o.v.Some? { FewRows(p, o.v.value); }
    }
  }
}
