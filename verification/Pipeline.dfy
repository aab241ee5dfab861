/** The executor's own form: a sink that is fed row by row, and the loops that feed it. */
module Pipeline {
  import opened Basics
  import opened Lex
  import opened Values
  import opened KeyRanges
  import opened Exec

  ghost function Hashes(rows: seq<OutRow>): set<Bytes> { set i | 0 <= i < |rows| :: Keys(rows[i].vals) }

  lemma HashesSeen(kept: seq<OutRow>, x: OutRow)
    ensures Keys(x.vals) in Hashes(kept) <==> Seen(kept, x.vals)
    ensures Hashes(kept + [x]) == Hashes(kept) + {Keys(x.vals)}
  {
    var more := kept + [x];
    forall k | k in Hashes(kept) + {Keys(x.vals)} ensures k in Hashes(more) {
      if k in Hashes(kept) {
        var i :| 0 <= i < |kept| && Keys(kept[i].vals) == k;
        assert more[i] == kept[i];
      } else {
        assert more[|kept|] == x;
      }
    }
  }

  class Sink {
    const p: Plan
    var out: seq<OutRow>
    var rows: seq<OutRow>
    var seen: set<Bytes>
    var skipped: nat
    ghost var added: seq<OutRow>

    /** After `pushed` rows have been pushed. */
    ghost predicate Pushed(pushed: seq<OutRow>)
      reads this
    {
      out == Window(p, pushed) && skipped == Min(p.offset, |pushed|)
    }

    ghost predicate Valid()
      reads this
    {
      && p.limit != Some(0)
      && (p.distinct ==> seen == Hashes(Kept(p, added)))
      && (if Sorting(p) then rows == Kept(p, added) && Pushed([]) else Pushed(Kept(p, added)))
    }

    constructor (p: Plan)
      requires p.limit != Some(0)
      ensures Valid() && this.p == p && added == []
    {
      this.p := p;
      out, rows, seen, skipped, added := [], [], {}, 0, [];
    }

    method Push(x: OutRow, ghost pushed: seq<OutRow>) returns (more: bool)
      requires p.limit != Some(0) && Pushed(pushed)
      modifies this`out, this`skipped
      ensures Pushed(pushed + [x])
      ensures more <==> !(p.limit.Some? && |out| >= p.limit.value)
    {
      assert (pushed + [x])[..|pushed|] == pushed;
      if skipped < p.offset {
        skipped := skipped + 1;
        return true;
      }
      assert Drop(p.offset, pushed + [x]) == Drop(p.offset, pushed) + [x];
      if p.limit.Some? && |out| >= p.limit.value {
        return false;
      }
      out := out + [x];
      more := p.limit.None? || |out| < p.limit.value;
    }

    method Add(x: OutRow) returns (more: bool)
      requires Valid() && !Full(p, added)
      modifies this
      ensures Valid() && added == old(added) + [x]
      ensures more <==> !Full(p, added)
    {
      ghost var kept := Kept(p, added);
      assert (added + [x])[..|added|] == added;
      added := added + [x];
      HashesSeen(kept, x);
      if p.order.ViewOrder? && !p.accept(x.vals) {
        return true;
      }
      if p.distinct {
        if Keys(x.vals) in seen {
          return true;
        }
        seen := seen + {Keys(x.vals)};
      }
      assert Kept(p, added) == kept + [x];
      if Sorting(p) {
        rows := rows + [x];
        return true;
      }
      more := Push(x, kept);
    }

    method Finish()
      requires Valid()
      modifies this
      ensures out == Output(p, old(added))
    {
      if !Sorting(p) {
        return;
      }
      rows := Sorted(p, rows);
      PushAll(rows);
      rows := [];
    }

    /** Pushes rows until no more are wanted. */
    method PushAll(all: seq<OutRow>)
      requires p.limit != Some(0) && Pushed([])
      modifies this`out, this`skipped
      ensures out == Window(p, all)
    {
      var i := 0;
      while i < |all|
        invariant 0 <= i <= |all| && Pushed(all[..i])
      {
        ghost var before := all[..i];
        var more := Push(all[i], before);
        assert before + [all[i]] == all[..i + 1];
        i := i + 1;
        if !more {
          WindowSettles(p, all[..i], all);
          return;
        }
      }
      assert all[..i] == all;
    }
  }

  // ---- the loops ----

  method Feed(sink: Sink, decide: Row -> Truth, project: Row -> Res<OutRow>, rows: seq<Row>) returns (failed: bool)
    requires sink.Valid() && sink.added == [] && forall row :: decide(row) == WhereIs(sink.p, row)
    modifies sink
    ensures sink.Valid() && Run(sink.added, failed) == Fetch(sink.p, project, rows, [])
  {
    var p := sink.p;
    var i := 0;
    while i < |rows|
      invariant 0 <= i <= |rows| && sink.Valid() && !Full(p, sink.added)
      invariant Fetch(p, project, rows[i..], sink.added) == Fetch(p, project, rows, [])
    {
      var w := decide(rows[i]);
      assert rows[i..][1..] == rows[i + 1..];
      i := i + 1;
      if w == Error && !SkipsErrors(p) {
        return true;
      }
      if w == True {
        match project(rows[i - 1])
        case Fail =>
          if !SkipsErrors(p) {
            return true;
          }
        case Val(o) =>
          var more := sink.Add(o);
          if !more {
            return false;
          }
      }
    }
    failed := false;
  }

  /** The map from key bytes to the position of their group. */
  ghost predicate Indexes(index: map<Bytes, nat>, groups: seq<Group>) {
    && (forall k :: k in index ==> index[k] < |groups| && Keys(groups[index[k]].keys) == k)
    && (forall i :: 0 <= i < |groups| ==> Keys(groups[i].keys) in index && index[Keys(groups[i].keys)] == i)
  }

  lemma IndexFinds(index: map<Bytes, nat>, groups: seq<Group>, keys: seq<Value>)
    requires Indexes(index, groups)
    ensures GroupIndex(groups, keys) == if Keys(keys) in index then index[Keys(keys)] else |groups|
  {
    var i := GroupIndex(groups, keys);
    if i < |groups| { assert Keys(groups[i].keys) in index; }
  }

  /** One row joins the group of its key bytes, which is made when there is none. */
  method Join(p: Plan, index: map<Bytes, nat>, order: seq<Group>, keys: seq<Value>, args: seq<Value>)
    returns (ok: bool, index': map<Bytes, nat>, order': seq<Group>)
    requires p.shape.Grouped? && Indexes(index, order)
    ensures AddToGroup(p, order, keys, args) == if ok then Val(order') else Fail
    ensures ok ==> Indexes(index', order')
  {
    IndexFinds(index, order, keys);
    var kb := Keys(keys);
    index', order' := index, order;
    if kb !in index {
      index', order' := index[kb := |order|], order + [Group(keys, p.shape.start)];
    }
    var at := index'[kb];
    var a := p.shape.accumulate(order'[at].acc, args);
    ok := !a.failed || SkipsErrors(p);
    if ok {
      order' := order'[at := Group(order'[at].keys, a.acc)];
      assert kb !in index ==> order' == order + [Group(keys, a.acc)];
    }
  }

  method Collect(p: Plan, decide: Row -> Truth, rows: seq<Row>) returns (r: Res<seq<Group>>)
    requires p.shape.Grouped? && forall row :: decide(row) == WhereIs(p, row)
    ensures r == Gather(p, rows, [])
  {
    var index: map<Bytes, nat>, order: seq<Group> := map[], [];
    var i := 0;
    while i < |rows|
      invariant 0 <= i <= |rows| && Indexes(index, order)
      invariant Gather(p, rows[i..], order) == Gather(p, rows, [])
    {
      var w := decide(rows[i]);
      assert rows[i..][1..] == rows[i + 1..];
      if w == Error && !SkipsErrors(p) {
        return Fail;
      }
      if w == True {
        var ks, args := p.shape.keys(rows[i]), p.shape.args(rows[i]);
        if ks.Fail? || args.Fail? {
          if !SkipsErrors(p) {
            return Fail;
          }
        } else {
          var ok;
          ok, index, order := Join(p, index, order, ks.v, args.v);
          if !ok {
            return Fail;
          }
        }
      }
      i := i + 1;
    }
    r := Val(order);
  }

  method Flush(sink: Sink, groups: seq<Group>) returns (failed: bool)
    requires sink.Valid() && sink.added == [] && sink.p.shape.Grouped?
    modifies sink
    ensures sink.Valid() && Run(sink.added, failed) == Deliver(sink.p, groups, [])
  {
    var p := sink.p;
    var i := 0;
    while i < |groups|
      invariant 0 <= i <= |groups| && sink.Valid() && !Full(p, sink.added)
      invariant Deliver(p, groups[i..], sink.added) == Deliver(p, groups, [])
    {
      assert groups[i..][1..] == groups[i + 1..];
      var o := p.shape.result(groups[i].keys, groups[i].acc);
      if o.Fail? && !SkipsErrors(p) {
        return true;
      }
      if o.Val? && o.v.Some? {
        var more := sink.Add(o.v.value);
        if !more {
          return false;
        }
      }
      i := i + 1;
    }
    failed := false;
  }

  /** The executor emits what the plan means; `decide` evaluates WHERE. */
  method Execute(p: Plan, decide: Row -> Truth, rows: seq<Row>) returns (out: seq<OutRow>, failed: bool)
    requires forall row :: decide(row) == WhereIs(p, row)
    ensures (out, failed) == RunPlan(p, rows)
  {
    if p.limit == Some(0) {
      return [], false;
    }
    var sink := new Sink(p);
    if p.shape.Plain? {
      failed := Feed(sink, decide, p.shape.project, rows);
    } else {
      var groups := Collect(p, decide, rows);
      if groups.Fail? {
        return [], true;
      }
      failed := Flush(sink, GlobalGroup(p.shape, groups.v));
    }
    if !failed {
      sink.Finish();
    }
    out := sink.out;
  }

  // ---- a query over a table ----

  /** The rows of one range, in key order. */
  method ScanRange(rows: seq<Row>, r: Range) returns (scanned: seq<Row>)
    ensures scanned == StoreScan(rows, r)
  {
    scanned := [];
    var i := 0;
    while i < |rows|
      invariant 0 <= i <= |rows| && scanned + StoreScan(rows[i..], r) == StoreScan(rows, r)
    {
      assert rows[i..][1..] == rows[i + 1..];
      if InStoreRange(r.start, StoreEnd(r), rows[i].key) {
        Associative(scanned, [rows[i]], StoreScan(rows[i + 1..], r));
        scanned := scanned + [rows[i]];
      }
      i := i + 1;
    }
  }

  method ScanTable(rows: seq<Row>, rs: seq<Range>) returns (scanned: seq<Row>)
    ensures scanned == ScanRanges(rows, rs)
  {
    scanned := [];
    var i := 0;
    while i < |rs|
      invariant 0 <= i <= |rs| && scanned + ScanRanges(rows, rs[i..]) == ScanRanges(rows, rs)
    {
      assert rs[i..][1..] == rs[i + 1..];
      var part := ScanRange(rows, rs[i]);
      Associative(scanned, part, ScanRanges(rows, rs[i + 1..]));
      scanned := scanned + part;
      i := i + 1;
    }
  }

  /** A query scans only the ranges its WHERE allows. Unless WHERE fails on a row it emits what a
      scan of the whole table would. */
  method Query(p: Plan, decide: Row -> Truth, rows: seq<Row>, noPushdown: bool)
    returns (out: seq<OutRow>, failed: bool, ranges: seq<Range>)
    requires KeySorted(rows) && forall row :: decide(row) == WhereIs(p, row)
    ensures (out, failed) == RunPlan(p, ScanRanges(rows, ranges)) && RangesFit(p.where, noPushdown, ranges)
    ensures NeverFails(p, rows) ==> (out, failed) == RunPlan(p, rows)
  {
    ranges := KeyRanges.KeyRanges(p.where, noPushdown);
    var scanned := ScanTable(rows, ranges);
    out, failed := Execute(p, decide, scanned);
    if NeverFails(p, rows) {
      PushdownIsInvisible(p, rows, noPushdown, ranges);
    }
  }
}
