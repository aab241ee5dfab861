/** The simple semantics a plan's run agrees with: stopping at the limit, skipping a sort that the
    scan order makes unnecessary, and hashing for DISTINCT and GROUP BY are invisible. */
module ExecMeaning {
  import opened Basics
  import opened Lex
  import opened Values
  import opened KeyRanges
  import opened Exec

  // ---- stopping at the limit ----

  lemma {:induction false} KeptGrows(p: Plan, added: seq<OutRow>, more: seq<OutRow>)
    ensures Kept(p, added) <= Kept(p, added + more)
    decreases |more|
  {
    if more == [] {
      assert added + more == added;
    } else {
      var init := more[..|more| - 1];
      KeptGrows(p, added, init);
      assert (added + more)[..|added + more| - 1] == added + init;
    }
  }

  /** Once the limit is reached, further rows change nothing. */
  lemma FullIsFinal(p: Plan, added: seq<OutRow>, more: seq<OutRow>)
    requires Full(p, added)
    ensures Output(p, added + more) == Output(p, added)
  {
    KeptGrows(p, added, more);
    WindowSettles(p, Kept(p, added), Kept(p, added + more));
  }

  // ---- what has been emitted so far ----

  /** A longer run shows no further row: it sorts, or keeps none beyond those kept before or skipped. */
  predicate ShowsNoMore(p: Plan, before: seq<OutRow>, after: seq<OutRow>) {
    Sorting(p) || |Kept(p, after)| <= p.offset || |Kept(p, after)| <= |Kept(p, before)|
  }

  lemma WindowSize(p: Plan, rows: seq<OutRow>)
    ensures var n := if |rows| <= p.offset then 0 else |rows| - p.offset;
            |Window(p, rows)| == if p.limit.Some? && p.limit.value <= n then p.limit.value else n
  {
  }

  lemma ShownSoFar(p: Plan, before: seq<OutRow>, after: seq<OutRow>)
    requires before <= after && p.limit != Some(0) && !Full(p, before)
    ensures Emitted(p, after) == Emitted(p, before) <==> ShowsNoMore(p, before, after)
  {
    var rest := after[|before|..];
    assert before + rest == after;
    KeptGrows(p, before, rest);
    WindowSize(p, Kept(p, before));
    WindowSize(p, Kept(p, after));
    if !Sorting(p) && |Kept(p, after)| <= p.offset { assert Window(p, Kept(p, after)) == [] == Window(p, Kept(p, before)); }
  }

  // ---- what a run means ----

  /** What a source row or a group gives to the output. */
  datatype Outcome = Skip | Emit(o: OutRow) | Break

  ghost function RowOutcome(p: Plan, project: Row -> Res<OutRow>, row: Row): Outcome {
    var w := WhereIs(p, row);
    if w == Error then (if SkipsErrors(p) then Skip else Break)
    else if w != True then Skip
    else match project(row)
      case Fail => if SkipsErrors(p) then Skip else Break
      case Val(o) => Emit(o)
  }

  ghost function RowOutcomes(p: Plan, project: Row -> Res<OutRow>, rows: seq<Row>): (os: seq<Outcome>)
    ensures |os| == |rows| && forall i :: 0 <= i < |rows| ==> os[i] == RowOutcome(p, project, rows[i])
  {
    seq(|rows|, i requires 0 <= i < |rows| => RowOutcome(p, project, rows[i]))
  }

  function GroupOutcome(p: Plan, g: Group): Outcome
    requires p.shape.Grouped?
  {
    match p.shape.result(g.keys, g.acc)
    case Fail => if SkipsErrors(p) then Skip else Break
    case Val(None) => Skip
    case Val(Some(o)) => Emit(o)
  }

  function GroupOutcomes(p: Plan, groups: seq<Group>): (os: seq<Outcome>)
    requires p.shape.Grouped?
    ensures |os| == |groups| && forall i :: 0 <= i < |os| ==> os[i] == GroupOutcome(p, groups[i])
  {
    seq(|groups|, i requires 0 <= i < |groups| => GroupOutcome(p, groups[i]))
  }

  /** The outcomes of the rows, or of the groups; grouping that fails breaks at once. */
  ghost function Outcomes(p: Plan, rows: seq<Row>): seq<Outcome> {
    match p.shape
    case Plain(project) => RowOutcomes(p, project, rows)
    case Grouped(_, _, _, _, _, _) =>
      match Gather(p, rows, [])
      case Fail => [Break]
      case Val(groups) => GroupOutcomes(p, GlobalGroup(p.shape, groups))
  }

  /** The outcomes before the first that breaks. */
  function Sound(os: seq<Outcome>): seq<Outcome> {
    if os == [] || os[0].Break? then [] else [os[0]] + Sound(os[1..])
  }

  function Emits(os: seq<Outcome>): seq<OutRow> {
    if os == [] then [] else (if os[0].Emit? then [os[0].o] else []) + Emits(os[1..])
  }

  /** The rows emitted before anything breaks. */
  function Before(os: seq<Outcome>): seq<OutRow> { Emits(Sound(os)) }

  lemma BeforeSplit(os: seq<Outcome>)
    requires os != []
    ensures Before(os) == if os[0].Break? then [] else (if os[0].Emit? then [os[0].o] else []) + Before(os[1..])
    ensures Break in os <==> os[0].Break? || Break in os[1..]
  {
    assert os == [os[0]] + os[1..];
    if !os[0].Break? { assert Sound(os)[1..] == Sound(os[1..]); }
  }

  /** The simple semantics: an error fails the run unless the limit is reached first; otherwise the
      output is the window of the (sorted) rows. */
  ghost function Meaning(p: Plan, os: seq<Outcome>): (seq<OutRow>, bool) {
    if p.limit == Some(0) then ([], false)
    else if Break in os && !Full(p, Before(os)) then (Emitted(p, Before(os)), true)
    else (Output(p, Before(os)), false)
  }

  /** Taking outcomes until the limit is reached. */
  function TakeUntilFull(p: Plan, os: seq<Outcome>, added: seq<OutRow>): Run
    decreases |os|
  {
    if os == [] then Run(added, false)
    else match os[0]
      case Break => Run(added, true)
      case Skip => TakeUntilFull(p, os[1..], added)
      case Emit(o) => if Full(p, added + [o]) then Run(added + [o], false) else TakeUntilFull(p, os[1..], added + [o])
  }

  lemma {:induction false} FetchTakes(p: Plan, project: Row -> Res<OutRow>, rows: seq<Row>, added: seq<OutRow>)
    ensures Fetch(p, project, rows, added) == TakeUntilFull(p, RowOutcomes(p, project, rows), added)
    decreases |rows|
  {
    if rows != [] {
      var os := RowOutcomes(p, project, rows);
      assert os[1..] == RowOutcomes(p, project, rows[1..]);
      FetchTakes(p, project, rows[1..], if os[0].Emit? then added + [os[0].o] else added);
    }
  }

  lemma {:induction false} DeliverTakes(p: Plan, groups: seq<Group>, added: seq<OutRow>)
    requires p.shape.Grouped?
    ensures Deliver(p, groups, added) == TakeUntilFull(p, GroupOutcomes(p, groups), added)
    decreases |groups|
  {
    if groups != [] {
      var os := GroupOutcomes(p, groups);
      assert os[1..] == GroupOutcomes(p, groups[1..]);
      DeliverTakes(p, groups[1..], if os[0].Emit? then added + [os[0].o] else added);
    }
  }

  lemma FullStays(p: Plan, added: seq<OutRow>, more: seq<OutRow>)
    requires Full(p, added)
    ensures Full(p, added + more) && Output(p, added + more) == Output(p, added)
  {
    FullIsFinal(p, added, more);
  }

  ghost predicate Taken(p: Plan, r: Run, all: seq<OutRow>, breaks: bool) {
    && (r.failed <==> breaks && !Full(p, all))
    && (if r.failed then r.added == all else Output(p, r.added) == Output(p, all))
  }

  lemma {:induction false} TakingMeans(p: Plan, os: seq<Outcome>, added: seq<OutRow>)
    requires !Full(p, added)
    ensures Taken(p, TakeUntilFull(p, os, added), added + Before(os), Break in os)
    decreases |os|
  {
    if os == [] {
      assert added + Before(os) == added;
    } else {
      BeforeSplit(os);
      match os[0]
      case Break => assert added + Before(os) == added;
      case Skip =>
        assert Before(os) == Before(os[1..]);
        TakingMeans(p, os[1..], added);
      case Emit(o) =>
        Associative(added, [o], Before(os[1..]));
        if Full(p, added + [o]) {
          FullStays(p, added + [o], Before(os[1..]));
        } else {
          TakingMeans(p, os[1..], added + [o]);
        }
    }
  }

  /** Stopping at the limit is invisible, and so is streaming: every run, with its errors, means this. */
  lemma RunMeans(p: Plan, rows: seq<Row>)
    ensures RunPlan(p, rows) == Meaning(p, Outcomes(p, rows))
  {
    if p.limit != Some(0) {
      var os := Outcomes(p, rows);
      assert [] + Before(os) == Before(os);
      TakingMeans(p, os, []);
      match p.shape
      case Plain(project) => FetchTakes(p, project, rows, []);
      case Grouped(_, _, _, _, _, _) =>
        var groups := Gather(p, rows, []);
        if groups.Val? { DeliverTakes(p, GlobalGroup(p.shape, groups.v), []); }
    }
  }

  // ---- ORDER BY ----

  predicate NotAfter(p: Plan, a: OutRow, b: OutRow) { !p.less(b, a) }

  /** `NotAfter` is total and transitive on the rows of `dom`. */
  ghost predicate Ordering(p: Plan, dom: set<OutRow>) {
    && (forall a, b :: a in dom && b in dom ==> NotAfter(p, a, b) || NotAfter(p, b, a))
    && (forall a, b, c :: a in dom && b in dom && c in dom && NotAfter(p, a, b) && NotAfter(p, b, c) ==> NotAfter(p, a, c))
  }

  ghost predicate Among(rows: seq<OutRow>, dom: set<OutRow>) { forall i :: 0 <= i < |rows| ==> rows[i] in dom }

  lemma {:induction false} InsertKeeps(p: Plan, r: seq<OutRow>, x: OutRow)
    ensures multiset(Insert(p, r, x)) == multiset(r) + multiset{x}
  {
    if r != [] && p.less(x, r[|r| - 1]) {
      InsertKeeps(p, r[..|r| - 1], x);
      assert r == r[..|r| - 1] + [r[|r| - 1]];
    }
  }

  lemma {:induction false} InsertBelow(p: Plan, r: seq<OutRow>, x: OutRow, last: OutRow)
    requires !p.less(last, x) && forall i :: 0 <= i < |r| ==> !p.less(last, r[i])
    ensures forall i :: 0 <= i < |Insert(p, r, x)| ==> !p.less(last, Insert(p, r, x)[i])
  {
    if r != [] && p.less(x, r[|r| - 1]) { InsertBelow(p, r[..|r| - 1], x, last); }
  }

  lemma {:induction false} InsertSorts(p: Plan, r: seq<OutRow>, x: OutRow, dom: set<OutRow>)
    requires Ordering(p, dom) && Among(r, dom) && x in dom && InOrder(p, r)
    ensures InOrder(p, Insert(p, r, x))
  {
    if r != [] && p.less(x, r[|r| - 1]) {
      assert NotAfter(p, x, r[|r| - 1]) || NotAfter(p, r[|r| - 1], x);
      InsertSorts(p, r[..|r| - 1], x, dom);
      InsertBelow(p, r[..|r| - 1], x, r[|r| - 1]);
    } else if r != [] {
      var last := r[|r| - 1];
      forall i | 0 <= i < |r| ensures !p.less(x, r[i]) {
        assert i < |r| - 1 ==> NotAfter(p, r[i], last);
        assert NotAfter(p, last, x);
      }
    }
  }

  lemma SameAmong(a: seq<OutRow>, b: seq<OutRow>, dom: set<OutRow>)
    requires multiset(a) == multiset(b) && Among(a, dom)
    ensures Among(b, dom)
  {
    forall i | 0 <= i < |b| ensures b[i] in dom { assert b[i] in multiset(a); }
  }

  /** ORDER BY emits a permutation in order. */
  lemma {:induction false} SortedSorts(p: Plan, rows: seq<OutRow>, dom: set<OutRow>)
    requires Ordering(p, dom) && Among(rows, dom)
    ensures InOrder(p, Sorted(p, rows)) && multiset(Sorted(p, rows)) == multiset(rows)
  {
    if rows != [] {
      var init, x := rows[..|rows| - 1], rows[|rows| - 1];
      SortedSorts(p, init, dom);
      SameAmong(init, Sorted(p, init), dom);
      InsertSorts(p, Sorted(p, init), x, dom);
      InsertKeeps(p, Sorted(p, init), x);
      assert rows == init + [x];
    }
  }

  /** Rows that no order separates from `like` keep their arrival order: the sort is stable. */
  ghost function Ties(p: Plan, rows: seq<OutRow>, like: OutRow): seq<OutRow> {
    if rows == [] then []
    else
      var init, x := rows[..|rows| - 1], rows[|rows| - 1];
      if !p.less(x, like) && !p.less(like, x) then Ties(p, init, like) + [x] else Ties(p, init, like)
  }

  lemma TiesSnoc(p: Plan, r: seq<OutRow>, x: OutRow, like: OutRow)
    ensures Ties(p, r + [x], like) == Ties(p, r, like) + if !p.less(x, like) && !p.less(like, x) then [x] else []
  {
    assert (r + [x])[..|r|] == r;
  }

  /** Rows that swap do not tie. */
  lemma TiesSwap(p: Plan, r: seq<OutRow>, x: OutRow, y: OutRow, like: OutRow, dom: set<OutRow>)
    requires Ordering(p, dom) && x in dom && y in dom && like in dom && p.less(x, y)
    ensures Ties(p, r + [x] + [y], like) == Ties(p, r + [y] + [x], like)
  {
    assert !(NotAfter(p, y, like) && NotAfter(p, like, x)) by { assert !NotAfter(p, y, x); }
    TiesSnoc(p, r, x, like);
    TiesSnoc(p, r, y, like);
    TiesSnoc(p, r + [x], y, like);
    TiesSnoc(p, r + [y], x, like);
  }

  lemma {:induction false} InsertTies(p: Plan, r: seq<OutRow>, x: OutRow, like: OutRow, dom: set<OutRow>)
    requires Ordering(p, dom) && Among(r, dom) && x in dom && like in dom
    ensures Ties(p, Insert(p, r, x), like) == Ties(p, r + [x], like)
  {
    if r != [] && p.less(x, r[|r| - 1]) {
      var init, last := r[..|r| - 1], r[|r| - 1];
      InsertTies(p, init, x, like, dom);
      TiesSnoc(p, Insert(p, init, x), last, like);
      TiesSnoc(p, init + [x], last, like);
      TiesSwap(p, init, x, last, like, dom);
      assert r == init + [last];
    }
  }

  lemma StableStep(p: Plan, r: seq<OutRow>, rows: seq<OutRow>, like: OutRow, dom: set<OutRow>)
    requires Ordering(p, dom) && Among(r, dom) && Among(rows, dom) && like in dom
    requires rows != [] && Ties(p, r, like) == Ties(p, rows[..|rows| - 1], like)
    ensures Ties(p, Insert(p, r, rows[|rows| - 1]), like) == Ties(p, rows, like)
  {
    var x := rows[|rows| - 1];
    InsertTies(p, r, x, like, dom);
    TiesSnoc(p, r, x, like);
  }

  lemma SortedAmong(p: Plan, rows: seq<OutRow>, dom: set<OutRow>)
    requires Ordering(p, dom) && Among(rows, dom)
    ensures Among(Sorted(p, rows), dom)
  {
    SortedSorts(p, rows, dom);
    SameAmong(rows, Sorted(p, rows), dom);
  }

  lemma {:induction false} SortedIsStable(p: Plan, rows: seq<OutRow>, like: OutRow, dom: set<OutRow>)
    requires Ordering(p, dom) && Among(rows, dom) && like in dom
    ensures Ties(p, Sorted(p, rows), like) == Ties(p, rows, like)
  {
    if rows != [] {
      var init := rows[..|rows| - 1];
      SortedIsStable(p, init, like, dom);
      SortedAmong(p, init, dom);
      StableStep(p, Sorted(p, init), rows, like, dom);
    }
  }

  // ---- the skipped ORDER BY _key ----

  ghost predicate InOrder(p: Plan, rows: seq<OutRow>) {
    forall i, j :: 0 <= i < j < |rows| ==> !p.less(rows[j], rows[i])
  }

  lemma {:induction false} SortedIsIdentity(p: Plan, rows: seq<OutRow>)
    requires InOrder(p, rows)
    ensures Sorted(p, rows) == rows
  {
    if rows != [] {
      var init := rows[..|rows| - 1];
      SortedIsIdentity(p, init);
      assert rows == init + [rows[|rows| - 1]];
    }
  }

  lemma {:induction false} KeptInOrder(p: Plan, rows: seq<OutRow>)
    requires InOrder(p, rows)
    ensures InOrder(p, Kept(p, rows))
    ensures forall i :: 0 <= i < |Kept(p, rows)| ==> Kept(p, rows)[i] in rows
  {
    if rows != [] {
      var init := rows[..|rows| - 1];
      KeptInOrder(p, init);
      var k := Kept(p, init);
      forall i | 0 <= i < |k| ensures !p.less(rows[|rows| - 1], k[i]) {
        assert k[i] in init;
        var j :| 0 <= j < |init| && init[j] == k[i];
        assert rows[j] == k[i];
      }
      assert forall x :: x in init ==> x in rows;
    }
  }

  /** Ordered by one BYTES key that comes after `k`. */
  predicate KeyedAfter(o: OutRow, k: Bytes) { |o.keys| == 1 && o.keys[0].Byt? && Less(k, o.keys[0].s) }

  /** What a row gives to the output is ordered by the row's key. */
  ghost predicate KeyedByRow(p: Plan, project: Row -> Res<OutRow>, row: Row) {
    RowOutcome(p, project, row).Emit? ==> RowOutcome(p, project, row).o.keys == [Byt(row.key)]
  }

  lemma {:induction false} BeforeAreAfter(p: Plan, project: Row -> Res<OutRow>, rows: seq<Row>, k: Bytes)
    requires forall i :: 0 <= i < |rows| ==> Less(k, rows[i].key) && KeyedByRow(p, project, rows[i])
    ensures forall o :: o in Before(RowOutcomes(p, project, rows)) ==> KeyedAfter(o, k)
    decreases |rows|
  {
    if rows != [] {
      var os := RowOutcomes(p, project, rows);
      BeforeSplit(os);
      assert os[1..] == RowOutcomes(p, project, rows[1..]);
      BeforeAreAfter(p, project, rows[1..], k);
      assert KeyedByRow(p, project, rows[0]);
    }
  }

  lemma LaterKeyIsNotLess(o: OutRow, k: Bytes)
    requires KeyedAfter(o, k)
    ensures CompareSeqs(o.keys, [Byt(k)]) >= 0
  {
    CompareAntisymmetric(k, o.keys[0].s);
    assert CompareValues(o.keys[0], Byt(k)) == Compare(o.keys[0].s, k);
  }

  ghost predicate ComparesKeys(p: Plan) { forall a, b :: p.less(a, b) <==> CompareSeqs(a.keys, b.keys) < 0 }

  lemma FirstInOrder(p: Plan, o: OutRow, rest: seq<OutRow>, k: Bytes)
    requires ComparesKeys(p) && InOrder(p, rest) && o.keys == [Byt(k)] && forall x :: x in rest ==> KeyedAfter(x, k)
    ensures InOrder(p, [o] + rest)
  {
    forall j | 0 <= j < |rest| ensures !p.less(rest[j], o) { LaterKeyIsNotLess(rest[j], k); }
  }

  lemma HeadInOrder(p: Plan, project: Row -> Res<OutRow>, rows: seq<Row>, o: OutRow, rest: seq<OutRow>)
    requires rows != [] && KeySorted(rows) && forall i :: 0 <= i < |rows| ==> KeyedByRow(p, project, rows[i])
    requires ComparesKeys(p) && InOrder(p, rest) && rest == Before(RowOutcomes(p, project, rows[1..]))
    requires RowOutcomes(p, project, rows)[0] == Emit(o)
    ensures InOrder(p, [o] + rest)
  {
    BeforeAreAfter(p, project, rows[1..], rows[0].key);
    assert KeyedByRow(p, project, rows[0]);
    FirstInOrder(p, o, rest, rows[0].key);
  }

  lemma {:induction false} BeforeInKeyOrder(p: Plan, project: Row -> Res<OutRow>, rows: seq<Row>)
    requires KeySorted(rows) && ComparesKeys(p) && forall i :: 0 <= i < |rows| ==> KeyedByRow(p, project, rows[i])
    ensures InOrder(p, Before(RowOutcomes(p, project, rows)))
    decreases |rows|
  {
    if rows != [] {
      var os := RowOutcomes(p, project, rows);
      BeforeSplit(os);
      assert os[1..] == RowOutcomes(p, project, rows[1..]);
      BeforeInKeyOrder(p, project, rows[1..]);
      if os[0].Emit? { HeadInOrder(p, project, rows, os[0].o, Before(os[1..])); }
    }
  }

  lemma {:induction false} SameKept(p: Plan, q: Plan, rows: seq<OutRow>)
    requires p.distinct == q.distinct && !p.order.ViewOrder? && !q.order.ViewOrder?
    ensures Kept(p, rows) == Kept(q, rows)
  {
    if rows != [] { SameKept(p, q, rows[..|rows| - 1]); }
  }

  /** Sorting what is in order already does not change the output. */
  lemma SameOutput(p: Plan, rows: seq<OutRow>)
    requires p.order.ByKeysNoop? && InOrder(p, rows)
    ensures Output(p, rows) == Output(p.(order := ByKeys), rows)
  {
    var q := p.(order := ByKeys);
    KeptInOrder(p, rows);
    SameKept(p, q, rows);
    SortedIsIdentity(q, Kept(q, rows));
  }

  /** ORDER BY _key on a table scan needs no sort. Skipping it gives the same rows and outcome exactly
      unless a row breaks the run after more rows than OFFSET skips were kept: they have been emitted,
      where a sort would have held them back. */
  lemma SkippedSortIsInvisibleIff(p: Plan, rows: seq<Row>)
    requires p.shape.Plain? && p.order.ByKeysNoop? && KeySorted(rows) && ComparesKeys(p)
    requires forall i :: 0 <= i < |rows| ==> KeyedByRow(p, p.shape.project, rows[i])
    ensures var os := Outcomes(p, rows);
            RunPlan(p, rows) == RunPlan(p.(order := ByKeys), rows) <==>
              p.limit == Some(0) || Break !in os || |Kept(p, Before(os))| <= p.offset
  {
    var q, os := p.(order := ByKeys), Outcomes(p, rows);
    RunMeans(p, rows);
    RunMeans(q, rows);
    assert Outcomes(q, rows) == os;
    BeforeInKeyOrder(p, p.shape.project, rows);
    SameOutput(p, Before(os));
    WindowSize(p, Kept(p, Before(os)));
  }

  // ---- DISTINCT ----

  predicate Typed(rows: seq<OutRow>, tys: seq<Type>) {
    forall i :: 0 <= i < |rows| ==> RowHasTypes(rows[i].vals, tys)
  }

  /** Hashed rows are the rows seen before, column by column. */
  lemma SeenMeans(kept: seq<OutRow>, x: OutRow, tys: seq<Type>)
    requires Typed(kept, tys) && RowHasTypes(x.vals, tys)
    ensures Seen(kept, x.vals) <==> exists i :: 0 <= i < |kept| && SameRow(kept[i].vals, x.vals)
  {
    forall i | 0 <= i < |kept| ensures Keys(kept[i].vals) == Keys(x.vals) <==> SameRow(kept[i].vals, x.vals) {
      HashedRowsAgree(kept[i].vals, x.vals, tys);
    }
  }

  ghost predicate PairwiseDifferent(rows: seq<OutRow>, tys: seq<Type>)
    requires Typed(rows, tys)
  {
    forall i, j :: 0 <= i < j < |rows| ==> !SameRow(rows[i].vals, rows[j].vals)
  }

  ghost predicate Represented(x: OutRow, kept: seq<OutRow>, tys: seq<Type>)
    requires Typed(kept, tys) && RowHasTypes(x.vals, tys)
  {
    exists i :: 0 <= i < |kept| && SameRow(kept[i].vals, x.vals)
  }

  lemma KeepMeans(p: Plan, kept: seq<OutRow>, x: OutRow, tys: seq<Type>)
    requires p.distinct && !p.order.ViewOrder? && RowHasTypes(x.vals, tys)
    requires Typed(kept, tys) && PairwiseDifferent(kept, tys)
    ensures var k := Keep(p, kept, x); kept <= k && Typed(k, tys) && PairwiseDifferent(k, tys) && Represented(x, k, tys)
  {
    var k := Keep(p, kept, x);
    SeenMeans(kept, x, tys);
    if !Seen(kept, x.vals) {
      HashedRowsAgree(x.vals, x.vals, tys);
      assert SameRow(k[|kept|].vals, x.vals);
    }
  }

  lemma StaysRepresented(x: OutRow, kept: seq<OutRow>, more: seq<OutRow>, tys: seq<Type>)
    requires Typed(kept, tys) && Typed(more, tys) && RowHasTypes(x.vals, tys) && kept <= more && Represented(x, kept, tys)
    ensures Represented(x, more, tys)
  {
    var j :| 0 <= j < |kept| && SameRow(kept[j].vals, x.vals);
    assert more[j] == kept[j];
  }

  /** `kept` holds exactly one row of every class of `rows` that agree column by column. */
  ghost predicate OneOfEach(rows: seq<OutRow>, kept: seq<OutRow>, tys: seq<Type>) {
    && Typed(rows, tys) && Typed(kept, tys) && PairwiseDifferent(kept, tys)
    && forall i :: 0 <= i < |rows| ==> Represented(rows[i], kept, tys)
  }

  lemma OneOfEachAfter(p: Plan, rows: seq<OutRow>, kept: seq<OutRow>, x: OutRow, tys: seq<Type>)
    requires p.distinct && !p.order.ViewOrder? && OneOfEach(rows, kept, tys) && RowHasTypes(x.vals, tys)
    ensures OneOfEach(rows + [x], Keep(p, kept, x), tys)
  {
    KeepMeans(p, kept, x, tys);
    forall i | 0 <= i < |rows| ensures Represented(rows[i], Keep(p, kept, x), tys) {
      StaysRepresented(rows[i], kept, Keep(p, kept, x), tys);
    }
  }

  /** DISTINCT keeps exactly one row of every class of rows that agree column by column. */
  lemma {:induction false} DistinctMeans(p: Plan, rows: seq<OutRow>, tys: seq<Type>)
    requires p.distinct && !p.order.ViewOrder? && Typed(rows, tys)
    ensures OneOfEach(rows, Kept(p, rows), tys)
  {
    if rows != [] {
      var init, x := rows[..|rows| - 1], rows[|rows| - 1];
      DistinctMeans(p, init, tys);
      OneOfEachAfter(p, init, Kept(p, init), x, tys);
      assert init + [x] == rows;
    }
  }

  // ---- GROUP BY ----

  /** The rows agree column by column. */
  predicate Alike(a: seq<Value>, b: seq<Value>) { |a| == |b| && SameRow(a, b) }

  /** A row that WHERE lets through and whose keys and arguments can be evaluated. */
  ghost predicate Contributes(p: Plan, row: Row)
    requires p.shape.Grouped?
  {
    WhereIs(p, row) == True && p.shape.keys(row).Val? && p.shape.args(row).Val?
  }

  ghost predicate RowBreaks(p: Plan, row: Row)
    requires p.shape.Grouped?
  {
    && !SkipsErrors(p)
    && (WhereIs(p, row) == Error || (WhereIs(p, row) == True && (p.shape.keys(row).Fail? || p.shape.args(row).Fail?)))
  }

  /** The keys of contributing rows have the types of the GROUP BY expressions. */
  ghost predicate KeysTyped(p: Plan, rows: seq<Row>, tys: seq<Type>)
    requires p.shape.Grouped?
  {
    forall i :: 0 <= i < |rows| && Contributes(p, rows[i]) ==> RowHasTypes(p.shape.keys(rows[i]).v, tys)
  }

  ghost predicate Known(ks: seq<seq<Value>>, keys: seq<Value>) { exists i :: 0 <= i < |ks| && Alike(ks[i], keys) }

  /** The different keys of contributing rows, in the order they first appear. */
  ghost function DistinctKeys(p: Plan, rows: seq<Row>): seq<seq<Value>>
    requires p.shape.Grouped?
  {
    if rows == [] then []
    else
      var ks, x := DistinctKeys(p, rows[..|rows| - 1]), rows[|rows| - 1];
      if Contributes(p, x) && !Known(ks, p.shape.keys(x).v) then ks + [p.shape.keys(x).v] else ks
  }

  /** The aggregate, in scan order, of the contributing rows whose keys agree with `keys`. */
  ghost function Aggregate(p: Plan, rows: seq<Row>, keys: seq<Value>): Res<Value>
    requires p.shape.Grouped?
  {
    if rows == [] then Val(p.shape.start)
    else
      var before, x := Aggregate(p, rows[..|rows| - 1], keys), rows[|rows| - 1];
      if before.Fail? || !Contributes(p, x) || !Alike(p.shape.keys(x).v, keys) then before
      else
        var a := p.shape.accumulate(before.v, p.shape.args(x).v);
        if a.failed && !SkipsErrors(p) then Fail else Val(a.acc)
  }

  ghost predicate AllDifferent(ks: seq<seq<Value>>, tys: seq<Type>) {
    && (forall i :: 0 <= i < |ks| ==> RowHasTypes(ks[i], tys))
    && (forall i, j :: 0 <= i < j < |ks| ==> !Alike(ks[i], ks[j]))
  }

  lemma AlikeIsHash(a: seq<Value>, b: seq<Value>, tys: seq<Type>)
    requires RowHasTypes(a, tys) && RowHasTypes(b, tys)
    ensures Alike(a, b) <==> Keys(a) == Keys(b)
  {
    HashedRowsAgree(a, b, tys);
  }

  lemma AllDifferentSnoc(ks: seq<seq<Value>>, keys: seq<Value>, tys: seq<Type>)
    requires AllDifferent(ks, tys) && RowHasTypes(keys, tys) && !Known(ks, keys)
    ensures AllDifferent(ks + [keys], tys)
  {
  }

  lemma KnownSnoc(ks: seq<seq<Value>>, keys: seq<Value>, x: seq<Value>, tys: seq<Type>)
    requires RowHasTypes(keys, tys)
    ensures Known(ks + [keys], keys) && (Known(ks, x) ==> Known(ks + [keys], x))
  {
    AlikeIsHash(keys, keys, tys);
    assert (ks + [keys])[|ks|] == keys;
    if i :| 0 <= i < |ks| && Alike(ks[i], x) { assert (ks + [keys])[i] == ks[i]; }
  }

  /** The keys are pairwise different, and every contributing row has one of them. */
  lemma {:induction false} DistinctKeysMean(p: Plan, rows: seq<Row>, tys: seq<Type>)
    requires p.shape.Grouped? && KeysTyped(p, rows, tys)
    ensures AllDifferent(DistinctKeys(p, rows), tys)
    ensures forall i :: 0 <= i < |rows| && Contributes(p, rows[i]) ==> Known(DistinctKeys(p, rows), p.shape.keys(rows[i]).v)
  {
    if rows != [] {
      var init, x := rows[..|rows| - 1], rows[|rows| - 1];
      var ks := DistinctKeys(p, init);
      DistinctKeysMean(p, init, tys);
      if Contributes(p, x) && !Known(ks, p.shape.keys(x).v) {
        AllDifferentSnoc(ks, p.shape.keys(x).v, tys);
        forall i | 0 <= i < |rows| && Contributes(p, rows[i])
          ensures Known(DistinctKeys(p, rows), p.shape.keys(rows[i]).v)
        {
          if i < |init| { assert init[i] == rows[i]; }
          KnownSnoc(ks, p.shape.keys(x).v, p.shape.keys(rows[i]).v, tys);
        }
      } else {
        forall i | 0 <= i < |rows| && Contributes(p, rows[i])
          ensures Known(DistinctKeys(p, rows), p.shape.keys(rows[i]).v)
        {
          if i < |init| { assert init[i] == rows[i]; }
        }
      }
    }
  }

  /** Nothing has been added for keys that no contributing row has. */
  lemma {:induction false} UnknownIsFresh(p: Plan, rows: seq<Row>, keys: seq<Value>)
    requires p.shape.Grouped?
    requires forall i :: 0 <= i < |rows| && Contributes(p, rows[i]) ==> !Alike(p.shape.keys(rows[i]).v, keys)
    ensures Aggregate(p, rows, keys) == Val(p.shape.start)
  {
    if rows != [] { UnknownIsFresh(p, rows[..|rows| - 1], keys); }
  }

  lemma NewKeysAreFresh(p: Plan, rows: seq<Row>, keys: seq<Value>, tys: seq<Type>)
    requires p.shape.Grouped? && KeysTyped(p, rows, tys) && RowHasTypes(keys, tys) && !Known(DistinctKeys(p, rows), keys)
    ensures Aggregate(p, rows, keys) == Val(p.shape.start)
  {
    var ks := DistinctKeys(p, rows);
    DistinctKeysMean(p, rows, tys);
    forall i | 0 <= i < |rows| && Contributes(p, rows[i]) ensures !Alike(p.shape.keys(rows[i]).v, keys) {
      var k := p.shape.keys(rows[i]).v;
      var j :| 0 <= j < |ks| && Alike(ks[j], k);
      AlikeIsHash(ks[j], k, tys);
      AlikeIsHash(k, keys, tys);
      AlikeIsHash(ks[j], keys, tys);
    }
    UnknownIsFresh(p, rows, keys);
  }

  /** One group for each of the different keys, with its aggregate. */
  ghost predicate GroupsAre(p: Plan, rows: seq<Row>, gs: seq<Group>)
    requires p.shape.Grouped?
  {
    var ks := DistinctKeys(p, rows);
    |gs| == |ks| && forall i :: 0 <= i < |gs| ==> gs[i].keys == ks[i] && Aggregate(p, rows, ks[i]) == Val(gs[i].acc)
  }

  ghost predicate AllFold(p: Plan, rows: seq<Row>)
    requires p.shape.Grouped?
  {
    forall i :: 0 <= i < |DistinctKeys(p, rows)| ==> Aggregate(p, rows, DistinctKeys(p, rows)[i]).Val?
  }

  ghost predicate NoRowBreaks(p: Plan, rows: seq<Row>)
    requires p.shape.Grouped?
  {
    forall i :: 0 <= i < |rows| ==> !RowBreaks(p, rows[i])
  }

  ghost function GatherStep(p: Plan, groups: seq<Group>, row: Row): Res<seq<Group>>
    requires p.shape.Grouped?
  {
    var w := WhereIs(p, row);
    if w == Error && !SkipsErrors(p) then Fail
    else if w != True then Val(groups)
    else GatherOne(p, groups, row)
  }

  lemma {:induction false} GatherSnoc(p: Plan, rows: seq<Row>, row: Row, groups: seq<Group>)
    requires p.shape.Grouped?
    ensures Gather(p, rows + [row], groups) ==
              match Gather(p, rows, groups) { case Fail => Fail case Val(gs) => GatherStep(p, gs, row) }
    decreases |rows|
  {
    var all := rows + [row];
    if rows == [] {
      assert all[0] == row && all[1..] == [];
    } else {
      assert all[0] == rows[0] && all[1..] == rows[1..] + [row];
      var next := GatherStep(p, groups, rows[0]);
      if next.Val? { GatherSnoc(p, rows[1..], row, next.v); }
    }
  }

  /** The group found by hashing is the one whose keys agree. */
  lemma FoundAmong(ks: seq<seq<Value>>, gs: seq<Group>, keys: seq<Value>, tys: seq<Type>)
    requires AllDifferent(ks, tys) && RowHasTypes(keys, tys) && |gs| == |ks| && forall i :: 0 <= i < |gs| ==> gs[i].keys == ks[i]
    ensures var i := GroupIndex(gs, keys);
            (i < |gs| <==> Known(ks, keys)) && forall j :: 0 <= j < |ks| ==> (Alike(keys, ks[j]) <==> j == i)
  {
    var i := GroupIndex(gs, keys);
    forall j | 0 <= j < |ks| ensures Alike(keys, ks[j]) <==> j == i {
      AlikeIsHash(keys, ks[j], tys);
      if i < |gs| {
        AlikeIsHash(ks[i], ks[j], tys);
        AlikeIsHash(ks[j], ks[i], tys);
      }
    }
    forall j | 0 <= j < |ks| ensures Alike(ks[j], keys) <==> j == i {
      AlikeIsHash(keys, ks[j], tys);
      AlikeIsHash(ks[j], keys, tys);
    }
  }

  lemma AggregateSnoc(p: Plan, rows: seq<Row>, x: Row, keys: seq<Value>)
    requires p.shape.Grouped?
    ensures Aggregate(p, rows + [x], keys) ==
              var before := Aggregate(p, rows, keys);
              if before.Fail? || !Contributes(p, x) || !Alike(p.shape.keys(x).v, keys) then before
              else
                var a := p.shape.accumulate(before.v, p.shape.args(x).v);
                if a.failed && !SkipsErrors(p) then Fail else Val(a.acc)
  {
    assert (rows + [x])[..|rows|] == rows;
  }

  lemma DistinctSnoc(p: Plan, rows: seq<Row>, x: Row)
    requires p.shape.Grouped?
    ensures DistinctKeys(p, rows + [x]) ==
              var ks := DistinctKeys(p, rows);
              if Contributes(p, x) && !Known(ks, p.shape.keys(x).v) then ks + [p.shape.keys(x).v] else ks
  {
    assert (rows + [x])[..|rows|] == rows;
  }

  /** Every aggregate after one more row: that of its own group goes on, and the others stay. */
  lemma AggregatesAfter(p: Plan, rows: seq<Row>, x: Row, gs: seq<Group>, tys: seq<Type>, j: nat)
    requires p.shape.Grouped? && KeysTyped(p, rows, tys) && GroupsAre(p, rows, gs)
    requires Contributes(p, x) && RowHasTypes(p.shape.keys(x).v, tys)
    requires j < |DistinctKeys(p, rows + [x])|
    ensures var i := GroupIndex(gs, p.shape.keys(x).v); var ks := DistinctKeys(p, rows + [x]);
            && i < |ks| && |ks| == (if i < |gs| then |gs| else |gs| + 1)
            && ks[j] == (if j < |gs| then gs[j].keys else p.shape.keys(x).v)
            && Aggregate(p, rows + [x], ks[j]) ==
                 if j != i then Val(gs[j].acc)
                 else
                   var a := p.shape.accumulate(if i < |gs| then gs[i].acc else p.shape.start, p.shape.args(x).v);
                   if a.failed && !SkipsErrors(p) then Fail else Val(a.acc)
  {
    var keys, ks := p.shape.keys(x).v, DistinctKeys(p, rows);
    DistinctKeysMean(p, rows, tys);
    FoundAmong(ks, gs, keys, tys);
    AlikeIsHash(keys, keys, tys);
    DistinctSnoc(p, rows, x);
    if GroupIndex(gs, keys) == |gs| { NewKeysAreFresh(p, rows, keys, tys); }
    AggregateSnoc(p, rows, x, DistinctKeys(p, rows + [x])[j]);
  }

  /** A contributing row joins its group, and the run fails exactly when that group's aggregate does. */
  lemma JoinMeans(p: Plan, rows: seq<Row>, x: Row, gs: seq<Group>, tys: seq<Type>)
    requires p.shape.Grouped? && KeysTyped(p, rows, tys) && GroupsAre(p, rows, gs)
    requires Contributes(p, x) && RowHasTypes(p.shape.keys(x).v, tys)
    ensures var next := GatherStep(p, gs, x);
            (next.Val? <==> AllFold(p, rows + [x])) && (next.Val? ==> GroupsAre(p, rows + [x], next.v))
  {
    var i, next, n := GroupIndex(gs, p.shape.keys(x).v), GatherStep(p, gs, x), |DistinctKeys(p, rows + [x])|;
    DistinctSnoc(p, rows, x);
    KeyIsListed(p, rows, x, gs, tys);
    AggregatesAfter(p, rows, x, gs, tys, i);
    if next.Val? {
      forall j | 0 <= j < n
        ensures next.v[j].keys == DistinctKeys(p, rows + [x])[j] && Aggregate(p, rows + [x], DistinctKeys(p, rows + [x])[j]) == Val(next.v[j].acc)
      {
        AggregatesAfter(p, rows, x, gs, tys, j);
      }
    }
  }

  lemma KeyIsListed(p: Plan, rows: seq<Row>, x: Row, gs: seq<Group>, tys: seq<Type>)
    requires p.shape.Grouped? && KeysTyped(p, rows, tys) && GroupsAre(p, rows, gs)
    requires Contributes(p, x) && RowHasTypes(p.shape.keys(x).v, tys)
    ensures GroupIndex(gs, p.shape.keys(x).v) < |DistinctKeys(p, rows + [x])|
  {
    DistinctKeysMean(p, rows, tys);
    FoundAmong(DistinctKeys(p, rows), gs, p.shape.keys(x).v, tys);
    DistinctSnoc(p, rows, x);
  }

  lemma OtherRowMeans(p: Plan, rows: seq<Row>, x: Row, gs: seq<Group>)
    requires p.shape.Grouped? && GroupsAre(p, rows, gs) && !Contributes(p, x) && !RowBreaks(p, x)
    ensures GatherStep(p, gs, x) == Val(gs) && GroupsAre(p, rows + [x], gs)
  {
    DistinctSnoc(p, rows, x);
    forall i | 0 <= i < |gs| ensures Aggregate(p, rows + [x], gs[i].keys) == Val(gs[i].acc) {
      AggregateSnoc(p, rows, x, gs[i].keys);
    }
  }

  /** An aggregate that failed stays failed. */
  lemma FailureStays(p: Plan, rows: seq<Row>, x: Row)
    requires p.shape.Grouped? && !(NoRowBreaks(p, rows) && AllFold(p, rows))
    ensures !(NoRowBreaks(p, rows + [x]) && AllFold(p, rows + [x]))
  {
    var more := rows + [x];
    if !NoRowBreaks(p, rows) {
      var i :| 0 <= i < |rows| && RowBreaks(p, rows[i]);
      assert more[i] == rows[i];
    } else {
      var ks := DistinctKeys(p, rows);
      var i :| 0 <= i < |ks| && Aggregate(p, rows, ks[i]).Fail?;
      DistinctSnoc(p, rows, x);
      AggregateSnoc(p, rows, x, ks[i]);
      assert DistinctKeys(p, more)[i] == ks[i];
    }
  }

  /** Hashed grouping is grouping by equality. It succeeds exactly when no row breaks it and the
      aggregate of every different key succeeds, and then the groups are those keys, in the order they
      first appear, with the aggregates of exactly their rows. */
  lemma {:induction false} GroupByMeans(p: Plan, rows: seq<Row>, tys: seq<Type>)
    requires p.shape.Grouped? && KeysTyped(p, rows, tys)
    ensures Gather(p, rows, []).Val? <==> NoRowBreaks(p, rows) && AllFold(p, rows)
    ensures Gather(p, rows, []).Val? ==> GroupsAre(p, rows, Gather(p, rows, []).v)
  {
    if rows != [] {
      var init, x := rows[..|rows| - 1], rows[|rows| - 1];
      assert rows == init + [x];
      GroupByMeans(p, init, tys);
      GatherSnoc(p, init, x, []);
      var gs := Gather(p, init, []);
      if gs.Fail? {
        FailureStays(p, init, x);
      } else if Contributes(p, x) {
        JoinMeans(p, init, x, gs.v, tys);
        NoBreakSnoc(p, init, x);
      } else if RowBreaks(p, x) {
        assert RowBreaks(p, rows[|init|]);
      } else {
        OtherRowMeans(p, init, x, gs.v);
        NoBreakSnoc(p, init, x);
      }
    }
  }

  lemma NoBreakSnoc(p: Plan, rows: seq<Row>, x: Row)
    requires p.shape.Grouped? && NoRowBreaks(p, rows) && !RowBreaks(p, x)
    ensures NoRowBreaks(p, rows + [x])
  {
  }

  // ---- errors on rows that pushdown skips ----

  ghost predicate FirstBreakSkipped(p: Plan, project: Row -> Res<OutRow>, rows: seq<Row>, f: Row -> bool) {
    var k := |Sound(RowOutcomes(p, project, rows))|;
    k < |rows| && !f(rows[k])
  }

  lemma {:induction false} SoundIsPrefix(os: seq<Outcome>)
    ensures |Sound(os)| <= |os| && (|Sound(os)| < |os| <==> Break in os)
  {
    if os != [] {
      BeforeSplit(os);
      SoundIsPrefix(os[1..]);
    }
  }

  /** Rows outside `f` give nothing to the output. */
  ghost predicate OnlyTrueOf(p: Plan, rows: seq<Row>, f: Row -> bool) {
    forall i :: 0 <= i < |rows| && !f(rows[i]) ==> WhereIs(p, rows[i]) != True
  }

  lemma FirstBreakSplit(p: Plan, project: Row -> Res<OutRow>, rows: seq<Row>, f: Row -> bool)
    requires rows != []
    ensures FirstBreakSkipped(p, project, rows, f) <==>
              if RowOutcome(p, project, rows[0]).Break? then !f(rows[0]) else FirstBreakSkipped(p, project, rows[1..], f)
  {
    assert RowOutcomes(p, project, rows)[1..] == RowOutcomes(p, project, rows[1..]);
  }

  /** A scan that leaves rows out emits no less before it breaks, and the same unless it skips the
      first row that breaks. */
  ghost predicate ScansLike(os: seq<Outcome>, scan: seq<Outcome>, skipped: bool) {
    Before(os) <= Before(scan) && (!skipped ==> Before(os) == Before(scan) && (Break in os <==> Break in scan))
  }

  lemma ScansOne(o: Outcome, os: seq<Outcome>, scan: seq<Outcome>, skipped: bool)
    requires o.Break? || ScansLike(os, scan, skipped)
    ensures ScansLike([o] + os, [o] + scan, skipped)
  {
    BeforeSplit([o] + os);
    BeforeSplit([o] + scan);
    assert ([o] + os)[1..] == os && ([o] + scan)[1..] == scan;
  }

  lemma SkipsOne(o: Outcome, os: seq<Outcome>, scan: seq<Outcome>, skipped: bool)
    requires !o.Emit? && ScansLike(os, scan, skipped)
    ensures ScansLike([o] + os, scan, skipped || o.Break?)
  {
    BeforeSplit([o] + os);
    assert ([o] + os)[1..] == os;
    assert o.Skip? ==> Before([o] + os) == Before(os);
  }

  lemma {:induction false} ScannedOutcomes(p: Plan, project: Row -> Res<OutRow>, rows: seq<Row>, f: Row -> bool)
    requires OnlyTrueOf(p, rows, f)
    ensures ScansLike(RowOutcomes(p, project, rows), RowOutcomes(p, project, Filter(rows, f)), FirstBreakSkipped(p, project, rows, f))
    decreases |rows|
  {
    if rows != [] {
      var o, os := RowOutcome(p, project, rows[0]), RowOutcomes(p, project, rows[1..]);
      var scan := RowOutcomes(p, project, Filter(rows[1..], f));
      var skipped := FirstBreakSkipped(p, project, rows[1..], f);
      ScannedOutcomes(p, project, rows[1..], f);
      FirstBreakSplit(p, project, rows, f);
      assert RowOutcomes(p, project, rows) == [o] + os;
      if f(rows[0]) {
        assert RowOutcomes(p, project, Filter(rows, f)) == [o] + scan;
        ScansOne(o, os, scan, FirstBreakSkipped(p, project, rows, f));
      } else {
        SkipsOne(o, os, scan, skipped);
      }
    }
  }

  /** The full scan meets an error, before the limit is reached, that the ranges do not cover. */
  ghost predicate ErrorIsHidden(p: Plan, rows: seq<Row>, f: Row -> bool) {
    && p.limit != Some(0)
    && match p.shape
       case Plain(project) => FirstBreakSkipped(p, project, rows, f) && !Full(p, Before(RowOutcomes(p, project, rows)))
       case Grouped(_, _, _, _, _, _) =>
         !SkipsErrors(p) && exists i :: 0 <= i < |rows| && !f(rows[i]) && WhereIs(p, rows[i]) == Error
  }

  /** The scan breaks as well, at a later row or group, and before it shows a row more. */
  ghost predicate ScanBreaksAlike(p: Plan, rows: seq<Row>, scanned: seq<Row>) {
    Break in Outcomes(p, scanned) && ShowsNoMore(p, Before(Outcomes(p, rows)), Before(Outcomes(p, scanned)))
  }

  lemma PlainHides(p: Plan, rows: seq<Row>, f: Row -> bool)
    requires p.shape.Plain? && OnlyTrueOf(p, rows, f)
    ensures RunPlan(p, Filter(rows, f)) == RunPlan(p, rows) <==>
              (ErrorIsHidden(p, rows, f) ==> ScanBreaksAlike(p, rows, Filter(rows, f)))
  {
    var project := p.shape.project;
    var os, scan := RowOutcomes(p, project, rows), RowOutcomes(p, project, Filter(rows, f));
    RunMeans(p, rows);
    RunMeans(p, Filter(rows, f));
    ScannedOutcomes(p, project, rows, f);
    SoundIsPrefix(os);
    if Full(p, Before(os)) {
      FullStays(p, Before(os), Before(scan)[|Before(os)|..]);
      assert Before(os) + Before(scan)[|Before(os)|..] == Before(scan);
    } else if p.limit != Some(0) {
      ShownSoFar(p, Before(os), Before(scan));
    }
  }

  lemma {:induction false} GatherSkips(p: Plan, rows: seq<Row>, f: Row -> bool, groups: seq<Group>)
    requires p.shape.Grouped? && OnlyTrueOf(p, rows, f)
    requires SkipsErrors(p) || forall i :: 0 <= i < |rows| && !f(rows[i]) ==> WhereIs(p, rows[i]) != Error
    ensures Gather(p, Filter(rows, f), groups) == Gather(p, rows, groups)
    decreases |rows|
  {
    if rows != [] {
      var next := GatherStep(p, groups, rows[0]);
      if next.Val? { GatherSkips(p, rows[1..], f, next.v); }
      if f(rows[0]) { assert Filter(rows, f)[1..] == Filter(rows[1..], f); }
    }
  }

  lemma {:induction false} ErrorFailsGather(p: Plan, rows: seq<Row>, groups: seq<Group>, i: nat)
    requires p.shape.Grouped? && !SkipsErrors(p) && i < |rows| && WhereIs(p, rows[i]) == Error
    ensures Gather(p, rows, groups).Fail?
    decreases |rows|
  {
    if i > 0 {
      var next := GatherStep(p, groups, rows[0]);
      if next.Val? { ErrorFailsGather(p, rows[1..], next.v, i - 1); }
    }
  }

  lemma GroupedHides(p: Plan, rows: seq<Row>, f: Row -> bool)
    requires p.shape.Grouped? && OnlyTrueOf(p, rows, f)
    ensures RunPlan(p, Filter(rows, f)) == RunPlan(p, rows) <==>
              (ErrorIsHidden(p, rows, f) ==> ScanBreaksAlike(p, rows, Filter(rows, f)))
  {
    RunMeans(p, rows);
    RunMeans(p, Filter(rows, f));
    if ErrorIsHidden(p, rows, f) {
      var i :| 0 <= i < |rows| && !f(rows[i]) && WhereIs(p, rows[i]) == Error;
      ErrorFailsGather(p, rows, [], i);
      assert Before(Outcomes(p, rows)) == [] && !Full(p, []);
      ShownSoFar(p, [], Before(Outcomes(p, Filter(rows, f))));
    } else if p.limit != Some(0) {
      GatherSkips(p, rows, f, []);
    }
  }

  /** Scanning the ranges of WHERE gives the rows and the outcome of a full scan exactly unless the full
      scan meets an error outside the ranges and the scan does not break alike. */
  lemma PushdownIsInvisibleIff(p: Plan, rows: seq<Row>, noPushdown: bool, rs: seq<Range>)
    requires KeySorted(rows) && RangesFit(p.where, noPushdown, rs)
    ensures RunPlan(p, ScanRanges(rows, rs)) == RunPlan(p, rows) <==>
              (ErrorIsHidden(p, rows, (row: Row) => Covered(rs, row.key)) ==> ScanBreaksAlike(p, rows, ScanRanges(rows, rs)))
  {
    var f := (row: Row) => Covered(rs, row.key);
    ScanIsFilter(rows, rs);
    forall i | 0 <= i < |rows| && !f(rows[i]) ensures WhereIs(p, rows[i]) != True {
      OutsideIsNotTrue(p, noPushdown, rs, rows[i]);
    }
    if p.shape.Plain? { PlainHides(p, rows, f); } else { GroupedHides(p, rows, f); }
  }

  // ---- two runs that hide an error ----

  /** `f(row) AND _key = x`, where `f` fails on the keys that are not `x`. */
  function FailsElsewhere(x: Bytes): Expr {
    And(Other((row: Row) => if row.key == x then True else Error), Cmp(Eq, KeyColumn, Constant(Is(x))))
  }

  function SelectEmpty(where: Expr, limit: Option<nat>): Plan {
    Plan(Some(where), Plain(_ => Val(OutRow([], []))), false, Unordered, _ => true, (_, _) => false, limit, 0)
  }

  const EMPTY_ROW := OutRow([], [])

  lemma OutcomeElsewhere(x: Bytes, limit: Option<nat>, row: Row)
    ensures var p := SelectEmpty(FailsElsewhere(x), limit);
            RowOutcome(p, p.shape.project, row) == if row.key == x then Emit(EMPTY_ROW) else Break
  {
    var e := FailsElsewhere(x);
    assert Eval(e.l, row) == (if row.key == x then True else Error) && (row.key == x ==> Eval(e.r, row) == True);
  }

  lemma ReachElsewhere(x: Bytes, rs: seq<Range>, k: Bytes)
    requires RangesFit(Some(FailsElsewhere(x)), false, rs)
    ensures Covered(rs, k) <==> k == x
  {
    var e := FailsElsewhere(x);
    assert Ranged(e.r) && !Ranged(e.l) && (Reach(e.r, k) <==> k == x);
    assert Covered(rs, k) <==> Scanned(Some(e), false, k);
  }

  lemma OneIsKept(p: Plan, o: OutRow)
    requires p.order.Unordered? && !p.distinct
    ensures Kept(p, [o]) == [o]
  {
    assert [o][..0] == [] && Kept(p, []) == [];
    assert Keep(p, [], o) == [] + [o];
  }

  lemma OneInWindow(p: Plan, o: OutRow)
    requires p.offset == 0 && p.limit != Some(0)
    ensures Window(p, [o]) == [o]
  {
    assert Drop(0, [o]) == [o];
  }

  lemma OneRowPasses(p: Plan, o: OutRow)
    requires p.order.Unordered? && !p.distinct && p.offset == 0 && p.limit != Some(0)
    ensures Output(p, [o]) == Emitted(p, [o]) == [o] && (Full(p, [o]) <==> p.limit == Some(1))
  {
    OneIsKept(p, o);
    OneInWindow(p, o);
  }

  /** One row is emitted, and then the run may break. */
  lemma OneThenMaybeBreak(p: Plan, rest: seq<Outcome>)
    requires p.order.Unordered? && !p.distinct && p.offset == 0 && p.limit != Some(0) && (rest == [] || rest[0].Break?)
    ensures Meaning(p, [Emit(EMPTY_ROW)] + rest) == ([EMPTY_ROW], rest != [] && p.limit != Some(1))
  {
    var os := [Emit(EMPTY_ROW)] + rest;
    BeforeSplit(os);
    assert os[1..] == rest && Before(rest) == [] && (rest != [] ==> rest[0] in rest);
    assert Before(os) == [EMPTY_ROW];
    OneRowPasses(p, EMPTY_ROW);
  }

  lemma BreakAtOnce(p: Plan, os: seq<Outcome>)
    requires p.order.Unordered? && p.limit == None && os != [] && os[0].Break?
    ensures Meaning(p, os) == ([], true)
  {
    assert Before(os) == [] && Kept(p, []) == [];
  }

  /** Whatever ranges pushdown finds, they cover only `x`: the query fails on a full scan and succeeds
      with pushdown. */
  lemma PushdownHidesAnError(x: Bytes, y: Bytes, rs: seq<Range>)
    requires Less(y, x) && RangesFit(Some(FailsElsewhere(x)), false, rs)
    ensures var p, rows := SelectEmpty(FailsElsewhere(x), None), [Row(y, []), Row(x, [])];
            && KeySorted(rows) && RunPlan(p, rows) == ([], true)
            && RunPlan(p, ScanRanges(rows, rs)) == ([EMPTY_ROW], false)
  {
    var p, a, b, f := SelectEmpty(FailsElsewhere(x), None), Row(y, []), Row(x, []), (row: Row) => Covered(rs, row.key);
    var rows := [a, b];
    ScanIsFilter(rows, rs);
    ReachElsewhere(x, rs, x);
    ReachElsewhere(x, rs, y);
    FilterLast(a, b, f);
    OutcomeElsewhere(x, None, a);
    OutcomeElsewhere(x, None, b);
    RunMeans(p, rows);
    BreakAtOnce(p, Outcomes(p, rows));
    RunMeans(p, [b]);
    assert Outcomes(p, [b]) == [Emit(EMPTY_ROW)] + [];
    OneThenMaybeBreak(p, []);
  }

  lemma FilterLast(a: Row, b: Row, f: Row -> bool)
    requires !f(a) && f(b)
    ensures Filter([a, b], f) == [b]
  {
    assert [a, b][1..] == [b] && [b][1..] == [];
    assert Filter([b], f) == [b] + Filter([b][1..], f);
  }

  /** LIMIT hides an error as well: the row that fails is no longer asked for. */
  lemma LimitHidesAnError(x: Bytes, y: Bytes, limit: Option<nat>)
    requires Less(x, y) && limit != Some(0)
    ensures var rows := [Row(x, []), Row(y, [])];
            KeySorted(rows) && RunPlan(SelectEmpty(FailsElsewhere(x), limit), rows) == ([EMPTY_ROW], limit != Some(1))
  {
    var p, rows := SelectEmpty(FailsElsewhere(x), limit), [Row(x, []), Row(y, [])];
    OutcomeElsewhere(x, limit, rows[0]);
    OutcomeElsewhere(x, limit, rows[1]);
    RunMeans(p, rows);
    assert Outcomes(p, rows) == [Emit(EMPTY_ROW)] + [Break];
    OneThenMaybeBreak(p, [Break]);
  }
}
