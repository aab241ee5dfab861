/** What the write requests leave, in terms of cells and keys. */
module WriteLaws {
  import opened Basics
  import opened Lex
  import opened Names
  import opened Columns
  import Gc
  import opened Mutations
  import opened Replay
  import opened Writes
  import AggregateCells

  // ---- one mutation ----

  ghost predicate SameBut(c: Content, d: Content, k: Column) { forall j: Column :: j != k ==> Get(d, j) == Get(c, j) }

  /** The cell written is at the time asked for (cut down to milliseconds when the client chose it),
      or at the server's when that is -1; it replaces a cell at that time and nothing else. */
  lemma SetCellLeaves(c: Content, m: Mutation, s: Schema, now: int) returns (t: int)
    requires GoodRow(c, s) && m.SetCell? && ValidMutation(m, s)
    ensures m.ts == -1 ==> t == now
    ensures m.ts != -1 ==> t <= m.ts < t + 1000 && ValidTs(s, t) && (t == m.ts || m.auto)
    ensures var r, k := Apply(c, m, s, now), (m.fam, m.col);
            && r.Some? && SameBut(c, r.value, k)
            && forall x :: x in Get(r.value, k) <==> x == Cell(t, m.value, []) || (x in Get(c, k) && x.ts != t)
  {
    t := Resolve(s, m.ts, m.auto, now);
    var k, y := (m.fam, m.col), Cell(t, m.value, []);
    ColumnIsGood(c, k, s);
    forall x ensures x in Put(Get(c, k), y) <==> x == y || (x in Get(c, k) && x.ts != t) { PutHolds(Get(c, k), y, x); }
  }

  /** A deletion removes the cells from the start of its range up to its end, 0 being no end, or all
      cells of its column, family or row. */
  lemma DeletionLeaves(c: Content, m: Mutation, s: Schema, now: int, k: Column, x: Cell)
    requires m.DeleteFromColumn? || m.DeleteFromFamily? || m.DeleteFromRow?
    ensures var r := Apply(c, m, s, now); r.Some? && (x in Get(r.value, k) <==> x in Get(c, k) && !Hit(m, k, x.ts))
  {
    if m.DeleteFromColumn? && m.range.Some? { EraseHolds(Get(c, (m.fam, m.col)), m.range.value.0, m.range.value.1); }
  }

  ghost predicate Hit(m: Mutation, k: Column, t: int)
    requires m.DeleteFromColumn? || m.DeleteFromFamily? || m.DeleteFromRow?
  {
    match m
    case DeleteFromColumn(fam, col, range) =>
      k == (fam, col) && (range.Some? ==> range.value.0 <= t && (range.value.1 != 0 ==> t < range.value.1))
    case DeleteFromFamily(fam) => k.0 == fam
    case DeleteFromRow => true
  }

  /** A range of valid times is accepted exactly when it holds a valid time. */
  lemma RangeIsValidIff(m: Mutation, s: Schema)
    requires m.DeleteFromColumn? && m.fam in s.families && m.range.Some?
    requires ValidTs(s, m.range.value.0) && (m.range.value.1 == 0 || ValidTs(s, m.range.value.1))
    ensures ValidMutation(m, s) <==> exists t :: ValidTs(s, t) && Hit(m, (m.fam, m.col), t)
  {
    if ValidMutation(m, s) { assert Hit(m, (m.fam, m.col), m.range.value.0); }
  }

  /** An aggregate writes one cell: the one at its time, with the input combined into its value and its
      labels kept, or a new one with the input alone. */
  lemma AggregateLeaves(c: Content, m: Mutation, s: Schema, now: int) returns (t: int, y: Cell)
    requires GoodRow(c, s) && m.Aggregate? && ValidMutation(m, s) && Apply(c, m, s, now).Some?
    ensures t <= m.ts < t + 1000 && ValidTs(s, t) && (t == m.ts || m.auto) && y.ts == t
    ensures var r, k := Apply(c, m, s, now).value, (m.fam, m.col);
            SameBut(c, r, k) && forall x :: x in Get(r, k) <==> x == y || (x in Get(c, k) && x.ts != t)
    ensures forall x :: x in Get(c, (m.fam, m.col)) && x.ts == t ==>
              y.labels == x.labels && Some(y.value) == Aggregated(s, s.families[m.fam].kind, Some(x.value), m.input, m.merge)
    ensures !HasTs(Get(c, (m.fam, m.col)), t) ==>
              y.labels == [] && Some(y.value) == Aggregated(s, s.families[m.fam].kind, None, m.input, m.merge)
  {
    t := Resolve(s, m.ts, m.auto, 0);
    var k := (m.fam, m.col);
    var cs := Get(c, k);
    var prior := ValueAt(cs, t);
    var was := if prior.Some? then Some(prior.value.value) else None;
    var v := Aggregated(s, s.families[m.fam].kind, was, m.input, m.merge).value;
    y := if prior.Some? then prior.value.(value := v) else Cell(t, v, []);
    ColumnIsGood(c, k, s);
    forall x ensures x in Put(cs, y) <==> x == y || (x in cs && x.ts != t) { PutHolds(cs, y, x); }
    forall x | x in cs && x.ts == t ensures prior == Some(x) {
      assert HasTs(cs, t);
      SameTime(cs, x, prior.value);
    }
  }

  /** Eight raw bytes count as the integer they encode, and a sketch takes an integer as its bytes. */
  lemma InputsAgree(s: Schema, kind: Kind, prior: Option<Bytes>, x: int)
    requires AggregateCells.Fits(x)
    ensures Aggregated(s, kind, prior, IntInput(x), false) == Aggregated(s, kind, prior, RawInput(EncodeInt64(x)), false)
  {
    AggregateCells.DecodeInvertsEncode(x);
    AggregateCells.WrapFits(x);
  }

  // ---- a whole request ----

  /** A cell that the server times is found at the server's time. */
  lemma ServerTimedCellIsFound(st: State, key: Bytes, fam: Name, col: Name, v: Bytes, auto: bool, now: int, gcNow: int,
                               s: Schema)
    requires GoodTable(st.rows, s) && ValidKey(key)
    requires fam in s.families && s.families[fam].kind.NoAggregate? && s.families[fam].rule == Gc.NoRule
    ensures var q := MutateRow(key, [SetCell(fam, col, -1, v, auto)], now, gcNow);
            Cell(now, v, []) in Get(RowAt(Step(st, q, s).rows, key), (fam, col))
  {
    var m, c, k := SetCell(fam, col, -1, v, auto), RowAt(st.rows, key), (fam, col);
    var q := MutateRow(key, [m], now, gcNow);
    RowIsGood(st.rows, key, s);
    var t := SetCellLeaves(c, m, s, now);
    OneReplay(c, m, s, now);
    var d := Apply(c, m, s, now).value;
    assert EditOf(c, q, s).value.after == d;
    CollectRowGets(d, s, gcNow, k);
    Gc.NothingIsCollected(Get(d, k), gcNow);
    assert Cell(now, v, []) in Get(CollectRow(d, s, gcNow), k);
    SaveTwice(st.rows, key, CollectRow(d, s, gcNow), map[]);
  }

  lemma NoFamilies(c: Content, s: Schema)
    requires Drops(Arrange(FamiliesIn(c), OrderOf(s))) == []
    ensures c == map[]
  {
    assert FamiliesIn(c) == Elements(Arrange(FamiliesIn(c), OrderOf(s))) == {};
    forall k ensures k !in c { assert k in c ==> k.0 in FamiliesIn(c); }
  }

  /** Only deletions of an empty row change nothing. */
  lemma {:induction false} ChangesNothing(c: Content, ms: seq<Mutation>, s: Schema, now: int)
    requires ms != [] && ApplyAll(c, ms, s, now).Some? && AllChanges(c, ms, s, now) == []
    ensures c == map[] && ApplyAll(c, ms, s, now) == Some(map[])
  {
    var init, m := ms[..|ms| - 1], ms[|ms| - 1];
    NoFamilies(ApplyAll(c, init, s, now).value, s);
    if init != [] { ChangesNothing(c, init, s, now); }
  }

  lemma CommitNothing(st: State, key: Bytes, s: Schema, gcNow: int)
    requires GoodTable(st.rows, s) && RowAt(st.rows, key) == map[]
    ensures Commit(st, key, Edited(map[], []), s, gcNow) == st
  {
    var none: Content := map[];
    ArrangeNothing(OrderOf(s));
    assert FamiliesIn(none) == {};
    assert ColumnOrder(none, s) == [] && GcRecords(none, s, gcNow) == [];
    assert CollectRow(none, s, gcNow) == none;
    assert key !in st.rows && st.rows - {key} == st.rows;
    assert st.log + [] + [] == st.log;
  }

  lemma MutateEdits(c: Content, q: Request, s: Schema)
    requires q.MutateRow?
    ensures EditOf(c, q, s) == if ValidKey(q.key) then Mutate(c, q.ms, s, q.now) else None
  {
  }

  lemma ChosenEdits(c: Content, q: Request, ms: seq<Mutation>, s: Schema, e: Option<Edited>)
    requires q.CheckAndMutateRow? && q.test(c).Some? && ms == if q.test(c).value then q.yes else q.no
    requires e == Mutate(c, ms, s, q.now)
    ensures EditOf(c, q, s) == if !ValidKey(q.key) || (e.Some? && e.value.changes == []) then None else e
  {
    if q.yes == [] && q.no == [] { assert !ValidMutations(ms, s); }
  }

  lemma CheckEdits(c: Content, q: Request, ms: seq<Mutation>, s: Schema)
    requires q.CheckAndMutateRow? && q.test(c).Some? && ms == if q.test(c).value then q.yes else q.no
    ensures var e, f := EditOf(c, q, s), EditOf(c, MutateRow(q.key, ms, q.now, q.gcNow), s);
            e == f || (e == None && f == Some(Edited(map[], [])) && c == map[])
  {
    var e := Mutate(c, ms, s, q.now);
    MutateEdits(c, MutateRow(q.key, ms, q.now, q.gcNow), s);
    ChosenEdits(c, q, ms, s, e);
    if e.Some? && e.value.changes == [] { ChangesNothing(c, ms, s, q.now); }
  }

  lemma SameStep(st: State, q: Request, p: Request, s: Schema)
    requires !q.DropRowRange? && !p.DropRowRange? && p.key == q.key && p.gcNow == q.gcNow && GoodTable(st.rows, s)
    requires var c := RowAt(st.rows, q.key);
             var e, f := EditOf(c, q, s), EditOf(c, p, s);
             e == f || (e == None && f == Some(Edited(map[], [])) && c == map[])
    ensures Step(st, q, s) == Step(st, p, s)
  {
    var c := RowAt(st.rows, q.key);
    if EditOf(c, q, s) != EditOf(c, p, s) { CommitNothing(st, q.key, s, q.gcNow); }
  }

  /** A checked mutation is the mutation that the check chooses, or nothing when the check fails. */
  lemma CheckChooses(st: State, q: Request, s: Schema)
    requires GoodTable(st.rows, s) && q.CheckAndMutateRow?
    ensures var found := q.test(RowAt(st.rows, q.key));
            && (found == Some(true) ==> Step(st, q, s) == Step(st, MutateRow(q.key, q.yes, q.now, q.gcNow), s))
            && (found == Some(false) ==> Step(st, q, s) == Step(st, MutateRow(q.key, q.no, q.now, q.gcNow), s))
            && (found == None ==> Step(st, q, s) == st)
  {
    var c := RowAt(st.rows, q.key);
    if q.test(c).Some? {
      var ms := if q.test(c).value then q.yes else q.no;
      CheckEdits(c, q, ms, s);
      SameStep(st, q, MutateRow(q.key, ms, q.now, q.gcNow), s);
    }
  }

  lemma SaveLeaves(rows: Rows, key: Bytes, c: Content)
    ensures Save(rows, key, c) - {key} == rows - {key} && RowAt(Save(rows, key, c), key) == c
  {
  }

  /** A request with an invalid key or an invalid or failing list of mutations changes nothing. Any
      other saves what its mutations, in order, and then the collection leave of its row. */
  lemma MutateRowLeaves(st: State, key: Bytes, ms: seq<Mutation>, now: int, gcNow: int, s: Schema)
    ensures var st', d := Step(st, MutateRow(key, ms, now, gcNow), s), ApplyAll(RowAt(st.rows, key), ms, s, now);
            if ValidKey(key) && ValidMutations(ms, s) && d.Some?
            then st'.rows - {key} == st.rows - {key} && RowAt(st'.rows, key) == CollectRow(d.value, s, gcNow)
            else st' == st
  {
    var d := ApplyAll(RowAt(st.rows, key), ms, s, now);
    if d.Some? { SaveLeaves(st.rows, key, CollectRow(d.value, s, gcNow)); }
  }

  // ---- read-modify-write ----

  /** A rule fails only when it is unset or increments a value that is not eight bytes. Otherwise it
      puts a cell on top of the column, no older than the clock, with the bytes appended or the
      amount added. */
  lemma RuleLeaves(m: Modified, r: Rule)
    ensures var k := (r.fam, r.col); var n, cs := ApplyRule(m, r), Get(m.seen, k);
            && (n.None? <==> r.change.Unset? || (r.change.Increment? && cs != [] && |cs[0].value| != 8))
            && (n.Some? ==>
                  var seen := Get(n.value.seen, k);
                  && seen != [] && seen[0].labels == [] && seen[0] in Get(n.value.row, k)
                  && seen[0].ts == (if cs == [] || cs[0].ts <= r.clock then r.clock else cs[0].ts)
                  && (r.change.Append? ==> seen[0].value == (if cs == [] then [] else cs[0].value) + r.change.b)
                  && (r.change.Increment? ==>
                        && |seen[0].value| == 8
                        && DecodeInt64(seen[0].value) ==
                             Wrap((if cs == [] then 0 else DecodeInt64(cs[0].value)) + r.change.amount))
                  && SameBut(m.row, n.value.row, k) && SameBut(m.seen, n.value.seen, k))
  {
    var k := (r.fam, r.col);
    var cs := Get(m.seen, k);
    var x := NewCell(r, cs);
    if x.Some? {
      PutHasIt(Get(m.row, k), x.value);
      if r.change.Increment? {
        AggregateCells.DecodeInvertsEncode((if cs == [] then 0 else DecodeInt64(cs[0].value)) + r.change.amount);
      }
    }
  }

  lemma {:induction false} PutHasIt(cs: seq<Cell>, x: Cell)
    ensures x in Put(cs, x)
  {
    if cs != [] && cs[0].ts > x.ts { PutHasIt(cs[1..], x); }
  }

  lemma {:induction false} PutAgain(cs: seq<Cell>, x: Cell, y: Cell)
    requires x.ts == y.ts
    ensures Put(Put(cs, x), y) == Put(cs, y)
  {
    if cs != [] && cs[0].ts > x.ts { PutAgain(cs[1..], x, y); }
  }

  /** Two rules at one time do what one rule does: they write over the same cell. */
  ghost predicate ActAsOne(m: Modified, a: Rule, b: Rule, both: Rule) {
    var first, n := ApplyRule(m, a), ApplyRule(m, both);
    if first.None? then n.None?
    else
      var second := ApplyRule(first.value, b);
      second.Some? && n.Some? && second.value.row == n.value.row && second.value.seen == n.value.seen
  }

  lemma SecondOverFirst(m: Modified, a: Rule, b: Rule, both: Rule)
    requires a.fam == b.fam == both.fam && a.col == b.col == both.col
    requires var cs := Get(m.seen, (a.fam, a.col));
             var x, z := NewCell(a, cs), NewCell(both, cs);
             (x.None? <==> z.None?) && (x.Some? ==> x.value.ts == z.value.ts && NewCell(b, Put(cs, x.value)) == z)
    ensures ActAsOne(m, a, b, both)
  {
    var k := (a.fam, a.col);
    var cs := Get(m.seen, k);
    var x, z := NewCell(a, cs), NewCell(both, cs);
    if x.Some? {
      PutAgain(cs, x.value, z.value);
      PutAgain(Get(m.row, k), x.value, z.value);
      StoreAgain(m.row, k, Put(Get(m.row, k), x.value), Put(Get(m.row, k), z.value));
      StoreAgain(m.seen, k, Put(cs, x.value), Put(cs, z.value));
    }
  }

  lemma StoreAgain(c: Content, k: Column, a: seq<Cell>, b: seq<Cell>)
    ensures Store(Store(c, k, a), k, b) == Store(c, k, b)
  {
  }

  /** Two appends are one append of both. */
  lemma AppendsConcatenate(m: Modified, fam: Name, col: Name, a: Bytes, b: Bytes, clock: int)
    ensures ActAsOne(m, Rule(fam, col, Append(a), clock), Rule(fam, col, Append(b), clock),
                     Rule(fam, col, Append(a + b), clock))
  {
    var one, two := Rule(fam, col, Append(a), clock), Rule(fam, col, Append(b), clock);
    var cs := Get(m.seen, (fam, col));
    var was := if cs == [] then [] else cs[0].value;
    Associative(was, a, b);
    SecondOverFirst(m, one, two, Rule(fam, col, Append(a + b), clock));
  }

  lemma SameModulo(x: int, y: int, u: int, sum: int)
    requires u == Wrap(x) + y && sum == x + y
    ensures u % TWO64 == sum % TWO64
  {
    AggregateCells.WrapIsCongruent(x);
    var w := Wrap(x);
    AggregateCells.AddCongruent(w, x, y);
  }

  lemma EncodesModulo(x: int, y: int, sum: int)
    requires sum == x + y
    ensures EncodeInt64(Wrap(x) + y) == EncodeInt64(sum)
  {
    var u := Wrap(x) + y;
    SameModulo(x, y, u, sum);
    SameEncoding(u, sum);
  }

  lemma SameEncoding(u: int, v: int)
    requires u % TWO64 == v % TWO64
    ensures EncodeInt64(u) == EncodeInt64(v)
  {
  }

  function Later(r: Rule, cs: seq<Cell>): int { if cs == [] || cs[0].ts <= r.clock then r.clock else cs[0].ts }

  lemma IncrementWrites(r: Rule, cs: seq<Cell>, was: int, next: int, v: Bytes)
    requires r.change.Increment? && next == was + r.change.amount && v == EncodeInt64(next)
    requires if cs == [] then was == 0 else |cs[0].value| == 8 && was == DecodeInt64(cs[0].value)
    ensures NewCell(r, cs) == Some(Cell(Later(r, cs), v, []))
  {
    if cs == [] {
      assert next == r.change.amount;
    } else {
      assert DecodeInt64(cs[0].value) + r.change.amount == next;
    }
  }

  lemma HeadDecides(r: Rule, cs: seq<Cell>, x: Cell)
    requires cs != [] && cs[0] == x
    ensures NewCell(r, cs) == NewCell(r, [x])
  {
    if r.change.Increment? && |x.value| == 8 {
      var next := DecodeInt64(x.value) + r.change.amount;
      IncrementWrites(r, cs, DecodeInt64(x.value), next, EncodeInt64(next));
      IncrementWrites(r, [x], DecodeInt64(x.value), next, EncodeInt64(next));
    }
  }

  lemma NewCellOver(r: Rule, cs: seq<Cell>, x: Cell)
    requires x.ts >= r.clock && (cs == [] || cs[0].ts <= x.ts)
    ensures NewCell(r, Put(cs, x)) == NewCell(r, [x]) && Later(r, [x]) == x.ts
  {
    HeadDecides(r, Put(cs, x), x);
  }

  lemma IncrementsReach(before: int, b: int, sum: int)
    requires sum == before + b
    ensures var x := EncodeInt64(before); |x| == 8 && EncodeInt64(DecodeInt64(x) + b) == EncodeInt64(sum)
  {
    AggregateCells.DecodeInvertsEncode(before);
    EncodesModulo(before, b, sum);
  }

  lemma IncrementsWrite(one: Rule, two: Rule, cs: seq<Cell>, was: int, all: int) returns (v: Bytes, w: Bytes)
    requires one.change.Increment? && two.change.Increment? && one.clock == two.clock
    requires if cs == [] then was == 0 else |cs[0].value| == 8 && was == DecodeInt64(cs[0].value)
    requires all == was + one.change.amount + two.change.amount
    ensures NewCell(one, cs) == Some(Cell(Later(one, cs), v, []))
    ensures NewCell(two, [Cell(Later(one, cs), v, [])]) == Some(Cell(Later(one, cs), w, [])) && w == EncodeInt64(all)
  {
    var first := was + one.change.amount;
    v, w := EncodeInt64(first), EncodeInt64(all);
    IncrementWrites(one, cs, was, first, v);
    IncrementsReach(first, two.change.amount, all);
    var x := Cell(Later(one, cs), v, []);
    IncrementWrites(two, [x], DecodeInt64(v), DecodeInt64(v) + two.change.amount, w);
  }

  lemma SumWrites(both: Rule, cs: seq<Cell>, was: int, sum: int, all: int, w: Bytes)
    requires both.change == Increment(Wrap(sum)) && all == was + sum && w == EncodeInt64(all)
    requires if cs == [] then was == 0 else |cs[0].value| == 8 && was == DecodeInt64(cs[0].value)
    ensures NewCell(both, cs) == Some(Cell(Later(both, cs), w, []))
  {
    EncodesModulo(sum, was, all);
    var next := was + Wrap(sum);
    IncrementWrites(both, cs, was, next, EncodeInt64(next));
  }

  lemma IncrementsOver(one: Rule, two: Rule, both: Rule, cs: seq<Cell>, was: int, sum: int)
    requires one.change.Increment? && two.change.Increment? && sum == Wrap(one.change.amount + two.change.amount)
    requires one.clock == two.clock == both.clock && both.change == Increment(sum)
    requires if cs == [] then was == 0 else |cs[0].value| == 8 && was == DecodeInt64(cs[0].value)
    ensures var x, z := NewCell(one, cs), NewCell(both, cs);
            x.Some? && z.Some? && x.value.ts == z.value.ts && NewCell(two, Put(cs, x.value)) == z
  {
    var all := was + one.change.amount + two.change.amount;
    var v, w := IncrementsWrite(one, two, cs, was, all);
    SumWrites(both, cs, was, one.change.amount + two.change.amount, all, w);
    NewCellOver(two, cs, Cell(Later(one, cs), v, []));
  }

  /** Two increments are one by the sum, modulo 2^64. */
  lemma IncrementsAdd(m: Modified, fam: Name, col: Name, a: int, b: int, clock: int)
    ensures ActAsOne(m, Rule(fam, col, Increment(a), clock), Rule(fam, col, Increment(b), clock),
                     Rule(fam, col, Increment(Wrap(a + b)), clock))
  {
    var one, two, both := Rule(fam, col, Increment(a), clock), Rule(fam, col, Increment(b), clock),
                          Rule(fam, col, Increment(Wrap(a + b)), clock);
    var cs := Get(m.seen, (fam, col));
    if cs == [] || |cs[0].value| == 8 {
      IncrementsOver(one, two, both, cs, if cs == [] then 0 else DecodeInt64(cs[0].value), Wrap(a + b));
    }
    SecondOverFirst(m, one, two, both);
  }

  lemma ApplyOne(c: Content, seen: Content, r: Rule)
    ensures ApplyRules(c, seen, [r]) == ApplyRule(Modified(c, seen, []), r)
  {
    assert [r][..0] == [];
    assert ApplyRules(c, seen, []) == Some(Modified(c, seen, []));
  }

  lemma ApplyTwo(c: Content, seen: Content, a: Rule, b: Rule)
    ensures var m := ApplyRule(Modified(c, seen, []), a);
            ApplyRules(c, seen, [a, b]) == if m.None? then None else ApplyRule(m.value, b)
  {
    assert [a, b][..1] == [a];
    ApplyOne(c, seen, a);
  }

  lemma RulesEdit(c: Content, q: Request, s: Schema)
    requires q.ReadModifyWriteRow? && ValidRules(q.rules, s)
    ensures var m := ApplyRules(c, CollectRow(c, s, q.seenAt), q.rules);
            EditOf(c, q, s) == if !ValidKey(q.key) || m.None? then None else Some(Edited(m.value.row, m.value.changes))
  {
  }

  lemma SameRows(st: State, q: Request, p: Request, s: Schema)
    requires !q.DropRowRange? && !p.DropRowRange? && p.key == q.key && p.gcNow == q.gcNow
    requires var c := RowAt(st.rows, q.key);
             var e, f := EditOf(c, q, s), EditOf(c, p, s);
             if e.None? then f.None? else f.Some? && e.value.after == f.value.after
    ensures Step(st, q, s).rows == Step(st, p, s).rows
  {
  }

  /** A request with two rules that act as one leaves the table that a request with the one leaves. */
  lemma TwoRulesLeave(st: State, key: Bytes, a: Rule, b: Rule, both: Rule, seenAt: int, gcNow: int, s: Schema)
    requires ValidRule(a, s) && ValidRule(b, s) && ValidRule(both, s)
    requires var c := RowAt(st.rows, key); ActAsOne(Modified(c, CollectRow(c, s, seenAt), []), a, b, both)
    ensures Step(st, ReadModifyWriteRow(key, [a, b], seenAt, gcNow), s).rows ==
            Step(st, ReadModifyWriteRow(key, [both], seenAt, gcNow), s).rows
  {
    var c := RowAt(st.rows, key);
    var two, one := ReadModifyWriteRow(key, [a, b], seenAt, gcNow), ReadModifyWriteRow(key, [both], seenAt, gcNow);
    ApplyOne(c, CollectRow(c, s, seenAt), both);
    ApplyTwo(c, CollectRow(c, s, seenAt), a, b);
    RulesEdit(c, two, s);
    RulesEdit(c, one, s);
    SameRows(st, two, one, s);
  }

  /** A rule sees its column as the collection at that time leaves it. */
  lemma RuleSeesCollected(c: Content, key: Bytes, r: Rule, seenAt: int, gcNow: int, s: Schema) returns (x: Cell)
    requires ValidKey(key) && ValidRule(r, s) && r.change.Append?
    ensures var e, k := EditOf(c, ReadModifyWriteRow(key, [r], seenAt, gcNow), s), (r.fam, r.col);
            var left := Gc.Collected(Get(c, k), s.families[r.fam].rule, seenAt);
            e.Some? && x in Get(e.value.after, k) && x.value == (if left == [] then [] else left[0].value) + r.change.b
  {
    var k := (r.fam, r.col);
    var seen := CollectRow(c, s, seenAt);
    CollectRowGets(c, s, seenAt, k);
    ApplyOne(c, seen, r);
    RuleLeaves(Modified(c, seen, []), r);
    x := Get(ApplyRule(Modified(c, seen, []), r).value.seen, k)[0];
  }

  // ---- dropping rows ----

  lemma {:induction false} DropRecordsAre(rows: Rows, keys: seq<Bytes>, s: Schema, i: nat)
    requires i < |keys|
    ensures |DropRecords(rows, keys, s)| == |keys| && DropRecords(rows, keys, s)[i] == DropRecord(rows, keys[i], s)
    decreases |keys|
  {
    var init := keys[..|keys| - 1];
    if init != [] { DropRecordsAre(rows, init, s, if i < |init| then i else 0); }
  }

  /** Exactly the keys that are not selected remain, with their rows. */
  lemma DropLeaves(st: State, drops: Bytes -> bool, s: Schema, key: Bytes)
    ensures var st' := Step(st, DropRowRange(drops), s);
            && (key in st'.rows <==> key in st.rows && !drops(key))
            && (key in st'.rows ==> st'.rows[key] == st.rows[key])
  {
  }

  /** Each of the others, in key order, gets one record that deletes the families its row had. */
  ghost predicate Logs(rows: Rows, gone: seq<Bytes>, recs: seq<Record>) {
    |recs| == |gone| && forall i :: 0 <= i < |gone| ==> LogsAt(rows, gone, recs, i)
  }

  ghost predicate LogsAt(rows: Rows, gone: seq<Bytes>, recs: seq<Record>, i: nat)
    requires i < |gone| == |recs|
  {
    recs[i].key == gone[i] && Deletes(recs[i].changes, FamiliesIn(RowAt(rows, gone[i])))
  }

  lemma DropLogs(st: State, drops: Bytes -> bool, s: Schema) returns (gone: seq<Bytes>, recs: seq<Record>)
    ensures Step(st, DropRowRange(drops), s).log == st.log + recs && Logs(st.rows, gone, recs)
    ensures forall i, j :: 0 <= i < j < |gone| ==> FirstDiffers(gone[i], gone[j])
    ensures forall key :: key in gone <==> key in st.rows && drops(key)
  {
    gone := Arrange(Dropped(st.rows, drops), ByName);
    recs := DropRecords(st.rows, gone, s);
    if gone != [] { DropRecordsAre(st.rows, gone, s, 0); }
    forall i | 0 <= i < |gone| ensures LogsAt(st.rows, gone, recs, i) {
      DropRecordsAre(st.rows, gone, s, i);
      DropsDelete(FamiliesIn(RowAt(st.rows, gone[i])), s);
    }
    forall i, j | 0 <= i < j < |gone| ensures FirstDiffers(gone[i], gone[j]) { BeforeMeans(ByName, gone[i], gone[j]); }
    forall key ensures key in gone <==> key in st.rows && drops(key) { assert key in Elements(gone) <==> key in gone; }
  }

  /** One deletion for each of the families, and nothing else. */
  ghost predicate Deletes(changes: seq<Mutation>, fams: set<Name>) {
    && (forall i :: 0 <= i < |changes| ==> changes[i].DeleteFromFamily? && changes[i].fam in fams)
    && (forall fam :: fam in fams ==> DeleteFromFamily(fam) in changes)
  }

  lemma DropsDelete(fams: set<Name>, s: Schema)
    ensures Deletes(Drops(Arrange(fams, OrderOf(s))), fams)
  {
    var ns := Arrange(fams, OrderOf(s));
    forall i | 0 <= i < |ns| ensures ns[i] in fams { assert ns[i] in Elements(ns); }
    forall fam | fam in fams ensures DeleteFromFamily(fam) in Drops(ns) {
      assert fam in Elements(ns);
      var i :| 0 <= i < |ns| && ns[i] == fam;
      assert Drops(ns)[i] == DeleteFromFamily(fam);
    }
  }
}
