/** The filter evaluator as it edits copies of a row. */
module FilterEngine {
  import opened Basics
  import opened Lex
  import opened Names
  import opened Columns
  import opened Mutations
  import opened Replay
  import opened Rows
  import opened Filters
  import FM = FilterMeaning

  /** `fs` is the row `c`, in which a time may occur more than once. */
  ghost predicate Holds(fs: Families, c: Content, s: Schema) { NoEmptyColumn(c) && FM.Tidy(c) && fs == Rep(c, s) }

  function WithCells(fs: Families, s: Schema, k: Column, cs: seq<Cell>): Families {
    var f := if k.0 in fs then fs[k.0] else Family(OrderOf(s)(k.0), [], map[]);
    fs[k.0 := f.(cells := f.cells[k.1 := cs])]
  }

  ghost predicate Ranked(fs: Families, s: Schema) { forall fam :: fam in fs ==> fs[fam].order == OrderOf(s)(fam) }

  lemma WithCellsHolds(fs: Families, s: Schema, k: Column, cs: seq<Cell>, j: Column)
    ensures Held(WithCells(fs, s, k, cs), j) == if j == k then cs else Held(fs, j)
    ensures Ranked(fs, s) ==> Ranked(WithCells(fs, s, k, cs), s)
  {
    assert j == (j.0, j.1) && k == (k.0, k.1);
  }

  lemma RepIsRanked(c: Content, s: Schema)
    ensures Ranked(Rep(c, s), s) && forall k: Column :: Held(Rep(c, s), k) == Get(c, k)
  {
    forall k: Column ensures Held(Rep(c, s), k) == Get(c, k) { RepHolds(c, s, k); }
    forall fam | fam in Rep(c, s) ensures Rep(c, s)[fam].order == OrderOf(s)(fam) {
      assert Rep(c, s)[fam] == FamilyOf(c, fam, s);
    }
  }

  /** The columns of a row: families in creation order, columns by name. */
  method ColumnList(fs: Families, s: Schema, ghost c: Content) returns (ks: seq<Column>)
    requires fs == Rep(c, s)
    ensures ks == ColumnOrder(c, s)
  {
    var names := SortNames(fs.Keys, OrderOf(s));
    assert fs.Keys == FamiliesIn(c);
    ks := [];
    for i := 0 to |names|
      invariant ks == ColumnsOf(c, names[..i])
    {
      assert names[..i + 1][..i] == names[..i];
      assert names[i] in Elements(names);
      assert fs[names[i]] == FamilyOf(c, names[i], s);
      ks := ks + Pairs(names[i], fs[names[i]].colNames);
    }
    assert names[..|names|] == names;
  }

  // ---- merging ----

  ghost predicate MergedAt(r: Families, a: Content, b: Content, done: seq<Column>, k: Column) {
    Held(r, k) == Get(a, k) + if k in done then Get(b, k) else []
  }

  /** `r` is `a` with the columns `done` of `b` appended. */
  ghost predicate Merging(r: Families, a: Content, b: Content, s: Schema, done: seq<Column>) {
    Ranked(r, s) && forall k: Column :: MergedAt(r, a, b, done, k)
  }

  lemma MergeStart(a: Content, b: Content, s: Schema)
    ensures Merging(Rep(a, s), a, b, s, [])
  {
    RepIsRanked(a, s);
  }

  lemma MergeStep(r: Families, a: Content, b: Content, s: Schema, done: seq<Column>, k: Column)
    requires Merging(r, a, b, s, done) && k !in done
    ensures Merging(WithCells(r, s, k, Held(r, k) + Get(b, k)), a, b, s, done + [k])
  {
    var cs := Held(r, k) + Get(b, k);
    WithCellsHolds(r, s, k, cs, k);
    assert MergedAt(r, a, b, done, k);
    forall j: Column ensures MergedAt(WithCells(r, s, k, cs), a, b, done + [k], j) {
      assert MergedAt(r, a, b, done, j);
      WithCellsHolds(r, s, k, cs, j);
    }
  }

  lemma NextColumn(c: Content, s: Schema, i: nat)
    requires i < |ColumnOrder(c, s)|
    ensures var ks := ColumnOrder(c, s);
            ks[..i + 1] == ks[..i] + [ks[i]] && ks[i] !in ks[..i] && Held(Rep(c, s), ks[i]) == Get(c, ks[i])
  {
    FM.ColumnOrderIsInOrder(c, s);
    RepHolds(c, s, ColumnOrder(c, s)[i]);
  }

  /** Appends every cell of `src` to `dst`, keeping duplicates, and normalizes. */
  method MergeCells(dst: Families, src: Families, s: Schema, ghost a: Content, ghost b: Content) returns (r: Families)
    requires Holds(dst, a, s) && Holds(src, b, s)
    ensures Holds(r, Merged(a, b), s)
  {
    var ks := ColumnList(src, s, b);
    r := dst;
    MergeStart(a, b, s);
    for i := 0 to |ks|
      invariant Merging(r, a, b, s, ks[..i])
    {
      NextColumn(b, s, i);
      MergeStep(r, a, b, s, ks[..i], ks[i]);
      r := WithCells(r, s, ks[i], Held(r, ks[i]) + Held(src, ks[i]));
    }
    assert ks[..|ks|] == ks;
    MergedIsNormal(r, a, b, s);
    r := Normalize(r);
  }

  ghost function Appended(a: Content, b: Content): Content {
    map k | k in a.Keys + b.Keys && Get(a, k) + Get(b, k) != [] :: Get(a, k) + Get(b, k)
  }

  lemma AppendedGets(a: Content, b: Content, k: Column)
    ensures Get(Appended(a, b), k) == Get(a, k) + Get(b, k)
  {
  }

  lemma AppendedSorts(a: Content, b: Content)
    ensures SortedColumns(Appended(a, b)) == Merged(a, b)
  {
    var x, y := SortedColumns(Appended(a, b)), Merged(a, b);
    assert x.Keys == Appended(a, b).Keys == y.Keys;
    forall k | k in x.Keys ensures x[k] == y[k] { }
  }

  lemma MergedIsTidy(a: Content, b: Content)
    ensures NoEmptyColumn(Merged(a, b)) && FM.Tidy(Merged(a, b))
  {
    forall k | k in Merged(a, b) ensures WeaklyDescending(Merged(a, b)[k]) && Merged(a, b)[k] != [] {
      var cs := Get(a, k) + Get(b, k);
      StableDescends(cs);
      assert |multiset(StableDesc(cs))| == |multiset(cs)|;
    }
  }

  lemma MergedIsNormal(r: Families, a: Content, b: Content, s: Schema)
    requires Merging(r, a, b, s, ColumnOrder(b, s))
    ensures Normal(r) == Rep(Merged(a, b), s) && NoEmptyColumn(Merged(a, b)) && FM.Tidy(Merged(a, b))
  {
    var d := Appended(a, b);
    ColumnOrderIsAll(b, s);
    forall k: Column ensures Held(r, k) == Get(d, k) {
      assert MergedAt(r, a, b, ColumnOrder(b, s), k);
      AppendedGets(a, b, k);
    }
    NormalSorts(r, d, s);
    AppendedSorts(a, b);
    MergedIsTidy(a, b);
  }

  // ---- editing every column ----

  ghost predicate EditedAt(r: Families, c: Content, g: (Column, seq<Cell>) -> seq<Cell>, done: seq<Column>, k: Column) {
    Held(r, k) == if k in done then g(k, Get(c, k)) else Get(c, k)
  }

  /** `r` is `c` with the columns `done` edited by `g`. */
  ghost predicate Editing(r: Families, c: Content, g: (Column, seq<Cell>) -> seq<Cell>, s: Schema, done: seq<Column>) {
    Ranked(r, s) && forall k: Column :: EditedAt(r, c, g, done, k)
  }

  lemma EditStart(c: Content, g: (Column, seq<Cell>) -> seq<Cell>, s: Schema)
    ensures Editing(Rep(c, s), c, g, s, [])
  {
    RepIsRanked(c, s);
  }

  lemma EditStep(r: Families, c: Content, g: (Column, seq<Cell>) -> seq<Cell>, s: Schema, done: seq<Column>, k: Column)
    requires Editing(r, c, g, s, done)
    ensures Editing(WithCells(r, s, k, g(k, Get(c, k))), c, g, s, done + [k])
  {
    var cs := g(k, Get(c, k));
    WithCellsHolds(r, s, k, cs, k);
    forall j: Column ensures EditedAt(WithCells(r, s, k, cs), c, g, done + [k], j) {
      assert EditedAt(r, c, g, done, j);
      WithCellsHolds(r, s, k, cs, j);
    }
  }

  /** Replaces the cells of every column and normalizes: per-column limits and per-cell filters. */
  method EditColumns(fs: Families, s: Schema, g: (Column, seq<Cell>) -> seq<Cell>, ghost c: Content) returns (r: Families)
    requires Holds(fs, c, s) && (forall k :: g(k, []) == []) && FM.Tidy(OnColumns(c, g))
    ensures Holds(r, OnColumns(c, g), s)
  {
    var ks := ColumnList(fs, s, c);
    r := fs;
    EditStart(c, g, s);
    for i := 0 to |ks|
      invariant Editing(r, c, g, s, ks[..i])
    {
      NextColumn(c, s, i);
      EditStep(r, c, g, s, ks[..i], ks[i]);
      r := WithCells(r, s, ks[i], g(ks[i], Held(fs, ks[i])));
    }
    assert ks[..|ks|] == ks;
    EditedIsNormal(r, c, g, s);
    r := Normalize(r);
  }

  lemma EditedIsNormal(r: Families, c: Content, g: (Column, seq<Cell>) -> seq<Cell>, s: Schema)
    requires Editing(r, c, g, s, ColumnOrder(c, s)) && (forall k :: g(k, []) == []) && FM.Tidy(OnColumns(c, g))
    ensures Normal(r) == Rep(OnColumns(c, g), s)
  {
    var d := OnColumns(c, g);
    ColumnOrderIsAll(c, s);
    forall k: Column ensures Held(r, k) == Get(d, k) { assert EditedAt(r, c, g, ColumnOrder(c, s), k); }
    NormalIsRep(r, d, s);
  }

  // ---- limits over the whole row ----

  lemma LooseStore(r: Families, c: Content, s: Schema, k: Column, cs: seq<Cell>)
    requires Loosely(r, c, s)
    ensures Loosely(WithCells(r, s, k, cs), Store(c, k, cs), s)
  {
    forall j: Column ensures Held(WithCells(r, s, k, cs), j) == Get(Store(c, k, cs), j) { WithCellsHolds(r, s, k, cs, j); }
    WithCellsHolds(r, s, k, cs, k);
  }

  lemma LooseRep(c: Content, s: Schema)
    requires NoEmptyColumn(c)
    ensures Loosely(Rep(c, s), c, s)
  {
    RepIsRanked(c, s);
  }

  lemma LimitStep(d: Content, ks: seq<Column>, i: nat, n: nat)
    requires i < |ks|
    ensures var cs := TakeCells(Get(d, ks[i]), n); Limited(d, ks[i..], n) == Limited(Store(d, ks[i], cs), ks[i + 1..], n - |cs|)
  {
    assert ks[i..][1..] == ks[i + 1..];
  }

  method TakeLoose(r: Families, s: Schema, k: Column, n: nat, ghost d: Content) returns (cs: seq<Cell>)
    requires Loosely(r, d, s)
    ensures cs == TakeCells(Get(d, k), n) && |cs| <= n && Loosely(WithCells(r, s, k, cs), Store(d, k, cs), s)
  {
    assert Held(r, k) == Get(d, k);
    cs := TakeCells(Held(r, k), n);
    LooseStore(r, d, s, k, cs);
  }

  method LimitColumnsInTurn(fs: Families, s: Schema, ks: seq<Column>, n: nat, ghost c: Content) returns (r: Families)
    requires Loosely(fs, c, s)
    ensures Loosely(r, Limited(c, ks, n), s)
  {
    var remaining: nat := n;
    ghost var d, goal := c, Limited(c, ks, n);
    r := fs;
    assert ks[0..] == ks;
    for i := 0 to |ks|
      invariant Loosely(r, d, s) && Limited(d, ks[i..], remaining) == goal
    {
      LimitStep(d, ks, i, remaining);
      var cs := TakeLoose(r, s, ks[i], remaining, d);
      r := WithCells(r, s, ks[i], cs);
      d := Store(d, ks[i], cs);
      remaining := remaining - |cs|;
    }
  }

  method LimitRow(fs: Families, s: Schema, n: nat, ghost c: Content) returns (r: Families)
    requires Holds(fs, c, s)
    ensures Holds(r, Limited(c, ColumnOrder(c, s), n), s)
  {
    var ks := ColumnList(fs, s, c);
    LooseRep(c, s);
    r := LimitColumnsInTurn(fs, s, ks, n, c);
    FM.OwnRow(c, s);
    FM.LimitedIsIn(c, ks, ks, n);
    NormalIsRep(r, Limited(c, ks, n), s);
    r := Normalize(r);
  }

  method SkipRow(fs: Families, s: Schema, n: nat, ghost c: Content) returns (r: Families)
    requires Holds(fs, c, s)
    ensures Holds(r, Skipped(c, ColumnOrder(c, s), n), s)
  {
    var ks := ColumnList(fs, s, c);
    var skip: nat := n;
    ghost var d := c;
    r := fs;
    LooseRep(c, s);
    for i := 0 to |ks|
      invariant Loosely(r, d, s) && Skipped(d, ks[i..], skip) == Skipped(c, ks, n)
    {
      assert ks[i..][1..] == ks[i + 1..];
      assert Held(r, ks[i]) == Get(d, ks[i]);
      var cs := Held(r, ks[i]);
      LooseStore(r, d, s, ks[i], DropCells(cs, skip));
      r := WithCells(r, s, ks[i], DropCells(cs, skip));
      d := Store(d, ks[i], DropCells(cs, skip));
      skip := if skip >= |cs| then skip - |cs| else 0;
    }
    FM.OwnRow(c, s);
    FM.SkippedIsIn(c, ks, ks, n);
    NormalIsRep(r, d, s);
    r := Normalize(r);
  }

  // ---- evaluating ----

  lemma EmptyHolds(s: Schema)
    ensures Holds(map[], map[], s)
  {
    var c: Content := map[];
    assert FamiliesIn(c) == {};
  }

  lemma RepIsEmpty(c: Content, s: Schema)
    ensures Rep(c, s) == map[] <==> c == map[]
  {
    if c == map[] {
      EmptyHolds(s);
    } else {
      var k :| k in c;
      RepHolds(c, s, k);
    }
  }

  method EvalFilter(f: Filter, fs: Families, sink: Families, key: Bytes, s: Schema, ghost c: Content, ghost d: Content)
    returns (out: Families, sink': Families)
    requires Holds(fs, c, s) && Holds(sink, d, s)
    ensures Holds(out, Eval(f, c, d, key, s).out, s) && Holds(sink', Eval(f, c, d, key, s).sink, s)
    decreases f, 0
  {
    EmptyHolds(s);
    out, sink' := map[], sink;
    match f {
      case Sink => sink' := MergeCells(sink, fs, s, d, c);
      case Chain(subs) => out, sink' := EvalAll(subs, fs, sink, key, s, c, d);
      case Interleave(subs) => out, sink' := EvalEach(subs, fs, sink, key, s, c, d);
      case Condition(test, yes, no) =>
        var hit, _ := EvalFilter(test, fs, map[], key, s, c, map[]);
        RepIsEmpty(Eval(test, c, map[], key, s).out, s);
        var next := if hit != map[] then yes else no;
        if next.Some? {
          out, sink' := EvalFilter(next.value, fs, sink, key, s, c, d);
        }
      case _ => out := EvalLeaf(f, fs, key, s, c, d);
    }
  }

  /** The filters that have no parts and do not sink. */
  method EvalLeaf(f: Filter, fs: Families, key: Bytes, s: Schema, ghost c: Content, ghost d: Content) returns (out: Families)
    requires Holds(fs, c, s) && !f.Sink? && !f.Chain? && !f.Interleave? && !f.Condition?
    ensures Holds(out, Eval(f, c, d, key, s).out, s) && Eval(f, c, d, key, s).sink == d
  {
    EmptyHolds(s);
    match f
    case PassAll => out := fs;
    case BlockAll => out := map[];
    case RowKeyMatches(p) => out := if p(key) then fs else map[];
    case CellsPerColumnLimit(n) => out := LimitColumns(fs, s, n, c);
    case CellsPerRowLimit(n) => out := LimitRow(fs, s, n, c);
    case CellsPerRowOffset(n) => out := SkipRow(fs, s, n, c);
    case PerCell(cf) => out := FilterCells(fs, s, cf, c);
  }

  method LimitColumns(fs: Families, s: Schema, n: nat, ghost c: Content) returns (r: Families)
    requires Holds(fs, c, s)
    ensures Holds(r, OnColumns(c, (k, cs) => TakeCells(cs, n)), s)
  {
    r := EditColumns(fs, s, (k, cs) => TakeCells(cs, n), c);
  }

  method FilterCells(fs: Families, s: Schema, cf: CellFilter, ghost c: Content) returns (r: Families)
    requires Holds(fs, c, s)
    ensures Holds(r, OnColumns(c, (k, cs) => Passed(cf, k, cs)), s)
  {
    PassedIsTidy(cf, c);
    r := EditColumns(fs, s, (k, cs) => Passed(cf, k, cs), c);
  }

  lemma PassedIsTidy(cf: CellFilter, c: Content)
    requires FM.Tidy(c)
    ensures FM.Tidy(OnColumns(c, (k, cs) => Passed(cf, k, cs)))
  {
    forall k | k in c ensures WeaklyDescending(Passed(cf, k, c[k])) { FM.PassedDescends(cf, k, c[k]); }
  }

  /** A chain feeds each filter with what the one before it passed. */
  method EvalAll(subs: seq<Filter>, fs: Families, sink: Families, key: Bytes, s: Schema, ghost c: Content, ghost d: Content)
    returns (out: Families, sink': Families)
    requires Holds(fs, c, s) && Holds(sink, d, s)
    ensures Holds(out, EvalChain(subs, c, d, key, s).out, s) && Holds(sink', EvalChain(subs, c, d, key, s).sink, s)
    decreases subs, 0
  {
    out, sink' := fs, sink;
    ghost var r := Result(c, d);
    for i := 0 to |subs|
      invariant Holds(out, r.out, s) && Holds(sink', r.sink, s)
      invariant EvalChain(subs[i..], r.out, r.sink, key, s) == EvalChain(subs, c, d, key, s)
    {
      assert subs[i..][0] == subs[i] && subs[i..][1..] == subs[i + 1..];
      out, sink' := EvalFilter(subs[i], out, sink', key, s, r.out, r.sink);
      r := Eval(subs[i], r.out, r.sink, key, s);
    }
  }

  /** Interleaved branches all read the same row; each is merged into the result. */
  method EvalEach(subs: seq<Filter>, fs: Families, sink: Families, key: Bytes, s: Schema, ghost c: Content, ghost d: Content)
    returns (out: Families, sink': Families)
    requires Holds(fs, c, s) && Holds(sink, d, s)
    ensures Holds(out, EvalBranches(subs, c, map[], d, key, s).out, s)
    ensures Holds(sink', EvalBranches(subs, c, map[], d, key, s).sink, s)
    decreases subs, 0
  {
    EmptyHolds(s);
    out, sink' := map[], sink;
    ghost var r := Result(map[], d);
    for i := 0 to |subs|
      invariant Holds(out, r.out, s) && Holds(sink', r.sink, s)
      invariant EvalBranches(subs[i..], c, r.out, r.sink, key, s) == EvalBranches(subs, c, map[], d, key, s)
    {
      assert subs[i..][0] == subs[i] && subs[i..][1..] == subs[i + 1..];
      var branch;
      ghost var e := Eval(subs[i], c, r.sink, key, s);
      branch, sink' := EvalFilter(subs[i], fs, sink', key, s, c, r.sink);
      out := MergeCells(out, branch, s, r.out, e.out);
      r := Result(Merged(r.out, e.out), e.sink);
    }
  }

  // ---- validating and filtering a row ----

  predicate LabelChar(b: byte) { 97 <= b <= 122 || 48 <= b <= 57 || b == 45 }

  predicate Labels(f: Filter)
    decreases f
  {
    match f
    case PerCell(cf) => cf.ApplyLabel?
    case Chain(subs) => exists i :: 0 <= i < |subs| && Labels(subs[i])
    case Interleave(subs) => exists i :: 0 <= i < |subs| && Labels(subs[i])
    case Condition(_, yes, no) => (yes.Some? && Labels(yes.value)) || (no.Some? && Labels(no.value))
    case _ => false
  }

  /** What is checked before any row is read. */
  predicate Acceptable(f: Filter, depth: nat, inCondition: bool)
    decreases f
  {
    depth <= 20 &&
    match f
    case Chain(subs) =>
      && |subs| >= 2 && (forall i :: 0 <= i < |subs| ==> Acceptable(subs[i], depth + 1, inCondition))
      && (forall i, j :: 0 <= i < j < |subs| ==> !(Labels(subs[i]) && Labels(subs[j])))
    case Interleave(subs) =>
      |subs| >= 2 && forall i :: 0 <= i < |subs| ==> Acceptable(subs[i], depth + 1, inCondition)
    case Condition(test, yes, no) =>
      && Acceptable(test, depth + 1, true)
      && (yes.Some? ==> Acceptable(yes.value, depth + 1, true))
      && (no.Some? ==> Acceptable(no.value, depth + 1, true))
    case Sink => !inCondition
    case PerCell(cf) =>
      match cf {
        case TimestampRange(start, end) => start >= 0 && end >= 0 && start % 1000 == 0 && end % 1000 == 0
        case ColumnRange(fam, _, _) => fam != []
        case ValueBitmask(mask) => mask != []
        case ApplyLabel(l) => 1 <= |l| <= 15 && forall i :: 0 <= i < |l| ==> LabelChar(l[i])
        case _ => true
      }
    case _ => true
  }

  /** The row filtered, and whether a cell is left; None for a filter that is not acceptable. */
  method FilterRow(f: Option<Filter>, fs: Families, key: Bytes, s: Schema, ghost c: Content) returns (r: Option<(Families, bool)>)
    requires Holds(fs, c, s)
    ensures r.None? <==> f.Some? && !Acceptable(f.value, 0, false)
    ensures r.Some? ==> var d := if f.None? then c else FM.Filtered(f.value, c, key, s);
                        Holds(r.value.0, d, s) && (r.value.1 <==> d != map[])
  {
    RepIsEmpty(c, s);
    if f.None? {
      return Some((fs, fs != map[]));
    }
    if !Acceptable(f.value, 0, false) {
      return None;
    }
    EmptyHolds(s);
    var out, sink := EvalFilter(f.value, fs, map[], key, s, c, map[]);
    ghost var e := Eval(f.value, c, map[], key, s);
    out := MergeCells(out, sink, s, e.out, e.sink);
    RepIsEmpty(Merged(e.out, e.sink), s);
    r := Some((out, out != map[]));
  }
}
