/** The mutable row that mutations and garbage collection edit in place. */
module RowEngine {
  import opened Basics
  import opened Lex
  import opened Names
  import opened Columns
  import opened Gc
  import opened Mutations
  import opened Replay
  import opened Rows

  lemma FamilyHolds(c: Content, k: Column, s: Schema)
    requires GoodRow(c, s)
    ensures var f := FamilyOf(c, k.0, s);
            && (k.0 in Rep(c, s) <==> f.cells != map[]) && (k.0 in Rep(c, s) ==> Rep(c, s)[k.0] == f)
            && Get(c, k) == (if k.1 in f.cells then f.cells[k.1] else [])
            && f.colNames == Arrange(f.cells.Keys, ByName) && Elements(f.colNames) == f.cells.Keys
            && Descending(Get(c, k))
  {
    InFamilies(c, k.0);
    InColumns(c, k.0, k.1);
    assert (k.0, k.1) == k;
    assert CellsIn(c, k.0).Keys == ColumnsIn(c, k.0);
  }

  /** The row and its representation with one more cell. */
  lemma WithCell(c: Content, k: Column, x: Cell, s: Schema)
    requires GoodRow(c, s) && k.0 in s.families && ValidTs(s, x.ts)
    ensures var f, cs := FamilyOf(c, k.0, s), Put(Get(c, k), x);
            && cs != [] && GoodRow(Store(c, k, cs), s)
            && Rep(Store(c, k, cs), s) ==
                 Rep(c, s)[k.0 := Family(f.order, Arrange(f.cells.Keys + {k.1}, ByName), f.cells[k.1 := cs])]
  {
    var cs := Put(Get(c, k), x);
    ColumnIsGood(c, k, s);
    PutIsGood(Get(c, k), x, s);
    StoreIsGood(c, k, cs, s);
    RepOfStore(c, k, cs, s);
  }

  function Left(cs: seq<Cell>, range: Option<(int, int)>): seq<Cell> {
    if range.None? then [] else Erase(cs, range.value.0, range.value.1)
  }

  lemma LeftIsGood(c: Content, k: Column, range: Option<(int, int)>, s: Schema)
    requires GoodRow(c, s) && k.0 in s.families
    ensures GoodRow(Store(c, k, Left(Get(c, k), range)), s)
    ensures Left(Get(c, k), range) != [] ==> k in c
  {
    ColumnIsGood(c, k, s);
    if range.Some? && Get(c, k) != [] { EraseIsGood(Get(c, k), range.value.0, range.value.1, s); }
    StoreIsGood(c, k, Left(Get(c, k), range), s);
  }

  lemma WithColumn(c: Content, k: Column, cs: seq<Cell>, s: Schema)
    requires GoodRow(c, s) && k in c && cs != []
    ensures var f := FamilyOf(c, k.0, s); Rep(Store(c, k, cs), s) == Rep(c, s)[k.0 := f.(cells := f.cells[k.1 := cs])]
  {
    RepOfStore(c, k, cs, s);
    FamilyHolds(c, k, s);
    var f := FamilyOf(c, k.0, s);
    assert f.cells.Keys + {k.1} == f.cells.Keys;
    assert f.(cells := f.cells[k.1 := cs]) == Family(f.order, f.colNames, f.cells[k.1 := cs]);
  }

  /** A family without one of its columns, or no family when that was the last. */
  function Trimmed(fs: Families, fam: Name, col: Name, names: seq<Name>): Families
    requires fam in fs
  {
    var f := fs[fam];
    var cells := f.cells - {col};
    if cells.Keys == {} then fs - {fam} else fs[fam := Family(f.order, names, cells)]
  }

  lemma WithoutColumn(c: Content, k: Column, s: Schema)
    requires GoodRow(c, s) && k.0 in Rep(c, s)
    ensures var f := Rep(c, s)[k.0];
            Rep(Store(c, k, []), s) == Trimmed(Rep(c, s), k.0, k.1, Arrange(Elements(f.colNames) - {k.1}, ByName))
  {
    RepOfStore(c, k, [], s);
    FamilyHolds(c, k, s);
    var f := FamilyOf(c, k.0, s);
    assert (f.cells - {k.1}).Keys == f.cells.Keys - {k.1};
  }

  /** The first i mutations gave the content d and the changes. */
  ghost predicate Applied(c: Content, ms: seq<Mutation>, i: nat, s: Schema, now: int, d: Content, changes: seq<Mutation>)
    requires i <= |ms|
  {
    ApplyAll(c, ms[..i], s, now) == Some(d) && changes == AllChanges(c, ms[..i], s, now)
  }

  lemma ApplyOneMore(c: Content, ms: seq<Mutation>, m: Mutation, s: Schema, now: int)
    requires ApplyAll(c, ms, s, now).Some?
    ensures var d := ApplyAll(c, ms, s, now).value;
            && ApplyAll(c, ms + [m], s, now) == Apply(d, m, s, now)
            && (Apply(d, m, s, now).Some? ==> AllChanges(c, ms + [m], s, now) == AllChanges(c, ms, s, now) + Changes(d, m, s, now))
  {
    assert (ms + [m])[..|ms|] == ms;
  }

  lemma FailureStays(c: Content, ms: seq<Mutation>, i: nat, s: Schema, now: int)
    requires i <= |ms| && ApplyAll(c, ms[..i], s, now).None?
    ensures ApplyAll(c, ms, s, now).None?
  {
    ApplyAllConcat(c, ms[..i], ms[i..], s, now);
    assert ms[..i] + ms[i..] == ms;
  }

  lemma AppliedStep(c: Content, ms: seq<Mutation>, i: nat, s: Schema, now: int, d: Content, changes: seq<Mutation>)
    requires i < |ms| && Applied(c, ms, i, s, now, d, changes)
    ensures var e := Apply(d, ms[i], s, now);
            if e.None? then ApplyAll(c, ms, s, now).None?
            else Applied(c, ms, i + 1, s, now, e.value, changes + Changes(d, ms[i], s, now))
  {
    ApplyOneMore(c, ms[..i], ms[i], s, now);
    assert ms[..i] + [ms[i]] == ms[..i + 1];
    if Apply(d, ms[i], s, now).None? { FailureStays(c, ms, i + 1, s, now); }
  }

  class Row {
    const schema: Schema
    var families: Families
    ghost var content: Content

    ghost predicate Valid()
      reads this
    {
      GoodRow(content, schema) && families == Rep(content, schema)
    }

    constructor (s: Schema)
      ensures Valid() && schema == s && content == map[]
    {
      schema := s;
      families, content := map[], map[];
      new;
      assert FamiliesIn(content) == {};
    }

    /** A private copy of a stored row. */
    constructor Copy(s: Schema, fs: Families, ghost c: Content)
      requires GoodRow(c, s) && fs == Rep(c, s)
      ensures Valid() && schema == s && content == c
    {
      schema := s;
      families, content := fs, c;
    }

    method GetOrCreateFamily(fam: Name) returns (f: Family)
      requires Valid() && fam in schema.families
      ensures f == FamilyOf(content, fam, schema)
    {
      InFamilies(content, fam);
      if fam in families {
        f := families[fam];
      } else {
        f := Family(schema.families[fam].order, [], map[]);
        assert CellsIn(content, fam) == map[];
        ArrangeNothing(ByName);
      }
    }

    method CellsOf(fam: Name, col: Name) returns (cs: seq<Cell>)
      requires Valid()
      ensures cs == Get(content, (fam, col))
    {
      FamilyHolds(content, (fam, col), schema);
      cs := if fam in families && col in families[fam].cells then families[fam].cells[col] else [];
    }

    method SetCell(fam: Name, col: Name, x: Cell)
      requires Valid() && fam in schema.families && ValidTs(schema, x.ts)
      modifies this
      ensures Valid() && content == Store(old(content), (fam, col), Put(Get(old(content), (fam, col)), x))
    {
      ghost var k := (fam, col);
      FamilyHolds(content, k, schema);
      WithCell(content, k, x, schema);
      var f := GetOrCreateFamily(fam);
      var cs;
      f, cs := CellsByColumn(f, col);
      cs := AppendOrReplaceCell(cs, x);
      families := families[fam := f.(cells := f.cells[col := cs])];
      content := Store(content, k, cs);
    }

    method DeleteFromColumn(fam: Name, col: Name, range: Option<(int, int)>)
      requires Valid() && fam in schema.families
      modifies this
      ensures Valid()
      ensures Some(content) == Apply(old(content), Mutation.DeleteFromColumn(fam, col, range), schema, 0)
    {
      ghost var k := (fam, col);
      FamilyHolds(content, k, schema);
      LeftIsGood(content, k, range, schema);
      if fam !in families {
        assert Store(content, k, []) == content;
        return;
      }
      var f := families[fam];
      var cs := [];
      if range.Some? && col in f.cells {
        cs := EraseRange(f.cells[col], range.value.0, range.value.1);
      }
      assert cs == Left(Get(content, k), range);
      if cs != [] {
        ReplaceColumn(fam, col, cs);
      } else {
        RemoveColumn(fam, col);
      }
    }

    method ReplaceColumn(fam: Name, col: Name, cs: seq<Cell>)
      requires Valid() && (fam, col) in content && cs != [] && GoodRow(Store(content, (fam, col), cs), schema)
      modifies this
      ensures Valid() && content == Store(old(content), (fam, col), cs)
    {
      FamilyHolds(content, (fam, col), schema);
      WithColumn(content, (fam, col), cs, schema);
      var f := families[fam];
      families := families[fam := f.(cells := f.cells[col := cs])];
      content := Store(content, (fam, col), cs);
    }

    method RemoveColumn(fam: Name, col: Name)
      requires Valid() && fam in families && GoodRow(Store(content, (fam, col), []), schema)
      modifies this
      ensures Valid() && content == Store(old(content), (fam, col), [])
    {
      WithoutColumn(content, (fam, col), schema);
      var names := RemoveName(families[fam].colNames, col, ByName);
      families := Trimmed(families, fam, col, names);
      content := Store(content, (fam, col), []);
    }

    method DeleteFamily(fam: Name)
      requires Valid()
      modifies this
      ensures Valid() && content == DropFamily(old(content), fam)
    {
      families := families - {fam};
      RepOfDrop(content, fam, schema);
      content := DropFamily(content, fam);
    }

    method SortedFamilies() returns (names: seq<Name>)
      requires Valid()
      ensures names == Arrange(FamiliesIn(content), OrderOf(schema))
    {
      names := SortNames(families.Keys, OrderOf(schema));
      assert families.Keys == FamiliesIn(content);
    }

    /** Adds to, or merges into, the aggregate cell at a timestamp. */
    method ApplyAggregate(fam: Name, col: Name, ts: int, input: Input, merge: bool) returns (ok: bool)
      requires Valid() && fam in schema.families && ValidTs(schema, ts)
      modifies this
      ensures Valid()
      ensures var r := AggregateColumn(schema, schema.families[fam].kind, Get(old(content), (fam, col)), ts, input, merge);
              ok == r.Some? && content == if ok then Store(old(content), (fam, col), r.value) else old(content)
    {
      FamilyHolds(content, (fam, col), schema);
      var f := GetOrCreateFamily(fam);
      var cs := if col in f.cells then f.cells[col] else [];
      var idx := FindTs(cs, ts);
      var prior := if idx < |cs| then Some(cs[idx].value) else None;
      var v := Aggregated(schema, schema.families[fam].kind, prior, input, merge);
      if v.None? {
        return false;
      }
      SetCell(fam, col, if idx < |cs| then cs[idx].(value := v.value) else Cell(ts, v.value, []));
      ok := true;
    }

    /** Applies validated mutations in order and returns the changes to record. */
    method ApplyMutations(ms: seq<Mutation>, now: int) returns (ok: bool, changes: seq<Mutation>)
      requires Valid() && ValidTs(schema, now) && forall i :: 0 <= i < |ms| ==> ValidMutation(ms[i], schema)
      modifies this
      ensures Valid() && ok == ApplyAll(old(content), ms, schema, now).Some?
      ensures ok ==> Some(content) == ApplyAll(old(content), ms, schema, now)
      ensures ok ==> changes == AllChanges(old(content), ms, schema, now)
    {
      ghost var c := content;
      changes := [];
      for i := 0 to |ms|
        invariant Valid() && Applied(c, ms, i, schema, now, content, changes)
      {
        ghost var d, before := content, changes;
        var more;
        ok, more := ApplyMutation(ms[i], now);
        AppliedStep(c, ms, i, schema, now, d, before);
        if !ok {
          return;
        }
        changes := changes + more;
      }
      assert ms[..|ms|] == ms;
      ok := true;
    }

    method ApplyMutation(m: Mutation, now: int) returns (ok: bool, changes: seq<Mutation>)
      requires Valid() && ValidTs(schema, now) && ValidMutation(m, schema)
      modifies this
      ensures Valid() && ok == Apply(old(content), m, schema, now).Some?
      ensures ok ==> Some(content) == Apply(old(content), m, schema, now)
      ensures ok ==> changes == Changes(old(content), m, schema, now)
    {
      ok, changes := true, [m];
      match m {
        case SetCell(fam, col, ts, value, auto) =>
          ResolvedIsFixed(schema, ts, auto, now, 0);
          var t := Resolve(schema, ts, auto, now);
          SetCell(fam, col, Cell(t, value, []));
          changes := [Mutation.SetCell(fam, col, t, value, false)];
        case DeleteFromColumn(fam, col, range) =>
          DeleteFromColumn(fam, col, range);
        case DeleteFromFamily(fam) =>
          DeleteFamily(fam);
        case DeleteFromRow =>
          var names := SortedFamilies();
          changes := Drops(names);
          families, content := map[], map[];
          assert FamiliesIn(content) == {};
        case Aggregate(fam, col, ts, input, auto, merge) =>
          ok := ApplyAggregate(fam, col, Resolve(schema, ts, auto, 0), input, merge);
      }
    }

    /** Applies the families' rules and returns one deletion per removed cell. */
    method GcWithChanges(now: int) returns (changes: seq<Mutation>)
      requires Valid()
      modifies this
      ensures Valid() && content == CollectRow(old(content), schema, now)
      ensures changes == GcRecords(old(content), schema, now)
    {
      ghost var c := content;
      var names := SortedFamilies();
      PartlyAtFirst(c, schema, now);
      changes := [];
      for i := 0 to |names|
        invariant content == c && Partly(families, c, ColumnsOf(c, names[..i]), schema, now)
        invariant changes == RecordsFor(c, ColumnsOf(c, names[..i]), schema, now)
      {
        NextFamily(c, names, schema, i);
        changes := CollectFamily(names[i], now, changes, ColumnsOf(c, names[..i]));
      }
      assert names[..|names|] == names;
      ColumnOrderIsAll(c, schema);
      PartlyAtLast(families, c, ColumnsOf(c, names), schema, now);
      families := Normalize(families);
      content := CollectRow(c, schema, now);
    }

    method CollectFamily(fam: Name, now: int, before: seq<Mutation>, ghost done: seq<Column>) returns (changes: seq<Mutation>)
      requires GoodRow(content, schema) && fam in FamiliesIn(content) && forall k :: k in done ==> k.0 != fam
      requires Partly(families, content, done, schema, now) && before == RecordsFor(content, done, schema, now)
      modifies this`families
      ensures var all := done + Pairs(fam, Arrange(ColumnsIn(content, fam), ByName));
              Partly(families, content, all, schema, now) && changes == RecordsFor(content, all, schema, now)
    {
      assert Shaped(families, content, fam, schema);
      var cols, rule := families[fam].colNames, RuleOf(schema, fam);
      changes := before;
      assert done + Pairs(fam, cols[..0]) == done;
      for j := 0 to |cols|
        invariant Partly(families, content, done + Pairs(fam, cols[..j]), schema, now)
        invariant changes == RecordsFor(content, done + Pairs(fam, cols[..j]), schema, now)
      {
        NextColumn(content, fam, cols, done, j);
        changes := CollectColumn(fam, cols[j], rule, now, changes, done + Pairs(fam, cols[..j]));
      }
      assert cols[..|cols|] == cols;
    }

    method CollectColumn(fam: Name, col: Name, rule: GcRule, now: int, before: seq<Mutation>, ghost done: seq<Column>)
      returns (changes: seq<Mutation>)
      requires GoodRow(content, schema) && rule == RuleOf(schema, fam) && (fam, col) in content && (fam, col) !in done
      requires Partly(families, content, done, schema, now) && before == RecordsFor(content, done, schema, now)
      modifies this`families
      ensures Partly(families, content, done + [(fam, col)], schema, now)
      ensures changes == RecordsFor(content, done + [(fam, col)], schema, now)
    {
      ghost var k := (fam, col);
      assert Shaped(families, content, fam, schema) && HeldPartly(families, content, done, schema, now, k);
      InFamilies(content, fam);
      InColumns(content, fam, col);
      var f := families[fam];
      var cs := f.cells[col];
      var kept, removed := ApplyGcAt(cs, rule, now);
      RecordsForOneMore(content, done, k, schema, now);
      changes := before;
      if removed == [] {
        PartlyUnchanged(families, content, done, k, schema, now);
      } else {
        PartlyAfter(families, content, done, k, schema, now);
        families := families[fam := f.(cells := f.cells[col := kept])];
        var more := RecordRemoved(fam, col, removed);
        changes := changes + more;
      }
    }
  }

  method FindTs(cs: seq<Cell>, ts: int) returns (idx: nat)
    ensures idx <= |cs| && ValueAt(cs, ts) == if idx < |cs| then Some(cs[idx]) else None
  {
    idx := 0;
    while idx < |cs| && cs[idx].ts != ts
      invariant 0 <= idx <= |cs| && ValueAt(cs, ts) == ValueAt(cs[idx..], ts)
    {
      assert cs[idx..][1..] == cs[idx + 1..];
      idx := idx + 1;
    }
  }

  // ---- one column's cells at a time, as collection edits them ----

  /** `fs` holds the row `c` whose columns in `done` have been collected. */
  ghost predicate Partly(fs: Families, c: Content, done: seq<Column>, s: Schema, now: int) {
    (forall k: Column :: HeldPartly(fs, c, done, s, now, k)) && (forall fam :: Shaped(fs, c, fam, s))
  }

  ghost predicate HeldPartly(fs: Families, c: Content, done: seq<Column>, s: Schema, now: int, k: Column) {
    Held(fs, k) == if k in done then Kept(c, k, s, now) else Get(c, k)
  }

  ghost predicate Shaped(fs: Families, c: Content, fam: Name, s: Schema) {
    && (fam in fs <==> fam in FamiliesIn(c))
    && (fam in fs ==> InShape(fs[fam], c, fam, s))
  }

  ghost predicate InShape(f: Family, c: Content, fam: Name, s: Schema) {
    && f.order == OrderOf(s)(fam)
    && f.colNames == Arrange(ColumnsIn(c, fam), ByName) && f.cells.Keys == ColumnsIn(c, fam)
  }

  lemma PartlyAtFirst(c: Content, s: Schema, now: int)
    ensures Partly(Rep(c, s), c, [], s, now)
  {
    var fs := Rep(c, s);
    forall k: Column ensures HeldPartly(fs, c, [], s, now, k) { RepHolds(c, s, k); }
    forall fam ensures Shaped(fs, c, fam, s) { assert fam in fs ==> fs[fam] == FamilyOf(c, fam, s); }
  }

  lemma HeldAfter(fs: Families, c: Content, done: seq<Column>, k: Column, f: Family, s: Schema, now: int, j: Column)
    requires k.0 in fs && HeldPartly(fs, c, done, s, now, j)
    requires f.cells == fs[k.0].cells[k.1 := Kept(c, k, s, now)]
    ensures HeldPartly(fs[k.0 := f], c, done + [k], s, now, j)
  {
    assert j == (j.0, j.1) && k == (k.0, k.1);
  }

  lemma PartlyAfter(fs: Families, c: Content, done: seq<Column>, k: Column, s: Schema, now: int)
    requires Partly(fs, c, done, s, now) && k in c && k.0 in fs
    ensures var f := fs[k.0];
            Partly(fs[k.0 := f.(cells := f.cells[k.1 := Kept(c, k, s, now)])], c, done + [k], s, now)
  {
    var f := fs[k.0];
    var g := f.(cells := f.cells[k.1 := Kept(c, k, s, now)]);
    var gs := fs[k.0 := g];
    InColumns(c, k.0, k.1);
    assert (k.0, k.1) == k;
    forall fam ensures Shaped(gs, c, fam, s) {
      assert Shaped(fs, c, fam, s);
      assert g.cells.Keys == f.cells.Keys + {k.1};
    }
    forall j: Column ensures HeldPartly(gs, c, done + [k], s, now, j) { HeldAfter(fs, c, done, k, g, s, now, j); }
  }

  lemma PartlyUnchanged(fs: Families, c: Content, done: seq<Column>, k: Column, s: Schema, now: int)
    requires Partly(fs, c, done, s, now) && Kept(c, k, s, now) == Get(c, k)
    ensures Partly(fs, c, done + [k], s, now)
  {
    forall j: Column ensures HeldPartly(fs, c, done + [k], s, now, j) {
      assert HeldPartly(fs, c, done, s, now, j);
    }
  }

  lemma NextColumn(c: Content, fam: Name, cols: seq<Name>, done: seq<Column>, j: nat)
    requires cols == Arrange(ColumnsIn(c, fam), ByName) && j < |cols| && forall k :: k in done ==> k.0 != fam
    ensures var k, some := (fam, cols[j]), done + Pairs(fam, cols[..j]);
            k in c && k !in some && done + Pairs(fam, cols[..j + 1]) == some + [k]
  {
    ArrangedDistinct(cols, ByName, j);
    assert cols[j] in Elements(cols);
    InColumns(c, fam, cols[j]);
    assert Pairs(fam, cols[..j + 1]) == Pairs(fam, cols[..j]) + [(fam, cols[j])];
  }

  lemma NextFamily(c: Content, names: seq<Name>, s: Schema, i: nat)
    requires names == Arrange(FamiliesIn(c), OrderOf(s)) && i < |names|
    ensures names[i] in FamiliesIn(c) && forall k :: k in ColumnsOf(c, names[..i]) ==> k.0 != names[i]
    ensures ColumnsOf(c, names[..i + 1]) ==
              ColumnsOf(c, names[..i]) + Pairs(names[i], Arrange(ColumnsIn(c, names[i]), ByName))
  {
    ArrangedDistinct(names, OrderOf(s), i);
    assert names[i] in Elements(names);
    ColumnsOfAre(c, names[..i]);
    assert names[..i + 1][..i] == names[..i];
  }

  lemma PartlyAtLast(fs: Families, c: Content, done: seq<Column>, s: Schema, now: int)
    requires Partly(fs, c, done, s, now) && GoodRow(c, s) && forall k :: k in c ==> k in done
    ensures Normal(fs) == Rep(CollectRow(c, s, now), s) && GoodRow(CollectRow(c, s, now), s)
  {
    var d := CollectRow(c, s, now);
    CollectKeepsRowGood(c, s, now);
    forall k: Column ensures Held(fs, k) == Get(d, k) {
      assert HeldPartly(fs, c, done, s, now, k);
      CollectRowGets(c, s, now, k);
    }
    forall fam | fam in fs ensures fs[fam].order == OrderOf(s)(fam) { assert Shaped(fs, c, fam, s); }
    NormalIsRep(fs, d, s);
  }

  lemma RecordsForOneMore(c: Content, ks: seq<Column>, k: Column, s: Schema, now: int)
    ensures RecordsFor(c, ks + [k], s, now) == RecordsFor(c, ks, s, now) + ColumnRecords(k, Removed(c, k, s, now))
  {
    assert (ks + [k])[..|ks|] == ks;
  }

  /** One deletion record per removed cell. */
  method RecordRemoved(fam: Name, col: Name, removed: seq<Cell>) returns (changes: seq<Mutation>)
    ensures changes == ColumnRecords((fam, col), removed)
  {
    changes := [];
    for i := 0 to |removed|
      invariant changes == ColumnRecords((fam, col), removed[..i])
    {
      var ts := removed[i].ts;
      changes := changes + [Mutation.DeleteFromColumn(fam, col, Some((ts, Wrap(ts + 1000))))];
      assert changes == ColumnRecords((fam, col), removed[..i + 1]);
    }
    assert removed[..|removed|] == removed;
  }

  method CellsByColumn(f: Family, col: Name) returns (g: Family, cs: seq<Cell>)
    requires f.colNames == Arrange(f.cells.Keys, ByName)
    ensures g == f.(colNames := Arrange(f.cells.Keys + {col}, ByName))
    ensures cs == if col in f.cells then f.cells[col] else []
  {
    g, cs := f, [];
    if col in f.cells {
      assert f.cells.Keys + {col} == f.cells.Keys;
      cs := f.cells[col];
    } else {
      assert Elements(f.colNames) == f.cells.Keys;
      assert col !in Elements(f.colNames);
      var names := InsertName(f.colNames, col, ByName);
      g := f.(colNames := names);
    }
  }
}
