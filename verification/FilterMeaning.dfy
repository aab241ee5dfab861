/** Evaluating a filter column by column gives its meaning on the flat row. */
module FilterMeaning {
  import opened Basics
  import opened Lex
  import opened Names
  import opened Columns
  import opened Mutations
  import opened Replay
  import opened Filters

  ghost predicate Distinct(ks: seq<Column>) { forall i, j :: 0 <= i < j < |ks| ==> ks[i] != ks[j] }

  /** A row whose columns are among `ks`. */
  ghost predicate In(c: Content, ks: seq<Column>) { NoEmptyColumn(c) && forall k :: k in c ==> k in ks }

  ghost predicate Tidy(c: Content) { forall k :: k in c ==> WeaklyDescending(c[k]) }

  // ---- flat rows ----

  lemma {:induction false} OfAppend(xs: seq<Item>, ys: seq<Item>, k: Column)
    ensures Of(xs + ys, k) == Of(xs, k) + Of(ys, k)
  {
    if xs == [] {
      assert xs + ys == ys;
    } else {
      OfAppend(xs[1..], ys, k);
      assert (xs + ys)[1..] == xs[1..] + ys;
    }
  }

  lemma {:induction false} OfItems(j: Column, cs: seq<Cell>, k: Column)
    ensures Of(Items(j, cs), k) == if j == k then cs else []
  {
    if cs != [] {
      OfItems(j, cs[1..], k);
      assert Items(j, cs)[1..] == Items(j, cs[1..]);
    }
  }

  lemma {:induction false} OfFlat(c: Content, ks: seq<Column>, k: Column)
    requires Distinct(ks)
    ensures Of(Flat(c, ks), k) == if k in ks then Get(c, k) else []
  {
    if ks != [] {
      OfFlat(c, ks[1..], k);
      OfItems(ks[0], Get(c, ks[0]), k);
      OfAppend(Items(ks[0], Get(c, ks[0])), Flat(c, ks[1..]), k);
      assert ks == [ks[0]] + ks[1..];
    }
  }

  lemma {:induction false} FlatSame(c: Content, d: Content, ks: seq<Column>)
    requires forall i :: 0 <= i < |ks| ==> Get(c, ks[i]) == Get(d, ks[i])
    ensures Flat(c, ks) == Flat(d, ks)
  {
    if ks != [] { FlatSame(c, d, ks[1..]); }
  }

  lemma {:induction false} FlatIsSorted(d: Content, xs: seq<Item>, ks: seq<Column>)
    requires forall i :: 0 <= i < |ks| ==> Get(d, ks[i]) == StableDesc(Of(xs, ks[i]))
    ensures Flat(d, ks) == Sorted(xs, ks)
  {
    if ks != [] { FlatIsSorted(d, xs, ks[1..]); }
  }

  lemma {:induction false} SortedSame(xs: seq<Item>, ys: seq<Item>, ks: seq<Column>)
    requires forall i :: 0 <= i < |ks| ==> StableDesc(Of(xs, ks[i])) == StableDesc(Of(ys, ks[i]))
    ensures Sorted(xs, ks) == Sorted(ys, ks)
  {
    if ks != [] { SortedSame(xs, ys, ks[1..]); }
  }

  lemma {:induction false} OfSorted(xs: seq<Item>, ks: seq<Column>, k: Column)
    requires Distinct(ks)
    ensures Of(Sorted(xs, ks), k) == if k in ks then StableDesc(Of(xs, k)) else []
  {
    if ks != [] {
      var head := StableDesc(Of(xs, ks[0]));
      OfSorted(xs, ks[1..], k);
      OfItems(ks[0], head, k);
      OfAppend(Items(ks[0], head), Sorted(xs, ks[1..]), k);
      assert ks == [ks[0]] + ks[1..];
    }
  }

  /** Sorting what came first, and then all, is sorting all once. */
  lemma SortTwice(xs: seq<Item>, ys: seq<Item>, ks: seq<Column>)
    requires Distinct(ks)
    ensures Sorted(Sorted(xs, ks) + ys, ks) == Sorted(xs + ys, ks)
  {
    forall i | 0 <= i < |ks| ensures StableDesc(Of(Sorted(xs, ks) + ys, ks[i])) == StableDesc(Of(xs + ys, ks[i])) {
      OfAppend(Sorted(xs, ks), ys, ks[i]);
      OfAppend(xs, ys, ks[i]);
      OfSorted(xs, ks, ks[i]);
      StableTwice(Of(xs, ks[i]), Of(ys, ks[i]));
    }
    SortedSame(Sorted(xs, ks) + ys, xs + ys, ks);
  }

  lemma FlatOfMerged(a: Content, b: Content, ks: seq<Column>)
    requires Distinct(ks)
    ensures Flat(Merged(a, b), ks) == Sorted(Flat(a, ks) + Flat(b, ks), ks)
  {
    var xs := Flat(a, ks) + Flat(b, ks);
    forall i | 0 <= i < |ks| ensures Get(Merged(a, b), ks[i]) == StableDesc(Of(xs, ks[i])) {
      OfAppend(Flat(a, ks), Flat(b, ks), ks[i]);
      OfFlat(a, ks, ks[i]);
      OfFlat(b, ks, ks[i]);
      StableDescends(Of(xs, ks[i]));
    }
    FlatIsSorted(Merged(a, b), xs, ks);
  }

  lemma MergedIsTidy(a: Content, b: Content, ks: seq<Column>)
    requires In(a, ks) && In(b, ks)
    ensures In(Merged(a, b), ks) && Tidy(Merged(a, b))
  {
    forall k | k in Merged(a, b) ensures WeaklyDescending(Merged(a, b)[k]) && Merged(a, b)[k] != [] {
      var cs := Get(a, k) + Get(b, k);
      StableDescends(cs);
      assert |multiset(StableDesc(cs))| == |multiset(cs)|;
    }
  }

  /** A tidy row is already sorted. */
  lemma FlatIsInOrder(c: Content, ks: seq<Column>)
    requires Distinct(ks) && Tidy(c)
    ensures Sorted(Flat(c, ks), ks) == Flat(c, ks)
  {
    forall i | 0 <= i < |ks| ensures Get(c, ks[i]) == StableDesc(Of(Flat(c, ks), ks[i])) {
      OfFlat(c, ks, ks[i]);
      StableOfDescending(Get(c, ks[i]));
    }
    FlatIsSorted(c, Flat(c, ks), ks);
  }

  lemma {:induction false} FlatEmpty(c: Content, ks: seq<Column>)
    requires In(c, ks)
    ensures Flat(c, ks) == [] <==> c == map[]
  {
    if c == map[] {
      NothingFlat(ks);
    } else {
      var k :| k in c;
      FlatHas(c, ks, k);
    }
  }

  lemma {:induction false} NothingFlat(ks: seq<Column>)
    ensures Flat(map[], ks) == []
  {
    if ks != [] { NothingFlat(ks[1..]); }
  }

  lemma {:induction false} FlatHas(c: Content, ks: seq<Column>, k: Column)
    requires k in ks && Get(c, k) != []
    ensures Flat(c, ks) != []
  {
    if ks[0] != k { FlatHas(c, ks[1..], k); }
  }

  // ---- columns in canonical order ----

  predicate ColBefore(s: Schema, a: Column, b: Column) {
    Before(OrderOf(s), a.0, b.0) || (a.0 == b.0 && Before(ByName, a.1, b.1))
  }

  ghost predicate InOrder(ks: seq<Column>, s: Schema) { forall i, j :: 0 <= i < j < |ks| ==> ColBefore(s, ks[i], ks[j]) }

  lemma ColBeforeIsStrict(s: Schema, a: Column, b: Column)
    ensures !(ColBefore(s, a, b) && ColBefore(s, b, a)) && !ColBefore(s, a, a)
  {
    BeforeIsTotal(OrderOf(s), a.0, b.0);
    BeforeIsTotal(OrderOf(s), a.0, a.0);
    BeforeIsTotal(ByName, a.1, b.1);
    BeforeIsTotal(ByName, a.1, a.1);
  }

  lemma InOrderIsDistinct(ks: seq<Column>, s: Schema)
    requires InOrder(ks, s)
    ensures Distinct(ks)
  {
    forall i, j | 0 <= i < j < |ks| ensures ks[i] != ks[j] { ColBeforeIsStrict(s, ks[i], ks[j]); }
  }

  lemma PairsInOrder(fam: Name, cols: seq<Name>, s: Schema)
    requires Arranged(cols, ByName)
    ensures InOrder(Pairs(fam, cols), s)
  {
  }

  lemma {:induction false} ColumnsOfInOrder(c: Content, fams: seq<Name>, s: Schema)
    requires Arranged(fams, OrderOf(s))
    ensures InOrder(ColumnsOf(c, fams), s)
  {
    if fams != [] {
      var init, fam := fams[..|fams| - 1], fams[|fams| - 1];
      var cols := Arrange(ColumnsIn(c, fam), ByName);
      var a, b := ColumnsOf(c, init), Pairs(fam, cols);
      ColumnsOfInOrder(c, init, s);
      ColumnsOfAre(c, init);
      PairsInOrder(fam, cols, s);
      forall i, j | 0 <= i < |a| && 0 <= j < |b| ensures ColBefore(s, a[i], b[j]) {
        assert a[i] in a;
        var n :| 0 <= n < |init| && init[n] == a[i].0;
        assert fams[n] == init[n];
      }
      JoinInOrder(a, b, s);
    }
  }

  lemma JoinInOrder(a: seq<Column>, b: seq<Column>, s: Schema)
    requires InOrder(a, s) && InOrder(b, s) && forall i, j :: 0 <= i < |a| && 0 <= j < |b| ==> ColBefore(s, a[i], b[j])
    ensures InOrder(a + b, s)
  {
  }

  lemma ColumnOrderIsInOrder(c: Content, s: Schema)
    ensures InOrder(ColumnOrder(c, s), s) && Distinct(ColumnOrder(c, s))
  {
    ColumnsOfInOrder(c, Arrange(FamiliesIn(c), OrderOf(s)), s);
    InOrderIsDistinct(ColumnOrder(c, s), s);
  }

  lemma {:induction false} InOrderUnique(a: seq<Column>, b: seq<Column>, s: Schema)
    requires InOrder(a, s) && InOrder(b, s) && forall k :: k in a <==> k in b
    ensures a == b
  {
    if a == [] {
      assert forall i :: 0 <= i < |b| ==> b[i] in a;
    } else {
      assert a[0] in b && b[0] in a;
      ColBeforeIsStrict(s, a[0], b[0]);
      assert a[0] == b[0];
      TailMembers(a, s);
      TailMembers(b, s);
      InOrderUnique(a[1..], b[1..], s);
      assert a == [a[0]] + a[1..] && b == [b[0]] + b[1..];
    }
  }

  lemma TailMembers(a: seq<Column>, s: Schema)
    requires a != [] && InOrder(a, s)
    ensures forall k :: k in a[1..] <==> k in a && k != a[0]
  {
    assert a == [a[0]] + a[1..];
    forall i | 0 <= i < |a[1..]| ensures a[1..][i] != a[0] { ColBeforeIsStrict(s, a[0], a[i + 1]); }
  }

  /** The columns of `ks` that the row has. */
  function Present(ks: seq<Column>, c: Content): (r: seq<Column>) {
    if ks == [] then [] else if ks[0] in c then [ks[0]] + Present(ks[1..], c) else Present(ks[1..], c)
  }

  lemma {:induction false} PresentMembers(ks: seq<Column>, c: Content)
    ensures forall k :: k in Present(ks, c) <==> k in ks && k in c
  {
    if ks != [] {
      PresentMembers(ks[1..], c);
      assert ks == [ks[0]] + ks[1..];
    }
  }

  lemma {:induction false} PresentInOrder(ks: seq<Column>, c: Content, s: Schema)
    requires InOrder(ks, s)
    ensures InOrder(Present(ks, c), s)
  {
    if ks != [] {
      PresentInOrder(ks[1..], c, s);
      PresentMembers(ks[1..], c);
      if ks[0] in c {
        var rest := Present(ks[1..], c);
        forall j | 0 <= j < |rest| ensures ColBefore(s, ks[0], rest[j]) { assert rest[j] in ks[1..]; }
        JoinInOrder([ks[0]], rest, s);
      }
    }
  }

  /** A row's own column order is the part of a wider order that it has. */
  lemma OwnOrderIsPresent(c: Content, ks: seq<Column>, s: Schema)
    requires InOrder(ks, s) && In(c, ks)
    ensures ColumnOrder(c, s) == Present(ks, c)
  {
    ColumnOrderIsInOrder(c, s);
    ColumnOrderIsAll(c, s);
    PresentInOrder(ks, c, s);
    PresentMembers(ks, c);
    InOrderUnique(ColumnOrder(c, s), Present(ks, c), s);
  }

  lemma {:induction false} FlatOfPresent(c: Content, ks: seq<Column>)
    ensures Flat(c, Present(ks, c)) == Flat(c, ks)
  {
    if ks != [] { FlatOfPresent(c, ks[1..]); }
  }

  // ---- row limit and offset ----

  lemma {:induction false} LimitedElsewhere(c: Content, ks: seq<Column>, n: nat, k: Column)
    requires k !in ks
    ensures Get(Limited(c, ks, n), k) == Get(c, k)
  {
    if ks != [] {
      var cs := TakeCells(Get(c, ks[0]), n);
      assert k != ks[0] && k !in ks[1..];
      LimitedElsewhere(Store(c, ks[0], cs), ks[1..], n - |cs|, k);
    }
  }

  lemma TakeJoin(xs: seq<Item>, ys: seq<Item>, n: nat)
    ensures Take(xs + ys, n) == Take(xs, n) + Take(ys, n - |Take(xs, n)|)
    ensures Drop(xs + ys, n) == Drop(xs, n) + Drop(ys, if n >= |xs| then n - |xs| else 0)
  {
  }

  lemma TakeItems(k: Column, cs: seq<Cell>, n: nat)
    ensures Take(Items(k, cs), n) == Items(k, TakeCells(cs, n)) && Drop(Items(k, cs), n) == Items(k, DropCells(cs, n))
  {
  }

  lemma {:induction false} FlatOfLimited(c: Content, ks: seq<Column>, n: nat)
    requires Distinct(ks)
    ensures Flat(Limited(c, ks, n), ks) == Take(Flat(c, ks), n)
  {
    if ks != [] {
      var k, rest := ks[0], ks[1..];
      var taken := TakeCells(Get(c, k), n);
      var d, m := Store(c, k, taken), n - |taken|;
      assert k !in rest;
      var r := Limited(d, rest, m);
      FlatOfLimited(d, rest, m);
      LimitedElsewhere(d, rest, m, k);
      FlatSame(c, d, rest);
      TakeFlat(c, k, rest, n);
      assert Flat(r, ks) == Items(k, taken) + Take(Flat(c, rest), m);
    }
  }

  lemma TakeFlat(c: Content, k: Column, rest: seq<Column>, n: nat)
    ensures var taken := TakeCells(Get(c, k), n);
            Take(Items(k, Get(c, k)) + Flat(c, rest), n) == Items(k, taken) + Take(Flat(c, rest), n - |taken|)
  {
    TakeJoin(Items(k, Get(c, k)), Flat(c, rest), n);
    TakeItems(k, Get(c, k), n);
  }

  lemma {:induction false} SkippedElsewhere(c: Content, ks: seq<Column>, n: nat, k: Column)
    requires k !in ks
    ensures Get(Skipped(c, ks, n), k) == Get(c, k)
  {
    if ks != [] {
      var cs := Get(c, ks[0]);
      assert k != ks[0] && k !in ks[1..];
      SkippedElsewhere(Store(c, ks[0], DropCells(cs, n)), ks[1..], if n >= |cs| then n - |cs| else 0, k);
    }
  }

  lemma SkipColumn(k: Column, cs: seq<Cell>, ys: seq<Item>, n: nat)
    ensures Drop(Items(k, cs) + ys, n) == Items(k, DropCells(cs, n)) + Drop(ys, if n >= |cs| then n - |cs| else 0)
  {
    TakeJoin(Items(k, cs), ys, n);
    TakeItems(k, cs, n);
  }

  lemma {:induction false} FlatOfSkipped(c: Content, ks: seq<Column>, n: nat)
    requires Distinct(ks)
    ensures Flat(Skipped(c, ks, n), ks) == Drop(Flat(c, ks), n)
  {
    if ks != [] {
      var k, rest := ks[0], ks[1..];
      var cs := Get(c, k);
      var left, m := DropCells(cs, n), if n >= |cs| then n - |cs| else 0;
      var d := Store(c, k, left);
      assert k !in rest;
      FlatOfSkipped(d, rest, m);
      SkippedElsewhere(d, rest, m, k);
      FlatSame(c, d, rest);
      SkipColumn(k, cs, Flat(c, rest), n);
    }
  }

  /** Columns a row lacks do not matter. */
  lemma {:induction false} LimitedPresent(c: Content, ks: seq<Column>, n: nat)
    requires Distinct(ks)
    ensures Limited(c, Present(ks, c), n) == Limited(c, ks, n)
  {
    if ks != [] {
      var k, rest := ks[0], ks[1..];
      assert k !in rest;
      var cs := TakeCells(Get(c, k), n);
      var d := Store(c, k, cs);
      LimitedPresent(d, rest, n - |cs|);
      PresentSame(rest, c, d);
      if k !in c { assert d == c; }
    }
  }

  lemma {:induction false} SkippedPresent(c: Content, ks: seq<Column>, n: nat)
    requires Distinct(ks)
    ensures Skipped(c, Present(ks, c), n) == Skipped(c, ks, n)
  {
    if ks != [] {
      var k, rest := ks[0], ks[1..];
      assert k !in rest;
      var cs := Get(c, k);
      var d := Store(c, k, DropCells(cs, n));
      SkippedPresent(d, rest, if n >= |cs| then n - |cs| else 0);
      PresentSame(rest, c, d);
      if k !in c { assert d == c; }
    }
  }

  lemma {:induction false} PresentSame(ks: seq<Column>, c: Content, d: Content)
    requires forall i :: 0 <= i < |ks| ==> (ks[i] in c <==> ks[i] in d)
    ensures Present(ks, c) == Present(ks, d)
  {
    if ks != [] { PresentSame(ks[1..], c, d); }
  }

  /** A column may only lose cells at either end. */
  lemma StoreIsIn(c: Content, k: Column, cs: seq<Cell>, all: seq<Column>)
    requires In(c, all) && Tidy(c) && WeaklyDescending(cs) && (cs != [] ==> k in c)
    ensures In(Store(c, k, cs), all) && Tidy(Store(c, k, cs))
  {
  }

  lemma {:induction false} LimitedIsIn(c: Content, ks: seq<Column>, all: seq<Column>, n: nat)
    requires In(c, all) && Tidy(c)
    ensures In(Limited(c, ks, n), all) && Tidy(Limited(c, ks, n))
    decreases |ks|
  {
    if ks != [] {
      var cs := TakeCells(Get(c, ks[0]), n);
      StoreIsIn(c, ks[0], cs, all);
      LimitedIsIn(Store(c, ks[0], cs), ks[1..], all, n - |cs|);
    }
  }

  lemma {:induction false} SkippedIsIn(c: Content, ks: seq<Column>, all: seq<Column>, n: nat)
    requires In(c, all) && Tidy(c)
    ensures In(Skipped(c, ks, n), all) && Tidy(Skipped(c, ks, n))
    decreases |ks|
  {
    if ks != [] {
      var cs := Get(c, ks[0]);
      StoreIsIn(c, ks[0], DropCells(cs, n), all);
      SkippedIsIn(Store(c, ks[0], DropCells(cs, n)), ks[1..], all, if n >= |cs| then n - |cs| else 0);
    }
  }

  // ---- per-column limit and per-cell filters ----

  lemma {:induction false} FirstOfColumnJoin(xs: seq<Item>, ys: seq<Item>, n: nat)
    requires forall i, j :: 0 <= i < |xs| && 0 <= j < |ys| ==> xs[i].k != ys[j].k
    ensures FirstOfColumn(xs + ys, n) == FirstOfColumn(xs, n) + FirstOfColumn(ys, n)
    decreases |ys|
  {
    if ys == [] {
      assert xs + ys == xs;
    } else {
      var init, y := ys[..|ys| - 1], ys[|ys| - 1];
      FirstOfColumnJoin(xs, init, n);
      FirstOfColumnSnoc(xs + init, y, n);
      FirstOfColumnSnoc(init, y, n);
      assert xs + ys == (xs + init) + [y] && ys == init + [y];
      OfAppend(xs, init, y.k);
      OfNothing(xs, y.k);
      assert [] + Of(init, y.k) == Of(init, y.k);
      Associative(FirstOfColumn(xs, n), FirstOfColumn(init, n), if |Of(init, y.k)| < n then [y] else []);
    }
  }

  lemma FirstOfColumnSnoc(xs: seq<Item>, x: Item, n: nat)
    ensures FirstOfColumn(xs + [x], n) == FirstOfColumn(xs, n) + if |Of(xs, x.k)| < n then [x] else []
  {
    assert (xs + [x])[..|xs|] == xs;
  }

  lemma {:induction false} OfNothing(xs: seq<Item>, k: Column)
    requires forall i :: 0 <= i < |xs| ==> xs[i].k != k
    ensures Of(xs, k) == []
  {
    if xs != [] { OfNothing(xs[1..], k); }
  }

  lemma {:induction false} FirstOfItems(k: Column, cs: seq<Cell>, n: nat)
    ensures FirstOfColumn(Items(k, cs), n) == Items(k, TakeCells(cs, n))
  {
    if cs != [] {
      var init := cs[..|cs| - 1];
      FirstOfItems(k, init, n);
      assert Items(k, cs)[..|cs| - 1] == Items(k, init);
      OfItems(k, init, k);
    }
  }

  lemma {:induction false} FlatColumns(c: Content, ks: seq<Column>)
    ensures forall i :: 0 <= i < |Flat(c, ks)| ==> Flat(c, ks)[i].k in ks
  {
    if ks != [] {
      FlatColumns(c, ks[1..]);
      assert ks == [ks[0]] + ks[1..];
    }
  }

  lemma {:induction false} FlatOfColumnLimit(c: Content, d: Content, ks: seq<Column>, n: nat)
    requires Distinct(ks) && forall i :: 0 <= i < |ks| ==> Get(d, ks[i]) == TakeCells(Get(c, ks[i]), n)
    ensures Flat(d, ks) == FirstOfColumn(Flat(c, ks), n)
  {
    if ks != [] {
      var k, rest := ks[0], ks[1..];
      FlatOfColumnLimit(c, d, rest, n);
      FirstOfItems(k, Get(c, k), n);
      FlatColumns(c, rest);
      assert k !in rest;
      FirstOfColumnJoin(Items(k, Get(c, k)), Flat(c, rest), n);
    }
  }

  lemma {:induction false} PassedJoin(cf: CellFilter, xs: seq<Item>, ys: seq<Item>)
    ensures PassedItems(cf, xs + ys) == PassedItems(cf, xs) + PassedItems(cf, ys)
  {
    if xs == [] {
      assert xs + ys == ys;
    } else {
      var all, x := xs + ys, xs[0];
      PassedJoin(cf, xs[1..], ys);
      assert all[0] == x && all[1..] == xs[1..] + ys;
      Associative([Item(x.k, Modify(cf, x.cell))], PassedItems(cf, xs[1..]), PassedItems(cf, ys));
    }
  }

  lemma {:induction false} PassedOfItems(cf: CellFilter, k: Column, cs: seq<Cell>)
    ensures PassedItems(cf, Items(k, cs)) == Items(k, Passed(cf, k, cs))
  {
    if cs != [] {
      PassedOfItems(cf, k, cs[1..]);
      assert Items(k, cs)[1..] == Items(k, cs[1..]);
    }
  }

  lemma {:induction false} FlatOfPassed(c: Content, d: Content, ks: seq<Column>, cf: CellFilter)
    requires forall i :: 0 <= i < |ks| ==> Get(d, ks[i]) == Passed(cf, ks[i], Get(c, ks[i]))
    ensures Flat(d, ks) == PassedItems(cf, Flat(c, ks))
  {
    if ks != [] {
      FlatOfPassed(c, d, ks[1..], cf);
      PassedOfItems(cf, ks[0], Get(c, ks[0]));
      PassedJoin(cf, Items(ks[0], Get(c, ks[0])), Flat(c, ks[1..]));
    }
  }

  lemma {:induction false} PassedDescends(cf: CellFilter, k: Column, cs: seq<Cell>)
    requires WeaklyDescending(cs)
    ensures WeaklyDescending(Passed(cf, k, cs))
    ensures forall i :: 0 <= i < |Passed(cf, k, cs)| ==> exists j :: 0 <= j < |cs| && cs[j].ts == Passed(cf, k, cs)[i].ts
  {
    if cs != [] {
      PassedDescends(cf, k, cs[1..]);
      var r, rest := Passed(cf, k, cs), Passed(cf, k, cs[1..]);
      forall i | 0 <= i < |r| ensures exists j :: 0 <= j < |cs| && cs[j].ts == r[i].ts {
        if Includes(cf, k, cs[0]) && i == 0 {
          assert cs[0].ts == r[i].ts;
        } else {
          var m := if Includes(cf, k, cs[0]) then i - 1 else i;
          var j :| 0 <= j < |cs[1..]| && cs[1..][j].ts == rest[m].ts;
          assert cs[j + 1].ts == r[i].ts;
        }
      }
    }
  }

  // ---- the main result ----

  ghost predicate Row(c: Content, ks: seq<Column>) { In(c, ks) && Tidy(c) }

  /** The result holds what the flow passes on, and the sink, in order, what it had and what was sunk. */
  ghost predicate Means(r: Result, sink: Content, flow: Flow, ks: seq<Column>) {
    && Row(r.out, ks) && Flat(r.out, ks) == flow.out
    && Row(r.sink, ks) && Flat(r.sink, ks) == Sorted(Flat(sink, ks) + flow.sunk, ks)
  }

  lemma NothingSunk(out: Content, sink: Content, xs: seq<Item>, ks: seq<Column>)
    requires Distinct(ks) && Row(out, ks) && Flat(out, ks) == xs && Row(sink, ks)
    ensures Means(Result(out, sink), sink, Flow(xs, []), ks)
  {
    FlatIsInOrder(sink, ks);
    assert Flat(sink, ks) + [] == Flat(sink, ks);
  }

  lemma ColumnLimitMeans(c: Content, n: nat, ks: seq<Column>)
    requires Distinct(ks) && Row(c, ks)
    ensures var d := OnColumns(c, (k, cs) => TakeCells(cs, n)); Row(d, ks) && Flat(d, ks) == FirstOfColumn(Flat(c, ks), n)
  {
    var d := OnColumns(c, (k, cs) => TakeCells(cs, n));
    forall i | 0 <= i < |ks| ensures Get(d, ks[i]) == TakeCells(Get(c, ks[i]), n) { }
    FlatOfColumnLimit(c, d, ks, n);
  }

  lemma PerCellMeans(c: Content, cf: CellFilter, ks: seq<Column>)
    requires Distinct(ks) && Row(c, ks)
    ensures var d := OnColumns(c, (k, cs) => Passed(cf, k, cs)); Row(d, ks) && Flat(d, ks) == PassedItems(cf, Flat(c, ks))
  {
    var d := OnColumns(c, (k, cs) => Passed(cf, k, cs));
    forall i | 0 <= i < |ks| ensures Get(d, ks[i]) == Passed(cf, ks[i], Get(c, ks[i])) { }
    FlatOfPassed(c, d, ks, cf);
    forall k | k in d ensures WeaklyDescending(d[k]) { PassedDescends(cf, k, c[k]); }
  }

  lemma LimitMeans(c: Content, n: nat, ks: seq<Column>, s: Schema)
    requires InOrder(ks, s) && Row(c, ks)
    ensures var d := Limited(c, ColumnOrder(c, s), n); Row(d, ks) && Flat(d, ks) == Take(Flat(c, ks), n)
  {
    InOrderIsDistinct(ks, s);
    OwnOrderIsPresent(c, ks, s);
    LimitedPresent(c, ks, n);
    FlatOfLimited(c, ks, n);
    LimitedIsIn(c, ks, ks, n);
  }

  lemma OffsetMeans(c: Content, n: nat, ks: seq<Column>, s: Schema)
    requires InOrder(ks, s) && Row(c, ks)
    ensures var d := Skipped(c, ColumnOrder(c, s), n); Row(d, ks) && Flat(d, ks) == Drop(Flat(c, ks), n)
  {
    InOrderIsDistinct(ks, s);
    OwnOrderIsPresent(c, ks, s);
    SkippedPresent(c, ks, n);
    FlatOfSkipped(c, ks, n);
    SkippedIsIn(c, ks, ks, n);
  }

  lemma EmptyRow(ks: seq<Column>)
    ensures Row(map[], ks) && Flat(map[], ks) == []
  {
    NothingFlat(ks);
  }

  /** Evaluation gives the meaning, for every filter and every row. */
  lemma {:induction false} EvalMeans(f: Filter, c: Content, sink: Content, key: Bytes, s: Schema, ks: seq<Column>)
    requires InOrder(ks, s) && Row(c, ks) && Row(sink, ks)
    ensures Means(Eval(f, c, sink, key, s), sink, Meaning(f, Flat(c, ks), key, ks), ks)
    decreases f, 0
  {
    InOrderIsDistinct(ks, s);
    EmptyRow(ks);
    var xs := Flat(c, ks);
    match f
    case PassAll => NothingSunk(c, sink, xs, ks);
    case BlockAll => NothingSunk(map[], sink, [], ks);
    case Sink =>
      FlatOfMerged(sink, c, ks);
      MergedIsTidy(sink, c, ks);
    case Chain(fs) => ChainMeans(fs, c, sink, key, s, ks);
    case Interleave(fs) =>
      BranchesMean(fs, c, map[], sink, key, s, ks);
      var out := BranchMeaning(fs, xs, key, ks).out;
      assert [] + out == out;
    case Condition(test, yes, no) =>
      EvalMeans(test, c, map[], key, s, ks);
      FlatEmpty(Eval(test, c, map[], key, s).out, ks);
      var next := if Eval(test, c, map[], key, s).out != map[] then yes else no;
      if next.None? { NothingSunk(map[], sink, [], ks); } else { EvalMeans(next.value, c, sink, key, s, ks); }
    case RowKeyMatches(p) => NothingSunk(if p(key) then c else map[], sink, if p(key) then xs else [], ks);
    case CellsPerColumnLimit(n) =>
      ColumnLimitMeans(c, n, ks);
      NothingSunk(OnColumns(c, (k, cs) => TakeCells(cs, n)), sink, FirstOfColumn(xs, n), ks);
    case CellsPerRowLimit(n) =>
      LimitMeans(c, n, ks, s);
      NothingSunk(Limited(c, ColumnOrder(c, s), n), sink, Take(xs, n), ks);
    case CellsPerRowOffset(n) =>
      OffsetMeans(c, n, ks, s);
      NothingSunk(Skipped(c, ColumnOrder(c, s), n), sink, Drop(xs, n), ks);
    case PerCell(cf) =>
      PerCellMeans(c, cf, ks);
      NothingSunk(OnColumns(c, (k, cs) => Passed(cf, k, cs)), sink, PassedItems(cf, xs), ks);
  }

  /** What is sunk first and what is sunk later are one sorted sink. */
  lemma SinkTwice(sink: seq<Item>, a: seq<Item>, b: seq<Item>, ks: seq<Column>)
    requires Distinct(ks)
    ensures Sorted(Sorted(sink + a, ks) + b, ks) == Sorted(sink + (a + b), ks)
  {
    SortTwice(sink + a, b, ks);
    Associative(sink, a, b);
  }

  lemma {:induction false} ChainMeans(fs: seq<Filter>, c: Content, sink: Content, key: Bytes, s: Schema, ks: seq<Column>)
    requires InOrder(ks, s) && Row(c, ks) && Row(sink, ks)
    ensures Means(EvalChain(fs, c, sink, key, s), sink, ChainMeaning(fs, Flat(c, ks), key, ks), ks)
    decreases fs, 0
  {
    InOrderIsDistinct(ks, s);
    if fs == [] {
      NothingSunk(c, sink, Flat(c, ks), ks);
    } else {
      var r, first := Eval(fs[0], c, sink, key, s), Meaning(fs[0], Flat(c, ks), key, ks);
      EvalMeans(fs[0], c, sink, key, s, ks);
      ChainMeans(fs[1..], r.out, r.sink, key, s, ks);
      SinkTwice(Flat(sink, ks), first.sunk, ChainMeaning(fs[1..], first.out, key, ks).sunk, ks);
    }
  }

  lemma {:induction false} BranchesMean(fs: seq<Filter>, c: Content, out: Content, sink: Content, key: Bytes, s: Schema, ks: seq<Column>)
    requires InOrder(ks, s) && Row(c, ks) && Row(out, ks) && Row(sink, ks)
    ensures var m := BranchMeaning(fs, Flat(c, ks), key, ks);
            Means(EvalBranches(fs, c, out, sink, key, s), sink, Flow(Sorted(Flat(out, ks) + m.out, ks), m.sunk), ks)
    decreases fs, 0
  {
    InOrderIsDistinct(ks, s);
    if fs == [] {
      FlatIsInOrder(out, ks);
      assert Flat(out, ks) + [] == Flat(out, ks);
      NothingSunk(out, sink, Flat(out, ks), ks);
    } else {
      var xs := Flat(c, ks);
      var r, first, rest := Eval(fs[0], c, sink, key, s), Meaning(fs[0], xs, key, ks), BranchMeaning(fs[1..], xs, key, ks);
      EvalMeans(fs[0], c, sink, key, s, ks);
      FlatOfMerged(out, r.out, ks);
      MergedIsTidy(out, r.out, ks);
      BranchesMean(fs[1..], c, Merged(out, r.out), r.sink, key, s, ks);
      SinkTwice(Flat(out, ks), first.out, rest.out, ks);
      SinkTwice(Flat(sink, ks), first.sunk, rest.sunk, ks);
    }
  }

  /** A row's cells in its own canonical order. */
  ghost function Canonical(c: Content, s: Schema): seq<Item> { Flat(c, ColumnOrder(c, s)) }

  lemma OwnRow(c: Content, s: Schema)
    requires NoEmptyColumn(c) && Tidy(c)
    ensures Row(c, ColumnOrder(c, s)) && InOrder(ColumnOrder(c, s), s)
  {
    ColumnOrderIsAll(c, s);
    ColumnOrderIsInOrder(c, s);
  }

  /** What filtering a row gives: what passes and what was sunk, merged. */
  ghost function Filtered(f: Filter, c: Content, key: Bytes, s: Schema): Content {
    var r := Eval(f, c, map[], key, s);
    Merged(r.out, r.sink)
  }

  /** Filtering a row gives its meaning: one stable sort of the cells that pass and those sunk. */
  lemma FilteredMeans(f: Filter, c: Content, key: Bytes, s: Schema)
    requires NoEmptyColumn(c) && Tidy(c)
    ensures var ks := ColumnOrder(c, s); var flow := Meaning(f, Canonical(c, s), key, ks);
            Canonical(Filtered(f, c, key, s), s) == Sorted(flow.out + flow.sunk, ks)
  {
    var ks := ColumnOrder(c, s);
    var r, flow := Eval(f, c, map[], key, s), Meaning(f, Flat(c, ks), key, ks);
    OwnRow(c, s);
    InOrderIsDistinct(ks, s);
    EmptyRow(ks);
    EvalMeans(f, c, map[], key, s, ks);
    FlatOfMerged(r.out, r.sink, ks);
    MergedIsTidy(r.out, r.sink, ks);
    assert [] + flow.sunk == flow.sunk;
    SortSecond(flow.out, flow.sunk, ks);
    CanonicalIn(Merged(r.out, r.sink), ks, s);
  }

  lemma SortSecond(xs: seq<Item>, ys: seq<Item>, ks: seq<Column>)
    requires Distinct(ks)
    ensures Sorted(xs + Sorted(ys, ks), ks) == Sorted(xs + ys, ks)
  {
    forall i | 0 <= i < |ks| ensures StableDesc(Of(xs + Sorted(ys, ks), ks[i])) == StableDesc(Of(xs + ys, ks[i])) {
      OfAppend(xs, Sorted(ys, ks), ks[i]);
      OfAppend(xs, ys, ks[i]);
      OfSorted(ys, ks, ks[i]);
      StableOfParts(Of(xs, ks[i]), Of(ys, ks[i]));
    }
    SortedSame(xs + Sorted(ys, ks), xs + ys, ks);
  }

  // ---- consequences ----

  /** The first `n` cells and the rest are the row. */
  lemma LimitAndOffsetPartition(c: Content, n: nat, key: Bytes, s: Schema)
    requires NoEmptyColumn(c) && Tidy(c)
    ensures Canonical(Eval(CellsPerRowLimit(n), c, map[], key, s).out, s) +
            Canonical(Eval(CellsPerRowOffset(n), c, map[], key, s).out, s) == Canonical(c, s)
  {
    var ks := ColumnOrder(c, s);
    OwnRow(c, s);
    LimitMeans(c, n, ks, s);
    OffsetMeans(c, n, ks, s);
    CanonicalIn(Limited(c, ks, n), ks, s);
    CanonicalIn(Skipped(c, ks, n), ks, s);
    TakeDrop(Flat(c, ks), n);
  }

  lemma CanonicalIn(c: Content, ks: seq<Column>, s: Schema)
    requires InOrder(ks, s) && In(c, ks)
    ensures Canonical(c, s) == Flat(c, ks)
  {
    OwnOrderIsPresent(c, ks, s);
    FlatOfPresent(c, ks);
  }

  lemma TakeDrop(xs: seq<Item>, n: nat)
    ensures Take(xs, n) + Drop(xs, n) == xs
  {
  }

  /** A chain is the composition of its parts, wherever it is split. */
  lemma {:induction false} ChainComposes(fs: seq<Filter>, gs: seq<Filter>, xs: seq<Item>, key: Bytes, ks: seq<Column>)
    ensures var a := ChainMeaning(fs, xs, key, ks); var b := ChainMeaning(gs, a.out, key, ks);
            ChainMeaning(fs + gs, xs, key, ks) == Flow(b.out, a.sunk + b.sunk)
  {
    if fs == [] {
      assert fs + gs == gs;
      var b := ChainMeaning(gs, xs, key, ks);
      assert [] + b.sunk == b.sunk;
    } else {
      var first := Meaning(fs[0], xs, key, ks);
      ChainComposes(fs[1..], gs, first.out, key, ks);
      assert (fs + gs)[1..] == fs[1..] + gs;
      var a := ChainMeaning(fs[1..], first.out, key, ks);
      Associative(first.sunk, a.sunk, ChainMeaning(gs, a.out, key, ks).sunk);
    }
  }

  ghost predicate Among(xs: seq<Item>, ks: seq<Column>) { forall i :: 0 <= i < |xs| ==> xs[i].k in ks }

  lemma AmongJoin(xs: seq<Item>, ys: seq<Item>, ks: seq<Column>)
    requires Among(xs, ks) && Among(ys, ks)
    ensures Among(xs + ys, ks)
  {
  }

  lemma {:induction false} SortedAmong(xs: seq<Item>, ks: seq<Column>)
    ensures Among(Sorted(xs, ks), ks)
  {
    if ks != [] {
      SortedAmong(xs, ks[1..]);
      assert ks == [ks[0]] + ks[1..];
    }
  }

  lemma {:induction false} FirstOfColumnAmong(xs: seq<Item>, n: nat, ks: seq<Column>)
    requires Among(xs, ks)
    ensures Among(FirstOfColumn(xs, n), ks)
  {
    if xs != [] { FirstOfColumnAmong(xs[..|xs| - 1], n, ks); }
  }

  lemma {:induction false} PassedAmong(cf: CellFilter, xs: seq<Item>, ks: seq<Column>)
    requires Among(xs, ks)
    ensures Among(PassedItems(cf, xs), ks)
  {
    if xs != [] { PassedAmong(cf, xs[1..], ks); }
  }

  lemma {:induction false} MeaningAmong(f: Filter, xs: seq<Item>, key: Bytes, ks: seq<Column>)
    requires Among(xs, ks)
    ensures var r := Meaning(f, xs, key, ks); Among(r.out, ks) && Among(r.sunk, ks)
    decreases f, 0
  {
    match f
    case Chain(fs) => ChainAmong(fs, xs, key, ks);
    case Interleave(fs) =>
      BranchAmong(fs, xs, key, ks);
      SortedAmong(BranchMeaning(fs, xs, key, ks).out, ks);
    case Condition(test, yes, no) =>
      var next := if Meaning(test, xs, key, ks).out != [] then yes else no;
      if next.Some? { MeaningAmong(next.value, xs, key, ks); }
    case CellsPerColumnLimit(n) => FirstOfColumnAmong(xs, n, ks);
    case PerCell(cf) => PassedAmong(cf, xs, ks);
    case _ =>
  }

  lemma {:induction false} ChainAmong(fs: seq<Filter>, xs: seq<Item>, key: Bytes, ks: seq<Column>)
    requires Among(xs, ks)
    ensures var r := ChainMeaning(fs, xs, key, ks); Among(r.out, ks) && Among(r.sunk, ks)
    decreases fs, 0
  {
    if fs != [] {
      MeaningAmong(fs[0], xs, key, ks);
      ChainAmong(fs[1..], Meaning(fs[0], xs, key, ks).out, key, ks);
    }
  }

  lemma {:induction false} BranchAmong(fs: seq<Filter>, xs: seq<Item>, key: Bytes, ks: seq<Column>)
    requires Among(xs, ks)
    ensures var r := BranchMeaning(fs, xs, key, ks); Among(r.out, ks) && Among(r.sunk, ks)
    decreases fs, 0
  {
    if fs != [] {
      MeaningAmong(fs[0], xs, key, ks);
      BranchAmong(fs[1..], xs, key, ks);
    }
  }

  lemma {:induction false} ItemsCount(k: Column, cs: seq<Cell>, x: Item)
    ensures multiset(Items(k, cs))[x] == if x.k == k then multiset(cs)[x.cell] else 0
  {
    if cs != [] {
      ItemsCount(k, cs[1..], x);
      assert Items(k, cs) == [Item(k, cs[0])] + Items(k, cs[1..]);
      assert cs == [cs[0]] + cs[1..];
    }
  }

  lemma {:induction false} OfCount(xs: seq<Item>, x: Item)
    ensures multiset(Of(xs, x.k))[x.cell] == multiset(xs)[x]
  {
    if xs != [] {
      OfCount(xs[1..], x);
      assert xs == [xs[0]] + xs[1..];
    }
  }

  lemma {:induction false} SortedCount(xs: seq<Item>, ks: seq<Column>, x: Item)
    requires Distinct(ks)
    ensures multiset(Sorted(xs, ks))[x] == if x.k in ks then multiset(xs)[x] else 0
  {
    if ks != [] {
      var head := StableDesc(Of(xs, ks[0]));
      SortedCount(xs, ks[1..], x);
      ItemsCount(ks[0], head, x);
      OfCount(xs, x);
      StableDescends(Of(xs, ks[0]));
      assert ks == [ks[0]] + ks[1..];
    }
  }

  /** Sorting keeps every cell, duplicates included. */
  lemma SortedKeeps(xs: seq<Item>, ks: seq<Column>)
    requires Distinct(ks) && Among(xs, ks)
    ensures multiset(Sorted(xs, ks)) == multiset(xs)
  {
    forall x ensures multiset(Sorted(xs, ks))[x] == multiset(xs)[x] {
      SortedCount(xs, ks, x);
      if x in multiset(xs) { assert x in xs; }
    }
  }

  /** Filtering loses nothing that passes and nothing that is sunk. */
  lemma SinksConserveCells(f: Filter, c: Content, key: Bytes, s: Schema)
    requires NoEmptyColumn(c) && Tidy(c)
    ensures var flow := Meaning(f, Canonical(c, s), key, ColumnOrder(c, s));
            multiset(Canonical(Filtered(f, c, key, s), s)) == multiset(flow.out) + multiset(flow.sunk)
  {
    var ks := ColumnOrder(c, s);
    var flow := Meaning(f, Flat(c, ks), key, ks);
    FilteredMeans(f, c, key, s);
    OwnRow(c, s);
    InOrderIsDistinct(ks, s);
    FlatColumns(c, ks);
    MeaningAmong(f, Flat(c, ks), key, ks);
    AmongJoin(flow.out, flow.sunk, ks);
    SortedKeeps(flow.out + flow.sunk, ks);
  }

  predicate NotAfter(s: Schema, a: Item, b: Item) {
    ColBefore(s, a.k, b.k) || (a.k == b.k && a.cell.ts >= b.cell.ts)
  }

  ghost predicate Ordered(r: seq<Item>, s: Schema) { forall i, j :: 0 <= i < j < |r| ==> NotAfter(s, r[i], r[j]) }

  lemma JoinOrdered(a: seq<Item>, b: seq<Item>, s: Schema)
    requires Ordered(a, s) && Ordered(b, s) && forall i, j :: 0 <= i < |a| && 0 <= j < |b| ==> NotAfter(s, a[i], b[j])
    ensures Ordered(a + b, s)
  {
  }

  /** The sort is ordered by column and then newest first. */
  lemma {:induction false} SortedIsOrdered(xs: seq<Item>, ks: seq<Column>, s: Schema)
    requires InOrder(ks, s)
    ensures Ordered(Sorted(xs, ks), s)
  {
    if ks != [] {
      var a, b := Items(ks[0], StableDesc(Of(xs, ks[0]))), Sorted(xs, ks[1..]);
      SortedIsOrdered(xs, ks[1..], s);
      StableDescends(Of(xs, ks[0]));
      SortedAmong(xs, ks[1..]);
      forall i, j | 0 <= i < |a| && 0 <= j < |b| ensures NotAfter(s, a[i], b[j]) {
        var n :| 0 <= n < |ks[1..]| && ks[1..][n] == b[j].k;
        assert ks[n + 1] == b[j].k;
      }
      JoinOrdered(a, b, s);
    }
  }

  lemma SortedIsStable(xs: seq<Item>, ks: seq<Column>, k: Column, t: int)
    requires Distinct(ks) && k in ks
    ensures AtTime(Of(Sorted(xs, ks), k), t) == AtTime(Of(xs, k), t)
  {
    OfSorted(xs, ks, k);
    StableKeepsTies(Of(xs, k), t);
  }
}
