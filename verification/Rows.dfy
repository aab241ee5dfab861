/** How a row is held: families with sorted column names and their cells. */
module Rows {
  import opened Lex
  import opened Names
  import opened Columns
  import opened Gc
  import opened Mutations
  import opened Replay

  datatype Family = Family(order: nat, colNames: seq<Name>, cells: map<Name, seq<Cell>>)

  type Families = map<Name, Family>

  ghost function CellsIn(c: Content, fam: Name): map<Name, seq<Cell>> {
    map col | col in ColumnsIn(c, fam) :: Get(c, (fam, col))
  }

  ghost function FamilyOf(c: Content, fam: Name, s: Schema): Family {
    Family(OrderOf(s)(fam), Arrange(ColumnsIn(c, fam), ByName), CellsIn(c, fam))
  }

  /** The one representation of a row's content: no empty family, column names sorted and exactly the
      columns that hold cells. */
  ghost function Rep(c: Content, s: Schema): Families { map fam | fam in FamiliesIn(c) :: FamilyOf(c, fam, s) }

  lemma InFamilies(c: Content, fam: Name)
    ensures fam in FamiliesIn(c) <==> ColumnsIn(c, fam) != {}
  {
    if fam in FamiliesIn(c) {
      var k :| k in c && k.0 == fam;
      assert k.1 in ColumnsIn(c, fam);
    }
    if col :| col in ColumnsIn(c, fam) {
      assert (fam, col) in c;
    }
  }

  lemma InColumns(c: Content, fam: Name, col: Name)
    ensures col in ColumnsIn(c, fam) <==> (fam, col) in c
  {
  }

  /** Different contents have different representations. */
  lemma RepDetermines(a: Content, b: Content, s: Schema)
    requires Rep(a, s) == Rep(b, s)
    ensures a == b
  {
    forall k: Column ensures k in a <==> k in b {
      RepHolds(a, s, k);
      RepHolds(b, s, k);
    }
    forall k | k in a ensures a[k] == b[k] {
      RepHolds(a, s, k);
      RepHolds(b, s, k);
    }
  }

  lemma RepHolds(c: Content, s: Schema, k: Column)
    ensures k in c <==> k.0 in Rep(c, s) && k.1 in Rep(c, s)[k.0].cells
    ensures k in c ==> Rep(c, s)[k.0].cells[k.1] == c[k]
  {
    InFamilies(c, k.0);
    InColumns(c, k.0, k.1);
    assert (k.0, k.1) == k;
  }

  // ---- representation of an updated row ----

  lemma OtherFamilies(a: Content, b: Content, fam: Name, s: Schema)
    requires forall k: Column :: k.0 == fam ==> (k in a <==> k in b) && (k in a ==> a[k] == b[k])
    ensures fam in FamiliesIn(a) <==> fam in FamiliesIn(b)
    ensures FamilyOf(a, fam, s) == FamilyOf(b, fam, s)
  {
    InFamilies(a, fam);
    InFamilies(b, fam);
    assert ColumnsIn(a, fam) == ColumnsIn(b, fam) by {
      forall col ensures col in ColumnsIn(a, fam) <==> col in ColumnsIn(b, fam) {
        InColumns(a, fam, col);
        InColumns(b, fam, col);
      }
    }
    assert CellsIn(a, fam) == CellsIn(b, fam);
  }

  lemma StoreColumns(c: Content, k: Column, cs: seq<Cell>)
    ensures ColumnsIn(Store(c, k, cs), k.0) == if cs == [] then ColumnsIn(c, k.0) - {k.1} else ColumnsIn(c, k.0) + {k.1}
  {
    var d := Store(c, k, cs);
    forall col ensures col in ColumnsIn(d, k.0) <==> if cs == [] then col in ColumnsIn(c, k.0) - {k.1} else col in ColumnsIn(c, k.0) + {k.1} {
      InColumns(d, k.0, col);
      InColumns(c, k.0, col);
      assert (k.0, k.1) == k;
    }
  }

  /** The representation after one column got new cells. */
  ghost function RepStored(fs: Families, c: Content, k: Column, cs: seq<Cell>, s: Schema): Families {
    var f := FamilyOf(c, k.0, s);
    if cs != [] then
      fs[k.0 := Family(f.order, Arrange(f.cells.Keys + {k.1}, ByName), f.cells[k.1 := cs])]
    else if f.cells.Keys - {k.1} == {} then fs - {k.0}
    else fs[k.0 := Family(f.order, Arrange(f.cells.Keys - {k.1}, ByName), f.cells - {k.1})]
  }

  /** Two rows hold family `fam` alike. */
  ghost predicate Alike(a: Families, b: Families, fam: Name) {
    (fam in a <==> fam in b) && (fam in a ==> a[fam] == b[fam])
  }

  lemma AlikeEverywhere(a: Families, b: Families)
    requires forall fam :: Alike(a, b, fam)
    ensures a == b
  {
    assert forall fam :: Alike(a, b, fam) ==> (fam in a <==> fam in b);
    assert a.Keys == b.Keys;
    assert forall fam | fam in a.Keys :: Alike(a, b, fam) && a[fam] == b[fam];
  }

  lemma RepOther(a: Content, b: Content, fam: Name, s: Schema)
    requires forall k: Column :: k.0 == fam ==> (k in a <==> k in b) && (k in a ==> a[k] == b[k])
    ensures Alike(Rep(a, s), Rep(b, s), fam)
  {
    OtherFamilies(a, b, fam, s);
  }

  lemma StoredFamily(c: Content, k: Column, cs: seq<Cell>, s: Schema)
    ensures Alike(Rep(Store(c, k, cs), s), RepStored(Rep(c, s), c, k, cs, s), k.0)
  {
    var d := Store(c, k, cs);
    StoreColumns(c, k, cs);
    InFamilies(d, k.0);
    StoreCells(c, k, cs);
    assert CellsIn(c, k.0).Keys == ColumnsIn(c, k.0);
  }

  lemma StoredElsewhere(c: Content, k: Column, cs: seq<Cell>, s: Schema, fam: Name)
    requires fam != k.0
    ensures Alike(Rep(Store(c, k, cs), s), RepStored(Rep(c, s), c, k, cs, s), fam)
  {
    RepOther(Store(c, k, cs), c, fam, s);
    RepStoredElsewhere(Rep(c, s), c, k, cs, s, fam);
  }

  lemma RepStoredElsewhere(fs: Families, c: Content, k: Column, cs: seq<Cell>, s: Schema, fam: Name)
    requires fam != k.0
    ensures Alike(fs, RepStored(fs, c, k, cs, s), fam)
  {
  }

  lemma RepOfStore(c: Content, k: Column, cs: seq<Cell>, s: Schema)
    ensures Rep(Store(c, k, cs), s) == RepStored(Rep(c, s), c, k, cs, s)
  {
    var d := Store(c, k, cs);
    var a, b := Rep(d, s), RepStored(Rep(c, s), c, k, cs, s);
    forall fam ensures Alike(a, b, fam) {
      if fam == k.0 { StoredFamily(c, k, cs, s); } else { StoredElsewhere(c, k, cs, s, fam); }
    }
    AlikeEverywhere(a, b);
  }

  lemma StoreCells(c: Content, k: Column, cs: seq<Cell>)
    ensures CellsIn(Store(c, k, cs), k.0) == if cs == [] then CellsIn(c, k.0) - {k.1} else CellsIn(c, k.0)[k.1 := cs]
  {
    StoreColumns(c, k, cs);
    assert (k.0, k.1) == k;
  }

  lemma DroppedElsewhere(c: Content, fam: Name, s: Schema, g: Name)
    requires g != fam
    ensures Alike(Rep(DropFamily(c, fam), s), Rep(c, s) - {fam}, g)
  {
    RepOther(DropFamily(c, fam), c, g, s);
    DropElsewhere(Rep(c, s), fam, g);
  }

  lemma DropElsewhere(fs: Families, fam: Name, g: Name)
    requires g != fam
    ensures Alike(fs, fs - {fam}, g)
  {
  }

  lemma DroppedFamily(c: Content, fam: Name, s: Schema)
    ensures fam !in Rep(DropFamily(c, fam), s)
  {
    InFamilies(DropFamily(c, fam), fam);
  }

  lemma RepOfDrop(c: Content, fam: Name, s: Schema)
    ensures Rep(DropFamily(c, fam), s) == Rep(c, s) - {fam}
  {
    var a, b := Rep(DropFamily(c, fam), s), Rep(c, s) - {fam};
    forall g ensures Alike(a, b, g) {
      if g == fam { DroppedFamily(c, fam, s); } else { DroppedElsewhere(c, fam, s, g); }
    }
    AlikeEverywhere(a, b);
  }

  // ---- normalizing ----

  ghost function NormalCells(cells: map<Name, seq<Cell>>): map<Name, seq<Cell>> {
    map col | col in cells && cells[col] != [] :: StableDesc(cells[col])
  }

  ghost function NormalFamily(f: Family): Family {
    Family(f.order, Arrange(NormalCells(f.cells).Keys, ByName), NormalCells(f.cells))
  }

  /** Columns and cells sorted, and nothing empty. */
  ghost function Normal(fs: Families): Families { NormalOn(fs, fs.Keys) }

  ghost function NormalOn(fs: Families, keys: set<Name>): Families {
    map fam | fam in keys && fam in fs && NormalCells(fs[fam].cells) != map[] :: NormalFamily(fs[fam])
  }

  lemma NormalOneMore(fs: Families, keys: set<Name>, fam: Name)
    requires fam in fs
    ensures NormalOn(fs, keys + {fam}) ==
              if NormalCells(fs[fam].cells) != map[] then NormalOn(fs, keys)[fam := NormalFamily(fs[fam])]
              else NormalOn(fs, keys)
  {
    var a, b := NormalOn(fs, keys + {fam}), NormalOn(fs, keys);
    forall g ensures g in a <==> g in b || (g == fam && NormalCells(fs[fam].cells) != map[]) { }
  }

  method NormalizeFamily(f: Family) returns (g: Family)
    ensures g == NormalFamily(f)
  {
    var cells: map<Name, seq<Cell>> := map[];
    var todo := f.cells.Keys;
    while todo != {}
      invariant todo <= f.cells.Keys
      invariant cells == map col | col in f.cells && col !in todo && f.cells[col] != [] :: StableDesc(f.cells[col])
      decreases |todo|
    {
      var col :| col in todo;
      if f.cells[col] != [] {
        var cs := SortStable(f.cells[col]);
        cells := cells[col := cs];
      }
      todo := todo - {col};
    }
    assert cells == NormalCells(f.cells);
    var names := SortNames(cells.Keys, ByName);
    g := Family(f.order, names, cells);
  }

  method Normalize(fs: Families) returns (r: Families)
    ensures r == Normal(fs)
  {
    r := map[];
    var todo := fs.Keys;
    assert NormalOn(fs, {}) == map[];
    ghost var done := {};
    while todo != {}
      invariant todo <= fs.Keys && done + todo == fs.Keys && r == NormalOn(fs, done)
      decreases |todo|
    {
      var fam :| fam in todo;
      var g := NormalizeFamily(fs[fam]);
      NormalOneMore(fs, done, fam);
      if g.cells != map[] {
        r := r[fam := g];
      }
      todo, done := todo - {fam}, done + {fam};
    }
  }

  /** What a family map holds in a column, empty columns included. */
  function Held(fs: Families, k: Column): seq<Cell> {
    if k.0 in fs && k.1 in fs[k.0].cells then fs[k.0].cells[k.1] else []
  }

  /** `fs` holds the content `d`, perhaps with empty columns and stale column names. */
  ghost predicate Loosely(fs: Families, d: Content, s: Schema) {
    && NoEmptyColumn(d)
    && (forall k: Column :: Held(fs, k) == Get(d, k))
    && (forall fam :: fam in fs ==> fs[fam].order == OrderOf(s)(fam))
  }

  /** Every column sorted. */
  ghost function SortedColumns(d: Content): Content { map k | k in d :: StableDesc(d[k]) }

  lemma NormalCellsAre(fs: Families, d: Content, s: Schema, fam: Name)
    requires Loosely(fs, d, s) && fam in fs
    ensures NormalCells(fs[fam].cells) == CellsIn(SortedColumns(d), fam)
  {
    var a, b := NormalCells(fs[fam].cells), CellsIn(SortedColumns(d), fam);
    forall col ensures (col in a <==> col in b) && (col in a ==> a[col] == b[col]) {
      InColumns(SortedColumns(d), fam, col);
      assert Held(fs, (fam, col)) == Get(d, (fam, col));
    }
    assert a.Keys == b.Keys;
  }

  lemma NormalFamilyIs(fs: Families, d: Content, s: Schema, fam: Name)
    requires Loosely(fs, d, s)
    ensures Alike(Normal(fs), Rep(SortedColumns(d), s), fam)
  {
    var e := SortedColumns(d);
    InFamilies(e, fam);
    assert CellsIn(e, fam).Keys == ColumnsIn(e, fam);
    if fam in fs {
      NormalCellsAre(fs, d, s, fam);
    } else {
      forall col ensures col !in ColumnsIn(e, fam) {
        InColumns(e, fam, col);
        assert Held(fs, (fam, col)) == Get(d, (fam, col));
      }
      assert ColumnsIn(e, fam) == {};
    }
  }

  /** Normalizing gives the representation of what is held, sorted. */
  lemma NormalSorts(fs: Families, d: Content, s: Schema)
    requires Loosely(fs, d, s)
    ensures Normal(fs) == Rep(SortedColumns(d), s)
  {
    var e := SortedColumns(d);
    forall fam ensures Alike(Normal(fs), Rep(e, s), fam) { NormalFamilyIs(fs, d, s, fam); }
    AlikeEverywhere(Normal(fs), Rep(e, s));
  }

  lemma NormalIsRep(fs: Families, d: Content, s: Schema)
    requires Loosely(fs, d, s) && forall k :: k in d ==> WeaklyDescending(d[k])
    ensures Normal(fs) == Rep(d, s)
  {
    NormalSorts(fs, d, s);
    forall k | k in d ensures StableDesc(d[k]) == d[k] { StableOfDescending(d[k]); }
    assert SortedColumns(d) == d;
  }
}
