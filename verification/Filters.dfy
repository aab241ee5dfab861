/** Row filters: their meaning on the flat sequence of a row's cells, and on its columns. */
module Filters {
  import opened Basics
  import opened Lex
  import opened Bits
  import opened Names
  import opened Columns
  import opened Mutations
  import opened Replay

  datatype Bound = Unbounded | Open(b: Bytes) | Closed(b: Bytes)

  /** Tests and changes of one cell; a regular expression is a predicate. */
  datatype CellFilter =
    | FamilyMatches(test: Name -> bool)
    | QualifierMatches(test: Name -> bool)
    | ValueMatches(check: Bytes -> bool)
    | ColumnRange(fam: Name, lo: Bound, hi: Bound)
    | TimestampRange(start: int, end: int)
    | ValueRange(lo: Bound, hi: Bound)
    | ValueBitmask(mask: Bytes)
    | StripValue
    | ApplyLabel(text: Bytes)

  datatype Filter =
    | PassAll
    | BlockAll
    | Sink
    | Chain(fs: seq<Filter>)
    | Interleave(fs: seq<Filter>)
    | Condition(test: Filter, yes: Option<Filter>, no: Option<Filter>)
    | RowKeyMatches(check: Bytes -> bool)
    | CellsPerColumnLimit(n: nat)
    | CellsPerRowLimit(n: nat)
    | CellsPerRowOffset(n: nat)
    | PerCell(cf: CellFilter)

  // ---- one cell ----

  predicate Above(lo: Bound, x: Bytes) {
    match lo
    case Unbounded => true
    case Open(b) => Less(b, x)
    case Closed(b) => AtMost(b, x)
  }

  predicate Under(hi: Bound, x: Bytes) {
    match hi
    case Unbounded => true
    case Open(b) => Less(x, b)
    case Closed(b) => AtMost(x, b)
  }

  predicate HasBits(v: byte, mask: byte) { And(v, mask) == mask }

  predicate Includes(cf: CellFilter, k: Column, c: Cell) {
    match cf
    case FamilyMatches(p) => p(k.0)
    case QualifierMatches(p) => p(k.1)
    case ValueMatches(p) => p(c.value)
    case ColumnRange(fam, lo, hi) => k.0 == fam && Above(lo, k.1) && Under(hi, k.1)
    case TimestampRange(start, end) => InTimeRange(c.ts, start, end)
    case ValueRange(lo, hi) => Above(lo, c.value) && Under(hi, c.value)
    case ValueBitmask(mask) => |mask| == |c.value| && forall i :: 0 <= i < |mask| ==> HasBits(c.value[i], mask[i])
    case StripValue => true
    case ApplyLabel(_) => true
  }

  function Modify(cf: CellFilter, c: Cell): (d: Cell)
    ensures d.ts == c.ts
  {
    match cf
    case StripValue => Cell(c.ts, [], c.labels)
    case ApplyLabel(l) => Cell(c.ts, c.value, [l])
    case _ => c
  }

  function Passed(cf: CellFilter, k: Column, cs: seq<Cell>): (r: seq<Cell>) {
    if cs == [] then []
    else if Includes(cf, k, cs[0]) then [Modify(cf, cs[0])] + Passed(cf, k, cs[1..])
    else Passed(cf, k, cs[1..])
  }

  // ---- flat rows ----

  datatype Item = Item(k: Column, cell: Cell)

  function Items(k: Column, cs: seq<Cell>): (r: seq<Item>)
    ensures |r| == |cs| && forall i :: 0 <= i < |r| ==> r[i] == Item(k, cs[i])
  {
    seq(|cs|, i requires 0 <= i < |cs| => Item(k, cs[i]))
  }

  /** The cells of a row, column by column in the order `ks`. */
  function Flat(c: Content, ks: seq<Column>): (r: seq<Item>) {
    if ks == [] then [] else Items(ks[0], Get(c, ks[0])) + Flat(c, ks[1..])
  }

  /** The cells that a flat row has in one column. */
  function Of(xs: seq<Item>, k: Column): (r: seq<Cell>) {
    if xs == [] then [] else if xs[0].k == k then [xs[0].cell] + Of(xs[1..], k) else Of(xs[1..], k)
  }

  /** One stable sort: by column in the order `ks`, then newest first. */
  function Sorted(xs: seq<Item>, ks: seq<Column>): (r: seq<Item>) {
    if ks == [] then [] else Items(ks[0], StableDesc(Of(xs, ks[0]))) + Sorted(xs, ks[1..])
  }

  // ---- the meaning of a filter on a flat row ----

  /** What a filter passes on, and what it sends to the sink. */
  datatype Flow = Flow(out: seq<Item>, sunk: seq<Item>)

  function Meaning(f: Filter, xs: seq<Item>, key: Bytes, ks: seq<Column>): (r: Flow)
    decreases f, 0
  {
    match f
    case PassAll => Flow(xs, [])
    case BlockAll => Flow([], [])
    case Sink => Flow([], xs)
    case Chain(fs) => ChainMeaning(fs, xs, key, ks)
    case Interleave(fs) => var r := BranchMeaning(fs, xs, key, ks); Flow(Sorted(r.out, ks), r.sunk)
    case Condition(test, yes, no) =>
      var next := if Meaning(test, xs, key, ks).out != [] then yes else no;
      if next.None? then Flow([], []) else Meaning(next.value, xs, key, ks)
    case RowKeyMatches(p) => Flow(if p(key) then xs else [], [])
    case CellsPerColumnLimit(n) => Flow(FirstOfColumn(xs, n), [])
    case CellsPerRowLimit(n) => Flow(Take(xs, n), [])
    case CellsPerRowOffset(n) => Flow(Drop(xs, n), [])
    case PerCell(cf) => Flow(PassedItems(cf, xs), [])
  }

  /** Composition. */
  function ChainMeaning(fs: seq<Filter>, xs: seq<Item>, key: Bytes, ks: seq<Column>): (r: Flow)
    decreases fs, 0
  {
    if fs == [] then Flow(xs, [])
    else
      var first := Meaning(fs[0], xs, key, ks);
      var rest := ChainMeaning(fs[1..], first.out, key, ks);
      Flow(rest.out, first.sunk + rest.sunk)
  }

  /** All branches on the same row, one after the other. */
  function BranchMeaning(fs: seq<Filter>, xs: seq<Item>, key: Bytes, ks: seq<Column>): (r: Flow)
    decreases fs, 0
  {
    if fs == [] then Flow([], [])
    else
      var first, rest := Meaning(fs[0], xs, key, ks), BranchMeaning(fs[1..], xs, key, ks);
      Flow(first.out + rest.out, first.sunk + rest.sunk)
  }

  function Take(xs: seq<Item>, n: nat): seq<Item> { if n <= |xs| then xs[..n] else xs }

  function Drop(xs: seq<Item>, n: nat): seq<Item> { if n <= |xs| then xs[n..] else [] }

  /** An item stays when fewer than `n` items before it are in its column. */
  function FirstOfColumn(xs: seq<Item>, n: nat): (r: seq<Item>) {
    if xs == [] then []
    else
      var init, x := xs[..|xs| - 1], xs[|xs| - 1];
      FirstOfColumn(init, n) + if |Of(init, x.k)| < n then [x] else []
  }

  function PassedItems(cf: CellFilter, xs: seq<Item>): (r: seq<Item>) {
    if xs == [] then []
    else if Includes(cf, xs[0].k, xs[0].cell) then [Item(xs[0].k, Modify(cf, xs[0].cell))] + PassedItems(cf, xs[1..])
    else PassedItems(cf, xs[1..])
  }

  // ---- evaluation on columns ----

  function TakeCells(cs: seq<Cell>, n: nat): seq<Cell> { if n <= |cs| then cs[..n] else cs }

  function DropCells(cs: seq<Cell>, n: nat): seq<Cell> { if n <= |cs| then cs[n..] else [] }

  /** The columns of `c`, each replaced by what `g` makes of it. */
  ghost function OnColumns(c: Content, g: (Column, seq<Cell>) -> seq<Cell>): Content {
    map k | k in c && g(k, c[k]) != [] :: g(k, c[k])
  }

  ghost function Merged(a: Content, b: Content): Content {
    map k | k in a.Keys + b.Keys && Get(a, k) + Get(b, k) != [] :: StableDesc(Get(a, k) + Get(b, k))
  }

  function Limited(c: Content, ks: seq<Column>, n: nat): Content {
    if ks == [] then c
    else
      var cs := TakeCells(Get(c, ks[0]), n);
      Limited(Store(c, ks[0], cs), ks[1..], n - |cs|)
  }

  function Skipped(c: Content, ks: seq<Column>, n: nat): Content {
    if ks == [] then c
    else
      var cs := Get(c, ks[0]);
      Skipped(Store(c, ks[0], DropCells(cs, n)), ks[1..], if n >= |cs| then n - |cs| else 0)
  }

  datatype Result = Result(out: Content, sink: Content)

  ghost function Eval(f: Filter, c: Content, sink: Content, key: Bytes, s: Schema): (r: Result)
    decreases f, 0
  {
    match f
    case PassAll => Result(c, sink)
    case BlockAll => Result(map[], sink)
    case Sink => Result(map[], Merged(sink, c))
    case Chain(fs) => EvalChain(fs, c, sink, key, s)
    case Interleave(fs) => EvalBranches(fs, c, map[], sink, key, s)
    case Condition(test, yes, no) =>
      var next := if Eval(test, c, map[], key, s).out != map[] then yes else no;
      if next.None? then Result(map[], sink) else Eval(next.value, c, sink, key, s)
    case RowKeyMatches(p) => Result(if p(key) then c else map[], sink)
    case CellsPerColumnLimit(n) => Result(OnColumns(c, (k, cs) => TakeCells(cs, n)), sink)
    case CellsPerRowLimit(n) => Result(Limited(c, ColumnOrder(c, s), n), sink)
    case CellsPerRowOffset(n) => Result(Skipped(c, ColumnOrder(c, s), n), sink)
    case PerCell(cf) => Result(OnColumns(c, (k, cs) => Passed(cf, k, cs)), sink)
  }

  ghost function EvalChain(fs: seq<Filter>, c: Content, sink: Content, key: Bytes, s: Schema): (r: Result)
    decreases fs, 0
  {
    if fs == [] then Result(c, sink)
    else
      var r := Eval(fs[0], c, sink, key, s);
      EvalChain(fs[1..], r.out, r.sink, key, s)
  }

  /** Each branch is merged into what the branches before it gave. */
  ghost function EvalBranches(fs: seq<Filter>, c: Content, out: Content, sink: Content, key: Bytes, s: Schema): (r: Result)
    decreases fs, 0
  {
    if fs == [] then Result(out, sink)
    else
      var r := Eval(fs[0], c, sink, key, s);
      EvalBranches(fs[1..], c, Merged(out, r.out), r.sink, key, s)
  }
}
