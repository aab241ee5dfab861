/** What mutations do to a row, on the row's content: its nonempty columns. */
module Mutations {
  import opened Basics
  import opened Lex
  import opened Names
  import opened Columns
  import opened Gc
  import opened BitStrings

  datatype Kind = NoAggregate | Sum | Least | Greatest | Hll

  datatype ColumnFamily = ColumnFamily(order: nat, rule: GcRule, kind: Kind)

  /** A table's families and granularity; `hll` adds an item (or merges a sketch) into a stored sketch
      or a fresh one, and is None when one of the sketches cannot be decoded. */
  datatype Schema = Schema(families: map<Name, ColumnFamily>, micros: bool,
                           hll: (Option<Bytes>, Bytes, bool) -> Option<Bytes>)

  datatype Input = IntInput(i: int) | RawInput(b: Bytes) | StringInput(b: Bytes) | OtherInput

  datatype Mutation =
    | SetCell(fam: Name, col: Name, ts: int, value: Bytes, auto: bool)  // auto: the client's clock
    | DeleteFromColumn(fam: Name, col: Name, range: Option<(int, int)>)
    | DeleteFromFamily(fam: Name)
    | DeleteFromRow
    | Aggregate(fam: Name, col: Name, ts: int, input: Input, auto: bool, merge: bool)
    | Unknown

  // ---- timestamps ----

  const MAX_INT64: int := 0x7FFF_FFFF_FFFF_FFFF
  const MAX_VALID: int := 9223372036854775000

  predicate ValidTs(s: Schema, ts: int) {
    if s.micros then 0 <= ts <= MAX_INT64 else 0 <= ts <= MAX_VALID && ts % 1000 == 0
  }

  function Resolve(s: Schema, ts: int, auto: bool, now: int): int {
    if ts == -1 then now
    else if auto && !s.micros && ts >= 0 then ts - ts % 1000
    else ts
  }

  // ---- 64-bit integers in cells ----

  function Wrap(x: int): int { (x + MAX_INT64 + 1) % TWO64 - MAX_INT64 - 1 }

  function EncodeInt64(x: int): Bytes { BigEndian(x % TWO64, 8) }

  function DecodeInt64(b: Bytes): int { Wrap(BytesValue(b)) }

  function Int64Input(v: Input): Option<int> {
    match v
    case IntInput(i) => Some(i)
    case RawInput(b) => if |b| == 8 then Some(DecodeInt64(b)) else None
    case _ => None
  }

  function HllItem(v: Input): Option<Bytes> {
    match v
    case IntInput(i) => Some(EncodeInt64(i))
    case RawInput(b) => Some(b)
    case StringInput(b) => Some(b)
    case OtherInput => None
  }

  function RawBytes(v: Input): Bytes { if v.RawInput? || v.StringInput? then v.b else [] }

  // ---- validation, before anything is applied ----

  predicate ValidMutation(m: Mutation, s: Schema) {
    match m
    case SetCell(fam, _, ts, _, auto) =>
      fam in s.families && s.families[fam].kind.NoAggregate? && (ts == -1 || ValidTs(s, Resolve(s, ts, auto, 0)))
    case DeleteFromColumn(fam, _, range) =>
      fam in s.families && (range.Some? ==>
        && ValidTs(s, range.value.0)
        && (range.value.1 != 0 ==> ValidTs(s, range.value.1) && range.value.0 < range.value.1))
    case DeleteFromFamily(fam) => fam in s.families
    case DeleteFromRow => true
    case Aggregate(fam, _, ts, input, auto, merge) =>
      fam in s.families && !s.families[fam].kind.NoAggregate? && ts != -1 && ValidTs(s, Resolve(s, ts, auto, 0)) &&
      if s.families[fam].kind.Hll?
      then (if merge then s.hll(None, RawBytes(input), true).Some? else HllItem(input).Some?)
      else Int64Input(input).Some?
    case Unknown => false
  }

  predicate ValidMutations(ms: seq<Mutation>, s: Schema) {
    0 < |ms| <= 100000 && forall i :: 0 <= i < |ms| ==> ValidMutation(ms[i], s)
  }

  // ---- content ----

  type Column = (Name, Name)
  type Content = map<Column, seq<Cell>>

  function Get(c: Content, k: Column): seq<Cell> { if k in c then c[k] else [] }

  function Store(c: Content, k: Column, cs: seq<Cell>): (r: Content)
    ensures Get(r, k) == cs && forall j :: j != k ==> Get(r, j) == Get(c, j)
  {
    if cs == [] then c - {k} else c[k := cs]
  }

  function DropFamily(c: Content, fam: Name): (r: Content) { map k | k in c && k.0 != fam :: c[k] }

  ghost function FamiliesIn(c: Content): set<Name> { set k | k in c :: k.0 }

  predicate NoEmptyColumn(c: Content) { forall k :: k in c ==> c[k] != [] }

  /** A row without empty columns is its columns. */
  lemma SameColumns(a: Content, b: Content)
    requires NoEmptyColumn(a) && NoEmptyColumn(b) && forall k :: Get(a, k) == Get(b, k)
    ensures a == b
  {
    forall k ensures k in a <==> k in b { assert Get(a, k) == Get(b, k); }
    forall k | k in a ensures a[k] == b[k] { assert Get(a, k) == Get(b, k); }
  }

  // ---- applying ----

  function ValueAt(cs: seq<Cell>, ts: int): (r: Option<Cell>)
    ensures r.Some? ==> r.value in cs && r.value.ts == ts
    ensures r.None? ==> !HasTs(cs, ts)
  {
    if cs == [] then None
    else if cs[0].ts == ts then Some(cs[0])
    else
      var r := ValueAt(cs[1..], ts);
      HasTsHead(cs, ts);
      r
  }

  function Combine(kind: Kind, prior: int, x: int): int {
    match kind
    case Sum => Wrap(prior + x)
    case Least => if x < prior then x else prior
    case Greatest => if x > prior then x else prior
    case _ => prior
  }

  /** The value an aggregate cell gets; None when the stored sketch is corrupt. */
  function Aggregated(s: Schema, kind: Kind, prior: Option<Bytes>, input: Input, merge: bool): Option<Bytes> {
    if kind.Hll? then
      s.hll(prior, if merge then RawBytes(input) else (if HllItem(input).Some? then HllItem(input).value else []), merge)
    else
      var x := if Int64Input(input).Some? then Int64Input(input).value else 0;
      match prior
      case None => Some(EncodeInt64(x))
      case Some(b) => Some(EncodeInt64(Combine(kind, if |b| == 8 then DecodeInt64(b) else 0, x)))
  }

  function AggregateColumn(s: Schema, kind: Kind, cs: seq<Cell>, ts: int, input: Input, merge: bool): Option<seq<Cell>> {
    var prior := ValueAt(cs, ts);
    match Aggregated(s, kind, if prior.Some? then Some(prior.value.value) else None, input, merge)
    case None => None
    case Some(v) => Some(Put(cs, if prior.Some? then prior.value.(value := v) else Cell(ts, v, [])))
  }

  /** One validated mutation; None when it fails. */
  function Apply(c: Content, m: Mutation, s: Schema, now: int): (r: Option<Content>) {
    match m
    case SetCell(fam, col, ts, value, auto) =>
      Some(Store(c, (fam, col), Put(Get(c, (fam, col)), Cell(Resolve(s, ts, auto, now), value, []))))
    case DeleteFromColumn(fam, col, range) =>
      Some(Store(c, (fam, col), if range.None? then [] else Erase(Get(c, (fam, col)), range.value.0, range.value.1)))
    case DeleteFromFamily(fam) => Some(DropFamily(c, fam))
    case DeleteFromRow => Some(map[])
    case Aggregate(fam, col, ts, input, auto, merge) =>
      if fam !in s.families then None
      else
        var cs := AggregateColumn(s, s.families[fam].kind, Get(c, (fam, col)), Resolve(s, ts, auto, 0), input, merge);
        if cs.None? then None else Some(Store(c, (fam, col), cs.value))
    case Unknown => None
  }

  function ApplyAll(c: Content, ms: seq<Mutation>, s: Schema, now: int): (r: Option<Content>) {
    if ms == [] then Some(c)
    else
      var d := ApplyAll(c, ms[..|ms| - 1], s, now);
      if d.None? then None else Apply(d.value, ms[|ms| - 1], s, now)
  }

  // ---- the changes a stream records ----

  function OrderOf(s: Schema): Name -> nat { n => if n in s.families then s.families[n].order else 0 }

  function Drops(fams: seq<Name>): (r: seq<Mutation>)
    ensures |r| == |fams| && forall i :: 0 <= i < |r| ==> r[i] == DeleteFromFamily(fams[i])
  {
    seq(|fams|, i requires 0 <= i < |fams| => DeleteFromFamily(fams[i]))
  }

  /** A set cell with its timestamp resolved, and a row deletion as one deletion per family. */
  ghost function Changes(c: Content, m: Mutation, s: Schema, now: int): seq<Mutation> {
    match m
    case SetCell(fam, col, ts, value, auto) => [SetCell(fam, col, Resolve(s, ts, auto, now), value, false)]
    case DeleteFromRow => Drops(Arrange(FamiliesIn(c), OrderOf(s)))
    case _ => [m]
  }

  ghost function AllChanges(c: Content, ms: seq<Mutation>, s: Schema, now: int): seq<Mutation>
    requires ApplyAll(c, ms, s, now).Some?
  {
    if ms == [] then []
    else
      var init := ms[..|ms| - 1];
      AllChanges(c, init, s, now) + Changes(ApplyAll(c, init, s, now).value, ms[|ms| - 1], s, now)
  }

  // ---- collecting a row ----

  function RuleOf(s: Schema, fam: Name): GcRule { if fam in s.families then s.families[fam].rule else NoRule }

  function Kept(c: Content, k: Column, s: Schema, now: int): seq<Cell> { Collected(Get(c, k), RuleOf(s, k.0), now) }

  function CollectRow(c: Content, s: Schema, now: int): (r: Content) {
    map k | k in c && Kept(c, k, s, now) != [] :: Kept(c, k, s, now)
  }

  lemma CollectRowGets(c: Content, s: Schema, now: int, k: Column)
    ensures Get(CollectRow(c, s, now), k) == Kept(c, k, s, now)
  {
  }

  // ---- what every write keeps ----

  ghost predicate GoodColumn(cs: seq<Cell>, s: Schema) {
    cs != [] && Descending(cs) && forall i :: 0 <= i < |cs| ==> ValidTs(s, cs[i].ts)
  }

  ghost predicate GoodRow(c: Content, s: Schema) {
    forall k :: k in c ==> GoodColumn(c[k], s) && k.0 in s.families
  }

  lemma PutIsGood(cs: seq<Cell>, x: Cell, s: Schema)
    requires cs == [] || GoodColumn(cs, s)
    requires ValidTs(s, x.ts)
    ensures GoodColumn(Put(cs, x), s)
  {
    PutDescends(cs, x);
    var r := Put(cs, x);
    forall i | 0 <= i < |r| ensures ValidTs(s, r[i].ts) { PutHolds(cs, x, r[i]); }
  }

  lemma EraseIsGood(cs: seq<Cell>, a: int, b: int, s: Schema)
    requires GoodColumn(cs, s)
    ensures Erase(cs, a, b) == [] || GoodColumn(Erase(cs, a, b), s)
  {
    EraseDescends(cs, a, b);
    EraseHolds(cs, a, b);
    var r := Erase(cs, a, b);
    forall i | 0 <= i < |r| ensures ValidTs(s, r[i].ts) { assert r[i] in cs; }
  }

  lemma StoreIsGood(c: Content, k: Column, cs: seq<Cell>, s: Schema)
    requires GoodRow(c, s) && k.0 in s.families && (cs == [] || GoodColumn(cs, s))
    ensures GoodRow(Store(c, k, cs), s)
  {
  }

  lemma ColumnIsGood(c: Content, k: Column, s: Schema)
    requires GoodRow(c, s)
    ensures Get(c, k) == [] || GoodColumn(Get(c, k), s)
  {
  }

  lemma ApplyKeepsRowGood(c: Content, m: Mutation, s: Schema, now: int)
    requires GoodRow(c, s) && ValidMutation(m, s) && ValidTs(s, now) && Apply(c, m, s, now).Some?
    ensures GoodRow(Apply(c, m, s, now).value, s)
  {
    match m
    case SetCell(fam, col, ts, value, auto) =>
      var k, x := (fam, col), Cell(Resolve(s, ts, auto, now), value, []);
      ColumnIsGood(c, k, s);
      PutIsGood(Get(c, k), x, s);
      StoreIsGood(c, k, Put(Get(c, k), x), s);
    case DeleteFromColumn(fam, col, range) =>
      var k := (fam, col);
      if range.Some? && k in c { EraseIsGood(c[k], range.value.0, range.value.1, s); }
      StoreIsGood(c, k, if range.None? then [] else Erase(Get(c, k), range.value.0, range.value.1), s);
    case Aggregate(fam, col, ts, input, auto, merge) =>
      var k, t := (fam, col), Resolve(s, ts, auto, 0);
      ColumnIsGood(c, k, s);
      AggregateIsGood(s, s.families[fam].kind, Get(c, k), t, input, merge);
      StoreIsGood(c, k, AggregateColumn(s, s.families[fam].kind, Get(c, k), t, input, merge).value, s);
    case _ =>
  }

  lemma AggregateIsGood(s: Schema, kind: Kind, cs: seq<Cell>, ts: int, input: Input, merge: bool)
    requires (cs == [] || GoodColumn(cs, s)) && ValidTs(s, ts) && AggregateColumn(s, kind, cs, ts, input, merge).Some?
    ensures GoodColumn(AggregateColumn(s, kind, cs, ts, input, merge).value, s)
  {
    var prior := ValueAt(cs, ts);
    var v := Aggregated(s, kind, if prior.Some? then Some(prior.value.value) else None, input, merge).value;
    PutIsGood(cs, if prior.Some? then prior.value.(value := v) else Cell(ts, v, []), s);
  }

  lemma CollectKeepsRowGood(c: Content, s: Schema, now: int)
    requires GoodRow(c, s)
    ensures GoodRow(CollectRow(c, s, now), s)
  {
  }

  lemma {:induction false} ApplyAllKeepsRowGood(c: Content, ms: seq<Mutation>, s: Schema, now: int)
    requires GoodRow(c, s) && ValidTs(s, now) && ApplyAll(c, ms, s, now).Some?
    requires forall i :: 0 <= i < |ms| ==> ValidMutation(ms[i], s)
    ensures GoodRow(ApplyAll(c, ms, s, now).value, s)
  {
    if ms != [] {
      var init := ms[..|ms| - 1];
      ApplyAllKeepsRowGood(c, init, s, now);
      ApplyKeepsRowGood(ApplyAll(c, init, s, now).value, ms[|ms| - 1], s, now);
    }
  }
}
