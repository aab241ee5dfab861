/** What each filter leaves of a row, in terms of the cells themselves. */
module FilterLaws {
  import opened Basics
  import opened Lex
  import opened Bits
  import opened Names
  import opened Columns
  import opened Mutations
  import opened Replay
  import opened Filters
  import opened FilterMeaning
  import FilterEngine

  ghost predicate IsRow(c: Content) { NoEmptyColumn(c) && Tidy(c) }

  // ---- filters that sink nothing ----

  lemma MergedAt(a: Content, b: Content, k: Column)
    ensures Get(Merged(a, b), k) == StableDesc(Get(a, k) + Get(b, k))
  {
  }

  lemma MergedHasNoEmptyColumn(a: Content, b: Content)
    ensures NoEmptyColumn(Merged(a, b))
  {
    forall k | k in Merged(a, b) ensures Merged(a, b)[k] != [] { StableDescends(Get(a, k) + Get(b, k)); }
  }

  lemma AloneAt(d: Content, k: Column)
    requires IsRow(d)
    ensures StableDesc(Get(d, k) + []) == StableDesc([] + Get(d, k)) == Get(d, k)
  {
    assert Get(d, k) + [] == Get(d, k) == [] + Get(d, k);
    StableOfDescending(Get(d, k));
  }

  /** Merging a row with nothing, or nothing with a row, changes nothing. */
  lemma MergedWithNothing(d: Content)
    requires IsRow(d)
    ensures Merged(d, map[]) == Merged(map[], d) == d
  {
    var l, r := Merged(d, map[]), Merged(map[], d);
    MergedHasNoEmptyColumn(d, map[]);
    MergedHasNoEmptyColumn(map[], d);
    forall k: Column ensures Get(l, k) == Get(r, k) == Get(d, k) {
      AloneAt(d, k);
      MergedAt(d, map[], k);
      MergedAt(map[], d, k);
    }
    SameColumns(l, d);
    SameColumns(r, d);
  }

  lemma EvalIsRow(f: Filter, c: Content, key: Bytes, s: Schema)
    requires IsRow(c)
    ensures IsRow(Eval(f, c, map[], key, s).out)
  {
    var ks := ColumnOrder(c, s);
    OwnRow(c, s);
    EmptyRow(ks);
    EvalMeans(f, c, map[], key, s, ks);
  }

  /** A filter that sinks nothing leaves what it passes. */
  lemma FilteredPasses(f: Filter, c: Content, key: Bytes, s: Schema)
    requires IsRow(c) && Eval(f, c, map[], key, s).sink == map[]
    ensures Filtered(f, c, key, s) == Eval(f, c, map[], key, s).out
  {
    EvalIsRow(f, c, key, s);
    MergedWithNothing(Eval(f, c, map[], key, s).out);
  }

  lemma CellsPass(cf: CellFilter, c: Content, key: Bytes, s: Schema, k: Column)
    requires IsRow(c)
    ensures Get(Filtered(PerCell(cf), c, key, s), k) == Passed(cf, k, Get(c, k))
  {
    FilteredPasses(PerCell(cf), c, key, s);
  }

  // ---- filters by family and qualifier ----

  lemma {:induction false} AllPass(cf: CellFilter, k: Column, cs: seq<Cell>)
    requires forall i :: 0 <= i < |cs| ==> Includes(cf, k, cs[i]) && Modify(cf, cs[i]) == cs[i]
    ensures Passed(cf, k, cs) == cs
  {
    if cs != [] { AllPass(cf, k, cs[1..]); }
  }

  lemma {:induction false} NonePass(cf: CellFilter, k: Column, cs: seq<Cell>)
    requires forall i :: 0 <= i < |cs| ==> !Includes(cf, k, cs[i])
    ensures Passed(cf, k, cs) == []
  {
    if cs != [] { NonePass(cf, k, cs[1..]); }
  }

  /** `x` is not before the lower bound and not behind the upper one. */
  ghost predicate Between(lo: Bound, x: Bytes, hi: Bound) {
    && (lo.Open? ==> FirstDiffers(lo.b, x)) && (lo.Closed? ==> !FirstDiffers(x, lo.b))
    && (hi.Open? ==> FirstDiffers(x, hi.b)) && (hi.Closed? ==> !FirstDiffers(hi.b, x))
  }

  lemma BoundsMean(lo: Bound, x: Bytes, hi: Bound)
    ensures Above(lo, x) && Under(hi, x) <==> Between(lo, x, hi)
  {
    if lo.Open? { LessMeans(lo.b, x); }
    if lo.Closed? { LessMeans(x, lo.b); CompareAntisymmetric(lo.b, x); }
    if hi.Open? { LessMeans(x, hi.b); }
    if hi.Closed? { LessMeans(hi.b, x); CompareAntisymmetric(hi.b, x); }
  }

  /** A column range keeps the columns of its family between its bounds, whole, and no other. */
  lemma ColumnRangeKeeps(c: Content, fam: Name, lo: Bound, hi: Bound, key: Bytes, s: Schema, k: Column)
    requires IsRow(c)
    ensures Get(Filtered(PerCell(ColumnRange(fam, lo, hi)), c, key, s), k) ==
              if k.0 == fam && Between(lo, k.1, hi) then Get(c, k) else []
  {
    var cf := ColumnRange(fam, lo, hi);
    CellsPass(cf, c, key, s, k);
    BoundsMean(lo, k.1, hi);
    if k.0 == fam && Between(lo, k.1, hi) { AllPass(cf, k, Get(c, k)); } else { NonePass(cf, k, Get(c, k)); }
  }

  /** A test of family or qualifier keeps whole columns. */
  lemma NamesKeep(c: Content, test: Name -> bool, key: Bytes, s: Schema, k: Column)
    requires IsRow(c)
    ensures Get(Filtered(PerCell(FamilyMatches(test)), c, key, s), k) == if test(k.0) then Get(c, k) else []
    ensures Get(Filtered(PerCell(QualifierMatches(test)), c, key, s), k) == if test(k.1) then Get(c, k) else []
  {
    var f, q := FamilyMatches(test), QualifierMatches(test);
    CellsPass(f, c, key, s, k);
    CellsPass(q, c, key, s, k);
    if test(k.0) { AllPass(f, k, Get(c, k)); } else { NonePass(f, k, Get(c, k)); }
    if test(k.1) { AllPass(q, k, Get(c, k)); } else { NonePass(q, k, Get(c, k)); }
  }

  // ---- filters by time and value ----

  /** How often a row has a cell in a column. */
  ghost function Count(c: Content, k: Column, x: Cell): nat { multiset(Get(c, k))[x] }

  predicate Tests(cf: CellFilter) { !cf.StripValue? && !cf.ApplyLabel? }

  lemma {:induction false} PassedCount(cf: CellFilter, k: Column, cs: seq<Cell>, x: Cell)
    requires Tests(cf)
    ensures multiset(Passed(cf, k, cs))[x] == if Includes(cf, k, x) then multiset(cs)[x] else 0
  {
    if cs != [] {
      PassedCount(cf, k, cs[1..], x);
      assert cs == [cs[0]] + cs[1..];
    }
  }

  lemma TestKeeps(cf: CellFilter, c: Content, key: Bytes, s: Schema, k: Column, x: Cell, keep: bool)
    requires IsRow(c) && Tests(cf) && Includes(cf, k, x) == keep
    ensures Count(Filtered(PerCell(cf), c, key, s), k, x) == if keep then Count(c, k, x) else 0
  {
    CellsPass(cf, c, key, s, k);
    PassedCount(cf, k, Get(c, k), x);
  }

  /** A timestamp range keeps the cells from its start up to its end, which is open; 0 is no end. */
  lemma TimesKeep(c: Content, start: int, end: int, key: Bytes, s: Schema, k: Column, x: Cell)
    requires IsRow(c)
    ensures Count(Filtered(PerCell(TimestampRange(start, end)), c, key, s), k, x) ==
              if start <= x.ts && (end != 0 ==> x.ts < end) then Count(c, k, x) else 0
  {
    var keep := start <= x.ts && (end != 0 ==> x.ts < end);
    TestKeeps(TimestampRange(start, end), c, key, s, k, x, keep);
  }

  /** A value range keeps the cells with a value between its bounds. */
  lemma ValueRangeKeeps(c: Content, lo: Bound, hi: Bound, key: Bytes, s: Schema, k: Column, x: Cell)
    requires IsRow(c)
    ensures Count(Filtered(PerCell(ValueRange(lo, hi)), c, key, s), k, x) ==
              if Between(lo, x.value, hi) then Count(c, k, x) else 0
  {
    var keep := Between(lo, x.value, hi);
    ValueRangeIncludes(lo, hi, k, x, keep);
    TestKeeps(ValueRange(lo, hi), c, key, s, k, x, keep);
  }

  lemma ValueRangeIncludes(lo: Bound, hi: Bound, k: Column, x: Cell, keep: bool)
    requires keep == Between(lo, x.value, hi)
    ensures Includes(ValueRange(lo, hi), k, x) == keep
  {
    BoundsMean(lo, x.value, hi);
  }

  lemma ValuesKeep(c: Content, check: Bytes -> bool, key: Bytes, s: Schema, k: Column, x: Cell)
    requires IsRow(c)
    ensures Count(Filtered(PerCell(ValueMatches(check)), c, key, s), k, x) == if check(x.value) then Count(c, k, x) else 0
  {
    TestKeeps(ValueMatches(check), c, key, s, k, x, check(x.value));
  }

  /** Every bit that is set in the mask is set in the value, and they are equally long. */
  ghost predicate HasMask(v: Bytes, mask: Bytes) {
    |v| == |mask| && forall i, j: nat :: 0 <= i < |v| && Bit(mask[i], j) ==> Bit(v[i], j)
  }

  lemma MaskIncludes(mask: Bytes, k: Column, x: Cell, keep: bool)
    requires keep == HasMask(x.value, mask)
    ensures Includes(ValueBitmask(mask), k, x) == keep
  {
    if |x.value| == |mask| {
      forall i | 0 <= i < |mask|
        ensures HasBits(x.value[i], mask[i]) <==> forall j: nat :: Bit(mask[i], j) ==> Bit(x.value[i], j)
      {
        MaskMeans(x.value[i], mask[i]);
      }
    }
  }

  /** A bit mask keeps the cells whose value has all its bits. */
  lemma MaskKeeps(c: Content, mask: Bytes, key: Bytes, s: Schema, k: Column, x: Cell)
    requires IsRow(c)
    ensures Count(Filtered(PerCell(ValueBitmask(mask)), c, key, s), k, x) ==
              if HasMask(x.value, mask) then Count(c, k, x) else 0
  {
    var keep := HasMask(x.value, mask);
    MaskIncludes(mask, k, x, keep);
    TestKeeps(ValueBitmask(mask), c, key, s, k, x, keep);
  }

  // ---- transformers ----

  lemma {:induction false} AllChange(cf: CellFilter, k: Column, cs: seq<Cell>)
    requires !Tests(cf)
    ensures |Passed(cf, k, cs)| == |cs| && forall i :: 0 <= i < |cs| ==> Passed(cf, k, cs)[i] == Modify(cf, cs[i])
  {
    if cs != [] { AllChange(cf, k, cs[1..]); }
  }

  /** Stripping empties every value and changes nothing else. */
  lemma StripChanges(c: Content, key: Bytes, s: Schema, k: Column)
    requires IsRow(c)
    ensures var r := Get(Filtered(PerCell(StripValue), c, key, s), k);
            |r| == |Get(c, k)| && forall i :: 0 <= i < |r| ==> r[i] == Get(c, k)[i].(value := [])
  {
    CellsPass(StripValue, c, key, s, k);
    AllChange(StripValue, k, Get(c, k));
  }

  /** A label becomes the only label of every cell, and nothing else changes. */
  lemma LabelChanges(c: Content, text: Bytes, key: Bytes, s: Schema, k: Column)
    requires IsRow(c)
    ensures var r := Get(Filtered(PerCell(ApplyLabel(text)), c, key, s), k);
            |r| == |Get(c, k)| && forall i :: 0 <= i < |r| ==> r[i] == Get(c, k)[i].(labels := [text])
  {
    CellsPass(ApplyLabel(text), c, key, s, k);
    AllChange(ApplyLabel(text), k, Get(c, k));
  }

  // ---- filters of whole rows ----

  /** Passing and sinking keep the row, blocking nothing, and a test of the key keeps or drops it. */
  lemma RowsKeep(c: Content, check: Bytes -> bool, key: Bytes, s: Schema)
    requires IsRow(c)
    ensures Filtered(PassAll, c, key, s) == Filtered(Sink, c, key, s) == c && Filtered(BlockAll, c, key, s) == map[]
    ensures Filtered(RowKeyMatches(check), c, key, s) == if check(key) then c else map[]
  {
    MergedWithNothing(c);
    MergedWithNothing(map[]);
  }

  /** A column limit keeps the newest cells of every column. */
  lemma ColumnLimitKeeps(c: Content, n: nat, key: Bytes, s: Schema, k: Column)
    requires IsRow(c)
    ensures Get(Filtered(CellsPerColumnLimit(n), c, key, s), k) == if |Get(c, k)| <= n then Get(c, k) else Get(c, k)[..n]
  {
    FilteredPasses(CellsPerColumnLimit(n), c, key, s);
  }

  lemma CanonicalOut(f: Filter, c: Content, key: Bytes, s: Schema)
    requires IsRow(c) && Eval(f, c, map[], key, s).sink == map[]
    ensures Canonical(Filtered(f, c, key, s), s) == Meaning(f, Canonical(c, s), key, ColumnOrder(c, s)).out
  {
    var ks := ColumnOrder(c, s);
    FilteredPasses(f, c, key, s);
    OwnRow(c, s);
    EmptyRow(ks);
    EvalMeans(f, c, map[], key, s, ks);
    CanonicalIn(Eval(f, c, map[], key, s).out, ks, s);
  }

  /** A row limit keeps the first cells of the row, an offset all others. */
  lemma RowLimitKeeps(c: Content, n: nat, key: Bytes, s: Schema)
    requires IsRow(c)
    ensures var all := Canonical(c, s); Canonical(Filtered(CellsPerRowLimit(n), c, key, s), s) == all[..Min(n, |all|)]
  {
    CanonicalOut(CellsPerRowLimit(n), c, key, s);
  }

  lemma RowOffsetKeeps(c: Content, n: nat, key: Bytes, s: Schema)
    requires IsRow(c)
    ensures var all := Canonical(c, s); Canonical(Filtered(CellsPerRowOffset(n), c, key, s), s) == all[Min(n, |all|)..]
  {
    CanonicalOut(CellsPerRowOffset(n), c, key, s);
  }

  // ---- combinations ----

  predicate SinkFree(f: Filter)
    decreases f
  {
    match f
    case Sink => false
    case Chain(fs) => forall i :: 0 <= i < |fs| ==> SinkFree(fs[i])
    case Interleave(fs) => forall i :: 0 <= i < |fs| ==> SinkFree(fs[i])
    case Condition(test, yes, no) => (yes.Some? ==> SinkFree(yes.value)) && (no.Some? ==> SinkFree(no.value))
    case _ => true
  }

  lemma {:induction false} NothingIsSunk(f: Filter, c: Content, sink: Content, key: Bytes, s: Schema)
    requires SinkFree(f)
    ensures Eval(f, c, sink, key, s).sink == sink
    decreases f, 0
  {
    match f
    case Chain(fs) => ChainSinksNothing(fs, c, sink, key, s);
    case Interleave(fs) => BranchesSinkNothing(fs, c, map[], sink, key, s);
    case Condition(test, yes, no) =>
      if yes.Some? { NothingIsSunk(yes.value, c, sink, key, s); }
      if no.Some? { NothingIsSunk(no.value, c, sink, key, s); }
    case _ =>
  }

  lemma {:induction false} ChainSinksNothing(fs: seq<Filter>, c: Content, sink: Content, key: Bytes, s: Schema)
    requires forall i :: 0 <= i < |fs| ==> SinkFree(fs[i])
    ensures EvalChain(fs, c, sink, key, s).sink == sink
    decreases fs, 0
  {
    if fs != [] {
      NothingIsSunk(fs[0], c, sink, key, s);
      ChainSinksNothing(fs[1..], Eval(fs[0], c, sink, key, s).out, sink, key, s);
    }
  }

  lemma {:induction false} BranchesSinkNothing(fs: seq<Filter>, c: Content, out: Content, sink: Content, key: Bytes,
                                               s: Schema)
    requires forall i :: 0 <= i < |fs| ==> SinkFree(fs[i])
    ensures EvalBranches(fs, c, out, sink, key, s).sink == sink
    decreases fs, 0
  {
    if fs != [] {
      NothingIsSunk(fs[0], c, sink, key, s);
      BranchesSinkNothing(fs[1..], c, Merged(out, Eval(fs[0], c, sink, key, s).out), sink, key, s);
    }
  }

  /** What is accepted inside a condition has no sink. */
  lemma {:induction false} AcceptedInCondition(f: Filter, depth: nat)
    requires FilterEngine.Acceptable(f, depth, true)
    ensures SinkFree(f)
    decreases f
  {
    match f
    case Chain(fs) => forall i | 0 <= i < |fs| ensures SinkFree(fs[i]) { AcceptedInCondition(fs[i], depth + 1); }
    case Interleave(fs) => forall i | 0 <= i < |fs| ensures SinkFree(fs[i]) { AcceptedInCondition(fs[i], depth + 1); }
    case Condition(test, yes, no) =>
      if yes.Some? { AcceptedInCondition(yes.value, depth + 1); }
      if no.Some? { AcceptedInCondition(no.value, depth + 1); }
    case _ =>
  }

  lemma PassesOn(f: Filter, c: Content, key: Bytes, s: Schema)
    requires IsRow(c) && SinkFree(f)
    ensures Eval(f, c, map[], key, s) == Result(Filtered(f, c, key, s), map[]) && IsRow(Filtered(f, c, key, s))
  {
    NothingIsSunk(f, c, map[], key, s);
    FilteredPasses(f, c, key, s);
    EvalIsRow(f, c, key, s);
  }

  lemma ChainOfTwo(f: Filter, g: Filter, c: Content, sink: Content, key: Bytes, s: Schema)
    ensures var r := Eval(f, c, sink, key, s); Eval(Chain([f, g]), c, sink, key, s) == Eval(g, r.out, r.sink, key, s)
  {
    var r := Eval(f, c, sink, key, s);
    assert [f, g][1..] == [g] && [g][1..] == [];
    assert EvalChain([g], r.out, r.sink, key, s) == Eval(g, r.out, r.sink, key, s);
  }

  /** A chain of two filters is one after the other. */
  lemma ChainFilters(f: Filter, g: Filter, c: Content, key: Bytes, s: Schema)
    requires IsRow(c) && SinkFree(f) && SinkFree(g)
    ensures Filtered(Chain([f, g]), c, key, s) == Filtered(g, Filtered(f, c, key, s), key, s)
  {
    ChainOfTwo(f, g, c, map[], key, s);
    PassesOn(f, c, key, s);
    var d := Filtered(f, c, key, s);
    PassesOn(g, d, key, s);
    FilteredPasses(Chain([f, g]), c, key, s);
  }

  lemma ConditionIs(test: Filter, yes: Option<Filter>, no: Option<Filter>, c: Content, sink: Content, key: Bytes, s: Schema)
    ensures var next := if Eval(test, c, map[], key, s).out != map[] then yes else no;
            Eval(Condition(test, yes, no), c, sink, key, s) ==
              if next.None? then Result(map[], sink) else Eval(next.value, c, sink, key, s)
  {
  }

  /** What a condition leaves is what its first branch leaves when the test leaves a cell, and what its
      second leaves otherwise; a missing branch leaves nothing. */
  lemma ConditionChooses(test: Filter, yes: Filter, no: Filter, c: Content, key: Bytes, s: Schema)
    requires IsRow(c) && SinkFree(test)
    ensures Filtered(test, c, key, s) != map[] ==>
              && Filtered(Condition(test, Some(yes), Some(no)), c, key, s) == Filtered(yes, c, key, s)
              && Filtered(Condition(test, None, Some(no)), c, key, s) == map[]
    ensures Filtered(test, c, key, s) == map[] ==>
              && Filtered(Condition(test, Some(yes), Some(no)), c, key, s) == Filtered(no, c, key, s)
              && Filtered(Condition(test, Some(yes), None), c, key, s) == map[]
  {
    PassesOn(test, c, key, s);
    ConditionIs(test, Some(yes), Some(no), c, map[], key, s);
    ConditionIs(test, None, Some(no), c, map[], key, s);
    ConditionIs(test, Some(yes), None, c, map[], key, s);
    MergedWithNothing(map[]);
  }

  /** Interleaved branches add up: every cell is there as often as all branches leave it. */
  ghost function CountAll(fs: seq<Filter>, c: Content, key: Bytes, s: Schema, x: Item): nat {
    if fs == [] then 0 else multiset(Canonical(Filtered(fs[0], c, key, s), s))[x] + CountAll(fs[1..], c, key, s, x)
  }

  lemma {:induction false} BranchesAdd(fs: seq<Filter>, c: Content, key: Bytes, s: Schema, x: Item)
    requires IsRow(c)
    ensures var r := BranchMeaning(fs, Canonical(c, s), key, ColumnOrder(c, s));
            multiset(r.out)[x] + multiset(r.sunk)[x] == CountAll(fs, c, key, s, x)
  {
    if fs != [] {
      BranchesAdd(fs[1..], c, key, s, x);
      SinksConserveCells(fs[0], c, key, s);
    }
  }

  lemma InterleaveAdds(fs: seq<Filter>, c: Content, key: Bytes, s: Schema, x: Item)
    requires IsRow(c)
    ensures multiset(Canonical(Filtered(Interleave(fs), c, key, s), s))[x] == CountAll(fs, c, key, s, x)
  {
    var ks := ColumnOrder(c, s);
    SinksConserveCells(Interleave(fs), c, key, s);
    BranchesAdd(fs, c, key, s, x);
    OwnRow(c, s);
    InOrderIsDistinct(ks, s);
    FlatColumns(c, ks);
    BranchAmong(fs, Canonical(c, s), key, ks);
    SortedKeeps(BranchMeaning(fs, Canonical(c, s), key, ks).out, ks);
  }
}
