/** Key-range pushdown: the rows a WHERE clause can make TRUE lie in ranges computed from it. */
module KeyRanges {
  import opened Basics
  import opened Lex
  import opened LikePattern
  import opened Values

  // ---- the WHERE clause ----

  /** A row of the source table: its key, which is column 0, and the other columns. */
  datatype Row = Row(key: Bytes, columns: seq<Value>)

  /** What evaluating a BYTES operand yields. */
  datatype Bound = Fails | IsNull | Is(b: Bytes)
  datatype Elements = NoArray(fails: bool) | Elems(elems: seq<Option<Bytes>>)

  /** The row key, an expression without column references, or any other expression. */
  datatype Operand = KeyColumn | Constant(v: Bound) | PerRow(f: Row -> Bound)
  datatype ArrayOperand = ConstantArray(a: Elements) | PerRowArray(f: Row -> Elements)

  datatype Op = Eq | Lt | Le | Gt | Ge
  datatype Truth = Error | Unknown | True | False

  datatype Expr =
    | And(l: Expr, r: Expr)
    | Or(l: Expr, r: Expr)
    | Cmp(op: Op, x: Operand, y: Operand)
    | In(x: Operand, list: seq<Operand>)
    | InUnnest(x: Operand, arr: ArrayOperand)
    | Between(x: Operand, lo: Operand, hi: Operand)
    | StartsWith(x: Operand, pre: Operand)
    | LikeExpr(x: Operand, pat: Operand)
    | Other(f: Row -> Truth)

  function Eval1(o: Operand, row: Row): Bound {
    match o
    case KeyColumn => Is(row.key)
    case Constant(v) => v
    case PerRow(f) => f(row)
  }

  function Decide(b: bool): Truth { if b then True else False }

  predicate Holds(op: Op, x: Bytes, y: Bytes) {
    match op
    case Eq => x == y
    case Lt => Less(x, y)
    case Le => AtMost(x, y)
    case Gt => Less(y, x)
    case Ge => AtMost(y, x)
  }

  /** Membership with three-valued logic. */
  function InResult(x: Bound, vals: seq<Bound>): Truth
    requires !x.Fails? && forall i :: 0 <= i < |vals| ==> !vals[i].Fails?
  {
    if x.IsNull? then Unknown
    else if x in vals then True
    else if IsNull in vals then Unknown
    else False
  }

  function ElementBounds(es: seq<Option<Bytes>>): (r: seq<Bound>)
    ensures |r| == |es| && forall i :: 0 <= i < |r| ==> r[i] == if es[i].None? then IsNull else Is(es[i].value)
  {
    seq(|es|, i requires 0 <= i < |es| => if es[i].None? then IsNull else Is(es[i].value))
  }

  function ListBounds(list: seq<Operand>, row: Row): (r: seq<Bound>)
    ensures |r| == |list| && forall i :: 0 <= i < |r| ==> r[i] == Eval1(list[i], row)
  {
    seq(|list|, i requires 0 <= i < |list| => Eval1(list[i], row))
  }

  ghost function Eval(e: Expr, row: Row): Truth {
    match e
    case And(l, r) =>
      var a := Eval(l, row);
      if a == Error || a == False then a else
      var b := Eval(r, row);
      if b == Error || b == False then b else if a == Unknown || b == Unknown then Unknown else True
    case Or(l, r) =>
      var a := Eval(l, row);
      if a == Error || a == True then a else
      var b := Eval(r, row);
      if b == Error || b == True then b else if a == Unknown || b == Unknown then Unknown else False
    case Cmp(op, x, y) =>
      var a, b := Eval1(x, row), Eval1(y, row);
      if a.Fails? || b.Fails? then Error else if a.IsNull? || b.IsNull? then Unknown else Decide(Holds(op, a.b, b.b))
    case In(x, list) =>
      var a, bs := Eval1(x, row), ListBounds(list, row);
      if a.Fails? || Fails in bs then Error else InResult(a, bs)
    case InUnnest(x, arr) =>
      var a, es := Eval1(x, row), (match arr case ConstantArray(a) => a case PerRowArray(f) => f(row));
      if a.Fails? || (es.NoArray? && es.fails) then Error
      else if es.NoArray? || es.elems == [] then False
      else InResult(a, ElementBounds(es.elems))
    case Between(x, lo, hi) =>
      var a, b, c := Eval1(x, row), Eval1(lo, row), Eval1(hi, row);
      if a.Fails? || b.Fails? || c.Fails? then Error
      else if a.Is? && ((b.Is? && Less(a.b, b.b)) || (c.Is? && Less(c.b, a.b))) then False
      else if a.IsNull? || b.IsNull? || c.IsNull? then Unknown
      else True
    case StartsWith(x, pre) =>
      var a, b := Eval1(x, row), Eval1(pre, row);
      if a.Fails? || b.Fails? then Error else if a.IsNull? || b.IsNull? then Unknown else Decide(b.b <= a.b)
    case LikeExpr(x, pat) =>
      var a, b := Eval1(x, row), Eval1(pat, row);
      if a.Fails? || b.Fails? then Error
      else if a.IsNull? || b.IsNull? then Unknown
      else if !Complete(b.b) then Error
      else Decide(Like(b.b, a.b))
    case Other(f) => f(row)
  }

  // ---- ranges ----

  /** `[start, end)`; no end means unbounded. */
  datatype Range = Range(start: Bytes, end: Option<Bytes>)

  predicate Within(r: Range, k: Bytes) { AtMost(r.start, k) && (r.end.Some? ==> Less(k, r.end.value)) }

  ghost predicate Covered(rs: seq<Range>, k: Bytes) { exists i :: 0 <= i < |rs| && Within(rs[i], k) }

  predicate Empty(r: Range) { r.end.Some? && AtMost(r.end.value, r.start) }

  lemma EmptyHoldsNothing(r: Range, k: Bytes)
    requires Empty(r)
    ensures !Within(r, k)
  {
    if Within(r, k) {
      LessTransitive(r.start, k, r.end.value);
      CompareAntisymmetric(r.start, r.end.value);
    }
  }

  /** `a` bounds less than `b` does. */
  predicate EndsLater(a: Option<Bytes>, b: Option<Bytes>) { b.Some? && (a.None? || Less(b.value, a.value)) }

  /** Ranges a scan can visit one after another: none empty, and each ends before the next starts. */
  predicate Normalized(rs: seq<Range>) {
    && (forall i :: 0 <= i < |rs| ==> !Empty(rs[i]))
    && (forall i :: 0 <= i < |rs| - 1 ==> rs[i].end.Some? && Less(rs[i].end.value, rs[i + 1].start))
  }

  // ---- prefixes ----

  /** The least key above every key with prefix `p`, if there is one. */
  function PrefixSuccessor(p: Bytes): (r: Option<Bytes>) {
    if p == [] then None
    else match PrefixSuccessor(p[1..])
      case Some(q) => Some([p[0]] + q)
      case None => if p[0] == 255 then None else Some([p[0] + 1])
  }

  /** The keys with a prefix are exactly those from the prefix up to its successor. */
  lemma {:induction false} PrefixIsRange(p: Bytes, k: Bytes)
    ensures p <= k <==> Within(Range(p, PrefixSuccessor(p)), k)
  {
    if p != [] && k != [] {
      PrefixIsRange(p[1..], k[1..]);
      assert k == [k[0]] + k[1..] && p == [p[0]] + p[1..];
      var r := PrefixSuccessor(p);
      var t := PrefixSuccessor(p[1..]);
      if t.Some? { assert r.value[1..] == t.value; }
      else if r.Some? { assert r.value[1..] == []; CompareAntisymmetric(k[1..], []); }
    }
  }

  lemma {:induction false} SuccessorAtEnd(q: Bytes, c: byte)
    ensures PrefixSuccessor(q + [c]) == if c == 255 then PrefixSuccessor(q) else Some(q + [c + 1])
  {
    var p := q + [c];
    if q == [] {
      assert p[1..] == [] && (c != 255 ==> q + [c + 1] == [c + 1]);
    } else {
      SuccessorAtEnd(q[1..], c);
      assert p[1..] == q[1..] + [c];
      assert c != 255 ==> [q[0]] + (q[1..] + [c + 1]) == q + [c + 1];
    }
  }

  method FindPrefixSuccessor(p: Bytes) returns (r: Option<Bytes>)
    ensures r == PrefixSuccessor(p)
  {
    var i := |p| - 1;
    assert p[..|p|] == p;
    while i >= 0
      invariant -1 <= i < |p| && PrefixSuccessor(p) == PrefixSuccessor(p[..i + 1])
    {
      assert p[..i + 1] == p[..i] + [p[i]];
      SuccessorAtEnd(p[..i], p[i]);
      if p[i] != 255 {
        return Some(p[..i] + [p[i] + 1]);
      }
      i := i - 1;
    }
    return None;
  }

  // ---- normalizing ----

  lemma CoverSplit(rs: seq<Range>, i: nat, k: Bytes)
    requires i <= |rs|
    ensures Covered(rs, k) <==> Covered(rs[..i], k) || Covered(rs[i..], k)
  {
    assert rs == rs[..i] + rs[i..];
    if j :| 0 <= j < |rs| && Within(rs[j], k) {
      if j < i { assert rs[..i][j] == rs[j]; } else { assert rs[i..][j - i] == rs[j]; }
    }
    if j :| 0 <= j < |rs[i..]| && Within(rs[i..][j], k) { assert rs[i + j] == rs[i..][j]; }
    if j :| 0 <= j < i && Within(rs[..i][j], k) { assert rs[j] == rs[..i][j]; }
  }

  lemma CoverConcat(a: seq<Range>, b: seq<Range>, k: Bytes)
    ensures Covered(a + b, k) <==> Covered(a, k) || Covered(b, k)
  {
    CoverSplit(a + b, |a|, k);
    assert (a + b)[..|a|] == a && (a + b)[|a|..] == b;
  }

  lemma CoverOne(r: Range, k: Bytes)
    ensures Covered([r], k) <==> Within(r, k)
  {
    assert [r][0] == r;
  }

  /** Covered exactly what `f` says. */
  ghost predicate SameCover(a: seq<Range>, b: seq<Range>) { forall k :: Covered(a, k) <==> Covered(b, k) }

  predicate SortedByStart(rs: seq<Range>) {
    forall i, j :: 0 <= i < j < |rs| ==> AtMost(rs[i].start, rs[j].start)
  }

  method InsertByStart(rs: seq<Range>, r: Range) returns (out: seq<Range>)
    requires SortedByStart(rs) && !Empty(r) && forall i :: 0 <= i < |rs| ==> !Empty(rs[i])
    ensures SortedByStart(out) && (forall i :: 0 <= i < |out| ==> !Empty(out[i]))
    ensures SameCover(out, rs + [r])
  {
    var i := |rs|;
    while i > 0 && Less(r.start, rs[i - 1].start)
      invariant 0 <= i <= |rs| && forall j :: i <= j < |rs| ==> AtMost(r.start, rs[j].start)
    {
      i := i - 1;
    }
    out := rs[..i] + [r] + rs[i..];
    if i > 0 {
      CompareAntisymmetric(r.start, rs[i - 1].start);
      forall j | 0 <= j < i ensures AtMost(rs[j].start, r.start) {
        if j < i - 1 { LessTransitive(rs[j].start, rs[i - 1].start, r.start); }
      }
    }
    forall k ensures Covered(out, k) <==> Covered(rs + [r], k) {
      CoverConcat(rs[..i] + [r], rs[i..], k);
      CoverConcat(rs[..i], [r], k);
      CoverSplit(rs, i, k);
      CoverConcat(rs, [r], k);
    }
  }

  /** Drops empty ranges and sorts the rest by start. */
  method SortRanges(rs: seq<Range>) returns (out: seq<Range>)
    ensures SortedByStart(out) && (forall i :: 0 <= i < |out| ==> !Empty(out[i]))
    ensures SameCover(out, rs)
  {
    out := [];
    for i := 0 to |rs|
      invariant SortedByStart(out) && forall j :: 0 <= j < |out| ==> !Empty(out[j])
      invariant SameCover(out, rs[..i])
    {
      var r := rs[i];
      assert rs[..i + 1] == rs[..i] + [r];
      ghost var before := out;
      if !Empty(r) {
        out := InsertByStart(out, r);
      }
      forall k ensures Covered(out, k) <==> Covered(rs[..i + 1], k) {
        CoverConcat(rs[..i], [r], k);
        CoverConcat(before, [r], k);
        CoverOne(r, k);
        if Empty(r) { EmptyHoldsNothing(r, k); }
      }
    }
    assert rs[..|rs|] == rs;
  }

  /** Two ranges that touch are one range up to the later end. */
  lemma MergeTouching(last: Range, r: Range, k: Bytes)
    requires AtMost(last.start, r.start) && (last.end.Some? ==> AtMost(r.start, last.end.value))
    ensures var m := if EndsLater(r.end, last.end) then Range(last.start, r.end) else last;
            Within(m, k) <==> Within(last, k) || Within(r, k)
  {
    CompareAntisymmetric(r.start, k);
    if AtMost(r.start, k) { LessTransitive(last.start, r.start, k); }
    if last.end.Some? {
      CompareAntisymmetric(last.end.value, k);
      if Less(k, r.start) { LessTransitive(k, r.start, last.end.value); }
      if r.end.Some? {
        CompareAntisymmetric(last.end.value, r.end.value);
        if Less(k, last.end.value) && AtMost(last.end.value, r.end.value) { LessTransitive(k, last.end.value, r.end.value); }
        if Less(k, r.end.value) && AtMost(r.end.value, last.end.value) { LessTransitive(k, r.end.value, last.end.value); }
      }
    }
  }

  lemma NonEmptyExtends(last: Range, end: Option<Bytes>)
    requires !Empty(last) && EndsLater(end, last.end)
    ensures !Empty(Range(last.start, end))
  {
    CompareAntisymmetric(last.start, last.end.value);
    if end.Some? {
      LessTransitive(last.start, last.end.value, end.value);
      CompareAntisymmetric(last.start, end.value);
    }
  }

  /** One more range, by ascending start, joined to the last one when they touch. */
  method MergeOne(merged: seq<Range>, r: Range) returns (out: seq<Range>)
    requires Normalized(merged) && !Empty(r)
    requires merged != [] ==> AtMost(merged[|merged| - 1].start, r.start)
    ensures Normalized(out) && out != [] && AtMost(out[|out| - 1].start, r.start)
    ensures SameCover(out, merged + [r])
  {
    var n := |merged|;
    if n > 0 {
      var last := merged[n - 1];
      if last.end.None? || AtMost(r.start, last.end.value) {
        ghost var init := merged[..n - 1];
        var m := last;
        if EndsLater(r.end, last.end) {
          NonEmptyExtends(last, r.end);
          m := Range(last.start, r.end);
        }
        out := merged[n - 1 := m];
        forall k ensures Covered(out, k) <==> Covered(merged + [r], k) {
          MergeTouching(last, r, k);
          CoverSplit(out, n - 1, k);
          CoverSplit(merged, n - 1, k);
          CoverConcat(merged, [r], k);
          assert out[..n - 1] == init && out[n - 1..] == [m] && merged[n - 1..] == [last];
          CoverOne(m, k);
          CoverOne(last, k);
          CoverOne(r, k);
        }
        return;
      }
      CompareAntisymmetric(r.start, last.end.value);
    }
    out := merged + [r];
  }

  method NormalizeRanges(rs: seq<Range>) returns (merged: seq<Range>)
    ensures Normalized(merged) && SameCover(merged, rs)
  {
    var sorted := SortRanges(rs);
    merged := [];
    for i := 0 to |sorted|
      invariant Normalized(merged) && SameCover(merged, sorted[..i])
      invariant merged != [] ==> i > 0 && AtMost(merged[|merged| - 1].start, sorted[i - 1].start)
    {
      ghost var before := merged;
      if i > 0 && merged != [] {
        LessTransitive(merged[|merged| - 1].start, sorted[i - 1].start, sorted[i].start);
      }
      merged := MergeOne(merged, sorted[i]);
      assert sorted[..i + 1] == sorted[..i] + [sorted[i]];
      forall k ensures Covered(merged, k) <==> Covered(sorted[..i + 1], k) {
        CoverConcat(before, [sorted[i]], k);
        CoverConcat(sorted[..i], [sorted[i]], k);
      }
    }
    assert sorted[..|sorted|] == sorted;
  }

  // ---- intersecting ----

  function Intersect(x: Range, y: Range): Range {
    Range(if Less(x.start, y.start) then y.start else x.start, if EndsLater(x.end, y.end) then y.end else x.end)
  }

  lemma IntersectMeans(x: Range, y: Range, k: Bytes)
    ensures Within(Intersect(x, y), k) <==> Within(x, k) && Within(y, k)
  {
    CompareAntisymmetric(x.start, y.start);
    if AtMost(x.start, y.start) && AtMost(y.start, k) { LessTransitive(x.start, y.start, k); }
    if AtMost(y.start, x.start) && AtMost(x.start, k) { LessTransitive(y.start, x.start, k); }
    if x.end.Some? && y.end.Some? {
      CompareAntisymmetric(x.end.value, y.end.value);
      if AtMost(x.end.value, y.end.value) && Less(k, x.end.value) { LessTransitive(k, x.end.value, y.end.value); }
      if AtMost(y.end.value, x.end.value) && Less(k, y.end.value) { LessTransitive(k, y.end.value, x.end.value); }
    }
  }

  method IntersectOne(x: Range, b: seq<Range>) returns (out: seq<Range>)
    ensures forall k :: Covered(out, k) <==> Within(x, k) && Covered(b, k)
  {
    out := [];
    for j := 0 to |b|
      invariant forall k :: Covered(out, k) <==> Within(x, k) && Covered(b[..j], k)
    {
      var r := Intersect(x, b[j]);
      ghost var before := out;
      if !Empty(r) {
        out := out + [r];
      }
      assert b[..j + 1] == b[..j] + [b[j]];
      forall k ensures Covered(out, k) <==> Within(x, k) && Covered(b[..j + 1], k) {
        IntersectMeans(x, b[j], k);
        CoverConcat(before, [r], k);
        CoverConcat(b[..j], [b[j]], k);
        CoverOne(r, k);
        CoverOne(b[j], k);
        if Empty(r) { EmptyHoldsNothing(r, k); }
      }
    }
    assert b[..|b|] == b;
  }

  method IntersectRanges(a: seq<Range>, b: seq<Range>) returns (out: seq<Range>)
    ensures Normalized(out) && forall k :: Covered(out, k) <==> Covered(a, k) && Covered(b, k)
  {
    out := [];
    for i := 0 to |a|
      invariant forall k :: Covered(out, k) <==> Covered(a[..i], k) && Covered(b, k)
    {
      var more := IntersectOne(a[i], b);
      ghost var before := out;
      out := out + more;
      assert a[..i + 1] == a[..i] + [a[i]];
      forall k ensures Covered(out, k) <==> Covered(a[..i + 1], k) && Covered(b, k) {
        CoverConcat(before, more, k);
        CoverConcat(a[..i], [a[i]], k);
        CoverOne(a[i], k);
      }
    }
    assert a[..|a|] == a;
    out := NormalizeRanges(out);
  }

  // ---- from a WHERE clause to ranges ----

  predicate ConstantKey(o: Operand) { o.Constant? && !o.v.Fails? }

  /** Clauses that constrain the key. */
  predicate Ranged(e: Expr) {
    match e
    case And(l, r) => Ranged(l) || Ranged(r)
    case Or(l, r) => Ranged(l) && Ranged(r)
    case Cmp(_, x, y) => (x.KeyColumn? && ConstantKey(y)) || (ConstantKey(x) && y.KeyColumn?)
    case In(x, list) => x.KeyColumn? && forall i :: 0 <= i < |list| ==> ConstantKey(list[i])
    case InUnnest(x, arr) => x.KeyColumn? && arr.ConstantArray? && !(arr.a.NoArray? && arr.a.fails)
    case Between(x, lo, hi) => x.KeyColumn? && ConstantKey(lo) && ConstantKey(hi)
    case StartsWith(x, pre) => x.KeyColumn? && ConstantKey(pre)
    case LikeExpr(x, pat) => x.KeyColumn? && ConstantKey(pat)
    case Other(_) => false
  }

  /** Clauses that say no more about a row than ranges can. */
  predicate Sargable(e: Expr) {
    match e
    case And(l, r) => Sargable(l) && Sargable(r)
    case Or(l, r) => Sargable(l) && Sargable(r)
    case LikeExpr(_, pat) => Ranged(e) && (pat.v.Is? ==> Prefix(pat.v.b).1)
    case _ => Ranged(e)
  }

  /** The keys that the constraints on the key leave. */
  ghost predicate Reach(e: Expr, k: Bytes)
    requires Ranged(e)
  {
    match e
    case And(l, r) => (Ranged(l) ==> Reach(l, k)) && (Ranged(r) ==> Reach(r, k))
    case Or(l, r) => Reach(l, k) || Reach(r, k)
    case Cmp(op, x, y) => if x.KeyColumn? then y.v.Is? && Holds(op, k, y.v.b) else x.v.Is? && Holds(op, x.v.b, k)
    case In(_, list) => Constant(Is(k)) in list
    case InUnnest(_, arr) => arr.a.Elems? && Some(k) in arr.a.elems
    case Between(_, lo, hi) => lo.v.Is? && hi.v.Is? && AtMost(lo.v.b, k) && AtMost(k, hi.v.b)
    case StartsWith(_, pre) => pre.v.Is? && pre.v.b <= k
    case LikeExpr(_, pat) => pat.v.Is? && var (p, exact) := Prefix(pat.v.b); if exact then k == p else p <= k
  }

  /** No row that the clause makes TRUE is left out. */
  lemma {:induction false} TrueIsReached(e: Expr, row: Row)
    requires Ranged(e) && Eval(e, row) == True
    ensures Reach(e, row.key)
  {
    match e
    case And(l, r) =>
      if Ranged(l) { TrueIsReached(l, row); }
      if Ranged(r) { TrueIsReached(r, row); }
    case Or(l, r) => if Eval(l, row) == True { TrueIsReached(l, row); } else { TrueIsReached(r, row); }
    case In(_, list) =>
      var i :| 0 <= i < |list| && ListBounds(list, row)[i] == Is(row.key);
      assert list[i] == Constant(Is(row.key));
    case InUnnest(_, arr) =>
      var i :| 0 <= i < |arr.a.elems| && ElementBounds(arr.a.elems)[i] == Is(row.key);
      assert arr.a.elems[i] == Some(row.key);
    case Between(_, lo, hi) =>
      CompareAntisymmetric(lo.v.b, row.key);
      CompareAntisymmetric(hi.v.b, row.key);
    case LikeExpr(_, pat) => PrefixBounds(pat.v.b, row.key);
    case _ =>
  }

  /** A clause on the key alone never fails and is decided by the keys it leaves. */
  lemma {:induction false} SargableIsDecided(e: Expr, row: Row)
    requires Sargable(e)
    ensures Ranged(e) && Eval(e, row) != Error && (Reach(e, row.key) <==> Eval(e, row) == True)
  {
    match e
    case And(l, r) => SargableIsDecided(l, row); SargableIsDecided(r, row);
    case Or(l, r) => SargableIsDecided(l, row); SargableIsDecided(r, row);
    case In(_, list) =>
      assert Eval(e, row) != Error && (Is(row.key) in ListBounds(list, row) <==> Eval(e, row) == True);
      if i :| 0 <= i < |list| && list[i] == Constant(Is(row.key)) { assert ListBounds(list, row)[i] == Is(row.key); }
      if Eval(e, row) == True { TrueIsReached(e, row); }
    case InUnnest(_, arr) =>
      if arr.a.Elems? {
        if i :| 0 <= i < |arr.a.elems| && arr.a.elems[i] == Some(row.key) { assert ElementBounds(arr.a.elems)[i] == Is(row.key); }
        if Eval(e, row) == True { TrueIsReached(e, row); }
      }
    case Between(_, lo, hi) =>
      if lo.v.Is? { CompareAntisymmetric(lo.v.b, row.key); }
      if hi.v.Is? { CompareAntisymmetric(hi.v.b, row.key); }
    case LikeExpr(_, pat) =>
      if pat.v.Is? {
        ExactIsComplete(pat.v.b);
        PrefixBounds(pat.v.b, row.key);
      }
    case _ =>
  }

  /** There are ranges exactly for a clause that constrains the key, and they hold the keys it leaves. */
  ghost predicate RangesOf(e: Expr, r: Option<seq<Range>>) {
    (r.Some? <==> Ranged(e)) && (r.Some? ==> forall k :: Covered(r.value, k) <==> Reach(e, k))
  }

  function Point(v: Bytes): Range { Range(v, Some(v + [0])) }

  lemma PointHoldsOne(v: Bytes, k: Bytes)
    ensures Within(Point(v), k) <==> k == v
  {
    SuccessorIsNext(v, k);
    CompareAntisymmetric(v, k);
  }

  function RangeOfOp(op: Op, v: Bytes): Range {
    match op
    case Eq => Point(v)
    case Lt => Range([], Some(v))
    case Le => Range([], Some(v + [0]))
    case Gt => Range(v + [0], None)
    case Ge => Range(v, None)
  }

  lemma OpIsRange(op: Op, v: Bytes, k: Bytes)
    ensures Within(RangeOfOp(op, v), k) <==> Holds(op, k, v)
  {
    PointHoldsOne(v, k);
    SuccessorIsNext(v, k);
    CompareAntisymmetric(v + [0], k);
    CompareAntisymmetric(v, k);
  }

  function Mirror(op: Op): Op {
    match op case Eq => Eq case Lt => Gt case Le => Ge case Gt => Lt case Ge => Le
  }

  method RangesForCmp(e: Expr) returns (r: Option<seq<Range>>)
    requires e.Cmp?
    ensures RangesOf(e, r)
  {
    var op, k, c := e.op, e.x, e.y;
    if !k.KeyColumn? {
      op, k, c := Mirror(op), c, k;
    }
    if !k.KeyColumn? || !c.Constant? || c.v.Fails? { return None; }
    if c.v.IsNull? { return Some([]); }
    var v := c.v.b;
    r := Some([RangeOfOp(op, v)]);
    forall k ensures Covered(r.value, k) <==> Reach(e, k) {
      OpIsRange(op, v, k);
      CoverOne(RangeOfOp(op, v), k);
    }
  }

  /** A point for every value. */
  ghost predicate Points(rs: seq<Range>, vs: seq<Bound>) {
    forall k :: Covered(rs, k) <==> Is(k) in vs
  }

  method AppendPoint(rs: seq<Range>, v: Bound, ghost vs: seq<Bound>) returns (out: seq<Range>)
    requires Points(rs, vs)
    ensures Points(out, vs + [v])
  {
    out := if v.Is? then rs + [Point(v.b)] else rs;
    forall k ensures Covered(out, k) <==> Is(k) in vs + [v] {
      if v.Is? {
        CoverConcat(rs, [Point(v.b)], k);
        CoverOne(Point(v.b), k);
        PointHoldsOne(v.b, k);
      }
    }
  }

  method RangesForIn(e: Expr) returns (r: Option<seq<Range>>)
    requires e.In?
    ensures RangesOf(e, r)
  {
    if !e.x.KeyColumn? { return None; }
    var out: seq<Range> := [];
    ghost var vs: seq<Bound> := [];
    for i := 0 to |e.list|
      invariant Points(out, vs) && |vs| == i
      invariant forall j :: 0 <= j < i ==> e.list[j] == Constant(vs[j]) && !vs[j].Fails?
    {
      var c := e.list[i];
      if !c.Constant? || c.v.Fails? { return None; }
      out := AppendPoint(out, c.v, vs);
      vs := vs + [c.v];
    }
    forall k ensures Is(k) in vs <==> Constant(Is(k)) in e.list {
      if i :| 0 <= i < |vs| && vs[i] == Is(k) { assert e.list[i] == Constant(Is(k)); }
    }
    return Some(out);
  }

  method RangesForInUnnest(e: Expr) returns (r: Option<seq<Range>>)
    requires e.InUnnest?
    ensures RangesOf(e, r)
  {
    if !e.x.KeyColumn? || !e.arr.ConstantArray? { return None; }
    var a := e.arr.a;
    if a.NoArray? {
      if a.fails { return None; }
      return Some([]);
    }
    var out: seq<Range> := [];
    ghost var bounds := ElementBounds(a.elems);
    for i := 0 to |a.elems|
      invariant Points(out, bounds[..i])
    {
      var v := if a.elems[i].Some? then Is(a.elems[i].value) else IsNull;
      out := AppendPoint(out, v, bounds[..i]);
      assert bounds[..i + 1] == bounds[..i] + [v];
    }
    assert bounds[..|a.elems|] == bounds;
    forall k ensures Is(k) in bounds <==> Some(k) in a.elems {
      if i :| 0 <= i < |a.elems| && a.elems[i] == Some(k) { assert bounds[i] == Is(k); }
    }
    return Some(out);
  }

  method RangesForBetween(e: Expr) returns (r: Option<seq<Range>>)
    requires e.Between?
    ensures RangesOf(e, r)
  {
    if !e.x.KeyColumn? { return None; }
    if !e.lo.Constant? || e.lo.v.Fails? || !e.hi.Constant? || e.hi.v.Fails? { return None; }
    if e.lo.v.IsNull? || e.hi.v.IsNull? { return Some([]); }
    var lo, hi := e.lo.v.b, e.hi.v.b;
    var rng := Range(lo, Some(hi + [0]));
    forall k: Bytes ensures Covered([rng], k) <==> Reach(e, k) {
      CoverOne(rng, k);
      SuccessorIsNext(hi, k);
    }
    return Some([rng]);
  }

  method RangesForPrefix(e: Expr) returns (r: Option<seq<Range>>)
    requires e.StartsWith? || e.LikeExpr?
    ensures RangesOf(e, r)
  {
    var c := if e.StartsWith? then e.pre else e.pat;
    if !e.x.KeyColumn? || !c.Constant? || c.v.Fails? { return None; }
    if c.v.IsNull? { return Some([]); }
    var pre, exact := c.v.b, false;
    if e.LikeExpr? {
      var p;
      p, exact := LikePrefix(pre);
      PrefixIsBytes(pre);
      pre := p;
    }
    var rng := Point(pre);
    if !exact {
      var end := FindPrefixSuccessor(pre);
      rng := Range(pre, end);
    }
    forall k: Bytes ensures Covered([rng], k) <==> Reach(e, k) {
      CoverOne(rng, k);
      PointHoldsOne(pre, k);
      PrefixIsRange(pre, k);
    }
    return Some([rng]);
  }

  lemma {:induction false} PrefixIsBytes(pat: Bytes)
    ensures forall i :: 0 <= i < |Prefix(pat).0| ==> Prefix(pat).0[i] < 256
  {
    if pat != [] {
      PrefixIsBytes(pat[1..]);
      if |pat| >= 2 { PrefixIsBytes(pat[2..]); }
    }
  }

  lemma {:induction false} ExactIsComplete(pat: seq<nat>)
    ensures Prefix(pat).1 ==> Complete(pat)
  {
    if pat != [] {
      ExactIsComplete(pat[1..]);
      if |pat| >= 2 { ExactIsComplete(pat[2..]); }
    }
  }

  method RangesFor(e: Expr) returns (r: Option<seq<Range>>)
    ensures RangesOf(e, r)
    decreases e
  {
    match e
    case And(a, b) =>
      var l := RangesFor(a);
      var m := RangesFor(b);
      if l.Some? && m.Some? {
        var ln := NormalizeRanges(l.value);
        var mn := NormalizeRanges(m.value);
        var both := IntersectRanges(ln, mn);
        return Some(both);
      }
      return if l.Some? then l else m;
    case Or(a, b) =>
      var l := RangesFor(a);
      var m := RangesFor(b);
      if l.None? || m.None? { return None; }
      var either := NormalizeRanges(l.value + m.value);
      forall k ensures Covered(either, k) <==> Covered(l.value, k) || Covered(m.value, k) {
        CoverConcat(l.value, m.value, k);
      }
      return Some(either);
    case Cmp(_, _, _) => r := RangesForCmp(e);
    case In(_, _) => r := RangesForIn(e);
    case InUnnest(_, _) => r := RangesForInUnnest(e);
    case Between(_, _, _) => r := RangesForBetween(e);
    case StartsWith(_, _) => r := RangesForPrefix(e);
    case LikeExpr(_, _) => r := RangesForPrefix(e);
    case Other(_) => r := None;
  }

  /** The keys a query scans: all of them, unless pushdown finds a constraint on the key. */
  ghost predicate Scanned(where: Option<Expr>, noPushdown: bool, k: Bytes) {
    !noPushdown && where.Some? && Ranged(where.value) ==> Reach(where.value, k)
  }

  /** What the ranges of a WHERE clause are to a scan. */
  ghost predicate RangesFit(where: Option<Expr>, noPushdown: bool, rs: seq<Range>) {
    Normalized(rs) && forall k :: Covered(rs, k) <==> Scanned(where, noPushdown, k)
  }

  method KeyRanges(where: Option<Expr>, noPushdown: bool) returns (rs: seq<Range>)
    ensures RangesFit(where, noPushdown, rs)
  {
    rs := [Range([], None)];
    forall k: Bytes ensures Covered(rs, k) { CoverOne(rs[0], k); }
    if noPushdown || where.None? {
      return;
    }
    var found := RangesFor(where.value);
    if found.Some? {
      rs := NormalizeRanges(found.value);
    }
  }
}
