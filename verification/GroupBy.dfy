/** Rewriting expressions onto GROUP BY keys: on a group the rewritten expression means what the original
    means on each of its rows, exactly when every match by fingerprint is a match of expressions. */
module GroupBy {
  import opened Basics
  import opened Lex
  import opened Values
  import opened Fingerprints
  import OrderedInt

  // ---- evaluation ----

  datatype Outcome = Val(v: Value) | Err

  /** What operators mean: calls see their arguments' values, lazy operators evaluate them at will, and
      both only through the arguments; `safe` turns evaluation errors into NULL. */
  type Meaning = (string, string, bool, seq<Outcome>) -> Outcome

  /** A row (or none, for a group), parameters, group keys and aggregate results. */
  datatype Env = Env(row: Option<nat -> Outcome>, params: nat -> Value, group: seq<Value>, aggs: Spec -> Value)

  function Eval(e: Expr, env: Env, ops: Meaning): (r: Outcome)
    decreases e, 0
  {
    match e
    case Const(_, v) => Val(v)
    case Param(i) => Val(env.params(i))
    case Column(i) => if env.row.None? then Err else (env.row.value)(i)
    case GroupRef(i) => if i < |env.group| then Val(env.group[i]) else Err
    case AggRef(p) => Val(env.aggs(p))
    case Node(op, extra, args, safe) => ops(op, extra, safe, EvalAll(args, env, ops))
  }

  function EvalAll(es: seq<Expr>, env: Env, ops: Meaning): (r: seq<Outcome>)
    ensures |r| == |es|
    decreases es, 0
  {
    if es == [] then [] else [Eval(es[0], env, ops)] + EvalAll(es[1..], env, ops)
  }

  lemma {:induction false} EvalAllAt(es: seq<Expr>, env: Env, ops: Meaning, i: nat)
    requires i < |es|
    ensures EvalAll(es, env, ops)[i] == Eval(es[i], env, ops)
  {
    if i > 0 { EvalAllAt(es[1..], env, ops, i - 1); }
  }

  // ---- the rewrite ----

  /** The first key with a fingerprint. */
  function KeyIndex(fp: string, keys: seq<Expr>, quote: Bytes -> string): (r: Option<nat>)
    ensures r.Some? ==> r.value < |keys| && Fingerprint(keys[r.value], quote) == fp
  {
    if keys == [] then None
    else if Fingerprint(keys[0], quote) == fp then Some(0)
    else
      var r := KeyIndex(fp, keys[1..], quote);
      if r.None? then None else Some(r.value + 1)
  }

  /** None when a column is neither grouped nor aggregated. */
  function MapToGroup(e: Expr, keys: seq<Expr>, quote: Bytes -> string): (r: Option<Expr>)
    decreases e, 0
  {
    var k := KeyIndex(Fingerprint(e, quote), keys, quote);
    if k.Some? then Some(GroupRef(k.value))
    else match e
      case Column(_) => None
      case Node(op, extra, args, safe) =>
        var mapped := MapAll(args, keys, quote);
        if mapped.None? then None else Some(Node(op, extra, mapped.value, safe))
      case _ => Some(e)
  }

  function MapAll(es: seq<Expr>, keys: seq<Expr>, quote: Bytes -> string): (r: Option<seq<Expr>>)
    ensures r.Some? ==> |r.value| == |es|
    decreases es, 0
  {
    if es == [] then Some([])
    else
      var first, rest := MapToGroup(es[0], keys, quote), MapAll(es[1..], keys, quote);
      if first.None? || rest.None? then None else Some([first.value] + rest.value)
  }

  lemma {:induction false} MapAllAt(es: seq<Expr>, keys: seq<Expr>, quote: Bytes -> string, i: nat)
    requires MapAll(es, keys, quote).Some? && i < |es|
    ensures MapToGroup(es[i], keys, quote) == Some(MapAll(es, keys, quote).value[i])
  {
    if i > 0 { MapAllAt(es[1..], keys, quote, i - 1); }
  }

  predicate NoGroupRef(e: Expr)
    decreases e
  {
    !e.GroupRef? && (e.Node? ==> forall i :: 0 <= i < |e.args| ==> NoGroupRef(e.args[i]))
  }

  /** A row of a group: its key values are the group's, and parameters and aggregates are the same. */
  ghost predicate RowOf(row: Env, group: Env, keys: seq<Expr>, ops: Meaning) {
    && group.row.None? && row.params == group.params && row.aggs == group.aggs
    && |group.group| == |keys| && forall i :: 0 <= i < |keys| ==> Eval(keys[i], row, ops) == Val(group.group[i])
  }

  // ---- when the rewrite preserves meaning ----

  /** Wherever the rewrite takes an expression for a key, it is that key. */
  predicate Faithful(e: Expr, keys: seq<Expr>, quote: Bytes -> string)
    decreases e
  {
    var k := KeyIndex(Fingerprint(e, quote), keys, quote);
    if k.Some? then e == keys[k.value] else e.Node? ==> forall i :: 0 <= i < |e.args| ==> Faithful(e.args[i], keys, quote)
  }

  lemma {:induction false} MappedMeans(e: Expr, keys: seq<Expr>, quote: Bytes -> string, row: Env, group: Env, ops: Meaning)
    requires NoGroupRef(e) && Faithful(e, keys, quote) && RowOf(row, group, keys, ops) && MapToGroup(e, keys, quote).Some?
    ensures Eval(MapToGroup(e, keys, quote).value, group, ops) == Eval(e, row, ops)
    decreases e, 0
  {
    var k := KeyIndex(Fingerprint(e, quote), keys, quote);
    if k.None? && e.Node? {
      var mapped := MapAll(e.args, keys, quote).value;
      forall i | 0 <= i < |e.args| ensures EvalAll(mapped, group, ops)[i] == EvalAll(e.args, row, ops)[i] {
        MapAllAt(e.args, keys, quote, i);
        MappedMeans(e.args[i], keys, quote, row, group, ops);
        EvalAllAt(mapped, group, ops, i);
        EvalAllAt(e.args, row, ops, i);
      }
      assert EvalAll(mapped, group, ops) == EvalAll(e.args, row, ops);
    }
  }

  // ---- a meaning under which every difference shows ----

  function Unwrap(outs: seq<Outcome>): (r: seq<Value>)
    ensures |r| == |outs| && forall i :: 0 <= i < |r| ==> r[i] == if outs[i].Val? then outs[i].v else Null
  {
    seq(|outs|, i requires 0 <= i < |outs| => if outs[i].Val? then outs[i].v else Null)
  }

  /** Every operator returns its arguments. */
  function Wrap(op: string, extra: string, safe: bool, outs: seq<Outcome>): Outcome { Val(Struct(Unwrap(outs))) }

  function RowWith(aggs: Spec -> Value): Env { Env(Some(_ => Val(Null)), _ => Null, [], aggs) }

  ghost predicate AllNoGroupRef(es: seq<Expr>) { forall i :: 0 <= i < |es| ==> NoGroupRef(es[i]) }

  lemma RowIsVal(e: Expr, aggs: Spec -> Value)
    requires NoGroupRef(e)
    ensures Eval(e, RowWith(aggs), Wrap).Val?
  {
  }

  function GroupWith(keys: seq<Expr>, aggs: Spec -> Value): (g: Env)
    ensures |g.group| == |keys|
  {
    RowWith(aggs).(row := None, group := Unwrap(EvalAll(keys, RowWith(aggs), Wrap)))
  }

  lemma RowIsOfGroup(keys: seq<Expr>, aggs: Spec -> Value)
    requires AllNoGroupRef(keys)
    ensures RowOf(RowWith(aggs), GroupWith(keys, aggs), keys, Wrap)
  {
    forall i | 0 <= i < |keys| ensures Eval(keys[i], RowWith(aggs), Wrap) == Val(GroupWith(keys, aggs).group[i]) {
      EvalAllAt(keys, RowWith(aggs), Wrap, i);
      RowIsVal(keys[i], aggs);
    }
  }

  lemma GroupIsVal(e: Expr, keys: seq<Expr>, quote: Bytes -> string, aggs: Spec -> Value)
    requires NoGroupRef(e) && MapToGroup(e, keys, quote).Some?
    ensures Eval(MapToGroup(e, keys, quote).value, GroupWith(keys, aggs), Wrap).Val?
  {
  }

  lemma WrapSeparates(x: seq<Outcome>, y: seq<Outcome>, i: nat, op: string, extra: string, safe: bool)
    requires i < |x| == |y| && x[i].Val? && y[i].Val? && x[i] != y[i]
    ensures Wrap(op, extra, safe, x) != Wrap(op, extra, safe, y)
  {
    assert Unwrap(x)[i] != Unwrap(y)[i];
  }

  lemma {:induction false} CanonExprsAt(es: seq<Expr>, i: nat)
    requires i < |es|
    ensures CanonExprs(es)[i] == CanonExpr(es[i])
  {
    if i > 0 { CanonExprsAt(es[1..], i - 1); }
  }

  /** Different expressions that agree up to floats have different values for some aggregates. */
  lemma {:induction false} Separates(a: Expr, b: Expr) returns (aggs: Spec -> Value)
    requires a != b && CanonExpr(a) == CanonExpr(b) && NoGroupRef(a) && NoGroupRef(b)
    ensures Eval(a, RowWith(aggs), Wrap) != Eval(b, RowWith(aggs), Wrap)
    decreases a
  {
    match a
    case Const(_, _) => aggs := _ => Null;
    case AggRef(p) => aggs := q => Bool(q == p);
    case Node(op, extra, args, safe) =>
      var i :| 0 <= i < |args| && args[i] != b.args[i];
      CanonExprsAt(args, i);
      CanonExprsAt(b.args, i);
      aggs := Separates(args[i], b.args[i]);
      EvalAllAt(args, RowWith(aggs), Wrap, i);
      EvalAllAt(b.args, RowWith(aggs), Wrap, i);
      RowIsVal(args[i], aggs);
      RowIsVal(b.args[i], aggs);
      WrapSeparates(EvalAll(args, RowWith(aggs), Wrap), EvalAll(b.args, RowWith(aggs), Wrap), i, op, extra, safe);
    case _ => aggs := _ => Null;
  }

  ghost predicate Bound(e: Expr, keys: seq<Expr>, quote: Bytes -> string) {
    Lexical(e) && NoGroupRef(e) && Quotes(quote) && AllLexical(keys) && AllNoGroupRef(keys)
  }

  lemma {:induction false} UnfaithfulShows(e: Expr, keys: seq<Expr>, quote: Bytes -> string) returns (aggs: Spec -> Value)
    requires Bound(e, keys, quote) && MapToGroup(e, keys, quote).Some? && !Faithful(e, keys, quote)
    ensures Eval(MapToGroup(e, keys, quote).value, GroupWith(keys, aggs), Wrap) != Eval(e, RowWith(aggs), Wrap)
    decreases e
  {
    var k := KeyIndex(Fingerprint(e, quote), keys, quote);
    if k.Some? {
      FingerprintIff(e, keys[k.value], quote);
      aggs := Separates(e, keys[k.value]);
      RowIsOfGroup(keys, aggs);
    } else {
      var i :| 0 <= i < |e.args| && !Faithful(e.args[i], keys, quote);
      var mapped := MapAll(e.args, keys, quote).value;
      MapAllAt(e.args, keys, quote, i);
      aggs := UnfaithfulShows(e.args[i], keys, quote);
      EvalAllAt(e.args, RowWith(aggs), Wrap, i);
      EvalAllAt(mapped, GroupWith(keys, aggs), Wrap, i);
      RowIsVal(e.args[i], aggs);
      GroupIsVal(e.args[i], keys, quote, aggs);
      WrapSeparates(EvalAll(mapped, GroupWith(keys, aggs), Wrap), EvalAll(e.args, RowWith(aggs), Wrap), i, e.op, e.extra, e.safe);
    }
  }

  /** The rewrite preserves meaning, for all operators and all rows of groups, exactly when it is faithful. */
  lemma RewriteIff(e: Expr, keys: seq<Expr>, quote: Bytes -> string)
    requires Bound(e, keys, quote) && MapToGroup(e, keys, quote).Some?
    ensures Faithful(e, keys, quote) <==>
              forall row, group, ops :: RowOf(row, group, keys, ops) ==>
                Eval(MapToGroup(e, keys, quote).value, group, ops) == Eval(e, row, ops)
  {
    if Faithful(e, keys, quote) {
      forall row, group, ops | RowOf(row, group, keys, ops)
        ensures Eval(MapToGroup(e, keys, quote).value, group, ops) == Eval(e, row, ops)
      {
        MappedMeans(e, keys, quote, row, group, ops);
      }
    } else {
      var aggs := UnfaithfulShows(e, keys, quote);
      RowIsOfGroup(keys, aggs);
    }
  }

  ghost predicate AllCanonicalExprs(es: seq<Expr>) { forall i :: 0 <= i < |es| ==> CanonicalExpr(es[i]) }

  /** With canonical floats every match by fingerprint is a match. */
  lemma {:induction false} CanonicalIsFaithful(e: Expr, keys: seq<Expr>, quote: Bytes -> string)
    requires Lexical(e) && AllLexical(keys) && Quotes(quote) && CanonicalExpr(e) && AllCanonicalExprs(keys)
    ensures Faithful(e, keys, quote)
    decreases e
  {
    var k := KeyIndex(Fingerprint(e, quote), keys, quote);
    if k.Some? {
      assert CanonicalExpr(keys[k.value]);
      FingerprintIsInjective(e, keys[k.value], quote);
    } else if e.Node? {
      forall i | 0 <= i < |e.args| ensures Faithful(e.args[i], keys, quote) {
        CanonExprsAt(e.args, i);
        CanonicalIsFaithful(e.args[i], keys, quote);
      }
    }
  }

  /** On a group, hashed by the bytes of its key values, the rewritten expression is what the original
      is on any row of the group with the same aggregates, when all floats are canonical. */
  lemma RewritePreservesMeaning(e: Expr, keys: seq<Expr>, quote: Bytes -> string, row: Env, group: Env, vals: seq<Value>, ops: Meaning)
    requires Bound(e, keys, quote) && MapToGroup(e, keys, quote).Some? && CanonicalExpr(e) && AllCanonicalExprs(keys)
    requires group.row.None? && row.params == group.params && row.aggs == group.aggs && |group.group| == |keys| == |vals|
    requires forall i :: 0 <= i < |keys| ==> Eval(keys[i], row, ops) == Val(vals[i])
    requires AllWellFormed(vals) && AllWellFormed(group.group) && AllCanonical(vals) && AllCanonical(group.group)
    requires Keys(vals) == Keys(group.group)
    ensures Eval(MapToGroup(e, keys, quote).value, group, ops) == Eval(e, row, ops)
  {
    SameHashSameKeys(vals, group.group);
    CanonicalIsFaithful(e, keys, quote);
    MappedMeans(e, keys, quote, row, group, ops);
  }

  // ---- rows of one hashed group ----

  function Columns(n: nat): (r: seq<Expr>)
    ensures |r| == n && forall i :: 0 <= i < n ==> r[i] == Column(i)
  {
    seq(n, i requires 0 <= i < n => Column(i))
  }

  lemma {:induction false} KeyIndexOfKey(keys: seq<Expr>, quote: Bytes -> string, i: nat)
    requires i < |keys| && forall j :: 0 <= j < i ==> Fingerprint(keys[j], quote) != Fingerprint(keys[i], quote)
    ensures KeyIndex(Fingerprint(keys[i], quote), keys, quote) == Some(i)
  {
    if i > 0 { KeyIndexOfKey(keys[1..], quote, i - 1); }
  }

  lemma ColumnMaps(n: nat, quote: Bytes -> string, i: nat)
    requires i < n && Quotes(quote)
    ensures MapToGroup(Column(i), Columns(n), quote) == Some(GroupRef(i))
  {
    forall j | 0 <= j < i ensures Fingerprint(Columns(n)[j], quote) != Fingerprint(Columns(n)[i], quote) {
      FingerprintIff(Column(j), Column(i), quote);
    }
    KeyIndexOfKey(Columns(n), quote, i);
  }

  const NO_PARAMS: nat -> Value := _ => Null
  const NO_AGGS: Spec -> Value := _ => Null

  function RowOfValues(x: seq<Value>): Env { Env(Some(i => if 0 <= i < |x| then Val(x[i]) else Err), NO_PARAMS, [], NO_AGGS) }

  function GroupOfValues(y: seq<Value>): Env { Env(None, NO_PARAMS, y, NO_AGGS) }

  /** On the group, column `i` of the row is rewritten and read back. */
  ghost predicate ReadsBack(x: seq<Value>, y: seq<Value>, quote: Bytes -> string, ops: Meaning, i: nat) {
    var e := MapToGroup(Column(i), Columns(|x|), quote);
    e.Some? && Eval(e.value, GroupOfValues(y), ops) == Eval(Column(i), RowOfValues(x), ops)
  }

  lemma ReadsBackMeans(x: seq<Value>, y: seq<Value>, quote: Bytes -> string, ops: Meaning, i: nat)
    requires |x| == |y| && i < |x| && Quotes(quote)
    ensures ReadsBack(x, y, quote, ops, i) <==> x[i] == y[i]
  {
    ColumnMaps(|x|, quote, i);
  }

  /** Grouped by its columns, a row reads its own values back from every group it can be hashed into
      exactly when none of its floats, however nested, is a zero or a NaN. */
  lemma GroupReadsBackIff(x: seq<Value>, quote: Bytes -> string, ops: Meaning)
    requires AllWellFormed(x) && Quotes(quote)
    ensures AllPlain(x) <==> forall y, i :: SameGroup(x, y) && 0 <= i < |x| ==> ReadsBack(x, y, quote, ops, i)
  {
    AloneIff(x);
    if AllPlain(x) {
      forall y, i | SameGroup(x, y) && 0 <= i < |x| ensures ReadsBack(x, y, quote, ops, i) {
        ReadsBackMeans(x, y, quote, ops, i);
      }
    } else {
      var y :| SameGroup(x, y) && y != x;
      var i :| 0 <= i < |x| && x[i] != y[i];
      ReadsBackMeans(x, y, quote, ops, i);
    }
  }

  /** The zeros share a group, and the group reads the first one back for both. */
  lemma ZerosShareAGroup(quote: Bytes -> string, ops: Meaning)
    requires Quotes(quote)
    ensures var zero, negative := Float(0), Float(OrderedInt.TWO63);
            && SameGroup([negative], [zero]) && !ReadsBack([negative], [zero], quote, ops, 0)
            && Eval(MapToGroup(Column(0), Columns(1), quote).value, GroupOfValues([zero]), ops) == Val(zero)
  {
    assert Key(Float(0)) == Key(Float(OrderedInt.TWO63));
    ReadsBackMeans([Float(OrderedInt.TWO63)], [Float(0)], quote, ops, 0);
    ColumnMaps(1, quote, 0);
  }

  // ---- a function that tells the zeros apart ----

  predicate Negative(bits: nat) { bits >= OrderedInt.TWO63 }

  /** The IEEE quotient of a float and a zero; which NaN it is when there is none does not matter here. */
  function OverZero(x: nat, zero: nat): nat {
    if IsNaN(x) || Unsigned63(x) == 0 then NAN_BITS
    else if Negative(x) == Negative(zero) then INFINITY_BITS
    else OrderedInt.TWO63 + INFINITY_BITS
  }

  /** IEEE_DIVIDE where the divisor is a zero. */
  function IeeeDivide(op: string, extra: string, safe: bool, outs: seq<Outcome>): Outcome {
    if op != "IEEE_DIVIDE" || |outs| != 2 || outs[0].Err? || outs[1].Err? then Err
    else match (outs[0].v, outs[1].v)
      case (Float(x), Float(y)) => if Unsigned63(y) == 0 then Val(Float(OverZero(x, y))) else Err
      case _ => Val(Null)
  }

  /** IEEE_DIVIDE(column 0, 0.0) or IEEE_DIVIDE(column 0, -0.0) */
  function DivideBy(zero: nat): Expr { Node("IEEE_DIVIDE", "", [Column(0), Const("FLOAT64", Float(zero))], false) }

  lemma QuotientIs(x: nat, zero: nat)
    requires Unsigned63(zero) == 0
    ensures Eval(DivideBy(zero), RowOfValues([Float(x)]), IeeeDivide) == Val(Float(OverZero(x, zero)))
  {
    var args, row := [Column(0), Const("FLOAT64", Float(zero))], RowOfValues([Float(x)]);
    EvalAllAt(args, row, IeeeDivide, 0);
    EvalAllAt(args, row, IeeeDivide, 1);
    assert EvalAll(args, row, IeeeDivide) == [Val(Float(x)), Val(Float(zero))];
  }

  lemma DivisionIsLexical(zero: nat)
    requires zero < TWO64
    ensures Lexical(DivideBy(zero))
  {
    assert IsName("IEEE_DIVIDE");
  }

  lemma CanonOfTwo(a: Expr, b: Expr)
    ensures CanonExprs([a, b]) == [CanonExpr(a), CanonExpr(b)]
  {
    CanonExprsAt([a, b], 0);
    CanonExprsAt([a, b], 1);
  }

  lemma DivisionsAgree()
    ensures CanonExpr(DivideBy(OrderedInt.TWO63)) == CanonExpr(DivideBy(0))
  {
    CanonOfZeros();
    CanonOfTwo(Column(0), Const("FLOAT64", Float(0)));
    CanonOfTwo(Column(0), Const("FLOAT64", Float(OrderedInt.TWO63)));
  }

  lemma OneKeyMatches(e: Expr, key: Expr, quote: Bytes -> string)
    requires Fingerprint(e, quote) == Fingerprint(key, quote)
    ensures MapToGroup(e, [key], quote) == Some(GroupRef(0))
  {
  }

  /** IEEE_DIVIDE(x, -0.0) is taken for the GROUP BY key IEEE_DIVIDE(x, 0.0), and for every x but the
      zeros and NaNs the infinity of the other sign is read. */
  lemma RewriteConfusesZeros(x: nat, quote: Bytes -> string)
    requires Quotes(quote) && x < TWO64 && !IsNaN(x) && Unsigned63(x) != 0
    ensures var e, keys, row := DivideBy(OrderedInt.TWO63), [DivideBy(0)], RowOfValues([Float(x)]);
            var group := GroupOfValues([Float(OverZero(x, 0))]);
            && MapToGroup(e, keys, quote) == Some(GroupRef(0)) && RowOf(row, group, keys, IeeeDivide)
            && Eval(GroupRef(0), group, IeeeDivide) == Val(Float(if Negative(x) then OrderedInt.TWO63 + INFINITY_BITS else INFINITY_BITS))
            && Eval(e, row, IeeeDivide) == Val(Float(if Negative(x) then INFINITY_BITS else OrderedInt.TWO63 + INFINITY_BITS))
  {
    DivisionsAgree();
    DivisionIsLexical(OrderedInt.TWO63);
    DivisionIsLexical(0);
    FingerprintIff(DivideBy(OrderedInt.TWO63), DivideBy(0), quote);
    OneKeyMatches(DivideBy(OrderedInt.TWO63), DivideBy(0), quote);
    QuotientIs(x, 0);
    QuotientIs(x, OrderedInt.TWO63);
  }

  // ---- what the rewrite accepts ----

  predicate ColumnFree(e: Expr)
    decreases e
  {
    !e.Column? && (e.Node? ==> forall i :: 0 <= i < |e.args| ==> ColumnFree(e.args[i]))
  }

  ghost predicate IsKey(e: Expr, keys: seq<Expr>) { exists k :: 0 <= k < |keys| && CanonExpr(keys[k]) == CanonExpr(e) }

  /** The expression is a key up to floats, or its columns are all inside such keys. */
  ghost predicate Grouped(e: Expr, keys: seq<Expr>)
    decreases e
  {
    IsKey(e, keys) || (!e.Column? && (e.Node? ==> forall i :: 0 <= i < |e.args| ==> Grouped(e.args[i], keys)))
  }

  lemma {:induction false} KeyIndexFinds(e: Expr, keys: seq<Expr>, quote: Bytes -> string)
    requires Lexical(e) && Quotes(quote) && AllLexical(keys)
    ensures KeyIndex(Fingerprint(e, quote), keys, quote).Some? <==> IsKey(e, keys)
    decreases keys
  {
    if keys != [] {
      FingerprintIff(keys[0], e, quote);
      KeyIndexFinds(e, keys[1..], quote);
      if k :| 0 <= k < |keys[1..]| && CanonExpr(keys[1..][k]) == CanonExpr(e) { assert CanonExpr(keys[k + 1]) == CanonExpr(e); }
      if k :| 0 < k < |keys| && CanonExpr(keys[k]) == CanonExpr(e) { assert CanonExpr(keys[1..][k - 1]) == CanonExpr(e); }
    }
  }

  /** The rewrite accepts exactly the expressions whose columns are all inside keys, and its result
      reads no column. */
  lemma {:induction false} AcceptsExactlyGrouped(e: Expr, keys: seq<Expr>, quote: Bytes -> string)
    requires Lexical(e) && AllLexical(keys) && Quotes(quote)
    ensures MapToGroup(e, keys, quote).Some? <==> Grouped(e, keys)
    ensures MapToGroup(e, keys, quote).Some? ==> ColumnFree(MapToGroup(e, keys, quote).value)
    decreases e, 0
  {
    KeyIndexFinds(e, keys, quote);
    if e.Node? { AllAcceptExactly(e.args, keys, quote); }
  }

  lemma {:induction false} AllAcceptExactly(es: seq<Expr>, keys: seq<Expr>, quote: Bytes -> string)
    requires AllLexical(es) && AllLexical(keys) && Quotes(quote)
    ensures MapAll(es, keys, quote).Some? <==> forall i :: 0 <= i < |es| ==> Grouped(es[i], keys)
    ensures MapAll(es, keys, quote).Some? ==>
              forall i :: 0 <= i < |MapAll(es, keys, quote).value| ==> ColumnFree(MapAll(es, keys, quote).value[i])
    decreases es, 0
  {
    if es != [] {
      AcceptsExactlyGrouped(es[0], keys, quote);
      AllAcceptExactly(es[1..], keys, quote);
      assert forall i :: 1 <= i < |es| ==> es[i] == es[1..][i - 1];
    }
  }
}
