/** What the conditions of a WHERE clause mean. */
module ExprLaws {
  import opened Basics
  import opened Lex
  import opened LikePattern
  import opened KeyRanges

  // ---- AND and OR ----

  /** FALSE is below NULL, and NULL below TRUE. */
  function Rank(t: Truth): nat
    requires t != Error
  {
    if t == True then 2 else if t == Unknown then 1 else 0
  }

  /** The left side is evaluated first. FALSE on the left decides AND whatever the right side does;
      otherwise an error on either side is one, and without errors AND is the lesser of the two. */
  lemma {:induction false} AndMeans(l: Expr, r: Expr, row: Row)
    ensures var a, b, both := Eval(l, row), Eval(r, row), Eval(And(l, r), row);
            && (a == False ==> both == False)
            && (a == Error || (b == Error && a != False) ==> both == Error)
            && (a != Error && b != Error ==> both != Error && Rank(both) == Min(Rank(a), Rank(b)))
  {
  }

  /** TRUE on the left decides OR whatever the right side does; otherwise an error on either side is
      one, and without errors OR is the greater of the two. */
  lemma {:induction false} OrMeans(l: Expr, r: Expr, row: Row)
    ensures var a, b, either := Eval(l, row), Eval(r, row), Eval(Or(l, r), row);
            && (a == True ==> either == True)
            && (a == Error || (b == Error && a != True) ==> either == Error)
            && (a != Error && b != Error ==> either != Error && Min(Rank(a), Rank(b)) + Rank(either) == Rank(a) + Rank(b))
  {
  }

  /** Conditions in a row can be grouped in any way, errors included. */
  lemma {:induction false} JunctionsAssociate(x: Expr, y: Expr, z: Expr, row: Row)
    ensures Eval(And(And(x, y), z), row) == Eval(And(x, And(y, z)), row)
    ensures Eval(Or(Or(x, y), z), row) == Eval(Or(x, Or(y, z)), row)
  {
  }

  // ---- comparisons ----

  predicate Fail(o: Operand, row: Row) { Eval1(o, row).Fails? }

  predicate Null(o: Operand, row: Row) { Eval1(o, row).IsNull? }

  /** A comparison fails with its operands, is NULL when one of them is, and otherwise compares bytes. */
  lemma ComparisonMeans(op: Op, x: Operand, y: Operand, row: Row)
    ensures var t := Eval(Cmp(op, x, y), row);
            if Fail(x, row) || Fail(y, row) then t == Error
            else if Null(x, row) || Null(y, row) then t == Unknown
            else
              var a, b := Eval1(x, row).b, Eval1(y, row).b;
              t != Error && t != Unknown && (t == True <==>
                match op
                case Eq => a == b
                case Lt => FirstDiffers(a, b)
                case Le => !FirstDiffers(b, a)
                case Gt => FirstDiffers(b, a)
                case Ge => !FirstDiffers(a, b))
  {
    var a, b := Eval1(x, row), Eval1(y, row);
    if a.Is? && b.Is? {
      LessMeans(a.b, b.b);
      LessMeans(b.b, a.b);
      CompareAntisymmetric(a.b, b.b);
    }
  }

  /** BETWEEN is two comparisons, except that it fails with any of its operands. */
  lemma BetweenMeans(x: Operand, lo: Operand, hi: Operand, row: Row)
    ensures Eval(Between(x, lo, hi), row) ==
              if Fail(x, row) || Fail(lo, row) || Fail(hi, row) then Error
              else Eval(And(Cmp(Ge, x, lo), Cmp(Le, x, hi)), row)
  {
    var a, b, c := Eval1(x, row), Eval1(lo, row), Eval1(hi, row);
    if a.Is? && b.Is? { CompareAntisymmetric(a.b, b.b); }
    if a.Is? && c.Is? { CompareAntisymmetric(a.b, c.b); }
  }

  // ---- IN ----

  /** `x = list[0] OR x = list[1] OR …`; FALSE for an empty list. */
  ghost function AnyEqual(x: Operand, list: seq<Operand>): Expr {
    if list == [] then Other(row => False) else Or(Cmp(Eq, x, list[0]), AnyEqual(x, list[1..]))
  }

  predicate NoneFails(bs: seq<Bound>) { forall i :: 0 <= i < |bs| ==> !bs[i].Fails? }

  lemma InResultStep(x: Bound, b: Bound, bs: seq<Bound>)
    requires !x.Fails? && !b.Fails? && NoneFails(bs)
    ensures var first := if x.IsNull? || b.IsNull? then Unknown else Decide(x == b);
            var rest := if bs == [] then False else InResult(x, bs);
            InResult(x, [b] + bs) ==
              if first == True || rest == True then True else if first == Unknown || rest == Unknown then Unknown else False
  {
  }

  lemma {:induction false} AnyEqualMeans(x: Operand, list: seq<Operand>, row: Row)
    requires !Fail(x, row) && NoneFails(ListBounds(list, row))
    ensures Eval(AnyEqual(x, list), row) == if list == [] then False else InResult(Eval1(x, row), ListBounds(list, row))
  {
    if list != [] {
      var bs := ListBounds(list, row);
      assert ListBounds(list[1..], row) == bs[1..];
      AnyEqualMeans(x, list[1..], row);
      assert bs == [bs[0]] + bs[1..];
      InResultStep(Eval1(x, row), bs[0], bs[1..]);
      assert Eval(Cmp(Eq, x, list[0]), row) ==
               if Null(x, row) || bs[0].IsNull? then Unknown else Decide(Eval1(x, row) == bs[0]);
    }
  }

  /** IN is equality with one of the list, except that it fails with any of its operands. */
  lemma InMeans(x: Operand, list: seq<Operand>, row: Row)
    requires list != []
    ensures Eval(In(x, list), row) ==
              if Fail(x, row) || exists i :: 0 <= i < |list| && Fail(list[i], row) then Error
              else Eval(AnyEqual(x, list), row)
  {
    var bs := ListBounds(list, row);
    if i :| 0 <= i < |list| && Fail(list[i], row) {
      assert bs[i] == Fails;
    } else if !Fail(x, row) {
      assert Fails !in bs;
      AnyEqualMeans(x, list, row);
    }
  }

  function Constants(es: seq<Option<Bytes>>): (r: seq<Operand>)
    ensures |r| == |es| && forall i :: 0 <= i < |r| ==> r[i] == Constant(if es[i].None? then IsNull else Is(es[i].value))
  {
    seq(|es|, i requires 0 <= i < |es| => Constant(if es[i].None? then IsNull else Is(es[i].value)))
  }

  /** IN UNNEST is the same for the elements of an array, and FALSE for an empty or NULL one. */
  lemma UnnestMeans(x: Operand, es: seq<Option<Bytes>>, row: Row)
    requires !Fail(x, row)
    ensures Eval(InUnnest(x, ConstantArray(Elems(es))), row) == Eval(AnyEqual(x, Constants(es)), row)
    ensures Eval(InUnnest(x, ConstantArray(NoArray(false))), row) == False
  {
    AnyEqualMeans(x, Constants(es), row);
    assert ListBounds(Constants(es), row) == ElementBounds(es);
  }

  // ---- STARTS_WITH and LIKE ----

  /** TRUE exactly for a key that is the prefix and something after it. */
  lemma PrefixMeans(x: Operand, pre: Operand, row: Row)
    ensures Eval(StartsWith(x, pre), row) == True <==>
            !Fail(x, row) && !Fail(pre, row) && !Null(x, row) && !Null(pre, row) &&
            exists rest :: Eval1(x, row).b == Eval1(pre, row).b + rest
  {
    var a, b := Eval1(x, row), Eval1(pre, row);
    if a.Is? && b.Is? && b.b <= a.b { assert a.b == b.b + a.b[|b.b|..]; }
  }

  lemma TokensStep(p: seq<nat>) returns (n: nat, t: Tok)
    requires Complete(p) && p != []
    ensures 1 <= n <= 2 && n <= |p| && Complete(p[n..])
    ensures forall q :: Complete(p[n..] + q) ==> Complete(p + q) && Tokens(p + q) == [t] + Tokens(p[n..] + q)
  {
    n, t := if p[0] == BACKSLASH then 2 else 1, if p[0] == BACKSLASH then Lit(p[1]) else Token(p[0]);
    forall q | Complete(p[n..] + q) ensures Complete(p + q) && Tokens(p + q) == [t] + Tokens(p[n..] + q) {
      assert (p + q)[n..] == p[n..] + q;
    }
  }

  lemma {:induction false} TokensConcat(p: seq<nat>, q: seq<nat>)
    requires Complete(p) && Complete(q)
    ensures Complete(p + q) && Tokens(p + q) == Tokens(p) + Tokens(q)
  {
    if p == [] {
      assert p + q == q;
    } else {
      var n, t := TokensStep(p);
      TokensConcat(p[n..], q);
      assert p[n..] + [] == p[n..] && p + [] == p;
      Associative([t], Tokens(p[n..]), Tokens(q));
    }
  }

  /** A pattern matches in parts. */
  lemma LikeConcat(p: seq<nat>, q: seq<nat>, s: seq<nat>)
    requires Complete(p) && Complete(q)
    ensures Like(p + q, s) <==> exists k :: 0 <= k <= |s| && Like(p, s[..k]) && Like(q, s[k..])
  {
    TokensConcat(p, q);
    TokensMean(p + q, s);
    MatchesConcat(Tokens(p), Tokens(q), s);
    forall k | 0 <= k <= |s|
      ensures Matches(Tokens(p), s[..k]) <==> Like(p, s[..k])
      ensures Matches(Tokens(q), s[k..]) <==> Like(q, s[k..])
    {
      TokensMean(p, s[..k]);
      TokensMean(q, s[k..]);
    }
    if k :| 0 <= k <= |s| && Like(p, s[..k]) && Like(q, s[k..]) {
      assert Matches(Tokens(p), s[..k]) && Matches(Tokens(q), s[k..]);
    }
  }

  /** The parts: `%` matches anything, `_` one character, an escaped character itself, and any other
      character itself. */
  lemma LikeParts(c: nat, s: seq<nat>)
    ensures Like([], s) <==> s == []
    ensures Like([PERCENT], s)
    ensures Like([UNDERSCORE], s) <==> |s| == 1
    ensures Like([BACKSLASH, c], s) <==> s == [c]
    ensures c != PERCENT && c != UNDERSCORE && c != BACKSLASH ==> (Like([c], s) <==> s == [c])
  {
    assert s[|s|..] == [] && Like([], s[|s|..]) && [PERCENT][1..] == [] && [UNDERSCORE][1..] == [] && [c][1..] == [];
    assert [BACKSLASH, c][2..] == [];
    if s != [] { assert s == [s[0]] + s[1..]; }
  }
}
