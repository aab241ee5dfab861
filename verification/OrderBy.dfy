/** ORDER BY: comparing rows of keys under directions and the placing of NULL. */
module OrderBy {
  import opened Values
  import opened Exec
  import opened ExecMeaning

  datatype Spec = Spec(desc: bool, nullsLast: bool)

  /** NULL is first unless told otherwise, whatever the direction. */
  function CompareKeys(s: Spec, x: Value, y: Value): int {
    if x.Null? || y.Null? then
      if x.Null? && y.Null? then 0 else if x.Null? == s.nullsLast then 1 else -1
    else if s.desc then -CompareValues(x, y)
    else CompareValues(x, y)
  }

  /** The first key that separates the rows decides. */
  function CompareOrder(specs: seq<Spec>, a: seq<Value>, b: seq<Value>): int
    requires |specs| <= |a| && |specs| <= |b|
  {
    if specs == [] then 0
    else if CompareKeys(specs[0], a[0], b[0]) != 0 then CompareKeys(specs[0], a[0], b[0])
    else CompareOrder(specs[1..], a[1..], b[1..])
  }

  /** The loop of the source. */
  method Compare(specs: seq<Spec>, a: seq<Value>, b: seq<Value>) returns (c: int)
    requires |specs| <= |a| && |specs| <= |b|
    ensures c == CompareOrder(specs, a, b)
  {
    for i := 0 to |specs|
      invariant CompareOrder(specs, a, b) == CompareOrder(specs[i..], a[i..], b[i..])
    {
      var s, x, y := specs[i], a[i], b[i];
      assert specs[i..][1..] == specs[i + 1..] && a[i..][1..] == a[i + 1..] && b[i..][1..] == b[i + 1..];
      if x.Null? && y.Null? {
        c := 0;
      } else if x.Null? || y.Null? {
        c := if y.Null? then 1 else -1;
        return if s.nullsLast then -c else c;
      } else {
        c := CompareValues(x, y);
      }
      if s.desc {
        c := -c;
      }
      if c != 0 {
        return;
      }
    }
    c := 0;
  }

  // ---- one key ----

  lemma KeysAntisymmetric(s: Spec, x: Value, y: Value)
    ensures CompareKeys(s, x, y) == -CompareKeys(s, y, x)
  {
    CompareAntisym(x, y);
  }

  lemma KeysTransitive(s: Spec, x: Value, y: Value, z: Value, t: Type)
    requires HasType(x, t) && HasType(y, t) && HasType(z, t) && CompareKeys(s, x, y) <= 0 && CompareKeys(s, y, z) <= 0
    ensures CompareKeys(s, x, z) <= 0
    ensures CompareKeys(s, x, z) == 0 ==> CompareKeys(s, x, y) == 0 && CompareKeys(s, y, z) == 0
  {
    TotalPreorder(x, y, z, t);
    TotalPreorder(z, y, x, t);
    TotalPreorder(x, z, y, t);
    TotalPreorder(z, x, y, t);
    TotalPreorder(y, z, x, t);
    TotalPreorder(y, x, z, t);
    CompareAntisym(x, y);
    CompareAntisym(y, z);
    CompareAntisym(x, z);
  }

  // ---- rows of keys ----

  predicate KeysTyped(keys: seq<Value>, tys: seq<Type>) {
    |keys| == |tys| && forall i :: 0 <= i < |keys| ==> HasType(keys[i], tys[i])
  }

  lemma {:induction false} OrderAntisymmetric(specs: seq<Spec>, a: seq<Value>, b: seq<Value>)
    requires |specs| <= |a| && |specs| <= |b|
    ensures CompareOrder(specs, a, b) == -CompareOrder(specs, b, a)
  {
    if specs != [] {
      KeysAntisymmetric(specs[0], a[0], b[0]);
      OrderAntisymmetric(specs[1..], a[1..], b[1..]);
    }
  }

  lemma {:induction false} OrderTransitive(specs: seq<Spec>, a: seq<Value>, b: seq<Value>, c: seq<Value>, tys: seq<Type>)
    requires KeysTyped(a, tys) && KeysTyped(b, tys) && KeysTyped(c, tys) && |specs| <= |tys|
    requires CompareOrder(specs, a, b) <= 0 && CompareOrder(specs, b, c) <= 0
    ensures CompareOrder(specs, a, c) <= 0
  {
    if specs != [] {
      KeysTransitive(specs[0], a[0], b[0], c[0], tys[0]);
      if CompareKeys(specs[0], a[0], c[0]) == 0 { OrderTransitive(specs[1..], a[1..], b[1..], c[1..], tys[1..]); }
    }
  }

  /** Up to the deciding key the rows tie. There, NULL is last when it should be and first otherwise,
      and two values come in their own order, or in the opposite one when descending. */
  lemma {:induction false} OrderMeans(specs: seq<Spec>, a: seq<Value>, b: seq<Value>) returns (k: nat)
    requires |specs| <= |a| && |specs| <= |b|
    ensures k <= |specs| && forall i :: 0 <= i < k ==> CompareValues(a[i], b[i]) == 0
    ensures k == |specs| ==> CompareOrder(specs, a, b) == 0
    ensures k < |specs| ==>
              && CompareValues(a[k], b[k]) != 0
              && (CompareOrder(specs, a, b) < 0 <==>
                    if a[k] == Null then !specs[k].nullsLast
                    else if b[k] == Null then specs[k].nullsLast
                    else if specs[k].desc then CompareValues(a[k], b[k]) > 0
                    else CompareValues(a[k], b[k]) < 0)
  {
    if specs == [] {
      k := 0;
    } else if CompareKeys(specs[0], a[0], b[0]) != 0 {
      k := 0;
    } else {
      var j := OrderMeans(specs[1..], a[1..], b[1..]);
      k := j + 1;
      forall i | 0 <= i < k ensures CompareValues(a[i], b[i]) == 0 {
        if i > 0 { assert a[i] == a[1..][i - 1] && b[i] == b[1..][i - 1]; }
      }
    }
  }

  // ---- sorting ----

  /** The plan's order is that of its ORDER BY keys. */
  ghost predicate Orders(p: Plan, specs: seq<Spec>, rows: set<OutRow>, tys: seq<Type>) {
    && |specs| <= |tys|
    && (forall x :: x in rows ==> KeysTyped(x.keys, tys))
    && (forall x, y :: x in rows && y in rows ==> (p.less(x, y) <==> Below(specs, x, y)))
  }

  predicate Below(specs: seq<Spec>, x: OutRow, y: OutRow) {
    |specs| <= |x.keys| && |specs| <= |y.keys| && CompareOrder(specs, x.keys, y.keys) < 0
  }

  lemma KeysOrder(p: Plan, specs: seq<Spec>, rows: set<OutRow>, tys: seq<Type>)
    requires Orders(p, specs, rows, tys)
    ensures Ordering(p, rows)
  {
    forall a, b | a in rows && b in rows ensures NotAfter(p, a, b) || NotAfter(p, b, a) {
      OrderAntisymmetric(specs, a.keys, b.keys);
    }
    forall a, b, c | a in rows && b in rows && c in rows && NotAfter(p, a, b) && NotAfter(p, b, c) ensures NotAfter(p, a, c) {
      OrderAntisymmetric(specs, a.keys, b.keys);
      OrderAntisymmetric(specs, b.keys, c.keys);
      OrderAntisymmetric(specs, a.keys, c.keys);
      OrderTransitive(specs, a.keys, b.keys, c.keys, tys);
    }
  }

  /** ORDER BY emits a permutation of the rows in the order of their keys, and rows with equal keys
      in the order they came. */
  lemma OrderBySorts(p: Plan, specs: seq<Spec>, rows: seq<OutRow>, tys: seq<Type>, i: nat, j: nat, like: OutRow)
    requires Orders(p, specs, Distinct(rows), tys) && i < j < |rows| && like in rows
    ensures var r := Exec.Sorted(p, rows);
            && multiset(r) == multiset(rows) && |r| == |rows| && !Below(specs, r[j], r[i])
            && Ties(p, r, like) == Ties(p, rows, like)
  {
    KeysOrder(p, specs, Distinct(rows), tys);
    SortedSorts(p, rows, Distinct(rows));
    SortedIsStable(p, rows, like, Distinct(rows));
    var r := Exec.Sorted(p, rows);
    assert |r| == |multiset(r)| == |multiset(rows)|;
    SameAmong(rows, r, Distinct(rows));
    assert !p.less(r[j], r[i]);
  }

  ghost function Distinct(rows: seq<OutRow>): set<OutRow> { set x | x in rows }
}
