/** Family and column names in sorted order: by a creation order first, then by name. */
module Names {
  import opened Lex

  type Name = Bytes

  function SortKey(order: Name -> nat, n: Name): seq<nat> { [order(n)] + n }

  predicate Before(order: Name -> nat, a: Name, b: Name) { Less(SortKey(order, a), SortKey(order, b)) }

  /** Column names have no creation order. */
  function ByName(n: Name): nat { 0 }

  /** By order first, then by name. */
  lemma BeforeMeans(order: Name -> nat, a: Name, b: Name)
    ensures Before(order, a, b) <==> order(a) < order(b) || (order(a) == order(b) && FirstDiffers(a, b))
  {
    var x, y := SortKey(order, a), SortKey(order, b);
    assert x[1..] == a && y[1..] == b;
    LessMeans(a, b);
  }

  lemma BeforeIsTotal(order: Name -> nat, a: Name, b: Name)
    ensures a == b || Before(order, a, b) || Before(order, b, a)
    ensures !(Before(order, a, b) && Before(order, b, a)) && !Before(order, a, a)
  {
    var x, y := SortKey(order, a), SortKey(order, b);
    CompareAntisymmetric(x, y);
    assert x == y ==> x[1..] == a && y[1..] == b;
  }

  lemma BeforeIsTransitive(order: Name -> nat, a: Name, b: Name, c: Name)
    requires Before(order, a, b) && Before(order, b, c)
    ensures Before(order, a, c)
  {
    LessTransitive(SortKey(order, a), SortKey(order, b), SortKey(order, c));
  }

  ghost predicate Arranged(ns: seq<Name>, order: Name -> nat) {
    forall i, j :: 0 <= i < j < |ns| ==> Before(order, ns[i], ns[j])
  }

  ghost function Elements(ns: seq<Name>): set<Name> { set n | n in ns }

  lemma {:induction false} FirstExists(s: set<Name>, order: Name -> nat) returns (m: Name)
    requires s != {}
    ensures m in s && forall n :: n in s && n != m ==> Before(order, m, n)
    decreases |s|
  {
    m :| m in s;
    if s != {m} {
      assert s == s - {m} + {m};
      var n := FirstExists(s - {m}, order);
      BeforeIsTotal(order, m, n);
      if Before(order, m, n) {
        forall x | x in s && x != m ensures Before(order, m, x) {
          if x != n { BeforeIsTransitive(order, m, n, x); }
        }
      } else {
        m := n;
      }
    }
  }

  lemma {:induction false} ArrangementExists(s: set<Name>, order: Name -> nat) returns (ns: seq<Name>)
    ensures Arranged(ns, order) && Elements(ns) == s
    decreases |s|
  {
    if s == {} {
      ns := [];
    } else {
      var m := FirstExists(s, order);
      var t := ArrangementExists(s - {m}, order);
      ArrangedCons(m, t, order);
      ns := [m] + t;
    }
  }

  lemma ArrangedCons(m: Name, t: seq<Name>, order: Name -> nat)
    requires Arranged(t, order) && forall n :: n in Elements(t) ==> Before(order, m, n)
    ensures Arranged([m] + t, order) && Elements([m] + t) == Elements(t) + {m}
  {
    assert forall i :: 0 <= i < |t| ==> t[i] in Elements(t);
  }

  /** The names in order. */
  ghost function Arrange(s: set<Name>, order: Name -> nat): (ns: seq<Name>)
    ensures Arranged(ns, order) && Elements(ns) == s
  {
    assert exists ns :: Arranged(ns, order) && Elements(ns) == s by { var ns := ArrangementExists(s, order); }
    var ns :| Arranged(ns, order) && Elements(ns) == s;
    ns
  }

  lemma ArrangeNothing(order: Name -> nat)
    ensures Arrange({}, order) == []
  {
    assert Elements([]) == {};
    ArrangedUnique([], Arrange({}, order), order);
  }

  lemma {:induction false} ArrangedUnique(q: seq<Name>, r: seq<Name>, order: Name -> nat)
    requires Arranged(q, order) && Arranged(r, order) && Elements(q) == Elements(r)
    ensures q == r
  {
    if q == [] {
      assert forall i :: 0 <= i < |r| ==> r[i] in Elements(r);
    } else {
      assert q[0] in Elements(r) && r != [];
      assert r[0] in Elements(q);
      BeforeIsTotal(order, q[0], r[0]);
      assert q[0] == r[0];
      ArrangedTail(q, order);
      ArrangedTail(r, order);
      ArrangedUnique(q[1..], r[1..], order);
      assert q == [q[0]] + q[1..] && r == [r[0]] + r[1..];
    }
  }

  lemma ArrangedDistinct(ns: seq<Name>, order: Name -> nat, i: nat)
    requires Arranged(ns, order) && i < |ns|
    ensures ns[i] !in ns[..i]
  {
    BeforeIsTotal(order, ns[i], ns[i]);
  }

  lemma ArrangedTail(q: seq<Name>, order: Name -> nat)
    requires q != [] && Arranged(q, order)
    ensures Arranged(q[1..], order) && Elements(q[1..]) == Elements(q) - {q[0]}
  {
    BeforeIsTotal(order, q[0], q[0]);
    assert q == [q[0]] + q[1..];
    forall i | 0 <= i < |q[1..]| ensures q[1..][i] != q[0] { assert Before(order, q[0], q[i + 1]); }
  }

  /** A new name goes to its place. */
  method InsertName(ns: seq<Name>, x: Name, order: Name -> nat) returns (r: seq<Name>)
    requires Arranged(ns, order) && x !in ns
    ensures r == Arrange(Elements(ns) + {x}, order)
  {
    var i := 0;
    while i < |ns| && Before(order, ns[i], x)
      invariant 0 <= i <= |ns| && forall k :: 0 <= k < i ==> Before(order, ns[k], x)
    {
      i := i + 1;
    }
    r := ns[..i] + [x] + ns[i..];
    InsertedArranged(ns, x, order, i);
    ArrangedUnique(r, Arrange(Elements(ns) + {x}, order), order);
  }

  lemma InsertedArranged(ns: seq<Name>, x: Name, order: Name -> nat, i: nat)
    requires Arranged(ns, order) && x !in ns && i <= |ns|
    requires forall k :: 0 <= k < i ==> Before(order, ns[k], x)
    requires i < |ns| ==> !Before(order, ns[i], x)
    ensures var r := ns[..i] + [x] + ns[i..]; Arranged(r, order) && Elements(r) == Elements(ns) + {x}
  {
    forall k | i <= k < |ns| ensures Before(order, x, ns[k]) {
      BeforeIsTotal(order, x, ns[i]);
      if k > i { BeforeIsTransitive(order, x, ns[i], ns[k]); }
    }
    assert ns == ns[..i] + ns[i..];
  }

  /** Sorting names in whatever order a map yields them. */
  method SortNames(s: set<Name>, order: Name -> nat) returns (ns: seq<Name>)
    ensures ns == Arrange(s, order)
  {
    ns := [];
    var todo := s;
    ArrangeNothing(order);
    assert s - todo == {};
    while todo != {}
      invariant todo <= s && ns == Arrange(s - todo, order)
      decreases |todo|
    {
      var x :| x in todo;
      assert x !in Elements(ns);
      ns := InsertName(ns, x, order);
      assert s - (todo - {x}) == s - todo + {x};
      todo := todo - {x};
    }
    assert s - todo == s;
  }

  /** Removing a name keeps the order of the rest. */
  method RemoveName(ns: seq<Name>, x: Name, order: Name -> nat) returns (r: seq<Name>)
    requires Arranged(ns, order)
    ensures r == Arrange(Elements(ns) - {x}, order)
  {
    var i := 0;
    while i < |ns|
      invariant 0 <= i <= |ns| && forall k :: 0 <= k < i ==> ns[k] != x
    {
      if ns[i] == x {
        r := ns[..i] + ns[i + 1..];
        RemovedArranged(ns, order, i);
        ArrangedUnique(r, Arrange(Elements(ns) - {x}, order), order);
        return;
      }
      i := i + 1;
    }
    assert Elements(ns) - {x} == Elements(ns);
    ArrangedUnique(ns, Arrange(Elements(ns), order), order);
    r := ns;
  }

  lemma RemovedArranged(ns: seq<Name>, order: Name -> nat, i: nat)
    requires Arranged(ns, order) && i < |ns|
    ensures var r := ns[..i] + ns[i + 1..]; Arranged(r, order) && Elements(r) == Elements(ns) - {ns[i]}
  {
    var r := ns[..i] + ns[i + 1..];
    forall k | 0 <= k < |ns| && k != i ensures ns[k] != ns[i] {
      BeforeIsTotal(order, ns[i], ns[i]);
    }
    assert forall k :: 0 <= k < |r| ==> r[k] == if k < i then ns[k] else ns[k + 1];
    forall n | n in Elements(ns) - {ns[i]} ensures n in r {
      var k :| 0 <= k < |ns| && ns[k] == n;
      assert r[if k < i then k else k - 1] == n;
    }
  }
}
