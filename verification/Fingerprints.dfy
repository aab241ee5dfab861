/** Fingerprints of bound expressions: two expressions have the same one exactly when they differ at
    most in floats that hash alike. */
module Fingerprints {
  import opened Basics
  import opened Lex
  import opened Values
  import OrderedInt
  import Uvarint

  datatype Expr =
    | Const(typ: string, val: Value)
    | Param(i: nat)
    | Column(i: nat)
    | GroupRef(i: nat)
    | AggRef(spec: Spec)
    | Node(op: string, extra: string, args: seq<Expr>, safe: bool)

  /** An aggregate call. */
  datatype Spec = Spec(name: string, star: bool, distinct: bool, ignoreNulls: bool, args: seq<Expr>, order: seq<Order>,
                       limit: Option<Expr>)

  datatype Order = Order(expr: Expr, desc: bool, nullsLast: bool)

  // ---- values and their key bytes ----

  predicate WellFormed(v: Value)
    decreases v, 1
  {
    match v
    case Int(i) => OrderedInt.Int64(i)
    case Float(bits) => bits < TWO64
    case Ts(us) => OrderedInt.Int64(us)
    case Date(d) => -TWO31 <= d < TWO31
    case Array(es) => AllWellFormed(es)
    case Struct(es) => AllWellFormed(es)
    case Map(es) => |es| % 2 == 0 && AllWellFormed(es)
    case _ => true
  }

  predicate AllWellFormed(es: seq<Value>)
    decreases es, 0
  {
    es == [] || (WellFormed(es[0]) && AllWellFormed(es[1..]))
  }

  /** Every float has the pattern that hashing gives it: no negative zero, and one NaN. */
  predicate Canonical(v: Value)
    decreases v, 1
  {
    match v
    case Float(bits) => CanonicalBits(bits) == bits
    case Array(es) => AllCanonical(es)
    case Struct(es) => AllCanonical(es)
    case Map(es) => AllCanonical(es)
    case _ => true
  }

  predicate AllCanonical(es: seq<Value>)
    decreases es, 0
  {
    es == [] || (Canonical(es[0]) && AllCanonical(es[1..]))
  }

  function Canon(v: Value): Value
    decreases v, 1
  {
    match v
    case Float(bits) => Float(CanonicalBits(bits))
    case Array(es) => Array(CanonAll(es))
    case Struct(es) => Struct(CanonAll(es))
    case Map(es) => Map(CanonAll(es))
    case _ => v
  }

  function CanonAll(es: seq<Value>): (r: seq<Value>)
    ensures |r| == |es|
    decreases es, 0
  {
    if es == [] then [] else [Canon(es[0])] + CanonAll(es[1..])
  }

  /** Key bytes, whatever follows them, determine a value up to its floats' patterns. */
  lemma {:induction false} KeyDeterminesCanon(a: Value, b: Value, s: Bytes, t: Bytes)
    requires WellFormed(a) && WellFormed(b) && Key(a) + s == Key(b) + t
    ensures Canon(a) == Canon(b) && s == t
    decreases a, 2
  {
    Associative([Tag(a)], Body(a), s);
    Associative([Tag(b)], Body(b), t);
    ByteDetermines(Tag(a), Tag(b), Body(a) + s, Body(b) + t);
    match a
    case Null => assert Body(a) + s == s && Body(b) + t == t;
    case Bool(x) => ByteDetermines(if x then 1 else 0, if b.b then 1 else 0, s, t);
    case Int(i) => Int64Determines(i, b.i, s, t);
    case Float(bits) =>
      FloatDetermines(bits, b.bits, s, t);
      SameFloat(bits, b.bits);
    case Str(x) => LengthPrefixed(x, b.s, s, t);
    case Byt(x) => LengthPrefixed(x, b.s, s, t);
    case Ts(us) => Int64Determines(us, b.us, s, t);
    case Date(d) => DateDetermines(d, b.days, s, t);
    case Array(es) => ElemsDetermineCanon(|es|, |b.elems|, es, b.elems, s, t);
    case Struct(es) => ElemsDetermineCanon(|es|, |b.elems|, es, b.elems, s, t);
    case Map(es) => ElemsDetermineCanon(|es| / 2, |b.elems| / 2, es, b.elems, s, t);
  }

  lemma {:induction false} ElemsDetermineCanon(n: nat, m: nat, x: seq<Value>, y: seq<Value>, s: Bytes, t: Bytes)
    requires AllWellFormed(x) && AllWellFormed(y) && (n == m ==> |x| == |y|)
    requires Uvarint.Encode(n) + Keys(x) + s == Uvarint.Encode(m) + Keys(y) + t
    ensures CanonAll(x) == CanonAll(y) && s == t
    decreases x, 1
  {
    Associative(Uvarint.Encode(n), Keys(x), s);
    Associative(Uvarint.Encode(m), Keys(y), t);
    Uvarint.PrefixFree(n, m, Keys(x) + s, Keys(y) + t);
    KeysDetermineCanon(x, y, s, t);
  }

  lemma {:induction false} KeysDetermineCanon(x: seq<Value>, y: seq<Value>, s: Bytes, t: Bytes)
    requires |x| == |y| && AllWellFormed(x) && AllWellFormed(y) && Keys(x) + s == Keys(y) + t
    ensures CanonAll(x) == CanonAll(y) && s == t
    decreases x, 0
  {
    if x == [] {
      assert Keys(x) + s == s && Keys(y) + t == t;
    } else {
      Associative(Key(x[0]), Keys(x[1..]), s);
      Associative(Key(y[0]), Keys(y[1..]), t);
      KeyDeterminesCanon(x[0], y[0], Keys(x[1..]) + s, Keys(y[1..]) + t);
      KeysDetermineCanon(x[1..], y[1..], s, t);
    }
  }

  lemma {:induction false} KeyOfCanon(v: Value)
    ensures Key(Canon(v)) == Key(v)
    decreases v, 1
  {
    match v
    case Array(es) => KeysOfCanon(es);
    case Struct(es) => KeysOfCanon(es);
    case Map(es) => KeysOfCanon(es);
    case _ =>
  }

  lemma {:induction false} KeysOfCanon(es: seq<Value>)
    ensures Keys(CanonAll(es)) == Keys(es)
    decreases es, 0
  {
    if es != [] {
      KeyOfCanon(es[0]);
      KeysOfCanon(es[1..]);
      assert CanonAll(es)[1..] == CanonAll(es[1..]);
    }
  }

  lemma {:induction false} CanonIsCanonical(v: Value)
    ensures Canonical(Canon(v)) && (Canonical(v) <==> Canon(v) == v) && (WellFormed(v) ==> WellFormed(Canon(v)))
    decreases v, 1
  {
    match v
    case Array(es) => CanonAllIsCanonical(es);
    case Struct(es) => CanonAllIsCanonical(es);
    case Map(es) => CanonAllIsCanonical(es);
    case _ =>
  }

  lemma {:induction false} CanonAllIsCanonical(es: seq<Value>)
    ensures AllCanonical(CanonAll(es)) && (AllCanonical(es) <==> CanonAll(es) == es)
    ensures AllWellFormed(es) ==> AllWellFormed(CanonAll(es))
    decreases es, 0
  {
    if es != [] {
      CanonIsCanonical(es[0]);
      CanonAllIsCanonical(es[1..]);
      assert CanonAll(es)[1..] == CanonAll(es[1..]) && es == [es[0]] + es[1..];
    }
  }

  /** Rows hash alike exactly when they agree up to the patterns of their floats. */
  lemma SameHashIff(x: seq<Value>, y: seq<Value>)
    requires |x| == |y| && AllWellFormed(x) && AllWellFormed(y)
    ensures Keys(x) == Keys(y) <==> CanonAll(x) == CanonAll(y)
  {
    if Keys(x) == Keys(y) { KeysDetermineCanon(x, y, [], []); }
    KeysOfCanon(x);
    KeysOfCanon(y);
  }

  /** Rows of canonical values in one hashed group have the same key values. */
  lemma SameHashSameKeys(x: seq<Value>, y: seq<Value>)
    requires |x| == |y| && AllWellFormed(x) && AllWellFormed(y) && AllCanonical(x) && AllCanonical(y) && Keys(x) == Keys(y)
    ensures x == y
  {
    SameHashIff(x, y);
    CanonAllIsCanonical(x);
    CanonAllIsCanonical(y);
  }

  /** A value that is not canonical shares its key bytes with its canonical form, and only such a value
      shares them with another canonical one. */
  lemma CanonicalIff(v: Value)
    requires WellFormed(v)
    ensures Canonical(v) <==> forall w :: WellFormed(w) && Canonical(w) && Key(w) == Key(v) ==> w == v
  {
    CanonIsCanonical(v);
    KeyOfCanon(v);
    if Canonical(v) {
      forall w | WellFormed(w) && Canonical(w) && Key(w) == Key(v) ensures w == v {
        KeyDeterminesCanon(w, v, [], []);
        CanonIsCanonical(w);
      }
    }
  }

  // ---- values that share their key bytes with no other ----

  /** No float inside is a zero or a NaN. */
  predicate Plain(v: Value)
    decreases v, 1
  {
    match v
    case Float(bits) => !IsNaN(bits) && Unsigned63(bits) != 0
    case Array(es) => AllPlain(es)
    case Struct(es) => AllPlain(es)
    case Map(es) => AllPlain(es)
    case _ => true
  }

  predicate AllPlain(es: seq<Value>)
    decreases es, 0
  {
    es == [] || (Plain(es[0]) && AllPlain(es[1..]))
  }

  lemma {:induction false} PlainIsAlone(v: Value, w: Value)
    requires Plain(v) && Canon(v) == Canon(w)
    ensures v == w
    decreases v, 1
  {
    match v
    case Array(es) => AllPlainAreAlone(es, w.elems);
    case Struct(es) => AllPlainAreAlone(es, w.elems);
    case Map(es) => AllPlainAreAlone(es, w.elems);
    case _ =>
  }

  lemma {:induction false} AllPlainAreAlone(x: seq<Value>, y: seq<Value>)
    requires AllPlain(x) && CanonAll(x) == CanonAll(y)
    ensures x == y
    decreases x, 0
  {
    if x != [] {
      assert CanonAll(x)[0] == CanonAll(y)[0] && CanonAll(x)[1..] == CanonAll(y)[1..];
      PlainIsAlone(x[0], y[0]);
      AllPlainAreAlone(x[1..], y[1..]);
      assert x == [x[0]] + x[1..] && y == [y[0]] + y[1..];
    }
  }

  /** The zero of the other sign, or another NaN. */
  function TwinBits(bits: nat): (r: nat)
    requires bits < TWO64 && (IsNaN(bits) || Unsigned63(bits) == 0)
    ensures r < TWO64 && r != bits && CanonicalBits(r) == CanonicalBits(bits)
  {
    if IsNaN(bits) then (if bits == NAN_BITS then NAN_BITS + 1 else NAN_BITS)
    else if bits == 0 then OrderedInt.TWO63 else 0
  }

  lemma {:induction false} HasTwin(v: Value) returns (w: Value)
    requires WellFormed(v) && !Plain(v)
    ensures WellFormed(w) && w != v && Canon(w) == Canon(v)
    decreases v, 1
  {
    match v
    case Float(bits) => w := Float(TwinBits(bits));
    case Array(es) => var r := HaveTwin(es); w := Array(r);
    case Struct(es) => var r := HaveTwin(es); w := Struct(r);
    case Map(es) => var r := HaveTwin(es); w := Map(r);
  }

  lemma {:induction false} HaveTwin(x: seq<Value>) returns (y: seq<Value>)
    requires AllWellFormed(x) && !AllPlain(x)
    ensures AllWellFormed(y) && |y| == |x| && y != x && CanonAll(y) == CanonAll(x)
    decreases x, 0
  {
    var rest := x[1..];
    if Plain(x[0]) {
      var r := HaveTwin(rest);
      y := [x[0]] + r;
      assert y[1..] == r && x[1..] == rest;
    } else {
      var w := HasTwin(x[0]);
      y := [w] + rest;
      assert y[0] == w && y[1..] == rest;
    }
  }

  ghost predicate SameGroup(x: seq<Value>, y: seq<Value>) { |x| == |y| && AllWellFormed(y) && Keys(x) == Keys(y) }

  /** A row is the only one with its key bytes exactly when no float in it is a zero or a NaN. */
  lemma AloneIff(x: seq<Value>)
    requires AllWellFormed(x)
    ensures AllPlain(x) <==> forall y :: SameGroup(x, y) ==> y == x
  {
    if AllPlain(x) {
      forall y | SameGroup(x, y) ensures y == x {
        SameHashIff(x, y);
        AllPlainAreAlone(x, y);
      }
    } else {
      var y := HaveTwin(x);
      SameHashIff(x, y);
      assert SameGroup(x, y);
    }
  }

  // ---- fingerprints ----

  /** How the key bytes of a constant are quoted. */
  ghost predicate Quotes(quote: Bytes -> string) {
    forall a, b, s, t :: quote(a) + s == quote(b) + t ==> a == b && s == t
  }

  function Digits(n: nat): (r: string)
    ensures r != "" && forall i :: 0 <= i < |r| ==> '0' <= r[i] <= '9'
  {
    var d := ['0' + (n % 10) as char];
    if n < 10 then d else Digits(n / 10) + d
  }

  function Flag(lit: string, on: bool): string { if on then lit else "" }

  function Fingerprint(e: Expr, quote: Bytes -> string): string { Print(e, quote, "") }

  /** The fingerprint, followed by `rest`. */
  function Print(e: Expr, quote: Bytes -> string, rest: string): string
    decreases e, 0
  {
    match e
    case Const(typ, val) => "K" + (typ + (":" + (quote(Key(val)) + rest)))
    case Param(i) => "P" + (Digits(i) + rest)
    case Column(i) => "C" + (Digits(i) + rest)
    case GroupRef(i) => "G" + (Digits(i) + rest)
    case AggRef(p) => "A" + PrintSpec(p, quote, rest)
    case Node(op, extra, args, safe) => op + ("[" + (extra + ("]" + ("(" + PrintArgs(args, quote, Flag("!safe", safe) + rest)))))
  }

  /** The arguments, separated by commas, and the closing parenthesis. */
  function PrintArgs(args: seq<Expr>, quote: Bytes -> string, rest: string): string
    decreases args, 0
  {
    if args == [] then ")" + rest else Print(args[0], quote, PrintMore(args[1..], quote, rest))
  }

  function PrintMore(args: seq<Expr>, quote: Bytes -> string, rest: string): string
    decreases args, 0
  {
    if args == [] then ")" + rest else "," + Print(args[0], quote, PrintMore(args[1..], quote, rest))
  }

  function PrintSpec(p: Spec, quote: Bytes -> string, rest: string): string
    decreases p, 0
  {
    p.name + (Flag("*", p.star) + (Flag(" DISTINCT", p.distinct) + (Flag(" IGNORE NULLS", p.ignoreNulls) +
      ("(" + PrintList(p.args, quote, PrintOrders(p.order, quote, PrintLimit(p.limit, quote, ")" + rest)))))))
  }

  /** A comma after every argument. */
  function PrintList(args: seq<Expr>, quote: Bytes -> string, rest: string): string
    decreases args, 0
  {
    if args == [] then rest else Print(args[0], quote, "," + PrintList(args[1..], quote, rest))
  }

  function PrintOrders(os: seq<Order>, quote: Bytes -> string, rest: string): string
    decreases os, 0
  {
    if os == [] then rest else PrintOrder(os[0], quote, PrintOrders(os[1..], quote, rest))
  }

  function PrintOrder(o: Order, quote: Bytes -> string, rest: string): string
    decreases o, 0
  {
    "ORDER:" + Print(o.expr, quote, Flag(" DESC", o.desc) + (Flag(" NL", o.nullsLast) + rest))
  }

  function PrintLimit(limit: Option<Expr>, quote: Bytes -> string, rest: string): string
    decreases limit, 0
  {
    if limit.None? then rest else "LIMIT:" + Print(limit.value, quote, rest)
  }

  // ---- the same up to floats ----

  function CanonExpr(e: Expr): Expr
    decreases e, 0
  {
    match e
    case Const(typ, val) => Const(typ, Canon(val))
    case AggRef(p) => AggRef(CanonSpec(p))
    case Node(op, extra, args, safe) => Node(op, extra, CanonExprs(args), safe)
    case _ => e
  }

  function CanonExprs(es: seq<Expr>): (r: seq<Expr>)
    ensures |r| == |es|
    decreases es, 0
  {
    if es == [] then [] else [CanonExpr(es[0])] + CanonExprs(es[1..])
  }

  function CanonSpec(p: Spec): Spec
    decreases p, 0
  {
    p.(args := CanonExprs(p.args), order := CanonOrders(p.order), limit := CanonLimit(p.limit))
  }

  function CanonOrders(os: seq<Order>): (r: seq<Order>)
    ensures |r| == |os|
    decreases os, 0
  {
    if os == [] then [] else [CanonOrder(os[0])] + CanonOrders(os[1..])
  }

  function CanonOrder(o: Order): Order
    decreases o, 0
  {
    o.(expr := CanonExpr(o.expr))
  }

  function CanonLimit(limit: Option<Expr>): Option<Expr>
    decreases limit, 0
  {
    if limit.None? then None else Some(CanonExpr(limit.value))
  }

  lemma {:induction false} PrintOfCanon(e: Expr, quote: Bytes -> string, rest: string)
    ensures Print(CanonExpr(e), quote, rest) == Print(e, quote, rest)
    decreases e, 0
  {
    match e
    case Const(_, val) => KeyOfCanon(val);
    case AggRef(p) => SpecOfCanon(p, quote, rest);
    case Node(_, _, args, safe) => ArgsOfCanon(args, quote, Flag("!safe", safe) + rest);
    case _ =>
  }

  lemma {:induction false} ArgsOfCanon(es: seq<Expr>, quote: Bytes -> string, rest: string)
    ensures PrintArgs(CanonExprs(es), quote, rest) == PrintArgs(es, quote, rest)
    decreases es, 1
  {
    if es != [] {
      assert CanonExprs(es)[1..] == CanonExprs(es[1..]);
      MoreOfCanon(es[1..], quote, rest);
      PrintOfCanon(es[0], quote, PrintMore(es[1..], quote, rest));
    }
  }

  lemma {:induction false} MoreOfCanon(es: seq<Expr>, quote: Bytes -> string, rest: string)
    ensures PrintMore(CanonExprs(es), quote, rest) == PrintMore(es, quote, rest)
    decreases es, 0
  {
    if es != [] {
      assert CanonExprs(es)[1..] == CanonExprs(es[1..]);
      MoreOfCanon(es[1..], quote, rest);
      PrintOfCanon(es[0], quote, PrintMore(es[1..], quote, rest));
    }
  }

  lemma {:induction false} ListOfCanon(es: seq<Expr>, quote: Bytes -> string, rest: string)
    ensures PrintList(CanonExprs(es), quote, rest) == PrintList(es, quote, rest)
    decreases es, 0
  {
    if es != [] {
      assert CanonExprs(es)[1..] == CanonExprs(es[1..]);
      ListOfCanon(es[1..], quote, rest);
      PrintOfCanon(es[0], quote, "," + PrintList(es[1..], quote, rest));
    }
  }

  lemma {:induction false} OrdersOfCanon(os: seq<Order>, quote: Bytes -> string, rest: string)
    ensures PrintOrders(CanonOrders(os), quote, rest) == PrintOrders(os, quote, rest)
    decreases os, 0
  {
    if os != [] {
      assert CanonOrders(os)[1..] == CanonOrders(os[1..]);
      OrdersOfCanon(os[1..], quote, rest);
      OrderOfCanon(os[0], quote, PrintOrders(os[1..], quote, rest));
    }
  }

  lemma {:induction false} OrderOfCanon(o: Order, quote: Bytes -> string, rest: string)
    ensures PrintOrder(CanonOrder(o), quote, rest) == PrintOrder(o, quote, rest)
    decreases o, 0
  {
    PrintOfCanon(o.expr, quote, Flag(" DESC", o.desc) + (Flag(" NL", o.nullsLast) + rest));
  }

  lemma {:induction false} SpecOfCanon(p: Spec, quote: Bytes -> string, rest: string)
    ensures PrintSpec(CanonSpec(p), quote, rest) == PrintSpec(p, quote, rest)
    decreases p, 0
  {
    var end := PrintLimit(p.limit, quote, ")" + rest);
    if p.limit.Some? { PrintOfCanon(p.limit.value, quote, ")" + rest); }
    OrdersOfCanon(p.order, quote, end);
    ListOfCanon(p.args, quote, PrintOrders(p.order, quote, end));
  }

  // ---- the lexical shape of bound expressions ----

  predicate NameChar(c: char) { c !in {'[', '(', ')', ',', ':', ' '} }

  predicate IsName(s: string) { forall i :: 0 <= i < |s| ==> NameChar(s[i]) }

  /** Operator and aggregate names hold none of the marks that fingerprints use, and type names and
      extra data none of those that end them. */
  predicate Lexical(e: Expr)
    decreases e
  {
    match e
    case Const(typ, val) => WellFormed(val) && ':' !in typ && '[' !in typ
    case AggRef(p) => LexicalSpec(p)
    case Node(op, extra, args, _) => op != "" && IsName(op) && ']' !in extra && forall i :: 0 <= i < |args| ==> Lexical(args[i])
    case _ => true
  }

  predicate LexicalSpec(p: Spec)
    decreases p
  {
    && p.name != "" && IsName(p.name) && '*' !in p.name
    && (forall i :: 0 <= i < |p.args| ==> Lexical(p.args[i]))
    && (forall i :: 0 <= i < |p.order| ==> Lexical(p.order[i].expr))
    && (p.limit.Some? ==> Lexical(p.limit.value))
  }

  ghost predicate AllLexical(es: seq<Expr>) { forall i :: 0 <= i < |es| ==> Lexical(es[i]) }

  ghost predicate OrdersLexical(os: seq<Order>) { forall i :: 0 <= i < |os| ==> Lexical(os[i].expr) }

  /** What can follow a fingerprint inside another. */
  predicate Stop(s: string) { s == "" || s[0] == ',' || s[0] == ')' || s[0] == ' ' || "ORDER:" <= s || "LIMIT:" <= s }

  // ---- reading fingerprints ----

  lemma FirstChar(u: string, x: string)
    ensures u == "" ==> u + x == x
    ensures u != "" ==> (u + x)[0] == u[0] && (u + x)[1..] == u[1..] + x && u == [u[0]] + u[1..]
  {
  }

  lemma NotPrefix(lit: string, s: string, i: nat)
    requires i < |lit| && (i < |s| ==> s[i] != lit[i])
    ensures !(lit <= s)
  {
  }

  lemma SameTail(l: string, x: string, y: string)
    requires l + x == l + y
    ensures x == y
  {
    assert (l + x)[|l|..] == x && (l + y)[|l|..] == y;
  }

  /** Text of one kind, ended by a character of another, is read off the front. */
  lemma {:induction false} SplitWhile(p: char -> bool, u: string, v: string, x: string, y: string)
    requires (forall i :: 0 <= i < |u| ==> p(u[i])) && (forall i :: 0 <= i < |v| ==> p(v[i])) && u + x == v + y
    requires (x == "" || !p(x[0])) && (y == "" || !p(y[0]))
    ensures u == v && x == y
  {
    FirstChar(u, x);
    FirstChar(v, y);
    if u != "" && v != "" { SplitWhile(p, u[1..], v[1..], x, y); }
  }

  lemma SplitName(u: string, v: string, x: string, y: string)
    requires IsName(u) && IsName(v) && u + x == v + y
    requires (x == "" || !NameChar(x[0])) && (y == "" || !NameChar(y[0]))
    ensures u == v && x == y
  {
    SplitWhile(NameChar, u, v, x, y);
  }

  lemma SplitAt(c: char, u: string, v: string, x: string, y: string)
    requires c !in u && c !in v && u + ([c] + x) == v + ([c] + y)
    ensures u == v && x == y
  {
    SplitWhile(d => d != c, u, v, [c] + x, [c] + y);
    SameTail([c], x, y);
  }

  lemma FlagDetermines(lit: string, a: bool, b: bool, x: string, y: string)
    requires !(lit <= x) && !(lit <= y) && Flag(lit, a) + x == Flag(lit, b) + y
    ensures a == b && x == y
  {
    assert a ==> lit <= lit + x;
    assert b ==> lit <= lit + y;
    assert "" + x == x && "" + y == y;
    if a && b { SameTail(lit, x, y); }
  }

  lemma {:induction false} DigitsInjective(m: nat, n: nat)
    requires Digits(m) == Digits(n)
    ensures m == n
  {
    var a, b := Digits(m), Digits(n);
    assert a[|a| - 1] == b[|b| - 1];
    assert m % 10 == n % 10;
    if m >= 10 && n >= 10 {
      assert a[..|a| - 1] == Digits(m / 10) && b[..|b| - 1] == Digits(n / 10);
      DigitsInjective(m / 10, n / 10);
    }
  }

  predicate IsDigit(c: char) { '0' <= c <= '9' }

  lemma NumberDetermines(l: string, m: nat, n: nat, s: string, t: string)
    requires Stop(s) && Stop(t) && l + (Digits(m) + s) == l + (Digits(n) + t)
    ensures m == n && s == t
  {
    SameTail(l, Digits(m) + s, Digits(n) + t);
    StopIsNoDigit(s);
    StopIsNoDigit(t);
    SplitWhile(IsDigit, Digits(m), Digits(n), s, t);
    DigitsInjective(m, n);
  }

  lemma StopIsNoDigit(s: string)
    requires Stop(s)
    ensures (s == "" || !IsDigit(s[0])) && !("!safe" <= s)
  {
    assert "ORDER:" <= s ==> s[0] == 'O';
    assert "LIMIT:" <= s ==> s[0] == 'L';
    NotPrefix("!safe", s, 0);
  }

  // ---- the kind of an expression ----

  function Letter(e: Expr): char {
    match e
    case Const(_, _) => 'K'
    case Param(_) => 'P'
    case Column(_) => 'C'
    case GroupRef(_) => 'G'
    case AggRef(_) => 'A'
    case Node(_, _, _, _) => '['
  }

  /** `f` starts with the name `u`, which the mark `x[0]` ends. */
  ghost predicate Starts(f: string, u: string, x: string) {
    f == u + x && IsName(u) && u != "" && (x == "" || !NameChar(x[0]))
  }

  lemma {:induction false} NamePrefix(t: string) returns (n: nat)
    ensures n <= |t| && IsName(t[..n]) && (n < |t| ==> !NameChar(t[n]))
  {
    if t == "" || !NameChar(t[0]) {
      n := 0;
    } else {
      n := NamePrefix(t[1..]);
      assert t[..n + 1] == [t[0]] + t[1..][..n];
      n := n + 1;
    }
  }

  lemma Lettered(l: char, t: string, n: nat)
    requires NameChar(l) && n <= |t| && IsName(t[..n]) && (n < |t| ==> !NameChar(t[n]))
    ensures Starts([l] + t, [l] + t[..n], t[n..]) && ([l] + t[..n])[0] == l
  {
    assert [l] + t == [l] + t[..n] + t[n..];
  }

  lemma ConstMark(typ: string, q: string) returns (u: string, x: string)
    requires ':' !in typ && '[' !in typ
    ensures Starts("K" + (typ + (":" + q)), u, x) && u[0] == 'K' && x != "" && x[0] != '['
  {
    var t := typ + (":" + q);
    var n := NamePrefix(t);
    assert t[|typ|] == ':';
    assert n < |typ| ==> t[n] == typ[n] && typ[n] in typ;
    Lettered('K', t, n);
    u, x := ['K'] + t[..n], t[n..];
  }

  /** Digits run up to a mark, or up to the mark behind ORDER or LIMIT. */
  lemma NumberMark(l: char, i: nat, s: string) returns (u: string, x: string)
    requires NameChar(l) && Stop(s)
    ensures Starts([l] + (Digits(i) + s), u, x) && u[0] == l && (x == "" || x[0] != '[')
  {
    var t, k := Digits(i) + s, if "ORDER:" <= s || "LIMIT:" <= s then 5 else 0;
    var n := |Digits(i)| + k;
    assert "ORDER:" <= s ==> s[..5] == "ORDER" && s[5] == ':';
    assert "LIMIT:" <= s ==> s[..5] == "LIMIT" && s[5] == ':';
    assert t[..n] == Digits(i) + s[..k];
    assert n < |t| ==> t[n] == s[k];
    Lettered(l, t, n);
    u, x := [l] + t[..n], t[n..];
  }

  function SpecTail(p: Spec, rest: string): string { Flag(" DISTINCT", p.distinct) + (Flag(" IGNORE NULLS", p.ignoreNulls) + ("(" + rest)) }

  lemma SpecTailStarts(p: Spec, rest: string)
    ensures var t := SpecTail(p, rest); t != "" && (t[0] == ' ' || t[0] == '(')
  {
    var end := "(" + rest;
    assert end[0] == '(';
    var mid := Flag(" IGNORE NULLS", p.ignoreNulls) + end;
    assert mid[0] == if p.ignoreNulls then ' ' else '(';
    assert SpecTail(p, rest)[0] == if p.distinct then ' ' else mid[0];
  }

  lemma SpecMark(p: Spec, rest: string) returns (u: string, x: string)
    requires p.name != "" && IsName(p.name)
    ensures Starts("A" + (p.name + (Flag("*", p.star) + SpecTail(p, rest))), u, x) && u[0] == 'A' && x != "" && x[0] != '['
  {
    var f, tail := Flag("*", p.star), SpecTail(p, rest);
    var t := p.name + (f + tail);
    SpecTailStarts(p, rest);
    Associative(p.name, f, tail);
    assert t[..|p.name + f|] == p.name + f && t[|p.name + f|..] == tail;
    assert IsName(p.name + f);
    Lettered('A', t, |p.name + f|);
    u, x := ['A'] + (p.name + f), tail;
  }

  /** What is printed between the parentheses of an aggregate. */
  function SpecBody(p: Spec, quote: Bytes -> string, rest: string): string {
    PrintList(p.args, quote, PrintOrders(p.order, quote, PrintLimit(p.limit, quote, ")" + rest)))
  }

  /** Up to its first mark a fingerprint is a name, and name and mark tell the kind. */
  lemma FirstMark(e: Expr, quote: Bytes -> string, s: string) returns (u: string, x: string)
    requires Lexical(e) && Stop(s)
    ensures Starts(Print(e, quote, s), u, x)
    ensures if e.Node? then x != "" && x[0] == '[' && u == e.op else (x == "" || x[0] != '[') && u[0] == Letter(e)
  {
    match e
    case Const(typ, val) => u, x := ConstMark(typ, quote(Key(val)) + s);
    case Param(i) => u, x := NumberMark('P', i, s);
    case Column(i) => u, x := NumberMark('C', i, s);
    case GroupRef(i) => u, x := NumberMark('G', i, s);
    case AggRef(p) => u, x := SpecMark(p, SpecBody(p, quote, s));
    case Node(op, extra, args, safe) =>
      u, x := op, "[" + (extra + ("]" + ("(" + PrintArgs(args, quote, Flag("!safe", safe) + s))));
  }

  lemma SameKind(a: Expr, b: Expr, quote: Bytes -> string, s: string, t: string)
    requires Lexical(a) && Lexical(b) && Stop(s) && Stop(t) && Print(a, quote, s) == Print(b, quote, t)
    ensures Letter(a) == Letter(b)
  {
    var u, x := FirstMark(a, quote, s);
    var v, y := FirstMark(b, quote, t);
    SplitName(u, v, x, y);
  }

  /** No fingerprint starts like what follows the arguments. */
  lemma PrintStarts(e: Expr, quote: Bytes -> string, s: string)
    requires Lexical(e) && Stop(s)
    ensures var f := Print(e, quote, s); f != "" && f[0] != ')' && f[0] != ',' && !("ORDER:" <= f) && !("LIMIT:" <= f)
  {
    var f := Print(e, quote, s);
    var u, x := FirstMark(e, quote, s);
    assert f[0] == u[0];
    if "ORDER:" <= f {
      assert f == "ORDER" + f[5..] && f[5] == ':';
      SplitName(u, "ORDER", x, f[5..]);
    }
    if "LIMIT:" <= f {
      assert f == "LIMIT" + f[5..] && f[5] == ':';
      SplitName(u, "LIMIT", x, f[5..]);
    }
  }

  // ---- fingerprints determine expressions up to floats ----

  lemma ConstDetermines(a: Expr, b: Expr, quote: Bytes -> string, s: string, t: string)
    requires a.Const? && b.Const? && Quotes(quote) && Lexical(a) && Lexical(b) && Print(a, quote, s) == Print(b, quote, t)
    ensures CanonExpr(a) == CanonExpr(b) && s == t
  {
    var q, r := quote(Key(a.val)), quote(Key(b.val));
    SameTail("K", a.typ + (":" + (q + s)), b.typ + (":" + (r + t)));
    SplitAt(':', a.typ, b.typ, q + s, r + t);
    assert Key(a.val) + [] == Key(a.val) && Key(b.val) + [] == Key(b.val);
    KeyDeterminesCanon(a.val, b.val, [], []);
  }

  /** The name and the extra data of a call are read off the front of its fingerprint. */
  lemma CallDetermines(p: string, q: string, x: string, y: string, l: string, r: string)
    requires IsName(p) && IsName(q) && ']' !in x && ']' !in y
    requires p + ("[" + (x + ("]" + ("(" + l)))) == q + ("[" + (y + ("]" + ("(" + r))))
    ensures p == q && x == y && l == r
  {
    var m, n := x + ("]" + ("(" + l)), y + ("]" + ("(" + r));
    SplitName(p, q, "[" + m, "[" + n);
    SameTail("[", m, n);
    SplitAt(']', x, y, "(" + l, "(" + r);
    SameTail("(", l, r);
  }

  /** Equal fingerprints, whatever follows them, are fingerprints of expressions that agree up to floats. */
  lemma {:induction false} PrintDetermines(a: Expr, b: Expr, quote: Bytes -> string, s: string, t: string)
    requires Lexical(a) && Lexical(b) && Quotes(quote) && Stop(s) && Stop(t) && Print(a, quote, s) == Print(b, quote, t)
    ensures CanonExpr(a) == CanonExpr(b) && s == t
    decreases a, 0
  {
    SameKind(a, b, quote, s, t);
    match a
    case Const(_, _) => ConstDetermines(a, b, quote, s, t);
    case Param(i) => NumberDetermines("P", i, b.i, s, t);
    case Column(i) => NumberDetermines("C", i, b.i, s, t);
    case GroupRef(i) => NumberDetermines("G", i, b.i, s, t);
    case AggRef(p) =>
      SameTail("A", PrintSpec(p, quote, s), PrintSpec(b.spec, quote, t));
      SpecDetermines(p, b.spec, quote, s, t);
    case Node(op, extra, args, safe) =>
      var l, r := Flag("!safe", safe) + s, Flag("!safe", b.safe) + t;
      CallDetermines(op, b.op, extra, b.extra, PrintArgs(args, quote, l), PrintArgs(b.args, quote, r));
      ArgsDetermine(args, b.args, quote, l, r);
      StopIsNoDigit(s);
      StopIsNoDigit(t);
      FlagDetermines("!safe", safe, b.safe, s, t);
  }

  lemma MoreStarts(x: seq<Expr>, quote: Bytes -> string, s: string)
    ensures var f := PrintMore(x, quote, s); f != "" && f[0] == (if x == [] then ')' else ',')
  {
  }

  lemma {:induction false} ArgsDetermine(x: seq<Expr>, y: seq<Expr>, quote: Bytes -> string, s: string, t: string)
    requires AllLexical(x) && AllLexical(y) && Quotes(quote) && PrintArgs(x, quote, s) == PrintArgs(y, quote, t)
    ensures CanonExprs(x) == CanonExprs(y) && s == t
    decreases x, 1
  {
    var l, r := if x == [] then "" else PrintMore(x[1..], quote, s), if y == [] then "" else PrintMore(y[1..], quote, t);
    if x != [] {
      MoreStarts(x[1..], quote, s);
      PrintStarts(x[0], quote, l);
    }
    if y != [] {
      MoreStarts(y[1..], quote, t);
      PrintStarts(y[0], quote, r);
    }
    if x == [] {
      SameTail(")", s, t);
    } else {
      PrintDetermines(x[0], y[0], quote, l, r);
      MoreDetermine(x[1..], y[1..], quote, s, t);
    }
  }

  lemma {:induction false} MoreDetermine(x: seq<Expr>, y: seq<Expr>, quote: Bytes -> string, s: string, t: string)
    requires AllLexical(x) && AllLexical(y) && Quotes(quote) && PrintMore(x, quote, s) == PrintMore(y, quote, t)
    ensures CanonExprs(x) == CanonExprs(y) && s == t
    decreases x, 1
  {
    MoreStarts(x, quote, s);
    MoreStarts(y, quote, t);
    if x == [] {
      SameTail(")", s, t);
    } else {
      var l, r := PrintMore(x[1..], quote, s), PrintMore(y[1..], quote, t);
      MoreStarts(x[1..], quote, s);
      MoreStarts(y[1..], quote, t);
      SameTail(",", Print(x[0], quote, l), Print(y[0], quote, r));
      PrintDetermines(x[0], y[0], quote, l, r);
      MoreDetermine(x[1..], y[1..], quote, s, t);
    }
  }

  /** What follows the arguments, and what follows the orders, of an aggregate. */
  predicate AfterOrders(s: string) { s != "" && (s[0] == ')' || "LIMIT:" <= s) }

  predicate AfterArgs(s: string) { AfterOrders(s) || "ORDER:" <= s }

  lemma {:induction false} ListDetermines(x: seq<Expr>, y: seq<Expr>, quote: Bytes -> string, s: string, t: string)
    requires AllLexical(x) && AllLexical(y) && Quotes(quote) && AfterArgs(s) && AfterArgs(t)
    requires PrintList(x, quote, s) == PrintList(y, quote, t)
    ensures CanonExprs(x) == CanonExprs(y) && s == t
    decreases x, 1
  {
    if x != [] { PrintStarts(x[0], quote, "," + PrintList(x[1..], quote, s)); }
    if y != [] { PrintStarts(y[0], quote, "," + PrintList(y[1..], quote, t)); }
    if x != [] && y != [] {
      var l, r := PrintList(x[1..], quote, s), PrintList(y[1..], quote, t);
      PrintDetermines(x[0], y[0], quote, "," + l, "," + r);
      SameTail(",", l, r);
      ListDetermines(x[1..], y[1..], quote, s, t);
    }
  }

  lemma OrdersStart(os: seq<Order>, quote: Bytes -> string, s: string)
    requires AfterOrders(s)
    ensures var f := PrintOrders(os, quote, s); AfterArgs(f) && ("ORDER:" <= f <==> os != [])
  {
    assert "LIMIT:" <= s ==> s[0] == 'L';
    NotPrefix("ORDER:", s, 0);
  }

  lemma OrderFlags(f: string, desc: bool, nl: bool)
    requires AfterArgs(f)
    ensures Stop(Flag(" DESC", desc) + (Flag(" NL", nl) + f)) && !(" NL" <= f) && !(" DESC" <= Flag(" NL", nl) + f)
  {
    assert "ORDER:" <= f ==> f[0] == 'O';
    assert "LIMIT:" <= f ==> f[0] == 'L';
    NotPrefix(" NL", f, 0);
    var g := Flag(" NL", nl) + f;
    assert g[0] == if nl then ' ' else f[0];
    assert nl ==> g[1] == 'N';
    NotPrefix(" DESC", g, if nl then 1 else 0);
    assert !nl ==> g == f;
    assert !desc ==> "" + g == g;
  }

  lemma {:induction false} OrdersDetermine(x: seq<Order>, y: seq<Order>, quote: Bytes -> string, s: string, t: string)
    requires OrdersLexical(x) && OrdersLexical(y) && Quotes(quote) && AfterOrders(s) && AfterOrders(t)
    requires PrintOrders(x, quote, s) == PrintOrders(y, quote, t)
    ensures CanonOrders(x) == CanonOrders(y) && s == t
    decreases x, 1
  {
    OrdersStart(x, quote, s);
    OrdersStart(y, quote, t);
    if x != [] {
      var l, r := PrintOrders(x[1..], quote, s), PrintOrders(y[1..], quote, t);
      OrdersStart(x[1..], quote, s);
      OrdersStart(y[1..], quote, t);
      OneOrderDetermines(x[0], y[0], quote, l, r);
      OrdersDetermine(x[1..], y[1..], quote, s, t);
    }
  }

  lemma {:induction false} OneOrderDetermines(x: Order, y: Order, quote: Bytes -> string, l: string, r: string)
    requires Lexical(x.expr) && Lexical(y.expr) && Quotes(quote) && AfterArgs(l) && AfterArgs(r)
    requires PrintOrder(x, quote, l) == PrintOrder(y, quote, r)
    ensures CanonOrder(x) == CanonOrder(y) && l == r
    decreases x, 1
  {
    var m, n := Flag(" NL", x.nullsLast) + l, Flag(" NL", y.nullsLast) + r;
    OrderFlags(l, x.desc, x.nullsLast);
    OrderFlags(r, y.desc, y.nullsLast);
    SameTail("ORDER:", Print(x.expr, quote, Flag(" DESC", x.desc) + m), Print(y.expr, quote, Flag(" DESC", y.desc) + n));
    PrintDetermines(x.expr, y.expr, quote, Flag(" DESC", x.desc) + m, Flag(" DESC", y.desc) + n);
    FlagDetermines(" DESC", x.desc, y.desc, m, n);
    FlagDetermines(" NL", x.nullsLast, y.nullsLast, l, r);
  }

  lemma LimitStarts(limit: Option<Expr>, quote: Bytes -> string, s: string)
    ensures var f := PrintLimit(limit, quote, ")" + s); AfterOrders(f) && (f[0] == ')' <==> limit.None?)
  {
    if limit.Some? { assert ("LIMIT:" + Print(limit.value, quote, ")" + s))[0] == 'L'; }
  }

  lemma {:induction false} LimitDetermines(x: Option<Expr>, y: Option<Expr>, quote: Bytes -> string, s: string, t: string)
    requires (x.Some? ==> Lexical(x.value)) && (y.Some? ==> Lexical(y.value)) && Quotes(quote)
    requires PrintLimit(x, quote, ")" + s) == PrintLimit(y, quote, ")" + t)
    ensures CanonLimit(x) == CanonLimit(y) && s == t
    decreases x, 1
  {
    LimitStarts(x, quote, s);
    LimitStarts(y, quote, t);
    if x.Some? {
      SameTail("LIMIT:", Print(x.value, quote, ")" + s), Print(y.value, quote, ")" + t));
      PrintDetermines(x.value, y.value, quote, ")" + s, ")" + t);
    }
    SameTail(")", s, t);
  }

  lemma HeadDetermines(a: Spec, b: Spec, x: string, y: string)
    requires IsName(a.name) && IsName(b.name) && '*' !in a.name && '*' !in b.name
    requires a.name + (Flag("*", a.star) + SpecTail(a, x)) == b.name + (Flag("*", b.star) + SpecTail(b, y))
    ensures a.name == b.name && a.star == b.star && a.distinct == b.distinct && a.ignoreNulls == b.ignoreNulls && x == y
  {
    var l, r := Flag("*", a.star) + SpecTail(a, x), Flag("*", b.star) + SpecTail(b, y);
    SpecTailStarts(a, x);
    SpecTailStarts(b, y);
    assert l[0] == (if a.star then '*' else SpecTail(a, x)[0]) && r[0] == (if b.star then '*' else SpecTail(b, y)[0]);
    SplitWhile(c => NameChar(c) && c != '*', a.name, b.name, l, r);
    NotPrefix("*", SpecTail(a, x), 0);
    NotPrefix("*", SpecTail(b, y), 0);
    FlagDetermines("*", a.star, b.star, SpecTail(a, x), SpecTail(b, y));
    TailDetermines(a, b, x, y);
  }

  lemma TailDetermines(a: Spec, b: Spec, x: string, y: string)
    requires SpecTail(a, x) == SpecTail(b, y)
    ensures a.distinct == b.distinct && a.ignoreNulls == b.ignoreNulls && x == y
  {
    var m, n := Flag(" IGNORE NULLS", a.ignoreNulls) + ("(" + x), Flag(" IGNORE NULLS", b.ignoreNulls) + ("(" + y);
    NoDistinct(a.ignoreNulls, x);
    NoDistinct(b.ignoreNulls, y);
    FlagDetermines(" DISTINCT", a.distinct, b.distinct, m, n);
    FlagDetermines(" IGNORE NULLS", a.ignoreNulls, b.ignoreNulls, "(" + x, "(" + y);
    SameTail("(", x, y);
  }

  lemma NoDistinct(ignoreNulls: bool, x: string)
    ensures !(" DISTINCT" <= Flag(" IGNORE NULLS", ignoreNulls) + ("(" + x)) && !(" IGNORE NULLS" <= "(" + x)
  {
    var end := "(" + x;
    NotPrefix(" IGNORE NULLS", end, 0);
    var f := Flag(" IGNORE NULLS", ignoreNulls) + end;
    assert ignoreNulls ==> f[1] == 'I';
    assert !ignoreNulls ==> f == end;
    NotPrefix(" DISTINCT", f, if ignoreNulls then 1 else 0);
  }

  lemma {:induction false} SpecDetermines(a: Spec, b: Spec, quote: Bytes -> string, s: string, t: string)
    requires LexicalSpec(a) && LexicalSpec(b) && Quotes(quote) && PrintSpec(a, quote, s) == PrintSpec(b, quote, t)
    ensures CanonSpec(a) == CanonSpec(b) && s == t
    decreases a, 0
  {
    var l, r := PrintLimit(a.limit, quote, ")" + s), PrintLimit(b.limit, quote, ")" + t);
    HeadDetermines(a, b, SpecBody(a, quote, s), SpecBody(b, quote, t));
    LimitStarts(a.limit, quote, s);
    LimitStarts(b.limit, quote, t);
    OrdersStart(a.order, quote, l);
    OrdersStart(b.order, quote, r);
    ListDetermines(a.args, b.args, quote, PrintOrders(a.order, quote, l), PrintOrders(b.order, quote, r));
    OrdersDetermine(a.order, b.order, quote, l, r);
    LimitDetermines(a.limit, b.limit, quote, s, t);
  }

  /** Two expressions have one fingerprint exactly when they agree up to the patterns of their floats. */
  lemma FingerprintIff(a: Expr, b: Expr, quote: Bytes -> string)
    requires Lexical(a) && Lexical(b) && Quotes(quote)
    ensures Fingerprint(a, quote) == Fingerprint(b, quote) <==> CanonExpr(a) == CanonExpr(b)
  {
    if Fingerprint(a, quote) == Fingerprint(b, quote) { PrintDetermines(a, b, quote, "", ""); }
    PrintOfCanon(a, quote, "");
    PrintOfCanon(b, quote, "");
  }

  /** All floats in the constants are canonical. */
  predicate CanonicalExpr(e: Expr) { CanonExpr(e) == e }

  /** A fingerprint identifies an expression whose floats are canonical. */
  lemma FingerprintIsInjective(a: Expr, b: Expr, quote: Bytes -> string)
    requires Lexical(a) && Lexical(b) && Quotes(quote) && CanonicalExpr(a) && CanonicalExpr(b)
    requires Fingerprint(a, quote) == Fingerprint(b, quote)
    ensures a == b
  {
    FingerprintIff(a, b, quote);
  }

  lemma CanonOfZeros()
    ensures Canon(Float(0)) == Float(0) && Canon(Float(OrderedInt.TWO63)) == Float(0)
  {
  }

  /** The two zeros, as constants, are different expressions with one fingerprint. */
  lemma ZerosShareAFingerprint(quote: Bytes -> string)
    ensures var a, b := Const("FLOAT64", Float(0)), Const("FLOAT64", Float(OrderedInt.TWO63));
            a != b && Fingerprint(a, quote) == Fingerprint(b, quote)
  {
    CanonOfZeros();
    PrintOfCanon(Const("FLOAT64", Float(OrderedInt.TWO63)), quote, "");
  }
}
