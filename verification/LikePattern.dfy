/** SQL LIKE: pattern compilation and the matching loop that only remembers the last `%`. Characters
    are code points for STRING and bytes for BYTES. */
module LikePattern {
  datatype Tok = Lit(r: nat) | One | Any

  const BACKSLASH: nat := '\\' as int
  const PERCENT: nat := '%' as int
  const UNDERSCORE: nat := '_' as int

  /** What a pattern means: `\c` is the character `c`, `_` any character, `%` any characters. */
  ghost predicate Like(pat: seq<nat>, s: seq<nat>)
    decreases |pat|
  {
    if pat == [] then s == []
    else if pat[0] == BACKSLASH then |pat| >= 2 && s != [] && s[0] == pat[1] && Like(pat[2..], s[1..])
    else if pat[0] == PERCENT then exists k :: 0 <= k <= |s| && Like(pat[1..], s[k..])
    else s != [] && (pat[0] == UNDERSCORE || s[0] == pat[0]) && Like(pat[1..], s[1..])
  }

  /** No backslash without a character after it. */
  predicate Complete(pat: seq<nat>) {
    pat == [] || (if pat[0] == BACKSLASH then |pat| >= 2 && Complete(pat[2..]) else Complete(pat[1..]))
  }

  predicate Fits(t: Tok, c: nat) { t.One? || (t.Lit? && t.r == c) }

  ghost predicate Matches(toks: seq<Tok>, s: seq<nat>)
    decreases |toks|
  {
    if toks == [] then s == []
    else if toks[0].Any? then exists k :: 0 <= k <= |s| && Matches(toks[1..], s[k..])
    else s != [] && Fits(toks[0], s[0]) && Matches(toks[1..], s[1..])
  }

  // ---- compilation ----

  function Token(c: nat): Tok {
    if c == PERCENT then Any else if c == UNDERSCORE then One else Lit(c)
  }

  /** The tokens of a complete pattern before repeated `%` are collapsed. */
  function Tokens(pat: seq<nat>): (toks: seq<Tok>)
    requires Complete(pat)
  {
    if pat == [] then []
    else if pat[0] == BACKSLASH then [Lit(pat[1])] + Tokens(pat[2..])
    else [Token(pat[0])] + Tokens(pat[1..])
  }

  lemma {:induction false} TokensMean(pat: seq<nat>, s: seq<nat>)
    requires Complete(pat)
    ensures Matches(Tokens(pat), s) <==> Like(pat, s)
    decreases |pat|
  {
    if pat != [] {
      var toks := Tokens(pat);
      if pat[0] == BACKSLASH {
        assert toks[1..] == Tokens(pat[2..]);
        if s != [] { TokensMean(pat[2..], s[1..]); }
      } else {
        assert toks[1..] == Tokens(pat[1..]);
        forall u: seq<nat> ensures Matches(toks[1..], u) <==> Like(pat[1..], u) { TokensMean(pat[1..], u); }
      }
    }
  }

  /** One `%` does what several in a row do. */
  function Collapse(toks: seq<Tok>): (r: seq<Tok>) {
    if toks == [] then []
    else Extend(Collapse(toks[..|toks| - 1]), toks[|toks| - 1])
  }

  function Extend(r: seq<Tok>, t: Tok): seq<Tok> {
    if t.Any? && r != [] && r[|r| - 1].Any? then r else r + [t]
  }

  lemma {:induction false} MatchesConcat(a: seq<Tok>, b: seq<Tok>, s: seq<nat>)
    ensures Matches(a + b, s) <==> exists k :: 0 <= k <= |s| && Matches(a, s[..k]) && Matches(b, s[k..])
    decreases |a|
  {
    if a == [] {
      assert a + b == b && s[..0] == [] && s[0..] == s;
      assert forall k :: 0 <= k <= |s| && Matches(a, s[..k]) ==> k == 0;
    } else {
      assert (a + b)[1..] == a[1..] + b;
      if a[0].Any? {
        AnyConcat(a, b, s);
      } else if s != [] {
        MatchesConcat(a[1..], b, s[1..]);
        FixedConcat(a, b, s);
      }
    }
  }

  lemma FixedConcat(a: seq<Tok>, b: seq<Tok>, s: seq<nat>)
    requires a != [] && !a[0].Any? && s != []
    requires Matches(a[1..] + b, s[1..]) <==>
             exists k :: 0 <= k <= |s| - 1 && Matches(a[1..], s[1..][..k]) && Matches(b, s[1..][k..])
    ensures Fits(a[0], s[0]) && Matches(a[1..] + b, s[1..]) <==>
            exists k :: 0 <= k <= |s| && Matches(a, s[..k]) && Matches(b, s[k..])
  {
    forall k | 0 <= k < |s| ensures s[1..][..k] == s[..k + 1][1..] && s[1..][k..] == s[k + 1..] {}
    if Fits(a[0], s[0]) && Matches(a[1..] + b, s[1..]) {
      var k :| 0 <= k <= |s| - 1 && Matches(a[1..], s[1..][..k]) && Matches(b, s[1..][k..]);
      assert Matches(a, s[..k + 1]) && Matches(b, s[k + 1..]);
    }
    if k :| 0 <= k <= |s| && Matches(a, s[..k]) && Matches(b, s[k..]) {
      assert k > 0 && s[..k][1..] == s[1..][..k - 1] && s[k..] == s[1..][k - 1..];
    }
  }

  lemma {:induction false} AnyConcat(a: seq<Tok>, b: seq<Tok>, s: seq<nat>)
    requires a != [] && a[0].Any?
    ensures (exists j :: 0 <= j <= |s| && Matches(a[1..] + b, s[j..])) <==>
            exists k :: 0 <= k <= |s| && Matches(a, s[..k]) && Matches(b, s[k..])
    decreases |a|, 0
  {
    if j :| 0 <= j <= |s| && Matches(a[1..] + b, s[j..]) {
      MatchesConcat(a[1..], b, s[j..]);
      var m :| 0 <= m <= |s| - j && Matches(a[1..], s[j..][..m]) && Matches(b, s[j..][m..]);
      assert s[j..][..m] == s[..j + m][j..] && s[j..][m..] == s[j + m..];
      assert Matches(a, s[..j + m]);
    }
    if k :| 0 <= k <= |s| && Matches(a, s[..k]) && Matches(b, s[k..]) {
      var j :| 0 <= j <= k && Matches(a[1..], s[..k][j..]);
      assert s[..k][j..] == s[j..][..k - j] && s[k..] == s[j..][k - j..];
      MatchesConcat(a[1..], b, s[j..]);
    }
  }

  lemma AnyAlone(s: seq<nat>)
    ensures Matches([Any], s)
  {
    assert [Any][1..] == [] && s[|s|..] == [] && Matches([], s[|s|..]);
  }

  lemma AnyTail(init: seq<Tok>, s: seq<nat>)
    ensures Matches(init + [Any], s) <==> exists m :: 0 <= m <= |s| && Matches(init, s[..m])
  {
    MatchesConcat(init, [Any], s);
    if m :| 0 <= m <= |s| && Matches(init, s[..m]) { AnyAlone(s[m..]); }
  }

  /** A trailing `%` absorbs another. */
  lemma ExtendMeans(r: seq<Tok>, t: Tok, s: seq<nat>)
    ensures Matches(Extend(r, t), s) <==> Matches(r + [t], s)
  {
    if t.Any? && r != [] && r[|r| - 1].Any? {
      var init := r[..|r| - 1];
      assert r == init + [Any];
      AnyTail(r, s);
      assert s[..|s|] == s;
      if k :| 0 <= k <= |s| && Matches(r, s[..k]) {
        AnyTail(init, s[..k]);
        var m :| 0 <= m <= k && Matches(init, s[..k][..m]);
        assert s[..k][..m] == s[..m];
        AnyTail(init, s);
      }
    }
  }

  lemma {:induction false} CollapseMeans(toks: seq<Tok>, s: seq<nat>)
    ensures Matches(Collapse(toks), s) <==> Matches(toks, s)
    decreases |toks|
  {
    if toks != [] {
      var init, t := toks[..|toks| - 1], toks[|toks| - 1];
      assert toks == init + [t];
      ExtendMeans(Collapse(init), t, s);
      MatchesConcat(Collapse(init), [t], s);
      MatchesConcat(init, [t], s);
      forall k | 0 <= k <= |s| ensures Matches(Collapse(init), s[..k]) <==> Matches(init, s[..k]) {
        CollapseMeans(init, s[..k]);
      }
    }
  }

  datatype Compiled = Compiled(toks: seq<Tok>) | DanglingBackslash

  method CompileLike(pat: seq<nat>) returns (r: Compiled)
    ensures r.DanglingBackslash? <==> !Complete(pat)
    ensures r.Compiled? ==> r.toks == Collapse(Tokens(pat))
    ensures r.Compiled? ==> forall s :: Matches(r.toks, s) <==> Like(pat, s)
  {
    var toks: seq<Tok>, i := [], 0;
    ghost var raw: seq<Tok> := [];
    assert pat[0..] == pat;
    while i < |pat|
      invariant 0 <= i <= |pat| && toks == Collapse(raw)
      invariant Complete(pat) <==> Complete(pat[i..])
      invariant Complete(pat) ==> Tokens(pat) == raw + Tokens(pat[i..])
    {
      var c, t := pat[i], Token(pat[i]);
      ghost var rest := pat[i..];
      if c == BACKSLASH {
        if i + 1 >= |pat| { return DanglingBackslash; }
        assert rest[2..] == pat[i + 2..];
        i := i + 1;
        t := Lit(pat[i]);
      } else {
        assert rest[1..] == pat[i + 1..];
      }
      assert Complete(pat) ==> raw + ([t] + Tokens(pat[i + 1..])) == raw + [t] + Tokens(pat[i + 1..]);
      assert (raw + [t])[..|raw|] == raw;
      raw := raw + [t];
      if !(t.Any? && |toks| > 0 && toks[|toks| - 1].Any?) {
        toks := toks + [t];
      }
      i := i + 1;
    }
    assert raw == Tokens(pat);
    forall s: seq<nat> ensures Matches(toks, s) <==> Like(pat, s) {
      TokensMean(pat, s);
      CollapseMeans(raw, s);
    }
    return Compiled(toks);
  }

  // ---- the matching loop ----

  /** `n` tokens from `p` on, none of them `%`, fit the characters from `i` on. */
  predicate Segment(toks: seq<Tok>, p: nat, s: seq<nat>, i: nat, n: nat) {
    p + n <= |toks| && i + n <= |s| && forall j :: p <= j < p + n ==> !toks[j].Any? && Fits(toks[j], s[i + j - p])
  }

  lemma {:induction false} SegmentConsumes(toks: seq<Tok>, p: nat, s: seq<nat>, i: nat, n: nat)
    requires Segment(toks, p, s, i, n)
    ensures Matches(toks[p..], s[i..]) <==> Matches(toks[p + n..], s[i + n..])
    decreases n
  {
    if n > 0 {
      SegmentConsumes(toks, p + 1, s, i + 1, n - 1);
      assert toks[p..][1..] == toks[p + 1..] && s[i..][1..] == s[i + 1..];
    }
  }

  /** Any match of `n` tokens without `%` uses up `n` characters. */
  lemma {:induction false} FixedUseUp(toks: seq<Tok>, p: nat, s: seq<nat>, i: nat, n: nat)
    requires p + n <= |toks| && i <= |s| && forall j :: p <= j < p + n ==> !toks[j].Any?
    requires Matches(toks[p..], s[i..])
    ensures i + n <= |s| && Matches(toks[p + n..], s[i + n..])
    decreases n
  {
    if n > 0 {
      assert toks[p..][1..] == toks[p + 1..] && s[i..][1..] == s[i + 1..];
      FixedUseUp(toks, p + 1, s, i + 1, n - 1);
    }
  }

  lemma AnyMeans(toks: seq<Tok>, p: nat, s: seq<nat>, i: nat)
    requires p < |toks| && toks[p].Any? && i <= |s|
    ensures Matches(toks[p..], s[i..]) <==> exists k :: i <= k <= |s| && Matches(toks[p + 1..], s[k..])
  {
    assert toks[p..][1..] == toks[p + 1..];
    if k :| i <= k <= |s| && Matches(toks[p + 1..], s[k..]) {
      assert s[i..][k - i..] == s[k..];
    }
    if Matches(toks[p..], s[i..]) {
      var j :| 0 <= j <= |s| - i && Matches(toks[p + 1..], s[i..][j..]);
      assert s[i..][j..] == s[i + j..];
    }
  }

  lemma AnyTakesMore(toks: seq<Tok>, p: nat, s: seq<nat>, i: nat, j: nat)
    requires p < |toks| && toks[p].Any? && i <= j <= |s| && Matches(toks[p..], s[j..])
    ensures Matches(toks[p..], s[i..])
  {
    AnyMeans(toks, p, s, j);
    AnyMeans(toks, p, s, i);
  }

  /** Wherever the earlier `%` stops, what follows the tokens in between matches from `i` on. */
  lemma LaterStopIsNoBetter(toks: seq<Tok>, star: nat, p: nat, s: seq<nat>, from: nat, i: nat, k: nat)
    requires star < p <= |toks| && from <= i <= |s| && i - from == p - star - 1
    requires forall j :: star < j < p ==> !toks[j].Any?
    requires (p < |toks| && toks[p].Any?) || i == |s|
    requires from <= k <= |s| && Matches(toks[star + 1..], s[k..])
    ensures Matches(toks[p..], s[i..])
  {
    FixedUseUp(toks, star + 1, s, k, p - star - 1);
    if i < |s| { AnyTakesMore(toks, p, s, i, k + p - star - 1); }
  }

  /** The next `%` (or the end) can be tried where the shortest match of the tokens in between ends:
      a longer one would only leave it less. */
  lemma ForgetEarlierStar(toks: seq<Tok>, star: nat, p: nat, s: seq<nat>, from: nat, i: nat)
    requires star < p <= |toks| && toks[star].Any? && from <= i <= |s| && i - from == p - star - 1
    requires Segment(toks, star + 1, s, from, p - star - 1)
    requires (p < |toks| && toks[p].Any?) || i == |s|
    ensures Matches(toks[star..], s[from..]) <==> Matches(toks[p..], s[i..])
  {
    AnyMeans(toks, star, s, from);
    SegmentConsumes(toks, star + 1, s, from, p - star - 1);
    if Matches(toks[star..], s[from..]) {
      var k :| from <= k <= |s| && Matches(toks[star + 1..], s[k..]);
      LaterStopIsNoBetter(toks, star, p, s, from, i, k);
    }
  }

  /** A mismatch behind the last `%` means that `%` must take one more character. */
  lemma StarTakesOneMore(toks: seq<Tok>, star: nat, p: nat, s: seq<nat>, from: nat, i: nat)
    requires star < p <= |toks| && toks[star].Any? && from <= i < |s| && i - from == p - star - 1
    requires Segment(toks, star + 1, s, from, p - star - 1)
    requires p < |toks| ==> !toks[p].Any? && !Fits(toks[p], s[i])
    ensures Matches(toks[star..], s[from..]) <==> Matches(toks[star..], s[from + 1..])
  {
    AnyMeans(toks, star, s, from);
    AnyMeans(toks, star, s, from + 1);
    SegmentConsumes(toks, star + 1, s, from, p - star - 1);
    assert !Matches(toks[p..], s[i..]);
  }

  /** What the loop knows: without a `%` so far the whole input matches as its rest does; otherwise as
      the rest from the last `%` does, the tokens behind it having been matched since `starS`. */
  ghost predicate Knows(toks: seq<Tok>, s: seq<nat>, full: bool, si: int, pi: int, starP: int, starS: int) {
    && 0 <= si <= |s| && 0 <= pi <= |toks| && -1 <= starP < pi
    && if starP < 0 then full == Matches(toks[pi..], s[si..])
       else && toks[starP].Any? && 0 <= starS <= si && si - starS == pi - starP - 1
            && Segment(toks, starP + 1, s, starS, pi - starP - 1)
            && full == Matches(toks[starP..], s[starS..])
  }

  lemma OnAny(toks: seq<Tok>, s: seq<nat>, full: bool, si: int, pi: int, starP: int, starS: int)
    requires Knows(toks, s, full, si, pi, starP, starS) && pi < |toks| && toks[pi].Any?
    ensures Knows(toks, s, full, si, pi + 1, pi, si)
  {
    if starP >= 0 { ForgetEarlierStar(toks, starP, pi, s, starS, si); }
  }

  lemma OnFit(toks: seq<Tok>, s: seq<nat>, full: bool, si: int, pi: int, starP: int, starS: int)
    requires Knows(toks, s, full, si, pi, starP, starS) && si < |s| && pi < |toks| && !toks[pi].Any? && Fits(toks[pi], s[si])
    ensures Knows(toks, s, full, si + 1, pi + 1, starP, starS)
  {
    assert toks[pi..][1..] == toks[pi + 1..] && s[si..][1..] == s[si + 1..];
  }

  lemma OnMiss(toks: seq<Tok>, s: seq<nat>, full: bool, si: int, pi: int, starP: int, starS: int)
    requires Knows(toks, s, full, si, pi, starP, starS) && si < |s| && (pi < |toks| ==> !toks[pi].Any? && !Fits(toks[pi], s[si]))
    ensures if starP >= 0 then Knows(toks, s, full, starS + 1, starP + 1, starP, starS + 1) else !full
  {
    if starP >= 0 { StarTakesOneMore(toks, starP, pi, s, starS, si); }
  }

  lemma OnEnd(toks: seq<Tok>, s: seq<nat>, full: bool, pi: int, starP: int, starS: int)
    requires Knows(toks, s, full, |s|, pi, starP, starS)
    ensures full == Matches(toks[pi..], [])
  {
    if starP >= 0 { ForgetEarlierStar(toks, starP, pi, s, starS, |s|); }
    assert s[|s|..] == [];
  }

  method Match(toks: seq<Tok>, s: seq<nat>) returns (r: bool)
    ensures r == Matches(toks, s)
  {
    var si, pi := 0, 0;
    var starP, starS := -1, 0;
    ghost var full := Matches(toks, s);
    assert toks[0..] == toks && s[0..] == s;
    while si < |s|
      invariant Knows(toks, s, full, si, pi, starP, starS)
      decreases |toks| - starP, |s| - starS, |s| - si
    {
      if pi < |toks| {
        var t := toks[pi];
        if t.Any? {
          OnAny(toks, s, full, si, pi, starP, starS);
          starP, starS := pi, si;
          pi := pi + 1;
          continue;
        }
        if Fits(t, s[si]) {
          OnFit(toks, s, full, si, pi, starP, starS);
          si, pi := si + 1, pi + 1;
          continue;
        }
      }
      OnMiss(toks, s, full, si, pi, starP, starS);
      if starP >= 0 {
        pi := starP + 1;
        starS := starS + 1;
        si := starS;
        continue;
      }
      return false;
    }
    OnEnd(toks, s, full, pi, starP, starS);
    r := OnlyAny(toks, pi);
  }

  /** What is left matches nothing exactly when it is all `%`. */
  method OnlyAny(toks: seq<Tok>, start: nat) returns (r: bool)
    requires start <= |toks|
    ensures r == Matches(toks[start..], [])
  {
    var pi := start;
    ghost var none: seq<nat> := [];
    while pi < |toks| && toks[pi].Any?
      invariant 0 <= pi <= |toks| && (Matches(toks[start..], none) <==> Matches(toks[pi..], none))
    {
      AnyMeans(toks, pi, none, 0);
      assert none[0..] == none;
      pi := pi + 1;
    }
    return pi == |toks|;
  }

  // ---- the literal prefix, for key ranges ----

  function Led(p: seq<nat>, r: (seq<nat>, bool)): (seq<nat>, bool) { (p + r.0, r.1) }

  /** The characters every match starts with, and whether they are the whole pattern. */
  function Prefix(pat: seq<nat>): (r: (seq<nat>, bool)) {
    if pat == [] then ([], true)
    else if pat[0] == BACKSLASH then (if |pat| < 2 then ([], false) else Led([pat[1]], Prefix(pat[2..])))
    else if pat[0] == PERCENT || pat[0] == UNDERSCORE then ([], false)
    else Led([pat[0]], Prefix(pat[1..]))
  }

  lemma LedTwice(p: seq<nat>, c: nat, r: (seq<nat>, bool))
    ensures Led(p, Led([c], r)) == Led(p + [c], r)
    ensures Led([], r) == r
    ensures forall b :: Led(p, ([], b)) == (p, b)
  {
    assert p + ([c] + r.0) == p + [c] + r.0;
    assert [] + r.0 == r.0 && p + [] == p;
  }

  lemma {:induction false} PrefixBounds(pat: seq<nat>, s: seq<nat>)
    ensures Like(pat, s) ==> Prefix(pat).0 <= s
    ensures Prefix(pat).1 ==> (Like(pat, s) <==> s == Prefix(pat).0)
    decreases |pat|
  {
    if pat != [] && s != [] {
      assert s == [s[0]] + s[1..];
      if pat[0] == BACKSLASH {
        if |pat| >= 2 { PrefixBounds(pat[2..], s[1..]); }
      } else if pat[0] != PERCENT && pat[0] != UNDERSCORE {
        PrefixBounds(pat[1..], s[1..]);
      }
    }
  }

  method LikePrefix(pat: seq<nat>) returns (prefix: seq<nat>, exact: bool)
    ensures (prefix, exact) == Prefix(pat)
  {
    prefix := [];
    var i := 0;
    assert pat[0..] == pat;
    LedTwice([], 0, Prefix(pat));
    while i < |pat|
      invariant 0 <= i <= |pat| && Prefix(pat) == Led(prefix, Prefix(pat[i..]))
    {
      var c := pat[i];
      ghost var rest := pat[i..];
      LedTwice(prefix, c, Prefix(rest));
      if c == BACKSLASH {
        if i + 1 >= |pat| { return prefix, false; }
        i := i + 1;
        c := pat[i];
        assert rest[2..] == pat[i + 1..];
      } else if c == PERCENT || c == UNDERSCORE {
        return prefix, false;
      } else {
        assert rest[1..] == pat[i + 1..];
      }
      LedTwice(prefix, c, Prefix(pat[i + 1..]));
      prefix := prefix + [c];
      i := i + 1;
    }
    LedTwice(prefix, 0, ([], true));
    return prefix, true;
  }
}
