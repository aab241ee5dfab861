/** Garbage collection of a column by nested rules. */
module Gc {
  import opened Basics
  import opened Lex
  import opened Columns

  datatype GcRule =
    | NoRule
    | MaxVersions(n: int)
    | MaxAge(micros: int)
    | Union(subs: seq<GcRule>)
    | Intersection(subs: seq<GcRule>)

  /** Whether the rule deletes the cell with timestamp `ts` at position `i` of its column at `now`. */
  predicate Deletes(rule: GcRule, i: int, ts: int, now: int)
    decreases rule, 0
  {
    match rule
    case NoRule => false
    case MaxVersions(n) => i >= n
    case MaxAge(age) => ts < now - age
    case Union(subs) => exists k :: 0 <= k < |subs| && Deletes(subs[k], i, ts, now)
    case Intersection(subs) => subs != [] && forall k :: 0 <= k < |subs| ==> Deletes(subs[k], i, ts, now)
  }

  /** An older cell, further back in its column or judged later, is deleted too. */
  lemma {:induction false} DeletesIsMonotone(rule: GcRule, i: int, ts: int, now: int, i': int, ts': int, now': int)
    requires Deletes(rule, i, ts, now) && i <= i' && ts' <= ts && now <= now'
    ensures Deletes(rule, i', ts', now')
    decreases rule
  {
    match rule
    case NoRule =>
    case MaxVersions(_) =>
    case MaxAge(_) =>
    case Union(subs) =>
      var k :| 0 <= k < |subs| && Deletes(subs[k], i, ts, now);
      DeletesIsMonotone(subs[k], i, ts, now, i', ts', now');
    case Intersection(subs) =>
      forall k | 0 <= k < |subs| ensures Deletes(subs[k], i', ts', now') {
        DeletesIsMonotone(subs[k], i, ts, now, i', ts', now');
      }
  }

  ghost predicate Flags(flags: seq<bool>, cells: seq<Cell>, rule: GcRule, now: int) {
    |flags| == |cells| && forall i :: 0 <= i < |cells| ==> flags[i] == Deletes(rule, i, cells[i].ts, now)
  }

  method GcDeletes(cells: seq<Cell>, rule: GcRule, now: int) returns (flags: array<bool>)
    ensures fresh(flags) && Flags(flags[..], cells, rule, now)
    decreases rule
  {
    flags := new bool[|cells|](_ => false);
    match rule {
      case NoRule =>
      case MaxVersions(n) =>
        var i := n;
        while i < |cells|
          invariant forall j :: 0 <= j < |cells| ==> flags[j] == (n <= j < i)
        {
          if i >= 0 {
            flags[i] := true;
          }
          i := i + 1;
        }
      case MaxAge(age) =>
        var cutoff := now - age;
        for i := 0 to |cells|
          invariant forall j :: 0 <= j < i ==> flags[j] == (cells[j].ts < cutoff)
        {
          flags[i] := cells[i].ts < cutoff;
        }
      case Union(subs) =>
        for k := 0 to |subs|
          invariant forall j :: 0 <= j < |cells| ==>
            flags[j] == exists m :: 0 <= m < k && Deletes(subs[m], j, cells[j].ts, now)
        {
          var sub := GcDeletes(cells, subs[k], now);
          OrInto(flags, sub);
        }
      case Intersection(subs) =>
        if subs == [] {
          return;
        }
        for i := 0 to |cells|
          invariant forall j :: 0 <= j < i ==> flags[j]
        {
          flags[i] := true;
        }
        for k := 0 to |subs|
          invariant forall j :: 0 <= j < |cells| ==>
            flags[j] == forall m :: 0 <= m < k ==> Deletes(subs[m], j, cells[j].ts, now)
        {
          var sub := GcDeletes(cells, subs[k], now);
          AndInto(flags, sub);
        }
    }
  }

  method OrInto(flags: array<bool>, sub: array<bool>)
    requires flags != sub && flags.Length == sub.Length
    modifies flags
    ensures forall j :: 0 <= j < flags.Length ==> flags[j] == (old(flags[j]) || sub[j])
  {
    for i := 0 to flags.Length
      invariant forall j :: 0 <= j < flags.Length ==> flags[j] == (old(flags[j]) || (j < i && sub[j]))
    {
      flags[i] := flags[i] || sub[i];
    }
  }

  method AndInto(flags: array<bool>, sub: array<bool>)
    requires flags != sub && flags.Length == sub.Length
    modifies flags
    ensures forall j :: 0 <= j < flags.Length ==> flags[j] == (old(flags[j]) && sub[j])
  {
    for i := 0 to flags.Length
      invariant forall j :: 0 <= j < flags.Length ==> flags[j] == (old(flags[j]) && (j < i ==> sub[j]))
    {
      flags[i] := flags[i] && sub[i];
    }
  }

  // ---- what stays ----

  /** How many cells stay: those before the first deleted one. */
  function Live(cs: seq<Cell>, rule: GcRule, now: int): (m: nat)
    ensures m <= |cs|
    ensures forall i :: 0 <= i < m ==> !Deletes(rule, i, cs[i].ts, now)
    ensures m < |cs| ==> Deletes(rule, m, cs[m].ts, now)
  {
    LiveFrom(cs, rule, now, 0)
  }

  function LiveFrom(cs: seq<Cell>, rule: GcRule, now: int, k: nat): (m: nat)
    requires k <= |cs| && forall i :: 0 <= i < k ==> !Deletes(rule, i, cs[i].ts, now)
    ensures k <= m <= |cs|
    ensures forall i :: 0 <= i < m ==> !Deletes(rule, i, cs[i].ts, now)
    ensures m < |cs| ==> Deletes(rule, m, cs[m].ts, now)
    decreases |cs| - k
  {
    if k == |cs| || Deletes(rule, k, cs[k].ts, now) then k else LiveFrom(cs, rule, now, k + 1)
  }

  function Collected(cs: seq<Cell>, rule: GcRule, now: int): seq<Cell> { cs[..Live(cs, rule, now)] }

  /** In a descending column exactly a suffix is deleted. */
  lemma DeletedIsSuffix(cs: seq<Cell>, rule: GcRule, now: int, i: nat)
    requires Descending(cs) && i < |cs|
    ensures Deletes(rule, i, cs[i].ts, now) <==> i >= Live(cs, rule, now)
  {
    var m := Live(cs, rule, now);
    if i > m { DeletesIsMonotone(rule, m, cs[m].ts, now, i, cs[i].ts, now); }
  }

  method ApplyGcAt(cells: seq<Cell>, rule: GcRule, now: int) returns (kept: seq<Cell>, removed: seq<Cell>)
    requires Descending(cells)
    ensures kept == Collected(cells, rule, now) && kept + removed == cells
  {
    if cells == [] || rule == NoRule {
      return cells, [];
    }
    var marks := GcDeletes(cells, rule, now);
    var flags := marks[..];
    kept, removed := [], [];
    ghost var m := Live(cells, rule, now);
    for i := 0 to |cells|
      invariant kept == cells[..Min(i, m)] && removed == cells[Min(i, m)..i]
    {
      DeletedIsSuffix(cells, rule, now, i);
      if flags[i] {
        removed := removed + [cells[i]];
      } else {
        kept := kept + [cells[i]];
      }
    }
    assert cells[m..|cells|] == cells[m..];
  }

  // ---- what each rule keeps ----

  /** Without a rule, or with a rule without parts, everything stays. */
  lemma NothingIsCollected(cs: seq<Cell>, now: int)
    ensures Collected(cs, NoRule, now) == Collected(cs, Union([]), now) == Collected(cs, Intersection([]), now) == cs
  {
    assert Live(cs, NoRule, now) == |cs|;
    assert Live(cs, Union([]), now) == |cs|;
    assert Live(cs, Intersection([]), now) == |cs|;
  }

  /** A maximal age keeps exactly the cells written no longer ago. */
  lemma AgeKeeps(cs: seq<Cell>, age: int, now: int)
    requires Descending(cs)
    ensures forall x :: x in Collected(cs, MaxAge(age), now) <==> x in cs && x.ts >= now - age
  {
    var m := Live(cs, MaxAge(age), now);
    forall i | 0 <= i < |cs| ensures i < m <==> cs[i].ts >= now - age { DeletedIsSuffix(cs, MaxAge(age), now, i); }
    forall x | x in cs && x.ts >= now - age ensures x in cs[..m] {
      var i :| 0 <= i < |cs| && cs[i] == x;
      assert cs[..m][i] == x;
    }
  }

  /** A maximal number of versions keeps exactly that many of the newest. */
  lemma VersionsKeep(cs: seq<Cell>, n: nat, now: int)
    ensures Collected(cs, MaxVersions(n), now) == if n <= |cs| then cs[..n] else cs
  {
    var m := Live(cs, MaxVersions(n), now);
    if n < |cs| { assert Deletes(MaxVersions(n), n, cs[n].ts, now); }
    assert n <= |cs| ==> m == n;
    assert n > |cs| ==> m == |cs| && cs[..m] == cs;
  }

  /** A rule that deletes whatever another does keeps no more. */
  lemma StricterKeepsLess(cs: seq<Cell>, a: GcRule, b: GcRule, now: int)
    requires forall i :: 0 <= i < |cs| && Deletes(a, i, cs[i].ts, now) ==> Deletes(b, i, cs[i].ts, now)
    ensures |Collected(cs, b, now)| <= |Collected(cs, a, now)|
  {
  }

  lemma LaterIsDeleted(cs: seq<Cell>, rule: GcRule, now: int, i: nat)
    requires Descending(cs) && i < |cs|
    ensures Deletes(rule, i, cs[i].ts, now) <==> i >= |Collected(cs, rule, now)|
  {
    DeletedIsSuffix(cs, rule, now, i);
  }

  /** A union keeps as much as the part that keeps least. */
  lemma UnionKeepsLeast(cs: seq<Cell>, subs: seq<GcRule>, now: int) returns (k: nat)
    requires Descending(cs) && subs != []
    ensures k < |subs| && Collected(cs, Union(subs), now) == Collected(cs, subs[k], now)
    ensures forall j :: 0 <= j < |subs| ==> |Collected(cs, subs[k], now)| <= |Collected(cs, subs[j], now)|
  {
    forall j | 0 <= j < |subs| ensures |Collected(cs, Union(subs), now)| <= |Collected(cs, subs[j], now)| {
      StricterKeepsLess(cs, subs[j], Union(subs), now);
    }
    k := UnionIsOne(cs, subs, now);
  }

  lemma UnionIsOne(cs: seq<Cell>, subs: seq<GcRule>, now: int) returns (k: nat)
    requires Descending(cs) && subs != []
    ensures k < |subs| && |Collected(cs, subs[k], now)| <= |Collected(cs, Union(subs), now)|
  {
    var m := |Collected(cs, Union(subs), now)|;
    k := 0;
    if m < |cs| {
      LaterIsDeleted(cs, Union(subs), now, m);
      k :| 0 <= k < |subs| && Deletes(subs[k], m, cs[m].ts, now);
      LaterIsDeleted(cs, subs[k], now, m);
    }
  }

  /** An intersection keeps as much as the part that keeps most. */
  lemma IntersectionKeepsMost(cs: seq<Cell>, subs: seq<GcRule>, now: int) returns (k: nat)
    requires Descending(cs) && subs != []
    ensures k < |subs| && Collected(cs, Intersection(subs), now) == Collected(cs, subs[k], now)
    ensures forall j :: 0 <= j < |subs| ==> |Collected(cs, subs[j], now)| <= |Collected(cs, subs[k], now)|
  {
    forall j | 0 <= j < |subs| ensures |Collected(cs, subs[j], now)| <= |Collected(cs, Intersection(subs), now)| {
      StricterKeepsLess(cs, Intersection(subs), subs[j], now);
    }
    k := IntersectionIsOne(cs, subs, now);
  }

  lemma IntersectionIsOne(cs: seq<Cell>, subs: seq<GcRule>, now: int) returns (k: nat)
    requires Descending(cs) && subs != []
    ensures k < |subs| && |Collected(cs, subs[k], now)| >= |Collected(cs, Intersection(subs), now)|
  {
    var m := |Collected(cs, Intersection(subs), now)|;
    k := 0;
    if m > 0 {
      LaterIsDeleted(cs, Intersection(subs), now, m - 1);
      k :| 0 <= k < |subs| && !Deletes(subs[k], m - 1, cs[m - 1].ts, now);
      LaterIsDeleted(cs, subs[k], now, m - 1);
    }
  }

  // ---- eager collection is unobservable ----

  datatype Edit =
    | Set(c: Cell)
    | Delete(start: int, end: int)  // end 0 is no end
    | Collect(now: int)

  /** A column under edits, collected whenever they say so. */
  function Eager(cs: seq<Cell>, rule: GcRule, edits: seq<Edit>): (r: seq<Cell>) {
    if edits == [] then cs else Step(Eager(cs, rule, edits[..|edits| - 1]), rule, edits[|edits| - 1])
  }

  function Step(cs: seq<Cell>, rule: GcRule, e: Edit): seq<Cell> {
    match e
    case Set(c) => Put(cs, c)
    case Delete(start, end) => Erase(cs, start, end)
    case Collect(now) => Collected(cs, rule, now)
  }

  /** The same column, never collected. */
  function Lazy(cs: seq<Cell>, edits: seq<Edit>): (r: seq<Cell>) { Eager(cs, NoRule, edits) }

  predicate Sane(edits: seq<Edit>, now: int) { forall i :: 0 <= i < |edits| ==> SaneEdit(edits[i], now) }

  /** Stored timestamps are never negative, and collection has happened by `now`. */
  predicate SaneEdit(e: Edit, now: int) {
    match e
    case Set(c) => c.ts >= 0
    case Delete(_, _) => true
    case Collect(t) => t <= now
  }

  /** Deletions reach back to the beginning of time. */
  predicate Expires(edits: seq<Edit>) { forall i :: 0 <= i < |edits| && edits[i].Delete? ==> edits[i].start == 0 }

  predicate NonNegative(cs: seq<Cell>) { forall i :: 0 <= i < |cs| ==> cs[i].ts >= 0 }

  /** Columns `p + t` (never collected) and `p + u` (collected): after `p` all is garbage at `now`. */
  ghost predicate Agree(p: seq<Cell>, t: seq<Cell>, u: seq<Cell>, rule: GcRule, now: int) {
    && Descending(p + t) && Descending(p + u) && NonNegative(p + t)
    && (t != [] ==> Deletes(rule, |p|, t[0].ts, now))
    && forall i :: 0 <= i < |u| ==> HasTs(t, u[i].ts)
  }

  lemma DescendingParts(a: seq<Cell>, b: seq<Cell>)
    requires Descending(a + b)
    ensures Descending(a) && Descending(b) && forall i, j :: 0 <= i < |a| && 0 <= j < |b| ==> a[i].ts > b[j].ts
  {
    var s := a + b;
    forall i, j | 0 <= i < j < |b| ensures b[i].ts > b[j].ts { assert s[|a| + i].ts > s[|a| + j].ts; }
    forall i, j | 0 <= i < j < |a| ensures a[i].ts > a[j].ts { assert s[i].ts > s[j].ts; }
    forall i, j | 0 <= i < |a| && 0 <= j < |b| ensures a[i].ts > b[j].ts { assert s[i].ts > s[|a| + j].ts; }
  }

  lemma TailIsOlder(p: seq<Cell>, t: seq<Cell>, u: seq<Cell>, rule: GcRule, now: int)
    requires Agree(p, t, u, rule, now) && u != []
    ensures t != [] && u[0].ts <= t[0].ts
  {
    assert HasTs(t, u[0].ts);
    DescendingParts(p, t);
  }

  lemma AgreeCollects(p: seq<Cell>, t: seq<Cell>, u: seq<Cell>, rule: GcRule, now: int)
    requires Agree(p, t, u, rule, now)
    ensures Collected(p + t, rule, now) == Collected(p + u, rule, now)
  {
    if u != [] {
      TailIsOlder(p, t, u, rule, now);
      DeletesIsMonotone(rule, |p|, t[0].ts, now, |p|, u[0].ts, now);
    }
    LivePrefix(p, t, rule, now);
    LivePrefix(p, u, rule, now);
  }

  lemma LivePrefix(p: seq<Cell>, t: seq<Cell>, rule: GcRule, now: int)
    requires t != [] ==> Deletes(rule, |p|, t[0].ts, now)
    ensures Collected(p + t, rule, now) == Collected(p, rule, now)
  {
    var k, k' := Live(p + t, rule, now), Live(p, rule, now);
    assert t != [] ==> (p + t)[|p|] == t[0];
    assert k <= |p|;
    assert k < |p| ==> (p + t)[k] == p[k];
    assert k' < |p| ==> (p + t)[k'] == p[k'];
  }

  lemma {:induction false} PutConcat(p: seq<Cell>, t: seq<Cell>, c: Cell)
    requires Descending(p)
    ensures Put(p + t, c) == if p != [] && p[|p| - 1].ts <= c.ts then Put(p, c) + t else p + Put(t, c)
  {
    if p == [] {
      assert p + t == t && p + Put(t, c) == Put(t, c);
    } else {
      var s, rest := p + t, p[1..];
      assert s[0] == p[0] && s[1..] == rest + t && p == [p[0]] + rest;
      if p[0].ts > c.ts {
        PutConcat(rest, t, c);
        Associative([p[0]], Put(rest, c), t);
        Associative([p[0]], rest, Put(t, c));
      } else {
        Associative([c], rest, t);
        Associative([c], p, t);
      }
    }
  }

  lemma PutSizes(cs: seq<Cell>, c: Cell)
    ensures |cs| <= |Put(cs, c)| <= |cs| + 1 && Put(cs, c)[0].ts == if cs != [] && cs[0].ts >= c.ts then cs[0].ts else c.ts
  {
  }

  lemma PutNonNegative(cs: seq<Cell>, c: Cell)
    requires NonNegative(cs) && Descending(cs) && c.ts >= 0
    ensures NonNegative(Put(cs, c)) && Descending(Put(cs, c))
  {
    PutDescends(cs, c);
    var r := Put(cs, c);
    forall i | 0 <= i < |r| ensures r[i].ts >= 0 { PutHolds(cs, c, r[i]); }
  }

  /** The new cell is at least as new as the last agreed one. */
  lemma SetInPrefix(p: seq<Cell>, t: seq<Cell>, u: seq<Cell>, rule: GcRule, now: int, c: Cell)
    requires Agree(p, t, u, rule, now) && c.ts >= 0 && p != [] && p[|p| - 1].ts <= c.ts
    ensures Put(p + t, c) == Put(p, c) + t && Put(p + u, c) == Put(p, c) + u && Agree(Put(p, c), t, u, rule, now)
  {
    DescendingParts(p, t);
    PutNonNegative(p + t, c);
    PutDescends(p + u, c);
    PutConcat(p, t, c);
    PutConcat(p, u, c);
    PutSizes(p, c);
    if t != [] { DeletesIsMonotone(rule, |p|, t[0].ts, now, |Put(p, c)|, t[0].ts, now); }
  }

  lemma PutBetween(p: seq<Cell>, t: seq<Cell>, c: Cell)
    requires Descending(p) && (p == [] || p[|p| - 1].ts > c.ts) && (t == [] || t[0].ts < c.ts)
    ensures Put(p + t, c) == (p + [c]) + t
  {
    PutConcat(p, t, c);
    Associative(p, [c], t);
  }

  /** The new cell is older than the agreed ones and newer than the garbage. */
  lemma SetBetween(p: seq<Cell>, t: seq<Cell>, u: seq<Cell>, rule: GcRule, now: int, c: Cell)
    requires Agree(p, t, u, rule, now) && c.ts >= 0 && (p == [] || p[|p| - 1].ts > c.ts) && (t == [] || t[0].ts < c.ts)
    ensures Put(p + t, c) == (p + [c]) + t && Put(p + u, c) == (p + [c]) + u && Agree(p + [c], t, u, rule, now)
  {
    DescendingParts(p, t);
    PutNonNegative(p + t, c);
    PutDescends(p + u, c);
    if u != [] { TailIsOlder(p, t, u, rule, now); }
    PutBetween(p, t, c);
    PutBetween(p, u, c);
    if t != [] { DeletesIsMonotone(rule, |p|, t[0].ts, now, |p| + 1, t[0].ts, now); }
  }

  /** The new cell is garbage. */
  lemma SetInTail(p: seq<Cell>, t: seq<Cell>, u: seq<Cell>, rule: GcRule, now: int, c: Cell)
    requires Agree(p, t, u, rule, now) && c.ts >= 0 && (p == [] || p[|p| - 1].ts > c.ts) && t != [] && c.ts <= t[0].ts
    ensures Put(p + t, c) == p + Put(t, c) && Put(p + u, c) == p + Put(u, c) && Agree(p, Put(t, c), Put(u, c), rule, now)
  {
    DescendingParts(p, t);
    PutNonNegative(p + t, c);
    PutDescends(p + u, c);
    PutConcat(p, t, c);
    PutConcat(p, u, c);
    PutSizes(t, c);
    var t', u' := Put(t, c), Put(u, c);
    forall i | 0 <= i < |u'| ensures HasTs(t', u'[i].ts) {
      PutTimes(u, c, u'[i].ts);
      PutTimes(t, c, u'[i].ts);
      assert HasTs(u', u'[i].ts);
    }
  }

  lemma SetAgrees(p: seq<Cell>, t: seq<Cell>, u: seq<Cell>, rule: GcRule, now: int, c: Cell)
    returns (p': seq<Cell>, t': seq<Cell>, u': seq<Cell>)
    requires Agree(p, t, u, rule, now) && c.ts >= 0
    ensures Put(p + t, c) == p' + t' && Put(p + u, c) == p' + u' && Agree(p', t', u', rule, now)
  {
    if p != [] && p[|p| - 1].ts <= c.ts {
      SetInPrefix(p, t, u, rule, now, c);
      p', t', u' := Put(p, c), t, u;
    } else if t == [] || t[0].ts < c.ts {
      SetBetween(p, t, u, rule, now, c);
      p', t', u' := p + [c], t, u;
    } else {
      SetInTail(p, t, u, rule, now, c);
      p', t', u' := p, Put(t, c), Put(u, c);
    }
  }

  lemma CollectInTail(p: seq<Cell>, t: seq<Cell>, u: seq<Cell>, k: nat, rule: GcRule, now: int)
    requires Agree(p, t, u, rule, now) && k <= |u|
    ensures (p + u)[..|p| + k] == p + u[..k] && Agree(p, t, u[..k], rule, now)
  {
    assert (p + u)[..|p| + k] == p + u[..k];
  }

  lemma CollectInPrefix(p: seq<Cell>, t: seq<Cell>, u: seq<Cell>, k: nat, rule: GcRule, now: int)
    requires Agree(p, t, u, rule, now) && k < |p| && Deletes(rule, k, p[k].ts, now)
    ensures p + t == p[..k] + (p[k..] + t) && (p + u)[..k] == p[..k] && Agree(p[..k], p[k..] + t, [], rule, now)
  {
    DescendingParts(p, t);
    assert p + t == p[..k] + (p[k..] + t);
    assert p[..k] + [] == p[..k] && (p[k..] + t)[0] == p[k];
  }

  lemma CollectAgrees(p: seq<Cell>, t: seq<Cell>, u: seq<Cell>, rule: GcRule, now: int, earlier: int)
    returns (p': seq<Cell>, t': seq<Cell>, u': seq<Cell>)
    requires Agree(p, t, u, rule, now) && earlier <= now
    ensures p + t == p' + t' && Collected(p + u, rule, earlier) == p' + u' && Agree(p', t', u', rule, now)
  {
    var k := Live(p + u, rule, earlier);
    if k >= |p| {
      CollectInTail(p, t, u, k - |p|, rule, now);
      p', t', u' := p, t, u[..k - |p|];
    } else {
      DeletesIsMonotone(rule, k, p[k].ts, earlier, k, p[k].ts, now);
      CollectInPrefix(p, t, u, k, rule, now);
      p', t', u' := p[..k], p[k..] + t, [];
      assert p' + u' == p';
    }
  }

  lemma {:induction false} EraseOlder(cs: seq<Cell>, end: int)
    requires NonNegative(cs) && Descending(cs)
    ensures Erase(cs, 0, end) <= cs
    ensures end != 0 && cs != [] && cs[|cs| - 1].ts >= end ==> Erase(cs, 0, end) == cs
    ensures Erase(cs, 0, end) != [] ==> Erase(cs, 0, end)[0].ts == cs[0].ts
  {
    if cs != [] {
      EraseOlder(cs[1..], end);
      if InTimeRange(cs[0].ts, 0, end) {
        EraseHolds(cs[1..], 0, end);
        forall i | 0 <= i < |cs[1..]| ensures cs[1..][i] !in Erase(cs[1..], 0, end) { }
        assert forall d :: d !in Erase(cs[1..], 0, end);
      }
    }
  }

  lemma ExpireTail(t: seq<Cell>, u: seq<Cell>, end: int)
    requires forall i :: 0 <= i < |u| ==> HasTs(t, u[i].ts)
    ensures forall i :: 0 <= i < |Erase(u, 0, end)| ==> HasTs(Erase(t, 0, end), Erase(u, 0, end)[i].ts)
  {
    var t', u' := Erase(t, 0, end), Erase(u, 0, end);
    EraseHolds(t, 0, end);
    EraseHolds(u, 0, end);
    forall i | 0 <= i < |u'| ensures HasTs(t', u'[i].ts) {
      assert u'[i] in u && !InTimeRange(u'[i].ts, 0, end);
      assert HasTs(t, u'[i].ts);
      var j :| 0 <= j < |t| && t[j].ts == u'[i].ts;
      assert t[j] in t';
    }
  }

  lemma EraseNonNegative(cs: seq<Cell>, end: int)
    requires NonNegative(cs)
    ensures NonNegative(Erase(cs, 0, end))
  {
    EraseHolds(cs, 0, end);
    var r := Erase(cs, 0, end);
    forall i | 0 <= i < |r| ensures r[i].ts >= 0 { assert r[i] in cs; }
  }

  /** Garbage that is left was not expired, so nothing newer was. */
  lemma ExpireLeavesPrefix(p: seq<Cell>, t: seq<Cell>, end: int)
    requires Descending(p + t) && NonNegative(p + t)
    ensures var t' := Erase(t, 0, end); t' != [] ==> Erase(p, 0, end) == p && t'[0].ts == t[0].ts
  {
    DescendingParts(p, t);
    assert forall i :: 0 <= i < |p| ==> p[i] == (p + t)[i];
    assert forall i :: 0 <= i < |t| ==> t[i] == (p + t)[|p| + i];
    EraseOlder(p, end);
    EraseOlder(t, end);
    EraseHolds(t, 0, end);
    var t' := Erase(t, 0, end);
    assert t' != [] ==> t'[0] in t && !InTimeRange(t'[0].ts, 0, end);
  }

  lemma ExpireAgrees(p: seq<Cell>, t: seq<Cell>, u: seq<Cell>, rule: GcRule, now: int, end: int)
    returns (p': seq<Cell>, t': seq<Cell>, u': seq<Cell>)
    requires Agree(p, t, u, rule, now)
    ensures Erase(p + t, 0, end) == p' + t' && Erase(p + u, 0, end) == p' + u' && Agree(p', t', u', rule, now)
  {
    p', t', u' := Erase(p, 0, end), Erase(t, 0, end), Erase(u, 0, end);
    EraseAppend(p, t, 0, end);
    EraseAppend(p, u, 0, end);
    EraseDescends(p + t, 0, end);
    EraseDescends(p + u, 0, end);
    EraseNonNegative(p + t, end);
    ExpireTail(t, u, end);
    ExpireLeavesPrefix(p, t, end);
  }

  lemma {:induction false} EagerAgrees(edits: seq<Edit>, rule: GcRule, now: int)
    returns (p: seq<Cell>, t: seq<Cell>, u: seq<Cell>)
    requires Sane(edits, now) && Expires(edits)
    ensures Lazy([], edits) == p + t && Eager([], rule, edits) == p + u && Agree(p, t, u, rule, now)
  {
    if edits == [] {
      p, t, u := [], [], [];
    } else {
      var init, e := edits[..|edits| - 1], edits[|edits| - 1];
      p, t, u := EagerAgrees(init, rule, now);
      assert SaneEdit(e, now);
      match e
      case Set(c) => p, t, u := SetAgrees(p, t, u, rule, now, c);
      case Delete(_, end) => p, t, u := ExpireAgrees(p, t, u, rule, now, end);
      case Collect(earlier) =>
        var cs := p + t;
        assert Live(cs, NoRule, earlier) == |cs| && cs[..|cs|] == cs;
        p, t, u := CollectAgrees(p, t, u, rule, now, earlier);
    }
  }

  /** Whenever the column was collected between writes and expirations, a final collection gives the cells that one
      collection of the never-collected column gives. */
  lemma EagerGcIsUnobservable(edits: seq<Edit>, rule: GcRule, now: int)
    requires Sane(edits, now) && Expires(edits)
    ensures Collected(Eager([], rule, edits), rule, now) == Collected(Lazy([], edits), rule, now)
  {
    var p, t, u := EagerAgrees(edits, rule, now);
    AgreeCollects(p, t, u, rule, now);
  }

  // ---- any deletions ----

  ghost predicate Unobservable(rule: GcRule) {
    forall edits, now :: Sane(edits, now) ==>
      Collected(Eager([], rule, edits), rule, now) == Collected(Lazy([], edits), rule, now)
  }

  ghost predicate IgnoresPosition(rule: GcRule) {
    forall i, ts, now :: i >= 0 && ts >= 0 ==> Deletes(rule, i, ts, now) == Deletes(rule, 0, ts, now)
  }

  /** Rules that count no versions: a limit of none or less deletes every cell. */
  predicate AgeOnly(rule: GcRule)
    decreases rule
  {
    match rule
    case MaxVersions(n) => n <= 0
    case Union(subs) => forall k :: 0 <= k < |subs| ==> AgeOnly(subs[k])
    case Intersection(subs) => forall k :: 0 <= k < |subs| ==> AgeOnly(subs[k])
    case _ => true
  }

  lemma {:induction false} AgeOnlyIgnoresPosition(rule: GcRule, i: nat, ts: int, now: int)
    requires AgeOnly(rule)
    ensures Deletes(rule, i, ts, now) == Deletes(rule, 0, ts, now)
    decreases rule
  {
    if rule.Union? || rule.Intersection? {
      forall k | 0 <= k < |rule.subs| ensures Deletes(rule.subs[k], i, ts, now) == Deletes(rule.subs[k], 0, ts, now) {
        AgeOnlyIgnoresPosition(rule.subs[k], i, ts, now);
      }
    }
  }

  /** The cells that the rule keeps wherever they stand. */
  function Young(cs: seq<Cell>, rule: GcRule, now: int): seq<Cell> {
    if cs == [] then []
    else if Deletes(rule, 0, cs[0].ts, now) then Young(cs[1..], rule, now)
    else [cs[0]] + Young(cs[1..], rule, now)
  }

  lemma {:induction false} YoungAppend(a: seq<Cell>, b: seq<Cell>, rule: GcRule, now: int)
    ensures Young(a + b, rule, now) == Young(a, rule, now) + Young(b, rule, now)
  {
    if a == [] {
      assert a + b == b;
    } else {
      YoungAppend(a[1..], b, rule, now);
      assert (a + b)[0] == a[0] && (a + b)[1..] == a[1..] + b;
      Associative([a[0]], Young(a[1..], rule, now), Young(b, rule, now));
    }
  }

  lemma {:induction false} AllYoung(cs: seq<Cell>, rule: GcRule, now: int)
    requires forall i :: 0 <= i < |cs| ==> !Deletes(rule, 0, cs[i].ts, now)
    ensures Young(cs, rule, now) == cs
  {
    if cs != [] { AllYoung(cs[1..], rule, now); }
  }

  lemma {:induction false} NoneYoung(cs: seq<Cell>, rule: GcRule, now: int)
    requires forall i :: 0 <= i < |cs| ==> Deletes(rule, 0, cs[i].ts, now)
    ensures Young(cs, rule, now) == []
  {
    if cs != [] { NoneYoung(cs[1..], rule, now); }
  }

  lemma YoungIsPrefix(cs: seq<Cell>, m: nat, rule: GcRule, now: int)
    requires m <= |cs| && forall i :: 0 <= i < |cs| ==> (Deletes(rule, 0, cs[i].ts, now) <==> i >= m)
    ensures Young(cs, rule, now) == cs[..m]
  {
    assert cs == cs[..m] + cs[m..];
    YoungAppend(cs[..m], cs[m..], rule, now);
    AllYoung(cs[..m], rule, now);
    NoneYoung(cs[m..], rule, now);
  }

  /** Without positions, collecting filters by time. */
  lemma CollectedAreYoung(cs: seq<Cell>, rule: GcRule, now: int)
    requires IgnoresPosition(rule) && Descending(cs) && NonNegative(cs)
    ensures Collected(cs, rule, now) == Young(cs, rule, now)
  {
    var m := Live(cs, rule, now);
    forall i | 0 <= i < |cs| ensures Deletes(rule, 0, cs[i].ts, now) <==> i >= m {
      DeletedIsSuffix(cs, rule, now, i);
      assert Deletes(rule, i, cs[i].ts, now) == Deletes(rule, 0, cs[i].ts, now);
    }
    YoungIsPrefix(cs, m, rule, now);
  }

  lemma {:induction false} YoungOfErased(cs: seq<Cell>, rule: GcRule, now: int, start: int, end: int)
    ensures Young(Erase(cs, start, end), rule, now) == Erase(Young(cs, rule, now), start, end)
  {
    if cs != [] { YoungOfErased(cs[1..], rule, now, start, end); }
  }

  lemma {:induction false} YoungOfYoung(cs: seq<Cell>, rule: GcRule, earlier: int, now: int)
    requires earlier <= now
    ensures Young(Young(cs, rule, earlier), rule, now) == Young(cs, rule, now)
  {
    if cs != [] {
      YoungOfYoung(cs[1..], rule, earlier, now);
      if Deletes(rule, 0, cs[0].ts, earlier) { DeletesIsMonotone(rule, 0, cs[0].ts, earlier, 0, cs[0].ts, now); }
    }
  }

  lemma {:induction false} PutOnTop(cs: seq<Cell>, c: Cell)
    requires forall i :: 0 <= i < |cs| ==> cs[i].ts < c.ts
    ensures Put(cs, c) == [c] + cs
  {
  }

  lemma {:induction false} YoungerThan(cs: seq<Cell>, rule: GcRule, now: int, t: int)
    requires forall i :: 0 <= i < |cs| ==> cs[i].ts < t
    ensures forall i :: 0 <= i < |Young(cs, rule, now)| ==> Young(cs, rule, now)[i].ts < t
  {
    if cs != [] { YoungerThan(cs[1..], rule, now, t); }
  }

  lemma {:induction false} YoungOfPut(cs: seq<Cell>, c: Cell, rule: GcRule, now: int)
    requires Descending(cs)
    ensures Young(Put(cs, c), rule, now) ==
              if Deletes(rule, 0, c.ts, now) then Young(cs, rule, now) else Put(Young(cs, rule, now), c)
  {
    var r := Put(cs, c);
    if cs == [] || cs[0].ts < c.ts {
      assert r[0] == c && r[1..] == cs;
      YoungerThan(cs, rule, now, c.ts);
    } else if cs[0].ts == c.ts {
      assert r[0] == c && r[1..] == cs[1..];
      YoungerThan(cs[1..], rule, now, c.ts);
    } else {
      assert r[0] == cs[0] && r[1..] == Put(cs[1..], c);
      YoungOfPut(cs[1..], c, rule, now);
      if Deletes(rule, 0, cs[0].ts, now) { DeletesIsMonotone(rule, 0, cs[0].ts, now, 0, c.ts, now); }
    }
  }

  ghost predicate AgreeOnYoung(a: seq<Cell>, b: seq<Cell>, rule: GcRule, now: int) {
    && Descending(a) && NonNegative(a) && Descending(b) && NonNegative(b)
    && Young(a, rule, now) == Young(b, rule, now)
  }

  lemma EraseStays(cs: seq<Cell>, start: int, end: int)
    requires Descending(cs) && NonNegative(cs)
    ensures Descending(Erase(cs, start, end)) && NonNegative(Erase(cs, start, end))
  {
    EraseDescends(cs, start, end);
    EraseHolds(cs, start, end);
    var r := Erase(cs, start, end);
    forall i | 0 <= i < |r| ensures r[i].ts >= 0 { assert r[i] in cs; }
  }

  lemma EditAgrees(a: seq<Cell>, b: seq<Cell>, rule: GcRule, now: int, e: Edit)
    requires IgnoresPosition(rule) && AgreeOnYoung(a, b, rule, now) && SaneEdit(e, now)
    ensures AgreeOnYoung(Step(a, rule, e), Step(b, NoRule, e), rule, now)
  {
    match e
    case Set(c) =>
      PutNonNegative(a, c);
      PutNonNegative(b, c);
      YoungOfPut(a, c, rule, now);
      YoungOfPut(b, c, rule, now);
    case Delete(start, end) =>
      EraseStays(a, start, end);
      EraseStays(b, start, end);
      YoungOfErased(a, rule, now, start, end);
      YoungOfErased(b, rule, now, start, end);
    case Collect(earlier) =>
      assert Live(b, NoRule, earlier) == |b| && b[..|b|] == b;
      CollectedAreYoung(a, rule, earlier);
      YoungOfYoung(a, rule, earlier, now);
  }

  lemma {:induction false} EditsAgree(edits: seq<Edit>, rule: GcRule, now: int)
    requires IgnoresPosition(rule) && Sane(edits, now)
    ensures AgreeOnYoung(Eager([], rule, edits), Lazy([], edits), rule, now)
  {
    if edits != [] {
      var init, e := edits[..|edits| - 1], edits[|edits| - 1];
      EditsAgree(init, rule, now);
      assert SaneEdit(e, now);
      EditAgrees(Eager([], rule, init), Lazy([], init), rule, now, e);
    }
  }

  /** Writes that put `i` newer cells on top of `c`. */
  function Pile(c: Cell, i: nat): seq<Edit> {
    if i == 0 then [Set(c)] else Pile(c, i - 1) + [Set(Cell(c.ts + i, [], []))]
  }

  ghost predicate Piled(cs: seq<Cell>, c: Cell, i: nat) {
    |cs| == i + 1 && cs[i] == c && forall j :: 0 <= j <= i ==> cs[j].ts == c.ts + i - j
  }

  lemma PiledOn(cs: seq<Cell>, c: Cell, i: nat, top: Cell)
    requires Piled(cs, c, i) && top.ts == c.ts + i + 1
    ensures Piled(Put(cs, top), c, i + 1)
  {
    PutOnTop(cs, top);
  }

  lemma EagerSnoc(rule: GcRule, edits: seq<Edit>, e: Edit)
    ensures Eager([], rule, edits + [e]) == Step(Eager([], rule, edits), rule, e)
  {
    assert (edits + [e])[..|edits|] == edits;
  }

  lemma {:induction false} PileIs(c: Cell, i: nat, rule: GcRule)
    ensures Piled(Eager([], rule, Pile(c, i)), c, i)
  {
    if i == 0 {
      EagerSnoc(rule, [], Set(c));
    } else {
      PileIs(c, i - 1, rule);
      EagerSnoc(rule, Pile(c, i - 1), Set(Cell(c.ts + i, [], [])));
      PiledOn(Eager([], rule, Pile(c, i - 1)), c, i - 1, Cell(c.ts + i, [], []));
    }
  }

  lemma {:induction false} PileIsSane(c: Cell, i: nat, now: int)
    requires c.ts >= 0
    ensures Sane(Pile(c, i), now)
  {
    if i > 0 { PileIsSane(c, i - 1, now); }
  }

  lemma {:induction false} EraseAll(cs: seq<Cell>, start: int)
    requires forall i :: 0 <= i < |cs| ==> cs[i].ts >= start
    ensures Erase(cs, start, 0) == []
  {
    if cs != [] { EraseAll(cs[1..], start); }
  }

  lemma EagerLosesIt(rule: GcRule, cs: seq<Cell>, i: nat, c: Cell, now: int)
    requires Piled(cs, c, i) && Deletes(rule, i, c.ts, now)
    ensures Erase(Collected(cs, rule, now), c.ts + 1, 0) == []
  {
    DeletedIsSuffix(cs, rule, now, i);
    EraseAll(Collected(cs, rule, now), c.ts + 1);
  }

  lemma LazyKeepsIt(cs: seq<Cell>, i: nat, c: Cell, now: int)
    requires Piled(cs, c, i)
    ensures Erase(Collected(cs, NoRule, now), c.ts + 1, 0) == [c]
  {
    assert Live(cs, NoRule, now) == |cs| && cs[..|cs|] == cs;
    assert cs == cs[..i] + [c];
    EraseAll(cs[..i], c.ts + 1);
    EraseAppend(cs[..i], [c], c.ts + 1, 0);
    assert Erase([c], c.ts + 1, 0) == [c];
  }

  function PileCollectedThenCut(c: Cell, i: nat, now: int): seq<Edit> {
    Pile(c, i) + [Collect(now)] + [Delete(c.ts + 1, 0)]
  }

  lemma PileCutIs(rule: GcRule, i: nat, c: Cell, now: int)
    ensures Eager([], rule, PileCollectedThenCut(c, i, now)) ==
              Erase(Collected(Eager([], rule, Pile(c, i)), rule, now), c.ts + 1, 0)
  {
    EagerSnoc(rule, Pile(c, i), Collect(now));
    EagerSnoc(rule, Pile(c, i) + [Collect(now)], Delete(c.ts + 1, 0));
  }

  /** With `i` newer cells on top, `c` is collected; once those are deleted it would have stayed. */
  lemma PositionShowsGc(rule: GcRule, i: nat, c: Cell, now: int)
    requires c.ts >= 0 && Deletes(rule, i, c.ts, now) && !Deletes(rule, 0, c.ts, now)
    ensures var edits := PileCollectedThenCut(c, i, now);
            && Sane(edits, now) && Collected(Eager([], rule, edits), rule, now) == []
            && Collected(Lazy([], edits), rule, now) == [c]
  {
    PileIsSane(c, i, now);
    PileIs(c, i, rule);
    PileCutIs(rule, i, c, now);
    EagerLosesIt(rule, Eager([], rule, Pile(c, i)), i, c, now);
    PileIs(c, i, NoRule);
    PileCutIs(NoRule, i, c, now);
    LazyKeepsIt(Lazy([], Pile(c, i)), i, c, now);
    assert Live([c], rule, now) == 1;
  }

  /** Collecting along the way is unobservable under all writes and deletions exactly when the rule
      does not look at the position of a cell. */
  lemma UnobservableIff(rule: GcRule)
    ensures Unobservable(rule) <==> IgnoresPosition(rule)
  {
    if IgnoresPosition(rule) {
      forall edits, now | Sane(edits, now)
        ensures Collected(Eager([], rule, edits), rule, now) == Collected(Lazy([], edits), rule, now)
      {
        EditsAgree(edits, rule, now);
        CollectedAreYoung(Eager([], rule, edits), rule, now);
        CollectedAreYoung(Lazy([], edits), rule, now);
      }
    } else {
      var i, ts, now :| i >= 0 && ts >= 0 && Deletes(rule, i, ts, now) != Deletes(rule, 0, ts, now);
      if Deletes(rule, 0, ts, now) { DeletesIsMonotone(rule, 0, ts, now, i, ts, now); }
      var c := Cell(ts, [], []);
      PositionShowsGc(rule, i, c, now);
    }
  }
}
