/** Reading the change log: sessions that poll it while it grows, and their continuation tokens. */
module ChangeStreams {
  import opened Basics
  import opened Lex

  datatype Rec = Rec(table: Bytes, id: nat, key: Bytes, micros: int)

  // ---- partitions ----

  datatype Edge = Infinite | Open(k: Bytes) | Closed(k: Bytes)

  /** Keys from `start` up to `end`; an empty end is no end. */
  datatype KeyRange = KeyRange(start: Bytes, end: Bytes)

  predicate Contains(r: KeyRange, k: Bytes) { AtMost(r.start, k) && (r.end == [] || Less(k, r.end)) }

  function PartitionRange(lo: Edge, hi: Edge): KeyRange {
    KeyRange(match lo { case Infinite => [] case Open(k) => k + [0] case Closed(k) => k },
             match hi { case Infinite => [] case Open(k) => k case Closed(k) => k + [0] })
  }

  /** The range holds the keys between the edges; an open empty end is no end. */
  lemma PartitionMeans(lo: Edge, hi: Edge, k: Bytes)
    ensures Contains(PartitionRange(lo, hi), k) <==>
              && (lo.Open? ==> Less(lo.k, k)) && (lo.Closed? ==> AtMost(lo.k, k))
              && (hi.Open? && hi.k != [] ==> Less(k, hi.k)) && (hi.Closed? ==> AtMost(k, hi.k))
  {
    if lo.Open? {
      SuccessorIsNext(lo.k, k);
      CompareAntisymmetric(lo.k + [0], k);
      CompareAntisymmetric(lo.k, k);
    }
    if hi.Closed? { SuccessorIsNext(hi.k, k); }
    CompareAntisymmetric([], k);
  }

  // ---- the log ----

  predicate Ascending(log: seq<Rec>) { forall i, j :: 0 <= i < j < |log| ==> log[i].id < log[j].id }

  /** A table's records after an id, as one listing without limit would give them. */
  function After(log: seq<Rec>, table: Bytes, a: nat): (r: seq<Rec>) {
    if log == [] then []
    else if log[0].table == table && log[0].id > a then [log[0]] + After(log[1..], table, a)
    else After(log[1..], table, a)
  }

  function ListAfter(log: seq<Rec>, table: Bytes, a: nat, limit: nat): seq<Rec> {
    var r := After(log, table, a);
    if |r| <= limit then r else r[..limit]
  }

  /** What a reader of the stream asks for. */
  datatype Query = Query(table: Bytes, range: KeyRange, end: Option<int>)

  /** The in-partition records with ids above `a` and up to `b`, in order. */
  function Select(log: seq<Rec>, q: Query, a: nat, b: nat): (r: seq<Rec>) {
    if log == [] then []
    else if log[0].table == q.table && a < log[0].id <= b && Contains(q.range, log[0].key)
    then [log[0]] + Select(log[1..], q, a, b)
    else Select(log[1..], q, a, b)
  }

  lemma {:induction false} SelectNothing(log: seq<Rec>, q: Query, a: nat, b: nat)
    requires forall i :: 0 <= i < |log| ==> log[i].id <= a || log[i].id > b
    ensures Select(log, q, a, b) == []
  {
    if log != [] { SelectNothing(log[1..], q, a, b); }
  }

  lemma {:induction false} SelectConcat(log: seq<Rec>, more: seq<Rec>, q: Query, a: nat, b: nat)
    ensures Select(log + more, q, a, b) == Select(log, q, a, b) + Select(more, q, a, b)
  {
    if log == [] {
      assert log + more == more;
    } else {
      var all, rest := log + more, Select(log[1..], q, a, b);
      SelectConcat(log[1..], more, q, a, b);
      assert all[0] == log[0] && all[1..] == log[1..] + more;
      assert [log[0]] + (rest + Select(more, q, a, b)) == [log[0]] + rest + Select(more, q, a, b);
    }
  }

  /** Reading up to `b` and then on from `b` reads each record once. */
  lemma {:induction false} SelectSplit(log: seq<Rec>, q: Query, a: nat, b: nat, c: nat)
    requires Ascending(log) && a <= b <= c
    ensures Select(log, q, a, c) == Select(log, q, a, b) + Select(log, q, b, c)
  {
    if log != [] {
      SelectSplit(log[1..], q, a, b, c);
      if log[0].id > b { SelectNothing(log[1..], q, a, b); }
    }
  }

  lemma {:induction false} AfterAt(log: seq<Rec>, table: Bytes, a: nat, i: nat)
    requires i < |After(log, table, a)|
    ensures var x := After(log, table, a)[i]; x in log && x.table == table && x.id > a
  {
    if log[0].table == table && log[0].id > a {
      if i > 0 { AfterAt(log[1..], table, a, i - 1); }
    } else {
      AfterAt(log[1..], table, a, i);
    }
  }

  lemma {:induction false} AfterAre(log: seq<Rec>, table: Bytes, a: nat)
    requires Ascending(log)
    ensures forall i :: 0 <= i < |After(log, table, a)| ==>
              After(log, table, a)[i] in log && After(log, table, a)[i].table == table && After(log, table, a)[i].id > a
    ensures Ascending(After(log, table, a))
  {
    if log != [] {
      AfterAre(log[1..], table, a);
      var r := After(log[1..], table, a);
      forall i | 0 <= i < |r| ensures r[i].id > log[0].id { assert r[i] in log[1..]; }
    }
  }

  /** The next record of the table: it is what reading one id further adds. */
  lemma {:induction false} NextRecord(log: seq<Rec>, q: Query, a: nat)
    requires Ascending(log) && After(log, q.table, a) != []
    ensures var r := After(log, q.table, a)[0];
            && r.id > a && r in log && After(log, q.table, r.id) == After(log, q.table, a)[1..]
            && Select(log, q, a, r.id) == if Contains(q.range, r.key) then [r] else []
  {
    var r := After(log, q.table, a)[0];
    AfterAre(log, q.table, a);
    if log[0].table == q.table && log[0].id > a {
      SelectNothing(log[1..], q, a, r.id);
      LaterIsAfter(log[1..], q.table, a, r.id);
    } else {
      NextRecord(log[1..], q, a);
      assert r in log[1..];
    }
  }

  lemma {:induction false} LaterIsAfter(log: seq<Rec>, table: Bytes, a: nat, b: nat)
    requires a <= b && forall i :: 0 <= i < |log| ==> log[i].id > b
    ensures After(log, table, a) == After(log, table, b)
  {
    if log != [] { LaterIsAfter(log[1..], table, a, b); }
  }

  /** Past the last listed record there is nothing more to select. */
  lemma {:induction false} NothingAfter(log: seq<Rec>, q: Query, a: nat, b: nat)
    requires After(log, q.table, a) == []
    ensures Select(log, q, a, b) == []
  {
    if log != [] { NothingAfter(log[1..], q, a, b); }
  }

  // ---- sessions ----

  datatype Msg = Data(rec: Rec) | Heartbeat(token: nat) | Close

  function Sent(ms: seq<Msg>): (r: seq<Rec>) {
    if ms == [] then []
    else Sent(ms[..|ms| - 1]) + if ms[|ms| - 1].Data? then [ms[|ms| - 1].rec] else []
  }

  /** The continuation token a message carries. */
  function Token(m: Msg): nat
    requires !m.Close?
  {
    if m.Data? then m.rec.id else m.token
  }

  /** Everything sent up to a token is what reading up to that token selects. */
  ghost predicate TokenCovers(log: seq<Rec>, q: Query, start: nat, ms: seq<Msg>, i: nat)
    requires i < |ms| && !ms[i].Close?
  {
    start <= Token(ms[i]) && Sent(ms[..i + 1]) == Select(log, q, start, Token(ms[i]))
  }

  /** A position is where a session started or an id in the log. */
  predicate Position(log: seq<Rec>, start: nat, a: nat) { a == start || (start < a && exists i :: 0 <= i < |log| && log[i].id == a) }

  lemma StablePosition(log: seq<Rec>, more: seq<Rec>, q: Query, start: nat, a: nat)
    requires Ascending(log + more) && Position(log, start, a)
    ensures Select(log + more, q, start, a) == Select(log, q, start, a) && Position(log + more, start, a)
  {
    var all := log + more;
    SelectConcat(log, more, q, start, a);
    if a != start {
      var i :| 0 <= i < |log| && log[i].id == a;
      assert all[i].id == a;
      forall j | 0 <= j < |more| ensures more[j].id > a { assert all[i].id < all[|log| + j].id; }
    }
    SelectNothing(more, q, start, a);
  }

  // ---- what a session keeps ----

  /** What was sent is what reading from the start to the current position selects, and so it was at
      every token. */
  ghost predicate Consistent(log: seq<Rec>, q: Query, start: nat, next: nat, ms: seq<Msg>) {
    && Ascending(log) && Position(log, start, next) && start <= next
    && Sent(ms) == Select(log, q, start, next)
    && forall i :: Good(log, q, start, ms, i)
  }

  ghost predicate Good(log: seq<Rec>, q: Query, start: nat, ms: seq<Msg>, i: int) {
    0 <= i < |ms| && !ms[i].Close? ==> Position(log, start, Token(ms[i])) && TokenCovers(log, q, start, ms, i)
  }

  /** The log grows by records with greater ids. */
  lemma GrowthKeeps(log: seq<Rec>, more: seq<Rec>, q: Query, start: nat, next: nat, ms: seq<Msg>)
    requires Consistent(log, q, start, next, ms) && Ascending(log + more)
    ensures Consistent(log + more, q, start, next, ms)
  {
    StablePosition(log, more, q, start, next);
    forall i ensures Good(log + more, q, start, ms, i) {
      assert Good(log, q, start, ms, i);
      if 0 <= i < |ms| && !ms[i].Close? { StablePosition(log, more, q, start, Token(ms[i])); }
    }
  }

  lemma SentSnoc(ms: seq<Msg>, m: Msg)
    ensures Sent(ms + [m]) == Sent(ms) + if m.Data? then [m.rec] else []
  {
    assert (ms + [m])[..|ms|] == ms;
  }

  lemma MessageKeeps(log: seq<Rec>, q: Query, start: nat, next: nat, ms: seq<Msg>, m: Msg)
    requires Ascending(log) && Position(log, start, next) && start <= next
    requires forall i :: Good(log, q, start, ms, i)
    requires Sent(ms + [m]) == Select(log, q, start, next) && (m.Close? || Token(m) == next)
    ensures Consistent(log, q, start, next, ms + [m])
  {
    var all := ms + [m];
    forall i ensures Good(log, q, start, all, i) {
      assert Good(log, q, start, ms, i);
      if 0 <= i < |ms| {
        assert all[..i + 1] == ms[..i + 1];
      } else if i == |ms| {
        assert all[..i + 1] == all;
      }
    }
  }

  lemma SilentKeeps(log: seq<Rec>, q: Query, start: nat, next: nat, ms: seq<Msg>, m: Msg)
    requires Consistent(log, q, start, next, ms) && !m.Data? && (m.Heartbeat? ==> m.token == next)
    ensures Consistent(log, q, start, next, ms + [m])
  {
    SentSnoc(ms, m);
    assert Sent(ms) + [] == Sent(ms);
    MessageKeeps(log, q, start, next, ms, m);
  }

  /** One more record: sent when it is in the partition, passed over otherwise. */
  lemma RecordKeeps(log: seq<Rec>, q: Query, start: nat, next: nat, ms: seq<Msg>)
    requires Consistent(log, q, start, next, ms) && After(log, q.table, next) != []
    ensures var r := After(log, q.table, next)[0];
            Consistent(log, q, start, r.id, if Contains(q.range, r.key) then ms + [Data(r)] else ms)
  {
    var r := After(log, q.table, next)[0];
    NextRecord(log, q, next);
    SelectSplit(log, q, start, next, r.id);
    if Contains(q.range, r.key) {
      SentSnoc(ms, Data(r));
      MessageKeeps(log, q, start, r.id, ms, Data(r));
    }
  }

  // ---- the end time ----

  /** The records before the first that was committed after the end time. */
  function Timely(q: Query, rs: seq<Rec>): (r: seq<Rec>)
    ensures r <= rs
  {
    if rs == [] || (q.end.Some? && rs[0].micros > q.end.value) then []
    else
      assert rs == [rs[0]] + rs[1..];
      [rs[0]] + Timely(q, rs[1..])
  }

  /** Without an end time every record is timely; with one, all up to the first past it. */
  lemma {:induction false} TimelyMeans(q: Query, rs: seq<Rec>)
    ensures q.end == None ==> Timely(q, rs) == rs
    ensures forall r :: r in Timely(q, rs) && q.end.Some? ==> r.micros <= q.end.value
    ensures |Timely(q, rs)| < |rs| ==> q.end.Some? && rs[|Timely(q, rs)|].micros > q.end.value
    ensures Timely(q, rs) != rs <==> q.end.Some? && exists r :: r in rs && r.micros > q.end.value
  {
    if rs != [] {
      TimelyMeans(q, rs[1..]);
      assert rs == [rs[0]] + rs[1..];
    }
  }

  lemma {:induction false} TimelyStops(q: Query, rs: seq<Rec>)
    ensures |Timely(q, rs)| < |rs| ==> q.end.Some? && rs[|Timely(q, rs)|].micros > q.end.value
  {
    if rs != [] { TimelyStops(q, rs[1..]); }
  }

  lemma {:induction false} TimelyAt(q: Query, rs: seq<Rec>, i: nat)
    requires i < |Timely(q, rs)| && q.end.Some?
    ensures Timely(q, rs)[i].micros <= q.end.value
  {
    if i > 0 { TimelyAt(q, rs[1..], i - 1); }
  }

  /** The records of a partition. */
  function InPartition(q: Query, rs: seq<Rec>): (r: seq<Rec>) {
    if rs == [] then [] else (if Contains(q.range, rs[0].key) then [rs[0]] else []) + InPartition(q, rs[1..])
  }

  /** What a session from `start` owes its reader: the in-partition records before the first one, in or
      out of the partition, that is past the end time. */
  function Due(log: seq<Rec>, q: Query, start: nat): seq<Rec> { InPartition(q, Timely(q, After(log, q.table, start))) }

  function LastIn(rs: seq<Rec>, a: nat): nat { if rs == [] then a else rs[|rs| - 1].id }

  lemma {:induction false} InPartitionConcat(q: Query, a: seq<Rec>, b: seq<Rec>)
    ensures InPartition(q, a + b) == InPartition(q, a) + InPartition(q, b)
  {
    if a == [] {
      assert a + b == b;
    } else {
      InPartitionConcat(q, a[1..], b);
      assert (a + b)[0] == a[0] && (a + b)[1..] == a[1..] + b;
      Associative(if Contains(q.range, a[0].key) then [a[0]] else [], InPartition(q, a[1..]), InPartition(q, b));
    }
  }

  lemma {:induction false} TimelyConcat(q: Query, a: seq<Rec>, b: seq<Rec>)
    ensures Timely(q, a + b) == if Timely(q, a) == a then a + Timely(q, b) else Timely(q, a)
  {
    if a == [] {
      assert a + b == b && a + Timely(q, b) == Timely(q, b);
    } else {
      TimelyConcat(q, a[1..], b);
      assert (a + b)[0] == a[0] && (a + b)[1..] == a[1..] + b && a == [a[0]] + a[1..];
      Associative([a[0]], a[1..], Timely(q, b));
    }
  }

  lemma TimelyUpTo(q: Query, rs: seq<Rec>, n: nat)
    requires n <= |rs| && Timely(q, rs[..n]) == rs[..n]
    requires n < |rs| ==> q.end.Some? && rs[n].micros > q.end.value
    ensures Timely(q, rs) == rs[..n]
  {
    assert rs == rs[..n] + rs[n..];
    TimelyConcat(q, rs[..n], rs[n..]);
    assert rs[..n] + [] == rs[..n];
  }

  lemma TimelyOneMore(q: Query, rs: seq<Rec>, r: Rec)
    requires Timely(q, rs) == rs && !(q.end.Some? && r.micros > q.end.value)
    ensures Timely(q, rs + [r]) == rs + [r]
  {
    TimelyConcat(q, rs, [r]);
    assert Timely(q, [r]) == [r] + Timely(q, [r][1..]) == [r];
  }

  lemma {:induction false} AfterConcat(log: seq<Rec>, more: seq<Rec>, table: Bytes, a: nat)
    ensures After(log + more, table, a) == After(log, table, a) + After(more, table, a)
  {
    if log == [] {
      assert log + more == more;
    } else {
      AfterConcat(log[1..], more, table, a);
      assert (log + more)[0] == log[0] && (log + more)[1..] == log[1..] + more;
      Associative([log[0]], After(log[1..], table, a), After(more, table, a));
    }
  }

  lemma NewRecordsAreLater(log: seq<Rec>, more: seq<Rec>, table: Bytes, start: nat, next: nat)
    requires Ascending(log + more) && Position(log, start, next) && start <= next
    ensures After(more, table, start) == After(more, table, next)
  {
    if next != start {
      var i :| 0 <= i < |log| && log[i].id == next;
      forall j | 0 <= j < |more| ensures more[j].id > next { assert (log + more)[i].id < (log + more)[|log| + j].id; }
      LaterIsAfter(more, table, start, next);
    }
  }

  function Datas(rs: seq<Rec>): (ms: seq<Msg>)
    ensures |ms| == |rs| && forall i :: 0 <= i < |ms| ==> ms[i] == Data(rs[i])
  {
    seq(|rs|, i requires 0 <= i < |rs| => Data(rs[i]))
  }

  /** From `start` to `next` the records `passed` were met: all timely, and those in the partition sent. */
  ghost predicate Passed(log: seq<Rec>, q: Query, start: nat, next: nat, ms: seq<Msg>, passed: seq<Rec>) {
    && Consistent(log, q, start, next, ms)
    && After(log, q.table, start) == passed + After(log, q.table, next)
    && Timely(q, passed) == passed && InPartition(q, passed) == Sent(ms)
  }

  /** What a session keeps. */
  ghost predicate Keeps(log: seq<Rec>, q: Query, start: nat, next: nat, ms: seq<Msg>) {
    exists passed :: Passed(log, q, start, next, ms, passed)
  }

  lemma KeepsAtFirst(q: Query, start: nat)
    ensures Keeps([], q, start, start, [])
  {
    assert Passed([], q, start, start, [], []);
  }

  lemma KeepsAfterRecord(log: seq<Rec>, q: Query, start: nat, next: nat, ms: seq<Msg>)
    requires Keeps(log, q, start, next, ms) && After(log, q.table, next) != []
    requires !(q.end.Some? && After(log, q.table, next)[0].micros > q.end.value)
    ensures var r := After(log, q.table, next)[0]; After(log, q.table, r.id) == After(log, q.table, next)[1..]
    ensures var r := After(log, q.table, next)[0]; Keeps(log, q, start, r.id, if Contains(q.range, r.key) then ms + [Data(r)] else ms)
  {
    var passed :| Passed(log, q, start, next, ms, passed);
    PassedOneMore(log, q, start, next, ms, passed);
  }

  lemma PassedOneMore(log: seq<Rec>, q: Query, start: nat, next: nat, ms: seq<Msg>, passed: seq<Rec>)
    requires Passed(log, q, start, next, ms, passed) && After(log, q.table, next) != []
    requires !(q.end.Some? && After(log, q.table, next)[0].micros > q.end.value)
    ensures var r := After(log, q.table, next)[0]; After(log, q.table, r.id) == After(log, q.table, next)[1..]
    ensures var r := After(log, q.table, next)[0];
            Passed(log, q, start, r.id, if Contains(q.range, r.key) then ms + [Data(r)] else ms, passed + [r])
  {
    var rest := After(log, q.table, next);
    var r := rest[0];
    RecordKeeps(log, q, start, next, ms);
    NextRecord(log, q, next);
    assert rest == [r] + rest[1..];
    Associative(passed, [r], rest[1..]);
    TimelyOneMore(q, passed, r);
    InPartitionConcat(q, passed, [r]);
    OneInPartition(q, r);
    if Contains(q.range, r.key) { SentSnoc(ms, Data(r)); }
  }

  lemma OneInPartition(q: Query, r: Rec)
    ensures InPartition(q, [r]) == if Contains(q.range, r.key) then [r] else []
  {
    assert [r][1..] == [];
    assert InPartition(q, [r]) == (if Contains(q.range, r.key) then [r] else []) + InPartition(q, [r][1..]);
  }

  lemma KeepsAsLogGrows(log: seq<Rec>, now: seq<Rec>, q: Query, start: nat, next: nat, ms: seq<Msg>)
    requires Keeps(log, q, start, next, ms) && log <= now && Ascending(now)
    ensures Keeps(now, q, start, next, ms)
  {
    var passed :| Passed(log, q, start, next, ms, passed);
    var more := now[|log|..];
    assert log + more == now;
    GrowthKeeps(log, more, q, start, next, ms);
    AfterConcat(log, more, q.table, start);
    AfterConcat(log, more, q.table, next);
    NewRecordsAreLater(log, more, q.table, start, next);
    Associative(passed, After(log, q.table, next), After(more, q.table, next));
    assert Passed(now, q, start, next, ms, passed);
  }

  lemma KeepsSilently(log: seq<Rec>, q: Query, start: nat, next: nat, ms: seq<Msg>, m: Msg)
    requires Keeps(log, q, start, next, ms) && !m.Data? && (m.Heartbeat? ==> m.token == next)
    ensures Keeps(log, q, start, next, ms + [m]) && Sent(ms + [m]) == Sent(ms)
  {
    var passed :| Passed(log, q, start, next, ms, passed);
    SilentKeeps(log, q, start, next, ms, m);
    SentSnoc(ms, m);
    assert Passed(log, q, start, next, ms + [m], passed);
  }

  /** When nothing timely is left, everything due was sent. */
  lemma KeepsWhatIsDue(log: seq<Rec>, q: Query, start: nat, next: nat, ms: seq<Msg>)
    requires Keeps(log, q, start, next, ms)
    requires var rest := After(log, q.table, next); rest == [] || (q.end.Some? && rest[0].micros > q.end.value)
    ensures Sent(ms) == Due(log, q, start)
  {
    var passed :| Passed(log, q, start, next, ms, passed);
    TimelyConcat(q, passed, After(log, q.table, next));
    assert passed + [] == passed;
  }

  // ---- the polling loop ----

  /** After `n` records, all of them timely. */
  ghost predicate Delivered(q: Query, rs: seq<Rec>, n: nat, first: nat, next: nat, before: seq<Msg>, ms: seq<Msg>) {
    && n <= |rs| && Timely(q, rs[..n]) == rs[..n]
    && next == LastIn(rs[..n], first) && ms == before + Datas(InPartition(q, rs[..n]))
  }

  lemma DeliveredOne(q: Query, rs: seq<Rec>, n: nat, first: nat, next: nat, before: seq<Msg>, ms: seq<Msg>)
    requires n < |rs| && Delivered(q, rs, n, first, next, before, ms) && !(q.end.Some? && rs[n].micros > q.end.value)
    ensures Delivered(q, rs, n + 1, first, rs[n].id, before, if Contains(q.range, rs[n].key) then ms + [Data(rs[n])] else ms)
  {
    var r := rs[n];
    assert rs[..n + 1] == rs[..n] + [r];
    TimelyOneMore(q, rs[..n], r);
    InPartitionConcat(q, rs[..n], [r]);
    OneInPartition(q, r);
    var sent := InPartition(q, rs[..n]);
    assert Datas(sent + [r]) == Datas(sent) + [Data(r)] && sent + [] == sent;
    Associative(before, Datas(sent), [Data(r)]);
  }

  lemma DeliveredAll(q: Query, rs: seq<Rec>, n: nat, first: nat, next: nat, before: seq<Msg>, ms: seq<Msg>)
    requires Delivered(q, rs, n, first, next, before, ms) && (n < |rs| ==> q.end.Some? && rs[n].micros > q.end.value)
    ensures next == LastIn(Timely(q, rs), first) && ms == before + Datas(InPartition(q, Timely(q, rs)))
    ensures n == |rs| ==> Timely(q, rs) == rs
  {
    TimelyUpTo(q, rs, n);
  }

  lemma NoneLate(q: Query, rs: seq<Rec>)
    requires Timely(q, rs) == rs
    ensures q.end.Some? ==> forall i :: 0 <= i < |rs| ==> rs[i].micros <= q.end.value
  {
    forall i | 0 <= i < |rs| && q.end.Some? ensures rs[i].micros <= q.end.value { TimelyAt(q, rs, i); }
  }

  class Session {
    const q: Query
    const start: nat
    const batch: nat
    var nextAfterID: nat
    var sent: seq<Msg>
    var closed: bool
    ghost var log: seq<Rec>  // as of the last listing

    ghost predicate Valid()
      reads this
    {
      batch > 0 && Keeps(log, q, start, nextAfterID, sent) && (closed ==> q.end.Some? && Sent(sent) == Due(log, q, start))
    }

    constructor (q: Query, start: nat, batch: nat)
      requires batch > 0
      ensures Valid() && this.q == q && this.start == start && this.batch == batch
      ensures sent == [] && !closed && log == [] && nextAfterID == start
    {
      this.q, this.start, this.batch := q, start, batch;
      nextAfterID, sent, closed, log := start, [], false, [];
      new;
      KeepsAtFirst(q, start);
    }

    method Send(m: Msg)
      requires Valid() && !m.Data? && (m.Heartbeat? ==> m.token == nextAfterID)
      modifies this`sent
      ensures Valid() && sent == old(sent) + [m] && Sent(sent) == Sent(old(sent))
    {
      KeepsSilently(log, q, start, nextAfterID, sent, m);
      sent := sent + [m];
    }

    /** Delivers listed records until one is past the end time. */
    method Deliver(records: seq<Rec>)
      requires Valid() && !closed && records <= After(log, q.table, nextAfterID)
      modifies this`nextAfterID, this`sent, this`closed
      ensures Valid()
      ensures closed <==> q.end.Some? && exists i :: 0 <= i < |records| && records[i].micros > q.end.value
      ensures nextAfterID == LastIn(Timely(q, records), old(nextAfterID))
      ensures sent == old(sent) + Datas(InPartition(q, Timely(q, records))) + (if closed then [Close] else [])
      ensures !closed ==> After(log, q.table, nextAfterID) == old(After(log, q.table, nextAfterID))[|records|..]
    {
      ghost var all, first, before := After(log, q.table, nextAfterID), nextAfterID, sent;
      var n := DeliverTimely(records);
      DeliveredAll(q, records, n, first, nextAfterID, before, sent);
      if n < |records| {
        assert all[n..][0] == records[n];
        CloseSession();
      } else {
        NoneLate(q, records);
      }
    }

    method DeliverTimely(records: seq<Rec>) returns (n: nat)
      requires Valid() && !closed && records <= After(log, q.table, nextAfterID)
      modifies this`nextAfterID, this`sent
      ensures n <= |records| && Valid() && (n < |records| ==> q.end.Some? && records[n].micros > q.end.value)
      ensures Delivered(q, records, n, old(nextAfterID), nextAfterID, old(sent), sent)
      ensures After(log, q.table, nextAfterID) == old(After(log, q.table, nextAfterID))[n..]
    {
      ghost var all, first, before := After(log, q.table, nextAfterID), nextAfterID, sent;
      n := 0;
      while n < |records| && !(q.end.Some? && records[n].micros > q.end.value)
        invariant n <= |records| && Valid() && After(log, q.table, nextAfterID) == all[n..]
        invariant Delivered(q, records, n, first, nextAfterID, before, sent)
      {
        DeliveredOne(q, records, n, first, nextAfterID, before, sent);
        assert all[n..][0] == records[n];
        DeliverOne(records[n]);
        n := n + 1;
      }
    }

    /** The end time is over: the next record is past it, or there is none. */
    method CloseSession()
      requires Valid() && !closed && q.end.Some?
      requires var rest := After(log, q.table, nextAfterID); rest == [] || rest[0].micros > q.end.value
      modifies this`sent, this`closed
      ensures Valid() && closed && sent == old(sent) + [Close]
    {
      KeepsWhatIsDue(log, q, start, nextAfterID, sent);
      Send(Close);
      closed := true;
    }

    method DeliverOne(rec: Rec)
      requires Valid() && !closed && After(log, q.table, nextAfterID) != [] && rec == After(log, q.table, nextAfterID)[0]
      requires !(q.end.Some? && rec.micros > q.end.value)
      modifies this`nextAfterID, this`sent
      ensures Valid() && nextAfterID == rec.id && After(log, q.table, nextAfterID) == old(After(log, q.table, nextAfterID))[1..]
      ensures sent == if Contains(q.range, rec.key) then old(sent) + [Data(rec)] else old(sent)
    {
      KeepsAfterRecord(log, q, start, nextAfterID, sent);
      nextAfterID := rec.id;
      if Contains(q.range, rec.key) {
        sent := sent + [Data(rec)];
      }
    }

    /** One turn of the loop over the log as it is now; `watermark` and `beat` are what the clock says. */
    method Poll(now: seq<Rec>, watermark: int, beat: bool)
      requires Valid() && !closed && log <= now && Ascending(now)
      modifies this
      ensures Valid() && log == now
      ensures var listed := ListAfter(now, q.table, old(nextAfterID), batch);
              && (closed <==> q.end.Some? && ((exists i :: 0 <= i < |listed| && listed[i].micros > q.end.value)
                                              || (|listed| < batch && watermark > q.end.value)))
              && nextAfterID == LastIn(Timely(q, listed), old(nextAfterID))
              && sent == old(sent) + Datas(InPartition(q, Timely(q, listed)))
                         + (if closed then [Close] else if |listed| < batch && beat then [Heartbeat(nextAfterID)] else [])
              && (closed || |listed| < batch ==> Sent(sent) == Due(now, q, start))
    {
      KeepsAsLogGrows(log, now, q, start, nextAfterID, sent);
      log := now;
      var records := ListAfter(now, q.table, nextAfterID, batch);
      Deliver(records);
      if closed || |records| == batch {
        return;
      }
      Settle(watermark, beat);
    }

    /** A listing that was not full: the session ends, sends a heartbeat or waits. */
    method Settle(watermark: int, beat: bool)
      requires Valid() && !closed && After(log, q.table, nextAfterID) == []
      modifies this`sent, this`closed
      ensures Valid() && Sent(sent) == Due(log, q, start)
      ensures closed <==> q.end.Some? && watermark > q.end.value
      ensures sent == old(sent) + (if closed then [Close] else if beat then [Heartbeat(nextAfterID)] else [])
    {
      if q.end.Some? && watermark > q.end.value {
        CloseSession();
        return;
      }
      KeepsWhatIsDue(log, q, start, nextAfterID, sent);
      if beat {
        Send(Heartbeat(nextAfterID));
      }
    }
  }

  /** A listing holds the table's records after an id, in order, at most `limit` of them, and leaves none
      out before one that it holds. */
  lemma ListAfterMeans(log: seq<Rec>, table: Bytes, a: nat, limit: nat)
    requires Ascending(log)
    ensures var r := ListAfter(log, table, a, limit);
            && Ascending(r) && |r| <= limit && (forall x :: x in r ==> x in log && x.table == table && x.id > a)
            && forall x :: x in log && x.table == table && x.id > a && x !in r ==> |r| == limit && forall y :: y in r ==> y.id < x.id
  {
    var all, r := After(log, table, a), ListAfter(log, table, a, limit);
    AfterAre(log, table, a);
    forall x | x in log && x.table == table && x.id > a && x !in r ensures |r| == limit && forall y :: y in r ==> y.id < x.id {
      AfterHas(log, table, a, x);
      var i :| 0 <= i < |all| && all[i] == x;
    }
  }

  lemma {:induction false} AfterHas(log: seq<Rec>, table: Bytes, a: nat, x: Rec)
    requires x in log && x.table == table && x.id > a
    ensures x in After(log, table, a)
  {
    if x != log[0] { AfterHas(log[1..], table, a, x); }
  }

  /** What is due: the table's records after the start, in the partition, with no record of the table up
      to them past the end time. */
  lemma DueMeans(log: seq<Rec>, q: Query, start: nat)
    requires Ascending(log)
    ensures forall x :: x in Due(log, q, start) <==>
              && x in log && x.table == q.table && x.id > start && Contains(q.range, x.key)
              && InTime(log, q, start, x)
    ensures Ascending(Due(log, q, start))
  {
    var kept := Timely(q, After(log, q.table, start));
    AfterAre(log, q.table, start);
    InPartitionMeans(q, kept);
    forall x ensures x in kept <==> x in log && x.table == q.table && x.id > start && InTime(log, q, start, x) {
      if x in kept { TimelyAreInTime(log, q, start, x); }
      if x in log && x.table == q.table && x.id > start && InTime(log, q, start, x) { InTimeAreTimely(log, q, start, x); }
    }
  }

  ghost predicate InTime(log: seq<Rec>, q: Query, start: nat, x: Rec) {
    forall y :: y in log && y.table == q.table && start < y.id <= x.id && q.end.Some? ==> y.micros <= q.end.value
  }

  lemma TimelyAreInTime(log: seq<Rec>, q: Query, start: nat, x: Rec)
    requires Ascending(log) && x in Timely(q, After(log, q.table, start))
    ensures x in log && x.table == q.table && x.id > start && InTime(log, q, start, x)
  {
    var all := After(log, q.table, start);
    var kept := Timely(q, all);
    AfterAre(log, q.table, start);
    var i :| 0 <= i < |kept| && kept[i] == x;
    assert all[i] == x;
    forall y | y in log && y.table == q.table && start < y.id <= x.id && q.end.Some? ensures y.micros <= q.end.value {
      AfterHas(log, q.table, start, y);
      var j :| 0 <= j < |all| && all[j] == y;
      assert j <= i && y == kept[j];
      TimelyAt(q, all, j);
    }
  }

  lemma AfterAscends(log: seq<Rec>, table: Bytes, a: nat, i: nat, j: nat)
    requires Ascending(log) && i <= j < |After(log, table, a)|
    ensures After(log, table, a)[i].id <= After(log, table, a)[j].id
  {
    AfterAre(log, table, a);
  }

  /** A record from the first late one on is not in time. */
  lemma FirstLate(log: seq<Rec>, q: Query, start: nat, i: nat)
    requires Ascending(log)
    requires var all := After(log, q.table, start); |Timely(q, all)| <= i < |all|
    ensures !InTime(log, q, start, After(log, q.table, start)[i])
  {
    var all := After(log, q.table, start);
    var n := |Timely(q, all)|;
    TimelyStops(q, all);
    AfterAt(log, q.table, start, n);
    AfterAscends(log, q.table, start, n, i);
  }

  lemma InTimeAreTimely(log: seq<Rec>, q: Query, start: nat, x: Rec)
    requires Ascending(log) && x in log && x.table == q.table && x.id > start && InTime(log, q, start, x)
    ensures x in Timely(q, After(log, q.table, start))
  {
    var all := After(log, q.table, start);
    var n := |Timely(q, all)|;
    AfterHas(log, q.table, start, x);
    var i :| 0 <= i < |all| && all[i] == x;
    if i >= n {
      FirstLate(log, q, start, i);
    } else {
      assert Timely(q, all)[i] == x;
    }
  }

  lemma {:induction false} InPartitionMeans(q: Query, rs: seq<Rec>)
    requires Ascending(rs)
    ensures forall x :: x in InPartition(q, rs) <==> x in rs && Contains(q.range, x.key)
    ensures Ascending(InPartition(q, rs))
  {
    if rs != [] {
      InPartitionMeans(q, rs[1..]);
      assert rs == [rs[0]] + rs[1..];
      var rest := InPartition(q, rs[1..]);
      forall i | 0 <= i < |rest| ensures rs[0].id < rest[i].id { assert rest[i] in rs[1..]; }
    }
  }

  // ---- cutting and resuming ----

  /** Cutting a session after any message with a token, and resuming from that token to `next'`, gives
      together exactly what one uninterrupted session gives. */
  lemma ResumeIsSeamless(log: seq<Rec>, q: Query, start: nat, next: nat, ms: seq<Msg>, i: nat,
                         log': seq<Rec>, next': nat, ms': seq<Msg>)
    requires Consistent(log, q, start, next, ms) && i < |ms| && !ms[i].Close?
    requires log <= log' && Consistent(log', q, Token(ms[i]), next', ms')
    ensures Sent(ms[..i + 1]) + Sent(ms') == Select(log', q, start, next')
  {
    var t := Token(ms[i]);
    assert Good(log, q, start, ms, i);
    assert log + log'[|log|..] == log';
    StablePosition(log, log'[|log|..], q, start, t);
    SelectSplit(log', q, start, t, next');
  }

  // ---- resuming from several tokens ----

  /** A partition as a request or token carries it; it may have no row range. */
  datatype Partition = Partition(range: Option<(Edge, Edge)>)

  /** A continuation token: its id, when it decodes, and its partition, when it has one. */
  datatype StreamToken = StreamToken(id: Option<nat>, partition: Option<Partition>)

  datatype Start = InvalidToken | OtherPartition | At(range: KeyRange, afterID: nat)

  /** Without a partition, or without a row range in it, every key is meant. */
  function RangeOf(p: Option<Partition>): KeyRange {
    if p.None? || p.value.range.None? then KeyRange([], []) else PartitionRange(p.value.range.value.0, p.value.range.value.1)
  }

  predicate Decodable(tokens: seq<StreamToken>) { forall i :: 0 <= i < |tokens| ==> tokens[i].id.Some? }

  /** The partition that is read: the requested one, or else that of the last token. */
  function Chosen(request: Option<Partition>, tokens: seq<StreamToken>): Option<Partition>
    requires tokens != []
  {
    if request.Some? then request else tokens[|tokens| - 1].partition
  }

  predicate Mismatch(request: Option<Partition>, tokens: seq<StreamToken>)
    requires tokens != []
  {
    var last := tokens[|tokens| - 1].partition;
    request.Some? && last.Some? && request.value.range != last.value.range
  }

  predicate Earliest(tokens: seq<StreamToken>, a: nat) {
    (exists i :: 0 <= i < |tokens| && tokens[i].id == Some(a)) && forall i :: 0 <= i < |tokens| && tokens[i].id.Some? ==> a <= tokens[i].id.value
  }

  /** Delivery starts after the smallest id; only the last token's partition is looked at. */
  method ChangeStreamStart(request: Option<Partition>, tokens: seq<StreamToken>) returns (r: Start)
    requires tokens != []
    ensures r.InvalidToken? <==> !Decodable(tokens)
    ensures r.OtherPartition? <==> Decodable(tokens) && Mismatch(request, tokens)
    ensures r.At? ==> Earliest(tokens, r.afterID) && r.range == RangeOf(Chosen(request, tokens))
  {
    var afterID, partition, tokenPartition := 0, request, None;
    for i := 0 to |tokens|
      invariant forall j :: 0 <= j < i ==> tokens[j].id.Some? && afterID <= tokens[j].id.value
      invariant i > 0 ==> tokenPartition == tokens[i - 1].partition && exists j :: 0 <= j < i && tokens[j].id == Some(afterID)
    {
      if tokens[i].id.None? {
        return InvalidToken;
      }
      var id := tokens[i].id.value;
      if i == 0 || id < afterID {
        afterID := id;
      }
      tokenPartition := tokens[i].partition;
    }
    if partition.None? {
      partition := tokenPartition;
    } else if tokenPartition.Some? && partition.value.range != tokenPartition.value.range {
      return OtherPartition;
    }
    r := At(RangeOf(partition), afterID);
  }

  /** Comparing bounds decides whether every key of one range is in another. */
  predicate Inside(a: KeyRange, b: KeyRange) {
    || (a.end != [] && AtMost(a.end, a.start))
    || (AtMost(b.start, a.start) && (b.end == [] || (a.end != [] && AtMost(a.end, b.end))))
  }

  lemma InsideMeans(a: KeyRange, b: KeyRange, k: Bytes)
    requires Inside(a, b) && Contains(a, k)
    ensures Contains(b, k)
  {
    CompareAntisymmetric(a.end, k);
    CompareAntisymmetric(k, b.end);
    if AtMost(b.start, a.start) { LessTransitive(b.start, a.start, k); }
    if a.end != [] && AtMost(a.end, a.start) { LessTransitive(a.end, a.start, k); }
    if a.end != [] && AtMost(a.end, b.end) { LessTransitive(k, a.end, b.end); }
  }

  /** A key of `a` outside `b`: the start of `a` or the end of `b`. */
  lemma Outside(a: KeyRange, b: KeyRange) returns (k: Bytes)
    requires !Inside(a, b)
    ensures Contains(a, k) && !Contains(b, k)
  {
    k := if Contains(b, a.start) then b.end else a.start;
    CompareAntisymmetric(a.start, a.end);
    CompareAntisymmetric(a.start, b.end);
    CompareAntisymmetric(b.end, a.end);
  }

  /** What the holder of token `i` still misses, up to id `next`. */
  ghost function Missing(log: seq<Rec>, table: Bytes, tokens: seq<StreamToken>, i: nat, next: nat): seq<Rec>
    requires Decodable(tokens) && i < |tokens|
  {
    Select(log, Query(table, RangeOf(tokens[i].partition), None), tokens[i].id.value, next)
  }

  /** Reading on from the start skips no record that some token misses. */
  ghost predicate SkipsNothing(log: seq<Rec>, table: Bytes, tokens: seq<StreamToken>, start: Start)
    requires Decodable(tokens) && start.At?
  {
    forall i, next, r :: 0 <= i < |tokens| && r in Missing(log, table, tokens, i, next)
      ==> r in Select(log, Query(table, start.range, None), start.afterID, next)
  }

  ghost predicate AllInside(tokens: seq<StreamToken>, range: KeyRange) {
    forall i :: 0 <= i < |tokens| ==> Inside(RangeOf(tokens[i].partition), range)
  }

  lemma InsideSkipsNothing(log: seq<Rec>, table: Bytes, tokens: seq<StreamToken>, start: Start)
    requires Ascending(log) && Decodable(tokens) && start.At? && Earliest(tokens, start.afterID) && AllInside(tokens, start.range)
    ensures SkipsNothing(log, table, tokens, start)
  {
    forall i, next, r | 0 <= i < |tokens| && r in Missing(log, table, tokens, i, next)
      ensures r in Select(log, Query(table, start.range, None), start.afterID, next)
    {
      SelectMeans(log, Query(table, RangeOf(tokens[i].partition), None), tokens[i].id.value, next);
      SelectMeans(log, Query(table, start.range, None), start.afterID, next);
      InsideMeans(RangeOf(tokens[i].partition), start.range, r.key);
    }
  }

  /** One record after the token, on a key outside the partition that is read. */
  lemma OutsideIsSkipped(table: Bytes, tokens: seq<StreamToken>, start: Start, i: nat) returns (log: seq<Rec>)
    requires Decodable(tokens) && start.At? && i < |tokens| && !Inside(RangeOf(tokens[i].partition), start.range)
    ensures Ascending(log) && !SkipsNothing(log, table, tokens, start)
  {
    var k := Outside(RangeOf(tokens[i].partition), start.range);
    var id := tokens[i].id.value + 1;
    var r := Rec(table, id, k, 0);
    log := [r];
    SelectMeans(log, Query(table, RangeOf(tokens[i].partition), None), tokens[i].id.value, id);
    SelectMeans(log, Query(table, start.range, None), start.afterID, id);
    assert r in Missing(log, table, tokens, i, id);
  }

  /** Resuming skips nothing, whatever the log holds, exactly when the key range of every token lies
      inside the partition that is read. */
  lemma NothingSkippedIff(table: Bytes, tokens: seq<StreamToken>, start: Start)
    requires Decodable(tokens) && start.At? && Earliest(tokens, start.afterID)
    ensures (forall log :: Ascending(log) ==> SkipsNothing(log, table, tokens, start)) <==> AllInside(tokens, start.range)
  {
    if AllInside(tokens, start.range) {
      forall log | Ascending(log) ensures SkipsNothing(log, table, tokens, start) {
        InsideSkipsNothing(log, table, tokens, start);
      }
    } else {
      var i :| 0 <= i < |tokens| && !Inside(RangeOf(tokens[i].partition), start.range);
      var log := OutsideIsSkipped(table, tokens, start, i);
    }
  }

  const M: Bytes := [109]

  const NEIGHBOURS: seq<StreamToken> :=
    [StreamToken(Some(5), Some(Partition(Some((Infinite, Open(M)))))), StreamToken(Some(7), Some(Partition(Some((Closed(M), Infinite)))))]

  /** Tokens of two neighbouring partitions without a requested one are accepted. Delivery starts after
      the smaller id but reads only the second partition: no record of the first is ever delivered. */
  lemma NeighboursLoseOne(log: seq<Rec>, table: Bytes, next: nat)
    requires Ascending(log)
    ensures Decodable(NEIGHBOURS) && !Mismatch(None, NEIGHBOURS) && Earliest(NEIGHBOURS, 5)
    ensures forall r :: r in Select(log, Query(table, RangeOf(Chosen(None, NEIGHBOURS)), None), 5, next) ==> AtMost(M, r.key)
    ensures !AllInside(NEIGHBOURS, RangeOf(Chosen(None, NEIGHBOURS)))
  {
    SelectMeans(log, Query(table, RangeOf(Chosen(None, NEIGHBOURS)), None), 5, next);
    assert NEIGHBOURS[0].id == Some(5) && NEIGHBOURS[1].id == Some(7);
    assert !Inside(RangeOf(NEIGHBOURS[0].partition), RangeOf(NEIGHBOURS[1].partition));
  }

  /** A record is selected exactly when it is in the log, the table, the partition and the ids asked for. */
  lemma {:induction false} SelectMeans(log: seq<Rec>, q: Query, a: nat, b: nat)
    requires Ascending(log)
    ensures forall r :: r in Select(log, q, a, b) <==> r in log && r.table == q.table && a < r.id <= b && Contains(q.range, r.key)
    ensures Ascending(Select(log, q, a, b))
  {
    if log != [] {
      SelectMeans(log[1..], q, a, b);
      var rest := Select(log[1..], q, a, b);
      assert log == [log[0]] + log[1..];
      forall i | 0 <= i < |rest| ensures log[0].id < rest[i].id { assert rest[i] in log[1..]; }
    }
  }
}
