/** Rows as ReadRows cell chunks, and the client that puts the rows together again. */
module Chunks {
  import opened Basics
  import opened Lex
  import opened Names
  import opened Columns
  import opened Mutations
  import opened Replay
  import opened Rows
  import opened Filters
  import FM = FilterMeaning

  /** An empty row key, a missing family or a missing qualifier means "as before"; a nonzero size
      announces the size of a value that continues in the next chunk. */
  datatype Chunk = Chunk(key: Bytes, fam: Option<Name>, col: Option<Name>, ts: int, labels: seq<Bytes>,
                         value: Bytes, size: nat, commit: bool)

  /** A row as read: its key and its cells in order. */
  datatype FlatRow = FlatRow(key: Bytes, items: seq<Item>)

  // ---- writing ----

  datatype Head = Head(key: Bytes, fam: Option<Name>, col: Option<Name>)

  const NO_HEAD := Head([], None, None)

  /** What the first chunk of a cell repeats after a cell in column `prev`. */
  function HeadFor(key: Bytes, prev: Option<Column>, k: Column): Head {
    Head(if prev.None? then key else [],
         if prev.None? || prev.value.0 != k.0 then Some(k.0) else None,
         if prev.None? || prev.value != k then Some(k.1) else None)
  }

  /** The chunks of what is left, `v`, of a value of `total` bytes. */
  function Pieces(head: Head, ts: int, labels: seq<Bytes>, v: Bytes, total: nat, limit: nat): (r: seq<Chunk>)
    requires limit > 0
    ensures r != []
    decreases |v|
  {
    if |v| <= limit then [Chunk(head.key, head.fam, head.col, ts, labels, v, 0, false)]
    else [Chunk(head.key, head.fam, head.col, ts, labels, v[..limit], total, false)]
         + Pieces(NO_HEAD, 0, [], v[limit..], total, limit)
  }

  function CellChunks(key: Bytes, prev: Option<Column>, x: Item, limit: nat): (r: seq<Chunk>)
    requires limit > 0
    ensures r != []
  {
    Pieces(HeadFor(key, prev, x.k), x.cell.ts, x.cell.labels, x.cell.value, |x.cell.value|, limit)
  }

  function LastColumn(items: seq<Item>): Option<Column> { if items == [] then None else Some(items[|items| - 1].k) }

  function ItemChunks(key: Bytes, items: seq<Item>, limit: nat): (r: seq<Chunk>)
    requires limit > 0
    ensures items != [] ==> r != []
  {
    if items == [] then []
    else
      var init := items[..|items| - 1];
      ItemChunks(key, init, limit) + CellChunks(key, LastColumn(init), items[|items| - 1], limit)
  }

  /** The last chunk of a row commits it. */
  function Committed(cs: seq<Chunk>): seq<Chunk>
    requires cs != []
  {
    cs[..|cs| - 1] + [cs[|cs| - 1].(commit := true)]
  }

  function RowChunks(r: FlatRow, limit: nat): seq<Chunk>
    requires limit > 0 && r.items != []
  {
    Committed(ItemChunks(r.key, r.items, limit))
  }

  predicate Writable(rows: seq<FlatRow>) { forall i :: 0 <= i < |rows| ==> rows[i].key != [] && rows[i].items != [] }

  function AllChunks(rows: seq<FlatRow>, limit: nat): seq<Chunk>
    requires limit > 0 && Writable(rows)
  {
    if rows == [] then [] else AllChunks(rows[..|rows| - 1], limit) + RowChunks(rows[|rows| - 1], limit)
  }

  // ---- reading ----

  datatype Partial = Partial(ts: int, labels: seq<Bytes>, value: Bytes, size: nat)

  /** Rows read so far; the key, family and qualifier in force; the cells of the row being read; and
      the value being put together. */
  datatype Reader = Reader(rows: seq<FlatRow>, key: Bytes, fam: Option<Name>, col: Option<Name>,
                           cells: seq<Item>, partial: Option<Partial>)

  const START := Reader([], [], None, None, [], None)

  function Finish(r: Reader, p: Partial): Reader
    requires r.fam.Some? && r.col.Some?
  {
    r.(cells := r.cells + [Item((r.fam.value, r.col.value), Cell(p.ts, p.value, p.labels))], partial := None)
  }

  function Commit(r: Reader): Option<Reader> {
    if r.partial.Some? || r.key == [] || r.cells == [] then None
    else Some(Reader(r.rows + [FlatRow(r.key, r.cells)], [], None, None, [], None))
  }

  /** A chunk that starts a cell. */
  function Begin(r: Reader, c: Chunk): Option<Reader> {
    var key := if c.key != [] then c.key else r.key;
    var fam := if c.fam.Some? then c.fam else r.fam;
    var col := if c.col.Some? then c.col else r.col;
    if key == [] || (c.key != [] && r.key != []) || fam.None? || col.None? || (c.fam.Some? && c.col.None?) then None
    else
      var s, p := r.(key := key, fam := fam, col := col), Partial(c.ts, c.labels, c.value, c.size);
      Some(if c.size > 0 then s.(partial := Some(p)) else Finish(s, p))
  }

  /** A chunk that continues a value. */
  function Continue(r: Reader, c: Chunk): Option<Reader>
    requires r.partial.Some?
  {
    var p := r.partial.value.(value := r.partial.value.value + c.value);
    if c.key != [] || c.fam.Some? || c.col.Some? || r.fam.None? || r.col.None? then None
    else if c.size > 0 then (if c.size == p.size then Some(r.(partial := Some(p))) else None)
    else if |p.value| != p.size then None
    else Some(Finish(r, p))
  }

  /** None is a protocol error. */
  function Read(r: Reader, c: Chunk): Option<Reader> {
    var s := if r.partial.Some? then Continue(r, c) else Begin(r, c);
    if s.None? || !c.commit then s else Commit(s.value)
  }

  function ReadAll(r: Reader, cs: seq<Chunk>): (s: Option<Reader>) {
    if cs == [] then Some(r)
    else
      var s := ReadAll(r, cs[..|cs| - 1]);
      if s.None? then None else Read(s.value, cs[|cs| - 1])
  }

  lemma {:induction false} ReadConcat(r: Reader, a: seq<Chunk>, b: seq<Chunk>)
    ensures var s := ReadAll(r, a); ReadAll(r, a + b) == if s.None? then None else ReadAll(s.value, b)
    decreases |b|
  {
    if b == [] {
      assert a + b == a;
    } else {
      ReadConcat(r, a, b[..|b| - 1]);
      assert (a + b)[..|a + b| - 1] == a + b[..|b| - 1];
    }
  }

  lemma ReadThen(r: Reader, a: seq<Chunk>, s: Reader, b: seq<Chunk>, t: Reader)
    requires ReadAll(r, a) == Some(s) && ReadAll(s, b) == Some(t)
    ensures ReadAll(r, a + b) == Some(t)
  {
    ReadConcat(r, a, b);
  }

  lemma ReadOne(r: Reader, c: Chunk)
    ensures ReadAll(r, [c]) == Read(r, c)
  {
    assert [c][..0] == [];
    assert ReadAll(r, []) == Some(r);
  }

  // ---- reading back what was written ----

  /** The rest of a split value completes its cell. */
  lemma {:induction false} PiecesContinue(r: Reader, v: Bytes, limit: nat)
    requires limit > 0 && r.partial.Some? && r.fam.Some? && r.col.Some?
    requires |r.partial.value.value| + |v| == r.partial.value.size && r.partial.value.size > 0
    ensures var p := r.partial.value;
            ReadAll(r, Pieces(NO_HEAD, 0, [], v, p.size, limit)) == Some(Finish(r, p.(value := p.value + v)))
    decreases |v|
  {
    var p := r.partial.value;
    if |v| <= limit {
      ReadOne(r, Chunk([], None, None, 0, [], v, 0, false));
    } else {
      var c, rest := Chunk([], None, None, 0, [], v[..limit], p.size, false), v[limit..];
      var s := r.(partial := Some(p.(value := p.value + v[..limit])));
      ReadOne(r, c);
      PiecesContinue(s, rest, limit);
      ReadConcat(r, [c], Pieces(NO_HEAD, 0, [], rest, p.size, limit));
      assert p.value + v[..limit] + rest == p.value + v;
    }
  }

  /** A reader inside a row whose cells so far are `items`. */
  function Inside(rows: seq<FlatRow>, key: Bytes, items: seq<Item>): Reader {
    var k := LastColumn(items);
    if k.None? then Reader(rows, [], None, None, [], None)
    else Reader(rows, key, Some(k.value.0), Some(k.value.1), items, None)
  }

  lemma CellReads(rows: seq<FlatRow>, key: Bytes, items: seq<Item>, x: Item, limit: nat)
    requires limit > 0 && key != []
    ensures ReadAll(Inside(rows, key, items), CellChunks(key, LastColumn(items), x, limit)) == Some(Inside(rows, key, items + [x]))
  {
    var r, h, v := Inside(rows, key, items), HeadFor(key, LastColumn(items), x.k), x.cell.value;
    var s := Reader(rows, key, Some(x.k.0), Some(x.k.1), items, None);
    assert (x.k.0, x.k.1) == x.k;
    if |v| <= limit {
      ReadOne(r, Chunk(h.key, h.fam, h.col, x.cell.ts, x.cell.labels, v, 0, false));
    } else {
      var c := Chunk(h.key, h.fam, h.col, x.cell.ts, x.cell.labels, v[..limit], |v|, false);
      var t := s.(partial := Some(Partial(x.cell.ts, x.cell.labels, v[..limit], |v|)));
      ReadOne(r, c);
      assert Read(r, c) == Some(t);
      PiecesContinue(t, v[limit..], limit);
      ReadConcat(r, [c], Pieces(NO_HEAD, 0, [], v[limit..], |v|, limit));
      assert v[..limit] + v[limit..] == v;
    }
  }

  lemma ItemReadsAfter(rows: seq<FlatRow>, key: Bytes, init: seq<Item>, x: Item, limit: nat)
    requires limit > 0 && key != []
    requires ReadAll(Inside(rows, key, []), ItemChunks(key, init, limit)) == Some(Inside(rows, key, init))
    ensures ReadAll(Inside(rows, key, []), ItemChunks(key, init + [x], limit)) == Some(Inside(rows, key, init + [x]))
  {
    CellReads(rows, key, init, x, limit);
    ItemChunksSnoc(key, init, x, limit);
    ReadThen(Inside(rows, key, []), ItemChunks(key, init, limit), Inside(rows, key, init),
             CellChunks(key, LastColumn(init), x, limit), Inside(rows, key, init + [x]));
  }

  lemma {:induction false} ItemsRead(rows: seq<FlatRow>, key: Bytes, items: seq<Item>, limit: nat)
    requires limit > 0 && key != []
    ensures ReadAll(Inside(rows, key, []), ItemChunks(key, items, limit)) == Some(Inside(rows, key, items))
  {
    if items != [] {
      var init, x := items[..|items| - 1], items[|items| - 1];
      ItemsRead(rows, key, init, limit);
      ItemReadsAfter(rows, key, init, x, limit);
      assert init + [x] == items;
    }
  }

  lemma CommitReads(r: Reader, cs: seq<Chunk>)
    requires cs != [] && !cs[|cs| - 1].commit && ReadAll(r, cs).Some?
    ensures ReadAll(r, Committed(cs)) == Commit(ReadAll(r, cs).value)
  {
    var init := cs[..|cs| - 1];
    assert Committed(cs)[..|cs| - 1] == init;
  }

  lemma {:induction false} PiecesDoNotCommit(head: Head, ts: int, labels: seq<Bytes>, v: Bytes, total: nat, limit: nat)
    requires limit > 0
    ensures var r := Pieces(head, ts, labels, v, total, limit); !r[|r| - 1].commit
    ensures forall i :: 0 <= i < |Pieces(head, ts, labels, v, total, limit)| ==> |Pieces(head, ts, labels, v, total, limit)[i].value| <= limit
    decreases |v|
  {
    if |v| > limit { PiecesDoNotCommit(NO_HEAD, 0, [], v[limit..], total, limit); }
  }

  lemma RowReads(rows: seq<FlatRow>, r: FlatRow, limit: nat)
    requires limit > 0 && r.key != [] && r.items != []
    ensures ReadAll(START.(rows := rows), RowChunks(r, limit)) == Some(START.(rows := rows + [r]))
  {
    var init, x := r.items[..|r.items| - 1], r.items[|r.items| - 1];
    ItemsRead(rows, r.key, r.items, limit);
    PiecesDoNotCommit(HeadFor(r.key, LastColumn(init), x.k), x.cell.ts, x.cell.labels, x.cell.value, |x.cell.value|, limit);
    CommitReads(START.(rows := rows), ItemChunks(r.key, r.items, limit));
  }

  lemma AllChunksSnoc(init: seq<FlatRow>, r: FlatRow, limit: nat)
    requires limit > 0 && Writable(init) && Writable(init + [r]) && r.key != [] && r.items != []
    ensures AllChunks(init + [r], limit) == AllChunks(init, limit) + RowChunks(r, limit)
  {
    assert (init + [r])[..|init|] == init && (init + [r])[|init|] == r;
  }

  lemma RowReadsAfter(before: seq<FlatRow>, init: seq<FlatRow>, r: FlatRow, limit: nat)
    requires limit > 0 && Writable(init) && Writable(init + [r]) && r.key != [] && r.items != []
    requires ReadAll(START.(rows := before), AllChunks(init, limit)) == Some(START.(rows := before + init))
    ensures ReadAll(START.(rows := before), AllChunks(init + [r], limit)) == Some(START.(rows := before + (init + [r])))
  {
    AllChunksSnoc(init, r, limit);
    RowReads(before + init, r, limit);
    Associative(before, init, [r]);
    ReadThen(START.(rows := before), AllChunks(init, limit), START.(rows := before + init), RowChunks(r, limit), START.(rows := before + init + [r]));
  }

  /** The client reads back exactly the rows written: keys, families, qualifiers, timestamps, labels
      and values, in order. */
  lemma {:induction false} RowsRead(before: seq<FlatRow>, rows: seq<FlatRow>, limit: nat)
    requires limit > 0 && Writable(rows)
    ensures ReadAll(START.(rows := before), AllChunks(rows, limit)) == Some(START.(rows := before + rows))
  {
    if rows == [] {
      assert before + rows == before;
    } else {
      var init, r := rows[..|rows| - 1], rows[|rows| - 1];
      assert rows == init + [r];
      RowsRead(before, init, limit);
      RowReadsAfter(before, init, r, limit);
    }
  }

  // ---- no chunk is too large ----

  predicate Small(cs: seq<Chunk>, limit: nat) { forall i :: 0 <= i < |cs| ==> |cs[i].value| <= limit }

  lemma {:induction false} ItemChunksAreSmall(key: Bytes, items: seq<Item>, limit: nat)
    requires limit > 0
    ensures Small(ItemChunks(key, items, limit), limit)
  {
    if items != [] {
      var init, x := items[..|items| - 1], items[|items| - 1];
      ItemChunksAreSmall(key, init, limit);
      PiecesDoNotCommit(HeadFor(key, LastColumn(init), x.k), x.cell.ts, x.cell.labels, x.cell.value, |x.cell.value|, limit);
    }
  }

  lemma {:induction false} ChunksAreSmall(rows: seq<FlatRow>, limit: nat)
    requires limit > 0 && Writable(rows)
    ensures Small(AllChunks(rows, limit), limit)
  {
    if rows != [] {
      ChunksAreSmall(rows[..|rows| - 1], limit);
      ItemChunksAreSmall(rows[|rows| - 1].key, rows[|rows| - 1].items, limit);
    }
  }

  /** The value bytes in chunks. */
  function Size(cs: seq<Chunk>): (n: nat) {
    if cs == [] then 0 else Size(cs[..|cs| - 1]) + |cs[|cs| - 1].value|
  }

  lemma {:induction false} SizeConcat(a: seq<Chunk>, b: seq<Chunk>)
    ensures Size(a + b) == Size(a) + Size(b)
  {
    if b == [] {
      assert a + b == a;
    } else {
      SizeConcat(a, b[..|b| - 1]);
      assert (a + b)[..|a + b| - 1] == a + b[..|b| - 1];
    }
  }

  lemma SizeSnoc(a: seq<Chunk>, c: Chunk)
    ensures Size(a + [c]) == Size(a) + |c.value|
  {
    assert (a + [c])[..|a|] == a;
  }

  // ---- the writer ----

  ghost predicate Encodes(cs: seq<Chunk>, rows: seq<FlatRow>, limit: nat)
    requires limit > 0
  {
    Writable(rows) && cs == AllChunks(rows, limit)
  }

  ghost predicate Sent(sent: seq<seq<Chunk>>, blocks: seq<seq<FlatRow>>, limit: nat)
    requires limit > 0
  {
    |sent| == |blocks| && forall i :: 0 <= i < |sent| ==> blocks[i] != [] && Encodes(sent[i], blocks[i], limit)
  }

  lemma NothingToSend(cs: seq<Chunk>, rows: seq<FlatRow>, limit: nat)
    requires limit > 0 && Encodes(cs, rows, limit)
    ensures cs == [] <==> rows == []
  {
  }

  lemma SentOneMore(sent: seq<seq<Chunk>>, blocks: seq<seq<FlatRow>>, cs: seq<Chunk>, rows: seq<FlatRow>, limit: nat)
    requires limit > 0 && Sent(sent, blocks, limit) && Encodes(cs, rows, limit) && rows != []
    ensures Sent(sent + [cs], blocks + [rows], limit)
  {
  }

  /** Chunks wait in `chunks` until a row boundary after `responseBytes` of cell data. */
  class RowWriter {
    const limit: nat
    const responseBytes: nat
    var sent: seq<seq<Chunk>>
    var chunks: seq<Chunk>
    var bytes: nat
    ghost var blocks: seq<seq<FlatRow>>  // the rows of each response sent
    ghost var pending: seq<FlatRow>      // the rows waiting

    ghost predicate Valid()
      reads this
    {
      limit > 0 && Encodes(chunks, pending, limit) && Sent(sent, blocks, limit) && bytes == Size(chunks)
    }

    constructor (limit: nat, responseBytes: nat)
      requires limit > 0
      ensures Valid() && this.limit == limit && this.responseBytes == responseBytes
      ensures sent == [] && blocks == [] && pending == []
    {
      this.limit, this.responseBytes := limit, responseBytes;
      sent, chunks, bytes, blocks, pending := [], [], 0, [], [];
    }

    /** All rows handed over so far. */
    ghost function Rows(): seq<FlatRow>
      reads this
    {
      Written(blocks) + pending
    }

    method Flush()
      requires Valid()
      modifies this
      ensures Valid() && pending == [] && Rows() == old(Rows())
    {
      NothingToSend(chunks, pending, limit);
      if chunks == [] {
        return;
      }
      WrittenSnoc(blocks, pending);
      SentOneMore(sent, blocks, chunks, pending, limit);
      sent := sent + [chunks];
      blocks := blocks + [pending];
      chunks, bytes, pending := [], 0, [];
    }

    method WriteRow(key: Bytes, fs: Families, s: Schema, ghost c: Content)
      requires Valid() && key != [] && NoEmptyColumn(c) && c != map[] && fs == Rep(c, s)
      modifies this
      ensures Valid() && Rows() == old(Rows()) + [FlatRow(key, FM.Canonical(c, s))]
      ensures bytes < responseBytes || pending == []
    {
      var out, n := EncodeRow(key, fs, s, limit, c);
      Append(out, n, FlatRow(key, FM.Canonical(c, s)));
      if bytes >= responseBytes {
        Flush();
      }
    }

    method Append(out: seq<Chunk>, n: nat, ghost r: FlatRow)
      requires Valid() && r.key != [] && r.items != [] && out == RowChunks(r, limit) && n == Size(out)
      modifies this
      ensures Valid() && Rows() == old(Rows()) + [r]
    {
      OneMoreRow(pending, r, limit);
      RowsAfter(Written(blocks), pending, r);
      SizeConcat(chunks, out);
      chunks, bytes := chunks + out, bytes + n;
      pending := pending + [r];
    }
  }

  lemma RowsAfter(a: seq<FlatRow>, b: seq<FlatRow>, r: FlatRow)
    ensures a + (b + [r]) == a + b + [r]
  {
  }

  lemma WrittenSnoc(blocks: seq<seq<FlatRow>>, b: seq<FlatRow>)
    ensures Written(blocks + [b]) + [] == Written(blocks) + b
  {
    assert (blocks + [b])[..|blocks|] == blocks;
  }

  lemma OneMoreRow(rows: seq<FlatRow>, r: FlatRow, limit: nat)
    requires limit > 0 && Writable(rows) && r.key != [] && r.items != []
    ensures Encodes(AllChunks(rows, limit) + RowChunks(r, limit), rows + [r], limit)
  {
    assert (rows + [r])[..|rows|] == rows;
  }

  // ---- encoding one row ----

  /** Splits a value into pieces; only the first piece carries the head, the time and the labels. */
  method EncodeCell(head: Head, c: Cell, limit: nat) returns (out: seq<Chunk>, n: nat)
    requires limit > 0
    ensures n == Size(out)
    ensures out == Pieces(head, c.ts, c.labels, c.value, |c.value|, limit)
  {
    var value, h, ts, labels := c.value, head, c.ts, c.labels;
    out, n := [], 0;
    ghost var goal := Pieces(head, c.ts, c.labels, c.value, |c.value|, limit);
    assert out + goal == goal;
    while |value| > limit
      invariant out + Pieces(h, ts, labels, value, |c.value|, limit) == goal && n == Size(out)
    {
      var chunk := Chunk(h.key, h.fam, h.col, ts, labels, value[..limit], |c.value|, false);
      OneMore(out, chunk, Pieces(NO_HEAD, 0, [], value[limit..], |c.value|, limit));
      SizeSnoc(out, chunk);
      out, n := out + [chunk], n + limit;
      value, h, ts, labels := value[limit..], NO_HEAD, 0, [];
    }
    var last := Chunk(h.key, h.fam, h.col, ts, labels, value, 0, false);
    SizeSnoc(out, last);
    out, n := out + [last], n + |value|;
  }

  lemma OneMore(a: seq<Chunk>, c: Chunk, b: seq<Chunk>)
    ensures a + ([c] + b) == (a + [c]) + b
  {
  }

  lemma ItemChunksSnoc(key: Bytes, done: seq<Item>, x: Item, limit: nat)
    requires limit > 0
    ensures ItemChunks(key, done + [x], limit) == ItemChunks(key, done, limit) + CellChunks(key, LastColumn(done), x, limit)
  {
    assert (done + [x])[..|done|] == done;
  }

  /** The flags of the writer are the head that the last column calls for. */
  function FlagHead(key: Bytes, k: Column, first: bool, newFamily: bool, newQualifier: bool): Head {
    Head(if first then key else [], if newFamily then Some(k.0) else None, if newFamily || newQualifier then Some(k.1) else None)
  }

  predicate Flags(done: seq<Item>, k: Column, first: bool, newFamily: bool, newQualifier: bool) {
    && first == (done == []) && newFamily == (done == [] || done[|done| - 1].k.0 != k.0)
    && (newFamily || newQualifier) == (LastColumn(done) != Some(k))
  }

  lemma FlagsAreHead(key: Bytes, done: seq<Item>, k: Column, first: bool, newFamily: bool, newQualifier: bool)
    requires Flags(done, k, first, newFamily, newQualifier)
    ensures FlagHead(key, k, first, newFamily, newQualifier) == HeadFor(key, LastColumn(done), k)
  {
  }

  lemma ItemsSnoc(done: seq<Item>, k: Column, cs: seq<Cell>, m: nat)
    requires m < |cs|
    ensures done + Items(k, cs[..m]) + [Item(k, cs[m])] == done + Items(k, cs[..m + 1])
  {
  }

  method EncodeItem(key: Bytes, x: Item, first: bool, newFamily: bool, newQualifier: bool, before: seq<Chunk>, size: nat,
                    limit: nat, ghost d: seq<Item>) returns (out: seq<Chunk>, n: nat)
    requires limit > 0 && before == ItemChunks(key, d, limit) && size == Size(before)
    requires Flags(d, x.k, first, newFamily, newQualifier)
    ensures out == ItemChunks(key, d + [x], limit) && n == Size(out) && Flags(d + [x], x.k, false, false, false)
  {
    FlagsAreHead(key, d, x.k, first, newFamily, newQualifier);
    ItemChunksSnoc(key, d, x, limit);
    var more, bytes := EncodeCell(FlagHead(key, x.k, first, newFamily, newQualifier), x.cell, limit);
    SizeConcat(before, more);
    out, n := before + more, size + bytes;
  }

  method EncodeColumn(key: Bytes, k: Column, cs: seq<Cell>, first0: bool, newFamily0: bool, before: seq<Chunk>, size: nat,
                      limit: nat, ghost done: seq<Item>) returns (out: seq<Chunk>, n: nat)
    requires size == Size(before)
    requires limit > 0 && cs != [] && before == ItemChunks(key, done, limit) && Flags(done, k, first0, newFamily0, true)
    ensures out == ItemChunks(key, done + Items(k, cs), limit) && n == Size(out)
  {
    var first, newFamily, newQualifier := first0, newFamily0, true;
    out, n := before, size;
    ghost var d := done;
    assert done + Items(k, cs[..0]) == done;
    for m := 0 to |cs|
      invariant d == done + Items(k, cs[..m]) && out == ItemChunks(key, d, limit) && n == Size(out)
      invariant Flags(d, k, first, newFamily, newQualifier)
    {
      var x := Item(k, cs[m]);
      out, n := EncodeItem(key, x, first, newFamily, newQualifier, out, n, limit, d);
      first, newFamily, newQualifier := false, false, false;
      ItemsSnoc(done, k, cs, m);
      d := d + [x];
    }
    assert cs[..|cs|] == cs;
  }

  method EncodeFamily(key: Bytes, fam: Name, f: Family, first0: bool, before: seq<Chunk>, size: nat,
                      limit: nat, ghost done: seq<Item>, ghost c: Content) returns (out: seq<Chunk>, n: nat)
    requires size == Size(before)
    requires limit > 0 && NoEmptyColumn(c) && before == ItemChunks(key, done, limit)
    requires f.colNames == Arrange(ColumnsIn(c, fam), ByName) && f.cells == CellsIn(c, fam)
    requires first0 == (done == []) && (done == [] || done[|done| - 1].k.0 != fam)
    ensures out == ItemChunks(key, done + Flat(c, Pairs(fam, f.colNames)), limit) && n == Size(out)
  {
    var cols, first, newFamily := f.colNames, first0, true;
    out, n := before, size;
    ghost var d := done;
    assert done + Flat(c, Pairs(fam, cols[..0])) == done;
    for j := 0 to |cols|
      invariant d == done + Flat(c, Pairs(fam, cols[..j])) && out == ItemChunks(key, d, limit) && n == Size(out)
      invariant first == (d == []) && newFamily == (j == 0) && (j == 0 ==> d == done)
      invariant j > 0 ==> LastColumn(d) == Some((fam, cols[j - 1]))
    {
      ghost var k := (fam, cols[j]);
      NextColumn(c, fam, cols, j);
      out, n := EncodeColumn(key, (fam, cols[j]), f.cells[cols[j]], first, newFamily, out, n, limit, d);
      first, newFamily := false, false;
      ItemsAfter(done, Flat(c, Pairs(fam, cols[..j])), Items(k, Get(c, k)));
      d := d + Items(k, Get(c, k));
    }
    assert cols[..|cols|] == cols;
  }

  lemma LastAfter(a: seq<Item>, b: seq<Item>)
    requires b != []
    ensures a + b != [] && LastColumn(a + b) == LastColumn(b)
  {
  }

  lemma ItemsAfter(a: seq<Item>, b: seq<Item>, c: seq<Item>)
    ensures a + (b + c) == a + b + c
  {
  }

  /** The chunks of a row, the last of which commits it, and the number of value bytes in them. */
  method EncodeRow(key: Bytes, fs: Families, s: Schema, limit: nat, ghost c: Content) returns (out: seq<Chunk>, n: nat)
    requires limit > 0 && NoEmptyColumn(c) && c != map[] && fs == Rep(c, s)
    ensures FM.Canonical(c, s) != [] && out == RowChunks(FlatRow(key, FM.Canonical(c, s)), limit) && n == Size(out)
  {
    out, n := EncodeFamilies(key, fs, s, limit, c);
    CanonicalIsSome(c, s);
    var last := out[|out| - 1];
    SizeSnoc(out[..|out| - 1], last.(commit := true));
    out := out[..|out| - 1] + [last.(commit := true)];
  }

  method EncodeFamilies(key: Bytes, fs: Families, s: Schema, limit: nat, ghost c: Content) returns (out: seq<Chunk>, n: nat)
    requires limit > 0 && NoEmptyColumn(c) && fs == Rep(c, s)
    ensures out == ItemChunks(key, FM.Canonical(c, s), limit) && n == Size(out)
  {
    var names := SortNames(fs.Keys, OrderOf(s));
    assert fs.Keys == FamiliesIn(c);
    out, n := EncodeNames(key, fs, names, s, limit, c);
  }

  /** The families in the order of their names. */
  method EncodeNames(key: Bytes, fs: Families, names: seq<Name>, s: Schema, limit: nat, ghost c: Content) returns (out: seq<Chunk>, n: nat)
    requires limit > 0 && NoEmptyColumn(c) && fs == Rep(c, s) && names == Arrange(FamiliesIn(c), OrderOf(s))
    ensures out == ItemChunks(key, Flat(c, ColumnsOf(c, names)), limit) && n == Size(out)
  {
    out, n := [], 0;
    ghost var d: seq<Item> := [];
    for i := 0 to |names|
      invariant AtFamily(c, names, i, d) && out == ItemChunks(key, d, limit) && n == Size(out)
    {
      out, n, d := EncodeNext(key, fs, names, s, i, out, n, limit, d, c);
    }
    assert names[..|names|] == names;
  }

  method EncodeNext(key: Bytes, fs: Families, names: seq<Name>, s: Schema, i: nat, before: seq<Chunk>, size: nat, limit: nat,
                    ghost d: seq<Item>, ghost c: Content) returns (out: seq<Chunk>, n: nat, ghost d': seq<Item>)
    requires limit > 0 && NoEmptyColumn(c) && fs == Rep(c, s) && names == Arrange(FamiliesIn(c), OrderOf(s)) && i < |names|
    requires AtFamily(c, names, i, d) && before == ItemChunks(key, d, limit) && size == Size(before)
    ensures AtFamily(c, names, i + 1, d') && out == ItemChunks(key, d', limit) && n == Size(out)
  {
    AfterFamily(c, names, s, i, d);
    var f := fs[names[i]];
    out, n := EncodeFamily(key, names[i], f, i == 0, before, size, limit, d, c);
    d' := d + Flat(c, Pairs(names[i], f.colNames));
  }

  /** `d` holds the cells of the first `i` families. */
  ghost predicate AtFamily(c: Content, names: seq<Name>, i: nat, d: seq<Item>)
    requires i <= |names|
  {
    && d == Flat(c, ColumnsOf(c, names[..i])) && (i == 0) == (d == [])
    && (i > 0 ==> LastColumn(d).Some? && LastColumn(d).value.0 == names[i - 1])
  }

  lemma AfterFamily(c: Content, names: seq<Name>, s: Schema, i: nat, d: seq<Item>)
    requires names == Arrange(FamiliesIn(c), OrderOf(s)) && i < |names| && NoEmptyColumn(c) && AtFamily(c, names, i, d)
    ensures names[i] in Rep(c, s) && (d == [] || d[|d| - 1].k.0 != names[i])
    ensures var f := Rep(c, s)[names[i]];
            && f.colNames == Arrange(ColumnsIn(c, names[i]), ByName) && f.cells == CellsIn(c, names[i])
            && AtFamily(c, names, i + 1, d + Flat(c, Pairs(names[i], f.colNames)))
  {
    FamilyAt(c, names, s, i);
    RepFamily(c, s, names[i]);
    FamilyHasCells(c, names[i]);
    ColumnsOfNext(c, names, i);
    LastAfter(d, Flat(c, Pairs(names[i], Arrange(ColumnsIn(c, names[i]), ByName))));
  }

  ghost function Written(blocks: seq<seq<FlatRow>>): seq<FlatRow> {
    if blocks == [] then [] else Written(blocks[..|blocks| - 1]) + blocks[|blocks| - 1]
  }

  lemma {:induction false} FlatAppend(c: Content, a: seq<Column>, b: seq<Column>)
    ensures Flat(c, a + b) == Flat(c, a) + Flat(c, b)
  {
    if a == [] {
      assert a + b == b;
    } else {
      FlatAppend(c, a[1..], b);
      assert (a + b)[1..] == a[1..] + b;
    }
  }

  lemma FlatOne(c: Content, k: Column)
    ensures Flat(c, [k]) == Items(k, Get(c, k))
  {
    assert [k][1..] == [];
  }

  lemma NextColumn(c: Content, fam: Name, cols: seq<Name>, j: nat)
    requires cols == Arrange(ColumnsIn(c, fam), ByName) && j < |cols|
    ensures cols[j] in CellsIn(c, fam) && (fam, cols[j]) in c && (j > 0 ==> cols[j - 1] != cols[j])
    ensures Flat(c, Pairs(fam, cols[..j + 1])) ==
              Flat(c, Pairs(fam, cols[..j])) + Items((fam, cols[j]), Get(c, (fam, cols[j])))
  {
    ArrangedDistinct(cols, ByName, j);
    assert j > 0 ==> cols[j - 1] in cols[..j];
    assert cols[j] in Elements(cols);
    InColumns(c, fam, cols[j]);
    FlatAppend(c, Pairs(fam, cols[..j]), [(fam, cols[j])]);
    FlatOne(c, (fam, cols[j]));
    assert Pairs(fam, cols[..j + 1]) == Pairs(fam, cols[..j]) + [(fam, cols[j])];
  }

  lemma LastOfFamily(c: Content, fam: Name, cols: seq<Name>)
    requires cols == Arrange(ColumnsIn(c, fam), ByName) && cols != [] && NoEmptyColumn(c)
    ensures LastColumn(Flat(c, Pairs(fam, cols))).Some? && LastColumn(Flat(c, Pairs(fam, cols))).value.0 == fam
  {
    NextColumn(c, fam, cols, |cols| - 1);
    assert cols[..|cols|] == cols;
  }

  lemma FamilyAt(c: Content, names: seq<Name>, s: Schema, i: nat)
    requires names == Arrange(FamiliesIn(c), OrderOf(s)) && i < |names|
    ensures names[i] in FamiliesIn(c) && (i > 0 ==> names[i - 1] != names[i])
  {
    ArrangedDistinct(names, OrderOf(s), i);
    assert i > 0 ==> names[i - 1] in names[..i];
    assert names[i] in Elements(names);
  }

  lemma RepFamily(c: Content, s: Schema, fam: Name)
    requires fam in FamiliesIn(c)
    ensures fam in Rep(c, s) && Rep(c, s)[fam] == FamilyOf(c, fam, s)
  {
  }

  /** A family of the row has cells, the last of which is in it. */
  lemma FamilyHasCells(c: Content, fam: Name)
    requires fam in FamiliesIn(c) && NoEmptyColumn(c)
    ensures var more := Flat(c, Pairs(fam, Arrange(ColumnsIn(c, fam), ByName)));
            more != [] && LastColumn(more).Some? && LastColumn(more).value.0 == fam
  {
    var cols := Arrange(ColumnsIn(c, fam), ByName);
    InFamilies(c, fam);
    assert Elements([]) == {};
    LastOfFamily(c, fam, cols);
  }

  lemma ColumnsOfNext(c: Content, names: seq<Name>, i: nat)
    requires i < |names|
    ensures var cols := Arrange(ColumnsIn(c, names[i]), ByName);
            Flat(c, ColumnsOf(c, names[..i + 1])) == Flat(c, ColumnsOf(c, names[..i])) + Flat(c, Pairs(names[i], cols))
  {
    assert names[..i + 1][..i] == names[..i];
    FlatAppend(c, ColumnsOf(c, names[..i]), Pairs(names[i], Arrange(ColumnsIn(c, names[i]), ByName)));
  }

  lemma CanonicalIsSome(c: Content, s: Schema)
    requires NoEmptyColumn(c) && c != map[]
    ensures FM.Canonical(c, s) != []
  {
    var k :| k in c;
    ColumnOrderIsAll(c, s);
    FM.FlatHas(c, ColumnOrder(c, s), k);
  }

  /** A response on its own reads as whole rows, and no value in it is longer than the limit. */
  lemma ResponseReads(rows: seq<FlatRow>, limit: nat)
    requires limit > 0 && Writable(rows)
    ensures ReadAll(START, AllChunks(rows, limit)) == Some(START.(rows := rows)) && Small(AllChunks(rows, limit), limit)
  {
    RowsRead([], rows, limit);
    assert [] + rows == rows;
    ChunksAreSmall(rows, limit);
  }

  function Joined(sent: seq<seq<Chunk>>): seq<Chunk> {
    if sent == [] then [] else Joined(sent[..|sent| - 1]) + sent[|sent| - 1]
  }

  /** All responses together read as all the rows written. */
  lemma {:induction false} ResponsesRead(sent: seq<seq<Chunk>>, blocks: seq<seq<FlatRow>>, limit: nat)
    requires limit > 0 && Sent(sent, blocks, limit)
    ensures ReadAll(START, Joined(sent)) == Some(START.(rows := Written(blocks)))
  {
    if sent != [] {
      var n := |sent| - 1;
      ResponsesRead(sent[..n], blocks[..n], limit);
      assert Encodes(sent[n], blocks[n], limit);
      RowsRead(Written(blocks[..n]), blocks[n], limit);
      ReadThen(START, Joined(sent[..n]), START.(rows := Written(blocks[..n])), sent[n], START.(rows := Written(blocks)));
    }
  }
}
