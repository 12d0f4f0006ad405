/** Tailing one source of an archive as frames (src/replicate/publisher.rs). */
module Publication {
  import opened Types
  import opened Rows
  import opened Encoding
  import opened Catalog
  import opened Frames
  import opened Delivery
  import opened Retention
  import opened IndexCursor
  import opened WalCursor

  /** What one snapshot of the archive answers for the source. */
  datatype Db = Db(names: seq<Text>, callers: map<Text, seq<CallerRow>>, streams: seq<Text>, tables: map<Text, Tables>)

  function CallersOf(db: Db, name: Text): seq<CallerRow> {
    if name in db.callers then db.callers[name] else []
  }

  function TablesOf(db: Db, stream: Text): Tables {
    if stream in db.tables then db.tables[stream] else EMPTY.t
  }

  /** `SourceCursor`: per stream how far its rows have been published, and per name its entries. */
  datatype Cursor = Cursor(
    source: nat, after: map<Text, int>, index: map<Text, (int, nat)>, number: nat, state: IndexState, sentFull: bool)

  function AfterOf(c: Cursor, stream: Text): Option<int> {
    if stream in c.after then Some(c.after[stream]) else None
  }

  function IndexOf(c: Cursor, name: Text): Position {
    if name in c.index then Some(c.index[name]) else None
  }

  function SetAfter(c: Cursor, stream: Text, after: Option<int>): Cursor {
    if after.Some? then c.(after := c.after[stream := after.value]) else c
  }

  function SetIndex(c: Cursor, name: Text, e: Emit): Cursor {
    var p := PositionOf(e);
    c.(index := if p.Some? then c.index[name := p.value] else c.index, state := e.state, sentFull := e.sentFull)
  }

  /** A cursor with the frames it has put out. */
  datatype Out = Out(cursor: Cursor, frames: seq<RowFrame>)

  // ------------------------------------------------------------------ the steps of a poll

  function IndexOne(o: Out, db: Db, name: Text, from: int): Out {
    var e := EmitIndex(IndexOf(o.cursor, name), o.cursor.state, o.cursor.sentFull, o.cursor.source, name, CallersOf(db, name), from);
    Out(SetIndex(o.cursor, name, e), o.frames + e.frames)
  }

  /** Index entries first, so that no row can refer to what has not been sent. */
  function IndexTo(o: Out, db: Db, from: int, n: nat): Out
    requires n <= |db.names|
  {
    if n == 0 then o else IndexOne(IndexTo(o, db, from, n - 1), db, db.names[n - 1], from)
  }

  function SegFrames(source: nat, stream: Text, segs: seq<Segment>): seq<RowFrame> {
    if segs == [] then [] else
    [SegmentOf(source, stream, SegmentMeta(segs[0].rows, segs[0].first, segs[0].last), segs[0].data, None)]
    + SegFrames(source, stream, segs[1..])
  }

  /** The streams of a poll: segments out as they are met, rows gathered for the one frame. */
  datatype Gathered = Gathered(out: Out, rows: seq<WalRow>)

  function StreamOne(g: Gathered, db: Db, stream: Text): Result<Gathered> {
    match PollStream(AfterOf(g.out.cursor, stream), TablesOf(db, stream))
    case Err => Err
    case Ok(p) =>
      Ok(Gathered(Out(SetAfter(g.out.cursor, stream, p.after), g.out.frames + SegFrames(g.out.cursor.source, stream, p.segs)),
                  g.rows + p.rows))
  }

  function StreamsTo(g: Gathered, db: Db, n: nat): Result<Gathered>
    requires n <= |db.streams|
  {
    if n == 0 then Ok(g) else
    match StreamsTo(g, db, n - 1)
    case Err => Err
    case Ok(p) => StreamOne(p, db, db.streams[n - 1])
  }

  /** Before in `(ts, stream)` order. */
  predicate RowLess(a: WalRow, b: WalRow) {
    a.ts < b.ts || (a.ts == b.ts && Less(a.stream, b.stream))
  }

  function Place(s: seq<WalRow>, r: WalRow): seq<WalRow> {
    if s == [] || !RowLess(r, s[|s| - 1]) then s + [r] else Place(s[..|s| - 1], r) + [s[|s| - 1]]
  }

  /** `rows.sort_by_key(|r| (r.ts, r.stream))`, which is stable. */
  function SortTo(rows: seq<WalRow>, n: nat): seq<WalRow>
    requires n <= |rows|
  {
    if n == 0 then [] else Place(SortTo(rows, n - 1), rows[n - 1])
  }

  /**
   * One poll, after everything sent before it: index entries, then segments and rows, and
   * exactly one `Rows` frame even when empty.
   */
  function Poll(before: Out, db: Db): Result<Out> {
    var indexed := IndexTo(before, db, I64_MIN, |db.names|);
    match StreamsTo(Gathered(indexed, []), db, |db.streams|)
    case Err => Err
    case Ok(Gathered(o, rows)) =>
      Ok(Out(o.cursor.(number := o.cursor.number + 1),
             o.frames + [Rows(o.cursor.source, o.cursor.number, o.cursor.state, SortTo(rows, |rows|))]))
  }

  function OpenOne(o: Out, db: Db, since: Option<int>, stream: Text): Out {
    var p := OpenStream(since, TablesOf(db, stream));
    Out(SetAfter(o.cursor, stream, p.after), o.frames + SegFrames(o.cursor.source, stream, p.segs))
  }

  function OpenTo(o: Out, db: Db, since: Option<int>, n: nat): Out
    requires n <= |db.streams|
  {
    if n == 0 then o else OpenOne(OpenTo(o, db, since, n - 1), db, since, db.streams[n - 1])
  }

  /** `open_source`: the handshake, the entries and, for a catch-up, the segments from `since`. */
  function Open(db: Db, source: nat, handshake: RowFrame, since: Option<int>): Out {
    var c := Cursor(source, map[], map[], 0, NO_INDEX_STATE, false);
    var from := if since.Some? then since.value else I64_MIN;
    var indexed := IndexTo(Out(c, [handshake]), db, from, |db.names|);
    OpenTo(indexed, db, since, |db.streams|)
  }

  // ------------------------------------------------------------------ the sort keeps each stream's order

  /** Rows of one stream are gathered oldest first. */
  ghost predicate InStreamOrder(rows: seq<WalRow>) {
    forall i: nat, j: nat :: i < j < |rows| ==> PairInOrder(rows, i, j)
  }

  ghost predicate PairInOrder(rows: seq<WalRow>, i: nat, j: nat)
    requires i < |rows| && j < |rows|
  {
    rows[i].stream == rows[j].stream ==> rows[i].ts <= rows[j].ts
  }

  ghost predicate NoneLater(s: seq<WalRow>, r: WalRow) {
    forall i: nat :: i < |s| ==> NotLater(s, r, i)
  }

  ghost predicate NotLater(s: seq<WalRow>, r: WalRow, i: nat)
    requires i < |s|
  {
    s[i].stream == r.stream ==> s[i].ts <= r.ts
  }

  lemma {:induction false} PlaceItems(s: seq<WalRow>, r: WalRow, stream: Text)
    requires NoneLater(s, r)
    ensures RowItems(Place(s, r), stream) == RowItems(s, stream) + RowItems([r], stream)
    decreases |s|
  {
    if s == [] || !RowLess(r, s[|s| - 1]) {
      RowItemsConcat(s, [r], stream);
    } else {
      var p, last := s[..|s| - 1], s[|s| - 1];
      assert NotLater(s, r, |s| - 1);
      LessIrreflexive(r.stream);
      forall i: nat | i < |p| ensures NotLater(p, r, i) {
        assert NotLater(s, r, i);
      }
      PlaceItems(p, r, stream);
      RowItemsConcat(Place(p, r), [last], stream);
      assert s == p + [last];
      RowItemsConcat(p, [last], stream);
      Commute(RowItems(p, stream), r, last, stream);
    }
  }

  lemma Commute(x: seq<Item>, r: WalRow, last: WalRow, stream: Text)
    requires r.stream != last.stream
    ensures x + RowItems([r], stream) + RowItems([last], stream) == x + RowItems([last], stream) + RowItems([r], stream)
  {
    assert [r][1..] == [] && [last][1..] == [];
    assert r.stream != stream ==> RowItems([r], stream) == [];
    assert last.stream != stream ==> RowItems([last], stream) == [];
  }

  lemma {:induction false} PlaceMembers(s: seq<WalRow>, r: WalRow)
    ensures multiset(Place(s, r)) == multiset(s) + multiset{r}
    decreases |s|
  {
    if s == [] || !RowLess(r, s[|s| - 1]) {
    } else {
      PlaceMembers(s[..|s| - 1], r);
      assert s == s[..|s| - 1] + [s[|s| - 1]];
    }
  }

  lemma TakeMore(rows: seq<WalRow>, n: nat)
    requires n < |rows|
    ensures rows[..n + 1] == rows[..n] + [rows[n]]
    ensures multiset(rows[..n + 1]) == multiset(rows[..n]) + multiset{rows[n]}
  {
    assert rows[..n + 1] == rows[..n] + [rows[n]];
  }

  lemma {:induction false} SortMembers(rows: seq<WalRow>, n: nat)
    requires n <= |rows|
    ensures multiset(SortTo(rows, n)) == multiset(rows[..n])
  {
    if n > 0 {
      SortMembers(rows, n - 1);
      PlaceMembers(SortTo(rows, n - 1), rows[n - 1]);
      TakeMore(rows, n - 1);
    } else {
      assert rows[..0] == [];
    }
  }

  lemma NoneLaterIn(rows: seq<WalRow>, n: nat, s: seq<WalRow>)
    requires n < |rows| && InStreamOrder(rows) && multiset(s) == multiset(rows[..n])
    ensures NoneLater(s, rows[n])
  {
    forall i: nat | i < |s| ensures NotLater(s, rows[n], i) {
      assert s[i] in multiset(s);
      assert s[i] in rows[..n];
      var j: nat :| j < n && rows[j] == s[i];
      assert PairInOrder(rows, j, n);
    }
  }

  /** The same rows of every stream, in the same order. */
  ghost predicate SameStreams(a: seq<WalRow>, b: seq<WalRow>) {
    forall stream: Text :: SameStream(a, b, stream)
  }

  ghost predicate SameStream(a: seq<WalRow>, b: seq<WalRow>, stream: Text) {
    RowItems(a, stream) == RowItems(b, stream)
  }

  lemma SortStep(rows: seq<WalRow>, n: nat, s: seq<WalRow>, taken: seq<WalRow>, s': seq<WalRow>, taken': seq<WalRow>)
    requires n < |rows| && InStreamOrder(rows) && taken == rows[..n] && taken' == rows[..n + 1] && s' == Place(s, rows[n])
    requires multiset(s) == multiset(taken) && SameStreams(s, taken)
    ensures SameStreams(s', taken')
  {
    NoneLaterIn(rows, n, s);
    TakeMore(rows, n);
    forall stream: Text ensures SameStream(s', taken', stream) {
      assert SameStream(s, taken, stream);
      PlaceItems(s, rows[n], stream);
      RowItemsConcat(taken, [rows[n]], stream);
    }
  }

  /** The frame's order across streams leaves every stream's rows in their own order. */
  lemma {:induction false} SortKeepsStreams(rows: seq<WalRow>, n: nat, s: seq<WalRow>, taken: seq<WalRow>)
    requires n <= |rows| && InStreamOrder(rows) && s == SortTo(rows, n) && taken == rows[..n]
    ensures SameStreams(s, taken)
  {
    if n > 0 {
      var was, had := SortTo(rows, n - 1), rows[..n - 1];
      SortKeepsStreams(rows, n - 1, was, had);
      SortMembers(rows, n - 1);
      SortStep(rows, n - 1, was, had, s, taken);
    } else {
      assert taken == [] && s == [];
      forall stream: Text ensures SameStream(s, taken, stream) {}
    }
  }
}
