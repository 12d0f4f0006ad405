/** The publisher's cursor in place (`SourceCursor` in src/replicate/publisher.rs). */
module PublisherLoop {
  import opened Types
  import opened Rows
  import opened Encoding
  import opened Catalog
  import opened Copying
  import opened Frames
  import opened Delivery
  import opened Retention
  import opened IndexCursor
  import opened WalCursor
  import opened Publication

  lemma Past1More(live: seq<WalRow>, i: nat, after: Option<int>)
    requires i < |live|
    ensures Past1(live[..i + 1], after)
            == Past1(live[..i], after) + if after.Some? && live[i].ts <= after.value then [] else [live[i]]
  {
    assert live[..i + 1] == live[..i] + [live[i]];
    if after.Some? {
      FromConcat(live[..i], [live[i]], after.value + 1);
      assert [live[i]][1..] == [];
    }
  }

  /** One stream of a poll: the seal check, the segments of a stream with no cursor, the rows past it. */
  method PollOne(after: Option<int>, t: Tables) returns (r: Result<Polled>)
    requires Valid(t)
    ensures r == PollStream(after, t)
  {
    var watermark := MaxLast(t.segs);
    var from, segs := after, [];
    if watermark.Some? && from.None? {
      segs := t.segs;
      from := watermark;
    }
    if watermark.Some? && from.Some? && watermark.value > from.value {
      return Err;
    }
    var live := LiveWal(t);
    LiveSorted(t);
    var rows, newest := LiveRows(live, from);
    r := Ok(Polled(segs, rows, newest));
  }

  /** The live rows past the cursor, and where they leave it. */
  method LiveRows(live: seq<WalRow>, from: Option<int>) returns (rows: seq<WalRow>, newest: Option<int>)
    requires Sorted(live)
    ensures rows == Past1(live, from) && newest == if rows == [] then from else LastTs(rows)
  {
    rows, newest := [], from;
    assert live[..0] == [] && Past1([], from) == [];
    for i := 0 to |live|
      invariant rows == Past1(live[..i], from)
      invariant newest == if rows == [] then from else LastTs(rows)
      invariant rows != [] ==> i > 0 && rows[|rows| - 1].ts <= live[i - 1].ts
    {
      Past1More(live, i, from);
      if i > 0 {
        assert Lt(live, i - 1, i);
      }
      if !(from.Some? && live[i].ts <= from.value) {
        newest := Some(if newest.None? then live[i].ts else Max(newest.value, live[i].ts));
        rows := rows + [live[i]];
      }
    }
    assert live[..|live|] == live;
  }

  class SourceCursor {
    var cursor: Cursor
    /** The batch being built, after everything sent before it. */
    var out: seq<RowFrame>

    function Now(): Out
      reads this
    {
      Out(cursor, out)
    }

    /** `open_source`. */
    constructor (db: Db, source: nat, handshake: RowFrame, since: Option<int>)
      ensures Now() == Open(db, source, handshake, since)
    {
      cursor := Cursor(source, map[], map[], 0, NO_INDEX_STATE, false);
      out := [handshake];
      new;
      ghost var start := Now();
      var from := if since.Some? then since.value else I64_MIN;
      for i := 0 to |db.names|
        invariant Now() == IndexTo(start, db, from, i)
      {
        Index(db, db.names[i], from);
      }
      ghost var indexed := Now();
      for i := 0 to |db.streams|
        invariant Now() == OpenTo(indexed, db, since, i)
      {
        var p := OpenStream(since, TablesOf(db, db.streams[i]));
        out := out + SegFrames(cursor.source, db.streams[i], p.segs);
        cursor := SetAfter(cursor, db.streams[i], p.after);
      }
    }

    /** `emit_index`. */
    method Index(db: Db, name: Text, from: int)
      modifies this
      ensures Now() == IndexOne(old(Now()), db, name, from)
    {
      var e := EmitLoop(IndexOf(cursor, name), cursor.state, cursor.sentFull, cursor.source, name, CallersOf(db, name), from);
      out := out + e.frames;
      cursor := SetIndex(cursor, name, e);
    }

    /**
     * `poll`: index entries, then each stream, then exactly one `Rows` frame. On an error the
     * batch is abandoned and nothing is promised of the cursor.
     */
    method PollOnce(db: Db) returns (ok: bool)
      requires forall stream: Text :: Valid(TablesOf(db, stream))
      modifies this
      ensures ok <==> Poll(old(Now()), db).Ok?
      ensures ok ==> Now() == Poll(old(Now()), db).value
    {
      ghost var start := Now();
      for i := 0 to |db.names|
        invariant Now() == IndexTo(start, db, I64_MIN, i)
      {
        Index(db, db.names[i], I64_MIN);
      }
      var rows := Streams(db);
      if rows.Err? {
        return false;
      }
      out := out + [Rows(cursor.source, cursor.number, cursor.state, SortTo(rows.value, |rows.value|))];
      cursor := cursor.(number := cursor.number + 1);
      ok := true;
    }

    /** Every stream's part: segments out, cursors moved, rows gathered. */
    method Streams(db: Db) returns (rows: Result<seq<WalRow>>)
      requires forall stream: Text :: Valid(TablesOf(db, stream))
      modifies this
      ensures match StreamsTo(Gathered(old(Now()), []), db, |db.streams|)
              case Err => rows.Err?
              case Ok(g) => rows == Ok(g.rows) && Now() == g.out
    {
      ghost var start := Gathered(Now(), []);
      var gathered: seq<WalRow> := [];
      for i := 0 to |db.streams|
        invariant StreamsTo(start, db, i) == Ok(Gathered(Now(), gathered))
      {
        var p := PollOne(AfterOf(cursor, db.streams[i]), TablesOf(db, db.streams[i]));
        if p.Err? {
          StreamsStayErr(start, db, i + 1, |db.streams|);
          return Err;
        }
        out := out + SegFrames(cursor.source, db.streams[i], p.value.segs);
        cursor := SetAfter(cursor, db.streams[i], p.value.after);
        gathered := gathered + p.value.rows;
      }
      return Ok(gathered);
    }
  }

  lemma {:induction false} StreamsStayErr(g: Gathered, db: Db, i: nat, n: nat)
    requires i <= n <= |db.streams| && StreamsTo(g, db, i).Err?
    ensures StreamsTo(g, db, n).Err?
    decreases n
  {
    if i < n {
      StreamsStayErr(g, db, i, n - 1);
    }
  }
}
