/**
 * The caller's index entries over any number of polls: what a tail and a catch-up send of each
 * name, and what the subscriber ends with (src/replicate/publisher.rs, src/replicate/subscriber.rs).
 */
module Entries {
  import opened Types
  import opened Encoding
  import opened Catalog
  import opened Frames
  import opened Delivery
  import opened Retention
  import opened IndexCursor
  import opened WalCursor
  import opened Publication
  import opened Replication
  import Subscription

  /** The name's entries `b` to `k` have been sent, and its cursor is where the first `k` leave it. */
  ghost predicate EntriesSent(o: Out, rows: seq<CallerRow>, b: nat, k: nat, name: Text) {
    forall n: nat :: n == k ==> EntriesSentTo(o, rows, b, n, name)
  }

  ghost predicate EntriesSentTo(o: Out, rows: seq<CallerRow>, b: nat, k: nat, name: Text) {
    b <= k <= |rows| && IndexOf(o.cursor, name) == PositionAt(rows, k) && EntriesOf(o.frames, name) == rows[b..k]
  }

  lemma SentIs(o: Out, rows: seq<CallerRow>, b: nat, k: nat, name: Text)
    requires EntriesSent(o, rows, b, k, name)
    ensures EntriesSentTo(o, rows, b, k, name)
  {
    assert EntriesSentTo(o, rows, b, k, name);
  }

  lemma SentSame(o: Out, o': Out, rows: seq<CallerRow>, b: nat, k: nat, name: Text)
    requires EntriesSent(o, rows, b, k, name) && SameName(o, o', name)
    ensures EntriesSent(o', rows, b, k, name)
  {
    SentIs(o, rows, b, k, name);
  }

  // ------------------------------------------------------------------ one name

  lemma SendOneEntry(before: seq<RowFrame>, f: RowFrame, all: seq<RowFrame>, name: Text, r: CallerRow, a: seq<CallerRow>, b: seq<CallerRow>)
    requires f.Index? && f.stream == name && CallerRow(f.ts, f.blob) == r && all == before + [f]
    requires EntriesOf(before, name) == a && b == a + [r]
    ensures EntriesOf(all, name) == b
  {
    OneMoreFrame(before, f, name);
  }

  lemma SendOtherEntry(before: seq<RowFrame>, f: RowFrame, all: seq<RowFrame>, name: Text)
    requires f.Index? && f.stream != name && all == before + [f]
    ensures EntriesOf(all, name) == EntriesOf(before, name)
  {
    OneMoreFrame(before, f, name);
    assert EntriesOf(before, name) + [] == EntriesOf(before, name);
  }

  lemma SendNext(state: IndexState, full: bool, source: nat, name: Text, rows: seq<CallerRow>, k: nat, m: nat) returns (f: RowFrame)
    requires k < m <= |rows|
    ensures f.Index? && f.stream == name && CallerRow(f.ts, f.blob) == rows[m - 1]
    ensures SendTo(state, full, source, name, rows, k, m).frames == SendTo(state, full, source, name, rows, k, m - 1).frames + [f]
  {
    var frames := SendTo(state, full, source, name, rows, k, m).frames;
    f := frames[|frames| - 1];
  }

  ghost predicate SentUpTo(fs: seq<RowFrame>, name: Text, rows: seq<CallerRow>, b: nat, n: nat)
    requires b <= n <= |rows|
  {
    EntriesOf(fs, name) == rows[b..n]
  }

  lemma SendStep(
    before: seq<RowFrame>, f: RowFrame, all: seq<RowFrame>, name: Text, rows: seq<CallerRow>, b: nat, n: nat, m: nat)
    requires b <= n && m == n + 1 <= |rows| && all == before + [f] && SentUpTo(before, name, rows, b, n)
    requires f.Index? && f.stream == name && CallerRow(f.ts, f.blob) == rows[n]
    ensures SentUpTo(all, name, rows, b, m)
  {
    assert rows[b..m] == rows[b..n] + [rows[n]];
    SendOneEntry(before, f, all, name, rows[n], rows[b..n], rows[b..m]);
  }

  lemma {:induction false} SendEntries(
    fs: seq<RowFrame>, state: IndexState, full: bool, source: nat, name: Text, rows: seq<CallerRow>, b: nat, k: nat, m: nat,
    all: seq<RowFrame>)
    requires b <= k <= m <= |rows| && all == fs + SendTo(state, full, source, name, rows, k, m).frames
    requires SentUpTo(fs, name, rows, b, k)
    ensures SentUpTo(all, name, rows, b, m)
    decreases m
  {
    if m == k {
      assert all == fs;
    } else {
      var n := m - 1;
      var f := SendNext(state, full, source, name, rows, k, m);
      var sent := SendTo(state, full, source, name, rows, k, n).frames;
      Assoc(fs, sent, [f]);
      SendEntries(fs, state, full, source, name, rows, b, k, n, fs + sent);
      SendStep(fs + sent, f, all, name, rows, b, n, m);
    }
  }

  /** Visiting one name sends no other name's entry. */
  lemma {:induction false} EmitOthers(
    fs: seq<RowFrame>, e: Emit, source: nat, x: Text, rows: seq<CallerRow>, n: nat, name: Text, all: seq<RowFrame>)
    requires n <= |rows| && x != name && e.frames == [] && all == fs + EmitTo(e, source, x, rows, n).frames
    ensures EntriesOf(all, name) == EntriesOf(fs, name)
  {
    if n == 0 {
      assert all == fs;
    } else {
      var p := EmitTo(e, source, x, rows, n - 1);
      EmitOthers(fs, e, source, x, rows, n - 1, name, fs + p.frames);
      var f := EmitNext(p, source, x, rows[n - 1]);
      if f.Some? {
        Assoc(fs, p.frames, [f.value]);
        SendOtherEntry(fs + p.frames, f.value, all, name);
      }
    }
  }

  lemma EmitNext(e: Emit, source: nat, x: Text, row: CallerRow) returns (f: Option<RowFrame>)
    ensures f.None? ==> EmitRow(e, source, x, row).frames == e.frames
    ensures f.Some? ==> f.value.Index? && f.value.stream == x && EmitRow(e, source, x, row).frames == e.frames + [f.value]
  {
    var frames := EmitRow(e, source, x, row).frames;
    f := if frames == e.frames then None else Some(frames[|frames| - 1]);
  }

  lemma IndexOthers(o: Out, db: Db, x: Text, from: int, name: Text)
    requires x != name
    ensures SameName(o, IndexOne(o, db, x, from), name)
  {
    var p, c := IndexOf(o.cursor, x), o.cursor;
    var read := KeepRows(CallersOf(db, x), Start(p, from));
    EmitOthers(o.frames, Begin(p, c.state, c.sentFull), c.source, x, read, |read|, name, IndexOne(o, db, x, from).frames);
  }

  lemma SameNameTrans(a: Out, b: Out, c: Out, name: Text)
    requires SameName(a, b, name) && SameName(b, c, name)
    ensures SameName(a, c, name)
  {}

  lemma {:induction false} Unvisited(o: Out, db: Db, from: int, i: nat, n: nat, name: Text, p: Out, r: Out)
    requires i <= n <= |db.names| && name !in db.names[i..n]
    requires p == IndexTo(o, db, from, i) && r == IndexTo(o, db, from, n)
    ensures SameName(p, r, name)
    decreases n
  {
    if i < n {
      var q, x := IndexTo(o, db, from, n - 1), db.names[n - 1];
      assert db.names[i..n] == db.names[i..n - 1] + [x];
      Unvisited(o, db, from, i, n - 1, name, p, q);
      IndexOthers(q, db, x, from, name);
      SameNameTrans(p, q, r, name);
    }
  }

  /** Of one name, visiting them all is visiting it once. */
  lemma Visits(o: Out, db: Db, from: int, name: Text, r: Out) returns (p: Out)
    requires Distinct(db.names) && name in db.names && r == IndexTo(o, db, from, |db.names|)
    ensures SameName(o, p, name) && SameName(IndexOne(p, db, name, from), r, name)
  {
    var n := |db.names|;
    var i: nat :| i < n && db.names[i] == name;
    p := IndexTo(o, db, from, i);
    forall j: nat | i < j < n ensures db.names[j] != name {
      assert NamesDiffer(db.names, i, j);
    }
    FreshName(db.names, i);
    assert db.names[0..i] == db.names[..i];
    Unvisited(o, db, from, 0, i, name, o, p);
    Unvisited(o, db, from, i + 1, n, name, IndexTo(o, db, from, i + 1), r);
  }

  // ------------------------------------------------------------------ the opening, name by name

  function FromOf(since: Option<int>): int {
    if since.Some? then since.value else I64_MIN
  }

  /** The entries of a name the opening leaves its cursor after. */
  function Recalled(rows: seq<CallerRow>, from: int): seq<CallerRow> {
    if Resumes(rows, from) then rows else []
  }

  /** The first entry ever sent of a name. */
  function Base(rows: seq<CallerRow>, from: int): (b: nat)
    ensures b <= |Recalled(rows, from)|
  {
    if Resumes(rows, from) then FirstFrom(rows, from) else 0
  }

  ghost predicate OpenedName(o: Out, rows: seq<CallerRow>, from: int, name: Text) {
    EntriesSent(o, Recalled(rows, from), Base(rows, from), |Recalled(rows, from)|, name)
  }

  ghost predicate Unopened(o: Out, name: Text) {
    IndexOf(o.cursor, name) == None && EntriesOf(o.frames, name) == []
  }

  ghost predicate SameName(o: Out, o': Out, name: Text) {
    IndexOf(o'.cursor, name) == IndexOf(o.cursor, name) && EntriesOf(o'.frames, name) == EntriesOf(o.frames, name)
  }

  lemma OpensName(o: Out, db: Db, x: Text, from: int)
    requires CallersAt(db, x) && Unopened(o, x)
    ensures OpenedName(IndexOne(o, db, x, from), CallersOf(db, x), from, x)
  {
    var rows := CallersOf(db, x);
    var a := FirstFrom(rows, from);
    OpenedRest(o, db, x, from, rows, rows[a..]);
    assert rows[a..|rows|] == rows[a..];
    assert EntriesSentTo(IndexOne(o, db, x, from), Recalled(rows, from), Base(rows, from), |Recalled(rows, from)|, x);
  }

  lemma OpenedRest(o: Out, db: Db, x: Text, from: int, rows: seq<CallerRow>, rest: seq<CallerRow>)
    requires CallersAt(db, x) && Unopened(o, x) && rows == CallersOf(db, x) && rest == rows[FirstFrom(rows, from)..]
    ensures EntriesOf(IndexOne(o, db, x, from).frames, x) == rest
    ensures IndexOf(IndexOne(o, db, x, from).cursor, x) == if Resumes(rows, from) then PositionAt(rows, |rows|) else None
    ensures !Resumes(rows, from) ==> rest == []
  {
    var c := o.cursor;
    OpeningSends(rows, c.state, c.sentFull, c.source, x, from);
    assert rest[0..0] == [];
    SendEntries(o.frames, c.state, c.sentFull, c.source, x, rest, 0, 0, |rest|, IndexOne(o, db, x, from).frames);
    assert rest[0..|rest|] == rest;
  }

  lemma {:induction false} SegEntries(fs: seq<RowFrame>, source: nat, x: Text, segs: seq<Segment>, name: Text)
    ensures EntriesOf(fs + SegFrames(source, x, segs), name) == EntriesOf(fs, name)
    decreases |segs|
  {
    if segs == [] {
      assert fs + SegFrames(source, x, segs) == fs;
    } else {
      var f := SegmentOf(source, x, SegmentMeta(segs[0].rows, segs[0].first, segs[0].last), segs[0].data, None);
      OneMoreFrame(fs, f, name);
      SegEntries(fs + [f], source, x, segs[1..], name);
      assert fs + SegFrames(source, x, segs) == fs + [f] + SegFrames(source, x, segs[1..]);
      assert EntriesOf(fs, name) + [] == EntriesOf(fs, name);
    }
  }

  lemma OpenOneEntries(o: Out, db: Db, since: Option<int>, x: Text, name: Text)
    ensures EntriesOf(OpenOne(o, db, since, x).frames, name) == EntriesOf(o.frames, name)
    ensures OpenOne(o, db, since, x).cursor.index == o.cursor.index
  {
    SegEntries(o.frames, o.cursor.source, x, OpenStream(since, TablesOf(db, x)).segs, name);
  }

  lemma {:induction false} OpenEntries(o: Out, db: Db, since: Option<int>, n: nat, name: Text)
    requires n <= |db.streams|
    ensures EntriesOf(OpenTo(o, db, since, n).frames, name) == EntriesOf(o.frames, name)
    ensures OpenTo(o, db, since, n).cursor.index == o.cursor.index
  {
    if n > 0 {
      OpenEntries(o, db, since, n - 1, name);
      OpenOneEntries(OpenTo(o, db, since, n - 1), db, since, db.streams[n - 1], name);
    }
  }

  lemma OpenSendsEntries(db: Db, source: nat, handshake: RowFrame, since: Option<int>, o: Out, name: Text)
    requires DbOk(db) && handshake.Handshake? && o == Open(db, source, handshake, since)
    ensures OpenedName(o, CallersOf(db, name), FromOf(since), name)
  {
    var start := Out(Cursor(source, map[], map[], 0, NO_INDEX_STATE, false), [handshake]);
    var from := FromOf(since);
    var indexed := IndexTo(start, db, from, |db.names|);
    StartUnopened(start, handshake, name);
    OpenedIndex(start, db, from, indexed, name);
    OpenEntries(indexed, db, since, |db.streams|, name);
    OpenedStays(indexed, CallersOf(db, name), from, name, o);
  }

  lemma StartUnopened(start: Out, handshake: RowFrame, name: Text)
    requires handshake.Handshake? && start.frames == [handshake] && start.cursor.index == map[]
    ensures Unopened(start, name)
  {
    OneMoreFrame([], handshake, name);
    assert [] + [handshake] == [handshake];
  }

  lemma OpenedIndex(start: Out, db: Db, from: int, indexed: Out, name: Text)
    requires DbOk(db) && Unopened(start, name) && indexed == IndexTo(start, db, from, |db.names|)
    ensures OpenedName(indexed, CallersOf(db, name), from, name)
  {
    assert CallersAt(db, name);
    if name in db.names {
      var p := Visits(start, db, from, name, indexed);
      OpensName(p, db, name, from);
      OpenedStays(IndexOne(p, db, name, from), CallersOf(db, name), from, name, indexed);
    } else {
      assert db.names[0..|db.names|] == db.names;
      Unvisited(start, db, from, 0, |db.names|, name, start, indexed);
      UnlistedOpens(indexed, from, name);
    }
  }

  lemma OpenedStays(o: Out, rows: seq<CallerRow>, from: int, name: Text, o': Out)
    requires OpenedName(o, rows, from, name) && SameName(o, o', name)
    ensures OpenedName(o', rows, from, name)
  {
    SentSame(o, o', Recalled(rows, from), Base(rows, from), |Recalled(rows, from)|, name);
  }

  lemma UnlistedOpens(o: Out, from: int, name: Text)
    requires Unopened(o, name)
    ensures OpenedName(o, [], from, name)
  {
    assert EntriesSentTo(o, [], 0, 0, name);
  }

  // ------------------------------------------------------------------ a poll, name by name

  /** The name visited: its entries are all sent. */
  lemma IndexOneSends(o: Out, db: Db, name: Text, b: nat, k: nat)
    requires CallersAt(db, name) && EntriesSent(o, CallersOf(db, name), b, k, name)
    ensures EntriesSent(IndexOne(o, db, name, I64_MIN), CallersOf(db, name), b, |CallersOf(db, name)|, name)
  {
    var rows, c, r := CallersOf(db, name), o.cursor, IndexOne(o, db, name, I64_MIN);
    SentIs(o, rows, b, k, name);
    IndexOneIs(o, db, name, k);
    SendEntries(o.frames, c.state, c.sentFull, c.source, name, rows, b, k, |rows|, r.frames);
    assert EntriesSentTo(r, rows, b, |rows|, name);
  }

  lemma IndexOneIs(o: Out, db: Db, name: Text, k: nat)
    requires CallersAt(db, name) && k <= |CallersOf(db, name)| && IndexOf(o.cursor, name) == PositionAt(CallersOf(db, name), k)
    ensures var rows, c, r := CallersOf(db, name), o.cursor, IndexOne(o, db, name, I64_MIN);
            && r.frames == o.frames + SendTo(c.state, c.sentFull, c.source, name, rows, k, |rows|).frames
            && IndexOf(r.cursor, name) == PositionAt(rows, |rows|)
  {
    var c := o.cursor;
    PollSendsRest(CallersOf(db, name), k, c.state, c.sentFull, c.source, name, I64_MIN);
  }

  /** What a publisher knows of a name: right after its opening, what that left its cursor after. */
  function Known(first: Db, from: int, opening: bool, had: Db, name: Text): seq<CallerRow> {
    if opening then Recalled(CallersOf(first, name), from) else CallersOf(had, name)
  }

  lemma {:induction false} PrefixRun(a: seq<CallerRow>, b: seq<CallerRow>, k: nat)
    requires a <= b && k <= |a|
    ensures RunLength(a, k) == RunLength(b, k)
  {
    if k > 1 {
      PrefixRun(a, b, k - 1);
    }
  }

  /** What has been sent of everything known of a name. */
  ghost predicate KnownSent(o: Out, first: Db, from: int, opening: bool, had: Db, name: Text) {
    EntriesSent(o, Known(first, from, opening, had, name), Base(CallersOf(first, name), from), |Known(first, from, opening, had, name)|, name)
  }

  lemma SentPrefix(o: Out, a: seq<CallerRow>, b: seq<CallerRow>, base: nat, name: Text)
    requires EntriesSent(o, a, base, |a|, name) && a <= b
    ensures EntriesSent(o, b, base, |a|, name)
  {
    SentIs(o, a, base, |a|, name);
    PrefixRun(a, b, |a|);
    assert b[base..|a|] == a[base..|a|];
  }

  lemma KnownGrows(first: Db, from: int, opening: bool, had: Db, db: Db, name: Text)
    requires Grows(had, db) && (opening ==> had == first)
    ensures Known(first, from, opening, had, name) <= CallersOf(db, name)
  {
    assert EntriesGrowAt(had, db, name);
  }

  /** All of a name's entries are sent once the names have been visited. */
  lemma IndexSends(o: Out, db: Db, b: nat, k: nat, name: Text, r: Out)
    requires DbOk(db) && EntriesSent(o, CallersOf(db, name), b, k, name) && r == IndexTo(o, db, I64_MIN, |db.names|)
    ensures EntriesSent(r, CallersOf(db, name), b, |CallersOf(db, name)|, name)
  {
    var rows := CallersOf(db, name);
    assert CallersAt(db, name);
    if name in db.names {
      var p := Visits(o, db, I64_MIN, name, r);
      SentSame(o, p, rows, b, k, name);
      IndexOneSends(p, db, name, b, k);
      SentSame(IndexOne(p, db, name, I64_MIN), r, rows, b, |rows|, name);
    } else {
      assert db.names[0..|db.names|] == db.names;
      Unvisited(o, db, I64_MIN, 0, |db.names|, name, o, r);
      SentIs(o, rows, b, k, name);
      SentSame(o, r, rows, b, k, name);
    }
  }

  lemma {:induction false} StreamsEntries(g: Gathered, db: Db, n: nat, g': Gathered, name: Text)
    requires n <= |db.streams| && StreamsTo(g, db, n) == Ok(g')
    ensures EntriesOf(g'.out.frames, name) == EntriesOf(g.out.frames, name) && g'.out.cursor.index == g.out.cursor.index
  {
    if n > 0 {
      var p := StreamsTo(g, db, n - 1).value;
      StreamsEntries(g, db, n - 1, p, name);
      var x := db.streams[n - 1];
      SegEntries(p.out.frames, p.out.cursor.source, x, PollStream(AfterOf(p.out.cursor, x), TablesOf(db, x)).value.segs, name);
    }
  }

  lemma PollSendsEntries(before: Out, first: Db, from: int, opening: bool, had: Db, db: Db, o: Out, name: Text)
    requires DbOk(db) && Grows(had, db) && (opening ==> had == first) && Poll(before, db) == Ok(o)
    requires KnownSent(before, first, from, opening, had, name)
    ensures KnownSent(o, first, from, false, db, name)
  {
    var indexed := IndexTo(before, db, I64_MIN, |db.names|);
    var known, rows, b := Known(first, from, opening, had, name), CallersOf(db, name), Base(CallersOf(first, name), from);
    KnownGrows(first, from, opening, had, db, name);
    SentPrefix(before, known, rows, b, name);
    IndexSends(before, db, b, |known|, name, indexed);
    AfterStreams(indexed, db, o, name);
    SentSame(indexed, o, rows, b, |rows|, name);
  }

  /** The rest of a poll touches no entry. */
  lemma AfterStreams(indexed: Out, db: Db, o: Out, name: Text)
    requires StreamsTo(Gathered(indexed, []), db, |db.streams|).Ok?
    requires var g := StreamsTo(Gathered(indexed, []), db, |db.streams|).value;
             o.frames == g.out.frames + [RowsFrame(g)] && o.cursor.index == g.out.cursor.index
    ensures SameName(indexed, o, name)
  {
    var g := StreamsTo(Gathered(indexed, []), db, |db.streams|).value;
    StreamsEntries(Gathered(indexed, []), db, |db.streams|, g, name);
    OneMoreFrame(g.out.frames, RowsFrame(g), name);
    assert EntriesOf(g.out.frames, name) + [] == EntriesOf(g.out.frames, name);
  }

  // ------------------------------------------------------------------ any number of polls

  /** Everything known of every name has been sent from the name's base on. */
  lemma {:induction false} KnownRun(
    dbs: seq<Db>, outs: seq<Out>, source: nat, handshake: RowFrame, since: Option<int>, n: nat, name: Text)
    requires RunOk(dbs) && Polls(dbs, outs, source, handshake, since) && n < |outs|
    ensures KnownSent(outs[n], dbs[0], FromOf(since), n == 0, dbs[n], name)
  {
    assert DbAt(dbs, n) && PollsAt(dbs, outs, source, handshake, since, n);
    if n == 0 {
      OpenSendsEntries(dbs[0], source, handshake, since, outs[0], name);
    } else {
      var before, had, opening := outs[n - 1], dbs[n - 1], n == 1;
      KnownRun(dbs, outs, source, handshake, since, n - 1, name);
      assert GrewAt(dbs, n);
      PollSendsEntries(before, dbs[0], FromOf(since), opening, had, dbs[n], outs[n], name);
    }
  }

  /** The entries of a name past a starting point: those the opening found older are left out. */
  ghost function EntriesFrom(dbs: seq<Db>, n: nat, from: int, name: Text): seq<CallerRow>
    requires n < |dbs|
  {
    var older := FirstFrom(CallersOf(dbs[0], name), from);
    if older <= |CallersOf(dbs[n], name)| then CallersOf(dbs[n], name)[older..] else []
  }

  /** What has been sent of a name after `n` polls: from its starting point on, or all over again. */
  ghost function EntriesTaken(dbs: seq<Db>, n: nat, from: int, name: Text): seq<CallerRow>
    requires n < |dbs|
  {
    if n == 0 || Resumes(CallersOf(dbs[0], name), from) then EntriesFrom(dbs, n, from, name) else CallersOf(dbs[n], name)
  }

  /** Over any number of polls of a tail or a catch-up, exactly what has been sent of each name. */
  lemma EntriesRun(
    dbs: seq<Db>, outs: seq<Out>, source: nat, handshake: RowFrame, since: Option<int>, n: nat, name: Text)
    requires RunOk(dbs) && Polls(dbs, outs, source, handshake, since) && n < |outs|
    ensures EntriesOf(outs[n].frames, name) == EntriesTaken(dbs, n, FromOf(since), name)
  {
    KnownRun(dbs, outs, source, handshake, since, n, name);
    assert DbAt(dbs, 0) && CallersAt(dbs[0], name);
    KnownIsTaken(outs[n], dbs, FromOf(since), n, name);
  }

  lemma KnownIsTaken(o: Out, dbs: seq<Db>, from: int, n: nat, name: Text)
    requires n < |dbs| && InOrder(CallersOf(dbs[0], name)) && KnownSent(o, dbs[0], from, n == 0, dbs[n], name)
    ensures EntriesOf(o.frames, name) == EntriesTaken(dbs, n, from, name)
  {
    var known, base := Known(dbs[0], from, n == 0, dbs[n], name), Base(CallersOf(dbs[0], name), from);
    SentIs(o, known, base, |known|, name);
    assert known[base..|known|] == known[base..];
    TakenIs(dbs, from, n, name, known, base);
  }

  lemma TakenIs(dbs: seq<Db>, from: int, n: nat, name: Text, known: seq<CallerRow>, base: nat)
    requires n < |dbs| && InOrder(CallersOf(dbs[0], name)) && base == Base(CallersOf(dbs[0], name), from) <= |known|
    requires known == Known(dbs[0], from, n == 0, dbs[n], name)
    ensures EntriesTaken(dbs, n, from, name) == known[base..]
  {
    var rows := CallersOf(dbs[0], name);
    if Resumes(rows, from) {
      assert base == FirstFrom(rows, from);
    } else {
      FirstFromIs(rows, from);
      assert rows[|rows| - 1].ts < from;
      assert FirstFrom(rows, from) == |rows|;
      assert known[0..] == known;
    }
  }

  lemma {:induction false} EntriesGrow(dbs: seq<Db>, n: nat, name: Text)
    requires RunOk(dbs) && n < |dbs|
    ensures CallersOf(dbs[0], name) <= CallersOf(dbs[n], name)
  {
    if n > 0 {
      EntriesGrow(dbs, n - 1, name);
      assert GrewAt(dbs, n) && EntriesGrowAt(dbs[n - 1], dbs[n], name);
    }
  }

  /**
   * A catch-up sends exactly a name's entries from `since` on, each once and in order, over any
   * number of polls, if and only if at its opening the name's newest entry is at or past `since`
   * or it has none. A tail always sends every entry.
   */
  lemma CatchUpExact(
    dbs: seq<Db>, outs: seq<Out>, source: nat, handshake: RowFrame, since: Option<int>, n: nat, name: Text)
    requires RunOk(dbs) && Polls(dbs, outs, source, handshake, since) && 0 < n < |outs|
    ensures EntriesOf(outs[n].frames, name) == EntriesFrom(dbs, n, FromOf(since), name) <==> Resumes(CallersOf(dbs[0], name), FromOf(since))
    ensures since.None? ==> EntriesOf(outs[n].frames, name) == CallersOf(dbs[n], name)
  {
    EntriesRun(dbs, outs, source, handshake, since, n, name);
    EntriesGrow(dbs, n, name);
    assert DbAt(dbs, 0) && CallersAt(dbs[0], name);
    TakenIsFrom(dbs, n, FromOf(since), name);
    if since.None? {
      TailTakesAll(dbs, n, name);
    }
  }

  lemma TakenIsFrom(dbs: seq<Db>, n: nat, from: int, name: Text)
    requires 0 < n < |dbs| && InOrder(CallersOf(dbs[0], name)) && CallersOf(dbs[0], name) <= CallersOf(dbs[n], name)
    ensures EntriesTaken(dbs, n, from, name) == EntriesFrom(dbs, n, from, name) <==> Resumes(CallersOf(dbs[0], name), from)
  {
    var rows := CallersOf(dbs[0], name);
    FirstFromIs(rows, from);
    if !Resumes(rows, from) {
      assert rows[|rows| - 1].ts < from;
      assert |EntriesFrom(dbs, n, from, name)| < |CallersOf(dbs[n], name)|;
    }
  }

  lemma TailTakesAll(dbs: seq<Db>, n: nat, name: Text)
    requires n < |dbs| && CallersAt(dbs[0], name)
    ensures EntriesFrom(dbs, n, I64_MIN, name) == CallersOf(dbs[n], name)
    ensures Resumes(CallersOf(dbs[0], name), I64_MIN)
  {
    var rows := CallersOf(dbs[0], name);
    FirstFromIs(rows, I64_MIN);
    FirstKept(rows, FirstFrom(rows, I64_MIN), I64_MIN);
    assert CallersOf(dbs[n], name)[0..] == CallersOf(dbs[n], name);
  }

  /** An archive whose one name has one entry, at 0, and that holds no rows. */
  const QUIET := Db([[]], map[[] := [CallerRow(0, [])]], [], map[])

  lemma QuietOk()
    ensures DbOk(QUIET) && Grows(QUIET, QUIET)
  {
    forall stream: Text ensures SourcedAt(QUIET, stream) {
      assert TablesOf(QUIET, stream) == EMPTY.t && View(EMPTY.t) == [];
    }
    forall name: Text ensures CallersAt(QUIET, name) {}
  }

  /** A catch-up from 1 sends the entry at 0 at its first poll. */
  lemma QuietCatchUpStartsOver(source: nat, handshake: RowFrame) returns (dbs: seq<Db>, outs: seq<Out>)
    requires handshake.Handshake?
    ensures RunOk(dbs) && Polls(dbs, outs, source, handshake, Some(1)) && |outs| == 2 && dbs[1] == QUIET
    ensures EntriesFrom(dbs, 1, 1, []) == [] && EntriesOf(outs[1].frames, []) == [CallerRow(0, [])]
  {
    dbs := [QUIET, QUIET];
    QuietOk();
    var first := Open(QUIET, source, handshake, Some(1));
    assert Poll(first, QUIET).Ok?;
    outs := [first, Poll(first, QUIET).value];
    assert forall i: nat :: i < 2 ==> DbAt(dbs, i) && GrewAt(dbs, i);
    assert forall i: nat :: i < 2 ==> PollsAt(dbs, outs, source, handshake, Some(1), i);
    EntriesRun(dbs, outs, source, handshake, Some(1), 1, []);
  }

  /** And the subscriber ends with exactly what was sent. */
  lemma EntriesEndToEnd(
    dbs: seq<Db>, outs: seq<Out>, source: nat, handshake: RowFrame, since: Option<int>, n: nat,
    evs: seq<Subscription.SubEvent>, name: Text)
    requires RunOk(dbs) && Polls(dbs, outs, source, handshake, since) && n < |outs|
    requires Subscription.Arrived(evs, |evs|) == outs[n].frames && Subscription.OwnRun(evs)
    ensures Subscription.SubAfter(evs, |evs|).Done?
    ensures Subscription.EntriesUnder(Subscription.SubAfter(evs, |evs|).sub.entries, name) == EntriesTaken(dbs, n, FromOf(since), name)
  {
    RunDelivers(dbs, outs, source, handshake, since, n);
    Subscription.SubscriberKeepsUp(evs, |evs|);
    EntriesRun(dbs, outs, source, handshake, since, n, name);
    assert Subscription.EntriesAt(Subscription.SubAfter(evs, |evs|).sub, outs[n].frames, name);
  }
}
