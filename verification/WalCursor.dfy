/** One stream of a publisher: its cursor, its opening and its polls (src/replicate/publisher.rs). */
module WalCursor {
  import opened Types
  import opened Rows
  import opened Encoding
  import opened Catalog
  import opened Copying
  import opened Delivery

  function LastTs(rows: seq<WalRow>): Option<int> {
    if rows == [] then None else Some(rows[|rows| - 1].ts)
  }

  /** What a poll finds of one stream: segments to ship whole, live rows, and the cursor after. */
  datatype Polled = Polled(segs: seq<Segment>, rows: seq<WalRow>, after: Option<int>)

  /** The live rows past the cursor. */
  function Past1(rows: seq<WalRow>, after: Option<int>): seq<WalRow> {
    if after.Some? then From(rows, after.value + 1) else rows
  }

  /** The stream's part of a poll; an error where it sealed past the cursor. */
  function PollStream(after: Option<int>, t: Tables): Result<Polled> {
    var w := MaxLast(t.segs);
    var ship := w.Some? && after.None?;
    var from := if ship then w else after;
    if w.Some? && from.Some? && w.value > from.value then Err else
    var rows := Past1(LiveWal(t), from);
    Ok(Polled(if ship then t.segs else [], rows, if rows == [] then from else LastTs(rows)))
  }

  /** The stream's part of the opening: nothing for a tail, the segments from `since` for a catch-up. */
  function OpenStream(since: Option<int>, t: Tables): Polled {
    match since
    case Some(s) => Polled(Overlapping(t.segs, s, I64_MAX), [], MaxLast(t.segs))
    case None => Polled([], [], if LiveWal(t) != [] then LastTs(LiveWal(t)) else MaxLast(t.segs))
  }

  /** A stream sealed by a row-preserving encoder: its newest segment ends at a row it holds. */
  ghost predicate Tight(t: Tables) {
    t.segs != [] ==> Some(LastOf(t.segs)) == LastTs(Data(t.segs))
  }

  ghost predicate OfStream(rows: seq<WalRow>, stream: Text) {
    forall i: nat :: i < |rows| ==> OfStreamAt(rows, stream, i)
  }

  ghost predicate OfStreamAt(rows: seq<WalRow>, stream: Text, i: nat)
    requires i < |rows|
  {
    rows[i].stream == stream
  }

  ghost predicate Sourced(t: Tables, stream: Text) {
    Valid(t) && Tight(t) && OfStream(View(t), stream)
  }

  /** The rows a publisher is done with are a prefix of the stream's, and its cursor is at their end. */
  ghost predicate AccountsFor(after: Option<int>, v: seq<WalRow>, t: Tables) {
    v <= View(t) && after == LastTs(v)
  }

  /** A seal went past the cursor: some row past it is in a segment. */
  ghost predicate SealedUnread(v: seq<WalRow>, t: Tables) {
    v != [] && |Data(t.segs)| > |v|
  }

  lemma MarkIs(t: Tables, stream: Text)
    requires Sourced(t, stream)
    ensures MaxLast(t.segs) == LastTs(Data(t.segs)) && (t.segs == [] <==> Data(t.segs) == [])
  {
    LiveIs(t);
    DataSorted(t.segs);
  }

  /** On sorted rows, what lies past the last of a prefix is the rest. */
  lemma PastPrefix(all: seq<WalRow>, v: seq<WalRow>)
    requires Sorted(all) && v <= all
    ensures Past1(all, LastTs(v)) == all[|v|..]
  {
    if v != [] {
      var c := v[|v| - 1].ts + 1;
      forall k: nat | k < |v| ensures Below(all, k, c) {
        SortedLe(all, k, |v| - 1);
      }
      if |v| < |all| {
        assert Lt(all, |v| - 1, |v|);
      }
      var probe := |v| < |all| && Below(all, |v|, c);
      FromIs(all, c, |v|);
    }
  }

  /** The live rows past the cursor are the rows past what was accounted for. */
  lemma LivePast(t: Tables, v: seq<WalRow>)
    requires Valid(t) && v <= View(t) && |Data(t.segs)| <= |v|
    ensures Past1(LiveWal(t), LastTs(v)) == View(t)[|v|..]
  {
    ViewSorted(t);
    var sealed, live := Data(t.segs), LiveWal(t);
    var k := |v| - |sealed|;
    assert live == View(t)[|sealed|..];
    LiveSorted(t);
    PastPrefix(live, live[..k]);
    assert live[k..] == View(t)[|v|..];
    if k > 0 {
      assert live[..k][k - 1] == v[|v| - 1];
    } else if v != [] {
      assert v == sealed;
      PastSealed(t, v);
    }
  }

  lemma PastSealed(t: Tables, v: seq<WalRow>)
    requires Valid(t) && v == Data(t.segs) && v != []
    ensures Past1(LiveWal(t), LastTs(v)) == LiveWal(t)
  {
    var live := LiveWal(t);
    ViewSorted(t);
    var c := v[|v| - 1].ts + 1;
    forall k: nat | k < |live| ensures !Below(live, k, c) {
      assert Data(t.segs)[|v| - 1].ts < live[k].ts;
    }
    FromAll(live, c);
  }

  /** A poll of a stream nothing has been accounted for. */
  lemma PollFirst(t: Tables, stream: Text)
    requires Sourced(t, stream)
    ensures var r := PollStream(None, t);
            && r.Ok? && r.value.segs == t.segs && Data(t.segs) + r.value.rows == View(t) && r.value.after == LastTs(View(t))
  {
    MarkIs(t, stream);
    var sealed := Data(t.segs);
    if t.segs == [] {
      assert [] + LiveWal(t) == LiveWal(t);
    } else {
      PastSealed(t, sealed);
      EndOfView(t, sealed);
    }
  }

  lemma PollMissed(after: Option<int>, v: seq<WalRow>, t: Tables, stream: Text)
    requires Sourced(t, stream) && AccountsFor(after, v, t) && SealedUnread(v, t)
    ensures PollStream(after, t).Err?
  {
    MarkIs(t, stream);
    ViewSorted(t);
    var sealed := Data(t.segs);
    assert View(t)[|v| - 1] == v[|v| - 1] && View(t)[|sealed| - 1] == sealed[|sealed| - 1];
    assert Lt(View(t), |v| - 1, |sealed| - 1);
  }

  lemma PollRows(after: Option<int>, v: seq<WalRow>, t: Tables, stream: Text)
    requires Sourced(t, stream) && AccountsFor(after, v, t) && v != [] && |Data(t.segs)| <= |v|
    ensures PollStream(after, t) == Ok(Polled([], View(t)[|v|..], LastTs(View(t))))
  {
    MarkIs(t, stream);
    ViewSorted(t);
    var sealed := Data(t.segs);
    if sealed != [] {
      assert View(t)[|v| - 1] == v[|v| - 1] && View(t)[|sealed| - 1] == sealed[|sealed| - 1];
      SortedLe(View(t), |sealed| - 1, |v| - 1);
    }
    PollPast(after, t);
    LivePast(t, v);
    EndOfView(t, v);
  }

  /** A poll whose cursor no segment has passed ships the live rows past it. */
  lemma PollPast(after: Option<int>, t: Tables)
    requires after.Some? && AtMost(MaxLast(t.segs), after)
    ensures var rows := Past1(LiveWal(t), after);
            PollStream(after, t) == Ok(Polled([], rows, if rows == [] then after else LastTs(rows)))
  {}

  /**
   * A poll errs exactly when some row past the cursor was sealed before it was read. Otherwise
   * it ships exactly the stream's rows past what was accounted for, as whole segments only
   * where nothing had been, and its cursor ends at the newest row.
   */
  lemma PollExact(after: Option<int>, v: seq<WalRow>, t: Tables, stream: Text)
    requires Sourced(t, stream) && AccountsFor(after, v, t)
    ensures PollStream(after, t).Err? <==> SealedUnread(v, t)
    ensures PollStream(after, t).Ok? ==>
              var p := PollStream(after, t).value;
              && AccountsFor(p.after, View(t), t)
              && (p.segs == [] || (p.segs == t.segs && v == []))
              && Data(p.segs) + p.rows == View(t)[|v|..]
  {
    if v == [] {
      PollFirst(t, stream);
      assert View(t)[0..] == View(t);
    } else if SealedUnread(v, t) {
      PollMissed(after, v, t, stream);
    } else {
      PollRows(after, v, t, stream);
      assert [] + View(t)[|v|..] == View(t)[|v|..];
    }
  }

  /** The end of a run of rows is the end of the rows it runs on to. */
  lemma EndOfView(t: Tables, v: seq<WalRow>)
    requires v <= View(t)
    ensures View(t)[|v|..] != [] ==> LastTs(View(t)) == LastTs(View(t)[|v|..])
    ensures View(t)[|v|..] == [] ==> v == View(t)
    ensures LiveWal(t) != [] ==> LastTs(View(t)) == LastTs(LiveWal(t))
    ensures LiveWal(t) == [] ==> View(t) == Data(t.segs)
  {}

  // ------------------------------------------------------------------ the opening

  /** Where a publisher starts: a tail past everything held, a catch-up at the first segment it ships. */
  function StartOf(since: Option<int>, t: Tables): nat {
    match since
    case None => |View(t)|
    case Some(s) =>
      var n := |Data(Overlapping(t.segs, s, I64_MAX))|;
      if n <= |Data(t.segs)| then |Data(t.segs)| - n else 0
  }

  lemma {:induction false} OverlappingFrom(segs: seq<Segment>, since: int, k: nat)
    requires k <= |segs| && forall i: nat :: i < |segs| ==> WideAt(segs, i)
    requires forall i :: 0 <= i < |segs| ==> (i < k <==> segs[i].last < since)
    ensures Overlapping(segs, since, I64_MAX) == segs[k..]
    decreases |segs|
  {
    if segs != [] {
      assert WideAt(segs, 0);
      var rest := segs[1..];
      forall i: nat | i < |rest| ensures WideAt(rest, i) {
        assert WideAt(segs, i + 1);
      }
      OverlappingFrom(rest, since, if k == 0 then 0 else k - 1);
      assert segs == [segs[0]] + rest;
    }
  }

  /** The segments from a timestamp on are the last ones. */
  lemma OverlappingSuffix(segs: seq<Segment>, since: int) returns (k: nat)
    requires Ordered(segs) && forall i: nat :: i < |segs| ==> WideAt(segs, i)
    ensures k <= |segs| && Overlapping(segs, since, I64_MAX) == segs[k..]
  {
    var nums: seq<nat> := seq(|segs|, i => 0);
    k := KeepFromSuffix(segs, nums, since);
    OverlappingFrom(segs, since, k);
  }

  /** The opening ships the sealed rows from its start on, and accounts for what its cursor covers. */
  lemma OpenExact(since: Option<int>, t: Tables, stream: Text) returns (v: seq<WalRow>)
    requires Sourced(t, stream) && forall i: nat :: i < |t.segs| ==> WideAt(t.segs, i)
    ensures var p := OpenStream(since, t);
            && AccountsFor(p.after, v, t) && p.rows == []
            && StartOf(since, t) <= |v| && Data(p.segs) == v[StartOf(since, t)..]
            && Ordered(p.segs) && (p.segs != [] ==> Some(LastOf(p.segs)) == p.after)
    ensures v == if since.Some? then Data(t.segs) else View(t)
  {
    MarkIs(t, stream);
    match since {
      case None =>
        v := View(t);
        EndOfView(t, v);
        assert v[|v|..] == [];
      case Some(s) =>
        v := Data(t.segs);
        OpenSince(s, t);
    }
  }

  lemma OpenSince(since: int, t: Tables)
    requires Valid(t) && forall i: nat :: i < |t.segs| ==> WideAt(t.segs, i)
    ensures var segs, all := Overlapping(t.segs, since, I64_MAX), Data(t.segs);
            && |Data(segs)| <= |all| && Data(segs) == all[|all| - |Data(segs)|..]
            && Ordered(segs) && (segs != [] ==> t.segs != [] && LastOf(segs) == LastOf(t.segs))
  {
    var k := OverlappingSuffix(t.segs, since);
    assert t.segs == t.segs[..k] + t.segs[k..];
    DataConcat(t.segs[..k], t.segs[k..]);
    OrderedSlice(t.segs, k, |t.segs|);
    assert t.segs[k..|t.segs|] == t.segs[k..];
    assert k < |t.segs| ==> LastOf(t.segs[k..]) == LastOf(t.segs);
  }
}
