/** What a reader splices and what a copy carries (src/read.rs, src/rewrite.rs). */
module Copying {
  import opened Types
  import opened Rows
  import opened Encoding
  import opened Catalog
  import opened Ticks

  /** `last_ts >= start AND first_ts <= end`, in `seq` order: whole segments, always. */
  function Overlapping(segs: seq<Segment>, start: int, end: int): seq<Segment> {
    if segs == [] then [] else
    if segs[0].last >= start && segs[0].first <= end then [segs[0]] + Overlapping(segs[1..], start, end)
    else Overlapping(segs[1..], start, end)
  }

  function WithTail(segs: seq<Segment>, tail: Result<Option<Segment>>): Result<seq<Segment>> {
    match tail
    case Err => Err
    case Ok(None) => Ok(segs)
    case Ok(Some(s)) => Ok(segs + [s])
  }

  /** `stream_segments`: every sealed segment, then the live tail materialized as the newest. */
  function StreamSegments(enc: Encoder, t: Tables): Result<seq<Segment>> {
    WithTail(t.segs, Materialize(enc, [], LiveWal(t)))
  }

  /** `stream_range`: whole segments at the edges, the tail trimmed to the range. */
  function StreamRange(enc: Encoder, t: Tables, start: int, end: int): Result<seq<Segment>> {
    WithTail(Overlapping(t.segs, start, end), Materialize(enc, [], InSpan(LiveWal(t), start, end)))
  }

  /** Whether a copy takes the tail: all of it, when any of its span is in range. */
  predicate TailInRange(live: seq<WalRow>, start: int, end: int) {
    live != [] && live[|live| - 1].ts >= start && live[0].ts <= end
  }

  function CopySegments(enc: Encoder, t: Tables, start: int, end: int): Result<seq<Segment>> {
    var segs, live := Overlapping(t.segs, start, end), LiveWal(t);
    if TailInRange(live, start, end) then WithTail(segs, Materialize(enc, [], live)) else Ok(segs)
  }

  /** One stream of `copy_sources`, columns and all: renumbered from 0, and no WAL. */
  function CopyStream(enc: Encoder, t: Tables, start: int, end: int): Result<Tables> {
    match CopySegments(enc, t, start, end)
    case Err => Err
    case Ok(segs) => Ok(Tables([], segs, Numbers(0, |segs|)))
  }

  // ------------------------------------------------------------------ ranges

  lemma {:induction false} InSpanToConcat(a: seq<WalRow>, b: seq<WalRow>, first: int, last: int, n: nat)
    requires n <= |b|
    ensures InSpanTo(a + b, first, last, |a| + n) == InSpanTo(a, first, last, |a|) + InSpanTo(b, first, last, n)
  {
    if n == 0 {
      InSpanPrefix(a + b, a, first, last, |a|);
      assert InSpanTo(a, first, last, |a|) + [] == InSpanTo(a, first, last, |a|);
    } else {
      InSpanToConcat(a, b, first, last, n - 1);
      assert (a + b)[|a| + n - 1] == b[n - 1];
    }
  }

  lemma {:induction false} InSpanPrefix(s: seq<WalRow>, a: seq<WalRow>, first: int, last: int, n: nat)
    requires n <= |a| && a <= s
    ensures InSpanTo(s, first, last, n) == InSpanTo(a, first, last, n)
  {
    if n > 0 {
      InSpanPrefix(s, a, first, last, n - 1);
      assert s[n - 1] == a[n - 1];
    }
  }

  lemma InSpanConcat(a: seq<WalRow>, b: seq<WalRow>, first: int, last: int)
    ensures InSpan(a + b, first, last) == InSpan(a, first, last) + InSpan(b, first, last)
  {
    InSpanToConcat(a, b, first, last, |b|);
  }

  lemma {:induction false} InSpanNone(s: seq<WalRow>, first: int, last: int, n: nat)
    requires n <= |s| && forall k: nat :: k < |s| ==> Below(s, k, first) || Past(s, k, last)
    ensures InSpanTo(s, first, last, n) == []
  {
    if n > 0 {
      InSpanNone(s, first, last, n - 1);
      assert Below(s, n - 1, first) || Past(s, n - 1, last);
    }
  }

  lemma {:induction false} InSpanTwice(s: seq<WalRow>, first: int, last: int, n: nat)
    requires n <= |s|
    ensures InSpan(InSpanTo(s, first, last, n), first, last) == InSpanTo(s, first, last, n)
  {
    if n > 0 {
      InSpanTwice(s, first, last, n - 1);
      var more := if first <= s[n - 1].ts <= last then [s[n - 1]] else [];
      InSpanConcat(InSpanTo(s, first, last, n - 1), more, first, last);
      assert InSpan(more, first, last) == more by {
        assert InSpanTo(more, first, last, 0) == [];
      }
    }
  }

  lemma {:induction false} InSpanSorted(s: seq<WalRow>, first: int, last: int, n: nat)
    requires n <= |s| && Sorted(s)
    ensures Sorted(InSpanTo(s, first, last, n))
    ensures InSpanTo(s, first, last, n) != [] ==> n > 0 && InSpanTo(s, first, last, n)[|InSpanTo(s, first, last, n)| - 1].ts <= s[n - 1].ts
  {
    if n > 0 {
      InSpanSorted(s, first, last, n - 1);
      assert n > 1 ==> Lt(s, n - 2, n - 1);
      if first <= s[n - 1].ts <= last {
        SortedConcat(InSpanTo(s, first, last, n - 1), [s[n - 1]]);
      } else {
        assert InSpanTo(s, first, last, n) == InSpanTo(s, first, last, n - 1);
      }
    }
  }

  /** A segment outside the range holds no row inside it. */
  lemma OutsideHoldsNone(s: Segment, start: int, end: int)
    requires SegmentOk(s) && !(s.last >= start && s.first <= end)
    ensures InSpan(s.data, start, end) == []
  {
    forall k: nat | k < |s.data| ensures Below(s.data, k, start) || Past(s.data, k, end) {
      SortedLe(s.data, 0, k);
      SortedLe(s.data, k, |s.data| - 1);
    }
    InSpanNone(s.data, start, end, |s.data|);
  }

  lemma {:induction false} OverlappingKeeps(segs: seq<Segment>, start: int, end: int)
    requires Ordered(segs)
    ensures Ordered(Overlapping(segs, start, end))
    ensures Overlapping(segs, start, end) != [] ==>
              segs != [] && LastOf(Overlapping(segs, start, end)) <= LastOf(segs)
              && segs[0].first <= Overlapping(segs, start, end)[0].first
    ensures InSpan(Data(Overlapping(segs, start, end)), start, end) == InSpan(Data(segs), start, end)
  {
    if segs != [] {
      var s, rest := segs[0], segs[1..];
      OrderedTail(segs);
      OverlappingKeeps(rest, start, end);
      OverlappingStep(s, rest, Overlapping(rest, start, end), start, end);
    }
  }

  /** Whether a segment's span meets the range. */
  predicate Meets(s: Segment, start: int, end: int) {
    start <= s.last && s.first <= end
  }

  /** The segments a range selects are exactly those whose span meets it, whole and in their order. */
  lemma {:induction false} OverlappingExact(segs: seq<Segment>, start: int, end: int) returns (idx: seq<nat>)
    ensures Picks(segs, Overlapping(segs, start, end), idx)
    ensures forall i: nat :: i < |segs| ==> (i in idx <==> segs[i].first <= end && start <= segs[i].last)
  {
    if segs == [] {
      idx := [];
    } else {
      var rest := OverlappingExact(segs[1..], start, end);
      var first := Meets(segs[0], start, end);
      idx := Shifted(rest, first);
      assert segs == [segs[0]] + segs[1..];
      ShiftPicks(segs[0], segs[1..], Overlapping(segs[1..], start, end), rest, first, segs, Overlapping(segs, start, end), idx);
    }
  }

  ghost predicate AllMeet(segs: seq<Segment>, start: int, end: int) {
    forall k: nat :: k < |segs| ==> MeetsAt(segs, k, start, end)
  }

  ghost predicate MeetsAt(segs: seq<Segment>, k: nat, start: int, end: int)
    requires k < |segs|
  {
    segs[k].first <= end && start <= segs[k].last
  }

  lemma OverlappingMeets(segs: seq<Segment>, start: int, end: int)
    ensures AllMeet(Overlapping(segs, start, end), start, end)
  {
    var idx := OverlappingExact(segs, start, end);
    var kept := Overlapping(segs, start, end);
    forall k: nat | k < |kept| ensures MeetsAt(kept, k, start, end) {
      assert PickedAt(segs, kept, idx, k);
      assert idx[k] in idx;
    }
  }

  /** A ranged read gives only segments that meet the range, whatever the encoder does. */
  lemma ReadMeets(enc: Encoder, t: Tables, start: int, end: int, out: seq<Segment>)
    requires Valid(t) && StreamRange(enc, t, start, end) == Ok(out)
    ensures AllMeet(out, start, end)
  {
    OverlappingMeets(t.segs, start, end);
    var segs, live := Overlapping(t.segs, start, end), LiveWal(t);
    var tail := InSpan(live, start, end);
    if tail != [] {
      InSpanMember(live, start, end, |live|, tail[0]);
      InSpanMember(live, start, end, |live|, tail[|tail| - 1]);
    }
    forall k: nat | k < |out| ensures MeetsAt(out, k, start, end) {
      assert k < |segs| ==> MeetsAt(segs, k, start, end);
    }
  }

  lemma {:induction false} InSpanMember(s: seq<WalRow>, first: int, last: int, n: nat, r: WalRow)
    requires n <= |s| && r in InSpanTo(s, first, last, n)
    ensures first <= r.ts <= last
  {
    if n > 0 && r in InSpanTo(s, first, last, n - 1) {
      InSpanMember(s, first, last, n - 1, r);
    }
  }

  /**
   * A ranged copy takes exactly the cataloged segments that meet the range and, after them, the
   * whole live tail as one segment exactly where the tail's span meets it.
   */
  lemma CopyMeets(enc: Encoder, t: Tables, start: int, end: int, out: seq<Segment>) returns (tail: seq<Segment>)
    requires CopySegments(enc, t, start, end) == Ok(out)
    ensures out == Overlapping(t.segs, start, end) + tail && AllMeet(Overlapping(t.segs, start, end), start, end)
    ensures tail != [] ==> LiveWal(t) != [] && Materialize(enc, [], LiveWal(t)) == Ok(Some(tail[0])) && |tail| == 1
    ensures tail != [] ==> LiveWal(t)[0].ts <= end && start <= LiveWal(t)[|LiveWal(t)| - 1].ts
    ensures LiveWal(t) != [] && LiveWal(t)[0].ts <= end && start <= LiveWal(t)[|LiveWal(t)| - 1].ts ==>
              tail != [] || Materialize(enc, [], LiveWal(t)) == Ok(None)
  {
    OverlappingMeets(t.segs, start, end);
    tail := out[|Overlapping(t.segs, start, end)|..];
  }

  lemma OrderedTail(segs: seq<Segment>)
    requires Ordered(segs) && segs != []
    ensures Ordered(segs[1..]) && SegmentOk(segs[0]) && segs[0].last <= LastOf(segs)
    ensures segs[1..] != [] ==> segs[0].last < segs[1..][0].first && LastOf(segs[1..]) == LastOf(segs) && segs[0].first <= segs[1..][0].first
  {
    OrderedSlice(segs, 1, |segs|);
    assert segs[1..|segs|] == segs[1..];
    OrderedEnds(segs, 0);
    if |segs| > 1 {
      assert EndsBefore(segs, 0, 1);
    }
  }

  lemma OverlappingStep(s: Segment, rest: seq<Segment>, kept: seq<Segment>, start: int, end: int)
    requires SegmentOk(s) && Ordered(kept) && InSpan(Data(kept), start, end) == InSpan(Data(rest), start, end)
    requires kept != [] ==> s.last < kept[0].first
    ensures Ordered([s] + kept)
    ensures InSpan(Data([s] + kept), start, end) == InSpan(Data([s] + rest), start, end)
    ensures !(s.last >= start && s.first <= end) ==> InSpan(Data(kept), start, end) == InSpan(Data([s] + rest), start, end)
  {
    OrderedOne(s);
    OrderedConcat([s], kept);
    assert Data([s] + kept) == s.data + Data(kept) && Data([s] + rest) == s.data + Data(rest) by {
      assert ([s] + kept)[1..] == kept && ([s] + rest)[1..] == rest;
    }
    InSpanConcat(s.data, Data(kept), start, end);
    InSpanConcat(s.data, Data(rest), start, end);
    if !(s.last >= start && s.first <= end) {
      OutsideHoldsNone(s, start, end);
      assert [] + InSpan(Data(rest), start, end) == InSpan(Data(rest), start, end);
    }
  }

  // ------------------------------------------------------------------ what a splice holds

  /** A tail placed after sealed segments: sound, in order, and holding a slice of the live rows. */
  lemma TailSpliced(enc: Encoder, segs: seq<Segment>, live: seq<WalRow>, out: seq<Segment>) returns (i: nat, j: nat)
    requires Ordered(segs) && Sorted(live) && (segs != [] && live != [] ==> LastOf(segs) < live[0].ts)
    requires WithTail(segs, Materialize(enc, [], live)) == Ok(out)
    ensures Ordered(out) && i <= j <= |live| && Data(out) == Data(segs) + live[i..j]
  {
    match Materialize(enc, [], live) {
      case Ok(Some(s)) =>
        i, j := MaterializeSlice(enc, [], live, s);
        DataConcat(segs, [s]);
        assert [s][0] == s && s.first >= live[0].ts;
        OrderedConcat(segs, [s]);
      case Ok(None) =>
        i, j := 0, 0;
        assert Data(segs) + live[0..0] == Data(segs);
    }
  }

  lemma TailWhole(enc: Encoder, segs: seq<Segment>, live: seq<WalRow>) returns (out: seq<Segment>)
    requires RowPreserving(enc)
    requires Ordered(segs) && Sorted(live) && (segs != [] && live != [] ==> LastOf(segs) < live[0].ts)
    ensures WithTail(segs, Materialize(enc, [], live)) == Ok(out)
    ensures Ordered(out) && Data(out) == Data(segs) + live
    ensures live == [] ==> out == segs
  {
    if live == [] {
      out := segs;
      assert Data(segs) + live == Data(segs);
    } else {
      RowPreservingWhole(enc, [], live);
      var s := Segment(|live|, live[0].ts, live[|live| - 1].ts, live);
      out := segs + [s];
      DataConcat(segs, [s]);
      DataOne(s);
      SortedLe(live, 0, |live| - 1);
      OrderedOne(s);
      OrderedConcat(segs, [s]);
    }
  }

  lemma SealedBeforeLive(t: Tables)
    requires Valid(t)
    ensures Sorted(LiveWal(t))
    ensures t.segs != [] && LiveWal(t) != [] ==> LastOf(t.segs) < LiveWal(t)[0].ts
  {
    LiveIs(t);
    LiveSorted(t);
    if t.segs != [] {
      FromSorted(t.wal, LastOf(t.segs) + 1);
      assert LiveWal(t) != [] ==> !Below(LiveWal(t), 0, LastOf(t.segs) + 1);
    }
  }

  /**
   * A reader's list is in time order with no row twice. Whatever the encoder, it holds every
   * sealed row and a slice of the live ones; with a row-preserving encoder, the stored view.
   */
  lemma ReaderSplice(enc: Encoder, t: Tables, out: seq<Segment>) returns (i: nat, j: nat)
    requires Valid(t) && StreamSegments(enc, t) == Ok(out)
    ensures Ordered(out) && Sorted(Data(out)) && i <= j <= |LiveWal(t)|
    ensures Data(out) == Data(t.segs) + LiveWal(t)[i..j]
    ensures RowPreserving(enc) ==> Data(out) == View(t)
  {
    SealedBeforeLive(t);
    i, j := TailSpliced(enc, t.segs, LiveWal(t), out);
    DataSorted(out);
    if RowPreserving(enc) {
      var _ := TailWhole(enc, t.segs, LiveWal(t));
    }
  }

  /** A ranged read holds every stored row in the range exactly once, in order. */
  lemma RangedRead(enc: Encoder, t: Tables, start: int, end: int) returns (out: seq<Segment>)
    requires Valid(t) && RowPreserving(enc)
    ensures StreamRange(enc, t, start, end) == Ok(out)
    ensures Ordered(out) && Sorted(Data(out))
    ensures InSpan(Data(out), start, end) == InSpan(View(t), start, end)
  {
    var segs, live := Overlapping(t.segs, start, end), LiveWal(t);
    var tail := InSpan(live, start, end);
    SealedBeforeLive(t);
    OverlappingKeeps(t.segs, start, end);
    InSpanSorted(live, start, end, |live|);
    InSpanFirst(live, start, end, |live|);
    out := TailWhole(enc, segs, tail);
    DataSorted(out);
    InSpanConcat(Data(segs), tail, start, end);
    InSpanTwice(live, start, end, |live|);
    InSpanConcat(Data(t.segs), live, start, end);
  }

  lemma {:induction false} InSpanFirst(s: seq<WalRow>, first: int, last: int, n: nat)
    requires n <= |s| && Sorted(s)
    ensures InSpanTo(s, first, last, n) != [] ==> s != [] && s[0].ts <= InSpanTo(s, first, last, n)[0].ts
  {
    if n > 0 {
      InSpanFirst(s, first, last, n - 1);
      SortedLe(s, 0, n - 1);
    }
  }

  // ------------------------------------------------------------------ copies

  /** A copy is a sound archive with dense numbers and nothing unsealed, whatever the encoder does. */
  lemma CopySound(enc: Encoder, t: Tables, start: int, end: int, t': Tables)
    requires Valid(t) && CopyStream(enc, t, start, end) == Ok(t')
    ensures Valid(t') && t'.wal == [] && LiveWal(t') == []
    ensures forall i :: 0 <= i < |t'.nums| ==> t'.nums[i] == i
  {
    SealedBeforeLive(t);
    OverlappingKeeps(t.segs, start, end);
    var segs, live := Overlapping(t.segs, start, end), LiveWal(t);
    if TailInRange(live, start, end) {
      var _, _ := TailSpliced(enc, segs, live, t'.segs);
    }
    LiveIs(t');
  }

  /** A ranged copy holds every stored row in the range exactly once, in order. */
  lemma RangedCopy(enc: Encoder, t: Tables, start: int, end: int) returns (t': Tables)
    requires Valid(t) && RowPreserving(enc)
    ensures CopyStream(enc, t, start, end) == Ok(t')
    ensures Valid(t') && Sorted(View(t'))
    ensures InSpan(View(t'), start, end) == InSpan(View(t), start, end)
  {
    var segs, live := Overlapping(t.segs, start, end), LiveWal(t);
    SealedBeforeLive(t);
    OverlappingKeeps(t.segs, start, end);
    InSpanConcat(Data(t.segs), live, start, end);
    if TailInRange(live, start, end) {
      var out := TailWhole(enc, segs, live);
      InSpanConcat(Data(segs), live, start, end);
    } else {
      TailOutside(live, start, end);
      assert InSpan(Data(t.segs), start, end) + [] == InSpan(Data(t.segs), start, end);
    }
    t' := CopyStream(enc, t, start, end).value;
    CopySound(enc, t, start, end, t');
    ViewSorted(t');
    assert View(t') == Data(t'.segs);
  }

  lemma TailOutside(live: seq<WalRow>, start: int, end: int)
    requires Sorted(live) && !TailInRange(live, start, end)
    ensures InSpan(live, start, end) == []
  {
    forall k: nat | k < |live| ensures Below(live, k, start) || Past(live, k, end) {
      SortedLe(live, 0, k);
      SortedLe(live, k, |live| - 1);
    }
    InSpanNone(live, start, end, |live|);
  }

  /** Timestamps in the catalog and in the WAL are 64-bit. */
  ghost predicate Widths(t: Tables) {
    && (forall i: nat :: i < |t.segs| ==> WideAt(t.segs, i))
    && (forall i: nat :: i < |LiveWal(t)| ==> !Below(LiveWal(t), i, I64_MIN) && !Past(LiveWal(t), i, I64_MAX))
  }

  ghost predicate WideAt(segs: seq<Segment>, i: nat)
    requires i < |segs|
  {
    I64_MIN <= segs[i].last && segs[i].first <= I64_MAX
  }

  lemma {:induction false} OverlappingAll(segs: seq<Segment>)
    requires forall i: nat :: i < |segs| ==> WideAt(segs, i)
    ensures Overlapping(segs, I64_MIN, I64_MAX) == segs
  {
    if segs != [] {
      assert WideAt(segs, 0);
      forall i: nat | i < |segs| - 1 ensures WideAt(segs[1..], i) {
        assert WideAt(segs, i + 1);
      }
      OverlappingAll(segs[1..]);
    }
  }

  /**
   * `CopySpec::everything` with a row-preserving encoder: the copy has its source's stored
   * view, densely numbered segments and no live tail.
   */
  lemma EverythingCopy(enc: Encoder, t: Tables) returns (t': Tables)
    requires Valid(t) && Widths(t) && RowPreserving(enc)
    ensures CopyStream(enc, t, I64_MIN, I64_MAX) == Ok(t')
    ensures Valid(t') && View(t') == View(t) && LiveWal(t') == [] && t'.wal == []
    ensures forall i :: 0 <= i < |t'.nums| ==> t'.nums[i] == i
    ensures t.segs <= t'.segs
  {
    var live := LiveWal(t);
    OverlappingAll(t.segs);
    SealedBeforeLive(t);
    var out := TailWhole(enc, t.segs, live);
    if live != [] {
      assert !Below(live, |live| - 1, I64_MIN) && !Past(live, 0, I64_MAX);
    }
    t' := CopyStream(enc, t, I64_MIN, I64_MAX).value;
    CopySound(enc, t, I64_MIN, I64_MAX, t');
  }

  /** The destination's segments of a stream, numbered as they are inserted. */
  method CopyStreamLoop(enc: Encoder, t: Tables, start: int, end: int) returns (r: Result<Tables>)
    ensures r == CopyStream(enc, t, start, end)
  {
    var segs := Overlapping(t.segs, start, end);
    var out: seq<Segment>, nums: seq<nat> := [], [];
    var number := 0;
    for i := 0 to |segs|
      invariant out == segs[..i] && number == i && nums == Numbers(0, i)
    {
      out, nums, number := out + [segs[i]], nums + [number], number + 1;
    }
    assert segs[..|segs|] == segs;
    var live := LiveWal(t);
    if live == [] || live[|live| - 1].ts < start || live[0].ts > end {
      return Ok(Tables([], out, nums));
    }
    var tail := Materialize(enc, [], live);
    match tail {
      case Err => return Err;
      case Ok(None) =>
      case Ok(Some(s)) => out, nums := out + [s], nums + [number];
    }
    assert nums == Numbers(0, |out|);
    return Ok(Tables([], out, nums));
  }

  // ------------------------------------------------------------------ the caller's own rows

  /** `read_caller_rows`: the rows of one name with timestamps in the range, in order. */
  function RowsIn(rows: seq<CallerRow>, start: int, end: int): seq<CallerRow> {
    if rows == [] then [] else
    (if start <= rows[0].ts <= end then [rows[0]] else []) + RowsIn(rows[1..], start, end)
  }

  /** A ranged copy of a name holds each of its rows in the range as often as the name did, and no other. */
  lemma {:induction false} RowsInExact(rows: seq<CallerRow>, start: int, end: int, r: CallerRow)
    ensures multiset(RowsIn(rows, start, end))[r] == if start <= r.ts <= end then multiset(rows)[r] else 0
  {
    if rows != [] {
      RowsInExact(rows[1..], start, end, r);
      assert rows == [rows[0]] + rows[1..];
    }
  }

  /** And with no bound, the rows themselves. */
  lemma {:induction false} RowsInAll(rows: seq<CallerRow>)
    requires forall i :: 0 <= i < |rows| ==> I64_MIN <= rows[i].ts <= I64_MAX
    ensures RowsIn(rows, I64_MIN, I64_MAX) == rows
  {
    if rows != [] {
      RowsInAll(rows[1..]);
      assert rows == [rows[0]] + rows[1..];
    }
  }

  /** One source of a copy: its streams, and the caller's rows by their own names. */
  datatype Copied = Copied(tables: map<Text, Tables>, callers: map<Text, seq<CallerRow>>)

  function CallersUnder(callers: map<Key, seq<CallerRow>>, source: int, name: Text): seq<CallerRow> {
    if (source, name) in callers then callers[(source, name)] else []
  }

  /**
   * `copy_sources_snapshotted` for one source: every stream and every caller name the filter keeps,
   * under the destination's id for the source; refused for another encoder's source. `names` and
   * `callerNames` are the source's streams and caller names, each once.
   */
  method CopySource(
    m: Streams, callers: map<Key, seq<CallerRow>>, source: int, names: seq<Text>, callerNames: seq<Text>, keep: Text -> bool,
    start: int, end: int, encs: Text -> Encoder, wrote: Option<Text>, reading: Option<Text>)
    returns (r: Result<Copied>)
    requires Distinct(names) && Distinct(callerNames)
    ensures r.Err? <==> (wrote.Some? && reading.Some? && wrote.value != reading.value)
                        || exists name :: name in names && keep(name) && CopyStream(encs(name), At(m, (source, name)).t, start, end).Err?
    ensures r.Ok? ==> forall name :: name in r.value.tables <==> name in names && keep(name)
    ensures r.Ok? ==> forall name :: name in r.value.tables ==>
              CopyStream(encs(name), At(m, (source, name)).t, start, end) == Ok(r.value.tables[name])
    ensures r.Ok? ==> forall name :: name in r.value.callers <==> name in callerNames && keep(name)
    ensures r.Ok? ==> forall name :: name in r.value.callers ==>
              r.value.callers[name] == RowsIn(CallersUnder(callers, source, name), start, end)
  {
    if !SameEncoder(wrote, reading) {
      return Err;
    }
    var tables: map<Text, Tables> := map[];
    for i := 0 to |names|
      invariant forall name :: name in tables <==> name in names[..i] && keep(name)
      invariant forall name :: name in tables ==>
                CopyStream(encs(name), At(m, (source, name)).t, start, end) == Ok(tables[name])
    {
      var name := names[i];
      if keep(name) {
        var one := CopyStreamLoop(encs(name), At(m, (source, name)).t, start, end);
        if one.Err? {
          return Err;
        }
        tables := tables[name := one.value];
      }
      assert names[..i + 1] == names[..i] + [name];
    }
    assert names[..|names|] == names;
    var kept := CopyCallers(callers, source, callerNames, keep, start, end);
    return Ok(Copied(tables, kept));
  }

  method CopyCallers(
    callers: map<Key, seq<CallerRow>>, source: int, names: seq<Text>, keep: Text -> bool, start: int, end: int)
    returns (out: map<Text, seq<CallerRow>>)
    ensures forall name :: name in out <==> name in names && keep(name)
    ensures forall name :: name in out ==> out[name] == RowsIn(CallersUnder(callers, source, name), start, end)
  {
    out := map[];
    for i := 0 to |names|
      invariant forall name :: name in out <==> name in names[..i] && keep(name)
      invariant forall name :: name in out ==> out[name] == RowsIn(CallersUnder(callers, source, name), start, end)
    {
      var name := names[i];
      if keep(name) {
        out := out[name := RowsIn(CallersUnder(callers, source, name), start, end)];
      }
      assert names[..i + 1] == names[..i] + [name];
    }
    assert names[..|names|] == names;
  }
}
