/** Segments and the contract an encoder is held to (src/segment.rs), and the capped seal. */
module Encoding {
  import opened Types
  import opened Rows

  /**
   * A sealed segment. `data` is what its opaque bytes hold: the WAL rows it was encoded
   * from. The other three are what the catalog records about it.
   */
  datatype Segment = Segment(rows: nat, first: int, last: int, data: seq<WalRow>)

  /** What the caller's encoder answers: no segment, a failure, or a claim about one. */
  datatype Answer = NoSegment | Failed | Claim(rows: nat, first: int, last: int)

  /** `encode_after(before, rows)`; an empty `before` is `encode(rows)`. */
  type Encoder = (seq<WalRow>, seq<WalRow>) -> Answer

  /** The rows whose timestamps lie in `[first, last]`. */
  function InSpan(s: seq<WalRow>, first: int, last: int): seq<WalRow> {
    InSpanTo(s, first, last, |s|)
  }

  function InSpanTo(s: seq<WalRow>, first: int, last: int, n: nat): seq<WalRow>
    requires n <= |s|
  {
    if n == 0 then [] else
    InSpanTo(s, first, last, n - 1) + if first <= s[n - 1].ts <= last then [s[n - 1]] else []
  }

  /** `materialize_after`: run the encoder and check contiguity by counting. */
  function Materialize(enc: Encoder, before: seq<WalRow>, rows: seq<WalRow>): Result<Option<Segment>> {
    if rows == [] then Ok(None) else
    match enc(before, rows)
    case NoSegment => Ok(None)
    case Failed => Err
    case Claim(n, first, last) =>
      if n == 0 || first > last || first < rows[0].ts || last > rows[|rows| - 1].ts
         || n != |InSpan(rows, first, last)|
      then Err
      else Ok(Some(Segment(n, first, last, InSpan(rows, first, last))))
  }

  /** A segment whose catalog facts agree with its rows. */
  ghost predicate SegmentOk(s: Segment) {
    && s.rows == |s.data| > 0
    && Sorted(s.data)
    && s.first <= s.data[0].ts
    && s.data[|s.data| - 1].ts <= s.last
  }

  ghost predicate SoundAt(segs: seq<Segment>, i: nat)
    requires i < |segs|
  {
    SegmentOk(segs[i])
  }

  ghost predicate EndsBefore(segs: seq<Segment>, i: nat, j: nat)
    requires i < |segs| && j < |segs|
  {
    segs[i].last < segs[j].first
  }

  /** Every segment sound, and each wholly before the next. */
  ghost predicate Ordered(segs: seq<Segment>) {
    && (forall i: nat :: i < |segs| ==> SoundAt(segs, i))
    && (forall i: nat, j: nat :: i < j < |segs| ==> EndsBefore(segs, i, j))
  }

  lemma SpanNonEmpty(s: Segment)
    requires SegmentOk(s)
    ensures s.first <= s.last
  {
    SortedLe(s.data, 0, |s.data| - 1);
  }

  /** Any segment lies between the first and the last. */
  lemma OrderedEnds(a: seq<Segment>, i: nat)
    requires Ordered(a) && i < |a|
    ensures SegmentOk(a[i])
    ensures a[0].first <= a[i].first <= a[i].last <= a[|a| - 1].last
  {
    assert SoundAt(a, i) && SoundAt(a, 0) && SoundAt(a, |a| - 1);
    SpanNonEmpty(a[i]);
    SpanNonEmpty(a[|a| - 1]);
    SpanNonEmpty(a[0]);
    assert i > 0 ==> EndsBefore(a, 0, i);
    assert i < |a| - 1 ==> EndsBefore(a, i, |a| - 1);
  }

  lemma OrderedSlice(segs: seq<Segment>, i: nat, j: nat)
    requires Ordered(segs) && i <= j <= |segs|
    ensures Ordered(segs[i..j])
  {
    var s := segs[i..j];
    forall a: nat | a < |s| ensures SoundAt(s, a) {
      assert SoundAt(segs, i + a);
    }
    forall a: nat, b: nat | a < b < |s| ensures EndsBefore(s, a, b) {
      assert EndsBefore(segs, i + a, i + b);
    }
  }

  lemma OrderedOne(s: Segment)
    requires SegmentOk(s)
    ensures Ordered([s])
  {}

  lemma OrderedConcat(a: seq<Segment>, b: seq<Segment>)
    requires Ordered(a) && Ordered(b)
    requires a != [] && b != [] ==> a[|a| - 1].last < b[0].first
    ensures Ordered(a + b)
  {
    var c := a + b;
    forall i: nat | i < |c| ensures SoundAt(c, i) {
      assert if i < |a| then SoundAt(a, i) else SoundAt(b, i - |a|);
    }
    forall i: nat, j: nat | i < j < |c| ensures EndsBefore(c, i, j) {
      if j < |a| {
        assert EndsBefore(a, i, j);
      } else if i >= |a| {
        assert EndsBefore(b, i - |a|, j - |a|);
      } else {
        OrderedEnds(a, i);
        OrderedEnds(b, j - |a|);
      }
    }
  }

  /** The rows a list of segments holds, in segment order. */
  function Data(segs: seq<Segment>): seq<WalRow> {
    if segs == [] then [] else segs[0].data + Data(segs[1..])
  }

  /** The end of the last segment. */
  function LastOf(segs: seq<Segment>): int
    requires segs != []
  {
    segs[|segs| - 1].last
  }

  /** The segments hold exactly `rows[i..j]`, and their span reaches no row outside it. */
  ghost predicate Covers(segs: seq<Segment>, rows: seq<WalRow>, i: nat, j: nat) {
    && segs != [] && Ordered(segs)
    && i < j <= |rows|
    && Data(segs) == rows[i..j]
    && (forall k: nat :: k < i ==> Below(rows, k, segs[0].first))
    && (forall k: nat :: j <= k < |rows| ==> Past(rows, k, LastOf(segs)))
  }

  lemma {:induction false} DataConcat(a: seq<Segment>, b: seq<Segment>)
    ensures Data(a + b) == Data(a) + Data(b)
  {
    if a == [] {
      assert a + b == b;
    } else {
      assert (a + b)[1..] == a[1..] + b;
      DataConcat(a[1..], b);
    }
  }

  lemma {:induction false} DataOne(s: Segment)
    ensures Data([s]) == s.data
  {
    assert [s][1..] == [];
  }

  /** Ordered segments hold sorted rows inside the outer span. */
  lemma {:induction false} DataSorted(segs: seq<Segment>)
    requires Ordered(segs)
    ensures Sorted(Data(segs))
    ensures segs != [] ==> Data(segs) != []
    ensures forall k :: 0 <= k < |Data(segs)| ==> segs[0].first <= Data(segs)[k].ts <= segs[|segs| - 1].last
  {
    if segs != [] {
      var s, rest := segs[0], segs[1..];
      OrderedSlice(segs, 1, |segs|);
      assert segs[1..|segs|] == rest;
      DataSorted(rest);
      OrderedEnds(segs, 0);
      if rest != [] {
        OrderedEnds(segs, 1);
        assert EndsBefore(segs, 0, 1);
        assert s.data[|s.data| - 1].ts < Data(rest)[0].ts;
        SortedConcat(s.data, Data(rest));
      } else {
        assert s.data + Data(rest) == s.data;
      }
      forall k: nat | k < |s.data| ensures s.first <= s.data[k].ts <= s.last {
        SortedLe(s.data, 0, k);
        SortedLe(s.data, k, |s.data| - 1);
      }
      assert Data(segs) == s.data + Data(rest);
    }
  }

  lemma {:induction false} InSpanToIs(s: seq<WalRow>, first: int, last: int, i: nat, j: nat, n: nat)
    requires i <= j <= |s| && n <= |s|
    requires forall k: nat :: k < |s| ==> (Below(s, k, first) <==> k < i)
    requires forall k: nat :: k < |s| ==> (Past(s, k, last) <==> k >= j)
    ensures InSpanTo(s, first, last, n) == s[Min(i, n)..Min(j, n)]
  {
    if n > 0 {
      InSpanToIs(s, first, last, i, j, n - 1);
      assert Below(s, n - 1, first) == (n - 1 < i) && Past(s, n - 1, last) == (n - 1 >= j);
    }
  }

  lemma InSpanIsSlice(s: seq<WalRow>, first: int, last: int, i: nat, j: nat)
    requires i <= j <= |s|
    requires forall k: nat :: k < |s| ==> (Below(s, k, first) <==> k < i)
    requires forall k: nat :: k < |s| ==> (Past(s, k, last) <==> k >= j)
    ensures InSpan(s, first, last) == s[i..j]
  {
    InSpanToIs(s, first, last, i, j, |s|);
  }

  /**
   * The counting check is enough: an accepted segment holds one contiguous slice of its
   * input, so only a leading and a trailing run can be missing from it.
   */
  lemma MaterializeSlice(enc: Encoder, before: seq<WalRow>, rows: seq<WalRow>, s: Segment)
    returns (i: nat, j: nat)
    requires Sorted(rows)
    requires Materialize(enc, before, rows) == Ok(Some(s))
    ensures Covers([s], rows, i, j) && s.rows == j - i
  {
    i, j := SpanIndices(rows, s.first, s.last);
    InSpanIsSlice(rows, s.first, s.last, i, j);
    DataOne(s);
    SortedSlice(rows, i, j);
    assert s.data[0] == rows[i] && s.data[|s.data| - 1] == rows[j - 1];
    var atI, atJ := Below(rows, i, s.first), Past(rows, j - 1, s.last);
    OrderedOne(s);
  }

  /** Which indices of sorted rows a span holds. */
  lemma SpanIndices(rows: seq<WalRow>, first: int, last: int) returns (i: nat, j: nat)
    requires Sorted(rows) && first <= last
    ensures i <= j <= |rows|
    ensures forall k: nat :: k < |rows| ==> (Below(rows, k, first) <==> k < i)
    ensures forall k: nat :: k < |rows| ==> (Past(rows, k, last) <==> k >= j)
  {
    i := CutExists(rows, first);
    j := CutExists(rows, last + 1);
    var atJ := j < |rows| && Below(rows, j, first);
    forall k: nat | k < |rows| ensures Below(rows, k, first) <==> k < i {
      if k >= i {
        SortedLe(rows, i, k);
      }
    }
    forall k: nat | k < |rows| ensures Past(rows, k, last) <==> k >= j {
      if k >= j {
        SortedLe(rows, j, k);
      } else {
        assert Below(rows, k, last + 1);
      }
    }
  }

  /** Whether a part of a split shares its inner edges with its neighbours. */
  predicate TilesEdges(s: Segment, rows: seq<WalRow>, start: nat, end: nat)
    requires start < end <= |rows|
  {
    && (start == 0 || s.first == rows[start].ts)
    && (end == |rows| || s.last == rows[end - 1].ts)
  }

  /** The parts of a split from `start` on, or `None` when a part abandons the split. */
  function SplitFrom(enc: Encoder, rows: seq<WalRow>, maxRows: nat, start: nat): Result<Option<seq<Segment>>>
    requires maxRows > 0
    decreases |rows| - start
  {
    if start >= |rows| then Ok(Some([])) else
    var end := Min(|rows|, start + maxRows);
    match Materialize(enc, rows[..start], rows[start..end])
    case Err => Err
    case Ok(None) => Ok(None)
    case Ok(Some(s)) =>
      if !TilesEdges(s, rows, start, end) then Ok(None) else
      Prepend([s], SplitFrom(enc, rows, maxRows, end))
  }

  function Prepend(parts: seq<Segment>, rest: Result<Option<seq<Segment>>>): Result<Option<seq<Segment>>> {
    match rest
    case Err => Err
    case Ok(None) => Ok(None)
    case Ok(Some(r)) => Ok(Some(parts + r))
  }

  lemma PrependTwice(parts: seq<Segment>, s: Segment, rest: Result<Option<seq<Segment>>>)
    ensures Prepend(parts, Prepend([s], rest)) == Prepend(parts + [s], rest)
    ensures Prepend([], rest) == rest
  {
    match rest {
      case Ok(Some(r)) =>
        assert parts + ([s] + r) == parts + [s] + r && [] + r == r;
      case _ =>
    }
  }

  /** The unsplit seal: at most one segment. */
  function Unsplit(enc: Encoder, rows: seq<WalRow>): Result<seq<Segment>> {
    match Materialize(enc, [], rows)
    case Err => Err
    case Ok(None) => Ok([])
    case Ok(Some(s)) => Ok([s])
  }

  /** Whether the split is kept: there is more than one part and none abandons it. */
  predicate SplitKept(enc: Encoder, rows: seq<WalRow>, maxRows: nat) {
    var cap := Max(maxRows, 1);
    |rows| > cap && SplitFrom(enc, rows, cap, 0).Ok? && SplitFrom(enc, rows, cap, 0).value.Some?
  }

  /** `split_seal`, as a value. */
  function SplitSeal(enc: Encoder, rows: seq<WalRow>, maxRows: nat): Result<seq<Segment>> {
    var cap := Max(maxRows, 1);
    if |rows| <= cap then Unsplit(enc, rows) else
    match SplitFrom(enc, rows, cap, 0)
    case Err => Err
    case Ok(None) => Unsplit(enc, rows)
    case Ok(Some(parts)) => Ok(parts)
  }

  /** A segment covering up to a cut, and segments covering on from it, cover the whole. */
  lemma JoinCovers(s: Segment, rest: seq<Segment>, rows: seq<WalRow>, i: nat, cut: nat, j: nat)
    requires Covers([s], rows, i, cut)
    requires Covers(rest, rows, cut, j) && rest[0].first == rows[cut].ts
    ensures Covers([s] + rest, rows, i, j)
  {
    DataConcat([s], rest);
    assert rows[i..j] == rows[i..cut] + rows[cut..j];
    assert [s][0] == s && LastOf([s]) == s.last && LastOf([s] + rest) == LastOf(rest);
    assert Past(rows, cut, s.last);
    OrderedConcat([s], rest);
  }

  lemma SliceOfSlice(rows: seq<WalRow>, start: nat, end: nat, a: nat, b: nat)
    requires start <= end <= |rows| && a <= b <= end - start
    ensures rows[start..end][a..b] == rows[start + a..start + b]
  {
    var part := rows[start..end];
    forall k | 0 <= k < b - a ensures part[a..b][k] == rows[start + a..start + b][k] {
      assert part[a + k] == rows[start + a + k];
    }
  }

  /** What covers a part that it tiles covers the same rows of the whole. */
  lemma LiftCovers(s: Segment, rows: seq<WalRow>, start: nat, end: nat, a: nat, b: nat)
    requires start < end <= |rows| && Covers([s], rows[start..end], a, b)
    requires forall k: nat :: k < start ==> Below(rows, k, s.first)
    requires forall k: nat :: end <= k < |rows| ==> Past(rows, k, s.last)
    ensures Covers([s], rows, start + a, start + b)
  {
    var part := rows[start..end];
    assert LastOf([s]) == s.last;
    SliceOfSlice(rows, start, end, a, b);
    forall k: nat | k < start + a ensures Below(rows, k, s.first) {
      assert k >= start ==> Below(part, k - start, s.first);
    }
    forall k: nat | start + b <= k < |rows| ensures Past(rows, k, s.last) {
      assert k < end ==> Past(part, k - start, s.last);
    }
  }

  /** A part that tiles its edges covers its rows up to each inner edge. */
  lemma PartCovers(enc: Encoder, rows: seq<WalRow>, start: nat, end: nat, s: Segment) returns (i: nat, j: nat)
    requires Sorted(rows) && start < end <= |rows|
    requires Materialize(enc, rows[..start], rows[start..end]) == Ok(Some(s))
    requires TilesEdges(s, rows, start, end)
    ensures Covers([s], rows, i, j) && start <= i && s.rows == j - i <= end - start
    ensures start > 0 ==> i == start
    ensures end < |rows| ==> j == end
  {
    var part := rows[start..end];
    SortedSlice(rows, start, end);
    var a, b := MaterializeSlice(enc, rows[..start], part, s);
    assert [s][0] == s && LastOf([s]) == s.last;
    assert part[0] == rows[start] && part[|part| - 1] == rows[end - 1];
    i, j := start + a, start + b;
    var atStart := Below(part, 0, s.first);
    var atEnd := Past(part, |part| - 1, s.last);
    forall k: nat | k < start ensures Below(rows, k, s.first) {
      assert Lt(rows, k, start);
    }
    forall k: nat | end <= k < |rows| ensures Past(rows, k, s.last) {
      assert Lt(rows, end - 1, k);
    }
    LiftCovers(s, rows, start, end, a, b);
  }

  lemma SplitUnfold(enc: Encoder, rows: seq<WalRow>, maxRows: nat, start: nat, parts: seq<Segment>)
    returns (s: Segment, rest: seq<Segment>)
    requires maxRows > 0 && start < |rows|
    requires SplitFrom(enc, rows, maxRows, start) == Ok(Some(parts))
    ensures var end := Min(|rows|, start + maxRows);
            && Materialize(enc, rows[..start], rows[start..end]) == Ok(Some(s))
            && TilesEdges(s, rows, start, end)
            && SplitFrom(enc, rows, maxRows, end) == Ok(Some(rest))
            && parts == [s] + rest
            && (end == |rows| ==> rest == [])
  {
    var end := Min(|rows|, start + maxRows);
    s := Materialize(enc, rows[..start], rows[start..end]).value.value;
    rest := SplitFrom(enc, rows, maxRows, end).value.value;
  }

  ghost predicate Capped(parts: seq<Segment>, maxRows: nat) {
    forall k :: 0 <= k < |parts| ==> parts[k].rows <= maxRows
  }

  /** Parts from `start` on tile the rows with no gap at an inner edge. */
  lemma {:induction false} SplitTiles(
    enc: Encoder, rows: seq<WalRow>, maxRows: nat, start: nat, parts: seq<Segment>) returns (i: nat, j: nat)
    requires Sorted(rows) && maxRows > 0 && start < |rows|
    requires SplitFrom(enc, rows, maxRows, start) == Ok(Some(parts))
    ensures Covers(parts, rows, i, j) && Capped(parts, maxRows)
    ensures start > 0 ==> i == start && parts[0].first == rows[start].ts
    decreases |rows| - start
  {
    var end := Min(|rows|, start + maxRows);
    var s, rest := SplitUnfold(enc, rows, maxRows, start, parts);
    i, j := PartCovers(enc, rows, start, end, s);
    if end == |rows| {
      assert parts == [s];
    } else {
      var _, rj := SplitTiles(enc, rows, maxRows, end, rest);
      JoinCovers(s, rest, rows, i, end, rj);
      j := rj;
    }
  }

  /** Past the last segment's end lies exactly what the segments left at the tail. */
  lemma CoversTail(parts: seq<Segment>, rows: seq<WalRow>, i: nat, j: nat)
    requires Sorted(rows) && Covers(parts, rows, i, j)
    ensures From(rows, LastOf(parts) + 1) == rows[j..]
  {
    DataSorted(parts);
    var c := LastOf(parts) + 1;
    assert Data(parts)[j - 1 - i] == rows[j - 1];
    forall k: nat | k < j ensures Below(rows, k, c) {
      SortedLe(rows, k, j - 1);
    }
    assert j < |rows| ==> Past(rows, j, LastOf(parts));
    FromIs(rows, c, j);
  }

  /**
   * A capped seal is as safe as an uncapped one. Whatever the encoder answers, a seal that
   * succeeds with segments holds one contiguous slice of the rows, so what lies at or below
   * its last timestamp is that slice and a leading run. Kept splits obey the cap; any other
   * result is the unsplit seal.
   */
  lemma SplitSealCovers(enc: Encoder, rows: seq<WalRow>, maxRows: nat, parts: seq<Segment>)
    returns (i: nat, j: nat)
    requires Sorted(rows)
    requires SplitSeal(enc, rows, maxRows) == Ok(parts) && parts != []
    ensures Covers(parts, rows, i, j)
    ensures From(rows, LastOf(parts) + 1) == rows[j..]
    ensures if SplitKept(enc, rows, maxRows)
            then Capped(parts, Max(maxRows, 1))
            else Ok(parts) == Unsplit(enc, rows) && |parts| == 1
  {
    if SplitKept(enc, rows, maxRows) {
      i, j := SplitTiles(enc, rows, Max(maxRows, 1), 0, parts);
    } else {
      i, j := MaterializeSlice(enc, [], rows, parts[0]);
      assert parts == [parts[0]];
    }
    CoversTail(parts, rows, i, j);
  }

  /** `check_encoder`: refused only where both sides name a version and the two differ. */
  predicate SameEncoder(wrote: Option<Text>, reading: Option<Text>) {
    wrote.Some? && reading.Some? ==> wrote.value == reading.value
  }

  /** An encoder that drops nothing and never fails. */
  ghost predicate RowPreserving(enc: Encoder) {
    forall before: seq<WalRow>, rows: seq<WalRow> :: rows != [] ==>
      enc(before, rows) == Claim(|rows|, rows[0].ts, rows[|rows| - 1].ts)
  }

  lemma RowPreservingWhole(enc: Encoder, before: seq<WalRow>, rows: seq<WalRow>)
    requires RowPreserving(enc) && Sorted(rows) && rows != []
    ensures Materialize(enc, before, rows) == Ok(Some(Segment(|rows|, rows[0].ts, rows[|rows| - 1].ts, rows)))
  {
    forall k: nat | k < |rows| ensures !Below(rows, k, rows[0].ts) {
      SortedLe(rows, 0, k);
    }
    var last := rows[|rows| - 1].ts;
    forall k: nat | k < |rows| ensures !Past(rows, k, last) {
      SortedLe(rows, k, |rows| - 1);
    }
    InSpanIsSlice(rows, rows[0].ts, rows[|rows| - 1].ts, 0, |rows|);
    assert rows[0..|rows|] == rows;
    assert enc(before, rows) == Claim(|rows|, rows[0].ts, rows[|rows| - 1].ts);
    SortedLe(rows, 0, |rows| - 1);
  }

  lemma RowPreservingPart(enc: Encoder, rows: seq<WalRow>, start: nat, end: nat) returns (s: Segment)
    requires RowPreserving(enc) && Sorted(rows) && start < end <= |rows|
    ensures Materialize(enc, rows[..start], rows[start..end]) == Ok(Some(s)) && TilesEdges(s, rows, start, end)
    ensures s.first == rows[start].ts && s.last == rows[end - 1].ts
  {
    var part := rows[start..end];
    SortedSlice(rows, start, end);
    RowPreservingWhole(enc, rows[..start], part);
    s := Segment(|part|, part[0].ts, part[|part| - 1].ts, part);
  }

  lemma {:induction false} RowPreservingParts(enc: Encoder, rows: seq<WalRow>, maxRows: nat, start: nat)
    returns (parts: seq<Segment>)
    requires RowPreserving(enc) && Sorted(rows) && maxRows > 0 && start < |rows|
    ensures SplitFrom(enc, rows, maxRows, start) == Ok(Some(parts)) && parts != []
    ensures parts[0].first == rows[start].ts && LastOf(parts) == rows[|rows| - 1].ts
    decreases |rows| - start
  {
    var end := Min(|rows|, start + maxRows);
    var s := RowPreservingPart(enc, rows, start, end);
    if end == |rows| {
      assert SplitFrom(enc, rows, maxRows, end) == Ok(Some([]));
      parts := [s] + [];
    } else {
      var rest := RowPreservingParts(enc, rows, maxRows, end);
      parts := [s] + rest;
    }
  }

  /** A row-preserving encoder's seal, capped or not, holds every row it was given. */
  lemma RowPreservingSeal(enc: Encoder, rows: seq<WalRow>, maxRows: nat) returns (parts: seq<Segment>)
    requires RowPreserving(enc) && Sorted(rows) && rows != []
    ensures SplitSeal(enc, rows, maxRows) == Ok(parts) && parts != []
    ensures Covers(parts, rows, 0, |rows|)
    ensures Data(parts) == rows
    ensures LastOf(parts) == rows[|rows| - 1].ts
  {
    var cap := Max(maxRows, 1);
    RowPreservingWhole(enc, [], rows);
    if |rows| <= cap {
      parts := [Materialize(enc, [], rows).value.value];
    } else {
      parts := RowPreservingParts(enc, rows, cap, 0);
    }
    var i, j := SplitSealCovers(enc, rows, maxRows, parts);
    assert i > 0 ==> Below(rows, 0, parts[0].first);
    assert j < |rows| ==> Past(rows, |rows| - 1, LastOf(parts));
    assert rows[0..|rows|] == rows;
  }

  /** `split_seal` (src/writer.rs:2607-2645): the loop over parts. */
  method SplitSealLoop(enc: Encoder, rows: seq<WalRow>, maxRows: nat) returns (r: Result<seq<Segment>>)
    ensures r == SplitSeal(enc, rows, maxRows)
  {
    var cap := Max(maxRows, 1);
    if |rows| <= cap {
      return Unsplit(enc, rows);
    }
    var parts: seq<Segment> := [];
    var start := 0;
    PrependTwice([], Segment(0, 0, 0, []), SplitFrom(enc, rows, cap, 0));
    while start < |rows|
      invariant start <= |rows|
      invariant SplitFrom(enc, rows, cap, 0) == Prepend(parts, SplitFrom(enc, rows, cap, start))
    {
      var end := Min(|rows|, start + cap);
      var segment := Materialize(enc, rows[..start], rows[start..end]);
      if segment.Err? {
        return Err;
      }
      if segment.value.None? || !TilesEdges(segment.value.value, rows, start, end) {
        return Unsplit(enc, rows);
      }
      PrependTwice(parts, segment.value.value, SplitFrom(enc, rows, cap, end));
      parts := parts + [segment.value.value];
      start := end;
    }
    assert parts + [] == parts;
    return Ok(parts);
  }
}
