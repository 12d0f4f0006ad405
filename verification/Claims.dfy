/**
 * Which of an encoder's claims a seal accepts (`materialize_after` in src/segment.rs), and which
 * splits it keeps (`split_seal` in src/writer.rs).
 */
module Claims {
  import opened Types
  import opened Rows
  import opened Encoding
  import opened Catalog

  /** The rows of the input a span holds, by position. */
  ghost function Inside(rows: seq<WalRow>, first: int, last: int): set<nat> {
    InsideTo(rows, first, last, |rows|)
  }

  ghost function InsideTo(rows: seq<WalRow>, first: int, last: int, n: nat): set<nat>
    requires n <= |rows|
  {
    set k: nat | k < n && InsideAt(rows, k, first, last)
  }

  ghost predicate InsideAt(rows: seq<WalRow>, k: nat, first: int, last: int)
    requires k < |rows|
  {
    first <= rows[k].ts <= last
  }

  lemma {:induction false} InSpanCount(rows: seq<WalRow>, first: int, last: int, n: nat)
    requires n <= |rows|
    ensures |InSpanTo(rows, first, last, n)| == |InsideTo(rows, first, last, n)|
  {
    if n == 0 {
      assert InsideTo(rows, first, last, 0) == {};
    } else {
      InSpanCount(rows, first, last, n - 1);
      InsideMore(rows, first, last, n - 1, n);
    }
  }

  lemma InsideMore(rows: seq<WalRow>, first: int, last: int, k: nat, n: nat)
    requires n == k + 1 <= |rows|
    ensures |InsideTo(rows, first, last, n)| == |InsideTo(rows, first, last, k)| + if first <= rows[k].ts <= last then 1 else 0
  {
    var had, has := InsideTo(rows, first, last, k), InsideTo(rows, first, last, n);
    var more: set<nat> := if InsideAt(rows, k, first, last) then {k} else {};
    forall x: nat ensures x in has <==> x in had || x in more {
      assert x in has <==> x < n && InsideAt(rows, x, first, last);
    }
    SetMore(had, more, has, k);
  }

  lemma SetMore(had: set<nat>, more: set<nat>, has: set<nat>, k: nat)
    requires (more == {k} && k !in had) || more == {}
    requires forall x: nat :: x in has <==> x in had || x in more
    ensures |has| == |had| + |more|
  {
    assert has == had + more;
  }

  lemma {:induction false} InSpanMembers(rows: seq<WalRow>, first: int, last: int, n: nat, r: WalRow)
    requires n <= |rows|
    ensures multiset(InSpanTo(rows, first, last, n))[r] == if first <= r.ts <= last then multiset(rows[..n])[r] else 0
  {
    if n == 0 {
      assert rows[..0] == [];
    } else {
      InSpanMembers(rows, first, last, n - 1, r);
      InSpanNext(rows, first, last, n - 1, n, r, InSpanTo(rows, first, last, n - 1), InSpanTo(rows, first, last, n));
    }
  }

  lemma InSpanNext(rows: seq<WalRow>, first: int, last: int, n: nat, m: nat, r: WalRow, p: seq<WalRow>, q: seq<WalRow>)
    requires m == n + 1 <= |rows| && q == p + if first <= rows[n].ts <= last then [rows[n]] else []
    requires multiset(p)[r] == if first <= r.ts <= last then multiset(rows[..n])[r] else 0
    ensures multiset(q)[r] == if first <= r.ts <= last then multiset(rows[..m])[r] else 0
  {
    assert rows[..m] == rows[..n] + [rows[n]];
    CountMore(rows[..n], rows[n], r);
    if first <= rows[n].ts <= last {
      CountMore(p, rows[n], r);
    } else {
      assert q == p;
    }
  }

  /**
   * A claim is accepted if and only if its span lies within the input's and holds exactly the
   * claimed positive number of its rows; the segment is then that claim, and holds those rows.
   */
  lemma ClaimDecided(enc: Encoder, before: seq<WalRow>, rows: seq<WalRow>, n: nat, first: int, last: int)
    requires rows != [] && enc(before, rows) == Claim(n, first, last)
    ensures Materialize(enc, before, rows).Ok? <==>
              n > 0 && rows[0].ts <= first <= last <= rows[|rows| - 1].ts && n == |Inside(rows, first, last)|
    ensures Materialize(enc, before, rows).Ok? ==>
              match Materialize(enc, before, rows).value
              case None => false
              case Some(s) =>
                && s.rows == n && s.first == first && s.last == last
                && forall r :: multiset(s.data)[r] == if first <= r.ts <= last then multiset(rows)[r] else 0
  {
    InSpanCount(rows, first, last, |rows|);
    forall r ensures multiset(InSpan(rows, first, last))[r] == if first <= r.ts <= last then multiset(rows)[r] else 0 {
      InSpanMembers(rows, first, last, |rows|, r);
      assert rows[..|rows|] == rows;
    }
  }

  /** And what is no claim: an empty input and an encoder with no segment are fine, a failure is not. */
  lemma NoClaim(enc: Encoder, before: seq<WalRow>, rows: seq<WalRow>)
    ensures rows == [] || enc(before, rows) == NoSegment ==> Materialize(enc, before, rows) == Ok(None)
    ensures rows != [] && enc(before, rows) == Failed ==> Materialize(enc, before, rows).Err?
  {}

  /** An encoder that leaves out a leading and a trailing run is accepted, with exactly the rest. */
  lemma SliceAccepted(enc: Encoder, before: seq<WalRow>, rows: seq<WalRow>, i: nat, j: nat)
    requires Sorted(rows) && i < j <= |rows|
    requires enc(before, rows) == Claim(j - i, rows[i].ts, rows[j - 1].ts)
    ensures Materialize(enc, before, rows) == Ok(Some(Segment(j - i, rows[i].ts, rows[j - 1].ts, rows[i..j])))
  {
    var first, last := rows[i].ts, rows[j - 1].ts;
    forall k: nat | k < |rows| ensures Below(rows, k, first) <==> k < i {
      if k < i {
        assert Lt(rows, k, i);
      } else {
        SortedLe(rows, i, k);
      }
    }
    forall k: nat | k < |rows| ensures Past(rows, k, last) <==> k >= j {
      if k >= j {
        assert Lt(rows, j - 1, k);
      } else {
        SortedLe(rows, k, j - 1);
      }
    }
    InSpanIsSlice(rows, first, last, i, j);
    SortedLe(rows, 0, i);
    SortedLe(rows, i, j - 1);
    SortedLe(rows, j - 1, |rows| - 1);
  }

  // ------------------------------------------------------------------ the capped seal

  function PartEnd(rows: seq<WalRow>, cap: nat, start: nat): nat {
    Min(|rows|, start + cap)
  }

  /** What a part that starts at `start` is asked to hold of `rows[i..j]`. */
  function PartFrom(start: nat, i: nat): nat {
    if start == 0 then i else start
  }

  function PartTo(rows: seq<WalRow>, end: nat, j: nat): nat {
    if end == |rows| then j else end
  }

  /** Part `k` claims its rows, but for a leading run of the first part and a trailing run of the last. */
  ghost predicate DropsEdges(enc: Encoder, rows: seq<WalRow>, cap: nat, i: nat, j: nat) {
    forall k: nat :: DropsEdgesAt(enc, rows, cap, i, j, k)
  }

  ghost predicate DropsEdgesAt(enc: Encoder, rows: seq<WalRow>, cap: nat, i: nat, j: nat, k: nat) {
    var start := k * cap;
    start < |rows| ==>
      var end := PartEnd(rows, cap, start);
      var lo, hi := PartFrom(start, i), PartTo(rows, end, j);
      && start <= lo < hi <= end
      && enc(rows[..start], rows[start..end]) == Claim(hi - lo, rows[lo].ts, rows[hi - 1].ts)
  }

  lemma PartAccepted(enc: Encoder, rows: seq<WalRow>, cap: nat, i: nat, j: nat, start: nat, end: nat, lo: nat, hi: nat)
    returns (s: Segment)
    requires Sorted(rows) && |rows| > cap && start < end <= |rows| && start <= lo < hi <= end
    requires enc(rows[..start], rows[start..end]) == Claim(hi - lo, rows[lo].ts, rows[hi - 1].ts)
    requires (start > 0 ==> lo == start) && (end < |rows| ==> hi == end) && (start == 0 ==> end < |rows|)
    ensures Materialize(enc, rows[..start], rows[start..end]) == Ok(Some(s)) && TilesEdges(s, rows, start, end)
    ensures Covers([s], rows, lo, hi) && s.first == rows[lo].ts
  {
    var part := rows[start..end];
    SortedSlice(rows, start, end);
    assert part[lo - start] == rows[lo] && part[hi - start - 1] == rows[hi - 1];
    SliceAccepted(enc, rows[..start], part, lo - start, hi - start);
    s := Materialize(enc, rows[..start], part).value.value;
    var a, b := PartCovers(enc, rows, start, end, s);
  }

  lemma {:induction false} SplitPlaced(enc: Encoder, rows: seq<WalRow>, cap: nat, i: nat, j: nat, k: nat, start: nat)
    returns (parts: seq<Segment>)
    requires Sorted(rows) && 0 < cap < |rows| && start == k * cap < |rows| && DropsEdges(enc, rows, cap, i, j)
    ensures SplitFrom(enc, rows, cap, start) == Ok(Some(parts)) && parts != []
    ensures Covers(parts, rows, PartFrom(start, i), j) && parts[0].first == rows[PartFrom(start, i)].ts
    decreases |rows| - start
  {
    var end := PartEnd(rows, cap, start);
    var s, lo, hi := PartPlaced(enc, rows, cap, i, j, k, start);
    if end == |rows| {
      SplitStep(enc, rows, cap, start, end, s, []);
      parts := [s];
    } else {
      var rest := SplitPlaced(enc, rows, cap, i, j, k + 1, end);
      SplitStep(enc, rows, cap, start, end, s, rest);
      JoinCovers(s, rest, rows, lo, end, j);
      parts := [s] + rest;
    }
  }

  lemma PartPlaced(enc: Encoder, rows: seq<WalRow>, cap: nat, i: nat, j: nat, k: nat, start: nat)
    returns (s: Segment, lo: nat, hi: nat)
    requires Sorted(rows) && 0 < cap < |rows| && start == k * cap < |rows| && DropsEdges(enc, rows, cap, i, j)
    ensures var end := PartEnd(rows, cap, start);
            && lo == PartFrom(start, i) && hi == PartTo(rows, end, j) && lo < hi <= end
            && Materialize(enc, rows[..start], rows[start..end]) == Ok(Some(s)) && TilesEdges(s, rows, start, end)
            && Covers([s], rows, lo, hi) && s.first == rows[lo].ts
  {
    assert DropsEdgesAt(enc, rows, cap, i, j, k);
    var end := PartEnd(rows, cap, start);
    lo, hi := PartFrom(start, i), PartTo(rows, end, j);
    s := PartAccepted(enc, rows, cap, i, j, start, end, lo, hi);
  }

  lemma SplitStep(enc: Encoder, rows: seq<WalRow>, cap: nat, start: nat, end: nat, s: Segment, rest: seq<Segment>)
    requires cap > 0 && start < |rows| && end == PartEnd(rows, cap, start)
    requires Materialize(enc, rows[..start], rows[start..end]) == Ok(Some(s)) && TilesEdges(s, rows, start, end)
    requires if end == |rows| then rest == [] else SplitFrom(enc, rows, cap, end) == Ok(Some(rest))
    ensures SplitFrom(enc, rows, cap, start) == Ok(Some([s] + rest))
    ensures rest == [] ==> [s] + rest == [s]
  {
    if end == |rows| {
      assert SplitFrom(enc, rows, cap, end) == Ok(Some([]));
    }
  }

  /**
   * A capped seal whose first part drops only a leading run, and whose last part only a trailing
   * run, keeps its split, and its parts hold exactly the rest.
   */
  lemma EdgesKeepSplit(enc: Encoder, rows: seq<WalRow>, maxRows: nat, i: nat, j: nat) returns (parts: seq<Segment>)
    requires Sorted(rows) && |rows| > Max(maxRows, 1) && DropsEdges(enc, rows, Max(maxRows, 1), i, j)
    ensures SplitKept(enc, rows, maxRows) && SplitSeal(enc, rows, maxRows) == Ok(parts)
    ensures Covers(parts, rows, i, j) && Capped(parts, Max(maxRows, 1))
  {
    parts := SplitPlaced(enc, rows, Max(maxRows, 1), i, j, 0, 0);
    var _, _ := SplitSealCovers(enc, rows, maxRows, parts);
  }

  /** The part that starts at `start`, encoded after the rows before it. */
  function PartAt(enc: Encoder, rows: seq<WalRow>, cap: nat, start: nat): Result<Option<Segment>>
    requires start <= |rows|
  {
    Materialize(enc, rows[..start], rows[start..PartEnd(rows, cap, start)])
  }

  /** It yields a segment that reaches its rows' ends wherever another part is beside it. */
  ghost predicate Fine(enc: Encoder, rows: seq<WalRow>, cap: nat, start: nat)
    requires cap > 0 && start < |rows|
  {
    match PartAt(enc, rows, cap, start)
    case Err => false
    case Ok(None) => false
    case Ok(Some(s)) =>
      var end := PartEnd(rows, cap, start);
      (start == 0 || s.first == rows[start].ts) && (end == |rows| || s.last == rows[end - 1].ts)
  }

  ghost predicate PartFine(enc: Encoder, rows: seq<WalRow>, cap: nat, k: nat)
    requires cap > 0
  {
    k * cap < |rows| && Fine(enc, rows, cap, k * cap)
  }

  /** One part of the split: it goes on past a fine one, and ends at any other. */
  lemma SplitGoesOn(enc: Encoder, rows: seq<WalRow>, cap: nat, start: nat, next: nat)
    requires cap > 0 && start < |rows| && next == start + cap < |rows|
    ensures Fine(enc, rows, cap, start) && SplitFrom(enc, rows, cap, next).Err? ==> SplitFrom(enc, rows, cap, start).Err?
    ensures Fine(enc, rows, cap, start) && SplitFrom(enc, rows, cap, next) == Ok(None) ==> SplitFrom(enc, rows, cap, start) == Ok(None)
  {}

  lemma SplitEnds(enc: Encoder, rows: seq<WalRow>, cap: nat, start: nat)
    requires cap > 0 && start < |rows| && !Fine(enc, rows, cap, start)
    ensures SplitFrom(enc, rows, cap, start) == if PartAt(enc, rows, cap, start).Err? then Err else Ok(None)
  {}

  /** The first part that is not fine decides. */
  lemma {:induction false} SplitStops(enc: Encoder, rows: seq<WalRow>, cap: nat, k: nat, at: nat, start: nat, stop: nat)
    requires cap > 0 && at <= k && start == at * cap && stop == k * cap < |rows| && !Fine(enc, rows, cap, stop)
    requires forall p: nat :: at <= p < k ==> PartFine(enc, rows, cap, p)
    ensures start <= stop
    ensures SplitFrom(enc, rows, cap, start) == if PartAt(enc, rows, cap, stop).Err? then Err else Ok(None)
    decreases k - at
  {
    if at == k {
      SplitEnds(enc, rows, cap, stop);
    } else {
      assert PartFine(enc, rows, cap, at);
      PartsBefore(cap, at, at + 1, start);
      SplitStops(enc, rows, cap, k, at + 1, start + cap, stop);
      SplitGoesOn(enc, rows, cap, start, start + cap);
    }
  }

  lemma PartsBefore(cap: nat, at: nat, next: nat, start: nat)
    requires next == at + 1 && start == at * cap
    ensures next * cap == start + cap
  {}

  /**
   * Where some part of a capped seal is not fine, the first such part decides: a failure fails
   * the seal, and no segment, or one that leaves out a row at an inner edge, unsplits it.
   */
  lemma FirstBadPart(enc: Encoder, rows: seq<WalRow>, maxRows: nat, k: nat, stop: nat)
    requires |rows| > Max(maxRows, 1) && stop == k * Max(maxRows, 1) < |rows| && !Fine(enc, rows, Max(maxRows, 1), stop)
    requires forall p: nat :: p < k ==> PartFine(enc, rows, Max(maxRows, 1), p)
    ensures SplitSeal(enc, rows, maxRows)
            == if PartAt(enc, rows, Max(maxRows, 1), stop).Err? then Err else Unsplit(enc, rows)
  {
    SplitStops(enc, rows, Max(maxRows, 1), k, 0, 0, stop);
  }

  // ------------------------------------------------------------------ what a dropping seal leaves

  /** An encoder that answers for the stream's live rows with all but a leading and a trailing run. */
  ghost predicate ClaimsSlice(enc: Encoder, live: seq<WalRow>, maxRows: nat, i: nat, j: nat) {
    && i < j <= |live|
    && if |live| <= Max(maxRows, 1) then enc([], live) == Claim(j - i, live[i].ts, live[j - 1].ts)
       else DropsEdges(enc, live, Max(maxRows, 1), i, j)
  }

  lemma SliceSplit(enc: Encoder, live: seq<WalRow>, maxRows: nat, i: nat, j: nat) returns (parts: seq<Segment>)
    requires Sorted(live) && ClaimsSlice(enc, live, maxRows, i, j)
    ensures SplitSeal(enc, live, maxRows) == Ok(parts) && Covers(parts, live, i, j)
  {
    if |live| <= Max(maxRows, 1) {
      SliceAccepted(enc, [], live, i, j);
      var s := Segment(j - i, live[i].ts, live[j - 1].ts, live[i..j]);
      parts := [s];
      var a, b := MaterializeSlice(enc, [], live, s);
      SliceStarts(live, i, j, a, b);
    } else {
      parts := EdgesKeepSplit(enc, live, maxRows, i, j);
    }
  }

  lemma SliceStarts(live: seq<WalRow>, i: nat, j: nat, a: nat, b: nat)
    requires Sorted(live) && i < j <= |live| && a < b <= |live| && live[i..j] == live[a..b]
    ensures a == i && b == j
  {
    assert live[i] == live[i..j][0] == live[a..b][0] == live[a];
    var probe := i < a && Lt(live, i, a);
    var probe' := a < i && Lt(live, a, i);
    assert |live[i..j]| == |live[a..b]|;
  }

  /**
   * Such a seal commits: of the stream's live rows exactly the leading run is lost to readers,
   * and exactly the trailing run stays live for the next seal.
   */
  lemma DroppingSeal(enc: Encoder, s: Stream, maxRows: nat, i: nat, j: nat) returns (s': Stream)
    requires Inv(s) && ClaimsSlice(enc, LiveWal(s.t), maxRows, i, j)
    ensures SealStream(enc, s, maxRows) == Ok(s') && Inv(s')
    ensures View(s'.t) == Data(s.t.segs) + LiveWal(s.t)[i..]
    ensures LiveWal(s'.t) == LiveWal(s.t)[j..]
  {
    var live := LiveWal(s.t);
    LiveSorted(s.t);
    var parts := SliceSplit(enc, live, maxRows, i, j);
    s' := InsertParts(s, parts);
    SealMoves(enc, s, maxRows, parts);
    FirstCovered(parts, live, i, j);
    FirstPastSealed(enc, s, maxRows, parts);
    InsertPartsLive(s.t, parts, s'.t.nums);
    CoversTail(parts, live, i, j);
  }
}
