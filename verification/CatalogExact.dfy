/**
 * What each statement of the archive does to a stream's rows and numbers, row by row: which WAL
 * rows are live, kept, inserted and pruned, and which numbers a seal gives its segments.
 */
module CatalogExact {
  import opened Types
  import opened Rows
  import opened Encoding
  import opened Catalog

  // ------------------------------------------------------------------ queries

  /** The query keeps exactly the rows at or past the cut, in their order. */
  lemma {:induction false} FromExact(s: seq<WalRow>, c: int) returns (idx: seq<nat>)
    ensures Picks(s, From(s, c), idx)
    ensures forall i: nat :: i < |s| ==> (i in idx <==> s[i].ts >= c)
  {
    if s == [] {
      idx := [];
    } else {
      var p := FromExact(s[1..], c);
      var first := s[0].ts >= c;
      idx := Shifted(p, first);
      assert s == [s[0]] + s[1..];
      ShiftPicks(s[0], s[1..], From(s[1..], c), p, first, s, From(s, c), idx);
    }
  }

  lemma {:induction false} MaxLastExact(segs: seq<Segment>, n: nat)
    requires n <= |segs|
    ensures MaxLastTo(segs, n).None? <==> n == 0
    ensures n > 0 ==> exists i: nat :: i < n && EndsAt(segs, i, MaxLastTo(segs, n).value)
    ensures forall i: nat :: i < n ==> segs[i].last <= MaxLastTo(segs, n).value
  {
    if n > 0 {
      MaxLastExact(segs, n - 1);
      var w := MaxLastTo(segs, n).value;
      if n == 1 || segs[n - 1].last == w {
        assert EndsAt(segs, n - 1, w);
      } else {
        var i: nat :| i < n - 1 && EndsAt(segs, i, MaxLastTo(segs, n - 1).value);
        assert EndsAt(segs, i, w);
      }
    }
  }

  ghost predicate EndsAt(segs: seq<Segment>, i: nat, w: int)
    requires i < |segs|
  {
    segs[i].last == w
  }

  /** A row is past every segment of its own stream. */
  ghost predicate PastAll(segs: seq<Segment>, ts: int) {
    forall k: nat :: k < |segs| ==> PastSeg(segs, k, ts)
  }

  ghost predicate PastSeg(segs: seq<Segment>, k: nat, ts: int)
    requires k < |segs|
  {
    segs[k].last < ts
  }

  /** The recovery rule: the live tail is exactly the WAL rows past every one of the stream's segments. */
  lemma LiveExact(t: Tables) returns (idx: seq<nat>)
    ensures Picks(t.wal, LiveWal(t), idx)
    ensures forall i: nat :: i < |t.wal| ==> (i in idx <==> PastAll(t.segs, t.wal[i].ts))
  {
    MaxLastExact(t.segs, |t.segs|);
    if MaxLast(t.segs).None? {
      idx := seq(|t.wal|, i => i);
      forall i: nat | i < |t.wal| ensures PickedAt(t.wal, t.wal, idx, i) && i in idx && PastAll(t.segs, t.wal[i].ts) {
        assert idx[i] == i;
      }
    } else {
      var w := MaxLast(t.segs).value;
      idx := FromExact(t.wal, w + 1);
      forall i: nat | i < |t.wal| ensures t.wal[i].ts > w <==> PastAll(t.segs, t.wal[i].ts) {
        var k: nat :| k < |t.segs| && EndsAt(t.segs, k, w);
        assert PastAll(t.segs, t.wal[i].ts) ==> PastSeg(t.segs, k, t.wal[i].ts);
      }
    }
  }

  /** A prune deletes exactly the WAL rows up to its bound, live or not, and no segment. */
  lemma PruneExact(t: Tables, upto: int) returns (idx: seq<nat>)
    ensures Picks(t.wal, Prune(t, upto).wal, idx)
    ensures forall i: nat :: i < |t.wal| ==> (i in idx <==> t.wal[i].ts > upto)
    ensures Prune(t, upto).segs == t.segs && Prune(t, upto).nums == t.nums
  {
    idx := FromExact(t.wal, upto + 1);
  }

  // ------------------------------------------------------------------ inserts

  lemma {:induction false} InsertPlace(s: seq<WalRow>, r: WalRow) returns (k: nat)
    requires Sorted(s)
    ensures k <= |s| && Insert(s, r) == s[..k] + [r] + s[k..]
    ensures forall i: nat :: i < |s| ==> (i < k <==> s[i].ts <= r.ts)
  {
    if s == [] || r.ts < s[0].ts {
      k := 0;
      forall i: nat | i < |s| ensures s[i].ts > r.ts {
        SortedLe(s, 0, i);
      }
    } else {
      SortedSuffix(s, 1);
      var j := InsertPlace(s[1..], r);
      k := j + 1;
      assert s == [s[0]] + s[1..];
      assert [s[0]] + (s[1..][..j] + [r] + s[1..][j..]) == s[..k] + [r] + s[k..];
      forall i: nat | i < |s| ensures i < k <==> s[i].ts <= r.ts {
        assert i > 0 ==> s[1..][i - 1] == s[i];
      }
    }
  }

  /**
   * An append is refused exactly when the stream's WAL has a row at that time, live or not;
   * otherwise the row goes between the earlier and the later ones and nothing else changes.
   */
  lemma AppendDecided(s: Stream, r: WalRow) returns (k: nat)
    requires Sorted(s.t.wal)
    ensures AppendRow(s, r).Err? <==> exists i: nat :: i < |s.t.wal| && s.t.wal[i].ts == r.ts
    ensures k <= |s.t.wal| && forall i: nat :: i < |s.t.wal| ==> (i < k <==> s.t.wal[i].ts <= r.ts)
    ensures AppendRow(s, r).Ok? ==> AppendRow(s, r).value == s.(t := s.t.(wal := s.t.wal[..k] + [r] + s.t.wal[k..]))
  {
    k := InsertPlace(s.t.wal, r);
    if HasTs(s.t.wal, r.ts) {
      var i :| 0 <= i < |s.t.wal| && s.t.wal[i].ts == r.ts;
      var j: nat := i;
      assert s.t.wal[j].ts == r.ts;
    }
  }

  /**
   * A segment built elsewhere is inserted exactly when it holds rows, ends no earlier than it
   * starts, starts past everything the stream ever sealed and ends before every live row. It is
   * reported as held exactly when all of it is at or before what was sealed, and refused otherwise.
   */
  lemma AdoptDecided(s: Stream, seg: Segment)
    requires Inv(s)
    ensures Adopt(s, seg).Adopted? <==>
              && seg.rows > 0 && seg.first <= seg.last
              && (s.watermark.Some? ==> s.watermark.value < seg.first)
              && forall i: nat :: i < |LiveWal(s.t)| ==> seg.last < LiveWal(s.t)[i].ts
    ensures Adopt(s, seg).Held? <==>
              seg.rows > 0 && seg.first <= seg.last && s.watermark.Some? && seg.last <= s.watermark.value
    ensures Adopt(s, seg).Adopted? ==>
              Adopt(s, seg).s == Stream(Tables(s.t.wal, s.t.segs + [seg], s.t.nums + [s.nextSeq]), s.nextSeq + 1, Some(seg.last))
  {
    LiveSorted(s.t);
    var live := LiveWal(s.t);
    if live != [] && live[0].ts > seg.last {
      forall i: nat | i < |live| ensures seg.last < live[i].ts {
        SortedLe(live, 0, i);
      }
    }
    assert Numbers(s.nextSeq, 1) == [s.nextSeq];
  }

  // ------------------------------------------------------------------ the numbers of a seal

  /**
   * The segments a seal commits follow the ones before under consecutive numbers that none ever
   * had; the next number moves past them, the watermark to their end, and the WAL stays.
   */
  lemma SealNumbers(enc: Encoder, s: Stream, maxRows: nat, s': Stream) returns (parts: seq<Segment>)
    requires Inv(s) && SealStream(enc, s, maxRows) == Ok(s')
    ensures s'.t.wal == s.t.wal && s'.t.segs == s.t.segs + parts && |s'.t.nums| == |s.t.nums| + |parts|
    ensures forall i: nat :: i < |s.t.nums| ==> s'.t.nums[i] == s.t.nums[i]
    ensures forall i: nat :: |s.t.nums| <= i < |s'.t.nums| ==> s'.t.nums[i] == s.nextSeq + (i - |s.t.nums|)
    ensures s'.nextSeq == s.nextSeq + |parts|
    ensures s'.watermark == if parts == [] then s.watermark else Some(parts[|parts| - 1].last)
  {
    parts := if LiveWal(s.t) == [] then [] else SplitSeal(enc, LiveWal(s.t), maxRows).value;
    if parts != [] {
      var added := Numbers(s.nextSeq, |parts|);
      assert forall i: nat :: i < |parts| ==> added[i] == s.nextSeq + i;
    }
  }

  /**
   * The prune after a seal's commit goes to the end of the segments it committed, and then the
   * stream's WAL holds exactly its live rows, whatever earlier prunes a crash skipped.
   */
  lemma SealThenPrune(enc: Encoder, s: Stream, maxRows: nat, s': Stream)
    requires Inv(s) && SealStream(enc, s, maxRows) == Ok(s')
    ensures SealedUpTo(enc, s, maxRows).None? <==> s' == s
    ensures SealedUpTo(enc, s, maxRows).Some? ==>
              && s'.t.segs != [] && SealedUpTo(enc, s, maxRows) == Some(s'.t.segs[|s'.t.segs| - 1].last)
              && Prune(s'.t, SealedUpTo(enc, s, maxRows).value).wal == LiveWal(s'.t)
    ensures SealedUpTo(enc, s, maxRows).Some? <==> SealedFrom(enc, s, maxRows).Some?
  {
    SealKeeps(enc, s, maxRows, s');
    LiveIs(s'.t);
  }

  // ------------------------------------------------------------------ reopening and merging

  /** The next number is one past the largest, or 0 where there is none. */
  lemma {:induction false} MaxPlusOneExact(nums: seq<nat>)
    ensures MaxPlusOne(nums) == 0 <==> nums == []
    ensures nums != [] ==> MaxPlusOne(nums) - 1 in nums
    ensures forall i: nat :: i < |nums| ==> nums[i] < MaxPlusOne(nums)
  {
    if nums != [] {
      MaxPlusOneExact(nums[1..]);
      if nums[0] + 1 < MaxPlusOne(nums[1..]) {
        assert MaxPlusOne(nums[1..]) - 1 in nums[1..];
      }
      forall i: nat | i < |nums| ensures nums[i] < MaxPlusOne(nums) {
        assert i > 0 ==> nums[1..][i - 1] == nums[i];
      }
    }
  }

  /** A reopened writer numbers on from the largest number, and takes the newest end as its watermark. */
  lemma ReopenExact(t: Tables)
    ensures Reopen(t).t == t
    ensures if t.nums == [] then Reopen(t).nextSeq == 0
            else Reopen(t).nextSeq - 1 in t.nums && forall i: nat :: i < |t.nums| ==> t.nums[i] < Reopen(t).nextSeq
    ensures Reopen(t).watermark.None? <==> t.segs == []
    ensures t.segs != [] ==>
              && (exists i: nat :: i < |t.segs| && EndsAt(t.segs, i, Reopen(t).watermark.value))
              && forall i: nat :: i < |t.segs| ==> t.segs[i].last <= Reopen(t).watermark.value
  {
    MaxPlusOneExact(t.nums);
    MaxLastExact(t.segs, |t.segs|);
  }

  /** A segment whose catalog span starts and ends at its own rows, and counts them. */
  ghost predicate Tight(s: Segment) {
    s.rows == |s.data| > 0 && s.first == s.data[0].ts && s.last == s.data[|s.data| - 1].ts
  }

  ghost predicate TightAt(segs: seq<Segment>, i: nat)
    requires i < |segs|
  {
    Tight(segs[i])
  }

  lemma {:induction false} DataEnds(run: seq<Segment>)
    requires run != [] && forall i: nat :: i < |run| ==> TightAt(run, i)
    ensures Data(run) != [] && Data(run)[0].ts == run[0].first
    ensures Data(run)[|Data(run)| - 1].ts == run[|run| - 1].last
    ensures SumRows(run) == |Data(run)|
  {
    var rest := run[1..];
    assert TightAt(run, 0);
    if rest != [] {
      forall i: nat | i < |rest| ensures TightAt(rest, i) {
        assert TightAt(run, i + 1);
      }
      DataEnds(rest);
    } else {
      assert Data(run) == run[0].data;
    }
  }

  lemma MergedTight(segs: seq<Segment>, at: nat, n: nat, run: seq<Segment>)
    requires 0 < n && at + n <= |segs| && run == segs[at..at + n]
    requires forall i: nat :: at <= i < at + n ==> TightAt(segs, i)
    ensures run != [] && Tight(Merged(run)) && Merged(run).first == segs[at].first && Merged(run).last == segs[at + n - 1].last
  {
    forall i: nat | i < n ensures TightAt(run, i) {
      assert TightAt(segs, at + i);
    }
    DataEnds(run);
  }

  /**
   * What replaces a merged run describes its own rows as exactly as each member did its own; it
   * takes the first member's number, and every other segment keeps its number.
   */
  lemma MergeExact(t: Tables, at: nat, n: nat)
    requires |t.nums| == |t.segs| && 0 < n && at + n <= |t.segs|
    requires forall i: nat :: at <= i < at + n ==> TightAt(t.segs, i)
    ensures |MergeRun(t, at, n).segs| == |MergeRun(t, at, n).nums| == |t.segs| - n + 1
    ensures var m := MergeRun(t, at, n).segs[at];
            Tight(m) && m.first == t.segs[at].first && m.last == t.segs[at + n - 1].last
    ensures forall i: nat :: i < |MergeRun(t, at, n).nums| ==> MergeRun(t, at, n).nums[i] == t.nums[if i <= at then i else i + n - 1]
    ensures forall i: nat :: i < |MergeRun(t, at, n).segs| && i != at ==>
              MergeRun(t, at, n).segs[i] == t.segs[if i < at then i else i + n - 1]
  {
    MergedTight(t.segs, at, n, t.segs[at..at + n]);
  }
}
