/**
 * One stream's tables and the writer's memory of it: the recovery rule, and what a seal, a
 * prune, an append, an adoption, a retention pass, a merge and a reopen each do to the rows
 * a reader sees (src/archive/sqlite.rs, src/writer.rs).
 */
module Catalog {
  import opened Types
  import opened Rows
  import opened Encoding

  /**
   * One stream's rows of `wal`, in key order, and of `segments`, in `seq` order: `segs[i]` is
   * cataloged under number `nums[i]`.
   */
  datatype Tables = Tables(wal: seq<WalRow>, segs: seq<Segment>, nums: seq<nat>)

  /** A stream as its writer holds it: the tables, `next_seq` and `watermarks`. */
  datatype Stream = Stream(t: Tables, nextSeq: nat, watermark: Option<int>)

  const EMPTY := Stream(Tables([], [], []), 0, None)

  /** `SELECT MAX(last_ts)`. */
  function MaxLast(segs: seq<Segment>): Option<int> {
    MaxLastTo(segs, |segs|)
  }

  function MaxLastTo(segs: seq<Segment>, n: nat): Option<int>
    requires n <= |segs|
  {
    if n == 0 then None else
    match MaxLastTo(segs, n - 1)
    case None => Some(segs[n - 1].last)
    case Some(w) => Some(Max(segs[n - 1].last, w))
  }

  /** The recovery rule: live iff past the stream's own newest segment, or it has none. */
  function LiveWal(t: Tables): seq<WalRow> {
    match MaxLast(t.segs)
    case None => t.wal
    case Some(w) => From(t.wal, w + 1)
  }

  /** What a reader splices: the sealed rows, then the live tail. */
  function View(t: Tables): seq<WalRow> {
    Data(t.segs) + LiveWal(t)
  }

  /** Strictly increasing `seq` numbers, one per segment. */
  ghost predicate Numbering(nums: seq<nat>) {
    forall i: nat, j: nat :: i < j < |nums| ==> LessAt(nums, i, j)
  }

  ghost predicate LessAt(nums: seq<nat>, i: nat, j: nat)
    requires i < |nums| && j < |nums|
  {
    nums[i] < nums[j]
  }

  ghost predicate Under(nums: seq<nat>, n: nat) {
    forall i: nat :: i < |nums| ==> UnderAt(nums, i, n)
  }

  ghost predicate UnderAt(nums: seq<nat>, i: nat, n: nat)
    requires i < |nums|
  {
    nums[i] < n
  }

  lemma NumberingSlice(nums: seq<nat>, i: nat, j: nat)
    requires Numbering(nums) && i <= j <= |nums|
    ensures Numbering(nums[i..j])
  {
    forall a: nat, b: nat | a < b < j - i ensures LessAt(nums[i..j], a, b) {
      assert LessAt(nums, i + a, i + b);
    }
  }

  lemma NumberingConcat(a: seq<nat>, b: seq<nat>, n: nat)
    requires Numbering(a) && Numbering(b) && Under(a, n)
    requires forall i: nat :: i < |b| ==> !UnderAt(b, i, n)
    ensures Numbering(a + b)
  {
    var c := a + b;
    forall i: nat, j: nat | i < j < |c| ensures LessAt(c, i, j) {
      if j < |a| {
        assert LessAt(a, i, j);
      } else if i >= |a| {
        assert LessAt(b, i - |a|, j - |a|);
      } else {
        assert UnderAt(a, i, n) && !UnderAt(b, j - |a|, n);
      }
    }
  }

  /** Key order in both tables, and the segments disjoint, sound and in time order by `seq`. */
  ghost predicate Valid(t: Tables) {
    && Sorted(t.wal)
    && Ordered(t.segs)
    && |t.nums| == |t.segs| && Numbering(t.nums)
  }

  ghost predicate AllPast(rows: seq<WalRow>, w: Option<int>) {
    w.Some? ==> forall i: nat :: i < |rows| ==> Past(rows, i, w.value)
  }

  /** The writer's memory dominates the catalog, and every live row is past its watermark. */
  ghost predicate Dominates(s: Stream) {
    && Under(s.t.nums, s.nextSeq)
    && (s.t.segs != [] ==> s.watermark.Some? && LastOf(s.t.segs) <= s.watermark.value)
    && AllPast(LiveWal(s.t), s.watermark)
  }

  ghost predicate Inv(s: Stream) {
    Valid(s.t) && Dominates(s)
  }

  lemma {:induction false} MaxLastToIs(segs: seq<Segment>, n: nat)
    requires Ordered(segs) && n <= |segs|
    ensures MaxLastTo(segs, n) == if n == 0 then None else Some(segs[n - 1].last)
  {
    if n > 0 {
      MaxLastToIs(segs, n - 1);
      OrderedEnds(segs, n - 1);
      assert n > 1 ==> EndsBefore(segs, n - 2, n - 1);
    }
  }

  lemma MaxLastIsLast(segs: seq<Segment>)
    requires Ordered(segs)
    ensures MaxLast(segs) == if segs == [] then None else Some(LastOf(segs))
  {
    MaxLastToIs(segs, |segs|);
  }

  /** The live tail of a valid stream, without the aggregate. */
  lemma LiveIs(t: Tables)
    requires Ordered(t.segs)
    ensures LiveWal(t) == if t.segs == [] then t.wal
                          else From(t.wal, LastOf(t.segs) + 1)
    ensures MaxLast(t.segs) == if t.segs == [] then None else Some(LastOf(t.segs))
  {
    MaxLastIsLast(t.segs);
  }

  /**
   * A reader's splice is in strict time order: no row is both sealed and live, and no
   * timestamp occurs twice (src/read.rs:401-420).
   */
  lemma ViewSorted(t: Tables)
    requires Valid(t)
    ensures Sorted(View(t))
    ensures forall i: nat, j: nat :: i < |Data(t.segs)| && j < |LiveWal(t)| ==>
              Data(t.segs)[i].ts < LiveWal(t)[j].ts
  {
    LiveIs(t);
    DataSorted(t.segs);
    var sealed, live := Data(t.segs), LiveWal(t);
    if t.segs != [] {
      FromSorted(t.wal, LastOf(t.segs) + 1);
    }
    forall i: nat, j: nat | i < |sealed| && j < |live| ensures sealed[i].ts < live[j].ts {
      assert !Below(live, j, LastOf(t.segs) + 1);
    }
    SortedConcat(sealed, live);
  }

  // ------------------------------------------------------------------ the seal

  /** Consecutive `seq`s from `from`, oldest part first (`encoded_part`). */
  function Numbers(from: nat, n: nat): (r: seq<nat>)
    ensures |r| == n && Numbering(r)
    ensures forall i: nat :: i < n ==> !UnderAt(r, i, from)
    ensures Under(r, from + n)
  {
    seq(n, i => from + i)
  }

  /** A stream's part of a seal's transaction, and the memory update after its commit. */
  function SealStream(enc: Encoder, s: Stream, maxRows: nat): Result<Stream> {
    var rows := LiveWal(s.t);
    if rows == [] then Ok(s) else
    match SplitSeal(enc, rows, maxRows)
    case Err => Err
    case Ok(parts) =>
      if parts == [] then Ok(s) else Ok(InsertParts(s, parts))
  }

  /** Where the segments a seal commits begin, or `None` when it commits none. */
  function SealedFrom(enc: Encoder, s: Stream, maxRows: nat): Option<int> {
    var rows := LiveWal(s.t);
    if rows == [] then None else
    match SplitSeal(enc, rows, maxRows)
    case Err => None
    case Ok(parts) => if parts == [] then None else Some(parts[0].first)
  }

  /** Where they end: how far the prune that follows may go. */
  function SealedUpTo(enc: Encoder, s: Stream, maxRows: nat): Option<int> {
    var rows := LiveWal(s.t);
    if rows == [] then None else
    match SplitSeal(enc, rows, maxRows)
    case Err => None
    case Ok(parts) => if parts == [] then None else Some(LastOf(parts))
  }

  function InsertParts(s: Stream, parts: seq<Segment>): Stream
    requires parts != []
  {
    Stream(Tables(s.t.wal, s.t.segs + parts, s.t.nums + Numbers(s.nextSeq, |parts|)),
           s.nextSeq + |parts|, Some(LastOf(parts)))
  }

  /** Raising the watermark narrows the live tail by the new watermark. */
  lemma LiveHigher(t: Tables, t': Tables)
    requires t'.wal == t.wal && Ordered(t.segs) && Ordered(t'.segs) && t'.segs != []
    requires t.segs != [] ==> LastOf(t.segs) <= LastOf(t'.segs)
    ensures LiveWal(t') == From(LiveWal(t), LastOf(t'.segs) + 1)
  {
    LiveIs(t);
    LiveIs(t');
    if t.segs != [] {
      FromFrom(t.wal, LastOf(t.segs) + 1, LastOf(t'.segs) + 1);
    }
  }

  /** The live tail once sound segments are placed after the sealed rows. */
  lemma InsertPartsLive(t: Tables, parts: seq<Segment>, nums: seq<nat>)
    requires Valid(t) && parts != [] && Ordered(parts)
    requires t.segs != [] ==> LastOf(t.segs) < parts[0].first
    ensures Ordered(t.segs + parts)
    ensures LiveWal(Tables(t.wal, t.segs + parts, nums)) == From(LiveWal(t), LastOf(parts) + 1)
  {
    OrderedConcat(t.segs, parts);
    OrderedEnds(parts, 0);
    var t' := Tables(t.wal, t.segs + parts, nums);
    assert LastOf(t'.segs) == LastOf(parts);
    LiveHigher(t, t');
  }

  /** Sound segments placed after the sealed rows and below the live ones keep the stream sound. */
  lemma InsertPartsInv(s: Stream, parts: seq<Segment>)
    requires Inv(s) && parts != [] && Ordered(parts)
    requires s.t.segs != [] ==> LastOf(s.t.segs) < parts[0].first
    ensures Inv(InsertParts(s, parts))
  {
    var s' := InsertParts(s, parts);
    InsertPartsLive(s.t, parts, s'.t.nums);
    LiveSorted(s.t);
    FromPast(LiveWal(s.t), LastOf(parts));
    var added := Numbers(s.nextSeq, |parts|);
    NumberingConcat(s.t.nums, added, s.nextSeq);
    forall i: nat | i < |s'.t.nums| ensures UnderAt(s'.t.nums, i, s'.nextSeq) {
      assert if i < |s.t.nums| then UnderAt(s.t.nums, i, s.nextSeq)
             else UnderAt(added, i - |s.t.nums|, s'.nextSeq);
    }
    assert LastOf(s.t.segs + parts) == LastOf(parts);
  }

  lemma FromPast(rows: seq<WalRow>, w: int)
    requires Sorted(rows)
    ensures AllPast(From(rows, w + 1), Some(w))
  {
    FromSorted(rows, w + 1);
    var r := From(rows, w + 1);
    forall i: nat | i < |r| ensures Past(r, i, w) {
      assert !Below(r, i, w + 1);
    }
  }

  /**
   * A seal moves a slice of the live tail into segments and loses at most the leading run
   * the encoder dropped; what lies past the slice stays live.
   */
  lemma SealKeeps(enc: Encoder, s: Stream, maxRows: nat, s': Stream)
    requires Inv(s) && SealStream(enc, s, maxRows) == Ok(s')
    ensures Inv(s') && s'.t.wal == s.t.wal
    ensures View(s'.t) == Data(s.t.segs) + match SealedFrom(enc, s, maxRows)
                                           case None => LiveWal(s.t)
                                           case Some(first) => From(LiveWal(s.t), first)
  {
    if SealedFrom(enc, s, maxRows).Some? {
      SealMoves(enc, s, maxRows, SplitSeal(enc, LiveWal(s.t), maxRows).value);
    }
  }

  lemma SealMoves(enc: Encoder, s: Stream, maxRows: nat, parts: seq<Segment>)
    requires Inv(s) && LiveWal(s.t) != []
    requires SplitSeal(enc, LiveWal(s.t), maxRows) == Ok(parts) && parts != []
    ensures Inv(InsertParts(s, parts))
    ensures View(InsertParts(s, parts).t) == Data(s.t.segs) + From(LiveWal(s.t), parts[0].first)
  {
    var live := LiveWal(s.t);
    LiveSorted(s.t);
    FirstPastSealed(enc, s, maxRows, parts);
    var i, j := SplitSealCovers(enc, live, maxRows, parts);
    InsertPartsInv(s, parts);
    InsertPartsLive(s.t, parts, InsertParts(s, parts).t.nums);
    assert Data(s.t.segs + parts) == Data(s.t.segs) + live[i..j] by {
      DataConcat(s.t.segs, parts);
    }
    Splice(Data(s.t.segs), live, i, j);
    FirstCovered(parts, live, i, j);
  }

  lemma FirstCovered(parts: seq<Segment>, live: seq<WalRow>, i: nat, j: nat)
    requires Sorted(live) && Covers(parts, live, i, j)
    ensures From(live, parts[0].first) == live[i..]
  {
    DataSorted(parts);
    assert Data(parts)[0] == live[i];
    FromIs(live, parts[0].first, i);
  }

  lemma Splice(sealed: seq<WalRow>, live: seq<WalRow>, i: nat, j: nat)
    requires i <= j <= |live|
    ensures sealed + live[i..j] + live[j..] == sealed + live[i..]
  {
    assert live[i..j] + live[j..] == live[i..];
    assert sealed + live[i..j] + live[j..] == sealed + (live[i..j] + live[j..]);
  }

  /** A new segment's span starts after everything sealed: `first_ts` is inside the input's span. */
  lemma FirstPastSealed(enc: Encoder, s: Stream, maxRows: nat, parts: seq<Segment>)
    requires Inv(s) && LiveWal(s.t) != []
    requires SplitSeal(enc, LiveWal(s.t), maxRows) == Ok(parts) && parts != []
    ensures s.t.segs != [] ==> LastOf(s.t.segs) < parts[0].first
  {
    FirstInSpan(enc, LiveWal(s.t), maxRows, parts);
    assert s.t.segs != [] ==> Past(LiveWal(s.t), 0, s.watermark.value);
  }

  lemma FirstInSpan(enc: Encoder, rows: seq<WalRow>, maxRows: nat, parts: seq<Segment>)
    requires rows != [] && SplitSeal(enc, rows, maxRows) == Ok(parts) && parts != []
    ensures rows[0].ts <= parts[0].first
  {
    if SplitKept(enc, rows, maxRows) {
      var _, _ := SplitUnfold(enc, rows, Max(maxRows, 1), 0, parts);
    }
  }

  /** With a row-preserving encoder a seal changes no row and leaves no live tail. */
  lemma RowPreservingSealStream(enc: Encoder, s: Stream, maxRows: nat) returns (s': Stream)
    requires Inv(s) && RowPreserving(enc)
    ensures SealStream(enc, s, maxRows) == Ok(s')
    ensures Inv(s') && s'.t.wal == s.t.wal
    ensures View(s'.t) == View(s.t) && LiveWal(s'.t) == []
    ensures Data(s'.t.segs) == View(s.t)
    ensures s'.watermark == if LiveWal(s.t) == [] then s.watermark
                            else Some(LiveWal(s.t)[|LiveWal(s.t)| - 1].ts)
  {
    var live := LiveWal(s.t);
    if live == [] {
      s' := s;
    } else {
      LiveSorted(s.t);
      var parts := RowPreservingSeal(enc, live, maxRows);
      s' := InsertParts(s, parts);
      FirstPastSealed(enc, s, maxRows, parts);
      InsertPartsInv(s, parts);
      InsertPartsLive(s.t, parts, s'.t.nums);
      DataConcat(s.t.segs, parts);
      CoversTail(parts, live, 0, |live|);
    }
  }

  // ------------------------------------------------------------------ the prune

  /** `DELETE FROM wal WHERE ts <= upto`. */
  function Prune(t: Tables, upto: int): Tables {
    t.(wal := From(t.wal, upto + 1))
  }

  /** Pruning at or below the newest segment is invisible, whenever it runs or is skipped. */
  lemma PruneKeeps(s: Stream, upto: int)
    requires Inv(s)
    requires s.t.segs != [] && upto <= LastOf(s.t.segs)
    ensures Inv(s.(t := Prune(s.t, upto)))
    ensures LiveWal(Prune(s.t, upto)) == LiveWal(s.t)
    ensures View(Prune(s.t, upto)) == View(s.t)
  {
    LiveIs(s.t);
    LiveIs(Prune(s.t, upto));
    FromFrom(s.t.wal, upto + 1, LastOf(s.t.segs) + 1);
    FromSorted(s.t.wal, upto + 1);
  }

  // ------------------------------------------------------------------ the append

  /** Insert one row, or refuse it when the primary key already holds its timestamp. */
  function AppendRow(s: Stream, r: WalRow): Result<Stream> {
    if HasTs(s.t.wal, r.ts) then Err else Ok(s.(t := s.t.(wal := Insert(s.t.wal, r))))
  }

  /** A row past the watermark becomes visible, in its place among the live rows. */
  lemma AppendKeeps(s: Stream, r: WalRow, s': Stream)
    requires Inv(s) && AppendRow(s, r) == Ok(s')
    requires s.watermark.Some? ==> r.ts > s.watermark.value
    ensures Inv(s')
    ensures LiveWal(s'.t) == Insert(LiveWal(s.t), r)
    ensures multiset(View(s'.t)) == multiset(View(s.t)) + multiset{r}
  {
    InsertSorted(s.t.wal, r);
    AppendLive(s.t, r);
    InsertMultiset(LiveWal(s.t), r);
    InsertPast(LiveWal(s.t), r, s.watermark);
    assert View(s'.t) == Data(s.t.segs) + Insert(LiveWal(s.t), r);
  }

  lemma AppendLive(t: Tables, r: WalRow)
    requires Valid(t) && (t.segs != [] ==> r.ts > LastOf(t.segs))
    ensures LiveWal(t.(wal := Insert(t.wal, r))) == Insert(LiveWal(t), r)
  {
    var t' := t.(wal := Insert(t.wal, r));
    LiveIs(t);
    LiveIs(t');
    if t.segs != [] {
      FromInsert(t.wal, r, LastOf(t.segs) + 1);
    }
  }

  lemma InsertPast(rows: seq<WalRow>, r: WalRow, w: Option<int>)
    requires AllPast(rows, w) && (w.Some? ==> r.ts > w.value)
    ensures AllPast(Insert(rows, r), w)
  {
    var u := Insert(rows, r);
    InsertMultiset(rows, r);
    if w.Some? {
      forall i: nat | i < |u| ensures Past(u, i, w.value) {
        assert u[i] in u;
        if u[i] != r {
          var k: nat :| k < |rows| && rows[k] == u[i];
          assert Past(rows, k, w.value);
        }
      }
    }
  }

  // ------------------------------------------------------------------ adoption

  datatype Adoption = Refused | Held | Adopted(s: Stream)

  /** `adopt_segment`: insert a segment built elsewhere, or say why not. */
  function Adopt(s: Stream, seg: Segment): Adoption {
    if seg.rows == 0 || seg.first > seg.last then Refused
    else if s.watermark.Some? && seg.last <= s.watermark.value then Held
    else if s.watermark.Some? && seg.first <= s.watermark.value then Refused
    else if LiveWal(s.t) != [] && LiveWal(s.t)[0].ts <= seg.last then Refused
    else Adopted(InsertParts(s, [seg]))
  }

  /** Adoption is a pure insert below the live tail: it hides and deletes nothing. */
  lemma AdoptKeeps(s: Stream, seg: Segment)
    requires Inv(s) && SegmentOk(seg) && Adopt(s, seg).Adopted?
    ensures var s' := Adopt(s, seg).s;
            && Inv(s') && s'.t.wal == s.t.wal
            && LiveWal(s'.t) == LiveWal(s.t)
            && View(s'.t) == Data(s.t.segs) + seg.data + LiveWal(s.t)
  {
    OrderedOne(seg);
    InsertPartsInv(s, [seg]);
    InsertPartsLive(s.t, [seg], s.t.nums + Numbers(s.nextSeq, 1));
    LiveSorted(s.t);
    var live := LiveWal(s.t);
    assert From(live, seg.last + 1) == live by {
      var probe := live != [] && Below(live, 0, seg.last + 1);
      FromIs(live, seg.last + 1, 0);
    }
    assert Data(s.t.segs + [seg]) == Data(s.t.segs) + seg.data by {
      DataConcat(s.t.segs, [seg]);
      DataOne(seg);
    }
  }

  lemma LiveSorted(t: Tables)
    requires Valid(t)
    ensures Sorted(LiveWal(t))
  {
    LiveIs(t);
    if t.segs != [] {
      FromSorted(t.wal, LastOf(t.segs) + 1);
    }
  }

  // ------------------------------------------------------------------ retention

  /** `segments` after `DELETE ... WHERE last_ts < c`. */
  function KeepFrom(segs: seq<Segment>, c: int): seq<Segment> {
    if segs == [] then [] else
    (if segs[0].last >= c then [segs[0]] else []) + KeepFrom(segs[1..], c)
  }

  /** The numbers of the segments that delete keeps. */
  function KeepNums(segs: seq<Segment>, nums: seq<nat>, c: int): seq<nat> {
    if segs == [] || nums == [] then [] else
    (if segs[0].last >= c then [nums[0]] else []) + KeepNums(segs[1..], nums[1..], c)
  }

  /** The two deletes of a retention pass, in one transaction. */
  function Evict(t: Tables, c: int): Tables {
    Tables(From(t.wal, c), KeepFrom(t.segs, c), KeepNums(t.segs, t.nums, c))
  }

  lemma {:induction false} KeepFromIs(segs: seq<Segment>, nums: seq<nat>, c: int, k: nat)
    requires k <= |segs| == |nums|
    requires forall i :: 0 <= i < k ==> segs[i].last < c
    requires forall i :: k <= i < |segs| ==> segs[i].last >= c
    ensures KeepFrom(segs, c) == segs[k..] && KeepNums(segs, nums, c) == nums[k..]
  {
    if segs != [] {
      KeepFromIs(segs[1..], nums[1..], c, if k == 0 then 0 else k - 1);
    }
  }

  lemma KeepFromSuffix(segs: seq<Segment>, nums: seq<nat>, c: int) returns (k: nat)
    requires Ordered(segs) && |segs| == |nums|
    ensures k <= |segs| && KeepFrom(segs, c) == segs[k..] && KeepNums(segs, nums, c) == nums[k..]
    ensures forall i :: 0 <= i < |segs| ==> (i < k <==> segs[i].last < c)
  {
    k := 0;
    while k < |segs| && segs[k].last < c
      invariant k <= |segs|
      invariant forall i :: 0 <= i < k ==> segs[i].last < c
    {
      k := k + 1;
    }
    forall i: nat | k <= i < |segs| ensures segs[i].last >= c {
      OrderedEnds(segs, i);
      assert k < i ==> EndsBefore(segs, k, i);
      OrderedEnds(segs, k);
    }
    KeepFromIs(segs, nums, c, k);
  }

  /**
   * A retention pass removes exactly the segments wholly before the cutoff and the live
   * rows before it, although deleting segments lowers the watermark: a row it uncovers was
   * deleted with it. Surviving segments are a `seq` suffix, and the live rows lost number
   * what was counted before the deletes (src/archive/sqlite.rs:2798-2948).
   */
  lemma EvictExact(t: Tables, c: int) returns (k: nat)
    requires Valid(t)
    ensures Valid(Evict(t, c))
    ensures k <= |t.segs| && Evict(t, c).segs == t.segs[k..] && Evict(t, c).nums == t.nums[k..]
    ensures forall i :: 0 <= i < |t.segs| ==> (i < k <==> t.segs[i].last < c)
    ensures LiveWal(Evict(t, c)) == From(LiveWal(t), c)
    ensures View(Evict(t, c)) == Data(t.segs[k..]) + From(LiveWal(t), c)
    ensures CountBelow(LiveWal(t), c) == |LiveWal(t)| - |LiveWal(Evict(t, c))|
  {
    k := KeepFromSuffix(t.segs, t.nums, c);
    OrderedSlice(t.segs, k, |t.segs|);
    NumberingSlice(t.nums, k, |t.nums|);
    assert t.segs[k..|t.segs|] == t.segs[k..] && t.nums[k..|t.nums|] == t.nums[k..];
    FromSorted(t.wal, c);
    EvictLive(t, c, k);
    FromCount(LiveWal(t), c);
  }

  lemma EvictLive(t: Tables, c: int, k: nat)
    requires Sorted(t.wal) && Ordered(t.segs) && |t.segs| == |t.nums| && k <= |t.segs|
    requires Evict(t, c).segs == t.segs[k..] && Ordered(t.segs[k..])
    requires forall i :: 0 <= i < |t.segs| ==> (i < k <==> t.segs[i].last < c)
    ensures LiveWal(Evict(t, c)) == From(LiveWal(t), c)
  {
    LiveIs(t);
    LiveIs(Evict(t, c));
    if t.segs != [] {
      var w := LastOf(t.segs);
      FromFrom(t.wal, w + 1, c);
      if k < |t.segs| {
        assert LastOf(t.segs[k..]) == w;
        FromFrom(t.wal, c, w + 1);
      } else {
        assert t.segs[|t.segs| - 1].last < c;
      }
    }
  }

  lemma EvictKeeps(s: Stream, c: int)
    requires Inv(s)
    ensures Inv(s.(t := Evict(s.t, c)))
  {
    var k := EvictExact(s.t, c);
    assert k < |s.t.segs| ==> LastOf(s.t.segs[k..]) == LastOf(s.t.segs);
    UnderSuffix(s.t.nums, k, s.nextSeq);
    FromKeepsPast(LiveWal(s.t), c, s.watermark);
  }

  lemma UnderSuffix(nums: seq<nat>, k: nat, n: nat)
    requires Under(nums, n) && k <= |nums|
    ensures Under(nums[k..], n)
  {
    forall i: nat | i < |nums| - k ensures UnderAt(nums[k..], i, n) {
      assert UnderAt(nums, k + i, n);
    }
  }

  lemma FromKeepsPast(rows: seq<WalRow>, c: int, w: Option<int>)
    requires AllPast(rows, w)
    ensures AllPast(From(rows, c), w)
  {
    var u := From(rows, c);
    if w.Some? {
      forall i: nat | i < |u| ensures Past(u, i, w.value) {
        assert u[i] in u;
        FromMembers(rows, c, u[i]);
        var k: nat :| k < |rows| && rows[k] == u[i];
        assert Past(rows, k, w.value);
      }
    }
  }

  // ------------------------------------------------------------------ reopening

  /** `next_seqs` and `sealed_watermarks`: what a new writer seeds its memory from. */
  function Reopen(t: Tables): Stream {
    Stream(t, MaxPlusOne(t.nums), MaxLast(t.segs))
  }

  function MaxPlusOne(nums: seq<nat>): nat {
    if nums == [] then 0 else Max(nums[0] + 1, MaxPlusOne(nums[1..]))
  }

  lemma {:induction false} BelowMax(nums: seq<nat>)
    ensures Under(nums, MaxPlusOne(nums))
  {
    if nums != [] {
      BelowMax(nums[1..]);
      forall i: nat | i < |nums| ensures UnderAt(nums, i, MaxPlusOne(nums)) {
        assert i > 0 ==> UnderAt(nums[1..], i - 1, MaxPlusOne(nums[1..]));
      }
    }
  }

  /** A crash at any point followed by a reopen loses no visible row. */
  lemma ReopenKeeps(t: Tables)
    requires Valid(t)
    ensures Inv(Reopen(t)) && Reopen(t).t == t
  {
    BelowMax(t.nums);
    LiveIs(t);
    MaxLastIsLast(t.segs);
    if t.segs != [] {
      FromPast(t.wal, LastOf(t.segs));
    }
  }

  // ------------------------------------------------------------------ merging

  function SumRows(segs: seq<Segment>): nat {
    if segs == [] then 0 else segs[0].rows + SumRows(segs[1..])
  }

  /** The segment that replaces a run: outer span, summed catalog rows, concatenated contents. */
  function Merged(run: seq<Segment>): Segment
    requires run != []
  {
    Segment(SumRows(run), run[0].first, run[|run| - 1].last, Data(run))
  }

  /** One merge's transaction: delete `segs[at..at + n]`, insert at the first one's `seq`. */
  function MergeRun(t: Tables, at: nat, n: nat): Tables
    requires 0 < n && at + n <= |t.segs| == |t.nums|
  {
    Tables(t.wal,
           t.segs[..at] + [Merged(t.segs[at..at + n])] + t.segs[at + n..],
           t.nums[..at] + [t.nums[at]] + t.nums[at + n..])
  }

  lemma {:induction false} SumRowsIsData(segs: seq<Segment>)
    requires Ordered(segs)
    ensures SumRows(segs) == |Data(segs)|
  {
    if segs != [] {
      OrderedSlice(segs, 1, |segs|);
      assert segs[1..|segs|] == segs[1..];
      assert SoundAt(segs, 0);
      SumRowsIsData(segs[1..]);
    }
  }

  lemma {:induction false} SumRowsConcat(a: seq<Segment>, b: seq<Segment>)
    ensures SumRows(a + b) == SumRows(a) + SumRows(b)
  {
    if a == [] {
      assert a + b == b;
    } else {
      assert (a + b)[1..] == a[1..] + b;
      SumRowsConcat(a[1..], b);
    }
  }

  lemma MergedOk(run: seq<Segment>)
    requires Ordered(run) && run != []
    ensures SegmentOk(Merged(run))
  {
    DataSorted(run);
    SumRowsIsData(run);
  }

  lemma OrderedReplace(a: seq<Segment>, run: seq<Segment>, b: seq<Segment>)
    requires Ordered(a + run + b) && run != []
    ensures Ordered(a + [Merged(run)] + b)
    ensures Data(a + [Merged(run)] + b) == Data(a + run + b)
    ensures SumRows(a + [Merged(run)] + b) == SumRows(a + run + b)
  {
    var all := a + run + b;
    OrderedSlice(all, 0, |a|);
    OrderedSlice(all, |a|, |a| + |run|);
    OrderedSlice(all, |a| + |run|, |all|);
    assert all[0..|a|] == a && all[|a|..|a| + |run|] == run && all[|a| + |run|..|all|] == b;
    var m := Merged(run);
    MergedOk(run);
    OrderedOne(m);
    assert a != [] ==> EndsBefore(all, |a| - 1, |a|);
    assert b != [] ==> EndsBefore(all, |a| + |run| - 1, |a| + |run|);
    OrderedConcat(a, [m]);
    OrderedConcat(a + [m], b);
    MergedData(a, run, b);
    MergedSums(a, run, b);
  }

  lemma MergedData(a: seq<Segment>, run: seq<Segment>, b: seq<Segment>)
    requires run != []
    ensures Data(a + [Merged(run)] + b) == Data(a + run + b)
  {
    var m := Merged(run);
    DataConcat(a + run, b);
    DataConcat(a, run);
    DataConcat(a + [m], b);
    DataConcat(a, [m]);
    DataOne(m);
  }

  lemma MergedSums(a: seq<Segment>, run: seq<Segment>, b: seq<Segment>)
    requires run != []
    ensures SumRows(a + [Merged(run)] + b) == SumRows(a + run + b)
  {
    SumRowsConcat(a + run, b);
    SumRowsConcat(a, run);
    SumRowsConcat(a + [Merged(run)], b);
    SumRowsConcat(a, [Merged(run)]);
    assert [Merged(run)][1..] == [];
  }

  /**
   * A merge changes no row, no total and no watermark, and `seq` order stays time order.
   */
  lemma MergeKeeps(t: Tables, at: nat, n: nat)
    requires Valid(t) && 0 < n && at + n <= |t.segs|
    ensures Valid(MergeRun(t, at, n))
    ensures Data(MergeRun(t, at, n).segs) == Data(t.segs)
    ensures SumRows(MergeRun(t, at, n).segs) == SumRows(t.segs)
    ensures MaxLast(MergeRun(t, at, n).segs) == MaxLast(t.segs)
    ensures LiveWal(MergeRun(t, at, n)) == LiveWal(t)
    ensures View(MergeRun(t, at, n)) == View(t)
  {
    var a, run, b := t.segs[..at], t.segs[at..at + n], t.segs[at + n..];
    var t' := MergeRun(t, at, n);
    assert t.segs == a + run + b;
    OrderedReplace(a, run, b);
    MergedNumbers(t.nums, at, n);
    assert LastOf(t'.segs) == LastOf(t.segs);
    SameLast(t, t');
  }

  lemma SameLast(t: Tables, t': Tables)
    requires t'.wal == t.wal && Ordered(t.segs) && Ordered(t'.segs)
    requires t.segs != [] && t'.segs != [] && LastOf(t'.segs) == LastOf(t.segs)
    ensures MaxLast(t'.segs) == MaxLast(t.segs) && LiveWal(t') == LiveWal(t)
  {
    LiveIs(t);
    LiveIs(t');
  }

  lemma MergedNumbers(nums: seq<nat>, at: nat, n: nat)
    requires Numbering(nums) && 0 < n && at + n <= |nums|
    ensures Numbering(nums[..at] + [nums[at]] + nums[at + n..])
  {
    var c := nums[..at] + [nums[at]] + nums[at + n..];
    forall i: nat, j: nat | i < j < |c| ensures LessAt(c, i, j) {
      assert LessAt(nums, if i <= at then i else i + n - 1, if j <= at then j else j + n - 1);
    }
  }

  lemma MergeInv(s: Stream, at: nat, n: nat)
    requires Inv(s) && 0 < n && at + n <= |s.t.segs|
    ensures Inv(s.(t := MergeRun(s.t, at, n)))
  {
    MergeKeeps(s.t, at, n);
    MaxLastIsLast(s.t.segs);
    MaxLastIsLast(MergeRun(s.t, at, n).segs);
    var nums, nums' := s.t.nums, MergeRun(s.t, at, n).nums;
    forall i: nat | i < |nums'| ensures UnderAt(nums', i, s.nextSeq) {
      assert UnderAt(nums, if i <= at then i else i + n - 1, s.nextSeq);
    }
  }
}
