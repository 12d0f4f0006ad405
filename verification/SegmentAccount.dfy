/** The seal decision over an open segment, and what a caller that follows it produces (src/seal.rs). */
module SealAccount {
  import opened Types

  /** The caps, the age bound in nanoseconds, and the alignment in timestamp units. */
  datatype Policy = Policy(maxBytes: nat, maxRows: nat, maxAge: nat, align: Option<int>)

  /** The aligned bucket of a timestamp; the remainder of Euclidean division is never negative. */
  function BucketOf(align: Option<int>, ts: int): Option<int> {
    if align.Some? && align.value > 0 then Some(ts / align.value) else None
  }

  /** A first segment's cap, reduced by up to half. */
  function FirstCap(cap: nat, bucket: nat): nat
    requires bucket < 64
  {
    var offset := cap / 128 * bucket;
    if offset > cap then 0 else cap - offset
  }

  /** The staggered caps stay between half the policy's and the policy's, for every positive policy. */
  lemma FirstCapBetween(cap: nat, bucket: nat)
    requires bucket < 64
    ensures cap <= 2 * FirstCap(cap, bucket) && FirstCap(cap, bucket) <= cap
    ensures cap > 0 ==> FirstCap(cap, bucket) > 0
  {
    assert cap / 128 * bucket <= cap / 128 * 63;
  }

  /**
   * What spreads the streams' first seals: bucket 0 keeps the cap, and the caps of two buckets
   * are as many 128ths of it apart as the buckets are, so no two coincide once the cap has any.
   */
  lemma FirstCapsApart(cap: nat, a: nat, b: nat)
    requires a < 64 && b < 64
    ensures FirstCap(cap, 0) == cap
    ensures FirstCap(cap, a) - FirstCap(cap, b) == cap / 128 * (b - a)
    ensures FirstCap(cap, a) == FirstCap(cap, b) <==> a == b || cap < 128
  {
    FirstCapIs(cap, a, cap / 128);
    FirstCapIs(cap, b, cap / 128);
    Apart(cap / 128, a, b);
  }

  lemma FirstCapIs(cap: nat, bucket: nat, step: nat)
    requires bucket < 64 && step == cap / 128
    ensures FirstCap(cap, bucket) == cap - step * bucket
  {
    assert step * bucket <= step * 63;
  }

  lemma Apart(step: nat, a: nat, b: nat)
    ensures step * b - step * a == step * (b - a)
    ensures step * (b - a) == 0 <==> a == b || step == 0
  {}

  /** Every row of the segment in one aligned bucket. */
  ghost predicate OneBucket(align: Option<int>, seg: seq<int>) {
    forall i, j :: 0 <= i < |seg| && 0 <= j < |seg| ==> BucketOf(align, seg[i]) == BucketOf(align, seg[j])
  }

  /** All but the last row in one bucket. */
  ghost predicate OneBucketButLast(align: Option<int>, seg: seq<int>) {
    seg != [] && OneBucket(align, seg[..|seg| - 1])
  }

  ghost predicate AllOneBucket(align: Option<int>, segs: seq<seq<int>>) {
    forall k: nat :: k < |segs| ==> OneBucketAt(align, segs, k)
  }

  ghost predicate OneBucketAt(align: Option<int>, segs: seq<seq<int>>, k: nat)
    requires k < |segs|
  {
    OneBucket(align, segs[k])
  }

  ghost predicate AllButLast(align: Option<int>, segs: seq<seq<int>>) {
    forall k: nat :: k < |segs| ==> ButLastAt(align, segs, k)
  }

  ghost predicate ButLastAt(align: Option<int>, segs: seq<seq<int>>, k: nat)
    requires k < |segs|
  {
    OneBucketButLast(align, segs[k])
  }

  /** Every segment between one row and `most`. */
  ghost predicate AllSized(segs: seq<seq<int>>, most: nat) {
    forall k: nat :: k < |segs| ==> SizedAt(segs, k, most)
  }

  ghost predicate SizedAt(segs: seq<seq<int>>, k: nat, most: nat)
    requires k < |segs|
  {
    1 <= |segs[k]| <= most
  }

  lemma SizedMore(segs: seq<seq<int>>, seg: seq<int>, most: nat)
    requires AllSized(segs, most) && 1 <= |seg| <= most
    ensures AllSized(segs + [seg], most)
  {
    var more := segs + [seg];
    forall k: nat | k < |more| ensures SizedAt(more, k, most) {
      assert k < |segs| ==> SizedAt(segs, k, most);
    }
  }

  lemma MoreSegments(align: Option<int>, segs: seq<seq<int>>, seg: seq<int>)
    ensures AllOneBucket(align, segs) && OneBucket(align, seg) ==> AllOneBucket(align, segs + [seg])
    ensures AllButLast(align, segs) && OneBucketButLast(align, seg) ==> AllButLast(align, segs + [seg])
    ensures Joined(segs + [seg]) == Joined(segs) + seg
  {
    var more := segs + [seg];
    assert more[..|segs|] == segs;
    if AllOneBucket(align, segs) && OneBucket(align, seg) {
      forall k: nat | k < |more| ensures OneBucketAt(align, more, k) {
        assert k < |segs| ==> OneBucketAt(align, segs, k);
      }
    }
    if AllButLast(align, segs) && OneBucketButLast(align, seg) {
      forall k: nat | k < |more| ensures ButLastAt(align, more, k) {
        assert k < |segs| ==> ButLastAt(align, segs, k);
      }
    }
  }

  /** The segments cut, oldest first, and the open one, together. */
  function Joined(segs: seq<seq<int>>): seq<int> {
    if segs == [] then [] else Joined(segs[..|segs| - 1]) + segs[|segs| - 1]
  }

  class SegmentAccount {
    var align: Option<int>
    var firstBucket: Option<int>
    var lastBucket: Option<int>
    var rows: nat
    var approxBytes: nat
    var openedAt: int
    var maxBytes: nat
    var maxRows: nat
    var maxAge: nat
    /** The timestamps accounted since the segment was opened. */
    ghost var held: seq<int>

    /** The fields say of the open segment what its rows do. */
    ghost predicate Valid()
      reads this
    {
      && rows == |held|
      && firstBucket == (if held == [] then None else BucketOf(align, held[0]))
      && lastBucket == (if held == [] then None else BucketOf(align, held[|held| - 1]))
    }

    /** A stream's first segment: `bucket` is its stagger bucket. */
    constructor OpenFirst(bucket: nat, policy: Policy, now: int)
      requires bucket < 64
      ensures Valid() && held == [] && openedAt == now && approxBytes == 0 && align == policy.align
      ensures maxRows == Max(FirstCap(policy.maxRows, bucket), 1) && maxBytes == Max(FirstCap(policy.maxBytes, bucket), 1)
      ensures maxAge == FirstCap(policy.maxAge, bucket)
      ensures policy.maxRows <= 2 * maxRows && 1 <= maxRows <= Max(policy.maxRows, 1)
      ensures policy.maxBytes <= 2 * maxBytes && 1 <= maxBytes <= Max(policy.maxBytes, 1)
      ensures policy.maxAge <= 2 * maxAge && maxAge <= policy.maxAge
    {
      FirstCapBetween(policy.maxRows, bucket);
      FirstCapBetween(policy.maxBytes, bucket);
      FirstCapBetween(policy.maxAge, bucket);
      align, firstBucket, lastBucket := policy.align, None, None;
      rows, approxBytes, openedAt := 0, 0, now;
      maxBytes := Max(FirstCap(policy.maxBytes, bucket), 1);
      maxRows := Max(FirstCap(policy.maxRows, bucket), 1);
      maxAge := FirstCap(policy.maxAge, bucket);
      held := [];
    }

    method AddRow(bytes: nat, ts: int)
      requires Valid()
      modifies this
      ensures Valid() && held == old(held) + [ts]
      ensures approxBytes == old(approxBytes) + bytes
      ensures align == old(align) && openedAt == old(openedAt)
      ensures maxBytes == old(maxBytes) && maxRows == old(maxRows) && maxAge == old(maxAge)
    {
      rows := rows + 1;
      approxBytes := approxBytes + bytes;
      var bucket := BucketOf(align, ts);
      if bucket.Some? {
        if firstBucket.None? {
          firstBucket := bucket;
        }
        lastBucket := bucket;
      }
      held := held + [ts];
    }

    /** Whether the row's bucket is another one than the open segment's first row's. */
    predicate StartsNewBucket(ts: int)
      reads this
      requires Valid()
      ensures StartsNewBucket(ts) <==> held != [] && BucketOf(align, held[0]) != BucketOf(align, ts)
    {
      BucketOf(align, ts).Some? && firstBucket.Some? && BucketOf(align, ts).value != firstBucket.value
    }

    /** At one of the caps, or past the age bound. */
    predicate Full(now: int)
      reads this
    {
      approxBytes >= maxBytes || rows >= maxRows || Max(now - openedAt, 0) >= maxAge
    }

    /** Past any threshold, or already holding two buckets. */
    predicate IsDue(now: int)
      reads this
      requires Valid()
      ensures IsDue(now) <==> held != [] &&
                              (|held| >= maxRows || approxBytes >= maxBytes || now - openedAt >= maxAge || maxAge == 0
                               || BucketOf(align, held[0]) != BucketOf(align, held[|held| - 1]))
    {
      rows > 0 && (Full(now) || firstBucket != lastBucket)
    }

    method Rotate(policy: Policy, now: int)
      modifies this
      ensures Valid() && held == [] && approxBytes == 0 && openedAt == now && align == policy.align
      ensures maxBytes == policy.maxBytes && maxRows == policy.maxRows && maxAge == policy.maxAge
    {
      rows, approxBytes, openedAt := 0, 0, now;
      align, firstBucket, lastBucket := policy.align, None, None;
      maxBytes, maxRows, maxAge := policy.maxBytes, policy.maxRows, policy.maxAge;
      held := [];
    }
  }

  /**
   * A caller that asks before adding a row, and seals first when the row starts a bucket.
   * It may seal elsewhere too (`also`). Every segment lies inside one aligned bucket.
   */
  method SealBefore(account: SegmentAccount, policy: Policy, ts: seq<int>, now: seq<int>, also: set<nat>)
    returns (segs: seq<seq<int>>, open: seq<int>)
    requires account.Valid() && account.held == [] && account.align == policy.align && |now| == |ts|
    modifies account
    ensures AllOneBucket(policy.align, segs)
    ensures OneBucket(policy.align, open)
    ensures Joined(segs) + open == ts
  {
    segs, open := [], [];
    for i := 0 to |ts|
      invariant account.Valid() && account.held == open && account.align == policy.align
      invariant AllOneBucket(policy.align, segs)
      invariant OneBucket(policy.align, open)
      invariant Joined(segs) + open == ts[..i]
    {
      if account.StartsNewBucket(ts[i]) || (i in also && open != []) {
        account.Rotate(policy, now[i]);
        MoreSegments(policy.align, segs, open);
        segs, open := segs + [open], [];
      }
      account.AddRow(1, ts[i]);
      BucketGrows(policy.align, open, ts[i]);
      open := open + [ts[i]];
      assert ts[..i + 1] == ts[..i] + [ts[i]];
    }
    assert ts[..|ts|] == ts;
  }

  lemma RowTaken(ts: seq<int>, i: nat, done: seq<int>, open: seq<int>)
    requires i < |ts| && done + open == ts[..i]
    ensures done + (open + [ts[i]]) == ts[..i + 1]
  {
    assert ts[..i + 1] == ts[..i] + [ts[i]];
  }

  lemma SegmentClosed(align: Option<int>, segs: seq<seq<int>>, open: seq<int>, ts: int, held: seq<int>)
    requires AllButLast(align, segs) && OneBucket(align, open) && held == open + [ts]
    ensures AllButLast(align, segs + [held]) && Joined(segs + [held]) + [] == Joined(segs) + held
  {
    assert held[..|open|] == open;
    MoreSegments(align, segs, held);
  }

  lemma BucketGrows(align: Option<int>, seg: seq<int>, ts: int)
    requires OneBucket(align, seg) && (seg != [] ==> BucketOf(align, seg[0]) == BucketOf(align, ts))
    ensures OneBucket(align, seg + [ts])
  {
    forall i | 0 <= i < |seg| ensures BucketOf(align, seg[i]) == BucketOf(align, ts) {
      assert BucketOf(align, seg[i]) == BucketOf(align, seg[0]);
    }
  }

  /**
   * A caller that asks after each row, and seals when the segment is due. Only the last row
   * of a segment can be in another bucket than the rest.
   */
  method SealAfter(account: SegmentAccount, policy: Policy, ts: seq<int>, now: seq<int>, bytes: seq<nat>)
    returns (segs: seq<seq<int>>, open: seq<int>)
    requires account.Valid() && account.held == [] && account.align == policy.align && |now| == |ts| == |bytes|
    modifies account
    ensures AllButLast(policy.align, segs)
    ensures OneBucket(policy.align, open)
    ensures Joined(segs) + open == ts
    ensures AllSized(segs, Max(Max(old(account.maxRows), policy.maxRows), 1))
    ensures open != [] ==> |open| < Max(old(account.maxRows), policy.maxRows)
  {
    segs, open := [], [];
    ghost var most := Max(account.maxRows, policy.maxRows);
    for i := 0 to |ts|
      invariant account.maxRows <= most && (open != [] ==> |open| < account.maxRows)
      invariant AllSized(segs, Max(most, 1))
      invariant account.Valid() && account.held == open && account.align == policy.align
      invariant AllButLast(policy.align, segs)
      invariant OneBucket(policy.align, open)
      invariant Joined(segs) + open == ts[..i]
    {
      account.AddRow(bytes[i], ts[i]);
      ghost var held := open + [ts[i]];
      RowTaken(ts, i, Joined(segs), open);
      if account.IsDue(now[i]) {
        account.Rotate(policy, now[i]);
        SegmentClosed(policy.align, segs, open, ts[i], held);
        SizedMore(segs, held, Max(most, 1));
        segs, open := segs + [open + [ts[i]]], [];
      } else {
        BucketGrows(policy.align, open, ts[i]);
        open := open + [ts[i]];
      }
    }
    assert ts[..|ts|] == ts;
  }

  /** The `k`th window of the alignment holds the timestamp. */
  ghost predicate InWindow(width: int, k: int, ts: int) {
    k * width <= ts < (k + 1) * width
  }

  /** A timestamp is in the window its bucket numbers, and in no other. */
  lemma WindowOf(width: int, ts: int, k: int)
    requires width > 0
    ensures InWindow(width, k, ts) <==> BucketOf(Some(width), ts) == Some(k)
  {
    var q := ts / width;
    assert ts == q * width + ts % width;
    Stretch(width, k);
    Stretch(width, q);
    if k < q {
      WindowsApart(width, k, q);
    } else if k > q {
      WindowsApart(width, q, k);
    }
  }

  lemma Stretch(width: int, k: int)
    ensures (k + 1) * width == k * width + width
  {}

  lemma WindowsApart(width: int, k: int, q: int)
    requires width > 0 && k < q
    ensures k * width + width <= q * width
  {
    AtLeast(width, q - k);
    Distributes(width, k, q - k);
  }

  lemma AtLeast(width: int, d: int)
    requires width > 0 && d > 0
    ensures d * width >= width
  {}

  lemma Distributes(width: int, k: int, d: int)
    ensures (k + d) * width == k * width + d * width
  {}

  /** Two timestamps have one bucket exactly when one window holds both; without a width there is none. */
  lemma BucketsAreWindows(align: Option<int>, a: int, b: int)
    ensures align.Some? && align.value > 0 ==>
              (BucketOf(align, a) == BucketOf(align, b) <==>
                 exists k :: InWindow(align.value, k, a) && InWindow(align.value, k, b))
    ensures align.None? || align.value <= 0 ==> BucketOf(align, a).None?
  {
    if align.Some? && align.value > 0 {
      var k := BucketOf(align, a).value;
      WindowOf(align.value, a, k);
      WindowOf(align.value, b, k);
      if l :| InWindow(align.value, l, a) && InWindow(align.value, l, b) {
        WindowOf(align.value, a, l);
        WindowOf(align.value, b, l);
      }
    }
  }

  /** One bucket means one window: timestamps, negative ones too, less than the width apart. */
  lemma OneBucketWindow(width: int, seg: seq<int>, i: int, j: int)
    requires width > 0 && OneBucket(Some(width), seg) && 0 <= i < |seg| && 0 <= j < |seg|
    ensures var edge := seg[i] / width * width;
            edge <= seg[j] < edge + width
  {
    assert BucketOf(Some(width), seg[i]) == BucketOf(Some(width), seg[j]);
    assert seg[j] / width == seg[i] / width;
  }
}
