/**
 * Compaction (src/rewrite.rs): the greedy planner, the merge it drives, and what a pass
 * keeps, costs and leaves for the next one.
 */
module Compaction {
  import opened Types
  import opened Rows
  import opened Encoding
  import opened Catalog

  /**
   * The schema policy and the metadata merge together, over what segment files say about
   * themselves (a tag: schema and key-value metadata). `admits(run, next)` is whether `next`
   * joins the run so far, `join(first, rest)` is what the merged file says.
   */
  datatype Policy<!C> = Policy(admits: (seq<C>, C) -> bool, join: (C, seq<C>) -> C)

  /** Where a planned run ends: adjacent segments whose rows fit the target. */
  function PlanEnd(segs: seq<Segment>, cap: nat, end: nat, rows: nat): (r: nat)
    requires end <= |segs|
    ensures end <= r <= |segs|
    decreases |segs| - end
  {
    if end < |segs| && rows + segs[end].rows <= cap
    then PlanEnd(segs, cap, end + 1, rows + segs[end].rows) else end
  }

  /** How many segments of the planned run `[at, end)` the policy admits, counting from `n`. */
  function Consumed<C>(p: Policy<C>, tags: seq<C>, at: nat, end: nat, n: nat): (r: nat)
    requires at + n <= end <= |tags|
    ensures n <= r <= end - at
    decreases end - at - n
  {
    if at + n < end && p.admits(tags[at..at + n], tags[at + n]) then Consumed(p, tags, at, end, n + 1) else n
  }

  /** How many segments that opens: each one admitted, and the one refused. */
  function Opened(consumed: nat, planned: nat): nat {
    if consumed < planned then consumed + 1 else consumed
  }

  /** The run at `at` that one merge replaces, or 1 where nothing merges. */
  function RunAt<C>(p: Policy<C>, segs: seq<Segment>, tags: seq<C>, cap: nat, at: nat): (n: nat)
    requires at < |segs| == |tags|
    ensures 1 <= n <= |segs| - at
  {
    var end := PlanEnd(segs, cap, at, 0);
    if end - at < 2 then 1 else
    var c := Consumed(p, tags, at, end, 0);
    if c < 2 then 1 else c
  }

  function Replacement(run: seq<Segment>): Segment
    requires run != []
  {
    if |run| == 1 then run[0] else Merged(run)
  }

  function ReplacementTag<C>(p: Policy<C>, run: seq<C>): C
    requires run != []
  {
    if |run| == 1 then run[0] else p.join(run[0], run[1..])
  }

  /** `lens[at]` is how many segments a pass standing at `at` takes together. */
  predicate Runs(lens: seq<nat>) {
    forall at: nat :: at < |lens| ==> RunOk(lens, at)
  }

  predicate RunOk(lens: seq<nat>, at: nat)
    requires at < |lens|
  {
    1 <= lens[at] <= |lens| - at
  }

  function Lens<C>(p: Policy<C>, segs: seq<Segment>, tags: seq<C>, cap: nat): (lens: seq<nat>)
    requires |segs| == |tags|
    ensures |lens| == |segs| && Runs(lens)
    ensures forall at: nat :: at < |segs| ==> lens[at] == RunAt(p, segs, tags, cap, at)
  {
    seq(|segs|, at requires 0 <= at < |segs| => RunAt(p, segs, tags, cap, at))
  }

  /** What replaces the run at each position. */
  function Outs(segs: seq<Segment>, lens: seq<nat>): (outs: seq<Segment>)
    requires |segs| == |lens| && Runs(lens)
    ensures |outs| == |segs|
    ensures forall at: nat :: at < |segs| ==> RunOk(lens, at) && outs[at] == Replacement(segs[at..at + lens[at]])
  {
    seq(|segs|, at requires 0 <= at < |segs| => assert RunOk(lens, at); Replacement(segs[at..at + lens[at]]))
  }

  function OutTags<C>(p: Policy<C>, tags: seq<C>, lens: seq<nat>): (outs: seq<C>)
    requires |tags| == |lens| && Runs(lens)
    ensures |outs| == |tags|
    ensures forall at: nat :: at < |tags| ==> RunOk(lens, at) && outs[at] == ReplacementTag(p, tags[at..at + lens[at]])
  {
    seq(|tags|, at requires 0 <= at < |tags| => assert RunOk(lens, at); ReplacementTag(p, tags[at..at + lens[at]]))
  }

  /** How many segments the plan at each position opens. */
  function Costs<C>(p: Policy<C>, segs: seq<Segment>, tags: seq<C>, cap: nat): (costs: seq<nat>)
    requires |segs| == |tags|
    ensures |costs| == |segs|
    ensures forall at: nat :: at < |segs| ==> costs[at] == OpensAt(p, segs, tags, cap, at)
  {
    seq(|segs|, at requires 0 <= at < |segs| => OpensAt(p, segs, tags, cap, at))
  }

  function OpensAt<C>(p: Policy<C>, segs: seq<Segment>, tags: seq<C>, cap: nat, at: nat): nat
    requires at < |segs| == |tags|
  {
    var end := PlanEnd(segs, cap, at, 0);
    if end - at < 2 then 0 else Opened(Consumed(p, tags, at, end, 0), end - at)
  }

  /** What the pass visits from `at` on, run by run. */
  function Pick<T>(xs: seq<T>, lens: seq<nat>, at: nat): seq<T>
    requires at <= |lens| == |xs| && Runs(lens)
    decreases |lens| - at
  {
    if at == |lens| then [] else
    assert RunOk(lens, at); [xs[at]] + Pick(xs, lens, at + lens[at])
  }

  function CountMerges(lens: seq<nat>, at: nat): nat
    requires at <= |lens| && Runs(lens)
    decreases |lens| - at
  {
    if at == |lens| then 0 else
    assert RunOk(lens, at); (if lens[at] > 1 then 1 else 0) + CountMerges(lens, at + lens[at])
  }

  function CountOpens(costs: seq<nat>, lens: seq<nat>, at: nat): nat
    requires at <= |lens| == |costs| && Runs(lens)
    decreases |lens| - at
  {
    if at == |lens| then 0 else
    assert RunOk(lens, at); costs[at] + CountOpens(costs, lens, at + lens[at])
  }

  /** The segments one pass leaves. */
  function Compact<C>(p: Policy<C>, segs: seq<Segment>, tags: seq<C>, cap: nat): seq<Segment>
    requires |segs| == |tags|
  {
    var lens := Lens(p, segs, tags, cap);
    Pick(Outs(segs, lens), lens, 0)
  }

  /** What they say about themselves. */
  function CompactTags<C>(p: Policy<C>, segs: seq<Segment>, tags: seq<C>, cap: nat): seq<C>
    requires |segs| == |tags|
  {
    var lens := Lens(p, segs, tags, cap);
    Pick(OutTags(p, tags, lens), lens, 0)
  }

  function Merges<C>(p: Policy<C>, segs: seq<Segment>, tags: seq<C>, cap: nat): nat
    requires |segs| == |tags|
  {
    CountMerges(Lens(p, segs, tags, cap), 0)
  }

  function Opens<C>(p: Policy<C>, segs: seq<Segment>, tags: seq<C>, cap: nat): nat
    requires |segs| == |tags|
  {
    CountOpens(Costs(p, segs, tags, cap), Lens(p, segs, tags, cap), 0)
  }

  lemma {:induction false} CountOpensBound(costs: seq<nat>, lens: seq<nat>, at: nat)
    requires at <= |lens| == |costs| && Runs(lens)
    requires forall i :: 0 <= i < |lens| ==> costs[i] <= 2 * lens[i]
    ensures CountOpens(costs, lens, at) <= 2 * (|lens| - at)
    decreases |lens| - at
  {
    if at < |lens| {
      assert RunOk(lens, at);
      CountOpensBound(costs, lens, at + lens[at]);
    }
  }

  /** One pass opens at most twice as many segments as the stream holds, under any policy. */
  lemma {:induction false} OpensBound<C>(p: Policy<C>, segs: seq<Segment>, tags: seq<C>, cap: nat)
    requires |segs| == |tags|
    ensures Opens(p, segs, tags, cap) <= 2 * |segs|
  {
    var costs, lens := Costs(p, segs, tags, cap), Lens(p, segs, tags, cap);
    forall i | 0 <= i < |lens| ensures costs[i] <= 2 * lens[i] {
      assert costs[i] == OpensAt(p, segs, tags, cap, i) && lens[i] == RunAt(p, segs, tags, cap, i);
    }
    CountOpensBound(costs, lens, 0);
  }

  lemma {:induction false} PickLength<T, U>(xs: seq<T>, ys: seq<U>, lens: seq<nat>, at: nat)
    requires at <= |lens| == |xs| == |ys| && Runs(lens)
    ensures |Pick(xs, lens, at)| == |Pick(ys, lens, at)|
    decreases |lens| - at
  {
    if at < |lens| {
      assert RunOk(lens, at);
      PickLength(xs, ys, lens, at + lens[at]);
    }
  }

  // ------------------------------------------------------------------ meaning

  /** The catalog rows of `segs[at..end]`. */
  function RowsIn(segs: seq<Segment>, at: nat, end: nat): nat
    requires at <= end <= |segs|
    decreases end
  {
    if at == end then 0 else RowsIn(segs, at, end - 1) + segs[end - 1].rows
  }

  lemma {:induction false} PlanFits(segs: seq<Segment>, cap: nat, at: nat, end: nat, rows: nat)
    requires at <= end <= |segs| && rows == RowsIn(segs, at, end) <= cap
    ensures var r := PlanEnd(segs, cap, end, rows);
            RowsIn(segs, at, r) <= cap && (r < |segs| ==> RowsIn(segs, at, r) + segs[r].rows > cap)
    decreases |segs| - end
  {
    if end < |segs| && rows + segs[end].rows <= cap {
      PlanFits(segs, cap, at, end + 1, rows + segs[end].rows);
    }
  }

  lemma {:induction false} RowsInSum(segs: seq<Segment>, at: nat, end: nat)
    requires at <= end <= |segs|
    ensures SumRows(segs[at..end]) == RowsIn(segs, at, end)
    decreases end
  {
    if at < end {
      RowsInSum(segs, at, end - 1);
      assert segs[at..end] == segs[at..end - 1] + [segs[end - 1]];
      SumRowsConcat(segs[at..end - 1], [segs[end - 1]]);
      assert [segs[end - 1]][1..] == [];
    } else {
      assert segs[at..end] == [];
    }
  }

  lemma {:induction false} RowsInMono(segs: seq<Segment>, at: nat, mid: nat, end: nat)
    requires at <= mid <= end <= |segs|
    ensures RowsIn(segs, at, mid) <= RowsIn(segs, at, end)
    decreases end
  {
    if mid < end {
      RowsInMono(segs, at, mid, end - 1);
    }
  }

  /** A merged segment holds at most the target's catalog rows. */
  lemma {:induction false} MergedFits<C>(p: Policy<C>, segs: seq<Segment>, tags: seq<C>, cap: nat, at: nat)
    requires at < |segs| == |tags|
    ensures var n := RunAt(p, segs, tags, cap, at);
            n > 1 ==> Replacement(segs[at..at + n]).rows <= cap
  {
    var n := RunAt(p, segs, tags, cap, at);
    if n > 1 {
      PlanFits(segs, cap, at, at, 0);
      RowsInMono(segs, at, at + n, PlanEnd(segs, cap, at, 0));
      RowsInSum(segs, at, at + n);
    }
  }

  /** What a pass keeps: the rows, their total, and the outer span. */
  ghost predicate SameMeaning(a: seq<Segment>, b: seq<Segment>) {
    && Data(b) == Data(a)
    && SumRows(b) == SumRows(a)
    && (a == [] <==> b == [])
    && (a != [] ==> b[0].first == a[0].first && LastOf(b) == LastOf(a))
  }

  /** Ordered segments stay ordered and keep their meaning. */
  ghost predicate Keeps(a: seq<Segment>, b: seq<Segment>) {
    forall n: nat :: KeepsTo(a, b, n)
  }

  ghost predicate KeepsTo(a: seq<Segment>, b: seq<Segment>, n: nat) {
    |a| == n && Ordered(a) ==> Ordered(b) && SameMeaning(a, b)
  }

  lemma ReplacementMeaning(run: seq<Segment>)
    requires run != [] && Ordered(run)
    ensures Ordered([Replacement(run)]) && SameMeaning(run, [Replacement(run)])
  {
    if |run| == 1 {
      assert run == [run[0]];
    } else {
      MergedOk(run);
      OrderedOne(Merged(run));
      DataOne(Merged(run));
      assert [Merged(run)][1..] == [];
    }
  }

  lemma JoinMeaning(a: seq<Segment>, a': seq<Segment>, b: seq<Segment>, b': seq<Segment>)
    requires a != [] && Ordered(a + b) && Ordered(a') && Ordered(b')
    requires SameMeaning(a, a') && SameMeaning(b, b')
    ensures Ordered(a' + b') && SameMeaning(a + b, a' + b')
  {
    if b != [] {
      assert (a + b)[|a| - 1] == a[|a| - 1] && (a + b)[|a|] == b[0];
      assert EndsBefore(a + b, |a| - 1, |a|);
      assert LastOf(a + b) == LastOf(b) && LastOf(a' + b') == LastOf(b');
    } else {
      assert a + b == a && a' + b' == a';
    }
    OrderedConcat(a', b');
    DataConcat(a, b);
    DataConcat(a', b');
    SumRowsConcat(a, b);
    SumRowsConcat(a', b');
  }

  lemma SplitOrdered(a: seq<Segment>, b: seq<Segment>)
    requires Ordered(a + b)
    ensures Ordered(a) && Ordered(b)
  {
    OrderedSlice(a + b, 0, |a|);
    OrderedSlice(a + b, |a|, |a + b|);
    assert (a + b)[0..|a|] == a && (a + b)[|a|..|a + b|] == b;
  }

  lemma StepKeeps(run: seq<Segment>, rest: seq<Segment>, out: seq<Segment>)
    requires run != [] && Keeps(rest, out)
    ensures Keeps(run + rest, [Replacement(run)] + out)
  {
    if Ordered(run + rest) {
      SplitOrdered(run, rest);
      assert KeepsTo(rest, out, |rest|);
      ReplacementMeaning(run);
      JoinMeaning(run, [Replacement(run)], rest, out);
    }
  }

  lemma {:induction false} PickKeeps(segs: seq<Segment>, lens: seq<nat>, outs: seq<Segment>, at: nat)
    requires at <= |segs| == |lens| && Runs(lens) && outs == Outs(segs, lens)
    ensures Keeps(segs[at..], Pick(outs, lens, at))
    decreases |segs| - at
  {
    if at < |segs| {
      assert RunOk(lens, at);
      var n := lens[at];
      PickKeeps(segs, lens, outs, at + n);
      assert segs[at..] == segs[at..at + n] + segs[at + n..];
      StepKeeps(segs[at..at + n], segs[at + n..], Pick(outs, lens, at + n));
    }
  }

  /** A pass changes no row and no total, keeps time order and leaves the watermark where it was. */
  lemma {:induction false} CompactMeaning<C>(p: Policy<C>, segs: seq<Segment>, tags: seq<C>, cap: nat)
    requires Ordered(segs) && |segs| == |tags|
    ensures Ordered(Compact(p, segs, tags, cap))
    ensures SameMeaning(segs, Compact(p, segs, tags, cap))
  {
    var lens := Lens(p, segs, tags, cap);
    PickKeeps(segs, lens, Outs(segs, lens), 0);
    assert segs[0..] == segs;
    assert KeepsTo(segs, Compact(p, segs, tags, cap), |segs|);
  }

  // ------------------------------------------------------------------ a second pass

  /**
   * `StopAtChange` with identical-metadata merging and writer properties that carry no
   * key-values: a run is segments that say the same, and so does the merged one.
   */
  function StopAtChange<C(==)>(): Policy<C> {
    Policy((run: seq<C>, next: C) => run == [] || run[0] == next, (first: C, rest: seq<C>) => first)
  }

  /** Neighbours no run can hold both of. */
  ghost predicate Apart<C>(segs: seq<Segment>, tags: seq<C>, cap: nat, i: nat)
    requires i + 1 < |segs| == |tags|
  {
    segs[i].rows + segs[i + 1].rows > cap || tags[i] != tags[i + 1]
  }

  ghost predicate AllApart<C>(segs: seq<Segment>, tags: seq<C>, cap: nat)
    requires |segs| == |tags|
  {
    forall i: nat :: i + 1 < |segs| ==> Apart(segs, tags, cap, i)
  }

  lemma {:induction false} ConsumedStops<C>(p: Policy<C>, tags: seq<C>, at: nat, end: nat, n: nat)
    requires at + n <= end <= |tags|
    ensures var r := Consumed(p, tags, at, end, n);
            at + r < end ==> !p.admits(tags[at..at + r], tags[at + r])
    decreases end - at - n
  {
    if at + n < end && p.admits(tags[at..at + n], tags[at + n]) {
      ConsumedStops(p, tags, at, end, n + 1);
    }
  }

  /** Where a run ends, the next segment is too big for it or says something else. */
  lemma {:induction false} RunStops<C>(segs: seq<Segment>, tags: seq<C>, cap: nat, at: nat)
    requires at < |segs| == |tags|
    ensures var n := RunAt(StopAtChange(), segs, tags, cap, at);
            at + n < |segs| ==> RowsIn(segs, at, at + n) + segs[at + n].rows > cap || tags[at] != tags[at + n]
  {
    var p: Policy<C> := StopAtChange();
    var n, end := RunAt(p, segs, tags, cap, at), PlanEnd(segs, cap, at, 0);
    PlanFits(segs, cap, at, at, 0);
    assert RowsIn(segs, at, at + 1) == RowsIn(segs, at, at) + segs[at].rows;
    if end - at >= 2 {
      var c := Consumed(p, tags, at, end, 0);
      ConsumedStops(p, tags, at, end, 0);
      assert c >= 1 by {
        assert p.admits(tags[at..at + 0], tags[at + 0]);
      }
      assert tags[at..at + c][0] == tags[at];
    }
  }

  /** What replaces a run says what its first segment said, and is no smaller than it. */
  lemma {:induction false} ReplacementHead<C>(segs: seq<Segment>, tags: seq<C>, at: nat, n: nat)
    requires |segs| == |tags| && 1 <= n <= |segs| - at
    ensures ReplacementTag(StopAtChange(), tags[at..at + n]) == tags[at]
    ensures Replacement(segs[at..at + n]).rows == RowsIn(segs, at, at + n) >= segs[at].rows
  {
    RowsInSum(segs, at, at + n);
    RowsInMono(segs, at, at + 1, at + n);
    assert RowsIn(segs, at, at + 1) == RowsIn(segs, at, at) + segs[at].rows;
  }

  lemma {:induction false} ConsApart<C>(s: Segment, tag: C, segs: seq<Segment>, tags: seq<C>, cap: nat)
    requires |segs| == |tags| && AllApart(segs, tags, cap)
    requires segs != [] ==> s.rows + segs[0].rows > cap || tag != tags[0]
    ensures AllApart([s] + segs, [tag] + tags, cap)
  {
    forall i: nat | i < |segs| ensures Apart([s] + segs, [tag] + tags, cap, i) {
      if i > 0 {
        assert Apart(segs, tags, cap, i - 1);
      }
    }
  }

  /** What a run is replaced by, and why it ends where it does. */
  ghost predicate Stops<C>(segs: seq<Segment>, tags: seq<C>, outs: seq<Segment>, outTags: seq<C>, lens: seq<nat>, cap: nat, at: nat)
    requires at < |segs| == |tags| == |outs| == |outTags| == |lens|
  {
    && outTags[at] == tags[at]
    && outs[at].rows >= segs[at].rows
    && (at + lens[at] < |segs| ==> outs[at].rows + segs[at + lens[at]].rows > cap || tags[at] != tags[at + lens[at]])
  }

  lemma {:induction false} PassStops<C>(segs: seq<Segment>, tags: seq<C>, cap: nat, at: nat)
    requires at < |segs| == |tags|
    ensures var lens := Lens(StopAtChange(), segs, tags, cap);
            Stops(segs, tags, Outs(segs, lens), OutTags(StopAtChange(), tags, lens), lens, cap, at)
  {
    RunStops(segs, tags, cap, at);
    ReplacementHead(segs, tags, at, RunAt(StopAtChange(), segs, tags, cap, at));
  }

  lemma {:induction false} PickApart<C>(
    segs: seq<Segment>, tags: seq<C>, outs: seq<Segment>, outTags: seq<C>, lens: seq<nat>, cap: nat, at: nat)
    requires at <= |segs| == |tags| == |outs| == |outTags| == |lens| && Runs(lens)
    requires forall i: nat :: i < |segs| ==> Stops(segs, tags, outs, outTags, lens, cap, i)
    ensures |Pick(outs, lens, at)| == |Pick(outTags, lens, at)| && AllApart(Pick(outs, lens, at), Pick(outTags, lens, at), cap)
    decreases |segs| - at
  {
    if at < |segs| {
      assert RunOk(lens, at) && Stops(segs, tags, outs, outTags, lens, cap, at);
      var next := at + lens[at];
      PickApart(segs, tags, outs, outTags, lens, cap, next);
      if next < |segs| {
        assert Stops(segs, tags, outs, outTags, lens, cap, next);
      }
      ConsApart(outs[at], outTags[at], Pick(outs, lens, next), Pick(outTags, lens, next), cap);
    }
  }

  lemma {:induction false} PickAlone<T>(xs: seq<T>, lens: seq<nat>, at: nat)
    requires at <= |lens| == |xs| && Runs(lens) && forall i :: 0 <= i < |lens| ==> lens[i] == 1
    ensures Pick(xs, lens, at) == xs[at..] && CountMerges(lens, at) == 0
    decreases |lens| - at
  {
    if at < |lens| {
      PickAlone(xs, lens, at + 1);
      assert xs[at..] == [xs[at]] + xs[at + 1..];
    }
  }

  lemma {:induction false} ApartStays<C>(segs: seq<Segment>, tags: seq<C>, cap: nat)
    requires |segs| == |tags| && AllApart(segs, tags, cap)
    ensures Merges(StopAtChange(), segs, tags, cap) == 0 && Compact(StopAtChange(), segs, tags, cap) == segs
  {
    var lens := Lens(StopAtChange(), segs, tags, cap);
    forall i: nat | i < |segs| ensures lens[i] == 1 {
      ApartAlone(segs, tags, cap, i);
    }
    var outs := Outs(segs, lens);
    assert outs == segs;
    PickAlone(outs, lens, 0);
  }

  lemma {:induction false} ApartAlone<C>(segs: seq<Segment>, tags: seq<C>, cap: nat, at: nat)
    requires at < |segs| == |tags| && AllApart(segs, tags, cap)
    ensures RunAt(StopAtChange(), segs, tags, cap, at) == 1
  {
    var p: Policy<C> := StopAtChange();
    var n, end := RunAt(p, segs, tags, cap, at), PlanEnd(segs, cap, at, 0);
    if n > 1 {
      PlanFits(segs, cap, at, at, 0);
      RowsInMono(segs, at, at + 2, end);
      assert RowsIn(segs, at, at + 2) == RowsIn(segs, at, at) + segs[at].rows + segs[at + 1].rows;
      assert Apart(segs, tags, cap, at);
      SecondAdmitted(tags, at, end);
    }
  }

  lemma {:induction false} SecondAdmitted<C>(tags: seq<C>, at: nat, end: nat)
    requires at + 2 <= end <= |tags| && Consumed(StopAtChange(), tags, at, end, 0) >= 2
    ensures tags[at] == tags[at + 1]
  {
    var p: Policy<C> := StopAtChange();
    assert Consumed(p, tags, at, end, 0) == Consumed(p, tags, at, end, 1);
    assert p.admits(tags[at..at + 1], tags[at + 1]);
    assert tags[at..at + 1][0] == tags[at];
  }

  /** A second pass at the same target merges nothing and leaves the stream as it was. */
  lemma {:induction false} SecondPassIdle<C>(segs: seq<Segment>, tags: seq<C>, cap: nat)
    requires |segs| == |tags|
    ensures var once, says := Compact(StopAtChange(), segs, tags, cap), CompactTags(StopAtChange(), segs, tags, cap);
            && |once| == |says|
            && Merges(StopAtChange(), once, says, cap) == 0
            && Compact(StopAtChange(), once, says, cap) == once
  {
    var lens := Lens(StopAtChange(), segs, tags, cap);
    var outs, outTags := Outs(segs, lens), OutTags(StopAtChange(), tags, lens);
    forall at: nat | at < |segs| ensures Stops(segs, tags, outs, outTags, lens, cap, at) {
      PassStops(segs, tags, cap, at);
    }
    PickApart(segs, tags, outs, outTags, lens, cap, 0);
    ApartStays(Pick(outs, lens, 0), Pick(outTags, lens, 0), cap);
  }

  // ------------------------------------------------------------------ the pass in place

  /** What one pass did. */
  datatype Compacted = Compacted(before: nat, after: nat, merges: nat)

  /** A committed point of a pass: nothing a reader, a seal or retention looks at has changed. */
  ghost predicate Committed(t: Tables, t': Tables) {
    && Valid(t')
    && t'.wal == t.wal
    && Data(t'.segs) == Data(t.segs)
    && SumRows(t'.segs) == SumRows(t.segs)
    && MaxLast(t'.segs) == MaxLast(t.segs)
    && LiveWal(t') == LiveWal(t)
  }

  /** A run replaced by one element where it stands. */
  function Splicing<T>(now: seq<T>, pos: nat, n: nat, x: T): seq<T>
    requires pos + n <= |now|
  {
    now[..pos] + [x] + now[pos + n..]
  }

  /**
   * A pass at `at` of `s` has left `out` behind, the rest is as it was, and `out` begins what
   * the whole pass picks from `xs`.
   */
  ghost predicate Stands<T>(s: seq<T>, xs: seq<T>, lens: seq<nat>, at: nat, out: seq<T>, now: seq<T>)
    requires |s| == |xs| == |lens| && Runs(lens)
  {
    forall i: nat :: StandsAt(s, xs, lens, at, out, now, i)
  }

  ghost predicate StandsAt<T>(s: seq<T>, xs: seq<T>, lens: seq<nat>, at: nat, out: seq<T>, now: seq<T>, i: nat)
    requires |s| == |xs| == |lens| && Runs(lens)
  {
    i == at ==> at <= |s| && now == out + s[at..] && out + Pick(xs, lens, at) == Pick(xs, lens, 0)
  }

  lemma {:induction false} Begin<T>(s: seq<T>, xs: seq<T>, lens: seq<nat>)
    requires |s| == |xs| == |lens| && Runs(lens)
    ensures Stands(s, xs, lens, 0, [], s)
  {
    assert [] + s[0..] == s && [] + Pick(xs, lens, 0) == Pick(xs, lens, 0);
  }

  lemma {:induction false} Finish<T>(s: seq<T>, xs: seq<T>, lens: seq<nat>, at: nat, out: seq<T>, now: seq<T>)
    requires |s| == |xs| == |lens| && Runs(lens) && Stands(s, xs, lens, at, out, now) && at >= |s|
    ensures now == Pick(xs, lens, 0)
  {
    assert StandsAt(s, xs, lens, at, out, now, at);
    assert out + s[at..] == out && out + [] == out;
  }

  lemma {:induction false} Place<T>(s: seq<T>, xs: seq<T>, lens: seq<nat>, at: nat, out: seq<T>, now: seq<T>)
    requires |s| == |xs| == |lens| && Runs(lens) && Stands(s, xs, lens, at, out, now) && at < |s|
    ensures |now| == |out| + |s| - at && RunOk(lens, at) && now[|out|..|out| + lens[at]] == s[at..at + lens[at]]
  {
    assert StandsAt(s, xs, lens, at, out, now, at) && RunOk(lens, at);
  }

  lemma {:induction false} PickMore<T>(xs: seq<T>, lens: seq<nat>, at: nat, out: seq<T>)
    requires at < |lens| == |xs| && Runs(lens)
    ensures RunOk(lens, at) && out + Pick(xs, lens, at) == (out + [xs[at]]) + Pick(xs, lens, at + lens[at])
  {
    assert RunOk(lens, at);
    var rest := Pick(xs, lens, at + lens[at]);
    assert out + ([xs[at]] + rest) == (out + [xs[at]]) + rest;
  }

  /** A segment left alone. */
  lemma {:induction false} SkipOne<T>(s: seq<T>, xs: seq<T>, lens: seq<nat>, at: nat, out: seq<T>, now: seq<T>)
    requires |s| == |xs| == |lens| && Runs(lens) && Stands(s, xs, lens, at, out, now)
    requires at < |s| && lens[at] == 1 && xs[at] == s[at]
    ensures Stands(s, xs, lens, at + 1, out + [xs[at]], now)
  {
    assert StandsAt(s, xs, lens, at, out, now, at);
    PickMore(xs, lens, at, out);
    assert out + s[at..] == (out + [s[at]]) + s[at + 1..];
  }

  /** A run merged. */
  lemma {:induction false} MergeSome<T>(s: seq<T>, xs: seq<T>, lens: seq<nat>, at: nat, out: seq<T>, now: seq<T>, now': seq<T>)
    requires |s| == |xs| == |lens| && Runs(lens) && Stands(s, xs, lens, at, out, now) && at < |s|
    requires |out| + lens[at] <= |now| && now' == Splicing(now, |out|, lens[at], xs[at])
    ensures Stands(s, xs, lens, at + lens[at], out + [xs[at]], now')
  {
    assert StandsAt(s, xs, lens, at, out, now, at);
    PickMore(xs, lens, at, out);
    var n := lens[at];
    assert (out + s[at..])[|out| + n..] == s[at + n..] && (out + s[at..])[..|out|] == out;
  }

  lemma CostMore(costs: seq<nat>, lens: seq<nat>, at: nat)
    requires at < |lens| == |costs| && Runs(lens)
    ensures RunOk(lens, at)
    ensures CountMerges(lens, at) == (if lens[at] > 1 then 1 else 0) + CountMerges(lens, at + lens[at])
    ensures CountOpens(costs, lens, at) == costs[at] + CountOpens(costs, lens, at + lens[at])
  {
    assert RunOk(lens, at);
  }

  /** Every committed point so far is sound, the last one is where the archive stands. */
  ghost predicate History(t0: Tables, history: seq<Tables>, t: Tables) {
    AllCommitted(t0, history) && history[|history| - 1] == t
  }

  ghost predicate AllCommitted(t: Tables, history: seq<Tables>) {
    history != [] && forall i: nat :: i < |history| ==> CommittedAt(t, history, i)
  }

  ghost predicate CommittedAt(t: Tables, history: seq<Tables>, i: nat)
    requires i < |history|
  {
    Committed(t, history[i])
  }

  lemma HistoryNow(t0: Tables, history: seq<Tables>, t: Tables)
    requires History(t0, history, t)
    ensures Committed(t0, t)
  {
    assert CommittedAt(t0, history, |history| - 1);
  }

  lemma MergeHistory(t0: Tables, history: seq<Tables>, t: Tables, at: nat, n: nat)
    requires History(t0, history, t) && 0 < n && at + n <= |t.segs|
    ensures |t.nums| == |t.segs| && History(t0, history + [MergeRun(t, at, n)], MergeRun(t, at, n))
  {
    HistoryNow(t0, history, t);
    MergeKeeps(t, at, n);
    var more := history + [MergeRun(t, at, n)];
    forall i: nat | i < |more| ensures CommittedAt(t0, more, i) {
      assert i < |history| ==> CommittedAt(t0, history, i);
    }
  }

  /** A pass's runs laid out ahead, for the proof. */
  ghost predicate Planned<C>(
    p: Policy<C>, segs: seq<Segment>, tags: seq<C>, cap: nat,
    lens: seq<nat>, outs: seq<Segment>, outTags: seq<C>, costs: seq<nat>)
    requires |segs| == |tags|
  {
    forall k: nat :: PlannedTo(p, segs, tags, cap, lens, outs, outTags, costs, k)
  }

  ghost predicate PlannedTo<C>(
    p: Policy<C>, segs: seq<Segment>, tags: seq<C>, cap: nat,
    lens: seq<nat>, outs: seq<Segment>, outTags: seq<C>, costs: seq<nat>, k: nat)
    requires |segs| == |tags|
  {
    k == 0 ==>
      && lens == Lens(p, segs, tags, cap)
      && outs == Outs(segs, lens)
      && outTags == OutTags(p, tags, lens)
      && costs == Costs(p, segs, tags, cap)
  }

  lemma {:induction false} LayOut<C>(p: Policy<C>, segs: seq<Segment>, tags: seq<C>, cap: nat)
    returns (lens: seq<nat>, outs: seq<Segment>, outTags: seq<C>, costs: seq<nat>)
    requires |segs| == |tags|
    ensures |lens| == |outs| == |outTags| == |costs| == |segs| && Runs(lens)
    ensures Planned(p, segs, tags, cap, lens, outs, outTags, costs)
    ensures Pick(outs, lens, 0) == Compact(p, segs, tags, cap) && Pick(outTags, lens, 0) == CompactTags(p, segs, tags, cap)
    ensures CountMerges(lens, 0) == Merges(p, segs, tags, cap) && CountOpens(costs, lens, 0) == Opens(p, segs, tags, cap)
  {
    lens := Lens(p, segs, tags, cap);
    outs, outTags, costs := Outs(segs, lens), OutTags(p, tags, lens), Costs(p, segs, tags, cap);
  }

  lemma {:induction false} PlannedAt<C>(
    p: Policy<C>, segs: seq<Segment>, tags: seq<C>, cap: nat,
    lens: seq<nat>, outs: seq<Segment>, outTags: seq<C>, costs: seq<nat>, at: nat)
    requires at < |segs| == |tags| == |lens| == |outs| == |outTags| == |costs|
    requires Planned(p, segs, tags, cap, lens, outs, outTags, costs)
    ensures 1 <= lens[at] == RunAt(p, segs, tags, cap, at) <= |segs| - at
    ensures outs[at] == if lens[at] == 1 then segs[at] else Merged(segs[at..at + lens[at]])
    ensures outTags[at] == if lens[at] == 1 then tags[at] else p.join(tags[at], tags[at + 1..at + lens[at]])
    ensures costs[at] == OpensAt(p, segs, tags, cap, at)
  {
    assert PlannedTo(p, segs, tags, cap, lens, outs, outTags, costs, 0);
    assert lens[at] == RunAt(p, segs, tags, cap, at);
    assert RunOk(lens, at) && outs[at] == Replacement(segs[at..at + lens[at]]);
    assert outTags[at] == ReplacementTag(p, tags[at..at + lens[at]]);
    assert tags[at..at + lens[at]][1..] == tags[at + 1..at + lens[at]];
  }

  /** One stream's segments on disk, and what their files say. */
  class Archive<C> {
    var t: Tables
    var tags: seq<C>

    /** Plan a run from `at`: the inner loop over catalog rows. */
    static method Plan(segs: seq<Segment>, cap: nat, at: nat) returns (end: nat)
      requires at <= |segs|
      ensures end == PlanEnd(segs, cap, at, 0)
    {
      end := at;
      var rows: nat := 0;
      while end < |segs| && rows + segs[end].rows <= cap
        invariant at <= end <= |segs| && PlanEnd(segs, cap, end, rows) == PlanEnd(segs, cap, at, 0)
      {
        rows := rows + segs[end].rows;
        end := end + 1;
      }
    }

    /** Open the planned run's segments one at a time; `broken` ones cannot be read. */
    static method Judge(p: Policy<C>, tags: seq<C>, at: nat, end: nat, broken: set<nat>) returns (n: nat, opens: nat, ok: bool)
      requires at <= end <= |tags|
      ensures ok ==> n == Consumed(p, tags, at, end, 0)
      ensures ok ==> opens == Opened(n, end - at)
      ensures opens <= Opened(Consumed(p, tags, at, end, 0), end - at)
      ensures broken == {} ==> ok
    {
      n, opens, ok := 0, 0, true;
      while at + n < end
        invariant at + n <= end && opens == n
        invariant Consumed(p, tags, at, end, n) == Consumed(p, tags, at, end, 0)
      {
        opens := opens + 1;
        if at + n in broken {
          ok := false;
          return;
        }
        if !p.admits(tags[at..at + n], tags[at + n]) {
          return;
        }
        n := n + 1;
      }
    }

    /** What to do at `at`: how long a run to merge, or fewer than two where nothing merges. */
    static method RunLength(
      p: Policy<C>, segs: seq<Segment>, tags: seq<C>, cap: nat, at: nat, broken: set<nat>,
      ghost lens: seq<nat>, ghost outs: seq<Segment>, ghost outTags: seq<C>, ghost costs: seq<nat>)
      returns (n: nat, opens: nat, ok: bool)
      requires at < |segs| == |tags| == |lens| == |outs| == |outTags| == |costs|
      requires Planned(p, segs, tags, cap, lens, outs, outTags, costs)
      ensures ok ==> opens == costs[at]
      ensures ok ==> lens[at] == if n < 2 then 1 else n
      ensures opens <= costs[at]
      ensures broken == {} ==> ok
    {
      PlannedAt(p, segs, tags, cap, lens, outs, outTags, costs, at);
      var end := Plan(segs, cap, at);
      if end - at < 2 {
        return 1, 0, true;
      }
      n, opens, ok := Judge(p, tags, at, end, broken);
    }

    /** One merge's transaction: the run's segments deleted, the merged one in the first's place. */
    method MergeHere(
      p: Policy<C>, segs: seq<Segment>, said: seq<C>, ghost cap: nat, at: nat, n: nat,
      ghost lens: seq<nat>, ghost outs: seq<Segment>, ghost outTags: seq<C>, ghost costs: seq<nat>,
      ghost out: seq<Segment>, ghost says: seq<C>)
      requires at < |segs| == |said| == |lens| == |outs| == |outTags| == |costs| && Runs(lens)
      requires Planned(p, segs, said, cap, lens, outs, outTags, costs)
      requires Stands(segs, outs, lens, at, out, t.segs) && Stands(said, outTags, lens, at, says, tags)
      requires n == lens[at] > 1 && |out| == |says| && |t.nums| == |t.segs| == |tags|
      modifies this
      ensures |out| + n <= |old(t).segs| && t == MergeRun(old(t), |out|, n)
      ensures Stands(segs, outs, lens, at + n, out + [outs[at]], t.segs)
      ensures Stands(said, outTags, lens, at + n, says + [outTags[at]], tags)
      ensures |t.segs| == |t.nums| == |tags| == |old(tags)| + 1 - n
    {
      PlannedAt(p, segs, said, cap, lens, outs, outTags, costs, at);
      Place(segs, outs, lens, at, out, t.segs);
      var pos := |t.segs| - (|segs| - at);
      var tag := p.join(said[at], said[at + 1..at + n]);
      MergeSome(segs, outs, lens, at, out, t.segs, MergeRun(t, pos, n).segs);
      MergeSome(said, outTags, lens, at, says, tags, Splicing(tags, pos, n, tag));
      t, tags := MergeRun(t, pos, n), Splicing(tags, pos, n, tag);
    }

    lemma SkipHere(
      p: Policy<C>, segs: seq<Segment>, said: seq<C>, cap: nat, at: nat,
      lens: seq<nat>, outs: seq<Segment>, outTags: seq<C>, costs: seq<nat>, out: seq<Segment>, says: seq<C>)
      requires at < |segs| == |said| == |lens| == |outs| == |outTags| == |costs| && Runs(lens)
      requires Planned(p, segs, said, cap, lens, outs, outTags, costs)
      requires Stands(segs, outs, lens, at, out, t.segs) && Stands(said, outTags, lens, at, says, tags)
      requires lens[at] == 1
      ensures Stands(segs, outs, lens, at + 1, out + [outs[at]], t.segs)
      ensures Stands(said, outTags, lens, at + 1, says + [outTags[at]], tags)
    {
      PlannedAt(p, segs, said, cap, lens, outs, outTags, costs, at);
      SkipOne(segs, outs, lens, at, out, t.segs);
      SkipOne(said, outTags, lens, at, says, tags);
    }

    /**
     * `compact_stream_with`. `history` is every state the pass commits; an unreadable segment
     * ends it early with the merges already made.
     */
    method CompactStream(p: Policy<C>, target: nat, broken: set<nat>)
      returns (r: Result<Compacted>, opens: nat, ghost history: seq<Tables>)
      requires Valid(t) && |tags| == |t.segs|
      modifies this
      ensures |tags| == |t.segs|
      ensures History(old(t), history, t)
      ensures broken == {} ==> r.Ok?
      ensures r.Ok? ==>
                && t.segs == Compact(p, old(t.segs), old(tags), Max(target, 1))
                && tags == CompactTags(p, old(t.segs), old(tags), Max(target, 1))
                && r.value == Compacted(|old(t.segs)|, |t.segs|, Merges(p, old(t.segs), old(tags), Max(target, 1)))
                && opens == Opens(p, old(t.segs), old(tags), Max(target, 1))
                && |history| == r.value.merges + 1
      ensures opens <= 2 * |old(t.segs)|
    {
      var metas, said, cap := t.segs, tags, Max(target, 1);
      var at, merges, after := 0, 0, |metas|;
      ghost var lens, outs, outTags, costs := LayOut(p, metas, said, cap);
      ghost var out: seq<Segment>, says: seq<C> := [], [];
      opens := 0;
      history := [t];
      OpensBound(p, metas, said, cap);
      Begin(metas, outs, lens);
      Begin(said, outTags, lens);
      while at < |metas|
        invariant at <= |metas| && |out| == |says|
        invariant Stands(metas, outs, lens, at, out, t.segs)
        invariant Stands(said, outTags, lens, at, says, tags)
        invariant merges + CountMerges(lens, at) == CountMerges(lens, 0)
        invariant opens + CountOpens(costs, lens, at) == CountOpens(costs, lens, 0)
        invariant after == |t.segs| == |tags| && |t.nums| == |t.segs|
        invariant History(old(t), history, t) && |history| == merges + 1
        decreases |metas| - at
      {
        CostMore(costs, lens, at);
        var n, o, ok := RunLength(p, metas, said, cap, at, broken, lens, outs, outTags, costs);
        opens := opens + o;
        if !ok {
          return Err, opens, history;
        }
        if n < 2 {
          SkipHere(p, metas, said, cap, at, lens, outs, outTags, costs, out, says);
          n := 1;
        } else {
          ghost var before := t;
          MergeHere(p, metas, said, cap, at, n, lens, outs, outTags, costs, out, says);
          MergeHistory(old(t), history, before, |out|, n);
          history := history + [t];
          merges, after := merges + 1, after - (n - 1);
        }
        out, says := out + [outs[at]], says + [outTags[at]];
        at := at + n;
      }
      Finish(metas, outs, lens, at, out, t.segs);
      Finish(said, outTags, lens, at, says, tags);
      return Ok(Compacted(|metas|, after, merges)), opens, history;
    }
  }
}
