/** The loops of `commit_tick` (src/writer.rs) and of the inserts it drives (src/archive/sqlite.rs). */
module Commits {
  import opened Types
  import opened Rows
  import opened Encoding
  import opened Catalog
  import opened Ticks

  lemma {:induction false} InsertStaysErr(m: Streams, source: int, rows: seq<WalRow>, i: nat, n: nat)
    requires i <= n <= |rows| && InsertTo(m, source, rows, i).Err?
    ensures InsertTo(m, source, rows, n).Err?
    decreases n
  {
    if i < n {
      InsertStaysErr(m, source, rows, i, n - 1);
    }
  }

  lemma {:induction false} BatchStaysErr(m: Streams, ticks: seq<Batch>, i: nat, n: nat)
    requires i <= n <= |ticks| && BatchTo(m, ticks, i).Err?
    ensures BatchTo(m, ticks, n).Err?
    decreases n
  {
    if i < n {
      BatchStaysErr(m, ticks, i, n - 1);
    }
  }

  /** One source's rows in one transaction: the working copy is dropped at the first collision. */
  method InsertLoop(m: Streams, b: Batch) returns (r: Result<Streams>)
    ensures r == InsertRows(m, b)
  {
    var work := m;
    var i := 0;
    while i < |b.1|
      invariant i <= |b.1|
      invariant InsertTo(m, b.0, b.1, i) == Ok(work)
    {
      var k := (b.0, b.1[i].stream);
      var s := AppendRow(At(work, k), b.1[i]);
      if s.Err? {
        InsertStaysErr(m, b.0, b.1, i + 1, |b.1|);
        return Err;
      }
      work := work[k := s.value];
      i := i + 1;
    }
    return Ok(work);
  }

  /** Every source's rows in one transaction. */
  method InsertBatchLoop(m: Streams, ticks: seq<Batch>) returns (r: Result<Streams>)
    ensures r == BatchTo(m, ticks, |ticks|)
  {
    var work := m;
    var i := 0;
    while i < |ticks|
      invariant i <= |ticks|
      invariant BatchTo(m, ticks, i) == Ok(work)
    {
      var one := InsertLoop(work, ticks[i]);
      if one.Err? {
        BatchStaysErr(m, ticks, i + 1, |ticks|);
        return Err;
      }
      work := one.value;
      i := i + 1;
    }
    return Ok(work);
  }

  lemma SuffixOf<T>(s: seq<T>, i: nat)
    requires i < |s|
    ensures s[i..][0] == s[i] && s[i..][1..] == s[i + 1..]
  {}

  method DropFlooredLoop(floors: map<int, int>, ticks: seq<Batch>) returns (kept: seq<Batch>)
    ensures kept == DropFloored(floors, ticks)
  {
    kept := [];
    var i := 0;
    while i < |ticks|
      invariant i <= |ticks|
      invariant kept + DropFloored(floors, ticks[i..]) == DropFloored(floors, ticks)
    {
      SuffixOf(ticks, i);
      var x := if UnderFloor(floors, ticks[i]) then [] else [ticks[i]];
      Assoc(kept, x, DropFloored(floors, ticks[i + 1..]));
      kept := kept + x;
      i := i + 1;
    }
  }

  method UnshadowedLoop(m: Streams, source: int, rows: seq<WalRow>) returns (keep: seq<WalRow>)
    ensures keep == Unshadowed(m, source, rows)
  {
    keep := [];
    var i := 0;
    while i < |rows|
      invariant i <= |rows|
      invariant keep + Unshadowed(m, source, rows[i..]) == Unshadowed(m, source, rows)
    {
      SuffixOf(rows, i);
      var x := if Shadowed(m, source, rows[i]) then [] else [rows[i]];
      Assoc(keep, x, Unshadowed(m, source, rows[i + 1..]));
      keep := keep + x;
      i := i + 1;
    }
  }

  method DropShadowedLoop(m: Streams, ticks: seq<Batch>) returns (out: seq<Batch>)
    ensures out == DropShadowed(m, ticks)
  {
    out := [];
    var i := 0;
    while i < |ticks|
      invariant i <= |ticks|
      invariant out + DropShadowed(m, ticks[i..]) == DropShadowed(m, ticks)
    {
      SuffixOf(ticks, i);
      var keep := UnshadowedLoop(m, ticks[i].0, ticks[i].1);
      var x := if keep == [] then [] else [(ticks[i].0, keep)];
      Assoc(out, x, DropShadowed(m, ticks[i + 1..]));
      out := out + x;
      i := i + 1;
    }
  }

  /** The two filters ahead of the commit; the rebuild runs only when something is shadowed. */
  method FilterLoop(m: Streams, floors: map<int, int>, ticks: seq<Batch>) returns (kept: seq<Batch>)
    ensures kept == Filtered(m, floors, ticks)
    ensures forall i: nat :: i < |kept| ==> TickAcceptable(m, floors, kept, i)
  {
    kept := DropFlooredLoop(floors, ticks);
    if AnyShadowed(m, kept) {
      kept := DropShadowedLoop(m, kept);
    }
    forall i: nat | i < |kept| ensures TickAcceptable(m, floors, kept, i) {
      FilteredAcceptable(m, floors, ticks, kept[i]);
    }
  }

  /** Only the failures before `n` matter to the first `n` sources. */
  lemma {:induction false} EachSameFails(m: Streams, ticks: seq<Batch>, a: set<nat>, b: set<nat>, n: nat)
    requires n <= |ticks| && forall i: nat :: i < n ==> (i in a <==> i in b)
    ensures EachTo(m, ticks, a, n) == EachTo(m, ticks, b, n)
  {
    if n > 0 {
      EachSameFails(m, ticks, a, b, n - 1);
    }
  }

  /** Sources that all fail leave what there was. */
  lemma {:induction false} EachAllFail(m: Streams, ticks: seq<Batch>, fails: set<nat>, i: nat, n: nat)
    requires i <= n <= |ticks| && forall j: nat :: i <= j < n ==> j in fails
    ensures EachTo(m, ticks, fails, n) == EachTo(m, ticks, fails, i)
    decreases n
  {
    if i < n {
      EachAllFail(m, ticks, fails, i, n - 1);
    }
  }
}
