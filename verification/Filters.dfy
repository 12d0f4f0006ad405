/**
 * The two filters ahead of a tick's commit (`commit_tick` in src/writer.rs): exactly what they drop,
 * what they keep, and that what they keep lands.
 */
module Filters {
  import opened Types
  import opened Rows
  import opened Encoding
  import opened Catalog
  import opened Ticks

  function Own(b: Batch, source: int): seq<WalRow> {
    if b.0 == source then b.1 else []
  }

  /** The source's rows of a tick, in the order they are handled. */
  function Flat(ticks: seq<Batch>, source: int): seq<WalRow> {
    if ticks == [] then [] else Own(ticks[0], source) + Flat(ticks[1..], source)
  }

  lemma {:induction false} FlatConcat(a: seq<Batch>, b: seq<Batch>, source: int)
    ensures Flat(a + b, source) == Flat(a, source) + Flat(b, source)
  {
    if a == [] {
      assert a + b == b;
    } else {
      assert (a + b)[1..] == a[1..] + b;
      FlatConcat(a[1..], b, source);
    }
  }

  lemma FlatCons(x: seq<Batch>, rest: seq<Batch>, source: int)
    requires |x| <= 1
    ensures Flat(x + rest, source) == Flat(x, source) + Flat(rest, source)
    ensures x != [] ==> Flat(x, source) == Own(x[0], source)
  {
    if x == [] {
      assert x + rest == rest;
    } else {
      assert (x + rest)[1..] == rest && x[1..] == [];
    }
  }

  // ------------------------------------------------------------------ the floor

  predicate PastFloor(floors: map<int, int>, source: int, r: WalRow) {
    source in floors ==> r.ts > floors[source]
  }

  /** Every row of the batch is past its source's floor, if the source has one. */
  predicate WhollyPast(floors: map<int, int>, b: Batch) {
    forall j :: 0 <= j < |b.1| ==> PastFloor(floors, b.0, b.1[j])
  }

  lemma NotUnderFloor(floors: map<int, int>, b: Batch)
    ensures UnderFloor(floors, b) <==> !WhollyPast(floors, b)
  {
    if !WhollyPast(floors, b) {
      var j :| 0 <= j < |b.1| && !PastFloor(floors, b.0, b.1[j]);
    }
  }

  /** The floor drops a batch whole if and only if one of its rows is at or below it, and keeps the rest in order. */
  lemma {:induction false} FloorExact(floors: map<int, int>, ticks: seq<Batch>) returns (idx: seq<nat>)
    ensures Picks(ticks, DropFloored(floors, ticks), idx)
    ensures forall i: nat :: i < |ticks| ==> (i in idx <==> WhollyPast(floors, ticks[i]))
  {
    if ticks == [] {
      idx := [];
    } else {
      var p := FloorExact(floors, ticks[1..]);
      var first := WhollyPast(floors, ticks[0]);
      NotUnderFloor(floors, ticks[0]);
      idx := Shifted(p, first);
      assert ticks == [ticks[0]] + ticks[1..];
      ShiftPicks(ticks[0], ticks[1..], DropFloored(floors, ticks[1..]), p, first, ticks, DropFloored(floors, ticks), idx);
    }
  }

  // ------------------------------------------------------------------ the watermarks

  predicate PastMark(m: Streams, source: int, r: WalRow) {
    var w := At(m, (source, r.stream)).watermark;
    w.Some? ==> r.ts > w.value
  }

  /** Of one source's rows exactly those past their stream's watermark are kept, in order. */
  lemma {:induction false} ShadowExact(m: Streams, source: int, rows: seq<WalRow>) returns (idx: seq<nat>)
    ensures Picks(rows, Unshadowed(m, source, rows), idx)
    ensures forall i: nat :: i < |rows| ==> (i in idx <==> PastMark(m, source, rows[i]))
  {
    if rows == [] {
      idx := [];
    } else {
      var p := ShadowExact(m, source, rows[1..]);
      var first := PastMark(m, source, rows[0]);
      idx := Shifted(p, first);
      assert rows == [rows[0]] + rows[1..];
      ShiftPicks(rows[0], rows[1..], Unshadowed(m, source, rows[1..]), p, first, rows, Unshadowed(m, source, rows), idx);
    }
  }

  lemma {:induction false} UnshadowedConcat(m: Streams, source: int, a: seq<WalRow>, b: seq<WalRow>)
    ensures Unshadowed(m, source, a + b) == Unshadowed(m, source, a) + Unshadowed(m, source, b)
  {
    if a == [] {
      assert a + b == b;
    } else {
      assert (a + b)[1..] == a[1..] + b;
      UnshadowedConcat(m, source, a[1..], b);
      Assoc(if Shadowed(m, source, a[0]) then [] else [a[0]], Unshadowed(m, source, a[1..]), Unshadowed(m, source, b));
    }
  }

  lemma {:induction false} DropShadowedFlat(m: Streams, ticks: seq<Batch>, source: int)
    ensures Flat(DropShadowed(m, ticks), source) == Unshadowed(m, source, Flat(ticks, source))
  {
    if ticks != [] {
      var keep := Unshadowed(m, ticks[0].0, ticks[0].1);
      var x := if keep == [] then [] else [(ticks[0].0, keep)];
      DropShadowedFlat(m, ticks[1..], source);
      FlatCons(x, DropShadowed(m, ticks[1..]), source);
      UnshadowedConcat(m, source, Own(ticks[0], source), Flat(ticks[1..], source));
    }
  }

  lemma {:induction false} NoneShadowed(m: Streams, source: int, rows: seq<WalRow>)
    requires forall j :: 0 <= j < |rows| ==> !Shadowed(m, source, rows[j])
    ensures Unshadowed(m, source, rows) == rows
  {
    if rows != [] {
      NoneShadowed(m, source, rows[1..]);
    }
  }

  lemma {:induction false} NoneShadowedFlat(m: Streams, ticks: seq<Batch>, source: int)
    requires !AnyShadowed(m, ticks)
    ensures Unshadowed(m, source, Flat(ticks, source)) == Flat(ticks, source)
  {
    if ticks != [] {
      forall i, j | 0 <= i < |ticks[1..]| && 0 <= j < |ticks[1..][i].1| ensures !Shadowed(m, ticks[1..][i].0, ticks[1..][i].1[j]) {
        assert !Shadowed(m, ticks[i + 1].0, ticks[i + 1].1[j]);
      }
      NoneShadowedFlat(m, ticks[1..], source);
      NoneShadowed(m, ticks[0].0, ticks[0].1);
      UnshadowedConcat(m, source, Own(ticks[0], source), Flat(ticks[1..], source));
    }
  }

  /** Whether or not anything is shadowed, what is left of a source's rows is the unshadowed ones. */
  lemma FilteredFlat(m: Streams, floors: map<int, int>, ticks: seq<Batch>, source: int)
    ensures Flat(Filtered(m, floors, ticks), source) == Unshadowed(m, source, Flat(DropFloored(floors, ticks), source))
  {
    var kept := DropFloored(floors, ticks);
    if AnyShadowed(m, kept) {
      DropShadowedFlat(m, kept, source);
    } else {
      NoneShadowedFlat(m, kept, source);
    }
  }

  /**
   * Exactly what reaches the commit: the batches wholly past their floor, at the positions `idx`, and
   * of each source's rows in them those past their stream's watermark, at `jdx`; all in order and as
   * often as they were sent.
   */
  lemma FilterExact(m: Streams, floors: map<int, int>, ticks: seq<Batch>, source: int)
    returns (kept: seq<Batch>, idx: seq<nat>, jdx: seq<nat>)
    ensures Picks(ticks, kept, idx) && forall i: nat :: i < |ticks| ==> (i in idx <==> WhollyPast(floors, ticks[i]))
    ensures Picks(Flat(kept, source), Flat(Filtered(m, floors, ticks), source), jdx)
    ensures forall i: nat :: i < |Flat(kept, source)| ==> (i in jdx <==> PastMark(m, source, Flat(kept, source)[i]))
  {
    kept := DropFloored(floors, ticks);
    idx := FloorExact(floors, ticks);
    jdx := ShadowExact(m, source, Flat(kept, source));
    FilteredFlat(m, floors, ticks, source);
  }

  // ------------------------------------------------------------------ what is kept lands

  /** No row repeats a key the archive's WAL holds, or one of another row of the tick. */
  ghost predicate FreshKeys(m: Streams, source: int, rows: seq<WalRow>) {
    && (forall i: nat :: i < |rows| ==> FreshAt(m, source, rows, i))
    && (forall i: nat, j: nat :: i < j < |rows| ==> KeysDiffer(rows, i, j))
  }

  ghost predicate FreshAt(m: Streams, source: int, rows: seq<WalRow>, i: nat)
    requires i < |rows|
  {
    forall r :: r in At(m, (source, rows[i].stream)).t.wal ==> r.ts != rows[i].ts
  }

  ghost predicate KeysDiffer(rows: seq<WalRow>, i: nat, j: nat)
    requires i < |rows| && j < |rows|
  {
    rows[i].stream != rows[j].stream || rows[i].ts != rows[j].ts
  }

  ghost predicate AllFresh(m: Streams, kept: seq<Batch>) {
    forall source: int :: FreshIn(m, kept, source)
  }

  ghost predicate FreshIn(m: Streams, kept: seq<Batch>, source: int) {
    FreshKeys(m, source, Flat(kept, source))
  }

  /** The stream's WAL holds what it held, and rows of `done`. */
  ghost predicate WalWithin(m: Streams, p: Streams, source: int, stream: Text, done: seq<WalRow>) {
    forall r :: r in At(p, (source, stream)).t.wal ==> r in At(m, (source, stream)).t.wal || (r in done && r.stream == stream)
  }

  ghost predicate WalsWithin(m: Streams, p: Streams, source: int, done: seq<WalRow>) {
    forall stream: Text :: WalWithin(m, p, source, stream, done)
  }

  lemma NextFits(m: Streams, p: Streams, source: int, all: seq<WalRow>, i: nat, done: seq<WalRow>)
    requires i < |all| && FreshKeys(m, source, all) && done == all[..i] && WalsWithin(m, p, source, done)
    ensures AppendRow(At(p, (source, all[i].stream)), all[i]).Ok?
    ensures WalsWithin(m, p[(source, all[i].stream) := AppendRow(At(p, (source, all[i].stream)), all[i]).value], source, all[..i + 1])
  {
    var r := all[i];
    var k := (source, r.stream);
    assert WalWithin(m, p, source, r.stream, done) && FreshAt(m, source, all, i);
    forall x | x in At(p, k).t.wal ensures x.ts != r.ts {
      if x !in At(m, k).t.wal {
        var j: nat :| j < i && done[j] == x;
        assert KeysDiffer(all, j, i);
      }
    }
    InsertMultiset(At(p, k).t.wal, r);
    var more := all[..i + 1];
    assert more == done + [r];
    var q := p[k := AppendRow(At(p, k), r).value];
    forall stream: Text ensures WalWithin(m, q, source, stream, more) {
      assert WalWithin(m, p, source, stream, done);
    }
  }

  /** `rows` is `all` from `i` on, for its length. */
  ghost predicate RunsFrom(all: seq<WalRow>, i: nat, rows: seq<WalRow>) {
    i + |rows| <= |all| && forall x: nat :: x < |rows| ==> RunsAt(all, i, rows, x)
  }

  ghost predicate RunsAt(all: seq<WalRow>, i: nat, rows: seq<WalRow>, x: nat)
    requires i + |rows| <= |all| && x < |rows|
  {
    all[i + x] == rows[x]
  }

  lemma {:induction false} RowsFit(m: Streams, p: Streams, source: int, all: seq<WalRow>, i: nat, rows: seq<WalRow>, n: nat, at: nat)
    requires n <= |rows| && RunsFrom(all, i, rows) && at == i + n
    requires FreshKeys(m, source, all) && WalsWithin(m, p, source, all[..i])
    ensures InsertTo(p, source, rows, n).Ok? && WalsWithin(m, InsertTo(p, source, rows, n).value, source, all[..at])
  {
    if n > 0 {
      RowsFit(m, p, source, all, i, rows, n - 1, at - 1);
      assert RunsAt(all, i, rows, n - 1);
      NextFits(m, InsertTo(p, source, rows, n - 1).value, source, all, at - 1, all[..at - 1]);
    }
  }

  lemma FlatNext(ticks: seq<Batch>, n: nat, m: nat, source: int)
    requires m == n + 1 <= |ticks|
    ensures var all, i, j := Flat(ticks, source), |Flat(ticks[..n], source)|, |Flat(ticks[..m], source)|;
            && j == i + |Own(ticks[n], source)| && RunsFrom(all, i, Own(ticks[n], source))
            && all[..i] == Flat(ticks[..n], source) && all[..j] == Flat(ticks[..m], source)
  {
    assert ticks[..m] == ticks[..n] + [ticks[n]] && ticks == ticks[..m] + ticks[m..];
    FlatConcat(ticks[..n], [ticks[n]], source);
    FlatConcat(ticks[..m], ticks[m..], source);
    FlatCons([ticks[n]], [], source);
  }

  ghost predicate AllWithin(m: Streams, p: Streams, ticks: seq<Batch>, n: nat)
    requires n <= |ticks|
  {
    forall source: int :: WithinAt(m, p, ticks, n, source)
  }

  ghost predicate WithinAt(m: Streams, p: Streams, ticks: seq<Batch>, n: nat, source: int)
    requires n <= |ticks|
  {
    WalsWithin(m, p, source, Flat(ticks[..n], source))
  }

  lemma OneFits(m: Streams, p: Streams, ticks: seq<Batch>, n: nat, j: nat)
    requires j == n + 1 <= |ticks| && AllFresh(m, ticks) && AllWithin(m, p, ticks, n)
    ensures InsertRows(p, ticks[n]).Ok? && AllWithin(m, InsertRows(p, ticks[n]).value, ticks, j)
  {
    var b := ticks[n];
    assert WithinAt(m, p, ticks, n, b.0) && FreshIn(m, ticks, b.0);
    FlatNext(ticks, n, j, b.0);
    RowsFit(m, p, b.0, Flat(ticks, b.0), |Flat(ticks[..n], b.0)|, b.1, |b.1|, |Flat(ticks[..j], b.0)|);
    var q := InsertRows(p, b).value;
    forall source: int ensures WithinAt(m, q, ticks, j, source) {
      FlatNext(ticks, n, j, source);
      if source != b.0 {
        OthersFit(m, p, ticks, n, j, source, q);
      }
    }
  }

  lemma OthersFit(m: Streams, p: Streams, ticks: seq<Batch>, n: nat, j: nat, source: int, q: Streams)
    requires j == n + 1 <= |ticks| && AllWithin(m, p, ticks, n) && ticks[n].0 != source && InsertRows(p, ticks[n]) == Ok(q)
    requires Flat(ticks[..j], source) == Flat(ticks[..n], source)
    ensures WithinAt(m, q, ticks, j, source)
  {
    InsertOthers(p, ticks[n].0, ticks[n].1, |ticks[n].1|, source);
    assert WithinAt(m, p, ticks, n, source);
    forall stream: Text ensures WalWithin(m, q, source, stream, Flat(ticks[..j], source)) {
      assert WalWithin(m, p, source, stream, Flat(ticks[..n], source)) && SameAt(p, q, (source, stream));
    }
  }

  /** Without a collision the one transaction takes every row. */
  lemma {:induction false} BatchFits(m: Streams, ticks: seq<Batch>, n: nat)
    requires n <= |ticks| && AllFresh(m, ticks)
    ensures BatchTo(m, ticks, n).Ok? && AllWithin(m, BatchTo(m, ticks, n).value, ticks, n)
  {
    if n > 0 {
      BatchFits(m, ticks, n - 1);
      OneFits(m, BatchTo(m, ticks, n - 1).value, ticks, n - 1, n);
    }
  }

  /** Every row the WALs held, and every row of `done`, is in its stream's WAL. */
  ghost predicate WalsHold(m: Streams, p: Streams, source: int, done: seq<WalRow>) {
    && (forall stream: Text :: WalHolds(m, p, source, stream))
    && (forall i: nat :: i < |done| ==> DoneHeld(p, source, done, i))
  }

  ghost predicate WalHolds(m: Streams, p: Streams, source: int, stream: Text) {
    forall r :: r in At(m, (source, stream)).t.wal ==> r in At(p, (source, stream)).t.wal
  }

  ghost predicate DoneHeld(p: Streams, source: int, done: seq<WalRow>, i: nat)
    requires i < |done|
  {
    done[i] in At(p, (source, done[i].stream)).t.wal
  }

  lemma InsertedHeld(m: Streams, p: Streams, source: int, r: WalRow, done: seq<WalRow>, q: Streams, more: seq<WalRow>)
    requires WalsHold(m, p, source, done) && more == done + [r]
    requires AppendRow(At(p, (source, r.stream)), r).Ok?
    requires q == p[(source, r.stream) := AppendRow(At(p, (source, r.stream)), r).value]
    ensures WalsHold(m, q, source, more)
    ensures forall i: nat :: i < |done| ==> done[i].stream != r.stream || done[i].ts != r.ts
    ensures forall x :: x in At(m, (source, r.stream)).t.wal ==> x.ts != r.ts
  {
    var wal := At(p, (source, r.stream)).t.wal;
    InsertMultiset(wal, r);
    assert WalHolds(m, p, source, r.stream);
    forall x | x in wal ensures x.ts != r.ts {
      var i: nat :| i < |wal| && wal[i] == x;
      assert wal[i].ts == x.ts;
    }
    forall stream: Text ensures WalHolds(m, q, source, stream) {
      assert WalHolds(m, p, source, stream);
    }
    forall i: nat | i < |more| ensures DoneHeld(q, source, more, i) {
      assert i < |done| ==> DoneHeld(p, source, done, i);
    }
    forall i: nat | i < |done| ensures done[i].stream != r.stream || done[i].ts != r.ts {
      assert DoneHeld(p, source, done, i);
    }
  }

  lemma {:induction false} InsertedFresh(m: Streams, source: int, rows: seq<WalRow>, n: nat, done: seq<WalRow>)
    requires n <= |rows| && done == rows[..n] && InsertTo(m, source, rows, n).Ok?
    ensures WalsHold(m, InsertTo(m, source, rows, n).value, source, done) && FreshKeys(m, source, done)
  {
    if n == 0 {
      forall stream: Text ensures WalHolds(m, m, source, stream) {}
    } else {
      var p, q := InsertTo(m, source, rows, n - 1).value, InsertTo(m, source, rows, n).value;
      var before := rows[..n - 1];
      InsertedFresh(m, source, rows, n - 1, before);
      assert done == before + [rows[n - 1]];
      InsertedHeld(m, p, source, rows[n - 1], before, q, done);
      FreshMore(m, source, before, rows[n - 1], done);
    }
  }

  lemma FreshMore(m: Streams, source: int, before: seq<WalRow>, r: WalRow, done: seq<WalRow>)
    requires FreshKeys(m, source, before) && done == before + [r]
    requires forall i: nat :: i < |before| ==> before[i].stream != r.stream || before[i].ts != r.ts
    requires forall x :: x in At(m, (source, r.stream)).t.wal ==> x.ts != r.ts
    ensures FreshKeys(m, source, done)
  {
    forall i: nat | i < |done| ensures FreshAt(m, source, done, i) {
      assert i < |before| ==> FreshAt(m, source, before, i);
    }
    forall i: nat, j: nat | i < j < |done| ensures KeysDiffer(done, i, j) {
      assert j < |before| ==> KeysDiffer(before, i, j);
    }
  }

  lemma OneBatch(source: int, rows: seq<WalRow>)
    ensures Flat([(source, rows)], source) == rows
    ensures forall other: int :: other != source ==> Flat([(source, rows)], other) == []
  {
    assert [(source, rows)][1..] == [];
    assert Flat([], source) == [];
  }

  /**
   * A source's part of a tick collides exactly when one of its rows has the time of a row its
   * stream's WAL holds, sealed or live, or of an earlier row of its own stream in the same tick.
   */
  lemma CollidesExactly(m: Streams, source: int, rows: seq<WalRow>)
    ensures InsertRows(m, (source, rows)).Ok? <==> FreshKeys(m, source, rows)
  {
    if FreshKeys(m, source, rows) {
      var ticks := [(source, rows)];
      OneBatch(source, rows);
      forall other: int ensures FreshIn(m, ticks, other) {}
      BatchFits(m, ticks, 1);
      assert BatchTo(m, ticks, 0) == Ok(m);
    } else if InsertRows(m, (source, rows)).Ok? {
      assert rows[..|rows|] == rows;
      InsertedFresh(m, source, rows, |rows|, rows);
    }
  }

  lemma {:induction false} RowCounted(k: Key, source: int, rows: seq<WalRow>, n: nat, r: WalRow)
    requires n <= |rows| && r in rows[..n] && k == (source, r.stream)
    ensures RowsFor(k, source, rows, n)[r] > 0
  {
    assert rows[..n] == rows[..n - 1] + [rows[n - 1]];
    if rows[n - 1] != r {
      RowCounted(k, source, rows, n - 1, r);
    }
  }

  lemma {:induction false} BatchCounted(k: Key, m: Streams, ticks: seq<Batch>, n: nat, b: Batch, r: WalRow)
    requires n <= |ticks| && BatchTo(m, ticks, n).Ok? && b in ticks[..n] && r in b.1 && k == (b.0, r.stream)
    ensures EachFor(k, m, ticks, {}, n)[r] > 0
  {
    BatchIsEach(m, ticks, n - 1);
    assert ticks[..n] == ticks[..n - 1] + [ticks[n - 1]];
    if ticks[n - 1] == b {
      assert b.1[..|b.1|] == b.1;
      RowCounted(k, b.0, b.1, |b.1|, r);
    } else {
      BatchCounted(k, m, ticks, n - 1, b, r);
    }
  }

  lemma {:induction false} FlatHas(ticks: seq<Batch>, source: int, r: WalRow) returns (b: Batch)
    requires r in Flat(ticks, source)
    ensures b in ticks && b.0 == source && r in b.1
  {
    if r in Own(ticks[0], source) {
      b := ticks[0];
    } else {
      b := FlatHas(ticks[1..], source, r);
    }
  }

  lemma {:induction false} FlatOf(ticks: seq<Batch>, b: Batch, r: WalRow)
    requires b in ticks && r in b.1
    ensures r in Flat(ticks, b.0)
  {
    if b != ticks[0] {
      FlatOf(ticks[1..], b, r);
    }
  }

  /** A row past its watermark, of a batch wholly past its floor, reaches the commit. */
  lemma RowReaches(m: Streams, floors: map<int, int>, ticks: seq<Batch>, i: nat, r: WalRow) returns (b: Batch)
    requires i < |ticks| && r in ticks[i].1 && WhollyPast(floors, ticks[i]) && PastMark(m, ticks[i].0, r)
    ensures b in Filtered(m, floors, ticks) && b.0 == ticks[i].0 && r in b.1
  {
    var source := ticks[i].0;
    var idx := FloorExact(floors, ticks);
    var k: nat :| k < |idx| && idx[k] == i;
    var kept := DropFloored(floors, ticks);
    assert PickedAt(ticks, kept, idx, k);
    FlatOf(kept, kept[k], r);
    UnshadowedMembers(m, source, Flat(kept, source), r);
    FilteredFlat(m, floors, ticks, source);
    b := FlatHas(Filtered(m, floors, ticks), source, r);
  }

  lemma KeptAcceptable(w: Streams, floors: map<int, int>, ticks: seq<Batch>)
    ensures TicksAcceptable(w, floors, Filtered(w, floors, ticks))
  {
    var kept := Filtered(w, floors, ticks);
    forall i: nat | i < |kept| ensures TickAcceptable(w, floors, kept, i) {
      FilteredAcceptable(w, floors, ticks, kept[i]);
    }
  }

  /**
   * With no failure and no key collision, every row of a tick whose batch is wholly past its source's
   * floor, and which is itself past its stream's watermark, is seen by every reader afterwards.
   */
  lemma TickLands(m: Streams, floors: map<int, int>, ticks: seq<Batch>, i: nat, r: WalRow)
    requires AllInv(m) && AllFresh(m, Filtered(m, floors, ticks))
    requires i < |ticks| && r in ticks[i].1 && WhollyPast(floors, ticks[i]) && PastMark(m, ticks[i].0, r)
    ensures r in View(At(Commit(m, Filtered(m, floors, ticks), false, {}), (ticks[i].0, r.stream)).t)
  {
    var kept, k := Filtered(m, floors, ticks), (ticks[i].0, r.stream);
    var b := RowReaches(m, floors, ticks, i, r);
    BatchFits(m, kept, |kept|);
    assert kept[..|kept|] == kept;
    BatchCounted(k, m, kept, |kept|, b, r);
    KeptAcceptable(m, floors, ticks);
    CommitKeeps(m, floors, kept, false, {}, k);
    var m' := Commit(m, kept, false, {});
    assert Sees(m', k, r) == Sees(m, k, r) + CommitFor(k, m, kept, false, {})[r];
  }
}
