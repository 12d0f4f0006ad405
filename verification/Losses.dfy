/**
 * What a subscriber does with the frames that reach it when others do not
 * (src/replicate/subscriber.rs:163-240): which rows it takes, and which gaps it reports.
 */
module Losses {
  import opened Types
  import opened Frames
  import opened Delivery
  import opened Subscription

  /** A new subscriber, once it has applied the frames. */
  function Received(fs: seq<RowFrame>): Took {
    if fs == [] then Done(NEW_SUB, NOTHING) else
    match Received(fs[..|fs| - 1])
    case Refusal => Refusal
    case Done(st, _) => Apply(st, fs[|fs| - 1])
  }

  /** The number of the last `Rows` frame. */
  function LastNumber(fs: seq<RowFrame>): Option<nat> {
    if fs == [] then None else
    if fs[|fs| - 1].Rows? then Some(fs[|fs| - 1].number) else LastNumber(fs[..|fs| - 1])
  }

  /** What a subscriber remembers is what the frames it got said last. */
  lemma {:induction false} Remembers(fs: seq<RowFrame>)
    requires Received(fs).Done?
    ensures var st := Received(fs).sub;
            st.index == StateAfter(fs) && st.seenFull == FullSeen(fs) && st.lastSeq == LastNumber(fs)
  {
    if fs != [] {
      Remembers(fs[..|fs| - 1]);
    }
  }

  // ------------------------------------------------------------------ the last of a kind

  lemma {:induction false} StateIs(fs: seq<RowFrame>, i: nat)
    requires i < |fs| && fs[i].Index? && forall j: nat :: i < j < |fs| ==> !fs[j].Index?
    ensures StateAfter(fs) == fs[i].state
  {
    if i < |fs| - 1 {
      var p := fs[..|fs| - 1];
      assert p[i] == fs[i] && !fs[|fs| - 1].Index?;
      forall j: nat | i < j < |p| ensures !p[j].Index? {
        assert p[j] == fs[j];
      }
      StateIs(p, i);
    }
  }

  lemma {:induction false} FullIs(fs: seq<RowFrame>)
    ensures FullSeen(fs) <==> exists i: nat :: i < |fs| && IsFull(fs, i)
  {
    if fs != [] {
      var p := fs[..|fs| - 1];
      FullIs(p);
      if i: nat :| i < |p| && IsFull(p, i) {
        assert IsFull(fs, i);
      }
      if i: nat :| i < |fs| && IsFull(fs, i) {
        assert i < |p| ==> IsFull(p, i);
      }
      assert (fs[|fs| - 1].Index? && fs[|fs| - 1].kind.Full?) <==> IsFull(fs, |fs| - 1);
    }
  }

  ghost predicate IsFull(fs: seq<RowFrame>, i: nat)
    requires i < |fs|
  {
    fs[i].Index? && fs[i].kind.Full?
  }

  ghost predicate RowsAt(fs: seq<RowFrame>, i: nat)
    requires i < |fs|
  {
    fs[i].Rows?
  }

  lemma {:induction false} NumberIs(fs: seq<RowFrame>)
    ensures LastNumber(fs).None? <==> forall i: nat :: i < |fs| ==> !RowsAt(fs, i)
    ensures forall i: nat :: i < |fs| && fs[i].Rows? && (forall j: nat :: i < j < |fs| ==> !RowsAt(fs, j)) ==>
              LastNumber(fs) == Some(fs[i].number)
  {
    if fs != [] {
      var p := fs[..|fs| - 1];
      NumberIs(p);
      assert RowsAt(fs, |fs| - 1) <==> fs[|fs| - 1].Rows?;
      if !fs[|fs| - 1].Rows? {
        forall i: nat | i < |p| ensures RowsAt(p, i) <==> RowsAt(fs, i) {}
      }
    }
  }

  // ------------------------------------------------------------------ which rows are taken

  /** `got` are the frames at `idx` of the first `q` sent. */
  ghost predicate Reached(sent: seq<RowFrame>, q: nat, got: seq<RowFrame>, idx: seq<nat>) {
    q < |sent| && Picks(sent[..q], got, idx)
  }

  lemma ReachedAt(sent: seq<RowFrame>, q: nat, got: seq<RowFrame>, idx: seq<nat>, k: nat)
    requires Reached(sent, q, got, idx) && k < |idx|
    ensures |got| == |idx| && idx[k] < q && got[k] == sent[idx[k]]
    ensures forall l: nat :: k < l < |idx| ==> idx[k] < idx[l]
  {
    assert PickedAt(sent[..q], got, idx, k);
    forall l: nat | k < l < |idx| ensures idx[k] < idx[l] {
      assert RisesAt(idx, k, l);
    }
  }

  /**
   * Whatever was lost before it, a `Rows` frame's rows are committed exactly when the state of the
   * last entry that arrived is the one declared, which is the last entry's that was sent, and a
   * `Full` has arrived unless none was sent; otherwise they are skipped and nothing is written.
   */
  lemma RowsTakenExactly(sent: seq<RowFrame>, q: nat, got: seq<RowFrame>, idx: seq<nat>)
    requires Reached(sent, q, got, idx) && DeclaredAt(sent, q) && sent[q].Rows? && Received(got).Done?
    ensures var st, a := Received(got).sub, Apply(Received(got).sub, sent[q]);
            && a.Done? && a.sub.index == st.index && a.sub.entries == st.entries
            && if StateAfter(got) == StateAfter(sent[..q]) && (StateAfter(sent[..q]) == NO_INDEX_STATE || FullSeen(got))
               then a.applied.rows == |sent[q].rows| && a.applied.rowsSkipped == 0 && a.sub.streams == Land(st.streams, sent[q].rows)
               else a.applied.rows == 0 && a.applied.rowsSkipped == |sent[q].rows| && a.sub.streams == st.streams
  {
    Remembers(got);
  }

  /**
   * So only the last entry sent before the rows, and a `Full`, have to arrive: entries lost in
   * between change nothing for the rows.
   */
  lemma LastEntryIsEnough(sent: seq<RowFrame>, q: nat, got: seq<RowFrame>, idx: seq<nat>, i: nat, f: nat)
    requires Reached(sent, q, got, idx) && DeclaredAt(sent, q) && sent[q].Rows? && Received(got).Done?
    requires i in idx && i < q && sent[i].Index? && forall j: nat :: i < j < q ==> !sent[j].Index?
    requires f in idx && f < q && sent[f].Index? && sent[f].kind.Full?
    ensures Apply(Received(got).sub, sent[q]).Done? && Apply(Received(got).sub, sent[q]).applied.rows == |sent[q].rows|
  {
    var k: nat :| k < |idx| && idx[k] == i;
    ReachedAt(sent, q, got, idx, k);
    forall l: nat | k < l < |got| ensures !got[l].Index? {
      ReachedAt(sent, q, got, idx, l);
    }
    StateIs(got, k);
    StateIs(sent[..q], i);
    var l: nat :| l < |idx| && idx[l] == f;
    ReachedAt(sent, q, got, idx, l);
    assert IsFull(got, l);
    FullIs(got);
    RowsTakenExactly(sent, q, got, idx);
  }

  /**
   * A lost entry that goes unnoticed: of three, the second does not arrive, and the rows after the
   * third are taken by a subscriber that holds two.
   */
  lemma LostEntryUnnoticed(
    source: nat, name: Text, a: CallerRow, b: CallerRow, c: CallerRow, s1: IndexState, s2: IndexState, s3: IndexState,
    rows: seq<WalRow>)
    returns (sent: seq<RowFrame>, got: seq<RowFrame>)
    requires s3 != NO_INDEX_STATE
    ensures sent == [Index(source, name, a.ts, Full, s1, a.blob), Index(source, name, b.ts, Delta, s2, b.blob),
                     Index(source, name, c.ts, Delta, s3, c.blob), Rows(source, 0, s3, rows)]
    ensures got == [sent[0], sent[2]] && DeclaredAt(sent, 3)
    ensures Received(got).Done? && EntriesUnder(Received(got).sub.entries, name) == [a, c]
    ensures Apply(Received(got).sub, sent[3]).Done? && Apply(Received(got).sub, sent[3]).applied.rows == |rows|
  {
    var f1: RowFrame := Index(source, name, a.ts, Full, s1, a.blob);
    var f2: RowFrame := Index(source, name, b.ts, Delta, s2, b.blob);
    var f3: RowFrame := Index(source, name, c.ts, Delta, s3, c.blob);
    sent := [f1, f2, f3, Rows(source, 0, s3, rows)];
    got := [f1, f3];
    assert sent[..3] == [f1, f2, f3];
    assert [f1, f2, f3][..2] == [f1, f2] && [f1, f2][..1] == [f1] && [f1][..0] == [];
    assert RowsCount([f1]) == 0 && RowsCount([f1, f2]) == 0 && RowsCount([f1, f2, f3]) == 0;
    assert FullSeen([f1]) && FullSeen([f1, f2]) && FullSeen([f1, f2, f3]);
    assert got[..1] == [f1];
    assert Received([f1]) == Apply(NEW_SUB, f1);
  }

  // ------------------------------------------------------------------ which gaps are reported

  lemma {:induction false} CountBetween(fs: seq<RowFrame>, a: nat, b: nat)
    requires a <= b <= |fs|
    ensures RowsCount(fs[..b]) >= RowsCount(fs[..a])
    ensures RowsCount(fs[..b]) > RowsCount(fs[..a]) <==> exists r: nat :: a <= r < b && RowsAt(fs, r)
    decreases b
  {
    if a < b {
      CountBetween(fs, a, b - 1);
      var p, n := fs[..b], fs[..b - 1];
      assert p[..|p| - 1] == n && p[|p| - 1] == fs[b - 1];
      assert RowsAt(fs, b - 1) <==> fs[b - 1].Rows?;
    }
  }

  lemma NumbersBetween(sent: seq<RowFrame>, p: nat, m: nat, q: nat)
    requires p < q < |sent| && m == p + 1 && sent[p].Rows? && sent[q].Rows? && DeclaredAt(sent, p) && DeclaredAt(sent, q)
    ensures sent[q].number > sent[p].number + 1 <==> exists r: nat :: p < r < q && RowsAt(sent, r)
  {
    CountBetween(sent, m, q);
    assert sent[..m][..p] == sent[..p] && sent[..m][p] == sent[p];
    assert RowsCount(sent[..m]) == RowsCount(sent[..p]) + 1;
  }

  /**
   * A gap is reported exactly when some `Rows` frame sent between the last one that arrived and this
   * one did not arrive; losses before the first that arrived are not reported.
   */
  lemma GapMeansLoss(sent: seq<RowFrame>, q: nat, got: seq<RowFrame>, idx: seq<nat>, k: nat)
    requires Reached(sent, q, got, idx) && Received(got).Done? && DeclaredAt(sent, q) && sent[q].Rows?
    requires k < |idx| && got[k].Rows? && (forall l: nat :: k < l < |got| ==> !RowsAt(got, l))
    requires idx[k] < q && DeclaredAt(sent, idx[k])
    ensures Apply(Received(got).sub, sent[q]).Done?
    ensures Apply(Received(got).sub, sent[q]).applied.gap <==> exists r: nat :: idx[k] < r < q && RowsAt(sent, r)
  {
    Remembers(got);
    NumberIs(got);
    ReachedAt(sent, q, got, idx, k);
    assert LastNumber(got) == Some(got[k].number);
    NumbersBetween(sent, idx[k], idx[k] + 1, q);
  }

  lemma NoGapAtFirst(got: seq<RowFrame>, f: RowFrame)
    requires Received(got).Done? && f.Rows? && forall l: nat :: l < |got| ==> !RowsAt(got, l)
    ensures Apply(Received(got).sub, f).Done? && !Apply(Received(got).sub, f).applied.gap
  {
    Remembers(got);
    NumberIs(got);
  }
}
