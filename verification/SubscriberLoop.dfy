/** The subscriber in place, over a writer of its own (src/replicate/subscriber.rs). */
module SubscriberLoop {
  import opened Types
  import opened Encoding
  import opened Catalog
  import opened Ticks
  import opened Machine
  import opened Seals
  import opened Frames
  import opened Delivery
  import opened Subscription
  import opened WriterThread

  function Plus(a: Applied, b: Applied): Applied {
    Applied(a.rows + b.rows, a.rowsSkipped + b.rowsSkipped, a.segments + b.segments, a.segmentsHeld + b.segmentsHeld,
            a.entries + b.entries, a.gap || b.gap)
  }

  /** The frames applied in turn, and what they did together; a refusal stops the batch. */
  function ApplyTo(st: Sub, fs: seq<RowFrame>, n: nat): Took
    requires n <= |fs|
  {
    if n == 0 then Done(st, NOTHING) else
    match ApplyTo(st, fs, n - 1)
    case Refusal => Refusal
    case Done(s, a) =>
      match Apply(s, fs[n - 1])
      case Refusal => Refusal
      case Done(s', b) => Done(s', Plus(a, b))
  }

  /** How many rows, segments and entries a frame carries. */
  datatype Load = Load(rows: nat, segments: nat, entries: nat)

  function LoadOf(f: RowFrame): Load {
    if f.Rows? then Load(|f.rows|, 0, 0)
    else if f.SegmentOf? then Load(0, 1, 0)
    else if f.Index? then Load(0, 0, 1)
    else Load(0, 0, 0)
  }

  function Sum(a: Load, b: Load): Load {
    Load(a.rows + b.rows, a.segments + b.segments, a.entries + b.entries)
  }

  function Carried(fs: seq<RowFrame>, n: nat): Load
    requires n <= |fs|
  {
    if n == 0 then Load(0, 0, 0) else Sum(Carried(fs, n - 1), LoadOf(fs[n - 1]))
  }

  function Accounted(a: Applied): Load {
    Load(a.rows + a.rowsSkipped, a.segments + a.segmentsHeld, a.entries)
  }

  lemma FrameAccounts(st: Sub, f: RowFrame, s: Sub, a: Applied)
    requires Apply(st, f) == Done(s, a)
    ensures Accounted(a) == LoadOf(f)
  {
    Reports(st, f, s, a);
    Tally(f, a);
  }

  lemma Tally(f: RowFrame, a: Applied)
    requires a.rows + a.rowsSkipped == if f.Rows? then |f.rows| else 0
    requires a.segments + a.segmentsHeld == if f.SegmentOf? then 1 else 0
    requires a.entries == if f.Index? then 1 else 0
    ensures Accounted(a) == LoadOf(f)
  {}

  /** What a frame's report can be. */
  lemma Reports(st: Sub, f: RowFrame, s: Sub, a: Applied)
    requires Apply(st, f) == Done(s, a)
    ensures a.rows + a.rowsSkipped == if f.Rows? then |f.rows| else 0
    ensures a.segments + a.segmentsHeld == if f.SegmentOf? then 1 else 0
    ensures a.entries == if f.Index? then 1 else 0
  {}

  lemma PlusAccounts(a: Applied, b: Applied)
    ensures Accounted(Plus(a, b)) == Sum(Accounted(a), Accounted(b))
  {}

  lemma LastApplied(st: Sub, fs: seq<RowFrame>, n: nat, m: nat, s: Sub, a: Applied) returns (p: Sub, c: Applied, b: Applied)
    requires n == m + 1 <= |fs| && ApplyTo(st, fs, n) == Done(s, a)
    ensures ApplyTo(st, fs, m) == Done(p, c) && Apply(p, fs[m]) == Done(s, b) && a == Plus(c, b)
  {
    p, c := ApplyTo(st, fs, m).sub, ApplyTo(st, fs, m).applied;
    b := Apply(p, fs[m]).applied;
  }

  /** A batch accounts for everything it carries: each row committed or skipped, each segment inserted or held. */
  lemma {:induction false} BatchAccounts(st: Sub, fs: seq<RowFrame>, n: nat, s: Sub, a: Applied)
    requires n <= |fs| && ApplyTo(st, fs, n) == Done(s, a)
    ensures Carried(fs, n) == Load(a.rows + a.rowsSkipped, a.segments + a.segmentsHeld, a.entries)
  {
    if n > 0 {
      var p, c, b := LastApplied(st, fs, n, n - 1, s, a);
      BatchAccounts(st, fs, n - 1, p, c);
      FrameAccounts(p, fs[n - 1], s, b);
      PlusAccounts(c, b);
    }
  }

  /** The frame at `i` is applied, and reported as coming after a gap. */
  ghost predicate GapAt(st: Sub, fs: seq<RowFrame>, i: nat)
    requires i < |fs|
  {
    match ApplyTo(st, fs, i)
    case Refusal => false
    case Done(p, _) => Apply(p, fs[i]).Done? && Apply(p, fs[i]).applied.gap
  }

  /** It reports a gap exactly if some frame of it came after one. */
  lemma {:induction false} BatchGaps(st: Sub, fs: seq<RowFrame>, n: nat, s: Sub, a: Applied)
    requires n <= |fs| && ApplyTo(st, fs, n) == Done(s, a)
    ensures a.gap <==> exists i: nat :: i < n && GapAt(st, fs, i)
  {
    if n > 0 {
      var p, c, b := LastApplied(st, fs, n, n - 1, s, a);
      BatchGaps(st, fs, n - 1, p, c);
      assert GapAt(st, fs, n - 1) <==> b.gap;
      assert a.gap <==> c.gap || b.gap;
    }
  }

  /** A segment offered where it would be adopted is sound. */
  ghost predicate Sendable(st: Sub, f: RowFrame) {
    f.SegmentOf? ==> (Adopt(At(st.streams, (SRC, f.stream)), SegmentIn(f)).Adopted? ==> SegmentOk(SegmentIn(f)))
  }

  ghost predicate AllSendable(st: Sub, fs: seq<RowFrame>) {
    forall n: nat :: n < |fs| ==> SendableAt(st, fs, n)
  }

  ghost predicate SendableAt(st: Sub, fs: seq<RowFrame>, n: nat)
    requires n < |fs|
  {
    ApplyTo(st, fs, n).Done? ==> Sendable(ApplyTo(st, fs, n).sub, fs[n])
  }

  lemma NextApplied(st: Sub, fs: seq<RowFrame>, n: nat, s: Sub, a: Applied)
    requires n < |fs| && ApplyTo(st, fs, n) == Done(s, a) && AllSendable(st, fs)
    ensures Sendable(s, fs[n])
    ensures ApplyTo(st, fs, n + 1) == match Apply(s, fs[n])
                                      case Refusal => Refusal
                                      case Done(s', b) => Done(s', Plus(a, b))
  {
    assert SendableAt(st, fs, n);
  }

  class Subscriber {
    const writer: Writer
    var index: IndexState
    var seenFull: bool
    var lastSeq: Option<nat>
    var entries: map<Text, seq<CallerRow>>

    ghost function State(): Sub
      reads this, writer
    {
      Sub(writer.streams, index, seenFull, lastSeq, entries)
    }

    /** The source was added, not resumed, so its writer keeps no floor for it. */
    ghost predicate Valid()
      reads this, writer
    {
      writer.Valid() && writer.floors == map[]
    }

    constructor (writer: Writer)
      requires writer.Valid() && writer.W() == NEW
      ensures Valid() && State() == NEW_SUB && this.writer == writer
    {
      this.writer := writer;
      index, seenFull, lastSeq, entries := NO_INDEX_STATE, false, None, map[];
    }

    /** `Subscriber::apply`. */
    method ApplyOne(f: RowFrame) returns (r: Result<Applied>)
      requires Valid() && Sendable(State(), f)
      modifies this, writer`streams, writer`dropped
      ensures Valid()
      ensures match Apply(old(State()), f)
              case Refusal => r.Err? && State() == old(State())
              case Done(st, a) => r == Ok(a) && State() == st
    {
      match f {
        case Index(_, stream, ts, kind, state, blob) =>
          entries := entries[stream := EntriesUnder(entries, stream) + [CallerRow(ts, blob)]];
          index := state;
          if kind.Full? {
            seenFull := true;
          }
          return Ok(NOTHING.(entries := 1));
        case Rows(_, number, state, rows) =>
          var gap := lastSeq.Some? && number > lastSeq.value + 1;
          lastSeq := Some(number);
          var unresolvable := state != NO_INDEX_STATE && !seenFull;
          if unresolvable || state != index {
            return Ok(NOTHING.(rowsSkipped := |rows|, gap := gap));
          }
          if |rows| > 0 {
            var ok, _, _ := writer.CommitTick([(SRC, rows)], NoFault, map[]);
          }
          return Ok(NOTHING.(rows := |rows|, gap := gap));
        case SegmentOf(_, stream, _, _, _) =>
          var inserted := writer.AdoptSegment(SRC, stream, SegmentIn(f));
          match inserted {
            case Err => return Err;
            case Ok(true) => return Ok(NOTHING.(segments := 1));
            case Ok(false) => return Ok(NOTHING.(segmentsHeld := 1));
          }
        case _ => return Ok(NOTHING);
      }
    }

    /** `apply_all`: stops at the first failure, with everything before it applied. */
    method ApplyAll(fs: seq<RowFrame>) returns (r: Result<Applied>)
      requires Valid()
      requires AllSendable(State(), fs)
      modifies this, writer`streams, writer`dropped
      ensures Valid()
      ensures match ApplyTo(old(State()), fs, |fs|)
              case Refusal => r.Err?
              case Done(st, a) => r == Ok(a) && State() == st
    {
      var total := NOTHING;
      var i := 0;
      ghost var st := State();
      while i < |fs|
        invariant i <= |fs| && Valid() && ApplyTo(st, fs, i) == Done(State(), total)
      {
        NextApplied(st, fs, i, State(), total);
        var one := ApplyOne(fs[i]);
        if one.Err? {
          StaysRefused(st, fs, i + 1, |fs|);
          return Err;
        }
        total := Plus(total, one.value);
        i := i + 1;
      }
      return Ok(total);
    }
  }

  lemma {:induction false} StaysRefused(st: Sub, fs: seq<RowFrame>, i: nat, n: nat)
    requires i <= n <= |fs| && ApplyTo(st, fs, i).Refusal?
    ensures ApplyTo(st, fs, n).Refusal?
    decreases n
  {
    if i < n {
      StaysRefused(st, fs, i, n - 1);
    }
  }
}
