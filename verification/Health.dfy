/**
 * `WriterHealth` (src/writer.rs): how often ticks are dropped in a row, and when a writer gives up.
 */
module WriterHealth {
  import opened Types
  import opened Ticks
  import opened Seals

  const MAX_CONSECUTIVE_DROPPED_TICKS: nat := 30

  /** What a tick can do to the writer: drop rows after retries, commit some, or fail for good. */
  datatype Beat = Drop | Commit | Fatal

  /** A writer that is running, with the drops since its last commit, or one that has stopped. */
  datatype Health = Up(dropped: nat) | Down(dropped: nat)

  function Next(h: Health, b: Beat): Health {
    if h.Down? then h else
    match b
    case Commit => Up(0)
    case Fatal => Down(h.dropped)
    case Drop => if h.dropped + 1 < MAX_CONSECUTIVE_DROPPED_TICKS then Up(h.dropped + 1) else Down(h.dropped + 1)
  }

  function After(h: Health, beats: seq<Beat>, n: nat): Health
    requires n <= |beats|
  {
    if n == 0 then h else Next(After(h, beats, n - 1), beats[n - 1])
  }

  // ------------------------------------------------------------------ when a writer stops

  /** A fatal error, or the last of thirty drops with no commit between them. */
  predicate StopsAt(beats: seq<Beat>, i: nat)
    requires i < |beats|
  {
    beats[i] == Fatal || (i + 1 >= 30 && AllDrops(beats, i + 1 - 30, i + 1))
  }

  predicate AllDrops(beats: seq<Beat>, from: nat, to: nat)
    requires from <= to <= |beats|
  {
    forall j :: from <= j < to ==> beats[j] == Drop
  }

  /** While a writer runs, its count is the drops since the last commit. */
  ghost predicate CountsDrops(beats: seq<Beat>, n: nat, d: nat)
    requires n <= |beats|
  {
    && d <= n && d < MAX_CONSECUTIVE_DROPPED_TICKS && AllDrops(beats, n - d, n)
    && (d < n ==> beats[n - d - 1] == Commit)
  }

  lemma {:induction false} RunsOn(beats: seq<Beat>, n: nat)
    requires n <= |beats|
    ensures var h := After(Up(0), beats, n);
            && (h.Up? ==> CountsDrops(beats, n, h.dropped) && forall i: nat :: i < n ==> !StopsAt(beats, i))
            && (h.Down? ==> exists i: nat :: i < n && StopsAt(beats, i))
  {
    if n > 0 {
      RunsOn(beats, n - 1);
      var p := After(Up(0), beats, n - 1);
      if p.Up? {
        BeatStops(beats, n - 1, p.dropped);
        var h := Next(p, beats[n - 1]);
        assert h.Down? <==> StopsAt(beats, n - 1);
      }
    }
  }

  lemma BeatStops(beats: seq<Beat>, n: nat, d: nat)
    requires n < |beats| && CountsDrops(beats, n, d)
    ensures StopsAt(beats, n) <==> beats[n] == Fatal || (beats[n] == Drop && d + 1 >= MAX_CONSECUTIVE_DROPPED_TICKS)
  {
    if d + 1 < MAX_CONSECUTIVE_DROPPED_TICKS <= n + 1 {
      assert beats[n - d - 1] == Commit;
      assert n + 1 - MAX_CONSECUTIVE_DROPPED_TICKS <= n - d - 1 < n + 1;
    }
  }

  /**
   * Over any run a writer has stopped if and only if some failure was fatal, or some thirty drops
   * in a row had no commit between them.
   */
  lemma StopsExactly(beats: seq<Beat>)
    ensures After(Up(0), beats, |beats|).Down? <==> exists i: nat :: i < |beats| && StopsAt(beats, i)
  {
    RunsOn(beats, |beats|);
  }

  lemma {:induction false} AfterConcat(h: Health, a: seq<Beat>, b: seq<Beat>, n: nat)
    requires n <= |b|
    ensures After(h, a + b, |a| + n) == After(After(h, a, |a|), b, n)
  {
    if n == 0 {
      AfterPrefix(h, a, b, |a|);
    } else {
      AfterConcat(h, a, b, n - 1);
      assert (a + b)[|a| + n - 1] == b[n - 1];
    }
  }

  lemma {:induction false} AfterPrefix(h: Health, a: seq<Beat>, b: seq<Beat>, n: nat)
    requires n <= |a|
    ensures After(h, a + b, n) == After(h, a, n)
  {
    if n > 0 {
      AfterPrefix(h, a, b, n - 1);
      assert (a + b)[n - 1] == a[n - 1];
    }
  }

  // ------------------------------------------------------------------ what a tick does to it

  function Beats(f: Fault): seq<Beat> {
    match f
    case NoFault => []
    case Busy => [Drop]
    case Broken => [Fatal]
  }

  /** The failures of the first `n` sources, each in its own transaction. */
  function EachBeats(faults: map<nat, Fault>, n: nat): seq<Beat> {
    if n == 0 then [] else EachBeats(faults, n - 1) + Beats(FaultAt(faults, n - 1))
  }

  function EachHealth(h: Health, faults: map<nat, Fault>, n: nat): Health {
    After(h, EachBeats(faults, n), |EachBeats(faults, n)|)
  }

  lemma NextHealth(h: Health, faults: map<nat, Fault>, n: nat)
    requires n > 0
    ensures EachHealth(h, faults, n) == if FaultAt(faults, n - 1) == NoFault then EachHealth(h, faults, n - 1)
                                        else Next(EachHealth(h, faults, n - 1), Beats(FaultAt(faults, n - 1))[0])
  {
    var a, b := EachBeats(faults, n - 1), Beats(FaultAt(faults, n - 1));
    AfterConcat(h, a, b, |b|);
    if b != [] {
      assert After(After(h, a, |a|), b, 1) == Next(After(After(h, a, |a|), b, 0), b[0]);
    }
  }

  lemma {:induction false} DownStays(h: Health, faults: map<nat, Fault>, i: nat, n: nat)
    requires i <= n && EachHealth(h, faults, i).Down?
    ensures EachHealth(h, faults, n) == EachHealth(h, faults, i)
    decreases n
  {
    if i < n {
      DownStays(h, faults, i, n - 1);
      NextHealth(h, faults, n);
    }
  }

  /** Whether source `i`'s rows are not attempted, or fail: its own failure, or the writer's stop before it. */
  predicate FailsAt(dropped: nat, faults: map<nat, Fault>, i: nat) {
    FaultAt(faults, i) != NoFault || EachHealth(Up(dropped), faults, i).Down?
  }

  function Faulty(faults: map<nat, Fault>, n: nat): (s: set<nat>)
    ensures forall i: nat :: i in s <==> i < n && FaultAt(faults, i) != NoFault
  {
    if n == 0 then {} else Faulty(faults, n - 1) + if FaultAt(faults, n - 1) != NoFault then {n - 1} else {}
  }

  /** Source `i`'s own transaction commits. */
  predicate LandsAt(m: Streams, kept: seq<Batch>, fails: set<nat>, i: nat)
    requires i < |kept|
  {
    i !in fails && InsertRows(EachTo(m, kept, fails, i), kept[i]).Ok?
  }

  predicate Lands(m: Streams, kept: seq<Batch>, fails: set<nat>) {
    exists i: nat :: i < |kept| && LandsAt(m, kept, fails, i)
  }

  /** Everything one tick's commit does to the writer's health, in order. */
  function TickBeats(m: Streams, kept: seq<Batch>, batchFault: Fault, faults: map<nat, Fault>): seq<Beat> {
    if kept == [] then []
    else if batchFault != NoFault then Beats(batchFault)
    else if BatchTo(m, kept, |kept|).Ok? then [Commit]
    else EachBeats(faults, |kept|) + if Lands(m, kept, Faulty(faults, |kept|)) then [Commit] else []
  }

  function Felt(h: Health, beats: seq<Beat>): Health {
    After(h, beats, |beats|)
  }

  lemma FeltEach(h: Health, faults: map<nat, Fault>, n: nat, any: bool)
    ensures Felt(h, EachBeats(faults, n) + if any then [Commit] else []) ==
            if any then Next(EachHealth(h, faults, n), Commit) else EachHealth(h, faults, n)
  {
    var a, b := EachBeats(faults, n), if any then [Commit] else [];
    AfterConcat(h, a, b, |b|);
    if any {
      assert After(EachHealth(h, faults, n), b, 1) == Next(After(EachHealth(h, faults, n), b, 0), Commit);
    }
  }

  // ------------------------------------------------------------------ a run of ticks

  function Joined(ticks: seq<seq<Beat>>, n: nat): seq<Beat>
    requires n <= |ticks|
  {
    if n == 0 then [] else Joined(ticks, n - 1) + ticks[n - 1]
  }

  /** A writer's health after each of a run of ticks. */
  function Through(ticks: seq<seq<Beat>>, n: nat): Health
    requires n <= |ticks|
  {
    if n == 0 then Up(0) else Felt(Through(ticks, n - 1), ticks[n - 1])
  }

  /** A writer that starts fresh stops within a run of ticks exactly where their beats together say. */
  lemma {:induction false} RunStops(ticks: seq<seq<Beat>>, n: nat)
    requires n <= |ticks|
    ensures Through(ticks, n) == Felt(Up(0), Joined(ticks, n))
    ensures Through(ticks, n).Down? <==> exists i: nat :: i < |Joined(ticks, n)| && StopsAt(Joined(ticks, n), i)
  {
    if n > 0 {
      RunStops(ticks, n - 1);
      AfterConcat(Up(0), Joined(ticks, n - 1), ticks[n - 1], |ticks[n - 1]|);
    }
    StopsExactly(Joined(ticks, n));
  }
}
