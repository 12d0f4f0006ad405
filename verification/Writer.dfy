/** The writer thread (src/writer.rs): its memory, its message arms, and what each leaves behind. */
module WriterThread {
  import opened Types
  import opened Rows
  import opened Encoding
  import opened Catalog
  import opened Ticks
  import opened Machine
  import opened Floors
  import opened Retention
  import opened Seals
  import opened Commits
  import opened Deferral
  import opened WriterHealth

  // ------------------------------------------------------------------ a seal's loops

  lemma {:induction false} SealStaysErr(m: Streams, source: int, batch: seq<Text>, maxRows: nat, enc: Encoders, i: nat, n: nat)
    requires i <= n <= |batch| && SealTo(m, source, batch, maxRows, enc, i).Err?
    ensures SealTo(m, source, batch, maxRows, enc, n).Err?
    decreases n
  {
    if i < n {
      SealStaysErr(m, source, batch, maxRows, enc, i, n - 1);
    }
  }

  /** Encode each stream's live tail and place its parts, as one transaction. */
  method SealLoop(m: Streams, source: int, batch: seq<Text>, maxRows: nat, enc: Encoders) returns (r: Result<Streams>)
    ensures r == SealBatch(m, source, batch, maxRows, enc)
  {
    var work := m;
    var i := 0;
    while i < |batch|
      invariant i <= |batch|
      invariant SealTo(m, source, batch, maxRows, enc, i) == Ok(work)
    {
      var k := (source, batch[i]);
      var rows := LiveWal(At(m, k).t);
      if rows != [] {
        var parts := SplitSealLoop(enc(batch[i]), rows, maxRows);
        if parts.Err? || (parts.value != [] && batch[i] in batch[..i]) {
          SealStaysErr(m, source, batch, maxRows, enc, i + 1, |batch|);
          return Err;
        }
        if parts.value != [] {
          work := work[k := InsertParts(At(m, k), parts.value)];
        }
      }
      i := i + 1;
    }
    return Ok(work);
  }

  lemma {:induction false} PruneStops(
    m: Streams, m': Streams, source: int, batch: seq<Text>, maxRows: nat, enc: Encoders, prune: map<nat, Fault>, i: nat, n: nat)
    requires i <= n <= |batch| && PruneTo(m, m', source, batch, maxRows, enc, prune, i).fault != NoFault
    ensures PruneTo(m, m', source, batch, maxRows, enc, prune, n) == PruneTo(m, m', source, batch, maxRows, enc, prune, i)
    decreases n
  {
    if i < n {
      PruneStops(m, m', source, batch, maxRows, enc, prune, i, n - 1);
    }
  }

  /** Outside the transaction, each sealed stream up to its own newest segment's end. */
  method PruneLoop(
    m: Streams, m': Streams, source: int, batch: seq<Text>, maxRows: nat, enc: Encoders, prune: map<nat, Fault>)
    returns (o: Outcome)
    ensures o == PruneTo(m, m', source, batch, maxRows, enc, prune, |batch|)
  {
    var work := m';
    var i := 0;
    while i < |batch|
      invariant i <= |batch|
      invariant PruneTo(m, m', source, batch, maxRows, enc, prune, i) == Outcome(work, NoFault)
    {
      var k := (source, batch[i]);
      var upto := SealedUpTo(enc(batch[i]), At(m, k), maxRows);
      if upto.Some? {
        if FaultAt(prune, i) != NoFault {
          PruneStops(m, m', source, batch, maxRows, enc, prune, i + 1, |batch|);
          return Outcome(work, FaultAt(prune, i));
        }
        work := PruneAt(work, k, upto.value);
      }
      i := i + 1;
    }
    return Outcome(work, NoFault);
  }

  ghost function Between(i: nat, n: nat): (s: set<nat>)
    ensures forall j: nat :: j in s <==> i <= j < n
    decreases n - i
  {
    if i >= n then {} else {i} + Between(i + 1, n)
  }

  // ------------------------------------------------------------------ a retention pass's loop

  /** The live rows the named streams hold. */
  function LiveTotal(m: Streams, source: int, names: seq<Text>, n: nat): nat
    requires n <= |names|
  {
    if n == 0 then 0 else LiveTotal(m, source, names, n - 1) + |LiveWal(At(m, (source, names[n - 1])).t)|
  }

  /** Every name a pass can see (`all_streams` and `caller_row_streams`), each once. */
  ghost predicate NamesAll(names: seq<Text>, m: Streams, callers: Callers, source: int) {
    Distinct(names) && forall k: Key :: k.0 == source && (k in m || k in callers) ==> k.1 in names
  }

  function EvictAt(m: Streams, k: Key, cutoff: int): Streams {
    if k in m then m[k := m[k].(t := Evict(m[k].t, cutoff))] else m
  }

  function CallersAt(callers: Callers, m: Streams, k: Key, cutoff: int, floor: Option<Floor>): Callers {
    if k in callers then callers[k := KeepRows(callers[k], CutFor(k.1, At(m, k).t, cutoff, floor))] else callers
  }

  /** What the pass has done once it is past the names in `done`. */
  ghost predicate EvictedIn(m: Streams, m': Streams, source: int, cutoff: int, filter: Text -> bool, done: seq<Text>) {
    && m'.Keys == m.Keys
    && forall k :: k in m ==>
         m'[k] == if k.0 == source && filter(k.1) && k.1 in done then m[k].(t := Evict(m[k].t, cutoff)) else m[k]
  }

  ghost predicate CallersIn(
    callers: Callers, callers': Callers, m: Streams, source: int, cutoff: int, filter: Text -> bool, floor: Option<Floor>,
    done: seq<Text>)
  {
    && callers'.Keys == callers.Keys
    && forall k :: k in callers ==>
         callers'[k] == if k.0 == source && filter(k.1) && k.1 in done
                        then KeepRows(callers[k], CutFor(k.1, Evict(At(m, k).t, cutoff), cutoff, floor)) else callers[k]
  }

  lemma EvictedInIs(
    m: Streams, m': Streams, callers: Callers, callers': Callers, source: int, cutoff: int, filter: Text -> bool,
    floor: Option<Floor>, names: seq<Text>)
    requires NamesAll(names, m, callers, source)
    requires EvictedIn(m, m', source, cutoff, filter, names)
    requires CallersIn(callers, callers', m, source, cutoff, filter, floor, names)
    ensures m' == EvictStreams(m, source, cutoff, filter)
    ensures callers' == EvictCallers(callers, m', source, cutoff, filter, floor)
  {
    forall k | k in callers && k.0 == source && filter(k.1)
      ensures At(m', k).t == Evict(At(m, k).t, cutoff)
    {}
  }

  lemma EvictedStep(
    m: Streams, m': Streams, source: int, cutoff: int, filter: Text -> bool, done: seq<Text>, name: Text)
    requires EvictedIn(m, m', source, cutoff, filter, done) && name !in done
    ensures At(m', (source, name)) == At(m, (source, name))
    ensures EvictedIn(m, if filter(name) then EvictAt(m', (source, name), cutoff) else m', source, cutoff, filter, done + [name])
  {}

  lemma CallersStep(
    callers: Callers, callers': Callers, m: Streams, m': Streams, source: int, cutoff: int, filter: Text -> bool,
    floor: Option<Floor>, done: seq<Text>, name: Text)
    requires CallersIn(callers, callers', m, source, cutoff, filter, floor, done) && name !in done
    requires At(m', (source, name)).t == Evict(At(m, (source, name)).t, cutoff)
    ensures CallersIn(callers, if filter(name) then CallersAt(callers', m', (source, name), cutoff, floor) else callers',
                      m, source, cutoff, filter, floor, done + [name])
  {}

  lemma EvictAtIs(m: Streams, m': Streams, k: Key, cutoff: int)
    requires At(m', k) == At(m, k) && AllInv(m)
    ensures At(EvictAt(m', k, cutoff), k).t == Evict(At(m, k).t, cutoff)
    ensures forall j: Key :: j != k ==> At(EvictAt(m', k, cutoff), j) == At(m', j)
    ensures CountBelow(LiveWal(At(m, k).t), cutoff) + |LiveWal(At(EvictAt(m', k, cutoff), k).t)| == |LiveWal(At(m, k).t)|
  {
    assert InvAt(m, k) && IsAt(m, k, At(m, k));
    var _ := EvictExact(At(m, k).t, cutoff);
  }

  /** The transaction so far. */
  datatype Pass = Pass(streams: Streams, callers: Callers, liveRows: nat)

  /** One stream's count and deletes; live rows are counted before the segments go. */
  function PassStream(p: Pass, k: Key, cutoff: int, floor: Option<Floor>): Pass {
    var m := EvictAt(p.streams, k, cutoff);
    Pass(m, CallersAt(p.callers, m, k, cutoff, floor), p.liveRows + CountBelow(LiveWal(At(p.streams, k).t), cutoff))
  }

  ghost predicate PassDone(
    m: Streams, callers: Callers, p: Pass, source: int, cutoff: int, filter: Text -> bool, floor: Option<Floor>,
    names: seq<Text>, i: nat)
    requires i <= |names|
  {
    && EvictedIn(m, p.streams, source, cutoff, filter, names[..i])
    && CallersIn(callers, p.callers, m, source, cutoff, filter, floor, names[..i])
    && p.liveRows + LiveTotal(p.streams, source, names, i) == LiveTotal(m, source, names, i)
  }

  lemma PassTotal(m: Streams, p: Pass, p': Pass, source: int, cutoff: int, filter: bool, floor: Option<Floor>, names: seq<Text>, i: nat)
    requires AllInv(m) && i < |names| && Distinct(names) && At(p.streams, (source, names[i])) == At(m, (source, names[i]))
    requires p' == if filter then PassStream(p, (source, names[i]), cutoff, floor) else p
    requires p.liveRows + LiveTotal(p.streams, source, names, i) == LiveTotal(m, source, names, i)
    ensures p'.liveRows + LiveTotal(p'.streams, source, names, i + 1) == LiveTotal(m, source, names, i + 1)
  {
    var k := (source, names[i]);
    EvictAtIs(m, p.streams, k, cutoff);
    forall j: nat | j < i ensures names[j] != names[i] {
      assert NamesDiffer(names, j, i);
    }
    SameTotal(p.streams, p'.streams, source, names, i);
  }

  lemma PassNext(
    m: Streams, callers: Callers, p: Pass, source: int, cutoff: int, filter: Text -> bool, floor: Option<Floor>,
    names: seq<Text>, i: nat)
    requires AllInv(m) && i < |names| && Distinct(names)
    requires PassDone(m, callers, p, source, cutoff, filter, floor, names, i)
    ensures PassDone(m, callers, if filter(names[i]) then PassStream(p, (source, names[i]), cutoff, floor) else p,
                     source, cutoff, filter, floor, names, i + 1)
  {
    var done, name := names[..i], names[i];
    assert names[..i + 1] == done + [name];
    FreshName(names, i);
    EvictedStep(m, p.streams, source, cutoff, filter, done, name);
    var p' := if filter(name) then PassStream(p, (source, name), cutoff, floor) else p;
    PassTotal(m, p, p', source, cutoff, filter(name), floor, names, i);
    PassCallers(m, callers, p, p', source, cutoff, filter, floor, done, name);
  }

  lemma PassCallers(
    m: Streams, callers: Callers, p: Pass, p': Pass, source: int, cutoff: int, filter: Text -> bool, floor: Option<Floor>,
    done: seq<Text>, name: Text)
    requires AllInv(m) && name !in done && At(p.streams, (source, name)) == At(m, (source, name))
    requires p' == if filter(name) then PassStream(p, (source, name), cutoff, floor) else p
    requires CallersIn(callers, p.callers, m, source, cutoff, filter, floor, done)
    ensures CallersIn(callers, p'.callers, m, source, cutoff, filter, floor, done + [name])
  {
    if filter(name) {
      EvictAtIs(m, p.streams, (source, name), cutoff);
      CallersStep(callers, p.callers, m, p'.streams, source, cutoff, filter, floor, done, name);
    }
  }

  /** `evict_streams`: stream by stream, in one transaction. */
  method EvictLoop(
    m: Streams, callers: Callers, source: int, cutoff: int, filter: Text -> bool, floor: Option<Floor>, names: seq<Text>)
    returns (p: Pass)
    requires AllInv(m) && NamesAll(names, m, callers, source)
    ensures p.streams == EvictStreams(m, source, cutoff, filter)
    ensures p.callers == EvictCallers(callers, p.streams, source, cutoff, filter, floor)
    ensures p.liveRows + LiveTotal(p.streams, source, names, |names|) == LiveTotal(m, source, names, |names|)
  {
    p := Pass(m, callers, 0);
    var i := 0;
    while i < |names|
      invariant i <= |names|
      invariant PassDone(m, callers, p, source, cutoff, filter, floor, names, i)
    {
      PassNext(m, callers, p, source, cutoff, filter, floor, names, i);
      if filter(names[i]) {
        p := PassStream(p, (source, names[i]), cutoff, floor);
      }
      i := i + 1;
    }
    assert names[..|names|] == names;
    EvictedInIs(m, p.streams, callers, p.callers, source, cutoff, filter, floor, names);
  }

  lemma {:induction false} SameTotal(m: Streams, m': Streams, source: int, names: seq<Text>, n: nat)
    requires n <= |names| && forall i :: 0 <= i < n ==> At(m, (source, names[i])) == At(m', (source, names[i]))
    ensures LiveTotal(m, source, names, n) == LiveTotal(m', source, names, n)
  {
    if n > 0 {
      SameTotal(m, m', source, names, n - 1);
    }
  }

  // ------------------------------------------------------------------ the thread

  /** What one retention pass reports. */
  datatype Evicted = Evicted(liveRows: nat, heldStreams: nat)

  ghost predicate AllOrdered(deferred: map<int, Listed>) {
    forall s :: s in deferred ==> OrderedAt(deferred, s)
  }

  ghost predicate OrderedAt(deferred: map<int, Listed>, s: int)
    requires s in deferred
  {
    KeyOrder(deferred[s])
  }

  function ListedFor(deferred: map<int, Listed>, source: int): Listed {
    if source in deferred then deferred[source] else []
  }

  lemma ListedInOrder(deferred: map<int, Listed>, source: int)
    requires AllOrdered(deferred)
    ensures KeyOrder(ListedFor(deferred, source))
  {
    assert source in deferred ==> OrderedAt(deferred, source);
  }

  lemma ReplaceOrdered(deferred: map<int, Listed>, source: int, listed: Listed)
    requires AllOrdered(deferred) && KeyOrder(listed)
    ensures AllOrdered(deferred[source := listed])
  {
    var after := deferred[source := listed];
    forall s | s in after ensures OrderedAt(after, s) {
      assert s != source ==> OrderedAt(deferred, s);
    }
  }

  /** How many held streams the pass's own filter would have evicted. */
  function CountHeld(held: Listed, filter: Text -> bool): nat {
    if held == [] then 0 else (if filter(held[0].0) then 1 else 0) + CountHeld(held[1..], filter)
  }

  /** It is the number of the held streams the filter takes, each listed stream counted once. */
  lemma {:induction false} HeldExact(held: Listed, filter: Text -> bool) returns (taken: Listed, idx: seq<nat>)
    ensures Picks(held, taken, idx) && |idx| == CountHeld(held, filter)
    ensures forall i: nat :: i < |held| ==> (i in idx <==> filter(held[i].0))
  {
    if held == [] {
      taken, idx := [], [];
    } else {
      var more, mdx := HeldExact(held[1..], filter);
      var first := filter(held[0].0);
      taken, idx := (if first then [held[0]] else []) + more, Shifted(mdx, first);
      assert held == [held[0]] + held[1..];
      ShiftPicks(held[0], held[1..], more, mdx, first, held, taken, idx);
    }
  }

  /** Stream `k` is cut at the cutoff, or left as it was. */
  ghost predicate Cut(m: Streams, m': Streams, k: Key, cutoff: int, cut: bool) {
    At(m', k) == if cut then At(m, k).(t := Evict(At(m, k).t, cutoff)) else At(m, k)
  }

  /** The stream kept every segment, WAL row and caller row it had. */
  ghost predicate Spared(m: Streams, m': Streams, callers: Callers, callers': Callers, k: Key) {
    && Untouched(At(m, k), At(m', k))
    && (k in callers <==> k in callers') && (k in callers ==> callers'[k] == callers[k])
  }

  lemma SuffixOrder(m: Streams, source: int, listed: Listed, enc: Encoders, attempts: seq<Schedule>, held: Listed)
    requires KeyOrder(listed) && held == RetryTo(m, source, listed, enc, attempts, |listed|).held
    ensures KeyOrder(held)
  {
    var c := HeldIsSuffix(m, source, listed, enc, attempts, |listed|, RetryTo(m, source, listed, enc, attempts, |listed|));
    forall i, j | 0 <= i < j < |held| ensures Less(held[i].0, held[j].0) {
      assert held[i] == listed[c + i] && held[j] == listed[c + j];
    }
  }

  ghost predicate AllUntouched(m: Streams, m': Streams, source: int, held: Listed) {
    forall j :: 0 <= j < |held| ==> Untouched(At(m, (source, held[j].0)), At(m', (source, held[j].0)))
  }

  lemma HeldKept(m: Streams, source: int, listed: Listed, enc: Encoders, attempts: seq<Schedule>)
    requires KeyOrder(listed)
    ensures var r := RetryTo(m, source, listed, enc, attempts, |listed|);
            AllUntouched(m, r.streams, source, r.held)
  {
    var r := RetryTo(m, source, listed, enc, attempts, |listed|);
    var c := HeldIsSuffix(m, source, listed, enc, attempts, |listed|, r);
    forall j | 0 <= j < |r.held| ensures Untouched(At(m, (source, r.held[j].0)), At(r.streams, (source, r.held[j].0))) {
      assert listed[c + j] == r.held[j];
      HeldUntouched(m, source, listed, enc, attempts, c + j);
    }
  }

  ghost predicate AllCut(m: Streams, m': Streams, source: int, cutoff: int, filter: Text -> bool, held: Listed) {
    forall k: Key :: Cut(m, m', k, cutoff, k.0 == source && filter(k.1) && !Lists(held, k.1))
  }

  /** Name `k`'s caller rows are cut where the floor says, given the archive `m'` the pass's deletes left, or kept. */
  ghost predicate CallersCut(
    callers: Callers, callers': Callers, m': Streams, k: Key, cutoff: int, floor: Option<Floor>, cut: bool)
  {
    && (k in callers' <==> k in callers)
    && (k in callers ==>
          callers'[k] == if cut then KeepRows(callers[k], CutFor(k.1, At(m', k).t, cutoff, floor)) else callers[k])
  }

  /**
   * The same by what is left: of a name taken, each row at or past the cut as often as before and no
   * other. The cut is the cutoff, or what the floor answers for the oldest row left, where older.
   */
  ghost predicate CallersLeft(
    callers: Callers, callers': Callers, m': Streams, k: Key, cutoff: int, floor: Option<Floor>, cut: bool)
  {
    k in callers && k in callers' ==>
      var at := if floor.None? then cutoff else Min(cutoff, floor.value(k.1, OldestRow(At(m', k).t)));
      forall r :: multiset(callers'[k])[r] == if cut && r.ts < at then 0 else multiset(callers[k])[r]
  }

  ghost predicate AllCallersLeft(
    callers: Callers, callers': Callers, m': Streams, source: int, cutoff: int, filter: Text -> bool, held: Listed,
    floor: Option<Floor>)
  {
    callers'.Keys == callers.Keys
    && forall k: Key :: CallersLeft(callers, callers', m', k, cutoff, floor, k.0 == source && filter(k.1) && !Lists(held, k.1))
  }

  lemma CutLeaves(
    callers: Callers, callers': Callers, m': Streams, source: int, cutoff: int, filter: Text -> bool, held: Listed,
    floor: Option<Floor>)
    requires AllCallersCut(callers, callers', m', source, cutoff, filter, held, floor)
    ensures AllCallersLeft(callers, callers', m', source, cutoff, filter, held, floor)
  {
    forall k: Key
      ensures CallersLeft(callers, callers', m', k, cutoff, floor, k.0 == source && filter(k.1) && !Lists(held, k.1))
      ensures k in callers <==> k in callers'
    {
      var cut := k.0 == source && filter(k.1) && !Lists(held, k.1);
      assert CallersCut(callers, callers', m', k, cutoff, floor, cut);
      if k in callers && cut {
        var at := if floor.None? then cutoff else Min(cutoff, floor.value(k.1, OldestRow(At(m', k).t)));
        forall r ensures multiset(callers'[k])[r] == if r.ts < at then 0 else multiset(callers[k])[r] {
          KeepRowsCounts(callers[k], at, r);
        }
      }
    }
  }

  ghost predicate AllCallersCut(
    callers: Callers, callers': Callers, m': Streams, source: int, cutoff: int, filter: Text -> bool, held: Listed,
    floor: Option<Floor>)
  {
    forall k: Key :: CallersCut(callers, callers', m', k, cutoff, floor, k.0 == source && filter(k.1) && !Lists(held, k.1))
  }

  ghost predicate AllSpared(m: Streams, m': Streams, callers: Callers, callers': Callers, source: int, held: Listed) {
    forall j :: 0 <= j < |held| ==> Spared(m, m', callers, callers', (source, held[j].0))
  }

  lemma PassCuts(
    m: Streams, callers: Callers, source: int, cutoff: int, filter: Text -> bool, held: Listed, evict: Text -> bool,
    floor: Option<Floor>, p: Pass)
    requires forall s :: evict(s) <==> filter(s) && !Lists(held, s)
    requires p.streams == EvictStreams(m, source, cutoff, evict)
    requires p.callers == EvictCallers(callers, p.streams, source, cutoff, evict, floor)
    ensures AllCut(m, p.streams, source, cutoff, filter, held)
    ensures AllSpared(m, p.streams, callers, p.callers, source, held)
    ensures AllCallersCut(callers, p.callers, p.streams, source, cutoff, filter, held, floor)
  {
    forall k: Key
      ensures CallersCut(callers, p.callers, p.streams, k, cutoff, floor, k.0 == source && filter(k.1) && !Lists(held, k.1))
    {}
    forall k: Key ensures Cut(m, p.streams, k, cutoff, k.0 == source && filter(k.1) && !Lists(held, k.1)) {
      assert Evict(EMPTY.t, cutoff) == EMPTY.t;
    }
    forall j | 0 <= j < |held| ensures Spared(m, p.streams, callers, p.callers, (source, held[j].0)) {
      assert Lists(held, held[j].0);
    }
  }

  lemma HeldSpared(
    m0: Streams, m: Streams, m': Streams, callers: Callers, callers': Callers, source: int, held: Listed)
    requires AllUntouched(m0, m, source, held) && AllSpared(m, m', callers, callers', source, held)
    ensures AllSpared(m0, m', callers, callers', source, held)
  {
    forall j | 0 <= j < |held| ensures Spared(m0, m', callers, callers', (source, held[j].0)) {
      var k := (source, held[j].0);
      assert Untouched(At(m0, k), At(m, k)) && Spared(m, m', callers, callers', k);
    }
  }

  /**
   * What the `Evict` arm leaves replays: with the floor at a full statement, every row a reader
   * still sees, in a stream the pass cut or not, replays to the caller state it had before.
   */
  lemma {:induction false} PassKeepsReplay<S>(
    log: Log<S>, m: Streams, m': Streams, callers: Callers, callers': Callers, source: int, cutoff: int, filter: Text -> bool,
    held: Listed, floor: Floor, k: Key, r: WalRow)
    requires AllCut(m, m', source, cutoff, filter, held)
    requires AllCallersCut(callers, callers', m', source, cutoff, filter, held, Some(floor))
    requires Inv(At(m, k)) && k in callers && InOrder(callers[k])
    requires forall i :: 0 <= i < |callers[k]| ==> callers[k][i].ts >= I64_MIN
    requires IsFloor(log.full, callers[k], OldestRow(At(m', k).t), floor(k.1, OldestRow(At(m', k).t)))
    requires r in View(At(m', k).t)
    ensures k in callers' && Replay(log, callers'[k], r.ts) == Replay(log, callers[k], r.ts)
  {
    var cut := k.0 == source && filter(k.1) && !Lists(held, k.1);
    assert Cut(m, m', k, cutoff, cut) && CallersCut(callers, callers', m', k, cutoff, Some(floor), cut);
    if cut {
      RetentionKeepsReplay(log, k.1, At(m, k).t, cutoff, callers[k], floor, r);
    }
  }

  // ------------------------------------------------------------------ which sources of a tick fail

  /** A writer stopped by source `i` fails it, every later source, and the faulty ones before it. */
  lemma StoppedAt(dropped: nat, faults: map<nat, Fault>, i: nat, n: nat)
    requires i < n && EachHealth(Up(dropped), faults, i).Up? && EachHealth(Up(dropped), faults, i + 1).Down?
    ensures EachHealth(Up(dropped), faults, n) == EachHealth(Up(dropped), faults, i + 1)
    ensures forall j: nat :: j < n ==> (FailsAt(dropped, faults, j) <==> FaultAt(faults, j) != NoFault || j >= i)
  {
    DownStays(Up(dropped), faults, i + 1, n);
    NextHealth(Up(dropped), faults, i + 1);
    forall j: nat | j < n ensures FailsAt(dropped, faults, j) <==> FaultAt(faults, j) != NoFault || j >= i {
      if j > i {
        DownStays(Up(dropped), faults, i + 1, j);
      } else if EachHealth(Up(dropped), faults, j).Down? {
        DownStays(Up(dropped), faults, j, i);
      }
    }
  }

  lemma StoppedStreams(m: Streams, kept: seq<Batch>, broken: set<nat>, fails: set<nat>, i: nat)
    requires i <= |kept| && forall j: nat :: j in fails <==> j in broken || i <= j < |kept|
    ensures EachTo(m, kept, fails, |kept|) == EachTo(m, kept, broken, i)
  {
    EachSameFails(m, kept, broken, fails, i);
    EachAllFail(m, kept, fails, i, |kept|);
  }

  /** A writer that is still running after the last source failed only the faulty ones. */
  lemma RanThrough(dropped: nat, faults: map<nat, Fault>, n: nat)
    requires EachHealth(Up(dropped), faults, n).Up?
    ensures forall j: nat :: j < n ==> (FailsAt(dropped, faults, j) <==> FaultAt(faults, j) != NoFault)
  {
    forall j: nat | j < n ensures FailsAt(dropped, faults, j) <==> FaultAt(faults, j) != NoFault {
      if EachHealth(Up(dropped), faults, j).Down? {
        DownStays(Up(dropped), faults, j, n);
      }
    }
  }

  lemma {:induction false} NoFaults(h: Health, faults: map<nat, Fault>, n: nat)
    ensures faults == map[] ==> EachHealth(h, faults, n) == h && forall i: nat :: i <= n ==> EachHealth(h, faults, i) == h
  {
    if n > 0 {
      NoFaults(h, faults, n - 1);
      NextHealth(h, faults, n);
    }
  }

  /** What the first `i` sources of the fallback have committed, and whether any has. */
  ghost predicate EachLands(m: Streams, kept: seq<Batch>, fails: set<nat>, i: nat, streams: Streams, any: bool) {
    forall n: nat :: n == i ==> EachLandsTo(m, kept, fails, n, streams, any)
  }

  ghost predicate EachLandsTo(m: Streams, kept: seq<Batch>, fails: set<nat>, i: nat, streams: Streams, any: bool) {
    i <= |kept| && streams == EachTo(m, kept, fails, i) && (any <==> LandsBy(m, kept, fails, i))
  }

  ghost predicate LandsBy(m: Streams, kept: seq<Batch>, fails: set<nat>, n: nat)
    requires n <= |kept|
  {
    exists j: nat :: j < n && LandsAt(m, kept, fails, j)
  }

  lemma LandsBegin(m: Streams, kept: seq<Batch>, fails: set<nat>)
    ensures EachLands(m, kept, fails, 0, m, false)
  {}

  /** One more source: it commits what it can, unless it is among those that fail. */
  lemma LandsNext(m: Streams, kept: seq<Batch>, fails: set<nat>, i: nat, streams: Streams, any: bool, n: nat, next: Streams, now: bool)
    requires i < |kept| && n == i + 1 && EachLands(m, kept, fails, i, streams, any)
    requires next == Land(streams, kept[i], i in fails) && now == (any || (i !in fails && InsertRows(streams, kept[i]).Ok?))
    ensures EachLands(m, kept, fails, n, next, now)
  {
    assert EachLandsTo(m, kept, fails, i, streams, any);
    assert EachTo(m, kept, fails, n) == next;
    MoreLands(m, kept, fails, i, n);
  }

  lemma MoreLands(m: Streams, kept: seq<Batch>, fails: set<nat>, i: nat, n: nat)
    requires i < |kept| && n == i + 1
    ensures LandsBy(m, kept, fails, n) <==> LandsBy(m, kept, fails, i) || LandsAt(m, kept, fails, i)
  {
    if j: nat :| j < n && LandsAt(m, kept, fails, j) {
      assert j < i || j == i;
    }
  }

  /** The fallback has not stopped the writer after `i` sources. */
  ghost predicate StillUp(d: nat, faults: map<nat, Fault>, i: nat, dropped: nat) {
    forall n: nat :: n == i ==> StillUpTo(d, faults, n, dropped)
  }

  ghost predicate StillUpTo(d: nat, faults: map<nat, Fault>, i: nat, dropped: nat) {
    EachHealth(Up(d), faults, i) == Up(dropped)
  }

  lemma UpBegins(d: nat, faults: map<nat, Fault>)
    ensures StillUp(d, faults, 0, d)
  {}

  lemma UpAfter(d: nat, faults: map<nat, Fault>, i: nat, dropped: nat)
    requires StillUp(d, faults, i, dropped) && FaultAt(faults, i) == NoFault
    ensures StillUp(d, faults, i + 1, dropped)
  {
    assert StillUpTo(d, faults, i, dropped);
    NextHealth(Up(d), faults, i + 1);
  }

  /** A source whose transaction fails: the writer goes on, or stops there. */
  lemma FaultAfter(d: nat, faults: map<nat, Fault>, i: nat, dropped: nat, after: nat, ok: bool)
    requires StillUp(d, faults, i, dropped) && FaultAt(faults, i) != NoFault
    requires Next(Up(dropped), Beats(FaultAt(faults, i))[0]) == if ok then Up(after) else Down(after)
    ensures ok ==> StillUp(d, faults, i + 1, after)
    ensures EachHealth(Up(d), faults, i).Up? && (!ok ==> EachHealth(Up(d), faults, i + 1) == Down(after))
  {
    assert StillUpTo(d, faults, i, dropped);
    NextHealth(Up(d), faults, i + 1);
  }

  lemma EachStops(
    m: Streams, kept: seq<Batch>, faults: map<nat, Fault>, d: nat, i: nat, streams: Streams, any: bool, after: nat,
    broken: set<nat>, fails: set<nat>)
    requires i < |kept| && broken == Faulty(faults, |kept|) && EachLands(m, kept, broken, i, streams, any)
    requires EachHealth(Up(d), faults, i).Up? && EachHealth(Up(d), faults, i + 1) == Down(after)
    requires forall j: nat :: j in fails <==> j in broken || i <= j < |kept|
    ensures streams == EachTo(m, kept, fails, |kept|) && EachHealth(Up(d), faults, |kept|) == Down(after)
    ensures forall j: nat :: j in fails <==> j < |kept| && FailsAt(d, faults, j)
  {
    assert EachLandsTo(m, kept, broken, i, streams, any);
    StoppedAt(d, faults, i, |kept|);
    StoppedStreams(m, kept, broken, fails, i);
  }

  lemma EachEnds(m: Streams, kept: seq<Batch>, faults: map<nat, Fault>, d: nat, streams: Streams, dropped: nat, any: bool, broken: set<nat>)
    requires broken == Faulty(faults, |kept|) && EachLands(m, kept, broken, |kept|, streams, any)
    requires StillUp(d, faults, |kept|, dropped)
    ensures streams == EachTo(m, kept, broken, |kept|) && EachHealth(Up(d), faults, |kept|) == Up(dropped)
    ensures any <==> Lands(m, kept, broken)
    ensures forall j: nat :: j in broken <==> j < |kept| && FailsAt(d, faults, j)
  {
    assert EachLandsTo(m, kept, broken, |kept|, streams, any) && StillUpTo(d, faults, |kept|, dropped);
    RanThrough(d, faults, |kept|);
  }

  class Writer {
    var enc: Encoders
    /** `encoder.version()`. */
    var version: Option<Text>
    /** The archive's `sources`, each with the encoder version its metadata records. */
    var sources: map<int, Option<Text>>
    /** The archive's `wal` and `segments`, with `next_seq` and `watermarks` per stream. */
    var streams: Streams
    var floors: map<int, int>
    var deferred: map<int, Listed>
    /** The archive's `caller_rows`. */
    var callers: Callers
    /** `health.consecutive_dropped`. */
    var dropped: nat

    ghost function W(): World
      reads this
    {
      World(streams, floors)
    }

    /** The archive is one the storage machine reaches, and the deferred lists are in key order. */
    ghost predicate Valid()
      reads this
    {
      Reaches(NEW, W()) && AllOrdered(deferred)
    }

    constructor (enc: Encoders, version: Option<Text>)
      ensures Valid() && W() == NEW && deferred == map[] && callers == map[] && dropped == 0
      ensures this.enc == enc && this.version == version && sources == map[]
    {
      this.enc, this.version, sources := enc, version, map[];
      streams, floors, deferred, callers, dropped := map[], map[], map[], map[], 0;
      new;
      ReachesSelf(NEW);
    }

    /** A writer is always on a sound archive. */
    lemma Sound(k: Key)
      requires Valid()
      ensures Inv(At(streams, k)) && Sorted(View(At(streams, k).t))
    {
      ReachableInv(W());
      assert InvAt(streams, k) && IsAt(streams, k, At(streams, k));
      ViewSorted(At(streams, k).t);
    }

    /** `health.dropped`: counted, and fatal at the limit. */
    method Dropped() returns (ok: bool)
      modifies this`dropped
      ensures Next(Up(old(dropped)), Drop) == if ok then Up(dropped) else Down(dropped)
    {
      dropped := dropped + 1;
      ok := dropped < MAX_CONSECUTIVE_DROPPED_TICKS;
    }

    /**
     * The `Wal` arm. `batchFault` and `faults` are how the database answers the one
     * transaction and, after a collision in it, each source's own.
     */
    method CommitTick(ticks: seq<Batch>, batchFault: Fault, faults: map<nat, Fault>)
      returns (ok: bool, ghost batchFails: bool, ghost fails: set<nat>)
      requires Valid()
      modifies this`streams, this`dropped
      ensures Valid()
      ensures W() == TickStep(old(W()), ticks, batchFails, fails)
      ensures var kept := Filtered(old(streams), floors, ticks);
              && (batchFails <==> kept != [] && batchFault != NoFault)
              && (forall i: nat :: i in fails <==>
                    i < |kept| && batchFault == NoFault && BatchTo(old(streams), kept, |kept|).Err?
                    && FailsAt(old(dropped), faults, i))
              && Felt(Up(old(dropped)), TickBeats(old(streams), kept, batchFault, faults)) == if ok then Up(dropped) else Down(dropped)
      ensures batchFault == NoFault && faults == map[] ==> ok && !batchFails && fails == {}
    {
      ok, batchFails, fails := true, false, {};
      var kept := FilterLoop(streams, floors, ticks);
      ghost var beats := TickBeats(streams, kept, batchFault, faults);
      ghost var h := Up(dropped);
      if kept == [] {
        ReachesStep(NEW, W(), Tick(ticks, false, {}));
        return;
      }
      assert beats != [] ==> After(h, beats, 1) == Next(After(h, beats, 0), beats[0]);
      if batchFault != NoFault {
        batchFails := true;
        ReachesStep(NEW, W(), Tick(ticks, true, {}));
        if batchFault == Busy {
          ok := Dropped();
        } else {
          ok := false;
        }
        return;
      }
      var one := InsertBatchLoop(streams, kept);
      if one.Ok? {
        ReachesStep(NEW, W(), Tick(ticks, false, {}));
        streams := one.value;
        dropped := 0;
        return;
      }
      ghost var w := W();
      FeltEach(h, faults, |kept|, Lands(streams, kept, Faulty(faults, |kept|)));
      NoFaults(h, faults, |kept|);
      ok, fails := CommitEach(kept, faults);
      ReachesStep(NEW, w, Tick(ticks, false, fails));
    }

    /** The fallback: one transaction per source. */
    method CommitEach(kept: seq<Batch>, faults: map<nat, Fault>) returns (ok: bool, ghost fails: set<nat>)
      modifies this`streams, this`dropped
      ensures streams == EachTo(old(streams), kept, fails, |kept|)
      ensures forall i: nat :: i in fails <==> i < |kept| && FailsAt(old(dropped), faults, i)
      ensures var h := EachHealth(Up(old(dropped)), faults, |kept|);
              && (ok <==> h.Up?)
              && dropped == if ok && Lands(old(streams), kept, Faulty(faults, |kept|)) then 0 else h.dropped
    {
      ok, fails := true, Faulty(faults, |kept|);
      var any := false;
      var i := 0;
      ghost var m, d, broken := streams, dropped, fails;
      LandsBegin(m, kept, broken);
      UpBegins(d, faults);
      while i < |kept|
        invariant i <= |kept| && EachLands(m, kept, broken, i, streams, any) && StillUp(d, faults, i, dropped)
      {
        var fault := FaultAt(faults, i);
        ghost var was, before, had := dropped, streams, any;
        if fault != NoFault {
          if fault == Busy {
            ok := Dropped();
          } else {
            ok := false;
          }
          FaultAfter(d, faults, i, was, dropped, ok);
          if !ok {
            fails := broken + Between(i, |kept|);
            EachStops(m, kept, faults, d, i, streams, any, dropped, broken, fails);
            return;
          }
        } else {
          UpAfter(d, faults, i, dropped);
          var one := InsertLoop(streams, kept[i]);
          if one.Ok? {
            streams := one.value;
            any := true;
          }
        }
        LandsNext(m, kept, broken, i, before, had, i + 1, streams, any);
        i := i + 1;
      }
      EachEnds(m, kept, faults, d, streams, dropped, any, broken);
      if any {
        dropped := 0;
      }
    }

    /** `seal_batch`, once. */
    method SealOnce(source: int, batch: seq<Text>, maxRows: nat, a: Attempt) returns (fault: Fault)
      requires Valid()
      modifies this`streams
      ensures Valid()
      ensures Outcome(streams, fault) == AttemptSeal(old(streams), source, batch, maxRows, enc, a)
    {
      AttemptReaches(NEW, streams, floors, source, batch, maxRows, enc, a);
      if a.read != NoFault {
        return a.read;
      }
      var sealed := SealLoop(streams, source, batch, maxRows, enc);
      if sealed.Err? {
        return Broken;
      }
      if a.commit != NoFault {
        return a.commit;
      }
      var o := PruneLoop(streams, sealed.value, source, batch, maxRows, enc, a.prune);
      streams := o.streams;
      return o.fault;
    }

    /** `with_retries` around it. */
    method SealRetrying(source: int, batch: seq<Text>, maxRows: nat, attempts: Schedule) returns (fault: Fault)
      requires Valid()
      modifies this`streams
      ensures Valid()
      ensures Outcome(streams, fault) == Retried(old(streams), source, batch, maxRows, enc, attempts, 0)
    {
      var i := 0;
      fault := SealOnce(source, batch, maxRows, AttemptAt(attempts, i));
      while fault == Busy && i < RETRIES
        invariant Valid() && i <= RETRIES
        invariant Retried(old(streams), source, batch, maxRows, enc, attempts, 0) ==
                  if fault == Busy && i < RETRIES then Retried(streams, source, batch, maxRows, enc, attempts, i + 1)
                  else Outcome(streams, fault)
        decreases RETRIES - i
      {
        i := i + 1;
        fault := SealOnce(source, batch, maxRows, AttemptAt(attempts, i));
      }
    }

    function Deferred(source: int): Listed
      reads this
    {
      ListedFor(deferred, source)
    }

    /** The `Seal` arm: a seal that stays busy is deferred, one that commits settles its streams. */
    method Seal(source: int, batch: seq<Text>, maxRows: nat, attempts: Schedule) returns (ok: bool)
      requires Valid()
      modifies this`streams, this`deferred
      ensures Valid()
      ensures var o := Retried(old(streams), source, batch, maxRows, enc, attempts, 0);
              && streams == o.streams
              && (ok <==> o.fault != Broken)
              && Deferred(source) == (match o.fault
                                      case NoFault => RemoveAll(old(Deferred(source)), batch, |batch|)
                                      case Busy => PutAll(old(Deferred(source)), batch, maxRows, |batch|)
                                      case Broken => old(Deferred(source)))
      ensures forall s :: s != source ==> Deferred(s) == old(Deferred(s))
    {
      var fault := SealRetrying(source, batch, maxRows, attempts);
      ok := fault != Broken;
      if fault == NoFault {
        var listed := RemoveEach(Deferred(source), batch);
        ListedInOrder(deferred, source);
        RemoveAllOrder(Deferred(source), batch, |batch|);
        ReplaceOrdered(deferred, source, listed);
        deferred := deferred[source := listed];
      } else if fault == Busy {
        var listed := PutEach(Deferred(source), batch, maxRows);
        ListedInOrder(deferred, source);
        PutAllOrder(Deferred(source), batch, maxRows, |batch|);
        ReplaceOrdered(deferred, source, listed);
        deferred := deferred[source := listed];
      }
    }

    /**
     * Retry the source's deferred seals ahead of a retention pass. What is still pending stays
     * listed; a stream that sealed, or that failed for good, is off the list.
     */
    method RetryDeferredSeals(source: int, attempts: seq<Schedule>) returns (held: Listed)
      requires Valid()
      modifies this`streams, this`deferred
      ensures Valid()
      ensures Retry(streams, held) == RetryTo(old(streams), source, old(Deferred(source)), enc, attempts, |old(Deferred(source))|)
      ensures Deferred(source) == held
      ensures forall s :: s != source ==> Deferred(s) == old(Deferred(s))
    {
      held := RetryEach(source, Deferred(source), attempts);
      ListedInOrder(deferred, source);
      SuffixOrder(old(streams), source, Deferred(source), enc, attempts, held);
      ReplaceOrdered(deferred, source, held);
      deferred := deferred[source := held];
    }

    method RetryEach(source: int, listed: Listed, attempts: seq<Schedule>) returns (held: Listed)
      requires Valid()
      modifies this`streams
      ensures Valid()
      ensures Retry(streams, held) == RetryTo(old(streams), source, listed, enc, attempts, |listed|)
    {
      held := [];
      for i := 0 to |listed|
        invariant Valid()
        invariant Retry(streams, held) == RetryTo(old(streams), source, listed, enc, attempts, i)
      {
        ghost var r := Retry(streams, held);
        if held != [] {
          held := held + [listed[i]];
        } else {
          var fault := SealRetrying(source, [listed[i].0], listed[i].1, ScheduleAt(attempts, i));
          held := if fault == Busy then [listed[i]] else [];
        }
        assert Retry(streams, held) == RetryOne(r, source, listed[i].0, listed[i].1, enc, ScheduleAt(attempts, i));
      }
    }

    /**
     * The `Evict` arm. `fails` is the pass's own transaction failing, `names` the names its
     * queries list. A stream still pending after the retries loses nothing in the pass.
     */
    method Evict(
      source: int, cutoff: int, filter: Text -> bool, floor: Option<Floor>, attempts: seq<Schedule>, names: seq<Text>, fails: bool)
      returns (r: Result<Evicted>, ghost m: Streams)
      requires Valid() && NamesAll(names, streams, callers, source)
      modifies this`streams, this`deferred, this`callers
      ensures Valid()
      ensures Retry(m, Deferred(source)) == RetryTo(old(streams), source, old(Deferred(source)), enc, attempts, |old(Deferred(source))|)
      ensures r.Err? <==> fails
      ensures fails ==> streams == m && callers == old(callers)
      ensures !fails ==> AllCut(m, streams, source, cutoff, filter, Deferred(source))
      ensures !fails ==> AllCallersCut(old(callers), callers, streams, source, cutoff, filter, Deferred(source), floor)
      ensures !fails ==> AllCallersLeft(old(callers), callers, streams, source, cutoff, filter, Deferred(source), floor)
      ensures forall s :: s != source ==> Deferred(s) == old(Deferred(s))
      ensures r.Ok? ==> r.value.liveRows + LiveTotal(streams, source, names, |names|) == LiveTotal(m, source, names, |names|)
      ensures r.Ok? ==> r.value.heldStreams == CountHeld(Deferred(source), filter)
      ensures AllSpared(old(streams), streams, old(callers), callers, source, Deferred(source))
    {
      ListedInOrder(deferred, source);
      var held := RetryDeferredSeals(source, attempts);
      m := streams;
      HeldKept(old(streams), source, old(Deferred(source)), enc, attempts);
      if fails {
        HeldSpared(old(streams), m, m, callers, callers, source, held);
        return Err, m;
      }
      var evict := (s: Text) => filter(s) && !Lists(held, s);
      ReachableInv(W());
      ReachesStep(NEW, W(), EvictBefore(source, cutoff, evict));
      RetryKeys(old(streams), source, old(Deferred(source)), enc, attempts, |old(Deferred(source))|);
      var p := EvictLoop(streams, callers, source, cutoff, evict, floor, names);
      PassCuts(m, callers, source, cutoff, filter, held, evict, floor, p);
      CutLeaves(callers, p.callers, p.streams, source, cutoff, filter, held, floor);
      HeldSpared(old(streams), m, p.streams, callers, p.callers, source, held);
      streams, callers := p.streams, p.callers;
      r := Ok(Evicted(p.liveRows, CountHeld(held, filter)));
    }

    /** The `AdoptSegment` arm: whether it inserted, or `Err` where it refuses. */
    method AdoptSegment(source: int, stream: Text, seg: Segment) returns (r: Result<bool>)
      requires Valid()
      requires Adopt(At(streams, (source, stream)), seg).Adopted? ==> SegmentOk(seg)
      modifies this`streams
      ensures Valid()
      ensures streams == AdoptAt(old(streams), source, stream, seg)
      ensures r == match Adopt(At(old(streams), (source, stream)), seg)
                   case Refused => Err
                   case Held => Ok(false)
                   case Adopted(_) => Ok(true)
    {
      ReachesStep(NEW, W(), AdoptOne(source, stream, seg));
      var s := At(streams, (source, stream));
      if seg.rows == 0 || seg.first > seg.last {
        return Err;
      }
      if s.watermark.Some? {
        if seg.last <= s.watermark.value {
          return Ok(false);
        }
        if seg.first <= s.watermark.value {
          return Err;
        }
      }
      var live := LiveWal(s.t);
      if live != [] && live[0].ts <= seg.last {
        return Err;
      }
      streams := streams[(source, stream) := InsertParts(s, [seg])];
      return Ok(true);
    }

    /** The `AddSource` arm; `id` is the one the database gives the new row. */
    method AddSource(id: int)
      requires Valid() && id !in sources
      modifies this`sources
      ensures Valid()
      ensures sources == old(sources)[id := version]
    {
      sources := sources[id := version];
    }

    /**
     * The `ResumeSource` arm, with the archive's own span end (`source_time_span`): refused for a
     * source the archive does not have, for another encoder, and for a clock that is not past it.
     */
    method ResumeSource(source: int, anchor: int, last: Option<int>) returns (ok: bool)
      requires Valid() && SpanEnd(streams, source, last)
      modifies this`floors
      ensures Valid()
      ensures ok <==> source in sources && (last.None? || anchor > last.value)
                      && !(sources[source].Some? && version.Some? && sources[source].value != version.value)
      ensures floors == if ok && last.Some? then old(floors)[source := last.value] else old(floors)
    {
      ReachesStep(NEW, W(), Resume(source, last));
      if source !in sources || !SameEncoder(sources[source], version) {
        return false;
      }
      if last.Some? {
        if anchor <= last.value {
          return false;
        }
        floors := floors[source := last.value];
      }
      ok := true;
    }

    /** A crash or a clean exit, and the next writer's start: memory is seeded from the catalog. */
    method Restart(enc: Encoders, version: Option<Text>)
      requires Valid()
      modifies this
      ensures Valid()
      ensures W() == Step(old(W()), Crash) && deferred == map[] && dropped == 0
      ensures callers == old(callers) && sources == old(sources) && this.enc == enc && this.version == version
      ensures forall source: int :: Covered(streams, source)
    {
      ReachesStep(NEW, W(), Crash);
      ReachableInv(W());
      forall source: int ensures Covered(ReopenAll(streams), source) {
        ReopenCovers(streams, source);
      }
      streams := ReopenAll(streams);
      floors, deferred, dropped := map[], map[], 0;
      this.enc, this.version := enc, version;
    }
  }
}
