/**
 * The storage machine: every step a writer takes on an archive, with a seal's commit and its
 * prune apart so that a crash can fall between them, and what holds over every run.
 */
module Machine {
  import opened Types
  import opened Rows
  import opened Encoding
  import opened Catalog
  import opened Ticks

  /** The archive's streams with the writer's memory of them, and the resume floors. */
  datatype World = World(streams: Streams, floors: map<int, int>)

  /** The caller's encoder, by stream name. */
  type Encoders = Text -> Encoder

  datatype Event =
    | Tick(ticks: seq<Batch>, batchFails: bool, fails: set<nat>)
    | Seal(source: int, batch: seq<Text>, maxRows: nat, enc: Encoders)
    | PruneUpTo(key: Key, upto: int)
    | AdoptOne(source: int, stream: Text, seg: Segment)
    | EvictBefore(source: int, cutoff: int, filter: Text -> bool)
    | MergeOne(key: Key, at: nat, n: nat)
    | Crash
    | Resume(source: int, last: Option<int>)

  // ------------------------------------------------------------------ the steps

  function TickStep(w: World, ticks: seq<Batch>, batchFails: bool, fails: set<nat>): World {
    w.(streams := Commit(w.streams, Filtered(w.streams, w.floors, ticks), batchFails, fails))
  }

  /**
   * The first `n` streams of a seal's transaction, each encoded from the archive as it was
   * before. A stream named twice offers the same `seq`s twice, which the key refuses.
   */
  function SealTo(m: Streams, source: int, batch: seq<Text>, maxRows: nat, enc: Encoders, n: nat): Result<Streams>
    requires n <= |batch|
  {
    if n == 0 then Ok(m) else
    match SealTo(m, source, batch, maxRows, enc, n - 1)
    case Err => Err
    case Ok(m') => SealOne(m, m', source, batch[n - 1], maxRows, enc, batch[n - 1] in batch[..n - 1])
  }

  function SealOne(
    m: Streams, m': Streams, source: int, stream: Text, maxRows: nat, enc: Encoders, again: bool): Result<Streams>
  {
    var s := At(m, (source, stream));
    match SealStream(enc(stream), s, maxRows)
    case Err => Err
    case Ok(s') =>
      if SealedFrom(enc(stream), s, maxRows).None? then Ok(m')
      else if again then Err
      else Ok(m'[(source, stream) := s'])
  }

  function SealBatch(m: Streams, source: int, batch: seq<Text>, maxRows: nat, enc: Encoders): Result<Streams> {
    SealTo(m, source, batch, maxRows, enc, |batch|)
  }

  function PruneAt(m: Streams, k: Key, upto: int): Streams {
    if k in m then m[k := m[k].(t := Prune(m[k].t, upto))] else m
  }

  function AdoptAt(m: Streams, source: int, stream: Text, seg: Segment): Streams {
    match Adopt(At(m, (source, stream)), seg)
    case Adopted(s) => m[(source, stream) := s]
    case _ => m
  }

  function EvictStreams(m: Streams, source: int, cutoff: int, filter: Text -> bool): Streams {
    map k | k in m :: if k.0 == source && filter(k.1) then m[k].(t := Evict(m[k].t, cutoff)) else m[k]
  }

  function MergeAt(m: Streams, k: Key, at: nat, n: nat): Streams {
    if k in m && 0 < n && at + n <= |m[k].t.segs| == |m[k].t.nums|
    then m[k := m[k].(t := MergeRun(m[k].t, at, n))] else m
  }

  function ReopenAll(m: Streams): Streams {
    map k | k in m :: Reopen(m[k].t)
  }

  function Step(w: World, e: Event): World {
    match e
    case Tick(ticks, batchFails, fails) => TickStep(w, ticks, batchFails, fails)
    case Seal(source, batch, maxRows, enc) =>
      (match SealBatch(w.streams, source, batch, maxRows, enc)
       case Err => w
       case Ok(m) => w.(streams := m))
    case PruneUpTo(k, upto) => w.(streams := PruneAt(w.streams, k, upto))
    case AdoptOne(source, stream, seg) => w.(streams := AdoptAt(w.streams, source, stream, seg))
    case EvictBefore(source, cutoff, filter) => w.(streams := EvictStreams(w.streams, source, cutoff, filter))
    case MergeOne(k, at, n) => w.(streams := MergeAt(w.streams, k, at, n))
    case Crash => World(ReopenAll(w.streams), map[])
    case Resume(source, last) => if last.Some? then w.(floors := w.floors[source := last.value]) else w
  }

  /** `last` is the newest timestamp the source's catalog and live tails hold, if any. */
  ghost predicate SpanEnd(m: Streams, source: int, last: Option<int>) {
    && (last.Some? ==> exists k: Key :: k.0 == source && EndAt(m, k) == last)
    && (forall k: Key :: k.0 == source ==> EndsBy(m, k, last))
  }

  ghost predicate EndsBy(m: Streams, k: Key, last: Option<int>) {
    EndAt(m, k).Some? ==> last.Some? && EndAt(m, k).value <= last.value
  }

  function EndAt(m: Streams, k: Key): Option<int> {
    EndOf(At(m, k).t)
  }

  /** `MAX(last_ts)` over a stream's segments and live rows (`source_time_span`). */
  function EndOf(t: Tables): Option<int> {
    var live := LiveWal(t);
    if live != [] then
      Some(match MaxLast(t.segs)
           case None => live[|live| - 1].ts
           case Some(w) => Max(w, live[|live| - 1].ts))
    else MaxLast(t.segs)
  }

  /**
   * What the program around the writer keeps to: a prune stays at or below a committed
   * segment's end, a segment built elsewhere is sound where it is adopted, and a resume
   * takes its floor from the archive.
   */
  ghost predicate Legal(w: World, e: Event) {
    match e
    case PruneUpTo(k, upto) =>
      At(w.streams, k).t.segs != [] && upto <= LastOf(At(w.streams, k).t.segs)
    case AdoptOne(source, stream, seg) => Adopt(At(w.streams, (source, stream)), seg).Adopted? ==> SegmentOk(seg)
    case Resume(source, last) => SpanEnd(w.streams, source, last)
    case _ => true
  }

  // ------------------------------------------------------------------ what a step gains and loses

  /** Rows of stream `k` the step accepts or adopts. */
  function Gained(w: World, e: Event, k: Key): multiset<WalRow> {
    match e
    case Tick(ticks, batchFails, fails) =>
      CommitFor(k, w.streams, Filtered(w.streams, w.floors, ticks), batchFails, fails)
    case AdoptOne(source, stream, seg) =>
      if k == (source, stream) && Adopt(At(w.streams, k), seg).Adopted? then multiset(seg.data) else multiset{}
    case _ => multiset{}
  }

  /** Rows of stream `k` the step evicts, or that its encoder dropped from the front of a seal. */
  function Lost(w: World, e: Event, k: Key): multiset<WalRow> {
    match e
    case Seal(source, batch, maxRows, enc) =>
      if k.0 == source && k.1 in batch && SealBatch(w.streams, source, batch, maxRows, enc).Ok?
      then LostToSeal(enc(k.1), At(w.streams, k), maxRows) else multiset{}
    case EvictBefore(source, cutoff, filter) =>
      if k.0 == source && filter(k.1) then LostToEviction(At(w.streams, k).t, cutoff) else multiset{}
    case _ => multiset{}
  }

  /** The leading run of the live tail that a seal's first segment left out. */
  function LostToSeal(enc: Encoder, s: Stream, maxRows: nat): multiset<WalRow> {
    match SealedFrom(enc, s, maxRows)
    case None => multiset{}
    case Some(first) => multiset(Before(LiveWal(s.t), first))
  }

  /** The segments wholly before the cutoff, and the live rows before it. */
  function LostToEviction(t: Tables, c: int): multiset<WalRow> {
    multiset(DropData(t.segs, c)) + multiset(Before(LiveWal(t), c))
  }

  function DropData(segs: seq<Segment>, c: int): seq<WalRow> {
    if segs == [] then [] else (if segs[0].last < c then segs[0].data else []) + DropData(segs[1..], c)
  }

  // ------------------------------------------------------------------ one step

  /** Stream `k` stays sound, and a reader sees what it saw with `gained` more and `lost` less. */
  ghost predicate Moves(m: Streams, m': Streams, k: Key, gained: multiset<WalRow>, lost: multiset<WalRow>) {
    InvAt(m', k) && Balances(m, m', k, gained, lost)
  }

  ghost predicate Balances(m: Streams, m': Streams, k: Key, gained: multiset<WalRow>, lost: multiset<WalRow>) {
    forall r :: Sees(m', k, r) + lost[r] == Sees(m, k, r) + gained[r]
  }

  /** The same about one stream's value. */
  lemma MovesFrom(m: Streams, m': Streams, k: Key, gained: multiset<WalRow>, lost: multiset<WalRow>)
    requires Inv(At(m', k))
    requires multiset(View(At(m', k).t)) + lost == multiset(View(At(m, k).t)) + gained
    ensures Moves(m, m', k, gained, lost)
  {
    var a, b := multiset(View(At(m', k).t)) + lost, multiset(View(At(m, k).t)) + gained;
    forall r ensures Sees(m', k, r) + lost[r] == Sees(m, k, r) + gained[r] {
      assert a[r] == b[r];
    }
  }

  lemma MovesNot(m: Streams, m': Streams, k: Key)
    requires InvAt(m, k) && At(m', k) == At(m, k)
    ensures Moves(m, m', k, multiset{}, multiset{})
  {
    assert IsAt(m, k, At(m, k));
  }

  lemma EmptyInv()
    ensures Inv(EMPTY)
  {}

  lemma TickMoves(w: World, ticks: seq<Batch>, batchFails: bool, fails: set<nat>, k: Key)
    requires AllInv(w.streams)
    ensures Moves(w.streams, TickStep(w, ticks, batchFails, fails).streams, k,
                  Gained(w, Tick(ticks, batchFails, fails), k), multiset{})
  {
    var kept := Filtered(w.streams, w.floors, ticks);
    forall i: nat | i < |kept| ensures TickAcceptable(w.streams, w.floors, kept, i) {
      FilteredAcceptable(w.streams, w.floors, ticks, kept[i]);
    }
    CommitKeeps(w.streams, w.floors, kept, batchFails, fails, k);
  }

  /** What a seal's transaction leaves of one stream. */
  lemma {:induction false} SealAt(
    m: Streams, source: int, batch: seq<Text>, maxRows: nat, enc: Encoders, n: nat, m': Streams, k: Key)
    requires n <= |batch| && SealTo(m, source, batch, maxRows, enc, n) == Ok(m')
    ensures if k.0 == source && k.1 in batch[..n]
            then SealStream(enc(k.1), At(m, k), maxRows) == Ok(At(m', k))
            else At(m', k) == At(m, k)
  {
    if n > 0 {
      var p := SealTo(m, source, batch, maxRows, enc, n - 1).value;
      SealAt(m, source, batch, maxRows, enc, n - 1, p, k);
      assert batch[..n] == batch[..n - 1] + [batch[n - 1]];
      SealOneAt(m, p, source, batch[n - 1], maxRows, enc, batch[n - 1] in batch[..n - 1], m', k);
    }
  }

  lemma SealOneAt(
    m: Streams, p: Streams, source: int, stream: Text, maxRows: nat, enc: Encoders, again: bool, m': Streams, k: Key)
    requires SealOne(m, p, source, stream, maxRows, enc, again) == Ok(m')
    requires At(p, k) == At(m, k) || (again && SealStream(enc(k.1), At(m, k), maxRows) == Ok(At(p, k))) || k != (source, stream)
    ensures if k == (source, stream) then SealStream(enc(stream), At(m, k), maxRows) == Ok(At(m', k))
            else At(m', k) == At(p, k)
  {}

  lemma SealedMoves(m: Streams, m': Streams, k: Key, enc: Encoder, maxRows: nat)
    requires Inv(At(m, k)) && SealStream(enc, At(m, k), maxRows) == Ok(At(m', k))
    ensures Moves(m, m', k, multiset{}, LostToSeal(enc, At(m, k), maxRows))
  {
    var s, s' := At(m, k), At(m', k);
    SealKeeps(enc, s, maxRows, s');
    match SealedFrom(enc, s, maxRows)
    case None =>
    case Some(first) =>
      BeforeFrom(LiveWal(s.t), first);
    MovesFrom(m, m', k, multiset{}, LostToSeal(enc, s, maxRows));
  }

  lemma SealMovesAt(m: Streams, source: int, batch: seq<Text>, maxRows: nat, enc: Encoders, m': Streams, k: Key)
    requires AllInv(m) && SealBatch(m, source, batch, maxRows, enc) == Ok(m')
    ensures Moves(m, m', k, multiset{},
                  if k.0 == source && k.1 in batch then LostToSeal(enc(k.1), At(m, k), maxRows) else multiset{})
  {
    assert InvAt(m, k) && IsAt(m, k, At(m, k));
    SealAt(m, source, batch, maxRows, enc, |batch|, m', k);
    assert batch[..|batch|] == batch;
    if k.0 == source && k.1 in batch {
      SealedMoves(m, m', k, enc(k.1), maxRows);
    } else {
      MovesNot(m, m', k);
    }
  }

  lemma PruneMoves(m: Streams, k: Key, upto: int, j: Key)
    requires AllInv(m) && At(m, k).t.segs != [] && upto <= LastOf(At(m, k).t.segs)
    ensures Moves(m, PruneAt(m, k, upto), j, multiset{}, multiset{})
  {
    assert InvAt(m, j) && InvAt(m, k) && IsAt(m, k, At(m, k));
    if j == k {
      PruneKeeps(At(m, k), upto);
      MovesFrom(m, PruneAt(m, k, upto), k, multiset{}, multiset{});
    } else {
      MovesNot(m, PruneAt(m, k, upto), j);
    }
  }

  lemma AdoptMoves(m: Streams, source: int, stream: Text, seg: Segment, k: Key)
    requires AllInv(m) && (Adopt(At(m, (source, stream)), seg).Adopted? ==> SegmentOk(seg))
    ensures Moves(m, AdoptAt(m, source, stream, seg), k,
                  if k == (source, stream) && Adopt(At(m, k), seg).Adopted? then multiset(seg.data) else multiset{},
                  multiset{})
  {
    assert InvAt(m, k) && IsAt(m, k, At(m, k));
    if k == (source, stream) && Adopt(At(m, k), seg).Adopted? {
      AdoptedMoves(m, AdoptAt(m, source, stream, seg), k, seg);
    } else {
      MovesNot(m, AdoptAt(m, source, stream, seg), k);
    }
  }

  lemma AdoptedMoves(m: Streams, m': Streams, k: Key, seg: Segment)
    requires Inv(At(m, k)) && SegmentOk(seg) && Adopt(At(m, k), seg) == Adopted(At(m', k))
    ensures Moves(m, m', k, multiset(seg.data), multiset{})
  {
    AdoptKeeps(At(m, k), seg);
    MovesFrom(m, m', k, multiset(seg.data), multiset{});
  }

  lemma {:induction false} DropDataNone(segs: seq<Segment>, c: int)
    requires forall i :: 0 <= i < |segs| ==> segs[i].last >= c
    ensures DropData(segs, c) == []
  {
    if segs != [] {
      DropDataNone(segs[1..], c);
    }
  }

  lemma {:induction false} DropDataIs(segs: seq<Segment>, c: int, k: nat)
    requires k <= |segs| && forall i :: 0 <= i < |segs| ==> (i < k <==> segs[i].last < c)
    ensures DropData(segs, c) + Data(segs[k..]) == Data(segs)
  {
    if segs != [] {
      var rest := segs[1..];
      if k == 0 {
        DropDataNone(segs, c);
        assert segs[0..] == segs && [] + Data(segs) == Data(segs);
      } else {
        DropDataIs(rest, c, k - 1);
        assert rest[k - 1..] == segs[k..];
        Assoc(segs[0].data, DropData(rest, c), Data(segs[k..]));
      }
    }
  }

  /** Both halves of what a retention pass deletes, and nothing else. */
  lemma EvictBalance(t: Tables, c: int)
    requires Valid(t)
    ensures multiset(View(Evict(t, c))) + LostToEviction(t, c) == multiset(View(t))
  {
    var k := EvictExact(t, c);
    DropDataIs(t.segs, c, k);
    BeforeFrom(LiveWal(t), c);
  }

  lemma EvictMoves(m: Streams, source: int, c: int, filter: Text -> bool, k: Key)
    requires AllInv(m)
    ensures Moves(m, EvictStreams(m, source, c, filter), k, multiset{},
                  if k.0 == source && filter(k.1) then LostToEviction(At(m, k).t, c) else multiset{})
  {
    var m' := EvictStreams(m, source, c, filter);
    assert InvAt(m, k) && IsAt(m, k, At(m, k));
    if k.0 == source && filter(k.1) {
      EvictedAt(m, m', k, c);
      EvictBalance(At(m, k).t, c);
      EvictKeeps(At(m, k), c);
      MovesFrom(m, m', k, multiset{}, LostToEviction(At(m, k).t, c));
    } else {
      MovesNot(m, m', k);
    }
  }

  lemma EvictedAt(m: Streams, m': Streams, k: Key, c: int)
    requires k in m ==> k in m' && m'[k] == m[k].(t := Evict(m[k].t, c))
    requires k !in m ==> k !in m'
    ensures At(m', k) == At(m, k).(t := Evict(At(m, k).t, c))
  {}

  lemma MergeMoves(m: Streams, k: Key, at: nat, n: nat, j: Key)
    requires AllInv(m)
    ensures Moves(m, MergeAt(m, k, at, n), j, multiset{}, multiset{})
  {
    assert InvAt(m, j) && IsAt(m, j, At(m, j));
    var s := At(m, k);
    if j == k && k in m && 0 < n && at + n <= |s.t.segs| == |s.t.nums| {
      MergeKeeps(s.t, at, n);
      MergeInv(s, at, n);
      MovesFrom(m, MergeAt(m, k, at, n), k, multiset{}, multiset{});
    } else {
      MovesNot(m, MergeAt(m, k, at, n), j);
    }
  }

  lemma CrashMoves(m: Streams, k: Key)
    requires AllInv(m)
    ensures Moves(m, ReopenAll(m), k, multiset{}, multiset{})
  {
    assert InvAt(m, k) && IsAt(m, k, At(m, k));
    if k in m {
      ReopenKeeps(m[k].t);
      MovesFrom(m, ReopenAll(m), k, multiset{}, multiset{});
    } else {
      MovesNot(m, ReopenAll(m), k);
    }
  }

  /** Every step keeps every stream sound and changes what is seen by exactly its gains and losses. */
  lemma StepMoves(w: World, e: Event, k: Key)
    requires AllInv(w.streams) && Legal(w, e)
    ensures Moves(w.streams, Step(w, e).streams, k, Gained(w, e, k), Lost(w, e, k))
  {
    match e
    case Tick(ticks, batchFails, fails) => TickMoves(w, ticks, batchFails, fails, k);
    case Seal(source, batch, maxRows, enc) =>
      assert InvAt(w.streams, k);
      match SealBatch(w.streams, source, batch, maxRows, enc) {
        case Err => MovesNot(w.streams, w.streams, k);
        case Ok(m) => SealMovesAt(w.streams, source, batch, maxRows, enc, m, k);
      }
    case PruneUpTo(key, upto) => PruneMoves(w.streams, key, upto, k);
    case AdoptOne(source, stream, seg) => AdoptMoves(w.streams, source, stream, seg, k);
    case EvictBefore(source, cutoff, filter) => EvictMoves(w.streams, source, cutoff, filter, k);
    case MergeOne(key, at, n) => MergeMoves(w.streams, key, at, n, k);
    case Crash => CrashMoves(w.streams, k);
    case Resume(source, last) =>
      assert InvAt(w.streams, k);
      MovesNot(w.streams, w.streams, k);
  }

  // ------------------------------------------------------------------ whole runs

  const NEW := World(map[], map[])

  /** `ws[i]` is the world before event `i`, and every event is legal where it happens. */
  ghost predicate IsPath(ws: seq<World>, es: seq<Event>) {
    && |ws| == |es| + 1
    && (forall i: nat :: i < |es| ==> StepsAt(ws, es, i))
  }

  ghost predicate StepsAt(ws: seq<World>, es: seq<Event>, i: nat)
    requires |ws| == |es| + 1 && i < |es|
  {
    Legal(ws[i], es[i]) && ws[i + 1] == Step(ws[i], es[i])
  }

  /** A run that starts from an empty archive. */
  ghost predicate IsRun(ws: seq<World>, es: seq<Event>) {
    IsPath(ws, es) && ws[0] == NEW
  }

  /** Some legal events lead from one world to the other. */
  ghost predicate Reaches(w: World, w': World) {
    exists ws: seq<World>, es: seq<Event> :: IsPath(ws, es) && ws[0] == w && ws[|es|] == w'
  }

  lemma ReachesSelf(w: World)
    ensures Reaches(w, w)
  {
    assert IsPath([w], []) && [w][0] == w;
  }

  lemma ReachesStep(w: World, w': World, e: Event)
    requires Reaches(w, w') && Legal(w', e)
    ensures Reaches(w, Step(w', e))
  {
    var ws: seq<World>, es: seq<Event> :| IsPath(ws, es) && ws[0] == w && ws[|es|] == w';
    var ws', es' := ws + [Step(w', e)], es + [e];
    forall i: nat | i < |es'| ensures StepsAt(ws', es', i) {
      if i < |es| {
        assert StepsAt(ws, es, i) && ws'[i] == ws[i] && ws'[i + 1] == ws[i + 1];
      }
    }
    assert IsPath(ws', es') && ws'[0] == w && ws'[|es'|] == Step(w', e);
  }

  /** What a reader of stream `k` sees before each event, and what each event adds and removes. */
  ghost function Views(ws: seq<World>, k: Key): seq<multiset<WalRow>> {
    seq(|ws|, i requires 0 <= i < |ws| => multiset(View(At(ws[i].streams, k).t)))
  }

  ghost function Gains(ws: seq<World>, es: seq<Event>, k: Key): seq<multiset<WalRow>>
    requires |ws| == |es| + 1
  {
    seq(|es|, i requires 0 <= i < |es| => Gained(ws[i], es[i], k))
  }

  ghost function Losses(ws: seq<World>, es: seq<Event>, k: Key): seq<multiset<WalRow>>
    requires |ws| == |es| + 1
  {
    seq(|es|, i requires 0 <= i < |es| => Lost(ws[i], es[i], k))
  }

  /** The first `n` together. */
  ghost function Sum(s: seq<multiset<WalRow>>, n: nat): multiset<WalRow>
    requires n <= |s|
  {
    if n == 0 then multiset{} else Sum(s, n - 1) + s[n - 1]
  }

  ghost predicate Tallies(v: seq<multiset<WalRow>>, g: seq<multiset<WalRow>>, l: seq<multiset<WalRow>>, i: nat)
    requires i < |g| == |l| && |v| == |g| + 1
  {
    v[i + 1] + l[i] == v[i] + g[i]
  }

  lemma {:induction false} Account(v: seq<multiset<WalRow>>, g: seq<multiset<WalRow>>, l: seq<multiset<WalRow>>, n: nat)
    requires n <= |g| == |l| && |v| == |g| + 1
    requires forall i: nat :: i < |g| ==> Tallies(v, g, l, i)
    ensures v[n] + Sum(l, n) == v[0] + Sum(g, n)
  {
    if n > 0 {
      Account(v, g, l, n - 1);
      assert Tallies(v, g, l, n - 1);
      var a, b := v[n], v[n - 1];
      assert a + Sum(l, n) == (a + l[n - 1]) + Sum(l, n - 1);
      assert b + g[n - 1] + Sum(l, n - 1) == (b + Sum(l, n - 1)) + g[n - 1];
    }
  }

  lemma StepInv(ws: seq<World>, es: seq<Event>, i: nat)
    requires |ws| == |es| + 1 && i < |es| && StepsAt(ws, es, i) && AllInv(ws[i].streams)
    ensures AllInv(ws[i + 1].streams)
  {
    var q := ws[i + 1].streams;
    forall k: Key ensures InvAt(q, k) {
      StepMoves(ws[i], es[i], k);
    }
  }

  lemma {:induction false} RunInv(ws: seq<World>, es: seq<Event>, n: nat)
    requires IsRun(ws, es) && n <= |es|
    ensures AllInv(ws[n].streams)
  {
    if n == 0 {
      EmptyInv();
    } else {
      RunInv(ws, es, n - 1);
      StepInv(ws, es, n - 1);
    }
  }

  lemma StepTallies(ws: seq<World>, es: seq<Event>, i: nat, k: Key)
    requires |ws| == |es| + 1 && i < |es| && StepsAt(ws, es, i) && AllInv(ws[i].streams)
    ensures Tallies(Views(ws, k), Gains(ws, es, k), Losses(ws, es, k), i)
  {
    StepMoves(ws[i], es[i], k);
    BalanceIs(ws[i].streams, ws[i + 1].streams, k, Gained(ws[i], es[i], k), Lost(ws[i], es[i], k));
  }

  lemma BalanceIs(m: Streams, m': Streams, k: Key, g: multiset<WalRow>, l: multiset<WalRow>)
    requires Balances(m, m', k, g, l)
    ensures multiset(View(At(m', k).t)) + l == multiset(View(At(m, k).t)) + g
  {
    var v, v' := multiset(View(At(m, k).t)), multiset(View(At(m', k).t));
    forall r ensures (v' + l)[r] == (v + g)[r] {
      assert Sees(m', k, r) + l[r] == Sees(m, k, r) + g[r];
    }
    SameCounts(v' + l, v + g);
  }

  /**
   * In every reachable state: each stream's segments are sound, disjoint and in time order by
   * `seq`; no timestamp is seen twice, so no row is both sealed and live; the writer's memory
   * dominates the catalog; and the stored view is what was accepted and adopted, less what
   * was evicted and any leading run an encoder dropped at a seal.
   */
  lemma StorageSafety(ws: seq<World>, es: seq<Event>, n: nat, k: Key)
    requires IsRun(ws, es) && n <= |es|
    ensures var s := At(ws[n].streams, k);
            && Inv(s)
            && Sorted(View(s.t))
            && multiset(View(s.t)) + Sum(Losses(ws, es, k), n) == Sum(Gains(ws, es, k), n)
  {
    var m := ws[n].streams;
    RunInv(ws, es, n);
    assert InvAt(m, k) && IsAt(m, k, At(m, k));
    ViewSorted(At(m, k).t);
    RunAccount(ws, es, n, k);
  }

  lemma RunAccount(ws: seq<World>, es: seq<Event>, n: nat, k: Key)
    requires IsRun(ws, es) && n <= |es|
    ensures Views(ws, k)[n] + Sum(Losses(ws, es, k), n) == Sum(Gains(ws, es, k), n)
  {
    var v, g, l := Views(ws, k), Gains(ws, es, k), Losses(ws, es, k);
    forall i: nat | i < |es| ensures Tallies(v, g, l, i) {
      RunInv(ws, es, i);
      assert StepsAt(ws, es, i);
      StepTallies(ws, es, i, k);
    }
    Account(v, g, l, n);
    assert View(EMPTY.t) == [];
    assert v[0] == multiset{};
  }

  lemma SameCounts(a: multiset<WalRow>, b: multiset<WalRow>)
    requires forall r :: a[r] == b[r]
    ensures a == b
  {}

  // ------------------------------------------------------------------ a tick seals nothing

  ghost predicate SameSegs(m: Streams, m': Streams, k: Key) {
    At(m, k).t.segs == At(m', k).t.segs && At(m, k).watermark == At(m', k).watermark
  }

  lemma {:induction false} InsertSegs(m: Streams, source: int, rows: seq<WalRow>, n: nat, m': Streams, k: Key)
    requires n <= |rows| && InsertTo(m, source, rows, n) == Ok(m')
    ensures SameSegs(m, m', k)
  {
    if n > 0 {
      InsertSegs(m, source, rows, n - 1, InsertTo(m, source, rows, n - 1).value, k);
    }
  }

  lemma {:induction false} EachSegs(m: Streams, ticks: seq<Batch>, fails: set<nat>, n: nat, k: Key)
    requires n <= |ticks|
    ensures SameSegs(m, EachTo(m, ticks, fails, n), k)
  {
    if n > 0 {
      EachSegs(m, ticks, fails, n - 1, k);
      var p, b := EachTo(m, ticks, fails, n - 1), ticks[n - 1];
      if InsertRows(p, b).Ok? {
        InsertSegs(p, b.0, b.1, |b.1|, InsertRows(p, b).value, k);
      }
    }
  }

  lemma TickSegs(w: World, ticks: seq<Batch>, batchFails: bool, fails: set<nat>, k: Key)
    ensures SameSegs(w.streams, TickStep(w, ticks, batchFails, fails).streams, k)
  {
    var kept := Filtered(w.streams, w.floors, ticks);
    EachSegs(w.streams, kept, fails, |kept|, k);
    EachSegs(w.streams, kept, {}, |kept|, k);
    if BatchTo(w.streams, kept, |kept|).Ok? {
      BatchIsEach(w.streams, kept, |kept|);
    }
  }

  /** What every reachable archive satisfies, without naming the run. */
  lemma ReachableInv(w: World)
    requires Reaches(NEW, w)
    ensures AllInv(w.streams)
  {
    var ws: seq<World>, es: seq<Event> :| IsPath(ws, es) && ws[0] == NEW && ws[|es|] == w;
    RunInv(ws, es, |es|);
  }
}
