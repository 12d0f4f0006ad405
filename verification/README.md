# dendro, modelled in Dafny

dendro is a single-writer log-structured store. Rows land in a WAL table, a seal turns a
stream's live rows into an immutable segment, and a reader splices the segments with the live
WAL tail. This project models that machine, the writer thread that drives it, retention,
compaction, copies, document histories, the seal policy, and replication with its wire format,
and proves what the program promises of them over every input and every run.

`dafny verify dfyconfig.toml` checks the whole project.

## How the model is laid out

- `Types`, `Rows`: the values that move, and the queries SQL makes of rows in key order.
- `Encoding`, `Claims`, `Catalog`, `CatalogExact`: what an encoder is held to, which of its claims are
  accepted, and the capped seal; one stream's tables, the recovery rule (a WAL row is live iff it is
  past its own stream's newest segment), and what each operation does to the rows a reader sees, its
  *view*, and to the tables row by row.
- `Ticks`, `Filters`, `Machine`, `Floors`: a tick's commit for every source and exactly what its filters drop; the storage machine, its reachable
  states and what every run conserves; the resume floor against the watermarks in memory.
- `Commits`, `Deferral`, `Seals`, `SealRetries`, `Retention`, `Health`, `Writer`: the writer thread in place, with the
  database's failures as parameters. Its class invariant is that the archive is one the machine
  reaches, so the machine's theorems hold of it after every message.
- `Compaction`, `UnionFields`, `Copying`, `Documents`, `Stagger`, `SegmentAccount`: the rewrites,
  the merge of differing schemas, copies and ranged reads, document histories, and the seal policy.
- `Frames`, `Wire`, `WireLayout`, `Utf8`, `WireRoundTrip`, `WirePrefix`, `WireExact`, `WireStream`, `WireIo`:
  the frame format as a printer and a parser, its bytes field by field, what the parser accepts, and the
  buffer, cursor and reader that carry them out.
- `IndexFold`, `IndexCursor`, `WalCursor`, `Publisher`, `PollFrames`, `PublisherLoop`, `Delivery`, `Subscriber`,
  `SubscriberLoop`, `Losses`, `Replication`, `Entries`, `Histories`: both ends of the protocol, what a
  subscriber makes of lost frames, their composition, and the same on top of any history of the
  storage machine.

Many predicates come in pairs: `P(.., k)` is `forall n :: n == k ==> PTo(.., n)`, and `PTo` (or `PAt`)
is the definition. The two are equivalent; the pair lets a proof carry `P` as one fact, which the
verifier opens only where the proof mentions `PTo`.

Assumptions of the source that the model shares: an adopted segment and the segments of a
compacted or copied archive agree with their catalog facts, as the segment documentation says; a
prune never goes past a committed segment of its stream. A seal that names a stream twice is
modelled as the key conflict it causes. *Row-preserving* means an encoder that drops nothing.

Where the code and its own remarks differ, the model follows the code:

- `src/writer.rs:1768-1776` says a resumed source's floor is at or above every one of its
  streams' watermarks. It is for the catalog's (`ResumeFloor`). For those in memory it is after a
  reopen (`ReopenCovers`), it stays so at every step but retention (`StepStaysCovered`), and a pass
  over the whole source keeps it so exactly if it leaves the source some row or no stream of it was
  ever sealed (`FloorAfterWholePass`). For a pass with a filter, exactly if the source's newest row is
  not before the cutoff or the streams left alone reach every watermark (`FloorAfterRetention`,
  `FloorOverRun`). `FloorMayTrailMemory` is a run where it fails.
- `src/replicate/publisher.rs:412-415` resumes a name at the last timestamp sent. A catch-up sends a
  name's entries from its starting point on, once each, exactly if at the opening the name's newest
  entry is at or past that point or it has none; otherwise its next poll sends the name's whole
  history (`CatchUpExact`, `EntriesRun`; `QuietCatchUpStartsOver` is such a run).
- `src/replicate/publisher.rs:21-23` folds an entry into two streams because 64 bits collide often
  enough to matter. The second stream's multiplier is even (the prime rotated left 17), so after any
  entry its value says what the last three bytes folded were and nothing else (`SecondForgets`, if and
  only if). Two states before one and the same entry are told apart afterwards by the first stream
  alone (`MissedEntry`), which keeps everything (`EntryMatters`).
- `src/replicate/subscriber.rs:178-182` and `src/replicate/publisher.rs:16-17` say a subscriber that
  missed an entry cannot match the state of the rows after it. A subscriber takes the state each entry
  carries, so it matches exactly if the last entry to arrive carries the state declared
  (`RowsTakenExactly`): once the last entry before the rows has arrived, and a `Full`, an entry lost
  earlier goes unnoticed (`LastEntryIsEnough`; `LostEntryUnnoticed` is such a run).

## Model

| member | source | states |
|---|---|---|
| Encoding.MaterializeSlice | src/segment.rs:273-336 | the counting check is enough: an accepted segment holds one contiguous slice of its input, so only a leading and a trailing run can be missing from it; which claims are accepted is `ClaimDecided` |
| Claims.ClaimDecided | src/segment.rs:273-336 | a claim is accepted if and only if its span lies inside the input's and holds exactly the claimed, positive number of rows; the segment is that claim and holds exactly those rows |
| Claims.SliceAccepted | src/segment.rs:244-256 | an encoder that leaves out a leading and a trailing run is accepted with exactly the rows between |
| Encoding.SplitTiles | src/writer.rs:2607-2645 | the parts of a kept split tile the rows with no gap at an inner edge, each under the cap, whatever the encoder answers |
| Encoding.SplitSealCovers | src/writer.rs:2607-2645 | a capped seal is as safe as an uncapped one: one contiguous slice missing at most a leading run of the first part and a trailing run of the last; what lies past its last timestamp is exactly that trailing run; otherwise it is exactly the unsplit seal |
| Claims.EdgesKeepSplit | src/writer.rs:2607-2645 | a split whose first part drops only a leading run and whose last only a trailing one is kept, and its parts hold exactly the rest under the cap |
| Claims.FirstBadPart | src/writer.rs:2607-2645 | otherwise the first part that fails, yields nothing or leaves out a row at an inner edge decides: a failure fails the seal, anything else unsplits it |
| Encoding.RowPreservingSeal | src/writer.rs:2607-2645 | with an encoder that drops nothing a seal, capped or not, holds every row it was given |
| Encoding.SplitSealLoop | src/writer.rs:2607-2645 | the loop over parts computes the split the lemmas are about |
| Catalog.ViewSorted | src/archive/sqlite.rs:490-496 | sealed rows and the live tail are in strict time order with no timestamp twice, so no row is both sealed and live |
| CatalogExact.LiveExact | src/archive/sqlite.rs:490-496 | the recovery rule row by row: the live tail is exactly the WAL rows past every one of the stream's segments, in order |
| Catalog.SealKeeps | src/writer.rs:2419-2564 | a seal's commit leaves the WAL as it was, keeps the stream sound, and changes what a reader sees by at most the leading run its first segment left out |
| Claims.DroppingSeal | src/writer.rs:2419-2564 | a seal whose encoder drops a leading and a trailing run commits: exactly the leading run is lost to readers, exactly the trailing one stays live |
| CatalogExact.SealNumbers | src/writer.rs:2519-2532 | the segments of a seal follow the ones before under consecutive numbers no segment had, and memory moves past them |
| CatalogExact.SealThenPrune | src/writer.rs:2545-2563 | the prune of a sealed stream goes to the end of the segments just committed, and leaves in its WAL exactly its live rows, whatever earlier prunes were skipped |
| Catalog.PruneKeeps | src/archive/sqlite.rs:2688-2696 | a prune at or below the newest segment is invisible, whenever it runs or if a crash skips it |
| CatalogExact.PruneExact | src/archive/sqlite.rs:2688-2696 | a prune deletes exactly the WAL rows up to its bound, and no segment |
| Catalog.AppendKeeps | src/archive/sqlite.rs:3292-3314 | a row past the watermark becomes visible in its place among the live rows and nothing else changes |
| CatalogExact.AppendDecided | src/archive/sqlite.rs:3292-3314 | an append is refused exactly when the stream's WAL, live or not, has a row at that time, and otherwise goes between the earlier and the later rows |
| Catalog.AdoptKeeps | src/writer.rs:2336-2417 | an adoption is a pure insert below the live tail: it hides and deletes nothing |
| CatalogExact.AdoptDecided | src/writer.rs:2336-2417 | a segment is inserted exactly when it is sound, past everything ever sealed and before every live row; reported held exactly when wholly at or before what was sealed; refused otherwise; with the whole new state |
| Catalog.EvictExact | src/archive/sqlite.rs:2798-2948 | retention removes exactly the segments ending before the cutoff and the live rows before it, resurrects nothing though the watermark falls, leaves a seq suffix, and the live rows counted beforehand are the drop in live rows |
| Catalog.EvictKeeps | src/archive/sqlite.rs:2870-2948 | the writer's numbering and watermarks still dominate the catalog after retention |
| Catalog.ReopenKeeps | src/archive/sqlite.rs:2209-2260 | memory seeded from the catalog after a crash at any point dominates it, and no visible row is lost |
| CatalogExact.ReopenExact | src/archive/sqlite.rs:2209-2260 | the next number is one past the largest and the watermark is the newest end, each exactly |
| Catalog.MergeKeeps | src/rewrite.rs:329-350 | one merge's transaction changes no row, no total, no watermark and no live row, and seq order stays time order |
| CatalogExact.MergeExact | src/rewrite.rs:329-350 | a merge of segments whose facts describe their rows exactly describes its own exactly; it takes the first one's number and every other segment keeps its own |
| Ticks.FilteredAcceptable | src/writer.rs:1422-1507 | no row that reaches a tick's commit is at or below its stream's watermark or its source's resume floor |
| Filters.FloorExact | src/writer.rs:1430-1457 | a batch is dropped if and only if its source has a floor and some row of it is at or below that; the others are kept whole, in order |
| Filters.FilterExact | src/writer.rs:1422-1507 | of each source exactly the rows past their watermark, from batches wholly past the floor, reach the commit, in order and as often as they came |
| Filters.TickLands | src/writer.rs:1422-1546 | with no failure and no collision, every such row is seen by every reader afterwards |
| Ticks.TickRefinesEach | src/writer.rs:1509-1546 | absent retryable failures the one-transaction tick leaves exactly what committing the sources one by one leaves |
| Ticks.SourceIndependent | src/writer.rs:1509-1546 | a source's rows land entirely or not at all, decided by the archive as it was before the tick, whatever other sources collide |
| Filters.CollidesExactly | src/archive/sqlite.rs:2669-2676 | a source's part of a tick collides exactly when a row has the time of one its stream's WAL holds, or of an earlier one of its stream in the tick |
| Ticks.CommitKeeps | src/writer.rs:1509-1546 | a tick's commit keeps every stream sound and shows exactly the rows it lands |
| Commits.InsertLoop | src/archive/sqlite.rs:3292-3314 | one source's insert loop is all or nothing on the first key collision |
| Commits.InsertBatchLoop | src/archive/sqlite.rs:2669-2676 | the same for every source of a tick in one transaction |
| Commits.FilterLoop | src/writer.rs:1430-1507 | the floor and out-of-order filters compute the batches the commit is proved about, exactly those of `FilterExact` |
| Machine.StepMoves | src/writer.rs:1885-1990 | every step of the storage machine keeps every stream sound and changes what a reader sees by exactly what the step gains and loses |
| Machine.RunInv | src/writer.rs:1735-1834 | in every reachable state segments are sound, disjoint and ordered by seq, and memory dominates the catalog, with seal commit and prune apart and a crash anywhere |
| Machine.StorageSafety | src/writer.rs:2336-2564 | over every run the stored view is what was accepted and adopted, less what was evicted and any leading run an encoder dropped at a seal |
| Machine.EvictBalance | src/archive/sqlite.rs:2870-2948 | what retention deletes and what stays visible together are what was visible |
| Machine.SealAt | src/writer.rs:2435-2527 | a seal's transaction seals each named stream from the archive as it was and touches no other |
| Floors.ResumeFloor | src/writer.rs:1607-1637 | the floor a resume takes is at or above the catalog's watermarks and every stored row of the source |
| Floors.SpanEndExists | src/archive/sqlite.rs:1923-1939 | a source always has a span end to resume from |
| Floors.EndExact | src/archive/sqlite.rs:1923-1939 | a stream's end is the newest of its segments' ends and its live rows, exactly |
| Floors.FloorCoversMemory | src/writer.rs:1760-1777 | while the writer's watermarks equal the catalog's, the floor covers them |
| Floors.FloorIsCovered | src/writer.rs:1768-1776 | the floor is at or above every watermark in memory if and only if, for each of them, some stream of the source holds something at or past it |
| Floors.ReopenCovers | src/writer.rs:1760-1777 | a new writer's memory is covered by any floor it will take, whatever the last writer's was |
| Floors.StepStaysCovered | src/writer.rs:1768-1776 | every step but a retention pass over the source keeps the floor at or above the watermarks in memory |
| Floors.FloorAfterRetention | src/writer.rs:1768-1776 | after a pass with any filter the floor still covers every watermark if and only if the source's newest row was not before the cutoff, or the streams the pass left alone reach every watermark |
| Floors.FloorAfterWholePass | src/writer.rs:1768-1776 | after a pass over the whole source, if and only if the pass leaves the source some row or no stream of it was ever sealed |
| Floors.FloorOverRun | src/writer.rs:1768-1776 | over any run, the floor has covered memory all along if and only if every pass over the source met that condition |
| Floors.StepStaysExact | src/writer.rs:2519-2532 | every step but retention keeps the writer's watermarks equal to the catalog's, and a reopen makes them so |
| Floors.EvictStaysExact | src/writer.rs:1954-2014 | retention keeps them equal if and only if it leaves the stream's newest segment (or there was none) |
| Floors.FloorMayTrailMemory | src/writer.rs:1768-1776 | a run from an empty archive (adopt, evict, resume) whose resume takes no floor while the writer still refuses rows at or below 10 |
| Retention.OldestBounds | src/archive/sqlite.rs:400-412 | no row a reader can see is older than the oldest row reported to the caller's floor |
| Retention.OldestExact | src/archive/sqlite.rs:400-412 | the oldest row reported is one the stream has, a segment's start or a WAL row, and none of them is older |
| Retention.KeepRowsExact | src/archive/sqlite.rs:2914-2931 | a cut keeps exactly the caller rows at or past it, in order and as often as they were |
| Retention.EvictCallersExact | src/archive/sqlite.rs:397-434 | a name the pass takes keeps exactly its caller rows at or past the cutoff, or past what the caller's floor answers for the oldest row left where that is older; every other name keeps all |
| Retention.CutKeepsReplay | src/archive/sqlite.rs:416-434 | a cut at or below a full statement, or no cut at all, leaves the replay of every later row as it was |
| Retention.RetentionKeepsReplay | src/archive/sqlite.rs:397-434 | with the floor at a full statement at or before the oldest surviving row, every surviving row replays to the same caller state after a pass |
| WriterHealth.StopsExactly | src/writer.rs:1397-1410 | a writer has stopped if and only if some failure was fatal or some thirty drops in a row had no commit between them |
| WriterHealth.RunStops | src/writer.rs:1422-1546 | the same over any run of ticks, each with its own failures and commits |
| Seals.RetriedReaches | src/writer.rs:1334-1350 | a seal with any failures and retries is legal steps of the storage machine |
| SealRetries.RetriesEnd | src/writer.rs:1334-1350 | a retried seal ends as its first attempt that is not busy, and after the fourth in any case: it is still busy exactly when four in a row were |
| SealRetries.BatchDecided | src/writer.rs:2435-2527 | a seal's transaction goes through exactly when every stream can be encoded and none with anything to seal is named twice |
| SealRetries.SmoothSeal | src/writer.rs:2419-2564 | a seal with no fault leaves each stream it sealed a WAL of exactly its live rows, and everything else as the commit left it |
| Seals.RetriedUntouched | src/writer.rs:1334-1350 | a stream's seal that ends in a retryable failure deleted none of its rows or segments, and touched no other stream |
| Seals.HeldIsSuffix | src/writer.rs:2271-2314 | the streams held are exactly the listed ones from the first retryable failure on |
| Seals.TriedEnded | src/writer.rs:2271-2314 | every stream before that one ended sealed or abandoned |
| Seals.SealedMeans | src/writer.rs:2419-2564 | a seal that ends without a fault leaves a row-preserving encoder's stream with no live tail and the same view |
| Seals.HeldUntouched | src/writer.rs:2271-2314 | a stream still pending lost nothing to the retries, and one after the first failure was not tried at all |
| Deferral.PutAllCap | src/writer.rs:1929-1932 | a deferred batch lists each of its streams at the smallest cap asked, and changes no other entry |
| Deferral.RemoveAllCap | src/writer.rs:1915-1921 | a seal that commits takes its streams off the list and no other |
| Deferral.PutEach | src/writer.rs:1929-1932 | the loop that lists a deferred batch |
| Deferral.RemoveEach | src/writer.rs:1915-1921 | the loop that settles a committed batch |
| WriterThread.SealLoop | src/writer.rs:2419-2564 | encoding and placing each stream of a batch is the machine's seal, refused whole on an encoder failure or a seq offered twice |
| WriterThread.PruneLoop | src/writer.rs:2545-2563 | the prunes after the commit, up to the first that fails |
| WriterThread.EvictLoop | src/archive/sqlite.rs:2798-2868 | the per-stream pass deletes exactly what the machine's eviction deletes, cuts caller rows exactly as `EvictCallersExact` says, and its count of live rows is the drop in live rows |
| WriterThread.Writer.Sound | src/writer.rs:1735-1834 | at any time the writer's archive is one the storage machine reaches, so every stream is sound |
| WriterThread.Writer.CommitTick | src/writer.rs:1422-1546 | the Wal arm is the machine's tick, with the filters of `FilterExact`; exactly which sources fail; the drop count is reset by a commit, raised by a drop and kept otherwise, and the writer stops exactly where that health says |
| WriterThread.Writer.CommitEach | src/writer.rs:1514-1542 | the per-source fallback lands each source alone; a source fails exactly for its own failure or the writer's stop before it; the drop count ends at 0 exactly where it ran through and any source landed, and otherwise at the drops so far |
| WriterThread.Writer.SealRetrying | src/writer.rs:1334-1350 | the retry loop around a seal |
| WriterThread.Writer.Seal | src/writer.rs:1892-1937 | the Seal arm: a busy seal is deferred at the smallest cap, a committed one settles its streams, a fatal one stops the writer |
| WriterThread.Writer.RetryDeferredSeals | src/writer.rs:2271-2314 | the retries before retention leave listed exactly the streams still pending |
| WriterThread.Writer.Evict | src/writer.rs:1954-2039 | the Evict arm: streams the filter takes are cut; each caller name taken keeps exactly its rows at or past the cutoff, or past the floor's answer where that is older; streams still pending lose no segment, WAL row or caller row; everything else is unchanged, other sources' deferred seals too; the live rows reported are the drop and the held streams the pending ones the filter takes |
| WriterThread.HeldExact | src/writer.rs:1990-2014 | the held streams reported number exactly the pending ones the pass's own filter takes |
| WriterThread.PassKeepsReplay | src/archive/sqlite.rs:397-434 | what the Evict arm leaves: with the floor at a full statement, every row a reader still sees replays to the caller state it had before the pass |
| WriterThread.Writer.AdoptSegment | src/writer.rs:2336-2417 | the AdoptSegment arm: inserted, already held, or refused, exactly as the machine's adoption |
| WriterThread.Writer.ResumeSource | src/writer.rs:1607-1637 | a resume is refused exactly for an unknown source, another encoder version, or a clock at or before the newest stored row, and otherwise takes that row as its floor |
| WriterThread.Writer.Restart | src/writer.rs:1760-1777 | a new writer is seeded from the catalog with no floors and nothing deferred, and any floor it takes will cover its memory |
| Compaction.MergedFits | src/rewrite.rs:299-309 | a merged segment holds at most max(target, 1) catalog rows |
| Compaction.CompactMeaning | src/rewrite.rs:285-352 | a pass under any policy keeps the rows, the total, time order and the watermark |
| Compaction.OpensBound | src/rewrite.rs:299-350 | one pass opens at most twice as many segments as the stream holds, under any policy |
| Compaction.PassStops | src/rewrite.rs:183-208 | under StopAtChange with identical metadata every run ends at a segment too big for it or saying something else |
| Compaction.SecondPassIdle | src/rewrite.rs:183-208 | a second pass at the same target merges nothing and leaves the stream as it was |
| Compaction.Archive.Plan | src/rewrite.rs:299-305 | the planner's inner loop |
| Compaction.Archive.Judge | src/rewrite.rs:462-533 | segments are opened one at a time until one is refused |
| Compaction.Archive.CompactStream | src/rewrite.rs:285-352 | the pass in place: every committed point keeps rows, total, watermark and live tail even when a segment cannot be read; before, after and merges are the real counts, one committed point for each merge |
| UnionFields.AdmitsIffAgrees | src/rewrite.rs:481-496 | the admission test made against the union alone holds if and only if the segment agrees with every segment of the run on every field they share |
| UnionFields.RunAgrees | src/rewrite.rs:481-496 | any two segments of an admitted run agree on every shared field |
| UnionFields.CellKept | src/rewrite.rs:560-578 | every written row keeps its value in every column it had and reads null in every column it lacked |
| UnionFields.FieldKept | src/rewrite.rs:535-552 | every column of the run is in the merged segment, the same but for nullability |
| UnionFields.NoNullForced | src/rewrite.rs:535-592 | no column left non-nullable ever receives a null |
| UnionFields.NullableExact | src/rewrite.rs:535-552 | a merged column is nullable exactly where the run's own was or some segment lacks it, and otherwise the run's own |
| UnionFields.FirstAppearance | src/rewrite.rs:516-528 | columns stand in the order they first appear: each segment adds behind the ones so far exactly its columns of new names, in its own order |
| UnionFields.ReplacementHasAll | src/rewrite.rs:535-552 | what replaces an admitted run has exactly the columns some segment of it has |
| UnionFields.WidenSame | src/rewrite.rs:561-563 | under its own schema a row is written as it is, so the test that skips the widening is exact |
| UnionFields.MergedColumns | src/rewrite.rs:516-528 | the merged schema names each column once |
| UnionFields.Extend | src/rewrite.rs:516-528 | the loop that extends order, seen and carried_by with one segment's fields |
| UnionFields.Concat | src/rewrite.rs:453-592 | the merge: the run is the longest admitted prefix, and the merged rows are the run's rows widened, in order |
| Documents.CopyIsUnion | src/archive/sqlite/documents.rs:454-573 | a copy holds the union of both archives by uuid |
| Documents.EdgesKept | src/archive/sqlite/documents.rs:524-560 | each inserted revision is a source revision with its edge up to renumbering, or none where the source holds no earlier row for it |
| Documents.CopyAgain | src/archive/sqlite/documents.rs:504-523 | a copy repeated adds nothing and touches no document |
| Documents.CopyRefuses | src/archive/sqlite/documents.rs:504-523 | a copy is refused if and only if both files hold one uuid with different contents |
| Documents.RefusedExactly | src/archive/sqlite/documents.rs:504-523 | that is, exactly when one uuid is in both files for revisions that differ in kind, name, schema or body; a creation time or an edge is no reason |
| Documents.CopyLinked | src/archive/sqlite/documents.rs:524-560 | supersedes stays a smaller id of the same document under a copy |
| Documents.CopyTouched | src/archive/sqlite/documents.rs:536-567 | per document: its newest revision before the copy is captured once, and its newest after is the last one inserted |
| Documents.BelowNext | src/archive/sqlite/documents.rs:556-569 | below the first id a copy assigns is exactly what the destination held before |
| Documents.Ancestry | src/archive/sqlite/documents.rs:591-615 | on any table, cyclic ones too, the walk ends and answers exactly whether the target is an ancestor and whether the chain passes below the first new id |
| Documents.AncestorsOf | src/archive/sqlite/documents.rs:591-615 | a revision's ancestors are itself and the ancestors of the one its row supersedes, and an id no row has leads nowhere |
| Documents.SharesExactly | src/archive/sqlite/documents.rs:586-615 | under sound edges the incoming chain passes below the first new id if and only if it holds a revision the destination had before the copy |
| Documents.FindForks | src/archive/sqlite/documents.rs:574-583 | a fork is reported for exactly the documents that forked |
| Documents.CopyLoop | src/archive/sqlite/documents.rs:478-570 | the row by row loop of a copy |
| Documents.Store.Put | src/archive/sqlite/documents.rs:347-392 | a put succeeds exactly when key, schema, body and expectation allow, supersedes the document's newest revision, and keeps every edge sound |
| Documents.Store.Delete | src/archive/sqlite/documents.rs:394-419 | a delete appends a revision without a body where there is a document, and nothing where there is none |
| Documents.Store.CopyFrom | src/archive/sqlite/documents.rs:454-588 | the copy: union, refusal, soundness of edges, and a fork reported iff the prior head is no ancestor of the new one and was not a deletion or the incoming chain shares a revision held before |
| Stagger.SameBucket | src/seal.rs:408-422 | keys that differ in bit 5 at an even number of places share every stream's bucket, for keys of any length |
| Stagger.BucketsApart | src/seal.rs:325-388 | at an odd number of places the buckets differ by exactly 32 for every stream |
| Stagger.KeysOneByte | src/seal.rs:325-388 | exactly which one-byte differences of a key leave its bucket alone, for every stream and every rest of the key; a difference in the two high bits alone never does, nor one in the low six alone |
| Stagger.StreamsOneByte | src/seal.rs:325-388 | the same for the stream's name |
| Stagger.KnownBucket | src/seal.rs:624-624 | the bucket the source's own test records for one stream |
| Stagger.AbsorbAlike | src/seal.rs:365-381 | the state's low six bits differ by a flip of bit 5 after an odd number of them and by nothing after an even one |
| Stagger.StaggerBucket | src/seal.rs:325-388 | the hashing loops, over 64-bit words; which bytes of which keys move the bucket is `KeysOneByte` |
| Stagger.StaggersIdentically | src/seal.rs:408-422 | the byte loop decides exactly: same length, differing in bit 5 alone, an even number of times |
| SealAccount.FirstCapBetween | src/seal.rs:178-202 | a first segment's cap is between half the policy's and the policy's, and positive |
| SealAccount.FirstCapsApart | src/seal.rs:182-186 | bucket 0 keeps the cap, and the caps of two buckets are as many 128ths of it apart as the buckets are, so they coincide only for a cap below 128 |
| SealAccount.SegmentAccount.OpenFirst | src/seal.rs:178-202 | all three staggered caps are in those bounds |
| SealAccount.SegmentAccount.StartsNewBucket | src/seal.rs:237-242 | true exactly when the row's aligned bucket is not the open segment's |
| SealAccount.SegmentAccount.IsDue | src/seal.rs:251-261 | true exactly when a cap is reached, the age is, or the segment already holds two buckets |
| SealAccount.SegmentAccount.AddRow | src/seal.rs:211-218 | the account's fields stay true of the rows it has taken |
| SealAccount.SegmentAccount.Rotate | src/seal.rs:265-275 | a seal opens an empty segment with the full policy |
| SealAccount.SealBefore | src/seal.rs:237-242 | a caller that asks before each row makes only segments inside one aligned bucket and loses no row |
| SealAccount.SealAfter | src/seal.rs:251-261 | a caller that asks after each row makes segments whose rows share a bucket except possibly the last, and none over the row cap |
| SealAccount.OneBucketWindow | src/seal.rs:220-229 | one bucket is one window of the alignment's width, negatives included |
| SealAccount.BucketsAreWindows | src/seal.rs:220-229 | two timestamps have one bucket exactly when one aligned window holds both, and without a positive alignment none has a bucket |
| Copying.ReaderSplice | src/read.rs:401-420 | a reader's list is in time order with no row twice, holding every sealed row and a slice of the live ones; with a row-preserving encoder, the stored view |
| Copying.RangedRead | src/read.rs:245-270 | a ranged read holds every stored row in the range exactly once, in order |
| Copying.CopySound | src/rewrite.rs:866-955 | a copy is sound, densely renumbered from 0 and has no live tail, whatever the encoder does |
| Copying.RangedCopy | src/rewrite.rs:866-955 | a ranged copy holds every stored row in the range exactly once, in order |
| Copying.EverythingCopy | src/rewrite.rs:729-738 | an everything-copy with a row-preserving encoder has its source's stored view |
| Copying.OverlappingKeeps | src/archive/sqlite.rs:1513-1533 | the segments a range selects hold every sealed row in it |
| Copying.OverlappingExact | src/archive/sqlite.rs:1513-1533 | a range selects exactly the segments whose span meets it, whole and in order |
| Copying.ReadMeets | src/read.rs:245-270 | every segment of a ranged read meets the range, whatever the encoder does |
| Copying.CopyMeets | src/rewrite.rs:866-955 | a ranged copy takes exactly the segments that meet the range and, after them, the whole live tail exactly where its span does |
| Copying.CopyStreamLoop | src/rewrite.rs:866-940 | the loop that renumbers segments and adds the tail |
| Copying.CopySource | src/rewrite.rs:804-956 | every stream and caller name the filter keeps is copied, caller rows within the range, and nothing else; refused exactly for another encoder's source or a stream that cannot be encoded |
| Copying.RowsInExact | src/archive/sqlite.rs:2334-2362 | a ranged copy of a caller name holds each of its rows in the range as often as the name did, and no other |
| Copying.RowsInAll | src/archive/sqlite.rs:2334-2362 | with no bound it is the name's rows as they are |
| WireRoundTrip.RoundTrip | src/replicate/wire.rs:407-487 | for every frame within the limit, decoding its encoding returns the frame |
| WireRoundTrip.FieldBack | src/replicate/wire.rs:295-375 | each kind of field reads back and ends where its bytes end |
| WireRoundTrip.PutAtEnd | src/replicate/wire.rs:343-355 | a map written in key order reads back entry for entry |
| WireLayout.FrameLaid | src/replicate/wire.rs:148-272 | a frame's bytes: four of length, least significant first, the kind byte, and each kind's fields in the order and encoding of the format's tables |
| WireLayout.PutSets | src/replicate/wire.rs:343-355 | reading an entry into a map sets its key and no other and keeps the order, so a key's last value counts in whatever order a map arrives |
| Utf8Text.Utf8Exactly | src/replicate/wire.rs:338-341 | bytes are accepted as text exactly when they encode some sequence of Unicode scalar values |
| WirePrefix.PrefixRefused | src/replicate/wire.rs:295-310 | every strict prefix of a payload is refused |
| WirePrefix.TrailingRefused | src/replicate/wire.rs:380-388 | any trailing byte is refused |
| WirePrefix.BodyInjective | src/replicate/wire.rs:148-272 | two frames with one encoding are one frame |
| WireExact.AcceptsOnly | src/replicate/wire.rs:407-487 | every payload the decoder accepts is the frame's kind byte and fields as they are written, but that a map may list its entries in any order; flags and presence bytes are 0 or 1, texts UTF-8, and every value one its type can hold |
| WireExact.DecodesIffEncodes | src/replicate/wire.rs:380-487 | for the kinds without a map a payload decodes to a frame if and only if it is its encoding |
| WireStream.StreamBack | src/replicate/wire.rs:517-602 | a preamble and any list of frames, later kinds among them, reads back the known frames in order with the right skip count |
| WireStream.CutPayloadRefused | src/replicate/wire.rs:574-602 | a stream cut inside a payload is refused |
| WireStream.CutLengthEnds | src/replicate/wire.rs:576-578 | a stream cut inside the four length bytes ends cleanly without the frame they announce |
| WireIo.Buffer.PutEach | src/replicate/wire.rs:148-250 | fields are appended in turn up to the first too long for its prefix, and nothing before them changes |
| WireIo.Buffer.EncodeFrame | src/replicate/wire.rs:148-272 | succeeds exactly within the limit, appends length and payload by patching the reserved prefix; a payload over the limit is taken back and leaves the buffer as it was; what was there before is never touched |
| WireIo.AllFit | src/replicate/wire.rs:97-110 | a payload within the limit has no field too long for its length prefix |
| WireIo.Cursor.Each | src/replicate/wire.rs:290-375 | the cursor reads a layout's fields exactly as the parser does, or fails |
| WireIo.DecodeKnown | src/replicate/wire.rs:407-487 | the in-place decoder is the parser the round trip is about |
| WireIo.FrameReader.New | src/replicate/wire.rs:517-542 | a stream opens exactly when its preamble is this build's |
| WireIo.FrameReader.ReadPayload | src/replicate/wire.rs:574-602 | a clean end, a refusal, or the payload; an oversized length leaves the buffer as it was, and the buffer never grows past the limit |
| WireIo.FrameReader.Next | src/replicate/wire.rs:561-571 | the reader's loop returns the next known frame and counts what it skips |
| IndexFold.FoldIndexState | src/replicate/publisher.rs:24-52 | the two-accumulator loop; a declared state is never the one that means no index |
| IndexFold.EntryMatters | src/replicate/publisher.rs:24-52 | one byte of an entry changed, its time's included, changes the first accumulator, and one entry from two states leaves two values exactly when they differed |
| IndexFold.OtherEntry | src/replicate/publisher.rs:24-52 | so entries that differ in one byte leave different declared states, unless the reserved one had to be avoided |
| IndexFold.SecondForgets | src/replicate/publisher.rs:21-42 | the second accumulator after at least four bytes says exactly what the last three were, and nothing of the state before |
| IndexFold.MissedEntry | src/replicate/publisher.rs:16-23 | after one and the same entry two states agree exactly when their first accumulators agreed before it |
| IndexFold.KnownFold | src/replicate/publisher.rs:24-52 | from no state, the one-byte text "a" leaves the published FNV-1a value in the first accumulator |
| IndexCursor.PollSendsRest | src/replicate/publisher.rs:403-466 | from the cursor the first k rows leave, a poll sends exactly the rest, each once and in order, and leaves the cursor the whole leaves |
| IndexCursor.OpeningSends | src/replicate/publisher.rs:403-466 | an opening sends a name's rows from its starting point on, once each and in order, and leaves the cursor after all of the name's rows exactly when the newest of them is at or past that point or there is none |
| IndexCursor.RunBack | src/replicate/publisher.rs:412-418 | the count in the cursor is how many rows share its timestamp |
| IndexCursor.EmitLoop | src/replicate/publisher.rs:403-466 | the loop of emit_index |
| WalCursor.PollExact | src/replicate/publisher.rs:485-546 | a poll errs exactly when a row past the cursor was sealed unread; otherwise it ships exactly the rows past what was accounted for, segments only where nothing had been |
| WalCursor.OpenExact | src/replicate/publisher.rs:348-380 | the opening ships the sealed rows from its start on and accounts for what its cursor covers |
| Publication.SortKeepsStreams | src/replicate/publisher.rs:548-550 | the frame's order across streams leaves every stream's rows in their own order; the order across streams is `RowsInOrder` |
| PollFrames.RowsInOrder | src/replicate/publisher.rs:548-550 | the rows frame of every successful poll holds exactly the rows gathered, by time and, at one time, by stream name |
| PollFrames.PollShape | src/replicate/publisher.rs:470-564 | a poll puts out entries, each folded into the state before it and only the source's first a Full, then segments, then exactly one rows frame with the next number and the state the entries left |
| PollFrames.OpenShape | src/replicate/publisher.rs:301-398 | an opening puts out its handshake, entries folded from no state, and segments, and no rows |
| Replication.PollSends | src/replicate/publisher.rs:470-564 | what a poll sends of a stream is well-formed items that bring what was delivered up to the stream's rows |
| Replication.PublisherRun | src/replicate/publisher.rs:301-398 | over any number of polls without an error the frames carry every row past each stream's starting point exactly once |
| Replication.PollErrsExactly | src/replicate/publisher.rs:526-535 | a poll errs if and only if some stream's row past the cursor was sealed before it was shipped |
| Replication.MissedMeans | src/replicate/publisher.rs:526-535 | that is, exactly when a sealed row is newer than every row accounted for |
| Replication.RunDelivers | src/replicate/publisher.rs:470-564 | everything sent is deliverable: states declared as sent, numbers without gaps, no segment after a row |
| Replication.EndToEnd | src/replicate/subscriber.rs:127-297 | a subscriber on a lossless FIFO, sealing when it likes, ends with exactly the publisher's rows from the starting point |
| Entries.EntriesRun | src/replicate/publisher.rs:403-466 | exactly what a tail or a catch-up has sent of each name after any number of polls: its entries from the starting point on, or all of them over again |
| Entries.CatchUpExact | src/replicate/publisher.rs:412-422 | it is the entries from the starting point on, once each, if and only if at the opening the name's newest entry is at or past that point or it has none; a tail always sends every entry |
| Entries.EntriesEndToEnd | src/replicate/subscriber.rs:163-190 | the subscriber ends with exactly the entries sent |
| Entries.QuietCatchUpStartsOver | src/replicate/publisher.rs:412-422 | a run of one poll in which a catch-up from 1 sends an entry at 0 |
| Histories.HistoryKept | src/writer.rs:2336-2564 | whatever in-order history the archive has had, with prunes, merges and crashes anywhere, each stream of the source is sound, its own, and under no watermark past its newest row |
| Histories.HistoryRuns | src/replicate/publisher.rs:470-564 | snapshots taken anywhere along such a history of the storage machine are what the replication theorems assume |
| Histories.HistoryReplicates | src/replicate/subscriber.rs:127-297 | so on top of the storage machine a subscriber ends with exactly the archive's rows of each stream from the starting point, and the entries sent |
| Histories.HistoryPollErrs | src/replicate/publisher.rs:526-535 | and a poll errs if and only if some stream's row past the cursor was sealed before it was shipped |
| Histories.TickExtends | src/writer.rs:1422-1546 | a tick whose rows are in order per stream only extends what each stream shows, whatever its filters, failures and collisions do |
| Subscription.TakesFrame | src/replicate/subscriber.rs:127-297 | a subscriber that has caught up takes the next deliverable frame in full |
| Subscription.SubscriberKeepsUp | src/replicate/subscriber.rs:193-261 | over any deliverable list and any own seals it refuses no segment, skips no row and reports no gap |
| Subscription.SubscriberView | src/replicate/subscriber.rs:193-261 | what a reader of its archive sees of a stream is what was delivered of it |
| Subscription.RowLands | src/replicate/subscriber.rs:214-232 | a row past everything delivered is neither shadowed nor refused |
| Subscription.SegLands | src/replicate/subscriber.rs:243-261 | a segment past everything delivered and ahead of any row is adopted |
| Losses.RowsTakenExactly | src/replicate/subscriber.rs:193-240 | whatever was lost before, rows are committed exactly when the last entry that arrived carries the declared state and a Full has arrived unless none was sent, and otherwise skipped with nothing written |
| Losses.LastEntryIsEnough | src/replicate/subscriber.rs:174-190 | so the last entry before the rows and a Full are enough, whatever was lost in between |
| Losses.LostEntryUnnoticed | src/replicate/subscriber.rs:174-190 | a run in which the second of three entries is lost and the rows after the third are taken |
| Losses.GapMeansLoss | src/replicate/subscriber.rs:199-213 | a gap is reported exactly when some rows frame sent between the last that arrived and this one did not arrive |
| SubscriberLoop.Subscriber.ApplyOne | src/replicate/subscriber.rs:127-297 | applying a frame through the writer is the transition the theorems are about |
| SubscriberLoop.Subscriber.ApplyAll | src/replicate/subscriber.rs:300-317 | a batch sums what each frame did and stops at the first failure |
| SubscriberLoop.BatchAccounts | src/replicate/subscriber.rs:300-317 | what a batch reports accounts for all it carries: every row committed or skipped, every segment inserted or held, every entry applied |
| SubscriberLoop.BatchGaps | src/replicate/subscriber.rs:300-317 | and a gap exactly if some frame of it came after one |
| PublisherLoop.PollOne | src/replicate/publisher.rs:485-546 | the per-stream part of a poll, branch by branch |
| PublisherLoop.LiveRows | src/replicate/publisher.rs:537-545 | the loop over the live tail keeps the rows past the cursor and the newest of them |
| PublisherLoop.SourceCursor.constructor | src/replicate/publisher.rs:301-398 | opening a source |
| PublisherLoop.SourceCursor.PollOnce | src/replicate/publisher.rs:470-564 | a poll in place is the function the run theorems are about, frame by frame as `PollShape` and `RowsInOrder` say |
| Histories.AppendGrows | src/archive/sqlite.rs:3292-3314 | an append in order extends the rows a publisher sees |
| Histories.SealGrows | src/writer.rs:2419-2564 | a row-preserving seal leaves them as they are |

## Left out

- SQLite itself, files, pragmas, sidecars, media and snapshots: a transaction is one step, a snapshot one value.
- Threads, channels, timers, checkpoints, page reclaim and heartbeats: messages are handled one at a time.
- Sleeping between retries: how the database answers each attempt is a parameter, and an operation retried inside a tick's commit is one answer.
- `next_seq` and `watermarks` are one record per stream with the stream's tables rather than two maps beside the database, so the order of the memory update after a seal's commit is not visible.
- A stream's WAL is a sequence in key order and its segments a sequence in `seq` order; row ids and page layout are not modelled.
- A segment's bytes: what a segment holds is the rows of its input inside its span, and an encoder is any function to a claimed count and span.
- Clock observations and offsets, source labels and metadata, the caller's index over a segment, and session records.
- Log lines, warning counters and error texts.
- Widths of `u64` row counts and of byte accounts: they are unbounded; timestamps are bounded where the code's bounds matter (copies, retention, the wire).
- The order in which a copy's report lists documents; JSON checking and uuid minting are parameters.
- Parquet and Arrow bytes, column projection, and what file key-values mean: a compaction run compares tags, and `StopAtChange` stands for schema and metadata compared together, entries in any order.
- `compact` over a whole archive, which is the per-stream pass in turn.
- Several sources on one connection: the replication theorems follow one source; ordinals, handshakes of later sources and identity updates carry no rows.
- A publisher whose source is under retention or adopts segments between polls. The end-to-end results assume a channel that loses nothing; `Losses` says what a subscriber does with one that does.
- What a publisher's cursor is worth after a poll has failed.
- Documents are not replicated by the program, and are not here.
- Finalizing a source, `verify`, `describe`, the catalog summaries and the older schema layouts.
- WriterThread.Writer.Evict: the wall-clock cut of clock offsets and the reclaim after the pass are not modelled.
- Copying.CopySource: clock offsets and column filters of a copy are not modelled.
