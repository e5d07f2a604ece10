# smokeng, modelled and proved

smokeng is a latency monitor: a master and its agents send trains of pings, keep every round trip, and
show distributions rather than averages. This project models six parts of it in Dafny and proves what
they promise.

1. **Distributions.** `Distribution` is the Wasserstein distance of `internal/shape/shape.go`, against
   its meaning as an area between distribution functions, with the laws of a metric; `Bimodality` the
   coefficient beside it. `Quantiles` bounds what is lost when a pool is reduced to 256 values. `Peaks`
   says what the measures of shape come to. `Columns`, `Pooling`, `ColumnRead` and `ColumnSpans` are the
   read that turns rows into pixel columns: 64-bit wrapping arithmetic with 128-bit products, one
   streaming pass that may switch from raw to pooled on the way, and a merge of the extra series.
2. **Admission.** `Admission` is the check of a signed request, with a nonce cache that is swept lazily
   and a token bucket for each agent; `AdmissionRuns` says what holds over every run of it, `Verdicts`
   exactly which requests of a run are accepted.
3. **Outbox.** `Store` is the measurement tables and their reads, `Writes` what their writes leave,
   `Paths` the route log. `PageRead` is the agent reading one of its `Pages` in several statements,
   `Drain` and `PathDrain` (both after `Draining`) the agent sending them, while its prober goes on
   writing. `Outbox` is the protocol between agents and master as steps of a distributed system: answers
   and requests may be lost, late or repeated, and an agent may restart at any point; `TornPage` is a
   run of it. `Ingest` is what an agent may expect of a batch.
4. **Frames.** `FlatBuffers` and `Frame` are the bounds-checked walk over an untrusted Arrow stream
   before it reaches the decoder; `Stream` writes such streams and says which pass.
5. **Targets.** `Tree` and `TreeIndex` are the tree, its validity and inheritance; `TreeLimits`,
   `TreeEdits`, `Renumbering`, `TreeRuns` and `TreeDelete` the limits and every run of accepted writes,
   `Traffic` what the limits come to in pings sent; `Config` and `Sync` the declarative file by path,
   `SyncMeaning` what it does to each node and rule, `ConfigTree` the file applied to the tree,
   `ImportWrites` and `BrokenImports` the rows such an import writes, `NewDatabase` an export that is
   imported.
6. **Alerts and buckets.** `Alert` and `AlertManager` are the hysteresis and what reloads and restarts
   do to it, `AlertMeaning` when a rule changes and on what, `Scoring`, `ShapeMetrics` and
   `ShapeHistory` what the shape rules measure and remember; `Schedule` and `Collector` when pings go
   out and what is made of the replies, `Measured` and `Calls` what a measurement says of them.

`Options`, `Sets`, `Sorting`, `Text` and `Arithmetic` hold what several of them need.

What the source does step by step is a method with its loops, proved against a function that says what
it comes to; the laws are lemmas about that function. What the source keeps in an object is a class.
Where a Go map is ranged over, the order is arbitrary (`Sets.AnyOrder`), so a result proved here does
not depend on it. A table is a map from its primary key, and a transaction one step that happens whole
or not at all. Each region under a mutex is one step too.

Times are nanoseconds or seconds as in the source. Rates, shares and tokens are real numbers. Products
and conversions of 64-bit integers wrap where the source relies on it (`Columns`, `Schedule`, the burst
check of `Tree`). Division and remainder of negative numbers truncate as Go's do. The flag byte of a
measurement is a set of flags in `Collector`, and a byte in `Store` and `Pooling`, where it is only
carried and ORed.

What the model cannot know is a parameter: `Admission.Setup` (SHA-256 and the Ed25519 verification of
section 5.1 of RFC 8032), `Store.Codec` and `decodes` (which value lists the blob codec takes, and which
stored ones it gives back), `Outbox.Env` (what a master's answer depends on besides the request), `Turn`
in the drains (what happens while a page is read and while it is out), the hash of a target's id in
`Schedule`, the square root in `Scoring`, clock readings, replies, and whether a hop is an address.

Check it with `dafny verify dfyconfig.toml`.

## Where a claim needs a condition

- The triangle inequality fails through an empty sample in the middle, which `Wasserstein1` puts at
  distance zero from everything, unless the outer two are at distance zero (`Distribution.DistanceTriangle`).
- Send times stay in their bucket exactly when no send overflows an int64 and the last one ends inside the
  interval behind the largest offset (`Schedule.ContainmentIsExact`). `Target.Validate` and `validateTiming`
  do not ensure it: an interval past what a `time.Duration` can hold, some 292 years, may break it
  (`TooLongAnIntervalEscapes`) or not (`ALongerIntervalMayNot`), and a burst gap so large that the product
  wraps passes the timing check and breaks it (`AWrappedBurstEscapes`). Trees changed only by the API and
  by imports that run whole and alone are held to limits that rule both out
  (`TreeRuns.ReachableProbesStayInTheirBucket`).
- The API reads, decides and writes a tree in one transaction; an import checks first and then writes row by
  row. So the runs of `TreeRuns` take imports whole and alone. One that is cut off, or written over a tree
  that changed meanwhile, leaves a sound tree exactly when its check passes the tree as it actually is
  (`ImportWrites.SoundIsChecked`, and `MixedRunsAreSoundExactly` for whole runs); it may not
  (`BrokenImports`), and then every read of the tree fails until it is repaired.
- A read of a range takes its rows and its series in two statements. It fails exactly when an interval with
  series was committed in between, although no series is ever without its measurement
  (`Store.ReadFailsExactlyWhen`); a read of one state never does.
- A page of an outbox is read in several statements as well, so an interval that is recorded again in between
  may reach the master with one recording's row and the other's series (`TornPage`); recorded once, it is
  whole (`Outbox.RecordedOnceIsStoredWhole`). A clock that never runs backwards measures no bucket twice
  (`Schedule.NoBucketTwice`).
- A restart changes no later transition of a rule, given the values it goes on seeing, exactly when the table
  has the firing, the streak and the last interval that memory had (`AlertManager.RestartIsExact`); `Observe`
  logs a failed save and goes on. A scalar rule goes on seeing what is measured. The memory of a shape rule is
  never saved, so after a restart it sees nothing until it has warmed up again (`ShapeMetrics.WarmUpIsExact`).
- Imports refuse an export only for agents it names and the new database does not know, and not even that
  when unknown names are allowed (`NewDatabase.ExportIsAdmissible`).
- The comment beside `NonceTTL` asks that it exceed `MaxSkew`. What the replay result needs is exactly twice
  `MaxSkew`, because a timestamp may be as far ahead as behind (`AdmissionRuns.NoReplayIsExact`); the
  constants meet that with nothing to spare, and a nonce is kept through the last instant of its time.
- A row recorded again under its key while the page that holds it is out is forgotten with the page: the
  outbox is cleared by key (`Drain.TurnKeeps`).
- The replay and rate results assume that the times reaching the verifier do not run backwards, and that
  sleeping until a time lasts that long in the bucket loop.

## Model

| member | source | states |
|---|---|---|
| `Distribution.SortedFloats` | internal/shape/shape.go:106-113 | the samples in ascending order, nothing lost or added |
| `Distribution.Wasserstein1` | internal/shape/shape.go:28-61 | the two-pointer sweep returns the area between the two empirical distribution functions, whatever the order, ties and lengths of the samples |
| `Distribution.DistanceSymmetric` | internal/shape/shape.go:28-61 | the distance does not depend on which sample comes first |
| `Distribution.DistanceTriangle` | internal/shape/shape.go:28-61 | the triangle inequality holds exactly when the middle sample is not empty or the outer two are at distance zero |
| `Distribution.DistanceZero` | internal/shape/shape.go:28-61 | zero exactly when the two distribution functions coincide everywhere |
| `Distribution.RepeatChangesNothing` | internal/shape/shape.go:28-61 | drawing every sample k times over changes no distance |
| `Distribution.DistanceBoundsMeanShift` | internal/shape/shape.go:28-61 | at least the difference of the means |
| `Distribution.DistanceOfEqualLengths` | internal/shape/shape.go:28-61 | for equally many samples, the mean gap between the k-th smallest of each |
| `Bimodality.BimodalityCoefficient` | internal/shape/shape.go:69-104 | a coefficient exactly for four samples or more that are not all the same; it lies strictly between 0 and 1, so the denominator is never zero |
| `Bimodality.KurtosisIsLarge` | internal/shape/shape.go:69-104 | the kurtosis is at least one more than the square of the skewness, for every list of samples with any spread |
| `Peaks.CoefficientMeans` | internal/shape/shape.go:69-104 | the coefficient v of n samples satisfies v (m4 m2 - 3 m2^3 + c m2^3) = m3^2 + m2^3, with the moments about their mean and c (n - 2)(n - 3) = 3 (n - 1)^2 |
| `Quantiles.Quantiles` | internal/store/columns.go:280-290 | sorts the pool in place and returns it whole, or q of its values by mid rank |
| `Quantiles.RanksIncrease` | internal/store/columns.go:280-290 | for a pool larger than q, the picked indices are in range and strictly increase, so no sample is picked twice |
| `Quantiles.QuantilesCdf` | internal/store/columns.go:280-290 | at every value the share of quantiles at most that value is within 1/(2q) of the share of pooled samples |
| `Quantiles.QuantilesDistance` | internal/store/columns.go:280-290 | hence the quantiles are within (max - min)/(2q) of the pool in Wasserstein distance |
| `Columns.Mul64` | internal/store/columns.go:143-158 | the two words are the exact 128-bit product |
| `Columns.ColumnIs` | internal/store/columns.go:137-149 | over the whole int64 range the division is defined and the column is the exact quotient, below n |
| `Columns.StartIs` | internal/store/columns.go:151-158 | start(i) is defined, lies in the window and is the first second at or past i/n of it |
| `Columns.StartAtEnds` | internal/store/columns.go:151-158 | start(0) is from and start(n) is to |
| `Columns.StartColumnGalois` | internal/store/columns.go:137-158 | start(i) <= ts exactly when i <= column(ts) |
| `Columns.ColumnIsInterval` | internal/store/columns.go:137-158 | ts is in column i exactly when start(i) <= ts < start(i+1) |
| `Columns.StartsAscend` | internal/store/columns.go:151-158 | the starts never go backwards, so the columns tile the window, also when n exceeds its seconds |
| `Pooling.Pooler.Add` | internal/store/columns.go:160-182 | one row more is pooled, refused exactly when its column would hold too many samples |
| `Pooling.Pooler.Finish` | internal/store/columns.go:184-198 | the columns are the group-by-column of all rows added |
| `Pooling.GroupsUnique` | internal/store/columns.go:160-198 | that grouping is determined by the rows alone, so two reads that pool the same rows agree |
| `Pooling.ColumnsAreTheNonEmptyGroups` | internal/store/columns.go:160-198 | there is a column exactly where a row falls |
| `Pooling.PoolingConserves` | internal/store/columns.go:160-198 | rounds, sent, received and flagged intervals add up over the columns, and the flags are the OR |
| `ColumnRead.PoolsMeaning` | internal/store/columns.go:205-275 | the pools a forward pass builds hold, for a column and a series, the values of exactly the rows that measured it |
| `ColumnRead.PoolSeries` | internal/store/columns.go:205-275 | the forward merge gives every column the series rows that fall in it, skips rows without a column, and fails exactly at the row and sample limits |
| `ColumnRead.QueryColumns` | internal/store/columns.go:60-121 | raw exactly when the rows and samples are few enough; otherwise the columns of all rows, wherever the switch happened; an error exactly at the limits |
| `ColumnSpans.ColumnsSayTheRows` | internal/store/columns.go:60-290 | of what a pooled read returns, from rows and columns alone: from <= its from < its to <= to for every column, each one of n equal parts of the window in whole seconds, none beginning before the one in front has ended; every row lies in exactly one; and each says the rounds, counts, flags, quantiles and series of exactly the rows between its two ends |
| `ColumnSpans.RawExactly` | internal/store/columns.go:88-106 | what is returned raw: at most n rows with at most twenty million replies |
| `ColumnSpans.TooManySamplesExactly` | internal/store/columns.go:160-182 | a read has too many samples exactly when some one of the n parts holds more than twenty million |
| `Admission.CanonicalDetermines` | internal/ingest/sign.go:51-62 | the signed string determines every field, whatever the path contains |
| `Admission.NonceCache.Admit` | internal/ingest/sign.go:253-275 | the nonce cache and the rate limit after one call, and its outcome, with the lazy sweep |
| `Admission.RateLimiters.Allow` | internal/ingest/sign.go:295-313 | the token bucket after one call, and whether it allowed it |
| `Admission.Verifier.Check` | internal/ingest/sign.go:173-216 | the checks in their order, the verdict, and the counters |
| `Verdicts.OnlyTheSignedCounts` | internal/ingest/sign.go:183-216 | only a request in time, from an enabled agent, whose signature of its own fields and body verifies under the key of that agent is accepted, or spends a nonce or a token; any other changes nothing, and is refused for what is wrong with it |
| `Verdicts.VerdictExactly` | internal/ingest/sign.go:173-313 | which requests of a run are accepted: exactly those so signed whose nonce was not accepted within its time to live, and for which the agent, counting from each of its accepted requests, stays within thirty and one for every two seconds; and which are called replays, and which over the rate |
| `AdmissionRuns.RefusalsTouchLittle` | internal/ingest/sign.go:183-216 | what cannot be signed touches no nonce and no bucket, a replay spends no token, a limited request stores no nonce |
| `AdmissionRuns.NonceRemembered` | internal/ingest/sign.go:253-275 | an accepted nonce is still held for as long as its time to live: the lazy sweep drops none that is needed |
| `AdmissionRuns.NonceSpacing` | internal/ingest/sign.go:253-275 | two acceptances of one nonce are more than its time to live apart |
| `AdmissionRuns.NoReplayAccepted` | internal/ingest/sign.go:41-46 | in any run no two accepted requests share a timestamp and a nonce |
| `AdmissionRuns.NoReplayIsExact` | internal/ingest/sign.go:41-46 | whatever the two constants: no run accepts a replay exactly when NonceTTL is at least twice MaxSkew |
| `AdmissionRuns.RateBounded` | internal/ingest/sign.go:285-313 | in any window an agent has at most 30 requests accepted plus one for every two seconds |
| `AdmissionRuns.SpacedNeverLimited` | internal/ingest/sign.go:285-313 | requests two seconds apart are never limited |
| `AdmissionRuns.CacheBounded` | internal/ingest/sign.go:222-275 | after any request that reached it, the cache holds at most 359 nonces per agent that has had one accepted |
| `Store.Database.WriteMeasurements` | internal/store/sqlite.go:473-554 | one transaction: all rows replaced, or none written |
| `Store.Database.IngestMeasurements` | internal/store/sqlite.go:465-468 | the same with the first write winning; the count of those already there |
| `Store.Database.DropSubmitted` | internal/store/agents.go:339-371 | the rows of a batch and their series are gone, nothing else |
| `Store.Database.PruneMeasurements` | internal/store/sqlite.go:782-837 | the sliced loop ends, is one delete of everything before the cutoff for that target and nothing else, and its count is exact |
| `Store.FirstWriteWins` | internal/store/sqlite.go:465-554 | an ingest keeps every stored row as it was and adds only rows of the batch, as many as it reports |
| `Store.IngestTwice` | internal/store/sqlite.go:465-554 | the same batch again writes nothing and changes nothing |
| `Store.WriteKeys` | internal/store/sqlite.go:473-554 | a write stores every key of its batch and alters no row outside it |
| `Store.DropKeys` | internal/store/agents.go:339-371 | dropping removes exactly the keys of the batch |
| `Writes.LastWriteWins` | internal/store/sqlite.go:473-554 | a replacing write succeeds exactly when every row has as many samples as replies and the codec takes its lists; then the last row under each key is stored, whole |
| `Writes.FirstRowIsStored` | internal/store/sqlite.go:465-554 | an ingest succeeds exactly when every row so fits, and the series of each new one; then what was stored is as it was, and the first row under each new key is stored, whole |
| `Writes.PruneTakesTheOld` | internal/store/sqlite.go:782-837 | pruning takes the intervals of that target from before the cutoff and leaves every other whole |
| `Writes.DropTakesTheBatch` | internal/store/agents.go:339-371 | dropping takes the keys of the batch and leaves every other interval whole |
| `Store.SeriesAlwaysOwned` | internal/store/sqlite.go:473-554 | no interleaving of writes, ingests, drops and prune slices leaves a series row without its measurement |
| `Store.ReadFailsExactlyWhen` | internal/store/sqlite.go:556-646 | a read of a range is two statements with any writes, ingests, drops and prune slices between them; every measurement keeps its series, and the read fails exactly when an interval of the range that has series was committed in between |
| `Store.AWriteBetweenFailsTheRead` | internal/store/sqlite.go:594-646 | whatever is stored, writing one new interval of the range with a series between the two statements fails the read |
| `Store.AFirstWriteFailsTheRead` | internal/store/sqlite.go:594-646 | an instance: the first interval of a new database |
| `Store.DropsAndPrunesFailNoRead` | internal/store/sqlite.go:556-646 | drops and prune slices in between never fail it |
| `Store.ReadsNeverMeetOrphans` | internal/store/sqlite.go:556-646 | a read with nothing committed in between never fails, in any state that writes, ingests, drops and prune slices can reach |
| `Store.ReadServes` | internal/store/sqlite.go:556-646 | what a read that succeeds serves: each row of the first statement with its readable series of the second; whole for every interval that nothing touched in between |
| `Paths.PathLog.RecordPath` | internal/store/agents.go:394-399 | the change is stored and pending; it becomes the latest of its series exactly when none there is later, and other series keep theirs |
| `Paths.PathLog.LastPath` | internal/store/agents.go:380-389 | the hops of the latest change of the series, or none |
| `Paths.PathLog.PathsSubmitted` | internal/store/agents.go:428-448 | the changes confirmed, one after the other |
| `Paths.PathLog.IngestPaths` | internal/store/agents.go:454-472 | restamped with the agent id; the count of those already there |
| `Paths.ConfirmKeepsLast` | internal/store/agents.go:428-448 | confirming keeps the latest change of every series, and every change still pending |
| `Paths.LastPathUnchanged` | internal/store/agents.go:380-448 | LastPath answers the same before and after PathsSubmitted |
| `PathDrain.PendingPaths` | internal/store/agents.go:403-420 | a page of pending changes, oldest first, as large as it may be |
| `PathDrain.Agent.PushPaths` | internal/agent/agent.go:365-426 | the pages sent, each the oldest pending changes of its moment, with changes recorded meanwhile, every answer and a log that cannot be marked; what is confirmed, why the drain ends, and the note about a missing route |
| `PathDrain.OnlyConfirmedIsCleared` | internal/agent/agent.go:365-426 | a change pending at any point of a drain is pending at its end, unless a later page that held it was confirmed |
| `PathDrain.QuietDrain` | internal/agent/agent.go:365-426 | with nothing recorded meanwhile: exactly the confirmed pages, all full but the last, and nothing pending is older than anything confirmed |
| `PathDrain.PagesAreFull` | internal/agent/agent.go:365-426 | every page but the last has 200 changes, and the last no more |
| `PathDrain.ConfirmedDrainEmpties` | internal/agent/agent.go:365-426 | with every page confirmed nothing stays pending |
| `PathDrain.ConfirmClears` | internal/store/agents.go:428-448 | confirming a page takes exactly that page off what is pending |
| `PathDrain.FilterPaths` | internal/api/ingest.go:336-397 | a 400 exactly for an unreadable body or more than 1000 paths, which no page of an agent has; otherwise what is kept: assigned targets, not in the future, well-formed hops |
| `PathDrain.KeptPathsAre` | internal/api/ingest.go:336-397 | what is kept of a report is exactly each path of an assigned target, not of the future, of one to sixty-four hops that are addresses or unknown, under its target and time |
| `PathDrain.HopsSurvive` | internal/agent/agent.go:381-383 | a path split for the wire and joined on arrival is the path that was recorded |
| `PathDrain.PathFirstWriteWins` | internal/store/agents.go:454-472 | on the master no stored change is altered, and what is new was offered and is under the own id of the agent |
| `PageRead.PendingMeasurements` | internal/store/agents.go:197-225 | a page of the outbox, oldest first: the rows of the first statement, each with its series as they were in one of the later ones, between which the prober may write; an error only when a list of the page does not decode |
| `PageRead.SpansOf` | internal/store/agents.go:236-268 | one time span for each (target, agent) of the page, holding all of its times |
| `PageRead.AttachPendingSeries` | internal/store/agents.go:236-329 | the statements, of at most 100 pairs each and in whatever order, together read exactly the series of the page, those of one pair as they stood in one statement; an error exactly when one that was read does not decode |
| `Drain.PushMeasurements` | internal/agent/agent.go:294-358 | the pages sent, each the oldest rows of its moment, with rows recorded while a page is read and while it is out, every answer and an outbox that cannot be cleared; what is forgotten, and why the drain ends |
| `Drain.DrainIsProtocol` | internal/agent/agent.go:294-358 | every drain, statement by statement, is a run of the agent side of the protocol |
| `Drain.OnlyAnsweredIsForgotten` | internal/agent/agent.go:294-358 | what is buffered at any point of a drain is buffered at its end, unless a later page that held it was answered with 200 or 400 |
| `Drain.TurnKeeps` | internal/store/agents.go:339-371 | after a turn a row that was buffered before it is gone exactly when the page held its key, was answered with 200 or 400 and was cleared |
| `Drain.QuietDrain` | internal/agent/agent.go:294-358 | with nothing recorded meanwhile: exactly the answered pages, all full but the last, and nothing kept is older than anything forgotten |
| `Drain.PagesAreFull` | internal/agent/agent.go:294-358 | every page of a drain but the last has 2000 rows, and the last no more |
| `Drain.ConfirmedDrainEmpties` | internal/agent/agent.go:294-358 | with every answer a 200 the outbox ends empty |
| `Outbox.FilterBatch` | internal/api/ingest.go:97-111 | what the master keeps of a batch, and that the rest is counted or impossible |
| `Outbox.HandleStores` | internal/api/ingest.go:50-142 | a delivery alters nothing stored and stores, whole, only measurements of the request, under the id of the agent |
| `Outbox.HandleAccounts` | internal/api/ingest.go:50-142 | after a 200 or a 400 every row of the batch is stored or refused by that answer for a named reason |
| `Outbox.ReasonsAreTrue` | internal/api/ingest.go:97-111 | a row is refused only for a reason that was true of it |
| `Ingest.BadRequestExactly` | internal/ingest/batch.go:270-330 | a batch is a bad request exactly when it cannot be read or a row of it miscounts: replies other than its samples, or, if it has no more replies than pings, a series longer than its pings; without a 200 nothing is stored |
| `Ingest.HonestBatchIsStored` | internal/api/ingest.go:50-142 | a batch that counts right is never a bad request, whatever pings it lost; it is a 200 if the codec takes what is owed; and after a 200 every possible row of an assigned target that is not of the future is stored, as it was sent, under the id of the agent, unless its key was taken |
| `Outbox.NextKeepsInv` | internal/agent/agent.go:294-358 | every step of the protocol keeps its invariant |
| `Outbox.NothingIsLost` | internal/agent/agent.go:294-358 | over every run with lost, late and repeated messages, failed writes and restarts: what an agent ever recorded is buffered, stored, pruned by retention, or forgotten by the agent on an answer that refused it for a true reason |
| `Outbox.NothingIsInvented` | internal/api/ingest.go:50-142 | what the master holds under the id of an agent is a row that agent recorded, with the series it recorded under the same key |
| `Outbox.RecordedOnceIsStoredWhole` | internal/api/ingest.go:50-142 | so what an agent never recorded otherwise under its key is held whole, values and series |
| `TornPage.RecordedTwiceMayBeTorn` | internal/store/agents.go:197-225 | an instance: an interval recorded again while its page is read reaches the master with the row of the first recording and the series of the second |
| `Outbox.StoredNeverChanges` | internal/store/sqlite.go:465-554 | what is stored for a remote agent keeps its values and series for as long as it is stored |
| `Outbox.SideFollowsItsActs` | internal/agent/agent.go:294-358 | the outbox of an agent and what it waits for move by its own acts and by nothing else in the system |
| `Outbox.ActsAreSteps` | internal/agent/agent.go:294-358 | whatever an agent can do on its side is a step of the protocol |
| `FlatBuffers.Le16` | internal/ingest/frame.go:327-332 | a value exactly when both bytes are there |
| `FlatBuffers.Le32` | internal/ingest/frame.go:334-339 | a value exactly when all four bytes are there |
| `FlatBuffers.Le32ReadsBack` | internal/ingest/frame.go:334-339 | it reads back a little-endian value wherever it lies |
| `FlatBuffers.Table.Field` | internal/ingest/frame.go:200-231 | the field lies in the buffer |
| `FlatBuffers.Table.SubTable` | internal/ingest/frame.go:234-248 | the table lies in the same buffer |
| `FlatBuffers.Table.Vector` | internal/ingest/frame.go:253-268 | all elements of the vector lie in the buffer |
| `FlatBuffers.Table.Element` | internal/ingest/frame.go:271-278 | the element table lies in the buffer |
| `FlatBuffers.Table.CountNodes` | internal/ingest/frame.go:285-321 | accepts exactly when the unfolding, every child and metadata entry counted once a reference, is within the budget and no table lies below depth 4; at most one call more than the budget, however tables are shared |
| `Frame.InspectMessage` | internal/ingest/frame.go:133-181 | reads what the header says, without a byte out of range |
| `Frame.ScreenFrames` | internal/ingest/frame.go:36-88 | for every byte string: accepted exactly when it splits into at most 32 messages that fit, the first and only the first a schema, the others uncompressed record batches |
| `Frame.PassesSplits` | internal/ingest/frame.go:36-88 | a stream the walk accepts splits so |
| `Frame.SplitsPass` | internal/ingest/frame.go:36-88 | a stream that splits so is accepted |
| `Stream.WrittenStreamsPassExactly` | internal/ingest/frame.go:36-181 | streams written byte by byte, with bodies of any bytes: let through exactly when they begin with a schema that unfolds to at most 256 nodes, at most four deep, and go on with at most 31 uncompressed record batches |
| `Alert.State.EvaluateValue` | internal/alert/alert.go:283-328 | the standing after one evaluation, and the transition |
| `Alert.State.Acknowledge` | internal/alert/manager.go:364-383 | the mark set or taken back, and whether anything was firing |
| `Alert.StreakMeaning` | internal/alert/alert.go:283-328 | the streak counts the unbroken run of intervals that argue for changing state within the episode |
| `Alert.FiresExactlyWhen` | internal/alert/alert.go:283-328 | an enabled rule fires at an interval exactly when it was clear and the last For intervals since its last transition were trusted, gap-free and matching |
| `Alert.ResolvesExactlyWhen` | internal/alert/alert.go:283-328 | and resolves exactly when it was firing and the last ClearFor were trusted, gap-free and not matching |
| `AlertMeaning.ChangesExactlyWhen` | internal/alert/alert.go:283-328 | the same from the measurements alone: with every value past, or not past, the threshold, honestly measured, and at most two intervals after the one before it |
| `AlertMeaning.ValuesAre` | internal/alert/alert.go:222-259 | loss is the share of pings that did not come back, in percent; the median, the 95th percentile and both ends of the spread are the samples that 10, 19 and 1 twentieths of the samples come before, in milliseconds |
| `Alert.TransitionsAlternate` | internal/alert/alert.go:283-328 | Fired and Resolved strictly alternate |
| `Alert.SinceIsTheFire` | internal/alert/alert.go:283-328 | Since is the interval that fired the running episode, and unset while the rule is clear |
| `Alert.AckBelongsToEpisode` | internal/alert/alert.go:212-214 | an alert counts as acknowledged only when someone acknowledged it after it last changed |
| `Alert.FreshFireIsUnacknowledged` | internal/alert/alert.go:212-214 | one that has just fired never does |
| `AlertManager.Manager.Observe` | internal/alert/manager.go:228-278 | the standings and the shape memories after a batch, the transitions reported and the copies saved, for every rule and metric |
| `AlertManager.Manager.Reload` | internal/alert/manager.go:181-213 | standings of rules that still exist, memory winning over the table, for every map order; and their shape memories |
| `AlertManager.Manager.Acknowledge` | internal/alert/manager.go:364-383 | false exactly when nothing is firing; otherwise the mark and the copy to save |
| `AlertManager.LossIsAPercentage` | internal/alert/alert.go:227-235 | loss lies between 0 and 100, is 0 exactly when all replies came and 100 exactly when none did, and never grows with more replies |
| `AlertManager.PercentilesAscend` | internal/alert/alert.go:250-259 | a percentile is one of the samples and a higher one is never smaller, so the spread is never negative |
| `AlertManager.StandingsAreIndependent` | internal/alert/manager.go:228-262 | every (rule, target, agent) moves and reports as if it were alone in the batch |
| `AlertManager.ReloadsAndRestartsChangeNothing` | internal/alert/manager.go:181-205 | interleaved reloads, and restarts after a successful save, leave every standing where it would be without them |
| `AlertManager.FutureIsExact` | internal/alert/alert.go:283-328 | two standings report the same transitions ever after exactly when firing, streak and last interval agree; a disagreement shows in one measurement |
| `AlertManager.FutureIsExactUnder` | internal/alert/alert.go:283-328 | the same under any one enabled rule: if the three differ, some measurements set the two apart under that very rule |
| `AlertManager.RestartIsExact` | internal/alert/manager.go:181-205 | given the evaluations to come, a restart changes no later transition exactly when the table had these three as memory did; for a scalar metric these are given by the measurements, a shape rule also loses its memory and warms up again |
| `AlertManager.RestartIsExactUnder` | internal/alert/manager.go:181-205 | the same for one enabled rule and the values it goes on seeing: if the three differ, the rule itself reports differently after some of them |
| `AlertManager.LaterTransitionsAreTheSame` | internal/alert/manager.go:181-278 | so every later batch reports the same transitions, if each restart found these three saved |
| `AlertManager.UnsavedRestartForgets` | internal/alert/manager.go:271-276 | an instance: a failed save and a restart lose a streak, and a fire |
| `Scoring.MedianIsInTheMiddle` | internal/alert/shape.go:134-144 | the median has at least half of the values on each side, itself included |
| `Peaks.MedianIsTheMidpoint` | internal/alert/shape.go:134-144 | it is the midpoint of exactly the values that so lie in the middle |
| `Scoring.ScaleIsASpread` | internal/alert/shape.go:112-130 | for two divergences or more the scale is never negative, and is zero exactly when they are all the same |
| `Scoring.ScoreIsASide` | internal/alert/shape.go:108-131 | there is a score exactly when the history is long enough; if the history moved, it is positive exactly above the median, zero exactly on it and negative exactly below |
| `Scoring.ScoreAscends` | internal/alert/shape.go:108-131 | a larger value never scores less, and scores more if the history moved |
| `Scoring.ScoreHasNoUnit` | internal/alert/shape.go:108-131 | a common shift, and a common positive factor, of the value and the history change no score |
| `Scoring.FlatHistoryScoresZero` | internal/alert/shape.go:108-131 | after a history that never moved everything scores 0 |
| `Peaks.ScaleMeans` | internal/alert/shape.go:112-159 | the scale is 1.4826 times a deviation in the middle of all deviations from a value in the middle of the history, or, where that is zero, the root of the mean square about the mean |
| `ShapeMetrics.ShapeState.Value` | internal/alert/shape.go:47-107 | the value of a shape metric, and what is remembered after it |
| `ShapeMetrics.MemoryFills` | internal/alert/shape.go:87-107 | how much is remembered: at most 30 intervals and 60 divergences, and exactly how many after so many answered intervals |
| `ShapeHistory.RemembersTheLast` | internal/alert/shape.go:87-99 | the intervals remembered are the last thirty, in order |
| `ShapeHistory.RemembersDivergences` | internal/alert/shape.go:47-107 | an automatic rule remembers the divergences of the last sixty intervals that could be compared, and of no others |
| `ShapeHistory.ShapeValueIs` | internal/alert/shape.go:47-85 | the value of a shape rule: none for an interval that cannot be compared; else the Wasserstein distance to the captured reference, or to the samples of the last thirty intervals, in milliseconds, or its score |
| `ShapeMetrics.WarmUpIsExact` | internal/alert/shape.go:27-85 | from a cold start a shape rule has no value before its warm-up is over (10 intervals for a rolling baseline, 20 more for a score), and then, while intervals are answered, always one |
| `Schedule.BucketIsUnique` | internal/probe/scheduler.go:20-23 | the bucket of a time since 1970 is the only aligned one whose interval contains it |
| `Schedule.SendTimes` | internal/probe/scheduler.go:49-60 | the schedule, one time a ping |
| `Schedule.ContainmentIsExact` | internal/probe/scheduler.go:29-60 | every send of every bucket lies in its bucket, for all hashes, exactly when no send overflows and the last one ends inside the interval behind the largest offset |
| `Schedule.ContainedUnlessItOverflows` | internal/probe/scheduler.go:29-60 | for every spread train, and every burst that ends inside its interval, containment holds exactly when no multiple of the step wraps below zero |
| `Schedule.SendTimesStayInTheBucket` | internal/probe/scheduler.go:29-60 | so with an interval that a duration can hold each send time lies in [bucket, bucket + interval), for every hash |
| `Schedule.OrderIsExact` | internal/probe/scheduler.go:49-60 | the sends of a train come in order exactly when none overflows, and at distinct times exactly when the step is not zero either |
| `Schedule.SendTimesAscend` | internal/probe/scheduler.go:49-60 | so they do with an interval that a duration can hold, spread pings at distinct times |
| `Schedule.SendsAreSpaced` | internal/probe/scheduler.go:49-60 | the pings of a spread train are an interval over the pings apart, in whole nanoseconds, those of a burst its gap |
| `Schedule.FirstSendIs` | internal/probe/scheduler.go:29-47 | the first ping goes out at the hash modulo the room its bucket leaves: what a burst does not fill, or one spacing |
| `Schedule.TooLongAnIntervalEscapes` | internal/probe/scheduler.go:29-60 | an instance: an interval that a duration cannot hold, and a train that leaves its bucket |
| `Schedule.ALongerIntervalMayNot` | internal/probe/scheduler.go:29-60 | an instance: a longer one, and a train that stays |
| `Schedule.AWrappedBurstEscapes` | internal/tree/tree.go:212-222 | an instance: a burst whose length wraps past the timing check, with a one-minute interval, and leaves its bucket |
| `Schedule.TurnsMoveOn` | internal/probe/engine.go:332-346 | for every spec, each turn of the loop moves on by at least an interval |
| `Schedule.RunTarget` | internal/probe/engine.go:332-469 | the buckets a target measures, for every spec |
| `Schedule.NoBucketTwice` | internal/probe/engine.go:332-346 | for every spec, under a clock that never runs backwards no bucket is measured twice |
| `Schedule.ChosenIsNext` | internal/probe/engine.go:332-346 | the bucket taken is the next one: the first send of every earlier one is past, its own still ahead if both clock readings were in one bucket |
| `Schedule.NoBucketSkipped` | internal/probe/engine.go:332-346 | a turn that reads the clock before the first send of the bucket after the last one takes that bucket |
| `Collector.Collector.OnRX` | internal/probe/scheduler.go:216-229 | a reply after the bucket is counted late and changes nothing; a duplicate changes nothing |
| `Collector.Collector.RecordRoundTrip` | internal/probe/scheduler.go:241-257 | the same for a round trip measured elsewhere |
| `Collector.Collector.OnICMPError` | internal/probe/scheduler.go:259-271 | an error is noted unless the reply is in hand or the bucket done |
| `Collector.Collector.Finalize` | internal/probe/scheduler.go:284-419 | the measurement of the pings: every count, sample, flag and cause, and the stamps refused |
| `Measured.SamplesMean` | internal/probe/scheduler.go:354-419 | the samples of a measurement, in order of length, are the whole microseconds between going out and coming back of exactly the pings that came back in time, each by its own kernel stamp if that can be its own |
| `Measured.CountsMean` | internal/probe/scheduler.go:324-402 | sent is the number of pings that went out and were not still waiting in a bucket cut short; the stamps refused are those that cannot belong to their ping |
| `Measured.ErrorMeans` | internal/probe/scheduler.go:346-419 | the ICMP error is the commonest of the pings counted and sent, the lowest of several |
| `Measured.SendErrorMeans` | internal/probe/scheduler.go:338-419 | the send error is the commonest reason of the pings refused locally |
| `Measured.FlagsMeanPings` | internal/probe/scheduler.go:298-384 | each flag is up exactly when some ping, the socket, the bucket or the two clocks gave cause for it |
| `Collector.OutcomesAddUp` | internal/probe/scheduler.go:324-394 | the outcomes are disjoint and add up to the pings |
| `Collector.MeasurementIsConsistent` | internal/probe/scheduler.go:284-419 | Received = the number of samples <= Sent <= Pings, samples ascending, within the timeout and 32 bits, an ICMP error named exactly when flagged |
| `Collector.FlagsMean` | internal/probe/scheduler.go:298-384 | each flag is up exactly when what it says is so: of the socket, the queue, the clock, a refused send, a stamp or a reply timed in userspace |
| `Collector.TallyCounts` | internal/probe/scheduler.go:346-351 | the tally counts, for each ICMP error, the pings it explains |
| `Collector.OwnStampsBoundTheSample` | internal/probe/scheduler.go:354-393 | a sample is dropped for the clock exactly when the two stamps of its own ping disagree, and a kernel stamp never lengthens it |
| `Collector.OnlyOpenPingsAreLeftOut` | internal/probe/scheduler.go:324-336 | a whole bucket counts every ping sent; one cut short leaves out exactly those still within their timeout |
| `Collector.SlewIsNotAStep` | internal/probe/scheduler.go:150-154 | slewing at up to 600 parts per million is never taken for a step |
| `Collector.FirstReplyWins` | internal/probe/scheduler.go:216-271 | a ping is answered at its first reply, and its error is the last one before it, whatever else comes in |
| `Calls.AnsweredAtTheFirst` | internal/probe/scheduler.go:216-257 | a ping is answered at the time, and by the clock, of the first call that answers it |
| `Calls.LastCallCounts` | internal/probe/scheduler.go:188-282 | and is stamped, refused and sent as the last such call says |
| `Collector.SentWhenACallSaysSo` | internal/probe/scheduler.go:188-257 | a ping counts as sent exactly when some call says it was sent, could not be, or came back timed |
| `Collector.LateCallsChangeNothing` | internal/probe/scheduler.go:216-279 | after finalization replies, errors and stamps change nothing |
| `Collector.ModeOf` | internal/probe/scheduler.go:423-432 | the most frequent key, the lowest of several, for every map order |
| `Collector.ModeIsUnique` | internal/probe/scheduler.go:423-432 | there is only one such key |
| `Tree.AncestryOf` | internal/tree/tree.go:297-311 | the walk, with its two errors |
| `Tree.AncestryIs` | internal/tree/tree.go:297-311 | it ends in the chain to the root whenever there is one: the length test never refuses a good chain |
| `Tree.ErrorsAreExact` | internal/tree/tree.go:297-311 | it reports a missing parent exactly when a link on the way up is missing, and a cycle exactly when the way up is one |
| `Tree.Resolve` | internal/tree/tree.go:371-385 | the first layer from the node up that gives the setting |
| `TreeIndex.New` | internal/tree/tree.go:233-294 | an index exactly of the valid trees: one complete root, parents present, no cycle, valid fields, distinct siblings, bursts that fit; for every map order |
| `TreeIndex.SiblingKeyInjective` | internal/tree/tree.go:273-276 | the formatted key collides exactly for same-named siblings |
| `TreeIndex.ResolveInt` | internal/tree/tree.go:339-385 | in a valid tree every number the root must give resolves, to the value of the nearest self-or-ancestor that gives one |
| `TreeIndex.ResolveStr` | internal/tree/tree.go:339-385 | the same for every text |
| `TreeIndex.ResolveBool` | internal/tree/tree.go:339-385 | the same for every switch |
| `TreeIndex.Path` | internal/tree/tree.go:315-330 | the path, or nothing for an unknown node or a broken chain |
| `TreeIndex.PathIsInjective` | internal/tree/tree.go:315-330 | in a valid tree a path names one node |
| `TreeIndex.NearestRuleNode` | internal/alert/manager.go:530-542 | the nearest node, itself included, that has rules, if any has |
| `TreeLimits.CheckTreeLimits` | internal/tree/limits.go:253-323 | accepts exactly the changes that are valid and exceed no limit, or no further than before |
| `Traffic.AcceptedCounts` | internal/tree/limits.go:253-360 | what is accepted, counted send by send: past 10,000 targets, below 16 others, over 100 pings or 500,000 bytes a second for one target, waiting longer than an interval, or over 5000 pings a second for all, only where the tree was so before and no further |
| `TreeLimits.NotWorseStaysWithin` | internal/tree/limits.go:334-360 | a load no worse than one within the limits is within them |
| `TreeLimits.LimitsAcceptNoChange` | internal/tree/limits.go:253-323 | a valid tree left as it is, is accepted, however far past a limit |
| `TreeLimits.DepthOf` | internal/tree/limits.go:362-372 | the number of ancestors |
| `Renumbering.RenamedIsValid` | internal/tree/tree.go:233-294 | a valid tree under other ids is valid |
| `Renumbering.NumberingDoesNotMatter` | internal/config/config.go:356-396 | what the limits accept they accept under any ids for the new nodes and in any order: a node or a plan that passes under placeholder ids passes under the ids it is stored with |
| `TreeEdits.CutStaysValid` | internal/api/targets.go:313-348 | a valid tree without a subtree is valid |
| `TreeRuns.SynthID` | internal/api/targets.go:632-638 | one more than the largest id |
| `TreeRuns.Create` | internal/api/targets.go:182-210 | creates exactly when the checks accept |
| `TreeRuns.Update` | internal/api/targets.go:248-288 | edits or moves exactly when the checks accept; the root is not moved |
| `TreeRuns.CreatedIsAsPlanned` | internal/api/targets.go:199-209 | a created node as stored is the node that was checked under a placeholder id |
| `TreeRuns.ImportedIsNoWorse` | internal/config/config.go:356-422 | an import that runs whole and alone makes no excess larger, under the real ids of its new nodes |
| `TreeRuns.StepIsNoWorse` | internal/tree/limits.go:253-323 | from any valid tree no accepted creation, edit, move or deletion, and no import that runs whole and alone, makes an excess in number, depth, load or total rate larger |
| `TreeRuns.EveryRunIsSound` | internal/store/targets_tx.go:49-80 | every run from a new database, its imports whole and alone, keeps the tree valid and acyclic, at most 10,000 targets, at most 16 deep, every running target within its limits and all together at most 5000 probes a second |
| `Traffic.TargetSends` | internal/probe/scheduler.go:49-60 | a target sends its pings once every interval: k times as many in any stretch of k intervals, wherever it begins |
| `Traffic.RateIsSends` | internal/tree/limits.go:325-327 | the rate that the limits speak of, times the seconds, is the number of those sends |
| `Traffic.SoundTargetSends` | internal/tree/limits.go:334-360 | every running target of a sound tree sends at most 100 pings and 500,000 bytes a second over any stretch of its intervals, and waits for none longer than an interval |
| `Traffic.TreeRateIsSends` | internal/tree/limits.go:288-318 | all that the running targets of a valid tree send in a stretch of whole intervals is the rate of the tree times the seconds |
| `Traffic.EveryRunSendsLittle` | internal/tree/limits.go:253-323 | in every tree that such a run reaches, all running targets together send at most 5000 pings a second, over any stretch of whole intervals and wherever it begins |
| `Traffic.EveryRunResolvesInRange` | internal/tree/limits.go:66-140 | and every interval, number of pings, gap, packet size and retention that a node of it resolves to is in the range the program will run |
| `ImportWrites.SoundIsChecked` | internal/config/config.go:395-430 | what is stored after a sound tree, by an import cut off after any row or written over a tree that changed meanwhile, is sound exactly when the check of an import passes it as it actually is |
| `ImportWrites.MixedRunsAreSoundExactly` | internal/config/config.go:395-430 | a run in which imports also write row by row, interrupted and interleaved at will, keeps every tree sound exactly when each such row leaves a tree that the check would have passed |
| `ImportWrites.WholeImportIsThePlan` | internal/config/config.go:399-430 | all rows of an import, in whatever order, and its deletions, over the tree it was checked against, come to its plan |
| `ImportWrites.WholeApplyIsAStep` | internal/config/config.go:395-430 | so an accepted import that runs whole and alone is a step of the tree runs, row by row |
| `BrokenImports.CutOffImportBreaksTheTree` | internal/config/config.go:409-422 | an instance: a sound tree, a file the import accepts, and a tree that is not valid after the first of its rows |
| `BrokenImports.RacedImportBreaksTheTree` | internal/config/config.go:395-422 | an instance: an import and a creation, each accepted over the same tree, and a tree that is not valid once both are written |
| `TreeRuns.ReachableProbesStayInTheirBucket` | internal/probe/scheduler.go:29-60 | in every tree such a run reaches, its imports whole and alone, every host is probed inside its bucket |
| `TreeRuns.SoundProbesStayInTheirBucket` | internal/probe/scheduler.go:29-60 | so it is in every sound tree, however it came about |
| `TreeDelete.Walk` | internal/api/targets.go:326-335 | the node and everything below it, each once, children before parents |
| `TreeDelete.NoDanglingParent` | internal/store/targets_tx.go:95-109 | deleting in that order, no row goes while another names it |
| `TreeDelete.Delete` | internal/api/targets.go:298-357 | refuses an unknown node, the root, and descendants without the recursive flag; otherwise leaves exactly what is not below the node |
| `Config.ParentPathIsAbove` | internal/config/config.go:749-761 | a parent is one level up and a valid path |
| `Config.KeepIsClosed` | internal/config/config.go:321-329 | what a file keeps is closed upwards |
| `Config.FieldsOfJoin` | internal/config/agents.go:68-85 | splitting a joined agent list gives the names back |
| `Config.SyncKeepsWellFormed` | internal/config/config.go:321-389 | after a sync every node has its parent and every rule its node, pruning or not |
| `Config.PrunedIsASubforest` | internal/config/config.go:321-354 | the pruned set is closed under descendants |
| `Config.SyncIsIdempotent` | internal/config/config.go:200-466 | a second sync of the same file changes nothing |
| `Config.SecondSyncReportsNothing` | internal/config/config.go:200-466 | and reports nothing |
| `Config.ExportRoundTrip` | internal/config/config.go:578-692 | export, apply to a new database, export: the same file; the rules exactly, agent lists up to whitespace |
| `Config.ExportIsValid` | internal/config/config.go:724-747 | an export of valid nodes and rules is a file the import accepts |
| `Config.ImportSaysTheFile` | internal/config/config.go:200-466 | the other way round: after a pruning import of a file in export form, an export says exactly what the file said of every target and rule |
| `SyncMeaning.NodesAfter` | internal/config/config.go:258-354 | each node after an import: the root with what the file gives overwritten; an entry as the file has it; what lies above one as it was, or new and bare; everything else gone, when pruning, or as it was and disabled |
| `SyncMeaning.RulesAfter` | internal/config/config.go:474-543 | each rule after an import: as the file has it, with three intervals and a warning where it says nothing; every other gone, when pruning or with its node, or as it was and disabled |
| `SyncMeaning.SummaryIsTheDifference` | internal/config/config.go:200-466 | what an import reports is the difference between the databases before and after it |
| `Sync.UpsertEntries` | internal/config/config.go:258-299 | the entries and their ancestors put in, for every order: what was created, what changed |
| `Sync.Absentees` | internal/config/config.go:321-346 | what is absent from the file is disabled, or listed for deletion |
| `Sync.WriteNodes` | internal/config/config.go:399-422 | written parents first, so each write finds its parent |
| `Sync.DeleteTargets` | internal/config/config.go:347-350 | deleted children first, so no delete leaves a child without its parent |
| `Sync.ApplyRules` | internal/config/config.go:474-543 | rules created, updated, disabled or deleted, and the counts, for every order |
| `ConfigTree.ReadingIsWellFormed` | internal/config/config.go:236-252 | what is read of a valid tree by path is well-formed, with valid fields and a complete root: all that sync and export ask |
| `ConfigTree.ValidTreeExports` | internal/config/config.go:578-692 | the export of any valid tree is a valid file, and syncing it into any new database gives the same rules and the same export |
| `NewDatabase.ExportIsAdmissible` | internal/config/config.go:578-692 | the export of any sound tree with valid rules, applied to a new database: it passes every check exactly when unknown agent names are allowed or all names are known; what is stored is sound, and exports as the same file |
| `NewDatabase.ApplyExport` | internal/config/config.go:200-466 | `Apply` of such a file to a new database succeeds exactly then, and the result exports as the file |
| `NewDatabase.MovedIsSound` | internal/tree/limits.go:253-323 | the targets as a file gives them back, agent lists one space apart and the root with what a new database gave it, are a sound tree |
| `ConfigTree.PlanReadsBack` | internal/config/config.go:356-396 | reading back the targets made of a plan gives the plan, whatever their ids and order |
| `ConfigTree.CheckAgentRefs` | internal/config/agents.go:106-140 | a problem exactly for each node the file declares that names an unknown agent |
| `ConfigTree.CheckPlan` | internal/config/config.go:356-396 | the plan passes exactly when each changed value and the whole tree are within the limits, which does not depend on its numbering or order |
| `ConfigTree.AnyNumberingPasses` | internal/config/config.go:356-396 | a plan that passes under one numbering passes under every other, and it is the same tree |
| `ConfigTree.ImportIsAStep` | internal/config/config.go:391-422 | an import that is accepted, and stored whole over the tree it was checked against, is a step of the tree runs |
| `ConfigTree.Apply` | internal/config/config.go:200-466 | run whole and alone: all of the declared state, exactly when the file, the agents it names and the planned tree pass; otherwise none; the summary is exact |
| `ConfigTree.ApplyTwice` | internal/config/config.go:200-466 | applied again to what it left stored, it succeeds, changes nothing and reports nothing |

## Left out

- HTTP routing, JSON, cookies, sign-in, TLS configuration, logging, metrics text and the front end.
- The Arrow reader and writer, SQLite, and the sample blob codec, which is not part of this model; a batch the reader refuses is `garbled` in `Outbox.Env`.
- Sockets, kernel time stamping, name resolution and the TCP, HTTP, DNS and irtt probes; the collector is given their calls.
- Data races: no claim about which kernel transmit stamp reaches which ping under concurrent sends, only about what `finalize` does with the ones it has.
- Float rounding: sums, shares and rates are exact here, so comparisons at a limit may differ from the program in the last bit.
- Capturing and clearing a golden baseline, percentile labels, silences, severities and delivery of alerts.
- The tree an agent mirrors from its assignments (internal/agent/agent.go:225): a flat list of what the master resolved, written without the limits of the API; `TreeRuns` is about the tree of the master.
- The availability report, the SmokePing importer, scope, grants, enrolment and id allocation: a write may use any id that is free.
- The text checks of `CheckLimits` and who may write: they only refuse more, so every accepted write of the program is a step of `TreeRuns`.
- The record types of `dns_rr_type` and the names of `graph_series` in `Target.Validate`: fixed vocabularies.
- The TOML reading and writing around `Config`, and the grants that a file may also carry.
- The extra irtt series that a collector passes through to its measurement, sorted.
- The engine's own counters, its results channel and its batching writer.
- Traffic.EveryRunSendsLittle: over stretches that every running interval divides; in shorter ones a burst may send its pings at once.
- Ingest.HonestBatchIsStored: of several rows under one key the first that is kept is stored, as `Writes.FirstRowIsStored` says.
- Columns.ColumnIs: stated for windows with from < to, which the handler checks before it reads.
- ColumnRead.QueryColumns: rows come as an argument, already in order and inside the window; the raw answer is returned before series are attached to it.
- Distribution.SortedFloats: `slices.Sort` is represented by its result, `Sorting.Sorted`, not by its algorithm.
- Admission.Verifier.Check: the allowed skew and the time to live of a nonce are fields of `Setup`; `Shipped` gives them the constants of the program.
- AdmissionRuns.NoReplayAccepted: assumes nondecreasing times at the verifier, as the source does.
- Store.Database.PruneMeasurements: requires that each series row has its measurement, which `Store.SeriesAlwaysOwned` shows of every run; the end of a slice is not wrapped at 64 bits.
- Outbox.NothingIsLost: an agent has one request under way at a time, as its loop does; retention on the master is a named way for a stored row to go.
- AlertManager.ReloadsAndRestartsChangeNothing: the rules that reach a target and their definitions come with each batch; equal up to who and when of a mark without an episode, which the table does not keep.
- Collector.Collector.Finalize: durations are unbounded, so a difference of more than 292 years does not saturate.
- TreeLimits.CheckTreeLimits: `interval_s * 1000` is not wrapped there, which differs only for intervals beyond 292 million years.
- TreeRuns.EveryRunIsSound: takes imports whole and alone; `ImportWrites` has the exact condition for others. It starts from the root row of a new database; a row is listed where it was created rather than by id, which no check depends on.
- Config.ExportRoundTrip: the title, notes and state of the root are not in a file, so they are not compared; the new database has only a root with defaults.
- ConfigTree.Apply: asks for ids above zero, as the database gives them; the writes are one step, where the program writes row by row and an error half way leaves what is written (`ImportWrites`).
- ConfigTree.ImportIsAStep: of imports that run whole and alone; `ImportWrites.WholeApplyIsAStep` is the same for its rows.
- TreeRuns.ReachableProbesStayInTheirBucket: of such runs; `TreeRuns.SoundProbesStayInTheirBucket` is about any sound tree.
- AlertManager.RestartIsExact: the values that are evaluated are given, so a shape rule is covered only from when it goes on seeing the same ones.
- ConfigTree.ApplyTwice: is told what the first run left stored, under any ids for the new nodes and in any order.
- PageRead.PendingMeasurements: whatever the prober has still to write of `between` after the last statement is written then.
- Drain.PushMeasurements: `turns` lists what happens to each request of one drain, so a drain that never ends is not described.
- PathDrain.Agent.PushPaths: the same.
- AlertManager.Manager.Observe: the memories of shape rules are values of the manager, not objects it points to.
