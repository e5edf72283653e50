# Verified models of the collector's stateful parts

This project models, in Dafny, the parts of the collector distribution that keep state over whole runs, and proves what
they promise. A component is usually two modules: a specification (a state machine, or functions on values) and the code
itself as a class or as methods with loops, proved against it.

- **Tail sampling** (`TailSampler`, `TailSamplerLimits`, `TailSamplerProcessor`, `IdBatcher`, `IdBatcherCode`,
  `SamplingPipeline`): goroutines registering traces, the bounded delete channel, the ticker that decides, late spans, the
  pipeline of id batches, and the two machines side by side. The atomic regions are steps; the code's methods record the
  steps they take, so each theorem about runs applies to them.
- **Span metrics** (`DimensionsCache`, `LatencyHistogram`, `SpanMetrics`, `SpanMetricsProcessor`): five histogram maps,
  each tied to a cache that changes when it is read, and the history each of them has.
- **Log exporter** (`LogExporter`): limiter, wait group, record channel and consumer under an arbitrary scheduler.
- **Schema migrations** (`Baseline`, `Migrations`, `MigrationsCode`): baseline and post-baseline migrations against durable
  markers, with an error or a crash at any call.
- **Histograms across components** (`ClassicHistogram`, `NativeHistogram`): from Prometheus series to OTLP points to rows.
- **Log pipeline** (`FieldPath`, `FieldGrammar`, `NestedMaps`, `SharedMaps`, `BodyField`, `BodySharing`, `Regroup`):
  field paths, nested bodies as maps held by reference, trees or shared, and regrouping.
- **Identity and accounts** (`SortedKeys`, `Labels`, `LabelCollisions`, `Fingerprint`, `FingerprintVectors`,
  `FingerprintLevels`, `FingerprintSeries`, `Billing`, `BillingRows`, `QueryLog`): label text, streaming fingerprint,
  billing against exported rows, interval scheduling.

`Tally` counts over sequences; `ByteValues` has byte constants as bit vectors; `Numbers` and `Wrappers` hold what several
modules use. `dafny verify dfyconfig.toml` checks everything.

Some promises turned out to hold only under a condition, which is stated exactly:

- spans of a sampled trace are forwarded once, whatever is evicted, as long as no evicted id comes back while the pipeline
  still holds it (`TailSampler.ExactlyOnce`, `TailSamplerLimits.EndangeredIffReturns`); and an evicted undecided trace is lost
  unless the ticker has loaded it (`TailSampler.LostUnlessLoaded`);
- float custom buckets (`NativeHistogram.FloatFormIsRight`), field paths (`FieldPath.RoundTrip`), regrouping by hash
  (`Regroup.OwnResourceIffNoCollision`), billing (`Billing.BillMatchesRows`, `Billing.ExactIffRegular`), query-log
  intervals (`QueryLog.Receiver.Run`);
- the text of a label set tells it from every other only when it has at most one label and that does not spell out two
  (`LabelCollisions.SharedIff`), since names are not escaped; sets whose names hold no delimiter are told apart
  (`LabelCollisions.SharedOnlyIfSplits`);
- chained fingerprints tell a resource and its scope, or a series, from others only when their keys are out of order
  (`FingerprintLevels.SharedIff`, `FingerprintSeries.SharedSeriesIff`, `FingerprintSeries.SharedWithExportedIff`);
- in a body whose maps are shared a write reaches more than its own path (`SharedMaps.SetReaches`,
  `BodySharing.CopyThenSet`), and in one that contains itself a value set may not be found again
  (`SharedMaps.ReadBackIff`, `BodySharing.CopyBodyThenSet`).

## Model

| member | source | states |
|---|---|---|
| TailSampler.ExactlyOnce | processor/signoztailsampler/processor.go:143-164 | in every interleaving, whatever it evicts, in which no evicted id comes back while the pipeline still holds it: each span of a sampled trace has been forwarded once or is held by exactly the goroutine or copy that will forward it, spans of other traces never are, every decision is sampled or not sampled, and an undecided trace on the map waits once for its decision or is being decided |
| TailSampler.ExactlyOnceAtRest | processor/signoztailsampler/processor.go:269-341 | once every goroutine is out of processTraces, the next consumer has received exactly the spans that arrived for the sampled traces |
| TailSampler.EvictedUndecidedIsLost | processor/signoztailsampler/processor.go:360-374 | after an undecided trace that the ticker has not loaded is evicted, no continuation decides it or forwards any span of it |
| TailSampler.LostUnlessLoaded | processor/signoztailsampler/processor.go:360-374 | an undecided trace that is evicted can still be decided exactly when the ticker has loaded it |
| TailSampler.GentleRunKeepsAll | processor/signoztailsampler/processor.go:143-164 | a run that evicts no undecided trace has no id coming back too early, and every undecided trace is on the map, waiting once or being decided |
| TailSamplerLimits.EndangeredIffReturns | processor/signoztailsampler/processor.go:284-307 | the condition is exact: where it held so far, an arrival has a continuation without further arrivals that forwards a span more often than it arrived if and only if its id is off the map and still in the pipeline |
| TailSamplerLimits.ReturnDoubles | processor/signoztailsampler/processor.go:155-163 | each span of an arrival that brings an id back too early can be forwarded at least twice as often as it arrived, because the trace is decided twice and its copy sent twice |
| TailSamplerLimits.OneTraceTwice | processor/signoztailsampler/processor.go:284-307 | a concrete schedule with room for one trace: one span arrives once and is forwarded twice |
| TailSamplerLimits.WorkOff | processor/signoztailsampler/processor.go:143-164 | the ticker can work off a batch, sending the trace of an id that is listed twice two times |
| TailSamplerLimits.Registered | processor/signoztailsampler/processor.go:282-320 | a goroutine with a new trace can always finish on its own: its id is queued once more and its spans join the trace |
| SamplingPipeline.DecidedInTime | processor/signoztailsampler/processor.go:139-170 | an id in the batch under construction when tick j comes, whose trace stays on the map, is decided once the ticker goroutine is through with tick j + numBatches (an id still on the pending channel goes into a later batch) |
| SamplingPipeline.RunAgrees | processor/signoztailsampler/processor.go:294-297 | in every joint run of sampler and batcher the sampler queue is what was added to the batcher and not yet returned |
| SamplingPipeline.TickPossible | processor/signoztailsampler/processor.go:139-141 | when the ticker is free and the batcher ready to return, the queue holds the batch, so the tick is a step of both |
| SamplingPipeline.Projected | processor/signoztailsampler/processor.go:139-141 | a joint run is a run of the sampler machine and one of the batcher machine |
| SamplingPipeline.TakenIsNext | processor/signoztailsampler/internal/idbatcher/id_batcher.go:107-133 | a take returns the ids that come next among those added |
| TailSampler.UndecidedIsUnsent | processor/signoztailsampler/processor.go:155-163 | in any schedule, evictions included, nothing of an undecided trace has been forwarded and nobody is about to |
| TailSampler.LostForGood | processor/signoztailsampler/processor.go:143-148 | a trace object that neither the map nor the ticker refers to stays undecided and unsent for the rest of the run |
| TailSampler.RunAccounted | processor/signoztailsampler/processor.go:143-164 | every run without such a return keeps all of: handles in range, table agreement, no id waiting twice, and the span accounts |
| TailSampler.RunSound | processor/signoztailsampler/processor.go:282-309 | every run, whatever it evicts, keeps the map, the delete channel and the counter in agreement and the channel within its bound |
| TailSampler.RunCounted | processor/signoztailsampler/processor.go:282-294 | in every run, returns and evictions included, the span count of each trace object is the number of spans that arrived for it |
| TailSampler.OnTableKept | processor/signoztailsampler/processor.go:294-308 | each key of the map is held exactly once, by the delete channel or by a goroutine on its way to or from it, and no other id is held; the counter lags the map by the registrations not yet counted |
| TailSampler.UnblockedKept | processor/signoztailsampler/processor.go:300-307 | the delete channel never exceeds its capacity, and a goroutine waits on an empty channel only while another is about to post to it |
| TailSampler.Progress | processor/signoztailsampler/processor.go:300-307 | a goroutine inside the retry loop always finds some enabled step: the loop cannot deadlock |
| TailSampler.TableAtRest | processor/signoztailsampler/processor.go:282-309 | with no registration in flight, the delete channel lists the keys of the map without repeats, the counter is the size of the map, and that is at most NumTraces |
| TailSampler.VictimTracked | processor/signoztailsampler/processor.go:368-371 | an id received from the delete channel is always on the table, so the "not on table" branch is unreachable |
| TailSampler.ScheduledKept | processor/signoztailsampler/processor.go:294-297 | no id waits twice in the pipeline, an undecided key of the map waits once until the ticker loads it, a decided one does not, and what the ticker has loaded is undecided |
| TailSampler.RetainedKept | processor/signoztailsampler/processor.go:360-374 | without eviction of undecided traces, only keys of the map wait and every undecided trace is on the map |
| TailSampler.SettledKept | processor/signoztailsampler/processor.go:311-338 | late spans carry the decision of their trace, and only sampled traces have a copy to send |
| TailSampler.AccountedKept | processor/signoztailsampler/processor.go:315-338 | span by span, arrivals equal what is received, held, consumed and discarded, by decision |
| TailSamplerProcessor.MakeDecision | processor/signoztailsampler/processor.go:181-243 | the first policy that decides wins, later ones are not asked, none means sampled; the per-policy decisions and the error count are those of the policies asked |
| TailSamplerProcessor.GroupSpansByTraceKey | processor/signoztailsampler/processor.go:254-267 | each group holds the spans of its trace in their order, and only traces with spans have one |
| TailSamplerProcessor.OfTraceAt | processor/signoztailsampler/processor.go:260-264 | a span stands in the group of its trace behind as many spans as came before it, and nothing else is in the group |
| TailSamplerProcessor.OfTraceCount | processor/signoztailsampler/processor.go:260-264 | grouping neither loses nor repeats a span |
| TailSamplerProcessor.Processor.LoadOrStore | processor/signoztailsampler/processor.go:282-294 | the trace objects, the map and the goroutine state after the load-or-store, as one Arrive step of the machine: the spans are added to the count of a trace that is on the map, and a new trace starts with theirs |
| TailSamplerProcessor.Processor.AddToBatchAndCount | processor/signoztailsampler/processor.go:296-297 | the id goes to the batcher, then the counter is incremented: two steps of the machine |
| TailSamplerProcessor.Processor.DropTrace | processor/signoztailsampler/processor.go:360-374 | removes one key and decrements the counter exactly when it was present |
| TailSamplerProcessor.Processor.DropOldest | processor/signoztailsampler/processor.go:304-307 | evicts the key posted first |
| TailSamplerProcessor.Processor.PostForDeletion | processor/signoztailsampler/processor.go:298-308 | undisturbed, the retry loop ends within two rounds, evicts at most the oldest key, and only when the channel was full |
| TailSamplerProcessor.Processor.RegisterGroup | processor/signoztailsampler/processor.go:282-309 | after an atomic registration the delete channel is the old one, less its oldest key when full, plus the new key, and the map has exactly those keys |
| TailSamplerProcessor.Processor.LockTrace | processor/signoztailsampler/processor.go:311-320 | under the lock: the spans join an undecided trace, otherwise nothing changes and its decision is carried away |
| TailSamplerProcessor.Processor.FinishLate | processor/signoztailsampler/processor.go:322-337 | late spans go to the next consumer exactly for a sampled trace |
| TailSamplerProcessor.Processor.ProcessGroup | processor/signoztailsampler/processor.go:281-340 | an undisturbed pass: the spans of a group end up with the undecided trace, with the next consumer or among the discarded ones, by the decision of the trace |
| TailSamplerProcessor.Processor.ProcessTraces | processor/signoztailsampler/processor.go:269-341 | every span of a batch arrives exactly once, whatever the order the groups are iterated in, through steps of the machine only |
| TailSamplerProcessor.Processor.Evaluate | processor/signoztailsampler/processor.go:181-243 | the decision of the policies on the trace as it is when they are asked, with the number of spans that arrived for it as its span count |
| TailSamplerProcessor.Processor.Settle | processor/signoztailsampler/processor.go:155-163 | whatever spans joined since, under the lock the decision is written and all received spans are copied; the copy is sent exactly for Sampled |
| TailSamplerProcessor.Processor.DecideTrace | processor/signoztailsampler/processor.go:149-163 | both, for a trace that nobody touches in between |
| TailSamplerProcessor.Processor.DecideNext | processor/signoztailsampler/processor.go:143-164 | an id not on the map is skipped, another one decided by its policies, its copy being sent exactly when it is sampled |
| TailSamplerProcessor.Processor.DecideBatch | processor/signoztailsampler/processor.go:143-164 | an undisturbed batch is worked off: which traces are decided, which copies are sent, and how many ids were missing from the map |
| TailSamplerProcessor.Processor.SamplingPolicyOnTick | processor/signoztailsampler/processor.go:136-164 | the same for the batch of a tick, each trace having the number of spans that arrived for it as its span count; as long as no id came back too early, every trace it decides was undecided and listed once, and is decided by its policies on the trace as it was |
| TailSamplerProcessor.BatchIsOrderly | processor/signoztailsampler/processor.go:294-297 | what the state machine says of a batch: no id is listed twice, no two ids share a trace, and listed traces are undecided |
| TailSamplerProcessor.TickDecides | processor/signoztailsampler/processor.go:143-164 | a tick decides each listed trace by its policies on the trace as it was, sends its spans exactly if that is Sampled, and touches no other trace |
| IdBatcher.RunInv | processor/signoztailsampler/internal/idbatcher/id_batcher.go:86-146 | every run of adds, filler transfers, takes and Stop keeps the pipeline, conservation and protocol invariants |
| IdBatcher.NeverPanicsNorBlocks | processor/signoztailsampler/internal/idbatcher/id_batcher.go:121-146 | between its receive and its push the reader never finds the batches channel closed, the push finds a free slot, and no channel holds more than its capacity |
| IdBatcher.FixedDelay | processor/signoztailsampler/internal/idbatcher/id_batcher.go:121-133 | the batch closed by take number j is returned by take number j + numBatches, whatever comes between |
| IdBatcher.FirstTakesAreEmpty | processor/signoztailsampler/internal/idbatcher/id_batcher.go:87-93 | the first numBatches takes return nothing |
| IdBatcher.DrainReturnsEverything | processor/signoztailsampler/internal/idbatcher/id_batcher.go:135-145 | once a take has returned false, the takes together have returned every added id, once and in order |
| IdBatcher.TakesInOrder | processor/signoztailsampler/internal/idbatcher/id_batcher.go:86-133 | at any time of any run the takes together have returned the first of the added ids, in order |
| IdBatcher.StopProgress | processor/signoztailsampler/internal/idbatcher/id_batcher.go:140-146 | until Stop has returned some step is possible, and a measure of what is left to do falls |
| IdBatcher.ConservedKept | processor/signoztailsampler/internal/idbatcher/id_batcher.go:105-112 | every added id is in exactly one place of the pipeline, in order |
| IdBatcherCode.Batcher.New | processor/signoztailsampler/internal/idbatcher/id_batcher.go:78-115 | which arguments are refused, with which error, and the initial state |
| IdBatcherCode.Batcher.AddToCurrentBatch | processor/signoztailsampler/internal/idbatcher/id_batcher.go:117-119 | the id joins the pending ones |
| IdBatcherCode.Batcher.Transfer | processor/signoztailsampler/internal/idbatcher/id_batcher.go:106-110 | the oldest pending id moves to the end of the current batch, as two steps of the machine |
| IdBatcherCode.Batcher.Fill | processor/signoztailsampler/internal/idbatcher/id_batcher.go:105-112 | once the pending channel is empty, the current batch has gained all its ids, in order |
| IdBatcherCode.Batcher.CloseCurrentAndTakeFirstBatch | processor/signoztailsampler/internal/idbatcher/id_batcher.go:121-138 | which batch is returned, with which flag, and what is pushed into the pipeline, before and after Stop |
| IdBatcherCode.Batcher.Stop | processor/signoztailsampler/internal/idbatcher/id_batcher.go:140-146 | Stop leaves the batcher stopped with nothing pending: what was pending is at the end of the current batch, in order |
| IdBatcherCode.Batcher.Drain | processor/signoztailsampler/internal/idbatcher/id_batcher.go:121-146 | takes repeated after Stop return all that was added and not yet returned |
| DimensionsCache.Cache.Add | processor/signozspanmetricsprocessor/internal/cache/cache.go:58-60 | what can be retrieved gains the entry and loses nothing; the recency order, and which key falls out of the LRU |
| DimensionsCache.Cache.Get | processor/signozspanmetricsprocessor/internal/cache/cache.go:63-76 | a lookup returns what can be retrieved and changes none of it, although it may move one entry out of the side map and another into it |
| DimensionsCache.Cache.EvictOldest | processor/signozspanmetricsprocessor/internal/cache/cache.go:34-47 | the evicted entry moves to the side map |
| DimensionsCache.Cache.RemoveEvictedItems | processor/signozspanmetricsprocessor/internal/cache/cache.go:50-55 | afterwards only the LRU can be retrieved |
| DimensionsCache.Cache.Purge | processor/signozspanmetricsprocessor/internal/cache/cache.go:88-91 | afterwards nothing can be retrieved, although purging the LRU reports its entries as evicted |
| DimensionsCache.Cache.Contains | processor/signozspanmetricsprocessor/internal/cache/cache.go:78-80 | says whether the LRU holds the key, the side map not counting |
| DimensionsCache.Cache.Bounded | processor/signozspanmetricsprocessor/internal/cache/cache.go:34-47 | keys within the LRU are at most its size |
| DimensionsCache.Cache.HoldsAll | processor/signozspanmetricsprocessor/internal/cache/cache.go:34-76 | as long as there are no more keys than the LRU may hold, it holds them all and the side map is empty |
| DimensionsCache.TouchedIsRecent | processor/signozspanmetricsprocessor/internal/cache/cache.go:34-47 | using a key keeps the recency list the keys used last, in the order of their last uses |
| DimensionsCache.Cache.HeldIff | processor/signozspanmetricsprocessor/internal/cache/cache.go:34-76 | the LRU holds a key exactly when at most as many different keys as it has room for were used since the key was |
| LatencyHistogram.SearchFloat64s | processor/signozspanmetricsprocessor/processor.go:1083 | binary search returns the index the recursive definition names |
| LatencyHistogram.SearchFindsBucket | processor/signozspanmetricsprocessor/processor.go:1083 | with sorted bounds the index is the bucket (b[i-1], b[i]] of the value |
| LatencyHistogram.BucketIsUnique | processor/signozspanmetricsprocessor/processor.go:1083 | every value lies in exactly one bucket |
| LatencyHistogram.ObserveBuckets | processor/signozspanmetricsprocessor/processor.go:1071-1086 | one observation keeps a histogram the exact bucketing of its log |
| LatencyHistogram.BucketsSumToCount | processor/signozspanmetricsprocessor/processor.go:1071-1086 | the buckets add up to the count |
| LatencyHistogram.BucketsByInterval | processor/signozspanmetricsprocessor/processor.go:1071-1086 | with sorted bounds bucket i counts the latencies in (b[i-1], b[i]] |
| LatencyHistogram.SumOfEach | processor/signozspanmetricsprocessor/processor.go:1071-1086 | every latency is in the sum once |
| SpanMetrics.ObserveExact | processor/signozspanmetricsprocessor/processor.go:1071-1086 | an observation keeps every histogram of the map the exact bucketing of its log |
| SpanMetrics.ReportedIsExact | processor/signozspanmetricsprocessor/processor.go:638-665 | what a build reports is one point per key, each the exact bucketing of what was observed since the key was created |
| SpanMetrics.BucketsAreRight | processor/signozspanmetricsprocessor/processor.go:1071-1086 | the buckets of a reported point add up to its count, and with sorted bounds bucket i counts the latencies in (b[i-1], b[i]] |
| SpanMetrics.TruthfulIsRight | processor/signozspanmetricsprocessor/processor.go:638-665 | so every point of every build in the history of an instrument is right: the dimensions of the observation that created its entry, the data of the observations since then, and the exemplars of those since the last build |
| SpanMetrics.SinceCreated | processor/signozspanmetricsprocessor/processor.go:1071-1086 | the log of a key is all that was observed of it since the observation that created its entry, whose dimensions it has, and no build has dropped it since |
| SpanMetrics.AbsentIff | processor/signozspanmetricsprocessor/processor.go:583-622 | a key has no entry exactly when none of its observations came after the last build that dropped it |
| SpanMetrics.DeltaAccount | processor/signozspanmetricsprocessor/processor.go:1056-1068 | under delta temporality, for each key and bucket, exported and pending counts add up to all observations |
| SpanMetrics.Instrument.CacheDimensions | processor/signozspanmetricsprocessor/processor.go:1355-1360 | the key becomes retrievable, with its old dimensions if it had any, and no other key is lost |
| SpanMetrics.Instrument.WithSample | processor/signozspanmetricsprocessor/processor.go:1071-1086 | the updated histogram is the specified one |
| SpanMetrics.Instrument.Update | processor/signozspanmetricsprocessor/processor.go:1071-1086 | the history gains the observation with its dimensions, and every histogram is still the exact bucketing of its log |
| SpanMetrics.Instrument.Record | processor/signozspanmetricsprocessor/processor.go:992-1005 | caching and then updating: the history gains the observation with these dimensions, and all that is kept is that of the longer history |
| SpanMetrics.Instrument.Collect | processor/signozspanmetricsprocessor/processor.go:638-665 | no lookup fails, in any iteration order, and each histogram is reported once with its dimensions |
| SpanMetrics.Instrument.DropUnheld | processor/signozspanmetricsprocessor/processor.go:589-614 | exactly the histograms of keys outside the LRU are deleted |
| SpanMetrics.Instrument.Prune | processor/signozspanmetricsprocessor/processor.go:583-614 | the remaining keys are those of the LRU, at most as many as it may hold; if there were no more, nothing is dropped |
| SpanMetrics.Instrument.Reset | processor/signozspanmetricsprocessor/processor.go:1056-1068 | nothing is left, in the histograms or in the cache |
| SpanMetrics.Instrument.ResetExemplars | processor/signozspanmetricsprocessor/processor.go:1160-1173 | only exemplars are dropped |
| SpanMetrics.Instrument.RecordBuild | processor/signozspanmetricsprocessor/processor.go:583-622 | the history gains the build with its points and the keys it kept, and the histograms are those of the longer history |
| SpanMetrics.Instrument.FinishBuild | processor/signozspanmetricsprocessor/processor.go:583-622 | what a build leaves, under delta and under cumulative temporality |
| SpanMetricsProcessor.Processor.AggregateSpan | processor/signozspanmetricsprocessor/processor.go:969-1026 | which histories gain an observation of the span, under which key, with which dimensions and with which latency |
| SpanMetricsProcessor.Processor.CollectFirst | processor/signozspanmetricsprocessor/processor.go:638-665 | the first three collectors report everything and none fails |
| SpanMetricsProcessor.Processor.CollectLast | processor/signozspanmetricsprocessor/processor.go:669-735 | the last two collectors report everything and none fails |
| SpanMetricsProcessor.Processor.BuildMetrics | processor/signozspanmetricsprocessor/processor.go:561-623 | a build succeeds, reports every histogram of all five maps with its dimensions, enters the histories with these points, and leaves all keys within the LRUs |
| SpanMetricsProcessor.Processor.Serve | processor/signozspanmetricsprocessor/processor.go:526-623 | over any sequence of spans and exports no build fails, and the history of each instrument is one observation per accepted span that reaches it and one build, with the exported points, per export; so, for both temporalities, every exported point has the dimensions of the accepted span that created its entry, the exact buckets of the accepted spans of its key since then and the exemplars since the last build, and under delta every accepted span is counted once |
| LogExporter.RunGroup | exporter/clickhouselogsexporter/exporter.go:466-658 | under every scheduler the push ends, with every worker done; they advance one at a time, never more than cap(limiter) of them between taking and releasing a slot, nothing is sent on the closed channel, and the batch is complete |
| LogExporter.PushToClickhouse | exporter/clickhouselogsexporter/exporter.go:466-658 | then a record is appended once if the first of its timestamp, its observed time and the clock that is not 0 is not before the oldest allowed time, and otherwise not at all; its row has these times, the half-hour bucket of its time, and the fingerprint registered for bucket and resource, and exactly those resources are registered, each with the fingerprint of one of its records |
| LogExporter.BucketHolds | exporter/clickhouselogsexporter/exporter.go:390-393 | the bucket of a time is the start of the half hour that holds it |
| LogExporter.SomeStep | exporter/clickhouselogsexporter/exporter.go:466-658 | until the group is done some step is possible: the protocol does not deadlock |
| LogExporter.SendStep | exporter/clickhouselogsexporter/exporter.go:622-641 | a send puts exactly one row of the record in flight, with its bucket and the fingerprint it was given |
| LogExporter.RegisterStep | exporter/clickhouselogsexporter/exporter.go:603-612 | the first worker of a bucket and resource fixes the fingerprint, the others take it |
| LogExporter.AllDelivered | exporter/clickhouselogsexporter/exporter.go:648-658 | when all workers are done and the channel is empty, the batch is complete |
| LogExporter.GetOrCreateFingerprint | exporter/clickhouselogsexporter/exporter.go:170-185 | the first fingerprint of a key is kept |
| Baseline.ClassifyBaselineState | cmd/siginsightschemamigrator/schema_migrator/baseline.go:90-129 | empty exactly when the database holds nothing; complete exactly when its history is the finished baseline and finished registered migrations only; the sorted lists name exactly the offending ids |
| Baseline.CombineBaselineInspections | cmd/siginsightschemamigrator/schema_migrator/baseline_report.go:22-40 | empty or complete exactly when there is a database and all are; incompatible otherwise |
| Baseline.ValidatePostBaselineMigrations | cmd/siginsightschemamigrator/schema_migrator/post_baseline_migrations.go:32-82 | accepts exactly the well-formed registries: known databases, ids from 2000 increasing in each database and phase, no key twice, no empty or reversible migration, every operation in its phase |
| Baseline.ValidatePhase | cmd/siginsightschemamigrator/schema_migrator/post_baseline_migrations.go:37-76 | one pass accepts exactly the well-formed lists whose keys were not seen before, and collects their keys |
| Baseline.ValidateOperations | cmd/siginsightschemamigrator/schema_migrator/post_baseline_migrations.go:65-73 | accepts exactly lists of non-nil operations, in the synchronous phase those that are forced or are light, repeatable and no mutations, in the asynchronous phase the others |
| Baseline.PhaseOkStep | cmd/siginsightschemamigrator/schema_migrator/post_baseline_migrations.go:52-55 | comparing with the last id of the database is comparing with all of them |
| Baseline.PrerequisitePostBaselineMigrations | cmd/siginsightotelcollector/migrate/post_baseline.go:115-133 | returns exactly the same-database, lower-id migrations, synchronous ones always and asynchronous ones in the asynchronous phase |
| Baseline.AllPostBaselineMigrations | cmd/siginsightschemamigrator/schema_migrator/post_baseline_migrations.go:89-106 | both registries together, sorted by database and id |
| Baseline.SortInOrder | cmd/siginsightschemamigrator/schema_migrator/post_baseline_migrations.go:93-104 | sorting puts migrations of known databases in order |
| Baseline.PostBaselineMigrationIds | cmd/siginsightschemamigrator/schema_migrator/post_baseline_migrations.go:108-116 | returns exactly the registered ids of a database, in increasing order |
| Migrations.DdlStep | cmd/siginsightotelcollector/migrate/baseline.go:30-47 | issuing one more baseline statement keeps the history safe: none is issued again once one took effect in an earlier run |
| Migrations.StartStep | cmd/siginsightotelcollector/migrate/post_baseline.go:55-60 | issuing one more operation keeps the history safe |
| Migrations.CheckStep | cmd/siginsightotelcollector/migrate/baseline.go:100-114 | a schema check keeps the history safe |
| Migrations.MarkStep | cmd/siginsightschemamigrator/schema_migrator/manager.go:173-177 | writing a marker keeps the history safe when a finished one is backed by acknowledged operations |
| Migrations.RunBegins | cmd/siginsightotelcollector/migrate/post_baseline.go:29-35 | a new run starts with nothing issued, and in a pristine cluster no statement ever took effect |
| Migrations.NotStarted | cmd/siginsightotelcollector/migrate/post_baseline.go:41-49 | a migration without a marker has never been started |
| MigrationsCode.Manager.InsertMigrationEntry | cmd/siginsightschemamigrator/schema_migrator/manager.go:173-177 | an acknowledged insert is durable, a failed one may or may not be, and without a tracking table there is none |
| MigrationsCode.Manager.MigrationStatus | cmd/siginsightschemamigrator/schema_migrator/manager.go:185-199 | an answer tells the marker as it is |
| MigrationsCode.Manager.InspectBaselineState | cmd/siginsightschemamigrator/schema_migrator/baseline.go:52-86 | the inspection judges the durable state itself, as empty or as complete |
| MigrationsCode.Manager.InspectCanonicalBaselineState | cmd/siginsightschemamigrator/schema_migrator/baseline_report.go:10-20 | the report is empty exactly for a pristine cluster and complete exactly for a healthy one |
| MigrationsCode.Manager.RunBaselineOperation | cmd/siginsightschemamigrator/schema_migrator/manager.go:156-171 | one statement is issued once; acknowledged means its table is there |
| MigrationsCode.Manager.CreateBaseline | cmd/siginsightotelcollector/migrate/baseline.go:30-47 | done means every statement of every database was acknowledged, in order, in this run; a failed statement is fatal and shows as a failed marker, if that could be written |
| MigrationsCode.Manager.VerifyCanonicalSchema | cmd/siginsightotelcollector/migrate/baseline.go:105-111 | one check is made, and its verdict is on the log |
| MigrationsCode.Manager.VerifyCanonicalSchemas | cmd/siginsightotelcollector/migrate/baseline.go:100-114 | done means every database was checked and matched in this run; a mismatch is fatal, an unanswered query may be tried again, and either ends the checks |
| MigrationsCode.Manager.MarkBaseline | cmd/siginsightotelcollector/migrate/baseline.go:59-80 | done means every database carries a finished baseline marker and no other marker was added; a failure may be tried again |
| MigrationsCode.Manager.EnsureCanonicalBaseline | cmd/siginsightotelcollector/migrate/baseline.go:15-83 | done means healthy; a cluster that is not pristine is left untouched; after a check that did not match or was not answered the markers are as they were, and the run ends with a fatal error, or with one that may be retried; without faults a pristine or healthy cluster succeeds |
| MigrationsCode.Manager.RequireCanonicalBaseline | cmd/siginsightotelcollector/migrate/baseline.go:85-98 | passes only on a healthy cluster, and always on one when nothing fails; a fatal refusal means the registry or the cluster is not in order |
| MigrationsCode.Manager.RequireEarlierPostBaselineMigrations | cmd/siginsightotelcollector/migrate/post_baseline.go:94-113 | passes only when every prerequisite is finished, and always then when nothing fails; a fatal refusal means that one is not |
| MigrationsCode.Manager.RunOperations | cmd/siginsightotelcollector/migrate/post_baseline.go:55-60 | operations are issued in order, each once, and the first failure ends the run with a fatal error and shows as a failed marker, if that could be written |
| MigrationsCode.Manager.RunMigration | cmd/siginsightotelcollector/migrate/post_baseline.go:52-63 | done means all operations were acknowledged and the marker is finished; an error that may be retried means that none was issued |
| MigrationsCode.Manager.RunItem | cmd/siginsightotelcollector/migrate/post_baseline.go:37-64 | a marked migration is passed over or stops the run, never started again |
| MigrationsCode.Manager.RunPostBaselineMigrations | cmd/siginsightotelcollector/migrate/post_baseline.go:29-67 | done means the phase is finished on a healthy cluster and no other marker changed; without faults it succeeds when its prerequisites are met |
| MigrationsCode.Manager.SyncUp | cmd/siginsightotelcollector/migrate/sync_up.go:101-106 | one synchronous run, cut short anywhere, keeps all invariants; done means healthy and the synchronous phase finished; a run that died is reported so, and after a failed statement or a mismatch the error is not one to retry |
| MigrationsCode.Manager.AsyncUp | cmd/siginsightotelcollector/migrate/async_up.go:102-104 | the same for one asynchronous run |
| MigrationsCode.Manager.Operate | cmd/siginsightotelcollector/migrate/sync_up.go:73-106 | over any sequence of runs, with a crash or error at any call: baseline DDL is never issued again by another run once one took effect, each operation is started at most once and in order, only when its prerequisites and the baseline are finished, and a finished marker written by a run stands for operations that all succeeded, a baseline one for all statements acknowledged and then all schemas checked and matching, in one run; if the last run is done, its phase is finished |
| MigrationsCode.Manager.Install | cmd/siginsightotelcollector/migrate/sync_up.go:101-106 | without faults one synchronous and one asynchronous run finish every registered migration of a fresh cluster |
| ClassicHistogram.ReceiveAndExport | receiver/prometheusreceiver/internal/metricfamily.go:102-165 | a scrape with whole, non-decreasing cumulative counts and distinct boundaries, in any order, becomes a point whose bounds rise and whose bucket counts add up, bound by bound, to the scraped counts, and rows in rising order that are exactly the scraped (boundary, count) pairs and +Inf with the total; a stale one gives zeros |
| ClassicHistogram.RoundTrip | exporter/signozclickhousemetrics/exporter.go:499-574 | the same law on the point and the rows |
| ClassicHistogram.ArrivalOrder | receiver/prometheusreceiver/internal/metricfamily.go:462-486 | two orders of the same series give the same point |
| ClassicHistogram.SortPointsSorts | receiver/prometheusreceiver/internal/metricfamily.go:96-100 | sorting permutes the points into order, strictly when boundaries are distinct |
| ClassicHistogram.SameMembersSameSeq | receiver/prometheusreceiver/internal/metricfamily.go:96-100 | there is one strictly increasing order of a set of points |
| ClassicHistogram.SortedRises | receiver/prometheusreceiver/internal/metricfamily.go:130-165 | sorted and without +Inf, cumulative points rise by position and are exactly the finite ones |
| ClassicHistogram.AccumulatedIsCumulative | exporter/signozclickhousemetrics/exporter.go:504-506 | adding the differences back up gives the scraped counts, with no uint64 overflow on the way |
| ClassicHistogram.Difference | receiver/prometheusreceiver/internal/metricfamily.go:130-165 | the bounds and bucket counts of a point, a last +Inf bucket dropped, zeros when stale |
| ClassicHistogram.MetricGroup.AddSeries | receiver/prometheusreceiver/internal/metricfamily.go:462-486 | which field of the group each series sets, and when it is an error |
| ClassicHistogram.MetricGroup.ToDistributionPoint | receiver/prometheusreceiver/internal/metricfamily.go:102-189 | the whole point, or none without a count |
| ClassicHistogram.AddBucketSample | exporter/signozclickhousemetrics/exporter.go:499-574 | one row per bound, with the running count, then +Inf with the count |
| NativeHistogram.DeltaBuckets | receiver/prometheusreceiver/internal/metricfamily.go:266-282 | each bucket is at its Prometheus index less the first offset and holds its running sum, all other slots hold zero, and the total is preserved |
| NativeHistogram.ConvertDeltaBuckets | receiver/prometheusreceiver/internal/metricfamily.go:266-282 | the array is the dense layout of the running sums, for all deltas, int64 overflow included |
| NativeHistogram.ConvertAbsoluteBuckets | receiver/prometheusreceiver/internal/metricfamily.go:284-298 | the array is the dense layout of the converted counts |
| NativeHistogram.ConvertBothWays | receiver/prometheusreceiver/internal/metricfamily.go:266-298 | deltas and their running sums convert to the same array |
| NativeHistogram.SlotIsIndex | receiver/prometheusreceiver/internal/metricfamily.go:266-282 | a slot of the dense layout is a Prometheus index less the first offset |
| NativeHistogram.DenseAt | receiver/prometheusreceiver/internal/metricfamily.go:284-298 | bucket i of span s stands right after the gap before the span |
| NativeHistogram.OneMoreSpan | receiver/prometheusreceiver/internal/metricfamily.go:266-298 | one more span adds as many empty slots as its offset says and then its buckets, and the Prometheus index goes on as much; the first span leaves none |
| NativeHistogram.GapsAreEmpty | receiver/prometheusreceiver/internal/metricfamily.go:271-275 | slots between spans hold zero |
| NativeHistogram.DenseTotal | receiver/prometheusreceiver/internal/metricfamily.go:266-298 | the dense layout holds as many observations as the buckets |
| NativeHistogram.RunningSum | receiver/prometheusreceiver/internal/metricfamily.go:269-279 | an int64 running sum shows the same 64 bits as the exact one |
| NativeHistogram.ConvertNHCBDeltaBuckets | receiver/prometheusreceiver/internal/metricfamily.go:301-324 | what comes out for every histogram, valid or not, with no index out of range; the padded dense layout of the running sums for one that fits |
| NativeHistogram.WalkedDeltas | receiver/prometheusreceiver/internal/metricfamily.go:311-322 | in a histogram that fits no guard cuts a span short: span by span the slots are those of the padded dense layout |
| NativeHistogram.WalkedCounts | receiver/prometheusreceiver/internal/metricfamily.go:333-343 | likewise for the float form, with what it reads |
| NativeHistogram.PaddedTotal | receiver/prometheusreceiver/internal/metricfamily.go:301-345 | the padded layout preserves the total |
| NativeHistogram.ConvertNHCBAbsoluteBuckets | receiver/prometheusreceiver/internal/metricfamily.go:327-345 | what comes out for every histogram; for one that fits the padded layout of what the float form reads, whose source index restarts in every span |
| NativeHistogram.FloatFormIsRight | receiver/prometheusreceiver/internal/metricfamily.go:335-342 | the float form places the counts of a histogram right exactly when every span repeats the first counts |
| NativeHistogram.FloatFormForAllCounts | receiver/prometheusreceiver/internal/metricfamily.go:335-342 | so it is right for all counts exactly when at most one span is non-empty |
| NativeHistogram.WrongForTwoSpans | receiver/prometheusreceiver/internal/metricfamily.go:335-342 | with two non-empty spans, concrete counts come out wrong |
| FieldPath.FromJSONDot | processor/signozlogspipelineprocessor/stanza/entry/field.go:131-204 | the six-state scanner computes the recursive grammar, errors included |
| FieldGrammar.AcceptedIff | processor/signozlogspipelineprocessor/stanza/entry/field.go:131-204 | a path is accepted with certain keys exactly when it is written from them: bare keys, or keys in brackets and quotes of either kind, a dot before a bare one |
| FieldGrammar.RefusedIff | processor/signozlogspipelineprocessor/stanza/entry/field.go:131-204 | a path is refused with a certain error exactly when it has that defect |
| FieldPath.ToJSONDot | processor/signozlogspipelineprocessor/stanza/entry/field.go:207-238 | the printer writes the bracketed form exactly when some key has a dot |
| FieldPath.RoundTrip | processor/signozlogspipelineprocessor/stanza/entry/field.go:131-238 | parsing undoes printing exactly when, with a dot in some key, no key has a single quote and, with none, no key has an opening bracket |
| FieldPath.PrintIsInjective | processor/signozlogspipelineprocessor/stanza/entry/field.go:207-238 | distinct fields with such keys print differently |
| FieldPath.DottedBack | processor/signozlogspipelineprocessor/stanza/entry/field.go:174-181 | in the dotted form keys come back whole, or the first one with a bracket comes back cut |
| FieldPath.BracketedBack | processor/signozlogspipelineprocessor/stanza/entry/field.go:147-173 | in the bracketed form keys come back whole, or the first one with a single quote comes back cut |
| BodyField.Entry.Get | processor/signozlogspipelineprocessor/stanza/entry/body_field.go:102-127 | the walk of the path, through what a non-map body parses to if anything |
| BodyField.Entry.Set | processor/signozlogspipelineprocessor/stanza/entry/body_field.go:131-157 | in any body, exactly which paths a value set reaches, and where they lead then; if the body is a tree, for every path: the value is there with nothing below it, steps to it are maps and old maps stay, all other paths lead where they did; a map value is merged instead |
| BodyField.Entry.SetLeaf | processor/signozlogspipelineprocessor/stanza/entry/body_field.go:138-156 | the same for a value that is no map |
| BodyField.Entry.Merge | processor/signozlogspipelineprocessor/stanza/entry/body_field.go:161-175 | in any body, exactly which paths the entries written reach; if body and given map are separate trees: below the target, keys of the given map lead where they did from it, the others where they did before, and nothing else changes |
| BodyField.Entry.CopyEntries | processor/signozlogspipelineprocessor/stanza/entry/body_field.go:172-174 | the loop overlays the entries in whatever order |
| BodyField.Entry.GetNestedMap | processor/signozlogspipelineprocessor/stanza/entry/field.go:242-255 | an existing map is returned untouched, otherwise a new empty one is put there; in a tree only the walk of that path changes |
| BodyField.Entry.OpenPath | processor/signozlogspipelineprocessor/stanza/entry/body_field.go:149-155 | from the first step that is no map on, new maps are put in place, and nothing else is written; in a tree no other path changes |
| BodyField.Entry.Delete | processor/signozlogspipelineprocessor/stanza/entry/body_field.go:179-205 | returns what was there; in any body exactly the paths through the entry removed are gone; in a tree these are the path and everything below; an absent path changes nothing |
| BodyField.Entry.SetThenDelete | processor/signozlogspipelineprocessor/stanza/entry/body_field.go:131-205 | in a tree, deleting what was set gives it back, leaves the path absent and unrelated paths alone |
| NestedMaps.Elsewhere | processor/signozlogspipelineprocessor/stanza/entry/body_field.go:151 | in a body that is a tree, a write in place is seen only below the entry written |
| NestedMaps.UnsharedKept | processor/signozlogspipelineprocessor/stanza/entry/body_field.go:151 | a body stays a tree when what is written is one, apart from the rest |
| NestedMaps.MergeWritten | processor/signozlogspipelineprocessor/stanza/entry/body_field.go:172-174 | in a tree, the effect of overlaying one map on another, on every path |
| SharedMaps.NotReached | processor/signozlogspipelineprocessor/stanza/entry/body_field.go:151 | in any body, shared or cyclic, a path that does not pass through what was written leads where it did |
| SharedMaps.Reached | processor/signozlogspipelineprocessor/stanza/entry/body_field.go:151 | a path that does goes on, where it first does, from what was written |
| SharedMaps.SetReaches | processor/signozlogspipelineprocessor/stanza/entry/body_field.go:131-157 | setting a value reaches exactly the paths through one entry of one map, found on the way |
| SharedMaps.MergeReaches | processor/signozlogspipelineprocessor/stanza/entry/body_field.go:172-174 | merging reaches exactly the paths through the entries written |
| SharedMaps.DeleteReaches | processor/signozlogspipelineprocessor/stanza/entry/body_field.go:197-200 | deleting removes exactly the paths through the entry |
| SharedMaps.ReadBackIff | processor/signozlogspipelineprocessor/stanza/entry/body_field.go:131-157 | what was set can be read back exactly when the steps up to the entry written do not go through it |
| SharedMaps.OpenedLeads | processor/signozlogspipelineprocessor/stanza/entry/field.go:242-255 | an opened path leads to the map it was opened to |
| BodySharing.CopyThenSet | processor/signozlogspipelineprocessor/stanza/entry/body_field.go:131-175 | the frame law of trees fails after a copy: with a map copied from a to b, setting b.x.y changes a.x.y |
| BodySharing.CopyBodyThenSet | processor/signozlogspipelineprocessor/stanza/entry/body_field.go:131-175 | a concrete body in which a value set is not found again: with the whole body copied to a, which then contains itself, setting a.a.a puts the value at a.a |
| Labels.MarshalLabels | internal/common/fingerprint/label.go:22-65 | the appended text is the one text of the label set |
| Labels.NewLabelsAsJSONString | internal/common/fingerprint/label.go:7-17 | the text is that of the merged maps, later ones winning, with the name last |
| Labels.RoundTrip | internal/common/fingerprint/label.go:22-65 | this reader, which ends a name where a value begins and takes only the five escapes in a value and no bare line break, return or tab, gives the labels back exactly when no name holds `":"` or ends in `":`; which sets no reader can tell apart is LabelCollisions.SharedIff |
| Labels.TextIdentifies | internal/common/fingerprint/label.go:22-65 | the text does not depend on the order of the map, and identifies label sets none of whose names holds `":"` or ends in `":` |
| LabelCollisions.SharedIff | internal/common/fingerprint/label.go:22-65 | a label set shares its text with another exactly when it has at least two labels, which all read as one with quotes in its name, or one whose name spells out two: a name, a value and a later name, with the delimiters between them |
| LabelCollisions.SamePair | internal/common/fingerprint/label.go:39-58 | one label is read from its text in one way, whatever its name holds |
| LabelCollisions.JoinedFirst | internal/common/fingerprint/label.go:34-60 | labels that are read as one spell out the first of them and the rest |
| LabelCollisions.QuoteCollides | internal/common/fingerprint/label.go:39-42 | for every two names in order there is a quoted name with which one label shares the text of two |
| LabelCollisions.SharedOnlyIfSplits | internal/common/fingerprint/label.go:22-65 | two different label sets share their text only if some name of one of them holds `":"` or ends in `":` |
| LabelCollisions.ColonCollides | internal/common/fingerprint/label.go:39-42 | a concrete input: two sets share their text although no name of either spells out two labels |
| Labels.ValueBack | internal/common/fingerprint/label.go:44-58 | escaping of values is reversible |
| SortedKeys.KeysInOrder | internal/common/fingerprint/label.go:24-30 | collects the keys in byte order, whatever order they come in |
| SortedKeys.OneOrder | internal/common/fingerprint/label.go:28-30 | a set of keys has one ascending order |
| Fingerprint.NewFingerprint | internal/common/fingerprint/fingerprint.go:25-56 | the hash is the FNV-1a fold, from the offset, of the one encoding of the attributes with the extras winning |
| Fingerprint.FingerprintState.HashWithName | internal/common/fingerprint/fingerprint.go:74-80 | the fold of the encoding followed by the name suffix |
| Fingerprint.HashAdd | internal/common/fingerprint/hash.go:10-16 | adding a string is folding its bytes |
| FingerprintVectors.TwoLabels | internal/common/fingerprint/fingerprint_test.go:10-17 | the fingerprint of two labels is the one the test of the repository expects |
| Fingerprint.FoldAppend | internal/common/fingerprint/hash.go:10-23 | hashing in pieces is hashing at once |
| Fingerprint.EncodingIsUnique | internal/common/fingerprint/fingerprint.go:36-40 | an attribute set has one encoding, whatever the map order |
| Fingerprint.EncodingIdentifies | internal/common/fingerprint/fingerprint.go:42-48 | without byte 255, equal encodings mean equal attributes and, with the suffix, equal names |
| Fingerprint.Chained | exporter/signozclickhousemetrics/exporter.go:961-975 | resource, scope and point fingerprints hash the three encodings as one text |
| FingerprintLevels.SharedIff | exporter/signozclickhousemetrics/exporter.go:961-975 | for plain text, another resource and scope hash the same text exactly when not both levels are empty and every resource key sorts before every scope key |
| FingerprintLevels.ScopedSharedIff | exporter/signozclickhousemetrics/exporter.go:970-974 | among pairs whose scopes carry their name, as the exporter always adds it, exactly when besides some attribute sorts before that name |
| FingerprintLevels.FullyScopedSharedIff | exporter/signozclickhousemetrics/exporter.go:970-974 | the same among pairs whose scopes carry all three keys the exporter adds |
| FingerprintLevels.Identifiable | exporter/signozclickhousemetrics/exporter.go:970-974 | a resource key that sorts after the scope name makes the pair identifiable |
| FingerprintLevels.ServiceNameIdentifies | exporter/signozclickhousemetrics/exporter.go:970-974 | so does a service name among the resource attributes |
| FingerprintLevels.OneLevel | exporter/signozclickhousemetrics/exporter.go:961-975 | in order, the text of the two levels is that of all their attributes on one |
| FingerprintLevels.CutTwice | internal/common/fingerprint/fingerprint.go:36-40 | a list of keys that is cut in two ways into ascending parts ascends at the cut |
| FingerprintSeries.SharedSeriesIff | exporter/signozclickhousemetrics/exporter.go:319-333 | for plain text, another series (resource, scope, point and metric name) is hashed as the same text exactly when some level has an attribute and the keys do not descend both from the resource to the scope and from the scope to the point |
| FingerprintSeries.SharedWithExportedIff | exporter/signozclickhousemetrics/exporter.go:319-333 | among the series the exporter writes, with its three keys in every scope and the temporality in every point, exactly when the upper levels are in order and a key sorts before the scope keys or the point has those keys too, or the lower levels are in order and a key sorts between the scope keys and the temporality or the resource has the scope keys too |
| FingerprintSeries.CutThree | internal/common/fingerprint/fingerprint.go:36-40 | a list of keys that is cut in two ways into three ascending parts ascends at one end of the first middle part |
| FingerprintSeries.CutsDiffer | internal/common/fingerprint/fingerprint.go:36-40 | what two such cuts that keep the exporter keys in their parts say about the keys |
| Regroup.ConvertEntriesToPlogs | processor/signozlogspipelineprocessor/utils.go:15-51 | one group per hash and one scope per name, in first-seen order, entries in input order, the index maps holding exact positions throughout |
| Regroup.NothingLost | processor/signozlogspipelineprocessor/utils.go:15-51 | the output holds every entry exactly as often as the input |
| Regroup.OwnResourceIffNoCollision | processor/signozlogspipelineprocessor/utils.go:23-30 | entries end up under their own resource exactly when no two resources share a hash |
| Regroup.Position | processor/signozlogspipelineprocessor/utils.go:36-46 | every entry is found under its hash and its scope |
| Regroup.InGroup | processor/signozlogspipelineprocessor/utils.go:23-46 | what is in a group is an input entry of that hash and scope |
| Regroup.FirstSeenDistinct | processor/signozlogspipelineprocessor/utils.go:23-30 | no resource group is opened twice |
| Regroup.GroupGrows | processor/signozlogspipelineprocessor/utils.go:35-48 | an entry more in a group goes to the end of its scope, a new scope being added last |
| Billing.CountPerResource | pkg/metering/v1/metrics.go:59-128 | the count is the sum of the bills of the data points under billed names |
| Billing.PrepareBatch | exporter/signozclickhousemetrics/exporter.go:956-1005 | the sample rows are those of all data points, point after point |
| BillingRows.ExportedIff | exporter/signozclickhousemetrics/exporter.go:305-609 | a row is exported exactly when some metric comes to it: a number; a histogram point count, its sum, minimum or maximum if it has one, and its running bucket counts; a summary point count, sum or quantile; nothing of a point with a NaN |
| Billing.RowsCounted | exporter/signozclickhousemetrics/exporter.go:956-1005 | the number of sample rows is the sum of what the data points yield |
| Billing.NoNaNExported | exporter/signozclickhousemetrics/exporter.go:319-322 | no sample row holds a NaN, whatever the metrics hold |
| Billing.ProcessNumbers | exporter/signozclickhousemetrics/exporter.go:305-354 | one row with its value per number that is no NaN, under the metric's name |
| Billing.AddBucketSample | exporter/signozclickhousemetrics/exporter.go:499-574 | one row per bound with its running count in uint64 arithmetic, then +Inf |
| Billing.ProcessHistogram | exporter/signozclickhousemetrics/exporter.go:579-609 | count, optional fields and buckets of each point without NaN, in order |
| Billing.ProcessSummary | exporter/signozclickhousemetrics/exporter.go:728-760 | count, sum and one row per quantile of each point without NaN in sum or quantiles |
| Billing.PointBilledExactly | pkg/metering/v1/metrics.go:76-96 | point by point, the bill is the number of rows exactly when there is no NaN and, for a histogram, one more bucket count than bounds |
| Billing.BillMatchesRows | pkg/metering/v1/metrics.go:59-128 | the bill of a resource is the number of its sample rows exactly when what is billed without a row and what has a row without a bill come to the same; for metrics without NaN, with one more bucket count than bounds and under billed names, there is neither |
| Billing.MetricBalance | pkg/metering/v1/metrics.go:59-128 | for every metric, bill plus rows without a bill is rows plus what is billed without a row: the bills of points with NaN, bucket counts beyond the bounds, exponential buckets and unexported exponential points; the +Inf row of a point with too few counts, and the rows of excluded names |
| Billing.ExactIffRegular | pkg/metering/v1/metrics.go:59-128 | a billed metric has nothing over and nothing under exactly when its points are regular |
| Billing.Balance | pkg/metering/v1/metrics.go:59-128 | the same account for a resource |
| QueryLog.Receiver.ScrapeQueryLogIfReady | receiver/clickhousesystemtablesreceiver/receiver.go:79-142 | in uint32 arithmetic, wrap-around included: when an attempt scrapes, which interval, what it waits otherwise (exactly the time left), that a failure advances nothing, and that the first interval starts at the first server time known |
| QueryLog.Receiver.Run | receiver/clickhousesystemtablesreceiver/receiver.go:53-75 | over any attempts, server times and failures, the first interval starts at the first known server time, and the pushed intervals follow one another without gap or overlap and none is early, exactly when none of them, with its delay, leaves 32 bits |
| QueryLog.CoveredOnce | receiver/clickhousesystemtablesreceiver/receiver.go:98-127 | every second between the first and the last pushed interval is covered by exactly one |
| QueryLog.TimelyIffFits | receiver/clickhousesystemtablesreceiver/receiver.go:98-105 | a scrape is not early, and of the whole interval, exactly when the end of the interval and the delay stay within 32 bits |
| QueryLog.WrappedAttempt | receiver/clickhousesystemtablesreceiver/receiver.go:98-105 | when they do not, the attempt takes the interval to be ready 2^32 seconds too early, scrapes it at once from its start on, and when the end itself wraps pushes an interval that ends before it starts |

## Left out

- TailSampler: trace objects are handles into a sequence, and a trace's received spans are one sequence; copying of span payloads, resources and scopes is not modelled.
- TailSampler: errors of the next consumer, metrics and logging are left out; the source ignores or logs them.
- TailSampler: loading of policies; line 90 of the tail sampler copies into an empty slice, so no policy is ever loaded. MakeDecision is proved for every sequence of policy answers instead.
- TailSampler: dropTrace is one step; its look-up, deletion and counter update touch an entry that only its goroutine holds.
- TailSamplerProcessor.Processor.ProcessGroup: a pass that no other goroutine interrupts; interrupted ones are schedules of TailSampler.
- TailSamplerProcessor.Processor.ProcessTraces: likewise; it counts what arrives, and where spans go is what TailSampler says of every schedule.
- TailSamplerProcessor.Processor.DecideTrace: likewise; spans that join between evaluation and lock are covered by Settle.
- TailSamplerProcessor.Processor.DecideNext: likewise.
- TailSamplerProcessor.Processor.SamplingPolicyOnTick: likewise.
- IdBatcher: capacities of batches, and adding after Stop, which the source leaves to its callers.
- IdBatcherCode.Batcher.CloseCurrentAndTakeFirstBatch: runs when it does not have to wait; waiting on an empty channel is a schedule of IdBatcher.
- DimensionsCache: the LRU library is a recency list, the only thing its callers rely on.
- SpanMetrics: metric keys and dimension maps are opaque tokens, so overflow naming (where key and dimensions can disagree at the limit), key building, time parsing from keys under cumulative temporality and attribute sanitizing are not modelled.
- SpanMetrics: the exponential histogram of the library is kept with the same explicit bounds as the others; its own bucket layout is not modelled.
- SpanMetrics: latencies are reals and counters are unbounded; floating-point rounding and wrap-around of counts are not modelled. The five maps are pruned and reset one instrument after the other instead of phase by phase.
- LogExporter: error and cancellation paths, in which a producer sends without watching the cancelled context; one push at a time uses the limiter. Ids, sizes, tags, usage and the deduplicating cache of resource rows are left out.
- MigrationsCode: the SQL text, the schema fingerprints (a verification answers match, mismatch or error), backoff between runs, and changes made by operators. Markers and tables are durable once acknowledged, runs do not overlap, and post-baseline operations do not touch the tracking tables.
- ClassicHistogram: counts are whole numbers and boundaries reals or +Inf; the -Inf and NaN boundaries, and rounding of counts above 2^53, are not modelled. What the platform does with a float that does not fit a uint64 is an arbitrary function. The order of points with equal boundaries is fixed here and arbitrary in the source.
- ClassicHistogram: attributes, exemplars and metadata rows are left out.
- NativeHistogram: spans whose lengths exceed the buckets, where the exponential conversions would index out of range, are excluded by a precondition; negative offsets are not. Zero counts, sums and flags are copied fields.
- FieldPath: prefixes are the source's own (no dot, no bracket, not empty).
- BodyField: the parsed form of a text body, which is cached and not invalidated, is a parameter of Get.
- Labels: the source has no reader of the text; the one defined here serves to state what can be read back.
- Fingerprint: value types of attributes do not enter the hash and are left out.
- Regroup: resources, records and the attributes they become are opaque tokens.
- Billing: values other than NaN are whole numbers. Sketch rows of exponential histograms go to another table and are not counted as sample rows.
- MigrationsCode: the read-only check commands, which repeat the tests of a run without acting on them.
- Left out altogether: connections, configuration, factories, command-line wiring, usage collection, the remaining processors and receivers, and the parsers of log bodies.
