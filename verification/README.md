# Agent telemetry bridge: verified models

Dafny models of the parts of the agent telemetry bridge that carry state, arithmetic or parsing, with proofs of what
each part is for. `dafny verify dfyconfig.toml` checks everything.

| module | what it models |
|---|---|
| `Wire` | bytes and the base-128 varint; the reader of the OTLP response probe |
| `OtlpResponse` | the doctor's hand-written parser of `ExportTraceServiceResponse` |
| `OtlpReasons` | which count the parser returns, and which error and why |
| `SpanBatching` | the span batcher, a byte-level encoder of the request it builds, and the daemon loop that drives it |
| `SpanHandover` | when, over whole runs, the daemon hands a batch over |
| `SpanEncoding` | that request encoding read as protobuf fields |
| `JsonScan` | the allocation pre-scan of hook JSON, against documents of RFC 8259 (sections 2 to 7) |
| `TraceParent` | the traceparent parser and printer (section 3.2.2 of W3C Trace Context) |
| `HookTiming` | the timing record written by the Rust client and read by the Python probe |
| `PathKey` | the lexically normalized workspace path that is the cache key |
| `ContextCacheState` | the locked state of the context cache and its critical sections, changed in place |
| `ContextCacheEviction` | byte accounting and least-recently-used eviction |
| `ContextCacheProtocol` | callers, queue and workers of the cache as atomic steps in any interleaving |
| `ContextCacheHistory` | what a state's ticks, counters, start marks and queue say about the run that led to it |
| `ContextCacheProgress` | progress of those steps once lookups stop |
| `CampaignLedger` | the campaign ledger, its resume checks, an attempt store by store, and runs of attempts, crashes, exceptions and resumes |
| `CampaignResume` | what the resume checks accept, on any ledger |
| `CampaignOutcomes` | verdicts, decisions and exit statuses from what happened, and a campaign that succeeds |
| `CampaignInterrupts` | what an exception between two stores can break, with its exact window, over whole runs |
| `CampaignEvidence` | conservation of passed attempts across source changes, crashes and resumes |
| `CampaignController` | the controller that changes the ledger in place, its loop over attempts, and a whole session |
| `LongTrace` | reconstruction of one causal chain from an unordered capture |
| `FailureClusters` | grouping of failed sends into runs |

Code that changes variables or fields is modelled by methods and classes, each proved against a function of its inputs
or of the old state; the theorems are about those functions and about every run of them. Clocks, harvest results,
process outcomes, source fingerprints, run ids and the order of steps are parameters, so each theorem covers every
choice of them. `usize` is taken to be 64 bits wide.

## Main results

- **Context cache, every interleaving.** The pending set is exactly the keys held by callers, queue and workers, each
  once (`PendingHasJob`, `OneRefreshPerKey`). Counters are conserved modulo 2^64 (`AccountedStep`, `CountersExact`). A
  lookup answers with the last stored harvest of that very key, by its age (`LookupAnswers`). Every counter is the number
  of its events (`CountersTell`), jobs are taken up in order (`QueueIsFifo`), and ticks order entries by their last use
  (`TicksOrderUses`). After each insert the survivors are
  the longest most-recently-used suffix within both limits (`FinishKeepsRecent`). Once lookups stop, refreshes drain in
  a bounded number of steps, in any order of steps (`RefreshesDrain`).
- **Campaign ledger, every run.** Every ledger, in memory and on file, is sound (`AlwaysSound`); `complete` means every
  required suite passed on the current candidate (`CompleteMeansCovered`); the suites that passed on any candidate are
  exactly those the coverage records for it, as obtained or invalidated (`AlwaysConserved`); every decision belongs to
  the last attempt's verdict (`AlwaysTold`, `DecisionAfterAttempt`); a whole session of the program is a run of that
  state machine (`SessionIsRun`), so status 0 means completeness (`ZeroMeansCovered`), and attempts that all pass on one
  source end in it (`PassingCampaignCompletes`).
- **Span batcher.** The incremental size prediction is the length of the real nested encoding (`RequestBytesExact`), and
  over every run nothing is lost, reordered or oversized (`RunDelivers`), or kept beyond a tick that finds it overdue
  (`NothingOverdue`); and no batch is handed over unless it is full, out of room, overdue at a tick or the last of a drain
  (`HandoversJustified`).
- **Formats.** The response parser accepts exactly a grammar and finds its unique decomposition (`OuterFromIff`); the
  JSON scan counts exactly values plus keys (`ScanCountsNodes`); the traceparent parser accepts exactly its grammar
  (`ParseIff`); the timing reader accepts exactly what the client writes (`WrittenRecordDecodes`, `AcceptedIsWritten`);
  varints round-trip (`VarintRoundTrip`).
- **Evidence.** The chain verdict holds if and only if the capture is one causal path (`Analyze`); the clustering is the
  only maximal one (`OnlyClustering`); two paths share a cache key exactly when they are spellings of one location
  (`SameKeyIffEquivalent`), with the spelling laws on path strings (`NameThenParent`, `RootParentDotSlash`).

Five properties that one might expect are false of the code, and are stated with their exact conditions and a concrete
input. The first three come from an exception that falls between two stores of an attempt; the attempt's closing block
still decides and writes the ledger.

- The ledger on file does not always pass its own resume checks. If the exception leaves the attempt without a report,
  or with a report whose digest is not its own, the attempt is ended all the same and every resume refuses the file. The
  windows are: in the try block before the digest is stored; in a handler before its own record, unless a hashed report
  was there; in a handler between its own record and its digest (`ResumableIff`, `ConcludedValidIff`,
  `InterruptionStrands`; runs in `StrandedRun`).
- A passed attempt has not always been found on an unchanged source: an interrupt after the verdict is taken over, and
  before the comparison is recorded or a failed comparison overwrites the verdict, leaves it counted as passed
  (`HoldsIff`, `ConcludedVerifiedIff`; runs in `UnverifiedRun`).
- The state history is not always a connected chain: an exception between a new phase and its record loses that record
  (`HoldsIff`, `ConcludedLinkedIff`; a run in `TornRun`).
- Repeated partial successes are not merged as protobuf would: the last one replaces the count (`MergeRuleIff`; a body
  in `MergeRuleBroken`).
- A version-00 traceparent does not always reprint to itself: only the sampled flag is printed (`ReprintIff`; a header
  in `ReprintBroken`).

Two more conditions differ from a first reading of the code. A capture in which the last span reuses the root's id is
still a valid chain, so the exact condition forbids that reuse only to the spans before it. The alias map of the cache
is never written, because an entry's identity is its own key.

## Model

| member | source | states |
|---|---|---|
| `Wire.ReadVarint` | crates/agent-otel-cli/src/doctor.rs:158-171 | the shift-and-or loop on a 64-bit accumulator returns the value and length of the varint at the front, or the right failure |
| `Wire.DecodeVarintIff` | crates/agent-otel-cli/src/doctor.rs:158-171 | success exactly when the input starts with a complete varint of at most 64 bits, and the value is the sum of its 7-bit groups |
| `Wire.DecodeVarintFailures` | crates/agent-otel-cli/src/doctor.rs:160-170 | the two errors are exactly: input ends inside a varint; the tenth byte is above 1 |
| `Wire.VarintRoundTrip` | crates/agent-otel-cli/src/doctor.rs:158-171 | reading inverts the encoder for every value below 2^64, whatever follows |
| `Wire.VarintFits` | crates/agent-otel-cli/src/doctor.rs:162-164 | every accepted varint denotes less than 2^64 |
| `Wire.AccumulateExact` | crates/agent-otel-cli/src/doctor.rs:161-165 | no shift drops a bit and no or sets a bit twice |
| `OtlpResponse.NextInnerIff` | crates/agent-otel-cli/src/doctor.rs:114-153 | one turn of the inner loop accepts exactly the inner fields that stand at the position |
| `OtlpResponse.NextOuterIff` | crates/agent-otel-cli/src/doctor.rs:74-106 | one turn of the outer loop accepts exactly the well-formed fields at the position, field 1 only when length-delimited |
| `OtlpResponse.InnerFromIff` | crates/agent-otel-cli/src/doctor.rs:111-156 | a partial success parses to a list of fields exactly when it is their concatenation, so the decomposition is unique |
| `OtlpResponse.OuterFromIff` | crates/agent-otel-cli/src/doctor.rs:71-109 | a response parses to a list of fields exactly when it is their concatenation and every field 1 is a partial success |
| `OtlpResponse.AcceptedIffGrammar` | crates/agent-otel-cli/src/doctor.rs:71-109 | the parser succeeds if and only if the body is in the response grammar |
| `OtlpResponse.ParsePartialSuccess` | crates/agent-otel-cli/src/doctor.rs:111-156 | the loop stays in bounds, advances every turn and returns the last rejected count, or the first error |
| `OtlpResponse.ParseResponse` | crates/agent-otel-cli/src/doctor.rs:71-109 | the loop stays in bounds, advances every turn and returns the count of the last partial success, or the first error |
| `OtlpResponse.CountOfFields` | crates/agent-otel-cli/src/doctor.rs:71-156 | for a response written field by field the result is the last count of its last partial success |
| `OtlpReasons.CountIsLastOfLast` | crates/agent-otel-cli/src/doctor.rs:71-156 | a response yields the value of the last count field inside its last partial success |
| `OtlpReasons.NoCount` | crates/agent-otel-cli/src/doctor.rs:71-156 | it yields none without a partial success, or when the last one has no count field |
| `OtlpReasons.FirstErrorWins` | crates/agent-otel-cli/src/doctor.rs:74-106 | behind any well-formed fields, the first bad field decides the error |
| `OtlpReasons.FirstBadPartialWins` | crates/agent-otel-cli/src/doctor.rs:96-98 | so does the first partial success that does not parse |
| `OtlpReasons.FirstInnerErrorWins` | crates/agent-otel-cli/src/doctor.rs:114-153 | the same inside a partial success |
| `OtlpReasons.OuterCauses` | crates/agent-otel-cli/src/doctor.rs:75-106 | each error of a response field has exactly its cause: field number, wire type, missing bytes, length overflow |
| `OtlpReasons.InnerCauses` | crates/agent-otel-cli/src/doctor.rs:115-153 | the same for a field of a partial success |
| `OtlpReasons.KeyCauses` | crates/agent-otel-cli/src/doctor.rs:75-116 | an unreadable key refuses a field with the varint's own failure |
| `OtlpResponse.MergedIsConcatenation` | crates/agent-otel-cli/src/doctor.rs:96-98 | the merge rule the parser is compared with is that of the Protocol Buffers encoding guide: the count of the concatenated payloads |
| `OtlpResponse.MergeRuleIff` | crates/agent-otel-cli/src/doctor.rs:96-98 | the result agrees with that rule exactly when the last partial success holds a count field or no partial success does |
| `OtlpResponse.MergeRuleBroken` | crates/agent-otel-cli/src/doctor.rs:96-98 | a six-byte body on which the merge rule fails |
| `SpanBatching.CountFieldBytes` | crates/agent-otel-daemon/src/batch.rs:159-167 | the shifting loop yields the length of tag, varint and payload |
| `SpanBatching.RequestBytesExact` | crates/agent-otel-daemon/src/batch.rs:71-76 | the prediction is the length of the encoded nested request, for every resource, scope, schema URL and span sequence |
| `SpanBatching.EncodeSpansAppend` | crates/agent-otel-daemon/src/batch.rs:84-97 | one more span adds exactly its field to the running total |
| `SpanBatching.RequestBytesMonotone` | crates/agent-otel-daemon/src/batch.rs:71-76 | more span bytes never predict a smaller request |
| `SpanBatching.SpanBatcher.constructor` | crates/agent-otel-daemon/src/batch.rs:39-54 | an empty batcher with the batch size clamped to 1..4096 and the fixed field sizes computed once |
| `SpanBatching.SpanBatcher.PredictRequestBytes` | crates/agent-otel-daemon/src/batch.rs:71-76 | computes the prediction from the cached field sizes |
| `SpanBatching.SpanBatcher.TryPush` | crates/agent-otel-daemon/src/batch.rs:79-99 | refuses exactly the span that cannot fit alone; otherwise buffers it, cutting a batch first exactly when both would not fit |
| `SpanBatching.SpanBatcher.IsFull` | crates/agent-otel-daemon/src/batch.rs:101-103 | true exactly at the batch size |
| `SpanBatching.SpanBatcher.Take` | crates/agent-otel-daemon/src/batch.rs:116-134 | empties the buffer into a batch in order, whose recorded size is that of its encoding |
| `SpanBatching.SpanBatcher.TakeDue` | crates/agent-otel-daemon/src/batch.rs:105-114 | empties the buffer exactly when its first span has reached the age limit |
| `SpanBatching.Daemon.Transform` | crates/agent-otel-daemon/src/daemon.rs:425-441 | offers a frame's spans in order, handing over full batches and counting refusals |
| `SpanBatching.Daemon.OnTick` | crates/agent-otel-daemon/src/daemon.rs:189-222 | hands over a due batch and nothing else |
| `SpanBatching.Daemon.Shutdown` | crates/agent-otel-daemon/src/daemon.rs:242-266 | transforms what is still queued, then hands over the buffer |
| `SpanBatching.FlushKeeps` | crates/agent-otel-daemon/src/batch.rs:116-134 | handing over keeps the stream of spans and leaves a sendable batch |
| `SpanBatching.OfferAllKeeps` | crates/agent-otel-daemon/src/daemon.rs:425-441 | a frame keeps the stream, the limits, and room in the buffer |
| `SpanBatching.RunDelivers` | crates/agent-otel-daemon/src/daemon.rs:185-266 | over every run, batches followed by the buffer are exactly the spans that fit alone, in order; every batch is within both limits; after a drain nothing is buffered |
| `SpanBatching.NothingOverdue` | crates/agent-otel-daemon/src/batch.rs:105-114 | over every run with instants in order, after a tick every buffered span was offered less than the age limit before it |
| `SpanHandover.OfferSized` | crates/agent-otel-daemon/src/daemon.rs:425-441 | offering a span hands a batch over only when it is full or the span does not fit behind it |
| `SpanHandover.HandoversJustified` | crates/agent-otel-daemon/src/daemon.rs:185-266 | over every run batches are consecutive stretches of the acceptable spans; each has exactly `batchSize` spans, or the next span would make it too large, or a tick found it overdue, or it is the last of a drain |
| `SpanHandover.TickExact` | crates/agent-otel-daemon/src/daemon.rs:189-222 | a tick before the age limit changes nothing, one at it hands the whole buffer over |
| `SpanEncoding.RequestIsFields` | crates/agent-otel-core/src/otlp.rs:641-657 | the encoding is the nested messages with their protobuf field numbers, an empty schema URL left out |
| `SpanEncoding.SpanFieldsExact` | crates/agent-otel-core/src/otlp.rs:641-657 | its span fields are well formed and hold the batch's spans in order |
| `SpanBatching.CutOnlyWhenFull` | crates/agent-otel-daemon/src/batch.rs:88-94 | a batch is cut early only when the next span would break the size limit |
| `SpanBatching.RefusedFitsNowhere` | crates/agent-otel-daemon/src/batch.rs:84-87 | a refused span would break the limit next to any others too |
| `JsonScan.ValidateComplexity` | crates/agent-otel-core/src/model.rs:741-789 | the byte loop with its early exit accepts exactly when the whole scan stays in budget |
| `JsonScan.RunValue` | crates/agent-otel-core/src/model.rs:751-786 | scanning any printed value adds exactly its nodes |
| `JsonScan.ScanCountsNodes` | crates/agent-otel-core/src/model.rs:738-786 | on every document, with any legal whitespace and escapes, the count is values plus object keys |
| `JsonScan.AcceptedIffWithinBudget` | crates/agent-otel-core/src/model.rs:741-789 | a document is accepted if and only if it is at most 16 MiB long and that number is at most 65,536 |
| `JsonScan.OversizedRefused` | crates/agent-otel-core/src/model.rs:742-744 | input above 16 MiB is refused, whatever it holds |
| `JsonScan.PrefixCountsLess` | crates/agent-otel-core/src/model.rs:751-786 | cutting input short never raises its count |
| `TraceParent.ParseHex` | crates/agent-otel-core/src/trace_id.rs:86-95 | the array-filling loop yields the bytes of an exact-length lower-case hex text, else nothing |
| `TraceParent.HexRoundTrip` | crates/agent-otel-core/src/trace_id.rs:78-95 | printed bytes read back |
| `TraceParent.HexReprint` | crates/agent-otel-core/src/trace_id.rs:78-95 | accepted hex text reprints to itself |
| `TraceParent.FormatParses` | crates/agent-otel-core/src/trace_id.rs:194-199 | a formatted header parses to the same ids and flag, unless an id is zero, when it is refused |
| `TraceParent.ParseIff` | crates/agent-otel-core/src/trace_id.rs:101-135 | a header parses to a context if and only if it is that context's four fields in any version but ff, followed by nothing or, in a later version, by a dash and ASCII; at most 512 bytes |
| `TraceParent.Version00Shape` | crates/agent-otel-core/src/trace_id.rs:101-135 | an accepted version-00 header is its four fields and nothing else |
| `TraceParent.ReprintIff` | crates/agent-otel-core/src/trace_id.rs:101-199 | an accepted version-00 header reprints to itself exactly when its flags are 00 or 01 |
| `TraceParent.ReprintBroken` | crates/agent-otel-core/src/trace_id.rs:101-199 | an accepted version-00 header with flags 02 that reprints differently |
| `TraceParent.Version00Injective` | crates/agent-otel-core/src/trace_id.rs:101-135 | distinct accepted version-00 headers give distinct contexts |
| `HookTiming.EncodeRecord` | crates/agent-otel-client/src/hook_observer.rs:110-135 | slice by slice over a zeroed buffer, the 48 bytes of the record layout |
| `HookTiming.WrittenRecordDecodes` | dev/fleet-smoke/hook_timing_probe.py:60-107 | the reader accepts a written record exactly when the process id is the expected one and the checkpoints are in order, and then recovers every field |
| `HookTiming.AcceptedIsWritten` | dev/fleet-smoke/hook_timing_probe.py:60-107 | an accepted version-2 record is, but for its padding, the one written for some sample of that process with ordered checkpoints |
| `HookTiming.OrderedCheckpointsDecode` | crates/agent-otel-client/src/hook_observer.rs:137-140 | saturation to 64-bit nanoseconds keeps the order the reader demands |
| `HookTiming.FirstVersionDecodes` | dev/fleet-smoke/hook_timing_probe.py:66-107 | a version-1 record is accepted exactly with the expected process id, flags 1 or 3 and ordered checkpoints |
| `HookTiming.AcceptedFirstVersion` | dev/fleet-smoke/hook_timing_probe.py:66-107 | and nothing else of version 1 is accepted |
| `HookTiming.KnownRecords` | crates/agent-otel-client/src/hook_observer.rs:110-135 | two records byte by byte |
| `HookTiming.StagesInOrder` | crates/agent-otel-ipc/src/client.rs:42-53 | the reader's stage names stand in the order of the writer's discriminants |
| `HookTiming.RecordInjective` | crates/agent-otel-client/src/hook_observer.rs:110-135 | within the wire's width different samples give different records |
| `PathKey.NormalizeLexical` | crates/agent-otel-daemon/src/context_cache.rs:410-422 | the push-and-pop loop computes the reduced stack; the root is never popped |
| `PathKey.DropKeeps` | crates/agent-otel-daemon/src/context_cache.rs:410-422 | a `.`, a name with the `..` after it, or a `..` at the root can be dropped in any context |
| `PathKey.SameStackIffEquivalent` | crates/agent-otel-daemon/src/context_cache.rs:410-422 | two component lists reduce alike exactly when such drops make them equal |
| `PathKey.NormalizedAreNames` | crates/agent-otel-daemon/src/context_cache.rs:410-422 | no `.`, `..`, empty name or slash is left |
| `PathKey.RenderReadsBack` | crates/agent-otel-daemon/src/context_cache.rs:406-407 | a rendered stack reads back as itself |
| `PathKey.NormalizeIdempotent` | crates/agent-otel-daemon/src/context_cache.rs:410-422 | normalizing twice is normalizing once |
| `PathKey.SameKeyIffEquivalent` | crates/agent-otel-daemon/src/context_cache.rs:394-422 | two absolute paths share a key exactly when they are spellings of one location |
| `PathKey.NameThenParent` | crates/agent-otel-daemon/src/context_cache.rs:410-422 | in any path string, a name followed by `..` cancels |
| `PathKey.RootParentDotSlash` | crates/agent-otel-daemon/src/context_cache.rs:410-422 | a `..` at the root, a `.` anywhere and an empty segment are ignored |
| `PathKey.NamesStay` | crates/agent-otel-daemon/src/context_cache.rs:410-422 | the key of a rendered stack of names is its own text |
| `PathKey.SelectsFirst` | crates/agent-otel-daemon/src/context_cache.rs:394-408 | the workspace path, else the first of the paths, is the workspace exactly when it is absolute |
| `PathKey.KeySelectsItself` | crates/agent-otel-daemon/src/context_cache.rs:394-408 | a selected key, offered as a workspace path again, selects itself |
| `ContextCacheState.CacheState.Lookup` | crates/agent-otel-daemon/src/context_cache.rs:136-190 | stamps the entry found; returns its context exactly up to 5 s, Fresh up to 1 s and Stale beyond, else Missing; asks for a refresh exactly above 1 s or without an entry |
| `ContextCacheState.CacheState.Reserve` | crates/agent-otel-daemon/src/context_cache.rs:224-243 | refused while both workers are stuck; otherwise reserves the key unless it is pending |
| `ContextCacheState.CacheState.Unreserve` | crates/agent-otel-daemon/src/context_cache.rs:257-259 | gives the reservation back and changes nothing else |
| `ContextCacheState.CacheState.Start` | crates/agent-otel-daemon/src/context_cache.rs:285-288 | marks the worker's start and changes nothing else |
| `ContextCacheState.PickOldest` | crates/agent-otel-daemon/src/context_cache.rs:372-376 | an entry with the least tick |
| `ContextCacheState.SumSizes` | crates/agent-otel-daemon/src/context_cache.rs:383-388 | the sum over a map in any order is its total |
| `ContextCacheState.AnswerJudged` | crates/agent-otel-daemon/src/context_cache.rs:164-189 | the answer for a stored outcome, by its age and kind |
| `ContextCacheState.CacheState.RemoveOldest` | crates/agent-otel-daemon/src/context_cache.rs:372-390 | removes an entry with the least tick and its aliases, accounting their bytes |
| `ContextCacheState.CacheState.EvictToLimits` | crates/agent-otel-daemon/src/context_cache.rs:370-392 | removes oldest entries in turn until both limits hold |
| `ContextCacheState.CacheState.RecordAlias` | crates/agent-otel-daemon/src/context_cache.rs:345-353 | drops an older alias of the key and records one when the identity is another key |
| `ContextCacheState.CacheState.Place` | crates/agent-otel-daemon/src/context_cache.rs:338-366 | replaces the entry of the identity and accounts its bytes with saturating arithmetic |
| `ContextCacheState.CacheState.InsertSnapshot` | crates/agent-otel-daemon/src/context_cache.rs:331-368 | places the outcome under the requested key as its own identity, and evicts |
| `ContextCacheState.CacheState.FinishJob` | crates/agent-otel-daemon/src/context_cache.rs:302-328 | clears start mark and reservation, then stores the outcome unless the snapshot is too large |
| `ContextCacheEviction.EvictedExact` | crates/agent-otel-daemon/src/context_cache.rs:370-392 | eviction keeps the byte total exact and ends within both limits, so the loop never stops for lack of entries |
| `ContextCacheEviction.EvictedMaximal` | crates/agent-otel-daemon/src/context_cache.rs:370-392 | no most-recently-used suffix that fits is larger than what survives |
| `ContextCacheEviction.EvictedRecent` | crates/agent-otel-daemon/src/context_cache.rs:370-392 | while ticks are distinct the survivors are a most-recently-used suffix |
| `ContextCacheEviction.SurvivorsAreLongestRecentSuffix` | crates/agent-otel-daemon/src/context_cache.rs:370-392 | the two together: the longest such suffix within both limits |
| `ContextCacheEviction.StoredExact` | crates/agent-otel-daemon/src/context_cache.rs:338-366 | storing never saturates and never records an alias: the total stays the sum of entry sizes |
| `ContextCacheEviction.NewEntrySurvivesIff` | crates/agent-otel-daemon/src/context_cache.rs:331-392 | the new entry survives exactly when it fits alone |
| `ContextCacheProtocol.PendingStep` | crates/agent-otel-daemon/src/context_cache.rs:224-329 | every atomic step keeps the pending set equal to the outstanding refreshes, each counted once |
| `ContextCacheProtocol.AccountedStep` | crates/agent-otel-daemon/src/context_cache.rs:245-328 | every atomic step conserves refresh accounting modulo 2^64 |
| `ContextCacheProtocol.ShapedStep` | crates/agent-otel-daemon/src/context_cache.rs:275-305 | the queue holds at most 32 jobs and start marks are set exactly while a worker works |
| `ContextCacheProtocol.CacheStep` | crates/agent-otel-daemon/src/context_cache.rs:136-392 | every step keeps the byte total exact, the alias map empty and both limits |
| `ContextCacheProtocol.FaithfulStep` | crates/agent-otel-daemon/src/context_cache.rs:302-368 | every entry stays the last stored outcome of its own key |
| `ContextCacheProtocol.OrderedStep` | crates/agent-otel-daemon/src/context_cache.rs:148-338 | ticks stay distinct until the counter wraps |
| `ContextCacheProtocol.AlwaysInvariant` | crates/agent-otel-daemon/src/context_cache.rs:136-392 | every state of every interleaving satisfies all of these |
| `ContextCacheProtocol.PendingHasJob` | crates/agent-otel-daemon/src/context_cache.rs:224-329 | in every reachable state a key is pending if and only if a caller, the queue or a worker holds it |
| `ContextCacheProtocol.OneRefreshPerKey` | crates/agent-otel-daemon/src/context_cache.rs:224-329 | in every reachable state no key is held twice, by any two of them |
| `ContextCacheProtocol.CountersExact` | crates/agent-otel-daemon/src/context_cache.rs:245-328 | `queued_keys` is exact when no caller is mid-send, and `queued` balances all outcomes while totals are below 2^64 |
| `ContextCacheProtocol.LastStore` | crates/agent-otel-daemon/src/context_cache.rs:302-328 | the history a lookup is compared with is the run's last store of each key |
| `ContextCacheProtocol.LookupAnswers` | crates/agent-otel-daemon/src/context_cache.rs:136-190 | a lookup that finds an entry answers by the last stored harvest of that very key and its age; otherwise Missing; the caller schedules exactly when the answer asks for it |
| `ContextCacheProtocol.FinishKeepsRecent` | crates/agent-otel-daemon/src/context_cache.rs:331-392 | in every run, after a store: exact bytes, both limits, the longest recent suffix, the new entry in it exactly when it fits alone |
| `ContextCacheProtocol.CircuitOpenIff` | crates/agent-otel-daemon/src/context_cache.rs:224-240 | in every reachable state scheduling is refused exactly while both workers have worked longer than the stuck limit |
| `ContextCacheHistory.LastUse` | crates/agent-otel-daemon/src/context_cache.rs:148-163 | an entry's tick is that of the last step that looked its key up or stored an outcome for it |
| `ContextCacheHistory.TicksOrderUses` | crates/agent-otel-daemon/src/context_cache.rs:148-376 | until the counter wraps, ticks order entries by their last use |
| `ContextCacheHistory.CountersTell` | crates/agent-otel-daemon/src/context_cache.rs:235-326 | in every run each counter is the number of its events, modulo 2^64 |
| `ContextCacheHistory.LastBegin` | crates/agent-otel-daemon/src/context_cache.rs:285-303 | a start mark is the instant of the worker's last begin, if it has not finished since |
| `ContextCacheHistory.ScheduleAndSend` | crates/agent-otel-daemon/src/context_cache.rs:224-265 | scheduling reserves exactly a key that is not pending while the circuit is closed; a send is queued exactly while fewer than 32 jobs wait |
| `ContextCacheHistory.QueueIsFifo` | crates/agent-otel-daemon/src/context_cache.rs:245-283 | in every run what was sent is what was taken up, in order, followed by what waits |
| `ContextCacheProgress.StepDoesWork` | crates/agent-otel-daemon/src/context_cache.rs:224-328 | every step but a lookup strictly lowers a natural-number measure of outstanding work |
| `ContextCacheProgress.EvictionExists` | crates/agent-otel-daemon/src/context_cache.rs:370-392 | the eviction loop can always be carried through |
| `ContextCacheProgress.SomebodyCanStep` | crates/agent-otel-daemon/src/context_cache.rs:224-328 | while work is outstanding some caller or worker can take a step |
| `ContextCacheProgress.NoWorkNothingPending` | crates/agent-otel-daemon/src/context_cache.rs:224-328 | a reachable state without work has nothing pending, queued or under way |
| `ContextCacheProgress.RefreshesDrain` | crates/agent-otel-daemon/src/context_cache.rs:224-328 | without lookups every continuation of a run is bounded, and where it cannot go on nothing is pending |
| `CampaignLedger.ValidIffEvidenced` | dev/fleet-smoke/perf_loop.py:72-108 | a sound ledger passes the resume checks exactly when every ended attempt has its hashed evidence |
| `CampaignLedger.NewLedgerSound` | dev/fleet-smoke/perf_loop.py:61-69 | a new ledger is sound |
| `CampaignLedger.ExpectedIsFirstMissing` | dev/fleet-smoke/perf_loop.py:148-152 | the next suite is the first missing one, on the repair branch too |
| `CampaignLedger.InspectedFacts` | dev/fleet-smoke/perf_loop.py:178-193 | after inspection coverage belongs to the observed candidate only, and the repair branch still yields the first missing suite |
| `CampaignLedger.ReservedSound` | dev/fleet-smoke/perf_loop.py:196-233 | a reservation keeps the ledger sound and resumable |
| `CampaignLedger.CoverageGrows` | dev/fleet-smoke/perf_loop.py:303-308 | a passed attempt extends the obtained prefix by one suite |
| `CampaignLedger.AssessedFields` | dev/fleet-smoke/perf_loop.py:235-288 | the attempt's record in closed form, by how many stores the try block and a handler made before an exception |
| `CampaignLedger.ConcludedSound` | dev/fleet-smoke/perf_loop.py:235-323 | however an attempt ends, wherever an exception falls, the ledger written is sound |
| `CampaignLedger.ConcludedValidIff` | dev/fleet-smoke/perf_loop.py:248-298 | that ledger passes the resume checks exactly unless an exception left no report, or a report without its own digest |
| `CampaignLedger.RecoveredSound` | dev/fleet-smoke/perf_loop.py:111-140 | recovery succeeds on every sound resumable ledger, closes exactly the open attempt, and keeps coverage |
| `CampaignLedger.StepSound` | dev/fleet-smoke/perf_loop.py:333-390 | every step of the controller, crashes included, keeps file and memory sound |
| `CampaignLedger.AlwaysSound` | dev/fleet-smoke/perf_loop.py:53-390 | in every run: at most five attempts, passed ones with their own hashed passing report, obtained suites a prefix of the required ones and covered on the current candidate |
| `CampaignLedger.CompleteMeansCovered` | dev/fleet-smoke/perf_loop.py:303-311 | a complete decision means, for every required suite, a passed attempt on the current candidate with its own hashed passing report |
| `CampaignResume.MissingIff` | dev/fleet-smoke/perf_loop.py:92-93 | the missing suites are those not obtained, in the required order |
| `CampaignResume.ResumeChecks` | dev/fleet-smoke/perf_loop.py:72-108 | any ledger passes the resume checks exactly when its counts, numbers, run ids, coverage and evidence are as listed |
| `CampaignOutcomes.AttemptJudged` | dev/fleet-smoke/perf_loop.py:241-280 | the verdict of an attempt from its process, report and sources, with the exit codes 0, 1 and 3 |
| `CampaignOutcomes.ReservedIff` | dev/fleet-smoke/perf_loop.py:196-233 | a reservation is refused exactly for kind, attempts, budget, claimed candidate, complete coverage or a suite out of turn; otherwise the next attempt is appended |
| `CampaignOutcomes.DecisionAfterAttempt` | dev/fleet-smoke/perf_loop.py:303-323 | in every run the end of an attempt leaves the decision, phase and verdict that belong to its verdict |
| `CampaignOutcomes.AlwaysTold` | dev/fleet-smoke/perf_loop.py:61-323 | in every run every ledger between attempts is new, decided by its last attempt, or recovered |
| `CampaignOutcomes.ResumeRetries` | dev/fleet-smoke/perf_loop.py:351-370 | a resume goes on to another attempt exactly when the file is valid and the campaign neither complete nor out of attempts |
| `CampaignOutcomes.ExitTells` | dev/fleet-smoke/perf_loop.py:370-390 | a loop that runs through ends with status 0, 4 or 3 exactly for complete, needs repair and other; else with 4 or an exception |
| `CampaignOutcomes.EarlyExits` | dev/fleet-smoke/perf_loop.py:370-385 | which refusals and exceptions end the program with status 4 and which escape, and what they leave on file |
| `CampaignOutcomes.StatusTwoIff` | dev/fleet-smoke/perf_loop.py:351-362 | status 2 exactly for a ledger that cannot be resumed or is another campaign's |
| `CampaignOutcomes.SessionStarts` | dev/fleet-smoke/perf_loop.py:351-368 | a new session starts an untouched campaign under the given id, a resumed one goes on with the one on file |
| `CampaignOutcomes.ReservationRecorded` | dev/fleet-smoke/perf_loop.py:207-231 | the transitions a reservation records |
| `CampaignOutcomes.AttemptRecorded` | dev/fleet-smoke/perf_loop.py:240-323 | the transitions the end of an attempt records |
| `CampaignOutcomes.PassingCampaignCompletes` | dev/fleet-smoke/perf_loop.py:364-390 | if every attempt passes on one source, a campaign with attempts enough ends complete, with status 0 |
| `CampaignInterrupts.ResumableIff` | dev/fleet-smoke/perf_loop.py:72-300 | in every run the ledger on file passes the resume checks exactly unless the last write closed an attempt whose evidence an exception kept incomplete |
| `CampaignInterrupts.InterruptionStrands` | dev/fleet-smoke/perf_loop.py:274-362 | such a file is refused by every resume |
| `CampaignInterrupts.StrandedRun` | dev/fleet-smoke/perf_loop.py:235-298 | runs that get there: before the report, between report and digest, and inside a handler |
| `CampaignInterrupts.ConcludedVerifiedIff` | dev/fleet-smoke/perf_loop.py:256-275 | passed attempts stay found on an unchanged source, exactly unless an exception falls between the verdict and the effect of the comparison |
| `CampaignInterrupts.UnverifiedRun` | dev/fleet-smoke/perf_loop.py:256-275 | runs that leave a passed attempt whose source was not compared, or was found changed |
| `CampaignInterrupts.ConcludedLinkedIff` | dev/fleet-smoke/perf_loop.py:53-58 | the history stays a connected chain, exactly unless an exception falls between a phase and its record |
| `CampaignInterrupts.TornRun` | dev/fleet-smoke/perf_loop.py:53-58 | a run that leaves a history that is no chain |
| `CampaignInterrupts.HoldsIff` | dev/fleet-smoke/perf_loop.py:53-300 | in every run, on file and in memory, either guarantee holds exactly unless the campaign has had an exception in its window |
| `CampaignInterrupts.CompleteMeansVerified` | dev/fleet-smoke/perf_loop.py:256-311 | a complete campaign without such an exception has every suite passed on the candidate with its source found unchanged |
| `CampaignEvidence.InspectedClaims` | dev/fleet-smoke/perf_loop.py:178-193 | a changed candidate moves its coverage into an invalidation record and loses none |
| `CampaignEvidence.ConcludedConserved` | dev/fleet-smoke/perf_loop.py:235-323 | the end of an attempt adds to coverage exactly what it adds to the passed attempts |
| `CampaignEvidence.AlwaysConserved` | dev/fleet-smoke/perf_loop.py:111-390 | in every run a suite has a passed attempt on a candidate if and only if the coverage records it for that candidate, as obtained or invalidated |
| `CampaignController.Controller.TransitionTo` | dev/fleet-smoke/perf_loop.py:53-58 | appends one transition from the old phase and moves to the new one |
| `CampaignController.Controller.RecordCandidate` | dev/fleet-smoke/perf_loop.py:178-193 | a changed candidate invalidates all coverage and is recorded |
| `CampaignController.Controller.RecoverInterrupted` | dev/fleet-smoke/perf_loop.py:111-129 | closes an open reservation with the controller's own record; refuses only when nothing was reserved |
| `CampaignController.Controller.ReserveAttempt` | dev/fleet-smoke/perf_loop.py:196-233 | reserves the next attempt and writes it, or refuses and leaves the file alone |
| `CampaignController.Controller.DecideLast` | dev/fleet-smoke/perf_loop.py:303-323 | coverage, phase, decision and verdict from the last attempt |
| `CampaignController.AssessAttempt` | dev/fleet-smoke/perf_loop.py:235-288 | the try block and the handlers store by store, an exception possible before and after each |
| `CampaignController.Controller.EnterObserve` | dev/fleet-smoke/perf_loop.py:240 | the move to Observe, with an exception possible before, inside and after it |
| `CampaignController.Controller.Close` | dev/fleet-smoke/perf_loop.py:287-298 | the closing transitions, the decision and the write |
| `CampaignController.Controller.ConcludeAttempt` | dev/fleet-smoke/perf_loop.py:235-298 | the rest of an attempt after its reservation, whatever exception falls in it |
| `CampaignController.Controller.RunLoop` | dev/fleet-smoke/perf_loop.py:364-390 | the loop ends, each turn consuming one of five attempts, with the file and status of the specified drive, exceptions included |
| `CampaignController.DriveIsRun` | dev/fleet-smoke/perf_loop.py:364-390 | whatever happens, the loop is a run of the state machine, so every theorem about runs holds of it |
| `CampaignController.RunSession` | dev/fleet-smoke/perf_loop.py:350-390 | the whole program: resume or start, check, and run the loop |
| `CampaignController.SessionIsRun` | dev/fleet-smoke/perf_loop.py:350-390 | a whole session, from any file a run has left, continues that run |
| `CampaignController.StatusZero` | dev/fleet-smoke/perf_loop.py:382-390 | status 0 is only returned with a complete ledger on file |
| `CampaignController.ZeroMeansCovered` | dev/fleet-smoke/perf_loop.py:333-390 | status 0 means every required suite has a passed attempt, with its own hashed passing report, on the candidate of the ledger on file |
| `LongTrace.SpanIdIff` | dev/fleet-smoke/long_trace_probe.py:643-648 | well-formed ids are sixteen hexadecimal digits that denote a number other than zero |
| `LongTrace.SelectConcat` | dev/fleet-smoke/long_trace_probe.py:625 | spans are selected one by one, in order |
| `LongTrace.SelectOne` | dev/fleet-smoke/long_trace_probe.py:625 | exactly those of the trace are selected |
| `LongTrace.FirstCaptured` | dev/fleet-smoke/long_trace_probe.py:632-636 | the table keeps the earliest capture of each id |
| `LongTrace.CollapseDuplicates` | dev/fleet-smoke/long_trace_probe.py:630-640 | the first capture of each id; the conflicts are exactly the ids captured with different contents |
| `LongTrace.WalkIsChain` | dev/fleet-smoke/long_trace_probe.py:649-663 | the walk is a parent-linked chain without repetition |
| `LongTrace.WalkIsCausalPath` | dev/fleet-smoke/long_trace_probe.py:649-668 | a walk that leaves nothing behind is a causal path of the whole capture |
| `LongTrace.FollowsPath` | dev/fleet-smoke/long_trace_probe.py:653-663 | while a causal path exists, its next span is the only child |
| `LongTrace.Analyze` | dev/fleet-smoke/long_trace_probe.py:623-679 | valid if and only if the capture is, in any order and with any repetition, one causal path of the expected length; returns it in causal order, and exactly the counts and the conflicting, foreign, malformed, wrongly parented and orphan ids, valid or not |
| `FailureClusters.FailuresOfOne` | dev/fleet-smoke/stall_round.py:54-57 | an event is selected exactly when its send did not complete and its index is an integer |
| `FailureClusters.FailuresConcat` | dev/fleet-smoke/stall_round.py:54-57 | events are selected one by one, in order |
| `FailureClusters.DurationIff` | dev/fleet-smoke/stall_round.py:61-63 | a duration is known exactly when both offsets are integers and the end is not before the start |
| `FailureClusters.EveryFailureGrouped` | dev/fleet-smoke/stall_round.py:52-80 | the clusters hold as many failures as the events do |
| `FailureClusters.SortIsStable` | dev/fleet-smoke/stall_round.py:54-58 | sorted, a rearrangement, and stable |
| `FailureClusters.GroupFailures` | dev/fleet-smoke/stall_round.py:52-80 | the loop that edits the last cluster computes the clustering of the sorted failures |
| `FailureClusters.ClustersPartition` | dev/fleet-smoke/stall_round.py:59-77 | clusters cut the failures in order into runs of consecutive indexes with one key, durations one to one, no neighbours mergeable |
| `FailureClusters.PartitionUnique` | dev/fleet-smoke/stall_round.py:59-77 | only one sequence of clusters does that |
| `FailureClusters.OnlyClustering` | dev/fleet-smoke/stall_round.py:52-80 | so the output is characterized exactly |

## Left out

- `classify_otlp_response` and content types: a few comparisons on the parser's result.
- The unchecked `SpanBatcher::push` and `flush`: they enforce no size limit, so the size bounds are those of `try_push`.
- The export queue behind the batcher, its capacity and its drops; frames dropped after the shutdown deadline are frames
  never offered.
- Resource, scope and span messages are opaque byte strings; only the request around them is encoded.
- `resolve_trace_context` and the hashed id derivations: a precedence of cases and opaque hashes.
- PathKey.NormalizeLexical: works on the components of absolute Unix paths, because Windows prefixes and non-UTF-8 names
  belong to the platform's path iterator.
- The harvest itself, `stats`, and a disconnected channel: the harvest result is an arbitrary optional snapshot, and the
  queue's two ends live as long as the cache.
- ContextCacheProtocol.AccountedStep: a worker's last critical section and the counter it bumps under the lock are one
  step, because no other step reads that counter in between.
- Wall-clock budgets and the JSON schema file of the campaign: a budget refusal is an input, and reports are the fields
  that the controller reads, so a process could report what the controller would record itself. Timestamps, reasons,
  seeds, commands and the candidate history list are not kept.
- Report hashes are free of collisions and run ids are fresh; both are assumptions of the model.
- CampaignController.Controller.ConcludeAttempt: takes the process outcome and the place of an exception as inputs,
  because running the process is input and output. An exception inside the closing block, or before the try block, keeps
  the file as it is and is a crash there.
- LongTrace.Analyze: spans carry only the four keys that duplicates are compared on, and every span has a string id.
- FailureClusters.GroupFailures: JSON values are equal when they are the same value, so Python's equality across types,
  such as 1 and 1.0, is not modelled.
- The span assembler, exporter, quota, IPC, pipeline and scanner modules, the semantic-convention tables, floating-point
  gates, and all process control.
