# Verified model of the agent's core machinery

This project models five parts of the New Relic Python agent in Dafny and proves what they are
for. Each file holds one component: a module of datatypes, functions and lemmas that say what the
code does step by step, and, where the code updates objects in place, a second module with the
classes themselves, whose methods are proved to do exactly those steps.

**Trace-tree accounting** (`TraceModel`, `TraceInvariant`, `TraceEntry`, `TraceIdle`, `TraceWalk`,
`TraceNested`, `TimeTrace`). Traces form a tree that is completed from the leaves; exclusive time
is accumulated as a negative sum, a minimum start and an upward walk. Events (enter, exit,
stop_recording) happen one at a time, in any interleaving, on a clock that never goes back; times
are integers. The invariant of every reachable tree is proved first, and which enters are traced.
On top of it: the exclusive time of a trace whose children exit with nothing outstanding below
them, and that of the transaction itself, is its idle time; the walk charges every unit of time to
the nearest ancestor running then, exactly if no visited ancestor ended after the batch, and the
exit that ends a batch starts just such a walk; and properly nested transactions record a total
time equal to their duration.

**Distributed tracing** (`Text`, `TraceParent`, `TraceState`, `NrTraceState`, `DistributedTrace`,
`Iteration`, `ServiceChain`). The traceparent and tracestate headers of W3C Trace Context
(sections 3.2 and 3.3), the agent's own list-member, the accept and create steps of one
transaction, and chains of services of one trusted account. Priorities are integers in millionths.
Codecs are proved against round trips and independent readings; a transaction over all sequences
of calls; a chain over all lengths, all sampler settings and all inbound headers.

**Infinite tracing** (`StreamBuffer`, `StreamingRpc`, `StreamingPipeline`). A bounded queue that
drops its oldest item, several iterators over it, batching, shutdown and wake-up; the reconnecting
loop with back-off; and both together. Every region under a lock is one atomic step, and runs are
arbitrary sequences of steps.

**Response transformers** (`HtmlInsertion`, `HttpHeaders`, `WsgiMiddleware`, `AsgiMiddleware`). Two
middlewares that buffer a response, insert a snippet at most once and correct the content length.
The body tag is searched byte by byte; the other regular expressions are arbitrary finders whose
results lie inside the text they search.

**Smaller machines** (`ThreadUtilization`, `TransactionContext`, `AsyncGenerator`, `Obfuscation`).
The utilization integrals of the C extension, the context that drives a transaction through a
coroutine or generator, the async generator wrapper, and the XOR, base64 and UTF-8 obfuscation.

Where the code differs from what it documents or implements, the model follows the code:

- Trace flags are two hexadecimal digits in section 3.2.2.5 of W3C Trace Context, but the decoder
  reads them in base 2 and fails on other digits: `TraceParent.FlagsAreReadInBaseTwo` gives the
  exact condition, `TraceParent.FlagsTwoFail` headers on which it fails (`TraceParent.ValidIdsExist`
  is one of them), and `TraceParent.TextOfDecoded` says for which headers re-encoding is faithful.
- A comment in `put` (newrelic/common/streaming_utils.py:55-59) warns that drops may be
  over-counted; with the lock regions as written they are counted exactly
  (`StreamBufferModel.RunsKeep`).
- A negative time in the agent's tracestate member makes it undecodable:
  `NrTraceState.DecodesIffTimeNotNegative`.
- A GeneratorExit thrown into a wrapped async generator becomes a close:
  `AsyncGeneratorWrapper.WrapperIsTransparent` says in which runs the driver can tell, and
  `AsyncGeneratorWrapper.QuietEndIsHidden` gives such a run.
- A priority that arrives outside [0, 3] may be kept:
  `DistributedTraceModel.PriorityStaysInRange` says exactly when, and
  `ServiceChain.HighPriorityIsKept` gives headers that bring one.
- The WSGI middleware looks for the body tag in the newest piece only
  (newrelic/api/wsgi_application.py:230), so it misses a tag that is cut in two:
  `WsgiMiddleware.CutTagIsMissed` is an example, and `WsgiMiddleware.CutsDoNotMatterIff` the exact
  condition.
- The agent's own tracestate member is dropped by the receiving decoder when its key or payload is
  over 256 characters: `ServiceChain.EntryArrivesIff` is the exact condition, and
  `TraceState.OverlongIsDropped` says what is left then.

Clocks, random numbers, the sampler behind `compute_sampled`, the current span, the parsing of
integers and floats, header policies and the results of library calls are parameters.

## Model

| member | source | states |
|---|---|---|
| TraceInvariant.ReachableTreesKeepInvariant | newrelic/api/time_trace.py:520-606 | every tree any interleaving reaches: `child_count` less recorded children is the number of outstanding children; exactly the exited traces without outstanding children are complete; completion numbers are 1..n, used once, in post-order; every completed trace is recorded once, in completion order; the async flag and the minimum start belong to running batches; the total time is the sum over completed traces |
| TraceInvariant.CompletedForGood | newrelic/api/time_trace.py:538-564 | a trace completes once: nothing that happens later changes its record, its number or its exclusive time |
| TraceInvariant.SyncOnlyWhenAlone | newrelic/api/time_trace.py:553-555 | a child is charged synchronously only if it is the sole outstanding child of a running parent |
| TraceInvariant.WalkSkipsCompleted | newrelic/api/time_trace.py:617-642 | the upward walk never changes the exclusive time of a completed trace |
| TraceEntry.EnterAddsOne | newrelic/api/time_trace.py:74-123 | over every run, entering under the Sentinel or under a trace that was entered as not terminal adds exactly one running trace, with that parent and start time and one more outstanding child, if that parent has not exited and nothing was stopped; in all other cases it changes nothing |
| TraceEntry.TakesChildrenTold | newrelic/api/time_trace.py:94-99 | which traces take children is settled by the event that made them, or by being the Sentinel |
| TraceIdle.ExclusiveIsIdleTime | newrelic/api/time_trace.py:617-672 | over every interleaving with anything else in the tree and with stop_recording, a finished trace whose children exited with nothing outstanding has as exclusive time exactly the time when it was running and none of its children was; the clamp never acts |
| TraceIdle.SentinelExclusiveIsIdleTime | newrelic/api/transaction.py:448-531 | the same for the transaction: once its top-level traces have completed, the exclusive time recorded at its exit is the time when it ran, was not stopped and none of them was running |
| TraceIdle.StepAccounts | newrelic/api/time_trace.py:164-188 | one event of any kind keeps the bookkeeping of such a trace equal to the idle time so far |
| TraceWalk.WalkChargesNearestRunning | newrelic/api/time_trace.py:617-642 | the walk charges each time unit of the batch once, to the nearest ancestor running then, if and only if no exited ancestor it visits ended after the batch |
| TraceWalk.WholeIntervalCharged | newrelic/api/time_trace.py:637-642 | once a running ancestor is reached the walk has taken exactly the length of the batch off the tree |
| TraceWalk.ExitChargesBatch | newrelic/api/time_trace.py:644-659 | in every reachable tree, when the last outstanding child of an async parent exits and completes, every other trace is charged exactly the time units of the batch for which it was the nearest running one from the parent upwards; if the parent completes as well, that changes only traces above it |
| TraceNested.TotalTimeIsDuration | newrelic/api/transaction.py:448-531 | in every properly nested run whose traces have all completed, the recorded total time is the transaction's duration, wherever stop_recording fell |
| TraceNested.NothingClamped | newrelic/api/time_trace.py:170-174 | in a properly nested run no exclusive time is ever clamped |
| TimeTraceObjects.TimeTrace.IncrementChildCount | newrelic/api/time_trace.py:661-672 | the new tree is the old one with one more child counted and the async verdict renewed; no other trace changes |
| TimeTraceObjects.TimeTrace.Enter | newrelic/api/time_trace.py:74-123 | entering under the given or current parent does to the objects what `TraceEntry.EnterAddsOne` says of the tree: nothing under exited and terminal parents and after a stop, one trace more otherwise |
| TimeTraceObjects.TimeTrace.Exit | newrelic/api/time_trace.py:125-186 | exiting marks the trace and completes it, and all ancestors that were waiting for it, exactly as in the model of the tree |
| TimeTraceObjects.TimeTrace.CompleteTrace | newrelic/api/time_trace.py:531-536 | the climb of deferred completions |
| TimeTraceObjects.TimeTrace.UpdateAsyncExclusiveTime | newrelic/api/time_trace.py:617-642 | the recursive walk changes nothing but the exclusive times the model says |
| TimeTraceObjects.TimeTrace.ProcessChild | newrelic/api/time_trace.py:644-659 | recording a child, synchronously or in a batch |
| TimeTraceObjects.Transaction.ProcessNode | newrelic/api/transaction.py:1550-1553 | numbering a completed trace and adding its exclusive time to the total |
| TimeTraceObjects.Transaction.StopRecording | newrelic/api/transaction.py:1569-1580 | stopping pins the end time once |
| TimeTraceObjects.Transaction.Finish | newrelic/api/transaction.py:448-531 | the totals of the transaction's exit |
| Text.SplitOfJoin | newrelic/common/encoding_utils.py:404 | joined parts that are free of the separator come back from a split |
| Text.JoinOfSplit | newrelic/common/encoding_utils.py:404 | a split loses nothing |
| Text.FixedHasItsValue | newrelic/common/encoding_utils.py:475-477 | the six-decimal text without trailing zeros and point reads back as the number in millionths it was made from |
| Text.FixedIsShort | newrelic/common/encoding_utils.py:475-477 | a whole number is written without a point, any other with one and at most six decimals, the last not a zero |
| TraceParent.AcceptedIffHeader | newrelic/common/encoding_utils.py:398-437 | the accepted headers are exactly those of the standard's form with binary flags, which may go on after a dash unless the version is 00; and what is read from each |
| TraceParent.MatchesHexIff | newrelic/common/encoding_utils.py:425-427 | a field is one or more lower-case hexadecimal digits, and may end in a newline |
| TraceParent.HexDigits | newrelic/common/encoding_utils.py:32 | the hexadecimal digits are those of lower case |
| TraceParent.BadFlagsAreDeclined | newrelic/common/encoding_utils.py:398-437 | flags that are not hexadecimal are turned down |
| TraceParent.FlagsAreReadInBaseTwo | newrelic/common/encoding_utils.py:398-437 | a header of the standard's form is accepted if and only if both flag digits are binary, fails otherwise, and is read field by field |
| TraceParent.BinaryFlagsAre | newrelic/common/encoding_utils.py:435 | what the two flag digits are read as: 0 to 3 for binary digits, the first the higher, nothing otherwise; a digit and a newline also read |
| TraceParent.FlagsTwoFail | newrelic/common/encoding_utils.py:398-437 | every well-formed version-00 header with the flags 02 makes the decoder fail |
| TraceParent.DecodeUndoesText | newrelic/common/encoding_utils.py:388-437 | decoding the text of any parent with valid ids gives it back, with the trace id lowered and padded |
| TraceParent.ZFillFills | newrelic/common/encoding_utils.py:388-396 | a short trace id is filled up to 32 characters with zeros, which stand behind a sign |
| TraceParent.TextOfDecoded | newrelic/common/encoding_utils.py:388-437 | re-encoding a decoded version-00 header gives the same header if and only if its flags were 00 or 01 |
| TraceState.DecodeLoop | newrelic/common/encoding_utils.py:445-457 | the loop over the list-members computes the ordered dictionary |
| TraceState.DecodeIsOrderedDict | newrelic/common/encoding_utils.py:448-457 | keys stand in order of first appearance, each once, with their last value, and none is missing |
| TraceState.BlanksAroundComma | newrelic/common/encoding_utils.py:448-457 | blanks and tabs around a comma make no difference |
| TraceState.SpaceCharacters | newrelic/common/encoding_utils.py:446 | the characters that count as whitespace at the end of a header |
| TraceState.DecodeOfMembers | newrelic/common/encoding_utils.py:440-457 | entries without separators or outer blanks come back from their text, in order |
| TraceState.DecodeTextDecode | newrelic/common/encoding_utils.py:440-457 | for any tracestate with blanks as the only whitespace and none leading, decode after text after decode is decode, up to the limit of the text |
| TraceState.EmittedDecodes | newrelic/api/transaction.py:1118-1121 | the agent's member in front of kept entries decodes to that member and those entries |
| TraceState.OutboundTracestate | newrelic/api/transaction.py:1296-1304 | the outbound tracestate decodes to the agent's own entry first and then at most 31 foreign ones, which stand in the order in which their keys first appeared and have their last values: at most 32 list-members, the agent's key once |
| TraceState.OverlongIsDropped | newrelic/common/encoding_utils.py:448-457 | an own member with a key or value over the limit is dropped, and the foreign entries still come through |
| NrTraceState.DecodeLoop | newrelic/common/encoding_utils.py:484-519 | the loop that fills a dictionary from the non-empty fields decodes as the model of decode says |
| NrTraceState.DecodesIffComplete | newrelic/common/encoding_utils.py:484-505 | nine fields decode if and only if version, ids and time are there, the type is known and the time is a number; and whatever stands after them makes no difference |
| NrTraceState.DecodesTo | newrelic/common/encoding_utils.py:484-519 | what nine complete fields decode to: types 0, 1 and 2 are App, Browser and Mobile; empty ids, flag and priority are missing, others are taken as they are; a flag that is neither 0 nor 1, and a priority that is no number, are None |
| NrTraceState.DecodeUndoesText | newrelic/common/encoding_utils.py:474-519 | for dash-free ids, a non-negative time and a six-decimal priority every field comes back but the span id |
| NrTraceState.DecodesIffTimeNotNegative | newrelic/common/encoding_utils.py:482-493 | the text decodes if and only if the time is not negative |
| NrTraceState.OtherPrioritiesShow | newrelic/common/encoding_utils.py:474-483 | how a missing, null, zero or negative priority is written |
| NrTraceState.MemberIsSolid | newrelic/common/encoding_utils.py:474-483 | a member made of plain ids survives the tracestate codec |
| DistributedTraceModel.PriorityStaysInRange | newrelic/api/transaction.py:923-1001 | for every sampler setting the decided priority lies in [0, 3] if and only if no out-of-range priority is kept |
| DistributedTraceModel.DecisionObeysSetting | newrelic/api/transaction.py:942-1019 | a transaction without a remote parent obeys the root setting, one with a sampled or an unsampled parent that for it: always_on is sampled at 3.0, always_off is not sampled at 0, a ratio asks the sampler whatever the inbound flag, and adaptive keeps an inbound flag; it is decided once |
| DistributedTraceModel.RunObeysSetting | newrelic/api/transaction.py:942-1019 | over any run, all headers sent and the recorded node are sampled at 3.0 if the setting for the parent whose headers were accepted, or for roots if none were, says always, and not sampled at 0 if it says never |
| DistributedTraceModel.KeyDecides | newrelic/api/transaction.py:1074-1109 | the trusted key is the one that is set, else in a serverless process the account; without one nothing is accepted and nothing sent |
| DistributedTraceModel.StripIsMiddle | newrelic/api/transaction.py:1284 | what is stripped is whitespace at both ends and nothing else |
| DistributedTraceModel.SentIff | newrelic/api/transaction.py:1074-1109 | headers are sent if and only if the transaction and distributed tracing are on and account, application and trusted key are there; which ids, flag, priority and key they carry |
| DistributedTraceModel.UntracedIsNotSampled | newrelic/api/transaction.py:554-563 | without distributed tracing the recorded node is not sampled, at the random priority |
| DistributedTraceModel.OneStory | newrelic/api/transaction.py:1003-1019 | over any sequence of accept, insert and exit, all headers sent and the recorded node carry the same trace id, sampled flag and priority |
| DistributedTraceModel.AcceptedIffFirst | newrelic/api/transaction.py:1140-1158 | headers are accepted if and only if they decode and nothing was accepted, sent or recorded before: at most one accept succeeds, and none after a header was created |
| DistributedTraceObjects.Transaction.constructor | newrelic/api/transaction.py:259-284 | a new transaction has neither accepted nor created and its guid is cut from its trace id |
| DistributedTraceObjects.Transaction.SamplingAlgorithm | newrelic/api/transaction.py:923-940 | a priority and a flag that are both given are kept; a missing flag is asked of the sampler; otherwise an unsampled result keeps the inbound or random priority and a sampled one has two plus its fraction |
| DistributedTraceObjects.Transaction.MakeSamplingDecision | newrelic/api/transaction.py:942-1019 | one decision per transaction, the one that `DistributedTraceModel.DecisionObeysSetting` characterises |
| DistributedTraceObjects.Transaction.CreateDistributedTraceData | newrelic/api/transaction.py:1074-1109 | the data of the headers, or none and no change if an id is missing |
| DistributedTraceObjects.Transaction.InsertDistributedTraceHeaders | newrelic/api/transaction.py:1111-1138 | both headers, the agent's tracestate entry in front of the kept ones |
| DistributedTraceObjects.Transaction.AcceptTracestate | newrelic/api/transaction.py:1295-1322 | foreign entries are kept, the agent's own is decoded |
| DistributedTraceObjects.Transaction.AcceptDistributedTraceData | newrelic/api/transaction.py:1226-1254 | parent, trace id, priority and flag are taken over; the transport time is never negative |
| DistributedTraceObjects.Transaction.AcceptDistributedTraceHeaders | newrelic/api/transaction.py:1256-1324 | refused headers change nothing; accepted ones do what the model of one step says |
| DistributedTraceObjects.Transaction.Exit | newrelic/api/transaction.py:554-563 | the sampling of the recorded node |
| ServiceChain.Link | newrelic/api/transaction.py:1256-1324 | a successor accepts the headers of any ready predecessor and ends in exactly the state described: its trace id, span, flag and foreign entries, and its transaction, application, account and priority if the agent's entry fits |
| ServiceChain.EntryArrivesIff | newrelic/common/encoding_utils.py:445-519 | of what is sent, the agent's entry arrives if and only if its key and payload are at most 256 characters and its time is not negative; the foreign entries arrive in any case |
| ServiceChain.ShortIdsFit | newrelic/common/encoding_utils.py:450-483 | with ids of at most 27 characters and times of at most 15 digits the entry fits |
| ServiceChain.HighPriorityIsKept | newrelic/api/transaction.py:997-1001 | headers whose agent entry carries priority 7 and the sampled flag are accepted, and an adaptive sampler ends at priority 7 |
| ServiceChain.FirstServes | newrelic/api/transaction.py:1074-1121 | a root service, or one that gets any well-formed headers from outside, sends headers |
| ServiceChain.ServedFacts | newrelic/api/transaction.py:1003-1019 | every hop's priority lies in [0, 3] for every sampler setting, its sampling is settled, and its headers carry its state |
| ServiceChain.ChainIsLinked | newrelic/api/transaction.py:1226-1324 | in a chain of any length every hop accepts and knows its predecessor's trace id, span and sampled flag and keeps the foreign tracestate entries; it knows transaction, application and account exactly if the predecessor's entry fits, and then an adaptive sampler takes over flag and priority |
| ServiceChain.ChainsExist | newrelic/api/transaction.py:1256-1324 | there are chains of every length that meet all that is asked of them |
| ServiceChain.OneTrace | newrelic/api/transaction.py:1239 | one trace id and one set of foreign entries from end to end |
| ServiceChain.SampledAsAWhole | newrelic/api/transaction.py:997-1001 | with adaptive samplers behind the first service and entries that fit all hops have its sampled flag and priority |
| StreamBufferModel.RunsKeep | newrelic/common/streaming_utils.py:43-142 | over every interleaving of put, stats, shutdown and several iterators: accepted items are, in order, those delivered or evicted and then those queued; `seen` and `dropped` are exact; batches hold 1 to 100 items and concatenate to what was delivered; no iterator sleeps on a non-empty or shut-down buffer |
| StreamBufferModel.ToldByEvents | newrelic/common/streaming_utils.py:43-142 | over every interleaving the items accepted are exactly those put before the first shutdown, and an iterator is shut down exactly if somebody did that, or it came for more when its stream had ended or the buffer was shut down |
| StreamBufferModel.LivePassDelivers | newrelic/common/streaming_utils.py:101-140 | a pass of a live iterator over a queue that is not empty delivers its oldest item, or with batching its min(length, 100) oldest, and takes just those off; over an empty one it waits unless the stream has ended |
| StreamBufferModel.StoppingTakesNothing | newrelic/common/streaming_utils.py:110-114 | an iterator that stops removes nothing and stays shut down |
| StreamBufferModel.BatchIsSingleFetches | newrelic/common/streaming_utils.py:116-134 | a batch is what as many single fetches would have returned, short of the whole queue only at the maximum |
| StreamBufferObjects.StreamBuffer.Put | newrelic/common/streaming_utils.py:48-64 | an accepted item is counted, evicts the oldest of a full queue and wakes all; none is accepted after shutdown |
| StreamBufferObjects.StreamBuffer.Stats | newrelic/common/streaming_utils.py:66-71 | both counters are read and reset together |
| StreamBufferObjects.StreamBuffer.Shutdown | newrelic/common/streaming_utils.py:43-46 | the flag is set and all wait no longer |
| StreamBufferObjects.StreamBufferIterator.Shutdown | newrelic/common/streaming_utils.py:93-96 | the same for one iterator |
| StreamBufferObjects.StreamBufferIterator.Attempt | newrelic/common/streaming_utils.py:101-140 | one pass of the loop: stop, deliver or wait, and what it takes from the queue |
| StreamingRpcModel.RunsKeep | newrelic/core/agent_streaming.py:82-196 | over every interleaving with close(): `closed` exactly when the channel is gone; all iterators handed out before the current one are shut down; the k-th back-off waits what the policy says for min(k, 5), however many reconnects come between |
| StreamingRpcModel.OneWaitPerFailure | newrelic/core/agent_streaming.py:117-187 | over every run the thread has waited exactly once for each stream that failed with neither OK nor UNIMPLEMENTED, and made one channel for each that ended with OK and each wait that no close came into |
| StreamingRpcModel.EveryEvent | newrelic/core/agent_streaming.py:112-196 | in every reachable state: the k-th failure leaves the thread waiting for the time that the policy has for the k-th, its iterator shut down; OK, or the end of a wait, is followed at once by one live iterator over a new channel, with no wait; UNIMPLEMENTED, or having been closed, ends the thread |
| StreamingRpcModel.FirstTurn | newrelic/core/agent_streaming.py:82-187 | the first turn of the loop streams over the channel that is there, without a wait |
| StreamingRpcModel.NeverStuck | newrelic/core/agent_streaming.py:92-196 | close() can come at any time, and the thread has a next step until it ends |
| StreamingRpcModel.HandsOutAfterShutdown | newrelic/core/agent_streaming.py:82-86 | a new iterator is handed out alone and only after all earlier ones are shut down |
| StreamingRpcModel.ClosedForGood | newrelic/core/agent_streaming.py:92-99 | after close no channel is created and no iterator handed out |
| StreamingRpcModel.UnimplementedEnds | newrelic/core/agent_streaming.py:140-147 | UNIMPLEMENTED ends the loop, closed |
| StreamingPipeline.RunsKeep | newrelic/core/agent_streaming.py:82-196 | over every run of loop and buffer together all iterators handed out before the latest are shut down, and deliveries never go back to an earlier one |
| StreamingPipeline.OnlyOneDelivers | newrelic/common/streaming_utils.py:101-140 | whatever a step of such a run takes off the queue for an iterator, it takes for the latest |
| StreamingPipeline.EachRuns | newrelic/core/agent_streaming.py:82-196 | a run of the two together is a run of each: the item accounting of the buffer holds across all reconnects, and what was accepted and which iterators are shut down is told by the events |
| StreamingPipeline.RegionLeaves | newrelic/core/agent_streaming.py:117-187 | in every reachable state a stream that ended with OK leaves its iterator to be shut down and then a new one to be made, a failed one just the first, the end of a wait just the second, and a closed rpc nothing |
| StreamingPipeline.NothingIsHeldUp | newrelic/common/streaming_utils.py:43-142 | nothing that the response thread still has to do to the buffer can be held up, and others can put, read the counters and shut down at any time |
| StreamingRpcObjects.StreamingRpc.constructor | newrelic/core/agent_streaming.py:39-62 | one channel and one iterator that is never handed out |
| StreamingRpcObjects.StreamingRpc.CreateResponseIterator | newrelic/core/agent_streaming.py:82-86 | a fresh iterator over the same buffer |
| StreamingRpcObjects.StreamingRpc.Close | newrelic/core/agent_streaming.py:92-99 | closing is done once |
| StreamingRpcObjects.StreamingRpc.BackOff | newrelic/core/agent_streaming.py:149-175 | the next time of the policy, the iterator shut down |
| StreamingRpcObjects.StreamingRpc.ProcessRegion | newrelic/core/agent_streaming.py:117-187 | one region of the loop under the lock is one step of the model, of which `StreamingRpcModel.EveryEvent` says what comes of each code |
| StreamingRpcObjects.StreamingRpc.Resume | newrelic/core/agent_streaming.py:176-187 | so is the region after the wait |
| HtmlInsertion.FindBodyIsLeftmost | newrelic/api/html_insertion.py:30 | the byte scan finds the leftmost body tag, and finds none only if there is none |
| HtmlInsertion.BodyAtIff | newrelic/api/html_insertion.py:30 | a body tag is a tag name, `<body` in letters of either case, and a `>` anywhere behind it |
| HtmlInsertion.TagAtIff | newrelic/api/html_insertion.py:30 | the bytes of the tag name |
| HtmlInsertion.BodyInSuffix | newrelic/api/html_insertion.py:98-99 | a tag in the last piece is a tag of the whole |
| HtmlInsertion.InsertionRewrites | newrelic/api/html_insertion.py:33-95 | the result is the data, or the data with the text once and no later than the body tag; there is none if and only if no tag lies within the limit and the data is no longer than it |
| HtmlInsertion.InsertionPlace | newrelic/api/html_insertion.py:61-95 | attachments are left alone; otherwise the text stands right after the later of the X-UA and charset declarations in front of the body, and without one right after the head tag or right before the body tag |
| HtmlInsertion.RewritesExtends | newrelic/api/wsgi_application.py:437-440 | data passed on afterwards keeps it so |
| WsgiMiddleware.FallbackUnreachable | newrelic/api/wsgi_application.py:253-277 | a body tag seen while buffering always decides the insertion: the fallback is never reached |
| WsgiMiddleware.DecisionRewrites | newrelic/api/wsgi_application.py:198-277 | what is sent at once rewrites all there was; what is held back is less than 64 KiB |
| WsgiMiddleware.TagDecides | newrelic/api/wsgi_application.py:225-273 | the first piece that holds a whole body tag sends the insertion into everything held back, and the rest passes through |
| WsgiMiddleware.CutsDoNotMatterIff | newrelic/api/wsgi_application.py:198-277 | a response below 64 KiB comes out as if it had come in one piece if and only if some piece holds a whole body tag or there is nothing to insert |
| WsgiMiddleware.CutTagIsMissed | newrelic/api/wsgi_application.py:230 | a page of one body tag gets the text when it comes in one piece, and not when the tag is cut in two |
| WsgiMiddleware.GivesUpAtLimit | newrelic/api/wsgi_application.py:225-250 | with no tag in the newest piece everything is sent as it is from 64 KiB on, and held back below |
| WsgiMiddleware.EmittedIsRight | newrelic/api/wsgi_application.py:279-288 | for numbers that can be read back: the headers that are sent declare the application's length plus what the body has grown by, and are otherwise the same and in order; so a length that was right is right |
| WsgiMiddleware.Middleware.Respond | newrelic/api/wsgi_application.py:314-496 | a whole response: passed through unchanged exactly if insertion is disabled, a length is unparsable or the headers are not eligible; otherwise rewritten at most once, and in either case a declared length equal to the body given is sent as the length of the bytes yielded |
| HttpHeaders.EligibleIff | newrelic/api/wsgi_application.py:374-420 | headers are eligible if and only if there is no content encoding, the last content disposition is no attachment and the last content type is an allowed one |
| HttpHeaders.DeclaredLengthIs | newrelic/api/wsgi_application.py:352-372 | the declared length is that of the last header that declares one |
| HttpHeaders.OnlyContentLengths | newrelic/api/wsgi_application.py:352-372 | only content-length headers declare a length, and every one does unless one is unparsable |
| HttpHeaders.OthersAreLeft | newrelic/api/wsgi_application.py:352-372 | taking the length out leaves every other header as often as it was there |
| HttpHeaders.WithoutLengthTwice | newrelic/api/wsgi_application.py:352-372 | what is left declares no length |
| WsgiMiddleware.Middleware.StartResponse | newrelic/api/wsgi_application.py:314-420 | pass-through exactly if disabled, the length is unparsable or the headers are not eligible; otherwise the declared length is taken out |
| WsgiMiddleware.Middleware.ScanHeaders | newrelic/api/wsgi_application.py:352-372 | the loop finds the last of each header and keeps the others in order |
| WsgiMiddleware.Middleware.ProcessData | newrelic/api/wsgi_application.py:198-277 | what one piece decides, with the content length raised by what was inserted |
| WsgiMiddleware.Middleware.FlushHeaders | newrelic/api/wsgi_application.py:279-288 | the headers go out with the corrected length, which can be read back from them |
| WsgiMiddleware.Middleware.Next | newrelic/api/wsgi_application.py:432-481 | one turn of the loop keeps: all is held back, or all was sent with the text inserted at most once |
| WsgiMiddleware.Middleware.Finish | newrelic/api/wsgi_application.py:483-496 | headers of an undecided response go out, then the rest |
| WsgiMiddleware.Middleware.Iterate | newrelic/api/wsgi_application.py:429-496 | the bytes yielded are the application's with the text inserted at most once, no later than the body tag, and the declared length is sent raised by exactly the inserted length |
| AsgiMiddleware.ResponseIsDelivered | newrelic/api/asgi_application.py:126-206 | whatever is no longer held back arrived: the same bytes in order with at most one insertion before the body tag, the same end, and a start message changed only in a parsable content length, raised by exactly the inserted length |
| AsgiMiddleware.InsertsWhenItCan | newrelic/api/asgi_application.py:150-194 | a response that is still held back when a body part makes room for the text is sent at once with the text in all that was buffered and the content length raised, or as it was if no length can be corrected |
| AsgiMiddleware.CorrectionRaises | newrelic/api/asgi_application.py:166-189 | for numbers that can be read back: the corrected start message differs from the one given in its first content length alone, which reads as the old one plus what the body has grown by |
| AsgiMiddleware.SentCorrected | newrelic/api/asgi_application.py:166-189 | that start message goes out with the whole insertion |
| AsgiMiddleware.SentAsItCame | newrelic/api/asgi_application.py:166-189 | if no first content length can be read, start and body go out as they came |
| AsgiMiddleware.OnePartIsAll | newrelic/api/asgi_application.py:136-164 | a body part that does not say that more comes ends the response; its bytes are the body, and one without bytes adds none |
| AsgiMiddleware.TagMakesRoom | newrelic/api/html_insertion.py:61-95 | a body tag within the search limit makes room for exactly the text, unless the page is marked as an attachment |
| AsgiMiddleware.HeldBackIff | newrelic/api/asgi_application.py:126-206 | a response is held back if and only if it is eligible, more is to come, and the text neither could be inserted so far nor was the limit reached |
| AsgiMiddleware.FirstNamed | newrelic/api/asgi_application.py:169-174 | the header found is the first of its name, and none is found only if there is none |
| AsgiMiddleware.NotHeldBack | newrelic/api/asgi_application.py:196-206 | a response that ended, or broke the protocol, is not held back |
| AsgiMiddleware.BrowserMiddleware.SendInjectBrowserAgent | newrelic/api/asgi_application.py:126-206 | one message does what the model of one step says |
| AsgiMiddleware.BrowserMiddleware.FlushBuffered | newrelic/api/asgi_application.py:67-72 | start message and body go out once |
| AsgiMiddleware.BrowserMiddleware.AbortAll | newrelic/api/asgi_application.py:74-79 | the saved messages go out as they came |
| AsgiMiddleware.BrowserMiddleware.CorrectLength | newrelic/api/asgi_application.py:166-189 | the first content length is raised, or nothing is inserted |
| AsgiMiddleware.BrowserMiddleware.FindLength | newrelic/api/asgi_application.py:169-174 | the loop finds the first content-length header |
| ThreadUtilizationModel.CapacityIsTracked | newrelic/core/_thread_utilization.c:85-140 | the thread set holds the threads that came and did not leave, the count is their number, the integral is the time that all threads have been there, and fetched rates weighted by their periods add up to the integral at the last fetch |
| ThreadUtilizationModel.CapacityIsTimeThere | newrelic/core/_thread_utilization.c:85-140 | read at any later time the integral is the sum over all threads of the time each has been there; right after a fetch that is what all fetches together have reported |
| ThreadUtilizationModel.PeriodBounded | newrelic/core/_thread_utilization.c:112-140 | the area of a period lies between its extreme thread counts times its length |
| ThreadUtilizationModel.FetchBetweenExtremes | newrelic/core/_thread_utilization.c:112-140 | every fetched rate lies between the extreme thread counts of its period |
| ThreadUtilizationModel.NothingElapsed | newrelic/core/_thread_utilization.c:112-140 | a fetch with no time since the last reports zero |
| ThreadUtilizationModel.UtilizationIsTimeInFlight | newrelic/core/_thread_utilization.c:231-253 | over every matched run the accumulated utilization is the sum over all requests of their time in flight so far |
| ThreadUtilizationObjects.ThreadUtilization.AdjustCapacity | newrelic/core/_thread_utilization.c:85-110 | the C steps, one assignment after the other, update all fields as the model says |
| ThreadUtilizationObjects.ThreadUtilization.AdjustRequestCount | newrelic/core/_thread_utilization.c:231-253 | the same for requests |
| ThreadUtilizationObjects.ThreadUtilization.EnterTransaction | newrelic/core/_thread_utilization.c:255-314 | a new thread is counted once; the active count stays the size of the thread set |
| ThreadUtilizationObjects.ThreadUtilization.ExitTransaction | newrelic/core/_thread_utilization.c:316-319 | a request leaves, the thread set stays |
| ThreadUtilizationObjects.ThreadUtilization.TotalThreads | newrelic/core/_thread_utilization.c:112-140 | the rate of the period, which ends here |
| ThreadUtilizationObjects.ThreadUtilization.DeleteFromAll | newrelic/core/_thread_utilization.c:342-364 | a known thread is uncounted, an unknown one ignored |
| TransactionContextModel.AtMostOnce | newrelic/common/async_proxy.py:43-180 | over every sequence of steps the factory runs at most once, a transaction starts at most once and is finished at most once, and only if it started |
| TransactionContextModel.StartedIff | newrelic/common/async_proxy.py:59-99 | over every sequence of steps, told by the events alone: the factory has run if and only if some step resumed with no pre-close before it, and the transaction has started if and only if the factory gave one and some step from that one on lets it start |
| TransactionContextModel.FinishedIffCompleted | newrelic/common/async_proxy.py:101-180 | the transaction is finished if and only if a completing step came with it started; StopIteration completes none of an async generator |
| TransactionContextModel.ReportedError | newrelic/common/async_proxy.py:101-180 | which exceptions are reported as an error |
| TransactionContextModel.ClosedBeforeStart | newrelic/common/async_proxy.py:43-46 | a close that comes first prevents the transaction altogether |
| TransactionContextModel.CloseFinishes | newrelic/common/async_proxy.py:204-214 | closing leaves no transaction running |
| TransactionContextModel.AcloseFinishes | newrelic/common/async_proxy.py:244-265 | an aclose of an async generator that has ended, in any way, leaves no transaction running |
| TransactionContextObjects.TransactionContext.Enter | newrelic/common/async_proxy.py:59-99 | the factory runs once, and a pending transaction is started by the first step that lets it |
| TransactionContextObjects.TransactionContext.Exit | newrelic/common/async_proxy.py:101-180 | a running transaction is finished as the exception asks |
| TransactionContextObjects.TransactionContext.Close | newrelic/common/async_proxy.py:48-57 | a started transaction is finished by a close |
| TransactionContextObjects.TransactionContext.PreClose | newrelic/common/async_proxy.py:43-46 | the factory will not run any more |
| TransactionContextObjects.Coroutine.SendOrThrow | newrelic/common/async_proxy.py:196-202 | every step runs inside the context |
| TransactionContextObjects.Coroutine.Close | newrelic/common/async_proxy.py:204-214 | close prevents, runs inside the context, and finishes |
| TransactionContextObjects.AsyncGeneratorProxy.Aclose | newrelic/common/async_proxy.py:257-265 | aclose prevents, awaits inside the context, and finishes |
| AsyncGeneratorWrapper.WrapperIsTransparent | newrelic/common/async_wrapper.py:57-77 | for every generator and every sequence of asend, athrow and aclose the driver gets the same replies as without the wrapper if and only if no thrown GeneratorExit is answered by yielding or returning |
| AsyncGeneratorWrapper.WithTheBody | newrelic/common/async_wrapper.py:57-77 | what a driver of a suspended generator is told of each answer of its body |
| AsyncGeneratorWrapper.WithoutTheBody | newrelic/common/async_wrapper.py:57-77 | what it is told where the body is not asked: before the first step and after the end |
| AsyncGeneratorWrapper.HandedTheSame | newrelic/common/async_wrapper.py:62-75 | in those runs the operations that the wrapper performs hand the wrapped body the same values and exceptions, in order, as without the wrapper |
| AsyncGeneratorWrapper.ThrownGeneratorExit | newrelic/common/async_wrapper.py:67-69 | a GeneratorExit thrown in gets the same reply if and only if the body answers it by raising |
| AsyncGeneratorWrapper.QuietEndIsHidden | newrelic/common/async_wrapper.py:67-69 | a generator that answers a thrown GeneratorExit by ending makes the driver see the difference |
| AsyncGeneratorWrapper.TraceSpansTheRun | newrelic/common/async_wrapper.py:61-75 | in every run the wrapper's body enters the trace before anything else, operates on the wrapped generator only inside it, and leaves it exactly when it ends, by returning, by an exception or by being closed |
| Obfuscation.Utf8IsExact | newrelic/common/encoding_utils.py:176 | the decoder accepts exactly what the encoder makes and gives it back (section 3 of RFC 3629) |
| Obfuscation.XorIsBitwise | newrelic/common/encoding_utils.py:128 | a bit of the result is set if just one of the two is |
| Obfuscation.EncryptedBits | newrelic/common/encoding_utils.py:115-128 | bit by bit, byte i of the encrypted text is byte i of the text and byte i modulo its length of the key |
| Obfuscation.DecryptUndoesEncrypt | newrelic/common/encoding_utils.py:115-141 | decrypting with the same cyclic key undoes encrypting |
| Obfuscation.B64Decodes | newrelic/common/encoding_utils.py:178 | base64 decoding undoes the encoding, padding included (section 4 of RFC 4648) |
| Obfuscation.GroupSpells | newrelic/common/encoding_utils.py:178 | four symbols spell in base 64 the number that the three bytes are in base 256 |
| Obfuscation.AlphabetOfSymbols | newrelic/common/encoding_utils.py:178 | the alphabet of section 4 of RFC 4648: A to Z, a to z, 0 to 9, plus and slash |
| Obfuscation.KnownTexts | newrelic/common/encoding_utils.py:178 | three test vectors of section 10 of RFC 4648 |
| Obfuscation.RoundTrip | newrelic/common/encoding_utils.py:144-205 | obfuscation works exactly with ASCII keys that are not empty (any ASCII key for an empty text), and deobfuscation gives every text back |
| Obfuscation.ObfuscatedTextsDiffer | newrelic/common/encoding_utils.py:144-205 | different texts have different obfuscated forms |

## Left out

- General async trees: where several deferred children with children of their own overlap, exclusive time is an approximation in the code, so only traces whose children exit with nothing outstanding, single batches and nested transactions get an exact meaning.
- Terminal subclasses, traces whose create_node gives nothing, failing save_trace, the trace cache, exiting one trace twice, and events after the transaction has exited.
- TimeTraceObjects.TimeTrace.Enter: which trace is current is given by the caller, because the trace cache is not part of this model.
- Wall clocks that go back, floating point and its rounding: times are integers on a non-decreasing clock, utilization is in thread-microseconds, priorities are in millionths with at most six decimals, and NaN and infinities do not occur.
- The legacy newrelic header: neither its payload nor the branch that accepts it is modelled, nor partial granularity, gRPC metadata helpers and supportability counters.
- Parsing of integers and floats by int() and float(): parameters that read plain decimals; other accepted spellings are left open.
- ServiceChain.ChainIsLinked: the services share one trusted key, switch distributed tracing and span events on, and have ids of letters and digits and valid hexadecimal span ids.
- ServiceChain.FirstServes: inbound headers are free of newlines in the traceparent, have blanks as the only whitespace of the tracestate and none leading, and a priority in [0, 3] if there is one.
- TraceParent.AcceptedIffHeader: for headers without newlines; the source's pattern also lets a field end in one.
- TraceState.OutboundTracestate: the same condition on whitespace; other tracestates can put whitespace into keys and values that does not survive a second decoding.
- DistributedTraceObjects.Transaction.AcceptDistributedTraceHeaders: the headers are given as two strings, not looked up in a mapping.
- The log level that goes with each time of the retry policy.
- Spurious wake-ups and time-outs of conditions, thread scheduling inside a lock region, and gRPC itself: only the code with which a stream ended enters the model.
- Use of write(), repeated start_response, application errors in the middle of a response, and data yielded before start_response.
- The snippet is a constant text, although the code asks for it when it is needed; regular expressions other than the body tag are arbitrary finders.
- StreamBufferObjects.StreamBufferIterator.Attempt: one pass of the loop; that the loop goes on after a wake-up is part of the run in the model.
- AsyncGeneratorWrapper.WrapperIsTransparent: the wrapper's loop is modelled by its steps, since Dafny has no generators; what a generator that yields while it is being closed does afterwards is left open.
- The fallback that guesses a cancellation exception, and the loop context of coroutines.
- TransactionContextObjects.TransactionContext.Enter: whether the factory gives a transaction and whether that can start are given by the caller.
- References, weak references and the interpreter lock in the C extension: each call is one atomic step.
- Obfuscation.RoundTrip: base64 text that is not in the encoder's form is refused by the model, while the library skips foreign characters; byte strings as input and the length argument of the key are not modelled.
- Configuration, harvesting, metrics, attributes, error collection, logging and all instrumentation hooks.
