# Verified models of RegEngine AI

RegEngine AI turns regulatory circulars into executable checks and keeps a hash-chained ledger of
every decision. This project models the parts of it whose correctness is decided by their own
code, and proves what they promise:

- `LedgerChain.dfy`, `LedgerExport.dfy`, `Failover.dfy`: the ledger's hash chain and its verifier,
  the incremental export to write-once storage under overlapping runs and crashes, the decision
  after a failover whether the new primary carries the same history, the outage monitor and the
  order of steps of a failover.
- `SlidingWindow.dfy`: the keyed sliding-window margin aggregation with timers and watermarks, the
  lookback it stands for, and its in-memory twin.
- `ScoreAlgebra.dfy`, `Anomaly.dfy`: the expanding-window z-score detector, over exact reals.
- `JsonLogic.dfy`, `Candidate.dfy`, `Replay.dfy`, `Snapshot.dfy`, `Report.dfy`: the backtest engine:
  rule compiler, evaluator, decisions, bounded-concurrency replay, dataset digest and report.
- `CdcConsumer.dfy`: the change-data-capture consumer under crashes and restarts, and the decision
  consumer that commits message by message.
- `PdfText.dfy`, `PdfFile.dfy`, `PdfDocument.dfy`: the hand-written PDF writer, with a reader that
  goes from the end of the file back to the lines of text.
- `Prelude.dfy`, `Strings.dfy`, `Sorting.dfy`: options, string order, stable sorting.

`dafny verify dfyconfig.toml` checks the whole project.

How things are modelled. Hashes are free constructors, so equal hashes mean equal inputs; stored
text that is no hash is a separate constructor. Concurrency and failure are events: a run is any
sequence of events, an event that is not enabled does nothing, and theorems speak of every such
sequence. Clocks, API answers, the evaluator, poll results and the cloud services are inputs.
Amounts and scores are exact reals. Objects that the code changes in place are classes whose
methods are proved against functions, and the theorems are about those functions.

Where the code and its documentation part ways, the code is modelled and the difference is proved:

- The anomaly module speaks of the mean and deviation of the preceding buckets; the code includes
  the bucket itself. `Anomaly.AgreeWithDocumentationExactly` says when the two agree,
  `Anomaly.JumpAfterEqualValues` and `Anomaly.MissedFlag` show both ways to disagree.
- The failover's own validation names no checkpoint bucket, so it never looks for a fork
  (`Failover.FailoverIgnoresForks`).
- The checkpoint modified last need not be the highest (`LedgerExport.SlowerRunLowersCheckpoint`);
  it is as good as all of them together exactly when the run that put it saw the most of the ledger
  (`LedgerExport.LatestDecidesInHistory`), which a run can test before it puts its manifest
  (`LedgerExport.PutManifestKeepsHighestExactly`).
- The decision consumer logs that a failed message will be redelivered; that holds only if no later
  message succeeds (`DecisionConsumer.LostExactly`).
- The dataset digest is called deterministic over the dataset; it depends on the order of
  transactions exactly when two of equal sort key are written differently in either order
  (`Snapshot.OrderIndependentExactly`).
- The tracker is called a simulation of the operator, but reads absent facts differently; it gives
  the operator's results exactly when no trade lacks a fact that matters
  (`SlidingWindow.TrackerIsOperator`).
- Pruning by timers is meant to go unnoticed; with elements behind the watermark it can be seen
  (`SlidingWindow.LateElementSeesPruning`), exactly under `SlidingWindow.PruningShowsExactly`.

## Model

| member | source | states |
|---|---|---|
| LedgerChain.AppendKeepsLedger | app/ledger/service.py:74-102 | appending extends a valid ledger by exactly one row, with the next number and the given payload, and keeps it a gapless hash chain from sequence number 0 |
| LedgerChain.CheckRow | app/ledger/verifier.py:75-123 | a row yields no break exactly when its number, previous hash, payload digest and block hash are all right |
| LedgerChain.VerifyChain | app/ledger/verifier.py:33-134 | the verifier's loop reports exactly the specified breaks, and "valid" exactly for chains anchored in the genesis block and linked row by row |
| LedgerChain.NoBreaksMeansValid | app/ledger/verifier.py:71-134 | the list of breaks is empty if and only if every row is anchored and linked |
| LedgerChain.BreaksExactly | app/ledger/verifier.py:59-123 | a break is reported if and only if a row of that number has that defect; a table that is not anchored is reported by its first row alone |
| LedgerChain.EqualHashEqualHistory | app/ledger/hash_chain.py:68-74 | in two consistent chains one equal block hash, at whatever positions, forces equal positions and equal hashed columns in all rows below |
| LedgerChain.CheckpointVerdict | dr/validate_chain_post_failover.py:88-120 | with a checkpoint at row c of a ledger, any table is judged valid if and only if it is a consistent chain that carries the ledger's rows 0..c |
| LedgerChain.ValidationReports | dr/validate_chain_post_failover.py:90-128 | for all three checkpoints: internal validity is the chain's own, nothing is compared exactly without a bucket or manifest, and the verdict is internal validity unless the checkpoint failed to match |
| LedgerChain.CheckpointReports | dr/validate_chain_post_failover.py:97-118 | a missing row, a hash mismatch or a match is reported exactly when the table has no row of the checkpoint's number, one with another hash, or one with its hash |
| LedgerChain.CheckpointReportsHistory | dr/validate_chain_post_failover.py:97-118 | on a consistent chain: a match exactly for agreement with the ledger up to the checkpoint, a missing row exactly when the chain ends before it, a fork otherwise |
| LedgerChain.ForkCaughtUpToCheckpoint | dr/validate_chain_post_failover.py:88-120 | a consistent fork or truncation at row d is rejected if and only if d is at or before the checkpoint |
| LedgerChain.InsertionClockIsNotCovered | app/ledger/hash_chain.py:31-42 | tables that differ from the ledger only in `created_at` pass validation |
| LedgerChain.NoCheckpointAcceptsForks | dr/validate_chain_post_failover.py:90-95 | without a bucket or manifest a table that leaves the ledger at any chosen row is still judged valid |
| LedgerExport.RowsAfterIsSuffix | dr/ledger_backup_export.py:85-90 | the query above a position returns exactly the ledger's slice above it |
| LedgerExport.StepKeepsInvariant | dr/ledger_backup_export.py:81-141 | every statement of every run, every append and every crash keeps: objects equal ledger slices, manifests name stored objects with true hashes, positions and in-flight runs are covered without a gap |
| LedgerExport.EveryHistorySafe | dr/ledger_backup_export.py:81-141 | the invariant holds after every interleaving of appends, overlapping runs of any exporters and crashes |
| LedgerExport.CrashedRunWritesNothing | dr/ledger_backup_export.py:81-141 | a crash ends its run for good, whatever happens later |
| LedgerExport.HistoryOnlyGrows | dr/ledger_backup_export.py:104-130 | no row, object or manifest is ever lost or changed, even when an object is put again under its key |
| LedgerExport.ExportedCheckpointVerdict | dr/validate_chain_post_failover.py:92-120 | for every manifest of every history, all rows up to it are stored, and validation against it accepts exactly the consistent chains that agree with the ledger up to it |
| LedgerExport.LatestDecidesExactly | dr/validate_chain_post_failover.py:70-75 | comparing a table with the checkpoint modified last alone is as good as comparing it with every stored one if and only if no stored one is higher |
| LedgerExport.PutManifestKeepsHighestExactly | dr/ledger_backup_export.py:123-130 | the manifest a run puts is then the highest if and only if no stored one is above the run's last row |
| LedgerExport.LatestDecidesInHistory | dr/validate_chain_post_failover.py:70-120 | after every history, the checkpoint modified last decides as well as all together if and only if the run that put it selected from a ledger at least as long as every other run that has put one |
| LedgerExport.SameRowSameVerdict | dr/ledger_backup_export.py:123-124 | checkpoints for the same row, in particular two put under one key, give the same validation result |
| LedgerExport.SlowerRunLowersCheckpoint | dr/validate_chain_post_failover.py:70-73 | when the slower of two overlapping runs finishes last, of whatever exporters and with or without a recorded position, the checkpoint modified last is not the highest, and forks between the two are accepted although the higher checkpoint is still stored |
| LedgerExport.SlowerRunLowersPosition | dr/ledger_backup_export.py:132-141 | for two runs of one exporter the recorded position then moves backwards, and everything up to the higher one is still stored |
| LedgerExport.OverlapCanArise | dr/ledger_backup_export.py:83-90 | from every safe state two runs of any exporters can come to overlap in this way |
| LedgerExport.Backup.ExportNewEntries | dr/ledger_backup_export.py:74-149 | an undisturbed run stores everything up to the end of the ledger, moves the position there, returns its manifest or nothing if there was nothing new, and keeps the invariant |
| LedgerExport.ReRunIsIdle | dr/ledger_backup_export.py:92-94 | running again at once changes nothing |
| Failover.RunFailover | dr/failover_orchestrator.py:145-174 | promotion is requested if and only if the lag is readable and within the limit or forced; DNS is flipped if and only if the promotion completed and the change was taken over, whatever the validation then says; the call returns if and only if all three steps took place |
| Failover.FailoverIgnoresForks | dr/failover_orchestrator.py:138-142 | the validation inside a failover accepts exactly the consistent chains, forks of the ledger at any row included |
| Failover.PrimaryHealthMonitor.RunForever | dr/health_check.py:79-96 | the loop computes the specified monitor state over any history of rounds, a check or a failover that raises ending it |
| Failover.CounterIsTrailingRun | dr/health_check.py:79-94 | while the monitor runs, its counter is the current run of failures modulo the threshold (a threshold below 1 acts like 1) |
| Failover.OutageExactly | dr/health_check.py:85-94 | an outage is confirmed if and only if the current run of failures is a positive multiple of the threshold |
| Failover.PromotionNeedsOutageAndSmallLag | dr/health_check.py:109-115 | a monitor-driven promotion follows at least `threshold` failures in a row and a measured lag within the limit; any other lag promotes nothing and ends the monitor |
| Failover.MonitorActsExactly | dr/health_check.py:79-96 | a round adds a promotion to the log if and only if it completes a multiple of the threshold in failures and the lag is measured and within the limit, then DNS and validation exactly as those steps succeed; the monitor runs on exactly if nothing raised |
| SlidingWindow.MarginWindow.ProcessElement | flink/stream_processor.py:112-141 | evict, append, register timer and emit, as one step of the operator |
| SlidingWindow.MarginWindow.OnTimer | flink/stream_processor.py:143-150 | pruning on a timer, clearing the key when nothing survives |
| SlidingWindow.TotalIsSum | flink/stream_processor.py:132-133 | the aggregate of one trade is its order value, margin and 1, and that of two lists together is the sum of theirs, component by component |
| SlidingWindow.EntriesRead | flink/stream_processor.py:117-120 | 100 times a trade's margin is its order value times its percentage; an absent fact is 0 for the operator, 100000 and 20 for the tracker |
| SlidingWindow.HeldExactly | flink/stream_processor.py:112-150 | in every run, with pruning or without, exactly those entries of a key are held that no later element and no due timer of that key has aged out, whatever other keys do |
| SlidingWindow.EmissionShowsExactly | flink/stream_processor.py:132-150 | one element's aggregate differs between pruning and not pruning if and only if an entry it would count has been pruned |
| SlidingWindow.PruningShowsExactly | flink/stream_processor.py:112-150 | for every schedule, late elements included, pruning changes the output if and only if a due timer drops an entry that a later element of the same key would still count |
| SlidingWindow.PruningUnobservable | flink/stream_processor.py:112-150 | for any schedule of watermarks and timers, runs whose elements are never behind the watermark emit the same aggregates with and without pruning |
| SlidingWindow.BoundedDisorderIsOnTime | flink/stream_processor.py:247-250 | with the bounded-out-of-orderness watermark, disorder within the bound keeps every element on time |
| SlidingWindow.LateElementSeesPruning | flink/stream_processor.py:128-130 | one millisecond behind the watermark is enough for pruning to show, whatever the two trades |
| SlidingWindow.EntriesAreTimed | flink/stream_processor.py:128-130 | in every run each held entry has its own pending timer |
| SlidingWindow.QuietKeyIsEmptied | flink/stream_processor.py:98-101 | once the watermark has passed a key's elements by the window and 1 ms and due timers have fired, no state is left for the key |
| SlidingWindow.KeyedRunIsWindow | flink/stream_processor.py:266-273 | without pruning a key's state is the window over its own arrivals alone |
| SlidingWindow.WindowIsSurvivors | flink/stream_processor.py:122-126 | for any order of arrival exactly those entries are held that no later arrival has aged out |
| SlidingWindow.WindowNearLookback | flink/stream_processor.py:122-126 | with bounded disorder the window holds nothing older than the window and everything younger than the window less the disorder |
| SlidingWindow.OrderedWindowIsLookback | flink/stream_processor.py:122-126 | for arrivals in order of time the window is exactly the inclusive lookback |
| SlidingWindow.EmissionIsLookback | flink/stream_processor.py:132-141 | with timers firing as they please, each element adds exactly its own order value and margin, and 1, to the totals over the inclusive lookback of its key |
| SlidingWindow.SlidingWindowTracker.AddTradeAndAggregate | flink/flink_job_runner.py:40-65 | the tracker evicts, appends and sums one key and leaves the others alone |
| SlidingWindow.TrackerIsOperator | flink/flink_job_runner.py:40-65 | for any clock and any interleaving of keys the tracker's results are those of the operator without timers if and only if every trade has its order value, and its percentage or an order value of 0 |
| SlidingWindow.KeysAreDistinct | flink/flink_job_runner.py:41 | keys of different (broker, client) pairs differ as long as broker ids contain no separator |
| Anomaly.FlaggedExactly | app/analytics/anomaly.py:62-74 | a value scores at least k if and only if it differs from the mean of the m values before it and m(m^2 - k^2 n) times its squared distance is at least k^2 n^2 times their squared deviations |
| Anomaly.ClassifiedExactly | app/analytics/anomaly.py:68-74 | HIGH exactly at the high level, LOW exactly at the low level and not the high one, in terms of the values before the bucket, for any thresholds and any length of history |
| Anomaly.ScoreNeedsHistory | app/analytics/anomaly.py:54-74 | a score of at least k at the n-th bucket needs (n-1)^2 >= k^2 n, whatever the values |
| Anomaly.JumpAfterEqualValues | app/analytics/anomaly.py:62-74 | after equal values any jump, of any size, is flagged at level k if and only if (n-1)^2 >= k^2 n |
| Anomaly.FlagImpliesDocumentedFlag | app/analytics/anomaly.py:5-11 | a flag of the code is a flag of the documented score against the preceding buckets, unless those are all alike |
| Anomaly.AgreeWithDocumentationExactly | app/analytics/anomaly.py:5-11 | code and documentation agree on a bucket if and only if it is neither a jump after equal values with long enough history nor a value far from its predecessors but not far enough for the mean it moves itself |
| Anomaly.ShortHistoryMissesFlags | app/analytics/anomaly.py:5-11 | while (n-1)^2 < k^2 n every flag of the documented score is missed by the code |
| Anomaly.MissedFlag | app/analytics/anomaly.py:62-65 | after 0 and 2 the value 100 is flagged by the documented score at level 2 and not by the code |
| Anomaly.AffineSeverity | app/analytics/anomaly.py:62-74 | changing unit (any nonzero factor) and offset of a series changes no severity |
| Anomaly.DetectInSeries | app/analytics/anomaly.py:108-163 | the detector's loops return exactly the specified events in order, none for a short series |
| Anomaly.DetectedExactly | app/analytics/anomaly.py:118-163 | exactly the buckets that reach a level against the values before them are reported, each once, metric by metric and in order, with its own broker, severity, label, value, baseline and direction |
| Anomaly.SpikeIsAboveBaseline | app/analytics/anomaly.py:132-138 | an event is a spike if and only if the value is above the reported baseline mean |
| Anomaly.NothingEarly | app/analytics/anomaly.py:47-51 | with the default thresholds nothing is reported in the first 5 buckets and nothing HIGH in the first 10 |
| JsonLogic.ResolveVar | app/backtest/jsonlogic_evaluator.py:42-48 | the cursor loop resolves a dotted path, or reports the whole path as missing |
| JsonLogic.IllShapedIsUnsupported | app/backtest/jsonlogic_evaluator.py:61-90 | a dictionary with several keys or none, an operator outside the eight, or the wrong operands is unsupported, whatever the facts |
| JsonLogic.ShapedIsSupported | app/backtest/jsonlogic_evaluator.py:51-90 | a rule well shaped throughout never evaluates to unsupported |
| JsonLogic.StringsCompare | app/backtest/jsonlogic_evaluator.py:21-27 | the five comparisons on strings follow code point order |
| JsonLogic.ListsCompareAtFirstDifference | app/backtest/jsonlogic_evaluator.py:21-27 | lists compare by their first difference, or by length |
| JsonLogic.MembershipExactly | app/backtest/jsonlogic_evaluator.py:76-81 | `in` is an equal item of a list, an occurrence in a string or a key of a dictionary, and a type error otherwise |
| JsonLogic.MissingIsNamedAndAbsent | app/backtest/jsonlogic_evaluator.py:68-88 | a reported missing path is named in the rule and absent from the facts |
| JsonLogic.DependsOnNamedFacts | app/backtest/jsonlogic_evaluator.py:51-90 | outcomes agree, reported path included, on documents that agree on the named paths |
| JsonLogic.AddingFactsKeepsOutcome | app/backtest/jsonlogic_evaluator.py:51-90 | adding facts changes no outcome except "missing", as long as no named fact is itself a dictionary |
| JsonLogic.FlattenKeepsOutcome | app/backtest/jsonlogic_evaluator.py:71-74 | flattening nested conjunctions, whatever their leaves, keeps the outcome and the reported path |
| JsonLogic.FlattenIsFlat | app/backtest/jsonlogic_evaluator.py:71-74 | no conjunction is left among the flattened leaves |
| JsonLogic.FirstFailureDecides | app/backtest/jsonlogic_evaluator.py:71-74 | a conjunction is true if and only if all leaves are satisfied, otherwise its first unsatisfied leaf decides |
| JsonLogic.PermutationKeepsTruth | app/backtest/jsonlogic_evaluator.py:71-74 | reordering leaves keeps truth both ways, and a failure is always one of the same leaves |
| JsonLogic.OrderMattersExactly | app/backtest/jsonlogic_evaluator.py:71-74 | some order of the leaves changes the outcome if and only if two leaves fail in different ways |
| Candidate.AddingFactsKeepsDecision | app/backtest/candidate_evaluator.py:52-71 | an allow or deny survives any further facts |
| Candidate.IllShapedIsFlagged | app/backtest/candidate_evaluator.py:60-62 | a node the evaluator does not know is flagged with its own message |
| Candidate.SingleFactDecides | app/backtest/candidate_evaluator.py:64-71 | a single fact is flagged when missing, denied for exactly the six values that do not count as true, and allowed otherwise |
| Candidate.ReorderedLeavesKeepAllow | app/backtest/candidate_evaluator.py:54-71 | reordering leaves keeps "allow" both ways, and without type errors only exchanges deny with flagged |
| Candidate.OrderChangesDecisionExactly | app/backtest/candidate_evaluator.py:54-71 | without type errors some order of the leaves changes the decision if and only if one leaf is false and another has a missing fact or unsupported node |
| Candidate.FlattenedRuleDecidesAlike | app/backtest/candidate_evaluator.py:54-71 | flattening changes neither decision nor message |
| Candidate.CompiledThreshold | app/compiler/jsonlogic_compiler.py:33-43 | whatever the facts, a compiled threshold evaluates to its test on the fact, to the missing path, or to the type error of ordering something that is no number |
| Candidate.CompiledEntities | app/compiler/jsonlogic_compiler.py:46-52 | the entity clause is true exactly for the targeted entity types |
| Candidate.CompiledRuleDecides | app/compiler/jsonlogic_compiler.py:82-95 | for every rule and every transaction, evaluating the compiled rule gives the rule's own verdict: wrong entity, first absent, unordered or failing threshold, or allow; only a rule without thresholds is not compiled |
| Candidate.VerdictRaisesExactly | app/backtest/candidate_evaluator.py:54-65 | the verdict ends in an uncaught type error if and only if the first threshold that does not pass is an order comparison with a fact that is no number |
| Candidate.PlainFact | app/backtest/jsonlogic_evaluator.py:42-48 | a name without a dot leads to the dictionary's own entry, or to none |
| Replay.EveryScheduleSound | app/backtest/replay_engine.py:163-180 | in every schedule, tasks cancelled before their first step included, permits are conserved, at most `concurrency` evaluations are in flight, and a returned list is the sequential map in input order |
| Replay.QuietRunsNeverRaise | app/backtest/replay_engine.py:171-178 | without cancellation and with an evaluator that never raises, no task fails and the call never raises |
| Replay.CancelledNeverEvaluates | app/backtest/replay_engine.py:172-176 | once the flag is set no task starts to evaluate, and one that had not started never queues for a permit |
| Replay.CancelledNeverReturns | app/backtest/replay_engine.py:172-180 | if the flag is set while some task has yet to look at it, no list is ever returned, however the schedule goes on |
| Replay.ReturnsAfterCancelExactly | app/backtest/replay_engine.py:172-180 | after a cancellation a list can still be returned if and only if every task was past its last look at the flag and no evaluation raises |
| Replay.OutcomeStays | app/backtest/replay_engine.py:180 | however a schedule goes on, a returned list is never taken back and an exception is never followed by a list |
| Replay.EnabledStepsLowerRank | app/backtest/replay_engine.py:171-180 | every enabled event lowers a rank, so every schedule is finite |
| Replay.ProgressUntilOver | app/backtest/replay_engine.py:169-180 | with at least one permit some step of the system itself is enabled until the call is over |
| Replay.CanAlwaysEnd | app/backtest/replay_engine.py:169-180 | from every reachable state the call can be brought to its end |
| Replay.QuietReplayReturnsAll | app/backtest/replay_engine.py:163-180 | undisturbed schedules can always be completed, and then one result per transaction is returned, in order |
| Replay.NoPermitNoResult | app/backtest/replay_engine.py:169 | with concurrency 0 and a transaction to replay nothing is ever returned |
| Snapshot.FeedHasher | app/backtest/replay_engine.py:59-68 | the loop feeds the lines of the sorted transactions |
| Snapshot.FedInOrder | app/backtest/replay_engine.py:63-67 | the text is the lines of all transactions, as often as they occur, by ascending transaction id and then rendered time |
| Strings.StringLeqExactly | app/backtest/replay_engine.py:63 | that order is a dictionary's: a prefix first, else the first difference decides |
| Snapshot.TimesRendered | app/backtest/replay_engine.py:63-66 | datetimes are sorted by their plain text and written in ISO format, other values as they are |
| Snapshot.PermutationsFeedTheSame | app/backtest/replay_engine.py:59-68 | if transactions with equal sort keys are written alike in either order, every permutation feeds the same text |
| Snapshot.DistinctKeysFeedTheSame | app/backtest/replay_engine.py:59-68 | with pairwise distinct sort keys every permutation feeds the same text |
| Snapshot.OrderIndependentExactly | app/backtest/replay_engine.py:59-68 | for every dataset the text is independent of the order if and only if any two transactions of equal sort key are written alike in either order |
| Snapshot.OneLineCommutes | app/backtest/replay_engine.py:66 | two transactions without a line feed in a field are written alike in either order if and only if their lines are equal |
| Snapshot.TextSealsDataset | app/backtest/replay_engine.py:64-67 | a dataset that feeds the same text as one-line transactions consists of the same lines, as often, if and only if its own transactions are on one line each |
| Snapshot.LineFeedHidesTransactions | app/backtest/replay_engine.py:66 | with a line feed in its decision a single transaction feeds the text of any given dataset of two or more |
| Snapshot.ChunkDeterminesFields | app/backtest/replay_engine.py:65-66 | a line determines all its fields as long as none but the time contains the separator |
| Snapshot.SeparatorHidesFields | app/backtest/replay_engine.py:66 | a transaction shares its line with one of other ids if and only if its transaction or broker id contains the separator |
| Report.BuildSummary | app/backtest/reporting.py:89-141 | the group loop, the counts and the rounded rates give the specified summary, the empty one included |
| Report.FiguresAddUp | app/backtest/reporting.py:33-44 | total = new failures + newly passing + undefined + unchanged, and the fail counts differ by new failures less newly passing less (denied before, flagged now) |
| Report.Classify | app/backtest/reporting.py:33-44 | each of the five kinds if and only if its combination of old and new decision |
| Report.SummaryBalances | app/backtest/reporting.py:98-124 | the broker figures, sorted by rate, sum to the overall totals, new failures and newly passing |
| Report.RatesExactly | app/backtest/reporting.py:100-103 | the total times a reported failure rate is 100 times the fail count, up to half a hundredth per transaction |
| Report.BrokerFiguresExactly | app/backtest/reporting.py:110-123 | every line of the breakdown counts its own broker's transactions, and its rate is that of those that fail now |
| Report.RatesFitTogether | app/backtest/reporting.py:102-137 | the reported change of the failure rate is within one hundredth of the difference of the reported rates, and the rates lie between 0 and 100 |
| Report.BrokersRanked | app/backtest/reporting.py:110-124 | brokers are ranked by reported failure rate, highest first, and by name where rates are equal |
| CdcConsumer.SendForEvaluation | cdc/consumer.py:136-166 | the retry loop makes the specified posts and returns the specified result; a dry run posts nothing |
| CdcConsumer.SendMeaning | cdc/consumer.py:144-166 | at most `max_retries` posts per delivery; posting goes on exactly after a transient status, no answer or an unreadable 200; success exactly when the first other answer is a readable 200 |
| CdcConsumer.HandledExactly | cdc/consumer.py:168-228 | a record counts as ignored if and only if it is a delete, as evaluated if and only if it is a transaction in a dry run or the API accepts it within the retries, as dead-lettered in all other cases |
| CdcConsumer.CdcService.ProcessSingleMessage | cdc/consumer.py:168-228 | the evaluated and the dead-letter counter rise exactly for records of that fate, and the counters stay balanced |
| CdcConsumer.EveryRunSound | cdc/consumer.py:261-267 | every run of polls, records, commits, crashes and restarts keeps commits, positions and batches behind handled records |
| CdcConsumer.CommittedRecordsAreHandled | cdc/consumer.py:261-267 | in every run a partition's committed offset passes no unhandled record, and counters balance between records |
| CdcConsumer.CountersExactly | cdc/consumer.py:168-228 | in every run the counters are the numbers of records handled in the current session, by fate |
| CdcConsumer.LogsGrow | cdc/consumer.py:261-267 | a partition's log only grows at its end, so an offset always names the same record |
| CdcConsumer.OutstandingIsRedelivered | cdc/consumer.py:105-112 | after a crash, restarting and polling brings back every record above the committed offset and handles it |
| DecisionConsumer.RunSession | flink/kafka_decision_consumer.py:57-76 | the poll loop's committed offset after a session |
| DecisionConsumer.LostExactly | flink/kafka_decision_consumer.py:66-76 | a failed message is passed over for good if and only if a later message of the session succeeds |
| PdfText.EscapeIsOnePass | regengine-cli.py:124-125 | the three replacements in sequence equal one pass over the text |
| PdfText.EscapedTextReadsBack | regengine-cli.py:124-125 | a literal-string reader returns the text with line ends normalised and stops exactly at the closing parenthesis |
| PdfText.NormalizedExactly | regengine-cli.py:124-125 | a text is read back unchanged if and only if it contains no carriage return |
| PdfText.NumbersReadBack | regengine-cli.py:158-162 | printed numbers, padded or not, read back |
| PdfText.PaddedExactly | regengine-cli.py:161 | a padded offset is ten bytes if and only if it is below 10^10 |
| PdfFile.Assemble | regengine-cli.py:150-163 | the buffer loops produce the specified file |
| PdfFile.TableFound | regengine-cli.py:156-162 | `startxref` points at the table, which announces one entry more than there are objects |
| PdfFile.TrailerFound | regengine-cli.py:162 | the trailer's Size is the object count plus one and its Root is object 1 |
| PdfFile.FrameInPlace | regengine-cli.py:150-159 | the file starts with the version line and the table with the free entry |
| PdfFile.EntryInPlace | regengine-cli.py:158-161 | while offsets fit, entry i is the 20 bytes at 20 i and holds the offset of object i |
| PdfFile.ObjectFound | regengine-cli.py:150-163 | from the end of the file every object is found: its entry is the byte position of its own header, followed by its content and `endobj` |
| PdfDocument.BuildSamplePdf | regengine-cli.py:128-163 | the content loop and the assembly give the specified document, or the encoding error |
| PdfDocument.WrittenExactly | regengine-cli.py:147 | a document is written if and only if every line fits Latin-1 |
| PdfDocument.SampleOffsetsFit | regengine-cli.py:152-161 | whatever the lines, every cross-reference entry is 20 bytes |
| PdfDocument.StreamReads | regengine-cli.py:148 | the announced stream length is the number of bytes between the delimiters |
| PdfDocument.PageFound | regengine-cli.py:134-140 | from the trailer's root the catalog, the page tree and the page are found, with the page's font and contents |
| PdfDocument.DocumentReadsBack | regengine-cli.py:128-163 | following the trailer's root, page tree, page, content stream and strings of the written file returns the lines, line ends normalised |
| PdfDocument.LinesUnchangedExactly | regengine-cli.py:128-163 | exactly the lines put in are read back from the written document if and only if none contains a carriage return |

## Left out

- Language-model agents, prompts, retrieval, ingestion and parsing: foreign calls.
- API routes, authentication, configuration, human review, negotiation, filings, zero-knowledge proofs and report rendering.
- SHA-256 and JSON serialisation: hashes are free constructors, the dataset digest is treated on the text fed to it before UTF-8 encoding.
- Verification of a time range of the ledger (app/ledger/verifier.py:35-38): only the whole-table call that the failover validation makes.
- Foreign-key and `id` columns of ledger rows; `created_at` stands for the columns outside the hash.
- Paging and timestamps of the manifest listing (dr/validate_chain_post_failover.py:69-70): the checkpoint is the manifest put last; a listing cut off by the storage service, or two puts with the same modification time, are not modelled.
- LedgerExport.HistoryOnlyGrows: manifests are a list of versions; two runs that put the same last row in the same second use one key (dr/ledger_backup_export.py:123-124), and a listing then shows the later version only, which by `SameRowSameVerdict` decides alike.
- The monitor's dry run (dr/health_check.py:110-112): an outage without any failover.
- Floating point: sums, rates and scores are exact reals, the report's rates then rounded to two decimals; rounding of emitted sums and scores, and the square root in the reported standard deviation, are left out; `baseline_std` and `z_score` are not part of an event.
- The broker-against-system comparison and the final ordering of anomalies (app/analytics/anomaly.py:186-294): easy additions to the same score.
- Rendering a violation message template (app/backtest/candidate_evaluator.py:66-68): the backtest creates its evaluator without one.
- The OPA-backed evaluators and the offline fallback decision (flink/stream_processor.py:153-219): calls to a server.
- Fetching historical transactions, representative examples and financial impact of the report: easy members.
- Replay: the evaluator is a function of the transaction; an evaluator that answers differently on each call is not covered.
- First-in-first-out order of the semaphore's waiters: the model allows every order.
- Gaps in Kafka offsets and rebalancing of partitions between consumers: offsets of a partition are consecutive and one consumer owns it.
- What a record's parsing and normalisation compute (cdc/normalizer.py), and the dead-letter handler's own calls.
- Tracker time is in milliseconds like the operator's; the original reads seconds as floating point.
