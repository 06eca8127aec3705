# Verified models of the ETL demo components

Dafny models of the stateful parts of a set of ETL demos, with machine-checked proofs of what they keep.
`dafny verify dfyconfig.toml` checks everything.

| module | component |
|---|---|
| `SplitLayout`, `SplitResume`, `SplitHistory`, `ShardTables`, `ShardSeeder` | the telecom shard seeder: batches, numbered splits, inspection, crash and resume, child tables |
| `ShardNames` | shard tasks, table-name suffixes and the recovery of geo columns from them |
| `TaskPool`, `CompanySeeding` | worker pools over closed channels on a shared database, all interleavings; the shards of one company |
| `BatchInsert` | chunked parameterised inserts, with numbered placeholders and with question marks |
| `LiveOrders`, `LiveStatements`, `LiveTicks` | live orders: split probing, opening, chunked appends; ticks over all brands and cities with one total |
| `EnrichService`, `SharedPages` | the enrich queue with its worker and readers, and the pages that share the growing array |
| `Quota`, `QuotaStore` | token buckets refined to a log, and their double-checked creation by concurrent threads |
| `ReportPaging`, `Sessions`, `Lcg` | offset paging under quota, deterministic sessions, the 64-bit generator |
| `CursorFeed` | the cursor-paged event feed |
| `PartFiles` | append-only numbered part files |
| `FaultPool` | fault injection in generated pools |
| `Strconv`, `Strings`, `Arith`, `Seqs`, `Wrappers` | Go's decimal printing and parsing, splitting at underscores, division and concatenation facts, options |

Lemmas whose names end in `Means`, `Spelled`, `At`, `Example` or `Examples` fix names, figures and single fields of an
answer, so that specification functions are tied down as well as the code that is proved against them.

Modelling conventions:

- Every database statement, file open and catalogue query may fail, and an insert may be stored and still be answered by
  an error. Answers, embed replies, retries, worker schedules and random draws are parameters or events;
  gaps between generated ids are arbitrary.
- Tables hold row sequences, or row counts in `CompanySeeding`; where several tasks share a database it is a map from
  table names. A multi-row insert is atomic and gives consecutive ids.
- Code that runs under a mutex or as one statement is one step; runs are sequences of steps in any order. Opening
  a split is one step of a run in `SplitLayout` and `CompanySeeding`, and five statements in `ShardSeeder`. Methods
  model the imperative code and are proved against the functions the step relations use.
- Integers are unbounded except where width matters: `Strconv.Atoi`, the wrap-around in `PartFiles` and
  `ReportPaging`, and the generator modulo 2^64.
- Times in `Quota` are nanoseconds of a clock that never steps back, counted from an origin aligned to a day.
- Split cap, batch size, rows per part and argument widths are at least 1 and requested row counts are not
  negative, as the programs run them. The split cap is a parameter; the programs use 1,000,000.

Where code and documentation disagree the code is modelled. The split cap is called a maximum
(cases/case_1/internal/sharding/shards.go:13), but the program checks it between batches, so a split can exceed it;
`SplitLayout.CapRespectedIff` and `SplitLayout.SecondRunOverfillsIff` say exactly when. Fault generators promise
`faultPercent` percent; `FaultPool.ExactRateIff` says for which rates that is exact. `inspectExistingSplits` and
`activeSplit` read a failing query as a missing table; `SplitHistory.HistoryKeepsEndIff` says exactly when the
seeder still ends with the right layout, `LiveOrders.ClosedIsFinalIff` and `LiveOrders.OverfillsIff` when live orders
still go to the right split. A requeued batch goes behind records accepted meanwhile; `EnrichService.OrderedIff` says
exactly when the order survives.

## Model

| member | source | states |
|---|---|---|
| SplitLayout.CrashResumeConfluence | cases/case_1/cmd/seeder/main.go:411-461 | after any number of runs that stopped at any flush or opening of a split, the run that succeeds leaves the layout one uninterrupted run from the first layout would have left; from an empty `_1` that is the canonical layout; a further run changes nothing |
| SplitHistory.HistoryKeepsEndIff | cases/case_1/cmd/seeder/main.go:299-461 | over any number of runs, each with any inspection and stopped at any operation, the runs still end where one uninterrupted run from the first layout ends if and only if every run missed nothing it needed, or wrote nothing, or missed only the open split, took no more than its room and stayed within the target without opening an empty split behind it |
| SplitHistory.RunKeepsEndIff | cases/case_1/cmd/seeder/main.go:299-461 | the same for one run |
| SplitHistory.SuccessIff | cases/case_1/cmd/seeder/main.go:321-461 | a run that then succeeds leaves the layout of one uninterrupted run, the canonical one from an empty `_1`, if and only if all runs before met that condition and its own inspection was harmless |
| SplitHistory.AfterSound | cases/case_1/cmd/seeder/main.go:411-461 | whatever the inspection counted and wherever the run stopped, closed splits stay full and splits and rows are only added |
| SplitHistory.HarmfulExamples | cases/case_1/cmd/seeder/main.go:299-461 | a stopped run that missed rows and still keeps the end, and one that breaks it only by opening an empty split |
| SplitResume.ResumeCorrectIff | cases/case_1/cmd/seeder/main.go:299-338 | from any layout whose closed splits are full, overfilled or not, a run that ends leaves what an all-seeing run leaves if and only if its inspection counted all rows or at least the target; its final total is the rows that were there plus what it believed to be missing |
| SplitResume.FinishTotal | cases/case_1/cmd/seeder/main.go:411-461 | a run that ends adds exactly the rows it set out to add, whatever it saw |
| SplitResume.HarmlessLeaves | cases/case_1/cmd/seeder/main.go:299-338 | from any layout whose closed splits are full, a run stopped anywhere after an inspection that missed nothing it needed leaves a layout of the uninterrupted run |
| SplitResume.UnseenSplitOverfilled | cases/case_1/cmd/seeder/main.go:303-313 | the smallest damage: when the count of the only split fails, a whole target is added to the rows that are there |
| SplitLayout.RunClosedForm | cases/case_1/cmd/seeder/main.go:411-461 | the step-by-step run computes a closed form: fill the open split, in whole batches, then pour the rest into fresh splits |
| SplitLayout.CanonicalShape | cases/case_1/cmd/seeder/main.go:411-461 | S is the cap rounded up to whole batches; there are ceil(T/S) splits and split j + 1 holds min(S, T - jS) rows, none empty |
| SplitLayout.CompleteReachesTarget | cases/case_1/cmd/seeder/main.go:327-332 | a finished run holds exactly the larger of target and initial rows, and is a fixed point of running again |
| SplitLayout.CapacityKept | cases/case_1/cmd/seeder/main.go:411-461 | over all reachable layouts, also across runs with different targets: closed splits hold cap to cap + batch - 1 rows and never change, the open one at most cap + batch - 1, and no run overshoots its target |
| SplitLayout.CapRespectedIff | cases/case_1/internal/sharding/shards.go:13-14 | the cap, documented as the maximum of rows per table, is respected by a run from empty if and only if the target fits one split or the batch size divides the cap |
| SplitLayout.SecondRunOverfillsIff | cases/case_1/internal/sharding/shards.go:13-14 | a second run with a larger target overfills split `_1` if and only if it needs to leave it and the space left by the first run is no multiple of the batch size |
| ShardSeeder.ShardRun.SeedShard | cases/case_1/cmd/seeder/main.go:321-495 | one run, with what the database answers to each statement as an input, counts included. When no statement fails it comes to its end: rows are missing or not, the layout is that of a finished run from what the inspection saw, and it succeeds unless a split lost its child tables. Under all answers splits stay contiguous, tables only grow, every child row refers to a customer of its own split with its number, and the new rows are a prefix of the generated ones, laid out as after k operations of that run; success means its end, with the right layout exactly when the inspection was harmless, and for each new numbered customer one row per child table, in port history for exactly those the draw chooses |
| ShardSeeder.SeedUntilDone | cases/case_1/cmd/seeder/main.go:321-495 | rerunning until a run succeeds ends with the layout of one uninterrupted run, the canonical one from an empty first split, if and only if every run of the history kept where the runs end; runs that can count every split do. It gives up only when in every attempt a statement failed or a split had lost its child tables; when all splits can be counted, only when a statement failed in every attempt but the last |
| ShardSeeder.FinishReaches | cases/case_1/cmd/seeder/main.go:411-461 | a run that comes to its end leaves at least the target, whatever it counted |
| ShardSeeder.ShardRun.InsertMissing | cases/case_1/cmd/seeder/main.go:411-461 | the row loop keeps buffer, variables and tables in step: the buffer is the generated rows not yet written, split, counter and rows left are those of the run after k operations, and a non-empty buffer implies the counter is below the cap; it returns with every row stored exactly when no statement failed, the last partial batch included |
| ShardSeeder.ShardRun.FlushCustomers | cases/case_1/cmd/seeder/main.go:357-409 | one statement stores the whole buffer in order or nothing; on success exactly the customers with a number are remembered, with the ids the database gave them |
| ShardSeeder.ShardRun.OpenNextSplit | cases/case_1/cmd/seeder/main.go:413-423 | the flush before a new split always finds an empty buffer; stopping anywhere here leaves a layout of the run |
| ShardSeeder.ShardRun.SeedChildren | cases/case_1/cmd/seeder/main.go:472-492 | grouping by split and seeding the groups in any order gives each split exactly the rows of its own remembered customers |
| ShardSeeder.ShardRun.GroupBySplit | cases/case_1/cmd/seeder/main.go:472-476 | the groups are the records of each split, in order, and there is no other group |
| ShardSeeder.ShardRun.SeedSplit | cases/case_1/cmd/seeder/main.go:478-492 | the four child tables of one split gain exactly one row per record, port history for exactly the records the draw chooses; other splits gain nothing |
| ShardSeeder.ShardRun.BuildRows | cases/case_1/cmd/seeder/main.go:513-615 | one row per record in order, for port history one per record the draw chooses |
| ShardSeeder.Database.BatchInsert | cases/case_1/cmd/seeder/main.go:906-923 | a prefix of the rows is stored, all of them on success, and no child row without its customer ever appears |
| ShardSeeder.Database.InspectExistingSplits | cases/case_1/cmd/seeder/main.go:295-319 | the walk adds up the splits before the first one it cannot count, and reports the last of these |
| ShardSeeder.InspectFaithfulIff | cases/case_1/cmd/seeder/main.go:295-319 | the reported state is the true one if and only if every existing split can be counted, or there is just one and it is empty |
| ShardTables.FlushAdvances | cases/case_1/cmd/seeder/main.go:357-409 | flushing a batch is one operation of the run on the row counts, into whichever split is current |
| ShardTables.OpenAdvances | cases/case_1/cmd/seeder/main.go:413-423 | opening the next split is one operation, and changes no table when it exists already |
| ShardTables.AllRowsGained | cases/case_1/cmd/seeder/main.go:411-461 | when only the last split and later ones gained rows, these follow all rows that were there |
| ShardTables.RememberedRefer | cases/case_1/cmd/seeder/main.go:388-404 | everything a run remembers names a stored customer of that split with that number |
| ShardTables.EveryCustomerSeeded | cases/case_1/cmd/seeder/main.go:472-492 | after a successful run every new customer with a number has its own row in each child table of its split, in port history when the draw chose it, and there are no more new rows than such customers |
| ShardTables.RecordsIff | cases/case_1/cmd/seeder/main.go:391-404 | a customer is remembered if and only if its number is neither missing nor the empty text |
| ShardTables.LinkedExtended | cases/case_1/cmd/seeder/main.go:472-492 | adding child rows that refer to customers keeps the whole database free of orphans |
| ShardNames.SuffixRoundTrip | cases/case_1/cmd/seeder/main.go:132-151 | for every task of every sharding type and every split, splitting and matching the printed suffix recovers exactly whether the task has a zone and a state |
| ShardNames.SuffixInjective | cases/case_1/cmd/seeder/main.go:132-145 | two tasks of one company and two split numbers with the same table suffix are the same task and the same number |
| ShardNames.ClassifySuffix | cases/case_1/cmd/seeder/main.go:639-665 | the nested search with its two breaks decides as the first matching zone or state does |
| ShardNames.BuildTasks | cases/case_1/cmd/seeder/main.go:265-284 | the loops produce the task list of the sharding type; TasksIff and TaskOrder say what that list is |
| ShardNames.TasksIff | cases/case_1/cmd/seeder/main.go:265-284 | a task is built if and only if it is a zone (zone only), a state of some zone without its zone (state only), or a zone with one of its own states; the list has one task per zone, or one per listed state |
| ShardNames.TaskOrder | cases/case_1/cmd/seeder/main.go:265-284 | zones come in definition order and their states in theirs: the task of state j of zone i stands behind those of all states before it |
| ShardNames.AllStates | cases/case_1/internal/sharding/shards.go:63-69 | the states of all zones in definition order |
| ShardNames.TasksDistinct | cases/case_1/cmd/seeder/main.go:265-284 | if no zone and no state is listed twice, no task is built twice |
| ShardNames.ShippedTasksDistinct | cases/case_1/internal/sharding/shards.go:23-44 | the shipped table lists no zone and no state twice, so every company builds each task once |
| ShardNames.ShippedZonesWellFormed | cases/case_1/internal/sharding/shards.go:23-44 | the shipped table satisfies the hypotheses of round trip and injectivity |
| TaskPool.AllReported | cases/case_1/cmd/seeder/main.go:226-260 | when all workers have exited, every task was reported exactly once, ok + failed is the number of tasks, and the total is the sum of the reported amounts |
| TaskPool.OneWorkerPerTask | cases/case_1/cmd/seeder/main.go:241-246 | no two workers hold the same task, not even at different moments |
| TaskPool.WorkerSteps | cases/case_1/cmd/seeder/main.go:241-257 | no worker is stuck: one that has not exited can take the first free task of its channel, go on with its task, report, or exit when its channel is empty |
| TaskPool.Serializable | cases/case_1/cmd/seeder/main.go:241-257 | on a shared database, if tasks are isolated, in every interleaving a task finds the database as if it had run alone |
| TaskPool.InterleavingInvisible | cases/case_1/cmd/seeder/main.go:241-259 | a pool of any size leaves, for every task and for the rest of the world, what running the tasks one after another leaves, in any order |
| TaskPool.AlwaysHonest | cases/case_1/cmd/seeder/main.go:246-255 | a reported result is one the shared database still justifies at any later moment |
| TaskPool.TotalIsSum | cases/case_2/cmd/hot_pipeline/main.go:160-169 | whatever the order of the reports, the shared total is the sum over the tasks |
| CompanySeeding.ShardsIsolated | cases/case_1/cmd/seeder/main.go:226-284 | the shards of a company share one database of named tables; because suffixes are injective and tasks distinct, no statement of one shard reads or writes a table of another |
| CompanySeeding.ShippedShardsIsolated | cases/case_1/internal/sharding/shards.go:23-59 | the shipped zones meet these hypotheses for every sharding type |
| CompanySeeding.TwiceListedOverfills | cases/case_1/cmd/seeder/main.go:265-284 | without distinct tasks isolation is lost: a shard listed twice is filled twice when both workers count before either inserts |
| CompanySeeding.ShardStands | cases/case_1/cmd/seeder/main.go:299-461 | in every interleaving the named tables and variables of a shard are those of its own run by itself, after some of its statements |
| CompanySeeding.ShardsUnaffected | cases/case_1/cmd/seeder/main.go:241-257 | a shard that reported success has the row counts of a finished run by itself, and of an all-seeing one when no statement of it was refused |
| CompanySeeding.WorkingShardDone | cases/case_1/cmd/seeder/main.go:299-461 | a shard with a first split, all whose statements work, is done after a bounded number of them with the row counts of a finished run |
| CompanySeeding.BrokenIff | cases/case_1/cmd/seeder/main.go:299-461 | a shard with a first split ends with an error if and only if, while rows were missing, a statement to open or fill a split was refused or its answer lost |
| CompanySeeding.TablesAsSequential | cases/case_1/cmd/seeder/main.go:241-259 | every named table, of whichever shard or of none, ends with the row count that seeding the shards one after another gives it |
| BatchInsert.Placeholders | cases/case_2/cmd/hot_pipeline/main.go:524-533 | one counter over all rows of a chunk numbers the placeholders consecutively, row by row |
| BatchInsert.NumberedBinds | cases/case_2/cmd/hot_pipeline/main.go:297-311 | numbering from 1 binds every row of a statement to its own arguments |
| BatchInsert.Table.Insert | cases/case_2/cmd/hot_pipeline/main.go:514-540 | the chunks store, in order, exactly the rows of one unchunked insert; after a failing statement, whole chunks that are a prefix of them |
| BatchInsert.ChunkingPreservesMeaning | cases/case_2/cmd/hot_pipeline/main.go:514-540 | the rows the chunks store are those a single statement with all arguments denotes, for any width and chunk size |
| BatchInsert.RowsToFirstError | cases/case_2/cmd/hot_pipeline/main.go:514-540 | when the first statement that does not work is number e, exactly e whole chunks are counted, and one more is stored if only its answer was lost; all rows when there is none |
| BatchInsert.FlattenChops | cases/case_2/cmd/hot_pipeline/main.go:301-311 | rows of one width laid out as arguments are read back unchanged |
| BatchInsert.BothInsertsAgree | cases/case_1/cmd/seeder/main.go:906-923 | the form with question marks finds the width the rows were written with and stores, whatever statement fails, exactly what the numbered form stores |
| LiveOrders.TableInjective | cases/case_2/cmd/hot_pipeline/main.go:313-318 | whatever brands and cities are called, no two splits and no two sites share an orders table |
| LiveOrders.Server.InsertLiveOrders | cases/case_2/cmd/hot_pipeline/main.go:178-196 | probe, count, create and append behave as specified under every combination of failing queries |
| LiveOrders.Server.ActiveSplit | cases/case_2/cmd/hot_pipeline/main.go:422-438 | the probing loop stops at the first split whose successor is missing or not answered for |
| LiveOrders.Server.AppendOrders | cases/case_2/cmd/hot_pipeline/main.go:286-336 | chunks of 500 are appended in order up to the first error, with that chunk when it was stored and only its answer lost; the ids of the answered ones are counted |
| LiveOrders.ActiveIsHighestIff | cases/case_2/cmd/hot_pipeline/main.go:420-438 | the probe finds an existing split, and the highest one if and only if the catalogue answers for every split on the way |
| LiveOrders.CallEffect | cases/case_2/cmd/hot_pipeline/main.go:178-196 | a call changes one split, appends the stored prefix of its orders there, and keeps the splits contiguous |
| LiveOrders.CallSucceedsIff | cases/case_2/cmd/hot_pipeline/main.go:178-196 | a call returns no error if and only if its creation, when the active split is full, and every chunk of 500 its orders need are answered |
| LiveOrders.ClosedSplitGainsIff | cases/case_2/cmd/hot_pipeline/main.go:185-196 | from any state whose closed splits are full, a call adds rows to a split that has a successor if and only if its first chunk is stored and the catalogue fails for some split: any but the first when the count fails too, otherwise any but the first and the last, with the needless creation succeeding |
| LiveOrders.ClosedFullKept | cases/case_2/cmd/hot_pipeline/main.go:185-196 | closed splits stay full, whatever fails |
| LiveOrders.ClosedIsFinalIff | cases/case_2/cmd/hot_pipeline/main.go:178-196 | over any run of calls, whatever fails, a split with a successor never changes again if and only if no call met that condition |
| LiveOrders.OverfillsIff | cases/case_2/cmd/hot_pipeline/main.go:185-196 | the bound cap - 1 + batch is broken if and only if the split before the first unanswered one, when the count fails, or else that split itself, has no room for the rows stored |
| LiveOrders.UncountedSplitOverfills | cases/case_2/cmd/hot_pipeline/main.go:186-189 | the smallest damage: one full split whose count fails |
| LiveOrders.RunContiguous | cases/case_2/cmd/hot_pipeline/main.go:178-196 | over any run of ticks, whatever fails, the splits stay contiguous and rows are only appended |
| LiveOrders.RunCapacity | cases/case_2/cmd/hot_pipeline/main.go:185-196 | over any run of ticks whose queries answer, no split exceeds cap - 1 + batch and a split with a successor never changes |
| LiveOrders.ReportedIsAdded | cases/case_2/cmd/hot_pipeline/main.go:286-350 | a call reports at most the rows it added, all its orders when it returns no error, and exactly those when all ids are read |
| LiveStatements.StatementStands | cases/case_2/cmd/hot_pipeline/main.go:178-351 | statement by statement a call does what one whole call does, under the answers it heard: each phase stands where that call stands, and a returned one has done all of it |
| LiveStatements.WorkingStatement | cases/case_2/cmd/hot_pipeline/main.go:178-351 | a working statement never ends a call with an error and brings it nearer to its end |
| LiveTicks.SitesIsolated | cases/case_2/cmd/hot_pipeline/main.go:139-165 | all cities of all brands share the databases and are isolated, statement by statement, by the names of their tables |
| LiveTicks.SiteInTick | cases/case_2/cmd/hot_pipeline/main.go:149-165 | at every moment of every interleaving of the statements of all cities, a city is contiguous and contributes at most the rows it has gained; all its orders once its call returned no error |
| LiveTicks.TickTotal | cases/case_2/cmd/hot_pipeline/main.go:134-170 | the total of a tick over all brands and cities, with one channel per brand, any workers and any interleaving of statements, never exceeds the rows added, and equals them when no insert fails and all ids are read |
| LiveTicks.RunTotal | cases/case_2/cmd/hot_pipeline/main.go:111-126 | the same for the total accumulated over any run of ticks |
| LiveTicks.WorkingSiteReturns | cases/case_2/cmd/hot_pipeline/main.go:149-165 | a city all whose statements work returns without an error after a bounded number of them |
| LiveTicks.WorkingTick | cases/case_2/cmd/hot_pipeline/main.go:134-170 | in a tick all whose statements work no city fails, in any interleaving, and when all workers have exited the total is the number of orders of all cities |
| LiveTicks.WorkingRun | cases/case_2/cmd/hot_pipeline/main.go:111-126 | over any run of ticks all whose statements work, the accumulated total is the number of all orders of all ticks |
| EnrichService.Service.Drain | cases/case_5/cmd/mac_enrich_service/main.go:78-87 | the whole queue is handed over and left empty; the flag tells whether there was anything |
| EnrichService.Service.GetResults | cases/case_5/cmd/mac_enrich_service/main.go:95-106 | the window of the results from the cursor, the position behind it and whether more follow; a negative cursor panics |
| EnrichService.Service.HandleResults | cases/case_5/cmd/mac_enrich_service/main.go:197-213 | unparsable text counts as zero, out-of-range limits as 100, the handler dies exactly for a negative cursor, and otherwise the page is the window of the results |
| EnrichService.WorkerRound | cases/case_5/cmd/mac_enrich_service/main.go:142-173 | the texts sent are the `embed_text` entries of the drained records, empty where there is none or no text; an undisturbed round publishes each record with the embedding at its position, or leaves the queue as it was on an error; it is the interleaved steps taken without interruption, and counts all results at its end |
| EnrichService.PairResults | cases/case_5/cmd/mac_enrich_service/main.go:160-172 | records are paired with embeddings up to the shorter of both |
| EnrichService.Conservation | cases/case_5/cmd/mac_enrich_service/main.go:72-93 | in every interleaving the accepted records are, as a multiset, the pending, in-flight, done and dropped ones |
| EnrichService.DroppedIff | cases/case_5/cmd/mac_enrich_service/main.go:161-164 | a record is dropped if and only if a reply shorter than its batch was published |
| EnrichService.OrderedIff | cases/case_5/cmd/mac_enrich_service/main.go:136-177 | done, in-flight and pending together are the accepted sequence at every moment of a run if and only if no reply was published short and no failed batch was requeued behind records it does not commute with |
| EnrichService.OrderKept | cases/case_5/cmd/mac_enrich_service/main.go:136-177 | in particular they are without short replies and requeues behind newer records |
| EnrichService.NoFailureNoOvertaking | cases/case_5/cmd/mac_enrich_service/main.go:153-158 | requeues behind newer records need a failed embed call |
| EnrichService.FailureReorders | cases/case_5/cmd/mac_enrich_service/main.go:153-158 | a failed call does reorder: a record accepted meanwhile overtakes the requeued batch |
| EnrichService.PairedWithOwnText | cases/case_5/cmd/mac_enrich_service/main.go:147-172 | every result carries the text of its own record's `product_id` entry and the embedding of its own `embed_text` entry, empty where the entry is missing or no text |
| EnrichService.PollContinues | cases/case_5/cmd/mac_enrich_service/main.go:197-213 | a page continues where the reader stopped, has exactly as many results as limit and list allow, and announces more exactly when results remain; one that announces no more leaves the reader with everything published |
| EnrichService.ReadersSeeEachOnce | cases/case_5/cmd/mac_enrich_service/main.go:89-106 | any number of readers with any limits, interleaved with anything, have collected exactly the results below their cursor, in order |
| EnrichService.ResultsAppendOnly | cases/case_5/cmd/mac_enrich_service/main.go:89-93 | published results never change |
| SharedPages.DoneList.Append | cases/case_5/cmd/mac_enrich_service/main.go:89-93 | growing in place or into a new array appends the results and leaves every page ever cut reading as it did |
| SharedPages.DoneList.GetResults | cases/case_5/cmd/mac_enrich_service/main.go:95-106 | the page is a slice of the shared array itself, from the cursor on, holding the window of the results |
| SharedPages.EncodeLater | cases/case_5/cmd/mac_enrich_service/main.go:206-212 | a page encoded after the lock is released and any appends has the contents it had when it was cut |
| Quota.Bucket.Roll | cases/case_3/cmd/seeder/state/quota.go:31-42 | after rolling, each counter is the sum of the log over the aligned hour or day of the clock |
| Quota.Bucket.ConsumeReport | cases/case_3/cmd/seeder/state/quota.go:47-57 | a request is refused if and only if it would overrun the hour or the day of the log, and then nothing is consumed |
| Quota.Bucket.ConsumeRealtime | cases/case_3/cmd/seeder/state/quota.go:61-70 | a realtime request is refused if and only if the day's log is full |
| Quota.Bucket.HourlySpent | cases/case_3/cmd/seeder/state/quota.go:72-77 | the value is what the log spent in the current aligned hour |
| Quota.ChargedLedger | cases/case_3/cmd/seeder/state/quota.go:47-57 | rolling and charging keep counters and windows true to the log, and refuse exactly when the policy on the log refuses |
| Quota.PolicyMeans | cases/case_3/cmd/seeder/state/quota.go:16-57 | the policy in figures: a request is admitted if and only if with it this aligned hour costs at most 40,000 and this aligned day at most 200,000; a realtime one if fewer than 10,000 were admitted this day |
| Quota.WindowBound | cases/case_3/cmd/seeder/state/quota.go:16-20 | no aligned hour ever exceeds 40,000 and no aligned day 200,000 |
| Quota.RealtimeBound | cases/case_3/cmd/seeder/state/quota.go:16-20 | no aligned day exceeds 10,000 realtime requests |
| Quota.SlidingHourBound | cases/case_3/cmd/seeder/state/quota.go:31-57 | any span of an hour, aligned or not, spends at most 80,000 |
| Quota.SlidingHourBoundIsTight | cases/case_3/cmd/seeder/state/quota.go:31-57 | 80,000 is reached by two requests around a full hour |
| Quota.HourWithinDay | cases/case_3/cmd/seeder/state/quota.go:31-57 | the hourly sum never exceeds the daily one |
| QuotaStore.SameBucketForever | cases/case_3/cmd/seeder/state/quota.go:89-107 | at whatever two moments of whatever interleaving, holders of a bucket for one property hold the same bucket |
| QuotaStore.MutualExclusion | cases/case_3/cmd/seeder/state/quota.go:96-106 | the write section is held by one thread, with no reader inside |
| QuotaStore.RefinesReference | cases/case_3/cmd/seeder/state/quota.go:89-119 | however calls interleave and time passes, the counters of the buckets charge each property as if its requests had been admitted one at a time by the policy on a single log |
| QuotaStore.RefusedIff | cases/case_3/cmd/seeder/state/quota.go:47-57 | a request is refused if and only if it would overrun the hour or day of what all threads together were admitted |
| QuotaStore.RealtimeRefusedIff | cases/case_3/cmd/seeder/state/quota.go:61-70 | a realtime request is refused if and only if the day's budget of the property is used up |
| QuotaStore.QueryAnswers | cases/case_3/cmd/seeder/state/quota.go:72-77 | the hourly tokens a query reads are what all threads together spent in the current aligned hour |
| QuotaStore.NeverOverrun | cases/case_3/cmd/seeder/state/quota.go:109-115 | no interleaving of threads overruns a property's hour, day or realtime day |
| QuotaStore.NeverOverrunSliding | cases/case_3/cmd/seeder/state/quota.go:109-111 | nor does any span of an hour exceed 80,000 |
| QuotaStore.Progress | cases/case_3/cmd/seeder/state/quota.go:89-107 | while a thread is inside a call, some thread inside a call can step: no deadlock |
| ReportPaging.Handle | cases/case_3/cmd/seeder/handlers/report.go:46-100 | rejections before the charge are free; otherwise the log gains one admitted request of the fixed cost or the answer is exhausted, and the page is the window of the generated list with the length of the whole list |
| ReportPaging.PanicsIff | cases/case_3/cmd/seeder/handlers/report.go:91-100 | the slice is out of range if and only if the offset exceeds the row count or the end of the window does not fit 64 bits |
| ReportPaging.AnnouncesAll | cases/case_3/cmd/seeder/handlers/report.go:89-134 | every page served announces the length of the whole list, whatever limit and offset were asked for |
| ReportPaging.WalkInvariant | cases/case_3/cmd/seeder/handlers/report.go:65-100 | a client that goes on while its offset is below the row count the last page announced: with varying limits and refusals in between the walk never panics, has collected exactly the rows below its offset, and knows the length of the list from its first page on |
| ReportPaging.WalkComplete | cases/case_3/cmd/seeder/handlers/report.go:91-134 | stopping by the announced count, the walk ends and equals the one-shot session list |
| ReportPaging.PagesOfWalk | cases/case_3/cmd/seeder/handlers/report.go:65-134 | with one limit a walk takes the row count divided by the effective limit, rounded up, and one page for an empty list |
| ReportPaging.StoreUniform | cases/case_3/cmd/seeder/handlers/report.go:70-72 | with one cost per request, whatever a property was charged over any run of any threads is uniform |
| ReportPaging.PagesPerWindow | cases/case_3/cmd/seeder/handlers/report.go:70-72 | an aligned hour serves at most 40000 div (rowsPerDay div 1000 + 1) pages, an aligned day 200000 div the same |
| ReportPaging.RefusedIff | cases/case_3/cmd/seeder/handlers/report.go:70-86 | a page is refused if and only if its hour or day has already served its full number |
| ReportPaging.PagesWithinHour | cases/case_3/cmd/seeder/handlers/report.go:65-100 | a client asking within one hour with one limit is served exactly the least of its requests, the pages it needs, and what hour and day have left |
| ReportPaging.WalkEndsWithinHourIff | cases/case_3/cmd/seeder/handlers/report.go:65-100 | so its walk ends with the whole list if and only if it needs no more pages than it asked for and than hour and day have left |
| Sessions.GenerateSessions | cases/case_3/cmd/seeder/generators/sessions.go:95-103 | the array loop yields for every index the row its seed determines |
| Sessions.GenerateSession | cases/case_3/cmd/seeder/generators/sessions.go:105-154 | the mutable generator's draws give pick i the i-th draw reduced to its pool, and the metrics the next three |
| Sessions.LcgRand.Intn | cases/case_3/cmd/seeder/generators/sessions.go:196-201 | a draw in range, or zero and no draw for a bound that is not positive |
| Sessions.SessionConsistent | cases/case_3/cmd/seeder/generators/sessions.go:151-154 | every row has 1 <= engaged <= sessions <= total users, new users among the users, and every pick inside its pool |
| Sessions.PicksSpelled | cases/case_3/cmd/seeder/generators/sessions.go:105-149 | every pick spelled out: which draw it takes and the size of its pool, for each surface |
| Sessions.MetricsSpelled | cases/case_3/cmd/seeder/generators/sessions.go:151-154 | sessions, engaged sessions, users and new users spelled out from the three draws behind the picks |
| Lcg.ReturnsIff | cases/case_3/cmd/seeder/generators/sessions.go:191-194 | for every modulus 2^m, multiplier 1 mod 4 and odd increment: k steps return to the start if and only if 2^m divides k |
| Lcg.PeriodIff | cases/case_3/cmd/seeder/generators/sessions.go:191-194 | the low m bits of the 64-bit state recur exactly every 2^m draws |
| Lcg.FullPeriod | cases/case_3/cmd/seeder/generators/sessions.go:191-194 | the state recurs exactly every 2^64 draws, from every seed |
| Lcg.EveryWordReached | cases/case_3/cmd/seeder/generators/sessions.go:187-194 | from any state every 64-bit word is reached within one period |
| Lcg.StepBijective | cases/case_3/cmd/seeder/generators/sessions.go:191-194 | the step is injective and has an inverse on 64-bit words |
| CursorFeed.CursorRoundTrip | cases/case_4/cmd/seeder/handlers/order_events.go:74-75 | the cursor printed for n parses back to n, for every n a Go int holds |
| CursorFeed.MalformedRestarts | cases/case_4/cmd/seeder/handlers/order_events.go:93-102 | a doubled prefix, a negative number and one beyond 64 bits restart the feed |
| CursorFeed.PageBoundary | cases/case_4/cmd/seeder/handlers/order_events.go:45-80 | for any cursor and limit text the page is a contiguous window, as long as limit and pool allow; a next cursor is present exactly when events remain and names the first of them |
| CursorFeed.LimitMeans | cases/case_4/cmd/seeder/handlers/order_events.go:47-53 | a printed limit from 1 to 1000 is taken; zero, a larger or negative one, an absent one and what is no number mean 500 |
| CursorFeed.FeedPrefix | cases/case_4/cmd/seeder/handlers/order_events.go:45-80 | following next cursors with any limits and retries keeps a prefix of the pool in order, and every unfinished page adds at least one event |
| CursorFeed.FeedComplete | cases/case_4/cmd/seeder/handlers/order_events.go:45-80 | the walk ends, and then the kept pages are exactly the pool |
| CursorFeed.PagesCompose | cases/case_4/cmd/seeder/handlers/order_events.go:65-80 | two consecutive pages equal one page of the summed limit |
| PartFiles.NameRoundTrip | cases/case_6/cmd/movement_seeder/main.go:48-48 | the padded name of every sequence number parses back to it, also above five digits |
| PartFiles.SeqOfIff | cases/case_6/cmd/movement_seeder/main.go:48-48 | exactly the names with nothing but decimal digits between prefix and suffix have a number, as long as it fits 64 bits |
| PartFiles.Directory.NextPartSeq | cases/case_6/cmd/movement_seeder/main.go:109-141 | collecting, sorting and taking the last gives one past the highest number of a part file in the directory, in whatever order it is listed |
| PartFiles.Directory.WritePart | cases/case_6/cmd/movement_seeder/main.go:90-107 | a part is stored whole, or a prefix of it after a failure, or nothing when it cannot be opened |
| PartFiles.Directory.Seed | cases/case_6/cmd/movement_seeder/main.go:65-84 | a run writes its parts under consecutive numbers and stops at the first one it cannot complete |
| PartFiles.OverwrittenIff | cases/case_6/cmd/movement_seeder/main.go:72-91 | for a whole run and any directory: an existing file is overwritten if and only if it carries the name of a part the run opened under a number that has wrapped past 64 bits, and then it holds that part; all else stays as it was |
| PartFiles.WriteIsOverlay | cases/case_6/cmd/movement_seeder/main.go:72-91 | a run lays the parts it opened over the directory, each under its number, and does nothing else |
| PartFiles.NeverOverwrites | cases/case_6/cmd/movement_seeder/main.go:78-91 | although every part is opened with truncation, a run leaves every entry of any directory as it was, as long as no number it opens a part under has wrapped |
| PartFiles.FirstNameTakenIff | cases/case_6/cmd/movement_seeder/main.go:140-140 | the first name of a run is already taken if and only if the highest 64-bit number is present and so is the negative name it wraps to |
| PartFiles.AppendOnlyLog | cases/case_6/cmd/movement_seeder/main.go:65-84 | from an empty directory, after any runs, complete or stopped anywhere, the directory is exactly the concatenation of what they wrote |
| PartFiles.DirOfExact | cases/case_6/cmd/movement_seeder/main.go:109-141 | its numbers are exactly 0 to N - 1, number k holds the k-th part, and the next number is N |
| PartFiles.PartsHoldRows | cases/case_6/cmd/movement_seeder/main.go:73-84 | a successful run's parts concatenate to its rows, a stopped run's to a prefix |
| PartFiles.RunSucceedsIff | cases/case_6/cmd/movement_seeder/main.go:65-84 | a run succeeds if and only if every part it needs is opened and written whole |
| PartFiles.PartSizes | cases/case_6/cmd/movement_seeder/main.go:73-77 | all parts but the last have the full size |
| PartFiles.NothingLost | cases/case_6/cmd/movement_seeder/main.go:65-84 | read in ascending number, the parts of successful runs hold all rows of all runs in order |
| FaultPool.GenerateMixed | cases/case_4/cmd/seeder/generators/events.go:71-132 | the counting loop damages exactly the records the division rule names: record i itself, with the turn of its place among the faults |
| FaultPool.UndamagedParts | cases/case_4/cmd/seeder/generators/events.go:71-132 | whatever damage leaves alone is, at every index, that of the clean record of the same index |
| FaultPool.EventAt | cases/case_4/cmd/seeder/generators/events.go:112-132 | a faulty event keeps every field but the one its turn names, which is emptied or replaced; other events are the clean ones |
| FaultPool.MovementAt | cases/case_6/cmd/movement_seeder/generators/movement_rows.go:63-102 | the same for movements: id, day and every field but the one its turn names are those of record i |
| FaultPool.SnapshotAt | cases/case_6/cmd/snapshot_seeder/generators/snapshot_rows.go:41-83 | the same for snapshots |
| FaultPool.FaultsExactlyThere | cases/case_6/cmd/movement_seeder/generators/movement_rows.go:92-102 | the mixed pool differs from the clean one exactly at multiples of the interval, and a record shows the kind of its turn |
| FaultPool.FaultsIsQuotient | cases/case_4/cmd/seeder/generators/events.go:76-80 | the number of faults is the number of whole intervals |
| FaultPool.FaultRate | cases/case_4/cmd/seeder/generators/events.go:76-80 | the faults are at least the asked share rounded down and, for n > 0, less than twice the asked share |
| FaultPool.ExactRateIff | cases/case_4/cmd/seeder/generators/events.go:63-63 | the documented rate is met for every pool size if and only if it divides 100 |
| FaultPool.KindsShare | cases/case_4/cmd/seeder/generators/events.go:65-68 | each kind gets its round-robin share of the faults |
| FaultPool.KindsBalanced | cases/case_4/cmd/seeder/generators/events.go:135-154 | the counts of two kinds differ by at most one, the earlier never behind |
| FaultPool.DefectsCounted | cases/case_6/cmd/snapshot_seeder/generators/snapshot_rows.go:70-78 | counting damaged records in the pool gives the shares computed from the indices |
| FaultPool.GeneratorsFaithful | cases/case_6/cmd/snapshot_seeder/generators/snapshot_rows.go:41-83 | events with a city, a valid time and no marker, and all movements and snapshots: clean records show no defect, and each damage shows exactly the kind of its turn |
| FaultPool.MovementClean | cases/case_6/cmd/movement_seeder/generators/movement_rows.go:63-79 | clean movements carry the sign of their kind, 1 to 20 units, and show no defect |
| FaultPool.MovementsCycle | cases/case_6/cmd/movement_seeder/generators/movement_rows.go:63-95 | the columns of clean movements go round by themselves: six centres, five kinds, 2000 stock numbers, 50 operators |

## Left out

- ShardSeeder.Database.BatchInsert: child rows are values here; their placeholders and arguments are the subject of `BatchInsert`.
- PartFiles.NeverOverwrites: requires that the sequence numbers used fit 64 bits; `PartFiles.OverwrittenIff` gives the exact effect without that.
- LiveOrders.RunCapacity: requires that catalogue and count queries answer, because the bound fails otherwise; `LiveOrders.ClosedSplitGainsIff` and `LiveOrders.OverfillsIff` give the exact conditions for one call.
- CompanySeeding.ShardsUnaffected: row counts of the customers tables; rows and child tables are the subject of `ShardSeeder`.
- Order items, status events and delivery assignments of live orders: their errors are only logged and change nothing modelled.
- The text of columns, amounts and dates, traffic curves and the metrics of sessions from the floating-point ones on (bounce rate, duration, conversions, revenue, events, page views): random data without a promise. The engaged count uses exact arithmetic for 0.6 times at most 5.
- `enriched_at`, HTTP routing, JSON decoding and encoding, logging, sleeping and shutdown.
- Making up for child rows: a run seeds the children of the customers it inserts itself, so when its child seeding fails later runs leave those rows missing; it fails in particular for a split whose creation stopped before its child tables.
- Corruption of activation dates after seeding: it changes no count, id or number.
- `seedCity` of the order seeder: it counts only split 1 when it resumes, so the resume results are about the shard seeder.
- Schema programs, connection retries, configuration and flags.
- Growth of a Go slice beyond memory, and cursors beyond 64 bits in a pool that large.
