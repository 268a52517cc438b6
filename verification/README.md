# Verified model of the withdrawal waiting-time estimator

The withdrawals API answers one question: in how long will a Lido withdrawal request be finalized? This project
models the code that computes the answer, and the caches it reads, and proves what the answers mean.

* **Calendar** (`GenesisTime.dfy`): epochs, report frames and timestamps. The conversions are written over `real`, as
  the program divides, and shown to be integer floors; `FloorArithmetic.dfy` holds the arithmetic.
* **Estimator** (`WaitingTime.dfy`, `FrameByValidatorBalances.dfy`, `QueueRequests.dfy`, `RequestTime.dfy`): the choice
  of a report frame and the repair of answers in the past. `FrameProjections.dfy` says what the projections mean and
  how they move with the load; `EstimateGuarantees.dfy` says what a user may rely on, and `EstimateStates.dfy` shows
  three states in which shortcuts of the estimator matter. `EstimateAnswers.dfy` states every answer on the stored
  fields and the query, with the numbers written out.
* **Sweep** (`SweepProjection.dfy`): the closed form for the circular withdrawal sweep, against a slot-by-slot
  simulation.
* **Validators job** (`FrameBalancesJob.dfy`, `CronSchedule.dfy`): the frame balances by full scan and by batched
  refresh, and the daily schedule.
* **Caches** (`QueueCache.dfy`, `QueueRuns.dfy`, `BlockStateCache.dfy`, `ValidatorsCache.dfy` with `Decimal.dfy` and
  `ValidatorsStorage.dfy`): the incremental queue cache over whole runs, the block-state cache under interleaved calls,
  and the cache file.
* **Logs** (`LogFetcher.dfy`): chunked fetching with retries.

`Results.dfy` has the option and exception types, `BalanceMaps.dfy` the frame-to-balance maps. `dafny verify
dfyconfig.toml` checks the project.

## Conventions

* A BigNumber is an `int`. `BigNumber.div` truncates toward zero and throws on zero (`BigNumberDiv`). Amounts are wei,
  `now` and timestamps milliseconds, request timestamps seconds.
* Thrown exceptions are values of `Result`; null and undefined are `None`. Rewards below one wei an epoch
  (src/waiting-time/waiting-time.service.ts:457-458) and an empty minimum (256-258) are such results, not preconditions.
* Truthiness tests of frames count frame 0 as no case (`Truthy`), as in src/waiting-time/waiting-time.service.ts:163,
  219 and 235.
* One call reads the clock once. In the block-state cache the clock is a component of the state that never runs back.
* Frame numbers are keys that `Object.keys` lists in ascending order; the loop over frames relies on it.
* The contracts, the node and the consensus client are oracles. They answer truthfully about what cannot change
  (amounts, shares and timestamps of requests; values at a block), arbitrarily about the rest, and may fail.

## Findings

* A single decrement of the current frame (src/waiting-time/waiting-time.service.ts:169-171) is right at every moment
  exactly when a frame has at least five epochs (`GapAdjustmentRightIffFiveEpochs`).
* The estimator throws exactly in the two situations that `ThrowsExactlyWhen` names.
* The truthiness tests lose balances and rewards cases in frame 0. The answer is the intended one exactly when no such
  case is the soonest of an uncovered load (`IntendedExactlyUnlessFrameZero`), which holds from the initial epoch on
  without a key 0 (`PositiveFramesLoseNothing`). The intended answers never get earlier with a larger load
  (`IntendedNeverEarlier`), but the code's can: `FrameZeroCountsAsNoCase` is an initialized state where a larger amount
  is answered with an earlier frame.
* The request timestamp margin is tested for covered requests only (src/waiting-time/waiting-time.service.ts:173-193),
  so an uncovered request can overtake an earlier covered one. `FirstInFirstOut` says exactly when;
  `LaterRequestOvertakes` is a state where it happens.
* The 5-day fallback for a new request is reached exactly when balances that are still charged to a report of the past
  cover it (`NewRequestFallsBackExactlyWhen`); `FallsBackToFiveDays` is such a state.
* The lower bound MAX_SEED_LOOKAHEAD on the exit-queue length (src/waiting-time/waiting-time.service.ts:122) never
  binds, because the latest exit epoch is at least five epochs ahead (`ExitQueueMovesBack`).
* With an empty queue the last request id itself is answered as "calculating", although it is finalized on chain: the
  test is `lt` (src/waiting-time/waiting-time.service.ts:397). It is the only such id, and no id is answered as
  finalized too early (`FinalizedAnswersAreTrue`).
* how-estimation-works.md counts the buffer as enough when it covers the load; the code asks for strictly more
  (src/waiting-time/waiting-time.service.ts:178, 187). The model follows the code.

## Model

| member | source | states |
|---|---|---|
| GenesisTime.FrameOfTimestampEpoch | src/common/genesis-time/genesis-time.service.ts:56-92 | for every timestamp, the frame by one real division is the frame of its epoch, reached through floors to seconds, slots and epochs |
| GenesisTime.FrameByTimestampUnique | src/common/genesis-time/genesis-time.service.ts:76-82 | the frame of a timestamp is the only one whose report is not after it while the next report is |
| GenesisTime.FrameOfEpochGalois | src/common/genesis-time/genesis-time.service.ts:63-65 | a frame is reported after an epoch exactly when it is above the frame of that epoch |
| GenesisTime.TimeToBounds | src/common/genesis-time/genesis-time.service.ts:67-74 | the time to a report is negative only when the report is more than half a second ago, and exact from whole seconds |
| GenesisTime.EpochGalois | src/common/genesis-time/genesis-time.service.ts:84-102 | an epoch starts after a timestamp exactly when it is above the epoch of the timestamp |
| GenesisTime.FrameInterval | src/common/genesis-time/genesis-time.service.ts:76-82 | a frame is that of a timestamp exactly when the timestamp lies in the 384 seconds times epochs from its start |
| GenesisTime.EpochInterval | src/common/genesis-time/genesis-time.service.ts:56-61 | an epoch is current, or that of a timestamp, exactly when the instant lies in its 384 seconds |
| GenesisTime.TimeToNearestSecond | src/common/genesis-time/genesis-time.service.ts:67-74 | the time to a report is a whole number of seconds, the nearest one to the exact time |
| FrameByValidatorBalances.CalculateFrameByValidatorBalances | src/waiting-time/utils/calculate-frame-by-validator-balances.ts:12-40 | the loop returns the least key whose balances up to it, plus the rewards of future frames, cover the deficit; null exactly when no key does |
| FrameByValidatorBalances.CoveringMonotone | src/waiting-time/utils/calculate-frame-by-validator-balances.ts:20-37 | a larger deficit or smaller rewards never make another frame cover |
| QueueRequests.CalculateUnfinalizedEthToRequestId | src/waiting-time/utils/calculate-unfinalized-eth-to-requestId.ts:4-13 | the loop sums the amounts up to and including the first request with the id, or all of them |
| QueueRequests.LoadUpToPosition | src/waiting-time/utils/calculate-unfinalized-eth-to-requestId.ts:6-10 | with distinct ids, the load of the i-th request is the sum of the first i + 1 amounts |
| WaitingTime.CalculateWithdrawalFrame | src/waiting-time/waiting-time.service.ts:156-261 | the method with its reassigned frame and nullable cases answers by its specification: bunker, covered, or least applicable case |
| EstimateAnswers.BunkerAnswer | src/waiting-time/waiting-time.service.ts:160-165 | in bunker mode the answer is the frame 14 after the current one, unless that is frame 0 |
| EstimateAnswers.CoveredAnswer | src/waiting-time/waiting-time.service.ts:167-193 | a load strictly below the buffer, or below buffer and vaults, gets the first report after the last one that is 30 minutes old, or the next when the margin is not kept; the kind says why |
| EstimateAnswers.ProjectedAnswer | src/waiting-time/waiting-time.service.ts:195-260 | any other load throws for rewards below one wei an epoch, and else gets the least of the first frame paid by rewards, the first key paid by balances and the first frame after enough exits, each with buffer and vaults and without frame 0 where it is tested for truth |
| EstimateAnswers.GapAdjustedFrameForm | src/waiting-time/waiting-time.service.ts:167-171 | the adjusted frame is the current one exactly when its report is at least 30 minutes old, else the one before |
| FrameProjections.RewardsOnlyIsLeastFrame | src/waiting-time/waiting-time.service.ts:453-465 | null, throw or the least frame by whose report epoch rewards have paid strictly more than the deficit |
| FrameProjections.ExitValidatorsIsLeastFrame | src/waiting-time/waiting-time.service.ts:263-308 | null exactly without drain; else the least frame reported strictly after the least sufficient number of VEBO frames and the mean sweep; the drain is the greatest wei within churn and report limit, and the rewards of a VEBO frame |
| FrameProjections.DrainIsExitsAndRewards | src/waiting-time/waiting-time.service.ts:270-298 | a VEBO frame drains the greatest amount within 32 ether times churn times its epochs and within the limit of the report, and the rewards of its epochs |
| EstimateAnswers.ExitCaseInFields | src/waiting-time/waiting-time.service.ts:263-308 | the exit frame is the first after the least number of VEBO frames that, with buffer and vaults, pay more than the load |
| FrameProjections.EthPerVEBOFrameSign | src/waiting-time/waiting-time.service.ts:268-298 | nothing drains exactly when rewards are below one wei an epoch and churn or the governance cap is 0 |
| FrameProjections.UncoveredIsLeastCase | src/waiting-time/waiting-time.service.ts:195-260 | an uncovered load gets the least of the three cases, with its kind, the later compared kind among equal frames |
| FrameProjections.ThrowsExactlyWhen | src/waiting-time/waiting-time.service.ts:209-260 | exactly when the estimator throws, and which exception |
| FrameProjections.IntendedExactlyUnlessFrameZero | src/waiting-time/waiting-time.service.ts:213-240 | the answer is the one without truthiness tests of frames exactly unless balances or rewards in frame 0 are the soonest case; then it is later or throws |
| FrameProjections.PositiveFramesLoseNothing | src/waiting-time/waiting-time.service.ts:213-240 | from the initial epoch on and without balances at frame 0, the truthiness tests lose nothing |
| FrameProjections.IntendedNeverEarlier | src/waiting-time/waiting-time.service.ts:195-260 | the least of the cases that are not null never gets earlier as the deficit, the exit epoch or the reserve target grows or rewards shrink, unless the richer load divides by zero |
| FrameProjections.NeverEarlier | src/waiting-time/waiting-time.service.ts:195-260 | the same of the code's answer, unless the truthiness tests lose the soonest case of the richer load |
| EstimateGuarantees.GapAdjustmentRightIffFiveEpochs | src/waiting-time/waiting-time.service.ts:167-171 | the gap-adjusted frame is the frame of 30 minutes ago at every moment if and only if a frame has at least five epochs |
| EstimateGuarantees.CoveredGetsFirstTimelyReport | src/waiting-time/waiting-time.service.ts:160-193 | a covered request gets exactly the least frame after the frame of 30 minutes ago that respects the timestamp margin, and its kind says why |
| EstimateGuarantees.TimelyIsExact | src/common/genesis-time/genesis-time.service.ts:67-74 | for whole-second requests, the margin test compares exact distances |
| EstimateGuarantees.ProjectionsAreAhead | src/waiting-time/waiting-time.service.ts:156-308 | bunker, margin, rewards and exit answers are after the current frame |
| EstimateGuarantees.BunkerWaitsFourteenFrames | src/waiting-time/waiting-time.service.ts:162-165 | in bunker mode the report is between 13 and 14 frames ahead of now, whatever the load |
| EstimateGuarantees.ExitQueueMovesBack | src/waiting-time/waiting-time.service.ts:122-124 | the exit epoch of the past is today's, moved back by the age of the request in epochs |
| EstimateAnswers.LatestExitIsLeast | src/waiting-time/waiting-time.service.ts:498-504 | the latest exit epoch is the least one neither before the last known exit nor before the fifth epoch from now |
| EstimateGuarantees.PlacingKeepsTheEstimate | src/waiting-time/waiting-time.service.ts:71-82 | the pre-calculated frame by id of a request that is just placed behind the queue is the frame that was answered for its amount |
| EstimateGuarantees.NewRequestFallsBackExactlyWhen | src/waiting-time/waiting-time.service.ts:71-84 | a new request reaches the 5-day fallback exactly when it is neither in bunker mode nor covered, does not divide by zero, and balances charged to a report of more than half a second ago cover its deficit |
| EstimateAnswers.NewRequestAnswer | src/waiting-time/waiting-time.service.ts:68-94 | a new request is told the report for the queue and its amount, and 30 minutes, to half a second, or five days and 30 minutes exactly when past balances cover it |
| EstimateStates.FallsBackToFiveDays | src/waiting-time/waiting-time.service.ts:76-94 | an initialized state in which a new request is answered with five days and the gap |
| EstimateStates.FrameZeroCountsAsNoCase | src/waiting-time/waiting-time.service.ts:219-240 | an initialized state where a new request meant for frame 0 is answered with frame 49, and a larger one with frame 5 |
| RequestTime.CheckInPastCase | src/waiting-time/waiting-time.service.ts:324-371 | the method keeps the estimate, the recalculation or the report after the current frame, whichever comes first that is not in the past |
| RequestTime.NextReportIsAhead | src/waiting-time/waiting-time.service.ts:359-365 | the report after the current frame is after now, from any whole-second request time |
| EstimateGuarantees.CheckedNeverInPast | src/waiting-time/waiting-time.service.ts:324-371 | whatever the two estimates are, the checked answer is not in the past, and the last fallback is the next report plus 30 minutes |
| EstimateGuarantees.ByIdNeverInPast | src/waiting-time/waiting-time.service.ts:134-153 | a calculated by-id answer has a non-negative waiting time that matches its finalization time |
| EstimateAnswers.QueuedAnswer | src/waiting-time/waiting-time.service.ts:114-153 | a queued id is told the report of its own frame and 30 minutes, its kind and its time; when that has passed, those of the recalculation with the exit queue of today; and else the next report |
| EstimateAnswers.RepairSettles | src/waiting-time/waiting-time.service.ts:324-371 | the repair settles on the first instant that has not passed: of the estimate, of the recalculation, or of the next report |
| EstimateGuarantees.FirstInFirstOut | src/waiting-time/waiting-time.service.ts:114-132 | of any two requests of the queue, the earlier is pre-calculated to no later frame, exactly unless it is covered and an uncovered later one is paid before the report it waits for |
| EstimateGuarantees.CoveredInOrder | src/waiting-time/waiting-time.service.ts:173-193 | of two covered requests, the earlier placed is never answered later |
| EstimateGuarantees.CoveredBeforeUncovered | src/waiting-time/waiting-time.service.ts:173-260 | a covered request is answered later than an uncovered one exactly when balances, rewards or exits pay the other before its report |
| EstimateStates.LaterRequestOvertakes | src/waiting-time/waiting-time.service.ts:173-260 | an initialized state where the first of two queued requests waits for frame 2 and the second is answered with frame 1 |
| EstimateGuarantees.ByIdChecksAreTotal | src/waiting-time/waiting-time.service.ts:99-153 | in a published state, ids below the first open id are finalized, ids of the queue are found, all others are calculating |
| EstimateAnswers.CalculatingAnswer | src/waiting-time/waiting-time.service.ts:424-451 | an id that is neither finalized nor queued is answered like a new request of amount 0, with its id and as calculating |
| EstimateAnswers.InitializingExactlyWhen | src/waiting-time/waiting-time.service.ts:373-390 | both questions are answered with initializing exactly while a job has not run or the churn limit is 0 |
| SweepProjection.ClosedFormIsFirstProcessingSlot | src/jobs/validators/utils/get-validator-withdrawal-timestamp.ts:50-82 | with all validators active, the total is one more than the first open slot whose circular window holds the validator |
| SweepProjection.SweepWithinOneRound | src/jobs/validators/utils/get-validator-withdrawal-timestamp.ts:58-79 | for any density, between 1 and ceil((active + 1) / perSlot) slots after withdrawability and blocking |
| SweepProjection.TimestampIsFirstProcessing | src/jobs/validators/utils/get-validator-withdrawal-timestamp.ts:27-83 | with all validators active, the timestamp is 12 seconds for every slot up to and including the first open one that processes the validator |
| SweepProjection.TimestampWithinOneRound | src/jobs/validators/utils/get-validator-withdrawal-timestamp.ts:54-83 | for any density, the timestamp is between 1 and ceil((active + 1) / 16) slots of 12 seconds after the first open one starts |
| SweepProjection.TimestampAtMeanDensity | src/jobs/validators/utils/get-validator-withdrawal-timestamp.ts:46-83 | for any density, the timestamp counts the slots before the first open one and the least slots of 16 for the active validators between the advanced cursor and the validator |
| SweepProjection.AdvanceIsGreatest | src/jobs/validators/utils/get-validator-withdrawal-timestamp.ts:63-67 | the expected advance of the cursor is the greatest number of places whose mean active validators the free slots can process |
| SweepProjection.ActivesAreLeast | src/jobs/validators/utils/get-validator-withdrawal-timestamp.ts:70-73 | the expected validators to process are one more than the least number that the distance can hold at mean density |
| SweepProjection.CursorForm | src/jobs/validators/utils/get-validator-withdrawal-timestamp.ts:60-68 | the slot-by-slot cursor stands while blocked and then advances on the circle |
| SweepProjection.ChargedFrameIsNextReport | src/jobs/validators/validators.service.ts:236-236 | the charged frame is the first whose report is strictly after the sweep |
| SweepProjection.ChargedAfterSweepAndWithdrawable | src/jobs/validators/validators.service.ts:225-239 | the report of the charged frame is after the sweep and after the withdrawable epoch begins |
| FrameBalancesJob.FindAndSetLidoValidatorsWithdrawableBalances | src/jobs/validators/validators.service.ts:215-247 | the scan stores an entry for exactly the frames whose report is the first after the sweep of a charged validator, with the wei of those validators, and the ids in order |
| FrameBalancesJob.UpdateLidoWithdrawableValidators | src/jobs/validators/validators.service.ts:258-297 | the 20-wide batches store the same for the validators of the recorded ids, in whatever order each response lists them |
| FrameBalancesJob.TotalsChargeReports | src/jobs/validators/validators.service.ts:236-239 | the totals charge every validator, in wei, to the first report after its sweep, and nothing else |
| FrameBalancesJob.ChargedReportsAreLate | src/jobs/validators/validators.service.ts:225-239 | every report that a validator is charged to is after now and after the start of its withdrawable epoch |
| FrameBalancesJob.RefreshRebuildsScan | src/jobs/validators/validators.service.ts:222-297 | on one snapshot refresh and scan give the same map, which sums to the withdrawable balances in wei |
| FrameBalancesJob.RefreshAfterScan | src/jobs/validators/validators.service.ts:68-85 | a refresh after a scan keeps the sum and the recorded ids, and on the snapshot of the scan it leaves the stored map unchanged |
| FrameBalancesJob.TotalsConserveValue | src/jobs/validators/validators.service.ts:237-239 | the sum of the map is the sum of the charged balances |
| FrameBalancesJob.TotalsPermutation | src/jobs/validators/validators.service.ts:275-294 | the map does not depend on the order of the validators |
| FrameBalancesJob.WithdrawableSubset | src/jobs/validators/validators.service.ts:224-224 | the scan charges exactly the validators with a withdrawable epoch other than 2^64 - 1 and a positive balance, as often as they occur |
| CronSchedule.EmptyIffDayNotDivided | src/jobs/validators/validators.service.ts:369-379 | the schedule is empty exactly when the frame length is not positive or does not divide a day |
| CronSchedule.ScheduleIsEvenlySpaced | src/jobs/validators/validators.service.ts:381-397 | the entries ascend strictly from the earliest run of the day in steps of one frame, and fill the day |
| CronSchedule.EveryFrameHasOneRun | src/jobs/validators/validators.service.ts:366-398 | every VEBO frame start plus 1800 seconds falls in the minute of exactly one entry |
| CronSchedule.EveryRunHasAFrame | src/jobs/validators/validators.service.ts:393-397 | every entry is a time of the day and the run of some frame |
| CronSchedule.DueHalfAnHourLater | src/jobs/validators/validators.service.ts:366-390 | the run of a frame is due 1800 seconds after its start |
| CronSchedule.UTCSecondForm | src/jobs/validators/validators.service.ts:388-390 | UTC hours, minutes and seconds add up to the second of the day |
| QueueCache.FetchRequestsByIds | src/jobs/queue-info/queue-info.service.ts:163-175 | paging by 50 gives one status per id, in order, each from the call of its page, or fails when some page fails; the calls ask for all ids in order, or for those up to the failing page |
| QueueCache.HasContiguousIds | src/jobs/queue-info/queue-info.service.ts:153-161 | true exactly when the ids count up from the expected first id |
| QueueCache.GetUpdatedRequests | src/jobs/queue-info/queue-info.service.ts:106-142 | the result is the kept cached requests followed by the fetched missing ones, and the contract is asked for exactly the missing ids |
| QueueCache.KeptAndMissing | src/jobs/queue-info/queue-info.service.ts:115-140 | for an arbitrary cache, kept requests and missing ids split the expected ids in two |
| QueueCache.UpdatePublishesExactIds | src/jobs/queue-info/queue-info.service.ts:106-151 | for an arbitrary cache, a successful update has exactly the ids last - n + 1 to last |
| QueueCache.QueueInfoStorage.UpdateQueueInfo | src/jobs/queue-info/queue-info.service.ts:54-104 | the job publishes everything it read, or nothing when one of the eight counter calls or a status page fails |
| QueueRuns.NeverInconsistent | src/jobs/queue-info/queue-info.service.ts:121-129 | in every run the inconsistency check never fires, and updates ask only for ids after the published ones |
| QueueRuns.UpdateAgreesWithRefetch | src/jobs/queue-info/queue-info.service.ts:106-142 | in every run an update publishes the ids, amounts and timestamps that a full refetch would give |
| QueueRuns.FetchedAtMostOnce | src/jobs/queue-info/queue-info.service.ts:131-141 | in every run no id is asked for twice by successful updates, which ask for the missing ids of `GetUpdatedRequests` |
| QueueRuns.AlwaysPublished | src/jobs/queue-info/queue-info.service.ts:80-91 | in every run the cache is a contiguous queue that agrees with the chain |
| QueueRuns.EveryRunIsFirstInFirstOut | src/waiting-time/waiting-time.service.ts:114-132 | in every run the published queue is pre-calculated first in, first out, exactly unless an uncovered request overtakes a covered one |
| QueueRuns.EveryRunKnowsEveryId | src/waiting-time/waiting-time.service.ts:97-120 | in every run no id leads to an undefined request |
| QueueRuns.FinalizedAnswersAreTrue | src/waiting-time/waiting-time.service.ts:392-422 | in every run an id answered as finalized is finalized on chain, and every id below the published queue is answered so, except the last id of an empty queue |
| BlockStateCache.BlockStateCacheService.constructor | src/waiting-time/block-state-cache.service.ts:23-25 | the caches and their histories start empty |
| BlockStateCache.BlockStateCacheService.BeginBlockNumber | src/waiting-time/block-state-cache.service.ts:69-77 | the segment before the await serves a number exactly when the resolution that completed last began less than the time to live ago, and it serves that resolution's block |
| BlockStateCache.BlockStateCacheService.EndBlockNumber | src/waiting-time/block-state-cache.service.ts:79-82 | the segment after the await makes its resolution, with the start time of its fetch, the last one |
| BlockStateCache.BlockStateCacheService.LookUpState | src/waiting-time/block-state-cache.service.ts:41-43 | a state is returned exactly when the state that was read last is of this block, and it is that state |
| BlockStateCache.BlockStateCacheService.EndState | src/waiting-time/block-state-cache.service.ts:53-66 | the state built from the four reads, with the buffer clamped at 0, is returned and becomes the last one |
| BlockStateCache.StepKeepsInv | src/waiting-time/block-state-cache.service.ts:38-83 | every segment of every call keeps the invariant |
| BlockStateCache.ReturnedStatesAreConsistent | src/waiting-time/block-state-cache.service.ts:38-67 | in every interleaving a call returns values read at the block it located, with buffer max(0, total - reserve) and a vaults balance that was read at this block |
| BlockStateCache.ServedBlockNumbersAreRecent | src/waiting-time/block-state-cache.service.ts:69-83 | in every interleaving a cached block number was resolved by a fetch that began less than 12000 ms before |
| Decimal.IntRoundTrip | src/storage/validators/validators-cache.service.ts:54-59 | every whole number survives printing and reading, and prints as a numeral |
| Decimal.DecimalPlaces | src/storage/validators/validators-cache.service.ts:77-84 | numerals are decimal, with a leading minus sign |
| ValidatorsCache.SplitJoin | src/storage/validators/validators-cache.service.ts:32-40 | splitting undoes joining exactly when no field contains the divider |
| ValidatorsCache.FrameBalancesRoundTrip | src/common/validators/strigify-frame-balances.ts:3-9 | a frame-to-balance map of any size survives stringification and parsing, and its text has no divider |
| ValidatorsCache.TwoFramesText | src/common/validators/strigify-frame-balances.ts:3-9 | the text of a map is a JSON object of quoted numerals in ascending order of frames |
| ValidatorsCache.SaveDataToCache | src/storage/validators/validators-cache.service.ts:73-88 | the file holds the six fields of the storage in their order, with a bar between them |
| ValidatorsCache.InitializeFromCache | src/storage/validators/validators-cache.service.ts:23-71 | restores all, some (broken balances) or none of the six fields, and no other field |
| ValidatorsCache.RestoredFromTexts | src/storage/validators/validators-cache.service.ts:32-60 | a file of six texts restores nothing when it is at least 10800 seconds old or has no time, the first three fields when the balances are broken, and else all six |
| ValidatorsCache.OtherFilesChangeNothing | src/storage/validators/validators-cache.service.ts:34-40 | a file that cannot be read or has not six parts changes nothing |
| ValidatorsCache.FileSplitsIntoFields | src/storage/validators/validators-cache.service.ts:32-40 | a saved file splits into its six fields exactly when the exit epoch has no divider |
| ValidatorsCache.SavedStateIsRestored | src/storage/validators/validators-cache.service.ts:29-99 | a saved state younger than 10800 seconds is restored completely; otherwise nothing changes |
| LogFetcher.GetLogsByBlockStepsWithRetry | src/common/execution-provider/execution-provider.service.ts:76-115 | the loop gives the logs of every chunk that answers, in order, with bounded and never repeated calls |
| LogFetcher.FetchChunk | src/common/execution-provider/execution-provider.service.ts:87-109 | the retry loop gives the chunk exactly when some attempt does not throw |
| LogFetcher.CompleteExactlyWhenEveryChunkAnswers | src/common/execution-provider/execution-provider.service.ts:82-114 | the result is that of one fetch over the range exactly when every chunk with logs answers |
| LogFetcher.AnsweringChunksInOrder | src/common/execution-provider/execution-provider.service.ts:82-114 | the result is that of one fetch over the range without the logs of the chunks none of whose attempts answers |
| LogFetcher.AtMostRetryCountCalls | src/common/execution-provider/execution-provider.service.ts:90-109 | at most retryCount calls are made for a chunk |

## Left out

- HTTP controllers, DTOs, throttling, metrics, logging and the NestJS modules: plumbing.
- RPC, consensus and contract clients, retry wrappers, stream parsing and ABI decoding: oracles here. The resolution of
  a block number (src/waiting-time/block-state-cache.service.ts:85-108) is an arbitrary block.
- NFT rendering: string and float formatting.
- `SweepService` and the validator-state predicates: JavaScript coercions decide their results. The mean sweep is an
  input of the estimator.
- Churn limit, reward minima, deposits-reserve latch, oracle-limits versions, spec fork check and secrets rotation:
  their outputs are inputs here.
- `calculateRequestTimeSimple`: a single formula.
- Starting, stopping and comparing cron jobs; an entry is kept as hour and minute, not as text.
- Float rounding and integers above 2^53: quotients are exact, as is the ratio of active to total validators.
- Chain reorganizations, and storage writes between the awaits of one estimate: an estimate reads one snapshot.
- Frame keys below 0, which `Object.keys` would list after the others.
- ValidatorsCache.InitializeFromCache: leaves out Number(string) for texts other than decimal numerals and the empty
  text, and JSON with spaces, escapes or keys that are no numerals: no saved file contains them.
- LogFetcher.GetLogsByBlockStepsWithRetry: a block step below 1 is excluded, because the loop then does not end.
- SweepProjection.ClosedFormIsFirstProcessingSlot: needs every validator active, because the program uses the mean
  density otherwise and no slot-by-slot sweep corresponds to it; `SweepWithinOneRound` bounds that case.
