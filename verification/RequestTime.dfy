// From frames to waiting times (getWaitingTimeInfo, getWaitingTimeInfoById, checkInPastCase and the
// checkIs* classifiers). One call reads the clock once, as `now`.

module RequestTime {
  import opened Results
  import opened FloorArithmetic
  import opened GenesisTime
  import opened WaitingTime
  import opened QueueRequests

  datatype Status = Initializing | Calculating | Finalized | Calculated

  /** `finalizationIn` and `finalizationAt` in milliseconds, `requestedAt` in seconds. */
  datatype RequestInfo = RequestInfo(
    finalizationIn: int, finalizationAt: int, kind: CalculationType, requestId: Option<int>, requestedAt: Option<int>)

  datatype Answer = Answer(status: Status, requestInfo: Option<RequestInfo>)

  /** The queue storage; update times are 0 until the first update. */
  datatype QueueInfo = QueueInfo(requests: seq<Request>, lastRequestId: int, lastUpdate: int)

  datatype Updates = Updates(validatorsLastUpdate: int, contractConfigLastUpdate: int)

  /** What is available on chain at the block of the estimate. */
  datatype BlockBalances = BlockBalances(unfinalized: int, buffer: int, vaultsBalance: int)

  function ValidateTimeResponseWithFallback(ms: int): int {
    if ms < 0 then FALLBACK_MS else ms
  }

  function FinalizationIn(c: Calendar, frame: int, from: int): int {
    ValidateTimeResponseWithFallback(TimeToWithdrawalFrame(c, frame, from)) + GAP_AFTER_REPORT
  }

  predicate IsInitializing(s: Storage, u: Updates, queue: QueueInfo) {
    u.validatorsLastUpdate == 0 || s.churnLimit == 0 || queue.lastUpdate == 0 || u.contractConfigLastUpdate == 0
  }

  predicate IsEmptyQueue(queue: QueueInfo, requestId: int) {
    |queue.requests| == 0 && requestId < queue.lastRequestId
  }

  predicate IsFinalized(queue: QueueInfo, requestId: int) {
    |queue.requests| > 0 && requestId < queue.requests[0].id
  }

  predicate IsNotInQueueYet(queue: QueueInfo, requestId: int) {
    Find(queue.requests, requestId).None? && requestId >= queue.lastRequestId
  }

  /** The query for a request that is placed now, behind the whole queue. */
  function NewRequestQuery(s: Storage, now: int, b: BlockBalances, amount: int): Query {
    Query(b.unfinalized + amount, b.buffer, b.vaultsBalance, now, MaxExitEpoch(s, now))
  }

  ghost function WaitingTimeInfo(s: Storage, u: Updates, queue: QueueInfo, now: int, b: BlockBalances, amount: int)
    : Result<Answer>
    requires ValidStorage(s)
  {
    if IsInitializing(s, u, queue) then Success(Answer(Initializing, None)) else
      var estimate :- WithdrawalFrame(s, now, NewRequestQuery(s, now, b, amount));
      var finalizationIn := FinalizationIn(s.calendar, estimate.frame, now);
      Success(Answer(Calculated, Some(RequestInfo(finalizationIn, now + finalizationIn, estimate.kind, None, None))))
  }

  /** The latest exit epoch as it looked when the request was placed. */
  function MaxExitEpochInPast(s: Storage, now: int, requestTimestamp: int): int {
    var diff := Max(MaxExitEpoch(s, now) - CurrentEpoch(s.calendar, now), MAX_SEED_LOOKAHEAD);
    EpochByTimestamp(s.calendar, requestTimestamp) + diff
  }

  function QueuedRequestQuery(s: Storage, now: int, requests: seq<Request>, request: Request, b: BlockBalances): Query {
    var requestTimestamp := request.timestamp * 1000;
    Query(LoadUpTo(requests, request.id), b.buffer, b.vaultsBalance, requestTimestamp,
          MaxExitEpochInPast(s, now, requestTimestamp))
  }

  /** The pre-calculated frame of a queued request. */
  ghost function PrecalculatedFrame(s: Storage, now: int, requests: seq<Request>, request: Request, b: BlockBalances)
    : Result<FrameEstimate>
    requires ValidStorage(s)
  {
    WithdrawalFrame(s, now, QueuedRequestQuery(s, now, requests, request, b))
  }

  // ---- checkInPastCase

  datatype Repaired = Repaired(kind: CalculationType, finalizationIn: int)

  predicate InPast(finalizationIn: int, requestTimestamp: int, now: int) {
    requestTimestamp + finalizationIn - now < 0
  }

  function RecalculationQuery(s: Storage, now: int, requests: seq<Request>, request: Request, b: BlockBalances): Query {
    QueuedRequestQuery(s, now, requests, request, b).(latestEpoch := MaxExitEpoch(s, now))
  }

  /** The first of the estimate and its recalculation that is not in the past, or else the next frame. */
  function Repair(c: Calendar, now: int, from: int, nextFrame: int, estimate: FrameEstimate,
                  recalculated: Result<FrameEstimate>): Result<Repaired>
  {
    var first := FinalizationIn(c, estimate.frame, from);
    if !InPast(first, from, now) then Success(Repaired(estimate.kind, first)) else
      var again :- recalculated;
      var second := FinalizationIn(c, again.frame, from);
      if !InPast(second, from, now) then Success(Repaired(again.kind, second))
      else Success(Repaired(again.kind, TimeToWithdrawalFrame(c, nextFrame, from) + GAP_AFTER_REPORT))
  }

  /** The first of: the estimate, the recalculation with today's exit queue, the report after the current frame. */
  ghost function CheckedEstimate(s: Storage, now: int, requests: seq<Request>, request: Request, b: BlockBalances,
                                 estimate: FrameEstimate): Result<Repaired>
    requires ValidStorage(s)
  {
    Repair(s.calendar, now, request.timestamp * 1000, CurrentFrame(s, now) + 1, estimate,
           WithdrawalFrame(s, now, RecalculationQuery(s, now, requests, request, b)))
  }

  method CheckInPastCase(s: Storage, now: int, requests: seq<Request>, request: Request, b: BlockBalances,
      frame: int, kind: CalculationType)
    returns (result: Result<Repaired>)
    requires ValidStorage(s)
    ensures result == CheckedEstimate(s, now, requests, request, b, FrameEstimate(frame, kind))
  {
    var maxExitEpoch := MaxExitEpoch(s, now);
    var requestTimestamp := request.timestamp * 1000;
    var queueStETH := CalculateUnfinalizedEthToRequestId(requests, request);
    var currentFrame := FrameOfEpoch(s.calendar, CurrentEpoch(s.calendar, now));

    var currentType := kind;
    var ms := TimeToWithdrawalFrame(s.calendar, frame, requestTimestamp);
    var finalizationIn := ValidateTimeResponseWithFallback(ms) + GAP_AFTER_REPORT;
    var isInPast := requestTimestamp + finalizationIn - now < 0;

    if isInPast {
      var query := Query(queueStETH, b.buffer, b.vaultsBalance, requestTimestamp, maxExitEpoch);
      assert query == RecalculationQuery(s, now, requests, request, b);
      var recalculatedResult := CalculateWithdrawalFrame(s, now, query);
      if recalculatedResult.Failure? {
        return Failure(recalculatedResult.error);
      }
      ms := TimeToWithdrawalFrame(s.calendar, recalculatedResult.value.frame, requestTimestamp);
      finalizationIn := ValidateTimeResponseWithFallback(ms) + GAP_AFTER_REPORT;
      currentType := recalculatedResult.value.kind;
    }

    var isInPastFallback := requestTimestamp + finalizationIn - now < 0;
    if isInPastFallback {
      finalizationIn := TimeToWithdrawalFrame(s.calendar, currentFrame + 1, requestTimestamp) + GAP_AFTER_REPORT;
    }
    return Success(Repaired(currentType, finalizationIn));
  }

  /** The report after the current frame, measured from a whole-second start point, is after now. */
  lemma NextReportIsAhead(s: Storage, now: int, from: int)
    requires ValidStorage(s) && from % 1000 == 0
    ensures from + TimeToWithdrawalFrame(s.calendar, CurrentFrame(s, now) + 1, from)
         == ReportAt(s.calendar, CurrentFrame(s, now) + 1) > now
  {
    TimeToBounds(s.calendar, CurrentFrame(s, now) + 1, from);
    FrameOfTimestampEpoch(s.calendar, now);
    FrameByTimestampUnique(s.calendar, now, CurrentFrame(s, now));
  }

  // ---- getWaitingTimeInfoById

  /** What is answered for a request that is found in the queue. */
  ghost function QueuedRequestAnswer(s: Storage, now: int, requests: seq<Request>, request: Request, b: BlockBalances)
    : Result<Answer>
    requires ValidStorage(s)
  {
    var from := request.timestamp * 1000;
    var estimate :- PrecalculatedFrame(s, now, requests, request, b);
    var checked :- CheckedEstimate(s, now, requests, request, b, estimate);
    Success(Answer(Calculated, Some(RequestInfo(
      from + checked.finalizationIn - now, from + checked.finalizationIn, checked.kind,
      Some(request.id), Some(request.timestamp)))))
  }

  ghost function WaitingTimeInfoById(s: Storage, u: Updates, queue: QueueInfo, now: int, requestId: int,
                                     b: BlockBalances): Result<Answer>
    requires ValidStorage(s)
  {
    if IsInitializing(s, u, queue) then Success(Answer(Initializing, None))
    else if IsEmptyQueue(queue, requestId) then Success(Answer(Finalized, None))
    else if IsFinalized(queue, requestId) then Success(Answer(Finalized, None))
    else if IsNotInQueueYet(queue, requestId) then
      var last :- WaitingTimeInfo(s, u, queue, now, b, 0);
      Success(Answer(Calculating, Some(last.requestInfo.value.(requestId := Some(requestId)))))
    else match Find(queue.requests, requestId)
      case None => Failure(UndefinedRequest)
      case Some(index) => QueuedRequestAnswer(s, now, queue.requests, queue.requests[index], b)
  }
}
