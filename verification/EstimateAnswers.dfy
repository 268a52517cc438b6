// The answers of the service in terms of what it stores and is asked: every theorem here writes out the fields, the
// constants and the comparisons that the estimator's own functions name.

module EstimateAnswers {
  import opened Results
  import opened FloorArithmetic
  import opened GenesisTime
  import opened BalanceMaps
  import opened FrameByValidatorBalances
  import opened WaitingTime
  import opened FrameProjections
  import opened QueueRequests
  import opened RequestTime
  import opened EstimateGuarantees

  // ---- the frame of a load

  /** The last frame whose report is at least 30 minutes old, if it is the current frame or the one before. */
  function LaggedFrame(c: Calendar, now: int): int
    requires ValidCalendar(c)
  {
    var frame := FrameByTimestamp(c, now);
    if now - ReportAt(c, frame) >= 1_800_000 then frame else frame - 1
  }

  lemma GapAdjustedFrameForm(s: Storage, now: int)
    requires ValidStorage(s)
    ensures GapAdjustedFrame(s, now) == LaggedFrame(s.calendar, now)
  {
    CurrentFrameIsFrameOfNow(s, now);
    FrameByTimestampUnique(s.calendar, now - 1_800_000, CurrentFrame(s, now));
  }

  /** Rewards from now until the report of the frame, with buffer and vaults, exceed the load. */
  predicate PaidByRewards(s: Storage, now: int, q: Query, available: int, f: int)
    requires ValidStorage(s)
  {
    available / s.calendar.epochsPerFrame
    * (s.calendar.initialEpoch + f * s.calendar.epochsPerFrame - CurrentEpoch(s.calendar, now))
    + q.buffer + q.vaultsBalance > q.unfinalized
  }

  ghost predicate IsRewardsFrame(s: Storage, now: int, q: Query, rewards: Option<int>)
    requires ValidStorage(s)
  {
    var available := Max(0, s.rewardsPerFrame - s.depositsReserveTarget);
    match rewards
    case None => available == 0
    case Some(frame) =>
      && available >= s.calendar.epochsPerFrame
      && forall f :: PaidByRewards(s, now, q, available, f) <==> f >= frame
  }

  /** Balances up to the frame and rewards after the lagged frame, with buffer and vaults, reach the load. */
  ghost predicate PaidByBalances(s: Storage, now: int, q: Query, f: int)
    requires ValidStorage(s)
  {
    Sum(UpTo(s.frameBalances, f))
    + Max(0, f - LaggedFrame(s.calendar, now)) * Max(0, s.rewardsPerFrame - s.depositsReserveTarget)
    + q.buffer + q.vaultsBalance >= q.unfinalized
  }

  ghost predicate IsBalancesFrame(s: Storage, now: int, q: Query, balances: Option<int>)
    requires ValidStorage(s)
  {
    match balances
    case None => forall f :: f in s.frameBalances ==> !PaidByBalances(s, now, q, f)
    case Some(frame) =>
      && frame in s.frameBalances && PaidByBalances(s, now, q, frame)
      && forall f :: f in s.frameBalances && PaidByBalances(s, now, q, f) ==> frame <= f
  }

  /** `count` VEBO frames, with buffer and vaults, pay more than the load. */
  predicate PaidByExits(q: Query, drain: int, count: int) {
    count * drain + q.buffer + q.vaultsBalance > q.unfinalized
  }

  ghost predicate IsExitCount(q: Query, drain: int, count: int) {
    forall n :: PaidByExits(q, drain, n) <==> n >= count
  }

  /** The report of the frame is after the exits of `count` VEBO frames and the mean sweep. */
  predicate ReportedAfterExits(s: Storage, latestEpoch: int, count: int, f: int) {
    s.calendar.initialEpoch + f * s.calendar.epochsPerFrame
    > latestEpoch + count * s.epochsPerFrameVEBO + s.sweepMeanEpochs
  }

  ghost predicate IsFirstAfterExits(s: Storage, latestEpoch: int, count: int, first: int) {
    forall f :: ReportedAfterExits(s, latestEpoch, count, f) <==> f >= first
  }

  /** With the greatest exits of a VEBO frame: none when nothing drains, else the first frame after enough of them. */
  ghost predicate IsExitsFrame(s: Storage, q: Query, exits: int, frame: Option<int>)
    requires ValidStorage(s)
  {
    var available := Max(0, s.rewardsPerFrame - s.depositsReserveTarget);
    var drain := exits + available / s.calendar.epochsPerFrame * s.epochsPerFrameVEBO;
    match frame
    case None => drain == 0
    case Some(first) =>
      exists count :: IsExitCount(q, drain, count) && IsFirstAfterExits(s, q.latestEpoch, count, first)
  }

  lemma RewardsCaseInFields(s: Storage, now: int, q: Query)
    requires ValidStorage(s) && q.buffer + q.vaultsBalance <= q.unfinalized
    ensures UntestedRewards(s, now, q).Failure?
            <==> 0 < s.rewardsPerFrame - s.depositsReserveTarget < s.calendar.epochsPerFrame
    ensures UntestedRewards(s, now, q).Success? ==> IsRewardsFrame(s, now, q, UntestedRewards(s, now, q).value)
  {
    AvailableRewards(s);
    var available := RewardsAvailableForWithdrawals(s);
    RewardsOnlyIsLeastFrame(s, now, Deficit(q), available);
    if available >= s.calendar.epochsPerFrame {
      var perEpoch := available / s.calendar.epochsPerFrame;
      forall f
        ensures PaidByRewards(s, now, q, available, f) <==> RewardsPay(s, now, Deficit(q), perEpoch, f)
      {
      }
    }
  }

  lemma BalancesCaseInFields(s: Storage, now: int, q: Query)
    requires ValidStorage(s)
    ensures IsBalancesFrame(s, now, q, UntestedBalances(s, now, q))
  {
    AvailableRewards(s);
    GapAdjustedFrameForm(s, now);
    var frames := CoveringFrames(s.frameBalances, Deficit(q), GapAdjustedFrame(s, now),
                                 RewardsAvailableForWithdrawals(s));
    forall f | f in s.frameBalances
      ensures PaidByBalances(s, now, q, f) <==> f in frames
    {
    }
  }

  lemma ExitCaseInFields(s: Storage, q: Query) returns (exits: int)
    requires ValidStorage(s) && q.buffer + q.vaultsBalance <= q.unfinalized
    ensures IsGreatestExit(s, exits) && IsExitsFrame(s, q, exits, ExitCase(s, q))
  {
    AvailableRewards(s);
    exits := DrainIsExitsAndRewards(s, RewardsAvailableForWithdrawals(s));
    var drain := EthPerVEBOFrame(s, RewardsAvailableForWithdrawals(s));
    EthPerVEBOFrameSign(s, RewardsAvailableForWithdrawals(s));
    if drain > 0 {
      var count := Deficit(q) / drain + 1;
      ExitCount(q, drain);
      assert ExitCase(s, q)
          == Some(FrameOfEpoch(s.calendar, q.latestEpoch + count * s.epochsPerFrameVEBO + s.sweepMeanEpochs) + 1);
      FirstAfterExits(s, q.latestEpoch, count);
    }
  }

  lemma ExitCount(q: Query, drain: int)
    requires drain > 0
    ensures IsExitCount(q, drain, Deficit(q) / drain + 1)
  {
    DrainCountForm(drain, Deficit(q));
    forall n
      ensures PaidByExits(q, drain, n) <==> Drains(drain, Deficit(q), n)
    {
    }
  }

  lemma FirstAfterExits(s: Storage, latestEpoch: int, count: int)
    requires ValidStorage(s)
    ensures var epoch := latestEpoch + count * s.epochsPerFrameVEBO + s.sweepMeanEpochs;
      IsFirstAfterExits(s, latestEpoch, count, FrameOfEpoch(s.calendar, epoch) + 1)
  {
    var epoch := latestEpoch + count * s.epochsPerFrameVEBO + s.sweepMeanEpochs;
    forall f
      ensures ReportedAfterExits(s, latestEpoch, count, f) <==> f >= FrameOfEpoch(s.calendar, epoch) + 1
    {
      FrameOfEpochGalois(s.calendar, epoch, f);
    }
  }

  /** A frame in a truthiness test. */
  function NotZero(frame: Option<int>): Option<int> {
    if frame == Some(0) then None else frame
  }

  /** In bunker mode, unless frame 0 results, the answer is the frame 14 after the current one. */
  lemma BunkerAnswer(s: Storage, now: int, q: Query)
    requires ValidStorage(s)
    requires s.bunkerModeActive && FrameByTimestamp(s.calendar, now) != -14
    ensures WithdrawalFrame(s, now, q) == Success(FrameEstimate(FrameByTimestamp(s.calendar, now) + 14, Bunker))
  {
    CurrentFrameIsFrameOfNow(s, now);
  }

  /** Otherwise, a load below the buffer, or below buffer and vaults, gets the first or second report to come. */
  lemma CoveredAnswer(s: Storage, now: int, q: Query)
    requires ValidStorage(s)
    requires !(s.bunkerModeActive && FrameByTimestamp(s.calendar, now) != -14)
    requires q.buffer > q.unfinalized || q.buffer + q.vaultsBalance > q.unfinalized
    ensures var next := LaggedFrame(s.calendar, now) + 1;
      WithdrawalFrame(s, now, q)
      == if TimeToWithdrawalFrame(s.calendar, next, q.requestTimestamp) < s.requestTimestampMargin
         then Success(FrameEstimate(next + 1, RequestTimestampMargin))
         else Success(FrameEstimate(next, if q.buffer > q.unfinalized then Buffer else VaultsBalance))
  {
    CurrentFrameIsFrameOfNow(s, now);
    GapAdjustedFrameForm(s, now);
  }

  /**
   * Any other load throws when rewards are below one wei an epoch, and else gets the least of three frames: the first
   * by which rewards pay it, the first key whose balances pay it, and the first after enough exits. The two that are
   * tested for truth are missing when they are 0.
   */
  lemma ProjectedAnswer(s: Storage, now: int, q: Query)
    requires ValidStorage(s)
    requires !(s.bunkerModeActive && FrameByTimestamp(s.calendar, now) != -14)
    requires q.buffer <= q.unfinalized && q.buffer + q.vaultsBalance <= q.unfinalized
    ensures if 0 < s.rewardsPerFrame - s.depositsReserveTarget < s.calendar.epochsPerFrame then
        WithdrawalFrame(s, now, q) == Failure(DivisionByZero)
      else
        exists balances, rewards, exits, exit ::
          && IsBalancesFrame(s, now, q, balances)
          && IsRewardsFrame(s, now, q, rewards)
          && IsGreatestExit(s, exits) && IsExitsFrame(s, q, exits, exit)
          && IsLeastCase(WithdrawalFrame(s, now, q), NotZero(balances), NotZero(rewards), exit)
  {
    CurrentFrameIsFrameOfNow(s, now);
    RewardsCaseInFields(s, now, q);
    if UntestedRewards(s, now, q).Success? {
      BalancesCaseInFields(s, now, q);
      var exits := ExitCaseInFields(s, q);
      UncoveredIsLeastCase(s, now, q);
      assert NotZero(UntestedBalances(s, now, q)) == BalancesCase(s, now, q);
      assert RewardsCase(s, now, q).value == NotZero(UntestedRewards(s, now, q).value);
    } else {
      AvailableRewards(s);
      ThrowsExactlyWhen(s, now, q);
    }
  }

  // ---- the latest exit epoch

  predicate AfterLatestExit(s: Storage, now: int, epoch: int) {
    epoch >= s.maxExitEpoch && epoch >= CurrentEpoch(s.calendar, now) + 5
  }

  /** `latest` is the least epoch that is neither before the last known exit nor before the fifth epoch from now. */
  ghost predicate IsLatestExit(s: Storage, now: int, latest: int) {
    forall epoch :: AfterLatestExit(s, now, epoch) <==> epoch >= latest
  }

  lemma LatestExitIsLeast(s: Storage, now: int, latest: int)
    ensures IsLatestExit(s, now, latest) <==> latest == MaxExitEpoch(s, now)
  {
    var m := MaxExitEpoch(s, now);
    assert AfterLatestExit(s, now, m);
    assert forall epoch :: AfterLatestExit(s, now, epoch) <==> epoch >= m;
    if IsLatestExit(s, now, latest) {
      assert AfterLatestExit(s, now, latest);
    }
  }

  // ---- what a user is told

  /** Until every job has run once and there is a churn limit, both questions are answered with "initializing". */
  lemma InitializingExactlyWhen(s: Storage, u: Updates, queue: QueueInfo, now: int, b: BlockBalances, amount: int,
                                requestId: int)
    requires ValidStorage(s)
    ensures var missing := u.validatorsLastUpdate == 0 || s.churnLimit == 0 || queue.lastUpdate == 0
                           || u.contractConfigLastUpdate == 0;
      && (WaitingTimeInfo(s, u, queue, now, b, amount) == Success(Answer(Initializing, None)) <==> missing)
      && (WaitingTimeInfoById(s, u, queue, now, requestId, b) == Success(Answer(Initializing, None)) <==> missing)
  {
  }

  /** The report and 30 minutes; when the report is before the request, five days and 30 minutes after the request. */
  function ToldAt(c: Calendar, frame: int, from: int): int {
    if ReportAt(c, frame) < from then from + 432_000_000 + 1_800_000 else ReportAt(c, frame) + 1_800_000
  }

  function Told(now: int, request: Request, at: int, kind: CalculationType): Result<Answer> {
    Success(Answer(Calculated, Some(RequestInfo(at - now, at, kind, Some(request.id), Some(request.timestamp)))))
  }

  /**
   * What a queued request is told: the instant of its first estimate; when that has passed, the instant of the second;
   * and when that has passed as well, the next report and 30 minutes.
   */
  function SettledInTurn(c: Calendar, now: int, from: int, first: FrameEstimate, again: Result<FrameEstimate>)
    : Result<(int, CalculationType)>
    requires ValidCalendar(c)
  {
    if ToldAt(c, first.frame, from) >= now then Success((ToldAt(c, first.frame, from), first.kind)) else
      match again
      case Failure(error) => Failure(error)
      case Success(e) =>
        if ToldAt(c, e.frame, from) >= now then Success((ToldAt(c, e.frame, from), e.kind))
        else Success((ReportAt(c, FrameByTimestamp(c, now) + 1) + 1_800_000, e.kind))
  }

  function ToldInTurn(c: Calendar, now: int, request: Request, first: Result<FrameEstimate>,
                      again: Result<FrameEstimate>): Result<Answer>
    requires ValidCalendar(c)
  {
    var e :- first;
    var settled :- SettledInTurn(c, now, request.timestamp * 1000, e, again);
    Told(now, request, settled.0, settled.1)
  }

  /**
   * A queued request is told the instant of its own frames: first for the load up to and including it and the exit
   * queue as it was when it was placed, and then for the same load and today's exit queue.
   */
  lemma QueuedAnswer(s: Storage, u: Updates, queue: QueueInfo, now: int, b: BlockBalances, i: nat, latest: int)
    requires ValidStorage(s) && !IsInitializing(s, u, queue) && IsLatestExit(s, now, latest)
    requires Published(queue.requests, queue.lastRequestId) && i < |queue.requests|
    ensures var request, from := queue.requests[i], queue.requests[i].timestamp * 1000;
      var load := Amount(queue.requests[..i + 1]);
      var placed := EpochByTimestamp(s.calendar, from) + latest - CurrentEpoch(s.calendar, now);
      WaitingTimeInfoById(s, u, queue, now, request.id, b)
      == ToldInTurn(s.calendar, now, request,
                    WithdrawalFrame(s, now, Query(load, b.buffer, b.vaultsBalance, from, placed)),
                    WithdrawalFrame(s, now, Query(load, b.buffer, b.vaultsBalance, from, latest)))
  {
    QueuedQueries(s, now, queue.requests, i, b, latest);
    QueuedIdIsFound(s, u, queue, now, b, i);
    QueuedRequestIsTold(s, now, queue.requests, queue.requests[i], b);
  }

  lemma QueuedQueries(s: Storage, now: int, requests: seq<Request>, i: nat, b: BlockBalances, latest: int)
    requires i < |requests| && DistinctIds(requests) && IsLatestExit(s, now, latest)
    ensures var request, from := requests[i], requests[i].timestamp * 1000;
      var load := Amount(requests[..i + 1]);
      var placed := EpochByTimestamp(s.calendar, from) + latest - CurrentEpoch(s.calendar, now);
      && QueuedRequestQuery(s, now, requests, request, b) == Query(load, b.buffer, b.vaultsBalance, from, placed)
      && RecalculationQuery(s, now, requests, request, b) == Query(load, b.buffer, b.vaultsBalance, from, latest)
  {
    LatestExitIsLeast(s, now, latest);
    ExitQueueMovesBack(s, now, requests[i].timestamp * 1000);
    LoadUpToPosition(requests, i);
  }

  /** The id of a queued request passes the checks. */
  lemma QueuedIdIsFound(s: Storage, u: Updates, queue: QueueInfo, now: int, b: BlockBalances, i: nat)
    requires ValidStorage(s) && !IsInitializing(s, u, queue)
    requires Published(queue.requests, queue.lastRequestId) && i < |queue.requests|
    ensures WaitingTimeInfoById(s, u, queue, now, queue.requests[i].id, b)
         == QueuedRequestAnswer(s, now, queue.requests, queue.requests[i], b)
  {
    LoadUpToPosition(queue.requests, i);
  }

  lemma ToldInstant(c: Calendar, frame: int, from: int)
    requires from % 1000 == 0
    ensures from + FinalizationIn(c, frame, from) == ToldAt(c, frame, from)
  {
    TimeToBounds(c, frame, from);
  }

  lemma RepairSettles(c: Calendar, now: int, from: int, first: FrameEstimate, again: Result<FrameEstimate>)
    requires ValidCalendar(c) && from % 1000 == 0
    ensures match SettledInTurn(c, now, from, first, again)
      case Failure(error) => Repair(c, now, from, FrameByTimestamp(c, now) + 1, first, again) == Failure(error)
      case Success((at, kind)) =>
        Repair(c, now, from, FrameByTimestamp(c, now) + 1, first, again) == Success(Repaired(kind, at - from))
  {
    ToldInstant(c, first.frame, from);
    if again.Success? {
      ToldInstant(c, again.value.frame, from);
    }
    TimeToBounds(c, FrameByTimestamp(c, now) + 1, from);
  }

  /** The answer of a repaired estimate. */
  function RepairedAnswer(c: Calendar, now: int, request: Request, nextFrame: int, first: Result<FrameEstimate>,
                          again: Result<FrameEstimate>): Result<Answer>
  {
    var e :- first;
    var repaired :- Repair(c, now, request.timestamp * 1000, nextFrame, e, again);
    Told(now, request, request.timestamp * 1000 + repaired.finalizationIn, repaired.kind)
  }

  lemma RepairedIsToldInTurn(c: Calendar, now: int, request: Request, first: Result<FrameEstimate>,
                             again: Result<FrameEstimate>)
    requires ValidCalendar(c)
    ensures RepairedAnswer(c, now, request, FrameByTimestamp(c, now) + 1, first, again)
         == ToldInTurn(c, now, request, first, again)
  {
    if first.Success? {
      RepairSettles(c, now, request.timestamp * 1000, first.value, again);
    }
  }

  /** A request that is found in the queue is answered with its own repaired estimate. */
  lemma QueuedRequestIsRepaired(s: Storage, now: int, requests: seq<Request>, request: Request, b: BlockBalances)
    requires ValidStorage(s)
    ensures QueuedRequestAnswer(s, now, requests, request, b)
         == RepairedAnswer(s.calendar, now, request, CurrentFrame(s, now) + 1,
                           PrecalculatedFrame(s, now, requests, request, b),
                           WithdrawalFrame(s, now, RecalculationQuery(s, now, requests, request, b)))
  {
  }

  lemma QueuedRequestIsTold(s: Storage, now: int, requests: seq<Request>, request: Request, b: BlockBalances)
    requires ValidStorage(s)
    ensures QueuedRequestAnswer(s, now, requests, request, b)
         == ToldInTurn(s.calendar, now, request, PrecalculatedFrame(s, now, requests, request, b),
                       WithdrawalFrame(s, now, RecalculationQuery(s, now, requests, request, b)))
  {
    CurrentFrameIsFrameOfNow(s, now);
    QueuedRequestIsRepaired(s, now, requests, request, b);
    RepairedIsToldInTurn(s.calendar, now, request, PrecalculatedFrame(s, now, requests, request, b),
                         WithdrawalFrame(s, now, RecalculationQuery(s, now, requests, request, b)));
  }

  /**
   * The answer to a new request: the report of the frame for the whole queue and the amount, and 30 minutes, to half
   * a second; or five days and 30 minutes, exactly when balances charged to a past report cover it.
   */
  lemma NewRequestAnswer(s: Storage, u: Updates, queue: QueueInfo, now: int, b: BlockBalances, amount: int,
                         latest: int)
    requires ValidStorage(s) && s.requestTimestampMargin >= 0 && !IsInitializing(s, u, queue)
    requires IsLatestExit(s, now, latest)
    ensures var q := Query(b.unfinalized + amount, b.buffer, b.vaultsBalance, now, latest);
      IsAnsweredAsNew(WaitingTimeInfo(s, u, queue, now, b, amount), s, now, q, Calculated, None)
  {
    LatestExitIsLeast(s, now, latest);
    var q := NewRequestQuery(s, now, b, amount);
    NewRequestFallsBackExactlyWhen(s, now, b, amount);
    if WithdrawalFrame(s, now, q).Success? {
      TimeToForm(s.calendar, WithdrawalFrame(s, now, q).value.frame, now);
    }
  }

  /** An id that is neither finalized nor queued is answered like a new request of amount 0 behind the queue. */
  lemma CalculatingAnswer(s: Storage, u: Updates, queue: QueueInfo, now: int, b: BlockBalances, requestId: int,
                          latest: int)
    requires ValidStorage(s) && s.requestTimestampMargin >= 0 && !IsInitializing(s, u, queue)
    requires IsLatestExit(s, now, latest) && Published(queue.requests, queue.lastRequestId)
    requires requestId >= FirstOpenId(queue)
    requires forall i :: 0 <= i < |queue.requests| ==> queue.requests[i].id != requestId
    ensures var q := Query(b.unfinalized, b.buffer, b.vaultsBalance, now, latest);
      IsAnsweredAsNew(WaitingTimeInfoById(s, u, queue, now, requestId, b), s, now, q, Calculating, Some(requestId))
  {
    NewRequestAnswer(s, u, queue, now, b, 0, latest);
    UnknownIdIsNotInQueue(queue, requestId);
  }

  lemma UnknownIdIsNotInQueue(queue: QueueInfo, requestId: int)
    requires Published(queue.requests, queue.lastRequestId) && requestId >= FirstOpenId(queue)
    requires forall i :: 0 <= i < |queue.requests| ==> queue.requests[i].id != requestId
    ensures !IsEmptyQueue(queue, requestId) && !IsFinalized(queue, requestId) && IsNotInQueueYet(queue, requestId)
  {
    if queue.requests != [] && requestId <= queue.lastRequestId {
      QueueHasNoGaps(queue, requestId);
      assert false;
    }
  }

  lemma QueueHasNoGaps(queue: QueueInfo, requestId: int)
    requires queue.requests != [] && Published(queue.requests, queue.lastRequestId)
    requires queue.requests[0].id <= requestId <= queue.lastRequestId
    ensures exists i :: 0 <= i < |queue.requests| && queue.requests[i].id == requestId
  {
    assert queue.requests[requestId - (queue.lastRequestId - |queue.requests| + 1)].id == requestId;
  }

  ghost predicate IsAnsweredAsNew(r: Result<Answer>, s: Storage, now: int, q: Query, status: Status, id: Option<int>)
    requires ValidStorage(s)
  {
    match WithdrawalFrame(s, now, q)
    case Failure(error) => r == Failure(error)
    case Success(e) =>
      && r.Success? && r.value.status == status && r.value.requestInfo.Some?
      && var info := r.value.requestInfo.value;
         && info.requestId == id && info.requestedAt == None && info.kind == e.kind
         && info.finalizationAt == now + info.finalizationIn
         && info.finalizationIn >= 1_800_000
         && if PastBalancesCover(s, now, q) then info.finalizationIn == 432_000_000 + 1_800_000
            else -500 <= info.finalizationAt - (ReportAt(s.calendar, e.frame) + 1_800_000) <= 500
  }
}
