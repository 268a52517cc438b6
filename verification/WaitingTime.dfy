// The frame estimator (WaitingTimeService): which oracle report finalizes a withdrawal request?
// Amounts are in wei, timestamps in milliseconds.

module WaitingTime {
  import opened Results
  import opened FloorArithmetic
  import opened GenesisTime
  import opened BalanceMaps
  import opened FrameByValidatorBalances

  const GAP_AFTER_REPORT := 30 * 60 * 1000
  const WITHDRAWAL_BUNKER_DELAY_FRAMES := 14
  const MAX_SEED_LOOKAHEAD := 4
  const ETHER := 1_000_000_000_000_000_000
  const MIN_ACTIVATION_BALANCE := 32 * ETHER
  const FALLBACK_MS := 5 * 3600 * 24 * 1000

  datatype CalculationType =
    | Buffer
    | Bunker
    | VaultsBalance
    | RewardsOnly
    | ValidatorBalances
    | RequestTimestampMargin
    | ExitValidators

  datatype FrameEstimate = FrameEstimate(frame: int, kind: CalculationType)

  /** What the estimator reads from the contract-config, rewards, validators and queue storages. */
  datatype Storage = Storage(
    calendar: Calendar,
    epochsPerFrameVEBO: int,
    requestTimestampMargin: int,
    maxBalanceExitRequestedPerReportInEth: int,
    depositsReserveTarget: int,
    rewardsPerFrame: int,
    churnLimit: int,
    sweepMeanEpochs: int,
    maxExitEpoch: int,
    frameBalances: FrameBalances,
    bunkerModeActive: bool)

  /** The signs that the contracts and the validators job guarantee. */
  predicate ValidStorage(s: Storage) {
    && ValidCalendar(s.calendar)
    && s.epochsPerFrameVEBO > 0
    && s.maxBalanceExitRequestedPerReportInEth >= 0
    && s.churnLimit >= 0
    && s.sweepMeanEpochs >= 0
  }

  /** The arguments of calculateWithdrawalFrame. */
  datatype Query = Query(unfinalized: int, buffer: int, vaultsBalance: int, requestTimestamp: int, latestEpoch: int)

  /** BigNumber.div: truncates toward zero and throws on a zero divisor. */
  function BigNumberDiv(a: int, b: int): Result<int> {
    if b == 0 then Failure(DivisionByZero)
    else Success(if a >= 0 then a / b else -((-a) / b))
  }

  function CurrentFrame(s: Storage, now: int): int
    requires ValidStorage(s)
  {
    FrameOfEpoch(s.calendar, CurrentEpoch(s.calendar, now))
  }

  /** The last frame whose finalization gap is over, as far as one decrement reaches. */
  function GapAdjustedFrame(s: Storage, now: int): int
    requires ValidStorage(s)
  {
    var currentFrame := CurrentFrame(s, now);
    if FrameByTimestamp(s.calendar, now - GAP_AFTER_REPORT) != currentFrame then currentFrame - 1 else currentFrame
  }

  function MaxExitEpoch(s: Storage, now: int): int {
    Max(s.maxExitEpoch, CurrentEpoch(s.calendar, now) + MAX_SEED_LOOKAHEAD + 1)
  }

  function FrameIsBunker(s: Storage, now: int): Option<int>
    requires ValidStorage(s)
  {
    if s.bunkerModeActive then Some(CurrentFrame(s, now) + WITHDRAWAL_BUNKER_DELAY_FRAMES) else None
  }

  /** A frame number in a truthiness test: frame 0 counts as no case. */
  function Truthy(frame: Option<int>): Option<int> {
    if frame == Some(0) then None else frame
  }

  /** Rewards per frame after the refill of the deposits reserve. */
  function RewardsAvailableForWithdrawals(s: Storage): int {
    var reservedRefillPerFrame :=
      if s.depositsReserveTarget > s.rewardsPerFrame then s.rewardsPerFrame else s.depositsReserveTarget;
    s.rewardsPerFrame - reservedRefillPerFrame
  }

  function FrameByRewardsOnly(s: Storage, now: int, deficit: int, rewardsAvailable: int): Result<Option<int>>
    requires ValidStorage(s)
  {
    if rewardsAvailable == 0 then Success(None) else
      var rewardsPerEpoch :- BigNumberDiv(rewardsAvailable, s.calendar.epochsPerFrame);
      var onlyRewardPotentialEpoch :- BigNumberDiv(deficit, rewardsPerEpoch);
      Success(Some(FrameOfEpoch(s.calendar, CurrentEpoch(s.calendar, now) + onlyRewardPotentialEpoch) + 1))
  }

  /** What the queue is drained by in one VEBO frame: exits, capped by churn and by governance, and rewards. */
  function EthPerVEBOFrame(s: Storage, rewardsAvailable: int): int
    requires ValidStorage(s)
  {
    var rewardsPerEpoch := BigNumberDiv(rewardsAvailable, s.calendar.epochsPerFrame).value;
    var exitChurnEth := MIN_ACTIVATION_BALANCE * s.churnLimit * s.epochsPerFrameVEBO;
    var maxExitEth := s.maxBalanceExitRequestedPerReportInEth * ETHER;
    var effectiveExitEth := if exitChurnEth < maxExitEth then exitChurnEth else maxExitEth;
    effectiveExitEth + rewardsPerEpoch * s.epochsPerFrameVEBO
  }

  function FrameExitValidatorsWithVEBO(s: Storage, deficit: int, latestEpoch: int, rewardsAvailable: int): Option<int>
    requires ValidStorage(s)
  {
    var total := EthPerVEBOFrame(s, rewardsAvailable);
    if total == 0 then None else
      var veboFrames := BigNumberDiv(deficit, total).value + 1;
      var potentialExitEpoch := latestEpoch + veboFrames * s.epochsPerFrameVEBO + s.sweepMeanEpochs;
      Some(FrameOfEpoch(s.calendar, potentialExitEpoch) + 1)
  }

  /** The reduce that keeps the earlier frame, and the later entry of equal frames. */
  function Reduce(cases: seq<FrameEstimate>): FrameEstimate
    requires cases != []
  {
    if |cases| == 1 then cases[0] else
      var prev, curr := Reduce(cases[..|cases| - 1]), cases[|cases| - 1];
      if prev.frame < curr.frame then prev else curr
  }

  // ---- the specification of calculateWithdrawalFrame

  predicate Covered(q: Query) {
    q.buffer > q.unfinalized || q.buffer + q.vaultsBalance > q.unfinalized
  }

  function Deficit(q: Query): int {
    q.unfinalized - (q.buffer + q.vaultsBalance)
  }

  function CoveredEstimate(s: Storage, now: int, q: Query): FrameEstimate
    requires ValidStorage(s)
  {
    var frame := GapAdjustedFrame(s, now);
    if TimeToWithdrawalFrame(s.calendar, frame + 1, q.requestTimestamp) < s.requestTimestampMargin then
      FrameEstimate(frame + 2, RequestTimestampMargin)
    else
      FrameEstimate(frame + 1, if q.buffer > q.unfinalized then Buffer else VaultsBalance)
  }

  function Case(frame: Option<int>, kind: CalculationType): seq<FrameEstimate> {
    if frame.None? then [] else [FrameEstimate(frame.value, kind)]
  }

  ghost function BalancesCase(s: Storage, now: int, q: Query): Option<int>
    requires ValidStorage(s)
  {
    Truthy(CoveringFrame(s.frameBalances, Deficit(q), GapAdjustedFrame(s, now), RewardsAvailableForWithdrawals(s)))
  }

  function RewardsCase(s: Storage, now: int, q: Query): Result<Option<int>>
    requires ValidStorage(s)
  {
    var frame :- FrameByRewardsOnly(s, now, Deficit(q), RewardsAvailableForWithdrawals(s));
    Success(Truthy(frame))
  }

  function ExitCase(s: Storage, q: Query): Option<int>
    requires ValidStorage(s)
  {
    FrameExitValidatorsWithVEBO(s, Deficit(q), q.latestEpoch, RewardsAvailableForWithdrawals(s))
  }

  /** The minimum over the projections that apply, in the order in which they are compared. */
  function SoonestCase(balances: Option<int>, rewards: Option<int>, exits: Option<int>): Result<FrameEstimate> {
    var cases := Case(balances, ValidatorBalances) + Case(rewards, RewardsOnly) + Case(exits, ExitValidators);
    if cases == [] then Failure(EmptyReduce) else Success(Reduce(cases))
  }

  /** The frame that calculateWithdrawalFrame answers with. */
  ghost function WithdrawalFrame(s: Storage, now: int, q: Query): Result<FrameEstimate>
    requires ValidStorage(s)
  {
    var bunker := Truthy(FrameIsBunker(s, now));
    if bunker.Some? then Success(FrameEstimate(bunker.value, Bunker))
    else if Covered(q) then Success(CoveredEstimate(s, now, q))
    else
      var rewards :- RewardsCase(s, now, q);
      SoonestCase(BalancesCase(s, now, q), rewards, ExitCase(s, q))
  }

  method CalculateWithdrawalFrame(s: Storage, now: int, q: Query) returns (result: Result<FrameEstimate>)
    requires ValidStorage(s)
    ensures result == WithdrawalFrame(s, now, q)
  {
    var fullBuffer := q.buffer + q.vaultsBalance;
    var currentFrame := FrameOfEpoch(s.calendar, CurrentEpoch(s.calendar, now));

    var frameIsBunker := Truthy(FrameIsBunker(s, now));
    if frameIsBunker.Some? {
      return Success(FrameEstimate(frameIsBunker.value, Bunker));
    }

    // gap after finalization check
    var frameGapBeforeFinalization := FrameByTimestamp(s.calendar, now - GAP_AFTER_REPORT);
    if frameGapBeforeFinalization != currentFrame {
      currentFrame := currentFrame - 1;
    }

    var isRequestShouldBePostponed :=
      TimeToWithdrawalFrame(s.calendar, currentFrame + 1, q.requestTimestamp) < s.requestTimestampMargin;

    // enough buffer ether
    if q.buffer > q.unfinalized {
      if isRequestShouldBePostponed {
        return Success(FrameEstimate(currentFrame + 2, RequestTimestampMargin));
      } else {
        return Success(FrameEstimate(currentFrame + 1, Buffer));
      }
    }

    // enough buffer and vaults balance
    if fullBuffer > q.unfinalized {
      if isRequestShouldBePostponed {
        return Success(FrameEstimate(currentFrame + 2, RequestTimestampMargin));
      } else {
        return Success(FrameEstimate(currentFrame + 1, VaultsBalance));
      }
    }

    var frameByOnlyRewards: Option<FrameEstimate> := None;
    var frameValidatorsBalances: Option<FrameEstimate> := None;
    var frameByExitValidatorsWithVEBO: Option<FrameEstimate> := None;

    var rewardsAvailableForWithdrawals := RewardsAvailableForWithdrawals(s);

    // only rewards
    var onlyRewards := FrameByRewardsOnly(s, now, q.unfinalized - fullBuffer, rewardsAvailableForWithdrawals);
    if onlyRewards.Failure? {
      return Failure(onlyRewards.error);
    }
    var frameByOnlyRewardsValue := Truthy(onlyRewards.value);
    if frameByOnlyRewardsValue.Some? {
      frameByOnlyRewards := Some(FrameEstimate(frameByOnlyRewardsValue.value, RewardsOnly));
    }

    // validators that are already withdrawing, and rewards
    var valueFrameValidatorsBalance := CalculateFrameByValidatorBalances(
      q.unfinalized - fullBuffer, rewardsAvailableForWithdrawals, currentFrame, s.frameBalances);
    valueFrameValidatorsBalance := Truthy(valueFrameValidatorsBalance);
    if valueFrameValidatorsBalance.Some? {
      frameValidatorsBalances := Some(FrameEstimate(valueFrameValidatorsBalance.value, ValidatorBalances));
    }

    // new exits, and rewards
    var valueFrameExitValidators := FrameExitValidatorsWithVEBO(
      s, q.unfinalized - fullBuffer, q.latestEpoch, rewardsAvailableForWithdrawals);
    if valueFrameExitValidators.Some? {
      frameByExitValidatorsWithVEBO := Some(FrameEstimate(valueFrameExitValidators.value, ExitValidators));
    }

    var frames := NotNull(frameValidatorsBalances) + NotNull(frameByOnlyRewards)
                  + NotNull(frameByExitValidatorsWithVEBO);
    assert frames == Case(BalancesCase(s, now, q), ValidatorBalances) + Case(frameByOnlyRewardsValue, RewardsOnly)
                     + Case(ExitCase(s, q), ExitValidators);
    if frames == [] {
      return Failure(EmptyReduce);
    }
    return Success(Reduce(frames));
  }

  function NotNull<T>(o: Option<T>): seq<T> {
    if o.None? then [] else [o.value]
  }
}
