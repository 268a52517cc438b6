// Three states of an initialized service that show what the estimator's shortcuts cost: a lost frame 0, the
// five-day fallback, and a request that overtakes an earlier one.

module EstimateStates {
  import opened Results
  import opened FloorArithmetic
  import opened GenesisTime
  import opened BalanceMaps
  import opened FrameByValidatorBalances
  import opened WaitingTime
  import opened FrameProjections
  import opened QueueRequests
  import opened RequestTime
  import opened EstimateGuarantees

  const UPDATED := Updates(1, 1)
  const EMPTY_QUEUE := QueueInfo([], 1, 1)
  const NO_BALANCES := BlockBalances(0, 0, 0)

  /** One day is one frame. */
  function OneDayFrames(initialEpoch: int, rewardsPerFrame: int, frameBalances: FrameBalances): Storage {
    Storage(Calendar(0, initialEpoch, 225), 45, 7_200_000, 19_200, 0, rewardsPerFrame, 8, 1041, 10_000,
            frameBalances, false)
  }

  /** The exit queue reaches epoch 10000, so that small loads are paid by exits in frame 49 or 50. */
  lemma ExitsInFrame(initialEpoch: int, rewardsPerFrame: int, m: FrameBalances, q: Query)
    requires initialEpoch in {0, 225} && rewardsPerFrame in {0, 2_250_000}
    requires 0 <= Deficit(q) <= ETHER && q.latestEpoch == 10_000
    ensures ExitCase(OneDayFrames(initialEpoch, rewardsPerFrame, m), q) == Some(if initialEpoch == 0 then 50 else 49)
  {
    var s := OneDayFrames(initialEpoch, rewardsPerFrame, m);
    FrameOfEpochForm(s.calendar, 11_086);
  }

  // ---- frame 0 counts as no case

  /** Balances are charged to the reports of frames 0 and 5; the first report is an hour ahead. */
  const FIRST_REPORT_AHEAD := OneDayFrames(225, 0, map[0 := 10, 5 := 10])
  const HOUR_BEFORE_FIRST_REPORT := 82_800_000

  lemma FirstBalances()
    ensures Sum(UpTo(FIRST_REPORT_AHEAD.frameBalances, 0)) == 10
    ensures Sum(UpTo(FIRST_REPORT_AHEAD.frameBalances, 5)) == 20
  {
    var m := FIRST_REPORT_AHEAD.frameBalances;
    assert UpTo(m, 0) == map[0 := 10] && UpTo(m, 5) == m;
    SumRemove(UpTo(m, 0), 0);
    SumRemove(m, 5);
    assert UpTo(m, 0) - {0} == map[] && m - {5} == UpTo(m, 0);
  }

  /**
   * A small amount is meant to be paid by the balances of frame 0, but the answer is the exits of frame 49. A larger
   * amount is answered with frame 5, so a larger load gets the earlier answer.
   */
  lemma FrameZeroCountsAsNoCase()
    ensures var s, now := FIRST_REPORT_AHEAD, HOUR_BEFORE_FIRST_REPORT;
      var small, large := NewRequestQuery(s, now, NO_BALANCES, 5), NewRequestQuery(s, now, NO_BALANCES, 15);
      && !IsInitializing(s, UPDATED, EMPTY_QUEUE) && LosesFrameZero(s, now, small)
      && IntendedFrame(s, now, small) == Success(FrameEstimate(0, ValidatorBalances))
      && WithdrawalFrame(s, now, small) == Success(FrameEstimate(49, ExitValidators))
      && WithdrawalFrame(s, now, large) == Success(FrameEstimate(5, ValidatorBalances))
  {
    var s, now := FIRST_REPORT_AHEAD, HOUR_BEFORE_FIRST_REPORT;
    var m, c := s.frameBalances, GapAdjustedFrame(s, now);
    var small, large := NewRequestQuery(s, now, NO_BALANCES, 5), NewRequestQuery(s, now, NO_BALANCES, 15);
    CurrentEpochForm(s.calendar, now);
    FirstBalances();
    ExitsInFrame(225, 0, m, small);
    ExitsInFrame(225, 0, m, large);
    assert CoveringFrames(m, 5, c, 0) == {0, 5};
    assert CoveringFrames(m, 15, c, 0) == {5};
    assert UntestedBalances(s, now, small) == Some(0);
    assert UntestedBalances(s, now, large) == Some(5);
    IntendedExactlyUnlessFrameZero(s, now, small);
    SoonestIsLeast(Some(0), None, Some(49));
    UncoveredIsLeastCase(s, now, small);
    UncoveredIsLeastCase(s, now, large);
  }

  // ---- the fallback

  /** Balances are still charged to the report of frame 3, which is an hour old. */
  const REPORT_PASSED := OneDayFrames(0, 0, map[3 := 10])
  const HOUR_AFTER_REPORT := 262_800_000

  /** A new request that these balances cover is told five days and half an hour. */
  lemma FallsBackToFiveDays()
    ensures var s, now := REPORT_PASSED, HOUR_AFTER_REPORT;
      var finalizationIn := FALLBACK_MS + GAP_AFTER_REPORT;
      && !IsInitializing(s, UPDATED, EMPTY_QUEUE)
      && PastBalancesCover(s, now, NewRequestQuery(s, now, NO_BALANCES, 5))
      && WaitingTimeInfo(s, UPDATED, EMPTY_QUEUE, now, NO_BALANCES, 5)
         == Success(Answer(Calculated,
                           Some(RequestInfo(finalizationIn, now + finalizationIn, ValidatorBalances, None, None))))
  {
    var s, now := REPORT_PASSED, HOUR_AFTER_REPORT;
    var m, c, q := s.frameBalances, GapAdjustedFrame(s, now), NewRequestQuery(s, now, NO_BALANCES, 5);
    CurrentEpochForm(s.calendar, now);
    FrameOfEpochForm(s.calendar, 684);
    FrameByTimestampForm(s.calendar, now - GAP_AFTER_REPORT);
    assert UpTo(m, 3) == m && m - {3} == map[];
    SumRemove(m, 3);
    ExitsInFrame(0, 0, m, q);
    assert CoveringFrames(m, 5, c, 0) == {3};
    assert BalancesCase(s, now, q) == Some(3);
    UncoveredIsLeastCase(s, now, q);
    TimeToForm(s.calendar, 3, now);
  }

  // ---- an overtaken request

  /** The next report is an hour ahead, which is less than the request timestamp margin. */
  const REPORT_AHEAD := OneDayFrames(0, 2_250_000, map[])
  const HOUR_BEFORE_REPORT := 82_800_000
  const TWO_REQUESTS := [
    Request(1, 5, 5, "", 82_800, false, false),
    Request(2, 10, 10, "", 82_800, false, false)]

  lemma TwoQueries(b: BlockBalances)
    requires b.buffer == 10 && b.vaultsBalance == 0
    ensures QueuedRequestQuery(REPORT_AHEAD, HOUR_BEFORE_REPORT, TWO_REQUESTS, TWO_REQUESTS[0], b)
         == Query(5, 10, 0, 82_800_000, 10_000)
    ensures QueuedRequestQuery(REPORT_AHEAD, HOUR_BEFORE_REPORT, TWO_REQUESTS, TWO_REQUESTS[1], b)
         == Query(15, 10, 0, 82_800_000, 10_000)
  {
    CurrentEpochForm(REPORT_AHEAD.calendar, HOUR_BEFORE_REPORT);
    LoadUpToPosition(TWO_REQUESTS, 0);
    LoadUpToPosition(TWO_REQUESTS, 1);
    assert TWO_REQUESTS[..2] == TWO_REQUESTS && TWO_REQUESTS[..2][..1] == TWO_REQUESTS[..1];
  }

  lemma NextFrameIsOne()
    ensures CurrentEpoch(REPORT_AHEAD.calendar, HOUR_BEFORE_REPORT) == 215
    ensures FrameOfEpoch(REPORT_AHEAD.calendar, 215) == 0
    ensures GapAdjustedFrame(REPORT_AHEAD, HOUR_BEFORE_REPORT) == 0
  {
    CurrentEpochForm(REPORT_AHEAD.calendar, HOUR_BEFORE_REPORT);
    FrameOfEpochForm(REPORT_AHEAD.calendar, 215);
    FrameByTimestampForm(REPORT_AHEAD.calendar, HOUR_BEFORE_REPORT - GAP_AFTER_REPORT);
  }

  /**
   * Two requests are placed in the same block. The buffer covers the first, which has to wait for the report after
   * the next; the second is answered with rewards and the next report, because the margin is never tested for it.
   */
  lemma LaterRequestOvertakes()
    ensures var s, now, b := REPORT_AHEAD, HOUR_BEFORE_REPORT, BlockBalances(15, 10, 0);
      && !IsInitializing(s, UPDATED, QueueInfo(TWO_REQUESTS, 2, 1)) && Published(TWO_REQUESTS, 2)
      && PrecalculatedFrame(s, now, TWO_REQUESTS, TWO_REQUESTS[0], b)
         == Success(FrameEstimate(2, RequestTimestampMargin))
      && PrecalculatedFrame(s, now, TWO_REQUESTS, TWO_REQUESTS[1], b) == Success(FrameEstimate(1, RewardsOnly))
  {
    var s, now, q' := REPORT_AHEAD, HOUR_BEFORE_REPORT, Query(15, 10, 0, 82_800_000, 10_000);
    TwoQueries(BlockBalances(15, 10, 0));
    NextFrameIsOne();
    TimeToForm(s.calendar, 1, now);
    ExitsInFrame(0, 2_250_000, map[], q');
    assert CoveringFrames(map[], 5, 0, 2_250_000) == {};
    assert RewardsCase(s, now, q') == Success(Some(1));
    UncoveredIsLeastCase(s, now, q');
  }
}
