// What a user may rely on: covered requests get the first timely report, nothing is answered in the past,
// the queue is served in order, and the by-id checks cover every id.

module EstimateGuarantees {
  import opened Results
  import opened FloorArithmetic
  import opened GenesisTime
  import opened BalanceMaps
  import opened FrameByValidatorBalances
  import opened WaitingTime
  import opened FrameProjections
  import opened QueueRequests
  import opened RequestTime

  // ---- covered requests

  lemma CurrentFrameIsFrameOfNow(s: Storage, now: int)
    requires ValidStorage(s)
    ensures CurrentFrame(s, now) == FrameByTimestamp(s.calendar, now)
    ensures ReportAt(s.calendar, CurrentFrame(s, now)) <= now < ReportAt(s.calendar, CurrentFrame(s, now) + 1)
  {
    FrameOfTimestampEpoch(s.calendar, now);
    FrameByTimestampUnique(s.calendar, now, CurrentFrame(s, now));
  }

  /** The gap-adjusted frame is the frame of 30 minutes ago when a frame is at least that long. */
  lemma GapAdjustedFrameIsLagged(s: Storage, now: int)
    requires ValidStorage(s) && s.calendar.epochsPerFrame >= 5
    ensures GapAdjustedFrame(s, now) == FrameByTimestamp(s.calendar, now - GAP_AFTER_REPORT)
  {
    var c, f := s.calendar, CurrentFrame(s, now);
    CurrentFrameIsFrameOfNow(s, now);
    ReportStep(c, f, -1);
    FrameByTimestampGalois(c, now - GAP_AFTER_REPORT, f - 1);
    FrameByTimestampGalois(c, now - GAP_AFTER_REPORT, f + 1);
  }

  /** The single decrement is right at every moment exactly for frames of five epochs or more. */
  lemma GapAdjustmentRightIffFiveEpochs(s: Storage)
    requires ValidStorage(s)
    ensures (forall now :: GapAdjustedFrame(s, now) == FrameByTimestamp(s.calendar, now - GAP_AFTER_REPORT))
            <==> s.calendar.epochsPerFrame >= 5
  {
    var c := s.calendar;
    if c.epochsPerFrame >= 5 {
      forall now
        ensures GapAdjustedFrame(s, now) == FrameByTimestamp(c, now - GAP_AFTER_REPORT)
      {
        GapAdjustedFrameIsLagged(s, now);
      }
    } else {
      var now := ReportAt(c, 0);
      CurrentFrameIsFrameOfNow(s, now);
      ReportStep(c, 0, 1);
      FrameByTimestampUnique(c, now, 0);
      ReportStep(c, 0, -1);
      FrameByTimestampGalois(c, now - GAP_AFTER_REPORT, -1);
      assert GapAdjustedFrame(s, now) != FrameByTimestamp(c, now - GAP_AFTER_REPORT);
    }
  }

  /** A report is timely for a request when at least the request timestamp margin lies between them. */
  predicate Timely(s: Storage, requestTimestamp: int, frame: int) {
    TimeToWithdrawalFrame(s.calendar, frame, requestTimestamp) >= s.requestTimestampMargin
  }

  /** For whole-second timestamps, timely means the exact distance. */
  lemma TimelyIsExact(s: Storage, requestTimestamp: int, frame: int)
    requires requestTimestamp % 1000 == 0
    ensures Timely(s, requestTimestamp, frame)
            <==> ReportAt(s.calendar, frame) - requestTimestamp >= s.requestTimestampMargin
  {
    TimeToBounds(s.calendar, frame, requestTimestamp);
  }

  /** A covered request gets the least timely frame after the frame of 30 minutes ago. */
  lemma CoveredGetsFirstTimelyReport(s: Storage, now: int, q: Query)
    requires ValidStorage(s) && s.calendar.epochsPerFrame >= 5
    requires FrameMs(s.calendar) >= s.requestTimestampMargin + GAP_AFTER_REPORT
    requires q.requestTimestamp <= now
    requires Truthy(FrameIsBunker(s, now)).None? && Covered(q)
    ensures WithdrawalFrame(s, now, q).Success?
    ensures var c := FrameByTimestamp(s.calendar, now - GAP_AFTER_REPORT);
      forall f :: f > c ==>
        (Timely(s, q.requestTimestamp, f) <==> f >= WithdrawalFrame(s, now, q).value.frame)
    ensures WithdrawalFrame(s, now, q).value.kind
         == if !Timely(s, q.requestTimestamp, FrameByTimestamp(s.calendar, now - GAP_AFTER_REPORT) + 1)
            then RequestTimestampMargin
            else if q.buffer > q.unfinalized then Buffer else VaultsBalance
  {
    var c, ts := FrameByTimestamp(s.calendar, now - GAP_AFTER_REPORT), q.requestTimestamp;
    GapAdjustedFrameIsLagged(s, now);
    SecondReportIsTimely(s, now, ts);
    forall f | f > c
      ensures Timely(s, ts, f) <==> f >= WithdrawalFrame(s, now, q).value.frame
    {
      TimeToMonotone(s.calendar, c + 1, f, ts);
      if f >= c + 2 {
        TimeToMonotone(s.calendar, c + 2, f, ts);
      }
    }
  }

  lemma SecondReportIsTimely(s: Storage, now: int, requestTimestamp: int)
    requires ValidStorage(s) && requestTimestamp <= now
    requires FrameMs(s.calendar) >= s.requestTimestampMargin + GAP_AFTER_REPORT
    ensures Timely(s, requestTimestamp, FrameByTimestamp(s.calendar, now - GAP_AFTER_REPORT) + 2)
  {
    var c := FrameByTimestamp(s.calendar, now - GAP_AFTER_REPORT);
    FrameByTimestampGalois(s.calendar, now - GAP_AFTER_REPORT, c + 1);
    ReportStep(s.calendar, c + 1, 1);
    TimeToAtLeast(s.calendar, c + 2, requestTimestamp, FrameMs(s.calendar) - GAP_AFTER_REPORT);
  }

  // ---- new requests

  /** Every projection except validatorBalances lands after the current frame. */
  lemma ProjectionsAreAhead(s: Storage, now: int, q: Query)
    requires ValidStorage(s) && q.latestEpoch >= CurrentEpoch(s.calendar, now)
    ensures var r := WithdrawalFrame(s, now, q);
      r.Success? && r.value.kind in {Bunker, RequestTimestampMargin, RewardsOnly, ExitValidators}
      ==> r.value.frame > CurrentFrame(s, now)
  {
    if Projected(s, now, q) && WithdrawalFrame(s, now, q).Success? {
      AvailableRewards(s);
      var c, epoch, d, a := s.calendar, CurrentEpoch(s.calendar, now), Deficit(q), RewardsAvailableForWithdrawals(s);
      UncoveredIsLeastCase(s, now, q);
      RewardsOnlyIsLeastFrame(s, now, d, a);
      if a >= c.epochsPerFrame {
        DivGalois(a, c.epochsPerFrame, 1);
        DivGalois(d, a / c.epochsPerFrame, 0);
        FrameOfEpochMonotone(c, epoch, epoch + d / (a / c.epochsPerFrame));
      }
      EthPerVEBOFrameSign(s, a);
      var drain := EthPerVEBOFrame(s, a);
      if drain > 0 {
        DivGalois(d, drain, 0);
        ProductSign(d / drain + 1, s.epochsPerFrameVEBO);
        FrameOfEpochMonotone(c, epoch, q.latestEpoch + (d / drain + 1) * s.epochsPerFrameVEBO + s.sweepMeanEpochs);
      }
    }
  }

  /**
   * The balances charged to some report of the past, at its key and below, cover the deficit of a projected load,
   * and the estimator neither divides by zero nor takes the least such key for no frame.
   */
  ghost predicate PastBalancesCover(s: Storage, now: int, q: Query)
    requires ValidStorage(s)
  {
    && Projected(s, now, q) && !DividesByZero(s, now, q)
    && UntestedBalances(s, now, q) != Some(0)
    && exists f :: && f in CoveringFrames(s.frameBalances, Deficit(q), GapAdjustedFrame(s, now),
                                          RewardsAvailableForWithdrawals(s))
                   && now > ReportAt(s.calendar, f) + 500
  }

  lemma PastBalancesForm(s: Storage, now: int, q: Query)
    requires ValidStorage(s)
    ensures PastBalancesCover(s, now, q)
            <==> && Projected(s, now, q) && !DividesByZero(s, now, q)
                 && BalancesCase(s, now, q).Some?
                 && now > ReportAt(s.calendar, BalancesCase(s, now, q).value) + 500
  {
    if PastBalancesCover(s, now, q) {
      var f :| && f in CoveringFrames(s.frameBalances, Deficit(q), GapAdjustedFrame(s, now),
                                      RewardsAvailableForWithdrawals(s))
               && now > ReportAt(s.calendar, f) + 500;
      ReportMonotone(s.calendar, f, BalancesCase(s, now, q).value);
    }
  }

  /** An uncovered load is answered with a past report exactly when balances charged to a past report cover it. */
  lemma PastProjection(s: Storage, now: int, q: Query)
    requires ValidStorage(s) && Projected(s, now, q) && q.latestEpoch >= CurrentEpoch(s.calendar, now)
    ensures && WithdrawalFrame(s, now, q).Success?
            && TimeToWithdrawalFrame(s.calendar, WithdrawalFrame(s, now, q).value.frame, now) < 0
            <==> PastBalancesCover(s, now, q)
  {
    PastBalancesForm(s, now, q);
    ThrowsExactlyWhen(s, now, q);
    if WithdrawalFrame(s, now, q).Success? {
      var e := WithdrawalFrame(s, now, q).value;
      UncoveredIsLeastCase(s, now, q);
      AheadIsNotPast(s, now, e.frame);
      ProjectionsAreAhead(s, now, q);
      TimeToBounds(s.calendar, e.frame, now);
      if BalancesCase(s, now, q).Some? {
        ReportMonotone(s.calendar, BalancesCase(s, now, q).value, e.frame);
      }
    }
  }

  lemma AheadIsNotPast(s: Storage, now: int, frame: int)
    requires ValidStorage(s)
    ensures frame > CurrentFrame(s, now) ==> TimeToWithdrawalFrame(s.calendar, frame, now) >= 0
  {
    CurrentFrameIsFrameOfNow(s, now);
    TimeToBounds(s.calendar, frame, now);
    ReportMonotone(s.calendar, frame, CurrentFrame(s, now) + 1);
  }

  /**
   * A new request falls back to five days exactly when it is neither in bunker mode nor covered, and balances that
   * are charged to a report of more than half a second ago cover its deficit.
   */
  lemma NewRequestFallsBackExactlyWhen(s: Storage, now: int, b: BlockBalances, amount: int)
    requires ValidStorage(s) && s.requestTimestampMargin >= 0
    ensures var q := NewRequestQuery(s, now, b, amount);
      && WithdrawalFrame(s, now, q).Success?
      && TimeToWithdrawalFrame(s.calendar, WithdrawalFrame(s, now, q).value.frame, now) < 0
      <==> PastBalancesCover(s, now, q)
  {
    var q := NewRequestQuery(s, now, b, amount);
    if Projected(s, now, q) {
      PastProjection(s, now, q);
    } else {
      AheadIsNotPast(s, now, WithdrawalFrame(s, now, q).value.frame);
      ProjectionsAreAhead(s, now, q);
    }
  }

  /** In bunker mode the report is 13 to 14 frames ahead, whatever the load. */
  lemma BunkerWaitsFourteenFrames(s: Storage, now: int, q: Query)
    requires ValidStorage(s) && Truthy(FrameIsBunker(s, now)).Some?
    ensures var r := WithdrawalFrame(s, now, q);
      && r.Success? && r.value.kind == Bunker
      && 13 * FrameMs(s.calendar) < ReportAt(s.calendar, r.value.frame) - now <= 14 * FrameMs(s.calendar)
  {
    CurrentFrameIsFrameOfNow(s, now);
    ReportStep(s.calendar, CurrentFrame(s, now), 14);
    ReportStep(s.calendar, CurrentFrame(s, now), 1);
  }

  // ---- the estimate when a request is placed, and afterwards

  /** The exit epoch of the past is today's, moved back by the age of the request in epochs. */
  lemma ExitQueueMovesBack(s: Storage, now: int, requestTimestamp: int)
    ensures MaxExitEpochInPast(s, now, requestTimestamp)
         == MaxExitEpoch(s, now) - (CurrentEpoch(s.calendar, now) - EpochByTimestamp(s.calendar, requestTimestamp))
    ensures MaxExitEpoch(s, now) > CurrentEpoch(s.calendar, now) + MAX_SEED_LOOKAHEAD
  {
  }

  /**
   * Placing a request keeps its estimate: at the moment it is placed behind the queue, its pre-calculated frame by
   * id is the frame that was answered for its amount before.
   */
  lemma PlacingKeepsTheEstimate(s: Storage, now: int, queue: seq<Request>, request: Request, b: BlockBalances)
    requires ValidStorage(s)
    requires DistinctIds(queue + [request])
    requires request.timestamp * 1000 == now && b.unfinalized == Amount(queue)
    ensures PrecalculatedFrame(s, now, queue + [request], request, b)
         == WithdrawalFrame(s, now, NewRequestQuery(s, now, b, request.amountOfStETH))
  {
    var placed := queue + [request];
    assert placed[..|placed| - 1] == queue && placed[..|placed|] == placed;
    LoadUpToPosition(placed, |queue|);
    ExitQueueMovesBack(s, now, now);
    CurrentEpochForm(s.calendar, now);
    assert QueuedRequestQuery(s, now, placed, request, b) == NewRequestQuery(s, now, b, request.amountOfStETH);
  }

  // ---- requests by id are never answered in the past

  /** The recalculation is used, and its answer is in the past as well. */
  predicate TwiceInPast(c: Calendar, now: int, from: int, estimate: FrameEstimate, again: Result<FrameEstimate>) {
    && InPast(FinalizationIn(c, estimate.frame, from), from, now)
    && again.Success?
    && InPast(FinalizationIn(c, again.value.frame, from), from, now)
  }

  /** Not in the past, and in the last case at an instant, from a start point. */
  predicate IsAhead(r: Result<Repaired>, now: int, from: int, last: bool, instant: int) {
    r.Success? ==>
      && !InPast(r.value.finalizationIn, from, now)
      && (last ==> from + r.value.finalizationIn == instant > now + 1_800_000)
  }

  lemma RepairIsAhead(s: Storage, now: int, from: int, e: FrameEstimate, again: Result<FrameEstimate>)
    requires ValidStorage(s) && from % 1000 == 0
    ensures IsAhead(Repair(s.calendar, now, from, CurrentFrame(s, now) + 1, e, again), now, from,
                    TwiceInPast(s.calendar, now, from, e, again),
                    ReportAt(s.calendar, CurrentFrame(s, now) + 1) + 1_800_000)
  {
    NextReportIsAhead(s, now, from);
  }

  /** Whatever the estimates are, a checked answer is not in the past; the last fallback is the next report. */
  lemma CheckedNeverInPast(s: Storage, now: int, requests: seq<Request>, request: Request, b: BlockBalances,
                           estimate: FrameEstimate)
    requires ValidStorage(s)
    ensures var from := request.timestamp * 1000;
      var again := WithdrawalFrame(s, now, RecalculationQuery(s, now, requests, request, b));
      IsAhead(CheckedEstimate(s, now, requests, request, b, estimate), now, from,
              TwiceInPast(s.calendar, now, from, estimate, again),
              ReportAt(s.calendar, CurrentFrame(s, now) + 1) + 1_800_000)
  {
    RepairIsAhead(s, now, request.timestamp * 1000, estimate,
                  WithdrawalFrame(s, now, RecalculationQuery(s, now, requests, request, b)));
  }

  lemma ByIdNeverInPast(s: Storage, u: Updates, queue: QueueInfo, now: int, requestId: int, b: BlockBalances)
    requires ValidStorage(s)
    requires WaitingTimeInfoById(s, u, queue, now, requestId, b).Success?
    requires WaitingTimeInfoById(s, u, queue, now, requestId, b).value.status == Calculated
    ensures var info := WaitingTimeInfoById(s, u, queue, now, requestId, b).value.requestInfo;
      info.Some? && info.value.finalizationIn >= 0 && info.value.finalizationAt == now + info.value.finalizationIn
  {
    var request := queue.requests[Find(queue.requests, requestId).value];
    var estimate := PrecalculatedFrame(s, now, queue.requests, request, b).value;
    CheckedNeverInPast(s, now, queue.requests, request, b, estimate);
  }

  // ---- the queue is served in order

  predicate DistinctIds(requests: seq<Request>) {
    forall i, j :: 0 <= i < j < |requests| ==> requests[i].id != requests[j].id
  }

  predicate InOrderOfTime(requests: seq<Request>) {
    forall i, j :: 0 <= i < j < |requests| ==> requests[i].timestamp <= requests[j].timestamp
  }

  /** Of two covered requests, the one that was placed earlier is never answered later. */
  lemma CoveredInOrder(s: Storage, now: int, q: Query, q': Query)
    requires ValidStorage(s) && Covered(q) && Covered(q') && q.requestTimestamp <= q'.requestTimestamp
    ensures NoLater(WithdrawalFrame(s, now, q), WithdrawalFrame(s, now, q'))
  {
    TimeToAntitone(s.calendar, GapAdjustedFrame(s, now) + 1, q.requestTimestamp, q'.requestTimestamp);
  }

  /** Balances, rewards or exits finalize the load before a frame, and balances or rewards not in frame 0. */
  ghost predicate PaidBefore(s: Storage, now: int, q: Query, frame: int)
    requires ValidStorage(s)
  {
    var available, balances := RewardsAvailableForWithdrawals(s), UntestedBalances(s, now, q);
    || (balances.Some? && balances.value < frame && balances != Some(0))
    || (&& available >= s.calendar.epochsPerFrame
        && RewardsPay(s, now, Deficit(q), available / s.calendar.epochsPerFrame, frame - 1)
        && UntestedRewards(s, now, q) != Success(Some(0)))
    || exists count :: && IsDrainCount(EthPerVEBOFrame(s, available), Deficit(q), count)
                       && ExitsSwept(s, q.latestEpoch, count, frame - 1)
  }

  /** The uncovered load `q'` is finalized before the first report that the covered request `q` is offered. */
  ghost predicate Overtaken(s: Storage, now: int, q: Query, q': Query)
    requires ValidStorage(s)
  {
    && Covered(q) && Projected(s, now, q') && !DividesByZero(s, now, q')
    && PaidBefore(s, now, q', CoveredEstimate(s, now, q).frame)
  }

  lemma PaidBeforeIsEarlierAnswer(s: Storage, now: int, q: Query, frame: int)
    requires ValidStorage(s) && Projected(s, now, q) && !DividesByZero(s, now, q)
    ensures PaidBefore(s, now, q, frame)
            <==> WithdrawalFrame(s, now, q).Success? && WithdrawalFrame(s, now, q).value.frame < frame
  {
    AvailableRewards(s);
    var d, a := Deficit(q), RewardsAvailableForWithdrawals(s);
    RewardsOnlyIsLeastFrame(s, now, d, a);
    UncoveredIsLeastCase(s, now, q);
    ExitsPaidBefore(s, q, frame);
  }

  lemma ExitsPaidBefore(s: Storage, q: Query, frame: int)
    requires ValidStorage(s) && Deficit(q) >= 0
    ensures (exists count :: && IsDrainCount(EthPerVEBOFrame(s, RewardsAvailableForWithdrawals(s)), Deficit(q), count)
                             && ExitsSwept(s, q.latestEpoch, count, frame - 1))
            <==> ExitCase(s, q).Some? && ExitCase(s, q).value < frame
  {
    AvailableRewards(s);
    var drain := EthPerVEBOFrame(s, RewardsAvailableForWithdrawals(s));
    EthPerVEBOFrameSign(s, RewardsAvailableForWithdrawals(s));
    DrainCountIsUnique(drain, Deficit(q));
    if drain > 0 {
      var count := Deficit(q) / drain + 1;
      var epoch := q.latestEpoch + count * s.epochsPerFrameVEBO + s.sweepMeanEpochs;
      FrameOfEpochGalois(s.calendar, epoch, frame - 1);
      assert ExitCase(s, q) == Some(FrameOfEpoch(s.calendar, epoch) + 1);
      assert IsDrainCount(drain, Deficit(q), count);
      assert ExitsSwept(s, q.latestEpoch, count, frame - 1) <==> ExitCase(s, q).value < frame;
    }
  }

  lemma DrainCountIsUnique(drain: int, deficit: int)
    requires drain >= 0 && deficit >= 0
    ensures forall count :: IsDrainCount(drain, deficit, count) <==> drain > 0 && count == deficit / drain + 1
  {
    if drain > 0 {
      DrainCountForm(drain, deficit);
    }
    forall count | IsDrainCount(drain, deficit, count)
      ensures drain > 0 && count == deficit / drain + 1
    {
      assert Drains(drain, deficit, count);
      if drain > 0 {
        assert Drains(drain, deficit, deficit / drain + 1);
      }
    }
  }

  /** A covered request is answered later than an uncovered one exactly when it is overtaken. */
  lemma CoveredBeforeUncovered(s: Storage, now: int, q: Query, q': Query)
    requires ValidStorage(s) && Covered(q) && !Covered(q')
    ensures NoLater(WithdrawalFrame(s, now, q), WithdrawalFrame(s, now, q')) <==> !Overtaken(s, now, q, q')
  {
    if Projected(s, now, q') {
      ThrowsExactlyWhen(s, now, q');
      if !DividesByZero(s, now, q') {
        PaidBeforeIsEarlierAnswer(s, now, q', CoveredEstimate(s, now, q).frame);
      }
    }
  }

  /**
   * First in, first out: of two requests of the queue the earlier is pre-calculated no later, exactly unless it is
   * covered by buffer and vaults, waits for a timely report, and is overtaken by an uncovered later one. The only
   * condition is that the truthiness tests do not lose frame 0 for the earlier request.
   */
  lemma FirstInFirstOut(s: Storage, now: int, requests: seq<Request>, b: BlockBalances, i: nat, j: nat)
    requires ValidStorage(s)
    requires i <= j < |requests| && DistinctIds(requests) && InOrderOfTime(requests)
    requires forall r :: r in requests ==> r.amountOfStETH >= 0
    requires !LosesFrameZero(s, now, QueuedRequestQuery(s, now, requests, requests[i], b))
    ensures NoLater(PrecalculatedFrame(s, now, requests, requests[i], b),
                    PrecalculatedFrame(s, now, requests, requests[j], b))
            <==> !Overtaken(s, now, QueuedRequestQuery(s, now, requests, requests[i], b),
                            QueuedRequestQuery(s, now, requests, requests[j], b))
  {
    var q := QueuedRequestQuery(s, now, requests, requests[i], b);
    var q' := QueuedRequestQuery(s, now, requests, requests[j], b);
    LaterRequestIsHarder(s, now, requests, b, i, j);
    if Covered(q') {
      CoveredInOrder(s, now, q, q');
    } else if Covered(q) {
      CoveredBeforeUncovered(s, now, q, q');
    } else {
      ThrowsExactlyWhen(s, now, q');
      if !DividesByZero(s, now, q) {
        NeverEarlier(s, s, now, q, q');
      }
    }
  }

  /** The query of a later request differs by a larger load, a later timestamp and a later exit epoch. */
  lemma LaterRequestIsHarder(s: Storage, now: int, requests: seq<Request>, b: BlockBalances, i: nat, j: nat)
    requires i <= j < |requests| && DistinctIds(requests) && InOrderOfTime(requests)
    requires forall r :: r in requests ==> r.amountOfStETH >= 0
    ensures var q := QueuedRequestQuery(s, now, requests, requests[i], b);
      var q' := QueuedRequestQuery(s, now, requests, requests[j], b);
      && q.unfinalized <= q'.unfinalized && q.requestTimestamp <= q'.requestTimestamp && q.latestEpoch <= q'.latestEpoch
      && q.buffer == q'.buffer && q.vaultsBalance == q'.vaultsBalance
  {
    LoadUpToPosition(requests, i);
    LoadUpToPosition(requests, j);
    PrefixMonotone(requests, i + 1, j + 1);
    assert requests[i].timestamp <= requests[j].timestamp;
    EpochMonotone(s.calendar, requests[i].timestamp * 1000, requests[j].timestamp * 1000);
  }

  // ---- the by-id checks

  predicate IsFinalizedAnswer(r: Result<Answer>) {
    r == Success(Answer(Finalized, None))
  }

  /** The id is answered as a position of the queue; the answer may still throw in the estimator. */
  predicate IsQueuedAnswer(r: Result<Answer>, requestId: int) {
    match r
    case Failure(error) => error != UndefinedRequest
    case Success(a) =>
      a.status == Calculated && a.requestInfo.Some? && a.requestInfo.value.requestId == Some(requestId)
  }

  /** The id is answered like a new request behind the queue. */
  predicate IsCalculatingAnswer(r: Result<Answer>, requestId: int) {
    match r
    case Failure(error) => error != UndefinedRequest
    case Success(a) =>
      a.status == Calculating && a.requestInfo.Some? && a.requestInfo.value.requestId == Some(requestId)
  }

  /** The first id that is not answered as finalized: the first queued id, or the last id of an empty queue. */
  function FirstOpenId(queue: QueueInfo): int {
    if queue.requests == [] then queue.lastRequestId else queue.requests[0].id
  }

  lemma EstimateNeverUndefined(s: Storage, now: int, requests: seq<Request>, request: Request, b: BlockBalances)
    requires ValidStorage(s)
    ensures PrecalculatedFrame(s, now, requests, request, b) != Failure(UndefinedRequest)
    ensures forall e :: CheckedEstimate(s, now, requests, request, b, e) != Failure(UndefinedRequest)
  {
    ThrowsExactlyWhen(s, now, QueuedRequestQuery(s, now, requests, request, b));
    ThrowsExactlyWhen(s, now, RecalculationQuery(s, now, requests, request, b));
  }

  /**
   * In a published state the checks split the ids in three: finalized below the first open id, queued exactly for
   * the ids of the queue, and calculating for all others. The request is never undefined.
   */
  lemma ByIdChecksAreTotal(s: Storage, u: Updates, queue: QueueInfo, now: int, requestId: int, b: BlockBalances)
    requires ValidStorage(s) && !IsInitializing(s, u, queue)
    requires Published(queue.requests, queue.lastRequestId)
    ensures var r := WaitingTimeInfoById(s, u, queue, now, requestId, b);
      var queued := exists i :: 0 <= i < |queue.requests| && queue.requests[i].id == requestId;
      if requestId < FirstOpenId(queue) then IsFinalizedAnswer(r) && !queued
      else if queued then IsQueuedAnswer(r, requestId)
      else IsCalculatingAnswer(r, requestId)
  {
    var requests, last := queue.requests, queue.lastRequestId;
    if requests != [] && requests[0].id <= requestId <= last {
      assert requests[requestId - (last - |requests| + 1)].id == requestId;
    }
    if Find(requests, requestId).Some? {
      EstimateNeverUndefined(s, now, requests, requests[Find(requests, requestId).value], b);
    } else {
      ThrowsExactlyWhen(s, now, NewRequestQuery(s, now, b, 0));
    }
  }
}
