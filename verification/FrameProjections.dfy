// What the projections of the frame estimator mean, and how its answer moves with the load.

module FrameProjections {
  import opened Results
  import opened FloorArithmetic
  import opened GenesisTime
  import opened BalanceMaps
  import opened FrameByValidatorBalances
  import opened WaitingTime

  lemma AvailableRewards(s: Storage)
    ensures RewardsAvailableForWithdrawals(s) == Max(0, s.rewardsPerFrame - s.depositsReserveTarget)
  {
  }

  // ---- exactness of the three projections

  /** By this frame's report epoch, rewards alone have paid strictly more than the deficit. */
  ghost predicate RewardsPay(s: Storage, now: int, deficit: int, rewardsPerEpoch: int, frame: int) {
    rewardsPerEpoch * (ReportEpoch(s.calendar, frame) - CurrentEpoch(s.calendar, now)) > deficit
  }

  /** This frame's report comes strictly after the exits of `count` VEBO frames and the mean sweep. */
  ghost predicate ExitsSwept(s: Storage, latestEpoch: int, count: int, frame: int) {
    ReportEpoch(s.calendar, frame) > latestEpoch + count * s.epochsPerFrameVEBO + s.sweepMeanEpochs
  }

  /** rewardsOnly is null without rewards, throws on less than one wei an epoch, and else is exact. */
  lemma RewardsOnlyIsLeastFrame(s: Storage, now: int, deficit: int, available: int)
    requires ValidStorage(s) && deficit >= 0 && available >= 0
    ensures available == 0 <==> FrameByRewardsOnly(s, now, deficit, available) == Success(None)
    ensures 0 < available < s.calendar.epochsPerFrame
            <==> FrameByRewardsOnly(s, now, deficit, available) == Failure(DivisionByZero)
    ensures available >= s.calendar.epochsPerFrame
            <==> exists f :: FrameByRewardsOnly(s, now, deficit, available) == Success(Some(f))
    ensures available >= s.calendar.epochsPerFrame ==>
      forall f :: RewardsPay(s, now, deficit, available / s.calendar.epochsPerFrame, f)
                  <==> f >= FrameByRewardsOnly(s, now, deficit, available).value.value
  {
    var epochs := s.calendar.epochsPerFrame;
    DivGalois(available, epochs, 1);
    if available >= epochs {
      var perEpoch, epoch := available / epochs, CurrentEpoch(s.calendar, now);
      assert FrameByRewardsOnly(s, now, deficit, available)
          == Success(Some(FrameOfEpoch(s.calendar, epoch + deficit / perEpoch) + 1));
      forall f
        ensures RewardsPay(s, now, deficit, perEpoch, f)
                <==> f >= FrameOfEpoch(s.calendar, epoch + deficit / perEpoch) + 1
      {
        DivGalois(deficit, perEpoch, ReportEpoch(s.calendar, f) - epoch);
        FrameOfEpochGalois(s.calendar, epoch + deficit / perEpoch, f);
      }
    } else if available > 0 {
      DivUnique(available, epochs, 0);
    }
  }

  lemma EthPerVEBOFrameSign(s: Storage, available: int)
    requires ValidStorage(s) && available >= 0
    ensures EthPerVEBOFrame(s, available) >= 0
    ensures EthPerVEBOFrame(s, available) == 0 <==>
            available < s.calendar.epochsPerFrame && (s.churnLimit == 0 || s.maxBalanceExitRequestedPerReportInEth == 0)
  {
    var e, v := s.calendar.epochsPerFrame, s.epochsPerFrameVEBO;
    DivGalois(available, e, 1);
    DivGalois(available, e, 0);
    var perEpoch := available / e;
    assert perEpoch >= 0 && (perEpoch == 0 <==> available < e);
    ProductSign(perEpoch, v);
    ProductSign(MIN_ACTIVATION_BALANCE * s.churnLimit, v);
  }

  /** An amount of wei that can exit in one VEBO frame, by churn and by the limit of the report. */
  predicate CanExit(s: Storage, wei: int) {
    && wei <= 32_000_000_000_000_000_000 * s.churnLimit * s.epochsPerFrameVEBO
    && wei <= s.maxBalanceExitRequestedPerReportInEth * 1_000_000_000_000_000_000
  }

  ghost predicate IsGreatestExit(s: Storage, exits: int) {
    forall wei :: CanExit(s, wei) <==> wei <= exits
  }

  /** What drains in a VEBO frame: the greatest exits, and the rewards of its epochs. */
  lemma DrainIsExitsAndRewards(s: Storage, available: int) returns (exits: int)
    requires ValidStorage(s) && available >= 0
    ensures IsGreatestExit(s, exits) && exits >= 0
    ensures EthPerVEBOFrame(s, available) == exits + available / s.calendar.epochsPerFrame * s.epochsPerFrameVEBO
  {
    var churn := 32_000_000_000_000_000_000 * s.churnLimit * s.epochsPerFrameVEBO;
    var limit := s.maxBalanceExitRequestedPerReportInEth * 1_000_000_000_000_000_000;
    exits := Min(churn, limit);
    ProductSign(32_000_000_000_000_000_000 * s.churnLimit, s.epochsPerFrameVEBO);
  }

  /** `count` is the least number of VEBO frames that drain strictly more than the deficit. */
  ghost predicate IsDrainCount(drain: int, deficit: int, count: int) {
    forall v :: Drains(drain, deficit, v) <==> v >= count
  }

  predicate Drains(drain: int, deficit: int, frames: int) {
    frames * drain > deficit
  }

  lemma DrainCountForm(drain: int, deficit: int)
    requires drain > 0
    ensures IsDrainCount(drain, deficit, deficit / drain + 1)
  {
    forall v
      ensures Drains(drain, deficit, v) <==> v >= deficit / drain + 1
    {
      DivGalois(deficit, drain, v);
      assert v * drain == drain * v;
    }
  }

  /** exitValidators is null exactly when nothing drains; else both its minima are exact. */
  lemma ExitValidatorsIsLeastFrame(s: Storage, deficit: int, latestEpoch: int, available: int)
    requires ValidStorage(s) && deficit >= 0 && available >= 0
    ensures FrameExitValidatorsWithVEBO(s, deficit, latestEpoch, available).None?
            <==> EthPerVEBOFrame(s, available) == 0
    ensures exists exits ::
      && IsGreatestExit(s, exits)
      && EthPerVEBOFrame(s, available) == exits + available / s.calendar.epochsPerFrame * s.epochsPerFrameVEBO
    ensures EthPerVEBOFrame(s, available) > 0 ==>
      exists count :: && IsDrainCount(EthPerVEBOFrame(s, available), deficit, count)
                      && forall f :: ExitsSwept(s, latestEpoch, count, f)
                                     <==> f >= FrameExitValidatorsWithVEBO(s, deficit, latestEpoch, available).value
  {
    EthPerVEBOFrameSign(s, available);
    var exits := DrainIsExitsAndRewards(s, available);
    var drain := EthPerVEBOFrame(s, available);
    if drain > 0 {
      var count := deficit / drain + 1;
      DrainCountForm(drain, deficit);
      var epoch := latestEpoch + count * s.epochsPerFrameVEBO + s.sweepMeanEpochs;
      forall f
        ensures ExitsSwept(s, latestEpoch, count, f) <==> f >= FrameOfEpoch(s.calendar, epoch) + 1
      {
        FrameOfEpochGalois(s.calendar, epoch, f);
      }
    }
  }

  // ---- the choice between the projections

  /** The load is answered by one of the three projections. */
  predicate Projected(s: Storage, now: int, q: Query)
    requires ValidStorage(s)
  {
    !Covered(q) && Truthy(FrameIsBunker(s, now)).None?
  }

  lemma {:induction false} ReduceIsLeast(cases: seq<FrameEstimate>)
    requires cases != []
    ensures Reduce(cases) in cases
    ensures forall e :: e in cases ==> Reduce(cases).frame <= e.frame
  {
    var last := |cases| - 1;
    if last > 0 {
      ReduceIsLeast(cases[..last]);
      assert cases == cases[..last] + [cases[last]];
    }
  }

  /**
   * `r` is one of the three projections, of its own kind, and none of them is earlier; of equal frames the later
   * compared kind wins, and without any projection it throws.
   */
  predicate IsLeastCase(r: Result<FrameEstimate>, balances: Option<int>, rewards: Option<int>, exits: Option<int>) {
    if balances.None? && rewards.None? && exits.None? then
      r == Failure(EmptyReduce)
    else
      && r.Success?
      && NoLaterThan(r.value.frame, balances)
      && NoLaterThan(r.value.frame, rewards)
      && NoLaterThan(r.value.frame, exits)
      && (match r.value.kind
          case ExitValidators => exits == Some(r.value.frame)
          case RewardsOnly => rewards == Some(r.value.frame) && exits != Some(r.value.frame)
          case ValidatorBalances =>
            balances == Some(r.value.frame) && rewards != Some(r.value.frame) && exits != Some(r.value.frame)
          case _ => false)
  }

  predicate NoLaterThan(frame: int, bound: Option<int>) {
    bound.Some? ==> frame <= bound.value
  }

  /** The answer for an uncovered load: the least of the applicable projections. */
  lemma UncoveredIsLeastCase(s: Storage, now: int, q: Query)
    requires ValidStorage(s) && Projected(s, now, q)
    ensures RewardsCase(s, now, q).Failure? ==> WithdrawalFrame(s, now, q) == Failure(RewardsCase(s, now, q).error)
    ensures RewardsCase(s, now, q).Success? ==>
      IsLeastCase(WithdrawalFrame(s, now, q), BalancesCase(s, now, q), RewardsCase(s, now, q).value, ExitCase(s, q))
  {
    if RewardsCase(s, now, q).Success? {
      SoonestIsLeast(BalancesCase(s, now, q), RewardsCase(s, now, q).value, ExitCase(s, q));
    }
  }

  lemma SoonestIsLeast(balances: Option<int>, rewards: Option<int>, exits: Option<int>)
    ensures IsLeastCase(SoonestCase(balances, rewards, exits), balances, rewards, exits)
  {
    var cases := Case(balances, ValidatorBalances) + Case(rewards, RewardsOnly) + Case(exits, ExitValidators);
    assert balances.Some? ==> FrameEstimate(balances.value, ValidatorBalances) in cases;
    assert rewards.Some? ==> FrameEstimate(rewards.value, RewardsOnly) in cases;
    assert exits.Some? ==> FrameEstimate(exits.value, ExitValidators) in cases;
    if cases != [] {
      ReduceIsLeast(cases);
    }
  }

  /**
   * When the estimator throws: rewards below one wei an epoch divide by zero, and with no rewards, no exits
   * and no covering frame other than frame 0 the minimum is taken of nothing. In bunker mode and for covered
   * loads it never throws.
   */
  lemma ThrowsExactlyWhen(s: Storage, now: int, q: Query)
    requires ValidStorage(s)
    ensures WithdrawalFrame(s, now, q) == Failure(DivisionByZero)
            <==> Projected(s, now, q) && 0 < RewardsAvailableForWithdrawals(s) < s.calendar.epochsPerFrame
    ensures WithdrawalFrame(s, now, q) == Failure(EmptyReduce)
            <==> && Projected(s, now, q)
                 && RewardsAvailableForWithdrawals(s) == 0
                 && (s.churnLimit == 0 || s.maxBalanceExitRequestedPerReportInEth == 0)
                 && BalancesCase(s, now, q).None?
    ensures WithdrawalFrame(s, now, q).Failure? ==> WithdrawalFrame(s, now, q).error in {DivisionByZero, EmptyReduce}
  {
    AvailableRewards(s);
    var available := RewardsAvailableForWithdrawals(s);
    if Projected(s, now, q) {
      RewardsOnlyIsLeastFrame(s, now, Deficit(q), available);
      ExitValidatorsIsLeastFrame(s, Deficit(q), q.latestEpoch, available);
      EthPerVEBOFrameSign(s, available);
      UncoveredIsLeastCase(s, now, q);
    }
  }

  // ---- monotonicity

  /** `r` answers no later than `r'`; an empty minimum counts as never. */
  predicate NoLater(r: Result<FrameEstimate>, r': Result<FrameEstimate>) {
    r'.Success? ==> r.Success? && r.value.frame <= r'.value.frame
  }

  predicate NoLaterCase(a: Option<int>, b: Option<int>) {
    b.Some? ==> a.Some? && a.value <= b.value
  }

  /** The same protocol, with rewards no larger and a reserve target no smaller. */
  predicate NoRicher(s': Storage, s: Storage) {
    && s' == s.(rewardsPerFrame := s'.rewardsPerFrame, depositsReserveTarget := s'.depositsReserveTarget)
    && s'.rewardsPerFrame <= s.rewardsPerFrame
    && s'.depositsReserveTarget >= s.depositsReserveTarget
  }

  lemma FewerFrames(drain: int, drain': int, d: int, d': int)
    requires drain >= drain' > 0 && 0 <= d <= d'
    ensures d / drain + 1 <= d' / drain' + 1
  {
    var v' := d' / drain' + 1;
    DivGalois(d', drain', v');
    LargerProduct(drain', drain, v');
    DivGalois(d, drain, v');
  }

  lemma RewardsOnlyMonotone(s: Storage, now: int, d: int, d': int, a: int, a': int)
    requires ValidStorage(s)
    requires 0 <= d <= d' && a >= a' >= 0
    ensures var r, r' := FrameByRewardsOnly(s, now, d, a), FrameByRewardsOnly(s, now, d', a');
      r.Success? && r'.Success? ==> NoLaterCase(r.value, r'.value)
  {
    var epochs, epoch := s.calendar.epochsPerFrame, CurrentEpoch(s.calendar, now);
    DivMonotone(a', a, epochs);
    DivGalois(a', epochs, 1);
    if a' >= epochs {
      var p, p' := a / epochs, a' / epochs;
      FewerFrames(p, p', d, d');
      FrameOfEpochMonotone(s.calendar, epoch + d / p, epoch + d' / p');
    } else {
      RewardsOnlyIsLeastFrame(s, now, d', a');
    }
  }

  lemma LargerProduct(p: int, p': int, gap: int)
    requires 0 < p <= p' && p * gap >= 0
    ensures p * gap <= p' * gap
  {
    DivGalois(-1, p, gap);
    DivUnique(-1, p, -1);
    assert p' * gap - p * gap == (p' - p) * gap;
  }

  lemma DrainMonotone(s: Storage, a: int, a': int)
    requires ValidStorage(s) && a >= a' >= 0
    ensures EthPerVEBOFrame(s, a) >= EthPerVEBOFrame(s, a') >= 0
  {
    var epochs := s.calendar.epochsPerFrame;
    EthPerVEBOFrameSign(s, a');
    DivMonotone(a', a, epochs);
    var p, p', v := a / epochs, a' / epochs, s.epochsPerFrameVEBO;
    assert p * v - p' * v == (p - p') * v;
    ProductSign(p - p', v);
  }

  lemma ExitMonotone(s: Storage, d: int, d': int, latest: int, latest': int, a: int, a': int)
    requires ValidStorage(s)
    requires 0 <= d <= d' && latest <= latest' && a >= a' >= 0
    ensures NoLaterCase(FrameExitValidatorsWithVEBO(s, d, latest, a), FrameExitValidatorsWithVEBO(s, d', latest', a'))
  {
    EthPerVEBOFrameSign(s, a');
    DrainMonotone(s, a, a');
    var drain, drain' := EthPerVEBOFrame(s, a), EthPerVEBOFrame(s, a');
    if drain' > 0 {
      var v, v' := d / drain + 1, d' / drain' + 1;
      FewerFrames(drain, drain', d, d');
      ProductSign(v' - v, s.epochsPerFrameVEBO);
      assert v' * s.epochsPerFrameVEBO - v * s.epochsPerFrameVEBO == (v' - v) * s.epochsPerFrameVEBO;
      var e := latest + v * s.epochsPerFrameVEBO + s.sweepMeanEpochs;
      var e' := latest' + v' * s.epochsPerFrameVEBO + s.sweepMeanEpochs;
      FrameOfEpochMonotone(s.calendar, e, e');
    }
  }

  lemma BalancesMonotone(m: FrameBalances, c: int, d: int, d': int, a: int, a': int)
    requires d <= d' && a >= a'
    ensures NoLaterCase(CoveringFrame(m, d, c, a), CoveringFrame(m, d', c, a'))
  {
    CoveringMonotone(m, d, d', c, a, a');
    var covering' := CoveringFrames(m, d', c, a');
    if covering' != {} {
      assert Least(covering') in CoveringFrames(m, d, c, a);
    }
  }

  lemma LeastCaseMonotone(r: Result<FrameEstimate>, b: Option<int>, w: Option<int>, x: Option<int>,
                          r': Result<FrameEstimate>, b': Option<int>, w': Option<int>, x': Option<int>)
    requires IsLeastCase(r, b, w, x) && IsLeastCase(r', b', w', x')
    requires NoLaterCase(b, b') && NoLaterCase(w, w') && NoLaterCase(x, x')
    ensures NoLater(r, r')
  {
  }

  // ---- the estimator without the truthiness tests of frames

  /** What validatorBalances and rewardsOnly compute, before their frames are tested for truth. */
  ghost function UntestedBalances(s: Storage, now: int, q: Query): Option<int>
    requires ValidStorage(s)
  {
    CoveringFrame(s.frameBalances, Deficit(q), GapAdjustedFrame(s, now), RewardsAvailableForWithdrawals(s))
  }

  function UntestedRewards(s: Storage, now: int, q: Query): Result<Option<int>>
    requires ValidStorage(s)
  {
    FrameByRewardsOnly(s, now, Deficit(q), RewardsAvailableForWithdrawals(s))
  }

  /** The intended estimator: a case is missing only when it is null, not when its frame is 0. */
  ghost function IntendedFrame(s: Storage, now: int, q: Query): Result<FrameEstimate>
    requires ValidStorage(s)
  {
    if !Projected(s, now, q) then WithdrawalFrame(s, now, q) else
      var rewards :- UntestedRewards(s, now, q);
      SoonestCase(UntestedBalances(s, now, q), rewards, ExitCase(s, q))
  }

  /** Frame 0 is a balances or rewards case, and neither they nor the exits have an earlier or equal claim. */
  predicate FrameZeroIsSoonest(balances: Option<int>, rewards: Option<int>, exits: Option<int>) {
    && (balances == Some(0) || rewards == Some(0))
    && NoLaterThan(0, balances) && NoLaterThan(0, rewards) && NoLaterThan(1, exits)
  }

  /** The truthiness tests lose the soonest case of the load. */
  ghost predicate LosesFrameZero(s: Storage, now: int, q: Query)
    requires ValidStorage(s)
  {
    && Projected(s, now, q)
    && UntestedRewards(s, now, q).Success?
    && FrameZeroIsSoonest(UntestedBalances(s, now, q), UntestedRewards(s, now, q).value, ExitCase(s, q))
  }

  lemma TruthyLosesOnlyFrameZero(b: Option<int>, w: Option<int>, x: Option<int>)
    ensures SoonestCase(Truthy(b), Truthy(w), x) == SoonestCase(b, w, x) <==> !FrameZeroIsSoonest(b, w, x)
    ensures FrameZeroIsSoonest(b, w, x) ==>
      var r := SoonestCase(Truthy(b), Truthy(w), x);
      r.Failure? || r.value.frame > 0
    ensures NoLater(SoonestCase(b, w, x), SoonestCase(Truthy(b), Truthy(w), x))
  {
    SoonestIsLeast(b, w, x);
    SoonestIsLeast(Truthy(b), Truthy(w), x);
  }

  /**
   * The code misses the intention exactly when a projected load is meant to be finalized by balances or rewards in
   * frame 0; it then answers with a later frame, or throws.
   */
  lemma IntendedExactlyUnlessFrameZero(s: Storage, now: int, q: Query)
    requires ValidStorage(s)
    ensures WithdrawalFrame(s, now, q) == IntendedFrame(s, now, q) <==> !LosesFrameZero(s, now, q)
    ensures LosesFrameZero(s, now, q) ==>
      var r := WithdrawalFrame(s, now, q);
      r.Failure? || r.value.frame > 0
    ensures LosesFrameZero(s, now, q)
            <==> && Projected(s, now, q)
                 && var r := IntendedFrame(s, now, q);
                    r.Success? && r.value.frame == 0 && r.value.kind != ExitValidators
  {
    if Projected(s, now, q) && UntestedRewards(s, now, q).Success? {
      var b, w, x := UntestedBalances(s, now, q), UntestedRewards(s, now, q).value, ExitCase(s, q);
      TruthyLosesOnlyFrameZero(b, w, x);
      SoonestIsLeast(b, w, x);
    }
  }

  /** Past the initial epoch and without a frame 0 in the balances, nothing is lost. */
  lemma PositiveFramesLoseNothing(s: Storage, now: int, q: Query)
    requires ValidStorage(s)
    requires CurrentEpoch(s.calendar, now) >= s.calendar.initialEpoch && 0 !in s.frameBalances
    ensures !LosesFrameZero(s, now, q)
  {
    if Projected(s, now, q) {
      var a, d, epoch := RewardsAvailableForWithdrawals(s), Deficit(q), CurrentEpoch(s.calendar, now);
      AvailableRewards(s);
      RewardsOnlyIsLeastFrame(s, now, d, a);
      DivGalois(a, s.calendar.epochsPerFrame, 1);
      if a >= s.calendar.epochsPerFrame {
        var p := a / s.calendar.epochsPerFrame;
        DivGalois(d, p, 0);
        FrameOfEpochMonotone(s.calendar, s.calendar.initialEpoch, epoch + d / p);
        FrameOfEpochForm(s.calendar, s.calendar.initialEpoch);
      }
    }
  }

  lemma UntestedMonotone(s: Storage, s': Storage, now: int, q: Query, q': Query)
    requires ValidStorage(s) && NoRicher(s', s)
    requires !Covered(q) && !Covered(q')
    requires Deficit(q) <= Deficit(q') && q.latestEpoch <= q'.latestEpoch
    requires UntestedRewards(s, now, q).Success? && UntestedRewards(s', now, q').Success?
    ensures NoLaterCase(UntestedBalances(s, now, q), UntestedBalances(s', now, q'))
    ensures NoLaterCase(UntestedRewards(s, now, q).value, UntestedRewards(s', now, q').value)
    ensures NoLaterCase(ExitCase(s, q), ExitCase(s', q'))
  {
    AvailableRewards(s);
    AvailableRewards(s');
    var a, a' := RewardsAvailableForWithdrawals(s), RewardsAvailableForWithdrawals(s');
    var d, d' := Deficit(q), Deficit(q');
    RewardsOnlyMonotone(s, now, d, d', a, a');
    ExitMonotone(s, d, d', q.latestEpoch, q'.latestEpoch, a, a');
    BalancesMonotone(s.frameBalances, GapAdjustedFrame(s, now), d, d', a, a');
    assert GapAdjustedFrame(s', now) == GapAdjustedFrame(s, now);
    assert FrameByRewardsOnly(s', now, d', a') == FrameByRewardsOnly(s, now, d', a');
    assert FrameExitValidatorsWithVEBO(s', d', q'.latestEpoch, a')
        == FrameExitValidatorsWithVEBO(s, d', q'.latestEpoch, a');
  }

  /** The load throws for rewards below one wei an epoch. */
  predicate DividesByZero(s: Storage, now: int, q: Query)
    requires ValidStorage(s)
  {
    Projected(s, now, q) && 0 < RewardsAvailableForWithdrawals(s) < s.calendar.epochsPerFrame
  }

  /**
   * The intended answer for an uncovered load never gets earlier when the deficit or the latest exit epoch grows,
   * rewards shrink or the reserve target grows, unless the richer load divides by zero. There is no condition on
   * frames.
   */
  lemma IntendedNeverEarlier(s: Storage, s': Storage, now: int, q: Query, q': Query)
    requires ValidStorage(s) && NoRicher(s', s)
    requires !Covered(q) && !Covered(q')
    requires Deficit(q) <= Deficit(q') && q.latestEpoch <= q'.latestEpoch
    requires !DividesByZero(s, now, q)
    ensures NoLater(IntendedFrame(s, now, q), IntendedFrame(s', now, q'))
  {
    AvailableRewards(s);
    if Projected(s, now, q) {
      RewardsOnlyIsLeastFrame(s, now, Deficit(q), RewardsAvailableForWithdrawals(s));
      var w, w' := UntestedRewards(s, now, q), UntestedRewards(s', now, q');
      if w'.Success? {
        var b, x := UntestedBalances(s, now, q), ExitCase(s, q);
        var b', x' := UntestedBalances(s', now, q'), ExitCase(s', q');
        UntestedMonotone(s, s', now, q, q');
        SoonestIsLeast(b, w.value, x);
        SoonestIsLeast(b', w'.value, x');
        LeastCaseMonotone(SoonestCase(b, w.value, x), b, w.value, x, SoonestCase(b', w'.value, x'), b', w'.value, x');
      }
    }
  }

  /** The same of the code's answer, unless the truthiness tests lose the soonest case of the smaller load. */
  lemma NeverEarlier(s: Storage, s': Storage, now: int, q: Query, q': Query)
    requires ValidStorage(s) && NoRicher(s', s)
    requires !Covered(q) && !Covered(q')
    requires Deficit(q) <= Deficit(q') && q.latestEpoch <= q'.latestEpoch
    requires !DividesByZero(s, now, q) && !LosesFrameZero(s, now, q)
    ensures NoLater(WithdrawalFrame(s, now, q), WithdrawalFrame(s', now, q'))
  {
    IntendedNeverEarlier(s, s', now, q, q');
    IntendedExactlyUnlessFrameZero(s, now, q);
    IntendedExactlyUnlessFrameZero(s', now, q');
  }
}
