// getValidatorWithdrawalTimestamp: when does the circular withdrawal sweep reach a validator?

module SweepProjection {
  import opened FloorArithmetic
  import opened GenesisTime

  const WITHDRAWALS_VALIDATORS_PER_SLOT := 16

  /** The optional throughput parameters of the estimate. */
  datatype Pace = Pace(validatorsPerSlot: int, slotsPerEpoch: int, secondsPerSlot: int)

  const DEFAULT_PACE := Pace(WITHDRAWALS_VALIDATORS_PER_SLOT, SLOTS_PER_EPOCH, SECONDS_PER_SLOT)

  datatype Sweep = Sweep(
    cursor: int,
    activeValidatorCount: int,
    totalValidatorsCount: int,
    currentEpoch: int,
    blockedByDeferredSlots: int)

  /** Without active validators the density is zero and the estimate is not a number. */
  predicate Valid(w: Sweep, p: Pace) {
    && w.cursor >= 0
    && 0 < w.activeValidatorCount <= w.totalValidatorsCount
    && w.blockedByDeferredSlots >= 0
    && p.validatorsPerSlot > 0 && p.slotsPerEpoch > 0 && p.secondsPerSlot > 0
  }

  function Ceil(x: real): int {
    -(-x).Floor
  }

  function SlotsUntilWE(w: Sweep, p: Pace, withdrawableEpoch: int): int {
    Max(0, withdrawableEpoch - w.currentEpoch) * p.slotsPerEpoch
  }

  /** The slots before the withdrawable epoch in which the cursor is free to move. */
  function FreeSlots(w: Sweep, p: Pace, withdrawableEpoch: int): int {
    Max(0, SlotsUntilWE(w, p, withdrawableEpoch) - w.blockedByDeferredSlots)
  }

  /** The places the cursor is expected to pass before the withdrawable epoch, at mean density. */
  function ExpectedIndexAdvance(slots: int, active: int, total: int, validatorsPerSlot: int): int
    requires active > 0 && total > 0
  {
    var percentOfActiveValidators := active as real / total as real;
    ((slots * validatorsPerSlot) as real / percentOfActiveValidators).Floor
  }

  /** Where the cursor is expected when the validator becomes withdrawable. */
  function CursorAtWE(w: Sweep, p: Pace, withdrawableEpoch: int): int
    requires Valid(w, p)
  {
    var expectedIndexAdvanceToWE := ExpectedIndexAdvance(
      FreeSlots(w, p, withdrawableEpoch), w.activeValidatorCount, w.totalValidatorsCount, p.validatorsPerSlot);
    (w.cursor + expectedIndexAdvanceToWE % w.totalValidatorsCount) % w.totalValidatorsCount
  }

  /** The number of validators from the cursor to the validator, on the circle. */
  function Distance(w: Sweep, p: Pace, validatorIndex: int, withdrawableEpoch: int): int
    requires Valid(w, p)
  {
    var total := w.totalValidatorsCount;
    (validatorIndex - CursorAtWE(w, p, withdrawableEpoch) + total) % total
  }

  /** The active validators up to and including the validator, at average density. */
  function ExpectedActivesToProcess(distance: int, active: int, total: int): int
    requires active > 0 && total > 0
  {
    var percentOfActiveValidators := active as real / total as real;
    var queuePosInclusive := distance + 1;
    Ceil((queuePosInclusive - 1) as real * percentOfActiveValidators) + 1
  }

  function SlotsToReach(distance: int, active: int, total: int, validatorsPerSlot: int): int
    requires active > 0 && total > 0 && validatorsPerSlot > 0
  {
    Ceil(ExpectedActivesToProcess(distance, active, total) as real / validatorsPerSlot as real)
  }

  function SlotsAfterWE(w: Sweep, p: Pace, validatorIndex: int, withdrawableEpoch: int): int
    requires Valid(w, p)
  {
    SlotsToReach(Distance(w, p, validatorIndex, withdrawableEpoch),
                 w.activeValidatorCount, w.totalValidatorsCount, p.validatorsPerSlot)
  }

  function TotalSlots(w: Sweep, p: Pace, validatorIndex: int, withdrawableEpoch: int): int
    requires Valid(w, p)
  {
    var slotsUntilWE := SlotsUntilWE(w, p, withdrawableEpoch);
    var blockedSlotsAfterWE := Max(0, w.blockedByDeferredSlots - slotsUntilWE);
    slotsUntilWE + blockedSlotsAfterWE + SlotsAfterWE(w, p, validatorIndex, withdrawableEpoch)
  }

  function ValidatorWithdrawalTimestamp(w: Sweep, p: Pace, validatorIndex: int, withdrawableEpoch: int, nowMs: int): int
    requires Valid(w, p)
  {
    nowMs + TotalSlots(w, p, validatorIndex, withdrawableEpoch) * p.secondsPerSlot * 1000
  }

  // ---- the sweep, slot by slot

  /** The cursor at the start of a slot: it stands while deferred withdrawals block it, and then moves every slot. */
  function CursorAt(w: Sweep, p: Pace, slot: nat): int
    requires Valid(w, p)
  {
    if slot == 0 then w.cursor
    else if slot - 1 < w.blockedByDeferredSlots then CursorAt(w, p, slot - 1)
    else (CursorAt(w, p, slot - 1) + p.validatorsPerSlot) % w.totalValidatorsCount
  }

  /** The validator at position `j` of the circular window that the slot processes. */
  function Window(w: Sweep, p: Pace, slot: nat, j: int): int
    requires Valid(w, p)
  {
    (CursorAt(w, p, slot) + j) % w.totalValidatorsCount
  }

  ghost predicate Processed(w: Sweep, p: Pace, slot: nat, validatorIndex: int)
    requires Valid(w, p)
  {
    exists j :: 0 <= j < p.validatorsPerSlot && Window(w, p, slot, j) == validatorIndex
  }

  /** The first slot in which a withdrawable validator can be processed at all. */
  function FirstOpenSlot(w: Sweep, p: Pace, withdrawableEpoch: int): (slot: nat)
    requires Valid(w, p)
  {
    Max(Max(SlotsUntilWE(w, p, withdrawableEpoch), w.blockedByDeferredSlots), 0)
  }

  // ---- circular arithmetic

  lemma ModOfMod(a: int, b: int, n: int)
    requires n > 0
    ensures (a % n + b) % n == (a + b) % n
  {
    ModShift(a % n + b, n, a / n);
    assert a == n * (a / n) + a % n;
  }

  lemma {:induction false} CursorForm(w: Sweep, p: Pace, slot: nat)
    requires Valid(w, p)
    ensures CursorAt(w, p, slot) % w.totalValidatorsCount
         == (w.cursor + Max(0, slot - w.blockedByDeferredSlots) * p.validatorsPerSlot) % w.totalValidatorsCount
  {
    var total := w.totalValidatorsCount;
    if slot > 0 {
      CursorForm(w, p, slot - 1);
      if slot - 1 >= w.blockedByDeferredSlots {
        var moved := (slot - 1 - w.blockedByDeferredSlots) * p.validatorsPerSlot;
        ModOfMod(CursorAt(w, p, slot - 1), p.validatorsPerSlot, total);
        ModOfMod(w.cursor + moved, p.validatorsPerSlot, total);
        ModOfMod(CursorAt(w, p, slot - 1) + p.validatorsPerSlot, 0, total);
        assert moved + p.validatorsPerSlot == (slot - w.blockedByDeferredSlots) * p.validatorsPerSlot;
      }
    }
  }

  // ---- integer forms of the closed form

  lemma ScaleRatio(x: real, a: real, b: real)
    requires a > 0.0 && b > 0.0
    ensures a / b > 0.0
    ensures x / (a / b) == (x * b) / a
    ensures x * (a / b) == (x * a) / b
  {
    var y := x / (a / b);
    assert y * (a / b) == x;
    assert y * a == x * b;
  }

  lemma ExpectedAdvanceForm(slots: int, active: int, total: int, perSlot: int)
    requires active > 0 && total > 0
    ensures ExpectedIndexAdvance(slots, active, total, perSlot) == slots * perSlot * total / active
  {
    var swept := slots * perSlot;
    ScaleRatio(swept as real, active as real, total as real);
    assert swept as real * total as real == (swept * total) as real;
    FloorOfQuotient(swept * total, active);
  }

  lemma CursorAtWEForm(w: Sweep, p: Pace, withdrawableEpoch: int)
    requires Valid(w, p)
    ensures CursorAtWE(w, p, withdrawableEpoch)
         == (w.cursor + FreeSlots(w, p, withdrawableEpoch) * p.validatorsPerSlot
                        * w.totalValidatorsCount / w.activeValidatorCount) % w.totalValidatorsCount
  {
    var total, active, slots := w.totalValidatorsCount, w.activeValidatorCount, FreeSlots(w, p, withdrawableEpoch);
    ExpectedAdvanceForm(slots, active, total, p.validatorsPerSlot);
    ModOfMod(ExpectedIndexAdvance(slots, active, total, p.validatorsPerSlot), w.cursor, total);
  }

  lemma ExpectedActivesForm(distance: int, active: int, total: int)
    requires active > 0 && total > 0
    ensures ExpectedActivesToProcess(distance, active, total) == (distance * active + total - 1) / total + 1
  {
    ScaleRatio(distance as real, active as real, total as real);
    assert distance as real * active as real == (distance * active) as real;
    CeilOfQuotient(distance * active, total);
  }

  lemma SlotsToReachForm(distance: int, active: int, total: int, perSlot: int)
    requires active > 0 && total > 0 && perSlot > 0
    ensures SlotsToReach(distance, active, total, perSlot)
         == ((distance * active + total - 1) / total + 1 + perSlot - 1) / perSlot
  {
    ExpectedActivesForm(distance, active, total);
    CeilOfQuotient(ExpectedActivesToProcess(distance, active, total), perSlot);
  }

  /** At mean density, `places` places of the circle hold at most `validators` active validators. */
  predicate HoldAtMost(active: int, total: int, places: int, validators: int) {
    places * active <= validators * total
  }

  /** The expected advance is the greatest number of places that the free slots can clear. */
  lemma AdvanceIsGreatest(slots: int, active: int, total: int, perSlot: int, places: int)
    requires active > 0 && total > 0
    ensures HoldAtMost(active, total, places, slots * perSlot)
            <==> places <= ExpectedIndexAdvance(slots, active, total, perSlot)
  {
    ExpectedAdvanceForm(slots, active, total, perSlot);
    DivGalois(slots * perSlot * total, active, places);
  }

  /** The active validators to process are the least number that the distance can hold, and the validator itself. */
  lemma ActivesAreLeast(distance: int, active: int, total: int, validators: int)
    requires active > 0 && total > 0
    ensures HoldAtMost(active, total, distance, validators)
            <==> ExpectedActivesToProcess(distance, active, total) <= validators + 1
  {
    ExpectedActivesForm(distance, active, total);
    DivGalois(distance * active + total - 1, total, validators + 1);
    Distribute(validators + 1, 1, total);
  }

  // ---- the closed form refines the simulation

  /**
   * With every validator active, the closed form names the first slot, from the first open slot on, whose window
   * holds the validator: the total is one more than that slot.
   */
  lemma ClosedFormIsFirstProcessingSlot(w: Sweep, p: Pace, validatorIndex: int, withdrawableEpoch: int)
    requires Valid(w, p) && w.activeValidatorCount == w.totalValidatorsCount
    requires 0 <= validatorIndex < w.totalValidatorsCount
    ensures var open := FirstOpenSlot(w, p, withdrawableEpoch);
      var slot := TotalSlots(w, p, validatorIndex, withdrawableEpoch) - 1;
      && slot >= open
      && Processed(w, p, slot, validatorIndex)
      && forall s: nat :: open <= s < slot ==> !Processed(w, p, s, validatorIndex)
  {
    var total, perSlot := w.totalValidatorsCount, p.validatorsPerSlot;
    var open, cursor := FirstOpenSlot(w, p, withdrawableEpoch), CursorAtWE(w, p, withdrawableEpoch);
    var distance := Distance(w, p, validatorIndex, withdrawableEpoch);
    SlotsSign(w, p, withdrawableEpoch);
    AllActiveSlots(distance, total, perSlot);
    var steps := distance / perSlot;
    DivGalois(distance, perSlot, 0);
    assert TotalSlots(w, p, validatorIndex, withdrawableEpoch) - 1 == open + steps;
    DivBounds(distance, perSlot);
    WindowOffset(w, p, withdrawableEpoch, steps, distance - perSlot * steps);
    ModOfMod(validatorIndex - cursor + total, cursor, total);
    ModShift(validatorIndex, total, 1);
    DivUnique(validatorIndex, total, 0);
    assert Window(w, p, open + steps, distance - perSlot * steps) == validatorIndex;
    forall s: nat, j | open <= s < open + steps && 0 <= j < perSlot
      ensures Window(w, p, s, j) != validatorIndex
    {
      var k := s - open;
      WindowOffset(w, p, withdrawableEpoch, k, j);
      EarlierWindow(perSlot, k, steps, j);
      DifferentSteps(cursor, perSlot * k + j, distance, total);
    }
  }

  lemma SlotsSign(w: Sweep, p: Pace, withdrawableEpoch: int)
    requires Valid(w, p)
    ensures SlotsUntilWE(w, p, withdrawableEpoch) >= 0
    ensures SlotsUntilWE(w, p, withdrawableEpoch) >= (withdrawableEpoch - w.currentEpoch) * p.slotsPerEpoch
  {
    var epochs := Max(0, withdrawableEpoch - w.currentEpoch);
    assert epochs * p.slotsPerEpoch >= 0;
    assert (epochs - (withdrawableEpoch - w.currentEpoch)) * p.slotsPerEpoch >= 0;
  }

  lemma EarlierWindow(perSlot: int, k: int, steps: int, j: int)
    requires 0 <= k < steps && 0 <= j < perSlot
    ensures 0 <= perSlot * k + j < perSlot * steps
  {
    assert perSlot * k >= 0;
    assert perSlot * (k + 1) <= perSlot * steps;
  }

  /** With density one, a distance of `d` validators takes d / perSlot + 1 slots. */
  lemma AllActiveSlots(distance: int, total: int, perSlot: int)
    requires total > 0 && perSlot > 0
    ensures SlotsToReach(distance, total, total, perSlot) == distance / perSlot + 1
  {
    SlotsToReachForm(distance, total, total, perSlot);
    DivShift(total - 1, total, distance);
    DivUnique(total - 1, total, 0);
    assert distance * total + total - 1 == total - 1 + total * distance;
    assert distance + 1 + perSlot - 1 == distance + perSlot * 1;
    DivShift(distance, perSlot, 1);
  }

  /** With density one, position j of the window of slot open + k is perSlot * k + j past the cursor. */
  lemma WindowOffset(w: Sweep, p: Pace, withdrawableEpoch: int, k: nat, j: int)
    requires Valid(w, p) && w.activeValidatorCount == w.totalValidatorsCount
    ensures Window(w, p, FirstOpenSlot(w, p, withdrawableEpoch) + k, j)
         == (CursorAtWE(w, p, withdrawableEpoch) + (p.validatorsPerSlot * k + j)) % w.totalValidatorsCount
  {
    var total, perSlot := w.totalValidatorsCount, p.validatorsPerSlot;
    var open := FirstOpenSlot(w, p, withdrawableEpoch);
    SlotsSign(w, p, withdrawableEpoch);
    var free := FreeSlots(w, p, withdrawableEpoch);
    assert open - w.blockedByDeferredSlots == free;
    CursorForm(w, p, open + k);
    CursorAtWEForm(w, p, withdrawableEpoch);
    DivShift(0, total, free * perSlot);
    assert free * perSlot * total == 0 + total * (free * perSlot);
    assert (free + k) * perSlot == free * perSlot + perSlot * k;
    ModOfMod(CursorAt(w, p, open + k), j, total);
    ModOfMod(w.cursor + (free + k) * perSlot, j, total);
    ModOfMod(w.cursor + free * perSlot, perSlot * k + j, total);
  }

  // ---- bounds for any density

  /** Any density: at least one slot, and at most the slots that process every active validator and one more. */
  lemma SweepWithinOneRound(w: Sweep, p: Pace, validatorIndex: int, withdrawableEpoch: int)
    requires Valid(w, p)
    ensures var open, perSlot := FirstOpenSlot(w, p, withdrawableEpoch), p.validatorsPerSlot;
      open + 1 <= TotalSlots(w, p, validatorIndex, withdrawableEpoch)
               <= open + (w.activeValidatorCount + 1 + perSlot - 1) / perSlot
  {
    var total, active, perSlot := w.totalValidatorsCount, w.activeValidatorCount, p.validatorsPerSlot;
    SlotsSign(w, p, withdrawableEpoch);
    var distance := Distance(w, p, validatorIndex, withdrawableEpoch);
    SlotsToReachForm(distance, active, total, perSlot);
    var ahead := (distance * active + total - 1) / total;
    ActivesAhead(distance, active, total);
    DivMonotone(ahead + 1 + perSlot - 1, active + 1 + perSlot - 1, perSlot);
    DivGalois(ahead + 1 + perSlot - 1, perSlot, 1);
  }

  lemma ActivesAhead(distance: int, active: int, total: int)
    requires 0 <= distance < total && 0 < active <= total
    ensures 0 <= (distance * active + total - 1) / total <= active
  {
    ProductSign(distance, active);
    ProductSign(total - 1 - distance, active);
    Distribute(total - 1, distance, active);
    Distribute(total, 1, active);
    assert total * (active + 1) == total * active + total;
    DivGalois(distance * active + total - 1, total, 0);
    DivGalois(distance * active + total - 1, total, active + 1);
  }

  // ---- the timestamp, for the throughput of the network: 16 validators a slot, 32 slots of 12 seconds an epoch

  /** With every validator active, the timestamp is the end of the first open slot that processes the validator. */
  lemma TimestampIsFirstProcessing(w: Sweep, validatorIndex: int, withdrawableEpoch: int, nowMs: int)
    requires Valid(w, DEFAULT_PACE) && w.activeValidatorCount == w.totalValidatorsCount
    requires 0 <= validatorIndex < w.totalValidatorsCount
    ensures var open := Max(Max(0, withdrawableEpoch - w.currentEpoch) * 32, w.blockedByDeferredSlots);
      var eta := ValidatorWithdrawalTimestamp(w, DEFAULT_PACE, validatorIndex, withdrawableEpoch, nowMs);
      exists slot: nat ::
        && slot >= open && Processed(w, Pace(16, 32, 12), slot, validatorIndex)
        && eta == nowMs + 12_000 * (slot + 1)
        && forall s: nat :: open <= s < slot ==> !Processed(w, Pace(16, 32, 12), s, validatorIndex)
  {
    ClosedFormIsFirstProcessingSlot(w, DEFAULT_PACE, validatorIndex, withdrawableEpoch);
    var slot: nat := TotalSlots(w, DEFAULT_PACE, validatorIndex, withdrawableEpoch) - 1;
    assert Processed(w, Pace(16, 32, 12), slot, validatorIndex);
  }

  lemma TimestampWithinOneRound(w: Sweep, validatorIndex: int, withdrawableEpoch: int, nowMs: int)
    requires Valid(w, DEFAULT_PACE)
    ensures var open := Max(Max(0, withdrawableEpoch - w.currentEpoch) * 32, w.blockedByDeferredSlots);
      nowMs + 12_000 * (open + 1)
      <= ValidatorWithdrawalTimestamp(w, DEFAULT_PACE, validatorIndex, withdrawableEpoch, nowMs)
      <= nowMs + 12_000 * (open + (w.activeValidatorCount + 1 + 15) / 16)
  {
    SweepWithinOneRound(w, DEFAULT_PACE, validatorIndex, withdrawableEpoch);
  }

  /** The places that the cursor can pass in the free slots, at the mean density of active validators. */
  ghost predicate IsAdvance(w: Sweep, freeSlots: int, advance: int) {
    forall places :: HoldAtMost(w.activeValidatorCount, w.totalValidatorsCount, places, freeSlots * 16)
                     <==> places <= advance
  }

  /** The active validators that are processed with the one at this distance, itself included, at mean density. */
  ghost predicate IsProcessedWith(w: Sweep, distance: int, actives: int) {
    forall others :: HoldAtMost(w.activeValidatorCount, w.totalValidatorsCount, distance, others)
                     <==> others >= actives - 1
  }

  /** The distance is that of the validator from where the cursor is after the advance, on the circle. */
  predicate IsDistance(w: Sweep, advance: int, validatorIndex: int, distance: int)
    requires w.totalValidatorsCount > 0
  {
    && 0 <= distance < w.totalValidatorsCount
    && (w.cursor + advance + distance) % w.totalValidatorsCount == validatorIndex % w.totalValidatorsCount
  }

  /** Enough slots of 16 for the active validators, and not one more. */
  predicate IsSlotsFor(actives: int, slots: int) {
    16 * (slots - 1) < actives <= 16 * slots
  }

  /**
   * For any density, the timestamp is 12 seconds for every slot up to the first open one and for the slots that the
   * active validators up to the validator take from where the cursor is expected then.
   */
  lemma TimestampAtMeanDensity(w: Sweep, validatorIndex: int, withdrawableEpoch: int, nowMs: int)
    requires Valid(w, DEFAULT_PACE)
    ensures var until := Max(0, withdrawableEpoch - w.currentEpoch) * 32;
      exists advance, distance, actives, slots ::
        && IsAdvance(w, Max(0, until - w.blockedByDeferredSlots), advance)
        && IsDistance(w, advance, validatorIndex, distance)
        && IsProcessedWith(w, distance, actives)
        && IsSlotsFor(actives, slots)
        && ValidatorWithdrawalTimestamp(w, DEFAULT_PACE, validatorIndex, withdrawableEpoch, nowMs)
           == nowMs + 12_000 * (Max(until, w.blockedByDeferredSlots) + slots)
  {
    var p, total, active := DEFAULT_PACE, w.totalValidatorsCount, w.activeValidatorCount;
    var free := FreeSlots(w, p, withdrawableEpoch);
    var advance := ExpectedIndexAdvance(free, active, total, 16);
    var distance := Distance(w, p, validatorIndex, withdrawableEpoch);
    var actives := ExpectedActivesToProcess(distance, active, total);
    var slots := SlotsToReach(distance, active, total, 16);
    forall places
      ensures HoldAtMost(active, total, places, free * 16) <==> places <= advance
    {
      AdvanceIsGreatest(free, active, total, 16, places);
    }
    forall others
      ensures HoldAtMost(active, total, distance, others) <==> others >= actives - 1
    {
      ActivesAreLeast(distance, active, total, others);
    }
    DistanceOnCircle(w, validatorIndex, withdrawableEpoch, advance);
    CeilOfQuotient(actives, 16);
    assert IsAdvance(w, free, advance) && IsProcessedWith(w, distance, actives) && IsSlotsFor(actives, slots);
  }

  lemma DistanceOnCircle(w: Sweep, validatorIndex: int, withdrawableEpoch: int, advance: int)
    requires Valid(w, DEFAULT_PACE)
    requires advance == ExpectedIndexAdvance(FreeSlots(w, DEFAULT_PACE, withdrawableEpoch), w.activeValidatorCount,
                                             w.totalValidatorsCount, 16)
    ensures IsDistance(w, advance, validatorIndex, Distance(w, DEFAULT_PACE, validatorIndex, withdrawableEpoch))
  {
    var total, cursor := w.totalValidatorsCount, CursorAtWE(w, DEFAULT_PACE, withdrawableEpoch);
    var distance := Distance(w, DEFAULT_PACE, validatorIndex, withdrawableEpoch);
    ModOfMod(advance, w.cursor, total);
    ModOfMod(w.cursor + advance, distance, total);
    ModOfMod(validatorIndex - cursor + total, cursor, total);
    ModShift(validatorIndex, total, 1);
  }

  /** The frame whose report pays out a withdrawal at `timestamp`. */
  function ChargedFrame(c: Calendar, timestamp: int): int
    requires ValidCalendar(c)
  {
    FrameByTimestamp(c, timestamp) + 1
  }

  /** It is the first frame whose report comes strictly after the sweep. */
  lemma ChargedFrameIsNextReport(c: Calendar, timestamp: int, f: int)
    requires ValidCalendar(c)
    ensures ReportAt(c, f) > timestamp <==> f >= ChargedFrame(c, timestamp)
  {
    FrameByTimestampGalois(c, timestamp, f);
  }

  /** A validator is charged to a frame whose report is after its sweep and after it became withdrawable. */
  lemma ChargedAfterSweepAndWithdrawable(c: Calendar, w: Sweep, validatorIndex: int, withdrawableEpoch: int, nowMs: int)
    requires ValidCalendar(c) && Valid(w, DEFAULT_PACE)
    requires w.currentEpoch == CurrentEpoch(c, nowMs)
    ensures var eta := ValidatorWithdrawalTimestamp(w, DEFAULT_PACE, validatorIndex, withdrawableEpoch, nowMs);
      var report := ReportAt(c, ChargedFrame(c, eta));
      eta > nowMs && report > eta && report > TimestampByEpoch(c, withdrawableEpoch)
  {
    var eta := ValidatorWithdrawalTimestamp(w, DEFAULT_PACE, validatorIndex, withdrawableEpoch, nowMs);
    SweepWithinOneRound(w, DEFAULT_PACE, validatorIndex, withdrawableEpoch);
    SlotsSign(w, DEFAULT_PACE, withdrawableEpoch);
    ChargedFrameIsNextReport(c, eta, ChargedFrame(c, eta));
    CurrentEpochForm(c, nowMs);
    EpochGalois(c, nowMs, w.currentEpoch);
  }
}
