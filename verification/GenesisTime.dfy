// Conversions between epochs, report frames and timestamps (GenesisTimeService).
// Timestamps named `t`, `now` or `from` are in milliseconds, report times in seconds.

module GenesisTime {
  import opened FloorArithmetic

  const SECONDS_PER_SLOT := 12
  const SLOTS_PER_EPOCH := 32
  const SECONDS_PER_EPOCH := SECONDS_PER_SLOT * SLOTS_PER_EPOCH

  /** The genesis time in seconds and the frame configuration of an oracle. */
  datatype Calendar = Calendar(genesisTime: int, initialEpoch: int, epochsPerFrame: int)

  /** HashConsensus never holds an empty frame. */
  predicate ValidCalendar(c: Calendar) {
    c.epochsPerFrame > 0
  }

  function Round(x: real): int {
    (x + 0.5).Floor
  }

  function CurrentEpoch(c: Calendar, now: int): int {
    var currentTime := (now as real / 1000.0).Floor;
    ((currentTime - c.genesisTime) as real / SECONDS_PER_SLOT as real / SLOTS_PER_EPOCH as real).Floor
  }

  function FrameOfEpoch(c: Calendar, epoch: int): int
    requires ValidCalendar(c)
  {
    ((epoch - c.initialEpoch) as real / c.epochsPerFrame as real).Floor
  }

  function TimeToWithdrawalFrame(c: Calendar, frame: int, from: int): int {
    var epochOfNextReport := c.initialEpoch + frame * c.epochsPerFrame;
    var timeToNextReport := epochOfNextReport * SECONDS_PER_SLOT * SLOTS_PER_EPOCH;
    Round((c.genesisTime + timeToNextReport) as real - from as real / 1000.0) * 1000
  }

  function FrameByTimestamp(c: Calendar, t: int): int
    requires ValidCalendar(c)
  {
    var start := c.genesisTime + c.initialEpoch * SECONDS_PER_SLOT * SLOTS_PER_EPOCH;
    var secondsFromInitialEpochToTimestamp := t as real / 1000.0 - start as real;
    (secondsFromInitialEpochToTimestamp / (c.epochsPerFrame * SECONDS_PER_SLOT * SLOTS_PER_EPOCH) as real).Floor
  }

  function SlotByTimestamp(c: Calendar, t: int): int {
    var currentSlotTime := (t as real / 1000.0).Floor;
    ((currentSlotTime - c.genesisTime) as real / SECONDS_PER_SLOT as real).Floor
  }

  function EpochByTimestamp(c: Calendar, t: int): int {
    (SlotByTimestamp(c, t) as real / SLOTS_PER_EPOCH as real).Floor
  }

  function TimestampByEpoch(c: Calendar, epoch: int): int {
    c.genesisTime * 1000 + epoch * SLOTS_PER_EPOCH * SECONDS_PER_SLOT * 1000
  }

  /** The epoch whose end state the report of a frame is about. */
  function ReportEpoch(c: Calendar, frame: int): int {
    c.initialEpoch + frame * c.epochsPerFrame
  }

  /** The instant of that report, in milliseconds. */
  function ReportAt(c: Calendar, frame: int): int {
    1000 * (c.genesisTime + SECONDS_PER_EPOCH * ReportEpoch(c, frame))
  }

  function FrameMs(c: Calendar): int {
    1000 * SECONDS_PER_EPOCH * c.epochsPerFrame
  }

  // ---- integer forms of the real-valued conversions

  lemma CurrentEpochForm(c: Calendar, now: int)
    ensures CurrentEpoch(c, now) == EpochByTimestamp(c, now) == (now / 1000 - c.genesisTime) / SECONDS_PER_EPOCH
  {
    FloorOfQuotient(now, 1000);
    var s := now / 1000 - c.genesisTime;
    FloorOfQuotient(s, 12);
    FloorOfQuotient(s / 12, 32);
    FloorOfQuotient(s, 384);
    NestedDiv(s, 12, 32);
    assert s as real / 12.0 / 32.0 == s as real / 384.0;
  }

  lemma FrameOfEpochForm(c: Calendar, epoch: int)
    requires ValidCalendar(c)
    ensures FrameOfEpoch(c, epoch) == (epoch - c.initialEpoch) / c.epochsPerFrame
  {
    FloorOfQuotient(epoch - c.initialEpoch, c.epochsPerFrame);
  }

  lemma FrameByTimestampForm(c: Calendar, t: int)
    requires ValidCalendar(c)
    ensures FrameMs(c) > 0
    ensures FrameByTimestamp(c, t) == (t - ReportAt(c, 0)) / FrameMs(c)
  {
    var len := c.epochsPerFrame * 12 * 32;
    var a := t - ReportAt(c, 0);
    FloorOfQuotient(a, 1000 * len);
    var x := t as real / 1000.0 - (c.genesisTime + c.initialEpoch * 12 * 32) as real;
    assert x == a as real / 1000.0;
    ScaledQuotient(a as real, len as real);
    assert (1000 * len) as real == 1000.0 * len as real;
  }

  lemma ScaledQuotient(a: real, len: real)
    requires len > 0.0
    ensures 1000.0 * len > 0.0
    ensures a / 1000.0 / len == a / (1000.0 * len)
  {
    var x := a / 1000.0 / len;
    assert x * len == a / 1000.0;
    assert x * (1000.0 * len) == x * len * 1000.0;
  }

  /** The exact number of milliseconds to a report, before rounding to whole seconds. */
  lemma TimeToForm(c: Calendar, frame: int, from: int)
    ensures TimeToWithdrawalFrame(c, frame, from) == (ReportAt(c, frame) - from + 500) / 1000 * 1000
  {
    var a := ReportAt(c, frame) - from;
    FloorOfQuotient(a + 500, 1000);
    assert (c.genesisTime + ReportEpoch(c, frame) * 12 * 32) as real - from as real / 1000.0 == a as real / 1000.0;
    assert a as real / 1000.0 + 0.5 == (a + 500) as real / 1000.0;
  }

  // ---- the facts the estimator rests on

  lemma ReportStep(c: Calendar, frame: int, k: int)
    ensures ReportAt(c, frame + k) == ReportAt(c, frame) + k * FrameMs(c)
  {
    assert (frame + k) * c.epochsPerFrame == frame * c.epochsPerFrame + k * c.epochsPerFrame;
    assert k * FrameMs(c) == 1000 * SECONDS_PER_EPOCH * (k * c.epochsPerFrame);
  }

  lemma ReportMonotone(c: Calendar, f: int, f': int)
    requires ValidCalendar(c)
    ensures f < f' <==> ReportAt(c, f) < ReportAt(c, f')
    ensures f < f' <==> ReportEpoch(c, f) < ReportEpoch(c, f')
    ensures f < f' ==> ReportAt(c, f) + FrameMs(c) <= ReportAt(c, f')
  {
    ReportStep(c, f, f' - f);
    assert (f' - f) * c.epochsPerFrame == f' * c.epochsPerFrame - f * c.epochsPerFrame;
    var d, e := f' - f, c.epochsPerFrame;
    if d > 0 {
      assert d * e >= e;
    } else {
      assert d * e <= 0;
    }
  }

  /** A frame starts at or before an epoch exactly when it is at most the frame of that epoch. */
  lemma FrameOfEpochGalois(c: Calendar, epoch: int, f: int)
    requires ValidCalendar(c)
    ensures ReportEpoch(c, f) > epoch <==> f > FrameOfEpoch(c, epoch)
  {
    FrameOfEpochForm(c, epoch);
    DivGalois(epoch - c.initialEpoch, c.epochsPerFrame, f);
  }

  lemma FrameOfEpochMonotone(c: Calendar, e: int, e': int)
    requires ValidCalendar(c)
    requires e <= e'
    ensures FrameOfEpoch(c, e) <= FrameOfEpoch(c, e')
  {
    FrameOfEpochGalois(c, e, FrameOfEpoch(c, e));
    FrameOfEpochGalois(c, e', FrameOfEpoch(c, e));
  }

  /** The frame of a timestamp is the only frame whose report interval holds the timestamp. */
  lemma FrameByTimestampGalois(c: Calendar, t: int, f: int)
    requires ValidCalendar(c)
    ensures ReportAt(c, f) > t <==> f > FrameByTimestamp(c, t)
  {
    FrameByTimestampForm(c, t);
    ReportStep(c, 0, f);
    DivGalois(t - ReportAt(c, 0), FrameMs(c), f);
    assert FrameMs(c) * f == f * FrameMs(c);
  }

  lemma FrameByTimestampUnique(c: Calendar, t: int, f: int)
    requires ValidCalendar(c)
    ensures f == FrameByTimestamp(c, t) <==> ReportAt(c, f) <= t < ReportAt(c, f + 1)
  {
    FrameByTimestampGalois(c, t, f);
    FrameByTimestampGalois(c, t, f + 1);
  }

  /** An epoch starts at or before a timestamp exactly when it is at most the timestamp's epoch. */
  lemma EpochGalois(c: Calendar, t: int, e: int)
    ensures TimestampByEpoch(c, e) > t <==> e > EpochByTimestamp(c, t)
  {
    CurrentEpochForm(c, t);
    DivGalois(t / 1000 - c.genesisTime, 384, e);
  }

  lemma EpochMonotone(c: Calendar, t: int, t': int)
    requires t <= t'
    ensures EpochByTimestamp(c, t) <= EpochByTimestamp(c, t')
  {
    EpochGalois(c, t, EpochByTimestamp(c, t));
    EpochGalois(c, t', EpochByTimestamp(c, t));
  }

  /**
   * The nested floors agree: the frame of a timestamp, computed in one real division, is the frame
   * of its epoch, computed through whole seconds, slots and epochs.
   */
  lemma FrameOfTimestampEpoch(c: Calendar, t: int)
    requires ValidCalendar(c)
    ensures FrameByTimestamp(c, t) == FrameOfEpoch(c, EpochByTimestamp(c, t)) == FrameOfEpoch(c, CurrentEpoch(c, t))
  {
    CurrentEpochForm(c, t);
    var f := FrameOfEpoch(c, EpochByTimestamp(c, t));
    forall g | g == f || g == f + 1
      ensures ReportAt(c, g) > t <==> g > f
    {
      EpochGalois(c, t, ReportEpoch(c, g));
      FrameOfEpochGalois(c, EpochByTimestamp(c, t), g);
      assert ReportAt(c, g) == TimestampByEpoch(c, ReportEpoch(c, g));
    }
    FrameByTimestampUnique(c, t, f);
  }

  /** Rounding loses nothing for whole-second start points, and half a second otherwise. */
  lemma TimeToBounds(c: Calendar, frame: int, from: int)
    ensures TimeToWithdrawalFrame(c, frame, from) < 0 <==> from > ReportAt(c, frame) + 500
    ensures from % 1000 == 0 ==> TimeToWithdrawalFrame(c, frame, from) == ReportAt(c, frame) - from
  {
    TimeToForm(c, frame, from);
  }

  /** A whole-second lower bound on the exact distance is a bound on the rounded one. */
  lemma TimeToAtLeast(c: Calendar, frame: int, from: int, bound: int)
    requires bound % 1000 == 0
    requires ReportAt(c, frame) - from >= bound
    ensures TimeToWithdrawalFrame(c, frame, from) >= bound
  {
    TimeToForm(c, frame, from);
  }

  lemma TimeToMonotone(c: Calendar, f: int, f': int, from: int)
    requires ValidCalendar(c)
    requires f <= f'
    ensures TimeToWithdrawalFrame(c, f, from) <= TimeToWithdrawalFrame(c, f', from)
  {
    ReportMonotone(c, f', f);
    TimeToForm(c, f, from);
    TimeToForm(c, f', from);
  }

  lemma TimeToAntitone(c: Calendar, frame: int, from: int, from': int)
    requires from <= from'
    ensures TimeToWithdrawalFrame(c, frame, from) >= TimeToWithdrawalFrame(c, frame, from')
  {
    TimeToForm(c, frame, from);
    TimeToForm(c, frame, from');
    DivMonotone(ReportAt(c, frame) - from' + 500, ReportAt(c, frame) - from + 500, 1000);
  }

  // ---- the conversions in seconds since the Unix epoch

  /** The frame of a timestamp is the one between whose start and the next start it lies. */
  lemma FrameInterval(c: Calendar, t: int, f: int)
    requires ValidCalendar(c)
    ensures var start := 1000 * (c.genesisTime + 384 * (c.initialEpoch + f * c.epochsPerFrame));
      && ReportAt(c, f) == start
      && (f == FrameByTimestamp(c, t) <==> start <= t < start + 384_000 * c.epochsPerFrame)
  {
    FrameByTimestampUnique(c, t, f);
    ReportStep(c, f, 1);
  }

  /** The epoch of a timestamp, and the current epoch, are the one of 384 seconds in which it lies. */
  lemma EpochInterval(c: Calendar, t: int, e: int)
    ensures var start := 1000 * (c.genesisTime + 384 * e);
      && TimestampByEpoch(c, e) == start
      && (e == EpochByTimestamp(c, t) <==> start <= t < start + 384_000)
      && (e == CurrentEpoch(c, t) <==> start <= t < start + 384_000)
  {
    CurrentEpochForm(c, t);
    EpochGalois(c, t, e);
    EpochGalois(c, t, e + 1);
  }

  /** The time to a report is the nearest whole number of seconds to it, and the later of two equally near ones. */
  lemma TimeToNearestSecond(c: Calendar, frame: int, from: int)
    ensures var exact := 1000 * (c.genesisTime + 384 * (c.initialEpoch + frame * c.epochsPerFrame)) - from;
      var ms := TimeToWithdrawalFrame(c, frame, from);
      ms % 1000 == 0 && exact - 500 < ms <= exact + 500
  {
    TimeToForm(c, frame, from);
  }
}
