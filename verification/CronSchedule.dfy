// buildCron: a daily schedule with one run half an hour after the start of every VEBO frame.

module CronSchedule {
  import opened FloorArithmetic
  import opened GenesisTime

  const UPDATE_DELAY_MS := 30 * 60 * 1000
  const SECONDS_PER_DAY := 24 * 60 * 60

  /** The cron expression `<minute> <hour> * * *`, with the second of the day it was made from. */
  datatype CronEntry = CronEntry(sortKey: int, minute: int, hour: int)

  function CronAt(runAtSecondOfDay: int): CronEntry {
    CronEntry(runAtSecondOfDay, runAtSecondOfDay % 3600 / 60, runAtSecondOfDay / 3600)
  }

  /** The UTC hours, minutes and seconds of a Date, as seconds of the day. */
  function UTCSecondOfDay(ms: int): int {
    var hours, minutes, seconds := ms / 3_600_000 % 24, ms / 60_000 % 60, ms / 1000 % 60;
    hours * 3600 + minutes * 60 + seconds
  }

  /** Stable insertion for Array.sort by sortKey. */
  function Insert(e: CronEntry, sorted: seq<CronEntry>): seq<CronEntry> {
    if sorted == [] || e.sortKey < sorted[0].sortKey then [e] + sorted
    else [sorted[0]] + Insert(e, sorted[1..])
  }

  function Sort(entries: seq<CronEntry>): seq<CronEntry> {
    if entries == [] then [] else Insert(entries[|entries| - 1], Sort(entries[..|entries| - 1]))
  }

  function FirstRun(c: Calendar, newInitialEpoch: int): int {
    UTCSecondOfDay(TimestampByEpoch(c, newInitialEpoch) + UPDATE_DELAY_MS)
  }

  function RunAt(firstRun: int, index: int, eachSec: int): int {
    (firstRun + index * eachSec) % SECONDS_PER_DAY
  }

  function BuildCron(c: Calendar, newInitialEpoch: int, newEpochsPerFrame: int): seq<CronEntry> {
    var eachSec := newEpochsPerFrame * SLOTS_PER_EPOCH * SECONDS_PER_SLOT;
    // a remainder by zero is NaN, and an array of negative length is empty
    if eachSec <= 0 || SECONDS_PER_DAY % eachSec != 0 then [] else
      var first := FirstRun(c, newInitialEpoch);
      Sort(seq(SECONDS_PER_DAY / eachSec, index => CronAt(RunAt(first, index, eachSec))))
  }

  // ---- sorting

  predicate Ascending(s: seq<CronEntry>) {
    forall i, j :: 0 <= i < j < |s| ==> s[i].sortKey < s[j].sortKey
  }

  predicate DistinctKeys(s: seq<CronEntry>) {
    forall i, j :: 0 <= i < j < |s| ==> s[i].sortKey != s[j].sortKey
  }

  lemma {:induction false} InsertSorts(e: CronEntry, s: seq<CronEntry>)
    requires Ascending(s)
    requires forall x :: x in s ==> x.sortKey != e.sortKey
    ensures Ascending(Insert(e, s))
    ensures |Insert(e, s)| == |s| + 1
    ensures forall x :: x in Insert(e, s) <==> x == e || x in s
  {
    if s != [] && e.sortKey >= s[0].sortKey {
      InsertSorts(e, s[1..]);
      assert s == [s[0]] + s[1..];
      var t := Insert(e, s[1..]);
      forall j | 0 <= j < |t|
        ensures s[0].sortKey < t[j].sortKey
      {
        assert t[j] in t;
        if t[j] != e {
          var k :| 0 <= k < |s[1..]| && s[1..][k] == t[j];
          assert s[k + 1] == t[j];
        }
      }
    } else {
      assert Insert(e, s) == [e] + s;
    }
  }

  lemma {:induction false} SortSorts(s: seq<CronEntry>)
    requires DistinctKeys(s)
    ensures Ascending(Sort(s))
    ensures |Sort(s)| == |s|
    ensures forall x :: x in Sort(s) <==> x in s
  {
    if s != [] {
      SortSorts(s[..|s| - 1]);
      InsertSorts(s[|s| - 1], Sort(s[..|s| - 1]));
      assert s == s[..|s| - 1] + [s[|s| - 1]];
    }
  }

  // ---- the run times

  lemma UTCSecondForm(ms: int)
    ensures UTCSecondOfDay(ms) == ms / 1000 % SECONDS_PER_DAY
  {
    NestedDiv(ms, 1000, 60);
    NestedDiv(ms, 1000, 3600);
    ModSplit(ms / 1000, 3600, 24);
    ModSplit(ms / 1000, 60, 60);
  }

  lemma LaterSecond(ms: int, seconds: int)
    ensures UTCSecondOfDay(ms + 1000 * seconds) == (UTCSecondOfDay(ms) + seconds) % SECONDS_PER_DAY
  {
    UTCSecondForm(ms);
    UTCSecondForm(ms + 1000 * seconds);
    DivShift(ms, 1000, seconds);
    ModShift(UTCSecondOfDay(ms) + seconds, SECONDS_PER_DAY, ms / 1000 / SECONDS_PER_DAY);
  }

  /** The second of the day at which the run of a VEBO frame is due. */
  function DueAt(c: Calendar, newInitialEpoch: int, newEpochsPerFrame: int, frame: int): int {
    UTCSecondOfDay(TimestampByEpoch(c, newInitialEpoch + frame * newEpochsPerFrame) + UPDATE_DELAY_MS)
  }

  /** It is 30 minutes after the start of the frame. */
  lemma DueHalfAnHourLater(c: Calendar, newInitialEpoch: int, newEpochsPerFrame: int, frame: int)
    ensures DueAt(c, newInitialEpoch, newEpochsPerFrame, frame)
         == (c.genesisTime + 384 * (newInitialEpoch + frame * newEpochsPerFrame) + 1800) % 86_400
  {
    var start := c.genesisTime + 384 * (newInitialEpoch + frame * newEpochsPerFrame);
    UTCSecondForm(1000 * (start + 1800));
    DivUnique(1000 * (start + 1800), 1000, start + 1800);
  }

  /** The runs of the frames advance by one frame length around the day. */
  lemma DueAtForm(c: Calendar, newInitialEpoch: int, newEpochsPerFrame: int, frame: int)
    ensures DueAt(c, newInitialEpoch, newEpochsPerFrame, frame)
         == RunAt(FirstRun(c, newInitialEpoch), frame, newEpochsPerFrame * SLOTS_PER_EPOCH * SECONDS_PER_SLOT)
  {
    var base := TimestampByEpoch(c, newInitialEpoch) + UPDATE_DELAY_MS;
    var seconds := frame * newEpochsPerFrame * 384;
    assert frame * (newEpochsPerFrame * SLOTS_PER_EPOCH * SECONDS_PER_SLOT) == seconds;
    LaterSecond(base, seconds);
  }

  /** Every run is a frame length times some position of the day after the earliest run of the day. */
  lemma RunPosition(firstRun: int, frame: int, eachSec: int) returns (position: int)
    requires eachSec > 0 && SECONDS_PER_DAY % eachSec == 0
    ensures 0 <= position < SECONDS_PER_DAY / eachSec
    ensures RunAt(firstRun, frame, eachSec) == firstRun % eachSec + position * eachSec
  {
    var run, runs := RunAt(firstRun, frame, eachSec), SECONDS_PER_DAY / eachSec;
    assert SECONDS_PER_DAY == eachSec * runs;
    var days := (firstRun + frame * eachSec) / SECONDS_PER_DAY;
    assert run == firstRun + frame * eachSec - SECONDS_PER_DAY * days;
    assert run == firstRun + eachSec * (frame - runs * days) by {
      assert eachSec * (frame - runs * days) == frame * eachSec - eachSec * runs * days;
    }
    ModShift(firstRun, eachSec, frame - runs * days);
    position := run / eachSec;
    DivGalois(run, eachSec, 0);
    DivGalois(run, eachSec, runs);
    assert run == eachSec * position + run % eachSec;
  }

  /** Frames that differ by less than a day's runs are due at different times. */
  lemma DifferentRuns(firstRun: int, i: int, j: int, eachSec: int)
    requires eachSec > 0 && SECONDS_PER_DAY % eachSec == 0
    requires 0 <= i < j < SECONDS_PER_DAY / eachSec
    ensures RunAt(firstRun, i, eachSec) != RunAt(firstRun, j, eachSec)
  {
    var runs := SECONDS_PER_DAY / eachSec;
    assert SECONDS_PER_DAY == runs * eachSec;
    LargerMultiple(i, j, eachSec);
    LargerMultiple(j - i, runs, eachSec);
    Distribute(j, i, eachSec);
    DifferentSteps(firstRun + i * eachSec, 0, j * eachSec - i * eachSec, SECONDS_PER_DAY);
  }

  // ---- the schedule

  /** Distinct positions 0 .. n - 1, in ascending order, are just 0, 1, ..., n - 1. */
  lemma {:induction false} AscendingFillsRange(q: seq<int>, i: nat)
    requires i < |q|
    requires forall j, k :: 0 <= j < k < |q| ==> q[j] < q[k]
    requires forall j :: 0 <= j < |q| ==> 0 <= q[j] < |q|
    ensures q[i] == i
  {
    AtLeastIndex(q, i);
    AtMostIndex(q, i);
  }

  lemma {:induction false} AtLeastIndex(q: seq<int>, i: nat)
    requires i < |q|
    requires forall j, k :: 0 <= j < k < |q| ==> q[j] < q[k]
    requires forall j :: 0 <= j < |q| ==> 0 <= q[j]
    ensures q[i] >= i
  {
    if i > 0 {
      AtLeastIndex(q, i - 1);
    }
  }

  lemma {:induction false} AtMostIndex(q: seq<int>, i: nat)
    requires i < |q|
    requires forall j, k :: 0 <= j < k < |q| ==> q[j] < q[k]
    requires forall j :: 0 <= j < |q| ==> q[j] < |q|
    ensures q[i] <= i
    decreases |q| - i
  {
    if i < |q| - 1 {
      AtMostIndex(q, i + 1);
    }
  }

  /** The frame length divides a day. */
  predicate DividesDay(newEpochsPerFrame: int) {
    var eachSec := newEpochsPerFrame * SLOTS_PER_EPOCH * SECONDS_PER_SLOT;
    eachSec > 0 && SECONDS_PER_DAY % eachSec == 0
  }

  lemma UnsortedEntries(c: Calendar, newInitialEpoch: int, newEpochsPerFrame: int) returns (entries: seq<CronEntry>)
    requires DividesDay(newEpochsPerFrame)
    ensures var eachSec := newEpochsPerFrame * SLOTS_PER_EPOCH * SECONDS_PER_SLOT;
      && |entries| == SECONDS_PER_DAY / eachSec > 0
      && forall i :: 0 <= i < |entries| ==>
           entries[i] == CronAt(RunAt(FirstRun(c, newInitialEpoch), i, eachSec))
    ensures DistinctKeys(entries)
    ensures BuildCron(c, newInitialEpoch, newEpochsPerFrame) == Sort(entries)
  {
    var eachSec := newEpochsPerFrame * SLOTS_PER_EPOCH * SECONDS_PER_SLOT;
    var first := FirstRun(c, newInitialEpoch);
    entries := seq(SECONDS_PER_DAY / eachSec, index => CronAt(RunAt(first, index, eachSec)));
    DivGalois(SECONDS_PER_DAY, eachSec, 0);
    forall i, j | 0 <= i < j < |entries|
      ensures entries[i].sortKey != entries[j].sortKey
    {
      DifferentRuns(first, i, j, eachSec);
    }
  }

  /** Every entry of the schedule lies a whole number of frames after the earliest run of the day. */
  lemma EntryPosition(entries: seq<CronEntry>, entry: CronEntry, first: int, eachSec: int) returns (position: int)
    requires eachSec > 0 && SECONDS_PER_DAY % eachSec == 0
    requires forall i :: 0 <= i < |entries| ==> entries[i] == CronAt(RunAt(first, i, eachSec))
    requires entry in entries
    ensures 0 <= position < SECONDS_PER_DAY / eachSec
    ensures entry == CronAt(first % eachSec + position * eachSec)
  {
    var frame :| 0 <= frame < |entries| && entries[frame] == entry;
    position := RunPosition(first, frame, eachSec);
  }

  lemma {:induction false} EntryPositions(entries: seq<CronEntry>, cron: seq<CronEntry>, first: int, eachSec: int)
    returns (positions: seq<int>)
    requires eachSec > 0 && SECONDS_PER_DAY % eachSec == 0
    requires forall i :: 0 <= i < |entries| ==> entries[i] == CronAt(RunAt(first, i, eachSec))
    requires forall i :: 0 <= i < |cron| ==> cron[i] in entries
    ensures |positions| == |cron|
    ensures forall i :: 0 <= i < |cron| ==>
      0 <= positions[i] < SECONDS_PER_DAY / eachSec && cron[i] == CronAt(first % eachSec + positions[i] * eachSec)
  {
    if cron == [] {
      positions := [];
    } else {
      var front := EntryPositions(entries, cron[..|cron| - 1], first, eachSec);
      var position := EntryPosition(entries, cron[|cron| - 1], first, eachSec);
      positions := front + [position];
    }
  }

  /** The schedule is empty exactly when the frame length does not divide a day. */
  lemma EmptyIffDayNotDivided(c: Calendar, newInitialEpoch: int, newEpochsPerFrame: int)
    ensures BuildCron(c, newInitialEpoch, newEpochsPerFrame) == []
            <==> newEpochsPerFrame <= 0 || 86_400 % (384 * newEpochsPerFrame) != 0
  {
    if DividesDay(newEpochsPerFrame) {
      var entries := UnsortedEntries(c, newInitialEpoch, newEpochsPerFrame);
      SortSorts(entries);
    }
  }

  /**
   * The schedule starts at the earliest run of the day and continues at the distance of a frame, in strictly
   * ascending order, until the day is full.
   */
  lemma ScheduleIsEvenlySpaced(c: Calendar, newInitialEpoch: int, newEpochsPerFrame: int)
    requires DividesDay(newEpochsPerFrame)
    ensures var cron := BuildCron(c, newInitialEpoch, newEpochsPerFrame);
      var eachSec := newEpochsPerFrame * SLOTS_PER_EPOCH * SECONDS_PER_SLOT;
      && Ascending(cron)
      && |cron| == SECONDS_PER_DAY / eachSec
      && forall i :: 0 <= i < |cron| ==>
           cron[i] == CronAt(FirstRun(c, newInitialEpoch) % eachSec + i * eachSec)
  {
    var eachSec := newEpochsPerFrame * SLOTS_PER_EPOCH * SECONDS_PER_SLOT;
    var first := FirstRun(c, newInitialEpoch);
    var entries := UnsortedEntries(c, newInitialEpoch, newEpochsPerFrame);
    SortSorts(entries);
    var cron := Sort(entries);
    assert forall i :: 0 <= i < |cron| ==> cron[i] in cron;
    var positions := EntryPositions(entries, cron, first, eachSec);
    SpacedPositions(cron, positions, first % eachSec, eachSec);
  }

  lemma SpacedPositions(cron: seq<CronEntry>, positions: seq<int>, start: int, eachSec: int)
    requires Ascending(cron) && |positions| == |cron| && eachSec > 0
    requires forall i :: 0 <= i < |positions| ==>
      0 <= positions[i] < |cron| && cron[i] == CronAt(start + positions[i] * eachSec)
    ensures forall i :: 0 <= i < |cron| ==> cron[i] == CronAt(start + i * eachSec)
  {
    forall j, k | 0 <= j < k < |positions|
      ensures positions[j] < positions[k]
    {
      assert cron[j].sortKey < cron[k].sortKey;
      OrderOfMultiples(positions[j], positions[k], eachSec);
    }
    forall i | 0 <= i < |cron|
      ensures positions[i] == i
    {
      AscendingFillsRange(positions, i);
    }
  }

  lemma OrderOfMultiples(a: int, b: int, n: int)
    requires n > 0
    ensures a * n < b * n <==> a < b
    ensures a != b ==> a * n >= b * n + n || b * n >= a * n + n
  {
    if a < b {
      LargerMultiple(a, b, n);
    } else if a > b {
      LargerMultiple(b, a, n);
    }
  }

  /** A cron entry fires for the whole minute it names. */
  predicate InMinuteOf(entry: CronEntry, secondOfDay: int) {
    var start := entry.hour * 3600 + entry.minute * 60;
    start <= secondOfDay < start + 60
  }

  /** Every VEBO frame of all time is due, 30 minutes after its start, in the minute of exactly one entry. */
  lemma EveryFrameHasOneRun(c: Calendar, newInitialEpoch: int, newEpochsPerFrame: int, frame: int)
    requires DividesDay(newEpochsPerFrame)
    ensures var cron := BuildCron(c, newInitialEpoch, newEpochsPerFrame);
      var due := (c.genesisTime + 384 * (newInitialEpoch + frame * newEpochsPerFrame) + 1800) % 86_400;
      exists i :: && 0 <= i < |cron| && cron[i].sortKey == due && InMinuteOf(cron[i], due)
                  && forall j :: 0 <= j < |cron| && InMinuteOf(cron[j], due) ==> j == i
  {
    var cron := BuildCron(c, newInitialEpoch, newEpochsPerFrame);
    var eachSec := newEpochsPerFrame * SLOTS_PER_EPOCH * SECONDS_PER_SLOT;
    var first := FirstRun(c, newInitialEpoch);
    ScheduleIsEvenlySpaced(c, newInitialEpoch, newEpochsPerFrame);
    DueAtForm(c, newInitialEpoch, newEpochsPerFrame, frame);
    DueHalfAnHourLater(c, newInitialEpoch, newEpochsPerFrame, frame);
    var i := RunPosition(first, frame, eachSec);
    var due := DueAt(c, newInitialEpoch, newEpochsPerFrame, frame);
    assert cron[i].sortKey == due && InMinuteOf(cron[i], due);
    forall j | 0 <= j < |cron| && InMinuteOf(cron[j], due)
      ensures j == i
    {
      OrderOfMultiples(i, j, eachSec);
      assert cron[j].sortKey - 60 < due < cron[j].sortKey + 60;
    }
  }

  /** Every entry is a time of the day, and is there because of some frame, which is due at its very second. */
  lemma EveryRunHasAFrame(c: Calendar, newInitialEpoch: int, newEpochsPerFrame: int, i: nat)
    requires i < |BuildCron(c, newInitialEpoch, newEpochsPerFrame)|
    ensures exists frame :: 0 <= frame < |BuildCron(c, newInitialEpoch, newEpochsPerFrame)|
                            && DueAt(c, newInitialEpoch, newEpochsPerFrame, frame)
                               == BuildCron(c, newInitialEpoch, newEpochsPerFrame)[i].sortKey
    ensures var entry := BuildCron(c, newInitialEpoch, newEpochsPerFrame)[i];
      0 <= entry.hour < 24 && 0 <= entry.minute < 60 && InMinuteOf(entry, entry.sortKey)
  {
    ScheduleIsEvenlySpaced(c, newInitialEpoch, newEpochsPerFrame);
    var entries := UnsortedEntries(c, newInitialEpoch, newEpochsPerFrame);
    SortSorts(entries);
    var entry := Sort(entries)[i];
    assert entry in entries;
    var frame :| 0 <= frame < |entries| && entries[frame] == entry;
    DueAtForm(c, newInitialEpoch, newEpochsPerFrame, frame);
  }
}
