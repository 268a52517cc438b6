// The cache file of the validators storage (ValidatorsCacheService): six fields joined by a divider, one of them
// the frame balances as JSON.

module ValidatorsCache {
  import opened Results
  import opened Decimal
  import opened BalanceMaps
  import opened VS = ValidatorsStorage

  const CACHE_DATA_DIVIDER := '|'
  const CACHE_DATA_LENGTH := 6
  const CACHE_INVALIDATE_TIME := 3 * 3600

  // ---- join and split

  function Join(fields: seq<string>): string {
    if fields == [] then ""
    else if |fields| == 1 then fields[0]
    else fields[0] + [CACHE_DATA_DIVIDER] + Join(fields[1..])
  }

  function Split(s: string): (parts: seq<string>)
    ensures |parts| >= 1
  {
    if s == "" then [""]
    else
      var rest := Split(s[1..]);
      if s[0] == CACHE_DATA_DIVIDER then [""] + rest else [[s[0]] + rest[0]] + rest[1..]
  }

  lemma {:induction false} SplitPlain(s: string)
    ensures CACHE_DATA_DIVIDER !in s ==> Split(s) == [s]
    ensures CACHE_DATA_DIVIDER in s ==> |Split(s)| >= 2
  {
    if s != "" {
      SplitPlain(s[1..]);
      assert s == [s[0]] + s[1..];
    }
  }

  lemma {:induction false} SplitAtDivider(s: string, t: string)
    ensures |Split(s + [CACHE_DATA_DIVIDER] + t)| == |Split(s)| + |Split(t)|
    ensures CACHE_DATA_DIVIDER !in s ==> Split(s + [CACHE_DATA_DIVIDER] + t) == [s] + Split(t)
  {
    var all := s + [CACHE_DATA_DIVIDER] + t;
    if s == "" {
      assert all[1..] == t;
    } else {
      SplitAtDivider(s[1..], t);
      assert all[1..] == s[1..] + [CACHE_DATA_DIVIDER] + t;
      assert s == [s[0]] + s[1..];
    }
  }

  /** None of the fields contains the divider. */
  predicate Plain(fields: seq<string>) {
    forall i :: 0 <= i < |fields| ==> CACHE_DATA_DIVIDER !in fields[i]
  }

  /** Splitting undoes joining exactly when no field contains the divider; otherwise there are too many parts. */
  lemma {:induction false} SplitJoin(fields: seq<string>)
    requires fields != []
    ensures |Split(Join(fields))| >= |fields|
    ensures |Split(Join(fields))| == |fields| <==> Plain(fields)
    ensures Plain(fields) ==> Split(Join(fields)) == fields
  {
    SplitPlain(fields[0]);
    if |fields| > 1 {
      SplitJoin(fields[1..]);
      SplitAtDivider(fields[0], Join(fields[1..]));
      assert fields == [fields[0]] + fields[1..];
      assert Plain(fields) <==> CACHE_DATA_DIVIDER !in fields[0] && Plain(fields[1..]);
    }
  }

  // ---- JSON objects of decimal strings

  type Entry = (int, int)

  function Quoted(s: string): string {
    "\"" + s + "\""
  }

  function PrintEntry(e: Entry): string {
    Quoted(PrintInt(e.0)) + ":" + Quoted(PrintInt(e.1))
  }

  /** The entries, separated by commas and closed by a brace. */
  function PrintEntries(entries: seq<Entry>): string
    requires entries != []
  {
    PrintEntry(entries[0]) + if |entries| == 1 then "}" else "," + PrintEntries(entries[1..])
  }

  /** The entries in the order of Object.keys. */
  function EntriesOf(m: FrameBalances): seq<Entry>
    decreases |m|
  {
    if m.Keys == {} then [] else
      var f := Least(m.Keys);
      [(f, m[f])] + EntriesOf(m - {f})
  }

  /** The object of a list of entries; of equal keys the last wins. */
  function FromEntries(entries: seq<Entry>): FrameBalances {
    if entries == [] then map[] else map[entries[0].0 := entries[0].1] + FromEntries(entries[1..])
  }

  function StringifyFrameBalances(m: FrameBalances): string {
    var entries := EntriesOf(m);
    if entries == [] then "{}" else "{" + PrintEntries(entries)
  }

  /** Reads up to the next quote: the text before it, and what comes after it. */
  function UpToQuote(s: string): (r: Option<(string, string)>)
    ensures r.Some? ==> |r.value.1| < |s|
  {
    if s == "" then None
    else if s[0] == '\"' then Some(("", s[1..]))
    else match UpToQuote(s[1..])
      case None => None
      case Some((text, rest)) => Some(([s[0]] + text, rest))
  }

  /** A quoted numeral, and what comes after it. */
  function ReadNumeral(s: string): (r: Option<(int, string)>)
    ensures r.Some? ==> |r.value.1| < |s|
  {
    if s == "" || s[0] != '\"' then None
    else match UpToQuote(s[1..])
      case None => None
      case Some((text, rest)) =>
        match ParseInt(text)
        case None => None
        case Some(n) => Some((n, rest))
  }

  function ReadEntry(s: string): (r: Option<(Entry, string)>)
    ensures r.Some? ==> |r.value.1| < |s|
  {
    match ReadNumeral(s)
    case None => None
    case Some((frame, rest)) =>
      if rest == "" || rest[0] != ':' then None
      else match ReadNumeral(rest[1..])
        case None => None
        case Some((balance, rest')) => Some(((frame, balance), rest'))
  }

  /** Entries that are separated by commas and closed by a brace. */
  function ParseEntries(s: string): Option<seq<Entry>>
    decreases |s|
  {
    match ReadEntry(s)
    case None => None
    case Some((entry, rest)) =>
      if rest == "}" then Some([entry])
      else if rest == "" || rest[0] != ',' then None
      else match ParseEntries(rest[1..])
        case None => None
        case Some(entries) => Some([entry] + entries)
  }

  function ParseFrameBalances(s: string): Option<FrameBalances> {
    if s == "" || s[0] != '{' then None
    else if s == "{}" then Some(map[])
    else match ParseEntries(s[1..])
      case None => None
      case Some(entries) => Some(FromEntries(entries))
  }

  lemma {:induction false} UpToQuoteReads(text: string, rest: string)
    requires '\"' !in text
    ensures UpToQuote(text + "\"" + rest) == Some((text, rest))
  {
    var all := text + "\"" + rest;
    if text == "" {
      assert all[1..] == rest;
    } else {
      assert text == [text[0]] + text[1..];
      assert all[1..] == text[1..] + "\"" + rest;
      UpToQuoteReads(text[1..], rest);
    }
  }

  lemma ReadNumeralReads(n: int, rest: string)
    ensures ReadNumeral(Quoted(PrintInt(n)) + rest) == Some((n, rest))
  {
    IntRoundTrip(n);
    var all := Quoted(PrintInt(n)) + rest;
    assert all[1..] == PrintInt(n) + "\"" + rest;
    UpToQuoteReads(PrintInt(n), rest);
  }

  lemma ReadEntryReads(e: Entry, rest: string)
    ensures ReadEntry(PrintEntry(e) + rest) == Some((e, rest))
  {
    var value := Quoted(PrintInt(e.1)) + rest;
    assert PrintEntry(e) + rest == Quoted(PrintInt(e.0)) + (":" + value);
    ReadNumeralReads(e.0, ":" + value);
    assert (":" + value)[1..] == value;
    ReadNumeralReads(e.1, rest);
  }

  lemma ParseLast(e: Entry)
    ensures ParseEntries(PrintEntry(e) + "}") == Some([e])
  {
    ReadEntryReads(e, "}");
  }

  lemma ParseMore(e: Entry, tail: string, entries: seq<Entry>)
    requires ParseEntries(tail) == Some(entries)
    ensures ParseEntries(PrintEntry(e) + ("," + tail)) == Some([e] + entries)
  {
    ReadEntryReads(e, "," + tail);
    assert ("," + tail)[1..] == tail;
    assert ("," + tail)[0] != "}"[0];
  }

  lemma {:induction false} ParseEntriesReads(entries: seq<Entry>)
    requires entries != []
    ensures ParseEntries(PrintEntries(entries)) == Some(entries)
  {
    if |entries| == 1 {
      ParseLast(entries[0]);
      assert [entries[0]] == entries;
    } else {
      ParseEntriesReads(entries[1..]);
      ParseMore(entries[0], PrintEntries(entries[1..]), entries[1..]);
      assert [entries[0]] + entries[1..] == entries;
    }
  }

  lemma PutBack(m: FrameBalances, f: int)
    requires f in m
    ensures map[f := m[f]] + (m - {f}) == m
  {
  }

  lemma {:induction false} EntriesRoundTrip(m: FrameBalances)
    ensures FromEntries(EntriesOf(m)) == m
    decreases |m|
  {
    if m.Keys != {} {
      var f := Least(m.Keys);
      EntriesRoundTrip(m - {f});
      assert EntriesOf(m)[1..] == EntriesOf(m - {f});
      PutBack(m, f);
    }
  }

  lemma {:induction false} EntriesPlain(entries: seq<Entry>)
    requires entries != []
    ensures CACHE_DATA_DIVIDER !in PrintEntries(entries)
    ensures |PrintEntries(entries)| > 1
  {
    IntRoundTrip(entries[0].0);
    IntRoundTrip(entries[0].1);
    assert CACHE_DATA_DIVIDER !in PrintEntry(entries[0]) && PrintEntry(entries[0]) != "";
    if |entries| > 1 {
      EntriesPlain(entries[1..]);
    }
  }

  /** A frame-to-balance map of any size survives stringification and parsing, and its text has no divider. */
  lemma FrameBalancesRoundTrip(m: FrameBalances)
    ensures ParseFrameBalances(StringifyFrameBalances(m)) == Some(m)
    ensures CACHE_DATA_DIVIDER !in StringifyFrameBalances(m)
  {
    var entries := EntriesOf(m);
    EntriesRoundTrip(m);
    if entries != [] {
      EntriesPlain(entries);
      ParseEntriesReads(entries);
      var s := StringifyFrameBalances(m);
      assert s[1..] == PrintEntries(entries);
      assert |s| > 2;
    }
  }

  // ---- the cache file

  /** The six persisted fields of the storage. */
  datatype Persisted = Persisted(
    activeValidatorsCount: Number,
    maxExitEpoch: string,
    lastUpdate: Number,
    frameBalances: FrameBalances,
    sweepMeanEpochs: Number,
    churnLimit: Number)

  function PrintNumber(n: Number): string {
    match n
    case NaN => "NaN"
    case Num(value) => PrintInt(value)
  }

  /** Number(string), for the texts that numbers are printed as. */
  function ToNumber(s: string): Number {
    if s == "" then Num(0) else
      match ParseInt(s)
      case None => NaN
      case Some(n) => Num(n)
  }

  function Fields(p: Persisted): seq<string> {
    [PrintNumber(p.activeValidatorsCount), p.maxExitEpoch, PrintNumber(p.lastUpdate),
     StringifyFrameBalances(p.frameBalances), PrintNumber(p.sweepMeanEpochs), PrintNumber(p.churnLimit)]
  }

  predicate IsFresh(lastUpdate: Number, now: int) {
    lastUpdate.Num? && now - lastUpdate.value < CACHE_INVALIDATE_TIME
  }

  /** The persisted fields after a restore from a file, if there is one. Broken balances leave a partial restore. */
  function Restored(p: Persisted, file: Option<string>, now: int): Persisted {
    if file.None? then p else
      var data := Split(file.value);
      if |data| != CACHE_DATA_LENGTH || !IsFresh(ToNumber(data[2]), now) then p else
        var partial := p.(activeValidatorsCount := ToNumber(data[0]), maxExitEpoch := data[1],
                          lastUpdate := ToNumber(data[2]));
        match ParseFrameBalances(data[3])
        case None => partial
        case Some(m) =>
          partial.(frameBalances := m, sweepMeanEpochs := ToNumber(data[4]), churnLimit := ToNumber(data[5]))
  }

  function StateOf(storage: VS.Storage): Persisted
    reads storage
  {
    Persisted(storage.activeValidatorsCount, storage.maxExitEpoch, storage.lastUpdate, storage.frameBalances,
              storage.sweepMeanEpochs, storage.churnLimit)
  }

  method SaveDataToCache(storage: VS.Storage) returns (file: string)
    ensures file == Join(Fields(StateOf(storage)))
    ensures file == PrintNumber(storage.activeValidatorsCount) + "|" + storage.maxExitEpoch + "|"
                    + PrintNumber(storage.lastUpdate) + "|" + StringifyFrameBalances(storage.frameBalances) + "|"
                    + PrintNumber(storage.sweepMeanEpochs) + "|" + PrintNumber(storage.churnLimit)
  {
    file := Join([
      PrintNumber(storage.activeValidatorsCount),
      storage.maxExitEpoch,
      PrintNumber(storage.lastUpdate),
      StringifyFrameBalances(storage.frameBalances),
      PrintNumber(storage.sweepMeanEpochs),
      PrintNumber(storage.churnLimit)]);
    JoinSix(Fields(StateOf(storage)));
  }

  lemma JoinSix(f: seq<string>)
    requires |f| == 6
    ensures Join(f) == f[0] + "|" + f[1] + "|" + f[2] + "|" + f[3] + "|" + f[4] + "|" + f[5]
  {
    assert f[1..][1..] == f[2..] && f[2..][1..] == f[3..] && f[3..][1..] == f[4..] && f[4..][1..] == f[5..];
    assert Join(f[4..]) == f[4] + "|" + f[5];
    assert Join(f[2..]) == f[2] + "|" + (f[3] + "|" + Join(f[4..]));
    assert Join(f) == f[0] + "|" + (f[1] + "|" + Join(f[2..]));
  }

  /** `file` is None when opening or reading the cache file throws. */
  method InitializeFromCache(storage: VS.Storage, file: Option<string>, now: int)
    modifies storage
    ensures StateOf(storage) == Restored(old(StateOf(storage)), file, now)
    ensures unchanged(storage`totalValidatorsCount, storage`withdrawableLidoValidatorIds)
  {
    if file.None? {
      return;
    }
    var data := Split(file.value);
    if |data| != CACHE_DATA_LENGTH {
      return;
    }
    var lastUpdate := ToNumber(data[2]);
    var isDataValid := lastUpdate.Num? && now - lastUpdate.value < CACHE_INVALIDATE_TIME;
    if !isDataValid {
      return;
    }
    storage.activeValidatorsCount := ToNumber(data[0]);
    storage.maxExitEpoch := data[1];
    storage.lastUpdate := ToNumber(data[2]);
    var frameBalances := ParseFrameBalances(data[3]);
    if frameBalances.None? {
      return;
    }
    storage.frameBalances := frameBalances.value;
    storage.sweepMeanEpochs := ToNumber(data[4]);
    storage.churnLimit := ToNumber(data[5]);
  }

  lemma NumberRoundTrip(n: Number)
    ensures ToNumber(PrintNumber(n)) == n
    ensures CACHE_DATA_DIVIDER !in PrintNumber(n)
  {
    match n
    case NaN =>
      assert ParseDigit("NaN"[2]) == None;
    case Num(value) => IntRoundTrip(value);
  }

  /** The printed file splits into the six fields exactly when the exit epoch has no divider. */
  lemma FileSplitsIntoFields(p: Persisted)
    ensures |Split(Join(Fields(p)))| == CACHE_DATA_LENGTH <==> CACHE_DATA_DIVIDER !in p.maxExitEpoch
    ensures CACHE_DATA_DIVIDER !in p.maxExitEpoch ==> Split(Join(Fields(p))) == Fields(p)
  {
    var f := Fields(p);
    NumberRoundTrip(p.activeValidatorsCount);
    NumberRoundTrip(p.lastUpdate);
    NumberRoundTrip(p.sweepMeanEpochs);
    NumberRoundTrip(p.churnLimit);
    FrameBalancesRoundTrip(p.frameBalances);
    SplitJoin(f);
    assert f[1] == p.maxExitEpoch;
  }

  /**
   * Restoring a saved state gives back all six fields when it is younger than three hours and its exit epoch has no
   * divider, as a decimal numeral never has; otherwise it changes nothing.
   */
  lemma SavedStateIsRestored(saved: Persisted, current: Persisted, now: int)
    ensures Restored(current, Some(Join(Fields(saved))), now)
         == if saved.lastUpdate.Num? && now - saved.lastUpdate.value < 10_800 && '|' !in saved.maxExitEpoch then saved
            else current
  {
    FileSplitsIntoFields(saved);
    NumberRoundTrip(saved.activeValidatorsCount);
    NumberRoundTrip(saved.lastUpdate);
    NumberRoundTrip(saved.sweepMeanEpochs);
    NumberRoundTrip(saved.churnLimit);
    FrameBalancesRoundTrip(saved.frameBalances);
  }

  /** What a restore does with the texts of six fields: nothing when they are stale, and broken balances stop it. */
  lemma RestoredFromTexts(current: Persisted, data: seq<string>, now: int)
    requires |data| == 6 && forall i :: 0 <= i < 6 ==> '|' !in data[i]
    ensures var file := data[0] + "|" + data[1] + "|" + data[2] + "|" + data[3] + "|" + data[4] + "|" + data[5];
      var lastUpdate := ToNumber(data[2]);
      Restored(current, Some(file), now)
      == if lastUpdate == NaN || now - lastUpdate.value >= 10_800 then current
         else
           var first := current.(activeValidatorsCount := ToNumber(data[0]), maxExitEpoch := data[1],
                                 lastUpdate := lastUpdate);
           match ParseFrameBalances(data[3])
           case None => first
           case Some(m) =>
             first.(frameBalances := m, sweepMeanEpochs := ToNumber(data[4]), churnLimit := ToNumber(data[5]))
  {
    JoinSix(data);
    SplitJoin(data);
  }

  /** A file that does not have five dividers, or that cannot be read, changes nothing. */
  lemma OtherFilesChangeNothing(current: Persisted, file: Option<string>, now: int)
    requires file.Some? ==> |Split(file.value)| != 6
    ensures Restored(current, file, now) == current
  {
  }

  /** The JSON text of a map with two frames: quoted numerals, colons, a comma and braces. */
  lemma TwoFramesText(f: int, a: int, g: int, b: int)
    requires f < g
    ensures var first := "\"" + PrintInt(f) + "\":\"" + PrintInt(a) + "\"";
      var second := "\"" + PrintInt(g) + "\":\"" + PrintInt(b) + "\"";
      StringifyFrameBalances(map[f := a, g := b]) == "{" + (first + ("," + (second + "}")))
  {
    TwoEntries(f, a, g, b);
    EntryText(f, a);
    EntryText(g, b);
    PrintTwoEntries((f, a), (g, b));
  }

  lemma PrintTwoEntries(e: Entry, e': Entry)
    ensures PrintEntries([e, e']) == PrintEntry(e) + ("," + (PrintEntry(e') + "}"))
  {
    assert [e, e'][1..] == [e'];
  }

  lemma EntryText(f: int, a: int)
    ensures PrintEntry((f, a)) == "\"" + PrintInt(f) + "\":\"" + PrintInt(a) + "\""
  {
    assert "\":\"" == "\"" + ":" + "\"";
  }

  lemma TwoEntries(f: int, a: int, g: int, b: int)
    requires f < g
    ensures EntriesOf(map[f := a, g := b]) == [(f, a), (g, b)]
  {
    var m: FrameBalances := map[f := a, g := b];
    var rest := m - {f};
    assert m.Keys == {f, g} && Least(m.Keys) == f;
    assert rest.Keys == {g} && Least(rest.Keys) == g;
    assert (rest - {g}).Keys == {};
    assert EntriesOf(rest) == [(g, b)];
  }
}
