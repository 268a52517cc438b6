// The frame-balance jobs of ValidatorsService: a full scan of the Lido validators, and a batched
// refresh of the recorded ids. Validator balances are in gwei, frame balances in wei.

module FrameBalancesJob {
  import opened FloorArithmetic
  import opened GenesisTime
  import opened BalanceMaps
  import opened SweepProjection
  import VS = ValidatorsStorage

  const FAR_FUTURE_EPOCH := 0xFFFF_FFFF_FFFF_FFFF
  const GWEI := 1_000_000_000
  const BATCH_SIZE := 20

  datatype Validator = Validator(index: int, withdrawableEpoch: int, balance: int)

  /** Everything a charge depends on besides the validator: the calendar, the sweep state and the time. */
  datatype Snapshot = Snapshot(calendar: Calendar, sweep: Sweep, now: int)

  predicate ValidSnapshot(x: Snapshot) {
    ValidCalendar(x.calendar) && Valid(x.sweep, DEFAULT_PACE)
  }

  function ParseGwei(balance: int): int {
    balance * GWEI
  }

  function FrameOf(x: Snapshot, v: Validator): int
    requires ValidSnapshot(x)
  {
    ChargedFrame(x.calendar, ValidatorWithdrawalTimestamp(x.sweep, DEFAULT_PACE, v.index, v.withdrawableEpoch, x.now))
  }

  predicate IsWithdrawable(v: Validator) {
    v.withdrawableEpoch != FAR_FUTURE_EPOCH && v.balance > 0
  }

  function Withdrawable(vs: seq<Validator>): seq<Validator> {
    if vs == [] then [] else
      var front, last := Withdrawable(vs[..|vs| - 1]), vs[|vs| - 1];
      if IsWithdrawable(last) then front + [last] else front
  }

  function Ids(vs: seq<Validator>): seq<int> {
    seq(|vs|, i requires 0 <= i < |vs| => vs[i].index)
  }

  // ---- the specification: what every frame is charged with

  function Share(x: Snapshot, v: Validator, f: int): int
    requires ValidSnapshot(x)
  {
    if FrameOf(x, v) == f then ParseGwei(v.balance) else 0
  }

  function Charged(x: Snapshot, vs: seq<Validator>, f: int): int
    requires ValidSnapshot(x)
  {
    if vs == [] then 0 else Charged(x, vs[..|vs| - 1], f) + Share(x, vs[|vs| - 1], f)
  }

  function FramesOf(x: Snapshot, vs: seq<Validator>): set<int>
    requires ValidSnapshot(x)
  {
    set v | v in vs :: FrameOf(x, v)
  }

  /** One entry for every frame some validator is charged to, holding all that is charged to it. */
  function FrameTotals(x: Snapshot, vs: seq<Validator>): FrameBalances
    requires ValidSnapshot(x)
  {
    map f | f in FramesOf(x, vs) :: Charged(x, vs, f)
  }

  function TotalBalance(vs: seq<Validator>): int {
    if vs == [] then 0 else TotalBalance(vs[..|vs| - 1]) + ParseGwei(vs[|vs| - 1].balance)
  }

  // ---- what every frame is charged with, by its report

  /** The report of the frame is the first one after the sweep of the validator. */
  predicate PaidInReport(x: Snapshot, v: Validator, f: int)
    requires ValidSnapshot(x)
  {
    var eta := ValidatorWithdrawalTimestamp(x.sweep, Pace(16, 32, 12), v.index, v.withdrawableEpoch, x.now);
    ReportAt(x.calendar, f - 1) <= eta < ReportAt(x.calendar, f)
  }

  /** The wei that the validators with this report hold. */
  function PaidAt(x: Snapshot, vs: seq<Validator>, f: int): int
    requires ValidSnapshot(x)
  {
    if vs == [] then 0 else
      var last := vs[|vs| - 1];
      PaidAt(x, vs[..|vs| - 1], f) + if PaidInReport(x, last, f) then last.balance * 1_000_000_000 else 0
  }

  /** There is an entry for exactly the frames in whose report some validator is paid, with all that is paid in it. */
  ghost predicate ChargesReports(m: FrameBalances, x: Snapshot, vs: seq<Validator>)
    requires ValidSnapshot(x)
  {
    && (forall f :: f in m <==> exists v :: v in vs && PaidInReport(x, v, f))
    && forall f :: f in m ==> m[f] == PaidAt(x, vs, f)
  }

  lemma FrameOfIsReport(x: Snapshot, v: Validator, f: int)
    requires ValidSnapshot(x)
    ensures PaidInReport(x, v, f) <==> FrameOf(x, v) == f
  {
    var eta := ValidatorWithdrawalTimestamp(x.sweep, DEFAULT_PACE, v.index, v.withdrawableEpoch, x.now);
    FrameByTimestampUnique(x.calendar, eta, f - 1);
  }

  lemma {:induction false} ChargedIsPaid(x: Snapshot, vs: seq<Validator>, f: int)
    requires ValidSnapshot(x)
    ensures Charged(x, vs, f) == PaidAt(x, vs, f)
  {
    if vs != [] {
      ChargedIsPaid(x, vs[..|vs| - 1], f);
      FrameOfIsReport(x, vs[|vs| - 1], f);
    }
  }

  lemma TotalsChargeReports(x: Snapshot, vs: seq<Validator>)
    requires ValidSnapshot(x)
    ensures ChargesReports(FrameTotals(x, vs), x, vs)
  {
    forall f
      ensures Charged(x, vs, f) == PaidAt(x, vs, f)
      ensures f in FramesOf(x, vs) <==> exists v :: v in vs && PaidInReport(x, v, f)
    {
      ChargedIsPaid(x, vs, f);
      forall v
        ensures PaidInReport(x, v, f) <==> FrameOf(x, v) == f
      {
        FrameOfIsReport(x, v, f);
      }
    }
  }

  /** Every validator is paid in a report after now and after the start of its withdrawable epoch. */
  lemma ChargedReportsAreLate(m: FrameBalances, x: Snapshot, vs: seq<Validator>, f: int)
    requires ValidSnapshot(x) && x.sweep.currentEpoch == CurrentEpoch(x.calendar, x.now)
    requires ChargesReports(m, x, vs) && f in m
    ensures ReportAt(x.calendar, f) > x.now
    ensures forall v :: v in vs && PaidInReport(x, v, f) ==>
      ReportAt(x.calendar, f) > 1000 * (x.calendar.genesisTime + 384 * v.withdrawableEpoch)
  {
    forall v | v in vs && PaidInReport(x, v, f)
      ensures ReportAt(x.calendar, f) > x.now
      ensures ReportAt(x.calendar, f) > 1000 * (x.calendar.genesisTime + 384 * v.withdrawableEpoch)
    {
      FrameOfIsReport(x, v, f);
      ChargedAfterSweepAndWithdrawable(x.calendar, x.sweep, v.index, v.withdrawableEpoch, x.now);
    }
  }

  // ---- one charge

  /** `prevBalance ? prevBalance.add(balance) : balance` */
  function Charge(m: FrameBalances, f: int, balance: int): FrameBalances {
    m[f := if f in m then m[f] + balance else balance]
  }

  lemma {:induction false} ChargedOutside(x: Snapshot, vs: seq<Validator>, f: int)
    requires ValidSnapshot(x) && f !in FramesOf(x, vs)
    ensures Charged(x, vs, f) == 0
  {
    if vs != [] {
      var front, last := vs[..|vs| - 1], vs[|vs| - 1];
      assert last in vs && forall v :: v in front ==> v in vs;
      ChargedOutside(x, front, f);
    }
  }

  /** The map holds exactly what the validators charge. */
  ghost predicate Holds(m: FrameBalances, x: Snapshot, vs: seq<Validator>)
    requires ValidSnapshot(x)
  {
    && m.Keys == FramesOf(x, vs)
    && forall f :: f in m ==> m[f] == Charged(x, vs, f)
  }

  lemma ChargeStep(m: FrameBalances, x: Snapshot, vs: seq<Validator>, v: Validator)
    requires ValidSnapshot(x) && Holds(m, x, vs)
    ensures Holds(Charge(m, FrameOf(x, v), ParseGwei(v.balance)), x, vs + [v])
  {
    var all, f := vs + [v], FrameOf(x, v);
    FramesStep(x, vs, v);
    if f !in m {
      ChargedOutside(x, vs, f);
    }
    forall g
      ensures Charged(x, all, g) == Charged(x, vs, g) + Share(x, v, g)
    {
      assert all[..|all| - 1] == vs;
    }
  }

  lemma FramesStep(x: Snapshot, vs: seq<Validator>, v: Validator)
    requires ValidSnapshot(x)
    ensures FramesOf(x, vs + [v]) == FramesOf(x, vs) + {FrameOf(x, v)}
  {
    assert forall w :: w in vs + [v] <==> w in vs || w == v;
  }

  // ---- the map does not depend on the order of the validators

  lemma {:induction false} ChargedRemove(x: Snapshot, vs: seq<Validator>, i: nat, f: int)
    requires ValidSnapshot(x) && i < |vs|
    ensures Charged(x, vs, f) == Charged(x, vs[..i] + vs[i + 1..], f) + Share(x, vs[i], f)
  {
    var front, last := vs[..|vs| - 1], vs[|vs| - 1];
    var rest := vs[..i] + vs[i + 1..];
    if i == |vs| - 1 {
      assert rest == front;
    } else {
      ChargedRemove(x, front, i, f);
      assert rest == (front[..i] + front[i + 1..]) + [last];
      assert rest[..|rest| - 1] == front[..i] + front[i + 1..];
    }
  }

  lemma RemoveOne(vs: seq<Validator>, v: Validator, ws: seq<Validator>, i: nat)
    requires i < |ws| && ws[i] == v
    requires multiset(vs + [v]) == multiset(ws)
    ensures multiset(vs) == multiset(ws[..i] + ws[i + 1..])
  {
    var rest := ws[..i] + ws[i + 1..];
    assert ws == ws[..i] + [v] + ws[i + 1..];
    assert multiset(ws) == multiset(rest) + multiset{v};
    assert multiset(vs + [v]) == multiset(vs) + multiset{v};
    assert multiset(vs) == multiset(vs) + multiset{v} - multiset{v};
    assert multiset(rest) == multiset(rest) + multiset{v} - multiset{v};
  }

  lemma {:induction false} ChargedPermutation(x: Snapshot, vs: seq<Validator>, ws: seq<Validator>, f: int)
    requires ValidSnapshot(x) && multiset(vs) == multiset(ws)
    ensures Charged(x, vs, f) == Charged(x, ws, f)
  {
    if vs == [] {
      assert |multiset(ws)| == 0;
    } else {
      var front, last := vs[..|vs| - 1], vs[|vs| - 1];
      assert vs == front + [last];
      assert last in multiset(vs);
      var i :| 0 <= i < |ws| && ws[i] == last;
      RemoveOne(front, last, ws, i);
      ChargedRemove(x, ws, i, f);
      ChargedPermutation(x, front, ws[..i] + ws[i + 1..], f);
    }
  }

  lemma TotalsPermutation(x: Snapshot, vs: seq<Validator>, ws: seq<Validator>)
    requires ValidSnapshot(x) && multiset(vs) == multiset(ws)
    ensures FrameTotals(x, vs) == FrameTotals(x, ws)
  {
    forall v
      ensures v in vs <==> v in ws
    {
      assert v in vs <==> v in multiset(vs);
    }
    forall f
      ensures Charged(x, vs, f) == Charged(x, ws, f)
    {
      ChargedPermutation(x, vs, ws, f);
    }
  }

  /** Charging conserves value: the map holds exactly the balances of the validators. */
  lemma {:induction false} TotalsConserveValue(x: Snapshot, vs: seq<Validator>)
    requires ValidSnapshot(x)
    ensures Sum(FrameTotals(x, vs)) == TotalBalance(vs)
  {
    if vs != [] {
      var front, last := vs[..|vs| - 1], vs[|vs| - 1];
      assert vs == front + [last];
      TotalsConserveValue(x, front);
      var m, f := FrameTotals(x, front), FrameOf(x, last);
      ChargeStep(m, x, front, last);
      assert FrameTotals(x, vs) == Charge(m, f, ParseGwei(last.balance));
      SumUpdate(m, f, Charge(m, f, ParseGwei(last.balance))[f]);
    }
  }

  // ---- the jobs

  method FindAndSetLidoValidatorsWithdrawableBalances(storage: VS.Storage, x: Snapshot, lidoValidators: seq<Validator>)
    requires ValidSnapshot(x)
    modifies storage`frameBalances, storage`withdrawableLidoValidatorIds
    ensures storage.frameBalances == FrameTotals(x, Withdrawable(lidoValidators))
    ensures ChargesReports(storage.frameBalances, x, Withdrawable(lidoValidators))
    ensures storage.withdrawableLidoValidatorIds == Ids(Withdrawable(lidoValidators))
  {
    var frameBalances: FrameBalances := map[];
    var withdrawableLidoValidatorIds: seq<int> := [];
    for i := 0 to |lidoValidators|
      invariant Holds(frameBalances, x, Withdrawable(lidoValidators[..i]))
      invariant withdrawableLidoValidatorIds == Ids(Withdrawable(lidoValidators[..i]))
    {
      var item := lidoValidators[i];
      assert lidoValidators[..i + 1][..i] == lidoValidators[..i];
      if item.withdrawableEpoch != FAR_FUTURE_EPOCH && item.balance > 0 {
        ChargeStep(frameBalances, x, Withdrawable(lidoValidators[..i]), item);
        var frame := FrameOf(x, item);
        var balance := ParseGwei(item.balance);
        var newBalance := if frame in frameBalances then frameBalances[frame] + balance else balance;
        frameBalances := frameBalances[frame := newBalance];
        withdrawableLidoValidatorIds := withdrawableLidoValidatorIds + [item.index];
      }
    }
    assert lidoValidators[..|lidoValidators|] == lidoValidators;
    TotalsChargeReports(x, Withdrawable(lidoValidators));
    storage.frameBalances := frameBalances;
    storage.withdrawableLidoValidatorIds := withdrawableLidoValidatorIds;
  }

  /** The node knows every id. */
  predicate Known(head: map<int, Validator>, ids: seq<int>) {
    forall i :: 0 <= i < |ids| ==> ids[i] in head
  }

  /** The validators of the ids, in the order of the ids. */
  function Lookup(head: map<int, Validator>, ids: seq<int>): seq<Validator>
    requires Known(head, ids)
  {
    seq(|ids|, i requires 0 <= i < |ids| => head[ids[i]])
  }

  /** Response k answers batch k of the ids, each validator once, in any order. */
  ghost predicate AnswersBatches(head: map<int, Validator>, ids: seq<int>, responses: seq<seq<Validator>>)
    requires Known(head, ids)
  {
    && |responses| * 20 >= |ids|
    && forall k :: 0 <= k < |responses| && k * 20 < |ids| ==>
         multiset(responses[k]) == multiset(Lookup(head, ids[k * 20..Min((k + 1) * 20, |ids|)]))
  }

  method UpdateLidoWithdrawableValidators(storage: VS.Storage, x: Snapshot,
      ghost head: map<int, Validator>, responses: seq<seq<Validator>>)
    requires ValidSnapshot(x)
    requires Known(head, storage.withdrawableLidoValidatorIds)
    requires AnswersBatches(head, storage.withdrawableLidoValidatorIds, responses)
    modifies storage`frameBalances
    ensures storage.frameBalances == FrameTotals(x, Lookup(head, storage.withdrawableLidoValidatorIds))
    ensures ChargesReports(storage.frameBalances, x, Lookup(head, storage.withdrawableLidoValidatorIds))
  {
    var validatorIds := storage.withdrawableLidoValidatorIds;
    var frameBalances: FrameBalances := map[];
    ghost var done: seq<Validator> := [];
    ghost var k := 0;
    var i := 0;
    while i < |validatorIds|
      invariant i == k * BATCH_SIZE
      invariant Refreshed(head, validatorIds, k, done)
      invariant Holds(frameBalances, x, done)
    {
      var batch := validatorIds[i..Min(i + BATCH_SIZE, |validatorIds|)];
      var stateValidators := responses[i / BATCH_SIZE];
      BatchStep(head, validatorIds, responses, k, done);
      frameBalances := ChargeResponse(x, frameBalances, |batch|, stateValidators, done);
      done := done + stateValidators;
      i := i + BATCH_SIZE;
      k := k + 1;
    }
    RefreshedAll(x, head, validatorIds, k, done, frameBalances);
    storage.frameBalances := frameBalances;
  }

  /** The validators that are charged after `k` batches, in the order in which they came back. */
  ghost predicate Refreshed(head: map<int, Validator>, ids: seq<int>, k: nat, done: seq<Validator>)
    requires Known(head, ids)
  {
    multiset(done) == multiset(Lookup(head, ids[..Min(k * BATCH_SIZE, |ids|)]))
  }

  lemma RefreshedAll(x: Snapshot, head: map<int, Validator>, ids: seq<int>, k: nat, done: seq<Validator>,
                     frameBalances: FrameBalances)
    requires ValidSnapshot(x) && Known(head, ids)
    requires k * BATCH_SIZE >= |ids| && Refreshed(head, ids, k, done)
    requires Holds(frameBalances, x, done)
    ensures frameBalances == FrameTotals(x, Lookup(head, ids))
    ensures ChargesReports(frameBalances, x, Lookup(head, ids))
  {
    assert ids[..|ids|] == ids;
    TotalsPermutation(x, done, Lookup(head, ids));
    TotalsChargeReports(x, Lookup(head, ids));
  }

  /** The inner loop of the refresh: charges the validators of one response. */
  method ChargeResponse(x: Snapshot, charged: FrameBalances, batchLength: nat, stateValidators: seq<Validator>,
      ghost done: seq<Validator>)
    returns (frameBalances: FrameBalances)
    requires ValidSnapshot(x) && batchLength == |stateValidators|
    requires Holds(charged, x, done)
    ensures Holds(frameBalances, x, done + stateValidators)
  {
    frameBalances := charged;
    ghost var seen := done;
    for j := 0 to batchLength
      invariant seen == done + stateValidators[..j]
      invariant Holds(frameBalances, x, seen)
    {
      var stateValidator := stateValidators[j];
      ChargeStep(frameBalances, x, seen, stateValidator);
      seen := seen + [stateValidator];
      var frame := FrameOf(x, stateValidator);
      var balance := ParseGwei(stateValidator.balance);
      var newBalance := if frame in frameBalances then frameBalances[frame] + balance else balance;
      frameBalances := frameBalances[frame := newBalance];
    }
    assert stateValidators[..batchLength] == stateValidators;
  }

  /** One more response makes the charged validators those of one more batch of ids. */
  lemma BatchStep(head: map<int, Validator>, ids: seq<int>, responses: seq<seq<Validator>>, k: nat,
                  done: seq<Validator>)
    requires Known(head, ids) && AnswersBatches(head, ids, responses)
    requires k * BATCH_SIZE < |ids|
    requires Refreshed(head, ids, k, done)
    ensures k < |responses|
    ensures |responses[k]| == Min((k + 1) * BATCH_SIZE, |ids|) - k * BATCH_SIZE
    ensures Refreshed(head, ids, k + 1, done + responses[k])
  {
    var i, j := k * BATCH_SIZE, Min((k + 1) * BATCH_SIZE, |ids|);
    var answer := Lookup(head, ids[i..j]);
    assert multiset(responses[k]) == multiset(answer);
    assert |responses[k]| == |multiset(responses[k])| == |multiset(answer)| == |answer|;
    assert ids[..j] == ids[..i] + ids[i..j];
    assert Lookup(head, ids[..j]) == Lookup(head, ids[..i]) + answer;
  }

  /**
   * On one snapshot the refresh rebuilds the map of the scan: whatever order the validators of the recorded ids
   * come back in, they charge the same frames with the same amounts, and these sum up to exactly the balances of
   * the withdrawable validators.
   */
  lemma RefreshRebuildsScan(x: Snapshot, head: map<int, Validator>, lidoValidators: seq<Validator>,
                            seen: seq<Validator>)
    requires ValidSnapshot(x)
    requires forall v :: v in lidoValidators ==> v.index in head && head[v.index] == v
    requires Known(head, Ids(Withdrawable(lidoValidators)))
    requires multiset(seen) == multiset(Lookup(head, Ids(Withdrawable(lidoValidators))))
    ensures FrameTotals(x, seen) == FrameTotals(x, Withdrawable(lidoValidators))
    ensures Sum(FrameTotals(x, seen)) == TotalBalance(Withdrawable(lidoValidators))
  {
    var ws := Withdrawable(lidoValidators);
    WithdrawableSubset(lidoValidators);
    assert Lookup(head, Ids(ws)) == ws;
    TotalsPermutation(x, seen, ws);
    TotalsConserveValue(x, ws);
  }

  /**
   * The two jobs one after the other, as at start-up. While the node still reports what the scan has seen, the
   * refresh computes the totals of its own snapshot, and on the snapshot of the scan it changes nothing.
   */
  method RefreshAfterScan(storage: VS.Storage, x: Snapshot, x': Snapshot, lidoValidators: seq<Validator>,
      ghost head: map<int, Validator>, responses: seq<seq<Validator>>)
    returns (ghost scanned: FrameBalances)
    requires ValidSnapshot(x) && ValidSnapshot(x')
    requires forall v :: v in lidoValidators ==> v.index in head && head[v.index] == v
    requires Known(head, Ids(Withdrawable(lidoValidators)))
    requires AnswersBatches(head, Ids(Withdrawable(lidoValidators)), responses)
    modifies storage`frameBalances, storage`withdrawableLidoValidatorIds
    ensures scanned == FrameTotals(x, Withdrawable(lidoValidators))
    ensures storage.frameBalances == FrameTotals(x', Withdrawable(lidoValidators))
    ensures x == x' ==> storage.frameBalances == scanned
    ensures Sum(storage.frameBalances) == Sum(scanned) == TotalBalance(Withdrawable(lidoValidators))
    ensures storage.withdrawableLidoValidatorIds == Ids(Withdrawable(lidoValidators))
  {
    FindAndSetLidoValidatorsWithdrawableBalances(storage, x, lidoValidators);
    scanned := storage.frameBalances;
    UpdateLidoWithdrawableValidators(storage, x', head, responses);
    ghost var ws := Withdrawable(lidoValidators);
    RefreshRebuildsScan(x', head, lidoValidators, Lookup(head, Ids(ws)));
    TotalsConserveValue(x, ws);
  }

  /** Exactly the validators with a withdrawable epoch and a positive balance are charged, as often as they occur. */
  lemma {:induction false} WithdrawableSubset(vs: seq<Validator>)
    ensures forall v ::
      multiset(Withdrawable(vs))[v]
      == if v.withdrawableEpoch != 18_446_744_073_709_551_615 && v.balance > 0 then multiset(vs)[v] else 0
    ensures forall v :: v in Withdrawable(vs) <==> v in vs && IsWithdrawable(v)
  {
    if vs != [] {
      var front, last := vs[..|vs| - 1], vs[|vs| - 1];
      WithdrawableSubset(front);
      assert vs == front + [last];
    }
  }
}
