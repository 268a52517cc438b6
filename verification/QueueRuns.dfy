// The queue cache over whole runs: requests are placed and finalized on chain while the job, one update at a
// time, takes a snapshot, reads statuses and publishes, or fails.

module QueueRuns {
  import opened Results
  import opened QueueRequests
  import opened QueueCache
  import WaitingTime
  import RequestTime
  import FrameProjections
  import EstimateGuarantees

  /** The two counters an update reads at its start. */
  datatype Snapshot = Snapshot(lastRequestId: nat, unfinalizedRequests: nat)

  datatype State = State(
    records: seq<Core>,         // request id i is records[i - 1]
    finalized: nat,             // ids 1 .. finalized are finalized
    cache: seq<Request>,        // the published requests
    published: nat,             // the last request id of the last published update, 0 before the first
    pending: Option<Snapshot>,  // the snapshot of the running update
    fetched: seq<int>)          // every id that a successful update has asked for, in order

  ghost predicate Init(s: State) {
    s.finalized <= |s.records| && s.cache == [] && s.published == 0 && s.pending.None? && s.fetched == []
  }

  /** The node tells the truth about the immutable part of every request that is on chain. */
  ghost predicate Honest(node: Node, records: seq<Core>) {
    forall id :: 1 <= id <= |records| ==> node.core(id) == records[id - 1]
  }

  datatype Step =
    | Enqueue(request: Core)
    | Finalize(upTo: nat)
    | Begin
    | Complete(node: Node)
    | Abort

  ghost predicate Next(s: State, step: Step, s': State) {
    match step
    case Enqueue(request) => s' == s.(records := s.records + [request])
    case Finalize(upTo) => s.finalized <= upTo <= |s.records| && s' == s.(finalized := upTo)
    case Begin =>
      && s.pending.None? && s.finalized <= |s.records|
      && s' == s.(pending := Some(Snapshot(|s.records|, |s.records| - s.finalized)))
    case Complete(node) =>
      && s.pending.Some? && Honest(node, s.records)
      && var x := s.pending.value;
         var updated := UpdatedRequests(s.cache, x.lastRequestId, x.unfinalizedRequests, node);
         && updated.Success?
         && s' == s.(cache := updated.value, published := x.lastRequestId, pending := None,
                     fetched := s.fetched + MissingIds(s.cache, x.lastRequestId, x.unfinalizedRequests))
    case Abort => s.pending.Some? && s' == s.(pending := None)
  }

  /** States reachable in any number of steps. */
  ghost predicate IsRun(run: seq<State>, steps: seq<Step>) {
    && |run| == |steps| + 1
    && Init(run[0])
    && forall i :: 0 <= i < |steps| ==> Next(run[i], steps[i], run[i + 1])
  }

  // ---- the invariant

  /** Every cached request is what the chain recorded under its id. */
  ghost predicate Agrees(requests: seq<Request>, records: seq<Core>) {
    forall i :: 0 <= i < |requests| ==>
      1 <= requests[i].id <= |records| && CoreOf(requests[i]) == records[requests[i].id - 1]
  }

  /** The ids of a snapshot: they start at or after the first cached id, and end at or after the last. */
  ghost predicate Follows(x: Snapshot, s: State) {
    && s.published <= x.lastRequestId <= |s.records|
    && 0 <= s.published - |s.cache| <= x.lastRequestId - x.unfinalizedRequests <= s.finalized
  }

  predicate AscendingUpTo(ids: seq<int>, bound: int) {
    && (forall i, j :: 0 <= i < j < |ids| ==> ids[i] < ids[j])
    && forall i :: 0 <= i < |ids| ==> 1 <= ids[i] <= bound
  }

  ghost predicate Inv(s: State) {
    && s.finalized <= |s.records|
    && s.published <= |s.records|
    && 0 <= s.published - |s.cache| <= s.finalized
    && Published(s.cache, s.published)
    && Agrees(s.cache, s.records)
    && AscendingUpTo(s.fetched, s.published)
    && (s.pending.Some? ==> Follows(s.pending.value, s))
  }

  /** On the cache of a reachable state, the active part is a suffix of the cache and starts where expected. */
  lemma {:induction false} ActiveOfPublished(cache: seq<Request>, published: int, first: int, last: int)
    requires Published(cache, published)
    requires published - |cache| + 1 <= first && published <= last
    ensures var active := Active(cache, first, last);
      && Contiguous(active, first)
      && |active| == (if first <= published then published - first + 1 else 0)
      && forall r :: r in active ==> r in cache
  {
    ActiveInRange(cache, first, last);
    if cache != [] {
      ActiveOfPublishedTail(cache, published, first, last);
    }
  }

  lemma {:induction false} ActiveOfPublishedTail(cache: seq<Request>, published: int, first: int, last: int)
    requires Published(cache, published) && published <= last
    ensures Active(cache, first, last)
         == if published - |cache| + 1 >= first then cache
            else if first > published then []
            else cache[first - (published - |cache| + 1)..]
  {
    if cache != [] {
      assert cache == [cache[0]] + cache[1..];
      ActiveOfPublishedTail(cache[1..], published, first, last);
    }
  }

  lemma CompleteKeepsInv(s: State, node: Node, s': State)
    requires Inv(s) && Next(s, Complete(node), s')
    ensures Inv(s')
  {
    var x := s.pending.value;
    UpdatePublishesExactIds(s.cache, x.lastRequestId, x.unfinalizedRequests, node);
    UpdateAgrees(s, node);
    FetchStaysAscending(s);
  }

  /** What a running update keeps is cached, and what it asks for is the tail of ids after the published ones. */
  lemma PendingParts(s: State)
    requires Inv(s) && s.pending.Some?
    ensures forall r :: r in Kept(s) ==> r in s.cache
    ensures var missing, last := Missing(s), s.pending.value.lastRequestId;
      && last - |missing| >= s.published
      && forall i :: 0 <= i < |missing| ==> missing[i] == last - |missing| + 1 + i
  {
    var last, n := s.pending.value.lastRequestId, s.pending.value.unfinalizedRequests;
    ActiveOfPublished(s.cache, s.published, last - n + 1, last);
    KeptAndMissing(s.cache, last, n);
  }

  function Kept(s: State): seq<Request>
    requires s.pending.Some?
  {
    KeptRequests(s.cache, s.pending.value.lastRequestId, s.pending.value.unfinalizedRequests)
  }

  function Missing(s: State): seq<int>
    requires s.pending.Some?
  {
    MissingIds(s.cache, s.pending.value.lastRequestId, s.pending.value.unfinalizedRequests)
  }

  lemma UpdateAgrees(s: State, node: Node)
    requires Inv(s) && s.pending.Some? && Honest(node, s.records)
    ensures var x := s.pending.value;
      var updated := UpdatedRequests(s.cache, x.lastRequestId, x.unfinalizedRequests, node);
      updated.Success? ==> Agrees(updated.value, s.records)
  {
    PendingParts(s);
    KeptAgree(Kept(s), s.cache, s.records);
    FetchedAgree(node, Missing(s), s.records);
  }

  lemma KeptAgree(kept: seq<Request>, cache: seq<Request>, records: seq<Core>)
    requires forall r :: r in kept ==> r in cache
    requires Agrees(cache, records)
    ensures Agrees(kept, records)
  {
    forall i | 0 <= i < |kept|
      ensures 1 <= kept[i].id <= |records| && CoreOf(kept[i]) == records[kept[i].id - 1]
    {
      assert kept[i] in kept;
    }
  }

  lemma FetchedAgree(node: Node, ids: seq<int>, records: seq<Core>)
    requires Honest(node, records)
    requires forall i :: 0 <= i < |ids| ==> 1 <= ids[i] <= |records|
    ensures Fetched(node, ids).Success? ==> Agrees(Fetched(node, ids).value, records)
  {
  }

  lemma FetchStaysAscending(s: State)
    requires Inv(s) && s.pending.Some?
    ensures AscendingUpTo(s.fetched + Missing(s), s.pending.value.lastRequestId)
  {
    PendingParts(s);
    AppendAscending(s.fetched, Missing(s), s.published, s.pending.value.lastRequestId);
  }

  lemma AppendAscending(a: seq<int>, b: seq<int>, middle: nat, bound: nat)
    requires AscendingUpTo(a, middle)
    requires bound - |b| >= middle
    requires forall i :: 0 <= i < |b| ==> b[i] == bound - |b| + 1 + i
    ensures AscendingUpTo(a + b, bound)
  {
  }

  lemma StepKeepsInv(s: State, step: Step, s': State)
    requires Inv(s) && Next(s, step, s')
    ensures Inv(s')
  {
    if step.Complete? {
      CompleteKeepsInv(s, step.node, s');
    }
  }

  lemma {:induction false} RunKeepsInv(run: seq<State>, steps: seq<Step>, i: nat)
    requires IsRun(run, steps) && i < |run|
    ensures Inv(run[i])
  {
    if i > 0 {
      RunKeepsInv(run, steps, i - 1);
      StepKeepsInv(run[i - 1], steps[i - 1], run[i]);
    }
  }

  // ---- the results

  /** The check for an inconsistent cache never fires: an update only ever asks for the new tail. */
  lemma NeverInconsistent(run: seq<State>, steps: seq<Step>, i: nat)
    requires IsRun(run, steps) && i < |run| && run[i].pending.Some?
    ensures var s, x := run[i], run[i].pending.value;
      var first := x.lastRequestId - x.unfinalizedRequests + 1;
      && Contiguous(Active(s.cache, first, x.lastRequestId), first)
      && forall id :: id in MissingIds(s.cache, x.lastRequestId, x.unfinalizedRequests) ==> id > s.published
  {
    RunKeepsInv(run, steps, i);
    var s, x := run[i], run[i].pending.value;
    ActiveOfPublished(s.cache, s.published, x.lastRequestId - x.unfinalizedRequests + 1, x.lastRequestId);
    KeptAndMissing(s.cache, x.lastRequestId, x.unfinalizedRequests);
  }

  /** Equal up to the mutable part of the statuses. */
  predicate SameRequests(a: seq<Request>, b: seq<Request>) {
    && |a| == |b|
    && forall i :: 0 <= i < |a| ==> a[i].id == b[i].id && CoreOf(a[i]) == CoreOf(b[i])
  }

  /** What an update publishes is what refetching every unfinalized request of its snapshot would give. */
  lemma UpdateAgreesWithRefetch(run: seq<State>, steps: seq<Step>, i: nat, refetch: Node)
    requires IsRun(run, steps) && i < |steps| && steps[i].Complete? && run[i].pending.Some?
    requires Honest(refetch, run[i].records)
    ensures var x := run[i].pending.value;
      var full := Fetched(refetch, RequestIds(x.lastRequestId, x.unfinalizedRequests));
      full.Success? ==> SameRequests(run[i + 1].cache, full.value)
  {
    RunKeepsInv(run, steps, i);
    RunKeepsInv(run, steps, i + 1);
    var x := run[i].pending.value;
    UpdatePublishesExactIds(run[i].cache, x.lastRequestId, x.unfinalizedRequests, steps[i].node);
  }

  /** Across all successful updates of a run, no id is fetched twice. */
  lemma FetchedAtMostOnce(run: seq<State>, steps: seq<Step>, i: nat)
    requires IsRun(run, steps) && i < |run|
    ensures forall j, k :: 0 <= j < k < |run[i].fetched| ==> run[i].fetched[j] != run[i].fetched[k]
  {
    RunKeepsInv(run, steps, i);
  }

  /** The cache of every reachable state is a published queue, so the by-id checks are total on it. */
  lemma AlwaysPublished(run: seq<State>, steps: seq<Step>, i: nat)
    requires IsRun(run, steps) && i < |run|
    ensures Published(run[i].cache, run[i].published)
    ensures Agrees(run[i].cache, run[i].records)
  {
    RunKeepsInv(run, steps, i);
  }

  /** Requests are placed with non-negative amounts and at non-decreasing times. */
  predicate PlacedInOrder(records: seq<Core>) {
    && (forall i :: 0 <= i < |records| ==> records[i].amountOfStETH >= 0)
    && forall i, j :: 0 <= i < j < |records| ==> records[i].timestamp <= records[j].timestamp
  }

  /**
   * So in every reachable state, the published queue is answered first in, first out: exactly unless an uncovered
   * request overtakes a covered one.
   */
  lemma EveryRunIsFirstInFirstOut(run: seq<State>, steps: seq<Step>, k: nat, s: WaitingTime.Storage, now: int,
                                  b: RequestTime.BlockBalances, i: nat, j: nat)
    requires IsRun(run, steps) && k < |run| && PlacedInOrder(run[k].records)
    requires WaitingTime.ValidStorage(s)
    requires i <= j < |run[k].cache|
    requires !FrameProjections.LosesFrameZero(s, now,
               RequestTime.QueuedRequestQuery(s, now, run[k].cache, run[k].cache[i], b))
    ensures FrameProjections.NoLater(RequestTime.PrecalculatedFrame(s, now, run[k].cache, run[k].cache[i], b),
                                     RequestTime.PrecalculatedFrame(s, now, run[k].cache, run[k].cache[j], b))
            <==> !EstimateGuarantees.Overtaken(s, now,
                   RequestTime.QueuedRequestQuery(s, now, run[k].cache, run[k].cache[i], b),
                   RequestTime.QueuedRequestQuery(s, now, run[k].cache, run[k].cache[j], b))
  {
    AlwaysPublished(run, steps, k);
    var cache := run[k].cache;
    forall p | 0 <= p < |cache|
      ensures CoreOf(cache[p]) == run[k].records[cache[p].id - 1] && cache[p].id == cache[0].id + p
    {
    }
    assert EstimateGuarantees.InOrderOfTime(cache) by {
      forall p, q | 0 <= p < q < |cache|
        ensures cache[p].timestamp <= cache[q].timestamp
      {
        assert cache[p].id - 1 < cache[q].id - 1;
      }
    }
    EstimateGuarantees.FirstInFirstOut(s, now, cache, b, i, j);
  }

  /** And every id gets an answer from every reachable state: no request of a published queue is undefined. */
  lemma EveryRunKnowsEveryId(run: seq<State>, steps: seq<Step>, k: nat, s: WaitingTime.Storage, u: RequestTime.Updates,
                             lastUpdate: int, now: int, requestId: int, b: RequestTime.BlockBalances)
    requires IsRun(run, steps) && k < |run| && WaitingTime.ValidStorage(s)
    ensures var queue := RequestTime.QueueInfo(run[k].cache, run[k].published, lastUpdate);
      RequestTime.WaitingTimeInfoById(s, u, queue, now, requestId, b) != Failure(UndefinedRequest)
  {
    AlwaysPublished(run, steps, k);
    var queue := RequestTime.QueueInfo(run[k].cache, run[k].published, lastUpdate);
    if !RequestTime.IsInitializing(s, u, queue) {
      EstimateGuarantees.ByIdChecksAreTotal(s, u, queue, now, requestId, b);
    }
  }

  /**
   * In every reachable state, an id that is answered as finalized is finalized on chain. The other way round, of the
   * ids below the published queue, which are finalized on chain, all are answered as finalized, except for the last
   * id of an empty queue.
   */
  lemma FinalizedAnswersAreTrue(run: seq<State>, steps: seq<Step>, k: nat, s: WaitingTime.Storage,
                                u: RequestTime.Updates, lastUpdate: int, now: int, requestId: int,
                                b: RequestTime.BlockBalances)
    requires IsRun(run, steps) && k < |run| && WaitingTime.ValidStorage(s)
    requires !RequestTime.IsInitializing(s, u, RequestTime.QueueInfo(run[k].cache, run[k].published, lastUpdate))
    ensures var x, queue := run[k], RequestTime.QueueInfo(run[k].cache, run[k].published, lastUpdate);
      var r := RequestTime.WaitingTimeInfoById(s, u, queue, now, requestId, b);
      && (EstimateGuarantees.IsFinalizedAnswer(r) ==> requestId <= x.finalized)
      && (requestId <= x.published - |x.cache| ==>
            && requestId <= x.finalized
            && (EstimateGuarantees.IsFinalizedAnswer(r) <==> !(x.cache == [] && requestId == x.published)))
  {
    RunKeepsInv(run, steps, k);
    var queue := RequestTime.QueueInfo(run[k].cache, run[k].published, lastUpdate);
    EstimateGuarantees.ByIdChecksAreTotal(s, u, queue, now, requestId, b);
  }
}
