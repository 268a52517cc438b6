// The incremental cache of unfinalized withdrawal requests (QueueInfoService and its storage).

module QueueCache {
  import opened Results
  import opened FloorArithmetic
  import opened QueueRequests

  const WITHDRAWAL_STATUS_PAGE_SIZE := 50

  /** The part of a request status that never changes once the request is placed. */
  datatype Core = Core(amountOfStETH: int, amountOfShares: int, timestamp: int)

  /** The part that transfers, finalization and claims change. */
  datatype Mutable = Mutable(owner: string, isFinalized: bool, isClaimed: bool)

  function CoreOf(r: Request): Core {
    Core(r.amountOfStETH, r.amountOfShares, r.timestamp)
  }

  /**
   * The contract during one update. A page that starts at position `page` is one call: it may fail, and the
   * mutable part of the statuses may differ from call to call.
   */
  datatype Node = Node(core: int -> Core, mutable: (int, int) -> Mutable, isDown: int -> bool) {

    function Status(page: int, id: int): Request {
      var c, m := core(id), mutable(page, id);
      Request(id, c.amountOfStETH, c.amountOfShares, m.owner, c.timestamp, m.isFinalized, m.isClaimed)
    }
  }

  // ---- the specification

  function RequestIds(lastRequestId: int, unfinalizedRequests: nat): seq<int> {
    seq(unfinalizedRequests, i => lastRequestId - unfinalizedRequests + 1 + i)
  }

  /** The start of the page that position `i` belongs to. */
  function PageOf(i: int): int {
    i - i % 50
  }

  /** Some page fails. */
  ghost predicate Interrupted(node: Node, length: int) {
    exists page :: 0 <= page < length && PageOf(page) == page && node.isDown(page)
  }

  /** One status per id, in order, unless some page fails. */
  ghost function Fetched(node: Node, ids: seq<int>): Result<seq<Request>> {
    if Interrupted(node, |ids|) then Failure(RpcFailure)
    else Success(Statuses(node, ids, |ids|))
  }

  function Statuses(node: Node, ids: seq<int>, length: nat): seq<Request>
    requires length <= |ids|
  {
    seq(length, i requires 0 <= i < length => node.Status(PageOf(i), ids[i]))
  }

  predicate Contiguous(requests: seq<Request>, first: int) {
    forall i :: 0 <= i < |requests| ==> requests[i].id == first + i
  }

  /** cachedRequests.filter(first <= id <= last) */
  function Active(cached: seq<Request>, first: int, last: int): seq<Request> {
    if cached == [] then [] else
      var rest := Active(cached[1..], first, last);
      if first <= cached[0].id <= last then [cached[0]] + rest else rest
  }

  /** The ids that an update asks the contract for. */
  function MissingIds(cached: seq<Request>, lastRequestId: int, unfinalizedRequests: nat): seq<int> {
    var ids := RequestIds(lastRequestId, unfinalizedRequests);
    if ids == [] then [] else
      var active := Active(cached, ids[0], lastRequestId);
      if Contiguous(active, ids[0]) then
        ActiveFits(cached, ids[0], lastRequestId);
        ids[|active|..]
      else ids
  }

  /** The cached requests that an update keeps. */
  function KeptRequests(cached: seq<Request>, lastRequestId: int, unfinalizedRequests: nat): seq<Request> {
    var ids := RequestIds(lastRequestId, unfinalizedRequests);
    if ids == [] then [] else
      var active := Active(cached, ids[0], lastRequestId);
      if Contiguous(active, ids[0]) then active else []
  }

  ghost function UpdatedRequests(cached: seq<Request>, lastRequestId: int, unfinalizedRequests: nat, node: Node)
    : Result<seq<Request>>
  {
    var missing :- Fetched(node, MissingIds(cached, lastRequestId, unfinalizedRequests));
    Success(KeptRequests(cached, lastRequestId, unfinalizedRequests) + missing)
  }

  lemma {:induction false} ActiveInRange(cached: seq<Request>, first: int, last: int)
    ensures forall r :: r in Active(cached, first, last) <==> r in cached && first <= r.id <= last
  {
    if cached != [] {
      ActiveInRange(cached[1..], first, last);
      assert cached == [cached[0]] + cached[1..];
    }
  }

  /** A contiguous active part fits the range it was filtered by. */
  lemma ActiveFits(cached: seq<Request>, first: int, last: int)
    requires first <= last + 1
    requires Contiguous(Active(cached, first, last), first)
    ensures |Active(cached, first, last)| <= last - first + 1
  {
    var active := Active(cached, first, last);
    if active != [] {
      ActiveInRange(cached, first, last);
      assert active[|active| - 1] in active;
    }
  }

  // ---- the service

  method HasContiguousIds(requests: seq<Request>, firstExpectedRequestId: int) returns (contiguous: bool)
    ensures contiguous <==> Contiguous(requests, firstExpectedRequestId)
  {
    for i := 0 to |requests|
      invariant Contiguous(requests[..i], firstExpectedRequestId)
    {
      if requests[i].id != firstExpectedRequestId + i {
        return false;
      }
    }
    assert requests[..|requests|] == requests;
    return true;
  }

  /**
   * Reads the statuses page by page: 50-wide paging loses and reorders nothing. `asked` lists the ids that the calls
   * ask for: all of them in order, or those of the pages up to the failing one.
   */
  method FetchRequestsByIds(node: Node, requestIds: seq<int>)
    returns (result: Result<seq<Request>>, ghost asked: seq<int>)
    ensures result == Fetched(node, requestIds)
    ensures asked <= requestIds && (result.Success? ==> asked == requestIds)
  {
    var requests: seq<Request> := [];
    asked := [];
    var i := 0;
    while i < |requestIds|
      invariant 0 <= i && PageOf(i) == i
      invariant requests == Statuses(node, requestIds, Min(i, |requestIds|))
      invariant !Interrupted(node, Min(i, |requestIds|))
      invariant asked == requestIds[..Min(i, |requestIds|)]
    {
      var requestIdsPage := requestIds[i..Min(i + WITHDRAWAL_STATUS_PAGE_SIZE, |requestIds|)];
      asked := asked + requestIdsPage;
      if node.isDown(i) {
        return Failure(RpcFailure), asked;
      }
      var withdrawalStatuses :=
        seq(|requestIdsPage|, index requires 0 <= index < |requestIdsPage| => node.Status(i, requestIdsPage[index]));
      NextPage(node, requestIds, i, withdrawalStatuses);
      requests := requests + withdrawalStatuses;
      i := i + WITHDRAWAL_STATUS_PAGE_SIZE;
    }
    return Success(requests), asked;
  }

  lemma NextPage(node: Node, ids: seq<int>, i: nat, page: seq<Request>)
    requires i < |ids| && PageOf(i) == i && !node.isDown(i)
    requires |page| == Min(i + WITHDRAWAL_STATUS_PAGE_SIZE, |ids|) - i
    requires forall j :: 0 <= j < |page| ==> page[j] == node.Status(i, ids[i + j])
    ensures Statuses(node, ids, i + |page|) == Statuses(node, ids, i) + page
    ensures !Interrupted(node, i) ==> !Interrupted(node, i + |page|)
    ensures ids[..i] + ids[i..i + |page|] == ids[..i + |page|]
    ensures PageOf(i + WITHDRAWAL_STATUS_PAGE_SIZE) == i + WITHDRAWAL_STATUS_PAGE_SIZE
  {
    forall j | i <= j < i + |page|
      ensures PageOf(j) == i
    {
    }
  }

  /** `asked` lists the ids that the contract is asked for: on success exactly the missing ones, and never others. */
  method GetUpdatedRequests(cachedRequests: seq<Request>, lastRequestId: int, unfinalizedRequests: nat, node: Node)
    returns (result: Result<seq<Request>>, ghost asked: seq<int>)
    ensures result == UpdatedRequests(cachedRequests, lastRequestId, unfinalizedRequests, node)
    ensures asked <= MissingIds(cachedRequests, lastRequestId, unfinalizedRequests)
    ensures result.Success? ==> asked == MissingIds(cachedRequests, lastRequestId, unfinalizedRequests)
  {
    asked := [];
    var requestIds := RequestIds(lastRequestId, unfinalizedRequests);
    if |requestIds| == 0 {
      FetchedNothing(node);
      result := Success([]);
      assert [] + result.value == result.value;
      return;
    }

    var firstExpectedRequestId := requestIds[0];
    var cachedActiveRequests := Active(cachedRequests, firstExpectedRequestId, lastRequestId);

    var contiguous := HasContiguousIds(cachedActiveRequests, firstExpectedRequestId);
    if !contiguous {
      result, asked := FetchRequestsByIds(node, requestIds);
      assert result.Success? ==> [] + result.value == result.value;
      return;
    }
    ActiveFits(cachedRequests, firstExpectedRequestId, lastRequestId);

    var nextRequestId := if |cachedActiveRequests| > 0
                         then cachedActiveRequests[|cachedActiveRequests| - 1].id + 1
                         else firstExpectedRequestId;
    var nextRequestIndex := nextRequestId - firstExpectedRequestId;
    var newRequestIds := requestIds[nextRequestIndex..];

    if |newRequestIds| == 0 {
      FetchedNothing(node);
      assert cachedActiveRequests + [] == cachedActiveRequests;
      return Success(cachedActiveRequests), [];
    }

    result, asked := FetchRequestsByIds(node, newRequestIds);
    if result.Success? {
      result := Success(cachedActiveRequests + result.value);
    }
  }

  lemma FetchedNothing(node: Node)
    ensures Fetched(node, []) == Success([])
  {
    assert Fetched(node, []).Success? && |Fetched(node, []).value| == 0;
  }

  /** Kept and missing requests together have exactly the expected ids, whatever the cache holds. */
  lemma KeptAndMissing(cached: seq<Request>, last: int, n: nat)
    ensures |KeptRequests(cached, last, n)| + |MissingIds(cached, last, n)| == n
    ensures Contiguous(KeptRequests(cached, last, n), last - n + 1)
    ensures MissingIds(cached, last, n) == RequestIds(last, n)[|KeptRequests(cached, last, n)|..]
  {
    var ids := RequestIds(last, n);
    if ids != [] && Contiguous(Active(cached, ids[0], last), ids[0]) {
      ActiveFits(cached, ids[0], last);
    }
  }

  /** A successful update has exactly the ids last - n + 1 .. last, in order. */
  lemma UpdatePublishesExactIds(cached: seq<Request>, last: int, n: nat, node: Node)
    requires UpdatedRequests(cached, last, n, node).Success?
    ensures |UpdatedRequests(cached, last, n, node).value| == n
    ensures Published(UpdatedRequests(cached, last, n, node).value, last)
  {
    KeptAndMissing(cached, last, n);
    var kept, missing := KeptRequests(cached, last, n), MissingIds(cached, last, n);
    var requests := UpdatedRequests(cached, last, n, node).value;
    forall i | 0 <= i < |requests|
      ensures requests[i].id == last - n + 1 + i
    {
      if i >= |kept| {
        assert requests[i].id == missing[i - |kept|];
      }
    }
  }

  /** The eight calls that updateQueueInfo starts with; each returns or rejects. */
  datatype QueueReads = QueueReads(
    unfinalizedStETH: Result<int>,
    unfinalizedRequests: Result<nat>,
    minStethAmount: Result<int>,
    maxStethAmount: Result<int>,
    depositableEther: Result<int>,
    bufferedEther: Result<int>,
    lastRequestId: Result<int>,
    bunkerModeActive: Result<bool>)
  {
    /** Promise.all: resolves when every call returns. */
    predicate Resolve() {
      && unfinalizedStETH.Success? && unfinalizedRequests.Success? && minStethAmount.Success?
      && maxStethAmount.Success? && depositableEther.Success? && bufferedEther.Success?
      && lastRequestId.Success? && bunkerModeActive.Success?
    }
  }

  class QueueInfoStorage {
    var unfinalizedStETH: int
    var unfinalizedRequestsCount: nat
    var lastUpdate: int
    var minStethAmount: int
    var maxStethAmount: int
    var depositableEther: int
    var lastRequestId: int
    var requests: seq<Request>
    var nextUpdate: int
    var bunkerModeActive: bool

    constructor ()
      ensures requests == [] && lastUpdate == 0
    {
      requests := [];
      lastUpdate := 0;
    }

    /**
     * The job publishes everything it read, or, when one of the eight calls or a status page fails, nothing. The
     * statuses that it asks for are those of the missing ids.
     */
    method UpdateQueueInfo(x: QueueReads, node: Node, nowSeconds: int, nextUpdateDate: int)
      returns (ok: bool, ghost asked: seq<int>)
      modifies this
      ensures !x.Resolve() ==> !ok && asked == []
      ensures x.Resolve() ==>
        && ok == UpdatedRequests(old(requests), x.lastRequestId.value, x.unfinalizedRequests.value, node).Success?
        && asked <= MissingIds(old(requests), x.lastRequestId.value, x.unfinalizedRequests.value)
        && (ok ==> asked == MissingIds(old(requests), x.lastRequestId.value, x.unfinalizedRequests.value))
      ensures ok ==>
        && UpdatedRequests(old(requests), lastRequestId, unfinalizedRequestsCount, node) == Success(requests)
        && Published(requests, lastRequestId) && |requests| == unfinalizedRequestsCount
        && x.lastRequestId == Success(lastRequestId) && x.unfinalizedRequests == Success(unfinalizedRequestsCount)
        && x.unfinalizedStETH == Success(unfinalizedStETH) && x.depositableEther == Success(depositableEther)
        && x.minStethAmount == Success(minStethAmount) && x.maxStethAmount == Success(maxStethAmount)
        && x.bunkerModeActive == Success(bunkerModeActive) && lastUpdate == nowSeconds && nextUpdate == nextUpdateDate
      ensures !ok ==> unchanged(this)
    {
      if !x.Resolve() {
        return false, [];
      }
      var lastId, count := x.lastRequestId.value, x.unfinalizedRequests.value;
      var updated;
      updated, asked := GetUpdatedRequests(requests, lastId, count, node);
      if updated.Failure? {
        return false, asked;
      }
      UpdatePublishesExactIds(requests, lastId, count, node);
      requests := updated.value;
      unfinalizedStETH := x.unfinalizedStETH.value;
      lastRequestId := lastId;
      unfinalizedRequestsCount := count;
      minStethAmount := x.minStethAmount.value;
      maxStethAmount := x.maxStethAmount.value;
      depositableEther := x.depositableEther.value;
      bunkerModeActive := x.bunkerModeActive.value;
      lastUpdate := nowSeconds;
      nextUpdate := nextUpdateDate;
      return true, asked;
    }
  }
}
