// Requests of the withdrawal queue, and the load up to one of them
// (calculateUnfinalizedEthToRequestId).

module QueueRequests {
  import opened Results

  /** The status struct of the WithdrawalQueue contract, with the id the service adds. Timestamps are in seconds. */
  datatype Request = Request(
    id: int,
    amountOfStETH: int,
    amountOfShares: int,
    owner: string,
    timestamp: int,
    isFinalized: bool,
    isClaimed: bool)

  function Amount(requests: seq<Request>): int {
    if requests == [] then 0 else Amount(requests[..|requests| - 1]) + requests[|requests| - 1].amountOfStETH
  }

  /** requests.find((item) => item.id.eq(id)), as an index. */
  function Find(requests: seq<Request>, id: int): (index: Option<nat>)
    ensures index.Some? ==> index.value < |requests| && requests[index.value].id == id
    ensures index.Some? ==> forall i :: 0 <= i < index.value ==> requests[i].id != id
    ensures index.None? ==> forall i :: 0 <= i < |requests| ==> requests[i].id != id
  {
    if requests == [] then None
    else if requests[0].id == id then Some(0)
    else match Find(requests[1..], id)
      case None => None
      case Some(i) => Some(i + 1)
  }

  /** What must be paid before and including the first request with this id; everything when there is none. */
  function LoadUpTo(requests: seq<Request>, id: int): int {
    match Find(requests, id)
    case None => Amount(requests)
    case Some(i) => Amount(requests[..i + 1])
  }

  method CalculateUnfinalizedEthToRequestId(requests: seq<Request>, request: Request) returns (unfinalizedETH: int)
    ensures unfinalizedETH == LoadUpTo(requests, request.id)
  {
    unfinalizedETH := 0;
    for i := 0 to |requests|
      invariant unfinalizedETH == Amount(requests[..i])
      invariant forall j :: 0 <= j < i ==> requests[j].id != request.id
    {
      var r := requests[i];
      assert requests[..i + 1][..i] == requests[..i];
      unfinalizedETH := unfinalizedETH + r.amountOfStETH;
      if r.id == request.id {
        break;
      }
    }
    assert requests[..|requests|] == requests;
  }

  /** With the ids of a queue, which are distinct, the load is the prefix that ends in the request. */
  lemma LoadUpToPosition(requests: seq<Request>, i: nat)
    requires i < |requests|
    requires forall j, k :: 0 <= j < k < |requests| ==> requests[j].id != requests[k].id
    ensures Find(requests, requests[i].id) == Some(i)
    ensures LoadUpTo(requests, requests[i].id) == Amount(requests[..i + 1])
  {
  }

  lemma {:induction false} PrefixMonotone(requests: seq<Request>, i: nat, j: nat)
    requires i <= j <= |requests|
    requires forall r :: r in requests ==> r.amountOfStETH >= 0
    ensures Amount(requests[..i]) <= Amount(requests[..j])
    decreases j
  {
    if i < j {
      PrefixMonotone(requests, i, j - 1);
      assert requests[..j][..j - 1] == requests[..j - 1];
      assert requests[j - 1] in requests;
    }
  }

  /** What the queue job publishes: the unfinalized requests end in the last request id, without gaps. */
  predicate Published(requests: seq<Request>, lastRequestId: int) {
    forall i :: 0 <= i < |requests| ==> requests[i].id == lastRequestId - |requests| + 1 + i
  }
}
