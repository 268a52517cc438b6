// getLogsByBlockStepsWithRetry: fetching event logs in chunks of blocks, with retries
// (ExecutionProviderService).

module LogFetcher {
  import opened FloorArithmetic

  datatype Log = Log(blockNumber: int, data: string)

  /** The execution node: the logs of every block, and which attempts at which chunk throw. */
  datatype Provider = Provider(logsOf: int -> seq<Log>, throws: (int, int) -> bool)

  /** One eth_getLogs call. */
  datatype Call = Call(startBlock: int, endBlock: int, attempt: int)

  /** What one call over the whole range answers: the logs of all its blocks, in order. */
  function LogsIn(p: Provider, fromBlock: int, toBlock: int): seq<Log>
    decreases toBlock - fromBlock
  {
    if fromBlock > toBlock then [] else p.logsOf(fromBlock) + LogsIn(p, fromBlock + 1, toBlock)
  }

  function EndOf(startBlock: int, toBlock: int, blockStep: int): int {
    Min(startBlock + blockStep - 1, toBlock)
  }

  ghost predicate Answers(p: Provider, startBlock: int, retryCount: int) {
    exists attempt :: 0 <= attempt < retryCount && !p.throws(startBlock, attempt)
  }

  /** The logs of one chunk, if some attempt does not throw. */
  ghost function ChunkLogs(p: Provider, startBlock: int, endBlock: int, retryCount: int): seq<Log> {
    if Answers(p, startBlock, retryCount) then LogsIn(p, startBlock, endBlock) else []
  }

  ghost function ChunkedLogs(p: Provider, fromBlock: int, toBlock: int, retryCount: int, blockStep: int): seq<Log>
    requires blockStep >= 1
    decreases toBlock - fromBlock
  {
    if fromBlock > toBlock then [] else
      ChunkLogs(p, fromBlock, EndOf(fromBlock, toBlock, blockStep), retryCount)
      + ChunkedLogs(p, fromBlock + blockStep, toBlock, retryCount, blockStep)
  }

  /** `startBlock` begins a chunk of the range. */
  predicate IsChunkStart(startBlock: int, fromBlock: int, toBlock: int, blockStep: int)
    requires blockStep >= 1
  {
    fromBlock <= startBlock <= toBlock && (startBlock - fromBlock) % blockStep == 0
  }

  /** Every call is for a chunk of the range, with fewer earlier attempts than retries, and no call is repeated. */
  ghost predicate BoundedCalls(calls: seq<Call>, fromBlock: int, toBlock: int, retryCount: int, blockStep: int)
    requires blockStep >= 1
  {
    && (forall i :: 0 <= i < |calls| ==>
          && IsChunkStart(calls[i].startBlock, fromBlock, toBlock, blockStep)
          && calls[i].endBlock == EndOf(calls[i].startBlock, toBlock, blockStep)
          && 0 <= calls[i].attempt < retryCount)
    && forall i, j :: 0 <= i < j < |calls| ==>
         || calls[i].startBlock < calls[j].startBlock
         || (calls[i].startBlock == calls[j].startBlock && calls[i].attempt < calls[j].attempt)
  }

  /** The inner loop: retries one chunk until it has logs, at most retryCount times. */
  method FetchChunk(p: Provider, startBlock: int, endBlock: int, retryCount: int)
    returns (blockLogs: seq<Log>, ghost attempts: nat)
    ensures blockLogs == ChunkLogs(p, startBlock, endBlock, retryCount)
    ensures attempts <= retryCount || attempts == 0
  {
    var attempt := 0;
    blockLogs := [];
    while |blockLogs| == 0 && attempt < retryCount
      invariant 0 <= attempt && (attempt <= retryCount || attempt == 0)
      invariant |blockLogs| > 0 ==> Answers(p, startBlock, retryCount) && blockLogs == LogsIn(p, startBlock, endBlock)
      invariant |blockLogs| == 0 ==>
        LogsIn(p, startBlock, endBlock) == [] || forall a :: 0 <= a < attempt ==> p.throws(startBlock, a)
    {
      if !p.throws(startBlock, attempt) {
        blockLogs := LogsIn(p, startBlock, endBlock);
      }
      attempt := attempt + 1;
    }
    attempts := attempt;
  }

  method GetLogsByBlockStepsWithRetry(p: Provider, fromBlock: int, toBlock: int, retryCount: int, blockStep: int)
    returns (logs: seq<Log>, ghost calls: seq<Call>)
    requires blockStep >= 1
    ensures logs == ChunkedLogs(p, fromBlock, toBlock, retryCount, blockStep)
    ensures BoundedCalls(calls, fromBlock, toBlock, retryCount, blockStep)
  {
    logs := [];
    calls := [];
    var startBlock := fromBlock;
    while startBlock <= toBlock
      invariant startBlock >= fromBlock && (startBlock - fromBlock) % blockStep == 0
      invariant logs + ChunkedLogs(p, startBlock, toBlock, retryCount, blockStep)
             == ChunkedLogs(p, fromBlock, toBlock, retryCount, blockStep)
      invariant BoundedCalls(calls, fromBlock, toBlock, retryCount, blockStep)
      invariant forall i :: 0 <= i < |calls| ==> calls[i].startBlock < startBlock
      decreases toBlock - startBlock
    {
      var endBlock := EndOf(startBlock, toBlock, blockStep);
      var blockLogs, attempts := FetchChunk(p, startBlock, endBlock, retryCount);
      AppendChunk(p, logs, startBlock, toBlock, retryCount, blockStep);
      LaterChunk(startBlock + blockStep - fromBlock, blockStep);
      calls := calls + seq(attempts, attempt => Call(startBlock, endBlock, attempt));
      logs := logs + blockLogs;
      startBlock := startBlock + blockStep;
    }
  }

  lemma AppendChunk(p: Provider, logs: seq<Log>, startBlock: int, toBlock: int, retryCount: int, blockStep: int)
    requires blockStep >= 1 && startBlock <= toBlock
    ensures logs + ChunkedLogs(p, startBlock, toBlock, retryCount, blockStep)
         == (logs + ChunkLogs(p, startBlock, EndOf(startBlock, toBlock, blockStep), retryCount))
            + ChunkedLogs(p, startBlock + blockStep, toBlock, retryCount, blockStep)
  {
  }

  // ---- the chunks partition the range

  lemma {:induction false} SplitRange(p: Provider, fromBlock: int, middle: int, toBlock: int)
    requires fromBlock <= middle + 1 && middle <= toBlock
    ensures LogsIn(p, fromBlock, toBlock) == LogsIn(p, fromBlock, middle) + LogsIn(p, middle + 1, toBlock)
    decreases middle - fromBlock
  {
    if fromBlock <= middle {
      SplitRange(p, fromBlock + 1, middle, toBlock);
    }
  }

  /** Every non-empty chunk has a non-throwing attempt among the first retryCount ones. */
  ghost predicate AllAnswer(p: Provider, fromBlock: int, toBlock: int, retryCount: int, blockStep: int)
    requires blockStep >= 1
    decreases toBlock - fromBlock
  {
    fromBlock > toBlock
    || (&& (Answers(p, fromBlock, retryCount) || LogsIn(p, fromBlock, EndOf(fromBlock, toBlock, blockStep)) == [])
        && AllAnswer(p, fromBlock + blockStep, toBlock, retryCount, blockStep))
  }

  /** The recursive predicate is about exactly the chunk starts of the range. */
  lemma {:induction false} AllAnswerMeaning(p: Provider, fromBlock: int, toBlock: int, retryCount: int, blockStep: int)
    requires blockStep >= 1
    ensures AllAnswer(p, fromBlock, toBlock, retryCount, blockStep)
            <==> forall s :: IsChunkStart(s, fromBlock, toBlock, blockStep) ==>
                   Answers(p, s, retryCount) || LogsIn(p, s, EndOf(s, toBlock, blockStep)) == []
    decreases toBlock - fromBlock
  {
    if fromBlock <= toBlock {
      var rest := fromBlock + blockStep;
      AllAnswerMeaning(p, rest, toBlock, retryCount, blockStep);
      forall s
        ensures IsChunkStart(s, fromBlock, toBlock, blockStep)
                <==> s == fromBlock || IsChunkStart(s, rest, toBlock, blockStep)
      {
        LaterChunk(s - fromBlock, blockStep);
      }
    }
  }

  lemma LaterChunk(offset: int, blockStep: int)
    requires blockStep >= 1
    ensures offset % blockStep == (offset - blockStep) % blockStep
    ensures 0 < offset < blockStep ==> offset % blockStep != 0
  {
    ModShift(offset, blockStep, -1);
    if 0 < offset < blockStep {
      DivUnique(offset, blockStep, 0);
    }
  }

  /** Never more than one fetch over the range; as much exactly when every non-empty chunk answers. */
  lemma {:induction false} ChunkedLength(p: Provider, fromBlock: int, toBlock: int, retryCount: int, blockStep: int)
    requires blockStep >= 1
    ensures |ChunkedLogs(p, fromBlock, toBlock, retryCount, blockStep)| <= |LogsIn(p, fromBlock, toBlock)|
    ensures |ChunkedLogs(p, fromBlock, toBlock, retryCount, blockStep)| == |LogsIn(p, fromBlock, toBlock)|
            <==> AllAnswer(p, fromBlock, toBlock, retryCount, blockStep)
    ensures AllAnswer(p, fromBlock, toBlock, retryCount, blockStep)
            ==> ChunkedLogs(p, fromBlock, toBlock, retryCount, blockStep) == LogsIn(p, fromBlock, toBlock)
    decreases toBlock - fromBlock
  {
    if fromBlock <= toBlock {
      var endBlock := EndOf(fromBlock, toBlock, blockStep);
      ChunkedLength(p, fromBlock + blockStep, toBlock, retryCount, blockStep);
      SplitRange(p, fromBlock, endBlock, toBlock);
      assert endBlock + 1 == fromBlock + blockStep || LogsIn(p, endBlock + 1, toBlock) == [];
    }
  }

  /**
   * Chunked fetching gives the full ordered list of one fetch over the range exactly when every chunk that has
   * logs has a non-throwing attempt among the first retryCount.
   */
  lemma CompleteExactlyWhenEveryChunkAnswers(p: Provider, fromBlock: int, toBlock: int, retryCount: int, blockStep: int)
    requires blockStep >= 1
    ensures ChunkedLogs(p, fromBlock, toBlock, retryCount, blockStep) == LogsIn(p, fromBlock, toBlock)
            <==> forall s :: IsChunkStart(s, fromBlock, toBlock, blockStep) ==>
                   Answers(p, s, retryCount) || LogsIn(p, s, EndOf(s, toBlock, blockStep)) == []
  {
    ChunkedLength(p, fromBlock, toBlock, retryCount, blockStep);
    AllAnswerMeaning(p, fromBlock, toBlock, retryCount, blockStep);
  }

  /** The start of the chunk that a block of the range belongs to. */
  function ChunkOf(block: int, fromBlock: int, blockStep: int): int
    requires blockStep >= 1
  {
    block - (block - fromBlock) % blockStep
  }

  /** The node without the logs of the chunks that never answer. */
  ghost function Answered(p: Provider, fromBlock: int, retryCount: int, blockStep: int): Provider
    requires blockStep >= 1
  {
    Provider(block => if Answers(p, ChunkOf(block, fromBlock, blockStep), retryCount) then p.logsOf(block) else [],
             p.throws)
  }

  /**
   * Chunked fetching gives what one fetch over the range would give, were there no logs in the chunks none of whose
   * first retryCount attempts answers.
   */
  lemma AnsweringChunksInOrder(p: Provider, fromBlock: int, toBlock: int, retryCount: int, blockStep: int)
    requires blockStep >= 1
    ensures ChunkedLogs(p, fromBlock, toBlock, retryCount, blockStep)
         == LogsIn(Answered(p, fromBlock, retryCount, blockStep), fromBlock, toBlock)
  {
    DivUnique(0, blockStep, 0);
    ChunksFrom(p, fromBlock, fromBlock, toBlock, retryCount, blockStep);
  }

  lemma {:induction false} ChunksFrom(p: Provider, fromBlock: int, startBlock: int, toBlock: int, retryCount: int,
                                      blockStep: int)
    requires blockStep >= 1 && startBlock >= fromBlock && (startBlock - fromBlock) % blockStep == 0
    ensures ChunkedLogs(p, startBlock, toBlock, retryCount, blockStep)
         == LogsIn(Answered(p, fromBlock, retryCount, blockStep), startBlock, toBlock)
    decreases toBlock - startBlock
  {
    if startBlock <= toBlock {
      var q, endBlock := Answered(p, fromBlock, retryCount, blockStep), EndOf(startBlock, toBlock, blockStep);
      LaterChunk(startBlock + blockStep - fromBlock, blockStep);
      ChunksFrom(p, fromBlock, startBlock + blockStep, toBlock, retryCount, blockStep);
      SplitRange(q, startBlock, endBlock, toBlock);
      assert endBlock + 1 == startBlock + blockStep || LogsIn(q, endBlock + 1, toBlock) == [];
      OneChunk(p, q, fromBlock, startBlock, startBlock, endBlock, retryCount, blockStep);
    }
  }

  lemma {:induction false} OneChunk(p: Provider, q: Provider, fromBlock: int, startBlock: int, block: int,
                                    endBlock: int, retryCount: int, blockStep: int)
    requires blockStep >= 1 && q == Answered(p, fromBlock, retryCount, blockStep)
    requires (startBlock - fromBlock) % blockStep == 0 && startBlock <= block && endBlock < startBlock + blockStep
    ensures LogsIn(q, block, endBlock) == if Answers(p, startBlock, retryCount) then LogsIn(p, block, endBlock) else []
    decreases endBlock - block
  {
    if block <= endBlock {
      SameChunk(fromBlock, startBlock, block, blockStep);
      OneChunk(p, q, fromBlock, startBlock, block + 1, endBlock, retryCount, blockStep);
    }
  }

  lemma SameChunk(fromBlock: int, startBlock: int, block: int, blockStep: int)
    requires blockStep >= 1 && (startBlock - fromBlock) % blockStep == 0
    requires startBlock <= block < startBlock + blockStep
    ensures ChunkOf(block, fromBlock, blockStep) == startBlock
  {
    var chunks := (startBlock - fromBlock) / blockStep;
    assert startBlock - fromBlock == blockStep * chunks;
    ModShift(block - startBlock, blockStep, chunks);
    DivUnique(block - startBlock, blockStep, 0);
  }

  /** Bounded calls are at most retryCount calls for each chunk. */
  function CallsFor(calls: seq<Call>, startBlock: int): seq<Call> {
    if calls == [] then [] else
      var front, last := CallsFor(calls[..|calls| - 1], startBlock), calls[|calls| - 1];
      if last.startBlock == startBlock then front + [last] else front
  }

  lemma {:induction false} AtMostRetryCountCalls(calls: seq<Call>, startBlock: int, fromBlock: int, toBlock: int,
                                                 retryCount: int, blockStep: int)
    requires blockStep >= 1 && BoundedCalls(calls, fromBlock, toBlock, retryCount, blockStep)
    ensures |CallsFor(calls, startBlock)| <= (if retryCount > 0 then retryCount else 0)
    ensures CallsFor(calls, startBlock) != [] ==>
      var last := CallsFor(calls, startBlock)[|CallsFor(calls, startBlock)| - 1];
      last in calls && last.startBlock == startBlock && |CallsFor(calls, startBlock)| <= last.attempt + 1
  {
    if calls != [] {
      var front, last := calls[..|calls| - 1], calls[|calls| - 1];
      AtMostRetryCountCalls(front, startBlock, fromBlock, toBlock, retryCount, blockStep);
      assert forall c :: c in front ==> c in calls;
      assert last.attempt < retryCount;
    }
  }
}
