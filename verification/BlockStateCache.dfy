// The block-state cache (BlockStateCacheService) under interleaved calls. A call of getBlockState is a
// sequence of atomic segments, split at its awaits; other calls run between them.

module BlockStateCache {
  import opened Results
  import opened GenesisTime

  const BLOCK_NUMBER_TTL_MS := SECONDS_PER_SLOT * 1000

  datatype BlockState = BlockState(blockNumber: int, unfinalized: int, buffer: int, vaultsBalance: int)

  /** What the contracts answer for a block; there are no reorganizations. */
  datatype Chain = Chain(
    unfinalizedAt: int -> int,
    bufferedEtherAt: int -> int,
    depositsReserveAt: int -> int)

  /** The fields of the service, as a value. */
  datatype Fields = Fields(
    cachedBlockNumber: Option<int>,
    blockNumberCachedAt: Option<int>,
    stateCache: Option<BlockState>)

  /** A block number was fetched by a resolution that began at a time. */
  datatype Resolution = Resolution(beganAt: int, blockNumber: int)

  // ---- the segments, as functions of the fields

  /** The block number in the cache, when it is younger than its time to live. */
  function FreshBlockNumber(f: Fields, now: int): Option<int> {
    if && f.cachedBlockNumber.Some? && f.blockNumberCachedAt.Some?
       && now - f.blockNumberCachedAt.value < BLOCK_NUMBER_TTL_MS
    then f.cachedBlockNumber
    else None
  }

  function StoreBlockNumber(f: Fields, startedAt: int, blockNumber: int): Fields {
    f.(cachedBlockNumber := Some(blockNumber), blockNumberCachedAt := Some(startedAt))
  }

  function CachedState(f: Fields, blockNumber: int): Option<BlockState> {
    if f.stateCache.Some? && f.stateCache.value.blockNumber == blockNumber then f.stateCache else None
  }

  /** The state of a block from what was read at it; `reserve` is 0 when the contract has no deposits reserve. */
  function StateFrom(blockNumber: int, unfinalized: int, totalBuffer: int, reserve: int, vaultsBalance: int)
    : BlockState
  {
    BlockState(blockNumber, unfinalized, if totalBuffer > reserve then totalBuffer - reserve else 0, vaultsBalance)
  }

  // ---- the service

  class BlockStateCacheService {
    var cachedBlockNumber: Option<int>
    var blockNumberCachedAt: Option<int>
    var stateCache: Option<BlockState>

    ghost var resolutions: seq<Resolution>  // every resolution that completed, in the order of completion
    ghost var states: seq<BlockState>       // every state that was read, in the order of completion

    function View(): Fields
      reads this
    {
      Fields(cachedBlockNumber, blockNumberCachedAt, stateCache)
    }

    /** The caches hold the last resolution and the last state. */
    ghost predicate Valid()
      reads this
    {
      && (if resolutions == [] then cachedBlockNumber.None? && blockNumberCachedAt.None?
          else
            var last := resolutions[|resolutions| - 1];
            cachedBlockNumber == Some(last.blockNumber) && blockNumberCachedAt == Some(last.beganAt))
      && stateCache == if states == [] then None else Some(states[|states| - 1])
    }

    constructor ()
      ensures Valid() && resolutions == [] && states == []
      ensures View() == Fields(None, None, None)
    {
      cachedBlockNumber, blockNumberCachedAt, stateCache := None, None, None;
      resolutions, states := [], [];
    }

    /**
     * getOrFetchBlockNumber up to its await: the block of the last completed resolution when that began less than
     * the time to live ago; otherwise a fetch starts.
     */
    method BeginBlockNumber(now: int) returns (hit: Option<int>)
      requires Valid()
      ensures hit.Some? <==> resolutions != [] && now - resolutions[|resolutions| - 1].beganAt < BLOCK_NUMBER_TTL_MS
      ensures hit.Some? ==> hit.value == resolutions[|resolutions| - 1].blockNumber
      ensures hit == FreshBlockNumber(View(), now)
    {
      if && cachedBlockNumber.Some? && blockNumberCachedAt.Some?
         && now - blockNumberCachedAt.value < BLOCK_NUMBER_TTL_MS {
        return cachedBlockNumber;
      }
      return None;
    }

    /** getOrFetchBlockNumber after its await: the resolution completes. */
    method EndBlockNumber(startedAt: int, blockNumber: int)
      requires Valid()
      modifies this
      ensures Valid() && states == old(states)
      ensures resolutions == old(resolutions) + [Resolution(startedAt, blockNumber)]
      ensures View() == StoreBlockNumber(old(View()), startedAt, blockNumber)
    {
      cachedBlockNumber := Some(blockNumber);
      blockNumberCachedAt := Some(startedAt);
      resolutions := resolutions + [Resolution(startedAt, blockNumber)];
    }

    /** getBlockState after its first await: the state that was read last, when it is the state of this block. */
    method LookUpState(blockNumber: int) returns (hit: Option<BlockState>)
      requires Valid()
      ensures hit.Some? <==> states != [] && states[|states| - 1].blockNumber == blockNumber
      ensures hit.Some? ==> hit.value == states[|states| - 1]
      ensures hit == CachedState(View(), blockNumber)
    {
      if stateCache.Some? && stateCache.value.blockNumber == blockNumber {
        return stateCache;
      }
      return None;
    }

    /** getBlockState after its last await: the state that it builds becomes the last one. */
    method EndState(blockNumber: int, unfinalized: int, totalBuffer: int, reserve: int, vaultsBalance: int)
      returns (state: BlockState)
      requires Valid()
      modifies this
      ensures Valid() && resolutions == old(resolutions) && states == old(states) + [state]
      ensures state == StateFrom(blockNumber, unfinalized, totalBuffer, reserve, vaultsBalance)
      ensures View() == old(View()).(stateCache := Some(state))
    {
      var buffer := if totalBuffer > reserve then totalBuffer - reserve else 0;
      state := BlockState(blockNumber, unfinalized, buffer, vaultsBalance);
      stateCache := Some(state);
      states := states + [state];
    }
  }

  // ---- interleavings

  /** Where one call of getBlockState stands. */
  datatype Call =
    | Resolving(startedAt: int)                                  // waits for resolveBlockNumber
    | Located(blockNumber: int)                                  // waits for its own getOrFetchBlockNumber
    | Reading(blockNumber: int, withReserve: bool)               // waits for the four reads
    | Returned(located: int, state: BlockState, withReserve: bool)
    | Failed

  /** A call was served a block number from the cache at a time. */
  datatype Served = Served(at: int, blockNumber: int)

  /** A call read the vaults balance at a block. */
  datatype VaultsRead = VaultsRead(blockNumber: int, vaultsBalance: int)

  datatype World = World(
    fields: Fields,
    clock: int,
    calls: map<nat, Call>,
    resolutions: set<Resolution>,
    served: set<Served>,
    vaultsReads: set<VaultsRead>,
    cachedWithReserve: bool)  // whether the reserve was read for the cached state

  ghost predicate Init(w: World) {
    && w.fields == Fields(None, None, None)
    && w.calls == map[] && w.resolutions == {} && w.served == {} && w.vaultsReads == {}
  }

  datatype Step =
    | Tick(to: int)
    | Start(id: nat)
    | Resolved(id: nat, block: int)
    | LookUp(id: nat, supportsDepositsReserve: bool)
    | Read(id: nat, vaultsBalance: int)
    | Fail(id: nat)

  /** The deposits reserve is read only from a contract that has one. */
  function Reserve(chain: Chain, withReserve: bool, block: int): int {
    if withReserve then chain.depositsReserveAt(block) else 0
  }

  function StateAt(chain: Chain, withReserve: bool, block: int, vaultsBalance: int): BlockState {
    var reserve := Reserve(chain, withReserve, block);
    StateFrom(block, chain.unfinalizedAt(block), chain.bufferedEtherAt(block), reserve, vaultsBalance)
  }

  ghost predicate Next(chain: Chain, w: World, step: Step, w': World) {
    match step
    case Tick(to) => w.clock <= to && w' == w.(clock := to)
    case Start(id) =>
      && id !in w.calls
      && var hit := FreshBlockNumber(w.fields, w.clock);
         w' == if hit.Some?
               then w.(calls := w.calls[id := Located(hit.value)], served := w.served + {Served(w.clock, hit.value)})
               else w.(calls := w.calls[id := Resolving(w.clock)])
    case Resolved(id, block) =>
      && id in w.calls && w.calls[id].Resolving?
      && var startedAt := w.calls[id].startedAt;
         w' == w.(fields := StoreBlockNumber(w.fields, startedAt, block),
                  calls := w.calls[id := Located(block)],
                  resolutions := w.resolutions + {Resolution(startedAt, block)})
    case LookUp(id, supports) =>
      && id in w.calls && w.calls[id].Located?
      && var block := w.calls[id].blockNumber;
         var hit := CachedState(w.fields, block);
         w' == if hit.Some?
               then w.(calls := w.calls[id := Returned(block, hit.value, w.cachedWithReserve)])
               else w.(calls := w.calls[id := Reading(block, supports)])
    case Read(id, vaultsBalance) =>
      && id in w.calls && w.calls[id].Reading?
      && var Reading(block, withReserve) := w.calls[id];
         var state := StateAt(chain, withReserve, block, vaultsBalance);
         w' == w.(fields := w.fields.(stateCache := Some(state)),
                  calls := w.calls[id := Returned(block, state, withReserve)],
                  vaultsReads := w.vaultsReads + {VaultsRead(block, vaultsBalance)},
                  cachedWithReserve := withReserve)
    case Fail(id) =>
      && id in w.calls && (w.calls[id].Resolving? || w.calls[id].Reading?)
      && w' == w.(calls := w.calls[id := Failed])
  }

  ghost predicate IsRun(chain: Chain, run: seq<World>, steps: seq<Step>) {
    && |run| == |steps| + 1
    && Init(run[0])
    && forall i :: 0 <= i < |steps| ==> Next(chain, run[i], steps[i], run[i + 1])
  }

  // ---- the invariant

  /** Everything in the state but the vaults was read at its own block. */
  predicate ReadAtItsBlock(chain: Chain, withReserve: bool, state: BlockState) {
    state == StateAt(chain, withReserve, state.blockNumber, state.vaultsBalance)
  }

  function VaultsReadOf(state: BlockState): VaultsRead {
    VaultsRead(state.blockNumber, state.vaultsBalance)
  }

  /** The block number was resolved by a fetch that began less than the time to live before. */
  ghost predicate RecentlyResolved(w: World, s: Served) {
    exists r :: r in w.resolutions && r.blockNumber == s.blockNumber && 0 <= s.at - r.beganAt < BLOCK_NUMBER_TTL_MS
  }

  /** The block that a call works with. */
  function BlockOf(c: Call): Option<int> {
    match c
    case Located(block) => Some(block)
    case Reading(block, _) => Some(block)
    case Returned(block, _, _) => Some(block)
    case _ => None
  }

  /** Some resolution gave this block number. */
  ghost predicate IsResolved(w: World, block: int) {
    exists r :: r in w.resolutions && r.blockNumber == block
  }

  /** The cached state was read at its block, and the cached block number comes from a resolution. */
  ghost predicate FieldsInv(chain: Chain, w: World) {
    && (w.fields.stateCache.Some? ==>
          && ReadAtItsBlock(chain, w.cachedWithReserve, w.fields.stateCache.value)
          && VaultsReadOf(w.fields.stateCache.value) in w.vaultsReads)
    && (w.fields.cachedBlockNumber.Some? <==> w.fields.blockNumberCachedAt.Some?)
    && (w.fields.cachedBlockNumber.Some? ==>
          Resolution(w.fields.blockNumberCachedAt.value, w.fields.cachedBlockNumber.value) in w.resolutions)
    && (forall r :: r in w.resolutions ==> r.beganAt <= w.clock)
  }

  ghost predicate CallInv(chain: Chain, w: World, c: Call) {
    && (c.Resolving? ==> c.startedAt <= w.clock)
    && (BlockOf(c).Some? ==> IsResolved(w, BlockOf(c).value))
    && (c.Returned? ==>
          && ReadAtItsBlock(chain, c.withReserve, c.state) && c.state.blockNumber == c.located
          && VaultsReadOf(c.state) in w.vaultsReads)
  }

  ghost predicate Inv(chain: Chain, w: World) {
    && FieldsInv(chain, w)
    && (forall id :: id in w.calls ==> CallInv(chain, w, w.calls[id]))
    && (forall s :: s in w.served ==> RecentlyResolved(w, s))
  }

  lemma ServedStaysRecent(w: World, w': World)
    requires w.resolutions <= w'.resolutions
    requires forall s :: s in w.served ==> RecentlyResolved(w, s)
    ensures forall s :: s in w.served ==> RecentlyResolved(w', s)
  {
    forall s | s in w.served
      ensures RecentlyResolved(w', s)
    {
      var r :| r in w.resolutions && r.blockNumber == s.blockNumber && 0 <= s.at - r.beganAt < BLOCK_NUMBER_TTL_MS;
      assert r in w'.resolutions;
    }
  }

  lemma ResolvedStaysResolved(w: World, w': World)
    requires w.resolutions <= w'.resolutions
    ensures forall block :: IsResolved(w, block) ==> IsResolved(w', block)
  {
    forall block | IsResolved(w, block)
      ensures IsResolved(w', block)
    {
      var r :| r in w.resolutions && r.blockNumber == block;
      assert r in w'.resolutions;
    }
  }

  lemma StepKeepsFields(chain: Chain, w: World, step: Step, w': World)
    requires Inv(chain, w) && Next(chain, w, step, w')
    ensures FieldsInv(chain, w')
  {
    if step.Resolved? {
      assert CallInv(chain, w, w.calls[step.id]);
    }
  }

  lemma StepKeepsCalls(chain: Chain, w: World, step: Step, w': World, id: nat)
    requires Inv(chain, w) && Next(chain, w, step, w')
    requires id in w'.calls
    ensures CallInv(chain, w', w'.calls[id])
  {
    ResolvedStaysResolved(w, w');
    if id in w.calls {
      assert CallInv(chain, w, w.calls[id]);
    }
    if step.Resolved? {
      assert Resolution(w.calls[step.id].startedAt, step.block) in w'.resolutions;
    } else if step.Start? && FreshBlockNumber(w.fields, w.clock).Some? {
      assert Resolution(w.fields.blockNumberCachedAt.value, w.fields.cachedBlockNumber.value) in w'.resolutions;
    }
  }

  lemma StepKeepsServed(chain: Chain, w: World, step: Step, w': World)
    requires Inv(chain, w) && Next(chain, w, step, w')
    ensures forall s :: s in w'.served ==> RecentlyResolved(w', s)
  {
    ServedStaysRecent(w, w');
    if step.Start? && FreshBlockNumber(w.fields, w.clock).Some? {
      var r := Resolution(w.fields.blockNumberCachedAt.value, w.fields.cachedBlockNumber.value);
      assert r in w'.resolutions;
      assert RecentlyResolved(w', Served(w.clock, r.blockNumber));
    }
  }

  lemma StepKeepsInv(chain: Chain, w: World, step: Step, w': World)
    requires Inv(chain, w) && Next(chain, w, step, w')
    ensures Inv(chain, w')
  {
    StepKeepsFields(chain, w, step, w');
    StepKeepsServed(chain, w, step, w');
    forall id | id in w'.calls
      ensures CallInv(chain, w', w'.calls[id])
    {
      StepKeepsCalls(chain, w, step, w', id);
    }
  }

  lemma {:induction false} RunKeepsInv(chain: Chain, run: seq<World>, steps: seq<Step>, i: nat)
    requires IsRun(chain, run, steps) && i < |run|
    ensures Inv(chain, run[i])
  {
    if i > 0 {
      RunKeepsInv(chain, run, steps, i - 1);
      StepKeepsInv(chain, run[i - 1], steps[i - 1], run[i]);
    }
  }

  // ---- the results

  /**
   * In every interleaving, a call returns the state of the block it located, which some resolution gave: the
   * unfinalized amount of that block, and as buffer its ether less its reserve, or 0. The reserve counts when the
   * call that read the state found a contract with one. The vaults balance is one that a call read at this block.
   */
  lemma ReturnedStatesAreConsistent(chain: Chain, run: seq<World>, steps: seq<Step>, i: nat, id: nat)
    requires IsRun(chain, run, steps) && i < |run|
    requires id in run[i].calls && run[i].calls[id].Returned?
    ensures var Returned(located, state, withReserve) := run[i].calls[id];
      var available := chain.bufferedEtherAt(state.blockNumber)
                       - (if withReserve then chain.depositsReserveAt(state.blockNumber) else 0);
      && state.blockNumber == located && IsResolved(run[i], located)
      && state.unfinalized == chain.unfinalizedAt(state.blockNumber)
      && state.buffer == (if available > 0 then available else 0)
      && VaultsRead(located, state.vaultsBalance) in run[i].vaultsReads
  {
    RunKeepsInv(chain, run, steps, i);
    assert CallInv(chain, run[i], run[i].calls[id]);
  }

  /** In every interleaving, a block number from the cache was resolved by a fetch that began under 12 s before. */
  lemma ServedBlockNumbersAreRecent(chain: Chain, run: seq<World>, steps: seq<Step>, i: nat, s: Served)
    requires IsRun(chain, run, steps) && i < |run| && s in run[i].served
    ensures exists r :: r in run[i].resolutions && r.blockNumber == s.blockNumber && 0 <= s.at - r.beganAt < 12_000
  {
    RunKeepsInv(chain, run, steps, i);
    assert RecentlyResolved(run[i], s);
  }
}
