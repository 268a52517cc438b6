// calculateFrameByValidatorBalances: when do the balances of withdrawing validators, together with
// the rewards of the frames in between, cover a deficit?

module FrameByValidatorBalances {
  import opened Results
  import opened FloorArithmetic
  import opened BalanceMaps

  ghost function UpTo(m: FrameBalances, f: int): FrameBalances {
    map k | k in m && k <= f :: m[k]
  }

  /** Everything that has come in by frame `f`: balances of all frames up to it, and future rewards. */
  ghost function Accrued(m: FrameBalances, currentFrame: int, rewards: int, f: int): int {
    Sum(UpTo(m, f)) + Max(0, f - currentFrame) * rewards
  }

  ghost function CoveringFrames(m: FrameBalances, deficit: int, currentFrame: int, rewards: int): set<int> {
    set f | f in m && Accrued(m, currentFrame, rewards, f) >= deficit
  }

  /** The least frame of the map that covers the deficit, if some frame does. */
  ghost function CoveringFrame(m: FrameBalances, deficit: int, currentFrame: int, rewards: int): Option<int> {
    var frames := CoveringFrames(m, deficit, currentFrame, rewards);
    if frames == {} then None else Some(Least(frames))
  }

  method CalculateFrameByValidatorBalances(unfinalized: int, rewardsAvailableForWithdrawals: int,
      currentFrame: int, frameBalances: FrameBalances)
    returns (result: Option<int>)
    ensures result == CoveringFrame(frameBalances, unfinalized, currentFrame, rewardsAvailableForWithdrawals)
  {
    var unfinalizedAmount := unfinalized;
    var lastFrame := currentFrame;
    var frames := Keys(frameBalances.Keys);
    ghost var totals := Totals(frameBalances, currentFrame, rewardsAvailableForWithdrawals, frames);
    result := None;
    var i := 0;
    while i < |frames|
      invariant 0 <= i <= |frames|
      invariant lastFrame == LastFrame(frames, i, currentFrame)
      invariant unfinalizedAmount == unfinalized - totals[i]
      invariant forall j :: 0 < j <= i ==> totals[j] < unfinalized
    {
      TotalsStep(totals, frameBalances, currentFrame, rewardsAvailableForWithdrawals, frames, i);
      var frame := frames[i];
      var balance := frameBalances[frame];
      var framesBetween := frame - lastFrame;
      var reduced := unfinalizedAmount - balance;
      if framesBetween >= 0 {
        reduced := reduced - framesBetween * rewardsAvailableForWithdrawals;
        lastFrame := frame;
      }
      unfinalizedAmount := reduced;
      if reduced <= 0 {
        FirstIsLeast(totals, frameBalances, unfinalized, currentFrame, rewardsAvailableForWithdrawals, frames, i);
        return Some(frame);
      }
      i := i + 1;
    }
    NoneCovers(totals, frameBalances, unfinalized, currentFrame, rewardsAvailableForWithdrawals, frames);
  }

  // ---- the loop

  /** `frames` lists the keys of the map in ascending order. */
  ghost predicate AreKeys(frames: seq<int>, m: FrameBalances) {
    Ascending(frames) && forall k {:trigger k in m.Keys} {:trigger k in frames} :: k in frames <==> k in m.Keys
  }

  /** The last future frame that the loop has seen when it reaches position `i`. */
  ghost function LastFrame(frames: seq<int>, i: nat, currentFrame: int): int
    requires i <= |frames|
  {
    if i == 0 then currentFrame else Max(currentFrame, frames[i - 1])
  }

  /** What has come in when the loop reaches position `i`. */
  ghost function AccruedBefore(m: FrameBalances, currentFrame: int, rewards: int, frames: seq<int>, i: nat): int
    requires i <= |frames|
  {
    if i == 0 then 0 else Accrued(m, currentFrame, rewards, frames[i - 1])
  }

  /** `totals[i]` is what has come in when the loop reaches position `i`. */
  ghost predicate AreTotals(totals: seq<int>, m: FrameBalances, currentFrame: int, rewards: int, frames: seq<int>) {
    && AreKeys(frames, m)
    && |totals| == |frames| + 1
    && forall i: nat {:trigger AccruedBefore(m, currentFrame, rewards, frames, i)} :: i <= |frames| ==>
         totals[i] == AccruedBefore(m, currentFrame, rewards, frames, i)
  }

  lemma Totals(m: FrameBalances, currentFrame: int, rewards: int, frames: seq<int>) returns (totals: seq<int>)
    requires AreKeys(frames, m)
    ensures AreTotals(totals, m, currentFrame, rewards, frames)
    ensures totals[0] == 0
  {
    totals := seq(|frames| + 1, i requires 0 <= i <= |frames| => AccruedBefore(m, currentFrame, rewards, frames, i));
  }

  lemma TotalsStep(totals: seq<int>, m: FrameBalances, currentFrame: int, rewards: int, frames: seq<int>, i: nat)
    requires AreTotals(totals, m, currentFrame, rewards, frames) && i < |frames|
    ensures frames[i] in m
    ensures var frame, last := frames[i], LastFrame(frames, i, currentFrame);
      && totals[i + 1] == totals[i] + m[frame] + (if frame >= last then (frame - last) * rewards else 0)
      && LastFrame(frames, i + 1, currentFrame) == if frame >= last then frame else last
  {
    var frame, last := frames[i], LastFrame(frames, i, currentFrame);
    assert totals[i] == AccruedBefore(m, currentFrame, rewards, frames, i);
    assert totals[i + 1] == AccruedBefore(m, currentFrame, rewards, frames, i + 1);
    BalanceStep(m, frames, i);
    Distribute(frame - currentFrame, last - currentFrame, rewards);
    if i > 0 {
      assert frames[i - 1] < frame;
    }
  }

  lemma FirstIsLeast(totals: seq<int>, m: FrameBalances, deficit: int, currentFrame: int, rewards: int,
                     frames: seq<int>, i: nat)
    requires AreTotals(totals, m, currentFrame, rewards, frames) && i < |frames|
    requires totals[i + 1] >= deficit
    requires forall j :: 0 < j <= i ==> totals[j] < deficit
    ensures CoveringFrame(m, deficit, currentFrame, rewards) == Some(frames[i])
  {
    var covering := CoveringFrames(m, deficit, currentFrame, rewards);
    assert frames[i] in frames && AccruedBefore(m, currentFrame, rewards, frames, i + 1) >= deficit;
    assert frames[i] in covering;
    forall f | f in covering
      ensures frames[i] <= f
    {
      assert f in frames;
      var p :| 0 <= p < |frames| && frames[p] == f;
      assert totals[p + 1] == AccruedBefore(m, currentFrame, rewards, frames, p + 1);
    }
  }

  lemma NoneCovers(totals: seq<int>, m: FrameBalances, deficit: int, currentFrame: int, rewards: int, frames: seq<int>)
    requires AreTotals(totals, m, currentFrame, rewards, frames)
    requires forall j :: 0 < j <= |frames| ==> totals[j] < deficit
    ensures CoveringFrame(m, deficit, currentFrame, rewards) == None
  {
    forall f | f in m
      ensures f !in CoveringFrames(m, deficit, currentFrame, rewards)
    {
      assert f in frames;
      var p :| 0 <= p < |frames| && frames[p] == f;
      assert totals[p + 1] == AccruedBefore(m, currentFrame, rewards, frames, p + 1);
    }
  }

  lemma BalanceStep(m: FrameBalances, frames: seq<int>, i: nat)
    requires AreKeys(frames, m) && i < |frames|
    ensures frames[i] in frames
    ensures Sum(UpTo(m, frames[i])) == (if i == 0 then 0 else Sum(UpTo(m, frames[i - 1]))) + m[frames[i]]
  {
    var k := frames[i];
    var upTo, before := UpTo(m, k), if i == 0 then map[] else UpTo(m, frames[i - 1]);
    forall j | j in m && j <= k && j != k
      ensures j in before
    {
      var p :| 0 <= p < |frames| && frames[p] == j;
      assert p < i;
    }
    assert upTo - {k} == before;
    SumRemove(upTo, k);
  }

  /** A larger deficit or smaller rewards never bring a frame into the covering set. */
  lemma CoveringMonotone(m: FrameBalances, deficit: int, deficit': int, currentFrame: int, rewards: int, rewards': int)
    requires deficit <= deficit' && rewards >= rewards'
    ensures CoveringFrames(m, deficit', currentFrame, rewards') <= CoveringFrames(m, deficit, currentFrame, rewards)
  {
    forall f | f in CoveringFrames(m, deficit', currentFrame, rewards')
      ensures f in CoveringFrames(m, deficit, currentFrame, rewards)
    {
      assert Max(0, f - currentFrame) * rewards' <= Max(0, f - currentFrame) * rewards;
    }
  }
}
