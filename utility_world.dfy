/**
 * The parts of `Utility` that work on a world: which layer of a cell a
 * player breaks or places a block in, whether breaking or placing there is
 * allowed, and the fixed-timestep world update loop.
 */
module UtilityWorld {
  import opened Java
  import Protocol
  import Utility
  import BlockGrid
  import World

  /** `getBlockBreakLayer`: the top block layer of the cell, as `getTopBlockLayer` finds it. */
  method GetBlockBreakLayer(blocks: BlockGrid.BlockGrid, x: int, y: int) returns (r: Result<int>)
    requires blocks.Valid()
    ensures !blocks.IsValid(0, x, y) ==> r == Err(IllegalArgument)
    ensures blocks.IsValid(0, x, y) ==> (r.Ok? && (
      (r.value == BlockGrid.INVALID_LAYER && !blocks.AnyBlock(0, blocks.layers - 1, x, y))
      || (0 <= r.value < blocks.layers && blocks.Cell(r.value, x, y).Some? && !blocks.AnyBlock(0, r.value - 1, x, y))))
  {
    r := blocks.GetTopBlockLayer(x, y);
  }

  /**
   * `getBlockPlaceLayer`: counting down from the last layer, the first layer
   * of the cell without a block, or -1 when every layer holds one. Outside
   * the grid the first `isBlock` throws, unless the grid has no layers.
   */
  method GetBlockPlaceLayer(blocks: BlockGrid.BlockGrid, x: int, y: int) returns (r: Result<int>)
    requires blocks.Valid()
    ensures !blocks.IsValidCell(x, y) ==> r == if blocks.layers > 0 then Err(IllegalArgument) else Ok(-1)
    ensures blocks.IsValidCell(x, y) ==> (r.Ok? && -1 <= r.value < blocks.layers
      && (forall l | r.value < l < blocks.layers :: blocks.Cell(l, x, y).Some?)
      && (r.value >= 0 ==> blocks.Cell(r.value, x, y).None?))
  {
    var i: int := blocks.layers as int - 1;
    while i >= 0
      invariant -1 <= i < blocks.layers
      invariant blocks.IsValidCell(x, y) ==> forall l | i < l < blocks.layers :: blocks.Cell(l, x, y).Some?
      invariant !blocks.IsValidCell(x, y) ==> i == blocks.layers - 1
    {
      var occupied := blocks.IsBlock(i, x, y);
      if occupied.Err? {
        return Err(occupied.error);
      }
      if !occupied.value {
        return Ok(i);
      }
      i := i - 1;
    }
    return Ok(-1);
  }

  /**
   * `isBreakable`: a block at `layer` with no block in a layer in front of
   * it. A coordinate outside the grid throws from `isBlock`.
   */
  method IsBreakable(blocks: BlockGrid.BlockGrid, layer: int, x: int, y: int) returns (r: Result<bool>)
    requires blocks.Valid()
    ensures !blocks.IsValid(layer, x, y) ==> r == Err(IllegalArgument)
    ensures blocks.IsValid(layer, x, y) ==> r == Ok(blocks.Cell(layer, x, y).Some? && !blocks.AnyBlock(0, layer - 1, x, y))
  {
    var here := blocks.IsBlock(layer, x, y);
    if here.Err? {
      return Err(here.error);
    }
    if !here.value {
      return Ok(false);
    }
    if layer == 0 {
      return Ok(true);
    }
    var covered := blocks.IsBlockInLayers(0, layer - 1, x, y);
    return Ok(!covered.value);
  }

  /**
   * `isPlaceable`: a non-negative layer whose layers from the main one to
   * itself are empty, and which is backed by a block in the next layer, or,
   * in the last layer, by a block next to the cell. A negative layer is
   * never placeable; a non-negative one outside the grid throws from
   * `isBlockInLayers`.
   */
  method IsPlaceable(blocks: BlockGrid.BlockGrid, layer: int, x: int, y: int) returns (r: Result<bool>)
    requires blocks.Valid()
    ensures layer < 0 ==> r == Ok(false)
    ensures layer >= 0 && !blocks.IsValid(layer, x, y) ==> r == Err(IllegalArgument)
    ensures blocks.IsValid(layer, x, y) ==> r == Ok(!blocks.AnyBlock(0, layer, x, y) && (
      if layer < blocks.layers - 1 then blocks.Cell(layer + 1, x, y).Some?
      else blocks.IsSolidBlockAdjacent(layer, x, y)))
  {
    if layer < 0 {
      return Ok(false);
    }
    var occupied := blocks.IsBlockInLayers(World.LAYER_MAIN, layer, x, y);
    if occupied.Err? {
      return Err(occupied.error);
    }
    if occupied.value {
      return Ok(false);
    }
    if layer < blocks.layers - 1 {
      var behind := blocks.IsBlock(layer + 1, x, y);
      return Ok(behind.value);
    }
    return Ok(blocks.IsSolidBlockAdjacent(layer, x, y));
  }

  /**
   * `resendIntervalElapsed(startTime, attempts)` as written, with the clock
   * reading `now`: `RESEND_INTERVAL`, already in nanoseconds, goes through
   * `millisToNanos` once more, so each attempt waits a million times longer
   * than the protocol's interval.
   */
  predicate ResendIntervalElapsed(startTime: long, attempts: int32, now: long)
  {
    now >= ToLong(ToLong(Utility.MillisToNanos(Protocol.RESEND_INTERVAL) * attempts) + startTime)
  }

  /** The resend check as intended: `attempts` whole resend intervals after `startTime`. */
  predicate ResendIntervalElapsedIntended(startTime: long, attempts: int32, now: long)
  {
    now >= ToLong(ToLong(Protocol.RESEND_INTERVAL * attempts) + startTime)
  }

  /**
   * One attempt sent at time 0 and 200 milliseconds gone: two resend
   * intervals have passed, yet the check as written still waits, and goes on
   * waiting for more than a day.
   */
  lemma ResendWaitsTooLong()
    ensures !ResendIntervalElapsed(0, 1, 200_000_000)
    ensures !ResendIntervalElapsed(0, 1, 86_400_000_000_000)
    ensures ResendIntervalElapsedIntended(0, 1, 200_000_000)
  {
    assert Utility.MillisToNanos(Protocol.RESEND_INTERVAL) == 100_000_000_000_000;
  }

  /**
   * With the intended check, the `k`-th resend (for `k` up to `RESEND_COUNT`)
   * is due `k` intervals after the first send, so the last one falls due
   * exactly at `TIMEOUT_DISCONNECT`.
   */
  lemma ResendSchedule(startTime: long, attempts: int32, now: long)
    requires 0 <= attempts <= Protocol.RESEND_COUNT && 0 <= startTime <= now
    requires startTime + Protocol.TIMEOUT_DISCONNECT <= INT_MAX * INT_MAX
    ensures ResendIntervalElapsedIntended(startTime, attempts, now) <==> now - startTime >= attempts * Protocol.RESEND_INTERVAL
    ensures Protocol.RESEND_COUNT * Protocol.RESEND_INTERVAL == Protocol.TIMEOUT_DISCONNECT
  {
    Protocol.Sizes();
    var interval := Protocol.RESEND_INTERVAL;
    assert interval == 100_000_000;
    var wait := attempts * interval;
    assert 0 <= wait <= 1_000_000_000;
    WrapId(wait, 0x1_0000_0000_0000_0000);
    WrapId(wait + startTime, 0x1_0000_0000_0000_0000);
  }

  /** The total of a sequence of timesteps. */
  function Sum(steps: seq<int>): int
  {
    if |steps| == 0 then 0 else Sum(steps[..|steps| - 1]) + steps[|steps| - 1]
  }

  /** Every step but the last is a full timestep, and the last is at most one. */
  predicate FullSteps(steps: seq<int>, maxTimestep: int)
  {
    (forall k | 0 <= k < |steps| :: 0 < steps[k] <= maxTimestep)
    && (forall k | 0 <= k < |steps| - 1 :: steps[k] == maxTimestep)
  }

  /**
   * `updateWorld(world, previousTime, maxTimestep)` with the clock reading
   * `now` passed in: the elapsed time (in 64-bit arithmetic) is refused
   * above `MAX_UPDATE_TIME_ALLOWED`; otherwise the world is updated in
   * `steps`, full timesteps then the rest, which add up to the elapsed
   * time (none when it is not positive), and `now` is returned.
   */
  method UpdateWorld(previousTime: long, now: long, maxTimestep: long) returns (r: Result<long>, steps: seq<int>)
    requires maxTimestep > 0
    ensures ToLong(now - previousTime) > Protocol.MAX_UPDATE_TIME_ALLOWED ==> r == Err(IllegalArgument) && steps == []
    ensures ToLong(now - previousTime) <= Protocol.MAX_UPDATE_TIME_ALLOWED ==> (r == Ok(now)
      && FullSteps(steps, maxTimestep)
      && Sum(steps) == if ToLong(now - previousTime) > 0 then ToLong(now - previousTime) else 0)
  {
    var timeRemaining: int := ToLong(now as int - previousTime);
    if timeRemaining > Protocol.MAX_UPDATE_TIME_ALLOWED {
      return Err(IllegalArgument), [];
    }
    ghost var elapsed := timeRemaining;
    steps := [];
    while timeRemaining > 0
      invariant timeRemaining <= elapsed
      invariant Sum(steps) + (if timeRemaining > 0 then timeRemaining else 0) == if elapsed > 0 then elapsed else 0
      invariant StepsSoFar(steps, maxTimestep, timeRemaining)
      decreases timeRemaining
    {
      var singleUpdateTime := if timeRemaining <= maxTimestep then timeRemaining else maxTimestep as int;
      NextStep(steps, maxTimestep, timeRemaining, singleUpdateTime);
      steps := steps + [singleUpdateTime];
      timeRemaining := timeRemaining - singleUpdateTime;
    }
    return Ok(now), steps;
  }

  /**
   * The steps taken while `remaining` time is left: each positive and at
   * most a timestep, all full while time remains, all but the last once it
   * has run out.
   */
  predicate StepsSoFar(steps: seq<int>, maxTimestep: int, remaining: int)
  {
    (forall k | 0 <= k < |steps| :: 0 < steps[k] <= maxTimestep)
    && (remaining > 0 ==> forall k | 0 <= k < |steps| :: steps[k] == maxTimestep)
    && (remaining <= 0 ==> forall k | 0 <= k < |steps| - 1 :: steps[k] == maxTimestep)
    && (|steps| > 0 ==> remaining >= 0)
  }

  /** One more update of the full timestep, or of what remains when that is less. */
  lemma NextStep(steps: seq<int>, maxTimestep: int, remaining: int, single: int)
    requires maxTimestep > 0 && remaining > 0 && StepsSoFar(steps, maxTimestep, remaining)
    requires single == if remaining <= maxTimestep then remaining else maxTimestep
    ensures StepsSoFar(steps + [single], maxTimestep, remaining - single)
    ensures Sum(steps + [single]) == Sum(steps) + single
  {
    assert (steps + [single])[..|steps|] == steps;
  }

  /**
   * The number of updates is the elapsed time divided by the timestep,
   * rounded up: `n` steps of which all but the last are full.
   */
  lemma {:induction false} StepCount(steps: seq<int>, maxTimestep: int)
    requires maxTimestep > 0 && FullSteps(steps, maxTimestep)
    ensures |steps| == (Sum(steps) + maxTimestep - 1) / maxTimestep
  {
    if |steps| > 0 {
      var n := |steps| - 1;
      FullPrefix(steps[..n], maxTimestep);
      assert Sum(steps) == n * maxTimestep + steps[n];
      DivCeil(n, steps[n], maxTimestep);
    }
  }

  /** A run of full timesteps adds up to their number times the timestep. */
  lemma {:induction false} FullPrefix(steps: seq<int>, maxTimestep: int)
    requires forall k | 0 <= k < |steps| :: steps[k] == maxTimestep
    ensures Sum(steps) == |steps| * maxTimestep
  {
    if |steps| > 0 {
      FullPrefix(steps[..|steps| - 1], maxTimestep);
    }
  }

  lemma DivCeil(n: int, last: int, m: int)
    requires n >= 0 && 0 < last <= m
    ensures (n * m + last + m - 1) / m == n + 1
  {
    var q := n * m + last + m - 1;
    assert (n + 1) * m <= q < (n + 2) * m;
    Java.DivModUnique(q, m, n + 1, q - (n + 1) * m);
  }
}
