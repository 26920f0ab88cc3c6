/** The block forecaster (policy/forecasters/block.cpp): a bounded FIFO of the percentiles of the
    last blocks, averaged into an estimate. */
module BlockForecasts {
  import opened Wrappers
  import opened Forecasts

  // ---------------------------------------------------------------------------------------------
  // The queue of block percentiles

  /** The queue after a block whose percentiles are `p`: a block with a zero p75 is not recorded;
      otherwise `p` is pushed at the back, the front popped first when the queue is full. */
  function Recorded(queue: seq<Percentiles>, p: Percentiles, capacity: nat): (r: seq<Percentiles>)
    requires 0 < capacity && |queue| <= capacity
    ensures |r| <= capacity
    ensures p.p75 == 0 ==> r == queue
    ensures p.p75 != 0 ==> |r| > 0 && r[|r| - 1] == p && r[..|r| - 1] == (if |queue| == capacity then queue[1..] else queue)
  {
    if p.p75 == 0 then queue
    else (if |queue| == capacity then queue[1..] else queue) + [p]
  }

  /** The queue after blocks with percentiles `ps`, oldest first. */
  function Replay(queue: seq<Percentiles>, ps: seq<Percentiles>, capacity: nat): (r: seq<Percentiles>)
    requires 0 < capacity && |queue| <= capacity
    ensures |r| <= capacity
  {
    if ps == [] then queue
    else Recorded(Replay(queue, ps[..|ps| - 1], capacity), ps[|ps| - 1], capacity)
  }

  /** The blocks of `ps` that are recorded: those with a non-zero p75, in order. */
  function Recordable(ps: seq<Percentiles>): (r: seq<Percentiles>)
    ensures forall k :: 0 <= k < |r| ==> r[k].p75 != 0 && r[k] in ps
  {
    if ps == [] then []
    else Recordable(ps[..|ps| - 1]) + (if ps[|ps| - 1].p75 != 0 then [ps[|ps| - 1]] else [])
  }

  /** The last `n` elements of `s`, or all of it when it is shorter. */
  function Latest(s: seq<Percentiles>, n: nat): (r: seq<Percentiles>)
    ensures |r| <= n && |r| <= |s|
  {
    if |s| <= n then s else s[|s| - n..]
  }

  /** Recording one more block keeps "the latest `capacity` recordable blocks". */
  lemma RecordedLatest(s: seq<Percentiles>, p: Percentiles, capacity: nat)
    requires 0 < capacity && p.p75 != 0
    ensures Recorded(Latest(s, capacity), p, capacity) == Latest(s + [p], capacity)
  {
    if |s| >= capacity {
      assert Latest(s, capacity)[1..] == s[|s| - capacity + 1..];
      assert (s + [p])[|s| + 1 - capacity..] == s[|s| - capacity + 1..] + [p];
    }
  }

  /** Starting empty, the queue always holds the latest `capacity` blocks with a non-zero p75,
      oldest first: a FIFO bounded by `capacity`. */
  lemma {:induction false} ReplayKeepsLatest(ps: seq<Percentiles>, capacity: nat)
    requires 0 < capacity
    ensures Replay([], ps, capacity) == Latest(Recordable(ps), capacity)
  {
    if ps != [] {
      var init, p := ps[..|ps| - 1], ps[|ps| - 1];
      ReplayKeepsLatest(init, capacity);
      if p.p75 != 0 {
        RecordedLatest(Recordable(init), p, capacity);
      } else {
        assert Recordable(ps) == Recordable(init) + [];
      }
    }
  }

  // ---------------------------------------------------------------------------------------------
  // Averaging

  /** The field-by-field sums of the queue's percentiles. */
  function Totals(qs: seq<Percentiles>): Percentiles
  {
    if qs == [] then Percentiles(0, 0, 0, 0)
    else
      var t, q := Totals(qs[..|qs| - 1]), qs[|qs| - 1];
      Percentiles(t.p5 + q.p5, t.p25 + q.p25, t.p50 + q.p50, t.p75 + q.p75)
  }

  /** `percentiles_average`: each sum divided, rounding down, by `n`. */
  function Average(qs: seq<Percentiles>, n: nat): Percentiles
    requires n > 0
  {
    var t := Totals(qs);
    Percentiles(t.p5 / n, t.p25 / n, t.p50 / n, t.p75 / n)
  }

  /** Every percentile of `p` lies in `[lo, hi]`. */
  predicate Within(p: Percentiles, lo: nat, hi: nat) {
    lo <= p.p5 <= hi && lo <= p.p25 <= hi && lo <= p.p50 <= hi && lo <= p.p75 <= hi
  }

  /** The sums of `k` values in `[lo, hi]` lie in `[k * lo, k * hi]`. */
  lemma {:induction false} TotalsWithin(qs: seq<Percentiles>, lo: nat, hi: nat)
    requires forall k :: 0 <= k < |qs| ==> Within(qs[k], lo, hi)
    ensures Within(Totals(qs), |qs| * lo, |qs| * hi)
  {
    if qs != [] {
      TotalsWithin(qs[..|qs| - 1], lo, hi);
      assert (|qs| - 1) * lo + lo == |qs| * lo;
      assert (|qs| - 1) * hi + hi == |qs| * hi;
    }
  }

  /** A multiple of `n` no larger than another has the smaller factor. */
  lemma {:induction false} MulCancel(a: nat, b: nat, n: nat)
    requires n > 0 && n * a <= n * b
    ensures a <= b
    decreases a
  {
    if a > 0 {
      assert n * a == n * (a - 1) + n;
      assert b > 0;
      assert n * b == n * (b - 1) + n;
      MulCancel(a - 1, b - 1, n);
    }
  }

  /** A multiple of `n` smaller than another has the smaller factor. */
  lemma {:induction false} MulCancelStrict(a: nat, b: nat, n: nat)
    requires n > 0 && n * a < n * b
    ensures a < b
    decreases a
  {
    if a > 0 {
      assert n * a == n * (a - 1) + n;
      assert b > 0;
      assert n * b == n * (b - 1) + n;
      MulCancelStrict(a - 1, b - 1, n);
    }
  }

  /** Rounding down a quotient keeps it between the bounds of the averaged values. */
  lemma DivWithin(total: nat, n: nat, lo: nat, hi: nat)
    requires n > 0 && n * lo <= total <= n * hi
    ensures lo <= total / n <= hi
  {
    var q, m := total / n, total % n;
    assert total == n * q + m && 0 <= m < n;
    assert n * (q + 1) == n * q + n;
    MulCancelStrict(lo, q + 1, n);
    MulCancel(q, hi, n);
  }

  /** The average of a full queue of blocks whose percentiles lie in `[lo, hi]` lies there too. */
  lemma AverageWithin(qs: seq<Percentiles>, lo: nat, hi: nat)
    requires |qs| > 0
    requires forall k :: 0 <= k < |qs| ==> Within(qs[k], lo, hi)
    ensures Within(Average(qs, |qs|), lo, hi)
  {
    TotalsWithin(qs, lo, hi);
    var t := Totals(qs);
    DivWithin(t.p5, |qs|, lo, hi);
    DivWithin(t.p25, |qs|, lo, hi);
    DivWithin(t.p50, |qs|, lo, hi);
    DivWithin(t.p75, |qs|, lo, hi);
  }

  /** The summing loop of `EstimateFee`: adds up the queue's percentiles, field by field. */
  method SumPercentiles(qs: seq<Percentiles>) returns (sum: Percentiles)
    ensures sum == Totals(qs)
  {
    sum := Percentiles(0, 0, 0, 0);
    var copy := qs;
    ghost var taken := 0;
    while copy != []
      invariant 0 <= taken <= |qs| && copy == qs[taken..]
      invariant sum == Totals(qs[..taken])
      decreases |copy|
    {
      var current := copy[0];
      copy := copy[1..];
      assert qs[..taken + 1][..taken] == qs[..taken];
      sum := Percentiles(sum.p5 + current.p5, sum.p25 + current.p25,
                         sum.p50 + current.p50, sum.p75 + current.p75);
      taken := taken + 1;
    }
    assert qs[..taken] == qs;
  }

  // ---------------------------------------------------------------------------------------------
  // The forecaster

  /** `BlockForecaster`. `MAX_NUMBER_OF_BLOCKS` and `BLOCK_FORECAST_MAX_TARGET` are fixed at
      construction. */
  class BlockForecaster {
    const maxNumberOfBlocks: nat
    const maxTarget: nat
    var chainTipHeight: nat
    var blocksPercentiles: seq<Percentiles>

    ghost predicate Valid()
      reads this
    {
      0 < maxNumberOfBlocks && |blocksPercentiles| <= maxNumberOfBlocks
    }

    constructor(maxNumberOfBlocks: nat, maxTarget: nat)
      requires 0 < maxNumberOfBlocks
      ensures Valid()
      ensures this.maxNumberOfBlocks == maxNumberOfBlocks && this.maxTarget == maxTarget
      ensures chainTipHeight == 0 && blocksPercentiles == []
    {
      this.maxNumberOfBlocks := maxNumberOfBlocks;
      this.maxTarget := maxTarget;
      chainTipHeight := 0;
      blocksPercentiles := [];
    }

    /** `MempoolTransactionsRemovedForBlock`: `percentiles` are those of the block's
        linearised transactions. */
    method MempoolTransactionsRemovedForBlock(percentiles: Percentiles, blockHeight: nat)
      requires Valid()
      modifies this
      ensures Valid()
      ensures chainTipHeight == blockHeight
      ensures blocksPercentiles == Recorded(old(blocksPercentiles), percentiles, maxNumberOfBlocks)
    {
      chainTipHeight := blockHeight;
      if percentiles.p75 != 0 {
        if |blocksPercentiles| == maxNumberOfBlocks {
          blocksPercentiles := blocksPercentiles[1..];
        }
        blocksPercentiles := blocksPercentiles + [percentiles];
      }
    }

    /** `EstimateFee`: rejects, in order, a zero target, a target above the maximum and a queue
        that is not full; otherwise it averages the queue and gives its p25 as the low-priority
        and its p50 as the high-priority fee rate. */
    method EstimateFee(targetBlocks: nat) returns (r: ForecastResult)
      requires Valid()
      ensures targetBlocks == 0 ==> r == Failure(BlockForecast, chainTipHeight, TargetNotPositive)
      ensures 0 < targetBlocks && targetBlocks > maxTarget ==>
                r == Failure(BlockForecast, chainTipHeight, TargetAboveMax(targetBlocks, maxTarget))
      ensures 0 < targetBlocks <= maxTarget && |blocksPercentiles| < maxNumberOfBlocks ==>
                r == Failure(BlockForecast, chainTipHeight, InsufficientBlockData)
      ensures 0 < targetBlocks <= maxTarget && |blocksPercentiles| == maxNumberOfBlocks ==>
                var avg := Average(blocksPercentiles, maxNumberOfBlocks);
                r == Success(BlockForecast, chainTipHeight, avg.p25, avg.p50)
    {
      if targetBlocks <= 0 {
        return Failure(BlockForecast, chainTipHeight, TargetNotPositive);
      }
      if targetBlocks > maxTarget {
        return Failure(BlockForecast, chainTipHeight, TargetAboveMax(targetBlocks, maxTarget));
      }
      if |blocksPercentiles| < maxNumberOfBlocks {
        return Failure(BlockForecast, chainTipHeight, InsufficientBlockData);
      }
      var sum := SumPercentiles(blocksPercentiles);
      var average := Percentiles(sum.p5 / maxNumberOfBlocks, sum.p25 / maxNumberOfBlocks,
                                 sum.p50 / maxNumberOfBlocks, sum.p75 / maxNumberOfBlocks);
      return Success(BlockForecast, chainTipHeight, average.p25, average.p50);
    }
  }
}
