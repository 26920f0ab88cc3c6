/** The last-block forecaster (policy/forecasters/last_block.{h,cpp}): the percentiles of the
    last block with a non-zero p75 give the estimate. */
module LastBlockForecasts {
  import opened Wrappers
  import opened Forecasts

  /** `LAST_BLOCK_FORECAST_MAX_TARGET`. */
  const LAST_BLOCK_FORECAST_MAX_TARGET: nat := 2

  /** The stored percentiles after a block with percentiles `p`: replaced only by a non-zero p75. */
  function Stored(previous: Percentiles, p: Percentiles): (r: Percentiles)
    ensures p.p75 != 0 ==> r == p
    ensures p.p75 == 0 ==> r == previous
  {
    if p.p75 != 0 then p else previous
  }

  /** The stored percentiles after blocks `ps`, oldest first. */
  function Replay(stored: Percentiles, ps: seq<Percentiles>): Percentiles
  {
    if ps == [] then stored else Stored(Replay(stored, ps[..|ps| - 1]), ps[|ps| - 1])
  }

  /** While no block had a non-zero p75, the stored percentiles stay as they were. */
  lemma {:induction false} ReplayKeepsStored(stored: Percentiles, ps: seq<Percentiles>)
    requires forall k :: 0 <= k < |ps| ==> ps[k].p75 == 0
    ensures Replay(stored, ps) == stored
  {
    if ps != [] {
      var init := ps[..|ps| - 1];
      assert forall k :: 0 <= k < |init| ==> init[k] == ps[k];
      ReplayKeepsStored(stored, init);
    }
  }

  /** The stored percentiles are those of the last block with a non-zero p75. */
  lemma {:induction false} ReplayKeepsLastNonZero(stored: Percentiles, ps: seq<Percentiles>, k: nat)
    requires k < |ps| && ps[k].p75 != 0
    requires forall l :: k < l < |ps| ==> ps[l].p75 == 0
    ensures Replay(stored, ps) == ps[k]
  {
    var init := ps[..|ps| - 1];
    if k < |ps| - 1 {
      assert forall l :: 0 <= l < |init| ==> init[l] == ps[l];
      ReplayKeepsLastNonZero(stored, init, k);
    }
  }

  /** `LastBlockForecaster`. */
  class LastBlockForecaster {
    var chainTipHeight: nat
    var blocksPercentile: Percentiles

    /** What is stored is empty or has a non-zero p75. */
    ghost predicate Valid()
      reads this
    {
      blocksPercentile.IsEmpty() || blocksPercentile.p75 != 0
    }

    constructor()
      ensures Valid()
      ensures chainTipHeight == 0 && blocksPercentile == NoPercentiles()
    {
      chainTipHeight := 0;
      blocksPercentile := NoPercentiles();
    }

    /** `MempoolTransactionsRemovedForBlock`: `percentiles` are those of the block's linearised
        transactions. */
    method MempoolTransactionsRemovedForBlock(percentiles: Percentiles, blockHeight: nat)
      requires Valid()
      modifies this
      ensures Valid()
      ensures chainTipHeight == blockHeight
      ensures blocksPercentile == Stored(old(blocksPercentile), percentiles)
    {
      chainTipHeight := blockHeight;
      if percentiles.p75 != 0 {
        blocksPercentile := percentiles;
      }
    }

    /** `EstimateFee`: rejects, in order, a zero target, a target above 2 and nothing stored;
        otherwise the stored p25 and p50 are the low- and high-priority fee rates. */
    function EstimateFee(targetBlocks: nat): (r: ForecastResult)
      reads this
      ensures r.options.forecaster == LastBlockForecast && r.options.blockHeight == chainTipHeight
      ensures targetBlocks == 0 ==> r.err == Some(TargetNotPositive)
      ensures 0 < targetBlocks && targetBlocks > LAST_BLOCK_FORECAST_MAX_TARGET ==>
                r.err == Some(TargetAboveMax(targetBlocks, LAST_BLOCK_FORECAST_MAX_TARGET))
      ensures 0 < targetBlocks <= LAST_BLOCK_FORECAST_MAX_TARGET && blocksPercentile.IsEmpty() ==>
                r.err == Some(InsufficientBlockData)
      ensures r.err == None <==>
                0 < targetBlocks <= LAST_BLOCK_FORECAST_MAX_TARGET && !blocksPercentile.IsEmpty()
      ensures r.err == None ==> r.options.lowPriority == blocksPercentile.p25
                                && r.options.highPriority == blocksPercentile.p50
      ensures r.err != None ==> r.options.lowPriority == 0 && r.options.highPriority == 0
    {
      if targetBlocks <= 0 then Failure(LastBlockForecast, chainTipHeight, TargetNotPositive)
      else if targetBlocks > LAST_BLOCK_FORECAST_MAX_TARGET then
        Failure(LastBlockForecast, chainTipHeight, TargetAboveMax(targetBlocks, LAST_BLOCK_FORECAST_MAX_TARGET))
      else if blocksPercentile.IsEmpty() then Failure(LastBlockForecast, chainTipHeight, InsufficientBlockData)
      else Success(LastBlockForecast, chainTipHeight, blocksPercentile.p25, blocksPercentile.p50)
    }
  }
}
