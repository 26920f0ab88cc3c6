/** The last-ten-minutes mempool forecaster (policy/forecasters/mempool_last_10_min.cpp): the
    next block is filled greedily from the linearised mempool, every package received in the
    last ten minutes counted twice, and the percentiles of that block give the estimate. */
module MempoolLast10Min {
  import opened Wrappers
  import opened Forecasts
  import opened MempoolFees

  /** `MEMPOOL_LAST_10_MIN_FORECAST_MAX_TARGET`. */
  const MEMPOOL_LAST_10_MIN_FORECAST_MAX_TARGET: nat := 2

  /** Ten minutes, in seconds. */
  const TEN_MINUTES: nat := 600

  /** One package of the linearisation: its fee rate and virtual size, and the time its sponsor
      transaction entered the mempool. */
  datatype Package = Package(entry: RateSize, entryTime: int)

  /** The package's sponsor arrived at or after `cutoff`. */
  predicate Recent(p: Package, cutoff: int) {
    p.entryTime >= cutoff
  }

  /** The block statistics of the packages `pkgs`: each package once, a recent one twice. */
  function Expanded(pkgs: seq<Package>, cutoff: int): seq<RateSize>
  {
    if pkgs == [] then []
    else
      var init, p := pkgs[..|pkgs| - 1], pkgs[|pkgs| - 1];
      Expanded(init, cutoff) + (if Recent(p, cutoff) then [p.entry, p.entry] else [p.entry])
  }

  /** The weight the package adds to the block: its size in weight units, once per copy. */
  function AddedWeight(p: Package, cutoff: int): nat {
    var once := Weight(p.entry.size);
    if Recent(p, cutoff) then once + once else once
  }

  /** The weight of a concatenation is the sum of the weights. */
  lemma {:induction false} CumWeightAppend(a: seq<RateSize>, b: seq<RateSize>)
    ensures CumWeight(a + b) == CumWeight(a) + CumWeight(b)
    decreases |b|
  {
    if b != [] {
      var init := b[..|b| - 1];
      assert (a + b)[..|a + b| - 1] == a + init;
      assert (a + b)[|a + b| - 1] == b[|b| - 1];
      CumWeightAppend(a, init);
    } else {
      assert a + b == a;
    }
  }

  /** The weight of the block holding the packages `pkgs`, a recent one counted twice. */
  function PackagesWeight(pkgs: seq<Package>, cutoff: int): nat {
    if pkgs == [] then 0
    else PackagesWeight(pkgs[..|pkgs| - 1], cutoff) + AddedWeight(pkgs[|pkgs| - 1], cutoff)
  }

  /** `PackagesWeight` is the weight of the block statistics of the packages. */
  lemma {:induction false} PackagesWeightIsCumWeight(pkgs: seq<Package>, cutoff: int)
    ensures CumWeight(Expanded(pkgs, cutoff)) == PackagesWeight(pkgs, cutoff)
  {
    if pkgs != [] {
      var init, p := pkgs[..|pkgs| - 1], pkgs[|pkgs| - 1];
      PackagesWeightIsCumWeight(init, cutoff);
      var tail := if Recent(p, cutoff) then [p.entry, p.entry] else [p.entry];
      CumWeightAppend(Expanded(init, cutoff), tail);
      assert [p.entry][..0] == [];
      assert CumWeight([p.entry]) == Weight(p.entry.size);
      if Recent(p, cutoff) {
        assert tail[..1] == [p.entry];
      }
    }
  }

  /** Taking more packages never lowers the block's weight. */
  lemma {:induction false} PackagesWeightMonotone(pkgs: seq<Package>, cutoff: int, i: nat, j: nat)
    requires i <= j <= |pkgs|
    ensures PackagesWeight(pkgs[..i], cutoff) <= PackagesWeight(pkgs[..j], cutoff)
    decreases j - i
  {
    if i < j {
      PackagesWeightMonotone(pkgs, cutoff, i, j - 1);
      assert pkgs[..j][..j - 1] == pkgs[..j - 1];
    }
  }

  /** Taking the first `n` packages fills the block greedily: their weight stays within the
      default block weight, and one more package would exceed it. */
  predicate FitsGreedily(pkgs: seq<Package>, cutoff: int, n: nat) {
    && n <= |pkgs|
    && PackagesWeight(pkgs[..n], cutoff) <= DEFAULT_BLOCK_MAX_WEIGHT
    && (n < |pkgs| ==> PackagesWeight(pkgs[..n + 1], cutoff) > DEFAULT_BLOCK_MAX_WEIGHT)
  }

  /** The greedy fill is unique: only one prefix fits in this way. */
  lemma FitsGreedilyUnique(pkgs: seq<Package>, cutoff: int, n: nat, m: nat)
    requires FitsGreedily(pkgs, cutoff, n) && FitsGreedily(pkgs, cutoff, m)
    ensures n == m
  {
    if n < m {
      PackagesWeightMonotone(pkgs, cutoff, n + 1, m);
    } else if m < n {
      PackagesWeightMonotone(pkgs, cutoff, m + 1, n);
    }
  }

  /** What taking package `n` does to the statistics and the weight of the first `n`. */
  lemma TakeNext(pkgs: seq<Package>, cutoff: int, n: nat, stats: seq<RateSize>, weight: nat)
    requires n < |pkgs| && stats == Expanded(pkgs[..n], cutoff)
    requires weight == PackagesWeight(pkgs[..n], cutoff)
    ensures PackagesWeight(pkgs[..n + 1], cutoff) == weight + AddedWeight(pkgs[n], cutoff)
    ensures Recent(pkgs[n], cutoff) ==>
              Expanded(pkgs[..n + 1], cutoff) == stats + [pkgs[n].entry] + [pkgs[n].entry]
              && AddedWeight(pkgs[n], cutoff) == Weight(pkgs[n].entry.size) + Weight(pkgs[n].entry.size)
    ensures !Recent(pkgs[n], cutoff) ==>
              Expanded(pkgs[..n + 1], cutoff) == stats + [pkgs[n].entry]
              && AddedWeight(pkgs[n], cutoff) == Weight(pkgs[n].entry.size)
  {
    assert pkgs[..n + 1][..n] == pkgs[..n];
    assert pkgs[..n + 1][n] == pkgs[n];
    assert stats + [pkgs[n].entry] + [pkgs[n].entry] == stats + [pkgs[n].entry, pkgs[n].entry];
  }

  /** The first `n` packages are the ones the source's loop takes: for each of them the running
      weight plus the package's virtual size (not its weight) stays within
      `DEFAULT_BLOCK_MAX_WEIGHT`, and for the next package it does not. */
  predicate FitsAsWritten(pkgs: seq<Package>, cutoff: int, n: nat) {
    && n <= |pkgs|
    && (forall k :: 0 <= k < n ==> PackagesWeight(pkgs[..k], cutoff) + pkgs[k].entry.size <= DEFAULT_BLOCK_MAX_WEIGHT)
    && (n < |pkgs| ==> PackagesWeight(pkgs[..n], cutoff) + pkgs[n].entry.size > DEFAULT_BLOCK_MAX_WEIGHT)
  }

  /** Only one prefix passes the source's test in this way. */
  lemma FitsAsWrittenUnique(pkgs: seq<Package>, cutoff: int, n: nat, m: nat)
    requires FitsAsWritten(pkgs, cutoff, n) && FitsAsWritten(pkgs, cutoff, m)
    ensures n == m
  {
  }

  /** The number of packages the source's loop takes, counting on from package `k`. */
  function AsWrittenFrom(pkgs: seq<Package>, cutoff: int, k: nat): (n: nat)
    requires k <= |pkgs|
    requires forall j :: 0 <= j < k ==> PackagesWeight(pkgs[..j], cutoff) + pkgs[j].entry.size <= DEFAULT_BLOCK_MAX_WEIGHT
    ensures k <= n && FitsAsWritten(pkgs, cutoff, n)
    decreases |pkgs| - k
  {
    if k == |pkgs| || PackagesWeight(pkgs[..k], cutoff) + pkgs[k].entry.size > DEFAULT_BLOCK_MAX_WEIGHT then k
    else AsWrittenFrom(pkgs, cutoff, k + 1)
  }

  /** The number of packages the source's loop takes. */
  function TakenAsWritten(pkgs: seq<Package>, cutoff: int): (n: nat)
    ensures FitsAsWritten(pkgs, cutoff, n)
  {
    AsWrittenFrom(pkgs, cutoff, 0)
  }

  /** The number of packages a fill that tests the weight a package adds would take, counting on
      from package `k`. */
  function GreedyFrom(pkgs: seq<Package>, cutoff: int, k: nat): (n: nat)
    requires k <= |pkgs| && PackagesWeight(pkgs[..k], cutoff) <= DEFAULT_BLOCK_MAX_WEIGHT
    ensures k <= n && FitsGreedily(pkgs, cutoff, n)
    decreases |pkgs| - k
  {
    if k == |pkgs| || PackagesWeight(pkgs[..k + 1], cutoff) > DEFAULT_BLOCK_MAX_WEIGHT then k
    else GreedyFrom(pkgs, cutoff, k + 1)
  }

  /** The number of packages the evidently intended loop takes: the longest prefix whose block
      stays within the block weight. */
  function GreedyCount(pkgs: seq<Package>, cutoff: int): (n: nat)
    ensures FitsGreedily(pkgs, cutoff, n)
    ensures PackagesWeight(pkgs[..n], cutoff) <= DEFAULT_BLOCK_MAX_WEIGHT
  {
    assert pkgs[..0] == [];
    GreedyFrom(pkgs, cutoff, 0)
  }

  /** The source's test lets through every package the intended one does, and possibly more. */
  lemma AsWrittenTakesAtLeastGreedy(pkgs: seq<Package>, cutoff: int, n: nat, m: nat)
    requires FitsAsWritten(pkgs, cutoff, n) && FitsGreedily(pkgs, cutoff, m)
    ensures m <= n
  {
    if n < m {
      TakeNext(pkgs, cutoff, n, Expanded(pkgs[..n], cutoff), PackagesWeight(pkgs[..n], cutoff));
      PackagesWeightMonotone(pkgs, cutoff, n + 1, m);
      assert false;
    }
  }

  /** The collection loop of `EstimateFeeWithMemPool`: packages are taken in linearisation
      order, each recent one twice, until the running weight plus the next package's virtual
      size exceeds `DEFAULT_BLOCK_MAX_WEIGHT`. */
  method CollectBlockFeeStats(pkgs: seq<Package>, cutoff: int)
    returns (stats: seq<RateSize>, weight: nat, taken: nat)
    ensures FitsAsWritten(pkgs, cutoff, taken) && taken == TakenAsWritten(pkgs, cutoff)
    ensures stats == Expanded(pkgs[..taken], cutoff)
    ensures weight == CumWeight(stats)
  {
    stats, weight, taken := [], 0, 0;
    while taken < |pkgs|
      invariant taken <= |pkgs|
      invariant stats == Expanded(pkgs[..taken], cutoff)
      invariant weight == PackagesWeight(pkgs[..taken], cutoff)
      invariant forall k :: 0 <= k < taken ==>
                  PackagesWeight(pkgs[..k], cutoff) + pkgs[k].entry.size <= DEFAULT_BLOCK_MAX_WEIGHT
      decreases |pkgs| - taken
    {
      var p := pkgs[taken];
      var packageSize := p.entry.size;
      if weight + packageSize > DEFAULT_BLOCK_MAX_WEIGHT {
        break;
      }
      TakeNext(pkgs, cutoff, taken, stats, weight);
      if p.entryTime >= cutoff {
        weight := weight + Weight(packageSize);
        stats := stats + [p.entry];
      }
      weight := weight + Weight(packageSize);
      stats := stats + [p.entry];
      taken := taken + 1;
    }
    FitsAsWrittenUnique(pkgs, cutoff, taken, TakenAsWritten(pkgs, cutoff));
    PackagesWeightIsCumWeight(pkgs[..taken], cutoff);
  }

  /** A single old package of 1,000,000 virtual bytes passes the source's test, and the block
      then weighs 4,000,000, over the 3,996,000 limit; the intended fill takes nothing. */
  lemma UnscaledSizeOverfillsBlock(cutoff: int)
    ensures var pkgs := [Package(RateSize(1000, 1_000_000), cutoff - 1)];
            && TakenAsWritten(pkgs, cutoff) == 1
            && CumWeight(Expanded(pkgs, cutoff)) == 4_000_000 > DEFAULT_BLOCK_MAX_WEIGHT
            && GreedyCount(pkgs, cutoff) == 0
  {
    var e := RateSize(1000, 1_000_000);
    var pkgs := [Package(e, cutoff - 1)];
    assert !Recent(pkgs[0], cutoff) && AddedWeight(pkgs[0], cutoff) == 4_000_000;
    assert pkgs[..0] == [] && pkgs[..1] == pkgs;
    TakeNext(pkgs, cutoff, 0, [], 0);
    PackagesWeightIsCumWeight(pkgs, cutoff);
    assert FitsAsWritten(pkgs, cutoff, 1);
    FitsAsWrittenUnique(pkgs, cutoff, 1, TakenAsWritten(pkgs, cutoff));
    assert !FitsGreedily(pkgs, cutoff, 1);
  }

  /** The result for the percentiles of the collected block: no estimate when they are empty or
      their p75 is zero, otherwise p25 and p50 as the low- and high-priority fee rates. */
  function Outcome(tipHeight: nat, p: Percentiles): (r: ForecastResult)
    ensures r.options.forecaster == MempoolLast10MinForecast && r.options.blockHeight == tipHeight
    ensures r.err == None <==> p.p75 != 0
    ensures r.err != None ==> r == Failure(MempoolLast10MinForecast, tipHeight, InsufficientMempoolData)
    ensures r.err == None ==> r.options.lowPriority == p.p25 && r.options.highPriority == p.p50
  {
    if p.IsEmpty() || p.p75 == 0 then Failure(MempoolLast10MinForecast, tipHeight, InsufficientMempoolData)
    else Success(MempoolLast10MinForecast, tipHeight, p.p25, p.p50)
  }

  /** `EstimateFeeWithMemPool`: rejects, in order, a zero target, a target above 2 and a mempool
      that has not finished loading; otherwise it fills the next block greedily from the
      linearisation `pkgs` (packages received at or after `now` minus ten minutes counted twice)
      and turns the block's percentiles into the result. `percentilesOf` stands for
      `CalculateBlockPercentiles` and `pkgs` for what `GetNextBlockFeeRateAndVsize` returns. */
  method EstimateFee(targetBlocks: nat, loadTried: bool, tipHeight: nat, pkgs: seq<Package>,
                     now: int, percentilesOf: seq<RateSize> -> Percentiles)
    returns (r: ForecastResult)
    ensures targetBlocks == 0 ==> r == Failure(MempoolLast10MinForecast, tipHeight, TargetNotPositive)
    ensures 0 < targetBlocks && targetBlocks > MEMPOOL_LAST_10_MIN_FORECAST_MAX_TARGET ==>
              r == Failure(MempoolLast10MinForecast, tipHeight,
                           TargetAboveMax(targetBlocks, MEMPOOL_LAST_10_MIN_FORECAST_MAX_TARGET))
    ensures 0 < targetBlocks <= MEMPOOL_LAST_10_MIN_FORECAST_MAX_TARGET && !loadTried ==>
              r == Failure(MempoolLast10MinForecast, tipHeight, MempoolNotLoaded)
    ensures 0 < targetBlocks <= MEMPOOL_LAST_10_MIN_FORECAST_MAX_TARGET && loadTried ==>
              var cutoff := now - TEN_MINUTES;
              r == Outcome(tipHeight, percentilesOf(Expanded(pkgs[..TakenAsWritten(pkgs, cutoff)], cutoff)))
  {
    if targetBlocks <= 0 {
      return Failure(MempoolLast10MinForecast, tipHeight, TargetNotPositive);
    }
    if targetBlocks > MEMPOOL_LAST_10_MIN_FORECAST_MAX_TARGET {
      return Failure(MempoolLast10MinForecast, tipHeight,
                     TargetAboveMax(targetBlocks, MEMPOOL_LAST_10_MIN_FORECAST_MAX_TARGET));
    }
    if !loadTried {
      return Failure(MempoolLast10MinForecast, tipHeight, MempoolNotLoaded);
    }
    var stats, _, taken := CollectBlockFeeStats(pkgs, now - TEN_MINUTES);
    r := Outcome(tipHeight, percentilesOf(stats));
  }
}
