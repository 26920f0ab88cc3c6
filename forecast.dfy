/** Types shared by the mempool estimator and the forecasters: fee-rate/size entries,
    percentile summaries and forecast results. */
module Forecasts {
  import opened Wrappers

  /** Bytes of witness-discounted size per weight unit. */
  const WITNESS_SCALE_FACTOR: nat := 4

  /** The weight of `vsize` virtual bytes, `vsize * WITNESS_SCALE_FACTOR`; the factor is written
      out so that the arithmetic stays linear. */
  function Weight(vsize: nat): nat {
    4 * vsize
  }

  /** `vsize / WITNESS_SCALE_FACTOR`, rounded down, with the factor written out as in `Weight`. */
  function Unscaled(vsize: nat): nat {
    vsize / 4
  }

  /** `Weight` and `Unscaled` scale by `WITNESS_SCALE_FACTOR`. */
  lemma WeightScales(vsize: nat)
    ensures Weight(vsize) == vsize * WITNESS_SCALE_FACTOR
    ensures Unscaled(vsize) == vsize / WITNESS_SCALE_FACTOR
  {
  }

  /** Default maximum block weight a block template is built up to (`MAX_BLOCK_WEIGHT - 4000`). */
  const DEFAULT_BLOCK_MAX_WEIGHT: nat := 3_996_000

  /** A `(CFeeRate, size)` tuple: the fee rate is its fee per kvB, the size is in virtual bytes. */
  datatype RateSize = RateSize(feeRate: nat, size: nat)

  /** `MempoolFeeEstimationResult` and `BlockPercentiles`: four fee-per-kvB percentiles. */
  datatype Percentiles = Percentiles(p5: nat, p25: nat, p50: nat, p75: nat)
  {
    /** `empty()`: every percentile is the zero fee rate. */
    predicate IsEmpty() {
      p5 == 0 && p25 == 0 && p50 == 0 && p75 == 0
    }
  }

  /** The default constructor: every percentile `CFeeRate(0)`. */
  function NoPercentiles(): (r: Percentiles)
    ensures r.IsEmpty()
    ensures forall q: Percentiles :: q.IsEmpty() ==> q == r
  {
    Percentiles(0, 0, 0, 0)
  }

  /** Which forecaster produced a result. */
  datatype ForecasterKind = NoForecaster | NTimeForecast | BlockForecast | LastBlockForecast
                          | MempoolLast10MinForecast

  /** Why a forecaster gave no estimate; each case is one of the source's messages. */
  datatype ForecastError =
    | TargetNotPositive
    | TargetAboveMax(target: int, max: int)
    | MempoolNotLoaded
    | InsufficientBlockData
    | NoWindowData
    | NoHistoricalData
    | InsufficientMempoolData

  /** `ForecastResult::ForecastOptions`. */
  datatype ForecastOptions = ForecastOptions(forecaster: ForecasterKind, blockHeight: nat,
                                             lowPriority: nat, highPriority: nat)

  /** Default options: no forecaster, height 0, zero fee rates. */
  function DefaultOptions(kind: ForecasterKind, height: nat): (o: ForecastOptions)
    ensures o.forecaster == kind && o.blockHeight == height
    ensures o.lowPriority == 0 && o.highPriority == 0
  {
    ForecastOptions(kind, height, 0, 0)
  }

  /** `ForecastResult`: the options and, when the forecaster failed, its error. */
  datatype ForecastResult = ForecastResult(options: ForecastOptions, err: Option<ForecastError>)

  /** A failed forecast: default options of the forecaster and the error. */
  function Failure(kind: ForecasterKind, height: nat, e: ForecastError): (r: ForecastResult)
    ensures r.err == Some(e) && r.options.forecaster == kind && r.options.blockHeight == height
    ensures r.options.lowPriority == 0 && r.options.highPriority == 0
  {
    ForecastResult(DefaultOptions(kind, height), Some(e))
  }

  /** A successful forecast carrying the low- and high-priority fee rates. */
  function Success(kind: ForecasterKind, height: nat, low: nat, high: nat): (r: ForecastResult)
    ensures r.err == None && r.options.forecaster == kind && r.options.blockHeight == height
    ensures r.options.lowPriority == low && r.options.highPriority == high
  {
    ForecastResult(ForecastOptions(kind, height, low, high), None)
  }
}
