# Fee-rate arithmetic and fee forecasting, modelled in Dafny

This project models the fee-estimation core of a Bitcoin Core fork and proves properties of that model. It covers five parts:

- **`FeeFrac`** (`src/util/feefrac.h`), the (fee, size) pair ordered by fee rate:
  - componentwise `+`/`-` and `+=`/`-=`;
  - the cross-multiplied comparisons `<<`, `>>` and `FeeRateCompare`;
  - the total order `<=>`;
  - the 96-bit `MulFallback` product.
- **Fee-rate diagrams** (`src/util/feefrac.cpp`):
  - `BuildDiagramFromUnsortedChunks` sorts the chunks in place and accumulates their prefix sums;
  - `CompareFeerateDiagram` walks two diagrams with two index arrays and returns a partial order.
- **The mempool-based estimator** (`src/policy/mempool_fees.{h,cpp}`):
  - it splits a fee-rate histogram into block-sized ranges and takes per-block percentiles;
  - it keeps a 30-second estimate cache;
  - it keeps a window of the last three blocks, which decides whether the mempool is roughly in sync with miners;
  - it checks its guards in a fixed order.
- **The forecasters** in `src/policy/forecasters/`:
  - `NTime` (`ntime.cpp`) files confirmed transactions into a triangular hour table, shifts the table, selects transactions in a time window, sorts them, and compares the recent window with the historical one;
  - `BlockForecaster` (`block.cpp`) keeps a bounded FIFO of block percentiles and averages it;
  - `LastBlockForecaster` (`last_block.cpp`) keeps the last block with a non-zero p75;
  - `MemPoolLast10MinForecaster` (`mempool_last_10_min.cpp`) fills the next block greedily and counts recent packages twice.
- **`FeeEstimator`** (`src/policy/fee_estimator.cpp`) keeps the lowest non-empty forecast, collects the errors in order, and computes the largest target of its forecasters.

State that the source updates in place is modelled as a Dafny class with those fields:

- `FeeFracVar`;
- `CachedMempoolEstimates` and `MemPoolPolicyEstimator`, whose `top_blocks` is a three-slot array;
- `NTime`, `BlockForecaster`, `LastBlockForecaster` and `FeeEstimator`.

The loops of the source are methods with loop invariants, and each is proved against a specification function. Some examples:

- `EstimatesAsWritten` for `EstimateBlockFeeRatesWithMempool`;
- `PercentilesOf` for `CalculateBlockPercentiles`;
- `WithinTimeAsWritten`/`SortByRate`/`QuarterWeight` for `GetTxsWithinTime`;
- `TakenAsWritten`/`Expanded` for the block-filling loop of `MemPoolLast10MinForecaster`;
- `Best`/`Errors` for `GetFeeEstimateFromForecasters`;
- `DiagramOrder` for `CompareFeerateDiagram`.

The meaning of each specification function is proved as a separate lemma.

`CFeeRate` is a natural number, the fee per kvB. Sizes are virtual bytes. A weight is `4 * vsize`, with `WITNESS_SCALE_FACTOR = 4` and `DEFAULT_BLOCK_MAX_WEIGHT = 3_996_000`.

The model receives the following as parameters:

- Clock readings: `now`.
- The mempool's load flag: `loadTried`.
- What the block-template and linearisation routines return: `histogram`, `pkgs`, `order`.
- The shared percentile routine `CalculateBlockPercentiles(vector)`.
- `ForecastResult::empty` and the key compared by `ForecastResult::operator<`: `isEmpty`, `rank`.
- Each registered forecaster's `EstimateFee`: `estimate`.

Files:

- `wrappers.dfy`: Option and three-way comparison.
- `forecast.dfy`: shared entities.
- `feefrac.dfy` and `feefrac_diagram.dfy`.
- `mempool_fees.dfy`.
- `ntime.dfy`.
- `block_forecaster.dfy` and `last_block_forecaster.dfy`.
- `mempool_last_10_min.dfy`.
- `fee_estimator.dfy`.

In four places the source has a bug; see "## Findings".

- In three of them (the block splitting of `EstimateBlockFeeRatesWithMempool`, the tracked-row test of `GetTxsWithinTime` and the stop test of `MemPoolLast10MinForecaster`), the methods compute what the code as written computes. A corrected definition stands beside it as a reference, with the intended property proved about it and a lemma relating the two.
- In the fourth (`InsertNewBlock` with an empty first slot), the source dereferences `std::prev(begin)`, which is undefined behaviour, so there is no as-written result to follow. There the method follows the corrected `InsertedWindow`. That function equals the as-written `InsertNewBlockAsWritten` wherever the latter is defined. On the windows the estimator can reach, the only ones with an empty first slot hold nothing after it. On those, both branches the source could take after the read (store the block into slot 0, or reset) leave the same window, `Reset(b)` (`EmptyFirstSlotEitherBranchResets`).

## Model

| member | source | states |
|---|---|---|
| FeeFracs.Empty | src/util/feefrac.h:66-67 | the default value is empty, well formed and has fee 0 |
| FeeFracs.Make | src/util/feefrac.h:69-74 | construction requires a zero fee when the size is zero; the value is empty exactly when it is (0, 0) |
| FeeFracs.DefaultIsEmpty | src/util/feefrac.h:66-82 | the default value equals `FeeFrac(0, 0)` and `IsEmpty` holds of it |
| FeeFracs.EqualIsFieldwise | src/util/feefrac.h:112-116 | `==` holds iff fee and size are both equal; equal fee rate, as in 1000/100 versus 2000/200, is not equality |
| FeeFracs.AddSubInverse | src/util/feefrac.h:100-110 | `(a+b)-b == a`, `(a-b)+b == a`, `+` commutes and the empty value is its unit |
| FeeFracs.FeeFracVar.constructor | src/util/feefrac.h:69-74 | the variable holds the constructed value |
| FeeFracs.FeeFracVar.AddAssign | src/util/feefrac.h:84-90 | `+=` changes only this variable, to the sum, and keeps it well formed |
| FeeFracs.FeeFracVar.SubAssign | src/util/feefrac.h:92-98 | `-=` changes only this variable, to the difference, and keeps it well formed |
| FeeFracs.Swap | src/util/feefrac.h:147-152 | the two variables exchange their values |
| FeeFracs.LowerHigherDuality | src/util/feefrac.h:118-137 | `a << b` iff `a.fee*b.size < b.fee*a.size`, `a >> b` iff the reverse; `a << b` iff `b >> a`; `FeeRateCompare` says Lt/Gt exactly when they hold |
| FeeFracs.EmptyIncomparable | src/util/feefrac.h:34-36 | the empty value is neither lower nor higher in fee rate than any value, itself included |
| FeeFracs.CompareRefinesFeeRate | src/util/feefrac.h:139-145 | `<=>` agrees with `<<`/`>>`; equal fee rates are ordered by decreasing size; swapping operands flips the result |
| FeeFracs.EmptySortsLast | src/util/feefrac.h:18-19 | the empty value sorts after every value of positive size |
| FeeFracs.CompareStrong | src/util/feefrac.h:139-145 | on well-formed values of non-negative size `<=>` is a strong ordering: Eq only for identical values |
| FeeFracs.CompareTransitive | src/util/feefrac.h:18-19 | `<=>` is transitive on well-formed values of non-negative size, which makes it a total order |
| FeeFracs.DocumentedOrder | src/util/feefrac.h:20-29 | the eight example values of the documentation are in strictly increasing `<=>` order |
| FeeFracs.MulFallback | src/util/feefrac.h:40-50 | for 64-bit `a` and 32-bit `b` the pair is `(hi, lo)` with `hi*2^32 + lo == a*b`, `0 <= lo < 2^32` and `hi` in 64 bits |
| FeeFracs.MulFallbackOrder | src/util/feefrac.h:52-61 | the lexicographic order of two fallback pairs is the order of the exact products, and so is their equality |
| Diagrams.AtLeastTransitive | src/util/feefrac.cpp:15 | `>=` under `<=>` is transitive, so the sort's order is consistent |
| Diagrams.SortedDescAllPairs | src/util/feefrac.cpp:15 | a sequence non-increasing between neighbours is ordered between any two positions |
| Diagrams.SortDescending | src/util/feefrac.cpp:15 | the chunks end up non-increasing under `<=>` and are a permutation of the input |
| Diagrams.PrefixDiagram | src/util/feefrac.cpp:12-22 | the diagram has one point more than there are chunks, and its first point is (0, 0) |
| Diagrams.PrefixDiagramStep | src/util/feefrac.cpp:19-22 | each point is the previous point plus the next chunk |
| Diagrams.PrefixDiagramIsTotals | src/util/feefrac.cpp:19-22 | point k is the fee and size total of the first k chunks |
| Diagrams.PrefixDiagramIsDiagram | src/util/feefrac.cpp:18-22 | a diagram built from chunks of positive size starts at the empty point with strictly increasing sizes, as the comparison demands |
| Diagrams.BuildDiagramFromUnsortedChunks | src/util/feefrac.cpp:10-23 | the chunks are sorted in place, a permutation of the input, and the diagram is their prefix sums from (0, 0) |
| Diagrams.SegmentDecides | src/util/feefrac.cpp:48-63 | a point between two points A and B of the other diagram lies above or below that diagram exactly as the fee rate of AP compares with that of AB |
| Diagrams.PastEndDecides | src/util/feefrac.cpp:71-84 | past the end of the shorter diagram, a point lies above or below it exactly as its fee compares with the last point's: the horizontal extension |
| Diagrams.OverlapStep | src/util/feefrac.cpp:46-68 | one pass of the overlap loop keeps the flags equal to "better at a processed point" and the processed points of each side left of the other's unprocessed ones |
| Diagrams.TailStep | src/util/feefrac.cpp:77-87 | one pass of the tail loop keeps the same loop state |
| Diagrams.OverlapIteration | src/util/feefrac.cpp:44-69 | the body of the first loop, on the two index and flag arrays, keeps the loop state and advances at least one index |
| Diagrams.TailIteration | src/util/feefrac.cpp:73-87 | the body of the second loop keeps the loop state and advances only the longer side's index, by one |
| Diagrams.CompareFeerateDiagram | src/util/feefrac.cpp:25-93 | for two diagrams starting at the empty point with increasing sizes, the result is Unordered iff each is strictly better somewhere, else Greater, Less or Equivalent by which side (if either) is better |
| Diagrams.DiagramOrderMirror | src/util/feefrac.cpp:89-92 | swapping the two diagrams swaps Greater and Less and keeps the rest |
| Diagrams.DiagramOrderReflexive | src/util/feefrac.cpp:89-92 | a diagram compares Equivalent with itself |
| Forecasts.NoPercentiles | src/policy/mempool_fees.h:40-47 | the default result has all four percentiles zero, and it is the only result `empty()` holds of |
| MempoolFees.CachedMempoolEstimates.constructor | src/policy/mempool_fees.h:71 | a new cache holds nothing and is stale at every time from its construction on |
| MempoolFees.CachedMempoolEstimates.Get | src/policy/mempool_fees.h:75-86 | nothing when stale (last update plus 30 s before now); otherwise the stored value for the key, or nothing when the key is absent |
| MempoolFees.CachedMempoolEstimates.Update | src/policy/mempool_fees.h:88-96 | the map is replaced as a whole, so no old key survives, and the cache is fresh for the next 30 s |
| MempoolFees.CumWeightMonotone | src/policy/mempool_fees.cpp:131-132 | the running weight of a range never decreases |
| MempoolFees.PickIsFirstReaching | src/policy/mempool_fees.cpp:131-145 | a percentile, once set, is the rate of the first entry with a non-zero rate at which the running weight reaches the threshold; it stays zero only when every entry reaching it has a zero rate |
| MempoolFees.PercentilesOfMeaning | src/policy/mempool_fees.cpp:123-152 | a range lighter than half a block gives the empty result; otherwise each of p5, p25, p50 and p75 is the first-reaching rate of its share (1/20, 1/4, 1/2, 3/4 of the block weight) |
| MempoolFees.HalfBlockEntryPercentiles | src/policy/mempool_fees.cpp:123-152 | one entry of 500,000 vbytes at rate 10 gives p5 = p25 = p50 = 10 and p75 = 0 |
| MempoolFees.CalculateBlockPercentiles | src/policy/mempool_fees.cpp:119-153 | the loop over reverse positions `start..end` returns the percentiles of exactly those entries |
| MempoolFees.Reversed | src/policy/mempool_fees.cpp:97-99 | the reverse iterators read the histogram from its last entry to its first |
| MempoolFees.BlockEnd | src/policy/mempool_fees.cpp:104-113 | a block opened at `start` closes at the first entry at which its weight reaches the block weight, or at the last entry |
| MempoolFees.BlocksFromRanges | src/policy/mempool_fees.cpp:101-115 | every block made, numbered downward from the target, is a non-empty range of the histogram |
| MempoolFees.Blocks | src/policy/mempool_fees.cpp:101-115 | every block key lies in `[1, confTarget]` and every block is a non-empty range of the histogram |
| MempoolFees.Estimates | src/policy/mempool_fees.cpp:91-117 | the corrected estimates, each block's percentiles taken with its closing entry: an empty histogram yields an empty map; every key lies in `[1, confTarget]` |
| MempoolFees.TargetBlockEstimated | src/policy/mempool_fees.cpp:101-113 | for a non-empty histogram the target's own key is present in both maps: the corrected one holds the percentiles of the entries read up to and including the one that closes the first block, the one as written those of the entries before it |
| MempoolFees.SplitIsBlocks | src/policy/mempool_fees.cpp:104-115 | from any state it can be in, the splitting loop makes exactly the blocks of `Blocks` |
| MempoolFees.SplitIteration | src/policy/mempool_fees.cpp:104-113 | one pass of the splitting loop advances the reverse position by one, closes a block exactly where `Split` does, and adds its percentiles over `[start, cur)` under its number |
| MempoolFees.EstimateBlockFeeRatesWithMempool | src/policy/mempool_fees.cpp:91-117 | the map built by the loop is `EstimatesAsWritten` of the reversed histogram: one percentile summary per block, keyed from the target down, each taken over `[start, cur)` |
| MempoolFees.EstimatesAsWritten | src/policy/mempool_fees.cpp:101-115 | every key lies in `[1, confTarget]` and an empty histogram yields an empty map; each block's percentiles are taken without its closing entry, as the source does |
| MempoolFees.SummariesAsWrittenAdd | src/policy/mempool_fees.cpp:108-109 | closing a block adds exactly its as-written percentiles under its number |
| MempoolFees.ClosingEntryDropped | src/policy/mempool_fees.cpp:108-112 | a histogram of one half-block entry gets an empty estimate as written and p5 = p25 = p50 = 10 once its closing entry counts |
| MempoolFees.ComputeRoughlySynced | src/policy/mempool_fees.cpp:158-181 | the block is roughly synced iff the removed weight and the weight of the expected transactions found in the block both exceed half the block weight |
| MempoolFees.WeightInAll | src/policy/mempool_fees.cpp:165-170 | expected transactions all in the block count with their full weight |
| MempoolFees.ExpectedBlockIsSynced | src/policy/mempool_fees.cpp:177-181 | a non-empty block made of the expected transactions, all removed with it, is roughly synced |
| MempoolFees.FirstEmpty | src/policy/mempool_fees.cpp:197-199 | the first slot of height 0, or the length when there is none |
| MempoolFees.Reset | src/policy/mempool_fees.cpp:191 | the reset window is the new block followed by two empty slots |
| MempoolFees.InsertedWindow | src/policy/mempool_fees.cpp:195-215 | the window after inserting agrees with the source wherever the source stays inside the array; it resets when the first slot is empty |
| MempoolFees.UpdatedWindow | src/policy/mempool_fees.cpp:186-193 | the window keeps its three slots; its shape and order are the subject of `UpdatePreservesShape` |
| MempoolFees.UpdatePreservesShape | src/policy/mempool_fees.cpp:186-215 | from a window with heights consecutive up to the first empty slot, empty slots only at the end and untouched empty slots after the first one, an update gives such a window again, in order, and holding the new block |
| MempoolFees.EmptyFirstSlotEitherBranchResets | src/policy/mempool_fees.cpp:197-206 | on a reachable window whose first slot is empty, the source reads before the array; storing the block into slot 0 and resetting then both give `Reset(b)`, which is the corrected `InsertedWindow` |
| MempoolFees.FirstNotificationReadsBeforeStart | src/policy/mempool_fees.cpp:197-202 | the initial all-zero window is in order, and inserting into it reads `std::prev(begin)` |
| MempoolFees.MemPoolPolicyEstimator.constructor | src/policy/mempool_fees.cpp:19 | the window starts all zero and well shaped, and the cache starts empty and stale |
| MempoolFees.MemPoolPolicyEstimator.AreTopBlocksInOrder | src/policy/mempool_fees.cpp:217-233 | true iff the first slot is empty or every slot before the first empty one is one higher than the previous |
| MempoolFees.MemPoolPolicyEstimator.RoughlySynced | src/policy/mempool_fees.cpp:235-240 | true iff the window is in order and all three slots were synced |
| MempoolFees.MemPoolPolicyEstimator.InsertNewBlock | src/policy/mempool_fees.cpp:195-215 | the array becomes `InsertedWindow` of its old contents: fill the first empty slot after a consecutive block, rotate when full and consecutive, otherwise reset; on any three-slot window; from a reachable window it stays reachable, and with the first slot empty the result is also the block stored into slot 0 |
| MempoolFees.MemPoolPolicyEstimator.UpdateTopBlocks | src/policy/mempool_fees.cpp:186-193 | on any three-slot window, the window becomes `UpdatedWindow`: insert when in order, otherwise reset; from a reachable window, which is always in order, it stays reachable, so the reset is taken only from a window the estimator cannot reach |
| MempoolFees.MemPoolPolicyEstimator.MempoolTransactionsRemovedForBlock | src/policy/mempool_fees.cpp:155-184 | the window is updated with the block's height and its sync verdict, and stays in a reachable shape |
| MempoolFees.MemPoolPolicyEstimator.EstimateFeeWithMemPool | src/policy/mempool_fees.cpp:21-73 | rejects, in order, a target above `MAX_CONF_TARGET` (1), an unloaded mempool and a window not in sync, none of them touching the cache; then a fresh cached entry when not forced; else an empty histogram is an error that returns the empty result and leaves the cache alone, and otherwise the computed `EstimatesAsWritten` replace the cache and give the result; an error is reported iff the result is empty, an empty computed or cached result being reported as insufficient transactions |
| NTimeForecasts.InitStats | src/policy/forecasters/ntime.cpp:26-33 | `MAX_HOURS` (504) rows, row i with i+1 empty buckets |
| NTimeForecasts.NTime.constructor | src/policy/forecasters/ntime.cpp:23-24 | the table starts shaped and empty |
| NTimeForecasts.CeilDiv | src/policy/forecasters/ntime.cpp:38 | the exact integer ceiling of a quotient |
| NTimeForecasts.HoursIndex | src/policy/forecasters/ntime.cpp:37-39 | 0 for a wait of at most an hour, otherwise k with `k*3600 < wait <= (k+1)*3600` |
| NTimeForecasts.WithTx | src/policy/forecasters/ntime.cpp:35-49 | the transaction is dropped when its index is at least `MAX_HOURS`, else appended to bucket `[k][k]` only; the shape is kept |
| NTimeForecasts.NTime.AddTxToStats | src/policy/forecasters/ntime.cpp:35-49 | the table becomes `WithTx` of the old table |
| NTimeForecasts.WithTxsSnoc | src/policy/forecasters/ntime.cpp:72-79 | filing one more transaction after a sequence is filing it into the table the sequence left |
| NTimeForecasts.Confirmations | src/policy/forecasters/ntime.cpp:64-79 | at most one filed transaction per linearised one, each confirmed now |
| NTimeForecasts.ConfirmationsMembers | src/policy/forecasters/ntime.cpp:67-79 | a transaction is filed iff it is linearised and found among the removed ones, with its recorded arrival time, its linearised fee rate and size, and `now` as confirmation time |
| NTimeForecasts.NTime.MempoolTransactionsRemovedForBlock | src/policy/forecasters/ntime.cpp:62-82 | the table becomes the old one with the block's confirmations filed in inclusion order |
| NTimeForecasts.NTime.UpdateTrackingStats | src/policy/forecasters/ntime.cpp:51-60 | row i moves to row i+1 with one more empty bucket, row 0 is fresh, the oldest row is dropped, and the shape is kept |
| NTimeForecasts.MatchingMembers | src/policy/forecasters/ntime.cpp:103-111 | a bucket contributes exactly the entries of its transactions received at or after the start and confirmed at or before the end |
| NTimeForecasts.RowMatchesMembers | src/policy/forecasters/ntime.cpp:100-112 | a row contributes exactly the matching entries of the buckets it has among the first `startHr - endHr` |
| NTimeForecasts.RowsMembers | src/policy/forecasters/ntime.cpp:96-113 | the rows contribute exactly the matching entries of the tracked rows from `startHr` down to `endHr` |
| NTimeForecasts.WithinTimeMembers | src/policy/forecasters/ntime.cpp:84-113 | an entry is collected iff some tracked row `endHr..startHr` has, in a bucket below `startHr - endHr`, a transaction seen at or after `now - startHr*3600` and confirmed at or before `now - endHr*3600` with that entry |
| NTimeForecasts.AsWrittenReadsTrackedRows | src/policy/forecasters/ntime.cpp:96-98 | while `startHr` is a tracked row, the source's test reads the same rows as the row-by-row test |
| NTimeForecasts.WithinTimeAsWrittenIs | src/policy/forecasters/ntime.cpp:88-113 | what the source collects is `WithinTime` when `startHr` is a tracked row and nothing otherwise |
| NTimeForecasts.WithinTimeAsWrittenMembers | src/policy/forecasters/ntime.cpp:84-113 | an entry is collected as written iff `startHr` is a tracked row and the entry is one `WithinTime` keeps |
| NTimeForecasts.AsWrittenSkipsAll | src/policy/forecasters/ntime.cpp:98 | with the source's tracked-row test, nothing is collected once `startHr` reaches the number of rows |
| NTimeForecasts.FullWindowIgnoresTrackedRows | src/policy/forecasters/ntime.cpp:96-98 | for the target `MAX_HOURS`, the source's test collects nothing even when row 0 holds a transaction in the window, which the row-by-row test keeps |
| NTimeForecasts.InsertByRate | src/policy/forecasters/ntime.cpp:114-117 | inserting adds exactly that entry to the multiset |
| NTimeForecasts.SortByRate | src/policy/forecasters/ntime.cpp:114-117 | sorting keeps the multiset of entries |
| NTimeForecasts.SortByRateSorts | src/policy/forecasters/ntime.cpp:114-117 | the sorted entries ascend by fee per kvB and are a permutation of the collected ones |
| NTimeForecasts.CollectBucket | src/policy/forecasters/ntime.cpp:103-111 | the inner loop appends exactly the bucket's matching entries and adds `vsize / 4` of each to the weight |
| NTimeForecasts.CollectRow | src/policy/forecasters/ntime.cpp:100-112 | the middle loop appends exactly the row's matching entries, skipping buckets the row lacks, and adds their weight |
| NTimeForecasts.QuarterWeightAppend | src/policy/forecasters/ntime.cpp:109 | the reported weight of a concatenation is the sum of the weights |
| NTimeForecasts.CollectHour | src/policy/forecasters/ntime.cpp:96-112 | one pass of the outer loop appends row `i`'s matching entries when `startHr` is tracked, nothing otherwise, and adds their weight |
| NTimeForecasts.CollectWithinTime | src/policy/forecasters/ntime.cpp:86-113 | the nested loops collect `WithinTimeAsWritten`, with the weight the sum of `vsize / 4` over what was collected |
| NTimeForecasts.NTime.GetTxsWithinTime | src/policy/forecasters/ntime.cpp:84-119 | the entries of `WithinTimeAsWritten`, sorted by fee rate, and their weight |
| NTimeForecasts.HistoricalRange | src/policy/forecasters/ntime.cpp:130-131 | the start is `hours` rounded up to a multiple of 24, and start minus end is `hours` with the end in `[0, 24)` |
| NTimeForecasts.NTime.GetWindowEstimate | src/policy/forecasters/ntime.cpp:121-126 | the percentiles of what the source collects for the last `hours` hours up to now |
| NTimeForecasts.NTime.GetHistoricalEstimate | src/policy/forecasters/ntime.cpp:128-135 | the percentiles of what the source collects for the range `HistoricalRange(hours)` |
| NTimeForecasts.LateTargetsHaveNoHistory | src/policy/forecasters/ntime.cpp:128-160 | for targets above `MAX_HOURS - 24` the historical range starts at `MAX_HOURS`, so the history is the percentiles of nothing; when those are empty the empty-history error of lines 158-160 is raised |
| NTimeForecasts.Decide | src/policy/forecasters/ntime.cpp:137-176 | errors, in order, for a target above `MAX_HOURS`, an empty window and an empty history; succeeds iff none apply, with the window's p25/p50 when its p75 is strictly lower than the historical p75, else the historical ones |
| NTimeForecasts.NTime.EstimateFee | src/policy/forecasters/ntime.cpp:137-176 | the result is `Decide` of the window and historical estimates, as the source collects them, of the current table |
| BlockForecasts.Recorded | src/policy/forecasters/block.cpp:18-23 | a block with p75 = 0 leaves the queue alone; otherwise it goes to the back, the front popped first when full; the queue never exceeds its capacity |
| BlockForecasts.ReplayKeepsLatest | src/policy/forecasters/block.cpp:18-23 | starting empty, the queue always holds the latest `MAX_NUMBER_OF_BLOCKS` blocks with non-zero p75, oldest first |
| BlockForecasts.BlockForecaster.MempoolTransactionsRemovedForBlock | src/policy/forecasters/block.cpp:13-24 | the tip height becomes the notified height and the queue becomes `Recorded` of the old queue |
| BlockForecasts.SumPercentiles | src/policy/forecasters/block.cpp:46-54 | the loop over a copy of the queue sums each percentile field over the queue |
| BlockForecasts.TotalsWithin | src/policy/forecasters/block.cpp:46-54 | sums of k values in `[lo, hi]` lie in `[k*lo, k*hi]` |
| BlockForecasts.DivWithin | src/policy/forecasters/block.cpp:56-59 | the rounded-down quotient of such a sum by k lies in `[lo, hi]` |
| BlockForecasts.AverageWithin | src/policy/forecasters/block.cpp:44-59 | the average of a full queue whose percentiles lie in `[lo, hi]` lies in `[lo, hi]` |
| BlockForecasts.BlockForecaster.EstimateFee | src/policy/forecasters/block.cpp:26-76 | errors, in order, for target 0, a target above the maximum and a queue that is not full; otherwise p25 and p50 of the field-by-field integer average; the height is the tip height and the queue is unchanged |
| LastBlockForecasts.Stored | src/policy/forecasters/last_block.cpp:16-19 | the stored percentiles are replaced iff the new p75 is non-zero |
| LastBlockForecasts.ReplayKeepsStored | src/policy/forecasters/last_block.cpp:16-19 | blocks that all have p75 = 0 leave the stored percentiles as they were |
| LastBlockForecasts.ReplayKeepsLastNonZero | src/policy/forecasters/last_block.cpp:12-20 | after a run of blocks the stored percentiles are those of the last block with non-zero p75 |
| LastBlockForecasts.LastBlockForecaster.constructor | src/policy/forecasters/last_block.h:34-41 | a new forecaster stores the empty percentiles and tip height 0 |
| LastBlockForecasts.LastBlockForecaster.MempoolTransactionsRemovedForBlock | src/policy/forecasters/last_block.cpp:12-20 | the tip height becomes the notified height, the slot becomes `Stored` of the old one, and it stays empty or with a non-zero p75 |
| LastBlockForecasts.LastBlockForecaster.EstimateFee | src/policy/forecasters/last_block.cpp:22-56 | errors, in order, for target 0, a target above 2 and nothing stored; succeeds iff none apply, with the stored p25/p50 and the tip height; reads the state only |
| MempoolLast10Min.PackagesWeightIsCumWeight | src/policy/forecasters/mempool_last_10_min.cpp:59-63 | the weight accumulated for the packages is the weight of the statistics collected for them, recent ones counted twice |
| MempoolLast10Min.PackagesWeightMonotone | src/policy/forecasters/mempool_last_10_min.cpp:59-63 | taking more packages never lowers the weight |
| MempoolLast10Min.FitsGreedilyUnique | src/policy/forecasters/mempool_last_10_min.cpp:50-65 | only one prefix of the linearisation fills the block greedily, as the corrected fill means to |
| MempoolLast10Min.TakeNext | src/policy/forecasters/mempool_last_10_min.cpp:56-63 | taking a package appends it once, or twice adjacently when its entry time is at or after the cutoff, and adds `4 * size` per copy |
| MempoolLast10Min.FitsAsWrittenUnique | src/policy/forecasters/mempool_last_10_min.cpp:50-65 | only one prefix passes the source's stop test as the loop applies it |
| MempoolLast10Min.AsWrittenFrom | src/policy/forecasters/mempool_last_10_min.cpp:50-65 | counting on from a package that passed the stop test reaches the prefix the loop takes |
| MempoolLast10Min.TakenAsWritten | src/policy/forecasters/mempool_last_10_min.cpp:50-65 | the loop takes the prefix whose every package passed the test "running weight plus virtual size within `DEFAULT_BLOCK_MAX_WEIGHT`" and whose next package fails it |
| MempoolLast10Min.CollectBlockFeeStats | src/policy/forecasters/mempool_last_10_min.cpp:45-65 | the loop takes the `TakenAsWritten` prefix of the linearisation in order; the statistics are that prefix with recent packages doubled and the weight is theirs |
| MempoolLast10Min.GreedyFrom | src/policy/forecasters/mempool_last_10_min.cpp:50-65 | counting on from a prefix within the block weight reaches the longest prefix that fills the block greedily |
| MempoolLast10Min.GreedyCount | src/policy/forecasters/mempool_last_10_min.cpp:50-65 | the corrected fill takes the prefix within the block weight that the next package would overfill |
| MempoolLast10Min.AsWrittenTakesAtLeastGreedy | src/policy/forecasters/mempool_last_10_min.cpp:53 | the source's test takes every package the corrected fill takes |
| MempoolLast10Min.UnscaledSizeOverfillsBlock | src/policy/forecasters/mempool_last_10_min.cpp:53 | as written, one old package of 1,000,000 vbytes is taken and the block weighs 4,000,000, over the limit; the corrected fill takes nothing |
| MempoolLast10Min.Outcome | src/policy/forecasters/mempool_last_10_min.cpp:67-86 | fails iff p75 is zero (empty percentiles included), otherwise the p25/p50 at the tip height |
| MempoolLast10Min.EstimateFee | src/policy/forecasters/mempool_last_10_min.cpp:18-87 | errors, in order, for target 0, a target above 2 and an unloaded mempool; otherwise the outcome of the percentiles of the block the loop fills as written |
| FeeEstimators.Initial | src/policy/fee_estimator.cpp:18-19 | the search starts from default options and no error |
| FeeEstimators.Results | src/policy/fee_estimator.cpp:22-23 | one result per registered forecaster, in registration order |
| FeeEstimators.Choose | src/policy/fee_estimator.cpp:24-27 | a non-empty result replaces the current one when it ranks strictly lower or the current one is empty; an empty one never does |
| FeeEstimators.BestOfEmpties | src/policy/fee_estimator.cpp:19-27 | when every result is empty the initial result is kept |
| FeeEstimators.BestIsEarliestLowest | src/policy/fee_estimator.cpp:22-27 | otherwise the kept result is a non-empty one that no non-empty result ranks below, and the earliest such |
| FeeEstimators.BestEmptyIff | src/policy/fee_estimator.cpp:19-27 | the kept result is empty iff every forecaster's result is empty |
| FeeEstimators.ErrorsMembers | src/policy/fee_estimator.cpp:28-32 | an error is collected iff some empty result carries it |
| FeeEstimators.FeeEstimator.RegisterForecaster | src/policy/fee_estimator.cpp:10-13 | the forecaster is appended at the end of the list |
| FeeEstimators.FeeEstimator.GetFeeEstimateFromForecasters | src/policy/fee_estimator.cpp:15-48 | the loop returns `Best` and `Errors` (errors in forecaster order) of the forecasters' results |
| FeeEstimators.FeeEstimator.MaxForecastingTarget | src/policy/fee_estimator.cpp:71-78 | at least every forecaster's maximum target, attained by one of them, and 0 when there are none |

## Left out

- Locks, logging and tracing (`LOCK`, `LOCK2`, the cache's `shared_mutex`, `LogPrint`, `LogDebug`, `LogInfo`, `TRACE*`) do not affect results and are not modelled.
- The second `EstimateFeeWithMemPool` overload (`src/policy/mempool_fees.cpp:75-89`) only logs, so it is not modelled. `FeeEstimator::GetAllEstimates` (`src/policy/fee_estimator.cpp:50-69`) is also not modelled: it only logs, and it queries the legacy estimator.
- Clocks are parameters (`now`): `GetTime()` in the forecasters and `steady_clock::now()` in the cache.
- The following foreign routines are inputs, not modelled:
  - the block-template histogram (`GetCustomBlockFeeRateHistogram`);
  - MiniMiner linearisation, `LinearizeTransactions` and `GetNextBlockFeeRateAndVsize`;
  - the shared `CalculateBlockPercentiles(vector)`;
  - `ForecastResult::empty` and `operator<`;
  - each forecaster's `EstimateFee` as seen by `FeeEstimator`.
- FeeEstimators.BestIsEarliestLowest: `ForecastResult::operator<` is taken to compare an integer key (`rank`). The lemma also requires that the default result counts as empty. The definition of `ForecastResult` is not part of this model, so neither point can be checked against it.
- Weights, fees, sizes and percentiles are unbounded integers. Wrap-around of the `int64_t`, `uint32_t` and `unsigned int` accumulators is not modelled. `MulFallback` states its 64-bit bounds explicitly.
- The `double` and `std::ceil` arithmetic of `ntime.cpp:38,130` is modelled as exact integer ceiling division.
- `std::sort` is modelled by insertion sorts:
  - for the diagram chunks, only the sorted-permutation result is specified;
  - for `GetTxsWithinTime`, a stable insertion by fee rate stands in. Its order among equal rates is one of those `std::sort` may produce.
- `src/policy/forecasters/block.h` is not part of this model. Its `MAX_NUMBER_OF_BLOCKS` and `BLOCK_FORECAST_MAX_TARGET` are constructor parameters of `BlockForecaster`, with a positive capacity.
- Initial values: the constructors `MemPoolPolicyEstimator() {}` (`src/policy/mempool_fees.cpp:19`) and `LastBlockForecaster(){}` (`src/policy/forecasters/last_block.h:41`) leave `top_blocks` (an array of the aggregate `block_info`, `src/policy/mempool_fees.h:148-153`) and `chain_tip_height` uninitialised unless the object has static storage. The model picks 0 for each height and `false` for each sync flag, which is what a zero-initialised object holds. What an object with automatic or heap storage starts with is not modelled.
- `Percentiles.IsEmpty` stands for both `MempoolFeeEstimationResult::empty` (`src/policy/mempool_fees.h:43-47`) and `BlockPercentiles::empty`; `BlockPercentiles` is declared in `src/policy/fees_util.h`, which is not part of this model. The model takes both to mean "all four percentiles are zero". Where it matters, in `LastBlockForecaster`, the stored value is empty or has a non-zero p75 (`LastBlockForecaster.Valid`), so there `IsEmpty` holds exactly when p75 is zero. A definition of `BlockPercentiles::empty` that tests all four percentiles, or p75 alone, gives the same answer.
- `NTime::EstimateFee` never sets a block height in its options, so the model leaves the height at 0.
- `NTimeForecasts.Confirmations`: the `tx_caches` lookup by txid is modelled as a map from txid to arrival time. Duplicate txids among the removed transactions, which `std::map::emplace` would keep only once, are not distinguished.
- MempoolLast10Min.Expanded states no property of its own. Its meaning is given through `PackagesWeightIsCumWeight` and `TakeNext`.
- MempoolFees.UpdatePreservesShape: it is proved only for well-shaped windows. These have empty slots only at the end, and every slot after the first empty one is `{0, false}`. They are the windows the estimator can reach, and `MemPoolPolicyEstimator.Valid` carries the shape as the class invariant. Windows that are in order but have gaps are not covered.
- The TRUC and package-acceptance policy, the legacy `CBlockPolicyEstimator`, the notification interfaces and settings are not part of this model's core, and their source is not available.

## Findings

| source | as written | input that shows it | evidently intended | confidence | as-written member | corrected member |
|---|---|---|---|---|---|---|
| src/policy/mempool_fees.cpp:197-202 | `InsertNewBlock` reads `std::prev(empty_block_it)` when the first empty slot is slot 0 | an estimator whose `top_blocks` starts zero-initialised (static storage; the constructor itself leaves the array uninitialised), so the all-zero window, in order by `AreTopBlocksInOrder`, then any first block notification | an empty first slot resets the window to the new block | medium (not executed; depends on the initial contents) | MempoolFees.FirstNotificationReadsBeforeStart | MempoolFees.InsertedWindow |
| src/policy/mempool_fees.cpp:108-112 | each block's percentiles are taken over `[start, cur)`, which leaves out the entry that closes the block | a histogram of one entry of 500,000 vbytes at rate 10: an empty estimate | the closing entry belongs to its block, giving p5 = p25 = p50 = 10 | medium (not executed) | MempoolFees.ClosingEntryDropped | MempoolFees.TargetBlockEstimated |
| src/policy/forecasters/mempool_last_10_min.cpp:53 | the stop test adds the package's virtual size, not its weight, to the running weight | one package of 1,000,000 vbytes older than ten minutes: taken, block weight 4,000,000 > 3,996,000 | stop when the weight the package adds would exceed the limit | high (not executed) | MempoolLast10Min.UnscaledSizeOverfillsBlock | MempoolLast10Min.GreedyCount |
| src/policy/forecasters/ntime.cpp:98 | the tracked-row test looks at `start_hr` instead of the row `i` | target 504 with a transaction in row 0 inside the window: nothing is collected | skip only the rows the table does not have | high (not executed) | NTimeForecasts.FullWindowIgnoresTrackedRows | NTimeForecasts.WithinTimeMembers |
