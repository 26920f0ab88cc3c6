/** The mempool-based fee estimator (policy/mempool_fees.{h,cpp} of the modelled repository):
    per-block percentiles of a fee-rate histogram, a 30-second estimate cache, and a window of
    the last three blocks telling whether the mempool is roughly in sync with miners. */
module MempoolFees {
  import opened Wrappers
  import opened Forecasts

  /** Estimates above this confirmation target are not given. */
  const MAX_CONF_TARGET: nat := 1

  /** How long, in seconds, cached estimates stay usable. */
  const CACHE_LIFE: int := 30

  // ---------------------------------------------------------------------------------------------
  // Percentiles of a range of histogram entries

  /** The weight of the entries: their sizes times the witness scale factor. */
  function CumWeight(items: seq<RateSize>): nat
  {
    if items == [] then 0
    else CumWeight(items[..|items| - 1]) + Weight(items[|items| - 1].size)
  }

  /** The weight of a longer prefix is at least the weight of a shorter one. */
  lemma {:induction false} CumWeightMonotone(items: seq<RateSize>, i: nat, j: nat)
    requires i <= j <= |items|
    ensures CumWeight(items[..i]) <= CumWeight(items[..j])
    decreases j - i
  {
    if i < j {
      CumWeightMonotone(items, i, j - 1);
      assert items[..j][..j - 1] == items[..j - 1];
    }
  }

  /** One percentile as the loop leaves it after `items`: once non-zero it stays; while zero, an
      entry at which the running weight has reached `threshold` writes its rate. */
  function Pick(items: seq<RateSize>, threshold: nat): nat
  {
    if items == [] then 0
    else
      var p := Pick(items[..|items| - 1], threshold);
      if p != 0 then p
      else if CumWeight(items) >= threshold then items[|items| - 1].feeRate
      else 0
  }

  /** Entry `j` is one at which the running weight has reached `threshold`. */
  ghost predicate Reaches(items: seq<RateSize>, j: int, threshold: nat) {
    0 <= j < |items| && CumWeight(items[..j + 1]) >= threshold
  }

  /** Entry `k` is the first entry with a non-zero rate at which the threshold is reached. */
  ghost predicate FirstReaching(items: seq<RateSize>, threshold: nat, k: int) {
    && Reaches(items, k, threshold) && items[k].feeRate != 0
    && forall j :: 0 <= j < k && Reaches(items, j, threshold) ==> items[j].feeRate == 0
  }

  /** What a percentile `p` of `items` means: the rate of the first non-zero entry reaching
      the threshold, or zero when every entry reaching it has a zero rate. */
  ghost predicate PickMeaning(items: seq<RateSize>, threshold: nat, p: nat) {
    && (p != 0 ==> exists k :: FirstReaching(items, threshold, k) && items[k].feeRate == p)
    && (p == 0 ==> forall j :: Reaches(items, j, threshold) ==> items[j].feeRate == 0)
  }

  lemma {:induction false} PickPrefix(items: seq<RateSize>, threshold: nat, i: nat)
    requires i <= |items|
    ensures Pick(items[..i], threshold) != 0 ==>
              exists k :: k < i && FirstReaching(items, threshold, k)
                          && items[k].feeRate == Pick(items[..i], threshold)
    ensures Pick(items[..i], threshold) == 0 ==>
              forall j :: j < i && Reaches(items, j, threshold) ==> items[j].feeRate == 0
  {
    if i > 0 {
      PickPrefix(items, threshold, i - 1);
      assert items[..i][..i - 1] == items[..i - 1];
      var p := Pick(items[..i - 1], threshold);
      if p == 0 && CumWeight(items[..i]) >= threshold && items[i - 1].feeRate != 0 {
        assert FirstReaching(items, threshold, i - 1);
      }
    }
  }

  /** The meaning of Pick: a non-zero pick is the rate of the first entry with a non-zero rate
      at which the running weight reaches the threshold; a zero pick means there is none. */
  lemma PickIsFirstReaching(items: seq<RateSize>, threshold: nat)
    ensures PickMeaning(items, threshold, Pick(items, threshold))
  {
    PickPrefix(items, threshold, |items|);
    assert items[..|items|] == items;
  }

  const P5_WEIGHT: nat := DEFAULT_BLOCK_MAX_WEIGHT / 20
  const P25_WEIGHT: nat := DEFAULT_BLOCK_MAX_WEIGHT / 4
  const P50_WEIGHT: nat := DEFAULT_BLOCK_MAX_WEIGHT / 2
  const P75_WEIGHT: nat := (3 * DEFAULT_BLOCK_MAX_WEIGHT) / 4

  /** The percentiles of a range, in the order it is read: the four picks, or the empty result
      when the range weighs less than half a block. */
  function PercentilesOf(items: seq<RateSize>): Percentiles
  {
    if CumWeight(items) < DEFAULT_BLOCK_MAX_WEIGHT / 2 then NoPercentiles()
    else Percentiles(Pick(items, P5_WEIGHT), Pick(items, P25_WEIGHT), Pick(items, P50_WEIGHT),
                     Pick(items, P75_WEIGHT))
  }

  /** A range lighter than half a block gives the empty result; a heavier one gives, for each
      percentile, the first non-zero rate at which the running weight reaches its share. */
  lemma PercentilesOfMeaning(items: seq<RateSize>)
    ensures CumWeight(items) < DEFAULT_BLOCK_MAX_WEIGHT / 2 ==> PercentilesOf(items).IsEmpty()
    ensures CumWeight(items) >= DEFAULT_BLOCK_MAX_WEIGHT / 2 ==>
              var r := PercentilesOf(items);
              && PickMeaning(items, P5_WEIGHT, r.p5) && PickMeaning(items, P25_WEIGHT, r.p25)
              && PickMeaning(items, P50_WEIGHT, r.p50) && PickMeaning(items, P75_WEIGHT, r.p75)
  {
    PickIsFirstReaching(items, P5_WEIGHT);
    PickIsFirstReaching(items, P25_WEIGHT);
    PickIsFirstReaching(items, P50_WEIGHT);
    PickIsFirstReaching(items, P75_WEIGHT);
  }

  /** The histogram read from its last entry backwards, as the reverse iterators read it. */
  function Reversed(s: seq<RateSize>): (r: seq<RateSize>)
    ensures |r| == |s|
    ensures forall k :: 0 <= k < |s| ==> r[k] == s[|s| - 1 - k]
  {
    seq(|s|, k requires 0 <= k < |s| => s[|s| - 1 - k])
  }

  // ---------------------------------------------------------------------------------------------
  // Splitting the histogram into blocks

  /** The block opened at `start` weighs less than a block up to position `j`. */
  ghost predicate StillOpen(rev: seq<RateSize>, start: nat, j: nat) {
    start <= j <= |rev| && CumWeight(rev[start..j]) < DEFAULT_BLOCK_MAX_WEIGHT
  }

  /** The first position e after `start` at which the block that starts there is closed: the
      weight of `rev[start..e]` reaches the block weight, or the histogram ends. */
  function BlockEnd(rev: seq<RateSize>, start: nat): (e: nat)
    requires start < |rev|
    ensures start < e <= |rev|
    ensures e == |rev| || CumWeight(rev[start..e]) >= DEFAULT_BLOCK_MAX_WEIGHT
    ensures forall j :: start < j < e ==> StillOpen(rev, start, j)
  {
    BlockEndFrom(rev, start, start + 1)
  }

  function BlockEndFrom(rev: seq<RateSize>, start: nat, j: nat): (e: nat)
    requires start < j <= |rev|
    requires forall i :: start < i < j ==> StillOpen(rev, start, i)
    ensures j <= e <= |rev|
    ensures e == |rev| || CumWeight(rev[start..e]) >= DEFAULT_BLOCK_MAX_WEIGHT
    ensures forall i :: start < i < e ==> StillOpen(rev, start, i)
    decreases |rev| - j
  {
    if j == |rev| || CumWeight(rev[start..j]) >= DEFAULT_BLOCK_MAX_WEIGHT then j
    else BlockEndFrom(rev, start, j + 1)
  }

  /** A block of the split: the reverse positions `start..end` of its entries. */
  datatype Block = Block(start: nat, end: nat)

  /** The blocks `made` so far, followed by blocks `blockNumber` down to 1, the first of them
      starting at `start`: each block runs up to and including the entry that closes it. */
  function BlocksFrom(rev: seq<RateSize>, start: nat, blockNumber: nat,
                      made: map<nat, Block>): (m: map<nat, Block>)
    requires start <= |rev|
    decreases |rev| - start
  {
    if blockNumber == 0 || start == |rev| then made
    else
      var e := BlockEnd(rev, start);
      BlocksFrom(rev, e, blockNumber - 1, made[blockNumber := Block(start, e)])
  }

  /** Each block is either one of those made before, or numbered at most `blockNumber` and a
      non-empty range of the histogram from `start` on. */
  lemma {:induction false} BlocksFromRanges(rev: seq<RateSize>, start: nat, blockNumber: nat,
                                            made: map<nat, Block>)
    requires start <= |rev|
    ensures var m := BlocksFrom(rev, start, blockNumber, made);
            forall k :: k in m ==>
              (k in made && m[k] == made[k]) || (1 <= k <= blockNumber && start <= m[k].start < m[k].end <= |rev|)
    decreases |rev| - start
  {
    if blockNumber != 0 && start != |rev| {
      var e := BlockEnd(rev, start);
      BlocksFromRanges(rev, e, blockNumber - 1, made[blockNumber := Block(start, e)]);
    }
  }

  /** Every block is a non-empty range of the histogram. */
  predicate WithinHistogram(rev: seq<RateSize>, blocks: map<nat, Block>) {
    forall k :: k in blocks ==> blocks[k].start < blocks[k].end <= |rev|
  }

  /** The blocks for confirmation targets `confTarget` down to 1 of the reversed histogram. */
  function Blocks(rev: seq<RateSize>, confTarget: nat): (m: map<nat, Block>)
    ensures forall k :: k in m ==> 1 <= k <= confTarget
    ensures WithinHistogram(rev, m)
  {
    BlocksFromRanges(rev, 0, confTarget, map[]);
    BlocksFrom(rev, 0, confTarget, map[])
  }

  /** The percentiles of each block. */
  function Summaries(rev: seq<RateSize>, blocks: map<nat, Block>): map<nat, Percentiles>
    requires WithinHistogram(rev, blocks)
  {
    map k | k in blocks :: PercentilesOf(rev[blocks[k].start..blocks[k].end])
  }

  /** The estimates per confirmation target: the percentiles of each block of the split. */
  function Estimates(rev: seq<RateSize>, confTarget: nat): (m: map<nat, Percentiles>)
    ensures forall k :: k in m ==> 1 <= k <= confTarget
    ensures rev == [] ==> m == map[]
  {
    Summaries(rev, Blocks(rev, confTarget))
  }

  /** The percentiles of each block as the source takes them: over the range that stops BEFORE
      the block's closing entry, so that entry is in no block. */
  function SummariesAsWritten(rev: seq<RateSize>, blocks: map<nat, Block>): map<nat, Percentiles>
    requires WithinHistogram(rev, blocks)
  {
    map k | k in blocks :: PercentilesOf(rev[blocks[k].start..blocks[k].end - 1])
  }

  /** The estimates as the source computes them: the split of `Blocks`, each block summarised
      without its closing entry. */
  function EstimatesAsWritten(rev: seq<RateSize>, confTarget: nat): (m: map<nat, Percentiles>)
    ensures forall k :: k in m ==> 1 <= k <= confTarget
    ensures rev == [] ==> m == map[]
  {
    SummariesAsWritten(rev, Blocks(rev, confTarget))
  }

  /** A histogram of one entry is one block. */
  lemma OneEntryOneBlock(rev: seq<RateSize>)
    requires |rev| == 1
    ensures Blocks(rev, 1) == map[1 := Block(0, 1)]
  {
    assert BlockEnd(rev, 0) == 1;
    assert BlocksFrom(rev, 0, 1, map[]) == BlocksFrom(rev, 1, 0, map[1 := Block(0, 1)]);
  }

  /** One entry of half a block at rate 10: the three lower percentiles are 10. */
  lemma HalfBlockEntryPercentiles(h: seq<RateSize>)
    requires h == [RateSize(10, 500_000)]
    ensures PercentilesOf(h) == Percentiles(10, 10, 10, 0)
  {
    assert h[..|h| - 1] == [];
    assert CumWeight(h) == 2_000_000;
    assert P5_WEIGHT == 199_800 && P25_WEIGHT == 999_000 && P50_WEIGHT == 1_998_000;
    assert P75_WEIGHT == 2_997_000;
    assert Pick(h[..0], P5_WEIGHT) == 0 && Pick(h[..0], P75_WEIGHT) == 0;
    assert Pick(h, P5_WEIGHT) == 10 && Pick(h, P25_WEIGHT) == 10 && Pick(h, P50_WEIGHT) == 10;
    assert Pick(h, P75_WEIGHT) == 0;
  }

  /** With the closing entry left out, a histogram of one entry weighing half a block gives an
      empty estimate, while the entry itself is heavy enough for one. */
  lemma ClosingEntryDropped()
    ensures var h := [RateSize(10, 500_000)];
            && EstimatesAsWritten(Reversed(h), MAX_CONF_TARGET) == map[1 := NoPercentiles()]
            && Estimates(Reversed(h), MAX_CONF_TARGET) == map[1 := Percentiles(10, 10, 10, 0)]
  {
    var h := [RateSize(10, 500_000)];
    var rev := Reversed(h);
    assert |rev| == 1 && rev[0] == h[0];
    assert rev == h;
    OneEntryEstimates(h);
  }

  lemma OneEntryEstimates(h: seq<RateSize>)
    requires h == [RateSize(10, 500_000)]
    ensures EstimatesAsWritten(h, 1) == map[1 := NoPercentiles()]
    ensures Estimates(h, 1) == map[1 := Percentiles(10, 10, 10, 0)]
  {
    OneEntryOneBlock(h);
    HalfBlockEntryPercentiles(h);
    assert h[0..1] == h;
    assert h[0..0] == [];
    assert CumWeight([]) == 0;
  }

  /** The blocks already made above `blockNumber` are kept. */
  lemma {:induction false} BlocksFromKeepsMade(rev: seq<RateSize>, start: nat, blockNumber: nat,
                                               made: map<nat, Block>, k: nat)
    requires start <= |rev| && k in made && k > blockNumber
    ensures k in BlocksFrom(rev, start, blockNumber, made)
    ensures BlocksFrom(rev, start, blockNumber, made)[k] == made[k]
    decreases |rev| - start
  {
    if blockNumber != 0 && start != |rev| {
      var e := BlockEnd(rev, start);
      BlocksFromKeepsMade(rev, e, blockNumber - 1, made[blockNumber := Block(start, e)], k);
    }
  }

  /** The target's own block has an estimate whenever the histogram is not empty: that of the
      entries read up to and including the one that closes the first block; as written, that of
      the entries before the closing one. */
  lemma TargetBlockEstimated(rev: seq<RateSize>, blockNumber: nat)
    requires |rev| > 0 && blockNumber >= 1
    ensures blockNumber in Estimates(rev, blockNumber)
    ensures Estimates(rev, blockNumber)[blockNumber] == PercentilesOf(rev[..BlockEnd(rev, 0)])
    ensures blockNumber in EstimatesAsWritten(rev, blockNumber)
    ensures EstimatesAsWritten(rev, blockNumber)[blockNumber] == PercentilesOf(rev[..BlockEnd(rev, 0) - 1])
  {
    var e := BlockEnd(rev, 0);
    assert rev[0..e] == rev[..e];
    assert rev[0..e - 1] == rev[..e - 1];
    BlocksFromKeepsMade(rev, e, blockNumber - 1, map[blockNumber := Block(0, e)], blockNumber);
  }

  // ---------------------------------------------------------------------------------------------
  // The window of the last three blocks

  /** `block_info`: a block's height and whether the mempool was roughly in sync with it. */
  datatype BlockInfo = BlockInfo(height: nat, roughlySynced: bool)

  const EMPTY_SLOT: BlockInfo := BlockInfo(0, false)

  /** `std::find_if(..., height == 0)`: the first slot with height 0, or the length. */
  function FirstEmpty(s: seq<BlockInfo>): (k: nat)
    ensures k <= |s|
    ensures forall j :: 0 <= j < k ==> s[j].height != 0
    ensures k < |s| ==> s[k].height == 0
  {
    if s == [] then 0 else if s[0].height == 0 then 0 else 1 + FirstEmpty(s[1..])
  }

  /** What `AreTopBlocksInOrder` decides: the window is in order when its first slot is empty,
      or when every slot before the first empty one is one higher than the previous slot. */
  predicate InOrder(s: seq<BlockInfo>) {
    |s| == 0 || s[0].height == 0 || forall i :: 0 < i < FirstEmpty(s) ==> s[i].height == s[0].height + i
  }

  /** The window after a reset: the new block followed by two empty slots. */
  function Reset(b: BlockInfo): (s: seq<BlockInfo>)
    ensures |s| == 3 && s[0] == b && s[1] == EMPTY_SLOT && s[2] == EMPTY_SLOT
  {
    [b, EMPTY_SLOT, EMPTY_SLOT]
  }

  /** `InsertNewBlock` AS WRITTEN: None where the source reads the slot before the first one
      (`std::prev(begin)`), which happens whenever the first slot is empty. */
  function InsertNewBlockAsWritten(s: seq<BlockInfo>, b: BlockInfo): Option<seq<BlockInfo>>
    requires |s| == 3
  {
    var k := FirstEmpty(s);
    if k < 3 then
      if k == 0 then None
      else if s[k - 1].height + 1 == b.height then Some(s[k := b])
      else Some(Reset(b))
    else if s[2].height + 1 == b.height then Some(s[1..] + [b])
    else Some(Reset(b))
  }

  /** `InsertNewBlock` as evidently intended: a window whose first slot is empty is reset to the
      new block; otherwise as the source does. */
  function InsertedWindow(s: seq<BlockInfo>, b: BlockInfo): (w: seq<BlockInfo>)
    requires |s| == 3
    ensures |w| == 3
    ensures InsertNewBlockAsWritten(s, b).Some? ==> w == InsertNewBlockAsWritten(s, b).value
    ensures FirstEmpty(s) == 0 ==> w == Reset(b)
  {
    var k := FirstEmpty(s);
    if k < 3 then
      if k > 0 && s[k - 1].height + 1 == b.height then s[k := b]
      else Reset(b)
    else if s[2].height + 1 == b.height then s[1..] + [b]
    else Reset(b)
  }

  /** `UpdateTopBlocks`: insert when the window is in order, else reset. */
  function UpdatedWindow(s: seq<BlockInfo>, b: BlockInfo): (w: seq<BlockInfo>)
    requires |s| == 3
    ensures |w| == 3
  {
    if InOrder(s) then InsertedWindow(s, b) else Reset(b)
  }

  /** The window the estimator starts from (all slots zero) is in order, so the first block
      notification reaches `InsertNewBlock` with the first slot empty and the source reads
      before the start of the array. */
  lemma FirstNotificationReadsBeforeStart(b: BlockInfo)
    ensures InOrder([EMPTY_SLOT, EMPTY_SLOT, EMPTY_SLOT])
    ensures InsertNewBlockAsWritten([EMPTY_SLOT, EMPTY_SLOT, EMPTY_SLOT], b) == None
    ensures UpdatedWindow([EMPTY_SLOT, EMPTY_SLOT, EMPTY_SLOT], b) == Reset(b)
  {
  }

  /** The windows the estimator can be in: in order, with empty slots only after the filled
      ones, and every slot after the first empty one untouched since the last reset. */
  predicate WellShaped(s: seq<BlockInfo>) {
    && |s| == 3 && InOrder(s)
    && (forall j :: FirstEmpty(s) <= j < 3 ==> s[j].height == 0)
    && (forall j :: FirstEmpty(s) < j < 3 ==> s[j] == EMPTY_SLOT)
  }

  /** Where the source reads `std::prev(begin)`, both of its branches would leave the same window:
      storing the block into the first slot (`*empty_block_it = new_blk_info`) or resetting.
      So on a window the estimator can be in, the corrected `InsertedWindow` is what either
      outcome of that read gives. */
  lemma EmptyFirstSlotEitherBranchResets(s: seq<BlockInfo>, b: BlockInfo)
    requires WellShaped(s) && FirstEmpty(s) == 0
    ensures InsertNewBlockAsWritten(s, b) == None
    ensures s[0 := b] == Reset(b) && InsertedWindow(s, b) == Reset(b)
  {
    assert s[1] == EMPTY_SLOT && s[2] == EMPTY_SLOT;
    assert s[0 := b] == [b, s[1], s[2]];
  }

  /** `UpdateTopBlocks` keeps the window well shaped (so in order) and the new block is in it,
      at the slot after the last filled one or, after a reset or rotation, first or last. */
  lemma UpdatePreservesShape(s: seq<BlockInfo>, b: BlockInfo)
    requires WellShaped(s)
    ensures WellShaped(UpdatedWindow(s, b))
    ensures InOrder(UpdatedWindow(s, b))
    ensures b in UpdatedWindow(s, b)
  {
    var w := UpdatedWindow(s, b);
    var k := FirstEmpty(s);
    if k == 3 && s[2].height + 1 == b.height {
      assert w == [s[1], s[2], b];
      assert FirstEmpty(w) == 3;
    } else if 0 < k < 3 && s[k - 1].height + 1 == b.height {
      assert w == s[k := b];
      if k == 1 {
        assert FirstEmpty(w) == 2;
      } else {
        assert FirstEmpty(w) == 3;
      }
    } else {
      assert w == Reset(b);
      if b.height != 0 {
        assert FirstEmpty(w) == 1;
      }
    }
  }

  /** `RoughlySynced`: the window is in order and every slot was synced. */
  predicate Synced(s: seq<BlockInfo>) {
    InOrder(s) && forall i :: 0 <= i < |s| ==> s[i].roughlySynced
  }

  // ---------------------------------------------------------------------------------------------
  // Whether a block was roughly in sync

  /** A transaction of a block or of the mempool: its id and weight. */
  datatype Tx = Tx(txid: nat, weight: nat)

  function TotalWeight(txs: seq<Tx>): nat {
    if txs == [] then 0 else TotalWeight(txs[..|txs| - 1]) + txs[|txs| - 1].weight
  }

  function Ids(txs: seq<Tx>): set<nat> {
    set i | 0 <= i < |txs| :: txs[i].txid
  }

  /** The weight of the expected transactions whose id is in `ids`. */
  function WeightIn(txs: seq<Tx>, ids: set<nat>): nat {
    if txs == [] then 0
    else WeightIn(txs[..|txs| - 1], ids) + (if txs[|txs| - 1].txid in ids then txs[|txs| - 1].weight else 0)
  }

  /** The sync verdict for a block: the removed transactions and the expected transactions that
      the block contains both weigh more than half the block. */
  predicate BlockSynced(removed: seq<Tx>, expected: seq<Tx>, block: seq<Tx>) {
    var mid := TotalWeight(block) / 2;
    TotalWeight(removed) > mid && WeightIn(expected, Ids(block)) > mid
  }

  /** The expected transactions that are all in the block count with their full weight. */
  lemma {:induction false} WeightInAll(txs: seq<Tx>, ids: set<nat>)
    requires forall i :: 0 <= i < |txs| ==> txs[i].txid in ids
    ensures WeightIn(txs, ids) == TotalWeight(txs)
  {
    if txs != [] {
      WeightInAll(txs[..|txs| - 1], ids);
    }
  }

  /** A non-empty block made exactly of the expected transactions, all of which left the
      mempool with it, is in sync. */
  lemma ExpectedBlockIsSynced(block: seq<Tx>)
    requires TotalWeight(block) > 0
    ensures BlockSynced(block, block, block)
  {
    WeightInAll(block, Ids(block));
  }

  // ---------------------------------------------------------------------------------------------
  // The cache

  /** `CachedMempoolEstimates`: estimates per block number and the time they were stored. */
  class CachedMempoolEstimates {
    var estimates: map<nat, Percentiles>
    var lastUpdated: int

    /** `isStale`: more than the cache life has passed since the last update. */
    predicate IsStale(now: int)
      reads this
    {
      lastUpdated + CACHE_LIFE < now
    }

    /** A new cache is stale from the start, at any time from its construction on. */
    constructor (now: int)
      ensures estimates == map[] && lastUpdated == now - CACHE_LIFE - 1
      ensures forall t :: t >= now ==> IsStale(t)
    {
      estimates := map[];
      lastUpdated := now - CACHE_LIFE - 1;
    }

    /** `get`: nothing when stale; otherwise the stored estimate for the key, if there is one. */
    method Get(numberOfBlocks: nat, now: int) returns (r: Option<Percentiles>)
      ensures IsStale(now) ==> r == None
      ensures !IsStale(now) ==> (r.Some? <==> numberOfBlocks in estimates)
      ensures r.Some? ==> numberOfBlocks in estimates && r.value == estimates[numberOfBlocks]
    {
      if IsStale(now) {
        return None;
      }
      if numberOfBlocks in estimates {
        return Some(estimates[numberOfBlocks]);
      }
      return None;
    }

    /** `update`: the map is replaced as a whole and the cache is fresh for the next cache life. */
    method Update(newEstimates: map<nat, Percentiles>, now: int)
      modifies this
      ensures estimates == newEstimates && lastUpdated == now
      ensures forall t :: t <= now + CACHE_LIFE ==> !IsStale(t)
    {
      estimates := newEstimates;
      lastUpdated := now;
    }
  }

  // ---------------------------------------------------------------------------------------------
  // The estimator

  /** Why `EstimateFeeWithMemPool` gave no estimate, in the order it checks. */
  datatype EstimateError =
    | TargetAboveMaximum
    | MempoolNotFinishedLoading
    | NotInSync
    | NoMempoolTransactions
    | InsufficientTransactions

  /** `MemPoolPolicyEstimator`: the window of the last three blocks and the estimate cache. */
  class MemPoolPolicyEstimator {
    const topBlocks: array<BlockInfo>
    const cache: CachedMempoolEstimates

    /** The window has its three slots and is in a shape the estimator can reach. */
    predicate Valid()
      reads topBlocks
    {
      topBlocks.Length == 3 && WellShaped(topBlocks[..])
    }

    /** The window starts with every slot zero. */
    constructor (now: int)
      ensures Valid() && fresh(topBlocks) && fresh(cache)
      ensures topBlocks[..] == [EMPTY_SLOT, EMPTY_SLOT, EMPTY_SLOT]
      ensures WellShaped(topBlocks[..])
      ensures cache.estimates == map[] && forall t :: t >= now ==> cache.IsStale(t)
    {
      topBlocks := new BlockInfo[3](_ => EMPTY_SLOT);
      cache := new CachedMempoolEstimates(now);
      new;
      assert FirstEmpty(topBlocks[..]) == 0;
    }

    /** `AreTopBlocksInOrder`. */
    method AreTopBlocksInOrder() returns (inOrder: bool)
      requires topBlocks.Length == 3
      ensures inOrder == InOrder(topBlocks[..])
    {
      var currHeight := topBlocks[0].height;
      if currHeight == 0 {
        return true;
      }
      ghost var k := FirstEmpty(topBlocks[..]);
      var i := 1;
      while i < topBlocks.Length
        invariant 1 <= i <= 3 && i <= k
        invariant currHeight == topBlocks[0].height + (i - 1)
        invariant forall j :: 0 < j < i ==> topBlocks[j].height == topBlocks[0].height + j
      {
        if topBlocks[i].height == 0 {
          return true;
        }
        currHeight := currHeight + 1;
        if currHeight != topBlocks[i].height {
          return false;
        }
        i := i + 1;
      }
      return true;
    }

    /** `RoughlySynced`. */
    method RoughlySynced() returns (synced: bool)
      requires Valid()
      ensures synced == Synced(topBlocks[..])
    {
      var inOrder := AreTopBlocksInOrder();
      synced := inOrder && topBlocks[0].roughlySynced && topBlocks[1].roughlySynced
                && topBlocks[2].roughlySynced;
    }

    /** `InsertNewBlock`, with an empty first slot resetting the window: on the windows the
        estimator reaches, that is also the block stored into the first slot, as the source's
        other branch does. */
    method InsertNewBlock(b: BlockInfo)
      requires topBlocks.Length == 3
      modifies topBlocks
      ensures old(Valid()) ==> Valid()
      ensures topBlocks[..] == InsertedWindow(old(topBlocks[..]), b)
      ensures old(Valid()) && FirstEmpty(old(topBlocks[..])) == 0 ==>
                topBlocks[..] == old(topBlocks[..])[0 := b] == Reset(b)
    {
      ghost var before := topBlocks[..];
      var emptyIndex := 0;
      while emptyIndex < topBlocks.Length && topBlocks[emptyIndex].height != 0
        invariant 0 <= emptyIndex <= 3
        invariant forall j :: 0 <= j < emptyIndex ==> topBlocks[j].height != 0
      {
        emptyIndex := emptyIndex + 1;
      }
      assert emptyIndex == FirstEmpty(topBlocks[..]) by {
        FirstEmptyIsFirst(topBlocks[..], emptyIndex);
      }
      if emptyIndex != topBlocks.Length {
        if emptyIndex > 0 && topBlocks[emptyIndex - 1].height + 1 == b.height {
          topBlocks[emptyIndex] := b;
        } else {
          topBlocks[0], topBlocks[1], topBlocks[2] := b, EMPTY_SLOT, EMPTY_SLOT;
        }
      } else if topBlocks[2].height + 1 == b.height {
        // `std::rotate` by one to the left, then the new block into the last slot.
        topBlocks[0], topBlocks[1] := topBlocks[1], topBlocks[2];
        topBlocks[2] := b;
      } else {
        topBlocks[0], topBlocks[1], topBlocks[2] := b, EMPTY_SLOT, EMPTY_SLOT;
      }
      assert topBlocks[..] == InsertedWindow(before, b);
      if WellShaped(before) {
        UpdatePreservesShape(before, b);
        if FirstEmpty(before) == 0 {
          EmptyFirstSlotEitherBranchResets(before, b);
        }
      }
    }

    /** `UpdateTopBlocks`. */
    method UpdateTopBlocks(b: BlockInfo)
      requires topBlocks.Length == 3
      modifies topBlocks
      ensures old(Valid()) ==> Valid()
      ensures topBlocks[..] == UpdatedWindow(old(topBlocks[..]), b)
    {
      var inOrder := AreTopBlocksInOrder();
      if inOrder {
        InsertNewBlock(b);
      } else {
        // A window the estimator reaches is always in order (`UpdatePreservesShape`), so from a
        // `Valid()` state this reset is never taken.
        topBlocks[0], topBlocks[1], topBlocks[2] := b, EMPTY_SLOT, EMPTY_SLOT;
      }
    }

    /** The sync computation of `MempoolTransactionsRemovedForBlock`, then `UpdateTopBlocks`.
        The transactions removed for the block, the ones the estimator expected in it and the
        block's own are given with their weights. */
    method MempoolTransactionsRemovedForBlock(removed: seq<Tx>, expected: seq<Tx>,
                                              block: seq<Tx>, height: nat)
      requires Valid()
      modifies topBlocks
      ensures Valid()
      ensures topBlocks[..] ==
              UpdatedWindow(old(topBlocks[..]), BlockInfo(height, BlockSynced(removed, expected, block)))
    {
      var synced := ComputeRoughlySynced(removed, expected, block);
      UpdateTopBlocks(BlockInfo(height, synced));
    }

    /** `EstimateFeeWithMemPool`: the guards in order, then the cached estimate unless `force`,
        else the estimates computed from `histogram` (what the block-template builder returns
        for the mempool), which are also stored in the cache. */
    method EstimateFeeWithMemPool(confTarget: nat, force: bool, loadTried: bool,
                                  histogram: seq<RateSize>, now: int)
      returns (result: Percentiles, err: Option<EstimateError>)
      requires Valid()
      modifies cache
      ensures err.Some? <==> result.IsEmpty()
      ensures confTarget > MAX_CONF_TARGET ==> err == Some(TargetAboveMaximum)
      ensures confTarget <= MAX_CONF_TARGET && !loadTried ==> err == Some(MempoolNotFinishedLoading)
      ensures confTarget <= MAX_CONF_TARGET && loadTried && !Synced(topBlocks[..]) ==>
                err == Some(NotInSync)
      ensures (confTarget > MAX_CONF_TARGET || !loadTried || !Synced(topBlocks[..])) ==>
                cache.estimates == old(cache.estimates) && cache.lastUpdated == old(cache.lastUpdated)
      ensures confTarget <= MAX_CONF_TARGET && loadTried && Synced(topBlocks[..]) ==>
                if !force && !old(cache.IsStale(now)) && confTarget in old(cache.estimates) then
                  && result == old(cache.estimates)[confTarget]
                  && cache.estimates == old(cache.estimates) && cache.lastUpdated == old(cache.lastUpdated)
                  && (result.IsEmpty() ==> err == Some(InsufficientTransactions))
                else if histogram == [] then
                  && err == Some(NoMempoolTransactions) && result == NoPercentiles()
                  && cache.estimates == old(cache.estimates) && cache.lastUpdated == old(cache.lastUpdated)
                else
                  var computed := EstimatesAsWritten(Reversed(histogram), MAX_CONF_TARGET);
                  && cache.estimates == computed && cache.lastUpdated == now
                  && result == (if confTarget in computed then computed[confTarget] else NoPercentiles())
                  && (result.IsEmpty() ==> err == Some(InsufficientTransactions))
    {
      if confTarget > MAX_CONF_TARGET {
        return NoPercentiles(), Some(TargetAboveMaximum);
      }
      if !loadTried {
        return NoPercentiles(), Some(MempoolNotFinishedLoading);
      }
      var synced := RoughlySynced();
      if !synced {
        return NoPercentiles(), Some(NotInSync);
      }
      var cached: Option<Percentiles> := None;
      if !force {
        cached := cache.Get(confTarget, now);
      }
      result := NoPercentiles();
      if cached.None? {
        if histogram == [] {
          return NoPercentiles(), Some(NoMempoolTransactions);
        }
        var estimates := EstimateBlockFeeRatesWithMempool(histogram, MAX_CONF_TARGET);
        cache.Update(estimates, now);
        if confTarget in estimates {
          result := estimates[confTarget];
        }
      } else {
        result := cached.value;
      }
      err := None;
      if result.IsEmpty() {
        err := Some(InsufficientTransactions);
      }
    }
  }

  /** The first index found by a scan is FirstEmpty. */
  lemma FirstEmptyIsFirst(s: seq<BlockInfo>, k: nat)
    requires k <= |s|
    requires forall j :: 0 <= j < k ==> s[j].height != 0
    requires k == |s| || s[k].height == 0
    ensures k == FirstEmpty(s)
  {
  }

  /** The three weight loops of `MempoolTransactionsRemovedForBlock` and its verdict. */
  method ComputeRoughlySynced(removed: seq<Tx>, expected: seq<Tx>, block: seq<Tx>)
    returns (synced: bool)
    ensures synced == BlockSynced(removed, expected, block)
  {
    var blockTransactions: set<nat> := {};
    var blockWeight := 0;
    for i := 0 to |block|
      invariant blockTransactions == Ids(block[..i])
      invariant blockWeight == TotalWeight(block[..i])
    {
      assert block[..i + 1][..i] == block[..i];
      blockTransactions := blockTransactions + {block[i].txid};
      blockWeight := blockWeight + block[i].weight;
    }
    assert block[..|block|] == block;
    var removedExpectedWeight := 0;
    for i := 0 to |expected|
      invariant removedExpectedWeight == WeightIn(expected[..i], blockTransactions)
    {
      assert expected[..i + 1][..i] == expected[..i];
      if expected[i].txid in blockTransactions {
        removedExpectedWeight := removedExpectedWeight + expected[i].weight;
      }
    }
    assert expected[..|expected|] == expected;
    var removedWeight := 0;
    for i := 0 to |removed|
      invariant removedWeight == TotalWeight(removed[..i])
    {
      assert removed[..i + 1][..i] == removed[..i];
      removedWeight := removedWeight + removed[i].weight;
    }
    assert removed[..|removed|] == removed;
    var midBlockWeight := blockWeight / 2;
    synced := removedWeight > midBlockWeight && removedExpectedWeight > midBlockWeight;
  }

  /** One more entry: the running weight grows by its weight, and a percentile still zero takes
      its rate once the weight reaches the threshold. */
  lemma PrefixStep(items: seq<RateSize>, i: nat)
    requires i < |items|
    ensures CumWeight(items[..i + 1]) == CumWeight(items[..i]) + Weight(items[i].size)
    ensures forall threshold: nat {:trigger Pick(items[..i + 1], threshold)} ::
              Pick(items[..i + 1], threshold)
              == if Pick(items[..i], threshold) != 0 then Pick(items[..i], threshold)
                 else if CumWeight(items[..i + 1]) >= threshold then items[i].feeRate
                 else 0
  {
    assert items[..i + 1][..i] == items[..i];
    assert items[..i + 1][i] == items[i];
  }

  /** `CalculateBlockPercentiles(start, end)` over reverse positions `start..end` of the
      histogram. */
  method CalculateBlockPercentiles(stats: seq<RateSize>, start: nat, end: nat) returns (res: Percentiles)
    requires start <= end <= |stats|
    ensures res == PercentilesOf(Reversed(stats)[start..end])
  {
    ghost var items := Reversed(stats)[start..end];
    var totalWeight := 0;
    var p5, p25, p50, p75 := 0, 0, 0, 0;
    var rit := start;
    while rit != end
      invariant start <= rit <= end
      invariant totalWeight == CumWeight(items[..rit - start])
      invariant p5 == Pick(items[..rit - start], P5_WEIGHT)
      invariant p25 == Pick(items[..rit - start], P25_WEIGHT)
      invariant p50 == Pick(items[..rit - start], P50_WEIGHT)
      invariant p75 == Pick(items[..rit - start], P75_WEIGHT)
      decreases end - rit
    {
      var entry := stats[|stats| - 1 - rit];
      assert entry == items[rit - start];
      PrefixStep(items, rit - start);
      assert rit + 1 - start == rit - start + 1;
      totalWeight := totalWeight + Weight(entry.size);
      if totalWeight >= P5_WEIGHT && p5 == 0 { p5 := entry.feeRate; }
      if totalWeight >= P25_WEIGHT && p25 == 0 { p25 := entry.feeRate; }
      if totalWeight >= P50_WEIGHT && p50 == 0 { p50 := entry.feeRate; }
      if totalWeight >= P75_WEIGHT && p75 == 0 { p75 := entry.feeRate; }
      rit := rit + 1;
    }
    assert items[..end - start] == items;
    if totalWeight < DEFAULT_BLOCK_MAX_WEIGHT / 2 {
      return NoPercentiles();
    }
    res := Percentiles(p5, p25, p50, p75);
  }

  /** The loop of `EstimateBlockFeeRatesWithMempool` from the state it is in at entry `cur`:
      `start` opens the block being filled, `blockWeight` is its weight so far, `made` holds the
      blocks already closed. */
  function Split(rev: seq<RateSize>, cur: nat, start: nat, blockNumber: nat, blockWeight: nat,
                 made: map<nat, Block>): map<nat, Block>
    requires start <= cur <= |rev|
    decreases |rev| - cur
  {
    if blockNumber == 0 || cur == |rev| then made
    else
      var w := blockWeight + Weight(rev[cur].size);
      if w >= DEFAULT_BLOCK_MAX_WEIGHT || cur + 1 == |rev| then
        Split(rev, cur + 1, cur + 1, blockNumber - 1, 0, made[blockNumber := Block(start, cur + 1)])
      else
        Split(rev, cur + 1, start, blockNumber, w, made)
  }

  /** One entry of the split: it closes the open block or adds its weight to it. */
  lemma SplitStep(rev: seq<RateSize>, cur: nat, start: nat, blockNumber: nat, blockWeight: nat,
                  made: map<nat, Block>)
    requires start <= cur < |rev| && blockNumber != 0
    ensures var w := blockWeight + Weight(rev[cur].size);
            Split(rev, cur, start, blockNumber, blockWeight, made)
            == if w >= DEFAULT_BLOCK_MAX_WEIGHT || cur + 1 == |rev|
               then Split(rev, cur + 1, cur + 1, blockNumber - 1, 0, made[blockNumber := Block(start, cur + 1)])
               else Split(rev, cur + 1, start, blockNumber, w, made)
  {
  }

  /** The state the loop can be in at entry `cur`: the open block has gathered the weight of
      its entries so far and has not been closed yet. */
  ghost predicate OpenBlock(rev: seq<RateSize>, cur: nat, start: nat, blockWeight: nat) {
    && start <= cur <= |rev|
    && blockWeight == CumWeight(rev[start..cur])
    && (start < cur ==> cur < |rev| && cur < BlockEnd(rev, start))
  }

  /** Entry `cur` closes the open block: the loop and the split both go on from `cur + 1`
      with the block made. */
  lemma SplitCloses(rev: seq<RateSize>, cur: nat, start: nat, blockNumber: nat, blockWeight: nat,
                    made: map<nat, Block>)
    requires OpenBlock(rev, cur, start, blockWeight) && cur < |rev| && blockNumber != 0
    requires blockWeight + Weight(rev[cur].size) >= DEFAULT_BLOCK_MAX_WEIGHT || cur + 1 == |rev|
    ensures OpenBlock(rev, cur + 1, cur + 1, 0)
    ensures var made' := made[blockNumber := Block(start, cur + 1)];
            && Split(rev, cur, start, blockNumber, blockWeight, made) == Split(rev, cur + 1, cur + 1, blockNumber - 1, 0, made')
            && BlocksFrom(rev, start, blockNumber, made) == BlocksFrom(rev, cur + 1, blockNumber - 1, made')
  {
    assert rev[start..cur + 1][..cur - start] == rev[start..cur];
    assert !StillOpen(rev, start, cur + 1) || cur + 1 == |rev|;
    assert BlockEnd(rev, start) == cur + 1;
    assert rev[cur + 1..cur + 1] == [];
  }

  /** Entry `cur` leaves the open block open: the loop goes on from `cur + 1` with its weight. */
  lemma SplitContinues(rev: seq<RateSize>, cur: nat, start: nat, blockNumber: nat, blockWeight: nat,
                       made: map<nat, Block>)
    requires OpenBlock(rev, cur, start, blockWeight) && cur < |rev| && blockNumber != 0
    requires blockWeight + Weight(rev[cur].size) < DEFAULT_BLOCK_MAX_WEIGHT && cur + 1 < |rev|
    ensures OpenBlock(rev, cur + 1, start, blockWeight + Weight(rev[cur].size))
    ensures Split(rev, cur, start, blockNumber, blockWeight, made)
            == Split(rev, cur + 1, start, blockNumber, blockWeight + Weight(rev[cur].size), made)
  {
    assert rev[start..cur + 1][..cur - start] == rev[start..cur];
  }

  /** From any state the loop can be in, it makes the blocks of the split. */
  lemma {:induction false} SplitIsBlocks(rev: seq<RateSize>, cur: nat, start: nat, blockNumber: nat,
                                         blockWeight: nat, made: map<nat, Block>)
    requires OpenBlock(rev, cur, start, blockWeight)
    ensures Split(rev, cur, start, blockNumber, blockWeight, made) == BlocksFrom(rev, start, blockNumber, made)
    decreases |rev| - cur, 1
  {
    if blockNumber != 0 && cur != |rev| {
      if blockWeight + Weight(rev[cur].size) >= DEFAULT_BLOCK_MAX_WEIGHT || cur + 1 == |rev| {
        ClosingIsBlocks(rev, cur, start, blockNumber, blockWeight, made);
      } else {
        ContinuingIsBlocks(rev, cur, start, blockNumber, blockWeight, made);
      }
    }
  }

  lemma {:induction false} ClosingIsBlocks(rev: seq<RateSize>, cur: nat, start: nat, blockNumber: nat,
                                           blockWeight: nat, made: map<nat, Block>)
    requires OpenBlock(rev, cur, start, blockWeight) && cur < |rev| && blockNumber != 0
    requires blockWeight + Weight(rev[cur].size) >= DEFAULT_BLOCK_MAX_WEIGHT || cur + 1 == |rev|
    ensures Split(rev, cur, start, blockNumber, blockWeight, made) == BlocksFrom(rev, start, blockNumber, made)
    decreases |rev| - cur, 0
  {
    SplitCloses(rev, cur, start, blockNumber, blockWeight, made);
    SplitIsBlocks(rev, cur + 1, cur + 1, blockNumber - 1, 0, made[blockNumber := Block(start, cur + 1)]);
  }

  lemma {:induction false} ContinuingIsBlocks(rev: seq<RateSize>, cur: nat, start: nat, blockNumber: nat,
                                              blockWeight: nat, made: map<nat, Block>)
    requires OpenBlock(rev, cur, start, blockWeight) && cur < |rev| && blockNumber != 0
    requires blockWeight + Weight(rev[cur].size) < DEFAULT_BLOCK_MAX_WEIGHT && cur + 1 < |rev|
    ensures Split(rev, cur, start, blockNumber, blockWeight, made) == BlocksFrom(rev, start, blockNumber, made)
    decreases |rev| - cur, 0
  {
    SplitContinues(rev, cur, start, blockNumber, blockWeight, made);
    SplitIsBlocks(rev, cur + 1, start, blockNumber, blockWeight + Weight(rev[cur].size), made);
  }

  /** Adding a block adds its percentiles as the source takes them. */
  lemma SummariesAsWrittenAdd(rev: seq<RateSize>, blocks: map<nat, Block>, k: nat, b: Block)
    requires WithinHistogram(rev, blocks) && b.start < b.end <= |rev|
    ensures WithinHistogram(rev, blocks[k := b])
    ensures SummariesAsWritten(rev, blocks[k := b])
            == SummariesAsWritten(rev, blocks)[k := PercentilesOf(rev[b.start..b.end - 1])]
  {
    var blocks' := blocks[k := b];
    var lhs, rhs := SummariesAsWritten(rev, blocks'), SummariesAsWritten(rev, blocks)[k := PercentilesOf(rev[b.start..b.end - 1])];
    assert lhs.Keys == rhs.Keys;
    forall j | j in lhs.Keys ensures lhs[j] == rhs[j] {
      if j != k {
        assert blocks'[j] == blocks[j];
      }
    }
  }

  /** `EstimateBlockFeeRatesWithMempool`: the histogram read backwards is split into blocks,
      and each block's percentiles are taken over its range without the entry that closes it. */
  method EstimateBlockFeeRatesWithMempool(stats: seq<RateSize>, confTarget: nat)
    returns (estimates: map<nat, Percentiles>)
    ensures estimates == EstimatesAsWritten(Reversed(stats), confTarget)
  {
    ghost var rev := Reversed(stats);
    assert rev[0..0] == [];
    SplitIsBlocks(rev, 0, 0, confTarget, 0, map[]);
    estimates := map[];
    ghost var blocks: map<nat, Block> := map[];
    if stats == [] {
      return;
    }
    var start: nat, cur: nat, endPos := 0, 0, |stats|;
    var blockNumber: nat := confTarget;
    var blockWeight: nat := 0;
    while blockNumber >= 1 && cur != endPos
      invariant start <= cur <= endPos
      invariant WithinHistogram(rev, blocks) && estimates == SummariesAsWritten(rev, blocks)
      invariant Split(rev, cur, start, blockNumber, blockWeight, blocks) == Blocks(rev, confTarget)
      decreases endPos - cur
    {
      start, cur, blockNumber, blockWeight, estimates, blocks :=
        SplitIteration(stats, rev, Blocks(rev, confTarget), start, cur, blockNumber, blockWeight, estimates, blocks);
    }
  }

  /** One pass of `EstimateBlockFeeRatesWithMempool`'s loop over reverse position `cur`: the
      entry's weight is added to the open block, and when the block reaches the block weight or
      the histogram ends, the block's percentiles over `start..cur` are stored under
      `blockNumber` and the next block opens after `cur`. */
  method SplitIteration(stats: seq<RateSize>, ghost rev: seq<RateSize>, ghost target: map<nat, Block>,
                        start: nat, cur: nat, blockNumber: nat, blockWeight: nat,
                        estimates: map<nat, Percentiles>, ghost blocks: map<nat, Block>)
    returns (start': nat, cur': nat, blockNumber': nat, blockWeight': nat,
             estimates': map<nat, Percentiles>, ghost blocks': map<nat, Block>)
    requires rev == Reversed(stats) && start <= cur < |stats| && blockNumber >= 1
    requires WithinHistogram(rev, blocks) && estimates == SummariesAsWritten(rev, blocks)
    requires Split(rev, cur, start, blockNumber, blockWeight, blocks) == target
    ensures cur' == cur + 1 && start' <= cur'
    ensures WithinHistogram(rev, blocks') && estimates' == SummariesAsWritten(rev, blocks')
    ensures Split(rev, cur', start', blockNumber', blockWeight', blocks') == target
  {
    var txWeight := Weight(stats[|stats| - 1 - cur].size);
    assert txWeight == Weight(rev[cur].size);
    SplitStep(rev, cur, start, blockNumber, blockWeight, blocks);
    if blockWeight + txWeight >= DEFAULT_BLOCK_MAX_WEIGHT || cur + 1 == |stats| {
      var p := CalculateBlockPercentiles(stats, start, cur);
      SummariesAsWrittenAdd(rev, blocks, blockNumber, Block(start, cur + 1));
      start', cur', blockNumber', blockWeight' := cur + 1, cur + 1, blockNumber - 1, 0;
      estimates', blocks' := estimates[blockNumber := p], blocks[blockNumber := Block(start, cur + 1)];
    } else {
      start', cur', blockNumber', blockWeight' := start, cur + 1, blockNumber, blockWeight + txWeight;
      estimates', blocks' := estimates, blocks;
    }
  }
}
