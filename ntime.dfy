/** The time-bucket forecaster (policy/forecasters/ntime.{h,cpp}): confirmed transactions are
    filed by how many hours they waited, the table is shifted every hour, and an estimate
    compares the last `hours` hours with an older window of the same length. */
module NTimeForecasts {
  import opened Wrappers
  import opened Forecasts

  /** Rows of the tracking table: hours of history kept. */
  const MAX_HOURS: nat := 504

  const SECONDS_IN_HOUR: nat := 3600

  /** `ConfirmedTx`: when the transaction arrived and was confirmed (seconds), its mining score
      as a fee per kvB, and its virtual size. */
  datatype ConfirmedTx = ConfirmedTx(receivedTime: int, confirmedTime: int, feeRate: nat, vsize: nat)

  /** `TrackingVector`: row `i` holds the transactions seen `i` hours ago, bucket `j` of a row
      those that took `j + 1` hours (rounded up) to confirm. */
  type Stats = seq<seq<seq<ConfirmedTx>>>

  /** The table's shape: `MAX_HOURS` rows, row `i` with `i + 1` buckets. */
  predicate Shaped(stats: Stats) {
    |stats| == MAX_HOURS && forall i :: 0 <= i < |stats| ==> |stats[i]| == i + 1
  }

  // ---------------------------------------------------------------------------------------------
  // Hour arithmetic

  /** Integer ceiling of `a / b` (the source computes it in floating point). */
  function CeilDiv(a: int, b: nat): (r: int)
    requires b > 0
    ensures (r - 1) * b < a <= r * b
  {
    var q := (-a) / b;
    assert -a == q * b + (-a) % b;
    -q
  }

  /** `calculateHoursIndex`: the hours a transaction waited, rounded up, minus one, never below 0. */
  function HoursIndex(receivedTime: int, confirmedTime: int): (k: nat)
    ensures confirmedTime - receivedTime <= SECONDS_IN_HOUR ==> k == 0
    ensures confirmedTime - receivedTime > SECONDS_IN_HOUR ==>
              k * SECONDS_IN_HOUR < confirmedTime - receivedTime <= (k + 1) * SECONDS_IN_HOUR
  {
    var c := CeilDiv(confirmedTime - receivedTime, SECONDS_IN_HOUR);
    if c - 1 > 0 then c - 1 else 0
  }

  /** `GetHistoricalEstimate`'s range: start at `hours` rounded up to whole days, end `hours`
      later, so the historical window is as long as the recent one and ends no later than now. */
  function HistoricalRange(hours: int): (r: (int, int))
    ensures r.0 % 24 == 0 && hours <= r.0 < hours + 24
    ensures r.0 - r.1 == hours && 0 <= r.1 < 24
  {
    var startHr := CeilDiv(hours, 24) * 24;
    (startHr, startHr - hours)
  }

  // ---------------------------------------------------------------------------------------------
  // Filing transactions

  /** The table after `addTxToStats(tx)`: the transaction goes into bucket `k` of row `k`, where
      `k` is its hours index, or is dropped when `k` is past the last row. */
  function WithTx(stats: Stats, tx: ConfirmedTx): (r: Stats)
    requires Shaped(stats)
    ensures Shaped(r)
    ensures var k := HoursIndex(tx.receivedTime, tx.confirmedTime);
            && (k >= MAX_HOURS ==> r == stats)
            && (k < MAX_HOURS ==> r[k][k] == stats[k][k] + [tx])
            && forall i, j :: 0 <= i < |r| && 0 <= j < |r[i]| && (i != k || j != k) ==>
                 r[i][j] == stats[i][j]
  {
    var k := HoursIndex(tx.receivedTime, tx.confirmedTime);
    if k >= MAX_HOURS then stats
    else stats[k := stats[k][k := stats[k][k] + [tx]]]
  }

  /** The table after filing `txs` one after another. */
  function WithTxs(stats: Stats, txs: seq<ConfirmedTx>): (r: Stats)
    requires Shaped(stats)
    ensures Shaped(r)
    decreases |txs|
  {
    if txs == [] then stats else WithTxs(WithTx(stats, txs[0]), txs[1..])
  }

  /** Filing one more transaction after `txs`. */
  lemma {:induction false} WithTxsSnoc(stats: Stats, txs: seq<ConfirmedTx>, tx: ConfirmedTx)
    requires Shaped(stats)
    ensures WithTxs(stats, txs + [tx]) == WithTx(WithTxs(stats, txs), tx)
    decreases |txs|
  {
    if txs == [] {
      assert [tx][1..] == [];
    } else {
      assert (txs + [tx])[1..] == txs[1..] + [tx];
      WithTxsSnoc(WithTx(stats, txs[0]), txs[1..], tx);
    }
  }

  /** The transactions a block notification files, in inclusion order: every linearised
      transaction that is among those removed for the block, received at its recorded time and
      confirmed at `now`. */
  function Confirmations(received: map<nat, int>, order: seq<(nat, RateSize)>, now: int): (r: seq<ConfirmedTx>)
    ensures |r| <= |order|
    ensures forall t :: t in r ==> t.confirmedTime == now
  {
    if order == [] then []
    else
      var last := order[|order| - 1];
      Confirmations(received, order[..|order| - 1], now)
      + (if last.0 in received then [ConfirmedTx(received[last.0], now, last.1.feeRate, last.1.size)] else [])
  }

  /** Exactly the linearised transactions found among the removed ones are filed, each with its
      recorded arrival time, confirmed at `now`. */
  lemma {:induction false} ConfirmationsMembers(received: map<nat, int>, order: seq<(nat, RateSize)>,
                                                now: int, t: ConfirmedTx)
    ensures t in Confirmations(received, order, now) <==>
              exists k :: 0 <= k < |order| && order[k].0 in received
                          && t == ConfirmedTx(received[order[k].0], now, order[k].1.feeRate, order[k].1.size)
  {
    if order != [] {
      var init := order[..|order| - 1];
      assert forall k :: 0 <= k < |init| ==> init[k] == order[k];
      ConfirmationsMembers(received, init, now, t);
    }
  }

  // ---------------------------------------------------------------------------------------------
  // Selecting transactions within a time range

  /** The `(fee rate, vsize)` entry of a tracked transaction. */
  function Entry(tx: ConfirmedTx): RateSize {
    RateSize(tx.feeRate, tx.vsize)
  }

  /** The time `hours` hours before `now`, in seconds (`SECONDS_IN_HOUR` per hour). */
  function HoursAgo(now: int, hours: int): int {
    now - hours * 3600
  }

  /** Seen at or after `startTs` and confirmed at or before `endTs`. */
  predicate InRange(tx: ConfirmedTx, startTs: int, endTs: int) {
    tx.receivedTime >= startTs && tx.confirmedTime <= endTs
  }

  /** The entries of the transactions of one bucket that lie in the time range, in bucket order. */
  function Matching(txs: seq<ConfirmedTx>, startTs: int, endTs: int): seq<RateSize>
  {
    if txs == [] then []
    else
      var t := txs[|txs| - 1];
      Matching(txs[..|txs| - 1], startTs, endTs) + (if InRange(t, startTs, endTs) then [Entry(t)] else [])
  }

  /** The matching entries of the first `n` confirmation buckets of a row, skipping buckets the
      row does not have. */
  function RowMatches(row: seq<seq<ConfirmedTx>>, n: nat, startTs: int, endTs: int): seq<RateSize>
  {
    if n == 0 then []
    else RowMatches(row, n - 1, startTs, endTs)
         + (if n - 1 < |row| then Matching(row[n - 1], startTs, endTs) else [])
  }

  /** The matching entries of rows `startHr` down to `lo`, reading `n` confirmation buckets of each
      row. A row is read when it is tracked; `asWritten` switches to the source's check, which
      tests `startHr` instead of the row. */
  function Rows(stats: Stats, startHr: int, lo: int, n: nat, startTs: int, endTs: int, asWritten: bool): seq<RateSize>
    requires 0 <= lo || startHr < lo
    decreases startHr - lo
  {
    if lo > startHr then []
    else
      Rows(stats, startHr, lo + 1, n, startTs, endTs, asWritten)
      + (if (if asWritten then startHr < |stats| else lo < |stats|)
         then RowMatches(stats[lo], n, startTs, endTs) else [])
  }

  /** The confirmation buckets read per row: `j` runs up to `(startHr - endHr) - 1`. */
  function ConfBuckets(startHr: int, endHr: int): nat {
    if startHr - endHr > 0 then startHr - endHr else 0
  }

  /** The entries of the window `startHr..endHr` hours before `now`, every tracked row read:
      what `GetTxsWithinTime(startHr, endHr)` evidently means to collect, before sorting. */
  function WithinTime(stats: Stats, now: int, startHr: int, endHr: int): seq<RateSize>
    requires 0 <= endHr
  {
    Rows(stats, startHr, endHr, ConfBuckets(startHr, endHr),
         HoursAgo(now, startHr), HoursAgo(now, endHr), false)
  }

  /** The collection of `GetTxsWithinTime` as the source writes it: its tracked-row test looks
      at `startHr` instead of the row. */
  function WithinTimeAsWritten(stats: Stats, now: int, startHr: int, endHr: int): seq<RateSize>
    requires 0 <= endHr
  {
    Rows(stats, startHr, endHr, ConfBuckets(startHr, endHr),
         HoursAgo(now, startHr), HoursAgo(now, endHr), true)
  }

  /** The weight `GetTxsWithinTime` reports: the sum of `vsize / WITNESS_SCALE_FACTOR`. */
  function QuarterWeight(s: seq<RateSize>): nat
  {
    if s == [] then 0 else QuarterWeight(s[..|s| - 1]) + Unscaled(s[|s| - 1].size)
  }

  /** A bucket contributes exactly its in-range transactions. */
  lemma {:induction false} MatchingMembers(txs: seq<ConfirmedTx>, startTs: int, endTs: int, x: RateSize)
    ensures x in Matching(txs, startTs, endTs) <==>
            exists t :: t in txs && InRange(t, startTs, endTs) && Entry(t) == x
  {
    if txs != [] {
      var init := txs[..|txs| - 1];
      MatchingMembers(init, startTs, endTs, x);
      assert txs == init + [txs[|txs| - 1]];
    }
  }

  /** Some bucket below `n` of the row holds a matching entry `x`. */
  ghost predicate InBuckets(row: seq<seq<ConfirmedTx>>, n: nat, startTs: int, endTs: int, x: RateSize) {
    exists j :: 0 <= j < n && j < |row| && x in Matching(row[j], startTs, endTs)
  }

  /** Some tracked row from `lo` to `startHr` holds `x` among its first `n` buckets. */
  ghost predicate InRows(stats: Stats, startHr: int, lo: int, n: nat, startTs: int, endTs: int, x: RateSize) {
    exists i :: 0 <= lo <= i <= startHr && i < |stats| && x in RowMatches(stats[i], n, startTs, endTs)
  }

  /** The buckets below `n` hold `x` exactly when those below `n - 1` or bucket `n - 1` do. */
  lemma InBucketsStep(row: seq<seq<ConfirmedTx>>, n: nat, startTs: int, endTs: int, x: RateSize)
    requires n > 0
    ensures InBuckets(row, n, startTs, endTs, x) <==>
            InBuckets(row, n - 1, startTs, endTs, x) || (n - 1 < |row| && x in Matching(row[n - 1], startTs, endTs))
  {
    if InBuckets(row, n, startTs, endTs, x) {
      var j :| 0 <= j < n && j < |row| && x in Matching(row[j], startTs, endTs);
      if j < n - 1 {
        assert InBuckets(row, n - 1, startTs, endTs, x);
      }
    }
  }

  /** A row contributes exactly the matching entries of its first `n` buckets. */
  lemma {:induction false} RowMatchesMembers(row: seq<seq<ConfirmedTx>>, n: nat, startTs: int, endTs: int, x: RateSize)
    ensures x in RowMatches(row, n, startTs, endTs) <==> InBuckets(row, n, startTs, endTs, x)
  {
    if n > 0 {
      RowMatchesMembers(row, n - 1, startTs, endTs, x);
      InBucketsStep(row, n, startTs, endTs, x);
      var extra := if n - 1 < |row| then Matching(row[n - 1], startTs, endTs) else [];
      assert RowMatches(row, n, startTs, endTs) == RowMatches(row, n - 1, startTs, endTs) + extra;
      assert x in extra <==> n - 1 < |row| && x in Matching(row[n - 1], startTs, endTs);
    }
  }

  /** The rows contribute exactly the matching entries of the tracked rows from `lo` to `startHr`. */
  lemma {:induction false} RowsMembers(stats: Stats, startHr: int, lo: int, n: nat, startTs: int, endTs: int, x: RateSize)
    requires 0 <= lo
    ensures x in Rows(stats, startHr, lo, n, startTs, endTs, false) <==> InRows(stats, startHr, lo, n, startTs, endTs, x)
    decreases startHr - lo
  {
    if lo <= startHr {
      RowsMembers(stats, startHr, lo + 1, n, startTs, endTs, x);
      RowsStep(stats, startHr, lo, n, startTs, endTs, false);
      var extra := if lo < |stats| then RowMatches(stats[lo], n, startTs, endTs) else [];
      assert x in Rows(stats, startHr, lo, n, startTs, endTs, false) <==>
             x in Rows(stats, startHr, lo + 1, n, startTs, endTs, false) || x in extra;
      assert InRows(stats, startHr, lo, n, startTs, endTs, x) <==>
             InRows(stats, startHr, lo + 1, n, startTs, endTs, x) || x in extra by {
        if InRows(stats, startHr, lo, n, startTs, endTs, x) {
          var i :| 0 <= lo <= i <= startHr && i < |stats| && x in RowMatches(stats[i], n, startTs, endTs);
          if i > lo {
            assert InRows(stats, startHr, lo + 1, n, startTs, endTs, x);
          }
        }
      }
    }
  }

  /** Some tracked row from `endHr` to `startHr` has, in a confirmation bucket below
      `startHr - endHr`, a transaction with entry `x` seen at or after `startHr` hours before
      `now` and confirmed at or before `endHr` hours before `now`. */
  ghost predicate Kept(stats: Stats, now: int, startHr: int, endHr: int, x: RateSize) {
    exists i, j :: endHr <= i <= startHr && 0 <= i < |stats| && 0 <= j < startHr - endHr && j < |stats[i]|
                   && x in Matching(stats[i][j], HoursAgo(now, startHr), HoursAgo(now, endHr))
  }

  /** Everything collected is kept. */
  lemma CollectedIsKept(stats: Stats, now: int, startHr: int, endHr: int, x: RateSize)
    requires 0 <= endHr && x in WithinTime(stats, now, startHr, endHr)
    ensures Kept(stats, now, startHr, endHr, x)
  {
    var n := ConfBuckets(startHr, endHr);
    var startTs, endTs := HoursAgo(now, startHr), HoursAgo(now, endHr);
    assert WithinTime(stats, now, startHr, endHr) == Rows(stats, startHr, endHr, n, startTs, endTs, false);
    RowsMembers(stats, startHr, endHr, n, startTs, endTs, x);
    var i :| 0 <= endHr <= i <= startHr && i < |stats| && x in RowMatches(stats[i], n, startTs, endTs);
    RowMatchesMembers(stats[i], n, startTs, endTs, x);
    var j :| 0 <= j < n && j < |stats[i]| && x in Matching(stats[i][j], startTs, endTs);
  }

  /** Everything kept is collected. */
  lemma KeptIsCollected(stats: Stats, now: int, startHr: int, endHr: int, x: RateSize)
    requires 0 <= endHr && Kept(stats, now, startHr, endHr, x)
    ensures x in WithinTime(stats, now, startHr, endHr)
  {
    var n := ConfBuckets(startHr, endHr);
    var startTs, endTs := HoursAgo(now, startHr), HoursAgo(now, endHr);
    var i, j :| endHr <= i <= startHr && 0 <= i < |stats| && 0 <= j < startHr - endHr && j < |stats[i]|
                && x in Matching(stats[i][j], startTs, endTs);
    RowMatchesMembers(stats[i], n, startTs, endTs, x);
    assert InBuckets(stats[i], n, startTs, endTs, x);
    assert InRows(stats, startHr, endHr, n, startTs, endTs, x);
    RowsMembers(stats, startHr, endHr, n, startTs, endTs, x);
    assert WithinTime(stats, now, startHr, endHr) == Rows(stats, startHr, endHr, n, startTs, endTs, false);
  }

  /** `GetTxsWithinTime` collects exactly the kept entries. */
  lemma WithinTimeMembers(stats: Stats, now: int, startHr: int, endHr: int, x: RateSize)
    requires 0 <= endHr
    ensures x in WithinTime(stats, now, startHr, endHr) <==> Kept(stats, now, startHr, endHr, x)
  {
    if x in WithinTime(stats, now, startHr, endHr) {
      CollectedIsKept(stats, now, startHr, endHr, x);
    }
    if Kept(stats, now, startHr, endHr, x) {
      KeptIsCollected(stats, now, startHr, endHr, x);
    }
  }

  /** With the source's test, nothing is collected once `startHr` reaches the number of rows,
      whatever the table holds. */
  lemma {:induction false} AsWrittenSkipsAll(stats: Stats, startHr: int, lo: int, n: nat, startTs: int, endTs: int)
    requires 0 <= lo && |stats| <= startHr
    ensures Rows(stats, startHr, lo, n, startTs, endTs, true) == []
    decreases startHr - lo
  {
    if lo <= startHr {
      AsWrittenSkipsAll(stats, startHr, lo + 1, n, startTs, endTs);
    }
  }

  /** With `startHr` tracked, every row from `lo` to `startHr` is tracked too, so the source's
      test keeps the same rows as the row-by-row one. */
  lemma {:induction false} AsWrittenReadsTrackedRows(stats: Stats, startHr: int, lo: int, n: nat, startTs: int, endTs: int)
    requires 0 <= lo && startHr < |stats|
    ensures Rows(stats, startHr, lo, n, startTs, endTs, true) == Rows(stats, startHr, lo, n, startTs, endTs, false)
    decreases startHr - lo
  {
    if lo <= startHr {
      AsWrittenReadsTrackedRows(stats, startHr, lo + 1, n, startTs, endTs);
    }
  }

  /** What the source collects: the row-by-row collection when `startHr` is a tracked row, and
      nothing otherwise. */
  lemma WithinTimeAsWrittenIs(stats: Stats, now: int, startHr: int, endHr: int)
    requires 0 <= endHr
    ensures WithinTimeAsWritten(stats, now, startHr, endHr)
            == if startHr < |stats| then WithinTime(stats, now, startHr, endHr) else []
  {
    var n := ConfBuckets(startHr, endHr);
    var startTs, endTs := HoursAgo(now, startHr), HoursAgo(now, endHr);
    if startHr < |stats| {
      AsWrittenReadsTrackedRows(stats, startHr, endHr, n, startTs, endTs);
    } else {
      AsWrittenSkipsAll(stats, startHr, endHr, n, startTs, endTs);
    }
  }

  /** The source collects an entry exactly when `startHr` is a tracked row and the entry is kept. */
  lemma WithinTimeAsWrittenMembers(stats: Stats, now: int, startHr: int, endHr: int, x: RateSize)
    requires 0 <= endHr
    ensures x in WithinTimeAsWritten(stats, now, startHr, endHr) <==>
              startHr < |stats| && Kept(stats, now, startHr, endHr, x)
  {
    WithinTimeAsWrittenIs(stats, now, startHr, endHr);
    WithinTimeMembers(stats, now, startHr, endHr, x);
  }

  /** The largest admissible target, `MAX_HOURS`, asks for a window of rows `504..0`: as written
      it collects nothing even when row 0 holds a transaction inside the window, which the
      row-by-row test keeps. */
  lemma FullWindowIgnoresTrackedRows(stats: Stats, now: int, tx: ConfirmedTx)
    requires Shaped(stats) && tx in stats[0][0]
    requires InRange(tx, HoursAgo(now, MAX_HOURS), now)
    ensures WithinTimeAsWritten(stats, now, MAX_HOURS, 0) == []
    ensures Entry(tx) in WithinTime(stats, now, MAX_HOURS, 0)
  {
    var startTs := HoursAgo(now, MAX_HOURS);
    var endTs := HoursAgo(now, 0);
    assert WithinTimeAsWritten(stats, now, MAX_HOURS, 0)
      == Rows(stats, MAX_HOURS, 0, ConfBuckets(MAX_HOURS, 0), startTs, endTs, true);
    AsWrittenSkipsAll(stats, MAX_HOURS, 0, ConfBuckets(MAX_HOURS, 0), startTs, endTs);
    MatchingMembers(stats[0][0], startTs, endTs, Entry(tx));
    assert Entry(tx) in Matching(stats[0][0], startTs, endTs);
    assert Kept(stats, now, MAX_HOURS, 0, Entry(tx));
    KeptIsCollected(stats, now, MAX_HOURS, 0, Entry(tx));
  }

  // ---------------------------------------------------------------------------------------------
  // Sorting by fee rate

  /** Fee rates never decrease along `s`. */
  predicate AscendingByRate(s: seq<RateSize>) {
    forall i, j :: 0 <= i < j < |s| ==> s[i].feeRate <= s[j].feeRate
  }

  /** `x` placed before the first entry with a rate not below its own. */
  function InsertByRate(x: RateSize, s: seq<RateSize>): (r: seq<RateSize>)
    ensures multiset(r) == multiset(s) + multiset{x}
  {
    if s == [] then [x]
    else if x.feeRate <= s[0].feeRate then [x] + s
    else
      assert s == [s[0]] + s[1..];
      [s[0]] + InsertByRate(x, s[1..])
  }

  /** The order `std::sort` leaves the entries in, by increasing fee per kvB; equal rates keep
      their collection order. */
  function SortByRate(s: seq<RateSize>): (r: seq<RateSize>)
    ensures multiset(r) == multiset(s)
  {
    if s == [] then []
    else
      assert s == [s[0]] + s[1..];
      InsertByRate(s[0], SortByRate(s[1..]))
  }

  /** An entry no faster than any of an ascending sequence can go in front of it. */
  lemma ConsAscending(y: RateSize, rest: seq<RateSize>)
    requires AscendingByRate(rest)
    requires forall k :: 0 <= k < |rest| ==> y.feeRate <= rest[k].feeRate
    ensures AscendingByRate([y] + rest)
  {
    var r := [y] + rest;
    forall i, j | 0 <= i < j < |r| ensures r[i].feeRate <= r[j].feeRate {
      assert r[j] == rest[j - 1];
      if i > 0 {
        assert r[i] == rest[i - 1];
      }
    }
  }

  /** Inserting into an ascending sequence keeps it ascending. */
  lemma {:induction false} InsertKeepsAscending(x: RateSize, s: seq<RateSize>)
    requires AscendingByRate(s)
    ensures AscendingByRate(InsertByRate(x, s))
  {
    if s == [] {
    } else if x.feeRate <= s[0].feeRate {
      ConsAscending(x, s);
    } else {
      var tail := s[1..];
      assert AscendingByRate(tail);
      InsertKeepsAscending(x, tail);
      var rest := InsertByRate(x, tail);
      forall k | 0 <= k < |rest| ensures s[0].feeRate <= rest[k].feeRate {
        assert rest[k] in multiset(rest);
        if rest[k] != x {
          assert rest[k] in multiset(tail);
          var m :| 0 <= m < |tail| && tail[m] == rest[k];
          assert s[m + 1] == rest[k];
        }
      }
      ConsAscending(s[0], rest);
    }
  }

  /** The sorted entries ascend by fee rate and are a permutation of the collected ones. */
  lemma {:induction false} SortByRateSorts(s: seq<RateSize>)
    ensures AscendingByRate(SortByRate(s))
    ensures multiset(SortByRate(s)) == multiset(s)
  {
    if s != [] {
      SortByRateSorts(s[1..]);
      InsertKeepsAscending(s[0], SortByRate(s[1..]));
    }
  }

  // ---------------------------------------------------------------------------------------------
  // The estimate

  /** `EstimateFee`'s decision once both windows have been summarised: the target must not
      exceed `MAX_HOURS`, both summaries must be non-empty, and the pair (p25, p50) comes from the
      window when its p75 is strictly lower than the historical one, else from history. */
  function Decide(targetHours: int, window: Percentiles, historical: Percentiles): (r: ForecastResult)
    ensures r.options.forecaster == NTimeForecast
    ensures targetHours > MAX_HOURS ==> r.err == Some(TargetAboveMax(targetHours, MAX_HOURS))
    ensures targetHours <= MAX_HOURS && window.IsEmpty() ==> r.err == Some(NoWindowData)
    ensures targetHours <= MAX_HOURS && !window.IsEmpty() && historical.IsEmpty() ==>
              r.err == Some(NoHistoricalData)
    ensures r.err == None <==> targetHours <= MAX_HOURS && !window.IsEmpty() && !historical.IsEmpty()
    ensures r.err == None ==>
              || (window.p75 < historical.p75
                  && r.options.lowPriority == window.p25 && r.options.highPriority == window.p50)
              || (historical.p75 <= window.p75
                  && r.options.lowPriority == historical.p25 && r.options.highPriority == historical.p50)
    ensures r.err != None ==> r.options.lowPriority == 0 && r.options.highPriority == 0
  {
    if targetHours > MAX_HOURS then Failure(NTimeForecast, 0, TargetAboveMax(targetHours, MAX_HOURS))
    else if window.IsEmpty() then Failure(NTimeForecast, 0, NoWindowData)
    else if historical.IsEmpty() then Failure(NTimeForecast, 0, NoHistoricalData)
    else if window.p75 < historical.p75 then Success(NTimeForecast, 0, window.p25, window.p50)
    else Success(NTimeForecast, 0, historical.p25, historical.p50)
  }

  /** The summary of a collected range as the percentile routine receives it: sorted entries
      and their weight. */
  function Summary(collected: seq<RateSize>, percentiles: (seq<RateSize>, nat) -> Percentiles): Percentiles {
    percentiles(SortByRate(collected), QuarterWeight(collected))
  }

  /** `GetWindowEstimate(hours)`: the last `hours` hours up to now. */
  function WindowEstimate(stats: Stats, now: int, hours: int, percentiles: (seq<RateSize>, nat) -> Percentiles): Percentiles {
    Summary(WithinTimeAsWritten(stats, now, hours, 0), percentiles)
  }

  /** `GetHistoricalEstimate(hours)`: the range `HistoricalRange(hours)`. */
  function HistoricalEstimate(stats: Stats, now: int, hours: int, percentiles: (seq<RateSize>, nat) -> Percentiles): Percentiles {
    var range := HistoricalRange(hours);
    Summary(WithinTimeAsWritten(stats, now, range.0, range.1), percentiles)
  }

  /** Every target from 481 to `MAX_HOURS` hours rounds its historical range up to
      `MAX_HOURS`, which is not a tracked row: the historical estimate is that of no entries, and
      when the percentile routine gives no estimate for no entries, the forecast fails. */
  lemma LateTargetsHaveNoHistory(stats: Stats, now: int, targetHours: int,
                                 percentiles: (seq<RateSize>, nat) -> Percentiles)
    requires Shaped(stats) && MAX_HOURS - 24 < targetHours <= MAX_HOURS
    ensures HistoricalRange(targetHours).0 == MAX_HOURS
    ensures HistoricalEstimate(stats, now, targetHours, percentiles) == percentiles([], 0)
    ensures percentiles([], 0).IsEmpty() ==>
              Decide(targetHours, WindowEstimate(stats, now, targetHours, percentiles),
                     HistoricalEstimate(stats, now, targetHours, percentiles)).err.Some?
  {
    var range := HistoricalRange(targetHours);
    assert range.0 == MAX_HOURS;
    WithinTimeAsWrittenIs(stats, now, range.0, range.1);
  }

  /** An empty table of the right shape. */
  method InitStats() returns (r: Stats)
    ensures Shaped(r)
    ensures forall i, j :: 0 <= i < |r| && 0 <= j < |r[i]| ==> r[i][j] == []
  {
    r := [];
    for i := 0 to MAX_HOURS
      invariant |r| == i
      invariant forall k :: 0 <= k < i ==> |r[k]| == k + 1
      invariant forall k, j :: 0 <= k < i && 0 <= j < |r[k]| ==> r[k][j] == []
    {
      r := r + [seq(i + 1, _ => [])];
    }
  }

  /** `NTime`: the tracking table, updated by block notifications and shifted hourly. */
  class NTime {
    var trackingStats: Stats

    ghost predicate Valid()
      reads this
    {
      Shaped(trackingStats)
    }

    constructor()
      ensures Valid()
      ensures forall i, j :: 0 <= i < |trackingStats| && 0 <= j < |trackingStats[i]| ==> trackingStats[i][j] == []
    {
      var empty := InitStats();
      trackingStats := empty;
    }

    /** `addTxToStats`. */
    method AddTxToStats(tx: ConfirmedTx)
      requires Valid()
      modifies this
      ensures Valid()
      ensures trackingStats == WithTx(old(trackingStats), tx)
    {
      var k := HoursIndex(tx.receivedTime, tx.confirmedTime);
      if k >= MAX_HOURS {
        return;
      }
      trackingStats := trackingStats[k := trackingStats[k][k := trackingStats[k][k] + [tx]]];
    }

    /** `UpdateTrackingStats`: every row moves one hour older and gains an empty bucket, row 0
        starts empty and the oldest row is dropped. */
    method UpdateTrackingStats()
      requires Valid()
      modifies this
      ensures Valid()
      ensures trackingStats[0] == [[]]
      ensures forall i :: 0 <= i < MAX_HOURS - 1 ==> trackingStats[i + 1] == old(trackingStats)[i] + [[]]
    {
      var temp := InitStats();
      for i := 0 to MAX_HOURS - 1
        invariant |temp| == MAX_HOURS
        invariant temp[0] == [[]]
        invariant forall k :: 0 <= k < i ==> temp[k + 1] == trackingStats[k] + [[]]
        invariant forall k :: i < k < MAX_HOURS ==> |temp[k]| == k + 1
      {
        temp := temp[i + 1 := trackingStats[i] + [[]]];
      }
      forall k | 0 < k < MAX_HOURS
        ensures |temp[k]| == k + 1
      {
        assert temp[k] == trackingStats[k - 1] + [[]];
      }
      trackingStats := temp;
    }

    /** `MempoolTransactionsRemovedForBlock`: each transaction of the block's linearisation that
        was removed from the mempool is filed as confirmed at `now`. `received` maps the removed
        transactions to their arrival time; `order` is the inclusion order with each
        transaction's `(fee rate, vsize)`. */
    method MempoolTransactionsRemovedForBlock(received: map<nat, int>, order: seq<(nat, RateSize)>, now: int)
      requires Valid()
      modifies this
      ensures Valid()
      ensures trackingStats == WithTxs(old(trackingStats), Confirmations(received, order, now))
    {
      ghost var start := trackingStats;
      for k := 0 to |order|
        invariant Valid()
        invariant trackingStats == WithTxs(start, Confirmations(received, order[..k], now))
      {
        assert order[..k + 1][..k] == order[..k];
        var (txid, entry) := order[k];
        if txid in received {
          var tx := ConfirmedTx(received[txid], now, entry.feeRate, entry.size);
          assert Confirmations(received, order[..k + 1], now) == Confirmations(received, order[..k], now) + [tx];
          WithTxsSnoc(start, Confirmations(received, order[..k], now), tx);
          AddTxToStats(tx);
        } else {
          assert Confirmations(received, order[..k + 1], now) == Confirmations(received, order[..k], now) + [];
          assert Confirmations(received, order[..k + 1], now) == Confirmations(received, order[..k], now);
        }
      }
      assert order[..|order|] == order;
    }

    /** `GetTxsWithinTime(startHr, endHr)` at time `now`: the in-range entries of the rows, read
        only when `startHr` is a tracked row, sorted by fee rate, and their weight. */
    method GetTxsWithinTime(startHr: int, endHr: int, now: int) returns (txs: seq<RateSize>, totalWeight: nat)
      requires 0 <= endHr
      ensures txs == SortByRate(WithinTimeAsWritten(trackingStats, now, startHr, endHr))
      ensures totalWeight == QuarterWeight(WithinTimeAsWritten(trackingStats, now, startHr, endHr))
    {
      var collected;
      collected, totalWeight := CollectWithinTime(trackingStats, now, startHr, endHr);
      txs := SortByRate(collected);
    }

    /** `GetWindowEstimate(hours)`. */
    method GetWindowEstimate(hours: int, now: int, percentiles: (seq<RateSize>, nat) -> Percentiles)
      returns (p: Percentiles)
      ensures p == WindowEstimate(trackingStats, now, hours, percentiles)
    {
      var txs, weight := GetTxsWithinTime(hours, 0, now);
      p := percentiles(txs, weight);
    }

    /** `GetHistoricalEstimate(hours)`. */
    method GetHistoricalEstimate(hours: int, now: int, percentiles: (seq<RateSize>, nat) -> Percentiles)
      returns (p: Percentiles)
      ensures p == HistoricalEstimate(trackingStats, now, hours, percentiles)
    {
      var range := HistoricalRange(hours);
      var txs, weight := GetTxsWithinTime(range.0, range.1, now);
      p := percentiles(txs, weight);
    }

    /** `EstimateFee(targetHours)` at time `now`; `percentiles` is the percentile routine applied
        to the sorted entries and their weight. */
    method EstimateFee(targetHours: int, now: int, percentiles: (seq<RateSize>, nat) -> Percentiles)
      returns (r: ForecastResult)
      ensures r == Decide(targetHours, WindowEstimate(trackingStats, now, targetHours, percentiles),
                          HistoricalEstimate(trackingStats, now, targetHours, percentiles))
    {
      if targetHours > MAX_HOURS {
        return Failure(NTimeForecast, 0, TargetAboveMax(targetHours, MAX_HOURS));
      }
      var window := GetWindowEstimate(targetHours, now, percentiles);
      if window.IsEmpty() {
        return Failure(NTimeForecast, 0, NoWindowData);
      }
      var historical := GetHistoricalEstimate(targetHours, now, percentiles);
      if historical.IsEmpty() {
        return Failure(NTimeForecast, 0, NoHistoricalData);
      }
      if window.p75 < historical.p75 {
        return Success(NTimeForecast, 0, window.p25, window.p50);
      }
      return Success(NTimeForecast, 0, historical.p25, historical.p50);
    }
  }

  /** The loops of `GetTxsWithinTime` before the sort: rows `startHr` down to `endHr`, each
      row's first `startHr - endHr` buckets, each transaction in range; a row is skipped when
      `startHr` is not a tracked row, the source's test. */
  method CollectWithinTime(stats: Stats, now: int, startHr: int, endHr: int) returns (collected: seq<RateSize>, totalWeight: nat)
    requires 0 <= endHr
    ensures collected == WithinTimeAsWritten(stats, now, startHr, endHr)
    ensures totalWeight == QuarterWeight(collected)
  {
    var startTs := HoursAgo(now, startHr);
    var endTs := HoursAgo(now, endHr);
    var n := ConfBuckets(startHr, endHr);
    collected := [];
    totalWeight := 0;
    if startHr < endHr {
      return;
    }
    var i := startHr;
    while i >= endHr
      invariant endHr - 1 <= i <= startHr
      invariant collected == Rows(stats, startHr, i + 1, n, startTs, endTs, true)
      invariant totalWeight == QuarterWeight(collected)
    {
      collected, totalWeight := CollectHour(stats, startHr, i, n, startTs, endTs, collected, totalWeight);
      i := i - 1;
    }
  }

  /** One pass of `GetTxsWithinTime`'s outer loop, over row `i`: the row's entries are appended
      when `startHr` is a tracked row, the source's test. */
  method CollectHour(stats: Stats, startHr: int, i: int, n: nat, startTs: int, endTs: int,
                     collected: seq<RateSize>, totalWeight: nat)
    returns (collected': seq<RateSize>, totalWeight': nat)
    requires 0 <= i <= startHr
    requires collected == Rows(stats, startHr, i + 1, n, startTs, endTs, true)
    requires totalWeight == QuarterWeight(collected)
    ensures collected' == Rows(stats, startHr, i, n, startTs, endTs, true)
    ensures totalWeight' == QuarterWeight(collected')
  {
    RowsStep(stats, startHr, i, n, startTs, endTs, true);
    collected', totalWeight' := collected, totalWeight;
    if startHr < |stats| {
      var rowPart;
      rowPart, totalWeight' := CollectRow(stats[i], n, startTs, endTs, totalWeight);
      QuarterWeightAppend(collected, rowPart);
      collected' := collected + rowPart;
    }
  }

  /** One more row of `Rows`, the step of `GetTxsWithinTime`'s outer loop. */
  lemma RowsStep(stats: Stats, startHr: int, i: int, n: nat, startTs: int, endTs: int, asWritten: bool)
    requires 0 <= i <= startHr
    ensures Rows(stats, startHr, i, n, startTs, endTs, asWritten)
            == Rows(stats, startHr, i + 1, n, startTs, endTs, asWritten)
               + (if (if asWritten then startHr < |stats| else i < |stats|)
                  then RowMatches(stats[i], n, startTs, endTs) else [])
  {
  }

  /** The weight of a concatenation is the sum of the weights. */
  lemma {:induction false} QuarterWeightAppend(a: seq<RateSize>, b: seq<RateSize>)
    ensures QuarterWeight(a + b) == QuarterWeight(a) + QuarterWeight(b)
    decreases |b|
  {
    if b != [] {
      var init := b[..|b| - 1];
      assert (a + b)[..|a + b| - 1] == a + init;
      assert (a + b)[|a + b| - 1] == b[|b| - 1];
      QuarterWeightAppend(a, init);
    } else {
      assert a + b == a;
    }
  }

  /** The middle loop of `GetTxsWithinTime` for one tracked row: buckets `0..n-1` the row has,
      each bucket's transactions in range appended with their weight added to `weight`. */
  method CollectRow(row: seq<seq<ConfirmedTx>>, n: nat, startTs: int, endTs: int, weight: nat)
    returns (part: seq<RateSize>, newWeight: nat)
    ensures part == RowMatches(row, n, startTs, endTs)
    ensures newWeight == weight + QuarterWeight(part)
  {
    part := [];
    newWeight := weight;
    for j := 0 to n
      invariant part == RowMatches(row, j, startTs, endTs)
      invariant newWeight == weight + QuarterWeight(part)
    {
      if |row| < j + 1 {
        continue;
      }
      var added;
      added, newWeight := CollectBucket(row[j], startTs, endTs, newWeight);
      QuarterWeightAppend(part, added);
      part := part + added;
    }
  }

  /** The inner loop of `GetTxsWithinTime` for one bucket: its transactions in range, in order,
      their weight added to `weight`. */
  method CollectBucket(txs: seq<ConfirmedTx>, startTs: int, endTs: int, weight: nat)
    returns (added: seq<RateSize>, newWeight: nat)
    ensures added == Matching(txs, startTs, endTs)
    ensures newWeight == weight + QuarterWeight(added)
  {
    added := [];
    newWeight := weight;
    for t := 0 to |txs|
      invariant added == Matching(txs[..t], startTs, endTs)
      invariant newWeight == weight + QuarterWeight(added)
    {
      assert txs[..t + 1][..t] == txs[..t];
      var tx := txs[t];
      if InRange(tx, startTs, endTs) {
        assert (added + [Entry(tx)])[..|added|] == added;
        added := added + [Entry(tx)];
        newWeight := newWeight + Unscaled(tx.vsize);
      }
    }
    assert txs[..|txs|] == txs;
  }
}
