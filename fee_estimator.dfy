/** The fee estimator (policy/fee_estimator.cpp): it asks every registered forecaster for an
    estimate, keeps the lowest non-empty one and collects the error messages of the others. */
module FeeEstimators {
  import opened Wrappers
  import opened Forecasts

  /** A registered forecaster: which one it is and the largest target it forecasts. */
  datatype ForecasterRef = ForecasterRef(kind: ForecasterKind, maxTarget: nat)

  /** The result the search starts from: default options and no error. */
  function Initial(): (r: ForecastResult)
    ensures r.err == None && r.options == DefaultOptions(NoForecaster, 0)
  {
    ForecastResult(DefaultOptions(NoForecaster, 0), None)
  }

  /** The results of the forecasters `fs` for `target`, in registration order; `estimate`
      stands for each forecaster's own `EstimateFee`. */
  function Results(fs: seq<ForecasterRef>, target: nat,
                   estimate: (ForecasterRef, nat) -> ForecastResult): (rs: seq<ForecastResult>)
    ensures |rs| == |fs| && forall k :: 0 <= k < |fs| ==> rs[k] == estimate(fs[k], target)
  {
    seq(|fs|, k requires 0 <= k < |fs| => estimate(fs[k], target))
  }

  /** One step of the search: `next` replaces `cur` when it is not empty and either ranks lower
      or `cur` is empty. `isEmpty` and `rank` stand for `ForecastResult::empty` and the key that
      `operator<` compares. */
  function Choose(cur: ForecastResult, next: ForecastResult, isEmpty: ForecastResult -> bool,
                  rank: ForecastResult -> int): (r: ForecastResult)
    ensures r == cur || r == next
    ensures r == next <== !isEmpty(next) && (rank(next) < rank(cur) || isEmpty(cur))
    ensures isEmpty(next) ==> r == cur
  {
    if !isEmpty(next) && (rank(next) < rank(cur) || isEmpty(cur)) then next else cur
  }

  /** The result the search keeps after `rs`. */
  function Best(rs: seq<ForecastResult>, isEmpty: ForecastResult -> bool,
                rank: ForecastResult -> int): ForecastResult
  {
    if rs == [] then Initial()
    else Choose(Best(rs[..|rs| - 1], isEmpty, rank), rs[|rs| - 1], isEmpty, rank)
  }

  /** The error messages the search collects after `rs`: those of the empty results that carry
      one, in order. */
  function Errors(rs: seq<ForecastResult>, isEmpty: ForecastResult -> bool): seq<ForecastError>
  {
    if rs == [] then []
    else
      var r := rs[|rs| - 1];
      Errors(rs[..|rs| - 1], isEmpty) + (if isEmpty(r) && r.err.Some? then [r.err.value] else [])
  }

  /** Result `k` is the one to keep: not empty, ranked no higher than any non-empty result, and
      ranked strictly lower than every non-empty result before it. */
  ghost predicate BestAt(rs: seq<ForecastResult>, isEmpty: ForecastResult -> bool,
                         rank: ForecastResult -> int, k: int) {
    && 0 <= k < |rs|
    && !isEmpty(rs[k])
    && (forall j :: 0 <= j < |rs| && !isEmpty(rs[j]) ==> rank(rs[k]) <= rank(rs[j]))
    && (forall j :: 0 <= j < k && !isEmpty(rs[j]) ==> rank(rs[k]) < rank(rs[j]))
  }

  /** When every result is empty the search keeps the initial result. */
  lemma {:induction false} BestOfEmpties(rs: seq<ForecastResult>, isEmpty: ForecastResult -> bool,
                                         rank: ForecastResult -> int)
    requires forall j :: 0 <= j < |rs| ==> isEmpty(rs[j])
    ensures Best(rs, isEmpty, rank) == Initial()
  {
    if rs != [] {
      var init := rs[..|rs| - 1];
      assert forall j :: 0 <= j < |init| ==> init[j] == rs[j];
      BestOfEmpties(init, isEmpty, rank);
    }
  }

  /** When some result is not empty the search keeps the earliest non-empty result of lowest
      rank. */
  lemma {:induction false} BestIsEarliestLowest(rs: seq<ForecastResult>, isEmpty: ForecastResult -> bool,
                                                rank: ForecastResult -> int)
    requires isEmpty(Initial())
    requires exists j :: 0 <= j < |rs| && !isEmpty(rs[j])
    ensures exists k :: BestAt(rs, isEmpty, rank, k) && Best(rs, isEmpty, rank) == rs[k]
  {
    var init, x := rs[..|rs| - 1], rs[|rs| - 1];
    assert forall j :: 0 <= j < |init| ==> init[j] == rs[j];
    var cur := Best(init, isEmpty, rank);
    if forall j :: 0 <= j < |init| ==> isEmpty(init[j]) {
      BestOfEmpties(init, isEmpty, rank);
      assert BestAt(rs, isEmpty, rank, |rs| - 1);
    } else {
      BestIsEarliestLowest(init, isEmpty, rank);
      var k :| BestAt(init, isEmpty, rank, k) && cur == init[k];
      if isEmpty(x) || rank(cur) <= rank(x) {
        assert BestAt(rs, isEmpty, rank, k);
      } else {
        assert BestAt(rs, isEmpty, rank, |rs| - 1);
      }
    }
  }

  /** The search ends empty exactly when every forecaster's result is empty. */
  lemma BestEmptyIff(rs: seq<ForecastResult>, isEmpty: ForecastResult -> bool, rank: ForecastResult -> int)
    requires isEmpty(Initial())
    ensures isEmpty(Best(rs, isEmpty, rank)) <==> forall j :: 0 <= j < |rs| ==> isEmpty(rs[j])
  {
    if forall j :: 0 <= j < |rs| ==> isEmpty(rs[j]) {
      BestOfEmpties(rs, isEmpty, rank);
    } else {
      BestIsEarliestLowest(rs, isEmpty, rank);
    }
  }

  /** An error is collected exactly when some empty result carries it. */
  lemma {:induction false} ErrorsMembers(rs: seq<ForecastResult>, isEmpty: ForecastResult -> bool,
                                         e: ForecastError)
    ensures e in Errors(rs, isEmpty) <==>
              exists j :: 0 <= j < |rs| && isEmpty(rs[j]) && rs[j].err == Some(e)
  {
    if rs != [] {
      var init := rs[..|rs| - 1];
      assert forall j :: 0 <= j < |init| ==> init[j] == rs[j];
      ErrorsMembers(init, isEmpty, e);
    }
  }

  /** `FeeEstimator`: the registered forecasters, in registration order. */
  class FeeEstimator {
    var forecasters: seq<ForecasterRef>

    constructor()
      ensures forecasters == []
    {
      forecasters := [];
    }

    /** `RegisterForecaster`: appends the forecaster. */
    method RegisterForecaster(f: ForecasterRef)
      modifies this
      ensures forecasters == old(forecasters) + [f]
    {
      forecasters := forecasters + [f];
    }

    /** `GetFeeEstimateFromForecasters`: the lowest non-empty estimate of the forecasters, and
        the errors of those that gave none. */
    method GetFeeEstimateFromForecasters(targetBlocks: nat, estimate: (ForecasterRef, nat) -> ForecastResult,
                                         isEmpty: ForecastResult -> bool, rank: ForecastResult -> int)
      returns (forecast: ForecastResult, errMessages: seq<ForecastError>)
      ensures forecast == Best(Results(forecasters, targetBlocks, estimate), isEmpty, rank)
      ensures errMessages == Errors(Results(forecasters, targetBlocks, estimate), isEmpty)
    {
      ghost var rs := Results(forecasters, targetBlocks, estimate);
      forecast := Initial();
      errMessages := [];
      var i := 0;
      while i < |forecasters|
        invariant 0 <= i <= |forecasters|
        invariant forecast == Best(rs[..i], isEmpty, rank)
        invariant errMessages == Errors(rs[..i], isEmpty)
      {
        var currForecast := estimate(forecasters[i], targetBlocks);
        assert rs[..i + 1][..i] == rs[..i] && rs[..i + 1][i] == currForecast;
        if !isEmpty(currForecast) {
          if rank(currForecast) < rank(forecast) || isEmpty(forecast) {
            forecast := currForecast;
          }
        } else if currForecast.err.Some? {
          errMessages := errMessages + [currForecast.err.value];
        }
        i := i + 1;
      }
      assert rs[..i] == rs;
    }

    /** `MaxForecastingTarget`: the largest target of any registered forecaster, 0 when there
        are none. */
    method MaxForecastingTarget() returns (maxTarget: nat)
      ensures forall k :: 0 <= k < |forecasters| ==> forecasters[k].maxTarget <= maxTarget
      ensures forecasters == [] ==> maxTarget == 0
      ensures forecasters != [] ==> exists k :: 0 <= k < |forecasters| && forecasters[k].maxTarget == maxTarget
    {
      maxTarget := 0;
      var i := 0;
      while i < |forecasters|
        invariant 0 <= i <= |forecasters|
        invariant forall k :: 0 <= k < i ==> forecasters[k].maxTarget <= maxTarget
        invariant i == 0 ==> maxTarget == 0
        invariant i > 0 ==> exists k :: 0 <= k < i && forecasters[k].maxTarget == maxTarget
      {
        if forecasters[i].maxTarget > maxTarget {
          maxTarget := forecasters[i].maxTarget;
        }
        i := i + 1;
      }
    }
  }
}
