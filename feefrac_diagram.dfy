/** Fee-rate diagrams: building one from unsorted chunks and comparing two of them
    (util/feefrac.cpp of the modelled repository). */
module Diagrams {
  import opened Wrappers
  import opened FeeFracs

  /** `std::partial_ordering`. */
  datatype PartialOrdering = Less | Equivalent | Greater | Unordered

  // ---------------------------------------------------------------------------------------------
  // Sorting chunks by `>`

  /** Non-increasing under `<=>`, stated on neighbours. */
  ghost predicate SortedDesc(s: seq<FeeFrac>) {
    forall i :: 0 < i < |s| ==> AtLeast(s[i - 1], s[i])
  }

  /** `>=` under `<=>` is transitive on well-formed non-negative values. */
  lemma AtLeastTransitive(a: FeeFrac, b: FeeFrac, c: FeeFrac)
    requires Ordered(a) && Ordered(b) && Ordered(c)
    requires AtLeast(a, b) && AtLeast(b, c)
    ensures AtLeast(a, c)
  {
    CompareRefinesFeeRate(a, b);
    CompareRefinesFeeRate(b, c);
    CompareRefinesFeeRate(a, c);
    if Compare(a, b) == Eq {
      CompareStrong(a, b);
    } else if Compare(b, c) == Eq {
      CompareStrong(b, c);
    } else if Compare(a, c) == Lt {
      CompareTransitive(c, b, a);
    }
  }

  /** For well-formed non-negative chunks, the neighbour form of SortedDesc orders every pair. */
  lemma {:induction false} SortedDescAllPairs(s: seq<FeeFrac>, i: int, j: int)
    requires SortedDesc(s) && forall k :: 0 <= k < |s| ==> Ordered(s[k])
    requires 0 <= i < j < |s|
    ensures AtLeast(s[i], s[j])
    decreases j - i
  {
    if j == i + 1 {
      assert AtLeast(s[j - 1], s[j]);
    } else {
      SortedDescAllPairs(s, i, j - 1);
      assert AtLeast(s[j - 1], s[j]);
      AtLeastTransitive(s[i], s[j - 1], s[j]);
    }
  }

  /** The first n elements are non-increasing under `<=>`. */
  ghost predicate SortedPrefix(s: seq<FeeFrac>, n: int) {
    forall k :: 0 < k < n && k < |s| ==> AtLeast(s[k - 1], s[k])
  }

  /** While element i sinks to position j: the first i+1 elements are sorted except at j, and
      the elements either side of j are in order with each other. */
  ghost predicate Sinking(s: seq<FeeFrac>, i: int, j: int) {
    && 0 <= j <= i < |s|
    && (forall k :: 0 < k <= i && k != j ==> AtLeast(s[k - 1], s[k]))
    && (0 < j < i ==> AtLeast(s[j - 1], s[j + 1]))
  }

  /** Swapping a greater element with its left neighbour moves the gap one step left. */
  lemma SinkStep(s: seq<FeeFrac>, i: int, j: int)
    requires Sinking(s, i, j) && j > 0 && IsGreater(s[j], s[j - 1])
    ensures Sinking(s[j - 1 := s[j]][j := s[j - 1]], i, j - 1)
  {
    var t := s[j - 1 := s[j]][j := s[j - 1]];
    forall k | 0 < k <= i && k != j - 1
      ensures AtLeast(t[k - 1], t[k])
    {
      if k == j {
      } else if k == j + 1 {
        assert t[k - 1] == s[j - 1] && t[k] == s[j + 1];
      } else if k == j - 1 {
      } else {
        assert t[k - 1] == s[k - 1] && t[k] == s[k];
      }
    }
    if 0 < j - 1 {
      assert t[j - 2] == s[j - 2] && t[j] == s[j - 1];
    }
  }

  /** When the element stops sinking, the first i+1 elements are sorted. */
  lemma SinkDone(s: seq<FeeFrac>, i: int, j: int)
    requires Sinking(s, i, j) && (j == 0 || !IsGreater(s[j], s[j - 1]))
    ensures SortedPrefix(s, i + 1)
  {
    if j > 0 {
      CompareRefinesFeeRate(s[j], s[j - 1]);
    }
  }

  /** `std::sort(chunks, a > b)`: an in-place sort into non-increasing `<=>` order. Insertion sort
      stands in for the library's algorithm; only its result (a sorted permutation) is modelled. */
  method SortDescending(a: array<FeeFrac>)
    modifies a
    ensures SortedDesc(a[..])
    ensures multiset(a[..]) == old(multiset(a[..]))
  {
    var i := 0;
    while i < a.Length
      invariant 0 <= i <= a.Length
      invariant SortedPrefix(a[..], i)
      invariant multiset(a[..]) == old(multiset(a[..]))
    {
      Sink(a, i);
      i := i + 1;
    }
  }

  /** The inner loop of the insertion sort: element `i` moves left past every element it is
      greater than. */
  method Sink(a: array<FeeFrac>, i: int)
    requires 0 <= i < a.Length && SortedPrefix(a[..], i)
    modifies a
    ensures SortedPrefix(a[..], i + 1)
    ensures multiset(a[..]) == old(multiset(a[..]))
  {
    var j := i;
    while j > 0 && IsGreater(a[j], a[j - 1])
      invariant Sinking(a[..], i, j)
      invariant multiset(a[..]) == old(multiset(a[..]))
    {
      ghost var s := a[..];
      SinkStep(s, i, j);
      a[j - 1], a[j] := a[j], a[j - 1];
      assert a[..] == s[j - 1 := s[j]][j := s[j - 1]];
      j := j - 1;
    }
    SinkDone(a[..], i, j);
  }


  // ---------------------------------------------------------------------------------------------
  // Building the diagram

  /** The diagram of a chunk sequence: (0, 0) followed by the running sums of the chunks. */
  function PrefixDiagram(chunks: seq<FeeFrac>): (d: seq<FeeFrac>)
    ensures |d| == |chunks| + 1 && d[0] == Empty()
    decreases |chunks|
  {
    if chunks == [] then [FeeFrac(0, 0)]
    else
      var p := PrefixDiagram(chunks[..|chunks| - 1]);
      p + [Add(p[|p| - 1], chunks[|chunks| - 1])]
  }

  /** The fee and size totals of a chunk sequence. */
  function Total(chunks: seq<FeeFrac>): FeeFrac
    decreases |chunks|
  {
    if chunks == [] then Empty() else Add(Total(chunks[..|chunks| - 1]), chunks[|chunks| - 1])
  }

  /** Each point is the previous point plus the next chunk. */
  lemma {:induction false} PrefixDiagramStep(chunks: seq<FeeFrac>, k: int)
    requires 0 <= k < |chunks|
    ensures PrefixDiagram(chunks)[k + 1] == Add(PrefixDiagram(chunks)[k], chunks[k])
    decreases |chunks|
  {
    var n := |chunks|;
    var init := chunks[..n - 1];
    if k < n - 1 {
      PrefixDiagramStep(init, k);
      assert init[k] == chunks[k];
    }
  }

  /** Point k of the diagram is the total of the first k chunks. */
  lemma {:induction false} PrefixDiagramIsTotals(chunks: seq<FeeFrac>, k: int)
    requires 0 <= k <= |chunks|
    ensures PrefixDiagram(chunks)[k] == Total(chunks[..k])
    decreases |chunks|
  {
    var n := |chunks|;
    if k == n && n > 0 {
      PrefixDiagramIsTotals(chunks[..n - 1], n - 1);
      assert chunks[..n] == chunks;
      assert chunks[..n - 1][..n - 1] == chunks[..n - 1];
    } else if k < n {
      PrefixDiagramIsTotals(chunks[..n - 1], k);
      assert chunks[..n - 1][..k] == chunks[..k];
    }
  }

  /** `BuildDiagramFromUnsortedChunks`: sorts `chunks` in place (largest first) and returns the
      diagram, which the source writes into a cleared output vector. */
  method BuildDiagramFromUnsortedChunks(chunks: array<FeeFrac>) returns (diagram: seq<FeeFrac>)
    modifies chunks
    ensures SortedDesc(chunks[..])
    ensures multiset(chunks[..]) == old(multiset(chunks[..]))
    ensures diagram == PrefixDiagram(chunks[..])
  {
    SortDescending(chunks);
    diagram := [FeeFrac(0, 0)];
    for i := 0 to chunks.Length
      invariant diagram == PrefixDiagram(chunks[..i])
    {
      assert chunks[..i + 1][..i] == chunks[..i];
      var last := diagram[|diagram| - 1];
      diagram := diagram + [FeeFrac(last.fee + chunks[i].fee, last.size + chunks[i].size)];
    }
    assert chunks[..] == chunks[..chunks.Length];
  }

  // ---------------------------------------------------------------------------------------------
  // Comparing diagrams

  /** Sizes strictly increase along the diagram (the comparison's `Assume`s). */
  ghost predicate IncreasingSizes(d: seq<FeeFrac>) {
    forall i, j :: 0 <= i < j < |d| ==> d[i].size < d[j].size
  }

  /** What CompareFeerateDiagram demands of each input: non-empty, starting at size 0, with
      strictly increasing sizes. */
  ghost predicate IsDiagram(d: seq<FeeFrac>) {
    |d| > 0 && IsEmpty(d[0]) && IncreasingSizes(d)
  }

  /** A diagram built from chunks of positive size can be compared. */
  lemma {:induction false} PrefixDiagramIsDiagram(chunks: seq<FeeFrac>)
    requires forall k :: 0 <= k < |chunks| ==> chunks[k].size > 0
    ensures IsDiagram(PrefixDiagram(chunks))
    decreases |chunks|
  {
    if chunks != [] {
      var n := |chunks|;
      PrefixDiagramIsDiagram(chunks[..n - 1]);
      var p := PrefixDiagram(chunks[..n - 1]);
      assert forall i :: 0 <= i < |p| ==> p[i].size <= p[|p| - 1].size;
    }
  }

  /** Segment k of d (from point k-1 to point k) covers the size of p. */
  ghost predicate OnSegment(p: FeeFrac, d: seq<FeeFrac>, k: int) {
    0 < k < |d| && d[k - 1].size < p.size <= d[k].size
  }

  /** Point p lies strictly above the curve through the points of d, extended by a horizontal
      line past its last point: above the segment that covers p's size, or, past the end, with a
      fee above the last point's. */
  ghost predicate Above(p: FeeFrac, d: seq<FeeFrac>)
    requires |d| > 0
  {
    || (exists k {:trigger OnSegment(p, d, k)} :: OnSegment(p, d, k)
                  && Higher(Sub(p, d[k - 1]), Sub(d[k], d[k - 1])))
    || (p.size > d[|d| - 1].size && p.fee > d[|d| - 1].fee)
  }

  /** Point p lies strictly below the (horizontally extended) curve of d. */
  ghost predicate Below(p: FeeFrac, d: seq<FeeFrac>)
    requires |d| > 0
  {
    || (exists k {:trigger OnSegment(p, d, k)} :: OnSegment(p, d, k)
                  && Lower(Sub(p, d[k - 1]), Sub(d[k], d[k - 1])))
    || (p.size > d[|d| - 1].size && p.fee < d[|d| - 1].fee)
  }

  /** Diagram d is strictly better than o at one of d's points 1..n-1 (that point lies above o)
      or at one of o's points 1..m-1 (that point lies below d). */
  ghost predicate BetterWithin(d: seq<FeeFrac>, o: seq<FeeFrac>, n: int, m: int)
    requires |d| > 0 && |o| > 0 && n <= |d| && m <= |o|
  {
    || (exists i {:trigger Above(d[i], o)} :: 1 <= i < n && Above(d[i], o))
    || (exists j {:trigger Below(o[j], d)} :: 1 <= j < m && Below(o[j], d))
  }

  /** Diagram d is strictly better than o somewhere. */
  ghost predicate BetterSomewhere(d: seq<FeeFrac>, o: seq<FeeFrac>)
    requires |d| > 0 && |o| > 0
  {
    BetterWithin(d, o, |d|, |o|)
  }

  /** The result the comparison promises: unordered when each side is better somewhere,
      otherwise the side that is better somewhere (if any) is the greater. */
  ghost function DiagramOrder(d0: seq<FeeFrac>, d1: seq<FeeFrac>): PartialOrdering
    requires |d0| > 0 && |d1| > 0
  {
    var b0, b1 := BetterSomewhere(d0, d1), BetterSomewhere(d1, d0);
    if b0 && b1 then Unordered
    else if b0 then Greater
    else if b1 then Less
    else Equivalent
  }

  /** The loop state of the comparison: indices in range, every processed point of one diagram
      left of every unprocessed point of the other, and each flag telling whether its side was
      better at a processed point. */
  ghost predicate Progress(d0: seq<FeeFrac>, d1: seq<FeeFrac>, n0: int, n1: int, b0: bool, b1: bool) {
    && 1 <= n0 <= |d0| && 1 <= n1 <= |d1|
    && (n0 < |d0| ==> d1[n1 - 1].size < d0[n0].size)
    && (n1 < |d1| ==> d0[n0 - 1].size < d1[n1].size)
    && (b0 == BetterWithin(d0, d1, n0, n1))
    && (b1 == BetterWithin(d1, d0, n1, n0))
  }

  /** The segment of d covering a size strictly between d[k-1] and d[k] (inclusive at d[k]) is
      segment k, so Above and Below are decided there. */
  lemma SegmentDecides(p: FeeFrac, d: seq<FeeFrac>, k: int)
    requires IsDiagram(d) && 0 < k < |d| && d[k - 1].size < p.size <= d[k].size
    ensures Above(p, d) <==> Higher(Sub(p, d[k - 1]), Sub(d[k], d[k - 1]))
    ensures Below(p, d) <==> Lower(Sub(p, d[k - 1]), Sub(d[k], d[k - 1]))
  {
    forall k' | OnSegment(p, d, k')
      ensures k' == k
    {
    }
    assert OnSegment(p, d, k);
    assert d[k].size <= d[|d| - 1].size;
  }

  /** Past the last point of d, Above and Below are decided by the horizontal line. */
  lemma PastEndDecides(p: FeeFrac, d: seq<FeeFrac>)
    requires IsDiagram(d) && p.size > d[|d| - 1].size
    ensures Above(p, d) <==> p.fee > d[|d| - 1].fee
    ensures Below(p, d) <==> p.fee < d[|d| - 1].fee
  {
    forall k | 0 < k < |d|
      ensures !OnSegment(p, d, k)
    {
      assert d[k].size <= d[|d| - 1].size;
    }
  }

  /** Equal positive sizes: the fee-rate comparison is the fee comparison. */
  lemma SameSizeCompare(x: FeeFrac, y: FeeFrac)
    requires x.size == y.size > 0
    ensures Higher(x, y) <==> x.fee > y.fee
    ensures Lower(x, y) <==> x.fee < y.fee
  {
    if x.fee > y.fee { MulStrict(y.fee, x.fee, x.size); }
    if x.fee < y.fee { MulStrict(x.fee, y.fee, x.size); }
  }

  lemma ExtendLeft(d: seq<FeeFrac>, o: seq<FeeFrac>, n: int, m: int)
    requires |d| > 0 && |o| > 0 && 1 <= n < |d| && m <= |o|
    ensures BetterWithin(d, o, n + 1, m) <==> BetterWithin(d, o, n, m) || Above(d[n], o)
  {
  }

  lemma ExtendRight(d: seq<FeeFrac>, o: seq<FeeFrac>, n: int, m: int)
    requires |d| > 0 && |o| > 0 && n <= |d| && 1 <= m < |o|
    ensures BetterWithin(d, o, n, m + 1) <==> BetterWithin(d, o, n, m) || Below(o[m], d)
  {
  }

  /** One pass of the overlap loop, with `ds` the side whose next point P comes first and `dO`
      the other side, whose previous and next points are A and B. */
  lemma OverlapStep(ds: seq<FeeFrac>, dO: seq<FeeFrac>, ns: int, no: int, bs: bool, bo: bool)
    requires IsDiagram(ds) && IsDiagram(dO)
    requires Progress(ds, dO, ns, no, bs, bo) && ns < |ds| && no < |dO|
    requires ds[ns].size <= dO[no].size
    ensures var p, a, b := ds[ns], dO[no - 1], dO[no];
            var cmp := FeeRateCompare(Sub(p, a), Sub(b, a));
            var no' := if b.size == p.size then no + 1 else no;
            Progress(ds, dO, ns + 1, no', bs || cmp == Gt, bo || cmp == Lt)
  {
    var p, a, b := ds[ns], dO[no - 1], dO[no];
    var cmp := FeeRateCompare(Sub(p, a), Sub(b, a));
    LowerHigherDuality(Sub(p, a), Sub(b, a));
    SegmentDecides(p, dO, no);
    ExtendLeft(ds, dO, ns, no);
    ExtendLeft(dO, ds, no, ns + 1);
    ExtendRight(dO, ds, no, ns);
    assert BetterWithin(ds, dO, ns + 1, no) == (bs || cmp == Gt);
    assert BetterWithin(dO, ds, no, ns + 1) == (bo || cmp == Lt);
    if b.size == p.size {
      // B is processed too: it lies on the segment of ds that ends at P.
      SegmentDecides(b, ds, ns);
      SameSizeCompare(Sub(b, ds[ns - 1]), Sub(p, ds[ns - 1]));
      SameSizeCompare(Sub(p, a), Sub(b, a));
      ExtendRight(ds, dO, ns + 1, no);
      if no + 1 < |dO| { assert dO[no].size < dO[no + 1].size; }
      if ns + 1 < |ds| { assert ds[ns].size < ds[ns + 1].size; }
    } else {
      if ns + 1 < |ds| { assert ds[ns].size < ds[ns + 1].size; }
    }
  }

  /** One pass of the tail loop over the longer diagram `dl`, against the last point of `dS`. */
  lemma TailStep(dl: seq<FeeFrac>, dS: seq<FeeFrac>, nl: int, bl: bool, bS: bool)
    requires IsDiagram(dl) && IsDiagram(dS)
    requires Progress(dl, dS, nl, |dS|, bl, bS) && nl < |dl|
    ensures var cmp := CompareInt(Sub(dl[nl], dS[|dS| - 1]).fee, 0);
            Progress(dl, dS, nl + 1, |dS|, bl || cmp == Gt, bS || cmp == Lt)
  {
    PastEndDecides(dl[nl], dS);
    ExtendLeft(dl, dS, nl, |dS|);
    ExtendRight(dS, dl, |dS|, nl);
    if nl + 1 < |dl| { assert dl[nl].size < dl[nl + 1].size; }
  }

  /** One pass of the overlap loop stated on the two sides as the source indexes them: `side`
      is the side whose next point comes first, `cmp` compares the new point against the other
      side's segment and `same` says whether the two next points have the same size. */
  lemma OverlapPass(d0: seq<FeeFrac>, d1: seq<FeeFrac>, n0: int, n1: int, b0: bool, b1: bool,
                    side: int, p: FeeFrac, a: FeeFrac, b: FeeFrac, cmp: Ordering, same: bool)
    returns (m0: int, m1: int, c0: bool, c1: bool)
    requires IsDiagram(d0) && IsDiagram(d1)
    requires Progress(d0, d1, n0, n1, b0, b1) && n0 < |d0| && n1 < |d1|
    requires side == if d0[n0].size > d1[n1].size then 1 else 0
    requires side == 0 ==> p == d0[n0] && a == d1[n1 - 1] && b == d1[n1]
    requires side == 1 ==> p == d1[n1] && a == d0[n0 - 1] && b == d0[n0]
    requires cmp == FeeRateCompare(Sub(p, a), Sub(b, a)) && same == (b.size == p.size)
    ensures m0 == if side == 0 || same then n0 + 1 else n0
    ensures m1 == if side == 1 || same then n1 + 1 else n1
    ensures c0 == (b0 || (side == 0 && cmp == Gt) || (side == 1 && cmp == Lt))
    ensures c1 == (b1 || (side == 1 && cmp == Gt) || (side == 0 && cmp == Lt))
    ensures Progress(d0, d1, m0, m1, c0, c1)
  {
    m0 := if side == 0 || same then n0 + 1 else n0;
    m1 := if side == 1 || same then n1 + 1 else n1;
    c0 := b0 || (side == 0 && cmp == Gt) || (side == 1 && cmp == Lt);
    c1 := b1 || (side == 1 && cmp == Gt) || (side == 0 && cmp == Lt);
    if side == 0 {
      OverlapStep(d0, d1, n0, n1, b0, b1);
    } else {
      OverlapStep(d1, d0, n1, n0, b1, b0);
    }
  }

  /** One pass of the tail loop stated on the two sides: `long` is the side still being read. */
  lemma TailPass(d0: seq<FeeFrac>, d1: seq<FeeFrac>, n0: int, n1: int, b0: bool, b1: bool,
                 long: int, p: FeeFrac, a: FeeFrac, cmp: Ordering)
    returns (m0: int, m1: int, c0: bool, c1: bool)
    requires IsDiagram(d0) && IsDiagram(d1)
    requires Progress(d0, d1, n0, n1, b0, b1)
    requires long == 0 ==> n0 < |d0| && n1 == |d1| && p == d0[n0] && a == d1[n1 - 1]
    requires long == 1 ==> n1 < |d1| && n0 == |d0| && p == d1[n1] && a == d0[n0 - 1]
    requires cmp == CompareInt(Sub(p, a).fee, 0)
    requires long == 0 || long == 1
    ensures m0 == if long == 0 then n0 + 1 else n0
    ensures m1 == if long == 1 then n1 + 1 else n1
    ensures c0 == (b0 || (long == 0 && cmp == Gt) || (long == 1 && cmp == Lt))
    ensures c1 == (b1 || (long == 1 && cmp == Gt) || (long == 0 && cmp == Lt))
    ensures Progress(d0, d1, m0, m1, c0, c1)
  {
    m0 := if long == 0 then n0 + 1 else n0;
    m1 := if long == 1 then n1 + 1 else n1;
    c0 := b0 || (long == 0 && cmp == Gt) || (long == 1 && cmp == Lt);
    c1 := b1 || (long == 1 && cmp == Gt) || (long == 0 && cmp == Lt);
    if long == 0 {
      TailStep(d0, d1, n0, b0, b1);
    } else {
      TailStep(d1, d0, n1, b1, b0);
    }
  }

  /** When both diagrams are fully processed, the flags are the BetterSomewhere answers. */
  lemma ProgressComplete(d0: seq<FeeFrac>, d1: seq<FeeFrac>, b0: bool, b1: bool)
    requires Progress(d0, d1, |d0|, |d1|, b0, b1)
    ensures b0 == BetterSomewhere(d0, d1) && b1 == BetterSomewhere(d1, d0)
  {
  }

  /** One pass of the first loop of `CompareFeerateDiagram`, while both diagrams have
      unprocessed points: the point P that comes first is compared with the segment A-B of the
      other diagram, and the flag of the side found better at P (or at B, when both have the
      same size) is set. */
  method OverlapIteration(dia0: seq<FeeFrac>, dia1: seq<FeeFrac>, nextIndex: array<int>,
                          better: array<bool>)
    requires IsDiagram(dia0) && IsDiagram(dia1)
    requires nextIndex.Length == 2 && better.Length == 2
    requires Progress(dia0, dia1, nextIndex[0], nextIndex[1], better[0], better[1])
    requires nextIndex[0] < |dia0| && nextIndex[1] < |dia1|
    modifies nextIndex, better
    ensures Progress(dia0, dia1, nextIndex[0], nextIndex[1], better[0], better[1])
    ensures nextIndex[0] + nextIndex[1] > old(nextIndex[0] + nextIndex[1])
  {
    var dias: seq<seq<FeeFrac>> := [dia0, dia1];
    ghost var n0, n1, b0, b1 := nextIndex[0], nextIndex[1], better[0], better[1];
    var unprocSide := if dias[0][nextIndex[0]].size > dias[1][nextIndex[1]].size then 1 else 0;
    var otherSide := 1 - unprocSide;
    var pointP := dias[unprocSide][nextIndex[unprocSide]];
    var pointA := dias[otherSide][nextIndex[otherSide] - 1];
    var pointB := dias[otherSide][nextIndex[otherSide]];
    var coefAb := Sub(pointB, pointA);
    var coefAp := Sub(pointP, pointA);
    var cmp := FeeRateCompare(coefAp, coefAb);
    ghost var m0, m1, c0, c1 :=
      OverlapPass(dia0, dia1, n0, n1, b0, b1, unprocSide, pointP, pointA, pointB, cmp,
                  pointB.size == pointP.size);
    if cmp == Gt { better[unprocSide] := true; }
    if cmp == Lt { better[otherSide] := true; }
    nextIndex[unprocSide] := nextIndex[unprocSide] + 1;
    if pointB.size == pointP.size { nextIndex[otherSide] := nextIndex[otherSide] + 1; }
    assert nextIndex[0] == m0 && nextIndex[1] == m1 && better[0] == c0 && better[1] == c1;
  }

  /** One pass of the second loop of `CompareFeerateDiagram`, once diagram `shortSide` is
      exhausted: the next point P of the other diagram is compared with the horizontal line
      through the last point A of the exhausted one. */
  method TailIteration(dia0: seq<FeeFrac>, dia1: seq<FeeFrac>, nextIndex: array<int>,
                       better: array<bool>, longSide: int, pointA: FeeFrac)
    requires IsDiagram(dia0) && IsDiagram(dia1)
    requires nextIndex.Length == 2 && better.Length == 2
    requires Progress(dia0, dia1, nextIndex[0], nextIndex[1], better[0], better[1])
    requires longSide == 0 ==> nextIndex[0] < |dia0| && nextIndex[1] == |dia1|
                               && pointA == dia1[|dia1| - 1]
    requires longSide == 1 ==> nextIndex[1] < |dia1| && nextIndex[0] == |dia0|
                               && pointA == dia0[|dia0| - 1]
    requires longSide == 0 || longSide == 1
    modifies nextIndex, better
    ensures Progress(dia0, dia1, nextIndex[0], nextIndex[1], better[0], better[1])
    ensures nextIndex[1 - longSide] == old(nextIndex[1 - longSide])
    ensures nextIndex[longSide] == old(nextIndex[longSide]) + 1
  {
    var dias: seq<seq<FeeFrac>> := [dia0, dia1];
    var shortSide := 1 - longSide;
    ghost var n0, n1, b0, b1 := nextIndex[0], nextIndex[1], better[0], better[1];
    var pointP := dias[longSide][nextIndex[longSide]];
    var coefAp := Sub(pointP, pointA);
    var cmp := CompareInt(coefAp.fee, 0);
    ghost var m0, m1, c0, c1 := TailPass(dia0, dia1, n0, n1, b0, b1, longSide, pointP, pointA, cmp);
    if cmp == Gt { better[longSide] := true; }
    if cmp == Lt { better[shortSide] := true; }
    nextIndex[longSide] := nextIndex[longSide] + 1;
    assert nextIndex[0] == m0 && nextIndex[1] == m1 && better[0] == c0 && better[1] == c1;
  }

  /** `CompareFeerateDiagram`: the `Assert`s and `Assume`s on the inputs become the
      preconditions; `next_index` and `better_somewhere` are two-element arrays as in the source,
      and the bodies of its two loops are OverlapIteration and TailIteration. */
  method CompareFeerateDiagram(dia0: seq<FeeFrac>, dia1: seq<FeeFrac>) returns (r: PartialOrdering)
    requires |dia0| > 0 && |dia1| > 0
    requires IsEmpty(dia0[0]) && IsEmpty(dia1[0])
    requires IncreasingSizes(dia0) && IncreasingSizes(dia1)
    ensures r == DiagramOrder(dia0, dia1)
  {
    var dias: seq<seq<FeeFrac>> := [dia0, dia1];
    var nextIndex := new int[2];
    nextIndex[0], nextIndex[1] := 1, 1;
    var better := new bool[2];
    better[0], better[1] := false, false;

    while nextIndex[0] < |dias[0]| && nextIndex[1] < |dias[1]|
      invariant Progress(dia0, dia1, nextIndex[0], nextIndex[1], better[0], better[1])
      decreases |dia0| - nextIndex[0] + |dia1| - nextIndex[1]
    {
      OverlapIteration(dia0, dia1, nextIndex, better);
    }

    var longSide := if nextIndex[1] != |dias[1]| then 1 else 0;
    var shortSide := 1 - longSide;
    var pointA := dias[shortSide][nextIndex[shortSide] - 1];
    while nextIndex[longSide] < |dias[longSide]|
      invariant Progress(dia0, dia1, nextIndex[0], nextIndex[1], better[0], better[1])
      invariant nextIndex[shortSide] == |dias[shortSide]|
      invariant pointA == dias[shortSide][|dias[shortSide]| - 1]
      decreases |dias[longSide]| - nextIndex[longSide]
    {
      TailIteration(dia0, dia1, nextIndex, better, longSide, pointA);
    }

    assert nextIndex[0] == |dia0| && nextIndex[1] == |dia1|;
    ProgressComplete(dia0, dia1, better[0], better[1]);
    if better[0] && better[1] {
      return Unordered;
    }
    // `better_somewhere[0] <=> better_somewhere[1]` on booleans (false < true).
    r := if better[0] then Greater else if better[1] then Less else Equivalent;
  }

  /** Swapping the diagrams mirrors the result. */
  lemma DiagramOrderMirror(d0: seq<FeeFrac>, d1: seq<FeeFrac>)
    requires |d0| > 0 && |d1| > 0
    ensures DiagramOrder(d1, d0) == match DiagramOrder(d0, d1)
                                    case Less => Greater
                                    case Greater => Less
                                    case other => other
  {
  }

  /** A diagram is equivalent to itself: none of its points lies above or below its own curve. */
  lemma DiagramOrderReflexive(d: seq<FeeFrac>)
    requires IsDiagram(d)
    ensures DiagramOrder(d, d) == Equivalent
  {
    forall i | 1 <= i < |d|
      ensures !Above(d[i], d) && !Below(d[i], d)
    {
      assert d[i - 1].size < d[i].size;
      SegmentDecides(d[i], d, i);
    }
  }
}
