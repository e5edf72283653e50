/** A classic Prometheus histogram through the collector: from scraped buckets to an OTLP point, and on to rows. */
module ClassicHistogram {
  import opened Numbers
  import opened Wrappers

  /** An `le` boundary. */
  datatype Boundary = Finite(at: real) | PosInf

  predicate Below(a: Boundary, b: Boundary) { a.Finite? && (b.PosInf? || a.at < b.at) }

  /** A sample's value: a whole number, or the staleness marker, which is a NaN. */
  datatype Value = Number(n: int) | StaleNaN

  function Minus(a: Value, b: Value): Value { if a.Number? && b.Number? then Number(a.n - b.n) else StaleNaN }

  /** Conversion to uint64. What it does to a value that does not fit is left to the platform: `misfit` stands for
      it. */
  function ToUint64(v: Value, misfit: Value -> nat): (r: nat)
    ensures r < TWO_TO_64 && (v.Number? && 0 <= v.n < TWO_TO_64 ==> r == v.n)
  {
    if v.Number? && 0 <= v.n < TWO_TO_64 then v.n else misfit(v) % TWO_TO_64
  }

  datatype DataPoint = DataPoint(boundary: Boundary, value: Value)

  /** One series of the histogram; a bucket series without a usable `le` label has no boundary. */
  datatype Sample = SumSample(value: Value) | CountSample(value: Value) | CreatedSample(seconds: int)
                  | BucketSample(boundary: Option<Boundary>, value: Value)

  datatype HistogramPoint = HistogramPoint(noRecordedValue: bool, count: nat, sum: Option<Value>, bounds: seq<Boundary>,
                                           bucketCounts: seq<nat>, timestamp: int, start: Option<int>)

  // ---- Sorting ------------------------------------------------------------------------------------------------

  /** The points' order under `sort.Slice`: no later boundary is below an earlier one. */
  predicate Sorted(ps: seq<DataPoint>) { forall i, j :: 0 <= i < j < |ps| ==> !Below(ps[j].boundary, ps[i].boundary) }

  predicate Distinct(ps: seq<DataPoint>) { forall i, j :: 0 <= i < j < |ps| ==> ps[i].boundary != ps[j].boundary }

  predicate Increasing(ps: seq<DataPoint>) {
    forall i, j :: 0 <= i < j < |ps| ==> Below(ps[i].boundary, ps[j].boundary)
  }

  function InsertPoint(p: DataPoint, ps: seq<DataPoint>): (r: seq<DataPoint>)
    ensures forall x :: x in r <==> x == p || x in ps
    ensures |r| == |ps| + 1
  {
    if ps == [] then [p]
    else if !Below(ps[0].boundary, p.boundary) then [p] + ps
    else
      assert ps == [ps[0]] + ps[1..];
      [ps[0]] + InsertPoint(p, ps[1..])
  }

  function SortPoints(ps: seq<DataPoint>): (r: seq<DataPoint>)
    ensures forall x :: x in r <==> x in ps
    ensures |r| == |ps|
  {
    if ps == [] then [] else
      assert ps == [ps[0]] + ps[1..];
      InsertPoint(ps[0], SortPoints(ps[1..]))
  }

  lemma HeadFirst(p: DataPoint, ps: seq<DataPoint>)
    ensures Sorted(ps) && (forall x :: x in ps ==> !Below(x.boundary, p.boundary)) ==> Sorted([p] + ps)
    ensures Increasing(ps) && (forall x :: x in ps ==> Below(p.boundary, x.boundary)) ==> Increasing([p] + ps)
  {
    assert forall k :: 0 < k < |[p] + ps| ==> ([p] + ps)[k] == ps[k - 1] && ps[k - 1] in ps;
  }

  lemma TailOf(ps: seq<DataPoint>)
    requires ps != []
    ensures ps == [ps[0]] + ps[1..]
    ensures Sorted(ps) ==> Sorted(ps[1..]) && forall x :: x in ps[1..] ==> !Below(x.boundary, ps[0].boundary)
    ensures Increasing(ps) ==> Increasing(ps[1..]) && forall x :: x in ps[1..] ==> Below(ps[0].boundary, x.boundary)
  {
    assert forall x :: x in ps[1..] ==> exists k :: 0 < k < |ps| && ps[k] == x;
  }

  lemma {:induction false} InsertSorted(p: DataPoint, ps: seq<DataPoint>)
    requires Sorted(ps)
    ensures Sorted(InsertPoint(p, ps))
    ensures Increasing(ps) && (forall x :: x in ps ==> x.boundary != p.boundary) ==> Increasing(InsertPoint(p, ps))
  {
    hide Sorted, Increasing;
    if ps != [] {
      TailOf(ps);
      if Below(ps[0].boundary, p.boundary) {
        InsertSorted(p, ps[1..]);
        HeadFirst(ps[0], InsertPoint(p, ps[1..]));
      } else {
        HeadFirst(p, ps);
      }
    } else {
      OneIsSorted(p);
    }
  }

  lemma OneIsSorted(p: DataPoint)
    ensures Sorted([]) && Sorted([p]) && Increasing([]) && Increasing([p])
  {
  }

  lemma {:induction false} InsertMultiset(p: DataPoint, ps: seq<DataPoint>)
    ensures multiset(InsertPoint(p, ps)) == multiset(ps) + multiset{p}
  {
    if ps != [] && Below(ps[0].boundary, p.boundary) {
      InsertMultiset(p, ps[1..]);
      assert ps == [ps[0]] + ps[1..];
    }
  }

  /** What `sort.Slice` promises: the same points, in order. */
  lemma {:induction false} SortPointsSorts(ps: seq<DataPoint>)
    ensures multiset(SortPoints(ps)) == multiset(ps)
    ensures Sorted(SortPoints(ps)) && (Distinct(ps) ==> Increasing(SortPoints(ps)))
  {
    if ps != [] {
      assert ps == [ps[0]] + ps[1..];
      SortPointsSorts(ps[1..]);
      InsertSorted(ps[0], SortPoints(ps[1..]));
      InsertMultiset(ps[0], SortPoints(ps[1..]));
      if Distinct(ps) {
        assert forall x :: x in ps[1..] ==> x.boundary != ps[0].boundary;
      }
    }
  }

  lemma TailMembers(ps: seq<DataPoint>)
    requires Increasing(ps) && ps != []
    ensures Increasing(ps[1..]) && forall x :: x in ps[1..] <==> x in ps && x != ps[0]
  {
    assert ps == [ps[0]] + ps[1..];
    assert ps[0] !in ps[1..];
  }

  lemma {:induction false} SameMembersSameSeq(ps: seq<DataPoint>, qs: seq<DataPoint>)
    requires Increasing(ps) && Increasing(qs) && forall x :: x in ps <==> x in qs
    ensures ps == qs
  {
    assert (ps == [] || ps[0] in ps) && (qs == [] || qs[0] in qs);
    if ps != [] {
      assert ps[0] in qs && qs[0] in ps;
      var i :| 0 <= i < |qs| && qs[i] == ps[0];
      var j :| 0 <= j < |ps| && ps[j] == qs[0];
      assert ps[0] == qs[0];
      TailMembers(ps);
      TailMembers(qs);
      SameMembersSameSeq(ps[1..], qs[1..]);
    }
  }

  // ---- The receiver -------------------------------------------------------------------------------------------

  /** The bucket series, in arrival order, as data points. */
  function Buckets(samples: seq<Sample>): seq<DataPoint> {
    if samples == [] then []
    else
      var last := samples[|samples| - 1];
      Buckets(samples[..|samples| - 1])
      + if last.BucketSample? && last.boundary.Some? then [DataPoint(last.boundary.value, last.value)] else []
  }

  /** The value last seen for the count (and, below, for the sum), if any. */
  function LastCount(samples: seq<Sample>): Option<Value> {
    if samples == [] then None
    else if samples[|samples| - 1].CountSample? then Some(samples[|samples| - 1].value)
    else LastCount(samples[..|samples| - 1])
  }

  function LastSum(samples: seq<Sample>): Option<Value> {
    if samples == [] then None
    else if samples[|samples| - 1].SumSample? then Some(samples[|samples| - 1].value)
    else LastSum(samples[..|samples| - 1])
  }

  /** A last +Inf bucket is dropped: the total takes its place. */
  function WithoutInf(ps: seq<DataPoint>): seq<DataPoint> {
    if ps != [] && ps[|ps| - 1].boundary.PosInf? then ps[..|ps| - 1] else ps
  }

  function BoundsOf(ps: seq<DataPoint>): seq<Boundary> { seq(|ps|, i requires 0 <= i < |ps| => ps[i].boundary) }

  /** Bucket `i` of the point: the cumulative count at its boundary less the one before; the last bucket goes on to the
      total. */
  function CountAt(ps: seq<DataPoint>, total: Value, i: nat, misfit: Value -> nat): nat
    requires i <= |ps|
  {
    var upTo := if i < |ps| then ps[i].value else total;
    ToUint64(if i == 0 then upTo else Minus(upTo, ps[i - 1].value), misfit)
  }

  /** The bounds and bucket counts of a point: the successive differences of sorted cumulative counts, or zeros for a
      stale point. */
  method Difference(points: seq<DataPoint>, total: Value, pointIsStale: bool, misfit: Value -> nat)
    returns (bounds: seq<Boundary>, bucketCounts: seq<nat>)
    ensures var ps := WithoutInf(points);
            && bounds == BoundsOf(ps) && |bucketCounts| == |ps| + 1
            && forall i :: 0 <= i <= |ps| ==>
                 bucketCounts[i] == if pointIsStale then 0 else CountAt(ps, total, i, misfit)
  {
    var bucketCount := |points| + 1;
    if bucketCount > 1 && points[bucketCount - 2].boundary.PosInf? {
      bucketCount := bucketCount - 1;
    }
    ghost var ps := WithoutInf(points);
    bounds, bucketCounts := [], [];
    for i := 0 to bucketCount - 1
      invariant |bounds| == |bucketCounts| == i
      invariant forall k :: 0 <= k < i ==> bounds[k] == ps[k].boundary
      invariant forall k :: 0 <= k < i ==> bucketCounts[k] == if pointIsStale then 0 else CountAt(ps, total, k, misfit)
    {
      bounds := bounds + [points[i].boundary];
      var adjustedCount := points[i].value;
      if pointIsStale {
        adjustedCount := Number(0);
      } else if i != 0 {
        adjustedCount := Minus(adjustedCount, points[i - 1].value);
      }
      bucketCounts := bucketCounts + [ToUint64(adjustedCount, misfit)];
    }
    var adjustedCount := total;
    if pointIsStale {
      adjustedCount := Number(0);
    } else if bucketCount > 1 {
      adjustedCount := Minus(adjustedCount, points[bucketCount - 2].value);
    }
    bucketCounts := bucketCounts + [ToUint64(adjustedCount, misfit)];
  }

  class MetricGroup {
    var ts: int
    var count: Value
    var hasCount: bool
    var sum: Value
    var hasSum: bool
    var createdSeconds: int
    var complexValue: seq<DataPoint>

    constructor (ts: int)
      ensures this.ts == ts && count == sum == Number(0) && !hasCount && !hasSum && createdSeconds == 0
              && complexValue == []
    {
      this.ts, count, hasCount, sum, hasSum, createdSeconds, complexValue := ts, Number(0), false, Number(0),
        false, 0, [];
    }

    /** One series of the family that belongs to this group; false is an error. */
    method AddSeries(sample: Sample, t: int) returns (ok: bool)
      modifies this
      ensures ts == old(ts)
      ensures ok <==> t == old(ts) && !(sample.BucketSample? && sample.boundary.None?)
      ensures complexValue == old(complexValue)
                              + if ok && sample.BucketSample?
                                then [DataPoint(sample.boundary.value, sample.value)] else []
      ensures if ok && sample.CountSample? then hasCount && count == sample.value
              else hasCount == old(hasCount) && count == old(count)
      ensures if ok && sample.SumSample? then hasSum && sum == sample.value
              else hasSum == old(hasSum) && sum == old(sum)
      ensures createdSeconds == if ok && sample.CreatedSample? then sample.seconds else old(createdSeconds)
    {
      if ts != t {
        return false;
      }
      ok := true;
      match sample {
        case SumSample(v) => sum, hasSum := v, true;
        case CountSample(v) => ts, count, hasCount := t, v, true;
        case CreatedSample(v) => createdSeconds := v;
        case BucketSample(boundary, v) =>
          if boundary.None? {
            return false;
          }
          complexValue := complexValue + [DataPoint(boundary.value, v)];
      }
    }

    method SortComplexValue()
      modifies this`complexValue
      ensures complexValue == SortPoints(old(complexValue))
    {
      complexValue := SortPoints(complexValue);
    }

    method ToDistributionPoint(misfit: Value -> nat) returns (dest: Option<HistogramPoint>)
      modifies this`complexValue
      ensures dest.Some? <==> hasCount
      ensures hasCount ==>
                var p, ps := dest.value, WithoutInf(SortPoints(old(complexValue)));
                var stale := sum.StaleNaN? || count.StaleNaN?;
                && p.noRecordedValue == stale
                && p.bounds == BoundsOf(ps) && |p.bucketCounts| == |ps| + 1
                && (forall i :: 0 <= i <= |ps| ==>
                      p.bucketCounts[i] == if stale then 0 else CountAt(ps, count, i, misfit))
                && p.count == (if stale then 0 else ToUint64(count, misfit))
                && p.sum == (if stale || !hasSum then None else Some(sum))
                && p.timestamp == ts && p.start == if createdSeconds != 0 then Some(createdSeconds) else None
    {
      if !hasCount {
        return None;
      }
      SortComplexValue();
      var stale := sum.StaleNaN? || count.StaleNaN?;
      var bounds, bucketCounts := Difference(complexValue, count, stale, misfit);
      var total := if stale then 0 else ToUint64(count, misfit);
      var start := if createdSeconds != 0 then Some(createdSeconds) else None;
      var summed := if stale || !hasSum then None else Some(sum);
      dest := Some(HistogramPoint(stale, total, summed, bounds, bucketCounts, ts, start));
    }
  }

  // ---- The exporter -------------------------------------------------------------------------------------------

  datatype Row = Row(le: Boundary, value: nat)

  function AddUint64(a: nat, b: nat): nat { (a + b) % TWO_TO_64 }

  lemma NoOverflow(a: nat, b: nat)
    requires a + b < TWO_TO_64
    ensures AddUint64(a, b) == a + b
  {
  }

  /** The first `n` bucket counts added up in uint64 arithmetic. */
  function Accumulated(counts: seq<nat>, n: nat): nat
    requires n <= |counts|
  {
    if n == 0 then 0 else AddUint64(Accumulated(counts, n - 1), counts[n - 1])
  }

  method AddBucketSample(bounds: seq<Boundary>, bucketCounts: seq<nat>, count: nat) returns (rows: seq<Row>)
    ensures var n := Min(|bounds|, |bucketCounts|);
            && |rows| == n + 1 && rows[n] == Row(PosInf, count)
            && forall k :: 0 <= k < n ==> rows[k] == Row(bounds[k], Accumulated(bucketCounts, k + 1))
  {
    rows := [];
    var cumulativeCount: nat := 0;
    var i := 0;
    while i < |bounds| && i < |bucketCounts|
      invariant i <= |bounds| && i <= |bucketCounts| && |rows| == i
      invariant cumulativeCount == Accumulated(bucketCounts, i)
      invariant forall k :: 0 <= k < i ==> rows[k] == Row(bounds[k], Accumulated(bucketCounts, k + 1))
    {
      cumulativeCount := AddUint64(cumulativeCount, bucketCounts[i]);
      rows := rows + [Row(bounds[i], cumulativeCount)];
      i := i + 1;
    }
    rows := rows + [Row(PosInf, count)];
  }

  // ---- Across both --------------------------------------------------------------------------------------------

  /** Cumulative counts: whole, never falling from one boundary to a higher one, and at most the total. */
  ghost predicate Cumulative(ps: seq<DataPoint>, total: Value) {
    && total.Number? && 0 <= total.n < TWO_TO_64 && Distinct(ps)
    && (forall p :: p in ps && p.boundary.Finite? ==> p.value.Number? && 0 <= p.value.n <= total.n)
    && (forall p, q ::
          (p in ps && q in ps && p.boundary.Finite? && q.boundary.Finite? && p.boundary.at < q.boundary.at)
          ==> p.value.n <= q.value.n)
  }

  /** From low to high, and nothing after +Inf. */
  predicate Ascend(bounds: seq<Boundary>) {
    forall i, j :: 0 <= i < j < |bounds| ==>
      bounds[i].Finite? && (bounds[j].PosInf? || bounds[i].at < bounds[j].at)
  }

  function Les(rows: seq<Row>): (r: seq<Boundary>)
    ensures |r| == |rows| && forall i :: 0 <= i < |rows| ==> r[i] == rows[i].le
  {
    seq(|rows|, i requires 0 <= i < |rows| => rows[i].le)
  }

  /** The same on the sorted finite points, by position. */
  predicate Rising(ps: seq<DataPoint>, total: int) {
    && (forall i :: 0 <= i < |ps| ==>
          ps[i].boundary.Finite? && ps[i].value.Number? && 0 <= ps[i].value.n <= total < TWO_TO_64)
    && (forall i, j :: 0 <= i < j < |ps| ==> ps[i].value.n <= ps[j].value.n)
  }

  /** Only the last of increasing boundaries can be +Inf. */
  lemma FiniteFront(all: seq<DataPoint>)
    requires Increasing(all)
    ensures var ps := WithoutInf(all);
            Increasing(ps) && forall p :: p in ps <==> p in all && p.boundary.Finite?
  {
  }

  lemma CumulativeRises(points: seq<DataPoint>, total: Value, ps: seq<DataPoint>)
    requires Cumulative(points, total) && Increasing(ps) && forall p :: p in ps ==> p in points && p.boundary.Finite?
    ensures Rising(ps, total.n)
  {
    assert forall i :: 0 <= i < |ps| ==> ps[i] in ps;
  }

  lemma SortedRises(points: seq<DataPoint>, total: Value)
    requires Cumulative(points, total)
    ensures var ps := WithoutInf(SortPoints(points));
            && Increasing(ps) && Rising(ps, total.n)
            && forall p :: p in ps <==> p in points && p.boundary.Finite?
  {
    SortPointsSorts(points);
    FiniteFront(SortPoints(points));
    CumulativeRises(points, total, WithoutInf(SortPoints(points)));
  }

  /** Adding the differences back up gives the cumulative counts, with no overflow on the way. */
  lemma {:induction false} AccumulatedIsCumulative(ps: seq<DataPoint>, total: int, counts: seq<nat>, n: nat,
                                                   misfit: Value -> nat)
    requires 0 <= total < TWO_TO_64 && Rising(ps, total) && n <= |ps| + 1 == |counts|
    requires forall i :: 0 <= i <= |ps| ==> counts[i] == CountAt(ps, Number(total), i, misfit)
    ensures Accumulated(counts, n) == if n == 0 then 0 else if n <= |ps| then ps[n - 1].value.n else total
  {
    hide AddUint64;
    if n > 0 {
      AccumulatedIsCumulative(ps, total, counts, n - 1, misfit);
      assert counts[n - 1] == CountAt(ps, Number(total), n - 1, misfit);
      NoOverflow(Accumulated(counts, n - 1), counts[n - 1]);
    }
  }

  /** A total that fits is reached without wrapping. */
  lemma {:induction false} SumIsAccumulated(counts: seq<nat>, n: nat)
    requires n <= |counts| && forall k: nat :: k < n ==> Accumulated(counts, k) + counts[k] < TWO_TO_64
    ensures Sum(counts[..n]) == Accumulated(counts, n)
  {
    hide AddUint64;
    if n > 0 {
      SumIsAccumulated(counts, n - 1);
      NoOverflow(Accumulated(counts, n - 1), counts[n - 1]);
      assert counts[..n][..n - 1] == counts[..n - 1];
    }
  }

  /** A row of the histogram as it was scraped: a finite boundary with its cumulative count, or +Inf with the total. */
  ghost predicate Original(row: Row, points: seq<DataPoint>, total: int) {
    || (row.value == total && row.le.PosInf?)
    || exists p ::
         p in points && p.boundary.Finite? && p.value.Number? && row.le == p.boundary && row.value == p.value.n
  }

  /** The rows of the exporter, in terms of the sorted points. */
  predicate RowsOf(ps: seq<DataPoint>, total: int, rows: seq<Row>) {
    && |rows| == |ps| + 1 && rows[|ps|].le.PosInf? && rows[|ps|].value == total
    && forall k :: 0 <= k < |ps| ==>
         ps[k].value.Number? && rows[k].le == ps[k].boundary && rows[k].value == ps[k].value.n
  }

  lemma RowsAreOriginal(points: seq<DataPoint>, ps: seq<DataPoint>, total: int, rows: seq<Row>)
    requires RowsOf(ps, total, rows) && forall p :: p in ps <==> p in points && p.boundary.Finite?
    ensures forall row :: row in rows <==> Original(row, points, total)
  {
  }

  /** The law of the conversion: the bucket counts of the point add up to the total, and the exporter's rows are the
      finite boundaries in increasing order, each with the cumulative count it came with, then +Inf with the total. */
  lemma RoundTrip(points: seq<DataPoint>, total: Value, dp: HistogramPoint, rows: seq<Row>, misfit: Value -> nat)
    requires Cumulative(points, total)
    requires var ps := WithoutInf(SortPoints(points));
             && dp.bounds == BoundsOf(ps) && |dp.bucketCounts| == |ps| + 1 && dp.count == ToUint64(total, misfit)
             && (forall i :: 0 <= i <= |ps| ==> dp.bucketCounts[i] == CountAt(ps, total, i, misfit))
             && |rows| == |ps| + 1 && rows[|ps|] == Row(PosInf, dp.count)
             && forall k :: 0 <= k < |ps| ==> rows[k] == Row(dp.bounds[k], Accumulated(dp.bucketCounts, k + 1))
    ensures Sum(dp.bucketCounts) == total.n == dp.count
    ensures forall row :: row in rows <==> Original(row, points, total.n)
    ensures Ascend(Les(rows)) && forall i :: 0 <= i < |dp.bounds| ==> dp.bounds[i].Finite?
    ensures AddUp(dp, rows)
  {
    SortedRises(points, total);
    hide Cumulative, SortPoints, WithoutInf, Accumulated, CountAt, BoundsOf, Rising, Increasing, RowsOf, Original;
    hide Ascend, AddUp;
    var ps := WithoutInf(SortPoints(points));
    FromSorted(ps, total.n, dp, rows, misfit);
    RowsAreOriginal(points, ps, total.n, rows);
    RowsIncrease(ps, total.n, rows);
  }

  /** The bounds are those of the rows but the last, and up to each of them the bucket counts add up to its row. */
  predicate AddUp(dp: HistogramPoint, rows: seq<Row>) {
    && |dp.bucketCounts| == |dp.bounds| + 1 == |rows|
    && forall i :: 0 <= i < |dp.bounds| ==> dp.bounds[i] == rows[i].le && Sum(dp.bucketCounts[..i + 1]) == rows[i].value
  }

  lemma FromSorted(ps: seq<DataPoint>, total: int, dp: HistogramPoint, rows: seq<Row>, misfit: Value -> nat)
    requires Rising(ps, total) && 0 <= total < TWO_TO_64
    requires dp.bounds == BoundsOf(ps) && |dp.bucketCounts| == |ps| + 1 && dp.count == ToUint64(Number(total), misfit)
    requires forall i :: 0 <= i <= |ps| ==> dp.bucketCounts[i] == CountAt(ps, Number(total), i, misfit)
    requires |rows| == |ps| + 1 && rows[|ps|] == Row(PosInf, dp.count)
    requires forall k :: 0 <= k < |ps| ==> rows[k] == Row(dp.bounds[k], Accumulated(dp.bucketCounts, k + 1))
    ensures RowsOf(ps, total, rows) && Sum(dp.bucketCounts) == total == dp.count
    ensures AddUp(dp, rows) && forall i :: 0 <= i < |dp.bounds| ==> dp.bounds[i].Finite?
  {
    hide CountAt, Accumulated, Sum;
    forall k | 0 <= k < |ps|
      ensures rows[k].le == ps[k].boundary && rows[k].value == ps[k].value.n
      ensures Sum(dp.bucketCounts[..k + 1]) == rows[k].value
    {
      AccumulatedIsCumulative(ps, total, dp.bucketCounts, k + 1, misfit);
      NoWrap(ps, total, dp.bucketCounts, k + 1, misfit);
    }
    NoWrap(ps, total, dp.bucketCounts, |dp.bucketCounts|, misfit);
    assert dp.bucketCounts[..|dp.bucketCounts|] == dp.bucketCounts;
  }

  lemma RowsIncrease(ps: seq<DataPoint>, total: int, rows: seq<Row>)
    requires RowsOf(ps, total, rows) && Increasing(ps) && Rising(ps, total)
    ensures Ascend(Les(rows))
  {
  }

  /** No partial sum wraps. */
  lemma NoWrap(ps: seq<DataPoint>, total: int, counts: seq<nat>, n: nat, misfit: Value -> nat)
    requires 0 <= total < TWO_TO_64 && Rising(ps, total) && n <= |ps| + 1 == |counts|
    requires forall i :: 0 <= i <= |ps| ==> counts[i] == CountAt(ps, Number(total), i, misfit)
    ensures Sum(counts[..n]) == if n == 0 then 0 else if n <= |ps| then ps[n - 1].value.n else total
  {
    forall k: nat | k < n
      ensures Accumulated(counts, k) + counts[k] < TWO_TO_64
    {
      AccumulatedIsCumulative(ps, total, counts, k, misfit);
      assert counts[k] == CountAt(ps, Number(total), k, misfit);
    }
    SumIsAccumulated(counts, n);
    AccumulatedIsCumulative(ps, total, counts, n, misfit);
  }

  /** A scrape of one series group, converted and exported. */
  method ReceiveAndExport(samples: seq<Sample>, t: int, misfit: Value -> nat)
    returns (point: Option<HistogramPoint>, rows: seq<Row>)
    ensures point.Some? <==> LastCount(samples).Some?
    ensures point.Some? && Cumulative(Buckets(samples), LastCount(samples).value)
            && LastSum(samples) != Some(StaleNaN) ==>
              var total := LastCount(samples).value.n;
              && !point.value.noRecordedValue && Sum(point.value.bucketCounts) == point.value.count == total
              && point.value.sum == LastSum(samples)
              && (forall row :: row in rows <==> Original(row, Buckets(samples), total))
              && Ascend(Les(rows)) && AddUp(point.value, rows)
    ensures point.Some? && (LastCount(samples).value.StaleNaN? || LastSum(samples) == Some(StaleNaN)) ==>
              point.value.noRecordedValue && forall row :: row in rows ==> row.value == 0
  {
    var mg := new MetricGroup(t);
    for i := 0 to |samples|
      invariant mg.complexValue == Buckets(samples[..i]) && mg.ts == t
      invariant LastCount(samples[..i]) == if mg.hasCount then Some(mg.count) else None
      invariant LastSum(samples[..i]) == if mg.hasSum then Some(mg.sum) else None
      invariant !mg.hasSum ==> mg.sum == Number(0)
    {
      var ok := mg.AddSeries(samples[i], t);
      assert samples[..i + 1][..i] == samples[..i];
    }
    assert samples[..|samples|] == samples;
    point := mg.ToDistributionPoint(misfit);
    rows := [];
    if point.Some? {
      rows := AddBucketSample(point.value.bounds, point.value.bucketCounts, point.value.count);
      if point.value.noRecordedValue {
        AllZero(point.value.bucketCounts, |point.value.bucketCounts|);
      } else if Cumulative(Buckets(samples), mg.count) {
        RoundTrip(Buckets(samples), mg.count, point.value, rows, misfit);
      }
    }
  }

  lemma {:induction false} AllZero(counts: seq<nat>, n: nat)
    requires n <= |counts| && forall i :: 0 <= i < |counts| ==> counts[i] == 0
    ensures forall k :: 0 <= k <= n ==> Accumulated(counts, k) == 0
  {
    if n > 0 {
      AllZero(counts, n - 1);
    }
  }

  /** No two bucket samples of one boundary, and at most one sample of each other kind. */
  predicate Unambiguous(samples: seq<Sample>) {
    forall i, j :: 0 <= i < j < |samples| ==>
      && !(samples[i].CountSample? && samples[j].CountSample?)
      && !(samples[i].SumSample? && samples[j].SumSample?)
      && !(samples[i].BucketSample? && samples[j].BucketSample? && samples[i].boundary == samples[j].boundary)
  }

  lemma Prefix(samples: seq<Sample>)
    requires samples != [] && Unambiguous(samples)
    ensures var n := |samples| - 1;
            Unambiguous(samples[..n]) && forall x :: x in samples <==> x in samples[..n] || x == samples[n]
  {
    assert samples == samples[..|samples| - 1] + [samples[|samples| - 1]];
  }

  lemma {:induction false} BucketsGathered(samples: seq<Sample>)
    requires Unambiguous(samples)
    ensures Distinct(Buckets(samples))
    ensures forall p :: p in Buckets(samples) <==> BucketSample(Some(p.boundary), p.value) in samples
  {
    if samples != [] {
      var n := |samples| - 1;
      var before := Buckets(samples[..n]);
      Prefix(samples);
      BucketsGathered(samples[..n]);
      assert forall i :: 0 <= i < |before| ==> before[i] in before;
      hide Unambiguous;
      NewBucket(samples);
    }
  }

  lemma NewBucket(samples: seq<Sample>)
    requires samples != [] && Unambiguous(samples)
    ensures var n := |samples| - 1;
            samples[n].BucketSample? ==>
              forall b, v :: BucketSample(b, v) in samples[..n] ==> b != samples[n].boundary
  {
  }

  lemma {:induction false} Gathered(samples: seq<Sample>)
    requires Unambiguous(samples)
    ensures Distinct(Buckets(samples))
    ensures forall p :: p in Buckets(samples) <==> BucketSample(Some(p.boundary), p.value) in samples
    ensures forall v :: LastCount(samples) == Some(v) <==> CountSample(v) in samples
    ensures forall v :: LastSum(samples) == Some(v) <==> SumSample(v) in samples
  {
    BucketsGathered(samples);
    if samples != [] {
      Prefix(samples);
      Gathered(samples[..|samples| - 1]);
    }
  }

  /** Arrival order does not matter: two orders of the same samples give the same sorted points, count and sum, which
      are all that the point is made from. */
  lemma ArrivalOrder(samples: seq<Sample>, shuffled: seq<Sample>)
    requires Unambiguous(samples) && Unambiguous(shuffled) && forall x :: x in samples <==> x in shuffled
    ensures SortPoints(Buckets(samples)) == SortPoints(Buckets(shuffled))
    ensures LastCount(samples) == LastCount(shuffled) && LastSum(samples) == LastSum(shuffled)
  {
    Gathered(samples);
    Gathered(shuffled);
    SortPointsSorts(Buckets(samples));
    SortPointsSorts(Buckets(shuffled));
    SameMembersSameSeq(SortPoints(Buckets(samples)), SortPoints(Buckets(shuffled)));
    assert LastCount(samples).Some? ==> LastCount(shuffled) == Some(LastCount(samples).value);
    assert LastCount(shuffled).Some? ==> LastCount(samples) == Some(LastCount(shuffled).value);
    assert LastSum(samples).Some? ==> LastSum(shuffled) == Some(LastSum(samples).value);
    assert LastSum(shuffled).Some? ==> LastSum(samples) == Some(LastSum(shuffled).value);
  }
}
