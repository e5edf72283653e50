/** Which sample rows the metrics of a resource come to. */
module BillingRows {
  import opened Billing
  import ClassicHistogram
  import Numbers

  /** A row with a histogram point's count, or with the sum, the minimum or the maximum it has. */
  predicate CommonRow(name: string, count: nat, sum: Number, min: Number, max: Number, hasSum: bool, hasMin: bool,
                      hasMax: bool, r: Row) {
    || r == Row(name + ".count", Plain, Num(count))
    || (hasSum && r == Row(name + ".sum", Plain, sum))
    || (hasMin && r == Row(name + ".min", Plain, min))
    || (hasMax && r == Row(name + ".max", Plain, max))
  }

  /** A row with what was counted up to a bound, in 64 bits, or with the count of all. */
  predicate BucketRow(name: string, p: HistogramPoint, r: Row) {
    || r == Row(name + ".bucket", Le(ClassicHistogram.PosInf), Num(p.count))
    || exists i :: 0 <= i < |p.bounds| && i < |p.bucketCounts| && IsBucket(name, p, i, r)
  }

  predicate IsBucket(name: string, p: HistogramPoint, i: nat, r: Row)
    requires i < |p.bounds| && i < |p.bucketCounts|
  {
    r == Row(name + ".bucket", Le(p.bounds[i]), Num(Numbers.Sum(p.bucketCounts[..i + 1]) % 0x1_0000_0000_0000_0000))
  }

  predicate HistogramRow(name: string, p: HistogramPoint, r: Row) {
    && !p.sum.NaN? && !p.min.NaN? && !p.max.NaN?
    && (CommonRow(name, p.count, p.sum, p.min, p.max, p.hasSum, p.hasMin, p.hasMax, r) || BucketRow(name, p, r))
  }

  predicate SummaryRow(name: string, p: SummaryPoint, r: Row) {
    && !p.sum.NaN? && (forall q :: q in p.quantiles ==> !q.value.NaN?)
    && (|| r == Row(name + ".count", Plain, Num(p.count))
        || r == Row(name + ".sum", Plain, p.sum)
        || exists q :: q in p.quantiles && r == Row(name + ".quantile", AtQuantile(q.quantile), q.value))
  }

  predicate ExponentialRow(name: string, p: ExponentialPoint, r: Row) {
    && !p.sum.NaN? && !p.min.NaN? && !p.max.NaN?
    && CommonRow(name, p.count, p.sum, p.min, p.max, p.hasSum, p.hasMin, p.hasMax, r)
  }

  predicate NumberRow(name: string, v: Number, r: Row) { v.Num? && r == Row(name, Plain, v) }

  /** A row that a metric comes to, whatever its name begins with. */
  predicate MetricRow(enableExpHist: bool, m: Metric, r: Row) {
    match m
    case Gauge(name, numbers) => exists v :: v in numbers && NumberRow(name, v, r)
    case Sum(name, numbers) => exists v :: v in numbers && NumberRow(name, v, r)
    case Histogram(name, points) => exists p :: p in points && HistogramRow(name, p, r)
    case Summary(name, points) => exists p :: p in points && SummaryRow(name, p, r)
    case ExponentialHistogram(name, isDelta, points) =>
      enableExpHist && isDelta && exists p :: p in points && ExponentialRow(name, p, r)
    case Empty(_) => false
  }

  lemma {:induction false} InFlat<T>(ts: seq<T>, n: nat, rows: T -> seq<Row>, r: Row)
    requires n <= |ts|
    ensures r in Flat(ts, n, rows) <==> exists i :: 0 <= i < n && r in rows(ts[i])
  {
    if n > 0 {
      InFlat(ts, n - 1, rows, r);
    }
  }

  /** What comes of a list is what comes of its entries. */
  lemma InFlatOf<T(!new)>(ts: seq<T>, rows: T -> seq<Row>, from: T -> bool, r: Row)
    requires forall t :: r in rows(t) <==> from(t)
    ensures r in Flat(ts, |ts|, rows) <==> exists t :: t in ts && from(t)
  {
    InFlat(ts, |ts|, rows, r);
    if t :| t in ts && from(t) {
      var i :| 0 <= i < |ts| && ts[i] == t;
      assert r in rows(ts[i]);
    }
  }

  /** Adding up in 64 bits is adding up and wrapping once. */
  lemma {:induction false} AccumulatedWraps(counts: seq<nat>, n: nat)
    requires n <= |counts|
    ensures ClassicHistogram.Accumulated(counts, n) == Numbers.Sum(counts[..n]) % 0x1_0000_0000_0000_0000
  {
    if n > 0 {
      AccumulatedWraps(counts, n - 1);
      assert counts[..n][..n - 1] == counts[..n - 1];
      WrapsOnce(Numbers.Sum(counts[..n - 1]), counts[n - 1]);
    }
  }

  lemma WrapsOnce(a: nat, b: nat)
    ensures (a % 0x1_0000_0000_0000_0000 + b) % 0x1_0000_0000_0000_0000 == (a + b) % 0x1_0000_0000_0000_0000
  {
  }

  lemma CommonRowIff(name: string, count: nat, sum: Number, min: Number, max: Number, hasSum: bool, hasMin: bool,
                     hasMax: bool, r: Row)
    ensures r in CommonRows(name, count, sum, min, max, hasSum, hasMin, hasMax) <==>
            CommonRow(name, count, sum, min, max, hasSum, hasMin, hasMax, r)
  {
  }

  lemma BucketRowIff(name: string, p: HistogramPoint, r: Row)
    ensures r in BucketRows(name, p) <==> BucketRow(name, p, r)
  {
    hide Numbers.Sum, ClassicHistogram.Accumulated;
    var n := Numbers.Min(|p.bounds|, |p.bucketCounts|);
    var rows := BucketRows(name, p);
    forall i | 0 <= i < n
      ensures rows[i] == r <==> IsBucket(name, p, i, r)
    {
      AccumulatedWraps(p.bucketCounts, i + 1);
    }
    assert rows[n] == Row(name + ".bucket", Le(ClassicHistogram.PosInf), Num(p.count));
    if r in rows {
      var i :| 0 <= i < |rows| && rows[i] == r;
    }
    if i :| 0 <= i < |p.bounds| && i < |p.bucketCounts| && IsBucket(name, p, i, r) {
      assert rows[i] == r;
    }
  }

  lemma HistogramRowIff(name: string, p: HistogramPoint, r: Row)
    ensures r in HistogramRowsOf(name)(p) <==> HistogramRow(name, p, r)
  {
    hide CommonRows, BucketRows, CommonRow, BucketRow;
    CommonRowIff(name, p.count, p.sum, p.min, p.max, p.hasSum, p.hasMin, p.hasMax, r);
    BucketRowIff(name, p, r);
  }

  lemma SummaryRowIff(name: string, p: SummaryPoint, r: Row)
    ensures r in SummaryRowsOf(name)(p) <==> SummaryRow(name, p, r)
  {
    InFlatOf(p.quantiles, QuantileRow(name),
             (q: Quantile) => r == Row(name + ".quantile", AtQuantile(q.quantile), q.value), r);
    hide Flat, QuantileRow;
    assert AnyNaN(p.quantiles) <==> exists q :: q in p.quantiles && q.value.NaN?;
  }

  lemma ExponentialRowIff(name: string, p: ExponentialPoint, r: Row)
    ensures r in ExponentialRowsOf(name)(p) <==> ExponentialRow(name, p, r)
  {
    hide CommonRows, CommonRow;
    CommonRowIff(name, p.count, p.sum, p.min, p.max, p.hasSum, p.hasMin, p.hasMax, r);
  }

  lemma NumberRowsIff(name: string, numbers: seq<Number>, r: Row)
    ensures r in Flat(numbers, |numbers|, NumberRowsOf(name)) <==> exists v :: v in numbers && NumberRow(name, v, r)
  {
    InFlatOf(numbers, NumberRowsOf(name), v => NumberRow(name, v, r), r);
  }

  lemma MetricRowIff(enableExpHist: bool, m: Metric, r: Row)
    ensures r in MetricRowsOf(enableExpHist)(m) <==> MetricRow(enableExpHist, m, r)
  {
    hide HistogramRowsOf, SummaryRowsOf, ExponentialRowsOf, HistogramRow, SummaryRow, ExponentialRow;
    match m
    case Gauge(name, numbers) => NumberRowsIff(name, numbers, r);
    case Sum(name, numbers) => NumberRowsIff(name, numbers, r);
    case Histogram(name, points) =>
      forall p: HistogramPoint
        ensures r in HistogramRowsOf(name)(p) <==> HistogramRow(name, p, r)
      {
        HistogramRowIff(name, p, r);
      }
      InFlatOf(points, HistogramRowsOf(name), p => HistogramRow(name, p, r), r);
    case Summary(name, points) =>
      forall p: SummaryPoint
        ensures r in SummaryRowsOf(name)(p) <==> SummaryRow(name, p, r)
      {
        SummaryRowIff(name, p, r);
      }
      InFlatOf(points, SummaryRowsOf(name), p => SummaryRow(name, p, r), r);
    case ExponentialHistogram(name, isDelta, points) =>
      forall p: ExponentialPoint
        ensures r in ExponentialRowsOf(name)(p) <==> ExponentialRow(name, p, r)
      {
        ExponentialRowIff(name, p, r);
      }
      InFlatOf(points, ExponentialRowsOf(name), p => ExponentialRow(name, p, r), r);
    case Empty(_) =>
  }

  /** A row is exported exactly when some metric of the resource comes to it. */
  lemma ExportedIff(scopes: Scopes, enableExpHist: bool, r: Row)
    ensures r in Flat(scopes, |scopes|, ScopeRowsOf(enableExpHist)) <==>
            exists ms, m :: ms in scopes && m in ms && MetricRow(enableExpHist, m, r)
  {
    hide MetricRowsOf, MetricRow;
    forall m: Metric
      ensures r in MetricRowsOf(enableExpHist)(m) <==> MetricRow(enableExpHist, m, r)
    {
      MetricRowIff(enableExpHist, m, r);
    }
    forall ms: seq<Metric>
      ensures r in ScopeRowsOf(enableExpHist)(ms) <==> exists m :: m in ms && MetricRow(enableExpHist, m, r)
    {
      InFlatOf(ms, MetricRowsOf(enableExpHist), m => MetricRow(enableExpHist, m, r), r);
    }
    InFlatOf(scopes, ScopeRowsOf(enableExpHist), ms => exists m :: m in ms && MetricRow(enableExpHist, m, r), r);
  }
}
