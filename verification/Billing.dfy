/** What a resource's metrics are billed for, against the sample rows that the exporter makes of them. */
module Billing {
  import ClassicHistogram
  import Numbers
  import opened Tally

  type Boundary = ClassicHistogram.Boundary

  datatype Number = NaN | Num(n: int)

  /** Names under these prefixes are the collector's own and are not billed. */
  predicate Excluded(name: string) { "signoz" <= name || "otelcol" <= name }

  datatype HistogramPoint = HistogramPoint(count: nat, sum: Number, min: Number, max: Number,
                                           hasSum: bool, hasMin: bool, hasMax: bool,
                                           bounds: seq<Boundary>, bucketCounts: seq<nat>)

  datatype Quantile = Quantile(quantile: int, value: Number)

  datatype SummaryPoint = SummaryPoint(count: nat, sum: Number, quantiles: seq<Quantile>)

  datatype ExponentialPoint = ExponentialPoint(count: nat, sum: Number, min: Number, max: Number,
                                               hasSum: bool, hasMin: bool, hasMax: bool, positive: seq<nat>,
                                                 negative: seq<nat>)

  datatype Metric =
    | Gauge(name: string, numbers: seq<Number>)
    | Sum(name: string, numbers: seq<Number>)
    | Histogram(name: string, histogram: seq<HistogramPoint>)
    | Summary(name: string, summary: seq<SummaryPoint>)
    | ExponentialHistogram(name: string, isDelta: bool, exponential: seq<ExponentialPoint>)
    | Empty(name: string)

  /** What tells a row from the others of its point. */
  datatype Tag = Plain | Le(bound: Boundary) | AtQuantile(quantile: int)

  datatype Row = Row(metricName: string, tag: Tag, value: Number)

  type Scopes = seq<seq<Metric>>

  // ---- What each data point is billed and yields --------------------------------------------------------------

  function One(b: bool): nat { if b then 1 else 0 }

  function HistogramBill(p: HistogramPoint): nat {
    |p.bucketCounts| + 1 + One(p.hasSum) + One(p.hasMin) + One(p.hasMax)
  }

  function SummaryBill(p: SummaryPoint): nat { |p.quantiles| + 2 }

  function ExponentialBill(p: ExponentialPoint): nat {
    |p.negative| + |p.positive| + 1 + One(p.hasSum) + One(p.hasMin) + One(p.hasMax)
  }

  function NumberRows(v: Number): nat { One(!v.NaN?) }

  function HistogramRows(p: HistogramPoint): nat {
    if p.sum.NaN? || p.min.NaN? || p.max.NaN? then 0
    else 1 + One(p.hasSum) + One(p.hasMin) + One(p.hasMax) + Numbers.Min(|p.bounds|, |p.bucketCounts|) + 1
  }

  predicate AnyNaN(qs: seq<Quantile>) { exists i :: 0 <= i < |qs| && qs[i].value.NaN? }

  function SummaryRows(p: SummaryPoint): nat { if p.sum.NaN? || AnyNaN(p.quantiles) then 0 else 2 + |p.quantiles| }

  function ExponentialRows(p: ExponentialPoint): nat {
    if p.sum.NaN? || p.min.NaN? || p.max.NaN? then 0 else 1 + One(p.hasSum) + One(p.hasMin) + One(p.hasMax)
  }

  function NumberBill(v: Number): nat { 1 }

  function MetricBill(m: Metric): nat {
    if Excluded(m.name) then 0
    else match m
      case Gauge(_, numbers) => |numbers|
      case Sum(_, numbers) => |numbers|
      case Histogram(_, points) => Total(points, HistogramBill)
      case Summary(_, points) => Total(points, SummaryBill)
      case ExponentialHistogram(_, _, points) => Total(points, ExponentialBill)
      case Empty(_) => 0
  }

  function RowsOf(enableExpHist: bool, m: Metric): nat {
    match m
    case Gauge(_, numbers) => Total(numbers, NumberRows)
    case Sum(_, numbers) => Total(numbers, NumberRows)
    case Histogram(_, points) => Total(points, HistogramRows)
    case Summary(_, points) => Total(points, SummaryRows)
    case ExponentialHistogram(_, isDelta, points) =>
      if enableExpHist && isDelta then Total(points, ExponentialRows) else 0
    case Empty(_) => 0
  }

  function MetricRows(enableExpHist: bool): Metric -> nat { (m: Metric) => RowsOf(enableExpHist, m) }

  function ScopeBill(ms: seq<Metric>): nat { Total(ms, MetricBill) }

  function ScopeRows(enableExpHist: bool): seq<Metric> -> nat {
    (ms: seq<Metric>) => Total(ms, MetricRows(enableExpHist))
  }

  // ---- The meter ----------------------------------------------------------------------------------------------

  method CountMetric(metric: Metric) returns (count: nat)
    requires !Excluded(metric.name)
    ensures count == MetricBill(metric)
  {
    count := 0;
    match metric {
      case Gauge(_, numbers) => count := |numbers|;
      case Sum(_, numbers) => count := |numbers|;
      case Histogram(_, points) =>
        for i := 0 to |points|
          invariant count == TotalTo(points, i, HistogramBill)
        {
          var dp := points[i];
          count := count + |dp.bucketCounts| + 1;
          if dp.hasSum { count := count + 1; }
          if dp.hasMin { count := count + 1; }
          if dp.hasMax { count := count + 1; }
        }
      case Summary(_, points) =>
        for i := 0 to |points|
          invariant count == TotalTo(points, i, SummaryBill)
        {
          count := count + |points[i].quantiles| + 2;
        }
      case ExponentialHistogram(_, _, points) =>
        for i := 0 to |points|
          invariant count == TotalTo(points, i, ExponentialBill)
        {
          var dp := points[i];
          count := count + |dp.negative| + |dp.positive| + 1;
          if dp.hasSum { count := count + 1; }
          if dp.hasMin { count := count + 1; }
          if dp.hasMax { count := count + 1; }
        }
      case Empty(_) =>
    }
  }

  method CountPerResource(scopes: Scopes) returns (count: nat)
    ensures count == Total(scopes, ScopeBill)
  {
    count := 0;
    for j := 0 to |scopes|
      invariant count == TotalTo(scopes, j, ScopeBill)
    {
      var metrics := scopes[j];
      for k := 0 to |metrics|
        invariant count == TotalTo(scopes, j, ScopeBill) + TotalTo(metrics, k, MetricBill)
      {
        if !Excluded(metrics[k].name) {
          var own := CountMetric(metrics[k]);
          count := count + own;
        }
      }
    }
  }

  // ---- The exporter -------------------------------------------------------------------------------------------

  /** The rows of the first `n` of a list, one after the other. */
  function Flat<T>(ts: seq<T>, n: nat, rows: T -> seq<Row>): seq<Row>
    requires n <= |ts|
  {
    if n == 0 then [] else Flat(ts, n - 1, rows) + rows(ts[n - 1])
  }

  function NumberRowsOf(name: string): Number -> seq<Row> {
    (v: Number) => if v.NaN? then [] else [Row(name, Plain, v)]
  }

  /** The rows common to both kinds of histogram. */
  function CommonRows(name: string, count: nat, sum: Number, min: Number, max: Number, hasSum: bool, hasMin: bool,
                      hasMax: bool): seq<Row> {
    [Row(name + ".count", Plain, Num(count))]
    + (if hasSum then [Row(name + ".sum", Plain, sum)] else [])
    + (if hasMin then [Row(name + ".min", Plain, min)] else [])
    + (if hasMax then [Row(name + ".max", Plain, max)] else [])
  }

  /** One row per bound, with what was counted up to it, and one for everything. */
  function BucketRows(name: string, dp: HistogramPoint): seq<Row> {
    var n := Numbers.Min(|dp.bounds|, |dp.bucketCounts|);
    seq(n, i requires 0 <= i < n =>
      Row(name + ".bucket", Le(dp.bounds[i]), Num(ClassicHistogram.Accumulated(dp.bucketCounts, i + 1))))
    + [Row(name + ".bucket", Le(ClassicHistogram.PosInf), Num(dp.count))]
  }

  function HistogramRowsOf(name: string): HistogramPoint -> seq<Row> {
    (dp: HistogramPoint) =>
      if dp.sum.NaN? || dp.min.NaN? || dp.max.NaN? then []
      else CommonRows(name, dp.count, dp.sum, dp.min, dp.max, dp.hasSum, dp.hasMin, dp.hasMax) + BucketRows(name, dp)
  }

  function QuantileRow(name: string): Quantile -> seq<Row> {
    (q: Quantile) => [Row(name + ".quantile", AtQuantile(q.quantile), q.value)]
  }

  function SummaryRowsOf(name: string): SummaryPoint -> seq<Row> {
    (dp: SummaryPoint) =>
      if dp.sum.NaN? || AnyNaN(dp.quantiles) then []
      else [Row(name + ".count", Plain, Num(dp.count)), Row(name + ".sum", Plain, dp.sum)]
           + Flat(dp.quantiles, |dp.quantiles|, QuantileRow(name))
  }

  function ExponentialRowsOf(name: string): ExponentialPoint -> seq<Row> {
    (dp: ExponentialPoint) =>
      if dp.sum.NaN? || dp.min.NaN? || dp.max.NaN? then []
      else CommonRows(name, dp.count, dp.sum, dp.min, dp.max, dp.hasSum, dp.hasMin, dp.hasMax)
  }

  function MetricRowsOf(enableExpHist: bool): Metric -> seq<Row> {
    (m: Metric) =>
      match m
      case Gauge(name, numbers) => Flat(numbers, |numbers|, NumberRowsOf(name))
      case Sum(name, numbers) => Flat(numbers, |numbers|, NumberRowsOf(name))
      case Histogram(name, points) => Flat(points, |points|, HistogramRowsOf(name))
      case Summary(name, points) => Flat(points, |points|, SummaryRowsOf(name))
      case ExponentialHistogram(name, isDelta, points) =>
        if enableExpHist && isDelta then Flat(points, |points|, ExponentialRowsOf(name)) else []
      case Empty(_) => []
  }

  function ScopeRowsOf(enableExpHist: bool): seq<Metric> -> seq<Row> {
    (ms: seq<Metric>) => Flat(ms, |ms|, MetricRowsOf(enableExpHist))
  }

  method ProcessNumbers(batch: seq<Row>, name: string, numbers: seq<Number>) returns (samples: seq<Row>)
    ensures samples == batch + Flat(numbers, |numbers|, NumberRowsOf(name))
  {
    samples := batch;
    for i := 0 to |numbers|
      invariant samples == batch + Flat(numbers, i, NumberRowsOf(name))
    {
      if !numbers[i].NaN? {
        samples := samples + [Row(name, Plain, numbers[i])];
      }
    }
  }

  method AddSamples(batch: seq<Row>, name: string, count: nat, sum: Number, min: Number, max: Number, hasSum: bool,
                    hasMin: bool, hasMax: bool)
    returns (samples: seq<Row>)
    ensures samples == batch + CommonRows(name, count, sum, min, max, hasSum, hasMin, hasMax)
  {
    samples := batch + [Row(name + ".count", Plain, Num(count))];
    if hasSum {
      samples := samples + [Row(name + ".sum", Plain, sum)];
    }
    if hasMin {
      samples := samples + [Row(name + ".min", Plain, min)];
    }
    if hasMax {
      samples := samples + [Row(name + ".max", Plain, max)];
    }
  }

  /** The rows of ClassicHistogram.AddBucketSample under the metric's name. */
  method AddBucketSample(batch: seq<Row>, name: string, dp: HistogramPoint) returns (samples: seq<Row>)
    ensures samples == batch + BucketRows(name, dp)
  {
    var rows := ClassicHistogram.AddBucketSample(dp.bounds, dp.bucketCounts, dp.count);
    samples := batch
      + seq(|rows|, i requires 0 <= i < |rows| => Row(name + ".bucket", Le(rows[i].le), Num(rows[i].value)));
  }

  /** The body of the loop over the points of a histogram. */
  method AddHistogramPoint(batch: seq<Row>, name: string, dp: HistogramPoint) returns (samples: seq<Row>)
    ensures samples == batch + HistogramRowsOf(name)(dp)
  {
    hide CommonRows, BucketRows;
    samples := batch;
    if !(dp.sum.NaN? || dp.min.NaN? || dp.max.NaN?) {
      samples := AddSamples(samples, name, dp.count, dp.sum, dp.min, dp.max, dp.hasSum, dp.hasMin, dp.hasMax);
      samples := AddBucketSample(samples, name, dp);
    }
  }

  method ProcessHistogram(batch: seq<Row>, name: string, points: seq<HistogramPoint>) returns (samples: seq<Row>)
    ensures samples == batch + Flat(points, |points|, HistogramRowsOf(name))
  {
    hide HistogramRowsOf;
    samples := batch;
    for i := 0 to |points|
      invariant samples == batch + Flat(points, i, HistogramRowsOf(name))
    {
      samples := AddHistogramPoint(samples, name, points[i]);
    }
  }

  method AddQuantileSample(batch: seq<Row>, name: string, dp: SummaryPoint) returns (samples: seq<Row>)
    ensures samples == batch + Flat(dp.quantiles, |dp.quantiles|, QuantileRow(name))
  {
    samples := batch;
    for j := 0 to |dp.quantiles|
      invariant samples == batch + Flat(dp.quantiles, j, QuantileRow(name))
    {
      samples := samples + [Row(name + ".quantile", AtQuantile(dp.quantiles[j].quantile), dp.quantiles[j].value)];
    }
  }

  /** Whether a summary point is passed over. */
  method HasNaN(dp: SummaryPoint) returns (skip: bool)
    ensures skip <==> dp.sum.NaN? || AnyNaN(dp.quantiles)
  {
    skip := dp.sum.NaN?;
    for j := 0 to |dp.quantiles|
      invariant skip <==> dp.sum.NaN? || exists k :: 0 <= k < j && dp.quantiles[k].value.NaN?
    {
      if dp.quantiles[j].value.NaN? {
        return true;
      }
    }
  }

  /** The body of the loop over the points of a summary. */
  method AddSummaryPoint(batch: seq<Row>, name: string, dp: SummaryPoint) returns (samples: seq<Row>)
    ensures samples == batch + SummaryRowsOf(name)(dp)
  {
    hide AnyNaN, QuantileRow, Flat;
    samples := batch;
    var skip := HasNaN(dp);
    if !skip {
      samples := samples + [Row(name + ".count", Plain, Num(dp.count))];
      samples := samples + [Row(name + ".sum", Plain, dp.sum)];
      samples := AddQuantileSample(samples, name, dp);
    }
  }

  method ProcessSummary(batch: seq<Row>, name: string, points: seq<SummaryPoint>) returns (samples: seq<Row>)
    ensures samples == batch + Flat(points, |points|, SummaryRowsOf(name))
  {
    hide SummaryRowsOf;
    samples := batch;
    for i := 0 to |points|
      invariant samples == batch + Flat(points, i, SummaryRowsOf(name))
    {
      samples := AddSummaryPoint(samples, name, points[i]);
    }
  }

  method ProcessExponentialHistogram(batch: seq<Row>, name: string, isDelta: bool, points: seq<ExponentialPoint>,
                                     enableExpHist: bool)
    returns (samples: seq<Row>)
    ensures samples == batch + if enableExpHist && isDelta then Flat(points, |points|, ExponentialRowsOf(name)) else []
  {
    hide CommonRows;
    samples := batch;
    if !enableExpHist || !isDelta {
      return;
    }
    for i := 0 to |points|
      invariant samples == batch + Flat(points, i, ExponentialRowsOf(name))
    {
      var dp := points[i];
      if !(dp.sum.NaN? || dp.min.NaN? || dp.max.NaN?) {
        samples := AddSamples(samples, name, dp.count, dp.sum, dp.min, dp.max, dp.hasSum, dp.hasMin, dp.hasMax);
      }
    }
  }

  method AddMetric(batch: seq<Row>, metric: Metric, enableExpHist: bool) returns (samples: seq<Row>)
    ensures samples == batch + MetricRowsOf(enableExpHist)(metric)
  {
    hide NumberRowsOf, HistogramRowsOf, SummaryRowsOf, ExponentialRowsOf;
    match metric {
      case Gauge(name, numbers) => samples := ProcessNumbers(batch, name, numbers);
      case Sum(name, numbers) => samples := ProcessNumbers(batch, name, numbers);
      case Histogram(name, points) => samples := ProcessHistogram(batch, name, points);
      case Summary(name, points) => samples := ProcessSummary(batch, name, points);
      case ExponentialHistogram(name, isDelta, points) =>
        samples := ProcessExponentialHistogram(batch, name, isDelta, points, enableExpHist);
      case Empty(_) => samples := batch;
    }
  }

  method PrepareBatch(scopes: Scopes, enableExpHist: bool) returns (samples: seq<Row>)
    ensures samples == Flat(scopes, |scopes|, ScopeRowsOf(enableExpHist))
  {
    hide MetricRowsOf;
    samples := [];
    for j := 0 to |scopes|
      invariant samples == Flat(scopes, j, ScopeRowsOf(enableExpHist))
    {
      var metrics := scopes[j];
      for k := 0 to |metrics|
        invariant samples == Flat(scopes, j, ScopeRowsOf(enableExpHist)) + Flat(metrics, k, MetricRowsOf(enableExpHist))
      {
        samples := AddMetric(samples, metrics[k], enableExpHist);
      }
    }
  }

  lemma {:induction false} FlatLength<T>(ts: seq<T>, n: nat, rows: T -> seq<Row>, count: T -> nat)
    requires n <= |ts| && forall t :: t in ts ==> |rows(t)| == count(t)
    ensures |Flat(ts, n, rows)| == TotalTo(ts, n, count)
  {
    if n > 0 {
      FlatLength(ts, n - 1, rows, count);
      assert ts[n - 1] in ts;
    }
  }

  lemma MetricRowsCounted(m: Metric, enableExpHist: bool)
    ensures |MetricRowsOf(enableExpHist)(m)| == RowsOf(enableExpHist, m)
  {
    match m {
      case Gauge(name, numbers) => FlatLength(numbers, |numbers|, NumberRowsOf(name), NumberRows);
      case Sum(name, numbers) => FlatLength(numbers, |numbers|, NumberRowsOf(name), NumberRows);
      case Histogram(name, points) => FlatLength(points, |points|, HistogramRowsOf(name), HistogramRows);
      case Summary(name, points) =>
        forall p: SummaryPoint
          ensures |SummaryRowsOf(name)(p)| == SummaryRows(p)
        {
          FlatLength(p.quantiles, |p.quantiles|, QuantileRow(name), (q: Quantile) => 1);
          UnitTotal(p.quantiles, |p.quantiles|, (q: Quantile) => 1);
        }
        FlatLength(points, |points|, SummaryRowsOf(name), SummaryRows);
      case ExponentialHistogram(name, isDelta, points) => FlatLength(points, |points|, ExponentialRowsOf(name),
                                                                     ExponentialRows);
      case Empty(_) =>
    }
  }

  /** The rows of a resource are as many as its data points yield. */
  lemma RowsCounted(scopes: Scopes, enableExpHist: bool)
    ensures |Flat(scopes, |scopes|, ScopeRowsOf(enableExpHist))| == Total(scopes, ScopeRows(enableExpHist))
  {
    hide MetricRowsOf, RowsOf;
    forall ms: seq<Metric>
      ensures |ScopeRowsOf(enableExpHist)(ms)| == ScopeRows(enableExpHist)(ms)
    {
      forall m | m in ms
        ensures |MetricRowsOf(enableExpHist)(m)| == MetricRows(enableExpHist)(m)
      {
        MetricRowsCounted(m, enableExpHist);
      }
      FlatLength(ms, |ms|, MetricRowsOf(enableExpHist), MetricRows(enableExpHist));
    }
    FlatLength(scopes, |scopes|, ScopeRowsOf(enableExpHist), ScopeRows(enableExpHist));
  }

  predicate NoNaN(rows: seq<Row>) { forall r :: r in rows ==> !r.value.NaN? }

  lemma {:induction false} FlatNoNaN<T>(ts: seq<T>, n: nat, rows: T -> seq<Row>)
    requires n <= |ts| && forall t :: t in ts ==> NoNaN(rows(t))
    ensures NoNaN(Flat(ts, n, rows))
  {
    if n > 0 {
      FlatNoNaN(ts, n - 1, rows);
      assert ts[n - 1] in ts;
    }
  }

  lemma MetricNoNaN(m: Metric, enableExpHist: bool)
    ensures NoNaN(MetricRowsOf(enableExpHist)(m))
  {
    match m {
      case Gauge(name, numbers) => FlatNoNaN(numbers, |numbers|, NumberRowsOf(name));
      case Sum(name, numbers) => FlatNoNaN(numbers, |numbers|, NumberRowsOf(name));
      case Histogram(name, points) => FlatNoNaN(points, |points|, HistogramRowsOf(name));
      case Summary(name, points) =>
        forall p: SummaryPoint
          ensures NoNaN(SummaryRowsOf(name)(p))
        {
          if !AnyNaN(p.quantiles) {
            assert forall q :: q in p.quantiles ==> !q.value.NaN?;
            FlatNoNaN(p.quantiles, |p.quantiles|, QuantileRow(name));
          }
        }
        FlatNoNaN(points, |points|, SummaryRowsOf(name));
      case ExponentialHistogram(name, isDelta, points) => FlatNoNaN(points, |points|, ExponentialRowsOf(name));
      case Empty(_) =>
    }
  }

  /** No sample row holds a NaN, whatever the metrics hold. */
  lemma NoNaNExported(scopes: Scopes, enableExpHist: bool)
    ensures NoNaN(Flat(scopes, |scopes|, ScopeRowsOf(enableExpHist)))
  {
    hide MetricRowsOf, NoNaN;
    forall ms | ms in scopes
      ensures NoNaN(ScopeRowsOf(enableExpHist)(ms))
    {
      forall m | m in ms
        ensures NoNaN(MetricRowsOf(enableExpHist)(m))
      {
        MetricNoNaN(m, enableExpHist);
      }
      FlatNoNaN(ms, |ms|, MetricRowsOf(enableExpHist));
    }
    FlatNoNaN(scopes, |scopes|, ScopeRowsOf(enableExpHist));
  }

  // ---- Billed against exported --------------------------------------------------------------------------------

  /** A histogram point is billed for exactly its rows when it has no NaN and one more bucket count than bounds;
      likewise a summary point and a number without NaN, and an exponential point without NaN and without buckets. */
  lemma PointBilledExactly(h: HistogramPoint, s: SummaryPoint, v: Number, e: ExponentialPoint)
    ensures HistogramBill(h) == HistogramRows(h) <==>
              !h.sum.NaN? && !h.min.NaN? && !h.max.NaN? && |h.bucketCounts| == |h.bounds| + 1
    ensures SummaryBill(s) == SummaryRows(s) <==> !s.sum.NaN? && !AnyNaN(s.quantiles)
    ensures NumberBill(v) == NumberRows(v) <==> !v.NaN?
    ensures ExponentialBill(e) == ExponentialRows(e) <==>
              !e.sum.NaN? && !e.min.NaN? && !e.max.NaN? && e.positive == [] && e.negative == []
  {
  }

  // ---- Where the bill and the rows part -------------------------------------------------------------------------

  predicate HistogramNaN(p: HistogramPoint) { p.sum.NaN? || p.min.NaN? || p.max.NaN? }

  predicate ExponentialNaN(p: ExponentialPoint) { p.sum.NaN? || p.min.NaN? || p.max.NaN? }

  function NumberOver(v: Number): nat { One(v.NaN?) }

  /** Billed without a row: the whole bill of a point with a NaN, and the bucket counts beyond those of the bounds
      and of +Inf. */
  function HistogramOver(p: HistogramPoint): nat {
    if HistogramNaN(p) then |p.bucketCounts| + 1 + One(p.hasSum) + One(p.hasMin) + One(p.hasMax)
    else if |p.bucketCounts| > |p.bounds| + 1 then |p.bucketCounts| - |p.bounds| - 1
    else 0
  }

  /** A row without a bill: that of +Inf, when there is no bucket count for it. */
  function HistogramUnder(p: HistogramPoint): nat { One(!HistogramNaN(p) && |p.bucketCounts| <= |p.bounds|) }

  function SummaryOver(p: SummaryPoint): nat {
    if p.sum.NaN? || AnyNaN(p.quantiles) then |p.quantiles| + 2 else 0
  }

  /** Exponential points are billed whether they are exported or not, and their buckets yield no sample rows. */
  function ExponentialOver(exported: bool): ExponentialPoint -> nat {
    (p: ExponentialPoint) =>
      |p.negative| + |p.positive|
      + if exported && !ExponentialNaN(p) then 0 else 1 + One(p.hasSum) + One(p.hasMin) + One(p.hasMax)
  }

  function OverbilledFor(enableExpHist: bool, m: Metric): nat {
    if Excluded(m.name) then 0
    else match m
      case Gauge(_, numbers) => Total(numbers, NumberOver)
      case Sum(_, numbers) => Total(numbers, NumberOver)
      case Histogram(_, points) => Total(points, HistogramOver)
      case Summary(_, points) => Total(points, SummaryOver)
      case ExponentialHistogram(_, isDelta, points) => Total(points, ExponentialOver(enableExpHist && isDelta))
      case Empty(_) => 0
  }

  function Overbilled(enableExpHist: bool): Metric -> nat { (m: Metric) => OverbilledFor(enableExpHist, m) }

  /** Excluded names are exported like any other. */
  function UnderbilledFor(enableExpHist: bool, m: Metric): nat {
    if Excluded(m.name) then RowsOf(enableExpHist, m)
      else if m.Histogram? then Total(m.histogram, HistogramUnder) else 0
  }

  function Underbilled(enableExpHist: bool): Metric -> nat { (m: Metric) => UnderbilledFor(enableExpHist, m) }

  function None<T>(): T -> nat { (t: T) => 0 }

  /** What holds of every entry holds of the totals. */
  lemma {:induction false} TotalBalance<T>(ts: seq<T>, n: nat, bill: T -> nat, under: T -> nat, rows: T -> nat,
                                           over: T -> nat)
    requires n <= |ts| && forall t :: t in ts ==> bill(t) + under(t) == rows(t) + over(t)
    ensures TotalTo(ts, n, bill) + TotalTo(ts, n, under) == TotalTo(ts, n, rows) + TotalTo(ts, n, over)
  {
    if n > 0 {
      TotalBalance(ts, n - 1, bill, under, rows, over);
      assert ts[n - 1] in ts;
    }
  }

  lemma NumbersBalance(numbers: seq<Number>)
    ensures |numbers| == Total(numbers, NumberRows) + Total(numbers, NumberOver)
  {
    UnitTotal(numbers, |numbers|, NumberBill);
    TotalZero(numbers, None<Number>());
    TotalBalance(numbers, |numbers|, NumberBill, None(), NumberRows, NumberOver);
  }

  lemma HistogramsBalance(points: seq<HistogramPoint>)
    ensures Total(points, HistogramBill) + Total(points, HistogramUnder)
              == Total(points, HistogramRows) + Total(points, HistogramOver)
  {
    TotalBalance(points, |points|, HistogramBill, HistogramUnder, HistogramRows, HistogramOver);
  }

  lemma SummariesBalance(points: seq<SummaryPoint>)
    ensures Total(points, SummaryBill) == Total(points, SummaryRows) + Total(points, SummaryOver)
  {
    TotalZero(points, None<SummaryPoint>());
    TotalBalance(points, |points|, SummaryBill, None(), SummaryRows, SummaryOver);
  }

  lemma ExponentialsBalance(points: seq<ExponentialPoint>, exported: bool)
    ensures Total(points, ExponentialBill) ==
            (if exported then Total(points, ExponentialRows) else 0) + Total(points, ExponentialOver(exported))
  {
    TotalZero(points, None<ExponentialPoint>());
    var rows := if exported then ExponentialRows else None();
    TotalBalance(points, |points|, ExponentialBill, None(), rows, ExponentialOver(exported));
  }

  /** For one metric, the bill and the rows without a bill are the rows and what is billed without a row;
      the collector's own metrics are billed nothing. */
  lemma MetricBalance(m: Metric, enableExpHist: bool)
    ensures MetricBill(m) + UnderbilledFor(enableExpHist, m)
              == RowsOf(enableExpHist, m) + OverbilledFor(enableExpHist, m)
    ensures "signoz" <= m.name || "otelcol" <= m.name ==> MetricBill(m) == 0 == OverbilledFor(enableExpHist, m)
  {
    match m {
      case Gauge(_, numbers) => NumbersBalance(numbers);
      case Sum(_, numbers) => NumbersBalance(numbers);
      case Histogram(_, points) => HistogramsBalance(points);
      case Summary(_, points) => SummariesBalance(points);
      case ExponentialHistogram(_, isDelta, points) => ExponentialsBalance(points, enableExpHist && isDelta);
      case Empty(_) =>
    }
  }

  function ScopeOver(enableExpHist: bool): seq<Metric> -> nat {
    (ms: seq<Metric>) => Total(ms, Overbilled(enableExpHist))
  }

  function ScopeUnder(enableExpHist: bool): seq<Metric> -> nat {
    (ms: seq<Metric>) => Total(ms, Underbilled(enableExpHist))
  }

  /** The same for a resource. */
  lemma Balance(scopes: Scopes, enableExpHist: bool)
    ensures Total(scopes, ScopeBill) + Total(scopes, ScopeUnder(enableExpHist))
            == Total(scopes, ScopeRows(enableExpHist)) + Total(scopes, ScopeOver(enableExpHist))
  {
    hide MetricBill, RowsOf, OverbilledFor, UnderbilledFor;
    forall ms: seq<Metric>
      ensures ScopeBill(ms) + ScopeUnder(enableExpHist)(ms)
                == ScopeRows(enableExpHist)(ms) + ScopeOver(enableExpHist)(ms)
    {
      forall m | m in ms
        ensures MetricBill(m) + Underbilled(enableExpHist)(m)
                  == MetricRows(enableExpHist)(m) + Overbilled(enableExpHist)(m)
      {
        MetricBalance(m, enableExpHist);
      }
      TotalBalance(ms, |ms|, MetricBill, Underbilled(enableExpHist), MetricRows(enableExpHist),
                   Overbilled(enableExpHist));
    }
    TotalBalance(scopes, |scopes|, ScopeBill, ScopeUnder(enableExpHist), ScopeRows(enableExpHist),
                 ScopeOver(enableExpHist));
  }

  // ---- Metrics billed exactly -----------------------------------------------------------------------------------

  predicate RegularHistogram(p: HistogramPoint) { !HistogramNaN(p) && |p.bucketCounts| == |p.bounds| + 1 }

  predicate RegularSummary(p: SummaryPoint) { !p.sum.NaN? && !AnyNaN(p.quantiles) }

  predicate RegularExponential(p: ExponentialPoint) { !ExponentialNaN(p) && p.positive == [] && p.negative == [] }

  /** No NaN, one bucket count more than bounds, and no exponential points but exported ones without buckets. */
  predicate Regular(enableExpHist: bool, m: Metric) {
    match m
    case Gauge(_, numbers) => forall v :: v in numbers ==> !v.NaN?
    case Sum(_, numbers) => forall v :: v in numbers ==> !v.NaN?
    case Histogram(_, points) => forall p :: p in points ==> RegularHistogram(p)
    case Summary(_, points) => forall p :: p in points ==> RegularSummary(p)
    case ExponentialHistogram(_, isDelta, points) =>
      ((enableExpHist && isDelta) || points == []) && forall p :: p in points ==> RegularExponential(p)
    case Empty(_) => true
  }

  lemma {:induction false} UnitTotal<T>(ts: seq<T>, n: nat, f: T -> nat)
    requires n <= |ts| && forall t :: t in ts ==> f(t) == 1
    ensures TotalTo(ts, n, f) == n
  {
    if n > 0 {
      UnitTotal(ts, n - 1, f);
      assert ts[n - 1] in ts;
    }
  }

  lemma ZeroOnlyIfAll<T>(ts: seq<T>, f: T -> nat)
    ensures Total(ts, f) == 0 <==> forall t :: t in ts ==> f(t) == 0
  {
    if Total(ts, f) == 0 {
      forall t | t in ts
        ensures f(t) == 0
      {
        var i :| 0 <= i < |ts| && ts[i] == t;
        TotalUpdate(ts, i, t, f);
      }
    } else if forall t :: t in ts ==> f(t) == 0 {
      TotalZero(ts, f);
    }
  }

  lemma NumbersExact(numbers: seq<Number>)
    ensures Total(numbers, NumberOver) == 0 <==> forall v :: v in numbers ==> !v.NaN?
  {
    ZeroOnlyIfAll(numbers, NumberOver);
    assert forall v :: NumberOver(v) == 0 <==> !v.NaN?;
  }

  /** A billed metric has nothing over and nothing under exactly when it is regular. */
  lemma ExactIffRegular(m: Metric, enableExpHist: bool)
    requires !("signoz" <= m.name) && !("otelcol" <= m.name)
    ensures OverbilledFor(enableExpHist, m) == 0 == UnderbilledFor(enableExpHist, m) <==> Regular(enableExpHist, m)
  {
    match m {
      case Gauge(_, numbers) => NumbersExact(numbers);
      case Sum(_, numbers) => NumbersExact(numbers);
      case Histogram(_, points) =>
        ZeroOnlyIfAll(points, HistogramOver);
        ZeroOnlyIfAll(points, HistogramUnder);
      case Summary(_, points) => ZeroOnlyIfAll(points, SummaryOver);
      case ExponentialHistogram(_, isDelta, points) =>
        ZeroOnlyIfAll(points, ExponentialOver(enableExpHist && isDelta));
        assert points != [] ==> points[0] in points;
      case Empty(_) =>
    }
  }

  /** All metrics are regular and under billed names. */
  predicate AllRegular(enableExpHist: bool, scopes: Scopes) {
    forall ms, m :: ms in scopes && m in ms ==>
      !("signoz" <= m.name) && !("otelcol" <= m.name) && Regular(enableExpHist, m)
  }

  lemma RegularBalance(scopes: Scopes, enableExpHist: bool)
    requires AllRegular(enableExpHist, scopes)
    ensures Total(scopes, ScopeOver(enableExpHist)) == 0 == Total(scopes, ScopeUnder(enableExpHist))
  {
    hide OverbilledFor, UnderbilledFor, Regular;
    forall ms | ms in scopes
      ensures ScopeOver(enableExpHist)(ms) == 0 == ScopeUnder(enableExpHist)(ms)
    {
      forall m | m in ms
        ensures Overbilled(enableExpHist)(m) == 0 == Underbilled(enableExpHist)(m)
      {
        ExactIffRegular(m, enableExpHist);
      }
      TotalZero(ms, Overbilled(enableExpHist));
      TotalZero(ms, Underbilled(enableExpHist));
    }
    TotalZero(scopes, ScopeOver(enableExpHist));
    TotalZero(scopes, ScopeUnder(enableExpHist));
  }

  /** The bill of a resource is the number of its sample rows exactly when what is billed without a row and what has
      a row without a bill come to the same; for regular metrics there is neither. */
  method BillMatchesRows(scopes: Scopes, enableExpHist: bool) returns (billed: nat, samples: seq<Row>)
    ensures billed + Total(scopes, ScopeUnder(enableExpHist)) == |samples| + Total(scopes, ScopeOver(enableExpHist))
    ensures billed == |samples| <==> Total(scopes, ScopeOver(enableExpHist)) == Total(scopes, ScopeUnder(enableExpHist))
    ensures AllRegular(enableExpHist, scopes) ==> billed == |samples|
    ensures NoNaN(samples)
  {
    billed := CountPerResource(scopes);
    samples := PrepareBatch(scopes, enableExpHist);
    RowsCounted(scopes, enableExpHist);
    NoNaNExported(scopes, enableExpHist);
    Balance(scopes, enableExpHist);
    if AllRegular(enableExpHist, scopes) {
      RegularBalance(scopes, enableExpHist);
    }
  }
}
