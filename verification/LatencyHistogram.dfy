/** The explicit-bucket histograms of the span metrics processor: what one update does, and what the buckets of a
    histogram mean for the latencies it was given. */
module LatencyHistogram {
  import opened Tally

  datatype Observation = Observation(traceID: nat, spanID: nat, latency: real)

  datatype HistogramData = HistogramData(
    count: nat, sum: real, bucketCounts: seq<nat>, exemplars: seq<Observation>)

  predicate Sorted(bounds: seq<real>) { forall i, j :: 0 <= i < j < |bounds| ==> bounds[i] <= bounds[j] }

  /** The index the binary search between `lo` and `hi` ends at, whatever the bounds are. */
  function Search(bounds: seq<real>, x: real, lo: nat, hi: nat): (i: nat)
    requires lo <= hi <= |bounds|
    ensures lo <= i <= hi
    decreases hi - lo
  {
    if lo == hi then lo
    else
      var mid := (lo + hi) / 2;
      if bounds[mid] < x then Search(bounds, x, mid + 1, hi) else Search(bounds, x, lo, mid)
  }

  /** sort.SearchFloat64s. */
  method SearchFloat64s(bounds: seq<real>, x: real) returns (i: nat)
    ensures i == Search(bounds, x, 0, |bounds|)
  {
    var j: nat;
    i, j := 0, |bounds|;
    while i < j
      invariant i <= j <= |bounds|
      invariant Search(bounds, x, i, j) == Search(bounds, x, 0, |bounds|)
      decreases j - i
    {
      var h := (i + j) / 2;
      if bounds[h] < x {
        i := h + 1;
      } else {
        j := h;
      }
    }
  }

  /** Bucket `i` of sorted bounds is the interval (bounds[i-1], bounds[i]], open-ended on both sides. */
  predicate InBucket(bounds: seq<real>, i: nat, x: real)
    requires i <= |bounds|
  {
    (i > 0 ==> bounds[i - 1] < x) && (i < |bounds| ==> x <= bounds[i])
  }

  lemma {:induction false} SearchFindsBucket(bounds: seq<real>, x: real, lo: nat, hi: nat)
    requires lo <= hi <= |bounds| && Sorted(bounds)
    requires (lo > 0 ==> bounds[lo - 1] < x) && (hi < |bounds| ==> x <= bounds[hi])
    ensures InBucket(bounds, Search(bounds, x, lo, hi), x)
    decreases hi - lo
  {
    if lo < hi {
      var mid := (lo + hi) / 2;
      if bounds[mid] < x {
        SearchFindsBucket(bounds, x, mid + 1, hi);
      } else {
        SearchFindsBucket(bounds, x, lo, mid);
      }
    }
  }

  /** With sorted bounds the search returns the one bucket that contains `x`. */
  lemma BucketIsUnique(bounds: seq<real>, x: real, i: nat)
    requires Sorted(bounds) && i <= |bounds|
    ensures Search(bounds, x, 0, |bounds|) == i <==>
            InBucket(bounds, i, x) && forall j :: 0 <= j < i ==> !InBucket(bounds, j, x)
    ensures InBucket(bounds, Search(bounds, x, 0, |bounds|), x)
  {
    SearchFindsBucket(bounds, x, 0, |bounds|);
    var k := Search(bounds, x, 0, |bounds|);
    forall j | 0 <= j < k
      ensures !InBucket(bounds, j, x)
    {
      assert bounds[j] <= bounds[k - 1];
    }
  }

  function Fresh(bounds: seq<real>): HistogramData {
    HistogramData(0, 0.0, seq(|bounds| + 1, _ => 0), [])
  }

  function Observe(h: HistogramData, bounds: seq<real>, o: Observation): HistogramData
    requires |h.bucketCounts| == |bounds| + 1
  {
    var i := Search(bounds, o.latency, 0, |bounds|);
    HistogramData(h.count + 1, h.sum + o.latency, h.bucketCounts[i := h.bucketCounts[i] + 1], h.exemplars + [o])
  }

  /** Whether an observation falls into bucket `i`. */
  function Falls(bounds: seq<real>, i: nat): Observation -> nat {
    (o: Observation) => if Search(bounds, o.latency, 0, |bounds|) == i then 1 else 0
  }

  function SumOf(log: seq<Observation>): real {
    if log == [] then 0.0 else SumOf(log[..|log| - 1]) + log[|log| - 1].latency
  }

  /** Every latency is in the sum once. */
  lemma {:induction false} SumOfEach(log: seq<Observation>, o: Observation, more: seq<Observation>)
    ensures SumOf(log + [o] + more) == SumOf(log + more) + o.latency
  {
    if more == [] {
      assert log + [o] + more == log + [o] && log + more == log && (log + [o])[..|log|] == log;
    } else {
      var n := |more| - 1;
      SumOfEach(log, o, more[..n]);
      assert (log + [o] + more)[..|log| + 1 + n] == log + [o] + more[..n];
      assert (log + more)[..|log| + n] == log + more[..n];
    }
  }

  function Itself(c: nat): nat { c }

  function BucketSum(counts: seq<nat>): nat { Total(counts, Itself) }

  /** `h` is the exact bucketing of `log`; its exemplars are the observations since the last export. */
  ghost predicate Buckets(h: HistogramData, bounds: seq<real>, log: seq<Observation>) {
    && h.count == |log|
    && h.sum == SumOf(log)
    && |h.bucketCounts| == |bounds| + 1
    && (forall i :: 0 <= i <= |bounds| ==> h.bucketCounts[i] == Total(log, Falls(bounds, i)))
    && |h.exemplars| <= |log| && h.exemplars == log[|log| - |h.exemplars|..]
  }

  lemma FreshBuckets(bounds: seq<real>)
    ensures Buckets(Fresh(bounds), bounds, [])
  {
  }

  lemma ObserveBuckets(h: HistogramData, bounds: seq<real>, log: seq<Observation>, o: Observation)
    requires Buckets(h, bounds, log)
    ensures Buckets(Observe(h, bounds, o), bounds, log + [o])
  {
    var h' := Observe(h, bounds, o);
    forall i | 0 <= i <= |bounds|
      ensures h'.bucketCounts[i] == Total(log + [o], Falls(bounds, i))
    {
      TotalSnoc(log, o, Falls(bounds, i));
    }
    assert (log + [o])[..|log|] == log;
    assert log + [o] == log[..|log| - |h.exemplars|] + h'.exemplars by {
      assert log == log[..|log| - |h.exemplars|] + h.exemplars;
    }
  }

  /** The buckets of a histogram sum to its count, for any bounds. */
  lemma {:induction false} BucketsSumToCount(h: HistogramData, bounds: seq<real>, log: seq<Observation>)
    requires Buckets(h, bounds, log)
    ensures BucketSum(h.bucketCounts) == h.count
    decreases |log|
  {
    if log == [] {
      TotalZero(h.bucketCounts, Itself);
    } else {
      var o, before := log[|log| - 1], log[..|log| - 1];
      var i := Search(bounds, o.latency, 0, |bounds|);
      var counts: seq<nat> := seq<nat>(|bounds| + 1, j requires 0 <= j <= |bounds| => Total(before, Falls(bounds, j)));
      assert log == before + [o];
      forall j | 0 <= j <= |bounds|
        ensures h.bucketCounts[j] == counts[j] + (if j == i then 1 else 0)
      {
        TotalSnoc(before, o, Falls(bounds, j));
      }
      BucketsSumToCount(HistogramData(|before|, SumOf(before), counts, []), bounds, before);
      assert h.bucketCounts == counts[i := counts[i] + 1];
      TotalUpdate<nat>(counts, i, counts[i] + 1, Itself);
    }
  }

  /** Whether a latency is above the bound before bucket `i` and not above its own. */
  function InInterval(bounds: seq<real>, i: nat): Observation -> nat
    requires i <= |bounds|
  {
    (o: Observation) =>
      if (i > 0 ==> bounds[i - 1] < o.latency) && (i < |bounds| ==> o.latency <= bounds[i]) then 1 else 0
  }

  /** With sorted bounds, bucket `i` counts exactly the latencies above bounds[i-1] and up to bounds[i]; of equal
      bounds, the first has the count. */
  lemma BucketsByInterval(h: HistogramData, bounds: seq<real>, log: seq<Observation>, i: nat)
    requires Buckets(h, bounds, log) && Sorted(bounds) && i <= |bounds|
    requires i > 0 && i < |bounds| ==> bounds[i - 1] < bounds[i]
    ensures h.bucketCounts[i] == Total(log, InInterval(bounds, i))
  {
    forall o: Observation
      ensures Falls(bounds, i)(o) == InInterval(bounds, i)(o)
    {
      BucketIsUnique(bounds, o.latency, i);
      if InBucket(bounds, i, o.latency) {
        forall j | 0 <= j < i
          ensures !InBucket(bounds, j, o.latency)
        {
          assert bounds[j] <= bounds[i - 1];
        }
      }
    }
    TotalSame(log, Falls(bounds, i), InInterval(bounds, i));
  }

  lemma {:induction false} TotalSame<T>(ts: seq<T>, f: T -> nat, g: T -> nat)
    requires forall t :: t in ts ==> f(t) == g(t)
    ensures Total(ts, f) == Total(ts, g)
  {
    if ts != [] {
      TotalHead(ts, f);
      TotalHead(ts, g);
      assert ts[0] in ts;
      TotalSame(ts[1..], f, g);
    }
  }
}
