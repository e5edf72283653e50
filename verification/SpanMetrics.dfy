/** The histograms of the span metrics processor, and each key's dimensions in a DimensionsCache. */
module SpanMetrics {
  import opened Tally
  import opened DimensionsCache
  import opened LatencyHistogram

  type MetricKey = nat
  type Dimensions = map<string, string>

  datatype Point = Point(key: MetricKey, data: HistogramData, dimensions: Dimensions)
  datatype Sample = Sample(key: MetricKey, observation: Observation)

  function HasKey(k: MetricKey): Point -> nat { (p: Point) => if p.key == k then 1 else 0 }

  function PointBucket(k: MetricKey, i: nat): Point -> nat {
    (p: Point) => if p.key == k && i < |p.data.bucketCounts| then p.data.bucketCounts[i] else 0
  }

  function SampleFalls(k: MetricKey, bounds: seq<real>, i: nat): Sample -> nat {
    (s: Sample) => if s.key == k && Search(bounds, s.observation.latency, 0, |bounds|) == i then 1 else 0
  }

  /** `points` reports each histogram once, with its dimensions, and nothing else; the keys in `todo` are still to
      come. */
  ghost predicate Reported(points: seq<Point>, histograms: map<MetricKey, HistogramData>,
                           dims: map<MetricKey, Dimensions>, todo: set<MetricKey>)
  {
    && (forall k :: Total(points, HasKey(k)) == if k in histograms && k !in todo then 1 else 0)
    && (forall p :: p in points ==> p.key in histograms && p.data == histograms[p.key]
                                    && p.key in dims && p.dimensions == dims[p.key])
  }

  /** Every histogram is the exact bucketing of its log. */
  ghost predicate AllExact(histograms: map<MetricKey, HistogramData>, bounds: seq<real>,
                           log: map<MetricKey, seq<Observation>>)
  {
    && histograms.Keys == log.Keys
    && forall k :: k in histograms ==> Buckets(histograms[k], bounds, log[k])
  }

  function HistogramOf(histograms: map<MetricKey, HistogramData>, bounds: seq<real>, k: MetricKey): HistogramData {
    if k in histograms then histograms[k] else Fresh(bounds)
  }

  function LogOf(log: map<MetricKey, seq<Observation>>, k: MetricKey): seq<Observation> {
    if k in log then log[k] else []
  }

  lemma PutExact(histograms: map<MetricKey, HistogramData>, bounds: seq<real>, log: map<MetricKey, seq<Observation>>,
                 k: MetricKey, h: HistogramData, l: seq<Observation>)
    requires AllExact(histograms, bounds, log) && Buckets(h, bounds, l)
    ensures AllExact(histograms[k := h], bounds, log[k := l])
  {
  }

  /** The entries of the kept keys. */
  function Restricted(log: map<MetricKey, seq<Observation>>, kept: set<MetricKey>): map<MetricKey, seq<Observation>> {
    map k | k in log && k in kept :: log[k]
  }

  /** Histograms may be dropped, and exemplars. */
  lemma StillExact(before: map<MetricKey, HistogramData>, after: map<MetricKey, HistogramData>, bounds: seq<real>,
                   log: map<MetricKey, seq<Observation>>)
    requires AllExact(before, bounds, log) && after.Keys <= before.Keys
    requires forall k :: k in after ==> after[k] == before[k].(exemplars := [])
    ensures AllExact(after, bounds, Restricted(log, after.Keys))
  {
  }

  lemma ObserveExact(histograms: map<MetricKey, HistogramData>, bounds: seq<real>,
                     log: map<MetricKey, seq<Observation>>, k: MetricKey, o: Observation)
    requires AllExact(histograms, bounds, log)
    ensures |HistogramOf(histograms, bounds, k).bucketCounts| == |bounds| + 1
    ensures AllExact(histograms[k := Observe(HistogramOf(histograms, bounds, k), bounds, o)], bounds,
                     log[k := LogOf(log, k) + [o]])
  {
    var h := HistogramOf(histograms, bounds, k);
    assert Buckets(h, bounds, LogOf(log, k)) by { FreshBuckets(bounds); }
    ObserveBuckets(h, bounds, LogOf(log, k), o);
    PutExact(histograms, bounds, log, k, Observe(h, bounds, o), LogOf(log, k) + [o]);
  }

  lemma NoneReported(histograms: map<MetricKey, HistogramData>, dims: map<MetricKey, Dimensions>)
    ensures Reported([], histograms, dims, histograms.Keys)
  {
  }

  lemma ReportedSnoc(points: seq<Point>, histograms: map<MetricKey, HistogramData>, dims: map<MetricKey, Dimensions>,
                     todo: set<MetricKey>, p: Point)
    requires Reported(points, histograms, dims, todo) && p.key in todo
    requires p.key in histograms && p.data == histograms[p.key] && p.key in dims && p.dimensions == dims[p.key]
    ensures Reported(points + [p], histograms, dims, todo - {p.key})
  {
    forall k
      ensures Total(points + [p], HasKey(k)) == if k in histograms && k !in todo - {p.key} then 1 else 0
    {
      TotalSnoc(points, p, HasKey(k));
    }
  }

  // ---- What happened to an instrument ---------------------------------------------------------------------------

  /** `Seen` is one observation, with the dimensions of its span; `Made` a build that reported `points` and left the
      histograms of the keys in `kept`. */
  datatype Happening =
    | Seen(key: MetricKey, observation: Observation, dimensions: Dimensions)
    | Made(points: seq<Point>, kept: set<MetricKey>)

  type Story = seq<Happening>

  /** The observations of each histogram since its entry was created. */
  function LogIn(story: Story): map<MetricKey, seq<Observation>> {
    if story == [] then map[]
    else
      var log := LogIn(story[..|story| - 1]);
      match story[|story| - 1]
      case Seen(k, o, _) => log[k := LogOf(log, k) + [o]]
      case Made(_, kept) => Restricted(log, kept)
  }

  /** The dimensions each entry was created with. */
  function DimsIn(story: Story): map<MetricKey, Dimensions> {
    if story == [] then map[]
    else
      var dims := DimsIn(story[..|story| - 1]);
      match story[|story| - 1]
      case Seen(k, _, d) => if k in dims then dims else dims[k := d]
      case Made(_, kept) => map k | k in dims && k in kept :: dims[k]
  }

  /** What happened since the last build. */
  function SinceBuild(story: Story): Story {
    if story == [] || story[|story| - 1].Made? then []
    else SinceBuild(story[..|story| - 1]) + [story[|story| - 1]]
  }

  /** The observations of a key in a stretch of the history. */
  function OfKey(story: Story, k: MetricKey): seq<Observation> {
    if story == [] then []
    else
      var before, last := OfKey(story[..|story| - 1], k), story[|story| - 1];
      if last.Seen? && last.key == k then before + [last.observation] else before
  }

  /** All observations. */
  function SeenIn(story: Story): seq<Sample> {
    if story == [] then []
    else
      var before := SeenIn(story[..|story| - 1]);
      match story[|story| - 1] case Seen(k, o, _) => before + [Sample(k, o)] case Made(_, _) => before
  }

  /** The points of all builds. */
  function PointsIn(story: Story): seq<Point> {
    if story == [] then []
    else
      var before := PointsIn(story[..|story| - 1]);
      match story[|story| - 1] case Seen(_, _, _) => before case Made(points, _) => before + points
  }

  /** One point for each key of the log, whose data is the exact bucketing of the key's observations. */
  ghost predicate Exact(points: seq<Point>, bounds: seq<real>, log: map<MetricKey, seq<Observation>>) {
    && (forall k :: Total(points, HasKey(k)) == if k in log then 1 else 0)
    && (forall p :: p in points ==> p.key in log && Buckets(p.data, bounds, log[p.key]))
  }

  /** Each point has the dimensions its entry was created with, and the observations since the last build as
      exemplars. */
  ghost predicate Labelled(points: seq<Point>, dims: map<MetricKey, Dimensions>, recent: Story) {
    forall p :: p in points ==>
      p.key in dims && p.dimensions == dims[p.key] && p.data.exemplars == OfKey(recent, p.key)
  }

  /** A build under delta temporality keeps nothing. Another one keeps as many histograms as the cache may hold, and all
      of them if there are no more. */
  predicate KeptBy(delta: bool, size: nat, log: map<MetricKey, seq<Observation>>, kept: set<MetricKey>) {
    if delta then kept == {} else kept <= log.Keys && |kept| <= size && (|log.Keys| <= size ==> kept == log.Keys)
  }

  /** Every build reported exactly what was observed since the entries were created. */
  ghost predicate Truthful(story: Story, bounds: seq<real>, delta: bool, size: nat) {
    story == [] ||
    (var before, last := story[..|story| - 1], story[|story| - 1];
     Truthful(before, bounds, delta, size)
     && (last.Made? ==> && Exact(last.points, bounds, LogIn(before)) && KeptBy(delta, size, LogIn(before), last.kept)
                        && Labelled(last.points, DimsIn(before), SinceBuild(before))))
  }

  lemma StorySnoc(story: Story, h: Happening, bounds: seq<real>, delta: bool, size: nat)
    ensures LogIn(story + [h]) ==
            match h
            case Seen(k, o, _) => LogIn(story)[k := LogOf(LogIn(story), k) + [o]]
            case Made(_, kept) => Restricted(LogIn(story), kept)
    ensures DimsIn(story + [h]) ==
            match h
            case Seen(k, _, d) => if k in DimsIn(story) then DimsIn(story) else DimsIn(story)[k := d]
            case Made(_, kept) => map k | k in DimsIn(story) && k in kept :: DimsIn(story)[k]
    ensures SinceBuild(story + [h]) == if h.Made? then [] else SinceBuild(story) + [h]
    ensures Truthful(story + [h], bounds, delta, size) <==>
              && Truthful(story, bounds, delta, size)
              && (h.Made? ==> && Exact(h.points, bounds, LogIn(story)) && KeptBy(delta, size, LogIn(story), h.kept)
                              && Labelled(h.points, DimsIn(story), SinceBuild(story)))
  {
    hide Exact, KeptBy, Labelled;
    assert (story + [h])[..|story|] == story;
  }

  lemma OfKeySnoc(story: Story, h: Happening)
    ensures forall k :: OfKey(story + [h], k) ==
                        if h.Seen? && h.key == k then OfKey(story, k) + [h.observation] else OfKey(story, k)
  {
    assert (story + [h])[..|story|] == story;
  }

  lemma ReportedIsExact(points: seq<Point>, histograms: map<MetricKey, HistogramData>, dims: map<MetricKey, Dimensions>,
                        bounds: seq<real>, log: map<MetricKey, seq<Observation>>)
    requires Reported(points, histograms, dims, {}) && AllExact(histograms, bounds, log)
    ensures Exact(points, bounds, log)
  {
    hide Buckets;
  }

  /** The data is what a reader of it expects: the buckets add up to the number of observations, and each bucket of
      sorted bounds counts those above the bound before it and up to its own; of equal bounds, the first has the
      count. */
  ghost predicate Right(data: HistogramData, bounds: seq<real>, log: seq<Observation>) {
    && BucketSum(data.bucketCounts) == data.count == |log|
    && data.sum == SumOf(log)
    && |data.bucketCounts| == |bounds| + 1
    && (Sorted(bounds) ==>
          forall i :: 0 <= i <= |bounds| && (0 < i < |bounds| ==> bounds[i - 1] < bounds[i]) ==>
            data.bucketCounts[i] == Total(log, InInterval(bounds, i)))
  }

  lemma BucketsAreRight(data: HistogramData, bounds: seq<real>, log: seq<Observation>)
    requires Buckets(data, bounds, log)
    ensures Right(data, bounds, log)
  {
    BucketsSumToCount(data, bounds, log);
    if Sorted(bounds) {
      forall i | 0 <= i <= |bounds| && (0 < i < |bounds| ==> bounds[i - 1] < bounds[i])
        ensures data.bucketCounts[i] == Total(log, InInterval(bounds, i))
      {
        BucketsByInterval(data, bounds, log, i);
      }
    }
  }

  /** At the end of `story` there is no entry for `k`: none of its observations came after the last build that dropped
      it, if any did. */
  ghost predicate Absent(story: Story, k: MetricKey) {
    exists m :: 0 <= m <= |story| && Dropped(story, k, m) && forall i :: m <= i < |story| ==> !SeenAt(story, k, i)
  }

  predicate Dropped(story: Story, k: MetricKey, m: nat)
    requires m <= |story|
  {
    m == 0 || (story[m - 1].Made? && k !in story[m - 1].kept)
  }

  predicate SeenAt(story: Story, k: MetricKey, i: nat)
    requires i < |story|
  {
    story[i].Seen? && story[i].key == k
  }

  /** The entry that `k` has at the end of `story` was created by happening number `n`. */
  ghost predicate CreatedAt(story: Story, k: MetricKey, n: nat) {
    && n < |story| && SeenAt(story, k, n) && Absent(story[..n], k)
    && forall m :: n < m < |story| && story[m].Made? ==> k in story[m].kept
  }

  lemma {:induction false} AbsentIff(story: Story, k: MetricKey)
    ensures Absent(story, k) <==> k !in LogIn(story)
  {
    if story == [] {
      assert Dropped(story, k, 0);
    } else {
      var l := |story| - 1;
      var before := story[..l];
      AbsentIff(before, k);
      assert forall i :: 0 <= i < l ==> SeenAt(before, k, i) == SeenAt(story, k, i);
      assert forall m :: 0 <= m <= l ==> Dropped(before, k, m) == Dropped(story, k, m);
      if story[l].Made? && k !in story[l].kept {
        assert Dropped(story, k, l + 1);
      } else if Absent(before, k) && !SeenAt(story, k, l) {
        var m :| 0 <= m <= l && Dropped(before, k, m) && forall i :: m <= i < l ==> !SeenAt(before, k, i);
        assert Dropped(story, k, m);
      } else {
        forall m | 0 <= m <= |story| && Dropped(story, k, m)
          ensures exists i :: m <= i < |story| && SeenAt(story, k, i)
        {
          assert m <= l && Dropped(before, k, m);
          assert SeenAt(story, k, l) || exists i :: m <= i < l && SeenAt(before, k, i);
        }
      }
    }
  }

  /** Every point of every build is right: there is one for each key that has an entry, it bears the dimensions of the
      span that created the entry, its data is that of the key's observations since then, and its exemplars are those
      since the last build. */
  ghost predicate AllRight(story: Story, bounds: seq<real>) {
    forall n :: 0 <= n < |story| && story[n].Made? ==> PointsRight(story[n].points, bounds, story[..n])
  }

  ghost predicate PointsRight(points: seq<Point>, bounds: seq<real>, story: Story) {
    && (forall k :: Total(points, HasKey(k)) == if Absent(story, k) then 0 else 1)
    && forall p :: p in points ==> PointRight(p, bounds, story)
  }

  ghost predicate PointRight(p: Point, bounds: seq<real>, story: Story) {
    && p.data.exemplars == OfKey(SinceBuild(story), p.key)
    && exists n: nat :: && CreatedAt(story, p.key, n) && p.dimensions == story[n].dimensions
                        && Right(p.data, bounds, OfKey(story[n..], p.key))
  }

  lemma ExactIsRight(points: seq<Point>, bounds: seq<real>, story: Story)
    requires Exact(points, bounds, LogIn(story)) && Labelled(points, DimsIn(story), SinceBuild(story))
    ensures PointsRight(points, bounds, story)
  {
    hide Buckets, Right, LogIn, DimsIn, CreatedAt, Absent, SinceBuild;
    forall k
      ensures Total(points, HasKey(k)) == if Absent(story, k) then 0 else 1
    {
      AbsentIff(story, k);
    }
    forall p | p in points
      ensures PointRight(p, bounds, story)
    {
      BucketsAreRight(p.data, bounds, LogIn(story)[p.key]);
      var n := SinceCreated(story, p.key);
    }
  }

  lemma {:induction false} TruthfulIsRight(story: Story, bounds: seq<real>, delta: bool, size: nat)
    requires Truthful(story, bounds, delta, size)
    ensures AllRight(story, bounds)
  {
    hide LogIn, Exact, Labelled, PointsRight;
    if story != [] {
      var m := |story| - 1;
      TruthfulIsRight(story[..m], bounds, delta, size);
      if story[m].Made? {
        ExactIsRight(story[m].points, bounds, story[..m]);
      }
      forall n | 0 <= n < |story| && story[n].Made?
        ensures PointsRight(story[n].points, bounds, story[..n])
      {
        assert n < m ==> story[..m][n] == story[n] && story[..m][..n] == story[..n];
      }
    }
  }

  /** The log of a key is all that was observed of it since its entry was created, and no build has dropped it since;
      its dimensions are those it was created with. */
  lemma {:induction false} SinceCreated(story: Story, k: MetricKey) returns (n: nat)
    requires k in LogIn(story)
    ensures CreatedAt(story, k, n) && LogIn(story)[k] == OfKey(story[n..], k)
    ensures k in DimsIn(story) && DimsIn(story)[k] == story[n].dimensions
  {
    var l := |story| - 1;
    var before, last := story[..l], story[l];
    AbsentIff(before, k);
    SameKeysIn(before);
    if k in LogIn(before) {
      n := SinceCreated(before, k);
      assert story[..n] == before[..n] && story[n..][..l - n] == before[n..] && story[n..][l - n] == last;
    } else {
      n := l;
      assert story[n..] == [last] && [last][..0] == [];
      assert OfKey([last], k) == [] + [last.observation];
      assert LogIn(story)[k] == [] + [last.observation];
    }
  }

  lemma {:induction false} SameKeysIn(story: Story)
    ensures DimsIn(story).Keys == LogIn(story).Keys
  {
    if story != [] {
      SameKeysIn(story[..|story| - 1]);
    }
  }

  /** The exported counts and the pending ones of a bucket add up to the observations. */
  ghost predicate Counted(story: Story, bounds: seq<real>, k: MetricKey, i: nat) {
    Total(PointsIn(story), PointBucket(k, i)) + Total(LogOf(LogIn(story), k), Falls(bounds, i))
    == Total(SeenIn(story), SampleFalls(k, bounds, i))
  }

  /** Under delta temporality every observation is counted once. */
  lemma {:induction false} DeltaAccount(story: Story, bounds: seq<real>, size: nat, k: MetricKey, i: nat)
    requires Truthful(story, bounds, true, size) && i <= |bounds|
    ensures Counted(story, bounds, k, i)
  {
    if story != [] {
      var l := |story| - 1;
      var before, last := story[..l], story[l];
      DeltaAccount(before, bounds, size, k, i);
      match last {
        case Seen(key, o, _) =>
          TotalSnoc(SeenIn(before), Sample(key, o), SampleFalls(k, bounds, i));
          TotalSnoc(LogOf(LogIn(before), k), o, Falls(bounds, i));
        case Made(points, kept) =>
          TotalAppend(PointsIn(before), points, PointBucket(k, i));
          ExactBucket(points, bounds, LogIn(before), k, i);
          assert LogOf(LogIn(story), k) == [];
      }
    }
  }

  ghost predicate AllCounted(story: Story, bounds: seq<real>) {
    forall k: MetricKey, i: nat :: i <= |bounds| ==> Counted(story, bounds, k, i)
  }

  lemma DeltaCounts(story: Story, bounds: seq<real>, size: nat)
    requires Truthful(story, bounds, true, size)
    ensures AllCounted(story, bounds)
  {
    hide Truthful;
    forall k: MetricKey, i: nat | i <= |bounds|
      ensures Counted(story, bounds, k, i)
    {
      DeltaAccount(story, bounds, size, k, i);
    }
  }

  /** What a build reports for a bucket is what fell into it. */
  lemma ExactBucket(points: seq<Point>, bounds: seq<real>, log: map<MetricKey, seq<Observation>>, k: MetricKey, i: nat)
    requires Exact(points, bounds, log) && i <= |bounds|
    ensures Total(points, PointBucket(k, i)) == Total(LogOf(log, k), Falls(bounds, i))
  {
    KeyBucket(points, bounds, log, k, i);
    if k !in log {
      assert Total<Observation>([], Falls(bounds, i)) == 0;
    }
  }

  lemma {:induction false} KeyBucket(points: seq<Point>, bounds: seq<real>, log: map<MetricKey, seq<Observation>>,
                                     k: MetricKey, i: nat)
    requires i <= |bounds| && forall p :: p in points ==> p.key in log && Buckets(p.data, bounds, log[p.key])
    ensures Total(points, HasKey(k)) == 0 ==> Total(points, PointBucket(k, i)) == 0
    ensures Total(points, HasKey(k)) == 1 ==>
              k in log && Total(points, PointBucket(k, i)) == Total(log[k], Falls(bounds, i))
  {
    if points != [] {
      TotalHead(points, PointBucket(k, i));
      TotalHead(points, HasKey(k));
      assert points[0] in points;
      KeyBucket(points[1..], bounds, log, k, i);
    }
  }

  // ---- The code ---------------------------------------------------------------------------------------------------

  /** The histograms and the history of an instrument. */
  datatype Ledger = Ledger(histograms: map<MetricKey, HistogramData>, story: Story)

  /** One of the processor's five pairs of histogram map and dimensions cache. `story` is its history: the observations
      it was given and the builds that were made of it, in order. Metric keys and dimension maps are opaque here. */
  class Instrument {
    const bounds: seq<real>
    const dims: Cache<MetricKey, Dimensions>
    var histograms: map<MetricKey, HistogramData>
    const delta: bool
    ghost var story: Story

    /** Every histogram is the exact bucketing of its log, and the keys are those whose dimensions can be looked up. */
    ghost predicate Coherent(log: map<MetricKey, seq<Observation>>)
      reads this, dims
    {
      dims.Valid() && dims.Tidy() && AllExact(histograms, bounds, log) && histograms.Keys == dims.All().Keys
    }

    /** Exemplars are the observations since the last build. */
    ghost predicate Exemplified(recent: Story)
      reads this
    {
      forall k :: OfKey(recent, k) == if k in histograms then histograms[k].exemplars else []
    }

    ghost predicate Valid()
      reads this, dims
    {
      && Coherent(LogIn(story)) && Truthful(story, bounds, delta, dims.size)
      && dims.All() == DimsIn(story) && Exemplified(SinceBuild(story))
    }

    constructor (bounds: seq<real>, cacheSize: nat, delta: bool)
      requires cacheSize > 0
      ensures Valid() && fresh(this) && fresh(dims) && this.bounds == bounds && this.delta == delta
      ensures story == [] && dims.size == cacheSize
    {
      this.bounds, this.delta := bounds, delta;
      dims := new Cache<MetricKey, Dimensions>(cacheSize);
      histograms, story := map[], [];
    }

    /** cache, callCache and the like: look the key up, so that its recency is updated, and add it when missing. */
    method CacheDimensions(k: MetricKey, dimensions: Dimensions)
      requires dims.Valid() && dims.Tidy()
      modifies dims
      ensures dims.Valid() && dims.Tidy()
      ensures dims.All() == if k in old(dims.All()) then old(dims.All()) else old(dims.All())[k := dimensions]
    {
      var _, has := dims.Get(k);
      if !has {
        var _ := dims.Add(k, dimensions);
      }
    }

    /** The histogram of a key with one more observation. */
    method WithSample(k: MetricKey, o: Observation) returns (histo: HistogramData)
      requires |HistogramOf(histograms, bounds, k).bucketCounts| == |bounds| + 1
      ensures histo == Observe(HistogramOf(histograms, bounds, k), bounds, o)
    {
      histo := if k in histograms then histograms[k] else Fresh(bounds);
      var index := SearchFloat64s(bounds, o.latency);
      histo := HistogramData(histo.count + 1, histo.sum + o.latency,
                             histo.bucketCounts[index := histo.bucketCounts[index] + 1], histo.exemplars + [o]);
    }

    /** updateHistogram, updateCallHistogram and the like. */
    method Update(k: MetricKey, o: Observation, ghost d: Dimensions)
      requires AllExact(histograms, bounds, LogIn(story)) && Truthful(story, bounds, delta, dims.size)
      requires Exemplified(SinceBuild(story))
      modifies this`histograms, this`story
      ensures story == old(story) + [Seen(k, o, d)] && histograms.Keys == old(histograms).Keys + {k}
      ensures AllExact(histograms, bounds, LogIn(story)) && Truthful(story, bounds, delta, dims.size)
      ensures DimsIn(story) == if k in DimsIn(old(story)) then DimsIn(old(story)) else DimsIn(old(story))[k := d]
      ensures Exemplified(SinceBuild(story))
    {
      hide AllExact, Observe, HistogramOf, LogOf, LogIn, DimsIn, SinceBuild, OfKey, Truthful;
      ObserveExact(histograms, bounds, LogIn(story), k, o);
      ExemplarAdded(k, o);
      OfKeySnoc(SinceBuild(story), Seen(k, o, d));
      StorySnoc(story, Seen(k, o, d), bounds, delta, dims.size);
      var histo := WithSample(k, o);
      histograms := histograms[k := histo];
      story := story + [Seen(k, o, d)];
    }

    lemma ExemplarAdded(k: MetricKey, o: Observation)
      requires |HistogramOf(histograms, bounds, k).bucketCounts| == |bounds| + 1
      ensures Observe(HistogramOf(histograms, bounds, k), bounds, o).exemplars
              == (if k in histograms then histograms[k].exemplars else []) + [o]
    {
    }

    /** One observation: its key's dimensions are cached, then its histogram is updated. */
    method Record(k: MetricKey, dimensions: Dimensions, o: Observation)
      requires Valid()
      modifies this`histograms, this`story, dims
      ensures Valid() && story == old(story) + [Seen(k, o, dimensions)]
    {
      hide AllExact, LogIn, DimsIn, SinceBuild, OfKey, Truthful, Cache.Valid, Cache.Tidy, Cache.All;
      CacheDimensions(k, dimensions);
      Update(k, o, dimensions);
    }

    /** collectLatencyMetrics and the like, in whatever order the map is iterated: no lookup ever fails, although
        each lookup may revive one entry of the cache and evict another. */
    method Collect() returns (points: seq<Point>, ok: bool)
      requires Valid()
      modifies dims
      ensures Valid() && ok && dims.All() == old(dims.All())
      ensures Reported(points, histograms, dims.All(), {})
    {
      hide AllExact, LogIn, DimsIn, SinceBuild, OfKey, Truthful, Reported, Cache.Valid, Cache.Tidy, Cache.All;
      NoneReported(histograms, dims.All());
      KeysHeld();
      points, ok := [], true;
      var keys := histograms.Keys;
      ghost var all := dims.All();
      while keys != {} && ok
        invariant ok && dims.Valid() && dims.Tidy() && dims.All() == all
        invariant keys <= histograms.Keys && Reported(points, histograms, all, keys)
        decreases |keys|
      {
        var k :| k in keys;
        var attributes;
        attributes, ok := dims.Get(k);
        if ok {
          ReportedSnoc(points, histograms, all, keys, Point(k, histograms[k], attributes));
          points := points + [Point(k, histograms[k], attributes)];
        }
        keys := keys - {k};
      }
    }

    /** Delete the histograms of the keys that the LRU no longer holds. */
    method DropUnheld()
      modifies this`histograms
      ensures histograms.Keys == old(histograms).Keys * dims.items.Keys
      ensures forall k :: k in histograms ==> histograms[k] == old(histograms)[k]
    {
      var keys := histograms.Keys;
      while keys != {}
        invariant keys <= histograms.Keys <= old(histograms).Keys
        invariant forall k :: k in histograms ==> histograms[k] == old(histograms)[k]
        invariant forall k :: k in old(histograms) && k !in keys ==> (k in histograms <==> k in dims.items)
        decreases |keys|
      {
        var k :| k in keys;
        keys := keys - {k};
        var held := dims.Contains(k);
        if !held {
          histograms := histograms - {k};
        }
      }
    }

    /** The end of a build: forget what the cache evicted, and the histograms of the keys it no longer holds. If
        there were no more keys than it may hold, nothing is forgotten. */
    method Prune()
      requires dims.Valid() && dims.Tidy() && histograms.Keys == dims.All().Keys
      modifies this`histograms, dims`evictedItems
      ensures dims.Valid() && dims.Tidy() && histograms.Keys == dims.All().Keys && dims.All() == dims.items
      ensures histograms.Keys == old(histograms).Keys * dims.items.Keys && |histograms.Keys| <= dims.size
      ensures forall k :: k in histograms ==> histograms[k] == old(histograms)[k]
      ensures forall k :: k in dims.All() ==> k in old(dims.All()) && dims.All()[k] == old(dims.All())[k]
      ensures |old(histograms).Keys| <= dims.size ==> histograms.Keys == old(histograms).Keys
    {
      hide Cache.Valid, Cache.Tidy, Cache.All;
      dims.HeldIsRetrievable();
      dims.RemoveEvictedItems();
      DropUnheld();
      dims.Bounded(histograms.Keys);
    }

    /** resetAccumulatedMetrics. */
    method Reset()
      requires dims.Valid()
      modifies this`histograms, dims
      ensures dims.Valid() && dims.Tidy() && histograms == map[] && dims.All() == map[] && dims.items == map[]
    {
      histograms := map[];
      dims.Purge();
    }

    /** resetExemplarData. */
    method ResetExemplars()
      modifies this`histograms
      ensures histograms.Keys == old(histograms).Keys
      ensures forall k :: k in histograms ==> histograms[k] == old(histograms)[k].(exemplars := [])
    {
      var keys := histograms.Keys;
      while keys != {}
        invariant keys <= histograms.Keys == old(histograms).Keys
        invariant forall k :: k in histograms ==>
                    histograms[k] == if k in keys then old(histograms)[k] else old(histograms)[k].(exemplars := [])
        decreases |keys|
      {
        var k :| k in keys;
        keys := keys - {k};
        histograms := histograms[k := histograms[k].(exemplars := [])];
      }
    }

    /** The histogram keys lie within the LRU, so there are at most as many as it may hold. */
    ghost predicate WithinCache()
      reads this, dims
    {
      histograms.Keys <= dims.items.Keys && |histograms.Keys| <= dims.size
    }

    /** What buildMetrics does to an instrument after its points were collected: prune it, reset it under delta
        temporality, and drop the exemplars. */
    method Finish()
      requires dims.Valid() && dims.Tidy() && histograms.Keys == dims.All().Keys
      modifies this`histograms, dims
      ensures dims.Valid() && dims.Tidy() && histograms.Keys == dims.All().Keys && dims.All() == dims.items
      ensures WithinCache() && histograms.Keys <= old(histograms).Keys
      ensures forall k :: k in dims.All() ==> k in old(dims.All()) && dims.All()[k] == old(dims.All())[k]
      ensures forall k :: k in histograms ==> histograms[k] == old(histograms)[k].(exemplars := [])
      ensures if delta then histograms == map[] else histograms.Keys == old(histograms).Keys * dims.items.Keys
      ensures !delta && |old(histograms).Keys| <= dims.size ==> histograms.Keys == old(histograms).Keys
    {
      hide NoRepeats, Cache.Valid, Cache.Tidy, Cache.All;
      Prune();
      if delta {
        Reset();
      }
      ResetExemplars();
    }

    ghost function Books(): Ledger
      reads this
    {
      Ledger(histograms, story)
    }

    /** What a build that reported `points` leaves: keys within the LRU; under delta temporality nothing, otherwise the
        histograms of the keys still held, less their exemplars. */
    ghost predicate Built(before: Ledger, points: seq<Point>)
      reads this, dims
    {
      && WithinCache() && story == before.story + [Made(points, histograms.Keys)]
      && (if delta then histograms == map[] else histograms.Keys == before.histograms.Keys * dims.items.Keys)
      && forall k :: k in histograms ==>
           k in before.histograms && histograms[k] == before.histograms[k].(exemplars := [])
    }

    /** Finish, after a build that reported `points`. */
    method RecordBuild(ghost points: seq<Point>)
      requires Valid() && Reported(points, histograms, dims.All(), {})
      modifies this`histograms, this`story, dims
      ensures Valid() && WithinCache() && dims.All() == dims.items
              && story == old(story) + [Made(points, histograms.Keys)]
      ensures if delta then histograms == map[] else histograms.Keys == old(histograms).Keys * dims.items.Keys
      ensures histograms.Keys <= old(histograms).Keys
      ensures forall k :: k in histograms ==> histograms[k] == old(histograms)[k].(exemplars := [])
    {
      hide Valid, AllExact, Reported, LogIn, DimsIn, SinceBuild, OfKey, Truthful, Exact, Labelled, Restricted;
      hide Cache.Valid, Cache.Tidy, Cache.All;
      ghost var log, labels := LogIn(story), DimsIn(story);
      BeforeBuild(points);
      Finish();
      StillExact(old(histograms), histograms, bounds, log);
      StillLabelled(labels, dims.All(), histograms.Keys);
      story := story + [Made(points, histograms.Keys)];
      AfterBuild(old(story), points);
    }

    /** What a build needs of a valid instrument. */
    lemma BeforeBuild(points: seq<Point>)
      requires Valid() && Reported(points, histograms, dims.All(), {})
      ensures dims.Valid() && dims.Tidy() && histograms.Keys == dims.All().Keys == LogIn(story).Keys
      ensures AllExact(histograms, bounds, LogIn(story)) && Truthful(story, bounds, delta, dims.size)
      ensures dims.All() == DimsIn(story)
      ensures Exact(points, bounds, LogIn(story)) && Labelled(points, DimsIn(story), SinceBuild(story))
    {
      hide LogIn, DimsIn, SinceBuild, OfKey, Truthful, Exact, Labelled, Reported, Cache.Valid, Cache.Tidy, Cache.All;
      ReportedIsExact(points, histograms, dims.All(), bounds, LogIn(story));
      ReportedIsLabelled(points);
    }

    /** And what makes it valid again. */
    lemma AfterBuild(before: Story, points: seq<Point>)
      requires story == before + [Made(points, histograms.Keys)] && Truthful(before, bounds, delta, dims.size)
      requires dims.Valid() && dims.Tidy() && histograms.Keys == dims.All().Keys
      requires AllExact(histograms, bounds, Restricted(LogIn(before), histograms.Keys))
      requires dims.All() == map k | k in DimsIn(before) && k in histograms :: DimsIn(before)[k]
      requires Exact(points, bounds, LogIn(before)) && Labelled(points, DimsIn(before), SinceBuild(before))
      requires KeptBy(delta, dims.size, LogIn(before), histograms.Keys)
      requires forall k :: k in histograms ==> histograms[k].exemplars == []
      ensures Valid()
    {
      hide AllExact, LogIn, DimsIn, SinceBuild, Truthful, Exact, Labelled, Restricted, KeptBy, Cache.Valid, Cache.Tidy;
      hide Cache.All;
      StorySnoc(before, Made(points, histograms.Keys), bounds, delta, dims.size);
      NothingSince();
    }

    method FinishBuild(ghost points: seq<Point>)
      requires Valid() && Reported(points, histograms, dims.All(), {})
      modifies this`histograms, this`story, dims
      ensures Valid() && dims.All() == dims.items && Built(old(Books()), points)
    {
      hide Valid, Reported, Cache.All, WithinCache;
      RecordBuild(points);
    }

    lemma ReportedIsLabelled(points: seq<Point>)
      requires Valid() && Reported(points, histograms, dims.All(), {})
      ensures Labelled(points, DimsIn(story), SinceBuild(story))
    {
      hide AllExact, DimsIn, SinceBuild, OfKey, Total, Truthful, LogIn;
    }

    lemma StillLabelled(before: map<MetricKey, Dimensions>, after: map<MetricKey, Dimensions>, kept: set<MetricKey>)
      requires after.Keys == kept && forall k :: k in after ==> k in before && after[k] == before[k]
      ensures after == map k | k in before && k in kept :: before[k]
    {
    }

    lemma NothingSince()
      ensures forall k :: OfKey([], k) == []
    {
    }

    lemma KeysHeld()
      requires Valid()
      ensures histograms.Keys == dims.All().Keys
    {
    }
  }
}
