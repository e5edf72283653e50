/** The span metrics processor as a whole: five instruments fed from accepted spans and exported by builds. The
    histories of its instruments are the accepted spans and the builds' points, under both temporalities. */
module SpanMetricsProcessor {
  import opened Tally
  import opened DimensionsCache
  import opened LatencyHistogram
  import opened SpanMetrics

  datatype SpanKind = Unspecified | Internal | Server | Client | Producer | Consumer

  datatype Label = Label(key: MetricKey, dimensions: Dimensions)

  /** A span, with the keys and dimensions the processor builds for it. `excluded` is the outcome of the exclude
      patterns, `remoteAddress` and `dbSystem` whether the span has these attributes. Times are in nanoseconds. */
  datatype Span = Span(
    traceID: nat, spanID: nat, startTime: nat, endTime: nat, kind: SpanKind, excluded: bool,
    remoteAddress: bool, dbSystem: bool,
    latency: Label, exp: Label, call: Label, external: Label, db: Label)

  datatype Config = Config(delta: bool, enableExpHistogram: bool, skipSpansOlderThan: nat)

  const NANOS_PER_MILLI := 1_000_000.0

  function LatencyMs(s: Span): real {
    if s.endTime > s.startTime then (s.endTime - s.startTime) as real / NANOS_PER_MILLI else 0.0
  }

  function ObservationOf(s: Span): Observation { Observation(s.traceID, s.spanID, LatencyMs(s)) }

  /** Whether the span is aggregated at time `now`. */
  predicate Accepted(c: Config, s: Span, now: int) {
    !(c.skipSpansOlderThan > 0 && s.startTime < now - c.skipSpansOlderThan) && !s.excluded
  }

  datatype Metrics = Metrics(
    calls: seq<Point>, latency: seq<Point>, external: seq<Point>, db: seq<Point>, exp: seq<Point>)

  /** The history with an observation for a label when `on`. */
  function Told(story: Story, on: bool, l: Label, o: Observation): Story {
    if on then story + [Seen(l.key, o, l.dimensions)] else story
  }

  class Processor {
    const config: Config
    const latency: Instrument
    const calls: Instrument
    const external: Instrument
    const db: Instrument
    const exp: Instrument

    ghost predicate Separate()
      reads this
    {
      && latency !in {calls, external, db, exp} && calls !in {external, db, exp} && external !in {db, exp} && db != exp
      && latency.dims !in {calls.dims, external.dims, db.dims, exp.dims}
      && calls.dims !in {external.dims, db.dims, exp.dims} && external.dims !in {db.dims, exp.dims}
         && db.dims != exp.dims
    }

    ghost predicate Valid()
      reads this, latency, calls, external, db, exp
      reads latency.dims, calls.dims, external.dims, db.dims, exp.dims
    {
      && Separate()
      && latency.Valid() && calls.Valid() && external.Valid() && db.Valid() && exp.Valid()
      && latency.delta == calls.delta == external.delta == db.delta == exp.delta == config.delta
    }

    constructor (config: Config, bounds: seq<real>, dimensionsCacheSize: nat)
      requires dimensionsCacheSize > 0
      ensures Valid() && this.config == config
    {
      hide Instrument.Valid;
      this.config := config;
      latency := new Instrument(bounds, dimensionsCacheSize, config.delta);
      calls := new Instrument(bounds, dimensionsCacheSize, config.delta);
      external := new Instrument(bounds, dimensionsCacheSize, config.delta);
      db := new Instrument(bounds, dimensionsCacheSize, config.delta);
      exp := new Instrument(bounds, dimensionsCacheSize, config.delta);
    }

    /** The latency and call histograms that every accepted span reaches. */
    method RecordCalls(s: Span, o: Observation)
      requires Separate() && latency.Valid() && exp.Valid() && calls.Valid()
      modifies latency, latency.dims, exp, exp.dims, calls, calls.dims
      ensures latency.Valid() && exp.Valid() && calls.Valid()
      ensures latency.story == Told(old(latency.story), true, s.latency, o)
      ensures exp.story == Told(old(exp.story), config.enableExpHistogram, s.exp, o)
      ensures calls.story == Told(old(calls.story), true, s.call, o)
    {
      hide AllExact, NoRepeats, LogIn, Truthful, Instrument.Valid;
      latency.Record(s.latency.key, s.latency.dimensions, o);
      if config.enableExpHistogram {
        exp.Record(s.exp.key, s.exp.dimensions, o);
      }
      calls.Record(s.call.key, s.call.dimensions, o);
    }

    /** The histograms of external calls and database calls. */
    method RecordOutgoing(s: Span, o: Observation)
      requires Separate() && external.Valid() && db.Valid()
      modifies external, external.dims, db, db.dims
      ensures external.Valid() && db.Valid()
      ensures external.story == Told(old(external.story), s.kind.Client? && s.remoteAddress, s.external, o)
      ensures db.story == Told(old(db.story), !s.kind.Server? && s.dbSystem, s.db, o)
    {
      hide AllExact, NoRepeats, LogIn, Truthful, Instrument.Valid;
      if s.kind.Client? && s.remoteAddress {
        external.Record(s.external.key, s.external.dimensions, o);
      }
      if !s.kind.Server? && s.dbSystem {
        db.Record(s.db.key, s.db.dimensions, o);
      }
    }

    /** An accepted span reaches its instruments. */
    method RecordSpan(s: Span, o: Observation)
      requires Valid()
      modifies latency, calls, external, db, exp
      modifies latency.dims, calls.dims, external.dims, db.dims, exp.dims
      ensures Valid()
      ensures latency.story == old(latency.story) + [Seen(s.latency.key, o, s.latency.dimensions)]
              && calls.story == old(calls.story) + [Seen(s.call.key, o, s.call.dimensions)]
      ensures exp.story == Told(old(exp.story), config.enableExpHistogram, s.exp, o)
      ensures external.story == Told(old(external.story), s.kind.Client? && s.remoteAddress, s.external, o)
      ensures db.story == Told(old(db.story), !s.kind.Server? && s.dbSystem, s.db, o)
    {
      hide AllExact, NoRepeats, LogIn, Truthful, Instrument.Valid;
      RecordCalls(s, o);
      RecordOutgoing(s, o);
    }

    /** aggregateMetricsForSpan: which instruments a span reaches, and with which latency. */
    method AggregateSpan(s: Span, now: int)
      requires Valid()
      modifies latency, calls, external, db, exp
      modifies latency.dims, calls.dims, external.dims, db.dims, exp.dims
      ensures Valid()
      ensures forall w :: StoryOf(Stories(), w) ==
                          Told(StoryOf(old(Stories()), w), Accepted(config, s, now)
                               && Reaches(config, s, w), LabelOf(s, w), ObservationOf(s))
    {
      hide Instrument.Valid, Separate;
      if config.skipSpansOlderThan > 0 && s.startTime < now - config.skipSpansOlderThan {
        return;
      }
      if s.excluded {
        return;
      }
      var latencyInMilliseconds := 0.0;
      if s.endTime > s.startTime {
        latencyInMilliseconds := (s.endTime - s.startTime) as real / NANOS_PER_MILLI;
      }
      var o := Observation(s.traceID, s.spanID, latencyInMilliseconds);
      assert o == ObservationOf(s);
      RecordSpan(s, o);
    }

    /** The first three collectors, with the early return on the first lookup that fails. None does. */
    method CollectFirst() returns (m: Metrics, ok: bool)
      requires Valid()
      modifies latency.dims, calls.dims, external.dims
      ensures latency.Valid() && calls.Valid() && external.Valid() && ok
      ensures latency.dims.All() == old(latency.dims.All()) && calls.dims.All() == old(calls.dims.All())
      ensures external.dims.All() == old(external.dims.All())
      ensures Reported(m.calls, calls.histograms, calls.dims.All(), {})
      ensures Reported(m.latency, latency.histograms, latency.dims.All(), {})
      ensures Reported(m.external, external.histograms, external.dims.All(), {})
    {
      hide AllExact, NoRepeats, Reported, LogIn, Truthful;
      m := Metrics([], [], [], [], []);
      var points;
      points, ok := calls.Collect();
      m := m.(calls := points);
      if ok {
        points, ok := latency.Collect();
        m := m.(latency := points);
      }
      if ok {
        points, ok := external.Collect();
        m := m.(external := points);
      }
    }

    /** The last two collectors. */
    method CollectLast() returns (dbPoints: seq<Point>, expPoints: seq<Point>, ok: bool)
      requires Valid()
      modifies db.dims, exp.dims
      ensures db.Valid() && exp.Valid() && ok
      ensures db.dims.All() == old(db.dims.All()) && exp.dims.All() == old(exp.dims.All())
      ensures Reported(dbPoints, db.histograms, db.dims.All(), {})
      ensures Reported(expPoints, exp.histograms, exp.dims.All(), {})
    {
      hide AllExact, NoRepeats, Reported, LogIn, Truthful;
      expPoints := [];
      dbPoints, ok := db.Collect();
      if ok {
        expPoints, ok := exp.Collect();
      }
    }

    method FinishFirst(ghost m: Metrics)
      requires Separate() && calls.Valid() && latency.Valid() && external.Valid()
      requires Reported(m.calls, calls.histograms, calls.dims.All(), {})
      requires Reported(m.latency, latency.histograms, latency.dims.All(), {})
      requires Reported(m.external, external.histograms, external.dims.All(), {})
      modifies latency, calls, external, latency.dims, calls.dims, external.dims
      ensures latency.Valid() && latency.Built(old(latency.Books()), m.latency)
      ensures calls.Valid() && calls.Built(old(calls.Books()), m.calls)
      ensures external.Valid() && external.Built(old(external.Books()), m.external)
    {
      hide AllExact, NoRepeats, Reported, LogIn, Truthful, Instrument.Built, Instrument.Books;
      calls.FinishBuild(m.calls);
      latency.FinishBuild(m.latency);
      external.FinishBuild(m.external);
    }

    method FinishLast(ghost m: Metrics)
      requires Separate() && db.Valid() && exp.Valid()
      requires Reported(m.db, db.histograms, db.dims.All(), {})
      requires Reported(m.exp, exp.histograms, exp.dims.All(), {})
      modifies db, exp, db.dims, exp.dims
      ensures db.Valid() && db.Built(old(db.Books()), m.db)
      ensures exp.Valid() && exp.Built(old(exp.Books()), m.exp)
    {
      hide AllExact, NoRepeats, Reported, LogIn, Truthful, Instrument.Built, Instrument.Books;
      db.FinishBuild(m.db);
      exp.FinishBuild(m.exp);
    }

    /** buildMetrics. It never reports a key whose dimensions cannot be found, and afterwards the keys of every
        histogram map lie within the LRU of its cache. */
    method BuildMetrics() returns (m: Metrics, ok: bool)
      requires Valid()
      modifies latency, calls, external, db, exp
      modifies latency.dims, calls.dims, external.dims, db.dims, exp.dims
      ensures Valid() && ok
      ensures latency.Built(old(latency.Books()), m.latency) && calls.Built(old(calls.Books()), m.calls)
      ensures external.Built(old(external.Books()), m.external) && db.Built(old(db.Books()), m.db)
      ensures exp.Built(old(exp.Books()), m.exp)
      ensures Reported(m.calls, old(calls.histograms), old(calls.dims.All()), {})
      ensures Reported(m.latency, old(latency.histograms), old(latency.dims.All()), {})
      ensures Reported(m.external, old(external.histograms), old(external.dims.All()), {})
      ensures Reported(m.db, old(db.histograms), old(db.dims.All()), {})
      ensures Reported(m.exp, old(exp.histograms), old(exp.dims.All()), {})
    {
      hide AllExact, NoRepeats, Reported, LogIn, Truthful, Instrument.Built, Instrument.Books;
      m, ok := CollectFirst();
      if ok {
        var dbPoints, expPoints;
        dbPoints, expPoints, ok := CollectLast();
        m := m.(db := dbPoints, exp := expPoints);
        if ok {
          FinishFirst(m);
          FinishLast(m);
        }
      }
    }

    /** A build, as it shows in the histories. */
    method Export() returns (m: Metrics, ok: bool)
      requires Valid()
      modifies latency, calls, external, db, exp
      modifies latency.dims, calls.dims, external.dims, db.dims, exp.dims
      ensures Valid() && ok && forall w :: Extends(StoryOf(old(Stories()), w), StoryOf(Stories(), w), PointsOf(m, w))
    {
      hide Valid, Reported, Instrument.WithinCache;
      m, ok := BuildMetrics();
    }

    /** Any sequence of spans and exports, under the processor's lock. No build ever fails, and the history of each
        instrument follows the spans and the builds. So every point of every build is right about the accepted spans of
        its key since the key's entry was created, and under delta temporality every accepted span is counted once. */
    method Serve(work: seq<Work>) returns (built: seq<Metrics>)
      requires Valid()
      modifies latency, calls, external, db, exp
      modifies latency.dims, calls.dims, external.dims, db.dims, exp.dims
      ensures Valid()
      ensures forall w :: Follows(config, work, w, StoryOf(old(Stories()), w), StoryOf(Stories(), w), built)
      ensures forall w :: AllRight(StoryOf(Stories(), w), InstrumentOf(w).bounds)
      ensures config.delta ==> forall w :: AllCounted(StoryOf(Stories(), w), InstrumentOf(w).bounds)
    {
      hide Valid, Stories, Follows, AllRight, AllCounted;
      built := [];
      FollowsNone(config, Stories());
      for i := 0 to |work|
        invariant Valid()
        invariant forall w :: Follows(config, work[..i], w, StoryOf(old(Stories()), w), StoryOf(Stories(), w), built)
      {
        ghost var before := Stories();
        match work[i] {
          case Aggregate(s, now) =>
            AggregateSpan(s, now);
            FollowsSpan(config, work, i, old(Stories()), before, Stories(), built);
          case Export =>
            var m, ok := Export();
            FollowsExport(config, work, i, old(Stories()), before, Stories(), built, m);
            if ok {
              built := built + [m];
            }
        }
      }
      assert work[..|work|] == work;
      StoriesAreRight();
    }

    ghost function InstrumentOf(w: Which): Instrument {
      match w
      case Latency => latency
      case Calls => calls
      case External => external
      case Db => db
      case Exp => exp
    }

    ghost function Stories(): Stories
      reads latency, calls, external, db, exp
    {
      Histories(latency.story, calls.story, external.story, db.story, exp.story)
    }

    lemma StoriesAreRight()
      requires Valid()
      ensures forall w :: AllRight(StoryOf(Stories(), w), InstrumentOf(w).bounds)
      ensures config.delta ==> forall w :: AllCounted(StoryOf(Stories(), w), InstrumentOf(w).bounds)
    {
      hide AllRight, AllCounted, LogIn;
      forall w: Which
        ensures AllRight(StoryOf(Stories(), w), InstrumentOf(w).bounds)
        ensures config.delta ==> AllCounted(StoryOf(Stories(), w), InstrumentOf(w).bounds)
      {
        var i := InstrumentOf(w);
        TruthfulIsRight(i.story, i.bounds, i.delta, i.dims.size);
        if config.delta {
          DeltaCounts(i.story, i.bounds, i.dims.size);
        }
      }
    }
  }

  datatype Work = Aggregate(span: Span, now: int) | Export

  datatype Which = Latency | Calls | External | Db | Exp

  predicate Reaches(c: Config, s: Span, w: Which) {
    match w
    case Latency => true
    case Calls => true
    case External => s.kind.Client? && s.remoteAddress
    case Db => !s.kind.Server? && s.dbSystem
    case Exp => c.enableExpHistogram
  }

  function LabelOf(s: Span, w: Which): Label {
    match w
    case Latency => s.latency
    case Calls => s.call
    case External => s.external
    case Db => s.db
    case Exp => s.exp
  }

  function PointsOf(m: Metrics, w: Which): seq<Point> {
    match w
    case Latency => m.latency
    case Calls => m.calls
    case External => m.external
    case Db => m.db
    case Exp => m.exp
  }

  /** The histories of the five instruments. */
  datatype Stories = Histories(latency: Story, calls: Story, external: Story, db: Story, exp: Story)

  function StoryOf(h: Stories, w: Which): Story {
    match w
    case Latency => h.latency
    case Calls => h.calls
    case External => h.external
    case Db => h.db
    case Exp => h.exp
  }

  /** A build of `points` was added. */
  ghost predicate Extends(before: Story, after: Story, points: seq<Point>) {
    exists kept :: after == before + [Made(points, kept)]
  }

  /** From `start` to `story` an instrument went through a sequence of spans and exports: one observation for each
      accepted span that reaches it, and one build, with the points that were exported, for each export. */
  ghost predicate Follows(c: Config, work: seq<Work>, w: Which, start: Story, story: Story, built: seq<Metrics>) {
    if work == [] then story == start && built == []
    else
      var rest := work[..|work| - 1];
      match work[|work| - 1]
      case Aggregate(s, now) =>
        exists before :: Follows(c, rest, w, start, before, built)
                         && story
                              == Told(before, Accepted(c, s, now) && Reaches(c, s, w), LabelOf(s, w), ObservationOf(s))
      case Export =>
        built != []
        && var earlier, points := built[..|built| - 1], PointsOf(built[|built| - 1], w);
           exists before :: Follows(c, rest, w, start, before, earlier) && Extends(before, story, points)
  }

  lemma FollowsNone(c: Config, h: Stories)
    ensures forall w :: Follows(c, [], w, StoryOf(h, w), StoryOf(h, w), [])
  {
  }

  lemma FollowsSpan(c: Config, work: seq<Work>, i: nat, start: Stories, before: Stories, after: Stories,
                    built: seq<Metrics>)
    requires i < |work| && work[i].Aggregate?
    requires forall w :: Follows(c, work[..i], w, StoryOf(start, w), StoryOf(before, w), built)
    requires var s := work[i].span;
             forall w :: StoryOf(after, w) ==
                         Told(StoryOf(before, w), Accepted(c, s, work[i].now)
                              && Reaches(c, s, w), LabelOf(s, w), ObservationOf(s))
    ensures forall w :: Follows(c, work[..i + 1], w, StoryOf(start, w), StoryOf(after, w), built)
  {
    hide Accepted, Reaches, LabelOf, ObservationOf, Told, StoryOf;
    assert work[..i + 1][..i] == work[..i];
  }

  lemma FollowsExport(c: Config, work: seq<Work>, i: nat, start: Stories, before: Stories, after: Stories,
                      built: seq<Metrics>, m: Metrics)
    requires i < |work| && work[i].Export?
    requires forall w :: Follows(c, work[..i], w, StoryOf(start, w), StoryOf(before, w), built)
    requires forall w :: Extends(StoryOf(before, w), StoryOf(after, w), PointsOf(m, w))
    ensures forall w :: Follows(c, work[..i + 1], w, StoryOf(start, w), StoryOf(after, w), built + [m])
  {
    hide Extends, PointsOf, StoryOf;
    assert work[..i + 1][..i] == work[..i] && (built + [m])[..|built|] == built;
  }
}
