/** The tail sampling processor as a state machine over its atomic regions. */
module TailSampler {
  import opened Tally

  type TraceId = nat

  datatype Span = Span(trace: TraceId, token: nat)

  datatype Decision =
    | Unspecified | Pending | Sampled | NotSampled | Dropped | Error | InvertSampled | InvertNotSampled | NoResult

  datatype TraceData = TraceData(id: TraceId, spanCount: nat, received: seq<Span>, finalDecision: Decision)

  datatype Worker =
    | Idle
    | Stored(id: TraceId, trace: nat, spans: seq<Span>)    // put a new entry into the map
    | Added(id: TraceId, trace: nat, spans: seq<Span>)     // gave its id to the batcher
    | Posting(id: TraceId, trace: nat, spans: seq<Span>)   // counted it, now at the select on the delete channel
    | Draining(id: TraceId, trace: nat, spans: seq<Span>)  // found the channel full, about to receive from it
    | Evicting(id: TraceId, trace: nat, spans: seq<Span>, victim: TraceId)
    | Holding(trace: nat, spans: seq<Span>)                // about to take the trace's lock
    | Late(trace: nat, spans: seq<Span>, decision: Decision)

  datatype Ticker = Waiting | Loaded(id: TraceId, trace: nat) | Copied(trace: nat, spans: seq<Span>)

  datatype Delivery = Delivery(trace: nat, spans: seq<Span>)

  /** Traces live in a heap of `TraceData` objects named by handles; `table` is the concurrent map from trace ids to
      handles. Every goroutine inside `processTraces` is one entry of `workers`, in the phase it has reached, and the
      single ticker goroutine is `ticker` with the rest of its batch in `todo`. The id batcher is seen here as the FIFO
      `queue` of ids it has accepted and not yet returned (module IdBatcher proves that order). `arrivals`, `consumed`
      and `discarded` are history: what came in, what the next consumer was given, what was dropped as late. */
  datatype State = State(
    maxTraces: nat,
    objs: seq<TraceData>,
    table: map<TraceId, nat>,
    deleteChan: seq<TraceId>,
    counter: int,
    workers: seq<Worker>,
    queue: seq<TraceId>,
    todo: seq<TraceId>,
    ticker: Ticker,
    arrivals: seq<Delivery>,
    consumed: seq<Delivery>,
    discarded: seq<Delivery>)

  datatype Event =
    | Arrive(w: nat, id: TraceId, spans: seq<Span>)
    | Enqueue(w: nat)
    | Register(w: nat)
    | Post(w: nat)
    | FindFull(w: nat)
    | Drain(w: nat)
    | Evict(w: nat)
    | Lock(w: nat)
    | Finish(w: nat)
    | Take(n: nat)
    | Load
    | Decide(decision: Decision)
    | Forward

  ghost predicate Initial(s: State) {
    && s.maxTraces >= 1
    && s.objs == [] && s.table == map[] && s.deleteChan == [] && s.counter == 0
    && (forall w :: 0 <= w < |s.workers| ==> s.workers[w].Idle?)
    && s.queue == [] && s.todo == [] && s.ticker.Waiting?
    && s.arrivals == [] && s.consumed == [] && s.discarded == []
  }

  predicate Enabled(s: State, e: Event) {
    match e
    case Arrive(w, id, _) => w < |s.workers| && s.workers[w].Idle? && (id in s.table ==> s.table[id] < |s.objs|)
    case Enqueue(w) => w < |s.workers| && s.workers[w].Stored?
    case Register(w) => w < |s.workers| && s.workers[w].Added?
    case Post(w) => w < |s.workers| && s.workers[w].Posting? && |s.deleteChan| < s.maxTraces
    case FindFull(w) => w < |s.workers| && s.workers[w].Posting? && |s.deleteChan| >= s.maxTraces
    case Drain(w) => w < |s.workers| && s.workers[w].Draining? && s.deleteChan != []
    case Evict(w) => w < |s.workers| && s.workers[w].Evicting?
    case Lock(w) => w < |s.workers| && s.workers[w].Holding? && s.workers[w].trace < |s.objs|
    case Finish(w) => w < |s.workers| && s.workers[w].Late?
    case Take(n) => s.ticker.Waiting? && s.todo == [] && n <= |s.queue|
    case Load => s.ticker.Waiting? && s.todo != []
    case Decide(d) => s.ticker.Loaded? && s.ticker.trace < |s.objs| && (d.Sampled? || d.NotSampled?)
    case Forward => s.ticker.Copied?
  }

  function Next(s: State, e: Event): State
    requires Enabled(s, e)
  {
    match e
    case Arrive(w, id, spans) =>
      if id in s.table then
        var t := s.table[id];
        s.(objs := s.objs[t := s.objs[t].(spanCount := s.objs[t].spanCount + |spans|)],
           workers := s.workers[w := Holding(t, spans)],
           arrivals := s.arrivals + [Delivery(t, spans)])
      else
        var t := |s.objs|;
        s.(objs := s.objs + [TraceData(id, |spans|, [], Unspecified)],
           table := s.table[id := t],
           workers := s.workers[w := Stored(id, t, spans)],
           arrivals := s.arrivals + [Delivery(t, spans)])
    case Enqueue(w) =>
      var Stored(id, t, spans) := s.workers[w];
      s.(queue := s.queue + [id], workers := s.workers[w := Added(id, t, spans)])
    case Register(w) =>
      var Added(id, t, spans) := s.workers[w];
      s.(counter := s.counter + 1, workers := s.workers[w := Posting(id, t, spans)])
    case Post(w) =>
      var Posting(id, t, spans) := s.workers[w];
      s.(deleteChan := s.deleteChan + [id], workers := s.workers[w := Holding(t, spans)])
    case FindFull(w) =>
      var Posting(id, t, spans) := s.workers[w];
      s.(workers := s.workers[w := Draining(id, t, spans)])
    case Drain(w) =>
      var Draining(id, t, spans) := s.workers[w];
      s.(deleteChan := s.deleteChan[1..], workers := s.workers[w := Evicting(id, t, spans, s.deleteChan[0])])
    case Evict(w) =>
      var Evicting(id, t, spans, victim) := s.workers[w];
      var s1 := s.(workers := s.workers[w := Posting(id, t, spans)]);
      if victim in s.table then s1.(table := s.table - {victim}, counter := s.counter - 1) else s1
    case Lock(w) =>
      var Holding(t, spans) := s.workers[w];
      if s.objs[t].finalDecision.Unspecified? then
        s.(objs := s.objs[t := s.objs[t].(received := s.objs[t].received + spans)],
           workers := s.workers[w := Idle])
      else
        s.(workers := s.workers[w := Late(t, spans, s.objs[t].finalDecision)])
    case Finish(w) =>
      var Late(t, spans, decision) := s.workers[w];
      var s1 := s.(workers := s.workers[w := Idle]);
      if decision.Sampled? then s1.(consumed := s.consumed + [Delivery(t, spans)])
      else s1.(discarded := s.discarded + [Delivery(t, spans)])
    case Take(n) => s.(todo := s.queue[..n], queue := s.queue[n..])
    case Load =>
      var id := s.todo[0];
      if id in s.table then s.(todo := s.todo[1..], ticker := Loaded(id, s.table[id]))
      else s.(todo := s.todo[1..])
    case Decide(d) =>
      var t := s.ticker.trace;
      s.(objs := s.objs[t := s.objs[t].(finalDecision := d)],
         ticker := if d.Sampled? then Copied(t, s.objs[t].received) else Waiting)
    case Forward =>
      s.(consumed := s.consumed + [Delivery(s.ticker.trace, s.ticker.spans)], ticker := Waiting)
  }

  datatype Outcome = Stuck | Reached(state: State)

  /** The state after a schedule, or Stuck when some event of it was not possible. */
  function Run(s: State, es: seq<Event>): Outcome {
    if es == [] then Reached(s)
    else
      match Run(s, es[..|es| - 1])
      case Stuck => Stuck
      case Reached(t) => if Enabled(t, es[|es| - 1]) then Reached(Next(t, es[|es| - 1])) else Stuck
  }

  lemma RunSnoc(s: State, es: seq<Event>, e: Event)
    requires Run(s, es).Reached? && Enabled(Run(s, es).state, e)
    ensures Run(s, es + [e]) == Reached(Next(Run(s, es).state, e))
  {
    assert (es + [e])[..|es|] == es;
  }

  // ---------------------------------------------------------------- what goroutines and histories hold

  /** How often the worker still has to post or drop `id`. */
  function Tracks(id: TraceId): Worker -> nat {
    (w: Worker) =>
      match w
      case Idle => 0
      case Holding(_, _) => 0
      case Late(_, _, _) => 0
      case Evicting(x, _, _, victim) => (if x == id then 1 else 0) + (if victim == id then 1 else 0)
      case _ => if w.id == id then 1 else 0
  }

  function Weight(w: Worker): nat {
    match w
    case Idle => 0
    case Holding(_, _) => 0
    case Late(_, _, _) => 0
    case Evicting(_, _, _, _) => 2
    case _ => 1
  }

  function Uncounted(w: Worker): nat { if w.Stored? || w.Added? then 1 else 0 }

  function Owes(id: TraceId): Worker -> nat {
    (w: Worker) => if w.Stored? && w.id == id then 1 else 0
  }

  function Holds(t: nat, x: Span): Worker -> nat {
    (w: Worker) => if !w.Idle? && w.trace == t then Count(w.spans, x) else 0
  }

  function Sends(t: nat, x: Span): Delivery -> nat {
    (d: Delivery) => if d.trace == t then Count(d.spans, x) else 0
  }

  /** How often `id` is on its way to, inside, or on its way out of the delete channel. */
  function Tracked(s: State, id: TraceId): nat { Total(s.workers, Tracks(id)) + Count(s.deleteChan, id) }

  /** How often `id` waits for the ticker to look it up: not yet given to the batcher, inside it, or in the ticker's
      batch. */
  function Waits(s: State, id: TraceId): nat { Total(s.workers, Owes(id)) + Count(s.queue, id) + Count(s.todo, id) }

  function Held(s: State, t: nat, x: Span): nat { Total(s.workers, Holds(t, x)) }
  function Arrived(s: State, t: nat, x: Span): nat { Total(s.arrivals, Sends(t, x)) }
  function Consumed(s: State, t: nat, x: Span): nat { Total(s.consumed, Sends(t, x)) }
  function Discarded(s: State, t: nat, x: Span): nat { Total(s.discarded, Sends(t, x)) }

  function InCopy(s: State, t: nat, x: Span): nat {
    if s.ticker.Copied? && s.ticker.trace == t then Count(s.ticker.spans, x) else 0
  }

  // ---------------------------------------------------------------- handles never dangle

  ghost predicate Wired(s: State) { Handled(s) && DeliveriesHandled(s) }

  ghost predicate Handled(s: State) {
    && (forall id :: id in s.table ==> s.table[id] < |s.objs| && s.objs[s.table[id]].id == id)
    && (forall i :: 0 <= i < |s.workers| && !s.workers[i].Idle? ==> s.workers[i].trace < |s.objs|)
    && (!s.ticker.Waiting? ==> s.ticker.trace < |s.objs|)
  }

  ghost predicate DeliveriesHandled(s: State) {
    forall d :: d in s.arrivals || d in s.consumed || d in s.discarded ==> d.trace < |s.objs|
  }

  predicate OfTicker(e: Event) { e.Take? || e.Load? || e.Decide? || e.Forward? }

  predicate OfSpans(e: Event) { e.Arrive? || e.Lock? || e.Finish? }

  /** A goroutine changes its own entry of `workers` and no other. */
  lemma OthersStay(s: State, e: Event)
    requires Enabled(s, e) && !OfTicker(e)
    ensures e.w < |s.workers| == |Next(s, e).workers|
    ensures forall i :: 0 <= i < |s.workers| && i != e.w ==> Next(s, e).workers[i] == s.workers[i]
  {
  }

  /** Trace objects are only ever added, and the map only gets an entry for a new one. */
  lemma ObjectsStay(s: State, e: Event)
    requires Enabled(s, e)
    ensures var s' := Next(s, e);
            && |s.objs| <= |s'.objs| && (forall t :: 0 <= t < |s.objs| ==> s'.objs[t].id == s.objs[t].id)
            && forall id :: id in s'.table ==>
                 if id in s.table then s'.table[id] == s.table[id]
                 else s'.table[id] == |s.objs| < |s'.objs| && s'.objs[|s.objs|].id == id
  {
  }

  lemma OwnHandled(s: State, e: Event)
    requires Handled(s) && Enabled(s, e)
    ensures var s' := Next(s, e);
            if OfTicker(e) then s'.workers == s.workers && (!s'.ticker.Waiting? ==> s'.ticker.trace < |s.objs|)
            else s'.ticker == s.ticker && (s'.workers[e.w].Idle? || s'.workers[e.w].trace < |s'.objs|)
  {
  }

  lemma HandledKept(s: State, e: Event)
    requires Handled(s) && Enabled(s, e)
    ensures Handled(Next(s, e))
  {
    hide Next, Enabled;
    ObjectsStay(s, e);
    OwnHandled(s, e);
    if !OfTicker(e) {
      OthersStay(s, e);
    }
  }

  lemma DeliveriesKept(s: State, e: Event)
    requires Handled(s) && DeliveriesHandled(s) && Enabled(s, e)
    ensures DeliveriesHandled(Next(s, e))
  {
  }

  lemma WiredKept(s: State, e: Event)
    requires Wired(s) && Enabled(s, e)
    ensures Wired(Next(s, e))
  {
    HandledKept(s, e);
    DeliveriesKept(s, e);
  }

  // ---------------------------------------------------------------- the bounded table

  ghost predicate OnTable(s: State) {
    && (forall id :: TrackedOnce(s, id))
    && Sized(s)
  }

  /** `id` is held exactly once if it is a key of the map, and not at all otherwise. */
  ghost predicate TrackedOnce(s: State, id: TraceId) { Tracked(s, id) == if id in s.table then 1 else 0 }

  ghost predicate Sized(s: State) {
    && |s.table.Keys| == |s.deleteChan| + Total(s.workers, Weight)
    && s.counter + Total(s.workers, Uncounted) == |s.table.Keys|
  }

  predicate Busy(w: Worker) { w.Posting? || w.Evicting? }

  /** A worker waits on an empty delete channel only while another one is about to post to it. */
  ghost predicate Unblocked(s: State) {
    && 1 <= s.maxTraces && |s.deleteChan| <= s.maxTraces
    && (s.deleteChan == [] && (exists i :: 0 <= i < |s.workers| && s.workers[i].Draining?) ==>
          exists j :: 0 <= j < |s.workers| && Busy(s.workers[j]))
  }

  /** The id a worker received from the delete channel is always on the table: dropTrace never reports
      "Attempt to delete traceID not on table", whatever the interleaving. */
  lemma VictimTracked(s: State, w: nat)
    requires OnTable(s) && w < |s.workers| && s.workers[w].Evicting?
    ensures s.workers[w].victim in s.table
    ensures s.workers[w].id in s.table && s.workers[w].id != s.workers[w].victim
  {
    var id, victim := s.workers[w].id, s.workers[w].victim;
    assert TrackedOnce(s, id) && TrackedOnce(s, victim);
    TotalUpdate(s.workers, w, s.workers[w], Tracks(id));
    TotalUpdate(s.workers, w, s.workers[w], Tracks(victim));
  }

  /** The ids that goroutines and the delete channel hold are exactly the keys of the map, each held once. */
  lemma OnTableKept(s: State, e: Event)
    requires Wired(s) && OnTable(s) && Enabled(s, e)
    ensures OnTable(Next(s, e))
  {
    if e.Evict? {
      VictimTracked(s, e.w);
    }
    forall id
      ensures TrackedOnce(Next(s, e), id)
    {
      assert TrackedOnce(s, id);
      TrackedNext(s, e, id);
    }
    SizedNext(s, e);
  }

  lemma TrackedNext(s: State, e: Event, id: TraceId)
    requires TrackedOnce(s, id) && Enabled(s, e)
    requires e.Evict? ==> s.workers[e.w].victim in s.table
    ensures TrackedOnce(Next(s, e), id)
  {
    hide Total, TotalTo, Count, Is;
    var s' := Next(s, e);
    if !OfTicker(e) {
      TotalUpdate(s.workers, e.w, s'.workers[e.w], Tracks(id));
      if e.Post? {
        CountSnoc(s.deleteChan, s.workers[e.w].id, id);
      } else if e.Drain? {
        CountHead(s.deleteChan, id);
      }
    }
  }

  lemma SizedNext(s: State, e: Event)
    requires Sized(s) && Enabled(s, e)
    requires e.Evict? ==> s.workers[e.w].victim in s.table
    ensures Sized(Next(s, e))
  {
    if !OfTicker(e) {
      BookNext(s, e);
      PhaseNext(s, e);
    }
  }

  function KeysDelta(s: State, e: Event): int {
    if e.Arrive? && e.id !in s.table then 1 else if e.Evict? then -1 else 0
  }

  function ChannelDelta(e: Event): int { if e.Post? then 1 else if e.Drain? then -1 else 0 }

  function CounterDelta(e: Event): int { if e.Register? then 1 else if e.Evict? then -1 else 0 }

  lemma BookNext(s: State, e: Event)
    requires Enabled(s, e) && (e.Evict? ==> s.workers[e.w].victim in s.table)
    ensures |Next(s, e).table.Keys| == |s.table.Keys| + KeysDelta(s, e)
    ensures |Next(s, e).deleteChan| == |s.deleteChan| + ChannelDelta(e)
    ensures Next(s, e).counter == s.counter + CounterDelta(e)
  {
    if e.Arrive? && e.id !in s.table {
      assert Next(s, e).table.Keys == s.table.Keys + {e.id};
    } else if e.Evict? {
      assert Next(s, e).table.Keys == s.table.Keys - {s.workers[e.w].victim};
    } else if e.Arrive? {
      assert Next(s, e).table == s.table;
    }
  }

  lemma PhaseNext(s: State, e: Event)
    requires Enabled(s, e) && !OfTicker(e)
    ensures Total(Next(s, e).workers, Weight) == Total(s.workers, Weight) + KeysDelta(s, e) - ChannelDelta(e)
    ensures Total(Next(s, e).workers, Uncounted) == Total(s.workers, Uncounted) + KeysDelta(s, e) - CounterDelta(e)
  {
    var new' := Next(s, e).workers[e.w];
    TotalUpdate(s.workers, e.w, new', Weight);
    TotalUpdate(s.workers, e.w, new', Uncounted);
    assert Weight(new') == Weight(s.workers[e.w]) + KeysDelta(s, e) - ChannelDelta(e);
    assert Uncounted(new') == Uncounted(s.workers[e.w]) + KeysDelta(s, e) - CounterDelta(e);
  }

  lemma UnblockedKept(s: State, e: Event)
    requires Unblocked(s) && Enabled(s, e)
    ensures Unblocked(Next(s, e))
  {
    var s' := Next(s, e);
    if !OfTicker(e) && s'.deleteChan == [] && exists i :: 0 <= i < |s'.workers| && s'.workers[i].Draining? {
      if Busy(s'.workers[e.w]) {
      } else if s.deleteChan == [] {
        var i :| 0 <= i < |s'.workers| && s'.workers[i].Draining?;
        assert s.workers[i].Draining?;
        var j :| 0 <= j < |s.workers| && Busy(s.workers[j]);
        assert Busy(s'.workers[j]);
      }
    }
  }

  /** Registration cannot deadlock: while some goroutine is inside processTraces, one of them can move. */
  lemma Progress(s: State, w: nat) returns (e: Event)
    requires Wired(s) && Unblocked(s) && w < |s.workers| && !s.workers[w].Idle?
    ensures Enabled(s, e) && !OfTicker(e) && !e.Arrive?
  {
    match s.workers[w]
    case Stored(_, _, _) => e := Enqueue(w);
    case Added(_, _, _) => e := Register(w);
    case Posting(_, _, _) => e := if |s.deleteChan| < s.maxTraces then Post(w) else FindFull(w);
    case Evicting(_, _, _, _) => e := Evict(w);
    case Holding(_, _) => e := Lock(w);
    case Late(_, _, _) => e := Finish(w);
    case Draining(_, _, _) =>
      if s.deleteChan != [] {
        e := Drain(w);
      } else {
        var j :| 0 <= j < |s.workers| && Busy(s.workers[j]);
        e := if s.workers[j].Posting? then Post(j) else Evict(j);
      }
  }

  /** When no goroutine is in the middle of a registration, the delete channel lists the keys of the map, each once,
      the counter is the size of the map, and the map is within its bound. */
  lemma TableAtRest(s: State)
    requires OnTable(s) && Unblocked(s)
    requires forall w :: w in s.workers ==> Weight(w) == 0 && Uncounted(w) == 0
    ensures forall id :: id in s.deleteChan <==> id in s.table
    ensures forall i, j :: 0 <= i < j < |s.deleteChan| ==> s.deleteChan[i] != s.deleteChan[j]
    ensures s.counter == |s.table.Keys| == |s.deleteChan| <= s.maxTraces
  {
    TotalZero(s.workers, Weight);
    TotalZero(s.workers, Uncounted);
    forall id
      ensures Count(s.deleteChan, id) == if id in s.table.Keys then 1 else 0
    {
      assert TrackedOnce(s, id);
      TotalZero(s.workers, Tracks(id));
    }
    CountsOfSet(s.deleteChan, s.table.Keys);
  }

  // ---------------------------------------------------------------- one decision for each trace

  predicate Undecided(s: State, t: nat) { t < |s.objs| && s.objs[t].finalDecision.Unspecified? }

  /** An id that was evicted comes back while the pipeline still holds it from before. */
  predicate Returns(s: State, e: Event) { e.Arrive? && e.id !in s.table && (e.id in s.queue || e.id in s.todo) }

  predicate IsLoaded(s: State, t: nat) { s.ticker.Loaded? && s.ticker.trace == t }

  /** No id waits twice. An undecided trace on the map waits once, until the ticker loads it; a decided one does not. */
  ghost predicate WaitsOnce(s: State, id: TraceId) {
    && Waits(s, id) <= 1
    && (id in s.table ==> Waits(s, id) == if Undecided(s, s.table[id]) && !IsLoaded(s, s.table[id]) then 1 else 0)
  }

  ghost predicate Scheduled(s: State) {
    && (forall id :: WaitsOnce(s, id))
    && (s.ticker.Loaded? ==> Undecided(s, s.ticker.trace))
  }

  lemma ScheduledKept(s: State, e: Event)
    requires Wired(s) && OnTable(s) && Scheduled(s) && Enabled(s, e) && !Returns(s, e)
    ensures Scheduled(Next(s, e))
  {
    forall id
      ensures WaitsOnce(Next(s, e), id)
    {
      assert WaitsOnce(s, id);
      if OfTicker(e) {
        TickerWaits(s, e, id);
      } else {
        WorkerWaits(s, e, id);
      }
    }
    if e.Load? {
      assert WaitsOnce(s, s.todo[0]);
      CountHead(s.todo, s.todo[0]);
    }
  }

  lemma TickerWaits(s: State, e: Event, id: TraceId)
    requires Wired(s) && Scheduled(s) && WaitsOnce(s, id) && Enabled(s, e) && OfTicker(e)
    ensures WaitsOnce(Next(s, e), id)
  {
    match e
    case Take(n) =>
      assert s.queue == s.queue[..n] + s.queue[n..];
      CountAppend(s.queue[..n], s.queue[n..], id);
      assert Count(s.todo, id) == 0;
    case Load => CountHead(s.todo, id);
    case Decide(d) =>
    case Forward =>
  }

  lemma WorkerWaits(s: State, e: Event, id: TraceId)
    requires Wired(s) && OnTable(s) && WaitsOnce(s, id) && Enabled(s, e) && !Returns(s, e) && !OfTicker(e)
    ensures WaitsOnce(Next(s, e), id)
  {
    hide Next, Enabled, OnTable, Wired, Waits, Undecided, IsLoaded;
    WaitsNext(s, e, id);
    if e.Arrive? && e.id == id && id !in s.table {
      NewWaitsNot(s, id);
    }
    WorkerKeeps(s, e, id);
  }

  /** A goroutine's step leaves an entry of the map and its trace's decision as they are, or removes or adds the
      entry. */
  lemma WorkerKeeps(s: State, e: Event, id: TraceId)
    requires Wired(s) && Enabled(s, e) && !OfTicker(e)
    ensures var s' := Next(s, e);
            if id in s.table then
              id in s'.table ==> s'.table[id] == s.table[id] && Undecided(s', s.table[id]) == Undecided(s, s.table[id])
                                 && IsLoaded(s', s.table[id]) == IsLoaded(s, s.table[id])
            else
              id in s'.table ==> e.Arrive? && e.id == id && Undecided(s', s'.table[id]) && !IsLoaded(s', s'.table[id])
  {
  }

  /** What a goroutine's step changes in how often `id` waits. */
  lemma WaitsNext(s: State, e: Event, id: TraceId)
    requires Enabled(s, e) && !OfTicker(e)
    ensures Waits(Next(s, e), id) == Waits(s, id) + (if e.Arrive? && e.id !in s.table && e.id == id then 1 else 0)
  {
    TotalUpdate(s.workers, e.w, Next(s, e).workers[e.w], Owes(id));
    if e.Enqueue? {
      CountSnoc(s.queue, s.workers[e.w].id, id);
    }
  }

  /** Of an id that is not on the map no goroutine has a registration under way. */
  lemma NewWaitsNot(s: State, id: TraceId)
    requires OnTable(s) && id !in s.table
    ensures Total(s.workers, Owes(id)) == 0
    ensures id !in s.queue && id !in s.todo ==> Waits(s, id) == 0
  {
    assert TrackedOnce(s, id);
    TotalAtMost(s.workers, |s.workers|, Owes(id), Tracks(id));
    CountPositive(s.queue, id);
    CountPositive(s.todo, id);
  }

  // ---------------------------------------------------------------- runs that lose nothing

  /** Eviction only removes traces that were decided. */
  predicate Gentle(s: State, e: Event)
    requires Enabled(s, e)
  {
    e.Evict? ==>
      var victim := s.workers[e.w].victim;
      victim in s.table ==> !Undecided(s, s.table[victim])
  }

  /** Only keys of the map wait, and every undecided trace is on the map. */
  ghost predicate Retained(s: State) {
    && (forall id :: id !in s.table ==> Waits(s, id) == 0)
    && AllOnMap(s)
  }

  /** An id that is not retained cannot come back. */
  lemma RetainedReturnsNot(s: State, e: Event)
    requires Retained(s)
    ensures !Returns(s, e)
  {
    if e.Arrive? && e.id !in s.table {
      CountPositive(s.queue, e.id);
      CountPositive(s.todo, e.id);
    }
  }

  lemma RetainedKept(s: State, e: Event)
    requires Wired(s) && OnTable(s) && Scheduled(s) && Retained(s) && Enabled(s, e) && Gentle(s, e)
    ensures Retained(Next(s, e))
  {
    forall id | id !in Next(s, e).table
      ensures Waits(Next(s, e), id) == 0
    {
      WaitsNoMore(s, e, id);
    }
    if OfTicker(e) {
      OnMapByTicker(s, e);
    } else {
      OnMapByWorker(s, e);
    }
  }

  lemma WaitsNoMore(s: State, e: Event, id: TraceId)
    requires Wired(s) && Scheduled(s) && Retained(s) && Enabled(s, e) && Gentle(s, e) && id !in Next(s, e).table
    ensures Waits(Next(s, e), id) == 0
  {
    assert WaitsOnce(s, id);
    if OfTicker(e) {
      TickerWaitsLess(s, e, id);
    } else {
      WaitsNext(s, e, id);
    }
  }

  lemma TickerWaitsLess(s: State, e: Event, id: TraceId)
    requires Enabled(s, e) && OfTicker(e)
    ensures Waits(Next(s, e), id) <= Waits(s, id)
  {
    if e.Take? {
      assert s.queue == s.queue[..e.n] + s.queue[e.n..];
      CountAppend(s.queue[..e.n], s.queue[e.n..], id);
    } else if e.Load? {
      CountHead(s.todo, id);
    }
  }

  /** Every undecided trace is on the map. */
  ghost predicate AllOnMap(s: State) {
    forall t: nat :: Undecided(s, t) ==> s.objs[t].id in s.table && s.table[s.objs[t].id] == t
  }

  lemma OnMapByTicker(s: State, e: Event)
    requires AllOnMap(s) && Enabled(s, e) && OfTicker(e)
    ensures AllOnMap(Next(s, e))
  {
  }

  lemma OnMapByWorker(s: State, e: Event)
    requires Wired(s) && AllOnMap(s) && Enabled(s, e) && Gentle(s, e) && !OfTicker(e)
    ensures AllOnMap(Next(s, e))
  {
  }

  // ---------------------------------------------------------------- where every span is

  /** Everything that arrived for trace object `t` is still held by a goroutine, or has gone where the decision
      sends it: it waits in the object, or was (or is about to be) forwarded once, or was dropped. */
  ghost predicate Balanced(s: State, t: nat, x: Span)
    requires t < |s.objs|
  {
    match s.objs[t].finalDecision
    case Unspecified =>
      && Arrived(s, t, x) == Held(s, t, x) + Count(s.objs[t].received, x)
      && Consumed(s, t, x) == 0 && InCopy(s, t, x) == 0 && Discarded(s, t, x) == 0
    case Sampled =>
      && Arrived(s, t, x) == Held(s, t, x) + InCopy(s, t, x) + Consumed(s, t, x)
      && Discarded(s, t, x) == 0
    case NotSampled =>
      && Arrived(s, t, x) == Held(s, t, x) + Count(s.objs[t].received, x) + Discarded(s, t, x)
      && Consumed(s, t, x) == 0 && InCopy(s, t, x) == 0
    case _ => false
  }

  ghost predicate Settled(s: State) {
    && (forall i :: 0 <= i < |s.workers| && s.workers[i].Late? ==>
          s.workers[i].trace < |s.objs| && s.workers[i].decision == s.objs[s.workers[i].trace].finalDecision
          && !s.workers[i].decision.Unspecified?)
    && (s.ticker.Copied? ==> s.ticker.trace < |s.objs| && s.objs[s.ticker.trace].finalDecision.Sampled?)
  }

  lemma SettledKept(s: State, e: Event)
    requires Settled(s) && Enabled(s, e) && (e.Decide? ==> Undecided(s, s.ticker.trace))
    ensures Settled(Next(s, e))
  {
    if OfTicker(e) {
    } else {
      OthersStay(s, e);
    }
  }

  lemma FreshHandle(s: State, t: nat, x: Span)
    requires Wired(s) && |s.objs| <= t
    ensures Held(s, t, x) == Arrived(s, t, x) == Consumed(s, t, x) == Discarded(s, t, x) == InCopy(s, t, x) == 0
  {
    TotalZero(s.workers, Holds(t, x));
    TotalZero(s.arrivals, Sends(t, x));
    TotalZero(s.consumed, Sends(t, x));
    TotalZero(s.discarded, Sends(t, x));
  }

  lemma BalancedByTicker(s: State, e: Event, t: nat, x: Span)
    requires t < |s.objs| && Settled(s) && Balanced(s, t, x) && Enabled(s, e) && OfTicker(e)
    requires e.Decide? ==> Undecided(s, s.ticker.trace)
    ensures Balanced(Next(s, e), t, x)
  {
    if e.Forward? {
      TotalSnoc(s.consumed, Delivery(s.ticker.trace, s.ticker.spans), Sends(t, x));
    }
  }

  lemma BalancedByArrival(s: State, e: Event, t: nat, x: Span)
    requires Wired(s) && Enabled(s, e) && e.Arrive?
    requires t < |Next(s, e).objs| && (t < |s.objs| ==> Balanced(s, t, x))
    ensures Balanced(Next(s, e), t, x)
  {
    var s' := Next(s, e);
    if t == |s.objs| {
      FreshHandle(s, t, x);
    }
    TotalUpdate(s.workers, e.w, s'.workers[e.w], Holds(t, x));
    TotalSnoc(s.arrivals, s'.arrivals[|s.arrivals|], Sends(t, x));
  }

  lemma BalancedByPhase(s: State, e: Event, t: nat, x: Span)
    requires t < |s.objs| && Balanced(s, t, x) && Enabled(s, e)
    requires !OfTicker(e) && !OfSpans(e)
    ensures Balanced(Next(s, e), t, x)
  {
    hide Total, Count;
    var s' := Next(s, e);
    TotalUpdate(s.workers, e.w, s'.workers[e.w], Holds(t, x));
    assert Held(s', t, x) == Held(s, t, x);
  }

  lemma BalancedByLock(s: State, e: Event, t: nat, x: Span)
    requires t < |s.objs| && Balanced(s, t, x) && Enabled(s, e) && e.Lock?
    ensures Balanced(Next(s, e), t, x)
  {
    hide Total, Count;
    var s' := Next(s, e);
    TotalUpdate(s.workers, e.w, s'.workers[e.w], Holds(t, x));
    CountAppend(s.objs[s.workers[e.w].trace].received, s.workers[e.w].spans, x);
  }

  lemma BalancedByFinish(s: State, e: Event, t: nat, x: Span)
    requires t < |s.objs| && Settled(s) && Balanced(s, t, x) && Enabled(s, e) && e.Finish?
    ensures Balanced(Next(s, e), t, x)
  {
    hide Total, Count, Wired;
    var s' := Next(s, e);
    TotalUpdate(s.workers, e.w, s'.workers[e.w], Holds(t, x));
    var d := Delivery(s.workers[e.w].trace, s.workers[e.w].spans);
    TotalSnoc(s.consumed, d, Sends(t, x));
    TotalSnoc(s.discarded, d, Sends(t, x));
  }

  ghost predicate Accounted(s: State) { forall t, x :: 0 <= t < |s.objs| ==> Balanced(s, t, x) }

  lemma AccountedKept(s: State, e: Event)
    requires Wired(s) && Scheduled(s) && Settled(s) && Accounted(s) && Enabled(s, e)
    ensures Accounted(Next(s, e))
  {
    forall t, x | 0 <= t < |Next(s, e).objs|
      ensures Balanced(Next(s, e), t, x)
    {
      if OfTicker(e) {
        BalancedByTicker(s, e, t, x);
      } else if e.Arrive? {
        BalancedByArrival(s, e, t, x);
      } else if e.Lock? {
        BalancedByLock(s, e, t, x);
      } else if e.Finish? {
        BalancedByFinish(s, e, t, x);
      } else {
        BalancedByPhase(s, e, t, x);
      }
    }
  }

  // ---------------------------------------------------------------- whole runs

  ghost predicate Sound(s: State) { Wired(s) && OnTable(s) && Unblocked(s) }

  lemma SoundKept(s: State, e: Event)
    requires Sound(s) && Enabled(s, e)
    ensures Sound(Next(s, e))
  {
    WiredKept(s, e);
    OnTableKept(s, e);
    UnblockedKept(s, e);
  }

  /** Every schedule, whatever it evicts, keeps the map, the delete channel and the counter in agreement. */
  lemma {:induction false} RunSound(s: State, es: seq<Event>)
    requires Initial(s) && Run(s, es).Reached?
    ensures Sound(Run(s, es).state)
    ensures Run(s, es).state.maxTraces == s.maxTraces
  {
    if es == [] {
      InitialSound(s);
    } else {
      RunSound(s, es[..|es| - 1]);
      SoundKept(Run(s, es[..|es| - 1]).state, es[|es| - 1]);
    }
  }

  function SpansFor(t: nat): Delivery -> nat {
    (d: Delivery) => if d.trace == t then |d.spans| else 0
  }

  /** The number policies read: how many spans arrived for the trace. */
  ghost predicate SpansCounted(s: State) {
    forall t :: 0 <= t < |s.objs| ==> s.objs[t].spanCount == Total(s.arrivals, SpansFor(t))
  }

  lemma SpansCountedKept(s: State, e: Event)
    requires Wired(s) && SpansCounted(s) && Enabled(s, e)
    ensures SpansCounted(Next(s, e))
  {
    hide Total;
    var s' := Next(s, e);
    forall t | 0 <= t < |s'.objs|
      ensures s'.objs[t].spanCount == Total(s'.arrivals, SpansFor(t))
    {
      if e.Arrive? {
        TotalSnoc(s.arrivals, s'.arrivals[|s.arrivals|], SpansFor(t));
        if t == |s.objs| {
          TotalZero(s.arrivals, SpansFor(t));
        }
      } else {
        CountStays(s, e, t);
      }
    }
  }

  lemma CountStays(s: State, e: Event, t: nat)
    requires Enabled(s, e) && !e.Arrive? && t < |Next(s, e).objs|
    ensures t < |s.objs| && Next(s, e).objs[t].spanCount == s.objs[t].spanCount && Next(s, e).arrivals == s.arrivals
  {
  }

  /** In every run, whatever it evicts and whatever returns, each trace's span count is right. */
  lemma {:induction false} RunCounted(s: State, es: seq<Event>)
    requires Initial(s) && Run(s, es).Reached?
    ensures SpansCounted(Run(s, es).state)
  {
    hide Enabled, Next, SpansCounted;
    if es == [] {
      CountedAtFirst(s);
    } else {
      RunSound(s, es[..|es| - 1]);
      RunCounted(s, es[..|es| - 1]);
      SpansCountedKept(Run(s, es[..|es| - 1]).state, es[|es| - 1]);
    }
  }

  lemma CountedAtFirst(s: State)
    requires Initial(s)
    ensures SpansCounted(s)
  {
  }

  lemma InitialSound(s: State)
    requires Initial(s)
    ensures Sound(s) && Scheduled(s) && Retained(s) && Settled(s) && Accounted(s)
  {
    TotalZero(s.workers, Weight);
    TotalZero(s.workers, Uncounted);
    forall id
      ensures TrackedOnce(s, id) && WaitsOnce(s, id) && Waits(s, id) == 0
    {
      TotalZero(s.workers, Tracks(id));
      TotalZero(s.workers, Owes(id));
    }
  }

  /** The schedules in which no id returns while it still waits. Whether an arrival returns can be seen before it. */
  predicate NoReturns(s: State, es: seq<Event>) {
    es == [] ||
    (var before := es[..|es| - 1];
     NoReturns(s, before) && Run(s, before).Reached? && !Returns(Run(s, before).state, es[|es| - 1]))
  }

  lemma {:induction false} RunAccounted(s: State, es: seq<Event>)
    requires Initial(s) && Run(s, es).Reached? && NoReturns(s, es)
    ensures var r := Run(s, es).state; Sound(r) && Scheduled(r) && Settled(r) && Accounted(r)
  {
    if es == [] {
      InitialSound(s);
    } else {
      RunAccounted(s, es[..|es| - 1]);
      var t, e := Run(s, es[..|es| - 1]).state, es[|es| - 1];
      SoundKept(t, e);
      ScheduledKept(t, e);
      SettledKept(t, e);
      AccountedKept(t, e);
    }
  }

  /** A trace is undecided, sampled or not sampled. Each span that arrived for a sampled trace has been forwarded once
      or is still held by exactly the goroutine (or the ticker's copy) that will forward it; spans of any other trace
      are never forwarded. An undecided trace on the map waits once for its decision, or is being decided. */
  ghost predicate SentOnce(r: State, t: nat, x: Span)
    requires t < |r.objs|
  {
    match r.objs[t].finalDecision
    case Sampled => Consumed(r, t, x) + Held(r, t, x) + InCopy(r, t, x) == Arrived(r, t, x)
    case NotSampled => Consumed(r, t, x) + InCopy(r, t, x) == 0
    case Unspecified =>
      Consumed(r, t, x) + InCopy(r, t, x) == 0
      && (r.objs[t].id in r.table && r.table[r.objs[t].id] == t ==> IsLoaded(r, t) || Waits(r, r.objs[t].id) == 1)
    case _ => false
  }

  /** Exactly-once delivery, in every schedule without returns, evictions of undecided traces included. */
  lemma ExactlyOnce(s: State, es: seq<Event>)
    requires Initial(s) && Run(s, es).Reached? && NoReturns(s, es)
    ensures var r := Run(s, es).state; forall t, x :: 0 <= t < |r.objs| ==> SentOnce(r, t, x)
  {
    RunAccounted(s, es);
    var r := Run(s, es).state;
    hide Run, NoReturns;
    forall t, x | 0 <= t < |r.objs|
      ensures SentOnce(r, t, x)
    {
      assert Balanced(r, t, x);
      assert WaitsOnce(r, r.objs[t].id);
    }
  }

  /** Every goroutine has left processTraces, and the ticker has sent its copy. */
  predicate AtRest(s: State) { !s.ticker.Copied? && forall w :: w in s.workers ==> w.Idle? }

  /** Then the next consumer has received exactly the spans that arrived for the sampled traces. */
  lemma ExactlyOnceAtRest(s: State, es: seq<Event>)
    requires Initial(s) && Run(s, es).Reached? && NoReturns(s, es)
    ensures var r := Run(s, es).state;
            AtRest(r) ==> forall t, x :: 0 <= t < |r.objs| ==>
                            Consumed(r, t, x) == if r.objs[t].finalDecision.Sampled? then Arrived(r, t, x) else 0
  {
    ExactlyOnce(s, es);
    var r := Run(s, es).state;
    hide Run, NoReturns, Initial;
    if AtRest(r) {
      forall t, x | 0 <= t < |r.objs|
        ensures Consumed(r, t, x) == if r.objs[t].finalDecision.Sampled? then Arrived(r, t, x) else 0
      {
        assert SentOnce(r, t, x);
        TotalZero(r.workers, Holds(t, x));
      }
    }
  }

  /** The schedules in which no undecided trace is evicted. */
  ghost predicate GentleRun(s: State, es: seq<Event>) {
    es == [] ||
    (var before := es[..|es| - 1];
     GentleRun(s, before) && Run(s, before).Reached? && Enabled(Run(s, before).state, es[|es| - 1])
     && Gentle(Run(s, before).state, es[|es| - 1]))
  }

  /** A schedule that evicts no undecided trace is one without returns, and loses nothing: every undecided trace is on
      the map, waiting once or being decided. */
  lemma {:induction false} GentleRunKeepsAll(s: State, es: seq<Event>)
    requires Initial(s) && GentleRun(s, es)
    ensures Run(s, es).Reached? && NoReturns(s, es)
    ensures var r := Run(s, es).state; Scheduled(r) && Retained(r)
  {
    if es == [] {
      InitialSound(s);
    } else {
      GentleRunKeepsAll(s, es[..|es| - 1]);
      RunAccounted(s, es[..|es| - 1]);
      var t, e := Run(s, es[..|es| - 1]).state, es[|es| - 1];
      RetainedReturnsNot(t, e);
      ScheduledKept(t, e);
      RetainedKept(t, e);
    }
  }

  // ---------------------------------------------------------------- what evicting an undecided trace costs

  /** Nothing of trace object `t` was forwarded, and nobody is about to. */
  ghost predicate Unsent(s: State, t: nat) {
    && (s.ticker.Copied? ==> s.ticker.trace != t)
    && (forall i :: 0 <= i < |s.workers| && s.workers[i].Late? ==> s.workers[i].trace != t)
    && (forall d :: d in s.consumed ==> d.trace != t)
  }

  lemma UnsentKept(s: State, e: Event, t: nat)
    requires Enabled(s, e) && Unsent(s, t) && Undecided(Next(s, e), t) && (t < |s.objs| ==> Undecided(s, t))
    ensures Unsent(Next(s, e), t)
  {
    if e.Lock? || e.Finish? {
      assert forall i :: 0 <= i < |s.workers| && i != e.w ==> Next(s, e).workers[i] == s.workers[i];
    }
  }

  /** The map and the ticker have no way back to trace object `t`. */
  ghost predicate Unreachable(s: State, t: nat) {
    && (forall id :: id in s.table ==> s.table[id] != t)
    && (s.ticker.Loaded? ==> s.ticker.trace != t)
  }

  lemma LostKept(s: State, e: Event, t: nat)
    requires Enabled(s, e) && Undecided(s, t) && Unsent(s, t) && Unreachable(s, t)
    ensures Undecided(Next(s, e), t) && Unsent(Next(s, e), t) && Unreachable(Next(s, e), t)
  {
    UnsentKept(s, e, t);
  }

  lemma {:induction false} LostForGood(s: State, t: nat, es: seq<Event>)
    requires Undecided(s, t) && Unsent(s, t) && Unreachable(s, t) && Run(s, es).Reached?
    ensures var r := Run(s, es).state; Undecided(r, t) && Unsent(r, t) && Unreachable(r, t)
  {
    if es != [] {
      LostForGood(s, t, es[..|es| - 1]);
      LostKept(Run(s, es[..|es| - 1]).state, es[|es| - 1], t);
    }
  }

  /** A decision is never taken back. */
  lemma DecisionsStay(s: State, e: Event, t: nat)
    requires Enabled(s, e) && Undecided(Next(s, e), t) && t < |s.objs|
    ensures Undecided(s, t)
  {
  }

  /** A schedule ends with its last event. */
  lemma LastStep(s: State, es: seq<Event>)
    requires es != [] && Run(s, es).Reached?
    ensures var before, e := es[..|es| - 1], es[|es| - 1];
            Run(s, before).Reached? && Enabled(Run(s, before).state, e)
              && Run(s, es) == Reached(Next(Run(s, before).state, e))
  {
    hide Next, Enabled;
  }

  /** A trace object that does not exist yet is not mentioned anywhere. */
  lemma NewIsUnsent(s: State, t: nat)
    requires Wired(s) && t >= |s.objs|
    ensures Unsent(s, t)
  {
  }

  lemma AtFirst(s: State)
    requires Initial(s)
    ensures Run(s, []) == Reached(s) && forall t :: !Undecided(s, t)
  {
  }

  /** Nothing of an undecided trace has been handed to the next consumer, in any schedule. */
  lemma {:induction false} UndecidedIsUnsent(s: State, es: seq<Event>, t: nat)
    requires Initial(s) && Run(s, es).Reached? && Undecided(Run(s, es).state, t)
    ensures Unsent(Run(s, es).state, t)
  {
    hide Initial, Run, Next, Enabled, Undecided, Unsent, Wired, OnTable, Unblocked;
    if es == [] {
      AtFirst(s);
    } else {
      LastStep(s, es);
      var before := es[..|es| - 1];
      RunSound(s, before);
      var r := Run(s, before).state;
      if t < |r.objs| {
        DecisionsStay(r, es[|es| - 1], t);
        UndecidedIsUnsent(s, before, t);
      } else {
        NewIsUnsent(r, t);
      }
      UnsentKept(r, es[|es| - 1], t);
    }
  }

  /** Whatever happens after an undecided trace that the ticker has not loaded is evicted, that trace is never decided
      and none of its spans is ever forwarded. */
  lemma EvictedUndecidedIsLost(s: State, es: seq<Event>, w: nat, more: seq<Event>)
    requires Initial(s) && Run(s, es).Reached?
    requires Enabled(Run(s, es).state, Evict(w)) && !Gentle(Run(s, es).state, Evict(w))
    requires var r := Run(s, es).state; !IsLoaded(r, r.table[r.workers[w].victim])
    requires Run(Next(Run(s, es).state, Evict(w)), more).Reached?
    ensures var r := Run(s, es).state;
            var t := r.table[r.workers[w].victim];
            var end := Run(Next(r, Evict(w)), more).state;
            Undecided(end, t) && forall d :: d in end.consumed ==> d.trace != t
  {
    var r := Run(s, es).state;
    RunSound(s, es);
    var t := r.table[r.workers[w].victim];
    UndecidedIsUnsent(s, es, t);
    UnsentKept(r, Evict(w), t);
    LostForGood(Next(r, Evict(w)), t, more);
  }

  /** Some continuation decides trace object `t`. */
  ghost predicate CanBeDecided(s: State, t: nat) {
    exists more :: Run(s, more).Reached? && !Undecided(Run(s, more).state, t)
  }

  /** An undecided trace that is evicted can still be decided exactly when the ticker has loaded it. */
  lemma LostUnlessLoaded(s: State, es: seq<Event>, w: nat)
    requires Initial(s) && Run(s, es).Reached?
    requires Enabled(Run(s, es).state, Evict(w)) && !Gentle(Run(s, es).state, Evict(w))
    ensures var r := Run(s, es).state;
            var t := r.table[r.workers[w].victim];
            CanBeDecided(Next(r, Evict(w)), t) <==> IsLoaded(r, t)
  {
    var r := Run(s, es).state;
    var t, r' := r.table[r.workers[w].victim], Next(r, Evict(w));
    if IsLoaded(r, t) {
      RunSound(s, es);
      assert Run(r', []) == Reached(r') && Enabled(r', Decide(Sampled));
      RunSnoc(r', [], Decide(Sampled));
      assert !Undecided(Run(r', [] + [Decide(Sampled)]).state, t);
    } else {
      forall more | Run(r', more).Reached?
        ensures Undecided(Run(r', more).state, t)
      {
        EvictedUndecidedIsLost(s, es, w, more);
      }
    }
  }
}
