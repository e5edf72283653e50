/** Where exactly-once delivery ends: every arrival of an evicted id that is still in the pipeline can be continued
    to a schedule that forwards spans twice. */
module TailSamplerLimits {
  import opened Tally
  import opened TailSampler

  lemma {:induction false} RunAppend(s: State, es: seq<Event>, more: seq<Event>)
    requires Run(s, es).Reached?
    ensures Run(s, es + more) == Run(Run(s, es).state, more)
  {
    hide Next, Enabled;
    if more == [] {
      assert es + more == es;
    } else {
      RunAppend(s, es, more[..|more| - 1]);
      assert (es + more)[..|es + more| - 1] == es + more[..|more| - 1];
    }
  }

  lemma OneEvent(s: State, e: Event)
    requires Sound(s) && Enabled(s, e)
    ensures Run(s, [e]) == Reached(Next(s, e)) && Sound(Next(s, e))
  {
    assert Run(s, []) == Reached(s) && [] + [e] == [e];
    hide Next, Enabled, Sound;
    RunSnoc(s, [], e);
    SoundKept(s, e);
  }

  /** One more event. */
  lemma Then(s: State, es: seq<Event>, r: State, e: Event)
    requires Run(s, es) == Reached(r) && Sound(r) && Enabled(r, e)
    ensures Run(s, es + [e]) == Reached(Next(r, e)) && Sound(Next(r, e))
  {
    hide Next, Enabled, Sound;
    RunSnoc(s, es, e);
    SoundKept(r, e);
  }

  predicate NoArrival(es: seq<Event>) { forall e :: e in es ==> !e.Arrive? }

  // ---------------------------------------------------------------- the ticker, working off what waits

  /** What the ticker does not touch. */
  predicate Untouched(s: State, r: State) {
    && r.table == s.table && r.arrivals == s.arrivals && r.queue == s.queue
    && |r.objs| == |s.objs| && forall t :: 0 <= t < |s.objs| ==> r.objs[t].received == s.objs[t].received
  }

  /** `c` for each of the first two. */
  function Twice(n: nat, c: nat): nat { if n == 0 then 0 else if n == 1 then c else c + c }

  /** The ticker finishes the trace it is at. */
  lemma FinishTrace(s: State) returns (es: seq<Event>)
    requires Sound(s)
    ensures Run(s, es).Reached? && NoArrival(es)
    ensures var r := Run(s, es).state;
            && r.ticker.Waiting? && r.todo == s.todo && Untouched(s, r) && Sound(r)
            && s.consumed <= r.consumed
  {
    hide OnTable, Unblocked;
    es := if s.ticker.Loaded? then [Decide(NotSampled)] else if s.ticker.Copied? then [Forward] else [];
    if es == [] {
      assert Run(s, es) == Reached(s);
    } else {
      OneEvent(s, es[0]);
    }
  }

  /** One id is looked up; its trace, if there is one, is decided Sampled and its copy sent. */
  function LookedUp(s: State): State
    requires s.todo != [] && (s.todo[0] in s.table ==> s.table[s.todo[0]] < |s.objs|)
  {
    var head := s.todo[0];
    if head in s.table then
      var t := s.table[head];
      s.(todo := s.todo[1..], objs := s.objs[t := s.objs[t].(finalDecision := Sampled)],
         consumed := s.consumed + [Delivery(t, s.objs[t].received)])
    else s.(todo := s.todo[1..])
  }

  lemma LookUp(s: State) returns (es: seq<Event>)
    requires Sound(s) && s.ticker.Waiting? && s.todo != []
    ensures s.todo[0] in s.table ==> s.table[s.todo[0]] < |s.objs|
    ensures Run(s, es) == Reached(LookedUp(s)) && NoArrival(es) && Sound(LookedUp(s))
  {
    hide OnTable, Unblocked, Run;
    OneEvent(s, Load);
    es := [Load];
    if s.todo[0] in s.table {
      Then(s, es, Next(s, Load), Decide(Sampled));
      Then(s, es + [Decide(Sampled)], Next(Next(s, Load), Decide(Sampled)), Forward);
      es := es + [Decide(Sampled)] + [Forward];
    }
  }

  lemma LookedUpSends(s: State, id: TraceId, x: Span)
    requires s.todo != [] && (s.todo[0] in s.table ==> s.table[s.todo[0]] < |s.objs|)
    requires id in s.table && s.table[id] < |s.objs|
    ensures var r, t := LookedUp(s), s.table[id];
            && Untouched(s, r)
            && Consumed(r, t, x) >= Consumed(s, t, x) + if s.todo[0] == id then Count(s.objs[t].received, x) else 0
  {
    if s.todo[0] in s.table {
      var u := s.table[s.todo[0]];
      TotalSnoc(s.consumed, Delivery(u, s.objs[u].received), Sends(s.table[id], x));
    }
  }

  /** The whole batch is worked off: the trace of an id that is listed twice is sent twice. */
  lemma WorkOff(s: State, id: TraceId, x: Span) returns (es: seq<Event>)
    requires Sound(s) && s.ticker.Waiting? && id in s.table
    ensures Run(s, es).Reached? && NoArrival(es)
    ensures var r, t := Run(s, es).state, s.table[id];
            && r.ticker.Waiting? && r.todo == [] && Untouched(s, r) && Sound(r)
            && Consumed(r, t, x) >= Consumed(s, t, x) + Twice(Count(s.todo, id), Count(s.objs[t].received, x))
    decreases |s.todo|
  {
    hide Next, Enabled, Sound;
    if s.todo == [] {
      es := [];
      assert Run(s, []) == Reached(s) && Count(s.todo, id) == 0;
    } else {
      InRange(s, id);
      var first := LookUp(s);
      LookedUpSends(s, id, x);
      var rest := WorkOff(LookedUp(s), id, x);
      RunAppend(s, first, rest);
      CountHead(s.todo, id);
      es := first + rest;
    }
  }

  lemma InRange(s: State, id: TraceId)
    requires Sound(s) && id in s.table
    ensures s.table[id] < |s.objs| && s.objs[s.table[id]].id == id
  {
  }

  // ---------------------------------------------------------------- one goroutine, working undisturbed

  /** The id of a new trace is given to the batcher and counted. */
  lemma Announce(s: State, w: nat) returns (es: seq<Event>)
    requires Sound(s) && w < |s.workers| && s.workers[w].Stored?
    ensures Run(s, es).Reached? && NoArrival(es)
    ensures var Stored(id, t, spans) := s.workers[w];
            var r :=
                s.(queue := s.queue + [id], counter := s.counter + 1, workers := s.workers[w := Posting(id, t, spans)]);
            Run(s, es) == Reached(r) && Sound(r)
  {
    hide Sound, Run;
    OneEvent(s, Enqueue(w));
    var s1 := Next(s, Enqueue(w));
    Then(s, [Enqueue(w)], s1, Register(w));
    es := [Enqueue(w)] + [Register(w)];
    var Stored(id, t, spans) := s.workers[w];
    assert s1.workers[w := Posting(id, t, spans)] == s.workers[w := Posting(id, t, spans)];
  }

  /** The delete channel has room, if need be after the trace posted first was evicted. It is not the goroutine's
      own. */
  lemma MakeRoom(s: State, w: nat) returns (es: seq<Event>, r: State)
    requires Sound(s) && w < |s.workers| && s.workers[w].Posting?
    ensures Run(s, es) == Reached(r) && NoArrival(es) && Sound(r) && |r.deleteChan| < r.maxTraces
    ensures r == s.(deleteChan := r.deleteChan, table := r.table, counter := r.counter)
    ensures var id := s.workers[w].id; id in r.table <==> id in s.table
    ensures forall id :: id in r.table ==> id in s.table && r.table[id] == s.table[id]
  {
    hide Run, Next, Enabled, Sound;
    if |s.deleteChan| < s.maxTraces {
      es, r := [], s;
      Nowhere(s);
    } else {
      es, r := EvictOldest(s, w);
    }
  }

  lemma EvictOldest(s: State, w: nat) returns (es: seq<Event>, r: State)
    requires Sound(s) && w < |s.workers| && s.workers[w].Posting? && |s.deleteChan| >= s.maxTraces
    ensures Run(s, es) == Reached(r) && NoArrival(es) && Sound(r) && |r.deleteChan| < r.maxTraces
    ensures r == s.(deleteChan := r.deleteChan, table := r.table, counter := r.counter)
    ensures var id := s.workers[w].id; id in r.table <==> id in s.table
    ensures forall id :: id in r.table ==> id in s.table && r.table[id] == s.table[id]
  {
    hide Run, Sound, OnTable, Wired, Unblocked;
    Full(s, w);
    OneEvent(s, FindFull(w));
    var s1 := Next(s, FindFull(w));
    Then(s, [FindFull(w)], s1, Drain(w));
    var s2 := Next(s1, Drain(w));
    OwnStays(s2, w);
    Then(s, [FindFull(w)] + [Drain(w)], s2, Evict(w));
    es, r := [FindFull(w)] + [Drain(w)] + [Evict(w)], Next(s2, Evict(w));
    assert r.workers == s.workers;
  }

  lemma Full(s: State, w: nat)
    requires Sound(s)
    ensures 1 <= s.maxTraces && |s.deleteChan| <= s.maxTraces
  {
  }

  lemma OwnStays(s: State, w: nat)
    requires Sound(s) && w < |s.workers| && s.workers[w].Evicting?
    ensures s.workers[w].victim in s.table && s.workers[w].id != s.workers[w].victim
  {
    VictimTracked(s, w);
  }

  lemma Nowhere(s: State)
    ensures Run(s, []) == Reached(s)
  {
  }

  /** The id is posted, and the spans join the undecided trace. */
  lemma Join(s: State, w: nat) returns (es: seq<Event>)
    requires Sound(s) && w < |s.workers| && s.workers[w].Posting? && |s.deleteChan| < s.maxTraces
             && Undecided(s, s.workers[w].trace)
    ensures Run(s, es).Reached? && NoArrival(es)
    ensures var r, Posting(id, t, spans) := Run(s, es).state, s.workers[w];
            && Sound(r) && r.table == s.table && r.queue == s.queue && r.todo == s.todo && r.ticker == s.ticker
            && r.arrivals == s.arrivals && r.consumed == s.consumed && |r.objs| == |s.objs|
            && r.objs[t].received == s.objs[t].received + spans
  {
    hide Sound, Run;
    OneEvent(s, Post(w));
    var s1 := Next(s, Post(w));
    Then(s, [Post(w)], s1, Lock(w));
    es := [Post(w)] + [Lock(w)];
  }

  /** After a new trace was put into the map its id is queued once more, and its spans join it. */
  lemma Registered(s: State, w: nat, x: Span) returns (es: seq<Event>)
    requires Sound(s) && w < |s.workers| && s.workers[w].Stored?
    requires var Stored(id, t, spans) := s.workers[w]; id in s.table && s.table[id] == t && Undecided(s, t)
    ensures Run(s, es).Reached? && NoArrival(es)
    ensures var r, Stored(id, t, spans) := Run(s, es).state, s.workers[w];
            && Sound(r) && id in r.table && r.table[id] == t && t < |r.objs|
            && r.queue == s.queue + [id] && r.todo == s.todo && r.arrivals == s.arrivals && r.consumed == s.consumed
            && Count(r.objs[t].received, x) >= Count(spans, x)
  {
    var first := Announce(s, w);
    hide Sound, Run, Next;
    var s1 := Run(s, first).state;
    var second, s2 := MakeRoom(s1, w);
    var third := Join(s2, w);
    RunAppend(s, first, second);
    RunAppend(s, first + second, third);
    es := first + second + third;
    CountAppend(s2.objs[s.workers[w].trace].received, s.workers[w].spans, x);
  }

  // ---------------------------------------------------------------- a return forwards twice

  /** More was forwarded of a trace than arrived for it. */
  predicate SentTooOften(s: State, t: nat, x: Span) { Consumed(s, t, x) > Arrived(s, t, x) }

  /** With a returned id in the pipeline twice, the ticker can send its trace twice. */
  lemma SentTwice(s: State, id: TraceId, x: Span) returns (es: seq<Event>)
    requires Sound(s) && id in s.table && Count(s.todo, id) + Count(s.queue, id) >= 2
    ensures Run(s, es).Reached? && NoArrival(es)
    ensures s.table[id] < |s.objs|
    ensures var r, t := Run(s, es).state, s.table[id];
            && r.arrivals == s.arrivals
            && Consumed(r, t, x) >= 2 * Count(s.objs[t].received, x)
  {
    hide Sound, Next, Run;
    InRange(s, id);
    var first := FinishTrace(s);
    var s1 := Run(s, first).state;
    var second := WorkOff(s1, id, x);
    RunAppend(s, first, second);
    var s2 := Run(s1, second).state;
    Then(s, first + second, s2, Take(|s2.queue|));
    var s3 := Next(s2, Take(|s2.queue|));
    TakesAll(s2);
    var third := WorkOff(s3, id, x);
    RunAppend(s, first + second + [Take(|s2.queue|)], third);
    es := first + second + [Take(|s2.queue|)] + third;
  }

  lemma TakesAll(s: State)
    requires s.ticker.Waiting? && s.todo == []
    ensures Enabled(s, Take(|s.queue|)) && Next(s, Take(|s.queue|)) == s.(todo := s.queue, queue := [])
  {
  }

  /** An arrival that brings an id back too early: some continuation without another arrival forwards each of its spans
      more often than it arrived. */
  lemma ReturnDoubles(s: State, es: seq<Event>, w: nat, id: TraceId, spans: seq<Span>, x: Span)
    returns (more: seq<Event>)
    requires Initial(s) && Run(s, es).Reached? && Enabled(Run(s, es).state, Arrive(w, id, spans))
    requires Returns(Run(s, es).state, Arrive(w, id, spans)) && x in spans
    ensures NoArrival(more) && Run(s, es + [Arrive(w, id, spans)] + more).Reached?
    ensures SentTooOften(Run(s, es + [Arrive(w, id, spans)] + more).state, |Run(s, es).state.objs|, x)
  {
    RunSound(s, es);
    var r, e := Run(s, es).state, Arrive(w, id, spans);
    Then(s, es, r, e);
    var s1 := Next(r, e);
    FirstArrival(r, e, x);
    hide Sound, Run, Returns;
    var first := Registered(s1, w, x);
    var s2 := Run(s1, first).state;
    Listed(r, id);
    CountSnoc(r.queue, id, id);
    var second := SentTwice(s2, id, x);
    RunAppend(s1, first, second);
    more := first + second;
    RunAppend(s, es + [e], more);
  }

  lemma Listed(s: State, id: TraceId)
    requires id in s.queue || id in s.todo
    ensures Count(s.todo, id) + Count(s.queue, id) >= 1
  {
    CountPositive(s.queue, id);
    CountPositive(s.todo, id);
  }

  /** What an arrival for a new trace brings. */
  lemma FirstArrival(s: State, e: Event, x: Span)
    requires Sound(s) && e.Arrive? && Enabled(s, e) && e.id !in s.table && x in e.spans
    ensures var r, t := Next(s, e), |s.objs|;
            && r.workers[e.w] == Stored(e.id, t, e.spans) && e.id in r.table && r.table[e.id] == t && Undecided(r, t)
            && Arrived(r, t, x) == Count(e.spans, x) > 0 && r.queue == s.queue && r.todo == s.todo
  {
    FreshHandle(s, |s.objs|, x);
    TotalSnoc(s.arrivals, Delivery(|s.objs|, e.spans), Sends(|s.objs|, x));
    CountPositive(e.spans, x);
  }

  /** Some continuation without another arrival sends too much of a trace. */
  ghost predicate Endangered(s: State, es: seq<Event>) {
    exists more, t: nat, x :: NoArrival(more) && Run(s, es + more).Reached?
      && SentTooOften(Run(s, es + more).state, t, x)
  }

  /** The condition of exactly-once delivery is exact: where it held so far, an arrival endangers it if and only if the
      arrival returns. */
  lemma EndangeredIffReturns(s: State, es: seq<Event>, e: Event)
    requires Initial(s) && Run(s, es).Reached? && NoReturns(s, es)
    requires e.Arrive? && e.spans != [] && Enabled(Run(s, es).state, e)
    ensures Endangered(s, es + [e]) <==> Returns(Run(s, es).state, e)
  {
    if Returns(Run(s, es).state, e) {
      var more := ReturnDoubles(s, es, e.w, e.id, e.spans, e.spans[0]);
    } else {
      assert (es + [e])[..|es|] == es;
      hide Returns, Next, Enabled, SentTooOften;
      forall more, t: nat, x | NoArrival(more) && Run(s, es + [e] + more).Reached?
        ensures !SentTooOften(Run(s, es + [e] + more).state, t, x)
      {
        StillNoReturns(s, es + [e], more);
        NotTooOften(s, es + [e] + more, t, x);
      }
    }
  }

  lemma {:induction false} StillNoReturns(s: State, es: seq<Event>, more: seq<Event>)
    requires NoReturns(s, es) && NoArrival(more) && Run(s, es + more).Reached?
    ensures NoReturns(s, es + more)
  {
    hide Next, Enabled;
    if more == [] {
      assert es + more == es;
    } else {
      assert (es + more)[..|es + more| - 1] == es + more[..|more| - 1];
      StillNoReturns(s, es, more[..|more| - 1]);
    }
  }

  lemma NotTooOften(s: State, es: seq<Event>, t: nat, x: Span)
    requires Initial(s) && Run(s, es).Reached? && NoReturns(s, es)
    ensures !SentTooOften(Run(s, es).state, t, x)
  {
    RunAccounted(s, es);
    var r := Run(s, es).state;
    hide Run, NoReturns, OnTable, Unblocked, Scheduled, Settled;
    if t < |r.objs| {
      assert Balanced(r, t, x);
    } else {
      FreshHandle(r, t, x);
    }
  }

  // ---------------------------------------------------------------- one such schedule

  /** Three goroutines and room for one trace. */
  function Fresh(): State {
    State(1, [], map[], [], 0, [Idle, Idle, Idle], [], [], Waiting, [], [], [])
  }

  function First(a: Span): seq<Event> { [Arrive(0, 1, [a]), Enqueue(0), Register(0), Post(0)] }

  function AfterFirst(a: Span): State {
    State(1, [TraceData(1, 1, [], Unspecified)], map[1 := 0], [1], 1, [Holding(0, [a]), Idle, Idle], [1], [], Waiting,
          [Delivery(0, [a])], [], [])
  }

  lemma RunFirst(a: Span)
    ensures Run(Fresh(), First(a)) == Reached(AfterFirst(a))
  {
    Four(Fresh(), First(a));
  }

  /** Trace 2 evicts trace 1, which is undecided. */
  function Second(b: Span): seq<Event> { [Arrive(1, 2, [b]), Enqueue(1), Register(1), FindFull(1)] }

  function AfterSecond(a: Span, b: Span): State {
    State(1, [TraceData(1, 1, [], Unspecified), TraceData(2, 1, [], Unspecified)], map[1 := 0, 2 := 1], [1], 2,
          [Holding(0, [a]), Draining(2, 1, [b]), Idle], [1, 2], [], Waiting,
          [Delivery(0, [a]), Delivery(1, [b])], [], [])
  }

  lemma RunSecond(a: Span, b: Span)
    ensures Run(AfterFirst(a), Second(b)) == Reached(AfterSecond(a, b))
  {
    Four(AfterFirst(a), Second(b));
  }

  /** Trace 1 returns while its id is still queued from before. */
  function Third(c: Span): seq<Event> { [Drain(1), Evict(1), Arrive(2, 1, [c]), Enqueue(2)] }

  function AfterThird(a: Span, b: Span, c: Span): State {
    State(1, [TraceData(1, 1, [], Unspecified), TraceData(2, 1, [], Unspecified), TraceData(1, 1, [], Unspecified)],
          map[2 := 1, 1 := 2], [], 1, [Holding(0, [a]), Posting(2, 1, [b]), Added(1, 2, [c])], [1, 2, 1], [], Waiting,
          [Delivery(0, [a]), Delivery(1, [b]), Delivery(2, [c])], [], [])
  }

  lemma RunThird(a: Span, b: Span, c: Span)
    ensures Run(AfterSecond(a, b), Third(c)) == Reached(AfterThird(a, b, c))
  {
    Four(AfterSecond(a, b), Third(c));
  }

  function Fourth(): seq<Event> { [Register(2), Post(2), Lock(2), Take(3)] }

  function AfterFourth(a: Span, b: Span, c: Span): State {
    var objs := [TraceData(1, 1, [], Unspecified), TraceData(2, 1, [], Unspecified), TraceData(1, 1, [c], Unspecified)];
    var workers := [Holding(0, [a]), Posting(2, 1, [b]), Idle];
    AfterThird(a, b, c).(
      objs := objs, deleteChan := [1], counter := 2, workers := workers, queue := [], todo := [1, 2, 1])
  }

  lemma RunFourth(a: Span, b: Span, c: Span)
    ensures Run(AfterThird(a, b, c), Fourth()) == Reached(AfterFourth(a, b, c))
  {
    var queue: seq<TraceId> := [1, 2, 1];
    assert queue[..3] == queue && queue[3..] == [] && [] + [c] == [c];
    Four(AfterThird(a, b, c), Fourth());
  }

  function Fifth(): seq<Event> { [Load, Decide(Sampled), Forward, Load] }

  function AfterFifth(a: Span, b: Span, c: Span): State {
    var objs := [TraceData(1, 1, [], Unspecified), TraceData(2, 1, [], Unspecified), TraceData(1, 1, [c], Sampled)];
    AfterFourth(a, b, c).(objs := objs, todo := [1], ticker := Loaded(2, 1), consumed := [Delivery(2, [c])])
  }

  lemma RunFifth(a: Span, b: Span, c: Span)
    ensures Run(AfterFourth(a, b, c), Fifth()) == Reached(AfterFifth(a, b, c))
  {
    Four(AfterFourth(a, b, c), Fifth());
  }

  function Sixth(): seq<Event> { [Decide(NotSampled), Load, Decide(Sampled), Forward] }

  lemma RunSixth(a: Span, b: Span, c: Span)
    ensures Run(AfterFifth(a, b, c), Sixth()).Reached?
    ensures var r := Run(AfterFifth(a, b, c), Sixth()).state;
            r.arrivals == AfterFifth(a, b, c).arrivals && r.consumed == [Delivery(2, [c]), Delivery(2, [c])]
  {
    Four(AfterFifth(a, b, c), Sixth());
  }

  /** Four events, one after the other. */
  lemma Four(s: State, es: seq<Event>)
    requires |es| == 4
    requires Enabled(s, es[0]) && Enabled(Next(s, es[0]), es[1])
    requires Enabled(Next(Next(s, es[0]), es[1]), es[2]) && Enabled(Next(Next(Next(s, es[0]), es[1]), es[2]), es[3])
    ensures Run(s, es) == Reached(Next(Next(Next(Next(s, es[0]), es[1]), es[2]), es[3]))
  {
    hide Run, Next, Enabled;
    Nowhere(s);
    var a, b, c, d := es[0], es[1], es[2], es[3];
    RunSnoc(s, [], a);
    assert [] + [a] == [a];
    RunSnoc(s, [a], b);
    RunSnoc(s, [a] + [b], c);
    RunSnoc(s, [a] + [b] + [c], d);
    assert es == [a] + [b] + [c] + [d];
  }

  /** One trace, one span of it, forwarded twice. */
  lemma OneTraceTwice(a: Span, b: Span, c: Span) returns (es: seq<Event>)
    ensures Initial(Fresh()) && Run(Fresh(), es).Reached?
    ensures var r := Run(Fresh(), es).state;
            r.arrivals == [Delivery(0, [a]), Delivery(1, [b]), Delivery(2, [c])]
              && r.consumed == [Delivery(2, [c]), Delivery(2, [c])]
  {
    RunFirst(a);
    RunSecond(a, b);
    RunThird(a, b, c);
    RunFourth(a, b, c);
    RunFifth(a, b, c);
    RunSixth(a, b, c);
    hide Run;
    RunAppend(Fresh(), First(a), Second(b));
    RunAppend(Fresh(), First(a) + Second(b), Third(c));
    RunAppend(Fresh(), First(a) + Second(b) + Third(c), Fourth());
    RunAppend(Fresh(), First(a) + Second(b) + Third(c) + Fourth(), Fifth());
    RunAppend(Fresh(), First(a) + Second(b) + Third(c) + Fourth() + Fifth(), Sixth());
    es := First(a) + Second(b) + Third(c) + Fourth() + Fifth() + Sixth();
  }
}
