/** The sampler and its id batcher side by side. */
module SamplingPipeline {
  import B = IdBatcher
  import S = TailSampler

  datatype State = State(batcher: B.State, sampler: S.State)

  /** `Enqueue` adds an id to both, `Tick` is where a take of the batcher returns to the ticker goroutine; all other
      steps are of one of the two alone. */
  datatype Event = Inner(b: B.Event) | Outer(s: S.Event) | Enqueue(w: nat) | Tick

  ghost predicate Initial(s: State) { B.Initial(s.batcher) && S.Initial(s.sampler) }

  /** A take returns by pushing the batch under construction, or, when the batches are closed and drained, returns that
      one. */
  function TakeOf(b: B.State): B.Event { if b.reader.Took? then B.PushCurrent else B.TakeCurrent }

  function Taken(b: B.State): B.Batch { if b.reader.Took? then b.reader.batch else b.current }

  function BatcherEvents(s: State, e: Event): seq<B.Event>
    requires e.Enqueue? ==> S.Enabled(s.sampler, S.Enqueue(e.w))
  {
    match e
    case Inner(b) => [b]
    case Outer(_) => []
    case Enqueue(w) => [B.Add(s.sampler.workers[w].id)]
    case Tick => [TakeOf(s.batcher)]
  }

  function SamplerEvents(s: State, e: Event): seq<S.Event> {
    match e
    case Inner(_) => []
    case Outer(o) => [o]
    case Enqueue(w) => [S.Enqueue(w)]
    case Tick => [S.Take(|Taken(s.batcher)|)]
  }

  predicate OwnEvent(e: Event) {
    match e
    case Inner(b) => !b.Add? && !b.PushCurrent? && !b.TakeCurrent?
    case Outer(o) => !o.Enqueue? && !o.Take?
    case _ => true
  }

  predicate Enabled(s: State, e: Event) {
    && OwnEvent(e)
    && (forall o :: o in SamplerEvents(s, e) ==> S.Enabled(s.sampler, o))
    && (forall b :: b in BatcherEvents(s, e) ==> B.Enabled(s.batcher, b))
  }

  function Next(s: State, e: Event): State
    requires Enabled(s, e)
  {
    var bs, os := BatcherEvents(s, e), SamplerEvents(s, e);
    State(if bs == [] then s.batcher else B.Next(s.batcher, bs[0]),
          if os == [] then s.sampler else S.Next(s.sampler, os[0]))
  }

  datatype Outcome = Stuck | Reached(state: State)

  function Run(s: State, es: seq<Event>): Outcome {
    if es == [] then Reached(s)
    else
      match Run(s, es[..|es| - 1])
      case Stuck => Stuck
      case Reached(t) => if Enabled(t, es[|es| - 1]) then Reached(Next(t, es[|es| - 1])) else Stuck
  }

  /** Every run of the two is a run of each, so each module's theorems apply. */
  lemma {:induction false} Projected(s: State, es: seq<Event>) returns (bs: seq<B.Event>, os: seq<S.Event>)
    requires Run(s, es).Reached?
    ensures B.Run(s.batcher, bs) == B.Reached(Run(s, es).state.batcher)
    ensures S.Run(s.sampler, os) == S.Reached(Run(s, es).state.sampler)
  {
    if es == [] {
      bs, os := [], [];
    } else {
      bs, os := Projected(s, es[..|es| - 1]);
      var t, e := Run(s, es[..|es| - 1]).state, es[|es| - 1];
      hide B.Run, S.Run, B.Next, S.Next, B.Enabled, S.Enabled;
      var moreBs, moreOs := BatcherEvents(t, e), SamplerEvents(t, e);
      if moreBs != [] {
        B.RunSnoc(s.batcher, bs, moreBs[0]);
        bs := bs + [moreBs[0]];
      }
      if moreOs != [] {
        S.RunSnoc(s.sampler, os, moreOs[0]);
        os := os + [moreOs[0]];
      }
    }
  }

  // ---- The queue ----------------------------------------------------------------------------------------------------

  /** Everything the batcher has returned. */
  function Returned(b: B.State): seq<B.Id> { B.Concat(b.taken) + B.Concat(b.finals) }

  /** What the sampler takes for a queue is what was added to the batcher and not yet returned. */
  ghost predicate Agree(s: State) { B.Inv(s.batcher) && s.batcher.added == Returned(s.batcher) + s.sampler.queue }

  lemma NoFinals(b: B.State)
    requires B.Protocol(b) && b.reader.Took?
    ensures b.finals == [] && B.Concat(b.finals) == []
  {
  }

  lemma AddedInOrder(b: B.State)
    requires B.Conserved(b)
    ensures B.Concat(b.closed) + B.Concat(b.finals) + b.current <= b.added
  {
    hide B.Concat;
  }

  /** Before a take returns, its batch comes next among the ids that were added. */
  lemma TakenIsNext(b: B.State)
    requires B.Inv(b) && B.Enabled(b, TakeOf(b))
    ensures Returned(b) + Taken(b) <= b.added && Returned(B.Next(b, TakeOf(b))) == Returned(b) + Taken(b)
  {
    hide B.Concat, B.Conserved, B.Protocol, B.Pipeline;
    B.TakenPart(b);
    AddedInOrder(b);
    if b.reader.Took? {
      NoFinals(b);
      B.ConcatSnoc(b.taken, b.reader.batch);
      Prefix(B.Concat(b.taken) + b.reader.batch, B.Concat(b.batches), b.added);
    } else {
      B.ConcatNone();
      B.ConcatSnoc(b.finals, b.current);
      assert b.taken + B.InReader(b) == b.taken;
      assert B.Concat(b.taken) + [] == B.Concat(b.taken);
    }
  }

  lemma Prefix(a: seq<B.Id>, b: seq<B.Id>, c: seq<B.Id>)
    requires a + b <= c
    ensures a <= c
  {
  }

  /** Only adding and taking change what was added and what was returned, and the queue. */
  lemma BatcherStep(b: B.State, e: B.Event)
    requires B.Enabled(b, e)
    ensures var b' := B.Next(b, e);
            && b'.numBatches == b.numBatches
            && (e.Add? ==> b'.added == b.added + [e.id])
            && (!e.Add? ==> b'.added == b.added)
            && (!e.PushCurrent? && !e.TakeCurrent? ==> b'.taken == b.taken && b'.finals == b.finals)
  {
  }

  lemma SamplerStep(s: S.State, e: S.Event)
    requires S.Enabled(s, e)
    ensures S.Next(s, e).queue == match e
                                  case Enqueue(w) => s.queue + [s.workers[w].id]
                                  case Take(n) => s.queue[n..]
                                  case _ => s.queue
    ensures e.Take? ==> S.Next(s, e).todo == s.queue[..e.n]
  {
  }

  lemma AgreeKept(s: State, e: Event)
    requires Agree(s) && Enabled(s, e)
    ensures Agree(Next(s, e)) && Next(s, e).batcher.numBatches == s.batcher.numBatches
    ensures e.Tick? ==> Next(s, e).sampler.todo == Taken(s.batcher)
  {
    hide B.Next, S.Next, B.Enabled, S.Enabled, B.Inv, B.Concat;
    match e
    case Inner(b) =>
      assert b in BatcherEvents(s, e);
      B.InvKept(s.batcher, b);
      BatcherStep(s.batcher, b);
    case Outer(o) =>
      assert o in SamplerEvents(s, e);
      SamplerStep(s.sampler, o);
    case Enqueue(w) =>
      var b, o := BatcherEvents(s, e)[0], SamplerEvents(s, e)[0];
      assert o in SamplerEvents(s, e) && b in BatcherEvents(s, e);
      B.InvKept(s.batcher, b);
      BatcherStep(s.batcher, b);
      SamplerStep(s.sampler, o);
    case Tick =>
      var b, o := BatcherEvents(s, e)[0], SamplerEvents(s, e)[0];
      assert o in SamplerEvents(s, e) && b in BatcherEvents(s, e);
      B.InvKept(s.batcher, b);
      BatcherStep(s.batcher, b);
      SamplerStep(s.sampler, o);
      TakenIsNext(s.batcher);
      QueueFront(s.batcher.added, Returned(s.batcher), s.sampler.queue, Taken(s.batcher));
  }

  lemma QueueFront(added: seq<B.Id>, before: seq<B.Id>, queue: seq<B.Id>, batch: seq<B.Id>)
    requires added == before + queue && before + batch <= added
    ensures |batch| <= |queue| && queue[..|batch|] == batch && added == before + batch + queue[|batch|..]
  {
    assert queue == added[|before|..];
  }

  lemma AgreeAtFirst(s: State)
    requires Initial(s)
    ensures Agree(s)
  {
    B.InitialInv(s.batcher);
    B.ConcatNone();
  }

  /** In every run the sampler's queue is what the batcher still holds. */
  lemma {:induction false} RunAgrees(s: State, es: seq<Event>)
    requires Initial(s) && Run(s, es).Reached?
    ensures Agree(Run(s, es).state) && Run(s, es).state.batcher.numBatches == s.batcher.numBatches
  {
    hide Initial, Agree, Enabled, Next;
    if es == [] {
      AgreeAtFirst(s);
    } else {
      RunAgrees(s, es[..|es| - 1]);
      AgreeKept(Run(s, es[..|es| - 1]).state, es[|es| - 1]);
    }
  }

  lemma ReadyToReturn(b: B.State)
    requires B.Enabled(b, B.PushCurrent) || B.Enabled(b, B.TakeCurrent)
    ensures B.Enabled(b, TakeOf(b))
  {
  }

  /** When the ticker is free and the batcher ready to return, the tick is possible: the queue holds the batch. */
  lemma TickPossible(s: State)
    requires Agree(s) && s.sampler.ticker.Waiting? && s.sampler.todo == []
    requires B.Enabled(s.batcher, B.PushCurrent) || B.Enabled(s.batcher, B.TakeCurrent)
    ensures Enabled(s, Tick)
  {
    hide B.Inv, B.Concat, B.Enabled;
    ReadyToReturn(s.batcher);
    TakenIsNext(s.batcher);
    QueueFront(s.batcher.added, Returned(s.batcher), s.sampler.queue, Taken(s.batcher));
  }

  // ---- The delay ----------------------------------------------------------------------------------------------------

  predicate OnMap(s: S.State, id: S.TraceId, t: nat) { id in s.table && s.table[id] == t && t < |s.objs| }

  predicate Decided(s: S.State, t: nat) { t < |s.objs| && !s.objs[t].finalDecision.Unspecified? }

  /** The ticker goroutine has the id, or its trace, or has decided it. */
  predicate WithTicker(s: S.State, id: S.TraceId, t: nat) { id in s.todo || S.IsLoaded(s, t) || Decided(s, t) }

  /** Batch number `j` was closed with the id in it. */
  predicate ClosedWith(b: B.State, j: nat, id: B.Id) { j < |b.closed| && id in b.closed[j] }

  /** That batch was not returned yet, or the ticker goroutine has seen to it that the trace is decided. */
  predicate OnItsWay(s: State, j: nat, id: B.Id, t: nat) {
    |s.batcher.taken| <= j + s.batcher.numBatches || WithTicker(s.sampler, id, t)
  }

  /** The id keeps its entry on the map while `es` happens. */
  predicate StaysOnMap(s: State, es: seq<Event>, id: S.TraceId, t: nat) {
    Run(s, es).Reached? && OnMap(Run(s, es).state.sampler, id, t)
    && (es != [] ==> StaysOnMap(s, es[..|es| - 1], id, t))
  }

  lemma SamplerKeeps(s: S.State, e: S.Event, id: S.TraceId, t: nat)
    requires S.Enabled(s, e) && !e.Take? && OnMap(s, id, t) && WithTicker(s, id, t)
    ensures WithTicker(S.Next(s, e), id, t)
  {
  }

  lemma StaysDecided(s: S.State, e: S.Event, t: nat)
    requires S.Enabled(s, e) && Decided(s, t)
    ensures Decided(S.Next(s, e), t)
  {
  }

  lemma StaysClosed(b: B.State, e: B.Event, j: nat, id: B.Id)
    requires B.Enabled(b, e) && ClosedWith(b, j, id)
    ensures ClosedWith(B.Next(b, e), j, id) && B.Next(b, e).numBatches == b.numBatches
    ensures |B.Next(b, e).taken| <= |b.taken| + 1 && (!e.PushCurrent? ==> B.Next(b, e).taken == b.taken)
  {
  }

  /** Take number `j + numBatches` returns batch number `j`. */
  lemma BatchComes(b: B.State, j: nat, id: B.Id)
    requires B.Inv(b) && B.Enabled(b, TakeOf(b)) && ClosedWith(b, j, id) && |b.taken| == j + b.numBatches
    ensures b.reader.Took? && id in Taken(b)
  {
    hide B.Conserved;
    var all := b.taken + B.InReader(b) + b.batches;
    assert |all| > |b.taken|;
    assert all[|b.taken|] == (B.Empties(b.numBatches) + b.closed)[j + b.numBatches] == b.closed[j];
  }

  lemma OnItsWayKept(s: State, e: Event, j: nat, id: B.Id, t: nat)
    requires Agree(s) && Enabled(s, e) && ClosedWith(s.batcher, j, id) && OnMap(s.sampler, id, t)
    requires OnItsWay(s, j, id, t)
    ensures ClosedWith(Next(s, e).batcher, j, id) && OnItsWay(Next(s, e), j, id, t)
    ensures Next(s, e).batcher.numBatches == s.batcher.numBatches
  {
    hide B.Next, S.Next, B.Enabled, S.Enabled, B.Inv, B.Concat, ClosedWith, OnMap, WithTicker;
    match e
    case Inner(b) =>
      assert b in BatcherEvents(s, e);
      StaysClosed(s.batcher, b, j, id);
    case Outer(o) =>
      assert o in SamplerEvents(s, e);
      if WithTicker(s.sampler, id, t) {
        SamplerKeeps(s.sampler, o, id, t);
      }
    case Enqueue(w) =>
      var b, o := BatcherEvents(s, e)[0], SamplerEvents(s, e)[0];
      assert o in SamplerEvents(s, e) && b in BatcherEvents(s, e);
      StaysClosed(s.batcher, b, j, id);
      if WithTicker(s.sampler, id, t) {
        SamplerKeeps(s.sampler, o, id, t);
      }
    case Tick =>
      TickKeeps(s, j, id, t);
  }

  lemma TickKeeps(s: State, j: nat, id: B.Id, t: nat)
    requires Agree(s) && Enabled(s, Tick) && ClosedWith(s.batcher, j, id) && OnItsWay(s, j, id, t)
    ensures ClosedWith(Next(s, Tick).batcher, j, id) && OnItsWay(Next(s, Tick), j, id, t)
    ensures Next(s, Tick).batcher.numBatches == s.batcher.numBatches
  {
    hide B.Next, S.Next, B.Enabled, B.Inv, B.Concat, ClosedWith;
    var b, o := BatcherEvents(s, Tick)[0], SamplerEvents(s, Tick)[0];
    assert o in SamplerEvents(s, Tick) && b in BatcherEvents(s, Tick);
    StaysClosed(s.batcher, b, j, id);
    if Decided(s.sampler, t) {
      StaysDecided(s.sampler, o, t);
    } else if |s.batcher.taken| == j + s.batcher.numBatches {
      BatchComes(s.batcher, j, id);
      AgreeKept(s, Tick);
    }
  }

  lemma {:induction false} RunOnItsWay(s: State, es: seq<Event>, j: nat, id: B.Id, t: nat)
    requires Agree(s) && ClosedWith(s.batcher, j, id) && OnItsWay(s, j, id, t) && StaysOnMap(s, es, id, t)
    ensures var r := Run(s, es).state;
            && Agree(r) && ClosedWith(r.batcher, j, id) && OnItsWay(r, j, id, t)
            && r.batcher.numBatches == s.batcher.numBatches
  {
    if es != [] {
      var r, e := Run(s, es[..|es| - 1]).state, es[|es| - 1];
      RunOnItsWay(s, es[..|es| - 1], j, id, t);
      hide Agree, ClosedWith, OnItsWay, OnMap, Enabled, Next;
      AgreeKept(r, e);
      OnItsWayKept(r, e, j, id, t);
    }
  }

  /** An id in the batch under construction when tick `j` comes, whose trace stays on the map, is decided once the
      ticker goroutine is through with tick `j + numBatches`. */
  lemma DecidedInTime(s: State, es: seq<Event>, more: seq<Event>, id: B.Id, t: nat)
    requires Initial(s) && Run(s, es).Reached? && Enabled(Run(s, es).state, Tick)
    requires id in Run(s, es).state.batcher.current && !Run(s, es).state.batcher.stopped
    requires StaysOnMap(Next(Run(s, es).state, Tick), more, id, t)
    ensures var r := Run(s, es).state;
            var end := Run(Next(r, Tick), more).state;
            |end.batcher.taken| > |r.batcher.taken| + s.batcher.numBatches
            && end.sampler.todo == [] && end.sampler.ticker.Waiting? ==>
              Decided(end.sampler, t)
  {
    hide B.Next, S.Next, S.Enabled, B.Concat, Initial, Run, OnMap, Agree;
    var r := Run(s, es).state;
    RunAgrees(s, es);
    TickCloses(r, id);
    AgreeKept(r, Tick);
    RunOnItsWay(Next(r, Tick), more, |r.batcher.taken|, id, t);
  }

  lemma TickCloses(r: State, id: B.Id)
    requires Agree(r) && Enabled(r, Tick) && id in r.batcher.current && !r.batcher.stopped
    ensures var b := Next(r, Tick).batcher;
            && ClosedWith(b, |r.batcher.taken|, id) && |b.taken| <= |r.batcher.taken| + b.numBatches
            && b.numBatches == r.batcher.numBatches
  {
    hide S.Next, S.Enabled, B.Concat, B.Conserved;
    var b := BatcherEvents(r, Tick)[0];
    assert b in BatcherEvents(r, Tick);
    assert r.batcher.reader.Took?;
    B.PushFacts(r.batcher);
  }
}
