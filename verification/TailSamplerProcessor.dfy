/** The code of the tail sampling processor. Each method performs the atomic regions of module TailSampler in program
    order: what it does to the fields is a run of that machine, and `history` is the schedule it followed. */
module TailSamplerProcessor {
  import opened Tally
  import opened TailSampler

  datatype Evaluation = Evaluation(decision: Decision, failed: bool)

  predicate Decisive(e: Evaluation) { e.decision.Sampled? || e.decision.NotSampled? }

  function Failures(es: seq<Evaluation>): nat { Total(es, (e: Evaluation) => if e.failed then 1 else 0) }

  /** The decision of the first policy that decides; Sampled when none does. */
  function DecisionOf(evaluations: seq<Evaluation>): Decision {
    if evaluations == [] then Sampled
    else if Decisive(evaluations[0]) then evaluations[0].decision
    else DecisionOf(evaluations[1..])
  }

  lemma {:induction false} FirstDecides(evaluations: seq<Evaluation>, n: nat)
    requires n <= |evaluations| && forall i :: 0 <= i < n ==> !Decisive(evaluations[i])
    ensures DecisionOf(evaluations) == DecisionOf(evaluations[n..])
  {
    if n > 0 {
      FirstDecides(evaluations[1..], n - 1);
      assert evaluations[1..][n - 1..] == evaluations[n..];
    }
  }

  /** The policies are asked in order until one decides; when none does, the trace is sampled. `matching` is the
      index of the deciding policy, or their number when none decided. */
  method MakeDecision(evaluations: seq<Evaluation>, decisions: array<Decision>)
    returns (final: Decision, matching: nat, errors: nat)
    requires decisions.Length == |evaluations|
    modifies decisions
    ensures (final.Sampled? || final.NotSampled?) && final == DecisionOf(evaluations)
    ensures matching <= |evaluations|
    ensures forall i :: 0 <= i < matching ==>
              evaluations[i].decision != Sampled && evaluations[i].decision != NotSampled
    ensures final == if matching < |evaluations| then evaluations[matching].decision else Sampled
    ensures forall i :: 0 <= i < decisions.Length ==>
              decisions[i] == if i <= matching then evaluations[i].decision else old(decisions[i])
    ensures errors == Failures(evaluations[..if matching < |evaluations| then matching + 1 else matching])
  {
    final, matching, errors := NoResult, 0, 0;
    while matching < |evaluations|
      invariant matching <= |evaluations| && final == NoResult
      invariant forall i :: 0 <= i < matching ==> !Decisive(evaluations[i])
      invariant forall i :: 0 <= i < decisions.Length ==>
                  decisions[i] == if i < matching then evaluations[i].decision else old(decisions[i])
      invariant errors == Failures(evaluations[..matching])
    {
      decisions[matching] := evaluations[matching].decision;
      assert evaluations[..matching + 1] == evaluations[..matching] + [evaluations[matching]];
      TotalSnoc(evaluations[..matching], evaluations[matching], (e: Evaluation) => if e.failed then 1 else 0);
      if evaluations[matching].failed {
        errors := errors + 1;
      }
      if Decisive(evaluations[matching]) {
        final := evaluations[matching].decision;
        FirstDecides(evaluations, matching);
        return;
      }
      matching := matching + 1;
    }
    FirstDecides(evaluations, matching);
    final := Sampled;
  }

  function Flatten<T>(tss: seq<seq<T>>): seq<T> {
    if tss == [] then [] else Flatten(tss[..|tss| - 1]) + tss[|tss| - 1]
  }

  /** The spans of one trace, in the order they were sent. */
  function OfTrace(spans: seq<Span>, id: TraceId): (r: seq<Span>) {
    if spans == [] then []
    else
      var rest := OfTrace(spans[..|spans| - 1], id);
      if spans[|spans| - 1].trace == id then rest + [spans[|spans| - 1]] else rest
  }

  function IsOf(id: TraceId): Span -> nat { (s: Span) => if s.trace == id then 1 else 0 }

  /** Grouping loses, repeats and reorders nothing: a span of the trace stands behind as many as came before it. */
  lemma {:induction false} OfTraceAt(spans: seq<Span>, id: TraceId, i: nat)
    requires i < |spans|
    ensures |OfTrace(spans, id)| == Total(spans, IsOf(id))
    ensures spans[i].trace == id ==>
              var k := Total(spans[..i], IsOf(id)); k < |OfTrace(spans, id)| && OfTrace(spans, id)[k] == spans[i]
  {
    var n := |spans| - 1;
    assert spans == spans[..n] + [spans[n]];
    TotalSnoc(spans[..n], spans[n], IsOf(id));
    if n == 0 {
      assert Total(spans[..n], IsOf(id)) == 0 && OfTrace(spans[..n], id) == [];
    } else {
      OfTraceAt(spans[..n], id, if i < n then i else 0);
      assert i < n ==> spans[..n][..i] == spans[..i];
    }
  }

  lemma {:induction false} OfTraceCount(spans: seq<Span>, id: TraceId, x: Span)
    ensures Count(OfTrace(spans, id), x) == if x.trace == id then Count(spans, x) else 0
  {
    if spans != [] {
      var n := |spans| - 1;
      assert spans == spans[..n] + [spans[n]];
      CountSnoc(spans[..n], spans[n], x);
      CountSnoc(OfTrace(spans[..n], id), spans[n], x);
      OfTraceCount(spans[..n], id, x);
    }
  }

  ghost predicate Groups(groups: map<TraceId, seq<Span>>, spans: seq<Span>) {
    forall id: TraceId :: if id in groups then groups[id] != [] && groups[id] == OfTrace(spans, id)
      else OfTrace(spans, id) == []
  }

  /** One span more belongs at the end of the group of its trace. */
  lemma GroupsSnoc(groups: map<TraceId, seq<Span>>, spans: seq<Span>, span: Span)
    requires Groups(groups, spans)
    ensures var before := if span.trace in groups then groups[span.trace] else [];
            Groups(groups[span.trace := before + [span]], spans + [span])
  {
    assert (spans + [span])[..|spans|] == spans;
    assert [] + [span] == [span];
  }

  lemma FlattenSnoc<T>(tss: seq<seq<T>>, ts: seq<T>)
    ensures Flatten(tss + [ts]) == Flatten(tss) + ts
  {
    assert (tss + [ts])[..|tss|] == tss;
  }

  function TimesIn(x: Span): seq<Span> -> nat { (ts: seq<Span>) => Count(ts, x) }

  lemma {:induction false} FlattenCount(tss: seq<seq<Span>>, x: Span)
    ensures Count(Flatten(tss), x) == Total(tss, TimesIn(x))
  {
    if tss != [] {
      var n := |tss| - 1;
      FlattenCount(tss[..n], x);
      CountAppend(Flatten(tss[..n]), tss[n], x);
      TotalSnoc(tss[..n], tss[n], TimesIn(x));
      assert tss == tss[..n] + [tss[n]];
    }
  }

  method GroupSpansByTraceKey(scopes: seq<seq<Span>>) returns (groups: map<TraceId, seq<Span>>)
    ensures Groups(groups, Flatten(scopes))
  {
    hide OfTrace, Groups, Flatten;
    groups := map[];
    NoGroups();
    assert scopes[..0] == [];
    var j := 0;
    while j < |scopes|
      invariant j <= |scopes|
      invariant Groups(groups, Flatten(scopes[..j]))
    {
      var k := 0;
      ghost var done := Flatten(scopes[..j]);
      assert done + scopes[j][..0] == done;
      while k < |scopes[j]|
        invariant k <= |scopes[j]|
        invariant Groups(groups, done + scopes[j][..k])
      {
        var span := scopes[j][k];
        var before := if span.trace in groups then groups[span.trace] else [];
        GroupsSnoc(groups, done + scopes[j][..k], span);
        assert done + scopes[j][..k + 1] == done + scopes[j][..k] + [span];
        groups := groups[span.trace := before + [span]];
        k := k + 1;
      }
      assert scopes[j][..k] == scopes[j];
      assert scopes[..j + 1] == scopes[..j] + [scopes[j]];
      FlattenSnoc(scopes[..j], scopes[j]);
      j := j + 1;
    }
    assert scopes[..j] == scopes;
  }

  lemma NoGroups()
    ensures Groups(map[], Flatten([]))
  {
  }

  predicate EndsWith(s: seq<Span>, t: seq<Span>) { |t| <= |s| && s[|s| - |t|..] == t }

  /** How often a delivery carries a span. */
  function Carries(x: Span): Delivery -> nat { (d: Delivery) => Count(d.spans, x) }

  /** How often a span is among those of the traces in `ids`. */
  function Awaited(spans: seq<Span>, ids: set<TraceId>, x: Span): nat { if x.trace in ids then Count(spans, x) else 0 }

  lemma GroupsCount(groups: map<TraceId, seq<Span>>, spans: seq<Span>)
    requires Groups(groups, spans)
    ensures forall id, x :: id in groups ==> Count(groups[id], x) == if x.trace == id then Count(spans, x) else 0
    ensures forall x: Span :: x.trace !in groups ==> Count(spans, x) == 0
  {
    hide OfTrace;
    assert forall x :: Count<Span>([], x) == 0;
    forall id, x
      ensures Count(OfTrace(spans, id), x) == if x.trace == id then Count(spans, x) else 0
    {
      OfTraceCount(spans, id, x);
    }
  }

  class Processor {
    const maxTraces: nat
    var objs: seq<TraceData>
    var idToTrace: map<TraceId, nat>
    var deleteChan: seq<TraceId>
    var numTracesOnMap: int
    var batcher: seq<TraceId>
    ghost var workers: seq<Worker>
    ghost var todo: seq<TraceId>
    ghost var ticker: Ticker
    ghost var arrivals: seq<Delivery>
    ghost var consumed: seq<Delivery>
    ghost var discarded: seq<Delivery>

    ghost const start: State
    ghost var history: seq<Event>

    ghost function View(): State
      reads this
    {
      State(maxTraces, objs, idToTrace, deleteChan, numTracesOnMap, workers, batcher, todo, ticker,
            arrivals, consumed, discarded)
    }

    /** The fields are where the schedule followed so far leads, so every theorem about runs applies to them. */
    ghost predicate Valid()
      reads this
    {
      Initial(start) && Run(start, history) == Reached(View()) && start.maxTraces == maxTraces
    }

    constructor (numTraces: nat, ghost goroutines: nat)
      requires numTraces >= 1
      ensures Valid() && maxTraces == numTraces && history == [] && workers == seq(goroutines, _ => Idle)
    {
      maxTraces := numTraces;
      objs, idToTrace, deleteChan, numTracesOnMap, batcher := [], map[], [], 0, [];
      workers, todo, ticker := seq(goroutines, _ => Idle), [], Waiting;
      arrivals, consumed, discarded := [], [], [];
      history := [];
      start := State(numTraces, [], map[], [], 0, seq(goroutines, _ => Idle), [], [], Waiting, [], [], []);
    }

    /** Records that the fields just changed as `e` says. */
    ghost method Record(e: Event)
      requires Initial(start) && Run(start, history).Reached? && Enabled(Run(start, history).state, e)
      requires View() == Next(Run(start, history).state, e) && start.maxTraces == maxTraces
      modifies this`history
      ensures Valid() && history == old(history) + [e]
    {
      RunSnoc(start, history, e);
      history := history + [e];
    }

    lemma Safe()
      requires Valid()
      ensures forall id :: id in idToTrace ==> idToTrace[id] < |objs|
      ensures forall i :: 0 <= i < |workers| && !workers[i].Idle? ==> workers[i].trace < |objs|
      ensures 1 <= maxTraces && |deleteChan| <= maxTraces
    {
      RunSound(start, history);
    }

    method DropTrace(traceID: TraceId)
      modifies this`idToTrace, this`numTracesOnMap
      ensures idToTrace == old(idToTrace) - {traceID}
      ensures numTracesOnMap == old(numTracesOnMap) - (if traceID in old(idToTrace) then 1 else 0)
    {
      if traceID in idToTrace {
        idToTrace := idToTrace - {traceID};
        numTracesOnMap := numTracesOnMap - 1;
      }
    }

    method LoadOrStore(ghost w: nat, id: TraceId, spans: seq<Span>) returns (t: nat, loaded: bool)
      requires Valid() && w < |workers| && workers[w].Idle?
      modifies this`objs, this`idToTrace, this`workers, this`arrivals, this`history
      ensures Valid() && history == old(history) + [Arrive(w, id, spans)]
      ensures loaded == (id in old(idToTrace)) && (loaded ==> t == idToTrace[id])
      ensures t < |objs| && arrivals == old(arrivals) + [Delivery(t, spans)]
      ensures loaded ==> t < |old(objs)|
      ensures objs == if loaded then old(objs)[t := old(objs)[t].(spanCount := old(objs)[t].spanCount + |spans|)]
                      else old(objs) + [TraceData(id, |spans|, [], Unspecified)]
      ensures idToTrace == if loaded then old(idToTrace) else old(idToTrace)[id := t]
      ensures workers == old(workers)[w := if loaded then Holding(t, spans) else Stored(id, t, spans)]
    {
      hide Run, Initial;
      Safe();
      loaded := id in idToTrace;
      if loaded {
        t := idToTrace[id];
        objs := objs[t := objs[t].(spanCount := objs[t].spanCount + |spans|)];
        workers := workers[w := Holding(t, spans)];
      } else {
        t := |objs|;
        objs := objs + [TraceData(id, |spans|, [], Unspecified)];
        idToTrace := idToTrace[id := t];
        workers := workers[w := Stored(id, t, spans)];
      }
      arrivals := arrivals + [Delivery(t, spans)];
      Record(Arrive(w, id, spans));
    }

    method AddToBatchAndCount(ghost w: nat, id: TraceId)
      requires Valid() && w < |workers| && workers[w].Stored? && workers[w].id == id
      modifies this`batcher, this`numTracesOnMap, this`workers, this`history
      ensures Valid() && history == old(history) + [Enqueue(w), Register(w)]
      ensures var Stored(_, t, spans) := old(workers[w]); workers == old(workers)[w := Posting(id, t, spans)]
    {
      hide Run, Initial;
      ghost var Stored(_, t, spans) := workers[w];
      batcher := batcher + [id];
      workers := workers[w := Added(id, t, spans)];
      Record(Enqueue(w));
      numTracesOnMap := numTracesOnMap + 1;
      workers := workers[w := Posting(id, t, spans)];
      Record(Register(w));
    }

    /** The default branch of the select: make room by dropping the trace that was posted first. */
    method DropOldest(ghost w: nat)
      requires Valid() && w < |workers| && workers[w].Posting? && deleteChan != [] && |deleteChan| == maxTraces
      modifies this`deleteChan, this`idToTrace, this`numTracesOnMap, this`workers, this`history
      ensures Valid() && history == old(history) + [FindFull(w), Drain(w), Evict(w)]
      ensures workers == old(workers)
      ensures deleteChan == old(deleteChan)[1..]
      ensures idToTrace == old(idToTrace) - {old(deleteChan)[0]}
    {
      hide Run, Initial;
      ghost var Posting(id, t, spans) := workers[w];
      workers := workers[w := Draining(id, t, spans)];
      Record(FindFull(w));
      var traceKeyToDrop := deleteChan[0];
      deleteChan := deleteChan[1..];
      workers := workers[w := Evicting(id, t, spans, traceKeyToDrop)];
      Record(Drain(w));
      DropTrace(traceKeyToDrop);
      workers := workers[w := Posting(id, t, spans)];
      Record(Evict(w));
      assert workers == old(workers);
    }

    method Post(ghost w: nat, id: TraceId)
      requires Valid() && w < |workers| && workers[w].Posting? && workers[w].id == id && |deleteChan| < maxTraces
      modifies this`deleteChan, this`workers, this`history
      ensures Valid() && history == old(history) + [Event.Post(w)]
      ensures var Posting(_, t, spans) := old(workers[w]); workers == old(workers)[w := Holding(t, spans)]
      ensures deleteChan == old(deleteChan) + [id]
    {
      ghost var Posting(_, t, spans) := workers[w];
      deleteChan := deleteChan + [id];
      workers := workers[w := Holding(t, spans)];
      Record(Event.Post(w));
    }

    /** The retry loop around the delete channel. When no other goroutine interferes it evicts at most the trace
        posted first, and ends within two rounds. */
    method PostForDeletion(ghost w: nat, id: TraceId) returns (rounds: nat)
      requires Valid() && w < |workers| && workers[w].Posting? && workers[w].id == id
      modifies this`deleteChan, this`idToTrace, this`numTracesOnMap, this`workers, this`history
      ensures Valid() && old(history) <= history
      ensures var Posting(_, t, spans) := old(workers[w]); workers == old(workers)[w := Holding(t, spans)]
      ensures rounds == if |old(deleteChan)| == maxTraces then 2 else 1
      ensures deleteChan == (if rounds == 2 then old(deleteChan)[1..] else old(deleteChan)) + [id]
      ensures idToTrace == if rounds == 2 then old(idToTrace) - {old(deleteChan)[0]} else old(idToTrace)
    {
      hide Run, Initial, Next, Enabled;
      Safe();
      rounds := 0;
      var posted := false;
      while !posted
        invariant Valid() && old(history) <= history
        invariant !posted ==> workers == old(workers) && rounds <= 1
        invariant posted ==> workers == old(workers)[w := Holding(old(workers[w]).trace, old(workers[w]).spans)]
        invariant posted ==> rounds == if |old(deleteChan)| == maxTraces then 2 else 1
        invariant posted ==> deleteChan == (if rounds == 2 then old(deleteChan)[1..] else old(deleteChan)) + [id]
        invariant !posted && rounds == 0 ==> deleteChan == old(deleteChan)
        invariant !posted && rounds == 1 ==> |old(deleteChan)| == maxTraces && deleteChan == old(deleteChan)[1..]
        invariant rounds == 2 ==> posted
        invariant var dropped := if posted then rounds == 2 else rounds == 1;
                  idToTrace == if dropped then old(idToTrace) - {old(deleteChan)[0]} else old(idToTrace)
        decreases !posted, 2 - rounds
      {
        if |deleteChan| < maxTraces {
          Post(w, id);
          posted := true;
        } else {
          DropOldest(w);
        }
        rounds := rounds + 1;
      }
    }

    /** The part of the loop body of processTraces under the trace's lock. */
    method LockTrace(ghost w: nat, t: nat, spans: seq<Span>) returns (finalDecision: Decision)
      requires Valid() && w < |workers| && workers[w] == Holding(t, spans)
      modifies this`objs, this`workers, this`history
      ensures Valid() && history == old(history) + [Lock(w)]
      ensures t < |old(objs)| && finalDecision == old(objs)[t].finalDecision
      ensures workers == old(workers)[w := if finalDecision == Unspecified then Idle else Late(t, spans, finalDecision)]
      ensures objs ==
              if finalDecision == Unspecified
                then old(objs)[t := old(objs)[t].(received := old(objs)[t].received + spans)]
                      else old(objs)
    {
      Safe();
      finalDecision := objs[t].finalDecision;
      if finalDecision == Unspecified {
        objs := objs[t := objs[t].(received := objs[t].received + spans)];
        workers := workers[w := Idle];
      } else {
        workers := workers[w := Late(t, spans, finalDecision)];
      }
      Record(Lock(w));
    }

    /** Late spans, after the lock is released. */
    method FinishLate(ghost w: nat, t: nat, spans: seq<Span>, finalDecision: Decision)
      requires Valid() && w < |workers| && workers[w] == Late(t, spans, finalDecision)
      modifies this`workers, this`consumed, this`discarded, this`history
      ensures Valid() && history == old(history) + [Finish(w)] && workers == old(workers)[w := Idle]
      ensures consumed == old(consumed) + if finalDecision == Sampled then [Delivery(t, spans)] else []
      ensures discarded == old(discarded) + if finalDecision == Sampled then [] else [Delivery(t, spans)]
    {
      if finalDecision == Sampled {
        consumed := consumed + [Delivery(t, spans)];
      } else {
        discarded := discarded + [Delivery(t, spans)];
      }
      workers := workers[w := Idle];
      Record(Finish(w));
    }

    /** The registration half of the loop body of processTraces. */
    method RegisterGroup(ghost w: nat, id: TraceId, spans: seq<Span>) returns (t: nat, rounds: nat)
      requires Valid() && w < |workers| && workers[w].Idle?
      modifies this
      ensures Valid() && old(history) <= history && workers == old(workers)[w := Holding(t, spans)]
      ensures t < |objs| && arrivals == old(arrivals) + [Delivery(t, spans)]
      ensures consumed == old(consumed) && discarded == old(discarded)
      ensures id in old(idToTrace) ==> rounds == 0 && idToTrace == old(idToTrace) && deleteChan == old(deleteChan)
      ensures id !in old(idToTrace) ==>
                && rounds == (if |old(deleteChan)| == maxTraces then 2 else 1)
                && deleteChan == (if rounds == 2 then old(deleteChan)[1..] else old(deleteChan)) + [id]
                && idToTrace.Keys == old(idToTrace).Keys + {id} - (if rounds == 2 then {old(deleteChan)[0]} else {})
    {
      hide Run, Initial, Next, Enabled;
      var loaded;
      rounds := 0;
      t, loaded := LoadOrStore(w, id, spans);
      if !loaded {
        AddToBatchAndCount(w, id);
        rounds := PostForDeletion(w, id);
        assert workers == old(workers)[w := Holding(t, spans)];
      }
    }

    /** One group of spans: an uninterrupted pass through the loop body of processTraces. Its spans end up with the
        undecided trace, with the next consumer or among the discarded ones, by the trace's decision. */
    method ProcessGroup(ghost w: nat, id: TraceId, spans: seq<Span>) returns (t: nat)
      requires Valid() && w < |workers| && workers[w].Idle?
      modifies this
      ensures Valid() && old(history) <= history && workers == old(workers)
      ensures t < |objs| && arrivals == old(arrivals) + [Delivery(t, spans)]
      ensures objs[t].finalDecision.Unspecified? ==> EndsWith(objs[t].received, spans)
      ensures consumed == old(consumed) + if objs[t].finalDecision.Sampled? then [Delivery(t, spans)] else []
      ensures discarded == old(discarded) +
                if objs[t].finalDecision != Unspecified && objs[t].finalDecision != Sampled then [Delivery(t, spans)]
                else []
    {
      hide Run, Initial, Next, Enabled;
      var rounds;
      t, rounds := RegisterGroup(w, id, spans);
      var finalDecision := LockTrace(w, t, spans);
      if finalDecision != Unspecified {
        FinishLate(w, t, spans, finalDecision);
      }
      assert workers == old(workers);
    }

    /** processTraces: the groups of one batch of spans, in the order the map happens to be iterated. Every span of the
        batch arrives, once. */
    method ProcessTraces(ghost w: nat, scopes: seq<seq<Span>>)
      requires Valid() && w < |workers| && workers[w].Idle?
      modifies this
      ensures Valid() && old(history) <= history && workers == old(workers)
      ensures forall x :: Total(arrivals, Carries(x)) == Total(old(arrivals), Carries(x)) + Total(scopes, TimesIn(x))
    {
      hide Valid, Groups, OfTrace, Count, Total;
      var idToSpans := GroupSpansByTraceKey(scopes);
      var ids := idToSpans.Keys;
      ghost var spans := Flatten(scopes);
      GroupsCount(idToSpans, spans);
      forall x
        ensures Count(spans, x) == Total(scopes, TimesIn(x))
      {
        FlattenCount(scopes, x);
      }
      while ids != {}
        invariant Valid() && old(history) <= history && workers == old(workers) && ids <= idToSpans.Keys
        invariant forall x :: Total(arrivals, Carries(x)) + Awaited(spans, ids, x)
                    == Total(old(arrivals), Carries(x)) + Count(spans, x)
        decreases |ids|
      {
        var id :| id in ids;
        ids := ids - {id};
        ghost var before := arrivals;
        var t := ProcessGroup(w, id, idToSpans[id]);
        forall x
          ensures Total(arrivals, Carries(x)) == Total(before, Carries(x)) +
                  if x.trace == id then Count(spans, x) else 0
        {
          TotalSnoc(before, Delivery(t, idToSpans[id]), Carries(x));
        }
      }
    }

    /** The policies on a trace as it is now: its span count is the number of spans that arrived for it. No lock is
        held: its goroutines may add spans before `Settle`. */
    method Evaluate(t: nat, evaluate: TraceData -> seq<Evaluation>) returns (d: Decision)
      requires Valid() && t < |objs|
      ensures (d.Sampled? || d.NotSampled?) && d == DecisionOf(evaluate(objs[t]))
      ensures objs[t].spanCount == Total(arrivals, SpansFor(t))
    {
      RunCounted(start, history);
      hide Run, Initial, DecisionOf;
      var evaluations := evaluate(objs[t]);
      var decisions := new Decision[|evaluations|](_ => Pending);
      var matching, errors;
      d, matching, errors := MakeDecision(evaluations, decisions);
    }

    /** The decision `d`, whatever it was based on, is written and the spans are copied under the lock; the copy is sent
        exactly for Sampled. It holds every span that joined until then. */
    method Settle(ghost id: TraceId, t: nat, d: Decision)
      requires Valid() && ticker == Loaded(id, t) && (d.Sampled? || d.NotSampled?)
      modifies this`objs, this`ticker, this`consumed, this`history
      ensures Valid() && ticker == Waiting && t < |old(objs)|
      ensures history == old(history) + [Decide(d)] + if d == Sampled then [Forward] else []
      ensures objs == old(objs)[t := old(objs)[t].(finalDecision := d)]
      ensures consumed == old(consumed) + if d == Sampled then [Delivery(t, old(objs)[t].received)] else []
    {
      hide Run, Initial;
      Loadable();
      var allSpans := objs[t].received;
      objs := objs[t := objs[t].(finalDecision := d)];
      ticker := if d == Sampled then Copied(t, allSpans) else Waiting;
      Record(Decide(d));
      if d == Sampled {
        consumed := consumed + [Delivery(t, allSpans)];
        ticker := Waiting;
        Record(Forward);
      }
    }

    /** The decision for one loaded trace that nobody touches meanwhile. */
    method DecideTrace(id: TraceId, t: nat, evaluate: TraceData -> seq<Evaluation>) returns (d: Decision)
      requires Valid() && ticker == Loaded(id, t)
      modifies this`objs, this`ticker, this`consumed, this`history
      ensures Valid() && ticker == Waiting && t < |old(objs)| && d == DecisionOf(evaluate(old(objs)[t]))
      ensures history == old(history) + [Decide(d)] + if d == Sampled then [Forward] else []
      ensures objs == old(objs)[t := old(objs)[t].(finalDecision := d)]
      ensures old(objs)[t].spanCount == Total(arrivals, SpansFor(t))
      ensures consumed == old(consumed) + if d == Sampled then [Delivery(t, old(objs)[t].received)] else []
    {
      Loadable();
      hide Run, Initial, Valid;
      d := Evaluate(t, evaluate);
      Settle(id, t, d);
    }

    lemma Loadable()
      requires Valid()
      ensures ticker.Loaded? ==> ticker.trace < |objs|
    {
      RunSound(start, history);
    }

    method TakeBatch(n: nat) returns (batch: seq<TraceId>)
      requires Valid() && ticker.Waiting? && todo == [] && n <= |batcher|
      modifies this`batcher, this`todo, this`history
      ensures Valid() && history == old(history) + [Take(n)]
      ensures batch == todo == old(batcher)[..n] && batcher == old(batcher)[n..]
    {
      batch := batcher[..n];
      batcher := batcher[n..];
      todo := batch;
      Record(Take(n));
    }

    /** One turn of the loop of samplingPolicyOnTick. */
    method DecideNext(id: TraceId, evaluate: TraceData -> seq<Evaluation>) returns (found: bool)
      requires Valid() && ticker.Waiting? && todo != [] && todo[0] == id
      modifies this`objs, this`todo, this`ticker, this`consumed, this`history
      ensures Valid() && old(history) <= history && ticker.Waiting? && todo == old(todo)[1..]
      ensures found == (id in idToTrace)
      ensures found ==> idToTrace[id] < |old(objs)|
      ensures objs == if found then Judged(old(objs), idToTrace[id], evaluate) else old(objs)
      ensures consumed == old(consumed) + if found then CopyOf(old(objs), idToTrace[id], evaluate) else []
    {
      hide Run, Initial;
      found := id in idToTrace;
      todo := todo[1..];
      if found {
        var t := idToTrace[id];
        ticker := Loaded(id, t);
        Record(Load);
        var d := DecideTrace(id, t, evaluate);
      } else {
        Record(Load);
      }
    }

    /** The loop of samplingPolicyOnTick over a batch: its traces on the map are decided by the policies, one after the
        other, and the spans of the sampled ones are sent. */
    method DecideBatch(batch: seq<TraceId>, evaluate: TraceData -> seq<Evaluation>) returns (idNotFoundOnMapCount: nat)
      requires Valid() && ticker.Waiting? && todo == batch
      modifies this`objs, this`todo, this`ticker, this`consumed, this`history
      ensures Valid() && old(history) <= history && ticker.Waiting? && todo == []
      ensures idNotFoundOnMapCount == Total(batch, MissingFrom(idToTrace))
      ensures (forall id :: id in idToTrace ==> idToTrace[id] < |old(objs)|)
              && var tick := Ticked(old(objs), idToTrace, batch, evaluate);
                 objs == tick.objs && consumed == old(consumed) + tick.sent
    {
      hide Run, Initial, Next, Enabled, Judged, CopyOf, Ticked, Total;
      Safe();
      TickedNone(objs, idToTrace, batch, evaluate);
      TotalNone(batch, MissingFrom(idToTrace));
      idNotFoundOnMapCount := 0;
      var k := 0;
      while k < |batch|
        invariant k <= |batch| && todo == batch[k..]
        invariant Valid() && old(history) <= history && ticker.Waiting?
        invariant idNotFoundOnMapCount == Total(batch[..k], MissingFrom(idToTrace))
        invariant var tick := Ticked(old(objs), idToTrace, batch[..k], evaluate);
                  objs == tick.objs && consumed == old(consumed) + tick.sent
      {
        assert batch[..k + 1] == batch[..k] + [batch[k]];
        TotalSnoc(batch[..k], batch[k], MissingFrom(idToTrace));
        TickedNext(old(objs), idToTrace, batch, evaluate, k);
        var found := DecideNext(batch[k], evaluate);
        if !found {
          idNotFoundOnMapCount := idNotFoundOnMapCount + 1;
        }
        k := k + 1;
      }
      assert batch[..k] == batch;
    }

    /** samplingPolicyOnTick, for the `n` ids the batcher returns on this tick. The traces it decides have the number of
        spans that arrived for them as their span count. As long as no id returned, they are undecided and listed
        once. */
    method SamplingPolicyOnTick(n: nat, evaluate: TraceData -> seq<Evaluation>) returns (idNotFoundOnMapCount: nat)
      requires Valid() && ticker.Waiting? && todo == [] && n <= |batcher|
      modifies this`objs, this`batcher, this`todo, this`ticker, this`consumed, this`history
      ensures Valid() && old(history) <= history && ticker.Waiting? && todo == []
      ensures batcher == old(batcher)[n..]
      ensures idNotFoundOnMapCount == Total(old(batcher)[..n], MissingFrom(idToTrace))
      ensures (forall id :: id in idToTrace ==> idToTrace[id] < |old(objs)|)
              && var tick := Ticked(old(objs), idToTrace, old(batcher)[..n], evaluate);
                 objs == tick.objs && consumed == old(consumed) + tick.sent
      ensures forall t :: 0 <= t < |old(objs)| ==> old(objs)[t].spanCount == Total(arrivals, SpansFor(t))
      ensures NoReturns(start, old(history)) ==>
                forall t :: 0 <= t < |objs| ==>
                  DecidedOnce(old(objs), idToTrace, old(batcher)[..n], evaluate, t, objs[t])
    {
      hide Run, Initial, Next, Enabled, Judged, CopyOf, NoReturns, DecidedOnce, OrderlyBatch;
      ghost var clean := NoReturns(start, history);
      RunCounted(start, history);
      if clean {
        BatchIsOrderly(start, history, n);
      }
      var batch := TakeBatch(n);
      idNotFoundOnMapCount := DecideBatch(batch, evaluate);
      if clean {
        TickIsOrderly(old(objs), idToTrace, batch, evaluate);
      }
    }
  }

  /** The handles are in range, no two ids share a trace, no id is listed twice, and listed traces are undecided. */
  ghost predicate OrderlyBatch(objs: seq<TraceData>, table: map<TraceId, nat>, batch: seq<TraceId>) {
    && (forall id :: id in table ==> table[id] < |objs|)
    && (forall id, other :: id in table && other in table && id != other ==> table[id] != table[other])
    && (forall i, j :: 0 <= i < j < |batch| ==> batch[i] != batch[j])
    && forall id :: id in batch && id in table ==> objs[table[id]].finalDecision.Unspecified?
  }

  /** What the state machine says of the next `n` ids of the batcher when none has returned so far. */
  lemma BatchIsOrderly(s: State, es: seq<Event>, n: nat)
    requires Initial(s) && Run(s, es).Reached? && NoReturns(s, es) && n <= |Run(s, es).state.queue|
    ensures var r := Run(s, es).state; OrderlyBatch(r.objs, r.table, r.queue[..n])
  {
    hide Run, NoReturns;
    RunAccounted(s, es);
    QueueIsOrderly(Run(s, es).state, n);
  }

  lemma QueueIsOrderly(s: State, n: nat)
    requires Wired(s) && Scheduled(s) && n <= |s.queue|
    ensures OrderlyBatch(s.objs, s.table, s.queue[..n])
  {
    hide Waits;
    var batch := s.queue[..n];
    assert s.queue == batch + s.queue[n..];
    forall id | id in batch
      ensures Count(batch, id) == 1 && (id in s.table ==> Undecided(s, s.table[id]))
    {
      assert WaitsOnce(s, id);
      CountAppend(batch, s.queue[n..], id);
      CountPositive(batch, id);
      QueueWaits(s, id);
    }
    forall i, j | 0 <= i < j < |batch|
      ensures batch[i] != batch[j]
    {
      assert batch == batch[..j] + batch[j..];
      CountAppend(batch[..j], batch[j..], batch[j]);
      CountPositive(batch[..j], batch[j]);
      CountPositive(batch[j..], batch[j]);
      assert batch[j..][0] == batch[j] && batch[..j][i] == batch[i];
    }
  }

  lemma QueueWaits(s: State, id: TraceId)
    ensures Count(s.queue, id) <= Waits(s, id)
  {
  }

  /** A tick over `batch` leaves trace `t` as it should: decided by its policies on the trace as it was, if it was
      listed, which only an undecided one is. */
  ghost predicate DecidedOnce(objs: seq<TraceData>, table: map<TraceId, nat>, batch: seq<TraceId>,
                              evaluate: TraceData -> seq<Evaluation>, t: nat, after: TraceData)
  {
    t < |objs|
    && if exists id :: id in batch && id in table && table[id] == t
       then objs[t].finalDecision.Unspecified? && after == objs[t].(finalDecision := DecisionOf(evaluate(objs[t])))
       else after == objs[t]
  }

  lemma TickIsOrderly(objs: seq<TraceData>, table: map<TraceId, nat>, batch: seq<TraceId>,
                      evaluate: TraceData -> seq<Evaluation>)
    requires OrderlyBatch(objs, table, batch)
    ensures forall t :: 0 <= t < |objs| ==>
              DecidedOnce(objs, table, batch, evaluate, t, Ticked(objs, table, batch, evaluate).objs[t])
  {
    hide Ticked;
    forall t | 0 <= t < |objs|
      ensures DecidedOnce(objs, table, batch, evaluate, t, Ticked(objs, table, batch, evaluate).objs[t])
    {
      TickDecides(objs, table, batch, evaluate, t);
    }
  }

  /** The traces after trace `t` was decided by its policies, and the copy that is sent if it was sampled. */
  function Judged(objs: seq<TraceData>, t: nat, evaluate: TraceData -> seq<Evaluation>): (r: seq<TraceData>)
    requires t < |objs|
    ensures |r| == |objs|
  {
    objs[t := objs[t].(finalDecision := DecisionOf(evaluate(objs[t])))]
  }

  function CopyOf(objs: seq<TraceData>, t: nat, evaluate: TraceData -> seq<Evaluation>): seq<Delivery>
    requires t < |objs|
  {
    if DecisionOf(evaluate(objs[t])) == Sampled then [Delivery(t, objs[t].received)] else []
  }

  datatype Tick = Tick(objs: seq<TraceData>, sent: seq<Delivery>)

  /** What a batch leaves of the traces, and what it sends. */
  function Ticked(objs: seq<TraceData>, table: map<TraceId, nat>, batch: seq<TraceId>,
                  evaluate: TraceData -> seq<Evaluation>): (r: Tick)
    requires forall id :: id in table ==> table[id] < |objs|
    ensures |r.objs| == |objs|
  {
    if batch == [] then Tick(objs, [])
    else
      var before, id := Ticked(objs, table, batch[..|batch| - 1], evaluate), batch[|batch| - 1];
      if id in table
        then Tick(Judged(before.objs, table[id], evaluate), before.sent + CopyOf(before.objs, table[id], evaluate))
      else before
  }

  lemma TickedNone(objs: seq<TraceData>, table: map<TraceId, nat>, batch: seq<TraceId>,
                   evaluate: TraceData -> seq<Evaluation>)
    requires forall id :: id in table ==> table[id] < |objs|
    ensures Ticked(objs, table, batch[..0], evaluate) == Tick(objs, [])
  {
  }

  lemma TotalNone(batch: seq<TraceId>, f: TraceId -> nat)
    ensures Total(batch[..0], f) == 0
  {
  }

  lemma TickedNext(objs: seq<TraceData>, table: map<TraceId, nat>, batch: seq<TraceId>,
                   evaluate: TraceData -> seq<Evaluation>, k: nat)
    requires k < |batch| && forall id :: id in table ==> table[id] < |objs|
    ensures var before := Ticked(objs, table, batch[..k], evaluate);
            Ticked(objs, table, batch[..k + 1], evaluate)
            == if batch[k] in table
               then Tick(Judged(before.objs, table[batch[k]], evaluate),
                         before.sent + CopyOf(before.objs, table[batch[k]], evaluate))
               else before
  {
    assert batch[..k + 1][..k] == batch[..k];
  }

  /** When no id is listed twice and no two ids share a trace, each listed trace is decided by its policies on the trace
      as it was before the tick, and no other trace is touched. */
  lemma {:induction false} TickDecides(objs: seq<TraceData>, table: map<TraceId, nat>, batch: seq<TraceId>,
                                       evaluate: TraceData -> seq<Evaluation>, t: nat)
    requires forall id :: id in table ==> table[id] < |objs|
    requires forall i, j :: 0 <= i < j < |batch| ==> batch[i] != batch[j]
    requires forall id, other :: id in table && other in table && id != other ==> table[id] != table[other]
    requires t < |objs|
    ensures var decided := exists id :: id in batch && id in table && table[id] == t;
            && Ticked(objs, table, batch, evaluate).objs[t]
                 == (if decided then Judged(objs, t, evaluate)[t] else objs[t])
            && forall spans :: Delivery(t, spans) in Ticked(objs, table, batch, evaluate).sent <==>
                 decided && Delivery(t, spans) in CopyOf(objs, t, evaluate)
  {
    if batch != [] {
      var n := |batch| - 1;
      assert batch == batch[..n] + [batch[n]];
      TickDecides(objs, table, batch[..n], evaluate, t);
      if batch[n] in table && table[batch[n]] == t {
        assert batch[n] !in batch[..n];
      }
    }
  }

  function MissingFrom(table: map<TraceId, nat>): TraceId -> nat {
    (id: TraceId) => if id in table then 0 else 1
  }
}
