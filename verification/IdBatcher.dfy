/** The id batcher: the goroutine that fills its batches, its reader and `Stop`. */
module IdBatcher {

  type Id = nat
  type Batch = seq<Id>

  datatype Filler = Ranging | Moving(id: Id) | Signalling | Ended
  datatype Stopper = Running | WantLock | Locked | Released | Finished
  datatype Reader = Outside | Took(batch: Batch)

  /** A pipeline of `numBatches` batches, a batch under construction, and a channel of ids for it. `added`,
      `closed`, `taken` and `finals` are history: ids accepted, batches pushed, batches returned with `true`, and
      batches returned with `false`. */
  datatype State = State(
    numBatches: nat,
    channelSize: nat,
    pending: seq<Id>,
    batches: seq<Batch>,
    current: Batch,
    stopped: bool,
    filler: Filler,
    stopper: Stopper,
    reader: Reader,
    added: seq<Id>,
    closed: seq<Batch>,
    taken: seq<Batch>,
    finals: seq<Batch>)

  /** One event for every point where the goroutines can interleave: channel operations and critical sections. */
  datatype Event =
    | Add(id: Id)
    | Receive          // the filler receives an id from the channel
    | Append           // and appends it to the current batch, under cbMutex
    | EndOfIds         // the filler's range loop ends
    | ClosePending     // Stop: close(pendingIds)
    | AcquireLock      // Stop: stopLock.Lock()
    | Handshake        // Stop: stopped = <-stopchan, then stopLock.Unlock()
    | CloseBatches     // Stop: close(batches)
    | TakeFirst        // the reader receives from the batches channel
    | PushCurrent      // and, under stopLock.RLock(), pushes the current batch unless stopped
    | TakeCurrent      // the reader finds the batches channel closed and drained

  predicate PendingClosed(s: State) { !s.stopper.Running? }
  predicate BatchesClosed(s: State) { s.stopper.Finished? }

  ghost predicate Initial(s: State) {
    && s.numBatches >= 1 && s.channelSize >= 1
    && s.pending == [] && s.batches == seq(s.numBatches, _ => []) && s.current == []
    && !s.stopped && s.filler == Ranging && s.stopper == Running && s.reader == Outside
    && s.added == [] && s.closed == [] && s.taken == [] && s.finals == []
  }

  /** A step is enabled when its goroutine is at that point and the channel or lock does not block it. Callers do not
      add ids after `Stop` (the source documents a panic for that). */
  predicate Enabled(s: State, e: Event) {
    match e
    case Add(_) => s.stopper.Running? && |s.pending| < s.channelSize
    case Receive => s.filler.Ranging? && s.pending != []
    case Append => s.filler.Moving?
    case EndOfIds => s.filler.Ranging? && s.pending == [] && PendingClosed(s)
    case ClosePending => s.stopper.Running?
    case AcquireLock => s.stopper.WantLock?
    case Handshake => s.stopper.Locked? && s.filler.Signalling?
    case CloseBatches => s.stopper.Released?
    case TakeFirst => s.reader.Outside? && s.batches != []
    case PushCurrent => s.reader.Took? && !s.stopper.Locked?
      && (s.stopped || |s.batches| < s.numBatches)
    case TakeCurrent => s.reader.Outside? && s.batches == [] && BatchesClosed(s)
  }

  function Next(s: State, e: Event): State
    requires Enabled(s, e)
  {
    match e
    case Add(id) => s.(pending := s.pending + [id], added := s.added + [id])
    case Receive => s.(filler := Moving(s.pending[0]), pending := s.pending[1..])
    case Append => s.(filler := Ranging, current := s.current + [s.filler.id])
    case EndOfIds => s.(filler := Signalling)
    case ClosePending => s.(stopper := WantLock)
    case AcquireLock => s.(stopper := Locked)
    case Handshake => s.(stopper := Released, stopped := true, filler := Ended)
    case CloseBatches => s.(stopper := Finished)
    case TakeFirst => s.(reader := Took(s.batches[0]), batches := s.batches[1..])
    case PushCurrent =>
      var s1 := s.(reader := Outside, taken := s.taken + [s.reader.batch]);
      if s.stopped then s1
      else s1.(batches := s.batches + [s.current], closed := s.closed + [s.current], current := [])
    case TakeCurrent => s.(finals := s.finals + [s.current], current := [])
  }

  datatype Outcome = Stuck | Reached(state: State)

  function Run(s: State, es: seq<Event>): Outcome {
    if es == [] then Reached(s)
    else
      match Run(s, es[..|es| - 1])
      case Stuck => Stuck
      case Reached(t) => if Enabled(t, es[|es| - 1]) then Reached(Next(t, es[|es| - 1])) else Stuck
  }

  lemma RunSnoc(s: State, es: seq<Event>, e: Event)
    requires Run(s, es).Reached? && Enabled(Run(s, es).state, e)
    ensures Run(s, es + [e]) == Reached(Next(Run(s, es).state, e))
  {
    assert (es + [e])[..|es|] == es;
  }

  function Concat(bs: seq<Batch>): seq<Id> {
    if bs == [] then [] else Concat(bs[..|bs| - 1]) + bs[|bs| - 1]
  }

  lemma ConcatSnoc(bs: seq<Batch>, b: Batch)
    ensures Concat(bs + [b]) == Concat(bs) + b
  {
    assert (bs + [b])[..|bs|] == bs;
  }

  lemma {:induction false} ConcatAppend(bs: seq<Batch>, cs: seq<Batch>)
    ensures Concat(bs + cs) == Concat(bs) + Concat(cs)
  {
    if cs == [] {
      assert bs + cs == bs;
    } else {
      var n := |cs| - 1;
      assert bs + cs == bs + cs[..n] + [cs[n]];
      ConcatSnoc(bs + cs[..n], cs[n]);
      ConcatAppend(bs, cs[..n]);
    }
  }

  lemma {:induction false} ConcatEmpties(n: nat)
    ensures Concat(Empties(n)) == []
  {
    if n > 0 {
      assert Empties(n) == Empties(n - 1) + [[]];
      ConcatSnoc(Empties(n - 1), []);
      ConcatEmpties(n - 1);
    }
  }

  function Empties(n: nat): seq<Batch> { seq(n, _ => []) }

  function InReader(s: State): seq<Batch> { if s.reader.Took? then [s.reader.batch] else [] }
  function InFiller(s: State): seq<Id> { if s.filler.Moving? then [s.filler.id] else [] }

  /** The pipeline is a queue that started with `numBatches` empty batches. */
  ghost predicate Pipeline(s: State) {
    && s.taken + InReader(s) + s.batches == Empties(s.numBatches) + s.closed
    && (!s.stopped ==> |s.closed| == |s.taken|)
  }

  function Chain(pushed: seq<Id>, drained: seq<Id>, current: seq<Id>, moving: seq<Id>, pending: seq<Id>): seq<Id> {
    pushed + drained + current + moving + pending
  }

  /** Every id that was added is somewhere, once, and in order. */
  ghost predicate Conserved(s: State) {
    Chain(Concat(s.closed), Concat(s.finals), s.current, InFiller(s), s.pending) == s.added
  }

  ghost predicate Protocol(s: State) {
    && s.numBatches >= 1 && |s.pending| <= s.channelSize
    && s.stopped == (s.stopper.Released? || s.stopper.Finished?) == s.filler.Ended?
    && (s.filler.Signalling? || s.filler.Ended? ==> PendingClosed(s) && s.pending == [])
    && (s.finals != [] ==> BatchesClosed(s) && s.batches == [] && s.current == [] && s.reader.Outside?)
  }

  ghost predicate Inv(s: State) { Pipeline(s) && Conserved(s) && Protocol(s) }

  lemma InitialInv(s: State)
    requires Initial(s)
    ensures Inv(s)
  {
  }

  lemma ProtocolKept(s: State, e: Event)
    requires Protocol(s) && Enabled(s, e)
    ensures Protocol(Next(s, e))
  {
  }

  lemma PipelineKept(s: State, e: Event)
    requires Pipeline(s) && Protocol(s) && Enabled(s, e)
    ensures Pipeline(Next(s, e))
  {
    var s' := Next(s, e);
    if e.TakeFirst? {
      assert s.taken + [] + s.batches == s'.taken + InReader(s') + s'.batches;
    } else if e.PushCurrent? {
      assert s.taken + InReader(s) == s'.taken && InReader(s') == [];
      if !s.stopped {
        assert s'.taken + [] + s'.batches == s.taken + InReader(s) + s.batches + [s.current];
        assert Empties(s.numBatches) + s'.closed == Empties(s.numBatches) + s.closed + [s.current];
      }
    }
  }

  lemma ConcatNone()
    ensures Concat([]) == []
  {
  }

  lemma ConservedKept(s: State, e: Event)
    requires Conserved(s) && Protocol(s) && Enabled(s, e)
    ensures Conserved(Next(s, e))
  {
    hide Concat;
    ConcatNone();
    ConcatSnoc(s.closed, s.current);
    ConcatSnoc(s.finals, s.current);
    assert e.Receive? ==> s.pending == [s.pending[0]] + s.pending[1..];
  }

  lemma InvKept(s: State, e: Event)
    requires Inv(s) && Enabled(s, e)
    ensures Inv(Next(s, e))
  {
    ProtocolKept(s, e);
    PipelineKept(s, e);
    ConservedKept(s, e);
  }

  lemma {:induction false} RunInv(s: State, es: seq<Event>)
    requires Inv(s) && Run(s, es).Reached?
    ensures Inv(Run(s, es).state)
    ensures Run(s, es).state.numBatches == s.numBatches && Run(s, es).state.channelSize == s.channelSize
  {
    if es != [] {
      RunInv(s, es[..|es| - 1]);
      InvKept(Run(s, es[..|es| - 1]).state, es[|es| - 1]);
    }
  }

  /** Between its receive and its push the reader never finds the batches channel closed, on which a send would
      panic; and once it may enter its critical section, the push does not block: the batch it took left a slot free.
      The channels never hold more than they have room for. */
  lemma NeverPanicsNorBlocks(s: State, es: seq<Event>)
    requires Initial(s) && Run(s, es).Reached?
    ensures var r := Run(s, es).state;
            && |r.pending| <= s.channelSize && |r.batches| <= s.numBatches
            && (r.reader.Took? && !r.stopped ==> !r.stopper.Finished? && |r.batches| < s.numBatches)
            && (r.reader.Took? && !r.stopper.Locked? ==> Enabled(r, PushCurrent))
  {
    RunInv(s, es);
    var r := Run(s, es).state;
    if r.stopped {
      NeverMoreBatches(s, es);
    } else {
      assert |r.taken + InReader(r) + r.batches| == |Empties(r.numBatches) + r.closed|;
    }
  }

  lemma {:induction false} NeverMoreBatches(s: State, es: seq<Event>)
    requires Initial(s) && Run(s, es).Reached?
    ensures |Run(s, es).state.batches| <= s.numBatches
  {
    if es != [] {
      NeverMoreBatches(s, es[..|es| - 1]);
      RunInv(s, es[..|es| - 1]);
    }
  }

  lemma {:induction false} HistoryGrows(s: State, es: seq<Event>)
    requires Run(s, es).Reached?
    ensures s.closed <= Run(s, es).state.closed && s.taken <= Run(s, es).state.taken
  {
    if es != [] {
      HistoryGrows(s, es[..|es| - 1]);
    }
  }

  /** Batch number `j` of the pipeline, counted from the first empty one, is what take number `j` returns. */
  lemma TakenIsPipeline(s: State, j: nat)
    requires Pipeline(s) && j < |s.taken|
    ensures j < s.numBatches ==> s.taken[j] == []
    ensures j >= s.numBatches ==> j - s.numBatches < |s.closed| && s.taken[j] == s.closed[j - s.numBatches]
  {
    assert s.taken[j] == (s.taken + InReader(s) + s.batches)[j] == (Empties(s.numBatches) + s.closed)[j];
  }

  /** Fixed delay. The batch that take number `j` closes is the batch that take number `j + numBatches` returns,
      whatever is interleaved in between. */
  lemma FixedDelay(s: State, es: seq<Event>, more: seq<Event>)
    requires Initial(s) && Run(s, es).Reached?
    requires !Run(s, es).state.stopped && Enabled(Run(s, es).state, PushCurrent)
    requires Run(Next(Run(s, es).state, PushCurrent), more).Reached?
    ensures var r := Run(s, es).state;
            var end := Run(Next(r, PushCurrent), more).state;
            var j := |r.taken|;
            && j < |end.taken| && end.taken[j] == r.reader.batch
            && (j + s.numBatches < |end.taken| ==> end.taken[j + s.numBatches] == r.current)
  {
    hide Run, Next, Enabled, Initial, Inv;
    InitialInv(s);
    RunInv(s, es);
    var r := Run(s, es).state;
    PushedBatchIsTaken(r, more);
  }

  /** The push of take number `j` closes batch number `j`. */
  lemma PushFacts(r: State)
    requires Inv(r) && !r.stopped && Enabled(r, PushCurrent)
    ensures var r1 := Next(r, PushCurrent);
            && r1.taken == r.taken + [r.reader.batch] && r1.closed == r.closed + [r.current]
            && |r.closed| == |r.taken| && r1.numBatches == r.numBatches
  {
  }

  lemma PushedBatchIsTaken(r: State, more: seq<Event>)
    requires Inv(r) && !r.stopped && Enabled(r, PushCurrent) && Run(Next(r, PushCurrent), more).Reached?
    ensures var end := Run(Next(r, PushCurrent), more).state;
            var j := |r.taken|;
            && j < |end.taken| && end.taken[j] == r.reader.batch
            && (j + r.numBatches < |end.taken| ==> end.taken[j + r.numBatches] == r.current)
  {
    hide Run, Next, Enabled, Pipeline, Conserved, Protocol;
    var r1 := Next(r, PushCurrent);
    PushFacts(r);
    InvKept(r, PushCurrent);
    RunInv(r1, more);
    HistoryGrows(r1, more);
    var end := Run(r1, more).state;
    assert end.closed[|r.taken|] == r1.closed[|r.taken|];
    assert end.taken[|r.taken|] == r1.taken[|r.taken|];
    if |r.taken| + r.numBatches < |end.taken| {
      TakenIsPipeline(end, |r.taken| + r.numBatches);
    }
  }

  /** Clients may start taking at once: the first `numBatches` takes return nothing. */
  lemma FirstTakesAreEmpty(s: State, es: seq<Event>, j: nat)
    requires Initial(s) && Run(s, es).Reached? && j < s.numBatches && j < |Run(s, es).state.taken|
    ensures Run(s, es).state.taken[j] == []
  {
    RunInv(s, es);
    TakenIsPipeline(Run(s, es).state, j);
  }

  lemma TakenPart(s: State)
    requires Pipeline(s)
    ensures Concat(s.taken + InReader(s)) + Concat(s.batches) == Concat(s.closed)
  {
    hide Concat;
    ConcatEmpties(s.numBatches);
    ConcatAppend(Empties(s.numBatches), s.closed);
    ConcatAppend(s.taken + InReader(s), s.batches);
  }

  /** At any time the takes together have returned the first of the ids that were added, in the order of the
      additions. */
  lemma TakesInOrder(s: State, es: seq<Event>)
    requires Initial(s) && Run(s, es).Reached?
    ensures var r := Run(s, es).state; Concat(r.taken) + Concat(r.finals) <= r.added
  {
    RunInv(s, es);
    hide Run, Initial;
    var r := Run(s, es).state;
    if r.finals != [] {
      DrainedInv(r);
    } else {
      TakenPart(r);
      ConcatAppend(r.taken, InReader(r));
    }
  }

  /** Draining after Stop. When a take has returned `false`, the takes together have returned every id that was ever
      added, once, in the order of the additions. */
  lemma DrainReturnsEverything(s: State, es: seq<Event>)
    requires Initial(s) && Run(s, es).Reached? && Run(s, es).state.finals != []
    ensures var r := Run(s, es).state; Concat(r.taken) + Concat(r.finals) == r.added
  {
    RunInv(s, es);
    DrainedInv(Run(s, es).state);
  }

  lemma DrainedInv(r: State)
    requires Inv(r) && r.finals != []
    ensures Concat(r.taken) + Concat(r.finals) == r.added
  {
    assert r.current == [] && InFiller(r) == [] && r.pending == [] && InReader(r) == [];
    assert r.taken == r.taken + InReader(r) + r.batches;
    ConcatEmpties(r.numBatches);
    ConcatAppend(Empties(r.numBatches), r.closed);
    assert Concat(r.taken) == Concat(r.closed);
  }

  /** What `Stop` still has to wait for. */
  function StopMeasure(s: State): nat {
    3 * |s.pending|
    + (match s.filler case Ranging => 1 case Moving(_) => 2 case Signalling => 0 case Ended => 0)
    + (match s.stopper case Running => 4 case WantLock => 3 case Locked => 2 case Released => 1 case Finished => 0)
  }

  /** Stop always completes: until it has, one of its own steps or of the filler's is possible; each of them brings
      it closer, and nothing the reader does sets it back. */
  lemma StopProgress(s: State) returns (e: Event)
    requires Inv(s) && !s.stopper.Running? && !s.stopper.Finished?
    ensures Enabled(s, e) && StopMeasure(Next(s, e)) < StopMeasure(s)
    ensures forall e' :: Enabled(s, e') ==> StopMeasure(Next(s, e')) <= StopMeasure(s)
  {
    e := match s.stopper
      case WantLock => AcquireLock
      case Released => CloseBatches
      case _ =>
        if s.filler.Moving? then Append
        else if s.filler.Signalling? then Handshake
        else if s.pending != [] then Receive
        else EndOfIds;
  }
}
