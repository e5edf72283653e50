/** The producers and the consumer of one push of the log exporter, under an arbitrary scheduler. */
module LogExporter {
  import opened Tally

  /** `now` is what the clock shows when the record's worker reads it; `resource` stands for the serialized resource
      attributes and `fingerprint` for what they would be fingerprinted to. */
  datatype LogRecord = LogRecord(timestamp: nat, observed: nat, now: nat, resource: nat, fingerprint: nat)

  function ObservedTs(r: LogRecord): nat { if r.observed == 0 then r.now else r.observed }

  function EffectiveTs(r: LogRecord): nat { if r.timestamp == 0 then ObservedTs(r) else r.timestamp }

  const BUCKET_SECONDS := 1800
  const NANOS_PER_SECOND := 1_000_000_000

  function TsBucket(ts: nat): nat { ts / NANOS_PER_SECOND / BUCKET_SECONDS * BUCKET_SECONDS }

  datatype ResourceKey = ResourceKey(bucket: nat, resource: nat)

  function KeyOf(r: LogRecord): ResourceKey { ResourceKey(TsBucket(EffectiveTs(r)), r.resource) }

  predicate TooOld(r: LogRecord, oldestAllowedTs: nat) { EffectiveTs(r) < oldestAllowedTs }

  /** Where the worker of a record is. */
  datatype Phase = NotSpawned | Running | Stamped(fingerprint: nat) | Returning | Released | Done

  function HoldsSlot(p: Phase): nat { if p.Running? || p.Stamped? || p.Returning? then 1 else 0 }
  function InGroup(p: Phase): nat { if p.NotSpawned? || p.Done? then 0 else 1 }

  /** Steps left to a worker, counting the consumer's step for its record. */
  function StepsLeft(p: Phase): nat {
    match p
    case NotSpawned => 6
    case Running => 5
    case Stamped(_) => 4
    case Returning => 2
    case Released => 1
    case Done => 0
  }

  predicate PastSend(p: Phase) { p.Returning? || p.Released? || p.Done? }

  /** A row of the logs table: which record it is of, its timestamps, its bucket and resource, and its fingerprint. */
  datatype Appended = Appended(record: nat, ts: nat, observed: nat, key: ResourceKey, fingerprint: nat)

  function RowOf(records: seq<LogRecord>, i: nat, fingerprint: nat): Appended
    requires i < |records|
  {
    Appended(i, EffectiveTs(records[i]), ObservedTs(records[i]), KeyOf(records[i]), fingerprint)
  }

  function RecordIs(i: nat): Appended -> nat { (a: Appended) => if a.record == i then 1 else 0 }

  lemma SomeCounts<T>(ts: seq<T>, f: T -> nat)
    requires Total(ts, f) > 0
    ensures exists i :: 0 <= i < |ts| && f(ts[i]) > 0
  {
    if forall i :: 0 <= i < |ts| ==> f(ts[i]) == 0 {
      TotalZero(ts, f);
    }
  }

  lemma PhaseMoves(phases: seq<Phase>, i: nat, p: Phase)
    requires i < |phases|
    ensures Total(phases[i := p], HoldsSlot) + HoldsSlot(phases[i]) == Total(phases, HoldsSlot) + HoldsSlot(p)
    ensures Total(phases[i := p], InGroup) + InGroup(phases[i]) == Total(phases, InGroup) + InGroup(p)
    ensures HoldsSlot(phases[i]) <= Total(phases, HoldsSlot) && InGroup(phases[i]) <= Total(phases, InGroup)
    ensures Total(phases[i := p], StepsLeft) + StepsLeft(phases[i]) == Total(phases, StepsLeft) + StepsLeft(p)
  {
    TotalUpdate(phases, i, p, HoldsSlot);
    TotalUpdate(phases, i, p, InGroup);
    TotalUpdate(phases, i, p, StepsLeft);
  }

  /** A row carries the bucket and resource of its record, and the fingerprint registered for them. */
  ghost predicate Faithful(a: Appended, records: seq<LogRecord>, seen: map<ResourceKey, nat>) {
    a.record < |records| && a.key in seen && a == RowOf(records, a.record, seen[a.key])
  }

  /** The fingerprint of a key is that of one of its records. */
  predicate Fingerprints(r: LogRecord, key: ResourceKey, seen: map<ResourceKey, nat>) {
    key in seen && KeyOf(r) == key && seen[key] == r.fingerprint
  }

  /** Worker `i` is past registering its fingerprint. */
  predicate Registered(records: seq<LogRecord>, oldestAllowedTs: nat, phases: seq<Phase>, i: nat)
    requires |phases| == |records| && i < |records|
  {
    !TooOld(records[i], oldestAllowedTs) && (phases[i].Stamped? || PastSend(phases[i]))
  }

  /** Each record past its send, and only those, is in the channel or in the batch, once, unless it is too old. */
  ghost predicate SentOnce(records: seq<LogRecord>, oldestAllowedTs: nat, phases: seq<Phase>,
                           sent: seq<Appended>, i: nat)
    requires |phases| == |records|
  {
    Total(sent, RecordIs(i)) ==
      if i < |records| && PastSend(phases[i]) && !TooOld(records[i], oldestAllowedTs) then 1 else 0
  }

  ghost predicate Delivered(records: seq<LogRecord>, oldestAllowedTs: nat, phases: seq<Phase>, sent: seq<Appended>,
                            seen: map<ResourceKey, nat>)
    requires |phases| == |records|
  {
    && (forall i: nat :: SentOnce(records, oldestAllowedTs, phases, sent, i))
    && (forall a :: a in sent ==> Faithful(a, records, seen))
    && (forall i :: 0 <= i < |phases| && phases[i].Stamped? ==>
          Registered(records, oldestAllowedTs, phases, i)
          && KeyOf(records[i]) in seen && phases[i].fingerprint == seen[KeyOf(records[i])])
    && (forall key :: key in seen ==>
          exists i :: 0 <= i < |records| && Fingerprints(records[i], key, seen)
                      && Registered(records, oldestAllowedTs, phases, i))
  }

  /** A worker's step that neither registers nor sends leaves the deliveries alone. */
  lemma QuietStep(records: seq<LogRecord>, oldestAllowedTs: nat, phases: seq<Phase>, i: nat, p: Phase,
                  sent: seq<Appended>,
                  seen: map<ResourceKey, nat>)
    requires |phases| == |records| && i < |records| && Delivered(records, oldestAllowedTs, phases, sent, seen)
    requires !p.Stamped? && !phases[i].Stamped?
    requires PastSend(phases[i]) == PastSend(p) || TooOld(records[i], oldestAllowedTs)
    ensures Delivered(records, oldestAllowedTs, phases[i := p], sent, seen)
  {
    hide Total, TooOld, KeyOf;
    var phases' := phases[i := p];
    forall j: nat
      ensures SentOnce(records, oldestAllowedTs, phases', sent, j)
    {
      assert SentOnce(records, oldestAllowedTs, phases, sent, j);
    }
    forall key | key in seen
      ensures exists j :: 0 <= j < |records| && Fingerprints(records[j], key, seen)
                          && Registered(records, oldestAllowedTs, phases', j)
    {
      var j :| 0 <= j < |records| && Fingerprints(records[j], key, seen)
               && Registered(records, oldestAllowedTs, phases, j);
      assert Registered(records, oldestAllowedTs, phases', j);
    }
  }

  /** `getOrCreateFingerprint`: the first worker of a key registers its fingerprint, the others take that one. */
  lemma RegisterStep(records: seq<LogRecord>, oldestAllowedTs: nat, phases: seq<Phase>, i: nat, sent: seq<Appended>,
                     seen: map<ResourceKey, nat>, seen': map<ResourceKey, nat>)
    requires |phases| == |records| && i < |records| && Delivered(records, oldestAllowedTs, phases, sent, seen)
    requires phases[i].Running? && !TooOld(records[i], oldestAllowedTs)
    requires KeyOf(records[i]) in seen' && forall key :: key in seen ==> key in seen' && seen'[key] == seen[key]
    requires forall key :: key in seen' ==> key in seen || Fingerprints(records[i], key, seen')
    ensures Delivered(records, oldestAllowedTs, phases[i := Stamped(seen'[KeyOf(records[i])])], sent, seen')
  {
    hide Total, TooOld, KeyOf;
    var phases' := phases[i := Stamped(seen'[KeyOf(records[i])])];
    forall j: nat
      ensures SentOnce(records, oldestAllowedTs, phases', sent, j)
    {
      assert SentOnce(records, oldestAllowedTs, phases, sent, j);
    }
    assert Registered(records, oldestAllowedTs, phases', i);
    forall key | key in seen'
      ensures exists j :: 0 <= j < |records| && Fingerprints(records[j], key, seen')
                          && Registered(records, oldestAllowedTs, phases', j)
    {
      if key in seen {
        var j :| 0 <= j < |records| && Fingerprints(records[j], key, seen)
                 && Registered(records, oldestAllowedTs, phases, j);
        assert Registered(records, oldestAllowedTs, phases', j);
      }
    }
  }

  lemma SendStep(records: seq<LogRecord>, oldestAllowedTs: nat, phases: seq<Phase>, i: nat, sent: seq<Appended>,
                 seen: map<ResourceKey, nat>)
    requires |phases| == |records| && i < |records| && Delivered(records, oldestAllowedTs, phases, sent, seen)
    requires phases[i].Stamped?
    ensures Delivered(records, oldestAllowedTs, phases[i := Returning],
                      sent + [RowOf(records, i, phases[i].fingerprint)], seen)
  {
    hide Total, TooOld, KeyOf, EffectiveTs, ObservedTs;
    var phases', a := phases[i := Returning], RowOf(records, i, phases[i].fingerprint);
    assert Registered(records, oldestAllowedTs, phases, i);
    forall j: nat
      ensures SentOnce(records, oldestAllowedTs, phases', sent + [a], j)
    {
      assert SentOnce(records, oldestAllowedTs, phases, sent, j);
      TotalSnoc(sent, a, RecordIs(j));
    }
    forall key | key in seen
      ensures exists j :: 0 <= j < |records| && Fingerprints(records[j], key, seen)
                          && Registered(records, oldestAllowedTs, phases', j)
    {
      var j :| 0 <= j < |records| && Fingerprints(records[j], key, seen)
               && Registered(records, oldestAllowedTs, phases, j);
      assert Registered(records, oldestAllowedTs, phases', j);
    }
  }

  /** What the batch and the resource table hold when the push is over. */
  ghost predicate Complete(records: seq<LogRecord>, oldestAllowedTs: nat, appended: seq<Appended>,
                           seen: map<ResourceKey, nat>) {
    && (forall i: nat :: Total(appended, RecordIs(i)) ==
          if i < |records| && !TooOld(records[i], oldestAllowedTs) then 1 else 0)
    && (forall a :: a in appended ==> Faithful(a, records, seen))
    && (forall i :: 0 <= i < |records| && !TooOld(records[i], oldestAllowedTs) ==> KeyOf(records[i]) in seen)
    && (forall key :: key in seen ==> Sourced(records, oldestAllowedTs, seen, key))
  }

  predicate Sourced(records: seq<LogRecord>, oldestAllowedTs: nat, seen: map<ResourceKey, nat>, key: ResourceKey) {
    exists i :: 0 <= i < |records| && Fingerprints(records[i], key, seen) && !TooOld(records[i], oldestAllowedTs)
  }

  lemma AllDelivered(records: seq<LogRecord>, oldestAllowedTs: nat, phases: seq<Phase>, sent: seq<Appended>,
                     seen: map<ResourceKey, nat>)
    requires |phases| == |records| && Delivered(records, oldestAllowedTs, phases, sent, seen)
    requires forall i :: 0 <= i < |phases| ==> phases[i].Done?
    ensures Complete(records, oldestAllowedTs, sent, seen)
  {
    hide Total, TooOld, KeyOf;
    forall i: nat
      ensures Total(sent, RecordIs(i)) == if i < |records| && !TooOld(records[i], oldestAllowedTs) then 1 else 0
    {
      assert SentOnce(records, oldestAllowedTs, phases, sent, i);
    }
    forall i | 0 <= i < |records| && !TooOld(records[i], oldestAllowedTs)
      ensures KeyOf(records[i]) in seen
    {
      assert SentOnce(records, oldestAllowedTs, phases, sent, i);
      SomeCounts(sent, RecordIs(i));
      var k :| 0 <= k < |sent| && RecordIs(i)(sent[k]) > 0;
      assert Faithful(sent[k], records, seen);
    }
    forall key | key in seen
      ensures Sourced(records, oldestAllowedTs, seen, key)
    {
      var j :| 0 <= j < |records| && Fingerprints(records[j], key, seen)
               && Registered(records, oldestAllowedTs, phases, j);
    }
  }

  /** Buckets are half hours, in seconds; times are in nanoseconds. */
  predicate InItsBucket(bucket: nat, ts: nat) {
    bucket % 1800 == 0 && bucket * 1_000_000_000 <= ts < (bucket + 1800) * 1_000_000_000
  }

  lemma BucketHolds(ts: nat)
    ensures InItsBucket(TsBucket(ts), ts)
  {
    var seconds := ts / NANOS_PER_SECOND;
    var b := seconds / BUCKET_SECONDS;
    assert seconds * NANOS_PER_SECOND <= ts < (seconds + 1) * NANOS_PER_SECOND;
    assert b * BUCKET_SECONDS <= seconds < (b + 1) * BUCKET_SECONDS;
    assert (b * BUCKET_SECONDS) % BUCKET_SECONDS == 0;
  }

  /** What Complete says, in the fields of the records. */
  lemma CompleteRecords(records: seq<LogRecord>, oldestAllowedTs: nat, appended: seq<Appended>,
                        seen: map<ResourceKey, nat>)
    requires Complete(records, oldestAllowedTs, appended, seen)
    ensures forall i :: 0 <= i < |records| ==>
              var r := records[i];
              var observed := if r.observed != 0 then r.observed else r.now;
              var ts := if r.timestamp != 0 then r.timestamp else observed;
              Total(appended, RecordIs(i)) == if ts >= oldestAllowedTs then 1 else 0
  {
    hide Total, Faithful, Fingerprints, KeyOf;
  }

  lemma CompleteRows(records: seq<LogRecord>, oldestAllowedTs: nat, appended: seq<Appended>,
                     seen: map<ResourceKey, nat>)
    requires Complete(records, oldestAllowedTs, appended, seen)
    ensures forall a :: a in appended ==>
              && a.record < |records|
              && var r := records[a.record];
                 && a.observed == (if r.observed != 0 then r.observed else r.now)
                 && a.ts == (if r.timestamp != 0 then r.timestamp else a.observed)
                 && a.key.resource == r.resource && InItsBucket(a.key.bucket, a.ts)
                 && a.key in seen && a.fingerprint == seen[a.key]
  {
    hide Total, TsBucket, InItsBucket, TooOld, Fingerprints;
    forall a | a in appended
      ensures InItsBucket(TsBucket(a.ts), a.ts) && Faithful(a, records, seen)
    {
      BucketHolds(a.ts);
    }
  }

  lemma CompleteResources(records: seq<LogRecord>, oldestAllowedTs: nat, appended: seq<Appended>,
                          seen: map<ResourceKey, nat>)
    requires Complete(records, oldestAllowedTs, appended, seen)
    ensures forall key :: key in seen ==>
              exists a :: a in appended && a.key == key && a.record < |records|
                          && seen[key] == records[a.record].fingerprint
  {
    hide Complete;
    forall key | key in seen
      ensures exists a :: a in appended && a.key == key && a.record < |records|
                          && seen[key] == records[a.record].fingerprint
    {
      var a := FirstRow(records, oldestAllowedTs, appended, seen, key);
    }
  }

  lemma FirstRow(records: seq<LogRecord>, oldestAllowedTs: nat, appended: seq<Appended>, seen: map<ResourceKey, nat>,
                 key: ResourceKey) returns (a: Appended)
    requires Complete(records, oldestAllowedTs, appended, seen) && key in seen
    ensures a in appended && a.key == key && a.record < |records| && seen[key] == records[a.record].fingerprint
  {
    hide Total, TooOld, KeyOf, Faithful, RecordIs, Sourced;
    var i := SomeSource(records, oldestAllowedTs, seen, key);
    var k := SomeRow(appended, i);
    a := appended[k];
    RowKey(a, records, seen);
  }

  lemma SomeSource(records: seq<LogRecord>, oldestAllowedTs: nat, seen: map<ResourceKey, nat>, key: ResourceKey)
    returns (i: nat)
    requires Sourced(records, oldestAllowedTs, seen, key)
    ensures i < |records| && Fingerprints(records[i], key, seen) && !TooOld(records[i], oldestAllowedTs)
  {
    i :| 0 <= i < |records| && Fingerprints(records[i], key, seen) && !TooOld(records[i], oldestAllowedTs);
  }

  lemma SomeRow(appended: seq<Appended>, i: nat) returns (k: nat)
    requires Total(appended, RecordIs(i)) > 0
    ensures k < |appended| && appended[k].record == i
  {
    SomeCounts(appended, RecordIs(i));
    k :| 0 <= k < |appended| && RecordIs(i)(appended[k]) > 0;
  }

  lemma RowKey(a: Appended, records: seq<LogRecord>, seen: map<ResourceKey, nat>)
    requires Faithful(a, records, seen)
    ensures a.record < |records| && a.key == KeyOf(records[a.record])
  {
  }

  /** A worker goes on to its next phase; one whose record is too old leaves out the middle. */
  predicate Advances(p: Phase, q: Phase) {
    || (p.NotSpawned? && q.Running?)
    || (p.Running? && (q.Stamped? || q.Returning?))
    || (p.Stamped? && q.Returning?)
    || (p.Returning? && q.Released?)
    || (p.Released? && q.Done?)
  }

  /** The phases of all workers, step by step: one worker advances at a time, and never do more than `limiter` of them
      hold a slot. */
  ghost predicate Schedule(trace: seq<seq<Phase>>, limiter: nat) {
    && (forall k :: 0 <= k < |trace| ==> Total(trace[k], HoldsSlot) <= limiter)
    && (forall k :: 0 <= k < |trace| - 1 ==> OneAdvances(trace[k], trace[k + 1]))
  }

  ghost predicate OneAdvances(before: seq<Phase>, after: seq<Phase>) {
    exists i, p :: 0 <= i < |before| && Advances(before[i], p) && after == before[i := p]
  }

  lemma ScheduleSnoc(trace: seq<seq<Phase>>, phases: seq<Phase>, i: nat, p: Phase, limiter: nat)
    requires Schedule(trace, limiter) && trace != [] && trace[|trace| - 1] == phases && i < |phases|
    requires Advances(phases[i], p) && Total(phases[i := p], HoldsSlot) <= limiter
    ensures Schedule(trace + [phases[i := p]], limiter)
  {
    hide Total, Advances;
    assert OneAdvances(phases, phases[i := p]);
  }

  /** A worker advances without registering or sending anything. */
  lemma QuietMove(records: seq<LogRecord>, oldestAllowedTs: nat, phases: seq<Phase>, i: nat, p: Phase,
                  sent: seq<Appended>, seen: map<ResourceKey, nat>, trace: seq<seq<Phase>>, limiter: nat)
    requires |phases| == |records| && i < |records| && Delivered(records, oldestAllowedTs, phases, sent, seen)
    requires trace != [] && trace[|trace| - 1] == phases && Schedule(trace, limiter)
    requires Advances(phases[i], p) && !p.Stamped? && !phases[i].Stamped?
    requires phases[i].Running? ==> TooOld(records[i], oldestAllowedTs)
    requires Total(phases, HoldsSlot) + HoldsSlot(p) <= limiter + HoldsSlot(phases[i])
    ensures Delivered(records, oldestAllowedTs, phases[i := p], sent, seen)
    ensures Schedule(trace + [phases[i := p]], limiter)
    ensures Total(phases[i := p], HoldsSlot) + HoldsSlot(phases[i]) == Total(phases, HoldsSlot) + HoldsSlot(p)
    ensures Total(phases[i := p], InGroup) + InGroup(phases[i]) == Total(phases, InGroup) + InGroup(p)
    ensures HoldsSlot(phases[i]) <= Total(phases, HoldsSlot) && InGroup(phases[i]) <= Total(phases, InGroup)
    ensures Total(phases[i := p], StepsLeft) + StepsLeft(phases[i]) == Total(phases, StepsLeft) + StepsLeft(p)
  {
    hide Delivered, Schedule, Total, TooOld;
    PhaseMoves(phases, i, p);
    QuietStep(records, oldestAllowedTs, phases, i, p, sent, seen);
    ScheduleSnoc(trace, phases, i, p, limiter);
  }

  /** A worker advances and keeps its slot. */
  lemma BusyMove(phases: seq<Phase>, i: nat, p: Phase, trace: seq<seq<Phase>>, limiter: nat)
    requires i < |phases| && trace != [] && trace[|trace| - 1] == phases && Schedule(trace, limiter)
    requires Advances(phases[i], p) && HoldsSlot(p) == HoldsSlot(phases[i]) == 1 && Total(phases, HoldsSlot) <= limiter
    ensures Schedule(trace + [phases[i := p]], limiter)
    ensures Total(phases[i := p], HoldsSlot) == Total(phases, HoldsSlot)
    ensures Total(phases[i := p], InGroup) == Total(phases, InGroup) > 0
    ensures Total(phases[i := p], StepsLeft) < Total(phases, StepsLeft) - if phases[i].Stamped? then 1 else 0
  {
    hide Schedule, Total;
    PhaseMoves(phases, i, p);
    ScheduleSnoc(trace, phases, i, p, limiter);
  }

  /** A channel of rows. Sending on it or closing it once it is closed would panic. */
  datatype Channel = Channel(capacity: nat, buffered: seq<Appended>, closed: bool) {
    function Send(row: Appended): Channel
      requires !closed && |buffered| < capacity
    {
      this.(buffered := buffered + [row])
    }

    function Receive(): Channel
      requires buffered != []
    {
      this.(buffered := buffered[1..])
    }

    function Close(): Channel
      requires !closed
    {
      this.(closed := true)
    }
  }

  /** The numbers kept by the limiter, the wait group and the channel. */
  ghost predicate Bounded(phases: seq<Phase>, spawned: nat, limiter: nat, slots: nat, waiting: nat, buffered: nat,
                          closed: bool, exited: bool)
  {
    && spawned <= |phases| && (forall i :: 0 <= i < |phases| ==> (phases[i].NotSpawned? <==> i >= spawned))
    && 1 <= limiter && slots == Total(phases, HoldsSlot) <= limiter
    && waiting == Total(phases, InGroup)
    && buffered <= limiter
    && (closed ==> spawned == |phases| && waiting == 0)
    && (exited ==> closed && buffered == 0)
  }

  /** Until the group is done, some step is possible: the protocol does not deadlock. */
  lemma SomeStep(phases: seq<Phase>, spawned: nat, limiter: nat, slots: nat, waiting: nat, buffered: nat, closed: bool,
                 exited: bool)
    requires Bounded(phases, spawned, limiter, slots, waiting, buffered, closed, exited)
    requires !(exited && waiting == 0 && spawned == |phases|)
    ensures (spawned < |phases| && slots < limiter)
            || (exists i :: 0 <= i < |phases| && phases[i].Running?)
            || (buffered < limiter && exists i :: 0 <= i < |phases| && phases[i].Stamped?)
            || (exists i :: 0 <= i < |phases| && phases[i].Returning?)
            || (exists i :: 0 <= i < |phases| && phases[i].Released?)
            || (spawned == |phases| && waiting == 0 && !closed)
            || (!exited && (buffered > 0 || closed))
  {
    if spawned < |phases| && slots == limiter {
      SomeCounts(phases, HoldsSlot);
    } else if spawned == |phases| && waiting > 0 {
      SomeCounts(phases, InGroup);
    }
  }

  lemma NothingYet(records: seq<LogRecord>, oldestAllowedTs: nat, phases: seq<Phase>, limiter: nat)
    requires |phases| == |records| && forall i :: 0 <= i < |phases| ==> phases[i].NotSpawned?
    ensures Total(phases, HoldsSlot) == 0 && Total(phases, InGroup) == 0
    ensures Delivered(records, oldestAllowedTs, phases, [] + [], map[]) && Schedule([phases], limiter)
  {
    TotalZero(phases, HoldsSlot);
    TotalZero(phases, InGroup);
  }

  lemma AllDone(phases: seq<Phase>, spawned: nat)
    requires spawned == |phases| && Total(phases, InGroup) == 0
    requires forall i :: 0 <= i < |phases| ==> (phases[i].NotSpawned? <==> i >= spawned)
    ensures forall i :: 0 <= i < |phases| ==> phases[i].Done?
  {
    forall i | 0 <= i < |phases|
      ensures phases[i].Done?
    {
      TotalUpdate(phases, i, phases[i], InGroup);
    }
  }

  /** The first fingerprint registered for a key is kept. */
  method GetOrCreateFingerprint(seen: map<ResourceKey, nat>, key: ResourceKey, computed: nat)
    returns (fingerprint: nat, seen': map<ResourceKey, nat>)
    ensures key in seen' && seen'[key] == fingerprint && fingerprint == if key in seen then seen[key] else computed
    ensures seen'.Keys == seen.Keys + {key} && forall k :: k in seen ==> seen'[k] == seen[k]
  {
    if key in seen {
      fingerprint, seen' := seen[key], seen;
    } else {
      fingerprint, seen' := computed, seen[key := computed];
    }
  }

  /** The whole protocol: each turn of the loop performs one enabled step of the producer loop, of some worker, of the
      goroutine that closes the record channel, or of the consumer, chosen nondeterministically. The context is not
      cancelled and no worker or append fails. */
  method RunGroup(records: seq<LogRecord>, oldestAllowedTs: nat, limiter: nat)
    returns (appended: seq<Appended>, resourcesSeen: map<ResourceKey, nat>, ghost trace: seq<seq<Phase>>)
    requires limiter >= 1
    ensures Schedule(trace, limiter) && trace != []
    ensures trace[0] == seq(|records|, _ => NotSpawned) && trace[|trace| - 1] == seq(|records|, _ => Done)
    ensures Complete(records, oldestAllowedTs, appended, resourcesSeen)
  {
    hide Delivered, Complete, Total, TooOld, KeyOf, RowOf, EffectiveTs, ObservedTs, InItsBucket, Faithful, Schedule;
    var n := |records|;
    var phases: seq<Phase> := seq(n, _ => NotSpawned);
    var spawned: nat, slots: nat, waiting: nat := 0, 0, 0;
    var recordStream := Channel(limiter, [], false);
    var exited := false;
    appended, resourcesSeen, trace := [], map[], [phases];
    NothingYet(records, oldestAllowedTs, phases, limiter);
    while !(exited && waiting == 0 && spawned == n)
      invariant |phases| == n && recordStream.capacity == limiter
      invariant Bounded(phases, spawned, limiter, slots, waiting, |recordStream.buffered|, recordStream.closed, exited)
      invariant Delivered(records, oldestAllowedTs, phases, appended + recordStream.buffered, resourcesSeen)
      invariant trace != [] && trace[0] == seq(n, _ => NotSpawned) && trace[|trace| - 1] == phases
      invariant Schedule(trace, limiter)
      decreases Total(phases, StepsLeft) + |recordStream.buffered| + (if recordStream.closed then 0 else 1)
                + (if exited then 0 else 1)
    {
      ghost var sent := appended + recordStream.buffered;
      SomeStep(phases, spawned, limiter, slots, waiting, |recordStream.buffered|, recordStream.closed, exited);
      if {
        case spawned < n && slots < limiter =>  // take a slot, count the worker, start it
          QuietMove(records, oldestAllowedTs, phases, spawned, Running, sent, resourcesSeen, trace, limiter);
          phases := phases[spawned := Running];
          slots, waiting, spawned := slots + 1, waiting + 1, spawned + 1;
          trace := trace + [phases];
        case i :| 0 <= i < n && phases[i].Running? && TooOld(records[i], oldestAllowedTs) =>
          QuietMove(records, oldestAllowedTs, phases, i, Returning, sent, resourcesSeen, trace, limiter);
          phases := phases[i := Returning];
          trace := trace + [phases];
        case i :| 0 <= i < n && phases[i].Running? && !TooOld(records[i], oldestAllowedTs) =>
          var fingerprint, seen := GetOrCreateFingerprint(resourcesSeen, KeyOf(records[i]), records[i].fingerprint);
          BusyMove(phases, i, Stamped(fingerprint), trace, limiter);
          RegisterStep(records, oldestAllowedTs, phases, i, sent, resourcesSeen, seen);
          phases, resourcesSeen := phases[i := Stamped(fingerprint)], seen;
          trace := trace + [phases];
        case i :| 0 <= i < n && phases[i].Stamped? && |recordStream.buffered| < limiter =>  // send the row
          BusyMove(phases, i, Returning, trace, limiter);
          SendStep(records, oldestAllowedTs, phases, i, sent, resourcesSeen);
          var row := RowOf(records, i, phases[i].fingerprint);
          assert appended + (recordStream.buffered + [row]) == sent + [row];
          recordStream := recordStream.Send(row);
          phases := phases[i := Returning];
          trace := trace + [phases];
        case i :| 0 <= i < n && phases[i].Returning? =>  // deferred: release the slot
          QuietMove(records, oldestAllowedTs, phases, i, Released, sent, resourcesSeen, trace, limiter);
          phases := phases[i := Released];
          slots := slots - 1;
          trace := trace + [phases];
        case i :| 0 <= i < n && phases[i].Released? =>  // deferred: producersWG.Done()
          QuietMove(records, oldestAllowedTs, phases, i, Done, sent, resourcesSeen, trace, limiter);
          phases := phases[i := Done];
          waiting := waiting - 1;
          trace := trace + [phases];
        case spawned == n && waiting == 0 && !recordStream.closed =>  // producersWG.Wait() returned
          recordStream := recordStream.Close();
        case !exited && recordStream.buffered != [] =>  // the consumer appends a record
          appended := appended + [recordStream.buffered[0]];
          recordStream := recordStream.Receive();
          assert appended + recordStream.buffered == sent;
        case !exited && recordStream.buffered == [] && recordStream.closed =>
          exited := true;
      }
    }
    AllDone(phases, n);
    assert appended + recordStream.buffered == appended;
    AllDelivered(records, oldestAllowedTs, phases, appended, resourcesSeen);
  }

  /** One push, whatever the schedule. */
  method PushToClickhouse(records: seq<LogRecord>, oldestAllowedTs: nat, limiter: nat)
    returns (appended: seq<Appended>, resourcesSeen: map<ResourceKey, nat>, ghost trace: seq<seq<Phase>>)
    requires limiter >= 1
    ensures Schedule(trace, limiter) && trace != []
    ensures trace[0] == seq(|records|, _ => NotSpawned) && trace[|trace| - 1] == seq(|records|, _ => Done)
    ensures forall i :: 0 <= i < |records| ==>
              var r := records[i];
              var observed := if r.observed != 0 then r.observed else r.now;
              var ts := if r.timestamp != 0 then r.timestamp else observed;
              Total(appended, RecordIs(i)) == if ts >= oldestAllowedTs then 1 else 0
    ensures forall a :: a in appended ==>
              && a.record < |records|
              && var r := records[a.record];
                 && a.observed == (if r.observed != 0 then r.observed else r.now)
                 && a.ts == (if r.timestamp != 0 then r.timestamp else a.observed)
                 && a.key.resource == r.resource && InItsBucket(a.key.bucket, a.ts)
                 && a.key in resourcesSeen && a.fingerprint == resourcesSeen[a.key]
    ensures forall key :: key in resourcesSeen ==>
              exists a :: a in appended && a.key == key && a.record < |records|
                          && resourcesSeen[key] == records[a.record].fingerprint
  {
    hide Complete, Schedule, Total, InItsBucket;
    appended, resourcesSeen, trace := RunGroup(records, oldestAllowedTs, limiter);
    CompleteRecords(records, oldestAllowedTs, appended, resourcesSeen);
    CompleteRows(records, oldestAllowedTs, appended, resourcesSeen);
    CompleteResources(records, oldestAllowedTs, appended, resourcesSeen);
  }
}
