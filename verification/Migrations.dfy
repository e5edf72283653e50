/** What the migration commands may do to a cluster over any number of runs: the log records, in order, every baseline
    DDL statement and every post-baseline operation that was issued, and the markers outlive the runs. */
module Migrations {
  import opened Baseline

  datatype Table = Table(database: Database, name: string)

  type Markers = map<Key, Status>

  /** What outlives a run, which may crash or lose its connection at any call. `legacy` and `tracked` are the databases
      that hold an old and a current tracking table. */
  datatype Durable = Durable(tables: set<Table>, legacy: set<Database>, tracked: set<Database>, markers: Markers)

  /** Markers live in tracking tables. */
  predicate Stored(d: Durable) { forall key :: key in d.markers ==> key.database in d.tracked }

  /** `ddl` lists the baseline's tables by position in `DATABASES`. */
  datatype Setup = Setup(registry: Registry, ddl: seq<seq<string>>)

  /** What the comparison of a database's schema with the canonical one came to. */
  datatype Verdict = Matched | Mismatched | Unanswered

  /** `effective` says the statement created its table, `acknowledged` that the caller learned it had succeeded, and
      `before` is the markers' state when the operation was issued. */
  datatype Event =
    | Ddl(run: nat, position: nat, k: nat, effective: bool, acknowledged: bool)
    | Checked(run: nat, position: nat, verdict: Verdict)
    | Start(run: nat, phase: Phase, migration: Migration, k: nat, acknowledged: bool, before: Markers)

  type Log = seq<Event>

  predicate IsFinished(markers: Markers, key: Key) { key in markers && markers[key] == Finished }

  ghost predicate BaselineFinished(markers: Markers) {
    forall d :: Known(d) ==> IsFinished(markers, Key(d, BASELINE_ID))
  }

  /** The report's two good states, on the durable state itself. */
  predicate EmptyDatabase(d: Durable, db: Database) {
    && (forall t :: t in d.tables ==> t.database != db) && db !in d.legacy
    && forall key :: key in d.markers ==> key.database != db
  }

  ghost predicate CompleteDatabase(r: Registry, d: Durable, db: Database) {
    && db !in d.legacy && db in d.tracked && IsFinished(d.markers, Key(db, BASELINE_ID))
    && forall key :: key in d.markers && key.database == db ==>
         d.markers[key] == Finished && (key.id == BASELINE_ID || key in KeysOf(r.sync) + KeysOf(r.async))
  }

  ghost predicate Pristine(d: Durable) { forall db :: Known(db) ==> EmptyDatabase(d, db) }

  ghost predicate Healthy(r: Registry, d: Durable) { forall db :: Known(db) ==> CompleteDatabase(r, d, db) }

  // ---- Safety -------------------------------------------------------------------------------------------------

  predicate Earlier(p: nat, k: nat, q: nat, l: nat) { p < q || (p == q && k < l) }

  /** Once a baseline statement took effect only its own run issues more of them, each one later in the list. */
  ghost predicate DdlOnce(log: Log) {
    forall i, j :: 0 <= i < j < |log| && log[i].Ddl? && log[j].Ddl? ==>
      && (log[i].effective ==> log[i].run == log[j].run)
      && (log[i].run == log[j].run ==> Earlier(log[i].position, log[i].k, log[j].position, log[j].k))
  }

  /** All operations issued for a migration are of one run, each at most once and in order. */
  ghost predicate StartedOnce(log: Log) {
    forall i, j ::
      (0 <= i < j < |log| && log[i].Start? && log[j].Start? && KeyOf(log[i].migration) == KeyOf(log[j].migration))
      ==> log[i].run == log[j].run && log[i].k < log[j].k
  }

  /** An operation is issued only for a registered migration of the phase, over a finished baseline, when every
      migration its phase requires is finished. */
  ghost predicate StartAllowed(r: Registry, phase: Phase, m: Migration, k: nat, before: Markers) {
    && r.WellFormed() && m in r.Of(phase) && k < |m.up|
    && BaselineFinished(before)
    && forall earlier :: r.Prerequisite(earlier, m, phase) ==> IsFinished(before, KeyOf(earlier))
  }

  ghost predicate AllStartsAllowed(r: Registry, log: Log) {
    forall e :: e in log && e.Start? ==> StartAllowed(r, e.phase, e.migration, e.k, e.before)
  }

  ghost predicate Acknowledged(log: Log, m: Migration, k: nat) {
    exists e :: e in log && e.Start? && e.migration == m && e.k == k && e.acknowledged
  }

  ghost predicate DdlAcknowledged(log: Log, run: nat, position: nat, k: nat) {
    exists e :: e in log && e.Ddl? && e.run == run && e.position == position && e.k == k && e.acknowledged
  }

  ghost predicate BaselineAcknowledged(log: Log, run: nat, ddl: seq<seq<string>>) {
    forall p, k :: 0 <= p < |ddl| && 0 <= k < |ddl[p]| ==> DdlAcknowledged(log, run, p, k)
  }

  /** A run checks the schemas after its last baseline statement. */
  ghost predicate ChecksLast(log: Log) {
    forall i, j :: 0 <= i < j < |log| && log[i].Checked? && log[j].Ddl? ==> log[i].run != log[j].run
  }

  /** One run created the whole baseline and then found the schema of every database to match. */
  ghost predicate CreatedAndChecked(log: Log, run: nat, ddl: seq<seq<string>>) {
    BaselineAcknowledged(log, run, ddl) && forall p :: 0 <= p < |DATABASES| ==> Checked(run, p, Matched) in log
  }

  /** A finished marker that was not there at the start stands for operations that all succeeded. */
  ghost predicate FinishedMeansDone(s: Setup, initial: Markers, markers: Markers, log: Log) {
    && (forall m, k ::
          (m in s.registry.sync + s.registry.async && IsFinished(markers, KeyOf(m)) && KeyOf(m) !in initial
           && 0 <= k < |m.up|)
          ==> Acknowledged(log, m, k))
    && (forall d :: Known(d) && IsFinished(markers, Key(d, BASELINE_ID)) && Key(d, BASELINE_ID) !in initial ==>
          exists run :: CreatedAndChecked(log, run, s.ddl))
  }

  ghost predicate Safe(s: Setup, initial: Markers, d: Durable, log: Log, run: nat) {
    && Stored(d)
    && (forall e :: e in log ==> e.run <= run)
    && DdlOnce(log) && StartedOnce(log) && ChecksLast(log)
    && (forall e :: e in log && e.Ddl? && e.effective ==> !Pristine(d))
    && AllStartsAllowed(s.registry, log)
    && (forall e :: e in log && e.Start? ==> KeyOf(e.migration) in d.markers)
    && FinishedMeansDone(s, initial, d.markers, log)
  }

  /** A run may issue its statement `k` of `position`: no other run's took effect, its own are earlier, and it has
      checked no schema. */
  ghost predicate MayCreate(log: Log, run: nat, position: nat, k: nat) {
    && (forall e :: e in log && e.Ddl? ==>
          && (e.effective ==> e.run == run)
          && (e.run == run ==> Earlier(e.position, e.k, position, k)))
    && forall e :: e in log && e.Checked? ==> e.run != run
  }

  ghost predicate MayStart(log: Log, run: nat, key: Key, k: nat) {
    forall e :: e in log && e.Start? && KeyOf(e.migration) == key ==> e.run == run && e.k < k
  }

  lemma SnocMembers(log: Log, e: Event)
    ensures forall x :: x in log + [e] <==> x in log || x == e
    ensures forall i :: 0 <= i < |log| ==> (log + [e])[i] == log[i]
  {
  }

  lemma AcknowledgedGrows(s: Setup, initial: Markers, markers: Markers, log: Log, e: Event)
    requires FinishedMeansDone(s, initial, markers, log)
    ensures FinishedMeansDone(s, initial, markers, log + [e])
  {
    hide IsFinished, Acknowledged, CreatedAndChecked;
    forall m, k
      ensures Acknowledged(log, m, k) ==> Acknowledged(log + [e], m, k)
    {
      AcknowledgedKept(log, e);
    }
    forall run
      ensures CreatedAndChecked(log, run, s.ddl) ==> CreatedAndChecked(log + [e], run, s.ddl)
    {
      CheckedKept(log, e, run, s.ddl);
    }
  }

  lemma CheckedKept(log: Log, e: Event, run: nat, ddl: seq<seq<string>>)
    ensures CreatedAndChecked(log, run, ddl) ==> CreatedAndChecked(log + [e], run, ddl)
  {
    hide DdlAcknowledged;
    AcknowledgedKept(log, e);
  }

  /** A check changes nothing but the log. */
  lemma CheckStep(s: Setup, initial: Markers, d: Durable, log: Log, run: nat, e: Event)
    requires Safe(s, initial, d, log, run) && e.Checked? && e.run == run
    ensures Safe(s, initial, d, log + [e], run)
  {
    hide FinishedMeansDone, StartAllowed, IsFinished, Pristine;
    SnocMembers(log, e);
    AcknowledgedGrows(s, initial, d.markers, log, e);
  }

  lemma DdlStep(s: Setup, initial: Markers, d: Durable, log: Log, run: nat, d': Durable, e: Event)
    requires Safe(s, initial, d, log, run)
    requires e.Ddl? && e.run == run && MayCreate(log, run, e.position, e.k)
    requires d' == d.(tables := d'.tables) && d.tables <= d'.tables
    requires e.effective ==> exists t :: t in d'.tables && Known(t.database)
    ensures Safe(s, initial, d', log + [e], run) && MayCreate(log + [e], run, e.position, e.k + 1)
  {
    hide FinishedMeansDone, StartAllowed, IsFinished;
    SnocMembers(log, e);
    AcknowledgedGrows(s, initial, d.markers, log, e);
    assert Pristine(d') ==> Pristine(d);
  }

  lemma StartStep(s: Setup, initial: Markers, d: Durable, log: Log, run: nat, d': Durable, e: Event)
    requires Safe(s, initial, d, log, run)
    requires e.Start? && e.run == run && e.before == d.markers
             && StartAllowed(s.registry, e.phase, e.migration, e.k, e.before)
    requires MayStart(log, run, KeyOf(e.migration), e.k) && KeyOf(e.migration) in d.markers
    requires d' == d.(tables := d'.tables)
    ensures Safe(s, initial, d', log + [e], run) && MayStart(log + [e], run, KeyOf(e.migration), e.k + 1)
  {
    hide FinishedMeansDone, StartAllowed, IsFinished, Pristine;
    SnocMembers(log, e);
    AcknowledgedGrows(s, initial, d.markers, log, e);
    AllowedMeansMarked(s.registry, e.phase, e.migration, e.k, d');
  }

  /** A cluster with a finished baseline is not pristine. */
  lemma AllowedMeansMarked(r: Registry, phase: Phase, m: Migration, k: nat, d: Durable)
    requires StartAllowed(r, phase, m, k, d.markers)
    ensures !Pristine(d)
  {
    assert Known(Traces) && IsFinished(d.markers, Key(Traces, BASELINE_ID));
    assert !EmptyDatabase(d, Traces);
  }

  /** A marker may be written finished once what it stands for has succeeded. */
  ghost predicate MayMark(s: Setup, log: Log, key: Key, status: Status) {
    status == Finished ==>
      && (forall m, k :: m in s.registry.sync + s.registry.async && KeyOf(m) == key && 0 <= k < |m.up| ==>
            Acknowledged(log, m, k))
      && (key.id == BASELINE_ID ==> exists run :: CreatedAndChecked(log, run, s.ddl))
  }

  lemma MarkStep(s: Setup, initial: Markers, d: Durable, log: Log, run: nat, key: Key, status: Status)
    requires Safe(s, initial, d, log, run) && key.database in d.tracked && MayMark(s, log, key, status)
    ensures Safe(s, initial, d.(markers := d.markers[key := status]), log, run)
  {
    hide StartAllowed, Acknowledged, CreatedAndChecked, StartedOnce, DdlOnce, ChecksLast;
    var d' := d.(markers := d.markers[key := status]);
    assert Pristine(d') ==> Pristine(d);
  }

  /** A new run starts with nothing issued; in a pristine cluster nothing has ever taken effect. */
  lemma RunBegins(s: Setup, initial: Markers, d: Durable, log: Log, run: nat)
    requires Safe(s, initial, d, log, run)
    ensures Safe(s, initial, d, log, run + 1)
    ensures Pristine(d) ==> MayCreate(log, run + 1, 0, 0)
  {
    hide DdlOnce, StartedOnce, ChecksLast, StartAllowed, FinishedMeansDone;
  }

  /** A migration without a marker has never been started. */
  lemma NotStarted(s: Setup, initial: Markers, d: Durable, log: Log, run: nat, key: Key)
    requires Safe(s, initial, d, log, run) && key !in d.markers
    ensures MayStart(log, run, key, 0)
  {
    hide DdlOnce, StartedOnce, ChecksLast, StartAllowed, FinishedMeansDone;
  }

  lemma NextPosition(log: Log, run: nat, position: nat, k: nat)
    requires MayCreate(log, run, position, k)
    ensures MayCreate(log, run, position + 1, 0)
  {
  }

  lemma AcknowledgedKept(log: Log, e: Event)
    ensures forall u, p, k :: DdlAcknowledged(log, u, p, k) ==> DdlAcknowledged(log + [e], u, p, k)
    ensures forall m, k :: Acknowledged(log, m, k) ==> Acknowledged(log + [e], m, k)
    ensures e.Ddl? && e.acknowledged ==> DdlAcknowledged(log + [e], e.run, e.position, e.k)
    ensures forall x :: x in log ==> x in log + [e]
    ensures e.Start? && e.acknowledged ==> Acknowledged(log + [e], e.migration, e.k)
  {
    SnocMembers(log, e);
    assert e in log + [e];
  }
}
