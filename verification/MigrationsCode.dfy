/** The migration commands as methods over the cluster. Every database call may succeed, fail with or without effect,
    or be the last thing its run does (`Crash`), unless the cluster is `reliable`. What a run issued is on the log. */
module MigrationsCode {
  import opened Baseline
  import opened Migrations

  datatype Answer = Ok | Error | Crash

  /** How a run ends: `Fatal` and `Retryable` are the errors returned to the operator. */
  datatype Result = Done | Fatal | Retryable | Crashed

  function FatalUnlessCrash(a: Answer): Result { if a.Crash? then Crashed else Fatal }

  function RetryUnlessCrash(a: Answer): Result { if a.Crash? then Crashed else Retryable }

  /** How a run ends after a check with this verdict, unless it goes on. */
  predicate Explains(v: Verdict, r: Result) {
    (v.Mismatched? ==> r == Fatal) && (v.Unanswered? ==> r == Retryable || r == Crashed)
  }

  /** The server took the statement, or the schema was right or not checked. */
  predicate Succeeded(e: Event) {
    match e
    case Ddl(_, _, _, _, acknowledged) => acknowledged
    case Checked(_, _, verdict) => verdict != Mismatched
    case Start(_, _, _, _, acknowledged, _) => acknowledged
  }

  ghost predicate AllFinished(ms: seq<Migration>, markers: Markers) {
    forall m :: m in ms ==> IsFinished(markers, KeyOf(m))
  }

  ghost predicate AllTracked(d: Durable) { forall db :: Known(db) ==> db in d.tracked }

  /** What a query of the tracking table of `db` returns, if there is one. */
  function StatusesOf(d: Durable, db: Database): map<nat, Status> {
    if db in d.tracked then map key | key in d.markers && key.database == db :: key.id := d.markers[key] else map[]
  }

  lemma JudgedEmpty(d: Durable, db: Database, here: set<Table>, statuses: map<nat, Status>)
    requires Stored(d) && here == set t | t in d.tables && t.database == db
    requires statuses == StatusesOf(d, db)
    ensures EmptyDatabase(d, db) <==> |here| == 0 && db !in d.legacy && statuses == map[]
  {
    assert |here| == 0 <==> here == {};
    if exists key :: key in d.markers && key.database == db {
      var key :| key in d.markers && key.database == db;
      assert key.id in statuses;
    }
    if exists t :: t in d.tables && t.database == db {
      var t :| t in d.tables && t.database == db;
      assert t in here;
    }
    if |here| == 0 && statuses == map[] {
      assert forall t :: t in here ==> t in d.tables;
    }
  }

  lemma JudgedComplete(r: Registry, d: Durable, db: Database, ids: seq<nat>, statuses: map<nat, Status>)
    requires Stored(d) && forall id: nat :: id in ids <==> exists m :: m in r.sync + r.async && KeyOf(m) == Key(db, id)
    requires statuses == StatusesOf(d, db)
    ensures CompleteDatabase(r, d, db) <==>
              db !in d.legacy && db in d.tracked && BASELINE_ID in statuses
              && forall id :: id in statuses ==> statuses[id] == Finished && (id == BASELINE_ID || id in ids)
  {
  }

  lemma Combined(r: Registry, d: Durable, states: seq<BaselineState>)
    requires |states| == |DATABASES|
    requires forall k :: 0 <= k < |states| ==>
               && (states[k].Empty? <==> EmptyDatabase(d, DATABASES[k]))
               && (states[k].Complete? <==> CompleteDatabase(r, d, DATABASES[k]))
    ensures Pristine(d) <==> forall s :: s in states ==> s.Empty?
    ensures Healthy(r, d) <==> forall s :: s in states ==> s.Complete?
  {
  }

  lemma BaselineMayBeMarked(s: Setup, log: Log, key: Key)
    requires s.registry.WellFormed() && key.id == BASELINE_ID && exists run :: CreatedAndChecked(log, run, s.ddl)
    ensures MayMark(s, log, key, Finished)
  {
  }

  /** Marking the baseline of a pristine cluster finished makes it healthy. */
  lemma FreshIsHealthy(r: Registry, d: Durable, d': Durable)
    requires Pristine(d) && d'.legacy == d.legacy
    requires forall db :: Known(db) ==> db in d'.tracked && IsFinished(d'.markers, Key(db, BASELINE_ID))
    requires forall key :: key in d'.markers ==>
               key in d.markers || (key.id == BASELINE_ID && IsFinished(d'.markers, key))
    ensures Healthy(r, d')
  {
  }

  /** Finishing a registered migration keeps the cluster healthy. */
  lemma StaysHealthy(r: Registry, d: Durable, d': Durable, m: Migration)
    requires Healthy(r, d) && d'.legacy == d.legacy && d'.tracked == d.tracked && m in r.sync + r.async
    requires d'.markers == d.markers[KeyOf(m) := Finished]
    ensures Healthy(r, d')
  {
  }

  lemma MigrationFacts(r: Registry, d: Durable, m: Migration, phase: Phase)
    requires r.WellFormed() && Healthy(r, d) && m in r.Of(phase)
    ensures Known(m.database) && m.database in d.tracked && m.id >= POST_BASELINE_ID_START && m in r.sync + r.async
    ensures BaselineFinished(d.markers)
  {
    assert Known(m.database) && CompleteDatabase(r, d, m.database);
  }

  lemma MarkedIsFinished(r: Registry, d: Durable, m: Migration)
    requires Healthy(r, d) && Known(m.database)
    ensures KeyOf(m) in d.markers ==> IsFinished(d.markers, KeyOf(m))
  {
    assert CompleteDatabase(r, d, m.database);
  }

  /** Every operation of `m` is allowed while its marker is in progress. */
  lemma AllowedWith(r: Registry, markers: Markers, phase: Phase, m: Migration, markers': Markers)
    requires markers' == markers[KeyOf(m) := InProgress]
    requires r.WellFormed() && m in r.Of(phase) && BaselineFinished(markers) && m.id >= POST_BASELINE_ID_START
    requires forall earlier :: r.Prerequisite(earlier, m, phase) ==> IsFinished(markers, KeyOf(earlier))
    ensures forall k :: 0 <= k < |m.up| ==> StartAllowed(r, phase, m, k, markers')
  {
    hide Registry.WellFormed;
  }

  lemma MayMarkFinished(s: Setup, log: Log, m: Migration)
    requires s.registry.WellFormed() && m in s.registry.sync + s.registry.async && m.id >= POST_BASELINE_ID_START
    requires forall k :: 0 <= k < |m.up| ==> Acknowledged(log, m, k)
    ensures MayMark(s, log, KeyOf(m), Finished)
  {
    hide Acknowledged, BaselineAcknowledged;
    forall n | n in s.registry.sync + s.registry.async && KeyOf(n) == KeyOf(m)
      ensures n == m
    {
      s.registry.OneOfKey(n, m);
    }
  }

  /** In registry order, the migrations before `m` include all its prerequisites of its own phase. */
  lemma EarlierFinished(r: Registry, phase: Phase, i: nat, markers: Markers)
    requires r.WellFormed() && i < |r.Of(phase)| && AllFinished(r.Of(phase)[..i], markers)
    requires phase.Async? ==> AllFinished(r.sync, markers)
    ensures forall earlier :: r.Prerequisite(earlier, r.Of(phase)[i], phase) ==> IsFinished(markers, KeyOf(earlier))
  {
  }

  class Manager {
    const setup: Setup
    const reliable: bool
    var durable: Durable
    ghost const initial: Markers
    ghost var log: Log
    ghost var run: nat
    ghost var down: bool   // the current run has died
    ghost var refused: set<(Key, Status)>   // the marker inserts that were not acknowledged

    ghost predicate Valid()
      reads this
    {
      |setup.ddl| == |DATABASES| && Safe(setup, initial, durable, log, run)
    }

    constructor (setup: Setup, durable: Durable, reliable: bool)
      requires |setup.ddl| == |DATABASES| && Stored(durable)
      ensures Valid() && this.setup == setup && this.durable == durable && this.reliable == reliable && log == []
    {
      this.setup, this.durable, this.reliable := setup, durable, reliable;
      initial, log, run, down, refused := durable.markers, [], 0, false, {};
    }

    /** A death is reported as one, and a failure of what was issued since `before` is not to be retried. */
    ghost predicate Ends(r: Result, before: Log)
      reads this
    {
      && before <= log && (r.Crashed? <==> down)
      && (r.Done? || r.Retryable? ==> forall i :: |before| <= i < |log| ==> Succeeded(log[i]))
    }

    /** A failure shows in the marker of `key`, if that could be written. */
    ghost predicate ShownFailed(key: Key)
      reads this
    {
      (key in durable.markers && durable.markers[key] == Failed) || (key, Failed) in refused
    }

    method Ask() returns (a: Answer)
      requires !down
      modifies this`down
      ensures (reliable ==> a.Ok?) && (down <==> a.Crash?)
    {
      if !reliable {
        a :| true;
      } else {
        a := Ok;
      }
      down := a.Crash?;
    }

    // ---- Single calls -----------------------------------------------------------------------------------------

    method InsertMigrationEntry(key: Key, status: Status) returns (a: Answer)
      requires Valid() && MayMark(setup, log, key, status) && !down
      modifies this`durable, this`down, this`refused
      ensures Valid() && (down <==> a.Crash?) && refused == old(refused) + if a.Ok? then {} else {(key, status)}
      ensures durable == old(durable)
              || (key.database in durable.tracked
                  && durable == old(durable).(markers := old(durable.markers)[key := status]))
      ensures a.Ok? ==> key.database in durable.tracked && durable.markers == old(durable.markers)[key := status]
      ensures reliable && key.database in durable.tracked ==> a.Ok?
    {
      hide Safe, MayMark;
      a := Ask();
      if key.database !in durable.tracked {
        a := if a.Crash? then Crash else Error;
        refused := refused + {(key, status)};
        return;
      }
      if !a.Ok? {
        refused := refused + {(key, status)};
      }
      var applied: bool :| a.Ok? ==> applied;
      if applied {
        MarkStep(setup, initial, durable, log, run, key, status);
        durable := durable.(markers := durable.markers[key := status]);
      }
    }

    method MigrationStatus(key: Key) returns (a: Answer, present: bool, status: Status)
      requires !down
      modifies this`down
      ensures down <==> a.Crash?
      ensures a.Ok? ==> (present <==> key in durable.markers) && (present ==> status == durable.markers[key])
      ensures reliable && key.database in durable.tracked ==> a.Ok?
    {
      present, status := false, Failed;
      a := Ask();
      if key.database !in durable.tracked {
        a := if a.Crash? then Crash else Error;
      } else if a.Ok? && key in durable.markers {
        present, status := true, durable.markers[key];
      }
    }

    method RunBaselineOperation(position: nat, k: nat) returns (a: Answer)
      requires Valid() && position < |DATABASES| && k < |setup.ddl[position]| && MayCreate(log, run, position, k)
      requires !down
      modifies this`durable, this`log, this`down
      ensures Valid() && MayCreate(log, run, position, k + 1) && (down <==> a.Crash?)
      ensures log == old(log) + [Ddl(run, position, k, durable.tables != old(durable.tables), a.Ok?)]
      ensures durable == old(durable).(tables := durable.tables)
      ensures var created := old(durable.tables) + {Table(DATABASES[position], setup.ddl[position][k])};
              durable.tables == created || (!a.Ok? && durable.tables == old(durable.tables))
      ensures reliable ==> a.Ok?
    {
      hide Safe, MayCreate;
      a := Ask();
      var created := Table(DATABASES[position], setup.ddl[position][k]);
      var applied: bool :| a.Ok? ==> applied;
      var d' := if applied then durable.(tables := durable.tables + {created}) else durable;
      ghost var e := Ddl(run, position, k, d'.tables != durable.tables, a.Ok?);
      assert e.effective ==> created in d'.tables && Known(created.database);
      DdlStep(setup, initial, durable, log, run, d', e);
      durable, log := d', log + [e];
    }

    /** `RunOperationWithoutUpdate` for a post-baseline operation, which may do anything to the tables. */
    method RunOperation(phase: Phase, m: Migration, k: nat) returns (a: Answer)
      requires Valid() && KeyOf(m) in durable.markers && MayStart(log, run, KeyOf(m), k)
      requires StartAllowed(setup.registry, phase, m, k, durable.markers) && !down
      modifies this`durable, this`log, this`down
      ensures Valid() && MayStart(log, run, KeyOf(m), k + 1) && (down <==> a.Crash?)
      ensures log == old(log) + [Start(run, phase, m, k, a.Ok?, old(durable.markers))]
      ensures durable == old(durable).(tables := durable.tables)
      ensures reliable ==> a.Ok?
    {
      hide Safe, MayStart;
      a := Ask();
      var tables: set<Table> :| true;
      ghost var e := Start(run, phase, m, k, a.Ok?, durable.markers);
      StartStep(setup, initial, durable, log, run, durable.(tables := tables), e);
      durable, log := durable.(tables := tables), log + [e];
    }

    // ---- The baseline -----------------------------------------------------------------------------------------

    method InspectBaselineState(db: Database) returns (a: Answer, state: BaselineState)
      requires Stored(durable) && !down
      modifies this`down
      ensures down <==> a.Crash?
      ensures a.Ok? ==>
                (state.Empty? <==> EmptyDatabase(durable, db))
                  && (state.Complete? <==> CompleteDatabase(setup.registry, durable, db))
      ensures reliable ==> a.Ok?
    {
      hide EmptyDatabase, CompleteDatabase, StatusesOf;
      state := Incompatible;
      a := Ask();
      if a.Ok? {
        var here := set t | t in durable.tables && t.database == db;
        if db in durable.tracked {
          a := Ask();
        }
        if a.Ok? {
          var statuses := StatusesOf(durable, db);
          var ids := PostBaselineMigrationIds(setup.registry, db);
          var snapshot :=
              Snapshot(|here|, if db in durable.legacy then 1 else 0, if db in durable.tracked then 1 else 0, statuses);
          var inspection := ClassifyBaselineState(ids, snapshot);
          state := inspection.state;
          JudgedEmpty(durable, db, here, statuses);
          JudgedComplete(setup.registry, durable, db, ids, statuses);
        }
      }
    }

    method InspectCanonicalBaselineState() returns (a: Answer, state: BaselineState)
      requires Stored(durable) && !down
      modifies this`down
      ensures down <==> a.Crash?
      ensures a.Ok? ==> (state.Empty? <==> Pristine(durable)) && (state.Complete? <==> Healthy(setup.registry, durable))
      ensures reliable ==> a.Ok?
    {
      hide EmptyDatabase, CompleteDatabase;
      state := Incompatible;
      var states: seq<BaselineState> := [];
      for i := 0 to |DATABASES|
        invariant |states| == i && !down
        invariant forall k :: 0 <= k < i ==>
                    && (states[k].Empty? <==> EmptyDatabase(durable, DATABASES[k]))
                    && (states[k].Complete? <==> CompleteDatabase(setup.registry, durable, DATABASES[k]))
      {
        var one: BaselineState;
        a, one := InspectBaselineState(DATABASES[i]);
        if !a.Ok? {
          return;
        }
        states := states + [one];
      }
      a := Ok;
      state := CombineBaselineInspections(states);
      Combined(setup.registry, durable, states);
    }

    method CreateDatabase(position: nat) returns (r: Result)
      requires Valid() && position < |DATABASES| && MayCreate(log, run, position, 0) && !down
      modifies this`durable, this`log, this`down, this`refused
      ensures Ends(r, old(log)) && !r.Retryable?
      ensures r.Fatal? ==> exists db :: db in DATABASES && ShownFailed(Key(db, BASELINE_ID))
      ensures r.Fatal? ==> exists i :: |old(log)| <= i < |log| && !Succeeded(log[i])
      ensures Valid() && durable.legacy == old(durable.legacy) && durable.tracked == old(durable.tracked)
      ensures old(log) <= log && forall i :: |old(log)| <= i < |log| ==> log[i].Ddl?
      ensures r.Done? ==>
                && MayCreate(log, run, position + 1, 0) && durable.markers == old(durable.markers)
                && (forall p, k :: old(DdlAcknowledged(log, run, p, k)) ==> DdlAcknowledged(log, run, p, k))
                && forall k :: 0 <= k < |setup.ddl[position]| ==> DdlAcknowledged(log, run, position, k)
      ensures reliable ==> r.Done?
    {
      hide Safe, MayCreate, DdlAcknowledged, Acknowledged;
      for k := 0 to |setup.ddl[position]|
        invariant Valid() && MayCreate(log, run, position, k) && !down
        invariant forall i :: |old(log)| <= i < |log| ==> Succeeded(log[i])
        invariant durable == old(durable).(tables := durable.tables)
        invariant old(log) <= log && forall i :: |old(log)| <= i < |log| ==> log[i].Ddl?
        invariant forall p, j :: old(DdlAcknowledged(log, run, p, j)) ==> DdlAcknowledged(log, run, p, j)
        invariant forall j :: 0 <= j < k ==> DdlAcknowledged(log, run, position, j)
      {
        ghost var before := log;
        assert DATABASES[position] in DATABASES;
        var a := RunBaselineOperation(position, k);
        AcknowledgedKept(before, log[|before|]);
        if !a.Ok? {
          if a.Error? {
            a := InsertMigrationEntry(Key(DATABASES[position], BASELINE_ID), Failed);
          }
          return FatalUnlessCrash(a);
        }
      }
      NextPosition(log, run, position, |setup.ddl[position]|);
      r := Done;
    }

    method CreateBaseline() returns (r: Result)
      requires Valid() && MayCreate(log, run, 0, 0) && !down
      modifies this`durable, this`log, this`down, this`refused
      ensures Ends(r, old(log)) && !r.Retryable?
      ensures r.Fatal? ==> exists db :: db in DATABASES && ShownFailed(Key(db, BASELINE_ID))
      ensures r.Fatal? ==> exists i :: |old(log)| <= i < |log| && !Succeeded(log[i])
      ensures Valid() && durable.legacy == old(durable.legacy) && durable.tracked == old(durable.tracked)
      ensures old(log) <= log && forall i :: |old(log)| <= i < |log| ==> log[i].Ddl?
      ensures r.Done? ==> durable.markers == old(durable.markers) && BaselineAcknowledged(log, run, setup.ddl)
      ensures reliable ==> r.Done?
    {
      hide Safe, MayCreate, DdlAcknowledged;
      for position := 0 to |DATABASES|
        invariant Valid() && MayCreate(log, run, position, 0) && !down
        invariant forall i :: |old(log)| <= i < |log| ==> Succeeded(log[i])
        invariant durable == old(durable).(tables := durable.tables)
        invariant old(log) <= log && forall i :: |old(log)| <= i < |log| ==> log[i].Ddl?
        invariant forall p, k :: 0 <= p < position && 0 <= k < |setup.ddl[p]| ==> DdlAcknowledged(log, run, p, k)
      {
        r := CreateDatabase(position);
        if !r.Done? {
          return;
        }
      }
      r := Done;
    }

    /** VerifyCanonicalSchema for one database: its tables' schemas may or may not match, and the query may fail. */
    method VerifyCanonicalSchema(position: nat) returns (verdict: Verdict, crashed: bool)
      requires Valid() && position < |DATABASES| && !down
      modifies this`log, this`down
      ensures Valid() && (down <==> crashed) && log == old(log) + [Checked(run, position, verdict)]
      ensures reliable ==> verdict.Matched? && !crashed
      ensures crashed ==> verdict.Unanswered?
    {
      hide Safe;
      var a := Ask();
      var mismatch: bool :| reliable ==> !mismatch;
      verdict := if !a.Ok? then Unanswered else if mismatch then Mismatched else Matched;
      crashed := a.Crash?;
      CheckStep(setup, initial, durable, log, run, Checked(run, position, verdict));
      log := log + [Checked(run, position, verdict)];
    }

    /** Every database is checked, in order, until one does not match or cannot be checked: a mismatch is fatal, a
        failed query may be tried again. */
    method VerifyCanonicalSchemas() returns (r: Result)
      requires Valid() && BaselineAcknowledged(log, run, setup.ddl) && !down
      modifies this`log, this`down
      ensures Valid() && old(log) <= log && Ends(r, old(log))
      ensures forall i :: |old(log)| <= i < |log| ==> log[i].Checked? && Explains(log[i].verdict, r)
      ensures r.Done? ==> CreatedAndChecked(log, run, setup.ddl)
      ensures !r.Done? ==> |log| > |old(log)| && !log[|log| - 1].verdict.Matched?
      ensures reliable ==> r.Done?
    {
      hide Safe, DdlAcknowledged;
      for i := 0 to |DATABASES|
        invariant Valid() && old(log) <= log && BaselineAcknowledged(log, run, setup.ddl) && !down
        invariant forall k :: |old(log)| <= k < |log| ==> log[k].Checked? && log[k].verdict.Matched?
        invariant forall p :: 0 <= p < i ==> Checked(run, p, Matched) in log
      {
        ghost var before := log;
        var verdict, crashed := VerifyCanonicalSchema(i);
        AcknowledgedKept(before, log[|before|]);
        if verdict.Mismatched? {
          return Fatal;
        }
        if verdict.Unanswered? {
          return if crashed then Crashed else Retryable;
        }
      }
      r := Done;
    }

    /** Writes the baseline's finished marker in every database that lacks it. */
    method MarkBaseline() returns (r: Result)
      requires Valid() && CreatedAndChecked(log, run, setup.ddl) && setup.registry.WellFormed() && !down
      modifies this`durable, this`down, this`refused
      ensures (r.Crashed? <==> down) && !r.Fatal?
      ensures Valid() && durable == old(durable).(markers := durable.markers)
      ensures r.Done? ==>
                && (forall db :: Known(db) ==>
                      db in durable.tracked && IsFinished(durable.markers, Key(db, BASELINE_ID)))
                && forall key :: key in durable.markers ==>
                     key in old(durable.markers) || (key.id == BASELINE_ID && IsFinished(durable.markers, key))
      ensures reliable && AllTracked(durable) ==> r.Done?
    {
      hide Safe, CreatedAndChecked;
      for i := 0 to |DATABASES|
        invariant Valid() && durable == old(durable).(markers := durable.markers) && !down
        invariant forall j :: 0 <= j < i ==>
                    DATABASES[j] in durable.tracked && IsFinished(durable.markers, Key(DATABASES[j], BASELINE_ID))
        invariant forall key :: key in durable.markers ==>
                    key in old(durable.markers) || (key.id == BASELINE_ID && IsFinished(durable.markers, key))
      {
        assert Known(DATABASES[i]);
        var key := Key(DATABASES[i], BASELINE_ID);
        var a, present, status := MigrationStatus(key);
        if !a.Ok? {
          return RetryUnlessCrash(a);
        }
        StoredKey(key);
        if !(present && status == Finished) {
          BaselineMayBeMarked(setup, log, key);
          a := InsertMigrationEntry(key, Finished);
          if !a.Ok? {
            return RetryUnlessCrash(a);
          }
        }
      }
      r := Done;
    }

    lemma StoredKey(key: Key)
      requires Valid()
      ensures key in durable.markers ==> key.database in durable.tracked
    {
    }

    /** Creates the schema in a pristine cluster, accepts a complete one, and refuses every other. */
    method EnsureCanonicalBaseline() returns (r: Result)
      requires Valid() && (Pristine(durable) ==> MayCreate(log, run, 0, 0)) && !down
      modifies this`durable, this`log, this`down, this`refused
      ensures Ends(r, old(log))
      ensures r.Fatal? ==> !setup.registry.WellFormed() || !old(Pristine(durable) || Healthy(setup.registry, durable))
                           || exists i :: |old(log)| <= i < |log| && !Succeeded(log[i])
      ensures Valid() && durable.legacy == old(durable.legacy) && durable.tracked == old(durable.tracked)
      ensures r.Done? ==> setup.registry.WellFormed() && Healthy(setup.registry, durable)
      ensures !old(Pristine(durable)) ==> durable == old(durable) && log == old(log)
      ensures old(log) <= log
      ensures forall i :: |old(log)| <= i < |log| && log[i].Checked? && !log[i].verdict.Matched? ==>
                Explains(log[i].verdict, r) && durable.markers == old(durable.markers)
      ensures (reliable && setup.registry.WellFormed() && AllTracked(durable)
               && old(Pristine(durable) || Healthy(setup.registry, durable))) ==> r.Done?
    {
      hide Safe, MayCreate, Pristine, Healthy, BaselineAcknowledged, CreatedAndChecked, Registry.WellFormed;
      var valid := ValidatePostBaselineMigrations(setup.registry);
      if !valid {
        return Fatal;
      }
      StoredMarkers();
      var a, state := InspectCanonicalBaselineState();
      if !a.Ok? {
        return RetryUnlessCrash(a);
      }
      match state
      case Complete => r := Done;
      case Incompatible => r := Fatal;
      case Empty =>
        ghost var d := durable;
        r := CreateBaseline();
        if r.Done? {
          r := VerifyCanonicalSchemas();
          if r.Done? {
            r := MarkBaseline();
            if r.Done? {
              FreshIsHealthy(setup.registry, d, durable);
            }
          }
        }
    }

    lemma StoredMarkers()
      requires Valid()
      ensures Stored(durable)
    {
    }

    method RequireCanonicalBaseline() returns (r: Result)
      requires Valid() && !down
      modifies this`down
      ensures Valid() && (r.Crashed? <==> down)
      ensures r.Fatal? ==> !setup.registry.WellFormed() || !Healthy(setup.registry, durable)
      ensures r.Done? ==> setup.registry.WellFormed() && Healthy(setup.registry, durable)
      ensures reliable && setup.registry.WellFormed() && Healthy(setup.registry, durable) ==> r.Done?
    {
      hide Safe, Pristine, Healthy, Registry.WellFormed;
      var valid := ValidatePostBaselineMigrations(setup.registry);
      if !valid {
        return Fatal;
      }
      StoredMarkers();
      var a, state := InspectCanonicalBaselineState();
      r := if !a.Ok? then RetryUnlessCrash(a) else if state.Complete? then Done else Fatal;
    }

    // ---- Post-baseline migrations -----------------------------------------------------------------------------

    method RequireEarlierPostBaselineMigrations(m: Migration, phase: Phase) returns (r: Result)
      requires !down
      modifies this`down
      ensures r.Crashed? <==> down
      ensures r.Fatal? ==> exists earlier :: setup.registry.Prerequisite(earlier, m, phase)
                                             && !IsFinished(durable.markers, KeyOf(earlier))
      ensures r.Done? ==> forall earlier :: setup.registry.Prerequisite(earlier, m, phase) ==>
                IsFinished(durable.markers, KeyOf(earlier))
      ensures (reliable && m.database in durable.tracked
               && (forall earlier :: setup.registry.Prerequisite(earlier, m, phase) ==>
                     IsFinished(durable.markers, KeyOf(earlier))))
              ==> r.Done?
    {
      var prerequisites := PrerequisitePostBaselineMigrations(setup.registry, m, phase);
      for i := 0 to |prerequisites|
        invariant !down && forall j :: 0 <= j < i ==> IsFinished(durable.markers, KeyOf(prerequisites[j]))
      {
        assert setup.registry.Prerequisite(prerequisites[i], m, phase);
        var a, present, status := MigrationStatus(KeyOf(prerequisites[i]));
        if !a.Ok? {
          return RetryUnlessCrash(a);
        }
        if !present || status != Finished {
          return Fatal;
        }
      }
      r := Done;
    }

    /** Issues the operations of `m` in order; the first failure is recorded and ends the run. */
    method RunOperations(phase: Phase, m: Migration) returns (r: Result)
      requires Valid() && KeyOf(m) in durable.markers && MayStart(log, run, KeyOf(m), 0) && !down
      requires forall k :: 0 <= k < |m.up| ==> StartAllowed(setup.registry, phase, m, k, durable.markers)
      modifies this`durable, this`log, this`down, this`refused
      ensures Ends(r, old(log)) && !r.Retryable? && KeyOf(m) in durable.markers && (r.Fatal? ==> ShownFailed(KeyOf(m)))
      ensures Valid() && durable.legacy == old(durable.legacy) && durable.tracked == old(durable.tracked)
      ensures r.Done? ==> durable.markers == old(durable.markers)
      ensures r.Done? ==> forall k :: 0 <= k < |m.up| ==> Acknowledged(log, m, k)
      ensures reliable ==> r.Done?
    {
      hide Safe, StartAllowed, MayStart, Acknowledged, BaselineAcknowledged;
      for k := 0 to |m.up|
        invariant Valid() && MayStart(log, run, KeyOf(m), k) && !down
        invariant old(log) <= log && forall i :: |old(log)| <= i < |log| ==> Succeeded(log[i])
        invariant durable == old(durable).(tables := durable.tables)
        invariant forall j :: 0 <= j < k ==> Acknowledged(log, m, j)
      {
        ghost var before := log;
        var a := RunOperation(phase, m, k);
        AcknowledgedKept(before, log[|before|]);
        if !a.Ok? {
          if a.Error? {
            a := InsertMigrationEntry(KeyOf(m), Failed);
          }
          return FatalUnlessCrash(a);
        }
      }
      r := Done;
    }

    /** The part of the loop that is reached when `m` has no marker yet. */
    method RunMigration(phase: Phase, m: Migration) returns (r: Result)
      requires Valid() && KeyOf(m) !in durable.markers && setup.registry.WellFormed() && m in setup.registry.Of(phase)
      requires Healthy(setup.registry, durable) && !down
      requires forall earlier :: setup.registry.Prerequisite(earlier, m, phase) ==>
                 IsFinished(durable.markers, KeyOf(earlier))
      modifies this`durable, this`log, this`down, this`refused
      ensures Ends(r, old(log)) && (r.Retryable? ==> log == old(log))
      ensures r.Fatal? ==> KeyOf(m) in durable.markers && (ShownFailed(KeyOf(m)) || (KeyOf(m), Finished) in refused)
      ensures Valid() && durable.legacy == old(durable.legacy) && durable.tracked == old(durable.tracked)
      ensures r.Done? ==> durable.markers == old(durable.markers)[KeyOf(m) := Finished]
      ensures reliable ==> r.Done?
    {
      var key := KeyOf(m);
      MigrationFacts(setup.registry, durable, m, phase);
      NotStarted(setup, initial, durable, log, run, key);
      AllowedWith(setup.registry, durable.markers, phase, m, durable.markers[key := InProgress]);
      hide Safe, StartAllowed, MayStart, Acknowledged, Healthy, Registry.WellFormed, Registry.Prerequisite,
        BaselineAcknowledged;
      var a := InsertMigrationEntry(key, InProgress);
      if !a.Ok? {
        return RetryUnlessCrash(a);
      }
      r := RunOperations(phase, m);
      if !r.Done? {
        return;
      }
      MayMarkFinished(setup, log, m);
      a := InsertMigrationEntry(key, Finished);
      if !a.Ok? {
        return FatalUnlessCrash(a);
      }
      r := Done;
    }

    /** One turn of the loop over a registry: a finished migration is passed over, an unfinished one stops the run. */
    method RunItem(phase: Phase, m: Migration) returns (r: Result)
      requires Valid() && setup.registry.WellFormed() && Healthy(setup.registry, durable)
               && m in setup.registry.Of(phase) && !down
      modifies this`durable, this`log, this`down, this`refused
      ensures Ends(r, old(log)) && (r.Retryable? ==> log == old(log))
      ensures r.Fatal? ==> KeyOf(m) in durable.markers
                           || exists earlier :: setup.registry.Prerequisite(earlier, m, phase)
                                                && !old(IsFinished(durable.markers, KeyOf(earlier)))
      ensures Valid() && durable.legacy == old(durable.legacy) && durable.tracked == old(durable.tracked)
      ensures r.Done? ==>
                && Healthy(setup.registry, durable) && IsFinished(durable.markers, KeyOf(m))
                && forall key :: key in old(durable.markers) ==>
                     key in durable.markers && durable.markers[key] == old(durable.markers[key])
      ensures old(KeyOf(m) in durable.markers) ==> log == old(log) && durable == old(durable)
      ensures (reliable
               && forall earlier :: setup.registry.Prerequisite(earlier, m, phase) ==>
                    old(IsFinished(durable.markers, KeyOf(earlier))))
              ==> r.Done?
    {
      MigrationFacts(setup.registry, durable, m, phase);
      MarkedIsFinished(setup.registry, durable, m);
      hide Safe, Healthy, Registry.WellFormed, Registry.Prerequisite;
      r := RequireEarlierPostBaselineMigrations(m, phase);
      if !r.Done? {
        return;
      }
      var a, present, status := MigrationStatus(KeyOf(m));
      if !a.Ok? {
        return RetryUnlessCrash(a);
      }
      if present {
        return if status != Finished then Fatal else Done;
      }
      ghost var d := durable;
      r := RunMigration(phase, m);
      if r.Done? {
        StaysHealthy(setup.registry, d, durable, m);
      }
    }

    method RunPostBaselineMigrations(phase: Phase) returns (r: Result)
      requires Valid() && !down
      modifies this`durable, this`log, this`down, this`refused
      ensures Ends(r, old(log))
      ensures Valid() && durable.legacy == old(durable.legacy) && durable.tracked == old(durable.tracked)
      ensures r.Done? ==>
                && setup.registry.WellFormed() && Healthy(setup.registry, durable)
                && AllFinished(setup.registry.Of(phase), durable.markers)
                && forall key :: key in old(durable.markers) ==>
                     key in durable.markers && durable.markers[key] == old(durable.markers[key])
      ensures (reliable && setup.registry.WellFormed() && old(Healthy(setup.registry, durable))
               && (phase.Async? ==> old(AllFinished(setup.registry.sync, durable.markers)))) ==> r.Done?
    {
      hide Safe, Healthy, PhaseOk, Registry.Prerequisite, Succeeded;
      r := RequireCanonicalBaseline();
      if !r.Done? {
        return;
      }
      var migrations := setup.registry.Of(phase);
      for i := 0 to |migrations|
        invariant Valid() && Healthy(setup.registry, durable) && Ends(Done, old(log))
        invariant durable.legacy == old(durable.legacy) && durable.tracked == old(durable.tracked)
        invariant AllFinished(migrations[..i], durable.markers)
        invariant forall key :: key in old(durable.markers) ==>
                    key in durable.markers && durable.markers[key] == old(durable.markers[key])
      {
        var m := migrations[i];
        if reliable && (phase.Async? ==> old(AllFinished(setup.registry.sync, durable.markers))) {
          EarlierFinished(setup.registry, phase, i, durable.markers);
        }
        r := RunItem(phase, m);
        if !r.Done? {
          return;
        }
        assert migrations[..i + 1] == migrations[..i] + [m];
      }
      assert migrations[..|migrations|] == migrations;
      r := Done;
    }

    // ---- Whole runs -------------------------------------------------------------------------------------------

    ghost method BeginRun()
      requires Valid()
      modifies this`run, this`down
      ensures Valid() && run == old(run) + 1 && !down
      ensures Pristine(durable) ==> MayCreate(log, run, 0, 0)
    {
      RunBegins(setup, initial, durable, log, run);
      run, down := run + 1, false;
    }

    method SyncUp() returns (r: Result)
      requires Valid()
      modifies this`durable, this`log, this`run, this`down, this`refused
      ensures Valid() && durable.tracked == old(durable.tracked) && Ends(r, old(log)) && run == old(run) + 1
      ensures r.Done? ==> Healthy(setup.registry, durable) && AllFinished(setup.registry.sync, durable.markers)
      ensures (reliable && setup.registry.WellFormed() && AllTracked(durable)
               && old(Pristine(durable) || Healthy(setup.registry, durable))) ==> r.Done?
    {
      hide Safe, Healthy, Pristine, MayCreate, Registry.WellFormed, AllFinished;
      BeginRun();
      r := EnsureCanonicalBaseline();
      if r.Done? {
        r := RunPostBaselineMigrations(Sync);
      }
    }

    method AsyncUp() returns (r: Result)
      requires Valid()
      modifies this`durable, this`log, this`run, this`down, this`refused
      ensures Valid() && durable.tracked == old(durable.tracked) && Ends(r, old(log)) && run == old(run) + 1
      ensures r.Done? ==>
                && Healthy(setup.registry, durable) && AllFinished(setup.registry.async, durable.markers)
                && (old(AllFinished(setup.registry.sync, durable.markers)) ==>
                      AllFinished(setup.registry.sync, durable.markers))
      ensures (reliable && setup.registry.WellFormed()
               && old(Healthy(setup.registry, durable)
                      && AllFinished(setup.registry.sync, durable.markers))) ==> r.Done?
    {
      hide Safe, Healthy, Pristine, MayCreate, Registry.WellFormed;
      BeginRun();
      r := RunPostBaselineMigrations(Async);
    }

    /** Any sequence of runs, none overlapping another, each cut short anywhere: what was issued is safe. */
    method Operate(runs: seq<Phase>) returns (results: seq<Result>)
      requires Valid()
      modifies this`durable, this`log, this`run, this`down, this`refused
      ensures Valid() && old(log) <= log && run == old(run) + |runs| == old(run) + |results|
      ensures runs != [] && results[|runs| - 1].Done? ==>
                Healthy(setup.registry, durable) && AllFinished(setup.registry.Of(runs[|runs| - 1]), durable.markers)
      ensures DdlOnce(log) && StartedOnce(log) && ChecksLast(log)
      ensures AllStartsAllowed(setup.registry, log)
      ensures FinishedMeansDone(setup, initial, durable.markers, log)
    {
      hide AllStartsAllowed, DdlOnce, StartedOnce, ChecksLast, FinishedMeansDone, Healthy, AllFinished;
      results := [];
      for i := 0 to |runs|
        invariant Valid() && old(log) <= log && run == old(run) + i && |results| == i
        invariant i > 0 && results[i - 1].Done? ==>
                    Healthy(setup.registry, durable) && AllFinished(setup.registry.Of(runs[i - 1]), durable.markers)
      {
        var r: Result;
        if runs[i].Sync? {
          r := SyncUp();
        } else {
          r := AsyncUp();
        }
        results := results + [r];
      }
    }

    /** With nothing failing, one sync and one async run bring a fresh, bootstrapped cluster all the way. */
    method Install() returns (sync: Result, async: Result)
      requires Valid() && reliable && setup.registry.WellFormed() && AllTracked(durable) && Pristine(durable)
      modifies this`durable, this`log, this`run, this`down, this`refused
      ensures Valid() && sync.Done? && async.Done? && Healthy(setup.registry, durable)
      ensures AllFinished(setup.registry.sync + setup.registry.async, durable.markers)
    {
      hide Safe, Healthy, Pristine, Registry.WellFormed;
      sync := SyncUp();
      async := AsyncUp();
    }
  }
}
