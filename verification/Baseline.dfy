/** How an existing database is judged before any migration runs, and the registry of post-baseline migrations. */
module Baseline {
  import opened Wrappers

  datatype Database = Traces | Metrics | Logs | Metadata | Analytics | Meter | Other(name: string)

  const DATABASES: seq<Database> := [Traces, Metrics, Logs, Metadata, Analytics, Meter]

  predicate Known(d: Database)
    ensures Known(d) <==> d in DATABASES
  {
    assert DATABASES[0] == Traces && DATABASES[1] == Metrics && DATABASES[2] == Logs && DATABASES[3] == Metadata
           && DATABASES[4] == Analytics && DATABASES[5] == Meter;
    !d.Other?
  }

  /** The status text of a marker; anything but the three known ones is `Text`. */
  datatype Status = InProgress | Finished | Failed | Text(text: string)

  const BASELINE_ID: nat := 999
  const POST_BASELINE_ID_START: nat := 2000

  datatype Operation = Operation(forceMigrate: bool, isMutation: bool, isIdempotent: bool, isLightweight: bool)

  predicate IsSyncOperation(o: Operation) { o.forceMigrate || (!o.isMutation && o.isIdempotent && o.isLightweight) }

  /** `None` is a nil operation. */
  datatype Migration = Migration(database: Database, id: nat, up: seq<Option<Operation>>, down: seq<Option<Operation>>)

  /** One migration of one database: what a marker is about. */
  datatype Key = Key(database: Database, id: nat)

  function KeyOf(m: Migration): Key { Key(m.database, m.id) }

  // ---- Judging a database -------------------------------------------------------------------------------------

  datatype BaselineState = Empty | Complete | Incompatible

  datatype Snapshot = Snapshot(domainTables: nat, legacyTables: nat, trackingTables: nat, statuses: map<nat, Status>)

  datatype Inspection = Inspection(state: BaselineState, missingBaselineMarker: bool, nonFinished: seq<nat>,
                                   unexpected: seq<nat>)

  predicate Ascending(ids: seq<nat>) { forall i, j :: 0 <= i < j < |ids| ==> ids[i] < ids[j] }

  function Insert(id: nat, ids: seq<nat>): (r: seq<nat>)
    ensures forall x :: x in r <==> x == id || x in ids
    ensures Ascending(ids) && id !in ids ==> Ascending(r)
  {
    if ids == [] then [id]
    else if id <= ids[0] then [id] + ids
    else
      var rest := Insert(id, ids[1..]);
      assert forall x :: x in ids <==> x == ids[0] || x in ids[1..];
      assert forall k :: 0 <= k < |rest| ==> rest[k] in rest;
      [ids[0]] + rest
  }

  /** Accepts a database as empty exactly when it holds nothing, and as complete exactly when its only history is the
      finished baseline and finished registered migrations, with no legacy tracking table. */
  method ClassifyBaselineState(allowedIds: seq<nat>, snapshot: Snapshot) returns (result: Inspection)
    ensures result.state.Empty? <==>
              snapshot.domainTables == 0 && snapshot.legacyTables == 0 && snapshot.statuses == map[]
    ensures result.state.Empty? ==> result == Inspection(Empty, false, [], [])
    ensures result.state.Complete? <==>
              && snapshot.legacyTables == 0 && snapshot.trackingTables == 1
              && 999 in snapshot.statuses
              && forall id :: id in snapshot.statuses ==>
                   snapshot.statuses[id] == Finished && (id == 999 || id in allowedIds)
    ensures !result.state.Empty? ==>
              && Ascending(result.nonFinished) && Ascending(result.unexpected)
              && (forall id :: id in result.unexpected <==>
                    id in snapshot.statuses && id != 999 && id !in allowedIds)
              && (forall id :: id in result.nonFinished <==>
                    id in snapshot.statuses && (id == 999 || id in allowedIds)
                      && snapshot.statuses[id] != Finished)
              && (result.missingBaselineMarker <==>
                    !(999 in snapshot.statuses && snapshot.statuses[999] == Finished))
  {
    if snapshot.domainTables == 0 && snapshot.legacyTables == 0 && |snapshot.statuses| == 0 {
      return Inspection(Empty, false, [], []);
    }
    var nonFinished: seq<nat>, unexpected: seq<nat> := [], [];
    var rest := snapshot.statuses.Keys;
    while rest != {}
      invariant rest <= snapshot.statuses.Keys
      invariant Ascending(nonFinished) && Ascending(unexpected)
      invariant forall id :: id in unexpected <==>
                  id in snapshot.statuses.Keys - rest && id != BASELINE_ID && id !in allowedIds
      invariant forall id :: id in nonFinished <==>
                  id in snapshot.statuses.Keys - rest && (id == BASELINE_ID || id in allowedIds)
                    && snapshot.statuses[id] != Finished
      decreases rest
    {
      var id :| id in rest;
      rest := rest - {id};
      if id != BASELINE_ID && id !in allowedIds {
        unexpected := Insert(id, unexpected);
      } else if snapshot.statuses[id] != Finished {
        nonFinished := Insert(id, nonFinished);
      }
    }
    var missing := !(BASELINE_ID in snapshot.statuses && snapshot.statuses[BASELINE_ID] == Finished);
    var complete := snapshot.legacyTables == 0 && snapshot.trackingTables == 1 && !missing && nonFinished == []
        && unexpected == [];
    if !complete && snapshot.legacyTables == 0 && snapshot.trackingTables == 1 && !missing {
      var id := if nonFinished != [] then nonFinished[0] else unexpected[0];
      assert id in nonFinished || id in unexpected;
    }
    result := Inspection(if complete then Complete else Incompatible, missing, nonFinished, unexpected);
  }

  method CombineBaselineInspections(states: seq<BaselineState>) returns (report: BaselineState)
    ensures report.Empty? <==> states != [] && forall s :: s in states ==> s.Empty?
    ensures report.Complete? <==> states != [] && forall s :: s in states ==> s.Complete?
  {
    report := Incompatible;
    if states == [] {
      return;
    }
    var allEmpty, allComplete := true, true;
    for i := 0 to |states|
      invariant allEmpty <==> forall k :: 0 <= k < i ==> states[k].Empty?
      invariant allComplete <==> forall k :: 0 <= k < i ==> states[k].Complete?
    {
      allEmpty, allComplete := allEmpty && states[i].Empty?, allComplete && states[i].Complete?;
    }
    if allEmpty {
      report := Empty;
      assert states[0] in states;
    } else if allComplete {
      report := Complete;
      assert states[0] in states;
    }
  }

  // ---- The registry -------------------------------------------------------------------------------------------

  datatype Phase = Sync | Async

  /** Forced operations belong to the synchronous phase, and of the others those that are no mutations, can be repeated
      and are light. */
  predicate OperationOk(o: Option<Operation>, phase: Phase) {
    && o.Some?
    && (phase.Sync? <==>
        o.value.forceMigrate || (!o.value.isMutation && o.value.isIdempotent && o.value.isLightweight))
  }

  predicate ItemOk(m: Migration, phase: Phase) {
    && m.database in DATABASES && m.id >= 2000 && m.up != [] && m.down == []
    && forall o :: o in m.up ==> OperationOk(o, phase)
  }

  predicate IncreasingIds(ms: seq<Migration>) {
    forall i, j :: 0 <= i < j < |ms| && ms[i].database == ms[j].database ==> ms[i].id < ms[j].id
  }

  predicate PhaseOk(ms: seq<Migration>, phase: Phase) {
    (forall m :: m in ms ==> ItemOk(m, phase)) && IncreasingIds(ms)
  }

  function KeysOf(ms: seq<Migration>): set<Key> { set m | m in ms :: KeyOf(m) }

  datatype Registry = Registry(sync: seq<Migration>, async: seq<Migration>) {
    predicate WellFormed() {
      PhaseOk(sync, Sync) && PhaseOk(async, Async) && KeysOf(sync) !! KeysOf(async)
    }

    function Of(phase: Phase): seq<Migration> { if phase.Sync? then sync else async }

    /** The migrations that must be finished before `m` may start in `phase`. */
    predicate Prerequisite(earlier: Migration, m: Migration, phase: Phase) {
      && (earlier in sync || (phase.Async? && earlier in async))
      && earlier.database == m.database && earlier.id < m.id
    }

    /** In a well-formed registry a key names one migration. */
    lemma OneOfKey(m: Migration, n: Migration)
      requires WellFormed() && m in sync + async && n in sync + async && KeyOf(m) == KeyOf(n)
      ensures m == n
    {
      var ms := if m in sync then sync else async;
      assert KeyOf(m) in KeysOf(ms) && KeyOf(n) in KeysOf(if n in sync then sync else async);
      assert n in ms;
      var i :| 0 <= i < |ms| && ms[i] == m;
      var j :| 0 <= j < |ms| && ms[j] == n;
    }
  }

  /** The prerequisites of a migration, in registry order. */
  method PrerequisitePostBaselineMigrations(registry: Registry, current: Migration, phase: Phase)
    returns (prerequisites: seq<Migration>)
    ensures forall m :: m in prerequisites <==>
              && m.database == current.database && m.id < current.id
              && (m in registry.sync || (phase.Async? && m in registry.async))
  {
    var all := registry.sync + if phase.Async? then registry.async else [];
    prerequisites := [];
    for i := 0 to |all|
      invariant forall m :: m in prerequisites <==> m in all[..i] && registry.Prerequisite(m, current, phase)
    {
      if all[i].database == current.database && all[i].id < current.id {
        prerequisites := prerequisites + [all[i]];
      }
    }
    assert all[..|all|] == all;
  }

  /** The order of the combined registry: by the position of the database, then by identifier. */
  function Rank(d: Database): (r: int)
    ensures if d in DATABASES then 0 <= r < |DATABASES| && DATABASES[r] == d else r == -1
  {
    match d
    case Traces => 0
    case Metrics => 1
    case Logs => 2
    case Metadata => 3
    case Analytics => 4
    case Meter => 5
    case Other(_) => -1
  }

  predicate Less(a: Migration, b: Migration) {
    if a.database != b.database then Rank(a.database) < Rank(b.database) else a.id < b.id
  }

  predicate InOrder(ms: seq<Migration>) { forall i, j :: 0 <= i < j < |ms| ==> !Less(ms[j], ms[i]) }

  predicate DistinctKeys(ms: seq<Migration>) { forall i, j :: 0 <= i < j < |ms| ==> KeyOf(ms[i]) != KeyOf(ms[j]) }

  function InsertMigration(m: Migration, ms: seq<Migration>): (r: seq<Migration>)
    ensures forall x :: x in r <==> x == m || x in ms
  {
    if ms == [] then [m]
    else if !Less(ms[0], m) then [m] + ms
    else
      assert ms == [ms[0]] + ms[1..];
      [ms[0]] + InsertMigration(m, ms[1..])
  }

  function SortMigrations(ms: seq<Migration>): (r: seq<Migration>)
    ensures forall x :: x in r <==> x in ms
  {
    if ms == [] then [] else
      assert ms == [ms[0]] + ms[1..];
      InsertMigration(ms[0], SortMigrations(ms[1..]))
  }

  lemma FirstInOrder(m: Migration, ms: seq<Migration>)
    ensures InOrder(ms) && (forall x :: x in ms ==> !Less(x, m)) ==> InOrder([m] + ms)
    ensures DistinctKeys(ms) && (forall x :: x in ms ==> KeyOf(x) != KeyOf(m)) ==> DistinctKeys([m] + ms)
  {
    hide Less;
    assert forall k :: 0 < k < |[m] + ms| ==> ([m] + ms)[k] == ms[k - 1] && ms[k - 1] in ms;
  }

  lemma RestInOrder(ms: seq<Migration>)
    requires ms != []
    ensures InOrder(ms) ==> InOrder(ms[1..]) && forall x :: x in ms[1..] ==> !Less(x, ms[0])
    ensures DistinctKeys(ms) ==> DistinctKeys(ms[1..]) && forall x :: x in ms[1..] ==> KeyOf(x) != KeyOf(ms[0])
    ensures forall x :: x in ms <==> x == ms[0] || x in ms[1..]
  {
    hide Less;
    assert ms == [ms[0]] + ms[1..];
    assert forall x :: x in ms[1..] ==> exists k :: 0 < k < |ms| && ms[k] == x;
  }

  lemma {:induction false} InsertInOrder(m: Migration, ms: seq<Migration>)
    requires Known(m.database) && InOrder(ms) && forall x :: x in ms ==> Known(x.database)
    ensures InOrder(InsertMigration(m, ms))
    ensures DistinctKeys(ms) && (forall x :: x in ms ==> KeyOf(x) != KeyOf(m)) ==> DistinctKeys(InsertMigration(m, ms))
  {
    if ms == [] {
      FirstInOrder(m, ms);
    } else {
      RestInOrder(ms);
      if Less(ms[0], m) {
        InsertInOrder(m, ms[1..]);
        FirstInOrder(ms[0], InsertMigration(m, ms[1..]));
      } else {
        FirstInOrder(m, ms);
      }
    }
  }

  lemma {:induction false} InsertPermutes(m: Migration, ms: seq<Migration>)
    ensures multiset(InsertMigration(m, ms)) == multiset(ms) + multiset{m}
  {
    if ms != [] && Less(ms[0], m) {
      InsertPermutes(m, ms[1..]);
      assert ms == [ms[0]] + ms[1..];
    }
  }

  /** What `slices.SortFunc` promises of migrations of known databases. */
  lemma {:induction false} SortPermutes(ms: seq<Migration>)
    ensures multiset(SortMigrations(ms)) == multiset(ms)
  {
    if ms != [] {
      SortPermutes(ms[1..]);
      InsertPermutes(ms[0], SortMigrations(ms[1..]));
      assert ms == [ms[0]] + ms[1..];
    }
  }

  lemma {:induction false} SortInOrder(ms: seq<Migration>)
    requires forall m :: m in ms ==> Known(m.database)
    ensures InOrder(SortMigrations(ms)) && (DistinctKeys(ms) ==> DistinctKeys(SortMigrations(ms)))
  {
    hide InOrder, DistinctKeys, Less, InsertMigration;
    if ms == [] {
      NoneInOrder();
    } else {
      RestInOrder(ms);
      SortInOrder(ms[1..]);
      InsertInOrder(ms[0], SortMigrations(ms[1..]));
    }
  }

  lemma NoneInOrder()
    ensures InOrder([]) && DistinctKeys([])
  {
  }

  /** Both registries, sorted. */
  method AllPostBaselineMigrations(registry: Registry) returns (migrations: seq<Migration>)
    ensures multiset(migrations) == multiset(registry.sync + registry.async)
    ensures forall m :: m in migrations <==> m in registry.sync + registry.async
    ensures registry.WellFormed() ==>
              forall i, j :: 0 <= i < j < |migrations| ==>
                var m, n := migrations[i], migrations[j];
                if m.database == n.database then m.id < n.id else Rank(m.database) < Rank(n.database)
  {
    migrations := registry.sync;
    migrations := migrations + registry.async;
    SortPermutes(migrations);
    if registry.WellFormed() {
      KnownAndDistinct(registry);
      SortInOrder(migrations);
    }
    migrations := SortMigrations(migrations);
    if registry.WellFormed() {
      Rising(migrations);
    }
  }

  /** In order and without a key twice, migrations of known databases rise. */
  lemma Rising(ms: seq<Migration>)
    requires InOrder(ms) && DistinctKeys(ms) && forall m :: m in ms ==> Known(m.database)
    ensures forall i, j :: 0 <= i < j < |ms| ==>
              var m, n := ms[i], ms[j];
              if m.database == n.database then m.id < n.id else Rank(m.database) < Rank(n.database)
  {
    forall i, j | 0 <= i < j < |ms|
      ensures if ms[i].database == ms[j].database then ms[i].id < ms[j].id
              else Rank(ms[i].database) < Rank(ms[j].database)
    {
      assert !Less(ms[j], ms[i]) && KeyOf(ms[i]) != KeyOf(ms[j]);
      assert Known(ms[i].database) && Known(ms[j].database);
    }
  }

  lemma KnownAndDistinct(r: Registry)
    requires r.WellFormed()
    ensures DistinctKeys(r.sync + r.async) && forall m :: m in r.sync + r.async ==> Known(m.database)
  {
    var all, n := r.sync + r.async, |r.sync|;
    hide ItemOk, OperationOk;
    KnownItems(r.sync, Sync);
    KnownItems(r.async, Async);
    forall i, j | 0 <= i < j < |all|
      ensures KeyOf(all[i]) != KeyOf(all[j])
    {
      assert i < n ==> all[i] in r.sync && KeyOf(all[i]) in KeysOf(r.sync);
      assert j >= n ==> all[j] in r.async && KeyOf(all[j]) in KeysOf(r.async);
    }
  }

  lemma KnownItems(ms: seq<Migration>, phase: Phase)
    requires PhaseOk(ms, phase)
    ensures forall m :: m in ms ==> Known(m.database)
  {
  }

  /** The registered identifiers of one database, in increasing order. */
  method PostBaselineMigrationIds(registry: Registry, database: Database) returns (ids: seq<nat>)
    ensures forall id: nat :: id in ids <==>
              exists m :: m in registry.sync + registry.async && KeyOf(m) == Key(database, id)
    ensures registry.WellFormed() ==> forall i, j :: 0 <= i < j < |ids| ==> ids[i] < ids[j]
  {
    hide Registry.WellFormed;
    var all := AllPostBaselineMigrations(registry);
    ids := [];
    for i := 0 to |all|
      invariant forall id: nat :: id in ids <==> exists k :: 0 <= k < i && KeyOf(all[k]) == Key(database, id)
      invariant registry.WellFormed() ==> Ascending(ids)
    {
      if all[i].database == database {
        assert forall k :: 0 <= k < |ids| ==> ids[k] in ids;
        ids := ids + [all[i].id];
      }
    }
    forall id: nat
      ensures id in ids <==> exists m :: m in registry.sync + registry.async && KeyOf(m) == Key(database, id)
    {
      if m :| m in all && KeyOf(m) == Key(database, id) {
        var k :| 0 <= k < |all| && all[k] == m;
      }
      if k :| 0 <= k < |all| && KeyOf(all[k]) == Key(database, id) {
        assert all[k] in all;
      }
    }
  }

  method ValidateOperations(m: Migration, phase: Phase) returns (valid: bool)
    ensures valid <==> forall o :: o in m.up ==> OperationOk(o, phase)
  {
    for k := 0 to |m.up|
      invariant forall j :: 0 <= j < k ==> OperationOk(m.up[j], phase)
    {
      assert m.up[k] in m.up;
      if m.up[k].None? {
        return false;
      }
      if phase.Sync? != IsSyncOperation(m.up[k].value) {
        return false;
      }
    }
    valid := true;
  }

  lemma PhaseOkSnoc(ms: seq<Migration>, m: Migration, phase: Phase)
    ensures PhaseOk(ms + [m], phase) <==>
              && PhaseOk(ms, phase) && ItemOk(m, phase)
              && forall k :: 0 <= k < |ms| && ms[k].database == m.database ==> ms[k].id < m.id
  {
    hide ItemOk;
    var all := ms + [m];
    assert all[|ms|] == m && all[..|ms|] == ms;
    assert forall k :: 0 <= k < |ms| ==> all[k] == ms[k];
    assert forall x :: x in all <==> x in ms || x == m;
  }

  /** The checks made on one migration: `previous` is the identifier last seen in its database, 0 for none. */
  method ValidateItem(m: Migration, phase: Phase, previous: nat, seen: set<Key>) returns (valid: bool)
    ensures valid <==> ItemOk(m, phase) && (previous != 0 ==> previous < m.id) && KeyOf(m) !in seen
  {
    if !Known(m.database) || m.id < POST_BASELINE_ID_START || m.up == [] || m.down != [] {
      return false;
    }
    if (previous != 0 && m.id <= previous) || KeyOf(m) in seen {
      return false;
    }
    valid := ValidateOperations(m, phase);
  }

  /** The identifier last listed for a database, 0 for none. */
  function LastId(ms: seq<Migration>, d: Database): nat {
    if ms == [] then 0 else if ms[|ms| - 1].database == d then ms[|ms| - 1].id else LastId(ms[..|ms| - 1], d)
  }

  lemma {:induction false} LastIdListed(ms: seq<Migration>, d: Database)
    ensures LastId(ms, d) != 0 ==> exists k :: 0 <= k < |ms| && ms[k].database == d && ms[k].id == LastId(ms, d)
    ensures IncreasingIds(ms) ==> forall k :: 0 <= k < |ms| && ms[k].database == d ==> ms[k].id <= LastId(ms, d)
  {
    if ms != [] {
      var rest := ms[..|ms| - 1];
      LastIdListed(rest, d);
      assert forall k :: 0 <= k < |rest| ==> rest[k] == ms[k];
    }
  }

  /** In a valid prefix, comparing with the last identifier of the database is comparing with all of them. */
  lemma PhaseOkStep(ms: seq<Migration>, m: Migration, phase: Phase)
    requires PhaseOk(ms, phase)
    ensures PhaseOk(ms + [m], phase) <==>
              ItemOk(m, phase) && (LastId(ms, m.database) != 0 ==> LastId(ms, m.database) < m.id)
    ensures LastId(ms + [m], m.database) == m.id
    ensures forall d :: d != m.database ==> LastId(ms + [m], d) == LastId(ms, d)
    ensures KeysOf(ms + [m]) == KeysOf(ms) + {KeyOf(m)}
  {
    hide ItemOk;
    PhaseOkSnoc(ms, m, phase);
    LastIdListed(ms, m.database);
    var all := ms + [m];
    assert all[..|all| - 1] == ms;
    assert forall x :: x in all <==> x in ms || x == m;
    if LastId(ms, m.database) == 0 {
      forall k | 0 <= k < |ms| && ms[k].database == m.database
        ensures false
      {
        ItemIdPositive(ms[k], phase);
      }
    }
  }

  /** One pass over a registry: `seen` collects the keys of both passes, `last` the highest identifier of each database
      in this one. */
  method ValidatePhase(phase: Phase, migrations: seq<Migration>, seen: set<Key>) returns (valid: bool, seen': set<Key>)
    ensures valid <==> PhaseOk(migrations, phase) && KeysOf(migrations) !! seen
    ensures valid ==> seen' == seen + KeysOf(migrations)
  {
    hide PhaseOk, ItemOk, LastId, KeysOf;
    seen' := seen;
    var last: map<Database, nat> := map[];
    NoneYet(phase);
    for index := 0 to |migrations|
      invariant PhaseOk(migrations[..index], phase) && KeysOf(migrations[..index]) !! seen
      invariant seen' == seen + KeysOf(migrations[..index])
      invariant forall d :: LastId(migrations[..index], d) == if d in last then last[d] else 0
    {
      var m, done := migrations[index], migrations[..index];
      var previous := if m.database in last then last[m.database] else 0;
      var itemValid := ValidateItem(m, phase, previous, seen');
      assert migrations[..index + 1] == done + [m];
      PhaseOkStep(done, m, phase);
      if !itemValid {
        NotValid(phase, migrations, index, seen);
        return false, seen';
      }
      last := last[m.database := m.id];
      seen' := seen' + {KeyOf(m)};
    }
    assert migrations[..|migrations|] == migrations;
    valid := true;
  }

  lemma NoneYet(phase: Phase)
    ensures PhaseOk([], phase) && KeysOf([]) == {} && forall d :: LastId([], d) == 0
  {
  }

  lemma ItemIdPositive(m: Migration, phase: Phase)
    requires ItemOk(m, phase)
    ensures m.id != 0
  {
  }

  /** A bad item, or one whose key was listed before, makes the pass invalid. */
  lemma NotValid(phase: Phase, migrations: seq<Migration>, index: nat, seen: set<Key>)
    requires index < |migrations| && PhaseOk(migrations[..index], phase)
    requires !PhaseOk(migrations[..index + 1], phase) || KeyOf(migrations[index]) in seen + KeysOf(migrations[..index])
    ensures !(PhaseOk(migrations, phase) && KeysOf(migrations) !! seen)
  {
  }

  method ValidatePostBaselineMigrations(registry: Registry) returns (valid: bool)
    ensures valid <==> registry.WellFormed()
  {
    var seen: set<Key>;
    hide PhaseOk;
    valid, seen := ValidatePhase(Sync, registry.sync, {});
    if valid {
      valid, seen := ValidatePhase(Async, registry.async, seen);
    }
  }
}
