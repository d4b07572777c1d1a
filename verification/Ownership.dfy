/**
 The task ownership table: its migration from older layouts, its operations, and the claims that
 background tasks make on it.

 The migration is a list of SQL statements chosen from what the database looks like at start-up.
 Each statement is durable when it finishes, and the process may stop after any of them.
 */
module Ownership {
  import opened Prelude
  import opened Timestamps

  type TaskId = string

  /** (provider, task id) */
  type Key = (string, string)

  // ---------------------------------------------------------------------
  // Migration
  // ---------------------------------------------------------------------

  /** The main table: missing, keyed by task alone, or keyed by provider and task. */
  datatype Table<R> = Absent | OldShape(byTask: map<TaskId, R>) | NewShape(rows: map<Key, R>)

  datatype Db<R> = Db(table: Table<R>, legacy: Option<map<TaskId, R>>)

  datatype Statement = CopyOldToLegacy | DropOld | RenameOld | CreateTable | CopyFromLegacy | DropLegacy

  /** Whether SQLite could run the statement. */
  predicate CanRun<R>(db: Db<R>, statement: Statement) {
    match statement {
      case CopyOldToLegacy => db.table.OldShape? && db.legacy.Some?
      case DropOld => db.table.OldShape?
      case RenameOld => db.table.OldShape? && db.legacy.None?
      case CreateTable => true
      case CopyFromLegacy => db.table.NewShape? && db.legacy.Some?
      case DropLegacy => db.legacy.Some?
    }
  }

  /** Rows of a task-keyed table, filed under the provider they belonged to. */
  function Scoped<R>(rows: map<TaskId, R>): map<Key, R> {
    map key: Key | key in (set id | id in rows :: ("modelark", id)) :: rows[key.1]
  }

  function Execute<R>(db: Db<R>, statement: Statement): Db<R>
    requires CanRun(db, statement)
  {
    match statement {
      case CopyOldToLegacy => db.(legacy := Some(db.legacy.value + db.table.byTask))
      case DropOld => db.(table := Absent)
      case RenameOld => Db(Absent, Some(db.table.byTask))
      case CreateTable => if db.table.Absent? then db.(table := NewShape(map[])) else db
      case CopyFromLegacy => db.(table := NewShape(db.table.rows + Scoped(db.legacy.value)))
      case DropLegacy => db.(legacy := None)
    }
  }

  /** The statements a start-up runs, decided before the first of them. */
  function Plan<R>(db: Db<R>): seq<Statement> {
    (if db.table.OldShape? then (if db.legacy.Some? then [CopyOldToLegacy, DropOld] else [RenameOld]) else [])
    + [CreateTable]
    + (if db.legacy.Some? || db.table.OldShape? then [CopyFromLegacy, DropLegacy] else [])
  }

  /** The database after the given statements; `None` if one of them could not run. */
  function ExecuteAll<R>(db: Db<R>, statements: seq<Statement>): Option<Db<R>>
    decreases |statements|
  {
    if statements == [] then Some(db)
    else if CanRun(db, statements[0]) then ExecuteAll(Execute(db, statements[0]), statements[1..])
    else None
  }

  /** What the migration is for: every task row, the newest layout winning last-to-first. */
  function Migrated<R>(db: Db<R>): Db<R> {
    var stranded := if db.legacy.Some? then db.legacy.value else map[];
    var former := if db.table.OldShape? then db.table.byTask else map[];
    var rows := if db.table.NewShape? then db.table.rows else map[];
    Db(NewShape(rows + Scoped(stranded + former)), None)
  }

  lemma ScopedJoins<R>(a: map<TaskId, R>, b: map<TaskId, R>)
    ensures Scoped(a + b) == Scoped(a) + Scoped(b)
    ensures forall id :: ("modelark", id) in Scoped(a) <==> id in a
  {
    assert forall id <- a :: ("modelark", id) in Scoped(a);
  }

  /** Every prefix of the statements runs and leads to `goal`; all of them reach it. */
  ghost predicate Resumable<R>(db: Db<R>, statements: seq<Statement>, goal: Db<R>)
    decreases |statements|
  {
    && Migrated(db) == goal
    && if statements == [] then db == goal
       else CanRun(db, statements[0]) && Resumable(Execute(db, statements[0]), statements[1..], goal)
  }

  lemma CopyingResumes<R>(db: Db<R>)
    requires db.table.NewShape? && db.legacy.Some?
    ensures Resumable(db, [CopyFromLegacy, DropLegacy], Migrated(db))
  {
    var rows, stranded := db.table.rows, db.legacy.value;
    assert stranded + map[] == stranded;
    assert rows + Scoped(stranded) + Scoped(stranded) == rows + Scoped(stranded);
    var copied := Execute(db, CopyFromLegacy);
    var dropped := Execute(copied, DropLegacy);
    assert Scoped<R>(map[] + map[]) == map[];
    assert Resumable(dropped, [], Migrated(db));
    assert [DropLegacy][1..] == [];
    assert Resumable(copied, [DropLegacy], Migrated(db));
    assert [CopyFromLegacy, DropLegacy][1..] == [DropLegacy];
  }

  lemma CreatingResumes<R>(db: Db<R>)
    requires !db.table.OldShape?
    ensures Resumable(db, [CreateTable] + (if db.legacy.Some? then [CopyFromLegacy, DropLegacy] else []), Migrated(db))
  {
    var created := Execute(db, CreateTable);
    var rest := if db.legacy.Some? then [CopyFromLegacy, DropLegacy] else [];
    assert ([CreateTable] + rest)[1..] == rest;
    if db.legacy.Some? {
      CopyingResumes(created);
    } else {
      assert Scoped<R>(map[] + map[]) == map[];
    }
  }

  lemma PlanResumes<R>(db: Db<R>)
    ensures Resumable(db, Plan(db), Migrated(db))
  {
    if db.table.OldShape? {
      var tail := [CreateTable] + [CopyFromLegacy, DropLegacy];
      if db.legacy.Some? {
        var copied := Execute(db, CopyOldToLegacy);
        assert copied.legacy.value + db.table.byTask == copied.legacy.value;
        assert copied.legacy.value + map[] == copied.legacy.value;
        CreatingResumes(Execute(copied, DropOld));
        assert Plan(db)[1..] == [DropOld] + tail && ([DropOld] + tail)[1..] == tail;
        assert Resumable(copied, [DropOld] + tail, Migrated(db));
      } else {
        assert map[] + db.table.byTask == db.table.byTask + map[];
        CreatingResumes(Execute(db, RenameOld));
        assert Plan(db)[1..] == tail;
      }
    } else {
      CreatingResumes(db);
      assert Plan(db) == [CreateTable] + if db.legacy.Some? then [CopyFromLegacy, DropLegacy] else [];
    }
  }

  lemma {:induction false} PrefixResumes<R>(db: Db<R>, statements: seq<Statement>, goal: Db<R>, stop: nat)
    requires Resumable(db, statements, goal) && stop <= |statements|
    ensures var stopped := ExecuteAll(db, statements[..stop]);
            && stopped.Some? && Migrated(stopped.value) == goal
            && (stop == |statements| ==> stopped.value == goal)
    decreases |statements|
  {
    if stop == 0 {
    } else {
      PrefixResumes(Execute(db, statements[0]), statements[1..], goal, stop - 1);
      assert statements[..stop][1..] == statements[1..][..stop - 1];
    }
  }

  /** A start-up that is killed after `stop` statements, if its plan is that long. */
  function Interrupted<R>(db: Db<R>, stop: nat): Db<R> {
    var plan := Plan(db);
    match ExecuteAll(db, plan[..if stop < |plan| then stop else |plan|]) {
      case Some(after) => after
      case None => db
    }
  }

  /** Any number of killed start-ups in a row. */
  function Crashes<R>(db: Db<R>, stops: seq<nat>): Db<R>
    decreases |stops|
  {
    if stops == [] then db else Crashes(Interrupted(db, stops[0]), stops[1..])
  }

  /**
   From any mix of tables, a completed start-up after any number of killed ones ends with the same
   provider-scoped table as one uninterrupted start-up, no statement ever fails, and another
   start-up changes nothing.
   */
  lemma {:induction false} MigrationIsResumable<R>(db: Db<R>, stops: seq<nat>)
    ensures ExecuteAll(db, Plan(db)) == Some(Migrated(db))
    ensures var crashed := Crashes(db, stops);
            ExecuteAll(crashed, Plan(crashed)) == Some(Migrated(db))
    ensures var done := Migrated(db);
            ExecuteAll(done, Plan(done)) == Some(done)
    decreases |stops|
  {
    var plan := Plan(db);
    PlanResumes(db);
    PrefixResumes(db, plan, Migrated(db), |plan|);
    assert plan[..|plan|] == plan;
    if stops == [] {
    } else {
      PrefixResumes(db, plan, Migrated(db), if stops[0] < |plan| then stops[0] else |plan|);
      MigrationIsResumable(Interrupted(db, stops[0]), stops[1..]);
    }
    var done := Migrated(db);
    assert Migrated(done) == done by {
      assert Scoped<R>(map[] + map[]) == map[];
    }
    PlanResumes(done);
    PrefixResumes(done, Plan(done), done, |Plan(done)|);
    assert Plan(done)[..|Plan(done)|] == Plan(done);
  }

  /**
   Every row survives, and nothing else appears. A task of the old or the stranded table ends up
   under its provider, the old table winning over the stranded one - and both over a row that
   the new table already had for it; every other row of the new table is kept as it is.
   */
  lemma MigrationKeepsRows<R>(db: Db<R>, key: Key)
    ensures
      var rows := Migrated(db).table.rows;
      var inOld := db.table.OldShape? && key.0 == "modelark" && key.1 in db.table.byTask;
      var inLegacy := db.legacy.Some? && key.0 == "modelark" && key.1 in db.legacy.value;
      var inNew := db.table.NewShape? && key in db.table.rows;
      && (key in rows <==> inOld || inLegacy || inNew)
      && (key in rows ==> rows[key] == if inOld then db.table.byTask[key.1]
                                       else if inLegacy then db.legacy.value[key.1]
                                       else db.table.rows[key])
  {
    var stranded := if db.legacy.Some? then db.legacy.value else map[];
    var former := if db.table.OldShape? then db.table.byTask else map[];
    ScopedJoins(stranded, former);
    ScopedJoins(former, stranded);
    assert key.0 == "modelark" ==> key == ("modelark", key.1);
  }

  // ---------------------------------------------------------------------
  // The table's operations
  // ---------------------------------------------------------------------

  /** Who owns a task: (principal, tenant). */
  datatype OwnerRow = OwnerRow(owner: (string, string), created: DateTime)

  type Rows = map<Key, OwnerRow>

  ghost predicate ValidRows(rows: Rows) {
    forall k <- rows :: Valid(rows[k].created)
  }

  /** INSERT ... ON CONFLICT DO UPDATE of the owner only. */
  function Recorded(rows: Rows, key: Key, owner: Principal, now: DateTime): Rows {
    rows[key := OwnerRow(owner.Identity(), if key in rows then rows[key].created else now)]
  }

  /** INSERT ... ON CONFLICT DO NOTHING. */
  function Claimed(rows: Rows, key: Key, owner: Principal, now: DateTime): Rows {
    if key in rows then rows else rows[key := OwnerRow(owner.Identity(), now)]
  }

  /** Whether the owner check passes: the row's owner, or the local principal where there is no row. */
  predicate Owns(rows: Rows, key: Key, owner: Principal) {
    if key in rows then rows[key].owner == owner.Identity() else owner.IsLocal()
  }

  /** The keys that DELETE ... WHERE created_at < cutoff hits, comparing text. */
  function Outdated(rows: Rows, cutoff: DateTime): set<Key> {
    set k | k in rows && TextLess(Iso(rows[k].created), Iso(cutoff))
  }

  lemma OutdatedIsOlder(rows: Rows, cutoff: DateTime)
    requires ValidRows(rows) && Valid(cutoff)
    ensures Outdated(rows, cutoff) == set k | k in rows && Micros(rows[k].created) < Micros(cutoff)
  {
    forall k | k in rows ensures TextLess(Iso(rows[k].created), Iso(cutoff)) <==> Micros(rows[k].created) < Micros(cutoff) {
      TextOrderIsTimeOrder(rows[k].created, cutoff);
    }
  }

  /**
   Recording hands the task over: afterwards exactly the new owner's identity passes the check, nobody
   gains or loses any other task, and no prune sees a different age.
   */
  lemma RecordHandsOver(rows: Rows, key: Key, owner: Principal, now: DateTime, other: Key, who: Principal, cutoff: DateTime)
    ensures Owns(Recorded(rows, key, owner, now), key, who) <==> who.Identity() == owner.Identity()
    ensures other != key ==> (Owns(Recorded(rows, key, owner, now), other, who) <==> Owns(rows, other, who))
    ensures key in rows ==> Outdated(Recorded(rows, key, owner, now), cutoff) == Outdated(rows, cutoff)
  {
    var after := Recorded(rows, key, owner, now);
    assert key in rows ==> forall k :: (k in after <==> k in rows) && (k in rows ==> after[k].created == rows[k].created);
  }

  datatype Denied = NotOwned

  class SQLiteTaskOwnershipStore {
    var db: Db<OwnerRow>

    ghost predicate Valid()
      reads this
    {
      db.table.NewShape? && db.legacy.None? && ValidRows(db.table.rows)
    }

    /** Opens a database of any earlier layout. */
    constructor (existing: Db<OwnerRow>)
      requires forall k <- Migrated(existing).table.rows :: Timestamps.Valid(Migrated(existing).table.rows[k].created)
      ensures Valid() && db == Migrated(existing)
    {
      db := existing;
      new;
      EnsureSchema();
    }

    method EnsureSchema()
      modifies this
      ensures db == Migrated(old(db))
    {
      ghost var start := db;
      var legacyExists := db.legacy.Some?;
      if db.table.OldShape? {
        if legacyExists {
          db := Execute(db, CopyOldToLegacy);
          db := Execute(db, DropOld);
        } else {
          db := Execute(db, RenameOld);
        }
        legacyExists := true;
      }
      db := Execute(db, CreateTable);
      if legacyExists {
        db := Execute(db, CopyFromLegacy);
        db := Execute(db, DropLegacy);
      }
      var none: map<TaskId, OwnerRow> := map[];
      assert forall rows: map<TaskId, OwnerRow> :: none + rows == rows && rows + none == rows;
      assert Scoped(none) == map[];
    }

    /**
     From now on exactly this identity passes the owner check for the task; the row keeps the age it
     had, and every other row is as before.
     */
    method Record(provider: string, task: TaskId, owner: Principal, now: DateTime)
      requires Valid() && Timestamps.Valid(now)
      modifies this
      ensures Valid() && db.table.rows == Recorded(old(db.table.rows), (provider, task), owner, now)
      ensures forall who: Principal :: Owns(db.table.rows, (provider, task), who) <==> who.Identity() == owner.Identity()
      ensures var key := (provider, task);
        && db.table.rows.Keys == old(db.table.rows).Keys + {key}
        && db.table.rows[key].created == (if key in old(db.table.rows) then old(db.table.rows)[key].created else now)
        && forall k <- old(db.table.rows) | k != key :: db.table.rows[k] == old(db.table.rows)[k]
    {
      db := db.(table := NewShape(Recorded(db.table.rows, (provider, task), owner, now)));
    }

    /** True exactly when the row was not there, and then it is the claimant's. */
    method Claim(provider: string, task: TaskId, owner: Principal, now: DateTime) returns (inserted: bool)
      requires Valid() && Timestamps.Valid(now)
      modifies this
      ensures Valid() && db.table.rows == Claimed(old(db.table.rows), (provider, task), owner, now)
      ensures inserted <==> (provider, task) !in old(db.table.rows)
      ensures inserted ==> db.table.rows == old(db.table.rows)[(provider, task) := OwnerRow(owner.Identity(), now)]
      ensures !inserted ==> db.table.rows == old(db.table.rows)
    {
      inserted := (provider, task) !in db.table.rows;
      db := db.(table := NewShape(Claimed(db.table.rows, (provider, task), owner, now)));
    }

    method RequireOwner(provider: string, task: TaskId, owner: Principal) returns (result: Result<(), Denied>)
      requires Valid()
      ensures result.Ok? <==> Owns(db.table.rows, (provider, task), owner)
      ensures result.Ok? <==>
        if (provider, task) in db.table.rows then db.table.rows[(provider, task)].owner == (owner.id, owner.tenant)
        else owner.id == "local" && owner.stdio
    {
      var key := (provider, task);
      if key !in db.table.rows {
        return if owner.IsLocal() then Ok(()) else Err(NotOwned);
      }
      var row := db.table.rows[key];
      result := if row.owner != owner.Identity() then Err(NotOwned) else Ok(());
    }

    /** Deletes exactly the rows created before the cutoff. */
    method Prune(cutoff: DateTime) returns (deleted: nat)
      requires Valid() && Timestamps.Valid(cutoff)
      modifies this
      ensures Valid() && db.table.rows == old(db.table.rows) - Outdated(old(db.table.rows), cutoff)
      ensures forall k :: k in db.table.rows <==> k in old(db.table.rows) && Micros(old(db.table.rows)[k].created) >= Micros(cutoff)
      ensures deleted == |Outdated(old(db.table.rows), cutoff)|
    {
      OutdatedIsOlder(db.table.rows, cutoff);
      var outdated := Outdated(db.table.rows, cutoff);
      deleted := |outdated|;
      db := db.(table := NewShape(db.table.rows - outdated));
    }
  }

  // ---------------------------------------------------------------------
  // Claims of background tasks
  // ---------------------------------------------------------------------

  const TASKS := "mcp"
  const EXECUTIONS := "mcp-execution"

  /** Claims the task, then checks who owns it. */
  method ClaimMcpTaskOwner(store: SQLiteTaskOwnershipStore, task: TaskId, owner: Principal, now: DateTime)
    returns (result: Result<(), Denied>)
    requires store.Valid() && Timestamps.Valid(now)
    modifies store
    ensures store.Valid() && store.db.table.rows == Claimed(old(store.db.table.rows), (TASKS, task), owner, now)
    ensures result.Ok? <==>
      (TASKS, task) in old(store.db.table.rows) ==> old(store.db.table.rows)[(TASKS, task)].owner == owner.Identity()
  {
    var _ := store.Claim(TASKS, task, owner, now);
    result := store.RequireOwner(TASKS, task, owner);
  }

  /** Whether the handler may run: always outside a background task, and in one only for whoever inserts its claim. */
  method GuardTaskExecution(store: SQLiteTaskOwnershipStore, task: Option<TaskId>, owner: Principal, now: DateTime)
    returns (runs: bool)
    requires store.Valid() && Timestamps.Valid(now)
    modifies store
    ensures store.Valid() && (runs <==> task.Some? ==> (EXECUTIONS, task.value) !in old(store.db.table.rows))
    ensures task.None? ==> store.db == old(store.db)
    ensures task.Some? ==> store.db.table.rows == Claimed(old(store.db.table.rows), (EXECUTIONS, task.value), owner, now)
  {
    if task.None? {
      return true;
    }
    runs := store.Claim(EXECUTIONS, task.value, owner, now);
  }

  /** How the server authenticates callers, fixed while it runs. */
  datatype Mode = LocalMode | RemoteMode

  const LOCAL := Principal("local", "local", true)

  /** The principals a server of this mode derives for its callers. */
  predicate Fits(mode: Mode, owner: Principal) {
    match mode {
      case LocalMode => owner == LOCAL
      case RemoteMode => !owner.stdio
    }
  }

  /** The least age at which rows are pruned, in microseconds. */
  const DAY: int := 86_400_000_000

  lemma DayIsOneDay(d: DateTime)
    requires Valid(d) && d.year < 9999
    ensures Valid(NextDay(d)) && Micros(NextDay(d)) == Micros(d) + DAY
  {
    DistancesAreTimes(d, d);
  }

  /** A task claim whose owner check is still to come: two separate steps of the store. `claimedAt` counts earlier prunes of the row. */
  datatype Pending = Pending(task: TaskId, owner: Principal, read: DateTime, inserted: bool, claimedAt: nat)

  /** A successful claim-and-check: how often the row had been pruned by then, and whether there was a row. */
  datatype Grant = Grant(task: TaskId, owner: Principal, epoch: nat, backed: bool)

  datatype System = System(
    rows: Rows,
    mode: Mode,
    clock: int,
    pending: map<nat, Pending>,
    claimed: map<nat, TaskId>,      // workers that won an execution claim and did not start its handler yet
    deletions: seq<set<Key>>,       // history: what each prune deleted
    starts: multiset<TaskId>,       // history: handlers started
    lost: multiset<TaskId>,         // history: execution claims whose worker died before it started the handler
    grants: seq<Grant>)             // history: successful ownership claims

  function Init(mode: Mode, clock: int): System {
    System(map[], mode, clock, map[], map[], [], multiset{}, multiset{}, [])
  }

  /** A statement takes effect at time `at`; the clock was read for it at `read`, before it waited for the store. */
  datatype Step =
    | Record(provider: string, task: TaskId, owner: Principal, read: DateTime, at: int)
    | ClaimTask(caller: nat, task: TaskId, owner: Principal, read: DateTime, at: int)
    | CheckTask(caller: nat, at: int)
    | LoseCaller(caller: nat)
    | ClaimExecution(worker: nat, task: TaskId, owner: Principal, read: DateTime, at: int)
    | StartHandler(worker: nat)
    | LoseWorker(worker: nat)
    | Prune(read: DateTime, cutoff: DateTime, at: int)
    | Restart(mode: Mode)

  predicate Reads(s: System, read: DateTime, at: int) {
    Valid(read) && Micros(read) <= at && s.clock <= at
  }

  /**
   Time does not go back. Tools record their own providers' tasks; only the guards claim under the two
   reserved names. Prunes spare rows younger than a day. A restart finds its callers and workers lost.
   */
  predicate Enabled(s: System, step: Step) {
    match step {
      case Record(provider, _, owner, read, at) =>
        provider != TASKS && provider != EXECUTIONS && Fits(s.mode, owner) && Reads(s, read, at)
      case ClaimTask(caller, _, owner, read, at) => caller !in s.pending && Fits(s.mode, owner) && Reads(s, read, at)
      case CheckTask(caller, at) => caller in s.pending && s.clock <= at
      case LoseCaller(caller) => caller in s.pending
      case ClaimExecution(worker, _, owner, read, at) => worker !in s.claimed && Fits(s.mode, owner) && Reads(s, read, at)
      case StartHandler(worker) => worker in s.claimed
      case LoseWorker(worker) => worker in s.claimed
      case Prune(read, cutoff, at) => Reads(s, read, at) && Valid(cutoff) && Micros(cutoff) <= Micros(read) - DAY
      case Restart(_) => s.pending == map[] && s.claimed == map[]
    }
  }

  /** How often a key's row was deleted. */
  function Epoch(deletions: seq<set<Key>>, key: Key): nat {
    if deletions == [] then 0
    else Epoch(deletions[..|deletions| - 1], key) + if key in deletions[|deletions| - 1] then 1 else 0
  }

  function Apply(s: System, step: Step): System
    requires Enabled(s, step)
  {
    match step {
      case Record(provider, task, owner, read, at) =>
        s.(rows := Recorded(s.rows, (provider, task), owner, read), clock := at)
      case ClaimTask(caller, task, owner, read, at) =>
        var key := (TASKS, task);
        s.(rows := Claimed(s.rows, key, owner, read), clock := at,
           pending := s.pending[caller := Pending(task, owner, read, key !in s.rows, Epoch(s.deletions, key))])
      case CheckTask(caller, at) =>
        var p := s.pending[caller];
        var key := (TASKS, p.task);
        s.(pending := s.pending - {caller}, clock := at,
           grants := if Owns(s.rows, key, p.owner)
                     then s.grants + [Grant(p.task, p.owner, Epoch(s.deletions, key), key in s.rows)]
                     else s.grants)
      case LoseCaller(caller) => s.(pending := s.pending - {caller})
      case ClaimExecution(worker, task, owner, read, at) =>
        s.(rows := Claimed(s.rows, (EXECUTIONS, task), owner, read), clock := at,
           claimed := if (EXECUTIONS, task) in s.rows then s.claimed else s.claimed[worker := task])
      case StartHandler(worker) =>
        s.(claimed := s.claimed - {worker}, starts := s.starts + multiset{s.claimed[worker]})
      case LoseWorker(worker) =>
        s.(claimed := s.claimed - {worker}, lost := s.lost + multiset{s.claimed[worker]})
      case Prune(_, cutoff, at) =>
        var outdated := Outdated(s.rows, cutoff);
        s.(rows := s.rows - outdated, clock := at, deletions := s.deletions + [outdated])
      case Restart(mode) => s.(mode := mode)
    }
  }

  ghost predicate Run(s: System, steps: seq<Step>, t: System)
    decreases |steps|
  {
    if steps == [] then t == s
    else Enabled(s, steps[0]) && Run(Apply(s, steps[0]), steps[1..], t)
  }

  // ---------------------------------------------------------------------
  // Executions
  // ---------------------------------------------------------------------

  /** The workers about to start a task's handler. */
  ghost function Starting(claimed: map<nat, TaskId>, task: TaskId): set<nat> {
    set w | w in claimed && claimed[w] == task
  }

  ghost predicate ClaimsAccounted(s: System, task: TaskId) {
    s.starts[task] + |Starting(s.claimed, task)| + s.lost[task] ==
    Epoch(s.deletions, (EXECUTIONS, task)) + if (EXECUTIONS, task) in s.rows then 1 else 0
  }

  lemma EpochAfter(deletions: seq<set<Key>>, deleted: set<Key>, key: Key)
    ensures Epoch(deletions + [deleted], key) == Epoch(deletions, key) + if key in deleted then 1 else 0
  {
    assert (deletions + [deleted])[..|deletions|] == deletions;
  }

  lemma StartingAfterClaim(claimed: map<nat, TaskId>, worker: nat, task: TaskId, other: TaskId)
    requires worker !in claimed
    ensures |Starting(claimed[worker := task], other)| == |Starting(claimed, other)| + if other == task then 1 else 0
  {
    var after := Starting(claimed[worker := task], other);
    assert after == if other == task then Starting(claimed, other) + {worker} else Starting(claimed, other);
  }

  lemma StartingAfterLeave(claimed: map<nat, TaskId>, worker: nat, other: TaskId)
    requires worker in claimed
    ensures |Starting(claimed - {worker}, other)| == |Starting(claimed, other)| - if other == claimed[worker] then 1 else 0
  {
    assert worker in Starting(claimed, other) <==> other == claimed[worker];
    assert Starting(claimed - {worker}, other) == Starting(claimed, other) - {worker};
  }

  lemma StepKeepsClaims(s: System, step: Step, task: TaskId)
    requires ClaimsAccounted(s, task) && Enabled(s, step)
    ensures ClaimsAccounted(Apply(s, step), task)
  {
    hide TextLess, Iso, Starting, Epoch;
    match step {
      case ClaimExecution(worker, claim, _, _, _) =>
        StartingAfterClaim(s.claimed, worker, claim, task);
      case StartHandler(worker) => StartingAfterLeave(s.claimed, worker, task);
      case LoseWorker(worker) => StartingAfterLeave(s.claimed, worker, task);
      case Prune(_, cutoff, _) => EpochAfter(s.deletions, Outdated(s.rows, cutoff), (EXECUTIONS, task));
      case _ =>
    }
  }

  lemma {:induction false} RunKeepsClaims(s: System, steps: seq<Step>, t: System, task: TaskId)
    requires ClaimsAccounted(s, task) && Run(s, steps, t)
    ensures ClaimsAccounted(t, task)
    decreases |steps|
  {
    hide ClaimsAccounted, Enabled, Apply;
    if steps == [] {
    } else {
      StepKeepsClaims(s, steps[0], task);
      RunKeepsClaims(Apply(s, steps[0]), steps[1..], t, task);
    }
  }

  /**
   Over any redeliveries, concurrent workers, crashes and restarts: every execution claim is inserted
   once per lifetime of its row, and each is started once, lost, or about to be started. So a handler
   starts at most once until its claim row is pruned - and not at all when the claim was lost, since
   no redelivery gets past the row.
   */
  lemma ExecutionsStartOnce(mode: Mode, clock: int, steps: seq<Step>, t: System, task: TaskId)
    requires Run(Init(mode, clock), steps, t)
    ensures t.starts[task] == Epoch(t.deletions, (EXECUTIONS, task)) + (if (EXECUTIONS, task) in t.rows then 1 else 0)
                              - t.lost[task] - |Starting(t.claimed, task)|
    ensures Epoch(t.deletions, (EXECUTIONS, task)) == 0 ==> t.starts[task] <= 1
    ensures Epoch(t.deletions, (EXECUTIONS, task)) == 0 && t.lost[task] > 0 ==> t.starts[task] == 0
  {
    assert Starting(Init(mode, clock).claimed, task) == {};
    RunKeepsClaims(Init(mode, clock), steps, t, task);
  }

  // ---------------------------------------------------------------------
  // Ownership of background tasks
  // ---------------------------------------------------------------------

  /** Until a day after its clock reading, a claim that inserted its row finds it untouched. */
  ghost predicate PendingAccounted(s: System, p: Pending) {
    && Fits(s.mode, p.owner) && Valid(p.read)
    && p.claimedAt <= Epoch(s.deletions, (TASKS, p.task))
    && (p.claimedAt == Epoch(s.deletions, (TASKS, p.task)) ==> (TASKS, p.task) in s.rows)
    && (p.inserted && s.clock <= Micros(p.read) + DAY ==>
          (TASKS, p.task) in s.rows && s.rows[(TASKS, p.task)] == OwnerRow(p.owner.Identity(), p.read))
  }

  /** A grant without a row is the local principal's; the others speak for the row as long as it is there. */
  ghost predicate GrantAccounted(s: System, g: Grant) {
    && g.epoch <= Epoch(s.deletions, (TASKS, g.task))
    && (g.backed && g.epoch == Epoch(s.deletions, (TASKS, g.task)) ==>
          (TASKS, g.task) in s.rows && s.rows[(TASKS, g.task)].owner == g.owner.Identity())
    && (!g.backed ==> g.owner == LOCAL)
  }

  ghost predicate BackedGrantsAgree(grants: seq<Grant>) {
    forall i, j | 0 <= i < |grants| && 0 <= j < |grants| ::
      grants[i].backed && grants[j].backed && grants[i].task == grants[j].task && grants[i].epoch == grants[j].epoch ==>
        grants[i].owner.Identity() == grants[j].owner.Identity()
  }

  ghost predicate Inv(s: System) {
    && (forall c <- s.pending :: PendingAccounted(s, s.pending[c]))
    && (forall i | 0 <= i < |s.grants| :: GrantAccounted(s, s.grants[i]))
    && BackedGrantsAgree(s.grants)
  }

  /** A prune deletes only rows that are older than a day by then. */
  lemma PruneSparesYoung(s: System, step: Step, key: Key)
    requires step.Prune? && Enabled(s, step) && key in Outdated(s.rows, step.cutoff) && Valid(s.rows[key].created)
    ensures Apply(s, step).clock > Micros(s.rows[key].created) + DAY
  {
    hide TextLess, Iso;
    TextOrderIsTimeOrder(s.rows[key].created, step.cutoff);
  }

  lemma OutdatedAreRows(rows: Rows, cutoff: DateTime)
    ensures Outdated(rows, cutoff) <= rows.Keys
  {
  }

  lemma PruneKeepsInv(s: System, step: Step)
    requires Inv(s) && step.Prune? && Enabled(s, step) && ValidRows(s.rows)
    ensures Inv(Apply(s, step))
  {
    hide TextLess, Iso, Outdated;
    var t, outdated := Apply(s, step), Outdated(s.rows, step.cutoff);
    forall key ensures Epoch(t.deletions, key) == Epoch(s.deletions, key) + if key in outdated then 1 else 0 {
      EpochAfter(s.deletions, outdated, key);
    }
    OutdatedAreRows(s.rows, step.cutoff);
    hide Epoch;
    forall c | c in t.pending ensures PendingAccounted(t, t.pending[c]) {
      assert PendingAccounted(s, s.pending[c]);
      var key := (TASKS, s.pending[c].task);
      if key in outdated {
        PruneSparesYoung(s, step, key);
      }
    }
    forall i | 0 <= i < |t.grants| ensures GrantAccounted(t, t.grants[i]) {
      assert GrantAccounted(s, s.grants[i]);
    }
  }

  lemma CheckKeepsInv(s: System, step: Step)
    requires Inv(s) && step.CheckTask? && Enabled(s, step)
    ensures Inv(Apply(s, step))
  {
    hide Epoch;
    var t := Apply(s, step);
    forall c | c in t.pending ensures PendingAccounted(t, t.pending[c]) {
      assert PendingAccounted(s, s.pending[c]);
    }
    forall i | 0 <= i < |s.grants| ensures t.grants[i] == s.grants[i] && GrantAccounted(t, s.grants[i]) {
      assert GrantAccounted(s, s.grants[i]);
    }
    assert PendingAccounted(s, s.pending[step.caller]);
  }

  lemma OtherStepKeepsInv(s: System, step: Step)
    requires Inv(s) && !step.Prune? && !step.CheckTask? && Enabled(s, step)
    ensures Inv(Apply(s, step))
  {
    hide Epoch;
    var t := Apply(s, step);
    forall c | c in t.pending ensures PendingAccounted(t, t.pending[c]) {
      assert c in s.pending ==> PendingAccounted(s, s.pending[c]);
    }
    forall i | 0 <= i < |t.grants| ensures GrantAccounted(t, t.grants[i]) {
      assert GrantAccounted(s, s.grants[i]);
    }
  }

  lemma StepKeepsRowsValid(s: System, step: Step)
    requires ValidRows(s.rows) && Enabled(s, step)
    ensures ValidRows(Apply(s, step).rows)
  {
    hide TextLess, Iso, Outdated;
  }

  lemma {:induction false} RunKeepsInv(s: System, steps: seq<Step>, t: System)
    requires Inv(s) && ValidRows(s.rows) && Run(s, steps, t)
    ensures Inv(t) && ValidRows(t.rows)
    decreases |steps|
  {
    hide Inv, Enabled, Apply, ValidRows;
    if steps == [] {
    } else {
      StepKeepsRowsValid(s, steps[0]);
      if steps[0].Prune? {
        PruneKeepsInv(s, steps[0]);
      } else if steps[0].CheckTask? {
        CheckKeepsInv(s, steps[0]);
      } else {
        OtherStepKeepsInv(s, steps[0]);
      }
      RunKeepsInv(Apply(s, steps[0]), steps[1..], t);
    }
  }

  /**
   What an owner check decides in every reachable state: it passes for the row's owner, and without a
   row exactly for the local principal. There is a row unless it was pruned since the claim - and for a
   claim that inserted it, not before a day has passed since.
   */
  lemma CheckGrants(mode: Mode, clock: int, steps: seq<Step>, s: System, caller: nat, at: int)
    requires Run(Init(mode, clock), steps, s) && Enabled(s, CheckTask(caller, at))
    ensures var p, t := s.pending[caller], Apply(s, CheckTask(caller, at));
            var key := (TASKS, p.task);
            && (|t.grants| > |s.grants| <==>
                  if key in s.rows then s.rows[key].owner == p.owner.Identity() else s.mode == LocalMode)
            && (|t.grants| > |s.grants| && !t.grants[|s.grants|].backed <==> key !in s.rows && s.mode == LocalMode)
            && (key !in s.rows ==> p.claimedAt < Epoch(s.deletions, key))
            && Valid(p.read)
            && (p.inserted && s.clock <= Micros(p.read) + DAY ==> |t.grants| > |s.grants| && t.grants[|s.grants|].backed)
  {
    hide Epoch;
    RunKeepsInv(Init(mode, clock), steps, s);
    assert PendingAccounted(s, s.pending[caller]);
  }

  /**
   All principals that successfully claimed one task between two prunes of its row are the same
   principal and tenant - unless one of them is the local principal, granted without a row, and the
   row that stands is somebody else's. That is the only case.
   */
  lemma TasksHaveOneOwner(mode: Mode, clock: int, steps: seq<Step>, t: System, i: nat, j: nat)
    requires Run(Init(mode, clock), steps, t) && i < |t.grants| && j < |t.grants|
    requires t.grants[i].task == t.grants[j].task && t.grants[i].epoch == t.grants[j].epoch
    ensures t.grants[i].owner.Identity() != t.grants[j].owner.Identity() <==>
            || (!t.grants[i].backed && t.grants[j].backed && t.grants[j].owner.Identity() != LOCAL.Identity())
            || (!t.grants[j].backed && t.grants[i].backed && t.grants[i].owner.Identity() != LOCAL.Identity())
  {
    hide Epoch;
    RunKeepsInv(Init(mode, clock), steps, t);
    assert GrantAccounted(t, t.grants[i]) && GrantAccounted(t, t.grants[j]);
  }

  /** The server is never restarted in another mode. */
  ghost predicate StaysIn(mode: Mode, steps: seq<Step>) {
    forall step <- steps | step.Restart? :: step.mode == mode
  }

  ghost predicate GrantedIn(s: System, mode: Mode) {
    && s.mode == mode
    && (forall c <- s.pending :: Fits(mode, s.pending[c].owner))
    && (forall i | 0 <= i < |s.grants| :: Fits(mode, s.grants[i].owner))
  }

  lemma StepStaysIn(s: System, mode: Mode, step: Step)
    requires GrantedIn(s, mode) && Enabled(s, step) && (step.Restart? ==> step.mode == mode)
    ensures GrantedIn(Apply(s, step), mode)
  {
    hide Outdated, Epoch, Owns;
  }

  lemma {:induction false} RunStaysIn(s: System, mode: Mode, steps: seq<Step>, t: System)
    requires Run(s, steps, t) && StaysIn(mode, steps) && GrantedIn(s, mode)
    ensures GrantedIn(t, mode)
    decreases |steps|
  {
    hide Enabled, Apply, GrantedIn;
    if steps == [] {
    } else {
      assert steps[0] in steps;
      StepStaysIn(s, mode, steps[0]);
      RunStaysIn(Apply(s, steps[0]), mode, steps[1..], t);
    }
  }

  /** As long as the server keeps its mode, all principals that claim a task between two prunes of its row are the same. */
  lemma OneModeOneOwner(mode: Mode, clock: int, steps: seq<Step>, t: System, i: nat, j: nat)
    requires Run(Init(mode, clock), steps, t) && StaysIn(mode, steps) && i < |t.grants| && j < |t.grants|
    requires t.grants[i].task == t.grants[j].task && t.grants[i].epoch == t.grants[j].epoch
    ensures t.grants[i].owner.Identity() == t.grants[j].owner.Identity()
    ensures mode == RemoteMode ==> t.grants[i].backed
  {
    hide Epoch;
    RunStaysIn(Init(mode, clock), mode, steps, t);
    RunKeepsInv(Init(mode, clock), steps, t);
    assert GrantAccounted(t, t.grants[i]) && GrantAccounted(t, t.grants[j]);
    TasksHaveOneOwner(mode, clock, steps, t, i, j);
  }

  lemma {:induction false} OneMoreStep(s: System, steps: seq<Step>, t: System, step: Step)
    requires Run(s, steps, t) && Enabled(t, step)
    ensures Run(s, steps + [step], Apply(t, step))
    decreases |steps|
  {
    hide Enabled, Apply;
    if steps == [] {
      assert Run(Apply(t, step), [], Apply(t, step));
      assert [step][1..] == [];
    } else {
      OneMoreStep(Apply(s, steps[0]), steps[1..], t, step);
      assert (steps + [step])[1..] == steps[1..] + [step];
    }
  }

  lemma NoStepsNoChange(s: System)
    ensures Run(s, [], s)
  {
  }

  /**
   The exception happens across a change of mode: a local claim of a row that is already a day old
   changes nothing, the row is pruned before the check, and after a restart in remote mode another
   principal claims the task.
   */
  lemma LocalGapIsReal(task: TaskId, first: DateTime, later: DateTime, cutoff: DateTime, remote: Principal)
    returns (steps: seq<Step>, t: System)
    requires Valid(first) && Valid(later) && Valid(cutoff) && Micros(first) < Micros(cutoff) == Micros(later) - DAY
    requires Fits(RemoteMode, remote) && remote.Identity() != LOCAL.Identity()
    ensures Run(Init(LocalMode, Micros(first)), steps, t)
    ensures t.grants == [Grant(task, LOCAL, 0, true), Grant(task, LOCAL, 1, false), Grant(task, remote, 1, true)]
  {
    hide TextLess, Iso, Micros, Run;
    var key, start, end := (TASKS, task), Micros(first), Micros(later);
    TextOrderIsTimeOrder(first, cutoff);
    var s0 := Init(LocalMode, start);
    var a := ClaimTask(0, task, LOCAL, first, start);
    var s1 := Apply(s0, a);
    var b := CheckTask(0, start);
    var s2 := Apply(s1, b);
    var c := ClaimTask(1, task, LOCAL, later, end);
    var s3 := Apply(s2, c);
    var d := Prune(later, cutoff, end);
    var s4 := Apply(s3, d);
    assert Outdated(s3.rows, cutoff) == {key};
    EpochAfter([], {key}, key);
    assert s4.deletions == [] + [{key}] && key !in s4.rows;
    var e := CheckTask(1, end);
    var s5 := Apply(s4, e);
    var f := Restart(RemoteMode);
    var s6 := Apply(s5, f);
    var g := ClaimTask(2, task, remote, later, end);
    var s7 := Apply(s6, g);
    var h := CheckTask(2, end);
    t := Apply(s7, h);
    NoStepsNoChange(s0);
    OneMoreStep(s0, [], s0, a);
    assert [] + [a] == [a];
    OneMoreStep(s0, [a], s1, b);
    OneMoreStep(s0, [a] + [b], s2, c);
    OneMoreStep(s0, [a] + [b] + [c], s3, d);
    OneMoreStep(s0, [a] + [b] + [c] + [d], s4, e);
    OneMoreStep(s0, [a] + [b] + [c] + [d] + [e], s5, f);
    OneMoreStep(s0, [a] + [b] + [c] + [d] + [e] + [f], s6, g);
    OneMoreStep(s0, [a] + [b] + [c] + [d] + [e] + [f] + [g], s7, h);
    steps := [a] + [b] + [c] + [d] + [e] + [f] + [g] + [h];
  }
}
