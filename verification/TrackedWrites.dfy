/**
 Tracked writes of `pyscoped`: model save, queryset update, bulk create, bulk update, delete,
 baseline and restore, as functions from one committed database to the next.

 Each operation runs inside one transaction: it yields the committed database or an error, and an
 error stands for a rollback.  Native SQL effects (expressions, defaults, triggers) are arbitrary
 function parameters; foreign keys are the database's own constraint, checked at commit.
 */
module TrackedWrites {
  import opened Wrappers
  import opened Contexts
  import opened EventChain
  import opened Text

  /** None is SQL NULL. */
  type Value = Option<string>

  type Row = map<string, Value>

  /** `relations` maps a foreign-key field to the label of the model it references. */
  datatype Config = Config(mode: Mode, scopeField: string, fields: set<string>, relations: map<string, string>)

  /** The registered models, the digest, and the two directions of the snapshot encoding. */
  datatype App = App(schema: map<string, Config>, hash: Digest, plain: Value -> Json, toPython: Json -> Value)

  datatype Db = Db(rows: map<Key, Row>, resources: map<Key, Resource>, events: map<Key, seq<Event>>)

  datatype Error =
    | MissingContext | InvalidIdentity | ScopeViolation | UnsupportedOperation
    | HistoryConflict | IntegrityError | ValueError | NotRegistered

  type Outcome = Result<Db, Error>

  // ---------------------------------------------------------------------------------------------
  // Reading rows
  // ---------------------------------------------------------------------------------------------

  function Field(row: Row, name: string): Value {
    if name in row then row[name] else None
  }

  function Registered(app: App, key: Key): bool {
    key.model in app.schema
  }

  function ConfigOf(app: App, key: Key): Config
    requires Registered(app, key)
  {
    app.schema[key.model]
  }

  predicate Enforced(app: App, model: string) {
    model in app.schema && app.schema[model].mode == Enforce
  }

  /** `identity`: an explicit, nonblank string of at most 255 characters. */
  function Identity(value: Value): Result<string, Error> {
    if value.None? || |value.value| > 255 || (forall c | c in value.value :: IsSpace(c)) then Err(InvalidIdentity)
    else Ok(value.value)
  }

  function LoadRow(db: Db, key: Key): Option<Row> {
    if key in db.rows then Some(db.rows[key]) else None
  }

  function SnapshotOf(app: App, key: Key, row: Option<Row>): Option<Snapshot>
    requires Registered(app, key)
  {
    if row.None? then None
    else Some(map name | name in ConfigOf(app, key).fields :: app.plain(Field(row.value, name)))
  }

  function LiveSnapshot(app: App, db: Db, key: Key): Option<Snapshot>
    requires Registered(app, key)
  {
    SnapshotOf(app, key, LoadRow(db, key))
  }

  /** `check_scope`: outside enforce mode only the identity itself is checked. */
  function CheckScope(config: Config, row: Row, ctx: Context): Result<string, Error> {
    var actual := Identity(Field(row, config.scopeField));
    if actual.Err? then actual
    else if config.mode == Enforce && actual.value != ctx.scope then Err(ScopeViolation)
    else actual
  }

  /** One foreign key of `check_relations`: an enforced target that exists must be in scope. */
  predicate RelationOk(app: App, config: Config, rows: map<Key, Row>, row: Row, name: string, ctx: Context)
    requires name in config.relations
  {
    var model := config.relations[name];
    var value := Field(row, name);
    Enforced(app, model) && value.Some? && Key(model, value.value) in rows ==>
      CheckScope(app.schema[model], rows[Key(model, value.value)], ctx).Ok?
  }

  predicate RelationsOk(app: App, config: Config, rows: map<Key, Row>, row: Row, ctx: Context) {
    config.mode == Enforce ==> forall name | name in config.relations :: RelationOk(app, config, rows, row, name, ctx)
  }

  /** The checks every write repeats on the row it is about to write or has written. */
  function CheckRow(app: App, db: Db, key: Key, row: Row, ctx: Context): Option<Error>
    requires Registered(app, key)
  {
    var scope := CheckScope(ConfigOf(app, key), row, ctx);
    if scope.Err? then Some(scope.error)
    else if !RelationsOk(app, ConfigOf(app, key), db.rows, row, ctx) then Some(ScopeViolation)
    else None
  }

  // ---------------------------------------------------------------------------------------------
  // Appending events
  // ---------------------------------------------------------------------------------------------

  function EventsOf(db: Db, key: Key): seq<Event> {
    if key in db.events then db.events[key] else []
  }

  /** `append_event`: get or create the resource, refuse a different scope, link and store. */
  function AppendEvent(app: App, db: Db, key: Key, row: Row, action: string,
                       before: Option<Snapshot>, after: Option<Snapshot>, ctx: Context, now: int): Outcome
    requires Registered(app, key)
  {
    var scope := Identity(Field(row, ConfigOf(app, key).scopeField));
    if scope.Err? then Err(scope.error)
    else
      var resource := if key in db.resources then db.resources[key] else Resource(scope.value, 0, "");
      if resource.scope != scope.value then Err(ScopeViolation)
      else
        var body := Body(resource.revision + 1, scope.value, ctx.actor, action, before, after, now,
                         ctx.reason, ctx.requestId, resource.digest);
        var digest := app.hash(key, body);
        Ok(Db(db.rows,
              db.resources[key := Resource(resource.scope, body.revision, digest)],
              db.events[key := EventsOf(db, key) + [Event(body, digest)]]))
  }

  /** `_record_bulk`: reload, recheck and record every written row, stopping at the first failure. */
  function RecordAll(app: App, db: Db, keys: seq<Key>, before: map<Key, Option<Snapshot>>, action: string,
                     ctx: Context, clock: Key -> int): Outcome
    requires forall k :: k in keys ==> Registered(app, k)
    decreases |keys|
  {
    if keys == [] then Ok(db)
    else
      var key := keys[0];
      if key !in db.rows then Err(UnsupportedOperation)
      else
        var failed := CheckRow(app, db, key, db.rows[key], ctx);
        if failed.Some? then Err(failed.value)
        else
          var prior := if key in before then before[key] else None;
          var step := AppendEvent(app, db, key, db.rows[key], action, prior, LiveSnapshot(app, db, key), ctx, clock(key));
          if step.Err? then step else RecordAll(app, step.value, keys[1..], before, action, ctx, clock)
  }

  /** `before_delete` for each instance the collector gathered, while every row is still there. */
  function RecordDeletes(app: App, db: Db, keys: seq<Key>, ctx: Context, clock: Key -> int): Outcome
    requires forall k :: k in keys ==> Registered(app, k)
    decreases |keys|
  {
    if keys == [] then Ok(db)
    else
      var key := keys[0];
      if key !in db.rows then RecordDeletes(app, db, keys[1..], ctx, clock)
      else
        var scope := CheckScope(ConfigOf(app, key), db.rows[key], ctx);
        if scope.Err? then Err(scope.error)
        else
          var step := AppendEvent(app, db, key, db.rows[key], "delete", LiveSnapshot(app, db, key), None, ctx, clock(key));
          if step.Err? then step else RecordDeletes(app, step.value, keys[1..], ctx, clock)
  }

  // ---------------------------------------------------------------------------------------------
  // Operations
  // ---------------------------------------------------------------------------------------------

  /** The database's own foreign-key constraint. */
  predicate ForeignKeysHold(app: App, rows: map<Key, Row>) {
    forall k, name | k in rows && Registered(app, k) && name in ConfigOf(app, k).relations ::
      var value := Field(rows[k], name);
      value.Some? ==> Key(ConfigOf(app, k).relations[name], value.value) in rows
  }

  function Commit(app: App, outcome: Outcome): Outcome {
    if outcome.Ok? && !ForeignKeysHold(app, outcome.value.rows) then Err(IntegrityError) else outcome
  }

  function ApplyFields(row: Row, names: set<string>, from: Row): Row {
    row + map name | name in names :: Field(from, name)
  }

  /** Model save through the `save_base` wrapper.  `inst` is the in-memory instance, `persist` what
      the native save leaves in the table for the row that was there. */
  function Save(app: App, db: Db, key: Key, inst: Row, persist: Option<Row> -> Row, override: Option<string>,
                ctx: Context, now: int): Outcome
    requires Registered(app, key)
  {
    var config := ConfigOf(app, key);
    var old' := LoadRow(db, key);
    if old'.Some? && CheckScope(config, old'.value, ctx).Err? then
      Err(CheckScope(config, old'.value, ctx).error)
    else
      var failed := CheckRow(app, db, key, inst, ctx);
      if failed.Some? then Err(failed.value)
      else if old'.Some? && Field(old'.value, config.scopeField) != Field(inst, config.scopeField) then
        Err(UnsupportedOperation)
      else
        var written := db.(rows := db.rows[key := persist(old')]);
        var failed' := CheckRow(app, written, key, written.rows[key], ctx);
        if failed'.Some? then Err(failed'.value)
        else
          var action := if override.Some? then override.value else if old'.None? then "create" else "update";
          AppendEvent(app, written, key, written.rows[key], action, SnapshotOf(app, key, old'),
                      LiveSnapshot(app, written, key), ctx, now)
  }

  /** The scope filter of `get_queryset`; outside enforce mode every row is visible. */
  predicate Visible(app: App, db: Db, key: Key, ctx: Context)
    requires Registered(app, key)
  {
    && key in db.rows
    && (ConfigOf(app, key).mode == Enforce ==> Field(db.rows[key], ConfigOf(app, key).scopeField) == Some(ctx.scope))
  }

  /** The visible rows among those the queryset's own filters match, in their order. */
  function Select(app: App, db: Db, matching: seq<Key>, ctx: Context): (keys: seq<Key>)
    requires forall k :: k in matching ==> Registered(app, k)
    ensures forall k :: k in keys <==> k in matching && Visible(app, db, k, ctx)
    decreases |matching|
  {
    if matching == [] then []
    else (if Visible(app, db, matching[0], ctx) then [matching[0]] else []) + Select(app, db, matching[1..], ctx)
  }

  predicate Distinct(keys: seq<Key>) {
    forall i, j | 0 <= i < j < |keys| :: keys[i] != keys[j]
  }

  /** A dictionary keyed by primary key keeps one entry per row, however often a join repeated it. */
  function Dedup(keys: seq<Key>): (r: seq<Key>)
    ensures forall k :: k in r <==> k in keys
    ensures Distinct(r)
    decreases |keys|
  {
    if keys == [] then []
    else
      var last := keys[|keys| - 1];
      var r := Dedup(keys[..|keys| - 1]);
      assert keys == keys[..|keys| - 1] + [last];
      if last in r then r else r + [last]
  }

  function Snapshots(app: App, db: Db, keys: seq<Key>): map<Key, Option<Snapshot>>
    requires forall k :: k in keys ==> Registered(app, k)
  {
    map k | k in keys :: LiveSnapshot(app, db, k)
  }

  function WriteFields(db: Db, keys: seq<Key>, names: set<string>, assign: (Key, Row) -> Row): Db {
    db.(rows := db.rows + map k | k in keys && k in db.rows :: ApplyFields(db.rows[k], names, assign(k, db.rows[k])))
  }

  /** `ScopedQuerySet.update`; `assign` evaluates the assigned SQL expressions on each row. */
  function Update(app: App, db: Db, model: string, matching: seq<Key>, names: set<string>,
                  assign: (Key, Row) -> Row, ctx: Context, clock: Key -> int): Outcome
    requires model in app.schema && forall k :: k in matching ==> k.model == model
  {
    if app.schema[model].scopeField in names then Err(UnsupportedOperation)
    else if names == {} then Ok(db)
    else
      var keys := Dedup(Select(app, db, matching, ctx));
      RecordAll(app, WriteFields(db, keys, names, assign), keys, Snapshots(app, db, keys), "update", ctx, clock)
  }

  /** The checks `bulk_create` makes before inserting anything. */
  function CheckAll(app: App, db: Db, objs: seq<(Key, Row)>, ctx: Context): Option<Error>
    requires forall o :: o in objs ==> Registered(app, o.0)
    decreases |objs|
  {
    if objs == [] then None
    else
      var failed := CheckRow(app, db, objs[0].0, objs[0].1, ctx);
      if failed.Some? then failed else CheckAll(app, db, objs[1..], ctx)
  }

  function Keys(objs: seq<(Key, Row)>): (keys: seq<Key>)
    ensures |keys| == |objs| && forall i | 0 <= i < |objs| :: keys[i] == objs[i].0
  {
    seq(|objs|, i requires 0 <= i < |objs| => objs[i].0)
  }

  function Insert(db: Db, objs: seq<(Key, Row)>, store: Row -> Row): Db
    decreases |objs|
  {
    if objs == [] then db
    else Insert(db.(rows := db.rows[objs[0].0 := store(objs[0].1)]), objs[1..], store)
  }

  /** Ordinary `bulk_create`; `store` is what the table keeps of an inserted row. */
  function BulkCreate(app: App, db: Db, objs: seq<(Key, Row)>, store: Row -> Row, ctx: Context, clock: Key -> int): Outcome
    requires forall o :: o in objs ==> Registered(app, o.0)
  {
    var failed := CheckAll(app, db, objs, ctx);
    var keys := Keys(objs);
    if failed.Some? then Err(failed.value)
    else if !Distinct(keys) || exists k :: k in keys && k in db.rows then Err(IntegrityError)
    else RecordAll(app, Insert(db, objs, store), keys, map[], "create", ctx, clock)
  }

  /** The persisted rows behind a bulk update must all be in scope, filtered or not. */
  function CheckPersisted(app: App, db: Db, keys: seq<Key>, ctx: Context): Option<Error>
    requires forall k :: k in keys ==> Registered(app, k)
    decreases |keys|
  {
    if keys == [] then None
    else if keys[0] in db.rows && CheckScope(ConfigOf(app, keys[0]), db.rows[keys[0]], ctx).Err? then
      Some(CheckScope(ConfigOf(app, keys[0]), db.rows[keys[0]], ctx).error)
    else CheckPersisted(app, db, keys[1..], ctx)
  }

  /** Each row is assigned from the object given for it. */
  function Given(objs: map<Key, Row>): (Key, Row) -> Row {
    (k, row) => if k in objs then objs[k] else row
  }

  /** `bulk_update`; `matching` are the given rows that the queryset's own filters also match. */
  function BulkUpdate(app: App, db: Db, model: string, objs: map<Key, Row>, keys: seq<Key>, matching: seq<Key>,
                      names: set<string>, ctx: Context, clock: Key -> int): Outcome
    requires model in app.schema
    requires forall k :: k in keys ==> k.model == model && k in objs
    requires forall k :: k in matching ==> k in keys
  {
    if app.schema[model].scopeField in names then Err(UnsupportedOperation)
    else if names == {} then Err(ValueError)
    else if !Distinct(keys) then Err(UnsupportedOperation)
    else
      var failed := CheckPersisted(app, db, keys, ctx);
      if failed.Some? then Err(failed.value)
      else
        var selected := Dedup(Select(app, db, matching, ctx));
        RecordAll(app, WriteFields(db, selected, names, Given(objs)), selected, Snapshots(app, db, selected), "update", ctx, clock)
  }

  /** Model, queryset and cascading delete: `doomed` is everything the collector gathered. */
  function Delete(app: App, db: Db, doomed: seq<Key>, ctx: Context, clock: Key -> int): Outcome
    requires forall k :: k in doomed ==> Registered(app, k)
  {
    var recorded := RecordDeletes(app, db, Dedup(doomed), ctx, clock);
    if recorded.Err? then recorded
    else Ok(recorded.value.(rows := map k | k in recorded.value.rows && k !in doomed :: recorded.value.rows[k]))
  }

  /** One row of `backfill`, when it is not a dry run. */
  function Baseline(app: App, db: Db, key: Key, ctx: Context, now: int): Outcome
    requires Registered(app, key)
  {
    if key !in db.rows then Ok(db)
    else
      var scope := CheckScope(ConfigOf(app, key), db.rows[key], ctx);
      if scope.Err? then Err(scope.error)
      else if key in db.resources && db.resources[key].revision > 0 then Ok(db)
      else AppendEvent(app, db, key, db.rows[key], "baseline", None, LiveSnapshot(app, db, key), ctx, now)
  }

  /** The selected fields `restore` may set: neither the scope nor a relation. */
  function Scalars(config: Config): set<string> {
    set name | name in config.fields && name != config.scopeField && name !in config.relations
  }

  function RestoredRow(app: App, config: Config, row: Row, target: Snapshot): Row
    requires target.Keys == config.fields
  {
    row + map name | name in Scalars(config) :: app.toPython(target[name])
  }

  function VerifiedHistory(app: App, db: Db, key: Key): bool {
    key in db.resources && Accepts(app.hash, key, db.resources[key], EventsOf(db, key))
  }

  /** The refusals of `restore`, in order, and the target snapshot otherwise. */
  function RestoreTarget(app: App, db: Db, key: Key, revision: int, expected: int, ctx: Context): Result<Snapshot, Error>
    requires Registered(app, key)
  {
    var config := ConfigOf(app, key);
    if key !in db.rows then Err(HistoryConflict)
    else if CheckScope(config, db.rows[key], ctx).Err? then Err(CheckScope(config, db.rows[key], ctx).error)
    else if key in db.resources && db.resources[key].scope != ctx.scope then Err(ScopeViolation)
    else if key !in db.resources || db.resources[key].revision != expected then Err(HistoryConflict)
    else if !VerifiedHistory(app, db, key) then Err(HistoryConflict)
    else
      var events := EventsOf(db, key);
      if events == [] || LiveSnapshot(app, db, key) != events[|events| - 1].body.after then Err(HistoryConflict)
      else if !(1 <= revision <= |events|) || events[revision - 1].body.after.None? then Err(HistoryConflict)
      else
        var target := events[revision - 1].body.after.value;
        var live := LiveSnapshot(app, db, key).value;
        if target.Keys != config.fields then Err(HistoryConflict)
        else if exists name :: name in config.fields && name !in Scalars(config) && target[name] != live[name] then
          Err(UnsupportedOperation)
        else if Scalars(config) == {} then Err(UnsupportedOperation)
        else Ok(target)
  }

  /** `restore`: set the scalar fields and save them as a partial update under the action "restore". */
  function Restore(app: App, db: Db, key: Key, revision: int, expected: int, ctx: Context, now: int): Outcome
    requires Registered(app, key)
  {
    var target := RestoreTarget(app, db, key, revision, expected, ctx);
    if target.Err? then Err(target.error)
    else
      var inst := RestoredRow(app, ConfigOf(app, key), db.rows[key], target.value);
      Save(app, db, key, inst, old' => inst, Some("restore"), ctx, now)
  }

  // ---------------------------------------------------------------------------------------------
  // Runs
  // ---------------------------------------------------------------------------------------------

  datatype Op =
    | SaveOp(key: Key, inst: Row, persist: Option<Row> -> Row)
    | UpdateOp(model: string, matching: seq<Key>, names: set<string>, assign: (Key, Row) -> Row)
    | BulkCreateOp(objs: seq<(Key, Row)>, store: Row -> Row)
    | BulkUpdateOp(model: string, rows: map<Key, Row>, keys: seq<Key>, matching: seq<Key>, names: set<string>)
    | DeleteOp(doomed: seq<Key>)
    | BaselineOp(key: Key)
    | RestoreOp(key: Key, revision: int, expected: int)

  /** The model is registered and the arguments name rows of that model. */
  predicate Supported(app: App, op: Op) {
    match op
    case SaveOp(key, _, _) => Registered(app, key)
    case UpdateOp(model, matching, _, _) => model in app.schema && forall k :: k in matching ==> k.model == model
    case BulkCreateOp(objs, _) => forall o :: o in objs ==> Registered(app, o.0)
    case BulkUpdateOp(model, rows, keys, matching, _) =>
      && model in app.schema
      && (forall k :: k in keys ==> k.model == model && k in rows)
      && (forall k :: k in matching ==> k in keys)
    case DeleteOp(doomed) => forall k :: k in doomed ==> Registered(app, k)
    case BaselineOp(key) => Registered(app, key)
    case RestoreOp(key, _, _) => Registered(app, key)
  }

  /** One transaction: nothing runs without a context, and only a whole result commits. */
  function Transact(app: App, db: Db, op: Op, context: Option<Context>, clock: Key -> int): Outcome {
    if !Supported(app, op) then Err(NotRegistered)
    else if context.None? then Err(MissingContext)
    else
      var ctx := context.value;
      Commit(app,
             match op
             case SaveOp(key, inst, persist) => Save(app, db, key, inst, persist, None, ctx, clock(key))
             case UpdateOp(model, matching, names, assign) => Update(app, db, model, matching, names, assign, ctx, clock)
             case BulkCreateOp(objs, store) => BulkCreate(app, db, objs, store, ctx, clock)
             case BulkUpdateOp(model, rows, keys, matching, names) =>
               BulkUpdate(app, db, model, rows, keys, matching, names, ctx, clock)
             case DeleteOp(doomed) => Delete(app, db, doomed, ctx, clock)
             case BaselineOp(key) => Baseline(app, db, key, ctx, clock(key))
             case RestoreOp(key, revision, expected) => Restore(app, db, key, revision, expected, ctx, clock(key)))
  }

  datatype Request = Request(op: Op, context: Option<Context>, clock: Key -> int)

  /** Serial requests; one that fails leaves the database as it was. */
  function Run(app: App, db: Db, requests: seq<Request>): Db
    decreases |requests|
  {
    if requests == [] then db
    else
      var r := requests[0];
      var outcome := Transact(app, db, r.op, r.context, r.clock);
      Run(app, if outcome.Ok? then outcome.value else db, requests[1..])
  }
}
