/**
 What each tracked write answers, said on the rows and events before and after: which rows it leaves,
 the event it records for each, and exactly when it is accepted.
 */
module TrackedAnswers {
  import opened Wrappers
  import opened Contexts
  import opened EventChain
  import opened Text
  import opened TrackedWrites
  import opened TrackedHistory

  // ---------------------------------------------------------------------------------------------
  // Rows and events, without the functions that compute them
  // ---------------------------------------------------------------------------------------------

  /** One to 255 characters, not all white space. */
  ghost predicate Proper(value: Value) {
    value.Some? && 0 < |value.value| <= 255 && exists c :: c in value.value && !IsSpace(c)
  }

  /** The field of the row is this text. */
  ghost predicate Is(row: Row, name: string, text: string) {
    name in row && row[name] == Some(text)
  }

  /** The snapshot encodes exactly the selected fields of the row; an absent row has none. */
  ghost predicate Pictures(app: App, key: Key, row: Option<Row>, snapshot: Option<Snapshot>)
    requires Registered(app, key)
  {
    if row.None? then snapshot.None?
    else
      && snapshot.Some? && snapshot.value.Keys == app.schema[key.model].fields
      && forall name | name in snapshot.value ::
           snapshot.value[name] == app.plain(if name in row.value then row.value[name] else None)
  }

  ghost function Past(db: Db, key: Key): seq<Event> {
    if key in db.events then db.events[key] else []
  }

  /** The history of `key` got one event more, which says this and is attributed to the context. */
  ghost predicate NewEvent(app: App, db: Db, d: Db, key: Key, action: string, before: Option<Row>, after: Option<Row>,
                           ctx: Context, now: int)
    requires Registered(app, key)
  {
    && key in d.events && |d.events[key]| == |Past(db, key)| + 1 && d.events[key][..|Past(db, key)|] == Past(db, key)
    && var e := d.events[key][|Past(db, key)|];
       && e.body.action == action && Pictures(app, key, before, e.body.before) && Pictures(app, key, after, e.body.after)
       && e.body.actor == ctx.actor && e.body.reason == ctx.reason && e.body.requestId == ctx.requestId
       && e.body.occurredAt == now && Advances(app, db, d, key, e)
  }

  /** The event is linked to the head before it and is the head after it. */
  ghost predicate Advances(app: App, db: Db, d: Db, key: Key, e: Event) {
    && e.digest == app.hash(key, e.body)
    && key in d.resources && d.resources[key] == Resource(e.body.scope, e.body.revision, e.digest)
    && if key in db.resources then
         && e.body.scope == db.resources[key].scope && e.body.revision == db.resources[key].revision + 1
         && e.body.previousDigest == db.resources[key].digest
       else e.body.revision == 1 && e.body.previousDigest == ""
  }

  ghost predicate HistoryKept(db: Db, d: Db, key: Key) {
    SameAt(db.resources, d.resources, key) && SameAt(db.events, d.events, key)
  }

  /** A foreign key into an enforced model leads to a row of the scope, or to none. */
  ghost predicate ReferenceAllowed(app: App, rows: map<Key, Row>, model: string, value: Value, ctx: Context) {
    model in app.schema && app.schema[model].mode == Enforce && value.Some? && Key(model, value.value) in rows ==>
      Is(rows[Key(model, value.value)], app.schema[model].scopeField, ctx.scope)
  }

  /** What the checks ask of a row: a proper scope, which in enforce mode is the context's, and then no
      reference to an enforced row of another scope. */
  ghost predicate RowAllowed(app: App, rows: map<Key, Row>, key: Key, row: Row, ctx: Context)
    requires Registered(app, key)
  {
    var config := app.schema[key.model];
    && config.scopeField in row && Proper(row[config.scopeField])
    && (config.mode == Enforce ==>
          && Is(row, config.scopeField, ctx.scope)
          && forall name | name in config.relations ::
               ReferenceAllowed(app, rows, config.relations[name], if name in row then row[name] else None, ctx))
  }

  /** The history the key may already have belongs to the scope of the row. */
  ghost predicate HistoryFits(app: App, db: Db, key: Key, row: Row)
    requires Registered(app, key)
  {
    key in db.resources ==> Is(row, app.schema[key.model].scopeField, db.resources[key].scope)
  }

  /** In enforce mode, the rows of the context's scope. */
  ghost predicate Mine(app: App, rows: map<Key, Row>, key: Key, ctx: Context)
    requires Registered(app, key)
  {
    key in rows && (app.schema[key.model].mode == Enforce ==> Is(rows[key], app.schema[key.model].scopeField, ctx.scope))
  }

  // ---------------------------------------------------------------------------------------------
  // Checks
  // ---------------------------------------------------------------------------------------------

  lemma IdentityExactly(value: Value)
    ensures value == None ==> !Proper(value)
    ensures Identity(value) == if Proper(value) then Ok(value.value) else Err(InvalidIdentity)
  {
    if value.Some? && value.value != "" && !Proper(value) && |value.value| <= 255 {
      assert forall c | c in value.value :: IsSpace(c);
    }
  }

  lemma CheckScopeExactly(config: Config, row: Row, ctx: Context)
    ensures var value := if config.scopeField in row then row[config.scopeField] else None;
      CheckScope(config, row, ctx) ==
        if !Proper(value) then Err(InvalidIdentity)
        else if config.mode == Enforce && !Is(row, config.scopeField, ctx.scope) then Err(ScopeViolation)
        else Ok(value.value)
  {
    IdentityExactly(if config.scopeField in row then row[config.scopeField] else None);
  }

  /** The checks pass exactly for allowed rows; what they refuse otherwise is an improper scope, or else
      another one. */
  lemma CheckRowExactly(app: App, db: Db, key: Key, row: Row, ctx: Context)
    requires Registered(app, key)
    ensures CheckRow(app, db, key, row, ctx).None? <==> RowAllowed(app, db.rows, key, row, ctx)
    ensures var value := if ConfigOf(app, key).scopeField in row then row[ConfigOf(app, key).scopeField] else None;
      CheckRow(app, db, key, row, ctx) in {None, Some(if Proper(value) then ScopeViolation else InvalidIdentity)}
  {
    var config := ConfigOf(app, key);
    CheckScopeExactly(config, row, ctx);
    if CheckScope(config, row, ctx).Ok? && config.mode == Enforce {
      forall name | name in config.relations
        ensures RelationOk(app, config, db.rows, row, name, ctx)
          <==> ReferenceAllowed(app, db.rows, config.relations[name], if name in row then row[name] else None, ctx)
      {
        RelationExactly(app, config, db.rows, row, name, ctx);
      }
    }
  }

  lemma RelationExactly(app: App, config: Config, rows: map<Key, Row>, row: Row, name: string, ctx: Context)
    requires name in config.relations && Proper(Some(ctx.scope))
    ensures RelationOk(app, config, rows, row, name, ctx)
      <==> ReferenceAllowed(app, rows, config.relations[name], if name in row then row[name] else None, ctx)
  {
    var model := config.relations[name];
    var value := if name in row then row[name] else None;
    if model in app.schema && value.Some? && Key(model, value.value) in rows {
      CheckScopeExactly(app.schema[model], rows[Key(model, value.value)], ctx);
    }
  }

  // ---------------------------------------------------------------------------------------------
  // Recording
  // ---------------------------------------------------------------------------------------------

  lemma SnapshotPictures(app: App, key: Key, row: Option<Row>)
    requires Registered(app, key)
    ensures Pictures(app, key, row, SnapshotOf(app, key, row))
  {
  }

  lemma AppendExactly(app: App, db: Db, key: Key, row: Row, action: string, before: Option<Row>, after: Option<Row>,
                      b: Option<Snapshot>, a: Option<Snapshot>, ctx: Context, now: int)
    requires Registered(app, key) && Pictures(app, key, before, b) && Pictures(app, key, after, a)
    ensures var r := AppendEvent(app, db, key, row, action, b, a, ctx, now);
      && (r.Ok? <==> app.schema[key.model].scopeField in row && Proper(row[app.schema[key.model].scopeField])
                     && HistoryFits(app, db, key, row))
      && (r.Ok? ==>
            && r.value.rows == db.rows && NewEvent(app, db, r.value, key, action, before, after, ctx, now)
            && Is(row, app.schema[key.model].scopeField, r.value.resources[key].scope)
            && forall k :: k != key ==> HistoryKept(db, r.value, k))
  {
    hide Pictures, Proper, Identity, SameAt;
    var scopeField := app.schema[key.model].scopeField;
    IdentityExactly(if scopeField in row then row[scopeField] else None);
    var r := AppendEvent(app, db, key, row, action, b, a, ctx, now);
    if r.Ok? {
      AppendTouchesOne(app, db, key, row, action, b, a, ctx, now);
      var e := r.value.events[key][|Past(db, key)|];
      assert e.body.before == b && e.body.after == a && Advances(app, db, r.value, key, e);
    }
  }

  lemma AppendTouchesOne(app: App, db: Db, key: Key, row: Row, action: string, b: Option<Snapshot>, a: Option<Snapshot>, ctx: Context, now: int)
    requires Registered(app, key)
    ensures var r := AppendEvent(app, db, key, row, action, b, a, ctx, now);
      r.Ok? ==> forall k :: k != key ==> HistoryKept(db, r.value, k)
  {
  }

  /** The row before the write, as the snapshots taken then show it. */
  ghost predicate Remembered(app: App, prior: map<Key, Row>, before: map<Key, Option<Snapshot>>, k: Key)
    requires Registered(app, k)
  {
    Pictures(app, k, if k in prior then Some(prior[k]) else None, if k in before then before[k] else None)
  }

  ghost predicate Recordable(app: App, w: Db, k: Key, ctx: Context) {
    Registered(app, k) && k in w.rows && RowAllowed(app, w.rows, k, w.rows[k], ctx) && HistoryFits(app, w, k, w.rows[k])
  }

  ghost predicate Recording(app: App, prior: map<Key, Row>, w: Db, d: Db, k: Key, action: string, ctx: Context, clock: Key -> int) {
    && Registered(app, k) && k in w.rows
    && NewEvent(app, w, d, k, action, if k in prior then Some(prior[k]) else None, Some(w.rows[k]), ctx, clock(k))
  }

  /** The recording loop succeeds exactly if every written row is allowed and fits its history; it then
      gives each of them one event and touches nothing else. */
  lemma {:induction false} RecordAllExactly(app: App, prior: map<Key, Row>, w: Db, keys: seq<Key>, before: map<Key, Option<Snapshot>>,
                                            action: string, ctx: Context, clock: Key -> int)
    requires Distinct(keys) && forall k :: k in keys ==> Registered(app, k) && Remembered(app, prior, before, k)
    ensures var r := RecordAll(app, w, keys, before, action, ctx, clock);
      && (r.Ok? <==> forall k :: k in keys ==> Recordable(app, w, k, ctx))
      && (r.Ok? ==>
            && r.value.rows == w.rows
            && (forall k :: k in keys ==> Recording(app, prior, w, r.value, k, action, ctx, clock))
            && (forall k :: k !in keys ==> HistoryKept(w, r.value, k)))
    decreases |keys|
  {
    if keys != [] && keys[0] in w.rows {
      var key, rest := keys[0], keys[1..];
      CheckRowExactly(app, w, key, w.rows[key], ctx);
      var b := if key in before then before[key] else None;
      SnapshotPictures(app, key, Some(w.rows[key]));
      AppendExactly(app, w, key, w.rows[key], action, if key in prior then Some(prior[key]) else None, Some(w.rows[key]),
                    b, LiveSnapshot(app, w, key), ctx, clock(key));
      var step := AppendEvent(app, w, key, w.rows[key], action, b, LiveSnapshot(app, w, key), ctx, clock(key));
      if CheckRow(app, w, key, w.rows[key], ctx).None? && step.Ok? {
        assert Recordable(app, w, key, ctx);
        RecordAllExactly(app, prior, step.value, rest, before, action, ctx, clock);
        RecordRest(app, prior, w, step.value, RecordAll(app, step.value, rest, before, action, ctx, clock), keys, action, ctx, clock);
      } else {
        assert key in keys && !Recordable(app, w, key, ctx);
      }
    } else if keys != [] {
      assert keys[0] in keys && !Recordable(app, w, keys[0], ctx);
    }
  }

  /** One row recorded now, the others afterwards. */
  lemma RecordRest(app: App, prior: map<Key, Row>, w: Db, next: Db, r: Outcome, keys: seq<Key>, action: string, ctx: Context, clock: Key -> int)
    requires keys != [] && Distinct(keys) && next.rows == w.rows && Recordable(app, w, keys[0], ctx)
    requires Recording(app, prior, w, next, keys[0], action, ctx, clock) && forall k :: k != keys[0] ==> HistoryKept(w, next, k)
    requires r.Ok? <==> forall k :: k in keys[1..] ==> Recordable(app, next, k, ctx)
    requires r.Ok? ==> forall k :: k in keys[1..] ==> Recording(app, prior, next, r.value, k, action, ctx, clock)
    requires r.Ok? ==> forall k :: k !in keys[1..] ==> HistoryKept(next, r.value, k)
    ensures r.Ok? <==> forall k :: k in keys ==> Recordable(app, w, k, ctx)
    ensures r.Ok? ==> forall k :: k in keys ==> Recording(app, prior, w, r.value, k, action, ctx, clock)
    ensures r.Ok? ==> forall k :: k !in keys ==> HistoryKept(w, r.value, k)
  {
    var key, rest := keys[0], keys[1..];
    assert key !in rest && forall k :: k in keys <==> k == key || k in rest;
    forall k | k in rest ensures Recordable(app, next, k, ctx) <==> Recordable(app, w, k, ctx) {
      assert HistoryKept(w, next, k);
    }
    if r.Ok? {
      forall k | k in keys ensures Recording(app, prior, w, r.value, k, action, ctx, clock) {
        if k == key {
          assert HistoryKept(next, r.value, key);
        } else {
          assert Recording(app, prior, next, r.value, k, action, ctx, clock) && HistoryKept(w, next, k);
        }
      }
      forall k | k !in keys ensures HistoryKept(w, r.value, k) {
        assert HistoryKept(w, next, k) && HistoryKept(next, r.value, k);
      }
    }
  }

  // ---------------------------------------------------------------------------------------------
  // Updates
  // ---------------------------------------------------------------------------------------------

  ghost predicate AssignedRow(before: Row, after: Row, names: set<string>, from: Row) {
    && after.Keys == before.Keys + names
    && forall name | name in after.Keys ::
         after[name] == if name in names then (if name in from then from[name] else None) else before[name]
  }

  /** The chosen rows hold the assigned value in each named field and their old value in every other; all
      other rows are as before. */
  ghost predicate Assigned(rows: map<Key, Row>, w: map<Key, Row>, chosen: set<Key>, names: set<string>, from: (Key, Row) -> Row) {
    && w.Keys == rows.Keys
    && forall k | k in rows :: if k in chosen then AssignedRow(rows[k], w[k], names, from(k, rows[k])) else w[k] == rows[k]
  }

  lemma AssignedRowOnce(before: Row, after: Row, after': Row, names: set<string>, from: Row)
    requires AssignedRow(before, after, names, from) && AssignedRow(before, after', names, from)
    ensures after == after'
  {
  }

  lemma AssignedOnce(rows: map<Key, Row>, w: map<Key, Row>, w': map<Key, Row>, chosen: set<Key>, names: set<string>, from: (Key, Row) -> Row)
    requires Assigned(rows, w, chosen, names, from) && Assigned(rows, w', chosen, names, from)
    ensures w == w'
  {
    forall k | k in rows ensures w[k] == w'[k] {
      if k in chosen {
        AssignedRowOnce(rows[k], w[k], w'[k], names, from(k, rows[k]));
      }
    }
  }

  lemma ApplyFieldsAssigns(row: Row, names: set<string>, from: Row)
    ensures AssignedRow(row, ApplyFields(row, names, from), names, from)
  {
  }

  lemma WriteFieldsAssigns(db: Db, keys: seq<Key>, names: set<string>, assign: (Key, Row) -> Row)
    ensures Assigned(db.rows, WriteFields(db, keys, names, assign).rows, (set k | k in keys), names, assign)
    ensures WriteFields(db, keys, names, assign) == db.(rows := WriteFields(db, keys, names, assign).rows)
  {
    hide ApplyFields, AssignedRow;
    forall k | k in db.rows && k in keys
      ensures AssignedRow(db.rows[k], ApplyFields(db.rows[k], names, assign(k, db.rows[k])), names, assign(k, db.rows[k]))
    {
      ApplyFieldsAssigns(db.rows[k], names, assign(k, db.rows[k]));
    }
  }

  /** The rows a queryset under the context reaches among those its filters match. */
  ghost function Chosen(app: App, rows: map<Key, Row>, matching: seq<Key>, ctx: Context): set<Key>
    requires forall k :: k in matching ==> Registered(app, k)
  {
    set k | k in matching && Mine(app, rows, k, ctx)
  }

  lemma SelectChooses(app: App, db: Db, matching: seq<Key>, ctx: Context)
    requires forall k :: k in matching ==> Registered(app, k)
    ensures (set k | k in Dedup(Select(app, db, matching, ctx))) == Chosen(app, db.rows, matching, ctx)
  {
  }

  lemma SnapshotsRemember(app: App, db: Db, keys: seq<Key>)
    requires forall k :: k in keys ==> Registered(app, k)
    ensures forall k :: k in keys ==> Remembered(app, db.rows, Snapshots(app, db, keys), k)
  {
    forall k | k in keys ensures Remembered(app, db.rows, Snapshots(app, db, keys), k) {
      SnapshotPictures(app, k, LoadRow(db, k));
    }
  }

  /** What `RecordAll` makes of rows assigned under a filter. */
  lemma AssignedAndRecorded(app: App, db: Db, w: map<Key, Row>, matching: seq<Key>, names: set<string>, assign: (Key, Row) -> Row,
                            ctx: Context, clock: Key -> int)
    requires forall k :: k in matching ==> Registered(app, k)
    requires Assigned(db.rows, w, Chosen(app, db.rows, matching, ctx), names, assign)
    ensures var chosen := Chosen(app, db.rows, matching, ctx);
      var keys := Dedup(Select(app, db, matching, ctx));
      var r := RecordAll(app, WriteFields(db, keys, names, assign), keys, Snapshots(app, db, keys), "update", ctx, clock);
      && (r.Ok? <==> forall k :: k in chosen ==> Recordable(app, db.(rows := w), k, ctx))
      && (r.Ok? ==>
            && r.value.rows == w
            && (forall k :: k in chosen ==> Recording(app, db.rows, db.(rows := w), r.value, k, "update", ctx, clock))
            && (forall k :: k !in chosen ==> HistoryKept(db, r.value, k)))
  {
    hide Recordable, Recording, Assigned, Remembered, RecordAll, Chosen, SameAt;
    var chosen := Chosen(app, db.rows, matching, ctx);
    var keys := Dedup(Select(app, db, matching, ctx));
    SelectChooses(app, db, matching, ctx);
    assert forall k :: k in keys <==> k in (set x | x in keys);
    WriteFieldsAssigns(db, keys, names, assign);
    AssignedOnce(db.rows, w, WriteFields(db, keys, names, assign).rows, chosen, names, assign);
    SnapshotsRemember(app, db, keys);
    RecordAllExactly(app, db.rows, db.(rows := w), keys, Snapshots(app, db, keys), "update", ctx, clock);
  }

  /** A queryset update with something to set: refused if it names the scope; otherwise accepted exactly
      if each chosen row, as assigned, is allowed and fits its history.  It then leaves the assigned rows
      and one "update" event for each. */
  lemma UpdateExactly(app: App, db: Db, w: map<Key, Row>, model: string, matching: seq<Key>, names: set<string>,
                      assign: (Key, Row) -> Row, ctx: Context, clock: Key -> int)
    requires Supported(app, UpdateOp(model, matching, names, assign)) && names != {}
    requires Assigned(db.rows, w, Chosen(app, db.rows, matching, ctx), names, assign)
    ensures var chosen := Chosen(app, db.rows, matching, ctx);
      var r := Update(app, db, model, matching, names, assign, ctx, clock);
      && (app.schema[model].scopeField in names ==> r == Err(UnsupportedOperation))
      && (app.schema[model].scopeField !in names ==>
            (r.Ok? <==> forall k :: k in chosen ==> Recordable(app, db.(rows := w), k, ctx)))
      && (r.Ok? ==>
            && r.value.rows == w
            && (forall k :: k in chosen ==> Recording(app, db.rows, db.(rows := w), r.value, k, "update", ctx, clock))
            && (forall k :: k !in chosen ==> HistoryKept(db, r.value, k)))
  {
    AssignedAndRecorded(app, db, w, matching, names, assign, ctx, clock);
  }

  /** An update that commits has written what was assigned and nothing else, and recorded just that. */
  lemma UpdateWrites(app: App, db: Db, d: Db, model: string, matching: seq<Key>, names: set<string>,
                     assign: (Key, Row) -> Row, ctx: Context, clock: Key -> int, k: Key)
    requires Supported(app, UpdateOp(model, matching, names, assign))
    requires Update(app, db, model, matching, names, assign, ctx, clock) == Ok(d)
    ensures if names != {} && k in matching && Mine(app, db.rows, k, ctx) then
              && k in d.rows && AssignedRow(db.rows[k], d.rows[k], names, assign(k, db.rows[k]))
              && NewEvent(app, db, d, k, "update", Some(db.rows[k]), Some(d.rows[k]), ctx, clock(k))
            else Same(db, d, k)
  {
    if names != {} {
      var chosen := Chosen(app, db.rows, matching, ctx);
      SelectChooses(app, db, matching, ctx);
      WriteFieldsAssigns(db, Dedup(Select(app, db, matching, ctx)), names, assign);
      var w := WriteFields(db, Dedup(Select(app, db, matching, ctx)), names, assign).rows;
      UpdateExactly(app, db, w, model, matching, names, assign, ctx, clock);
      if k in chosen {
        assert Recording(app, db.rows, db.(rows := w), d, k, "update", ctx, clock);
      } else {
        assert HistoryKept(db, d, k);
      }
    }
  }

  /** The row as it is stored belongs to the context. */
  ghost predicate ScopeAllowed(app: App, key: Key, row: Row, ctx: Context)
    requires Registered(app, key)
  {
    var config := app.schema[key.model];
    && config.scopeField in row && Proper(row[config.scopeField])
    && (config.mode == Enforce ==> Is(row, config.scopeField, ctx.scope))
  }

  lemma {:induction false} CheckPersistedExactly(app: App, db: Db, keys: seq<Key>, ctx: Context)
    requires forall k :: k in keys ==> Registered(app, k)
    ensures CheckPersisted(app, db, keys, ctx).None? <==> forall k :: k in keys && k in db.rows ==> ScopeAllowed(app, k, db.rows[k], ctx)
    decreases |keys|
  {
    if keys != [] {
      CheckPersistedExactly(app, db, keys[1..], ctx);
      if keys[0] in db.rows {
        CheckScopeExactly(ConfigOf(app, keys[0]), db.rows[keys[0]], ctx);
      }
      assert keys == [keys[0]] + keys[1..];
    }
  }

  /** A bulk update: the rows it is given for must all belong to the context, whether its filters match
      them or not; then it is an update that assigns each chosen row the fields of the object given. */
  lemma BulkUpdateExactly(app: App, db: Db, w: map<Key, Row>, model: string, objs: map<Key, Row>, keys: seq<Key>, matching: seq<Key>,
                          names: set<string>, ctx: Context, clock: Key -> int)
    requires Supported(app, BulkUpdateOp(model, objs, keys, matching, names))
    requires Assigned(db.rows, w, Chosen(app, db.rows, matching, ctx), names, Given(objs))
    ensures var chosen := Chosen(app, db.rows, matching, ctx);
      var r := BulkUpdate(app, db, model, objs, keys, matching, names, ctx, clock);
      && (r.Ok? <==>
            && app.schema[model].scopeField !in names && names != {} && Distinct(keys)
            && (forall k :: k in keys && k in db.rows ==> ScopeAllowed(app, k, db.rows[k], ctx))
            && (forall k :: k in chosen ==> Recordable(app, db.(rows := w), k, ctx)))
      && (r.Ok? ==>
            && r.value.rows == w
            && (forall k :: k in chosen ==> Recording(app, db.rows, db.(rows := w), r.value, k, "update", ctx, clock))
            && (forall k :: k !in chosen ==> HistoryKept(db, r.value, k)))
  {
    hide CheckPersisted, Distinct, ScopeAllowed, Assigned, Recordable, Recording, RecordAll;
    CheckPersistedExactly(app, db, keys, ctx);
    AssignedAndRecorded(app, db, w, matching, names, Given(objs), ctx, clock);
  }

  lemma BulkUpdateWrites(app: App, db: Db, d: Db, model: string, objs: map<Key, Row>, keys: seq<Key>, matching: seq<Key>,
                         names: set<string>, ctx: Context, clock: Key -> int, k: Key)
    requires Supported(app, BulkUpdateOp(model, objs, keys, matching, names))
    requires BulkUpdate(app, db, model, objs, keys, matching, names, ctx, clock) == Ok(d)
    ensures if k in matching && Mine(app, db.rows, k, ctx) then
              && k in d.rows && AssignedRow(db.rows[k], d.rows[k], names, objs[k])
              && NewEvent(app, db, d, k, "update", Some(db.rows[k]), Some(d.rows[k]), ctx, clock(k))
            else Same(db, d, k)
  {
    var chosen := Chosen(app, db.rows, matching, ctx);
    SelectChooses(app, db, matching, ctx);
    WriteFieldsAssigns(db, Dedup(Select(app, db, matching, ctx)), names, Given(objs));
    var w := WriteFields(db, Dedup(Select(app, db, matching, ctx)), names, Given(objs)).rows;
    BulkUpdateExactly(app, db, w, model, objs, keys, matching, names, ctx, clock);
    if k in chosen {
      assert Recording(app, db.rows, db.(rows := w), d, k, "update", ctx, clock);
    } else {
      assert HistoryKept(db, d, k);
    }
  }

  // ---------------------------------------------------------------------------------------------
  // Save, bulk creation and deletion
  // ---------------------------------------------------------------------------------------------

  /** A save is accepted exactly if the row that was there belongs to the context, the instance and the
      row that is left are allowed, the scope stays, and the history fits.  It leaves that row and one
      event, "create" for a new row and "update" otherwise unless it is overridden. */
  lemma SaveExactly(app: App, db: Db, key: Key, inst: Row, persist: Option<Row> -> Row, override: Option<string>, ctx: Context, now: int)
    requires Registered(app, key)
    ensures var old' := if key in db.rows then Some(db.rows[key]) else None;
      var row := persist(old');
      var scopeField := app.schema[key.model].scopeField;
      var r := Save(app, db, key, inst, persist, override, ctx, now);
      && (r.Ok? <==>
            && (key in db.rows ==> ScopeAllowed(app, key, db.rows[key], ctx))
            && RowAllowed(app, db.rows, key, inst, ctx)
            && (key in db.rows ==> db.rows[key][scopeField] == inst[scopeField])
            && RowAllowed(app, db.rows[key := row], key, row, ctx) && HistoryFits(app, db, key, row))
      && (r.Ok? ==>
            && r.value.rows == db.rows[key := row]
            && NewEvent(app, db, r.value, key,
                        if override.Some? then override.value else if key in db.rows then "update" else "create",
                        old', Some(row), ctx, now)
            && forall k :: k != key ==> HistoryKept(db, r.value, k))
  {
    hide Identity, CheckScope, CheckRow, AppendEvent, NewEvent, SnapshotOf, Pictures, SameAt, ReferenceAllowed;
    var old' := LoadRow(db, key);
    var row := persist(old');
    var written := db.(rows := db.rows[key := row]);
    if key in db.rows {
      CheckScopeExactly(ConfigOf(app, key), db.rows[key], ctx);
    }
    CheckRowExactly(app, db, key, inst, ctx);
    CheckRowExactly(app, written, key, row, ctx);
    SnapshotPictures(app, key, old');
    SnapshotPictures(app, key, Some(row));
    var action := if override.Some? then override.value else if old'.None? then "create" else "update";
    AppendExactly(app, written, key, row, action, old', Some(row), SnapshotOf(app, key, old'), LiveSnapshot(app, written, key), ctx, now);
    SameHistories(app, db, written, Save(app, db, key, inst, persist, override, ctx, now), key, action, old', Some(row), ctx, now);
  }

  /** Rows do not matter to what an event is compared with. */
  lemma SameHistories(app: App, db: Db, w: Db, r: Outcome, key: Key, action: string, before: Option<Row>, after: Option<Row>, ctx: Context, now: int)
    requires Registered(app, key) && w.resources == db.resources && w.events == db.events
    ensures r.Ok? ==> (NewEvent(app, w, r.value, key, action, before, after, ctx, now) <==> NewEvent(app, db, r.value, key, action, before, after, ctx, now))
    ensures r.Ok? ==> forall k :: HistoryKept(w, r.value, k) <==> HistoryKept(db, r.value, k)
  {
  }

  /** The rows given, as the table stores them, are new; all other rows are as before. */
  ghost predicate Inserted(rows: map<Key, Row>, w: map<Key, Row>, objs: seq<(Key, Row)>, store: Row -> Row) {
    && (forall i | 0 <= i < |objs| :: objs[i].0 in w && w[objs[i].0] == store(objs[i].1))
    && (forall k | k !in Keys(objs) :: SameAt(rows, w, k))
  }

  lemma InsertedOnce(rows: map<Key, Row>, w: map<Key, Row>, w': map<Key, Row>, objs: seq<(Key, Row)>, store: Row -> Row)
    requires Inserted(rows, w, objs, store) && Inserted(rows, w', objs, store)
    ensures w == w'
  {
    forall k ensures (k in w <==> k in w') && (k in w ==> w[k] == w'[k]) {
      if k in Keys(objs) {
        var i :| 0 <= i < |objs| && Keys(objs)[i] == k;
        assert objs[i].0 == k;
      } else {
        assert SameAt(rows, w, k) && SameAt(rows, w', k);
      }
    }
  }

  lemma {:induction false} InsertInserts(db: Db, objs: seq<(Key, Row)>, store: Row -> Row)
    requires Distinct(Keys(objs))
    ensures Inserted(db.rows, Insert(db, objs, store).rows, objs, store)
    ensures Insert(db, objs, store) == db.(rows := Insert(db, objs, store).rows)
    decreases |objs|
  {
    if objs != [] {
      var key := objs[0].0;
      var next := db.(rows := db.rows[key := store(objs[0].1)]);
      var w := Insert(db, objs, store).rows;
      assert Keys(objs)[0] == key && Keys(objs)[1..] == Keys(objs[1..]);
      InsertInserts(next, objs[1..], store);
      assert key !in Keys(objs[1..]);
      assert SameAt(next.rows, w, key);
      forall i | 0 <= i < |objs| ensures objs[i].0 in w && w[objs[i].0] == store(objs[i].1) {
        assert i > 0 ==> objs[1..][i - 1] == objs[i];
      }
      forall k | k !in Keys(objs) ensures SameAt(db.rows, w, k) {
        assert k !in Keys(objs[1..]) && SameAt(next.rows, w, k);
      }
    }
  }

  lemma {:induction false} CheckAllExactly(app: App, db: Db, objs: seq<(Key, Row)>, ctx: Context)
    requires forall o :: o in objs ==> Registered(app, o.0)
    ensures CheckAll(app, db, objs, ctx).None? <==> forall o :: o in objs ==> RowAllowed(app, db.rows, o.0, o.1, ctx)
    decreases |objs|
  {
    if objs != [] {
      CheckRowExactly(app, db, objs[0].0, objs[0].1, ctx);
      CheckAllExactly(app, db, objs[1..], ctx);
      assert objs == [objs[0]] + objs[1..];
    }
  }

  lemma KeysAreFirsts(objs: seq<(Key, Row)>)
    ensures forall k :: k in Keys(objs) <==> exists o :: o in objs && o.0 == k
  {
    forall o | o in objs ensures o.0 in Keys(objs) {
      var i :| 0 <= i < |objs| && objs[i] == o;
      assert Keys(objs)[i] == o.0;
    }
  }

  /** A bulk creation is accepted exactly if every object is allowed, the keys are different and new, and
      each row, as stored, is allowed and fits its history.  It leaves those rows and one "create" event
      for each, without a state before. */
  lemma BulkCreateExactly(app: App, db: Db, w: map<Key, Row>, objs: seq<(Key, Row)>, store: Row -> Row, ctx: Context, clock: Key -> int)
    requires Supported(app, BulkCreateOp(objs, store)) && (Distinct(Keys(objs)) ==> Inserted(db.rows, w, objs, store))
    ensures var r := BulkCreate(app, db, objs, store, ctx, clock);
      && (r.Ok? <==>
            && (forall o :: o in objs ==> RowAllowed(app, db.rows, o.0, o.1, ctx))
            && Distinct(Keys(objs)) && (forall o :: o in objs ==> o.0 !in db.rows)
            && (forall k :: k in Keys(objs) ==> Recordable(app, db.(rows := w), k, ctx)))
      && ((forall o :: o in objs ==> RowAllowed(app, db.rows, o.0, o.1, ctx)) ==>
            (Distinct(Keys(objs)) && forall o :: o in objs ==> o.0 !in db.rows) || r == Err(IntegrityError))
      && (r.Ok? ==>
            && r.value.rows == w
            && (forall k :: k in Keys(objs) ==> Recording(app, db.rows, db.(rows := w), r.value, k, "create", ctx, clock))
            && (forall k :: k !in Keys(objs) ==> HistoryKept(db, r.value, k)))
  {
    hide RowAllowed, Recordable, Recording, RecordAll, CheckAll, Inserted, Insert, Distinct, SameAt;
    CheckAllExactly(app, db, objs, ctx);
    KeysAreFirsts(objs);
    if Distinct(Keys(objs)) && forall o :: o in objs ==> o.0 !in db.rows {
      InsertInserts(db, objs, store);
      InsertedOnce(db.rows, w, Insert(db, objs, store).rows, objs, store);
      forall k | k in Keys(objs) ensures Registered(app, k) && Remembered(app, db.rows, map[], k) {
        var o :| o in objs && o.0 == k;
      }
      RecordAllExactly(app, db.rows, db.(rows := w), Keys(objs), map[], "create", ctx, clock);
      assert forall k | k !in Keys(objs) :: HistoryKept(db.(rows := w), db, k) by { RowsApart(db, w); }
    }
  }

  lemma RowsApart(db: Db, w: map<Key, Row>)
    ensures forall k :: HistoryKept(db.(rows := w), db, k)
  {
  }

  ghost predicate Deletable(app: App, db: Db, k: Key, ctx: Context) {
    Registered(app, k) && (k in db.rows ==> ScopeAllowed(app, k, db.rows[k], ctx) && HistoryFits(app, db, k, db.rows[k]))
  }

  ghost predicate Deleting(app: App, db: Db, d: Db, k: Key, ctx: Context, clock: Key -> int) {
    && Registered(app, k)
    && if k in db.rows then NewEvent(app, db, d, k, "delete", Some(db.rows[k]), None, ctx, clock(k)) else HistoryKept(db, d, k)
  }

  lemma {:induction false} RecordDeletesExactly(app: App, db: Db, keys: seq<Key>, ctx: Context, clock: Key -> int)
    requires Distinct(keys) && forall k :: k in keys ==> Registered(app, k)
    ensures var r := RecordDeletes(app, db, keys, ctx, clock);
      && (r.Ok? <==> forall k :: k in keys ==> Deletable(app, db, k, ctx))
      && (r.Ok? ==>
            && r.value.rows == db.rows
            && (forall k :: k in keys ==> Deleting(app, db, r.value, k, ctx, clock))
            && (forall k :: k !in keys ==> HistoryKept(db, r.value, k)))
    decreases |keys|
  {
    if keys != [] {
      var key, rest := keys[0], keys[1..];
      var next := Ok(db);
      if key in db.rows {
        var row := db.rows[key];
        CheckScopeExactly(ConfigOf(app, key), row, ctx);
        SnapshotPictures(app, key, Some(row));
        AppendExactly(app, db, key, row, "delete", Some(row), None, LiveSnapshot(app, db, key), None, ctx, clock(key));
        next := AppendEvent(app, db, key, row, "delete", LiveSnapshot(app, db, key), None, ctx, clock(key));
      }
      if Deletable(app, db, key, ctx) {
        RecordDeletesExactly(app, next.value, rest, ctx, clock);
        DeleteRest(app, db, next.value, RecordDeletes(app, next.value, rest, ctx, clock), keys, ctx, clock);
      } else {
        assert key in keys;
      }
    }
  }

  lemma DeleteRest(app: App, db: Db, next: Db, r: Outcome, keys: seq<Key>, ctx: Context, clock: Key -> int)
    requires keys != [] && Distinct(keys) && next.rows == db.rows && Deletable(app, db, keys[0], ctx)
    requires Deleting(app, db, next, keys[0], ctx, clock) && forall k :: k != keys[0] ==> HistoryKept(db, next, k)
    requires r.Ok? <==> forall k :: k in keys[1..] ==> Deletable(app, next, k, ctx)
    requires r.Ok? ==> forall k :: k in keys[1..] ==> Deleting(app, next, r.value, k, ctx, clock)
    requires r.Ok? ==> forall k :: k !in keys[1..] ==> HistoryKept(next, r.value, k)
    ensures r.Ok? <==> forall k :: k in keys ==> Deletable(app, db, k, ctx)
    ensures r.Ok? ==> forall k :: k in keys ==> Deleting(app, db, r.value, k, ctx, clock)
    ensures r.Ok? ==> forall k :: k !in keys ==> HistoryKept(db, r.value, k)
  {
    var key, rest := keys[0], keys[1..];
    assert key !in rest && forall k :: k in keys <==> k == key || k in rest;
    forall k | k in rest ensures Deletable(app, next, k, ctx) <==> Deletable(app, db, k, ctx) {
      assert HistoryKept(db, next, k);
    }
    if r.Ok? {
      forall k | k in keys ensures Deleting(app, db, r.value, k, ctx, clock) {
        if k == key {
          assert HistoryKept(next, r.value, key);
        } else {
          assert Deleting(app, next, r.value, k, ctx, clock) && HistoryKept(db, next, k);
        }
      }
      forall k | k !in keys ensures HistoryKept(db, r.value, k) {
        assert HistoryKept(db, next, k) && HistoryKept(next, r.value, k);
      }
    }
  }

  /** A deletion is accepted exactly if each stored row it gathered belongs to the context and to the
      scope of its history.  Then those rows are gone and no others, and each of them has one "delete"
      event that shows what it was and no state after. */
  lemma DeleteExactly(app: App, db: Db, doomed: seq<Key>, ctx: Context, clock: Key -> int)
    requires Supported(app, DeleteOp(doomed))
    ensures var r := Delete(app, db, doomed, ctx, clock);
      && (r.Ok? <==> forall k :: k in doomed ==> Deletable(app, db, k, ctx))
      && (r.Ok? ==>
            && (forall k :: k in r.value.rows <==> k in db.rows && k !in doomed)
            && (forall k :: k in r.value.rows ==> r.value.rows[k] == db.rows[k])
            && (forall k :: k in doomed ==> Deleting(app, db, r.value, k, ctx, clock))
            && (forall k :: k !in doomed ==> HistoryKept(db, r.value, k)))
  {
    hide Deletable, RecordDeletes, NewEvent;
    RecordDeletesExactly(app, db, Dedup(doomed), ctx, clock);
    var recorded := RecordDeletes(app, db, Dedup(doomed), ctx, clock);
    if recorded.Ok? {
      forall k | k in doomed ensures Deleting(app, db, Delete(app, db, doomed, ctx, clock).value, k, ctx, clock) {
        assert Deleting(app, db, recorded.value, k, ctx, clock);
        if k in db.rows {
          EventsWithoutRows(app, db, recorded.value, Delete(app, db, doomed, ctx, clock).value, k, "delete", Some(db.rows[k]), None, ctx, clock(k));
        }
      }
    }
  }

  lemma EventsWithoutRows(app: App, db: Db, d: Db, d': Db, key: Key, action: string, before: Option<Row>, after: Option<Row>, ctx: Context, now: int)
    requires Registered(app, key) && d'.resources == d.resources && d'.events == d.events
    requires NewEvent(app, db, d, key, action, before, after, ctx, now)
    ensures NewEvent(app, db, d', key, action, before, after, ctx, now)
  {
  }

  /** A baseline is recorded for a stored row of the context that has no history yet, and shows its state;
      otherwise nothing changes. */
  lemma BaselineExactly(app: App, db: Db, key: Key, ctx: Context, now: int)
    requires Registered(app, key)
    ensures var r := Baseline(app, db, key, ctx, now);
      var recorded := key in db.resources && db.resources[key].revision > 0;
      && (r.Ok? <==> (key in db.rows ==> ScopeAllowed(app, key, db.rows[key], ctx) && (recorded || HistoryFits(app, db, key, db.rows[key]))))
      && (r.Ok? && (key !in db.rows || recorded) ==> r.value == db)
      && (r.Ok? && key in db.rows && !recorded ==>
            && r.value.rows == db.rows && NewEvent(app, db, r.value, key, "baseline", None, Some(db.rows[key]), ctx, now)
            && forall k :: k != key ==> HistoryKept(db, r.value, k))
  {
    if key in db.rows {
      var row := db.rows[key];
      CheckScopeExactly(ConfigOf(app, key), row, ctx);
      SnapshotPictures(app, key, Some(row));
      AppendExactly(app, db, key, row, "baseline", None, Some(row), None, LiveSnapshot(app, db, key), ctx, now);
    }
  }

  /** A selected field that is neither the scope nor a foreign key. */
  ghost predicate Restorable(config: Config, name: string) {
    name in config.fields && name != config.scopeField && name !in config.relations
  }

  /** The restorable fields hold the decoded values of the target, all others what they held. */
  ghost predicate RestoredFrom(app: App, config: Config, before: Row, after: Row, target: Snapshot)
    requires target.Keys == config.fields
  {
    && (forall name :: name in after <==> name in before || Restorable(config, name))
    && forall name | name in after ::
         after[name] == if Restorable(config, name) then app.toPython(target[name]) else before[name]
  }

  lemma RestoredRowExactly(app: App, config: Config, row: Row, target: Snapshot)
    requires target.Keys == config.fields
    ensures RestoredFrom(app, config, row, RestoredRow(app, config, row, target), target)
  {
  }

  /** The state recorded at a revision can be restored: the row and its history belong to the context, the
      expected revision is the head, the history verifies and ends at the row as it is, the target has a
      state of today's fields, differs only in restorable ones, and there are such. */
  ghost predicate RestorableTarget(app: App, db: Db, key: Key, revision: int, expected: int, ctx: Context, target: Snapshot)
    requires Registered(app, key)
  {
    var config := app.schema[key.model];
    && key in db.rows && ScopeAllowed(app, key, db.rows[key], ctx)
    && key in db.resources && db.resources[key].scope == ctx.scope && db.resources[key].revision == expected
    && Accepts(app.hash, key, db.resources[key], Past(db, key))
    && Past(db, key) != [] && Pictures(app, key, Some(db.rows[key]), Past(db, key)[|Past(db, key)| - 1].body.after)
    && 1 <= revision <= |Past(db, key)| && Past(db, key)[revision - 1].body.after == Some(target)
    && target.Keys == config.fields && (exists name :: Restorable(config, name))
    && forall name | name in config.fields && !Restorable(config, name) ::
         target[name] == app.plain(if name in db.rows[key] then db.rows[key][name] else None)
  }

  lemma PicturesOnce(app: App, key: Key, row: Option<Row>, a: Option<Snapshot>, b: Option<Snapshot>)
    requires Registered(app, key) && Pictures(app, key, row, a) && Pictures(app, key, row, b)
    ensures a == b
  {
    if row.Some? {
      assert a.value == b.value;
    }
  }

  lemma RestoreTargetExactly(app: App, db: Db, key: Key, revision: int, expected: int, ctx: Context, target: Snapshot)
    requires Registered(app, key)
    ensures RestoreTarget(app, db, key, revision, expected, ctx) == Ok(target) <==> RestorableTarget(app, db, key, revision, expected, ctx, target)
  {
    hide Pictures, Accepts, Proper;
    if key in db.rows {
      CheckScopeExactly(ConfigOf(app, key), db.rows[key], ctx);
      SnapshotPictures(app, key, Some(db.rows[key]));
      if Past(db, key) != [] && Pictures(app, key, Some(db.rows[key]), Past(db, key)[|Past(db, key)| - 1].body.after) {
        PicturesOnce(app, key, Some(db.rows[key]), LiveSnapshot(app, db, key), Past(db, key)[|Past(db, key)| - 1].body.after);
      }
      assert forall name :: Restorable(ConfigOf(app, key), name) <==> name in Scalars(ConfigOf(app, key));
    }
  }

  /** A restore that succeeds sets the restorable fields to the values recorded at the revision, keeps every
      other field, and records that as one "restore" event. */
  lemma RestoreWrites(app: App, db: Db, d: Db, key: Key, revision: int, expected: int, ctx: Context, now: int)
    returns (target: Snapshot)
    requires Registered(app, key) && Restore(app, db, key, revision, expected, ctx, now) == Ok(d)
    ensures RestorableTarget(app, db, key, revision, expected, ctx, target)
    ensures key in d.rows && RestoredFrom(app, app.schema[key.model], db.rows[key], d.rows[key], target)
    ensures d.rows == db.rows[key := d.rows[key]]
    ensures NewEvent(app, db, d, key, "restore", Some(db.rows[key]), Some(d.rows[key]), ctx, now)
    ensures forall k :: k != key ==> HistoryKept(db, d, k)
  {
    hide RestorableTarget, NewEvent, RowAllowed, ScopeAllowed, HistoryFits, RestoredFrom, Save, RestoredRow;
    target := RestoreTarget(app, db, key, revision, expected, ctx).value;
    RestoreTargetExactly(app, db, key, revision, expected, ctx, target);
    RestoredRowExactly(app, ConfigOf(app, key), db.rows[key], target);
    var inst := RestoredRow(app, ConfigOf(app, key), db.rows[key], target);
    SaveExactly(app, db, key, inst, old' => inst, Some("restore"), ctx, now);
  }

  /** What a restore refuses, in order, and as what. */
  lemma RestoreRefuses(app: App, db: Db, key: Key, revision: int, expected: int, ctx: Context, e: Error)
    requires Registered(app, key) && RestoreTarget(app, db, key, revision, expected, ctx) == Err(e)
    ensures var config := app.schema[key.model];
      if key !in db.rows then e == HistoryConflict
      else if !(config.scopeField in db.rows[key] && Proper(db.rows[key][config.scopeField])) then e == InvalidIdentity
      else if !ScopeAllowed(app, key, db.rows[key], ctx) || (key in db.resources && db.resources[key].scope != ctx.scope) then
        e == ScopeViolation
      else if key !in db.resources || db.resources[key].revision != expected || Past(db, key) == []
           || !Accepts(app.hash, key, db.resources[key], Past(db, key))
           || !Pictures(app, key, Some(db.rows[key]), Past(db, key)[|Past(db, key)| - 1].body.after)
           || !(1 <= revision <= |Past(db, key)|) || Past(db, key)[revision - 1].body.after == None
           || Past(db, key)[revision - 1].body.after.value.Keys != config.fields then
        e == HistoryConflict
      else e == UnsupportedOperation
  {
    hide Pictures, Accepts, Proper;
    if key in db.rows {
      var config := ConfigOf(app, key);
      CheckScopeExactly(config, db.rows[key], ctx);
      IdentityExactly(if config.scopeField in db.rows[key] then db.rows[key][config.scopeField] else None);
      SnapshotPictures(app, key, Some(db.rows[key]));
      if Past(db, key) != [] && Pictures(app, key, Some(db.rows[key]), Past(db, key)[|Past(db, key)| - 1].body.after) {
        PicturesOnce(app, key, Some(db.rows[key]), LiveSnapshot(app, db, key), Past(db, key)[|Past(db, key)| - 1].body.after);
      }
    }
  }

  lemma RestoredOnce(app: App, config: Config, before: Row, after: Row, after': Row, target: Snapshot)
    requires target.Keys == config.fields
    requires RestoredFrom(app, config, before, after, target) && RestoredFrom(app, config, before, after', target)
    ensures after == after'
  {
  }

  /** Where there is such a target, a restore is accepted exactly if the row it makes is allowed. */
  lemma RestoreAccepted(app: App, db: Db, key: Key, revision: int, expected: int, ctx: Context, now: int, target: Snapshot, row: Row)
    requires Registered(app, key) && RestorableTarget(app, db, key, revision, expected, ctx, target)
    requires RestoredFrom(app, app.schema[key.model], db.rows[key], row, target)
    ensures Restore(app, db, key, revision, expected, ctx, now).Ok? <==>
      RowAllowed(app, db.rows, key, row, ctx) && RowAllowed(app, db.rows[key := row], key, row, ctx) && HistoryFits(app, db, key, row)
  {
    hide RowAllowed, HistoryFits, Save, RestoredRow, Accepts, Pictures;
    RestoreTargetExactly(app, db, key, revision, expected, ctx, target);
    RestoredRowExactly(app, ConfigOf(app, key), db.rows[key], target);
    RestoredOnce(app, ConfigOf(app, key), db.rows[key], row, RestoredRow(app, ConfigOf(app, key), db.rows[key], target), target);
    SaveExactly(app, db, key, row, old' => row, Some("restore"), ctx, now);
    assert !Restorable(ConfigOf(app, key), ConfigOf(app, key).scopeField);
  }

  /** A transaction commits exactly what its operation leaves if every foreign key names a stored row. */
  lemma CommitExactly(app: App, outcome: Outcome)
    ensures Commit(app, outcome).Ok? <==> outcome.Ok? && forall k, name |
      k in outcome.value.rows && k.model in app.schema && name in app.schema[k.model].relations ::
      name in outcome.value.rows[k] && outcome.value.rows[k][name].Some? ==>
        Key(app.schema[k.model].relations[name], outcome.value.rows[k][name].value) in outcome.value.rows
    ensures Commit(app, outcome).Ok? ==> Commit(app, outcome) == outcome
    ensures Commit(app, outcome).Err? ==> Commit(app, outcome) == if outcome.Err? then outcome else Err(IntegrityError)
  {
    if outcome.Ok? && ForeignKeysHold(app, outcome.value.rows) {
      var rows := outcome.value.rows;
      forall k, name | k in rows && k.model in app.schema && name in app.schema[k.model].relations
        ensures name in rows[k] && rows[k][name].Some? ==> Key(app.schema[k.model].relations[name], rows[k][name].value) in rows
      {
        assert Registered(app, k) && name in ConfigOf(app, k).relations && Field(rows[k], name) == if name in rows[k] then rows[k][name] else None;
      }
    }
  }
}
