/**
 What every run of tracked writes keeps: verified and continuous histories that end at the live
 row, one attributed and truthful event per changed row, tenant isolation, fixed scopes and no
 foreign key across scopes.
 */
module TrackedHistory {
  import opened Wrappers
  import opened Contexts
  import opened EventChain
  import opened TrackedWrites

  // ---------------------------------------------------------------------------------------------
  // The invariant
  // ---------------------------------------------------------------------------------------------

  ghost predicate Continuous(events: seq<Event>) {
    forall i | 0 < i < |events| :: events[i].body.before == events[i - 1].body.after
  }

  /** The history of `k`, if it has one: accepted, continuous, ending at `expected`. */
  ghost predicate HistoryEndsAt(app: App, db: Db, k: Key, expected: Option<Snapshot>) {
    && (k in db.resources <==> k in db.events)
    && (k in db.resources ==>
          && Accepts(app.hash, k, db.resources[k], db.events[k])
          && db.events[k] != []
          && Continuous(db.events[k])
          && db.events[k][|db.events[k]| - 1].body.after == expected)
  }

  ghost predicate ScopeRecorded(app: App, db: Db, k: Key)
    requires Registered(app, k)
  {
    k in db.rows && k in db.resources ==>
      Field(db.rows[k], ConfigOf(app, k).scopeField) == Some(db.resources[k].scope)
  }

  /** Every registered row's history ends at what the row holds now, or at None once it is gone. */
  ghost predicate Consistent(app: App, db: Db) {
    forall k | Registered(app, k) :: HistoryEndsAt(app, db, k, LiveSnapshot(app, db, k)) && ScopeRecorded(app, db, k)
  }

  function ScopeOf(app: App, rows: map<Key, Row>, k: Key): Value
    requires Registered(app, k) && k in rows
  {
    Field(rows[k], ConfigOf(app, k).scopeField)
  }

  ghost predicate SameScopeReference(app: App, rows: map<Key, Row>, k: Key, name: string)
    requires Enforced(app, k.model) && name in ConfigOf(app, k).relations && k in rows
  {
    var model := ConfigOf(app, k).relations[name];
    var value := Field(rows[k], name);
    Enforced(app, model) && value.Some? && Key(model, value.value) in rows ==>
      ScopeOf(app, rows, k) == ScopeOf(app, rows, Key(model, value.value))
  }

  /** Every foreign key between enforced rows joins two rows of one scope. */
  ghost predicate NoCrossReferences(app: App, rows: map<Key, Row>) {
    forall k, name | k in rows && Enforced(app, k.model) && name in ConfigOf(app, k).relations ::
      SameScopeReference(app, rows, k, name)
  }

  ghost predicate Invariant(app: App, db: Db) {
    Consistent(app, db) && ForeignKeysHold(app, db.rows) && NoCrossReferences(app, db.rows)
  }

  // ---------------------------------------------------------------------------------------------
  // The effect of one transaction
  // ---------------------------------------------------------------------------------------------

  ghost predicate SameAt<V>(m: map<Key, V>, m': map<Key, V>, k: Key) {
    (k in m <==> k in m') && (k in m ==> m[k] == m'[k])
  }

  ghost predicate Same(db: Db, db': Db, k: Key) {
    SameAt(db.rows, db'.rows, k) && SameAt(db.resources, db'.resources, k) && SameAt(db.events, db'.events, k)
  }

  /** `e` tells the truth about what this transaction did to `k`, and who did it. */
  ghost predicate Truthful(app: App, db: Db, db': Db, k: Key, ctx: Context, e: Event)
    requires Registered(app, k)
  {
    && e.body.after == LiveSnapshot(app, db', k)
    && (e.body.before == LiveSnapshot(app, db, k)
        || (e.body.action == "baseline" && e.body.before == None && k !in db.resources && SameAt(db.rows, db'.rows, k)))
    && e.body.actor == ctx.actor && e.body.reason == ctx.reason && e.body.requestId == ctx.requestId
  }

  /** `k` was written: one truthful event was appended, in the scope the resource always had. */
  ghost predicate Written(app: App, db: Db, db': Db, k: Key, ctx: Context)
    requires Registered(app, k)
  {
    && k in db'.resources && k in db'.events && db'.events[k] != []
    && db'.events[k] == EventsOf(db, k) + [db'.events[k][|db'.events[k]| - 1]]
    && Truthful(app, db, db', k, ctx, db'.events[k][|db'.events[k]| - 1])
    && (k in db.resources ==> db'.resources[k].scope == db.resources[k].scope)
    && (k in db'.rows ==> ScopeOf(app, db'.rows, k) == Some(db'.resources[k].scope))
    && (Enforced(app, k.model) ==>
          && db'.resources[k].scope == ctx.scope
          && (k in db.rows ==> ScopeOf(app, db.rows, k) == Some(ctx.scope))
          && (k in db'.rows && !SameAt(db.rows, db'.rows, k) ==>
                RelationsOk(app, ConfigOf(app, k), db'.rows, db'.rows[k], ctx)))
  }

  /** A transaction under `ctx` leaves a key alone or writes it; nothing changes untracked. */
  ghost predicate Effect(app: App, db: Db, db': Db, ctx: Context) {
    forall k :: Same(db, db', k) || (Registered(app, k) && Written(app, db, db', k, ctx))
  }

  // ---------------------------------------------------------------------------------------------
  // Appending and recording
  // ---------------------------------------------------------------------------------------------

  lemma AppendKeepsHistory(app: App, db: Db, k: Key, row: Row, action: string, before: Option<Snapshot>,
                           after: Option<Snapshot>, ctx: Context, now: int)
    requires Registered(app, k) && HistoryEndsAt(app, db, k, before)
    requires AppendEvent(app, db, k, row, action, before, after, ctx, now).Ok?
    ensures var d := AppendEvent(app, db, k, row, action, before, after, ctx, now).value;
      && HistoryEndsAt(app, d, k, after)
      && d.rows == db.rows
      && (forall j :: j != k ==> SameAt(db.resources, d.resources, j) && SameAt(db.events, d.events, j))
      && k in d.resources && k in d.events && |d.events[k]| == |EventsOf(db, k)| + 1
      && d.events[k][..|EventsOf(db, k)|] == EventsOf(db, k)
      && Some(d.resources[k].scope) == Field(row, ConfigOf(app, k).scopeField)
      && (k in db.resources ==> d.resources[k].scope == db.resources[k].scope)
      && var e := d.events[k][|d.events[k]| - 1].body;
         e.before == before && e.after == after && e.action == action && e.actor == ctx.actor
         && e.reason == ctx.reason && e.requestId == ctx.requestId
  {
    var d := AppendEvent(app, db, k, row, action, before, after, ctx, now).value;
    var events := EventsOf(db, k);
    var scope := Identity(Field(row, ConfigOf(app, k).scopeField)).value;
    var head := if k in db.resources then db.resources[k] else Resource(scope, 0, "");
    assert Accepts(app.hash, k, head, events);
    AppendAccepted(app.hash, k, head, events, d.events[k][|events|].body);
    assert Continuous(d.events[k]) by {
      forall i | 0 < i < |d.events[k]| ensures d.events[k][i].body.before == d.events[k][i - 1].body.after {
        assert i < |events| ==> events[i].body.before == events[i - 1].body.after;
      }
    }
  }

  ghost function Expected(app: App, db: Db, keys: seq<Key>, before: map<Key, Option<Snapshot>>, k: Key): Option<Snapshot>
    requires Registered(app, k)
  {
    if k !in keys then LiveSnapshot(app, db, k) else if k in before then before[k] else None
  }

  /** Rows have been written but not yet recorded: each history still ends at the old snapshot. */
  ghost predicate Pending(app: App, db: Db, keys: seq<Key>, before: map<Key, Option<Snapshot>>) {
    forall k | Registered(app, k) :: HistoryEndsAt(app, db, k, Expected(app, db, keys, before, k))
  }

  ghost predicate Recorded(app: App, db: Db, d: Db, k: Key, prior: Option<Snapshot>, after: Option<Snapshot>, ctx: Context)
    requires Registered(app, k)
  {
    && k in d.resources && k in d.events && |d.events[k]| == |EventsOf(db, k)| + 1
    && d.events[k][..|EventsOf(db, k)|] == EventsOf(db, k)
    && k in db.rows && Some(d.resources[k].scope) == ScopeOf(app, db.rows, k)
    && (k in db.resources ==> d.resources[k].scope == db.resources[k].scope)
    && var e := d.events[k][|d.events[k]| - 1].body;
       e.before == prior && e.after == after && e.actor == ctx.actor
       && e.reason == ctx.reason && e.requestId == ctx.requestId
  }

  ghost function Prior(before: map<Key, Option<Snapshot>>, k: Key): Option<Snapshot> {
    if k in before then before[k] else None
  }

  lemma PendingShrinks(app: App, db: Db, d: Db, keys: seq<Key>, before: map<Key, Option<Snapshot>>)
    requires keys != [] && Distinct(keys) && Registered(app, keys[0]) && d.rows == db.rows
    requires Pending(app, db, keys, before) && HistoryEndsAt(app, d, keys[0], LiveSnapshot(app, d, keys[0]))
    requires OthersKept(db, d, [keys[0]])
    ensures Pending(app, d, keys[1..], before)
  {
    var key, rest := keys[0], keys[1..];
    assert key !in rest;
    forall k | Registered(app, k) ensures HistoryEndsAt(app, d, k, Expected(app, d, rest, before, k)) {
      assert HistoryEndsAt(app, db, k, Expected(app, db, keys, before, k));
      assert k in keys <==> k == key || k in rest;
      assert k != key ==> k !in [key];
    }
  }

  /** One turn of the recording loop. */
  lemma RecordOne(app: App, db: Db, keys: seq<Key>, before: map<Key, Option<Snapshot>>, action: string, ctx: Context, now: int)
    requires keys != [] && Distinct(keys) && Registered(app, keys[0]) && keys[0] in db.rows
    requires Pending(app, db, keys, before)
    requires AppendEvent(app, db, keys[0], db.rows[keys[0]], action, Prior(before, keys[0]), LiveSnapshot(app, db, keys[0]), ctx, now).Ok?
    ensures var d := AppendEvent(app, db, keys[0], db.rows[keys[0]], action, Prior(before, keys[0]), LiveSnapshot(app, db, keys[0]), ctx, now).value;
      && Pending(app, d, keys[1..], before)
      && d.rows == db.rows
      && Recorded(app, db, d, keys[0], Prior(before, keys[0]), LiveSnapshot(app, db, keys[0]), ctx)
      && OthersKept(db, d, [keys[0]])
  {
    var key := keys[0];
    var d := AppendEvent(app, db, key, db.rows[key], action, Prior(before, key), LiveSnapshot(app, db, key), ctx, now).value;
    assert HistoryEndsAt(app, db, key, Expected(app, db, keys, before, key));
    AppendKeepsHistory(app, db, key, db.rows[key], action, Prior(before, key), LiveSnapshot(app, db, key), ctx, now);
    PendingShrinks(app, db, d, keys, before);
  }

  ghost predicate AllRecorded(app: App, db: Db, d: Db, keys: seq<Key>, before: map<Key, Option<Snapshot>>, ctx: Context) {
    forall k :: k in keys ==> RecordedOk(app, db, d, k, Prior(before, k), ctx)
  }

  ghost predicate RecordedOk(app: App, db: Db, d: Db, k: Key, prior: Option<Snapshot>, ctx: Context) {
    && Registered(app, k)
    && Recorded(app, db, d, k, prior, LiveSnapshot(app, db, k), ctx)
    && CheckRow(app, db, k, db.rows[k], ctx).None?
  }

  ghost predicate OthersKept(db: Db, d: Db, keys: seq<Key>) {
    forall k :: k !in keys ==> SameAt(db.resources, d.resources, k) && SameAt(db.events, d.events, k)
  }

  /** A key recorded now and left alone afterwards, or left alone now and recorded afterwards. */
  lemma MergeRecorded(app: App, db: Db, next: Db, d: Db, keys: seq<Key>, before: map<Key, Option<Snapshot>>, ctx: Context)
    requires keys != [] && Distinct(keys) && next.rows == db.rows
    requires RecordedOk(app, db, next, keys[0], Prior(before, keys[0]), ctx) && OthersKept(db, next, [keys[0]])
    requires AllRecorded(app, next, d, keys[1..], before, ctx) && OthersKept(next, d, keys[1..])
    ensures AllRecorded(app, db, d, keys, before, ctx) && OthersKept(db, d, keys)
  {
    var key, rest := keys[0], keys[1..];
    assert key !in rest;
    forall k | k in keys ensures RecordedOk(app, db, d, k, Prior(before, k), ctx) {
      if k == key {
        assert SameAt(next.resources, d.resources, key) && SameAt(next.events, d.events, key);
      } else {
        assert k in rest && k !in [key];
        assert RecordedOk(app, next, d, k, Prior(before, k), ctx);
        assert SameAt(db.resources, next.resources, k) && SameAt(db.events, next.events, k);
        assert CheckRow(app, next, k, next.rows[k], ctx) == CheckRow(app, db, k, db.rows[k], ctx);
      }
    }
    forall k | k !in keys ensures SameAt(db.resources, d.resources, k) && SameAt(db.events, d.events, k) {
      assert k !in rest && k !in [key];
      assert SameAt(db.resources, next.resources, k) && SameAt(next.resources, d.resources, k);
    }
  }

  lemma {:induction false} RecordAllCompletes(app: App, db: Db, keys: seq<Key>, before: map<Key, Option<Snapshot>>,
                                              action: string, ctx: Context, clock: Key -> int)
    requires Distinct(keys) && forall k :: k in keys ==> Registered(app, k)
    requires Pending(app, db, keys, before)
    requires RecordAll(app, db, keys, before, action, ctx, clock).Ok?
    ensures var d := RecordAll(app, db, keys, before, action, ctx, clock).value;
      d.rows == db.rows && Pending(app, d, [], map[]) && OthersKept(db, d, keys) && AllRecorded(app, db, d, keys, before, ctx)
    decreases |keys|
  {
    if keys == [] {
      forall k | Registered(app, k) ensures HistoryEndsAt(app, db, k, Expected(app, db, [], map[], k)) {
        assert HistoryEndsAt(app, db, k, Expected(app, db, keys, before, k));
      }
    } else {
      var key, rest := keys[0], keys[1..];
      var next := AppendEvent(app, db, key, db.rows[key], action, Prior(before, key), LiveSnapshot(app, db, key), ctx, clock(key)).value;
      RecordOne(app, db, keys, before, action, ctx, clock(key));
      RecordAllCompletes(app, next, rest, before, action, ctx, clock);
      var d := RecordAll(app, next, rest, before, action, ctx, clock).value;
      MergeRecorded(app, db, next, d, keys, before, ctx);
    }
  }

  lemma NativeWritesPending(app: App, db: Db, w: Db, keys: seq<Key>, before: map<Key, Option<Snapshot>>)
    requires Consistent(app, db)
    requires w.resources == db.resources && w.events == db.events
    requires forall k :: k !in keys ==> SameAt(db.rows, w.rows, k)
    requires forall k :: k in keys ==> Registered(app, k) && Prior(before, k) == LiveSnapshot(app, db, k)
    ensures Pending(app, w, keys, before)
  {
    forall k | Registered(app, k) ensures HistoryEndsAt(app, w, k, Expected(app, w, keys, before, k)) {
      assert HistoryEndsAt(app, db, k, LiveSnapshot(app, db, k));
      if k in keys {
        assert Prior(before, k) == LiveSnapshot(app, db, k);
      } else {
        assert SameAt(db.rows, w.rows, k);
      }
    }
  }

  lemma RecordedIsWritten(app: App, db: Db, w: Db, d: Db, k: Key, prior: Option<Snapshot>, ctx: Context)
    requires w.resources == db.resources && w.events == db.events && d.rows == w.rows
    requires RecordedOk(app, w, d, k, prior, ctx) && prior == LiveSnapshot(app, db, k)
    requires Enforced(app, k.model) && k in db.rows ==> ScopeOf(app, db.rows, k) == Some(ctx.scope)
    requires CheckRow(app, d, k, d.rows[k], ctx).None?
    ensures Written(app, db, d, k, ctx)
  {
    var n := |EventsOf(db, k)|;
    assert d.events[k] == d.events[k][..n] + [d.events[k][n]];
  }

  /** Native rows written for `keys` only, then recorded: what every write but delete comes down to. */
  lemma RecordedWrites(app: App, db: Db, w: Db, keys: seq<Key>, before: map<Key, Option<Snapshot>>, action: string,
                       ctx: Context, clock: Key -> int)
    requires Consistent(app, db)
    requires Distinct(keys) && forall k :: k in keys ==> Registered(app, k)
    requires w.resources == db.resources && w.events == db.events
    requires forall k :: k !in keys ==> SameAt(db.rows, w.rows, k)
    requires forall k :: k in keys ==> Prior(before, k) == LiveSnapshot(app, db, k)
    requires forall k :: k in keys && Enforced(app, k.model) && k in db.rows ==> ScopeOf(app, db.rows, k) == Some(ctx.scope)
    requires RecordAll(app, w, keys, before, action, ctx, clock).Ok?
    ensures var d := RecordAll(app, w, keys, before, action, ctx, clock).value;
      Consistent(app, d) && Effect(app, db, d, ctx)
  {
    NativeWritesPending(app, db, w, keys, before);
    RecordAllCompletes(app, w, keys, before, action, ctx, clock);
    var d := RecordAll(app, w, keys, before, action, ctx, clock).value;
    forall k ensures if k in keys then Written(app, db, d, k, ctx) else Same(db, d, k) {
      if k in keys {
        assert RecordedOk(app, w, d, k, Prior(before, k), ctx);
        assert CheckRow(app, d, k, d.rows[k], ctx) == CheckRow(app, w, k, w.rows[k], ctx);
        RecordedIsWritten(app, db, w, d, k, Prior(before, k), ctx);
      } else {
        assert SameAt(db.rows, w.rows, k) && SameAt(w.resources, d.resources, k);
      }
    }
    forall k | Registered(app, k)
      ensures HistoryEndsAt(app, d, k, LiveSnapshot(app, d, k)) && ScopeRecorded(app, d, k)
    {
      assert HistoryEndsAt(app, d, k, Expected(app, d, [], map[], k));
      assert ScopeRecorded(app, db, k);
      if k in keys {
        assert RecordedOk(app, w, d, k, Prior(before, k), ctx);
      } else {
        assert Same(db, d, k);
      }
    }
  }

  // ---------------------------------------------------------------------------------------------
  // Each operation
  // ---------------------------------------------------------------------------------------------

  ghost predicate Good(app: App, db: Db, outcome: Outcome, ctx: Context) {
    outcome.Ok? ==> Consistent(app, outcome.value) && Effect(app, db, outcome.value, ctx)
  }

  lemma {:induction false} SaveGood(app: App, db: Db, key: Key, inst: Row, persist: Option<Row> -> Row, override: Option<string>,
                 ctx: Context, now: int)
    requires Consistent(app, db) && Registered(app, key)
    ensures Good(app, db, Save(app, db, key, inst, persist, override, ctx, now), ctx)
  {
    var outcome := Save(app, db, key, inst, persist, override, ctx, now);
    if outcome.Ok? {
      var old' := LoadRow(db, key);
      var w := db.(rows := db.rows[key := persist(old')]);
      var before := map[key := SnapshotOf(app, key, old')];
      var action := if override.Some? then override.value else if old'.None? then "create" else "update";
      var step := AppendEvent(app, w, key, w.rows[key], action, before[key], LiveSnapshot(app, w, key), ctx, now);
      assert RecordAll(app, step.value, [key][1..], before, action, ctx, k => now) == step;
      assert RecordAll(app, w, [key], before, action, ctx, k => now) == step == outcome;
      RecordedWrites(app, db, w, [key], before, action, ctx, k => now);
    }
  }

  lemma WriteFieldsShape(db: Db, keys: seq<Key>, names: set<string>, assign: (Key, Row) -> Row)
    ensures var w := WriteFields(db, keys, names, assign);
      w.resources == db.resources && w.events == db.events && forall k :: k !in keys ==> SameAt(db.rows, w.rows, k)
  {
  }

  lemma SnapshotsArePrior(app: App, db: Db, keys: seq<Key>)
    requires forall k :: k in keys ==> Registered(app, k)
    ensures forall k :: k in keys ==> Prior(Snapshots(app, db, keys), k) == LiveSnapshot(app, db, k)
  {
  }

  lemma WriteKeysGood(app: App, db: Db, keys: seq<Key>, names: set<string>, assign: (Key, Row) -> Row, action: string,
                      ctx: Context, clock: Key -> int)
    requires Consistent(app, db) && Distinct(keys) && forall k :: k in keys ==> Registered(app, k)
    requires forall k :: k in keys && Enforced(app, k.model) && k in db.rows ==> ScopeOf(app, db.rows, k) == Some(ctx.scope)
    ensures Good(app, db, RecordAll(app, WriteFields(db, keys, names, assign), keys, Snapshots(app, db, keys), action, ctx, clock), ctx)
  {
    WriteFieldsShape(db, keys, names, assign);
    SnapshotsArePrior(app, db, keys);
    if RecordAll(app, WriteFields(db, keys, names, assign), keys, Snapshots(app, db, keys), action, ctx, clock).Ok? {
      RecordedWrites(app, db, WriteFields(db, keys, names, assign), keys, Snapshots(app, db, keys), action, ctx, clock);
    }
  }

  lemma {:induction false} WriteFieldsGood(app: App, db: Db, model: string, matching: seq<Key>, names: set<string>,
                        assign: (Key, Row) -> Row, action: string, ctx: Context, clock: Key -> int)
    requires Consistent(app, db) && model in app.schema && app.schema[model].scopeField !in names
    requires forall k :: k in matching ==> k.model == model
    ensures var keys := Dedup(Select(app, db, matching, ctx));
      Good(app, db, RecordAll(app, WriteFields(db, keys, names, assign), keys, Snapshots(app, db, keys), action, ctx, clock), ctx)
  {
    WriteKeysGood(app, db, Dedup(Select(app, db, matching, ctx)), names, assign, action, ctx, clock);
  }

  lemma {:induction false} InsertShape(db: Db, objs: seq<(Key, Row)>, store: Row -> Row)
    ensures var d := Insert(db, objs, store);
      && d.resources == db.resources && d.events == db.events
      && forall k :: k !in Keys(objs) ==> SameAt(db.rows, d.rows, k)
    decreases |objs|
  {
    if objs != [] {
      var next := db.(rows := db.rows[objs[0].0 := store(objs[0].1)]);
      InsertShape(next, objs[1..], store);
      var d := Insert(db, objs, store);
      assert Keys(objs)[0] == objs[0].0 && Keys(objs)[1..] == Keys(objs[1..]);
      forall k | k !in Keys(objs) ensures SameAt(db.rows, d.rows, k) {
        assert SameAt(next.rows, d.rows, k);
      }
    }
  }

  lemma BulkCreateGood(app: App, db: Db, objs: seq<(Key, Row)>, store: Row -> Row, ctx: Context, clock: Key -> int)
    requires Consistent(app, db) && forall o :: o in objs ==> Registered(app, o.0)
    ensures Good(app, db, BulkCreate(app, db, objs, store, ctx, clock), ctx)
  {
    if BulkCreate(app, db, objs, store, ctx, clock).Ok? {
      InsertShape(db, objs, store);
      RecordedWrites(app, db, Insert(db, objs, store), Keys(objs), map[], "create", ctx, clock);
    }
  }

  ghost predicate DeleteRecorded(app: App, db: Db, d: Db, k: Key, ctx: Context) {
    && Registered(app, k)
    && (k !in db.rows ==> SameAt(db.resources, d.resources, k) && SameAt(db.events, d.events, k))
    && (k in db.rows ==>
          && Recorded(app, db, d, k, LiveSnapshot(app, db, k), None, ctx)
          && CheckScope(ConfigOf(app, k), db.rows[k], ctx).Ok?
          && HistoryEndsAt(app, d, k, None))
  }

  lemma {:induction false} RecordDeletesComplete(app: App, db: Db, keys: seq<Key>, ctx: Context, clock: Key -> int)
    requires Distinct(keys) && forall k :: k in keys ==> Registered(app, k)
    requires forall k :: k in keys ==> HistoryEndsAt(app, db, k, LiveSnapshot(app, db, k))
    requires RecordDeletes(app, db, keys, ctx, clock).Ok?
    ensures var d := RecordDeletes(app, db, keys, ctx, clock).value;
      d.rows == db.rows && OthersKept(db, d, keys) && forall k :: k in keys ==> DeleteRecorded(app, db, d, k, ctx)
    decreases |keys|
  {
    if keys != [] {
      var key, rest := keys[0], keys[1..];
      var d := RecordDeletes(app, db, keys, ctx, clock).value;
      assert key !in rest;
      var next := db;
      if key in db.rows {
        next := AppendEvent(app, db, key, db.rows[key], "delete", LiveSnapshot(app, db, key), None, ctx, clock(key)).value;
        AppendKeepsHistory(app, db, key, db.rows[key], "delete", LiveSnapshot(app, db, key), None, ctx, clock(key));
      }
      forall k | k in rest ensures HistoryEndsAt(app, next, k, LiveSnapshot(app, next, k)) {
        assert HistoryEndsAt(app, db, k, LiveSnapshot(app, db, k));
      }
      RecordDeletesComplete(app, next, rest, ctx, clock);
      assert SameAt(next.resources, d.resources, key) && SameAt(next.events, d.events, key);
      forall k | k in keys ensures DeleteRecorded(app, db, d, k, ctx) {
        if k != key {
          assert DeleteRecorded(app, next, d, k, ctx);
        }
      }
      forall k | k !in keys ensures SameAt(db.resources, d.resources, k) && SameAt(db.events, d.events, k) {
        assert SameAt(next.resources, d.resources, k) && SameAt(next.events, d.events, k);
      }
    }
  }

  lemma DeleteGood(app: App, db: Db, doomed: seq<Key>, ctx: Context, clock: Key -> int)
    requires Consistent(app, db) && forall k :: k in doomed ==> Registered(app, k)
    ensures Good(app, db, Delete(app, db, doomed, ctx, clock), ctx)
  {
    var outcome := Delete(app, db, doomed, ctx, clock);
    if outcome.Ok? {
      var keys := Dedup(doomed);
      forall k | k in keys ensures HistoryEndsAt(app, db, k, LiveSnapshot(app, db, k)) {}
      RecordDeletesComplete(app, db, keys, ctx, clock);
      var r := RecordDeletes(app, db, keys, ctx, clock).value;
      var d := outcome.value;
      forall k ensures Same(db, d, k) || (Registered(app, k) && Written(app, db, d, k, ctx)) {
        if k in keys && k in db.rows {
          assert DeleteRecorded(app, db, r, k, ctx);
          var n := |EventsOf(db, k)|;
          assert d.events[k] == d.events[k][..n] + [d.events[k][n]];
        } else if k in keys {
          assert DeleteRecorded(app, db, r, k, ctx);
        } else {
          assert SameAt(db.resources, r.resources, k);
        }
      }
      forall k | Registered(app, k)
        ensures HistoryEndsAt(app, d, k, LiveSnapshot(app, d, k)) && ScopeRecorded(app, d, k)
      {
        assert HistoryEndsAt(app, db, k, LiveSnapshot(app, db, k)) && ScopeRecorded(app, db, k);
        if k in keys {
          assert DeleteRecorded(app, db, r, k, ctx);
        } else {
          assert SameAt(db.resources, r.resources, k);
        }
      }
    }
  }

  lemma BaselineGood(app: App, db: Db, key: Key, ctx: Context, now: int)
    requires Consistent(app, db) && Registered(app, key)
    ensures Good(app, db, Baseline(app, db, key, ctx, now), ctx)
  {
    var outcome := Baseline(app, db, key, ctx, now);
    if outcome.Ok? && outcome.value != db {
      var d := outcome.value;
      assert HistoryEndsAt(app, db, key, LiveSnapshot(app, db, key));
      assert key !in db.resources;
      AppendKeepsHistory(app, db, key, db.rows[key], "baseline", None, LiveSnapshot(app, db, key), ctx, now);
      assert d.events[key] == EventsOf(db, key) + [d.events[key][0]];
      forall k ensures k == key || Same(db, d, k) {}
      assert Written(app, db, d, key, ctx);
      forall k | Registered(app, k)
        ensures HistoryEndsAt(app, d, k, LiveSnapshot(app, d, k)) && ScopeRecorded(app, d, k)
      {
        assert HistoryEndsAt(app, db, k, LiveSnapshot(app, db, k)) && ScopeRecorded(app, db, k);
        assert k == key || Same(db, d, k);
      }
    }
  }

  lemma TransactGood(app: App, db: Db, op: Op, context: Option<Context>, clock: Key -> int)
    requires Consistent(app, db)
    ensures Transact(app, db, op, context, clock).Ok? ==>
      context.Some? && Good(app, db, Transact(app, db, op, context, clock), context.value)
  {
    var outcome := Transact(app, db, op, context, clock);
    if outcome.Ok? {
      var ctx := context.value;
      match op
      case SaveOp(key, inst, persist) => SaveGood(app, db, key, inst, persist, None, ctx, clock(key));
      case UpdateOp(model, matching, names, assign) =>
        if names != {} {
          WriteFieldsGood(app, db, model, matching, names, assign, "update", ctx, clock);
        }
      case BulkCreateOp(objs, store) => BulkCreateGood(app, db, objs, store, ctx, clock);
      case BulkUpdateOp(model, rows, keys, matching, names) =>
        WriteFieldsGood(app, db, model, matching, names, Given(rows), "update", ctx, clock);
      case DeleteOp(doomed) => DeleteGood(app, db, doomed, ctx, clock);
      case BaselineOp(key) => BaselineGood(app, db, key, ctx, clock(key));
      case RestoreOp(key, revision, expected) =>
        var target := RestoreTarget(app, db, key, revision, expected, ctx).value;
        var inst := RestoredRow(app, ConfigOf(app, key), db.rows[key], target);
        SaveGood(app, db, key, inst, old' => inst, Some("restore"), ctx, clock(key));
    }
  }

  // ---------------------------------------------------------------------------------------------
  // Over every run
  // ---------------------------------------------------------------------------------------------

  lemma ReferencesStayInScope(app: App, db: Db, d: Db, ctx: Context)
    requires Invariant(app, db) && Effect(app, db, d, ctx)
    ensures NoCrossReferences(app, d.rows)
  {
    forall k, name | k in d.rows && Enforced(app, k.model) && name in ConfigOf(app, k).relations
      ensures SameScopeReference(app, d.rows, k, name)
    {
      var config := ConfigOf(app, k);
      var model := config.relations[name];
      var value := Field(d.rows[k], name);
      if Enforced(app, model) && value.Some? && Key(model, value.value) in d.rows {
        var target := Key(model, value.value);
        if SameAt(db.rows, d.rows, k) {
          assert target in db.rows;
          assert SameScopeReference(app, db.rows, k, name);
          assert ScopeRecorded(app, db, target);
          assert Same(db, d, target) || Written(app, db, d, target, ctx);
        } else {
          assert Written(app, db, d, k, ctx);
          assert RelationOk(app, config, d.rows, d.rows[k], name, ctx);
        }
      }
    }
  }

  /** Each committed transaction keeps the invariant and has the effect of its context. */
  lemma {:induction false} TransactKeepsInvariant(app: App, db: Db, op: Op, context: Option<Context>, clock: Key -> int)
    requires Invariant(app, db)
    ensures Transact(app, db, op, context, clock).Ok? ==>
      var d := Transact(app, db, op, context, clock).value;
      context.Some? && Invariant(app, d) && Effect(app, db, d, context.value)
  {
    TransactGood(app, db, op, context, clock);
    var outcome := Transact(app, db, op, context, clock);
    if outcome.Ok? {
      ReferencesStayInScope(app, db, outcome.value, context.value);
    }
  }

  /** After any run, successful and failed requests mixed: every history verifies, its revision
      counts its events, each event starts where the last one ended, and the last one ends at the
      live row (at None once the row is gone); no foreign key crosses scopes. */
  lemma {:induction false} RunKeepsInvariant(app: App, db: Db, requests: seq<Request>)
    requires Invariant(app, db)
    ensures Invariant(app, Run(app, db, requests))
    decreases |requests|
  {
    if requests != [] {
      var r := requests[0];
      TransactKeepsInvariant(app, db, r.op, r.context, r.clock);
      var outcome := Transact(app, db, r.op, r.context, r.clock);
      RunKeepsInvariant(app, if outcome.Ok? then outcome.value else db, requests[1..]);
    }
  }

  /** The scope a key belongs to: that of its history if it ever had one, else of its row. */
  function KnownScope(app: App, db: Db, k: Key): Value
    requires Registered(app, k)
  {
    if k in db.resources then Some(db.resources[k].scope)
    else if k in db.rows then ScopeOf(app, db.rows, k)
    else None
  }

  /** What one tenant's request may do to a key of an enforced model that is already known. */
  lemma {:induction false} TransactIsolates(app: App, db: Db, op: Op, context: Option<Context>, clock: Key -> int, k: Key)
    requires Invariant(app, db) && Enforced(app, k.model) && KnownScope(app, db, k).Some?
    requires Transact(app, db, op, context, clock).Ok?
    ensures var d := Transact(app, db, op, context, clock).value;
      && KnownScope(app, d, k) == KnownScope(app, db, k)
      && EventsOf(db, k) <= EventsOf(d, k)
      && (KnownScope(app, db, k) != Some(context.value.scope) ==> Same(db, d, k))
  {
    TransactKeepsInvariant(app, db, op, context, clock);
    var d := Transact(app, db, op, context, clock).value;
    assert HistoryEndsAt(app, db, k, LiveSnapshot(app, db, k));
    assert Same(db, d, k) || Written(app, db, d, k, context.value);
  }

  /** No run moves a known row to another scope, not even by deleting it and creating it again under
      the same key, and its past events are never rewritten. */
  lemma {:induction false} ScopeNeverChanges(app: App, db: Db, requests: seq<Request>, k: Key)
    requires Invariant(app, db) && Enforced(app, k.model) && KnownScope(app, db, k).Some?
    ensures var d := Run(app, db, requests);
      && KnownScope(app, d, k) == KnownScope(app, db, k)
      && EventsOf(db, k) <= EventsOf(d, k)
      && (k in d.rows ==> ScopeOf(app, d.rows, k) == KnownScope(app, db, k))
    decreases |requests|
  {
    if requests == [] {
      assert ScopeRecorded(app, db, k);
    } else {
      var r := requests[0];
      var outcome := Transact(app, db, r.op, r.context, r.clock);
      if outcome.Ok? {
        TransactKeepsInvariant(app, db, r.op, r.context, r.clock);
        TransactIsolates(app, db, r.op, r.context, r.clock, k);
      }
      ScopeNeverChanges(app, if outcome.Ok? then outcome.value else db, requests[1..], k);
    }
  }

  /** Requests under other scopes, however many, leave a tenant's rows and histories untouched. */
  lemma {:induction false} OtherTenantsUntouched(app: App, db: Db, requests: seq<Request>, k: Key, scope: string)
    requires Invariant(app, db) && Enforced(app, k.model) && KnownScope(app, db, k) == Some(scope)
    requires forall r :: r in requests && r.context.Some? ==> r.context.value.scope != scope
    ensures Same(db, Run(app, db, requests), k)
    decreases |requests|
  {
    if requests != [] {
      var r := requests[0];
      assert r in requests;
      var outcome := Transact(app, db, r.op, r.context, r.clock);
      TransactKeepsInvariant(app, db, r.op, r.context, r.clock);
      if outcome.Ok? {
        TransactIsolates(app, db, r.op, r.context, r.clock, k);
      }
      OtherTenantsUntouched(app, if outcome.Ok? then outcome.value else db, requests[1..], k, scope);
    }
  }

  /** A row without history after a run was never written by it. */
  lemma {:induction false} NoHistoryMeansNoWrite(app: App, db: Db, requests: seq<Request>, k: Key)
    requires Invariant(app, db)
    ensures k !in Run(app, db, requests).resources ==> Same(db, Run(app, db, requests), k)
    decreases |requests|
  {
    if requests != [] {
      var r := requests[0];
      var outcome := Transact(app, db, r.op, r.context, r.clock);
      TransactKeepsInvariant(app, db, r.op, r.context, r.clock);
      var next := if outcome.Ok? then outcome.value else db;
      NoHistoryMeansNoWrite(app, next, requests[1..], k);
      if outcome.Ok? && !Same(db, next, k) {
        assert Written(app, db, next, k, r.context.value);
        HistoryStays(app, next, requests[1..], k);
      }
    }
  }

  lemma {:induction false} HistoryStays(app: App, db: Db, requests: seq<Request>, k: Key)
    requires Invariant(app, db) && k in db.resources
    ensures k in Run(app, db, requests).resources
    decreases |requests|
  {
    if requests != [] {
      var r := requests[0];
      var outcome := Transact(app, db, r.op, r.context, r.clock);
      TransactKeepsInvariant(app, db, r.op, r.context, r.clock);
      var next := if outcome.Ok? then outcome.value else db;
      assert Same(db, next, k) || Written(app, db, next, k, r.context.value);
      HistoryStays(app, next, requests[1..], k);
    }
  }

  /** From adoption on: existing tables with sound references, no history yet, then any run.  Each
      key either was never written, or has a verifying, continuous history that ends at its row. */
  lemma AdoptedTablesStayAccounted(app: App, rows: map<Key, Row>, requests: seq<Request>, k: Key)
    requires ForeignKeysHold(app, rows) && NoCrossReferences(app, rows) && Registered(app, k)
    ensures var d := Run(app, Db(rows, map[], map[]), requests);
      if k !in d.resources then SameAt(rows, d.rows, k)
      else
        && VerifiedHistory(app, d, k)
        && d.resources[k].revision == |EventsOf(d, k)| > 0
        && Continuous(EventsOf(d, k))
        && EventsOf(d, k)[|EventsOf(d, k)| - 1].body.after == LiveSnapshot(app, d, k)
  {
    var db := Db(rows, map[], map[]);
    assert Invariant(app, db);
    RunKeepsInvariant(app, db, requests);
    NoHistoryMeansNoWrite(app, db, requests, k);
    var d := Run(app, db, requests);
    assert HistoryEndsAt(app, d, k, LiveSnapshot(app, d, k));
  }
}
