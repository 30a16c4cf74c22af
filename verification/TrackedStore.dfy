/**
 The same operations as methods over stored tables, in the order `pyscoped` performs their reads
 and writes, each proved to settle exactly as its transaction function says: the whole effect, or
 an error and the tables as they were.
 */
module TrackedStore {
  import opened Wrappers
  import opened Contexts
  import opened EventChain
  import opened TrackedWrites

  type Status = Result<(), Error>

  datatype BackfillResult = BackfillResult(examined: nat, pending: nat, created: nat, skipped: nat, dryRun: bool)

  /** `backfill` with apply: one transaction per row, stopping at the first error. */
  function BackfillAll(app: App, db: Db, keys: seq<Key>, ctx: Context, clock: Key -> int): Outcome
    requires forall k :: k in keys ==> Registered(app, k)
    decreases |keys|
  {
    if keys == [] then Ok(db)
    else
      var step := Baseline(app, db, keys[0], ctx, clock(keys[0]));
      if step.Err? then step else BackfillAll(app, step.value, keys[1..], ctx, clock)
  }

  predicate NeedsBaseline(db: Db, key: Key) {
    key in db.rows && !(key in db.resources && db.resources[key].revision > 0)
  }

  function CountPending(db: Db, keys: seq<Key>): nat {
    if keys == [] then 0
    else CountPending(db, keys[..|keys| - 1]) + if NeedsBaseline(db, keys[|keys| - 1]) then 1 else 0
  }

  class Store {
    const app: App
    var rows: map<Key, Row>
    var resources: map<Key, Resource>
    var events: map<Key, seq<Event>>

    constructor (app: App, rows: map<Key, Row>)
      ensures this.app == app && Current() == Db(rows, map[], map[])
    {
      this.app, this.rows, this.resources, this.events := app, rows, map[], map[];
    }

    function Current(): Db
      reads this
    {
      Db(rows, resources, events)
    }

    ghost predicate Settled(before: Db, outcome: Outcome, r: Status)
      reads this
    {
      match outcome
      case Ok(d) => r == Ok(()) && Current() == d
      case Err(e) => r == Err(e) && Current() == before
    }

    /** Leave the transaction: roll everything back on an error or a violated foreign key. */
    method Finish(saved: Db, status: Status) returns (r: Status)
      modifies this
      ensures Settled(saved, Commit(app, if status.Ok? then Ok(old(Current())) else Err(status.error)), r)
    {
      r := if status.Err? then Err(status.error) else if !ForeignKeysHold(app, rows) then Err(IntegrityError) else Ok(());
      if r.Err? {
        rows, resources, events := saved.rows, saved.resources, saved.events;
      }
    }

    method Append(key: Key, row: Row, action: string, before: Option<Snapshot>, after: Option<Snapshot>, ctx: Context, now: int)
      returns (r: Status)
      requires Registered(app, key)
      modifies this`resources, this`events
      ensures Settled(old(Current()), AppendEvent(app, old(Current()), key, row, action, before, after, ctx, now), r)
    {
      var scope := Identity(Field(row, app.schema[key.model].scopeField));
      if scope.Err? {
        return Err(scope.error);
      }
      var resource := if key in resources then resources[key] else Resource(scope.value, 0, "");
      if resource.scope != scope.value {
        return Err(ScopeViolation);
      }
      var body := Body(resource.revision + 1, scope.value, ctx.actor, action, before, after, now,
                       ctx.reason, ctx.requestId, resource.digest);
      var digest := app.hash(key, body);
      events := events[key := (if key in events then events[key] else []) + [Event(body, digest)]];
      resources := resources[key := Resource(resource.scope, body.revision, digest)];
      return Ok(());
    }

    /** The loop of `_record_bulk`. */
    method RecordBulk(keys: seq<Key>, before: map<Key, Option<Snapshot>>, action: string, ctx: Context, clock: Key -> int)
      returns (r: Status)
      requires forall k :: k in keys ==> Registered(app, k)
      modifies this`resources, this`events
      ensures var outcome := RecordAll(app, old(Current()), keys, before, action, ctx, clock);
        if outcome.Ok? then r == Ok(()) && Current() == outcome.value else r == Err(outcome.error)
    {
      for i := 0 to |keys|
        invariant RecordAll(app, old(Current()), keys, before, action, ctx, clock)
               == RecordAll(app, Current(), keys[i..], before, action, ctx, clock)
      {
        var key := keys[i];
        assert keys[i..][0] == key && keys[i..][1..] == keys[i + 1..];
        if key !in rows {
          return Err(UnsupportedOperation);
        }
        var failed := CheckRow(app, Current(), key, rows[key], ctx);
        if failed.Some? {
          return Err(failed.value);
        }
        var prior := if key in before then before[key] else None;
        var status := Append(key, rows[key], action, prior, LiveSnapshot(app, Current(), key), ctx, clock(key));
        if status.Err? {
          return status;
        }
      }
      return Ok(());
    }

    method SaveBase(key: Key, inst: Row, persist: Option<Row> -> Row, override: Option<string>, ctx: Context, now: int)
      returns (r: Status)
      requires Registered(app, key)
      modifies this
      ensures Settled(old(Current()), Commit(app, Save(app, old(Current()), key, inst, persist, override, ctx, now)), r)
    {
      var saved := Current();
      var status := SaveSteps(key, inst, persist, override, ctx, now);
      r := Finish(saved, status);
    }

    /** The body of `save_base`, before the transaction block is left. */
    method SaveSteps(key: Key, inst: Row, persist: Option<Row> -> Row, override: Option<string>, ctx: Context, now: int)
      returns (r: Status)
      requires Registered(app, key)
      modifies this
      ensures var outcome := Save(app, old(Current()), key, inst, persist, override, ctx, now);
        if outcome.Ok? then r == Ok(()) && Current() == outcome.value else r == Err(outcome.error)
    {
      var config := app.schema[key.model];
      var old' := LoadRow(Current(), key);
      if old'.Some? {
        var scope := CheckScope(config, old'.value, ctx);
        if scope.Err? {
          return Err(scope.error);
        }
      }
      var failed := CheckRow(app, Current(), key, inst, ctx);
      if failed.Some? {
        return Err(failed.value);
      }
      if old'.Some? && Field(old'.value, config.scopeField) != Field(inst, config.scopeField) {
        return Err(UnsupportedOperation);
      }
      rows := rows[key := persist(old')];
      failed := CheckRow(app, Current(), key, rows[key], ctx);
      if failed.Some? {
        return Err(failed.value);
      }
      var action := if override.Some? then override.value else if old'.None? then "create" else "update";
      r := Append(key, rows[key], action, SnapshotOf(app, key, old'), LiveSnapshot(app, Current(), key), ctx, now);
    }

    method UpdateRows(model: string, matching: seq<Key>, names: set<string>, assign: (Key, Row) -> Row, ctx: Context,
                      clock: Key -> int)
      returns (r: Status)
      requires Supported(app, UpdateOp(model, matching, names, assign))
      modifies this
      ensures Settled(old(Current()), Commit(app, Update(app, old(Current()), model, matching, names, assign, ctx, clock)), r)
    {
      var saved := Current();
      var status: Status := Ok(());
      if app.schema[model].scopeField in names {
        status := Err(UnsupportedOperation);
      } else if names != {} {
        var keys := Dedup(Select(app, Current(), matching, ctx));
        var before := Snapshots(app, Current(), keys);
        rows := WriteFields(Current(), keys, names, assign).rows;
        status := RecordBulk(keys, before, "update", ctx, clock);
      }
      r := Finish(saved, status);
    }

    method BulkCreateRows(objs: seq<(Key, Row)>, store: Row -> Row, ctx: Context, clock: Key -> int) returns (r: Status)
      requires Supported(app, BulkCreateOp(objs, store))
      modifies this
      ensures Settled(old(Current()), Commit(app, BulkCreate(app, old(Current()), objs, store, ctx, clock)), r)
    {
      hide Settled, Commit, CheckRow, RecordAll, Distinct;
      var saved := Current();
      var status: Status := Ok(());
      var i := 0;
      while i < |objs| && status.Ok?
        invariant 0 <= i <= |objs| && Current() == saved
        invariant status.Ok? ==> CheckAll(app, saved, objs, ctx) == CheckAll(app, saved, objs[i..], ctx)
        invariant status.Err? ==> CheckAll(app, saved, objs, ctx) == Some(status.error)
        decreases |objs| - i, status.Ok?
      {
        assert objs[i..][0] == objs[i] && objs[i..][1..] == objs[i + 1..];
        var failed := CheckRow(app, Current(), objs[i].0, objs[i].1, ctx);
        if failed.Some? {
          status := Err(failed.value);
        } else {
          i := i + 1;
        }
      }
      if status.Ok? {
        var keys := Keys(objs);
        if !Distinct(keys) || exists k :: k in keys && k in rows {
          status := Err(IntegrityError);
        } else {
          rows := Insert(Current(), objs, store).rows;
          InsertKeepsHistory(saved, objs, store);
          status := RecordBulk(keys, map[], "create", ctx, clock);
        }
      }
      r := Finish(saved, status);
    }

    method BulkUpdateRows(model: string, objs: map<Key, Row>, keys: seq<Key>, matching: seq<Key>, names: set<string>,
                          ctx: Context, clock: Key -> int)
      returns (r: Status)
      requires Supported(app, BulkUpdateOp(model, objs, keys, matching, names))
      modifies this
      ensures Settled(old(Current()), Commit(app, BulkUpdate(app, old(Current()), model, objs, keys, matching, names, ctx, clock)), r)
    {
      var saved := Current();
      var status: Status := Ok(());
      if app.schema[model].scopeField in names {
        status := Err(UnsupportedOperation);
      } else if names == {} {
        status := Err(ValueError);
      } else if !Distinct(keys) {
        status := Err(UnsupportedOperation);
      } else {
        var failed := CheckPersisted(app, Current(), keys, ctx);
        if failed.Some? {
          status := Err(failed.value);
        } else {
          var selected := Dedup(Select(app, Current(), matching, ctx));
          var before := Snapshots(app, Current(), selected);
          rows := WriteFields(Current(), selected, names, Given(objs)).rows;
          status := RecordBulk(selected, before, "update", ctx, clock);
        }
      }
      r := Finish(saved, status);
    }

    /** `pre_delete` runs for every gathered instance before the first row is removed. */
    method DeleteRows(doomed: seq<Key>, ctx: Context, clock: Key -> int) returns (r: Status)
      requires Supported(app, DeleteOp(doomed))
      modifies this
      ensures Settled(old(Current()), Commit(app, Delete(app, old(Current()), doomed, ctx, clock)), r)
    {
      hide Commit, AppendEvent, CheckScope, SnapshotOf;
      var saved := Current();
      var keys := Dedup(doomed);
      var status: Status := Ok(());
      var i := 0;
      while i < |keys| && status.Ok?
        invariant 0 <= i <= |keys| && rows == saved.rows
        invariant status.Ok? ==> RecordDeletes(app, saved, keys, ctx, clock) == RecordDeletes(app, Current(), keys[i..], ctx, clock)
        invariant status.Err? ==> RecordDeletes(app, saved, keys, ctx, clock) == Err(status.error)
        decreases |keys| - i, status.Ok?
      {
        var key := keys[i];
        assert keys[i..][0] == key && keys[i..][1..] == keys[i + 1..];
        assert key in keys && Registered(app, key);
        if key in rows {
          var scope := CheckScope(app.schema[key.model], rows[key], ctx);
          if scope.Err? {
            status := Err(scope.error);
          } else {
            status := Append(key, rows[key], "delete", LiveSnapshot(app, Current(), key), None, ctx, clock(key));
          }
        }
        if status.Ok? {
          i := i + 1;
        }
      }
      if status.Ok? {
        rows := map k | k in rows && k !in doomed :: rows[k];
      }
      r := Finish(saved, status);
    }

    /** `verify_history`; reading another tenant's history is refused before anything is revealed. */
    method VerifyHistory(key: Key, ctx: Context) returns (r: Result<Verification, Error>)
      ensures key in resources && resources[key].scope != ctx.scope ==> r == Err(ScopeViolation)
      ensures key !in resources ==> r == Ok(Verification(NoHistory, 0))
      ensures key in resources && resources[key].scope == ctx.scope ==>
        r.Ok? && r.value.events == |EventsOf(Current(), key)| && (r.value.verdict == Valid <==> VerifiedHistory(app, Current(), key))
    {
      if key !in resources {
        return Ok(Verification(NoHistory, 0));
      }
      if resources[key].scope != ctx.scope {
        return Err(ScopeViolation);
      }
      var verification := VerifyEvents(app.hash, key, resources[key], EventsOf(Current(), key));
      return Ok(verification);
    }

    /** One row of a backfill; true if it had no history. */
    method BackfillRow(key: Key, dryRun: bool, ctx: Context, now: int) returns (r: Result<bool, Error>)
      requires Registered(app, key)
      modifies this
      ensures r.Ok? ==> r.value == NeedsBaseline(old(Current()), key)
      ensures forall k | k != key :: NeedsBaseline(Current(), k) == NeedsBaseline(old(Current()), k)
      ensures dryRun || r.Err? ==> Current() == old(Current())
      ensures !dryRun ==> Baseline(app, old(Current()), key, ctx, now) == if r.Ok? then Ok(Current()) else Err(r.error)
    {
      if key !in rows {
        return Ok(false);
      }
      var scope := CheckScope(app.schema[key.model], rows[key], ctx);
      if scope.Err? {
        return Err(scope.error);
      }
      if key in resources && resources[key].revision > 0 {
        return Ok(false);
      }
      if !dryRun {
        var status := Append(key, rows[key], "baseline", None, LiveSnapshot(app, Current(), key), ctx, now);
        if status.Err? {
          return Err(status.error);
        }
      }
      return Ok(true);
    }

    /** `keys` is what the row iterator yields: rows it named may since have gone. */
    method Backfill(keys: seq<Key>, dryRun: bool, ctx: Context, clock: Key -> int) returns (r: Result<BackfillResult, Error>)
      requires forall k :: k in keys ==> Registered(app, k)
      requires Distinct(keys)
      modifies this
      ensures r.Ok? ==>
        && r.value.examined == |keys| && r.value.pending + r.value.skipped == r.value.examined
        && r.value.pending == CountPending(old(Current()), keys)
        && r.value.created == (if dryRun then 0 else r.value.pending) && r.value.dryRun == dryRun
      ensures dryRun ==> Current() == old(Current())
      ensures r.Ok? && !dryRun ==> BackfillAll(app, old(Current()), keys, ctx, clock) == Ok(Current())
      ensures r.Err? && !dryRun ==>
        BackfillAll(app, old(Current()), keys, ctx, clock) == Err(r.error)
        && exists i | 0 <= i < |keys| :: BackfillAll(app, old(Current()), keys[..i], ctx, clock) == Ok(Current())
    {
      ghost var before := Current();
      var examined, pending, created, skipped := 0, 0, 0, 0;
      assert keys[..0] == [] && keys[0..] == keys;
      for i := 0 to |keys|
        invariant examined == i && pending + skipped == i && created == if dryRun then 0 else pending
        invariant pending == CountPending(before, keys[..i])
        invariant dryRun ==> Current() == before
        invariant !dryRun ==> BackfillAll(app, before, keys[..i], ctx, clock) == Ok(Current())
        invariant !dryRun ==> BackfillAll(app, before, keys, ctx, clock) == BackfillAll(app, Current(), keys[i..], ctx, clock)
        invariant forall j | i <= j < |keys| :: NeedsBaseline(Current(), keys[j]) == NeedsBaseline(before, keys[j])
      {
        var key := keys[i];
        assert keys[..i + 1] == keys[..i] + [key] && key in keys;
        assert keys[i..][0] == key && keys[i..][1..] == keys[i + 1..];
        CountGrows(before, keys[..i], key);
        if !dryRun {
          BackfillSnoc(app, before, keys[..i], key, ctx, clock);
        }
        var step := BackfillRow(key, dryRun, ctx, clock(key));
        if step.Err? {
          return Err(step.error);
        }
        examined := examined + 1;
        if !step.value {
          skipped := skipped + 1;
        } else {
          pending := pending + 1;
          if !dryRun {
            created := created + 1;
          }
        }
      }
      assert keys[..|keys|] == keys;
      return Ok(BackfillResult(examined, pending, created, skipped, dryRun));
    }

    /** `restore`: refuse, or set the scalar fields and save them under the action "restore". */
    method RestoreRow(key: Key, revision: int, expected: int, ctx: Context, now: int) returns (r: Status)
      requires Registered(app, key)
      modifies this
      ensures Settled(old(Current()), Commit(app, Restore(app, old(Current()), key, revision, expected, ctx, now)), r)
    {
      var target := RestoreTarget(app, Current(), key, revision, expected, ctx);
      if target.Err? {
        return Err(target.error);
      }
      var inst := RestoredRow(app, app.schema[key.model], rows[key], target.value);
      r := SaveBase(key, inst, old' => inst, Some("restore"), ctx, now);
    }
  }

  lemma {:induction false} InsertKeepsHistory(db: Db, objs: seq<(Key, Row)>, store: Row -> Row)
    ensures Insert(db, objs, store).resources == db.resources && Insert(db, objs, store).events == db.events
    decreases |objs|
  {
    if objs != [] {
      InsertKeepsHistory(db.(rows := db.rows[objs[0].0 := store(objs[0].1)]), objs[1..], store);
    }
  }

  lemma CountGrows(db: Db, keys: seq<Key>, key: Key)
    ensures CountPending(db, keys + [key]) == CountPending(db, keys) + if NeedsBaseline(db, key) then 1 else 0
  {
    assert (keys + [key])[..|keys|] == keys;
  }

  lemma {:induction false} BackfillSnoc(app: App, db: Db, keys: seq<Key>, key: Key, ctx: Context, clock: Key -> int)
    requires (forall k :: k in keys ==> Registered(app, k)) && Registered(app, key)
    ensures BackfillAll(app, db, keys + [key], ctx, clock)
         == var init := BackfillAll(app, db, keys, ctx, clock);
            if init.Err? then init else Baseline(app, init.value, key, ctx, clock(key))
    decreases |keys|
  {
    if keys == [] {
      assert [] + [key] == [key] && [key][1..] == [];
      var step := Baseline(app, db, key, ctx, clock(key));
      assert step.Ok? ==> BackfillAll(app, step.value, [], ctx, clock) == step;
    } else {
      assert (keys + [key])[1..] == keys[1..] + [key];
      var step := Baseline(app, db, keys[0], ctx, clock(keys[0]));
      if step.Ok? {
        BackfillSnoc(app, step.value, keys[1..], key, ctx, clock);
      }
    }
  }
}
