/** What `restore` and `backfill` of `pyscoped/history.py` achieve, given the invariant of tracked writes. */
module Recovery {
  import opened Wrappers
  import opened Contexts
  import opened EventChain
  import opened TrackedWrites
  import opened TrackedHistory
  import opened TrackedStore

  // ---------------------------------------------------------------------------------------------
  // Restore
  // ---------------------------------------------------------------------------------------------

  function Restoring(app: App, db: Db, key: Key, revision: int, expected: int, ctx: Context, clock: Key -> int): Outcome {
    if !Registered(app, key) then Err(NotRegistered)
    else Commit(app, Restore(app, db, key, revision, expected, ctx, clock(key)))
  }

  lemma RestoringIsTransact(app: App, db: Db, key: Key, revision: int, expected: int, ctx: Context, clock: Key -> int)
    requires Invariant(app, db)
    ensures Restoring(app, db, key, revision, expected, ctx, clock) == Transact(app, db, RestoreOp(key, revision, expected), Some(ctx), clock)
    ensures Restoring(app, db, key, revision, expected, ctx, clock).Ok? ==>
      var d := Restoring(app, db, key, revision, expected, ctx, clock).value;
      Invariant(app, d) && Effect(app, db, d, ctx)
  {
    TransactKeepsInvariant(app, db, RestoreOp(key, revision, expected), Some(ctx), clock);
  }

  /** The recorded values come back unchanged from `to_python` and a second encoding. */
  ghost predicate Survives(app: App, config: Config, target: Snapshot)
    requires target.Keys == config.fields
  {
    forall name | name in Scalars(config) :: app.plain(app.toPython(target[name])) == target[name]
  }

  ghost predicate Target(app: App, db: Db, key: Key, revision: int, target: Snapshot) {
    && Registered(app, key) && target.Keys == ConfigOf(app, key).fields
    && 1 <= revision <= |EventsOf(db, key)|
    && EventsOf(db, key)[revision - 1].body.after == Some(target)
  }

  /** A successful restore appends one "restore" event at `expected + 1` after an untouched history,
      changes no other key, and makes the row's snapshot the target's exactly if its values survive. */
  lemma {:induction false} RestoreReachesTarget(app: App, db: Db, d: Db, key: Key, revision: int, expected: int, ctx: Context, clock: Key -> int)
    returns (target: Snapshot)
    requires Invariant(app, db) && Restoring(app, db, key, revision, expected, ctx, clock) == Ok(d)
    ensures Target(app, db, key, revision, target) && Invariant(app, d)
    ensures exists e :: EventsOf(d, key) == EventsOf(db, key) + [e] && e.body.action == "restore" && e.body.revision == expected + 1
    ensures key in d.resources && d.resources[key].revision == expected + 1 == |EventsOf(d, key)|
    ensures forall k :: k != key ==> Same(db, d, k)
    ensures LiveSnapshot(app, d, key) == Some(target) <==> Survives(app, ConfigOf(app, key), target)
  {
    hide Restore, Commit, Transact, RestoredRow, Survives;
    RestoreLeavesOthers(app, db, key, revision, expected, ctx, clock);
    target := RestoreTarget(app, db, key, revision, expected, ctx).value;
    RestoringIsTransact(app, db, key, revision, expected, ctx, clock);
    assert HistoryEndsAt(app, d, key, LiveSnapshot(app, d, key));
    assert HistoryEndsAt(app, db, key, LiveSnapshot(app, db, key));
    assert Written(app, db, d, key, ctx);
    var e := d.events[key][|d.events[key]| - 1];
    assert EventsOf(d, key) == EventsOf(db, key) + [e];
    assert Linked(app.hash, key, d.resources[key].scope, d.events[key], |d.events[key]| - 1);
    RestoredSnapshot(app, db, key, target, d);
  }

  lemma RestoreLeavesOthers(app: App, db: Db, key: Key, revision: int, expected: int, ctx: Context, clock: Key -> int)
    requires Restoring(app, db, key, revision, expected, ctx, clock).Ok?
    ensures var d := Restoring(app, db, key, revision, expected, ctx, clock).value;
      && (forall k :: k != key ==> Same(db, d, k))
      && key in db.rows && key in d.rows && RestoreTarget(app, db, key, revision, expected, ctx).Ok?
      && d.rows == db.rows[key := RestoredRow(app, ConfigOf(app, key), db.rows[key], RestoreTarget(app, db, key, revision, expected, ctx).value)]
      && key in d.events && |d.events[key]| > 0 && d.events[key][|d.events[key]| - 1].body.action == "restore"
      && key in db.resources && db.resources[key].revision == expected
      && key in d.resources && d.resources[key].revision == expected + 1
      && CheckRow(app, d, key, d.rows[key], ctx).None?
  {
  }

  /** What a restored row encodes to: the target's values pushed through `to_python` and `plain`. */
  lemma RestoredSnapshot(app: App, db: Db, key: Key, target: Snapshot, d: Db)
    requires Registered(app, key) && key in db.rows && key in d.rows && target.Keys == ConfigOf(app, key).fields
    requires forall name :: name in target && name !in Scalars(ConfigOf(app, key)) ==>
      target[name] == LiveSnapshot(app, db, key).value[name]
    requires d.rows[key] == RestoredRow(app, ConfigOf(app, key), db.rows[key], target)
    ensures LiveSnapshot(app, d, key) == Some(target) <==> Survives(app, ConfigOf(app, key), target)
  {
    var config := ConfigOf(app, key);
    var live := LiveSnapshot(app, d, key).value;
    forall name | name in config.fields
      ensures live[name] == if name in Scalars(config) then app.plain(app.toPython(target[name])) else target[name]
    {
      if name !in Scalars(config) {
        assert Field(d.rows[key], name) == Field(db.rows[key], name);
        assert LiveSnapshot(app, db, key).value[name] == app.plain(Field(db.rows[key], name));
      }
    }
    if LiveSnapshot(app, d, key) == Some(target) {
      forall name | name in Scalars(config) ensures app.plain(app.toPython(target[name])) == target[name] {
        assert name in config.fields && live[name] == target[name];
      }
    }
    if Survives(app, config, target) {
      assert live == target;
    }
  }

  /** Using the same expected revision again always conflicts. */
  lemma {:induction false} RestoreTwiceConflicts(app: App, db: Db, d: Db, key: Key, revision: int, expected: int, ctx: Context, clock: Key -> int,
                              revision': int, clock': Key -> int)
    requires Invariant(app, db) && Restoring(app, db, key, revision, expected, ctx, clock) == Ok(d)
    ensures Restoring(app, d, key, revision', expected, ctx, clock') == Err(HistoryConflict)
  {
    RestoreLeavesOthers(app, db, key, revision, expected, ctx, clock);
    RestoringIsTransact(app, db, key, revision, expected, ctx, clock);
    RestoreKeepsScopeCheck(app, db, key, revision, expected, ctx, clock);
  }

  lemma RestoreKeepsScopeCheck(app: App, db: Db, key: Key, revision: int, expected: int, ctx: Context, clock: Key -> int)
    requires Invariant(app, db) && Restoring(app, db, key, revision, expected, ctx, clock).Ok?
    ensures var d := Restoring(app, db, key, revision, expected, ctx, clock).value;
      && key in d.rows && Registered(app, key) && CheckScope(ConfigOf(app, key), d.rows[key], ctx).Ok?
      && key in d.resources && d.resources[key].scope == ctx.scope
  {
    RestoreLeavesOthers(app, db, key, revision, expected, ctx, clock);
  }

  /** Every scalar value of the row decodes from its own encoding. */
  ghost predicate DecodesBack(app: App, config: Config, row: Row) {
    forall name | name in Scalars(config) :: name in row && app.toPython(app.plain(row[name])) == row[name]
  }

  lemma UndoneRow(app: App, config: Config, row: Row, target: Snapshot, former: Snapshot)
    requires target.Keys == config.fields && former == map name | name in config.fields :: app.plain(Field(row, name))
    ensures RestoredRow(app, config, RestoredRow(app, config, row, target), former) == row
      <==> DecodesBack(app, config, row)
  {
    var again := RestoredRow(app, config, RestoredRow(app, config, row, target), former);
    assert again == row + map name | name in Scalars(config) :: app.toPython(app.plain(Field(row, name)));
    if again == row {
      forall name | name in Scalars(config) ensures name in row && app.toPython(app.plain(row[name])) == row[name] {
        assert name in again && again[name] == app.toPython(app.plain(Field(row, name)));
      }
    }
  }

  /** After a restore, the former head is a target that `restore` accepts. */
  lemma UndoTarget(app: App, db: Db, d: Db, key: Key, revision: int, expected: int, ctx: Context, clock: Key -> int)
    requires Invariant(app, db) && Restoring(app, db, key, revision, expected, ctx, clock) == Ok(d)
    ensures key in db.rows && Registered(app, key)
    ensures RestoreTarget(app, d, key, expected, expected + 1, ctx) == Ok(LiveSnapshot(app, db, key).value)
  {
    hide Restore, Commit, Transact;
    RestoreLeavesOthers(app, db, key, revision, expected, ctx, clock);
    RestoreKeepsScopeCheck(app, db, key, revision, expected, ctx, clock);
    RestoringIsTransact(app, db, key, revision, expected, ctx, clock);
    assert HistoryEndsAt(app, d, key, LiveSnapshot(app, d, key));
    assert HistoryEndsAt(app, db, key, LiveSnapshot(app, db, key));
    var config := ConfigOf(app, key);
    var former := LiveSnapshot(app, db, key).value;
    assert EventsOf(d, key)[expected - 1].body.after == Some(former) by {
      assert Written(app, db, d, key, ctx);
      assert EventsOf(d, key)[expected - 1] == EventsOf(db, key)[expected - 1];
    }
    forall name | name in config.fields && name !in Scalars(config)
      ensures former[name] == LiveSnapshot(app, d, key).value[name]
    {
      assert Field(d.rows[key], name) == Field(db.rows[key], name);
    }
  }

  /** A partial save of a row whose scope and relations already pass is accepted. */
  lemma SaveAccepted(app: App, d: Db, key: Key, inst: Row, ctx: Context, now: int)
    requires Registered(app, key) && key in d.rows && Invariant(app, d)
    requires CheckScope(ConfigOf(app, key), d.rows[key], ctx).Ok? && CheckRow(app, d, key, inst, ctx).None?
    requires CheckRow(app, d.(rows := d.rows[key := inst]), key, inst, ctx).None?
    requires Field(inst, ConfigOf(app, key).scopeField) == Field(d.rows[key], ConfigOf(app, key).scopeField)
    ensures var saved := Save(app, d, key, inst, old' => inst, Some("restore"), ctx, now);
      saved.Ok? && saved.value.rows == d.rows[key := inst]
  {
    assert HistoryEndsAt(app, d, key, LiveSnapshot(app, d, key)) && ScopeRecorded(app, d, key);
  }

  lemma UndoAccepted(app: App, db: Db, d: Db, key: Key, revision: int, expected: int, ctx: Context, clock: Key -> int, clock': Key -> int)
    requires Invariant(app, db) && Restoring(app, db, key, revision, expected, ctx, clock) == Ok(d)
    ensures Registered(app, key) && key in db.rows && key in d.rows
    ensures var undone := Restoring(app, d, key, expected, expected + 1, ctx, clock');
      undone.Ok? && undone.value.rows
        == d.rows[key := RestoredRow(app, ConfigOf(app, key), d.rows[key], LiveSnapshot(app, db, key).value)]
  {
    RestoreLeavesOthers(app, db, key, revision, expected, ctx, clock);
    RestoreKeepsScopeCheck(app, db, key, revision, expected, ctx, clock);
    RestoringIsTransact(app, db, key, revision, expected, ctx, clock);
    UndoTarget(app, db, d, key, revision, expected, ctx, clock);
    var former := LiveSnapshot(app, db, key).value;
    var inst := RestoredRow(app, ConfigOf(app, key), d.rows[key], former);
    UndoRowChecks(app, d, key, former, ctx);
    SaveAccepted(app, d, key, inst, ctx, clock'(key));
  }

  /** The second save passes the checks the first one passed: scope and relations are the same. */
  lemma UndoRowChecks(app: App, d: Db, key: Key, former: Snapshot, ctx: Context)
    requires Registered(app, key) && key in d.rows
    requires Invariant(app, d) && CheckRow(app, d, key, d.rows[key], ctx).None?
    requires former.Keys == ConfigOf(app, key).fields
    ensures var config := ConfigOf(app, key);
      var inst := RestoredRow(app, config, d.rows[key], former);
      var w := d.(rows := d.rows[key := inst]);
      && CheckRow(app, d, key, inst, ctx).None? && CheckRow(app, w, key, inst, ctx).None?
      && Field(inst, config.scopeField) == Field(d.rows[key], config.scopeField)
      && ForeignKeysHold(app, w.rows)
  {
    var config := ConfigOf(app, key);
    var inst := RestoredRow(app, config, d.rows[key], former);
    var w := d.(rows := d.rows[key := inst]);
    assert forall name | name in config.relations :: Field(inst, name) == Field(d.rows[key], name);
    forall name | name in config.relations && config.mode == Enforce
      ensures RelationOk(app, config, d.rows, inst, name, ctx) && RelationOk(app, config, w.rows, inst, name, ctx)
    {
      assert RelationOk(app, config, d.rows, d.rows[key], name, ctx);
    }
  }

  lemma UndoneRows(app: App, config: Config, rows: map<Key, Row>, key: Key, target: Snapshot, former: Snapshot)
    requires key in rows && target.Keys == config.fields
    requires former == map name | name in config.fields :: app.plain(Field(rows[key], name))
    ensures var restored := RestoredRow(app, config, rows[key], target);
      rows[key := restored][key := RestoredRow(app, config, restored, former)] == rows <==> DecodesBack(app, config, rows[key])
  {
    UndoneRow(app, config, rows[key], target, former);
    var restored := RestoredRow(app, config, rows[key], target);
    var undone := rows[key := restored][key := RestoredRow(app, config, restored, former)];
    if undone[key] == rows[key] {
      assert undone == rows;
    }
  }

  lemma UndoneFacts(app: App, db: Db, d: Db, undone: Db, key: Key, target: Snapshot)
    requires Registered(app, key) && key in db.rows && target.Keys == ConfigOf(app, key).fields
    requires d.rows == db.rows[key := RestoredRow(app, ConfigOf(app, key), db.rows[key], target)]
    requires undone.rows == d.rows[key := RestoredRow(app, ConfigOf(app, key), d.rows[key], LiveSnapshot(app, db, key).value)]
    ensures LiveSnapshot(app, undone, key) == LiveSnapshot(app, db, key)
        <==> Survives(app, ConfigOf(app, key), LiveSnapshot(app, db, key).value)
    ensures undone.rows == db.rows <==> DecodesBack(app, ConfigOf(app, key), db.rows[key])
  {
    var config := ConfigOf(app, key);
    var former := LiveSnapshot(app, db, key).value;
    forall name | name in former && name !in Scalars(config) ensures former[name] == LiveSnapshot(app, d, key).value[name] {
      assert Field(d.rows[key], name) == Field(db.rows[key], name);
    }
    RestoredSnapshot(app, d, key, former, undone);
    UndoneRows(app, config, db.rows, key, target, former);
  }

  /** Restoring the former head undoes a restore: it cannot be refused, and it brings back the very
      row exactly if every scalar value survives the encoding and back. */
  lemma {:induction false} RestoreIsUndone(app: App, db: Db, d: Db, key: Key, revision: int, expected: int, ctx: Context, clock: Key -> int, clock': Key -> int)
    returns (undone: Db)
    requires Invariant(app, db) && Restoring(app, db, key, revision, expected, ctx, clock) == Ok(d)
    ensures Restoring(app, d, key, expected, expected + 1, ctx, clock') == Ok(undone)
    ensures Registered(app, key) && key in db.rows
    ensures LiveSnapshot(app, undone, key) == LiveSnapshot(app, db, key)
        <==> Survives(app, ConfigOf(app, key), LiveSnapshot(app, db, key).value)
    ensures undone.rows == db.rows <==> DecodesBack(app, ConfigOf(app, key), db.rows[key])
  {
    UndoAccepted(app, db, d, key, revision, expected, ctx, clock, clock');
    undone := Restoring(app, d, key, expected, expected + 1, ctx, clock').value;
    var target := RestoredTo(app, db, d, key, revision, expected, ctx, clock);
    UndoneFacts(app, db, d, undone, key, target);
  }

  lemma RestoredTo(app: App, db: Db, d: Db, key: Key, revision: int, expected: int, ctx: Context, clock: Key -> int)
    returns (target: Snapshot)
    requires Restoring(app, db, key, revision, expected, ctx, clock) == Ok(d)
    ensures Registered(app, key) && key in db.rows && target.Keys == ConfigOf(app, key).fields
    ensures d.rows == db.rows[key := RestoredRow(app, ConfigOf(app, key), db.rows[key], target)]
  {
    RestoreLeavesOthers(app, db, key, revision, expected, ctx, clock);
    target := RestoreTarget(app, db, key, revision, expected, ctx).value;
  }

  // ---------------------------------------------------------------------------------------------
  // Backfill
  // ---------------------------------------------------------------------------------------------

  /** `k` got its first event, a baseline of what its row holds now. */
  ghost predicate Baselined(app: App, db: Db, d: Db, k: Key, ctx: Context) {
    && Registered(app, k) && k !in db.resources && k !in db.events
    && k in d.resources && k in d.events && |d.events[k]| == 1
    && var e := d.events[k][0].body;
       e.action == "baseline" && e.before == None && e.after == LiveSnapshot(app, db, k) && e.actor == ctx.actor
  }

  /** Backfilling baselines exactly the listed rows without history and touches nothing else. */
  lemma {:induction false} BackfillBaselines(app: App, db: Db, keys: seq<Key>, ctx: Context, clock: Key -> int)
    requires Consistent(app, db) && Distinct(keys) && forall k :: k in keys ==> Registered(app, k)
    requires BackfillAll(app, db, keys, ctx, clock).Ok?
    ensures var d := BackfillAll(app, db, keys, ctx, clock).value;
      && Consistent(app, d) && d.rows == db.rows
      && (forall k :: if k in keys && NeedsBaseline(db, k) then Baselined(app, db, d, k, ctx) else Same(db, d, k))
      && (forall k :: k in keys ==> !NeedsBaseline(d, k))
      && |d.resources| == |db.resources| + CountPending(db, keys)
    decreases |keys|
  {
    if keys != [] {
      var n := |keys| - 1;
      var init, last := keys[..n], keys[n];
      assert keys == init + [last] && last in keys;
      BackfillSnoc(app, db, init, last, ctx, clock);
      BackfillBaselines(app, db, init, ctx, clock);
      var p := BackfillAll(app, db, init, ctx, clock).value;
      BaselineStep(app, p, last, ctx, clock(last));
      assert last !in init && Same(db, p, last);
      var d := BackfillAll(app, db, keys, ctx, clock).value;
      forall k ensures if k in keys && NeedsBaseline(db, k) then Baselined(app, db, d, k, ctx) else Same(db, d, k) {
        assert k in keys <==> k in init || k == last;
        if k != last {
          assert Same(p, d, k);
          assert if k in init && NeedsBaseline(db, k) then Baselined(app, db, p, k, ctx) else Same(db, p, k);
        }
      }
      forall k | k in keys ensures !NeedsBaseline(d, k) {
        if k != last {
          assert k in init && Same(p, d, k);
        }
      }
    }
  }

  lemma BaselineStep(app: App, p: Db, key: Key, ctx: Context, now: int)
    requires Consistent(app, p) && Registered(app, key) && Baseline(app, p, key, ctx, now).Ok?
    ensures var d := Baseline(app, p, key, ctx, now).value;
      && Consistent(app, d) && d.rows == p.rows && (forall k :: k != key ==> Same(p, d, k))
      && (if NeedsBaseline(p, key) then Baselined(app, p, d, key, ctx) else d == p)
      && !NeedsBaseline(d, key)
      && |d.resources| == |p.resources| + if NeedsBaseline(p, key) then 1 else 0
  {
    BaselineGood(app, p, key, ctx, now);
    var d := Baseline(app, p, key, ctx, now).value;
    assert HistoryEndsAt(app, p, key, LiveSnapshot(app, p, key));
    assert HistoryEndsAt(app, d, key, LiveSnapshot(app, d, key));
    if NeedsBaseline(p, key) {
      assert Same(p, d, key) || Written(app, p, d, key, ctx);
      assert d.resources.Keys == p.resources.Keys + {key};
      assert |d.resources.Keys| == |p.resources.Keys| + 1;
    }
  }

  /** On rows of the caller's scope a backfill cannot fail. */
  lemma {:induction false} BackfillSucceeds(app: App, db: Db, keys: seq<Key>, ctx: Context, clock: Key -> int)
    requires Consistent(app, db) && Identity(Some(ctx.scope)).Ok?
    requires forall k :: k in keys ==> Registered(app, k) && (k in db.rows ==> ScopeOf(app, db.rows, k) == Some(ctx.scope))
    ensures BackfillAll(app, db, keys, ctx, clock).Ok?
    decreases |keys|
  {
    if keys != [] {
      var key := keys[0];
      assert HistoryEndsAt(app, db, key, LiveSnapshot(app, db, key)) && ScopeRecorded(app, db, key);
      BaselineStep(app, db, key, ctx, clock(key));
      BackfillSucceeds(app, Baseline(app, db, key, ctx, clock(key)).value, keys[1..], ctx, clock);
    }
  }

  /** A further run, by anyone at any time, creates nothing. */
  lemma {:induction false} BackfillIdempotent(app: App, d: Db, keys: seq<Key>, ctx: Context, clock: Key -> int)
    requires forall k :: k in keys ==> Registered(app, k) && !NeedsBaseline(d, k)
    requires BackfillAll(app, d, keys, ctx, clock).Ok?
    ensures BackfillAll(app, d, keys, ctx, clock) == Ok(d) && CountPending(d, keys) == 0
    decreases |keys|
  {
    if keys != [] {
      var n := |keys| - 1;
      assert keys == keys[..n] + [keys[n]] && keys[n] in keys;
      BackfillSnoc(app, d, keys[..n], keys[n], ctx, clock);
      BackfillIdempotent(app, d, keys[..n], ctx, clock);
    }
  }

  lemma {:induction false} BackfillSplit(app: App, db: Db, a: seq<Key>, b: seq<Key>, ctx: Context, clock: Key -> int)
    requires forall k :: k in a + b ==> Registered(app, k)
    requires forall k :: k in a ==> Registered(app, k)
    requires forall k :: k in b ==> Registered(app, k)
    ensures BackfillAll(app, db, a + b, ctx, clock)
         == var first := BackfillAll(app, db, a, ctx, clock);
            if first.Err? then first else BackfillAll(app, first.value, b, ctx, clock)
    decreases |a|
  {
    if a == [] {
      assert a + b == b;
    } else {
      assert (a + b)[1..] == a[1..] + b && (a + b)[0] == a[0];
      var step := Baseline(app, db, a[0], ctx, clock(a[0]));
      if step.Ok? {
        BackfillSplit(app, step.value, a[1..], b, ctx, clock);
      }
    }
  }

  /** Stopping after any row and running again later, from the start, baselines what one run would have:
      exactly the rows without history, each once, with what it held. */
  lemma BackfillResumes(app: App, db: Db, keys: seq<Key>, i: nat, ctx: Context, clock: Key -> int, clock': Key -> int)
    returns (p: Db, d: Db)
    requires i <= |keys| && Consistent(app, db) && Distinct(keys) && Identity(Some(ctx.scope)).Ok?
    requires forall k :: k in keys ==> Registered(app, k) && (k in db.rows ==> ScopeOf(app, db.rows, k) == Some(ctx.scope))
    ensures BackfillAll(app, db, keys[..i], ctx, clock) == Ok(p)
    ensures BackfillAll(app, p, keys, ctx, clock') == Ok(d)
    ensures forall k :: if k in keys && NeedsBaseline(db, k) then Baselined(app, db, d, k, ctx) else Same(db, d, k)
  {
    BackfillSucceeds(app, db, keys[..i], ctx, clock);
    BackfillBaselines(app, db, keys[..i], ctx, clock);
    p := BackfillAll(app, db, keys[..i], ctx, clock).value;
    BackfillSucceeds(app, p, keys, ctx, clock');
    BackfillBaselines(app, p, keys, ctx, clock');
    d := BackfillAll(app, p, keys, ctx, clock').value;
    forall k ensures if k in keys && NeedsBaseline(db, k) then Baselined(app, db, d, k, ctx) else Same(db, d, k) {
      BaselinedOnce(app, db, p, d, keys, i, k, ctx);
    }
  }

  /** Baselined in the first run and left alone in the second, or the other way round. */
  lemma BaselinedOnce(app: App, db: Db, p: Db, d: Db, keys: seq<Key>, i: nat, k: Key, ctx: Context)
    requires i <= |keys| && p.rows == db.rows
    requires if k in keys[..i] && NeedsBaseline(db, k) then Baselined(app, db, p, k, ctx) else Same(db, p, k)
    requires if k in keys && NeedsBaseline(p, k) then Baselined(app, p, d, k, ctx) else Same(p, d, k)
    requires k in keys[..i] ==> !NeedsBaseline(p, k)
    ensures if k in keys && NeedsBaseline(db, k) then Baselined(app, db, d, k, ctx) else Same(db, d, k)
  {
    assert k in keys[..i] ==> k in keys;
  }

  /** With the same readings of the clock the two runs end in the very database of one. */
  lemma BackfillResumesAlike(app: App, db: Db, keys: seq<Key>, i: nat, ctx: Context, clock: Key -> int) returns (p: Db)
    requires i <= |keys| && Consistent(app, db) && Distinct(keys) && Identity(Some(ctx.scope)).Ok?
    requires forall k :: k in keys ==> Registered(app, k) && (k in db.rows ==> ScopeOf(app, db.rows, k) == Some(ctx.scope))
    ensures BackfillAll(app, db, keys[..i], ctx, clock) == Ok(p)
    ensures BackfillAll(app, p, keys, ctx, clock) == BackfillAll(app, db, keys, ctx, clock)
  {
    p := StoppedBackfill(app, db, keys[..i], ctx, clock);
    assert keys == keys[..i] + keys[i..];
    BackfillSplit(app, db, keys[..i], keys[i..], ctx, clock);
    BackfillSplit(app, p, keys[..i], keys[i..], ctx, clock);
  }

  lemma StoppedBackfill(app: App, db: Db, keys: seq<Key>, ctx: Context, clock: Key -> int) returns (p: Db)
    requires Consistent(app, db) && Distinct(keys) && Identity(Some(ctx.scope)).Ok?
    requires forall k :: k in keys ==> Registered(app, k) && (k in db.rows ==> ScopeOf(app, db.rows, k) == Some(ctx.scope))
    ensures BackfillAll(app, db, keys, ctx, clock) == BackfillAll(app, p, keys, ctx, clock) == Ok(p)
  {
    BackfillSucceeds(app, db, keys, ctx, clock);
    p := BackfillAll(app, db, keys, ctx, clock).value;
    BackfillBaselines(app, db, keys, ctx, clock);
    BackfillSucceeds(app, p, keys, ctx, clock);
    BackfillIdempotent(app, p, keys, ctx, clock);
  }
}
