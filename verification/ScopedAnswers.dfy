/** What a scoped query gives its caller, said on rows and columns alone. */
module ScopedAnswers {
  import opened Wrappers
  import opened Contexts
  import opened ScopedQuery

  /** The row carries exactly this scope in its model's scope column. */
  predicate Owned(row: Row, config: TableConfig, scope: string) {
    config.scopeColumn in row && row[config.scopeColumn] == Text(scope)
  }

  /** A slot of an enforced table is empty or holds a row of the scope. */
  ghost predicate OwnSlot(reg: Registry, table: string, slot: Option<Row>, scope: string) {
    table in reg && reg[table].mode == Enforce && slot.Some? ==> Owned(slot.value, reg[table], scope)
  }

  ghost predicate OwnSlots(reg: Registry, joins: seq<Join>, e: Env, from: nat, scope: string) {
    |e| >= from + |joins| && forall i | 0 <= i < |joins| :: OwnSlot(reg, joins[i].table, e[from + i], scope)
  }

  // ---------------------------------------------------------------------------------------------
  // Filters and joins
  // ---------------------------------------------------------------------------------------------

  /** Conjunction and disjunction are the lesser and the greater of False < Unknown < True. */
  lemma ThreeValues(a: Truth, b: Truth)
    ensures And(a, b) == True <==> a == True && b == True
    ensures And(a, b) == False <==> a == False || b == False
    ensures Or(a, b) == True <==> a == True || b == True
    ensures Or(a, b) == False <==> a == False && b == False
    ensures (Not(a) == True <==> a == False) && (Not(a) == False <==> a == True)
  {
  }

  lemma {:induction false} FilterExactly(db: Database, p: Pred, envs: seq<Env>, e: Env)
    ensures e in Filter(db, p, envs) <==> e in envs && EvalPred(db, p, e) == True
    decreases |envs|
  {
    if envs != [] {
      FilterExactly(db, p, envs[1..], e);
      assert envs == [envs[0]] + envs[1..];
    }
  }

  lemma {:induction false} ExtendExactly(env: Env, rows: seq<Row>, e: Env)
    ensures e in Extend(env, rows) <==> exists row :: row in rows && e == env + [Some(row)]
  {
    if rows != [] {
      ExtendExactly(env, rows[1..], e);
      assert rows == [rows[0]] + rows[1..];
    }
  }

  /** The row joins `env` to `e`. */
  ghost predicate Joins(db: Database, on: Pred, env: Env, row: Row, e: Env) {
    e == env + [Some(row)] && EvalPred(db, on, e) == True
  }

  /** A join gives one extended row for each partner; an outer join without any keeps the parent. */
  lemma JoinExactly(db: Database, join: Join, env: Env, e: Env)
    ensures e in JoinOne(db, join, env) <==>
      || (exists row :: row in Rows(db, join.table) && Joins(db, join.on, env, row, e))
      || (join.kind == LeftOuter && e == env + [None]
          && forall row :: row in Rows(db, join.table) ==> !Joins(db, join.on, env, row, env + [Some(row)]))
  {
    var all := Extend(env, Rows(db, join.table));
    var matches := Filter(db, join.on, all);
    FilterExactly(db, join.on, all, e);
    ExtendExactly(env, Rows(db, join.table), e);
    if matches == [] {
      forall row | row in Rows(db, join.table) ensures !Joins(db, join.on, env, row, env + [Some(row)]) {
        FilterExactly(db, join.on, all, env + [Some(row)]);
        ExtendExactly(env, Rows(db, join.table), env + [Some(row)]);
      }
    } else {
      FilterExactly(db, join.on, all, matches[0]);
      ExtendExactly(env, Rows(db, join.table), matches[0]);
      var row :| row in Rows(db, join.table) && matches[0] == env + [Some(row)];
      assert Joins(db, join.on, env, row, env + [Some(row)]);
    }
  }

  // ---------------------------------------------------------------------------------------------
  // The tenant's tables
  // ---------------------------------------------------------------------------------------------

  /** A scope test holds of the scope's own rows, is unknown without a row or a value, and fails otherwise. */
  lemma ScopeTestExactly(slot: Option<Row>, config: TableConfig, scope: string)
    ensures ColumnIs(slot, config.scopeColumn, scope) == True <==> slot.Some? && Owned(slot.value, config, scope)
    ensures ColumnIs(slot, config.scopeColumn, scope) == Unknown <==>
      slot == None || config.scopeColumn !in slot.value || slot.value[config.scopeColumn] == Null
  {
  }

  lemma {:induction false} OwnRowExactly(rows: seq<Row>, config: TableConfig, scope: string, row: Row)
    ensures row in RowsInScope(rows, config.scopeColumn, scope) <==> row in rows && Owned(row, config, scope)
  {
    if rows != [] {
      OwnRowExactly(rows[1..], config, scope, row);
      assert rows == [rows[0]] + rows[1..];
    }
  }

  lemma OwnRowsStep(rows: seq<Row>, column: string, scope: string)
    requires rows != []
    ensures RowsInScope(rows, column, scope)
         == (if ColumnIs(Some(rows[0]), column, scope) == True then [rows[0]] else []) + RowsInScope(rows[1..], column, scope)
  {
  }

  lemma {:induction false} OwnRowsSplit(a: seq<Row>, b: seq<Row>, column: string, scope: string)
    ensures RowsInScope(a + b, column, scope) == RowsInScope(a, column, scope) + RowsInScope(b, column, scope)
    decreases |a|
  {
    if a == [] {
      assert a + b == b;
    } else {
      hide ColumnIs;
      OwnRowsSplit(a[1..], b, column, scope);
      assert (a + b)[1..] == a[1..] + b && (a + b)[0] == a[0];
      OwnRowsStep(a + b, column, scope);
      OwnRowsStep(a, column, scope);
    }
  }

  /** A tenant sees every table that is not enforced as it is, and of an enforced one exactly the rows
      that carry its scope. */
  lemma TenantRowExactly(db: Database, reg: Registry, scope: string, table: string, row: Row)
    requires table in db
    ensures table in TenantDatabase(db, reg, scope)
    ensures var tenant := TenantDatabase(db, reg, scope)[table];
      if table in reg && reg[table].mode == Enforce then row in tenant <==> row in db[table] && Owned(row, reg[table], scope)
      else tenant == db[table]
  {
    if table in reg && reg[table].mode == Enforce {
      OwnRowExactly(db[table], reg[table], scope, row);
    }
  }

  /** It sees them in their order and as often as they occur: cutting down goes row by row. */
  lemma TenantTableSplits(db: Database, reg: Registry, scope: string, table: string, a: seq<Row>, row: Row, b: seq<Row>)
    requires table in reg && reg[table].mode == Enforce
    ensures TenantDatabase(db[table := a + [row] + b], reg, scope)[table]
         == TenantDatabase(db[table := a], reg, scope)[table] + (if Owned(row, reg[table], scope) then [row] else [])
            + TenantDatabase(db[table := b], reg, scope)[table]
  {
    var column := reg[table].scopeColumn;
    OwnRowsSplit(a + [row], b, column, scope);
    OwnRowsSplit(a, [row], column, scope);
    assert [row][1..] == [];
    assert RowsInScope([row], column, scope) == if Owned(row, reg[table], scope) then [row] else [];
  }

  /** The compiled join into an enforced table: one extended row for each partner of the tenant, and
      for an outer join the parent alone when the tenant has none, whatever other tenants hold. */
  lemma ScopedJoinExactly(db: Database, reg: Registry, ctx: Context, join: Join, env: Env, e: Env)
    requires PredGuarded(join.on, reg) && join.table in reg && reg[join.table].mode == Enforce
    ensures var tenant := TenantDatabase(db, reg, ctx.scope);
      e in JoinOne(db, EmittedJoin(join, reg, ctx, Some(ctx), |env|), env) <==>
      || (exists row :: row in Rows(db, join.table) && Owned(row, reg[join.table], ctx.scope) && Joins(tenant, join.on, env, row, e))
      || (join.kind == LeftOuter && e == env + [None]
          && forall row :: row in Rows(db, join.table) && Owned(row, reg[join.table], ctx.scope) ==>
               !Joins(tenant, join.on, env, row, env + [Some(row)]))
  {
    var tenant := TenantDatabase(db, reg, ctx.scope);
    JoinOneMeaning(db, reg, ctx, Some(ctx), join, env);
    JoinExactly(tenant, join, env, e);
    forall row ensures row in Rows(tenant, join.table) <==> row in Rows(db, join.table) && Owned(row, reg[join.table], ctx.scope) {
      if join.table in db {
        TenantRowExactly(db, reg, ctx.scope, join.table, row);
      }
    }
  }

  // ---------------------------------------------------------------------------------------------
  // No row of another scope
  // ---------------------------------------------------------------------------------------------

  lemma EmittedJoinIsOwn(db: Database, reg: Registry, ctx: Context, join: Join, env: Env, e: Env)
    requires e in JoinOne(db, EmittedJoin(join, reg, ctx, Some(ctx), |env|), env)
    ensures |e| == |env| + 1 && env <= e && OwnSlot(reg, join.table, e[|env|], ctx.scope)
  {
    var emitted := EmittedJoin(join, reg, ctx, Some(ctx), |env|);
    JoinExactly(db, emitted, env, e);
    if join.table in reg && reg[join.table].mode == Enforce && e[|env|].Some? {
      assert EvalPred(db, emitted.on, e) == True;
      ThreeValues(EvalPred(db, emitted.on.left, e), EvalPred(db, emitted.on.right, e));
      assert emitted.on.right == ScopeIs(|env|, reg[join.table].scopeColumn, ctx.scope);
    }
  }

  lemma {:induction false} EmittedJoinEach(db: Database, reg: Registry, ctx: Context, join: Join, envs: seq<Env>, depth: nat, e: Env)
    requires AllOfDepth(envs, depth)
    requires e in JoinEach(db, EmittedJoin(join, reg, ctx, Some(ctx), depth), envs)
    ensures exists env :: env in envs && env <= e && |e| == depth + 1 && OwnSlot(reg, join.table, e[depth], ctx.scope)
    decreases |envs|
  {
    assert envs[0] in envs;
    if e in JoinOne(db, EmittedJoin(join, reg, ctx, Some(ctx), depth), envs[0]) {
      EmittedJoinIsOwn(db, reg, ctx, join, envs[0], e);
    } else {
      EmittedJoinEach(db, reg, ctx, join, envs[1..], depth, e);
      var env :| env in envs[1..] && env <= e;
      assert env in envs;
    }
  }

  lemma NoSlots(reg: Registry, e: Env, from: nat, scope: string)
    requires |e| == from
    ensures OwnSlots(reg, [], e, from, scope)
  {
  }

  lemma OwnSlotsPrepend(reg: Registry, joins: seq<Join>, e: Env, from: nat, scope: string)
    requires joins != [] && from < |e|
    requires OwnSlot(reg, joins[0].table, e[from], scope) && OwnSlots(reg, joins[1..], e, from + 1, scope)
    ensures OwnSlots(reg, joins, e, from, scope)
  {
    forall i | 0 <= i < |joins| ensures OwnSlot(reg, joins[i].table, e[from + i], scope) {
      if i > 0 {
        assert OwnSlot(reg, joins[1..][i - 1].table, e[from + 1 + (i - 1)], scope);
      }
    }
  }

  /** Through all joins a row keeps what it started from and gains only slots of the scope. */
  lemma {:induction false} EmittedJoinsAreOwn(db: Database, reg: Registry, ctx: Context, joins: seq<Join>, envs: seq<Env>, depth: nat, e: Env)
    requires AllOfDepth(envs, depth)
    requires e in JoinAll(db, AddScopeJoins(JoinsFromManager(joins, reg, ctx, depth), reg, Some(ctx), depth), envs)
    ensures exists env :: env in envs && env <= e && |e| == depth + |joins| && OwnSlots(reg, joins, e, depth, ctx.scope)
    decreases |joins|
  {
    hide JoinEach, OwnSlot, OwnSlots, Grow;
    if joins == [] {
      NoSlots(reg, e, depth, ctx.scope);
      assert e in envs && OwnSlots(reg, joins, e, depth, ctx.scope);
    } else {
      var built := JoinsFromManager(joins, reg, ctx, depth);
      assert built[1..] == JoinsFromManager(joins[1..], reg, ctx, depth + 1);
      var first := EmittedJoin(joins[0], reg, ctx, Some(ctx), depth);
      var next := JoinEach(db, first, envs);
      JoinEachDepth(db, first, envs, depth);
      EmittedJoinsAreOwn(db, reg, ctx, joins[1..], next, depth + 1, e);
      var longer :| longer in next && longer <= e && |e| == depth + |joins| && OwnSlots(reg, joins[1..], e, depth + 1, ctx.scope);
      EmittedJoinEach(db, reg, ctx, joins[0], envs, depth, longer);
      var env :| env in envs && env <= longer && OwnSlot(reg, joins[0].table, longer[depth], ctx.scope);
      assert e[depth] == longer[depth];
      OwnSlotsPrepend(reg, joins, e, depth, ctx.scope);
      assert env <= e;
    }
  }

  /** Every row of a compiled query on an enforced model, top-level or nested under any outer row,
      starts with a stored row of the scope and holds no row of another scope of an enforced table. */
  lemma EmittedRowsAreOwn(db: Database, reg: Registry, ctx: Context, q: Query, outer: Env, e: Env)
    requires q.root in reg && reg[q.root].mode == Enforce
    requires e in Eval(db, AddScope(FromManager(q, reg, ctx, |outer|), reg, |outer|), outer)
    ensures |e| == |outer| + 1 + |q.joins| && outer <= e
    ensures e[|outer|].Some? && q.root in db && e[|outer|].value in db[q.root]
    ensures Owned(e[|outer|].value, reg[q.root], ctx.scope)
    ensures forall i | 0 <= i < |q.joins| :: OwnSlot(reg, q.joins[i].table, e[|outer| + 1 + i], ctx.scope)
  {
    var all := Extend(outer, Rows(db, q.root));
    var emitted := AddScope(FromManager(q, reg, ctx, |outer|), reg, |outer|);
    EmittedQuery(q, reg, ctx, |outer|);
    FilterExactly(db, emitted.where, JoinAll(db, emitted.joins, all), e);
    ExtendGrows(outer, Rows(db, q.root));
    EmittedJoinsAreOwn(db, reg, ctx, q.joins, all, |outer| + 1, e);
    var env :| env in all && env <= e && OwnSlots(reg, q.joins, e, |outer| + 1, ctx.scope);
    ExtendExactly(outer, Rows(db, q.root), env);
    assert e[|outer|] == env[|outer|];
    ThreeValues(EvalPred(db, emitted.where.left, e), EvalPred(db, emitted.where.right, e));
  }

  /** Evaluating a queryset of an enforced model, in whatever context, never yields a row of another
      scope: not as its root and not in any slot joined from an enforced table. */
  lemma ScopedRowsAreOwn(db: Database, reg: Registry, ctx: Context, q: Query, current: Option<Context>, e: Env)
    requires q.root in reg && reg[q.root].mode == Enforce
    requires Execute(db, reg, FromManager(q, reg, ctx, 0), current).Ok?
    requires e in Execute(db, reg, FromManager(q, reg, ctx, 0), current).value
    ensures current == Some(ctx)
    ensures |e| == 1 + |q.joins| && e[0].Some? && q.root in db && e[0].value in db[q.root]
    ensures Owned(e[0].value, reg[q.root], ctx.scope)
    ensures forall i | 0 <= i < |q.joins| :: OwnSlot(reg, q.joins[i].table, e[1 + i], ctx.scope)
  {
    ContextFixed(q, reg, ctx, 0, current);
    EmittedRowsAreOwn(db, reg, ctx, q, [], e);
  }

  /** A plain listing returns exactly the scope's rows of the table. */
  lemma ListingExactly(db: Database, reg: Registry, ctx: Context, root: string, row: Row)
    requires root in reg && reg[root].mode == Enforce && root in db
    ensures var q := Query(None, root, [], Atom(env => True));
      var r := Execute(db, reg, FromManager(q, reg, ctx, 0), Some(ctx));
      r.Ok? && ([Some(row)] in r.value <==> row in db[root] && Owned(row, reg[root], ctx.scope))
  {
    var always := Atom(env => True);
    var q := Query(None, root, [], always);
    var tenant := TenantDatabase(db, reg, ctx.scope);
    ScopedQueryMeansTenantQuery(db, reg, ctx, q, Some(ctx));
    FilterExactly(tenant, q.where, Extend([], Rows(tenant, root)), [Some(row)]);
    ExtendExactly([], Rows(tenant, root), [Some(row)]);
    assert forall x: Row :: [Some(row)] == [] + [Some(x)] ==> [Some(row)][0] == ([] + [Some(x)])[0];
    assert [Some(row)] == [] + [Some(row)];
    TenantRowExactly(db, reg, ctx.scope, root, row);
  }
}
