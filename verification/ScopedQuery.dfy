/**
 How `pyscoped/query.py` compiles a tenant-scoped query, and what the compiled query means.

 A query is a root table, a list of INNER or LEFT joins with arbitrary ON predicates, and a WHERE
 predicate; predicates may contain correlated subqueries.  Rows are evaluated in SQL's
 three-valued logic over environments: one slot per alias, the slots of the enclosing query first.
 */
module ScopedQuery {
  import opened Wrappers
  import opened Contexts

  datatype Value = Null | Text(text: string) | Number(number: int)

  type Row = map<string, Value>

  type Database = map<string, seq<Row>>

  // A slot holds None when an outer join found no partner for that alias.
  type Env = seq<Option<Row>>

  datatype Truth = True | False | Unknown

  function And(a: Truth, b: Truth): Truth {
    if a == False || b == False then False
    else if a == True && b == True then True
    else Unknown
  }

  function Or(a: Truth, b: Truth): Truth {
    Not(And(Not(a), Not(b)))
  }

  function Not(a: Truth): Truth {
    match a
    case True => False
    case False => True
    case Unknown => Unknown
  }

  /** A registered model, looked up by its table name. */
  datatype TableConfig = TableConfig(scopeColumn: string, mode: Mode)

  type Registry = map<string, TableConfig>

  datatype JoinKind = Inner | LeftOuter

  datatype Join = Join(kind: JoinKind, table: string, on: Pred)

  datatype Pred =
    | Atom(holds: Env -> Truth)
    | ScopeIs(slot: nat, column: string, scope: string)
    | Both(left: Pred, right: Pred)
    | Either(left: Pred, right: Pred)
    | Negate(inner: Pred)
    // EXISTS, IN, scalar and aggregate subqueries: any test of the rows the subquery returns.
    | Subquery(query: Query, test: (Env, seq<Env>) -> Truth)

  datatype Query = Query(context: Option<Context>, root: string, joins: seq<Join>, where: Pred)

  datatype QueryError = MissingContext | ScopeViolation

  // ---------------------------------------------------------------------------------------------
  // Meaning
  // ---------------------------------------------------------------------------------------------

  function Rows(db: Database, table: string): seq<Row> {
    if table in db then db[table] else []
  }

  function Extend(env: Env, rows: seq<Row>): seq<Env> {
    if rows == [] then [] else [env + [Some(rows[0])]] + Extend(env, rows[1..])
  }

  /** `column = value`: unknown when the slot was NULL-extended or the column is NULL. */
  function ColumnIs(slot: Option<Row>, column: string, scope: string): Truth {
    if slot.None? || column !in slot.value || slot.value[column] == Null then Unknown
    else if slot.value[column] == Text(scope) then True
    else False
  }

  function EvalPred(db: Database, p: Pred, env: Env): Truth
    decreases p, 0
  {
    match p
    case Atom(holds) => holds(env)
    case ScopeIs(slot, column, scope) =>
      if slot < |env| then ColumnIs(env[slot], column, scope) else Unknown
    case Both(left, right) => And(EvalPred(db, left, env), EvalPred(db, right, env))
    case Either(left, right) => Or(EvalPred(db, left, env), EvalPred(db, right, env))
    case Negate(inner) => Not(EvalPred(db, inner, env))
    case Subquery(query, test) => test(env, Eval(db, query, env))
  }

  /** The environments on which `p` is true; false and unknown both drop a row. */
  function Filter(db: Database, p: Pred, envs: seq<Env>): seq<Env>
    decreases p, 1, |envs|
  {
    if envs == [] then []
    else
      (if EvalPred(db, p, envs[0]) == True then [envs[0]] else []) + Filter(db, p, envs[1..])
  }

  function JoinOne(db: Database, join: Join, env: Env): seq<Env>
    decreases join, 0, 0
  {
    var matches := Filter(db, join.on, Extend(env, Rows(db, join.table)));
    if matches == [] && join.kind == LeftOuter then [env + [None]] else matches
  }

  function JoinEach(db: Database, join: Join, envs: seq<Env>): seq<Env>
    decreases join, 1, |envs|
  {
    if envs == [] then [] else JoinOne(db, join, envs[0]) + JoinEach(db, join, envs[1..])
  }

  function JoinAll(db: Database, joins: seq<Join>, envs: seq<Env>): seq<Env>
    decreases joins, 0, 0
  {
    if joins == [] then envs else JoinAll(db, joins[1..], JoinEach(db, joins[0], envs))
  }

  /** FROM and ON first, WHERE last. */
  function Eval(db: Database, q: Query, outer: Env): seq<Env>
    decreases q, 0, 0
  {
    Filter(db, q.where, JoinAll(db, q.joins, Extend(outer, Rows(db, q.root))))
  }

  // ---------------------------------------------------------------------------------------------
  // Construction and compilation
  // ---------------------------------------------------------------------------------------------

  predicate Protected(reg: Registry, table: string) {
    table in reg && reg[table].mode == Enforce
  }

  /** `ScopedManager.get_queryset`, for the query and for every subquery: an enforced root model
      gets the current context and a WHERE predicate on its own scope column. */
  function FromManager(q: Query, reg: Registry, ctx: Context, depth: nat): Query
    decreases q, 0
  {
    var joins := JoinsFromManager(q.joins, reg, ctx, depth + 1);
    var where := PredFromManager(q.where, reg, ctx, depth + 1 + |q.joins|);
    if Protected(reg, q.root) then
      Query(Some(ctx), q.root, joins,
            Both(ScopeIs(depth, reg[q.root].scopeColumn, ctx.scope), where))
    else
      Query(None, q.root, joins, where)
  }

  function JoinsFromManager(joins: seq<Join>, reg: Registry, ctx: Context, depth: nat): (r: seq<Join>)
    ensures |r| == |joins|
    decreases joins, 0
  {
    if joins == [] then []
    else
      [Join(joins[0].kind, joins[0].table, PredFromManager(joins[0].on, reg, ctx, depth + 1))]
      + JoinsFromManager(joins[1..], reg, ctx, depth + 1)
  }

  function PredFromManager(p: Pred, reg: Registry, ctx: Context, depth: nat): Pred
    decreases p, 0
  {
    match p
    case Atom(_) => p
    case ScopeIs(_, _, _) => p
    case Both(left, right) =>
      Both(PredFromManager(left, reg, ctx, depth), PredFromManager(right, reg, ctx, depth))
    case Either(left, right) =>
      Either(PredFromManager(left, reg, ctx, depth), PredFromManager(right, reg, ctx, depth))
    case Negate(inner) => Negate(PredFromManager(inner, reg, ctx, depth))
    case Subquery(query, test) => Subquery(FromManager(query, reg, ctx, depth), test)
  }

  /** `check_context`, which every compiler in the tree runs before emitting SQL. */
  predicate InContext(q: Query, current: Option<Context>)
    decreases q, 0
  {
    && (q.context.Some? ==> current == q.context)
    && (forall i | 0 <= i < |q.joins| :: PredInContext(q.joins[i].on, current))
    && PredInContext(q.where, current)
  }

  predicate PredInContext(p: Pred, current: Option<Context>)
    decreases p, 0
  {
    match p
    case Atom(_) => true
    case ScopeIs(_, _, _) => true
    case Both(left, right) => PredInContext(left, current) && PredInContext(right, current)
    case Either(left, right) => PredInContext(left, current) && PredInContext(right, current)
    case Negate(inner) => PredInContext(inner, current)
    case Subquery(query, _) => InContext(query, current)
  }

  /** `get_from_clause` on the whole tree: in a query that carries a context, each join into an
      enforced table emits `ON (...) AND scope`; a query without a context is left alone. */
  function AddScope(q: Query, reg: Registry, depth: nat): Query
    decreases q, 0
  {
    Query(q.context, q.root,
          AddScopeJoins(q.joins, reg, q.context, depth + 1),
          AddScopePred(q.where, reg, depth + 1 + |q.joins|))
  }

  function AddScopeJoins(joins: seq<Join>, reg: Registry, ctx: Option<Context>, depth: nat): (r: seq<Join>)
    ensures |r| == |joins|
    decreases joins, 0
  {
    if joins == [] then []
    else [AddScopeJoin(joins[0], reg, ctx, depth)] + AddScopeJoins(joins[1..], reg, ctx, depth + 1)
  }

  function AddScopeJoin(join: Join, reg: Registry, ctx: Option<Context>, depth: nat): Join
    decreases join, 0
  {
    var on := AddScopePred(join.on, reg, depth + 1);
    if ctx.Some? && Protected(reg, join.table) then
      Join(join.kind, join.table, Both(on, ScopeIs(depth, reg[join.table].scopeColumn, ctx.value.scope)))
    else
      Join(join.kind, join.table, on)
  }

  function AddScopePred(p: Pred, reg: Registry, depth: nat): Pred
    decreases p, 0
  {
    match p
    case Atom(_) => p
    case ScopeIs(_, _, _) => p
    case Both(left, right) => Both(AddScopePred(left, reg, depth), AddScopePred(right, reg, depth))
    case Either(left, right) => Either(AddScopePred(left, reg, depth), AddScopePred(right, reg, depth))
    case Negate(inner) => Negate(AddScopePred(inner, reg, depth))
    case Subquery(query, test) => Subquery(AddScope(query, reg, depth), test)
  }

  /** How a check fails outside the context it demands: `current_context()` itself refuses to be absent. */
  function Refused(current: Option<Context>): QueryError {
    if current.None? then MissingContext else ScopeViolation
  }

  /** Evaluating a queryset: build it from the manager in one context, compile and run it in another. */
  function Execute(db: Database, reg: Registry, built: Query, current: Option<Context>): Result<seq<Env>, QueryError> {
    if InContext(built, current) then Ok(Eval(db, AddScope(built, reg, 0), [])) else Err(Refused(current))
  }

  // ---------------------------------------------------------------------------------------------
  // The tenant's own database
  // ---------------------------------------------------------------------------------------------

  function RowsInScope(rows: seq<Row>, column: string, scope: string): seq<Row> {
    if rows == [] then []
    else
      (if ColumnIs(Some(rows[0]), column, scope) == True then [rows[0]] else [])
      + RowsInScope(rows[1..], column, scope)
  }

  /** The database with every enforced table cut down to one scope. */
  function TenantDatabase(db: Database, reg: Registry, scope: string): Database {
    map table | table in db ::
      if Protected(reg, table) then RowsInScope(db[table], reg[table].scopeColumn, scope) else db[table]
  }

  /** Every (sub)query starts from an enforced model, or touches no enforced table itself.  Reading
      enforced tables through a join from an unregistered model is outside the library's boundary. */
  predicate Guarded(q: Query, reg: Registry)
    decreases q, 0
  {
    && (Protected(reg, q.root) || forall i | 0 <= i < |q.joins| :: !Protected(reg, q.joins[i].table))
    && (forall i | 0 <= i < |q.joins| :: PredGuarded(q.joins[i].on, reg))
    && PredGuarded(q.where, reg)
  }

  predicate PredGuarded(p: Pred, reg: Registry)
    decreases p, 0
  {
    match p
    case Atom(_) => true
    case ScopeIs(_, _, _) => true
    case Both(left, right) => PredGuarded(left, reg) && PredGuarded(right, reg)
    case Either(left, right) => PredGuarded(left, reg) && PredGuarded(right, reg)
    case Negate(inner) => PredGuarded(inner, reg)
    case Subquery(query, _) => Guarded(query, reg)
  }

  // ---------------------------------------------------------------------------------------------
  // The compiled query means the author's query on the tenant's database
  // ---------------------------------------------------------------------------------------------

  /** The predicate the compiler finally emits for `p` in a tree built under `ctx`. */
  function Emitted(p: Pred, reg: Registry, ctx: Context, depth: nat): Pred {
    AddScopePred(PredFromManager(p, reg, ctx, depth), reg, depth)
  }

  ghost predicate AllOfDepth(envs: seq<Env>, depth: nat) {
    forall e :: e in envs ==> |e| == depth
  }

  /** Every environment in `envs` is `env` with one more slot. */
  ghost predicate Grow(envs: seq<Env>, env: Env) {
    forall e :: e in envs ==> |e| == |env| + 1 && env <= e
  }

  lemma {:induction false} FilterSubset(db: Database, p: Pred, envs: seq<Env>)
    ensures forall e :: e in Filter(db, p, envs) ==> e in envs
    decreases |envs|
  {
    if envs != [] {
      FilterSubset(db, p, envs[1..]);
    }
  }

  lemma {:induction false} ExtendGrows(env: Env, rows: seq<Row>)
    ensures Grow(Extend(env, rows), env)
  {
    if rows != [] {
      ExtendGrows(env, rows[1..]);
    }
  }

  lemma JoinOneGrows(db: Database, join: Join, env: Env)
    ensures Grow(JoinOne(db, join, env), env)
  {
    ExtendGrows(env, Rows(db, join.table));
    FilterSubset(db, join.on, Extend(env, Rows(db, join.table)));
  }

  lemma FilterStep(db: Database, p: Pred, envs: seq<Env>)
    requires envs != []
    ensures Filter(db, p, envs)
         == (if EvalPred(db, p, envs[0]) == True then [envs[0]] else []) + Filter(db, p, envs[1..])
  {
  }

  lemma {:induction false} FilterAppend(db: Database, p: Pred, a: seq<Env>, b: seq<Env>)
    ensures Filter(db, p, a + b) == Filter(db, p, a) + Filter(db, p, b)
    decreases |a|
  {
    if a == [] {
      assert a + b == b;
    } else {
      FilterAppend(db, p, a[1..], b);
      assert (a + b)[1..] == a[1..] + b && (a + b)[0] == a[0];
      FilterStep(db, p, a + b);
      FilterStep(db, p, a);
    }
  }

  /** Dropping rows on `Both(p, q)` is dropping them on `p` and then on `q`. */
  lemma {:induction false} FilterBoth(db: Database, p: Pred, q: Pred, envs: seq<Env>)
    ensures Filter(db, Both(p, q), envs) == Filter(db, q, Filter(db, p, envs))
    decreases |envs|
  {
    if envs != [] {
      FilterBoth(db, p, q, envs[1..]);
      var head := if EvalPred(db, p, envs[0]) == True then [envs[0]] else [];
      FilterAppend(db, q, head, Filter(db, p, envs[1..]));
    }
  }

  lemma {:induction false} FilterUniform(db: Database, p: Pred, envs: seq<Env>, keep: bool)
    requires forall e :: e in envs ==> (EvalPred(db, p, e) == True) == keep
    ensures Filter(db, p, envs) == if keep then envs else []
    decreases |envs|
  {
    if envs != [] {
      assert envs[0] in envs;
      FilterUniform(db, p, envs[1..], keep);
      assert envs == [envs[0]] + envs[1..];
    }
  }

  lemma {:induction false} ExtendInScope(db: Database, env: Env, rows: seq<Row>, column: string, scope: string)
    ensures Filter(db, ScopeIs(|env|, column, scope), Extend(env, rows))
         == Extend(env, RowsInScope(rows, column, scope))
  {
    if rows != [] {
      ExtendInScope(db, env, rows[1..], column, scope);
      var head := if ColumnIs(Some(rows[0]), column, scope) == True then [rows[0]] else [];
      assert (head + RowsInScope(rows[1..], column, scope))[|head|..] == RowsInScope(rows[1..], column, scope);
    }
  }

  lemma JoinOneKeepsScope(db: Database, join: Join, env: Env, slot: nat, column: string, scope: string)
    requires slot < |env|
    ensures forall e :: e in JoinOne(db, join, env) ==>
      EvalPred(db, ScopeIs(slot, column, scope), e) == EvalPred(db, ScopeIs(slot, column, scope), env)
  {
    JoinOneGrows(db, join, env);
  }

  /** A join keeps the slots it starts from, so a filter on an earlier slot can move before it. */
  lemma {:induction false} ScopeBeforeJoin(db: Database, join: Join, envs: seq<Env>, slot: nat, column: string, scope: string)
    requires forall e :: e in envs ==> slot < |e|
    ensures Filter(db, ScopeIs(slot, column, scope), JoinEach(db, join, envs))
         == JoinEach(db, join, Filter(db, ScopeIs(slot, column, scope), envs))
    decreases |envs|
  {
    hide JoinOne, EvalPred;
    if envs != [] {
      var p := ScopeIs(slot, column, scope);
      var first := JoinOne(db, join, envs[0]);
      var rest := Filter(db, p, envs[1..]);
      FilterAppend(db, p, first, JoinEach(db, join, envs[1..]));
      ScopeBeforeJoin(db, join, envs[1..], slot, column, scope);
      JoinOneKeepsScope(db, join, envs[0], slot, column, scope);
      FilterUniform(db, p, first, EvalPred(db, p, envs[0]) == True);
      if EvalPred(db, p, envs[0]) == True {
        assert Filter(db, p, envs) == [envs[0]] + rest;
        assert ([envs[0]] + rest)[1..] == rest;
      } else {
        assert Filter(db, p, envs) == [] + rest == rest;
      }
    }
  }

  lemma {:induction false} JoinEachDepth(db: Database, join: Join, envs: seq<Env>, depth: nat)
    requires AllOfDepth(envs, depth)
    ensures AllOfDepth(JoinEach(db, join, envs), depth + 1)
    decreases |envs|
  {
    if envs != [] {
      assert envs[0] in envs;
      JoinOneGrows(db, join, envs[0]);
      JoinEachDepth(db, join, envs[1..], depth);
    }
  }

  lemma {:induction false} ScopeBeforeJoins(db: Database, joins: seq<Join>, envs: seq<Env>, depth: nat, slot: nat, column: string, scope: string)
    requires AllOfDepth(envs, depth) && slot < depth
    ensures Filter(db, ScopeIs(slot, column, scope), JoinAll(db, joins, envs))
         == JoinAll(db, joins, Filter(db, ScopeIs(slot, column, scope), envs))
    decreases |joins|
  {
    if joins != [] {
      ScopeBeforeJoin(db, joins[0], envs, slot, column, scope);
      JoinEachDepth(db, joins[0], envs, depth);
      ScopeBeforeJoins(db, joins[1..], JoinEach(db, joins[0], envs), depth + 1, slot, column, scope);
    }
  }

  lemma {:induction false} JoinAllDepth(db: Database, joins: seq<Join>, envs: seq<Env>, depth: nat)
    requires AllOfDepth(envs, depth)
    ensures AllOfDepth(JoinAll(db, joins, envs), depth + |joins|)
    decreases |joins|
  {
    if joins != [] {
      JoinEachDepth(db, joins[0], envs, depth);
      JoinAllDepth(db, joins[1..], JoinEach(db, joins[0], envs), depth + 1);
    }
  }

  lemma TenantRows(db: Database, reg: Registry, scope: string, table: string)
    ensures Rows(TenantDatabase(db, reg, scope), table)
         == if Protected(reg, table) then RowsInScope(Rows(db, table), reg[table].scopeColumn, scope)
            else Rows(db, table)
  {
  }

  lemma {:induction false} PredMeaning(db: Database, reg: Registry, ctx: Context, p: Pred, env: Env)
    requires PredGuarded(p, reg)
    ensures EvalPred(db, Emitted(p, reg, ctx, |env|), env)
         == EvalPred(TenantDatabase(db, reg, ctx.scope), p, env)
    decreases p, 0, 0
  {
    match p
    case Atom(_) =>
    case ScopeIs(_, _, _) =>
    case Both(left, right) =>
      PredMeaning(db, reg, ctx, left, env);
      PredMeaning(db, reg, ctx, right, env);
    case Either(left, right) =>
      PredMeaning(db, reg, ctx, left, env);
      PredMeaning(db, reg, ctx, right, env);
    case Negate(inner) => PredMeaning(db, reg, ctx, inner, env);
    case Subquery(query, _) => QueryMeaning(db, reg, ctx, query, env);
  }

  lemma {:induction false} FilterMeaning(db: Database, reg: Registry, ctx: Context, p: Pred, envs: seq<Env>, depth: nat)
    requires PredGuarded(p, reg) && AllOfDepth(envs, depth)
    ensures Filter(db, Emitted(p, reg, ctx, depth), envs)
         == Filter(TenantDatabase(db, reg, ctx.scope), p, envs)
    decreases p, 1, |envs|
  {
    if envs != [] {
      assert envs[0] in envs;
      PredMeaning(db, reg, ctx, p, envs[0]);
      FilterMeaning(db, reg, ctx, p, envs[1..], depth);
    }
  }

  /** The join as emitted: what the manager built, then what the compiler added. */
  function EmittedJoin(join: Join, reg: Registry, ctx: Context, guard: Option<Context>, depth: nat): Join {
    AddScopeJoin(Join(join.kind, join.table, PredFromManager(join.on, reg, ctx, depth + 1)), reg, guard, depth)
  }

  /** A query that carries no context may not join an enforced table. */
  ghost predicate GuardFits(join: Join, reg: Registry, ctx: Context, guard: Option<Context>) {
    guard == Some(ctx) || (guard == None && !Protected(reg, join.table))
  }

  lemma {:induction false} JoinOneMeaning(db: Database, reg: Registry, ctx: Context, guard: Option<Context>, join: Join, env: Env)
    requires PredGuarded(join.on, reg) && GuardFits(join, reg, ctx, guard)
    ensures JoinOne(db, EmittedJoin(join, reg, ctx, guard, |env|), env)
         == JoinOne(TenantDatabase(db, reg, ctx.scope), join, env)
    decreases join, 0, 0
  {
    hide Filter, Extend;
    var tenant := TenantDatabase(db, reg, ctx.scope);
    var rows := Rows(db, join.table);
    var on := Emitted(join.on, reg, ctx, |env| + 1);
    TenantRows(db, reg, ctx.scope, join.table);
    ExtendGrows(env, Rows(tenant, join.table));
    FilterMeaning(db, reg, ctx, join.on, Extend(env, Rows(tenant, join.table)), |env| + 1);
    if Protected(reg, join.table) {
      var column := reg[join.table].scopeColumn;
      var scope := ScopeIs(|env|, column, ctx.scope);
      var envs := Extend(env, rows);
      FilterSwap(db, on, scope, envs);
      FilterBoth(db, scope, on, envs);
      ExtendInScope(db, env, rows, column, ctx.scope);
    }
  }

  lemma {:induction false} FilterSwap(db: Database, p: Pred, q: Pred, envs: seq<Env>)
    ensures Filter(db, Both(p, q), envs) == Filter(db, Both(q, p), envs)
    decreases |envs|
  {
    if envs != [] {
      FilterSwap(db, p, q, envs[1..]);
    }
  }

  lemma {:induction false} JoinEachMeaning(db: Database, reg: Registry, ctx: Context, guard: Option<Context>, join: Join, envs: seq<Env>, depth: nat)
    requires PredGuarded(join.on, reg) && GuardFits(join, reg, ctx, guard) && AllOfDepth(envs, depth)
    ensures JoinEach(db, EmittedJoin(join, reg, ctx, guard, depth), envs)
         == JoinEach(TenantDatabase(db, reg, ctx.scope), join, envs)
    decreases join, 1, |envs|
  {
    if envs != [] {
      assert envs[0] in envs;
      JoinOneMeaning(db, reg, ctx, guard, join, envs[0]);
      JoinEachMeaning(db, reg, ctx, guard, join, envs[1..], depth);
    }
  }

  lemma {:induction false} JoinAllMeaning(db: Database, reg: Registry, ctx: Context, guard: Option<Context>, joins: seq<Join>, envs: seq<Env>, depth: nat)
    requires AllOfDepth(envs, depth)
    requires forall i | 0 <= i < |joins| :: PredGuarded(joins[i].on, reg) && GuardFits(joins[i], reg, ctx, guard)
    ensures JoinAll(db, AddScopeJoins(JoinsFromManager(joins, reg, ctx, depth), reg, guard, depth), envs)
         == JoinAll(TenantDatabase(db, reg, ctx.scope), joins, envs)
    decreases joins, 0, 0
  {
    hide JoinEach;
    if joins != [] {
      var built := JoinsFromManager(joins, reg, ctx, depth);
      assert built[1..] == JoinsFromManager(joins[1..], reg, ctx, depth + 1);
      JoinEachMeaning(db, reg, ctx, guard, joins[0], envs, depth);
      var next := JoinEach(TenantDatabase(db, reg, ctx.scope), joins[0], envs);
      JoinEachDepth(TenantDatabase(db, reg, ctx.scope), joins[0], envs, depth);
      JoinAllMeaning(db, reg, ctx, guard, joins[1..], next, depth + 1);
    }
  }

  /** The joins of a query, compiled, on the full database: the author's joins on the tenant's. */
  lemma {:induction false} FromMeaning(db: Database, reg: Registry, ctx: Context, guard: Option<Context>, q: Query, outer: Env)
    requires Guarded(q, reg)
    requires guard == if Protected(reg, q.root) then Some(ctx) else None
    ensures JoinAll(db, AddScopeJoins(JoinsFromManager(q.joins, reg, ctx, |outer| + 1), reg, guard, |outer| + 1),
                    Extend(outer, Rows(db, q.root)))
         == JoinAll(TenantDatabase(db, reg, ctx.scope), q.joins, Extend(outer, Rows(db, q.root)))
    ensures AllOfDepth(JoinAll(TenantDatabase(db, reg, ctx.scope), q.joins, Extend(outer, Rows(db, q.root))),
                       |outer| + 1 + |q.joins|)
    decreases q.joins, 1, 0
  {
    var all := Extend(outer, Rows(db, q.root));
    ExtendGrows(outer, Rows(db, q.root));
    JoinAllMeaning(db, reg, ctx, guard, q.joins, all, |outer| + 1);
    JoinAllDepth(TenantDatabase(db, reg, ctx.scope), q.joins, all, |outer| + 1);
  }

  /** The root predicate in WHERE does what a cut-down root table would have done in FROM. */
  lemma {:induction false} RootMeaning(tenant: Database, joins: seq<Join>, rows: seq<Row>, outer: Env, column: string, scope: string)
    ensures Filter(tenant, ScopeIs(|outer|, column, scope), JoinAll(tenant, joins, Extend(outer, rows)))
         == JoinAll(tenant, joins, Extend(outer, RowsInScope(rows, column, scope)))
  {
    ExtendGrows(outer, rows);
    ScopeBeforeJoins(tenant, joins, Extend(outer, rows), |outer| + 1, |outer|, column, scope);
    ExtendInScope(tenant, outer, rows, column, scope);
  }

  /** The WHERE predicate of a compiled query: an enforced root carries its own scope predicate. */
  function EmittedWhere(q: Query, reg: Registry, ctx: Context, depth: nat): Pred {
    var where := Emitted(q.where, reg, ctx, depth + 1 + |q.joins|);
    if Protected(reg, q.root) then Both(ScopeIs(depth, reg[q.root].scopeColumn, ctx.scope), where) else where
  }

  lemma {:induction false} EmittedQuery(q: Query, reg: Registry, ctx: Context, depth: nat)
    ensures AddScope(FromManager(q, reg, ctx, depth), reg, depth)
         == var guard := if Protected(reg, q.root) then Some(ctx) else None;
            Query(guard, q.root,
                  AddScopeJoins(JoinsFromManager(q.joins, reg, ctx, depth + 1), reg, guard, depth + 1),
                  EmittedWhere(q, reg, ctx, depth))
  {
    var inner := depth + 1 + |q.joins|;
    var where := PredFromManager(q.where, reg, ctx, inner);
    if Protected(reg, q.root) {
      var scope := ScopeIs(depth, reg[q.root].scopeColumn, ctx.scope);
      assert FromManager(q, reg, ctx, depth).where == Both(scope, where);
      assert AddScopePred(Both(scope, where), reg, inner)
          == Both(AddScopePred(scope, reg, inner), AddScopePred(where, reg, inner));
      assert AddScopePred(scope, reg, inner) == scope;
    }
  }

  lemma {:induction false} WhereMeaning(db: Database, reg: Registry, ctx: Context, q: Query, outer: Env, joined: seq<Env>)
    requires Guarded(q, reg)
    requires joined == JoinAll(TenantDatabase(db, reg, ctx.scope), q.joins, Extend(outer, Rows(db, q.root)))
    requires AllOfDepth(joined, |outer| + 1 + |q.joins|)
    ensures Filter(db, EmittedWhere(q, reg, ctx, |outer|), joined)
         == Eval(TenantDatabase(db, reg, ctx.scope), q, outer)
    decreases q, 0, 0
  {
    var tenant := TenantDatabase(db, reg, ctx.scope);
    var depth := |outer| + 1 + |q.joins|;
    TenantRows(db, reg, ctx.scope, q.root);
    if Protected(reg, q.root) {
      var column := reg[q.root].scopeColumn;
      var scope := ScopeIs(|outer|, column, ctx.scope);
      var visible := Filter(tenant, scope, joined);
      FilterBoth(db, scope, Emitted(q.where, reg, ctx, depth), joined);
      FilterSameScope(db, tenant, scope, joined);
      RootMeaning(tenant, q.joins, Rows(db, q.root), outer, column, ctx.scope);
      FilterSubset(tenant, scope, joined);
      FilterMeaning(db, reg, ctx, q.where, visible, depth);
    } else {
      FilterMeaning(db, reg, ctx, q.where, joined, depth);
    }
  }

  lemma {:induction false} QueryMeaning(db: Database, reg: Registry, ctx: Context, q: Query, outer: Env)
    requires Guarded(q, reg)
    ensures Eval(db, AddScope(FromManager(q, reg, ctx, |outer|), reg, |outer|), outer)
         == Eval(TenantDatabase(db, reg, ctx.scope), q, outer)
    decreases q, 1, 0
  {
    var guard := if Protected(reg, q.root) then Some(ctx) else None;
    EmittedQuery(q, reg, ctx, |outer|);
    FromMeaning(db, reg, ctx, guard, q, outer);
    WhereMeaning(db, reg, ctx, q, outer, JoinAll(TenantDatabase(db, reg, ctx.scope), q.joins, Extend(outer, Rows(db, q.root))));
  }

  lemma {:induction false} FilterSameScope(db: Database, db': Database, p: Pred, envs: seq<Env>)
    requires p.ScopeIs?
    ensures Filter(db, p, envs) == Filter(db', p, envs)
    decreases |envs|
  {
    if envs != [] {
      FilterSameScope(db, db', p, envs[1..]);
    }
  }

  // ---------------------------------------------------------------------------------------------
  // Main results
  // ---------------------------------------------------------------------------------------------

  /** Whether the manager bound a context anywhere in the tree. */
  predicate TouchesEnforcedRoot(q: Query, reg: Registry)
    decreases q, 0
  {
    || Protected(reg, q.root)
    || (exists i | 0 <= i < |q.joins| :: PredTouches(q.joins[i].on, reg))
    || PredTouches(q.where, reg)
  }

  predicate PredTouches(p: Pred, reg: Registry)
    decreases p, 0
  {
    match p
    case Atom(_) => false
    case ScopeIs(_, _, _) => false
    case Both(left, right) => PredTouches(left, reg) || PredTouches(right, reg)
    case Either(left, right) => PredTouches(left, reg) || PredTouches(right, reg)
    case Negate(inner) => PredTouches(inner, reg)
    case Subquery(query, _) => TouchesEnforcedRoot(query, reg)
  }

  lemma {:induction false} BuiltJoin(joins: seq<Join>, reg: Registry, ctx: Context, depth: nat, i: nat)
    requires i < |joins|
    ensures JoinsFromManager(joins, reg, ctx, depth)[i].on == PredFromManager(joins[i].on, reg, ctx, depth + i + 1)
    decreases i
  {
    if i > 0 {
      BuiltJoin(joins[1..], reg, ctx, depth + 1, i - 1);
    }
  }

  lemma {:induction false} PredContextFixed(p: Pred, reg: Registry, ctx: Context, depth: nat, current: Option<Context>)
    ensures PredInContext(PredFromManager(p, reg, ctx, depth), current)
        <==> (current == Some(ctx) || !PredTouches(p, reg))
    decreases p, 0
  {
    match p
    case Atom(_) =>
    case ScopeIs(_, _, _) =>
    case Both(left, right) =>
      PredContextFixed(left, reg, ctx, depth, current);
      PredContextFixed(right, reg, ctx, depth, current);
    case Either(left, right) =>
      PredContextFixed(left, reg, ctx, depth, current);
      PredContextFixed(right, reg, ctx, depth, current);
    case Negate(inner) => PredContextFixed(inner, reg, ctx, depth, current);
    case Subquery(query, _) => ContextFixed(query, reg, ctx, depth, current);
  }

  /** A queryset built in one context compiles in another only if nothing in it is scoped. */
  lemma {:induction false} ContextFixed(q: Query, reg: Registry, ctx: Context, depth: nat, current: Option<Context>)
    ensures InContext(FromManager(q, reg, ctx, depth), current)
        <==> (current == Some(ctx) || !TouchesEnforcedRoot(q, reg))
    decreases q, 0
  {
    var inner := depth + 1 + |q.joins|;
    var where := PredFromManager(q.where, reg, ctx, inner);
    var built := FromManager(q, reg, ctx, depth);
    PredContextFixed(q.where, reg, ctx, inner, current);
    forall i | 0 <= i < |q.joins|
      ensures PredInContext(built.joins[i].on, current)
          <==> (current == Some(ctx) || !PredTouches(q.joins[i].on, reg))
    {
      BuiltJoin(q.joins, reg, ctx, depth + 1, i);
      PredContextFixed(q.joins[i].on, reg, ctx, depth + i + 2, current);
    }
    if Protected(reg, q.root) {
      assert built.where == Both(ScopeIs(depth, reg[q.root].scopeColumn, ctx.scope), where);
    }
    assert PredInContext(built.where, current) <==> PredInContext(where, current);
  }

  /** What a scoped queryset returns is what its author's query returns on the tenant's database,
      row for row and in the same order; in another context, or in none, it is refused. */
  lemma ScopedQueryMeansTenantQuery(db: Database, reg: Registry, ctx: Context, q: Query, current: Option<Context>)
    requires Guarded(q, reg)
    ensures current == Some(ctx) ==>
      Execute(db, reg, FromManager(q, reg, ctx, 0), current) == Ok(Eval(TenantDatabase(db, reg, ctx.scope), q, []))
    ensures current != Some(ctx) && TouchesEnforcedRoot(q, reg) ==>
      Execute(db, reg, FromManager(q, reg, ctx, 0), current) == Err(if current.None? then MissingContext else ScopeViolation)
  {
    ContextFixed(q, reg, ctx, 0, current);
    QueryMeaning(db, reg, ctx, q, []);
  }

  /** Rows of other scopes never influence a result. */
  lemma OtherTenantsCannotInterfere(db: Database, db': Database, reg: Registry, ctx: Context, q: Query)
    requires Guarded(q, reg)
    requires TenantDatabase(db, reg, ctx.scope) == TenantDatabase(db', reg, ctx.scope)
    ensures Execute(db, reg, FromManager(q, reg, ctx, 0), Some(ctx))
         == Execute(db', reg, FromManager(q, reg, ctx, 0), Some(ctx))
  {
    ScopedQueryMeansTenantQuery(db, reg, ctx, q, Some(ctx));
    ScopedQueryMeansTenantQuery(db', reg, ctx, q, Some(ctx));
  }

  /** `Guarded` is needed: whenever an unenforced root may join an enforced table, some query tells
      apart two databases that hold the same rows for this tenant. */
  lemma UnguardedJoinLeaks(reg: Registry, ctx: Context, root: string, table: string)
    returns (q: Query, db: Database, db': Database)
    requires !Protected(reg, root) && Protected(reg, table)
    ensures q.root == root && |q.joins| == 1 && q.joins[0].table == table
    ensures TenantDatabase(db, reg, ctx.scope) == TenantDatabase(db', reg, ctx.scope)
    ensures Execute(db, reg, FromManager(q, reg, ctx, 0), Some(ctx))
         != Execute(db', reg, FromManager(q, reg, ctx, 0), Some(ctx))
  {
    var always := Atom(env => True);
    var foreign: Row := map[reg[table].scopeColumn := Text(ctx.scope + "!")];
    q := Query(None, root, [Join(Inner, table, always)], always);
    db := map[root := [map[]], table := [foreign]];
    db' := map[root := [map[]], table := []];
    assert RowsInScope([foreign], reg[table].scopeColumn, ctx.scope) == [] by {
      assert |ctx.scope + "!"| != |ctx.scope|;
      assert [foreign][1..] == [];
    }
    ContextFixed(q, reg, ctx, 0, Some(ctx));
    EmittedQuery(q, reg, ctx, 0);
    var e := AddScope(FromManager(q, reg, ctx, 0), reg, 0);
    assert e.joins == [Join(Inner, table, always)];
    var start: Env := [] + [Some(map[])];
    ExtendOne([], map[]);
    ExtendOne(start, foreign);
    var found := start + [Some(foreign)];
    FilterUniform(db, always, [found], true);
    assert JoinOne(db, e.joins[0], start) == [found];
    assert JoinEach(db, e.joins[0], [start]) == [found] + JoinEach(db, e.joins[0], []);
    assert JoinAll(db, e.joins, [start]) == JoinAll(db, [], [found]);
    assert JoinOne(db', e.joins[0], start) == [];
    assert JoinEach(db', e.joins[0], [start]) == [] + JoinEach(db', e.joins[0], []);
    assert JoinAll(db', e.joins, [start]) == JoinAll(db', [], []);
    assert Eval(db, e, []) == Filter(db, always, [found]);
  }

  lemma ExtendOne(env: Env, row: Row)
    ensures Extend(env, [row]) == [env + [Some(row)]]
  {
    assert [row][1..] == [];
  }

  // ---------------------------------------------------------------------------------------------
  // The alias map, rewritten in place and put back
  // ---------------------------------------------------------------------------------------------

  /** One entry of `alias_map`: the base table has no parent alias, a join has one. */
  datatype FromEntry =
    | Base(table: string)
    | Plain(join: Join)
    | Wrapped(join: Join, context: Context, column: string)

  /** `_ScopedJoin.as_sql`, and Django's own `as_sql` for the other entries. */
  function EmitEntry(entry: FromEntry, reg: Registry, slot: nat, current: Option<Context>): Result<seq<Join>, QueryError> {
    if entry.Base? then Ok([])
    else if entry.Wrapped? && current != Some(entry.context) then Err(Refused(current))
    else if !PredInContext(entry.join.on, current) then Err(Refused(current))
    else
      var on := AddScopePred(entry.join.on, reg, slot + 1);
      var on' := if entry.Wrapped? then Both(on, ScopeIs(slot, entry.column, entry.context.scope)) else on;
      Ok([Join(entry.join.kind, entry.join.table, on')])
  }

  /** Django's `get_from_clause`: the entries in alias order, stopping at the first refusal. */
  function EmitFrom(entries: seq<FromEntry>, reg: Registry, slot: nat, current: Option<Context>): Result<seq<Join>, QueryError>
    decreases |entries|
  {
    if entries == [] then Ok([])
    else
      var head := EmitEntry(entries[0], reg, slot, current);
      if head.Err? then head
      else
        var rest := EmitFrom(entries[1..], reg, slot + 1, current);
        if rest.Err? then rest else Ok(head.value + rest.value)
  }

  function Joins(entries: seq<FromEntry>): seq<Join>
    requires forall i | 0 <= i < |entries| :: entries[i].Plain?
  {
    if entries == [] then [] else [entries[0].join] + Joins(entries[1..])
  }

  function Swap(entry: FromEntry, reg: Registry, ctx: Option<Context>): FromEntry {
    if entry.Plain? && ctx.Some? && Protected(reg, entry.join.table) then
      Wrapped(entry.join, ctx.value, reg[entry.join.table].scopeColumn)
    else entry
  }

  /** Which joins a compiler with a context scopes, and on which column. */
  ghost function Swapped(join: Join, reg: Registry, ctx: Context): FromEntry {
    if join.table in reg && reg[join.table].mode == Enforce then Wrapped(join, ctx, reg[join.table].scopeColumn)
    else Plain(join)
  }

  /** Whether every entry can be emitted in `current`. */
  predicate Emittable(entries: seq<FromEntry>, reg: Registry, ctx: Option<Context>, current: Option<Context>) {
    forall i | 0 <= i < |entries| && entries[i].Plain? ::
      && PredInContext(entries[i].join.on, current)
      && (ctx.Some? && Protected(reg, entries[i].join.table) ==> current == ctx)
  }

  lemma NothingToEmit(reg: Registry, ctx: Option<Context>, current: Option<Context>)
    ensures Emittable([], reg, ctx, current)
  {
  }

  lemma EmittableFrom(entries: seq<FromEntry>, reg: Registry, ctx: Option<Context>, current: Option<Context>)
    requires entries != []
    ensures Emittable(entries, reg, ctx, current)
      <==> Emittable([entries[0]], reg, ctx, current) && Emittable(entries[1..], reg, ctx, current)
  {
    assert entries == [entries[0]] + entries[1..];
  }

  lemma SwappedJoinEmits(entry: FromEntry, reg: Registry, ctx: Option<Context>, slot: nat, current: Option<Context>)
    requires entry.Plain?
    ensures EmitEntry(Swap(entry, reg, ctx), reg, slot, current)
         == if Emittable([entry], reg, ctx, current) then Ok([AddScopeJoin(entry.join, reg, ctx, slot)])
            else Err(Refused(current))
  {
    assert [entry][0] == entry;
  }

  /** Emitting the swapped joins yields exactly the joins `AddScopeJoins` describes. */
  lemma {:induction false} SwappedJoinsEmit(entries: seq<FromEntry>, swapped: seq<FromEntry>, reg: Registry,
                                            ctx: Option<Context>, slot: nat, current: Option<Context>)
    requires forall i | 0 <= i < |entries| :: entries[i].Plain?
    requires |swapped| == |entries| && forall i | 0 <= i < |entries| :: swapped[i] == Swap(entries[i], reg, ctx)
    ensures EmitFrom(swapped, reg, slot, current)
         == if Emittable(entries, reg, ctx, current) then Ok(AddScopeJoins(Joins(entries), reg, ctx, slot))
            else Err(Refused(current))
    decreases |entries|
  {
    hide EmitEntry, Swap, AddScopeJoin, Emittable;
    if entries == [] {
      NothingToEmit(reg, ctx, current);
    } else {
      SwappedJoinsEmit(entries[1..], swapped[1..], reg, ctx, slot + 1, current);
      EmittableFrom(entries, reg, ctx, current);
      assert swapped[0] == Swap(entries[0], reg, ctx);
      SwappedJoinEmits(entries[0], reg, ctx, slot, current);
      var j := Joins(entries);
      assert j[0] == entries[0].join && j[1..] == Joins(entries[1..]);
    }
  }

  class CheckedCompiler {
    const reg: Registry
    const context: Option<Context>
    const order: seq<string>
    var aliasMap: map<string, FromEntry>

    ghost predicate Valid()
      reads this
    {
      && |order| > 0
      && (forall i, j | 0 <= i < j < |order| :: order[i] != order[j])
      && (forall a :: a in aliasMap <==> a in order)
      && aliasMap[order[0]].Base?
      && forall i | 0 < i < |order| :: aliasMap[order[i]].Plain?
    }

    constructor (reg: Registry, context: Option<Context>, order: seq<string>, aliasMap: map<string, FromEntry>)
      requires |order| > 0 && (forall i, j | 0 <= i < j < |order| :: order[i] != order[j])
      requires forall a :: a in aliasMap <==> a in order
      requires aliasMap[order[0]].Base? && forall i | 0 < i < |order| :: aliasMap[order[i]].Plain?
      ensures Valid() && this.reg == reg && this.context == context && this.order == order && this.aliasMap == aliasMap
    {
      this.reg, this.context, this.order, this.aliasMap := reg, context, order, aliasMap;
    }

    /** The loop of `get_from_clause`: swap in wrapped copies and remember the originals. */
    method WrapJoins(ctx: Context) returns (originals: map<string, FromEntry>)
      requires Valid() && context == Some(ctx)
      modifies this`aliasMap
      ensures aliasMap.Keys == old(aliasMap).Keys && aliasMap + originals == old(aliasMap)
      ensures forall i | 0 <= i < |order| :: aliasMap[order[i]] == Swap(old(aliasMap)[order[i]], reg, context)
      ensures forall i | 0 < i < |order| :: aliasMap[order[i]] == Swapped(old(aliasMap)[order[i]].join, reg, ctx)
    {
      originals := map[];
      var i := 0;
      while i < |order|
        invariant 0 <= i <= |order|
        invariant aliasMap.Keys == old(aliasMap).Keys && aliasMap + originals == old(aliasMap)
        invariant forall j | 0 <= j < i :: aliasMap[order[j]] == Swap(old(aliasMap)[order[j]], reg, context)
        invariant forall j | i <= j < |order| :: aliasMap[order[j]] == old(aliasMap)[order[j]]
      {
        var alias := order[i];
        var entry := aliasMap[alias];
        if entry.Plain? && Protected(reg, entry.join.table) {
          originals := originals[alias := entry];
          aliasMap := aliasMap[alias := Wrapped(entry.join, ctx, reg[entry.join.table].scopeColumn)];
        }
        i := i + 1;
      }
      forall i | 0 < i < |order| ensures aliasMap[order[i]] == Swapped(old(aliasMap)[order[i]].join, reg, ctx) {
        assert old(aliasMap)[order[i]].Plain?;
      }
    }

    /** The entries in alias order, as Django's own `get_from_clause` reads them. */
    function Entries(): (entries: seq<FromEntry>)
      requires forall a :: a in order ==> a in aliasMap
      reads this
      ensures |entries| == |order| && forall i | 0 <= i < |order| :: entries[i] == aliasMap[order[i]]
    {
      seq(|order|, i requires 0 <= i < |order| && order[i] in aliasMap reads this => aliasMap[order[i]])
    }

    /** Wrap the protected joins, emit the FROM clause, and restore the map whether or not it succeeded. */
    method GetFromClause(current: Option<Context>, depth: nat) returns (r: Result<seq<Join>, QueryError>)
      requires Valid()
      modifies this`aliasMap
      ensures Valid() && aliasMap == old(aliasMap)
      ensures r == if Emittable(Entries()[1..], reg, context, current)
                   then Ok(AddScopeJoins(Joins(Entries()[1..]), reg, context, depth + 1))
                   else Err(if current.None? then MissingContext else ScopeViolation)
    {
      ghost var before := Entries();
      var originals: map<string, FromEntry> := map[];
      if context.Some? {
        originals := WrapJoins(context.value);
      }
      var entries := Entries();
      r := EmitFrom(entries, reg, depth, current);
      SwappedJoinsEmit(before[1..], entries[1..], reg, context, depth + 1, current);
      EmitBase(entries, reg, depth, current);
      aliasMap := aliasMap + originals;
      assert Entries() == before;
    }
  }

  /** The base table emits no join. */
  lemma EmitBase(entries: seq<FromEntry>, reg: Registry, slot: nat, current: Option<Context>)
    requires entries != [] && entries[0].Base?
    ensures EmitFrom(entries, reg, slot, current) == EmitFrom(entries[1..], reg, slot + 1, current)
  {
    var rest := EmitFrom(entries[1..], reg, slot + 1, current);
    assert rest.Ok? ==> [] + rest.value == rest.value;
  }
}
