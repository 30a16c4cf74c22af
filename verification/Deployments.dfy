/** Deployments, their versions and their rollbacks (`legacy/v1/scoped/deployments/executor.py` and `rollback.py`). */
module Deployments {
  import opened Wrappers

  datatype State = PENDING | DEPLOYING | DEPLOYED | FAILED | ROLLED_BACK

  predicate Allowed(from: State, to: State) {
    match from
    case PENDING => to == DEPLOYING
    case DEPLOYING => to == DEPLOYED || to == FAILED
    case DEPLOYED => to == ROLLED_BACK
    case FAILED => false
    case ROLLED_BACK => false
  }

  datatype Deployment = Deployment(id: string, target: string, object_: Option<string>, scope: Option<string>,
                                   version: int, state: State, rollbackOf: Option<string>)

  datatype DeploymentError =
    | TargetNotFound | TargetArchived | ObjectNotFound | ScopeNotFound | SourceNotFound | TargetMismatch
    | NotFound | InvalidTransition | NotPending | GatesFailed(count: nat) | NotDeployed | CycleDetected

  /** The stored rows: targets with their activity, deployments in the order of insertion, and for each
      deployment whether its gates passed. */
  datatype Store = Store(targets: map<string, bool>, objects: set<string>, scopes: set<string>,
                         rows: seq<Deployment>, gates: map<string, seq<bool>>)

  function Find(rows: seq<Deployment>, id: string): Option<Deployment> {
    if rows == [] then None
    else if rows[|rows| - 1].id == id then Some(rows[|rows| - 1])
    else Find(rows[..|rows| - 1], id)
  }

  /** `coalesce(max(version), 0)` over the deployments to a target. */
  function MaxVersion(rows: seq<Deployment>, target: string): int {
    if rows == [] then 0
    else
      var last, before := rows[|rows| - 1], MaxVersion(rows[..|rows| - 1], target);
      if last.target == target && last.version > before then last.version else before
  }

  function SetState(rows: seq<Deployment>, id: string, state: State): seq<Deployment> {
    if rows == [] then []
    else
      var last := rows[|rows| - 1];
      SetState(rows[..|rows| - 1], id, state) + [if last.id == id then last.(state := state) else last]
  }

  /** The rollback of `id` with the lowest version. */
  function Earliest(rows: seq<Deployment>, id: string): Option<Deployment> {
    if rows == [] then None
    else
      var last, before := rows[|rows| - 1], Earliest(rows[..|rows| - 1], id);
      if last.rollbackOf == Some(id) && (before.None? || last.version < before.value.version) then Some(last) else before
  }

  datatype Request = Request(id: string, target: string, object_: Option<string>, scope: Option<string>, rollbackOf: Option<string>)

  function Refusal(s: Store, r: Request): Option<DeploymentError> {
    if r.target !in s.targets then Some(TargetNotFound)
    else if !s.targets[r.target] then Some(TargetArchived)
    else if r.object_.Some? && r.object_.value !in s.objects then Some(ObjectNotFound)
    else if r.scope.Some? && r.scope.value !in s.scopes then Some(ScopeNotFound)
    else if r.rollbackOf.None? then None
    else
      var source := Find(s.rows, r.rollbackOf.value);
      if source.None? then Some(SourceNotFound)
      else if source.value.target != r.target then Some(TargetMismatch)
      else None
  }

  function Created(s: Store, r: Request): Deployment {
    Deployment(r.id, r.target, r.object_, r.scope, MaxVersion(s.rows, r.target) + 1, PENDING, r.rollbackOf)
  }

  function RollbackRequest(original: Deployment, id: string): Request {
    Request(id, original.target, original.object_, original.scope, Some(original.id))
  }

  function FailedGates(gates: seq<bool>): nat {
    if gates == [] then 0 else (if gates[0] then 0 else 1) + FailedGates(gates[1..])
  }

  function GatesOf(s: Store, id: string): seq<bool> {
    if id in s.gates then s.gates[id] else []
  }

  datatype Event =
    | Create(request: Request)
    | Transition(id: string, state: State)
    /** `outcome` is what the deploy function returned, absent when none was given; false if it raised. */
    | Execute(id: string, outcome: Option<bool>)
    | Rollback(id: string, newId: string)
    | ArchiveTarget(target: string)
    | PassGate(id: string, passed: bool)

  function CreateStep(s: Store, r: Request): Store {
    if Refusal(s, r).None? then s.(rows := s.rows + [Created(s, r)]) else s
  }

  function TransitionStep(s: Store, id: string, state: State): Store {
    var d := Find(s.rows, id);
    if d.Some? && Allowed(d.value.state, state) then s.(rows := SetState(s.rows, id, state)) else s
  }

  predicate CanExecute(s: Store, id: string) {
    var d := Find(s.rows, id);
    && d.Some? && d.value.state == PENDING
    && d.value.target in s.targets && s.targets[d.value.target] && FailedGates(GatesOf(s, id)) == 0
  }

  function ExecuteStep(s: Store, id: string, outcome: Option<bool>): Store {
    if CanExecute(s, id) then
      TransitionStep(TransitionStep(s, id, DEPLOYING), id, if outcome == Some(false) then FAILED else DEPLOYED)
    else s
  }

  function RollbackStep(s: Store, id: string, newId: string): Store {
    var d := Find(s.rows, id);
    if d.Some? && d.value.state == DEPLOYED && Refusal(s, RollbackRequest(d.value, newId)).None? then
      TransitionStep(CreateStep(s, RollbackRequest(d.value, newId)), id, ROLLED_BACK)
    else s
  }

  function Step(s: Store, e: Event): Store {
    match e
    case Create(r) => CreateStep(s, r)
    case Transition(id, state) => TransitionStep(s, id, state)
    case Execute(id, outcome) => ExecuteStep(s, id, outcome)
    case Rollback(id, newId) => RollbackStep(s, id, newId)
    case ArchiveTarget(target) => if target in s.targets then s.(targets := s.targets[target := false]) else s
    case PassGate(id, passed) => s.(gates := s.gates[id := GatesOf(s, id) + [passed]])
  }

  /** Generated ids are not in use. */
  predicate FreshIds(s: Store, e: Event) {
    match e
    case Create(r) => Find(s.rows, r.id).None?
    case Rollback(id, newId) => Find(s.rows, newId).None?
    case _ => true
  }

  /** A row fits those before it: a new id, the next version on its target, and if it is a rollback, one of
      an earlier deployment to the same target. */
  ghost predicate Fits(before: seq<Deployment>, d: Deployment) {
    && Find(before, d.id).None?
    && d.version == MaxVersion(before, d.target) + 1
    && (d.rollbackOf.Some? ==>
          Find(before, d.rollbackOf.value).Some? && Find(before, d.rollbackOf.value).value.target == d.target)
  }

  ghost predicate Consistent(rows: seq<Deployment>) {
    rows == [] || (Consistent(rows[..|rows| - 1]) && Fits(rows[..|rows| - 1], rows[|rows| - 1]))
  }

  lemma {:induction false} FindMeaning(rows: seq<Deployment>, id: string)
    ensures Find(rows, id).Some? ==> Find(rows, id).value in rows && Find(rows, id).value.id == id
    ensures Find(rows, id).None? ==> forall d | d in rows :: d.id != id
  {
    if rows != [] {
      FindMeaning(rows[..|rows| - 1], id);
      assert rows == rows[..|rows| - 1] + [rows[|rows| - 1]];
    }
  }

  /** Ids are unique: finding by id gives back the row. */
  lemma {:induction false} FindsItself(rows: seq<Deployment>, d: Deployment)
    requires Consistent(rows) && d in rows
    ensures Find(rows, d.id) == Some(d)
  {
    var before, last := rows[..|rows| - 1], rows[|rows| - 1];
    assert rows == before + [last];
    if d in before {
      FindsItself(before, d);
    }
  }

  lemma {:induction false} SetStateKeeps(rows: seq<Deployment>, id: string, state: State)
    ensures |SetState(rows, id, state)| == |rows|
    ensures forall t :: MaxVersion(SetState(rows, id, state), t) == MaxVersion(rows, t)
    ensures forall x :: Find(SetState(rows, id, state), x).Some? <==> Find(rows, x).Some?
    ensures forall x | Find(rows, x).Some? ::
      Find(SetState(rows, id, state), x).value
      == if x == id then Find(rows, x).value.(state := state) else Find(rows, x).value
  {
    if rows != [] {
      var after := SetState(rows, id, state);
      SetStateKeeps(rows[..|rows| - 1], id, state);
      assert after[..|after| - 1] == SetState(rows[..|rows| - 1], id, state);
    }
  }

  /** Row by row: the rows with the id take the state, the others stay. */
  lemma {:induction false} SetStateExactly(rows: seq<Deployment>, id: string, state: State)
    ensures |SetState(rows, id, state)| == |rows|
    ensures forall i | 0 <= i < |rows| :: SetState(rows, id, state)[i] == if rows[i].id == id then rows[i].(state := state) else rows[i]
  {
    if rows != [] {
      SetStateExactly(rows[..|rows| - 1], id, state);
    }
  }

  /** The failed gates are counted one by one. */
  lemma {:induction false} FailedGatesExactly(gates: seq<bool>)
    ensures FailedGates(gates) == multiset(gates)[false]
  {
    if gates != [] {
      FailedGatesExactly(gates[1..]);
      assert gates == [gates[0]] + gates[1..];
    }
  }

  /** Archiving a target refuses every deployment to it from then on, and no other. */
  lemma ArchivingRefuses(s: Store, target: string, r: Request)
    requires target in s.targets
    ensures var after := Step(s, ArchiveTarget(target));
      Refusal(after, r) == if r.target == target then Some(TargetArchived) else Refusal(s, r)
  {
  }

  /** A gate is one condition more for its deployment, and none for any other. */
  lemma GatePermits(s: Store, id: string, passed: bool, other: string)
    ensures var after := Step(s, PassGate(id, passed));
      CanExecute(after, other) <==> CanExecute(s, other) && (other == id ==> passed)
  {
    FailedGatesExactly(GatesOf(s, id));
    FailedGatesExactly(GatesOf(s, id) + [passed]);
  }

  lemma {:induction false} SetStateConsistent(rows: seq<Deployment>, id: string, state: State)
    requires Consistent(rows)
    ensures Consistent(SetState(rows, id, state))
  {
    if rows != [] {
      var after := SetState(rows, id, state);
      SetStateConsistent(rows[..|rows| - 1], id, state);
      SetStateKeeps(rows[..|rows| - 1], id, state);
      assert after[..|after| - 1] == SetState(rows[..|rows| - 1], id, state);
    }
  }

  lemma CreateConsistent(s: Store, r: Request)
    requires Consistent(s.rows) && Find(s.rows, r.id).None?
    ensures Consistent(CreateStep(s, r).rows)
  {
    if Refusal(s, r).None? {
      assert (s.rows + [Created(s, r)])[..|s.rows|] == s.rows;
    }
  }

  lemma TransitionConsistent(s: Store, id: string, state: State)
    requires Consistent(s.rows)
    ensures Consistent(TransitionStep(s, id, state).rows)
  {
    SetStateConsistent(s.rows, id, state);
  }

  lemma StepConsistent(s: Store, e: Event)
    requires Consistent(s.rows) && FreshIds(s, e)
    ensures Consistent(Step(s, e).rows)
  {
    match e {
      case Create(r) => CreateConsistent(s, r);
      case Transition(id, state) => TransitionConsistent(s, id, state);
      case Execute(id, outcome) =>
        TransitionConsistent(s, id, DEPLOYING);
        TransitionConsistent(TransitionStep(s, id, DEPLOYING), id, if outcome == Some(false) then FAILED else DEPLOYED);
      case Rollback(id, newId) =>
        var d := Find(s.rows, id);
        if d.Some? {
          CreateConsistent(s, RollbackRequest(d.value, newId));
          TransitionConsistent(CreateStep(s, RollbackRequest(d.value, newId)), id, ROLLED_BACK);
        }
      case ArchiveTarget(_) =>
      case PassGate(_, _) =>
    }
  }

  function Run(start: Store, events: seq<Event>): Store {
    if events == [] then start else Step(Run(start, events[..|events| - 1]), events[|events| - 1])
  }

  ghost predicate AllFresh(start: Store, events: seq<Event>) {
    events != [] ==>
      AllFresh(start, events[..|events| - 1]) && FreshIds(Run(start, events[..|events| - 1]), events[|events| - 1])
  }

  lemma {:induction false} RunConsistent(start: Store, events: seq<Event>)
    requires start.rows == [] && AllFresh(start, events)
    ensures Consistent(Run(start, events).rows)
    decreases |events|
  {
    if events != [] {
      RunConsistent(start, events[..|events| - 1]);
      StepConsistent(Run(start, events[..|events| - 1]), events[|events| - 1]);
    }
  }

  /** The states a deployment can pass through from a given one: never back, and from a failure nowhere. */
  ghost predicate CanBecome(from: State, to: State) {
    from == to || (from != FAILED && Stage(from) < Stage(to) && (from != DEPLOYED || to != FAILED))
  }

  ghost function Stage(state: State): nat {
    match state
    case PENDING => 0
    case DEPLOYING => 1
    case DEPLOYED => 2
    case FAILED => 2
    case ROLLED_BACK => 3
  }

  /** Where a deployment must be for a transition to lead to a state. */
  ghost predicate ComesFrom(to: State, from: State) {
    match to
    case PENDING => false
    case DEPLOYING => from == PENDING
    case DEPLOYED => from == DEPLOYING
    case FAILED => from == DEPLOYING
    case ROLLED_BACK => from == DEPLOYED
  }

  /** Rows are never removed; of a row only its state changes, and only forwards. */
  ghost predicate Evolves(before: seq<Deployment>, after: seq<Deployment>) {
    forall id | Find(before, id).Some? :: EvolvesInto(Find(before, id).value, Find(after, id))
  }

  ghost predicate EvolvesInto(d: Deployment, later: Option<Deployment>) {
    later.Some? && later.value == d.(state := later.value.state) && CanBecome(d.state, later.value.state)
  }

  lemma CreateEvolves(s: Store, r: Request)
    requires Find(s.rows, r.id).None?
    ensures Evolves(s.rows, CreateStep(s, r).rows)
  {
    if Refusal(s, r).None? {
      assert (s.rows + [Created(s, r)])[..|s.rows|] == s.rows;
    }
  }

  lemma TransitionEvolves(s: Store, id: string, state: State)
    ensures Evolves(s.rows, TransitionStep(s, id, state).rows)
  {
    SetStateKeeps(s.rows, id, state);
  }

  lemma EvolvesOn(a: seq<Deployment>, b: seq<Deployment>, c: seq<Deployment>)
    requires Evolves(a, b) && Evolves(b, c)
    ensures Evolves(a, c)
  {
    forall id | Find(a, id).Some? ensures EvolvesInto(Find(a, id).value, Find(c, id)) {
      assert EvolvesInto(Find(a, id).value, Find(b, id));
      assert EvolvesInto(Find(b, id).value, Find(c, id));
    }
  }

  lemma StepEvolves(s: Store, e: Event)
    requires FreshIds(s, e)
    ensures Evolves(s.rows, Step(s, e).rows)
  {
    match e {
      case Create(r) => CreateEvolves(s, r);
      case Transition(id, state) => TransitionEvolves(s, id, state);
      case Execute(id, outcome) =>
        var final := if outcome == Some(false) then FAILED else DEPLOYED;
        TransitionEvolves(s, id, DEPLOYING);
        TransitionEvolves(TransitionStep(s, id, DEPLOYING), id, final);
        EvolvesOn(s.rows, TransitionStep(s, id, DEPLOYING).rows, TransitionStep(TransitionStep(s, id, DEPLOYING), id, final).rows);
      case Rollback(id, newId) =>
        var d := Find(s.rows, id);
        if d.Some? {
          var created := CreateStep(s, RollbackRequest(d.value, newId));
          CreateEvolves(s, RollbackRequest(d.value, newId));
          TransitionEvolves(created, id, ROLLED_BACK);
          EvolvesOn(s.rows, created.rows, TransitionStep(created, id, ROLLED_BACK).rows);
        }
      case ArchiveTarget(_) =>
      case PassGate(_, _) =>
    }
  }

  /** Over any run a deployment keeps its target, version and source, and its state only moves forwards;
      in particular a failed or rolled-back one never changes again. */
  lemma {:induction false} RunEvolves(start: Store, events: seq<Event>)
    requires AllFresh(start, events)
    ensures Evolves(start.rows, Run(start, events).rows)
    decreases |events|
  {
    if events != [] {
      var before := events[..|events| - 1];
      RunEvolves(start, before);
      StepEvolves(Run(start, before), events[|events| - 1]);
      EvolvesOn(start.rows, Run(start, before).rows, Run(start, events).rows);
    }
  }

  ghost predicate HasVersion(rows: seq<Deployment>, target: string, version: int) {
    exists d :: d in rows && d.target == target && d.version == version
  }

  /** On every target the versions are exactly 1 to the highest. */
  lemma {:induction false} VersionsAreConsecutive(rows: seq<Deployment>, target: string)
    requires Consistent(rows)
    ensures MaxVersion(rows, target) >= 0
    ensures forall v :: HasVersion(rows, target, v) <==> 1 <= v <= MaxVersion(rows, target)
  {
    if rows != [] {
      var before, last := rows[..|rows| - 1], rows[|rows| - 1];
      assert rows == before + [last];
      VersionsAreConsecutive(before, target);
      forall v ensures HasVersion(rows, target, v) <==> 1 <= v <= MaxVersion(rows, target) {
        if HasVersion(before, target, v) {
          var d :| d in before && d.target == target && d.version == v;
          assert d in rows;
        }
        if last.target == target && v == last.version {
          assert last in rows;
        }
        assert HasVersion(rows, target, v) ==> HasVersion(before, target, v) || (last.target == target && v == last.version);
      }
    }
  }

  /** No two deployments to one target share a version. */
  lemma {:induction false} VersionsAreUnique(rows: seq<Deployment>, d: Deployment, e: Deployment)
    requires Consistent(rows) && d in rows && e in rows && d.target == e.target && d.version == e.version
    ensures d == e
  {
    var before, last := rows[..|rows| - 1], rows[|rows| - 1];
    assert rows == before + [last];
    VersionsAreConsecutive(before, d.target);
    if d in before && e in before {
      VersionsAreUnique(before, d, e);
    } else if d in before {
      assert HasVersion(before, d.target, d.version);
    } else if e in before {
      assert HasVersion(before, e.target, e.version);
    }
  }

  /** A rollback names an existing deployment to the same target with a lower version. */
  lemma {:induction false} RollbackIsLater(rows: seq<Deployment>, d: Deployment)
    requires Consistent(rows) && d in rows && d.rollbackOf.Some?
    ensures Find(rows, d.rollbackOf.value).Some?
    ensures Find(rows, d.rollbackOf.value).value.target == d.target
    ensures Find(rows, d.rollbackOf.value).value.version < d.version
  {
    var before, last, source := rows[..|rows| - 1], rows[|rows| - 1], d.rollbackOf.value;
    assert rows == before + [last];
    if d in before {
      RollbackIsLater(before, d);
    } else {
      FindMeaning(before, source);
      VersionsAreConsecutive(before, d.target);
      assert HasVersion(before, d.target, Find(before, source).value.version);
    }
    assert Find(before, source).Some?;
    FindMeaning(before, source);
    FindMeaning(before, last.id);
  }

  lemma {:induction false} EarliestMeaning(rows: seq<Deployment>, id: string)
    ensures Earliest(rows, id).Some? ==>
      && Earliest(rows, id).value in rows && Earliest(rows, id).value.rollbackOf == Some(id)
      && forall d | d in rows && d.rollbackOf == Some(id) :: Earliest(rows, id).value.version <= d.version
    ensures Earliest(rows, id).None? ==> forall d | d in rows :: d.rollbackOf != Some(id)
  {
    if rows != [] {
      EarliestMeaning(rows[..|rows| - 1], id);
      assert rows == rows[..|rows| - 1] + [rows[|rows| - 1]];
    }
  }

  /** From a deployment to its earliest rollback, to that one's, and so on. */
  ghost predicate Links(rows: seq<Deployment>, chain: seq<Deployment>) {
    && (forall d | d in chain :: d in rows)
    && forall i | 0 <= i < |chain| - 1 :: LinkAt(rows, chain, i)
  }

  ghost predicate LinkAt(rows: seq<Deployment>, chain: seq<Deployment>, i: nat)
    requires i + 1 < |chain|
  {
    Earliest(rows, chain[i].id) == Some(chain[i + 1])
  }

  ghost predicate Ascends(chain: seq<Deployment>) {
    forall i, j | 0 <= i < j < |chain| :: chain[i].target == chain[j].target && chain[i].version < chain[j].version
  }

  lemma ChainGrows(rows: seq<Deployment>, chain: seq<Deployment>, d: Deployment)
    requires Links(rows, chain) && d in rows
    requires chain != [] ==> Earliest(rows, chain[|chain| - 1].id) == Some(d)
    ensures Links(rows, chain + [d])
    ensures Consistent(rows) && Ascends(chain) ==> Ascends(chain + [d])
  {
    var longer := chain + [d];
    forall i | 0 <= i < |longer| - 1 ensures LinkAt(rows, longer, i) {
      assert i < |chain| - 1 ==> LinkAt(rows, chain, i);
    }
    if chain != [] && Consistent(rows) {
      var last := chain[|chain| - 1];
      assert last in chain;
      EarliestMeaning(rows, last.id);
      RollbackIsLater(rows, d);
      FindsItself(rows, last);
    }
  }

  /** The next deployment has not been seen: its version is higher than all before. */
  lemma NextIsNew(rows: seq<Deployment>, chain: seq<Deployment>, id: string)
    requires Consistent(rows) && Links(rows, chain) && Ascends(chain) && chain != []
    requires Earliest(rows, chain[|chain| - 1].id).Some? && Earliest(rows, chain[|chain| - 1].id).value.id == id
    ensures forall d | d in chain :: d.id != id
    ensures Find(rows, id) == Earliest(rows, chain[|chain| - 1].id)
  {
    var next := Earliest(rows, chain[|chain| - 1].id).value;
    EarliestMeaning(rows, chain[|chain| - 1].id);
    ChainGrows(rows, chain, next);
    FindsItself(rows, next);
    forall d | d in chain ensures d.id != id {
      var i :| 0 <= i < |chain| && chain[i] == d;
      assert (chain + [next])[i].version < (chain + [next])[|chain|].version;
      FindsItself(rows, d);
    }
  }

  ghost predicate Active(s: Store, target: string) {
    target in s.targets && s.targets[target]
  }

  /** The outcomes of the gates recorded for a deployment. */
  ghost function Gates(s: Store, id: string): seq<bool> {
    if id in s.gates then s.gates[id] else []
  }

  class DeploymentExecutor {
    var store: Store

    constructor (targets: map<string, bool>, objects: set<string>, scopes: set<string>)
      ensures store == Store(targets, objects, scopes, [], map[]) && Consistent(store.rows)
    {
      store := Store(targets, objects, scopes, [], map[]);
    }

    method CreateDeployment(r: Request) returns (result: Result<Deployment, DeploymentError>)
      requires Find(store.rows, r.id).None?
      modifies this
      ensures store == Step(old(store), Create(r))
      ensures result == match Refusal(old(store), r) case None => Ok(Created(old(store), r)) case Some(e) => Err(e)
      ensures var s := old(store);
        match result
        case Ok(d) =>
          && Active(s, r.target) && (r.object_.Some? ==> r.object_.value in s.objects) && (r.scope.Some? ==> r.scope.value in s.scopes)
          && (r.rollbackOf.Some? ==> exists source :: source in s.rows && source.id == r.rollbackOf.value && source.target == r.target)
          && store == s.(rows := s.rows + [d]) && d.state == PENDING && d.id == r.id && d.target == r.target
          && d.object_ == r.object_ && d.scope == r.scope && d.rollbackOf == r.rollbackOf
        case Err(e) =>
          && store == s
          && if r.target !in s.targets then e == TargetNotFound
             else if !Active(s, r.target) then e == TargetArchived
             else if r.object_.Some? && r.object_.value !in s.objects then e == ObjectNotFound
             else if r.scope.Some? && r.scope.value !in s.scopes then e == ScopeNotFound
             else
               && r.rollbackOf.Some?
               && if forall d :: d in s.rows ==> d.id != r.rollbackOf.value then e == SourceNotFound
                  else e == TargetMismatch && exists source :: source in s.rows && source.id == r.rollbackOf.value && source.target != r.target
      ensures old(Consistent(store.rows)) ==> Consistent(store.rows)
    {
      if Consistent(store.rows) {
        StepConsistent(store, Create(r));
      }
      if r.target !in store.targets {
        return Err(TargetNotFound);
      }
      if !store.targets[r.target] {
        return Err(TargetArchived);
      }
      if r.object_.Some? && r.object_.value !in store.objects {
        return Err(ObjectNotFound);
      }
      if r.scope.Some? && r.scope.value !in store.scopes {
        return Err(ScopeNotFound);
      }
      if r.rollbackOf.Some? {
        FindMeaning(store.rows, r.rollbackOf.value);
        var original := Find(store.rows, r.rollbackOf.value);
        if original.None? {
          return Err(SourceNotFound);
        }
        if original.value.target != r.target {
          return Err(TargetMismatch);
        }
      }
      var next := MaxVersion(store.rows, r.target) + 1;
      var d := Deployment(r.id, r.target, r.object_, r.scope, next, PENDING, r.rollbackOf);
      store := store.(rows := store.rows + [d]);
      return Ok(d);
    }

    method TransitionState(id: string, state: State) returns (result: Result<Deployment, DeploymentError>)
      modifies this
      ensures store == Step(old(store), Transition(id, state))
      ensures result.Ok? <==> Find(old(store.rows), id).Some? && Allowed(Find(old(store.rows), id).value.state, state)
      ensures result.Ok? <==> Find(old(store.rows), id).Some? && ComesFrom(state, Find(old(store.rows), id).value.state)
      ensures result.Ok? ==> Find(store.rows, id) == Some(result.value) && result.value == Find(old(store.rows), id).value.(state := state)
      ensures result.Ok? ==> |store.rows| == |old(store.rows)| && forall i | 0 <= i < |store.rows| ::
        store.rows[i] == if old(store.rows)[i].id == id then old(store.rows)[i].(state := state) else old(store.rows)[i]
      ensures result.Err? ==> store == old(store)
      ensures result.Err? ==> result.error == if Find(old(store.rows), id).None? then NotFound else InvalidTransition
      ensures old(Consistent(store.rows)) ==> Consistent(store.rows)
    {
      SetStateExactly(store.rows, id, state);
      if Consistent(store.rows) {
        StepConsistent(store, Transition(id, state));
      }
      var d := Find(store.rows, id);
      if d.None? {
        return Err(NotFound);
      }
      if !Allowed(d.value.state, state) {
        return Err(InvalidTransition);
      }
      SetStateKeeps(store.rows, id, state);
      FindMeaning(store.rows, id);
      store := store.(rows := SetState(store.rows, id, state));
      return Ok(d.value.(state := state));
    }

    method ExecuteDeployment(id: string, outcome: Option<bool>) returns (result: Result<Deployment, DeploymentError>)
      modifies this
      ensures store == Step(old(store), Execute(id, outcome))
      ensures result.Ok? <==> CanExecute(old(store), id)
      ensures var d := Find(old(store.rows), id);
        match result
        case Ok(_) => d.Some? && d.value.state == PENDING && Active(old(store), d.value.target) && (forall passed | passed in Gates(old(store), id) :: passed)
        case Err(e) =>
          if d.None? then e == NotFound
          else if d.value.state != PENDING then e == NotPending
          else if d.value.target !in old(store).targets then e == TargetNotFound
          else if !Active(old(store), d.value.target) then e == TargetArchived
          else e == GatesFailed(multiset(Gates(old(store), id))[false]) && false in Gates(old(store), id)
      ensures result.Ok? ==>
        && Find(store.rows, id) == Some(result.value)
        && result.value.state == if outcome == Some(false) then FAILED else DEPLOYED
      ensures result.Err? ==> store == old(store)
      ensures old(Consistent(store.rows)) ==> Consistent(store.rows)
    {
      var d := Find(store.rows, id);
      if d.None? {
        return Err(NotFound);
      }
      if d.value.state != PENDING {
        return Err(NotPending);
      }
      if d.value.target !in store.targets {
        return Err(TargetNotFound);
      }
      if !store.targets[d.value.target] {
        return Err(TargetArchived);
      }
      FailedGatesExactly(GatesOf(store, id));
      var failed := FailedGates(GatesOf(store, id));
      if failed > 0 {
        return Err(GatesFailed(failed));
      }
      result := TransitionState(id, DEPLOYING);
      if outcome == Some(false) {
        result := TransitionState(id, FAILED);
        return;
      }
      result := TransitionState(id, DEPLOYED);
    }

    method RollbackDeployment(id: string, newId: string) returns (result: Result<Deployment, DeploymentError>)
      requires Find(store.rows, newId).None?
      modifies this
      ensures store == Step(old(store), Rollback(id, newId))
      ensures result.Ok? ==>
        && Find(old(store.rows), id).Some? && Find(store.rows, id) == Some(Find(old(store.rows), id).value.(state := ROLLED_BACK))
        && Find(store.rows, newId) == Some(result.value) && result.value.rollbackOf == Some(id) && result.value.state == PENDING
        && result.value.target == Find(store.rows, id).value.target && result.value.object_ == Find(store.rows, id).value.object_
        && result.value.scope == Find(store.rows, id).value.scope && result.value.id == newId
      ensures var d := Find(old(store.rows), id);
        && (d.None? ==> result == Err(NotFound))
        && (d.Some? && d.value.state != DEPLOYED ==> result == Err(NotDeployed))
        && (d.Some? && d.value.state == DEPLOYED ==>
              var r := Request(newId, d.value.target, d.value.object_, d.value.scope, Some(id));
              match Refusal(old(store), r) case None => result.Ok? case Some(e) => result == Err(e))
      ensures result.Err? ==> store == old(store)
      ensures old(Consistent(store.rows)) ==> Consistent(store.rows)
    {
      var original := Find(store.rows, id);
      if original.None? {
        return Err(NotFound);
      }
      if original.value.state != DEPLOYED {
        return Err(NotDeployed);
      }
      FindMeaning(store.rows, id);
      ghost var before := store.rows;
      result := CreateDeployment(RollbackRequest(original.value, newId));
      if result.Err? {
        return;
      }
      assert store.rows[..|store.rows| - 1] == before;
      SetStateKeeps(store.rows, id, ROLLED_BACK);
      var marked := TransitionState(id, ROLLED_BACK);
    }

    /** The chain ends without the cycle error in every consistent store, and climbs through the versions. */
    method GetRollbackChain(id: string) returns (result: Result<seq<Deployment>, DeploymentError>)
      ensures Consistent(store.rows) ==> result.Ok? && Links(store.rows, result.value) && Ascends(result.value)
      ensures result.Err? ==> result.error == CycleDetected
      ensures result.Ok? && Find(store.rows, id).None? ==> result.value == []
      ensures Consistent(store.rows) && Find(store.rows, id).Some? ==>
        && result.value != [] && Some(result.value[0]) == Find(store.rows, id)
        && Earliest(store.rows, result.value[|result.value| - 1].id).None?
    {
      var chain: seq<Deployment> := [];
      var current := Some(id);
      var seen: set<string> := {};
      while current.Some?
        invariant forall d | d in chain :: d in store.rows
        invariant Consistent(store.rows) ==> Links(store.rows, chain) && Ascends(chain)
        invariant seen == set d | d in chain :: d.id
        invariant chain == [] ==> current == Some(id)
        invariant chain != [] ==> Some(chain[0]) == Find(store.rows, id)
        invariant chain != [] ==> current == NextId(store.rows, chain[|chain| - 1])
        decreases (set d | d in store.rows :: d.id) - seen, current.Some?
      {
        ghost var rows := store.rows;
        if chain != [] && Consistent(rows) {
          NextIsNew(rows, chain, current.value);
        }
        if current.value in seen {
          return Err(CycleDetected);
        }
        var d := Find(store.rows, current.value);
        if d.None? {
          break;
        }
        FindMeaning(rows, current.value);
        if Consistent(rows) {
          ChainGrows(rows, chain, d.value);
        }
        seen := seen + {current.value};
        chain := chain + [d.value];
        var next := Earliest(store.rows, current.value);
        current := if next.Some? then Some(next.value.id) else None;
      }
      return Ok(chain);
    }
  }

  function NextId(rows: seq<Deployment>, d: Deployment): Option<string> {
    var next := Earliest(rows, d.id);
    if next.Some? then Some(next.value.id) else None
  }
}
