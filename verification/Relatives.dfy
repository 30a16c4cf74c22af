/** `ancestors` and `descendants` of `legacy/v1/scoped/identity/resolver.py`: depth-bounded
    breadth-first search that lists principals nearest first. */
module Relatives {
  import opened Wrappers
  import opened Walks
  import opened Principals

  ghost predicate NearestFirst(found: seq<string>, dist: map<string, int>) {
    && (forall v :: v in found <==> v in dist)
    && forall i, j | 0 <= i < j < |found| :: found[i] != found[j] && dist[found[i]] <= dist[found[j]]
  }

  ghost predicate Attained(next: Steps, start: string, depth: int, dist: map<string, int>) {
    forall v | v in dist :: 1 <= dist[v] <= depth && Reaches(next, start, v, dist[v])
  }

  ghost predicate Complete(next: Steps, start: string, depth: int, dist: map<string, int>) {
    forall v, k: nat :: 1 <= k <= depth && Reaches(next, start, v, k) ==> FoundBy(dist, v, k)
  }

  /** `found` lists, each once and nearest first, exactly what nonempty walks of at most `depth`
      edges reach; `dist` gives the length of a shortest such walk. */
  ghost predicate WithinDepth(next: Steps, start: string, depth: int, found: seq<string>, dist: map<string, int>) {
    NearestFirst(found, dist) && Attained(next, start, depth, dist) && Complete(next, start, depth, dist)
  }

  /** The list is such a result for some distances. */
  ghost predicate Lists(next: Steps, start: string, depth: int, found: seq<string>) {
    exists dist: map<string, int> :: WithinDepth(next, start, depth, found, dist)
  }

  /** Everything one step from `u`, met at distance `d`, has been found at most one further. */
  ghost predicate Expanded(next: Steps, dist: map<string, int>, u: string, d: int) {
    forall v :: v in next(u) ==> FoundBy(dist, v, d + 1)
  }

  /** The state between two entries of the queue; `done` are the entries already taken from it. */
  ghost predicate Searching(next: Steps, start: string, depth: int, queue: seq<(string, int)>, done: set<(string, int)>,
                            found: seq<string>, dist: map<string, int>) {
    && NearestFirst(found, dist) && Attained(next, start, depth, dist)
    && ((start, 0) in done || (start, 0) in queue)
    && (forall v | v in dist :: (v, dist[v]) in done || (v, dist[v]) in queue)
    && (forall p | p in done && p.1 < depth :: Expanded(next, dist, p.0, p.1))
    && (forall p | p in queue :: p.1 >= 0 && Reaches(next, start, p.0, p.1))
  }

  /** The queue's distances never decrease, and nothing lies more than one past its head. */
  ghost predicate Spread(queue: seq<(string, int)>, dist: map<string, int>, head: int) {
    && (forall i, j | 0 <= i < j < |queue| :: queue[i].1 <= queue[j].1)
    && (forall p | p in queue :: head <= p.1 <= head + 1)
    && (forall v | v in dist :: dist[v] <= head + 1)
  }

  /** The far ends of the edges at `id`, as `get_relationships` lists them. */
  function Targets(g: Graph, id: string, direction: Direction, filter: Option<string>): (targets: seq<string>)
    ensures forall v :: v in Successors(g, direction, filter)(id) <==> v in targets && v in g.principals
  {
    var rels := EdgesFrom(g.edges, id, direction, filter);
    var targets := seq(|rels|, i requires 0 <= i < |rels| => Far(direction, rels[i]));
    assert forall e | e in rels :: Far(direction, e) in targets by {
      forall e | e in rels ensures Far(direction, e) in targets {
        var i :| 0 <= i < |rels| && rels[i] == e;
        assert targets[i] == Far(direction, e);
      }
    }
    targets
  }

  lemma TargetsAreEnds(g: Graph, id: string, direction: Direction, filter: Option<string>)
    ensures Visited(set e | e in g.edges :: Far(direction, e), Targets(g, id, direction, filter))
  {
  }

  ghost predicate Visited(visited: set<string>, targets: seq<string>) {
    forall v :: v in targets ==> v in visited
  }

  lemma VisitedGrows(visited: set<string>, visited': set<string>, targets: seq<string>, m: nat)
    requires m < |targets| && Visited(visited, targets[..m]) && visited <= visited' && targets[m] in visited'
    ensures Visited(visited', targets[..m + 1])
  {
    assert targets[..m + 1] == targets[..m] + [targets[m]];
  }

  /** One turn of the search: enqueue what the edges of `pid` lead to for the first time. */
  method ExpandHead(ghost next: Steps, principals: set<string>, ghost universe: set<string>, start: string, pid: string,
                    d: int, targets: seq<string>, depth: int, visited: set<string>, result: seq<string>,
                    queue: seq<(string, int)>, ghost done: set<(string, int)>, ghost dist: map<string, int>)
    returns (visited': set<string>, result': seq<string>, queue': seq<(string, int)>, ghost dist': map<string, int>)
    requires d < depth && forall v :: v in next(pid) <==> v in targets && v in principals
    requires Searching(next, start, depth, [(pid, d)] + queue, done, result, dist)
    requires Spread(queue, dist, d) && dist.Keys == visited * principals
    requires visited <= universe && Visited(universe, targets)
    ensures Searching(next, start, depth, [(pid, d)] + queue', done, result', dist')
    ensures Spread(queue', dist', d) && dist'.Keys == visited' * principals
    ensures Expanded(next, dist', pid, d)
    ensures visited <= visited' <= universe && (visited' == visited ==> queue' == queue)
  {
    visited', result', queue', dist' := visited, result, queue, dist;
    for m := 0 to |targets|
      invariant Searching(next, start, depth, [(pid, d)] + queue', done, result', dist')
      invariant Spread(queue', dist', d)
      invariant dist'.Keys == visited' * principals
      invariant visited <= visited' <= universe
      invariant Visited(visited', targets[..m])
      invariant visited' == visited ==> queue' == queue
    {
      var target := targets[m];
      ghost var before := visited';
      if target !in visited' {
        visited' := visited' + {target};
        if target in principals {
          Enqueue(next, start, depth, queue', done, result', dist', pid, d, target);
          result' := result' + [target];
          queue' := queue' + [(target, d + 1)];
          dist' := dist'[target := d + 1];
        }
      }
      VisitedGrows(before, visited', targets, m);
    }
    assert targets[..|targets|] == targets;
    AllExpanded(next, principals, targets, visited', dist', pid, d);
  }

  lemma AllExpanded(next: Steps, principals: set<string>, targets: seq<string>, visited: set<string>, dist: map<string, int>, pid: string, d: int)
    requires forall v :: v in next(pid) <==> v in targets && v in principals
    requires Visited(visited, targets) && dist.Keys == visited * principals
    requires forall v | v in dist :: dist[v] <= d + 1
    ensures Expanded(next, dist, pid, d)
  {
    forall v | v in next(pid) ensures FoundBy(dist, v, d + 1) {
      assert v in visited * principals;
    }
  }

  class PrincipalResolver {
    const store: PrincipalStore

    constructor (store: PrincipalStore)
      ensures this.store == store
    {
      this.store := store;
    }

    /** The loop that `ancestors` and `descendants` share, following edges in one direction. */
    method Collect(start: string, direction: Direction, filter: Option<string>, maxDepth: Option<int>)
      returns (result: seq<string>)
      ensures Lists(Successors(store.graph, direction, filter), start, EffectiveDepth(maxDepth), result)
    {
      var depth := EffectiveDepth(maxDepth);
      ghost var next := Successors(store.graph, direction, filter);
      ghost var universe := set e | e in store.graph.edges :: Far(direction, e);
      var visited: set<string> := {};
      result := [];
      var queue := [(start, 0)];
      ghost var done: set<(string, int)>, dist: map<string, int> := {}, map[];
      ReachesZero(next, start);
      while queue != []
        invariant Searching(next, start, depth, queue, done, result, dist)
        invariant queue != [] ==> Spread(queue[1..], dist, queue[0].1)
        invariant visited <= universe && dist.Keys == visited * store.graph.principals
        decreases universe - visited, |queue|
      {
        var (pid, d) := queue[0];
        assert queue == [(pid, d)] + queue[1..];
        queue := queue[1..];
        if d < depth {
          var targets := Targets(store.graph, pid, direction, filter);
          TargetsAreEnds(store.graph, pid, direction, filter);
          ghost var before := visited;
          visited, result, queue, dist :=
            ExpandHead(next, store.graph.principals, universe, start, pid, d, targets, depth, visited, result, queue, done, dist);
          FewerUnvisited(universe, before, visited);
        }
        Dequeue(next, start, depth, queue, done, result, dist, pid, d);
        done := done + {(pid, d)};
      }
      AllFound(next, start, depth, done, result, dist);
    }

    method Ancestors(id: string, filter: Option<string>, maxDepth: Option<int>) returns (r: seq<string>)
      ensures Lists(Successors(store.graph, Up, filter), id, EffectiveDepth(maxDepth), r)
      ensures forall v :: v in r <==> Above(store.graph, filter, id, v, EffectiveDepth(maxDepth))
    {
      r := Collect(id, Up, filter, maxDepth);
      forall v ensures v in r <==> Above(store.graph, filter, id, v, EffectiveDepth(maxDepth)) {
        ListedMeansReached(Successors(store.graph, Up, filter), id, EffectiveDepth(maxDepth), r, v);
        ReachedUpIsAbove(store.graph, filter, id, v, EffectiveDepth(maxDepth));
      }
    }

    method Descendants(id: string, filter: Option<string>, maxDepth: Option<int>) returns (r: seq<string>)
      ensures Lists(Successors(store.graph, Down, filter), id, EffectiveDepth(maxDepth), r)
      ensures forall v :: v in r <==> Below(store.graph, filter, id, v, EffectiveDepth(maxDepth))
    {
      r := Collect(id, Down, filter, maxDepth);
      forall v ensures v in r <==> Below(store.graph, filter, id, v, EffectiveDepth(maxDepth)) {
        ListedMeansReached(Successors(store.graph, Down, filter), id, EffectiveDepth(maxDepth), r, v);
        ReachedDownIsBelow(store.graph, filter, id, v, EffectiveDepth(maxDepth));
      }
    }

    /** `all_related_ids`: the principal itself and everything above or below it. */
    method AllRelatedIds(id: string, filter: Option<string>, maxDepth: Option<int>) returns (ids: set<string>)
      ensures forall v :: v in ids <==>
        || v == id
        || Above(store.graph, filter, id, v, EffectiveDepth(maxDepth))
        || Below(store.graph, filter, id, v, EffectiveDepth(maxDepth))
    {
      hide Above, Below, Lists;
      var above := Ancestors(id, filter, maxDepth);
      var below := Descendants(id, filter, maxDepth);
      ids := {id} + (set v | v in above) + (set v | v in below);
    }
  }

  /** A result lists exactly what nonempty walks of at most `depth` edges reach, each once. */
  lemma ListedMeansReached(next: Steps, start: string, depth: int, found: seq<string>, v: string)
    requires Lists(next, start, depth, found)
    ensures v in found <==> exists k: nat :: 1 <= k <= depth && Reaches(next, start, v, k)
    ensures forall i, j | 0 <= i < j < |found| :: found[i] != found[j]
  {
    var dist: map<string, int> :| WithinDepth(next, start, depth, found, dist);
    if v in found {
      assert 1 <= dist[v] <= depth && Reaches(next, start, v, dist[v]);
    }
    if k: nat :| 1 <= k <= depth && Reaches(next, start, v, k) {
      assert FoundBy(dist, v, k);
    }
  }

  /** Nearest first: whatever reaches a later entry is no shorter than some walk to an earlier one. */
  lemma ListedNearestFirst(next: Steps, start: string, depth: int, found: seq<string>, i: nat, j: nat, k: nat)
    requires Lists(next, start, depth, found) && i < j < |found|
    requires 1 <= k <= depth && Reaches(next, start, found[j], k)
    ensures exists n: nat :: 1 <= n <= k && Reaches(next, start, found[i], n)
  {
    var dist: map<string, int> :| WithinDepth(next, start, depth, found, dist);
    assert FoundBy(dist, found[j], k);
    var n: nat := dist[found[i]];
    assert 1 <= n <= k && Reaches(next, start, found[i], n);
  }

  /** For existing principals, one is an ancestor of the other just when the other is its descendant,
      under the same depth and label filter. */
  lemma AncestorDescendantDuality(g: Graph, filter: Option<string>, depth: int, p: string, q: string,
                                  above: seq<string>, below: seq<string>)
    requires p in g.principals && q in g.principals
    requires Lists(Successors(g, Up, filter), p, depth, above)
    requires Lists(Successors(g, Down, filter), q, depth, below)
    ensures q in above <==> p in below
  {
    var up, down := Successors(g, Up, filter), Successors(g, Down, filter);
    ListedMeansReached(up, p, depth, above, q);
    ListedMeansReached(down, q, depth, below, p);
    forall k: nat ensures Reaches(up, p, q, k) <==> Reaches(down, q, p, k) {
      if Reaches(up, p, q, k) {
        ReverseWalk(up, down, g.principals, p, q, k);
      }
      if Reaches(down, q, p, k) {
        ReverseWalk(down, up, g.principals, q, p, k);
      }
    }
  }

  lemma NearestFirstGrows(found: seq<string>, dist: map<string, int>, v: string, d: int)
    requires NearestFirst(found, dist) && v !in dist && forall u | u in dist :: dist[u] <= d
    ensures NearestFirst(found + [v], dist[v := d])
  {
    forall i, j | 0 <= i < j < |found + [v]|
      ensures (found + [v])[i] != (found + [v])[j] && dist[v := d][(found + [v])[i]] <= dist[v := d][(found + [v])[j]]
    {
      assert found[i] in found;
      if j < |found| {
        assert found[j] in found;
      }
    }
  }

  lemma Enqueue(next: Steps, start: string, depth: int, queue: seq<(string, int)>, done: set<(string, int)>,
                found: seq<string>, dist: map<string, int>, pid: string, d: int, v: string)
    requires Searching(next, start, depth, [(pid, d)] + queue, done, found, dist) && Spread(queue, dist, d)
    requires d < depth && v in next(pid) && v !in dist
    ensures Searching(next, start, depth, [(pid, d)] + (queue + [(v, d + 1)]), done, found + [v], dist[v := d + 1])
    ensures Spread(queue + [(v, d + 1)], dist[v := d + 1], d)
  {
    var queue' := queue + [(v, d + 1)];
    var dist' := dist[v := d + 1];
    assert (pid, d) in [(pid, d)] + queue;
    ReachesExtend(next, start, pid, v, d);
    NearestFirstGrows(found, dist, v, d + 1);
    forall p | p in done && p.1 < depth ensures Expanded(next, dist', p.0, p.1) {
      assert Expanded(next, dist, p.0, p.1);
      forall u | u in next(p.0) ensures FoundBy(dist', u, p.1 + 1) {
        assert FoundBy(dist, u, p.1 + 1);
      }
    }
  }

  lemma Dequeue(next: Steps, start: string, depth: int, queue: seq<(string, int)>, done: set<(string, int)>,
                found: seq<string>, dist: map<string, int>, pid: string, d: int)
    requires Searching(next, start, depth, [(pid, d)] + queue, done, found, dist) && Spread(queue, dist, d)
    requires d < depth ==> Expanded(next, dist, pid, d)
    ensures Searching(next, start, depth, queue, done + {(pid, d)}, found, dist)
    ensures queue != [] ==> Spread(queue[1..], dist, queue[0].1)
  {
    assert forall p :: p in [(pid, d)] + queue <==> p == (pid, d) || p in queue;
  }

  lemma {:induction false} FoundWithin(next: Steps, start: string, depth: int, done: set<(string, int)>, dist: map<string, int>, v: string, k: nat)
    requires (start, 0) in done && forall u | u in dist :: (u, dist[u]) in done
    requires forall p | p in done && p.1 < depth :: Expanded(next, dist, p.0, p.1)
    requires 1 <= k <= depth && Reaches(next, start, v, k)
    ensures FoundBy(dist, v, k)
    decreases k
  {
    var u := ReachesLastStep(next, start, v, k - 1);
    if k == 1 {
      ReachesZero(next, start);
      assert Expanded(next, dist, (start, 0).0, (start, 0).1);
    } else {
      FoundWithin(next, start, depth, done, dist, u, k - 1);
      assert Expanded(next, dist, (u, dist[u]).0, (u, dist[u]).1);
    }
  }

  lemma AllFound(next: Steps, start: string, depth: int, done: set<(string, int)>, found: seq<string>, dist: map<string, int>)
    requires Searching(next, start, depth, [], done, found, dist)
    ensures WithinDepth(next, start, depth, found, dist)
  {
    forall v, k: nat | 1 <= k <= depth && Reaches(next, start, v, k) ensures FoundBy(dist, v, k) {
      FoundWithin(next, start, depth, done, dist, v, k);
    }
  }
}
