/** `find_path` of `legacy/v1/scoped/identity/resolver.py`: breadth-first search that ignores the
    direction of edges and carries the path along. */
module Paths {
  import opened Wrappers
  import opened Walks
  import opened Principals

  /** A path under construction: the principals visited and the labels of the edges between them. */
  datatype Trail = Trail(ids: seq<string>, labels: seq<string>)

  /** An edge with this label joins `u` and `v`, whichever way it points. */
  ghost predicate Linked(g: Graph, filter: Option<string>, u: string, v: string, relationship: string) {
    exists e :: e in g.edges && LabelFits(filter, e.relationship) && e.relationship == relationship
      && ((e.child == u && e.parent == v) || (e.parent == u && e.child == v))
  }

  ghost predicate LinkedAt(g: Graph, filter: Option<string>, t: Trail, i: nat)
    requires i < |t.labels| && |t.ids| == |t.labels| + 1
  {
    Linked(g, filter, t.ids[i], t.ids[i + 1], t.labels[i])
  }

  ghost predicate IsTrail(g: Graph, filter: Option<string>, t: Trail) {
    |t.ids| == |t.labels| + 1 && forall i | 0 <= i < |t.labels| :: LinkedAt(g, filter, t, i)
  }

  function Last(t: Trail): string {
    if t.ids == [] then "" else t.ids[|t.ids| - 1]
  }

  function Neighbor(e: Edge, id: string): string {
    if e.child == id then e.parent else e.child
  }

  function Neighbors(g: Graph, filter: Option<string>): Steps {
    id => set e | e in g.edges && Touches(e, id) && LabelFits(filter, e.relationship) :: Neighbor(e, id)
  }

  /** Edges that touch `id` and carry the label. */
  ghost predicate AllTouch(g: Graph, filter: Option<string>, id: string, rels: seq<Edge>) {
    forall e | e in rels :: e in g.edges && Touches(e, id) && LabelFits(filter, e.relationship)
  }

  /** All that is one step from `id` is the other end of one of these edges. */
  ghost predicate Covers(next: Steps, id: string, rels: seq<Edge>) {
    forall v | v in next(id) :: exists e :: e in rels && Neighbor(e, id) == v
  }

  function Extend(t: Trail, e: Edge): Trail {
    Trail(t.ids + [Neighbor(e, Last(t))], t.labels + [e.relationship])
  }

  lemma ExtendTrail(g: Graph, filter: Option<string>, t: Trail, e: Edge)
    requires IsTrail(g, filter, t) && e in g.edges && Touches(e, Last(t)) && LabelFits(filter, e.relationship)
    ensures IsTrail(g, filter, Extend(t, e)) && Last(Extend(t, e)) == Neighbor(e, Last(t))
  {
    var t' := Extend(t, e);
    forall i | 0 <= i < |t'.labels| ensures LinkedAt(g, filter, t', i) {
      if i < |t.labels| {
        assert LinkedAt(g, filter, t, i);
      } else {
        assert t'.ids[i] == Last(t) && t'.ids[i + 1] == Neighbor(e, Last(t));
      }
    }
  }

  /** A trail is a walk along the neighbour relation. */
  lemma TrailIsWalk(g: Graph, filter: Option<string>, t: Trail)
    requires IsTrail(g, filter, t)
    ensures Reaches(Neighbors(g, filter), t.ids[0], Last(t), |t.labels|)
  {
    var next := Neighbors(g, filter);
    forall i | 0 <= i < |t.ids| - 1 ensures StepAt(next, t.ids, i) {
      assert LinkedAt(g, filter, t, i);
      var e :| e in g.edges && LabelFits(filter, e.relationship) && e.relationship == t.labels[i]
        && ((e.child == t.ids[i] && e.parent == t.ids[i + 1]) || (e.parent == t.ids[i] && e.child == t.ids[i + 1]));
      assert Neighbor(e, t.ids[i]) == t.ids[i + 1];
    }
    assert IsWalk(next, t.ids);
  }

  ghost function Lasts(queue: seq<Trail>): set<string> {
    set t | t in queue :: Last(t)
  }

  /** Everything next to `u` has been met at most one further, and none of it is the goal. */
  ghost predicate Passed(next: Steps, goal: string, dist: map<string, int>, u: string) {
    u in dist && forall v :: v in next(u) ==> v != goal && FoundBy(dist, v, dist[u] + 1)
  }

  ghost predicate AllPassed(next: Steps, goal: string, depth: int, done: set<string>, dist: map<string, int>) {
    forall u | u in done && u in dist && dist[u] <= depth :: Passed(next, goal, dist, u)
  }

  ghost predicate Underway(g: Graph, filter: Option<string>, from: string, dist: map<string, int>, t: Trail) {
    IsTrail(g, filter, t) && t.ids[0] == from && Last(t) in dist && dist[Last(t)] == |t.labels|
  }

  /** The principals met are those already expanded and those the queued trails end at. */
  ghost predicate Met(from: string, queue: seq<Trail>, done: set<string>, dist: map<string, int>) {
    from in dist && dist[from] == 0 && done <= dist.Keys <= done + Lasts(queue)
  }

  ghost predicate AllUnderway(g: Graph, filter: Option<string>, from: string, queue: seq<Trail>, dist: map<string, int>) {
    forall t | t in queue :: Underway(g, filter, from, dist, t)
  }

  /** The state between two trails of the queue: the principals already expanded are `done`, and `dist`
      gives the distance of every one met. */
  ghost predicate Stage(g: Graph, filter: Option<string>, next: Steps, from: string, goal: string, depth: int,
                            queue: seq<Trail>, done: set<string>, dist: map<string, int>) {
    && Met(from, queue, done, dist)
    && AllUnderway(g, filter, from, queue, dist)
    && AllPassed(next, goal, depth, done, dist)
    && (queue != [] ==> Spread(queue, dist, |queue[0].labels|))
  }

  /** Some such state has this queue and has met these principals. */
  ghost predicate Searching(g: Graph, filter: Option<string>, next: Steps, from: string, goal: string, depth: int,
                            queue: seq<Trail>, visited: set<string>) {
    exists done: set<string>, dist: map<string, int> ::
      Stage(g, filter, next, from, goal, depth, queue, done, dist) && dist.Keys == visited
  }

  /** The head of the queue needs no more expanding: all its neighbours have been met, or it is too long. */
  ghost predicate Finished(g: Graph, filter: Option<string>, next: Steps, from: string, goal: string, depth: int,
                           head: Trail, rest: seq<Trail>, visited: set<string>) {
    exists done: set<string>, dist: map<string, int> ::
      && Stage(g, filter, next, from, goal, depth, [head] + rest, done, dist) && dist.Keys == visited
      && (|head.labels| <= depth ==> Passed(next, goal, dist, Last(head)))
  }

  /** Trails never get shorter along the queue, and nothing lies more than one past its head. */
  ghost predicate Spread(queue: seq<Trail>, dist: map<string, int>, head: int) {
    && (forall i, j | 0 <= i < j < |queue| :: |queue[i].labels| <= |queue[j].labels|)
    && (forall t | t in queue :: head <= |t.labels| <= head + 1)
    && (forall v | v in dist :: dist[v] <= head + 1)
  }

  /** If all nearer than `limit` have been passed, every principal within `limit` was met in time. */
  lemma {:induction false} MetWithin(next: Steps, from: string, goal: string, depth: int, done: set<string>,
                                     dist: map<string, int>, limit: int, v: string, k: nat)
    requires from in dist && dist[from] == 0 && limit <= depth + 1
    requires forall u | u in dist && dist[u] < limit :: u in done
    requires AllPassed(next, goal, depth, done, dist)
    requires Reaches(next, from, v, k) && k <= limit
    ensures FoundBy(dist, v, k)
    ensures 1 <= k ==> v != goal
    decreases k
  {
    if k == 0 {
      ReachesZero(next, from);
    } else {
      var u := ReachesLastStep(next, from, v, k - 1);
      MetWithin(next, from, goal, depth, done, dist, limit, u, k - 1);
      assert Passed(next, goal, dist, u);
    }
  }

  /** No nonempty walk of at most `limit` edges leads from one to the other. */
  ghost predicate Apart(next: Steps, from: string, goal: string, limit: int) {
    forall k: nat | 1 <= k <= limit :: !Reaches(next, from, goal, k)
  }

  lemma PassedMeansApart(next: Steps, from: string, goal: string, depth: int, done: set<string>, dist: map<string, int>, limit: int)
    requires from in dist && dist[from] == 0 && limit <= depth + 1
    requires forall u | u in dist && dist[u] < limit :: u in done
    requires AllPassed(next, goal, depth, done, dist)
    ensures Apart(next, from, goal, limit)
  {
    forall k: nat | 1 <= k <= limit ensures !Reaches(next, from, goal, k) {
      if Reaches(next, from, goal, k) {
        MetWithin(next, from, goal, depth, done, dist, limit, goal, k);
      }
    }
  }

  /** Nothing nearer than the head of the queue is still waiting. */
  lemma HeadMeansApart(g: Graph, filter: Option<string>, next: Steps, from: string, goal: string, depth: int, head: Trail,
                       rest: seq<Trail>, visited: set<string>)
    requires Searching(g, filter, next, from, goal, depth, [head] + rest, visited) && |head.labels| <= depth + 1
    ensures Apart(next, from, goal, |head.labels|)
  {
    var queue := [head] + rest;
    var done: set<string>, dist: map<string, int> :|
      Stage(g, filter, next, from, goal, depth, queue, done, dist) && dist.Keys == visited;
    forall u | u in Lasts(queue) ensures u in dist && dist[u] >= |head.labels| {
      var t :| t in queue && Last(t) == u;
      assert Underway(g, filter, from, dist, t);
    }
    PassedMeansApart(next, from, goal, depth, done, dist, |head.labels|);
  }

  /** When the queue is empty everything within reach has been passed. */
  lemma EmptyQueueMeansApart(g: Graph, filter: Option<string>, next: Steps, from: string, goal: string, depth: int, visited: set<string>)
    requires Searching(g, filter, next, from, goal, depth, [], visited)
    ensures Apart(next, from, goal, depth + 1)
  {
    var done: set<string>, dist: map<string, int> :|
      Stage(g, filter, next, from, goal, depth, [], done, dist) && dist.Keys == visited;
    PassedMeansApart(next, from, goal, depth, done, dist, depth + 1);
  }

  lemma SearchStarts(g: Graph, filter: Option<string>, next: Steps, from: string, goal: string, depth: int)
    ensures Searching(g, filter, next, from, goal, depth, [Trail([from], [])], {from})
  {
    var queue := [Trail([from], [])];
    assert queue[0] in queue;
    assert Lasts(queue) == {from};
    assert Stage(g, filter, next, from, goal, depth, queue, {}, map[from := 0]);
  }

  lemma LastsGrow(queue: seq<Trail>, t: Trail)
    ensures Lasts(queue + [t]) == Lasts(queue) + {Last(t)}
    ensures Lasts([t] + queue) == Lasts(queue) + {Last(t)}
  {
    assert forall u :: u in queue + [t] <==> u in queue || u == t;
    assert forall u :: u in [t] + queue <==> u in queue || u == t;
  }

  lemma PassedStays(next: Steps, goal: string, depth: int, done: set<string>, dist: map<string, int>, v: string, d: int)
    requires AllPassed(next, goal, depth, done, dist) && done <= dist.Keys && v !in dist
    ensures AllPassed(next, goal, depth, done, dist[v := d])
  {
    forall u | u in done && dist[u] <= depth ensures Passed(next, goal, dist[v := d], u) {
      assert Passed(next, goal, dist, u);
      forall w | w in next(u) ensures w != goal && FoundBy(dist[v := d], w, dist[u] + 1) {
        assert FoundBy(dist, w, dist[u] + 1);
      }
    }
  }

  lemma PassedGrows(next: Steps, goal: string, depth: int, done: set<string>, dist: map<string, int>, head: Trail)
    requires AllPassed(next, goal, depth, done, dist)
    requires Last(head) in dist && (dist[Last(head)] <= depth ==> Passed(next, goal, dist, Last(head)))
    ensures AllPassed(next, goal, depth, done + {Last(head)}, dist)
  {
  }

  lemma MetGrows(from: string, queue: seq<Trail>, done: set<string>, dist: map<string, int>, t: Trail)
    requires Met(from, queue, done, dist) && Last(t) !in dist
    ensures Met(from, queue + [t], done, dist[Last(t) := |t.labels|]) && done <= dist.Keys
  {
    LastsGrow(queue, t);
  }

  lemma MetShrinks(from: string, head: Trail, rest: seq<Trail>, done: set<string>, dist: map<string, int>)
    requires Met(from, [head] + rest, done, dist) && Last(head) in dist
    ensures Met(from, rest, done + {Last(head)}, dist)
  {
    LastsGrow(rest, head);
  }

  lemma UnderwayGrows(g: Graph, filter: Option<string>, from: string, queue: seq<Trail>, dist: map<string, int>, t: Trail)
    requires AllUnderway(g, filter, from, queue, dist) && Last(t) !in dist
    requires IsTrail(g, filter, t) && t.ids[0] == from
    ensures AllUnderway(g, filter, from, queue + [t], dist[Last(t) := |t.labels|])
  {
    forall u | u in queue + [t] ensures Underway(g, filter, from, dist[Last(t) := |t.labels|], u) {
      if u in queue {
        assert Underway(g, filter, from, dist, u);
      }
    }
  }

  lemma UnderwayShrinks(g: Graph, filter: Option<string>, from: string, head: Trail, rest: seq<Trail>, dist: map<string, int>)
    requires AllUnderway(g, filter, from, [head] + rest, dist)
    ensures AllUnderway(g, filter, from, rest, dist) && Underway(g, filter, from, dist, head)
  {
    assert head in [head] + rest;
    forall t | t in rest ensures Underway(g, filter, from, dist, t) {
      assert t in [head] + rest;
    }
  }

  lemma SpreadGrows(queue: seq<Trail>, dist: map<string, int>, t: Trail)
    requires queue != [] && Spread(queue, dist, |queue[0].labels|) && |t.labels| == |queue[0].labels| + 1
    ensures Spread(queue + [t], dist[Last(t) := |t.labels|], |queue[0].labels|)
  {
    forall i | 0 <= i < |queue| ensures |queue[i].labels| <= |t.labels| {
      assert queue[i] in queue;
    }
  }

  /** Queueing a trail that reaches a principal for the first time, while `head` is being expanded. */
  lemma EnqueueTrail(g: Graph, filter: Option<string>, next: Steps, from: string, goal: string, depth: int, head: Trail,
                     rest: seq<Trail>, done: set<string>, dist: map<string, int>, e: Edge, t: Trail)
    requires Stage(g, filter, next, from, goal, depth, [head] + rest, done, dist)
    requires e in g.edges && Touches(e, Last(head)) && LabelFits(filter, e.relationship)
    requires t == Extend(head, e) && Last(t) !in dist
    ensures Searching(g, filter, next, from, goal, depth, [head] + (rest + [t]), dist.Keys + {Last(t)})
  {
    hide Met, AllUnderway, AllPassed, Spread, IsTrail;
    var queue := [head] + rest;
    UnderwayShrinks(g, filter, from, head, rest, dist);
    ExtendTrail(g, filter, head, e);
    MetGrows(from, queue, done, dist, t);
    UnderwayGrows(g, filter, from, queue, dist, t);
    PassedStays(next, goal, depth, done, dist, Last(t), |t.labels|);
    SpreadGrows(queue, dist, t);
    assert [head] + (rest + [t]) == queue + [t];
    StageIsSearching(g, filter, next, from, goal, depth, queue + [t], done, dist[Last(t) := |t.labels|]);
    assert dist[Last(t) := |t.labels|].Keys == dist.Keys + {Last(t)};
  }

  lemma StageIsSearching(g: Graph, filter: Option<string>, next: Steps, from: string, goal: string, depth: int,
                         queue: seq<Trail>, done: set<string>, dist: map<string, int>)
    requires Stage(g, filter, next, from, goal, depth, queue, done, dist)
    ensures Searching(g, filter, next, from, goal, depth, queue, dist.Keys)
  {
  }

  lemma SpreadShrinks(queue: seq<Trail>, dist: map<string, int>)
    requires |queue| > 1 && Spread(queue, dist, |queue[0].labels|)
    ensures Spread(queue[1..], dist, |queue[1].labels|)
  {
    var tail := queue[1..];
    assert queue[1] in queue;
    forall t | t in tail ensures |queue[1].labels| <= |t.labels| <= |queue[1].labels| + 1 {
      var i :| 0 <= i < |tail| && tail[i] == t;
      assert queue[i + 1] == t && t in queue;
    }
    forall i, j | 0 <= i < j < |tail| ensures |tail[i].labels| <= |tail[j].labels| {
      assert tail[i] == queue[i + 1] && tail[j] == queue[j + 1];
    }
  }

  lemma SpreadBehind(head: Trail, rest: seq<Trail>, dist: map<string, int>)
    requires rest != [] && Spread([head] + rest, dist, |head.labels|)
    ensures Spread(rest, dist, |rest[0].labels|)
  {
    assert ([head] + rest)[1..] == rest;
    SpreadShrinks([head] + rest, dist);
  }

  lemma DequeueTrail(g: Graph, filter: Option<string>, next: Steps, from: string, goal: string, depth: int, head: Trail,
                     rest: seq<Trail>, done: set<string>, dist: map<string, int>)
    requires Stage(g, filter, next, from, goal, depth, [head] + rest, done, dist)
    requires |head.labels| <= depth ==> Passed(next, goal, dist, Last(head))
    ensures Searching(g, filter, next, from, goal, depth, rest, dist.Keys)
  {
    hide Met, AllUnderway, AllPassed, Spread, IsTrail;
    UnderwayShrinks(g, filter, from, head, rest, dist);
    MetShrinks(from, head, rest, done, dist);
    if rest != [] {
      SpreadBehind(head, rest, dist);
    }
    PassedGrows(next, goal, depth, done, dist, head);
    StageIsSearching(g, filter, next, from, goal, depth, rest, done + {Last(head)}, dist);
  }

  /** The other ends of these edges have all been met, and none is the goal. */
  ghost predicate Handled(goal: string, visited: set<string>, current: string, rels: seq<Edge>) {
    forall e | e in rels :: Neighbor(e, current) in visited && Neighbor(e, current) != goal
  }

  lemma HandledGrows(goal: string, visited: set<string>, visited': set<string>, current: string, rels: seq<Edge>, m: nat)
    requires m < |rels| && Handled(goal, visited, current, rels[..m]) && visited <= visited'
    requires Neighbor(rels[m], current) in visited' && Neighbor(rels[m], current) != goal
    ensures Handled(goal, visited', current, rels[..m + 1])
  {
    assert rels[..m + 1] == rels[..m] + [rels[m]];
  }

  lemma QueueNeighbor(g: Graph, filter: Option<string>, next: Steps, from: string, goal: string, depth: int,
                      head: Trail, rest: seq<Trail>, visited: set<string>, e: Edge)
    requires Searching(g, filter, next, from, goal, depth, [head] + rest, visited)
    requires e in g.edges && Touches(e, Last(head)) && LabelFits(filter, e.relationship)
    requires Neighbor(e, Last(head)) !in visited
    ensures Searching(g, filter, next, from, goal, depth, [head] + (rest + [Extend(head, e)]), visited + {Neighbor(e, Last(head))})
  {
    var done: set<string>, dist: map<string, int> :|
      Stage(g, filter, next, from, goal, depth, [head] + rest, done, dist) && dist.Keys == visited;
    EnqueueTrail(g, filter, next, from, goal, depth, head, rest, done, dist, e, Extend(head, e));
  }

  lemma HeadFinished(g: Graph, filter: Option<string>, next: Steps, from: string, goal: string, depth: int,
                     head: Trail, rest: seq<Trail>, visited: set<string>, rels: seq<Edge>)
    requires Searching(g, filter, next, from, goal, depth, [head] + rest, visited)
    requires |head.labels| <= depth ==>
      Covers(next, Last(head), rels) && Handled(goal, visited, Last(head), rels)
    ensures Finished(g, filter, next, from, goal, depth, head, rest, visited)
  {
    var done: set<string>, dist: map<string, int> :|
      Stage(g, filter, next, from, goal, depth, [head] + rest, done, dist) && dist.Keys == visited;
    if |head.labels| <= depth {
      HeadUnderway(g, filter, next, from, goal, depth, head, rest, done, dist);
      NothingPassedOver(next, goal, rels, dist, Last(head));
    }
  }

  lemma Proceed(g: Graph, filter: Option<string>, next: Steps, from: string, goal: string, depth: int,
                head: Trail, rest: seq<Trail>, visited: set<string>)
    requires Finished(g, filter, next, from, goal, depth, head, rest, visited)
    ensures Searching(g, filter, next, from, goal, depth, rest, visited)
  {
    var done: set<string>, dist: map<string, int> :|
      && Stage(g, filter, next, from, goal, depth, [head] + rest, done, dist) && dist.Keys == visited
      && (|head.labels| <= depth ==> Passed(next, goal, dist, Last(head)));
    DequeueTrail(g, filter, next, from, goal, depth, head, rest, done, dist);
  }

  /** One edge of the expanded trail: it reaches the goal, or leads to a principal already met, or to a new
      one, whose trail is queued. */
  method FollowEdge(g: Graph, filter: Option<string>, ghost next: Steps, from: string, goal: string, depth: int,
                    head: Trail, rest: seq<Trail>, visited: set<string>, rel: Edge)
    returns (arrived: Option<Trail>, rest': seq<Trail>, visited': set<string>)
    requires Searching(g, filter, next, from, goal, depth, [head] + rest, visited)
    requires rel in g.edges && Touches(rel, Last(head)) && LabelFits(filter, rel.relationship)
    ensures arrived.Some? ==>
      Arrives(g, filter, from, goal, arrived.value) && |arrived.value.labels| == |head.labels| + 1 && visited' == visited
    ensures arrived.None? ==>
      && Searching(g, filter, next, from, goal, depth, [head] + rest', visited')
      && Neighbor(rel, Last(head)) != goal && visited' == visited + {Neighbor(rel, Last(head))}
    ensures visited' == visited ==> rest' == rest
  {
    rest', visited' := rest, visited;
    var neighbor := Neighbor(rel, Last(head));
    if neighbor == goal {
      Arrival(g, filter, next, from, goal, depth, head, rest, visited, rel);
      return Some(Extend(head, rel)), rest, visited;
    }
    if neighbor !in visited {
      QueueNeighbor(g, filter, next, from, goal, depth, head, rest, visited, rel);
      visited' := visited + {neighbor};
      rest' := rest + [Extend(head, rel)];
    }
    arrived := None;
  }

  /** One turn of `find_path`: stop at the goal, else queue every neighbour met for the first time. */
  method ExpandTrail(g: Graph, filter: Option<string>, ghost next: Steps, ghost universe: set<string>, from: string, goal: string,
                     depth: int, head: Trail, rest: seq<Trail>, visited: set<string>, rels: seq<Edge>)
    returns (arrived: Option<Trail>, rest': seq<Trail>, visited': set<string>)
    requires Searching(g, filter, next, from, goal, depth, [head] + rest, visited)
    requires |head.labels| <= depth && AllTouch(g, filter, Last(head), rels) && Covers(next, Last(head), rels)
    requires visited <= universe && forall e | e in rels :: Neighbor(e, Last(head)) in universe
    ensures arrived.Some? ==> Arrives(g, filter, from, goal, arrived.value) && |arrived.value.labels| == |head.labels| + 1
    ensures arrived.None? ==> Finished(g, filter, next, from, goal, depth, head, rest', visited')
    ensures visited <= visited' <= universe && (visited' == visited ==> rest' == rest)
  {
    hide Searching, Finished;
    var current := Last(head);
    rest', visited' := rest, visited;
    for m := 0 to |rels|
      invariant Searching(g, filter, next, from, goal, depth, [head] + rest', visited')
      invariant visited <= visited' <= universe
      invariant visited' == visited ==> rest' == rest
      invariant Handled(goal, visited', current, rels[..m])
    {
      assert rels[m] in rels;
      ghost var before := visited';
      arrived, rest', visited' := FollowEdge(g, filter, next, from, goal, depth, head, rest', visited', rels[m]);
      if arrived.Some? {
        return;
      }
      HandledGrows(goal, before, visited', current, rels, m);
    }
    assert rels[..|rels|] == rels;
    HeadFinished(g, filter, next, from, goal, depth, head, rest', visited', rels);
    arrived := None;
  }

  /** An edge to the goal completes the trail. */
  lemma Arrival(g: Graph, filter: Option<string>, next: Steps, from: string, goal: string, depth: int,
                head: Trail, rest: seq<Trail>, visited: set<string>, e: Edge)
    requires Searching(g, filter, next, from, goal, depth, [head] + rest, visited)
    requires e in g.edges && Touches(e, Last(head)) && LabelFits(filter, e.relationship) && Neighbor(e, Last(head)) == goal
    ensures Arrives(g, filter, from, goal, Extend(head, e))
  {
    var done: set<string>, dist: map<string, int> :|
      Stage(g, filter, next, from, goal, depth, [head] + rest, done, dist) && dist.Keys == visited;
    UnderwayShrinks(g, filter, from, head, rest, dist);
    ExtendTrail(g, filter, head, e);
  }

  lemma HeadUnderway(g: Graph, filter: Option<string>, next: Steps, from: string, goal: string, depth: int, head: Trail,
                     rest: seq<Trail>, done: set<string>, dist: map<string, int>)
    requires Stage(g, filter, next, from, goal, depth, [head] + rest, done, dist)
    ensures Underway(g, filter, from, dist, head)
    ensures forall v | v in dist :: dist[v] <= |head.labels| + 1
  {
    UnderwayShrinks(g, filter, from, head, rest, dist);
  }

  ghost predicate Arrives(g: Graph, filter: Option<string>, from: string, goal: string, t: Trail) {
    IsTrail(g, filter, t) && t.ids[0] == from && Last(t) == goal
  }

  lemma NothingPassedOver(next: Steps, goal: string, rels: seq<Edge>, dist: map<string, int>, current: string)
    requires Covers(next, current, rels)
    requires Handled(goal, dist.Keys, current, rels) && current in dist
    requires forall v | v in dist :: dist[v] <= dist[current] + 1
    ensures Passed(next, goal, dist, current)
  {
    forall v | v in next(current) ensures v != goal && FoundBy(dist, v, dist[current] + 1) {
      var e :| e in rels && Neighbor(e, current) == v;
    }
  }

  /** All that an edge can lead to. */
  ghost function Ends(g: Graph): set<string> {
    (set e | e in g.edges :: e.parent) + (set e | e in g.edges :: e.child)
  }

  lemma RelationshipsCover(g: Graph, filter: Option<string>, id: string, rels: seq<Edge>, universe: set<string>)
    requires forall e :: e in rels <==> e in g.edges && Touches(e, id) && LabelFits(filter, e.relationship)
    requires Ends(g) <= universe
    ensures AllTouch(g, filter, id, rels) && Covers(Neighbors(g, filter), id, rels)
    ensures forall e | e in rels :: Neighbor(e, id) in universe
  {
    forall v | v in Neighbors(g, filter)(id) ensures exists e :: e in rels && Neighbor(e, id) == v {
      var e :| e in g.edges && Touches(e, id) && LabelFits(filter, e.relationship) && Neighbor(e, id) == v;
      assert e in rels;
    }
    forall e | e in rels ensures Neighbor(e, id) in universe {
      assert e.parent in Ends(g) && e.child in Ends(g);
    }
  }

  /** Every walk along the neighbour relation is a trail for some labels. */
  lemma {:induction false} WalkIsTrail(g: Graph, filter: Option<string>, path: seq<string>) returns (t: Trail)
    requires IsWalk(Neighbors(g, filter), path)
    ensures IsTrail(g, filter, t) && t.ids == path
    decreases |path|
  {
    if |path| == 1 {
      t := Trail(path, []);
    } else {
      var k := |path| - 2;
      var shorter := path[..k + 1];
      forall i | 0 <= i < |shorter| - 1 ensures StepAt(Neighbors(g, filter), shorter, i) {
        assert StepAt(Neighbors(g, filter), path, i);
      }
      var before := WalkIsTrail(g, filter, shorter);
      assert StepAt(Neighbors(g, filter), path, k);
      var e :| e in g.edges && Touches(e, path[k]) && LabelFits(filter, e.relationship) && Neighbor(e, path[k]) == path[k + 1];
      ExtendTrail(g, filter, before, e);
      t := Extend(before, e);
      assert shorter + [path[k + 1]] == path;
    }
  }

  /** Two principals are apart exactly if no trail of so many edges joins them. */
  lemma ApartExactly(g: Graph, filter: Option<string>, from: string, goal: string, n: int)
    ensures Apart(Neighbors(g, filter), from, goal, n) <==>
      forall t :: Arrives(g, filter, from, goal, t) && t.labels != [] ==> |t.labels| > n
  {
    if Apart(Neighbors(g, filter), from, goal, n) {
      forall t | Arrives(g, filter, from, goal, t) && t.labels != [] ensures |t.labels| > n {
        TrailIsWalk(g, filter, t);
      }
    } else {
      var k: nat :| 1 <= k <= n && Reaches(Neighbors(g, filter), from, goal, k);
      var path :| IsWalk(Neighbors(g, filter), path) && |path| == k + 1 && path[0] == from && path[k] == goal;
      var t := WalkIsTrail(g, filter, path);
      assert Arrives(g, filter, from, goal, t) && t.labels != [];
    }
  }

  class PathFinder {
    const store: PrincipalStore

    constructor (store: PrincipalStore)
      ensures this.store == store
    {
      this.store := store;
    }

    /** `find_path`.  The loop expands trails of up to `depth` edges, so it finds paths of one edge
        more than `max_depth` announces. */
    method FindPath(from: string, goal: string, filter: Option<string>, maxDepth: Option<int>) returns (r: Option<Trail>)
      ensures r.Some? ==>
        && Arrives(store.graph, filter, from, goal, r.value)
        && 1 <= |r.value.labels| <= EffectiveDepth(maxDepth) + 1
        && Apart(Neighbors(store.graph, filter), from, goal, |r.value.labels| - 1)
      ensures r.None? ==> Apart(Neighbors(store.graph, filter), from, goal, EffectiveDepth(maxDepth) + 1)
    {
      var g := store.graph;
      ghost var next := Neighbors(g, filter);
      var depth := EffectiveDepth(maxDepth);
      var visited := {from};
      var queue := [Trail([from], [])];
      ghost var universe := Ends(g) + {from};
      SearchStarts(g, filter, next, from, goal, depth);
      while queue != []
        invariant Searching(g, filter, next, from, goal, depth, queue, visited)
        invariant visited <= universe
        decreases universe - visited, |queue|
      {
        var head := queue[0];
        assert queue == [head] + queue[1..];
        queue := queue[1..];
        if |head.labels| <= depth {
          HeadMeansApart(g, filter, next, from, goal, depth, head, queue, visited);
          ghost var before := visited;
          var rels := store.GetRelationships(Last(head), filter);
          RelationshipsCover(g, filter, Last(head), rels, universe);
          var arrived;
          arrived, queue, visited := ExpandTrail(g, filter, next, universe, from, goal, depth, head, queue, visited, rels);
          if arrived.Some? {
            return arrived;
          }
          FewerUnvisited(universe, before, visited);
        } else {
          HeadFinished(g, filter, next, from, goal, depth, head, queue, visited, []);
        }
        Proceed(g, filter, next, from, goal, depth, head, queue, visited);
      }
      EmptyQueueMeansApart(g, filter, next, from, goal, depth, visited);
      return None;
    }

    /** `is_related`: whether some nonempty walk within reach connects the two. */
    method IsRelated(from: string, goal: string, filter: Option<string>, maxDepth: Option<int>) returns (related: bool)
      ensures related <==> !Apart(Neighbors(store.graph, filter), from, goal, EffectiveDepth(maxDepth) + 1)
      ensures related <==> exists t :: Arrives(store.graph, filter, from, goal, t) && 1 <= |t.labels| <= EffectiveDepth(maxDepth) + 1
    {
      ApartExactly(store.graph, filter, from, goal, EffectiveDepth(maxDepth) + 1);
      var path := FindPath(from, goal, filter, maxDepth);
      if path.Some? {
        TrailIsWalk(store.graph, filter, path.value);
      }
      related := path.Some?;
    }
  }
}
