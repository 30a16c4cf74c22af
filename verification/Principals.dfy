/** The stored principal graph (`legacy/v1/scoped/identity/principal.py`): labelled, possibly cyclic. */
module Principals {
  import opened Wrappers
  import opened Walks

  const DEFAULT_MAX_DEPTH := 20

  datatype Edge = Edge(parent: string, child: string, relationship: string)

  datatype Direction = Up | Down

  /** An absent or empty label filter follows every edge. */
  predicate LabelFits(filter: Option<string>, relationship: string) {
    filter.None? || filter.value == "" || filter.value == relationship
  }

  /** The edge carries the label, where one is given and is not empty. */
  ghost predicate Labelled(e: Edge, filter: Option<string>) {
    filter == None || filter == Some("") || filter == Some(e.relationship)
  }

  function Near(direction: Direction, e: Edge): string {
    if direction == Up then e.child else e.parent
  }

  function Far(direction: Direction, e: Edge): string {
    if direction == Up then e.parent else e.child
  }

  function EdgesFrom(edges: seq<Edge>, id: string, direction: Direction, filter: Option<string>): (r: seq<Edge>)
    ensures forall e :: e in r <==> e in edges && Near(direction, e) == id && LabelFits(filter, e.relationship)
    ensures forall e :: e in r <==>
      e in edges && (if direction == Up then e.child == id else e.parent == id) && Labelled(e, filter)
  {
    if edges == [] then []
    else (if Near(direction, edges[0]) == id && LabelFits(filter, edges[0].relationship) then [edges[0]] else [])
         + EdgesFrom(edges[1..], id, direction, filter)
  }

  predicate Touches(e: Edge, id: string) {
    e.child == id || e.parent == id
  }

  /** The stored principals and relationships. */
  datatype Graph = Graph(principals: set<string>, edges: seq<Edge>)

  /** The principals one permitted edge away that exist. */
  function Successors(g: Graph, direction: Direction, filter: Option<string>): Steps {
    id => set e | e in g.edges && Near(direction, e) == id && LabelFits(filter, e.relationship)
                  && Far(direction, e) in g.principals :: Far(direction, e)
  }

  // ---------------------------------------------------------------------------------------------
  // Walks, said on the fields of edges
  // ---------------------------------------------------------------------------------------------

  /** Some edge makes `parent` a parent of `child`. */
  ghost predicate Parenthood(g: Graph, filter: Option<string>, parent: string, child: string) {
    exists e :: e in g.edges && e.parent == parent && e.child == child && Labelled(e, filter)
  }

  ghost predicate ParentNext(g: Graph, filter: Option<string>, path: seq<string>, i: nat)
    requires i + 1 < |path|
  {
    Parenthood(g, filter, path[i + 1], path[i]) && path[i + 1] in g.principals
  }

  ghost predicate ChildNext(g: Graph, filter: Option<string>, path: seq<string>, i: nat)
    requires i + 1 < |path|
  {
    Parenthood(g, filter, path[i], path[i + 1]) && path[i + 1] in g.principals
  }

  /** From each principal to one of its parents that exists. */
  ghost predicate Ascends(g: Graph, filter: Option<string>, path: seq<string>) {
    forall i | 0 <= i < |path| - 1 :: ParentNext(g, filter, path, i)
  }

  /** From each principal to one of its children that exists. */
  ghost predicate Descends(g: Graph, filter: Option<string>, path: seq<string>) {
    forall i | 0 <= i < |path| - 1 :: ChildNext(g, filter, path, i)
  }

  /** `v` is above `id`, at most `depth` generations up. */
  ghost predicate Above(g: Graph, filter: Option<string>, id: string, v: string, depth: int) {
    exists path :: Ascends(g, filter, path) && 2 <= |path| <= depth + 1 && path[0] == id && path[|path| - 1] == v
  }

  ghost predicate Below(g: Graph, filter: Option<string>, id: string, v: string, depth: int) {
    exists path :: Descends(g, filter, path) && 2 <= |path| <= depth + 1 && path[0] == id && path[|path| - 1] == v
  }

  lemma StepsUpAreParents(g: Graph, filter: Option<string>, path: seq<string>)
    requires path != []
    ensures IsWalk(Successors(g, Up, filter), path) <==> Ascends(g, filter, path)
  {
    forall i | 0 <= i < |path| - 1 ensures StepAt(Successors(g, Up, filter), path, i) <==> ParentNext(g, filter, path, i) {
    }
  }

  lemma StepsDownAreChildren(g: Graph, filter: Option<string>, path: seq<string>)
    requires path != []
    ensures IsWalk(Successors(g, Down, filter), path) <==> Descends(g, filter, path)
  {
    forall i | 0 <= i < |path| - 1 ensures StepAt(Successors(g, Down, filter), path, i) <==> ChildNext(g, filter, path, i) {
    }
  }

  lemma ReachedUpIsAbove(g: Graph, filter: Option<string>, id: string, v: string, depth: int)
    ensures Above(g, filter, id, v, depth) <==> exists k: nat :: 1 <= k <= depth && Reaches(Successors(g, Up, filter), id, v, k)
  {
    if k: nat :| 1 <= k <= depth && Reaches(Successors(g, Up, filter), id, v, k) {
      var path :| IsWalk(Successors(g, Up, filter), path) && |path| == k + 1 && path[0] == id && path[k] == v;
      StepsUpAreParents(g, filter, path);
    }
    if Above(g, filter, id, v, depth) {
      var path :| Ascends(g, filter, path) && 2 <= |path| <= depth + 1 && path[0] == id && path[|path| - 1] == v;
      StepsUpAreParents(g, filter, path);
      assert Reaches(Successors(g, Up, filter), id, v, |path| - 1);
    }
  }

  lemma ReachedDownIsBelow(g: Graph, filter: Option<string>, id: string, v: string, depth: int)
    ensures Below(g, filter, id, v, depth) <==> exists k: nat :: 1 <= k <= depth && Reaches(Successors(g, Down, filter), id, v, k)
  {
    if k: nat :| 1 <= k <= depth && Reaches(Successors(g, Down, filter), id, v, k) {
      var path :| IsWalk(Successors(g, Down, filter), path) && |path| == k + 1 && path[0] == id && path[k] == v;
      StepsDownAreChildren(g, filter, path);
    }
    if Below(g, filter, id, v, depth) {
      var path :| Descends(g, filter, path) && 2 <= |path| <= depth + 1 && path[0] == id && path[|path| - 1] == v;
      StepsDownAreChildren(g, filter, path);
      assert Reaches(Successors(g, Down, filter), id, v, |path| - 1);
    }
  }

  class PrincipalStore {
    var graph: Graph

    constructor ()
      ensures graph == Graph({}, [])
    {
      graph := Graph({}, []);
    }

    /** Both endpoints of every edge exist. */
    ghost predicate Closed()
      reads this
    {
      forall e :: e in graph.edges ==> e.parent in graph.principals && e.child in graph.principals
    }

    method AddPrincipal(id: string)
      modifies this
      ensures graph == old(graph).(principals := old(graph).principals + {id})
      ensures old(Closed()) ==> Closed()
    {
      graph := graph.(principals := graph.principals + {id});
    }

    /** `add_relationship` refuses an edge unless both of its ends exist. */
    method AddRelationship(e: Edge) returns (ok: bool)
      modifies this
      ensures ok <==> e.parent in old(graph).principals && e.child in old(graph).principals
      ensures graph == if ok then old(graph).(edges := old(graph).edges + [e]) else old(graph)
      ensures old(Closed()) ==> Closed()
    {
      ok := e.parent in graph.principals && e.child in graph.principals;
      if ok {
        graph := graph.(edges := graph.edges + [e]);
      }
    }

    /** `get_relationships` in both directions: edges where the principal is the child, then those where
        it is the parent. */
    method GetRelationships(id: string, filter: Option<string>) returns (rels: seq<Edge>)
      ensures forall e :: e in rels <==> e in graph.edges && Touches(e, id) && LabelFits(filter, e.relationship)
      ensures forall e :: e in rels <==> e in graph.edges && (e.child == id || e.parent == id) && Labelled(e, filter)
    {
      rels := EdgesFrom(graph.edges, id, Up, filter);
      rels := rels + EdgesFrom(graph.edges, id, Down, filter);
    }
  }

  /** No depth, and 0, mean the default depth. */
  function EffectiveDepth(maxDepth: Option<int>): (depth: int)
    ensures maxDepth == None || maxDepth == Some(0) ==> depth == 20
    ensures maxDepth.Some? && maxDepth.value != 0 ==> depth == maxDepth.value
  {
    if maxDepth.None? || maxDepth.value == 0 then DEFAULT_MAX_DEPTH else maxDepth.value
  }

  ghost predicate FoundBy(dist: map<string, int>, v: string, bound: int) {
    v in dist && dist[v] <= bound
  }

  lemma FewerUnvisited(universe: set<string>, before: set<string>, after: set<string>)
    requires before <= after <= universe
    ensures after == before || universe - after < universe - before
  {
    if after != before {
      var v :| v in after && v !in before;
      assert v in universe - before && v !in universe - after;
    }
  }
}
