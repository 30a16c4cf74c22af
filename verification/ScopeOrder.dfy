/** `_topo_sort_scopes` of `legacy/v1/scoped/manifest/loader.py`: a depth-first visit of every scope's parents. */
module ScopeOrder {
  import opened Wrappers
  import opened ParentChains
  import opened ManifestSchema

  /** The scopes by name; of several with one name the last wins. */
  function ByName(scopes: seq<ScopeSpec>): map<string, ScopeSpec> {
    if scopes == [] then map[]
    else
      var last := scopes[|scopes| - 1];
      ByName(scopes[..|scopes| - 1])[last.name := last]
  }

  lemma {:induction false} ByNameMeaning(scopes: seq<ScopeSpec>)
    ensures forall s | s in scopes :: s.name in ByName(scopes)
    ensures forall name | name in ByName(scopes) :: ByName(scopes)[name] in scopes && ByName(scopes)[name].name == name
  {
    if scopes != [] {
      var before := scopes[..|scopes| - 1];
      ByNameMeaning(before);
      assert scopes == before + [scopes[|scopes| - 1]];
    }
  }

  /** The parent the loader follows: given, not empty, and declared. */
  function ParentOf(byName: map<string, ScopeSpec>, s: ScopeSpec): Option<string> {
    if s.parent.Some? && s.parent.value != "" && s.parent.value in byName then s.parent else None
  }

  function FollowedParents(byName: map<string, ScopeSpec>): Parents {
    map name | name in byName && ParentOf(byName, byName[name]).Some? :: ParentOf(byName, byName[name]).value
  }

  ghost predicate Placed(ordered: seq<ScopeSpec>, name: string) {
    exists s :: s in ordered && s.name == name
  }

  /** Every scope in the list comes after its parent. */
  ghost predicate ParentsFirst(byName: map<string, ScopeSpec>, ordered: seq<ScopeSpec>) {
    forall i | 0 <= i < |ordered| && ParentOf(byName, ordered[i]).Some? ::
      Placed(ordered[..i], ParentOf(byName, ordered[i]).value)
  }

  /** The list holds declared scopes, each name once, and only visited ones. */
  ghost predicate Ordering(byName: map<string, ScopeSpec>, visited: set<string>, ordered: seq<ScopeSpec>) {
    && visited <= byName.Keys
    && (forall s | s in ordered :: s.name in visited && byName[s.name] == s)
    && (forall i, j | 0 <= i < j < |ordered| :: ordered[i].name != ordered[j].name)
  }

  ghost predicate Below(parents: Parents, name: string, above: string) {
    exists k: nat :: k >= 1 && Climb(parents, name, k) == Some(above)
  }

  /** The names being visited, not yet placed, all lie below `name`. */
  ghost predicate PendingBelow(parents: Parents, visited: set<string>, ordered: seq<ScopeSpec>, name: string) {
    forall v | v in visited && !Placed(ordered, v) :: Below(parents, v, name)
  }

  ghost predicate SamePending(visited: set<string>, ordered: seq<ScopeSpec>, visited': set<string>, ordered': seq<ScopeSpec>) {
    forall v :: v in visited' && !Placed(ordered', v) <==> v in visited && !Placed(ordered, v)
  }

  lemma BelowParent(parents: Parents, name: string)
    requires name in parents
    ensures Below(parents, name, parents[name])
    ensures forall v | Below(parents, v, name) :: Below(parents, v, parents[name])
  {
    assert Climb(parents, name, 1) == Some(parents[name]) by {
      assert Climb(parents, parents[name], 0) == Some(parents[name]);
    }
    forall v | Below(parents, v, name) ensures Below(parents, v, parents[name]) {
      var k: nat :| k >= 1 && Climb(parents, v, k) == Some(name);
      ClimbAdds(parents, v, k, 1);
    }
  }

  lemma PlacedGrows(ordered: seq<ScopeSpec>, s: ScopeSpec)
    ensures forall v :: Placed(ordered + [s], v) <==> Placed(ordered, v) || v == s.name
  {
    forall v ensures Placed(ordered + [s], v) <==> Placed(ordered, v) || v == s.name {
      assert s in ordered + [s];
      if Placed(ordered, v) {
        var t :| t in ordered && t.name == v;
        assert t in ordered + [s];
      }
    }
  }

  lemma AppendAfterParent(byName: map<string, ScopeSpec>, ordered: seq<ScopeSpec>, s: ScopeSpec)
    requires ParentsFirst(byName, ordered)
    requires ParentOf(byName, s).Some? ==> Placed(ordered, ParentOf(byName, s).value)
    ensures ParentsFirst(byName, ordered + [s])
  {
    forall i | 0 <= i < |ordered + [s]| && ParentOf(byName, (ordered + [s])[i]).Some?
      ensures Placed((ordered + [s])[..i], ParentOf(byName, (ordered + [s])[i]).value)
    {
      assert (ordered + [s])[..i] == ordered[..i];
      assert ordered[..|ordered|] == ordered;
    }
  }

  /** The inner `visit`: place every missing ancestor of `name`, then `name` itself. */
  method Visit(byName: map<string, ScopeSpec>, name: string, visited: set<string>, ordered: seq<ScopeSpec>)
    returns (visited': set<string>, ordered': seq<ScopeSpec>)
    requires name in byName && Ordering(byName, visited, ordered)
    requires forall n | n in byName :: byName[n].name == n
    requires PendingBelow(FollowedParents(byName), visited, ordered, name)
    ensures Ordering(byName, visited', ordered') && visited <= visited' && name in visited'
    ensures SamePending(visited, ordered, visited', ordered')
    ensures Acyclic(FollowedParents(byName)) ==> Placed(ordered', name)
    ensures Acyclic(FollowedParents(byName)) && ParentsFirst(byName, ordered) ==> ParentsFirst(byName, ordered')
    decreases byName.Keys - visited
  {
    ghost var parents := FollowedParents(byName);
    if name in visited {
      assert !Placed(ordered, name) ==> OnCycle(parents, name);
      return visited, ordered;
    }
    visited' := visited + {name};
    ordered' := ordered;
    var spec := byName[name];
    assert !Placed(ordered, name);
    if spec.parent.Some? && spec.parent.value != "" && spec.parent.value in byName {
      BelowParent(parents, name);
      visited', ordered' := Visit(byName, spec.parent.value, visited', ordered');
    }
    assert name in visited' && !Placed(ordered', name);
    PlacedGrows(ordered', spec);
    if Acyclic(parents) && ParentsFirst(byName, ordered) {
      AppendAfterParent(byName, ordered', spec);
    }
    ordered' := ordered' + [spec];
  }

  /** Each listed scope is the one its name stands for, and no name is listed twice. */
  ghost predicate Picks(byName: map<string, ScopeSpec>, ordered: seq<ScopeSpec>) {
    && (forall s | s in ordered :: s.name in byName && byName[s.name] == s)
    && (forall i, j | 0 <= i < j < |ordered| :: ordered[i].name != ordered[j].name)
  }

  method TopoSortScopes(scopes: seq<ScopeSpec>) returns (ordered: seq<ScopeSpec>)
    ensures Picks(ByName(scopes), ordered)
    ensures forall i | 0 <= i < |scopes| :: Placed(ordered, scopes[i].name)
    ensures Acyclic(FollowedParents(ByName(scopes))) ==> ParentsFirst(ByName(scopes), ordered)
  {
    var byName := ByName(scopes);
    var visited: set<string> := {};
    ordered := [];
    ByNameMeaning(scopes);
    for n := 0 to |scopes|
      invariant Ordering(byName, visited, ordered)
      invariant forall v | v in visited :: Placed(ordered, v)
      invariant forall i | 0 <= i < n :: Placed(ordered, scopes[i].name)
      invariant Acyclic(FollowedParents(byName)) ==> ParentsFirst(byName, ordered)
    {
      assert scopes[n] in scopes;
      visited, ordered := Visit(byName, scopes[n].name, visited, ordered);
    }
  }

  /** With unique names the sorted list is a rearrangement of the declared scopes. */
  lemma {:induction false} SortedScopesAreTheScopes(scopes: seq<ScopeSpec>, ordered: seq<ScopeSpec>)
    requires forall i, j | 0 <= i < j < |scopes| :: scopes[i].name != scopes[j].name
    requires Picks(ByName(scopes), ordered)
    requires forall i | 0 <= i < |scopes| :: Placed(ordered, scopes[i].name)
    ensures forall s :: s in ordered <==> s in scopes
  {
    ByNameMeaning(scopes);
    forall s | s in scopes ensures s in ordered {
      var i :| 0 <= i < |scopes| && scopes[i] == s;
      assert Placed(ordered, scopes[i].name);
      var t :| t in ordered && t.name == s.name;
      var j :| 0 <= j < |scopes| && scopes[j] == t;
    }
  }
}
