/** Following parent names through a map that gives each name at most one parent. */
module ParentChains {
  import opened Wrappers

  type Parents = map<string, string>

  /** The name `k` steps above `name`, if the chain is that long. */
  ghost function Climb(parents: Parents, name: string, k: nat): Option<string>
    decreases k
  {
    if k == 0 then Some(name)
    else if name in parents then Climb(parents, parents[name], k - 1)
    else None
  }

  ghost predicate OnCycle(parents: Parents, name: string) {
    exists k: nat :: k >= 1 && Climb(parents, name, k) == Some(name)
  }

  ghost predicate Acyclic(parents: Parents) {
    forall name :: !OnCycle(parents, name)
  }

  lemma {:induction false} ClimbAdds(parents: Parents, name: string, i: nat, j: nat)
    ensures Climb(parents, name, i).None? ==> Climb(parents, name, i + j).None?
    ensures Climb(parents, name, i).Some? ==> Climb(parents, name, i + j) == Climb(parents, Climb(parents, name, i).value, j)
    decreases i
  {
    if i > 0 && name in parents {
      ClimbAdds(parents, parents[name], i - 1, j);
    }
  }

  /** A chain that comes back to a name it has passed has a cycle at that name. */
  lemma RepeatMeansCycle(parents: Parents, name: string, i: nat, j: nat)
    requires i < j && Climb(parents, name, i).Some? && Climb(parents, name, i) == Climb(parents, name, j)
    ensures OnCycle(parents, Climb(parents, name, i).value)
  {
    ClimbAdds(parents, name, i, j - i);
  }

  /** From a cycle the chain never ends. */
  lemma {:induction false} CycleNeverEnds(parents: Parents, name: string, k: nat, far: nat)
    requires k >= 1 && Climb(parents, name, k) == Some(name)
    ensures Climb(parents, name, far).Some?
    decreases far
  {
    if far <= k {
      ClimbAdds(parents, name, far, k - far);
    } else {
      CycleNeverEnds(parents, name, k, far - k);
      ClimbAdds(parents, name, k, far - k);
    }
  }

  /** On a cycle, whatever distance brings one of its names back brings them all back. */
  lemma RepeatReturns(parents: Parents, name: string, i: nat, k: nat)
    requires OnCycle(parents, name) && i < k
    requires Climb(parents, name, i).Some? && Climb(parents, name, i) == Climb(parents, name, k)
    ensures Climb(parents, name, k - i) == Some(name)
  {
    var p: nat :| p >= 1 && Climb(parents, name, p) == Some(name);
    var t := RoundsBack(parents, name, p, i);
    ClimbAdds(parents, name, i, t);
    ClimbAdds(parents, name, k, t);
    ClimbAdds(parents, name, i + t, k - i);
    assert (i + t) + (k - i) == k + t;
  }

  /** From every place of a cycle the chain comes back to its start. */
  lemma {:induction false} RoundsBack(parents: Parents, name: string, p: nat, i: nat) returns (t: nat)
    requires p >= 1 && Climb(parents, name, p) == Some(name)
    ensures Climb(parents, name, i + t) == Some(name)
    decreases i
  {
    if i <= p {
      t := p - i;
    } else {
      t := RoundsBack(parents, name, p, i - p);
      ClimbAdds(parents, name, p, i - p + t);
      assert p + (i - p + t) == i + t;
    }
  }

  lemma {:induction false} FewerParentsClimbLess(fewer: Parents, more: Parents, name: string, k: nat)
    requires forall n | n in fewer :: n in more && more[n] == fewer[n]
    requires Climb(fewer, name, k).Some?
    ensures Climb(more, name, k) == Climb(fewer, name, k)
    decreases k
  {
    if k > 0 {
      FewerParentsClimbLess(fewer, more, fewer[name], k - 1);
    }
  }

  lemma FewerParentsStayAcyclic(fewer: Parents, more: Parents)
    requires forall n | n in fewer :: n in more && more[n] == fewer[n]
    requires Acyclic(more)
    ensures Acyclic(fewer)
  {
    forall name ensures !OnCycle(fewer, name) {
      if k: nat :| k >= 1 && Climb(fewer, name, k) == Some(name) {
        FewerParentsClimbLess(fewer, more, name, k);
        assert OnCycle(more, name);
      }
    }
  }

  /** The names a chain has passed in its first `k` steps. */
  ghost predicate Passed(parents: Parents, name: string, k: nat, visited: set<string>) {
    && (forall v :: v in visited ==> exists i: nat :: i < k && Climb(parents, name, i) == Some(v))
    && (forall i: nat | i < k :: Climb(parents, name, i).Some? && Climb(parents, name, i).value in visited)
  }

  lemma PassedGrows(parents: Parents, name: string, k: nat, visited: set<string>, current: string)
    requires Passed(parents, name, k, visited) && Climb(parents, name, k) == Some(current)
    ensures Passed(parents, name, k + 1, visited + {current})
    ensures Climb(parents, name, k + 1) == if current in parents then Some(parents[current]) else None
  {
    ClimbAdds(parents, name, k, 1);
    forall v | v in visited + {current} ensures exists i: nat :: i < k + 1 && Climb(parents, name, i) == Some(v) {
      if v in visited {
        var i: nat :| i < k && Climb(parents, name, i) == Some(v);
      }
    }
  }

  /** The walk of `_check_scope_cycles` from one name: the name met twice, if there is one. */
  method FollowParents(parents: Parents, name: string) returns (repeated: Option<string>)
    ensures repeated.Some? ==> OnCycle(parents, repeated.value)
    ensures repeated.None? ==> !OnCycle(parents, name)
    ensures OnCycle(parents, name) ==> repeated == Some(name)
  {
    var visited: set<string> := {};
    var current := Some(name);
    ghost var universe := parents.Keys + parents.Values + {name};
    ghost var k: nat := 0;
    while current.Some?
      invariant Passed(parents, name, k, visited) && Climb(parents, name, k) == current
      invariant forall b | 0 < b < k :: Climb(parents, name, b) != Some(name)
      invariant visited <= universe && (current.Some? ==> current.value in universe)
      decreases universe - visited, current.Some?
    {
      if current.value in visited {
        ghost var i: nat :| i < k && Climb(parents, name, i) == current;
        RepeatMeansCycle(parents, name, i, k);
        if OnCycle(parents, name) {
          RepeatReturns(parents, name, i, k);
          assert !(0 < k - i < k);
        }
        return current;
      }
      assert k > 0 ==> Climb(parents, name, 0).value in visited;
      PassedGrows(parents, name, k, visited, current.value);
      visited := visited + {current.value};
      current := if current.value in parents then Some(parents[current.value]) else None;
      k := k + 1;
    }
    forall j: nat | j >= 1 && Climb(parents, name, j) == Some(name) ensures false {
      CycleNeverEnds(parents, name, j, k);
    }
    return None;
  }
}
