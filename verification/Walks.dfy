/** Walks along a successor relation, counted by their edges. */
module Walks {
  /** The successor relation of a walk. */
  type Steps = string -> set<string>

  ghost predicate StepAt(next: Steps, path: seq<string>, i: nat)
    requires i + 1 < |path|
  {
    path[i + 1] in next(path[i])
  }

  ghost predicate IsWalk(next: Steps, path: seq<string>) {
    path != [] && forall i | 0 <= i < |path| - 1 :: StepAt(next, path, i)
  }

  /** Some walk of exactly `k` edges leads from `a` to `b`. */
  ghost predicate Reaches(next: Steps, a: string, b: string, k: nat) {
    exists path :: IsWalk(next, path) && |path| == k + 1 && path[0] == a && path[k] == b
  }

  lemma ReachesExtend(next: Steps, a: string, b: string, c: string, k: nat)
    requires Reaches(next, a, b, k) && c in next(b)
    ensures Reaches(next, a, c, k + 1)
  {
    var path :| IsWalk(next, path) && |path| == k + 1 && path[0] == a && path[k] == b;
    var longer := path + [c];
    forall i | 0 <= i < |longer| - 1 ensures StepAt(next, longer, i) {
      assert i < k ==> StepAt(next, path, i);
    }
    assert IsWalk(next, longer) && longer[0] == a && longer[k + 1] == c;
  }

  lemma ReachesLastStep(next: Steps, a: string, c: string, k: nat) returns (b: string)
    requires Reaches(next, a, c, k + 1)
    ensures Reaches(next, a, b, k) && c in next(b)
  {
    var path :| IsWalk(next, path) && |path| == k + 2 && path[0] == a && path[k + 1] == c;
    b := path[k];
    var shorter := path[..k + 1];
    forall i | 0 <= i < |shorter| - 1 ensures StepAt(next, shorter, i) {
      assert StepAt(next, path, i);
    }
    assert IsWalk(next, shorter) && shorter[0] == a && shorter[k] == b;
    assert StepAt(next, path, k);
  }

  lemma ReachesZero(next: Steps, a: string)
    ensures forall b :: Reaches(next, a, b, 0) <==> a == b
  {
    assert IsWalk(next, [a]) && [a][0] == a;
  }

  lemma ReachesPrepend(next: Steps, a: string, b: string, c: string, k: nat)
    requires b in next(a) && Reaches(next, b, c, k)
    ensures Reaches(next, a, c, k + 1)
  {
    var path :| IsWalk(next, path) && |path| == k + 1 && path[0] == b && path[k] == c;
    var longer := [a] + path;
    forall i | 0 <= i < |longer| - 1 ensures StepAt(next, longer, i) {
      assert i > 0 ==> StepAt(next, path, i - 1);
    }
    assert IsWalk(next, longer) && longer[0] == a && longer[k + 1] == c;
  }

  /** A walk inside `present`, read backwards along the opposite relation. */
  lemma {:induction false} ReverseWalk(next: Steps, back: Steps, present: set<string>, a: string, b: string, k: nat)
    requires a in present && Reaches(next, a, b, k)
    requires forall x, y | x in present && y in next(x) :: y in present && x in back(y)
    ensures b in present && Reaches(back, b, a, k)
    decreases k
  {
    if k == 0 {
      ReachesZero(next, a);
      ReachesZero(back, b);
    } else {
      var c := ReachesLastStep(next, a, b, k - 1);
      ReverseWalk(next, back, present, a, c, k - 1);
      ReachesPrepend(back, b, c, a, k - 1);
    }
  }
}
