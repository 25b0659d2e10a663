/** Reachability along a step relation, witnessed by finite paths. */
module Reachability {

  ghost predicate IsPath<T(!new)>(step: (T, T) -> bool, p: seq<T>) {
    && |p| > 0
    && forall i :: 0 <= i < |p| - 1 ==> step(p[i], p[i + 1])
  }

  ghost predicate Links<T(!new)>(step: (T, T) -> bool, p: seq<T>, a: T, b: T) {
    IsPath(step, p) && p[0] == a && p[|p| - 1] == b
  }

  ghost predicate Reaches<T(!new)>(step: (T, T) -> bool, a: T, b: T) {
    exists p: seq<T> :: Links(step, p, a, b)
  }

  lemma ReachesSelf<T(!new)>(step: (T, T) -> bool, a: T)
    ensures Reaches(step, a, a)
  {
    assert Links(step, [a], a, a);
  }

  lemma ReachesStep<T(!new)>(step: (T, T) -> bool, a: T, b: T, c: T)
    requires Reaches(step, a, b) && step(b, c)
    ensures Reaches(step, a, c)
  {
    var p :| Links(step, p, a, b);
    assert Links(step, p + [c], a, c);
  }

  /** What one node reaches, everything that reaches the node reaches too. */
  lemma ReachesTransitive<T(!new)>(step: (T, T) -> bool, a: T, b: T, c: T)
    requires Reaches(step, a, b) && Reaches(step, b, c)
    ensures Reaches(step, a, c)
  {
    var p :| Links(step, p, a, b);
    var q :| Links(step, q, b, c);
    var r := p + q[1..];
    forall i | 0 <= i < |r| - 1
      ensures step(r[i], r[i + 1])
    {
      if i >= |p| - 1 {
        assert r[i] == q[i - (|p| - 1)] && r[i + 1] == q[i + 1 - (|p| - 1)];
      }
    }
    assert Links(step, r, a, c);
  }

  /** What every step keeps holds wherever a path leads. */
  lemma {:induction false} ReachesKeeps<T(!new)>(step: (T, T) -> bool, keep: T -> bool, a: T, b: T)
    requires forall x, y :: keep(x) && step(x, y) ==> keep(y)
    requires keep(a) && Reaches(step, a, b)
    ensures keep(b)
  {
    var p :| Links(step, p, a, b);
    PathKeeps(step, keep, p);
  }

  lemma {:induction false} PathKeeps<T(!new)>(step: (T, T) -> bool, keep: T -> bool, p: seq<T>)
    requires forall x, y :: keep(x) && step(x, y) ==> keep(y)
    requires IsPath(step, p) && keep(p[0])
    ensures keep(p[|p| - 1])
    decreases |p|
  {
    if |p| > 1 {
      assert step(p[0], p[1]);
      var q := p[1..];
      forall i | 0 <= i < |q| - 1
        ensures step(q[i], q[i + 1])
      {
        assert step(p[i + 1], p[i + 2]);
      }
      PathKeeps(step, keep, q);
    }
  }

  ghost predicate ClosedUnder<T(!new)>(step: (T, T) -> bool, s: set<T>) {
    forall x, y :: x in s && step(x, y) ==> y in s
  }

  /** A path never leaves a closed set. */
  lemma ReachesWithin<T(!new)>(step: (T, T) -> bool, s: set<T>, a: T, b: T)
    requires ClosedUnder(step, s) && a in s && Reaches(step, a, b)
    ensures b in s
  {
    ReachesKeeps(step, x => x in s, a, b);
  }
}
