/** What a relation reaches in finitely many steps, and the induction that goes with it. */
module Reachability {
  ghost predicate ReachesIn<T(!new)>(edge: (T, T) -> bool, a: T, b: T, steps: nat) {
    if steps == 0 then a == b
    else exists m :: ReachesIn(edge, a, m, steps - 1) && edge(m, b)
  }

  ghost predicate Reaches<T(!new)>(edge: (T, T) -> bool, a: T, b: T) {
    exists steps: nat :: ReachesIn(edge, a, b, steps)
  }

  ghost predicate Keeps<T(!new)>(edge: (T, T) -> bool, holds: T -> bool) {
    forall n, m :: holds(n) && edge(n, m) ==> holds(m)
  }

  lemma ReachesSelf<T(!new)>(edge: (T, T) -> bool, a: T)
    ensures Reaches(edge, a, a)
  {
    assert ReachesIn(edge, a, a, 0);
  }

  lemma ReachesNext<T(!new)>(edge: (T, T) -> bool, a: T, b: T, c: T)
    requires Reaches(edge, a, b) && edge(b, c)
    ensures Reaches(edge, a, c)
  {
    var steps: nat :| ReachesIn(edge, a, b, steps);
    assert ReachesIn(edge, a, c, steps + 1);
  }

  lemma {:induction false} KeptInSteps<T(!new)>(edge: (T, T) -> bool, holds: T -> bool, a: T, b: T, steps: nat)
    requires Keeps(edge, holds) && holds(a) && ReachesIn(edge, a, b, steps)
    ensures holds(b)
  {
    if steps > 0 {
      var m :| ReachesIn(edge, a, m, steps - 1) && edge(m, b);
      KeptInSteps(edge, holds, a, m, steps - 1);
    }
  }

  /** What holds at first and is kept by every step holds wherever they lead. */
  lemma Kept<T(!new)>(edge: (T, T) -> bool, holds: T -> bool, a: T, b: T)
    requires Keeps(edge, holds) && holds(a) && Reaches(edge, a, b)
    ensures holds(b)
  {
    var steps: nat :| ReachesIn(edge, a, b, steps);
    KeptInSteps(edge, holds, a, b, steps);
  }

  lemma ReachesOn<T(!new)>(edge: (T, T) -> bool, a: T, b: T, c: T)
    requires Reaches(edge, a, b) && Reaches(edge, b, c)
    ensures Reaches(edge, a, c)
  {
    var fromA := (x: T) => Reaches(edge, a, x);
    forall n, m | fromA(n) && edge(n, m) ensures fromA(m) {
      ReachesNext(edge, a, n, m);
    }
    Kept(edge, fromA, b, c);
  }
}
