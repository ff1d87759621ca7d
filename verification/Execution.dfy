/**
 What running a procedure can do to transaction state, and that the analysis is
 sound and, where execution can always go on, complete for it.

 A configuration holds the transaction state and the locations still to be run,
 innermost first. Branches and loop counts are chosen freely. Basic blocks and
 the control nodes leave the transaction alone. A protocol procedure is one
 step, which may change the transaction unless it is classified read-only.
 Syscalls, dynamic calls and unresolved externals may do anything.
 */
module Execution {
  import opened Wrappers
  import opened Mast
  import opened Reachability
  import opened ReadOnly

  datatype Config<+S> = Config(tx: S, todo: seq<Location>)

  ghost predicate Step<S>(g: Graph, c: Config<S>, d: Config<S>)
    requires g.Valid()
  {
    && c.todo != []
    && g.Contains(c.todo[0])
    && var n, rest := c.todo[0], c.todo[1..];
       var node := g.Node(n);
       if node.digest in g.protocol then
         d.todo == rest && (g.protocol[node.digest] == ReadOnly ==> d.tx == c.tx)
       else match node
         case Block(_) => d == Config(c.tx, rest)
         case Join(_, first, second) =>
           d == Config(c.tx, [Location(n.forest, first), Location(n.forest, second)] + rest)
         case Split(_, onTrue, onFalse) =>
           || d == Config(c.tx, [Location(n.forest, onTrue)] + rest)
           || d == Config(c.tx, [Location(n.forest, onFalse)] + rest)
         case Loop(_, body) =>
           || d == Config(c.tx, rest)
           || d == Config(c.tx, [Location(n.forest, body), n] + rest)
         case Call(_, callee, isSyscall) =>
           if isSyscall then d.todo == rest else d == Config(c.tx, [Location(n.forest, callee)] + rest)
         case Dyn(_) => d.todo == rest
         case External(digest) =>
           (match g.Resolve(digest, 0)
            case Some(found) => d == Config(c.tx, [found] + rest)
            case None => d.todo == rest)
  }

  ghost function StepOf<S>(g: Graph): (Config<S>, Config<S>) -> bool
    requires g.Valid()
  {
    (c: Config<S>, d: Config<S>) => Step(g, c, d)
  }

  /** `d` follows `c` after some steps; a run may be cut anywhere, or never end. */
  ghost predicate CanRun<S(!new)>(g: Graph, c: Config<S>, d: Config<S>)
    requires g.Valid()
  {
    Reaches(StepOf(g), c, d)
  }

  /** No run from `root` is ever in another transaction state than the first. */
  ghost predicate LeavesUnchanged<S(!new)>(g: Graph, root: Location, tx: S)
    requires g.Valid()
  {
    forall d: Config<S> :: CanRun(g, Config(tx, [root]), d) ==> d.tx == tx
  }

  // --- Soundness ---

  ghost predicate AllReached(g: Graph, root: Location, todo: seq<Location>)
    requires g.Valid()
  {
    forall i | 0 <= i < |todo| :: g.Reachable(root, todo[i])
  }

  lemma ReadOnlyContribution(g: Graph, root: Location, n: Location)
    requires g.Valid() && g.Reachable(root, n) && g.Answer(root) == ReadOnly
    ensures g.Contribution(n) == ReadOnly
  {}

  /** One step keeps to the reachable locations and, all being read-only, to the state. */
  lemma StepIsReadOnly<S>(g: Graph, root: Location, c: Config<S>, d: Config<S>)
    requires g.Valid() && g.Answer(root) == ReadOnly && AllReached(g, root, c.todo) && Step(g, c, d)
    ensures d.tx == c.tx && AllReached(g, root, d.todo)
  {
    var n := c.todo[0];
    ReadOnlyContribution(g, root, n);
    SuccessorIsReachable(g, root, n);
    forall i | 0 <= i < |d.todo| ensures g.Reachable(root, d.todo[i]) {
      assert d.todo[i] in g.Successors(n) || d.todo[i] == n || d.todo[i] in c.todo[1..];
    }
  }

  /**
   Soundness: when the walk answers read-only, nothing that can be run from the
   root, through however many branches, iterations, calls and libraries, is
   ever seen in a changed state. The graph may be cyclic and shared.
   */
  lemma Soundness<S(!new)>(g: Graph, root: Location, tx: S)
    requires g.Valid() && g.Contains(root) && g.Answer(root) == ReadOnly
    ensures LeavesUnchanged(g, root, tx)
  {
    ReachesSelf(g.Edge(), root);
    var same := (c: Config<S>) => c.tx == tx && AllReached(g, root, c.todo);
    forall c: Config<S>, d: Config<S> | same(c) && StepOf(g)(c, d) ensures same(d) {
      StepIsReadOnly(g, root, c, d);
    }
    forall d: Config<S> | CanRun(g, Config(tx, [root]), d) ensures d.tx == tx {
      Kept(StepOf(g), same, Config(tx, [root]), d);
    }
  }

  // --- Completeness ---

  lemma CanStep<S(!new)>(g: Graph, a: Config<S>, b: Config<S>)
    requires g.Valid() && Step(g, a, b)
    ensures CanRun(g, a, b)
  {
    ReachesSelf(StepOf(g), a);
    ReachesNext(StepOf(g), a, a, b);
  }

  /** Digests hash what they refer to, so a real graph descends; this is that order. */
  ghost predicate Descends(g: Graph, rank: Location -> nat)
    requires g.Valid()
  {
    forall n | g.Contains(n) :: forall m | m in g.Successors(n) :: rank(m) < rank(n)
  }

  /** A node with successors can step to them: to both at once for a join. */
  lemma CanDescend<S(!new)>(g: Graph, n: Location, m: Location, tx: S, rest: seq<Location>) returns (after: seq<Location>)
    requires g.Valid() && g.Contains(n) && m in g.Successors(n)
    requires g.Node(n).Join? ==> m == g.Successors(n)[0]
    ensures CanRun(g, Config(tx, [n] + rest), Config(tx, [m] + after))
    ensures g.Node(n).Join? ==> after == [g.Successors(n)[1]] + rest
    ensures !g.Node(n).Join? && !g.Node(n).Loop? ==> after == rest
  {
    assert ([n] + rest)[1..] == rest;
    var next := g.Successors(n);
    if g.Node(n).Loop? {
      after := [n] + rest;
      assert [m] + after == [m, n] + rest;
    } else if g.Node(n).Join? {
      after := [next[1]] + rest;
      assert [m] + after == [next[0], next[1]] + rest;
    } else {
      after := rest;
    }
    CanStep(g, Config(tx, [n] + rest), Config(tx, [m] + after));
  }

  /** A node with none, or a loop, can step over itself. */
  lemma CanSkip<S(!new)>(g: Graph, n: Location, tx: S, rest: seq<Location>)
    requires g.Valid() && g.Contains(n) && (g.Successors(n) == [] || g.Node(n).Loop?)
    ensures CanRun(g, Config(tx, [n] + rest), Config(tx, rest))
  {
    assert ([n] + rest)[1..] == rest;
    CanStep(g, Config(tx, [n] + rest), Config(tx, rest));
  }

  /** Any location can be run to its end, leaving the state as it was. */
  lemma {:induction false} CanFinish<S(!new)>(g: Graph, rank: Location -> nat, n: Location, tx: S, rest: seq<Location>)
    requires g.Valid() && Descends(g, rank) && g.Contains(n)
    ensures CanRun(g, Config(tx, [n] + rest), Config(tx, rest))
    decreases rank(n)
  {
    var start, end := Config(tx, [n] + rest), Config(tx, rest);
    var next := g.Successors(n);
    if next == [] || g.Node(n).Loop? {
      CanSkip(g, n, tx, rest);
    } else {
      assert next[0] in next;
      var after := CanDescend(g, n, next[0], tx, rest);
      CanFinish(g, rank, next[0], tx, after);
      ReachesOn(StepOf(g), start, Config(tx, [next[0]] + after), Config(tx, after));
      if g.Node(n).Join? {
        assert next[1] in next;
        CanFinish(g, rank, next[1], tx, rest);
        ReachesOn(StepOf(g), start, Config(tx, after), end);
      }
    }
  }

  /** From `n` about to run, any of its successors can be about to run. */
  lemma CanEnter<S(!new)>(g: Graph, rank: Location -> nat, n: Location, m: Location, tx: S, rest: seq<Location>)
      returns (after: seq<Location>)
    requires g.Valid() && Descends(g, rank) && g.Contains(n) && m in g.Successors(n)
    ensures CanRun(g, Config(tx, [n] + rest), Config(tx, [m] + after))
  {
    var next := g.Successors(n);
    if g.Node(n).Join? && m != next[0] {
      assert next[0] in next;
      var second := CanDescend(g, n, next[0], tx, rest);
      CanFinish(g, rank, next[0], tx, second);
      after := rest;
      ReachesOn(StepOf(g), Config(tx, [n] + rest), Config(tx, [next[0]] + second), Config(tx, second));
    } else {
      after := CanDescend(g, n, m, tx, rest);
    }
  }

  /** Some run gets to `m`, leaving the state as it was on the way. */
  ghost predicate CanVisit<S(!new)>(g: Graph, root: Location, m: Location, tx: S)
    requires g.Valid()
  {
    exists after :: CanRun(g, Config(tx, [root]), Config(tx, [m] + after))
  }

  /** Whatever is reached in the graph is reached by some run. */
  lemma CanReach<S(!new)>(g: Graph, rank: Location -> nat, root: Location, m: Location, tx: S)
    requires g.Valid() && Descends(g, rank) && g.Reachable(root, m)
    ensures CanVisit(g, root, m, tx)
  {
    var start := Config(tx, [root]);
    var visited := (n: Location) => CanVisit(g, root, n, tx);
    ReachesSelf(StepOf(g), start);
    assert [root] + [] == [root];
    forall n, k | visited(n) && g.Edge()(n, k) ensures visited(k) {
      var rest :| CanRun(g, start, Config(tx, [n] + rest));
      var after := CanEnter(g, rank, n, k, tx, rest);
      ReachesOn(StepOf(g), start, Config(tx, [n] + rest), Config(tx, [k] + after));
    }
    Kept(g.Edge(), visited, root, m);
  }

  /**
   The answer is read-only exactly when no run can change the state. So an
   answer other than read-only is never a false alarm about the graph: some run
   gets to the node that may change the state.
   */
  lemma ReadOnlyExactly<S(!new)>(g: Graph, rank: Location -> nat, root: Location, tx: S, other: S)
    requires g.Valid() && g.Contains(root) && Descends(g, rank) && tx != other
    ensures g.Answer(root) == ReadOnly <==> LeavesUnchanged(g, root, tx)
  {
    if g.Answer(root) == ReadOnly {
      Soundness(g, root, tx);
    } else {
      var m :| g.Reachable(root, m) && g.Contribution(m) == g.Answer(root);
      CanReach(g, rank, root, m, tx);
      var after :| CanRun(g, Config(tx, [root]), Config(tx, [m] + after));
      var there, changed := Config(tx, [m] + after), Config(other, after);
      assert there.todo[1..] == after;
      CanStep(g, there, changed);
      ReachesOn(StepOf(g), Config(tx, [root]), there, changed);
    }
  }
}
