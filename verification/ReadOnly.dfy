/**
 Whether a procedure can change transaction state, read off its MAST: the
 worklist walk of `Analyzer::procedure`, and the answer it has to compute,
 stated without a worklist.
 */
module ReadOnly {
  import opened Wrappers
  import opened Mast
  import opened Reachability

  datatype Access = ReadOnly | StateChanging | Unknown {
    /** Of two paths, one that changes state decides. */
    function Join(other: Access): Access {
      match (this, other)
      case (StateChanging, _) => StateChanging
      case (_, StateChanging) => StateChanging
      case (Unknown, _) => Unknown
      case (_, Unknown) => Unknown
      case _ => ReadOnly
    }

    /** The order `Join` is the least upper bound of. */
    predicate AtMost(other: Access) {
      this == other || this == ReadOnly || other == StateChanging
    }
  }

  /** A node, by the index of its forest in the search list and its id. */
  datatype Location = Location(forest: nat, id: NodeId)

  /** What the walk moves over: the package's forest followed by the libraries. */
  datatype Graph = Graph(protocol: map<Digest, Access>, forests: seq<Forest>) {
    ghost predicate Valid() {
      forall i | 0 <= i < |forests| :: forests[i].Valid()
    }

    predicate Contains(n: Location) {
      n.forest < |forests| && n.id in forests[n.forest].nodes
    }

    function Node(n: Location): Node
      requires Contains(n)
    {
      forests[n.forest].nodes[n.id]
    }

    /** All locations: what bounds the walk. */
    ghost function Locations(): set<Location> {
      set i, id | 0 <= i < |forests| && id in forests[i].nodes :: Location(i, id)
    }

    /**
     The body of an external procedure: in the first forest whose first root
     with that digest is not itself a reference.
     */
    function Resolve(digest: Digest, from: nat): (r: Option<Location>)
      requires Valid() && from <= |forests|
      ensures r.Some? ==> from <= r.value.forest && Contains(r.value) && !Node(r.value).External?
      decreases |forests| - from
    {
      if from == |forests| then None
      else
        match forests[from].FindProcedureRoot(digest)
        case Some(id) =>
          if forests[from].nodes[id].External? then Resolve(digest, from + 1) else Some(Location(from, id))
        case None => Resolve(digest, from + 1)
    }

    /** Where the walk goes from `n`: nowhere once a protocol procedure is reached. */
    function Successors(n: Location): (r: seq<Location>)
      requires Valid() && Contains(n)
      ensures forall m | m in r :: Contains(m)
    {
      var node := Node(n);
      if node.digest in protocol then []
      else match node
        case Join(_, first, second) => [Location(n.forest, first), Location(n.forest, second)]
        case Split(_, onTrue, onFalse) => [Location(n.forest, onTrue), Location(n.forest, onFalse)]
        case Loop(_, body) => [Location(n.forest, body)]
        case Call(_, callee, isSyscall) => if isSyscall then [] else [Location(n.forest, callee)]
        case External(digest) =>
          (match Resolve(digest, 0) case Some(found) => [found] case None => [])
        case _ => []
    }

    /** What `n` says on its own, before anything it leads to. */
    function Contribution(n: Location): Access
      requires Valid() && Contains(n)
    {
      var node := Node(n);
      if node.digest in protocol then protocol[node.digest]
      else match node
        case Call(_, _, isSyscall) => if isSyscall then Unknown else ReadOnly
        case Dyn(_) => Unknown
        case External(digest) => if Resolve(digest, 0).None? then Unknown else ReadOnly
        case _ => ReadOnly
    }

    ghost function Edge(): (Location, Location) -> bool
      requires Valid()
    {
      (n: Location, m: Location) => Contains(n) && m in Successors(n)
    }

    /** `n` is reached from `root` without passing through a protocol procedure. */
    ghost predicate Reachable(root: Location, n: Location)
      requires Valid()
    {
      Contains(n) && Reaches(Edge(), root, n)
    }

    /** Some reachable location contributes `access`. */
    ghost predicate Contributes(root: Location, access: Access)
      requires Valid()
    {
      exists n :: Reachable(root, n) && Contribution(n) == access
    }

    /** The join of the contributions of everything reachable, with no walk in it. */
    ghost function Answer(root: Location): Access
      requires Valid()
    {
      if Contributes(root, StateChanging) then StateChanging
      else if Contributes(root, Unknown) then Unknown
      else ReadOnly
    }
  }

  // --- Where an external procedure's body is found ---

  /** The first forest that holds a body of `digest`, re-exports being passed over, and that body. */
  ghost predicate FirstBody(g: Graph, digest: Digest, from: nat, n: Location)
    requires g.Valid()
  {
    && from <= n.forest < |g.forests| && g.forests[n.forest].Holds(digest, n.id)
    && forall k: nat, id: NodeId | from <= k < n.forest :: !g.forests[k].Holds(digest, id)
  }

  lemma ForestHolds(g: Graph, digest: Digest, k: nat, id: NodeId)
    requires g.Valid() && k < |g.forests|
    ensures g.forests[k].Holds(digest, id) <==>
            g.forests[k].FindProcedureRoot(digest) == Some(id) && !g.forests[k].nodes[id].External?
  {
    FoundExactly(g.forests[k], digest, id);
  }

  lemma {:induction false} ResolvesFrom(g: Graph, digest: Digest, from: nat, n: Location)
    requires g.Valid() && from <= |g.forests|
    ensures g.Resolve(digest, from) == Some(n) <==> FirstBody(g, digest, from, n)
    decreases |g.forests| - from
  {
    if from < |g.forests| {
      ResolvesFrom(g, digest, from + 1, n);
      forall id: NodeId ensures g.forests[from].Holds(digest, id) <==>
                        g.forests[from].FindProcedureRoot(digest) == Some(id) && !g.forests[from].nodes[id].External? {
        ForestHolds(g, digest, from, id);
      }
      if n.forest > from && g.Resolve(digest, from) == Some(n) {
        assert forall id: NodeId :: !g.forests[from].Holds(digest, id);
      }
    }
  }

  /**
   An external procedure resolves exactly when some forest's first root with its
   digest is no reference itself, and then to that root in the first such forest.
   */
  lemma ResolvedExactly(g: Graph, digest: Digest)
    requires g.Valid()
    ensures forall n :: g.Resolve(digest, 0) == Some(n) <==> FirstBody(g, digest, 0, n)
    ensures g.Resolve(digest, 0).Some? <==> exists k: nat, id: NodeId :: k < |g.forests| && g.forests[k].Holds(digest, id)
  {
    forall n ensures g.Resolve(digest, 0) == Some(n) <==> FirstBody(g, digest, 0, n) { ResolvesFrom(g, digest, 0, n); }
    if k: nat, id: NodeId :| k < |g.forests| && g.forests[k].Holds(digest, id) {
      HeldIsFound(g, digest, 0, k, id);
    }
  }

  lemma {:induction false} HeldIsFound(g: Graph, digest: Digest, from: nat, k: nat, id: NodeId)
    requires g.Valid() && from <= k < |g.forests| && g.forests[k].Holds(digest, id)
    ensures g.Resolve(digest, from).Some?
    decreases k - from
  {
    ForestHolds(g, digest, k, id);
    if from < k { HeldIsFound(g, digest, from + 1, k, id); }
  }

  lemma SuccessorIsReachable(g: Graph, root: Location, n: Location)
    requires g.Valid() && g.Reachable(root, n)
    ensures forall m | m in g.Successors(n) :: g.Reachable(root, m)
  {
    forall m | m in g.Successors(n) ensures g.Reachable(root, m) {
      ReachesNext(g.Edge(), root, n, m);
    }
  }

  /**
   Exactness of the answer: it is the least access above every reachable
   contribution, so no order of traversal could give another one.
   */
  lemma AnswerIsLeastUpperBound(g: Graph, root: Location, bound: Access)
    requires g.Valid()
    ensures g.Answer(root).AtMost(bound) <==>
            forall n | g.Reachable(root, n) :: g.Contribution(n).AtMost(bound)
  {}

  /** A protocol procedure of this class. */
  ghost predicate Classed(g: Graph, n: Location, access: Access)
    requires g.Contains(n)
  {
    g.Node(n).digest in g.protocol && g.protocol[g.Node(n).digest] == access
  }

  /** What cannot be followed: a call into the kernel, one picked at run time, or one to a procedure held nowhere. */
  ghost predicate Lost(g: Graph, n: Location)
    requires g.Valid() && g.Contains(n)
  {
    && g.Node(n).digest !in g.protocol
    && match g.Node(n)
       case Call(_, _, isSyscall) => isSyscall
       case Dyn(_) => true
       case External(digest) => forall k: nat, id: NodeId | k < |g.forests| :: !g.forests[k].Holds(digest, id)
       case _ => false
  }

  lemma ContributionMeans(g: Graph, n: Location)
    requires g.Valid() && g.Contains(n)
    ensures g.Contribution(n) == StateChanging <==> Classed(g, n, StateChanging)
    ensures g.Contribution(n) == Unknown <==> Classed(g, n, Unknown) || Lost(g, n)
  {
    if g.Node(n).External? { ResolvedExactly(g, g.Node(n).digest); }
  }

  /**
   A procedure is state-changing exactly when it reaches a protocol procedure
   that is, and otherwise unknown exactly when it reaches one of unknown class
   or a node that cannot be followed.
   */
  lemma AnswerMeans(g: Graph, root: Location)
    requires g.Valid()
    ensures g.Answer(root) == StateChanging <==> exists n :: g.Reachable(root, n) && Classed(g, n, StateChanging)
    ensures g.Answer(root) == Unknown <==>
      && !(exists n :: g.Reachable(root, n) && Classed(g, n, StateChanging))
      && exists n :: g.Reachable(root, n) && (Classed(g, n, Unknown) || Lost(g, n))
  {
    forall n | g.Reachable(root, n)
      ensures g.Contribution(n) == StateChanging <==> Classed(g, n, StateChanging)
      ensures g.Contribution(n) == Unknown <==> Classed(g, n, Unknown) || Lost(g, n)
    {
      ContributionMeans(g, n);
    }
  }

  /** Whatever the walk has met is reachable. */
  ghost predicate Met(g: Graph, root: Location, locations: set<Location>)
    requires g.Valid()
  {
    forall n | n in locations :: g.Reachable(root, n)
  }

  /** Nothing reachable from a seen location is forgotten. */
  ghost predicate Frontier(g: Graph, root: Location, seen: set<Location>, stack: set<Location>)
    requires g.Valid() && Met(g, root, seen)
  {
    && root in seen + stack
    && forall n | n in seen :: Elements(g.Successors(n)) <= seen + stack
  }

  /** The access so far is the join of what the seen locations contribute. */
  ghost predicate Accounts(g: Graph, root: Location, seen: set<Location>, access: Access)
    requires g.Valid() && Met(g, root, seen)
  {
    && (forall n | n in seen :: g.Contribution(n).AtMost(access))
    && (access == ReadOnly || g.Contributes(root, access))
  }

  ghost function Elements(s: seq<Location>): set<Location> {
    set n | n in s
  }

  /** What holds of the walk between two steps. */
  ghost predicate WalkInvariant(g: Graph, root: Location, seen: set<Location>, stack: seq<Location>, access: Access)
    requires g.Valid()
  {
    && Met(g, root, Elements(stack))
    && Met(g, root, seen)
    && Frontier(g, root, seen, Elements(stack))
    && Accounts(g, root, seen, access)
  }

  lemma SplitLast(s: seq<Location>)
    requires s != []
    ensures s == s[..|s| - 1] + [s[|s| - 1]]
  {}

  lemma ElementsOfConcat(a: seq<Location>, b: seq<Location>)
    ensures Elements(a + b) == Elements(a) + Elements(b)
  {}

  /** A location already seen is dropped from the stack. */
  lemma SkipKeeps(g: Graph, root: Location, seen: set<Location>, stack: seq<Location>, n: Location, access: Access)
    requires g.Valid() && WalkInvariant(g, root, seen, stack + [n], access) && n in seen
    ensures WalkInvariant(g, root, seen, stack, access)
  {
    ElementsOfConcat(stack, [n]);
  }

  lemma SuccessorsAreMet(g: Graph, root: Location, n: Location)
    requires g.Valid() && Met(g, root, {n})
    ensures g.Contains(n) && Met(g, root, Elements(g.Successors(n)))
  {
    assert n in {n};
    SuccessorIsReachable(g, root, n);
  }

  lemma AccountsGrows(g: Graph, root: Location, seen: set<Location>, n: Location, access: Access)
    requires g.Valid() && Met(g, root, seen) && Met(g, root, {n}) && Accounts(g, root, seen, access)
    ensures g.Contains(n) && Met(g, root, seen + {n})
    ensures Accounts(g, root, seen + {n}, access.Join(g.Contribution(n)))
  {}

  lemma FrontierGrows(g: Graph, root: Location, seen: set<Location>, stack: set<Location>, n: Location)
    requires g.Valid() && Met(g, root, seen) && Met(g, root, {n}) && Frontier(g, root, seen, stack + {n})
    ensures g.Contains(n) && Met(g, root, seen + {n})
    ensures Frontier(g, root, seen + {n}, stack + Elements(g.Successors(n)))
  {
    assert n in {n};
    forall m | m in seen + {n} ensures Elements(g.Successors(m)) <= seen + {n} + (stack + Elements(g.Successors(n))) {}
  }

  /** A new one is replaced by its successors and adds its own contribution. */
  lemma VisitKeeps(g: Graph, root: Location, seen: set<Location>, stack: seq<Location>, n: Location, access: Access)
    requires g.Valid() && WalkInvariant(g, root, seen, stack + [n], access)
    ensures g.Contains(n)
    ensures WalkInvariant(g, root, seen + {n}, stack + g.Successors(n), access.Join(g.Contribution(n)))
  {
    ElementsOfConcat(stack, [n]);
    assert Elements([n]) == {n};
    SuccessorsAreMet(g, root, n);
    AccountsGrows(g, root, seen, n, access);
    assert Elements(stack + [n]) == Elements(stack) + {n};
    FrontierGrows(g, root, seen, Elements(stack), n);
    ElementsOfConcat(stack, g.Successors(n));
  }

  /** Once the stack is empty everything reachable has been seen. */
  lemma WalkIsDone(g: Graph, root: Location, seen: set<Location>, access: Access)
    requires g.Valid() && WalkInvariant(g, root, seen, [], access)
    ensures access == g.Answer(root)
  {
    var isSeen := (n: Location) => n in seen;
    forall n, m | isSeen(n) && g.Edge()(n, m) ensures isSeen(m) {
      assert m in Elements(g.Successors(n));
    }
    forall m | g.Reachable(root, m) ensures g.Contribution(m).AtMost(access) {
      Kept(g.Edge(), isSeen, root, m);
    }
    AnswerIsLeastUpperBound(g, root, access);
  }

  /** What the package's forest and the libraries hold between them. */
  datatype Analyzer = Analyzer(protocol: map<Digest, Access>, libraries: seq<Forest>) {
    function GraphOf(forest: Forest): Graph {
      Graph(protocol, [forest] + libraries)
    }

    /** The package's own forest is searched before the libraries. */
    lemma OwnBodyFirst(forest: Forest, digest: Digest, id: NodeId)
      requires GraphOf(forest).Valid() && forest.Valid() && forest.Holds(digest, id)
      ensures GraphOf(forest).Resolve(digest, 0) == Some(Location(0, id))
    {
      ResolvedExactly(GraphOf(forest), digest);
      assert FirstBody(GraphOf(forest), digest, 0, Location(0, id));
    }

    /** And they in their order. */
    lemma LibrariesInOrder(forest: Forest, digest: Digest, k: nat, id: NodeId)
      requires GraphOf(forest).Valid() && forest.Valid() && forall other: NodeId :: !forest.Holds(digest, other)
      requires k < |libraries| && libraries[k].Valid() && libraries[k].Holds(digest, id)
      requires forall j: nat, other: NodeId | j < k :: libraries[j].Valid() && !libraries[j].Holds(digest, other)
      ensures GraphOf(forest).Resolve(digest, 0) == Some(Location(k + 1, id))
    {
      var g := GraphOf(forest);
      ResolvedExactly(g, digest);
      assert g.forests[k + 1] == libraries[k];
      forall j: nat, other: NodeId | j < k + 1 ensures !g.forests[j].Holds(digest, other) {
        assert g.forests[j] == if j == 0 then forest else libraries[j - 1];
      }
      assert FirstBody(g, digest, 0, Location(k + 1, id));
    }

    /** The walk's `match`: where an unclassified node leads, and what it says itself. */
    static method Expand(g: Graph, n: Location, pending: seq<Location>, before: Access)
        returns (stack: seq<Location>, access: Access)
      requires g.Valid() && g.Contains(n) && g.Node(n).digest !in g.protocol
      ensures stack == pending + g.Successors(n)
      ensures access == before.Join(g.Contribution(n))
    {
      stack, access := pending, before;
      match g.Node(n) {
        case Block(_) =>
        case Join(_, first, second) =>
          stack := stack + [Location(n.forest, first), Location(n.forest, second)];
        case Split(_, onTrue, onFalse) =>
          stack := stack + [Location(n.forest, onTrue), Location(n.forest, onFalse)];
        case Loop(_, body) =>
          stack := stack + [Location(n.forest, body)];
        case Call(_, callee, isSyscall) =>
          if isSyscall {
            access := access.Join(Unknown);
          } else {
            stack := stack + [Location(n.forest, callee)];
          }
        case Dyn(_) =>
          access := access.Join(Unknown);
        case External(digest) =>
          match g.Resolve(digest, 0) {
            case Some(found) => stack := stack + [found];
            case None => access := access.Join(Unknown);
          }
      }
    }

    /**
     The worklist walk. Its answer is the join over everything reachable,
     although it stops at the first state-changing procedure and looks at each
     location once. It ends because each step sees a new location or shortens
     the stack.
     */
    method Procedure(forest: Forest, root: NodeId) returns (access: Access)
      requires GraphOf(forest).Valid() && root in forest.nodes
      ensures access == GraphOf(forest).Answer(Location(0, root))
    {
      var g := GraphOf(forest);
      ghost var start := Location(0, root);
      ReachesSelf(g.Edge(), start);
      access := ReadOnly;
      var seen: set<Location> := {};
      var stack := [Location(0, root)];
      while stack != []
        invariant seen <= g.Locations()
        invariant WalkInvariant(g, start, seen, stack, access)
        decreases g.Locations() - seen, |stack|
      {
        var n := stack[|stack| - 1];
        SplitLast(stack);
        stack := stack[..|stack| - 1];
        ghost var accessBefore := access;
        if n in seen {
          SkipKeeps(g, start, seen, stack, n, access);
          continue;
        }
        VisitKeeps(g, start, seen, stack, n, access);
        assert n in g.Locations() - seen;
        seen := seen + {n};
        var node := g.Node(n);
        if node.digest in protocol {
          access := access.Join(protocol[node.digest]);
          if access == StateChanging {
            return;
          }
          assert g.Successors(n) == [];
          assert stack + [] == stack;
          continue;
        }
        stack, access := Expand(g, n, stack, access);
        assert access == accessBefore.Join(g.Contribution(n));
      }
      WalkIsDone(g, start, seen, access);
    }
  }
}
