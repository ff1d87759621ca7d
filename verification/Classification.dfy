/**
 What surrounds the walk: the classification of the protocol's procedures by
 name, the answers for a package's exports, and how an answer depends on the
 classification and on the libraries searched.
 */
module Classification {
  import opened Wrappers
  import opened Mast
  import opened Reachability
  import opened ReadOnly

  datatype Export =
    | Procedure(path: string, node: Option<NodeId>, digest: Digest)
    | NotProcedure

  datatype Package = Package(exports: seq<Export>, forest: Forest)

  const PROTOCOL_PREFIX := "::miden::protocol::"

  function StripPrefix(path: string): string {
    if PROTOCOL_PREFIX <= path then path[|PROTOCOL_PREFIX|..] else path
  }

  /** The names whose effects outlive the transaction, and the others known. */
  datatype Lists = Lists(stateChanging: seq<string>, readOnly: seq<string>) {
    function Classify(path: string): Access {
      var name := StripPrefix(path);
      if name in stateChanging then StateChanging
      else if name in readOnly then Access.ReadOnly
      else Unknown
    }

    /** The classification by digest; of two exports with one digest the later stands. */
    function ProtocolAccess(exports: seq<Export>): map<Digest, Access> {
      if exports == [] then map[]
      else
        var before := ProtocolAccess(exports[..|exports| - 1]);
        match exports[|exports| - 1]
        case Procedure(path, _, digest) => before[digest := Classify(path)]
        case NotProcedure => before
    }
  }

  // --- What the classification says ---

  /** A name's class: state-changing when listed as that, read-only when only listed as that. */
  ghost predicate IsClassOf(lists: Lists, name: string, access: Access) {
    && (access == StateChanging <==> name in lists.stateChanging)
    && (access == Access.ReadOnly <==> name in lists.readOnly && name !in lists.stateChanging)
  }

  /** Digests are classified when some procedure of the protocol library has them. */
  lemma {:induction false} ClassifiedExactly(lists: Lists, exports: seq<Export>, digest: Digest)
    ensures digest in lists.ProtocolAccess(exports) <==>
            exists i :: 0 <= i < |exports| && exports[i].Procedure? && exports[i].digest == digest
  {
    if exports != [] {
      var n := |exports| - 1;
      ClassifiedExactly(lists, exports[..n], digest);
      if i :| 0 <= i < n && exports[..n][i].Procedure? && exports[..n][i].digest == digest {
        assert exports[i].Procedure? && exports[i].digest == digest;
      }
      if i :| 0 <= i < |exports| && exports[i].Procedure? && exports[i].digest == digest {
        if i < n { assert exports[..n][i].Procedure? && exports[..n][i].digest == digest; }
      }
    }
  }

  /**
   A digest's class is that of the last procedure with it, by its path below
   `::miden::protocol::`, or by the whole path where it is not below that.
   */
  lemma {:induction false} ClassExactly(lists: Lists, exports: seq<Export>, i: nat, name: string)
    requires i < |exports| && exports[i].Procedure?
    requires forall j | i < j < |exports| :: exports[j].Procedure? ==> exports[j].digest != exports[i].digest
    requires
      || exports[i].path == "::miden::protocol::" + name
      || (exports[i].path == name && forall rest: string :: "::miden::protocol::" + rest != name)
    ensures exports[i].digest in lists.ProtocolAccess(exports)
    ensures IsClassOf(lists, name, lists.ProtocolAccess(exports)[exports[i].digest])
    decreases |exports|
  {
    var n := |exports| - 1;
    if i < n {
      assert forall j | i < j < n :: exports[..n][j] == exports[j];
      ClassExactly(lists, exports[..n], i, name);
    } else {
      StrippedIs(exports[i].path, name);
    }
  }

  lemma StrippedIs(path: string, name: string)
    requires path == "::miden::protocol::" + name || (path == name && forall rest: string :: "::miden::protocol::" + rest != name)
    ensures StripPrefix(path) == name
  {
    if PROTOCOL_PREFIX <= path {
      assert path == PROTOCOL_PREFIX + path[|PROTOCOL_PREFIX|..];
      if path != "::miden::protocol::" + name { assert false; }
    }
  }

  // --- How answers move ---

  ghost predicate Raises(low: map<Digest, Access>, high: map<Digest, Access>) {
    && low.Keys == high.Keys
    && forall d | d in low :: low[d].AtMost(high[d])
  }

  lemma ResolutionIgnoresClasses(g: Graph, h: Graph, digest: Digest, from: nat)
    requires g.Valid() && h.Valid() && g.forests == h.forests && from <= |g.forests|
    ensures g.Resolve(digest, from) == h.Resolve(digest, from)
    decreases |g.forests| - from
  {
    if from < |g.forests| {
      ResolutionIgnoresClasses(g, h, digest, from + 1);
    }
  }

  lemma EdgesIgnoreClasses(g: Graph, h: Graph, n: Location)
    requires g.Valid() && h.Valid() && g.forests == h.forests && Raises(g.protocol, h.protocol) && g.Contains(n)
    ensures g.Successors(n) == h.Successors(n) && g.Contribution(n).AtMost(h.Contribution(n))
  {
    ResolutionIgnoresClasses(g, h, g.Node(n).digest, 0);
  }

  /** Raising a procedure's class never lowers an answer. */
  lemma RaisingRaises(g: Graph, h: Graph, root: Location)
    requires g.Valid() && h.Valid() && g.forests == h.forests && Raises(g.protocol, h.protocol) && g.Contains(root)
    ensures g.Answer(root).AtMost(h.Answer(root))
  {
    AnswerIsLeastUpperBound(h, root, h.Answer(root));
    forall n | g.Reachable(root, n) ensures g.Contribution(n).AtMost(h.Answer(root)) {
      EdgesIgnoreClasses(g, h, n);
      var inH := (m: Location) => h.Reachable(root, m);
      ReachesSelf(h.Edge(), root);
      forall m, k | inH(m) && g.Edge()(m, k) ensures inH(k) {
        EdgesIgnoreClasses(g, h, m);
        SuccessorIsReachable(h, root, m);
      }
      Kept(g.Edge(), inH, root, n);
    }
    AnswerIsLeastUpperBound(g, root, h.Answer(root));
  }

  lemma {:induction false} ListingRaises(lists: Lists, more: seq<string>, exports: seq<Export>)
    ensures Raises(lists.ProtocolAccess(exports),
                   lists.(stateChanging := lists.stateChanging + more).ProtocolAccess(exports))
  {
    if exports != [] {
      ListingRaises(lists, more, exports[..|exports| - 1]);
    }
  }

  /**
   Moving names of the protocol library into the state-changing list, whatever
   list they were in, never lowers any procedure's answer.
   */
  lemma ListingNeverLowers(lists: Lists, more: seq<string>, exports: seq<Export>, forests: seq<Forest>, root: Location)
    requires var g := Graph(lists.ProtocolAccess(exports), forests); g.Valid() && g.Contains(root)
    ensures var longer := lists.(stateChanging := lists.stateChanging + more);
            Graph(lists.ProtocolAccess(exports), forests).Answer(root)
              .AtMost(Graph(longer.ProtocolAccess(exports), forests).Answer(root))
  {
    var longer := lists.(stateChanging := lists.stateChanging + more);
    ListingRaises(lists, more, exports);
    RaisingRaises(Graph(lists.ProtocolAccess(exports), forests), Graph(longer.ProtocolAccess(exports), forests), root);
  }

  lemma {:induction false} AppendingKeepsResolution(g: Graph, libraries: seq<Forest>, digest: Digest, from: nat)
    requires g.Valid() && Graph(g.protocol, g.forests + libraries).Valid() && from <= |g.forests|
    ensures g.Resolve(digest, from).Some? ==>
              Graph(g.protocol, g.forests + libraries).Resolve(digest, from) == g.Resolve(digest, from)
    decreases |g.forests| - from
  {
    if from < |g.forests| {
      AppendingKeepsResolution(g, libraries, digest, from + 1);
    }
  }

  /** Appending libraries adds nothing at a location that says anything definite. */
  lemma AppendingKeepsNode(g: Graph, libraries: seq<Forest>, n: Location)
    requires g.Valid() && Graph(g.protocol, g.forests + libraries).Valid() && g.Contains(n)
    ensures var h := Graph(g.protocol, g.forests + libraries);
            && h.Contains(n)
            && (forall m | m in g.Successors(n) :: m in h.Successors(n))
            && (g.Contribution(n) != Unknown ==>
                  h.Successors(n) == g.Successors(n) && h.Contribution(n) == g.Contribution(n))
  {
    AppendingKeepsResolution(g, libraries, g.Node(n).digest, 0);
  }

  lemma AppendingKeepsReach(g: Graph, libraries: seq<Forest>, root: Location, n: Location)
    requires g.Valid() && Graph(g.protocol, g.forests + libraries).Valid() && g.Reachable(root, n) && g.Contains(root)
    ensures Graph(g.protocol, g.forests + libraries).Reachable(root, n)
  {
    var h := Graph(g.protocol, g.forests + libraries);
    var inH := (m: Location) => h.Reachable(root, m);
    ReachesSelf(h.Edge(), root);
    forall m, k | inH(m) && g.Edge()(m, k) ensures inH(k) {
      AppendingKeepsNode(g, libraries, m);
      SuccessorIsReachable(h, root, m);
    }
    Kept(g.Edge(), inH, root, n);
  }

  /**
   Searching more libraries, after the others, can only settle an unknown
   answer: a definite one is never changed by it.
   */
  lemma AppendingOnlySettlesUnknown(g: Graph, libraries: seq<Forest>, root: Location)
    requires g.Valid() && Graph(g.protocol, g.forests + libraries).Valid() && g.Contains(root)
    requires g.Answer(root) != Unknown
    ensures Graph(g.protocol, g.forests + libraries).Answer(root) == g.Answer(root)
  {
    var h := Graph(g.protocol, g.forests + libraries);
    if g.Answer(root) == StateChanging {
      var n :| g.Reachable(root, n) && g.Contribution(n) == StateChanging;
      AppendingKeepsReach(g, libraries, root, n);
      AppendingKeepsNode(g, libraries, n);
      assert h.Contributes(root, StateChanging);
    } else {
      AnswerIsLeastUpperBound(g, root, Access.ReadOnly);
      var inG := (m: Location) => g.Reachable(root, m);
      ReachesSelf(g.Edge(), root);
      forall m, k | inG(m) && h.Edge()(m, k) ensures inG(k) {
        AppendingKeepsNode(g, libraries, m);
        SuccessorIsReachable(g, root, m);
      }
      forall n | h.Reachable(root, n) ensures h.Contribution(n).AtMost(Access.ReadOnly) {
        Kept(h.Edge(), inG, root, n);
        AppendingKeepsNode(g, libraries, n);
      }
      AnswerIsLeastUpperBound(h, root, Access.ReadOnly);
    }
  }

  // --- The exports ---

  /** The answer an export's entry has to hold, unknown when it has no body here. */
  ghost function ExportAnswer(analyzer: Analyzer, package: Package, export_: Export): Access
    requires analyzer.GraphOf(package.forest).Valid() && export_.Procedure?
  {
    var forest := package.forest;
    assert forest == analyzer.GraphOf(forest).forests[0];
    var root := if export_.node.Some? then export_.node else forest.FindProcedureRoot(export_.digest);
    if root.None? then Unknown else analyzer.GraphOf(forest).Answer(Location(0, root.value))
  }

  ghost function ExportAnswers(analyzer: Analyzer, package: Package, exports: seq<Export>): seq<(string, Access)>
    requires analyzer.GraphOf(package.forest).Valid()
  {
    if exports == [] then []
    else
      var before := ExportAnswers(analyzer, package, exports[..|exports| - 1]);
      var last := exports[|exports| - 1];
      if last.Procedure? then before + [(last.path, ExportAnswer(analyzer, package, last))] else before
  }

  /**
   An export is answered for the node its manifest gives, else for the first
   root with its digest, and is unknown without either.
   */
  lemma ExportAnswerExactly(analyzer: Analyzer, package: Package, e: Export)
    requires analyzer.GraphOf(package.forest).Valid() && package.forest.Valid() && e.Procedure?
    ensures var g := analyzer.GraphOf(package.forest);
      && (e.node.Some? ==> ExportAnswer(analyzer, package, e) == g.Answer(Location(0, e.node.value)))
      && (e.node.None? ==> forall i: nat | package.forest.FirstRoot(e.digest, i) ::
            ExportAnswer(analyzer, package, e) == g.Answer(Location(0, package.forest.roots[i])))
      && (e.node.None? && package.forest.Lacks(e.digest) ==> ExportAnswer(analyzer, package, e) == Unknown)
  {
    var forest := package.forest;
    forall i: nat | forest.FirstRoot(e.digest, i) ensures forest.FindProcedureRoot(e.digest) == Some(forest.roots[i]) {
      FoundExactly(forest, e.digest, forest.roots[i]);
    }
    if found :| forest.FindProcedureRoot(e.digest) == Some(found) {
      FoundExactly(forest, e.digest, found);
    }
  }

  ghost function CountProcedures(exports: seq<Export>): nat {
    if exports == [] then 0
    else CountProcedures(exports[..|exports| - 1]) + if exports[|exports| - 1].Procedure? then 1 else 0
  }

  /** There is an answer for each procedure, at its place among the procedures. */
  lemma {:induction false} AnswersInOrder(analyzer: Analyzer, package: Package, exports: seq<Export>, i: nat)
    requires analyzer.GraphOf(package.forest).Valid() && i < |exports| && exports[i].Procedure?
    ensures |ExportAnswers(analyzer, package, exports)| == CountProcedures(exports) > CountProcedures(exports[..i])
    ensures ExportAnswers(analyzer, package, exports)[CountProcedures(exports[..i])]
         == (exports[i].path, ExportAnswer(analyzer, package, exports[i]))
  {
    var n := |exports| - 1;
    AnswersAreCounted(analyzer, package, exports[..n]);
    if i < n {
      AnswersInOrder(analyzer, package, exports[..n], i);
      assert exports[..n][..i] == exports[..i];
    }
  }

  lemma {:induction false} AnswersAreCounted(analyzer: Analyzer, package: Package, exports: seq<Export>)
    requires analyzer.GraphOf(package.forest).Valid()
    ensures |ExportAnswers(analyzer, package, exports)| == CountProcedures(exports)
  {
    if exports != [] { AnswersAreCounted(analyzer, package, exports[..|exports| - 1]); }
  }

  method Exports(analyzer: Analyzer, package: Package) returns (answers: seq<(string, Access)>)
    requires analyzer.GraphOf(package.forest).Valid()
    requires forall e | e in package.exports && e.Procedure? && e.node.Some? :: e.node.value in package.forest.nodes
    ensures answers == ExportAnswers(analyzer, package, package.exports)
  {
    var forest := package.forest;
    assert forest == analyzer.GraphOf(forest).forests[0];
    answers := [];
    for i := 0 to |package.exports|
      invariant answers == ExportAnswers(analyzer, package, package.exports[..i])
    {
      var next := package.exports[i];
      assert package.exports[..i + 1][..i] == package.exports[..i];
      if next.Procedure? {
        var root := if next.node.Some? then next.node else forest.FindProcedureRoot(next.digest);
        var access := Unknown;
        if root.Some? {
          access := analyzer.Procedure(forest, root.value);
        }
        answers := answers + [(next.path, access)];
      }
    }
    assert package.exports[..|package.exports|] == package.exports;
  }
}
