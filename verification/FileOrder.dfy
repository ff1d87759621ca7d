/**
 Sorting every level of the explorer tree, and what the finished tree is: the path
 list and the tree undo each other.
 */
module FileOrder {
  import opened Paths
  import opened FileTree

  /** How names compare: any total preorder. */
  type Collation = (string, string) -> bool

  ghost predicate TotalPreorder(le: Collation) {
    && (forall a, b :: le(a, b) || le(b, a))
    && (forall a, b, c :: le(a, b) && le(b, c) ==> le(a, c))
  }

  /** Folders first, then files, each by name. */
  predicate Before(le: Collation, a: Node, b: Node) {
    if a.Folder? != b.Folder? then a.Folder? else le(a.name, b.name)
  }

  /** A node goes before those it compares equal to, so nodes taken from the last to the first keep their order. */
  function Place(le: Collation, node: Node, sorted: seq<Node>): seq<Node> {
    if sorted == [] then [node]
    else if Before(le, node, sorted[0]) then [node] + sorted
    else [sorted[0]] + Place(le, node, sorted[1..])
  }

  /** A stable sort. */
  function Sort(le: Collation, nodes: seq<Node>): seq<Node> {
    if nodes == [] then [] else Place(le, nodes[0], Sort(le, nodes[1..]))
  }

  function SortNode(le: Collation, node: Node): (r: Node)
    ensures r.name == node.name && r.path == node.path && r.Folder? == node.Folder?
    decreases node
  {
    if node.File? then node else node.(children := SortTree(le, node.children))
  }

  function SortChildren(le: Collation, nodes: seq<Node>): (r: seq<Node>)
    ensures |r| == |nodes| && forall i | 0 <= i < |nodes| :: r[i] == SortNode(le, nodes[i])
    decreases nodes, 0
  {
    if nodes == [] then [] else [SortNode(le, nodes[0])] + SortChildren(le, nodes[1..])
  }

  function SortTree(le: Collation, nodes: seq<Node>): seq<Node>
    decreases nodes, 1
  {
    Sort(le, SortChildren(le, nodes))
  }

  function Build(le: Collation, paths: seq<string>): seq<Node> {
    SortTree(le, InsertAll([], [], SplitAll(paths)))
  }

  // --- Sorting one level ---

  /** No file is before a folder, and of one kind the names are in order. */
  ghost predicate SortedLevel(le: Collation, nodes: seq<Node>) {
    && (forall i, j | 0 <= i < j < |nodes| && nodes[j].Folder? :: nodes[i].Folder?)
    && (forall i, j | 0 <= i < j < |nodes| && nodes[i].Folder? == nodes[j].Folder? :: le(nodes[i].name, nodes[j].name))
  }

  lemma {:induction false} PlacePermutes(le: Collation, node: Node, sorted: seq<Node>)
    ensures multiset(Place(le, node, sorted)) == multiset(sorted) + multiset{node}
  {
    if sorted != [] && !Before(le, node, sorted[0]) {
      PlacePermutes(le, node, sorted[1..]);
      assert sorted == [sorted[0]] + sorted[1..];
    }
  }

  lemma {:induction false} SortPermutes(le: Collation, nodes: seq<Node>)
    ensures multiset(Sort(le, nodes)) == multiset(nodes)
  {
    if nodes != [] {
      SortPermutes(le, nodes[1..]);
      PlacePermutes(le, nodes[0], Sort(le, nodes[1..]));
      assert nodes == [nodes[0]] + nodes[1..];
    }
  }

  lemma PlaceHolds(le: Collation, node: Node, sorted: seq<Node>, other: Node)
    ensures other in Place(le, node, sorted) <==> other == node || other in sorted
  {
    PlacePermutes(le, node, sorted);
    assert other in Place(le, node, sorted) <==> other in multiset(Place(le, node, sorted));
  }

  lemma SortHolds(le: Collation, nodes: seq<Node>, other: Node)
    ensures other in Sort(le, nodes) <==> other in nodes
  {
    SortPermutes(le, nodes);
    assert other in Sort(le, nodes) <==> other in multiset(Sort(le, nodes));
  }

  lemma FirstIsSorted(le: Collation, node: Node, rest: seq<Node>)
    requires SortedLevel(le, rest) && forall other | other in rest :: Before(le, node, other)
    ensures SortedLevel(le, [node] + rest)
  {
    var all := [node] + rest;
    forall i, j | 0 <= i < j < |all| ensures Before(le, all[i], all[j]) {
      assert all[j] == rest[j - 1];
      if i > 0 { assert all[i] == rest[i - 1]; }
    }
  }

  lemma {:induction false} PlaceSorts(le: Collation, node: Node, sorted: seq<Node>)
    requires TotalPreorder(le) && SortedLevel(le, sorted)
    ensures SortedLevel(le, Place(le, node, sorted))
  {
    if sorted != [] {
      var first, rest := sorted[0], sorted[1..];
      if Before(le, node, first) {
        FirstIsSorted(le, node, sorted);
      } else {
        PlaceSorts(le, node, rest);
        forall other | other in Place(le, node, rest) ensures Before(le, first, other) { PlaceHolds(le, node, rest, other); }
        FirstIsSorted(le, first, Place(le, node, rest));
      }
    }
  }

  lemma {:induction false} SortSorts(le: Collation, nodes: seq<Node>)
    requires TotalPreorder(le)
    ensures SortedLevel(le, Sort(le, nodes))
  {
    if nodes != [] {
      SortSorts(le, nodes[1..]);
      PlaceSorts(le, nodes[0], Sort(le, nodes[1..]));
    }
  }

  lemma {:induction false} SortOfSorted(le: Collation, nodes: seq<Node>)
    requires SortedLevel(le, nodes)
    ensures Sort(le, nodes) == nodes
  {
    if nodes != [] {
      SortOfSorted(le, nodes[1..]);
    }
  }

  predicate Ties(le: Collation, a: Node, b: Node) {
    a.Folder? == b.Folder? && le(a.name, b.name) && le(b.name, a.name)
  }

  /** The nodes that compare equal to `x`, in order. */
  function TiesOf(le: Collation, x: Node, nodes: seq<Node>): seq<Node> {
    if nodes == [] then [] else Tie(le, x, nodes[0]) + TiesOf(le, x, nodes[1..])
  }

  function Tie(le: Collation, x: Node, node: Node): seq<Node> {
    if Ties(le, x, node) then [node] else []
  }

  lemma TiesOfFirst(le: Collation, x: Node, node: Node, rest: seq<Node>)
    ensures TiesOf(le, x, [node] + rest) == Tie(le, x, node) + TiesOf(le, x, rest)
  {
    assert ([node] + rest)[0] == node && ([node] + rest)[1..] == rest;
  }

  lemma TiesCompare(le: Collation, x: Node, a: Node, b: Node)
    requires TotalPreorder(le) && Ties(le, x, a) && Ties(le, x, b)
    ensures Before(le, a, b)
  {}

  ghost predicate BeforeTies(le: Collation, x: Node, node: Node, nodes: seq<Node>) {
    Ties(le, x, node) ==> forall other | other in nodes && Ties(le, x, other) :: Before(le, node, other)
  }

  lemma TiesComeAfter(le: Collation, x: Node, node: Node, nodes: seq<Node>)
    requires TotalPreorder(le)
    ensures BeforeTies(le, x, node, nodes)
  {
    if Ties(le, x, node) {
      forall other | other in nodes && Ties(le, x, other) ensures Before(le, node, other) { TiesCompare(le, x, node, other); }
    }
  }

  lemma EmptyPasses<T>(a: seq<T>, b: seq<T>, c: seq<T>)
    requires a == [] || b == []
    ensures a + (b + c) == b + (a + c)
  {}

  lemma {:induction false} PlaceIsStable(le: Collation, node: Node, sorted: seq<Node>, x: Node)
    requires BeforeTies(le, x, node, sorted)
    ensures TiesOf(le, x, Place(le, node, sorted)) == Tie(le, x, node) + TiesOf(le, x, sorted)
  {
    if sorted == [] || Before(le, node, sorted[0]) {
      TiesOfFirst(le, x, node, sorted);
      assert Place(le, node, sorted) == [node] + sorted;
    } else {
      var first, rest := sorted[0], sorted[1..];
      assert first in sorted;
      PlaceIsStable(le, node, rest, x);
      TiesOfFirst(le, x, first, Place(le, node, rest));
      EmptyPasses(Tie(le, x, first), Tie(le, x, node), TiesOf(le, x, rest));
    }
  }

  /** Nodes that compare equal keep their order. */
  lemma {:induction false} SortIsStable(le: Collation, nodes: seq<Node>, x: Node)
    requires TotalPreorder(le)
    ensures TiesOf(le, x, Sort(le, nodes)) == TiesOf(le, x, nodes)
  {
    if nodes != [] {
      SortIsStable(le, nodes[1..], x);
      TiesComeAfter(le, x, nodes[0], Sort(le, nodes[1..]));
      PlaceIsStable(le, nodes[0], Sort(le, nodes[1..]), x);
    }
  }

  // --- Sorting the tree ---

  /** Every level is sorted. */
  ghost predicate OrderedTree(le: Collation, nodes: seq<Node>) {
    SortedLevel(le, nodes) && forall i | 0 <= i < |nodes| && nodes[i].Folder? :: OrderedTree(le, nodes[i].children)
  }

  lemma {:induction false} SortTreeOrders(le: Collation, nodes: seq<Node>)
    requires TotalPreorder(le)
    ensures OrderedTree(le, SortTree(le, nodes))
    decreases nodes
  {
    var mapped := SortChildren(le, nodes);
    forall i | 0 <= i < |nodes| && nodes[i].Folder? ensures OrderedTree(le, mapped[i].children) {
      SortTreeOrders(le, nodes[i].children);
    }
    SortSorts(le, mapped);
    forall node | node in SortTree(le, nodes) && node.Folder? ensures OrderedTree(le, node.children) {
      SortHolds(le, mapped, node);
    }
  }

  lemma {:induction false} SortTreeOfOrdered(le: Collation, nodes: seq<Node>)
    requires OrderedTree(le, nodes)
    ensures SortTree(le, nodes) == nodes
    decreases nodes
  {
    forall i | 0 <= i < |nodes| ensures SortNode(le, nodes[i]) == nodes[i] {
      if nodes[i].Folder? { SortTreeOfOrdered(le, nodes[i].children); }
    }
    assert SortChildren(le, nodes) == nodes;
    SortOfSorted(le, nodes);
  }

  // --- Sorting keeps what building promises ---

  /** No folder here has the node's name, if it is a folder too. */
  ghost predicate NoneLike(node: Node, nodes: seq<Node>) {
    node.Folder? ==> forall other | other in nodes && other.Folder? :: other.name != node.name
  }

  lemma FirstIsDistinct(node: Node, nodes: seq<Node>)
    ensures OneFolderPerName([node] + nodes) <==> NoneLike(node, nodes) && OneFolderPerName(nodes)
  {
    var all := [node] + nodes;
    assert all[0] == node && forall j | 0 <= j < |nodes| :: all[j + 1] == nodes[j];
    if NoneLike(node, nodes) && OneFolderPerName(nodes) {
      forall i, j | 0 <= i < j < |all| && all[i].Folder? && all[j].Folder? ensures all[i].name != all[j].name {
        assert all[j] == nodes[j - 1];
        if i > 0 { assert all[i] == nodes[i - 1]; }
      }
    }
  }

  lemma {:induction false} PlaceKeepsDistinct(le: Collation, node: Node, sorted: seq<Node>)
    requires NoneLike(node, sorted) && OneFolderPerName(sorted)
    ensures OneFolderPerName(Place(le, node, sorted))
  {
    FirstIsDistinct(node, sorted);
    if sorted != [] && !Before(le, node, sorted[0]) {
      var first, rest := sorted[0], sorted[1..];
      assert sorted == [first] + rest;
      FirstIsDistinct(first, rest);
      PlaceKeepsDistinct(le, node, rest);
      forall other ensures other in Place(le, node, rest) <==> other == node || other in rest { PlaceHolds(le, node, rest, other); }
      FirstIsDistinct(first, Place(le, node, rest));
    }
  }

  lemma {:induction false} SortKeepsDistinct(le: Collation, nodes: seq<Node>)
    requires OneFolderPerName(nodes)
    ensures OneFolderPerName(Sort(le, nodes))
  {
    if nodes != [] {
      var rest := nodes[1..];
      assert nodes == [nodes[0]] + rest;
      FirstIsDistinct(nodes[0], rest);
      SortKeepsDistinct(le, rest);
      forall other ensures other in Sort(le, rest) <==> other in rest { SortHolds(le, rest, other); }
      PlaceKeepsDistinct(le, nodes[0], Sort(le, rest));
    }
  }

  lemma {:induction false} SortTreeKeepsLevel(le: Collation, nodes: seq<Node>, prefix: seq<string>)
    requires LevelOk(nodes, prefix)
    ensures LevelOk(SortTree(le, nodes), prefix) && |SortTree(le, nodes)| == |nodes|
    decreases nodes
  {
    var mapped, sorted := SortChildren(le, nodes), SortTree(le, nodes);
    forall i | 0 <= i < |nodes| ensures NodeOk(mapped[i], prefix) {
      if nodes[i].Folder? { SortTreeKeepsLevel(le, nodes[i].children, prefix + [nodes[i].name]); }
    }
    SortKeepsDistinct(le, mapped);
    SortPermutes(le, mapped);
    assert |sorted| == |multiset(sorted)|;
    forall i | 0 <= i < |sorted| ensures NodeOk(sorted[i], prefix) {
      SortHolds(le, mapped, sorted[i]);
    }
  }

  lemma {:induction false} PlaceKeepsFiles(le: Collation, node: Node, sorted: seq<Node>)
    ensures multiset(Flatten(Place(le, node, sorted))) == multiset(FlattenNode(node)) + multiset(Flatten(sorted))
  {
    if sorted == [] {
      FlattenOne(node);
    } else if Before(le, node, sorted[0]) {
      FlattenOne(node);
      FlattenConcat([node], sorted);
    } else {
      PlaceKeepsFiles(le, node, sorted[1..]);
      FlattenOne(sorted[0]);
      FlattenConcat([sorted[0]], Place(le, node, sorted[1..]));
    }
  }

  lemma {:induction false} SortKeepsFiles(le: Collation, nodes: seq<Node>)
    ensures multiset(Flatten(Sort(le, nodes))) == multiset(Flatten(nodes))
  {
    if nodes != [] {
      SortKeepsFiles(le, nodes[1..]);
      PlaceKeepsFiles(le, nodes[0], Sort(le, nodes[1..]));
    }
  }

  lemma {:induction false} UnderKeepsMultiset(name: string, a: seq<seq<string>>, b: seq<seq<string>>)
    requires multiset(a) == multiset(b)
    ensures multiset(Under(name, a)) == multiset(Under(name, b))
  {
    MappedMultiset((x: seq<string>) => [name] + x, a, b);
    assert Under(name, a) == Map((x: seq<string>) => [name] + x, a);
    assert Under(name, b) == Map((x: seq<string>) => [name] + x, b);
  }

  function Map<A, B>(f: A -> B, a: seq<A>): (r: seq<B>)
    ensures |r| == |a| && forall i | 0 <= i < |a| :: r[i] == f(a[i])
  {
    if a == [] then [] else [f(a[0])] + Map(f, a[1..])
  }

  /** The list without its element at `k`. */
  function Without<T>(a: seq<T>, k: nat): (r: seq<T>)
    requires k < |a|
    ensures |r| == |a| - 1 && forall i | 0 <= i < |r| :: r[i] == a[if i < k then i else i + 1]
  {
    a[..k] + a[k + 1..]
  }

  lemma TakeOut<T>(a: seq<T>, k: nat)
    requires k < |a|
    ensures multiset(a) == multiset{a[k]} + multiset(Without(a, k))
  {
    assert a == a[..k] + [a[k]] + a[k + 1..];
  }

  lemma MapTakesOut<A, B>(f: A -> B, b: seq<A>, k: nat)
    requires k < |b|
    ensures Without(Map(f, b), k) == Map(f, Without(b, k))
  {
    forall i | 0 <= i < |b| - 1 ensures Without(Map(f, b), k)[i] == Map(f, Without(b, k))[i] {}
  }

  lemma Cancel<T>(x: T, a: multiset<T>, b: multiset<T>)
    requires multiset{x} + a == multiset{x} + b
    ensures a == b
  {
    forall y ensures a[y] == b[y] { assert (multiset{x} + a)[y] == (multiset{x} + b)[y]; }
  }

  /** A place in `b` for the first of `a`, and what is left of both. */
  lemma Partner<A>(a: seq<A>, b: seq<A>) returns (k: nat)
    requires multiset(a) == multiset(b) && a != []
    ensures k < |b| && b[k] == a[0] && multiset(a[1..]) == multiset(Without(b, k))
  {
    assert a[0] in multiset(b);
    k :| 0 <= k < |b| && b[k] == a[0];
    TakeOut(b, k);
    assert a == [a[0]] + a[1..];
    Cancel(a[0], multiset(a[1..]), multiset(Without(b, k)));
  }

  lemma {:induction false} MappedMultiset<A(!new), B>(f: A -> B, a: seq<A>, b: seq<A>)
    requires multiset(a) == multiset(b)
    ensures multiset(Map(f, a)) == multiset(Map(f, b))
  {
    if a == [] {
      assert |b| == |multiset(b)| == 0;
    } else {
      var k := Partner(a, b);
      MappedMultiset(f, a[1..], Without(b, k));
      TakeOut(Map(f, b), k);
      MapTakesOut(f, b, k);
    }
  }

  lemma {:induction false} SortChildrenKeepsFiles(le: Collation, nodes: seq<Node>)
    ensures multiset(Flatten(SortChildren(le, nodes))) == multiset(Flatten(nodes))
    decreases nodes, 0
  {
    if nodes != [] {
      if nodes[0].Folder? {
        SortTreeKeepsFiles(le, nodes[0].children);
        UnderKeepsMultiset(nodes[0].name, Flatten(SortTree(le, nodes[0].children)), Flatten(nodes[0].children));
      }
      SortChildrenKeepsFiles(le, nodes[1..]);
      assert SortChildren(le, nodes)[1..] == SortChildren(le, nodes[1..]);
    }
  }

  lemma {:induction false} SortTreeKeepsFiles(le: Collation, nodes: seq<Node>)
    ensures multiset(Flatten(SortTree(le, nodes))) == multiset(Flatten(nodes))
    decreases nodes, 1
  {
    SortChildrenKeepsFiles(le, nodes);
    SortKeepsFiles(le, SortChildren(le, nodes));
  }

  // --- The finished tree ---

  /** The paths of the tree's files, from top to bottom. */
  function FilePaths(nodes: seq<Node>): seq<string>
    decreases nodes
  {
    if nodes == [] then []
    else (if nodes[0].File? then [nodes[0].path] else FilePaths(nodes[0].children)) + FilePaths(nodes[1..])
  }

  function JoinAll(prefix: seq<string>, lists: seq<seq<string>>): (r: seq<string>)
    ensures |r| == |lists| && forall i | 0 <= i < |lists| :: r[i] == Join(prefix + lists[i])
  {
    if lists == [] then [] else [Join(prefix + lists[0])] + JoinAll(prefix, lists[1..])
  }

  lemma {:induction false} JoinAllUnder(prefix: seq<string>, name: string, lists: seq<seq<string>>)
    ensures JoinAll(prefix, Under(name, lists)) == JoinAll(prefix + [name], lists)
  {
    if lists != [] {
      JoinAllUnder(prefix, name, lists[1..]);
      assert prefix + ([name] + lists[0]) == prefix + [name] + lists[0];
      assert Under(name, lists)[1..] == Under(name, lists[1..]);
    }
  }

  lemma JoinAllConcat(prefix: seq<string>, a: seq<seq<string>>, b: seq<seq<string>>)
    ensures JoinAll(prefix, a + b) == JoinAll(prefix, a) + JoinAll(prefix, b)
  {}

  lemma {:induction false} FilePathsAreJoined(nodes: seq<Node>, prefix: seq<string>)
    requires LevelOk(nodes, prefix)
    ensures FilePaths(nodes) == JoinAll(prefix, Flatten(nodes))
    decreases nodes
  {
    if nodes != [] {
      if nodes[0].Folder? {
        FilePathsAreJoined(nodes[0].children, prefix + [nodes[0].name]);
        JoinAllUnder(prefix, nodes[0].name, Flatten(nodes[0].children));
      }
      FilePathsAreJoined(nodes[1..], prefix);
      JoinAllConcat(prefix, FlattenNode(nodes[0]), Flatten(nodes[1..]));
    }
  }

  lemma BuildIsLevel(le: Collation, paths: seq<string>)
    ensures LevelOk(InsertAll([], [], SplitAll(paths)), []) && LevelOk(Build(le, paths), [])
  {
    InsertAllKeepsLevel([], [], SplitAll(paths));
    SortTreeKeepsLevel(le, InsertAll([], [], SplitAll(paths)), []);
  }

  /** The tree's files are the paths, each as often as it was given; every level is sound and sorted, folders first. */
  lemma TreeHoldsThePaths(le: Collation, paths: seq<string>)
    requires TotalPreorder(le)
    ensures multiset(FilePaths(Build(le, paths))) == multiset(paths)
    ensures LevelOk(Build(le, paths), []) && OrderedTree(le, Build(le, paths))
  {
    BuildIsLevel(le, paths);
    SortTreeOrders(le, InsertAll([], [], SplitAll(paths)));
    FilesArePaths(le, paths);
  }

  lemma JoinedNames(lists: seq<seq<string>>)
    ensures JoinAll([], lists) == Map(Join, lists)
  {
    forall i | 0 <= i < |lists| ensures JoinAll([], lists)[i] == Map(Join, lists)[i] {
      assert [] + lists[i] == lists[i];
    }
  }

  lemma JoinedSplits(paths: seq<string>)
    ensures Map(Join, SplitAll(paths)) == paths
  {
    forall i | 0 <= i < |paths| ensures Map(Join, SplitAll(paths))[i] == paths[i] { JoinSplit(paths[i]); }
  }

  lemma FilesArePaths(le: Collation, paths: seq<string>)
    requires LevelOk(Build(le, paths), [])
    ensures multiset(FilePaths(Build(le, paths))) == multiset(paths)
  {
    var lists := Flatten(Build(le, paths));
    SortTreeKeepsFiles(le, InsertAll([], [], SplitAll(paths)));
    InsertAllAdds([], [], SplitAll(paths));
    FilePathsAreJoined(Build(le, paths), []);
    MappedMultiset(Join, lists, SplitAll(paths));
    JoinedSplits(paths);
    JoinedNames(lists);
  }

  ghost predicate AllNames(lists: seq<seq<string>>) {
    forall k, i | 0 <= k < |lists| && 0 <= i < |lists[k]| :: IsName(lists[k][i])
  }

  lemma {:induction false} FlattenHasNames(nodes: seq<Node>, prefix: seq<string>)
    requires LevelOk(nodes, prefix)
    ensures AllNames(Flatten(nodes))
    decreases nodes
  {
    if nodes != [] {
      if nodes[0].Folder? { FlattenHasNames(nodes[0].children, prefix + [nodes[0].name]); }
      FlattenHasNames(nodes[1..], prefix);
    }
  }

  /** Splitting the tree's paths gives the names on the way to each file. */
  lemma SplitsBack(nodes: seq<Node>)
    requires LevelOk(nodes, [])
    ensures SplitAll(FilePaths(nodes)) == Flatten(nodes)
  {
    var lists := Flatten(nodes);
    FilePathsAreJoined(nodes, []);
    FlattenHasNames(nodes, []);
    forall i | 0 <= i < |lists| ensures SplitAll(FilePaths(nodes))[i] == lists[i] {
      assert [] + lists[i] == lists[i];
      SplitJoin(lists[i]);
    }
  }

  /** Any sound sorted tree is what its own paths build, so no two trees show the same paths in the same order. */
  lemma TreeIsItsPaths(le: Collation, nodes: seq<Node>)
    requires LevelOk(nodes, []) && OrderedTree(le, nodes)
    ensures Build(le, FilePaths(nodes)) == nodes
  {
    SplitsBack(nodes);
    assert [] + nodes == nodes;
    RebuildLevel([], nodes, []);
    SortTreeOfOrdered(le, nodes);
  }
}
