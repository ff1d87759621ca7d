/**
 The explorer tree of a list of file paths, as a value: each path is inserted name
 by name, then every level is sorted, folders first.
 */
module FileTree {
  import opened Paths

  datatype Node =
    | File(name: string, path: string)
    | Folder(name: string, path: string, children: seq<Node>)

  // --- Building ---

  /** The index of the first folder of this name, or the number of nodes. */
  function FindFolder(nodes: seq<Node>, name: string): (i: nat)
    ensures i <= |nodes|
    ensures i < |nodes| ==> nodes[i].Folder? && nodes[i].name == name
    ensures forall k | 0 <= k < i :: !(nodes[k].Folder? && nodes[k].name == name)
  {
    if nodes == [] then 0
    else if nodes[0].Folder? && nodes[0].name == name then 0
    else 1 + FindFolder(nodes[1..], name)
  }

  /** `prefix` are the names of the folders the nodes are in. */
  function Insert(nodes: seq<Node>, prefix: seq<string>, parts: seq<string>): seq<Node>
    requires parts != []
    decreases |parts|
  {
    var name, path := parts[0], Join(prefix + [parts[0]]);
    if |parts| == 1 then nodes + [File(name, path)]
    else
      var i := FindFolder(nodes, name);
      if i < |nodes| then nodes[i := nodes[i].(children := Insert(nodes[i].children, prefix + [name], parts[1..]))]
      else nodes + [Folder(name, path, Insert([], prefix + [name], parts[1..]))]
  }

  ghost predicate NonEmpty(lists: seq<seq<string>>) {
    forall i | 0 <= i < |lists| :: lists[i] != []
  }

  function InsertAll(nodes: seq<Node>, prefix: seq<string>, lists: seq<seq<string>>): seq<Node>
    requires NonEmpty(lists)
    decreases |lists|
  {
    if lists == [] then nodes else InsertAll(Insert(nodes, prefix, lists[0]), prefix, lists[1..])
  }

  function SplitAll(paths: seq<string>): (lists: seq<seq<string>>)
    ensures |lists| == |paths| && forall i | 0 <= i < |paths| :: lists[i] == Split(paths[i])
  {
    if paths == [] then [] else [Split(paths[0])] + SplitAll(paths[1..])
  }

  // --- What building promises ---

  ghost predicate NodeOk(node: Node, prefix: seq<string>) {
    && IsName(node.name) && node.path == Join(prefix + [node.name])
    && (node.Folder? ==> node.children != [] && LevelOk(node.children, prefix + [node.name]))
  }

  ghost predicate OneFolderPerName(nodes: seq<Node>) {
    forall i, j | 0 <= i < j < |nodes| && nodes[i].Folder? && nodes[j].Folder? :: nodes[i].name != nodes[j].name
  }

  /** Every node's path joins the names from the root, no folder is empty, and a level has one folder of a name. */
  ghost predicate LevelOk(nodes: seq<Node>, prefix: seq<string>) {
    OneFolderPerName(nodes) && forall i | 0 <= i < |nodes| :: NodeOk(nodes[i], prefix)
  }

  lemma {:induction false} InsertKeepsLevel(nodes: seq<Node>, prefix: seq<string>, parts: seq<string>)
    requires LevelOk(nodes, prefix) && parts != [] && forall i | 0 <= i < |parts| :: IsName(parts[i])
    ensures LevelOk(Insert(nodes, prefix, parts), prefix) && Insert(nodes, prefix, parts) != []
    decreases |parts|
  {
    if |parts| > 1 {
      var i := FindFolder(nodes, parts[0]);
      if i < |nodes| {
        InsertKeepsLevel(nodes[i].children, prefix + [parts[0]], parts[1..]);
      } else {
        InsertKeepsLevel([], prefix + [parts[0]], parts[1..]);
      }
    }
  }

  lemma {:induction false} InsertAllKeepsLevel(nodes: seq<Node>, prefix: seq<string>, lists: seq<seq<string>>)
    requires LevelOk(nodes, prefix) && NonEmpty(lists)
    requires forall k, i | 0 <= k < |lists| && 0 <= i < |lists[k]| :: IsName(lists[k][i])
    ensures LevelOk(InsertAll(nodes, prefix, lists), prefix)
    decreases |lists|
  {
    if lists != [] {
      InsertKeepsLevel(nodes, prefix, lists[0]);
      InsertAllKeepsLevel(Insert(nodes, prefix, lists[0]), prefix, lists[1..]);
    }
  }

  // --- Flattening: the names from the level down to each file, in order ---

  function FlattenNode(node: Node): (lists: seq<seq<string>>)
    ensures NonEmpty(lists)
    decreases node
  {
    if node.File? then [[node.name]] else Under(node.name, Flatten(node.children))
  }

  function Flatten(nodes: seq<Node>): (lists: seq<seq<string>>)
    ensures NonEmpty(lists)
    decreases nodes
  {
    if nodes == [] then [] else FlattenNode(nodes[0]) + Flatten(nodes[1..])
  }

  function Under(name: string, lists: seq<seq<string>>): (r: seq<seq<string>>)
    ensures |r| == |lists| && forall i | 0 <= i < |lists| :: r[i] == [name] + lists[i]
  {
    seq(|lists|, i requires 0 <= i < |lists| => [name] + lists[i])
  }

  lemma {:induction false} FlattenConcat(a: seq<Node>, b: seq<Node>)
    ensures Flatten(a + b) == Flatten(a) + Flatten(b)
    decreases |a|
  {
    if a == [] {
      assert a + b == b;
    } else {
      FlattenConcat(a[1..], b);
      assert (a + b)[0] == a[0] && (a + b)[1..] == a[1..] + b;
      assert Flatten(a) == FlattenNode(a[0]) + Flatten(a[1..]);
    }
  }

  lemma FlattenOne(node: Node)
    ensures Flatten([node]) == FlattenNode(node)
  {}

  lemma ReplaceOne(nodes: seq<Node>, i: nat, node: Node)
    requires i < |nodes|
    ensures Flatten(nodes[i := node]) == Flatten(nodes[..i]) + FlattenNode(node) + Flatten(nodes[i + 1..])
  {
    var front, back := nodes[..i], nodes[i + 1..];
    FlattenConcat([node], back);
    FlattenOne(node);
    FlattenConcat(front, [node] + back);
    assert nodes[i := node] == front + ([node] + back);
  }

  /** `after` is `before` with `x` put in at `k`. */
  predicate PutIn<T(==)>(before: seq<T>, after: seq<T>, x: T, k: nat) {
    k <= |before| && after == before[..k] + [x] + before[k..]
  }

  lemma PutInAround<T>(front: seq<T>, before: seq<T>, after: seq<T>, back: seq<T>, all: seq<T>, result: seq<T>, x: T, k: nat)
    requires PutIn(before, after, x, k)
    requires all == front + before + back && result == front + after + back
    ensures PutIn(all, result, x, |front| + k)
  {
    assert all[..|front| + k] == front + before[..k];
    assert all[|front| + k..] == before[k..] + back;
  }

  lemma PutInCounts<T>(before: seq<T>, after: seq<T>, x: T, k: nat)
    requires PutIn(before, after, x, k)
    ensures multiset(after) == multiset(before) + multiset{x}
  {
    assert before == before[..k] + before[k..];
  }

  /** Inserting puts in one file, and keeps the others in their order. */
  lemma {:induction false} InsertPutsIn(nodes: seq<Node>, prefix: seq<string>, parts: seq<string>) returns (k: nat)
    requires parts != []
    ensures PutIn(Flatten(nodes), Flatten(Insert(nodes, prefix, parts)), parts, k)
    decreases |parts|, 1
  {
    var name := parts[0];
    var i := FindFolder(nodes, name);
    if |parts| > 1 && i < |nodes| {
      k := InsertPutsInFolder(nodes, prefix, parts, i);
    } else {
      var node := Insert(nodes, prefix, parts)[|nodes|];
      FlattenConcat(nodes, [node]);
      FlattenOne(node);
      k := |Flatten(nodes)|;
      if |parts| > 1 {
        var inside := InsertPutsIn([], prefix + [name], parts[1..]);
        assert Flatten(node.children) == [parts[1..]];
      }
      assert parts == [name] + parts[1..];
      assert |FlattenNode(node)| == 1 && FlattenNode(node)[0] == parts;
    }
  }

  /** What a level flattens to around one of its nodes. */
  lemma AroundNode(nodes: seq<Node>, i: nat, after: Node) returns (front: seq<seq<string>>, back: seq<seq<string>>)
    requires i < |nodes|
    ensures Flatten(nodes) == front + FlattenNode(nodes[i]) + back
    ensures Flatten(nodes[i := after]) == front + FlattenNode(after) + back
  {
    front, back := Flatten(nodes[..i]), Flatten(nodes[i + 1..]);
    ReplaceOne(nodes, i, nodes[i]);
    assert nodes[i := nodes[i]] == nodes;
    ReplaceOne(nodes, i, after);
  }

  lemma InsertedInFolder(nodes: seq<Node>, prefix: seq<string>, parts: seq<string>, i: nat)
    requires |parts| > 1 && i == FindFolder(nodes, parts[0]) && i < |nodes|
    ensures var after := nodes[i].(children := Insert(nodes[i].children, prefix + [parts[0]], parts[1..]));
            Insert(nodes, prefix, parts) == nodes[i := after] && [nodes[i].name] + parts[1..] == parts
  {}

  lemma {:induction false} InsertPutsInFolder(nodes: seq<Node>, prefix: seq<string>, parts: seq<string>, i: nat) returns (k: nat)
    requires |parts| > 1 && i == FindFolder(nodes, parts[0]) && i < |nodes|
    ensures PutIn(Flatten(nodes), Flatten(Insert(nodes, prefix, parts)), parts, k)
    decreases |parts|, 0
  {
    var after := nodes[i].(children := Insert(nodes[i].children, prefix + [parts[0]], parts[1..]));
    k := InsertPutsIn(nodes[i].children, prefix + [parts[0]], parts[1..]);
    InsertedInFolder(nodes, prefix, parts, i);
    var front, back := AroundNode(nodes, i, after);
    PutInAround(front, FlattenNode(nodes[i]), FlattenNode(after), back, Flatten(nodes), Flatten(nodes[i := after]), parts, k);
    k := |front| + k;
  }

  lemma {:induction false} InsertAllAdds(nodes: seq<Node>, prefix: seq<string>, lists: seq<seq<string>>)
    requires NonEmpty(lists)
    ensures multiset(Flatten(InsertAll(nodes, prefix, lists))) == multiset(Flatten(nodes)) + multiset(lists)
    decreases |lists|
  {
    if lists != [] {
      var next := Insert(nodes, prefix, lists[0]);
      var k := InsertPutsIn(nodes, prefix, lists[0]);
      PutInCounts(Flatten(nodes), Flatten(next), lists[0], k);
      InsertAllAdds(next, prefix, lists[1..]);
      assert lists == [lists[0]] + lists[1..];
    }
  }

  // --- Building a tree from what it flattens to gives it back ---

  lemma {:induction false} InsertAllConcat(nodes: seq<Node>, prefix: seq<string>, a: seq<seq<string>>, b: seq<seq<string>>)
    requires NonEmpty(a) && NonEmpty(b)
    ensures InsertAll(nodes, prefix, a + b) == InsertAll(InsertAll(nodes, prefix, a), prefix, b)
    decreases |a|
  {
    if a == [] {
      assert a + b == b;
    } else {
      InsertAllConcat(Insert(nodes, prefix, a[0]), prefix, a[1..], b);
      assert (a + b)[0] == a[0] && (a + b)[1..] == a[1..] + b;
    }
  }

  lemma {:induction false} FindLast(before: seq<Node>, folder: Node)
    requires folder.Folder? && FindFolder(before, folder.name) == |before|
    ensures FindFolder(before + [folder], folder.name) == |before|
  {
    assert forall k | 0 <= k < |before| :: (before + [folder])[k] == before[k];
    assert (before + [folder])[|before|] == folder;
    assert FindFolder(before + [folder], folder.name) <= |before|;
  }

  /** Everything inserted under the last node's name goes into it. */
  lemma {:induction false} InsertAllInLast(before: seq<Node>, folder: Node, prefix: seq<string>, lists: seq<seq<string>>)
    requires folder.Folder? && FindFolder(before, folder.name) == |before| && NonEmpty(lists)
    ensures NonEmpty(Under(folder.name, lists))
    ensures InsertAll(before + [folder], prefix, Under(folder.name, lists))
         == before + [folder.(children := InsertAll(folder.children, prefix + [folder.name], lists))]
    decreases |lists|
  {
    if lists != [] {
      var parts := [folder.name] + lists[0];
      var nodes := before + [folder];
      FindLast(before, folder);
      var next := folder.(children := Insert(folder.children, prefix + [folder.name], lists[0]));
      assert parts[1..] == lists[0];
      assert Insert(nodes, prefix, parts) == before + [next];
      InsertAllInLast(before, next, prefix, lists[1..]);
      assert Under(folder.name, lists)[1..] == Under(folder.name, lists[1..]);
    }
  }

  lemma UnderFirst(name: string, first: seq<string>, rest: seq<seq<string>>)
    ensures Under(name, [first] + rest) == [[name] + first] + Under(name, rest)
  {}

  lemma AllNonEmpty(first: seq<string>, rest: seq<seq<string>>)
    ensures NonEmpty([first] + rest) <==> first != [] && NonEmpty(rest)
  {
    assert ([first] + rest)[0] == first && forall i | 0 <= i < |rest| :: ([first] + rest)[i + 1] == rest[i];
  }

  lemma InsertFirst(nodes: seq<Node>, prefix: seq<string>, first: seq<string>, rest: seq<seq<string>>)
    requires NonEmpty([first] + rest) && first != [] && NonEmpty(rest)
    ensures InsertAll(nodes, prefix, [first] + rest) == InsertAll(Insert(nodes, prefix, first), prefix, rest)
  {
    assert ([first] + rest)[0] == first && ([first] + rest)[1..] == rest;
  }

  /** Inserting what a folder flattens to puts the folder in place, if its children are built from what they flatten to. */
  lemma RebuildFolder(before: seq<Node>, name: string, prefix: seq<string>, first: seq<string>, rest: seq<seq<string>>)
    requires FindFolder(before, name) == |before| && NonEmpty([first] + rest)
    ensures NonEmpty(Under(name, [first] + rest))
    ensures InsertAll(before, prefix, Under(name, [first] + rest))
         == before + [Folder(name, Join(prefix + [name]), InsertAll([], prefix + [name], [first] + rest))]
  {
    AllNonEmpty(first, rest);
    UnderFirst(name, first, rest);
    var folder := Folder(name, Join(prefix + [name]), Insert([], prefix + [name], first));
    assert ([name] + first)[1..] == first;
    assert Insert(before, prefix, [name] + first) == before + [folder];
    InsertAllInLast(before, folder, prefix, rest);
    InsertFirst(before, prefix, [name] + first, Under(name, rest));
    InsertFirst([], prefix + [name], first, rest);
  }

  lemma {:induction false} RebuildNode(before: seq<Node>, node: Node, prefix: seq<string>)
    requires NodeOk(node, prefix) && (node.Folder? ==> FindFolder(before, node.name) == |before|)
    ensures InsertAll(before, prefix, FlattenNode(node)) == before + [node]
    decreases node
  {
    if node.File? {
      assert FlattenNode(node)[1..] == [];
    } else {
      var kids := Flatten(node.children);
      RebuildLevel([], node.children, prefix + [node.name]);
      assert [] + node.children == node.children;
      FlattenIsNotEmpty(node.children, prefix + [node.name]);
      assert kids == [kids[0]] + kids[1..];
      RebuildFolder(before, node.name, prefix, kids[0], kids[1..]);
    }
  }

  lemma {:induction false} FlattenIsNotEmpty(nodes: seq<Node>, prefix: seq<string>)
    requires LevelOk(nodes, prefix) && nodes != []
    ensures Flatten(nodes) != []
    decreases nodes
  {
    if nodes[0].Folder? {
      FlattenIsNotEmpty(nodes[0].children, prefix + [nodes[0].name]);
    }
  }

  lemma {:induction false} RebuildLevel(before: seq<Node>, nodes: seq<Node>, prefix: seq<string>)
    requires LevelOk(before + nodes, prefix)
    ensures InsertAll(before, prefix, Flatten(nodes)) == before + nodes
    decreases nodes
  {
    if nodes == [] {
      assert before + nodes == before;
    } else {
      assert (before + nodes)[|before|] == nodes[0];
      assert forall i | 0 <= i < |before| :: (before + nodes)[i] == before[i];
      RebuildNode(before, nodes[0], prefix);
      assert before + nodes == before + [nodes[0]] + nodes[1..];
      RebuildLevel(before + [nodes[0]], nodes[1..], prefix);
      InsertAllConcat(before, prefix, FlattenNode(nodes[0]), Flatten(nodes[1..]));
    }
  }
}
