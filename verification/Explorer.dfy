/**
 The explorer tree as the program builds it: nodes pushed into the arrays of a tree
 under construction, which are then sorted in place. The arrays are numbered, and a
 folder's entry holds the number of its children's array.
 */
module Explorer {
  import opened Paths
  import opened FileTree
  import opened FileOrder

  datatype Entry =
    | FileEntry(name: string, path: string)
    | FolderEntry(name: string, path: string, level: nat)

  type Levels = seq<seq<Entry>>

  /** A folder's children come after the array it is in. */
  ghost predicate Linked(count: nat, level: nat, entries: seq<Entry>) {
    forall i | 0 <= i < |entries| && entries[i].FolderEntry? :: level < entries[i].level < count
  }

  ghost predicate AllLinked(levels: Levels) {
    forall l | 0 <= l < |levels| :: Linked(|levels|, l, levels[l])
  }

  ghost function NodeOf(levels: Levels, level: nat, entry: Entry): (r: Node)
    requires AllLinked(levels) && (entry.FolderEntry? ==> level < entry.level < |levels|)
    ensures r.name == entry.name && r.path == entry.path && r.Folder? == entry.FolderEntry?
    decreases |levels| - level, 0
  {
    match entry
    case FileEntry(name, path) => File(name, path)
    case FolderEntry(name, path, children) => Folder(name, path, Unfold(levels, children))
  }

  ghost function UnfoldEntries(levels: Levels, level: nat, entries: seq<Entry>): (r: seq<Node>)
    requires AllLinked(levels) && Linked(|levels|, level, entries)
    ensures |r| == |entries| && forall i | 0 <= i < |entries| :: r[i] == NodeOf(levels, level, entries[i])
    decreases |levels| - level, 1, |entries|
  {
    if entries == [] then [] else [NodeOf(levels, level, entries[0])] + UnfoldEntries(levels, level, entries[1..])
  }

  /** The tree the arrays stand for. */
  ghost function Unfold(levels: Levels, level: nat): seq<Node>
    requires AllLinked(levels) && level < |levels|
    decreases |levels| - level, 2
  {
    UnfoldEntries(levels, level, levels[level])
  }

  // --- The names on the way to an array, which tell arrays of different folders apart ---

  type Labels = seq<seq<string>>

  ghost predicate OneEntryPerFolder(entries: seq<Entry>) {
    forall i, j | 0 <= i < j < |entries| && entries[i].FolderEntry? && entries[j].FolderEntry? :: entries[i].name != entries[j].name
  }

  ghost predicate LabelledLevel(labels: Labels, level: nat, entries: seq<Entry>)
    requires level < |labels|
  {
    && Linked(|labels|, level, entries)
    && (forall i | 0 <= i < |entries| && entries[i].FolderEntry? :: labels[entries[i].level] == labels[level] + [entries[i].name])
    && OneEntryPerFolder(entries)
  }

  ghost predicate Labelled(levels: Levels, labels: Labels) {
    |labels| == |levels| && forall l | 0 <= l < |levels| :: LabelledLevel(labels, l, levels[l])
  }

  /** Only arrays under the folder differ. */
  ghost predicate ChangedUnder(before: Levels, after: Levels, labels: Labels, folder: seq<string>) {
    && |before| <= |after| && |before| <= |labels|
    && forall l | 0 <= l < |before| && !(folder <= labels[l]) :: after[l] == before[l]
  }

  ghost predicate Apart(a: seq<string>, b: seq<string>) {
    !(a <= b) && !(b <= a)
  }

  /** A level neither above nor below the folder keeps its tree. */
  lemma {:induction false} UnfoldIsKept(before: Levels, after: Levels, labels: Labels, folder: seq<string>, level: nat)
    requires Labelled(before, labels) && AllLinked(before) && AllLinked(after) && ChangedUnder(before, after, labels, folder)
    requires level < |before| && Apart(folder, labels[level])
    ensures Unfold(after, level) == Unfold(before, level)
    decreases |before| - level
  {
    var entries := before[level];
    assert LabelledLevel(labels, level, entries);
    forall i | 0 <= i < |entries| ensures NodeOf(after, level, entries[i]) == NodeOf(before, level, entries[i]) {
      if entries[i].FolderEntry? {
        UnfoldIsKept(before, after, labels, folder, entries[i].level);
      }
    }
    assert Unfold(after, level) == Unfold(before, level);
  }

  lemma SiblingIsKept(before: Levels, after: Levels, labels: Labels, level: nat, name: string, entry: Entry)
    requires Labelled(before, labels) && AllLinked(before) && AllLinked(after) && level < |before|
    requires ChangedUnder(before, after, labels, labels[level] + [name])
    requires entry in before[level] && (entry.FolderEntry? ==> entry.name != name)
    ensures entry.FolderEntry? ==> level < entry.level < |before|
    ensures NodeOf(after, level, entry) == NodeOf(before, level, entry)
  {
    assert LabelledLevel(labels, level, before[level]);
    if entry.FolderEntry? {
      var mine, other := labels[entry.level], labels[level] + [name];
      assert mine == labels[level] + [entry.name];
      assert mine[|labels[level]|] != other[|labels[level]|];
      UnfoldIsKept(before, after, labels, other, entry.level);
    }
  }

  /** A change under one folder of a level changes that folder's node and no other. */
  lemma UnfoldAfterChild(before: Levels, after: Levels, labels: Labels, level: nat, i: nat)
    requires Labelled(before, labels) && AllLinked(before) && AllLinked(after) && level < |before|
    requires i < |before[level]| && before[level][i].FolderEntry?
    requires ChangedUnder(before, after, labels, labels[level] + [before[level][i].name])
    ensures level < before[level][i].level < |before| && after[level] == before[level]
    ensures Unfold(after, level)
         == Unfold(before, level)[i := Unfold(before, level)[i].(children := Unfold(after, before[level][i].level))]
  {
    var entries := before[level];
    assert LabelledLevel(labels, level, entries);
    assert !(labels[level] + [entries[i].name] <= labels[level]);
    forall j | 0 <= j < |entries| && j != i ensures NodeOf(after, level, entries[j]) == NodeOf(before, level, entries[j]) {
      assert entries[j].FolderEntry? ==> entries[j].name != entries[i].name;
      SiblingIsKept(before, after, labels, level, entries[i].name, entries[j]);
    }
  }

  // --- Inserting a path ---

  function FindEntry(entries: seq<Entry>, name: string): (i: nat)
    ensures i <= |entries|
    ensures i < |entries| ==> entries[i].FolderEntry? && entries[i].name == name
    ensures forall k | 0 <= k < i :: !(entries[k].FolderEntry? && entries[k].name == name)
  {
    if entries == [] then 0
    else if entries[0].FolderEntry? && entries[0].name == name then 0
    else 1 + FindEntry(entries[1..], name)
  }

  /** The array of the folder `name` of a level, pushed if there is none yet. */
  function Entered(levels: Levels, level: nat, prefix: seq<string>, name: string): (r: (Levels, nat))
    requires level < |levels|
    ensures AllLinked(levels) ==> AllLinked(r.0) && r.1 < |r.0|
  {
    var i := FindEntry(levels[level], name);
    if i < |levels[level]| then
      assert AllLinked(levels) ==> Linked(|levels|, level, levels[level]);
      (levels, levels[level][i].level)
    else
      var after := levels[level := levels[level] + [FolderEntry(name, Join(prefix + [name]), |levels|)]] + [[]];
      assert AllLinked(levels) ==> forall l | 0 <= l < |levels| :: Linked(|levels|, l, levels[l]);
      (after, |levels|)
  }

  /** The arrays once the names of a path are followed, pushing what is missing. */
  ghost function Placed(levels: Levels, level: nat, prefix: seq<string>, parts: seq<string>): Levels
    requires AllLinked(levels) && level < |levels| && parts != []
    decreases |parts|
  {
    if |parts| == 1 then levels[level := levels[level] + [FileEntry(parts[0], Join(prefix + [parts[0]]))]]
    else
      var (entered, child) := Entered(levels, level, prefix, parts[0]);
      Placed(entered, child, prefix + [parts[0]], parts[1..])
  }

  ghost predicate NamesInserted(levels: Levels, labels: Labels, level: nat, parts: seq<string>, after: Levels, more: Labels)
    requires Labelled(levels, labels) && level < |levels| && parts != []
  {
    && Labelled(after, more) && AllLinked(after) && AllLinked(levels) && labels <= more && |levels| <= |after|
    && ChangedUnder(levels, after, labels, labels[level])
    && Unfold(after, level) == Insert(Unfold(levels, level), labels[level], parts)
  }

  /** A tree is made of the arrays from its own on. */
  lemma {:induction false} UnfoldReadsOnlyLater(before: Levels, after: Levels, from: nat, level: nat)
    requires AllLinked(before) && AllLinked(after) && |before| <= |after| && from <= level < |before|
    requires forall l | from <= l < |before| :: after[l] == before[l]
    ensures Unfold(after, level) == Unfold(before, level)
    decreases |before| - level
  {
    var entries := before[level];
    assert Linked(|before|, level, entries);
    forall i | 0 <= i < |entries| ensures NodeOf(after, level, entries[i]) == NodeOf(before, level, entries[i]) {
      if entries[i].FolderEntry? {
        UnfoldReadsOnlyLater(before, after, from, entries[i].level);
      }
    }
    assert Unfold(after, level) == Unfold(before, level);
  }

  /** Pushing an entry adds its node at the end of the level. */
  lemma UnfoldAfterPush(before: Levels, after: Levels, level: nat, entry: Entry)
    requires AllLinked(before) && AllLinked(after) && |before| <= |after| && level < |before|
    requires after[level] == before[level] + [entry] && forall l | level < l < |before| :: after[l] == before[l]
    ensures entry.FolderEntry? ==> level < entry.level < |after|
    ensures Unfold(after, level) == Unfold(before, level) + [NodeOf(after, level, entry)]
  {
    var entries := before[level];
    assert Linked(|before|, level, entries);
    assert Linked(|after|, level, after[level]);
    assert after[level][|entries|] == entry;
    forall i | 0 <= i < |entries| ensures NodeOf(after, level, entries[i]) == NodeOf(before, level, entries[i]) {
      if entries[i].FolderEntry? {
        UnfoldReadsOnlyLater(before, after, level + 1, entries[i].level);
      }
    }
    forall i | 0 <= i < |entries| ensures after[level][i] == entries[i] {}
  }

  lemma PushedFile(levels: Levels, labels: Labels, level: nat, name: string)
    requires Labelled(levels, labels) && level < |levels|
    ensures var file := FileEntry(name, Join(labels[level] + [name]));
            NamesInserted(levels, labels, level, [name], levels[level := levels[level] + [file]], labels)
  {
    var file := FileEntry(name, Join(labels[level] + [name]));
    var after := levels[level := levels[level] + [file]];
    forall l | 0 <= l < |after| ensures LabelledLevel(labels, l, after[l]) {
      assert LabelledLevel(labels, l, levels[l]);
    }
    UnfoldAfterPush(levels, after, level, file);
  }

  /** What pushing a folder, if there is none of the name, leaves to do. */
  lemma PushedFolder(levels: Levels, labels: Labels, level: nat, name: string)
    requires Labelled(levels, labels) && level < |levels| && FindEntry(levels[level], name) == |levels[level]|
    ensures var (after, child) := Entered(levels, level, labels[level], name);
            var more := labels + [labels[level] + [name]];
            && Labelled(after, more) && AllLinked(after) && AllLinked(levels) && child == |levels|
            && ChangedUnder(levels, after, labels, labels[level])
            && Unfold(after, child) == []
            && Unfold(after, level) == Unfold(levels, level) + [Folder(name, Join(labels[level] + [name]), [])]
  {
    var folder := FolderEntry(name, Join(labels[level] + [name]), |levels|);
    var (after, child) := Entered(levels, level, labels[level], name);
    var more := labels + [labels[level] + [name]];
    forall l | 0 <= l < |after| ensures LabelledLevel(more, l, after[l]) {
      if l < |levels| { assert LabelledLevel(labels, l, levels[l]); }
    }
    UnfoldAfterPush(levels, after, level, folder);
  }

  lemma {:induction false} PlacedInFound(levels: Levels, labels: Labels, level: nat, parts: seq<string>) returns (more: Labels)
    requires Labelled(levels, labels) && AllLinked(levels) && level < |levels| && |parts| > 1
    requires FindEntry(levels[level], parts[0]) < |levels[level]|
    ensures NamesInserted(levels, labels, level, parts, Placed(levels, level, labels[level], parts), more)
    decreases |parts|, 0
  {
    var i := FindEntry(levels[level], parts[0]);
    assert LabelledLevel(labels, level, levels[level]);
    var after := Placed(levels, level, labels[level], parts);
    more := InsertedInPlace(levels, labels, levels[level][i].level, parts[1..]);
    UnfoldAfterChild(levels, after, labels, level, i);
  }

  lemma {:induction false} PlacedInPushed(levels: Levels, labels: Labels, level: nat, parts: seq<string>) returns (more: Labels)
    requires Labelled(levels, labels) && AllLinked(levels) && level < |levels| && |parts| > 1
    requires FindEntry(levels[level], parts[0]) == |levels[level]|
    ensures NamesInserted(levels, labels, level, parts, Placed(levels, level, labels[level], parts), more)
    decreases |parts|, 0
  {
    PushedFolder(levels, labels, level, parts[0]);
    var (pushed, child) := Entered(levels, level, labels[level], parts[0]);
    var pushedLabels := labels + [labels[level] + [parts[0]]];
    var after := Placed(levels, level, labels[level], parts);
    more := InsertedInPlace(pushed, pushedLabels, child, parts[1..]);
    UnfoldAfterChild(pushed, after, pushedLabels, level, |levels[level]|);
  }

  /** Following the arrays inserts the path into the tree they stand for. */
  lemma {:induction false} InsertedInPlace(levels: Levels, labels: Labels, level: nat, parts: seq<string>) returns (more: Labels)
    requires Labelled(levels, labels) && AllLinked(levels) && level < |levels| && parts != []
    ensures NamesInserted(levels, labels, level, parts, Placed(levels, level, labels[level], parts), more)
    decreases |parts|, 1
  {
    if |parts| == 1 {
      PushedFile(levels, labels, level, parts[0]);
      assert parts == [parts[0]];
      more := labels;
    } else if FindEntry(levels[level], parts[0]) < |levels[level]| {
      more := PlacedInFound(levels, labels, level, parts);
    } else {
      more := PlacedInPushed(levels, labels, level, parts);
    }
  }

  // --- Sorting ---

  /** An entry as far as comparing looks at it. */
  function Key(entry: Entry): Node {
    if entry.FileEntry? then File(entry.name, entry.path) else Folder(entry.name, entry.path, [])
  }

  function PlaceEntry(le: Collation, entry: Entry, sorted: seq<Entry>): seq<Entry> {
    if sorted == [] then [entry]
    else if Before(le, Key(entry), Key(sorted[0])) then [entry] + sorted
    else [sorted[0]] + PlaceEntry(le, entry, sorted[1..])
  }

  function SortEntries(le: Collation, entries: seq<Entry>): seq<Entry> {
    if entries == [] then [] else PlaceEntry(le, entries[0], SortEntries(le, entries[1..]))
  }

  lemma {:induction false} UnfoldPlaced(le: Collation, levels: Levels, level: nat, entry: Entry, sorted: seq<Entry>)
    requires AllLinked(levels) && Linked(|levels|, level, [entry]) && Linked(|levels|, level, sorted)
    ensures Linked(|levels|, level, PlaceEntry(le, entry, sorted)) && [entry][0] == entry
    ensures UnfoldEntries(levels, level, PlaceEntry(le, entry, sorted))
         == Place(le, NodeOf(levels, level, entry), UnfoldEntries(levels, level, sorted))
  {
    if sorted != [] && !Before(le, Key(entry), Key(sorted[0])) {
      UnfoldPlaced(le, levels, level, entry, sorted[1..]);
      assert Linked(|levels|, level, [sorted[0]] + PlaceEntry(le, entry, sorted[1..]));
    }
  }

  lemma {:induction false} UnfoldSorted(le: Collation, levels: Levels, level: nat, entries: seq<Entry>)
    requires AllLinked(levels) && Linked(|levels|, level, entries)
    ensures Linked(|levels|, level, SortEntries(le, entries))
    ensures UnfoldEntries(levels, level, SortEntries(le, entries)) == Sort(le, UnfoldEntries(levels, level, entries))
  {
    if entries != [] {
      UnfoldSorted(le, levels, level, entries[1..]);
      UnfoldPlaced(le, levels, level, entries[0], SortEntries(le, entries[1..]));
    }
  }

  lemma {:induction false} PlaceEntryKeeps(le: Collation, entry: Entry, sorted: seq<Entry>)
    ensures forall x | x in PlaceEntry(le, entry, sorted) :: x == entry || x in sorted
  {
    if sorted != [] && !Before(le, Key(entry), Key(sorted[0])) {
      PlaceEntryKeeps(le, entry, sorted[1..]);
    }
  }

  lemma {:induction false} SortEntriesKeeps(le: Collation, entries: seq<Entry>)
    ensures forall x | x in SortEntries(le, entries) :: x in entries
  {
    if entries != [] {
      SortEntriesKeeps(le, entries[1..]);
      PlaceEntryKeeps(le, entries[0], SortEntries(le, entries[1..]));
    }
  }

  lemma SortedIsDistinct(le: Collation, levels: Levels, level: nat, entries: seq<Entry>)
    requires AllLinked(levels) && Linked(|levels|, level, entries) && OneEntryPerFolder(entries)
    ensures OneEntryPerFolder(SortEntries(le, entries))
  {
    UnfoldSorted(le, levels, level, entries);
    SortKeepsDistinct(le, UnfoldEntries(levels, level, entries));
  }

  lemma SortedIsLabelled(le: Collation, levels: Levels, labels: Labels, level: nat)
    requires Labelled(levels, labels) && AllLinked(levels) && level < |levels|
    ensures LabelledLevel(labels, level, SortEntries(le, levels[level]))
  {
    assert LabelledLevel(labels, level, levels[level]);
    var sorted := SortEntries(le, levels[level]);
    SortEntriesKeeps(le, levels[level]);
    SortedIsDistinct(le, levels, level, levels[level]);
    forall i | 0 <= i < |sorted| && sorted[i].FolderEntry?
      ensures level < sorted[i].level < |labels| && labels[sorted[i].level] == labels[level] + [sorted[i].name]
    {
      assert sorted[i] in levels[level];
    }
  }

  lemma LevelSortedIsLabelled(le: Collation, levels: Levels, labels: Labels, level: nat)
    requires Labelled(levels, labels) && AllLinked(levels) && level < |levels|
    ensures var after := levels[level := SortEntries(le, levels[level])]; Labelled(after, labels) && AllLinked(after)
  {
    var after := levels[level := SortEntries(le, levels[level])];
    SortedIsLabelled(le, levels, labels, level);
    forall l | 0 <= l < |after| ensures LabelledLevel(labels, l, after[l]) {
      assert LabelledLevel(labels, l, levels[l]);
    }
  }

  /** The first `done` entries of a level have their children sorted; the others are as before. */
  ghost predicate ChildrenSorted(le: Collation, before: Levels, now: Levels, labels: Labels, level: nat, done: nat) {
    && Labelled(before, labels) && AllLinked(before) && Labelled(now, labels) && AllLinked(now)
    && level < |before| && done <= |before[level]| && now[level] == before[level]
    && ChangedUnder(before, now, labels, labels[level])
    && forall i | 0 <= i < |before[level]| ::
         Unfold(now, level)[i] == if i < done then SortNode(le, Unfold(before, level)[i]) else Unfold(before, level)[i]
  }

  /** Sorting from one array on changes what is under it into its sorted tree, and nothing else. */
  ghost predicate SortedUnder(le: Collation, before: Levels, after: Levels, labels: Labels, level: nat) {
    && Labelled(before, labels) && AllLinked(before) && Labelled(after, labels) && AllLinked(after) && level < |before|
    && ChangedUnder(before, after, labels, labels[level])
    && Unfold(after, level) == SortTree(le, Unfold(before, level))
  }

  lemma ChildIsSorted(le: Collation, before: Levels, now: Levels, after: Levels, labels: Labels, level: nat, done: nat)
    requires ChildrenSorted(le, before, now, labels, level, done) && done < |now[level]| && now[level][done].FolderEntry?
    requires SortedUnder(le, now, after, labels, now[level][done].level)
    ensures ChildrenSorted(le, before, after, labels, level, done + 1)
  {
    assert LabelledLevel(labels, level, now[level]);
    UnfoldAfterChild(now, after, labels, level, done);
  }

  lemma LevelIsSorted(le: Collation, before: Levels, now: Levels, labels: Labels, level: nat)
    requires level < |before| && ChildrenSorted(le, before, now, labels, level, |before[level]|)
    ensures SortedUnder(le, before, now[level := SortEntries(le, now[level])], labels, level)
  {
    var sorted := SortEntries(le, now[level]);
    var after := now[level := sorted];
    LevelSortedIsLabelled(le, now, labels, level);
    UnfoldSorted(le, now, level, now[level]);
    assert UnfoldEntries(after, level, sorted) == UnfoldEntries(now, level, sorted) by {
      forall i | 0 <= i < |sorted| ensures NodeOf(after, level, sorted[i]) == NodeOf(now, level, sorted[i]) {
        if sorted[i].FolderEntry? {
          UnfoldReadsOnlyLater(now, after, level + 1, sorted[i].level);
        }
      }
    }
    assert Unfold(now, level) == SortChildren(le, Unfold(before, level));
  }

  // --- The builder ---

  ghost predicate Rooted(levels: Levels, labels: Labels) {
    Labelled(levels, labels) && AllLinked(levels) && labels != [] && labels[0] == []
  }

  class Builder {
    var levels: Levels
    ghost var labels: Labels

    constructor ()
      ensures Rooted(levels, labels) && Unfold(levels, 0) == []
    {
      levels, labels := [[]], [[]];
    }

    /** Follows the names from the root, pushing the folders that are missing and then the file. */
    method InsertPath(parts: seq<string>)
      requires Rooted(levels, labels) && parts != []
      modifies this
      ensures Rooted(levels, labels)
      ensures Unfold(levels, 0) == Insert(old(Unfold(levels, 0)), [], parts)
    {
      var level := 0;
      ghost var placed := Placed(levels, 0, [], parts);
      for index := 0 to |parts|
        invariant index < |parts| ==> AllLinked(levels) && 0 <= level < |levels|
        invariant index < |parts| ==> Placed(levels, level, parts[..index], parts[index..]) == placed
        invariant index == |parts| ==> levels == placed
        invariant labels == old(labels)
      {
        var name, nodePath := parts[index], Join(parts[..index + 1]);
        assert parts[..index + 1] == parts[..index] + [name] && parts[index..][1..] == parts[index + 1..];
        if index == |parts| - 1 {
          levels := levels[level := levels[level] + [FileEntry(name, nodePath)]];
        } else {
          var i := FindEntry(levels[level], name);
          ghost var entered := Entered(levels, level, parts[..index], name);
          if i == |levels[level]| {
            var child := |levels|;
            levels := levels[level := levels[level] + [FolderEntry(name, nodePath, child)]] + [[]];
            level := child;
          } else {
            level := levels[level][i].level;
          }
          assert entered == (levels, level);
        }
      }
      labels := InsertedInPlace(old(levels), labels, 0, parts);
    }

    /** The levels below first, then this one. */
    method SortLevel(le: Collation, level: nat)
      requires Labelled(levels, labels) && AllLinked(levels) && level < |levels|
      modifies this`levels
      ensures SortedUnder(le, old(levels), levels, labels, level)
      decreases |levels| - level
    {
      ghost var before := levels;
      var entries := levels[level];
      for i := 0 to |entries|
        invariant ChildrenSorted(le, before, levels, labels, level, i)
      {
        if entries[i].FolderEntry? {
          ghost var now := levels;
          assert LabelledLevel(labels, level, entries);
          SortLevel(le, entries[i].level);
          ChildIsSorted(le, before, now, levels, labels, level, i);
        }
      }
      LevelIsSorted(le, before, levels, labels, level);
      levels := levels[level := SortEntries(le, levels[level])];
    }

    /** The arrays then stand for the tree of the paths. */
    method Build(le: Collation, paths: seq<string>)
      requires Rooted(levels, labels) && Unfold(levels, 0) == []
      modifies this
      ensures Rooted(levels, labels)
      ensures Unfold(levels, 0) == FileOrder.Build(le, paths)
    {
      for n := 0 to |paths|
        invariant Rooted(levels, labels)
        invariant InsertAll(Unfold(levels, 0), [], SplitAll(paths[n..])) == InsertAll([], [], SplitAll(paths))
      {
        InsertPath(Split(paths[n]));
      }
      SortLevel(le, 0);
    }
  }
}
