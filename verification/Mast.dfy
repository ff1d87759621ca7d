/**
 MAST forests as the read-only analysis sees them: nodes in a finite map, and
 the list of nodes that are procedure roots. Digests are opaque identifiers,
 and nothing here rules out cycles, within a forest or across forests.
 */
module Mast {
  import opened Wrappers

  type Digest = nat

  type NodeId = nat

  datatype Node =
    | Block(digest: Digest)
    | Join(digest: Digest, first: NodeId, second: NodeId)
    | Split(digest: Digest, onTrue: NodeId, onFalse: NodeId)
    | Loop(digest: Digest, body: NodeId)
    | Call(digest: Digest, callee: NodeId, isSyscall: bool)
    | Dyn(digest: Digest)
    | External(digest: Digest)
  {
    /** The nodes of the same forest this one refers to. */
    function Children(): seq<NodeId> {
      match this
      case Join(_, first, second) => [first, second]
      case Split(_, onTrue, onFalse) => [onTrue, onFalse]
      case Loop(_, body) => [body]
      case Call(_, callee, _) => [callee]
      case _ => []
    }
  }

  datatype Forest = Forest(nodes: map<NodeId, Node>, roots: seq<NodeId>) {
    /** Every reference stays inside the forest, as for a deserialized one. */
    ghost predicate Valid() {
      && (forall i | 0 <= i < |roots| :: roots[i] in nodes)
      && (forall id | id in nodes :: forall c | c in nodes[id].Children() :: c in nodes)
    }

    /** The first procedure root with this digest. */
    function FindProcedureRoot(digest: Digest): (r: Option<NodeId>)
      requires Valid()
      ensures r.Some? ==> r.value in nodes && nodes[r.value].digest == digest
    {
      FindAmong(roots, digest)
    }

    function FindAmong(candidates: seq<NodeId>, digest: Digest): (r: Option<NodeId>)
      requires forall i | 0 <= i < |candidates| :: candidates[i] in nodes
      ensures r.Some? ==> r.value in nodes && nodes[r.value].digest == digest
    {
      if candidates == [] then None
      else if nodes[candidates[0]].digest == digest then Some(candidates[0])
      else FindAmong(candidates[1..], digest)
    }

    /** The `i`th root is the first with this digest. */
    ghost predicate FirstRoot(digest: Digest, i: nat)
      requires Valid()
    {
      i < |roots| && nodes[roots[i]].digest == digest && forall j | 0 <= j < i :: nodes[roots[j]].digest != digest
    }

    ghost predicate Lacks(digest: Digest)
      requires Valid()
    {
      forall i | 0 <= i < |roots| :: nodes[roots[i]].digest != digest
    }

    /** The body of `digest` here: its first root, unless that is a reference itself. */
    ghost predicate Holds(digest: Digest, id: NodeId)
      requires Valid()
    {
      id in nodes && !nodes[id].External? && exists i: nat :: FirstRoot(digest, i) && roots[i] == id
    }
  }

  lemma {:induction false} FoundAmongIsFirst(forest: Forest, candidates: seq<NodeId>, digest: Digest, i: nat)
    requires forest.Valid() && (forall k | 0 <= k < |candidates| :: candidates[k] in forest.nodes)
    requires i < |candidates| && forest.nodes[candidates[i]].digest == digest
    requires forall j | 0 <= j < i :: forest.nodes[candidates[j]].digest != digest
    ensures forest.FindAmong(candidates, digest) == Some(candidates[i])
  {
    if i > 0 {
      FoundAmongIsFirst(forest, candidates[1..], digest, i - 1);
    }
  }

  lemma {:induction false} FoundAmong(forest: Forest, candidates: seq<NodeId>, digest: Digest) returns (i: nat)
    requires forest.Valid() && forall k | 0 <= k < |candidates| :: candidates[k] in forest.nodes
    requires forest.FindAmong(candidates, digest).Some?
    ensures i < |candidates| && forest.nodes[candidates[i]].digest == digest
    ensures forall j | 0 <= j < i :: forest.nodes[candidates[j]].digest != digest
  {
    if forest.nodes[candidates[0]].digest == digest {
      i := 0;
    } else {
      i := FoundAmong(forest, candidates[1..], digest);
      i := i + 1;
    }
  }

  /** A forest finds its first root with the digest, and finds one whenever it has one. */
  lemma FoundExactly(forest: Forest, digest: Digest, id: NodeId)
    requires forest.Valid()
    ensures forest.FindProcedureRoot(digest) == Some(id) <==>
            exists i: nat :: forest.FirstRoot(digest, i) && forest.roots[i] == id
  {
    if forest.FindProcedureRoot(digest) == Some(id) {
      var i := FoundAmong(forest, forest.roots, digest);
      FoundAmongIsFirst(forest, forest.roots, digest, i);
      assert forest.FirstRoot(digest, i);
    } else {
      forall i: nat | forest.FirstRoot(digest, i) ensures forest.roots[i] != id { FoundAmongIsFirst(forest, forest.roots, digest, i); }
    }
  }
}
