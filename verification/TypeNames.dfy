/**
 When names alone keep a printed type's meaning: when none is captured, as when
 they are distinct, but also when equal names are never inside one another.
 */
module TypeNames {
  import opened Wrappers
  import opened TypeWriting
  import opened TypeReading
  import opened TypeMeaning

  lemma {:induction false} EveryBackWeakens(
      defs: Definitions, nest: Nest, t: Type, good: (Nest, RecId) -> bool, better: (Nest, RecId) -> bool)
    requires Closed(defs, t) && EveryBack(defs, nest, t, good) && forall n, id :: good(n, id) ==> better(n, id)
    ensures EveryBack(defs, nest, t, better)
    decreases defs.Keys - Elements(Entered(nest)), t
  {
    if t.Plain? || t.id !in Entered(nest) {
      var inner := if Head(defs, t).Aggregate() then Enter(nest, t) else nest;
      if t.Rec? { assert t.id in defs.Keys - Elements(Entered(nest)) && t.id !in defs.Keys - Elements(Entered(inner)); }
      var layer := Head(defs, t);
      PartsAreSmaller(layer);
      PartsAreClosed(defs, layer);
      forall c | c in Parts(layer) ensures EveryBack(defs, inner, c, better) {
        EveryBackWeakens(defs, inner, c, good, better);
      }
    }
  }

  /**
   When no name is captured, so that each back reference finds its own
   definition, the meaning is kept.
   */
  lemma PrintingKeepsMeaning(defs: Definitions, t: Type, tree: Tree)
    requires Closed(defs, t) && Write(defs, [], t) == Ok(tree) && EveryBack(defs, [], t, FindsOwn(defs))
    ensures ReadsAs(defs, Top, tree, t)
  {
    EveryBackWeakens(defs, [], t, FindsOwn(defs), FindsAlike(defs));
    MeaningExactly(defs, t, tree);
  }

  ghost function DefinedNames(defs: Definitions): set<Option<string>> {
    (set id | id in defs && defs[id].Struct? :: defs[id].structName) +
    (set id | id in defs && defs[id].Enum? :: Some(defs[id].enumName))
  }

  /** Structs or enums whose names differ; two structs without one do not. */
  ghost predicate NamesDiffer(a: Layer<Type>, b: Layer<Type>) {
    match (a, b)
    case (Struct(n, _, _, _), Struct(m, _, _, _)) => n != m
    case (Enum(n, _, _, _, _, _), Enum(m, _, _, _, _, _)) => n != m
    case (Struct(n, _, _, _), Enum(m, _, _, _, _, _)) => n != Some(m)
    case (Enum(n, _, _, _, _, _), Struct(m, _, _, _)) => Some(n) != m
    case _ => false
  }

  /**
   The names tell the recursive types apart: from one another, and from the
   aggregates written in place, which print the same way.
   */
  ghost predicate Distinct(defs: Definitions) {
    && DefinitionsOk(defs, DefinedNames(defs))
    && forall a, b | a in defs && b in defs && a != b :: NamesDiffer(defs[a], defs[b])
  }

  ghost predicate NestDistinct(defs: Definitions, nest: Nest)
    requires NestOk(defs, nest)
  {
    forall i | 0 <= i < |nest| && nest[i].Plain? :: nest[i].layer.Aggregate() && nest[i].layer.Name() !in DefinedNames(defs)
  }

  lemma {:induction false} InnermostIsOwn(defs: Definitions, nest: Nest, id: RecId)
    requires Distinct(defs) && NestOk(defs, nest) && NestDistinct(defs, nest) && id in Entered(nest)
    ensures id in defs && Found(defs, nest, id) == Some(Rec(id))
  {
    var last := nest[|nest| - 1];
    EnteredIsFound(defs, nest, id);
    if last != Rec(id) {
      assert last.Rec? ==> NamesDiffer(defs[last.id], defs[id]);
      assert Head(defs, last).Name() != defs[id].Name();
      InnermostIsOwn(defs, nest[..|nest| - 1], id);
    }
  }

  lemma {:induction false} DistinctLayer(defs: Definitions, nest: Nest, layer: Layer<Type>)
    requires Distinct(defs) && NestOk(defs, nest) && NestDistinct(defs, nest)
    requires ClosedLayer(defs, layer) && LayerOk(defs.Keys, DefinedNames(defs), layer)
    requires WriteLayer(defs, Entered(nest), layer).Ok?
    ensures EveryBackIn(defs, nest, layer, FindsOwn(defs))
    decreases defs.Keys - Elements(Entered(nest)), layer, 0
  {
    var out := WriteLayer(defs, Entered(nest), layer).value;
    WrittenCorresponds(defs, Entered(nest), layer, {});
    PartsCorrespond(layer, out, Written(defs, Entered(nest), {}));
    PartsAreOk(defs.Keys, DefinedNames(defs), layer);
    PartsAreSmaller(layer);
    forall c | c in Parts(layer) ensures Closed(defs, c) && EveryBack(defs, nest, c, FindsOwn(defs)) {
      var i :| 0 <= i < |Parts(layer)| && Parts(layer)[i] == c;
      assert Written(defs, Entered(nest), {})(Parts(layer)[i], Parts(out)[i]);
      DistinctNamesFindTheirOwn(defs, nest, c);
    }
  }

  /** Names that are distinct capture nothing. */
  lemma {:induction false} DistinctNamesFindTheirOwn(defs: Definitions, nest: Nest, t: Type)
    requires Distinct(defs) && NestOk(defs, nest) && NestDistinct(defs, nest)
    requires Closed(defs, t) && TypeOk(defs.Keys, DefinedNames(defs), t) && Write(defs, Entered(nest), t).Ok?
    ensures EveryBack(defs, nest, t, FindsOwn(defs))
    decreases defs.Keys - Elements(Entered(nest)), t, 1
  {
    if t.Rec? && t.id in Entered(nest) {
      InnermostIsOwn(defs, nest, t.id);
    } else {
      var inner := if Head(defs, t).Aggregate() then Enter(nest, t) else nest;
      if t.Rec? { assert t.id in defs.Keys - Elements(Entered(nest)) && t.id !in defs.Keys - Elements(Entered(inner)); }
      DistinctLayer(defs, inner, Head(defs, t));
    }
  }

  lemma DistinctNamesKeepMeaning(defs: Definitions, t: Type, tree: Tree)
    requires Distinct(defs) && Closed(defs, t) && TypeOk(defs.Keys, DefinedNames(defs), t) && Write(defs, [], t) == Ok(tree)
    ensures ReadsAs(defs, Top, tree, t)
  {
    DistinctNamesFindTheirOwn(defs, [], t);
    PrintingKeepsMeaning(defs, t, tree);
  }

  // --- A name captured ---

  const NODE: Option<string> := Some("Node")

  function Member(index: nat, ty: Type): Field<Type> {
    Field(None, index, 4, 4 * index, ty)
  }

  function MemberTree(index: nat, ty: Tree): Field<Tree> {
    Field(None, index, 4, 4 * index, ty)
  }

  const OUTER: Layer<Type> := Struct(NODE, DefaultRepr, 4, [Member(0, Rec(1))])
  const INNER: Layer<Type> := Struct(NODE, DefaultRepr, 8, [Member(0, Rec(0)), Member(1, Plain(Leaf(Felt)))])
  const TWO_NODES: Definitions := map[0 := OUTER, 1 := INNER]
  const INNER_TREE: Layer<Tree> :=
    Struct(NODE, DefaultRepr, 8, [MemberTree(0, Back(NODE)), MemberTree(1, Full(Leaf(Felt)))])
  const OUTER_TREE: Layer<Tree> := Struct(NODE, DefaultRepr, 4, [MemberTree(0, Full(INNER_TREE))])

  lemma TwoNodesAreClosed()
    ensures DefinitionsOk(TWO_NODES, {}) && Closed(TWO_NODES, Rec(0))
  {
    assert TypeOk(TWO_NODES.Keys, {}, Rec(0)) && TypeOk(TWO_NODES.Keys, {}, Rec(1));
    assert TypeOk(TWO_NODES.Keys, {}, Plain(Leaf(Felt)));
    assert LayerOk(TWO_NODES.Keys, {}, OUTER) && LayerOk(TWO_NODES.Keys, {}, INNER);
  }

  lemma FirstIsWritten(defs: Definitions, unfolding: seq<RecId>, f: Field<Type>, more: seq<Field<Type>>, out: Field<Tree>, outs: seq<Field<Tree>>)
    requires DefinitionsOk(defs, {}) && forall i | 0 <= i < |[f] + more| :: TypeOk(defs.Keys, {}, ([f] + more)[i].ty)
    requires TypeOk(defs.Keys, {}, f.ty) && WriteField(defs, unfolding, f) == Ok(out)
    requires (forall i | 0 <= i < |more| :: TypeOk(defs.Keys, {}, more[i].ty)) && WriteFields(defs, unfolding, more) == Ok(outs)
    ensures WriteFields(defs, unfolding, [f] + more) == Ok([out] + outs)
  {}

  lemma InnerIsWritten()
    ensures ClosedLayer(TWO_NODES, INNER) && WriteLayer(TWO_NODES, [0, 1], INNER) == Ok(INNER_TREE)
  {
    TwoNodesAreClosed();
    var fields := INNER.fields;
    assert Write(TWO_NODES, [0, 1], Rec(0)) == Ok(Back(NODE));
    assert WriteField(TWO_NODES, [0, 1], fields[0]) == Ok(MemberTree(0, Back(NODE)));
    assert WriteLayer(TWO_NODES, [0, 1], Leaf(Felt)) == Ok(Leaf(Felt));
    assert WriteField(TWO_NODES, [0, 1], fields[1]) == Ok(MemberTree(1, Full(Leaf(Felt))));
    assert [fields[1]] + [] == [fields[1]] && [fields[0]] + [fields[1]] == fields;
    FirstIsWritten(TWO_NODES, [0, 1], fields[1], [], INNER_TREE.fields[1], []);
    assert [INNER_TREE.fields[1]] + [] == [INNER_TREE.fields[1]];
    FirstIsWritten(TWO_NODES, [0, 1], fields[0], [fields[1]], INNER_TREE.fields[0], [INNER_TREE.fields[1]]);
    assert [INNER_TREE.fields[0]] + [INNER_TREE.fields[1]] == INNER_TREE.fields;
  }

  lemma OuterIsWritten()
    ensures Closed(TWO_NODES, Rec(0)) && Write(TWO_NODES, [], Rec(0)) == Ok(Full(OUTER_TREE))
  {
    TwoNodesAreClosed();
    InnerIsWritten();
    assert [] + [0] == [0] && [0] + [1] == [0, 1];
    assert Write(TWO_NODES, [0], Rec(1)) == Ok(Full(INNER_TREE));
    assert WriteField(TWO_NODES, [0], OUTER.fields[0]) == Ok(MemberTree(0, Full(INNER_TREE)));
    assert [OUTER.fields[0]] + [] == OUTER.fields && [OUTER_TREE.fields[0]] + [] == OUTER_TREE.fields;
    FirstIsWritten(TWO_NODES, [0], OUTER.fields[0], [], OUTER_TREE.fields[0], []);
    assert WriteLayer(TWO_NODES, [0], OUTER) == Ok(OUTER_TREE);
  }

  /**
   Two recursive structs of one name, each holding the other: the back reference
   to the outer one finds the inner one, so the printed tree reads back as
   another type.
   */
  lemma SharedNamesAreConfused()
    ensures Closed(TWO_NODES, Rec(0)) && Write(TWO_NODES, [], Rec(0)).Ok?
    ensures UnfoldTree(Top, Write(TWO_NODES, [], Rec(0)).value, 3) != UnfoldType(TWO_NODES, Rec(0), 3)
  {
    OuterIsWritten();
    var inOuter := Inside(OUTER_TREE, Top);
    var read := UnfoldTree(Top, Full(OUTER_TREE), 3);
    assert read.layer.fields[0].ty == UnfoldTree(inOuter, Full(INNER_TREE), 2);
    assert read.layer.fields[0].ty.layer.fields[0].ty == UnfoldTree(Inside(INNER_TREE, inOuter), Back(NODE), 1);
    assert |read.layer.fields[0].ty.layer.fields[0].ty.layer.fields| == 2;
    var meant := UnfoldType(TWO_NODES, Rec(0), 3);
    assert meant.layer.fields[0].ty == UnfoldType(TWO_NODES, Rec(1), 2);
    assert meant.layer.fields[0].ty.layer.fields[0].ty == UnfoldType(TWO_NODES, Rec(0), 1);
    assert |meant.layer.fields[0].ty.layer.fields[0].ty.layer.fields| == 1;
  }

  // --- A name shared and not captured ---

  const LIST: Layer<Type> := Struct(NODE, DefaultRepr, 4, [Member(0, Rec(0))])
  const OTHER_LIST: Layer<Type> := Struct(NODE, DefaultRepr, 8, [Member(0, Rec(1))])
  const TWO_LISTS: Definitions := map[0 := LIST, 1 := OTHER_LIST]
  const SIDE_BY_SIDE: Layer<Type> := Function(ComponentModel, [Rec(0), Rec(1)], [])

  lemma TwoListsAreClosed()
    ensures DefinitionsOk(TWO_LISTS, {}) && Closed(TWO_LISTS, Rec(0)) && Closed(TWO_LISTS, Rec(1))
    ensures ClosedLayer(TWO_LISTS, SIDE_BY_SIDE) && Closed(TWO_LISTS, Plain(SIDE_BY_SIDE))
  {
    assert TypeOk(TWO_LISTS.Keys, {}, Rec(0)) && TypeOk(TWO_LISTS.Keys, {}, Rec(1));
    assert LayerOk(TWO_LISTS.Keys, {}, LIST) && LayerOk(TWO_LISTS.Keys, {}, OTHER_LIST);
    assert LayerOk(TWO_LISTS.Keys, {}, SIDE_BY_SIDE);
  }

  lemma ListFindsItself(id: RecId)
    requires id == 0 || id == 1
    ensures Closed(TWO_LISTS, Rec(id)) && EveryBack(TWO_LISTS, [], Rec(id), FindsOwn(TWO_LISTS))
  {
    TwoListsAreClosed();
    var layer, inside := TWO_LISTS[id], Enter([], Rec(id));
    assert layer.fields == [Member(0, Rec(id))] && Entered(inside) == [id];
    assert Write(TWO_LISTS, [id], Rec(id)) == Ok(Back(NODE));
    assert WriteField(TWO_LISTS, [id], Member(0, Rec(id))) == Ok(MemberTree(0, Back(NODE)));
    assert WriteFields(TWO_LISTS, [id], []) == Ok([]);
    assert [Member(0, Rec(id))] + [] == [Member(0, Rec(id))];
    FirstIsWritten(TWO_LISTS, [id], Member(0, Rec(id)), [], MemberTree(0, Back(NODE)), []);
    assert WriteLayer(TWO_LISTS, [id], layer).Ok?;
    assert |inside| == 1 && inside[0] == Rec(id) && inside[..0] == [];
    assert Head(TWO_LISTS, Rec(id)) == layer && layer.Struct? && layer.Name() == NODE;
    assert NestOk(TWO_LISTS, []) && NestOk(TWO_LISTS, inside);
    assert Innermost(TWO_LISTS, inside, NODE) == inside;
    assert Found(TWO_LISTS, inside, id) == Some(Rec(id));
    assert Parts(layer) == [Rec(id)];
  }

  /** Two recursive structs of one name, side by side: no name is captured. */
  lemma SharedNamesMayStayApart()
    ensures Closed(TWO_LISTS, Plain(SIDE_BY_SIDE)) && !Distinct(TWO_LISTS)
    ensures EveryBack(TWO_LISTS, [], Plain(SIDE_BY_SIDE), FindsOwn(TWO_LISTS))
  {
    TwoListsAreClosed();
    ListFindsItself(0);
    ListFindsItself(1);
    assert LIST.Name() == OTHER_LIST.Name() && TWO_LISTS[0] == LIST && TWO_LISTS[1] == OTHER_LIST;
    assert Parts(SIDE_BY_SIDE) == [Rec(0), Rec(1)];
  }
}
