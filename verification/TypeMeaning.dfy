/**
 When a printed type means what it was printed from. A back reference carries a
 name alone, and is read as the innermost enclosing aggregate of that name; the
 meaning is kept exactly when each finds a definition that unfolds like its own.
 */
module TypeMeaning {
  import opened Wrappers
  import opened TypeWriting
  import opened TypeReading

  // --- The aggregates a place is nested in ---

  /** Definitions entered and aggregates written in place, outermost first. */
  type Nest = seq<Type>

  /** The definitions entered: the writer's stack. */
  ghost function Entered(nest: Nest): seq<RecId> {
    if nest == [] then []
    else
      var last := nest[|nest| - 1];
      Entered(nest[..|nest| - 1]) + if last.Rec? then [last.id] else []
  }

  ghost function Enter(nest: Nest, t: Type): (r: Nest)
    ensures r != [] && r[|r| - 1] == t && r[..|r| - 1] == nest
    ensures Entered(r) == if t.Rec? then Entered(nest) + [t.id] else Entered(nest)
  {
    assert (nest + [t])[..|nest|] == nest && Entered(nest) + [] == Entered(nest);
    nest + [t]
  }

  /** What encloses is an aggregate, and was written. */
  ghost predicate NestOk(defs: Definitions, nest: Nest) {
    && DefinitionsOk(defs, {})
    && (nest != [] ==>
          var last := nest[|nest| - 1];
          && NestOk(defs, nest[..|nest| - 1]) && Closed(defs, last) && Head(defs, last).Aggregate()
          && WriteLayer(defs, Entered(nest), Head(defs, last)).Ok?)
  }

  /** What a reader is inside of there. */
  ghost function ScopeOf(defs: Definitions, nest: Nest): Scope
    requires NestOk(defs, nest)
  {
    if nest == [] then Top
    else Inside(WriteLayer(defs, Entered(nest), Head(defs, nest[|nest| - 1])).value, ScopeOf(defs, nest[..|nest| - 1]))
  }

  /** The nest up to the innermost aggregate of this name, empty when there is none. */
  ghost function Innermost(defs: Definitions, nest: Nest, name: Option<string>): (r: Nest)
    requires NestOk(defs, nest)
    ensures NestOk(defs, r) && |r| <= |nest|
  {
    if nest == [] || Head(defs, nest[|nest| - 1]).Name() == name then nest
    else Innermost(defs, nest[..|nest| - 1], name)
  }

  lemma WrittenKeepsName(defs: Definitions, unfolding: seq<RecId>, layer: Layer<Type>)
    requires ClosedLayer(defs, layer) && WriteLayer(defs, unfolding, layer).Ok?
    ensures layer.Aggregate() <==> WriteLayer(defs, unfolding, layer).value.Aggregate()
    ensures layer.Aggregate() ==> layer.Name() == WriteLayer(defs, unfolding, layer).value.Name()
  {}

  /** The reader finds what the innermost aggregate of the name was written as. */
  lemma {:induction false} ReaderFindsInnermost(defs: Definitions, nest: Nest, name: Option<string>)
    requires NestOk(defs, nest)
    ensures ScopeOf(defs, nest).Find(name) == ScopeOf(defs, Innermost(defs, nest, name))
  {
    if nest != [] {
      WrittenKeepsName(defs, Entered(nest), Head(defs, nest[|nest| - 1]));
      if Head(defs, nest[|nest| - 1]).Name() != name {
        ReaderFindsInnermost(defs, nest[..|nest| - 1], name);
      }
    }
  }

  /** A definition entered is found, or one of its name inside it. */
  lemma {:induction false} EnteredIsFound(defs: Definitions, nest: Nest, id: RecId)
    requires NestOk(defs, nest) && id in Entered(nest)
    ensures id in defs && Innermost(defs, nest, defs[id].Name()) != []
  {
    var last := nest[|nest| - 1];
    if last != Rec(id) {
      EnteredIsFound(defs, nest[..|nest| - 1], id);
    }
  }

  // --- Every back reference ---

  /** `good` holds of each definition written by name alone, with what it is nested in there. */
  ghost predicate EveryBack(defs: Definitions, nest: Nest, t: Type, good: (Nest, RecId) -> bool)
    requires Closed(defs, t)
    decreases defs.Keys - Elements(Entered(nest)), t
  {
    match t
    case Plain(layer) => EveryBackIn(defs, if layer.Aggregate() then Enter(nest, t) else nest, layer, good)
    case Rec(id) =>
      if id in Entered(nest) then good(nest, id)
      else
        assert id in defs.Keys - Elements(Entered(nest)) && id !in defs.Keys - Elements(Entered(Enter(nest, t)));
        EveryBackIn(defs, Enter(nest, t), defs[id], good)
  }

  ghost predicate EveryBackIn(defs: Definitions, nest: Nest, layer: Layer<Type>, good: (Nest, RecId) -> bool)
    requires ClosedLayer(defs, layer)
    decreases defs.Keys - Elements(Entered(nest)), layer
  {
    PartsAreSmaller(layer);
    PartsAreClosed(defs, layer);
    forall c | c in Parts(layer) :: EveryBack(defs, nest, c, good)
  }

  lemma PartsAreClosed(defs: Definitions, layer: Layer<Type>)
    requires ClosedLayer(defs, layer)
    ensures forall c | c in Parts(layer) :: Closed(defs, c)
  {
    PartsAreOk(defs.Keys, {}, layer);
  }

  lemma PartsAreOk(ids: set<RecId>, reserved: set<Option<string>>, layer: Layer<Type>)
    requires LayerOk(ids, reserved, layer)
    ensures forall c | c in Parts(layer) :: TypeOk(ids, reserved, c)
  {
    if layer.Enum? {
      forall c | c in VariantParts(layer.variants) ensures TypeOk(ids, reserved, c) { VariantPartsAre(layer.variants, c); }
    }
  }

  // --- Reading back ---

  /** Two types that unfold alike to every depth. */
  ghost predicate Alike(defs: Definitions, a: Type, b: Type) {
    forall depth: nat :: UnfoldType(defs, a, depth) == UnfoldType(defs, b, depth)
  }

  /** The aggregate a reader finds for the name of `id`. */
  ghost function Found(defs: Definitions, nest: Nest, id: RecId): Option<Type> {
    if !NestOk(defs, nest) || id !in defs || !defs[id].Aggregate() then None
    else
      var found := Innermost(defs, nest, defs[id].Name());
      if found == [] then None else Some(found[|found| - 1])
  }

  /** The name finds the definition it was written for. */
  ghost function FindsOwn(defs: Definitions): (Nest, RecId) -> bool {
    (nest: Nest, id: RecId) => Found(defs, nest, id) == Some(Rec(id))
  }

  /** The name finds one that unfolds like the definition it was written for. */
  ghost function FindsAlike(defs: Definitions): (Nest, RecId) -> bool {
    (nest: Nest, id: RecId) => Found(defs, nest, id).Some? && Alike(defs, Found(defs, nest, id).value, Rec(id))
  }

  /** The printed tree, read in a scope, unfolds as the type does. */
  ghost predicate ReadsAs(defs: Definitions, scope: Scope, tree: Tree, t: Type) {
    forall depth: nat :: UnfoldTree(scope, tree, depth) == UnfoldType(defs, t, depth)
  }

  /** Every back reference in what encloses a place is good. */
  ghost predicate NestHolds(defs: Definitions, nest: Nest, good: (Nest, RecId) -> bool)
    requires NestOk(defs, nest)
  {
    nest != [] ==>
      && NestHolds(defs, nest[..|nest| - 1], good)
      && EveryBackIn(defs, nest, Head(defs, nest[|nest| - 1]), good)
  }

  lemma {:induction false} InnermostHolds(defs: Definitions, nest: Nest, name: Option<string>, good: (Nest, RecId) -> bool)
    requires NestOk(defs, nest) && NestHolds(defs, nest, good)
    ensures NestHolds(defs, Innermost(defs, nest, name), good)
  {
    if nest != [] && Head(defs, nest[|nest| - 1]).Name() != name {
      InnermostHolds(defs, nest[..|nest| - 1], name, good);
    }
  }

  /** Entering an aggregate is entering what was written for it. */
  lemma EnteredScope(defs: Definitions, nest: Nest, t: Type)
    requires NestOk(defs, nest) && Closed(defs, t) && Head(defs, t).Aggregate()
    requires WriteLayer(defs, Entered(Enter(nest, t)), Head(defs, t)).Ok?
    ensures NestOk(defs, Enter(nest, t))
    ensures ScopeOf(defs, Enter(nest, t)) == ScopeOf(defs, nest).Enter(WriteLayer(defs, Entered(Enter(nest, t)), Head(defs, t)).value)
  {
    WrittenKeepsName(defs, Entered(Enter(nest, t)), Head(defs, t));
  }

  /** The parts of a level read back, one unfolding less deep. */
  lemma {:induction false} LayerReads(defs: Definitions, nest: Nest, layer: Layer<Type>, depth: nat)
    requires NestOk(defs, nest) && NestHolds(defs, nest, FindsAlike(defs)) && ClosedLayer(defs, layer)
    requires WriteLayer(defs, Entered(nest), layer).Ok? && EveryBackIn(defs, nest, layer, FindsAlike(defs))
    ensures MapLayer((c: Tree) => UnfoldTree(ScopeOf(defs, nest), c, depth), WriteLayer(defs, Entered(nest), layer).value)
         == MapLayer((c: Type) => UnfoldType(defs, c, depth), layer)
    decreases depth, 3
  {
    var out := WriteLayer(defs, Entered(nest), layer).value;
    var f, g := (c: Type) => UnfoldType(defs, c, depth), (c: Tree) => UnfoldTree(ScopeOf(defs, nest), c, depth);
    WrittenCorresponds(defs, Entered(nest), layer, {});
    RelatedParts(layer, out, Written(defs, Entered(nest), {}));
    var related := (a: Type, b: Tree) => Written(defs, Entered(nest), {})(a, b) && a in Parts(layer);
    forall a, b | related(a, b) ensures f(a) == g(b) {
      TreeReads(defs, nest, a, b, depth);
    }
    CorrespondingMapsAgree(layer, out, related, f, g);
  }

  /** A definition or aggregate reads back where it is entered. */
  lemma EntryReads(defs: Definitions, nest: Nest, depth: nat)
    requires nest != [] && NestOk(defs, nest) && NestHolds(defs, nest, FindsAlike(defs)) && depth > 0
    ensures ScopeOf(defs, nest).Inside?
    ensures UnfoldPrinted(ScopeOf(defs, nest).outer, ScopeOf(defs, nest).definition, depth)
         == UnfoldType(defs, nest[|nest| - 1], depth)
    decreases depth, 0
  {
    var last := nest[|nest| - 1];
    LayerReads(defs, nest, Head(defs, last), depth - 1);
    WrittenKeepsName(defs, Entered(nest), Head(defs, last));
  }

  lemma {:induction false} TreeReads(defs: Definitions, nest: Nest, t: Type, tree: Tree, depth: nat)
    requires NestOk(defs, nest) && NestHolds(defs, nest, FindsAlike(defs)) && Closed(defs, t)
    requires Write(defs, Entered(nest), t) == Ok(tree) && EveryBack(defs, nest, t, FindsAlike(defs))
    ensures UnfoldTree(ScopeOf(defs, nest), tree, depth) == UnfoldType(defs, t, depth)
    decreases depth, 2
  {
    if depth > 0 {
      if t.Rec? && t.id in Entered(nest) {
        BackReads(defs, nest, t.id, depth);
      } else if Head(defs, t).Aggregate() {
        EnteredScope(defs, nest, t);
        EntryReads(defs, Enter(nest, t), depth);
      } else {
        LayerReads(defs, nest, t.layer, depth - 1);
        WrittenKeepsName(defs, Entered(nest), t.layer);
      }
    }
  }

  lemma BackReads(defs: Definitions, nest: Nest, id: RecId, depth: nat)
    requires NestOk(defs, nest) && NestHolds(defs, nest, FindsAlike(defs)) && id in Entered(nest) && depth > 0
    requires id in defs && FindsAlike(defs)(nest, id)
    ensures UnfoldTree(ScopeOf(defs, nest), Back(defs[id].Name()), depth) == UnfoldType(defs, Rec(id), depth)
    decreases depth, 1
  {
    var found := Innermost(defs, nest, defs[id].Name());
    ReaderFindsInnermost(defs, nest, defs[id].Name());
    InnermostHolds(defs, nest, defs[id].Name(), FindsAlike(defs));
    EntryReads(defs, found, depth);
  }

  // --- What reading back as the type asks of each back reference ---

  /** What encloses a place reads, to every depth, as what it was written from. */
  ghost predicate NestReads(defs: Definitions, nest: Nest)
    requires NestOk(defs, nest)
  {
    nest != [] ==> NestReads(defs, nest[..|nest| - 1]) && EntryReadsAs(defs, nest)
  }

  ghost predicate EntryReadsAs(defs: Definitions, nest: Nest)
    requires nest != [] && NestOk(defs, nest)
  {
    forall depth: nat | depth > 0 ::
      UnfoldPrinted(ScopeOf(defs, nest).outer, ScopeOf(defs, nest).definition, depth) == UnfoldType(defs, nest[|nest| - 1], depth)
  }

  ghost predicate LayerReadsTo(defs: Definitions, scope: Scope, layer: Layer<Type>, out: Layer<Tree>, depth: nat) {
    MapLayer((c: Tree) => UnfoldTree(scope, c, depth), out) == MapLayer((c: Type) => UnfoldType(defs, c, depth), layer)
  }

  /** The parts of a level read as what they were written from. */
  ghost predicate LayerReadsAs(defs: Definitions, nest: Nest, layer: Layer<Type>, out: Layer<Tree>)
    requires NestOk(defs, nest)
  {
    forall depth: nat :: LayerReadsTo(defs, ScopeOf(defs, nest), layer, out, depth)
  }

  lemma {:induction false} InnermostReads(defs: Definitions, nest: Nest, name: Option<string>)
    requires NestOk(defs, nest) && NestReads(defs, nest)
    ensures NestReads(defs, Innermost(defs, nest, name))
  {
    if nest != [] && Head(defs, nest[|nest| - 1]).Name() != name {
      InnermostReads(defs, nest[..|nest| - 1], name);
    }
  }

  lemma PartReadsAs(defs: Definitions, nest: Nest, layer: Layer<Type>, out: Layer<Tree>, i: nat)
    requires NestOk(defs, nest) && LayerReadsAs(defs, nest, layer, out) && i < |Parts(layer)| == |Parts(out)|
    ensures ReadsAs(defs, ScopeOf(defs, nest), Parts(out)[i], Parts(layer)[i])
  {
    forall depth: nat ensures UnfoldTree(ScopeOf(defs, nest), Parts(out)[i], depth) == UnfoldType(defs, Parts(layer)[i], depth) {
      assert LayerReadsTo(defs, ScopeOf(defs, nest), layer, out, depth);
      PartsMapAlike((c: Type) => UnfoldType(defs, c, depth), layer, (c: Tree) => UnfoldTree(ScopeOf(defs, nest), c, depth), out);
    }
  }

  lemma {:induction false} LayerMeans(defs: Definitions, nest: Nest, layer: Layer<Type>)
    requires NestOk(defs, nest) && NestReads(defs, nest) && ClosedLayer(defs, layer)
    requires WriteLayer(defs, Entered(nest), layer).Ok?
    requires LayerReadsAs(defs, nest, layer, WriteLayer(defs, Entered(nest), layer).value)
    ensures EveryBackIn(defs, nest, layer, FindsAlike(defs))
    decreases defs.Keys - Elements(Entered(nest)), layer, 0
  {
    var out := WriteLayer(defs, Entered(nest), layer).value;
    WrittenCorresponds(defs, Entered(nest), layer, {});
    PartsCorrespond(layer, out, Written(defs, Entered(nest), {}));
    PartsAreSmaller(layer);
    forall c | c in Parts(layer) ensures Closed(defs, c) && EveryBack(defs, nest, c, FindsAlike(defs)) {
      var i :| 0 <= i < |Parts(layer)| && Parts(layer)[i] == c;
      assert Written(defs, Entered(nest), {})(Parts(layer)[i], Parts(out)[i]);
      PartReadsAs(defs, nest, layer, out, i);
      TreeMeans(defs, nest, c, Parts(out)[i]);
    }
  }

  /** An entered name that reads as its definition finds one that unfolds like it. */
  lemma BackMeans(defs: Definitions, nest: Nest, id: RecId)
    requires NestOk(defs, nest) && NestReads(defs, nest) && id in Entered(nest) && id in defs
    requires ReadsAs(defs, ScopeOf(defs, nest), Back(defs[id].Name()), Rec(id))
    ensures FindsAlike(defs)(nest, id)
  {
    var name := defs[id].Name();
    var found := Innermost(defs, nest, name);
    EnteredIsFound(defs, nest, id);
    ReaderFindsInnermost(defs, nest, name);
    InnermostReads(defs, nest, name);
    forall depth: nat ensures UnfoldType(defs, found[|found| - 1], depth) == UnfoldType(defs, Rec(id), depth) {
      if depth > 0 {
        assert UnfoldTree(ScopeOf(defs, nest), Back(name), depth)
            == UnfoldPrinted(ScopeOf(defs, found).outer, ScopeOf(defs, found).definition, depth);
      }
    }
  }

  lemma UnfoldedParts(defs: Definitions, scope: Scope, layer: Layer<Type>, out: Layer<Tree>, t: Type, depth: nat)
    requires (t.Rec? ==> t.id in defs) && Head(defs, t) == layer
    requires UnfoldPrinted(scope, out, depth + 1) == UnfoldType(defs, t, depth + 1)
    ensures LayerReadsTo(defs, scope.Enter(out), layer, out, depth)
  {}

  /** What is written in full reads, part by part, as its level. */
  lemma FullReadsAs(defs: Definitions, nest: Nest, inner: Nest, layer: Layer<Type>, out: Layer<Tree>, t: Type)
    requires NestOk(defs, nest) && NestOk(defs, inner) && ScopeOf(defs, inner) == ScopeOf(defs, nest).Enter(out)
    requires (t.Rec? ==> t.id in defs) && Head(defs, t) == layer && ReadsAs(defs, ScopeOf(defs, nest), Full(out), t)
    ensures LayerReadsAs(defs, inner, layer, out)
  {
    forall depth: nat ensures LayerReadsTo(defs, ScopeOf(defs, inner), layer, out, depth) {
      assert UnfoldTree(ScopeOf(defs, nest), Full(out), depth + 1) == UnfoldType(defs, t, depth + 1);
      UnfoldedParts(defs, ScopeOf(defs, nest), layer, out, t, depth);
    }
  }

  lemma {:induction false} TreeMeans(defs: Definitions, nest: Nest, t: Type, tree: Tree)
    requires NestOk(defs, nest) && NestReads(defs, nest) && Closed(defs, t)
    requires Write(defs, Entered(nest), t) == Ok(tree) && ReadsAs(defs, ScopeOf(defs, nest), tree, t)
    ensures EveryBack(defs, nest, t, FindsAlike(defs))
    decreases defs.Keys - Elements(Entered(nest)), t, 1
  {
    if t.Rec? && t.id in Entered(nest) {
      BackMeans(defs, nest, t.id);
    } else {
      var inner := if Head(defs, t).Aggregate() then Enter(nest, t) else nest;
      var out := tree.layer;
      WrittenKeepsName(defs, Entered(inner), Head(defs, t));
      if Head(defs, t).Aggregate() {
        EnteredScope(defs, nest, t);
        assert forall depth: nat :: UnfoldTree(ScopeOf(defs, nest), tree, depth) == UnfoldType(defs, t, depth);
        assert EntryReadsAs(defs, inner);
      }
      FullReadsAs(defs, nest, inner, Head(defs, t), out, t);
      if t.Rec? { assert t.id in defs.Keys - Elements(Entered(nest)) && t.id !in defs.Keys - Elements(Entered(inner)); }
      LayerMeans(defs, inner, Head(defs, t));
    }
  }

  // --- The exact condition ---

  /** The printed tree means what it was printed from exactly when every back reference finds a definition that unfolds like its own. */
  lemma MeaningExactly(defs: Definitions, t: Type, tree: Tree)
    requires Closed(defs, t) && Write(defs, [], t) == Ok(tree)
    ensures ReadsAs(defs, Top, tree, t) <==> EveryBack(defs, [], t, FindsAlike(defs))
  {
    if ReadsAs(defs, Top, tree, t) {
      TreeMeans(defs, [], t, tree);
    }
    if EveryBack(defs, [], t, FindsAlike(defs)) {
      forall depth: nat ensures UnfoldTree(Top, tree, depth) == UnfoldType(defs, t, depth) {
        TreeReads(defs, [], t, tree, depth);
      }
    }
  }
}
