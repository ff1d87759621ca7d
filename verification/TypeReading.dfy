/**
 How types and printed trees unfold, to any finite depth, and how the levels of the
 two correspond. A printed tree is read with the definitions it is nested in: a
 back reference stands for the innermost enclosing definition of its name.
 */
module TypeReading {
  import opened Wrappers
  import opened TypeWriting

  /** A type unfolded so far and cut there. */
  datatype Shape = Cut | Shape(layer: Layer<Shape>)

  ghost function MapLayer<A, B>(f: A -> B, layer: Layer<A>): Layer<B> {
    match layer
    case Leaf(primitive) => Leaf(primitive)
    case Ptr(addrspace, pointee) => Ptr(addrspace, f(pointee))
    case Struct(name, repr, size, fields) =>
      Struct(name, repr, size, seq(|fields|, i requires 0 <= i < |fields| => MapField(f, fields[i])))
    case Enum(name, discriminant, variants, offsets, size, align) =>
      Enum(name, f(discriminant), seq(|variants|, i requires 0 <= i < |variants| => MapVariant(f, variants[i])), offsets, size, align)
    case Array(ty, len) => Array(f(ty), len)
    case List(element) => List(f(element))
    case Function(abi, params, results) =>
      Function(abi, seq(|params|, i requires 0 <= i < |params| => f(params[i])),
               seq(|results|, i requires 0 <= i < |results| => f(results[i])))
  }

  ghost function MapField<A, B>(f: A -> B, field: Field<A>): Field<B> {
    Field(field.name, field.index, field.align, field.offset, f(field.ty))
  }

  ghost function MapVariant<A, B>(f: A -> B, v: Variant<A>): Variant<B> {
    Variant(v.name, v.discriminant, match v.value case Some(value) => Some(f(value)) case None => None)
  }

  /** The type itself, unfolded through its definitions. */
  ghost function UnfoldType(defs: Definitions, t: Type, depth: nat): Shape
    decreases depth
  {
    if depth == 0 then Cut
    else match t
      case Plain(layer) => Shape(MapLayer((c: Type) => UnfoldType(defs, c, depth - 1), layer))
      case Rec(id) =>
        if id in defs then Shape(MapLayer((c: Type) => UnfoldType(defs, c, depth - 1), defs[id])) else Cut
  }

  /** The definitions a place in a printed tree is nested in, innermost first. */
  datatype Scope = Top | Inside(definition: Layer<Tree>, outer: Scope) {
    /** The innermost enclosing definition of this name, with what it is nested in. */
    ghost function Find(name: Option<string>): Scope {
      match this
      case Top => Top
      case Inside(definition, outer) =>
        if definition.Aggregate() && definition.Name() == name then this else outer.Find(name)
    }

    ghost function Enter(layer: Layer<Tree>): Scope {
      if layer.Aggregate() then Inside(layer, this) else this
    }
  }

  /** The printed tree, unfolded through the definitions its back references name. */
  ghost function UnfoldTree(scope: Scope, tree: Tree, depth: nat): Shape
    decreases depth, 1
  {
    if depth == 0 then Cut
    else match tree
      case Full(layer) => UnfoldPrinted(scope, layer, depth)
      case Back(name) =>
        match scope.Find(name)
        case Top => Cut
        case Inside(definition, outer) => UnfoldPrinted(outer, definition, depth)
  }

  ghost function UnfoldPrinted(scope: Scope, layer: Layer<Tree>, depth: nat): Shape
    requires depth > 0
    decreases depth, 0
  {
    Shape(MapLayer((c: Tree) => UnfoldTree(scope.Enter(layer), c, depth - 1), layer))
  }

  // --- Levels part by part ---

  /** The level a type stands for. */
  ghost function Head(defs: Definitions, t: Type): Layer<Type>
    requires t.Rec? ==> t.id in defs
  {
    match t
    case Plain(layer) => layer
    case Rec(id) => defs[id]
  }

  /** The parts of a level, in the order they are written. */
  ghost function Parts<T>(layer: Layer<T>): seq<T> {
    match layer
    case Leaf(_) => []
    case Ptr(_, pointee) => [pointee]
    case Struct(_, _, _, fields) => seq(|fields|, i requires 0 <= i < |fields| => fields[i].ty)
    case Enum(_, discriminant, variants, _, _, _) => VariantParts(variants) + [discriminant]
    case Array(ty, _) => [ty]
    case List(element) => [element]
    case Function(_, params, results) => params + results
  }

  ghost function VariantParts<T>(variants: seq<Variant<T>>): seq<T> {
    if variants == [] then []
    else (match variants[0].value case Some(value) => [value] case None => []) + VariantParts(variants[1..])
  }

  lemma {:induction false} VariantPartsAre<T>(variants: seq<Variant<T>>, c: T)
    ensures c in VariantParts(variants) <==> exists i :: 0 <= i < |variants| && variants[i].value == Some(c)
  {
    if variants != [] {
      VariantPartsAre(variants[1..], c);
      assert variants == [variants[0]] + variants[1..];
    }
  }

  lemma PartsAreSmaller(layer: Layer<Type>)
    ensures forall c | c in Parts(layer) :: layer decreases to c
  {
    if layer.Enum? {
      forall c | c in VariantParts(layer.variants) ensures layer decreases to c {
        VariantPartsAre(layer.variants, c);
        var i :| 0 <= i < |layer.variants| && layer.variants[i].value == Some(c);
        assert layer.variants[i].value.value == c;
      }
    }
  }

  /** The same level, its parts related pairwise. */
  ghost predicate Corresponds<A(!new), B(!new)>(layer: Layer<A>, out: Layer<B>, related: (A, B) -> bool) {
    match (layer, out)
    case (Leaf(p), Leaf(q)) => p == q
    case (Ptr(s, a), Ptr(t, b)) => s == t && related(a, b)
    case (Struct(n, r, s, fields), Struct(m, q, t, outs)) =>
      && n == m && r == q && s == t && |fields| == |outs|
      && forall i | 0 <= i < |fields| :: FieldRelated(fields[i], outs[i], related)
    case (Enum(n, d, variants, o, s, a), Enum(m, e, outs, p, t, b)) =>
      && n == m && o == p && s == t && a == b && related(d, e) && |variants| == |outs|
      && forall i | 0 <= i < |variants| :: VariantRelated(variants[i], outs[i], related)
    case (Array(a, l), Array(b, m)) => l == m && related(a, b)
    case (List(a), List(b)) => related(a, b)
    case (Function(f, ps, rs), Function(g, qs, ss)) =>
      && f == g && |ps| == |qs| && |rs| == |ss|
      && (forall i | 0 <= i < |ps| :: related(ps[i], qs[i]))
      && forall i | 0 <= i < |rs| :: related(rs[i], ss[i])
    case _ => false
  }

  ghost predicate FieldRelated<A(!new), B(!new)>(f: Field<A>, out: Field<B>, related: (A, B) -> bool) {
    f.name == out.name && f.index == out.index && f.align == out.align && f.offset == out.offset && related(f.ty, out.ty)
  }

  ghost predicate VariantRelated<A(!new), B(!new)>(v: Variant<A>, out: Variant<B>, related: (A, B) -> bool) {
    && v.name == out.name && v.discriminant == out.discriminant && v.value.Some? == out.value.Some?
    && (v.value.Some? ==> related(v.value.value, out.value.value))
  }

  lemma CorrespondingMapsAgree<A(!new), B(!new), C>(
      layer: Layer<A>, out: Layer<B>, related: (A, B) -> bool, f: A -> C, g: B -> C)
    requires Corresponds(layer, out, related) && forall a, b :: related(a, b) ==> f(a) == g(b)
    ensures MapLayer(f, layer) == MapLayer(g, out)
  {}

  /** What is written out of `t`, with the names it must avoid. */
  ghost function Written(defs: Definitions, unfolding: seq<RecId>, reserved: set<Option<string>>): (Type, Tree) -> bool {
    (a: Type, b: Tree) => Closed(defs, a) && TypeOk(defs.Keys, reserved, a) && Write(defs, unfolding, a) == Ok(b)
  }

  lemma {:induction false} FieldsPointwise(defs: Definitions, unfolding: seq<RecId>, fields: seq<Field<Type>>)
    requires DefinitionsOk(defs, {}) && forall i | 0 <= i < |fields| :: TypeOk(defs.Keys, {}, fields[i].ty)
    ensures var r := WriteFields(defs, unfolding, fields);
            r.Ok? ==> (|r.value| == |fields| && forall i | 0 <= i < |fields| :: WriteField(defs, unfolding, fields[i]) == Ok(r.value[i]))
  {
    if fields != [] {
      FieldsPointwise(defs, unfolding, fields[1..]);
    }
  }

  lemma {:induction false} VariantsPointwise(defs: Definitions, unfolding: seq<RecId>, variants: seq<Variant<Type>>)
    requires DefinitionsOk(defs, {})
    requires forall i | 0 <= i < |variants| && variants[i].value.Some? :: TypeOk(defs.Keys, {}, variants[i].value.value)
    ensures var r := WriteVariants(defs, unfolding, variants);
            r.Ok? ==> (|r.value| == |variants| && forall i | 0 <= i < |variants| :: WriteVariant(defs, unfolding, variants[i]) == Ok(r.value[i]))
  {
    if variants != [] {
      VariantsPointwise(defs, unfolding, variants[1..]);
    }
  }

  lemma {:induction false} TypesPointwise(defs: Definitions, unfolding: seq<RecId>, types: seq<Type>)
    requires DefinitionsOk(defs, {}) && forall i | 0 <= i < |types| :: TypeOk(defs.Keys, {}, types[i])
    ensures var r := WriteTypes(defs, unfolding, types);
            r.Ok? ==> (|r.value| == |types| && forall i | 0 <= i < |types| :: Write(defs, unfolding, types[i]) == Ok(r.value[i]))
  {
    if types != [] {
      TypesPointwise(defs, unfolding, types[1..]);
    }
  }

  lemma StructCorresponds(defs: Definitions, unfolding: seq<RecId>, layer: Layer<Type>, reserved: set<Option<string>>)
    requires layer.Struct?
    requires ClosedLayer(defs, layer) && LayerOk(defs.Keys, reserved, layer) && WriteLayer(defs, unfolding, layer).Ok?
    ensures Corresponds(layer, WriteLayer(defs, unfolding, layer).value, Written(defs, unfolding, reserved))
  {
    FieldsPointwise(defs, unfolding, layer.fields);
  }

  lemma EnumCorresponds(defs: Definitions, unfolding: seq<RecId>, layer: Layer<Type>, reserved: set<Option<string>>)
    requires layer.Enum?
    requires ClosedLayer(defs, layer) && LayerOk(defs.Keys, reserved, layer) && WriteLayer(defs, unfolding, layer).Ok?
    ensures Corresponds(layer, WriteLayer(defs, unfolding, layer).value, Written(defs, unfolding, reserved))
  {
    VariantsPointwise(defs, unfolding, layer.variants);
  }

  lemma FunctionCorresponds(defs: Definitions, unfolding: seq<RecId>, layer: Layer<Type>, reserved: set<Option<string>>)
    requires layer.Function?
    requires ClosedLayer(defs, layer) && LayerOk(defs.Keys, reserved, layer) && WriteLayer(defs, unfolding, layer).Ok?
    ensures Corresponds(layer, WriteLayer(defs, unfolding, layer).value, Written(defs, unfolding, reserved))
  {
    TypesPointwise(defs, unfolding, layer.params);
    TypesPointwise(defs, unfolding, layer.results);
  }

  lemma WrittenCorresponds(defs: Definitions, unfolding: seq<RecId>, layer: Layer<Type>, reserved: set<Option<string>>)
    requires ClosedLayer(defs, layer) && LayerOk(defs.Keys, reserved, layer) && WriteLayer(defs, unfolding, layer).Ok?
    ensures Corresponds(layer, WriteLayer(defs, unfolding, layer).value, Written(defs, unfolding, reserved))
  {
    match layer
    case Struct(_, _, _, _) => StructCorresponds(defs, unfolding, layer, reserved);
    case Enum(_, _, _, _, _, _) => EnumCorresponds(defs, unfolding, layer, reserved);
    case Function(_, _, _) => FunctionCorresponds(defs, unfolding, layer, reserved);
    case _ =>
  }

  // --- Levels by their parts ---

  lemma {:induction false} VariantPartsOfMap<A(!new), B(!new)>(f: A -> B, variants: seq<Variant<A>>)
    ensures var mapped := seq(|variants|, i requires 0 <= i < |variants| => MapVariant(f, variants[i]));
            && |VariantParts(mapped)| == |VariantParts(variants)|
            && forall i | 0 <= i < |VariantParts(variants)| :: VariantParts(mapped)[i] == f(VariantParts(variants)[i])
  {
    if variants != [] {
      var mapped := seq(|variants|, i requires 0 <= i < |variants| => MapVariant(f, variants[i]));
      var rest := variants[1..];
      VariantPartsOfMap(f, rest);
      assert mapped[1..] == seq(|rest|, i requires 0 <= i < |rest| => MapVariant(f, rest[i]));
    }
  }

  lemma PartsOfMap<A(!new), B(!new)>(f: A -> B, layer: Layer<A>)
    ensures |Parts(MapLayer(f, layer))| == |Parts(layer)|
    ensures forall i | 0 <= i < |Parts(layer)| :: Parts(MapLayer(f, layer))[i] == f(Parts(layer)[i])
  {
    if layer.Enum? { VariantPartsOfMap(f, layer.variants); }
  }

  /** Levels that map alike have parts that do. */
  lemma PartsMapAlike<A(!new), B(!new), C(!new)>(f: A -> C, layer: Layer<A>, g: B -> C, out: Layer<B>)
    requires MapLayer(f, layer) == MapLayer(g, out)
    ensures |Parts(layer)| == |Parts(out)|
    ensures forall i | 0 <= i < |Parts(layer)| :: f(Parts(layer)[i]) == g(Parts(out)[i])
  {
    PartsOfMap(f, layer);
    PartsOfMap(g, out);
  }

  lemma {:induction false} VariantPartsCorrespond<A(!new), B(!new)>(
      variants: seq<Variant<A>>, outs: seq<Variant<B>>, related: (A, B) -> bool)
    requires |variants| == |outs| && forall i | 0 <= i < |variants| :: VariantRelated(variants[i], outs[i], related)
    ensures |VariantParts(variants)| == |VariantParts(outs)|
    ensures forall i | 0 <= i < |VariantParts(variants)| :: related(VariantParts(variants)[i], VariantParts(outs)[i])
  {
    if variants != [] {
      assert VariantRelated(variants[0], outs[0], related);
      VariantPartsCorrespond(variants[1..], outs[1..], related);
    }
  }

  lemma PartsCorrespond<A(!new), B(!new)>(layer: Layer<A>, out: Layer<B>, related: (A, B) -> bool)
    requires Corresponds(layer, out, related)
    ensures |Parts(layer)| == |Parts(out)|
    ensures forall i | 0 <= i < |Parts(layer)| :: related(Parts(layer)[i], Parts(out)[i])
  {
    if layer.Enum? {
      VariantPartsCorrespond(layer.variants, out.variants, related);
    } else if layer.Struct? {
      forall i | 0 <= i < |Parts(layer)| ensures related(Parts(layer)[i], Parts(out)[i]) {
        assert FieldRelated(layer.fields[i], out.fields[i], related);
      }
    }
  }

  lemma RelatedParts<A(!new), B(!new)>(layer: Layer<A>, out: Layer<B>, related: (A, B) -> bool)
    requires Corresponds(layer, out, related)
    ensures Corresponds(layer, out, (a: A, b: B) => related(a, b) && a in Parts(layer))
  {
    var both := (a: A, b: B) => related(a, b) && a in Parts(layer);
    match layer
    case Struct(_, _, _, fields) =>
      forall i | 0 <= i < |fields| ensures FieldRelated(fields[i], out.fields[i], both) {
        assert FieldRelated(fields[i], out.fields[i], related) && Parts(layer)[i] == fields[i].ty;
      }
    case Enum(_, discriminant, variants, _, _, _) =>
      assert Parts(layer)[|VariantParts(variants)|] == discriminant;
      forall i | 0 <= i < |variants| ensures VariantRelated(variants[i], out.variants[i], both) {
        assert VariantRelated(variants[i], out.variants[i], related);
        if variants[i].value.Some? { VariantPartsAre(variants, variants[i].value.value); }
        assert forall c | c in VariantParts(variants) :: c in Parts(layer);
      }
    case Function(_, params, results) =>
      assert forall i | 0 <= i < |params| :: Parts(layer)[i] == params[i];
      assert forall i | 0 <= i < |results| :: Parts(layer)[|params| + i] == results[i];
    case _ =>
  }

  /** The same variant, apart from what its value is. */
  ghost predicate VariantAlike<A, B>(v: Variant<A>, out: Variant<B>) {
    v.name == out.name && v.discriminant == out.discriminant && v.value.Some? == out.value.Some?
  }

  lemma {:induction false} VariantsByParts<A(!new), B(!new)>(
      variants: seq<Variant<A>>, outs: seq<Variant<B>>, related: (A, B) -> bool)
    requires |variants| == |outs| && forall i | 0 <= i < |variants| :: VariantAlike(variants[i], outs[i])
    requires |VariantParts(variants)| == |VariantParts(outs)|
    requires forall i | 0 <= i < |VariantParts(variants)| :: related(VariantParts(variants)[i], VariantParts(outs)[i])
    ensures forall i | 0 <= i < |variants| :: VariantRelated(variants[i], outs[i], related)
  {
    if variants != [] {
      assert VariantAlike(variants[0], outs[0]);
      var n := if variants[0].value.Some? then 1 else 0;
      var rest, restOuts := VariantParts(variants[1..]), VariantParts(outs[1..]);
      assert VariantParts(variants)[n..] == rest && VariantParts(outs)[n..] == restOuts;
      forall i | 0 <= i < |rest| ensures related(rest[i], restOuts[i]) {
        assert related(VariantParts(variants)[n + i], VariantParts(outs)[n + i]);
      }
      forall i | 0 <= i < |variants[1..]| ensures VariantAlike(variants[1..][i], outs[1..][i]) {
        assert VariantAlike(variants[i + 1], outs[i + 1]);
      }
      VariantsByParts(variants[1..], outs[1..], related);
      forall i | 0 <= i < |variants| ensures VariantRelated(variants[i], outs[i], related) {
        if i > 0 {
          assert VariantRelated(variants[1..][i - 1], outs[1..][i - 1], related);
        } else if n == 1 {
          assert related(VariantParts(variants)[0], VariantParts(outs)[0]);
        }
      }
    }
  }

  /** Levels that map alike somehow, and whose parts are related, correspond. */
  lemma CorrespondByParts<A(!new), B(!new), C(!new)>(
      f: A -> C, layer: Layer<A>, g: B -> C, out: Layer<B>, related: (A, B) -> bool)
    requires MapLayer(f, layer) == MapLayer(g, out) && |Parts(layer)| == |Parts(out)|
    requires forall i | 0 <= i < |Parts(layer)| :: related(Parts(layer)[i], Parts(out)[i])
    ensures Corresponds(layer, out, related)
  {
    match layer
    case Struct(_, _, _, fields) =>
      forall i | 0 <= i < |fields| ensures FieldRelated(fields[i], out.fields[i], related) {
        assert MapLayer(f, layer).fields[i] == MapLayer(g, out).fields[i];
        assert related(Parts(layer)[i], Parts(out)[i]);
      }
    case Enum(_, _, variants, _, _, _) =>
      forall i | 0 <= i < |variants| ensures VariantAlike(variants[i], out.variants[i]) {
        assert MapLayer(f, layer).variants[i] == MapLayer(g, out).variants[i];
      }
      var n := |VariantParts(variants)|;
      assert related(Parts(layer)[n], Parts(out)[n]);
      forall i | 0 <= i < n ensures related(VariantParts(variants)[i], VariantParts(out.variants)[i]) {
        assert related(Parts(layer)[i], Parts(out)[i]);
      }
      VariantsByParts(variants, out.variants, related);
    case Function(_, params, results) =>
      assert |MapLayer(f, layer).params| == |MapLayer(g, out).params|;
      forall i | 0 <= i < |params| ensures related(params[i], out.params[i]) {
        assert related(Parts(layer)[i], Parts(out)[i]);
      }
      forall i | 0 <= i < |results| ensures related(results[i], out.results[i]) {
        assert related(Parts(layer)[|params| + i], Parts(out)[|params| + i]);
      }
    case Leaf(_) =>
    case _ => assert related(Parts(layer)[0], Parts(out)[0]);
  }

  // --- Back references name an enclosing definition ---

  /** Every back reference is inside a definition of that name, or names one of `names`. */
  ghost predicate Enclosed(names: set<Option<string>>, tree: Tree)
    decreases tree
  {
    match tree
    case Full(layer) => LayerEnclosed(if layer.Aggregate() then names + {layer.Name()} else names, layer)
    case Back(name) => name in names
  }

  ghost predicate LayerEnclosed(names: set<Option<string>>, layer: Layer<Tree>)
    decreases layer
  {
    match layer
    case Leaf(_) => true
    case Ptr(_, pointee) => Enclosed(names, pointee)
    case Struct(_, _, _, fields) => forall i | 0 <= i < |fields| :: Enclosed(names, fields[i].ty)
    case Enum(_, discriminant, variants, _, _, _) =>
      && Enclosed(names, discriminant)
      && forall i | 0 <= i < |variants| && variants[i].value.Some? :: Enclosed(names, variants[i].value.value)
    case Array(ty, _) => Enclosed(names, ty)
    case List(element) => Enclosed(names, element)
    case Function(_, params, results) =>
      && (forall i | 0 <= i < |params| :: Enclosed(names, params[i]))
      && forall i | 0 <= i < |results| :: Enclosed(names, results[i])
  }

  ghost predicate NamesUnfolding(defs: Definitions, unfolding: seq<RecId>, names: set<Option<string>>) {
    forall id | id in unfolding :: id in defs && defs[id].Aggregate() && defs[id].Name() in names
  }

  lemma {:induction false} WrittenIsEnclosed(
      defs: Definitions, unfolding: seq<RecId>, t: Type, names: set<Option<string>>)
    requires Closed(defs, t) && NamesUnfolding(defs, unfolding, names) && Write(defs, unfolding, t).Ok?
    ensures Enclosed(names, Write(defs, unfolding, t).value)
    decreases defs.Keys - Elements(unfolding), t
  {
    match t
    case Plain(layer) =>
      LayerIsEnclosed(defs, unfolding, layer, if layer.Aggregate() then names + {layer.Name()} else names);
    case Rec(id) =>
      if id !in unfolding {
        assert id in defs.Keys - Elements(unfolding) && id !in defs.Keys - Elements(unfolding + [id]);
        LayerIsEnclosed(defs, unfolding + [id], defs[id], names + {defs[id].Name()});
      }
  }

  lemma {:induction false} LayerIsEnclosed(
      defs: Definitions, unfolding: seq<RecId>, layer: Layer<Type>, names: set<Option<string>>)
    requires ClosedLayer(defs, layer) && NamesUnfolding(defs, unfolding, names) && WriteLayer(defs, unfolding, layer).Ok?
    ensures LayerEnclosed(names, WriteLayer(defs, unfolding, layer).value)
    ensures layer.Aggregate() <==> WriteLayer(defs, unfolding, layer).value.Aggregate()
    ensures layer.Aggregate() ==> layer.Name() == WriteLayer(defs, unfolding, layer).value.Name()
    decreases defs.Keys - Elements(unfolding), layer
  {
    WrittenCorresponds(defs, unfolding, layer, {});
    var out := WriteLayer(defs, unfolding, layer).value;
    match layer
    case Leaf(_) =>
    case Ptr(_, pointee) => WrittenIsEnclosed(defs, unfolding, pointee, names);
    case Struct(_, _, _, fields) =>
      forall i | 0 <= i < |fields| ensures Enclosed(names, out.fields[i].ty) {
        assert FieldRelated(fields[i], out.fields[i], Written(defs, unfolding, {}));
        assert (layer decreases to fields[i].ty);
        WrittenIsEnclosed(defs, unfolding, fields[i].ty, names);
      }
    case Enum(_, discriminant, variants, _, _, _) =>
      WrittenIsEnclosed(defs, unfolding, discriminant, names);
      forall i | 0 <= i < |variants| && variants[i].value.Some? ensures Enclosed(names, out.variants[i].value.value) {
        assert VariantRelated(variants[i], out.variants[i], Written(defs, unfolding, {}));
        assert (layer decreases to variants[i].value.value);
        WrittenIsEnclosed(defs, unfolding, variants[i].value.value, names);
      }
    case Array(ty, _) => WrittenIsEnclosed(defs, unfolding, ty, names);
    case List(element) => WrittenIsEnclosed(defs, unfolding, element, names);
    case Function(_, params, results) =>
      forall i | 0 <= i < |params| ensures Enclosed(names, out.params[i]) {
        WrittenIsEnclosed(defs, unfolding, params[i], names);
      }
      forall i | 0 <= i < |results| ensures Enclosed(names, out.results[i]) {
        WrittenIsEnclosed(defs, unfolding, results[i], names);
      }
  }

  /** However types are named, a printed back reference has an enclosing definition of its name. */
  lemma BackReferencesAreEnclosed(defs: Definitions, t: Type)
    requires Closed(defs, t) && Write(defs, [], t).Ok?
    ensures Enclosed({}, Write(defs, [], t).value)
  {
    WrittenIsEnclosed(defs, [], t, {});
  }
}
