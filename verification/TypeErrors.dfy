/** When the type writer fails: exactly when something the type can unfold to has a discriminant over 64 bits. */
module TypeErrors {
  import opened Wrappers
  import opened Reachability
  import opened TypeWriting
  import opened TypeReading

  ghost predicate TooLarge(v: Variant<Type>) {
    v.discriminant.Some? && v.discriminant.value >= 0x1_0000_0000_0000_0000
  }

  ghost predicate HasTooLarge(layer: Layer<Type>) {
    layer.Enum? && exists i :: 0 <= i < |layer.variants| && TooLarge(layer.variants[i])
  }

  ghost function UnfoldsTo(defs: Definitions): (Type, Type) -> bool {
    (a: Type, b: Type) => Closed(defs, a) && b in Parts(Head(defs, a))
  }

  // --- A failure has a cause ---

  ghost predicate TypeFails(defs: Definitions, unfolding: seq<RecId>, c: Type, e: Error) {
    Closed(defs, c) && Write(defs, unfolding, c) == Err(e)
  }

  ghost predicate TypeFits(defs: Definitions, unfolding: seq<RecId>, c: Type) {
    Closed(defs, c) && Write(defs, unfolding, c).Ok?
  }

  /** A discriminant too large fails a variant before its value can. */
  ghost predicate VariantFails(defs: Definitions, unfolding: seq<RecId>, v: Variant<Type>, e: Error) {
    if TooLarge(v) then e == DiscriminantTooLarge(v.name) else v.value.Some? && TypeFails(defs, unfolding, v.value.value, e)
  }

  ghost predicate VariantFits(defs: Definitions, unfolding: seq<RecId>, v: Variant<Type>) {
    !TooLarge(v) && (v.value.Some? ==> TypeFits(defs, unfolding, v.value.value))
  }

  ghost predicate FieldsEndedBy(defs: Definitions, unfolding: seq<RecId>, fields: seq<Field<Type>>, i: nat, e: Error) {
    i < |fields| && TypeFails(defs, unfolding, fields[i].ty, e) && forall j | 0 <= j < i :: TypeFits(defs, unfolding, fields[j].ty)
  }

  ghost predicate VariantsEndedBy(defs: Definitions, unfolding: seq<RecId>, variants: seq<Variant<Type>>, i: nat, e: Error) {
    i < |variants| && VariantFails(defs, unfolding, variants[i], e) && forall j | 0 <= j < i :: VariantFits(defs, unfolding, variants[j])
  }

  ghost predicate TypesEndedBy(defs: Definitions, unfolding: seq<RecId>, types: seq<Type>, i: nat, e: Error) {
    i < |types| && TypeFails(defs, unfolding, types[i], e) && forall j | 0 <= j < i :: TypeFits(defs, unfolding, types[j])
  }

  /** The first part that fails, in the order they are written: an enum's variants before its discriminant's type, parameters before results. */
  ghost predicate EndedBy(defs: Definitions, unfolding: seq<RecId>, layer: Layer<Type>, e: Error) {
    match layer
    case Leaf(_) => false
    case Ptr(_, pointee) => TypeFails(defs, unfolding, pointee, e)
    case Struct(_, _, _, fields) => exists i: nat :: FieldsEndedBy(defs, unfolding, fields, i, e)
    case Enum(_, discriminant, variants, _, _, _) =>
      || (exists i: nat :: VariantsEndedBy(defs, unfolding, variants, i, e))
      || ((forall j | 0 <= j < |variants| :: VariantFits(defs, unfolding, variants[j])) && TypeFails(defs, unfolding, discriminant, e))
    case Array(ty, _) => TypeFails(defs, unfolding, ty, e)
    case List(element) => TypeFails(defs, unfolding, element, e)
    case Function(_, params, results) =>
      || (exists i: nat :: TypesEndedBy(defs, unfolding, params, i, e))
      || ((forall j | 0 <= j < |params| :: TypeFits(defs, unfolding, params[j])) &&
          exists i: nat :: TypesEndedBy(defs, unfolding, results, i, e))
  }

  lemma {:induction false} FieldsFail(defs: Definitions, unfolding: seq<RecId>, fields: seq<Field<Type>>, e: Error) returns (i: nat)
    requires DefinitionsOk(defs, {}) && forall k | 0 <= k < |fields| :: TypeOk(defs.Keys, {}, fields[k].ty)
    requires WriteFields(defs, unfolding, fields) == Err(e)
    ensures FieldsEndedBy(defs, unfolding, fields, i, e)
  {
    i := 0;
    if Write(defs, unfolding, fields[0].ty).Ok? {
      var k := FieldsFail(defs, unfolding, fields[1..], e);
      i := k + 1;
      forall j | 0 <= j < i ensures TypeFits(defs, unfolding, fields[j].ty) {
        assert j > 0 ==> fields[j] == fields[1..][j - 1];
      }
    }
  }

  lemma {:induction false} VariantsFail(defs: Definitions, unfolding: seq<RecId>, variants: seq<Variant<Type>>, e: Error) returns (i: nat)
    requires DefinitionsOk(defs, {})
    requires forall k | 0 <= k < |variants| && variants[k].value.Some? :: TypeOk(defs.Keys, {}, variants[k].value.value)
    requires WriteVariants(defs, unfolding, variants) == Err(e)
    ensures VariantsEndedBy(defs, unfolding, variants, i, e)
  {
    i := 0;
    if WriteVariant(defs, unfolding, variants[0]).Ok? {
      var k := VariantsFail(defs, unfolding, variants[1..], e);
      i := k + 1;
      forall j | 0 <= j < i ensures VariantFits(defs, unfolding, variants[j]) {
        assert j > 0 ==> variants[j] == variants[1..][j - 1];
      }
    }
  }

  lemma {:induction false} TypesFail(defs: Definitions, unfolding: seq<RecId>, types: seq<Type>, e: Error) returns (i: nat)
    requires DefinitionsOk(defs, {}) && forall k | 0 <= k < |types| :: TypeOk(defs.Keys, {}, types[k])
    requires WriteTypes(defs, unfolding, types) == Err(e)
    ensures TypesEndedBy(defs, unfolding, types, i, e)
  {
    i := 0;
    if Write(defs, unfolding, types[0]).Ok? {
      var k := TypesFail(defs, unfolding, types[1..], e);
      i := k + 1;
      forall j | 0 <= j < i ensures TypeFits(defs, unfolding, types[j]) {
        assert j > 0 ==> types[j] == types[1..][j - 1];
      }
    }
  }

  /** The first part that fails ends a level, with its error. */
  lemma FirstFailureEnds(defs: Definitions, unfolding: seq<RecId>, layer: Layer<Type>, e: Error)
    requires ClosedLayer(defs, layer) && WriteLayer(defs, unfolding, layer) == Err(e)
    ensures EndedBy(defs, unfolding, layer, e)
  {
    match layer
    case Struct(_, _, _, fields) => var i := FieldsFail(defs, unfolding, fields, e);
    case Enum(_, _, variants, _, _, _) =>
      if WriteVariants(defs, unfolding, variants).Err? {
        var i := VariantsFail(defs, unfolding, variants, e);
      } else {
        VariantsPointwise(defs, unfolding, variants);
      }
    case Function(_, params, results) =>
      if WriteTypes(defs, unfolding, params).Err? {
        var i := TypesFail(defs, unfolding, params, e);
      } else {
        TypesPointwise(defs, unfolding, params);
        var i := TypesFail(defs, unfolding, results, e);
      }
    case _ =>
  }

  /** The level's own variant with a discriminant too large, the first of them, is what failed it. */
  ghost predicate Named(layer: Layer<Type>, i: nat, e: Error) {
    && layer.Enum? && i < |layer.variants| && TooLarge(layer.variants[i]) && e == DiscriminantTooLarge(layer.variants[i].name)
    && forall j | 0 <= j < i :: !TooLarge(layer.variants[j])
  }

  ghost predicate PartFails(defs: Definitions, unfolding: seq<RecId>, layer: Layer<Type>, c: Type, e: Error) {
    c in Parts(layer) && TypeFails(defs, unfolding, c, e)
  }

  lemma FailureIsNamedOrInside(defs: Definitions, unfolding: seq<RecId>, layer: Layer<Type>, e: Error)
    requires EndedBy(defs, unfolding, layer, e)
    ensures (exists i: nat :: Named(layer, i, e)) || exists c :: PartFails(defs, unfolding, layer, c, e)
  {
    match layer
    case Ptr(_, pointee) => assert PartFails(defs, unfolding, layer, pointee, e);
    case Struct(_, _, _, fields) =>
      var i: nat :| FieldsEndedBy(defs, unfolding, fields, i, e);
      assert Parts(layer)[i] == fields[i].ty;
      assert PartFails(defs, unfolding, layer, fields[i].ty, e);
    case Enum(_, discriminant, variants, _, _, _) =>
      if i: nat :| VariantsEndedBy(defs, unfolding, variants, i, e) {
        if TooLarge(variants[i]) {
          assert Named(layer, i, e);
        } else {
          VariantPartsAre(variants, variants[i].value.value);
          assert PartFails(defs, unfolding, layer, variants[i].value.value, e);
        }
      } else {
        assert PartFails(defs, unfolding, layer, discriminant, e);
      }
    case Array(ty, _) => assert PartFails(defs, unfolding, layer, ty, e);
    case List(element) => assert PartFails(defs, unfolding, layer, element, e);
    case Function(_, params, results) =>
      if i: nat :| TypesEndedBy(defs, unfolding, params, i, e) {
        assert PartFails(defs, unfolding, layer, params[i], e);
      } else {
        var i: nat :| TypesEndedBy(defs, unfolding, results, i, e);
        assert PartFails(defs, unfolding, layer, results[i], e);
      }
  }

  /** What `t` can unfold to, `t` included, with a discriminant too large. */
  ghost predicate Offends(defs: Definitions, t: Type, c: Type) {
    Closed(defs, c) && Reaches(UnfoldsTo(defs), t, c) && HasTooLarge(Head(defs, c))
  }

  /** A failure, at any depth, names the first variant too large of an enum the type unfolds to. */
  lemma {:induction false} FailureHasCause(defs: Definitions, unfolding: seq<RecId>, t: Type, e: Error) returns (c: Type, i: nat)
    requires Closed(defs, t) && Write(defs, unfolding, t) == Err(e)
    ensures Offends(defs, t, c) && Named(Head(defs, c), i, e)
    decreases defs.Keys - Elements(unfolding), t
  {
    ReachesSelf(UnfoldsTo(defs), t);
    var inner := unfolding;
    if t.Rec? {
      inner := unfolding + [t.id];
      assert t.id in defs.Keys - Elements(unfolding) && t.id !in defs.Keys - Elements(inner);
    }
    var layer := Head(defs, t);
    FirstFailureEnds(defs, inner, layer, e);
    FailureIsNamedOrInside(defs, inner, layer, e);
    if k: nat :| Named(layer, k, e) {
      c, i := t, k;
    } else {
      var part :| PartFails(defs, inner, layer, part, e);
      PartsAreSmaller(layer);
      c, i := FailureHasCause(defs, inner, part, e);
      ReachesNext(UnfoldsTo(defs), t, t, part);
      ReachesOn(UnfoldsTo(defs), t, part, c);
    }
  }

  // --- A success had no cause to fail ---

  ghost predicate StackIsWritten(defs: Definitions, unfolding: seq<RecId>)
    requires DefinitionsOk(defs, {})
  {
    forall i | 0 <= i < |unfolding| :: unfolding[i] in defs && WriteLayer(defs, unfolding[..i + 1], defs[unfolding[i]]).Ok?
  }

  /** `c` was written in full somewhere, inside definitions that were too. */
  ghost predicate WasWritten(defs: Definitions, c: Type) {
    Closed(defs, c) && exists u :: StackIsWritten(defs, u) && WriteLayer(defs, u, Head(defs, c)).Ok?
  }

  lemma WrittenPart(defs: Definitions, unfolding: seq<RecId>, layer: Layer<Type>, c: Type)
    requires ClosedLayer(defs, layer) && WriteLayer(defs, unfolding, layer).Ok? && c in Parts(layer)
    ensures Closed(defs, c) && Write(defs, unfolding, c).Ok?
  {
    WrittenCorresponds(defs, unfolding, layer, {});
    PartsCorrespond(layer, WriteLayer(defs, unfolding, layer).value, Written(defs, unfolding, {}));
  }

  lemma WrittenOpensPart(defs: Definitions, unfolding: seq<RecId>, c: Type)
    requires Closed(defs, c) && StackIsWritten(defs, unfolding) && Write(defs, unfolding, c).Ok?
    ensures WasWritten(defs, c)
  {
    match c
    case Plain(layer) => assert WriteLayer(defs, unfolding, Head(defs, c)).Ok?;
    case Rec(id) =>
      if id in unfolding {
        var i :| 0 <= i < |unfolding| && unfolding[i] == id;
        var u := unfolding[..i + 1];
        forall j | 0 <= j < |u| ensures WriteLayer(defs, u[..j + 1], defs[u[j]]).Ok? {
          assert u[..j + 1] == unfolding[..j + 1];
        }
        assert StackIsWritten(defs, u) && WriteLayer(defs, u, Head(defs, c)).Ok?;
      } else {
        var u := unfolding + [id];
        forall j | 0 <= j < |u| ensures u[j] in defs && WriteLayer(defs, u[..j + 1], defs[u[j]]).Ok? {
          if j < |unfolding| { assert u[..j + 1] == unfolding[..j + 1]; } else { assert u[..j + 1] == u; }
        }
        assert StackIsWritten(defs, u) && WriteLayer(defs, u, Head(defs, c)).Ok?;
      }
  }

  lemma WrittenFits(defs: Definitions, unfolding: seq<RecId>, layer: Layer<Type>)
    requires ClosedLayer(defs, layer) && WriteLayer(defs, unfolding, layer).Ok?
    ensures !HasTooLarge(layer)
  {
    if layer.Enum? {
      VariantsPointwise(defs, unfolding, layer.variants);
      forall i | 0 <= i < |layer.variants| ensures !TooLarge(layer.variants[i]) {
        assert WriteVariant(defs, unfolding, layer.variants[i]).Ok?;
      }
    }
  }

  /** The writer fails exactly when something the type can unfold to has a discriminant too large. */
  lemma FailsExactlyOnLargeDiscriminants(defs: Definitions, t: Type)
    requires Closed(defs, t)
    ensures Write(defs, [], t).Err? <==> exists c :: Offends(defs, t, c)
  {
    if Write(defs, [], t).Err? {
      var c, i := FailureHasCause(defs, [], t, Write(defs, [], t).error);
    } else {
      var written := (c: Type) => WasWritten(defs, c);
      WrittenOpensPart(defs, [], t);
      forall a, b | written(a) && UnfoldsTo(defs)(a, b) ensures written(b) {
        var u :| StackIsWritten(defs, u) && WriteLayer(defs, u, Head(defs, a)).Ok?;
        WrittenPart(defs, u, Head(defs, a), b);
        WrittenOpensPart(defs, u, b);
      }
      forall c | Offends(defs, t, c) ensures false {
        Kept(UnfoldsTo(defs), written, t, c);
        var u :| StackIsWritten(defs, u) && WriteLayer(defs, u, Head(defs, c)).Ok?;
        WrittenFits(defs, u, Head(defs, c));
      }
    }
  }
}
