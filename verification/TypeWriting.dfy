/**
 Printing types that may contain themselves. A type is a level over its parts, or
 the id of a definition; while a definition is being printed its id is on a stack,
 and meeting it again there prints its name alone.
 */
module TypeWriting {
  import opened Wrappers

  datatype Primitive =
    | UnknownType | Never | Variadic | I1 | I8 | U8 | I16 | U16 | I32 | U32 | I64 | U64
    | I128 | U128 | U256 | F64 | Felt

  datatype AddressSpace = Byte | Element

  datatype Repr = DefaultRepr | Align(align: nat) | Packed(align: nat) | Transparent

  datatype CallConv = Fast | C | Wasm | ComponentModel | Extern(convention: string)

  datatype Field<+T> = Field(name: Option<string>, index: nat, align: nat, offset: nat, ty: T)

  datatype Variant<+T> = Variant(name: string, discriminant: Option<nat>, value: Option<T>)

  /** One level of a type, over whatever stands for its parts. */
  datatype Layer<+T> =
    | Leaf(primitive: Primitive)
    | Ptr(addrspace: AddressSpace, pointee: T)
    | Struct(structName: Option<string>, repr: Repr, size: nat, fields: seq<Field<T>>)
    | Enum(enumName: string, discriminant: T, variants: seq<Variant<T>>, offsets: seq<nat>, size: nat, align: nat)
    | Array(ty: T, len: nat)
    | List(element: T)
    | Function(abi: CallConv, params: seq<T>, results: seq<T>)
  {
    predicate Aggregate() {
      Struct? || Enum?
    }

    /** The name a back reference to this definition carries; a struct may have none. */
    function Name(): Option<string>
      requires Aggregate()
    {
      if Struct? then structName else Some(enumName)
    }
  }

  type RecId = nat

  /** A type: a level written in place, or a reference that unfolds to one. */
  datatype Type = Plain(layer: Layer<Type>) | Rec(id: RecId)

  /** What is printed: a level in full, or the name of an enclosing definition. */
  datatype Tree = Full(layer: Layer<Tree>) | Back(name: Option<string>)

  datatype Error = DiscriminantTooLarge(variant: string)

  const U64_MAX: nat := 0xFFFF_FFFF_FFFF_FFFF

  /** The definitions references unfold to; there are finitely many, and they may be cyclic. */
  type Definitions = map<RecId, Layer<Type>>

  /** Every reference has a definition, and every aggregate in place a name not in `reserved`. */
  ghost predicate TypeOk(ids: set<RecId>, reserved: set<Option<string>>, t: Type) {
    match t
    case Plain(layer) =>
      && LayerOk(ids, reserved, layer)
      && (layer.Struct? ==> layer.structName !in reserved)
      && (layer.Enum? ==> Some(layer.enumName) !in reserved)
    case Rec(id) => id in ids
  }

  ghost predicate LayerOk(ids: set<RecId>, reserved: set<Option<string>>, layer: Layer<Type>) {
    match layer
    case Leaf(_) => true
    case Ptr(_, pointee) => TypeOk(ids, reserved, pointee)
    case Struct(_, _, _, fields) => forall i | 0 <= i < |fields| :: TypeOk(ids, reserved, fields[i].ty)
    case Enum(_, discriminant, variants, _, _, _) =>
      && TypeOk(ids, reserved, discriminant)
      && forall i | 0 <= i < |variants| && variants[i].value.Some? :: TypeOk(ids, reserved, variants[i].value.value)
    case Array(ty, _) => TypeOk(ids, reserved, ty)
    case List(element) => TypeOk(ids, reserved, element)
    case Function(_, params, results) =>
      && (forall i | 0 <= i < |params| :: TypeOk(ids, reserved, params[i]))
      && forall i | 0 <= i < |results| :: TypeOk(ids, reserved, results[i])
  }

  ghost predicate DefinitionsOk(defs: Definitions, reserved: set<Option<string>>) {
    forall id | id in defs :: defs[id].Aggregate() && LayerOk(defs.Keys, reserved, defs[id])
  }

  ghost predicate Closed(defs: Definitions, t: Type) {
    DefinitionsOk(defs, {}) && TypeOk(defs.Keys, {}, t)
  }

  ghost predicate ClosedLayer(defs: Definitions, layer: Layer<Type>) {
    DefinitionsOk(defs, {}) && LayerOk(defs.Keys, {}, layer)
  }

  ghost function Elements(ids: seq<RecId>): set<RecId> {
    set id | id in ids
  }

  // --- What is written ---

  /**
   What is written for `t` while the definitions in `unfolding` are being
   written. It ends because each reference followed leaves one definition fewer
   to follow, and in between the type gets smaller.
   */
  ghost function Write(defs: Definitions, unfolding: seq<RecId>, t: Type): Result<Tree, Error>
    requires Closed(defs, t)
    decreases defs.Keys - Elements(unfolding), t
  {
    match t
    case Plain(layer) =>
      (match WriteLayer(defs, unfolding, layer)
       case Ok(out) => Ok(Full(out))
       case Err(e) => Err(e))
    case Rec(id) =>
      if id in unfolding then Ok(Back(defs[id].Name()))
      else
        assert id in defs.Keys - Elements(unfolding) && id !in defs.Keys - Elements(unfolding + [id]);
        match WriteLayer(defs, unfolding + [id], defs[id])
        case Ok(out) => Ok(Full(out))
        case Err(e) => Err(e)
  }

  /**
   Inside its own definition a reference is written as the definition's name
   alone: a struct's, which it may lack, or an enum's.
   */
  lemma BackCarriesName(defs: Definitions, unfolding: seq<RecId>, id: RecId)
    requires Closed(defs, Rec(id)) && id in unfolding
    ensures defs[id].Struct? ==> Write(defs, unfolding, Rec(id)) == Ok(Back(defs[id].structName))
    ensures defs[id].Enum? ==> Write(defs, unfolding, Rec(id)) == Ok(Back(Some(defs[id].enumName)))
  {}

  ghost function WriteLayer(defs: Definitions, unfolding: seq<RecId>, layer: Layer<Type>): Result<Layer<Tree>, Error>
    requires ClosedLayer(defs, layer)
    decreases defs.Keys - Elements(unfolding), layer
  {
    match layer
    case Leaf(primitive) => Ok(Leaf(primitive))
    case Ptr(addrspace, pointee) =>
      (match Write(defs, unfolding, pointee)
       case Ok(out) => Ok(Ptr(addrspace, out))
       case Err(e) => Err(e))
    case Struct(name, repr, size, fields) =>
      (match WriteFields(defs, unfolding, fields)
       case Ok(out) => Ok(Struct(name, repr, size, out))
       case Err(e) => Err(e))
    case Enum(name, discriminant, variants, offsets, size, align) =>
      (match WriteVariants(defs, unfolding, variants)
       case Ok(out) =>
         (match Write(defs, unfolding, discriminant)
          case Ok(written) => Ok(Enum(name, written, out, offsets, size, align))
          case Err(e) => Err(e))
       case Err(e) => Err(e))
    case Array(ty, len) =>
      (match Write(defs, unfolding, ty)
       case Ok(out) => Ok(Array(out, len))
       case Err(e) => Err(e))
    case List(element) =>
      (match Write(defs, unfolding, element)
       case Ok(out) => Ok(List(out))
       case Err(e) => Err(e))
    case Function(abi, params, results) =>
      (match WriteTypes(defs, unfolding, params)
       case Ok(ins) =>
         (match WriteTypes(defs, unfolding, results)
          case Ok(outs) => Ok(Function(abi, ins, outs))
          case Err(e) => Err(e))
       case Err(e) => Err(e))
  }

  ghost function WriteField(defs: Definitions, unfolding: seq<RecId>, f: Field<Type>): Result<Field<Tree>, Error>
    requires DefinitionsOk(defs, {}) && TypeOk(defs.Keys, {}, f.ty)
    decreases defs.Keys - Elements(unfolding), f
  {
    match Write(defs, unfolding, f.ty)
    case Err(e) => Err(e)
    case Ok(out) => Ok(Field(f.name, f.index, f.align, f.offset, out))
  }

  ghost function WriteFields(defs: Definitions, unfolding: seq<RecId>, fields: seq<Field<Type>>): Result<seq<Field<Tree>>, Error>
    requires DefinitionsOk(defs, {}) && forall i | 0 <= i < |fields| :: TypeOk(defs.Keys, {}, fields[i].ty)
    decreases defs.Keys - Elements(unfolding), fields
  {
    if fields == [] then Ok([])
    else match WriteField(defs, unfolding, fields[0])
      case Err(e) => Err(e)
      case Ok(out) => Prefixed([out], WriteFields(defs, unfolding, fields[1..]))
  }

  ghost function WriteVariant(defs: Definitions, unfolding: seq<RecId>, v: Variant<Type>): Result<Variant<Tree>, Error>
    requires DefinitionsOk(defs, {}) && (v.value.Some? ==> TypeOk(defs.Keys, {}, v.value.value))
    decreases defs.Keys - Elements(unfolding), v
  {
    if v.discriminant.Some? && v.discriminant.value > U64_MAX then Err(DiscriminantTooLarge(v.name))
    else match v.value
      case None => Ok(Variant(v.name, v.discriminant, None))
      case Some(value) =>
        match Write(defs, unfolding, value)
        case Err(e) => Err(e)
        case Ok(out) => Ok(Variant(v.name, v.discriminant, Some(out)))
  }

  ghost function WriteVariants(defs: Definitions, unfolding: seq<RecId>, variants: seq<Variant<Type>>): Result<seq<Variant<Tree>>, Error>
    requires DefinitionsOk(defs, {})
    requires forall i | 0 <= i < |variants| && variants[i].value.Some? :: TypeOk(defs.Keys, {}, variants[i].value.value)
    decreases defs.Keys - Elements(unfolding), variants
  {
    if variants == [] then Ok([])
    else match WriteVariant(defs, unfolding, variants[0])
      case Err(e) => Err(e)
      case Ok(out) => Prefixed([out], WriteVariants(defs, unfolding, variants[1..]))
  }

  ghost function WriteTypes(defs: Definitions, unfolding: seq<RecId>, types: seq<Type>): Result<seq<Tree>, Error>
    requires DefinitionsOk(defs, {}) && forall i | 0 <= i < |types| :: TypeOk(defs.Keys, {}, types[i])
    decreases defs.Keys - Elements(unfolding), types
  {
    if types == [] then Ok([])
    else match Write(defs, unfolding, types[0])
      case Err(e) => Err(e)
      case Ok(out) => Prefixed([out], WriteTypes(defs, unfolding, types[1..]))
  }

  ghost function Prefixed<T>(done: seq<T>, rest: Result<seq<T>, Error>): Result<seq<T>, Error> {
    match rest
    case Ok(more) => Ok(done + more)
    case Err(e) => Err(e)
  }

  // --- The writer ---

  lemma PrefixedTwice<T>(a: seq<T>, b: seq<T>, rest: Result<seq<T>, Error>)
    ensures Prefixed(a, Prefixed(b, rest)) == Prefixed(a + b, rest)
  {
    if rest.Ok? { assert a + (b + rest.value) == a + b + rest.value; }
  }

  lemma PrefixedNone<T>(r: Result<seq<T>, Error>, done: seq<T>)
    ensures Prefixed([], r) == r && Prefixed(done, Ok([])) == Ok(done)
  {
    if r.Ok? { assert [] + r.value == r.value; }
    assert done + [] == done;
  }

  class TypeWriter {
    var unfolding: seq<RecId>

    constructor ()
      ensures unfolding == []
    {
      unfolding := [];
    }

    /** Writes `t`, and leaves the stack as it found it whether or not it fails. */
    method Ty(defs: Definitions, t: Type) returns (r: Result<Tree, Error>)
      requires Closed(defs, t)
      modifies this
      ensures unfolding == old(unfolding)
      ensures r == Write(defs, unfolding, t)
      ensures t.Rec? && t.id in unfolding ==>
        r == Ok(Back(match defs[t.id] case Struct(name, _, _, _) => name case Enum(name, _, _, _, _, _) => Some(name) case _ => None))
      decreases defs.Keys - Elements(unfolding), t
    {
      match t {
        case Plain(layer) =>
          var value := Aggregate(defs, layer);
          match value {
            case Ok(out) => r := Ok(Full(out));
            case Err(e) => r := Err(e);
          }
        case Rec(id) =>
          if id in unfolding {
            r := Ok(Back(defs[id].Name()));
          } else {
            ghost var before := unfolding;
            assert id in defs.Keys - Elements(unfolding) && id !in defs.Keys - Elements(unfolding + [id]);
            unfolding := unfolding + [id];
            var value := Aggregate(defs, defs[id]);
            unfolding := unfolding[..|unfolding| - 1];
            assert unfolding == before;
            match value {
              case Ok(out) => r := Ok(Full(out));
              case Err(e) => r := Err(e);
            }
          }
      }
    }

    /** Writes one level: the cases of `ty` that are not references, and `aggregate`. */
    method Aggregate(defs: Definitions, layer: Layer<Type>) returns (r: Result<Layer<Tree>, Error>)
      requires ClosedLayer(defs, layer)
      modifies this
      ensures unfolding == old(unfolding)
      ensures r == WriteLayer(defs, unfolding, layer)
      decreases defs.Keys - Elements(unfolding), layer
    {
      match layer {
        case Leaf(primitive) => r := Ok(Leaf(primitive));
        case Ptr(addrspace, pointee) =>
          var out := Ty(defs, pointee);
          r := if out.Ok? then Ok(Ptr(addrspace, out.value)) else Err(out.error);
        case Struct(name, repr, size, fields) =>
          var out := Fields(defs, fields);
          r := if out.Ok? then Ok(Struct(name, repr, size, out.value)) else Err(out.error);
        case Enum(name, discriminant, variants, offsets, size, align) =>
          var out := Variants(defs, variants);
          if out.Err? { return Err(out.error); }
          var written := Ty(defs, discriminant);
          r := if written.Ok? then Ok(Enum(name, written.value, out.value, offsets, size, align)) else Err(written.error);
        case Array(ty, len) =>
          var out := Ty(defs, ty);
          r := if out.Ok? then Ok(Array(out.value, len)) else Err(out.error);
        case List(element) =>
          var out := Ty(defs, element);
          r := if out.Ok? then Ok(List(out.value)) else Err(out.error);
        case Function(abi, params, results) =>
          var ins := Types(defs, params);
          if ins.Err? { return Err(ins.error); }
          var outs := Types(defs, results);
          r := if outs.Ok? then Ok(Function(abi, ins.value, outs.value)) else Err(outs.error);
      }
    }

    method Fields(defs: Definitions, fields: seq<Field<Type>>) returns (r: Result<seq<Field<Tree>>, Error>)
      requires DefinitionsOk(defs, {}) && forall i | 0 <= i < |fields| :: TypeOk(defs.Keys, {}, fields[i].ty)
      modifies this
      ensures unfolding == old(unfolding)
      ensures r == WriteFields(defs, unfolding, fields)
      decreases defs.Keys - Elements(unfolding), fields
    {
      var done: seq<Field<Tree>> := [];
      assert fields[0..] == fields;
      PrefixedNone(WriteFields(defs, unfolding, fields), done);
      for i := 0 to |fields|
        invariant unfolding == old(unfolding)
        invariant WriteFields(defs, unfolding, fields) == Prefixed(done, WriteFields(defs, unfolding, fields[i..]))
      {
        var field := fields[i];
        assert (fields decreases to field) && (field decreases to field.ty);
        var out := Ty(defs, field.ty);
        assert fields[i..][1..] == fields[i + 1..];
        if out.Err? { return Err(out.error); }
        var written := Field(field.name, field.index, field.align, field.offset, out.value);
        PrefixedTwice(done, [written], WriteFields(defs, unfolding, fields[i + 1..]));
        done := done + [written];
      }
      PrefixedNone(WriteFields(defs, unfolding, fields), done);
      r := Ok(done);
    }

    method Variants(defs: Definitions, variants: seq<Variant<Type>>) returns (r: Result<seq<Variant<Tree>>, Error>)
      requires DefinitionsOk(defs, {})
      requires forall i | 0 <= i < |variants| && variants[i].value.Some? :: TypeOk(defs.Keys, {}, variants[i].value.value)
      modifies this
      ensures unfolding == old(unfolding)
      ensures r == WriteVariants(defs, unfolding, variants)
      decreases defs.Keys - Elements(unfolding), variants
    {
      var done: seq<Variant<Tree>> := [];
      assert variants[0..] == variants;
      PrefixedNone(WriteVariants(defs, unfolding, variants), done);
      for i := 0 to |variants|
        invariant unfolding == old(unfolding)
        invariant WriteVariants(defs, unfolding, variants) == Prefixed(done, WriteVariants(defs, unfolding, variants[i..]))
      {
        var v := variants[i];
        assert (variants decreases to v) && (v.value.Some? ==> (v decreases to v.value.value));
        assert variants[i..][1..] == variants[i + 1..];
        if v.discriminant.Some? && v.discriminant.value > U64_MAX {
          return Err(DiscriminantTooLarge(v.name));
        }
        var written := Variant(v.name, v.discriminant, None);
        if v.value.Some? {
          var out := Ty(defs, v.value.value);
          if out.Err? { return Err(out.error); }
          written := Variant(v.name, v.discriminant, Some(out.value));
        }
        PrefixedTwice(done, [written], WriteVariants(defs, unfolding, variants[i + 1..]));
        done := done + [written];
      }
      PrefixedNone(WriteVariants(defs, unfolding, variants), done);
      r := Ok(done);
    }

    method Types(defs: Definitions, types: seq<Type>) returns (r: Result<seq<Tree>, Error>)
      requires DefinitionsOk(defs, {}) && forall i | 0 <= i < |types| :: TypeOk(defs.Keys, {}, types[i])
      modifies this
      ensures unfolding == old(unfolding)
      ensures r == WriteTypes(defs, unfolding, types)
      decreases defs.Keys - Elements(unfolding), types
    {
      var done: seq<Tree> := [];
      assert types[0..] == types;
      PrefixedNone(WriteTypes(defs, unfolding, types), done);
      for i := 0 to |types|
        invariant unfolding == old(unfolding)
        invariant WriteTypes(defs, unfolding, types) == Prefixed(done, WriteTypes(defs, unfolding, types[i..]))
      {
        var out := Ty(defs, types[i]);
        assert types[i..][1..] == types[i + 1..];
        if out.Err? { return Err(out.error); }
        PrefixedTwice(done, [out.value], WriteTypes(defs, unfolding, types[i + 1..]));
        done := done + [out.value];
      }
      PrefixedNone(WriteTypes(defs, unfolding, types), done);
      r := Ok(done);
    }
  }
}
