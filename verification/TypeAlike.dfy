/**
 Whether two types unfold alike can be told: by a relation between types that is
 kept from level to level, and by unfolding them to a depth that depends only on how
 many types there are inside them.
 */
module TypeAlike {
  import opened TypeWriting
  import opened TypeReading
  import opened TypeMeaning

  // --- Without depths ---

  /** Types related here have the same level, with parts related here. */
  ghost predicate Bisimulation(defs: Definitions, related: (Type, Type) -> bool) {
    forall a, b | related(a, b) :: Closed(defs, a) && Closed(defs, b) && Corresponds(Head(defs, a), Head(defs, b), related)
  }

  lemma {:induction false} BisimilarUnfold(defs: Definitions, related: (Type, Type) -> bool, a: Type, b: Type, depth: nat)
    requires Bisimulation(defs, related) && related(a, b)
    ensures UnfoldType(defs, a, depth) == UnfoldType(defs, b, depth)
    decreases depth
  {
    if depth > 0 {
      var f := (c: Type) => UnfoldType(defs, c, depth - 1);
      forall c, d | related(c, d) ensures f(c) == f(d) { BisimilarUnfold(defs, related, c, d, depth - 1); }
      CorrespondingMapsAgree(Head(defs, a), Head(defs, b), related, f, f);
    }
  }

  ghost function AlikeHere(defs: Definitions): (Type, Type) -> bool {
    (a: Type, b: Type) => Closed(defs, a) && Closed(defs, b) && Alike(defs, a, b)
  }

  lemma AlikeHeads(defs: Definitions, a: Type, b: Type, depth: nat)
    requires Closed(defs, a) && Closed(defs, b) && Alike(defs, a, b)
    ensures MapLayer((c: Type) => UnfoldType(defs, c, depth), Head(defs, a)) == MapLayer((c: Type) => UnfoldType(defs, c, depth), Head(defs, b))
  {
    assert UnfoldType(defs, a, depth + 1) == UnfoldType(defs, b, depth + 1);
  }

  lemma AlikeIsABisimulation(defs: Definitions)
    ensures Bisimulation(defs, AlikeHere(defs))
  {
    forall a, b | AlikeHere(defs)(a, b) ensures Corresponds(Head(defs, a), Head(defs, b), AlikeHere(defs)) {
      var f := (c: Type) => UnfoldType(defs, c, 0);
      var ps, qs := Parts(Head(defs, a)), Parts(Head(defs, b));
      AlikeHeads(defs, a, b, 0);
      PartsMapAlike(f, Head(defs, a), f, Head(defs, b));
      PartsAreClosed(defs, Head(defs, a));
      PartsAreClosed(defs, Head(defs, b));
      forall i | 0 <= i < |ps| ensures AlikeHere(defs)(ps[i], qs[i]) {
        assert ps[i] in ps && qs[i] in qs;
        forall depth: nat ensures UnfoldType(defs, ps[i], depth) == UnfoldType(defs, qs[i], depth) {
          AlikeHeads(defs, a, b, depth);
          PartsMapAlike((c: Type) => UnfoldType(defs, c, depth), Head(defs, a), (c: Type) => UnfoldType(defs, c, depth), Head(defs, b));
        }
      }
      CorrespondByParts(f, Head(defs, a), f, Head(defs, b), AlikeHere(defs));
    }
  }

  /** Types unfold alike exactly when some relation between types, kept from level to level, holds of them. */
  lemma AlikeExactly(defs: Definitions, a: Type, b: Type)
    requires Closed(defs, a) && Closed(defs, b)
    ensures Alike(defs, a, b) <==> exists related :: Bisimulation(defs, related) && related(a, b)
  {
    if Alike(defs, a, b) {
      AlikeIsABisimulation(defs);
      assert AlikeHere(defs)(a, b);
    }
    if related :| Bisimulation(defs, related) && related(a, b) {
      forall depth: nat ensures UnfoldType(defs, a, depth) == UnfoldType(defs, b, depth) {
        BisimilarUnfold(defs, related, a, b, depth);
      }
    }
  }

  // --- To one depth ---

  /** Types with all the parts of their levels. */
  ghost predicate Complete(defs: Definitions, types: set<Type>) {
    forall t | t in types :: Closed(defs, t) && forall c | c in Parts(Head(defs, t)) :: c in types
  }

  ghost function Pairs(types: set<Type>): set<(Type, Type)> {
    set a, b | a in types && b in types :: (a, b)
  }

  /** The pairs that unfold alike to a depth. */
  ghost function AlikeTo(defs: Definitions, types: set<Type>, depth: nat): set<(Type, Type)> {
    set a, b | a in types && b in types && UnfoldType(defs, a, depth) == UnfoldType(defs, b, depth) :: (a, b)
  }

  ghost function At(defs: Definitions, depth: nat): Type -> Shape {
    (c: Type) => UnfoldType(defs, c, depth)
  }

  lemma LevelsAt(defs: Definitions, a: Type, b: Type, depth: nat)
    requires Closed(defs, a) && Closed(defs, b)
    ensures UnfoldType(defs, a, depth + 1) == UnfoldType(defs, b, depth + 1)
       <==> MapLayer(At(defs, depth), Head(defs, a)) == MapLayer(At(defs, depth), Head(defs, b))
  {
    LevelAt(defs, a, depth);
    LevelAt(defs, b, depth);
  }

  lemma LevelAt(defs: Definitions, t: Type, depth: nat)
    requires Closed(defs, t)
    ensures UnfoldType(defs, t, depth + 1) == Shape(MapLayer(At(defs, depth), Head(defs, t)))
  {
    var f := (c: Type) => UnfoldType(defs, c, depth);
    CorrespondsToItself(Head(defs, t));
    CorrespondingMapsAgree(Head(defs, t), Head(defs, t), (a: Type, b: Type) => a == b, f, At(defs, depth));
  }

  lemma CorrespondsToItself(layer: Layer<Type>)
    ensures Corresponds(layer, layer, (a: Type, b: Type) => a == b)
  {}

  ghost function ClosedAlike(defs: Definitions, depth: nat): (Type, Type) -> bool {
    (a: Type, b: Type) => Closed(defs, a) && Closed(defs, b) && UnfoldType(defs, a, depth) == UnfoldType(defs, b, depth)
  }

  /** Types alike to some depth have levels whose parts are alike to one less. */
  lemma PartsAlike(defs: Definitions, a: Type, b: Type, depth: nat)
    requires ClosedAlike(defs, depth + 1)(a, b)
    ensures |Parts(Head(defs, a))| == |Parts(Head(defs, b))|
    ensures forall i | 0 <= i < |Parts(Head(defs, a))| :: ClosedAlike(defs, depth)(Parts(Head(defs, a))[i], Parts(Head(defs, b))[i])
    ensures Corresponds(Head(defs, a), Head(defs, b), ClosedAlike(defs, depth))
  {
    var f := At(defs, depth);
    LevelsAt(defs, a, b, depth);
    PartsMapAlike(f, Head(defs, a), f, Head(defs, b));
    PartsAreClosed(defs, Head(defs, a));
    PartsAreClosed(defs, Head(defs, b));
    forall i | 0 <= i < |Parts(Head(defs, a))|
      ensures ClosedAlike(defs, depth)(Parts(Head(defs, a))[i], Parts(Head(defs, b))[i])
    {
      assert Parts(Head(defs, a))[i] in Parts(Head(defs, a)) && Parts(Head(defs, b))[i] in Parts(Head(defs, b));
      assert f(Parts(Head(defs, a))[i]) == f(Parts(Head(defs, b))[i]);
    }
    CorrespondByParts(f, Head(defs, a), f, Head(defs, b), ClosedAlike(defs, depth));
  }

  /** Types alike to some depth are alike to any less. */
  lemma {:induction false} AlikeToLess(defs: Definitions, a: Type, b: Type, depth: nat)
    requires ClosedAlike(defs, depth + 1)(a, b)
    ensures ClosedAlike(defs, depth)(a, b)
    decreases depth
  {
    if depth > 0 {
      PartsAlike(defs, a, b, depth);
      var f := At(defs, depth - 1);
      forall c, d | ClosedAlike(defs, depth)(c, d) ensures f(c) == f(d) { AlikeToLess(defs, c, d, depth - 1); }
      CorrespondingMapsAgree(Head(defs, a), Head(defs, b), ClosedAlike(defs, depth), f, f);
      LevelsAt(defs, a, b, depth - 1);
    }
  }

  lemma {:induction false} AlikeToAnyLess(defs: Definitions, a: Type, b: Type, depth: nat, less: nat)
    requires ClosedAlike(defs, depth)(a, b) && less <= depth
    ensures ClosedAlike(defs, less)(a, b)
  {
    if less < depth {
      AlikeToLess(defs, a, b, depth - 1);
      AlikeToAnyLess(defs, a, b, depth - 1, less);
    }
  }

  /** Once one more level tells no two types apart, none ever does. */
  lemma StableIsABisimulation(defs: Definitions, types: set<Type>, depth: nat)
    requires Complete(defs, types) && AlikeTo(defs, types, depth) == AlikeTo(defs, types, depth + 1)
    ensures Bisimulation(defs, (a: Type, b: Type) => (a, b) in AlikeTo(defs, types, depth))
  {
    var related := (a: Type, b: Type) => (a, b) in AlikeTo(defs, types, depth);
    forall a, b | related(a, b) ensures Closed(defs, a) && Closed(defs, b) && Corresponds(Head(defs, a), Head(defs, b), related) {
      assert (a, b) in AlikeTo(defs, types, depth + 1);
      PartsAlike(defs, a, b, depth);
      LevelsAt(defs, a, b, depth);
      forall i | 0 <= i < |Parts(Head(defs, a))| ensures related(Parts(Head(defs, a))[i], Parts(Head(defs, b))[i]) {
        assert ClosedAlike(defs, depth)(Parts(Head(defs, a))[i], Parts(Head(defs, b))[i]);
        assert Parts(Head(defs, a))[i] in Parts(Head(defs, a)) && Parts(Head(defs, b))[i] in Parts(Head(defs, b));
      }
      CorrespondByParts(At(defs, depth), Head(defs, a), At(defs, depth), Head(defs, b), related);
    }
  }

  lemma AlikeToShrinks(defs: Definitions, types: set<Type>, depth: nat)
    requires Complete(defs, types)
    ensures AlikeTo(defs, types, depth + 1) <= AlikeTo(defs, types, depth)
  {
    forall a, b | (a, b) in AlikeTo(defs, types, depth + 1) ensures (a, b) in AlikeTo(defs, types, depth) {
      AlikeToLess(defs, a, b, depth);
    }
  }

  lemma StrictlyFewer<T>(a: set<T>, b: set<T>)
    requires a <= b && a != b
    ensures |a| < |b|
  {
    assert b == a + (b - a);
  }

  /** Finite sets that only shrink stop shrinking before they could be empty. */
  lemma {:induction false} ShrinkingStops<T>(sets: nat -> set<T>, from: nat) returns (stable: nat)
    requires forall n: nat :: sets(n + 1) <= sets(n)
    ensures sets(stable) == sets(stable + 1) && stable <= from + |sets(from)|
    decreases |sets(from)|
  {
    if sets(from) == sets(from + 1) {
      stable := from;
    } else {
      StrictlyFewer(sets(from + 1), sets(from));
      stable := ShrinkingStops(sets, from + 1);
    }
  }

  ghost function AlikeSets(defs: Definitions, types: set<Type>): nat -> set<(Type, Type)> {
    (depth: nat) => AlikeTo(defs, types, depth)
  }

  lemma AlikeSetsShrink(defs: Definitions, types: set<Type>)
    requires Complete(defs, types)
    ensures forall n: nat :: AlikeSets(defs, types)(n + 1) <= AlikeSets(defs, types)(n)
  {
    forall n: nat ensures AlikeSets(defs, types)(n + 1) <= AlikeSets(defs, types)(n) { AlikeToShrinks(defs, types, n); }
  }

  lemma StableDepth(defs: Definitions, types: set<Type>) returns (stable: nat)
    requires Complete(defs, types)
    ensures AlikeTo(defs, types, stable) == AlikeTo(defs, types, stable + 1) && stable <= |Pairs(types)|
  {
    AlikeSetsShrink(defs, types);
    stable := ShrinkingStops(AlikeSets(defs, types), 0);
    AllAlikeAtNone(defs, types);
  }

  lemma AllAlikeAtNone(defs: Definitions, types: set<Type>)
    ensures AlikeTo(defs, types, 0) == Pairs(types)
  {}

  lemma StableTells(defs: Definitions, types: set<Type>, a: Type, b: Type, stable: nat)
    requires Complete(defs, types) && (a, b) in AlikeTo(defs, types, stable)
    requires AlikeTo(defs, types, stable) == AlikeTo(defs, types, stable + 1)
    ensures Alike(defs, a, b)
  {
    var related := (x: Type, y: Type) => (x, y) in AlikeTo(defs, types, stable);
    StableIsABisimulation(defs, types, stable);
    assert Bisimulation(defs, related) && related(a, b);
    AlikeExactly(defs, a, b);
  }

  /** Unfolding to as many levels as there are pairs of types tells whether two unfold alike to every depth. */
  lemma AlikeByDepth(defs: Definitions, types: set<Type>, a: Type, b: Type)
    requires Complete(defs, types) && a in types && b in types
    ensures Alike(defs, a, b) <==> UnfoldType(defs, a, |Pairs(types)|) == UnfoldType(defs, b, |Pairs(types)|)
  {
    if UnfoldType(defs, a, |Pairs(types)|) == UnfoldType(defs, b, |Pairs(types)|) {
      var stable := StableDepth(defs, types);
      AlikeToAnyLess(defs, a, b, |Pairs(types)|, stable);
      StableTells(defs, types, a, b, stable);
    }
  }

  // --- There are finitely many types inside a type ---

  /** The types written in place in a type, itself included. */
  ghost function Within(t: Type): set<Type>
    decreases t
  {
    match t
    case Rec(_) => {t}
    case Plain(layer) =>
      PartsAreSmaller(layer);
      {t} + set c, s | c in Parts(layer) && s in Within(c) :: s
  }

  lemma {:induction false} WithinIsClosed(defs: Definitions, t: Type, s: Type)
    requires Closed(defs, t) && s in Within(t)
    ensures Closed(defs, s) && (s.Plain? ==> forall c | c in Parts(s.layer) :: c in Within(t))
    decreases t
  {
    if s == t {
      if t.Plain? {
        forall c | c in Parts(t.layer) ensures c in Within(t) { assert c in Within(c); }
      }
    } else {
      PartsAreSmaller(t.layer);
      PartsAreClosed(defs, t.layer);
      var c :| c in Parts(t.layer) && s in Within(c);
      WithinIsClosed(defs, c, s);
    }
  }

  /** Everything two types can unfold to. */
  ghost function Universe(defs: Definitions, a: Type, b: Type): set<Type> {
    Within(a) + Within(b) + set id, c, s | id in defs && c in Parts(defs[id]) && s in Within(c) :: s
  }

  lemma UniverseIsComplete(defs: Definitions, a: Type, b: Type)
    requires Closed(defs, a) && Closed(defs, b)
    ensures Complete(defs, Universe(defs, a, b)) && a in Universe(defs, a, b) && b in Universe(defs, a, b)
  {
    forall t | t in Universe(defs, a, b)
      ensures Closed(defs, t) && forall c | c in Parts(Head(defs, t)) :: c in Universe(defs, a, b)
    {
      if t in Within(a) {
        WithinIsClosed(defs, a, t);
      } else if t in Within(b) {
        WithinIsClosed(defs, b, t);
      } else {
        var id, c :| id in defs && c in Parts(defs[id]) && t in Within(c);
        PartsAreClosed(defs, defs[id]);
        WithinIsClosed(defs, c, t);
      }
      if t.Rec? {
        forall c | c in Parts(defs[t.id]) ensures c in Universe(defs, a, b) { assert c in Within(c); }
      }
    }
  }

  /** So whether two types unfold alike is told at one depth, which their definitions give. */
  lemma AlikeIsDecided(defs: Definitions, a: Type, b: Type)
    requires Closed(defs, a) && Closed(defs, b)
    ensures var depth := |Pairs(Universe(defs, a, b))|;
            Alike(defs, a, b) <==> UnfoldType(defs, a, depth) == UnfoldType(defs, b, depth)
  {
    UniverseIsComplete(defs, a, b);
    AlikeByDepth(defs, Universe(defs, a, b), a, b);
  }
}
