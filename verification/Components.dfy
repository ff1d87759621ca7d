/**
 What an account's procedures are accounted for by: the standard components claimed
 from them, the verified packages' procedures, and the viewer's count of both.
 */
module Components {
  import opened Wrappers

  /** A procedure's digest. */
  type Root = nat

  datatype Component = Component(name: string, roots: seq<Root>)

  function RootsOf(c: Component): set<Root> {
    set root | root in c.roots
  }

  // --- Claiming ---

  /** The roots claimed by the components taken among the first `n`. */
  function Claimed(components: seq<Component>, taken: seq<bool>, n: nat): set<Root>
    requires n <= |components| && n <= |taken|
  {
    if n == 0 then {}
    else Claimed(components, taken, n - 1) + if taken[n - 1] then RootsOf(components[n - 1]) else {}
  }

  /** The account has all the component's procedures, and none is claimed before it. */
  predicate Claimable(procedures: set<Root>, components: seq<Component>, taken: seq<bool>, i: nat)
    requires i < |components| && i <= |taken|
  {
    RootsOf(components[i]) <= procedures - Claimed(components, taken, i)
  }

  predicate Chosen(procedures: set<Root>, components: seq<Component>, taken: seq<bool>, i: nat)
    requires i < |components| && i < |taken|
  {
    taken[i] <==> Claimable(procedures, components, taken, i)
  }

  /** Each component, in order, is taken exactly when the account has all its procedures and no earlier one claims any. */
  ghost predicate Greedy(procedures: set<Root>, components: seq<Component>, taken: seq<bool>) {
    && |taken| == |components|
    && forall i | 0 <= i < |taken| :: Chosen(procedures, components, taken, i)
  }

  /** The components taken among the first `n`. */
  function Taken(components: seq<Component>, taken: seq<bool>, n: nat): seq<Component>
    requires n <= |components| && n <= |taken|
  {
    if n == 0 then [] else Taken(components, taken, n - 1) + if taken[n - 1] then [components[n - 1]] else []
  }

  lemma {:induction false} ClaimedPrefix(components: seq<Component>, a: seq<bool>, b: seq<bool>, n: nat)
    requires n <= |components| && n <= |a| && n <= |b| && forall k | 0 <= k < n :: a[k] == b[k]
    ensures Claimed(components, a, n) == Claimed(components, b, n) && Taken(components, a, n) == Taken(components, b, n)
  {
    if n > 0 { ClaimedPrefix(components, a, b, n - 1); }
  }

  /** The order decides everything. */
  lemma {:induction false} GreedyIsUnique(procedures: set<Root>, components: seq<Component>, a: seq<bool>, b: seq<bool>, n: nat)
    requires Greedy(procedures, components, a) && Greedy(procedures, components, b) && n <= |components|
    ensures forall k | 0 <= k < n :: a[k] == b[k]
  {
    if n > 0 {
      GreedyIsUnique(procedures, components, a, b, n - 1);
      ClaimedPrefix(components, a, b, n - 1);
      SameChoice(procedures, components, a, b, n - 1);
    }
  }

  lemma SameChoice(procedures: set<Root>, components: seq<Component>, a: seq<bool>, b: seq<bool>, i: nat)
    requires Greedy(procedures, components, a) && Greedy(procedures, components, b) && i < |components|
    requires Claimed(components, a, i) == Claimed(components, b, i)
    ensures a[i] == b[i]
  {
    assert Chosen(procedures, components, a, i) && Chosen(procedures, components, b, i);
  }

  lemma {:induction false} ClaimedGrows(components: seq<Component>, taken: seq<bool>, i: nat, n: nat)
    requires i <= n <= |components| && n <= |taken|
    ensures Claimed(components, taken, i) <= Claimed(components, taken, n)
    ensures i < n && taken[i] ==> RootsOf(components[i]) <= Claimed(components, taken, n)
  {
    if i < n { ClaimedGrows(components, taken, i, n - 1); }
  }

  lemma {:induction false} ClaimedIsOwned(procedures: set<Root>, components: seq<Component>, taken: seq<bool>, n: nat)
    requires Greedy(procedures, components, taken) && n <= |components|
    ensures Claimed(components, taken, n) <= procedures
  {
    if n > 0 {
      ClaimedIsOwned(procedures, components, taken, n - 1);
      assert Chosen(procedures, components, taken, n - 1);
    }
  }

  /** The components detected share no procedure, and all their procedures are the account's. */
  lemma DetectedAreApart(procedures: set<Root>, components: seq<Component>, taken: seq<bool>, i: nat, j: nat)
    requires Greedy(procedures, components, taken) && i < j < |components| && taken[i] && taken[j]
    ensures RootsOf(components[i]) !! RootsOf(components[j])
    ensures RootsOf(components[i]) <= procedures && RootsOf(components[j]) <= procedures
  {
    assert Chosen(procedures, components, taken, i) && Chosen(procedures, components, taken, j);
    ClaimedGrows(components, taken, i, j);
  }

  /** A component left out could not be claimed from what is left at the end either. */
  lemma NothingIsStillClaimable(procedures: set<Root>, components: seq<Component>, taken: seq<bool>, i: nat)
    requires Greedy(procedures, components, taken) && i < |components| && !taken[i]
    ensures !(RootsOf(components[i]) <= procedures - Claimed(components, taken, |components|))
  {
    assert Chosen(procedures, components, taken, i);
    ClaimedGrows(components, taken, i, |components|);
  }

  /** A component is left out exactly when the account lacks one of its procedures, or an earlier one taken has it. */
  lemma LeftOutExactly(procedures: set<Root>, components: seq<Component>, taken: seq<bool>, i: nat)
    requires Greedy(procedures, components, taken) && i < |components|
    ensures !taken[i] <==> exists root ::
      root in components[i].roots && (root !in procedures || exists j :: 0 <= j < i && taken[j] && root in components[j].roots)
  {
    assert Chosen(procedures, components, taken, i);
    forall root ensures root in Claimed(components, taken, i) <==> exists j :: 0 <= j < i && taken[j] && root in components[j].roots {
      ClaimedExactly(components, taken, i, root);
    }
    if !taken[i] {
      var root :| root in RootsOf(components[i]) && root !in procedures - Claimed(components, taken, i);
      assert root in components[i].roots;
    } else {
      assert forall root | root in components[i].roots :: root in RootsOf(components[i]);
    }
  }

  lemma {:induction false} ClaimedExactly(components: seq<Component>, taken: seq<bool>, n: nat, root: Root)
    requires n <= |components| && n <= |taken|
    ensures root in Claimed(components, taken, n) <==> exists j :: 0 <= j < n && taken[j] && root in components[j].roots
  {
    if n > 0 { ClaimedExactly(components, taken, n - 1, root); }
  }

  function CountTaken(taken: seq<bool>, n: nat): nat
    requires n <= |taken|
  {
    if n == 0 then 0 else CountTaken(taken, n - 1) + if taken[n - 1] then 1 else 0
  }

  /** The components taken are listed in their order. */
  lemma {:induction false} TakenInOrder(components: seq<Component>, taken: seq<bool>, i: nat, n: nat)
    requires i < n <= |components| && n <= |taken| && taken[i]
    ensures |Taken(components, taken, n)| == CountTaken(taken, n) > CountTaken(taken, i)
    ensures Taken(components, taken, n)[CountTaken(taken, i)] == components[i]
  {
    TakenAreCounted(components, taken, n - 1);
    if i < n - 1 { TakenInOrder(components, taken, i, n - 1); }
  }

  lemma {:induction false} TakenAreCounted(components: seq<Component>, taken: seq<bool>, n: nat)
    requires n <= |components| && n <= |taken|
    ensures |Taken(components, taken, n)| == CountTaken(taken, n)
  {
    if n > 0 { TakenAreCounted(components, taken, n - 1); }
  }

  /** What the loop knows after the first `n` components. */
  ghost predicate ClaimedTo(procedures: set<Root>, components: seq<Component>, taken: seq<bool>, unclaimed: set<Root>, n: nat) {
    && |taken| == n <= |components|
    && unclaimed == procedures - Claimed(components, taken, n)
    && forall i | 0 <= i < n :: Chosen(procedures, components, taken, i)
  }

  lemma OneMoreClaim(procedures: set<Root>, components: seq<Component>, taken: seq<bool>, unclaimed: set<Root>, n: nat)
    requires n < |components| && ClaimedTo(procedures, components, taken, unclaimed, n)
    ensures var t := RootsOf(components[n]) <= unclaimed;
            ClaimedTo(procedures, components, taken + [t], if t then unclaimed - RootsOf(components[n]) else unclaimed, n + 1)
  {
    var more := taken + [RootsOf(components[n]) <= unclaimed];
    forall i | 0 <= i <= n ensures Claimed(components, more, i) == Claimed(components, taken, i) {
      ClaimedPrefix(components, more, taken, i);
    }
    ClaimNext(procedures, components, taken, more, unclaimed, n);
  }

  lemma ClaimNext(procedures: set<Root>, components: seq<Component>, taken: seq<bool>, more: seq<bool>, unclaimed: set<Root>, n: nat)
    requires n < |components| && ClaimedTo(procedures, components, taken, unclaimed, n)
    requires more == taken + [RootsOf(components[n]) <= unclaimed]
    requires forall i | 0 <= i <= n :: Claimed(components, more, i) == Claimed(components, taken, i)
    ensures ClaimedTo(procedures, components, more, if more[n] then unclaimed - RootsOf(components[n]) else unclaimed, n + 1)
  {
    forall i | 0 <= i <= n ensures Chosen(procedures, components, more, i) {
      assert i < n ==> Chosen(procedures, components, taken, i);
    }
    assert Claimed(components, more, n + 1) == Claimed(components, taken, n) + if more[n] then RootsOf(components[n]) else {};
  }

  method StandardComponents(procedures: set<Root>, components: seq<Component>) returns (detected: seq<Component>)
    ensures exists taken :: Greedy(procedures, components, taken) && detected == Taken(components, taken, |components|)
  {
    var unclaimed := procedures;
    detected := [];
    ghost var taken: seq<bool> := [];
    for n := 0 to |components|
      invariant ClaimedTo(procedures, components, taken, unclaimed, n)
      invariant detected == Taken(components, taken, n)
    {
      var c := components[n];
      OneMoreClaim(procedures, components, taken, unclaimed, n);
      ClaimedPrefix(components, taken, taken + [RootsOf(c) <= unclaimed], n);
      taken := taken + [RootsOf(c) <= unclaimed];
      if forall root | root in c.roots :: root in unclaimed {
        unclaimed := unclaimed - RootsOf(c);
        detected := detected + [c];
      }
    }
    assert Greedy(procedures, components, taken);
  }

  // --- The viewer's count ---

  datatype Export = Procedure(digest: string, abi: Option<nat>) | Constant

  const COMPONENT_MODEL := 3

  datatype Status = Status(verified: nat, total: nat)

  function LowerChar(c: char): char {
    if 'A' <= c <= 'Z' then 'a' + (c - 'A') else c
  }

  function Lower(digest: string): string {
    seq(|digest|, i requires 0 <= i < |digest| => LowerChar(digest[i]))
  }

  predicate Installed(e: Export) {
    e.Procedure? && e.abi == Some(COMPONENT_MODEL)
  }

  /** The digests, in lower case, of the standard components' procedures and the verified packages' account procedures. */
  function Known(standard: seq<seq<string>>, manifests: seq<seq<Export>>): set<string> {
    (set i, j | 0 <= i < |standard| && 0 <= j < |standard[i]| :: Lower(standard[i][j]))
    + (set i, j | 0 <= i < |manifests| && 0 <= j < |manifests[i]| && Installed(manifests[i][j]) :: Lower(manifests[i][j].digest))
  }

  function LowerAll(digests: seq<string>): set<string> {
    set i | 0 <= i < |digests| :: Lower(digests[i])
  }

  function VerificationStatus(procedures: seq<string>, standard: seq<seq<string>>, manifests: seq<seq<Export>>): Status {
    var accounted := LowerAll(procedures);
    Status(|set d | d in accounted && d in Known(standard, manifests)|, |accounted|)
  }

  /** The same letters, whatever their case. */
  ghost predicate SameButCase(a: string, b: string) {
    |a| == |b| && forall i | 0 <= i < |a| :: a[i] == b[i] || CaseOf(a[i], b[i]) || CaseOf(b[i], a[i])
  }

  ghost predicate CaseOf(upper: char, lower: char) {
    'A' <= upper <= 'Z' && lower as int - upper as int == 32
  }

  lemma LowerExactly(a: string, b: string)
    ensures Lower(a) == Lower(b) <==> SameButCase(a, b)
  {
    if Lower(a) == Lower(b) {
      assert |a| == |Lower(a)| == |Lower(b)| == |b|;
      forall i | 0 <= i < |a| ensures a[i] == b[i] || CaseOf(a[i], b[i]) || CaseOf(b[i], a[i]) {
        assert Lower(a)[i] == Lower(b)[i];
      }
    }
  }

  /** An account procedure of a verified package, of convention 3, with this digest in some case. */
  ghost predicate IsInstalledIn(d: string, manifests: seq<seq<Export>>, i: nat, j: nat) {
    && i < |manifests| && j < |manifests[i]| && manifests[i][j].Procedure?
    && manifests[i][j].abi == Some(3) && SameButCase(d, manifests[i][j].digest)
  }

  ghost predicate IsStandardIn(d: string, standard: seq<seq<string>>, i: nat, j: nat) {
    i < |standard| && j < |standard[i]| && SameButCase(d, standard[i][j])
  }

  /** A procedure is accounted for exactly when, in some case, its digest is a standard component's or an account procedure's of a verified package. */
  lemma KnownExactly(d: string, standard: seq<seq<string>>, manifests: seq<seq<Export>>)
    ensures Lower(d) in Known(standard, manifests) <==>
      || (exists i: nat, j: nat :: IsStandardIn(d, standard, i, j))
      || (exists i: nat, j: nat :: IsInstalledIn(d, manifests, i, j))
  {
    if Lower(d) in Known(standard, manifests) {
      if i: nat, j: nat :| i < |standard| && j < |standard[i]| && Lower(d) == Lower(standard[i][j]) {
        LowerExactly(d, standard[i][j]);
        assert IsStandardIn(d, standard, i, j);
      } else {
        var i: nat, j: nat :| i < |manifests| && j < |manifests[i]| && Installed(manifests[i][j]) && Lower(d) == Lower(manifests[i][j].digest);
        LowerExactly(d, manifests[i][j].digest);
        assert IsInstalledIn(d, manifests, i, j);
      }
    }
    if i: nat, j: nat :| IsStandardIn(d, standard, i, j) {
      LowerExactly(d, standard[i][j]);
    } else if i: nat, j: nat :| IsInstalledIn(d, manifests, i, j) {
      LowerExactly(d, manifests[i][j].digest);
    }
  }

  lemma SubsetSize<T>(a: set<T>, b: set<T>)
    requires a <= b
    ensures |a| <= |b| && (|a| == |b| <==> a == b)
  {
    assert b == a + (b - a);
  }

  /** The count never exceeds the total, and reaches it exactly when every procedure is accounted for. */
  lemma VerifiedExactly(procedures: seq<string>, standard: seq<seq<string>>, manifests: seq<seq<Export>>)
    ensures var status := VerificationStatus(procedures, standard, manifests);
            && status.verified <= status.total <= |procedures|
            && (status.verified == status.total <==> LowerAll(procedures) <= Known(standard, manifests))
  {
    var accounted := LowerAll(procedures);
    SubsetSize((set d | d in accounted && d in Known(standard, manifests)), accounted);
    LowerAllSize(procedures);
    if accounted <= Known(standard, manifests) {
      assert (set d | d in accounted && d in Known(standard, manifests)) == accounted;
    }
  }

  lemma {:induction false} LowerAllSize(digests: seq<string>)
    ensures |LowerAll(digests)| <= |digests|
  {
    if digests != [] {
      LowerAllSize(digests[1..]);
      SubsetSize(LowerAll(digests), LowerAll(digests[1..]) + {Lower(digests[0])});
    }
  }

  // --- Claims, counted ---

  /** A digest's text: one for each root, in lower case. */
  ghost predicate IsHex(hex: Root -> string) {
    && (forall a, b :: hex(a) == hex(b) ==> a == b)
    && (forall a :: Lower(hex(a)) == hex(a))
  }

  function Texts(hex: Root -> string, roots: seq<Root>): (r: seq<string>)
    ensures |r| == |roots| && forall i | 0 <= i < |roots| :: r[i] == hex(roots[i])
  {
    seq(|roots|, i requires 0 <= i < |roots| => hex(roots[i]))
  }

  function AllTexts(hex: Root -> string, detected: seq<Component>): (r: seq<seq<string>>)
    ensures |r| == |detected| && forall i | 0 <= i < |detected| :: r[i] == Texts(hex, detected[i].roots)
  {
    seq(|detected|, i requires 0 <= i < |detected| => Texts(hex, detected[i].roots))
  }

  /** The procedures the detected components claim, and how many each claims. */
  function AllRoots(detected: seq<Component>): set<Root> {
    if detected == [] then {} else AllRoots(detected[..|detected| - 1]) + RootsOf(detected[|detected| - 1])
  }

  function Sizes(detected: seq<Component>): nat {
    if detected == [] then 0 else Sizes(detected[..|detected| - 1]) + |RootsOf(detected[|detected| - 1])|
  }

  lemma DisjointSizes<T>(a: set<T>, b: set<T>)
    requires a !! b
    ensures |a + b| == |a| + |b|
  {}

  /** No claim among the first `n` takes what one before it took. */
  ghost predicate ClaimsApart(components: seq<Component>, taken: seq<bool>, n: nat)
    requires n <= |components| && n <= |taken|
  {
    n > 0 ==>
      && ClaimsApart(components, taken, n - 1)
      && (taken[n - 1] ==> RootsOf(components[n - 1]) !! Claimed(components, taken, n - 1))
  }

  lemma {:induction false} GreedyClaimsApart(procedures: set<Root>, components: seq<Component>, taken: seq<bool>, n: nat)
    requires Greedy(procedures, components, taken) && n <= |components|
    ensures ClaimsApart(components, taken, n)
  {
    if n > 0 {
      GreedyClaimsApart(procedures, components, taken, n - 1);
      assert Chosen(procedures, components, taken, n - 1);
    }
  }

  lemma OneMoreDetected(detected: seq<Component>, c: Component)
    ensures AllRoots(detected + [c]) == AllRoots(detected) + RootsOf(c)
    ensures Sizes(detected + [c]) == Sizes(detected) + |RootsOf(c)|
  {
    assert (detected + [c])[..|detected|] == detected;
  }

  /** Each claim counts in full: the components detected claim as many procedures together as one by one. */
  lemma {:induction false} ClaimsAddUp(components: seq<Component>, taken: seq<bool>, n: nat)
    requires n <= |components| && n <= |taken| && ClaimsApart(components, taken, n)
    ensures AllRoots(Taken(components, taken, n)) == Claimed(components, taken, n)
    ensures Sizes(Taken(components, taken, n)) == |Claimed(components, taken, n)|
  {
    if n > 0 {
      var detected := Taken(components, taken, n - 1);
      ClaimsAddUp(components, taken, n - 1);
      if taken[n - 1] {
        OneMoreDetected(detected, components[n - 1]);
        DisjointSizes(Claimed(components, taken, n - 1), RootsOf(components[n - 1]));
      } else {
        assert detected + [] == detected;
      }
    }
  }

  function Image(hex: Root -> string, roots: set<Root>): set<string> {
    set root | root in roots :: hex(root)
  }

  lemma {:induction false} ImageSize(hex: Root -> string, roots: set<Root>)
    requires IsHex(hex)
    ensures |Image(hex, roots)| == |roots|
  {
    if roots != {} {
      var root :| root in roots;
      ImageSize(hex, roots - {root});
      assert Image(hex, roots) == Image(hex, roots - {root}) + {hex(root)};
      assert hex(root) !in Image(hex, roots - {root});
    }
  }

  lemma TextsAreImage(hex: Root -> string, roots: seq<Root>)
    requires IsHex(hex)
    ensures LowerAll(Texts(hex, roots)) == Image(hex, set root | root in roots)
  {}

  /** The digests of lists of procedures, list by list. */
  function KnownStandard(standard: seq<seq<string>>): set<string> {
    if standard == [] then {} else KnownStandard(standard[..|standard| - 1]) + LowerAll(standard[|standard| - 1])
  }

  lemma {:induction false} KnownIsAll(standard: seq<seq<string>>)
    ensures Known(standard, []) == KnownStandard(standard)
  {
    if standard != [] {
      var front := standard[..|standard| - 1];
      KnownIsAll(front);
      forall i, j | 0 <= i < |front| && 0 <= j < |front[i]| ensures Lower(front[i][j]) in Known(standard, []) {
        assert standard[i] == front[i];
      }
      assert Known(standard, []) == Known(front, []) + LowerAll(standard[|standard| - 1]);
    }
  }

  lemma {:induction false} DetectedAreKnown(hex: Root -> string, detected: seq<Component>)
    requires IsHex(hex)
    ensures KnownStandard(AllTexts(hex, detected)) == Image(hex, AllRoots(detected))
  {
    if detected != [] {
      var front, last := detected[..|detected| - 1], detected[|detected| - 1];
      DetectedAreKnown(hex, front);
      assert AllTexts(hex, detected)[..|detected| - 1] == AllTexts(hex, front);
      TextsAreImage(hex, last.roots);
      assert Image(hex, AllRoots(detected)) == Image(hex, AllRoots(front)) + Image(hex, RootsOf(last));
    }
  }

  lemma KnownSplits(standard: seq<seq<string>>, manifests: seq<seq<Export>>)
    ensures Known(standard, manifests) == Known(standard, []) + Known([], manifests)
  {}

  lemma ClaimsAreCounted(hex: Root -> string, procedures: seq<Root>, components: seq<Component>, taken: seq<bool>)
    requires IsHex(hex) && Greedy((set root | root in procedures), components, taken)
    ensures var detected := Taken(components, taken, |components|);
            && Known(AllTexts(hex, detected), []) == Image(hex, AllRoots(detected))
            && Image(hex, AllRoots(detected)) <= LowerAll(Texts(hex, procedures))
            && |Image(hex, AllRoots(detected))| == Sizes(detected)
  {
    var owned, n := (set root | root in procedures), |components|;
    var detected := Taken(components, taken, n);
    GreedyClaimsApart(owned, components, taken, n);
    ClaimsAddUp(components, taken, n);
    ClaimedIsOwned(owned, components, taken, n);
    TextsAreImage(hex, procedures);
    KnownIsAll(AllTexts(hex, detected));
    DetectedAreKnown(hex, detected);
    ImageSize(hex, AllRoots(detected));
  }

  /** The account's procedures only verified packages account for. */
  function OnlyPackaged(procedures: seq<string>, standard: seq<seq<string>>, manifests: seq<seq<Export>>): set<string> {
    set d | d in LowerAll(procedures) && d in Known([], manifests) && d !in Known(standard, [])
  }

  lemma CountSplits<T>(all: set<T>, a: set<T>, b: set<T>)
    requires a <= all
    ensures |set d | d in all && d in a + b| == |a| + |set d | d in all && d in b && d !in a|
  {
    var others := set d | d in all && d in b && d !in a;
    assert (set d | d in all && d in a + b) == a + others;
    DisjointSizes(a, others);
  }

  /** The viewer counts exactly the procedures the account's standard components claim, and those only verified packages account for. */
  lemma CountIsWhatIsClaimed(hex: Root -> string, procedures: seq<Root>, components: seq<Component>, taken: seq<bool>,
                             manifests: seq<seq<Export>>)
    requires IsHex(hex) && Greedy((set root | root in procedures), components, taken)
    ensures var detected := Taken(components, taken, |components|);
            VerificationStatus(Texts(hex, procedures), AllTexts(hex, detected), manifests).verified
            == Sizes(detected) + |OnlyPackaged(Texts(hex, procedures), AllTexts(hex, detected), manifests)|
  {
    var standard := AllTexts(hex, Taken(components, taken, |components|));
    ClaimsAreCounted(hex, procedures, components, taken);
    KnownSplits(standard, manifests);
    CountSplits(LowerAll(Texts(hex, procedures)), Known(standard, []), Known([], manifests));
  }

  // --- Verifying a package against an account ---

  datatype Interface = Standard(name: string) | Custom

  datatype Verdict = Matched(components: seq<string>) | NoExports

  /** The names of the standard components, in order. */
  function Names(interfaces: seq<Interface>): seq<string> {
    if interfaces == [] then []
    else Names(interfaces[..|interfaces| - 1])
         + if interfaces[|interfaces| - 1].Standard? then [interfaces[|interfaces| - 1].name] else []
  }

  ghost function CountStandard(interfaces: seq<Interface>): nat {
    if interfaces == [] then 0
    else CountStandard(interfaces[..|interfaces| - 1]) + if interfaces[|interfaces| - 1].Standard? then 1 else 0
  }

  /** Each standard component is named, at its place among them. */
  lemma {:induction false} NamesInOrder(interfaces: seq<Interface>, i: nat)
    requires i < |interfaces| && interfaces[i].Standard?
    ensures |Names(interfaces)| == CountStandard(interfaces) > CountStandard(interfaces[..i])
    ensures Names(interfaces)[CountStandard(interfaces[..i])] == interfaces[i].name
  {
    var n := |interfaces| - 1;
    NamesAreCounted(interfaces[..n]);
    if i < n {
      NamesInOrder(interfaces[..n], i);
      assert interfaces[..n][..i] == interfaces[..i];
    }
  }

  lemma {:induction false} NamesAreCounted(interfaces: seq<Interface>)
    ensures |Names(interfaces)| == CountStandard(interfaces)
  {
    if interfaces != [] { NamesAreCounted(interfaces[..|interfaces| - 1]); }
  }

  /** The package exports account procedures, and the account has them all. */
  ghost predicate Accounts(procedures: set<string>, exports: seq<Export>) {
    && (exists e :: e in exports && Installed(e))
    && forall e | e in exports && Installed(e) :: e.digest in procedures
  }

  method VerifyAccountComponent(procedures: set<string>, interfaces: seq<Interface>, exports: seq<Export>, customName: string)
    returns (r: Verdict)
    ensures r == if Custom !in interfaces then Matched(Names(interfaces))
                 else if exports == [] then NoExports
                 else Matched(Names(interfaces) + if Accounts(procedures, exports) then [customName] else [])
  {
    var components: seq<string> := [];
    var hasCustomCode := false;
    for i := 0 to |interfaces|
      invariant components == Names(interfaces[..i])
      invariant hasCustomCode <==> Custom in interfaces[..i]
    {
      assert interfaces[..i + 1] == interfaces[..i] + [interfaces[i]];
      assert interfaces[..i + 1][..i] == interfaces[..i];
      if interfaces[i].Custom? {
        hasCustomCode := true;
      } else {
        components := components + [interfaces[i].name];
      }
    }
    assert interfaces[..|interfaces|] == interfaces;
    if hasCustomCode {
      if exports == [] {
        return NoExports;
      }
      var installed := set e | e in exports && Installed(e);
      assert forall e :: e in installed <==> e in exports && Installed(e);
      assert Names(interfaces) + [] == Names(interfaces);
      if installed != {} && forall e | e in installed :: e.digest in procedures {
        components := components + [customName];
      }
    }
    return Matched(components);
  }

  /** Once a package that accounts for custom code is listed, each of its account procedures is counted. */
  lemma AccountedIsCounted(procedures: seq<string>, standard: seq<seq<string>>, manifests: seq<seq<Export>>, exports: seq<Export>, e: Export)
    requires Accounts((set d | d in procedures), exports) && exports in manifests && e in exports && Installed(e)
    ensures Lower(e.digest) in LowerAll(procedures) && Lower(e.digest) in Known(standard, manifests)
  {}
}
