/**
 The text that the search for a declaration looks for, told without the search:
 declarations, component traits and their bodies, and the depth of brackets.
 */
module Declarations {
  import opened Wrappers
  import opened Masker
  import opened Tidying
  import opened Signatures

  ghost predicate AllSpace(m: string, i: nat, j: nat) {
    i <= j <= |m| && forall k | i <= k < j :: Space(m[k])
  }

  /** No word runs on from before `i`. */
  ghost predicate FreshAt(m: string, i: nat) {
    i == 0 || i > |m| || !Word(m[i - 1])
  }

  /** No word runs on past `i`. */
  ghost predicate EndsAt(m: string, i: nat) {
    i >= |m| || !Word(m[i])
  }

  // --- Declarations ---

  /** `fn` at `p`, whitespace, and a word at `k`. */
  ghost predicate FnWithName(m: string, p: nat, k: nat) {
    Occurs(m, "fn", p) && FreshAt(m, p) && p + 2 < k < |m| && AllSpace(m, p + 2, k) && Word(m[k])
  }

  lemma FnExactly(m: string, p: nat)
    ensures FnAt(m, p) <==> exists k: nat :: FnWithName(m, p, k)
    ensures forall k: nat :: FnWithName(m, p, k) ==> FnAt(m, p) && NameStart(m, p) == k
  {
    if FnAt(m, p) { assert FnWithName(m, p, NameStart(m, p)); }
    forall k: nat | FnWithName(m, p, k) ensures FnAt(m, p) && NameStart(m, p) == k {
      assert !Space(m[k]) && SkipSpaces(m, p + 2) == k;
    }
  }

  /** `fn`, whitespace and the whole name, `fn` being a word of its own too. */
  ghost predicate DeclarationAt(m: string, name: string, p: nat, k: nat) {
    Occurs(m, "fn", p) && FreshAt(m, p) && p + 2 < k && AllSpace(m, p + 2, k) && Occurs(m, name, k) && EndsAt(m, k + |name|)
  }

  lemma DeclaresExactly(m: string, name: string, p: nat)
    requires Identifier(name)
    ensures Declares(m, name, p) <==> exists k: nat :: DeclarationAt(m, name, p, k)
  {
    FnExactly(m, p);
    if Declares(m, name, p) { assert DeclarationAt(m, name, p, NameStart(m, p)); }
    if k: nat :| DeclarationAt(m, name, p, k) {
      assert m[k] == m[k..k + |name|][0] == name[0];
      assert FnWithName(m, p, k);
    }
  }

  // --- Component traits ---

  /** A visibility of a trait: nothing, or `pub`, maybe with something in parentheses, and whitespace. */
  ghost predicate Visibility(m: string, i: nat, k: nat) {
    || i == k
    || exists end: nat :: PubTo(m, i, end) && end < k && AllSpace(m, end, k)
  }

  ghost predicate PubTo(m: string, i: nat, end: nat) {
    && Occurs(m, "pub", i)
    && (|| end == i + 3
        || (i + 5 <= end <= |m| && m[i + 3] == '(' && m[end - 1] == ')' && forall x | i + 4 <= x < end - 1 :: m[x] != ')'))
  }

  /** The attribute at `p`, whitespace, a visibility up to `k`, the keyword, and the first brace after it before `body`. */
  ghost predicate TraitAt(m: string, p: nat, i: nat, k: nat, body: nat) {
    && Occurs(m, "#[component]", p) && AllSpace(m, p + 12, i) && Visibility(m, i, k)
    && Occurs(m, "trait", k) && EndsAt(m, k + 5) && OpensAt(m, k + 5, body)
  }

  /** The first brace from `i` on is right before `body`. */
  ghost predicate OpensAt(m: string, i: nat, body: nat) {
    i < body <= |m| && m[body - 1] == '{' && forall x | i <= x < body - 1 :: m[x] != '{'
  }

  lemma FirstIs(m: string, text: string, i: nat)
    requires Occurs(m, text, i) && text != ""
    ensures i < |m| && m[i] == text[0]
  {
    assert m[i..i + |text|][0] == m[i];
  }

  lemma OneChar(m: string, text: string, i: nat)
    requires |text| == 1
    ensures Occurs(m, text, i) <==> Reads(m, i, text[0])
  {
    assert text == [text[0]];
    if i < |m| { assert m[i..i + 1] == [m[i]]; }
  }

  lemma FirstOf(m: string, text: string, from: nat, at: nat)
    requires |text| == 1 && from <= at < |m| && m[at] == text[0] && forall x | from <= x < at :: m[x] != text[0]
    ensures IndexOf(m, text, from) == at
  {
    OneChar(m, text, at);
    var first := IndexOf(m, text, from);
    if 0 <= first { OneChar(m, text, first); }
  }

  lemma FoundIs(m: string, text: string, from: nat)
    requires |text| == 1 && from <= |m| && IndexOf(m, text, from) != -1
    ensures var at := IndexOf(m, text, from);
            from <= at < |m| && m[at] == text[0] && forall x | from <= x < at :: m[x] != text[0]
  {
    var at := IndexOf(m, text, from);
    OneChar(m, text, at);
    forall x: nat | from <= x < at ensures m[x] != text[0] { OneChar(m, text, x); }
  }

  /** Where the code takes what is in parentheses after `pub` to end. */
  function PubEnd(m: string, i: nat): nat
    requires i + 3 <= |m|
  {
    var close := if Reads(m, i + 3, '(') then IndexOf(m, ")", i + 4) else -1;
    if close == -1 then i + 3 else close + 1
  }

  lemma PubEnds(m: string, i: nat, end: nat)
    requires PubTo(m, i, end) && end < |m| && Space(m[end])
    ensures i + 3 <= |m| && end == PubEnd(m, i)
  {
    if end != i + 3 { FirstOf(m, ")", i + 4, end - 1); }
  }

  lemma PubEndIsOne(m: string, i: nat)
    requires Occurs(m, "pub", i)
    ensures PubTo(m, i, PubEnd(m, i)) && PubEnd(m, i) <= |m|
  {
    var close := if Reads(m, i + 3, '(') then IndexOf(m, ")", i + 4) else -1;
    if close != -1 { FoundIs(m, ")", i + 4); }
  }

  lemma PastVisibilityIs(m: string, i: nat, k: nat)
    requires i <= |m|
    ensures PastVisibility(m, i) == k <==>
      if Occurs(m, "pub", i) && SkipSpaces(m, PubEnd(m, i)) > PubEnd(m, i) then k == SkipSpaces(m, PubEnd(m, i)) else k == i
  {
    if Occurs(m, "pub", i) { PubEndIsOne(m, i); }
  }

  lemma VisibilityIsSkipped(m: string, i: nat, k: nat)
    requires Occurs(m, "trait", k) && i <= |m| && Visibility(m, i, k)
    ensures PastVisibility(m, i) == k
  {
    PastVisibilityIs(m, i, k);
    FirstIs(m, "trait", k);
    if i != k {
      var end: nat :| PubTo(m, i, end) && end < k && AllSpace(m, end, k);
      PubEnds(m, i, end);
      assert SkipSpaces(m, end) == k;
    } else if Occurs(m, "pub", i) {
      FirstIs(m, "pub", i);
    }
  }

  lemma SkippedIsVisibility(m: string, i: nat)
    requires i <= |m|
    ensures Visibility(m, i, PastVisibility(m, i))
  {
    var k := PastVisibility(m, i);
    PastVisibilityIs(m, i, k);
    if Occurs(m, "pub", i) {
      PubEndIsOne(m, i);
      if k != i { assert AllSpace(m, PubEnd(m, i), k); }
    }
  }

  lemma KeywordFollows(m: string, i: nat, k: nat)
    requires Visibility(m, i, k) && Occurs(m, "trait", k)
    ensures i < |m| && !Space(m[i])
  {
    FirstIs(m, "trait", k);
    if i != k { FirstIs(m, "pub", i); }
  }

  lemma BraceExactly(m: string, i: nat, body: nat)
    requires i <= |m|
    ensures OpensAt(m, i, body) <==> IndexOf(m, "{", i) != -1 && body == IndexOf(m, "{", i) + 1
  {
    if OpensAt(m, i, body) { FirstOf(m, "{", i, body - 1); }
    if IndexOf(m, "{", i) != -1 { FoundIs(m, "{", i); }
  }

  /** Where the code looks for the keyword. */
  function KeywordOf(m: string, p: nat): nat
    requires p + 12 <= |m|
  {
    PastVisibility(m, SkipSpaces(m, p + 12))
  }

  lemma TraitIsWhere(m: string, p: nat, i: nat, k: nat, body: nat)
    requires TraitAt(m, p, i, k, body)
    ensures p + 12 <= |m| && i == SkipSpaces(m, p + 12) && k == KeywordOf(m, p)
  {
    KeywordFollows(m, i, k);
    VisibilityIsSkipped(m, i, k);
  }

  lemma BodyAfterIs(m: string, keyword: nat, body: nat)
    ensures BodyAfter(m, keyword) == Some(body) <==>
      && Occurs(m, "trait", keyword) && EndsAt(m, keyword + 5)
      && IndexOf(m, "{", keyword + 5) != -1 && body == IndexOf(m, "{", keyword + 5) + 1
  {}

  lemma BodyStartsThere(m: string, p: nat, body: nat)
    ensures BodyStart(m, p) == Some(body) <==> Occurs(m, "#[component]", p) && BodyAfter(m, KeywordOf(m, p)) == Some(body)
  {}

  lemma TraitIsFound(m: string, p: nat, i: nat, k: nat, body: nat)
    requires TraitAt(m, p, i, k, body)
    ensures BodyStart(m, p) == Some(body)
  {
    BodyStartsThere(m, p, body);
    BodyAfterIs(m, k, body);
    TraitIsWhere(m, p, i, k, body);
    BraceExactly(m, k + 5, body);
  }

  lemma FoundIsTrait(m: string, p: nat, body: nat)
    requires BodyStart(m, p) == Some(body)
    ensures p + 12 <= |m| && TraitAt(m, p, SkipSpaces(m, p + 12), KeywordOf(m, p), body)
  {
    BodyStartsThere(m, p, body);
    BodyAfterIs(m, KeywordOf(m, p), body);
    SkippedIsVisibility(m, SkipSpaces(m, p + 12));
    BraceExactly(m, KeywordOf(m, p) + 5, body);
  }

  /** The body of the component trait at `p`, in the text. */
  lemma BodyStartExactly(m: string, p: nat, body: nat)
    ensures BodyStart(m, p) == Some(body) <==> exists i: nat, k: nat :: TraitAt(m, p, i, k, body)
  {
    if i: nat, k: nat :| TraitAt(m, p, i, k, body) {
      TraitIsFound(m, p, i, k, body);
    } else if BodyStart(m, p) == Some(body) {
      FoundIsTrait(m, p, body);
    }
  }

  ghost predicate NoTrait(m: string, from: nat, to: nat) {
    forall p: nat | from <= p < to :: BodyStart(m, p) == None
  }

  /** `body` starts the body of the first trait at or after `from`. */
  ghost predicate NextBody(m: string, from: nat, body: nat) {
    exists p: nat :: from <= p && BodyStart(m, p) == Some(body) && NoTrait(m, from, p)
  }

  /** Each body is that of the first trait from where the one before started, and after the last there is no trait. */
  ghost predicate BodiesFrom(m: string, from: nat, bodies: seq<nat>)
    decreases |bodies|
  {
    if bodies == [] then NoTrait(m, from, |m|)
    else NextBody(m, from, bodies[0]) && BodiesFrom(m, bodies[0], bodies[1..])
  }

  lemma NextFrom(m: string, from: nat, body: nat)
    requires BodyStart(m, from) == None && NextBody(m, from + 1, body)
    ensures NextBody(m, from, body)
  {
    var p: nat :| from + 1 <= p && BodyStart(m, p) == Some(body) && NoTrait(m, from + 1, p);
    assert NoTrait(m, from, p);
  }

  lemma SkipsOn(m: string, from: nat, bodies: seq<nat>)
    requires BodyStart(m, from) == None && BodiesFrom(m, from + 1, bodies)
    ensures BodiesFrom(m, from, bodies)
  {
    if bodies != [] { NextFrom(m, from, bodies[0]); }
  }

  lemma StartsHere(m: string, from: nat, body: nat, bodies: seq<nat>)
    requires BodyStart(m, from) == Some(body) && BodiesFrom(m, body, bodies)
    ensures BodiesFrom(m, from, [body] + bodies)
  {
    assert ([body] + bodies)[1..] == bodies && NoTrait(m, from, from);
  }

  lemma BodiesStep(m: string, from: nat)
    requires from < |m|
    ensures BodyStart(m, from).Some? ==> Bodies(m, from) == [BodyStart(m, from).value] + Bodies(m, BodyStart(m, from).value)
    ensures BodyStart(m, from).None? ==> Bodies(m, from) == Bodies(m, from + 1)
  {}

  lemma {:induction false} BodiesExactly(m: string, from: nat)
    requires from <= |m|
    ensures BodiesFrom(m, from, Bodies(m, from))
    decreases |m| - from
  {
    if from < |m| {
      BodiesStep(m, from);
      var next := BodyStart(m, from);
      if next.Some? {
        BodiesExactly(m, next.value);
        StartsHere(m, from, next.value, Bodies(m, next.value));
      } else {
        BodiesExactly(m, from + 1);
        SkipsOn(m, from, Bodies(m, from + 1));
      }
    }
  }

  // --- Depth ---

  predicate ReadsOneOf(m: string, k: int, chars: string) {
    0 <= k < |m| && m[k] in chars
  }

  /** How often one of these characters stands in a part of the text. */
  ghost function Count(m: string, from: nat, to: nat, chars: string): nat
    requires from <= to <= |m|
  {
    |set k | from <= k < to && ReadsOneOf(m, k, chars)|
  }

  lemma OneMoreCounted(m: string, from: nat, to: nat, chars: string)
    requires from <= to < |m|
    ensures Count(m, from, to + 1, chars) == Count(m, from, to, chars) + if m[to] in chars then 1 else 0
  {
    var before, after := (set k | from <= k < to && ReadsOneOf(m, k, chars)), set k | from <= k < to + 1 && ReadsOneOf(m, k, chars);
    assert after == if m[to] in chars then before + {to} else before;
  }

  /** The braces open are the trait's own and those opened since, less those closed. */
  lemma {:induction false} BraceDepthExactly(m: string, body: nat, i: nat)
    requires body <= i <= |m|
    ensures BraceDepth(m, body, i) == 1 + Count(m, body, i, "{") - Count(m, body, i, "}")
  {
    if i > body {
      BraceDepthExactly(m, body, i - 1);
      OneMoreCounted(m, body, i - 1, "{");
      OneMoreCounted(m, body, i - 1, "}");
    } else {
      assert (set k | body <= k < i && ReadsOneOf(m, k, "{")) == {} && (set k | body <= k < i && ReadsOneOf(m, k, "}")) == {};
    }
  }

  /** The head of an arrow. */
  predicate ArrowAt(m: string, k: int) {
    0 < k < |m| && m[k] == '>' && m[k - 1] == '-'
  }

  /** The arrows in a part of the text, by their heads. */
  ghost function Arrows(m: string, from: nat, to: nat): nat
    requires from <= to <= |m|
  {
    |set k | from <= k < to && ArrowAt(m, k)|
  }

  lemma OneMoreArrow(m: string, from: nat, to: nat)
    requires from <= to < |m|
    ensures Arrows(m, from, to + 1) == Arrows(m, from, to) + if ArrowAt(m, to) then 1 else 0
  {
    var before := set k | from <= k < to && ArrowAt(m, k);
    var after := set k | from <= k < to + 1 && ArrowAt(m, k);
    assert after == if ArrowAt(m, to) then before + {to} else before;
  }

  /** The brackets open in a signature: those opened less those closed, the head of an arrow closing none. */
  lemma {:induction false} DepthExactly(m: string, start: nat, i: nat)
    requires start <= i <= |m|
    ensures Depth(m, start, i) == Count(m, start, i, "([<") - (Count(m, start, i, ")]>") - Arrows(m, start, i))
  {
    if i > start {
      DepthExactly(m, start, i - 1);
      OneMoreCounted(m, start, i - 1, "([<");
      OneMoreCounted(m, start, i - 1, ")]>");
      OneMoreArrow(m, start, i - 1);
    } else {
      assert (set k | start <= k < i && ReadsOneOf(m, k, "([<")) == {} && (set k | start <= k < i && ReadsOneOf(m, k, ")]>")) == {};
      assert (set k | start <= k < i && ArrowAt(m, k)) == {};
    }
  }

  /** A signature ends at a `;` or `{` with as many brackets closed as opened since its start, an arrow's head not counted. */
  lemma SignatureEndsExactly(m: string, start: nat, i: nat)
    requires start <= i <= |m|
    ensures EndsSignature(m, start, i) <==>
      ReadsOneOf(m, i, ";{") && Count(m, start, i, "([<") + Arrows(m, start, i) == Count(m, start, i, ")]>")
  {
    DepthExactly(m, start, i);
  }
}
