/**
 Finding a procedure's declaration in a masked source, where the compiler takes it
 from if it can be told, and where its signature ends.
 */
module Signatures {
  import opened Wrappers
  import opened Masker
  import opened Tidying

  predicate Word(c: char) {
    'a' <= c <= 'z' || 'A' <= c <= 'Z' || '0' <= c <= '9' || c == '_'
  }

  /** A Rust name, which a regular expression matches as it is. */
  predicate Identifier(name: string) {
    name != "" && forall i | 0 <= i < |name| :: Word(name[i])
  }

  predicate WordAt(m: string, i: int) {
    0 <= i < |m| && Word(m[i])
  }

  predicate Starts(m: string, i: nat, text: string) {
    Occurs(m, text, i)
  }

  // --- Declarations ---

  /** `fn`, spaces and a name start here, as words of their own. */
  predicate FnAt(m: string, p: nat) {
    && Starts(m, p, "fn") && !WordAt(m, p - 1)
    && p + 2 < SkipSpaces(m, p + 2) && WordAt(m, SkipSpaces(m, p + 2))
  }

  function NameStart(m: string, p: nat): nat
    requires FnAt(m, p)
  {
    SkipSpaces(m, p + 2)
  }

  predicate Declares(m: string, name: string, p: nat) {
    FnAt(m, p) && Starts(m, NameStart(m, p), name) && !WordAt(m, NameStart(m, p) + |name|)
  }

  ghost predicate FirstDeclaration(m: string, name: string, from: nat, p: nat) {
    from <= p && Declares(m, name, p) && forall k | from <= k < p :: !Declares(m, name, k)
  }

  ghost predicate FirstFn(m: string, from: nat, p: nat) {
    from <= p && FnAt(m, p) && forall k | from <= k < p :: !FnAt(m, k)
  }

  /** `exec` with a pattern for `fn <name>`. */
  function ExecDeclaration(m: string, name: string, from: nat): (r: Option<nat>)
    requires from <= |m|
    ensures r.Some? ==> r.value < |m| && FirstDeclaration(m, name, from, r.value)
    ensures r.None? ==> forall k | k >= from :: !Declares(m, name, k)
    decreases |m| - from
  {
    if from == |m| then None
    else if Declares(m, name, from) then Some(from)
    else ExecDeclaration(m, name, from + 1)
  }

  /** `exec` with a pattern for `fn` and any name. */
  function ExecFn(m: string, from: nat): (r: Option<nat>)
    requires from <= |m|
    ensures r.Some? ==> r.value < |m| && FirstFn(m, from, r.value)
    ensures r.None? ==> forall k | k >= from :: !FnAt(m, k)
    decreases |m| - from
  {
    if from == |m| then None else if FnAt(m, from) then Some(from) else ExecFn(m, from + 1)
  }

  // --- `#[component]` traits ---

  /** Past a visibility such as `pub` or `pub(crate)` and the spaces after it, if one is here. */
  function PastVisibility(m: string, i: nat): (r: nat)
    requires i <= |m|
    ensures i <= r <= |m|
  {
    if !Starts(m, i, "pub") then i
    else
      var close := if Reads(m, i + 3, '(') then IndexOf(m, ")", i + 4) else -1;
      var end := if close == -1 then i + 3 else close + 1;
      if SkipSpaces(m, end) == end then i else SkipSpaces(m, end)
  }

  /** Where the body of the trait starts whose keyword has to be here. */
  function BodyAfter(m: string, keyword: nat): (r: Option<nat>)
    ensures r.Some? ==> keyword < r.value <= |m| && m[r.value - 1] == '{'
  {
    if !Starts(m, keyword, "trait") || WordAt(m, keyword + |"trait"|) then None
    else
      var brace := IndexOf(m, "{", keyword + |"trait"|);
      if brace == -1 then None
      else
        assert m[brace] == m[brace..brace + 1][0];
        Some(brace + 1)
  }

  /** Where the body of the `#[component]` trait declared at `p` starts. */
  function BodyStart(m: string, p: nat): (r: Option<nat>)
    ensures r.Some? ==> p < r.value <= |m| && m[r.value - 1] == '{'
  {
    if !Starts(m, p, "#[component]") then None
    else BodyAfter(m, PastVisibility(m, SkipSpaces(m, p + |"#[component]"|)))
  }

  /** The bodies of the traits, each looked for from where the last one started. */
  function Bodies(m: string, from: nat): (r: seq<nat>)
    requires from <= |m|
    ensures forall i | 0 <= i < |r| :: from < r[i] <= |m|
    ensures forall i, j | 0 <= i < j < |r| :: r[i] < r[j]
    decreases |m| - from
  {
    if from == |m| then []
    else
      match BodyStart(m, from)
      case Some(body) => [body] + Bodies(m, body)
      case None => Bodies(m, from + 1)
  }

  /** The braces open after the characters from `body` up to `i`, the trait's own included. */
  function BraceDepth(m: string, body: nat, i: nat): int
    requires body <= i <= |m|
  {
    if i == body then 1
    else BraceDepth(m, body, i - 1) + if m[i - 1] == '{' then 1 else if m[i - 1] == '}' then -1 else 0
  }

  /** A body ends with the brace that closes the trait's, or with the text. */
  ghost predicate BodyEnds(m: string, body: nat, end: nat) {
    && body <= end <= |m|
    && (forall k | body <= k < end :: BraceDepth(m, body, k) > 0)
    && (end == |m| || BraceDepth(m, body, end) == 0)
  }

  ghost predicate InBody(m: string, body: nat, p: nat) {
    body <= p < |m| && forall k | body <= k <= p :: BraceDepth(m, body, k) > 0
  }

  method BodyEnd(m: string, body: nat) returns (end: nat)
    requires body <= |m|
    ensures BodyEnds(m, body, end)
  {
    var depth := 1;
    end := body;
    while end < |m| && depth > 0
      invariant body <= end <= |m| && depth == BraceDepth(m, body, end) && depth >= 0
      invariant forall k | body <= k < end :: BraceDepth(m, body, k) > 0
    {
      if m[end] == '{' { depth := depth + 1; }
      if m[end] == '}' { depth := depth - 1; }
      end := end + 1;
    }
  }

  ghost predicate DeclaredIn(m: string, name: string, body: nat, p: nat) {
    FirstDeclaration(m, name, body, p) && InBody(m, body, p)
  }

  ghost predicate NotDeclaredIn(m: string, name: string, body: nat) {
    forall q: nat :: !DeclaredIn(m, name, body, q)
  }

  ghost predicate NoBodyBefore(m: string, name: string, bodies: seq<nat>, i: nat)
    requires i <= |bodies|
  {
    forall j | 0 <= j < i :: NotDeclaredIn(m, name, bodies[j])
  }

  ghost predicate FirstBody(m: string, name: string, bodies: seq<nat>, i: nat, p: nat) {
    i < |bodies| && DeclaredIn(m, name, bodies[i], p) && NoBodyBefore(m, name, bodies, i)
  }

  ghost predicate InTraits(m: string, name: string, bodies: seq<nat>, p: nat) {
    exists i :: FirstBody(m, name, bodies, i, p)
  }

  // --- `#[note_script]` functions ---

  const NOTE_SCRIPT := "#[note_script]"

  /** The function after the attribute at `a` is at `p`, and has this name. */
  ghost predicate ScriptAt(m: string, name: string, a: nat, p: nat) {
    Starts(m, a, "#[note_script]") && FirstFn(m, a, p) && Declares(m, name, p)
  }

  ghost predicate InScripts(m: string, name: string, p: nat) {
    exists a: nat :: ScriptAt(m, name, a, p) && NoScriptBefore(m, name, a)
  }

  /** Where the compiler takes a procedure from: the first component trait that declares it, or else the first note script of that name. */
  ghost predicate Preferred(m: string, name: string, p: nat) {
    if !NoBodyBefore(m, name, Bodies(m, 0), |Bodies(m, 0)|) then InTraits(m, name, Bodies(m, 0), p)
    else if exists a: nat, q: nat :: ScriptAt(m, name, a, q) then InScripts(m, name, p)
    else FirstDeclaration(m, name, 0, p)
  }

  lemma OneMoreBody(m: string, name: string, bodies: seq<nat>, i: nat)
    requires i < |bodies| && NoBodyBefore(m, name, bodies, i) && NotDeclaredIn(m, name, bodies[i])
    ensures NoBodyBefore(m, name, bodies, i + 1)
  {}

  method FindInTraits(m: string, name: string, bodies: seq<nat>) returns (r: Option<nat>)
    requires forall i | 0 <= i < |bodies| :: bodies[i] <= |m|
    ensures r.Some? ==> InTraits(m, name, bodies, r.value)
    ensures r.None? ==> NoBodyBefore(m, name, bodies, |bodies|)
  {
    for i := 0 to |bodies|
      invariant NoBodyBefore(m, name, bodies, i)
    {
      var end := BodyEnd(m, bodies[i]);
      var found := ExecDeclaration(m, name, bodies[i]);
      if found.Some? && found.value < end {
        assert FirstBody(m, name, bodies, i, found.value);
        return found;
      }
      OneMoreBody(m, name, bodies, i);
    }
    return None;
  }

  lemma AttributeReads(m: string, i: nat)
    ensures Starts(m, i, NOTE_SCRIPT) ==> Reads(m, i, '#')
  {}

  lemma AttributesAreApart(m: string, a: nat, b: nat)
    requires Starts(m, a, NOTE_SCRIPT) && a < b < a + |NOTE_SCRIPT|
    ensures !Starts(m, b, NOTE_SCRIPT)
  {
    assert NOTE_SCRIPT[b - a] != '#';
    AttributeReads(m, b);
  }

  /** No attribute before `to` has a function of this name. */
  ghost predicate NoScriptBefore(m: string, name: string, to: nat) {
    forall b: nat, q: nat | b < to :: !ScriptAt(m, name, b, q)
  }

  lemma NotThisScript(m: string, name: string, attribute: nat, next: Option<nat>, q: nat)
    requires attribute <= |m| && next == ExecFn(m, attribute) && (next.Some? ==> !Declares(m, name, next.value))
    ensures !ScriptAt(m, name, attribute, q)
  {}

  lemma NoScriptAt(m: string, name: string, attribute: nat, next: Option<nat>)
    requires attribute <= |m| && next == ExecFn(m, attribute) && (next.Some? ==> !Declares(m, name, next.value))
    requires NoScriptBefore(m, name, attribute) && Starts(m, attribute, NOTE_SCRIPT)
    ensures NoScriptBefore(m, name, attribute + |NOTE_SCRIPT|)
  {
    forall b: nat, q: nat | b < attribute + |NOTE_SCRIPT| ensures !ScriptAt(m, name, b, q) {
      if b == attribute {
        NotThisScript(m, name, attribute, next, q);
      } else if b > attribute {
        AttributesAreApart(m, attribute, b);
      }
    }
  }

  method FindScript(m: string, name: string) returns (r: Option<nat>)
    ensures r.Some? ==> InScripts(m, name, r.value)
    ensures r.None? ==> forall a: nat, q: nat :: !ScriptAt(m, name, a, q)
  {
    var from: nat := 0;
    while true
      invariant from <= |m|
      invariant NoScriptBefore(m, name, from)
      decreases |m| - from
    {
      var attribute := IndexOf(m, NOTE_SCRIPT, from);
      if attribute == -1 {
        return None;
      }
      var next := ExecFn(m, attribute);
      if next.Some? && Declares(m, name, next.value) {
        assert ScriptAt(m, name, attribute, next.value);
        return next;
      }
      NoScriptAt(m, name, attribute, next);
      from := attribute + |NOTE_SCRIPT|;
    }
  }

  method FindFunction(m: string, name: string) returns (r: Option<nat>)
    requires Identifier(name)
    ensures r.Some? ==> Declares(m, name, r.value) && Preferred(m, name, r.value)
    ensures r.None? ==> forall p :: !Declares(m, name, p)
  {
    r := FindInTraits(m, name, Bodies(m, 0));
    if r.Some? {
      return;
    }
    r := FindScript(m, name);
    if r.Some? {
      return;
    }
    r := ExecDeclaration(m, name, 0);
  }

  lemma BodyIsUnique(m: string, name: string, bodies: seq<nat>, i: nat, p: nat, j: nat, q: nat)
    requires FirstBody(m, name, bodies, i, p) && FirstBody(m, name, bodies, j, q)
    ensures p == q
  {}

  /** Nothing preferred is ambiguous: the code finds the one place. */
  lemma PreferredIsUnique(m: string, name: string, p: nat, q: nat)
    requires Preferred(m, name, p) && Preferred(m, name, q)
    ensures p == q
  {
    var bodies := Bodies(m, 0);
    if !NoBodyBefore(m, name, bodies, |bodies|) {
      var i :| FirstBody(m, name, bodies, i, p);
      var j :| FirstBody(m, name, bodies, j, q);
      BodyIsUnique(m, name, bodies, i, p, j, q);
    }
  }

  lemma DeclarationIsWords(m: string, name: string, p: nat, k: nat)
    requires Identifier(name) && Declares(m, name, p)
    requires p <= k < p + 2 || NameStart(m, p) <= k < NameStart(m, p) + |name|
    ensures WordAt(m, k)
  {
    if k < p + 2 {
      assert m[p..p + 2][k - p] == m[k];
    } else {
      assert m[NameStart(m, p)..NameStart(m, p) + |name|][k - NameStart(m, p)] == m[k];
    }
  }

  lemma WordIsKept(source: string, k: nat)
    requires k < |source| && WordAt(Mask(source), k)
    ensures Kept(source, k) && source[k] == Mask(source)[k]
  {}

  /** What is found in the mask is code: neither its `fn` nor its name is in a comment or a string. */
  lemma DeclarationIsCode(source: string, name: string, p: nat, k: nat, spans: seq<Span>, i: nat)
    requires Identifier(name) && Declares(Mask(source), name, p)
    requires p <= k < p + 2 || NameStart(Mask(source), p) <= k < NameStart(Mask(source), p) + |name|
    requires Tiles(source, 0, |source|, spans) && i < |spans| && spans[i].from <= k < spans[i].to && k < |source|
    ensures spans[i].kind == Plain && source[k] == Mask(source)[k]
  {
    DeclarationIsWords(Mask(source), name, p, k);
    WordIsKept(source, k);
    MaskKeepsPlainSpans(source, 0, spans, i, k);
  }

  // --- Where a signature ends ---

  /** A `>` closes a bracket unless it is an arrow's. */
  function Nesting(m: string, i: nat): int
    requires i < |m|
  {
    if m[i] == '(' || m[i] == '[' || m[i] == '<' then 1
    else if m[i] == ')' || m[i] == ']' then -1
    else if m[i] == '>' && !(i > 0 && m[i - 1] == '-') then -1
    else 0
  }

  function Depth(m: string, start: nat, i: nat): int
    requires start <= i <= |m|
  {
    if i == start then 0 else Depth(m, start, i - 1) + Nesting(m, i - 1)
  }

  ghost predicate EndsSignature(m: string, start: nat, i: nat) {
    start <= i < |m| && (m[i] == ';' || m[i] == '{') && Depth(m, start, i) == 0
  }

  /** The signature is what is before the first `;` or `{` outside every bracket, tidied; there is none if none is. */
  method ReadSignature(m: string, start: nat) returns (r: Option<string>)
    requires start <= |m|
    ensures r.Some? ==> exists end: nat :: EndsSignature(m, start, end) && r.value == Tidied(m[start..end]) + ";"
                                   && forall i | start <= i < end :: !EndsSignature(m, start, i)
    ensures r.None? ==> forall i :: !EndsSignature(m, start, i)
  {
    var depth := 0;
    for index := start to |m|
      invariant depth == Depth(m, start, index)
      invariant forall i | start <= i < index :: !EndsSignature(m, start, i)
    {
      var c := m[index];
      if c == '(' || c == '[' || c == '<' {
        depth := depth + 1;
      } else if c == ')' || c == ']' {
        depth := depth - 1;
      } else if c == '>' && (index == 0 || m[index - 1] != '-') {
        depth := depth - 1;
      } else if depth == 0 && (c == ';' || c == '{') {
        return Some(Tidied(m[start..index]) + ";");
      }
    }
    return None;
  }
}
