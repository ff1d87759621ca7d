/**
 The mask of a Rust source: the same text with spaces for whatever is in a comment
 or a string literal. A lexer that reads one character at a time says what each
 character is part of; a reading of the whole text as consecutive spans says the
 same without any state.
 */
module Masker {
  // --- The lexer, one character at a time ---

  /** What the next character is part of. */
  datatype State = Code | LineComment | BlockOpen | Block | BlockClose | Str | Escape

  predicate Reads(source: string, i: nat, c: char) {
    i < |source| && source[i] == c
  }

  predicate OpensLine(source: string, i: nat) {
    Reads(source, i, '/') && Reads(source, i + 1, '/')
  }

  predicate OpensBlock(source: string, i: nat) {
    Reads(source, i, '/') && Reads(source, i + 1, '*')
  }

  predicate ClosesBlock(source: string, i: nat) {
    Reads(source, i, '*') && Reads(source, i + 1, '/')
  }

  predicate Opens(source: string, i: nat) {
    OpensLine(source, i) || OpensBlock(source, i) || Reads(source, i, '"')
  }

  function Next(source: string, i: nat, state: State): State
    requires i < |source|
  {
    match state
    case Code =>
      if OpensLine(source, i) then LineComment
      else if OpensBlock(source, i) then BlockOpen
      else if source[i] == '"' then Str
      else Code
    case LineComment => if Reads(source, i + 1, '\n') then Code else LineComment
    case BlockOpen => Block
    case Block => if ClosesBlock(source, i) then BlockClose else Block
    case BlockClose => Code
    case Str => if source[i] == '"' then Code else if source[i] == '\\' then Escape else Str
    case Escape => Str
  }

  function StateAt(source: string, i: nat): State
    requires i <= |source|
  {
    if i == 0 then Code else Next(source, i - 1, StateAt(source, i - 1))
  }

  function Blank(c: char): char {
    if c == '\n' then '\n' else ' '
  }

  /** Code is kept, but not what opens a comment or a string. */
  predicate Kept(source: string, i: nat)
    requires i < |source|
  {
    StateAt(source, i) == Code && !Opens(source, i)
  }

  function MaskAt(source: string, i: nat): char
    requires i < |source|
  {
    if Kept(source, i) then source[i] else Blank(source[i])
  }

  function Mask(source: string): (r: string)
    ensures |r| == |source|
    ensures forall i | 0 <= i < |source| :: r[i] == '\n' <==> source[i] == '\n'
  {
    seq(|source|, i requires 0 <= i < |source| => MaskAt(source, i))
  }

  /** Nothing that opens a comment or a string is kept, and blanks open none. */
  lemma MaskOpensNothing(source: string, i: nat)
    requires i < |source|
    ensures !Opens(Mask(source), i)
  {
    assert Mask(source)[i] == MaskAt(source, i);
    assert i + 1 < |source| ==> Mask(source)[i + 1] == MaskAt(source, i + 1);
  }

  lemma {:induction false} NothingOpened(text: string, i: nat)
    requires i <= |text| && forall k | 0 <= k < i :: !Opens(text, k)
    ensures StateAt(text, i) == Code
  {
    if i > 0 {
      NothingOpened(text, i - 1);
      assert !Opens(text, i - 1);
    }
  }

  /** The mask has no comment and no string left in it. */
  lemma MaskIsAllCode(source: string, i: nat)
    requires i <= |source|
    ensures StateAt(Mask(source), i) == Code
    ensures i < |source| ==> !Opens(Mask(source), i)
  {
    forall k | 0 <= k < |source| ensures !Opens(Mask(source), k) { MaskOpensNothing(source, k); }
    NothingOpened(Mask(source), i);
  }

  lemma MaskingIsIdempotent(source: string)
    ensures Mask(Mask(source)) == Mask(source)
  {
    forall i | 0 <= i < |source| ensures Mask(Mask(source))[i] == Mask(source)[i] {
      MaskIsAllCode(source, i);
    }
  }

  // --- The whole text as spans ---

  datatype Kind = Plain | Line | Blocked | Quoted

  datatype Span = Span(kind: Kind, from: nat, to: nat)

  /** The backslashes right before `k`, from `from` on. */
  function Backslashes(source: string, from: nat, k: nat): nat
    requires from <= k <= |source|
  {
    if from < k && source[k - 1] == '\\' then 1 + Backslashes(source, from, k - 1) else 0
  }

  /** A quote ends the string opened at `from` when an even number of backslashes is right before it. */
  ghost predicate ClosesString(source: string, from: nat, k: nat)
    requires from < k < |source|
  {
    source[k] == '"' && Backslashes(source, from + 1, k) % 2 == 0
  }

  ghost predicate LineSpan(source: string, from: nat, to: nat)
    requires from < to <= |source|
  {
    && OpensLine(source, from)
    && (forall k | from <= k < to :: source[k] != '\n')
    && (to == |source| || source[to] == '\n')
  }

  ghost predicate BlockSpan(source: string, from: nat, to: nat)
    requires from < to <= |source|
  {
    && OpensBlock(source, from)
    && (forall k | from + 2 <= k < to - 2 :: !ClosesBlock(source, k))
    && (if from + 4 <= to && ClosesBlock(source, to - 2) then true
        else to == |source| && forall k | from + 2 <= k < to :: !ClosesBlock(source, k))
  }

  ghost predicate StringSpan(source: string, from: nat, to: nat)
    requires from < to <= |source|
  {
    && source[from] == '"'
    && (forall k | from < k < to - 1 :: !ClosesString(source, from, k))
    && (to == |source| || (from + 1 < to && ClosesString(source, from, to - 1)))
  }

  /** A line comment ends before the newline, a block comment at the first end mark after its opening, a string at its first unescaped quote, or else with the text. */
  ghost predicate ValidSpan(source: string, span: Span) {
    && span.from < span.to <= |source|
    && match span.kind
       case Plain => span.to == span.from + 1 && !Opens(source, span.from)
       case Line => LineSpan(source, span.from, span.to)
       case Blocked => BlockSpan(source, span.from, span.to)
       case Quoted => StringSpan(source, span.from, span.to)
  }

  /** The spans follow one another from `from` up to `to`. */
  ghost predicate Tiles(source: string, from: nat, to: nat, spans: seq<Span>)
    decreases |spans|
  {
    if spans == [] then from == to
    else spans[0].from == from && ValidSpan(source, spans[0]) && Tiles(source, spans[0].to, to, spans[1..])
  }

  /** The state the lexer should be in at `k`, inside the span. */
  ghost function Inside(source: string, span: Span, k: nat): State
    requires ValidSpan(source, span) && span.from <= k < span.to
  {
    if k == span.from then Code
    else
      match span.kind
      case Plain => Code
      case Line => LineComment
      case Blocked =>
        if k == span.from + 1 then BlockOpen
        else if k == span.to - 1 && span.from + 4 <= span.to && ClosesBlock(source, span.to - 2) then BlockClose
        else Block
      case Quoted => if Backslashes(source, span.from + 1, k) % 2 == 0 then Str else Escape
  }

  lemma StepInside(source: string, span: Span, k: nat)
    requires ValidSpan(source, span) && span.from <= k < span.to
    ensures k + 1 < span.to ==> Next(source, k, Inside(source, span, k)) == Inside(source, span, k + 1)
    ensures k + 1 == span.to < |source| ==> Next(source, k, Inside(source, span, k)) == Code
  {
    if span.kind == Quoted && k > span.from {
      assert k + 1 < span.to ==> !ClosesString(source, span.from, k);
    }
  }

  lemma {:induction false} StateInside(source: string, span: Span, k: nat)
    requires ValidSpan(source, span) && span.from <= k < span.to
    requires StateAt(source, span.from) == Code
    ensures StateAt(source, k) == Inside(source, span, k)
  {
    if k > span.from {
      StateInside(source, span, k - 1);
      StepInside(source, span, k - 1);
    }
  }

  lemma StateAfter(source: string, span: Span)
    requires ValidSpan(source, span) && StateAt(source, span.from) == Code && span.to < |source|
    ensures StateAt(source, span.to) == Code
  {
    StateInside(source, span, span.to - 1);
    StepInside(source, span, span.to - 1);
  }

  // --- What the spans are, in the text ---

  predicate Occurs(source: string, pattern: string, i: nat) {
    i + |pattern| <= |source| && source[i..i + |pattern|] == pattern
  }

  /** A quote after an even number of backslashes, and those are all there are before it. */
  ghost predicate Unescaped(source: string, from: nat, k: nat)
    requires from < k < |source|
  {
    && source[k] == '"'
    && exists n: nat :: BackslashesBefore(source, from + 1, k, n) && n % 2 == 0
  }

  ghost predicate BackslashesBefore(source: string, from: nat, k: nat, n: nat)
    requires from <= k <= |source|
  {
    && n <= k - from && (forall j | k - n <= j < k :: source[j] == '\\')
    && (k - n == from || source[k - n - 1] != '\\')
  }

  lemma {:induction false} BackslashesExactly(source: string, from: nat, k: nat, n: nat)
    requires from <= k <= |source|
    ensures Backslashes(source, from, k) == n <==> BackslashesBefore(source, from, k, n)
  {
    if from < k && source[k - 1] == '\\' {
      if n > 0 {
        BackslashesExactly(source, from, k - 1, n - 1);
      }
    }
  }

  lemma ClosesExactly(source: string, from: nat, k: nat)
    requires from < k < |source|
    ensures ClosesString(source, from, k) <==> Unescaped(source, from, k)
  {
    BackslashesExactly(source, from + 1, k, Backslashes(source, from + 1, k));
    if n: nat :| BackslashesBefore(source, from + 1, k, n) && n % 2 == 0 {
      BackslashesExactly(source, from + 1, k, n);
    }
  }

  ghost predicate Spans(source: string, kind: Kind, from: nat, to: nat)
    requires from < to <= |source|
  {
    match kind
    case Plain => to == from + 1 && !Occurs(source, "//", from) && !Occurs(source, "/*", from) && source[from] != '"'
    case Line =>
      && Occurs(source, "//", from) && (forall k | from <= k < to :: source[k] != '\n')
      && (to == |source| || source[to] == '\n')
    case Blocked =>
      && Occurs(source, "/*", from)
      && if from + 4 <= to && Occurs(source, "*/", to - 2) then forall k: nat | from + 2 <= k < to - 2 :: !Occurs(source, "*/", k)
         else to == |source| && forall k: nat | from + 2 <= k < to :: !Occurs(source, "*/", k)
    case Quoted =>
      && source[from] == '"' && (forall k | from < k < to - 1 :: !Unescaped(source, from, k))
      && (to == |source| || (from + 1 < to && Unescaped(source, from, to - 1)))
  }

  /**
   A line comment is two slashes and what is up to the end of its line; a block
   comment ends with the first end mark after its opening, a string with the first
   unescaped quote, or either with the text; other characters are plain where none
   of these starts.
   */
  lemma SpanExactly(source: string, span: Span)
    requires span.from < span.to <= |source|
    ensures ValidSpan(source, span) <==> Spans(source, span.kind, span.from, span.to)
  {
    OpensExactly(source, span.from);
    forall k: nat ensures Occurs(source, "*/", k) <==> ClosesBlock(source, k) { ClosesAt(source, k); }
    forall k: nat | span.from < k < |source| ensures ClosesString(source, span.from, k) <==> Unescaped(source, span.from, k) {
      ClosesExactly(source, span.from, k);
    }
  }

  lemma OpensExactly(source: string, i: nat)
    requires i < |source|
    ensures OpensLine(source, i) <==> Occurs(source, "//", i)
    ensures OpensBlock(source, i) <==> Occurs(source, "/*", i)
  {
    assert i + 2 <= |source| ==> source[i..i + 2] == [source[i], source[i + 1]];
  }

  /**
   However the text is read as spans, the mask keeps exactly what is in none of its
   comments and strings, and has a space for all else but line breaks.
   */
  lemma {:induction false} MaskKeepsPlainSpans(source: string, from: nat, spans: seq<Span>, i: nat, k: nat)
    requires Tiles(source, from, |source|, spans) && from <= |source| && (from < |source| ==> StateAt(source, from) == Code)
    requires i < |spans| && spans[i].from <= k < spans[i].to && k < |source|
    ensures Kept(source, k) <==> spans[i].kind == Plain
    ensures Mask(source)[k] == if spans[i].kind == Plain || source[k] == '\n' then source[k] else ' '
    decreases |spans|
  {
    if i == 0 {
      StateInside(source, spans[0], k);
    } else {
      if spans[0].to < |source| { StateAfter(source, spans[0]); }
      MaskKeepsPlainSpans(source, spans[0].to, spans[1..], i - 1, k);
    }
  }

  lemma {:induction false} OneMoreSpan(source: string, from: nat, to: nat, spans: seq<Span>, span: Span)
    requires Tiles(source, from, to, spans) && ValidSpan(source, span) && span.from == to
    ensures Tiles(source, from, span.to, spans + [span])
    decreases |spans|
  {
    if spans == [] {
      assert ([] + [span])[1..] == [];
    } else {
      OneMoreSpan(source, spans[0].to, to, spans[1..], span);
      assert (spans + [span])[1..] == spans[1..] + [span];
    }
  }

  // --- The masker itself, which skips from span to span ---

  /** The first occurrence from `from` on, or -1. */
  function IndexOf(source: string, pattern: string, from: nat): (r: int)
    requires from <= |source|
    ensures -1 <= r
    ensures r < 0 ==> forall k | from <= k <= |source| :: !Occurs(source, pattern, k)
    ensures r >= 0 ==> r >= from && Occurs(source, pattern, r) && forall k | from <= k < r :: !Occurs(source, pattern, k)
    decreases |source| - from
  {
    if Occurs(source, pattern, from) then from else if from == |source| then -1 else IndexOf(source, pattern, from + 1)
  }

  function Blanked(text: string): (r: string)
    ensures |r| == |text| && forall i | 0 <= i < |text| :: r[i] == Blank(text[i])
  {
    if text == "" then "" else [Blank(text[0])] + Blanked(text[1..])
  }

  function Min(a: nat, b: nat): nat {
    if a < b then a else b
  }

  lemma LineEnds(source: string, index: nat, end: nat)
    requires OpensLine(source, index) && index <= end <= |source|
    requires forall k | index <= k < end :: !Occurs(source, "\n", k)
    requires end == |source| || Occurs(source, "\n", end)
    ensures ValidSpan(source, Span(Line, index, end))
  {
    assert forall k | index <= k < |source| :: Occurs(source, "\n", k) <==> source[k] == '\n';
  }

  lemma ClosesAt(source: string, k: nat)
    ensures Occurs(source, "*/", k) <==> ClosesBlock(source, k)
  {}

  lemma BlockEnds(source: string, index: nat, close: int)
    requires OpensBlock(source, index) && close == IndexOf(source, "*/", index + 2)
    ensures ValidSpan(source, Span(Blocked, index, if close == -1 then |source| else close + 2))
  {
    forall k: nat ensures Occurs(source, "*/", k) <==> ClosesBlock(source, k) { ClosesAt(source, k); }
  }

  lemma SliceGrows(mask: string, from: nat, to: nat)
    requires from <= to <= |mask|
    ensures mask[..from] + mask[from..to] == mask[..to]
  {}

  lemma KeptInside(source: string, span: Span)
    requires ValidSpan(source, span) && StateAt(source, span.from) == Code
    ensures forall k | span.from <= k < span.to :: Kept(source, k) <==> span.kind == Plain
  {
    forall k | span.from <= k < span.to ensures Kept(source, k) <==> span.kind == Plain { StateInside(source, span, k); }
  }

  /** What is nowhere kept is masked by blanking it. */
  lemma BlankedIsMasked(source: string, from: nat, to: nat)
    requires from <= to <= |source| && forall k | from <= k < to :: !Kept(source, k)
    ensures Mask(source)[from..to] == Blanked(source[from..to])
  {
    forall k | from <= k < to ensures Mask(source)[k] == Blanked(source[from..to])[k - from] {
      assert Mask(source)[k] == MaskAt(source, k) && source[from..to][k - from] == source[k];
    }
  }

  /** The text up to `index` is masked, and read as spans. */
  ghost predicate MaskedTo(source: string, index: nat, masked: string, spans: seq<Span>) {
    && index <= |source| && (index < |source| ==> StateAt(source, index) == Code)
    && masked == Mask(source)[..index]
    && Tiles(source, 0, index, spans)
  }

  /** What a span is written as. */
  function Written(source: string, span: Span): string
    requires span.from < span.to <= |source|
  {
    if span.kind == Plain then [source[span.from]] else Blanked(source[span.from..span.to])
  }

  lemma WrittenIsMasked(source: string, span: Span)
    requires ValidSpan(source, span) && StateAt(source, span.from) == Code
    ensures Mask(source)[span.from..span.to] == Written(source, span)
  {
    KeptInside(source, span);
    if span.kind == Plain {
      assert Mask(source)[span.from] == source[span.from] && span.to == span.from + 1;
    } else {
      BlankedIsMasked(source, span.from, span.to);
    }
  }

  lemma SpanAdvances(source: string, masked: string, spans: seq<Span>, span: Span)
    requires span.from < |source| && MaskedTo(source, span.from, masked, spans) && ValidSpan(source, span)
    ensures MaskedTo(source, span.to, masked + Written(source, span), spans + [span])
  {
    WrittenIsMasked(source, span);
    SliceGrows(Mask(source), span.from, span.to);
    OneMoreSpan(source, 0, span.from, spans, span);
    if span.to < |source| { StateAfter(source, span); }
  }

  /** Where the string opened at `index` ends. */
  method StringEnd(source: string, index: nat) returns (end: nat)
    requires Reads(source, index, '"')
    ensures ValidSpan(source, Span(Quoted, index, end))
  {
    end := index + 1;
    while end < |source| && source[end] != '"'
      invariant index < end <= |source| + 1
      invariant forall k | index < k < |source| && k < end :: !ClosesString(source, index, k)
      invariant end <= |source| ==> Backslashes(source, index + 1, end) % 2 == 0
    {
      end := end + if source[end] == '\\' then 2 else 1;
    }
    end := Min(end + 1, |source|);
  }

  lemma AllIsMasked(source: string, index: nat, masked: string, spans: seq<Span>)
    requires MaskedTo(source, index, masked, spans) && index >= |source|
    ensures masked == Mask(source) && Tiles(source, 0, |source|, spans)
  {}

  /** Where the comment or string that opens at `index` ends. */
  method SkipEnd(source: string, index: nat) returns (end: nat, ghost kind: Kind)
    requires index < |source| && Opens(source, index)
    ensures ValidSpan(source, Span(kind, index, end)) && kind != Plain
  {
    if OpensLine(source, index) {
      var newline := IndexOf(source, "\n", index);
      end, kind := if newline == -1 then |source| else newline, Line;
      LineEnds(source, index, end);
    } else if OpensBlock(source, index) {
      var close := IndexOf(source, "*/", index + 2);
      end, kind := if close == -1 then |source| else close + 2, Blocked;
      BlockEnds(source, index, close);
    } else {
      end := StringEnd(source, index);
      kind := Quoted;
    }
  }

  lemma CodeAdvances(source: string, index: nat, masked: string, spans: seq<Span>)
    requires index < |source| && !Opens(source, index) && MaskedTo(source, index, masked, spans)
    ensures MaskedTo(source, index + 1, masked + [source[index]], spans + [Span(Plain, index, index + 1)])
  {
    SpanAdvances(source, masked, spans, Span(Plain, index, index + 1));
  }

  lemma SkipAdvances(source: string, span: Span, masked: string, spans: seq<Span>)
    requires ValidSpan(source, span) && span.kind != Plain && MaskedTo(source, span.from, masked, spans)
    ensures MaskedTo(source, span.to, masked + Blanked(source[span.from..span.to]), spans + [span])
  {
    SpanAdvances(source, masked, spans, span);
  }

  method MaskSource(source: string) returns (masked: string)
    ensures masked == Mask(source)
    ensures exists spans :: Tiles(source, 0, |source|, spans)
  {
    masked := "";
    var index := 0;
    ghost var spans: seq<Span> := [];
    while index < |source|
      invariant MaskedTo(source, index, masked, spans)
    {
      if !Opens(source, index) {
        CodeAdvances(source, index, masked, spans);
        spans := spans + [Span(Plain, index, index + 1)];
        masked, index := masked + [source[index]], index + 1;
      } else {
        ghost var kind;
        var end;
        end, kind := SkipEnd(source, index);
        SkipAdvances(source, Span(kind, index, end), masked, spans);
        spans := spans + [Span(kind, index, end)];
        masked, index := masked + Blanked(source[index..end]), end;
      }
    }
    AllIsMasked(source, index, masked, spans);
  }
}
