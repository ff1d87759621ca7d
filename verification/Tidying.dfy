/**
 Tidying a signature read from the source: its whitespace collapsed, and what a
 wrapped parameter list adds around its parentheses dropped.
 */
module Tidying {
  predicate Space(c: char) {
    || c == ' ' || '\t' <= c <= '\r' || c == '\U{A0}' || c == '\U{1680}' || '\U{2000}' <= c <= '\U{200A}'
    || c == '\U{2028}' || c == '\U{2029}' || c == '\U{202F}' || c == '\U{205F}' || c == '\U{3000}' || c == '\U{FEFF}'
  }

  function SkipSpaces(m: string, i: nat): (r: nat)
    requires i <= |m|
    ensures i <= r <= |m|
    ensures forall k | i <= k < r :: Space(m[k])
    ensures r < |m| ==> !Space(m[r])
    decreases |m| - i
  {
    if i < |m| && Space(m[i]) then SkipSpaces(m, i + 1) else i
  }

  /** What a pass writes next, and how much it reads for it. */
  datatype Step = Step(out: string, read: nat)

  function CollapseStep(s: string): (r: Step)
    requires s != ""
    ensures 0 < r.read <= |s|
  {
    if Space(s[0]) then Step(" ", SkipSpaces(s, 1)) else Step([s[0]], 1)
  }

  /** Each run of whitespace becomes a space. */
  function Collapse(s: string): string
    decreases |s|
  {
    if s == "" then "" else CollapseStep(s).out + Collapse(s[CollapseStep(s).read..])
  }

  function OpenStep(s: string): (r: Step)
    requires s != ""
    ensures 0 < r.read <= |s|
  {
    Step([s[0]], if s[0] == '(' then SkipSpaces(s, 1) else 1)
  }

  /** No whitespace after a `(`. */
  function TightOpen(s: string): string
    decreases |s|
  {
    if s == "" then "" else OpenStep(s).out + TightOpen(s[OpenStep(s).read..])
  }

  /** Past the `)` that a comma, whitespace or both here lead to, if they do. */
  function CloseStep(s: string): (r: Step)
    requires s != ""
    ensures 0 < r.read <= |s|
  {
    var i := SkipSpaces(s, if s[0] == ',' then 1 else 0);
    if i < |s| && s[i] == ')' then Step(")", i + 1) else Step([s[0]], 1)
  }

  /** No whitespace before a `)`, nor one comma before that. */
  function TightClose(s: string): string
    decreases |s|
  {
    if s == "" then "" else CloseStep(s).out + TightClose(s[CloseStep(s).read..])
  }

  /** A signature tight around its parentheses. */
  function Tight(s: string): string {
    TightClose(TightOpen(Collapse(s)))
  }

  function TrimEnd(s: string): string {
    if s != "" && Space(s[|s| - 1]) then TrimEnd(s[..|s| - 1]) else s
  }

  function Tidied(s: string): string {
    var tight := Tight(s);
    TrimEnd(tight[SkipSpaces(tight, 0)..])
  }

  // --- Text after text ---

  /** Whitespace does not run on from `a` into `b`. */
  predicate Breaks(a: string, b: string) {
    a == "" || b == "" || !Space(a[|a| - 1]) || !Space(b[0])
  }

  lemma Regroup(a: string, b: string, c: string)
    ensures a + (b + c) == a + b + c
  {}

  lemma CutAfter(a: string, b: string, i: nat)
    requires i <= |a|
    ensures (a + b)[i..] == a[i..] + b
  {}

  lemma NothingBefore(b: string)
    ensures "" + b == b
  {}

  lemma {:induction false} SkipInFirst(a: string, b: string, i: nat)
    requires i <= |a| && (b == "" || !Space(b[0]) || SkipSpaces(a, i) < |a|)
    ensures SkipSpaces(a + b, i) == SkipSpaces(a, i)
    decreases |a| - i
  {
    if i < |a| {
      assert (a + b)[i] == a[i];
      if Space(a[i]) { SkipInFirst(a, b, i + 1); }
    } else {
      assert b != "" ==> (a + b)[i] == b[0];
    }
  }

  lemma BreaksAfter(a: string, b: string, i: nat)
    requires Breaks(a, b) && i <= |a|
    ensures Breaks(a[i..], b)
  {}

  lemma CollapseStepInFirst(a: string, b: string)
    requires a != "" && Breaks(a, b)
    ensures CollapseStep(a + b) == CollapseStep(a)
  {
    assert (a + b)[0] == a[0];
    if Space(a[0]) { SkipInFirst(a, b, 1); }
  }

  lemma {:induction false} CollapseConcat(a: string, b: string)
    requires Breaks(a, b)
    ensures Collapse(a + b) == Collapse(a) + Collapse(b)
    decreases |a|
  {
    if a == "" {
      NothingBefore(b);
      NothingBefore(Collapse(b));
    } else {
      var step := CollapseStep(a);
      CollapseStepInFirst(a, b);
      CutAfter(a, b, step.read);
      BreaksAfter(a, b, step.read);
      CollapseConcat(a[step.read..], b);
      Regroup(step.out, Collapse(a[step.read..]), Collapse(b));
    }
  }

  lemma OpenStepInFirst(a: string, b: string)
    requires a != "" && (b == "" || !Space(b[0]))
    ensures OpenStep(a + b) == OpenStep(a)
  {
    assert (a + b)[0] == a[0];
    SkipInFirst(a, b, 1);
  }

  lemma {:induction false} TightOpenConcat(a: string, b: string)
    requires b == "" || !Space(b[0])
    ensures TightOpen(a + b) == TightOpen(a) + TightOpen(b)
    decreases |a|
  {
    if a == "" {
      NothingBefore(b);
      NothingBefore(TightOpen(b));
    } else {
      var step := OpenStep(a);
      OpenStepInFirst(a, b);
      CutAfter(a, b, step.read);
      TightOpenConcat(a[step.read..], b);
      Regroup(step.out, TightOpen(a[step.read..]), TightOpen(b));
    }
  }

  /** A text that no `)` after it takes anything from. */
  predicate Firm(a: string) {
    a == "" || (!Space(a[|a| - 1]) && a[|a| - 1] != ',')
  }

  lemma FirmAfter(a: string, i: nat)
    requires Firm(a) && i <= |a|
    ensures Firm(a[i..])
  {}

  lemma CloseStepInFirst(a: string, b: string)
    requires a != "" && Firm(a)
    ensures CloseStep(a + b) == CloseStep(a)
  {
    var i := if a[0] == ',' then 1 else 0;
    assert (a + b)[0] == a[0];
    assert !Space(a[|a| - 1]) && a[|a| - 1] != ',';
    SkipInFirst(a, b, i);
  }

  lemma {:induction false} TightCloseConcat(a: string, b: string)
    requires Firm(a)
    ensures TightClose(a + b) == TightClose(a) + TightClose(b)
    decreases |a|
  {
    if a == "" {
      NothingBefore(b);
      NothingBefore(TightClose(b));
    } else {
      var step := CloseStep(a);
      CloseStepInFirst(a, b);
      CutAfter(a, b, step.read);
      FirmAfter(a, step.read);
      TightCloseConcat(a[step.read..], b);
      Regroup(step.out, TightClose(a[step.read..]), TightClose(b));
    }
  }

  // --- A wrapped parameter list ---

  predicate Blank(w: string) {
    forall i | 0 <= i < |w| :: Space(w[i])
  }

  lemma SkipsAll(w: string, i: nat)
    requires i <= |w| && forall k | i <= k < |w| :: Space(w[k])
    ensures SkipSpaces(w, i) == |w|
  {}

  lemma BlankCollapses(w: string)
    requires Blank(w)
    ensures Collapse(w) == if w == "" then "" else " "
  {
    if w != "" {
      SkipsAll(w, 1);
      assert w[|w|..] == "";
    }
  }

  lemma LastIsKept(x: string)
    requires x != "" && !Space(x[|x| - 1])
    ensures var tight := TightOpen(Collapse(x)); tight != "" && tight[|tight| - 1] == x[|x| - 1]
  {
    var last := [x[|x| - 1]];
    assert x == x[..|x| - 1] + last && last[1..] == "";
    CollapseConcat(x[..|x| - 1], last);
    assert Collapse(last) == last && TightOpen(last) == last;
    TightOpenConcat(Collapse(x[..|x| - 1]), last);
  }

  lemma MarkCollapses(c: char)
    requires !Space(c)
    ensures Collapse([c]) == [c]
  {
    assert [c][1..] == "";
  }

  lemma CollapseOpened(head: string, w: string, x: string)
    requires x != "" && !Space(x[0])
    ensures Collapse(head + "(" + w + x) == Collapse(head) + "(" + Collapse(w) + Collapse(x)
  {
    CollapseConcat(head + "(" + w, x);
    CollapseConcat(head + "(", w);
    CollapseConcat(head, "(");
    MarkCollapses('(');
  }

  lemma OpenAlone(blank: string)
    requires Blank(blank)
    ensures TightOpen("(" + blank) == "("
  {
    SkipsAll("(" + blank, 1);
    assert ("(" + blank)[|"(" + blank|..] == "";
  }

  lemma TightOpened(h: string, blank: string, x: string)
    requires Blank(blank) && x != "" && !Space(x[0])
    ensures TightOpen(h + "(" + blank + x) == TightOpen(h) + "(" + TightOpen(x)
  {
    TightOpenConcat(h + "(" + blank, x);
    Regroup(h, "(", blank);
    TightOpenConcat(h, "(" + blank);
    OpenAlone(blank);
  }

  /** A text as far as what follows its parameters is tight after the `(`. */
  lemma OpenedTight(head: string, w: string, x: string)
    requires Blank(w) && x != "" && !Space(x[0])
    ensures TightOpen(Collapse(head + "(" + w + x)) == TightOpen(Collapse(head)) + "(" + TightOpen(Collapse(x))
  {
    CollapseOpened(head, w, x);
    BlankCollapses(w);
    TightOpened(Collapse(head), Collapse(w), Collapse(x));
  }

  lemma CollapseClosed(v: string, tail: string)
    ensures Collapse("," + v + ")" + tail) == "," + Collapse(v) + ")" + Collapse(tail)
    ensures Collapse(")" + tail) == ")" + Collapse(tail)
  {
    CollapseConcat("," + v + ")", tail);
    CollapseConcat("," + v, ")");
    CollapseConcat(",", v);
    CollapseConcat(")", tail);
    MarkCollapses(',');
    MarkCollapses(')');
  }

  lemma CommaOpens(blank: string)
    requires blank == "" || blank == " "
    ensures TightOpen("," + blank) == "," + blank
  {
    assert ("," + blank)[1..] == blank;
    assert " "[1..] == "";
  }

  lemma ClosedOpens(blank: string, end: string)
    requires blank == "" || blank == " "
    ensures TightOpen("," + blank + ")" + end) == "," + blank + ")" + TightOpen(end)
    ensures TightOpen(")" + end) == ")" + TightOpen(end)
  {
    assert (")" + end)[1..] == end;
    Regroup("," + blank, ")", end);
    TightOpenConcat("," + blank, ")" + end);
    CommaOpens(blank);
    Regroup("," + blank, ")", TightOpen(end));
  }

  lemma ClosedCloses(blank: string, z: string)
    requires blank == "" || blank == " "
    ensures TightClose("," + blank + ")" + z) == ")" + TightClose(z) && TightClose(")" + z) == ")" + TightClose(z)
  {
    var whole := "," + blank + ")" + z;
    assert (")" + z)[1..] == z;
    assert whole[1 + |blank|] == ')' && whole[2 + |blank|..] == z;
    assert blank != "" ==> whole[1] == ' ';
    assert SkipSpaces(whole, 1) == 1 + |blank|;
  }

  /** The comma and the line break before the `)` leave no trace. */
  lemma ClosedTight(v: string, tail: string)
    requires Blank(v)
    ensures TightClose(TightOpen(Collapse("," + v + ")" + tail))) == TightClose(TightOpen(Collapse(")" + tail)))
  {
    CollapseClosed(v, tail);
    BlankCollapses(v);
    ClosedOpens(Collapse(v), Collapse(tail));
    ClosedCloses(Collapse(v), TightOpen(Collapse(tail)));
  }

  /** What follows a text that ends in neither whitespace nor a comma, and starts with `,` or `)`, is tidied apart. */
  lemma TidiedApart(left: string, right: string)
    requires left != "" && Firm(left) && right != "" && (right[0] == ',' || right[0] == ')')
    ensures TightClose(TightOpen(Collapse(left + right)))
         == TightClose(TightOpen(Collapse(left))) + TightClose(TightOpen(Collapse(right)))
  {
    CollapseConcat(left, right);
    assert Collapse(right)[0] == right[0];
    TightOpenConcat(Collapse(left), Collapse(right));
    LastIsKept(left);
    TightCloseConcat(TightOpen(Collapse(left)), TightOpen(Collapse(right)));
  }

  lemma LastOf(a: string, b: string)
    requires b != ""
    ensures (a + b)[|a + b| - 1] == b[|b| - 1]
  {}

  lemma ClosedLong(before: string, v: string, tail: string)
    requires before != "" && Firm(before) && Blank(v)
    ensures Tight(before + "," + v + ")" + tail) == Tight(before) + Tight(")" + tail)
  {
    Regroup(before, ",", v);
    Regroup(before, "," + v, ")");
    Regroup(before, "," + v + ")", tail);
    TidiedApart(before, "," + v + ")" + tail);
    ClosedTight(v, tail);
  }

  lemma ClosedShort(before: string, tail: string)
    requires before != "" && Firm(before)
    ensures Tight(before + ")" + tail) == Tight(before) + Tight(")" + tail)
  {
    Regroup(before, ")", tail);
    TidiedApart(before, ")" + tail);
  }

  lemma OpenedAlike(head: string, w: string, wrapped: string, oneLine: string)
    requires Blank(w) && Collapse(wrapped) == Collapse(oneLine)
    requires wrapped != "" && !Space(wrapped[0]) && oneLine != "" && !Space(oneLine[0])
    ensures Tight(head + "(" + w + wrapped) == Tight(head + "(" + oneLine)
  {
    OpenedTight(head, w, wrapped);
    OpenedTight(head, "", oneLine);
    NothingAfter(head + "(");
  }

  lemma NothingAfter(a: string)
    ensures a + "" == a
  {}

  lemma FirmEnd(a: string, b: string)
    requires b != "" && Firm(b)
    ensures Firm(a + b)
  {}

  /**
   A parameter list wrapped over lines, each parameter on its own and a comma after
   the last, reads as it does on one line.
   */
  lemma WrappedReadsAsOneLine(head: string, w: string, wrapped: string, v: string, oneLine: string, tail: string)
    requires Blank(w) && Blank(v) && Collapse(wrapped) == Collapse(oneLine)
    requires wrapped != "" && !Space(wrapped[0]) && Firm(wrapped)
    requires oneLine != "" && !Space(oneLine[0]) && Firm(oneLine)
    ensures Tidied(head + "(" + w + wrapped + "," + v + ")" + tail) == Tidied(head + "(" + oneLine + ")" + tail)
  {
    FirmEnd(head + "(" + w, wrapped);
    FirmEnd(head + "(", oneLine);
    OpenedAlike(head, w, wrapped, oneLine);
    ClosedLong(head + "(" + w + wrapped, v, tail);
    ClosedShort(head + "(" + oneLine, tail);
  }

  // --- On one line ---

  /** Whatever whitespace is left is spaces. */
  ghost predicate OnOneLine(s: string) {
    forall c | c in s && Space(c) :: c == ' '
  }

  lemma {:induction false} CollapseIsOnOneLine(s: string)
    ensures OnOneLine(Collapse(s))
    decreases |s|
  {
    if s != "" { CollapseIsOnOneLine(s[CollapseStep(s).read..]); }
  }

  lemma {:induction false} TightOpenKeepsLine(s: string)
    requires OnOneLine(s)
    ensures OnOneLine(TightOpen(s))
    decreases |s|
  {
    if s != "" { TightOpenKeepsLine(s[OpenStep(s).read..]); }
  }

  lemma {:induction false} TightCloseKeepsLine(s: string)
    requires OnOneLine(s)
    ensures OnOneLine(TightClose(s))
    decreases |s|
  {
    if s != "" { TightCloseKeepsLine(s[CloseStep(s).read..]); }
  }

  lemma {:induction false} TrimEndKeepsLine(s: string)
    requires OnOneLine(s)
    ensures OnOneLine(TrimEnd(s)) && (TrimEnd(s) != "" ==> TrimEnd(s)[0] == s[0] && !Space(TrimEnd(s)[|TrimEnd(s)| - 1]))
  {
    if s != "" && Space(s[|s| - 1]) { TrimEndKeepsLine(s[..|s| - 1]); }
  }

  /** A tidied signature is on one line, with no whitespace around it. */
  lemma TidiedIsOnOneLine(s: string)
    ensures OnOneLine(Tidied(s))
    ensures Tidied(s) != "" ==> !Space(Tidied(s)[0]) && !Space(Tidied(s)[|Tidied(s)| - 1])
  {
    var tight := Tight(s);
    CollapseIsOnOneLine(s);
    TightOpenKeepsLine(Collapse(s));
    TightCloseKeepsLine(TightOpen(Collapse(s)));
    TrimEndKeepsLine(tight[SkipSpaces(tight, 0)..]);
  }
}
