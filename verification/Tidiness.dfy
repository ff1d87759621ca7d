/**
 What tidying is, without its passes: the text but for its whitespace is kept, a
 run of whitespace reads as one space or, around parentheses, as none, and a text
 that is tidy stays as it is.
 */
module Tidiness {
  import opened Tidying

  // --- The text is kept ---

  /** The text without its whitespace. */
  function Visible(s: string): string {
    if s == "" then "" else (if Space(s[0]) then "" else [s[0]]) + Visible(s[1..])
  }

  /** And without a comma right before a `)`. */
  function DropCommas(v: string): string {
    if v == "" then ""
    else if v[0] == ',' && |v| > 1 && v[1] == ')' then DropCommas(v[1..])
    else [v[0]] + DropCommas(v[1..])
  }

  lemma {:induction false} VisiblePast(s: string, i: nat)
    requires i <= |s|
    ensures Visible(s[i..]) == Visible(s[SkipSpaces(s, i)..])
    ensures var j := SkipSpaces(s, i); j < |s| ==> Visible(s[i..]) == [s[j]] + Visible(s[j + 1..])
    ensures SkipSpaces(s, i) == |s| ==> Visible(s[i..]) == ""
    decreases |s| - i
  {
    if i < |s| {
      assert s[i..][0] == s[i] && s[i..][1..] == s[i + 1..];
      if Space(s[i]) {
        VisiblePast(s, i + 1);
        NothingBefore(Visible(s[i + 1..]));
      }
    }
  }

  lemma {:induction false} VisibleConcat(a: string, b: string)
    ensures Visible(a + b) == Visible(a) + Visible(b)
    decreases |a|
  {
    if a == "" {
      NothingBefore(b);
      NothingBefore(Visible(b));
    } else {
      CutAfter(a, b, 1);
      VisibleConcat(a[1..], b);
      Regroup(if Space(a[0]) then "" else [a[0]], Visible(a[1..]), Visible(b));
    }
  }

  lemma VisibleOne(c: char)
    ensures Visible([c]) == if Space(c) then "" else [c]
  {
    assert [c][1..] == "";
  }

  lemma {:induction false} CollapseKeepsText(s: string)
    ensures Visible(Collapse(s)) == Visible(s)
    decreases |s|
  {
    if s != "" {
      var step := CollapseStep(s);
      CollapseKeepsText(s[step.read..]);
      VisibleConcat(step.out, Collapse(s[step.read..]));
      VisibleOne(step.out[0]);
      NothingBefore(Visible(s[step.read..]));
      if Space(s[0]) { VisiblePast(s, 1); }
    }
  }

  lemma {:induction false} TightOpenKeepsText(s: string)
    ensures Visible(TightOpen(s)) == Visible(s)
    decreases |s|
  {
    if s != "" {
      var step := OpenStep(s);
      TightOpenKeepsText(s[step.read..]);
      VisibleConcat(step.out, TightOpen(s[step.read..]));
      VisibleOne(s[0]);
      if s[0] == '(' { VisiblePast(s, 1); }
    }
  }

  lemma DropsOne(v: string)
    ensures DropCommas("," + (")" + v)) == ")" + DropCommas(v) && DropCommas(")" + v) == ")" + DropCommas(v)
  {
    assert (")" + v)[1..] == v && ("," + (")" + v))[1..] == ")" + v;
  }

  lemma {:induction false} TightCloseDropsCommas(s: string)
    ensures Visible(TightClose(s)) == DropCommas(Visible(s))
    decreases |s|
  {
    if s != "" {
      var step, from := CloseStep(s), if s[0] == ',' then 1 else 0;
      var i := SkipSpaces(s, from);
      TightCloseDropsCommas(s[step.read..]);
      VisibleConcat(step.out, TightClose(s[step.read..]));
      VisibleOne(step.out[0]);
      VisiblePast(s, from);
      assert s[0..] == s;
      if i < |s| && s[i] == ')' {
        DropsOne(Visible(s[i + 1..]));
      } else if s[0] != ',' {
        KeepsOne(s);
      } else {
        assert ([s[0]] + Visible(s[1..]))[1..] == Visible(s[1..]);
      }
    }
  }

  lemma KeepsOne(s: string)
    requires s != "" && s[0] != ','
    ensures DropCommas(Visible(s)) == (if Space(s[0]) then "" else [s[0]]) + DropCommas(Visible(s[1..]))
  {
    NothingBefore(Visible(s[1..]));
    NothingBefore(DropCommas(Visible(s[1..])));
    if !Space(s[0]) { assert Visible(s)[1..] == Visible(s[1..]); }
  }

  lemma {:induction false} TrimEndKeepsText(s: string)
    ensures Visible(TrimEnd(s)) == Visible(s)
  {
    if s != "" && Space(s[|s| - 1]) {
      var front, last := s[..|s| - 1], s[|s| - 1];
      TrimEndKeepsText(front);
      assert s == front + [last];
      VisibleConcat(front, [last]);
      VisibleOne(last);
      NothingAfter(Visible(front));
    }
  }

  /** Tidying keeps the text in order, but for its whitespace and a comma before each `)`. */
  lemma TidyingKeepsText(s: string)
    ensures Visible(Tidied(s)) == DropCommas(Visible(s))
  {
    var tight := Tight(s);
    CollapseKeepsText(s);
    TightOpenKeepsText(Collapse(s));
    TightCloseDropsCommas(TightOpen(Collapse(s)));
    VisiblePast(tight, 0);
    assert tight[0..] == tight;
    TrimEndKeepsText(tight[SkipSpaces(tight, 0)..]);
  }

  // --- Where its whitespace is kept ---

  /** Any run of whitespace reads as a space. */
  lemma AnyRunIsASpace(a: string, w: string, b: string)
    requires Blank(w) && w != "" && (a == "" || !Space(a[|a| - 1])) && (b == "" || !Space(b[0]))
    ensures Tidied(a + w + b) == Tidied(a + " " + b)
  {
    CollapseConcat(a + w, b);
    CollapseConcat(a, w);
    CollapseConcat(a + " ", b);
    CollapseConcat(a, " ");
    BlankCollapses(w);
    BlankCollapses(" ");
  }

  /** Nothing is left of one after a `(`. */
  lemma NoneAfterOpen(a: string, w: string, b: string)
    requires Blank(w) && b != "" && !Space(b[0])
    ensures Tidied(a + "(" + w + b) == Tidied(a + "(" + b)
  {
    OpenedAlike(a, w, b, b);
  }

  /** A text that neither a `(` nor whitespace runs on from. */
  predicate Shut(a: string) {
    a == "" || (!Space(a[|a| - 1]) && a[|a| - 1] != '(')
  }

  lemma ShutAfter(a: string, i: nat)
    requires Shut(a) && i <= |a|
    ensures Shut(a[i..])
  {}

  lemma ShutStep(a: string, b: string)
    requires a != "" && Shut(a)
    ensures OpenStep(a + b) == OpenStep(a)
  {
    assert (a + b)[0] == a[0];
    if a[0] == '(' {
      assert 1 < |a| && !Space(a[|a| - 1]);
      SkipInFirst(a, b, 1);
    }
  }

  lemma {:induction false} TightOpenShut(a: string, b: string)
    requires Shut(a)
    ensures TightOpen(a + b) == TightOpen(a) + TightOpen(b)
    decreases |a|
  {
    if a == "" {
      NothingBefore(b);
      NothingBefore(TightOpen(b));
    } else {
      var step := OpenStep(a);
      ShutStep(a, b);
      CutAfter(a, b, step.read);
      ShutAfter(a, step.read);
      TightOpenShut(a[step.read..], b);
      Regroup(step.out, TightOpen(a[step.read..]), TightOpen(b));
    }
  }

  lemma CollapsedEnd(a: string)
    requires a != "" && !Space(a[|a| - 1])
    ensures Collapse(a) != "" && Collapse(a)[|Collapse(a)| - 1] == a[|a| - 1]
  {
    var last := [a[|a| - 1]];
    assert a == a[..|a| - 1] + last;
    CollapseConcat(a[..|a| - 1], last);
    MarkCollapses(last[0]);
  }

  lemma SpaceCloses(blank: string, z: string)
    requires blank == "" || blank == " "
    ensures TightOpen(blank + ")" + z) == blank + ")" + TightOpen(z)
    ensures TightClose(blank + ")" + z) == ")" + TightClose(z)
  {
    var whole := blank + ")" + z;
    assert (")" + z)[1..] == z;
    assert whole[|blank|] == ')' && whole[|blank| + 1..] == z;
    assert blank != "" ==> whole[0] == ' ' && whole[1..] == ")" + z;
    assert SkipSpaces(whole, 0) == |blank|;
  }

  lemma ClosedApart(a: string, blank: string, t: string)
    requires a != "" && Firm(a) && a[|a| - 1] != '(' && (blank == "" || blank == " ")
    ensures TightClose(TightOpen(Collapse(a) + (blank + ")" + t))) == Tight(a) + (")" + TightClose(TightOpen(t)))
  {
    var collapsed, tight := Collapse(a), TightOpen(Collapse(a));
    CollapsedEnd(a);
    TightOpenShut(collapsed, blank + ")" + t);
    SpaceCloses(blank, t);
    assert TightOpen(collapsed + (blank + ")" + t)) == tight + (blank + ")" + TightOpen(t));
    LastIsKept(a);
    TightCloseConcat(tight, blank + ")" + TightOpen(t));
    SpaceCloses(blank, TightOpen(t));
  }

  lemma CollapseBeforeClose(a: string, v: string, t: string)
    requires Blank(v) && a != "" && !Space(a[|a| - 1])
    ensures Collapse(a + v + ")" + t) == Collapse(a) + (Collapse(v) + ")" + Collapse(t))
  {
    CollapseConcat(a + v + ")", t);
    CollapseConcat(a + v, ")");
    CollapseConcat(a, v);
    MarkCollapses(')');
    Regroup(Collapse(a), Collapse(v) + ")", Collapse(t));
    Regroup(Collapse(a), Collapse(v), ")");
  }

  /** Nor of one before a `)`. */
  lemma NoneBeforeClose(a: string, v: string, t: string)
    requires Blank(v) && a != "" && Firm(a) && a[|a| - 1] != '('
    ensures Tidied(a + v + ")" + t) == Tidied(a + ")" + t)
  {
    CollapseBeforeClose(a, v, t);
    CollapseBeforeClose(a, "", t);
    NothingAfter(a);
    BlankCollapses(v);
    ClosedApart(a, Collapse(v), Collapse(t));
    ClosedApart(a, "", Collapse(t));
  }

  // --- What stays as it is ---

  /** Of two characters next to each other, what tidying leaves alone. */
  predicate StaysBeside(c: char, d: char) {
    && !(Space(c) && Space(d)) && !(c == '(' && Space(d))
    && !(Space(c) && d == ')') && !(c == ',' && d == ')')
  }

  ghost predicate TidyWithin(s: string) {
    && (forall i | 0 <= i < |s| && Space(s[i]) :: s[i] == ' ')
    && forall i | 0 <= i < |s| - 1 :: StaysBeside(s[i], s[i + 1])
  }

  lemma TidyRest(s: string)
    requires TidyWithin(s) && s != ""
    ensures TidyWithin(s[1..]) && s == [s[0]] + s[1..]
    ensures Space(s[0]) || s[0] == '(' ==> SkipSpaces(s, 1) == 1
  {
    var rest := s[1..];
    forall i | 0 <= i < |rest| - 1 ensures StaysBeside(rest[i], rest[i + 1]) {
      assert rest[i] == s[i + 1] && StaysBeside(s[i + 1], s[i + 2]);
    }
    if |s| > 1 { assert StaysBeside(s[0], s[0 + 1]); }
  }

  lemma NothingCloses(s: string)
    requires TidyWithin(s) && s != ""
    ensures CloseStep(s) == Step([s[0]], 1)
  {
    if |s| > 1 {
      assert StaysBeside(s[0], s[0 + 1]);
      if |s| > 2 { assert StaysBeside(s[1], s[1 + 1]); }
    }
  }

  lemma {:induction false} TidyStays(s: string)
    requires TidyWithin(s)
    ensures Collapse(s) == s && TightOpen(s) == s && TightClose(s) == s
  {
    if s != "" {
      TidyRest(s);
      TidyStays(s[1..]);
      NothingCloses(s);
    }
  }

  /** A text that is tidy, and without whitespace around it, stays as it is. */
  lemma TidyIsKept(s: string)
    requires TidyWithin(s) && (s != "" ==> !Space(s[0]) && !Space(s[|s| - 1]))
    ensures Tidied(s) == s
  {
    TidyStays(s);
    assert SkipSpaces(s, 0) == 0 && s[0..] == s;
  }
}
