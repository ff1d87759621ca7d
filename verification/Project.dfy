/**
 Which file paths a submitted project may have, and where they lead; and which
 directory an entrypoint means, however it is spelled.
 */
module Project {
  import opened Wrappers
  import opened Paths

  // --- Clean paths ---

  predicate IsSegment(segment: string) {
    segment != "" && segment != "." && segment != ".."
  }

  /** A path of proper names: not empty, no backslash, and no empty, `.` or `..` segment. */
  predicate Clean(path: string) {
    path != "" && '\\' !in path && AllSegments(Split(path))
  }

  /** Where one segment leads from a directory given by its names from the top. */
  function Follow(dir: seq<string>, segment: string): (r: seq<string>)
    ensures IsSegment(segment) ==> r == dir + [segment]
    ensures !IsSegment(segment) ==> |r| <= |dir|
  {
    if segment == "" || segment == "." then dir
    else if segment == ".." then (if dir == [] then [] else dir[..|dir| - 1])
    else dir + [segment]
  }

  function Resolve(dir: seq<string>, segments: seq<string>): seq<string>
    decreases |segments|
  {
    if segments == [] then dir else Resolve(Follow(dir, segments[0]), segments[1..])
  }

  lemma {:induction false} ResolveIsNoDeeper(dir: seq<string>, segments: seq<string>)
    ensures |Resolve(dir, segments)| <= |dir| + |segments|
    decreases |segments|
  {
    if segments != [] { ResolveIsNoDeeper(Follow(dir, segments[0]), segments[1..]); }
  }

  predicate AllSegments(segments: seq<string>) {
    forall i | 0 <= i < |segments| :: IsSegment(segments[i])
  }

  lemma FirstAndRest(segments: seq<string>)
    requires segments != []
    ensures AllSegments(segments) <==> IsSegment(segments[0]) && AllSegments(segments[1..])
  {
    if IsSegment(segments[0]) && AllSegments(segments[1..]) {
      forall i | 0 <= i < |segments| ensures IsSegment(segments[i]) {
        assert i > 0 ==> segments[i] == segments[1..][i - 1];
      }
    }
  }

  lemma ConcatFirst(dir: seq<string>, segments: seq<string>)
    requires segments != []
    ensures dir + segments == dir + [segments[0]] + segments[1..]
  {}

  lemma {:induction false} ResolveKeepsSegments(dir: seq<string>, segments: seq<string>)
    ensures Resolve(dir, segments) == dir + segments <==> AllSegments(segments)
    decreases |segments|
  {
    if segments != [] {
      FirstAndRest(segments);
      if IsSegment(segments[0]) {
        ResolveKeepsSegments(dir + [segments[0]], segments[1..]);
        ConcatFirst(dir, segments);
      } else {
        ResolveIsNoDeeper(Follow(dir, segments[0]), segments[1..]);
      }
    }
  }

  /** The accepted paths are those that lead, from wherever they are read, straight down their own names. */
  lemma CleanLeadsDown(dir: seq<string>, path: string)
    ensures Clean(path) <==> '\\' !in path && Resolve(dir, Split(path)) == dir + Split(path)
  {
    ResolveKeepsSegments(dir, Split(path));
    if path == "" { assert Split(path)[0] == ""; }
  }

  /** So two of them never lead to one place. */
  lemma CleanPathsAreApart(dir: seq<string>, a: string, b: string)
    requires Clean(a) && Clean(b) && Resolve(dir, Split(a)) == Resolve(dir, Split(b))
    ensures a == b
  {
    CleanLeadsDown(dir, a);
    CleanLeadsDown(dir, b);
    assert Split(a) == (dir + Split(a))[|dir|..] == (dir + Split(b))[|dir|..] == Split(b);
    JoinSplit(a);
    JoinSplit(b);
  }

  lemma CleanAround(a: string, b: string)
    ensures Clean(a + "/" + b) <==> Clean(a) && Clean(b)
  {
    SplitAround(a, b);
    assert Split("")[0] == "" && !IsSegment(Split("")[0]);
    if Clean(a + "/" + b) {
      forall i | 0 <= i < |Split(a)| ensures IsSegment(Split(a)[i]) { assert Split(a + "/" + b)[i] == Split(a)[i]; }
      forall i | 0 <= i < |Split(b)| ensures IsSegment(Split(b)[i]) { assert Split(a + "/" + b)[|Split(a)| + i] == Split(b)[i]; }
    }
  }

  // --- Entrypoints ---

  /** What a request's body holds, as far as opening a project looks at it. */
  datatype Value = Undefined | Text(text: string) | Object(entries: seq<Entry>) | Other

  datatype Entry = Entry(path: string, content: Value)

  function PastDots(dir: string): string {
    if "./" <= dir then PastDots(dir[2..]) else dir
  }

  function BeforeSlashes(dir: string): string {
    if dir != "" && dir[|dir| - 1] == '/' then BeforeSlashes(dir[..|dir| - 1]) else dir
  }

  function Normalized(value: Value): Option<string> {
    match value
    case Undefined => Some(".")
    case Text(text) =>
      if "/" <= PastDots(text) then None
      else
        var dir := BeforeSlashes(PastDots(text));
        if dir == "" || dir == "." then Some(".") else if Clean(dir) then Some(dir) else None
    case _ => None
  }

  method NormalizeEntrypoint(value: Value) returns (r: Option<string>)
    ensures r == Normalized(value)
  {
    if value == Undefined {
      return Some(".");
    }
    if !value.Text? {
      return None;
    }
    var dir := value.text;
    while "./" <= dir
      invariant PastDots(dir) == PastDots(value.text)
      decreases |dir|
    {
      dir := dir[2..];
    }
    if "/" <= dir {
      return None;
    }
    while dir != "" && dir[|dir| - 1] == '/'
      invariant BeforeSlashes(dir) == BeforeSlashes(PastDots(value.text))
      decreases |dir|
    {
      dir := dir[..|dir| - 1];
    }
    if dir == "" || dir == "." {
      return Some(".");
    }
    return if Clean(dir) then Some(dir) else None;
  }

  function Times(text: string, n: nat): string {
    if n == 0 then "" else text + Times(text, n - 1)
  }

  lemma {:induction false} DotsArePassed(k: nat, dir: string)
    ensures PastDots(Times("./", k) + dir) == PastDots(dir)
  {
    if k == 0 {
      assert Times("./", 0) + dir == dir;
    } else {
      assert Times("./", k) + dir == "./" + (Times("./", k - 1) + dir);
      DotsArePassed(k - 1, dir);
      assert (Times("./", k) + dir)[2..] == Times("./", k - 1) + dir;
    }
  }

  lemma OneMoreDot(k: nat, rest: string)
    ensures "./" + (Times("./", k) + rest) == Times("./", k + 1) + rest
  {}

  lemma {:induction false} PassedDots(dir: string) returns (k: nat)
    ensures dir == Times("./", k) + PastDots(dir) && !("./" <= PastDots(dir))
  {
    if "./" <= dir {
      k := PassedDots(dir[2..]);
      OneMoreDot(k, PastDots(dir));
      k := k + 1;
    } else {
      k := 0;
    }
  }

  lemma {:induction false} OneMoreSlash(m: nat)
    ensures Times("/", m + 1) == Times("/", m) + "/" && |Times("/", m)| == m
  {
    if m > 0 { OneMoreSlash(m - 1); }
  }

  lemma Grouped(a: string, b: string, c: string)
    ensures a + (b + c) == a + b + c
  {}

  lemma SlashIsDropped(dir: string)
    ensures BeforeSlashes(dir + "/") == BeforeSlashes(dir)
  {}

  lemma {:induction false} SlashesAreDropped(dir: string, m: nat)
    requires dir == "" || dir[|dir| - 1] != '/'
    ensures BeforeSlashes(dir + Times("/", m)) == dir
  {
    if m == 0 {
      assert dir + Times("/", 0) == dir;
    } else {
      OneMoreSlash(m - 1);
      Grouped(dir, Times("/", m - 1), "/");
      SlashIsDropped(dir + Times("/", m - 1));
      SlashesAreDropped(dir, m - 1);
    }
  }

  lemma {:induction false} DroppedSlashes(dir: string) returns (m: nat)
    ensures dir == BeforeSlashes(dir) + Times("/", m)
  {
    if dir != "" && dir[|dir| - 1] == '/' {
      var rest := DroppedSlashes(dir[..|dir| - 1]);
      m := rest + 1;
      OneMoreSlash(rest);
      assert dir == dir[..|dir| - 1] + "/";
      assert dir == BeforeSlashes(dir) + (Times("/", rest) + "/");
    } else {
      m := 0;
    }
  }

  lemma CleanEnds(dir: string)
    requires Clean(dir)
    ensures !("./" <= dir) && !("/" <= dir) && dir[|dir| - 1] != '/' && dir != "."
  {
    SplitName(".", "");
    assert !IsSegment(Split(".")[0]);
    if "./" <= dir {
      assert dir == "." + "/" + dir[2..];
      CleanAround(".", dir[2..]);
    }
    if "/" <= dir {
      assert dir == "" + "/" + dir[1..];
      CleanAround("", dir[1..]);
    }
    if dir[|dir| - 1] == '/' {
      assert dir == dir[..|dir| - 1] + "/" + "";
      CleanAround(dir[..|dir| - 1], "");
    }
  }

  /** Some number of `./`, then the directory, then some number of `/`. */
  ghost predicate Spells(text: string, dir: string) {
    exists k: nat, m: nat :: text == Times("./", k) + dir + Times("/", m)
  }

  ghost predicate SpellsRoot(text: string) {
    exists k: nat :: text == Times("./", k) || text == Times("./", k) + "."
  }

  lemma StillNoDots(dir: string, m: nat)
    requires dir != "" && dir[|dir| - 1] != '/' && !("./" <= dir) && !("/" <= dir) && dir != "."
    ensures !("./" <= dir + Times("/", m)) && !("/" <= dir + Times("/", m))
  {
    var rest := dir + Times("/", m);
    assert rest[0] == dir[0] && (|dir| > 1 ==> rest[1] == dir[1]);
    assert |dir| == 1 ==> dir == [dir[0]];
    assert |dir| > 1 && dir[0] == '.' && dir[1] == '/' ==> "./" <= dir;
  }

  lemma SpellingIsNormalized(text: string, dir: string)
    requires Clean(dir) && Spells(text, dir)
    ensures Normalized(Text(text)) == Some(dir)
  {
    var k: nat, m: nat :| text == Times("./", k) + dir + Times("/", m);
    CleanEnds(dir);
    assert text == Times("./", k) + (dir + Times("/", m));
    DotsArePassed(k, dir + Times("/", m));
    StillNoDots(dir, m);
    SlashesAreDropped(dir, m);
  }

  lemma NormalizedIsSpelled(text: string, dir: string)
    requires dir != "." && Normalized(Text(text)) == Some(dir)
    ensures Clean(dir) && Spells(text, dir)
  {
    var k := PassedDots(text);
    var m := DroppedSlashes(PastDots(text));
    Grouped(Times("./", k), dir, Times("/", m));
  }

  /** A clean directory is what an entrypoint means exactly when that is how the entrypoint spells it. */
  lemma NormalizedExactly(value: Value, dir: string)
    requires dir != "."
    ensures Normalized(value) == Some(dir) <==> value.Text? && Clean(dir) && Spells(value.text, dir)
  {
    if value.Text? {
      if Normalized(value) == Some(dir) { NormalizedIsSpelled(value.text, dir); }
      if Clean(dir) && Spells(value.text, dir) { SpellingIsNormalized(value.text, dir); }
    }
  }

  /** The root is meant by no entrypoint at all, by `./`s alone, or before a `.`. */
  lemma RootExactly(value: Value)
    ensures Normalized(value) == Some(".") <==> value.Undefined? || (value.Text? && SpellsRoot(value.text))
  {
    if value.Text? {
      var text := value.text;
      SplitName(".", "");
      assert !IsSegment(Split(".")[0]);
      if Normalized(Text(text)) == Some(".") {
        var k := PassedDots(text);
        var rest := PastDots(text);
        var m := DroppedSlashes(rest);
        RootIsNotSlashed(rest, m);
        assert Times("./", k) + "" == Times("./", k);
      } else if SpellsRoot(text) {
        RootSpellingIsNormalized(text);
      }
    }
  }

  lemma RootIsNotSlashed(rest: string, m: nat)
    requires rest == BeforeSlashes(rest) + Times("/", m) && !("./" <= rest) && !("/" <= rest)
    requires BeforeSlashes(rest) == "" || BeforeSlashes(rest) == "."
    ensures rest == BeforeSlashes(rest)
  {}

  lemma RootSpellingIsNormalized(text: string)
    requires SpellsRoot(text)
    ensures Normalized(Text(text)) == Some(".")
  {
    var k: nat :| text == Times("./", k) || text == Times("./", k) + ".";
    DotsArePassed(k, "");
    DotsArePassed(k, ".");
    assert Times("./", k) + "" == Times("./", k);
    assert PastDots("") == "" && PastDots(".") == ".";
    assert BeforeSlashes("") == "" && BeforeSlashes(".") == ".";
  }

  /** Normalising again changes nothing, and yields the root or a clean path. */
  lemma NormalizingIsIdempotent(value: Value)
    requires Normalized(value).Some?
    ensures var dir := Normalized(value).value; (dir == "." || Clean(dir)) && Normalized(Text(dir)) == Some(dir)
  {
    var dir := Normalized(value).value;
    if dir == "." {
      RootSpellingIsNormalized(".") by { assert "." == Times("./", 0) + "."; }
    } else {
      SpellingIsNormalized(dir, dir) by { assert dir == Times("./", 0) + dir + Times("/", 0); }
    }
  }
}
