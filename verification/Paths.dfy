/** Splitting a path at its `/`s and joining the names again. */
module Paths {
  const SLASH := '/'

  predicate IsName(name: string) {
    SLASH !in name
  }

  function Split(path: string): (parts: seq<string>)
    ensures parts != [] && forall i | 0 <= i < |parts| :: IsName(parts[i])
  {
    if path == "" then [""]
    else
      var rest := Split(path[1..]);
      if path[0] == SLASH then [""] + rest else [[path[0]] + rest[0]] + rest[1..]
  }

  function Join(parts: seq<string>): string {
    if parts == [] then ""
    else if |parts| == 1 then parts[0]
    else parts[0] + [SLASH] + Join(parts[1..])
  }

  lemma {:induction false} JoinSplit(path: string)
    ensures Join(Split(path)) == path
  {
    if path != "" {
      var rest := Split(path[1..]);
      JoinSplit(path[1..]);
      if path[0] == SLASH {
        assert ([""] + rest)[1..] == rest;
      } else {
        assert [rest[0]] + rest[1..] == rest;
      }
    }
  }

  lemma {:induction false} SplitName(name: string, rest: string)
    requires IsName(name)
    ensures Split(name) == [name] && Split(name + [SLASH] + rest) == [name] + Split(rest)
  {
    var whole := name + [SLASH] + rest;
    if name == "" {
      assert whole[1..] == rest;
    } else {
      SplitName(name[1..], rest);
      assert whole[1..] == name[1..] + [SLASH] + rest;
      assert [name[0]] + name[1..] == name;
    }
  }

  lemma {:induction false} SplitJoin(parts: seq<string>)
    requires parts != [] && forall i | 0 <= i < |parts| :: IsName(parts[i])
    ensures Split(Join(parts)) == parts
  {
    if |parts| == 1 {
      SplitName(parts[0], "");
    } else {
      SplitJoin(parts[1..]);
      SplitName(parts[0], Join(parts[1..]));
    }
  }

  lemma ExtendFirst(c: char, a: seq<string>, b: seq<string>)
    requires a != []
    ensures [[c] + (a + b)[0]] + (a + b)[1..] == [[c] + a[0]] + a[1..] + b
    ensures [""] + (a + b) == [""] + a + b
  {}

  lemma {:induction false} SplitAround(a: string, b: string)
    ensures Split(a + "/" + b) == Split(a) + Split(b)
  {
    var whole := a + "/" + b;
    if a == "" {
      assert whole[1..] == b;
    } else {
      SplitAround(a[1..], b);
      assert whole[1..] == a[1..] + "/" + b && whole[0] == a[0];
      ExtendFirst(a[0], Split(a[1..]), Split(b));
    }
  }
}
