/** Texts made of parts between slashes. */
module Paths {
  import opened Sequences

  function FirstSlash(path: string): (n: nat)
    ensures n <= |path| && '/' !in path[..n] && (n < |path| ==> path[n] == '/')
  {
    if path == "" || path[0] == '/' then 0
    else
      var n := FirstSlash(path[1..]);
      assert path[..n + 1] == [path[0]] + path[1..][..n];
      n + 1
  }

  /** The parts of a path between its slashes, without the empty ones. */
  function Parts(path: string): seq<string>
    decreases |path|
  {
    var n := FirstSlash(path);
    (if n > 0 then [path[..n]] else []) + if n < |path| then Parts(path[n + 1..]) else []
  }

  predicate Absolute(path: string) {
    path != "" && path[0] == '/'
  }

  lemma {:induction false} SlashAt(s: string, rest: string)
    requires '/' !in s
    ensures FirstSlash(s + "/" + rest) == |s|
  {
    var path := s + "/" + rest;
    if s != "" {
      assert path[0] == s[0] && s[0] in s;
      SlashAt(s[1..], rest);
      assert path[1..] == s[1..] + "/" + rest;
    }
  }

  function Word(s: string): seq<string> {
    if s == "" then [] else [s]
  }

  lemma PartsAfterWord(s: string, rest: string)
    requires '/' !in s
    ensures Parts(s + "/" + rest) == Word(s) + Parts(rest)
  {
    var path := s + "/" + rest;
    SlashAt(s, rest);
    assert path[..|s|] == s && path[|s| + 1..] == rest;
  }

  lemma PartsOfWord(s: string)
    requires '/' !in s
    ensures Parts(s) == Word(s)
  {
    forall i | 0 <= i < |s|
      ensures s[i] != '/'
    {
      assert s[i] in s;
    }
    assert s[..|s|] == s;
  }

  lemma CutAtSlash(a: string) returns (s: string, rest: string)
    requires '/' in a
    ensures '/' !in s && a == s + "/" + rest && |rest| < |a|
  {
    var n := FirstSlash(a);
    assert a[..|a|] == a;
    s, rest := a[..n], a[n + 1..];
  }

  lemma Regroup(s: string, rest: string, b: string)
    ensures s + "/" + rest + "/" + b == s + "/" + (rest + "/" + b)
  {
  }

  /** A slash separates the parts before it from those after it. */
  lemma {:induction false} PartsAtSlash(a: string, b: string)
    ensures Parts(a + "/" + b) == Parts(a) + Parts(b)
    decreases |a|
  {
    if '/' in a {
      var s, rest := CutAtSlash(a);
      PartsAtSlash(rest, b);
      PartsAfterCut(s, rest, b);
    } else {
      PartsOfWord(a);
      PartsAfterWord(a, b);
    }
  }

  lemma PartsAfterCut(s: string, rest: string, b: string)
    requires '/' !in s && Parts(rest + "/" + b) == Parts(rest) + Parts(b)
    ensures Parts(s + "/" + rest + "/" + b) == Parts(s + "/" + rest) + Parts(b)
  {
    PartsAfterWord(s, rest);
    PartsAfterWord(s, rest + "/" + b);
    Regroup(s, rest, b);
    Regroup3(Word(s), Parts(rest), Parts(b));
  }
}
