/** Splitting routes. */
module Paths {

  /** The first index of `c`, or the length when there is none. */
  function IndexOf(s: string, c: char): (i: nat)
    ensures i <= |s| && (i < |s| ==> s[i] == c) && c !in s[..i]
  {
    if s == [] || s[0] == c then 0 else 1 + IndexOf(s[1..], c)
  }

  /** A path without its leading slashes. */
  function Trimmed(path: string): string {
    if path != [] && path[0] == '/' then Trimmed(path[1..]) else path
  }

  /** `splitPath`: the first segment, and the rest as a path of its own. */
  function SplitPath(path: string): (string, string) {
    var trimmed := Trimmed(path);
    var i := IndexOf(trimmed, '/');
    if i == |trimmed| then (trimmed, "/") else (trimmed[..i], trimmed[i..])
  }

  lemma {:induction false} IndexOfAppend(s: string, t: string, c: char)
    requires c !in s
    ensures IndexOf(s + t, c) == |s| + IndexOf(t, c)
  {
    if s == [] {
      assert s + t == t;
    } else {
      assert (s + t)[1..] == s[1..] + t && (s + t)[0] == s[0];
      IndexOfAppend(s[1..], t, c);
    }
  }

  lemma SplitOfNamespace(p: string, tail: string)
    requires p != "" && '/' !in p && "/" <= tail
    ensures SplitPath("/" + p + tail) == (p, tail)
  {
    var path := "/" + p + tail;
    assert path[0] == '/' && path[1..] == p + tail;
    assert p[0] != '/' && (p + tail)[0] == p[0];
    assert Trimmed(path) == Trimmed(p + tail) == p + tail;
    IndexOfAppend(p, tail, '/');
    assert IndexOf(tail, '/') == 0;
  }

  /** The path is slashes, the first segment and the rest: the segment begins behind all leading
      slashes and holds none, and an empty rest stands for "/". */
  lemma {:induction false} SplitPathExactly(path: string) returns (n: nat, tail: string)
    ensures n <= |path| && (forall i :: 0 <= i < n ==> path[i] == '/') && (n < |path| ==> path[n] != '/')
    ensures var (prefix, subPath) := SplitPath(path);
      && path[n..] == prefix + tail && '/' !in prefix && (tail == "" || tail[0] == '/')
      && subPath == if tail == "" then "/" else tail
  {
    if path != "" && path[0] == '/' {
      var m, rest := SplitPathExactly(path[1..]);
      n, tail := m + 1, rest;
      assert path[n..] == path[1..][m..];
    } else {
      n := 0;
      tail := path[IndexOf(path, '/')..];
      assert path[0..] == path == path[..IndexOf(path, '/')] + tail;
    }
  }

  lemma {:induction false} IndexIsFirst(s: string, c: char, i: nat)
    requires i < |s| && s[i] == c && c !in s[..i]
    ensures IndexOf(s, c) == i
  {
    if i > 0 {
      assert s[0] == s[..i][0] && s[1..][..i - 1] == s[..i][1..];
      IndexIsFirst(s[1..], c, i - 1);
    }
  }
}
