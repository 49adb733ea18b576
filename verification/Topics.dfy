/** Dot-separated topics and patterns, and the naive segment matcher that the documentation
    of the bus promises: a literal, `*` for one segment, a final `**` for zero or more. */
module Topics {

  const STAR: string := "*"
  const GLOBSTAR: string := "**"

  /** `s.split(c)`. */
  function Split(s: string, c: char): (parts: seq<string>)
    ensures |parts| >= 1
  {
    if s == [] then [""]
    else
      var rest := Split(s[1..], c);
      if s[0] == c then [""] + rest else [[s[0]] + rest[0]] + rest[1..]
  }

  function Join(parts: seq<string>, c: char): string
    requires parts != []
  {
    if |parts| == 1 then parts[0] else parts[0] + [c] + Join(parts[1..], c)
  }

  /** Splitting is the inverse of joining: the parts are the one separator-free
      sequence that joins to the text. */
  lemma {:induction false} SplitIsUnique(s: string, c: char)
    ensures Join(Split(s, c), c) == s
    ensures forall part :: part in Split(s, c) ==> c !in part
  {
    if s != [] {
      SplitIsUnique(s[1..], c);
      var rest := Split(s[1..], c);
      assert s == [s[0]] + s[1..];
      assert Split(s, c)[1..] == if s[0] == c then rest else rest[1..];
      assert rest[0] in rest;
    }
  }

  /** Whether the pattern segments match the topic segments. */
  predicate Matches(pattern: seq<string>, topic: seq<string>) {
    if pattern == [] then topic == []
    else if pattern == [GLOBSTAR] then true
    else
      && topic != []
      && (pattern[0] == STAR || pattern[0] == topic[0])
      && Matches(pattern[1..], topic[1..])
  }

  /** `**` may only be the last segment. */
  predicate WellFormed(segments: seq<string>) {
    forall i :: 0 <= i < |segments| - 1 ==> segments[i] != GLOBSTAR
  }

  predicate EndsInGlobstar(segments: seq<string>) {
    segments != [] && segments[|segments| - 1] == GLOBSTAR
  }

  /** The trie path of a pattern: its segments without a final `**`. */
  function Path(segments: seq<string>): seq<string> {
    if EndsInGlobstar(segments) then segments[..|segments| - 1] else segments
  }

  /** The matcher along a trie path, with the final `**` as a flag. */
  predicate PathMatches(path: seq<string>, globstar: bool, topic: seq<string>) {
    if path == [] then globstar || topic == []
    else
      && topic != []
      && (path[0] == STAR || path[0] == topic[0])
      && PathMatches(path[1..], globstar, topic[1..])
  }

  lemma {:induction false} PathMatchesIsMatches(segments: seq<string>, topic: seq<string>)
    requires WellFormed(segments)
    ensures PathMatches(Path(segments), EndsInGlobstar(segments), topic) == Matches(segments, topic)
  {
    if segments != [] && segments != [GLOBSTAR] {
      assert EndsInGlobstar(segments[1..]) == EndsInGlobstar(segments) || |segments| == 1;
      assert Path(segments)[1..] == Path(segments[1..]);
      if topic != [] {
        assert forall i :: 0 <= i < |segments[1..]| - 1 ==> segments[1..][i] == segments[i + 1];
        PathMatchesIsMatches(segments[1..], topic[1..]);
      }
    }
  }

  lemma {:induction false} SplitKeepsOut(s: string, c: char, d: char)
    requires d !in s
    ensures forall part :: part in Split(s, c) ==> d !in part
  {
    if s != [] {
      SplitKeepsOut(s[1..], c, d);
      var rest := Split(s[1..], c);
      assert rest[0] in rest && forall part :: part in rest[1..] ==> part in rest;
    }
  }

  lemma {:induction false} MatchesItself(segments: seq<string>)
    requires forall part :: part in segments ==> '*' !in part
    ensures Matches(segments, segments)
  {
    if segments != [] {
      assert segments[0] in segments;
      MatchesItself(segments[1..]);
    }
  }

  /** What the documentation says of patterns: without a final `**` as many segments, each the same
      or any under `*`; with one, these segments first and then any others. */
  lemma {:induction false} MatchesExactly(pattern: seq<string>, topic: seq<string>)
    requires WellFormed(pattern)
    ensures Matches(pattern, topic) <==>
      var n := if pattern != [] && pattern[|pattern| - 1] == "**" then |pattern| - 1 else |pattern|;
      && (if n < |pattern| then |topic| >= n else |topic| == n)
      && forall i :: 0 <= i < n ==> pattern[i] == "*" || pattern[i] == topic[i]
  {
    if pattern != [] && pattern != [GLOBSTAR] && topic != [] {
      assert forall i :: 0 <= i < |pattern[1..]| - 1 ==> pattern[1..][i] == pattern[i + 1];
      MatchesExactly(pattern[1..], topic[1..]);
      var n := if pattern[|pattern| - 1] == "**" then |pattern| - 1 else |pattern|;
      if n <= |topic| {
        assert forall i :: 1 <= i < n ==> pattern[i] == pattern[1..][i - 1] && topic[i] == topic[1..][i - 1];
        assert forall i :: 0 <= i < n - 1 ==> pattern[1..][i] == pattern[i + 1] && topic[1..][i] == topic[i + 1];
      }
    }
  }
}
