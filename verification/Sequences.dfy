/** What the engines share about sequences: elements without repetition, and the removal of the
    first occurrence. */
module Sequences {

  predicate NoDuplicates<T(==)>(s: seq<T>) {
    forall i, j :: 0 <= i < j < |s| ==> s[i] != s[j]
  }

  function Elements<T>(s: seq<T>): set<T> {
    set x | x in s
  }

  lemma {:induction false} NoDuplicatesSize<T>(s: seq<T>)
    requires NoDuplicates(s)
    ensures |Elements(s)| == |s|
  {
    if s != [] {
      NoDuplicatesSize(s[1..]);
      assert Elements(s) == Elements(s[1..]) + {s[0]};
    }
  }

  lemma OneMoreElement<T>(s: seq<T>, x: T)
    ensures Elements(s + [x]) == Elements(s) + {x}
    ensures NoDuplicates(s) && x !in s ==> NoDuplicates(s + [x])
  {
  }

  function RemoveFirst<T(==)>(s: seq<T>, x: T): seq<T> {
    if s == [] then [] else if s[0] == x then s[1..] else [s[0]] + RemoveFirst(s[1..], x)
  }

  lemma {:induction false} RemoveFirstIsSlice<T>(s: seq<T>, x: T) returns (i: nat)
    requires x in s
    ensures i < |s| && s[i] == x && x !in s[..i]
    ensures RemoveFirst(s, x) == s[..i] + s[i + 1..]
  {
    if s[0] == x {
      i := 0;
    } else {
      var k := RemoveFirstIsSlice(s[1..], x);
      i := k + 1;
      assert s[..i] == [s[0]] + s[1..][..k];
    }
  }

  lemma RemoveFirstKeepsOthers<T>(s: seq<T>, x: T, y: T)
    requires y in s && y != x
    ensures y in RemoveFirst(s, x)
  {
  }

  lemma RemoveFirstAddsNothing<T>(s: seq<T>, x: T, y: T)
    requires y in RemoveFirst(s, x)
    ensures y in s
  {
  }

  lemma RemoveFirstOfCons<T>(x: T, s: seq<T>, y: T)
    ensures RemoveFirst([x] + s, y) == if x == y then s else [x] + RemoveFirst(s, y)
  {
    assert ([x] + s)[1..] == s;
  }

  /** From a sequence without repetition it removes the element altogether. */
  lemma {:induction false} RemoveFirstRemoves<T>(s: seq<T>, x: T)
    requires NoDuplicates(s)
    ensures NoDuplicates(RemoveFirst(s, x))
    ensures forall y :: y in RemoveFirst(s, x) <==> y in s && y != x
  {
    if s != [] {
      assert s == [s[0]] + s[1..];
      RemoveFirstRemoves(s[1..], x);
      var rest := RemoveFirst(s[1..], x);
      if s[0] != x {
        assert s[0] !in s[1..];
        forall i | 0 <= i < |rest| ensures rest[i] in s[1..] {
          RemoveFirstAddsNothing(s[1..], x, rest[i]);
        }
      }
    }
  }

  // ----- places ---------------------------------------------------------------------------------------

  function Below(n: nat): (places: set<nat>)
    ensures forall k :: k in places <==> 0 <= k < n
    ensures |places| == n
  {
    if n == 0 then {} else Below(n - 1) + {n - 1}
  }

  /** As many different places below a number as it counts leave none out. */
  lemma OntoPlaces(from: seq<nat>, m: nat)
    requires NoDuplicates(from) && m < |from| && forall k :: 0 <= k < |from| ==> from[k] < |from|
    ensures m in from
  {
    if m !in from {
      NoDuplicatesSize(from);
      SubsetSize(Elements(from), Below(|from|) - {m});
      assert false;
    }
  }

  lemma SubsetSize<T>(a: set<T>, b: set<T>)
    requires a <= b
    ensures |a| <= |b|
  {
    assert b == a + (b - a);
  }
}
