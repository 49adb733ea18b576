/** The meaning of the host's `Array.prototype.sort`: a stable sort by a comparator
    whose sign says which argument comes first. */
module Sorting {
  import opened Sequences

  /** Inserts `x` behind every element of the tail that does not come after it. */
  function InsertStable<T>(s: seq<T>, x: T, cmp: (T, T) -> int): seq<T> {
    if s == [] || cmp(s[|s| - 1], x) <= 0 then s + [x]
    else InsertStable(s[..|s| - 1], x, cmp) + [s[|s| - 1]]
  }

  function StableSort<T>(s: seq<T>, cmp: (T, T) -> int): seq<T> {
    if s == [] then [] else InsertStable(StableSort(s[..|s| - 1], cmp), s[|s| - 1], cmp)
  }

  /** What the language demands of a comparator: antisymmetric signs and transitivity. */
  ghost predicate Consistent<T(!new)>(cmp: (T, T) -> int) {
    && (forall a, b :: cmp(a, b) <= 0 || cmp(b, a) <= 0)
    && (forall a, b :: cmp(a, b) < 0 ==> cmp(b, a) > 0)
    && (forall a, b, c :: cmp(a, b) <= 0 && cmp(b, c) <= 0 ==> cmp(a, c) <= 0)
  }

  ghost predicate Ordered<T>(s: seq<T>, cmp: (T, T) -> int) {
    forall i, j :: 0 <= i < j < |s| ==> cmp(s[i], s[j]) <= 0
  }

  predicate Tied<T>(a: T, b: T, cmp: (T, T) -> int) {
    cmp(a, b) <= 0 && cmp(b, a) <= 0
  }

  /** The elements of `s` that tie with `k`, in the order `s` has them. */
  function TiedWith<T>(s: seq<T>, k: T, cmp: (T, T) -> int): seq<T> {
    if s == [] then []
    else TiedWith(s[..|s| - 1], k, cmp) + if Tied(s[|s| - 1], k, cmp) then [s[|s| - 1]] else []
  }

  lemma {:induction false} InsertStableElements<T>(s: seq<T>, x: T, cmp: (T, T) -> int)
    ensures multiset(InsertStable(s, x, cmp)) == multiset(s) + multiset{x}
  {
    var n := |s| - 1;
    if s != [] && cmp(s[n], x) > 0 {
      InsertStableElements(s[..n], x, cmp);
      assert s == s[..n] + [s[n]];
    }
  }

  lemma {:induction false} InsertStableIsOrdered<T(!new)>(s: seq<T>, x: T, cmp: (T, T) -> int)
    requires Consistent(cmp) && Ordered(s, cmp)
    ensures Ordered(InsertStable(s, x, cmp), cmp)
  {
    var n := |s| - 1;
    if s != [] && cmp(s[n], x) > 0 {
      InsertStableIsOrdered(s[..n], x, cmp);
      InsertStableElements(s[..n], x, cmp);
      var r := InsertStable(s[..n], x, cmp);
      forall i | 0 <= i < |r| ensures cmp(r[i], s[n]) <= 0 {
        assert r[i] in multiset(s[..n]) + multiset{x};
        assert r[i] == x || r[i] in s[..n];
      }
    }
  }

  /** A stable sort loses and invents nothing, and its result is ordered. */
  lemma {:induction false} StableSortOrders<T(!new)>(s: seq<T>, cmp: (T, T) -> int)
    requires Consistent(cmp)
    ensures Ordered(StableSort(s, cmp), cmp)
    ensures multiset(StableSort(s, cmp)) == multiset(s)
  {
    if s != [] {
      var n := |s| - 1;
      assert s == s[..n] + [s[n]];
      StableSortOrders(s[..n], cmp);
      InsertStableIsOrdered(StableSort(s[..n], cmp), s[n], cmp);
      InsertStableElements(StableSort(s[..n], cmp), s[n], cmp);
    }
  }

  lemma TiedWithLast<T>(s: seq<T>, x: T, k: T, cmp: (T, T) -> int)
    ensures TiedWith(s + [x], k, cmp) == TiedWith(s, k, cmp) + if Tied(x, k, cmp) then [x] else []
  {
    assert (s + [x])[..|s|] == s;
  }

  lemma SwapWithEmpty<T>(s: seq<T>, a: seq<T>, b: seq<T>)
    requires a == [] || b == []
    ensures s + a + b == s + b + a
  {
  }

  lemma NotBothTied<T(!new)>(x: T, y: T, k: T, cmp: (T, T) -> int)
    requires Consistent(cmp) && cmp(y, x) > 0
    ensures !Tied(x, k, cmp) || !Tied(y, k, cmp)
  {
  }

  lemma {:induction false} InsertStableKeepsTies<T(!new)>(s: seq<T>, x: T, k: T, cmp: (T, T) -> int)
    requires Consistent(cmp) && Ordered(s, cmp)
    ensures TiedWith(InsertStable(s, x, cmp), k, cmp) == TiedWith(s + [x], k, cmp)
  {
    var n := |s| - 1;
    if s != [] && cmp(s[n], x) > 0 {
      var r := InsertStable(s[..n], x, cmp);
      var same := TiedWith(s[..n], k, cmp);
      assert s == s[..n] + [s[n]];
      InsertStableKeepsTies(s[..n], x, k, cmp);
      TiedWithLast(r, s[n], k, cmp);
      TiedWithLast(s[..n], x, k, cmp);
      TiedWithLast(s[..n], s[n], k, cmp);
      TiedWithLast(s, x, k, cmp);
      NotBothTied(x, s[n], k, cmp);
      assert InsertStable(s, x, cmp) == r + [s[n]];
      var atX, atN := if Tied(x, k, cmp) then [x] else [], if Tied(s[n], k, cmp) then [s[n]] else [];
      SwapWithEmpty(same, atX, atN);
    }
  }

  /** Stability: elements that tie keep the order they came in. */
  lemma {:induction false} StableSortKeepsTies<T(!new)>(s: seq<T>, k: T, cmp: (T, T) -> int)
    requires Consistent(cmp)
    ensures TiedWith(StableSort(s, cmp), k, cmp) == TiedWith(s, k, cmp)
  {
    if s != [] {
      var n := |s| - 1;
      assert s == s[..n] + [s[n]];
      StableSortKeepsTies(s[..n], k, cmp);
      StableSortOrders(s[..n], cmp);
      InsertStableKeepsTies(StableSort(s[..n], cmp), s[n], k, cmp);
      TiedWithLast(StableSort(s[..n], cmp), s[n], k, cmp);
      TiedWithLast(s[..n], s[n], k, cmp);
    }
  }

  /** Under a comparator with no ties between different elements, the sorted form of a
      bag is unique, whatever order it was collected in. */
  lemma {:induction false} OrderedIsUnique<T(!new)>(a: seq<T>, b: seq<T>, cmp: (T, T) -> int)
    requires Ordered(a, cmp) && Ordered(b, cmp) && multiset(a) == multiset(b)
    requires forall x, y :: x in a && y in a && Tied(x, y, cmp) ==> x == y
    ensures a == b
  {
    if a == [] {
      assert |multiset(b)| == |b|;
    } else {
      SameHead(a, b, cmp);
      assert a == [a[0]] + a[1..] && b == [b[0]] + b[1..];
      assert multiset(a[1..]) == multiset(a) - multiset{a[0]};
      assert multiset(b[1..]) == multiset(b) - multiset{b[0]};
      OrderedIsUnique(a[1..], b[1..], cmp);
    }
  }

  lemma SameHead<T(!new)>(a: seq<T>, b: seq<T>, cmp: (T, T) -> int)
    requires Ordered(a, cmp) && Ordered(b, cmp) && multiset(a) == multiset(b) && a != []
    requires forall x, y :: x in a && y in a && Tied(x, y, cmp) ==> x == y
    ensures b != [] && a[0] == b[0]
  {
    assert a[0] in multiset(b);
    assert b[0] in multiset(a);
    assert a[0] in b && b[0] in a;
    assert Tied(a[0], b[0], cmp) ==> a[0] == b[0];
  }

  // ----- by index -----------------------------------------------------------------------------------

  /** Position `i` of the result holds the element of `s` at `from[i]`. */
  ghost predicate Holds<T>(s: seq<T>, from: seq<nat>, r: seq<T>, i: int) {
    0 <= i < |r| && i < |from| && from[i] < |s| && r[i] == s[from[i]]
  }

  /** Every element is used once. */
  ghost predicate Arranges<T>(s: seq<T>, from: seq<nat>, r: seq<T>) {
    |from| == |s| == |r| && NoDuplicates(from) && forall i :: 0 <= i < |r| ==> Holds(s, from, r, i)
  }

  /** An earlier position does not rank behind a later one, and if they tie it was earlier. */
  ghost predicate Ranks<T>(x: T, y: T, xFrom: nat, yFrom: nat, cmp: (T, T) -> int) {
    cmp(x, y) <= 0 && (Tied(x, y, cmp) ==> xFrom < yFrom)
  }

  ghost predicate Ranked<T>(r: seq<T>, from: seq<nat>, cmp: (T, T) -> int)
    requires |r| == |from|
  {
    forall i, j :: 0 <= i < j < |r| ==> Ranks(r[i], r[j], from[i], from[j], cmp)
  }

  function InsertAt<T>(s: seq<T>, p: nat, x: T): (r: seq<T>)
    requires p <= |s|
    ensures |r| == |s| + 1 && r[p] == x
    ensures forall i :: 0 <= i < p ==> r[i] == s[i]
    ensures forall i :: p < i <= |s| ==> r[i] == s[i - 1]
  {
    s[..p] + [x] + s[p..]
  }

  lemma {:induction false} InsertStablePlaces<T>(s: seq<T>, x: T, cmp: (T, T) -> int) returns (p: nat)
    ensures p <= |s| && InsertStable(s, x, cmp) == InsertAt(s, p, x)
    ensures (p > 0 ==> cmp(s[p - 1], x) <= 0) && forall k :: p <= k < |s| ==> cmp(s[k], x) > 0
  {
    var n := |s| - 1;
    if s == [] || cmp(s[n], x) <= 0 {
      p := |s|;
    } else {
      p := InsertStablePlaces(s[..n], x, cmp);
      assert s[..n][..p] == s[..p] && s[p..] == s[..n][p..] + [s[n]];
    }
  }

  /** A stable sort is an arrangement in which ties keep their order. */
  lemma {:induction false} StableSortArranges<T(!new)>(s: seq<T>, cmp: (T, T) -> int) returns (from: seq<nat>)
    requires Consistent(cmp)
    ensures Arranges(s, from, StableSort(s, cmp)) && Ranked(StableSort(s, cmp), from, cmp)
  {
    if s == [] {
      from := [];
    } else {
      var n := |s| - 1;
      var sorted := StableSort(s[..n], cmp);
      var before := StableSortArranges(s[..n], cmp);
      assert Ordered(sorted, cmp) by {
        StableSortOrders(s[..n], cmp);
      }
      from := InsertLast(s, sorted, before, cmp);
    }
  }

  lemma InsertLast<T(!new)>(s: seq<T>, sorted: seq<T>, before: seq<nat>, cmp: (T, T) -> int) returns (from: seq<nat>)
    requires s != [] && Consistent(cmp) && Ordered(sorted, cmp)
    requires Arranges(s[..|s| - 1], before, sorted) && Ranked(sorted, before, cmp)
    ensures var r := InsertStable(sorted, s[|s| - 1], cmp); Arranges(s, from, r) && Ranked(r, from, cmp)
  {
    var n := |s| - 1;
    var p := InsertStablePlaces(sorted, s[n], cmp);
    from := InsertAt(before, p, n);
    InsertArranges(s, sorted, before, p);
    forall i | 0 <= i < |before| ensures before[i] < n {
      assert Holds(s[..n], before, sorted, i);
    }
    InsertRanks(sorted, before, p, s[n], n, cmp);
  }

  lemma InsertArranges<T>(s: seq<T>, sorted: seq<T>, before: seq<nat>, p: nat)
    requires s != [] && p < |s| && Arranges(s[..|s| - 1], before, sorted)
    ensures Arranges(s, InsertAt(before, p, |s| - 1), InsertAt(sorted, p, s[|s| - 1]))
  {
    var n := |s| - 1;
    var r, from := InsertAt(sorted, p, s[n]), InsertAt(before, p, n);
    forall i | 0 <= i < |r| ensures Holds(s, from, r, i) {
      if i != p {
        assert Holds(s[..n], before, sorted, if i < p then i else i - 1);
      }
    }
    forall i, j | 0 <= i < j < |from| ensures from[i] != from[j] {
      assert i != p ==> Holds(s[..n], before, sorted, if i < p then i else i - 1);
      assert j != p ==> Holds(s[..n], before, sorted, if j < p then j else j - 1);
    }
  }

  lemma InsertRanks<T(!new)>(sorted: seq<T>, before: seq<nat>, p: nat, x: T, n: nat, cmp: (T, T) -> int)
    requires Consistent(cmp) && Ordered(sorted, cmp) && |sorted| == |before| && Ranked(sorted, before, cmp)
    requires p <= |sorted| && (p > 0 ==> cmp(sorted[p - 1], x) <= 0) && forall k :: p <= k < |sorted| ==> cmp(sorted[k], x) > 0
    requires forall i :: 0 <= i < |before| ==> before[i] < n
    ensures Ranked(InsertAt(sorted, p, x), InsertAt(before, p, n), cmp)
  {
    var r, from := InsertAt(sorted, p, x), InsertAt(before, p, n);
    forall i, j | 0 <= i < j < |r| ensures Ranks(r[i], r[j], from[i], from[j], cmp) {
      if j == p {
        assert cmp(sorted[i], sorted[p - 1]) <= 0 || i == p - 1;
      } else if i == p {
        assert cmp(sorted[j - 1], x) > 0;
      } else {
        var k, m := if i < p then i else i - 1, if j < p then j else j - 1;
        assert Ranks(sorted[k], sorted[m], before[k], before[m], cmp);
      }
    }
  }
}
