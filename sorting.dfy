/** Stream.sorted(comparator): a stable sort driven by a Java-style comparator
    that returns a negative number, zero or a positive number. */
module Sorting {

  /** Every element is at most every later one. */
  ghost predicate SortedBy<T>(xs: seq<T>, cmp: (T, T) -> int) {
    forall i, j :: 0 <= i < j < |xs| ==> cmp(xs[i], xs[j]) <= 0
  }

  /** cmp behaves as a comparator on the values of s: of two values at least
      one is at most the other, and "at most" is transitive. */
  ghost predicate ComparatorOn<T(!new)>(cmp: (T, T) -> int, s: set<T>) {
    && (forall a, b :: a in s && b in s && cmp(a, b) > 0 ==> cmp(b, a) <= 0)
    && (forall a, b, c :: a in s && b in s && c in s && cmp(a, b) <= 0 && cmp(b, c) <= 0 ==> cmp(a, c) <= 0)
  }

  /** Puts x in front of the first element it is at most, which keeps equal
      elements in their original order when x came first. */
  function Insert<T(!new)>(x: T, ys: seq<T>, cmp: (T, T) -> int): (r: seq<T>)
    ensures multiset(r) == multiset(ys) + multiset{x}
    ensures |r| == |ys| + 1
    ensures forall j :: 0 <= j < |r| ==> r[j] == x || r[j] in ys
  {
    if ys == [] then [x]
    else if cmp(x, ys[0]) <= 0 then [x] + ys
    else
      assert ys == [ys[0]] + ys[1..];
      [ys[0]] + Insert(x, ys[1..], cmp)
  }

  /** Insertion sort: the permutation of xs that a stable sort by cmp yields. */
  function Sort<T(!new)>(xs: seq<T>, cmp: (T, T) -> int): (r: seq<T>)
    ensures multiset(r) == multiset(xs)
    ensures |r| == |xs|
  {
    if xs == [] then []
    else
      assert xs == [xs[0]] + xs[1..];
      Insert(xs[0], Sort(xs[1..], cmp), cmp)
  }

  lemma {:induction false} InsertSorted<T(!new)>(x: T, ys: seq<T>, cmp: (T, T) -> int, s: set<T>)
    requires ComparatorOn(cmp, s)
    requires x in s && forall i :: 0 <= i < |ys| ==> ys[i] in s
    requires SortedBy(ys, cmp)
    ensures SortedBy(Insert(x, ys, cmp), cmp)
  {
    if ys == [] {
    } else if cmp(x, ys[0]) <= 0 {
      forall j | 0 <= j < |ys| ensures cmp(x, ys[j]) <= 0 {
        if j > 0 {
          assert cmp(ys[0], ys[j]) <= 0;
        }
      }
      ConsSorted(x, ys, cmp);
    } else {
      var rest := Insert(x, ys[1..], cmp);
      InsertSorted(x, ys[1..], cmp, s);
      assert cmp(ys[0], x) <= 0;
      forall j | 0 <= j < |rest| ensures cmp(ys[0], rest[j]) <= 0 {
        if rest[j] != x {
          var k :| 0 <= k < |ys[1..]| && ys[1..][k] == rest[j];
          assert ys[1 + k] == rest[j];
        }
      }
      ConsSorted(ys[0], rest, cmp);
    }
  }

  lemma {:induction false} ConsSorted<T>(a: T, r: seq<T>, cmp: (T, T) -> int)
    requires SortedBy(r, cmp)
    requires forall j :: 0 <= j < |r| ==> cmp(a, r[j]) <= 0
    ensures SortedBy([a] + r, cmp)
  {
    var q := [a] + r;
    forall i, j | 0 <= i < j < |q| ensures cmp(q[i], q[j]) <= 0 {
      assert q[j] == r[j - 1];
      if i > 0 {
        assert q[i] == r[i - 1];
      }
    }
  }

  /** Sorting by a comparator yields a sequence sorted by it. */
  lemma {:induction false} SortSorted<T(!new)>(xs: seq<T>, cmp: (T, T) -> int, s: set<T>)
    requires ComparatorOn(cmp, s)
    requires forall i :: 0 <= i < |xs| ==> xs[i] in s
    ensures SortedBy(Sort(xs, cmp), cmp)
  {
    if xs != [] {
      SortSorted(xs[1..], cmp, s);
      var sorted := Sort(xs[1..], cmp);
      forall i | 0 <= i < |sorted| ensures sorted[i] in s {
        assert sorted[i] in multiset(xs[1..]);
      }
      InsertSorted(xs[0], sorted, cmp, s);
    }
  }
}
