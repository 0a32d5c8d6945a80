/** The java.util.stream collectors the pipelines use: groupingBy (whose
    downstream collectors are then applied to each group's members), distinct,
    and integer sums. */
module Collect {

  /** One entry of the map groupingBy builds: a key and the elements mapped to
      it, in encounter order. */
  datatype Group<K, T> = Group(key: K, members: seq<T>)

  /** The key function may be applied to every element. */
  ghost predicate KeyDefined<T, K>(xs: seq<T>, key: T --> K) {
    forall i :: 0 <= i < |xs| ==> key.requires(xs[i])
  }

  /** The elements whose key is k, in encounter order. */
  function Select<T, K(==)>(xs: seq<T>, key: T --> K, k: K): (r: seq<T>)
    requires KeyDefined(xs, key)
    ensures |r| <= |xs|
    ensures forall i :: 0 <= i < |r| ==> r[i] in xs && key.requires(r[i]) && key(r[i]) == k
    ensures forall i :: 0 <= i < |xs| && key(xs[i]) == k ==> xs[i] in r
  {
    if xs == [] then []
    else
      var init, last := xs[..|xs| - 1], xs[|xs| - 1];
      assert xs == init + [last];
      Select(init, key, k) + (if key(last) == k then [last] else [])
  }

  /** r picks the elements of xs at the strictly increasing positions idx. */
  ghost predicate PicksInOrder<T>(r: seq<T>, xs: seq<T>, idx: seq<nat>) {
    && |idx| == |r|
    && (forall j :: 0 <= j < |idx| ==> idx[j] < |xs| && r[j] == xs[idx[j]])
    && (forall j1, j2 :: 0 <= j1 < j2 < |idx| ==> idx[j1] < idx[j2])
  }

  /** The selected elements keep their encounter order: they are a
      subsequence of the input. */
  lemma {:induction false} SelectInOrder<T, K>(xs: seq<T>, key: T --> K, k: K)
    requires KeyDefined(xs, key)
    ensures exists idx :: PicksInOrder(Select(xs, key, k), xs, idx)
    decreases |xs|
  {
    if xs == [] {
      assert PicksInOrder(Select(xs, key, k), xs, []);
    } else {
      var init, last := xs[..|xs| - 1], xs[|xs| - 1];
      assert KeyDefined(init, key) by {
        forall i | 0 <= i < |init| ensures key.requires(init[i]) { assert init[i] == xs[i]; }
      }
      SelectInOrder(init, key, k);
      var idx: seq<nat> :| PicksInOrder(Select(init, key, k), init, idx);
      var keep := key(last) == k;
      assert xs == init + [last];
      assert Select(xs, key, k) == Select(init, key, k) + (if keep then [last] else []);
      PicksSnoc(Select(init, key, k), init, idx, last, keep);
    }
  }

  lemma {:induction false} PicksSnoc<T>(r: seq<T>, xs: seq<T>, idx: seq<nat>, x: T, keep: bool)
    requires PicksInOrder(r, xs, idx)
    ensures PicksInOrder(r + (if keep then [x] else []), xs + [x], if keep then idx + [|xs|] else idx)
  {
    var ys := xs + [x];
    forall j | 0 <= j < |idx| ensures idx[j] < |ys| && r[j] == ys[idx[j]] {
      assert ys[idx[j]] == xs[idx[j]];
    }
    if keep {
      var r', idx' := r + [x], idx + [|xs|];
      forall j | 0 <= j < |idx'| ensures idx'[j] < |ys| && r'[j] == ys[idx'[j]] {
        if j < |idx| {
          assert idx'[j] == idx[j] && r'[j] == r[j];
        }
      }
    } else {
      assert r + [] == r;
    }
  }

  /** Each element with key k is selected as many times as it occurs, and
      no other element is selected at all. */
  lemma {:induction false} SelectMultiplicity<T, K>(xs: seq<T>, key: T --> K, k: K)
    requires KeyDefined(xs, key)
    ensures forall y :: key.requires(y) && key(y) == k ==> multiset(Select(xs, key, k))[y] == multiset(xs)[y]
    ensures forall y :: key.requires(y) && key(y) != k ==> multiset(Select(xs, key, k))[y] == 0
    decreases |xs|
  {
    if xs != [] {
      var init, last := xs[..|xs| - 1], xs[|xs| - 1];
      assert xs == init + [last];
      assert KeyDefined(init, key) by {
        forall i | 0 <= i < |init| ensures key.requires(init[i]) { assert init[i] == xs[i]; }
      }
      SelectMultiplicity(init, key, k);
      assert multiset(xs) == multiset(init) + multiset{last};
    }
  }

  /** Select read from the front: the first element is kept exactly when its
      key is k. */
  lemma {:induction false} SelectCons<T, K>(x: T, xs: seq<T>, key: T --> K, k: K)
    requires KeyDefined([x] + xs, key)
    ensures key.requires(x) && KeyDefined(xs, key)
    ensures Select([x] + xs, key, k) == (if key(x) == k then [x] else []) + Select(xs, key, k)
    decreases |xs|
  {
    var ys := [x] + xs;
    assert ys[0] == x;
    assert forall i :: 0 <= i < |xs| ==> xs[i] == ys[i + 1];
    if xs == [] {
      assert ys[..0] == [];
    } else {
      var init := xs[..|xs| - 1];
      assert ys[..|ys| - 1] == [x] + init;
      SelectCons(x, init, key, k);
    }
  }

  /** The keys of the elements. */
  ghost function KeySet<T, K>(xs: seq<T>, key: T --> K): set<K>
    requires KeyDefined(xs, key)
  {
    set i | 0 <= i < |xs| :: key(xs[i])
  }

  function Keys<K, T>(gs: seq<Group<K, T>>): (ks: seq<K>)
    ensures |ks| == |gs| && forall i :: 0 <= i < |gs| ==> ks[i] == gs[i].key
  {
    seq(|gs|, i requires 0 <= i < |gs| => gs[i].key)
  }

  predicate NoDuplicates<T(==)>(s: seq<T>) {
    forall i, j :: 0 <= i < j < |s| ==> s[i] != s[j]
  }

  /** The position of the group with key k, or |gs| when there is none. */
  function IndexOf<K(==), T>(gs: seq<Group<K, T>>, k: K): (j: nat)
    ensures j <= |gs|
    ensures j < |gs| ==> gs[j].key == k
    ensures forall i :: 0 <= i < j ==> gs[i].key != k
  {
    if gs == [] then 0
    else if gs[0].key == k then 0
    else 1 + IndexOf(gs[1..], k)
  }

  /** Adds x to the group of key k, opening the group if it is new. */
  function Accumulate<K(==), T>(gs: seq<Group<K, T>>, k: K, x: T): seq<Group<K, T>> {
    var j := IndexOf(gs, k);
    if j < |gs| then gs[j := Group(k, gs[j].members + [x])]
    else gs + [Group(k, [x])]
  }

  /** Collectors.groupingBy(key, toList()): one group per distinct key, no two
      groups with the same key, and each group holds exactly the elements with
      its key, in encounter order. Groups appear in the order their keys first
      occur. */
  function GroupingBy<T, K(==)>(xs: seq<T>, key: T --> K): (gs: seq<Group<K, T>>)
    requires KeyDefined(xs, key)
    ensures NoDuplicates(Keys(gs))
    ensures forall i :: 0 <= i < |gs| ==>
              gs[i].members != [] && gs[i].members == Select(xs, key, gs[i].key)
    ensures SetOf(Keys(gs)) == KeySet(xs, key)
  {
    if xs == [] then []
    else
      var init, last := xs[..|xs| - 1], xs[|xs| - 1];
      assert xs == init + [last];
      var gs := GroupingBy(init, key);
      AccumulateGroups(xs, key, gs);
      Accumulate(gs, key(last), last)
  }

  /** What groupingBy promises about the groups gs of the elements xs. */
  ghost predicate GroupsOf<T, K>(gs: seq<Group<K, T>>, xs: seq<T>, key: T --> K)
    requires KeyDefined(xs, key)
  {
    && NoDuplicates(Keys(gs))
    && (forall i :: 0 <= i < |gs| ==>
          gs[i].members != [] && gs[i].members == Select(xs, key, gs[i].key))
    && SetOf(Keys(gs)) == KeySet(xs, key)
  }

  lemma {:induction false} AccumulateGroups<T, K>(xs: seq<T>, key: T --> K, gs: seq<Group<K, T>>)
    requires xs != [] && KeyDefined(xs, key)
    requires KeyDefined(xs[..|xs| - 1], key)
    requires GroupsOf(gs, xs[..|xs| - 1], key)
    ensures GroupsOf(Accumulate(gs, key(xs[|xs| - 1]), xs[|xs| - 1]), xs, key)
  {
    var init, last := xs[..|xs| - 1], xs[|xs| - 1];
    var k := key(last);
    assert KeySet(xs, key) == KeySet(init, key) + {k} by {
      assert xs == init + [last];
    }
    if IndexOf(gs, k) < |gs| {
      AccumulateExisting(xs, key, gs);
    } else {
      AccumulateNew(xs, key, gs);
    }
  }

  lemma {:induction false} AccumulateExisting<T, K>(xs: seq<T>, key: T --> K, gs: seq<Group<K, T>>)
    requires xs != [] && KeyDefined(xs, key)
    requires KeyDefined(xs[..|xs| - 1], key)
    requires GroupsOf(gs, xs[..|xs| - 1], key)
    requires KeySet(xs, key) == KeySet(xs[..|xs| - 1], key) + {key(xs[|xs| - 1])}
    requires IndexOf(gs, key(xs[|xs| - 1])) < |gs|
    ensures GroupsOf(Accumulate(gs, key(xs[|xs| - 1]), xs[|xs| - 1]), xs, key)
  {
    ExistingKeys(xs, key, gs);
    ExistingMembers(xs, key, gs);
  }

  lemma {:induction false} ExistingKeys<T, K>(xs: seq<T>, key: T --> K, gs: seq<Group<K, T>>)
    requires xs != [] && KeyDefined(xs, key)
    requires KeyDefined(xs[..|xs| - 1], key)
    requires SetOf(Keys(gs)) == KeySet(xs[..|xs| - 1], key)
    requires KeySet(xs, key) == KeySet(xs[..|xs| - 1], key) + {key(xs[|xs| - 1])}
    requires IndexOf(gs, key(xs[|xs| - 1])) < |gs|
    ensures var r := Accumulate(gs, key(xs[|xs| - 1]), xs[|xs| - 1]);
            Keys(r) == Keys(gs) && SetOf(Keys(r)) == KeySet(xs, key)
  {
    var k := key(xs[|xs| - 1]);
    var j := IndexOf(gs, k);
    KeysUpdate(gs, j, Group(k, gs[j].members + [xs[|xs| - 1]]));
    assert Keys(gs)[j] == k;
  }

  lemma {:induction false} ExistingMembers<T, K>(xs: seq<T>, key: T --> K, gs: seq<Group<K, T>>)
    requires xs != [] && KeyDefined(xs, key)
    requires KeyDefined(xs[..|xs| - 1], key)
    requires GroupsOf(gs, xs[..|xs| - 1], key)
    requires IndexOf(gs, key(xs[|xs| - 1])) < |gs|
    ensures var r := Accumulate(gs, key(xs[|xs| - 1]), xs[|xs| - 1]);
            forall i :: 0 <= i < |r| ==> r[i].members != [] && r[i].members == Select(xs, key, r[i].key)
  {
    var r := Accumulate(gs, key(xs[|xs| - 1]), xs[|xs| - 1]);
    forall i | 0 <= i < |r|
      ensures r[i].members != [] && r[i].members == Select(xs, key, r[i].key)
    {
      ExistingMember(xs, key, gs, i);
    }
  }

  lemma {:induction false} ExistingMember<T, K>(xs: seq<T>, key: T --> K, gs: seq<Group<K, T>>, i: nat)
    requires xs != [] && KeyDefined(xs, key)
    requires KeyDefined(xs[..|xs| - 1], key)
    requires GroupsOf(gs, xs[..|xs| - 1], key)
    requires IndexOf(gs, key(xs[|xs| - 1])) < |gs|
    requires i < |gs|
    ensures var r := Accumulate(gs, key(xs[|xs| - 1]), xs[|xs| - 1]);
            r[i].members != [] && r[i].members == Select(xs, key, r[i].key)
  {
    var k := key(xs[|xs| - 1]);
    var j := IndexOf(gs, k);
    if i != j {
      assert Keys(gs)[i] != Keys(gs)[j];
    }
  }

  lemma {:induction false} AccumulateNew<T, K>(xs: seq<T>, key: T --> K, gs: seq<Group<K, T>>)
    requires xs != [] && KeyDefined(xs, key)
    requires KeyDefined(xs[..|xs| - 1], key)
    requires GroupsOf(gs, xs[..|xs| - 1], key)
    requires KeySet(xs, key) == KeySet(xs[..|xs| - 1], key) + {key(xs[|xs| - 1])}
    requires IndexOf(gs, key(xs[|xs| - 1])) == |gs|
    ensures GroupsOf(Accumulate(gs, key(xs[|xs| - 1]), xs[|xs| - 1]), xs, key)
  {
    var init, last := xs[..|xs| - 1], xs[|xs| - 1];
    var k := key(last);
    var r := Accumulate(gs, k, last);
    KeysAppend(gs, Group(k, [last]));
    forall i | 0 <= i < |r|
      ensures r[i].members != [] && r[i].members == Select(xs, key, r[i].key)
    {
      NewMember(xs, key, gs, i);
    }
    NoDuplicatesAppend(Keys(gs), k);
    SetOfAppend(Keys(gs), k);
  }

  lemma {:induction false} KeysUpdate<K, T>(gs: seq<Group<K, T>>, j: nat, g: Group<K, T>)
    requires j < |gs| && g.key == gs[j].key
    ensures Keys(gs[j := g]) == Keys(gs)
  {
  }

  lemma {:induction false} KeysAppend<K, T>(gs: seq<Group<K, T>>, g: Group<K, T>)
    ensures Keys(gs + [g]) == Keys(gs) + [g.key]
  {
  }

  lemma {:induction false} NoDuplicatesAppend<T>(s: seq<T>, x: T)
    requires NoDuplicates(s)
    requires forall i :: 0 <= i < |s| ==> s[i] != x
    ensures NoDuplicates(s + [x])
  {
  }

  lemma {:induction false} NewMember<T, K>(xs: seq<T>, key: T --> K, gs: seq<Group<K, T>>, i: nat)
    requires xs != [] && KeyDefined(xs, key)
    requires KeyDefined(xs[..|xs| - 1], key)
    requires GroupsOf(gs, xs[..|xs| - 1], key)
    requires IndexOf(gs, key(xs[|xs| - 1])) == |gs|
    requires i <= |gs|
    ensures var r := Accumulate(gs, key(xs[|xs| - 1]), xs[|xs| - 1]);
            r[i].members != [] && r[i].members == Select(xs, key, r[i].key)
  {
    var init, last := xs[..|xs| - 1], xs[|xs| - 1];
    var k := key(last);
    if i == |gs| {
      assert k !in SetOf(Keys(gs));
      SelectAbsent(init, key, k);
    }
  }

  /** The values of a sequence. */
  ghost function SetOf<T>(s: seq<T>): set<T> {
    set i | 0 <= i < |s| :: s[i]
  }

  lemma {:induction false} SetOfAppend<T>(s: seq<T>, x: T)
    ensures SetOf(s + [x]) == SetOf(s) + {x}
  {
    forall y | y in SetOf(s + [x]) ensures y in SetOf(s) + {x} {
      var i :| 0 <= i < |s + [x]| && (s + [x])[i] == y;
      if i < |s| {
        assert s[i] == y;
      }
    }
    forall y | y in SetOf(s) + {x} ensures y in SetOf(s + [x]) {
      if y == x {
        assert (s + [x])[|s|] == y;
      } else {
        var i :| 0 <= i < |s| && s[i] == y;
        assert (s + [x])[i] == y;
      }
    }
  }

  lemma {:induction false} SelectAbsent<T, K>(xs: seq<T>, key: T --> K, k: K)
    requires KeyDefined(xs, key)
    requires k !in KeySet(xs, key)
    ensures Select(xs, key, k) == []
    decreases |xs|
  {
    if xs != [] {
      var init := xs[..|xs| - 1];
      assert k != key(xs[|xs| - 1]);
      assert k !in KeySet(init, key) by {
        forall i | 0 <= i < |init| ensures key(init[i]) != k {
          assert init[i] == xs[i];
        }
      }
      SelectAbsent(init, key, k);
    }
  }

  /** Collectors.summingInt / summingLong before any wrap-around: the exact sum of f. */
  function SumOf<T>(xs: seq<T>, f: T -> int): int {
    if xs == [] then 0 else SumOf(xs[..|xs| - 1], f) + f(xs[|xs| - 1])
  }

  lemma {:induction false} SumOfCons<T>(x: T, xs: seq<T>, f: T -> int)
    ensures SumOf([x] + xs, f) == f(x) + SumOf(xs, f)
  {
    if xs != [] {
      var q := [x] + xs;
      assert q[..|q| - 1] == [x] + xs[..|xs| - 1];
      SumOfCons(x, xs[..|xs| - 1], f);
    } else {
      assert ([x] + xs)[..0] == [];
    }
  }

  /** The total of f over all groups' members. */
  function GroupsSum<K, T>(gs: seq<Group<K, T>>, f: T -> int): int {
    if gs == [] then 0 else SumOf(gs[0].members, f) + GroupsSum(gs[1..], f)
  }

  lemma {:induction false} GroupsSumUpdate<K, T>(gs: seq<Group<K, T>>, j: nat, g: Group<K, T>, f: T -> int)
    requires j < |gs|
    ensures GroupsSum(gs[j := g], f) == GroupsSum(gs, f) - SumOf(gs[j].members, f) + SumOf(g.members, f)
  {
    if j > 0 {
      assert gs[j := g][1..] == gs[1..][j - 1 := g];
      GroupsSumUpdate(gs[1..], j - 1, g, f);
    }
  }

  lemma {:induction false} GroupsSumAppend<K, T>(gs: seq<Group<K, T>>, g: Group<K, T>, f: T -> int)
    ensures GroupsSum(gs + [g], f) == GroupsSum(gs, f) + SumOf(g.members, f)
  {
    if gs == [] {
      assert [g][1..] == [];
    } else {
      assert (gs + [g])[1..] == gs[1..] + [g];
      GroupsSumAppend(gs[1..], g, f);
    }
  }

  /** Grouping neither loses nor duplicates anything: summing f group by
      group gives the sum of f over all elements. */
  lemma {:induction false} GroupingBySum<T, K>(xs: seq<T>, key: T --> K, f: T -> int)
    requires KeyDefined(xs, key)
    ensures GroupsSum(GroupingBy(xs, key), f) == SumOf(xs, f)
  {
    if xs != [] {
      var init, last := xs[..|xs| - 1], xs[|xs| - 1];
      assert xs == init + [last];
      GroupingBySum(init, key, f);
      var gs := GroupingBy(init, key);
      var j := IndexOf(gs, key(last));
      if j < |gs| {
        GroupsSumUpdate(gs, j, Group(key(last), gs[j].members + [last]), f);
        assert (gs[j].members + [last])[..|gs[j].members|] == gs[j].members;
      } else {
        GroupsSumAppend(gs, Group(key(last), [last]), f);
        assert [last][..0] == [];
      }
    }
  }

  /** Stream.distinct: the first occurrence of every value, in encounter order. */
  function Distinct<T(==)>(xs: seq<T>): (r: seq<T>)
    ensures forall i :: 0 <= i < |r| ==> r[i] in xs
    ensures forall i :: 0 <= i < |xs| ==> xs[i] in r
    ensures NoDuplicates(r)
  {
    if xs == [] then []
    else
      var init, last := xs[..|xs| - 1], xs[|xs| - 1];
      assert xs == init + [last];
      var d := Distinct(init);
      if last in d then d else d + [last]
  }

  /** A sequence without repetitions has as many elements as values. */
  lemma {:induction false} NoDuplicatesCard<T>(s: seq<T>)
    requires NoDuplicates(s)
    ensures |set x | x in s| == |s|
  {
    if s != [] {
      var init, last := s[..|s| - 1], s[|s| - 1];
      assert s == init + [last];
      NoDuplicatesCard(init);
      assert last !in init;
      assert (set x | x in s) == (set x | x in init) + {last};
    }
  }

  /** A sequence has at most as many values as elements. */
  lemma {:induction false} ValuesAtMostLength<T>(s: seq<T>)
    ensures |set x | x in s| <= |s|
  {
    if s != [] {
      var init, last := s[..|s| - 1], s[|s| - 1];
      assert s == init + [last];
      ValuesAtMostLength(init);
      assert (set x | x in s) == (set x | x in init) + {last};
    }
  }

  /** Stream.distinct().count(): the number of different values. */
  lemma {:induction false} DistinctCount<T>(xs: seq<T>)
    ensures |Distinct(xs)| == |set x | x in xs|
  {
    NoDuplicatesCard(Distinct(xs));
    assert (set x | x in Distinct(xs)) == (set x | x in xs);
  }

  /** There are as many groups as distinct keys. */
  lemma {:induction false} GroupCount<T, K>(xs: seq<T>, key: T --> K)
    requires KeyDefined(xs, key)
    ensures |GroupingBy(xs, key)| == |KeySet(xs, key)|
  {
    var gs := GroupingBy(xs, key);
    NoDuplicatesCard(Keys(gs));
    assert (set k | k in Keys(gs)) == SetOf(Keys(gs));
  }
}
