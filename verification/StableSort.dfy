/** Grouping by rank as a stable sort: the items of rank 0 in their old order, then those of rank 1,
    and so on. This is the order in which the header rewriter collects lines. */
module StableSort {

  function OfRank<T>(rank: T -> nat, items: seq<T>, k: nat): seq<T> {
    if items == [] then []
    else
      var rest := OfRank(rank, items[..|items| - 1], k);
      if rank(items[|items| - 1]) == k then rest + [items[|items| - 1]] else rest
  }

  /** The groups of rank below `d`, in order. */
  function ByRank<T>(rank: T -> nat, items: seq<T>, d: nat): seq<T> {
    if d == 0 then [] else ByRank(rank, items, d - 1) + OfRank(rank, items, d - 1)
  }

  ghost predicate InRankOrder<T>(rank: T -> nat, items: seq<T>) {
    forall i, j | 0 <= i < j < |items| :: rank(items[i]) <= rank(items[j])
  }

  ghost predicate Below<T>(rank: T -> nat, items: seq<T>, d: nat) {
    forall i | 0 <= i < |items| :: rank(items[i]) < d
  }

  ghost predicate SameGroups<T(!new)>(rank: T -> nat, a: seq<T>, b: seq<T>) {
    forall k: nat :: OfRank(rank, a, k) == OfRank(rank, b, k)
  }

  lemma OfRankSnoc<T>(rank: T -> nat, front: seq<T>, x: T, k: nat)
    ensures OfRank(rank, front + [x], k)
         == if rank(x) == k then OfRank(rank, front, k) + [x] else OfRank(rank, front, k)
  {
    assert (front + [x])[..|front|] == front;
  }

  lemma {:induction false} OfRankAppend<T>(rank: T -> nat, a: seq<T>, b: seq<T>, k: nat)
    ensures OfRank(rank, a + b, k) == OfRank(rank, a, k) + OfRank(rank, b, k)
    decreases |b|
  {
    if b == [] {
      assert a + b == a;
    } else {
      var front, x := b[..|b| - 1], b[|b| - 1];
      assert a + b == (a + front) + [x];
      OfRankAppend(rank, a, front, k);
      OfRankSnoc(rank, a + front, x, k);
    }
  }

  lemma {:induction false} OfRankMembers<T>(rank: T -> nat, items: seq<T>, k: nat)
    ensures forall i | 0 <= i < |OfRank(rank, items, k)| :: rank(OfRank(rank, items, k)[i]) == k
    ensures Below(rank, items, k) ==> OfRank(rank, items, k) == []
  {
    if items != [] {
      OfRankMembers(rank, items[..|items| - 1], k);
    }
  }

  lemma {:induction false} OfRankTwice<T>(rank: T -> nat, items: seq<T>, j: nat, k: nat)
    ensures OfRank(rank, OfRank(rank, items, j), k) == if j == k then OfRank(rank, items, j) else []
  {
    if items != [] {
      var front, x := items[..|items| - 1], items[|items| - 1];
      OfRankTwice(rank, front, j, k);
      OfRankSnoc(rank, OfRank(rank, front, j), x, k);
      assert items == front + [x];
      OfRankSnoc(rank, front, x, j);
    }
  }

  lemma {:induction false} ByRankInOrder<T>(rank: T -> nat, items: seq<T>, d: nat)
    ensures InRankOrder(rank, ByRank(rank, items, d)) && Below(rank, ByRank(rank, items, d), d)
  {
    if d > 0 {
      ByRankInOrder(rank, items, d - 1);
      OfRankMembers(rank, items, d - 1);
    }
  }

  lemma {:induction false} ByRankStable<T>(rank: T -> nat, items: seq<T>, d: nat, k: nat)
    ensures OfRank(rank, ByRank(rank, items, d), k) == if k < d then OfRank(rank, items, k) else []
  {
    if d > 0 {
      var low, group := ByRank(rank, items, d - 1), OfRank(rank, items, d - 1);
      assert ByRank(rank, items, d) == low + group;
      OfRankAppend(rank, low, group, k);
      ByRankStable(rank, items, d - 1, k);
      OfRankTwice(rank, items, d - 1, k);
      ConcatWithNothing(OfRank(rank, items, k));
    }
  }

  lemma ConcatWithNothing<T>(s: seq<T>)
    ensures s + [] == s && [] + s == s
  {
  }

  /** Adding one item at the end adds it once to the grouped items. */
  lemma {:induction false} ByRankGrows<T>(rank: T -> nat, front: seq<T>, x: T, d: nat)
    ensures rank(x) >= d ==> ByRank(rank, front + [x], d) == ByRank(rank, front, d)
    ensures rank(x) < d ==> multiset(ByRank(rank, front + [x], d)) == multiset(ByRank(rank, front, d)) + multiset{x}
  {
    hide OfRank;
    if d > 0 {
      ByRankGrows(rank, front, x, d - 1);
      OfRankSnoc(rank, front, x, d - 1);
      var low, group := ByRank(rank, front, d - 1), OfRank(rank, front, d - 1);
      var low', group' := ByRank(rank, front + [x], d - 1), OfRank(rank, front + [x], d - 1);
      assert ByRank(rank, front, d) == low + group && ByRank(rank, front + [x], d) == low' + group';
      if rank(x) < d - 1 {
        assert multiset(low' + group') == multiset(low') + multiset(group');
      } else if rank(x) == d - 1 {
        assert low' + group' == (low + group) + [x];
      }
    }
  }

  lemma {:induction false} ByRankOfNothing<T>(rank: T -> nat, d: nat)
    ensures ByRank(rank, [], d) == []
  {
    if d > 0 {
      ByRankOfNothing(rank, d - 1);
    }
  }

  lemma {:induction false} ByRankPermutes<T>(rank: T -> nat, items: seq<T>, d: nat)
    requires Below(rank, items, d)
    ensures multiset(ByRank(rank, items, d)) == multiset(items)
  {
    if items == [] {
      ByRankOfNothing(rank, d);
    } else {
      var front, x := items[..|items| - 1], items[|items| - 1];
      assert items == front + [x];
      ByRankPermutes(rank, front, d);
      ByRankGrows(rank, front, x, d);
    }
  }

  lemma {:induction false} ByRankExtends<T>(rank: T -> nat, front: seq<T>, x: T, d: nat)
    requires forall i | 0 <= i < |front| :: rank(front[i]) <= rank(x)
    ensures ByRank(rank, front + [x], d)
         == if rank(x) < d then ByRank(rank, front, d) + [x] else ByRank(rank, front, d)
  {
    if d > 0 {
      ByRankExtends(rank, front, x, d - 1);
      OfRankSnoc(rank, front, x, d - 1);
      if rank(x) < d - 1 {
        NoneAbove(rank, front, d - 1);
      }
    }
  }

  lemma NoneAbove<T>(rank: T -> nat, items: seq<T>, k: nat)
    requires forall i | 0 <= i < |items| :: rank(items[i]) < k
    ensures OfRank(rank, items, k) == []
  {
    OfRankMembers(rank, items, k);
    assert Below(rank, items, k);
  }

  /** Items already in rank order stay as they are. */
  lemma {:induction false} ByRankIsFixed<T>(rank: T -> nat, items: seq<T>, d: nat)
    requires InRankOrder(rank, items) && Below(rank, items, d)
    ensures ByRank(rank, items, d) == items
  {
    if items == [] {
      ByRankOfNothing(rank, d);
    } else {
      var front, x := items[..|items| - 1], items[|items| - 1];
      assert items == front + [x];
      ByRankIsFixed(rank, front, d);
      ByRankExtends(rank, front, x, d);
    }
  }

  lemma {:induction false} ByRankFromGroups<T(!new)>(rank: T -> nat, a: seq<T>, b: seq<T>, d: nat)
    requires SameGroups(rank, a, b)
    ensures ByRank(rank, a, d) == ByRank(rank, b, d)
  {
    if d > 0 {
      ByRankFromGroups(rank, a, b, d - 1);
    }
  }

  lemma {:induction false} SameGroupsBelow<T(!new)>(rank: T -> nat, a: seq<T>, b: seq<T>, d: nat)
    requires SameGroups(rank, a, b) && Below(rank, b, d)
    ensures Below(rank, a, d)
  {
    forall i | 0 <= i < |a|
      ensures rank(a[i]) < d
    {
      OfRankFinds(rank, a, i);
      if rank(a[i]) >= d {
        OfRankEmptyAbove(rank, b, d, rank(a[i]));
      }
    }
  }

  lemma {:induction false} OfRankFinds<T>(rank: T -> nat, items: seq<T>, i: nat)
    requires i < |items|
    ensures OfRank(rank, items, rank(items[i])) != []
  {
    if i < |items| - 1 {
      OfRankFinds(rank, items[..|items| - 1], i);
    }
  }

  lemma {:induction false} OfRankEmptyAbove<T>(rank: T -> nat, items: seq<T>, d: nat, k: nat)
    requires Below(rank, items, d) && k >= d
    ensures OfRank(rank, items, k) == []
  {
    assert Below(rank, items, k);
    OfRankMembers(rank, items, k);
  }

  /** The grouped items are in rank order and keep each rank's items in their old order; no other
      sequence does both. */
  lemma ByRankIsTheStableSort<T(!new)>(rank: T -> nat, items: seq<T>, d: nat, other: seq<T>)
    requires Below(rank, items, d)
    ensures InRankOrder(rank, ByRank(rank, items, d))
    ensures SameGroups(rank, ByRank(rank, items, d), items)
    ensures InRankOrder(rank, other) && SameGroups(rank, other, items) ==> other == ByRank(rank, items, d)
  {
    ByRankInOrder(rank, items, d);
    forall k: nat
      ensures OfRank(rank, ByRank(rank, items, d), k) == OfRank(rank, items, k)
    {
      ByRankStable(rank, items, d, k);
      if k >= d {
        OfRankEmptyAbove(rank, items, d, k);
      }
    }
    if InRankOrder(rank, other) && SameGroups(rank, other, items) {
      SameGroupsBelow(rank, other, items, d);
      ByRankIsFixed(rank, other, d);
      ByRankFromGroups(rank, other, items, d);
    }
  }

  // ---- a property shared by all items of one rank ------------------------------------------------

  function Filter<T>(p: T -> bool, items: seq<T>): seq<T> {
    if items == [] then []
    else
      var rest := Filter(p, items[..|items| - 1]);
      if p(items[|items| - 1]) then rest + [items[|items| - 1]] else rest
  }

  lemma FilterSnoc<T>(p: T -> bool, front: seq<T>, x: T)
    ensures Filter(p, front + [x]) == if p(x) then Filter(p, front) + [x] else Filter(p, front)
  {
    assert (front + [x])[..|front|] == front;
  }

  lemma {:induction false} FilterAppend<T>(p: T -> bool, a: seq<T>, b: seq<T>)
    ensures Filter(p, a + b) == Filter(p, a) + Filter(p, b)
    decreases |b|
  {
    if b == [] {
      assert a + b == a;
    } else {
      var front, x := b[..|b| - 1], b[|b| - 1];
      assert a + b == (a + front) + [x];
      FilterAppend(p, a, front);
      FilterSnoc(p, a + front, x);
    }
  }

  /** Items satisfying `p` all have the rank `m`: grouping by another rank loses them, grouping by `m`
      keeps them all. */
  lemma {:induction false} FilterOfRank<T(!new)>(rank: T -> nat, p: T -> bool, m: nat, items: seq<T>, k: nat)
    requires forall x | p(x) :: rank(x) == m
    ensures Filter(p, OfRank(rank, items, k)) == if k == m then Filter(p, items) else []
  {
    if items != [] {
      var front, x := items[..|items| - 1], items[|items| - 1];
      FilterOfRank(rank, p, m, front, k);
      if rank(x) == k {
        FilterSnoc(p, OfRank(rank, front, k), x);
      }
    }
  }

  lemma FilterOfNothing<T>(p: T -> bool)
    ensures Filter(p, []) == []
  {
  }

  lemma {:induction false} FilterByRank<T(!new)>(rank: T -> nat, p: T -> bool, m: nat, items: seq<T>, d: nat)
    requires forall x | p(x) :: rank(x) == m
    ensures Filter(p, ByRank(rank, items, d)) == if m < d then Filter(p, items) else []
  {
    hide OfRank, Filter;
    if d == 0 {
      FilterOfNothing(p);
    } else {
      FilterByRank(rank, p, m, items, d - 1);
      FilterOfRank(rank, p, m, items, d - 1);
      FilterAppend(p, ByRank(rank, items, d - 1), OfRank(rank, items, d - 1));
    }
  }
}
