/**
 Splitting a list into groups by key and serving the groups in rounds, as the batch recommender
 and the training exporter both do.
 */
module Grouping {
  import opened RoundRobin
  import opened Sorting

  /** The groups built so far, each in list order, and their keys in order of first appearance. */
  ghost predicate Grouped<T(!new)>(items: seq<T>, key: T -> Key, groups: map<Key, seq<T>>, order: seq<Key>) {
    && Distinct(order)
    && (forall k :: k in order <==> k in groups)
    && (forall k :: Queue(groups, k) == OfKey(items, key, k))
    && (forall x :: x in items ==> key(x) in order)
  }

  lemma GroupNone<T(!new)>(key: T -> Key)
    ensures Grouped([], key, map[], [])
  {
  }

  lemma GroupOne<T(!new)>(items: seq<T>, key: T -> Key, x: T, groups: map<Key, seq<T>>,
                          order: seq<Key>)
    requires Grouped(items, key, groups, order)
    ensures Grouped(items + [x], key, groups[key(x) := Queue(groups, key(x)) + [x]],
                    if key(x) in groups then order else order + [key(x)])
  {
    hide OfKey, Distinct;
    var groups' := groups[key(x) := Queue(groups, key(x)) + [x]];
    if key(x) !in groups {
      DistinctAppend(order, key(x));
    }
    forall k ensures Queue(groups', k) == OfKey(items + [x], key, k) {
      OfKeyAppend(items, x, key, k);
      assert Queue(groups, k) == OfKey(items, key, k);
      if k != key(x) {
        assert OfKey(items, key, k) + [] == OfKey(items, key, k);
      }
    }
  }

  method GroupBy<T(!new)>(items: seq<T>, key: T -> Key) returns (groups: map<Key, seq<T>>, order: seq<Key>)
    ensures Grouped(items, key, groups, order)
  {
    hide Grouped, OfKey, Distinct;
    groups, order := map[], [];
    GroupNone(key);
    for n := 0 to |items|
      invariant Grouped(items[..n], key, groups, order)
    {
      var item := items[n];
      var k := key(item);
      GroupOne(items[..n], key, item, groups, order);
      assert items[..n + 1] == items[..n] + [item];
      ghost var before := groups;
      if k !in groups {
        groups := groups[k := []];
        order := order + [k];
      }
      groups := groups[k := groups[k] + [item]];
      assert groups == before[k := Queue(before, k) + [item]];
    }
    assert items[..|items|] == items;
  }

  ghost function QueuesOf<T>(items: seq<T>, key: T -> Key, cycle: seq<Key>): seq<seq<T>> {
    seq(|cycle|, j requires 0 <= j < |cycle| => OfKey(items, key, cycle[j]))
  }

  lemma {:induction false} OfKeyMembers<T>(items: seq<T>, key: T -> Key, k: Key)
    ensures forall n :: 0 <= n < |OfKey(items, key, k)| ==>
              key(OfKey(items, key, k)[n]) == k && OfKey(items, key, k)[n] in items
  {
    if items == [] {
    } else {
      OfKeyMembers(items[..|items| - 1], key, k);
    }
  }

  lemma {:induction false} OfKeyAbsent<T>(items: seq<T>, key: T -> Key, k: Key)
    requires forall x :: x in items ==> key(x) != k
    ensures OfKey(items, key, k) == []
  {
    if items == [] {
    } else {
      var n := |items| - 1;
      assert items[n] in items;
      OfKeyAbsent(items[..n], key, k);
    }
  }

  lemma QueuesKeyed<T>(items: seq<T>, key: T -> Key, cycle: seq<Key>)
    ensures Keyed(QueuesOf(items, key, cycle), cycle, key)
  {
    var q := QueuesOf(items, key, cycle);
    forall j, n | 0 <= j < |q| && 0 <= n < |q[j]| ensures key(q[j][n]) == cycle[j] {
      OfKeyMembers(items, key, cycle[j]);
    }
  }

  lemma QueuesAppend<T>(items: seq<T>, key: T -> Key, x: T, cycle: seq<Key>, k: nat)
    requires Distinct(cycle) && k < |cycle| && cycle[k] == key(x)
    ensures |QueuesOf(items, key, cycle)| == |cycle|
    ensures QueuesOf(items + [x], key, cycle)
            == QueuesOf(items, key, cycle)[k := QueuesOf(items, key, cycle)[k] + [x]]
  {
    hide OfKey;
    var before, after := QueuesOf(items, key, cycle), QueuesOf(items + [x], key, cycle);
    forall j | 0 <= j < |cycle| ensures after[j] == before[k := before[k] + [x]][j] {
      OfKeyAppend(items, x, key, cycle[j]);
      assert j != k ==> cycle[j] != cycle[k];
      assert before[j] + [] == before[j];
    }
  }

  /** Splitting by key loses nothing. */
  lemma {:induction false} QueuesPartition<T>(items: seq<T>, key: T -> Key, cycle: seq<Key>)
    requires Distinct(cycle) && forall x :: x in items ==> key(x) in cycle
    ensures Pool(QueuesOf(items, key, cycle)) == multiset(items)
  {
    if items == [] {
      PoolOfEmpty(QueuesOf(items, key, cycle));
    } else {
      hide OfKey, Pool, QueuesOf, Distinct;
      var n := |items| - 1;
      var x := items[n];
      QueuesPartition(items[..n], key, cycle);
      var k :| 0 <= k < |cycle| && cycle[k] == key(x);
      assert items == items[..n] + [x];
      QueuesAppend(items[..n], key, x, cycle, k);
      PoolUpdate(QueuesOf(items[..n], key, cycle), k, x);
    }
  }

  predicate AtMost(a: Key, b: Key) {
    a <= b
  }

  /** `sorted(groups)`: the cycle in which the groups are served. */
  lemma CycleIsFine(order: seq<Key>, cycle: seq<Key>)
    requires Distinct(order) && cycle == Sort(order, AtMost)
    ensures Distinct(cycle) && forall k :: k in cycle <==> k in order
  {
    SortPermutes(order, AtMost);
    SortMembers(order, AtMost);
    DistinctIsSimple(order);
    DistinctIsSimple(cycle);
  }

  lemma InCycle(order: seq<Key>, cycle: seq<Key>, k: Key)
    requires k in order && forall a :: a in cycle <==> a in order
    ensures k in cycle
  {
  }

  lemma GroupedQueues<T(!new)>(items: seq<T>, key: T -> Key, groups: map<Key, seq<T>>,
                               order: seq<Key>, cycle: seq<Key>)
    requires Grouped(items, key, groups, order) && cycle == Sort(order, AtMost)
    ensures Distinct(cycle) && Queues(groups, cycle) == QueuesOf(items, key, cycle)
    ensures forall j :: 0 <= j < |cycle| ==> cycle[j] in groups
    ensures forall x :: x in items ==> key(x) in cycle
  {
    hide Sort, OfKey;
    CycleIsFine(order, cycle);
    forall x | x in items ensures key(x) in cycle {
      InCycle(order, cycle, key(x));
    }
  }

  /** How serving in rounds treats the groups: from each a prefix in its own order, and no group
      more than one ahead of another that still has items to give. */
  ghost predicate Balanced<T>(selected: seq<T>, items: seq<T>, key: T -> Key) {
    && (forall a :: OfKey(selected, key, a) <= OfKey(items, key, a))
    && (forall a, b :: |OfKey(selected, key, a)| <= |OfKey(selected, key, b)| + 1
                       || OfKey(selected, key, b) == OfKey(items, key, b))
  }

  /** Where the schedule stopped, seen from any key, even one that has no items. */
  lemma GroupGives<T>(items: seq<T>, key: T -> Key, cycle: seq<Key>, selected: seq<T>,
                      r: nat, i: nat, a: Key)
    returns (j: int)
    requires Distinct(cycle) && i <= |cycle| && |QueuesOf(items, key, cycle)| == |cycle|
    requires selected == Items(QueuesOf(items, key, cycle), r, i)
    requires forall x :: x in items ==> key(x) in cycle
    requires forall x :: x in selected ==> x in items
    ensures 0 <= j <= |cycle|
    ensures j < |cycle| ==>
              var q := QueuesOf(items, key, cycle);
              OfKey(items, key, a) == q[j] && OfKey(selected, key, a) == q[j][..Taken(q, r, i, j)]
    ensures j == |cycle| ==> OfKey(items, key, a) == OfKey(selected, key, a) == []
  {
    if a in cycle {
      j :| 0 <= j < |cycle| && cycle[j] == a;
      hide Items, OfKey, Distinct, Taken;
      QueuesKeyed(items, key, cycle);
      GivesPrefix(QueuesOf(items, key, cycle), cycle, key, r, i, j);
    } else {
      j := |cycle|;
      OfKeyAbsent(items, key, a);
      OfKeyAbsent(selected, key, a);
    }
  }

  lemma ScheduleIsBalanced<T>(items: seq<T>, key: T -> Key, cycle: seq<Key>, selected: seq<T>,
                              r: nat, i: nat)
    requires Distinct(cycle) && i <= |cycle| && |QueuesOf(items, key, cycle)| == |cycle|
    requires selected == Items(QueuesOf(items, key, cycle), r, i)
    requires forall x :: x in items ==> key(x) in cycle
    requires forall x :: x in selected ==> x in items
    ensures Balanced(selected, items, key)
  {
    hide Items, OfKey, Distinct;
    var q := QueuesOf(items, key, cycle);
    forall a ensures OfKey(selected, key, a) <= OfKey(items, key, a) {
      var j := GroupGives(items, key, cycle, selected, r, i, a);
    }
    forall a, b
      ensures |OfKey(selected, key, a)| <= |OfKey(selected, key, b)| + 1
              || OfKey(selected, key, b) == OfKey(items, key, b)
    {
      var j := GroupGives(items, key, cycle, selected, r, i, a);
      var k := GroupGives(items, key, cycle, selected, r, i, b);
      if j < |cycle| && k < |cycle| {
        Fair(q, r, i, j, k);
      }
    }
  }

  // ---------- Where the items of a key stand ----------

  ghost function Places<T>(items: seq<T>, key: T -> Key, k: Key): set<int> {
    set j | 0 <= j < |items| && key(items[j]) == k
  }

  lemma {:induction false} OfKeyPlaces<T>(items: seq<T>, key: T -> Key, k: Key)
    ensures |OfKey(items, key, k)| == |Places(items, key, k)|
  {
    if items == [] {
      assert Places(items, key, k) == {};
    } else {
      var n := |items| - 1;
      OfKeyPlaces(items[..n], key, k);
      var before := Places(items[..n], key, k);
      assert Places(items, key, k) == if key(items[n]) == k then before + {n} else before;
    }
  }

  // ---------- The order of the rounds ----------

  /** In which round item k was served: how many items of its own group come before it. */
  function RoundOf<T>(items: seq<T>, key: T -> Key, k: nat): nat
    requires k < |items|
  {
    |OfKey(items[..k], key, key(items[k]))|
  }

  lemma {:induction false} OfKeyAt<T>(items: seq<T>, key: T -> Key, k: nat)
    requires k < |items|
    ensures var own := OfKey(items, key, key(items[k]));
            RoundOf(items, key, k) < |own| && own[RoundOf(items, key, k)] == items[k]
  {
    var n := |items| - 1;
    if k == n {
    } else {
      OfKeyAt(items[..n], key, k);
      assert items[..n][..k] == items[..k];
    }
  }

  ghost predicate Before<T>(items: seq<T>, key: T -> Key, i: nat, j: nat)
    requires i < |items| && j < |items|
  {
    || RoundOf(items, key, i) < RoundOf(items, key, j)
    || (RoundOf(items, key, i) == RoundOf(items, key, j) && key(items[i]) < key(items[j]))
  }

  /** The items come round by round, and within a round in ascending order of their groups. */
  ghost predicate InRounds<T>(items: seq<T>, key: T -> Key) {
    forall i, j :: 0 <= i < j < |items| ==> Before(items, key, i, j)
  }

  /** All are from rounds before r, or from round r and one of the first i groups of the cycle. */
  ghost predicate WithinRounds<T>(items: seq<T>, key: T -> Key, cycle: seq<Key>, r: nat, i: nat) {
    forall k :: 0 <= k < |items| ==> ServedBy(items, key, cycle, r, i, k)
  }

  ghost predicate ServedBy<T>(items: seq<T>, key: T -> Key, cycle: seq<Key>, r: nat, i: nat, k: nat)
    requires k < |items|
  {
    || RoundOf(items, key, k) < r
    || (RoundOf(items, key, k) == r && exists j :: 0 <= j < i && j < |cycle| && key(items[k]) == cycle[j])
  }

  lemma RoundOfPrefix<T>(items: seq<T>, x: T, key: T -> Key, k: nat)
    requires k < |items|
    ensures RoundOf(items + [x], key, k) == RoundOf(items, key, k) && (items + [x])[k] == items[k]
  {
    assert (items + [x])[..k] == items[..k];
  }

  lemma InRoundsAppend<T>(items: seq<T>, x: T, key: T -> Key, cycle: seq<Key>, r: nat, i: nat)
    requires InRounds(items, key) && WithinRounds(items, key, cycle, r, i)
    requires Increasing(cycle) && i < |cycle| && key(x) == cycle[i] && |OfKey(items, key, key(x))| == r
    ensures InRounds(items + [x], key) && WithinRounds(items + [x], key, cycle, r, i + 1)
  {
    hide OfKey;
    var n, all := |items|, items + [x];
    assert all[..n] == items && RoundOf(all, key, n) == r;
    forall k | 0 <= k < n
      ensures RoundOf(all, key, k) == RoundOf(items, key, k) && all[k] == items[k]
      ensures ServedBy(all, key, cycle, r, i + 1, k) && Before(all, key, k, n)
    {
      RoundOfPrefix(items, x, key, k);
      assert ServedBy(items, key, cycle, r, i, k);
    }
    assert ServedBy(all, key, cycle, r, i + 1, n);
    forall j, k | 0 <= j < k < |all| ensures Before(all, key, j, k) {
      if k < n {
        assert Before(items, key, j, k);
      }
    }
  }

  lemma WithinWiden<T>(items: seq<T>, key: T -> Key, cycle: seq<Key>, r: nat, i: nat)
    requires WithinRounds(items, key, cycle, r, i)
    ensures WithinRounds(items, key, cycle, r, i + 1) && WithinRounds(items, key, cycle, r + 1, 0)
  {
    hide RoundOf;
    var nextRound, nextGroup := r + 1, i + 1;
    forall k | 0 <= k < |items|
      ensures ServedBy(items, key, cycle, r, nextGroup, k) && ServedBy(items, key, cycle, nextRound, 0, k)
    {
      assert ServedBy(items, key, cycle, r, i, k);
    }
  }

  lemma GivesRound<T>(q: seq<seq<T>>, cycle: seq<Key>, key: T -> Key, r: nat, i: nat)
    requires Increasing(cycle) && Keyed(q, cycle, key) && i < |q| && r < |q[i]|
    ensures |q| == |cycle| && key(q[i][r]) == cycle[i] && |OfKey(Items(q, r, i), key, cycle[i])| == r
  {
    hide OfKey, Items;
    GivesPrefix(q, cycle, key, r, i, i);
  }

  lemma ServeInRounds<T>(q: seq<seq<T>>, cycle: seq<Key>, key: T -> Key, r: nat, i: nat)
    requires Increasing(cycle) && Keyed(q, cycle, key) && i < |q|
    requires InRounds(Items(q, r, i), key) && WithinRounds(Items(q, r, i), key, cycle, r, i)
    ensures InRounds(Items(q, r, i + 1), key) && WithinRounds(Items(q, r, i + 1), key, cycle, r, i + 1)
  {
    hide *;
    ItemsStep(q, r, i);
    WithinWiden(Items(q, r, i), key, cycle, r, i);
    if r < |q[i]| {
      GivesRound(q, cycle, key, r, i);
      InRoundsAppend(Items(q, r, i), q[i][r], key, cycle, r, i);
    }
  }

  /** Every point of the schedule has served its items in rounds. */
  lemma {:induction false} ItemsInRounds<T>(q: seq<seq<T>>, cycle: seq<Key>, key: T -> Key, r: nat, i: nat)
    requires Increasing(cycle) && Keyed(q, cycle, key) && i <= |q|
    ensures InRounds(Items(q, r, i), key) && WithinRounds(Items(q, r, i), key, cycle, r, i)
    decreases r, i
  {
    hide Increasing, Keyed, InRounds, WithinRounds;
    if i > 0 {
      hide Items;
      ItemsInRounds(q, cycle, key, r, i - 1);
      ServeInRounds(q, cycle, key, r, i - 1);
    } else if r > 0 {
      ItemsInRounds(q, cycle, key, r - 1, |q|);
      WithinWiden(Items(q, r - 1, |q|), key, cycle, r - 1, |q|);
    } else {
      NothingInRounds(q, cycle, key);
    }
  }

  lemma NothingInRounds<T>(q: seq<seq<T>>, cycle: seq<Key>, key: T -> Key)
    ensures InRounds(Items(q, 0, 0), key) && WithinRounds(Items(q, 0, 0), key, cycle, 0, 0)
  {
  }

  lemma KeysAreDistinct<T(!new)>(items: seq<T>, key: T -> Key, groups: map<Key, seq<T>>, order: seq<Key>)
    requires Grouped(items, key, groups, order)
    ensures Distinct(order)
  {
  }

  lemma CycleIncreases(order: seq<Key>, cycle: seq<Key>)
    requires Distinct(order) && cycle == Sort(order, AtMost)
    ensures Increasing(cycle)
  {
    SortSorts(order, AtMost);
    CycleIsFine(order, cycle);
    hide Sort;
    forall i, j | 0 <= i < j < |cycle| ensures cycle[i] < cycle[j] {
      assert AtMost(cycle[i], cycle[j]) && cycle[i] != cycle[j];
    }
  }
}
