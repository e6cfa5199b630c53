/**
 Draining a dictionary of queues in rounds: one item from the front of each queue that still
 has one, in a fixed cycle, until nothing is left or a limit is reached.
 */
module RoundRobin {
  import opened Sorting

  type Key = int

  /** What has been taken after `r` full rounds and the first `i` queues of the next one. */
  function Items<T>(q: seq<seq<T>>, r: nat, i: nat): seq<T>
    requires i <= |q|
    decreases r, i
  {
    if i > 0 then Items(q, r, i - 1) + (if r < |q[i - 1]| then [q[i - 1][r]] else [])
    else if r > 0 then Items(q, r - 1, |q|)
    else []
  }

  /** How many items queue j has given by then. */
  function Taken<T>(q: seq<seq<T>>, r: nat, i: nat, j: nat): nat
    requires j < |q|
  {
    var rounds := if j < i then r + 1 else r;
    if rounds <= |q[j]| then rounds else |q[j]|
  }

  function Queue<T>(buckets: map<Key, seq<T>>, k: Key): seq<T> {
    if k in buckets then buckets[k] else []
  }

  function Queues<T>(buckets: map<Key, seq<T>>, cycle: seq<Key>): seq<seq<T>> {
    seq(|cycle|, j requires 0 <= j < |cycle| => Queue(buckets, cycle[j]))
  }

  ghost predicate Exhausted<T>(q: seq<seq<T>>, r: nat) {
    forall j :: 0 <= j < |q| ==> |q[j]| <= r
  }

  /** The output of the loop: a point of the schedule, at which the limit has been reached or
      every queue is empty. */
  ghost predicate Drained<T>(q: seq<seq<T>>, bounded: bool, limit: int, selected: seq<T>, r: nat, i: nat) {
    && i <= |q|
    && selected == Items(q, r, i)
    && (bounded ==> |selected| <= if limit > 0 then limit else 0)
    && (Exhausted(q, r) || (bounded && |selected| >= limit))
  }

  /** Front part of queue j that is still waiting. */
  function Rest<T>(queue: seq<T>, rounds: nat): seq<T> {
    if rounds <= |queue| then queue[rounds..] else []
  }

  ghost predicate Waiting<T>(buckets: map<Key, seq<T>>, cycle: seq<Key>, q: seq<seq<T>>, r: nat, i: nat) {
    && |q| == |cycle|
    && forall j :: 0 <= j < |cycle| ==>
         cycle[j] in buckets && buckets[cycle[j]] == Rest(q[j], if j < i then r + 1 else r)
  }

  ghost function Longest<T>(q: seq<seq<T>>): (n: nat)
    ensures forall j :: 0 <= j < |q| ==> |q[j]| <= n
  {
    if q == [] then 0
    else
      var n := Longest(q[..|q| - 1]);
      assert forall j :: 0 <= j < |q| - 1 ==> q[j] == q[..|q| - 1][j];
      if |q[|q| - 1]| > n then |q[|q| - 1]| else n
  }

  /** One round: the inner loop, which stops early when the limit is reached. */
  method Round<T>(start: map<Key, seq<T>>, cycle: seq<Key>, bounded: bool, limit: int, taken: seq<T>,
                  ghost q: seq<seq<T>>, ghost r: nat)
    returns (buckets: map<Key, seq<T>>, selected: seq<T>, ghost i: nat)
    requires Distinct(cycle) && Waiting(start, cycle, q, r, 0)
    requires taken == Items(q, r, 0) && (bounded ==> |taken| < limit)
    ensures i <= |q| && selected == Items(q, r, i)
    ensures bounded ==> |selected| <= limit
    ensures (i == |q| && Waiting(buckets, cycle, q, r, i)) || (bounded && |selected| >= limit)
  {
    hide Items, Distinct;
    buckets, selected := start, taken;
    for g := 0 to |cycle|
      invariant Waiting(buckets, cycle, q, r, g)
      invariant selected == Items(q, r, g)
      invariant bounded ==> |selected| <= limit
    {
      if bounded && |selected| >= limit {
        return buckets, selected, g;
      }
      var group := cycle[g];
      WaitingStep(buckets, cycle, q, r, g);
      ItemsStep(q, r, g);
      if |buckets[group]| > 0 {
        selected := selected + [buckets[group][0]];
        buckets := buckets[group := buckets[group][1..]];
      }
    }
    i := |cycle|;
  }

  /** Serving queue g, if it has anything, moves the schedule one step on. */
  lemma WaitingStep<T>(buckets: map<Key, seq<T>>, cycle: seq<Key>, q: seq<seq<T>>, r: nat, g: nat)
    requires Distinct(cycle) && Waiting(buckets, cycle, q, r, g) && g < |cycle|
    ensures cycle[g] in buckets && buckets[cycle[g]] == Rest(q[g], r)
    ensures |buckets[cycle[g]]| > 0 <==> r < |q[g]|
    ensures |buckets[cycle[g]]| > 0 ==>
              buckets[cycle[g]][0] == q[g][r] &&
              Waiting(buckets[cycle[g] := buckets[cycle[g]][1..]], cycle, q, r, g + 1)
    ensures |buckets[cycle[g]]| == 0 ==> Waiting(buckets, cycle, q, r, g + 1)
  {
    assert buckets[cycle[g]] == Rest(q[g], r);
    forall j | 0 <= j < |cycle| && j != g ensures cycle[j] != cycle[g] {
      if j < g { assert cycle[j] != cycle[g]; } else { assert cycle[g] != cycle[j]; }
    }
  }

  lemma ItemsStep<T>(q: seq<seq<T>>, r: nat, g: nat)
    requires g < |q|
    ensures Items(q, r, g + 1) == if r < |q[g]| then Items(q, r, g) + [q[g][r]] else Items(q, r, g)
  {
    assert Items(q, r, g) + [] == Items(q, r, g);
  }

  predicate AnyLeft<T>(buckets: map<Key, seq<T>>, cycle: seq<Key>) {
    exists j :: 0 <= j < |cycle| && |Queue(buckets, cycle[j])| > 0
  }

  /** Between rounds. */
  lemma RoundEnds<T>(buckets: map<Key, seq<T>>, cycle: seq<Key>, q: seq<seq<T>>, r: nat)
    ensures Items(q, 0, 0) == [] && Items(q, r + 1, 0) == Items(q, r, |q|)
    ensures Waiting(buckets, cycle, q, r, |q|) ==> Waiting(buckets, cycle, q, r + 1, 0)
    ensures Waiting(buckets, cycle, q, r, 0) ==> if AnyLeft(buckets, cycle) then r < Longest(q) else Exhausted(q, r)
  {
    if Waiting(buckets, cycle, q, r, 0) {
      forall j | 0 <= j < |cycle| ensures |Queue(buckets, cycle[j])| > 0 <==> |q[j]| > r {
        assert buckets[cycle[j]] == Rest(q[j], r);
      }
    }
  }

  lemma StartsWaiting<T>(start: map<Key, seq<T>>, cycle: seq<Key>)
    requires forall j :: 0 <= j < |cycle| ==> cycle[j] in start
    ensures Waiting(start, cycle, Queues(start, cycle), 0, 0)
  {
  }

  /** With `bounded`, stops as soon as `limit` items are selected. */
  method Drain<T>(start: map<Key, seq<T>>, cycle: seq<Key>, bounded: bool, limit: int)
    returns (selected: seq<T>, ghost r: nat, ghost i: nat)
    requires Distinct(cycle) && forall j :: 0 <= j < |cycle| ==> cycle[j] in start
    ensures Drained(Queues(start, cycle), bounded, limit, selected, r, i)
    ensures bounded ==> |selected| <= if limit > 0 then limit else 0
  {
    hide Longest, Items, Waiting, Exhausted, Queues, AnyLeft;
    var buckets := start;
    ghost var q := Queues(start, cycle);
    StartsWaiting(start, cycle);
    selected, r, i := [], 0, 0;
    RoundEnds(buckets, cycle, q, r);
    while (!bounded || |selected| < limit) && AnyLeft(buckets, cycle)
      invariant Waiting(buckets, cycle, q, r, 0)
      invariant i == 0 && selected == Items(q, r, 0)
      invariant bounded ==> |selected| <= if limit > 0 then limit else 0
      decreases Longest(q) - r
    {
      RoundEnds(buckets, cycle, q, r);
      ghost var stop: nat;
      buckets, selected, stop := Round(buckets, cycle, bounded, limit, selected, q, r);
      if bounded && |selected| >= limit {
        i := stop;
        return;
      }
      RoundEnds(buckets, cycle, q, r);
      r := r + 1;
    }
    RoundEnds(buckets, cycle, q, r);
  }

  // ---------- Properties of the schedule ----------

  /** The items of one key, in order. */
  function OfKey<T>(items: seq<T>, key: T -> Key, k: Key): seq<T> {
    if items == [] then []
    else OfKey(items[..|items| - 1], key, k) + if key(items[|items| - 1]) == k then [items[|items| - 1]] else []
  }

  ghost predicate Keyed<T>(q: seq<seq<T>>, cycle: seq<Key>, key: T -> Key) {
    |q| == |cycle| && forall j, n :: 0 <= j < |q| && 0 <= n < |q[j]| ==> key(q[j][n]) == cycle[j]
  }

  lemma OfKeyAppend<T>(items: seq<T>, x: T, key: T -> Key, k: Key)
    ensures OfKey(items + [x], key, k) == OfKey(items, key, k) + if key(x) == k then [x] else []
  {
    assert (items + [x])[..|items|] == items;
  }

  lemma TakenStep<T>(q: seq<seq<T>>, r: nat, i: nat, j: nat)
    requires i < |q| && j < |q|
    ensures q[j][..Taken(q, r, i + 1, j)] ==
            if j == i && r < |q[i]| then q[j][..Taken(q, r, i, j)] + [q[i][r]] else q[j][..Taken(q, r, i, j)]
  {
    if j == i && r < |q[i]| {
      assert q[i][..r + 1] == q[i][..r] + [q[i][r]];
    }
  }

  lemma GivesStep<T>(q: seq<seq<T>>, cycle: seq<Key>, key: T -> Key, r: nat, i: nat, j: nat)
    requires Distinct(cycle) && Keyed(q, cycle, key) && i < |q| && j < |q|
    requires OfKey(Items(q, r, i), key, cycle[j]) == q[j][..Taken(q, r, i, j)]
    ensures OfKey(Items(q, r, i + 1), key, cycle[j]) == q[j][..Taken(q, r, i + 1, j)]
  {
    assert i != j ==> cycle[i] != cycle[j];
    assert r < |q[i]| ==> key(q[i][r]) == cycle[i];
    hide Items, OfKey, Taken, Distinct, Keyed;
    ItemsStep(q, r, i);
    TakenStep(q, r, i, j);
    if r < |q[i]| {
      OfKeyAppend(Items(q, r, i), q[i][r], key, cycle[j]);
      assert OfKey(Items(q, r, i), key, cycle[j]) + [] == OfKey(Items(q, r, i), key, cycle[j]);
    }
  }

  /** Each queue has given a prefix of itself, in its own order. */
  lemma {:induction false} GivesPrefix<T>(q: seq<seq<T>>, cycle: seq<Key>, key: T -> Key, r: nat, i: nat, j: nat)
    requires Distinct(cycle) && Keyed(q, cycle, key) && i <= |q| && j < |q|
    ensures OfKey(Items(q, r, i), key, cycle[j]) == q[j][..Taken(q, r, i, j)]
    decreases r, i
  {
    if i > 0 {
      hide *;
      GivesPrefix(q, cycle, key, r, i - 1, j);
      GivesStep(q, cycle, key, r, i - 1, j);
    } else if r > 0 {
      GivesPrefix(q, cycle, key, r - 1, |q|, j);
    } else {
    }
  }

  /** Every prefix of the output is itself the output at an earlier point of the schedule. */
  lemma {:induction false} PrefixIsAPoint<T>(q: seq<seq<T>>, r: nat, i: nat, n: nat) returns (r': nat, i': nat)
    requires i <= |q| && n <= |Items(q, r, i)|
    ensures i' <= |q| && Items(q, r', i') == Items(q, r, i)[..n]
    decreases r, i
  {
    if n == |Items(q, r, i)| {
      r', i' := r, i;
    } else if i > 0 {
      r', i' := PrefixIsAPoint(q, r, i - 1, n);
    } else if r > 0 {
      r', i' := PrefixIsAPoint(q, r - 1, |q|, n);
    }
  }

  /** Fairness: a queue is never more than one item ahead of another, unless the other has
      given everything it had. */
  lemma Fair<T>(q: seq<seq<T>>, r: nat, i: nat, a: nat, b: nat)
    requires i <= |q| && a < |q| && b < |q|
    ensures Taken(q, r, i, a) <= Taken(q, r, i, b) + 1 || Taken(q, r, i, b) == |q[b]|
  {
  }

  /** All items of the queues, as a multiset. */
  ghost function Pool<T>(q: seq<seq<T>>): multiset<T> {
    if q == [] then multiset{} else Pool(q[..|q| - 1]) + multiset(q[|q| - 1])
  }

  /** The queues cut down to what they have given. */
  ghost function Given<T>(q: seq<seq<T>>, r: nat, i: nat): seq<seq<T>>
    requires i <= |q|
  {
    seq(|q|, j requires 0 <= j < |q| => q[j][..Taken(q, r, i, j)])
  }

  lemma {:induction false} PoolUpdate<T>(q: seq<seq<T>>, k: nat, x: T)
    requires k < |q|
    ensures Pool(q[k := q[k] + [x]]) == Pool(q) + multiset{x}
  {
    var n := |q| - 1;
    var q' := q[k := q[k] + [x]];
    if k < n {
      PoolUpdate(q[..n], k, x);
      assert q'[..n] == q[..n][k := q[..n][k] + [x]];
    } else {
      assert q'[..n] == q[..n];
      assert multiset(q[n] + [x]) == multiset(q[n]) + multiset{x};
    }
  }

  lemma {:induction false} PoolOfEmpty<T>(q: seq<seq<T>>)
    requires forall j :: 0 <= j < |q| ==> q[j] == []
    ensures Pool(q) == multiset{}
  {
    if q == [] {
    } else {
      PoolOfEmpty(q[..|q| - 1]);
    }
  }

  lemma GivenStep<T>(q: seq<seq<T>>, r: nat, i: nat)
    requires i < |q|
    ensures |Given(q, r, i)| == |q|
    ensures Given(q, r, i + 1) ==
            if r < |q[i]| then Given(q, r, i)[i := Given(q, r, i)[i] + [q[i][r]]] else Given(q, r, i)
  {
    var before, after := Given(q, r, i), Given(q, r, i + 1);
    if r < |q[i]| {
      assert q[i][..r + 1] == q[i][..r] + [q[i][r]];
      assert after == before[i := before[i] + [q[i][r]]];
    } else {
      assert after == before;
    }
  }

  lemma GivenRound<T>(q: seq<seq<T>>, r: nat)
    ensures Given(q, r + 1, 0) == Given(q, r, |q|)
    ensures Items(q, r + 1, 0) == Items(q, r, |q|)
    ensures Pool(Given(q, 0, 0)) == multiset{} && Items(q, 0, 0) == []
  {
    PoolOfEmpty(Given(q, 0, 0));
  }

  /** Nothing is lost or invented: the items taken are what the queues have given. */
  lemma {:induction false} ItemsAreGiven<T>(q: seq<seq<T>>, r: nat, i: nat)
    requires i <= |q|
    ensures multiset(Items(q, r, i)) == Pool(Given(q, r, i))
    decreases r, i
  {
    hide Given, Pool, Items;
    if i == 0 {
      if r == 0 {
        GivenRound(q, 0);
      } else {
        ItemsAreGiven(q, r - 1, |q|);
        GivenRound(q, r - 1);
      }
    } else {
      ItemsAreGiven(q, r, i - 1);
      GivenStep(q, r, i - 1);
      ItemsStep(q, r, i - 1);
      if r < |q[i - 1]| {
        PoolUpdate(Given(q, r, i - 1), i - 1, q[i - 1][r]);
      }
    }
  }

  lemma {:induction false} PoolMonotone<T>(a: seq<seq<T>>, b: seq<seq<T>>)
    requires |a| == |b| && forall j :: 0 <= j < |a| ==> a[j] <= b[j]
    ensures Pool(a) <= Pool(b)
  {
    if a == [] {
    } else {
      var n := |a| - 1;
      PoolMonotone(a[..n], b[..n]);
      assert b[n] == a[n] + b[n][|a[n]|..];
      assert multiset(b[n]) == multiset(a[n]) + multiset(b[n][|a[n]|..]);
    }
  }

  /** The selection is part of the pool; when the queues are exhausted it is all of it, and
      otherwise it has exactly the limit's length. */
  lemma DrainedFromPool<T>(q: seq<seq<T>>, bounded: bool, limit: int, selected: seq<T>, r: nat, i: nat)
    requires Drained(q, bounded, limit, selected, r, i)
    ensures multiset(selected) <= Pool(q)
    ensures !bounded ==> multiset(selected) == Pool(q)
    ensures bounded && limit >= 0 ==> |selected| == if limit <= |Pool(q)| then limit else |Pool(q)|
    ensures bounded && limit < 0 ==> selected == []
  {
    ItemsAreGiven(q, r, i);
    PoolMonotone(Given(q, r, i), q);
    if Exhausted(q, r) {
      forall j | 0 <= j < |q| ensures Given(q, r, i)[j] == q[j] {
        assert Taken(q, r, i, j) == |q[j]|;
      }
      assert Given(q, r, i) == q;
      assert |multiset(selected)| == |Pool(q)|;
    }
    assert |multiset(selected)| == |selected|;
    SubmultisetSize(multiset(selected), Pool(q));
  }

  lemma SubmultisetSize<T>(a: multiset<T>, b: multiset<T>)
    requires a <= b
    ensures |a| <= |b|
  {
    assert b == a + (b - a);
  }
}
