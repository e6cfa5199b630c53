/**
 The cap and the balancing of a training export.  An item carries its source document and its
 bucket, the (dataset, profile, difficulty) triple; both are integers, of which only equality
 and, for buckets, order are used.
 */
module Exporter {
  import opened Arithmetic
  import opened Grouping
  import opened RoundRobin
  import opened Sorting
  import opened Tally

  datatype Item = Item(id: int, source: Key, bucket: Key)

  function SourceOf(item: Item): Key {
    item.source
  }

  function BucketOf(item: Item): Key {
    item.bucket
  }

  // ---------- The cap ----------

  /** The items, in order, that have fewer than `cap` items of their source before them. */
  function WithinCap(items: seq<Item>, cap: int): seq<Item> {
    if items == [] then []
    else
      var n := |items| - 1;
      WithinCap(items[..n], cap) + if |OfKey(items[..n], SourceOf, items[n].source)| < cap then [items[n]] else []
  }

  /** `cap` below zero keeps as little as zero does. */
  function Quota(cap: int): nat {
    if cap > 0 then cap else 0
  }

  /** The cap keeps exactly the first `cap` items of each source. */
  lemma {:induction false} CapKeepsTheFirst(items: seq<Item>, cap: int, source: Key)
    ensures OfKey(WithinCap(items, cap), SourceOf, source) == Take(OfKey(items, SourceOf, source), Quota(cap))
  {
    if items == [] {
    } else {
      hide *;
      var n := |items| - 1;
      CapKeepsTheFirst(items[..n], cap, source);
      assert items == items[..n] + [items[n]];
      CapStep(items[..n], items[n], cap, source);
    }
  }

  lemma CapStep(items: seq<Item>, x: Item, cap: int, source: Key)
    requires OfKey(WithinCap(items, cap), SourceOf, source) == Take(OfKey(items, SourceOf, source), Quota(cap))
    ensures OfKey(WithinCap(items + [x], cap), SourceOf, source)
            == Take(OfKey(items + [x], SourceOf, source), Quota(cap))
  {
    hide OfKey, WithinCap, Take;
    WithinCapAppend(items, x, cap);
    OfKeyAppend(items, x, SourceOf, source);
    OfKeyAppend(WithinCap(items, cap), x, SourceOf, source);
    TakeAppend(OfKey(items, SourceOf, source), x, Quota(cap));
    if x.source != source {
      assert OfKey(items, SourceOf, source) + [] == OfKey(items, SourceOf, source);
      var before := OfKey(WithinCap(items, cap), SourceOf, source);
      assert before + [] == before;
    }
  }

  lemma TakeAppend<T>(s: seq<T>, x: T, k: nat)
    ensures Take(s + [x], k) == if |s| < k then Take(s, k) + [x] else Take(s, k)
  {
  }

  lemma WithinCapAppend(items: seq<Item>, x: Item, cap: int)
    ensures WithinCap(items + [x], cap)
            == if |OfKey(items, SourceOf, x.source)| < cap then WithinCap(items, cap) + [x] else WithinCap(items, cap)
  {
    var all := items + [x];
    assert all[..|all| - 1] == items;
    assert WithinCap(items, cap) + [] == WithinCap(items, cap);
  }

  /** The kept items stand in their original order: where each one came from. */
  lemma {:induction false} CapKeepsOrder(items: seq<Item>, cap: int) returns (from: seq<nat>)
    ensures |from| == |WithinCap(items, cap)|
    ensures forall k :: 0 <= k < |from| ==> from[k] < |items| && items[from[k]] == WithinCap(items, cap)[k]
    ensures forall j, k :: 0 <= j < k < |from| ==> from[j] < from[k]
  {
    from := [];
    if items == [] {
    } else {
      hide WithinCap, OfKey;
      var n := |items| - 1;
      from := CapKeepsOrder(items[..n], cap);
      assert items == items[..n] + [items[n]];
      WithinCapAppend(items[..n], items[n], cap);
      if |OfKey(items[..n], SourceOf, items[n].source)| < cap {
        from := from + [n];
      }
    }
  }

  /** The counters hold how many of each source were kept so far. */
  ghost predicate Counted(counts: map<Key, nat>, items: seq<Item>, cap: int) {
    forall s :: Get(counts, s) == Min(|OfKey(items, SourceOf, s)|, Quota(cap))
  }

  lemma CountOne(counts: map<Key, nat>, items: seq<Item>, x: Item, cap: int)
    requires Counted(counts, items, cap)
    ensures Get(counts, x.source) >= cap <==> |OfKey(items, SourceOf, x.source)| >= cap
    ensures Get(counts, x.source) >= cap ==> Counted(counts, items + [x], cap)
    ensures Get(counts, x.source) < cap ==>
              Counted(counts[x.source := Get(counts, x.source) + 1], items + [x], cap)
  {
    hide OfKey;
    assert Get(counts, x.source) == Min(|OfKey(items, SourceOf, x.source)|, Quota(cap));
    forall s
      ensures Get(counts, s) == Min(|OfKey(items, SourceOf, s)|, Quota(cap))
      ensures |OfKey(items + [x], SourceOf, s)| == |OfKey(items, SourceOf, s)| + if s == x.source then 1 else 0
    {
      OfKeyAppend(items, x, SourceOf, s);
    }
  }

  method CapSources(ranked: seq<Item>, maxContributionPerSource: int) returns (capped: seq<Item>)
    ensures capped == WithinCap(ranked, maxContributionPerSource)
  {
    hide OfKey, WithinCap, Counted;
    var sourceCounts: map<Key, nat> := map[];
    capped := [];
    CountNone(maxContributionPerSource);
    for n := 0 to |ranked|
      invariant capped == WithinCap(ranked[..n], maxContributionPerSource)
      invariant Counted(sourceCounts, ranked[..n], maxContributionPerSource)
    {
      var item := ranked[n];
      assert ranked[..n + 1] == ranked[..n] + [item];
      CountOne(sourceCounts, ranked[..n], item, maxContributionPerSource);
      WithinCapAppend(ranked[..n], item, maxContributionPerSource);
      if Get(sourceCounts, item.source) >= maxContributionPerSource {
        continue;
      }
      sourceCounts := sourceCounts[item.source := Get(sourceCounts, item.source) + 1];
      capped := capped + [item];
    }
    assert ranked[..|ranked|] == ranked;
  }

  lemma CountNone(cap: int)
    ensures WithinCap([], cap) == [] && Counted(map[], [], cap)
  {
  }

  // ---------- The balancing ----------

  /** The balanced order: the same items, each bucket in its own order, round by round with the buckets
      ascending; and at every point of the output no bucket more than one ahead of another that still
      has items to give. */
  ghost predicate BalancedOrder(balanced: seq<Item>, capped: seq<Item>) {
    && multiset(balanced) == multiset(capped)
    && (forall b :: OfKey(balanced, BucketOf, b) == OfKey(capped, BucketOf, b))
    && (forall n :: 0 <= n <= |balanced| ==> Balanced(balanced[..n], capped, BucketOf))
    && InRounds(balanced, BucketOf)
  }

  method BalanceBuckets(capped: seq<Item>) returns (balanced: seq<Item>)
    ensures BalancedOrder(balanced, capped)
  {
    hide Grouped, OfKey, QueuesOf, Queues, Sort, Drained, Balanced, BalancedOrder, Increasing;
    var buckets, order := GroupBy(capped, BucketOf);
    var cycle := Sort(order, AtMost);
    GroupedQueues(capped, BucketOf, buckets, order, cycle);
    KeysAreDistinct(capped, BucketOf, buckets, order);
    CycleIncreases(order, cycle);
    ghost var r, i;
    balanced, r, i := Drain(buckets, cycle, false, 0);
    DrainBalances(capped, cycle, balanced, r, i);
  }

  lemma DrainBalances(capped: seq<Item>, cycle: seq<Key>, balanced: seq<Item>, r: nat, i: nat)
    requires Distinct(cycle) && Increasing(cycle) && forall x :: x in capped ==> x.bucket in cycle
    requires Drained(QueuesOf(capped, BucketOf, cycle), false, 0, balanced, r, i)
    ensures BalancedOrder(balanced, capped)
  {
    hide OfKey, QueuesOf, Items, Balanced, Distinct, Increasing, Pool, InRounds;
    var q := QueuesOf(capped, BucketOf, cycle);
    QueuesKeyed(capped, BucketOf, cycle);
    ItemsInRounds(q, cycle, BucketOf, r, i);
    QueuesPartition(capped, BucketOf, cycle);
    DrainedFromPool(q, false, 0, balanced, r, i);
    SameMembers(balanced, capped);
    forall n | 0 <= n <= |balanced| ensures Balanced(balanced[..n], capped, BucketOf) {
      var r', i' := PrefixIsAPoint(q, r, i, n);
      assert forall x :: x in balanced[..n] ==> x in balanced;
      ScheduleIsBalanced(capped, BucketOf, cycle, balanced[..n], r', i');
    }
    forall b ensures OfKey(balanced, BucketOf, b) == OfKey(capped, BucketOf, b) {
      var j := GroupGives(capped, BucketOf, cycle, balanced, r, i, b);
      if j < |cycle| {
        GivesAll(q, r, i, j);
      }
    }
  }

  lemma GivesAll<T>(q: seq<seq<T>>, r: nat, i: nat, j: nat)
    requires Exhausted(q, r) && j < |q|
    ensures q[j][..Taken(q, r, i, j)] == q[j]
  {
  }

  lemma SameMembers<T>(a: seq<T>, b: seq<T>)
    requires multiset(a) == multiset(b)
    ensures forall x :: x in a <==> x in b
  {
    forall x ensures x in a <==> x in b {
      assert x in a <==> x in multiset(a);
      assert x in b <==> x in multiset(b);
    }
  }

  /** The two loops together. */
  method SelectForExport(ranked: seq<Item>, maxContributionPerSource: int, balance: bool) returns (deduped: seq<Item>)
    ensures balance ==> BalancedOrder(deduped, WithinCap(ranked, maxContributionPerSource))
    ensures !balance ==> deduped == WithinCap(ranked, maxContributionPerSource)
  {
    var capped := CapSources(ranked, maxContributionPerSource);
    if balance {
      deduped := BalanceBuckets(capped);
    } else {
      deduped := capped;
    }
  }

  /** The places of one source's items. */
  ghost function OfSource(items: seq<Item>, source: Key): set<int> {
    set k | 0 <= k < |items| && items[k].source == source
  }

  /** Whatever the order, no source contributes more than the cap, and every source that has that
      many contributes exactly that many. */
  lemma ExportRespectsTheCap(ranked: seq<Item>, cap: int, deduped: seq<Item>, source: Key)
    requires multiset(deduped) == multiset(WithinCap(ranked, cap))
    ensures |OfSource(deduped, source)| == Min(|OfSource(ranked, source)|, if cap >= 0 then cap else 0)
  {
    CapKeepsTheFirst(ranked, cap, source);
    OfKeyCount(deduped, WithinCap(ranked, cap), source);
    OfKeyPlaces(deduped, SourceOf, source);
    OfKeyPlaces(ranked, SourceOf, source);
    assert OfSource(deduped, source) == Places(deduped, SourceOf, source);
    assert OfSource(ranked, source) == Places(ranked, SourceOf, source);
    hide OfKey, WithinCap;
  }

  /** The places of one bucket's items. */
  ghost function OfBucket(items: seq<Item>, bucket: Key): set<int> {
    set k | 0 <= k < |items| && items[k].bucket == bucket
  }

  lemma BucketsCounted(items: seq<Item>, bucket: Key)
    ensures |OfBucket(items, bucket)| == |OfKey(items, BucketOf, bucket)|
  {
    OfKeyPlaces(items, BucketOf, bucket);
    assert OfBucket(items, bucket) == Places(items, BucketOf, bucket);
  }

  lemma ComesBefore(balanced: seq<Item>, capped: seq<Item>, i: nat, j: nat)
    requires BalancedOrder(balanced, capped) && i < j < |balanced|
    ensures Before(balanced, BucketOf, i, j)
  {
    hide OfKey, Balanced, Before;
  }

  lemma SameBuckets(balanced: seq<Item>, capped: seq<Item>, bucket: Key)
    requires BalancedOrder(balanced, capped)
    ensures OfKey(balanced, BucketOf, bucket) == OfKey(capped, BucketOf, bucket)
  {
    hide OfKey, Balanced, InRounds;
  }

  /** The balanced order said of the buckets: item i, the n-th of its bucket, comes before item j, the
      m-th of its own, only if n is less than m, or equal and the bucket of i less than that of j. */
  lemma BucketsTakeTurns(balanced: seq<Item>, capped: seq<Item>, i: nat, j: nat)
    requires BalancedOrder(balanced, capped) && i < j < |balanced|
    ensures var n := |OfBucket(balanced[..i], balanced[i].bucket)|;
            var m := |OfBucket(balanced[..j], balanced[j].bucket)|;
            n < m || (n == m && balanced[i].bucket < balanced[j].bucket)
  {
    ComesBefore(balanced, capped, i, j);
    hide OfKey, BalancedOrder, OfBucket;
    BucketsCounted(balanced[..i], balanced[i].bucket);
    BucketsCounted(balanced[..j], balanced[j].bucket);
  }

  /** Each bucket's items stand in their original order: its n-th item in the balanced list is its n-th
      item in the capped one. */
  lemma BucketsKeepOrder(balanced: seq<Item>, capped: seq<Item>, i: nat, k: nat)
    requires BalancedOrder(balanced, capped) && i < |balanced| && k < |capped|
    requires balanced[i].bucket == capped[k].bucket
    requires |OfBucket(balanced[..i], balanced[i].bucket)| == |OfBucket(capped[..k], capped[k].bucket)|
    ensures balanced[i] == capped[k]
  {
    SameBuckets(balanced, capped, balanced[i].bucket);
    hide OfKey, BalancedOrder, OfBucket;
    BucketsCounted(balanced[..i], balanced[i].bucket);
    BucketsCounted(capped[..k], capped[k].bucket);
    OfKeyAt(balanced, BucketOf, i);
    OfKeyAt(capped, BucketOf, k);
  }

  lemma {:induction false} OfKeyCount(a: seq<Item>, b: seq<Item>, source: Key)
    requires multiset(a) == multiset(b)
    ensures |OfKey(a, SourceOf, source)| == |OfKey(b, SourceOf, source)|
  {
    if a == [] {
      assert |multiset(b)| == 0;
    } else {
      var n := |a| - 1;
      var x := a[n];
      assert a == a[..n] + [x];
      assert x in multiset(b);
      var k :| 0 <= k < |b| && b[k] == x;
      assert b == b[..k] + [x] + b[k + 1..];
      assert multiset(a[..n]) == multiset(a) - multiset{x};
      assert multiset(b[..k] + b[k + 1..]) == multiset(b) - multiset{x};
      OfKeyCount(a[..n], b[..k] + b[k + 1..], source);
      OfKeyRemove(b[..k], x, b[k + 1..], source);
    }
  }

  lemma {:induction false} OfKeyRemove(before: seq<Item>, x: Item, after: seq<Item>, source: Key)
    ensures |OfKey(before + [x] + after, SourceOf, source)|
            == |OfKey(before + after, SourceOf, source)| + if x.source == source then 1 else 0
  {
    if after == [] {
      assert before + [x] + after == before + [x] && before + after == before;
      OfKeyAppend(before, x, SourceOf, source);
    } else {
      var n := |after| - 1;
      var y := after[n];
      OfKeyRemove(before, x, after[..n], source);
      assert before + [x] + after == (before + [x] + after[..n]) + [y];
      assert before + after == (before + after[..n]) + [y];
      OfKeyAppend(before + [x] + after[..n], y, SourceOf, source);
      OfKeyAppend(before + after[..n], y, SourceOf, source);
    }
  }
}
