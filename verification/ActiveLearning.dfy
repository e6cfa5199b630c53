/**
 Recommending the next training batch.  Identifiers and group names are integers, of which only
 equality and order are used; the hardness score, the seeded hash and the error category of a
 sample are given with it.
 */
module ActiveLearning {
  import opened Grouping
  import opened Options
  import opened RoundRobin
  import opened Sorting

  type Id = int

  datatype Sample = Sample(id: Id, score: real, hash: int, group: Key, category: Key)

  datatype Strategy = HardestOnly | BalancedHard | DiversityFirst | MixedCurriculum | DeterministicRandom

  function Ids(samples: seq<Sample>): seq<Id> {
    seq(|samples|, k requires 0 <= k < |samples| => samples[k].id)
  }

  // ---------- Orders ----------

  predicate Harder(a: Sample, b: Sample) {
    a.score > b.score || (a.score == b.score && a.id <= b.id)
  }

  predicate Easier(a: Sample, b: Sample) {
    a.score < b.score || (a.score == b.score && a.id <= b.id)
  }

  predicate HashedBefore(a: Sample, b: Sample) {
    a.hash < b.hash || (a.hash == b.hash && a.id <= b.id)
  }

  /** `rank_hard_examples`: hardest first, ties by id. */
  function Ranked(candidates: seq<Sample>): seq<Sample> {
    Sort(candidates, Harder)
  }

  // ---------- Pools of distinct ids ----------

  function Excluding(samples: seq<Sample>, history: set<Id>): seq<Sample> {
    if samples == [] then []
    else
      Excluding(samples[..|samples| - 1], history) +
      if samples[|samples| - 1].id in history then [] else [samples[|samples| - 1]]
  }

  ghost predicate DistinctIds(samples: seq<Sample>) {
    forall i, j :: 0 <= i < j < |samples| ==> samples[i].id != samples[j].id
  }

  /** A selection of samples that takes distinct ids from the pool, as many as asked for. */
  ghost predicate GoodBatch(selected: seq<Sample>, pool: seq<Sample>, size: nat) {
    && DistinctIds(selected)
    && (forall s :: s in selected ==> s in pool)
    && |selected| == size
  }

  /** The length of `s[:k]` for a list of length n; a negative k counts from the end. */
  function SliceSize(n: nat, k: int): nat {
    if k >= n then n else if k >= 0 then k else if n + k >= 0 then n + k else 0
  }

  /** A third of the batch, or one. */
  function Third(batchSize: int): nat {
    if batchSize / 3 > 1 then batchSize / 3 else 1
  }

  /** How many of n candidates a strategy selects: min(batchSize, n), but for a negative batch size
      the strategies that slice drop from the end, and the others select nothing. */
  function BatchSize(strategy: Strategy, n: nat, batchSize: int): nat {
    if batchSize >= 0 then SliceSize(n, batchSize)
    else
      match strategy
      case HardestOnly => SliceSize(n, batchSize)
      case DeterministicRandom => SliceSize(n, batchSize)
      case BalancedHard => 0
      case DiversityFirst => 0
      case MixedCurriculum => CurriculumSize(n, batchSize)
  }

  /** The two hardest parts, the slice of the easy rest, and the slice of both together. */
  function CurriculumSize(n: nat, batchSize: int): nat {
    var head := SliceSize(n, 2 * Third(batchSize));
    SliceSize(head + SliceSize(n - head, batchSize), batchSize)
  }

  lemma {:induction false} ExcludingMembers(samples: seq<Sample>, history: set<Id>)
    requires DistinctIds(samples)
    ensures DistinctIds(Excluding(samples, history))
    ensures forall s :: s in Excluding(samples, history) <==> s in samples && s.id !in history
  {
    if samples == [] {
    } else {
      var n := |samples| - 1;
      ExcludingMembers(samples[..n], history);
      assert samples == samples[..n] + [samples[n]];
      var rest := Excluding(samples[..n], history);
      forall k | 0 <= k < |rest| ensures rest[k].id != samples[n].id {
        assert rest[k] in samples[..n];
      }
    }
  }

  lemma DistinctIdsMeans(samples: seq<Sample>)
    ensures DistinctIds(samples) ==> Distinct(samples)
    ensures DistinctIds(samples) <==>
            Distinct(samples) && forall a, b :: a in samples && b in samples && a.id == b.id ==> a == b
  {
  }

  /** Any rearrangement of part of a pool with distinct ids has distinct ids. */
  lemma SubmultisetDistinct(selected: seq<Sample>, pool: seq<Sample>)
    requires DistinctIds(pool) && multiset(selected) <= multiset(pool)
    ensures DistinctIds(selected) && forall s :: s in selected ==> s in pool
  {
    DistinctIdsMeans(pool);
    DistinctIdsMeans(selected);
    DistinctIsSimple(pool);
    DistinctIsSimple(selected);
    forall s | s in selected ensures s in pool {
      assert s in multiset(selected);
    }
    forall s | s in multiset(selected) ensures multiset(selected)[s] == 1 {
      assert multiset(selected)[s] <= multiset(pool)[s];
    }
  }

  lemma TakeIsPart<T>(s: seq<T>, k: int)
    ensures multiset(Take(s, k)) <= multiset(s)
    ensures |Take(s, k)| == SliceSize(|s|, k)
    ensures Take(s, k) <= s
  {
    var n := |Take(s, k)|;
    assert s == s[..n] + s[n..];
    assert multiset(s) == multiset(s[..n]) + multiset(s[n..]);
  }

  lemma PrefixBatch(pool: seq<Sample>, order: seq<Sample>, batchSize: int)
    requires DistinctIds(pool) && multiset(order) == multiset(pool)
    ensures GoodBatch(Take(order, batchSize), pool, SliceSize(|pool|, batchSize))
  {
    TakeIsPart(order, batchSize);
    SubmultisetDistinct(Take(order, batchSize), pool);
    assert |multiset(order)| == |multiset(pool)|;
  }

  // ---------- hardest_only and deterministic_random ----------

  /** The first samples of the pool in an order: in that order, and none left out comes before. */
  ghost predicate FirstBy(selected: seq<Sample>, pool: seq<Sample>, le: (Sample, Sample) -> bool) {
    && SortedBy(selected, le)
    && forall s, t :: s in selected && t in pool && t !in selected ==> le(s, t)
  }

  method SelectHardest(candidates: seq<Sample>, batchSize: int) returns (selected: seq<Sample>)
    requires DistinctIds(candidates)
    ensures GoodBatch(selected, candidates, BatchSize(HardestOnly, |candidates|, batchSize))
    ensures FirstBy(selected, candidates, Harder)
  {
    var ranked := Ranked(candidates);
    selected := Take(ranked, batchSize);
    SortSorts(candidates, Harder);
    SortPermutes(candidates, Harder);
    PrefixBatch(candidates, ranked, batchSize);
    PrefixComesFirst(ranked, candidates, batchSize, Harder);
  }

  lemma PrefixComesFirst(order: seq<Sample>, pool: seq<Sample>, k: int, le: (Sample, Sample) -> bool)
    requires SortedBy(order, le) && multiset(order) == multiset(pool)
    ensures FirstBy(Take(order, k), pool, le)
  {
    TakeIsPart(order, k);
    var prefix := Take(order, k);
    assert forall n :: 0 <= n < |prefix| ==> order[n] == prefix[n];
    forall s, t | s in prefix && t in pool && t !in prefix ensures le(s, t) {
      assert t in multiset(pool) && t in order;
      var i :| 0 <= i < |prefix| && prefix[i] == s;
      var j :| 0 <= j < |order| && order[j] == t;
      assert j >= |prefix|;
    }
  }

  method SelectRandom(candidates: seq<Sample>, batchSize: int) returns (selected: seq<Sample>)
    requires DistinctIds(candidates)
    ensures GoodBatch(selected, candidates, BatchSize(DeterministicRandom, |candidates|, batchSize))
    ensures FirstBy(selected, candidates, HashedBefore)
  {
    var ordered := Sort(candidates, HashedBefore);
    selected := Take(ordered, batchSize);
    SortSorts(candidates, HashedBefore);
    SortPermutes(candidates, HashedBefore);
    PrefixBatch(candidates, ordered, batchSize);
    PrefixComesFirst(ordered, candidates, batchSize, HashedBefore);
  }

  // ---------- balanced_hard ----------

  function GroupOf(s: Sample): Key {
    s.group
  }

  /** From each group a hardest-first prefix, fairly. */
  method SelectBalanced(candidates: seq<Sample>, batchSize: int) returns (selected: seq<Sample>)
    requires DistinctIds(candidates)
    ensures GoodBatch(selected, candidates, BatchSize(BalancedHard, |candidates|, batchSize))
    ensures Balanced(selected, Ranked(candidates), GroupOf) && InRounds(selected, GroupOf)
  {
    hide DistinctIds, GoodBatch, Balanced, Grouped, OfKey, QueuesOf, Queues, Sort, Items, Increasing, InRounds;
    var ranked := Ranked(candidates);
    var groups, order := GroupBy(ranked, GroupOf);
    var groupCycle := Sort(order, AtMost);
    GroupedQueues(ranked, GroupOf, groups, order, groupCycle);
    KeysAreDistinct(ranked, GroupOf, groups, order);
    CycleIncreases(order, groupCycle);
    ghost var r, i;
    selected, r, i := Drain(groups, groupCycle, true, batchSize);
    BalancedBatch(candidates, ranked, groupCycle, batchSize, selected, r, i);
    QueuesKeyed(ranked, GroupOf, groupCycle);
    ItemsInRounds(QueuesOf(ranked, GroupOf, groupCycle), groupCycle, GroupOf, r, i);
    ScheduleIsBalanced(ranked, GroupOf, groupCycle, selected, r, i);
  }

  lemma BalancedBatch(candidates: seq<Sample>, ranked: seq<Sample>, cycle: seq<Key>, batchSize: int,
                      selected: seq<Sample>, r: nat, i: nat)
    requires DistinctIds(candidates) && ranked == Ranked(candidates)
    requires Distinct(cycle) && forall s :: s in ranked ==> s.group in cycle
    requires Drained(QueuesOf(ranked, GroupOf, cycle), true, batchSize, selected, r, i)
    ensures GoodBatch(selected, candidates, BatchSize(BalancedHard, |candidates|, batchSize))
    ensures forall s :: s in selected ==> s in ranked
  {
    hide Sort, OfKey, Items, Distinct, DistinctIds, QueuesOf, Drained;
    var q := QueuesOf(ranked, GroupOf, cycle);
    QueuesPartition(ranked, GroupOf, cycle);
    SortPermutes(candidates, Harder);
    SortMembers(candidates, Harder);
    DrainedFromPool(q, true, batchSize, selected, r, i);
    SubmultisetDistinct(selected, candidates);
    assert |multiset(candidates)| == |candidates|;
  }

  // ---------- diversity_first ----------

  function Categories(samples: seq<Sample>): set<Key> {
    set s | s in samples :: s.category
  }

  /** The first sample of each category, in order. */
  function Leaders(ranked: seq<Sample>): seq<Sample> {
    if ranked == [] then []
    else
      var n := |ranked| - 1;
      Leaders(ranked[..n]) + if ranked[n].category in Categories(ranked[..n]) then [] else [ranked[n]]
  }

  /** The other samples, in order. */
  function Followers(ranked: seq<Sample>): seq<Sample> {
    if ranked == [] then []
    else
      var n := |ranked| - 1;
      Followers(ranked[..n]) + if ranked[n].category in Categories(ranked[..n]) then [ranked[n]] else []
  }

  lemma LeadersStep(ranked: seq<Sample>, k: nat)
    requires k < |ranked|
    ensures var item, before := ranked[k], ranked[..k];
            var known := item.category in Categories(before);
            && Leaders(ranked[..k + 1]) == (if known then Leaders(before) else Leaders(before) + [item])
            && Followers(ranked[..k + 1]) == (if known then Followers(before) + [item] else Followers(before))
  {
    assert ranked[..k + 1][..k] == ranked[..k];
    assert Leaders(ranked[..k]) + [] == Leaders(ranked[..k]);
    assert Followers(ranked[..k]) + [] == Followers(ranked[..k]);
    hide Categories;
  }

  lemma {:induction false} LeadersPrefix(ranked: seq<Sample>, k: nat)
    requires k <= |ranked|
    ensures Leaders(ranked[..k]) <= Leaders(ranked) && Followers(ranked[..k]) <= Followers(ranked)
    decreases |ranked| - k
  {
    if k == |ranked| {
      assert ranked[..k] == ranked;
    } else {
      LeadersPrefix(ranked, k + 1);
      hide Leaders, Followers;
      LeadersStep(ranked, k);
    }
  }

  lemma {:induction false} LeadersMembers(ranked: seq<Sample>, x: Sample)
    ensures x in Leaders(ranked) || x in Followers(ranked) <==> x in ranked
    ensures DistinctIds(ranked) ==> !(x in Leaders(ranked) && x in Followers(ranked))
  {
    if ranked == [] {
    } else {
      var n := |ranked| - 1;
      LeadersMembers(ranked[..n], x);
      assert ranked == ranked[..n] + [ranked[n]];
      if DistinctIds(ranked) && x == ranked[n] {
        assert x !in ranked[..n];
      }
      hide Categories;
    }
  }

  /** The hardest sample of every category that the batch covers is in the batch. */
  ghost predicate LedByHardest(selected: seq<Sample>, ranked: seq<Sample>) {
    forall c :: c in Categories(selected) ==> exists k :: IsFirstOf(ranked, c, k) && ranked[k] in selected
  }

  predicate IsFirstOf(ranked: seq<Sample>, c: Key, k: int) {
    0 <= k < |ranked| && ranked[k].category == c && forall j :: 0 <= j < k ==> ranked[j].category != c
  }

  /** After the first k ranked samples, every category seen has its one representative. */
  ghost predicate Represented(ranked: seq<Sample>, k: nat, selected: seq<Sample>, seen: set<Key>) {
    && k <= |ranked|
    && DistinctIds(selected)
    && (forall s :: s in selected ==> s in ranked[..k])
    && seen == Categories(selected) == Categories(ranked[..k])
    && |seen| == |selected|
    && LedByHardest(selected, ranked)
  }

  lemma RepresentOne(ranked: seq<Sample>, k: nat, selected: seq<Sample>, seen: set<Key>)
    requires DistinctIds(ranked) && k < |ranked| && Represented(ranked, k, selected, seen)
    ensures ranked[k].category in seen ==> Represented(ranked, k + 1, selected, seen)
    ensures ranked[k].category !in seen ==>
              Represented(ranked, k + 1, selected + [ranked[k]], seen + {ranked[k].category})
  {
    hide LedByHardest, Categories, DistinctIds;
    var item := ranked[k];
    assert ranked[..k + 1] == ranked[..k] + [item];
    CategoriesAppend(ranked[..k], item);
    if item.category in seen {
      assert seen + {item.category} == seen;
    } else {
      CategoriesAppend(selected, item);
      IsNew(ranked, k);
      LedByOneMore(selected, ranked, k);
      NewFromRanking(ranked, k, selected);
    }
  }

  lemma NewFromRanking(ranked: seq<Sample>, k: nat, selected: seq<Sample>)
    requires DistinctIds(ranked) && k < |ranked|
    requires DistinctIds(selected) && forall s :: s in selected ==> s in ranked[..k]
    ensures DistinctIds(selected + [ranked[k]])
  {
    forall j | 0 <= j < |selected| ensures selected[j].id != ranked[k].id {
      assert selected[j] in ranked[..k];
      var m :| 0 <= m < k && ranked[..k][m] == selected[j];
      assert ranked[m] == selected[j];
    }
  }

  lemma CategoriesAppend(samples: seq<Sample>, item: Sample)
    ensures Categories(samples + [item]) == Categories(samples) + {item.category}
  {
    assert forall s :: s in samples + [item] <==> s in samples || s == item;
  }

  lemma IsNew(ranked: seq<Sample>, k: nat)
    requires k < |ranked| && ranked[k].category !in Categories(ranked[..k])
    ensures IsFirstOf(ranked, ranked[k].category, k)
  {
    forall j | 0 <= j < k ensures ranked[j].category != ranked[k].category {
      assert ranked[..k][j] in ranked[..k];
    }
  }

  lemma RepresentNone(ranked: seq<Sample>)
    ensures Represented(ranked, 0, [], {}) && Leaders(ranked[..0]) == []
  {
    assert Categories([]) == {} == Categories(ranked[..0]);
  }

  /** What the representatives chosen from a part of the ranking, or from all of it, amount to. */
  lemma RepresentedMeans(ranked: seq<Sample>, k: nat, selected: seq<Sample>, seen: set<Key>)
    requires Represented(ranked, k, selected, seen)
    ensures DistinctIds(selected) && forall s :: s in selected ==> s in ranked
    ensures |seen| == |Categories(selected)| == |selected| && LedByHardest(selected, ranked)
    ensures k == |ranked| ==> Categories(selected) == Categories(ranked)
  {
    assert forall s :: s in ranked[..k] ==> s in ranked;
    if k == |ranked| {
      assert ranked[..k] == ranked;
    }
  }

  lemma SeenMeans(ranked: seq<Sample>, k: nat, selected: seq<Sample>, seen: set<Key>)
    requires Represented(ranked, k, selected, seen)
    ensures seen == Categories(ranked[..k])
  {
  }

  /** The first pass: one representative of each category, hardest first. */
  method Representatives(ranked: seq<Sample>, batchSize: int) returns (selected: seq<Sample>)
    requires DistinctIds(ranked)
    ensures DistinctIds(selected) && forall s :: s in selected ==> s in ranked
    ensures |Categories(selected)| == |selected| <= if batchSize > 0 then batchSize else 0
    ensures |selected| < batchSize ==> Categories(selected) == Categories(ranked) && selected == Leaders(ranked)
    ensures LedByHardest(selected, ranked) && selected <= Leaders(ranked)
  {
    hide Represented, DistinctIds, Categories, LedByHardest, Leaders;
    selected := [];
    var seen: set<Key> := {};
    RepresentNone(ranked);
    for k := 0 to |ranked|
      invariant Represented(ranked, k, selected, seen)
      invariant selected == Leaders(ranked[..k])
      invariant |selected| <= if batchSize > 0 then batchSize else 0
    {
      if |selected| >= batchSize {
        RepresentedMeans(ranked, k, selected, seen);
        LeadersPrefix(ranked, k);
        return;
      }
      var item := ranked[k];
      RepresentOne(ranked, k, selected, seen);
      LeadersStep(ranked, k);
      SeenMeans(ranked, k, selected, seen);
      if item.category !in seen {
        seen := seen + {item.category};
        selected := selected + [item];
      }
    }
    RepresentedMeans(ranked, |ranked|, selected, seen);
    assert ranked[..|ranked|] == ranked;
  }

  lemma LedByOneMore(selected: seq<Sample>, ranked: seq<Sample>, k: nat)
    requires LedByHardest(selected, ranked) && k < |ranked|
    requires IsFirstOf(ranked, ranked[k].category, k) || ranked[k].category in Categories(selected)
    ensures LedByHardest(selected + [ranked[k]], ranked)
  {
    forall c | c in Categories(selected + [ranked[k]])
      ensures exists m :: IsFirstOf(ranked, c, m) && ranked[m] in selected + [ranked[k]]
    {
      if c in Categories(selected) {
        var m :| IsFirstOf(ranked, c, m) && ranked[m] in selected;
      } else {
        assert c == ranked[k].category;
      }
    }
  }

  /** A new sample with a category already covered keeps a selection in shape. */
  ghost predicate Fillable(selected: seq<Sample>, ranked: seq<Sample>, start: seq<Sample>) {
    && start <= selected && DistinctIds(selected) && (forall s :: s in selected ==> s in ranked)
    && Categories(selected) == Categories(start) && LedByHardest(selected, ranked)
  }

  lemma FillKeeps(selected: seq<Sample>, ranked: seq<Sample>, start: seq<Sample>, k: nat)
    requires Fillable(selected, ranked, start) && Categories(start) == Categories(ranked)
    requires k < |ranked| && ranked[k].id !in Ids(selected)
    ensures Fillable(selected + [ranked[k]], ranked, start)
  {
    var item := ranked[k];
    NewId(selected, item);
    assert item.category in Categories(ranked);
    LedByOneMore(selected, ranked, k);
    CategoriesAppend(selected, item);
    hide LedByHardest, DistinctIds;
    assert Categories(selected) + {item.category} == Categories(selected);
  }

  lemma LeadsOrFollows(ranked: seq<Sample>, k: nat)
    requires DistinctIds(ranked) && k < |ranked|
    ensures ranked[k].category !in Categories(ranked[..k]) ==> ranked[k] in Leaders(ranked)
    ensures ranked[k].category in Categories(ranked[..k]) ==>
              ranked[k] !in Leaders(ranked) && ranked[k] !in Followers(ranked[..k])
  {
    var item := ranked[k];
    LeadersStep(ranked, k);
    LeadersPrefix(ranked, k + 1);
    LeadersMembers(ranked, item);
    LeadersMembers(ranked[..k], item);
    NotBefore(ranked, k);
    hide *;
    if item.category in Categories(ranked[..k]) {
      PrefixMember(Followers(ranked[..k + 1]), Followers(ranked), item);
    } else {
      PrefixMember(Leaders(ranked[..k + 1]), Leaders(ranked), item);
    }
  }

  lemma PrefixMember(part: seq<Sample>, all: seq<Sample>, x: Sample)
    requires part <= all && x in part
    ensures x in all
  {
  }

  /** With all leaders selected and the first followers, the next sample is new exactly if it follows. */
  lemma NextToFill(selected: seq<Sample>, ranked: seq<Sample>, k: nat)
    requires DistinctIds(ranked) && k < |ranked| && selected == Leaders(ranked) + Followers(ranked[..k])
    requires forall s :: s in selected ==> s in ranked
    ensures Leaders(ranked) + Followers(ranked[..k + 1]) ==
            if ranked[k].id in Ids(selected) then selected else selected + [ranked[k]]
  {
    hide *;
    LeadersStep(ranked, k);
    LeadsOrFollows(ranked, k);
    KnownById(selected, ranked, ranked[k]);
    ConcatOneMore(Leaders(ranked), Followers(ranked[..k]), ranked[k]);
  }

  lemma ConcatOneMore(a: seq<Sample>, b: seq<Sample>, x: Sample)
    ensures a + (b + [x]) == a + b + [x]
    ensures x in a + b <==> x in a || x in b
  {
  }

  lemma KnownById(selected: seq<Sample>, ranked: seq<Sample>, item: Sample)
    requires DistinctIds(ranked) && item in ranked && forall s :: s in selected ==> s in ranked
    ensures item.id in Ids(selected) <==> item in selected
  {
    if item.id in Ids(selected) {
      OldId(selected, ranked, item);
    } else {
      SelectedIds(selected, item);
    }
  }

  lemma NotBefore(ranked: seq<Sample>, k: nat)
    requires DistinctIds(ranked) && k < |ranked|
    ensures ranked[k] !in ranked[..k]
  {
  }

  lemma SelectedIds(selected: seq<Sample>, item: Sample)
    ensures item in selected ==> item.id in Ids(selected)
  {
    if item in selected {
      var k :| 0 <= k < |selected| && selected[k] == item;
      assert Ids(selected)[k] == item.id;
    }
  }

  lemma EnoughFilled(selected: seq<Sample>, ranked: seq<Sample>, start: seq<Sample>, k: nat)
    requires Fillable(selected, ranked, start) && DistinctIds(ranked) && k <= |ranked|
    requires selected == Leaders(ranked) + Followers(ranked[..k])
    ensures selected <= Leaders(ranked) + Followers(ranked)
    ensures |selected| <= |ranked| && (k == |ranked| ==> |selected| == |ranked|)
  {
    LeadersPrefix(ranked, k);
    if k == |ranked| {
      assert ranked[..k] == ranked;
      forall s | s in ranked ensures s in selected {
        LeadersMembers(ranked, s);
      }
    }
    hide Categories, Leaders, Followers;
    WithinPool(selected, ranked);
  }

  /** The second pass: fill by hardness. */
  method FillByHardness(ranked: seq<Sample>, start: seq<Sample>, batchSize: int) returns (selected: seq<Sample>)
    requires DistinctIds(ranked) && DistinctIds(start) && forall s :: s in start ==> s in ranked
    requires |start| <= if batchSize > 0 then batchSize else 0
    requires |start| < batchSize ==> Categories(start) == Categories(ranked)
    requires LedByHardest(start, ranked)
    requires start <= Leaders(ranked) && (|start| < batchSize ==> start == Leaders(ranked))
    ensures start <= selected <= Leaders(ranked) + Followers(ranked)
    ensures GoodBatch(selected, ranked, if batchSize >= 0 then SliceSize(|ranked|, batchSize) else 0)
    ensures Categories(selected) == Categories(start) && LedByHardest(selected, ranked)
  {
    hide LedByHardest, Categories, Leaders, Followers;
    selected := start;
    NoFollowers(ranked);
    WithinPool(start, ranked);
    for k := 0 to |ranked|
      invariant Fillable(selected, ranked, start)
      invariant |start| >= batchSize ==> k == 0 && selected == start
      invariant |start| < batchSize ==>
                  |selected| <= batchSize && selected == Leaders(ranked) + Followers(ranked[..k])
    {
      if |selected| >= batchSize {
        if |start| < batchSize {
          EnoughFilled(selected, ranked, start, k);
        }
        return;
      }
      var item := ranked[k];
      NextToFill(selected, ranked, k);
      if item.id !in Ids(selected) {
        FillKeeps(selected, ranked, start, k);
        selected := selected + [item];
      }
    }
    if |start| < batchSize {
      EnoughFilled(selected, ranked, start, |ranked|);
    }
  }

  lemma NoFollowers(ranked: seq<Sample>)
    ensures Leaders(ranked) + Followers(ranked[..0]) == Leaders(ranked)
  {
  }

  lemma NewId(selected: seq<Sample>, item: Sample)
    requires DistinctIds(selected) && item.id !in Ids(selected)
    ensures DistinctIds(selected + [item])
  {
    forall k | 0 <= k < |selected| ensures selected[k].id != item.id {
      assert Ids(selected)[k] == selected[k].id;
    }
  }

  lemma OldId(selected: seq<Sample>, ranked: seq<Sample>, item: Sample)
    requires DistinctIds(ranked) && item in ranked && item.id in Ids(selected)
    requires forall s :: s in selected ==> s in ranked
    ensures item in selected
  {
    var k :| 0 <= k < |selected| && Ids(selected)[k] == item.id;
    DistinctIdsMeans(ranked);
    assert selected[k] in ranked && selected[k].id == item.id;
  }

  lemma WithinPool(selected: seq<Sample>, pool: seq<Sample>)
    requires DistinctIds(selected) && DistinctIds(pool) && forall s :: s in selected ==> s in pool
    ensures |selected| <= |pool|
    ensures (forall s :: s in pool ==> s in selected) ==> |selected| == |pool|
  {
    DistinctIdsMeans(selected);
    DistinctIdsMeans(pool);
    DistinctWithin(selected, pool);
  }

  method SelectDiverse(candidates: seq<Sample>, batchSize: int) returns (selected: seq<Sample>)
    requires DistinctIds(candidates)
    ensures GoodBatch(selected, candidates, BatchSize(DiversityFirst, |candidates|, batchSize))
    ensures batchSize >= 0 ==>
              |Categories(selected)| == var n := |Categories(candidates)|; if batchSize <= n then batchSize else n
    ensures LedByHardest(selected, Ranked(candidates)) && SortedBy(Ranked(candidates), Harder)
    ensures selected <= Leaders(Ranked(candidates)) + Followers(Ranked(candidates))
  {
    var ranked := Ranked(candidates);
    SortSorts(candidates, Harder);
    SortMembers(candidates, Harder);
    SortPermutes(candidates, Harder);
    SubmultisetDistinct(ranked, candidates);
    var representatives := Representatives(ranked, batchSize);
    selected := FillByHardness(ranked, representatives, batchSize);
    assert Categories(ranked) == Categories(candidates);
    assert Categories(representatives) <= Categories(ranked);
    SubsetSize(Categories(representatives), Categories(ranked));
  }

  // ---------- mixed_curriculum ----------

  method SelectCurriculum(candidates: seq<Sample>, batchSize: int) returns (selected: seq<Sample>)
    requires DistinctIds(candidates)
    ensures GoodBatch(selected, candidates, BatchSize(MixedCurriculum, |candidates|, batchSize))
    ensures CurriculumShape(selected, Ranked(candidates), batchSize)
  {
    var ranked := Ranked(candidates);
    var third := Third(batchSize);
    var hardPart := Take(ranked, third);
    var diverseTail := Take(Drop(ranked, third), third);
    var easyPool := Sort(Drop(ranked, 2 * third), Easier);
    var easyPart := Take(easyPool, batchSize);
    selected := Take(hardPart + diverseTail + easyPart, batchSize);
    CurriculumIsPart(ranked, third, batchSize);
    SortPermutes(candidates, Harder);
    SubmultisetDistinct(selected, candidates);
    CurriculumIsShaped(ranked, third, batchSize);
    CurriculumSizeIsBatch(|candidates|, batchSize);
  }

  /** The batch opens with the hardest two thirds in rank order and goes on with the easiest of
      the rest, easiest first. */
  ghost predicate CurriculumShape(selected: seq<Sample>, ranked: seq<Sample>, batchSize: int) {
    var most := 2 * Third(batchSize);
    selected <= Take(ranked, most) + Sort(Drop(ranked, most), Easier)
  }

  function Curriculum(ranked: seq<Sample>, third: nat, batchSize: int): seq<Sample> {
    Take(Take(ranked, third) + Take(Drop(ranked, third), third)
         + Take(Sort(Drop(ranked, 2 * third), Easier), batchSize), batchSize)
  }

  lemma HeadParts(ranked: seq<Sample>, third: nat)
    ensures Take(ranked, third) + Take(Drop(ranked, third), third) == Take(ranked, 2 * third)
    ensures Take(ranked, 2 * third) + Drop(ranked, 2 * third) == ranked
  {
  }

  lemma CurriculumIsPart(ranked: seq<Sample>, third: nat, batchSize: int)
    ensures multiset(Curriculum(ranked, third, batchSize)) <= multiset(ranked)
  {
    HeadParts(ranked, third);
    var head, rest := Take(ranked, 2 * third), Drop(ranked, 2 * third);
    SortPermutes(rest, Easier);
    TakeIsPart(Sort(rest, Easier), batchSize);
    var all := head + Take(Sort(rest, Easier), batchSize);
    TakeIsPart(all, batchSize);
    assert multiset(ranked) == multiset(head) + multiset(rest);
  }

  lemma CurriculumIsShaped(ranked: seq<Sample>, third: nat, batchSize: int)
    requires third == Third(batchSize)
    ensures CurriculumShape(Curriculum(ranked, third, batchSize), ranked, batchSize)
    ensures |Curriculum(ranked, third, batchSize)| == CurriculumSize(|ranked|, batchSize)
  {
    hide Sort, Easier, Third, SliceSize;
    HeadParts(ranked, third);
    var head, rest := Take(ranked, 2 * third), Drop(ranked, 2 * third);
    SortPermutes(rest, Easier);
    var easyPool := Sort(rest, Easier);
    TakeIsPart(ranked, 2 * third);
    TakeIsPart(easyPool, batchSize);
    TakeIsPart(head + Take(easyPool, batchSize), batchSize);
    hide Take, Drop;
    assert |rest| == |ranked| - |head|;
    assert head + Take(easyPool, batchSize) <= head + easyPool;
  }

  lemma CurriculumSizeIsBatch(n: nat, batchSize: int)
    ensures CurriculumSize(n, batchSize) == BatchSize(MixedCurriculum, n, batchSize)
  {
    hide Third;
  }

  // ---------- recommend_next_batch ----------

  /** What each strategy promises of its batch, beside its size and its ids. */
  ghost predicate Recommended(strategy: Strategy, selected: seq<Sample>, candidates: seq<Sample>, batchSize: int) {
    match strategy
    case HardestOnly => FirstBy(selected, candidates, Harder)
    case DeterministicRandom => FirstBy(selected, candidates, HashedBefore)
    case BalancedHard => Balanced(selected, Ranked(candidates), GroupOf) && InRounds(selected, GroupOf)
    case DiversityFirst =>
      && LedByHardest(selected, Ranked(candidates))
      && selected <= Leaders(Ranked(candidates)) + Followers(Ranked(candidates))
      && (batchSize >= 0 ==>
            |Categories(selected)| == var n := |Categories(candidates)|; if batchSize <= n then batchSize else n)
    case MixedCurriculum => CurriculumShape(selected, Ranked(candidates), batchSize)
  }

  /** Rejects duplicate ids; otherwise selects, under every strategy, distinct samples outside
      the history, as many as the batch asks for or as there are. */
  method RecommendNextBatch(samples: seq<Sample>, strategy: Strategy, batchSize: int, history: set<Id>)
    returns (batch: Option<seq<Sample>>)
    ensures batch.None? <==> !DistinctIds(samples)
    ensures batch.Some? ==>
              && GoodBatch(batch.value, Excluding(samples, history),
                           BatchSize(strategy, |Excluding(samples, history)|, batchSize))
              && (forall s :: s in batch.value ==> s in samples && s.id !in history)
              && Recommended(strategy, batch.value, Excluding(samples, history), batchSize)
  {
    hide DistinctIds, GoodBatch, Balanced, InRounds, LedByHardest, Categories, CurriculumShape, Sort, Excluding, Take,
         FirstBy, BatchSize;
    var ids := set k | 0 <= k < |samples| :: samples[k].id;
    IdSetSize(samples);
    assert ids == IdSet(samples);
    if |ids| != |samples| {
      return None;
    }
    ExcludingMembers(samples, history);
    var candidates := Excluding(samples, history);
    var selected: seq<Sample>;
    match strategy {
    case HardestOnly => selected := SelectHardest(candidates, batchSize);
    case DeterministicRandom => selected := SelectRandom(candidates, batchSize);
    case BalancedHard => selected := SelectBalanced(candidates, batchSize);
    case DiversityFirst => selected := SelectDiverse(candidates, batchSize);
    case MixedCurriculum => selected := SelectCurriculum(candidates, batchSize);
    }
    GoodBatchMembers(selected, candidates, BatchSize(strategy, |candidates|, batchSize));
    return Some(selected);
  }

  lemma GoodBatchMembers(selected: seq<Sample>, pool: seq<Sample>, size: nat)
    requires GoodBatch(selected, pool, size)
    ensures forall s :: s in selected ==> s in pool
  {
  }

  ghost function IdSet(samples: seq<Sample>): set<Id> {
    set k | 0 <= k < |samples| :: samples[k].id
  }

  lemma IdSetAppend(samples: seq<Sample>, s: Sample)
    ensures IdSet(samples + [s]) == IdSet(samples) + {s.id}
    ensures DistinctIds(samples + [s]) <==> DistinctIds(samples) && s.id !in IdSet(samples)
  {
    var all := samples + [s];
    assert all[|samples|] == s && forall k :: 0 <= k < |samples| ==> all[k] == samples[k];
  }

  /** Counting the distinct ids detects a duplicate. */
  lemma {:induction false} IdSetSize(samples: seq<Sample>)
    ensures |IdSet(samples)| <= |samples|
    ensures |IdSet(samples)| == |samples| <==> DistinctIds(samples)
  {
    if samples == [] {
    } else {
      hide IdSet, DistinctIds;
      var n := |samples| - 1;
      IdSetSize(samples[..n]);
      IdSetAppend(samples[..n], samples[n]);
      assert samples == samples[..n] + [samples[n]];
    }
  }
}
