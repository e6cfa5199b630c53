/**
 What each strategy of the batch recommender promises, said of the samples themselves: their scores,
 ids, hashes, groups and categories.
 */
module BatchLaws {
  import opened ActiveLearning
  import opened Grouping
  import opened RoundRobin
  import opened Sorting

  // ---------- The orders ----------

  /** a comes no later than b among the hardest: it scores no less, and on a tie its id is no greater. */
  predicate NoEasier(a: Sample, b: Sample) {
    b.score <= a.score && (a.score == b.score ==> a.id <= b.id)
  }

  /** a comes no later than b among the easiest. */
  predicate NoHarder(a: Sample, b: Sample) {
    a.score <= b.score && (a.score == b.score ==> a.id <= b.id)
  }

  predicate HashesFirst(a: Sample, b: Sample) {
    a.hash <= b.hash && (a.hash == b.hash ==> a.id <= b.id)
  }

  lemma OrdersAreThese()
    ensures forall a, b :: Harder(a, b) <==> NoEasier(a, b)
    ensures forall a, b :: Easier(a, b) <==> NoHarder(a, b)
    ensures forall a, b :: HashedBefore(a, b) <==> HashesFirst(a, b)
  {
  }

  lemma SameOrder(selected: seq<Sample>, pool: seq<Sample>, le: (Sample, Sample) -> bool, le': (Sample, Sample) -> bool)
    requires forall a, b :: le(a, b) <==> le'(a, b)
    requires FirstBy(selected, pool, le)
    ensures FirstBy(selected, pool, le')
  {
  }

  /** The candidates from the hardest to the easiest. */
  lemma RankedMeans(candidates: seq<Sample>)
    ensures SortedBy(Ranked(candidates), NoEasier) && multiset(Ranked(candidates)) == multiset(candidates)
    ensures forall s :: s in Ranked(candidates) <==> s in candidates
    ensures DistinctIds(candidates) ==> DistinctIds(Ranked(candidates))
  {
    OrdersAreThese();
    SortSorts(candidates, Harder);
    SortPermutes(candidates, Harder);
    SortMembers(candidates, Harder);
    if DistinctIds(candidates) {
      SubmultisetDistinct(Ranked(candidates), candidates);
    }
  }

  // ---------- Batch sizes ----------

  /** A batch has as many samples as asked for, or all; of a negative number the slices leave off that
      many at the end, and the loops take none. */
  lemma BatchSizeMeans(strategy: Strategy, n: nat, batchSize: int)
    ensures var size := BatchSize(strategy, n, batchSize);
            && (0 <= batchSize <= n ==> size == batchSize)
            && (batchSize > n ==> size == n)
            && (batchSize < 0 && (strategy.HardestOnly? || strategy.DeterministicRandom?) ==>
                  if n + batchSize > 0 then size == n + batchSize else size == 0)
            && (batchSize < 0 && (strategy.BalancedHard? || strategy.DiversityFirst?) ==> size == 0)
  {
  }

  /** For a negative number the curriculum's batch: its head of two, and of the rest all but that many,
      and of both together all but that many. */
  lemma CurriculumSizeMeans(n: nat, batchSize: int)
    requires batchSize < 0
    ensures var size := BatchSize(MixedCurriculum, n, batchSize);
            var head := if n < 2 then n else 2;
            var rest := if n - head + batchSize > 0 then n - head + batchSize else 0;
            size == if head + rest + batchSize > 0 then head + rest + batchSize else 0
  {
  }

  // ---------- balanced_hard ----------

  ghost function InGroup(samples: seq<Sample>, group: Key): set<int> {
    set k | 0 <= k < |samples| && samples[k].group == group
  }

  /** From each group the hardest, hardest first; no group more than one ahead of another of which
      something is left out; and the groups take turns in ascending order. */
  ghost predicate BalancedLaw(selected: seq<Sample>, candidates: seq<Sample>) {
    && (forall s, t :: s in selected && t in candidates && t !in selected && s.group == t.group ==> NoEasier(s, t))
    && (forall i, j :: 0 <= i < j < |selected| && selected[i].group == selected[j].group ==>
          NoEasier(selected[i], selected[j]))
    && (forall a: Key, t :: t in candidates && t !in selected ==>
          |InGroup(selected, a)| <= |InGroup(selected, t.group)| + 1)
    && (forall i, j :: 0 <= i < j < |selected| ==> TurnBefore(selected, i, j))
  }

  /** Sample i is the n-th of its group and sample j the m-th of its own, with n less than m, or equal
      and the group of i less than that of j. */
  ghost predicate TurnBefore(selected: seq<Sample>, i: nat, j: nat)
    requires i < |selected| && j < |selected|
  {
    var n, m := |InGroup(selected[..i], selected[i].group)|, |InGroup(selected[..j], selected[j].group)|;
    n < m || (n == m && selected[i].group < selected[j].group)
  }

  lemma OfKeyCounts(samples: seq<Sample>, group: Key)
    ensures |OfKey(samples, GroupOf, group)| == |InGroup(samples, group)|
  {
    OfKeyPlaces(samples, GroupOf, group);
    assert InGroup(samples, group) == Places(samples, GroupOf, group);
  }

  lemma {:induction false} OfKeyHas(samples: seq<Sample>, group: Key, x: Sample)
    ensures x in OfKey(samples, GroupOf, group) <==> x in samples && x.group == group
  {
    if samples == [] {
    } else {
      var n := |samples| - 1;
      OfKeyHas(samples[..n], group, x);
      assert samples == samples[..n] + [samples[n]];
    }
  }

  lemma {:induction false} OfKeySorted(samples: seq<Sample>, group: Key)
    requires SortedBy(samples, NoEasier)
    ensures SortedBy(OfKey(samples, GroupOf, group), NoEasier)
  {
    if samples == [] {
    } else {
      var n := |samples| - 1;
      OfKeySorted(samples[..n], group);
      var before := OfKey(samples[..n], GroupOf, group);
      forall k | 0 <= k < |before| ensures NoEasier(before[k], samples[n]) {
        OfKeyHas(samples[..n], group, before[k]);
      }
      hide NoEasier;
    }
  }

  lemma PrefixFirst(part: seq<Sample>, all: seq<Sample>, le: (Sample, Sample) -> bool, s: Sample, t: Sample)
    requires part <= all && SortedBy(all, le) && s in part && t in all && t !in part
    ensures le(s, t)
  {
    var i :| 0 <= i < |part| && part[i] == s;
    var j :| 0 <= j < |all| && all[j] == t;
    assert forall k :: 0 <= k < |part| ==> all[k] == part[k] && part[k] != t;
    assert all[i] == s;
  }

  lemma GroupsAreHardestFirst(selected: seq<Sample>, candidates: seq<Sample>)
    requires Balanced(selected, Ranked(candidates), GroupOf)
    ensures forall s, t :: s in selected && t in candidates && t !in selected && s.group == t.group ==> NoEasier(s, t)
    ensures forall a: Key, t :: t in candidates && t !in selected ==>
              |InGroup(selected, a)| <= |InGroup(selected, t.group)| + 1
  {
    var ranked := Ranked(candidates);
    RankedMeans(candidates);
    hide Sort, OfKey, SortedBy, NoEasier, InGroup;
    forall s, t | s in selected && t in candidates && t !in selected && s.group == t.group ensures NoEasier(s, t) {
      OfKeyHas(selected, s.group, s);
      OfKeyHas(selected, s.group, t);
      OfKeyHas(ranked, s.group, t);
      OfKeySorted(ranked, s.group);
      PrefixFirst(OfKey(selected, GroupOf, s.group), OfKey(ranked, GroupOf, s.group), NoEasier, s, t);
    }
    forall a: Key, t | t in candidates && t !in selected
      ensures |InGroup(selected, a)| <= |InGroup(selected, t.group)| + 1
    {
      OfKeyHas(selected, t.group, t);
      OfKeyHas(ranked, t.group, t);
      OfKeyCounts(selected, a);
      OfKeyCounts(selected, t.group);
    }
  }

  lemma TurnsAreTaken(selected: seq<Sample>, i: nat, j: nat)
    requires InRounds(selected, GroupOf) && i < j < |selected|
    ensures TurnBefore(selected, i, j)
  {
    OfKeyCounts(selected[..i], selected[i].group);
    OfKeyCounts(selected[..j], selected[j].group);
    hide OfKey, InGroup;
    assert Before(selected, GroupOf, i, j);
  }

  lemma SameGroupInOrder(selected: seq<Sample>, candidates: seq<Sample>, i: nat, j: nat)
    requires Balanced(selected, Ranked(candidates), GroupOf) && InRounds(selected, GroupOf)
    requires i < j < |selected| && selected[i].group == selected[j].group
    ensures NoEasier(selected[i], selected[j])
  {
    var ranked, g := Ranked(candidates), selected[i].group;
    RankedMeans(candidates);
    OfKeyAt(selected, GroupOf, i);
    OfKeyAt(selected, GroupOf, j);
    OfKeySorted(ranked, g);
    assert Before(selected, GroupOf, i, j);
    hide Sort, OfKey, NoEasier, RoundOf;
    var own, all := OfKey(selected, GroupOf, g), OfKey(ranked, GroupOf, g);
    assert own <= all;
    assert all[RoundOf(selected, GroupOf, i)] == selected[i] && all[RoundOf(selected, GroupOf, j)] == selected[j];
  }

  lemma BalancedMeans(selected: seq<Sample>, candidates: seq<Sample>)
    requires Balanced(selected, Ranked(candidates), GroupOf) && InRounds(selected, GroupOf)
    ensures BalancedLaw(selected, candidates)
  {
    hide Balanced, InRounds, NoEasier, InGroup, TurnBefore;
    GroupsAreHardestFirst(selected, candidates);
    forall i, j | 0 <= i < j < |selected| ensures TurnBefore(selected, i, j) {
      TurnsAreTaken(selected, i, j);
    }
    forall i, j | 0 <= i < j < |selected| && selected[i].group == selected[j].group
      ensures NoEasier(selected[i], selected[j])
    {
      SameGroupInOrder(selected, candidates, i, j);
    }
  }

  // ---------- diversity_first ----------

  /** No candidate of its category is harder. */
  ghost predicate Leads(s: Sample, candidates: seq<Sample>) {
    forall t :: t in candidates && t.category == s.category ==> NoEasier(s, t)
  }

  /** First the leaders of categories, the hardest first, and then, if all of those are in, the other
      samples, again the hardest first; of either, what is left out is no harder than what is in. */
  ghost predicate DiversityLaw(selected: seq<Sample>, candidates: seq<Sample>) {
    exists m :: 0 <= m <= |selected| && LeadersThenOthers(selected, candidates, m)
  }

  ghost predicate LeadersThenOthers(selected: seq<Sample>, candidates: seq<Sample>, m: nat)
    requires m <= |selected|
  {
    && (forall i :: 0 <= i < |selected| ==> (Leads(selected[i], candidates) <==> i < m))
    && SortedBy(selected[..m], NoEasier) && SortedBy(selected[m..], NoEasier)
    && (forall t :: t in candidates && t !in selected && Leads(t, candidates) ==>
          m == |selected| && forall s :: s in selected ==> NoEasier(s, t))
    && (forall s, t :: s in selected[m..] && t in candidates && t !in selected && !Leads(t, candidates) ==>
          NoEasier(s, t))
  }

  lemma AppendLast(part: seq<Sample>, all: seq<Sample>, x: Sample)
    requires SortedBy(part, NoEasier) && (forall s :: s in part ==> s in all) && forall s :: s in all ==> NoEasier(s, x)
    ensures SortedBy(part + [x], NoEasier)
  {
    hide NoEasier;
    assert forall k :: 0 <= k < |part| ==> part[k] in part;
  }

  lemma BeforeLast(ranked: seq<Sample>, n: nat)
    requires SortedBy(ranked, NoEasier) && n < |ranked|
    ensures SortedBy(ranked[..n], NoEasier) && forall s :: s in ranked[..n] ==> NoEasier(s, ranked[n])
  {
    hide NoEasier;
  }

  lemma {:induction false} PartsSorted(ranked: seq<Sample>)
    requires SortedBy(ranked, NoEasier)
    ensures SortedBy(Leaders(ranked), NoEasier) && SortedBy(Followers(ranked), NoEasier)
  {
    if ranked == [] {
    } else {
      var n := |ranked| - 1;
      LeadersStep(ranked, n);
      assert ranked[..n + 1] == ranked;
      hide *;
      BeforeLast(ranked, n);
      PartsSorted(ranked[..n]);
      LeadersAreRanked(ranked[..n]);
      AppendLast(Leaders(ranked[..n]), ranked[..n], ranked[n]);
      AppendLast(Followers(ranked[..n]), ranked[..n], ranked[n]);
    }
  }

  lemma LeadersAreRanked(ranked: seq<Sample>)
    ensures forall s :: s in Leaders(ranked) ==> s in ranked
    ensures forall s :: s in Followers(ranked) ==> s in ranked
  {
    forall s ensures (s in Leaders(ranked) ==> s in ranked) && (s in Followers(ranked) ==> s in ranked) {
      LeadersMembers(ranked, s);
    }
  }

  /** In a ranking, the leaders are the first of their categories. */
  lemma LeadsIffFirst(ranked: seq<Sample>, k: nat)
    requires SortedBy(ranked, NoEasier) && DistinctIds(ranked) && k < |ranked|
    ensures Leads(ranked[k], ranked) <==> ranked[k].category !in Categories(ranked[..k])
  {
    if ranked[k].category in Categories(ranked[..k]) {
      var s :| s in ranked[..k] && s.category == ranked[k].category;
      var j :| 0 <= j < k && ranked[..k][j] == s;
      assert ranked[j] == s && NoEasier(ranked[j], ranked[k]) && ranked[j].id != ranked[k].id;
      assert !NoEasier(ranked[k], ranked[j]);
    } else {
      forall i | 0 <= i < k ensures ranked[i].category != ranked[k].category {
        assert ranked[..k][i] in ranked[..k];
      }
      forall t | t in ranked && t.category == ranked[k].category ensures NoEasier(ranked[k], t) {
        var j :| 0 <= j < |ranked| && ranked[j] == t;
      }
    }
  }

  lemma LeadersLead(ranked: seq<Sample>, x: Sample)
    requires SortedBy(ranked, NoEasier) && DistinctIds(ranked) && x in ranked
    ensures x in Leaders(ranked) <==> Leads(x, ranked)
    ensures x in Followers(ranked) <==> !Leads(x, ranked)
  {
    var k :| 0 <= k < |ranked| && ranked[k] == x;
    LeadsIffFirst(ranked, k);
    LeadsOrFollows(ranked, k);
    LeadersMembers(ranked, x);
    hide *;
  }

  lemma SameLeads(s: Sample, a: seq<Sample>, b: seq<Sample>)
    requires forall t :: t in a <==> t in b
    ensures Leads(s, a) <==> Leads(s, b)
  {
  }

  lemma DiversityMeans(selected: seq<Sample>, candidates: seq<Sample>)
    requires DistinctIds(candidates)
    requires selected <= Leaders(Ranked(candidates)) + Followers(Ranked(candidates))
    ensures DiversityLaw(selected, candidates)
  {
    var ranked := Ranked(candidates);
    RankedMeans(candidates);
    PartsSorted(ranked);
    LeadersAreRanked(ranked);
    hide Sort, NoEasier, DistinctIds, Leaders, Followers, Leads;
    forall s | s in ranked
      ensures (s in Leaders(ranked) <==> Leads(s, candidates)) && (s in Followers(ranked) <==> !Leads(s, candidates))
    {
      LeadersLead(ranked, s);
      SameLeads(s, ranked, candidates);
    }
    DiverseParts(selected, candidates, Leaders(ranked), Followers(ranked));
  }

  lemma DiverseParts(selected: seq<Sample>, candidates: seq<Sample>, leaders: seq<Sample>, followers: seq<Sample>)
    requires selected <= leaders + followers && SortedBy(leaders, NoEasier) && SortedBy(followers, NoEasier)
    requires forall s :: s in leaders ==> s in candidates && Leads(s, candidates)
    requires forall s :: s in followers ==> s in candidates && !Leads(s, candidates)
    requires forall s :: s in candidates ==> s in if Leads(s, candidates) then leaders else followers
    ensures DiversityLaw(selected, candidates)
  {
    var m := if |selected| <= |leaders| then |selected| else |leaders|;
    var head, tail := selected[..m], selected[m..];
    assert head <= leaders && tail <= followers && selected == head + tail;
    hide NoEasier, Leads;
    forall i | 0 <= i < |selected| ensures Leads(selected[i], candidates) <==> i < m {
      assert i < m ==> selected[i] == leaders[i] && leaders[i] in leaders;
      assert i >= m ==> selected[i] == followers[i - m] && followers[i - m] in followers;
    }
    forall t | t in candidates && t !in selected && Leads(t, candidates)
      ensures m == |selected| && forall s :: s in selected ==> NoEasier(s, t)
    {
      assert m == |leaders| ==> head == leaders;
      forall s | s in selected ensures NoEasier(s, t) {
        PrefixFirst(head, leaders, NoEasier, s, t);
      }
    }
    forall s, t | s in tail && t in candidates && t !in selected && !Leads(t, candidates) ensures NoEasier(s, t) {
      PrefixFirst(tail, followers, NoEasier, s, t);
    }
    assert LeadersThenOthers(selected, candidates, m);
  }

  // ---------- mixed_curriculum ----------

  /** A third of the batch, rounded down, but at least one. */
  predicate IsThird(t: int, batchSize: int) {
    t >= 1 && batchSize < 3 * (t + 1) && (t == 1 || 3 * t <= batchSize)
  }

  /** Two thirds of the batch are the hardest, hardest first; what follows are the easiest of the rest,
      easiest first. */
  ghost predicate CurriculumLaw(selected: seq<Sample>, candidates: seq<Sample>, batchSize: int) {
    exists t, m :: && IsThird(t, batchSize) && 0 <= m <= |selected|
                   && (m == 2 * t || (m == |selected| && m < 2 * t))
                   && HardThenEasy(selected, candidates, m)
  }

  ghost predicate HardThenEasy(selected: seq<Sample>, candidates: seq<Sample>, m: nat)
    requires m <= |selected|
  {
    && FirstBy(selected[..m], candidates, NoEasier)
    && SortedBy(selected[m..], NoHarder)
    && forall s, t :: s in selected[m..] && t in candidates && t !in selected ==> NoHarder(s, t)
  }

  lemma ThirdIsThird(batchSize: int)
    ensures IsThird(Third(batchSize), batchSize)
  {
  }

  lemma CurriculumMeans(selected: seq<Sample>, candidates: seq<Sample>, batchSize: int)
    requires CurriculumShape(selected, Ranked(candidates), batchSize) && |selected| <= |candidates|
    ensures CurriculumLaw(selected, candidates, batchSize)
  {
    var ranked, t := Ranked(candidates), Third(batchSize);
    RankedMeans(candidates);
    ThirdIsThird(batchSize);
    hide Third, Sort, IsThird, NoEasier, NoHarder;
    assert |ranked| == |candidates| by { assert |multiset(ranked)| == |multiset(candidates)|; }
    CurriculumParts(selected, candidates, ranked, 2 * t);
  }

  lemma CurriculumParts(selected: seq<Sample>, candidates: seq<Sample>, ranked: seq<Sample>, most: nat)
    requires SortedBy(ranked, NoEasier) && multiset(ranked) == multiset(candidates) && |selected| <= |ranked|
    requires forall s :: s in ranked <==> s in candidates
    requires selected <= Take(ranked, most) + Sort(Drop(ranked, most), Easier)
    ensures var m := if |selected| <= most then |selected| else most; HardThenEasy(selected, candidates, m)
  {
    var m := if |selected| <= most then |selected| else most;
    CurriculumSplit(selected, ranked, Sort(Drop(ranked, most), Easier), most);
    EasyIsSorted(Drop(ranked, most));
    PrefixComesFirst(ranked, candidates, m, NoEasier);
    hide *;
    forall s, t | s in selected[m..] && t in candidates && t !in selected ensures NoHarder(s, t) {
      LeftForLater(selected, ranked, most, t);
      PrefixFirst(selected[m..], Sort(Drop(ranked, most), Easier), NoHarder, s, t);
    }
    PrefixSorted(selected[m..], Sort(Drop(ranked, most), Easier), NoHarder);
    HardThenEasyMeans(selected, candidates, m);
  }

  lemma CurriculumSplit(selected: seq<Sample>, ranked: seq<Sample>, easy: seq<Sample>, most: nat)
    requires selected <= Take(ranked, most) + easy && |selected| <= |ranked|
    ensures var m := if |selected| <= most then |selected| else most;
            selected[..m] == Take(ranked, m) && selected[m..] <= easy
  {
  }

  lemma LeftForLater(selected: seq<Sample>, ranked: seq<Sample>, most: nat, t: Sample)
    requires most < |selected| <= |ranked| && selected[..most] == Take(ranked, most)
    requires t in ranked && t !in selected
    ensures t in Drop(ranked, most) && t !in selected[most..]
  {
    assert ranked == ranked[..most] + ranked[most..] && selected == selected[..most] + selected[most..];
  }

  lemma HardThenEasyMeans(selected: seq<Sample>, candidates: seq<Sample>, m: nat)
    requires m <= |selected| && FirstBy(selected[..m], candidates, NoEasier) && SortedBy(selected[m..], NoHarder)
    requires forall s, t :: s in selected[m..] && t in candidates && t !in selected ==> NoHarder(s, t)
    ensures HardThenEasy(selected, candidates, m)
  {
  }

  lemma PrefixSorted(part: seq<Sample>, all: seq<Sample>, le: (Sample, Sample) -> bool)
    requires part <= all && SortedBy(all, le)
    ensures SortedBy(part, le)
  {
  }

  lemma EasyIsSorted(rest: seq<Sample>)
    ensures SortedBy(Sort(rest, Easier), NoHarder) && forall s :: s in Sort(rest, Easier) <==> s in rest
  {
    OrdersAreThese();
    SortSorts(rest, Easier);
    SortMembers(rest, Easier);
  }

  // ---------- All strategies ----------

  /** What the recommender's contract promises for each strategy amounts to this. */
  lemma RecommendedMeans(strategy: Strategy, selected: seq<Sample>, candidates: seq<Sample>, batchSize: int)
    requires Recommended(strategy, selected, candidates, batchSize) && DistinctIds(candidates)
    requires GoodBatch(selected, candidates, BatchSize(strategy, |candidates|, batchSize))
    ensures match strategy
            case HardestOnly => FirstBy(selected, candidates, NoEasier)
            case DeterministicRandom => FirstBy(selected, candidates, HashesFirst)
            case BalancedHard => BalancedLaw(selected, candidates)
            case DiversityFirst => DiversityLaw(selected, candidates)
            case MixedCurriculum => CurriculumLaw(selected, candidates, batchSize)
  {
    hide FirstBy, Balanced, InRounds, BalancedLaw, DiversityLaw, CurriculumLaw, CurriculumShape, Leaders, Followers,
         BatchSize, Sort, NoEasier, NoHarder, HashesFirst, Harder, Easier, HashedBefore;
    OrdersAreThese();
    match strategy
    case HardestOnly => SameOrder(selected, candidates, Harder, NoEasier);
    case DeterministicRandom => SameOrder(selected, candidates, HashedBefore, HashesFirst);
    case BalancedHard => BalancedMeans(selected, candidates);
    case DiversityFirst => DiversityMeans(selected, candidates);
    case MixedCurriculum =>
      GoodBatchIsNoLonger(selected, candidates, BatchSize(strategy, |candidates|, batchSize));
      CurriculumMeans(selected, candidates, batchSize);
  }

  lemma GoodBatchIsNoLonger(selected: seq<Sample>, pool: seq<Sample>, size: nat)
    requires GoodBatch(selected, pool, size) && DistinctIds(pool)
    ensures |selected| <= |pool|
  {
    WithinPool(selected, pool);
  }
}
