/**
 What the metadata check covers.  It looks into the sequences that a mapping holds, but not into
 sequences inside sequences; so it sees all of a record exactly where none stand inside another.
 */
module MetadataCoverage {
  import opened ObjectGraph
  import opened Protection

  /** All references, with the mappings that the metadata check calls malformed marked bad. */
  function FullGraph(h: Heap): Graph {
    Graph(RecordGraph(h).succ, MetadataGraph(h).bad)
  }

  /** The record contains a malformed mapping, or a cycle, anywhere. */
  ghost predicate ContainsFault(h: Heap, root: Id) {
    Faulty(FullGraph(h), root)
  }

  /** Nothing that the object holds, if it is a sequence, is a sequence. */
  ghost predicate HoldsNoSequence(h: Heap, s: Id) {
    s in h && h[s].Sequence? ==> forall b :: Edge(FullGraph(h), s, b) ==> h[b].Mapping?
  }

  /** No sequence that can be reached from root holds a sequence. */
  ghost predicate Flat(h: Heap, root: Id) {
    forall s :: Reaches(FullGraph(h), root, s) ==> HoldsNoSequence(h, s)
  }

  ghost predicate FlatWalk(h: Heap, walk: seq<Id>) {
    forall k :: 0 <= k < |walk| ==> HoldsNoSequence(h, walk[k])
  }

  // ---------- Flat records are seen in full ----------

  lemma DirectStep(h: Heap, a: Id, b: Id)
    requires Edge(FullGraph(h), a, b) && h[b].Mapping?
    ensures Edge(MetadataGraph(h), a, b)
  {
  }

  lemma StepThroughSequence(h: Heap, a: Id, s: Id, b: Id)
    requires Edge(FullGraph(h), a, s) && Edge(FullGraph(h), s, b) && h[s].Sequence? && h[b].Mapping?
    ensures Edge(MetadataGraph(h), a, b)
  {
    assert HoldsMapping(h, a, b);
  }

  /** Along a flat walk between mappings the metadata check can follow. */
  lemma {:induction false} FlatWalkFollowed(h: Heap, walk: seq<Id>)
    requires IsWalk(FullGraph(h), walk) && |walk| > 1 && FlatWalk(h, walk)
    requires walk[0] in h && h[walk[0]].Mapping? && walk[|walk| - 1] in h && h[walk[|walk| - 1]].Mapping?
    ensures Leads(MetadataGraph(h), walk[0], walk[|walk| - 1])
    decreases |walk|, 0
  {
    hide FullGraph, MetadataGraph, Leads, IsWalk, FlatWalk;
    var n := |walk| - 1;
    WalkEdges(h, walk);
    var g := MetadataGraph(h);
    if h[walk[n - 1]].Mapping? {
      DirectStep(h, walk[n - 1], walk[n]);
      FollowedOn(h, walk, n - 1);
    } else {
      StepThroughSequence(h, walk[n - 2], walk[n - 1], walk[n]);
      FollowedOn(h, walk, n - 2);
    }
  }

  /** The edges of a flat walk; before a sequence stands a mapping. */
  lemma WalkEdges(h: Heap, walk: seq<Id>)
    requires IsWalk(FullGraph(h), walk) && FlatWalk(h, walk)
    ensures forall k :: 0 <= k < |walk| ==> walk[k] in h
    ensures forall k :: 0 < k < |walk| ==> Edge(FullGraph(h), walk[k - 1], walk[k])
    ensures forall k :: 0 < k < |walk| && h[walk[k]].Sequence? ==> h[walk[k - 1]].Mapping?
  {
    forall k | 0 <= k < |walk| ensures walk[k] in h {
      assert k > 0 ==> Linked(FullGraph(h), walk, k);
    }
    forall k | 0 < k < |walk|
      ensures Edge(FullGraph(h), walk[k - 1], walk[k])
      ensures h[walk[k]].Sequence? ==> h[walk[k - 1]].Mapping?
    {
      assert Linked(FullGraph(h), walk, k);
      assert HoldsNoSequence(h, walk[k - 1]);
    }
  }

  /** From the walk up to a mapping k, which leads on to the end, to the whole walk. */
  lemma {:induction false} FollowedOn(h: Heap, walk: seq<Id>, k: nat)
    requires IsWalk(FullGraph(h), walk) && FlatWalk(h, walk) && k < |walk| - 1
    requires walk[0] in h && h[walk[0]].Mapping? && walk[k] in h && h[walk[k]].Mapping?
    requires Edge(MetadataGraph(h), walk[k], walk[|walk| - 1])
    ensures Leads(MetadataGraph(h), walk[0], walk[|walk| - 1])
    decreases |walk| - 1, 1
  {
    hide FullGraph, MetadataGraph, Leads, IsWalk;
    EdgeLeads(MetadataGraph(h), walk[k], walk[|walk| - 1]);
    if k == 0 {
    } else {
      var front := walk[0..k + 1];
      WalkSlice(FullGraph(h), walk, 0, k + 1);
      assert forall j :: 0 <= j <= k ==> front[j] == walk[j];
      FlatWalkFollowed(h, front);
      LeadsTransitive(MetadataGraph(h), walk[0], walk[k], walk[|walk| - 1]);
    }
  }

  // ---------- Faults of flat records ----------

  lemma FullReachesIn(h: Heap, root: Id, id: Id)
    requires Reaches(FullGraph(h), root, id)
    ensures root in h && id in h
  {
    var walk :| WalkFromTo(FullGraph(h), walk, root, id);
    if |walk| > 1 {
      assert Linked(FullGraph(h), walk, |walk| - 1);
    }
  }

  /** All of a walk that starts at a reachable object is reachable, and so flat. */
  lemma ReachableWalkIsFlat(h: Heap, root: Id, walk: seq<Id>)
    requires Flat(h, root) && IsWalk(FullGraph(h), walk) && Reaches(FullGraph(h), root, walk[0])
    ensures FlatWalk(h, walk)
  {
    var g := FullGraph(h);
    var start :| WalkFromTo(g, start, root, walk[0]);
    forall k | 0 <= k < |walk| ensures HoldsNoSequence(h, walk[k]) {
      var part := walk[0..k + 1];
      WalkSlice(g, walk, 0, k + 1);
      WalkConcat(g, start, part);
      var all := start + part[1..];
      assert all[|all| - 1] == walk[k];
      assert WalkFromTo(g, all, root, walk[k]);
      assert Reaches(g, root, walk[k]);
    }
  }

  lemma MappingIsFollowed(h: Heap, root: Id, id: Id)
    requires Flat(h, root) && root in h && h[root].Mapping? && id in h && h[id].Mapping?
    requires Reaches(FullGraph(h), root, id)
    ensures Reaches(MetadataGraph(h), root, id)
  {
    var walk :| WalkFromTo(FullGraph(h), walk, root, id);
    if |walk| == 1 {
      assert WalkFromTo(MetadataGraph(h), [root], root, id);
    } else {
      assert WalkFromTo(FullGraph(h), [root], root, root);
      ReachableWalkIsFlat(h, root, walk);
      FlatWalkFollowed(h, walk);
    }
  }

  /** A cycle at a sequence of a flat record is one at the mapping that follows it. */
  lemma CycleAtMapping(h: Heap, root: Id, id: Id) returns (x: Id)
    requires Flat(h, root) && Reaches(FullGraph(h), root, id) && Leads(FullGraph(h), id, id)
    ensures Reaches(FullGraph(h), root, x) && Leads(FullGraph(h), x, x) && x in h && h[x].Mapping?
  {
    var g := FullGraph(h);
    FullReachesIn(h, root, id);
    if h[id].Mapping? {
      x := id;
    } else {
      x := CycleTurned(g, id);
      ReachesOn(g, root, id, x);
      hide FullGraph, Reaches, Leads;
      assert HoldsNoSequence(h, id);
      FullReachesIn(h, root, x);
    }
  }

  lemma MappingCycleFollowed(h: Heap, root: Id, x: Id)
    requires Flat(h, root) && Reaches(FullGraph(h), root, x) && Leads(FullGraph(h), x, x) && x in h && h[x].Mapping?
    ensures Leads(MetadataGraph(h), x, x)
  {
    var cycle :| WalkFromTo(FullGraph(h), cycle, x, x) && |cycle| > 1;
    ReachableWalkIsFlat(h, root, cycle);
    FlatWalkFollowed(h, cycle);
  }

  /** Of a record without sequences inside sequences the metadata check sees all: it reports it
      exactly if the record contains a malformed mapping or a cycle anywhere. */
  lemma FlatRecordsAreSeen(h: Heap, root: Id)
    requires Closed(h) && root in h && h[root].Mapping? && Flat(h, root)
    ensures Faulty(MetadataGraph(h), root) <==> ContainsFault(h, root)
  {
    if Faulty(MetadataGraph(h), root) {
      SeenIsContained(h, root);
    }
    if ContainsFault(h, root) {
      var g := FullGraph(h);
      var id :| Reaches(g, root, id) && (id in g.bad || Leads(g, id, id));
      FullReachesIn(h, root, id);
      if id in g.bad {
        MappingIsFollowed(h, root, id);
      } else {
        var x := CycleAtMapping(h, root, id);
        MappingIsFollowed(h, root, x);
        MappingCycleFollowed(h, root, x);
      }
    }
  }

  /** What the metadata check reports is there, in any record. */
  lemma SeenIsContained(h: Heap, root: Id)
    requires Closed(h) && Faulty(MetadataGraph(h), root)
    ensures ContainsFault(h, root)
  {
    StepsAreFollowed(h, MetadataGraph(h).bad);
    FaultySimulated(MetadataGraph(h), FullGraph(h), root);
  }

  // ---------- Which sequences are looked into ----------

  /** The check looks into a sequence if a mapping that it visits holds the sequence. */
  ghost predicate LookedInto(h: Heap, root: Id, t: Id) {
    exists a :: HoldsVisited(h, root, a, t)
  }

  ghost predicate HoldsVisited(h: Heap, root: Id, a: Id, t: Id) {
    Reaches(MetadataGraph(h), root, a) && a in h && h[a].Mapping? && Ref(t) in ValuesOf(h[a])
  }

  ghost predicate AllLookedInto(h: Heap, root: Id) {
    forall t :: Reaches(FullGraph(h), root, t) && t in h && h[t].Sequence? ==> LookedInto(h, root, t)
  }

  lemma VisitOn(h: Heap, root: Id, p: Id, id: Id)
    requires Edge(FullGraph(h), p, id) && h[id].Mapping?
    requires if h[p].Mapping? then Reaches(MetadataGraph(h), root, p) else LookedInto(h, root, p)
    ensures Reaches(MetadataGraph(h), root, id)
  {
    hide Reaches;
    if h[p].Mapping? {
      DirectStep(h, p, id);
      ReachesOn(MetadataGraph(h), root, p, id);
    } else {
      var a :| HoldsVisited(h, root, a, p);
      assert Edge(FullGraph(h), a, p);
      StepThroughSequence(h, a, p, id);
      ReachesOn(MetadataGraph(h), root, a, id);
    }
  }

  /** If every sequence of the record is looked into, every mapping of it is visited. */
  lemma {:induction false} LookedIntoVisits(h: Heap, root: Id, walk: seq<Id>)
    requires root in h && h[root].Mapping? && IsWalk(FullGraph(h), walk) && walk[0] == root
    requires AllLookedInto(h, root)
    ensures var id := walk[|walk| - 1]; id in h && (h[id].Mapping? ==> Reaches(MetadataGraph(h), root, id))
  {
    hide MappingProtected, NestedBlockIllTyped, IllTypedOrMalformed, HoldsMapping;
    var n := |walk| - 1;
    if n == 0 {
      assert WalkFromTo(MetadataGraph(h), [root], root, root);
    } else {
      var front := walk[0..n];
      WalkSlice(FullGraph(h), walk, 0, n);
      LookedIntoVisits(h, root, front);
      assert Linked(FullGraph(h), walk, n);
      var p, id := walk[n - 1], walk[n];
      assert WalkFromTo(FullGraph(h), front, root, p);
      assert Reaches(FullGraph(h), root, p);
      hide MetadataGraph, LookedInto, Reaches, IsWalk;
      if h[id].Mapping? {
        VisitOn(h, root, p, id);
      }
    }
  }

  /** So it reports every malformed mapping that the record contains. */
  lemma LookedIntoReportsMalformed(h: Heap, root: Id, id: Id)
    requires root in h && h[root].Mapping? && AllLookedInto(h, root)
    requires Reaches(FullGraph(h), root, id) && id in FullGraph(h).bad
    ensures Faulty(MetadataGraph(h), root)
  {
    var walk :| WalkFromTo(FullGraph(h), walk, root, id);
    LookedIntoVisits(h, root, walk);
  }

  /** In a flat record every sequence is looked into. */
  lemma FlatLooksEverywhere(h: Heap, root: Id, t: Id)
    requires Flat(h, root) && root in h && h[root].Mapping?
    requires Reaches(FullGraph(h), root, t) && t in h && h[t].Sequence?
    ensures LookedInto(h, root, t)
  {
    var walk :| WalkFromTo(FullGraph(h), walk, root, t);
    var n := |walk| - 1;
    assert WalkFromTo(FullGraph(h), [root], root, root);
    ReachableWalkIsFlat(h, root, walk);
    WalkEdges(h, walk);
    var a := walk[n - 1];
    WalkSlice(FullGraph(h), walk, 0, n);
    assert WalkFromTo(FullGraph(h), walk[0..n], root, a);
    MappingIsFollowed(h, root, a);
    assert HoldsVisited(h, root, a, t);
  }

  // ---------- Planting a malformed mapping ----------

  const MALFORMED := Mapping([Field("protected", Other)])

  /** The heap with a new malformed mapping at the end of a sequence. */
  function Planted(h: Heap, t: Id, m: Id): Heap
    requires t in h && h[t].Sequence? && m !in h
  {
    h[t := Sequence(h[t].items + [Ref(m)])][m := MALFORMED]
  }

  lemma PlantedIsBad(h: Heap, t: Id, m: Id)
    requires t in h && h[t].Sequence? && m !in h
    ensures m in MetadataGraph(Planted(h, t, m)).bad
  {
    assert FieldMalformed(MALFORMED.fields[0]);
  }

  /** What is there before stays: references, mappings, and the steps of the check. */
  lemma PlantedKeeps(h: Heap, t: Id, m: Id)
    requires Closed(h) && t in h && h[t].Sequence? && m !in h
    ensures var h' := Planted(h, t, m);
            && Closed(h')
            && Simulates(MetadataGraph(h), MetadataGraph(h')) && Simulates(FullGraph(h), FullGraph(h'))
            && Edge(FullGraph(h'), t, m)
  {
    var h' := Planted(h, t, m);
    assert Ref(m) in ValuesOf(h'[t]) by {
      assert ValuesOf(h'[t])[|h[t].items|] == Ref(m);
    }
    forall a, v | a in h && v in ValuesOf(h[a]) ensures v in ValuesOf(h'[a]) {
      if a == t {
        assert ValuesOf(h'[a]) == ValuesOf(h[a]) + [Ref(m)];
      }
    }
    forall a, b | Edge(FullGraph(h), a, b) ensures Leads(FullGraph(h'), a, b) {
      EdgeLeads(FullGraph(h'), a, b);
    }
    forall a, b | Edge(MetadataGraph(h), a, b) ensures Leads(MetadataGraph(h'), a, b) {
      HoldsStill(h, t, m, a, b);
      EdgeLeads(MetadataGraph(h'), a, b);
    }
    assert ValuesOf(h'[m]) == [Other];
  }

  lemma HoldsStill(h: Heap, t: Id, m: Id, a: Id, b: Id)
    requires t in h && h[t].Sequence? && m !in h && Edge(MetadataGraph(h), a, b)
    ensures Edge(MetadataGraph(Planted(h, t, m)), a, b)
  {
    var h' := Planted(h, t, m);
    assert HoldsMapping(h, a, b);
    if Ref(b) in ValuesOf(h[a]) {
      assert a == t ==> ValuesOf(h'[a]) == ValuesOf(h[a]) + [Ref(m)];
    } else {
      var s :| s in h && Ref(s) in ValuesOf(h[a]) && h[s].Sequence? && Ref(b) in h[s].items;
      assert a == t ==> ValuesOf(h'[a]) == ValuesOf(h[a]) + [Ref(m)];
      assert Ref(b) in h'[s].items;
    }
    assert HoldsMapping(h', a, b);
  }

  lemma SimulatedReaches(g: Graph, g2: Graph, a: Id, b: Id)
    requires Simulates(g, g2) && Reaches(g, a, b)
    ensures Reaches(g2, a, b)
  {
    var walk :| WalkFromTo(g, walk, a, b);
    if |walk| > 1 {
      WalkSimulated(g, g2, walk);
    } else {
      assert WalkFromTo(g2, [a], a, b);
    }
  }

  /** A malformed mapping planted in a sequence of the record is contained in the record. */
  lemma PlantedIsContained(h: Heap, root: Id, t: Id, m: Id)
    requires Closed(h) && t in h && h[t].Sequence? && m !in h && Reaches(FullGraph(h), root, t)
    ensures ContainsFault(Planted(h, t, m), root)
  {
    var h' := Planted(h, t, m);
    PlantedKeeps(h, t, m);
    PlantedIsBad(h, t, m);
    hide Planted, FullGraph, Simulates, Edge;
    SimulatedReaches(FullGraph(h), FullGraph(h'), root, t);
    ReachesOn(FullGraph(h'), root, t, m);
    FullBad(h');
  }

  lemma FullBad(h: Heap)
    ensures FullGraph(h).bad == MetadataGraph(h).bad
  {
  }

  /** From what the check visits it takes no new step if the sequence is not looked into. */
  lemma NoNewStep(h: Heap, root: Id, t: Id, m: Id, a: Id, b: Id)
    requires Closed(h) && t in h && h[t].Sequence? && m !in h && !LookedInto(h, root, t)
    requires a in h && h[a].Mapping? && Reaches(MetadataGraph(h), root, a)
    requires Edge(MetadataGraph(Planted(h, t, m)), a, b)
    ensures Edge(MetadataGraph(h), a, b)
  {
    var h' := Planted(h, t, m);
    assert !HoldsVisited(h, root, a, t);
    assert h'[a] == h[a];
    assert HoldsMapping(h', a, b);
    if Ref(b) in ValuesOf(h[a]) {
      assert b in h;
    } else {
      var s :| s in h' && Ref(s) in ValuesOf(h'[a]) && h'[s].Sequence? && Ref(b) in h'[s].items;
      assert s in h && s != t && Ref(b) in ValuesOf(h[s]);
    }
    assert HoldsMapping(h, a, b);
  }

  lemma VisitedAreMappings(h: Heap, root: Id, a: Id)
    requires root in h && h[root].Mapping? && Reaches(MetadataGraph(h), root, a)
    ensures a in h && h[a].Mapping?
  {
    var walk :| WalkFromTo(MetadataGraph(h), walk, root, a);
    if |walk| > 1 {
      assert Linked(MetadataGraph(h), walk, |walk| - 1);
      assert HoldsMapping(h, walk[|walk| - 2], a);
    }
  }

  lemma SameFault(h: Heap, t: Id, m: Id, a: Id)
    requires Closed(h) && t in h && h[t].Sequence? && m !in h && a in h && h[a].Mapping?
    requires a in MetadataGraph(Planted(h, t, m)).bad
    ensures a in MetadataGraph(h).bad
  {
    var h' := Planted(h, t, m);
    assert h'[a] == h[a];
    assert forall v :: IsMapping(h, v) ==> IsMapping(h', v);
  }

  lemma NotLookedIntoEscapes(h: Heap, root: Id, t: Id, m: Id)
    requires Closed(h) && root in h && h[root].Mapping? && t in h && h[t].Sequence? && m !in h
    requires !LookedInto(h, root, t) && Faulty(MetadataGraph(Planted(h, t, m)), root)
    ensures Faulty(MetadataGraph(h), root)
  {
    var g, g2 := MetadataGraph(h), MetadataGraph(Planted(h, t, m));
    var part := set a | a in h && Reaches(g, root, a);
    assert WalkFromTo(g, [root], root, root);
    forall a, b | a in part && Edge(g2, a, b) ensures b in part && Edge(g, a, b) {
      VisitedAreMappings(h, root, a);
      NoNewStep(h, root, t, m, a, b);
      ReachesOn(g, root, a, b);
    }
    forall a | a in part && a in g2.bad ensures a in g.bad {
      VisitedAreMappings(h, root, a);
      SameFault(h, t, m, a);
    }
    ConfinedFault(g, g2, part, root);
  }

  /** The check reports a malformed mapping planted in a sequence of a record that it passes if and
      only if it looks into that sequence. */
  lemma PlantedIsSeenExactly(h: Heap, root: Id, t: Id, m: Id)
    requires Closed(h) && root in h && h[root].Mapping? && !Faulty(MetadataGraph(h), root)
    requires t in h && h[t].Sequence? && m !in h
    ensures Faulty(MetadataGraph(Planted(h, t, m)), root) <==> LookedInto(h, root, t)
  {
    if LookedInto(h, root, t) {
      var a :| HoldsVisited(h, root, a, t);
      PlantedKeeps(h, t, m);
      PlantedIsBad(h, t, m);
      VisitedHoldsPlanted(h, t, m, a);
      hide Planted, MetadataGraph, Simulates;
      SimulatedReaches(MetadataGraph(h), MetadataGraph(Planted(h, t, m)), root, a);
      ReachesOn(MetadataGraph(Planted(h, t, m)), root, a, m);
    } else if Faulty(MetadataGraph(Planted(h, t, m)), root) {
      NotLookedIntoEscapes(h, root, t, m);
    }
  }

  lemma VisitedHoldsPlanted(h: Heap, t: Id, m: Id, a: Id)
    requires t in h && h[t].Sequence? && m !in h && a in h && h[a].Mapping? && Ref(t) in ValuesOf(h[a])
    ensures Edge(MetadataGraph(Planted(h, t, m)), a, m)
  {
    var h' := Planted(h, t, m);
    assert h'[t].items[|h[t].items|] == Ref(m);
    assert HoldsMapping(h', a, m);
  }

  lemma AllLookedIntoMeans(h: Heap, root: Id)
    ensures AllLookedInto(h, root) <==>
            forall t :: Reaches(FullGraph(h), root, t) && t in h && h[t].Sequence? ==> LookedInto(h, root, t)
  {
  }

  /** So for a record that passes, all its sequences are looked into (as they are in a flat one) if
      and only if no malformed mapping planted in one of them would escape. */
  lemma NothingEscapesExactly(h: Heap, root: Id, m: Id)
    requires Closed(h) && root in h && h[root].Mapping? && !Faulty(MetadataGraph(h), root) && m !in h
    ensures AllLookedInto(h, root) <==>
            (forall t :: Reaches(FullGraph(h), root, t) && t in h && h[t].Sequence? ==>
               Faulty(MetadataGraph(Planted(h, t, m)), root))
    ensures forall t :: Reaches(FullGraph(h), root, t) && t in h && h[t].Sequence? ==>
              ContainsFault(Planted(h, t, m), root)
  {
    hide *;
    AllLookedIntoMeans(h, root);
    forall t | Reaches(FullGraph(h), root, t) && t in h && h[t].Sequence?
      ensures Faulty(MetadataGraph(Planted(h, t, m)), root) <==> LookedInto(h, root, t)
      ensures ContainsFault(Planted(h, t, m), root)
    {
      PlantedIsSeenExactly(h, root, t, m);
      PlantedIsContained(h, root, t, m);
    }
  }
}
