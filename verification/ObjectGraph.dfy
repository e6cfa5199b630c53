/**
 Walks through a finite directed graph with some nodes marked bad, and what a depth-first
 search that remembers only its current path can find out about them.
 */
module ObjectGraph {

  type Id = nat

  datatype Graph = Graph(succ: map<Id, set<Id>>, bad: set<Id>)

  predicate Edge(g: Graph, a: Id, b: Id) {
    a in g.succ && b in g.succ && b in g.succ[a]
  }

  predicate Linked(g: Graph, walk: seq<Id>, k: int)
    requires 0 < k < |walk|
  {
    Edge(g, walk[k - 1], walk[k])
  }

  /** A non-empty path along edges. */
  ghost predicate IsWalk(g: Graph, walk: seq<Id>) {
    && walk != []
    && walk[0] in g.succ
    && forall k :: 0 < k < |walk| ==> Linked(g, walk, k)
  }

  ghost predicate WalkFromTo(g: Graph, walk: seq<Id>, a: Id, b: Id) {
    IsWalk(g, walk) && walk[0] == a && walk[|walk| - 1] == b
  }

  predicate Repeats(walk: seq<Id>) {
    exists i, j :: 0 <= i < j < |walk| && walk[i] == walk[j]
  }

  ghost predicate Reaches(g: Graph, a: Id, b: Id) {
    exists walk :: WalkFromTo(g, walk, a, b)
  }

  /** b can be reached from a by at least one edge. */
  ghost predicate Leads(g: Graph, a: Id, b: Id) {
    exists walk :: WalkFromTo(g, walk, a, b) && |walk| > 1
  }

  /** From root one can reach a bad node, or a node that lies on a cycle. */
  ghost predicate Faulty(g: Graph, root: Id) {
    exists id :: Reaches(g, root, id) && (id in g.bad || Leads(g, id, id))
  }

  // ---------- The view of a search that is under way ----------

  /** The walk shows a fault to a search whose path so far is `seen`: it ends in a bad node or
      in a node of `seen`, or it meets one node twice. */
  ghost predicate Incriminates(g: Graph, seen: set<Id>, walk: seq<Id>) {
    IsWalk(g, walk) && (walk[|walk| - 1] in g.bad || walk[|walk| - 1] in seen || Repeats(walk))
  }

  ghost predicate Incriminated(g: Graph, seen: set<Id>, id: Id) {
    exists walk :: Incriminates(g, seen, walk) && walk[0] == id
  }

  lemma WalkPrepend(g: Graph, a: Id, walk: seq<Id>)
    requires IsWalk(g, walk) && Edge(g, a, walk[0])
    ensures IsWalk(g, [a] + walk)
  {
    var longer := [a] + walk;
    forall k | 0 < k < |longer| ensures Linked(g, longer, k) {
      if k > 1 { assert Linked(g, walk, k - 1); }
    }
  }

  lemma WalkSlice(g: Graph, walk: seq<Id>, i: nat, j: nat)
    requires IsWalk(g, walk) && i < j <= |walk|
    ensures IsWalk(g, walk[i..j])
  {
    var part := walk[i..j];
    forall k | 0 < k < |part| ensures Linked(g, part, k) {
      assert Linked(g, walk, i + k);
    }
    if i > 0 { assert Linked(g, walk, i); }
  }

  lemma WalkConcat(g: Graph, w1: seq<Id>, w2: seq<Id>)
    requires IsWalk(g, w1) && IsWalk(g, w2) && w1[|w1| - 1] == w2[0]
    ensures IsWalk(g, w1 + w2[1..])
  {
    var all := w1 + w2[1..];
    forall k | 0 < k < |all| ensures Linked(g, all, k) {
      if k < |w1| {
        assert Linked(g, w1, k);
      } else {
        assert Linked(g, w2, k - |w1| + 1);
      }
    }
  }

  /** From a child incriminated with its parent on the path to the parent. */
  lemma ChildIncriminates(g: Graph, seen: set<Id>, a: Id, b: Id)
    requires Edge(g, a, b) && Incriminated(g, seen + {a}, b)
    ensures Incriminated(g, seen, a)
  {
    var walk :| Incriminates(g, seen + {a}, walk) && walk[0] == b;
    var longer := [a] + walk;
    WalkPrepend(g, a, walk);
    assert longer[|longer| - 1] == walk[|walk| - 1];
    if walk[|walk| - 1] == a {
      assert longer[0] == longer[|longer| - 1];
    } else if Repeats(walk) {
      var i, j :| 0 <= i < j < |walk| && walk[i] == walk[j];
      assert longer[i + 1] == longer[j + 1];
    }
    assert Incriminates(g, seen, longer);
  }

  /** A node not itself at fault is incriminated only through one of its children. */
  lemma IncriminatedThroughChild(g: Graph, seen: set<Id>, a: Id)
    requires a !in seen && a !in g.bad && Incriminated(g, seen, a)
    ensures exists b :: Edge(g, a, b) && Incriminated(g, seen + {a}, b)
  {
    var walk :| Incriminates(g, seen, walk) && walk[0] == a;
    assert |walk| > 1;
    assert Linked(g, walk, 1);
    var tail := walk[1..|walk|];
    WalkSlice(g, walk, 1, |walk|);
    if Repeats(walk) {
      var i, j :| 0 <= i < j < |walk| && walk[i] == walk[j];
      if i == 0 {
        // The first node comes back: cut the walk at its return.
        WalkSlice(g, walk, 1, j + 1);
        assert walk[1..j + 1][j - 1] == a;
        assert Incriminates(g, seen + {a}, walk[1..j + 1]);
      } else {
        assert tail[i - 1] == tail[j - 1];
        assert Incriminates(g, seen + {a}, tail);
      }
    } else {
      assert tail[|tail| - 1] == walk[|walk| - 1];
      assert Incriminates(g, seen + {a}, tail);
    }
  }

  /** The step of the depth-first search. */
  lemma ChildrenDecide(g: Graph, seen: set<Id>, a: Id)
    requires a !in seen && a !in g.bad
    ensures Incriminated(g, seen, a) <==> exists b :: Edge(g, a, b) && Incriminated(g, seen + {a}, b)
  {
    if Incriminated(g, seen, a) {
      IncriminatedThroughChild(g, seen, a);
    }
    forall b | Edge(g, a, b) && Incriminated(g, seen + {a}, b) ensures Incriminated(g, seen, a) {
      ChildIncriminates(g, seen, a, b);
    }
  }

  lemma AtFaultItself(g: Graph, seen: set<Id>, a: Id)
    requires a in g.succ && (a in seen || a in g.bad)
    ensures Incriminated(g, seen, a)
  {
    assert IsWalk(g, [a]);
    assert Incriminates(g, seen, [a]);
  }

  // ---------- What a search from an empty path decides ----------

  lemma FaultFromWalk(g: Graph, root: Id, walk: seq<Id>)
    requires Incriminates(g, {}, walk) && walk[0] == root
    ensures Faulty(g, root)
  {
    if walk[|walk| - 1] in g.bad {
      assert WalkFromTo(g, walk, root, walk[|walk| - 1]);
    } else {
      var i, j :| 0 <= i < j < |walk| && walk[i] == walk[j];
      WalkSlice(g, walk, 0, i + 1);
      WalkSlice(g, walk, i, j + 1);
      var prefix, cycle := walk[0..i + 1], walk[i..j + 1];
      assert prefix[0] == root && prefix[i] == walk[i];
      assert cycle[0] == walk[i] && cycle[j - i] == walk[j];
      assert WalkFromTo(g, prefix, root, walk[i]);
      assert WalkFromTo(g, cycle, walk[i], walk[i]);
      assert Reaches(g, root, walk[i]) && Leads(g, walk[i], walk[i]);
    }
  }

  lemma WalkFromFault(g: Graph, root: Id)
    requires Faulty(g, root)
    ensures Incriminated(g, {}, root)
  {
    var id :| Reaches(g, root, id) && (id in g.bad || Leads(g, id, id));
    var walk :| WalkFromTo(g, walk, root, id);
    if id in g.bad {
      assert Incriminates(g, {}, walk);
    } else {
      var cycle :| WalkFromTo(g, cycle, id, id) && |cycle| > 1;
      WalkConcat(g, walk, cycle);
      var all := walk + cycle[1..];
      assert all[|walk| - 1] == all[|all| - 1];
      assert Incriminates(g, {}, all);
    }
  }

  lemma IncriminatedIsFaulty(g: Graph, root: Id)
    ensures Incriminated(g, {}, root) <==> Faulty(g, root)
  {
    if Incriminated(g, {}, root) {
      var walk :| Incriminates(g, {}, walk) && walk[0] == root;
      FaultFromWalk(g, root, walk);
    }
    if Faulty(g, root) {
      WalkFromFault(g, root);
    }
  }

  // ---------- Comparing two graphs ----------

  lemma LeadsTransitive(g: Graph, a: Id, b: Id, c: Id)
    requires Leads(g, a, b) && Leads(g, b, c)
    ensures Leads(g, a, c)
  {
    var w1 :| WalkFromTo(g, w1, a, b) && |w1| > 1;
    var w2 :| WalkFromTo(g, w2, b, c) && |w2| > 1;
    WalkConcat(g, w1, w2);
    assert WalkFromTo(g, w1 + w2[1..], a, c);
  }

  lemma EdgeLeads(g: Graph, a: Id, b: Id)
    requires Edge(g, a, b)
    ensures Leads(g, a, b)
  {
    assert WalkFromTo(g, [a, b], a, b);
  }

  lemma ReachesOn(g: Graph, root: Id, a: Id, b: Id)
    requires Reaches(g, root, a) && Edge(g, a, b)
    ensures Reaches(g, root, b)
  {
    var walk :| WalkFromTo(g, walk, root, a);
    EdgeLeads(g, a, b);
    var step :| WalkFromTo(g, step, a, b) && |step| > 1;
    WalkConcat(g, walk, step);
    var all := walk + step[1..];
    assert all[|all| - 1] == b;
    assert WalkFromTo(g, all, root, b);
  }

  /** A cycle read from its second node. */
  lemma CycleTurned(g: Graph, id: Id) returns (x: Id)
    requires Leads(g, id, id)
    ensures Edge(g, id, x) && Leads(g, x, x)
  {
    var cycle :| WalkFromTo(g, cycle, id, id) && |cycle| > 1;
    x := cycle[1];
    assert Linked(g, cycle, 1);
    if |cycle| > 2 {
      var rest := cycle[1..|cycle|];
      WalkSlice(g, cycle, 1, |cycle|);
      assert rest[0] == x && rest[|rest| - 1] == id;
      assert WalkFromTo(g, rest, x, id);
      EdgeLeads(g, id, x);
      LeadsTransitive(g, x, id, x);
    }
  }

  /** Every edge of g can be followed in g2. */
  ghost predicate Simulates(g: Graph, g2: Graph) {
    g.succ.Keys <= g2.succ.Keys && forall a, b :: Edge(g, a, b) ==> Leads(g2, a, b)
  }

  lemma {:induction false} WalkSimulated(g: Graph, g2: Graph, walk: seq<Id>)
    requires Simulates(g, g2) && IsWalk(g, walk) && |walk| > 1
    ensures Leads(g2, walk[0], walk[|walk| - 1])
    decreases |walk|
  {
    var n := |walk| - 1;
    assert Linked(g, walk, n);
    if n == 1 {
    } else {
      WalkSlice(g, walk, 0, n);
      WalkSimulated(g, g2, walk[0..n]);
      LeadsTransitive(g2, walk[0], walk[n - 1], walk[n]);
    }
  }

  lemma FaultySimulated(g: Graph, g2: Graph, root: Id)
    requires Simulates(g, g2) && g.bad <= g2.bad && Faulty(g, root)
    ensures Faulty(g2, root)
  {
    var id :| Reaches(g, root, id) && (id in g.bad || Leads(g, id, id));
    var walk :| WalkFromTo(g, walk, root, id);
    if |walk| > 1 {
      WalkSimulated(g, g2, walk);
    } else {
      assert WalkFromTo(g2, [root], root, id);
    }
    if id !in g.bad {
      var cycle :| WalkFromTo(g, cycle, id, id) && |cycle| > 1;
      WalkSimulated(g, g2, cycle);
    }
    assert Reaches(g2, root, id);
  }

  // ---------- Parts of a graph ----------

  /** From nodes of the part, g2 leads only along edges of g and only to nodes of the part. */
  ghost predicate Confined(g: Graph, g2: Graph, part: set<Id>) {
    && part <= g.succ.Keys
    && (forall a, b :: a in part && Edge(g2, a, b) ==> b in part && Edge(g, a, b))
    && (forall a :: a in part && a in g2.bad ==> a in g.bad)
  }

  lemma {:induction false} ConfinedWalk(g: Graph, g2: Graph, part: set<Id>, walk: seq<Id>)
    requires Confined(g, g2, part) && IsWalk(g2, walk) && walk[0] in part
    ensures IsWalk(g, walk) && walk[|walk| - 1] in part
  {
    var n := |walk| - 1;
    if n == 0 {
    } else {
      WalkSlice(g2, walk, 0, n);
      ConfinedWalk(g, g2, part, walk[0..n]);
      assert Linked(g2, walk, n);
      forall k | 0 < k < |walk| ensures Linked(g, walk, k) {
        assert k < n ==> Linked(g, walk[0..n], k);
      }
    }
  }

  lemma ConfinedFault(g: Graph, g2: Graph, part: set<Id>, root: Id)
    requires Confined(g, g2, part) && root in part && Faulty(g2, root)
    ensures Faulty(g, root)
  {
    var id :| Reaches(g2, root, id) && (id in g2.bad || Leads(g2, id, id));
    var walk :| WalkFromTo(g2, walk, root, id);
    ConfinedWalk(g, g2, part, walk);
    assert WalkFromTo(g, walk, root, id);
    if id !in g2.bad {
      var cycle :| WalkFromTo(g2, cycle, id, id) && |cycle| > 1;
      ConfinedWalk(g, g2, part, cycle);
      assert WalkFromTo(g, cycle, id, id);
      assert Leads(g, id, id);
    }
    assert Reaches(g, root, id) && (id in g.bad || Leads(g, id, id));
  }
}
