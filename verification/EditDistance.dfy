/**
 The mathematics of unit-cost edit distance, shared by the two implementations in `Alignment`.

 `Distance` is the recurrence both implementations fill in.  It is related to two definitions
 that do not mention the recurrence: index-based edit scripts (`IsScript`), and chains of
 single-token edits (`OneEdit`).  It is minimal for both, and it is a metric.
 */
module EditDistance {
  import opened Arithmetic

  function Mismatch<T(==)>(a: T, b: T): nat {
    if a == b then 0 else 1
  }

  function Init<T>(s: seq<T>): seq<T>
    requires |s| > 0
  {
    s[..|s| - 1]
  }

  function Last<T>(s: seq<T>): T
    requires |s| > 0
  {
    s[|s| - 1]
  }

  /** The value of cell (|s|, |t|) of the cost matrix. */
  function Distance<T(==)>(s: seq<T>, t: seq<T>): nat
    decreases |s| + |t|
  {
    if |s| == 0 then |t|
    else if |t| == 0 then |s|
    else
      Min(Distance(Init(s), Init(t)) + Mismatch(Last(s), Last(t)),
          Min(Distance(Init(s), t) + 1, Distance(s, Init(t)) + 1))
  }

  // ---------- Distance is a metric ----------

  lemma {:induction false} DistanceBounds<T>(s: seq<T>, t: seq<T>)
    ensures |s| - |t| <= Distance(s, t)
    ensures |t| - |s| <= Distance(s, t)
    ensures Distance(s, t) <= if |s| <= |t| then |t| else |s|
    decreases |s| + |t|
  {
    if s == [] || t == [] {
    } else {
      DistanceBounds(Init(s), Init(t));
      DistanceBounds(Init(s), t);
      DistanceBounds(s, Init(t));
    }
  }

  lemma {:induction false} DistanceSymmetric<T>(s: seq<T>, t: seq<T>)
    ensures Distance(s, t) == Distance(t, s)
    decreases |s| + |t|
  {
    if s == [] || t == [] {
    } else {
      DistanceSymmetric(Init(s), Init(t));
      DistanceSymmetric(Init(s), t);
      DistanceSymmetric(s, Init(t));
    }
  }

  lemma {:induction false} DistanceZeroIffEqual<T>(s: seq<T>, t: seq<T>)
    ensures Distance(s, t) == 0 <==> s == t
    decreases |s| + |t|
  {
    if s == [] || t == [] {
    } else {
      DistanceZeroIffEqual(Init(s), Init(t));
      assert s == Init(s) + [Last(s)];
      assert t == Init(t) + [Last(t)];
    }
  }

  lemma {:induction false} TriangleInequality<T>(s: seq<T>, t: seq<T>, u: seq<T>)
    ensures Distance(s, u) <= Distance(s, t) + Distance(t, u)
    decreases |s| + |t| + |u|
  {
    DistanceBounds(s, t);
    DistanceBounds(t, u);
    DistanceBounds(s, u);
    if s == [] || t == [] || u == [] {
    } else {
      var s', t', u' := Init(s), Init(t), Init(u);
      TriangleInequality(s', t, u);
      TriangleInequality(s, t, u');
      TriangleInequality(s, t', u);
      TriangleInequality(s, t', u');
      TriangleInequality(s', t', u);
      TriangleInequality(s', t', u');
    }
  }

  // ---------- Distance counts single-token edits ----------

  ghost predicate Deletes<T>(x: seq<T>, y: seq<T>) {
    exists k :: 0 <= k < |x| && y == x[..k] + x[k + 1..]
  }

  ghost predicate Substitutes<T>(x: seq<T>, y: seq<T>) {
    |x| == |y| && exists k :: 0 <= k < |x| && y == x[..k] + [y[k]] + x[k + 1..]
  }

  /** y comes from x by deleting, inserting or replacing one token at any position. */
  ghost predicate OneEdit<T>(x: seq<T>, y: seq<T>) {
    Deletes(x, y) || Deletes(y, x) || Substitutes(x, y)
  }

  ghost predicate IsChain<T>(chain: seq<seq<T>>, s: seq<T>, t: seq<T>) {
    && chain != []
    && chain[0] == s
    && Last(chain) == t
    && forall i :: 0 < i < |chain| ==> OneEdit(chain[i - 1], chain[i])
  }

  lemma {:induction false} DistanceSameTail<T>(s: seq<T>, t: seq<T>, tail: seq<T>)
    ensures Distance(s + tail, t + tail) <= Distance(s, t)
    decreases |tail|
  {
    if tail == [] {
      assert s + tail == s && t + tail == t;
    } else {
      DistanceSameTail(s, t, Init(tail));
      assert Init(s + tail) == s + Init(tail);
      assert Init(t + tail) == t + Init(tail);
    }
  }

  lemma LastTokenDropped<T>(s: seq<T>)
    requires |s| > 0
    ensures Distance(s, Init(s)) <= 1
  {
    DistanceZeroIffEqual(Init(s), Init(s));
  }

  lemma LastTokenReplaced<T>(s: seq<T>, t: seq<T>)
    requires |s| > 0 && |t| > 0 && Init(s) == Init(t)
    ensures Distance(s, t) <= 1
  {
    DistanceZeroIffEqual(Init(s), Init(t));
  }

  lemma DeletionCostsOne<T>(x: seq<T>, y: seq<T>)
    requires Deletes(x, y)
    ensures Distance(x, y) <= 1
  {
    var k :| 0 <= k < |x| && y == x[..k] + x[k + 1..];
    var p, tail := x[..k], x[k + 1..];
    assert x == p + [x[k]] + tail;
    assert Init(p + [x[k]]) == p;
    LastTokenDropped(p + [x[k]]);
    DistanceSameTail(p + [x[k]], p, tail);
  }

  lemma SubstitutionCostsOne<T>(x: seq<T>, y: seq<T>)
    requires Substitutes(x, y)
    ensures Distance(x, y) <= 1
  {
    hide Distance;
    var k :| 0 <= k < |x| && y == x[..k] + [y[k]] + x[k + 1..];
    var p, tail := x[..k], x[k + 1..];
    assert x == p + [x[k]] + tail;
    LastTokenReplaced(p + [x[k]], p + [y[k]]);
    DistanceSameTail(p + [x[k]], p + [y[k]], tail);
  }

  lemma OneEditCostsOne<T>(x: seq<T>, y: seq<T>)
    requires OneEdit(x, y)
    ensures Distance(x, y) <= 1
  {
    DistanceSymmetric(x, y);
    if Deletes(x, y) {
      DeletionCostsOne(x, y);
    } else if Deletes(y, x) {
      DeletionCostsOne(y, x);
    } else {
      SubstitutionCostsOne(x, y);
    }
  }

  /** No sequence of single edits from s to t is shorter than Distance(s, t). */
  lemma {:induction false} ChainCostsAtLeastDistance<T>(chain: seq<seq<T>>, s: seq<T>, t: seq<T>)
    requires IsChain(chain, s, t)
    ensures Distance(s, t) <= |chain| - 1
    decreases |chain|
  {
    if |chain| == 1 {
      DistanceZeroIffEqual(s, t);
    } else {
      var shorter := Init(chain);
      ChainCostsAtLeastDistance(shorter, s, Last(shorter));
      assert OneEdit(chain[|chain| - 2], chain[|chain| - 1]);
      OneEditCostsOne(Last(shorter), t);
      TriangleInequality(s, Last(shorter), t);
    }
  }

  /** Appends one token to every text of a chain. */
  ghost function Suffixed<T>(chain: seq<seq<T>>, x: T): (r: seq<seq<T>>)
    ensures |r| == |chain|
  {
    seq(|chain|, i requires 0 <= i < |chain| => chain[i] + [x])
  }

  lemma OneEditSuffixed<T>(a: seq<T>, b: seq<T>, x: T)
    requires OneEdit(a, b)
    ensures OneEdit(a + [x], b + [x])
  {
    if Deletes(a, b) {
      DeletesSuffixed(a, b, x);
    } else if Deletes(b, a) {
      DeletesSuffixed(b, a, x);
    } else {
      var k :| 0 <= k < |a| && b == a[..k] + [b[k]] + a[k + 1..];
      assert b + [x] == (a + [x])[..k] + [(b + [x])[k]] + (a + [x])[k + 1..];
    }
  }

  lemma DeletesSuffixed<T>(a: seq<T>, b: seq<T>, x: T)
    requires Deletes(a, b)
    ensures Deletes(a + [x], b + [x])
  {
    var k :| 0 <= k < |a| && b == a[..k] + a[k + 1..];
    assert b + [x] == (a + [x])[..k] + (a + [x])[k + 1..];
  }

  lemma SuffixedIsChain<T>(chain: seq<seq<T>>, s: seq<T>, t: seq<T>, x: T)
    requires IsChain(chain, s, t)
    ensures IsChain(Suffixed(chain, x), s + [x], t + [x])
  {
    var longer := Suffixed(chain, x);
    forall i | 0 < i < |longer| ensures OneEdit(longer[i - 1], longer[i]) {
      OneEditSuffixed(chain[i - 1], chain[i], x);
    }
  }

  lemma AppendToChain<T>(chain: seq<seq<T>>, s: seq<T>, t: seq<T>, next: seq<T>)
    requires IsChain(chain, s, t) && OneEdit(t, next)
    ensures IsChain(chain + [next], s, next)
  {
  }

  lemma PrependToChain<T>(first: seq<T>, chain: seq<seq<T>>, s: seq<T>, t: seq<T>)
    requires IsChain(chain, s, t) && OneEdit(first, s)
    ensures IsChain([first] + chain, first, t)
  {
  }

  lemma InitIsDeletion<T>(s: seq<T>)
    requires |s| > 0
    ensures Deletes(s, Init(s))
  {
    assert Init(s) == s[..|s| - 1] + s[|s|..];
  }

  /** From a chain between the texts without their last tokens to one between the texts. */
  lemma LiftChain<T>(short: seq<seq<T>>, s: seq<T>, t: seq<T>) returns (chain: seq<seq<T>>)
    requires |s| > 0 && |t| > 0
    requires IsChain(short, Init(s), Init(t))
    ensures IsChain(chain, s, t)
    ensures |chain| == |short| + Mismatch(Last(s), Last(t))
  {
    var x := Last(s);
    SuffixedIsChain(short, Init(s), Init(t), x);
    assert s == Init(s) + [x];
    chain := Suffixed(short, x);
    var mid := Init(t) + [x];
    if x == Last(t) {
      assert t == mid;
    } else {
      assert t == mid[..|t| - 1] + [t[|t| - 1]] + mid[|t|..];
      AppendToChain(chain, s, mid, t);
      chain := chain + [t];
    }
  }

  /** Some sequence of exactly Distance(s, t) single edits leads from s to t. */
  lemma {:induction false} ShortestChain<T>(s: seq<T>, t: seq<T>) returns (chain: seq<seq<T>>)
    ensures IsChain(chain, s, t)
    ensures |chain| - 1 == Distance(s, t)
    decreases |s| + |t|
  {
    if |s| == 0 && |t| == 0 {
      chain := [s];
    } else if |s| == 0 || (|t| > 0 && Distance(s, t) == Distance(s, Init(t)) + 1) {
      chain := ShortestChain(s, Init(t));
      InitIsDeletion(t);
      AppendToChain(chain, s, Init(t), t);
      chain := chain + [t];
    } else if |t| == 0 || Distance(s, t) == Distance(Init(s), t) + 1 {
      chain := ShortestChain(Init(s), t);
      InitIsDeletion(s);
      PrependToChain(s, chain, Init(s), t);
      chain := [s] + chain;
    } else {
      chain := ShortestChain(Init(s), Init(t));
      chain := LiftChain(chain, s, t);
    }
  }
}
