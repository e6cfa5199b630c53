/** Python's `sorted`, distinct sequences, and slices with Python's negative bounds. */
module Sorting {

  function Insert<T>(x: T, s: seq<T>, le: (T, T) -> bool): seq<T> {
    if s == [] then [x]
    else if le(x, s[0]) then [x] + s
    else [s[0]] + Insert(x, s[1..], le)
  }

  function Sort<T>(s: seq<T>, le: (T, T) -> bool): seq<T> {
    if s == [] then [] else Insert(s[0], Sort(s[1..], le), le)
  }

  ghost predicate TotalOrder<T(!new)>(le: (T, T) -> bool) {
    && (forall x, y :: le(x, y) || le(y, x))
    && (forall x, y, z :: le(x, y) && le(y, z) ==> le(x, z))
  }

  predicate SortedBy<T>(s: seq<T>, le: (T, T) -> bool) {
    forall i, j :: 0 <= i < j < |s| ==> le(s[i], s[j])
  }

  predicate Ascending(s: seq<real>) {
    forall i, j :: 0 <= i < j < |s| ==> s[i] <= s[j]
  }

  predicate Increasing(s: seq<int>) {
    forall i, j :: 0 <= i < j < |s| ==> s[i] < s[j]
  }

  lemma {:induction false} InsertPermutes<T>(x: T, s: seq<T>, le: (T, T) -> bool)
    ensures multiset(Insert(x, s, le)) == multiset{x} + multiset(s)
  {
    if s == [] || le(x, s[0]) {
    } else {
      InsertPermutes(x, s[1..], le);
      assert s == [s[0]] + s[1..];
    }
  }

  lemma {:induction false} SortPermutes<T>(s: seq<T>, le: (T, T) -> bool)
    ensures multiset(Sort(s, le)) == multiset(s)
    ensures |Sort(s, le)| == |s|
  {
    if s == [] {
    } else {
      SortPermutes(s[1..], le);
      InsertPermutes(s[0], Sort(s[1..], le), le);
      assert s == [s[0]] + s[1..];
    }
    assert |multiset(Sort(s, le))| == |multiset(s)|;
  }

  lemma {:induction false} InsertSorts<T(!new)>(x: T, s: seq<T>, le: (T, T) -> bool)
    requires TotalOrder(le) && SortedBy(s, le)
    ensures SortedBy(Insert(x, s, le), le)
  {
    if s == [] || le(x, s[0]) {
    } else {
      InsertSorts(x, s[1..], le);
      InsertPermutes(x, s[1..], le);
      var rest := Insert(x, s[1..], le);
      forall k | 0 <= k < |rest| ensures le(s[0], rest[k]) {
        assert rest[k] in multiset(rest);
        assert rest[k] == x || rest[k] in s[1..];
      }
    }
  }

  lemma {:induction false} SortSorts<T(!new)>(s: seq<T>, le: (T, T) -> bool)
    requires TotalOrder(le)
    ensures SortedBy(Sort(s, le), le)
  {
    if s == [] {
    } else {
      SortSorts(s[1..], le);
      InsertSorts(s[0], Sort(s[1..], le), le);
    }
  }

  lemma SortMembers<T>(s: seq<T>, le: (T, T) -> bool)
    ensures forall x :: x in Sort(s, le) <==> x in s
  {
    SortPermutes(s, le);
    forall x ensures x in Sort(s, le) <==> x in s {
      assert x in Sort(s, le) <==> x in multiset(Sort(s, le));
      assert x in s <==> x in multiset(s);
    }
  }

  // ---------- Distinct sequences ----------

  predicate Distinct<T(==)>(s: seq<T>) {
    forall i, j :: 0 <= i < j < |s| ==> s[i] != s[j]
  }

  lemma DistinctAppend<T>(s: seq<T>, x: T)
    requires Distinct(s) && x !in s
    ensures Distinct(s + [x])
  {
  }

  function ToSet<T(==)>(s: seq<T>): set<T> {
    set x | x in s
  }

  lemma {:induction false} DistinctSize<T>(s: seq<T>)
    requires Distinct(s)
    ensures |ToSet(s)| == |s|
  {
    if s == [] {
    } else {
      var n := |s| - 1;
      DistinctSize(s[..n]);
      assert ToSet(s) == ToSet(s[..n]) + {s[n]};
      assert s[n] !in ToSet(s[..n]);
    }
  }

  lemma {:induction false} SubsetSize<T>(a: set<T>, b: set<T>)
    requires a <= b
    ensures |a| <= |b|
    ensures |a| == |b| ==> a == b
  {
    if a == {} {
    } else {
      var x :| x in a;
      SubsetSize(a - {x}, b - {x});
    }
  }

  /** A distinct selection from a distinct pool is no longer than it, and as long only if it
      takes everything. */
  lemma DistinctWithin<T>(a: seq<T>, pool: seq<T>)
    requires Distinct(a) && Distinct(pool) && forall x :: x in a ==> x in pool
    ensures |a| <= |pool|
    ensures (forall x :: x in pool ==> x in a) ==> |a| == |pool|
  {
    DistinctSize(a);
    DistinctSize(pool);
    SubsetSize(ToSet(a), ToSet(pool));
    if forall x :: x in pool ==> x in a {
      assert ToSet(a) == ToSet(pool);
    }
  }

  lemma {:induction false} DistinctIsSimple<T>(s: seq<T>)
    ensures Distinct(s) <==> forall x :: x in multiset(s) ==> multiset(s)[x] == 1
  {
    if s == [] {
    } else {
      var n := |s| - 1;
      var before := s[..n];
      DistinctIsSimple(before);
      assert s == before + [s[n]];
      assert multiset(s) == multiset(before) + multiset{s[n]};
      if Distinct(s) {
        forall i, j | 0 <= i < j < n ensures before[i] != before[j] { assert s[i] != s[j]; }
        assert s[n] !in before;
        forall x | x in multiset(s) ensures multiset(s)[x] == 1 {
          assert x in multiset(before) ==> multiset(before)[x] == 1;
          assert s[n] !in multiset(before);
        }
      }
      if forall x :: x in multiset(s) ==> multiset(s)[x] == 1 {
        forall x | x in multiset(before) ensures multiset(before)[x] == 1 {
          assert x in multiset(s);
        }
        assert s[n] in multiset(s);
        assert s[n] !in multiset(before);
        forall i, j | 0 <= i < j < |s| ensures s[i] != s[j] {
          if j < n {
            assert before[i] != before[j];
          } else {
            assert before[i] in multiset(before);
          }
        }
      }
    }
  }

  // ---------- Slices ----------

  /** `s[:k]`. */
  function Take<T>(s: seq<T>, k: int): seq<T> {
    if k >= |s| then s
    else if k >= 0 then s[..k]
    else if |s| + k >= 0 then s[..|s| + k]
    else []
  }

  /** `s[k:]` for k >= 0. */
  function Drop<T>(s: seq<T>, k: nat): seq<T> {
    if k >= |s| then [] else s[k..]
  }
}
