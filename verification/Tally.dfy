/** Counting with a dictionary: the `counts[key] = counts.get(key, 0) + 1` idiom. */
module Tally {

  function Get<K(==)>(counts: map<K, nat>, key: K): nat {
    if key in counts then counts[key] else 0
  }

  function Bump<K(==)>(counts: map<K, nat>, key: K): map<K, nat> {
    counts[key := Get(counts, key) + 1]
  }

  /** The dictionary after counting every key of a sequence into it. */
  function TallyInto<K(==)>(counts: map<K, nat>, keys: seq<K>): map<K, nat> {
    if keys == [] then counts
    else Bump(TallyInto(counts, keys[..|keys| - 1]), keys[|keys| - 1])
  }

  /** The sum of a dictionary's values. */
  ghost function Sum<K>(counts: map<K, nat>): nat {
    if counts == map[] then 0
    else
      var k :| k in counts;
      counts[k] + Sum(counts - {k})
  }

  lemma {:induction false} SumWithout<K>(counts: map<K, nat>, key: K)
    requires key in counts
    ensures Sum(counts) == counts[key] + Sum(counts - {key})
    decreases |counts|
  {
    var k :| k in counts && Sum(counts) == counts[k] + Sum(counts - {k});
    if k == key {
    } else {
      SumWithout(counts - {k}, key);
      SumWithout(counts - {key}, k);
      assert counts - {k} - {key} == counts - {key} - {k};
    }
  }

  lemma SumBump<K>(counts: map<K, nat>, key: K)
    ensures Sum(Bump(counts, key)) == Sum(counts) + 1
  {
    SumWithout(Bump(counts, key), key);
    if key in counts {
      SumWithout(counts, key);
      assert Bump(counts, key) - {key} == counts - {key};
    } else {
      assert Bump(counts, key) - {key} == counts;
    }
  }

  lemma TallyOne<K>(counts: map<K, nat>, keys: seq<K>, key: K)
    ensures TallyInto(counts, keys + [key]) == Bump(TallyInto(counts, keys), key)
  {
    assert (keys + [key])[..|keys|] == keys;
  }

  /** Counting loses nothing and invents nothing. */
  lemma {:induction false} TallySum<K>(counts: map<K, nat>, keys: seq<K>)
    ensures Sum(TallyInto(counts, keys)) == Sum(counts) + |keys|
    decreases |keys|
  {
    if keys == [] {
    } else {
      TallySum(counts, keys[..|keys| - 1]);
      SumBump(TallyInto(counts, keys[..|keys| - 1]), keys[|keys| - 1]);
    }
  }

  /** Each value is the multiplicity of its key. */
  lemma {:induction false} TallyCountsOccurrences<K>(counts: map<K, nat>, keys: seq<K>, key: K)
    ensures Get(TallyInto(counts, keys), key) == Get(counts, key) + multiset(keys)[key]
    ensures key in TallyInto(counts, keys) <==> key in counts || key in keys
    decreases |keys|
  {
    if keys == [] {
    } else {
      TallyCountsOccurrences(counts, keys[..|keys| - 1], key);
      assert keys == keys[..|keys| - 1] + [keys[|keys| - 1]];
    }
  }

  lemma {:induction false} TallyAppend<K>(counts: map<K, nat>, keys: seq<K>, more: seq<K>)
    ensures TallyInto(counts, keys + more) == TallyInto(TallyInto(counts, keys), more)
    decreases |more|
  {
    if more == [] {
      assert keys + more == keys;
    } else {
      assert (keys + more)[..|keys + more| - 1] == keys + more[..|more| - 1];
      TallyAppend(counts, keys, more[..|more| - 1]);
    }
  }
}
