/**
 * The `counts[key] = (counts[key] || 0) + 1` idiom of the statistics
 * loops, and the totals it keeps.
 */
module Counts {

  /** One more occurrence of `k`. */
  function Incr<K(==)>(m: map<K, nat>, k: K): (r: map<K, nat>)
    ensures r.Keys == m.Keys + {k}
    ensures r[k] == (if k in m then m[k] else 0) + 1
    ensures forall j | j in m && j != k :: r[j] == m[j]
  {
    m[k := (if k in m then m[k] else 0) + 1]
  }

  /** The counts of a sequence of keys, added one after the other. */
  function Tally<K(==)>(keys: seq<K>): (r: map<K, nat>)
    ensures r.Keys == set k | k in keys
  {
    if |keys| == 0 then map[]
    else
      var init := keys[..|keys| - 1];
      assert keys == init + [keys[|keys| - 1]];
      Incr(Tally(init), keys[|keys| - 1])
  }

  lemma TallySnoc<K>(keys: seq<K>, k: K)
    ensures Tally(keys + [k]) == Incr(Tally(keys), k)
  {
    assert (keys + [k])[..|keys|] == keys;
  }

  /** How often `k` occurs in `keys`. */
  function Occurrences<K(==)>(keys: seq<K>, k: K): (n: nat)
    ensures n <= |keys|
    ensures n == 0 <==> k !in keys
  {
    if |keys| == 0 then 0
    else
      var init := keys[..|keys| - 1];
      assert keys == init + [keys[|keys| - 1]];
      Occurrences(init, k) + (if keys[|keys| - 1] == k then 1 else 0)
  }

  /** Each count is the number of occurrences of its key. */
  lemma {:induction false} TallyCounts<K>(keys: seq<K>, k: K)
    requires k in keys
    ensures Tally(keys)[k] == Occurrences(keys, k)
  {
    var init := keys[..|keys| - 1];
    assert keys == init + [keys[|keys| - 1]];
    if k in init {
      TallyCounts(init, k);
    }
  }

  /** The sum of the counts. */
  ghost function MapSum<K>(m: map<K, nat>): nat
    decreases |m.Keys|
  {
    if |m.Keys| == 0 then 0
    else
      var k :| k in m.Keys;
      m[k] + MapSum(m - {k})
  }

  /** The sum may be taken from any key first. */
  lemma {:induction false} MapSumRemove<K>(m: map<K, nat>, k: K)
    requires k in m
    ensures MapSum(m) == m[k] + MapSum(m - {k})
    decreases |m.Keys|, 1
  {
    var j := MapSumFirst(m);
    if j != k {
      MapSumSwap(m, j, k);
    }
  }

  /** The key the sum takes first. */
  lemma MapSumFirst<K>(m: map<K, nat>) returns (j: K)
    requires |m.Keys| > 0
    ensures j in m && MapSum(m) == m[j] + MapSum(m - {j})
  {
    j :| j in m.Keys && MapSum(m) == m[j] + MapSum(m - {j});
  }

  /** Taking `j` first or `k` first gives the same sum. */
  lemma {:induction false} MapSumSwap<K>(m: map<K, nat>, j: K, k: K)
    requires j in m && k in m && j != k
    requires MapSum(m) == m[j] + MapSum(m - {j})
    ensures MapSum(m) == m[k] + MapSum(m - {k})
    decreases |m.Keys|, 0
  {
    assert (m - {j}).Keys == m.Keys - {j};
    assert (m - {k}).Keys == m.Keys - {k};
    MapSumRemove(m - {j}, k);
    MapSumRemove(m - {k}, j);
    assert (m - {j}) - {k} == (m - {k}) - {j};
  }

  /** Counting one more occurrence adds one to the sum. */
  lemma MapSumIncr<K>(m: map<K, nat>, k: K)
    ensures MapSum(Incr(m, k)) == MapSum(m) + 1
  {
    var r := Incr(m, k);
    MapSumRemove(r, k);
    if k in m {
      MapSumRemove(m, k);
      assert r - {k} == m - {k};
    } else {
      assert r - {k} == m;
    }
  }

  /** The counts of a tally add up to the number of keys. */
  lemma {:induction false} TallySum<K>(keys: seq<K>)
    ensures MapSum(Tally(keys)) == |keys|
  {
    if |keys| > 0 {
      var init := keys[..|keys| - 1];
      TallySum(init);
      MapSumIncr(Tally(init), keys[|keys| - 1]);
    }
  }
}
