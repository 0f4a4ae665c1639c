/**
 * Per-key occurrence counts, as the analyser keeps them in a
 * `defaultdict(int)`: reading a missing key gives 0, recording a key adds
 * one to its count. `Tally` is the count map that recording a sequence of
 * keys one after another builds.
 */
module Counting {

  /** `counts[key]` on a `defaultdict(int)`: 0 for a key never recorded. */
  function Count(counts: map<string, nat>, key: string): (n: nat)
    ensures key !in counts ==> n == 0
    ensures key in counts ==> n == counts[key]
  {
    if key in counts then counts[key] else 0
  }

  /** `counts[key] += 1` on a `defaultdict(int)`. */
  function Increment(counts: map<string, nat>, key: string): (r: map<string, nat>)
    ensures r.Keys == counts.Keys + {key}
    ensures r[key] == Count(counts, key) + 1
    ensures forall k :: k in counts && k != key ==> r[k] == counts[k]
  {
    counts[key := Count(counts, key) + 1]
  }

  /** The counts left by recording `keys` in order, starting from nothing. */
  function Tally(keys: seq<string>): map<string, nat>
    decreases |keys|
  {
    if keys == [] then map[] else Increment(Tally(keys[..|keys| - 1]), keys[|keys| - 1])
  }

  /** Each count is the number of times its key was recorded. */
  lemma {:induction false} TallyIsMultiplicity(keys: seq<string>, k: string)
    ensures Count(Tally(keys), k) == multiset(keys)[k]
    decreases |keys|
  {
    if keys != [] {
      var init, last := keys[..|keys| - 1], keys[|keys| - 1];
      assert keys == init + [last];
      TallyIsMultiplicity(init, k);
    }
  }

  /** Recording one more key adds it to the tally. */
  lemma TallyAppend(keys: seq<string>, key: string)
    ensures Tally(keys + [key]) == Increment(Tally(keys), key)
  {
    assert (keys + [key])[..|keys|] == keys;
  }

  /** The sum of all counts in a map. */
  ghost function MapSum(counts: map<string, nat>): nat
    decreases |counts|
  {
    if counts == map[] then 0
    else
      var k :| k in counts;
      counts[k] + MapSum(counts - {k})
  }

  /** The sum does not depend on which key is taken out first. */
  lemma {:induction false} MapSumRemove(counts: map<string, nat>, k: string)
    requires k in counts
    ensures MapSum(counts) == counts[k] + MapSum(counts - {k})
    decreases |counts|
  {
    var j :| j in counts && MapSum(counts) == counts[j] + MapSum(counts - {j});
    if j != k {
      assert |counts - {j}| < |counts| by {
        assert counts.Keys - {j} == (counts - {j}).Keys;
      }
      assert |counts - {k}| < |counts| by {
        assert counts.Keys - {k} == (counts - {k}).Keys;
      }
      MapSumRemove(counts - {j}, k);
      MapSumRemove(counts - {k}, j);
      assert counts - {j} - {k} == counts - {k} - {j};
    }
  }

  /** Recording a key raises the sum of the counts by one. */
  lemma MapSumIncrement(counts: map<string, nat>, key: string)
    ensures MapSum(Increment(counts, key)) == MapSum(counts) + 1
  {
    var r := Increment(counts, key);
    MapSumRemove(r, key);
    if key in counts {
      MapSumRemove(counts, key);
      assert r - {key} == counts - {key};
    } else {
      assert r - {key} == counts;
    }
  }

  /** The counts of a tally add up to the number of keys recorded. */
  lemma {:induction false} TallySum(keys: seq<string>)
    ensures MapSum(Tally(keys)) == |keys|
    decreases |keys|
  {
    if keys != [] {
      TallySum(keys[..|keys| - 1]);
      MapSumIncrement(Tally(keys[..|keys| - 1]), keys[|keys| - 1]);
    }
  }

  /** There are never more distinct keys than keys recorded, and at least one once anything is. */
  lemma {:induction false} TallySize(keys: seq<string>)
    ensures |Tally(keys)| <= |keys|
    ensures keys != [] ==> 1 <= |Tally(keys)|
    decreases |keys|
  {
    if keys != [] {
      var init, last := keys[..|keys| - 1], keys[|keys| - 1];
      TallySize(init);
      var before := Tally(init);
      var after := Tally(keys);
      assert after.Keys == before.Keys + {last};
      assert |after.Keys| <= |before.Keys| + 1 by {
        assert |before.Keys + {last}| <= |before.Keys| + |{last}|;
      }
      assert last in after;
      assert |after.Keys| >= 1 by {
        assert {last} <= after.Keys;
      }
    }
  }
}
