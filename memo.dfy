/**
 * The dictionary-backed memoisation both backend classes use: look the key up;
 * on a hit return the stored value, on a miss store the freshly computed value
 * under the key and return it.
 */
module Memo {

  /**
   * One cached call. `computed` is what the wrapped computation would return;
   * on a hit it is ignored (the computation is not run).
   */
  function Step<K, V>(cache: map<K, V>, key: K, computed: V): (r: (map<K, V>, V))
    ensures key in r.0 && r.0[key] == r.1
    ensures key in cache ==> r.0 == cache && r.1 == cache[key]
    ensures key !in cache ==> r.1 == computed && r.0.Keys == cache.Keys + {key}
    ensures forall k :: k in cache ==> k in r.0 && r.0[k] == cache[k]
  {
    if key in cache then (cache, cache[key]) else (cache[key := computed], computed)
  }

  /** A run of cached calls: each call's key and the value its computation would give. */
  function Replay<K, V>(cache: map<K, V>, calls: seq<(K, V)>): (r: (map<K, V>, seq<V>))
    ensures |r.1| == |calls|
    decreases |calls|
  {
    if |calls| == 0 then (cache, [])
    else
      var (c1, v) := Step(cache, calls[0].0, calls[0].1);
      var (c2, vs) := Replay(c1, calls[1..]);
      (c2, [v] + vs)
  }

  /** A run only adds entries: every entry of the starting cache survives unchanged. */
  lemma {:induction false} ReplayKeepsEntries<K, V>(cache: map<K, V>, calls: seq<(K, V)>)
    ensures forall k :: k in cache ==> k in Replay(cache, calls).0 && Replay(cache, calls).0[k] == cache[k]
    decreases |calls|
  {
    if |calls| > 0 {
      var (c1, _) := Step(cache, calls[0].0, calls[0].1);
      ReplayKeepsEntries(c1, calls[1..]);
    }
  }

  /** The keys after a run are the starting keys plus the keys of the calls. */
  lemma {:induction false} ReplayKeys<K, V>(cache: map<K, V>, calls: seq<(K, V)>)
    ensures Replay(cache, calls).0.Keys == cache.Keys + set i | 0 <= i < |calls| :: calls[i].0
    decreases |calls|
  {
    if |calls| > 0 {
      var (c1, _) := Step(cache, calls[0].0, calls[0].1);
      ReplayKeys(c1, calls[1..]);
      var rest := set i | 0 <= i < |calls[1..]| :: calls[1..][i].0;
      var all := set i | 0 <= i < |calls| :: calls[i].0;
      assert all == {calls[0].0} + rest by {
        forall x | x in all ensures x in {calls[0].0} + rest {
          var i :| 0 <= i < |calls| && calls[i].0 == x;
          if i > 0 {
            assert calls[1..][i - 1].0 == x;
          }
        }
      }
    }
  }

  /**
   * Every call of a run returns the value the final cache holds for its key, so
   * two calls with the same key return the same value: the first one computed
   * (or the one already stored before the run).
   */
  lemma {:induction false} ReplayAnswersFromFinalCache<K, V>(cache: map<K, V>, calls: seq<(K, V)>)
    ensures forall i :: 0 <= i < |calls| ==>
      calls[i].0 in Replay(cache, calls).0 && Replay(cache, calls).1[i] == Replay(cache, calls).0[calls[i].0]
    decreases |calls|
  {
    if |calls| > 0 {
      var (c1, v) := Step(cache, calls[0].0, calls[0].1);
      ReplayAnswersFromFinalCache(c1, calls[1..]);
      ReplayKeepsEntries(c1, calls[1..]);
      forall i | 0 <= i < |calls|
        ensures calls[i].0 in Replay(cache, calls).0 && Replay(cache, calls).1[i] == Replay(cache, calls).0[calls[i].0]
      {
        if i > 0 {
          assert calls[i] == calls[1..][i - 1];
        }
      }
    }
  }

  /** Two calls of a run with the same key return the same value. */
  lemma RepeatedKeySameAnswer<K, V>(cache: map<K, V>, calls: seq<(K, V)>, i: nat, j: nat)
    requires i < |calls| && j < |calls| && calls[i].0 == calls[j].0
    ensures Replay(cache, calls).1[i] == Replay(cache, calls).1[j]
  {
    ReplayAnswersFromFinalCache(cache, calls);
  }

  /** The first call with a key absent from the starting cache returns its own computed value. */
  lemma {:induction false} FirstMissComputes<K, V>(cache: map<K, V>, calls: seq<(K, V)>, i: nat)
    requires i < |calls| && calls[i].0 !in cache
    requires forall j :: 0 <= j < i ==> calls[j].0 != calls[i].0
    ensures Replay(cache, calls).1[i] == calls[i].1
    decreases |calls|
  {
    var (c1, v) := Step(cache, calls[0].0, calls[0].1);
    if i > 0 {
      assert calls[i] == calls[1..][i - 1];
      forall j | 0 <= j < i - 1 ensures calls[1..][j].0 != calls[1..][i - 1].0 {
        assert calls[1..][j] == calls[j + 1];
      }
      FirstMissComputes(c1, calls[1..], i - 1);
    }
  }
}
