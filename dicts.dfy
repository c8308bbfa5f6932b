/**
  Python's `dict(pairs)` and repeated `d[k] = v`: a sequence of key/value
  pairs read left to right, a later pair replacing an earlier one with the
  same key.  Every "last write wins" policy of the scripts reduces to this.
*/
module Dicts {

  function FromPairs<K(==), V>(ps: seq<(K, V)>): (m: map<K, V>)
    ensures m.Keys == set i | 0 <= i < |ps| :: ps[i].0
    decreases |ps|
  {
    if ps == [] then map[]
    else FromPairs(ps[..|ps| - 1])[ps[|ps| - 1].0 := ps[|ps| - 1].1]
  }

  /** `i` is the position of the last pair whose key is `k`. */
  predicate IsLastWith<K(==), V>(ps: seq<(K, V)>, k: K, i: int)
  {
    0 <= i < |ps| && ps[i].0 == k && forall j | i < j < |ps| :: ps[j].0 != k
  }

  /** The value kept for a key is the one of its last pair. */
  lemma {:induction false} FromPairsLastWins<K, V>(ps: seq<(K, V)>, k: K, i: int)
    requires IsLastWith(ps, k, i)
    ensures k in FromPairs(ps) && FromPairs(ps)[k] == ps[i].1
    decreases |ps|
  {
    if i < |ps| - 1 {
      FromPairsLastWins(ps[..|ps| - 1], k, i);
    }
  }

  /** Every key present has a last pair. */
  lemma LastWithExists<K, V>(ps: seq<(K, V)>, k: K) returns (i: int)
    requires exists j | 0 <= j < |ps| :: ps[j].0 == k
    ensures IsLastWith(ps, k, i)
    decreases |ps|
  {
    if ps[|ps| - 1].0 == k {
      i := |ps| - 1;
    } else {
      i := LastWithExists(ps[..|ps| - 1], k);
    }
  }

  /** Extending the pairs is a right-biased union of the two dictionaries. */
  lemma {:induction false} FromPairsAppend<K, V>(a: seq<(K, V)>, b: seq<(K, V)>)
    ensures FromPairs(a + b) == FromPairs(a) + FromPairs(b)
    decreases |b|
  {
    if b == [] {
      assert a + b == a;
    } else {
      assert (a + b)[..|a + b| - 1] == a + b[..|b| - 1];
      FromPairsAppend(a, b[..|b| - 1]);
    }
  }

  predicate DistinctKeys<K(==), V>(ps: seq<(K, V)>)
  {
    forall i, j | 0 <= i < j < |ps| :: ps[i].0 != ps[j].0
  }

  /** Without repeated keys nothing is overwritten: one entry per pair. */
  lemma {:induction false} FromPairsDistinctSize<K, V>(ps: seq<(K, V)>)
    requires DistinctKeys(ps)
    ensures |FromPairs(ps)| == |ps|
    decreases |ps|
  {
    if ps != [] {
      var init := ps[..|ps| - 1];
      FromPairsDistinctSize(init);
      assert ps[|ps| - 1].0 !in FromPairs(init);
    }
  }
}
