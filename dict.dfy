/**
 A Python dict built by a comprehension over an ordered sequence of
 key/value pairs: the pairs are inserted in order, so when a key occurs more
 than once the value of its last occurrence is the one kept.
 */
module Dict {

  /** The dict `{k: v for (k, v) in pairs}`. Every key of `pairs` is in it. */
  function FromPairs<K(==), V>(pairs: seq<(K, V)>): (m: map<K, V>)
    ensures forall i :: 0 <= i < |pairs| ==> pairs[i].0 in m
    decreases |pairs|
  {
    if pairs == [] then map[]
    else
      var n := |pairs| - 1;
      assert forall i :: 0 <= i < n ==> pairs[..n][i] == pairs[i];
      FromPairs(pairs[..n])[pairs[n].0 := pairs[n].1]
  }

  /** No pair after position `i` has the key of pair `i`. */
  predicate LastWithKey<K(==), V>(pairs: seq<(K, V)>, i: int)
    requires 0 <= i < |pairs|
  {
    forall j :: i < j < |pairs| ==> pairs[j].0 != pairs[i].0
  }

  /** The last occurrence of a key decides its value. */
  lemma {:induction false} LastWins<K, V>(pairs: seq<(K, V)>, i: int)
    requires 0 <= i < |pairs| && LastWithKey(pairs, i)
    ensures FromPairs(pairs)[pairs[i].0] == pairs[i].1
    decreases |pairs|
  {
    var n := |pairs| - 1;
    if i < n {
      var init := pairs[..n];
      assert init[i] == pairs[i];
      assert LastWithKey(init, i) by {
        forall j | i < j < |init| ensures init[j].0 != init[i].0 { assert init[j] == pairs[j]; }
      }
      LastWins(init, i);
    }
  }

  /** Every entry of the dict comes from the last pair with that key. */
  lemma {:induction false} EntryOf<K, V>(pairs: seq<(K, V)>, k: K) returns (i: nat)
    requires k in FromPairs(pairs)
    ensures i < |pairs| && pairs[i].0 == k && LastWithKey(pairs, i)
    ensures FromPairs(pairs)[k] == pairs[i].1
    decreases |pairs|
  {
    var n := |pairs| - 1;
    if pairs[n].0 == k {
      i := n;
    } else {
      var init := pairs[..n];
      i := EntryOf(init, k);
      assert init[i] == pairs[i];
      forall j | i < j < |pairs| ensures pairs[j].0 != k {
        if j < n { assert init[j] == pairs[j]; }
      }
    }
  }
}
