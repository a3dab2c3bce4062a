/**
 * The `Array#to_h` helper the detector installs: it turns a list of
 * [key, value] pairs into a Hash by storing each pair in turn, so a later
 * pair overwrites the value of an earlier one with the same key while the
 * key keeps the position of its first insertion.
 */
module ArrayToHash {
  import opened Wrappers
  import opened RubyCollections

  /** The hash that storing `pairs[0]`, `pairs[1]`, ... into an empty hash produces. */
  function PairsToHash<K(==,!new), V>(pairs: seq<(K, V)>): (h: Hash<K, V>)
    ensures DistinctKeys(h)
  {
    if pairs == [] then []
    else
      var n := |pairs| - 1;
      var prefix := PairsToHash(pairs[..n]);
      StoreKeepsDistinctKeys(prefix, pairs[n].0, pairs[n].1);
      Store(prefix, pairs[n].0, pairs[n].1)
  }

  /** The loop of `to_h`: `h[e.first] = e.last` for every pair, in order. */
  method ToH<K(==,!new), V>(pairs: seq<(K, V)>) returns (h: Hash<K, V>)
    ensures h == PairsToHash(pairs)
  {
    h := [];
    var i := 0;
    while i < |pairs|
      invariant 0 <= i <= |pairs|
      invariant h == PairsToHash(pairs[..i])
    {
      assert pairs[..i + 1][..i] == pairs[..i];
      h := Store(h, pairs[i].0, pairs[i].1);
      i := i + 1;
    }
    assert pairs[..i] == pairs;
  }

  /** `pairs[i]` is the last pair whose key is `k`. */
  ghost predicate LastWithKey<K, V>(pairs: seq<(K, V)>, i: int, k: K) {
    0 <= i < |pairs| && pairs[i].0 == k && forall j :: i < j < |pairs| ==> pairs[j].0 != k
  }

  /** The value of the last pair whose key is `k`, or nil when no pair has that key. */
  function LastValue<K(==), V>(pairs: seq<(K, V)>, k: K): (r: Option<V>)
    ensures r.Some? <==> k in Keys(pairs)
    ensures r.Some? ==> exists i :: LastWithKey(pairs, i, k) && pairs[i].1 == r.value
  {
    if pairs == [] then None
    else if pairs[|pairs| - 1].0 == k then
      assert LastWithKey(pairs, |pairs| - 1, k);
      Some(pairs[|pairs| - 1].1)
    else
      var n := |pairs| - 1;
      assert pairs == pairs[..n] + [pairs[n]];
      KeysSnoc(pairs[..n], pairs[n]);
      var r := LastValue(pairs[..n], k);
      assert r.Some? ==> exists i :: LastWithKey(pairs, i, k) && pairs[i].1 == r.value by {
        if r.Some? {
          var i :| LastWithKey(pairs[..n], i, k) && pairs[..n][i].1 == r.value;
          assert LastWithKey(pairs, i, k);
        }
      }
      r
  }

  /** For a repeated key, the last pair wins. */
  lemma {:induction false} LastPairWins<K(!new), V>(pairs: seq<(K, V)>, k: K)
    ensures Get(PairsToHash(pairs), k) == LastValue(pairs, k)
  {
    if pairs != [] {
      var n := |pairs| - 1;
      LastPairWins(pairs[..n], k);
      StoreThenGet(PairsToHash(pairs[..n]), pairs[n].0, pairs[n].1, k);
    }
  }

  /** The keys come out once each, in the order of their first insertion. */
  lemma {:induction false} KeysInFirstInsertionOrder<K(!new), V>(pairs: seq<(K, V)>)
    ensures Keys(PairsToHash(pairs)) == Uniq(Keys(pairs))
  {
    if pairs != [] {
      var n := |pairs| - 1;
      var prefix := pairs[..n];
      assert pairs == prefix + [pairs[n]];
      KeysInFirstInsertionOrder(prefix);
      KeysSnoc(prefix, pairs[n]);
      UniqSnoc(Keys(prefix), pairs[n].0);
    }
  }

  /** On pairs whose keys are all different, `to_h` keeps every pair, in order. */
  lemma {:induction false} DistinctPairsConvertFaithfully<K(!new), V>(pairs: seq<(K, V)>)
    requires DistinctKeys(pairs)
    ensures PairsToHash(pairs) == pairs
  {
    if pairs != [] {
      var n := |pairs| - 1;
      assert Keys(pairs[..n]) == Keys(pairs)[..n];
      DistinctPairsConvertFaithfully(pairs[..n]);
      assert pairs[n].0 !in Keys(pairs[..n]);
      StoreNewKeyAppends(pairs[..n], pairs[n].0, pairs[n].1);
      assert pairs[..n] + [pairs[n]] == pairs;
    }
  }
}
