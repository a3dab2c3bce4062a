/**
 * The parts of Ruby's built-in Array and Hash that the detector relies on.
 *
 * A Ruby Hash remembers the order in which its keys were first inserted.
 * It is modelled as the sequence of its entries, oldest key first; a hash
 * built by Ruby never holds the same key twice (DistinctKeys).
 */
module RubyCollections {
  import opened Wrappers

  /** No element occurs twice. */
  ghost predicate Distinct<T>(s: seq<T>) {
    forall i, j :: 0 <= i < j < |s| ==> s[i] != s[j]
  }

  /** The set of the elements of a sequence. */
  ghost function Elements<T>(s: seq<T>): set<T> {
    set x | x in s
  }

  /** Putting a new element in front keeps a sequence without repetitions. */
  lemma DistinctCons<T>(x: T, s: seq<T>)
    requires x !in s && Distinct(s)
    ensures Distinct([x] + s)
  {
  }

  /** A sequence without repetitions has as many elements as its element set. */
  lemma {:induction false} DistinctCardinality<T>(s: seq<T>)
    requires Distinct(s)
    ensures |Elements(s)| == |s|
  {
    if s != [] {
      var t := s[1..];
      assert Distinct(t);
      DistinctCardinality(t);
      assert Elements(s) == {s[0]} + Elements(t);
      assert s[0] !in Elements(t);
    }
  }

  /** Position of the first occurrence of `x` in `s`. */
  function IndexOf<T(==)>(s: seq<T>, x: T): (i: nat)
    requires x in s
    ensures i < |s| && s[i] == x && x !in s[..i]
  {
    if s[0] == x then 0
    else
      assert s == [s[0]] + s[1..];
      var i := 1 + IndexOf(s[1..], x);
      assert s[..i] == [s[0]] + s[1..][..i - 1];
      i
  }

  /** A first occurrence is unique: any position that holds `x` with no `x` before it is IndexOf. */
  lemma IndexOfUnique<T>(s: seq<T>, x: T, i: nat)
    requires i < |s| && s[i] == x && x !in s[..i]
    ensures IndexOf(s, x) == i
  {
  }

  /**
   * Array#uniq: every element once, at its first occurrence. Defined the way
   * Ruby builds it, scanning left to right and appending what is new.
   */
  function Uniq<T(==,!new)>(s: seq<T>): (r: seq<T>)
    ensures forall x :: x in r <==> x in s
    ensures Distinct(r)
    ensures |r| <= |s|
  {
    if s == [] then []
    else
      var p := s[..|s| - 1];
      assert s == p + [s[|s| - 1]];
      var u := Uniq(p);
      if s[|s| - 1] in u then u else u + [s[|s| - 1]]
  }

  /** Appending one element to an array appends it to its uniq unless it was already there. */
  lemma UniqSnoc<T(!new)>(s: seq<T>, x: T)
    ensures Uniq(s + [x]) == if x in Uniq(s) then Uniq(s) else Uniq(s) + [x]
  {
    assert (s + [x])[..|s|] == s;
  }

  /** Array#uniq keeps the order of first occurrences. */
  lemma {:induction false} UniqKeepsFirstOccurrenceOrder<T(!new)>(s: seq<T>)
    ensures forall i, j :: 0 <= i < j < |Uniq(s)| ==> IndexOf(s, Uniq(s)[i]) < IndexOf(s, Uniq(s)[j])
  {
    if s != [] {
      var n := |s|;
      var p := s[..n - 1];
      var u := Uniq(p);
      UniqKeepsFirstOccurrenceOrder(p);
      forall x | x in p
        ensures IndexOf(s, x) == IndexOf(p, x)
      {
        var k := IndexOf(p, x);
        assert s[..k] == p[..k];
        IndexOfUnique(s, x, k);
      }
      if s[n - 1] !in u {
        assert s[n - 1] !in s[..n - 1];
        IndexOfUnique(s, s[n - 1], n - 1);
        assert Uniq(s) == u + [s[n - 1]];
      }
    }
  }

  /** `uniq.count == 1` holds exactly of a non-empty array whose elements are all equal. */
  lemma UniqSingleIffConstant<T(!new)>(s: seq<T>)
    ensures |Uniq(s)| == 1 <==> |s| > 0 && forall i :: 0 <= i < |s| ==> s[i] == s[0]
  {
    var u := Uniq(s);
    if |u| == 1 {
      forall i | 0 <= i < |s| ensures s[i] == s[0] {
        assert s[i] in u && s[0] in u;
      }
    }
    if |s| > 0 && forall i :: 0 <= i < |s| ==> s[i] == s[0] {
      assert s[0] in u;
      forall j | 0 <= j < |u| ensures u[j] == s[0] {
        assert u[j] in s;
      }
      if |u| > 1 {
        assert false;
      }
    }
  }

  /** A Ruby Hash: its entries in key-insertion order. */
  type Hash<K, V> = seq<(K, V)>

  /** Hash#keys. */
  function Keys<K, V>(h: Hash<K, V>): (ks: seq<K>)
    ensures |ks| == |h|
    ensures forall i :: 0 <= i < |h| ==> ks[i] == h[i].0
  {
    if h == [] then [] else [h[0].0] + Keys(h[1..])
  }

  /** The keys of a hash with one more entry at the end. */
  lemma KeysSnoc<K, V>(h: Hash<K, V>, e: (K, V))
    ensures Keys(h + [e]) == Keys(h) + [e.0]
  {
    assert |Keys(h + [e])| == |Keys(h) + [e.0]|;
  }

  /** Ruby never stores a key twice in a Hash. */
  ghost predicate DistinctKeys<K, V>(h: Hash<K, V>) {
    Distinct(Keys(h))
  }

  /** Hash#[]: the value stored under `k`, or nil. */
  function Get<K(==), V>(h: Hash<K, V>, k: K): (r: Option<V>)
    ensures r.Some? <==> k in Keys(h)
    ensures r.Some? ==> (k, r.value) in h
  {
    if h == [] then None
    else if h[0].0 == k then Some(h[0].1)
    else
      assert Keys(h) == [h[0].0] + Keys(h[1..]);
      Get(h[1..], k)
  }

  /**
   * Hash#[]=: an existing key keeps its position and takes the new value;
   * a new key goes to the end.
   */
  function Store<K(==), V>(h: Hash<K, V>, k: K, v: V): (r: Hash<K, V>)
    ensures Keys(r) == if k in Keys(h) then Keys(h) else Keys(h) + [k]
  {
    if h == [] then [(k, v)]
    else
      var t := if h[0].0 == k then h[1..] else Store(h[1..], k, v);
      var r := [if h[0].0 == k then (k, v) else h[0]] + t;
      assert r[1..] == t;
      assert Keys(h) == [h[0].0] + Keys(h[1..]);
      assert Keys(r) == [h[0].0] + Keys(t);
      r
  }

  /** After `h[k] = v`, `h[k]` is `v` and every other key reads as before. */
  lemma {:induction false} StoreThenGet<K, V>(h: Hash<K, V>, k: K, v: V, k': K)
    ensures Get(Store(h, k, v), k') == if k' == k then Some(v) else Get(h, k')
  {
    if h != [] && h[0].0 != k {
      StoreThenGet(h[1..], k, v, k');
      assert Store(h, k, v)[1..] == Store(h[1..], k, v);
    } else if h != [] {
      assert Store(h, k, v)[1..] == h[1..];
    }
  }

  /** Storing a key that is not there yet appends one entry. */
  lemma {:induction false} StoreNewKeyAppends<K(!new), V>(h: Hash<K, V>, k: K, v: V)
    requires k !in Keys(h)
    ensures Store(h, k, v) == h + [(k, v)]
  {
    if h != [] {
      assert Keys(h) == [h[0].0] + Keys(h[1..]);
      assert h[0].0 != k;
      StoreNewKeyAppends(h[1..], k, v);
      var t := Store(h[1..], k, v);
      assert Store(h, k, v) == [h[0]] + t;
      assert t == h[1..] + [(k, v)];
      assert h == [h[0]] + h[1..];
    }
  }

  /** Hash#[]= never introduces a duplicate key. */
  lemma StoreKeepsDistinctKeys<K(!new), V>(h: Hash<K, V>, k: K, v: V)
    requires DistinctKeys(h)
    ensures DistinctKeys(Store(h, k, v))
  {
    if k !in Keys(h) {
      var ks := Keys(h) + [k];
      assert Keys(Store(h, k, v)) == ks;
      forall i, j | 0 <= i < j < |ks| ensures ks[i] != ks[j] {
        if j == |ks| - 1 {
          assert ks[i] == Keys(h)[i];
        }
      }
    }
  }

  /** Hash#select: the entries that satisfy `p`, in their original order. */
  function Select<K(!new), V(!new)>(h: Hash<K, V>, p: (K, V) -> bool): (r: Hash<K, V>)
    ensures forall e :: e in r <==> e in h && p(e.0, e.1)
    ensures |r| <= |h|
  {
    if h == [] then []
    else
      var rest := Select(h[1..], p);
      assert h == [h[0]] + h[1..];
      if p(h[0].0, h[0].1) then [h[0]] + rest else rest
  }

  /**
   * Hash#select keeps the entries in their original order and each one once:
   * selecting from two hashes put end to end selects from each in turn.
   */
  lemma {:induction false} SelectDistributes<K(!new), V(!new)>(a: Hash<K, V>, b: Hash<K, V>, p: (K, V) -> bool)
    ensures Select(a + b, p) == Select(a, p) + Select(b, p)
  {
    if a != [] {
      assert (a + b)[0] == a[0];
      assert (a + b)[1..] == a[1..] + b;
      SelectDistributes(a[1..], b, p);
    } else {
      assert a + b == b;
    }
  }

  /** A single entry is kept exactly when it satisfies `p`. */
  lemma SelectSingle<K(!new), V(!new)>(e: (K, V), p: (K, V) -> bool)
    ensures Select([e], p) == if p(e.0, e.1) then [e] else []
  {
    assert [e][1..] == [];
  }

  /** Hash#select keeps a hash free of duplicate keys. */
  lemma {:induction false} SelectKeepsDistinctKeys<K(!new), V(!new)>(h: Hash<K, V>, p: (K, V) -> bool)
    requires DistinctKeys(h)
    ensures DistinctKeys(Select(h, p))
    ensures forall k :: k in Keys(Select(h, p)) ==> k in Keys(h)
  {
    if h != [] {
      var rest := Select(h[1..], p);
      assert Keys(h) == [h[0].0] + Keys(h[1..]);
      assert DistinctKeys(h[1..]);
      SelectKeepsDistinctKeys(h[1..], p);
      if p(h[0].0, h[0].1) {
        assert Select(h, p) == [h[0]] + rest;
        assert Keys([h[0]] + rest) == [h[0].0] + Keys(rest);
        assert h[0].0 !in Keys(rest);
        DistinctCons(h[0].0, Keys(rest));
      } else {
        assert Select(h, p) == rest;
      }
    }
  }
}
