/**
 * The collision bucket of src/hash_map/bucket.rs: the fallback node that
 * holds every pair whose keys agree on all hash bits a trie can use. The
 * standard hash map inside it is a Dafny `map`, so two buckets are equal
 * exactly when they hold the same pairs, whatever the insertion order.
 */
module CollisionBucket {
  import opened Wrappers

  datatype Bucket<K, V> = Bucket(hashMap: map<K, V>)
  {
    /** The keys the bucket holds. */
    ghost function Keys(): set<K> { hashMap.Keys }
  }

  /** `Bucket::new(k, v)`: a bucket holding exactly the pair `(k, v)`. */
  function New<K(!new), V>(k: K, v: V): (b: Bucket<K, V>)
    ensures b.hashMap == map[k := v]
    ensures Len(b) == 1 && IsSingleton(b)
    ensures Get(b, k) == Some(v)
  {
    Bucket(map[k := v])
  }

  /**
   * `insert(k, v)`: a new bucket mapping `k` to `v` and every other key as
   * before; the flag is true exactly when `k` was absent.
   */
  function Insert<K(!new), V>(b: Bucket<K, V>, k: K, v: V): (r: (Bucket<K, V>, bool))
    ensures r.1 <==> k !in b.hashMap
    ensures Get(r.0, k) == Some(v)
    ensures forall k' :: k' != k ==> Get(r.0, k') == Get(b, k')
    ensures Len(r.0) == if r.1 then Len(b) + 1 else Len(b)
  {
    var added := k !in b.hashMap;
    (Bucket(b.hashMap[k := v]), added)
  }

  /**
   * `remove(k)`: `None` exactly when `k` is absent, otherwise the bucket
   * without `k` and with every other pair intact.
   */
  function Remove<K(!new), V>(b: Bucket<K, V>, k: K): (r: Option<Bucket<K, V>>)
    ensures r.None? <==> k !in b.hashMap
    ensures r.Some? ==> Get(r.value, k) == None && Len(r.value) == Len(b) - 1
    ensures r.Some? ==> forall k' :: k' != k ==> Get(r.value, k') == Get(b, k')
  {
    if k in b.hashMap then Some(Bucket(b.hashMap - {k})) else None
  }

  /** `get(k)`: the value mapped to `k`, or `None`. */
  function Get<K(!new), V>(b: Bucket<K, V>, k: K): (r: Option<V>)
    ensures r.Some? <==> k in b.hashMap
    ensures r.Some? ==> r.value == b.hashMap[k]
  {
    if k in b.hashMap then Some(b.hashMap[k]) else None
  }

  /** `len()`: the number of pairs. */
  function Len<K(!new), V>(b: Bucket<K, V>): (n: nat)
    ensures n == |b.hashMap.Keys|
    ensures n == 0 <==> forall k :: Get(b, k) == None
  {
    if |b.hashMap.Keys| == 0 then
      0
    else
      var k :| k in b.hashMap.Keys;
      assert Get(b, k) != None;
      |b.hashMap.Keys|
  }

  /** `is_singleton()`: exactly one pair. */
  predicate IsSingleton<K(!new), V>(b: Bucket<K, V>)
  {
    Len(b) == 1
  }

  /** A singleton bucket holds one key, and it is the only key with a value. */
  lemma SingletonIffOneKey<K(!new), V>(b: Bucket<K, V>)
    ensures IsSingleton(b) <==> exists k :: b.hashMap.Keys == {k}
  {
    if IsSingleton(b) {
      var k :| k in b.hashMap.Keys;
      assert b.hashMap.Keys == {k} by {
        if exists k' :: k' in b.hashMap.Keys && k' != k {
          var k' :| k' in b.hashMap.Keys && k' != k;
          assert {k, k'} <= b.hashMap.Keys;
          assert |{k, k'}| == 2;
          SubsetCard({k, k'}, b.hashMap.Keys);
        }
      }
    }
  }

  lemma SubsetCard<T>(a: set<T>, b: set<T>)
    requires a <= b
    ensures |a| <= |b|
  {
    assert b == a + (b - a);
  }

  /**
   * Buckets are equal exactly when every key looks up the same value:
   * equality ignores the order the pairs were inserted in.
   */
  lemma EqualIffSameLookups<K(!new), V>(a: Bucket<K, V>, b: Bucket<K, V>)
    ensures a == b <==> forall k :: Get(a, k) == Get(b, k)
  {
    if forall k :: Get(a, k) == Get(b, k) {
      assert a.hashMap.Keys == b.hashMap.Keys by {
        forall k ensures k in a.hashMap <==> k in b.hashMap {
          assert Get(a, k) == Get(b, k);
        }
      }
      forall k | k in a.hashMap ensures a.hashMap[k] == b.hashMap[k] {
        assert Get(a, k) == Get(b, k);
      }
    }
  }

  /** Insertion order does not matter for distinct keys (the bucket `eq` test). */
  lemma InsertCommutes<K(!new), V>(b: Bucket<K, V>, k1: K, v1: V, k2: K, v2: V)
    requires k1 != k2
    ensures Insert(Insert(b, k1, v1).0, k2, v2).0 == Insert(Insert(b, k2, v2).0, k1, v1).0
  {
    var x := Insert(Insert(b, k1, v1).0, k2, v2).0;
    var y := Insert(Insert(b, k2, v2).0, k1, v1).0;
    forall k ensures Get(x, k) == Get(y, k) {
    }
    EqualIffSameLookups(x, y);
  }

  /** Removing a key that was just added to a bucket gives the bucket back. */
  lemma RemoveInsert<K(!new), V>(b: Bucket<K, V>, k: K, v: V)
    requires k !in b.hashMap
    ensures Remove(Insert(b, k, v).0, k) == Some(b)
  {
    var r := Remove(Insert(b, k, v).0, k);
    forall k' ensures Get(r.value, k') == Get(b, k') {
    }
    EqualIffSameLookups(r.value, b);
  }

  /**
   * The pair an iterator over a singleton bucket yields first: the only one.
   */
  function SolePair<K(!new), V>(b: Bucket<K, V>): (p: (K, V))
    requires IsSingleton(b)
    ensures b.hashMap.Keys == {p.0} && b.hashMap[p.0] == p.1
  {
    SingletonIffOneKey(b);
    var k :| b.hashMap.Keys == {k};
    (k, b.hashMap[k])
  }

  /**
   * `first_rest()`: some pair of a non-empty bucket and the bucket without
   * it. Which pair comes first follows the inner hash map's iteration order,
   * which is unspecified, so the choice is left open.
   */
  method FirstRest<K(!new), V>(b: Bucket<K, V>) returns (r: Option<(K, V, Bucket<K, V>)>)
    ensures r.None? <==> Len(b) == 0
    ensures r.Some? ==> Get(b, r.value.0) == Some(r.value.1)
    ensures r.Some? ==> Remove(b, r.value.0) == Some(r.value.2)
  {
    if |b.hashMap.Keys| == 0 {
      return None;
    }
    var k :| k in b.hashMap.Keys;
    return Some((k, b.hashMap[k], Bucket(b.hashMap - {k})));
  }

  /** The map a sequence of pairs spells out. */
  ghost function PairsMap<K, V>(ps: seq<(K, V)>): map<K, V>
  {
    if |ps| == 0 then map[] else map[ps[0].0 := ps[0].1] + PairsMap(ps[1..])
  }

  /** No key appears twice in `ps`. */
  ghost predicate DistinctKeys<K, V>(ps: seq<(K, V)>)
  {
    forall i, j :: 0 <= i < j < |ps| ==> ps[i].0 != ps[j].0
  }

  /** The keys of `PairsMap(ps)` are the keys listed in `ps`. */
  lemma {:induction false} PairsMapKeys<K, V>(ps: seq<(K, V)>, k: K)
    ensures k in PairsMap(ps) <==> exists j :: 0 <= j < |ps| && ps[j].0 == k
  {
    if |ps| > 0 {
      PairsMapKeys(ps[1..], k);
      if exists j :: 0 <= j < |ps| && ps[j].0 == k {
        var j :| 0 <= j < |ps| && ps[j].0 == k;
        if j > 0 {
          assert ps[1..][j - 1].0 == k;
        }
      }
      if exists j :: 0 <= j < |ps[1..]| && ps[1..][j].0 == k {
        var j :| 0 <= j < |ps[1..]| && ps[1..][j].0 == k;
        assert ps[j + 1].0 == k;
      }
    }
  }

  /** One step of `ToVec`: moving a key from the rest to the front of the pairs. */
  lemma ToVecStep<K, V>(pairs: seq<(K, V)>, rest: map<K, V>, k: K)
    requires PairsMap(pairs).Keys !! rest.Keys && DistinctKeys(pairs) && k in rest
    ensures PairsMap([(k, rest[k])] + pairs) == map[k := rest[k]] + PairsMap(pairs)
    ensures PairsMap([(k, rest[k])] + pairs).Keys !! (rest - {k}).Keys
    ensures PairsMap([(k, rest[k])] + pairs) + (rest - {k}) == PairsMap(pairs) + rest
    ensures DistinctKeys([(k, rest[k])] + pairs)
    ensures |(rest - {k}).Keys| == |rest.Keys| - 1
  {
    var ps := [(k, rest[k])] + pairs;
    assert ps[1..] == pairs;
    forall j | 0 <= j < |pairs| ensures pairs[j].0 != k {
      PairsMapKeys(pairs, pairs[j].0);
    }
    assert (rest - {k}).Keys == rest.Keys - {k};
    var l := PairsMap(ps) + (rest - {k});
    var r := PairsMap(pairs) + rest;
    assert l.Keys == r.Keys;
  }

  /**
   * `to_vec()`: the pairs as a sequence without repeated keys that spells
   * out the bucket, in an unspecified order; it is what the trie iterator
   * walks through.
   */
  method ToVec<K(!new), V>(b: Bucket<K, V>) returns (pairs: seq<(K, V)>)
    ensures |pairs| == Len(b)
    ensures DistinctKeys(pairs)
    ensures PairsMap(pairs) == b.hashMap
  {
    var rest := b.hashMap;
    pairs := [];
    while |rest.Keys| > 0
      invariant PairsMap(pairs).Keys !! rest.Keys
      invariant PairsMap(pairs) + rest == b.hashMap
      invariant |pairs| + |rest.Keys| == |b.hashMap.Keys|
      invariant DistinctKeys(pairs)
      decreases |rest.Keys|
    {
      var k :| k in rest.Keys;
      ToVecStep(pairs, rest, k);
      pairs := [(k, rest[k])] + pairs;
      rest := rest - {k};
    }
  }
}
