/**
 * The `HashMap` of src/hash_map/hash_map.rs: a level-0 trie together with
 * a pair count kept up to date on every operation instead of being
 * recounted. Every operation returns a new map; the old one is untouched.
 */
module PersistentHashMap {
  import opened Wrappers
  import opened HashedKey
  import HashTrie
  import HashTrieIterator
  import CollisionBucket

  datatype HashMap<K, V> = HashMap(size: nat, hamt: HashTrie.HAMT<K, V>)

  /** The pairs the map holds. */
  ghost function Contents<K(!new), V>(m: HashMap<K, V>): map<K, V>
  {
    HashTrie.Contents(m.hamt)
  }

  /** A root trie at level 0 whose pair count is the `size` field. */
  ghost predicate Valid<K(!new), V>(H: K -> bv64, m: HashMap<K, V>)
  {
    HashTrie.Valid(H, m.hamt) && m.hamt.level == 0 && m.size == |Contents(m).Keys|
  }

  /** `new()`: size 0 over an empty level-0 trie. */
  function New<K(!new), V>(): (m: HashMap<K, V>)
    ensures m.size == 0 && m.hamt.level == 0
    ensures Contents(m) == map[]
  {
    HashMap(0, HashTrie.New(0))
  }

  lemma NewValid<K(!new), V>(H: K -> bv64)
    ensures Valid(H, New<K, V>())
  {
    HashTrie.NewValid<K, V>(H, 0);
  }

  /** `insert(k, v)`: `k` maps to `v`; the size grows by one exactly when `k` is new. */
  function Insert<K(!new), V>(H: K -> bv64, m: HashMap<K, V>, k: K, v: V): (r: HashMap<K, V>)
    requires Valid(H, m)
    ensures Valid(H, r)
    ensures Contents(r) == Contents(m)[k := v]
    ensures r.size == if k in Contents(m) then m.size else m.size + 1
  {
    var (h, added) := HashTrie.Insert(H, m.hamt, k, v);
    if added then
      assert Contents(m)[k := v].Keys == Contents(m).Keys + {k};
      HashMap(m.size + 1, h)
    else
      assert Contents(m)[k := v].Keys == Contents(m).Keys;
      HashMap(m.size, h)
  }

  /** `remove(k)`: `None` exactly when `k` is absent, else the map without `k`, one smaller. */
  function Remove<K(!new), V>(H: K -> bv64, m: HashMap<K, V>, k: K): (r: Option<HashMap<K, V>>)
    requires Valid(H, m)
    ensures r.None? <==> k !in Contents(m)
    ensures r.Some? ==> Valid(H, r.value) && Contents(r.value) == Contents(m) - {k}
    ensures r.Some? ==> r.value.size + 1 == m.size
  {
    match HashTrie.Remove(H, m.hamt, k)
    case None => None
    case Some(h) =>
      HashTrie.CardRemove(Contents(m), k);
      Some(HashMap(m.size - 1, h))
  }

  /** `get(k)`: the value of `k`, or `None` when absent. */
  function Get<K(!new), V>(H: K -> bv64, m: HashMap<K, V>, k: K): (r: Option<V>)
    requires Valid(H, m)
    ensures r.Some? <==> k in Contents(m)
    ensures r.Some? ==> r.value == Contents(m)[k]
  {
    HashTrie.Get(H, m.hamt, k)
  }

  /** `size()`: the stored count, which is the number of pairs. */
  function Size<K(!new), V>(H: K -> bv64, m: HashMap<K, V>): (n: nat)
    requires Valid(H, m)
    ensures n == |Contents(m).Keys|
    ensures n == HashTrie.Size(m.hamt)
  {
    HashTrie.SizeIsCount(H, m.hamt);
    m.size
  }

  /** `first_rest()`: some pair of the map and the map without it, one smaller. */
  method FirstRest<K(!new), V>(H: K -> bv64, m: HashMap<K, V>) returns (r: Option<(K, V, HashMap<K, V>)>)
    requires Valid(H, m)
    ensures r.None? <==> Contents(m) == map[]
    ensures r.Some? ==> r.value.0 in Contents(m) && Contents(m)[r.value.0] == r.value.1
    ensures r.Some? ==> Valid(H, r.value.2) && Contents(r.value.2) == Contents(m) - {r.value.0}
    ensures r.Some? ==> r.value.2.size + 1 == m.size
  {
    var fr := HashTrie.FirstRest(H, m.hamt);
    match fr
    case None =>
      r := None;
    case Some((k, v, h)) =>
      HashTrie.CardRemove(Contents(m), k);
      r := Some((k, v, HashMap(m.size - 1, h)));
  }

  /** Iterating a map (`into_iter`) walks its trie: exactly `size` pairs, no key twice, each agreeing with `get`. */
  method Pairs<K(==, !new), V>(H: K -> bv64, m: HashMap<K, V>) returns (pairs: seq<(K, V)>)
    requires Valid(H, m)
    ensures |pairs| == m.size
    ensures CollisionBucket.DistinctKeys(pairs)
    ensures forall j :: 0 <= j < |pairs| ==> Get(H, m, pairs[j].0) == Some(pairs[j].1)
  {
    pairs := HashTrieIterator.Collect(H, m.hamt);
    HashTrie.SizeIsCount(H, m.hamt);
  }

  // ---------------------------------------------------------------------
  // Laws

  /** Maps holding the same pairs are equal, whatever order built them. */
  lemma SameContentsEqual<K(!new), V>(H: K -> bv64, a: HashMap<K, V>, b: HashMap<K, V>)
    requires Valid(H, a) && Valid(H, b) && Contents(a) == Contents(b)
    ensures a == b
  {
    HashTrie.Canonical(H, a.hamt, b.hamt);
  }

  /** An empty valid map is `new()`: draining with `first_rest` ends there. */
  lemma EmptyIsNew<K(!new), V>(H: K -> bv64, m: HashMap<K, V>)
    requires Valid(H, m) && Contents(m) == map[]
    ensures m == New()
  {
    NewValid<K, V>(H);
    SameContentsEqual(H, m, New());
  }

  /** Removing a key just inserted into a map that lacked it gives the map back. */
  lemma RemoveAfterInsert<K(!new), V>(H: K -> bv64, m: HashMap<K, V>, k: K, v: V)
    requires Valid(H, m) && k !in Contents(m)
    ensures Remove(H, Insert(H, m, k, v), k) == Some(m)
  {
    var r := Remove(H, Insert(H, m, k, v), k).value;
    assert Contents(r) == Contents(m);
    SameContentsEqual(H, r, m);
  }

  /** Inserting the same key twice into `new()` leaves size 1. */
  lemma InsertTwiceSize<K(!new), V>(H: K -> bv64, k: K, v: V, w: V)
    ensures Size(H, Insert(H, Insert(H, New(), k, v), k, w)) == 1
  {
    NewValid<K, V>(H);
    var m := Insert(H, New(), k, v);
    assert Contents(m).Keys == {k};
  }
}
