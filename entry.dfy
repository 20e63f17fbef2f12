/**
 * The normalising conversions of src/hash_map/entry.rs: a node (trie or
 * collision bucket) that holds a single pair becomes a direct key/value
 * entry; any other node is wrapped unchanged. The single pair is read off
 * the node's iterator, whose first item must exist (the source panics with "non-empty node").
 */
module HashTrieEntry {
  import opened Wrappers
  import opened HashTrie
  import HashTrieIterator
  import B = CollisionBucket

  /**
   * `convert_node_to_key_value` for a trie: `Some(KeyValue(k, v))` with the
   * first pair of the walk when the node is a singleton, `None` otherwise.
   * The first item of the walk of a singleton always exists.
   */
  method ConvertNode<K(==, !new), V>(H: K -> bv64, h: HAMT<K, V>) returns (r: Option<Entry<K, V>>)
    requires HashTrie.Valid(H, h)
    ensures r.Some? <==> IsSingleton(h)
    ensures r.Some? ==> r.value == KeyValue(SolePair(h).0, SolePair(h).1)
    ensures r.Some? ==> Contents(h) == map[r.value.key := r.value.value]
  {
    if IsSingleton(h) {
      SolePairIsContents(H, h);
      var it := new HashTrieIterator.HamtIterator(H, h);
      assert SolePair(h).0 in it.Remaining();
      var first := it.Next();
      match first
      case None =>
        assert false;
      case Some(p) =>
        r := Some(KeyValue(p.0, p.1));
    } else {
      r := None;
    }
  }

  /** `convert_node_to_key_value` for a collision bucket, read off its pair list. */
  method ConvertBucket<K(!new), V>(b: B.Bucket<K, V>) returns (r: Option<Entry<K, V>>)
    ensures r.Some? <==> B.IsSingleton(b)
    ensures r.Some? ==> r.value == KeyValue(B.SolePair(b).0, B.SolePair(b).1)
    ensures r.Some? ==> b.hashMap == map[r.value.key := r.value.value]
  {
    if B.IsSingleton(b) {
      var ps := B.ToVec(b);
      assert |ps| == 1;
      assert B.PairsMap(ps) == map[ps[0].0 := ps[0].1] + B.PairsMap(ps[1..]);
      r := Some(KeyValue(ps[0].0, ps[0].1));
    } else {
      r := None;
    }
  }

  /** `From<HAMT>`: the conversion's entry, or the node itself wrapped as a child. */
  method FromNode<K(==, !new), V>(H: K -> bv64, h: HAMT<K, V>) returns (e: Entry<K, V>)
    requires HashTrie.Valid(H, h)
    ensures e == NodeToEntry(h)
    ensures EntryContents(e) == Contents(h)
    ensures e.Child? ==> |Contents(e.node).Keys| != 1
  {
    var c := ConvertNode(H, h);
    if c.Some? {
      e := c.value;
    } else {
      e := Child(h);
    }
    SingletonIffOne(H, h);
  }

  /** `From<Bucket>`: the conversion's entry, or the bucket itself wrapped. */
  method FromBucket<K(!new), V>(b: B.Bucket<K, V>) returns (e: Entry<K, V>)
    ensures e == BucketToEntry(b)
    ensures EntryContents(e) == b.hashMap
    ensures e.Bucket? ==> |e.bucket.hashMap.Keys| != 1
  {
    var c := ConvertBucket(b);
    if c.Some? {
      e := c.value;
    } else {
      e := Bucket(b);
    }
  }
}
