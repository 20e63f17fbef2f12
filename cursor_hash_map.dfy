/**
 * The `HashMap` of src/hash_map/mod.rs: the same persistent trie, a `len`
 * count kept up to date on every operation, and keys handed to the trie
 * as `HashedKey` cursors (`HashedKey::new(k)`) that carry their own hash
 * and level. The cursor-based trie that file builds on is not part of this
 * model; its operations are those of the node-level trie of
 * src/hash_map/hamt.rs, and `CursorPicksSlot` shows the two agree on
 * which slot every level selects.
 */
module CursorHashMap {
  import opened Wrappers
  import HK = HashedKey
  import HashTrie

  datatype HashMap<K, V> = HashMap(len: nat, hamt: HashTrie.HAMT<K, V>)

  ghost function Contents<K(!new), V>(m: HashMap<K, V>): map<K, V>
  {
    HashTrie.Contents(m.hamt)
  }

  /** A root trie at level 0 whose pair count is the `len` field. */
  ghost predicate Valid<K(!new), V>(H: K -> bv64, m: HashMap<K, V>)
  {
    HashTrie.Valid(H, m.hamt) && m.hamt.level == 0 && m.len == |Contents(m).Keys|
  }

  /** `new()`: length 0 over an empty trie. */
  function New<K(!new), V>(): (m: HashMap<K, V>)
    ensures m.len == 0 && m.hamt.level == 0
    ensures Contents(m) == map[]
  {
    HashMap(0, HashTrie.New(0))
  }

  lemma NewValid<K(!new), V>(H: K -> bv64)
    ensures Valid(H, New<K, V>()) && IsEmpty(New<K, V>())
  {
    HashTrie.NewValid<K, V>(H, 0);
  }

  /** `insert(k, v)`: through the cursor of `k`; `len` grows by one exactly when `k` is new. */
  function Insert<K(!new), V>(H: K -> bv64, m: HashMap<K, V>, k: K, v: V): (r: HashMap<K, V>)
    requires Valid(H, m)
    ensures Valid(H, r)
    ensures Contents(r) == Contents(m)[k := v]
    ensures r.len == if k in Contents(m) then m.len else m.len + 1
  {
    var c := HK.New(H, k);
    var (h, added) := HashTrie.Insert(H, m.hamt, c.ToKey(), v);
    if added then
      assert Contents(m)[k := v].Keys == Contents(m).Keys + {k};
      HashMap(m.len + 1, h)
    else
      assert Contents(m)[k := v].Keys == Contents(m).Keys;
      HashMap(m.len, h)
  }

  /** `remove(k)`: `None` exactly when `k` is absent, else the map without `k`, one shorter. */
  function Remove<K(!new), V>(H: K -> bv64, m: HashMap<K, V>, k: K): (r: Option<HashMap<K, V>>)
    requires Valid(H, m)
    ensures r.None? <==> k !in Contents(m)
    ensures r.Some? ==> Valid(H, r.value) && Contents(r.value) == Contents(m) - {k}
    ensures r.Some? ==> r.value.len + 1 == m.len
  {
    var c := HK.New(H, k);
    match HashTrie.Remove(H, m.hamt, c.Key())
    case None => None
    case Some(h) =>
      HashTrie.CardRemove(Contents(m), k);
      Some(HashMap(m.len - 1, h))
  }

  /** `get(k)`: the value of `k`, or `None` when absent. */
  function Get<K(!new), V>(H: K -> bv64, m: HashMap<K, V>, k: K): (r: Option<V>)
    requires Valid(H, m)
    ensures r.Some? <==> k in Contents(m)
    ensures r.Some? ==> r.value == Contents(m)[k]
  {
    HashTrie.Get(H, m.hamt, HK.New(H, k).Key())
  }

  /** `len()`: the number of distinct keys. */
  function Len<K(!new), V>(H: K -> bv64, m: HashMap<K, V>): (n: nat)
    requires Valid(H, m)
    ensures n == |Contents(m).Keys|
  {
    m.len
  }

  /** `is_empty()`: holds exactly when the map has no pairs. */
  predicate IsEmpty<K(!new), V>(m: HashMap<K, V>)
  {
    m.len == 0
  }

  // ---------------------------------------------------------------------
  // Laws

  lemma IsEmptyIffNoPairs<K(!new), V>(H: K -> bv64, m: HashMap<K, V>)
    requires Valid(H, m)
    ensures IsEmpty(m) <==> Contents(m) == map[]
  {
    if Contents(m) != map[] {
      var k :| k in Contents(m);
      assert k in Contents(m).Keys;
    }
  }

  /**
   * The cursor `new(k)` driven down `n` levels selects the slot the
   * node-level `entry_index` of a level-`n` node selects for `k`.
   */
  lemma CursorPicksSlot<K(!new), V>(H: K -> bv64, h: HashTrie.HAMT<K, V>, k: K)
    requires h.level <= HK.MAX_LEVEL
    ensures HK.Descend(HK.New(H, k), h.level).EntryIndex() == HashTrie.EntryIndex(H, h, k)
  {
    HK.DescentAgrees(H, k, h.level);
  }

  /** Maps holding the same pairs are equal, whatever order built them. */
  lemma SameContentsEqual<K(!new), V>(H: K -> bv64, a: HashMap<K, V>, b: HashMap<K, V>)
    requires Valid(H, a) && Valid(H, b) && Contents(a) == Contents(b)
    ensures a == b
  {
    HashTrie.Canonical(H, a.hamt, b.hamt);
  }

  /** `get` finds nothing for a key never inserted into `new()`. */
  lemma GetAfterInsertOther<K(!new), V>(H: K -> bv64, k: K, v: V, k': K)
    requires k' != k
    ensures Get(H, Insert(H, New(), k, v), k') == None
    ensures Get(H, Insert(H, New(), k, v), k) == Some(v)
  {
    NewValid<K, V>(H);
  }
}
