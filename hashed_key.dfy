/**
 * The hash cursor of src/hash_map/hashed_key.rs: a key together with its
 * 64-bit hash, shifted right by five bits for every trie level already
 * descended. The hash function itself is a foreign library; it is a
 * parameter `H` here, so equal keys always hash equally.
 */
module HashedKey {

  /** Number of slots in a trie node (five hash bits per level). */
  const NUM_ENTRIES: nat := 32

  /** 64 hash bits hold twelve full five-bit chunks; level 12 sees the last four bits. */
  const MAX_LEVEL: nat := 64 / 5

  /**
   * The hash after `level` five-bit right shifts: the value `hash >> (level * 5)`
   * that `swap_key` and the node-level `entry_index` of src/hash_map/hamt.rs
   * compute with one shift, and that `increment_level` reaches one shift at a time.
   */
  function Shifted(hash: bv64, level: nat): bv64
  {
    if level == 0 then hash else Shifted(hash, level - 1) >> 5
  }

  /** The five-bit chunk of `hash` that picks a slot at trie level `level`. */
  function Chunk(hash: bv64, level: nat): (i: nat)
    requires level <= MAX_LEVEL
    ensures i < NUM_ENTRIES
  {
    (Shifted(hash, level) & 0x1F) as nat
  }

  datatype HashedKey<K> = HashedKey(key: K, hash: bv64, level: nat)
  {
    /** `key()`: the key the cursor carries. */
    function Key(): K { key }

    /** `to_key()`: gives the key back. */
    function ToKey(): K { key }

    /** `level()`. */
    function Level(): nat { level }

    /** `entry_index()`: the low five bits of the (already shifted) hash. */
    function EntryIndex(): (i: nat)
      ensures i < NUM_ENTRIES
    {
      (hash & 0x1F) as nat
    }

    /** `increment_level()`: one level deeper, same key. */
    function IncrementLevel(): (c: HashedKey<K>)
      ensures c.key == key && c.level == level + 1
      ensures c.hash == hash >> 5
    {
      HashedKey(key, hash >> 5, level + 1)
    }
  }

  /**
   * The cursor invariant: the stored hash is the key's full hash shifted
   * right by five bits per level, and the level still fits in the hash.
   */
  ghost predicate Valid<K>(H: K -> bv64, c: HashedKey<K>)
  {
    c.level <= MAX_LEVEL && c.hash == Shifted(H(c.key), c.level)
  }

  /** `new(k)`: level 0 and the key's full hash. */
  function New<K>(H: K -> bv64, k: K): (c: HashedKey<K>)
    ensures Valid(H, c)
    ensures c.key == k && c.level == 0 && c.hash == H(k)
  {
    HashedKey(k, H(k), 0)
  }

  /**
   * `swap_key(k)`: same level, new key, hash recomputed for the new key.
   * The product `level * 5` is a `u8` used as a 64-bit shift amount, so the
   * operation is only defined for levels up to MAX_LEVEL.
   */
  function SwapKey<K>(H: K -> bv64, c: HashedKey<K>, k: K): (r: HashedKey<K>)
    requires c.level <= MAX_LEVEL
    ensures Valid(H, r)
    ensures r.key == k && r.level == c.level
  {
    HashedKey(k, Shifted(H(k), c.level), c.level)
  }

  /** `increment_level` keeps the cursor invariant while a level is left. */
  lemma IncrementLevelValid<K>(H: K -> bv64, c: HashedKey<K>)
    requires Valid(H, c) && c.level < MAX_LEVEL
    ensures Valid(H, c.IncrementLevel())
  {
  }

  /**
   * A valid cursor picks the five-bit chunk of its key's hash at its level,
   * the hash taken through `level` successive five-bit shifts (`Shifted`).
   */
  lemma EntryIndexAgrees<K>(H: K -> bv64, c: HashedKey<K>)
    requires Valid(H, c)
    ensures c.EntryIndex() == Chunk(H(c.key), c.level)
  {
  }

  /** After `n` increments from `new(k)` the cursor selects the level-`n` chunk of `H(k)`. */
  lemma {:induction false} DescentAgrees<K>(H: K -> bv64, k: K, n: nat)
    requires n <= MAX_LEVEL
    ensures Valid(H, Descend(New(H, k), n))
    ensures Descend(New(H, k), n).level == n && Descend(New(H, k), n).key == k
    ensures Descend(New(H, k), n).EntryIndex() == Chunk(H(k), n)
  {
    if n > 0 {
      DescentAgrees(H, k, n - 1);
      IncrementLevelValid(H, Descend(New(H, k), n - 1));
    }
  }

  /** The cursor after `n` calls of `increment_level`. */
  function Descend<K>(c: HashedKey<K>, n: nat): (r: HashedKey<K>)
    ensures r.key == c.key && r.level == c.level + n
  {
    if n == 0 then c else Descend(c, n - 1).IncrementLevel()
  }
}
