/**
 * The hash array mapped trie of src/hash_map/hamt.rs. A node has a level
 * and 32 slots; a key lives in the slot picked by the five hash bits of
 * its level. A slot is empty, holds one pair directly, holds a child node
 * one level deeper, or (at the last level only) a collision bucket. Every
 * operation returns a new node that differs from its input in one slot.
 *
 * The meaning of a node is the finite map `Contents`. The invariant
 * `Valid` states the normal form the operations keep: keys sit in their
 * slot, children are one level deeper and buckets only at the last level,
 * and no child or bucket holds fewer than two pairs.
 */
module HashTrie {
  import opened Wrappers
  import opened HashedKey
  import B = CollisionBucket

  datatype Entry<K, V> =
    | Empty
    | KeyValue(key: K, value: V)
    | Child(node: HAMT<K, V>)
    | Bucket(bucket: B.Bucket<K, V>)

  datatype HAMT<K, V> = HAMT(level: nat, entries: seq<Entry<K, V>>)

  // ---------------------------------------------------------------------
  // Meaning and invariant

  /** The pairs a node holds, over all its slots. */
  ghost function Contents<K(!new), V>(h: HAMT<K, V>): map<K, V>
    decreases h, 2
  {
    ContentsFrom(h, 0)
  }

  /** The pairs held in slots `i..` of a node. */
  ghost function ContentsFrom<K(!new), V>(h: HAMT<K, V>, i: nat): map<K, V>
    requires i <= |h.entries|
    decreases h, 1, |h.entries| - i
  {
    if i == |h.entries| then map[] else EntryContents(h.entries[i]) + ContentsFrom(h, i + 1)
  }

  /** The pairs one slot holds. */
  ghost function EntryContents<K(!new), V>(e: Entry<K, V>): map<K, V>
    decreases e, 0
  {
    match e
    case Empty => map[]
    case KeyValue(k, v) => map[k := v]
    case Child(c) => Contents(c)
    case Bucket(b) => b.hashMap
  }

  /** A node of the right shape: 32 slots and a level whose shift fits in 64 bits. */
  ghost predicate Shaped<K(!new), V>(h: HAMT<K, V>)
  {
    h.level <= MAX_LEVEL && |h.entries| == NUM_ENTRIES
  }

  /** Every key held in `e` has hash chunk `i` at `level`. */
  ghost predicate Keyed<K(!new), V>(H: K -> bv64, level: nat, i: nat, e: Entry<K, V>)
    requires level <= MAX_LEVEL
  {
    forall k :: k in EntryContents(e) ==> Chunk(H(k), level) == i
  }

  /** Every slot holds only keys whose chunk is that slot's index. */
  ghost predicate SlotKeyed<K(!new), V>(H: K -> bv64, h: HAMT<K, V>)
  {
    Shaped(h) && forall i :: 0 <= i < NUM_ENTRIES ==> Keyed(H, h.level, i, h.entries[i])
  }

  /** The normal-form invariant of a node and, recursively, of its children. */
  ghost predicate Valid<K(!new), V>(H: K -> bv64, h: HAMT<K, V>)
    decreases h, 1
  {
    SlotKeyed(H, h) && forall i :: 0 <= i < NUM_ENTRIES ==> EntryValid(H, h.level, h.entries[i])
  }

  /**
   * A child is one level deeper, exists only above the last level, is
   * itself valid and holds at least two pairs; a bucket exists only at the
   * last level and holds at least two pairs.
   */
  ghost predicate EntryValid<K(!new), V>(H: K -> bv64, level: nat, e: Entry<K, V>)
    decreases e, 0
  {
    match e
    case Empty => true
    case KeyValue(_, _) => true
    case Child(c) => level < MAX_LEVEL && c.level == level + 1 && Valid(H, c) && |Contents(c).Keys| >= 2
    case Bucket(b) => level == MAX_LEVEL && |b.hashMap.Keys| >= 2
  }

  // ---------------------------------------------------------------------
  // Operations

  /** `HAMT::new(l)`: a node of level `l` with every slot empty. */
  function New<K(!new), V>(l: nat): (h: HAMT<K, V>)
    ensures h.level == l && |h.entries| == NUM_ENTRIES
    ensures Contents(h) == map[]
    ensures forall i :: 0 <= i < NUM_ENTRIES ==> h.entries[i] == Empty
  {
    var h := HAMT(l, seq(NUM_ENTRIES, _ => Empty));
    EmptyContents(h, 0);
    h
  }

  /** A fresh node is valid at every level the hash can reach. */
  lemma NewValid<K(!new), V>(H: K -> bv64, l: nat)
    requires l <= MAX_LEVEL
    ensures Valid(H, New<K, V>(l))
  {
    var h := New<K, V>(l);
    forall i | 0 <= i < NUM_ENTRIES ensures Keyed(H, l, i, h.entries[i]) {
      assert EntryContents(h.entries[i]) == map[];
    }
  }

  /** `entry_index(k)`: the slot of `k` at this node's level, always below 32. */
  function EntryIndex<K(!new), V>(H: K -> bv64, h: HAMT<K, V>, k: K): (i: nat)
    requires h.level <= MAX_LEVEL
    ensures i < NUM_ENTRIES
    ensures i == Chunk(H(k), h.level)
  {
    Chunk(H(k), h.level)
  }

  /** `set_entry(i, e)`: a copy with slot `i` replaced, same level. */
  function SetEntry<K(!new), V>(h: HAMT<K, V>, i: nat, e: Entry<K, V>): (r: HAMT<K, V>)
    requires i < |h.entries|
    ensures r.level == h.level && |r.entries| == |h.entries| && r.entries[i] == e
    ensures forall j :: 0 <= j < |h.entries| && j != i ==> r.entries[j] == h.entries[j]
  {
    HAMT(h.level, h.entries[i := e])
  }

  /**
   * `insert(k, v)`: the node with `k` mapped to `v`; the flag is true
   * exactly when `k` was absent. On a clash with another key a child one
   * level deeper is made, or a bucket once the last level is reached.
   */
  function Insert<K(!new), V>(H: K -> bv64, h: HAMT<K, V>, k: K, v: V): (r: (HAMT<K, V>, bool))
    requires Valid(H, h)
    ensures Valid(H, r.0) && r.0.level == h.level
    ensures Contents(r.0) == Contents(h)[k := v]
    ensures r.1 <==> k !in Contents(h)
    ensures forall j :: 0 <= j < NUM_ENTRIES && j != EntryIndex(H, h, k) ==> r.0.entries[j] == h.entries[j]
    decreases MAX_LEVEL - h.level, 2
  {
    var i := EntryIndex(H, h, k);
    SlotContents(H, h, k);
    assert Keyed(H, h.level, i, h.entries[i]) && EntryValid(H, h.level, h.entries[i]);
    var (e, added) := InsertEntry(H, h.level, i, h.entries[i], k, v);
    UpdateSlot(H, h, i, e, k, v);
    (SetEntry(h, i, e), added)
  }

  /** The slot-level part of `insert`: what slot `i` becomes once `k := v` is added. */
  function InsertEntry<K(!new), V>(H: K -> bv64, level: nat, i: nat, e: Entry<K, V>, k: K, v: V): (r: (Entry<K, V>, bool))
    requires level <= MAX_LEVEL && Chunk(H(k), level) == i
    requires Keyed(H, level, i, e) && EntryValid(H, level, e)
    ensures EntryContents(r.0) == EntryContents(e)[k := v]
    ensures Keyed(H, level, i, r.0) && EntryValid(H, level, r.0)
    ensures r.1 <==> k !in EntryContents(e)
    decreases MAX_LEVEL - level, 1
  {
    match e
    case Empty =>
      (KeyValue(k, v), true)
    case KeyValue(kk, vv) =>
      if kk == k then
        (KeyValue(k, v), false)
      else
        (Clash(H, level, i, kk, vv, k, v), true)
    case Child(c) =>
      var (c', added) := Insert(H, c, k, v);
      B.SubsetCard(Contents(c).Keys, Contents(c').Keys);
      (Child(c'), added)
    case Bucket(b) =>
      var (b', added) := B.Insert(b, k, v);
      assert b'.hashMap == b.hashMap[k := v];
      B.SubsetCard(b.hashMap.Keys, b'.hashMap.Keys);
      (Bucket(b'), added)
  }

  /**
   * The entry `insert` puts in slot `i` when `k` meets a different key `kk`
   * there: a child one level deeper holding both pairs while a level is
   * left, a bucket holding both at the last level.
   */
  function Clash<K(!new), V>(H: K -> bv64, level: nat, i: nat, kk: K, vv: V, k: K, v: V): (e: Entry<K, V>)
    requires level <= MAX_LEVEL && kk != k
    requires Chunk(H(kk), level) == i && Chunk(H(k), level) == i
    ensures EntryContents(e) == map[kk := vv, k := v]
    ensures Keyed(H, level, i, e) && EntryValid(H, level, e)
    ensures e.Child? <==> level < MAX_LEVEL
    ensures e.Bucket? <==> level == MAX_LEVEL
    decreases MAX_LEVEL - level, 0
  {
    var e := if level < MAX_LEVEL then
        NewValid<K, V>(H, level + 1);
        Child(Insert(H, Insert(H, New(level + 1), kk, vv).0, k, v).0)
      else
        Bucket(B.Insert(B.New(kk, vv), k, v).0);
    assert EntryContents(e) == map[kk := vv, k := v];
    assert EntryContents(e).Keys == {kk, k};
    e
  }

  /**
   * `remove(k)`: `None` exactly when `k` is absent; otherwise the node
   * without `k`, where a child or bucket left with one pair collapses into
   * that pair (`node_to_entry`).
   */
  function Remove<K(!new), V>(H: K -> bv64, h: HAMT<K, V>, k: K): (r: Option<HAMT<K, V>>)
    requires Valid(H, h)
    ensures r.None? <==> k !in Contents(h)
    ensures r.Some? ==> Valid(H, r.value) && r.value.level == h.level
    ensures r.Some? ==> Contents(r.value) == Contents(h) - {k}
    ensures r.Some? ==> forall j :: 0 <= j < NUM_ENTRIES && j != EntryIndex(H, h, k) ==> r.value.entries[j] == h.entries[j]
    decreases MAX_LEVEL - h.level
  {
    var i := EntryIndex(H, h, k);
    SlotContents(H, h, k);
    match h.entries[i]
    case Empty => None
    case KeyValue(kk, _) =>
      if kk == k then
        assert EntryContents(Empty) == EntryContents(h.entries[i]) - {k};
        RemoveFromSlot(H, h, i, Empty, k);
        Some(SetEntry(h, i, Empty))
      else
        None
    case Child(c) =>
      assert EntryValid(H, h.level, h.entries[i]);
      (match Remove(H, c, k)
       case None => None
       case Some(c') =>
         assert k in Contents(c);
         CardRemove(Contents(c), k);
         NodeToEntryMeaning(H, c');
         RemoveFromSlot(H, h, i, NodeToEntry(c'), k);
         Some(SetEntry(h, i, NodeToEntry(c'))))
    case Bucket(b) =>
      assert EntryValid(H, h.level, h.entries[i]);
      match B.Remove(b, k)
      case None => None
      case Some(b') =>
        assert b'.hashMap == b.hashMap - {k};
        CardRemove(b.hashMap, k);
        BucketToEntryMeaning(H, h.level, b');
        RemoveFromSlot(H, h, i, BucketToEntry(b'), k);
        Some(SetEntry(h, i, BucketToEntry(b')))
  }

  /** `get(k)`: the value `k` maps to, or `None`. */
  function Get<K(!new), V>(H: K -> bv64, h: HAMT<K, V>, k: K): (r: Option<V>)
    requires Valid(H, h)
    ensures r.Some? <==> k in Contents(h)
    ensures r.Some? ==> r.value == Contents(h)[k]
    decreases MAX_LEVEL - h.level
  {
    var i := EntryIndex(H, h, k);
    SlotContents(H, h, k);
    match h.entries[i]
    case Empty => None
    case KeyValue(kk, vv) => if kk == k then Some(vv) else None
    case Child(c) =>
      assert EntryValid(H, h.level, h.entries[i]);
      Get(H, c, k)
    case Bucket(b) => B.Get(b, k)
  }

  /** The weight `is_singleton` gives a slot: 0 empty, 1 a pair, 2 a child or bucket. */
  function Weight<K(!new), V>(e: Entry<K, V>): nat
  {
    match e
    case Empty => 0
    case KeyValue(_, _) => 1
    case _ => 2
  }

  /** The weights of slots `i..`. */
  function WeightFrom<K(!new), V>(h: HAMT<K, V>, i: nat): nat
    requires i <= |h.entries|
    decreases |h.entries| - i
  {
    if i == |h.entries| then 0 else Weight(h.entries[i]) + WeightFrom(h, i + 1)
  }

  /** `is_singleton()`: the slot weights add up to exactly one. */
  predicate IsSingleton<K(!new), V>(h: HAMT<K, V>)
  {
    WeightFrom(h, 0) == 1
  }

  /** `size()`: the pairs counted slot by slot, children recursively. */
  function Size<K(!new), V>(h: HAMT<K, V>): nat
    decreases h, 2
  {
    SizeFrom(h, 0)
  }

  function SizeFrom<K(!new), V>(h: HAMT<K, V>, i: nat): nat
    requires i <= |h.entries|
    decreases h, 1, |h.entries| - i
  {
    if i == |h.entries| then 0 else EntrySize(h.entries[i]) + SizeFrom(h, i + 1)
  }

  function EntrySize<K(!new), V>(e: Entry<K, V>): nat
    decreases e, 0
  {
    match e
    case Empty => 0
    case KeyValue(_, _) => 1
    case Child(c) => Size(c)
    case Bucket(b) => B.Len(b)
  }

  /**
   * The one pair of a singleton node: the first (and only) slot holding a
   * pair directly, as the first item of its iterator or of `first_rest`.
   */
  function SolePair<K(!new), V>(h: HAMT<K, V>): (p: (K, V))
    requires IsSingleton(h)
    ensures exists j :: 0 <= j < |h.entries| && h.entries[j] == KeyValue(p.0, p.1)
  {
    SolePairFrom(h, 0)
  }

  function SolePairFrom<K(!new), V>(h: HAMT<K, V>, i: nat): (p: (K, V))
    requires i <= |h.entries| && WeightFrom(h, i) == 1
    ensures exists j :: i <= j < |h.entries| && h.entries[j] == KeyValue(p.0, p.1)
    decreases |h.entries| - i
  {
    if h.entries[i].KeyValue? then
      (h.entries[i].key, h.entries[i].value)
    else
      SolePairFrom(h, i + 1)
  }

  /**
   * `node_to_entry` for a node, and the `From<HAMT>` conversion of
   * src/hash_map/entry.rs: a singleton becomes its one pair, anything else
   * is wrapped as a child unchanged.
   */
  function NodeToEntry<K(!new), V>(h: HAMT<K, V>): Entry<K, V>
  {
    if IsSingleton(h) then KeyValue(SolePair(h).0, SolePair(h).1) else Child(h)
  }

  /** `node_to_entry` for a bucket, and `From<Bucket>` of src/hash_map/entry.rs. */
  function BucketToEntry<K(!new), V>(b: B.Bucket<K, V>): Entry<K, V>
  {
    if B.IsSingleton(b) then KeyValue(B.SolePair(b).0, B.SolePair(b).1) else Bucket(b)
  }

  /** `is_normal()` as written: no bucket or child is a singleton, children recursively. */
  predicate IsNormal<K(!new), V>(h: HAMT<K, V>)
    decreases h, 1
  {
    forall i :: 0 <= i < |h.entries| ==> EntryNormal(h.entries[i])
  }

  predicate EntryNormal<K(!new), V>(e: Entry<K, V>)
    decreases e, 0
  {
    match e
    case Bucket(b) => !B.IsSingleton(b)
    case Child(c) => IsNormal(c) && !IsSingleton(c)
    case _ => true
  }

  /**
   * `first_rest()`: the pair in the first non-empty slot (taken from the
   * child or bucket there) and the node without it, normalised again.
   * `None` only for a node without pairs.
   */
  method FirstRest<K(!new), V>(H: K -> bv64, h: HAMT<K, V>) returns (r: Option<(K, V, HAMT<K, V>)>)
    requires Valid(H, h)
    ensures r.None? <==> Contents(h) == map[]
    ensures r.Some? ==> r.value.0 in Contents(h) && Contents(h)[r.value.0] == r.value.1
    ensures r.Some? ==> Valid(H, r.value.2) && r.value.2.level == h.level
    ensures r.Some? ==> Contents(r.value.2) == Contents(h) - {r.value.0}
    decreases h
  {
    for i := 0 to NUM_ENTRIES
      invariant forall j :: 0 <= j < i ==> h.entries[j].Empty?
    {
      match h.entries[i]
      case Empty =>
      case KeyValue(k, v) =>
        assert k in EntryContents(h.entries[i]);
        SlotContents(H, h, k);
        var rest := Remove(H, h, k);
        return Some((k, v, rest.value));
      case Child(c) =>
        assert EntryValid(H, h.level, h.entries[i]);
        var sub := FirstRest(H, c);
        var (k, v, c') := sub.value;
        assert k in EntryContents(h.entries[i]);
        SlotContents(H, h, k);
        CardRemove(Contents(c), k);
        NodeToEntryMeaning(H, c');
        RemoveFromSlot(H, h, i, NodeToEntry(c'), k);
        return Some((k, v, SetEntry(h, i, NodeToEntry(c'))));
      case Bucket(b) =>
        assert EntryValid(H, h.level, h.entries[i]);
        var sub := B.FirstRest(b);
        var (k, v, b') := sub.value;
        assert k in EntryContents(h.entries[i]);
        SlotContents(H, h, k);
        assert b'.hashMap == b.hashMap - {k};
        CardRemove(b.hashMap, k);
        BucketToEntryMeaning(H, h.level, b');
        RemoveFromSlot(H, h, i, BucketToEntry(b'), k);
        return Some((k, v, SetEntry(h, i, BucketToEntry(b'))));
    }
    AllEmptyContents(h, 0);
    return None;
  }

  // ---------------------------------------------------------------------
  // Structural lemmas

  lemma UpdatesCommute<K, V>(m: map<K, V>, k1: K, v1: V, k2: K, v2: V)
    requires k1 != k2
    ensures m[k1 := v1][k2 := v2] == m[k2 := v2][k1 := v1]
  {
    assert m[k1 := v1][k2 := v2].Keys == m[k2 := v2][k1 := v1].Keys;
  }

  lemma CardRemove<K(!new), V>(m: map<K, V>, k: K)
    requires k in m
    ensures |(m - {k}).Keys| == |m.Keys| - 1
  {
    assert (m - {k}).Keys == m.Keys - {k};
  }

  /** Slots that are all empty hold nothing. */
  lemma {:induction false} EmptyContents<K(!new), V>(h: HAMT<K, V>, i: nat)
    requires i <= |h.entries|
    requires forall j :: i <= j < |h.entries| ==> h.entries[j] == Empty
    ensures ContentsFrom(h, i) == map[]
    decreases |h.entries| - i
  {
    if i < |h.entries| {
      EmptyContents(h, i + 1);
    }
  }

  lemma AllEmptyContents<K(!new), V>(h: HAMT<K, V>, i: nat)
    requires i <= |h.entries|
    requires forall j :: i <= j < |h.entries| ==> h.entries[j].Empty?
    ensures ContentsFrom(h, i) == map[]
  {
    EmptyContents(h, i);
  }

  /**
   * Where a key is found: in slots `i..` exactly when its chunk is at least
   * `i` and its own slot holds it, with the value that slot gives.
   */
  lemma {:induction false} ContentsFromAt<K(!new), V>(H: K -> bv64, h: HAMT<K, V>, i: nat, k: K)
    requires SlotKeyed(H, h) && i <= NUM_ENTRIES
    ensures k in ContentsFrom(h, i) <==>
      (Chunk(H(k), h.level) >= i && k in EntryContents(h.entries[Chunk(H(k), h.level)]))
    ensures k in ContentsFrom(h, i) ==>
      ContentsFrom(h, i)[k] == EntryContents(h.entries[Chunk(H(k), h.level)])[k]
    decreases NUM_ENTRIES - i
  {
    if i < NUM_ENTRIES {
      ContentsFromAt(H, h, i + 1, k);
      assert Keyed(H, h.level, i, h.entries[i]);
    }
  }

  /** A key is in a node exactly when its own slot holds it. */
  lemma SlotContents<K(!new), V>(H: K -> bv64, h: HAMT<K, V>, k: K)
    requires SlotKeyed(H, h)
    ensures k in Contents(h) <==> k in EntryContents(h.entries[Chunk(H(k), h.level)])
    ensures k in Contents(h) ==> Contents(h)[k] == EntryContents(h.entries[Chunk(H(k), h.level)])[k]
  {
    ContentsFromAt(H, h, 0, k);
  }

  /**
   * Replacing slot `i` by an entry keyed for it changes the node's meaning
   * exactly on the keys of that slot.
   */
  lemma ReplaceSlot<K(!new), V>(H: K -> bv64, h: HAMT<K, V>, i: nat, e: Entry<K, V>)
    requires SlotKeyed(H, h) && i < NUM_ENTRIES && Keyed(H, h.level, i, e)
    ensures SlotKeyed(H, SetEntry(h, i, e))
    ensures forall k :: k in Contents(SetEntry(h, i, e)) <==>
      (if Chunk(H(k), h.level) == i then k in EntryContents(e) else k in Contents(h))
    ensures forall k :: k in Contents(SetEntry(h, i, e)) ==>
      Contents(SetEntry(h, i, e))[k] == (if Chunk(H(k), h.level) == i then EntryContents(e)[k] else Contents(h)[k])
  {
    var r := SetEntry(h, i, e);
    forall j | 0 <= j < NUM_ENTRIES
      ensures Keyed(H, r.level, j, r.entries[j])
    {
      if j != i {
        assert Keyed(H, h.level, j, h.entries[j]);
      }
    }
    forall k
      ensures k in Contents(r) <==>
        (if Chunk(H(k), h.level) == i then k in EntryContents(e) else k in Contents(h))
      ensures k in Contents(r) ==>
        Contents(r)[k] == (if Chunk(H(k), h.level) == i then EntryContents(e)[k] else Contents(h)[k])
    {
      SlotContents(H, r, k);
      SlotContents(H, h, k);
    }
  }

  /** Replacing a valid node's slot by a valid, keyed entry keeps the node valid. */
  lemma ReplaceSlotValid<K(!new), V>(H: K -> bv64, h: HAMT<K, V>, i: nat, e: Entry<K, V>)
    requires Valid(H, h) && i < NUM_ENTRIES && Keyed(H, h.level, i, e) && EntryValid(H, h.level, e)
    ensures Valid(H, SetEntry(h, i, e))
  {
    ReplaceSlot(H, h, i, e);
    var r := SetEntry(h, i, e);
    forall j | 0 <= j < NUM_ENTRIES
      ensures EntryValid(H, r.level, r.entries[j])
    {
      if j != i {
        assert EntryValid(H, h.level, h.entries[j]);
      }
    }
  }

  /** The slot-level step of `insert`: the node gains `k := v`. */
  lemma UpdateSlot<K(!new), V>(H: K -> bv64, h: HAMT<K, V>, i: nat, e: Entry<K, V>, k: K, v: V)
    requires Valid(H, h) && i < NUM_ENTRIES && Chunk(H(k), h.level) == i
    requires Keyed(H, h.level, i, h.entries[i])
    requires EntryContents(e) == EntryContents(h.entries[i])[k := v]
    requires EntryValid(H, h.level, e)
    ensures Valid(H, SetEntry(h, i, e))
    ensures Contents(SetEntry(h, i, e)) == Contents(h)[k := v]
  {
    ReplaceSlotValid(H, h, i, e);
    ReplaceSlot(H, h, i, e);
    var r := SetEntry(h, i, e);
    forall k' ensures k' in Contents(r) <==> k' in Contents(h)[k := v]
    {
      SlotContents(H, h, k');
    }
    forall k' | k' in Contents(r) ensures Contents(r)[k'] == Contents(h)[k := v][k']
    {
      SlotContents(H, h, k');
    }
    assert Contents(r).Keys == Contents(h)[k := v].Keys;
  }

  /** The slot-level step of `remove`: the node loses `k`. */
  lemma RemoveFromSlot<K(!new), V>(H: K -> bv64, h: HAMT<K, V>, i: nat, e: Entry<K, V>, k: K)
    requires Valid(H, h) && i < NUM_ENTRIES && Chunk(H(k), h.level) == i
    requires Keyed(H, h.level, i, h.entries[i])
    requires EntryContents(e) == EntryContents(h.entries[i]) - {k}
    requires EntryValid(H, h.level, e)
    ensures Valid(H, SetEntry(h, i, e))
    ensures Contents(SetEntry(h, i, e)) == Contents(h) - {k}
  {
    assert Keyed(H, h.level, i, e);
    ReplaceSlotValid(H, h, i, e);
    SlotRemoved(H, h, i, e, k);
  }

  /** Replacing `k`'s slot by an entry without `k` removes exactly `k` from the node. */
  lemma SlotRemoved<K(!new), V>(H: K -> bv64, h: HAMT<K, V>, i: nat, e: Entry<K, V>, k: K)
    requires SlotKeyed(H, h) && i < NUM_ENTRIES && Chunk(H(k), h.level) == i
    requires Keyed(H, h.level, i, e)
    requires EntryContents(e) == EntryContents(h.entries[i]) - {k}
    ensures Contents(SetEntry(h, i, e)) == Contents(h) - {k}
  {
    ReplaceSlot(H, h, i, e);
    var r := SetEntry(h, i, e);
    forall k' ensures k' in Contents(r) <==> k' in Contents(h) - {k}
    {
      SlotContents(H, h, k');
    }
    forall k' | k' in Contents(r) ensures Contents(r)[k'] == (Contents(h) - {k})[k']
    {
      SlotContents(H, h, k');
    }
    assert Contents(r).Keys == (Contents(h) - {k}).Keys;
  }

  // ---------------------------------------------------------------------
  // Size, weights and singletons

  /** `size()` counts the pairs of a valid node. */
  lemma {:induction false} SizeIsCount<K(!new), V>(H: K -> bv64, h: HAMT<K, V>)
    requires Valid(H, h)
    ensures Size(h) == |Contents(h).Keys|
    decreases h, 1
  {
    SizeFromIsCount(H, h, 0);
  }

  lemma {:induction false} SizeFromIsCount<K(!new), V>(H: K -> bv64, h: HAMT<K, V>, i: nat)
    requires Valid(H, h) && i <= NUM_ENTRIES
    ensures SizeFrom(h, i) == |ContentsFrom(h, i).Keys|
    decreases h, 0, NUM_ENTRIES - i
  {
    if i < NUM_ENTRIES {
      SizeFromIsCount(H, h, i + 1);
      EntrySizeIsCount(H, h.level, h.entries[i]);
      var a := EntryContents(h.entries[i]);
      var b := ContentsFrom(h, i + 1);
      forall k | k in a ensures k !in b {
        assert Keyed(H, h.level, i, h.entries[i]);
        ContentsFromAt(H, h, i + 1, k);
      }
      assert (a + b).Keys == a.Keys + b.Keys;
      assert a.Keys * b.Keys == {};
    }
  }

  lemma {:induction false} EntrySizeIsCount<K(!new), V>(H: K -> bv64, level: nat, e: Entry<K, V>)
    requires EntryValid(H, level, e)
    ensures EntrySize(e) == |EntryContents(e).Keys|
    decreases e, 2
  {
    match e
    case Empty =>
    case KeyValue(k, v) =>
      assert EntryContents(e).Keys == {k};
    case Child(c) =>
      SizeIsCount(H, c);
    case Bucket(b) =>
  }

  /**
   * In a valid node the weights add up to 0 exactly when there are no
   * pairs and to 1 exactly when there is one, since every child and bucket
   * holds at least two.
   */
  lemma {:induction false} WeightFromSize<K(!new), V>(H: K -> bv64, h: HAMT<K, V>, i: nat)
    requires Valid(H, h) && i <= NUM_ENTRIES
    ensures WeightFrom(h, i) == 0 <==> SizeFrom(h, i) == 0
    ensures WeightFrom(h, i) == 1 <==> SizeFrom(h, i) == 1
    decreases NUM_ENTRIES - i
  {
    if i < NUM_ENTRIES {
      WeightFromSize(H, h, i + 1);
      var e := h.entries[i];
      assert EntryValid(H, h.level, e);
      EntrySizeIsCount(H, h.level, e);
    }
  }

  /** `is_singleton()` holds of a valid node exactly when it holds one pair. */
  lemma SingletonIffOne<K(!new), V>(H: K -> bv64, h: HAMT<K, V>)
    requires Valid(H, h)
    ensures IsSingleton(h) <==> |Contents(h).Keys| == 1
    ensures WeightFrom(h, 0) == 0 <==> Contents(h) == map[]
  {
    WeightFromSize(H, h, 0);
    SizeIsCount(H, h);
    if Contents(h) != map[] {
      var k :| k in Contents(h);
      assert k in Contents(h).Keys;
    }
  }

  /** The sole pair of a valid singleton node is all it holds. */
  lemma SolePairIsContents<K(!new), V>(H: K -> bv64, h: HAMT<K, V>)
    requires Valid(H, h) && IsSingleton(h)
    ensures Contents(h) == map[SolePair(h).0 := SolePair(h).1]
  {
    var p := SolePair(h);
    var j :| 0 <= j < |h.entries| && h.entries[j] == KeyValue(p.0, p.1);
    assert Keyed(H, h.level, j, h.entries[j]);
    SlotContents(H, h, p.0);
    SingletonIffOne(H, h);
    assert Contents(h).Keys == {p.0} by {
      forall k | k in Contents(h) ensures k == p.0 {
        if k != p.0 {
          assert {k, p.0} <= Contents(h).Keys;
          B.SubsetCard({k, p.0}, Contents(h).Keys);
        }
      }
    }
  }

  /**
   * What `node_to_entry` makes of a node that lost a pair: it holds the
   * same pairs as the node and is a valid entry for the slot the node came from.
   */
  lemma NodeToEntryMeaning<K(!new), V>(H: K -> bv64, c: HAMT<K, V>)
    requires Valid(H, c) && |Contents(c).Keys| >= 1 && c.level >= 1
    ensures EntryContents(NodeToEntry(c)) == Contents(c)
    ensures EntryValid(H, c.level - 1, NodeToEntry(c))
    ensures !NodeToEntry(c).Bucket?
  {
    SingletonIffOne(H, c);
    if IsSingleton(c) {
      SolePairIsContents(H, c);
    }
  }

  /** The same for a bucket that lost a pair. */
  lemma BucketToEntryMeaning<K(!new), V>(H: K -> bv64, level: nat, b: B.Bucket<K, V>)
    requires level == MAX_LEVEL && |b.hashMap.Keys| >= 1
    ensures EntryContents(BucketToEntry(b)) == b.hashMap
    ensures EntryValid(H, level, BucketToEntry(b))
    ensures !BucketToEntry(b).Child?
  {
  }

  /** Conversion never yields a child or bucket holding exactly one pair. */
  lemma ConversionsNormalise<K(!new), V>(H: K -> bv64, c: HAMT<K, V>, b: B.Bucket<K, V>)
    requires Valid(H, c)
    ensures NodeToEntry(c).Child? ==> |Contents(NodeToEntry(c).node).Keys| != 1
    ensures BucketToEntry(b).Bucket? ==> |BucketToEntry(b).bucket.hashMap.Keys| != 1
  {
    SingletonIffOne(H, c);
  }

  /** A valid node is normal in the sense of `is_normal`, and more. */
  lemma {:induction false} ValidIsNormal<K(!new), V>(H: K -> bv64, h: HAMT<K, V>)
    requires Valid(H, h)
    ensures IsNormal(h)
    decreases h, 1
  {
    forall i | 0 <= i < |h.entries| ensures EntryNormal(h.entries[i]) {
      EntryValidIsNormal(H, h.level, h.entries[i]);
    }
  }

  lemma {:induction false} EntryValidIsNormal<K(!new), V>(H: K -> bv64, level: nat, e: Entry<K, V>)
    requires EntryValid(H, level, e)
    ensures EntryNormal(e)
    decreases e, 0
  {
    match e
    case Empty =>
    case KeyValue(_, _) =>
    case Child(c) =>
      ValidIsNormal(H, c);
      SingletonIffOne(H, c);
    case Bucket(b) =>
  }

  // ---------------------------------------------------------------------
  // Laws

  /** The shape of a valid entry is determined by how many pairs it holds (and the level). */
  lemma EntryShape<K(!new), V>(H: K -> bv64, level: nat, e: Entry<K, V>)
    requires EntryValid(H, level, e)
    ensures e.Empty? <==> |EntryContents(e).Keys| == 0
    ensures e.KeyValue? <==> |EntryContents(e).Keys| == 1
    ensures e.Child? ==> level < MAX_LEVEL
    ensures e.Bucket? ==> level == MAX_LEVEL
  {
    if e.KeyValue? {
      assert EntryContents(e).Keys == {e.key};
    }
  }

  /** Two slot-keyed nodes of one level with the same pairs hold the same pairs slot by slot. */
  lemma SlotSame<K(!new), V>(H: K -> bv64, a: HAMT<K, V>, b: HAMT<K, V>, i: nat)
    requires SlotKeyed(H, a) && SlotKeyed(H, b) && a.level == b.level && i < NUM_ENTRIES
    requires Contents(a) == Contents(b)
    ensures EntryContents(a.entries[i]) == EntryContents(b.entries[i])
  {
    var x := EntryContents(a.entries[i]);
    var y := EntryContents(b.entries[i]);
    assert Keyed(H, a.level, i, a.entries[i]) && Keyed(H, b.level, i, b.entries[i]);
    forall k ensures (k in x <==> k in y) && (k in x ==> x[k] == y[k]) {
      SlotContents(H, a, k);
      SlotContents(H, b, k);
    }
    assert x.Keys == y.Keys;
  }

  /**
   * Canonical form: valid nodes of the same level holding the same pairs
   * are structurally equal, however they were built. Equality of tries
   * therefore compares contents, as the `equality` test of
   * src/hash_map/hamt.rs asserts after shuffled inserts and removes.
   */
  lemma {:induction false} Canonical<K(!new), V>(H: K -> bv64, a: HAMT<K, V>, b: HAMT<K, V>)
    requires Valid(H, a) && Valid(H, b) && a.level == b.level
    requires Contents(a) == Contents(b)
    ensures a == b
    decreases MAX_LEVEL - a.level, 1
  {
    forall i | 0 <= i < NUM_ENTRIES ensures a.entries[i] == b.entries[i] {
      SlotSame(H, a, b, i);
      assert EntryValid(H, a.level, a.entries[i]) && EntryValid(H, b.level, b.entries[i]);
      EntryCanonical(H, a.level, a.entries[i], b.entries[i]);
    }
    assert a.entries == b.entries;
  }

  lemma {:induction false} EntryCanonical<K(!new), V>(H: K -> bv64, level: nat, x: Entry<K, V>, y: Entry<K, V>)
    requires level <= MAX_LEVEL
    requires EntryValid(H, level, x) && EntryValid(H, level, y)
    requires EntryContents(x) == EntryContents(y)
    ensures x == y
    decreases MAX_LEVEL - level, 0
  {
    EntryShape(H, level, x);
    EntryShape(H, level, y);
    match x
    case Empty =>
    case KeyValue(k, v) =>
      assert k in EntryContents(y);
    case Child(c) =>
      Canonical(H, c, y.node);
    case Bucket(b) =>
  }

  /** An empty valid node is the fresh node of its level; draining ends in `HAMT::new`. */
  lemma EmptyIsNew<K(!new), V>(H: K -> bv64, h: HAMT<K, V>)
    requires Valid(H, h) && Contents(h) == map[]
    ensures h == New(h.level)
  {
    NewValid<K, V>(H, h.level);
    Canonical(H, h, New(h.level));
  }

  /** `get` after `insert(k, v)`: `k` finds `v`, every other key finds what it found before. */
  lemma GetAfterInsert<K(!new), V>(H: K -> bv64, h: HAMT<K, V>, k: K, v: V, k': K)
    requires Valid(H, h)
    ensures Get(H, Insert(H, h, k, v).0, k) == Some(v)
    ensures k' != k ==> Get(H, Insert(H, h, k, v).0, k') == Get(H, h, k')
  {
  }

  /** `get` after a successful `remove(k)`: `k` is gone, every other key unchanged. */
  lemma GetAfterRemove<K(!new), V>(H: K -> bv64, h: HAMT<K, V>, k: K, k': K)
    requires Valid(H, h) && Remove(H, h, k).Some?
    ensures Get(H, Remove(H, h, k).value, k) == None
    ensures k' != k ==> Get(H, Remove(H, h, k).value, k') == Get(H, h, k')
  {
  }

  /** `size` grows by one exactly when `insert` reports a new key. */
  lemma InsertSize<K(!new), V>(H: K -> bv64, h: HAMT<K, V>, k: K, v: V)
    requires Valid(H, h)
    ensures Size(Insert(H, h, k, v).0) == if Insert(H, h, k, v).1 then Size(h) + 1 else Size(h)
  {
    var r := Insert(H, h, k, v).0;
    SizeIsCount(H, h);
    SizeIsCount(H, r);
    if k in Contents(h) {
      assert Contents(r).Keys == Contents(h).Keys;
    } else {
      assert Contents(r).Keys == Contents(h).Keys + {k};
    }
  }

  /** `size` drops by exactly one on a successful `remove`. */
  lemma RemoveSize<K(!new), V>(H: K -> bv64, h: HAMT<K, V>, k: K)
    requires Valid(H, h) && Remove(H, h, k).Some?
    ensures Size(Remove(H, h, k).value) == Size(h) - 1
  {
    SizeIsCount(H, h);
    SizeIsCount(H, Remove(H, h, k).value);
    CardRemove(Contents(h), k);
  }

  /** Removing a key just inserted into a node that lacked it gives the node back. */
  lemma RemoveInsert<K(!new), V>(H: K -> bv64, h: HAMT<K, V>, k: K, v: V)
    requires Valid(H, h) && k !in Contents(h)
    ensures Remove(H, Insert(H, h, k, v).0, k) == Some(h)
  {
    RemoveInserted(H, h, Insert(H, h, k, v).0, k, v);
  }

  /** Removing `k` from a node holding `h`'s pairs and `k` gives `h` back. */
  lemma RemoveInserted<K(!new), V>(H: K -> bv64, h: HAMT<K, V>, i: HAMT<K, V>, k: K, v: V)
    requires Valid(H, h) && Valid(H, i) && i.level == h.level
    requires k !in Contents(h) && Contents(i) == Contents(h)[k := v]
    ensures Remove(H, i, k) == Some(h)
  {
    var m := Contents(h);
    var r := Remove(H, i, k).value;
    assert (m[k := v] - {k}).Keys == m.Keys;
    Canonical(H, r, h);
  }

  /** Inserting distinct keys in either order gives the same trie. */
  lemma InsertCommutes<K(!new), V>(H: K -> bv64, h: HAMT<K, V>, k1: K, v1: V, k2: K, v2: V)
    requires Valid(H, h) && k1 != k2
    ensures Insert(H, Insert(H, h, k1, v1).0, k2, v2).0 == Insert(H, Insert(H, h, k2, v2).0, k1, v1).0
  {
    var x1 := Insert(H, h, k1, v1).0;
    var y1 := Insert(H, h, k2, v2).0;
    var x := Insert(H, x1, k2, v2).0;
    var y := Insert(H, y1, k1, v1).0;
    UpdatesCommute(Contents(h), k1, v1, k2, v2);
    Canonical(H, x, y);
  }
}
