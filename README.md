# imleak core in Dafny

This project models the core of `imleak`, a Rust library of immutable
(persistent) collections. Every update returns a new collection and leaves
the old one as it was. There are three parts.

- **Persistent hash map** (`src/hash_map`). A hash array mapped trie (HAMT):
  32 slots per node, five hash bits per level, 12 full levels
  (`MAX_LEVEL = 64 / 5`), and collision buckets below the last level.
  - The trie is the datatype `HashTrie.HAMT`. Its meaning is the finite map
    `Contents`.
  - Its invariant `Valid` is the normal form that `insert` and `remove`
    keep. Keys sit in the slot their hash selects. Children are one level
    deeper. Buckets appear only at the last level. No child or bucket holds
    fewer than two pairs.
  - `Valid` makes the trie canonical: two valid tries with the same pairs
    are equal (`HashTrie.Canonical`). This is why the source's `equality`
    tests pass whatever the insertion order.
  - The bucket, the entry conversions, the hash cursor, the trie iterator
    and both map facades (`hash_map.rs` and `mod.rs`) are modelled on top
    of it.
- **Persistent vector** (`src/vec`, and the parts of `src/vector` it
  shares). A trie of 32-wide leaves and internal nodes.
  - These are Dafny classes over arrays, because the source fills them in
    place before handing them out.
  - Every internal node carries ghost `Children`, `Parts`, `Shapes`,
    `Elements` and `Repr`.
  - `Shape` is the pure skeleton of a subtree. `IsComplete` says every
    internal node is non-empty and all its children have the same height; it
    does not say that the children before the last are full. `IsFull` says
    no value fits without a new root: a leaf holds 32 values, and an
    internal node has 32 children and a full last child.
  - `PushBack` is proved against these: it appends exactly one value, keeps
    the trie complete, and keeps or raises its height exactly as the source
    intends. The `balanced()` asserts of `push_back` (src/vec/internal_node.rs:36
    and 45) follow: both branches return complete nodes.
- **Tagged pointers** (`src/tagged_ref.rs`, `src/vector/node_ref.rs`). A
  4-aligned address with a 2-bit tag in its low bits.
  - Memory is a map from addresses to stored values. The allocator's fresh
    address is a parameter.
  - Packing and unpacking are proved inverse on 64-bit bit-vectors.

The hash function (`DefaultHasher`) is a parameter `H: K -> bv64` of every
hash-map operation.

## Model

| member | source | states |
|---|---|---|
| HashedKey.Chunk | src/hash_map/hamt.rs:41-46 | the slot index a hash selects at a level is below 32 |
| HashedKey.HashedKey.EntryIndex | src/hash_map/hashed_key.rs:24-26 | the cursor's slot index is its low five hash bits, below 32 |
| HashedKey.New | src/hash_map/hashed_key.rs:12-18 | a cursor at level 0 carrying the key and its full hash, consistent with the hash function |
| HashedKey.SwapKey | src/hash_map/hashed_key.rs:32-38 | the new key at the same level, with the hash consistent for that key and level |
| HashedKey.IncrementLevelValid | src/hash_map/hashed_key.rs:40-46 | stepping a consistent cursor one level down keeps it consistent with the key's hash |
| HashedKey.EntryIndexAgrees | src/hash_map/hashed_key.rs:24-26 | a consistent cursor's slot index is the five-bit chunk of the key's hash at its level |
| HashedKey.DescentAgrees | src/hash_map/hashed_key.rs:40-46 | descending n levels from a new cursor picks the same slot as the node-level index at level n |
| HashedKey.Descend | src/hash_map/hashed_key.rs:40-46 | n level increments keep the key and add n to the level |
| CollisionBucket.New | src/hash_map/bucket.rs:13-17 | the bucket holds exactly the one pair and is a singleton |
| CollisionBucket.Insert | src/hash_map/bucket.rs:21-28 | the key maps to the value, other keys are unchanged, the flag says whether the key was new, and the length grows exactly when it was |
| CollisionBucket.Remove | src/hash_map/bucket.rs:30-36 | None exactly when the key is absent; otherwise the key is gone, the others are unchanged and the length drops by one |
| CollisionBucket.Get | src/hash_map/bucket.rs:38-43 | finds a value exactly for held keys, and it is the held value |
| CollisionBucket.Len | src/hash_map/bucket.rs:46-48 | the number of keys; zero exactly when every lookup misses |
| CollisionBucket.SingletonIffOneKey | src/hash_map/bucket.rs:52-54 | `is_singleton` holds exactly when the bucket has one key |
| CollisionBucket.EqualIffSameLookups | src/hash_map/bucket.rs:119-123 | two buckets are equal exactly when every lookup agrees, whatever the insertion order |
| CollisionBucket.InsertCommutes | src/hash_map/bucket.rs:119-123 | inserting two distinct keys in either order gives equal buckets |
| CollisionBucket.RemoveInsert | src/hash_map/bucket.rs:103-109 | removing a freshly inserted key gives back the original bucket |
| CollisionBucket.SolePair | src/hash_map/hamt.rs:211-221 | a singleton bucket's pair is its only key and that key's value |
| CollisionBucket.FirstRest | src/hash_map/hamt.rs:176-178 | None exactly for an empty bucket; otherwise a held pair and the bucket without its key |
| CollisionBucket.ToVec | src/hash_map/hamt.rs:272-280 | the pair sequence has one entry per key, no key twice, and exactly the bucket's pairs |
| HashTrie.New | src/hash_map/hamt.rs:34-39 | a node of the given level with 32 empty slots, holding nothing |
| HashTrie.NewValid | src/hash_map/hamt.rs:34-39 | a new node of level at most 12 is in normal form |
| HashTrie.EntryIndex | src/hash_map/hamt.rs:41-46 | the slot is the five hash bits of the node's level, below 32 |
| HashTrie.SetEntry | src/hash_map/hamt.rs:48-56 | same level and width; slot i replaced, every other slot unchanged |
| HashTrie.Insert | src/hash_map/hamt.rs:77-114 | the result is in normal form at the same level, holds the old pairs with k mapped to v, flags exactly a new key, and changes only k's slot |
| HashTrie.InsertEntry | src/hash_map/hamt.rs:80-113 | inserting into one slot's entry adds the pair, keeps the entry in its slot's normal form and flags a new key |
| HashTrie.Clash | src/hash_map/hamt.rs:87-103 | two distinct keys meeting in a slot become a child node below level 12 or a bucket at level 12, holding both pairs |
| HashTrie.Remove | src/hash_map/hamt.rs:116-143 | None exactly when k is absent; otherwise a normal-form node at the same level without k, changing only k's slot |
| HashTrie.Get | src/hash_map/hamt.rs:145-161 | finds a value exactly for held keys, and it is the held value |
| HashTrie.SolePair | src/hash_map/hamt.rs:186-196 | a singleton node's pair sits directly in one of its slots |
| HashTrie.SolePairFrom | src/hash_map/hamt.rs:186-196 | with weight 1 from slot i on, that pair sits directly in a slot at or after i |
| HashTrie.FirstRest | src/hash_map/hamt.rs:163-184 | None exactly for an empty trie; otherwise a held pair and the normal-form trie without that key |
| HashTrie.SizeIsCount | src/hash_map/hamt.rs:198-208 | `size` of a normal-form trie is its number of keys |
| HashTrie.SingletonIffOne | src/hash_map/hamt.rs:186-196 | in normal form, `is_singleton` holds exactly when the trie has one key, and weight 0 means empty |
| HashTrie.SolePairIsContents | src/hash_map/hamt.rs:211-221 | a normal-form singleton holds exactly its sole pair |
| HashTrie.NodeToEntryMeaning | src/hash_map/hamt.rs:211-221 | converting a non-empty child keeps its pairs and yields an entry valid in the parent's slot |
| HashTrie.BucketToEntryMeaning | src/hash_map/hamt.rs:211-221 | converting a non-empty bucket keeps its pairs and yields an entry valid at the last level |
| HashTrie.ConversionsNormalise | src/hash_map/hamt.rs:67-73 | the conversions never leave a child or bucket with exactly one pair |
| HashTrie.ValidIsNormal | src/hash_map/hamt.rs:67-73 | the normal form implies the test predicate `is_normal` |
| HashTrie.Canonical | src/hash_map/hamt.rs:441-463 | two normal-form tries of one level with the same pairs are equal |
| HashTrie.EmptyIsNew | src/hash_map/hamt.rs:401-430 | a normal-form trie holding nothing is the new node of its level |
| HashTrie.GetAfterInsert | src/hash_map/hamt.rs:388-399 | after inserting k, get k finds v and every other key is unaffected |
| HashTrie.GetAfterRemove | src/hash_map/hamt.rs:363-386 | after removing k, get k misses and every other key is unaffected |
| HashTrie.InsertSize | src/hash_map/hamt.rs:301-321 | insert grows `size` by one exactly when it reports a new key |
| HashTrie.RemoveSize | src/hash_map/hamt.rs:363-386 | a successful remove shrinks `size` by one |
| HashTrie.RemoveInsert | src/hash_map/hamt.rs:346-361 | removing a freshly inserted key gives back the original trie |
| HashTrie.InsertCommutes | src/hash_map/hamt.rs:441-463 | inserting two distinct keys in either order gives equal tries |
| HashTrie.EntryShape | src/hash_map/hamt.rs:12-18 | in normal form, an entry is empty with no pairs, a direct pair with one, a child only above the last level, and a bucket only at it |
| HashTrie.UpdateSlot | src/hash_map/hamt.rs:105-112 | replacing k's slot by an entry holding its pairs plus k keeps normal form and adds k to the trie |
| HashTrie.RemoveFromSlot | src/hash_map/hamt.rs:122-142 | replacing k's slot by an entry holding its pairs minus k keeps normal form and removes k from the trie |
| HashTrieEntry.ConvertNode | src/hash_map/entry.rs:33-45 | Some exactly for a singleton trie, carrying the first pair of its walk, which is all it holds |
| HashTrieEntry.ConvertBucket | src/hash_map/entry.rs:33-45 | Some exactly for a singleton bucket, carrying its only pair |
| HashTrieEntry.FromNode | src/hash_map/entry.rs:21-25 | the entry keeps the trie's pairs and is never a child with one pair |
| HashTrieEntry.FromBucket | src/hash_map/entry.rs:27-31 | the entry keeps the bucket's pairs and is never a bucket with one pair |
| HashTrieIterator.HamtIterator.Next | src/hash_map/hamt.rs:250-283 | yields None exactly when nothing remains; otherwise a remaining pair, which is taken out of what remains |
| HashTrieIterator.HamtIterator.constructor | src/hash_map/hamt.rs:238-245 | a fresh walk has the whole trie still to yield |
| HashTrieIterator.Collect | src/hash_map/hamt.rs:487-521 | draining the walk yields `size()` pairs, no key twice, each agreeing with `get` |
| HashTrieIterator.StepKeyValue | src/hash_map/hamt.rs:257-265 | visiting a direct pair yields that pair and removes exactly it from what remains |
| HashTrieIterator.StepBucket | src/hash_map/hamt.rs:266-269 | descending into a bucket keeps what remains and shrinks the work measure |
| HashTrieIterator.StepPair | src/hash_map/hamt.rs:272-280 | visiting a bucket's pair yields it and removes exactly it from what remains |
| HashTrieIterator.StepEmpty | src/hash_map/hamt.rs:259-260 | skipping an empty slot keeps what remains and shrinks the work measure |
| HashTrieIterator.ChildFrames | src/hash_map/hamt.rs:261-264 | descending into a child splits the frame's pairs between the child and the rest of the node, with less work |
| HashTrieIterator.PopExhausted | src/hash_map/hamt.rs:251-255 | popping a finished frame keeps what remains and shrinks the work measure |
| HashTrieIterator.DrainedDone | src/hash_map/hamt.rs:510-518 | once nothing remains, the yielded pairs number exactly the trie's keys |
| PersistentHashMap.New | src/hash_map/hash_map.rs:15-20 | size 0 over an empty level-0 trie |
| PersistentHashMap.NewValid | src/hash_map/hash_map.rs:15-20 | the new map satisfies the invariant |
| PersistentHashMap.Insert | src/hash_map/hash_map.rs:22-29 | the pairs gain k mapped to v, and `size` grows exactly when k was new |
| PersistentHashMap.Remove | src/hash_map/hash_map.rs:31-39 | None exactly when k is absent; otherwise the pairs lose k and `size` drops by one |
| PersistentHashMap.Get | src/hash_map/hash_map.rs:41-46 | finds a value exactly for held keys, and it is the held value |
| PersistentHashMap.Size | src/hash_map/hash_map.rs:61-63 | the stored `size` is the number of keys and the trie's own `size()` |
| PersistentHashMap.FirstRest | src/hash_map/hash_map.rs:48-59 | None exactly for an empty map; otherwise a held pair and the map without that key, one smaller |
| PersistentHashMap.Pairs | src/hash_map/hash_map.rs:72-89 | iterating yields `size` pairs, no key twice, each agreeing with `get` |
| PersistentHashMap.SameContentsEqual | src/hash_map/hash_map.rs:204-223 | maps holding the same pairs are equal |
| PersistentHashMap.EmptyIsNew | src/hash_map/hash_map.rs:184-200 | a map holding nothing equals `new()` |
| PersistentHashMap.RemoveAfterInsert | src/hash_map/hash_map.rs:137-144 | removing a freshly inserted key gives back the original map |
| PersistentHashMap.InsertTwiceSize | src/hash_map/hash_map.rs:106-113 | inserting the same key twice leaves size 1 |
| CursorHashMap.New | src/hash_map/mod.rs:20-25 | length 0 over an empty level-0 trie |
| CursorHashMap.NewValid | src/hash_map/mod.rs:20-25 | the new map satisfies the invariant and is empty |
| CursorHashMap.Insert | src/hash_map/mod.rs:27-34 | the pairs gain k mapped to v, and `len` grows exactly when k was new |
| CursorHashMap.Remove | src/hash_map/mod.rs:36-44 | None exactly when k is absent; otherwise the pairs lose k and `len` drops by one |
| CursorHashMap.Get | src/hash_map/mod.rs:46-51 | finds a value exactly for held keys, and it is the held value |
| CursorHashMap.Len | src/hash_map/mod.rs:53-55 | `len` is the number of keys |
| CursorHashMap.IsEmptyIffNoPairs | src/hash_map/mod.rs:57-59 | `is_empty` holds exactly when the map holds no pair |
| CursorHashMap.CursorPicksSlot | src/hash_map/mod.rs:27-28 | a new cursor stepped down to a node's level picks the slot that node selects for the key |
| CursorHashMap.SameContentsEqual | src/hash_map/mod.rs:184-203 | maps holding the same pairs are equal |
| CursorHashMap.GetAfterInsertOther | src/hash_map/mod.rs:171-180 | in a map with one pair, get finds that key's value and misses every other key |
| VecLeaf.LeafNode.New | src/vec/leaf_node.rs:14-27 | a fresh valid leaf holding exactly the given values, at most 32 |
| VecLeaf.LeafNode.AppendValue | src/vec/leaf_node.rs:46-49 | the value is appended in place, nothing else changes |
| VecLeaf.LeafNode.PushBack | src/vec/leaf_node.rs:29-40 | None exactly when the leaf holds 32 values; otherwise a fresh leaf holding the old values then v, the original unchanged |
| VecLeaf.LeafNode.Len | src/vec/leaf_node.rs:42-44 | the number of values held, at most 32 |
| VecLeaf.LeafNode.Get | src/vec/leaf_node.rs:51-53 | the value at an index below the length |
| VecLeaf.Equal | src/vec/leaf_node.rs:101-115 | two leaves are equal exactly when they hold the same values |
| VecLeaf.LeafNodeIterator.Next | src/vec/leaf_node.rs:76-86 | the next value in order, or None exactly at the end |
| VecLeaf.Collect | src/vec/leaf_node.rs:56-86 | iterating a leaf yields exactly its values in order |
| VecTrie.NewSlot | src/vector/slot.rs:10-15 | the slot keeps the reference and adds its length to the running total |
| VecTrie.RefLen | src/vector/slot.rs:10-15 | a node's length is the number of values below it |
| VecTrie.RefLevel | src/vector/node_ref.rs:39-44 | a leaf has level 0 and an internal node its height |
| VecTrie.InternalNode.New | src/vec/internal_node.rs:14-25 | a fresh node whose children are the given references, each slot recording its child's values and shape, and holding all their values in order |
| VecTrie.InternalNode.Len | src/vec/internal_node.rs:52-58 | the number of values below the node |
| VecTrie.InternalNode.Size | src/vec/internal_node.rs:60-62 | the number of children, at most 32 |
| VecTrie.InternalNode.Get | src/vec/internal_node.rs:64-66 | slot i holds child i, valid and inside the node's footprint, with the running total of values up to it |
| VecTrie.InternalNode.Level | src/vec/internal_node.rs:68-70 | one more than the last child's level: the node's height |
| VecTrie.InternalNode.ChildLevel | src/vec/internal_node.rs:73-75 | the height of child i |
| VecTrie.InternalNode.Balanced | src/vec/internal_node.rs:72-76 | holds exactly when all children have the same height |
| VecTrie.InternalNode.AppendSlot | src/vec/internal_node.rs:78-81 | adds the reference as a last child, its values after the node's own |
| VecTrie.InternalNode.UpdateSlot | src/vec/internal_node.rs:83-94 | replaces the last child, its values after those of the other children |
| VecTrie.InternalNode.PushBack | src/vec/internal_node.rs:27-50 | None exactly when the complete node is full; otherwise a complete node as high holding the old values then v: when the last child takes v, the same number of children with all but the last kept; when the last child is full, every old child kept and one more child added |
| VecTrie.InternalNode.PushBackAsWritten | src/vec/internal_node.rs:27-50 | the source as written: when the last child is full, the new node loses that child's values |
| VecTrie.CreateBranch | src/vector/utilities.rs:5-11 | a fresh single-path subtree of the given height holding just v |
| VecTrie.RefPushBack | src/vec/internal_node.rs:28 | dispatches to the leaf or internal push: None exactly when full, else the same kind of node, as high, holding the old values then v |
| VecTrie.InternalNodeIterator.Next | src/vec/internal_node.rs:114-127 | the next child in order, or None exactly at the end |
| VecTrie.CollectChildren | src/vec/internal_node.rs:97-127 | iterating a node yields exactly its children in order |
| VecTrie.TwoFullLeaves | src/vec/internal_node.rs:14-25 | a node over two full leaves is complete, its last child full, holding 64 values |
| VecTrie.DefectWitness | src/vec/internal_node.rs:34 | pushing onto a node over two full leaves gives 33 values as written and 65 when corrected |
| VecTrie.ReplaceLastComplete | src/vec/internal_node.rs:41-47 | replacing the last child of a complete node with a complete subtree as high keeps it complete and as high |
| VecTrie.AppendComplete | src/vec/internal_node.rs:29-39 | appending a complete subtree as high as the children keeps the node complete and as high |
| PersistentVec.Vec.Len | src/vec/mod.rs:36-38 | the number of values pushed |
| PersistentVec.Vec.IsEmpty | src/vec/mod.rs:40-42 | holds exactly when no value was pushed |
| PersistentVec.Vec.PushBack | src/vec/mod.rs:27-34 | a valid vector one longer, holding the old values then v, one level higher exactly when the old root was full |
| PersistentVec.Grow | src/vec/mod.rs:29-31 | a new complete root one level higher holding the old values then v, whose two children are the old root and a single-path branch holding only v |
| PersistentVec.New | src/vec/mod.rs:20-25 | an empty valid vector |
| PersistentVec.GrownRoot | src/vec/mod.rs:29-31 | a node over the old root and an equally high branch is complete, one level higher, and holds both in order |
| VectorLeaf.LeafNode.New | src/vector/leaf_node.rs:12-24 | a fresh leaf holding exactly the given values, at most 32 |
| VectorLeaf.LeafNode.PushBack | src/vector/leaf_node.rs:26-37 | None exactly when the leaf holds 32 values; otherwise a fresh leaf holding the old values then v |
| VectorNodeRef.TagBits | src/vector/node_ref.rs:71-78 | 0 exactly for an internal node, 1 for a leaf; fits the tag mask |
| VectorNodeRef.TagOf | src/vector/node_ref.rs:80-88 | the inverse of TagBits on 0 and 1 |
| VectorNodeRef.Store | src/tagged_ref.rs:13-26 | stores the node at the address and returns the address tagged as asked |
| VectorNodeRef.Internal | src/vector/node_ref.rs:11-15 | the stored node reads back as that internal node |
| VectorNodeRef.Leaf | src/vector/node_ref.rs:17-21 | the stored leaf reads back as that leaf |
| VectorNodeRef.AsRef | src/vector/node_ref.rs:23-28 | the node stored at the address, read as an internal node exactly when the tag says so |
| VectorNodeRef.Level | src/vector/node_ref.rs:39-44 | 0 for a leaf, the node's height otherwise |
| VectorNodeRef.PushBack | src/vector/node_ref.rs:30-37 | None exactly when the node is full; otherwise a same-tag reference to a new node holding the old values then v, the old node unchanged |
| TaggedPointer.Tag | src/tagged_ref.rs:28-30 | the tag is at most 3 |
| TaggedPointer.Address | src/tagged_ref.rs:32-34 | the address with the tag masked off is 4-aligned |
| TaggedPointer.PackUnpack | src/tagged_ref.rs:23-25 | packing an aligned address with a tag of at most 3 loses neither |
| TaggedPointer.Pack | src/tagged_ref.rs:23-25 | the packed pointer's tag and address are the ones packed |
| TaggedPointer.Unpack | src/tagged_ref.rs:28-34 | every pointer is its address joined with its tag |
| TaggedPointer.Memory.New | src/tagged_ref.rs:13-26 | fails exactly for a tag above 3; otherwise stores the value and returns its address with the tag, reading back the value |

## Left out

- Hashing: `DefaultHasher` is a library call, so the hash function is the parameter `H: K -> bv64`.
- `Arc`, `alloc`, `Layout` and `MaybeUninit` are not modelled as such. Sharing is value semantics in the hash map and fresh objects in the vector. Uninitialised cells are `None`.
- HashedKey.Shifted: the per-level hash is defined as `level` successive five-bit right shifts. Its equality with the single shift `hash >> (level * 5)` of src/hash_map/hamt.rs:45 and src/hash_map/hashed_key.rs:34 is not proved.
- The cursor-based trie that src/hash_map/mod.rs calls (`HAMT::new()`, `insert(HashedKey)`) is not part of this model. CursorHashMap runs the node-level trie of src/hash_map/hamt.rs. CursorPicksSlot shows that the cursor picks the same slot at every level.
- Bucket iteration order: the source walks a standard hash map in unspecified order. The model fixes one order (ToVec) and proves only what holds for every order.
- Every `Valid` requirement of the hash-map operations is an invariant that `new`, `insert` and `remove` establish. The source keeps it by privacy, not by checking.
- Panics are preconditions or error results.
  - The length assert of src/vec/leaf_node.rs:15 and the out-of-bounds write of src/vector/leaf_node.rs:19 become `|vs| <= 32`.
  - The assert of src/vec/internal_node.rs:84 becomes `size > 0`.
  - The out-of-bounds slot write of src/vec/internal_node.rs:79, reached by `new` with more than 32 references (src/vec/internal_node.rs:20-22), becomes `|refs| <= 32` on VecTrie.InternalNode.New.
  - `unreachable!` at src/vector/node_ref.rs:85 and src/vec/leaf_node.rs:94 become `n <= 1` and `i < len`.
  - The tag panic of src/tagged_ref.rs:15 is the result `Failure(TooLargeTag)`.
- `usize` overflow of `len` and `accumulated_len` is not modelled; counts are unbounded naturals.
- VecTrie.InternalNode.New, VecLeaf.LeafNode.New and VecLeaf.LeafNode.PushBack: return the node rather than a `NodeRef` (`into()` at src/vec/internal_node.rs:24 and src/vec/leaf_node.rs:26, 38); callers wrap it with `Internal` or `Leaf`. VecTrie.InternalNode.New also does not state its heap footprint. An empty node (`new(&[])`) is not a valid child.
- VecTrie.InternalNode.UpdateSlot: modelled as dropping the last slot and appending the new one, which recomputes the same running total.
- VecTrie.InternalNode.PushBackAsWritten: models the defective line only at the node itself. The children below it use the corrected push.
- PersistentVec.Vec.PushBack, VecTrie.RefPushBack and VectorNodeRef.PushBack: these run the intended internal-node push (VecTrie.InternalNode.PushBack), not the line as written at src/vec/internal_node.rs:34. As written, once the last child of a node is full, the next push replaces that child and loses its values: the 65th `Vec::push_back` gives a root holding 33 values while `len` is 65. Their contracts (values appended, `len` equal to the number of values held) hold for the intended code only.
- VecTrie.CreateBranch: builds its single-child node with an empty node and one appended slot, not through `new(&[child])`.
- src/vec/node_ref.rs, src/vec/slot.rs, src/vec/utilities.rs and src/vec/constants.rs are not part of this model. A vector node reference is the datatype `NodeRef = Leaf | Internal`, and `MAX_SIZE` is 32. `Slot`, `create_branch` and the leaf/internal dispatch are taken from their src/vector counterparts.
- src/vector/internal_node.rs has neither `push_back` nor `level`. The internal node that VectorNodeRef dispatches to is the vector-trie node, so VectorNodeRef.PushBack cites the `vec` push.
- VectorNodeRef: memory is a map from addresses to nodes, and each push is given a fresh aligned address. Raw-pointer aliasing is not modelled.
- `Debug` formatting, `Default`, the `send_and_sync` tests and the benchmarks are left out: they state nothing about values.

## Findings

| source | as written | input that shows it | evidently intended | confidence | as-written member | corrected member |
|---|---|---|---|---|---|---|
| src/vec/internal_node.rs:34 | when the last child is full, the new branch replaces it (`update_slot`) | an internal node over two full leaves of 32 values each, then `push_back(v)` | the branch is added as a new last child (`append_slot`), so the result holds 65 values | not executed | VecTrie.InternalNode.PushBackAsWritten | VecTrie.InternalNode.PushBack |

With the code as written, the push returns a node holding 33 values: the
first leaf and the new branch. The 32 values of the replaced leaf are lost.
VecTrie.DefectWitness builds exactly this input and proves both counts:
33 as written, 65 when corrected.
