/**
 * `NodeRef` of src/vector/node_ref.rs: a tagged reference whose tag says
 * which kind of node sits at its address, 0 for an internal node and 1 for
 * a leaf. Memory is a map from addresses to the node stored there (the
 * allocator's fresh address is a parameter); reading through a reference
 * picks the kind named by its tag.
 *
 * The leaves are those of src/vector/leaf_node.rs. The internal node of
 * src/vector/internal_node.rs has neither `push_back` nor `level`, so the
 * internal nodes here are those of the vector trie.
 */
module VectorNodeRef {
  import opened Wrappers
  import opened TaggedPointer
  import VectorLeaf
  import VecTrie

  datatype NodeTag = InternalNodeTag | LeafNodeTag

  /** `From<NodeTag> for usize`: 0 for an internal node, 1 for a leaf. */
  function TagBits(tag: NodeTag): (n: bv64)
    ensures n <= 1 && n <= TAG_MASK
    ensures n == 0 <==> tag == InternalNodeTag
  {
    match tag
    case InternalNodeTag => 0
    case LeafNodeTag => 1
  }

  /** `From<usize> for NodeTag`: the inverse of `TagBits`; any other number is unreachable. */
  function TagOf(n: bv64): (tag: NodeTag)
    requires n <= 1
    ensures TagBits(tag) == n
  {
    if n == 0 then InternalNodeTag else LeafNodeTag
  }

  /** Converting a tag to its number and back gives the tag. */
  lemma TagRoundTrip(tag: NodeTag)
    ensures TagOf(TagBits(tag)) == tag
  {
  }

  datatype NodeRef = NodeRef(taggedRef: TaggedRef)

  /** `ConcreteNodeRef`: a node of either kind. */
  datatype ConcreteNodeRef<T> =
    | InternalNode(node: VecTrie.InternalNode<T>)
    | LeafNode(leaf: VectorLeaf.LeafNode<T>)

  /** The nodes stored so far, by address. */
  type Heap<T> = map<nat, ConcreteNodeRef<T>>

  /** `r` points at a stored node of the kind its tag names. */
  predicate Points<T>(heap: Heap<T>, r: NodeRef)
  {
    var a := Address(r.taggedRef) as nat;
    && a in heap && Tag(r.taggedRef) <= 1
    && (heap[a].InternalNode? <==> Tag(r.taggedRef) == TagBits(InternalNodeTag))
  }

  /** `TaggedRef::new(node, tag)`: stores the node at `addr` and tags the address. */
  function Store<T>(heap: Heap<T>, node: ConcreteNodeRef<T>, tag: NodeTag, addr: bv64): (res: (NodeRef, Heap<T>))
    requires Aligned(addr)
    ensures res.1 == heap[addr as nat := node]
    ensures Tag(res.0.taggedRef) == TagBits(tag) && Address(res.0.taggedRef) == addr
  {
    (NodeRef(Pack(addr, TagBits(tag))), heap[addr as nat := node])
  }

  /** `NodeRef::internal(node)`: the node stored and tagged 0. */
  function Internal<T>(heap: Heap<T>, node: VecTrie.InternalNode<T>, addr: bv64): (res: (NodeRef, Heap<T>))
    requires Aligned(addr)
    ensures res.1 == heap[addr as nat := InternalNode(node)]
    ensures Points(res.1, res.0) && AsRef(res.1, res.0) == InternalNode(node)
  {
    Store(heap, InternalNode(node), InternalNodeTag, addr)
  }

  /** `NodeRef::leaf(leaf)`: the leaf stored and tagged 1. */
  function Leaf<T>(heap: Heap<T>, leaf: VectorLeaf.LeafNode<T>, addr: bv64): (res: (NodeRef, Heap<T>))
    requires Aligned(addr)
    ensures res.1 == heap[addr as nat := LeafNode(leaf)]
    ensures Points(res.1, res.0) && AsRef(res.1, res.0) == LeafNode(leaf)
  {
    Store(heap, LeafNode(leaf), LeafNodeTag, addr)
  }

  /**
   * `as_ref()`: the node at the reference's address, read as the kind its
   * tag names; that is the node stored there, kind and all.
   */
  function AsRef<T>(heap: Heap<T>, r: NodeRef): (c: ConcreteNodeRef<T>)
    requires Points(heap, r)
    ensures c == heap[Address(r.taggedRef) as nat]
    ensures c.InternalNode? <==> TagOf(Tag(r.taggedRef)) == InternalNodeTag
  {
    var cell := heap[Address(r.taggedRef) as nat];
    match TagOf(Tag(r.taggedRef))
    case InternalNodeTag => InternalNode(cell.node)
    case LeafNodeTag => LeafNode(cell.leaf)
  }

  /** The node `r` points at, if any. */
  ghost function Obj<T>(heap: Heap<T>, r: NodeRef): set<object>
  {
    var a := Address(r.taggedRef) as nat;
    if a !in heap then {} else
      match heap[a]
      case InternalNode(n) => {n}
      case LeafNode(l) => {l}
  }

  /** The objects of the node `r` points at. */
  ghost function Footprint<T>(heap: Heap<T>, r: NodeRef): set<object>
    reads Obj(heap, r)
  {
    var a := Address(r.taggedRef) as nat;
    if a !in heap then {} else
      match heap[a]
      case InternalNode(n) => n.Repr
      case LeafNode(l) => l.Repr
  }

  /** `r` points at a well-formed node: a leaf, or a non-empty complete internal node. */
  ghost predicate NodeValid<T>(heap: Heap<T>, r: NodeRef)
    reads Obj(heap, r), Footprint(heap, r)
  {
    Points(heap, r) &&
    match AsRef(heap, r)
    case InternalNode(n) => n.Valid() && n.size > 0 && VecTrie.IsComplete(VecTrie.NodeShape(n.Shapes))
    case LeafNode(l) => l.Valid()
  }

  /** The values held by the node `r` points at. */
  ghost function Elements<T>(heap: Heap<T>, r: NodeRef): seq<T>
    reads Obj(heap, r)
    requires Points(heap, r)
  {
    match AsRef(heap, r)
    case InternalNode(n) => n.Elements
    case LeafNode(l) => l.Elements
  }

  /** The shape of the node `r` points at. */
  ghost function ShapeOf<T>(heap: Heap<T>, r: NodeRef): VecTrie.Shape
    reads Obj(heap, r)
    requires Points(heap, r)
  {
    match AsRef(heap, r)
    case InternalNode(n) => VecTrie.NodeShape(n.Shapes)
    case LeafNode(l) => VecTrie.LeafShape(|l.Elements|)
  }

  /** `level()`: 0 for a leaf; an internal node's own level otherwise. */
  function Level<T>(heap: Heap<T>, r: NodeRef): (l: nat)
    reads Obj(heap, r), Footprint(heap, r)
    requires NodeValid(heap, r)
    ensures l == VecTrie.Height(ShapeOf(heap, r))
  {
    match AsRef(heap, r)
    case InternalNode(n) => n.Level()
    case LeafNode(_) => 0
  }

  /**
   * `push_back(value)`: pushes into the node `r` points at and stores the
   * result, if any, as a node of the same kind at the fresh address
   * `addr`. `r` keeps pointing at the node it pointed at, unchanged.
   */
  method PushBack<T>(heap: Heap<T>, r: NodeRef, v: T, addr: bv64) returns (o: Option<NodeRef>, heap': Heap<T>)
    requires NodeValid(heap, r) && Aligned(addr) && addr as nat !in heap
    ensures o.None? <==> VecTrie.IsFull(ShapeOf(heap, r))
    ensures o.None? ==> heap' == heap
    ensures o.Some? ==> Tag(o.value.taggedRef) == Tag(r.taggedRef) && NodeValid(heap', o.value)
    ensures o.Some? ==> heap' == heap[addr as nat := AsRef(heap', o.value)]
    ensures o.Some? ==> Elements(heap', o.value) == Elements(heap, r) + [v]
    ensures NodeValid(heap', r) && Elements(heap', r) == Elements(heap, r)
  {
    heap' := heap;
    match AsRef(heap, r)
    case InternalNode(n) =>
      var pushed := n.PushBack(v);
      if pushed.Some? {
        var res := Internal(heap, pushed.value.node, addr);
        o, heap' := Some(res.0), res.1;
      } else {
        o := None;
      }
    case LeafNode(l) =>
      var pushed := l.PushBack(v);
      if pushed.Some? {
        var res := Leaf(heap, pushed.value, addr);
        o, heap' := Some(res.0), res.1;
      } else {
        o := None;
      }
  }
}
