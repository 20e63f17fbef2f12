/**
 * The inner levels of the vector trie: `InternalNode` of
 * src/vec/internal_node.rs with its `Slot`s (src/vector/slot.rs), the
 * `create_branch` helper (src/vector/utilities.rs) and the `NodeRef`
 * dispatch between leaves and internal nodes. An internal node holds up
 * to `MAX_SIZE` slots; slot `i` refers to child `i` and records how many
 * values children `0..=i` hold together. Nodes are written only while
 * they are built or right after being cloned, so every older version of
 * the trie stays intact and may share children with newer ones.
 *
 * Besides the values it holds, every node carries its `Shape` as a ghost
 * value: how the nodes below it nest and how full its leaves are. Levels,
 * balance and fullness are properties of that value.
 */
module VecTrie {
  import opened Wrappers
  import opened VecLeaf

  /** A reference to a trie node of either kind. */
  datatype NodeRef<T> = Leaf(leaf: LeafNode<T>) | Internal(node: InternalNode<T>)

  /** A child together with the number of values up to and including it. */
  datatype Slot<T> = Slot(nodeRef: NodeRef<T>, accumulatedLen: nat)

  // ---------------------------------------------------------------------
  // Shapes

  /** The nesting of a subtrie: a leaf with `len` values, or a node over its children's shapes. */
  datatype Shape = LeafShape(len: nat) | NodeShape(children: seq<Shape>)

  /** `level()`: 0 for a leaf, one above the last child for an internal node. */
  function Height(s: Shape): nat
  {
    match s
    case LeafShape(_) => 0
    case NodeShape(cs) => if |cs| == 0 then 1 else Height(cs[|cs| - 1]) + 1
  }

  /** The children of a node all sit at the level of its last child. */
  predicate Leveled(cs: seq<Shape>)
  {
    forall i :: 0 <= i < |cs| ==> Height(cs[i]) == Height(cs[|cs| - 1])
  }

  /** Every node in `s` has a child and is balanced: what `push_back` keeps. */
  predicate IsComplete(s: Shape)
  {
    match s
    case LeafShape(_) => true
    case NodeShape(cs) =>
      && |cs| > 0 && Leveled(cs)
      && forall i :: 0 <= i < |cs| ==> IsComplete(cs[i])
  }

  /** No value fits in anymore: a full leaf, or a full node whose last child is full. */
  predicate IsFull(s: Shape)
  {
    match s
    case LeafShape(n) => n == MAX_SIZE
    case NodeShape(cs) => |cs| == MAX_SIZE && IsFull(cs[|cs| - 1])
  }

  /** A chain of nodes with one child each, ending in a leaf. */
  predicate IsChain(s: Shape)
  {
    match s
    case LeafShape(_) => true
    case NodeShape(cs) => |cs| == 1 && IsChain(cs[0])
  }

  /** Replacing the last child of a complete node by a complete shape as high keeps it complete, as high. */
  lemma ReplaceLastComplete(cs: seq<Shape>, x: Shape)
    requires IsComplete(NodeShape(cs)) && IsComplete(x) && Height(x) == Height(cs[|cs| - 1])
    ensures IsComplete(NodeShape(cs[..|cs| - 1] + [x]))
    ensures Height(NodeShape(cs[..|cs| - 1] + [x])) == Height(NodeShape(cs))
  {
    var cs' := cs[..|cs| - 1] + [x];
    forall i | 0 <= i < |cs'|
      ensures Height(cs'[i]) == Height(x) && IsComplete(cs'[i])
    {
      if i < |cs| - 1 {
        assert cs'[i] == cs[i];
      }
    }
  }

  /** Appending a complete child as high as the last keeps a complete node complete, as high. */
  lemma AppendComplete(cs: seq<Shape>, x: Shape)
    requires IsComplete(NodeShape(cs)) && IsComplete(x) && Height(x) == Height(cs[|cs| - 1])
    ensures IsComplete(NodeShape(cs + [x]))
    ensures Height(NodeShape(cs + [x])) == Height(NodeShape(cs))
  {
    var cs' := cs + [x];
    forall i | 0 <= i < |cs'|
      ensures Height(cs'[i]) == Height(x) && IsComplete(cs'[i])
    {
      if i < |cs| {
        assert cs'[i] == cs[i];
      }
    }
  }

  // ---------------------------------------------------------------------
  // Views of a node reference

  ghost function Obj<T>(r: NodeRef<T>): object
  {
    match r
    case Leaf(l) => l
    case Internal(n) => n
  }

  ghost function RefRepr<T>(r: NodeRef<T>): set<object>
    reads Obj(r)
  {
    match r
    case Leaf(l) => l.Repr
    case Internal(n) => n.Repr
  }

  /** The values the referenced node holds, in order. */
  ghost function RefElements<T>(r: NodeRef<T>): seq<T>
    reads Obj(r)
  {
    match r
    case Leaf(l) => l.Elements
    case Internal(n) => n.Elements
  }

  /** The shape of the referenced node. */
  ghost function RefShape<T>(r: NodeRef<T>): Shape
    reads Obj(r)
  {
    match r
    case Leaf(l) => LeafShape(|l.Elements|)
    case Internal(n) => NodeShape(n.Shapes)
  }

  /** A well-formed node; an internal node used as a child is never empty. */
  ghost predicate RefValid<T>(r: NodeRef<T>)
    reads Obj(r), RefRepr(r)
    ensures RefValid(r) ==> Obj(r) in RefRepr(r)
    decreases RefRepr(r), 2
  {
    match r
    case Leaf(l) => l.Valid()
    case Internal(n) => n.Valid() && n.size > 0
  }

  /** The values of a sequence of children, concatenated in order. */
  function Flatten<T>(ps: seq<seq<T>>): seq<T>
  {
    if |ps| == 0 then [] else Flatten(ps[..|ps| - 1]) + ps[|ps| - 1]
  }

  lemma FlattenAppend<T>(ps: seq<seq<T>>, p: seq<T>)
    ensures Flatten(ps + [p]) == Flatten(ps) + p
  {
    assert (ps + [p])[..|ps|] == ps;
  }

  /** Slot `i` of `sl` refers to child `i` and records the values of children `0..=i`. */
  predicate SlotsMatch<T>(sl: seq<Option<Slot<T>>>, cs: seq<NodeRef<T>>, ps: seq<seq<T>>)
  {
    |cs| == |ps| <= |sl|
    && forall i :: 0 <= i < |cs| ==> sl[i] == Some(Slot(cs[i], |Flatten(ps[..i + 1])|))
  }

  /** The slots of the first `k` children match on their own. */
  lemma SlotsMatchPrefix<T>(sl: seq<Option<Slot<T>>>, cs: seq<NodeRef<T>>, ps: seq<seq<T>>, k: nat)
    requires SlotsMatch(sl, cs, ps) && k <= |cs|
    ensures SlotsMatch(sl, cs[..k], ps[..k])
  {
    forall i | 0 <= i < k
      ensures sl[i] == Some(Slot(cs[..k][i], |Flatten(ps[..k][..i + 1])|))
    {
      assert ps[..k][..i + 1] == ps[..i + 1];
    }
  }

  /** Writing the slot of one more child keeps the slots matching. */
  lemma SlotsMatchAppend<T>(sl: seq<Option<Slot<T>>>, cs: seq<NodeRef<T>>, ps: seq<seq<T>>, r: NodeRef<T>, rs: seq<T>)
    requires SlotsMatch(sl, cs, ps) && |cs| < |sl|
    ensures SlotsMatch(sl[|cs| := Some(Slot(r, |Flatten(ps)| + |rs|))], cs + [r], ps + [rs])
  {
    var ps' := ps + [rs];
    assert ps'[..|ps'| - 1] == ps;
    forall i | 0 <= i < |cs| + 1
      ensures sl[|cs| := Some(Slot(r, |Flatten(ps)| + |rs|))][i] == Some(Slot((cs + [r])[i], |Flatten(ps'[..i + 1])|))
    {
      if i < |cs| {
        assert ps'[..i + 1] == ps[..i + 1];
      } else {
        assert ps'[..i + 1] == ps';
      }
    }
  }

  /** `len()` of a node reference: the number of values it holds. */
  function RefLen<T>(r: NodeRef<T>): (n: nat)
    reads Obj(r), RefRepr(r)
    requires RefValid(r)
    ensures n == |RefElements(r)|
  {
    match r
    case Leaf(l) => l.Len()
    case Internal(n) => n.Len()
  }

  /** `level()` of a node reference: the height of its shape. */
  function RefLevel<T>(r: NodeRef<T>): (l: nat)
    reads Obj(r), RefRepr(r)
    requires RefValid(r)
    ensures l == Height(RefShape(r))
    decreases RefRepr(r), 3
  {
    match r
    case Leaf(_) => 0
    case Internal(n) => n.Level()
  }

  /** `Slot::new(node_ref, acc)`: records `acc` plus the child's length. */
  function NewSlot<T>(r: NodeRef<T>, acc: nat): (s: Slot<T>)
    reads Obj(r), RefRepr(r)
    requires RefValid(r)
    ensures s.nodeRef == r
    ensures s.accumulatedLen == acc + |RefElements(r)| >= acc
  {
    Slot(r, acc + RefLen(r))
  }

  class InternalNode<T> {
    /** The slots; `None` where never written. */
    const slots: array<Option<Slot<T>>>
    var size: nat

    ghost var Children: seq<NodeRef<T>>
    /** The values of each child, in order. */
    ghost var Parts: seq<seq<T>>
    /** The shape of each child. */
    ghost var Shapes: seq<Shape>
    ghost var Elements: seq<T>
    ghost var Repr: set<object>

    ghost predicate Valid()
      reads this, Repr
      ensures Valid() ==> this in Repr
      decreases Repr, 1
    {
      && this in Repr && slots in Repr
      && slots.Length == MAX_SIZE
      && size == |Children| == |Parts| == |Shapes| <= MAX_SIZE
      && (forall i :: 0 <= i < size ==> ChildOk(i))
      && SlotsMatch(slots[..], Children, Parts)
      && Elements == Flatten(Parts)
    }

    /**
     * Child `i` is a valid node apart from this node and its slots, its
     * objects lie within `Repr`, and it holds `Parts[i]` in shape `Shapes[i]`.
     */
    ghost predicate ChildOk(i: nat)
      reads this, Repr
      requires i < |Children| && i < |Parts| && i < |Shapes|
      decreases Repr, 0
    {
      var c := Children[i];
      && this in Repr
      && Obj(c) in Repr && RefRepr(c) <= Repr
      && this !in RefRepr(c) && slots !in RefRepr(c)
      && RefValid(c) && RefElements(c) == Parts[i] && RefShape(c) == Shapes[i]
    }

    /** The struct literal with every slot uninitialised and size 0. */
    constructor Empty()
      ensures Valid() && fresh(Repr) && Children == [] && Shapes == [] && Elements == []
    {
      slots := new Option<Slot<T>>[MAX_SIZE](_ => None);
      size := 0;
      Children := [];
      Parts := [];
      Shapes := [];
      Elements := [];
      Repr := {this, slots};
    }

    /** `clone()`: a fresh node with a copy of the slots, sharing the children. */
    constructor Clone(src: InternalNode<T>)
      requires src.Valid()
      ensures Valid() && fresh(slots)
      ensures size == src.size && Children == src.Children
      ensures Parts == src.Parts && Shapes == src.Shapes && Elements == src.Elements
      ensures Repr == src.Repr - {src, src.slots} + {this, slots}
    {
      slots := new Option<Slot<T>>[MAX_SIZE](i reads src, src.slots =>
        if 0 <= i < src.slots.Length then src.slots[i] else None);
      size := src.size;
      Children := src.Children;
      Parts := src.Parts;
      Shapes := src.Shapes;
      Elements := src.Elements;
      new;
      Repr := src.Repr - {src, src.slots} + {this, slots};
      assert slots[..] == src.slots[..];
      forall i | 0 <= i < size
        ensures ChildOk(i)
      {
        assert src.ChildOk(i);
      }
    }

    /**
     * `new(node_refs)`: an empty node to which the children are appended
     * in order; more than `MAX_SIZE` of them overrun the slot array.
     */
    constructor New(refs: seq<NodeRef<T>>)
      requires |refs| <= MAX_SIZE
      requires forall i :: 0 <= i < |refs| ==> RefValid(refs[i])
      ensures Valid() && fresh(slots)
      ensures size == |refs| && Children == refs
      ensures forall i :: 0 <= i < |refs| ==>
        Parts[i] == RefElements(refs[i]) && Shapes[i] == RefShape(refs[i])
      ensures Elements == Flatten(Parts)
    {
      slots := new Option<Slot<T>>[MAX_SIZE](_ => None);
      size := 0;
      Children := [];
      Parts := [];
      Shapes := [];
      Elements := [];
      new;
      Repr := {this, slots};
      for j := 0 to |refs|
        invariant Valid() && fresh(slots)
        invariant size == j && Children == refs[..j]
      {
        ChildFrame(refs[j]);
        AppendSlot(refs[j]);
        assert Children == refs[..j + 1];
      }
      assert refs[..|refs|] == refs;
      forall i | 0 <= i < |refs|
        ensures Parts[i] == RefElements(refs[i]) && Shapes[i] == RefShape(refs[i])
      {
        assert ChildOk(i);
      }
    }

    /** `len()`: 0 for no slots, else the last slot's running total. */
    function Len(): (n: nat)
      reads this, Repr
      requires Valid()
      ensures n == |Elements|
    {
      if size == 0 then 0 else
        assert Parts[..size] == Parts;
        assert slots[..][size - 1] == slots[size - 1];
        slots[size - 1].value.accumulatedLen
    }

    /** `size()`: the number of children. */
    function Size(): (n: nat)
      reads this, Repr
      requires Valid()
      ensures n == |Children| <= MAX_SIZE
    {
      size
    }

    /** `get(i)`: slot `i`, holding child `i` and the values of children `0..=i`. */
    function Get(i: nat): (s: Slot<T>)
      reads this, Repr
      requires Valid() && i < size
      ensures s.nodeRef == Children[i] && RefValid(s.nodeRef)
      ensures Obj(s.nodeRef) in Repr && RefRepr(s.nodeRef) <= Repr && this !in RefRepr(s.nodeRef)
      ensures RefShape(s.nodeRef) == Shapes[i]
      ensures s.accumulatedLen == |Flatten(Parts[..i + 1])|
    {
      assert ChildOk(i);
      assert slots[..][i] == slots[i];
      slots[i].value
    }

    /** `level()`: one above the last child's level. */
    function Level(): (l: nat)
      reads this, Repr
      requires Valid() && size > 0
      ensures l == Height(NodeShape(Shapes))
      decreases Repr, 2
    {
      ChildLevel(size - 1) + 1
    }

    /** `get(i).node_ref().level()`: the level of child `i`. */
    function ChildLevel(i: nat): (l: nat)
      reads this, Repr
      requires Valid() && i < size
      ensures l == Height(Shapes[i])
      decreases Repr, 1
    {
      RefLevel(Get(i).nodeRef)
    }

    /** `balanced()`: holds exactly when every child sits at the last child's level. */
    predicate Balanced()
      reads this, Repr
      requires Valid() && size > 0
      ensures Balanced() <==> Leveled(Shapes)
    {
      assert forall i :: 0 <= i < size ==> ChildLevel(i) == Height(Shapes[i]);
      forall i :: 0 <= i < size ==> ChildLevel(i) == Level() - 1
    }

    /** `append_slot(r)`: a new last slot for `r`, its total counted on from `len()`. */
    method AppendSlot(r: NodeRef<T>)
      requires Valid() && size < MAX_SIZE && RefValid(r)
      requires this !in RefRepr(r) && slots !in RefRepr(r)
      modifies this, slots
      ensures Valid() && size == old(size) + 1
      ensures Children == old(Children) + [r] && Parts == old(Parts) + [RefElements(r)]
      ensures Shapes == old(Shapes) + [RefShape(r)]
      ensures Elements == old(Elements) + RefElements(r)
      ensures Repr == old(Repr) + RefRepr(r)
    {
      label Before:
      ghost var rs := RefElements(r);
      var slot := NewSlot(r, Len());
      SlotsMatchAppend(slots[..], Children, Parts, r, rs);
      slots[size] := Some(slot);
      size := size + 1;
      Children := Children + [r];
      Parts := Parts + [rs];
      Shapes := Shapes + [RefShape(r)];
      Elements := Elements + rs;
      Repr := Repr + RefRepr(r);
      FlattenAppend(old(Parts), rs);
      assert Children[..size - 1] == old(Children);
      assert Parts[..size - 1] == old(Parts);
      assert Shapes[..size - 1] == old(Shapes);
      SlotAppended@Before(this);
    }

    /**
     * `update_slot(r)`: asserts there is a slot, then replaces the last
     * child by `r`. The total it counts on from, the last but one slot's
     * (0 when there is none), is `len()` of the node without its last
     * slot, so the write is the one `append_slot` makes once that slot is
     * dropped.
     */
    method UpdateSlot(r: NodeRef<T>)
      requires Valid() && size > 0 && RefValid(r)
      requires this !in RefRepr(r) && slots !in RefRepr(r)
      modifies this, slots
      ensures Valid() && size == old(size)
      ensures Children == old(Children)[..size - 1] + [r]
      ensures Parts == old(Parts)[..size - 1] + [RefElements(r)]
      ensures Shapes == old(Shapes)[..size - 1] + [RefShape(r)]
      ensures Elements == Flatten(old(Parts)[..size - 1]) + RefElements(r)
      ensures Repr == old(Repr) + RefRepr(r)
    {
      DropLastSlot();
      AppendSlot(r);
    }

    /** The node without its last slot; the slot array itself is left as it is. */
    method DropLastSlot()
      requires Valid() && size > 0
      modifies this
      ensures Valid() && size == old(size) - 1 && Repr == old(Repr)
      ensures Children == old(Children)[..size] && Parts == old(Parts)[..size]
      ensures Shapes == old(Shapes)[..size] && Elements == Flatten(Parts)
    {
      label Before:
      size := size - 1;
      Children := Children[..size];
      Parts := Parts[..size];
      Shapes := Shapes[..size];
      Elements := Flatten(Parts);
      Truncated@Before(this);
    }

    /**
     * `push_back(value)`: pushes into the last child; when that child has
     * room, a copy of this node takes the grown child in its last slot.
     * When the last child is full, `None` if this node is full too, else a
     * copy of this node with a new branch holding `value` as one more
     * child. This is the behaviour the source evidently intends; see
     * `PushBackAsWritten` for the code as written. This node is left as it
     * was, and `balanced()`, which the source asserts on the copy, holds.
     */
    method PushBack(v: T) returns (r: Option<NodeRef<T>>)
      requires Valid() && IsComplete(NodeShape(Shapes))
      ensures r.None? <==> IsFull(NodeShape(Shapes))
      ensures r.Some? ==> r.value.Internal? && RefValid(r.value) && IsComplete(RefShape(r.value))
      ensures r.Some? ==> Height(RefShape(r.value)) == Height(NodeShape(Shapes))
      ensures r.Some? ==> RefElements(r.value) == Elements + [v]
      ensures r.Some? && !IsFull(Shapes[size - 1]) ==>
        r.value.node.size == size && Children[..size - 1] <= r.value.node.Children
      ensures r.Some? && IsFull(Shapes[size - 1]) ==>
        r.value.node.size == size + 1 && Children <= r.value.node.Children
      decreases Repr, 1
    {
      var last := Get(size - 1).nodeRef;
      var pushed := RefPushBack(last, v);
      ChildFrame(Internal(this));
      if pushed.None? {
        if size == MAX_SIZE {
          return None;
        }
        var node := CopyWithBranch(v);
        return Some(Internal(node));
      }
      assert RefShape(last) == Shapes[size - 1] && RefElements(last) == Parts[size - 1] by {
        assert ChildOk(size - 1);
      }
      var node := CopyWithLast(pushed.value);
      return Some(Internal(node));
    }

    /**
     * `push_back(value)` as written: when the last child is full and this
     * node is not, the new branch overwrites the last slot
     * (`update_slot`) instead of being appended, so the values of the full
     * child are lost. Children are pushed into by `RefPushBack`.
     */
    method PushBackAsWritten(v: T) returns (r: Option<NodeRef<T>>)
      requires Valid() && IsComplete(NodeShape(Shapes))
      ensures r.None? <==> IsFull(NodeShape(Shapes))
      ensures r.Some? ==> r.value.Internal? && RefValid(r.value) && IsComplete(RefShape(r.value))
      ensures r.Some? ==> Height(RefShape(r.value)) == Height(NodeShape(Shapes))
      ensures r.Some? && IsFull(Shapes[size - 1]) ==> RefElements(r.value) == Flatten(Parts[..size - 1]) + [v]
      ensures r.Some? && !IsFull(Shapes[size - 1]) ==> RefElements(r.value) == Elements + [v]
    {
      var last := Get(size - 1).nodeRef;
      var pushed := RefPushBack(last, v);
      ChildFrame(Internal(this));
      if pushed.None? {
        if size == MAX_SIZE {
          return None;
        }
        var node := CopyWithBranchAsWritten(v);
        return Some(Internal(node));
      }
      assert RefShape(last) == Shapes[size - 1] && RefElements(last) == Parts[size - 1] by {
        assert ChildOk(size - 1);
      }
      var node := CopyWithLast(pushed.value);
      return Some(Internal(node));
    }

    /**
     * `clone()`, then `update_slot(grown)`: a copy of this node whose last
     * child is `grown`; with `grown` complete and as high as the child it
     * replaces, the copy passes the `balanced()` assertion.
     */
    method CopyWithLast(grown: NodeRef<T>) returns (node: InternalNode<T>)
      requires Valid() && IsComplete(NodeShape(Shapes))
      requires RefValid(grown) && IsComplete(RefShape(grown)) && Height(RefShape(grown)) == Height(Shapes[size - 1])
      ensures node.Valid() && node.size > 0 && node.Shapes == Shapes[..size - 1] + [RefShape(grown)]
      ensures IsComplete(NodeShape(node.Shapes)) && Height(NodeShape(node.Shapes)) == Height(NodeShape(Shapes))
      ensures node.Elements == Flatten(Parts[..size - 1]) + RefElements(grown)
      ensures node.size == size && node.Children == Children[..size - 1] + [grown]
    {
      node := new InternalNode.Clone(this);
      ChildFrame(grown);
      node.UpdateSlot(grown);
      ReplaceLastComplete(Shapes, RefShape(grown));
      assert node.Balanced();
    }

    /**
     * `clone()`, `create_branch(value, level() - 1)`, then `append_slot`:
     * a copy of this node with one more child, a branch holding `v`.
     */
    method CopyWithBranch(v: T) returns (node: InternalNode<T>)
      requires Valid() && IsComplete(NodeShape(Shapes)) && size < MAX_SIZE
      ensures node.Valid() && node.size > 0
      ensures IsComplete(NodeShape(node.Shapes)) && Height(NodeShape(node.Shapes)) == Height(NodeShape(Shapes))
      ensures node.Elements == Elements + [v]
      ensures node.size == size + 1 && Children <= node.Children
    {
      var branch := CreateBranch(v, Level() - 1);
      node := new InternalNode.Clone(this);
      node.AppendSlot(branch);
      AppendComplete(Shapes, RefShape(branch));
      assert node.Balanced();
    }

    /**
     * The same steps as the source takes them, with `update_slot` where
     * `append_slot` is meant: the branch holding `v` replaces the last child.
     */
    method CopyWithBranchAsWritten(v: T) returns (node: InternalNode<T>)
      requires Valid() && IsComplete(NodeShape(Shapes))
      ensures node.Valid() && node.size > 0
      ensures IsComplete(NodeShape(node.Shapes)) && Height(NodeShape(node.Shapes)) == Height(NodeShape(Shapes))
      ensures node.Elements == Flatten(Parts[..size - 1]) + [v]
    {
      var branch := CreateBranch(v, Level() - 1);
      node := new InternalNode.Clone(this);
      node.UpdateSlot(branch);
      ReplaceLastComplete(Shapes, RefShape(branch));
      assert node.Balanced();
    }
  }

  /**
   * `create_branch(value, level)`: a leaf holding `value` alone at level 0;
   * above that, a new internal node whose one child is the branch one
   * level down (`InternalNode::new(&[child])`, whose loop runs
   * `append_slot` once).
   */
  method CreateBranch<T>(v: T, level: nat) returns (r: NodeRef<T>)
    ensures RefValid(r) && fresh(RefRepr(r))
    ensures RefElements(r) == [v] && Height(RefShape(r)) == level
    ensures IsComplete(RefShape(r)) && IsChain(RefShape(r))
    decreases level
  {
    if level == 0 {
      var leaf := new LeafNode.New([v]);
      return Leaf(leaf);
    }
    var child := CreateBranch(v, level - 1);
    label Made:
    var node := new InternalNode.Empty();
    ChildFrame@Made(child);
    node.AppendSlot(child);
    assert node.Shapes == [RefShape(child)];
    return Internal(node);
  }

  /**
   * `push_back(value)` of a node reference: dispatches on the kind of node
   * referred to; the result, if any, is a node of the same kind and level.
   */
  method RefPushBack<T>(r: NodeRef<T>, v: T) returns (o: Option<NodeRef<T>>)
    requires RefValid(r) && IsComplete(RefShape(r))
    ensures o.None? <==> IsFull(RefShape(r))
    ensures o.Some? ==> RefValid(o.value) && IsComplete(RefShape(o.value))
    ensures o.Some? ==> o.value.Leaf? == r.Leaf? && Height(RefShape(o.value)) == Height(RefShape(r))
    ensures o.Some? ==> RefElements(o.value) == RefElements(r) + [v]
    decreases RefRepr(r), 2
  {
    match r
    case Leaf(l) =>
      var p := l.PushBack(v);
      if p.None? {
        return None;
      }
      return Some(Leaf(p.value));
    case Internal(n) =>
      o := n.PushBack(v);
  }

  /** The iterator over the children of an internal node. */
  class InternalNodeIterator<T> {
    const node: InternalNode<T>
    var index: nat

    ghost predicate Valid()
      reads this, node, node.Repr
    {
      node.Valid() && this !in node.Repr && index <= node.size
    }

    /** `into_iter()`: starts at index 0. */
    constructor(node: InternalNode<T>)
      requires node.Valid()
      ensures Valid() && this.node == node && index == 0
    {
      this.node := node;
      index := 0;
    }

    /** `next()`: the child at `index`, then one step on; `None` at the end. */
    method Next() returns (r: Option<NodeRef<T>>)
      requires Valid()
      modifies this
      ensures Valid()
      ensures old(index) == node.size <==> r.None?
      ensures r.None? ==> index == old(index)
      ensures r.Some? ==> r.value == node.Children[old(index)] && index == old(index) + 1
    {
      if index == node.Size() {
        return None;
      }
      r := Some(node.Get(index).nodeRef);
      index := index + 1;
    }
  }

  /** Collecting the iterator of a node yields exactly its children, in order. */
  method CollectChildren<T>(node: InternalNode<T>) returns (cs: seq<NodeRef<T>>)
    requires node.Valid()
    ensures cs == node.Children
  {
    var it := new InternalNodeIterator(node);
    cs := [];
    while true
      invariant it.Valid() && it.node == node && cs == node.Children[..it.index]
      decreases node.size - it.index
    {
      var r := it.Next();
      if r.None? {
        break;
      }
      cs := cs + [r.value];
    }
    assert node.Children[..node.size] == node.Children;
  }

  /** `InternalNode::new` over two leaves of `MAX_SIZE` copies of `v` each. */
  method TwoFullLeaves<T>(v: T) returns (node: InternalNode<T>)
    ensures node.Valid() && node.size == 2 && IsComplete(NodeShape(node.Shapes))
    ensures IsFull(node.Shapes[1]) && |Flatten(node.Parts[..1])| == MAX_SIZE
    ensures |node.Elements| == 2 * MAX_SIZE
  {
    var full := seq(MAX_SIZE, _ => v);
    var a := new LeafNode.New(full);
    var b := new LeafNode.New(full);
    node := new InternalNode.New([Leaf(a), Leaf(b)]);
    assert node.Shapes == [LeafShape(MAX_SIZE), LeafShape(MAX_SIZE)];
    assert |node.Parts[0]| == |node.Parts[1]| == MAX_SIZE;
    assert Flatten(node.Parts[..1]) == node.Parts[0] by {
      assert node.Parts[..1][..0] == [];
    }
  }

  /**
   * A node over two full leaves: pushing a value as written leaves 33
   * values, the 32 of the first leaf and the new one, where the corrected
   * push holds all 65.
   */
  method DefectWitness<T>(v: T) returns (asWritten: Option<NodeRef<T>>, corrected: Option<NodeRef<T>>)
    ensures asWritten.Some? && RefValid(asWritten.value) && |RefElements(asWritten.value)| == MAX_SIZE + 1
    ensures corrected.Some? && RefValid(corrected.value) && |RefElements(corrected.value)| == 2 * MAX_SIZE + 1
  {
    var node := TwoFullLeaves(v);
    asWritten := node.PushBackAsWritten(v);
    corrected := node.PushBack(v);
  }

  // ---------------------------------------------------------------------
  // Frames: nodes are never written once built, so a node none of whose
  // objects changed is as it was.

  /** Dropping the last slot of a valid node leaves a valid node. */
  twostate lemma Truncated<T>(n: InternalNode<T>)
    requires old(n.Valid()) && n.size <= old(n.size)
    requires n.Children == old(n.Children)[..n.size] && n.Parts == old(n.Parts)[..n.size]
    requires n.Shapes == old(n.Shapes)[..n.size]
    requires n.Elements == Flatten(n.Parts) && n.Repr == old(n.Repr)
    requires forall o :: o in old(n.Repr) && o != n ==> unchanged(o)
    ensures n.Valid()
  {
    forall i | 0 <= i < n.size
      ensures n.ChildOk(i)
    {
      assert old(n.ChildOk(i));
      assert n.Children[i] == old(n.Children)[i];
      ChildFrame(n.Children[i]);
    }
    assert n.slots[..] == old(n.slots[..]);
    SlotsMatchPrefix(n.slots[..], old(n.Children), old(n.Parts), n.size);
  }

  /**
   * The state `append_slot` leaves behind is again a valid node: the
   * children before the new slot are the old ones, and the new child was
   * valid and apart from the node.
   */
  twostate lemma SlotAppended<T>(n: InternalNode<T>)
    requires old(n.Valid()) && n.size == old(n.size) + 1
    requires |n.Children| == |n.Parts| == |n.Shapes| == n.size
    requires n.Children[..n.size - 1] == old(n.Children) && n.Parts[..n.size - 1] == old(n.Parts)
    requires n.Shapes[..n.size - 1] == old(n.Shapes)
    requires var c := n.Children[n.size - 1];
      old(allocated(c)) && old(RefValid(c))
      && old(RefElements(c)) == n.Parts[n.size - 1] && old(RefShape(c)) == n.Shapes[n.size - 1]
      && n !in old(RefRepr(c)) && n.slots !in old(RefRepr(c))
      && n.Repr == old(n.Repr) + old(RefRepr(c))
      && forall o :: o in old(n.Repr) + old(RefRepr(c)) && o != n && o != n.slots ==> unchanged(o)
    requires n.Elements == Flatten(n.Parts)
    requires SlotsMatch(n.slots[..], n.Children, n.Parts)
    ensures n.Valid()
  {
    var k := n.size - 1;
    forall i | 0 <= i < n.size
      ensures n.ChildOk(i)
    {
      var c := n.Children[i];
      if i < k {
        assert old(n.ChildOk(i));
        assert c == n.Children[..k][i] == old(n.Children)[i];
        assert n.Parts[i] == n.Parts[..k][i] == old(n.Parts)[i];
        assert n.Shapes[i] == n.Shapes[..k][i] == old(n.Shapes)[i];
      }
      ChildFrame(c);
    }
  }

  /** A node none of whose objects changed is as valid, and holds the same values in the same shape, as before. */
  twostate lemma ChildFrame<T>(c: NodeRef<T>)
    requires old(RefValid(c)) && unchanged(old(RefRepr(c)))
    ensures RefValid(c) && RefRepr(c) == old(RefRepr(c))
    ensures RefElements(c) == old(RefElements(c)) && RefShape(c) == old(RefShape(c))
  {
  }
}
