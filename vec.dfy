/**
 * The persistent vector of src/vec/mod.rs: a root node and the number of
 * values. Pushing returns a new vector and leaves the old one as it was;
 * when the root is full, the new root is an internal node one level
 * higher over the old root and a fresh branch holding the value.
 */
module PersistentVec {
  import opened Wrappers
  import opened VecLeaf
  import opened VecTrie

  datatype Vec<T> = Vec(root: NodeRef<T>, len: nat)
  {
    /** The root is a well-formed, complete trie holding `len` values. */
    ghost predicate Valid()
      reads Obj(root), RefRepr(root)
    {
      RefValid(root) && IsComplete(RefShape(root)) && len == |RefElements(root)|
    }

    /** The values of the vector, in push order. */
    ghost function Elements(): seq<T>
      reads Obj(root)
    {
      RefElements(root)
    }

    /** `len()`: the number of values pushed. */
    function Len(): (n: nat)
      reads Obj(root), RefRepr(root)
      requires Valid()
      ensures n == |Elements()|
    {
      len
    }

    /** `is_empty()`: holds exactly when no value was pushed. */
    function IsEmpty(): (b: bool)
      reads Obj(root), RefRepr(root)
      requires Valid()
      ensures b <==> Elements() == []
    {
      len == 0
    }

    /**
     * `push_back(value)`: the root's own push when it has room; otherwise
     * `InternalNode::new(&[root, create_branch(value, root.level())])`.
     * The result holds one more value, `value` last.
     */
    method PushBack(v: T) returns (r: Vec<T>)
      requires Valid()
      ensures r.Valid() && r.len == len + 1 && r.Elements() == Elements() + [v]
      ensures Height(RefShape(r.root)) == Height(RefShape(root)) + (if IsFull(RefShape(root)) then 1 else 0)
    {
      var pushed := RefPushBack(root, v);
      if pushed.Some? {
        return Vec(pushed.value, len + 1);
      }
      var grown := Grow(root, v);
      r := Vec(grown, len + 1);
    }
  }

  /** The new root over a full `root`: `InternalNode::new(&[root, create_branch(value, root.level())])`. */
  method Grow<T>(root: NodeRef<T>, v: T) returns (r: NodeRef<T>)
    requires RefValid(root) && IsComplete(RefShape(root))
    ensures RefValid(r) && IsComplete(RefShape(r)) && Height(RefShape(r)) == Height(RefShape(root)) + 1
    ensures RefElements(r) == RefElements(root) + [v]
    ensures r.Internal? && |r.node.Children| == 2 && r.node.Children[0] == root
    ensures RefElements(r.node.Children[1]) == [v] && IsChain(RefShape(r.node.Children[1]))
  {
    label Before:
    var branch := CreateBranch(v, RefLevel(root));
    ChildFrame@Before(root);
    var node := new InternalNode.New([root, branch]);
    ChildFrame@Before(root);
    GrownRoot(node, root, branch);
    r := Internal(node);
  }

  /** `new()`: an empty leaf as the root and no values. */
  method New<T>() returns (vec: Vec<T>)
    ensures vec.Valid() && vec.len == 0 && vec.Elements() == [] && vec.IsEmpty()
  {
    var leaf := new LeafNode.New([]);
    vec := Vec(Leaf(leaf), 0);
  }

  /** A node over an old root and a branch as high is complete, valid as a root, one level higher, and holds both in order. */
  lemma GrownRoot<T>(node: InternalNode<T>, old_root: NodeRef<T>, branch: NodeRef<T>)
    requires node.Valid() && node.Children == [old_root, branch]
    requires forall i :: 0 <= i < 2 ==>
      node.Parts[i] == RefElements(node.Children[i]) && node.Shapes[i] == RefShape(node.Children[i])
    requires IsComplete(RefShape(old_root)) && IsComplete(RefShape(branch))
    requires Height(RefShape(branch)) == Height(RefShape(old_root))
    ensures RefValid(Internal(node)) && IsComplete(RefShape(Internal(node)))
    ensures Height(RefShape(Internal(node))) == Height(RefShape(old_root)) + 1
    ensures RefElements(Internal(node)) == RefElements(old_root) + RefElements(branch)
  {
    assert node.Shapes == [RefShape(old_root), RefShape(branch)];
    assert node.Parts == [RefElements(old_root)] + [RefElements(branch)];
    assert node.Parts[..1] == [RefElements(old_root)];
    assert Flatten(node.Parts[..1]) == RefElements(old_root) by {
      assert node.Parts[..1][..0] == [];
    }
  }
}
