/**
 * `LeafNode` of src/vector/leaf_node.rs, the second variant of the trie
 * leaf: `MAX_SIZE` possibly uninitialised cells (`None` for
 * `MaybeUninit::uninit()`) of which the first `size` hold values. Unlike
 * the leaf of the vector trie, `new` does not check how many values it is
 * given: the write past the last cell panics.
 */
module VectorLeaf {
  import opened Wrappers

  /** Capacity of a leaf. */
  const MAX_SIZE: nat := 32

  class LeafNode<T> {
    /** The cells; `None` where never written. */
    const values: array<Option<T>>
    var size: nat

    /** The values held, in order. */
    ghost var Elements: seq<T>
    ghost var Repr: set<object>

    ghost predicate Valid()
      reads this, Repr
      ensures Valid() ==> this in Repr
    {
      Repr == {this, values}
      && values.Length == MAX_SIZE
      && size == |Elements| <= MAX_SIZE
      && forall i :: 0 <= i < size ==> values[i] == Some(Elements[i])
    }

    /**
     * `new(values)`: writes the values into cells `0, 1, ...`, counting
     * each; a value past cell `MAX_SIZE - 1` is an out-of-bounds write,
     * which panics.
     */
    constructor New(vs: seq<T>)
      requires |vs| <= MAX_SIZE
      ensures Valid() && fresh(Repr) && Elements == vs && size == |vs|
    {
      values := new Option<T>[MAX_SIZE](_ => None);
      size := 0;
      Elements := [];
      new;
      Repr := {this, values};
      for index := 0 to |vs|
        invariant Valid() && fresh(values) && size == index && Elements == vs[..index]
      {
        values[index] := Some(vs[index]);
        size := size + 1;
        Elements := Elements + [vs[index]];
      }
      assert vs[..|vs|] == vs;
    }

    /** The derived `clone()`: a fresh leaf with a copy of the cells and the same size. */
    constructor Clone(src: LeafNode<T>)
      requires src.Valid()
      ensures Valid() && fresh(Repr) && size == src.size && Elements == src.Elements
      ensures values[..] == src.values[..]
    {
      values := new Option<T>[MAX_SIZE](i reads src, src.values =>
        if 0 <= i < src.values.Length then src.values[i] else None);
      size := src.size;
      Elements := src.Elements;
      Repr := {this, values};
    }

    /**
     * `push_back(value)`: `None` when the leaf is full; otherwise a clone
     * with `value` written to cell `size` and `size` counted up. This leaf
     * is left as it was.
     */
    method PushBack(v: T) returns (r: Option<LeafNode<T>>)
      requires Valid()
      ensures r.None? <==> size == MAX_SIZE
      ensures r.Some? ==> r.value.Valid() && fresh(r.value.Repr)
      ensures r.Some? ==> r.value.size == size + 1 && r.value.Elements == Elements + [v]
    {
      if size == MAX_SIZE {
        return None;
      }
      var leaf := new LeafNode.Clone(this);
      leaf.values[leaf.size] := Some(v);
      leaf.size := leaf.size + 1;
      leaf.Elements := leaf.Elements + [v];
      return Some(leaf);
    }
  }
}
