/**
 * `LeafNode` of src/vec/leaf_node.rs: the bottom level of the vector trie,
 * a fixed array of `MAX_SIZE` possibly uninitialised cells (`None` for
 * `MaybeUninit::uninit()`) of which the first `len` hold values.
 * A leaf is written only while it is built or right after being cloned;
 * once handed out behind a node reference it is never changed again.
 */
module VecLeaf {
  import opened Wrappers

  /** Fan-out of every trie node. */
  const MAX_SIZE: nat := 32

  class LeafNode<T> {
    /** The cells; `None` where never written. */
    const values: array<Option<T>>
    var len: nat

    /** The values held, in order. */
    ghost var Elements: seq<T>
    ghost var Repr: set<object>

    ghost predicate Valid()
      reads this, Repr
      ensures Valid() ==> this in Repr
    {
      Repr == {this, values}
      && values.Length == MAX_SIZE
      && len == |Elements| <= MAX_SIZE
      && forall i :: 0 <= i < len ==> values[i] == Some(Elements[i])
    }

    /** The struct literal `LeafNode { values: [uninit; 32], len: 0 }`. */
    constructor Empty()
      ensures Valid() && fresh(Repr) && Elements == []
    {
      values := new Option<T>[MAX_SIZE](_ => None);
      len := 0;
      Elements := [];
      Repr := {this, values};
    }

    /** `clone()`: a fresh leaf with a copy of the cells and the same length. */
    constructor Clone(src: LeafNode<T>)
      requires src.Valid()
      ensures Valid() && fresh(Repr) && Elements == src.Elements
    {
      values := new Option<T>[MAX_SIZE](i reads src, src.values =>
        if 0 <= i < src.values.Length then src.values[i] else None);
      len := src.len;
      Elements := src.Elements;
      Repr := {this, values};
    }

    /**
     * `new(values)`: asserts there are at most `MAX_SIZE` values, then
     * appends them one by one.
     */
    constructor New(vs: seq<T>)
      requires |vs| <= MAX_SIZE
      ensures Valid() && fresh(Repr) && Elements == vs
    {
      values := new Option<T>[MAX_SIZE](_ => None);
      len := 0;
      Elements := [];
      new;
      Repr := {this, values};
      for j := 0 to |vs|
        invariant Valid() && fresh(values) && Elements == vs[..j]
      {
        AppendValue(vs[j]);
      }
      assert vs[..|vs|] == vs;
    }

    /** `append_value(v)`: writes cell `len` and counts it. */
    method AppendValue(v: T)
      requires Valid() && len < MAX_SIZE
      modifies this, values
      ensures Valid() && Repr == old(Repr)
      ensures Elements == old(Elements) + [v]
    {
      values[len] := Some(v);
      len := len + 1;
      Elements := Elements + [v];
    }

    /**
     * `push_back(v)`: `None` when the leaf is full; otherwise a fresh copy
     * with `v` appended. This leaf itself is left as it was.
     */
    method PushBack(v: T) returns (r: Option<LeafNode<T>>)
      requires Valid()
      ensures r.None? <==> len == MAX_SIZE
      ensures r.Some? ==> r.value.Valid() && fresh(r.value.Repr)
      ensures r.Some? ==> r.value.Elements == Elements + [v]
    {
      if len == MAX_SIZE {
        return None;
      }
      var leaf := new LeafNode.Clone(this);
      leaf.AppendValue(v);
      return Some(leaf);
    }

    /** `len()`: the number of values held. */
    function Len(): (n: nat)
      reads this, Repr
      requires Valid()
      ensures n == |Elements| && n <= MAX_SIZE
    {
      len
    }

    /**
     * `get(i)`, and the `Index` impl whose `index >= len` branch is
     * unreachable: the `i`-th value held.
     */
    function Get(i: nat): (v: T)
      reads this, Repr
      requires Valid() && i < len
      ensures v == Elements[i]
    {
      values[i].value
    }
  }

  /** `eq`: same length and the same values up to it; cells past `len` play no part. */
  method Equal<T(==)>(a: LeafNode<T>, b: LeafNode<T>) returns (eq: bool)
    requires a.Valid() && b.Valid()
    ensures eq <==> a.Elements == b.Elements
  {
    if a.len != b.len {
      return false;
    }
    for i := 0 to a.len
      invariant a.Elements[..i] == b.Elements[..i]
    {
      if a.Get(i) != b.Get(i) {
        return false;
      }
    }
    assert a.Elements == a.Elements[..a.len];
    assert b.Elements == b.Elements[..b.len];
    return true;
  }

  /** The iterator of a leaf: yields the values held, from index 0 up. */
  class LeafNodeIterator<T> {
    const leaf: LeafNode<T>
    var index: nat

    ghost predicate Valid()
      reads this, leaf, leaf.Repr
    {
      leaf.Valid() && index <= leaf.len
    }

    /** `into_iter()`: starts at index 0. */
    constructor(leaf: LeafNode<T>)
      requires leaf.Valid()
      ensures Valid() && this.leaf == leaf && index == 0
    {
      this.leaf := leaf;
      index := 0;
    }

    /** `next()`: the value at `index`, then one step on; `None` at the end. */
    method Next() returns (r: Option<T>)
      requires Valid()
      modifies this
      ensures Valid()
      ensures old(index) == leaf.len <==> r.None?
      ensures r.None? ==> index == old(index)
      ensures r.Some? ==> r.value == leaf.Elements[old(index)] && index == old(index) + 1
    {
      if index == leaf.Len() {
        return None;
      }
      r := Some(leaf.Get(index));
      index := index + 1;
    }
  }

  /** Collecting the iterator of a leaf yields exactly its values, in index order. */
  method Collect<T>(leaf: LeafNode<T>) returns (vs: seq<T>)
    requires leaf.Valid()
    ensures vs == leaf.Elements
  {
    var it := new LeafNodeIterator(leaf);
    vs := [];
    while true
      invariant it.Valid() && it.leaf == leaf && vs == leaf.Elements[..it.index]
      decreases leaf.len - it.index
    {
      var r := it.Next();
      if r.None? {
        break;
      }
      vs := vs + [r.value];
    }
    assert leaf.Elements[..leaf.len] == leaf.Elements;
  }
}
