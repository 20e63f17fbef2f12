/**
 * `TaggedRef` of src/tagged_ref.rs: a pointer to a 4-aligned allocation
 * with a 2-bit tag packed into its two low (always zero) bits. The
 * allocator is a parameter: `New` is handed the address `alloc` returned,
 * and memory is a map from addresses to the values written there.
 */
module TaggedPointer {
  import opened Wrappers

  /** Alignment of every allocation; its low bits are free for the tag. */
  const ALIGNMENT: bv64 := 4

  /** The bits that hold the tag. */
  const TAG_MASK: bv64 := 0x3

  datatype TaggedRef = TaggedRef(ptr: bv64)

  /** The one panic of `new`. */
  datatype Panic = TooLargeTag

  /** An address as `alloc` returns it for a layout of alignment `ALIGNMENT`. */
  predicate Aligned(addr: bv64)
  {
    addr & (ALIGNMENT - 1) == 0
  }

  /** `tag()`: the two low bits, so never above `TAG_MASK`. */
  function Tag(t: TaggedRef): (r: bv64)
    ensures r <= TAG_MASK
  {
    t.ptr & TAG_MASK
  }

  /** The address `as_ref` dereferences: the pointer with the tag bits cleared. */
  function Address(t: TaggedRef): (a: bv64)
    ensures Aligned(a)
  {
    t.ptr & !TAG_MASK
  }

  /** Packing a tag into an aligned address: both halves come back out unchanged. */
  lemma PackUnpack(addr: bv64, tag: bv64)
    requires Aligned(addr) && tag <= TAG_MASK
    ensures (addr | tag) & TAG_MASK == tag
    ensures (addr | tag) & !TAG_MASK == addr
  {
  }

  /** The tagged reference to `addr` carrying `tag`. */
  function Pack(addr: bv64, tag: bv64): (t: TaggedRef)
    requires Aligned(addr) && tag <= TAG_MASK
    ensures Tag(t) == tag && Address(t) == addr
  {
    PackUnpack(addr, tag);
    TaggedRef(addr | tag)
  }

  /** Every tagged reference is its address with its tag packed in. */
  lemma Unpack(t: TaggedRef)
    ensures Address(t) | Tag(t) == t.ptr
  {
  }

  /** The values written so far, by address. */
  class Memory<T> {
    var cells: map<nat, T>

    constructor()
      ensures cells == map[]
    {
      cells := map[];
    }

    /**
     * `new(value, tag)`: panics for a tag above `TAG_MASK`; otherwise
     * writes `value` at the fresh aligned address `addr` and returns that
     * address with the tag packed in.
     */
    method New(value: T, tag: bv64, addr: bv64) returns (r: Result<TaggedRef, Panic>)
      requires Aligned(addr)
      modifies this
      ensures r.Failure? <==> tag > TAG_MASK
      ensures r.Failure? ==> cells == old(cells)
      ensures r.Success? ==> cells == old(cells)[addr as nat := value]
      ensures r.Success? ==> Tag(r.value) == tag && Address(r.value) == addr
      ensures r.Success? ==> AsRef(r.value) == value
    {
      if tag > TAG_MASK {
        return Failure(TooLargeTag);
      }
      cells := cells[addr as nat := value];
      r := Success(Pack(addr, tag));
    }

    /** `as_ref()`: the value stored at the pointer's address. */
    function AsRef(t: TaggedRef): T
      reads this
      requires Address(t) as nat in cells
    {
      cells[Address(t) as nat]
    }
  }
}
