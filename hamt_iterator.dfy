/**
 * `HAMTIterator` of src/hash_map/hamt.rs: a depth-first walk over a trie
 * driven by an explicit stack of (node, next slot) frames. A bucket met on
 * the way is turned into its pair sequence (`to_vec`) once and walked by
 * index. The ghost map `Remaining` is what the walk has still to yield.
 */
module HashTrieIterator {
  import opened Wrappers
  import opened HashedKey
  import opened HashTrie
  import B = CollisionBucket

  /** One stack frame: a node and the slot to visit next, or a bucket's pairs and the next index. */
  datatype Frame<K, V> =
    | NodeFrame(node: HAMT<K, V>, index: nat)
    | BucketFrame(pairs: seq<(K, V)>, index: nat)

  /** What a frame has still to yield. */
  ghost function FrameMap<K(!new), V>(f: Frame<K, V>): map<K, V>
  {
    match f
    case NodeFrame(h, i) => if i <= |h.entries| then ContentsFrom(h, i) else map[]
    case BucketFrame(ps, i) => if i <= |ps| then B.PairsMap(ps[i..]) else map[]
  }

  ghost predicate FrameValid<K(!new), V>(H: K -> bv64, f: Frame<K, V>)
  {
    match f
    case NodeFrame(h, i) => HashTrie.Valid(H, h) && i <= NUM_ENTRIES
    case BucketFrame(ps, i) => i <= |ps| && B.DistinctKeys(ps)
  }

  /** What the whole stack has still to yield; the top of the stack is the last frame. */
  ghost function StackMap<K(!new), V>(st: seq<Frame<K, V>>): map<K, V>
  {
    if |st| == 0 then map[] else StackMap(st[..|st| - 1]) + FrameMap(st[|st| - 1])
  }

  /** Every frame is valid and no key is pending in two frames. */
  ghost predicate StackValid<K(!new), V>(H: K -> bv64, st: seq<Frame<K, V>>)
  {
    |st| == 0 ||
    (StackValid(H, st[..|st| - 1]) && FrameValid(H, st[|st| - 1])
     && StackMap(st[..|st| - 1]).Keys !! FrameMap(st[|st| - 1]).Keys)
  }

  /** Termination measure: slots and pairs still to visit, children included. */
  ghost function NodeWork<K(!new), V>(h: HAMT<K, V>): nat
    decreases h, 2
  {
    1 + SlotWork(h, 0)
  }

  ghost function SlotWork<K(!new), V>(h: HAMT<K, V>, i: nat): nat
    decreases h, 1, |h.entries| - i
  {
    if i >= |h.entries| then 0 else 1 + EntryWork(h.entries[i]) + SlotWork(h, i + 1)
  }

  ghost function EntryWork<K(!new), V>(e: Entry<K, V>): nat
    decreases e, 0
  {
    match e
    case Child(c) => NodeWork(c)
    case Bucket(b) => 1 + |b.hashMap.Keys|
    case _ => 0
  }

  ghost function FrameWork<K(!new), V>(f: Frame<K, V>): nat
  {
    match f
    case NodeFrame(h, i) => 1 + SlotWork(h, i)
    case BucketFrame(ps, i) => 1 + (if i <= |ps| then |ps| - i else 0)
  }

  ghost function Work<K(!new), V>(st: seq<Frame<K, V>>): nat
  {
    if |st| == 0 then 0 else Work(st[..|st| - 1]) + FrameWork(st[|st| - 1])
  }

  /** Pushing a frame adds its pending pairs and its work. */
  lemma Push<K(!new), V>(H: K -> bv64, st: seq<Frame<K, V>>, f: Frame<K, V>)
    ensures StackMap(st + [f]) == StackMap(st) + FrameMap(f)
    ensures StackValid(H, st + [f]) <==>
      (StackValid(H, st) && FrameValid(H, f) && StackMap(st).Keys !! FrameMap(f).Keys)
    ensures Work(st + [f]) == Work(st) + FrameWork(f)
  {
    assert (st + [f])[..|st|] == st;
  }

  /** Slot `i` and the slots after it hold disjoint keys. */
  lemma SlotSplit<K(!new), V>(H: K -> bv64, h: HAMT<K, V>, i: nat)
    requires SlotKeyed(H, h) && i < NUM_ENTRIES
    ensures ContentsFrom(h, i) == EntryContents(h.entries[i]) + ContentsFrom(h, i + 1)
    ensures EntryContents(h.entries[i]).Keys !! ContentsFrom(h, i + 1).Keys
  {
    forall k | k in EntryContents(h.entries[i]) ensures k !in ContentsFrom(h, i + 1) {
      assert Keyed(H, h.level, i, h.entries[i]);
      ContentsFromAt(H, h, i + 1, k);
    }
  }

  /** The first pending pair of a bucket frame, and the rest after it. */
  lemma BucketSplit<K(!new), V>(ps: seq<(K, V)>, i: nat)
    requires i < |ps| && B.DistinctKeys(ps)
    ensures B.PairsMap(ps[i..]) == map[ps[i].0 := ps[i].1] + B.PairsMap(ps[i + 1..])
    ensures ps[i].0 !in B.PairsMap(ps[i + 1..])
  {
    assert ps[i..][1..] == ps[i + 1..];
    B.PairsMapKeys(ps[i + 1..], ps[i].0);
    var q := ps[i + 1..];
    forall j | 0 <= j < |q| ensures q[j].0 != ps[i].0 {
      assert q[j] == ps[i + 1 + j];
    }
  }

  lemma UnionRearrange<K(!new), V>(a: map<K, V>, c: map<K, V>, e: map<K, V>)
    requires a.Keys !! (e.Keys + c.Keys) && e.Keys !! c.Keys
    ensures a + (e + c) == (a + c) + e
    ensures (a + c).Keys !! e.Keys && a.Keys !! c.Keys
  {
    var l := a + (e + c);
    var r := (a + c) + e;
    assert l.Keys == r.Keys;
  }

  class HamtIterator<K(==, !new), V> {
    var stack: seq<Frame<K, V>>
    ghost const H: K -> bv64

    ghost predicate Valid()
      reads this
    {
      StackValid(H, stack)
    }

    /** The pairs the walk has still to yield. */
    ghost function Remaining(): map<K, V>
      reads this
    {
      StackMap(stack)
    }

    /** `into_iter()`: a walk starting at slot 0 of the root. */
    constructor(H: K -> bv64, h: HAMT<K, V>)
      requires HashTrie.Valid(H, h)
      ensures Valid() && Remaining() == Contents(h)
      ensures this.H == H
    {
      this.H := H;
      stack := [NodeFrame(h, 0)];
      new;
      Push(H, [], NodeFrame(h, 0));
      assert [] + [NodeFrame(h, 0)] == [NodeFrame(h, 0)];
    }

    /**
     * `next()`: the next pair of the walk, taken out of `Remaining`, or
     * `None` once nothing is left.
     */
    method Next() returns (r: Option<(K, V)>)
      requires Valid()
      modifies this
      ensures Valid()
      ensures r.None? <==> old(Remaining()) == map[]
      ensures r.Some? ==> r.value.0 in old(Remaining()) && old(Remaining())[r.value.0] == r.value.1
      ensures r.Some? ==> Remaining() == old(Remaining()) - {r.value.0}
      decreases Work(stack)
    {
      ghost var before := Remaining();
      if |stack| == 0 {
        return None;
      }
      var rest := stack[..|stack| - 1];
      TopFrame(H, stack);
      match stack[|stack| - 1]
      case NodeFrame(h, i) =>
        if i == NUM_ENTRIES {
          PopExhausted(H, stack);
          stack := rest;
          r := Next();
          assert r.None? <==> before == map[];
        } else {
          match h.entries[i] {
            case Empty =>
              AdvanceEmpty(H, stack, h, i);
              stack := rest + [NodeFrame(h, i + 1)];
              r := Next();
              assert r.None? <==> before == map[];
            case Child(c) =>
              AdvanceChild(H, stack, h, i, c);
              stack := rest + [NodeFrame(h, i + 1), NodeFrame(c, 0)];
              r := Next();
              assert r.None? <==> before == map[];
            case KeyValue(k, v) =>
              AdvanceKeyValue(H, stack, h, i, k, v);
              stack := rest + [NodeFrame(h, i + 1)];
              r := Some((k, v));
              assert r.None? <==> before == map[];
            case Bucket(b) =>
              var ps := B.ToVec(b);
              AdvanceBucket(H, stack, h, i, ps);
              stack := rest + [NodeFrame(h, i + 1), BucketFrame(ps, 0)];
              r := Next();
              assert r.None? <==> before == map[];
          }
        }
      case BucketFrame(ps, i) =>
        if i == |ps| {
          PopExhausted(H, stack);
          stack := rest;
          r := Next();
          assert r.None? <==> before == map[];
        } else {
          AdvancePair(H, stack, ps, i);
          stack := rest + [BucketFrame(ps, i + 1)];
          r := Some(ps[i]);
          assert r.None? <==> before == map[];
        }
    }
  }

  /** The shape facts `next` relies on about the top frame, without the rest of its validity. */
  lemma TopFrame<K(!new), V>(H: K -> bv64, st: seq<Frame<K, V>>)
    requires StackValid(H, st) && |st| > 0
    ensures st[|st| - 1].NodeFrame? ==>
      st[|st| - 1].index <= NUM_ENTRIES && |st[|st| - 1].node.entries| == NUM_ENTRIES
    ensures st[|st| - 1].BucketFrame? ==> st[|st| - 1].index <= |st[|st| - 1].pairs|
  {
    Pop(H, st);
  }

  /** A frame with nothing left to visit. */
  predicate Exhausted<K, V>(f: Frame<K, V>)
  {
    match f
    case NodeFrame(h, i) => i == NUM_ENTRIES
    case BucketFrame(ps, i) => i == |ps|
  }

  /** Dropping an exhausted top frame loses no pending pair. */
  lemma PopExhausted<K(!new), V>(H: K -> bv64, st: seq<Frame<K, V>>)
    requires StackValid(H, st) && |st| > 0 && Exhausted(st[|st| - 1])
    ensures StackValid(H, st[..|st| - 1])
    ensures StackMap(st[..|st| - 1]) == StackMap(st)
    ensures Work(st[..|st| - 1]) < Work(st)
  {
    Pop(H, st);
    match st[|st| - 1]
    case NodeFrame(h, i) =>
    case BucketFrame(ps, i) =>
      assert ps[i..] == [];
  }

  /** Stepping over an empty slot. */
  lemma AdvanceEmpty<K(!new), V>(H: K -> bv64, st: seq<Frame<K, V>>, h: HAMT<K, V>, i: nat)
    requires StackValid(H, st) && |st| > 0 && st[|st| - 1] == NodeFrame(h, i)
    requires i < NUM_ENTRIES && h.entries[i].Empty?
    ensures StackValid(H, st[..|st| - 1] + [NodeFrame(h, i + 1)])
    ensures StackMap(st[..|st| - 1] + [NodeFrame(h, i + 1)]) == StackMap(st)
    ensures Work(st[..|st| - 1] + [NodeFrame(h, i + 1)]) < Work(st)
  {
    Pop(H, st);
    StepEmpty(H, st[..|st| - 1], h, i);
  }

  /** Descending into a child: the rest of this node stays below the child's walk. */
  lemma AdvanceChild<K(!new), V>(H: K -> bv64, st: seq<Frame<K, V>>, h: HAMT<K, V>, i: nat, c: HAMT<K, V>)
    requires StackValid(H, st) && |st| > 0 && st[|st| - 1] == NodeFrame(h, i)
    requires i < NUM_ENTRIES && h.entries[i] == Child(c)
    ensures StackValid(H, st[..|st| - 1] + [NodeFrame(h, i + 1), NodeFrame(c, 0)])
    ensures StackMap(st[..|st| - 1] + [NodeFrame(h, i + 1), NodeFrame(c, 0)]) == StackMap(st)
    ensures Work(st[..|st| - 1] + [NodeFrame(h, i + 1), NodeFrame(c, 0)]) < Work(st)
  {
    Pop(H, st);
    ChildValid(H, h, i);
    ChildFrames(H, h, i, c);
    Replace2(H, st[..|st| - 1], st[|st| - 1], NodeFrame(h, i + 1), NodeFrame(c, 0));
  }

  /** Yielding the pair held in a slot. */
  lemma AdvanceKeyValue<K(!new), V>(H: K -> bv64, st: seq<Frame<K, V>>, h: HAMT<K, V>, i: nat, k: K, v: V)
    requires StackValid(H, st) && |st| > 0 && st[|st| - 1] == NodeFrame(h, i)
    requires i < NUM_ENTRIES && h.entries[i] == KeyValue(k, v)
    ensures StackValid(H, st[..|st| - 1] + [NodeFrame(h, i + 1)])
    ensures k in StackMap(st) && StackMap(st)[k] == v
    ensures StackMap(st[..|st| - 1] + [NodeFrame(h, i + 1)]) == StackMap(st) - {k}
  {
    Pop(H, st);
    StepKeyValue(H, st[..|st| - 1], h, i);
  }

  /** Meeting a bucket: its pairs are listed once and walked above the rest of this node. */
  lemma AdvanceBucket<K(!new), V>(H: K -> bv64, st: seq<Frame<K, V>>, h: HAMT<K, V>, i: nat, ps: seq<(K, V)>)
    requires StackValid(H, st) && |st| > 0 && st[|st| - 1] == NodeFrame(h, i)
    requires i < NUM_ENTRIES && h.entries[i].Bucket?
    requires |ps| == B.Len(h.entries[i].bucket) && B.DistinctKeys(ps)
    requires B.PairsMap(ps) == h.entries[i].bucket.hashMap
    ensures StackValid(H, st[..|st| - 1] + [NodeFrame(h, i + 1), BucketFrame(ps, 0)])
    ensures StackMap(st[..|st| - 1] + [NodeFrame(h, i + 1), BucketFrame(ps, 0)]) == StackMap(st)
    ensures Work(st[..|st| - 1] + [NodeFrame(h, i + 1), BucketFrame(ps, 0)]) < Work(st)
  {
    Pop(H, st);
    StepBucket(H, st[..|st| - 1], h, i, ps);
  }

  /** Yielding the next pair of a bucket frame. */
  lemma AdvancePair<K(!new), V>(H: K -> bv64, st: seq<Frame<K, V>>, ps: seq<(K, V)>, i: nat)
    requires StackValid(H, st) && |st| > 0 && st[|st| - 1] == BucketFrame(ps, i) && i < |ps|
    ensures StackValid(H, st[..|st| - 1] + [BucketFrame(ps, i + 1)])
    ensures ps[i].0 in StackMap(st) && StackMap(st)[ps[i].0] == ps[i].1
    ensures StackMap(st[..|st| - 1] + [BucketFrame(ps, i + 1)]) == StackMap(st) - {ps[i].0}
  {
    Pop(H, st);
    StepPair(H, st[..|st| - 1], ps, i);
  }

  /** Taking the top frame off a valid stack. */
  lemma Pop<K(!new), V>(H: K -> bv64, st: seq<Frame<K, V>>)
    requires StackValid(H, st) && |st| > 0
    ensures st == st[..|st| - 1] + [st[|st| - 1]]
    ensures StackValid(H, st[..|st| - 1]) && FrameValid(H, st[|st| - 1])
    ensures StackMap(st) == StackMap(st[..|st| - 1]) + FrameMap(st[|st| - 1])
    ensures StackMap(st[..|st| - 1]).Keys !! FrameMap(st[|st| - 1]).Keys
    ensures Work(st) == Work(st[..|st| - 1]) + FrameWork(st[|st| - 1])
  {
    var p := st[..|st| - 1];
    var t := st[|st| - 1];
    assert st == p + [t];
  }

  /** An empty slot: move on to the next slot, nothing pending changes. */
  lemma StepEmpty<K(!new), V>(H: K -> bv64, rest: seq<Frame<K, V>>, h: HAMT<K, V>, i: nat)
    requires StackValid(H, rest) && HashTrie.Valid(H, h) && i < NUM_ENTRIES && h.entries[i].Empty?
    requires StackMap(rest).Keys !! ContentsFrom(h, i).Keys
    ensures StackValid(H, rest + [NodeFrame(h, i + 1)])
    ensures StackMap(rest + [NodeFrame(h, i + 1)]) == StackMap(rest) + ContentsFrom(h, i)
    ensures Work(rest + [NodeFrame(h, i + 1)]) < Work(rest) + FrameWork(NodeFrame(h, i))
  {
    Push(H, rest, NodeFrame(h, i + 1));
  }

  /** A pair in a slot: it is yielded and leaves the pending map. */
  lemma StepKeyValue<K(!new), V>(H: K -> bv64, rest: seq<Frame<K, V>>, h: HAMT<K, V>, i: nat)
    requires StackValid(H, rest) && HashTrie.Valid(H, h) && i < NUM_ENTRIES && h.entries[i].KeyValue?
    requires StackMap(rest).Keys !! ContentsFrom(h, i).Keys
    ensures StackValid(H, rest + [NodeFrame(h, i + 1)])
    ensures h.entries[i].key in StackMap(rest) + ContentsFrom(h, i)
    ensures (StackMap(rest) + ContentsFrom(h, i))[h.entries[i].key] == h.entries[i].value
    ensures StackMap(rest + [NodeFrame(h, i + 1)]) == (StackMap(rest) + ContentsFrom(h, i)) - {h.entries[i].key}
  {
    SlotSplit(H, h, i);
    var k, v := h.entries[i].key, h.entries[i].value;
    assert EntryContents(h.entries[i]) == map[k := v];
    var m, c := StackMap(rest), ContentsFrom(h, i + 1);
    assert ContentsFrom(h, i) == map[k := v] + c;
    Push(H, rest, NodeFrame(h, i + 1));
    assert StackMap(rest + [NodeFrame(h, i + 1)]) == m + c;
    UnionWithout(m, k, v, c);
  }

  /** Taking away a key held only by the middle one-pair map of a union leaves the other two. */
  lemma UnionWithout<K(!new), V>(m: map<K, V>, k: K, v: V, c: map<K, V>)
    requires k !in m && k !in c
    ensures k in m + (map[k := v] + c) && (m + (map[k := v] + c))[k] == v
    ensures (m + (map[k := v] + c)) - {k} == m + c
  {
    var l := (m + (map[k := v] + c)) - {k};
    assert l.Keys == (m + c).Keys;
  }

  /** The child in slot `i` of a valid node is valid. */
  lemma ChildValid<K(!new), V>(H: K -> bv64, h: HAMT<K, V>, i: nat)
    requires HashTrie.Valid(H, h) && i < NUM_ENTRIES && h.entries[i].Child?
    ensures HashTrie.Valid(H, h.entries[i].node)
  {
    assert EntryValid(H, h.level, h.entries[i]);
  }

  /** Pushing two frames at once. */
  lemma Push2<K(!new), V>(H: K -> bv64, rest: seq<Frame<K, V>>, f: Frame<K, V>, g: Frame<K, V>)
    requires StackValid(H, rest) && FrameValid(H, f) && FrameValid(H, g)
    requires StackMap(rest).Keys !! FrameMap(f).Keys
    requires (StackMap(rest) + FrameMap(f)).Keys !! FrameMap(g).Keys
    ensures StackValid(H, rest + [f, g])
    ensures StackMap(rest + [f, g]) == StackMap(rest) + FrameMap(f) + FrameMap(g)
    ensures Work(rest + [f, g]) == Work(rest) + FrameWork(f) + FrameWork(g)
  {
    assert rest + [f, g] == (rest + [f]) + [g];
    Push(H, rest, f);
    Push(H, rest + [f], g);
  }

  /** Replacing the top frame `t` by two frames `f`, `g` that split its pending pairs and its work. */
  lemma Replace2<K(!new), V>(H: K -> bv64, rest: seq<Frame<K, V>>, t: Frame<K, V>, f: Frame<K, V>, g: Frame<K, V>)
    requires StackValid(H, rest) && FrameValid(H, f) && FrameValid(H, g)
    requires StackMap(rest).Keys !! FrameMap(t).Keys
    requires FrameMap(t) == FrameMap(g) + FrameMap(f) && FrameMap(g).Keys !! FrameMap(f).Keys
    requires FrameWork(f) + FrameWork(g) < FrameWork(t)
    ensures StackValid(H, rest + [f, g])
    ensures StackMap(rest + [f, g]) == StackMap(rest) + FrameMap(t)
    ensures Work(rest + [f, g]) < Work(rest) + FrameWork(t)
  {
    UnionRearrange(StackMap(rest), FrameMap(f), FrameMap(g));
    Push2(H, rest, f, g);
  }

  /** A child in slot `i` splits the frame into the rest of the node and the child's walk. */
  lemma ChildFrames<K(!new), V>(H: K -> bv64, h: HAMT<K, V>, i: nat, c: HAMT<K, V>)
    requires SlotKeyed(H, h) && i < NUM_ENTRIES && h.entries[i] == Child(c)
    ensures FrameMap(NodeFrame(h, i)) == FrameMap(NodeFrame(c, 0)) + FrameMap(NodeFrame(h, i + 1))
    ensures FrameMap(NodeFrame(c, 0)).Keys !! FrameMap(NodeFrame(h, i + 1)).Keys
    ensures FrameWork(NodeFrame(h, i + 1)) + FrameWork(NodeFrame(c, 0)) < FrameWork(NodeFrame(h, i))
  {
    SlotSplit(H, h, i);
    assert SlotWork(h, i) == 1 + EntryWork(h.entries[i]) + SlotWork(h, i + 1);
    assert EntryWork(h.entries[i]) == NodeWork(c) == 1 + SlotWork(c, 0);
  }

  /** A bucket in a slot: its pair sequence is pushed above the rest of this node's walk. */
  lemma StepBucket<K(!new), V>(H: K -> bv64, rest: seq<Frame<K, V>>, h: HAMT<K, V>, i: nat, ps: seq<(K, V)>)
    requires StackValid(H, rest) && HashTrie.Valid(H, h) && i < NUM_ENTRIES && h.entries[i].Bucket?
    requires StackMap(rest).Keys !! ContentsFrom(h, i).Keys
    requires |ps| == B.Len(h.entries[i].bucket) && B.DistinctKeys(ps)
    requires B.PairsMap(ps) == h.entries[i].bucket.hashMap
    ensures StackValid(H, rest + [NodeFrame(h, i + 1), BucketFrame(ps, 0)])
    ensures StackMap(rest + [NodeFrame(h, i + 1), BucketFrame(ps, 0)]) == StackMap(rest) + ContentsFrom(h, i)
    ensures Work(rest + [NodeFrame(h, i + 1), BucketFrame(ps, 0)]) < Work(rest) + FrameWork(NodeFrame(h, i))
  {
    SlotSplit(H, h, i);
    var f := NodeFrame(h, i + 1);
    var g := BucketFrame(ps, 0);
    assert ps[0..] == ps;
    assert FrameMap(f) == ContentsFrom(h, i + 1);
    assert FrameMap(g) == EntryContents(h.entries[i]);
    UnionRearrange(StackMap(rest), ContentsFrom(h, i + 1), B.PairsMap(ps));
    Push2(H, rest, f, g);
    assert FrameWork(NodeFrame(h, i)) == 2 + EntryWork(h.entries[i]) + SlotWork(h, i + 1);
  }

  /** The next pair of a bucket frame: it is yielded and leaves the pending map. */
  lemma StepPair<K(!new), V>(H: K -> bv64, rest: seq<Frame<K, V>>, ps: seq<(K, V)>, i: nat)
    requires StackValid(H, rest) && i < |ps| && B.DistinctKeys(ps)
    requires StackMap(rest).Keys !! B.PairsMap(ps[i..]).Keys
    ensures StackValid(H, rest + [BucketFrame(ps, i + 1)])
    ensures ps[i].0 in StackMap(rest) + B.PairsMap(ps[i..])
    ensures (StackMap(rest) + B.PairsMap(ps[i..]))[ps[i].0] == ps[i].1
    ensures StackMap(rest + [BucketFrame(ps, i + 1)]) == (StackMap(rest) + B.PairsMap(ps[i..])) - {ps[i].0}
  {
    BucketSplit(ps, i);
    Push(H, rest, BucketFrame(ps, i + 1));
    var l := StackMap(rest + [BucketFrame(ps, i + 1)]);
    var r := (StackMap(rest) + B.PairsMap(ps[i..])) - {ps[i].0};
    assert l.Keys == r.Keys;
  }

  /**
   * Draining a fresh iterator over a valid trie, as the `iterator` test of
   * src/hash_map/hamt.rs does: it yields exactly `size()` pairs, no key
   * twice, and each pair is what `get` finds for its key.
   */
  method Collect<K(!new), V>(H: K -> bv64, h: HAMT<K, V>) returns (pairs: seq<(K, V)>)
    requires HashTrie.Valid(H, h)
    ensures |pairs| == Size(h)
    ensures B.DistinctKeys(pairs)
    ensures forall j :: 0 <= j < |pairs| ==> Get(H, h, pairs[j].0) == Some(pairs[j].1)
  {
    ghost var all := Contents(h);
    var it := new HamtIterator(H, h);
    pairs := [];
    DrainedStart(all);
    while true
      invariant it.Valid() && Drained(pairs, it.Remaining(), all)
      decreases |it.Remaining().Keys|
    {
      ghost var before := it.Remaining();
      var r := it.Next();
      if r.None? {
        DrainedDone(pairs, before, all);
        break;
      }
      var (k, v) := r.value;
      DrainedStep(pairs, k, v, before, it.Remaining(), all);
      pairs := pairs + [(k, v)];
    }
    SizeIsCount(H, h);
  }

  /** The keys listed in a pair sequence. */
  ghost function KeysOf<K, V>(ps: seq<(K, V)>): set<K>
  {
    if |ps| == 0 then {} else KeysOf(ps[..|ps| - 1]) + {ps[|ps| - 1].0}
  }

  lemma {:induction false} KeysOfHas<K, V>(ps: seq<(K, V)>, j: nat)
    requires j < |ps|
    ensures ps[j].0 in KeysOf(ps)
  {
    if j < |ps| - 1 {
      KeysOfHas(ps[..|ps| - 1], j);
    }
  }

  /**
   * The loop invariant of `Collect`: the pairs yielded so far and the
   * pending map `rem` split the trie's contents `all` without overlap.
   */
  ghost predicate Drained<K, V>(pairs: seq<(K, V)>, rem: map<K, V>, all: map<K, V>)
  {
    && B.DistinctKeys(pairs) && |KeysOf(pairs)| == |pairs|
    && KeysOf(pairs) !! rem.Keys && KeysOf(pairs) + rem.Keys == all.Keys
    && (forall k :: k in rem ==> k in all && rem[k] == all[k])
    && (forall j :: 0 <= j < |pairs| ==> pairs[j].0 in all && all[pairs[j].0] == pairs[j].1)
  }

  lemma DrainedStart<K, V>(all: map<K, V>)
    ensures Drained([], all, all)
  {
  }

  /** Recording one more yielded pair in `Collect`. */
  lemma DrainedStep<K, V>(pairs: seq<(K, V)>, k: K, v: V, before: map<K, V>, after: map<K, V>, all: map<K, V>)
    requires Drained(pairs, before, all) && k in before && before[k] == v && after == before - {k}
    ensures Drained(pairs + [(k, v)], after, all)
    ensures |after.Keys| < |before.Keys|
  {
    var ps := pairs + [(k, v)];
    assert ps[..|pairs|] == pairs;
    forall j | 0 <= j < |pairs| ensures pairs[j].0 != k {
      KeysOfHas(pairs, j);
    }
    assert KeysOf(ps) == KeysOf(pairs) + {k};
    assert after.Keys == before.Keys - {k};
    forall j | 0 <= j < |ps| ensures ps[j].0 in all && all[ps[j].0] == ps[j].1 {
      if j < |pairs| {
        assert ps[j] == pairs[j];
      }
    }
  }

  /** Once nothing is pending, the pairs are the whole contents. */
  lemma DrainedDone<K, V>(pairs: seq<(K, V)>, rem: map<K, V>, all: map<K, V>)
    requires Drained(pairs, rem, all) && rem == map[]
    ensures |pairs| == |all.Keys|
  {
    assert KeysOf(pairs) == all.Keys;
  }
}
