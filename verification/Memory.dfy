/**
  The contents of the two heaps as a value, and how they represent layers of trees.

  Heap r % 2 is the one round r writes. The hashes of a layer are only needed until
  the next round has read them; its tags stay readable to the end, because each
  reuse of a heap writes strictly below the tags that are already there.
*/
module Memory {
  import opened Arith
  import opened HashBits
  import opened Wagner
  import opened Layers
  import opened TreeTag
  import opened Slots

  type HeapImage = seq<seq<Slot>>

  datatype Mem = Mem(heap0: HeapImage, heap1: HeapImage) {
    function Heap(r: nat): HeapImage
    {
      if r % 2 == 0 then heap0 else heap1
    }

    predicate Shape()
    {
      && |heap0| == NBUCKETS && |heap1| == NBUCKETS
      && (forall b :: 0 <= b < NBUCKETS ==> |heap0[b]| == NSLOTS)
      && (forall b :: 0 <= b < NBUCKETS ==> |heap1[b]| == NSLOTS)
      && (forall b, s :: 0 <= b < NBUCKETS && 0 <= s < NSLOTS ==> |heap0[b][s]| == SlotUnits(0))
      && (forall b, s :: 0 <= b < NBUCKETS && 0 <= s < NSLOTS ==> |heap1[b][s]| == SlotUnits(1))
    }

    function At(r: nat, b: nat, s: nat): (slot: Slot)
      requires Shape() && b < NBUCKETS && s < NSLOTS
      ensures |slot| == SlotUnits(r % 2)
    {
      Heap(r)[b][s]
    }
  }

  /** The word w is the tag of t, a tree of height k over the given layers. */
  predicate Decodes(layers: seq<Layer>, k: nat, w: nat, t: Tree)
    requires k <= |layers|
  {
    if k == 0 then
      t == Leaf(w)
    else
      var p := Pair(BucketId(w), SlotId0(w), SlotId1(w));
      InRange(layers[k - 1], p) && t == PairTree(layers[k - 1], p)
  }

  function TagAt(m: Mem, k: nat, b: nat, s: nat): (w: nat)
    requires m.Shape() && k < WK && b < NBUCKETS && s < NSLOTS
    ensures w < U32
  {
    TagUnitFits(k);
    Word(m.At(k, b, s)[TagUnit(k)])
  }

  /** Every live slot of every layer built so far has its tag in memory. */
  ghost predicate TagsOK(m: Mem, layers: seq<Layer>)
    requires m.Shape() && |layers| <= WK
  {
    && (forall k :: 0 <= k < |layers| ==> |layers[k]| == NBUCKETS)
    && forall k, b, s :: 0 <= k < |layers| && 0 <= b < NBUCKETS && 0 <= s < |Live(layers[k][b])| ==>
         Decodes(layers, k, TagAt(m, k, b, s), Live(layers[k][b])[s])
  }

  /** Every live slot of the layer of height r holds the kept bytes of its hash. */
  ghost predicate HashesOK(m: Mem, H: IndexHash, L: Layer, r: nat)
    requires m.Shape() && r < WK && |L| == NBUCKETS
  {
    forall b, s :: 0 <= b < NBUCKETS && 0 <= s < |Live(L[b])| ==>
      Holds(m.At(r, b, s), r, TreeXor(H, Live(L[b])[s]))
  }

  /** The heaps after the rounds that built the given layers. */
  ghost predicate Represents(m: Mem, H: IndexHash, layers: seq<Layer>)
  {
    && m.Shape() && 0 < |layers| <= WK && TagsOK(m, layers)
    && |layers[|layers| - 1]| == NBUCKETS
    && HashesOK(m, H, layers[|layers| - 1], |layers| - 1)
  }

  lemma RepresentsShape(m: Mem, H: IndexHash, layers: seq<Layer>)
    requires Represents(m, H, layers)
    ensures m.Shape() && 0 < |layers| <= WK && |layers[|layers| - 1]| == NBUCKETS
  {
  }

  /** The heaps in the middle of round |layers|, which has built out so far. */
  ghost predicate Building(m: Mem, H: IndexHash, layers: seq<Layer>, out: Layer)
  {
    && Represents(m, H, layers) && |layers| < WK && |out| == NBUCKETS
    && TagsOK(m, layers + [out]) && HashesOK(m, H, out, |layers|)
  }

  lemma BuildingStarts(m: Mem, H: IndexHash, layers: seq<Layer>)
    requires Represents(m, H, layers) && |layers| < WK
    ensures Building(m, H, layers, EmptyLayer())
  {
    hide Decodes;
    hide TagAt;
    var now := layers + [EmptyLayer()];
    forall k, b, s | 0 <= k < |now| && 0 <= b < NBUCKETS && 0 <= s < |Live(now[k][b])|
      ensures Decodes(now, k, TagAt(m, k, b, s), Live(now[k][b])[s])
    {
      assert k < |layers| && now[k] == layers[k];
      DecodesPrefix(layers, [EmptyLayer()], k, TagAt(m, k, b, s), Live(now[k][b])[s]);
    }
  }

  lemma BuildingShape(m: Mem, H: IndexHash, layers: seq<Layer>, out: Layer)
    requires Building(m, H, layers, out)
    ensures m.Shape() && 0 < |layers| < WK && |out| == NBUCKETS && |layers[|layers| - 1]| == NBUCKETS
  {
  }

  lemma BuildingEnds(m: Mem, H: IndexHash, layers: seq<Layer>, out: Layer)
    requires Building(m, H, layers, out)
    ensures Represents(m, H, layers + [out])
  {
    hide TagsOK;
    hide HashesOK;
    assert (layers + [out])[|layers + [out]| - 1] == out;
  }

  /** A later layer does not change what the tags of earlier trees mean. */
  lemma DecodesPrefix(layers: seq<Layer>, more: seq<Layer>, k: nat, w: nat, t: Tree)
    requires k <= |layers|
    ensures Decodes(layers + more, k, w, t) <==> Decodes(layers, k, w, t)
  {
  }

  lemma OldTag(layers: seq<Layer>, out: Layer, out': Layer, k: nat, w: nat, t: Tree)
    requires k <= |layers|
    ensures Decodes(layers + [out'], k, w, t) <==> Decodes(layers + [out], k, w, t)
  {
    DecodesPrefix(layers, [out], k, w, t);
    DecodesPrefix(layers, [out'], k, w, t);
  }

  lemma NewTag(layers: seq<Layer>, out: Layer, p: Pair)
    requires layers != [] && |layers[|layers| - 1]| == NBUCKETS && InRange(layers[|layers| - 1], p)
    ensures Decodes(layers + [out], |layers|, Tag(p.b, p.s0, p.s1), PairTree(layers[|layers| - 1], p))
  {
    TagRoundTrip(p.b, p.s0, p.s1);
  }

  lemma NodeXor(H: IndexHash, a: Tree, b: Tree)
    ensures TreeXor(H, Node(a, b)) == XorHash(TreeXor(H, a), TreeXor(H, b))
  {
  }

  // ---------- one write ----------

  /** Only slot (c, slot) of the heap of round r differs, and only in the units up to its tag. */
  ghost predicate OneSlotWritten(m: Mem, m': Mem, r: nat, c: nat, slot: nat)
    requires m.Shape() && r < WK && c < NBUCKETS && slot < NSLOTS
  {
    && m'.Shape()
    && m'.Heap(r + 1) == m.Heap(r + 1)
    && (forall b, s :: 0 <= b < NBUCKETS && 0 <= s < NSLOTS && (b != c || s != slot) ==>
          m'.At(r, b, s) == m.At(r, b, s))
    && forall i :: TagUnit(r) < i < SlotUnits(r % 2) ==> m'.At(r, c, slot)[i] == m.At(r, c, slot)[i]
  }

  /** Such a write leaves every other tag readable that a later round still needs. */
  lemma TagKept(m: Mem, m': Mem, r: nat, c: nat, slot: nat, k: nat, b: nat, s: nat)
    requires m.Shape() && r < WK && c < NBUCKETS && slot < NSLOTS && OneSlotWritten(m, m', r, c, slot)
    requires k <= r && b < NBUCKETS && s < NSLOTS && (k < r || b != c || s != slot)
    ensures TagAt(m', k, b, s) == TagAt(m, k, b, s)
  {
    hide TagUnit;
    TagUnitFits(k);
    SameHeap(m, m', r, k);
    if k < r && k % 2 == r % 2 {
      TagUnitsFall(r, k);
    }
    if k % 2 == r % 2 {
      assert m'.At(r, b, s)[TagUnit(k)] == m.At(r, b, s)[TagUnit(k)];
    }
  }

  lemma SameHeap(m: Mem, m': Mem, r: nat, k: nat)
    ensures k % 2 == r % 2 ==> m.Heap(k) == m.Heap(r) && m'.Heap(k) == m'.Heap(r)
    ensures k % 2 != r % 2 ==> m.Heap(k) == m.Heap(r + 1) && m'.Heap(k) == m'.Heap(r + 1)
  {
  }

  lemma TagsKept(m: Mem, m': Mem, layers: seq<Layer>, out: Layer, r: nat, c: nat, slot: nat, p: Pair)
    requires m.Shape() && 0 < r == |layers| < WK && |out| == NBUCKETS && TagsOK(m, layers + [out])
    requires c < NBUCKETS && slot == |out[c]| < NSLOTS && |layers[r - 1]| == NBUCKETS && InRange(layers[r - 1], p)
    requires OneSlotWritten(m, m', r, c, slot) && TagAt(m', r, c, slot) == Tag(p.b, p.s0, p.s1)
    ensures TagsOK(m', layers + [Push(out, c, PairTree(layers[r - 1], p))])
  {
    hide Decodes;
    hide TagAt;
    hide Tag;
    hide PairTree;
    var out' := Push(out, c, PairTree(layers[r - 1], p));
    var was, now := layers + [out], layers + [out'];
    forall k | 0 <= k < |now|
      ensures |now[k]| == NBUCKETS
    {
      assert |was[k]| == NBUCKETS;
    }
    forall k, b, s | 0 <= k < |now| && 0 <= b < NBUCKETS && 0 <= s < |Live(now[k][b])|
      ensures Decodes(now, k, TagAt(m', k, b, s), Live(now[k][b])[s])
    {
      if k == r && b == c && s == slot {
        NewTag(layers, out', p);
      } else {
        TagKept(m, m', r, c, slot, k, b, s);
        OldTag(layers, out, out', k, TagAt(m, k, b, s), Live(now[k][b])[s]);
        assert s < |Live(was[k][b])| && Live(was[k][b])[s] == Live(now[k][b])[s];
      }
    }
  }

  lemma HashesKept(m: Mem, m': Mem, H: IndexHash, out: Layer, r: nat, c: nat, slot: nat, t: Tree)
    requires m.Shape() && r < WK && |out| == NBUCKETS && HashesOK(m, H, out, r)
    requires c < NBUCKETS && slot == |out[c]| < NSLOTS
    requires OneSlotWritten(m, m', r, c, slot) && Holds(m'.At(r, c, slot), r, TreeXor(H, t))
    ensures HashesOK(m', H, Push(out, c, t), r)
  {
    hide Holds;
    hide TreeXor;
    var out' := Push(out, c, t);
    forall b, s | 0 <= b < NBUCKETS && 0 <= s < |Live(out'[b])|
      ensures Holds(m'.At(r, b, s), r, TreeXor(H, Live(out'[b])[s]))
    {
      if b != c || s != slot {
        assert s < |Live(out[b])| && Live(out[b])[s] == Live(out'[b])[s];
      }
    }
  }

  lemma SourceKept(m: Mem, m': Mem, H: IndexHash, L: Layer, r: nat, c: nat, slot: nat)
    requires m.Shape() && 0 < r < WK && |L| == NBUCKETS && HashesOK(m, H, L, r - 1)
    requires c < NBUCKETS && slot < NSLOTS && OneSlotWritten(m, m', r, c, slot)
    ensures HashesOK(m', H, L, r - 1)
  {
    hide Holds;
    hide TreeXor;
    SameHeap(m, m', r, r - 1);
  }

  /** The write that round r makes for a pair of source slots. */
  ghost predicate PairWritten(m: Mem, m': Mem, r: nat, c: nat, slot: nat, p: Pair)
    requires m.Shape() && m'.Shape() && 0 < r < WK && c < NBUCKETS && slot < NSLOTS
    requires p.b < NBUCKETS && p.s0 < NSLOTS && p.s1 < NSLOTS
  {
    TagUnitFits(r - 1);
    && OneSlotWritten(m, m', r, c, slot)
    && Combined(r, m.At(r, c, slot), m'.At(r, c, slot), m.At(r - 1, p.b, p.s0), m.At(r - 1, p.b, p.s1),
                Tag(p.b, p.s0, p.s1))
  }

  /** Replacing one slot by a combined one is such a write. */
  lemma ImageWritten(m: Mem, m': Mem, r: nat, c: nat, slot: nat, after: Slot, s0: Slot, s1: Slot, p: Pair)
    requires m.Shape() && 0 < r < WK && c < NBUCKETS && slot < NSLOTS
    requires p.b < NBUCKETS && p.s0 < NSLOTS && p.s1 < NSLOTS
    requires s0 == m.At(r - 1, p.b, p.s0) && s1 == m.At(r - 1, p.b, p.s1)
    requires TagUnit(r - 1) < |s0| && TagUnit(r - 1) < |s1|
    requires Combined(r, m.At(r, c, slot), after, s0, s1, Tag(p.b, p.s0, p.s1))
    requires m'.Heap(r + 1) == m.Heap(r + 1) && m'.Heap(r) == m.Heap(r)[c := m.Heap(r)[c][slot := after]]
    ensures m'.Shape() && PairWritten(m, m', r, c, slot, p)
  {
    hide TagUnit;
    hide Tag;
    TagUnitFits(r);
    HeapReplaced(m, m', r, c, slot, after);
    hide Mem.Shape;
    assert m'.At(r, c, slot) == after;
  }

  lemma HeapReplaced(m: Mem, m': Mem, r: nat, c: nat, slot: nat, after: Slot)
    requires m.Shape() && c < NBUCKETS && slot < NSLOTS && |after| == SlotUnits(r % 2)
    requires m'.Heap(r + 1) == m.Heap(r + 1) && m'.Heap(r) == m.Heap(r)[c := m.Heap(r)[c][slot := after]]
    ensures m'.Shape() && m'.At(r, c, slot) == after
    ensures forall b, s :: 0 <= b < NBUCKETS && 0 <= s < NSLOTS && (b != c || s != slot) ==>
              m'.At(r, b, s) == m.At(r, b, s)
  {
  }

  /** After that write the memory represents one more tree of the layer being built. */
  lemma StoreKeeps(m: Mem, m': Mem, H: IndexHash, layers: seq<Layer>, out: Layer, r: nat, c: nat, slot: nat, p: Pair)
    requires Building(m, H, layers, out) && m.Shape() && m'.Shape() && 0 < r == |layers| < WK
    requires |out| == NBUCKETS && c < NBUCKETS && slot == |out[c]| < NSLOTS
    requires |layers[r - 1]| == NBUCKETS && InRange(layers[r - 1], p)
    requires PairWritten(m, m', r, c, slot, p)
    ensures Building(m', H, layers, Push(out, c, PairTree(layers[r - 1], p)))
  {
    hide Holds;
    hide TreeXor;
    hide TagsOK;
    hide Tag;
    hide OneSlotWritten;
    hide TagUnit;
    var L := layers[r - 1];
    var a, d := Live(L[p.b])[p.s0], Live(L[p.b])[p.s1];
    TagUnitFits(r);
    TagUnitFits(r - 1);
    CombinedHolds(r, m.At(r, c, slot), m'.At(r, c, slot), m.At(r - 1, p.b, p.s0), m.At(r - 1, p.b, p.s1),
                  Tag(p.b, p.s0, p.s1), TreeXor(H, a), TreeXor(H, d));
    NodeXor(H, a, d);
    TagsKept(m, m', layers, out, r, c, slot, p);
    HashesKept(m, m', H, out, r, c, slot, Node(a, d));
    SourceKept(m, m', H, L, r, c, slot);
    OlderTags(m', layers, Push(out, c, PairTree(L, p)));
  }

  lemma OlderTags(m: Mem, layers: seq<Layer>, out: Layer)
    requires m.Shape() && |layers| < WK && TagsOK(m, layers + [out])
    ensures TagsOK(m, layers)
  {
    hide Decodes;
    hide TagAt;
    var now := layers + [out];
    assert forall k :: 0 <= k < |layers| ==> now[k] == layers[k];
    forall k, b, s | 0 <= k < |layers| && 0 <= b < NBUCKETS && 0 <= s < |Live(layers[k][b])|
      ensures Decodes(layers, k, TagAt(m, k, b, s), Live(layers[k][b])[s])
    {
      assert Decodes(now, k, TagAt(m, k, b, s), Live(now[k][b])[s]);
      DecodesPrefix(layers, [out], k, TagAt(m, k, b, s), Live(layers[k][b])[s]);
    }
  }

  /** A tree that comes too late for its bucket changes nothing that is live. */
  lemma OverflowKeeps(m: Mem, H: IndexHash, layers: seq<Layer>, out: Layer, c: nat, t: Tree)
    requires Building(m, H, layers, out) && c < NBUCKETS && |out[c]| >= NSLOTS
    ensures Building(m, H, layers, Push(out, c, t))
  {
    hide Decodes;
    hide TagAt;
    hide Holds;
    hide TreeXor;
    var out' := Push(out, c, t);
    assert forall b :: 0 <= b < NBUCKETS ==> Live(out'[b]) == Live(out[b]);
    var was, now := layers + [out], layers + [out'];
    forall k, b, s | 0 <= k < |now| && 0 <= b < NBUCKETS && 0 <= s < |Live(now[k][b])|
      ensures Decodes(now, k, TagAt(m, k, b, s), Live(now[k][b])[s])
    {
      assert Live(now[k][b]) == Live(was[k][b]);
      OldTag(layers, out, out', k, TagAt(m, k, b, s), Live(now[k][b])[s]);
    }
  }

  /** What round r reads from two live source slots. */
  lemma ReadPair(m: Mem, H: IndexHash, layers: seq<Layer>, out: Layer, r: nat, p: Pair)
    requires Building(m, H, layers, out) && r == |layers| && InRange(layers[r - 1], p)
    ensures p.b < NBUCKETS && p.s0 < NSLOTS && p.s1 < NSLOTS && m.Shape() && 0 < r < WK
    ensures TagUnit(r - 1) < |m.At(r - 1, p.b, p.s0)| && TagUnit(r - 1) < |m.At(r - 1, p.b, p.s1)|
    ensures EqualLast(r, m.At(r - 1, p.b, p.s0), m.At(r - 1, p.b, p.s1)) <==> Rejected(H, PairTree(layers[r - 1], p))
    ensures XorBucket(r, m.At(r - 1, p.b, p.s0), m.At(r - 1, p.b, p.s1)) ==
              BucketOf(TreeXor(H, PairTree(layers[r - 1], p)), r)
  {
    hide Holds;
    hide TagUnit;
    hide EqualLast;
    hide XorBucket;
    hide BucketOf;
    hide Rejected;
    hide Field;
    hide TagsOK;
    TagUnitFits(r - 1);
    var L := layers[r - 1];
    var s0, s1 := m.At(r - 1, p.b, p.s0), m.At(r - 1, p.b, p.s1);
    var x, y := TreeXor(H, Live(L[p.b])[p.s0]), TreeXor(H, Live(L[p.b])[p.s1]);
    assert Holds(s0, r - 1, x) && Holds(s1, r - 1, y);
    EqualLastReads(r, s0, s1, x, y);
    XorFieldZero(x, y, 184, 32);
    RejectedExact(H, PairTree(L, p));
    XorBucketReads(r, s0, s1, x, y);
  }

  /** The rest bits round r reads from a live source slot. */
  lemma ReadRest(m: Mem, H: IndexHash, layers: seq<Layer>, r: nat, b: nat, s: nat)
    requires Represents(m, H, layers) && r == |layers| && b < |layers[r - 1]| && s < |Live(layers[r - 1][b])|
    ensures b < NBUCKETS && s < NSLOTS && m.Shape() && 0 < r <= WK && TagUnit(r - 1) < |m.At(r - 1, b, s)|
    ensures XHash(r, m.At(r - 1, b, s)) == RestOf(TreeXor(H, Live(layers[r - 1][b])[s]), r - 1)
  {
    hide Holds;
    hide TagUnit;
    hide XHash;
    hide RestOf;
    hide Field;
    hide TagsOK;
    hide TreeXor;
    TagUnitFits(r - 1);
    assert Holds(m.At(r - 1, b, s), r - 1, TreeXor(H, Live(layers[r - 1][b])[s]));
    XHashReads(r, m.At(r - 1, b, s), TreeXor(H, Live(layers[r - 1][b])[s]));
  }

  // ---------- round 0 ----------

  /** The slot ends in the last 26 bytes of x, and the unit behind them holds idx. */
  predicate LeafWritten(before: Slot, after: Slot, x: Hash, idx: nat)
  {
    && |after| == |before| == SlotUnits(0)
    && (forall k :: 1 <= k < HASHLEN ==> SlotByte(after, k + 1) == x[k])
    && Word(after[TagUnit(0)]) == idx
  }

  lemma LeafHolds(before: Slot, after: Slot, x: Hash, idx: nat)
    requires LeafWritten(before, after, x, idx)
    ensures Holds(after, 0, x)
  {
    forall k | 2 <= k < 28
      ensures SlotByte(after, k) == x[k - 1]
    {
      assert SlotByte(after, (k - 1) + 1) == x[k - 1];
    }
  }

  lemma LeafKeeps(m: Mem, m': Mem, H: IndexHash, out: Layer, c: nat, slot: nat, idx: nat)
    requires Represents(m, H, [out]) && m.Shape() && m'.Shape() && |out| == NBUCKETS
    requires c < NBUCKETS && slot == |out[c]| < NSLOTS
    requires OneSlotWritten(m, m', 0, c, slot) && LeafWritten(m.At(0, c, slot), m'.At(0, c, slot), H(idx), idx)
    ensures Represents(m', H, [Push(out, c, Leaf(idx))])
  {
    hide Holds;
    hide TagUnit;
    LeafHolds(m.At(0, c, slot), m'.At(0, c, slot), H(idx), idx);
    HashesKept(m, m', H, out, 0, c, slot, Leaf(idx));
    var out' := Push(out, c, Leaf(idx));
    forall k, b, s | 0 <= k < |[out']| && 0 <= b < NBUCKETS && 0 <= s < |Live([out'][k][b])|
      ensures Decodes([out'], k, TagAt(m', k, b, s), Live([out'][k][b])[s])
    {
      if b != c || s != slot {
        TagKept(m, m', 0, c, slot, 0, b, s);
        assert s < |Live([out][0][b])| && Live([out][0][b])[s] == Live(out'[b])[s];
        assert Decodes([out], 0, TagAt(m, 0, b, s), Live([out][0][b])[s]);
      }
    }
  }

  lemma LateLeafKeeps(m: Mem, H: IndexHash, out: Layer, c: nat, t: Tree)
    requires Represents(m, H, [out]) && |out| == NBUCKETS && c < NBUCKETS && |out[c]| >= NSLOTS
    ensures Represents(m, H, [Push(out, c, t)])
  {
    hide Holds;
    hide TreeXor;
    hide TagAt;
    var out' := Push(out, c, t);
    assert forall b :: 0 <= b < NBUCKETS ==> Live(out'[b]) == Live(out[b]);
    forall k, b, s | 0 <= k < |[out']| && 0 <= b < NBUCKETS && 0 <= s < |Live([out'][k][b])|
      ensures Decodes([out'], k, TagAt(m, k, b, s), Live([out'][k][b])[s])
    {
      assert Decodes([out], 0, TagAt(m, 0, b, s), Live([out][0][b])[s]);
    }
  }

  lemma NoLeaves(m: Mem, H: IndexHash)
    requires m.Shape()
    ensures Represents(m, H, [EmptyLayer()])
  {
  }

  // ---------- the tags as a graph ----------

  /** The two children a tag names, with their own tags. */
  lemma Children(m: Mem, layers: seq<Layer>, r: nat, w: nat, t: Tree)
    requires m.Shape() && |layers| <= WK && TagsOK(m, layers) && 0 < r <= |layers| && Decodes(layers, r, w, t)
    ensures BucketId(w) < NBUCKETS && SlotId0(w) < NSLOTS && SlotId1(w) < NSLOTS && t.Node?
    ensures Decodes(layers, r - 1, TagAt(m, r - 1, BucketId(w), SlotId0(w)), t.left)
    ensures Decodes(layers, r - 1, TagAt(m, r - 1, BucketId(w), SlotId1(w)), t.right)
  {
    hide TagAt;
  }

  /** Trees read back through their tags are perfect. */
  lemma {:induction false} DecodedPerfect(m: Mem, layers: seq<Layer>, r: nat, w: nat, t: Tree)
    requires m.Shape() && |layers| <= WK && TagsOK(m, layers) && r <= |layers| && Decodes(layers, r, w, t)
    ensures Perfect(t, r)
    decreases r
  {
    hide TagsOK;
    hide TagAt;
    hide InRange;
    hide PairTree;
    if r == 0 {
    } else {
      Children(m, layers, r, w, t);
      DecodedPerfect(m, layers, r - 1, TagAt(m, r - 1, BucketId(w), SlotId0(w)), t.left);
      DecodedPerfect(m, layers, r - 1, TagAt(m, r - 1, BucketId(w), SlotId1(w)), t.right);
    }
  }

  /** Two tags of one layer that prob_disjoint refuses belong to trees with a common leaf. */
  lemma SharedChild(layers: seq<Layer>, r: nat, v: nat, w: nat, a: Tree, b: Tree)
    requires 0 < r <= |layers| && Decodes(layers, r, v, a) && Decodes(layers, r, w, b)
    requires !ProbDisjoint(v, w)
    ensures !Distinct(Leaves(a) + Leaves(b))
  {
    hide ProbDisjoint;
    hide Leaves;
    ProbDisjointExact(v, w);
    SharedHalf(a, b);
  }

  lemma SharedHalf(a: Tree, b: Tree)
    requires a.Node? && b.Node? && (a.left == b.left || a.right == b.right)
    ensures !Distinct(Leaves(a) + Leaves(b))
  {
    hide Leaves;
    hide Distinct;
    NodeLeaves(a);
    NodeLeaves(b);
    var none: seq<nat> := [];
    if a.left == b.left {
      assert Leaves(a) == none + Leaves(a.left) + Leaves(a.right);
      assert Leaves(b) == none + Leaves(a.left) + Leaves(b.right);
      CommonPart(none, Leaves(a.left), Leaves(a.right), none, Leaves(b.right));
    } else {
      assert Leaves(a) == Leaves(a.left) + Leaves(a.right) + none;
      assert Leaves(b) == Leaves(b.left) + Leaves(a.right) + none;
      CommonPart(Leaves(a.left), Leaves(a.right), none, Leaves(b.left), none);
    }
  }

  lemma NodeLeaves(t: Tree)
    requires t.Node?
    ensures Leaves(t) == Leaves(t.left) + Leaves(t.right) && |Leaves(t.left)| > 0 && |Leaves(t.right)| > 0
  {
  }

  lemma CommonPart(u: seq<nat>, c: seq<nat>, v: seq<nat>, x: seq<nat>, y: seq<nat>)
    requires |c| > 0
    ensures !Distinct(u + c + v + (x + c + y))
  {
    var s := u + c + v + (x + c + y);
    assert s[|u|] == c[0] && s[|u + c + v| + |x|] == c[0];
  }

  /** What the final round reads from two live slots, and what the tag it makes means. */
  lemma ReadLastPair(m: Mem, H: IndexHash, layers: seq<Layer>, p: Pair)
    requires Represents(m, H, layers) && |layers| == WK && InRange(layers[WK - 1], p)
    ensures p.b < NBUCKETS && p.s0 < NSLOTS && p.s1 < NSLOTS && m.Shape() && TagsOK(m, layers)
    ensures TagUnit(8) < |m.At(WK - 1, p.b, p.s0)| && TagUnit(8) < |m.At(WK - 1, p.b, p.s1)|
    ensures LastDigitEqual(m.At(WK - 1, p.b, p.s0), m.At(WK - 1, p.b, p.s1)) <==>
            Field(TreeXor(H, PairTree(layers[WK - 1], p)), DIGITBITS * WK, DIGITBITS) == 0
    ensures Decodes(layers, WK, Tag(p.b, p.s0, p.s1), PairTree(layers[WK - 1], p))
  {
    hide Holds;
    hide LastDigitEqual;
    hide TagsOK;
    hide Field;
    var L := layers[WK - 1];
    var s0, s1 := m.At(WK - 1, p.b, p.s0), m.At(WK - 1, p.b, p.s1);
    var x, y := TreeXor(H, Live(L[p.b])[p.s0]), TreeXor(H, Live(L[p.b])[p.s1]);
    assert Holds(s0, 8, x) && Holds(s1, 8, y);
    LastDigitReads(s0, s1, x, y);
    NodeXor(H, Live(L[p.b])[p.s0], Live(L[p.b])[p.s1]);
    TagRoundTrip(p.b, p.s0, p.s1);
  }
}
