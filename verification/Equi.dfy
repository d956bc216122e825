/**
  The solver object: its heaps are rewritten in place, round by round.

  Each digit method is proved to take a memory that represents the layers built so
  far to one that represents the next layer as well.
*/
module Equihash {
  import opened Arith
  import opened HashBits
  import opened Wagner
  import opened Layers
  import opened Verifier
  import opened TreeTag
  import opened Slots
  import opened Collisions
  import opened Memory
  import opened Ordering

  /** The contents of a heap as a value. */
  ghost function Image(h: array2<Slot>): (m: HeapImage)
    reads h
    ensures |m| == h.Length0 && forall b :: 0 <= b < h.Length0 ==> |m[b]| == h.Length1
    ensures forall b, s :: 0 <= b < h.Length0 && 0 <= s < h.Length1 ==> m[b][s] == h[b, s]
  {
    seq(h.Length0, b requires 0 <= b < h.Length0 reads h =>
      seq(h.Length1, s requires 0 <= s < h.Length1 reads h => h[b, s]))
  }

  lemma OneEntryChanged(h: array2<Slot>, was: HeapImage, c: nat, slot: nat)
    requires c < h.Length0 == |was| && slot < h.Length1 && forall b :: 0 <= b < |was| ==> |was[b]| == h.Length1
    requires forall b, s :: 0 <= b < h.Length0 && 0 <= s < h.Length1 && (b != c || s != slot) ==> h[b, s] == was[b][s]
    ensures Image(h) == was[c := was[c][slot := h[c, slot]]]
  {
    var now := was[c := was[c][slot := h[c, slot]]];
    forall b | 0 <= b < |was|
      ensures Image(h)[b] == now[b]
    {
      assert forall s :: 0 <= s < h.Length1 ==> Image(h)[b][s] == now[b][s];
    }
  }

  /** Writes the xor of two slots and the tag behind it into one slot of a heap. */
  method StoreXor(r: nat, dst: array2<Slot>, c: nat, slot: nat, slot0: Slot, slot1: Slot, tag: nat)
    requires 1 <= r < WK && c < dst.Length0 && slot < dst.Length1 && tag < U32
    requires TagUnit(r) < |dst[c, slot]| && TagUnit(r - 1) < |slot0| && TagUnit(r - 1) < |slot1|
    modifies dst
    ensures Combined(r, old(dst[c, slot]), dst[c, slot], slot0, slot1, tag)
    ensures forall b, s :: 0 <= b < dst.Length0 && 0 <= s < dst.Length1 && (b != c || s != slot) ==>
              dst[b, s] == old(dst[b, s])
  {
    hide HashSize;
    SizesFall(r);
    var xs := 0;
    var i := DUnits(r);
    ghost var before := dst[c, slot];
    while i < TagUnit(r - 1)
      invariant DUnits(r) <= i <= TagUnit(r - 1) && xs == i - DUnits(r)
      invariant |dst[c, slot]| == |before|
      invariant forall j :: 0 <= j < xs ==> dst[c, slot][j] == XorUnit(slot0[DUnits(r) + j], slot1[DUnits(r) + j])
      invariant forall j :: xs <= j < |before| ==> dst[c, slot][j] == before[j]
      invariant forall b, s :: 0 <= b < dst.Length0 && 0 <= s < dst.Length1 && (b != c || s != slot) ==>
                  dst[b, s] == old(dst[b, s])
    {
      dst[c, slot] := dst[c, slot][xs := XorUnit(slot0[i], slot1[i])];
      xs := xs + 1;
      i := i + 1;
    }
    dst[c, slot] := dst[c, slot][xs := WordUnit(tag)];
  }

  lemma AbsorbSnoc(H: IndexHash, r: nat, L: Layer, ps: seq<Pair>, p: Pair)
    requires 1 <= r <= WK && AllInRange(L, ps) && InRange(L, p)
    ensures AllInRange(L, ps + [p])
    ensures Absorb(H, r, L, ps + [p]) == Step(H, r, Absorb(H, r, L, ps), PairTree(L, p))
  {
    assert (ps + [p])[..|ps|] == ps;
  }

  lemma PairsAtNone(done: seq<Pair>, b: nat, s1: nat, partners: seq<nat>)
    ensures done + PairsAt(b, s1, partners[..0]) == done
  {
  }

  lemma PairsAtSnoc(done: seq<Pair>, b: nat, s1: nat, partners: seq<nat>, k: nat)
    requires k < |partners|
    ensures done + PairsAt(b, s1, partners[..k]) + [Pair(b, partners[k], s1)] ==
              done + PairsAt(b, s1, partners[..k + 1])
  {
    assert partners[..k + 1] == partners[..k] + [partners[k]];
    assert PairsAt(b, s1, partners[..k + 1]) == PairsAt(b, s1, partners[..k]) + [Pair(b, partners[k], s1)];
  }

  lemma PartnersInRange(L: Layer, b: nat, rests: seq<nat>, s1: nat)
    requires b < |L| && |rests| == |Live(L[b])| && s1 < |rests|
    ensures var ps := Partners(rests, rests[s1], s1);
            forall i :: 0 <= i < |ps| ==> InRange(L, Pair(b, ps[i], s1))
  {
    var ps := Partners(rests, rests[s1], s1);
    PartnersExact(rests, rests[s1], s1);
    forall i | 0 <= i < |ps|
      ensures InRange(L, Pair(b, ps[i], s1))
    {
      assert ps[i] in ps;
    }
  }

  class Equi {
    const blake: Blake
    const heap0: array2<Slot>
    const heap1: array2<Slot>
    const nslots0: array<nat>
    const nslots1: array<nat>
    const sols: array<seq<nat>>
    var nsols: nat
    var bfull: nat
    var hfull: nat

    ghost function H(): IndexHash
    {
      HashOf(blake)
    }

    function Heap(r: nat): array2<Slot>
    {
      if r % 2 == 0 then heap0 else heap1
    }

    function Counts(r: nat): array<nat>
    {
      if r % 2 == 0 then nslots0 else nslots1
    }

    ghost function M(): Mem
      reads heap0, heap1
    {
      Mem(Image(heap0), Image(heap1))
    }

    ghost predicate Allocated()
    {
      && heap0 != heap1 && nslots0 != nslots1
      && heap0.Length0 == heap1.Length0 == NBUCKETS && heap0.Length1 == heap1.Length1 == NSLOTS
      && nslots0.Length == nslots1.Length == NBUCKETS && sols.Length == MAXSOLS
    }

    constructor (blake: Blake)
      ensures Allocated() && M().Shape() && this.blake == blake
      ensures fresh(heap0) && fresh(heap1) && fresh(nslots0) && fresh(nslots1) && fresh(sols)
      ensures nsols == 0 && forall b :: 0 <= b < NBUCKETS ==> nslots0[b] == nslots1[b] == 0
    {
      var zero := HtUnit(0, 0, 0, 0);
      this.blake := blake;
      heap0 := new Slot[NBUCKETS, NSLOTS]((_, _) => seq(8, _ => zero));
      heap1 := new Slot[NBUCKETS, NSLOTS]((_, _) => seq(7, _ => zero));
      nslots0 := new nat[NBUCKETS](_ => 0);
      nslots1 := new nat[NBUCKETS](_ => 0);
      sols := new seq<nat>[MAXSOLS](_ => []);
      nsols, bfull, hfull := 0, 0, 0;
    }

    /** The counters of the heap that round r writes count the arrivals. */
    ghost predicate Counted(L: Layer, r: nat)
      requires Allocated() && |L| == NBUCKETS
      reads nslots0, nslots1
    {
      forall b :: 0 <= b < NBUCKETS ==> Counts(r)[b] == |L[b]|
    }

    /** The memory after the rounds that built the given layers. */
    ghost predicate AfterRound(layers: seq<Layer>)
      reads heap0, heap1, nslots0, nslots1
    {
      && Allocated() && Represents(M(), H(), layers)
      && Counted(layers[|layers| - 1], |layers| - 1)
      && forall b :: 0 <= b < NBUCKETS ==> Counts(|layers|)[b] == 0
    }

    /** getslot0 and getslot1: takes the next number of the bucket, also beyond NSLOTS. */
    method GetSlot(r: nat, bucket: nat) returns (slot: nat)
      requires nslots0 != nslots1 && bucket < Counts(r).Length
      modifies Counts(r)
      ensures slot == old(Counts(r)[bucket])
      ensures forall b :: 0 <= b < Counts(r).Length ==>
                Counts(r)[b] == old(Counts(r)[b]) + (if b == bucket then 1 else 0)
    {
      var counts := Counts(r);
      slot := counts[bucket];
      counts[bucket] := slot + 1;
    }

    /** getnslots0 and getnslots1: reads the size of a bucket, capped, and clears it. */
    method GetNSlots(r: nat, bucket: nat) returns (n: nat)
      requires nslots0 != nslots1 && bucket < Counts(r).Length
      modifies Counts(r)
      ensures n == if old(Counts(r)[bucket]) < NSLOTS then old(Counts(r)[bucket]) else NSLOTS
      ensures forall b :: 0 <= b < Counts(r).Length ==>
                Counts(r)[b] == if b == bucket then 0 else old(Counts(r)[b])
    {
      var counts := Counts(r);
      n := if counts[bucket] < NSLOTS then counts[bucket] else NSLOTS;
      counts[bucket] := 0;
    }

    /** What StoreXor does to one heap, seen on the memory as a whole. */
    method WritePair(r: nat, c: nat, slot: nat, slot0: Slot, slot1: Slot, p: Pair)
      requires Allocated() && M().Shape() && 0 < r < WK && c < NBUCKETS && slot < NSLOTS
      requires p.b < NBUCKETS && p.s0 < NSLOTS && p.s1 < NSLOTS
      requires slot0 == Heap(r - 1)[p.b, p.s0] && slot1 == Heap(r - 1)[p.b, p.s1]
      modifies Heap(r)
      ensures M().Shape() && PairWritten(old(M()), M(), r, c, slot, p)
    {
      hide TagUnit;
      hide Tag;
      hide Image;
      TagUnitFits(r);
      TagUnitFits(r - 1);
      hide Combined;
      ParityFlips(r);
      ghost var m := M();
      ghost var was := Heap(r)[c, slot];
      assert slot0 == m.At(r - 1, p.b, p.s0) && slot1 == m.At(r - 1, p.b, p.s1) && was == m.At(r, c, slot);
      StoreXor(r, Heap(r), c, slot, slot0, slot1, Tag(p.b, p.s0, p.s1));
      assert Image(Heap(r + 1)) == m.Heap(r + 1);
      OneEntryChanged(Heap(r), m.Heap(r), c, slot);
      ImageWritten(m, M(), r, c, slot, Heap(r)[c, slot], slot0, slot1, p);
    }

    /** Stores the tree of a pair in the next free slot of its bucket. */
    method StoreTree(r: nat, c: nat, slot: nat, slot0: Slot, slot1: Slot, p: Pair, ghost layers: seq<Layer>,
                     ghost out: Layer)
      requires Allocated() && Building(M(), H(), layers, out) && 0 < r == |layers| < WK
      requires c < NBUCKETS && slot == |out[c]| < NSLOTS && InRange(layers[r - 1], p)
      requires slot0 == Heap(r - 1)[p.b, p.s0] && slot1 == Heap(r - 1)[p.b, p.s1]
      modifies Heap(r)
      ensures Building(M(), H(), layers, Push(out, c, PairTree(layers[r - 1], p)))
    {
      hide PairWritten;
      hide PairTree;
      hide Building;
      BuildingShape(M(), H(), layers, out);
      ghost var m := M();
      WritePair(r, c, slot, slot0, slot1, p);
      StoreKeeps(m, M(), H(), layers, out, r, c, slot, p);
    }

    /** The counts and heaps in the middle of a round. */
    ghost predicate InRound(layers: seq<Layer>, acc: Round)
      reads heap0, heap1, nslots0, nslots1
    {
      && Allocated() && 0 < |layers| < WK && |acc.layer| == NBUCKETS && |layers[|layers| - 1]| == NBUCKETS
      && Building(M(), H(), layers, acc.layer) && Counted(acc.layer, |layers|)
    }

    /** The body of the innermost loop of digit1 to digit8, for one colliding pair. */
    method HandlePair(r: nat, bucketid: nat, s0: nat, s1: nat, ghost layers: seq<Layer>, ghost acc: Round)
      requires InRound(layers, acc) && r == |layers| && InRange(layers[r - 1], Pair(bucketid, s0, s1))
      modifies Heap(r), Counts(r), this`bfull, this`hfull
      ensures var after := Step(H(), r, acc, PairTree(layers[r - 1], Pair(bucketid, s0, s1)));
              && InRound(layers, after)
              && bfull == old(bfull) + after.bfull - acc.bfull
              && hfull == old(hfull) + after.hfull - acc.hfull
    {
      hide TagUnit;
      hide Building;
      hide BucketOf;
      hide XorBucket;
      hide EqualLast;
      hide PairTree;
      hide Rejected;
      hide TreeXor;
      hide Image;
      ghost var p := Pair(bucketid, s0, s1);
      ghost var t := PairTree(layers[r - 1], p);
      ReadPair(M(), H(), layers, acc.layer, r, p);
      var slot0, slot1 := Heap(r - 1)[bucketid, s0], Heap(r - 1)[bucketid, s1];
      assert slot0 == M().At(r - 1, bucketid, s0) && slot1 == M().At(r - 1, bucketid, s1);
      if EqualLast(r, slot0, slot1) {
        hfull := hfull + 1;
        return;
      }
      var xorbucketid := XorBucket(r, slot0, slot1);
      var xorslot := GetSlot(r, xorbucketid);
      if xorslot >= NSLOTS {
        bfull := bfull + 1;
        OverflowKeeps(M(), H(), layers, acc.layer, xorbucketid, t);
        return;
      }
      StoreTree(r, xorbucketid, xorslot, slot0, slot1, Pair(bucketid, s0, s1), layers, acc.layer);
    }

    /** The link arrays are not the slot counters. */
    ghost predicate Separate(cd: CollisionData)
    {
      cd.xhashslots !in {nslots0, nslots1} && cd.nextxhashslot !in {nslots0, nslots1}
    }

    /** The round has handled the pairs ps of the layer below; the counters have grown by its discards. */
    ghost predicate Reached(layers: seq<Layer>, r: nat, ps: seq<Pair>, b0: int, h0: int)
      reads this, heap0, heap1, nslots0, nslots1
    {
      && 0 < r == |layers| < WK && AllInRange(layers[r - 1], ps)
      && var acc := Absorb(H(), r, layers[r - 1], ps);
      InRound(layers, acc) && bfull == b0 + acc.bfull && hfull == h0 + acc.hfull
    }

    lemma RoundShape(layers: seq<Layer>, r: nat, ps: seq<Pair>, b0: int, h0: int)
      requires Reached(layers, r, ps, b0, h0)
      ensures 0 < r == |layers| < WK && |layers[r - 1]| == NBUCKETS
      ensures Heap(r) != Heap(r - 1) && Counts(r) != Counts(r - 1)
      ensures AllInRange(layers[r - 1], ps) && InRound(layers, Absorb(H(), r, layers[r - 1], ps))
      ensures Allocated() && Represents(M(), H(), layers)
      ensures Heap(r - 1).Length0 == NBUCKETS && Heap(r - 1).Length1 == NSLOTS
    {
      hide TagsOK;
      hide HashesOK;
      hide Absorb;
      hide AllInRange;
      hide Counted;
      hide Image;
      ParityFlips(r - 1);
    }

    /** Visits the next slot that collides with s1 and handles the pair. */
    method VisitCollision(r: nat, bucketid: nat, s1: nat, cd: CollisionData, ghost layers: seq<Layer>,
                          ghost ps: seq<Pair>, ghost b0: int, ghost h0: int)
      requires Reached(layers, r, ps, b0, h0)
      requires cd.Valid() && Separate(cd) && cd.Walking() && cd.pending != []
      requires InRange(layers[r - 1], Pair(bucketid, cd.pending[0], s1))
      modifies Heap(r), Counts(r), this`bfull, this`hfull, cd`nextslot, cd`s0, cd`pending
      ensures cd.Valid() && cd.Walking() && cd.pending == old(cd.pending)[1..]
      ensures Reached(layers, r, ps + [Pair(bucketid, old(cd.pending)[0], s1)], b0, h0)
    {
      hide Absorb;
      hide Step;
      hide Partners;
      hide Building;
      hide Counted;
      hide PairTree;
      var s0 := cd.Slot();
      AbsorbSnoc(H(), r, layers[r - 1], ps, Pair(bucketid, s0, s1));
      HandlePair(r, bucketid, s0, s1, layers, Absorb(H(), r, layers[r - 1], ps));
    }

    /** addslot for slot s1 of a live bucket: its earlier collisions become pending. */
    method LinkSlot(r: nat, bucketid: nat, s1: nat, cd: CollisionData, ghost layers: seq<Layer>, ghost rests: seq<nat>)
      requires Allocated() && Represents(M(), H(), layers) && r == |layers| && cd.Valid()
      requires bucketid < |layers[r - 1]| && s1 < |Live(layers[r - 1][bucketid])|
      requires rests == RestList(H(), r - 1, Live(layers[r - 1][bucketid])) && cd.rests == rests[..s1]
      modifies cd, cd.xhashslots, cd.nextxhashslot
      ensures cd.Valid() && cd.Walking()
      ensures cd.rests == rests[..s1 + 1] && cd.pending == Partners(rests, rests[s1], s1)
    {
      hide XHash;
      hide Partners;
      hide Represents;
      hide TreeXor;
      hide RestOf;
      hide Image;
      hide Prev;
      hide TagUnit;
      hide HashOf;
      ReadRest(M(), H(), layers, r, bucketid, s1);
      var slot1 := Heap(r - 1)[bucketid, s1];
      assert slot1 == M().At(r - 1, bucketid, s1);
      PartnersPrefix(rests, rests[s1], s1);
      cd.AddSlot(s1, XHash(r, slot1));
      assert rests[..s1 + 1] == rests[..s1] + [rests[s1]];
    }

    /** The loop body of digit1 to digit8 for slot s1: link it in and handle its collisions. */
    method ScanSlot(r: nat, bucketid: nat, s1: nat, cd: CollisionData, ghost layers: seq<Layer>, ghost rests: seq<nat>,
                    ghost ps: seq<Pair>, ghost b0: int, ghost h0: int)
      requires Reached(layers, r, ps, b0, h0) && cd.Valid() && Separate(cd)
      requires bucketid < |layers[r - 1]| && s1 < |Live(layers[r - 1][bucketid])|
      requires rests == RestList(H(), r - 1, Live(layers[r - 1][bucketid])) && cd.rests == rests[..s1]
      modifies Heap(r), Counts(r), this`bfull, this`hfull, cd, cd.xhashslots, cd.nextxhashslot
      ensures cd.Valid() && cd.rests == rests[..s1 + 1]
      ensures Reached(layers, r, ps + PairsAt(bucketid, s1, Partners(rests, rests[s1], s1)), b0, h0)
    {
      hide Reached;
      hide Represents;
      hide Allocated;
      hide Partners;
      hide PairsAt;
      hide RestList;
      hide Live;
      hide InRange;
      hide Heap;
      hide Counts;
      hide InRound;
      hide Absorb;
      hide AllInRange;
      hide Image;
      hide CollisionData.Valid;
      hide CollisionData.Walking;
      RoundShape(layers, r, ps, b0, h0);
      PartnersInRange(layers[r - 1], bucketid, rests, s1);
      LinkSlot(r, bucketid, s1, cd, layers, rests);
      ghost var partners := cd.pending;
      ghost var k, now := 0, ps;
      PairsAtNone(ps, bucketid, s1, partners);
      while cd.NextCollision()
        invariant 0 <= k <= |partners| && cd.pending == partners[k..]
        invariant cd.Valid() && cd.Walking() && cd.rests == rests[..s1 + 1]
        invariant now == ps + PairsAt(bucketid, s1, partners[..k]) && Reached(layers, r, now, b0, h0)
        decreases |partners| - k
      {
        VisitCollision(r, bucketid, s1, cd, layers, now, b0, h0);
        PairsAtSnoc(ps, bucketid, s1, partners, k);
        now := now + [Pair(bucketid, partners[k], s1)];
        k := k + 1;
      }
      assert partners[..k] == partners;
    }

    /** The counters of heap q of the buckets below n are cleared, the others still count the arrivals. */
    ghost predicate Drained(L: Layer, q: nat, n: nat)
      reads Counts(q)
    {
      && Counts(q).Length == |L| == NBUCKETS
      && (forall b :: 0 <= b < n && b < NBUCKETS ==> Counts(q)[b] == 0)
      && (forall b :: n <= b < NBUCKETS ==> Counts(q)[b] == |L[b]|)
    }

    /** Reads and clears the counter of the next source bucket. */
    method TakeBucket(r: nat, bucketid: nat, ghost layers: seq<Layer>, ghost ps: seq<Pair>, ghost b0: int,
                      ghost h0: int) returns (bsize: nat)
      requires Reached(layers, r, ps, b0, h0) && bucketid < NBUCKETS && Drained(layers[r - 1], r - 1, bucketid)
      modifies Counts(r - 1)
      ensures Reached(layers, r, ps, b0, h0) && bsize == |Live(layers[r - 1][bucketid])|
      ensures Drained(layers[r - 1], r - 1, bucketid + 1)
    {
      hide Absorb;
      hide Building;
      hide Image;
      bsize := GetNSlots(r - 1, bucketid);
    }

    /** The middle loop: all slots of one bucket in ascending order. */
    method ScanBucket(r: nat, bucketid: nat, bsize: nat, cd: CollisionData, ghost layers: seq<Layer>, ghost b0: int,
                      ghost h0: int)
      requires 0 < r == |layers| < WK && bucketid < |layers[r - 1]| && bsize == |Live(layers[r - 1][bucketid])|
      requires Reached(layers, r, PairsBelow(H(), r - 1, layers[r - 1], bucketid), b0, h0)
      requires cd.Valid() && Separate(cd) && cd.rests == []
      modifies Heap(r), Counts(r), this`bfull, this`hfull, cd, cd.xhashslots, cd.nextxhashslot
      ensures cd.Valid() && Reached(layers, r, PairsBelow(H(), r - 1, layers[r - 1], bucketid + 1), b0, h0)
    {
      hide *;
      ghost var L := layers[r - 1];
      ghost var rests := RestList(H(), r - 1, Live(L[bucketid]));
      ghost var before := PairsBelow(H(), r - 1, L, bucketid);
      PairsBelowStep(H(), r - 1, L, bucketid + 1);
      BucketStart(before, bucketid, rests);
      var s1 := 0;
      while s1 < bsize
        invariant 0 <= s1 <= bsize && cd.Valid() && cd.rests == rests[..s1]
        invariant Reached(layers, r, before + PairsInBucket(bucketid, rests, s1), b0, h0)
      {
        BucketNext(before, bucketid, rests, s1);
        ScanSlot(r, bucketid, s1, cd, layers, rests, before + PairsInBucket(bucketid, rests, s1), b0, h0);
        s1 := s1 + 1;
      }
    }

    /** The outer loop body of digit1 to digit8: clear the links, take the bucket, scan it. */
    method RunBucket(r: nat, bucketid: nat, cd: CollisionData, ghost layers: seq<Layer>, ghost b0: int, ghost h0: int)
      requires 0 < r == |layers| < WK && bucketid < NBUCKETS && |layers[r - 1]| == NBUCKETS
      requires Reached(layers, r, PairsBelow(H(), r - 1, layers[r - 1], bucketid), b0, h0)
      requires Drained(layers[r - 1], r - 1, bucketid) && cd.Valid() && Separate(cd)
      modifies heap0, heap1, nslots0, nslots1, this`bfull, this`hfull, cd, cd.xhashslots, cd.nextxhashslot
      ensures cd.Valid() && Drained(layers[r - 1], r - 1, bucketid + 1)
      ensures Reached(layers, r, PairsBelow(H(), r - 1, layers[r - 1], bucketid + 1), b0, h0)
    {
      hide Reached;
      hide Drained;
      hide PairsBelow;
      hide Live;
      hide Absorb;
      hide InRound;
      hide AllInRange;
      hide Allocated;
      hide Represents;
      hide CollisionData.Valid;
      RoundShape(layers, r, PairsBelow(H(), r - 1, layers[r - 1], bucketid), b0, h0);
      cd.Clear();
      var bsize := TakeBucket(r, bucketid, layers, PairsBelow(H(), r - 1, layers[r - 1], bucketid), b0, h0);
      ScanBucket(r, bucketid, bsize, cd, layers, b0, h0);
    }

    /** The outer loop of digit1 to digit8. */
    method RunBuckets(r: nat, cd: CollisionData, ghost layers: seq<Layer>, ghost b0: int, ghost h0: int)
      requires 0 < r == |layers| < WK && |layers[r - 1]| == NBUCKETS
      requires Reached(layers, r, PairsBelow(H(), r - 1, layers[r - 1], 0), b0, h0)
      requires Drained(layers[r - 1], r - 1, 0) && cd.Valid() && Separate(cd)
      modifies heap0, heap1, nslots0, nslots1, this`bfull, this`hfull, cd, cd.xhashslots, cd.nextxhashslot
      ensures Reached(layers, r, PairsBelow(H(), r - 1, layers[r - 1], NBUCKETS), b0, h0)
      ensures Drained(layers[r - 1], r - 1, NBUCKETS)
    {
      hide *;
      for bucketid := 0 to NBUCKETS
        invariant Reached(layers, r, PairsBelow(H(), r - 1, layers[r - 1], bucketid), b0, h0)
        invariant cd.Valid() && Drained(layers[r - 1], r - 1, bucketid)
      {
        RunBucket(r, bucketid, cd, layers, b0, h0);
      }
    }

    /** digit1 to digit8, run by a single thread: one round over all buckets. */
    method DigitRound(r: nat, ghost layers: seq<Layer>)
      requires AfterRound(layers) && 0 < r == |layers| < WK
      modifies heap0, heap1, nslots0, nslots1, this`bfull, this`hfull
      ensures var round := Absorb(H(), r, layers[r - 1], Pairs(H(), r - 1, layers[r - 1]));
              && AfterRound(layers + [round.layer])
              && bfull == old(bfull) + round.bfull && hfull == old(hfull) + round.hfull
    {
      var cd := new CollisionData();
      assert Separate(cd);
      hide *;
      ghost var b0, h0 := bfull, hfull;
      RoundStarts(layers, r);
      RunBuckets(r, cd, layers, b0, h0);
      RoundEnds(layers, r, b0, h0);
    }

    lemma RoundStarts(layers: seq<Layer>, r: nat)
      requires AfterRound(layers) && 0 < r == |layers| < WK
      ensures |layers[r - 1]| == NBUCKETS && Reached(layers, r, PairsBelow(H(), r - 1, layers[r - 1], 0), bfull, hfull)
      ensures Drained(layers[r - 1], r - 1, 0)
      ensures {nslots0, nslots1} == {Counts(r), Counts(r - 1)} && {heap0, heap1} == {Heap(r), Heap(r - 1)}
    {
      hide TagsOK;
      hide HashesOK;
      hide Building;
      hide Image;
      BuildingStarts(M(), H(), layers);
      assert PairsBelow(H(), r - 1, layers[r - 1], 0) == [];
      assert Absorb(H(), r, layers[r - 1], []) == Round(EmptyLayer(), 0, 0);
    }

    lemma RoundEnds(layers: seq<Layer>, r: nat, b0: int, h0: int)
      requires 0 < r == |layers| < WK && |layers[r - 1]| == NBUCKETS
      requires Reached(layers, r, PairsBelow(H(), r - 1, layers[r - 1], NBUCKETS), b0, h0)
      requires Drained(layers[r - 1], r - 1, NBUCKETS)
      ensures var round := Absorb(H(), r, layers[r - 1], Pairs(H(), r - 1, layers[r - 1]));
              AfterRound(layers + [round.layer]) && bfull == b0 + round.bfull && hfull == h0 + round.hfull
    {
      hide Represents;
      hide Building;
      hide Image;
      hide Absorb;
      hide PairsBelow;
      ghost var out := Absorb(H(), r, layers[r - 1], Pairs(H(), r - 1, layers[r - 1])).layer;
      BuildingEnds(M(), H(), layers, out);
      assert Counts(r + 1) == Counts(r - 1);
    }

    // ---------- round 0 ----------

    /** Copies the last 26 hash bytes in front of the tag unit and writes the index there. */
    method StoreLeaf(c: nat, slot: nat, ph: Hash, idx: nat)
      requires Allocated() && M().Shape() && c < NBUCKETS && slot < NSLOTS && idx < U32
      modifies heap0
      ensures M().Shape() && OneSlotWritten(old(M()), M(), 0, c, slot)
      ensures LeafWritten(old(M()).At(0, c, slot), M().At(0, c, slot), ph, idx)
    {
      hide Image;
      ghost var m := M();
      ghost var before := heap0[c, slot];
      assert before == m.At(0, c, slot);
      var i := 1;
      while i < HASHLEN
        invariant 1 <= i <= HASHLEN && |heap0[c, slot]| == SlotUnits(0)
        invariant forall k :: 1 <= k < i ==> SlotByte(heap0[c, slot], k + 1) == ph[k]
        invariant forall b, s :: 0 <= b < NBUCKETS && 0 <= s < NSLOTS && (b != c || s != slot) ==>
                    heap0[b, s] == old(heap0[b, s])
      {
        var k := i + 1;
        heap0[c, slot] := heap0[c, slot][k / 4 := WithByte(heap0[c, slot][k / 4], k % 4, ph[i])];
        i := i + 1;
      }
      heap0[c, slot] := heap0[c, slot][TagUnit(0) := WordUnit(idx)];
      assert M().Heap(1) == m.Heap(1);
    }

    /** The leaves below n are stored. */
    ghost predicate LeavesStored(n: nat, b0: int)
      reads this, heap0, heap1, nslots0, nslots1
    {
      && Allocated() && Represents(M(), H(), [LeafLayer(H(), n)])
      && Counted(LeafLayer(H(), n), 0) && (forall b :: 0 <= b < NBUCKETS ==> nslots1[b] == 0)
      && bfull == b0 + Excess(LeafLayer(H(), n), NBUCKETS)
    }

    /** One index of round 0: find its bucket, take a slot, store it. */
    method HandleIndex(idx: nat, ph: Hash, ghost b0: int)
      requires LeavesStored(idx, b0) && idx < NHASHES && ph == H()(idx)
      modifies heap0, nslots0, this`bfull
      ensures LeavesStored(idx + 1, b0)
    {
      hide Represents;
      hide Image;
      hide BucketOf;
      hide Excess;
      hide HashAt;
      hide OneSlotWritten;
      hide LeafWritten;
      ghost var L := LeafLayer(H(), idx);
      LeafBucket(ph);
      PushExcess(L, BucketOf(ph, 0), Leaf(idx), NBUCKETS);
      var bucketid := ph[0] as nat * 64 + ph[1] / 4;
      RepresentsShape(M(), H(), [L]);
      assert LeafLayer(H(), idx + 1) == Push(L, bucketid, Leaf(idx));
      hide LeafLayer;
      var slot := GetSlot(0, bucketid);
      if slot >= NSLOTS {
        bfull := bfull + 1;
        LateLeafKeeps(M(), H(), L, bucketid, Leaf(idx));
      } else {
        ghost var m := M();
        StoreLeaf(bucketid, slot, ph, idx);
        LeafKeeps(m, M(), H(), L, bucketid, slot, idx);
      }
    }

    /** digit0, run by a single thread: all blocks, two hashes each. */
    method Digit0()
      requires Allocated() && M().Shape() && forall b :: 0 <= b < NBUCKETS ==> nslots0[b] == nslots1[b] == 0
      modifies heap0, nslots0, this`bfull
      ensures AfterRound([LeafLayer(H(), NHASHES)])
      ensures bfull == old(bfull) + Excess(LeafLayer(H(), NHASHES), NBUCKETS)
    {
      hide Represents;
      hide LeavesStored;
      hide AfterRound;
      hide Allocated;
      hide LeafLayer;
      hide Excess;
      hide Image;
      hide HashAt;
      ghost var b0 := bfull;
      LeavesStart();
      for block := 0 to NBLOCKS
        invariant LeavesStored(HASHESPERBLAKE * block, b0)
      {
        var hashes := blake(block);
        for j := 0 to HASHESPERBLAKE
          invariant LeavesStored(HASHESPERBLAKE * block + j, b0)
        {
          BlockHalf(blake, block, j);
          HandleIndex(HASHESPERBLAKE * block + j, hashes[j * HASHLEN..j * HASHLEN + HASHLEN], b0);
        }
      }
      LeavesEnd(b0);
    }

    lemma LeavesStart()
      requires Allocated() && M().Shape() && forall b :: 0 <= b < NBUCKETS ==> nslots0[b] == nslots1[b] == 0
      ensures LeavesStored(0, bfull)
    {
      hide Represents;
      hide Image;
      hide Excess;
      NoLeaves(M(), H());
      NoExcess(NBUCKETS);
      assert LeafLayer(H(), 0) == EmptyLayer();
    }

    lemma LeavesEnd(b0: int)
      requires LeavesStored(NHASHES, b0)
      ensures AfterRound([LeafLayer(H(), NHASHES)]) && bfull == b0 + Excess(LeafLayer(H(), NHASHES), NBUCKETS)
    {
      hide Represents;
      hide Image;
      hide Excess;
      hide LeafLayer;
      RepresentsShape(M(), H(), [LeafLayer(H(), NHASHES)]);
    }

    // ---------- candidates ----------

    /** The tags of the two children of a tree of height r. */
    method ReadChildren(r: nat, w: nat, ghost layers: seq<Layer>, ghost t: Tree) returns (t0: nat, t1: nat)
      requires Allocated() && M().Shape() && |layers| <= WK && TagsOK(M(), layers)
      requires 0 < r <= |layers| && Decodes(layers, r, w, t)
      ensures t.Node? && Decodes(layers, r - 1, t0, t.left) && Decodes(layers, r - 1, t1, t.right)
      ensures Perfect(t.left, r - 1) && Perfect(t.right, r - 1)
    {
      hide Decodes;
      hide TagsOK;
      hide Image;
      hide TagUnit;
      TagUnitFits(r - 1);
      Children(M(), layers, r, w, t);
      var buck, s0, s1 := BucketId(w), SlotId0(w), SlotId1(w);
      var tagi := TagUnit(r - 1);
      assert Heap(r - 1)[buck, s0] == M().At(r - 1, buck, s0) && Heap(r - 1)[buck, s1] == M().At(r - 1, buck, s1);
      t0 := Word(Heap(r - 1)[buck, s0][tagi]);
      t1 := Word(Heap(r - 1)[buck, s1][tagi]);
      DecodedPerfect(M(), layers, r - 1, t0, t.left);
      DecodedPerfect(M(), layers, r - 1, t1, t.right);
    }

    lemma LeafOrdered(t: Tree)
      requires t.Leaf?
      ensures Ordered(Canon(t))
    {
    }

    /** listindices0: trees of even height, whose children lie in heap 1. */
    method ListIndices0(r: nat, w: nat, indices: array<nat>, off: nat, ghost layers: seq<Layer>, ghost t: Tree)
      returns (dup: bool)
      requires Allocated() && M().Shape() && |layers| <= WK && TagsOK(M(), layers)
      requires r % 2 == 0 && r <= |layers| && Decodes(layers, r, w, t) && off + Pow2(r) <= indices.Length
      modifies indices
      ensures dup ==> !Distinct(Leaves(t))
      ensures !dup ==>
                && Ordered(Canon(t)) && off + |Leaves(Canon(t))| <= indices.Length
                && indices[..] == Splice(old(indices[..]), off, Leaves(Canon(t)))
      decreases 3 * r
    {
      hide Distinct;
      hide Canon;
      hide Ordered;
      hide TagsOK;
      hide Decodes;
      hide ProbDisjoint;
      hide Image;
      if r == 0 {
        LeafDecoded(layers, w, t);
        LeafOrdered(t);
        indices[off] := w;
        return false;
      }
      var t0, t1 := ReadChildren(r, w, layers, t);
      if !ProbDisjoint(t0, t1) {
        SharedChild(layers, r - 1, t0, t1, t.left, t.right);
        return true;
      }
      dup := ListBoth(r, t0, t1, indices, off, layers, t);
    }

    /** listindices1: trees of odd height, whose children lie in heap 0. */
    method ListIndices1(r: nat, w: nat, indices: array<nat>, off: nat, ghost layers: seq<Layer>, ghost t: Tree)
      returns (dup: bool)
      requires Allocated() && M().Shape() && |layers| <= WK && TagsOK(M(), layers)
      requires r % 2 == 1 && r <= |layers| && Decodes(layers, r, w, t) && off + Pow2(r) <= indices.Length
      modifies indices
      ensures dup ==> !Distinct(Leaves(t))
      ensures !dup ==>
                && Ordered(Canon(t)) && off + |Leaves(Canon(t))| <= indices.Length
                && indices[..] == Splice(old(indices[..]), off, Leaves(Canon(t)))
      decreases 3 * r
    {
      hide Distinct;
      hide Canon;
      hide Ordered;
      hide TagsOK;
      hide Decodes;
      hide Image;
      var t0, t1 := ReadChildren(r, w, layers, t);
      dup := ListBoth(r, t0, t1, indices, off, layers, t);
    }

    /** What both end with: list the first child, the second, order the halves, compare their first indices. */
    method ListBoth(r: nat, t0: nat, t1: nat, indices: array<nat>, off: nat, ghost layers: seq<Layer>, ghost t: Tree)
      returns (dup: bool)
      requires Allocated() && M().Shape() && |layers| <= WK && TagsOK(M(), layers)
      requires 0 < r <= |layers| && off + Pow2(r) <= indices.Length && t.Node?
      requires Decodes(layers, r - 1, t0, t.left) && Decodes(layers, r - 1, t1, t.right)
      requires Perfect(t.left, r - 1) && Perfect(t.right, r - 1)
      modifies indices
      ensures dup ==> !Distinct(Leaves(t))
      ensures !dup ==>
                && Ordered(Canon(t)) && off + |Leaves(Canon(t))| <= indices.Length
                && indices[..] == Splice(old(indices[..]), off, Leaves(Canon(t)))
      decreases 3 * r - 1
    {
      hide Distinct;
      hide Canon;
      hide Ordered;
      hide Leaves;
      hide Perfect;
      hide TagsOK;
      hide Decodes;
      hide Image;
      hide Splice;
      ghost var base := indices[..];
      CanonLength(t.left, r - 1);
      CanonLength(t.right, r - 1);
      var size := Pow2(r - 1);
      dup := ListChild(r, t0, indices, off, layers, t.left);
      if dup {
        HalfRepeats(t);
        return true;
      }
      dup := ListChild(r, t1, indices, off + size, layers, t.right);
      if dup {
        HalfRepeats(t);
        return true;
      }
      SpliceTwice(base, off, Leaves(Canon(t.left)), Leaves(Canon(t.right)));
      dup := JoinHalves(indices, off, size, base, t);
    }

    /** The child of a tree of height r is listed by the other of the two methods. */
    method ListChild(r: nat, w: nat, indices: array<nat>, off: nat, ghost layers: seq<Layer>, ghost t: Tree)
      returns (dup: bool)
      requires Allocated() && M().Shape() && |layers| <= WK && TagsOK(M(), layers)
      requires 0 < r <= |layers| && Decodes(layers, r - 1, w, t) && off + Pow2(r - 1) <= indices.Length
      modifies indices
      ensures dup ==> !Distinct(Leaves(t))
      ensures !dup ==>
                && Ordered(Canon(t)) && off + |Leaves(Canon(t))| <= indices.Length
                && indices[..] == Splice(old(indices[..]), off, Leaves(Canon(t)))
      decreases 3 * r - 2
    {
      hide Distinct;
      hide Canon;
      hide Ordered;
      hide TagsOK;
      hide Decodes;
      hide Image;
      hide Splice;
      if r % 2 == 1 {
        dup := ListIndices0(r - 1, w, indices, off, layers, t);
      } else {
        dup := ListIndices1(r - 1, w, indices, off, layers, t);
      }
    }

    /** The first MAXSOLS of the proofs found are recorded; nsols counts them all. */
    ghost predicate Recorded(found: seq<seq<nat>>)
      reads this`nsols, sols
    {
      && sols.Length == MAXSOLS && nsols == |found|
      && forall i :: 0 <= i < |found| && i < MAXSOLS ==> sols[i] == found[i]
    }

    /** candidate: lists the leaves of a tree of height 9 and records them unless an index repeats. */
    method Candidate(w: nat, ghost layers: seq<Layer>, ghost t: Tree, ghost found: seq<seq<nat>>)
      requires Allocated() && M().Shape() && |layers| == WK && TagsOK(M(), layers)
      requires Decodes(layers, WK, w, t) && Recorded(found)
      modifies sols, this`nsols
      ensures Recorded(if Distinct(Leaves(t)) then found + [Leaves(Canon(t))] else found)
    {
      hide Distinct;
      hide Canon;
      hide Leaves;
      hide TagsOK;
      hide Decodes;
      hide Image;
      hide Perfect;
      Pow2Table();
      var prf := new nat[PROOFSIZE];
      ghost var before := prf[..];
      var listed := ListIndices1(WK, w, prf, 0, layers, t);
      if listed {
        return;
      }
      DecodedPerfect(M(), layers, WK, w, t);
      CanonLength(t, WK);
      assert Splice(before, 0, Leaves(Canon(t))) == Leaves(Canon(t));
      CanonDistinct(t);
      var dup := Duped(prf[..]);
      if dup {
        return;
      }
      var soli := nsols;
      nsols := nsols + 1;
      if soli < MAXSOLS {
        sols[soli] := prf[..];
      }
    }

    // ---------- the final round ----------

    /** The final round has handled the pairs ps of the layer of height 8. */
    ghost predicate Searched(layers: seq<Layer>, ps: seq<Pair>)
      reads this, heap0, heap1, sols
    {
      && Allocated() && Represents(M(), H(), layers) && |layers| == WK && |layers[WK - 1]| == NBUCKETS
      && AllInRange(layers[WK - 1], ps) && Recorded(Found(H(), layers[WK - 1], ps))
    }

    /** The body of the innermost loop of digit9: a candidate when the last 21 bits agree. */
    method HandleLastPair(bucketid: nat, s0: nat, s1: nat, ghost layers: seq<Layer>, ghost ps: seq<Pair>)
      requires Searched(layers, ps) && InRange(layers[WK - 1], Pair(bucketid, s0, s1))
      modifies sols, this`nsols
      ensures Searched(layers, ps + [Pair(bucketid, s0, s1)])
    {
      hide Distinct;
      hide Canon;
      hide Leaves;
      hide Represents;
      hide Decodes;
      hide Image;
      hide PairTree;
      hide LastDigitEqual;
      hide Found;
      hide TagsOK;
      hide TreeXor;
      hide Field;
      ghost var L, p := layers[WK - 1], Pair(bucketid, s0, s1);
      ghost var t := PairTree(L, p);
      ReadLastPair(M(), H(), layers, p);
      FoundSnoc(H(), L, ps, p);
      var slot0, slot1 := heap0[bucketid, s0], heap0[bucketid, s1];
      assert slot0 == M().At(WK - 1, bucketid, s0) && slot1 == M().At(WK - 1, bucketid, s1);
      if LastDigitEqual(slot0, slot1) {
        Candidate(Tag(bucketid, s0, s1), layers, t, Found(H(), L, ps));
      }
    }

    /** The loop body of digit9 for slot s1. */
    method ScanLastSlot(bucketid: nat, s1: nat, cd: CollisionData, ghost layers: seq<Layer>, ghost rests: seq<nat>,
                        ghost ps: seq<Pair>)
      requires Searched(layers, ps) && cd.Valid()
      requires bucketid < |layers[WK - 1]| && s1 < |Live(layers[WK - 1][bucketid])|
      requires rests == RestList(H(), WK - 1, Live(layers[WK - 1][bucketid])) && cd.rests == rests[..s1]
      modifies sols, this`nsols, cd, cd.xhashslots, cd.nextxhashslot
      ensures cd.Valid() && cd.rests == rests[..s1 + 1]
      ensures Searched(layers, ps + PairsAt(bucketid, s1, Partners(rests, rests[s1], s1)))
    {
      hide Searched;
      hide Represents;
      hide Allocated;
      hide Recorded;
      hide Partners;
      hide PairsAt;
      hide RestList;
      hide Live;
      hide InRange;
      hide AllInRange;
      hide Found;
      hide Image;
      hide CollisionData.Valid;
      hide CollisionData.Walking;
      SearchedShape(layers, ps);
      PartnersInRange(layers[WK - 1], bucketid, rests, s1);
      LinkSlot(WK, bucketid, s1, cd, layers, rests);
      ghost var partners := cd.pending;
      ghost var k, now := 0, ps;
      PairsAtNone(ps, bucketid, s1, partners);
      while cd.NextCollision()
        invariant 0 <= k <= |partners| && cd.pending == partners[k..]
        invariant cd.Valid() && cd.Walking() && cd.rests == rests[..s1 + 1]
        invariant now == ps + PairsAt(bucketid, s1, partners[..k]) && Searched(layers, now)
        decreases |partners| - k
      {
        var s0 := cd.Slot();
        HandleLastPair(bucketid, s0, s1, layers, now);
        PairsAtSnoc(ps, bucketid, s1, partners, k);
        now := now + [Pair(bucketid, partners[k], s1)];
        k := k + 1;
      }
      assert partners[..k] == partners;
    }

    lemma SearchedShape(layers: seq<Layer>, ps: seq<Pair>)
      requires Searched(layers, ps)
      ensures Allocated() && Represents(M(), H(), layers) && |layers| == WK && |layers[WK - 1]| == NBUCKETS
      ensures AllInRange(layers[WK - 1], ps) && Recorded(Found(H(), layers[WK - 1], ps))
    {
    }

    /** The middle loop of digit9: all slots of one bucket. */
    method ScanLastBucket(bucketid: nat, bsize: nat, cd: CollisionData, ghost layers: seq<Layer>)
      requires |layers| == WK && bucketid < |layers[WK - 1]| && bsize == |Live(layers[WK - 1][bucketid])|
      requires Searched(layers, PairsBelow(H(), WK - 1, layers[WK - 1], bucketid)) && cd.Valid() && cd.rests == []
      modifies sols, this`nsols, cd, cd.xhashslots, cd.nextxhashslot
      ensures cd.Valid() && Searched(layers, PairsBelow(H(), WK - 1, layers[WK - 1], bucketid + 1))
    {
      hide Searched;
      hide PairsBelow;
      hide PairsInBucket;
      hide PairsAt;
      hide Partners;
      hide RestList;
      hide Live;
      hide CollisionData.Valid;
      ghost var L := layers[WK - 1];
      ghost var rests := RestList(H(), WK - 1, Live(L[bucketid]));
      ghost var before := PairsBelow(H(), WK - 1, L, bucketid);
      PairsBelowStep(H(), WK - 1, L, bucketid + 1);
      BucketStart(before, bucketid, rests);
      var s1 := 0;
      while s1 < bsize
        invariant 0 <= s1 <= bsize && cd.Valid() && cd.rests == rests[..s1]
        invariant Searched(layers, before + PairsInBucket(bucketid, rests, s1))
      {
        BucketNext(before, bucketid, rests, s1);
        ScanLastSlot(bucketid, s1, cd, layers, rests, before + PairsInBucket(bucketid, rests, s1));
        s1 := s1 + 1;
      }
    }

    /** Reads and clears the counter of the next bucket of the last layer. */
    method TakeLastBucket(bucketid: nat, ghost layers: seq<Layer>, ghost ps: seq<Pair>) returns (bsize: nat)
      requires Searched(layers, ps) && bucketid < NBUCKETS && Drained(layers[WK - 1], WK - 1, bucketid)
      modifies nslots0
      ensures Searched(layers, ps) && bsize == |Live(layers[WK - 1][bucketid])|
      ensures Drained(layers[WK - 1], WK - 1, bucketid + 1)
    {
      hide Represents;
      hide Found;
      hide Image;
      bsize := GetNSlots(WK - 1, bucketid);
    }

    /** digit9, run by a single thread: the proofs of the run are recorded and all counters are clear. */
    method Digit9(ghost layers: seq<Layer>)
      requires AfterRound(layers) && |layers| == WK && nsols == 0
      modifies nslots0, sols, this`nsols
      ensures Recorded(Found(H(), layers[WK - 1], Pairs(H(), WK - 1, layers[WK - 1])))
      ensures nslots0.Length == nslots1.Length == NBUCKETS
      ensures forall b :: 0 <= b < NBUCKETS ==> nslots0[b] == nslots1[b] == 0
    {
      hide Searched;
      hide AfterRound;
      hide Represents;
      hide PairsBelow;
      hide Pairs;
      hide Found;
      hide Image;
      hide Recorded;
      hide CollisionData.Valid;
      ghost var L := layers[WK - 1];
      var cd := new CollisionData();
      SearchStarts(layers);
      for bucketid := 0 to NBUCKETS
        invariant Searched(layers, PairsBelow(H(), WK - 1, L, bucketid)) && Drained(L, WK - 1, bucketid)
        invariant cd.Valid() && fresh(cd) && fresh(cd.xhashslots) && fresh(cd.nextxhashslot)
        invariant forall b :: 0 <= b < NBUCKETS ==> nslots1[b] == 0
      {
        cd.Clear();
        var bsize := TakeLastBucket(bucketid, layers, PairsBelow(H(), WK - 1, L, bucketid));
        ScanLastBucket(bucketid, bsize, cd, layers);
      }
      SearchedShape(layers, PairsBelow(H(), WK - 1, L, NBUCKETS));
      PairsDef(H(), WK - 1, L);
    }

    lemma SearchStarts(layers: seq<Layer>)
      requires AfterRound(layers) && |layers| == WK && nsols == 0
      ensures |layers[WK - 1]| == NBUCKETS && Searched(layers, PairsBelow(H(), WK - 1, layers[WK - 1], 0))
      ensures Drained(layers[WK - 1], WK - 1, 0) && Allocated()
      ensures forall b :: 0 <= b < NBUCKETS ==> nslots1[b] == 0
    {
      hide TagsOK;
      hide HashesOK;
      hide Image;
      assert PairsBelow(H(), WK - 1, layers[WK - 1], 0) == [];
      assert Counts(WK) == nslots1;
    }
  }

  lemma PairsDef(H: IndexHash, r: nat, L: Layer)
    requires r <= WK
    ensures Pairs(H, r, L) == PairsBelow(H, r, L, |L|)
  {
  }

  lemma ParityFlips(r: nat)
    ensures r % 2 == 0 <==> (r + 1) % 2 == 1
  {
  }

  lemma LeafDecoded(layers: seq<Layer>, w: nat, t: Tree)
    requires Decodes(layers, 0, w, t)
    ensures t == Leaf(w) && Leaves(Canon(t)) == [w] && Pow2(0) == 1
  {
  }

  lemma BlockHalf(blake: Blake, block: nat, j: nat)
    requires j < HASHESPERBLAKE
    ensures blake(block)[j * HASHLEN..j * HASHLEN + HASHLEN] == HashOf(blake)(HASHESPERBLAKE * block + j)
  {
    var idx := HASHESPERBLAKE * block + j;
    assert idx / HASHESPERBLAKE == block && idx % HASHESPERBLAKE == j;
  }

  lemma BucketStart(done: seq<Pair>, b: nat, rests: seq<nat>)
    ensures done == done + PairsInBucket(b, rests, 0)
    ensures rests[..0] == []
  {
  }

  lemma BucketNext(done: seq<Pair>, b: nat, rests: seq<nat>, s1: nat)
    requires s1 < |rests|
    ensures done + PairsInBucket(b, rests, s1 + 1) ==
            done + PairsInBucket(b, rests, s1) + PairsAt(b, s1, Partners(rests, rests[s1], s1))
  {
  }

  lemma LeafBucket(x: Hash)
    ensures x[0] as nat * 64 + x[1] / 4 == BucketOf(x, 0)
  {
    hide Field;
    Pow2Table();
    hide Pow2;
    TwoBytes(x, 0, 8, 6, 256, 64, 4);
  }

  lemma FoundSnoc(H: IndexHash, L: Layer, ps: seq<Pair>, p: Pair)
    requires AllInRange(L, ps) && InRange(L, p)
    ensures AllInRange(L, ps + [p])
    ensures Found(H, L, ps + [p]) ==
              Found(H, L, ps) + (if Accepted(H, PairTree(L, p)) then [Leaves(Canon(PairTree(L, p)))] else [])
  {
    hide Accepted;
    assert (ps + [p])[..|ps|] == ps;
  }
}
