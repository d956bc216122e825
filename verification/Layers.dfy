/**
  The rounds of the solver over explicit trees.

  A layer holds, bucket by bucket, the trees that arrived in that bucket, in order
  of arrival. A bucket has room for NSLOTS of them: the live slots are the first
  NSLOTS arrivals, and the slot counter of the bucket is the number of arrivals.
*/
module Layers {
  import opened Arith
  import opened HashBits
  import opened Wagner

  const MAXSOLS: nat := 10
  const NBLOCKS: nat := 0x20_0000

  type Layer = seq<seq<Tree>>

  /** Bucket and rest bits of digit r. */
  function BucketOf(x: Hash, r: nat): (b: nat)
    requires r <= WK
    ensures b < NBUCKETS
  {
    BucketBound(x, r);
    Field(x, DIGITBITS * r, BUCKBITS)
  }

  function RestOf(x: Hash, r: nat): (d: nat)
    requires r <= WK
    ensures d < NRESTS
  {
    RestBound(x, r);
    Field(x, DIGITBITS * r + BUCKBITS, RESTBITS)
  }

  lemma BucketBound(x: Hash, r: nat)
    requires r <= WK
    ensures Field(x, DIGITBITS * r, BUCKBITS) < NBUCKETS
  {
    hide Field;
    FieldBound(x, DIGITBITS * r, BUCKBITS);
    Pow2Table();
    Pow2Add(7, 7);
  }

  lemma RestBound(x: Hash, r: nat)
    requires r <= WK
    ensures Field(x, DIGITBITS * r + BUCKBITS, RESTBITS) < NRESTS
  {
    hide Field;
    FieldBound(x, DIGITBITS * r + BUCKBITS, RESTBITS);
    Pow2Table();
  }

  function Live(arrivals: seq<Tree>): seq<Tree>
  {
    if |arrivals| <= NSLOTS then arrivals else arrivals[..NSLOTS]
  }

  function EmptyLayer(): (L: Layer)
    ensures |L| == NBUCKETS && forall c :: 0 <= c < NBUCKETS ==> L[c] == []
  {
    seq(NBUCKETS, _ => [])
  }

  function Push(L: Layer, c: nat, t: Tree): Layer
    requires c < |L|
  {
    L[c := L[c] + [t]]
  }

  /** Round 0: the leaves 0..n-1 put into buckets by digit 0 of their hash. */
  function LeafLayer(H: IndexHash, n: nat): (L: Layer)
    ensures |L| == NBUCKETS
  {
    if n == 0 then EmptyLayer() else Push(LeafLayer(H, n - 1), BucketOf(H(n - 1), 0), Leaf(n - 1))
  }

  /** A bucket of round 0 lists the indices whose hash begins with its number, in ascending order. */
  lemma {:induction false} LeafLayerExact(H: IndexHash, n: nat, c: nat)
    requires c < NBUCKETS
    ensures forall t :: t in LeafLayer(H, n)[c] <==> t.Leaf? && t.idx < n && Field(H(t.idx), 0, 14) == c
    ensures forall i, j :: 0 <= i < j < |LeafLayer(H, n)[c]| ==>
              LeafLayer(H, n)[c][i].Leaf? && LeafLayer(H, n)[c][j].Leaf? &&
              LeafLayer(H, n)[c][i].idx < LeafLayer(H, n)[c][j].idx
  {
    hide BucketOf, Field, LeafLayer;
    LeafLayerNext(H, n, c);
    if n > 0 {
      LeafLayerExact(H, n - 1, c);
      var before, now := LeafLayer(H, n - 1)[c], LeafLayer(H, n)[c];
      assert forall i :: 0 <= i < |before| ==> before[i] in before;
      assert now == before || now == before + [Leaf(n - 1)];
    }
  }

  lemma LeafLayerNext(H: IndexHash, n: nat, c: nat)
    requires c < NBUCKETS
    ensures n == 0 ==> LeafLayer(H, n)[c] == []
    ensures n > 0 ==>
              LeafLayer(H, n)[c] ==
              if Field(H(n - 1), 0, 14) == c then LeafLayer(H, n - 1)[c] + [Leaf(n - 1)] else LeafLayer(H, n - 1)[c]
  {
    hide Field;
  }

  // ---------- the pairs one round enumerates ----------

  /** Slots s0 < s1 of bucket b. */
  datatype Pair = Pair(b: nat, s0: nat, s1: nat)

  function RestList(H: IndexHash, r: nat, trees: seq<Tree>): (rests: seq<nat>)
    requires r <= WK
    ensures |rests| == |trees|
    ensures forall i :: 0 <= i < |trees| ==> rests[i] == RestOf(TreeXor(H, trees[i]), r)
  {
    seq(|trees|, i requires 0 <= i < |trees| => RestOf(TreeXor(H, trees[i]), r))
  }

  /** The slots below n whose rest is x, in descending order. */
  function Partners(rests: seq<nat>, x: nat, n: nat): seq<nat>
    requires n <= |rests|
  {
    if n == 0 then []
    else if rests[n - 1] == x then [n - 1] + Partners(rests, x, n - 1)
    else Partners(rests, x, n - 1)
  }

  function PairsAt(b: nat, s1: nat, partners: seq<nat>): (ps: seq<Pair>)
    ensures |ps| == |partners|
    ensures forall i :: 0 <= i < |ps| ==> ps[i] == Pair(b, partners[i], s1)
  {
    seq(|partners|, i requires 0 <= i < |partners| => Pair(b, partners[i], s1))
  }

  /** The pairs of bucket b whose larger slot is below n, larger slot ascending. */
  function PairsInBucket(b: nat, rests: seq<nat>, n: nat): seq<Pair>
    requires n <= |rests|
  {
    if n == 0 then []
    else PairsInBucket(b, rests, n - 1) + PairsAt(b, n - 1, Partners(rests, rests[n - 1], n - 1))
  }

  /** The pairs of the first nb buckets of a layer of height r. */
  function PairsBelow(H: IndexHash, r: nat, L: Layer, nb: nat): seq<Pair>
    requires r <= WK && nb <= |L|
  {
    if nb == 0 then []
    else
      var rests := RestList(H, r, Live(L[nb - 1]));
      PairsBelow(H, r, L, nb - 1) + PairsInBucket(nb - 1, rests, |rests|)
  }

  /** Two live slots of one bucket whose trees agree on the rest bits of digit r. */
  predicate Collides(H: IndexHash, r: nat, L: Layer, p: Pair)
    requires r <= WK
  {
    && p.b < |L|
    && p.s0 < p.s1 < |Live(L[p.b])|
    && RestOf(TreeXor(H, Live(L[p.b])[p.s0]), r) == RestOf(TreeXor(H, Live(L[p.b])[p.s1]), r)
  }

  lemma {:induction false} PartnersExact(rests: seq<nat>, x: nat, n: nat)
    requires n <= |rests|
    ensures forall i :: i in Partners(rests, x, n) <==> 0 <= i < n && rests[i] == x
    ensures forall i, j :: 0 <= i < j < |Partners(rests, x, n)| ==> Partners(rests, x, n)[i] > Partners(rests, x, n)[j]
  {
    if n == 0 {
    } else {
      PartnersExact(rests, x, n - 1);
      var below := Partners(rests, x, n - 1);
      if rests[n - 1] == x {
        assert Partners(rests, x, n) == [n - 1] + below;
        assert forall j :: 0 <= j < |below| ==> below[j] in below;
      }
    }
  }

  lemma DistinctEmpty<T>()
    ensures Distinct<T>([])
  {
  }

  lemma DistinctConcat<T>(x: seq<T>, y: seq<T>)
    requires Distinct(x) && Distinct(y) && forall a :: a in x ==> a !in y
    ensures Distinct(x + y)
  {
    forall i, j | 0 <= i < j < |x + y|
      ensures (x + y)[i] != (x + y)[j]
    {
      if i < |x| <= j {
        assert (x + y)[i] in x && (x + y)[j] in y;
      }
    }
  }

  lemma DistinctPrefix<T>(x: seq<T>, y: seq<T>)
    requires Distinct(x + y)
    ensures Distinct(x)
  {
    assert forall i :: 0 <= i < |x| ==> x[i] == (x + y)[i];
  }

  lemma DistinctLast<T>(x: seq<T>, a: T)
    requires Distinct(x + [a])
    ensures a !in x
  {
    var s := x + [a];
    assert s[|x|] == a;
    assert forall i :: 0 <= i < |x| ==> x[i] == s[i];
  }

  lemma AppendOnce<T>(x: seq<T>, a: T)
    requires Distinct(x) && a !in x
    ensures Distinct(x + [a])
  {
  }

  lemma PairsAtExact(b: nat, s1: nat, partners: seq<nat>)
    requires Distinct(partners)
    ensures forall p :: p in PairsAt(b, s1, partners) <==> p.b == b && p.s1 == s1 && p.s0 in partners
    ensures Distinct(PairsAt(b, s1, partners))
  {
    var at := PairsAt(b, s1, partners);
    forall p: Pair | p.b == b && p.s1 == s1 && p.s0 in partners
      ensures p in at
    {
      var i :| 0 <= i < |partners| && partners[i] == p.s0;
      assert at[i] == p;
    }
  }

  /** One bucket scan yields exactly the pairs s0 < s1 with equal rests, each once. */
  lemma {:induction false} PairsInBucketExact(b: nat, rests: seq<nat>, n: nat)
    requires n <= |rests|
    ensures forall p :: p in PairsInBucket(b, rests, n) <==>
                        p.b == b && p.s0 < p.s1 < n && rests[p.s0] == rests[p.s1]
    ensures Distinct(PairsInBucket(b, rests, n))
  {
    if n == 0 {
    } else {
      hide Distinct;
      hide Partners;
      PairsInBucketExact(b, rests, n - 1);
      PartnersExact(rests, rests[n - 1], n - 1);
      PartnersDistinct(rests, rests[n - 1], n - 1);
      PairsAtExact(b, n - 1, Partners(rests, rests[n - 1], n - 1));
      DistinctConcat(PairsInBucket(b, rests, n - 1), PairsAt(b, n - 1, Partners(rests, rests[n - 1], n - 1)));
    }
  }

  lemma PartnersDistinct(rests: seq<nat>, x: nat, n: nat)
    requires n <= |rests|
    ensures Distinct(Partners(rests, x, n))
  {
    PartnersExact(rests, x, n);
  }

  lemma PairsOfBucketExact(H: IndexHash, r: nat, L: Layer, b: nat)
    requires r <= WK && b < |L|
    ensures var ps := PairsInBucket(b, RestList(H, r, Live(L[b])), |Live(L[b])|);
            (forall p :: p in ps <==> p.b == b && Collides(H, r, L, p)) && Distinct(ps)
  {
    hide RestOf;
    hide TreeXor;
    hide PairsInBucket;
    PairsInBucketExact(b, RestList(H, r, Live(L[b])), |Live(L[b])|);
  }

  /** A round enumerates exactly the colliding pairs of its buckets, each once. */
  lemma {:induction false} PairsBelowExact(H: IndexHash, r: nat, L: Layer, nb: nat)
    requires r <= WK && nb <= |L|
    ensures forall p :: p in PairsBelow(H, r, L, nb) <==> p.b < nb && Collides(H, r, L, p)
    ensures Distinct(PairsBelow(H, r, L, nb))
  {
    hide *;
    PairsBelowStep(H, r, L, nb);
    if nb == 0 {
      DistinctEmpty<Pair>();
    } else {
      PairsBelowExact(H, r, L, nb - 1);
      PairsOfBucketExact(H, r, L, nb - 1);
      DistinctConcat(PairsBelow(H, r, L, nb - 1),
                     PairsInBucket(nb - 1, RestList(H, r, Live(L[nb - 1])), |Live(L[nb - 1])|));
    }
  }

  /** The order of visits: by bucket, then by the larger slot, and downwards through the smaller ones. */
  predicate VisitedBefore(p: Pair, q: Pair)
  {
    p.b < q.b || (p.b == q.b && (p.s1 < q.s1 || (p.s1 == q.s1 && p.s0 > q.s0)))
  }

  lemma OrderedConcat(x: seq<Pair>, y: seq<Pair>)
    requires forall i, j :: 0 <= i < j < |x| ==> VisitedBefore(x[i], x[j])
    requires forall i, j :: 0 <= i < j < |y| ==> VisitedBefore(y[i], y[j])
    requires forall p, q :: p in x && q in y ==> VisitedBefore(p, q)
    ensures forall i, j :: 0 <= i < j < |x + y| ==> VisitedBefore((x + y)[i], (x + y)[j])
  {
    hide VisitedBefore;
    forall i, j | 0 <= i < j < |x + y|
      ensures VisitedBefore((x + y)[i], (x + y)[j])
    {
      if i < |x| <= j {
        assert (x + y)[i] in x && (x + y)[j] in y;
      }
    }
  }

  lemma {:induction false} PairsInBucketOrdered(b: nat, rests: seq<nat>, n: nat)
    requires n <= |rests|
    ensures var ps := PairsInBucket(b, rests, n);
            forall i, j :: 0 <= i < j < |ps| ==> VisitedBefore(ps[i], ps[j])
  {
    if n > 0 {
      hide Partners;
      hide Distinct;
      PairsInBucketOrdered(b, rests, n - 1);
      PairsInBucketExact(b, rests, n - 1);
      PartnersExact(rests, rests[n - 1], n - 1);
      OrderedConcat(PairsInBucket(b, rests, n - 1), PairsAt(b, n - 1, Partners(rests, rests[n - 1], n - 1)));
    }
  }

  /** A round visits its pairs bucket by bucket, the larger slot upwards and the smaller one downwards. */
  lemma {:induction false} PairsBelowOrdered(H: IndexHash, r: nat, L: Layer, nb: nat)
    requires r <= WK && nb <= |L|
    ensures forall i, j :: 0 <= i < j < |PairsBelow(H, r, L, nb)| ==>
              var p, q := PairsBelow(H, r, L, nb)[i], PairsBelow(H, r, L, nb)[j];
              p.b < q.b || (p.b == q.b && (p.s1 < q.s1 || (p.s1 == q.s1 && p.s0 > q.s0)))
  {
    hide PairsBelow;
    hide PairsInBucket;
    hide RestOf;
    hide TreeXor;
    PairsBelowStep(H, r, L, nb);
    if nb > 0 {
      var rests := RestList(H, r, Live(L[nb - 1]));
      PairsBelowOrdered(H, r, L, nb - 1);
      PairsBelowExact(H, r, L, nb - 1);
      PairsInBucketOrdered(nb - 1, rests, |rests|);
      PairsInBucketExact(nb - 1, rests, |rests|);
      OrderedConcat(PairsBelow(H, r, L, nb - 1), PairsInBucket(nb - 1, rests, |rests|));
    }
  }

  lemma PairsBelowStep(H: IndexHash, r: nat, L: Layer, nb: nat)
    requires r <= WK && nb <= |L|
    ensures PairsBelow(H, r, L, nb) ==
            if nb == 0 then []
            else PairsBelow(H, r, L, nb - 1) + PairsInBucket(nb - 1, RestList(H, r, Live(L[nb - 1])), |Live(L[nb - 1])|)
  {
  }

  // ---------- what a round does with a pair ----------

  /** The last 32 stored bits agree: bytes 23 to 26 of the hash. */
  predicate SameLastWord(x: Hash, y: Hash)
  {
    x[23] == y[23] && x[24] == y[24] && x[25] == y[25] && x[26] == y[26]
  }

  /** The last words agree exactly when bits 184 to 215 do. */
  lemma LastWordBits(x: Hash, y: Hash)
    ensures SameLastWord(x, y) <==> Field(x, 184, 32) == Field(y, 184, 32)
  {
    hide Field;
    FourBytes(x, 23);
    FourBytes(y, 23);
    SameWord(x[23], x[24], x[25], x[26], y[23], y[24], y[25], y[26]);
  }

  lemma SameWord(a: Byte, b: Byte, c: Byte, d: Byte, a': Byte, b': Byte, c': Byte, d': Byte)
    ensures ((a as nat * 256 + b) * 256 + c) * 256 + d == ((a' as nat * 256 + b') * 256 + c') * 256 + d' <==>
            a == a' && b == b' && c == c' && d == d'
  {
  }

  /** A pair of live slots. */
  predicate InRange(L: Layer, p: Pair)
  {
    p.b < |L| && p.s0 < |Live(L[p.b])| && p.s1 < |Live(L[p.b])|
  }

  predicate AllInRange(L: Layer, ps: seq<Pair>)
  {
    forall p :: p in ps ==> InRange(L, p)
  }

  predicate AllCollide(H: IndexHash, r: nat, L: Layer, ps: seq<Pair>)
    requires r <= WK
  {
    forall p :: p in ps ==> Collides(H, r, L, p)
  }

  function PairTree(L: Layer, p: Pair): Tree
    requires InRange(L, p)
  {
    Node(Live(L[p.b])[p.s0], Live(L[p.b])[p.s1])
  }

  /** Whether a round throws the pair away because the last words agree. */
  predicate Rejected(H: IndexHash, t: Tree)
  {
    t.Node? && SameLastWord(TreeXor(H, t.left), TreeXor(H, t.right))
  }

  /** A node is rejected exactly when the last 32 bits of its own xor, bits 184 to 215, are all zero. */
  lemma RejectedExact(H: IndexHash, t: Tree)
    requires t.Node?
    ensures Rejected(H, t) <==> Field(TreeXor(H, t), 184, 32) == 0
  {
    hide Field;
    hide SameLastWord;
    LastWordBits(TreeXor(H, t.left), TreeXor(H, t.right));
    XorFieldZero(TreeXor(H, t.left), TreeXor(H, t.right), 184, 32);
  }

  /** The layer a round has built so far, and its two discard counters. */
  datatype Round = Round(layer: Layer, bfull: nat, hfull: nat)

  /** The round from a layer of height r - 1 to a layer of height r handles one pair. */
  function Step(H: IndexHash, r: nat, acc: Round, t: Tree): (acc': Round)
    requires 1 <= r <= WK && |acc.layer| == NBUCKETS
    ensures |acc'.layer| == NBUCKETS
  {
    if Rejected(H, t) then
      acc.(hfull := acc.hfull + 1)
    else
      var c := BucketOf(TreeXor(H, t), r);
      Round(Push(acc.layer, c, t),
            if |acc.layer[c]| >= NSLOTS then acc.bfull + 1 else acc.bfull,
            acc.hfull)
  }

  function Absorb(H: IndexHash, r: nat, L: Layer, ps: seq<Pair>): (acc: Round)
    requires 1 <= r <= WK && AllInRange(L, ps)
    ensures |acc.layer| == NBUCKETS
  {
    if ps == [] then
      Round(EmptyLayer(), 0, 0)
    else
      var n := |ps| - 1;
      Step(H, r, Absorb(H, r, L, ps[..n]), PairTree(L, ps[n]))
  }

  /** All colliding pairs of a layer of height r, in the order they are visited. */
  function Pairs(H: IndexHash, r: nat, L: Layer): (ps: seq<Pair>)
    requires r <= WK
    ensures AllInRange(L, ps)
  {
    PairsBelowExact(H, r, L, |L|);
    PairsBelow(H, r, L, |L|)
  }

  /** The layer of height r: the leaves, or the round run on the layer below. */
  function LayerAt(H: IndexHash, r: nat): (L: Layer)
    requires r < WK
    ensures |L| == NBUCKETS
  {
    if r == 0 then LeafLayer(H, NHASHES)
    else Absorb(H, r, LayerAt(H, r - 1), Pairs(H, r - 1, LayerAt(H, r - 1))).layer
  }

  // ---------- the final round ----------

  /** Digit 9, the last 21 bits, cancels, and no index repeats. */
  predicate Accepted(H: IndexHash, t: Tree)
  {
    Field(TreeXor(H, t), DIGITBITS * WK, DIGITBITS) == 0 && Distinct(Leaves(t))
  }

  /** The proofs found among the given pairs of the layer of height 8, in order. */
  function Found(H: IndexHash, L: Layer, ps: seq<Pair>): seq<seq<nat>>
    requires AllInRange(L, ps)
  {
    if ps == [] then
      []
    else
      var n := |ps| - 1;
      var t := PairTree(L, ps[n]);
      Found(H, L, ps[..n]) + (if Accepted(H, t) then [Leaves(Canon(t))] else [])
  }

  function AllFound(H: IndexHash): seq<seq<nat>>
  {
    Found(H, LayerAt(H, WK - 1), Pairs(H, WK - 1, LayerAt(H, WK - 1)))
  }

  // ---------- accounting ----------

  /** How many arrivals the first n buckets could not take. */
  function Excess(L: Layer, n: nat): nat
    requires n <= |L|
  {
    if n == 0 then 0 else Excess(L, n - 1) + (|L[n - 1]| - |Live(L[n - 1])|)
  }

  /** How many trees are live in the first n buckets. */
  function StoredCount(L: Layer, n: nat): nat
    requires n <= |L|
  {
    if n == 0 then 0 else StoredCount(L, n - 1) + |Live(L[n - 1])|
  }

  lemma {:induction false} PushExcess(L: Layer, c: nat, t: Tree, n: nat)
    requires c < |L| && n <= |L|
    ensures Excess(Push(L, c, t), n) == Excess(L, n) + (if c < n && |L[c]| >= NSLOTS then 1 else 0)
    ensures StoredCount(Push(L, c, t), n) == StoredCount(L, n) + (if c < n && |L[c]| < NSLOTS then 1 else 0)
  {
    if n == 0 {
    } else {
      PushExcess(L, c, t, n - 1);
    }
  }

  lemma {:induction false} NoExcess(n: nat)
    requires n <= NBUCKETS
    ensures Excess(EmptyLayer(), n) == 0 && StoredCount(EmptyLayer(), n) == 0
  {
    if n == 0 {
    } else {
      NoExcess(n - 1);
    }
  }

  /** Every pair of a round is stored, rejected, or turned away by a full bucket. */
  lemma {:induction false} PairsAccounted(H: IndexHash, r: nat, L: Layer, ps: seq<Pair>)
    requires 1 <= r <= WK && AllInRange(L, ps)
    ensures var acc := Absorb(H, r, L, ps);
            |ps| == StoredCount(acc.layer, NBUCKETS) + acc.bfull + acc.hfull && acc.bfull == Excess(acc.layer, NBUCKETS)
  {
    hide Rejected;
    hide BucketOf;
    hide PairTree;
    hide Excess;
    hide StoredCount;
    hide EmptyLayer;
    if ps == [] {
      NoExcess(NBUCKETS);
    } else {
      var n := |ps| - 1;
      assert ps[n] in ps && AllInRange(L, ps[..n]);
      PairsAccounted(H, r, L, ps[..n]);
      var acc, t := Absorb(H, r, L, ps[..n]), PairTree(L, ps[n]);
      if !Rejected(H, t) {
        PushExcess(acc.layer, BucketOf(TreeXor(H, t), r), t, NBUCKETS);
      }
    }
  }

  lemma {:induction false} PartnersCount(rests: seq<nat>, x: nat, n: nat)
    requires n <= |rests|
    ensures |Partners(rests, x, n)| <= n
  {
    if n == 0 {
    } else {
      PartnersCount(rests, x, n - 1);
    }
  }

  lemma {:induction false} BucketPairCount(b: nat, rests: seq<nat>, n: nat)
    requires n <= |rests|
    ensures |PairsInBucket(b, rests, n)| <= n * (n - 1) / 2
  {
    if n == 0 {
    } else {
      BucketPairCount(b, rests, n - 1);
      PartnersCount(rests, rests[n - 1], n - 1);
      assert n * (n - 1) == (n - 1) * (n - 2) + 2 * (n - 1);
    }
  }

  lemma FullBucketPairs(b: nat, rests: seq<nat>, n: nat)
    requires n <= |rests| && n <= NSLOTS
    ensures |PairsInBucket(b, rests, n)| <= 130816
  {
    BucketPairCount(b, rests, n);
    MulMono(n, n - 1, 511);
  }

  /** A round visits at most C(512, 2) pairs a bucket. */
  lemma {:induction false} PairCountFits(H: IndexHash, r: nat, L: Layer, nb: nat)
    requires r <= WK && nb <= |L|
    ensures |PairsBelow(H, r, L, nb)| <= nb * 130816
    ensures nb <= NBUCKETS ==> |PairsBelow(H, r, L, nb)| < U32
  {
    hide PairsBelow;
    hide PairsInBucket;
    hide RestOf;
    hide TreeXor;
    PairsBelowStep(H, r, L, nb);
    if nb == 0 {
    } else {
      PairCountFits(H, r, L, nb - 1);
      FullBucketPairs(nb - 1, RestList(H, r, Live(L[nb - 1])), |Live(L[nb - 1])|);
    }
  }

  lemma {:induction false} ArrivalsAtMost(H: IndexHash, r: nat, L: Layer, ps: seq<Pair>, c: nat)
    requires 1 <= r <= WK && AllInRange(L, ps) && c < NBUCKETS
    ensures |Absorb(H, r, L, ps).layer[c]| <= |ps|
  {
    hide Rejected;
    hide BucketOf;
    hide PairTree;
    if ps == [] {
    } else {
      var n := |ps| - 1;
      assert ps[n] in ps && AllInRange(L, ps[..n]);
      ArrivalsAtMost(H, r, L, ps[..n], c);
    }
  }

  lemma {:induction false} FoundAtMost(H: IndexHash, L: Layer, ps: seq<Pair>)
    requires AllInRange(L, ps)
    ensures |Found(H, L, ps)| <= |ps|
  {
    hide Accepted;
    hide PairTree;
    if ps == [] {
    } else {
      var n := |ps| - 1;
      assert ps[n] in ps && AllInRange(L, ps[..n]);
      FoundAtMost(H, L, ps[..n]);
    }
  }

  /** No 32-bit counter of a round wraps: not that of a bucket, nor those of discards and of proofs. */
  lemma CountersFit(H: IndexHash, r: nat, L: Layer, c: nat)
    requires 1 <= r <= WK && |L| == NBUCKETS && c < NBUCKETS
    ensures var acc := Absorb(H, r, L, Pairs(H, r - 1, L));
            |acc.layer[c]| < U32 && acc.bfull < U32 && acc.hfull < U32
    ensures |Found(H, L, Pairs(H, r - 1, L))| < U32
  {
    hide Absorb;
    hide Found;
    hide PairsBelow;
    var ps := Pairs(H, r - 1, L);
    PairCountFits(H, r - 1, L, NBUCKETS);
    ArrivalsAtMost(H, r, L, ps, c);
    PairsAccounted(H, r, L, ps);
    FoundAtMost(H, L, ps);
  }

  /** Nor do those of round 0. */
  lemma {:induction false} LeafCountersFit(H: IndexHash, n: nat, c: nat)
    requires n <= NHASHES && c < NBUCKETS
    ensures |LeafLayer(H, n)[c]| <= n && Excess(LeafLayer(H, n), NBUCKETS) <= n && NHASHES < U32
  {
    hide Excess;
    hide EmptyLayer;
    hide BucketOf;
    if n == 0 {
      NoExcess(NBUCKETS);
    } else {
      LeafCountersFit(H, n - 1, c);
      PushExcess(LeafLayer(H, n - 1), BucketOf(H(n - 1), 0), Leaf(n - 1), NBUCKETS);
    }
  }
}
