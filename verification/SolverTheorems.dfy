/**
  What the rounds compute: every tree of a layer meets Wagner's first condition,
  no tree occurs twice, and exactly the trees none of whose subtrees was dropped
  survive. Hence soundness, uniqueness and completeness of the proofs found.
*/
module SolverTheorems {
  import opened Arith
  import opened HashBits
  import opened Wagner
  import opened Layers

  /** Every leaf is an index the solver hashes. */
  predicate Below(t: Tree)
  {
    match t
    case Leaf(i) => i < NHASHES
    case Node(a, b) => Below(a) && Below(b)
  }

  /** What holds of every tree of height r in bucket c. */
  predicate TreeOK(H: IndexHash, t: Tree, r: nat, c: nat)
    requires r <= WK
  {
    HasPrefixes(H, t, r) && Below(t) && BucketOf(TreeXor(H, t), r) == c
  }

  ghost predicate LayerOK(H: IndexHash, L: Layer, r: nat)
    requires r <= WK
  {
    && |L| == NBUCKETS
    && forall c, i :: 0 <= c < |L| && 0 <= i < |L[c]| ==> TreeOK(H, L[c][i], r, c)
  }

  /** No two arrivals are the same tree up to the order of siblings. */
  ghost predicate NoTwins(L: Layer)
  {
    forall c, i, d, j | 0 <= c < |L| && 0 <= d < |L| && 0 <= i < |L[c]| && 0 <= j < |L[d]| ::
      Canon(L[c][i]) == Canon(L[d][j]) ==> c == d && i == j
  }

  // ---------- one pair ----------

  /** Agreeing bucket and rest bits cancel one more digit. */
  lemma DigitCancels(x: Hash, y: Hash, r: nat)
    requires r < WK
    requires ZeroPrefix(x, DIGITBITS * r) && ZeroPrefix(y, DIGITBITS * r)
    ensures BucketOf(x, r) == BucketOf(y, r) && RestOf(x, r) == RestOf(y, r) <==>
            ZeroPrefix(XorHash(x, y), DIGITBITS * (r + 1))
  {
    hide Field;
    hide ZeroPrefix;
    hide XorHash;
    hide BucketOf;
    hide RestOf;
    var lo, z := DIGITBITS * r, XorHash(x, y);
    XorZeroPrefix(x, y, lo);
    XorFieldZero(x, y, lo, BUCKBITS);
    XorFieldZero(x, y, lo + BUCKBITS, RESTBITS);
    ZeroPrefixExtend(z, lo, BUCKBITS);
    ZeroPrefixExtend(z, lo + BUCKBITS, RESTBITS);
    DigitDef(x, r);
    DigitDef(y, r);
  }

  lemma DigitDef(x: Hash, r: nat)
    requires r <= WK
    ensures BucketOf(x, r) == Field(x, DIGITBITS * r, BUCKBITS)
    ensures RestOf(x, r) == Field(x, DIGITBITS * r + BUCKBITS, RESTBITS)
  {
  }

  /** A colliding pair of a good layer makes a good tree one level up. */
  lemma PairTreeOK(H: IndexHash, r: nat, L: Layer, p: Pair)
    requires 1 <= r <= WK && LayerOK(H, L, r - 1) && Collides(H, r - 1, L, p)
    ensures HasPrefixes(H, PairTree(L, p), r) && Below(PairTree(L, p))
  {
    hide HasPrefixes;
    hide ZeroPrefix;
    hide RestOf;
    hide BucketOf;
    var a, b := Live(L[p.b])[p.s0], Live(L[p.b])[p.s1];
    assert a == L[p.b][p.s0] && b == L[p.b][p.s1];
    assert TreeOK(H, a, r - 1, p.b) && TreeOK(H, b, r - 1, p.b);
    PrefixOf(H, a, r - 1);
    PrefixOf(H, b, r - 1);
    DigitCancels(TreeXor(H, a), TreeXor(H, b), r - 1);
    PrefixesOfNode(H, a, b, r);
  }

  lemma PrefixOf(H: IndexHash, t: Tree, r: nat)
    requires r <= WK && HasPrefixes(H, t, r)
    ensures ZeroPrefix(TreeXor(H, t), DIGITBITS * r)
  {
  }

  lemma PrefixesOfNode(H: IndexHash, a: Tree, b: Tree, r: nat)
    requires 1 <= r <= WK
    ensures HasPrefixes(H, Node(a, b), r) <==>
            && ZeroPrefix(XorHash(TreeXor(H, a), TreeXor(H, b)), DIGITBITS * r)
            && HasPrefixes(H, a, r - 1) && HasPrefixes(H, b, r - 1)
  {
    hide ZeroPrefix;
  }

  /** Different pairs of a layer without twins make trees that differ even up to sibling order. */
  lemma PairTreesDiffer(H: IndexHash, r: nat, L: Layer, p: Pair, q: Pair)
    requires r <= WK && NoTwins(L) && Collides(H, r, L, p) && Collides(H, r, L, q)
    requires Canon(PairTree(L, p)) == Canon(PairTree(L, q))
    ensures p == q
  {
    var a, b := Live(L[p.b])[p.s0], Live(L[p.b])[p.s1];
    var c, d := Live(L[q.b])[q.s0], Live(L[q.b])[q.s1];
    assert a == L[p.b][p.s0] && b == L[p.b][p.s1] && c == L[q.b][q.s0] && d == L[q.b][q.s1];
    CanonNodeInjective(a, b, c, d);
  }

  // ---------- all pairs of a round ----------

  /** Everything a round built from the pairs ps came from exactly one of them. */
  ghost predicate FromPairs(H: IndexHash, r: nat, L: Layer, ps: seq<Pair>, out: Layer)
    requires r <= WK && AllInRange(L, ps)
  {
    forall c, i :: 0 <= c < |out| && 0 <= i < |out[c]| ==>
      exists k :: 0 <= k < |ps| && out[c][i] == PairTree(L, ps[k]) && !Rejected(H, out[c][i])
  }

  lemma {:induction false} AbsorbSound(H: IndexHash, r: nat, L: Layer, ps: seq<Pair>)
    requires 1 <= r <= WK && LayerOK(H, L, r - 1)
    requires AllInRange(L, ps) && AllCollide(H, r - 1, L, ps)
    ensures LayerOK(H, Absorb(H, r, L, ps).layer, r)
    ensures FromPairs(H, r, L, ps, Absorb(H, r, L, ps).layer)
  {
    if ps == [] {
    } else {
      var n := |ps| - 1;
      assert forall p :: p in ps[..n] ==> p in ps;
      AbsorbSound(H, r, L, ps[..n]);
      var acc, t := Absorb(H, r, L, ps[..n]), PairTree(L, ps[n]);
      assert ps[n] in ps;
      PairTreeOK(H, r, L, ps[n]);
      StepSound(H, r, L, ps, acc, t);
      AbsorbStep(H, r, L, ps);
    }
  }

  lemma AbsorbStep(H: IndexHash, r: nat, L: Layer, ps: seq<Pair>)
    requires 1 <= r <= WK && ps != [] && AllInRange(L, ps)
    ensures Absorb(H, r, L, ps) == Step(H, r, Absorb(H, r, L, ps[..|ps| - 1]), PairTree(L, ps[|ps| - 1]))
  {
  }

  lemma StepSound(H: IndexHash, r: nat, L: Layer, ps: seq<Pair>, acc: Round, t: Tree)
    requires 1 <= r <= WK && ps != [] && AllInRange(L, ps)
    requires LayerOK(H, acc.layer, r) && FromPairs(H, r, L, ps[..|ps| - 1], acc.layer)
    requires t == PairTree(L, ps[|ps| - 1]) && HasPrefixes(H, t, r) && Below(t)
    ensures LayerOK(H, Step(H, r, acc, t).layer, r)
    ensures FromPairs(H, r, L, ps, Step(H, r, acc, t).layer)
  {
    hide HasPrefixes;
    hide Below;
    hide BucketOf;
    hide TreeXor;
    hide SameLastWord;
    var out := Step(H, r, acc, t).layer;
    forall c, i | 0 <= c < |out| && 0 <= i < |out[c]|
      ensures TreeOK(H, out[c][i], r, c)
      ensures exists k :: 0 <= k < |ps| && out[c][i] == PairTree(L, ps[k]) && !Rejected(H, out[c][i])
    {
      var n := |ps| - 1;
      if i < |acc.layer[c]| {
        assert out[c][i] == acc.layer[c][i];
        var k :| 0 <= k < n && out[c][i] == PairTree(L, ps[..n][k]) && !Rejected(H, out[c][i]);
        assert out[c][i] == PairTree(L, ps[k]);
      } else {
        assert out[c][i] == PairTree(L, ps[n]);
      }
    }
  }

  /** A round run on a layer without twins, on different pairs, makes no twins. */
  lemma {:induction false} AbsorbNoTwins(H: IndexHash, r: nat, L: Layer, ps: seq<Pair>)
    requires 1 <= r <= WK && LayerOK(H, L, r - 1) && NoTwins(L) && Distinct(ps)
    requires AllInRange(L, ps) && AllCollide(H, r - 1, L, ps)
    ensures NoTwins(Absorb(H, r, L, ps).layer)
  {
    if ps == [] {
    } else {
      var n := |ps| - 1;
      assert forall p :: p in ps[..n] ==> p in ps;
      assert Distinct(ps[..n]) by {
        assert forall i :: 0 <= i < n ==> ps[..n][i] == ps[i];
      }
      AbsorbNoTwins(H, r, L, ps[..n]);
      AbsorbSound(H, r, L, ps[..n]);
      AbsorbStep(H, r, L, ps);
      StepNoTwins(H, r, L, ps, Absorb(H, r, L, ps[..n]));
    }
  }

  lemma StepNoTwins(H: IndexHash, r: nat, L: Layer, ps: seq<Pair>, acc: Round)
    requires 1 <= r <= WK && NoTwins(L) && Distinct(ps) && ps != []
    requires AllInRange(L, ps) && AllCollide(H, r - 1, L, ps)
    requires |acc.layer| == NBUCKETS && NoTwins(acc.layer)
    requires FromPairs(H, r, L, ps[..|ps| - 1], acc.layer)
    ensures NoTwins(Step(H, r, acc, PairTree(L, ps[|ps| - 1])).layer)
  {
    hide BucketOf;
    hide Canon;
    hide Rejected;
    hide NoTwins;
    hide PairTree;
    hide FromPairs;
    hide Collides;
    hide Distinct;
    hide Push;
    var t := PairTree(L, ps[|ps| - 1]);
    forall c, i | 0 <= c < |acc.layer| && 0 <= i < |acc.layer[c]|
      ensures Canon(acc.layer[c][i]) != Canon(t)
    {
      NewTreeDiffers(H, r, L, ps, acc.layer, c, i);
    }
    if !Rejected(H, t) {
      PushNoTwins(acc.layer, BucketOf(TreeXor(H, t), r), t);
    }
  }

  lemma NewTreeDiffers(H: IndexHash, r: nat, L: Layer, ps: seq<Pair>, out: Layer, c: nat, i: nat)
    requires 1 <= r <= WK && NoTwins(L) && Distinct(ps) && ps != []
    requires AllInRange(L, ps) && AllCollide(H, r - 1, L, ps)
    requires FromPairs(H, r, L, ps[..|ps| - 1], out) && c < |out| && i < |out[c]|
    ensures Canon(out[c][i]) != Canon(PairTree(L, ps[|ps| - 1]))
  {
    hide Canon;
    hide NoTwins;
    hide PairTree;
    hide Collides;
    hide Rejected;
    var n := |ps| - 1;
    var k :| 0 <= k < n && out[c][i] == PairTree(L, ps[..n][k]);
    assert ps[k] in ps && ps[n] in ps && ps[k] != ps[n];
    if Canon(out[c][i]) == Canon(PairTree(L, ps[n])) {
      PairTreesDiffer(H, r - 1, L, ps[k], ps[n]);
    }
  }

  lemma PushNoTwins(L: Layer, b: nat, t: Tree)
    requires NoTwins(L) && b < |L|
    requires forall c, i :: 0 <= c < |L| && 0 <= i < |L[c]| ==> Canon(L[c][i]) != Canon(t)
    ensures NoTwins(Push(L, b, t))
  {
    hide Canon;
    var out := Push(L, b, t);
    forall c, i, d, j |
      0 <= c < |out| && 0 <= d < |out| && 0 <= i < |out[c]| && 0 <= j < |out[d]| &&
      Canon(out[c][i]) == Canon(out[d][j])
      ensures c == d && i == j
    {
      assert out[c][i] == if i < |L[c]| then L[c][i] else t;
      assert out[d][j] == if j < |L[d]| then L[d][j] else t;
    }
  }

  /** Every pair that is not rejected arrives. */
  lemma {:induction false} AbsorbAll(H: IndexHash, r: nat, L: Layer, ps: seq<Pair>, p: Pair)
    requires 1 <= r <= WK && AllInRange(L, ps) && p in ps
    requires !Rejected(H, PairTree(L, p))
    ensures Arrived(Absorb(H, r, L, ps).layer, PairTree(L, p))
  {
    hide TreeXor;
    hide BucketOf;
    hide SameLastWord;
    hide Canon;
    hide Arrived;
    hide Push;
    var n := |ps| - 1;
    assert forall q :: q in ps[..n] ==> q in ps;
    AbsorbStep(H, r, L, ps);
    var before, last := Absorb(H, r, L, ps[..n]), PairTree(L, ps[n]);
    var c := BucketOf(TreeXor(H, last), r);
    if p == ps[n] {
      PushArrives(before.layer, c, last);
    } else {
      assert p in ps[..n];
      AbsorbAll(H, r, L, ps[..n], p);
      PushKeepsArrived(before.layer, c, last, PairTree(L, p));
    }
  }

  /** Some slot, live or not, received t or t with siblings swapped. */
  ghost predicate Arrived(L: Layer, t: Tree)
  {
    exists c, i :: 0 <= c < |L| && 0 <= i < |L[c]| && Canon(L[c][i]) == Canon(t)
  }

  ghost predicate Stored(L: Layer, t: Tree)
  {
    exists c, i :: 0 <= c < |L| && 0 <= i < |L[c]| && i < NSLOTS && Canon(L[c][i]) == Canon(t)
  }

  /** It arrived when its bucket already held NSLOTS trees. */
  ghost predicate Overflowed(L: Layer, t: Tree)
  {
    exists c, i :: 0 <= c < |L| && NSLOTS <= i < |L[c]| && Canon(L[c][i]) == Canon(t)
  }

  lemma StoredOrOverflowed(L: Layer, t: Tree)
    requires NoTwins(L)
    ensures Stored(L, t) <==> Arrived(L, t) && !Overflowed(L, t)
  {
    hide Canon;
    if Arrived(L, t) {
      var c, i :| 0 <= c < |L| && 0 <= i < |L[c]| && Canon(L[c][i]) == Canon(t);
    }
  }

  // ---------- layers ----------

  /** The layer holds exactly the leaves of the given indices. */
  ghost predicate HoldsLeaves(L: Layer, ks: nat -> bool)
  {
    && (forall c, i :: 0 <= c < |L| && 0 <= i < |L[c]| ==> L[c][i].Leaf? && ks(L[c][i].idx))
    && (forall k :: ks(k) ==> Arrived(L, Leaf(k)))
  }

  /** The indices below n. */
  function Indices(n: nat): nat -> bool
  {
    (k: nat) => k < n
  }

  lemma EmptyLayerOK(H: IndexHash, ks: nat -> bool)
    requires forall k :: !ks(k)
    ensures LayerOK(H, EmptyLayer(), 0) && NoTwins(EmptyLayer()) && HoldsLeaves(EmptyLayer(), ks)
  {
    hide TreeOK;
    hide Canon;
  }

  lemma {:induction false} LeafLayerOK(H: IndexHash, n: nat)
    requires n <= NHASHES
    ensures LayerOK(H, LeafLayer(H, n), 0) && NoTwins(LeafLayer(H, n)) && HoldsLeaves(LeafLayer(H, n), Indices(n))
  {
    hide LayerOK;
    hide NoTwins;
    hide HoldsLeaves;
    hide Push;
    hide BucketOf;
    hide EmptyLayer;
    if n == 0 {
      EmptyLayerOK(H, Indices(0));
    } else {
      LeafLayerOK(H, n - 1);
      LeafPush(H, LeafLayer(H, n - 1), Indices(n - 1), n - 1, Indices(n));
    }
  }

  /** One more leaf put into its bucket. */
  lemma LeafPush(H: IndexHash, L: Layer, ks: nat -> bool, k: nat, ks': nat -> bool)
    requires k < NHASHES && !ks(k) && (forall j :: ks'(j) <==> ks(j) || j == k)
    requires LayerOK(H, L, 0) && NoTwins(L) && HoldsLeaves(L, ks)
    ensures var out := Push(L, BucketOf(H(k), 0), Leaf(k));
            LayerOK(H, out, 0) && NoTwins(out) && HoldsLeaves(out, ks')
  {
    assert TreeOK(H, Leaf(k), 0, BucketOf(H(k), 0));
    hide *;
    LeafPushOK(H, L, BucketOf(H(k), 0), k);
    LeafPushNew(L, ks, k);
    PushNoTwins(L, BucketOf(H(k), 0), Leaf(k));
    LeafPushHolds(L, ks, BucketOf(H(k), 0), k, ks');
  }

  lemma LeafPushOK(H: IndexHash, L: Layer, b: nat, k: nat)
    requires LayerOK(H, L, 0) && b < NBUCKETS && TreeOK(H, Leaf(k), 0, b)
    ensures b < |L| && LayerOK(H, Push(L, b, Leaf(k)), 0)
  {
    hide TreeOK;
    var out := Push(L, b, Leaf(k));
    forall c, i | 0 <= c < |out| && 0 <= i < |out[c]|
      ensures TreeOK(H, out[c][i], 0, c)
    {
      assert out[c][i] == if i < |L[c]| then L[c][i] else Leaf(k);
    }
  }

  lemma LeafPushNew(L: Layer, ks: nat -> bool, k: nat)
    requires HoldsLeaves(L, ks) && !ks(k)
    ensures forall c, i :: 0 <= c < |L| && 0 <= i < |L[c]| ==> Canon(L[c][i]) != Canon(Leaf(k))
  {
    hide Arrived;
  }

  lemma LeafPushHolds(L: Layer, ks: nat -> bool, b: nat, k: nat, ks': nat -> bool)
    requires b < |L| && HoldsLeaves(L, ks) && (forall j :: ks'(j) <==> ks(j) || j == k)
    ensures HoldsLeaves(Push(L, b, Leaf(k)), ks')
  {
    hide Canon;
    var out: Layer := Push(L, b, Leaf(k));
    forall c: nat, i: nat | c < |out| && i < |out[c]|
      ensures out[c][i].Leaf? && ks'(out[c][i].idx)
    {
      assert out[c][i] == if i < |L[c]| then L[c][i] else Leaf(k);
    }
    hide Arrived;
    hide Push;
    PushArrives(L, b, Leaf(k));
    forall j | ks(j)
      ensures Arrived(out, Leaf(j))
    {
      PushKeepsArrived(L, b, Leaf(k), Leaf(j));
    }
  }

  lemma PushArrives(L: Layer, b: nat, t: Tree)
    requires b < |L|
    ensures Arrived(Push(L, b, t), t)
  {
    hide Canon;
    assert Push(L, b, t)[b][|L[b]|] == t;
  }

  lemma PushKeepsArrived(L: Layer, b: nat, t: Tree, x: Tree)
    requires b < |L| && Arrived(L, x)
    ensures Arrived(Push(L, b, t), x)
  {
    hide Canon;
    var c, i :| 0 <= c < |L| && 0 <= i < |L[c]| && Canon(L[c][i]) == Canon(x);
    assert Push(L, b, t)[c][i] == L[c][i];
  }

  // ---------- runs ----------

  /** The list consists of exactly the colliding pairs of the layer, each once. */
  ghost predicate IsPairList(H: IndexHash, r: nat, L: Layer, ps: seq<Pair>)
    requires r <= WK
  {
    AllInRange(L, ps) && (forall p :: p in ps <==> Collides(H, r, L, p)) && Distinct(ps)
  }

  /** Every index that is hashed sits in the bucket of its first digit, once. */
  ghost predicate FirstLayer(H: IndexHash, L: Layer)
  {
    LayerOK(H, L, 0) && NoTwins(L) && HoldsLeaves(L, Indices(NHASHES))
  }

  /** out is what the round above height q makes of L by visiting its colliding pairs in some order. */
  ghost predicate Built(H: IndexHash, q: nat, L: Layer, out: Layer)
    requires q < WK
  {
    exists ps :: IsPairList(H, q, L, ps) && out == Absorb(H, q + 1, L, ps).layer
  }

  ghost predicate Follows(H: IndexHash, layers: seq<Layer>, r: nat)
    requires 1 <= r <= WK && r < |layers|
  {
    Built(H, r - 1, layers[r - 1], layers[r])
  }

  /** Layers that successive rounds build, whatever the order in which each visits its leaves or pairs. */
  ghost predicate IsRun(H: IndexHash, layers: seq<Layer>)
  {
    && 0 < |layers| <= WK
    && FirstLayer(H, layers[0])
    && forall r :: 1 <= r < |layers| ==> Follows(H, layers, r)
  }

  /** Every layer of a run holds only good trees, each once. */
  lemma {:induction false} LayersOK(H: IndexHash, layers: seq<Layer>, r: nat)
    requires IsRun(H, layers) && r < |layers|
    ensures LayerOK(H, layers[r], r) && NoTwins(layers[r])
  {
    hide LayerOK;
    hide NoTwins;
    hide HoldsLeaves;
    hide Absorb;
    hide Collides;
    if r == 0 {
    } else {
      var L := layers[r - 1];
      LayersOK(H, layers, r - 1);
      assert Follows(H, layers, r);
      var ps :| IsPairList(H, r - 1, L, ps) && layers[r] == Absorb(H, r, L, ps).layer;
      AbsorbSound(H, r, L, ps);
      AbsorbNoTwins(H, r, L, ps);
    }
  }

  /** The layers of height 0 to r when pairs are visited in the order of the single-threaded solver. */
  function LayersTo(H: IndexHash, r: nat): (layers: seq<Layer>)
    requires r < WK
    ensures |layers| == r + 1
  {
    if r == 0 then [LayerAt(H, 0)] else LayersTo(H, r - 1) + [LayerAt(H, r)]
  }

  lemma {:induction false} LayersToAt(H: IndexHash, r: nat, k: nat)
    requires k <= r < WK
    ensures LayersTo(H, r)[k] == LayerAt(H, k)
  {
    hide LayerAt;
    if k == r {
    } else {
      LayersToAt(H, r - 1, k);
    }
  }

  lemma LayerStep(H: IndexHash, r: nat)
    requires 1 <= r < WK
    ensures IsPairList(H, r - 1, LayerAt(H, r - 1), Pairs(H, r - 1, LayerAt(H, r - 1)))
    ensures LayerAt(H, r) == Absorb(H, r, LayerAt(H, r - 1), Pairs(H, r - 1, LayerAt(H, r - 1))).layer
  {
    hide Collides;
    hide Absorb;
    hide LeafLayer;
    hide Pairs;
    PairsExact(H, r - 1, LayerAt(H, r - 1));
  }

  /** The single-threaded order of visits makes a run. */
  lemma SequentialRun(H: IndexHash, n: nat)
    requires n < WK
    ensures IsRun(H, LayersTo(H, n))
  {
    hide LayerOK;
    hide NoTwins;
    hide HoldsLeaves;
    hide LayerAt;
    hide LayersTo;
    hide IsPairList;
    hide Absorb;
    hide Pairs;
    var layers := LayersTo(H, n);
    LayersToAt(H, n, 0);
    FirstOfRun(H);
    forall r | 1 <= r < |layers|
      ensures Follows(H, layers, r)
    {
      LayersToAt(H, n, r - 1);
      LayersToAt(H, n, r);
      LayerStep(H, r);
    }
  }

  lemma FirstOfRun(H: IndexHash)
    ensures FirstLayer(H, LayerAt(H, 0))
  {
    hide LeafLayer;
    LeafLayerOK(H, NHASHES);
  }

  lemma PairsExact(H: IndexHash, r: nat, L: Layer)
    requires r <= WK
    ensures forall p :: p in Pairs(H, r, L) <==> Collides(H, r, L, p)
    ensures Distinct(Pairs(H, r, L))
  {
    hide PairsBelow;
    PairsBelowExact(H, r, L, |L|);
  }

  // ---------- which trees survive ----------

  lemma StoredAt(H: IndexHash, L: Layer, r: nat, t: Tree) returns (c: nat, i: nat)
    requires r < WK && LayerOK(H, L, r) && Stored(L, t)
    ensures c == BucketOf(TreeXor(H, t), r) && c < |L| && i < |Live(L[c])|
    ensures Canon(Live(L[c])[i]) == Canon(t) && TreeXor(H, Live(L[c])[i]) == TreeXor(H, t)
  {
    hide Canon;
    hide TreeXor;
    hide BucketOf;
    hide HasPrefixes;
    c, i :| 0 <= c < |L| && 0 <= i < |L[c]| && i < NSLOTS && Canon(L[c][i]) == Canon(t);
    assert TreeOK(H, L[c][i], r, c);
    CanonXor(H, L[c][i]);
    CanonXor(H, t);
  }

  /** Two stored trees whose node is a Wagner tree one level up sit in colliding slots. */
  lemma PairExists(H: IndexHash, L: Layer, r: nat, a: Tree, b: Tree) returns (p: Pair)
    requires r < WK && LayerOK(H, L, r) && Stored(L, a) && Stored(L, b)
    requires HasPrefixes(H, Node(a, b), r + 1) && Distinct(Leaves(a) + Leaves(b))
    ensures Collides(H, r, L, p) && Canon(PairTree(L, p)) == Canon(Node(a, b))
  {
    hide Canon;
    hide TreeXor;
    hide BucketOf;
    hide RestOf;
    hide LayerOK;
    hide Stored;
    hide HasPrefixes;
    hide Distinct;
    PrefixesOfNode(H, a, b, r + 1);
    PrefixOf(H, a, r);
    PrefixOf(H, b, r);
    DigitCancels(TreeXor(H, a), TreeXor(H, b), r);
    var c, i := StoredAt(H, L, r, a);
    var d, j := StoredAt(H, L, r, b);
    FirstsDiffer(a, b);
    CanonSwap(a, b);
    assert i != j;
    if i < j {
      p := Pair(c, i, j);
      SameCanonNode(Live(L[c])[i], Live(L[c])[j], a, b);
    } else {
      p := Pair(c, j, i);
      SameCanonNode(Live(L[c])[j], Live(L[c])[i], b, a);
    }
  }

  lemma SameCanonNode(a: Tree, b: Tree, c: Tree, d: Tree)
    requires Canon(a) == Canon(c) && Canon(b) == Canon(d)
    ensures Canon(Node(a, b)) == Canon(Node(c, d))
  {
    hide *;
    CanonNode(a, b);
    CanonNode(c, d);
  }

  lemma PairParts(L: Layer, p: Pair, a: Tree, b: Tree)
    requires InRange(L, p) && Canon(PairTree(L, p)) == Canon(Node(a, b))
    ensures Stored(L, a) && Stored(L, b)
  {
    hide Canon;
    var x, y := Live(L[p.b])[p.s0], Live(L[p.b])[p.s1];
    CanonNodeInjective(x, y, a, b);
    assert x == L[p.b][p.s0] && y == L[p.b][p.s1];
  }

  /** Rejection does not depend on the order of siblings. */
  lemma RejectedCanon(H: IndexHash, s: Tree, t: Tree)
    requires s.Node? && t.Node? && Canon(s) == Canon(t)
    ensures Rejected(H, s) <==> Rejected(H, t)
  {
    hide Canon;
    CanonNodeInjective(s.left, s.right, t.left, t.right);
    CanonXor(H, s.left);
    CanonXor(H, s.right);
    CanonXor(H, t.left);
    CanonXor(H, t.right);
  }

  /**
    A tree of height r > 0 arrives exactly when both halves were stored and the
    last 32 bits of its xor are not all zero.
  */
  lemma ArrivesExactly(H: IndexHash, layers: seq<Layer>, a: Tree, b: Tree, r: nat)
    requires IsRun(H, layers) && 1 <= r < |layers|
    requires HasPrefixes(H, Node(a, b), r) && Distinct(Leaves(a) + Leaves(b))
    ensures Arrived(layers[r], Node(a, b)) <==>
            Stored(layers[r - 1], a) && Stored(layers[r - 1], b) && Field(TreeXor(H, Node(a, b)), 184, 32) != 0
  {
    hide *;
    RejectedExact(H, Node(a, b));
    RunBounds(H, layers, r);
    LayersOK(H, layers, r - 1);
    var ps := RunStep(H, layers, r);
    if Stored(layers[r - 1], a) && Stored(layers[r - 1], b) && !Rejected(H, Node(a, b)) {
      ArrivesIf(H, layers[r - 1], ps, a, b, r);
    }
    if Arrived(layers[r], Node(a, b)) {
      ArrivesOnlyIf(H, layers[r - 1], ps, a, b, r);
    }
  }

  lemma RunBounds(H: IndexHash, layers: seq<Layer>, r: nat)
    requires IsRun(H, layers) && r < |layers|
    ensures r < WK
  {
  }

  lemma RunStep(H: IndexHash, layers: seq<Layer>, r: nat) returns (ps: seq<Pair>)
    requires IsRun(H, layers) && 1 <= r < |layers|
    ensures r < WK && IsPairList(H, r - 1, layers[r - 1], ps)
    ensures layers[r] == Absorb(H, r, layers[r - 1], ps).layer
  {
    hide FirstLayer;
    hide Collides;
    hide Distinct;
    hide Absorb;
    assert Follows(H, layers, r);
    ps :| IsPairList(H, r - 1, layers[r - 1], ps) && layers[r] == Absorb(H, r, layers[r - 1], ps).layer;
  }

  lemma ArrivesIf(H: IndexHash, L: Layer, ps: seq<Pair>, a: Tree, b: Tree, r: nat)
    requires 1 <= r < WK && HasPrefixes(H, Node(a, b), r) && Distinct(Leaves(a) + Leaves(b))
    requires LayerOK(H, L, r - 1) && IsPairList(H, r - 1, L, ps)
    requires Stored(L, a) && Stored(L, b) && !Rejected(H, Node(a, b))
    ensures Arrived(Absorb(H, r, L, ps).layer, Node(a, b))
  {
    hide Canon;
    hide HasPrefixes;
    hide Distinct;
    hide Rejected;
    hide LayerOK;
    hide Stored;
    hide RestOf;
    hide Absorb;
    hide TreeXor;
    var p := PairExists(H, L, r - 1, a, b);
    RejectedCanon(H, PairTree(L, p), Node(a, b));
    AbsorbAll(H, r, L, ps, p);
  }

  lemma ArrivesOnlyIf(H: IndexHash, L: Layer, ps: seq<Pair>, a: Tree, b: Tree, r: nat)
    requires 1 <= r < WK
    requires LayerOK(H, L, r - 1) && IsPairList(H, r - 1, L, ps)
    requires Arrived(Absorb(H, r, L, ps).layer, Node(a, b))
    ensures Stored(L, a) && Stored(L, b) && !Rejected(H, Node(a, b))
  {
    hide Canon;
    hide Rejected;
    hide LayerOK;
    hide Stored;
    hide RestOf;
    hide Absorb;
    hide TreeXor;
    var out := Absorb(H, r, L, ps).layer;
    AbsorbSound(H, r, L, ps);
    var c, i :| 0 <= c < |out| && 0 <= i < |out[c]| && Canon(out[c][i]) == Canon(Node(a, b));
    var k :| 0 <= k < |ps| && out[c][i] == PairTree(L, ps[k]) && !Rejected(H, out[c][i]);
    assert ps[k] in ps;
    PairParts(L, ps[k], a, b);
    RejectedCanon(H, out[c][i], Node(a, b));
  }

  /** Neither this tree nor any subtree of it was rejected or came too late for its bucket. */
  ghost predicate Survives(H: IndexHash, layers: seq<Layer>, t: Tree, r: nat)
    requires r < |layers|
  {
    && !Overflowed(layers[r], t) && !Rejected(H, t)
    && (t.Node? ==> r > 0 && Survives(H, layers, t.left, r - 1) && Survives(H, layers, t.right, r - 1))
  }

  /**
    A Wagner tree is stored in its layer exactly when none of its subtrees was
    dropped: no bucket was full when it came, and no node of it has the last 32
    bits of its xor all zero.
  */
  lemma {:induction false} StoredExactly(H: IndexHash, layers: seq<Layer>, t: Tree, r: nat)
    requires IsRun(H, layers) && r < |layers|
    requires r < WK && HasPrefixes(H, t, r) && Distinct(Leaves(t)) && Below(t)
    ensures Stored(layers[r], t) <==> Survives(H, layers, t, r)
    ensures t.Leaf? ==> (Stored(layers[r], t) <==> !Overflowed(layers[r], t))
    ensures t.Node? ==> r > 0
    ensures t.Node? ==>
              (Stored(layers[r], t) <==>
                && !Overflowed(layers[r], t) && Field(TreeXor(H, t), 184, 32) != 0
                && Stored(layers[r - 1], t.left) && Stored(layers[r - 1], t.right))
  {
    hide HasPrefixes;
    hide Field;
    hide TreeXor;
    hide SameLastWord;
    hide Overflowed;
    hide Stored;
    hide Arrived;
    hide NoTwins;
    hide LayerOK;
    hide Distinct;
    hide IsRun;
    LayersOK(H, layers, r);
    StoredOrOverflowed(layers[r], t);
    PrefixesPerfect(H, t, r);
    match t
    case Leaf(i) =>
      LeafArrives(H, layers, i);
    case Node(a, b) =>
      DistinctParts(Leaves(a), Leaves(b));
      PrefixesOfNode(H, a, b, r);
      StoredExactly(H, layers, a, r - 1);
      StoredExactly(H, layers, b, r - 1);
      ArrivesExactly(H, layers, a, b, r);
      RejectedExact(H, t);
  }

  lemma LeafArrives(H: IndexHash, layers: seq<Layer>, i: nat)
    requires IsRun(H, layers) && i < NHASHES
    ensures Arrived(layers[0], Leaf(i))
  {
    hide LayerOK;
    hide NoTwins;
    hide Follows;
  }
}
