/**
  The proofs found by the final round: sound, without repeats, and complete up to
  the trees that the rounds dropped.
*/
module ProofTheorems {
  import opened Arith
  import opened HashBits
  import opened Wagner
  import opened Layers
  import opened SolverTheorems

  const LAST: nat := 8

  predicate AllBelow(s: seq<nat>)
  {
    forall i :: 0 <= i < |s| ==> s[i] < NHASHES
  }

  /** A proof over the solver's indices whose 210-bit xor is zero throughout. */
  ghost predicate FullProof(H: IndexHash, s: seq<nat>)
  {
    && WagnerProof(H, s)
    && ZeroPrefix(FoldXor(H, s), DIGITBITS * 10)
    && AllBelow(s)
  }

  /** The same, read as a tree. */
  ghost predicate FullTree(H: IndexHash, t: Tree)
  {
    HasPrefixes(H, t, WK) && Below(t) && Distinct(Leaves(t)) && ZeroPrefix(TreeXor(H, t), DIGITBITS * 10)
  }

  lemma {:induction false} BelowLeaves(t: Tree)
    ensures Below(t) <==> AllBelow(Leaves(t))
  {
    match t
    case Leaf(i) =>
      assert Leaves(t)[0] == i;
    case Node(a, b) =>
      BelowLeaves(a);
      BelowLeaves(b);
      BelowConcat(Leaves(a), Leaves(b));
  }

  lemma BelowConcat(x: seq<nat>, y: seq<nat>)
    ensures AllBelow(x + y) <==> AllBelow(x) && AllBelow(y)
  {
    assert forall i :: 0 <= i < |x| ==> (x + y)[i] == x[i];
    assert forall i :: 0 <= i < |y| ==> (x + y)[|x| + i] == y[i];
  }

  lemma {:induction false} CanonBelow(t: Tree)
    ensures Below(Canon(t)) <==> Below(t)
  {
    match t
    case Leaf(_) =>
    case Node(a, b) =>
      CanonBelow(a);
      CanonBelow(b);
  }

  /** The leaves of a tree of height 9 are a full proof exactly when it is full and ordered. */
  lemma FullProofTree(H: IndexHash, t: Tree)
    requires Perfect(t, WK)
    ensures FullProof(H, Leaves(t)) <==> FullTree(H, t) && Ordered(t)
  {
    hide WagnerProof;
    hide HasPrefixes;
    hide Below;
    hide Distinct;
    hide Ordered;
    hide ZeroPrefix;
    hide FoldXor;
    hide TreeXor;
    hide Leaves;
    hide Perfect;
    ProofIsTree(H, t);
    TreeXorFold(H, t);
    BelowLeaves(t);
  }

  lemma CanonFull(H: IndexHash, t: Tree)
    requires FullTree(H, t)
    ensures FullTree(H, Canon(t)) && Ordered(Canon(t)) && Perfect(Canon(t), WK)
  {
    hide *;
    FullTreeParts(H, t);
    FullTreeParts(H, Canon(t));
    CanonPrefixes(H, t, WK);
    CanonBelow(t);
    CanonDistinct(t);
    CanonXor(H, t);
    CanonOrdered(t);
    PrefixesPerfect(H, Canon(t), WK);
  }

  lemma FullTreeParts(H: IndexHash, t: Tree)
    ensures FullTree(H, t) <==>
            HasPrefixes(H, t, WK) && Below(t) && Distinct(Leaves(t)) && ZeroPrefix(TreeXor(H, t), DIGITBITS * 10)
  {
  }

  /** Digit 9 of a tree of height 9 cancels exactly when all 210 bits are zero. */
  lemma LastDigit(H: IndexHash, t: Tree)
    requires HasPrefixes(H, t, WK)
    ensures Accepted(H, t) <==> ZeroPrefix(TreeXor(H, t), DIGITBITS * 10) && Distinct(Leaves(t))
  {
    hide ZeroPrefix;
    hide Field;
    hide Distinct;
    PrefixOf(H, t, WK);
    ZeroPrefixExtend(TreeXor(H, t), DIGITBITS * WK, DIGITBITS);
  }

  /** Every proof found comes from an accepted pair. */
  lemma {:induction false} FoundFromPairs(H: IndexHash, L: Layer, ps: seq<Pair>, s: seq<nat>)
    requires AllInRange(L, ps) && s in Found(H, L, ps)
    ensures exists k :: 0 <= k < |ps| && Accepted(H, PairTree(L, ps[k])) && s == Leaves(Canon(PairTree(L, ps[k])))
  {
    hide Accepted;
    hide Canon;
    hide Leaves;
    var n := |ps| - 1;
    assert forall p :: p in ps[..n] ==> p in ps;
    if s in Found(H, L, ps[..n]) {
      FoundFromPairs(H, L, ps[..n], s);
      var k :| 0 <= k < n && Accepted(H, PairTree(L, ps[..n][k])) && s == Leaves(Canon(PairTree(L, ps[..n][k])));
      assert ps[..n][k] == ps[k];
    } else {
      assert ps[n] in ps;
    }
  }

  /** Every accepted pair is found. */
  lemma {:induction false} FoundAll(H: IndexHash, L: Layer, ps: seq<Pair>, p: Pair)
    requires AllInRange(L, ps) && p in ps && Accepted(H, PairTree(L, p))
    ensures Leaves(Canon(PairTree(L, p))) in Found(H, L, ps)
  {
    hide Accepted;
    hide Canon;
    hide Leaves;
    var n := |ps| - 1;
    assert forall q :: q in ps[..n] ==> q in ps;
    if p == ps[n] {
    } else {
      assert p in ps[..n];
      FoundAll(H, L, ps[..n], p);
    }
  }

  lemma PairFull(H: IndexHash, L: Layer, p: Pair)
    requires LayerOK(H, L, LAST) && Collides(H, LAST, L, p) && Accepted(H, PairTree(L, p))
    ensures FullTree(H, PairTree(L, p))
  {
    hide LayerOK;
    hide Collides;
    hide HasPrefixes;
    hide Below;
    hide Accepted;
    CollidesInRange(H, L, p);
    PairTreeOK(H, WK, L, p);
    LastDigit(H, PairTree(L, p));
  }

  /** A complete run, and the proofs its last round finds by visiting the colliding pairs in some order. */
  ghost predicate IsSearch(H: IndexHash, layers: seq<Layer>, found: seq<seq<nat>>)
  {
    && IsRun(H, layers) && |layers| == WK
    && exists ps :: IsPairList(H, LAST, layers[LAST], ps) && found == Found(H, layers[LAST], ps)
  }

  lemma SearchPairs(H: IndexHash, layers: seq<Layer>, found: seq<seq<nat>>) returns (ps: seq<Pair>)
    requires IsSearch(H, layers, found)
    ensures IsRun(H, layers) && |layers| == WK && LAST < WK
    ensures IsPairList(H, LAST, layers[LAST], ps) && found == Found(H, layers[LAST], ps)
    ensures LayerOK(H, layers[LAST], LAST) && NoTwins(layers[LAST])
  {
    hide IsRun;
    hide Collides;
    hide Distinct;
    hide Found;
    hide LayerOK;
    hide NoTwins;
    ps :| IsPairList(H, LAST, layers[LAST], ps) && found == Found(H, layers[LAST], ps);
    LayersOK(H, layers, LAST);
  }

  /** The single-threaded solver makes such a search. */
  lemma SequentialSearch(H: IndexHash)
    ensures IsSearch(H, LayersTo(H, LAST), AllFound(H))
  {
    hide IsRun;
    hide LayerAt;
    hide LayersTo;
    hide Pairs;
    hide Found;
    hide Collides;
    SequentialRun(H, LAST);
    LayersToAt(H, LAST, LAST);
    PairsExact(H, LAST, LayerAt(H, LAST));
  }

  /** Every proof found is a full proof. */
  lemma SolverSound(H: IndexHash, layers: seq<Layer>, found: seq<seq<nat>>, s: seq<nat>)
    requires IsSearch(H, layers, found) && s in found
    ensures FullProof(H, s)
  {
    hide IsSearch;
    hide IsRun;
    hide Found;
    hide LayerOK;
    hide Collides;
    hide Accepted;
    hide PairTree;
    hide FullTree;
    hide FullProof;
    hide NoTwins;
    var ps := SearchPairs(H, layers, found);
    var L := layers[LAST];
    FoundFromPairs(H, L, ps, s);
    var k :| 0 <= k < |ps| && Accepted(H, PairTree(L, ps[k])) && s == Leaves(Canon(PairTree(L, ps[k])));
    assert ps[k] in ps;
    PairFull(H, L, ps[k]);
    CanonFull(H, PairTree(L, ps[k]));
    FullProofTree(H, Canon(PairTree(L, ps[k])));
  }

  /** No proof is found twice. */
  lemma {:induction false} FoundOnce(H: IndexHash, L: Layer, ps: seq<Pair>)
    requires LayerOK(H, L, LAST) && NoTwins(L) && Distinct(ps)
    requires AllInRange(L, ps) && AllCollide(H, LAST, L, ps)
    ensures Distinct(Found(H, L, ps))
  {
    if ps == [] {
    } else {
      var n := |ps| - 1;
      assert forall p :: p in ps[..n] ==> p in ps;
      assert Distinct(ps[..n]) by {
        assert forall i :: 0 <= i < n ==> ps[..n][i] == ps[i];
      }
      hide *;
      FoundOnce(H, L, ps[..n]);
      FoundStep(H, L, ps);
      if Accepted(H, PairTree(L, ps[n])) {
        NewProofDiffers(H, L, ps);
        AppendOnce(Found(H, L, ps[..n]), Leaves(Canon(PairTree(L, ps[n]))));
      }
    }
  }

  lemma FoundStep(H: IndexHash, L: Layer, ps: seq<Pair>)
    requires ps != [] && AllInRange(L, ps)
    ensures var n := |ps| - 1;
            && InRange(L, ps[n]) && AllInRange(L, ps[..n])
            && Found(H, L, ps) == if Accepted(H, PairTree(L, ps[n]))
                                  then Found(H, L, ps[..n]) + [Leaves(Canon(PairTree(L, ps[n])))]
                                  else Found(H, L, ps[..n])
  {
    hide Accepted;
    assert ps[|ps| - 1] in ps;
  }

  lemma NewProofDiffers(H: IndexHash, L: Layer, ps: seq<Pair>)
    requires LayerOK(H, L, LAST) && NoTwins(L) && Distinct(ps) && ps != []
    requires AllInRange(L, ps) && AllCollide(H, LAST, L, ps)
    ensures var n := |ps| - 1;
            && InRange(L, ps[n]) && AllInRange(L, ps[..n])
            && (Accepted(H, PairTree(L, ps[n])) ==> Leaves(Canon(PairTree(L, ps[n]))) !in Found(H, L, ps[..n]))
  {
    hide Accepted;
    hide Canon;
    hide Leaves;
    hide LayerOK;
    hide NoTwins;
    hide Collides;
    hide Found;
    hide PairTree;
    hide InRange;
    var n := |ps| - 1;
    assert ps[n] in ps;
    assert forall p :: p in ps[..n] ==> p in ps;
    var s := Leaves(Canon(PairTree(L, ps[n])));
    if Accepted(H, PairTree(L, ps[n])) && s in Found(H, L, ps[..n]) {
      FoundFromPairs(H, L, ps[..n], s);
      var k :| 0 <= k < n && Accepted(H, PairTree(L, ps[..n][k])) && s == Leaves(Canon(PairTree(L, ps[..n][k])));
      assert ps[k] in ps && ps[k] != ps[n];
      ProofsDiffer(H, L, ps[k], ps[n]);
    }
  }

  lemma ProofsDiffer(H: IndexHash, L: Layer, p: Pair, q: Pair)
    requires LayerOK(H, L, LAST) && NoTwins(L)
    requires Collides(H, LAST, L, p) && Collides(H, LAST, L, q)
    requires Accepted(H, PairTree(L, p)) && Accepted(H, PairTree(L, q))
    requires Leaves(Canon(PairTree(L, p))) == Leaves(Canon(PairTree(L, q)))
    ensures p == q
  {
    hide Accepted;
    hide Canon;
    hide LayerOK;
    hide NoTwins;
    hide Collides;
    hide FullTree;
    CollidesInRange(H, L, p);
    CollidesInRange(H, L, q);
    PairFull(H, L, p);
    PairFull(H, L, q);
    CanonFull(H, PairTree(L, p));
    CanonFull(H, PairTree(L, q));
    SameLeaves(Canon(PairTree(L, p)), Canon(PairTree(L, q)), WK);
    PairTreesDiffer(H, LAST, L, p, q);
  }

  /** The proofs of one search are pairwise different. */
  lemma SolverUnique(H: IndexHash, layers: seq<Layer>, found: seq<seq<nat>>)
    requires IsSearch(H, layers, found)
    ensures Distinct(found)
  {
    hide IsSearch;
    hide IsRun;
    hide Found;
    hide LayerOK;
    hide NoTwins;
    hide Collides;
    hide Distinct;
    var ps := SearchPairs(H, layers, found);
    FoundOnce(H, layers[LAST], ps);
  }

  /**
    A full proof, the leaves of a tree of height 9, is found exactly when neither
    half of the tree lost a subtree on the way.
  */
  lemma SolverComplete(H: IndexHash, layers: seq<Layer>, found: seq<seq<nat>>, t: Tree)
    requires IsSearch(H, layers, found) && Perfect(t, WK) && t.Node? && FullProof(H, Leaves(t))
    ensures |layers| == WK
    ensures Leaves(t) in found <==> Survives(H, layers, t.left, LAST) && Survives(H, layers, t.right, LAST)
  {
    hide IsSearch;
    hide IsRun;
    hide IsPairList;
    hide FullProof;
    hide FullTree;
    hide Survives;
    hide Leaves;
    hide Ordered;
    hide Perfect;
    hide Found;
    var ps := SearchPairs(H, layers, found);
    FullProofTree(H, t);
    CanonFixed(t);
    FullHalves(H, t);
    StoredExactly(H, layers, t.left, LAST);
    StoredExactly(H, layers, t.right, LAST);
    FoundExactly(H, layers[LAST], ps, t.left, t.right);
  }

  lemma FullHalves(H: IndexHash, t: Tree)
    requires FullTree(H, t) && t.Node?
    ensures HasPrefixes(H, t.left, LAST) && Distinct(Leaves(t.left)) && Below(t.left)
    ensures HasPrefixes(H, t.right, LAST) && Distinct(Leaves(t.right)) && Below(t.right)
  {
    hide ZeroPrefix;
    hide Distinct;
    DistinctParts(Leaves(t.left), Leaves(t.right));
  }

  /** An ordered full tree is found exactly when both halves are stored in the last layer. */
  lemma FoundExactly(H: IndexHash, L: Layer, ps: seq<Pair>, a: Tree, b: Tree)
    requires FullTree(H, Node(a, b)) && Canon(Node(a, b)) == Node(a, b)
    requires LayerOK(H, L, LAST) && IsPairList(H, LAST, L, ps)
    ensures Leaves(Node(a, b)) in Found(H, L, ps) <==> Stored(L, a) && Stored(L, b)
  {
    hide Collides;
    hide Distinct;
    hide LayerOK;
    hide FullTree;
    hide Canon;
    hide Stored;
    hide Found;
    hide Leaves;
    if Stored(L, a) && Stored(L, b) {
      FoundIf(H, L, ps, a, b);
    }
    if Leaves(Node(a, b)) in Found(H, L, ps) {
      FoundOnlyIf(H, L, ps, a, b);
    }
  }

  lemma FoundIf(H: IndexHash, L: Layer, ps: seq<Pair>, a: Tree, b: Tree)
    requires FullTree(H, Node(a, b)) && Canon(Node(a, b)) == Node(a, b)
    requires LayerOK(H, L, LAST) && IsPairList(H, LAST, L, ps) && Stored(L, a) && Stored(L, b)
    ensures Leaves(Node(a, b)) in Found(H, L, ps)
  {
    hide Canon;
    hide HasPrefixes;
    hide Below;
    hide Distinct;
    hide ZeroPrefix;
    hide LayerOK;
    hide Stored;
    hide Collides;
    hide Accepted;
    hide Found;
    hide TreeXor;
    var p := PairExists(H, L, LAST, a, b);
    CollidesInRange(H, L, p);
    AcceptedCanon(H, PairTree(L, p), Node(a, b));
    LastDigit(H, Node(a, b));
    FoundAll(H, L, ps, p);
  }

  lemma CollidesInRange(H: IndexHash, L: Layer, p: Pair)
    requires Collides(H, LAST, L, p)
    ensures InRange(L, p)
  {
  }

  lemma AcceptedCanon(H: IndexHash, s: Tree, t: Tree)
    requires Canon(s) == Canon(t)
    ensures Accepted(H, s) <==> Accepted(H, t)
  {
    hide Canon;
    hide Distinct;
    hide Field;
    CanonXor(H, s);
    CanonXor(H, t);
    CanonDistinct(s);
    CanonDistinct(t);
  }

  lemma FoundOnlyIf(H: IndexHash, L: Layer, ps: seq<Pair>, a: Tree, b: Tree)
    requires FullTree(H, Node(a, b)) && Canon(Node(a, b)) == Node(a, b)
    requires LayerOK(H, L, LAST) && IsPairList(H, LAST, L, ps)
    requires Leaves(Node(a, b)) in Found(H, L, ps)
    ensures Stored(L, a) && Stored(L, b)
  {
    hide Canon;
    hide FullTree;
    hide LayerOK;
    hide Stored;
    hide Accepted;
    hide Found;
    hide Leaves;
    FoundFromPairs(H, L, ps, Leaves(Node(a, b)));
    var k :| 0 <= k < |ps| && Accepted(H, PairTree(L, ps[k])) &&
             Leaves(Node(a, b)) == Leaves(Canon(PairTree(L, ps[k])));
    assert ps[k] in ps;
    PairFull(H, L, ps[k]);
    CanonFull(H, PairTree(L, ps[k]));
    CanonFull(H, Node(a, b));
    SameLeaves(Canon(PairTree(L, ps[k])), Node(a, b), WK);
    PairParts(L, ps[k], a, b);
  }
}
