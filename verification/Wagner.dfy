/**
  Wagner's conditions on a proof, stated twice: over the binary tree whose leaves
  are the indices, and directly over the list of indices.
*/
module Wagner {
  import opened Arith
  import opened HashBits

  const WK: nat := 9
  const PROOFSIZE: nat := 512
  const NHASHES: nat := 0x40_0000

  datatype Tree = Leaf(idx: nat) | Node(left: Tree, right: Tree)

  function Leaves(t: Tree): (s: seq<nat>)
    ensures |s| > 0
  {
    match t
    case Leaf(i) => [i]
    case Node(a, b) => Leaves(a) + Leaves(b)
  }

  /** The leftmost leaf. */
  function First(t: Tree): (f: nat)
    ensures f == Leaves(t)[0]
  {
    match t
    case Leaf(i) => i
    case Node(a, b) => First(a)
  }

  /** Every leaf is at depth r. */
  predicate Perfect(t: Tree, r: nat)
  {
    match t
    case Leaf(_) => r == 0
    case Node(a, b) => r > 0 && Perfect(a, r - 1) && Perfect(b, r - 1)
  }

  function TreeXor(H: IndexHash, t: Tree): Hash
  {
    match t
    case Leaf(i) => H(i)
    case Node(a, b) => XorHash(TreeXor(H, a), TreeXor(H, b))
  }

  predicate Distinct<T(==)>(s: seq<T>)
  {
    forall i, j :: 0 <= i < j < |s| ==> s[i] != s[j]
  }

  /** Condition 1: the xor of a subtree of height k starts with k zero digits. */
  predicate HasPrefixes(H: IndexHash, t: Tree, r: nat)
    requires r <= WK
  {
    && ZeroPrefix(TreeXor(H, t), DIGITBITS * r)
    && match t
       case Leaf(_) => r == 0
       case Node(a, b) => r > 0 && HasPrefixes(H, a, r - 1) && HasPrefixes(H, b, r - 1)
  }

  /** Condition 2: at every node the leftmost leaf on the left is below the one on the right. */
  predicate Ordered(t: Tree)
  {
    match t
    case Leaf(_) => true
    case Node(a, b) => First(a) < First(b) && Ordered(a) && Ordered(b)
  }

  /** A tree of height r that meets both conditions and repeats no index. */
  predicate WagnerTree(H: IndexHash, t: Tree, r: nat)
    requires r <= WK
  {
    Distinct(Leaves(t)) && Ordered(t) && HasPrefixes(H, t, r)
  }

  // ---------- the canonical order of a tree ----------

  /** The two halves, the one with the smaller leftmost leaf first; equal halves stay put. */
  function Arrange(a: Tree, b: Tree): Tree
  {
    if First(a) > First(b) then Node(b, a) else Node(a, b)
  }

  /** The tree with the children of every node put in order, bottom up. */
  function Canon(t: Tree): Tree
  {
    match t
    case Leaf(_) => t
    case Node(a, b) => Arrange(Canon(a), Canon(b))
  }

  lemma {:induction false} CanonLeaves(t: Tree)
    ensures multiset(Leaves(Canon(t))) == multiset(Leaves(t))
  {
    match t
    case Leaf(_) =>
    case Node(a, b) =>
      CanonLeaves(a);
      CanonLeaves(b);
  }

  lemma {:induction false} CanonXor(H: IndexHash, t: Tree)
    ensures TreeXor(H, Canon(t)) == TreeXor(H, t)
  {
    match t
    case Leaf(_) =>
    case Node(a, b) =>
      CanonXor(H, a);
      CanonXor(H, b);
      XorHashComm(TreeXor(H, a), TreeXor(H, b));
  }

  lemma {:induction false} CanonPerfect(t: Tree, r: nat)
    ensures Perfect(Canon(t), r) <==> Perfect(t, r)
  {
    match t
    case Leaf(_) =>
    case Node(a, b) =>
      if r > 0 {
        CanonPerfect(a, r - 1);
        CanonPerfect(b, r - 1);
      }
  }

  lemma {:induction false} CanonPrefixes(H: IndexHash, t: Tree, r: nat)
    requires r <= WK
    ensures HasPrefixes(H, Canon(t), r) <==> HasPrefixes(H, t, r)
  {
    CanonXor(H, t);
    match t
    case Leaf(_) =>
    case Node(a, b) =>
      if r > 0 {
        CanonPrefixes(H, a, r - 1);
        CanonPrefixes(H, b, r - 1);
      }
  }

  lemma {:induction false} PrefixesPerfect(H: IndexHash, t: Tree, r: nat)
    requires r <= WK && HasPrefixes(H, t, r)
    ensures Perfect(t, r)
  {
    match t
    case Leaf(_) =>
    case Node(a, b) =>
      PrefixesPerfect(H, a, r - 1);
      PrefixesPerfect(H, b, r - 1);
  }

  lemma DistinctParts(x: seq<nat>, y: seq<nat>)
    requires Distinct(x + y)
    ensures Distinct(x) && Distinct(y)
    ensures forall i, j :: 0 <= i < |x| && 0 <= j < |y| ==> x[i] != y[j]
  {
    var s := x + y;
    assert forall i :: 0 <= i < |x| ==> s[i] == x[i];
    assert forall j :: 0 <= j < |y| ==> s[|x| + j] == y[j];
  }

  /** Distinctness is a property of the multiset of entries. */
  lemma DistinctMultiset(s: seq<nat>)
    ensures Distinct(s) <==> forall x :: multiset(s)[x] <= 1
  {
    if Distinct(s) {
      forall x
        ensures multiset(s)[x] <= 1
      {
        DistinctCount(s, x);
      }
    } else {
      var i, j :| 0 <= i < j < |s| && s[i] == s[j];
      assert s == s[..i] + [s[i]] + s[i + 1..j] + [s[j]] + s[j + 1..];
      assert multiset(s)[s[i]] >= 2;
    }
  }

  lemma {:induction false} DistinctCount(s: seq<nat>, x: nat)
    requires Distinct(s)
    ensures multiset(s)[x] <= 1
  {
    if s == [] {
    } else {
      assert s == [s[0]] + s[1..];
      assert Distinct(s[1..]) by {
        assert forall i :: 0 <= i < |s[1..]| ==> s[1..][i] == s[i + 1];
      }
      DistinctCount(s[1..], x);
      assert s[0] !in s[1..];
    }
  }

  lemma CanonDistinct(t: Tree)
    ensures Distinct(Leaves(Canon(t))) <==> Distinct(Leaves(t))
  {
    CanonLeaves(t);
    DistinctMultiset(Leaves(t));
    DistinctMultiset(Leaves(Canon(t)));
  }

  lemma FirstsDiffer(a: Tree, b: Tree)
    requires Distinct(Leaves(a) + Leaves(b))
    ensures First(Canon(a)) != First(Canon(b))
  {
    CanonLeaves(a);
    CanonLeaves(b);
    assert First(Canon(a)) in multiset(Leaves(a)) && First(Canon(b)) in multiset(Leaves(b));
    DistinctParts(Leaves(a), Leaves(b));
  }

  /** Ordering a tree without repeated leaves meets condition 2 at every node. */
  lemma {:induction false} CanonOrdered(t: Tree)
    requires Distinct(Leaves(t))
    ensures Ordered(Canon(t))
  {
    match t
    case Leaf(_) =>
    case Node(a, b) =>
      DistinctParts(Leaves(a), Leaves(b));
      CanonOrdered(a);
      CanonOrdered(b);
      FirstsDiffer(a, b);
  }

  lemma {:induction false} CanonFixed(t: Tree)
    requires Ordered(t)
    ensures Canon(t) == t
  {
    match t
    case Leaf(_) =>
    case Node(a, b) =>
      CanonFixed(a);
      CanonFixed(b);
  }

  lemma CanonSwap(a: Tree, b: Tree)
    requires Distinct(Leaves(a) + Leaves(b))
    ensures Canon(Node(a, b)) == Canon(Node(b, a))
  {
    FirstsDiffer(a, b);
  }

  /** Two nodes order to the same tree only when their children do, in one of the two orders. */
  lemma {:induction false} CanonNodeInjective(a: Tree, b: Tree, c: Tree, d: Tree)
    requires Canon(Node(a, b)) == Canon(Node(c, d))
    ensures || (Canon(a) == Canon(c) && Canon(b) == Canon(d))
            || (Canon(a) == Canon(d) && Canon(b) == Canon(c))
  {
    hide *;
    CanonNode(a, b);
    CanonNode(c, d);
    ArrangeInjective(Canon(a), Canon(b), Canon(c), Canon(d));
  }

  lemma CanonNode(a: Tree, b: Tree)
    ensures Canon(Node(a, b)) == Arrange(Canon(a), Canon(b))
  {
  }

  lemma ArrangeInjective(a: Tree, b: Tree, c: Tree, d: Tree)
    requires Arrange(a, b) == Arrange(c, d)
    ensures (a == c && b == d) || (a == d && b == c)
  {
    hide First;
  }

  // ---------- trees and index lists ----------

  lemma {:induction false} LeavesLength(t: Tree, r: nat)
    requires Perfect(t, r)
    ensures |Leaves(t)| == Pow2(r)
  {
    match t
    case Leaf(_) =>
    case Node(a, b) =>
      LeavesLength(a, r - 1);
      LeavesLength(b, r - 1);
  }

  function TreeOf(s: seq<nat>, r: nat): (t: Tree)
    requires |s| == Pow2(r)
    ensures Leaves(t) == s && Perfect(t, r)
    decreases r
  {
    if r == 0 then
      Leaf(s[0])
    else
      var half := Pow2(r - 1);
      assert s == s[..half] + s[half..];
      Node(TreeOf(s[..half], r - 1), TreeOf(s[half..], r - 1))
  }

  lemma {:induction false} TreeOfLeaves(t: Tree, r: nat)
    requires Perfect(t, r) && |Leaves(t)| == Pow2(r)
    ensures TreeOf(Leaves(t), r) == t
  {
    match t
    case Leaf(_) =>
    case Node(a, b) =>
      LeavesLength(a, r - 1);
      LeavesLength(b, r - 1);
      TreeOfLeaves(a, r - 1);
      TreeOfLeaves(b, r - 1);
      assert Leaves(t)[..Pow2(r - 1)] == Leaves(a) && Leaves(t)[Pow2(r - 1)..] == Leaves(b);
  }

  /** A perfect tree of a given height is determined by the list of its leaves. */
  lemma SameLeaves(s: Tree, t: Tree, r: nat)
    requires Perfect(s, r) && Perfect(t, r) && Leaves(s) == Leaves(t)
    ensures s == t
  {
    hide *;
    LeavesLength(s, r);
    TreeOfLeaves(s, r);
    TreeOfLeaves(t, r);
  }

  /** The xor of the hashes of a list of indices. */
  function FoldXor(H: IndexHash, s: seq<nat>): Hash
  {
    if s == [] then ZERO_HASH else XorHash(H(s[0]), FoldXor(H, s[1..]))
  }

  lemma {:induction false} FoldXorConcat(H: IndexHash, x: seq<nat>, y: seq<nat>)
    ensures FoldXor(H, x + y) == XorHash(FoldXor(H, x), FoldXor(H, y))
  {
    if x == [] {
      assert x + y == y;
      XorHashIdentity(FoldXor(H, y));
    } else {
      assert (x + y)[1..] == x[1..] + y;
      FoldXorConcat(H, x[1..], y);
      XorHashAssoc(H(x[0]), FoldXor(H, x[1..]), FoldXor(H, y));
    }
  }

  lemma {:induction false} TreeXorFold(H: IndexHash, t: Tree)
    ensures TreeXor(H, t) == FoldXor(H, Leaves(t))
  {
    match t
    case Leaf(i) =>
      XorHashIdentity(H(i));
      XorHashComm(ZERO_HASH, H(i));
      assert FoldXor(H, [i]) == XorHash(H(i), FoldXor(H, [i][1..]));
    case Node(a, b) =>
      TreeXorFold(H, a);
      TreeXorFold(H, b);
      FoldXorConcat(H, Leaves(a), Leaves(b));
  }

  /** The two conditions for the block of 2^k consecutive indices that starts at lo. */
  ghost predicate BlockOK(H: IndexHash, s: seq<nat>, lo: nat, k: nat)
    requires 1 <= k <= WK && lo + Pow2(k) <= |s|
  {
    && s[lo] < s[lo + Pow2(k - 1)]
    && ZeroPrefix(FoldXor(H, s[lo..lo + Pow2(k)]), DIGITBITS * k)
  }

  /** Whether lo is the start of an aligned block of 2^k entries within n entries. */
  predicate Aligned(lo: nat, k: nat, n: nat)
  {
    lo % Pow2(k) == 0 && lo + Pow2(k) <= n
  }

  ghost predicate AllBlocksOK(H: IndexHash, s: seq<nat>, r: nat)
    requires r <= WK
  {
    forall k, lo :: 1 <= k <= r && 0 <= lo && Aligned(lo, k, |s|) ==> BlockOK(H, s, lo, k)
  }

  /** A list of 512 different indices that meets both conditions on every aligned block. */
  ghost predicate WagnerProof(H: IndexHash, s: seq<nat>)
  {
    |s| == PROOFSIZE && Distinct(s) && AllBlocksOK(H, s, WK)
  }

  lemma {:induction false} BlocksAreNodes(H: IndexHash, s: seq<nat>, r: nat)
    requires r <= WK && |s| == Pow2(r)
    ensures AllBlocksOK(H, s, r) <==> Ordered(TreeOf(s, r)) && HasPrefixes(H, TreeOf(s, r), r)
    decreases r
  {
    var t := TreeOf(s, r);
    TreeXorFold(H, t);
    if r == 0 {
      assert ZeroPrefix(TreeXor(H, t), 0);
    } else {
      var half := Pow2(r - 1);
      var x, y := s[..half], s[half..];
      BlocksAreNodes(H, x, r - 1);
      BlocksAreNodes(H, y, r - 1);
      assert s[0..0 + Pow2(r)] == s;
      SplitBlocks(H, s, r);
    }
  }

  /** The blocks of s are s itself and the blocks of its two halves. */
  lemma SplitBlocks(H: IndexHash, s: seq<nat>, r: nat)
    requires 1 <= r <= WK && |s| == Pow2(r)
    ensures AllBlocksOK(H, s, r) <==>
            && BlockOK(H, s, 0, r)
            && AllBlocksOK(H, s[..Pow2(r - 1)], r - 1)
            && AllBlocksOK(H, s[Pow2(r - 1)..], r - 1)
  {
    if AllBlocksOK(H, s, r) {
      HalvesOK(H, s, r);
    }
    if BlockOK(H, s, 0, r) && AllBlocksOK(H, s[..Pow2(r - 1)], r - 1) && AllBlocksOK(H, s[Pow2(r - 1)..], r - 1) {
      forall k, lo | 1 <= k <= r && 0 <= lo && Aligned(lo, k, |s|)
        ensures BlockOK(H, s, lo, k)
      {
        BlockFromHalves(H, s, r, k, lo);
      }
    }
  }

  lemma HalvesOK(H: IndexHash, s: seq<nat>, r: nat)
    requires 1 <= r <= WK && |s| == Pow2(r) && AllBlocksOK(H, s, r)
    ensures BlockOK(H, s, 0, r)
    ensures AllBlocksOK(H, s[..Pow2(r - 1)], r - 1) && AllBlocksOK(H, s[Pow2(r - 1)..], r - 1)
  {
    hide BlockOK;
    assert Aligned(0, r, |s|);
    var half := Pow2(r - 1);
    assert s[..half] == s[0..half] && s[half..] == s[half..|s|];
    forall k, lo | 1 <= k <= r - 1 && 0 <= lo && Aligned(lo, k, |s[..half]|)
      ensures BlockOK(H, s[..half], lo, k)
    {
      assert Aligned(lo, k, |s|);
      BlockWithin(H, s, 0, half, lo, k);
    }
    forall k, lo | 1 <= k <= r - 1 && 0 <= lo && Aligned(lo, k, |s[half..]|)
      ensures BlockOK(H, s[half..], lo, k)
    {
      ShiftAligned(half, lo, k, r - 1);
      assert Aligned(half + lo, k, |s|);
      BlockWithin(H, s, half, |s|, lo, k);
    }
  }

  lemma BlockFromHalves(H: IndexHash, s: seq<nat>, r: nat, k: nat, lo: nat)
    requires 1 <= k <= r <= WK && |s| == Pow2(r) && lo % Pow2(k) == 0 && lo + Pow2(k) <= |s|
    requires BlockOK(H, s, 0, r)
    requires AllBlocksOK(H, s[..Pow2(r - 1)], r - 1) && AllBlocksOK(H, s[Pow2(r - 1)..], r - 1)
    ensures BlockOK(H, s, lo, k)
  {
    hide BlockOK;
    hide AllBlocksOK;
    if k == r {
      AlignedWhole(lo, r);
    } else {
      hide Pow2;
      DoublePow(r);
      if lo < Pow2(r - 1) {
        BlockFromLower(H, s, Pow2(r - 1), r - 1, k, lo);
      } else {
        BlockFromUpper(H, s, Pow2(r - 1), r - 1, k, lo - Pow2(r - 1));
      }
    }
  }

  lemma DoublePow(r: nat)
    requires r > 0
    ensures Pow2(r) == 2 * Pow2(r - 1)
  {
  }

  lemma BlockFromLower(H: IndexHash, s: seq<nat>, half: nat, j: nat, k: nat, lo: nat)
    requires 1 <= k <= j < WK && half == Pow2(j) <= |s| && lo < half && lo % Pow2(k) == 0 && lo + Pow2(k) <= |s|
    requires AllBlocksOK(H, s[..half], j)
    ensures BlockOK(H, s, lo, k)
  {
    hide *;
    AlignedBelow(lo, half, k, j);
    BlockOfAll(H, s[..half], j, lo, k);
    BlockWithin(H, s, 0, half, lo, k);
    assert s[..half] == s[0..half];
  }

  lemma BlockFromUpper(H: IndexHash, s: seq<nat>, half: nat, j: nat, k: nat, lo: nat)
    requires 1 <= k <= j < WK && half == Pow2(j) <= |s| && half + lo + Pow2(k) <= |s| && (half + lo) % Pow2(k) == 0
    requires AllBlocksOK(H, s[half..], j)
    ensures BlockOK(H, s, half + lo, k)
  {
    hide *;
    ShiftAligned(half, lo, k, j);
    BlockOfAll(H, s[half..], j, lo, k);
    BlockWithin(H, s, half, |s|, lo, k);
    assert s[half..] == s[half..|s|];
  }

  lemma BlockOfAll(H: IndexHash, s: seq<nat>, r: nat, lo: nat, k: nat)
    requires 1 <= k <= r <= WK && AllBlocksOK(H, s, r) && lo % Pow2(k) == 0 && lo + Pow2(k) <= |s|
    ensures BlockOK(H, s, lo, k)
  {
    hide BlockOK;
    assert Aligned(lo, k, |s|);
  }

  /** A block condition speaks only of the entries of that block. */
  lemma BlockWithin(H: IndexHash, s: seq<nat>, from: nat, to: nat, lo: nat, k: nat)
    requires 1 <= k <= WK && from <= to <= |s| && from + lo + Pow2(k) <= to
    ensures BlockOK(H, s[from..to], lo, k) <==> BlockOK(H, s, from + lo, k)
  {
    hide FoldXor;
    hide ZeroPrefix;
    DoublePow(k);
    hide Pow2;
    SliceSlice(s, from, to, lo, lo + Pow2(k));
    assert s[from..to][lo] == s[from + lo] && s[from..to][lo + Pow2(k - 1)] == s[from + lo + Pow2(k - 1)];
    assert FoldXor(H, s[from..to][lo..lo + Pow2(k)]) == FoldXor(H, s[from + lo..from + lo + Pow2(k)]);
  }

  lemma SliceSlice(s: seq<nat>, from: nat, to: nat, lo: nat, hi: nat)
    requires from <= to <= |s| && lo <= hi && from + hi <= to
    ensures s[from..to][lo..hi] == s[from + lo..from + hi]
  {
    forall i | 0 <= i < hi - lo
      ensures s[from..to][lo..hi][i] == s[from + lo..from + hi][i]
    {
      assert s[from..to][lo + i] == s[from + (lo + i)];
    }
  }

  lemma AlignedWhole(lo: nat, r: nat)
    requires Aligned(lo, r, Pow2(r))
    ensures lo == 0
  {
  }

  /** Adding 2^j leaves the alignment to a smaller power of two as it is. */
  lemma ShiftAligned(p: nat, lo: nat, k: nat, j: nat)
    requires k <= j && p == Pow2(j)
    ensures (p + lo) % Pow2(k) == 0 <==> lo % Pow2(k) == 0
  {
    Pow2Add(k, j - k);
    ModShift(Pow2(k), Pow2(j - k), lo);
  }

  /** An aligned block that starts below 2^j ends at or below it. */
  lemma AlignedBelow(lo: nat, p: nat, k: nat, j: nat)
    requires k <= j && p == Pow2(j) && lo < p && lo % Pow2(k) == 0
    ensures lo + Pow2(k) <= p
  {
    Pow2Add(k, j - k);
    var d, m := Pow2(k), Pow2(j - k);
    DivMod(lo, d);
    if lo / d + 1 > m {
      MulMono(d, m, lo / d);
    }
    MulMono(d, lo / d + 1, m);
    MulDist(d, lo / d, 1);
  }

  /** The leaves of a tree of height 9 form a proof exactly when it is a Wagner tree. */
  lemma ProofIsTree(H: IndexHash, t: Tree)
    requires Perfect(t, WK)
    ensures WagnerProof(H, Leaves(t)) <==> WagnerTree(H, t, WK)
  {
    hide AllBlocksOK;
    hide HasPrefixes;
    hide Ordered;
    hide TreeOf;
    hide Leaves;
    hide Perfect;
    Pow2Table();
    LeavesLength(t, WK);
    TreeOfLeaves(t, WK);
    BlocksAreNodes(H, Leaves(t), WK);
  }
}
