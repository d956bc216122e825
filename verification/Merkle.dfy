/**
  The flat Merkle tree of a block: all levels, one after another, in one vector. The
  hash of a pair of nodes is a parameter.
*/
module Merkle {
  import opened Arith

  type PairHash = (nat, nat) -> nat

  function Min(a: int, b: int): (m: int)
    ensures m <= a && m <= b && (m == a || m == b)
  {
    if a < b then a else b
  }

  /** The level above: the last node of an odd level is paired with itself. */
  function Up(H: PairHash, level: seq<nat>): (up: seq<nat>)
    ensures |up| == (|level| + 1) / 2
    ensures forall k :: 0 <= k < |up| ==> up[k] == H(level[2 * k], level[Min(2 * k + 1, |level| - 1)])
  {
    seq((|level| + 1) / 2, k requires 0 <= k < (|level| + 1) / 2 => H(level[2 * k], level[Min(2 * k + 1, |level| - 1)]))
  }

  function Root(H: PairHash, level: seq<nat>): nat
    decreases |level|
  {
    if level == [] then 0 else if |level| == 1 then level[0] else Root(H, Up(H, level))
  }

  /** All levels from this one up. */
  function Tree(H: PairHash, level: seq<nat>): seq<nat>
    decreases |level|
  {
    if |level| <= 1 then level else level + Tree(H, Up(H, level))
  }

  function Levels(n: nat): nat
  {
    if n <= 1 then 0 else 1 + Levels((n + 1) / 2)
  }

  /** The last two nodes of the level are a pair of equals. */
  predicate TwinEnd(level: seq<nat>)
  {
    |level| % 2 == 0 && |level| >= 2 && level[|level| - 2] == level[|level| - 1]
  }

  predicate Mutated(H: PairHash, level: seq<nat>)
    decreases |level|
  {
    |level| > 1 && (TwinEnd(level) || Mutated(H, Up(H, level)))
  }

  /** Exclusive-or with one: the other index of the pair. */
  function Sibling(i: int): int
  {
    if i % 2 == 0 then i + 1 else i - 1
  }

  /** An index below zero has no sibling in any level; it does no harm where there is nothing to read. */
  function Branch(H: PairHash, level: seq<nat>, i: int): (branch: seq<nat>)
    requires i >= 0 || |level| <= 1
    ensures |branch| == Levels(|level|)
    decreases |level|
  {
    if |level| <= 1 then [] else [level[Min(Sibling(i), |level| - 1)]] + Branch(H, Up(H, level), i / 2)
  }

  /** The hash folded up along a branch. */
  function Fold(H: PairHash, hash: nat, branch: seq<nat>, i: int): nat
    decreases |branch|
  {
    if branch == [] then hash
    else Fold(H, if i % 2 == 1 then H(branch[0], hash) else H(hash, branch[0]), branch[1..], i / 2)
  }

  class Block {
    var vtx: seq<nat>
    var vMerkleTree: seq<nat>

    constructor (txids: seq<nat>)
      ensures vtx == txids && vMerkleTree == []
    {
      vtx := txids;
      vMerkleTree := [];
    }

    /** The tree, if it has been built, is that of the transactions. */
    ghost predicate Valid(H: PairHash)
      reads this
    {
      vMerkleTree == [] || vMerkleTree == Tree(H, vtx)
    }

    /** One pass of the inner loop: the hashes of the pairs of the level that starts at j are appended. */
    method AddLevel(H: PairHash, j: nat, nSize: nat, ghost level: seq<nat>) returns (twins: bool)
      requires 1 < nSize == |level| && |vMerkleTree| == j + nSize && vMerkleTree[j..] == level
      modifies `vMerkleTree
      ensures vMerkleTree == old(vMerkleTree) + Up(H, level) && (twins <==> TwinEnd(level))
    {
      hide Up;
      ghost var below := vMerkleTree;
      twins := false;
      var i := 0;
      while i < nSize
        invariant 0 <= i <= nSize + 1 && i % 2 == 0
        invariant i / 2 <= |Up(H, level)| && vMerkleTree == below + Up(H, level)[..i / 2]
        invariant twins <==> i >= nSize && TwinEnd(level)
      {
        var i2 := Min(i + 1, nSize - 1);
        BelowAt(vMerkleTree, below, j, level, i);
        BelowAt(vMerkleTree, below, j, level, i2);
        if i2 == i + 1 && i2 + 1 == nSize && vMerkleTree[j + i] == vMerkleTree[j + i2] {
          twins := true;
        }
        NextPair(H, level, i);
        vMerkleTree := vMerkleTree + [H(vMerkleTree[j + i], vMerkleTree[j + i2])];
        i := i + 2;
      }
      assert Up(H, level)[..i / 2] == Up(H, level);
    }

    method BuildMerkleTree(H: PairHash) returns (root: nat, mutated: bool)
      modifies `vMerkleTree
      ensures vMerkleTree == Tree(H, vtx) && Valid(H)
      ensures root == Root(H, vtx) && (mutated <==> Mutated(H, vtx))
      ensures mutated <==>
              exists k: nat :: var L := Level(H, vtx, k); |L| >= 2 && |L| % 2 == 0 && L[|L| - 2] == L[|L| - 1]
      ensures vMerkleTree == LowLevels(H, vtx, Levels(|vtx|) + 1)
      ensures if vtx == [] then root == 0 else Level(H, vtx, Levels(|vtx|)) == [root]
    {
      hide *;
      mutated := AddLevels(H);
      root := if vMerkleTree == [] then 0 else vMerkleTree[|vMerkleTree| - 1];
      MutatedExact(H, vtx);
      LevelsOfTree(H, vtx);
      BuiltIsValid(H);
    }

    lemma BuiltIsValid(H: PairHash)
      requires vMerkleTree == Tree(H, vtx)
      ensures Valid(H)
    {
    }

    /** The outer loop: level upon level, up to the root. */
    method AddLevels(H: PairHash) returns (mutated: bool)
      modifies `vMerkleTree
      ensures vMerkleTree == Tree(H, vtx) && (mutated <==> Mutated(H, vtx))
      ensures Root(H, vtx) == if vMerkleTree == [] then 0 else vMerkleTree[|vMerkleTree| - 1]
    {
      hide Building;
      hide Tree;
      hide Root;
      hide Mutated;
      vMerkleTree := vtx;
      var j := 0;
      mutated := false;
      var nSize := |vtx|;
      ghost var level := vtx;
      BuildStart(H, vtx);
      while nSize > 1
        invariant nSize == |level| && 0 <= j && |vMerkleTree| == j + nSize && vMerkleTree[j..] == level
        invariant Building(H, vtx, vMerkleTree, j, level, mutated)
        decreases nSize
      {
        ghost var below, was := vMerkleTree, mutated;
        var twins := AddLevel(H, j, nSize, level);
        mutated := mutated || twins;
        BuildNext(H, vtx, below, j, level, was);
        assert vMerkleTree[j + nSize..] == Up(H, level);
        j := j + nSize;
        level := Up(H, level);
        nSize := (nSize + 1) / 2;
      }
      BuildEnd(H, vtx, vMerkleTree, j, level, mutated);
    }

    /** Below zero the first node read lies before the tree, unless there is no level to read from. */
    method GetMerkleBranch(H: PairHash, index: int) returns (branch: seq<nat>)
      requires Valid(H) && (index >= 0 || |vtx| <= 1)
      modifies `vMerkleTree
      ensures Valid(H) && branch == Branch(H, vtx, index)
      ensures forall k: nat :: k < |branch| <==> |Level(H, vtx, k)| > 1
      ensures index >= 0 ==> forall k :: 0 <= k < |branch| ==>
                var L, i := Level(H, vtx, k), Ancestor(index, k);
                branch[k] == L[if i % 2 == 1 then Min(i - 1, |L| - 1) else Min(i + 1, |L| - 1)]
    {
      hide Branching;
      hide Up;
      hide Branch;
      hide Level;
      hide LowLevels;
      hide Ancestor;
      hide Tree;
      hide Levels;
      hide Root;
      hide Mutated;
      if vMerkleTree == [] {
        var root, mutated := BuildMerkleTree(H);
      }
      branch := [];
      var nIndex := index;
      var j := 0;
      var nSize := |vtx|;
      ghost var level := vtx;
      BranchStart(H, vtx, index);
      assert vMerkleTree == Tree(H, vtx);
      assert vMerkleTree[0..] == vMerkleTree;
      while nSize > 1
        invariant nSize == |level| && 0 <= j <= |vMerkleTree| && vMerkleTree[j..] == Tree(H, level)
        invariant nIndex >= 0 || nSize <= 1
        invariant vMerkleTree == Tree(H, vtx) && Branching(H, vtx, index, level, nIndex, branch)
        decreases nSize
      {
        var i := Min(Sibling(nIndex), nSize - 1);
        LevelInTree(H, vMerkleTree, j, level, i);
        BranchNext(H, vtx, index, level, nIndex, branch);
        branch := branch + [vMerkleTree[j + i]];
        nIndex := nIndex / 2;
        j := j + nSize;
        level := Up(H, level);
        nSize := (nSize + 1) / 2;
      }
      BranchEnd(H, vtx, index, level, nIndex, branch);
      BranchEntries(H, vtx, index);
    }

    static method CheckMerkleBranch(H: PairHash, leaf: nat, branch: seq<nat>, index: int) returns (hash: nat)
      ensures hash == if index == -1 then 0 else Fold(H, leaf, branch, index)
    {
      if index == -1 {
        return 0;
      }
      hash := leaf;
      var nIndex := index;
      for k := 0 to |branch|
        invariant Fold(H, hash, branch[k..], nIndex) == Fold(H, leaf, branch, index)
      {
        assert branch[k..][1..] == branch[k + 1..];
        if nIndex % 2 == 1 {
          hash := H(branch[k], hash);
        } else {
          hash := H(hash, branch[k]);
        }
        nIndex := nIndex / 2;
      }
    }
  }

  lemma BelowAt(tree: seq<nat>, below: seq<nat>, j: nat, level: seq<nat>, i: nat)
    requires |below| == j + |level| && below[j..] == level
    requires |tree| >= |below| && tree[..|below|] == below && i < |level|
    ensures tree[j + i] == level[i]
  {
    assert tree[j + i] == tree[..|below|][j + i] == below[j..][i];
  }

  lemma NextPair(H: PairHash, level: seq<nat>, i: nat)
    requires i < |level| && i % 2 == 0
    ensures (i + 2) / 2 <= |Up(H, level)|
    ensures Up(H, level)[..(i + 2) / 2] ==
            Up(H, level)[..i / 2] + [H(level[i], level[Min(i + 1, |level| - 1)])]
  {
    assert Up(H, level)[i / 2] == H(level[i], level[Min(i + 1, |level| - 1)]);
  }

  /** The levels below j are done; what is above follows from the level at j. */
  ghost predicate Building(H: PairHash, vtx: seq<nat>, tree: seq<nat>, j: nat, level: seq<nat>, mutated: bool)
    requires j <= |tree|
  {
    && (vtx == [] <==> level == []) && Root(H, level) == Root(H, vtx)
    && tree[..j] + Tree(H, level) == Tree(H, vtx)
    && (Mutated(H, vtx) <==> mutated || Mutated(H, level))
  }

  lemma BuildStart(H: PairHash, vtx: seq<nat>)
    ensures Building(H, vtx, vtx, 0, vtx, false)
  {
    hide Tree;
    assert vtx[..0] + Tree(H, vtx) == Tree(H, vtx);
  }

  lemma OneLevelUp(H: PairHash, level: seq<nat>)
    requires |level| > 1
    ensures Root(H, level) == Root(H, Up(H, level)) && Tree(H, level) == level + Tree(H, Up(H, level))
    ensures Mutated(H, level) <==> TwinEnd(level) || Mutated(H, Up(H, level))
    ensures Up(H, level) != []
  {
  }

  lemma BuildNext(H: PairHash, vtx: seq<nat>, below: seq<nat>, j: nat, level: seq<nat>, mutated: bool)
    requires |level| > 1 && |below| == j + |level| && below[j..] == level
    requires Building(H, vtx, below, j, level, mutated)
    ensures Building(H, vtx, below + Up(H, level), |below|, Up(H, level), mutated || TwinEnd(level))
  {
    hide Up;
    hide Tree;
    hide Root;
    hide Mutated;
    hide TwinEnd;
    OneLevelUp(H, level);
    var above := Tree(H, Up(H, level));
    assert below == below[..j] + level;
    assert (below + Up(H, level))[..|below|] + above == below[..j] + (level + above);
  }

  lemma TopLevel(H: PairHash, level: seq<nat>)
    requires |level| <= 1
    ensures Tree(H, level) == level && Root(H, level) == (if level == [] then 0 else level[0]) && !Mutated(H, level)
  {
    hide Up;
  }

  lemma BuildEnd(H: PairHash, vtx: seq<nat>, tree: seq<nat>, j: nat, level: seq<nat>, mutated: bool)
    requires |level| <= 1 && |tree| == j + |level| && tree[j..] == level && Building(H, vtx, tree, j, level, mutated)
    ensures tree == Tree(H, vtx) && (mutated <==> Mutated(H, vtx))
    ensures Root(H, vtx) == if tree == [] then 0 else tree[|tree| - 1]
  {
    hide Tree, Root, Mutated, Up;
    TopLevel(H, level);
    assert tree == tree[..j] + level;
    if level == [] {
      TopLevel(H, vtx);
    } else {
      assert tree[|tree| - 1] == level[0];
    }
  }

  /** The branch so far, and the branch from this level on. */
  ghost predicate Branching(H: PairHash, vtx: seq<nat>, index: int, level: seq<nat>, nIndex: int, branch: seq<nat>)
    requires (index >= 0 || |vtx| <= 1) && (nIndex >= 0 || |level| <= 1)
  {
    branch + Branch(H, level, nIndex) == Branch(H, vtx, index)
  }

  lemma BranchStart(H: PairHash, vtx: seq<nat>, index: int)
    requires index >= 0 || |vtx| <= 1
    ensures Branching(H, vtx, index, vtx, index, [])
  {
    hide Branch;
    assert [] + Branch(H, vtx, index) == Branch(H, vtx, index);
  }

  lemma BranchNext(H: PairHash, vtx: seq<nat>, index: int, level: seq<nat>, nIndex: nat,
                                      branch: seq<nat>)
    requires (index >= 0 || |vtx| <= 1) && |level| > 1 && Branching(H, vtx, index, level, nIndex, branch)
    ensures Branching(H, vtx, index, Up(H, level), nIndex / 2, branch + [level[Min(Sibling(nIndex), |level| - 1)]])
  {
    hide Up;
    hide Branch;
    var x, rest := level[Min(Sibling(nIndex), |level| - 1)], Branch(H, Up(H, level), nIndex / 2);
    BranchDef(H, level, nIndex);
    assert branch + ([x] + rest) == (branch + [x]) + rest;
  }

  lemma BranchEnd(H: PairHash, vtx: seq<nat>, index: int, level: seq<nat>, nIndex: int, branch: seq<nat>)
    requires (index >= 0 || |vtx| <= 1) && |level| <= 1 && Branching(H, vtx, index, level, nIndex, branch)
    ensures branch == Branch(H, vtx, index)
  {
    assert branch + [] == branch;
  }

  lemma LevelInTree(H: PairHash, tree: seq<nat>, j: nat, level: seq<nat>, i: nat)
    requires |level| > 1 && j <= |tree| && tree[j..] == Tree(H, level) && i < |level|
    ensures j + |level| <= |tree| && tree[j + i] == level[i] && tree[j + |level|..] == Tree(H, Up(H, level))
    ensures |Up(H, level)| == (|level| + 1) / 2
  {
    hide Up;
    var above := Tree(H, Up(H, level));
    assert tree[j..] == level + above;
    assert tree[j + i] == tree[j..][i];
    assert tree[j + |level|..] == tree[j..][|level|..];
  }

  // ---------- levels ----------

  /** Level k, counted from the leaves; above the root it goes on with single nodes. */
  function Level(H: PairHash, vtx: seq<nat>, k: nat): seq<nat>
  {
    if k == 0 then vtx else Up(H, Level(H, vtx, k - 1))
  }

  /** Levels 0 to n - 1, one after another. */
  function LowLevels(H: PairHash, vtx: seq<nat>, n: nat): seq<nat>
  {
    if n == 0 then [] else LowLevels(H, vtx, n - 1) + Level(H, vtx, n - 1)
  }

  lemma {:induction false} LevelOfUp(H: PairHash, vtx: seq<nat>, k: nat)
    ensures Level(H, Up(H, vtx), k) == Level(H, vtx, k + 1)
  {
    hide Up;
    if k > 0 {
      LevelOfUp(H, vtx, k - 1);
    }
  }

  lemma {:induction false} LowLevelsOfUp(H: PairHash, vtx: seq<nat>, n: nat)
    ensures LowLevels(H, vtx, n + 1) == vtx + LowLevels(H, Up(H, vtx), n)
  {
    hide *;
    LevelZero(H, vtx);
    LowLevelsStep(H, vtx, n);
    var up := Up(H, vtx);
    LowLevelsStep(H, up, 0);
    if n == 0 {
      assert vtx + [] == vtx;
    } else {
      LowLevelsOfUp(H, vtx, n - 1);
      LowLevelsStep(H, up, n - 1);
      LevelOfUp(H, vtx, n - 1);
      Regroup(vtx, LowLevels(H, up, n - 1), Level(H, up, n - 1));
    }
  }

  lemma LowLevelsStep(H: PairHash, vtx: seq<nat>, n: nat)
    ensures LowLevels(H, vtx, n + 1) == LowLevels(H, vtx, n) + Level(H, vtx, n) && LowLevels(H, vtx, 0) == []
  {
    hide Up;
  }

  lemma Regroup(x: seq<nat>, y: seq<nat>, z: seq<nat>)
    ensures (x + y) + z == x + (y + z)
  {
  }

  lemma {:induction false} LevelSize(H: PairHash, vtx: seq<nat>, k: nat)
    ensures |vtx| <= 1 ==> |Level(H, vtx, k)| == |vtx|
    ensures k > 0 ==> |Level(H, vtx, k)| == (|Level(H, vtx, k - 1)| + 1) / 2
  {
    if k > 0 {
      LevelSize(H, vtx, k - 1);
    }
  }

  /** The levels of more than one node, and the root above them. */
  lemma {:induction false} LevelsExact(H: PairHash, vtx: seq<nat>)
    ensures forall k: nat :: k < Levels(|vtx|) <==> |Level(H, vtx, k)| > 1
    ensures Level(H, vtx, Levels(|vtx|)) == if vtx == [] then [] else [Root(H, vtx)]
    decreases |vtx|
  {
    hide Level;
    LevelZero(H, vtx);
    if |vtx| <= 1 {
      forall k: nat
        ensures |Level(H, vtx, k)| <= 1
      {
        LevelSize(H, vtx, k);
      }
    } else {
      var up := Up(H, vtx);
      LevelsExact(H, up);
      LevelOfUp(H, vtx, Levels(|up|));
      forall k: nat
        ensures k < Levels(|vtx|) <==> |Level(H, vtx, k)| > 1
      {
        if k > 0 {
          LevelOfUp(H, vtx, k - 1);
          assert k - 1 < Levels(|up|) <==> |Level(H, up, k - 1)| > 1;
        }
      }
    }
  }

  lemma LevelZero(H: PairHash, vtx: seq<nat>)
    ensures Level(H, vtx, 0) == vtx && LowLevels(H, vtx, 1) == vtx
  {
    hide Up;
    assert LowLevels(H, vtx, 0) == [];
  }

  lemma {:induction false} TreeLevels(H: PairHash, vtx: seq<nat>)
    ensures Tree(H, vtx) == LowLevels(H, vtx, Levels(|vtx|) + 1)
    decreases |vtx|
  {
    hide LowLevels;
    if |vtx| <= 1 {
      LevelZero(H, vtx);
    } else {
      TreeLevels(H, Up(H, vtx));
      LowLevelsOfUp(H, vtx, Levels(|vtx|));
    }
  }

  lemma LevelsOfTree(H: PairHash, vtx: seq<nat>)
    ensures Tree(H, vtx) == LowLevels(H, vtx, Levels(|vtx|) + 1)
    ensures if vtx == [] then Root(H, vtx) == 0 else Level(H, vtx, Levels(|vtx|)) == [Root(H, vtx)]
  {
    hide Level, Levels;
    TreeLevels(H, vtx);
    LevelsExact(H, vtx);
  }

  /** The flag: some level of an even number of nodes ends in two equal ones. */
  lemma {:induction false} MutatedExact(H: PairHash, vtx: seq<nat>)
    ensures Mutated(H, vtx) <==>
            exists k: nat :: var L := Level(H, vtx, k); |L| >= 2 && |L| % 2 == 0 && L[|L| - 2] == L[|L| - 1]
    decreases |vtx|
  {
    hide Level, Up;
    if |vtx| <= 1 {
      forall k: nat
        ensures |Level(H, vtx, k)| <= 1
      {
        LevelSize(H, vtx, k);
      }
    } else {
      OneLevelUp(H, vtx);
      assert |Up(H, vtx)| < |vtx|;
      MutatedExact(H, Up(H, vtx));
      hide Mutated;
      TwinAbove(H, vtx);
    }
  }

  lemma TwinAbove(H: PairHash, vtx: seq<nat>)
    ensures (exists k: nat :: TwinEnd(Level(H, vtx, k))) <==>
            TwinEnd(vtx) || exists k: nat :: TwinEnd(Level(H, Up(H, vtx), k))
  {
    hide Level, Up, TwinEnd;
    LevelZero(H, vtx);
    if k: nat :| k > 0 && TwinEnd(Level(H, vtx, k)) {
      LevelOfUp(H, vtx, k - 1);
      assert TwinEnd(Level(H, Up(H, vtx), k - 1));
    }
    if k: nat :| TwinEnd(Level(H, Up(H, vtx), k)) {
      LevelOfUp(H, vtx, k);
      assert TwinEnd(Level(H, vtx, k + 1));
    }
  }

  // ---------- branches ----------

  /** With an index below zero the first read of a branch is before the start of the tree. */
  lemma NegativeIndexOutside(index: int, n: nat)
    requires index < 0 && n > 1
    ensures Min(Sibling(index), n - 1) < 0
  {
  }

  /** Entry k of a branch is the sibling, in level k, of the node there above the leaf. */
  lemma {:induction false} BranchAt(H: PairHash, level: seq<nat>, index: nat, k: nat)
    requires k < |Branch(H, level, index)|
    ensures var L, i := Level(H, level, k), Ancestor(index, k);
            |L| > 1 &&
            Branch(H, level, index)[k] == L[Min(Sibling(i), |L| - 1)]
    decreases k
  {
    hide *;
    BranchOfPair(H, level, index);
    var up := Up(H, level);
    BranchDef(H, level, index);
    if k == 0 {
      LevelZero(H, level);
      AncestorZero(index);
    } else {
      BranchAt(H, up, index / 2, k - 1);
      LevelOfUp(H, level, k - 1);
      AncestorOfHalf(index, k - 1);
    }
  }

  /** All entries of a branch: one sibling from every level of more than one node. */
  lemma BranchEntries(H: PairHash, level: seq<nat>, index: int)
    requires index >= 0 || |level| <= 1
    ensures forall k: nat :: k < |Branch(H, level, index)| <==> |Level(H, level, k)| > 1
    ensures index >= 0 ==> forall k :: 0 <= k < |Branch(H, level, index)| ==>
              var L, i := Level(H, level, k), Ancestor(index, k);
              Branch(H, level, index)[k] == L[if i % 2 == 1 then Min(i - 1, |L| - 1) else Min(i + 1, |L| - 1)]
  {
    hide Level, Branch, Ancestor, Levels;
    LevelsExact(H, level);
    if index >= 0 {
      forall k | 0 <= k < |Branch(H, level, index)|
        ensures var L, i := Level(H, level, k), Ancestor(index, k);
                Branch(H, level, index)[k] == L[if i % 2 == 1 then Min(i - 1, |L| - 1) else Min(i + 1, |L| - 1)]
      {
        BranchAt(H, level, index, k);
      }
    }
  }

  lemma BranchOfPair(H: PairHash, level: seq<nat>, i: nat)
    requires Branch(H, level, i) != []
    ensures |level| > 1
  {
    hide Up, Levels;
  }

  lemma AncestorZero(i: int)
    ensures Ancestor(i, 0) == i
  {
  }

  /** The index, in level k, of the node above leaf i. */
  function Ancestor(i: int, k: nat): (a: int)
    ensures i >= 0 ==> a >= 0
  {
    if k == 0 then i else Ancestor(i, k - 1) / 2
  }

  lemma {:induction false} AncestorOfHalf(i: int, k: nat)
    ensures Ancestor(i / 2, k) == Ancestor(i, k + 1)
  {
    if k > 0 {
      AncestorOfHalf(i, k - 1);
    }
  }

  /**
    Folding, for every index: the hash of each step is joined with the entry of its level, on the left where
    the index of the level is odd and on the right where it is even.
  */
  lemma {:induction false} FoldExact(H: PairHash, hash: nat, branch: seq<nat>, i: int, steps: seq<nat>)
    requires |steps| == |branch| + 1 && steps[0] == hash
    requires forall k :: 0 <= k < |branch| ==>
               steps[k + 1] == if Ancestor(i, k) % 2 == 1 then H(branch[k], steps[k]) else H(steps[k], branch[k])
    ensures Fold(H, hash, branch, i) == steps[|branch|]
    decreases |branch|
  {
    if branch != [] {
      AncestorZero(i);
      assert steps[0 + 1] == if i % 2 == 1 then H(branch[0], hash) else H(hash, branch[0]);
      var rest := branch[1..];
      forall k | 0 <= k < |rest|
        ensures steps[1..][k + 1] ==
                if Ancestor(i / 2, k) % 2 == 1 then H(rest[k], steps[1..][k]) else H(steps[1..][k], rest[k])
      {
        AncestorOfHalf(i, k);
        assert steps[k + 1 + 1] == if Ancestor(i, k + 1) % 2 == 1 then H(branch[k + 1], steps[k + 1])
                                   else H(steps[k + 1], branch[k + 1]);
      }
      FoldExact(H, steps[1], rest, i / 2, steps[1..]);
    }
  }

  /** A node of level k is above 2^k leaves. */
  lemma {:induction false} AncestorExact(i: nat, k: nat)
    ensures Ancestor(i, k) == i / Pow2(k)
  {
    if k > 0 {
      AncestorExact(i, k - 1);
      DivDiv(i, Pow2(k - 1), 2);
    }
  }

  /** The branch of a leaf leads from the leaf to the root. */
  lemma {:induction false} BranchLeadsToRoot(H: PairHash, level: seq<nat>, i: nat)
    requires i < |level|
    ensures Fold(H, level[i], Branch(H, level, i), i) == Root(H, level)
    decreases |level|
  {
    if |level| == 1 {
    } else {
      var branch := Branch(H, level, i);
      assert branch[1..] == Branch(H, Up(H, level), i / 2);
      PairOf(H, level, i);
      BranchLeadsToRoot(H, Up(H, level), i / 2);
    }
  }

  /** Node i / 2 of the level above is the hash of node i and its sibling, in their order. */
  lemma PairOf(H: PairHash, level: seq<nat>, i: nat)
    requires i < |level|
    ensures i / 2 < |Up(H, level)|
    ensures var s := level[Min(Sibling(i), |level| - 1)];
            Up(H, level)[i / 2] == if i % 2 == 1 then H(s, level[i]) else H(level[i], s)
  {
  }

  /** A pair of P and a different pair of Q have the same hash. */
  ghost predicate Collision(H: PairHash, P: seq<(nat, nat)>, Q: seq<(nat, nat)>)
  {
    exists p, q :: p in P && q in Q && p != q && H(p.0, p.1) == H(q.0, q.1)
  }

  /** The pairs that are hashed for the level above. */
  function UpPairs(level: seq<nat>): seq<(nat, nat)>
  {
    seq((|level| + 1) / 2, k requires 0 <= k < (|level| + 1) / 2 => (level[2 * k], level[Min(2 * k + 1, |level| - 1)]))
  }

  /** All pairs that are hashed for the root. */
  function TreePairs(H: PairHash, level: seq<nat>): seq<(nat, nat)>
    decreases |level|
  {
    if |level| <= 1 then [] else UpPairs(level) + TreePairs(H, Up(H, level))
  }

  function BranchPair(hash: nat, sibling: nat, i: int): (nat, nat)
  {
    if i % 2 == 1 then (sibling, hash) else (hash, sibling)
  }

  /** The pairs that are hashed on the way up a branch. */
  function FoldPairs(H: PairHash, hash: nat, branch: seq<nat>, i: int): seq<(nat, nat)>
    decreases |branch|
  {
    if branch == [] then []
    else
      var p := BranchPair(hash, branch[0], i);
      [p] + FoldPairs(H, H(p.0, p.1), branch[1..], i / 2)
  }

  lemma CollisionMore(H: PairHash, P: seq<(nat, nat)>, Q: seq<(nat, nat)>, P': seq<(nat, nat)>, Q': seq<(nat, nat)>)
    requires Collision(H, P, Q) && (forall p :: p in P ==> p in P') && forall q :: q in Q ==> q in Q'
    ensures Collision(H, P', Q')
  {
  }

  /**
    Nothing but leaf i and its own branch leads to the root, unless a pair of the branch
    collides with one of the tree.
  */
  lemma {:induction false} OnlyLeafLeadsToRoot(H: PairHash, level: seq<nat>, i: nat, hash: nat, branch: seq<nat>)
    requires i < |level| && |branch| == Levels(|level|)
    requires Fold(H, hash, branch, i) == Root(H, level)
    ensures (hash == level[i] && branch == Branch(H, level, i)) ||
            Collision(H, TreePairs(H, level), FoldPairs(H, hash, branch, i))
    decreases |level|
  {
    if |level| == 1 {
    } else {
      hide Collision;
      var p := BranchPair(hash, branch[0], i);
      var up, rest := H(p.0, p.1), branch[1..];
      OnlyLeafLeadsToRoot(H, Up(H, level), i / 2, up, rest);
      if Collision(H, TreePairs(H, Up(H, level)), FoldPairs(H, up, rest, i / 2)) {
        CollisionMore(H, TreePairs(H, Up(H, level)), FoldPairs(H, up, rest, i / 2),
                      TreePairs(H, level), FoldPairs(H, hash, branch, i));
      } else {
        OnlyPairBelow(H, level, i, hash, branch);
      }
    }
  }

  lemma OnlyPairBelow(H: PairHash, level: seq<nat>, i: nat, hash: nat, branch: seq<nat>)
    requires i < |level| && |level| > 1 && |branch| == Levels(|level|)
    requires var p := BranchPair(hash, branch[0], i);
             H(p.0, p.1) == Up(H, level)[i / 2] && branch[1..] == Branch(H, Up(H, level), i / 2)
    ensures (hash == level[i] && branch == Branch(H, level, i)) ||
            Collision(H, TreePairs(H, level), FoldPairs(H, hash, branch, i))
  {
    hide Up, UpPairs, Branch, Levels, TreePairs, FoldPairs;
    NotEmpty(|level|);
    var s := level[Min(Sibling(i), |level| - 1)];
    var p, q := BranchPair(hash, branch[0], i), BranchPair(level[i], s, i);
    PairOf(H, level, i);
    UpPairAt(level, i);
    if p == q {
      BranchDef(H, level, i);
      assert branch == [branch[0]] + branch[1..];
    } else {
      PairsHashed(H, level, i, hash, branch);
    }
  }

  lemma NotEmpty(n: nat)
    requires n > 1
    ensures Levels(n) > 0
  {
  }

  lemma BranchDef(H: PairHash, level: seq<nat>, i: nat)
    requires |level| > 1
    ensures Branch(H, level, i) == [level[Min(Sibling(i), |level| - 1)]] + Branch(H, Up(H, level), i / 2)
  {
    hide Up, Levels;
  }

  /** Node i and its sibling, in their order, are one of the pairs hashed for the level above. */
  lemma UpPairAt(level: seq<nat>, i: nat)
    requires i < |level|
    ensures BranchPair(level[i], level[Min(Sibling(i), |level| - 1)], i) in UpPairs(level)
  {
    assert UpPairs(level)[i / 2] == BranchPair(level[i], level[Min(Sibling(i), |level| - 1)], i);
  }

  lemma PairsHashed(H: PairHash, level: seq<nat>, i: nat, hash: nat, branch: seq<nat>)
    requires |level| > 1 && branch != []
    ensures forall p :: p in UpPairs(level) ==> p in TreePairs(H, level)
    ensures BranchPair(hash, branch[0], i) in FoldPairs(H, hash, branch, i)
  {
    hide Up;
    hide UpPairs;
  }

  /** The two methods together: a branch that was handed out checks against the root. */
  method BranchChecks(block: Block, H: PairHash, index: nat) returns (root: nat, hash: nat)
    requires index < |block.vtx|
    modifies block`vMerkleTree
    ensures root == Root(H, block.vtx) && hash == root
  {
    var mutated;
    root, mutated := block.BuildMerkleTree(H);
    var branch := block.GetMerkleBranch(H, index);
    hash := Block.CheckMerkleBranch(H, block.vtx[index], branch, index);
    BranchLeadsToRoot(H, block.vtx, index);
  }

  // ---------- roots ----------

  /**
    Two lists with as many levels and the same root are the same, unless one of them was
    flagged as mutated or two of the pairs hashed for them collide.
  */
  lemma {:induction false} RootDetermines(H: PairHash, x: seq<nat>, y: seq<nat>)
    requires x != [] && y != [] && Levels(|x|) == Levels(|y|)
    requires Root(H, x) == Root(H, y) && !Mutated(H, x) && !Mutated(H, y)
    ensures x == y || Collision(H, TreePairs(H, x), TreePairs(H, y))
    decreases |x|
  {
    if |x| == 1 {
    } else {
      hide Collision;
      RootDetermines(H, Up(H, x), Up(H, y));
      if Up(H, x) == Up(H, y) {
        SameBelow(H, x, y);
        if x != y {
          CollisionMore(H, UpPairs(x), UpPairs(y), TreePairs(H, x), TreePairs(H, y));
        }
      } else {
        CollisionMore(H, TreePairs(H, Up(H, x)), TreePairs(H, Up(H, y)), TreePairs(H, x), TreePairs(H, y));
      }
    }
  }

  lemma SameBelow(H: PairHash, x: seq<nat>, y: seq<nat>)
    requires |x| > 1 && |y| > 1 && Up(H, x) == Up(H, y) && !TwinEnd(x) && !TwinEnd(y)
    ensures x == y || Collision(H, UpPairs(x), UpPairs(y))
  {
    var n := |Up(H, x)|;
    if k :| 0 <= k < n && UpPairs(x)[k] != UpPairs(y)[k] {
      var p, q := UpPairs(x)[k], UpPairs(y)[k];
      assert Up(H, x)[k] == Up(H, y)[k];
      assert p in UpPairs(x) && q in UpPairs(y) && H(p.0, p.1) == H(q.0, q.1);
    } else {
      hide Up;
      SamePairs(x, y, n);
    }
  }

  lemma SamePairs(x: seq<nat>, y: seq<nat>, n: nat)
    requires |x| > 1 && |y| > 1 && n == (|x| + 1) / 2 == (|y| + 1) / 2 && !TwinEnd(x) && !TwinEnd(y)
    requires forall k :: 0 <= k < n ==> UpPairs(x)[k] == UpPairs(y)[k]
    ensures x == y
  {
    assert UpPairs(x)[n - 1] == UpPairs(y)[n - 1];
    assert |x| == |y|;
    forall i | 0 <= i < |x|
      ensures x[i] == y[i]
    {
      assert UpPairs(x)[i / 2] == UpPairs(y)[i / 2];
      assert i == 2 * (i / 2) || i == Min(2 * (i / 2) + 1, |x| - 1);
    }
  }

  /** Repeating the last node of an odd level keeps the root, and is what the flag reports. */
  lemma RepeatedEndKeepsRoot(H: PairHash, x: seq<nat>)
    requires |x| > 1 && |x| % 2 == 1
    ensures var y := x + [x[|x| - 1]]; Root(H, y) == Root(H, x) && Levels(|y|) == Levels(|x|) && Mutated(H, y)
  {
    hide Root;
    hide Mutated;
    hide Levels;
    var y := x + [x[|x| - 1]];
    assert Up(H, x) == Up(H, y);
    assert TwinEnd(y);
    hide Up;
    OneLevelUp(H, x);
    OneLevelUp(H, y);
    SameLevels(|x|);
  }

  lemma SameLevels(n: nat)
    requires n > 1 && n % 2 == 1
    ensures Levels(n + 1) == Levels(n)
  {
  }

  /** Lists with different numbers of levels can share a root: a pair and its hash. */
  lemma LevelsMatter(H: PairHash, a: nat, b: nat)
    ensures Root(H, [H(a, b)]) == Root(H, [a, b]) && Levels(1) != Levels(2)
  {
    assert Up(H, [a, b]) == [H(a, b)];
  }

  // ---------- the space reserved for the tree ----------

  /** The levels of more than one node whose last node has no partner. */
  function OddLevels(n: nat): nat
  {
    if n <= 1 then 0 else (n % 2) + OddLevels((n + 1) / 2)
  }

  lemma {:induction false} TreeSize(H: PairHash, level: seq<nat>)
    requires level != []
    ensures |Tree(H, level)| == 2 * |level| - 1 + OddLevels(|level|)
    decreases |level|
  {
    if |level| == 1 {
    } else {
      TreeSize(H, Up(H, level));
    }
  }

  /** The space reserved holds all nodes exactly when at most 17 levels are odd. */
  lemma ReservedIsEnough(H: PairHash, level: seq<nat>)
    requires level != []
    ensures |Tree(H, level)| <= 2 * |level| + 16 <==> OddLevels(|level|) <= 17
  {
    TreeSize(H, level);
  }

  /** 2^k + 1 nodes leave every level but the last two odd. */
  lemma {:induction false} ManyOddLevels(k: nat, n: nat)
    requires n == Pow2(k) + 1
    ensures OddLevels(n) == k
  {
    if k > 0 {
      var p := Pow2(k - 1);
      hide Pow2;
      ManyOddLevels(k - 1, p + 1);
      HalfOdd(p);
    } else {
      assert OddLevels(2) == 0 + OddLevels(1);
    }
  }

  lemma HalfOdd(p: nat)
    requires p >= 1
    ensures OddLevels(2 * p + 1) == 1 + OddLevels(p + 1)
  {
    assert (2 * p + 1 + 1) / 2 == p + 1 && (2 * p + 1) % 2 == 1;
  }

  /** For 2^19 + 1 transactions it does not. */
  lemma ReservedCanBeShort(H: PairHash, level: seq<nat>)
    requires |level| == 0x8_0001
    ensures |Tree(H, level)| > 2 * |level| + 16
  {
    Pow2Table();
    Pow2Add(8, 8);
    Pow2Add(16, 3);
    hide Pow2;
    ManyOddLevels(19, 0x8_0001);
    ReservedIsEnough(H, level);
  }
}
