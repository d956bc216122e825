/**
  The part of the candidate check that works on the index array: orderindices and
  the test for equal first indices.
*/
module Ordering {
  import opened Arith
  import opened Wagner

  /** a with the entries from off on replaced by s. */
  function Splice(a: seq<nat>, off: nat, s: seq<nat>): (r: seq<nat>)
    requires off + |s| <= |a|
    ensures |r| == |a| && r[off..off + |s|] == s
    ensures forall i :: 0 <= i < |a| ==> r[i] == if off <= i < off + |s| then s[i - off] else a[i]
  {
    a[..off] + s + a[off + |s|..]
  }

  lemma SpliceTwice(a: seq<nat>, off: nat, x: seq<nat>, y: seq<nat>)
    requires off + |x| + |y| <= |a|
    ensures Splice(Splice(a, off, x), off + |x|, y) == Splice(a, off, x + y)
  {
  }

  /** The two halves after i of their entries have changed places. */
  function Swapped(x: seq<nat>, y: seq<nat>, i: nat): (r: seq<nat>)
    requires i <= |x| == |y|
    ensures |r| == |x| + |y|
  {
    y[..i] + x[i..] + x[..i] + y[i..]
  }

  lemma SwapNext(a: seq<nat>, off: nat, x: seq<nat>, y: seq<nat>, i: nat)
    requires i < |x| == |y| && off + |x| + |y| <= |a|
    ensures var s := Splice(a, off, Swapped(x, y, i));
            && s[off + i] == x[i] && s[off + |x| + i] == y[i]
            && s[off + i := y[i]][off + |x| + i := x[i]] == Splice(a, off, Swapped(x, y, i + 1))
  {
    var s := Swapped(x, y, i);
    assert s[i] == x[i] && s[|x| + i] == y[i];
    assert s[i := y[i]][|x| + i := x[i]] == Swapped(x, y, i + 1);
  }

  lemma SwapEnds(x: seq<nat>, y: seq<nat>)
    requires |x| == |y|
    ensures Swapped(x, y, 0) == x + y && Swapped(x, y, |x|) == y + x
  {
  }

  /** orderindices: swaps the two halves when the first starts with the larger index; never reports a duplicate. */
  method OrderIndices(indices: array<nat>, off: nat, size: nat, ghost base: seq<nat>, ghost x: seq<nat>,
                      ghost y: seq<nat>) returns (dup: bool)
    requires 0 < size == |x| == |y| && off + 2 * size <= |base|
    requires indices[..] == Splice(base, off, x + y)
    modifies indices
    ensures !dup
    ensures indices[..] == Splice(base, off, if x[0] > y[0] then y + x else x + y)
  {
    SwapEnds(x, y);
    SwapNext(base, off, x, y, 0);
    assert indices[..][off] == x[0] && indices[..][off + size] == y[0];
    if indices[off] > indices[off + size] {
      var i := 0;
      while i < size
        invariant 0 <= i <= size && indices[..] == Splice(base, off, Swapped(x, y, i))
      {
        SwapNext(base, off, x, y, i);
        ghost var s := indices[..];
        var tmp := indices[off + i];
        assert tmp == s[off + i];
        assert indices[off + size + i] == s[off + size + i];
        indices[off + i] := indices[off + size + i];
        indices[off + size + i] := tmp;
        assert indices[..] == s[off + i := y[i]][off + size + i := x[i]];
        i := i + 1;
      }
    }
    return false;
  }

  /** The leaves of the ordered tree are those of the ordered halves, the smaller start first. */
  lemma CanonLeavesOf(t: Tree)
    requires t.Node?
    ensures var x, y := Leaves(Canon(t.left)), Leaves(Canon(t.right));
            && x[0] == First(Canon(t.left)) && y[0] == First(Canon(t.right))
            && Leaves(Canon(t)) == (if x[0] > y[0] then y + x else x + y)
            && Leaves(t) == Leaves(t.left) + Leaves(t.right)
  {
  }

  /** The last two tests on a node whose halves are listed: order them, then compare their first indices. */
  method JoinHalves(indices: array<nat>, off: nat, size: nat, ghost base: seq<nat>, ghost t: Tree) returns (dup: bool)
    requires t.Node? && 0 < size == |Leaves(Canon(t.left))| == |Leaves(Canon(t.right))| && off + 2 * size <= |base|
    requires indices[..] == Splice(base, off, Leaves(Canon(t.left)) + Leaves(Canon(t.right)))
    modifies indices
    ensures dup <==> First(Canon(t.left)) == First(Canon(t.right))
    ensures dup ==> !Distinct(Leaves(t))
    ensures !dup && Ordered(Canon(t.left)) && Ordered(Canon(t.right)) ==> Ordered(Canon(t))
    ensures off + |Leaves(Canon(t))| <= |base| && indices[..] == Splice(base, off, Leaves(Canon(t)))
  {
    hide Canon;
    hide Leaves;
    hide Distinct;
    hide Ordered;
    ghost var x, y := Leaves(Canon(t.left)), Leaves(Canon(t.right));
    CanonLeavesOf(t);
    dup := OrderIndices(indices, off, size, base, x, y);
    assert indices[..][off] == Leaves(Canon(t))[0] && indices[..][off + size] == Leaves(Canon(t))[size];
    dup := indices[off] == indices[off + size];
    if dup {
      EqualFirsts(t);
    } else {
      OrderedNode(t);
    }
  }

  lemma OrderedNode(t: Tree)
    requires t.Node? && First(Canon(t.left)) != First(Canon(t.right))
    ensures Ordered(Canon(t.left)) && Ordered(Canon(t.right)) ==> Ordered(Canon(t))
  {
  }

  lemma EqualFirsts(t: Tree)
    requires t.Node? && First(Canon(t.left)) == First(Canon(t.right))
    ensures !Distinct(Leaves(t))
  {
    if Distinct(Leaves(t)) {
      FirstsDiffer(t.left, t.right);
      assert false;
    }
  }

  lemma HalfRepeats(t: Tree)
    requires t.Node? && (!Distinct(Leaves(t.left)) || !Distinct(Leaves(t.right)))
    ensures !Distinct(Leaves(t))
  {
    if Distinct(Leaves(t)) {
      DistinctParts(Leaves(t.left), Leaves(t.right));
      assert false;
    }
  }

  lemma CanonLength(t: Tree, r: nat)
    requires Perfect(t, r)
    ensures |Leaves(Canon(t))| == Pow2(r)
  {
    CanonPerfect(t, r);
    LeavesLength(Canon(t), r);
  }
}
