/**
  The checker of equi.h: genhash, verifyrec, duped and verify.

  The BLAKE2b state after header and nonce is the function from a 4-byte block
  number to the 54 bytes that hashing it yields; each block holds two index hashes.
*/
module Verifier {
  import opened Arith
  import opened HashBits
  import opened Wagner

  const HASHESPERBLAKE: nat := 2
  const HASHOUT: nat := 54

  type BlakeOut = s: seq<Byte> | |s| == 54 witness seq(54, _ => 0)

  type Blake = nat -> BlakeOut

  /** Index idx takes half number idx % 2 of block idx / 2. */
  function HashAt(blake: Blake, idx: nat): Hash
  {
    var lo := idx % HASHESPERBLAKE * HASHLEN;
    blake(idx / HASHESPERBLAKE)[lo..lo + HASHLEN]
  }

  function HashOf(blake: Blake): IndexHash
  {
    (i: nat) => HashAt(blake, i)
  }

  /** Index hash idx is the first or the second half of the block's 54 bytes. */
  lemma HashOfBytes(blake: Blake, idx: nat)
    ensures idx % 2 == 0 ==> HashOf(blake)(idx) == blake(idx / 2)[..27]
    ensures idx % 2 == 1 ==> HashOf(blake)(idx) == blake(idx / 2)[27..]
  {
  }

  datatype VerifyCode = POW_OK | POW_DUPLICATE | POW_OUT_OF_ORDER | POW_NONZERO_XOR

  /** The first condition a tree breaks, order before children before xor. */
  function Verdict(H: IndexHash, t: Tree, r: nat): VerifyCode
    requires r <= WK && Perfect(t, r)
  {
    match t
    case Leaf(_) => POW_OK
    case Node(a, b) =>
      if First(a) >= First(b) then POW_OUT_OF_ORDER
      else if Verdict(H, a, r - 1) != POW_OK then Verdict(H, a, r - 1)
      else if Verdict(H, b, r - 1) != POW_OK then Verdict(H, b, r - 1)
      else if ZeroPrefix(TreeXor(H, t), DIGITBITS * r) then POW_OK
      else POW_NONZERO_XOR
  }

  /** A perfect tree passes exactly when it is ordered and has all its zero prefixes. */
  lemma {:induction false} VerdictExact(H: IndexHash, t: Tree, r: nat)
    requires r <= WK && Perfect(t, r)
    ensures Verdict(H, t, r) == POW_OK <==> Ordered(t) && HasPrefixes(H, t, r)
  {
    hide ZeroPrefix;
    match t
    case Leaf(_) =>
      assert ZeroPrefix(TreeXor(H, t), 0) by {
        NoBits(TreeXor(H, t));
      }
    case Node(a, b) =>
      VerdictExact(H, a, r - 1);
      VerdictExact(H, b, r - 1);
  }

  /**
    The code names a condition that is broken: it is out of order only for a tree that is not ordered,
    nonzero xor only for one that lacks a prefix; of the two conditions of one node order comes first.
  */
  lemma {:induction false} VerdictCodes(H: IndexHash, t: Tree, r: nat)
    requires r <= WK && Perfect(t, r)
    ensures Ordered(t) && !HasPrefixes(H, t, r) ==> Verdict(H, t, r) == POW_NONZERO_XOR
    ensures !Ordered(t) && HasPrefixes(H, t, r) ==> Verdict(H, t, r) == POW_OUT_OF_ORDER
    ensures Verdict(H, t, r) != POW_DUPLICATE
    ensures t.Node? && First(t.left) >= First(t.right) ==> Verdict(H, t, r) == POW_OUT_OF_ORDER
  {
    hide ZeroPrefix;
    VerdictExact(H, t, r);
    match t
    case Leaf(_) =>
    case Node(a, b) =>
      VerdictCodes(H, a, r - 1);
      VerdictCodes(H, b, r - 1);
      VerdictExact(H, a, r - 1);
      VerdictExact(H, b, r - 1);
  }

  lemma NoBits(h: Hash)
    ensures ZeroPrefix(h, 0)
  {
  }

  method GenHash(blake: Blake, idx: nat, hash: array<Byte>)
    requires hash.Length == HASHLEN
    modifies hash
    ensures hash[..] == HashOf(blake)(idx)
    ensures forall i :: 0 <= i < 27 ==> hash[i] == blake(idx / 2)[27 * (idx % 2) + i]
  {
    var blakehash: seq<Byte> := blake(idx / HASHESPERBLAKE);
    var lo := idx % HASHESPERBLAKE * HASHLEN;
    forall i | 0 <= i < HASHLEN {
      hash[i] := blakehash[lo + i];
    }
  }

  /** A byte is zero exactly when its eight bits are. */
  lemma ZeroByte(h: Hash, i: nat)
    requires i < HASHLEN && ZeroPrefix(h, 8 * i)
    ensures ZeroPrefix(h, 8 * i + 8) <==> h[i] == 0
  {
    hide ZeroPrefix;
    hide Field;
    ZeroPrefixExtend(h, 8 * i, 8);
    WholeByte(h, i);
  }

  lemma ZeroPart(h: Hash, i: nat, n: nat)
    requires i < HASHLEN && n <= 8 && ZeroPrefix(h, 8 * i)
    ensures ZeroPrefix(h, 8 * i + n) <==> h[i] / Pow2(8 - n) == 0
  {
    hide ZeroPrefix;
    hide Field;
    ZeroPrefixExtend(h, 8 * i, n);
    FieldHigh(h, i, n);
  }

  lemma LongerPrefix(h: Hash, n: nat, m: nat)
    requires n <= m <= HASHBITS && ZeroPrefix(h, m)
    ensures ZeroPrefix(h, n)
  {
  }

  /** The loop that looks for a set bit among the first b bits of the buffer. */
  method LeadingBitsZero(hash: array<Byte>, b: nat) returns (zero: bool)
    requires hash.Length == HASHLEN && b < HASHBITS
    ensures zero <==> ZeroPrefix(hash[..], b)
  {
    hide ZeroPrefix;
    var i := 0;
    NoBits(hash[..]);
    while i < b / 8
      invariant 0 <= i <= b / 8
      invariant ZeroPrefix(hash[..], 8 * i)
    {
      ZeroByte(hash[..], i);
      if hash[i] != 0 {
        if ZeroPrefix(hash[..], b) {
          LongerPrefix(hash[..], 8 * i + 8, b);
        }
        return false;
      }
      i := i + 1;
    }
    ZeroPart(hash[..], i, b % 8);
    return !(b % 8 != 0 && hash[i] / Pow2(8 - b % 8) != 0);
  }

  /** The 2^r indices at position off are the leaves of t, a tree of height r. */
  predicate Spells(indices: seq<nat>, off: nat, t: Tree, r: nat)
  {
    Perfect(t, r) && off + Pow2(r) <= |indices| && Leaves(t) == indices[off..off + Pow2(r)]
  }

  /** verifyrec on the 2^r indices at position off; hash receives their xor. */
  method VerifyRec(blake: Blake, indices: seq<nat>, off: nat, hash: array<Byte>, r: nat, ghost t: Tree)
    returns (code: VerifyCode)
    requires r <= WK && Spells(indices, off, t, r) && hash.Length == HASHLEN
    modifies hash
    ensures code == Verdict(HashOf(blake), t, r)
    ensures code == POW_OK ==> hash[..] == TreeXor(HashOf(blake), t)
    decreases r
  {
    hide ZeroPrefix;
    hide Verdict;
    hide TreeXor;
    hide HashOf;
    hide Spells;
    hide Perfect;
    SpellsHalves(indices, off, t, r);
    VerdictDef(HashOf(blake), t, r);
    if r == 0 {
      GenHash(blake, indices[off], hash);
      return POW_OK;
    }
    var half := Pow2(r - 1);
    if indices[off] >= indices[off + half] {
      return POW_OUT_OF_ORDER;
    }
    var hash0, hash1 := new Byte[HASHLEN], new Byte[HASHLEN];
    var vrf0 := VerifyRec(blake, indices, off, hash0, r - 1, t.left);
    if vrf0 != POW_OK {
      return vrf0;
    }
    var vrf1 := VerifyRec(blake, indices, off + half, hash1, r - 1, t.right);
    if vrf1 != POW_OK {
      return vrf1;
    }
    XorInto(hash, hash0, hash1);
    var zero := LeadingBitsZero(hash, r * DIGITBITS);
    return if zero then POW_OK else POW_NONZERO_XOR;
  }

  lemma SpellsHalves(s: seq<nat>, off: nat, t: Tree, r: nat)
    requires Spells(s, off, t, r)
    ensures Perfect(t, r) && off + Pow2(r) <= |s| && First(t) == s[off]
    ensures r > 0 ==>
            && t.Node? && Spells(s, off, t.left, r - 1) && Spells(s, off + Pow2(r - 1), t.right, r - 1)
            && First(t.left) == s[off] && First(t.right) == s[off + Pow2(r - 1)]
  {
    if r > 0 {
      var half := Pow2(r - 1);
      var x := s[off..off + Pow2(r)];
      LeavesLength(t.left, r - 1);
      LeavesLength(t.right, r - 1);
      assert x[..half] == s[off..off + half] == Leaves(t.left);
      assert x[half..] == s[off + half..off + half + half] == Leaves(t.right);
    }
  }

  /** The loop that xors two 27-byte buffers into a third. */
  method XorInto(hash: array<Byte>, hash0: array<Byte>, hash1: array<Byte>)
    requires hash.Length == hash0.Length == hash1.Length == HASHLEN
    requires hash != hash0 && hash != hash1
    modifies hash
    ensures hash[..] == XorHash(hash0[..], hash1[..])
  {
    for i := 0 to HASHLEN
      invariant forall k :: 0 <= k < i ==> hash[k] == XorByte(hash0[k], hash1[k])
    {
      hash[i] := XorByte(hash0[i], hash1[i]);
    }
  }

  /** One unfolding of the definitions for a tree of height r. */
  lemma VerdictDef(H: IndexHash, t: Tree, r: nat)
    requires r <= WK && Perfect(t, r)
    ensures r == 0 ==> t.Leaf? && Verdict(H, t, r) == POW_OK && TreeXor(H, t) == H(t.idx)
    ensures r > 0 ==>
            && t.Node? && Perfect(t.left, r - 1) && Perfect(t.right, r - 1)
            && TreeXor(H, t) == XorHash(TreeXor(H, t.left), TreeXor(H, t.right))
            && Verdict(H, t, r) == if First(t.left) >= First(t.right) then POW_OUT_OF_ORDER
                                   else if Verdict(H, t.left, r - 1) != POW_OK then Verdict(H, t.left, r - 1)
                                   else if Verdict(H, t.right, r - 1) != POW_OK then Verdict(H, t.right, r - 1)
                                   else if ZeroPrefix(TreeXor(H, t), DIGITBITS * r) then POW_OK
                                   else POW_NONZERO_XOR
  {
    hide ZeroPrefix;
  }

  // ---------- duplicates ----------

  predicate Ascending(s: seq<nat>)
  {
    forall i, j :: 0 <= i < j < |s| ==> s[i] <= s[j]
  }

  function Insert(x: nat, s: seq<nat>): seq<nat>
  {
    if s == [] || x <= s[0] then [x] + s else [s[0]] + Insert(x, s[1..])
  }

  lemma {:induction false} InsertAdds(x: nat, s: seq<nat>)
    ensures multiset(Insert(x, s)) == multiset{x} + multiset(s)
  {
    if s == [] || x <= s[0] {
    } else {
      InsertAdds(x, s[1..]);
      assert s == [s[0]] + s[1..];
    }
  }

  lemma {:induction false} InsertSorts(x: nat, s: seq<nat>)
    requires Ascending(s)
    ensures Ascending(Insert(x, s))
    ensures forall k :: 0 <= k < |Insert(x, s)| ==> (if s == [] || x <= s[0] then x else s[0]) <= Insert(x, s)[k]
  {
    if s == [] || x <= s[0] {
    } else {
      InsertSorts(x, s[1..]);
    }
  }

  /** What the library's qsort leaves behind: the same entries in ascending order. */
  function Sort(s: seq<nat>): (r: seq<nat>)
    ensures Ascending(r) && multiset(r) == multiset(s)
  {
    if s == [] then
      []
    else
      assert s == [s[0]] + s[1..];
      InsertSorts(s[0], Sort(s[1..]));
      InsertAdds(s[0], Sort(s[1..]));
      Insert(s[0], Sort(s[1..]))
  }

  method Duped(prf: seq<nat>) returns (d: bool)
    ensures d <==> !Distinct(prf)
  {
    hide Sort;
    hide Distinct;
    var sortprf := Sort(prf);
    assert Distinct(prf) <==> Distinct(sortprf) by {
      DistinctMultiset(prf);
      DistinctMultiset(sortprf);
    }
    var i := 1;
    while i < |sortprf|
      invariant 1 <= i
      invariant forall k :: 1 <= k < i && k < |sortprf| ==> sortprf[k - 1] < sortprf[k]
    {
      if sortprf[i] <= sortprf[i - 1] {
        EqualNeighbours(sortprf, i);
        return true;
      }
      i := i + 1;
    }
    StrictlyAscending(sortprf);
    return false;
  }

  lemma EqualNeighbours(s: seq<nat>, i: nat)
    requires Ascending(s) && 1 <= i < |s| && s[i] <= s[i - 1]
    ensures !Distinct(s)
  {
    assert s[i - 1] == s[i];
  }

  lemma StrictlyAscending(s: seq<nat>)
    requires Ascending(s) && forall k :: 1 <= k < |s| ==> s[k - 1] < s[k]
    ensures Distinct(s)
  {
    forall i, j | 0 <= i < j < |s|
      ensures s[i] != s[j]
    {
      assert s[j - 1] < s[j] && s[i] <= s[j - 1];
    }
  }

  /** verify accepts exactly the proofs that meet Wagner's conditions. */
  method Verify(blake: Blake, indices: seq<nat>) returns (code: VerifyCode)
    requires |indices| == PROOFSIZE
    ensures code == POW_OK <==> WagnerProof(HashOf(blake), indices)
    ensures code == POW_DUPLICATE <==> !Distinct(indices)
    ensures Distinct(indices) ==> forall t :: Perfect(t, WK) && Leaves(t) == indices ==>
              code == Verdict(HashOf(blake), t, WK)
  {
    hide WagnerProof;
    hide Distinct;
    hide Perfect;
    hide Verdict;
    var dup := Duped(indices);
    NotDistinct(HashOf(blake), indices);
    if dup {
      return POW_DUPLICATE;
    }
    var hash := new Byte[HASHLEN];
    code := VerifyAll(blake, indices, hash, WK);
  }

  /** The call of verifyrec on the whole proof. */
  method VerifyAll(blake: Blake, indices: seq<nat>, hash: array<Byte>, r: nat) returns (code: VerifyCode)
    requires r == WK && |indices| == PROOFSIZE && hash.Length == HASHLEN && Distinct(indices)
    modifies hash
    ensures code == POW_OK <==> WagnerProof(HashOf(blake), indices)
    ensures code != POW_DUPLICATE
    ensures forall t :: Perfect(t, WK) && Leaves(t) == indices ==> code == Verdict(HashOf(blake), t, WK)
  {
    hide WagnerProof;
    hide Distinct;
    hide TreeOf;
    hide Verdict;
    hide Perfect;
    Pow2Table();
    ghost var t := TreeOf(indices, r);
    assert indices[0..0 + Pow2(r)] == indices;
    code := VerifyRec(blake, indices, 0, hash, r, t);
    VerdictExact(HashOf(blake), t, r);
    VerdictCodes(HashOf(blake), t, r);
    ProofIsTree(HashOf(blake), t);
    forall u | Perfect(u, WK) && Leaves(u) == indices
      ensures u == t
    {
      SameLeaves(u, t, WK);
    }
  }

  lemma NotDistinct(H: IndexHash, s: seq<nat>)
    ensures WagnerProof(H, s) ==> Distinct(s)
  {
  }
}
