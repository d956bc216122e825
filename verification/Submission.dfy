/**
  A proof of the solver in the form in which the miner submits it.
*/
module Submission {
  import opened Arith
  import opened Compress
  import opened HashBits
  import opened ProofTheorems
  import opened Wagner

  /** Bits of one index of a (210, 9) proof. */
  const INDEXBITS: nat := 22

  lemma Pow2Of22()
    ensures Pow2(INDEXBITS) == NHASHES
  {
    Pow2Table();
    Pow2Add(9, 9);
    Pow2Add(18, 4);
  }

  /** A proof packs into 1408 bytes, and different proofs pack differently. */
  lemma ProofsPackApart(H: IndexHash, H': IndexHash, s: seq<nat>, t: seq<nat>, out: seq<Byte>)
    requires FullProof(H, s) && FullProof(H', t)
    requires IsPacking(s, INDEXBITS, out) && IsPacking(t, INDEXBITS, out)
    ensures s == t && |out| == 1408
  {
    hide Pow2;
    hide BigEnd;
    hide AllBlocksOK;
    hide ZeroPrefix;
    hide FoldXor;
    Pow2Of22();
    PackingInjective(s, t, INDEXBITS, out);
  }
}
