/**
  CPU_TROMP::solve: the sequence of rounds on one solver object, with a cancel
  question before each round and after each delivered proof.
*/
module CpuTromp {
  import opened Arith
  import opened HashBits
  import opened Wagner
  import opened Layers
  import opened Verifier
  import opened SolverTheorems
  import opened ProofTheorems
  import opened Memory
  import opened Equihash

  lemma LayersToDef(H: IndexHash, r: nat)
    requires 0 < r < WK
    ensures LayersTo(H, r - 1)[r - 1] == LayerAt(H, r - 1)
    ensures LayersTo(H, r) ==
              LayersTo(H, r - 1) + [Absorb(H, r, LayerAt(H, r - 1), Pairs(H, r - 1, LayerAt(H, r - 1))).layer]
  {
    hide Absorb;
    hide Pairs;
    hide LeafLayer;
  }

  lemma LayersToStart(H: IndexHash)
    ensures LayersTo(H, 0) == [LeafLayer(H, NHASHES)]
  {
    hide LeafLayer;
    hide Absorb;
    hide Pairs;
  }

  /** Some of the first n questions is answered yes. */
  predicate Cancelled(cancels: nat -> bool, n: nat)
  {
    exists k: nat :: k < n && cancels(k)
  }

  /**
    solve: without a cancel it hands over an entry of the solution array for every proof
    found, in the order found; a cancel during the rounds leaves nothing handed over, a later
    one stops after the proof just handed over. The array has MAXSOLS entries and the loop
    does not stop there: it runs past the array exactly when it hands over more than that.
  */
  method Solve(blake: Blake, cancels: nat -> bool, beyond: nat -> seq<nat>)
    returns (delivered: seq<seq<nat>>, finished: bool, overran: bool)
    ensures (exists k: nat :: k < 10 && cancels(k)) ==> delivered == []
    ensures var found := AllFound(HashOf(blake));
            && |delivered| <= |found|
            && (forall i :: 0 <= i < |delivered| ==> delivered[i] == if i < MAXSOLS then found[i] else beyond(i))
            && ((forall k: nat :: k < 10 ==> !cancels(k)) && found != [] ==> delivered != [])
            && (forall k: nat :: 10 <= k < 9 + |delivered| ==> !cancels(k))
            && ((forall k: nat :: k < 10 ==> !cancels(k)) && |delivered| < |found| ==> cancels(9 + |delivered|))
            && (finished <==> forall k: nat :: k < 10 + |found| ==> !cancels(k))
            && (!overran ==> delivered <= found)
    ensures overran <==> |delivered| > MAXSOLS
  {
    hide AllFound;
    hide LayersTo;
    hide LayerAt;
    hide Pairs;
    hide Found;
    hide LeafLayer;
    hide HashOf;
    hide Equi.AfterRound;
    hide Equi.Recorded;
    hide Equi.Allocated;
    hide Mem.Shape;
    hide Excess;
    hide Image;
    ghost var H := HashOf(blake);
    var eq := new Equi(blake);
    eq.Digit0();
    eq.bfull, eq.hfull := 0, 0;
    LayersToStart(H);
    var ok := MiddleRounds(eq, cancels);
    if !ok || cancels(8) {
      return [], false, false;
    }
    LastLayer(H);
    eq.Digit9(LayersTo(H, WK - 1));
    eq.bfull, eq.hfull := 0, 0;
    if cancels(9) {
      return [], false, false;
    }
    delivered, finished, overran := Deliver(eq, cancels, beyond, AllFound(H));
  }

  /** The calls of digit1 to digit8, each after its cancel question; the counters are reset after each. */
  method MiddleRounds(eq: Equi, cancels: nat -> bool) returns (ok: bool)
    requires eq.AfterRound(LayersTo(eq.H(), 0))
    modifies eq.heap0, eq.heap1, eq.nslots0, eq.nslots1, eq`bfull, eq`hfull
    ensures ok <==> !Cancelled(cancels, 8)
    ensures ok ==> eq.AfterRound(LayersTo(eq.H(), WK - 1))
  {
    hide LayersTo;
    hide LayerAt;
    hide Absorb;
    hide Equi.AfterRound;
    hide Equi.H;
    var r := 1;
    while r < WK
      invariant 1 <= r <= WK && !Cancelled(cancels, r - 1)
      invariant eq.AfterRound(LayersTo(eq.H(), r - 1))
    {
      if cancels(r - 1) {
        return false;
      }
      LayersToDef(eq.H(), r);
      eq.DigitRound(r, LayersTo(eq.H(), r - 1));
      eq.bfull, eq.hfull := 0, 0;
      r := r + 1;
    }
    return true;
  }

  lemma LastLayer(H: IndexHash)
    ensures LayersTo(H, WK - 1)[WK - 1] == LayerAt(H, WK - 1)
    ensures AllFound(H) == Found(H, LayerAt(H, WK - 1), Pairs(H, WK - 1, LayerAt(H, WK - 1)))
  {
    hide LayerAt;
    hide Pairs;
    hide Found;
    LayersToAt(H, WK - 1, WK - 1);
  }

  /** The loop that hands the recorded proofs over. */
  method Deliver(eq: Equi, cancels: nat -> bool, beyond: nat -> seq<nat>, ghost found: seq<seq<nat>>)
    returns (delivered: seq<seq<nat>>, finished: bool, overran: bool)
    requires eq.Recorded(found)
    ensures |delivered| <= |found|
    ensures forall i :: 0 <= i < |delivered| ==> delivered[i] == if i < MAXSOLS then found[i] else beyond(i)
    ensures found != [] ==> delivered != []
    ensures forall k: nat :: 10 <= k < 9 + |delivered| ==> !cancels(k)
    ensures |delivered| < |found| ==> cancels(9 + |delivered|)
    ensures finished <==> forall k: nat :: 10 <= k < 10 + |found| ==> !cancels(k)
    ensures overran <==> |delivered| > MAXSOLS
    ensures !overran ==> delivered <= found
  {
    hide Equi.Allocated;
    delivered := [];
    overran := false;
    var s := 0;
    while s < eq.nsols
      invariant 0 <= s <= |found| && |delivered| == s
      invariant forall i :: 0 <= i < s ==> delivered[i] == if i < MAXSOLS then found[i] else beyond(i)
      invariant forall k: nat :: 10 <= k < 10 + s ==> !cancels(k)
      invariant overran <==> s > MAXSOLS
    {
      var proof;
      if s < MAXSOLS {
        proof := eq.sols[s];
      } else {
        proof := beyond(s);
        overran := true;
      }
      delivered := delivered + [proof];
      if cancels(10 + s) {
        return delivered, false, overran;
      }
      s := s + 1;
    }
    return delivered, true, overran;
  }

  /** Every proof handed over passes verify, and its whole 210-bit xor is zero. */
  lemma DeliveredVerify(blake: Blake, s: seq<nat>)
    requires s in AllFound(HashOf(blake))
    ensures WagnerProof(HashOf(blake), s) && ZeroPrefix(FoldXor(HashOf(blake), s), DIGITBITS * 10) && AllBelow(s)
  {
    hide AllFound;
    hide WagnerProof;
    hide ZeroPrefix;
    hide FoldXor;
    hide IsSearch;
    hide LayersTo;
    SequentialSearch(HashOf(blake));
    SolverSound(HashOf(blake), LayersTo(HashOf(blake), LAST), AllFound(HashOf(blake)), s);
  }

  /**
    Solver and checker together: verify answers POW_OK on all that comes from inside the
    solution array; what a read behind it gives, any PROOFSIZE words, passes only by being a proof.
  */
  method SolveThenVerify(blake: Blake, cancels: nat -> bool, beyond: nat -> seq<nat>)
    returns (delivered: seq<seq<nat>>, codes: seq<VerifyCode>, overran: bool)
    requires forall i :: |beyond(i)| == PROOFSIZE
    ensures |codes| == |delivered|
    ensures forall i :: 0 <= i < |codes| ==>
              (codes[i] == POW_OK <==> i < MAXSOLS || WagnerProof(HashOf(blake), beyond(i)))
    ensures overran <==> |codes| > MAXSOLS
    ensures !overran ==> forall i :: 0 <= i < |codes| ==> codes[i] == POW_OK
  {
    hide AllFound;
    hide WagnerProof;
    hide HashOf;
    hide FullProof;
    hide Perfect;
    hide Verdict;
    var finished;
    delivered, finished, overran := Solve(blake, cancels, beyond);
    codes := [];
    for i := 0 to |delivered|
      invariant |codes| == i
      invariant forall j :: 0 <= j < i ==>
                  (codes[j] == POW_OK <==> j < MAXSOLS || WagnerProof(HashOf(blake), beyond(j)))
    {
      if i < MAXSOLS {
        DeliveredVerify(blake, delivered[i]);
        ProofLength(HashOf(blake), delivered[i]);
      }
      var code := Verify(blake, delivered[i]);
      codes := codes + [code];
    }
  }

  lemma ProofLength(H: IndexHash, s: seq<nat>)
    requires WagnerProof(H, s)
    ensures |s| == PROOFSIZE
  {
  }
}
