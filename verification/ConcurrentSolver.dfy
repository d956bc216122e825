/**
  What every execution of the multi-threaded solver keeps, for any number of workers
  and any interleaving of their steps: no slot is claimed twice, every slot that is
  read is whole and holds the tree stored there in the round before, every bucket is
  scanned once by one worker, and the layers left behind form a run, so that the
  proofs found are sound, different and complete up to dropped trees.
*/
module ConcurrentSolver {
  import opened Arith
  import opened HashBits
  import opened Wagner
  import opened Layers
  import opened SolverTheorems
  import opened ProofTheorems
  import opened Workers
  import opened WorkerInvariant

  // ---------- every execution ----------

  lemma StepKeeps(H: IndexHash, st: State, st': State)
    requires Inv(H, st) && Next(H, st, st')
    ensures Inv(H, st')
  {
    hide Inv;
    hide StartBlock;
    hide HashLeaf;
    hide LoadCount;
    hide ClearCount;
    hide AddSlot;
    hide ReadPair;
    hide HandlePair;
    hide EndUnit;
    hide ReachBarrier;
    hide LeaveBarrier;
    hide BeginWrite;
    hide EndWrite;
    hide OpenBarrier;
    if OpenBarrier(st, st') {
      OpenKeeps(H, st, st');
    } else {
      var i :| WorkerStep(H, st, st', i);
      if StartBlock(st, st', i) {
        StartBlockKeeps(H, st, st', i);
      } else if HashLeaf(H, st, st', i) {
        HashLeafKeeps(H, st, st', i);
      } else if LoadCount(st, st', i) {
        LoadCountKeeps(H, st, st', i);
      } else if ClearCount(st, st', i) {
        ClearCountKeeps(H, st, st', i);
      } else if t :| AddSlot(H, st, st', i, t) {
        AddSlotKeeps(H, st, st', i, t);
      } else if t0, t1 :| ReadPair(st, st', i, t0, t1) {
        ReadPairKeeps(H, st, st', i, t0, t1);
      } else if HandlePair(H, st, st', i) {
        HandlePairKeeps(H, st, st', i);
      } else if EndUnit(st, st', i) {
        EndUnitKeeps(H, st, st', i);
      } else if ReachBarrier(st, st', i) {
        ReachBarrierKeeps(H, st, st', i);
      } else if LeaveBarrier(st, st', i) {
        LeaveBarrierKeeps(H, st, st', i);
      } else if BeginWrite(st, st', i) {
        BeginWriteKeeps(H, st, st', i);
      } else {
        EndWriteKeeps(H, st, st', i);
      }
    }
  }

  /** The invariant holds in every state that any interleaving reaches. */
  lemma {:induction false} ExecutionInv(H: IndexHash, states: seq<State>, k: nat)
    requires Execution(H, states) && k < |states|
    ensures Inv(H, states[k])
  {
    hide Inv;
    hide Initial;
    hide Next;
    if k == 0 {
      InitialInv(H, states[0]);
    } else {
      ExecutionInv(H, states, k - 1);
      assert StepAt(H, states, k);
      StepKeeps(H, states[k - 1], states[k]);
    }
  }

  predicate HasBucket(w: Worker)
  {
    w.work.Counted? || w.work.Scanning? || w.work.Matched?
  }

  lemma Apart(H: IndexHash, st: State, i: nat, j: nat)
    requires Inv(H, st) && i < j < |st.workers|
    ensures var x, y := st.workers[i], st.workers[j];
            !SamePlace(x.claim, y.claim) && (HasBucket(x) && HasBucket(y) ==> x.round == y.round && x.next != y.next)
  {
    hide Inv;
    hide Base;
    hide ScanOK;
    hide Live;
    InvWorker(H, st, i);
    InvWorker(H, st, j);
    InvShape(H, st);
    assert !SamePlace(st.workers[i].claim, st.workers[j].claim);
  }

  /** At any moment two workers write to different places, and no bucket is scanned by two workers. */
  lemma WorkersApart(H: IndexHash, states: seq<State>, k: nat, i: nat, j: nat)
    requires Execution(H, states) && k < |states| && i < j < |states[k].workers|
    ensures var x, y := states[k].workers[i], states[k].workers[j];
            !SamePlace(x.claim, y.claim) && (HasBucket(x) && HasBucket(y) ==> x.round == y.round && x.next != y.next)
  {
    hide *;
    ExecutionInv(H, states, k);
    Apart(H, states[k], i, j);
  }

  lemma BaseAt(g: nat, layers: seq<Layer>, b: nat, s: nat)
    requires 1 <= g <= WK && |layers| == (if g < WK then g else WK) && b < |layers[g - 1]| && b < |Base(g, layers)|
    requires s < |Live(Base(g, layers)[b])|
    ensures s < |layers[g - 1][b]| && layers[g - 1][b][s] == Live(Base(g, layers)[b])[s]
  {
  }

  /** Slot s of the bucket that worker w scans holds what the round before stored there. */
  predicate ReadsStored(st: State, w: Worker, s: nat)
  {
    && 1 <= w.round == st.round <= |st.layers| && w.next < |st.layers[w.round - 1]|
    && s < |st.layers[w.round - 1][w.next]|
    && st.cells(Place(Source(w.round), w.next, s)) == Holds(st.layers[w.round - 1][w.next][s])
  }

  lemma InvReads(H: IndexHash, st: State, i: nat, s: nat)
    requires Inv(H, st) && i < |st.workers|
    requires var work := st.workers[i].work; (work.Scanning? || work.Matched?) && s < work.bsize
    ensures ReadsStored(st, st.workers[i], s)
  {
    hide Inv;
    hide WorkerOK;
    hide Base;
    hide Live;
    InvWorker(H, st, i);
    BucketInHand(H, st.round, |st.workers|, Base(st.round, st.layers), i, st.workers[i]);
    InvShape(H, st);
    InvSource(H, st, i, s);
    BaseAt(st.round, st.layers, st.workers[i].next, s);
  }

  /** A slot that a scanning worker may read is whole. */
  lemma ReadsAreWhole(H: IndexHash, states: seq<State>, k: nat, i: nat, s: nat)
    requires Execution(H, states) && k < |states| && i < |states[k].workers|
    requires var work := states[k].workers[i].work; (work.Scanning? || work.Matched?) && s < work.bsize
    ensures ReadsStored(states[k], states[k].workers[i], s)
  {
    hide *;
    ExecutionInv(H, states, k);
    InvReads(H, states[k], i, s);
  }

  lemma InvHeaps(H: IndexHash, st: State, i: nat, j: nat)
    requires Inv(H, st) && i < |st.workers| && j < |st.workers|
    requires (st.workers[i].work.Scanning? || st.workers[i].work.Matched?) && st.workers[j].claim.SlotClaim?
    ensures st.workers[j].claim.place.h != Source(st.workers[i].round)
  {
    hide Inv;
    hide WorkerOK;
    hide Base;
    InvWorker(H, st, i);
    BucketInHand(H, st.round, |st.workers|, Base(st.round, st.layers), i, st.workers[i]);
    InvShape(H, st);
    assert ClaimOK(st.round, st.out, st.found, st.workers[j].claim);
  }

  /** No heap is read and written in the same round. */
  lemma HeapsApart(H: IndexHash, states: seq<State>, k: nat, i: nat, j: nat)
    requires Execution(H, states) && k < |states| && i < |states[k].workers| && j < |states[k].workers|
    requires states[k].workers[i].work.Scanning? || states[k].workers[i].work.Matched?
    requires states[k].workers[j].claim.SlotClaim?
    ensures states[k].workers[j].claim.place.h != Source(states[k].workers[i].round)
  {
    hide *;
    ExecutionInv(H, states, k);
    InvHeaps(H, states[k], i, j);
  }

  // ---------- no slot is claimed twice in a round ----------

  /** Step k gives worker i the slot at place q. */
  predicate Claims(states: seq<State>, k: nat, i: nat, q: Place)
  {
    && 1 <= k < |states| && i < |states[k - 1].workers| && i < |states[k].workers|
    && states[k - 1].workers[i].claim == NoClaim
    && states[k].workers[i].claim.SlotClaim? && states[k].workers[i].claim.place == q
  }

  lemma StepArrivals(H: IndexHash, st: State, st': State, c: nat)
    requires Next(H, st, st') && c < |st.out|
    ensures st.round <= st'.round
    ensures st.round == st'.round ==> |st.out| == |st'.out| && |st.out[c]| <= |st'.out[c]|
  {
    hide EmptyLayer;
    if !OpenBarrier(st, st') {
      hide OpenBarrier, WorkerStep, HashLeaf, HandlePair;
      var i: nat :| WorkerStep(H, st, st', i);
      if HashLeaf(H, st, st', i) || HandlePair(H, st, st', i) {
        ReserveArrivals(H, st, st', i, c);
      } else {
        QuietArrivals(H, st, st', i);
      }
    }
  }

  lemma ReserveArrivals(H: IndexHash, st: State, st': State, i: nat, c: nat)
    requires (HashLeaf(H, st, st', i) || HandlePair(H, st, st', i)) && c < |st.out|
    ensures st.round == st'.round && |st.out| == |st'.out| && |st.out[c]| <= |st'.out[c]|
  {
    hide BucketOf, Rejected, Accepted, TreeXor, Canon, Leaves, SetCount;
  }

  lemma QuietArrivals(H: IndexHash, st: State, st': State, i: nat)
    requires WorkerStep(H, st, st', i) && !HashLeaf(H, st, st', i) && !HandlePair(H, st, st', i)
    ensures st.round == st'.round && st.out == st'.out
  {
    hide HashLeaf, HandlePair, RestOf, TreeXor, Partners, CanRead, UnitDone, Units, SetCount, SetCell, SetTag, SetSol;
  }

  /** Within a round the arrivals of a bucket only grow. */
  lemma {:induction false} ArrivalsGrow(H: IndexHash, states: seq<State>, k: nat, l: nat, c: nat)
    requires Execution(H, states) && k <= l < |states| && c < NBUCKETS
    ensures states[k].round <= states[l].round && |states[k].out| == |states[l].out| == NBUCKETS
    ensures states[k].round == states[l].round ==> |states[k].out[c]| <= |states[l].out[c]|
  {
    hide Next;
    hide Initial;
    ShapeAt(H, states, k);
    ShapeAt(H, states, l);
    if k < l {
      ArrivalsGrow(H, states, k, l - 1, c);
      assert StepAt(H, states, l);
      StepArrivals(H, states[l - 1], states[l], c);
    }
  }

  lemma ShapeAt(H: IndexHash, states: seq<State>, k: nat)
    requires Execution(H, states) && k < |states|
    ensures |states[k].out| == NBUCKETS
  {
    hide Execution;
    ExecutionInv(H, states, k);
    hide Inv;
    InvShape(H, states[k]);
  }

  /** Claims made at different steps of one round are for different slots. */
  lemma NoSlotTwice(H: IndexHash, states: seq<State>, k: nat, l: nat, i: nat, j: nat, q: Place, q': Place)
    requires Execution(H, states) && k < l && Claims(states, k, i, q) && Claims(states, l, j, q')
    requires states[k].round == states[l].round
    ensures q != q'
  {
    ClaimAt(H, states, k, i, q);
    ClaimAt(H, states, l, j, q');
    hide Execution;
    if q.c == q'.c {
      ArrivalsGrow(H, states, k, l - 1, q.c);
      ArrivalsGrow(H, states, l - 1, l, q.c);
    }
  }

  /** The number a claim gets is the number of earlier arrivals in the bucket. */
  lemma ClaimAt(H: IndexHash, states: seq<State>, k: nat, i: nat, q: Place)
    requires Execution(H, states) && Claims(states, k, i, q)
    ensures q.c < NBUCKETS && |states[k - 1].out| == |states[k].out| == NBUCKETS
    ensures states[k - 1].round == states[k].round
    ensures q.s == |states[k - 1].out[q.c]| && q.s < |states[k].out[q.c]|
  {
    hide Execution;
    hide Inv;
    hide Next;
    ExecutionInv(H, states, k - 1);
    ExecutionInv(H, states, k);
    ExecutionStep(H, states, k);
    NewClaim(H, states[k - 1], states[k], i);
  }

  lemma ExecutionStep(H: IndexHash, states: seq<State>, k: nat)
    requires Execution(H, states) && 1 <= k < |states|
    ensures Next(H, states[k - 1], states[k])
  {
    hide Next;
    hide Initial;
    assert StepAt(H, states, k);
  }

  lemma NewClaim(H: IndexHash, st: State, st': State, i: nat)
    requires Inv(H, st) && Inv(H, st') && Next(H, st, st') && i < |st.workers| && i < |st'.workers|
    requires st.workers[i].claim == NoClaim && st'.workers[i].claim.SlotClaim?
    ensures st.round == st'.round && |st.out| == |st'.out| == NBUCKETS
    ensures var q := st'.workers[i].claim.place; q.c < NBUCKETS && q.s == |st.out[q.c]| && q.s < |st'.out[q.c]|
  {
    hide Inv;
    InvShape(H, st);
    InvShape(H, st');
    assert ClaimOK(st'.round, st'.out, st'.found, st'.workers[i].claim);
    ClaimNumber(H, st, st', i);
  }

  lemma ClaimNumber(H: IndexHash, st: State, st': State, i: nat)
    requires Next(H, st, st') && i < |st.workers| && i < |st'.workers|
    requires st.workers[i].claim == NoClaim && st'.workers[i].claim.SlotClaim?
    ensures st.round == st'.round
    ensures var q := st'.workers[i].claim.place; q.s == st.counts(Counter(q.h, q.c))
  {
    hide HashLeaf;
    hide HandlePair;
    hide EmptyLayer;
    if !OpenBarrier(st, st') {
      hide OpenBarrier;
      hide WorkerStep;
      var j :| WorkerStep(H, st, st', j);
      if HashLeaf(H, st, st', j) || HandlePair(H, st, st', j) {
        ReserveNumber(H, st, st', i, j);
      } else {
        QuietStep(H, st, st', i, j);
      }
    }
  }

  lemma ReserveNumber(H: IndexHash, st: State, st': State, i: nat, j: nat)
    requires HashLeaf(H, st, st', j) || HandlePair(H, st, st', j)
    requires i < |st.workers| && i < |st'.workers| && st.workers[i].claim == NoClaim && st'.workers[i].claim.SlotClaim?
    ensures st.round == st'.round
    ensures var q := st'.workers[i].claim.place; q.s == st.counts(Counter(q.h, q.c))
  {
    hide BucketOf;
    hide Rejected;
    hide Accepted;
    hide RestOf;
    hide TreeXor;
    hide Partners;
    hide CanRead;
    hide EmptyLayer;
    hide Arrive;
    hide SetCount;
    hide SetCell;
    hide SetSol;
    hide UnitDone;
    hide Canon;
    hide Leaves;
    hide Units;
  }

  /** No other step of a worker claims a slot. */
  lemma QuietStep(H: IndexHash, st: State, st': State, i: nat, j: nat)
    requires WorkerStep(H, st, st', j) && !HashLeaf(H, st, st', j) && !HandlePair(H, st, st', j)
    requires i < |st.workers| && i < |st'.workers| && st.workers[i].claim == NoClaim
    ensures !st'.workers[i].claim.SlotClaim?
  {
    hide HashLeaf;
    hide HandlePair;
    hide BucketOf;
    hide Rejected;
    hide Accepted;
    hide RestOf;
    hide TreeXor;
    hide Partners;
    hide CanRead;
    hide EmptyLayer;
    hide Arrive;
    hide SetCount;
    hide SetCell;
    hide SetSol;
    hide UnitDone;
    hide Canon;
    hide Leaves;
    hide Units;
  }

  // ---------- the search as a whole ----------

  /**
    When the last barrier has opened, the layers are those of a run, the proofs that
    got a number are those its last round finds, the first MAXSOLS of them are stored,
    and every slot counter is zero again.
  */
  lemma ConcurrentSearch(H: IndexHash, states: seq<State>, k: nat)
    requires Execution(H, states) && k < |states| && states[k].round == ROUNDS
    ensures var st := states[k];
            && IsSearch(H, st.layers, st.found) && st.nsols == |st.found|
            && (forall s :: 0 <= s < |st.found| && s < MAXSOLS ==> st.sols(s) == Sol(st.found[s]))
            && NoCounts(0, st.counts) && NoCounts(1, st.counts)
  {
    ExecutionInv(H, states, k);
    hide Execution;
    FinalState(H, states[k]);
  }

  lemma FinalState(H: IndexHash, st: State)
    requires Inv(H, st) && st.round == ROUNDS
    ensures IsSearch(H, st.layers, st.found) && st.nsols == |st.found|
    ensures forall s :: 0 <= s < |st.found| && s < MAXSOLS ==> st.sols(s) == Sol(st.found[s])
    ensures NoCounts(0, st.counts) && NoCounts(1, st.counts)
  {
    hide WorkerOK;
    hide IsSearch;
    hide HistoryOK;
    hide SourceCells;
    hide TargetCells;
    forall i | 0 <= i < |st.workers|
      ensures st.workers[i].claim == NoClaim
    {
      assert ClaimOK(st.round, st.out, st.found, st.workers[i].claim);
    }
    assert Target(st.round) == 0 && Source(st.round) == 1;
  }

  /** Every proof that the workers leave behind is a full proof, and no two are the same. */
  lemma ConcurrentSound(H: IndexHash, states: seq<State>, k: nat, s: nat)
    requires Execution(H, states) && k < |states| && states[k].round == ROUNDS
    requires s < states[k].nsols && s < MAXSOLS
    ensures states[k].sols(s).Sol? && FullProof(H, states[k].sols(s).proof)
    ensures forall r :: 0 <= r < s ==> states[k].sols(r).Sol? && states[k].sols(r) != states[k].sols(s)
  {
    hide Execution;
    hide IsSearch;
    hide FullProof;
    hide NoCounts;
    var st := states[k];
    ConcurrentSearch(H, states, k);
    SolverSound(H, st.layers, st.found, st.found[s]);
    SolverUnique(H, st.layers, st.found);
  }

  /** A full proof is among those found exactly when no subtree of its halves was dropped in this interleaving. */
  lemma ConcurrentComplete(H: IndexHash, states: seq<State>, k: nat, t: Tree)
    requires Execution(H, states) && k < |states| && states[k].round == ROUNDS && states[k].nsols <= MAXSOLS
    requires Perfect(t, WK) && t.Node? && FullProof(H, Leaves(t))
    ensures |states[k].layers| == WK
    ensures (exists s :: 0 <= s < states[k].nsols && states[k].sols(s) == Sol(Leaves(t))) <==>
            Survives(H, states[k].layers, t.left, LAST) && Survives(H, states[k].layers, t.right, LAST)
  {
    hide Execution;
    hide IsSearch;
    hide FullProof;
    hide NoCounts;
    hide Perfect;
    hide Survives;
    var st := states[k];
    ConcurrentSearch(H, states, k);
    SolverComplete(H, st.layers, st.found, t);
    if Leaves(t) in st.found {
      var s :| 0 <= s < |st.found| && st.found[s] == Leaves(t);
      assert st.sols(s) == Sol(Leaves(t));
    }
  }

  /** While a slot is being written a reader may find anything in it, and afterwards only the tree. */
  lemma WritesTear(st: State, st': State, i: nat, place: Place, t: Tree, tag: Mark)
    requires i < |st.workers| && st.workers[i].claim == SlotClaim(place, t, tag)
    ensures BeginWrite(st, st', i) ==> st'.workers == st.workers && forall u :: CanRead(st'.cells(place), u)
    ensures EndWrite(st, st', i) ==>
              st'.workers[i].claim == NoClaim && forall u :: CanRead(st'.cells(place), u) <==> u == t
  {
  }
}
