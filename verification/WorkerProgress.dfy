/**
  The workers come to an end: a number that every step lowers, but for the repetition of
  a write that has begun, so that every execution can go on to the opening of the last
  barrier and none can go on much longer.
*/
module WorkerProgress {
  import opened Arith
  import opened HashBits
  import opened Wagner
  import opened Layers
  import opened Workers
  import opened WorkerInvariant
  import opened ConcurrentSolver

  /** Steps for one slot of a bucket and its pairs, and for one unit of work, at most. */
  const SLOTSTEPS: nat := 3 * NSLOTS
  const UNITSTEPS: nat := SLOTSTEPS * NSLOTS + 8
  /** Steps of one worker in one round, at most. */
  const ROUNDSTEPS: nat := UNITSTEPS * NBLOCKS + 2

  /** Units of the round that may still lie ahead of a worker. */
  function Ahead(g: nat, next: nat): nat
  {
    if next < Units(g) then Units(g) - next else 0
  }

  /** Steps left in the unit at hand, at most. */
  function UnitRank(work: Work): nat
  {
    match work
    case Hashing(j) => if j < 2 then 2 * (2 - j) else 0
    case Counted(_) => SLOTSTEPS * NSLOTS + 1
    case Scanning(bsize, rests, partners) => SlotsRank(bsize, |rests|) + 3 * |partners|
    case Matched(bsize, rests, partners, _, _) =>
      SlotsRank(bsize, |rests|) + (if partners == [] then 0 else 3 * |partners| - 1)
    case _ => 0
  }

  function SlotsRank(bsize: nat, linked: nat): nat
  {
    if linked < bsize then SLOTSTEPS * (bsize - linked) else 0
  }

  /** Steps that a worker may still make before the barrier of round g opens, at most. */
  function Rank(g: nat, w: Worker): nat
  {
    (match w.work
     case Idle => UNITSTEPS * Ahead(g, w.next) + 1
     case AtBarrier => if w.round < g <= WK then UNITSTEPS * Units(g) + 2 else 0
     case _ => UNITSTEPS * (if w.next < Units(g) then Ahead(g, w.next) - 1 else 0) + 2 + UnitRank(w.work))
    + if w.claim == NoClaim then 0 else 1
  }

  function Total(g: nat, ws: seq<Worker>): nat
  {
    if ws == [] then 0 else Total(g, ws[..|ws| - 1]) + Rank(g, ws[|ws| - 1])
  }

  /** Steps of all workers in the rounds to come, at most. */
  function Later(rounds: nat, n: nat): nat
  {
    if rounds == 0 then 0 else Later(rounds - 1, n) + n * ROUNDSTEPS + 1
  }

  function Measure(st: State): nat
  {
    Total(st.round, st.workers) + Later(if st.round < ROUNDS then ROUNDS - st.round else 0, |st.workers|)
  }

  lemma {:induction false} TotalUpdate(g: nat, ws: seq<Worker>, i: nat, w: Worker)
    requires i < |ws|
    ensures Total(g, ws[i := w]) + Rank(g, ws[i]) == Total(g, ws) + Rank(g, w)
  {
    hide Rank;
    var n := |ws| - 1;
    if i == n {
      assert ws[i := w][..n] == ws[..n];
    } else {
      assert ws[i := w][..n] == ws[..n][i := w];
      TotalUpdate(g, ws[..n], i, w);
    }
  }

  lemma {:induction false} TotalAtMost(g: nat, ws: seq<Worker>)
    requires forall i :: 0 <= i < |ws| ==> Rank(g, ws[i]) <= ROUNDSTEPS
    ensures Total(g, ws) <= |ws| * ROUNDSTEPS
  {
    hide Rank;
    if ws == [] {
    } else {
      TotalAtMost(g, ws[..|ws| - 1]);
    }
  }

  // ---------- what one worker's step does to its rank ----------

  /** Worker i alone has moved, within the round, and its rank has fallen. */
  ghost predicate Moved(st: State, st': State, i: nat)
  {
    && i < |st.workers| == |st'.workers| && st'.round == st.round
    && st'.workers == st.workers[i := st'.workers[i]]
    && Rank(st.round, st'.workers[i]) < Rank(st.round, st.workers[i])
  }

  lemma MovedFalls(st: State, st': State, i: nat)
    requires Moved(st, st', i)
    ensures Measure(st') < Measure(st)
  {
    hide Rank;
    hide Later;
    TotalUpdate(st.round, st.workers, i, st'.workers[i]);
  }

  lemma NextAhead(g: nat, x: nat, n: nat)
    requires n > 0
    ensures Ahead(g, x + n) <= if x < Units(g) then Ahead(g, x) - 1 else 0
  {
  }

  lemma UnitMoves(H: IndexHash, st: State, st': State, i: nat)
    requires Inv(H, st)
    requires StartBlock(st, st', i) || EndUnit(st, st', i) || ReachBarrier(st, st', i) || LeaveBarrier(st, st', i)
    ensures Moved(st, st', i)
  {
    hide Inv;
    hide Base;
    hide Live;
    hide ScanOK;
    hide SlotsRank;
    InvWorker(H, st, i);
    NextAhead(st.round, st.workers[i].next, |st.workers|);
  }

  lemma CountMoves(H: IndexHash, st: State, st': State, i: nat)
    requires Inv(H, st) && (LoadCount(st, st', i) || ClearCount(st, st', i))
    ensures Moved(st, st', i)
  {
    hide Inv;
    hide Base;
    hide ScanOK;
    InvWorker(H, st, i);
  }

  lemma ScanMoves(H: IndexHash, st: State, st': State, i: nat, t: Tree)
    requires Inv(H, st) && AddSlot(H, st, st', i, t)
    ensures Moved(st, st', i)
  {
    hide Inv;
    hide Base;
    hide Live;
    hide RestOf;
    hide TreeXor;
    hide Partners;
    hide CanRead;
    hide WorkerOK;
    InvWorker(H, st, i);
    var work := st.workers[i].work;
    BucketInHand(H, st.round, |st.workers|, Base(st.round, st.layers), i, st.workers[i]);
    LiveFits(Base(st.round, st.layers)[st.workers[i].next]);
    PartnersCount(work.rests, RestOf(TreeXor(H, t), st.workers[i].round - 1), |work.rests|);
  }

  lemma LiveFits(arrivals: seq<Tree>)
    ensures |Live(arrivals)| <= NSLOTS
  {
  }

  lemma ReadMoves(H: IndexHash, st: State, st': State, i: nat, t0: Tree, t1: Tree)
    requires Inv(H, st) && ReadPair(st, st', i, t0, t1)
    ensures Moved(st, st', i)
  {
    hide Inv;
    hide CanRead;
    hide SlotsRank;
  }

  lemma HashMoves(H: IndexHash, st: State, st': State, i: nat)
    requires HashLeaf(H, st, st', i)
    ensures Moved(st, st', i)
  {
    hide BucketOf;
    hide Arrive;
    hide SetCount;
    hide SlotsRank;
  }

  lemma HandleMoves(H: IndexHash, st: State, st': State, i: nat)
    requires HandlePair(H, st, st', i)
    ensures Moved(st, st', i)
  {
    hide BucketOf;
    hide Arrive;
    hide SetCount;
    hide Rejected;
    hide Accepted;
    hide Canon;
    hide Leaves;
    hide TreeXor;
    hide SlotsRank;
  }

  lemma WriteMoves(st: State, st': State, i: nat)
    requires EndWrite(st, st', i)
    ensures Moved(st, st', i)
  {
    hide SlotsRank;
    hide SetCell;
    hide SetTag;
    hide SetSol;
    hide TagUnit;
    hide UnitRank;
  }

  /** Beginning a write, once or again, changes no rank. */
  lemma BeginStays(st: State, st': State, i: nat)
    requires BeginWrite(st, st', i)
    ensures st'.workers == st.workers && st'.round == st.round && Measure(st') == Measure(st)
  {
  }

  // ---------- the barrier ----------

  lemma OpenFalls(H: IndexHash, st: State, st': State)
    requires Inv(H, st) && OpenBarrier(st, st')
    ensures Measure(st') < Measure(st)
  {
    hide Inv;
    hide Base;
    var g, ws := st.round, st.workers;
    forall i | 0 <= i < |ws|
      ensures Rank(g + 1, ws[i]) <= ROUNDSTEPS
    {
      InvWorker(H, st, i);
    }
    hide Rank;
    TotalAtMost(g + 1, ws);
  }

  // ---------- all steps ----------

  ghost predicate Rewrites(st: State, st': State)
  {
    exists i: nat :: BeginWrite(st, st', i)
  }

  /** Every step lowers the measure, except that a write can begin any number of times. */
  lemma StepFalls(H: IndexHash, st: State, st': State)
    requires Inv(H, st) && Next(H, st, st')
    ensures Measure(st') < Measure(st) || (Rewrites(st, st') && Measure(st') == Measure(st))
  {
    hide Inv, Measure, OpenBarrier, WorkerStep;
    if OpenBarrier(st, st') {
      OpenFalls(H, st, st');
    } else {
      var i: nat :| WorkerStep(H, st, st', i);
      WorkerFalls(H, st, st', i);
    }
  }

  lemma WorkerFalls(H: IndexHash, st: State, st': State, i: nat)
    requires Inv(H, st) && WorkerStep(H, st, st', i)
    ensures Measure(st') < Measure(st) || (BeginWrite(st, st', i) && Measure(st') == Measure(st))
  {
    hide Inv, Measure, Moved, BeginWrite, EndWrite, StartBlock, LoadCount, ClearCount, AddSlot, ReadPair;
    hide HandlePair, HashLeaf, EndUnit, ReachBarrier, LeaveBarrier;
    if BeginWrite(st, st', i) {
      BeginStays(st, st', i);
    } else {
      if EndWrite(st, st', i) {
        WriteMoves(st, st', i);
      } else if HashLeaf(H, st, st', i) {
        HashMoves(H, st, st', i);
      } else if HandlePair(H, st, st', i) {
        HandleMoves(H, st, st', i);
      } else if t :| AddSlot(H, st, st', i, t) {
        ScanMoves(H, st, st', i, t);
      } else if t0, t1 :| ReadPair(st, st', i, t0, t1) {
        ReadMoves(H, st, st', i, t0, t1);
      } else if LoadCount(st, st', i) || ClearCount(st, st', i) {
        CountMoves(H, st, st', i);
      } else {
        UnitMoves(H, st, st', i);
      }
      MovedFalls(st, st', i);
    }
  }

  // ---------- whole executions ----------

  /** The steps of an execution that do more than begin a write. */
  ghost function Progress(states: seq<State>): nat
  {
    if |states| <= 1 then 0
    else
      var n := |states| - 1;
      Progress(states[..n]) + if Rewrites(states[n - 1], states[n]) then 0 else 1
  }

  lemma Shorter(H: IndexHash, states: seq<State>, n: nat)
    requires Execution(H, states) && 0 < n <= |states|
    ensures Execution(H, states[..n])
  {
    hide Initial;
    hide Next;
    forall k | 1 <= k < n
      ensures StepAt(H, states[..n], k)
    {
      assert StepAt(H, states, k);
    }
  }

  /** No execution makes more steps, but for beginnings of writes, than the measure of its first state. */
  lemma {:induction false} WorkIsBounded(H: IndexHash, states: seq<State>)
    requires Execution(H, states)
    ensures Progress(states) + Measure(states[|states| - 1]) <= Measure(states[0])
    decreases |states|
  {
    hide Measure, Next, Rewrites, Inv, Initial;
    var n := |states| - 1;
    if n == 0 {
    } else {
      Shorter(H, states, n);
      WorkIsBounded(H, states[..n]);
      ExecutionInv(H, states, n - 1);
      ExecutionStep(H, states, n);
      StepFalls(H, states[n - 1], states[n]);
    }
  }

  /** That number depends on the number of workers alone. */
  lemma FirstMeasure(st: State)
    requires Initial(st)
    ensures Measure(st) <= (ROUNDS + 1) * (|st.workers| * ROUNDSTEPS + 1)
  {
    hide Rank;
    forall i | 0 <= i < |st.workers|
      ensures Rank(0, st.workers[i]) <= ROUNDSTEPS
    {
      FirstRank(i);
    }
    TotalAtMost(0, st.workers);
    LaterIs(ROUNDS, |st.workers|);
  }

  lemma FirstRank(i: nat)
    ensures Rank(0, Worker(0, i, Idle, NoClaim)) <= ROUNDSTEPS
  {
  }

  lemma {:induction false} LaterIs(rounds: nat, n: nat)
    ensures Later(rounds, n) == rounds * (n * ROUNDSTEPS + 1)
  {
    if rounds == 0 {
    } else {
      LaterIs(rounds - 1, n);
      MulDist(n * ROUNDSTEPS + 1, rounds - 1, 1);
    }
  }

  // ---------- the workers never get stuck ----------

  lemma WorkerCanMove(H: IndexHash, st: State, i: nat) returns (st': State)
    requires Inv(H, st) && i < |st.workers| && st.workers[i].claim == NoClaim
    requires st.workers[i].work != AtBarrier || st.workers[i].round < st.round < ROUNDS
    ensures WorkerStep(H, st, st', i)
  {
    hide Inv;
    hide Live;
    hide ScanOK;
    hide Base;
    hide BucketOf;
    hide AddSlot;
    hide ReadPair;
    hide HandlePair;
    InvWorker(H, st, i);
    var w, n := st.workers[i], |st.workers|;
    match w.work
    case Idle =>
      var count := st.counts(Counter(Source(w.round), w.next));
      st' := SetWork(st, i, if w.next >= Units(w.round) then AtBarrier
                            else if w.round == 0 then Hashing(0)
                            else Counted(if count < NSLOTS then count else NSLOTS));
    case AtBarrier =>
      st' := st.(workers := st.workers[i := Worker(w.round + 1, i, Idle, NoClaim)]);
    case Hashing(j) =>
      if j < 2 {
        var idx := 2 * w.next + j;
        st' := Reserve(SetWork(st, i, Hashing(j + 1)), i, Target(w.round), BucketOf(H(idx), 0),
                       Leaf(idx), LeafTag(idx)).(
                 leafLog := st.leafLog + [idx]);
      } else {
        st' := st.(workers := st.workers[i := w.(work := Idle, next := w.next + n)]);
      }
    case Counted(bsize) =>
      st' := SetWork(st, i, Scanning(bsize, [], [])).(
               counts := SetCount(st.counts, Counter(Source(w.round), w.next), 0));
    case Scanning(bsize, rests, partners) => st' := ScannerCanMove(H, st, i);
    case Matched(bsize, rests, partners, t0, t1) => st' := MatcherCanMove(H, st, i);
  }

  lemma ScannerCanMove(H: IndexHash, st: State, i: nat) returns (st': State)
    requires Inv(H, st) && i < |st.workers| && st.workers[i].claim == NoClaim && st.workers[i].work.Scanning?
    ensures WorkerStep(H, st, st', i)
  {
    hide Inv;
    hide WorkerOK;
    hide Live;
    hide Base;
    hide RestOf;
    hide TreeXor;
    hide Partners;
    hide HandlePair;
    InvWorker(H, st, i);
    var w, n := st.workers[i], |st.workers|;
    ScanBounds(H, st.round, n, Base(st.round, st.layers), i, w);
    var bsize, rests, partners := w.work.bsize, w.work.rests, w.work.partners;
    if partners != [] {
      assert partners[0] + 1 < |rests|;
      var t0 := Whole(st.cells(Place(Source(w.round), w.next, partners[0])));
      var t1 := Whole(st.cells(Place(Source(w.round), w.next, |rests| - 1)));
      st' := SetWork(st, i, Matched(bsize, rests, partners, t0, t1));
      assert ReadPair(st, st', i, t0, t1);
    } else if |rests| < bsize {
      var t := Whole(st.cells(Place(Source(w.round), w.next, |rests|)));
      var d := RestOf(TreeXor(H, t), w.round - 1);
      st' := SetWork(st, i, Scanning(bsize, rests + [d], Partners(rests, d, |rests|)));
      assert AddSlot(H, st, st', i, t);
    } else {
      st' := st.(workers := st.workers[i := w.(work := Idle, next := w.next + n)]);
      assert EndUnit(st, st', i);
    }
  }

  /** A tree that reading the cell can give. */
  function Whole(cell: Cell): (t: Tree)
    ensures CanRead(cell, t)
  {
    if cell.Holds? then cell.t else Leaf(0)
  }

  lemma MatcherCanMove(H: IndexHash, st: State, i: nat) returns (st': State)
    requires Inv(H, st) && i < |st.workers| && st.workers[i].claim == NoClaim && st.workers[i].work.Matched?
    ensures WorkerStep(H, st, st', i)
  {
    hide Inv;
    hide WorkerOK;
    hide Live;
    hide Base;
    hide BucketOf;
    hide TreeXor;
    hide Accepted;
    hide Rejected;
    hide SetWork;
    hide Reserve;
    hide Record;
    InvWorker(H, st, i);
    var w, n := st.workers[i], |st.workers|;
    ScanBounds(H, st.round, n, Base(st.round, st.layers), i, w);
    MatchedPartner(H, st.round, n, Base(st.round, st.layers), i, w);
    assert w.work.partners[0] + 1 < |w.work.rests|;
    var t := Node(w.work.t0, w.work.t1);
    var p := Pair(w.next, w.work.partners[0], |w.work.rests| - 1);
    var done := SetWork(st, i, Scanning(w.work.bsize, w.work.rests, w.work.partners[1..])).(
                  pairLog := st.pairLog + [p]);
    SameNumber(st, i, done);
    st' := if w.round == WK then (if Accepted(H, t) then Record(done, i, Leaves(Canon(t))) else done)
           else if Rejected(H, t) then done
           else Reserve(done, i, Target(w.round), BucketOf(TreeXor(H, t), w.round), t, PairTag(p));
    assert HandlePair(H, st, st', i);
  }

  lemma SameNumber(st: State, i: nat, done: State)
    requires i < |st.workers|
    requires exists work, log :: done == SetWork(st, i, work).(pairLog := log)
    ensures |done.workers| == |st.workers|
  {
  }

  lemma WriterCanMove(H: IndexHash, st: State, i: nat) returns (st': State)
    requires i < |st.workers| && st.workers[i].claim != NoClaim
    ensures EndWrite(st, st', i) && WorkerStep(H, st, st', i)
  {
    match st.workers[i].claim
    case SlotClaim(q, t, tag) =>
      st' := SetClaim(st, i, NoClaim).(
               cells := SetCell(st.cells, q, Holds(t)),
               tags := SetTag(st.tags, q, TagUnit(st.workers[i].round), tag));
      assert EndWrite(st, st', i);
    case SolClaim(s, proof) =>
      st' := SetClaim(st, i, NoClaim).(sols := SetSol(st.sols, s, Sol(proof)));
      assert EndWrite(st, st', i);
  }

  lemma BarrierCanOpen(st: State) returns (st': State)
    requires st.round < ROUNDS
    requires forall i :: 0 <= i < |st.workers| ==> st.workers[i].work == AtBarrier && st.workers[i].round == st.round
    ensures OpenBarrier(st, st')
  {
    hide EmptyLayer;
    st' := if st.round < WK
           then st.(round := st.round + 1, layers := st.layers + [st.out], out := EmptyLayer(), pairLog := [])
           else st.(round := st.round + 1);
  }

  lemma WaitsHere(H: IndexHash, g: nat, n: nat, base: Layer, i: nat, w: Worker)
    requires 0 < n && WorkerOK(H, g, n, base, i, w) && w.work == AtBarrier
    ensures w.round <= g
  {
  }

  // ---------- to the end ----------

  lemma ExtendedBy(H: IndexHash, states: seq<State>, st': State)
    requires Execution(H, states) && Next(H, states[|states| - 1], st')
    ensures Execution(H, states + [st'])
  {
    hide Next;
    hide Initial;
    var states' := states + [st'];
    forall k | 1 <= k < |states'|
      ensures StepAt(H, states', k)
    {
      if k < |states| {
        assert StepAt(H, states, k);
      }
    }
  }

  /** Every execution can be continued until the last barrier has opened. */
  lemma {:induction false} RunsToTheEnd(H: IndexHash, states: seq<State>)
    requires Execution(H, states)
    ensures exists more :: Execution(H, states + more) && (states + more)[|states + more| - 1].round == ROUNDS
    decreases Measure(states[|states| - 1])
  {
    hide Measure, Next, Inv, Execution;
    var st := LastState(H, states);
    ExecutionInv(H, states, |states| - 1);
    RoundBound(H, st);
    if st.round == ROUNDS {
      assert states + [] == states;
    } else {
      var st' := CanProgress(H, st);
      ExtendedBy(H, states, st');
      RunsToTheEnd(H, states + [st']);
      var more :| Execution(H, states + [st'] + more) &&
                  (states + [st'] + more)[|states + [st'] + more| - 1].round == ROUNDS;
      assert states + [st'] + more == states + ([st'] + more);
    }
  }

  lemma LastState(H: IndexHash, states: seq<State>) returns (st: State)
    requires Execution(H, states)
    ensures |states| > 0 && st == states[|states| - 1]
  {
    st := states[|states| - 1];
  }

  lemma RoundBound(H: IndexHash, st: State)
    requires Inv(H, st)
    ensures st.round <= ROUNDS
  {
    hide Inv;
    InvShape(H, st);
  }

  lemma CanProgress(H: IndexHash, st: State) returns (st': State)
    requires Inv(H, st) && st.round < ROUNDS
    ensures Next(H, st, st') && Measure(st') < Measure(st)
  {
    hide Inv, Measure, WorkerStep, OpenBarrier, EndWrite, WorkerOK, Base, Moved;
    if i :| 0 <= i < |st.workers| && st.workers[i].claim != NoClaim {
      st' := WriterCanMove(H, st, i);
      WriteMoves(st, st', i);
      MovedFalls(st, st', i);
    } else if i :| 0 <= i < |st.workers| && (st.workers[i].work != AtBarrier || st.workers[i].round < st.round) {
      st' := WorkerCanMove(H, st, i);
      WorkerFalls(H, st, st', i);
    } else {
      forall i | 0 <= i < |st.workers|
        ensures st.workers[i].round == st.round
      {
        InvWorker(H, st, i);
        WaitsHere(H, st.round, |st.workers|, Base(st.round, st.layers), i, st.workers[i]);
      }
      st' := BarrierCanOpen(st);
      OpenFalls(H, st, st');
    }
  }

  /** Until the last barrier has opened some step is always possible, and one that lowers the measure. */
  lemma NeverStuck(H: IndexHash, states: seq<State>, k: nat)
    requires Execution(H, states) && k < |states| && states[k].round < ROUNDS
    ensures exists st' :: Next(H, states[k], st') && Measure(st') < Measure(states[k])
  {
    hide *;
    ExecutionInv(H, states, k);
    var st' := CanProgress(H, states[k]);
  }
}
