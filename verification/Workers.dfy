/**
  The multi-threaded build: workers share the two heaps, the two tables of slot
  counters and the solution array, claim slots with an atomic fetch-and-add, take
  the buckets of a round in round-robin fashion and meet at a barrier after each
  round. One step is one access to shared memory or one local move of one worker;
  the steps of different workers interleave in any order.

  Slots hold trees here. A slot that is being written is Torn, and reading a torn
  slot can give any tree at all. The tags, which outlive the hashes in front of them,
  are kept unit by unit besides, as the index of a leaf or the bucket and the two slots of
  a pair: a write of round r reaches the units up to the tag unit of that round and leaves
  those above.
*/
module Workers {
  import opened HashBits
  import opened Wagner
  import opened Layers
  import Slots

  const ROUNDS: nat := 10

  datatype Place = Place(h: nat, c: nat, s: nat)
  datatype Cell = Torn | Holds(t: Tree)
  /** What a unit of a slot is good for: a tag, or something else. */
  datatype Mark = Junk | LeafTag(idx: nat) | PairTag(p: Pair)
  datatype Counter = Counter(h: nat, c: nat)
  datatype SolCell = TornSol | Sol(proof: seq<nat>)

  /** What a worker has to do next within its unit of work: a block of hashes in round 0, a bucket later. */
  datatype Work =
    | Idle
    | Hashing(j: nat)
    | Counted(bsize: nat)
    | Scanning(bsize: nat, rests: seq<nat>, partners: seq<nat>)
    | Matched(bsize: nat, rests: seq<nat>, partners: seq<nat>, t0: Tree, t1: Tree)
    | AtBarrier

  /** A claimed place that the worker is still writing to. */
  datatype Claim = NoClaim | SlotClaim(place: Place, t: Tree, tag: Mark) | SolClaim(i: nat, proof: seq<nat>)

  datatype Worker = Worker(round: nat, next: nat, work: Work, claim: Claim)

  /**
    round counts the openings of the barrier. The last five fields are history:
    the layers of the finished rounds, the arrivals of this round, the leaves and
    the pairs handled so far, and the proofs that got a number.
  */
  datatype State = State(
    workers: seq<Worker>,
    round: nat,
    cells: Place -> Cell,
    tags: (Place, nat) -> Mark,
    counts: Counter -> nat,
    sols: nat -> SolCell,
    nsols: nat,
    layers: seq<Layer>,
    out: Layer,
    leafLog: seq<nat>,
    pairLog: seq<Pair>,
    found: seq<seq<nat>>)

  function Source(round: nat): nat
  {
    (round + 1) % 2
  }

  function Target(round: nat): nat
  {
    round % 2
  }

  /** The units of work of a round. */
  function Units(round: nat): nat
  {
    if round == 0 then NBLOCKS else NBUCKETS
  }

  function SetCell(cells: Place -> Cell, q: Place, v: Cell): Place -> Cell
  {
    p => if p == q then v else cells(p)
  }

  function TagUnit(round: nat): nat
  {
    if round <= WK then Slots.TagUnit(round) else 0
  }

  /** Unit u of slot q comes to hold v; the units in front of it are overwritten. */
  function SetTag(tags: (Place, nat) -> Mark, q: Place, u: nat, v: Mark): (Place, nat) -> Mark
  {
    (p: Place, x: nat) => if p == q && x < u then Junk else if p == q && x == u then v else tags(p, x)
  }

  function SetCount(counts: Counter -> nat, q: Counter, v: nat): Counter -> nat
  {
    p => if p == q then v else counts(p)
  }

  function SetSol(sols: nat -> SolCell, q: nat, v: SolCell): nat -> SolCell
  {
    (p: nat) => if p == q then v else sols(p)
  }

  function Arrive(L: Layer, c: nat, t: Tree): Layer
  {
    if c < |L| then Push(L, c, t) else L
  }

  /** A whole slot reads as its tree, a torn one as anything. */
  predicate CanRead(cell: Cell, t: Tree)
  {
    cell == Torn || cell == Holds(t)
  }

  function SetWork(st: State, i: nat, work: Work): State
    requires i < |st.workers|
  {
    st.(workers := st.workers[i := st.workers[i].(work := work)])
  }

  function SetClaim(st: State, i: nat, claim: Claim): State
    requires i < |st.workers|
  {
    st.(workers := st.workers[i := st.workers[i].(claim := claim)])
  }

  /** Worker i may make a step of its own program in the given round. */
  predicate Ready(st: State, i: nat)
  {
    i < |st.workers| && st.workers[i].claim == NoClaim
  }

  // ---------- steps of one worker ----------

  ghost predicate StartBlock(st: State, st': State, i: nat)
  {
    && Ready(st, i)
    && var w := st.workers[i];
    && w.work == Idle && w.round == 0 && w.next < NBLOCKS
    && st' == SetWork(st, i, Hashing(0))
  }

  /** fetch-and-add on the counter of bucket c in heap h; a number below NSLOTS is a claimed slot. */
  function Reserve(st: State, i: nat, h: nat, c: nat, t: Tree, tag: Mark): State
    requires i < |st.workers|
  {
    var slot := st.counts(Counter(h, c));
    SetClaim(st, i, if slot < NSLOTS then SlotClaim(Place(h, c, slot), t, tag) else NoClaim).(
      counts := SetCount(st.counts, Counter(h, c), slot + 1),
      out := Arrive(st.out, c, t))
  }

  ghost predicate HashLeaf(H: IndexHash, st: State, st': State, i: nat)
  {
    && Ready(st, i)
    && var w := st.workers[i];
    && w.work.Hashing? && w.work.j < 2
    && var idx := 2 * w.next + w.work.j;
    && st' == Reserve(SetWork(st, i, Hashing(w.work.j + 1)), i, Target(w.round), BucketOf(H(idx), 0),
                      Leaf(idx), LeafTag(idx)).(
                leafLog := st.leafLog + [idx])
  }

  ghost predicate LoadCount(st: State, st': State, i: nat)
  {
    && Ready(st, i)
    && var w := st.workers[i];
    && w.work == Idle && 1 <= w.round && w.next < NBUCKETS
    && var n := st.counts(Counter(Source(w.round), w.next));
    && st' == SetWork(st, i, Counted(if n < NSLOTS then n else NSLOTS))
  }

  ghost predicate ClearCount(st: State, st': State, i: nat)
  {
    && Ready(st, i)
    && var w := st.workers[i];
    && w.work.Counted?
    && st' == SetWork(st, i, Scanning(w.work.bsize, [], [])).(
                counts := SetCount(st.counts, Counter(Source(w.round), w.next), 0))
  }

  /** The next slot of the bucket is read and linked to the earlier slots with its rest bits. */
  ghost predicate AddSlot(H: IndexHash, st: State, st': State, i: nat, t: Tree)
  {
    && Ready(st, i)
    && var w := st.workers[i];
    && w.work.Scanning? && w.work.partners == [] && |w.work.rests| < w.work.bsize && 1 <= w.round <= WK
    && CanRead(st.cells(Place(Source(w.round), w.next, |w.work.rests|)), t)
    && var d := RestOf(TreeXor(H, t), w.round - 1);
    && st' == SetWork(st, i, Scanning(w.work.bsize, w.work.rests + [d], Partners(w.work.rests, d, |w.work.rests|)))
  }

  /** Both slots of a colliding pair are read. */
  ghost predicate ReadPair(st: State, st': State, i: nat, t0: Tree, t1: Tree)
  {
    && Ready(st, i)
    && var w := st.workers[i];
    && w.work.Scanning? && w.work.partners != [] && w.work.rests != []
    && CanRead(st.cells(Place(Source(w.round), w.next, w.work.partners[0])), t0)
    && CanRead(st.cells(Place(Source(w.round), w.next, |w.work.rests| - 1)), t1)
    && st' == SetWork(st, i, Matched(w.work.bsize, w.work.rests, w.work.partners, t0, t1))
  }

  /** fetch-and-add on the number of solutions. */
  function Record(st: State, i: nat, proof: seq<nat>): State
    requires i < |st.workers|
  {
    SetClaim(st, i, if st.nsols < MAXSOLS then SolClaim(st.nsols, proof) else NoClaim).(
      nsols := st.nsols + 1,
      found := st.found + [proof])
  }

  ghost predicate HandlePair(H: IndexHash, st: State, st': State, i: nat)
  {
    && Ready(st, i)
    && var w := st.workers[i];
    && w.work.Matched? && w.work.partners != [] && w.work.rests != [] && 1 <= w.round <= WK
    && var t := Node(w.work.t0, w.work.t1);
    && var p := Pair(w.next, w.work.partners[0], |w.work.rests| - 1);
    && var done := SetWork(st, i, Scanning(w.work.bsize, w.work.rests, w.work.partners[1..])).(
                     pairLog := st.pairLog + [p]);
    && st' == if w.round == WK then (if Accepted(H, t) then Record(done, i, Leaves(Canon(t))) else done)
              else if Rejected(H, t) then done
              else Reserve(done, i, Target(w.round), BucketOf(TreeXor(H, t), w.round), t, PairTag(p))
  }

  predicate UnitDone(work: Work)
  {
    || (work.Hashing? && work.j >= 2)
    || (work.Scanning? && work.partners == [] && |work.rests| >= work.bsize)
  }

  /** The next unit of a worker lies as many units ahead as there are workers. */
  ghost predicate EndUnit(st: State, st': State, i: nat)
  {
    && Ready(st, i)
    && var w := st.workers[i];
    && UnitDone(w.work)
    && st' == st.(workers := st.workers[i := w.(work := Idle, next := w.next + |st.workers|)])
  }

  ghost predicate ReachBarrier(st: State, st': State, i: nat)
  {
    && Ready(st, i)
    && var w := st.workers[i];
    && w.work == Idle && w.next >= Units(w.round)
    && st' == SetWork(st, i, AtBarrier)
  }

  /** A worker that waited in an earlier round leaves the barrier and starts the next one. */
  ghost predicate LeaveBarrier(st: State, st': State, i: nat)
  {
    && Ready(st, i)
    && var w := st.workers[i];
    && w.work == AtBarrier && w.round < st.round && w.round < WK
    && st' == st.(workers := st.workers[i := Worker(w.round + 1, i, Idle, NoClaim)])
  }

  /** Part of a claimed slot or solution has been written. */
  ghost predicate BeginWrite(st: State, st': State, i: nat)
  {
    && i < |st.workers|
    && match st.workers[i].claim
       case NoClaim => false
       case SlotClaim(place, t, tag) =>
         st' == st.(cells := SetCell(st.cells, place, Torn),
                    tags := SetTag(st.tags, place, TagUnit(st.workers[i].round), Junk))
       case SolClaim(k, proof) => st' == st.(sols := SetSol(st.sols, k, TornSol))
  }

  ghost predicate EndWrite(st: State, st': State, i: nat)
  {
    && i < |st.workers|
    && match st.workers[i].claim
       case NoClaim => false
       case SlotClaim(place, t, tag) =>
         st' == SetClaim(st, i, NoClaim).(
                  cells := SetCell(st.cells, place, Holds(t)),
                  tags := SetTag(st.tags, place, TagUnit(st.workers[i].round), tag))
       case SolClaim(k, proof) => st' == SetClaim(st, i, NoClaim).(sols := SetSol(st.sols, k, Sol(proof)))
  }

  // ---------- the barrier ----------

  /** The barrier opens once every worker has called it in this round. */
  ghost predicate OpenBarrier(st: State, st': State)
  {
    && st.round < ROUNDS
    && (forall i :: 0 <= i < |st.workers| ==> st.workers[i].work == AtBarrier && st.workers[i].round == st.round)
    && st' == if st.round < WK
              then st.(round := st.round + 1, layers := st.layers + [st.out], out := EmptyLayer(), pairLog := [])
              else st.(round := st.round + 1)
  }

  // ---------- executions ----------

  ghost predicate WorkerStep(H: IndexHash, st: State, st': State, i: nat)
  {
    || StartBlock(st, st', i)
    || HashLeaf(H, st, st', i)
    || LoadCount(st, st', i)
    || ClearCount(st, st', i)
    || (exists t :: AddSlot(H, st, st', i, t))
    || (exists t0, t1 :: ReadPair(st, st', i, t0, t1))
    || HandlePair(H, st, st', i)
    || EndUnit(st, st', i)
    || ReachBarrier(st, st', i)
    || LeaveBarrier(st, st', i)
    || BeginWrite(st, st', i)
    || EndWrite(st, st', i)
  }

  ghost predicate Next(H: IndexHash, st: State, st': State)
  {
    OpenBarrier(st, st') || exists i :: WorkerStep(H, st, st', i)
  }

  /** Any positive number of workers, cleared counters; the heaps and the solutions hold anything. */
  ghost predicate Initial(st: State)
  {
    && |st.workers| > 0
    && (forall i :: 0 <= i < |st.workers| ==> st.workers[i] == Worker(0, i, Idle, NoClaim))
    && st.round == 0 && st.nsols == 0
    && (forall h: nat, c: nat :: h < 2 && c < NBUCKETS ==> st.counts(Counter(h, c)) == 0)
    && st.layers == [] && st.out == EmptyLayer() && st.leafLog == [] && st.pairLog == [] && st.found == []
  }

  ghost predicate Execution(H: IndexHash, states: seq<State>)
  {
    && |states| > 0 && Initial(states[0])
    && forall k :: 1 <= k < |states| ==> StepAt(H, states, k)
  }

  ghost predicate StepAt(H: IndexHash, states: seq<State>, k: nat)
    requires 1 <= k < |states|
  {
    Next(H, states[k - 1], states[k])
  }
}
