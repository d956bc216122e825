/**
  The invariant of the multi-threaded solver, and that every step of every worker and
  the opening of the barrier keep it, for any number of workers: each slot is claimed by
  the arrival whose number it bears, the slots that are read hold the layer of the round
  before, and the logs of a round say how far every bucket has been scanned.
*/
module WorkerInvariant {
  import opened Arith
  import opened HashBits
  import opened Wagner
  import opened Layers
  import opened SolverTheorems
  import opened ProofTheorems
  import opened Workers

  // ---------- what is known about one worker and one unit ----------

  function Base(g: nat, layers: seq<Layer>): Layer
  {
    if 1 <= g <= |layers| && g <= WK then layers[g - 1] else EmptyLayer()
  }

  ghost predicate ScanOK(H: IndexHash, g: nat, trees: seq<Tree>, bsize: nat, rests: seq<nat>, partners: seq<nat>)
    requires 1 <= g <= WK
  {
    && bsize == |trees| && |rests| <= bsize
    && rests == RestList(H, g - 1, trees)[..|rests|]
    && (forall k :: 0 <= k < |partners| ==> partners[k] + 1 < |rests|)
  }

  /** The place of worker i in its program fits the round, and its reads were of whole slots. */
  ghost predicate WorkerOK(H: IndexHash, g: nat, n: nat, base: Layer, i: nat, w: Worker)
    requires 0 < n
  {
    && w.round <= WK && (w.round == g ==> w.next % n == i)
    && match w.work
       case Idle => w.round == g
       case AtBarrier => w.claim == NoClaim && ((w.round == g && w.next >= Units(g)) || w.round + 1 == g)
       case Hashing(j) => w.round == g == 0 && w.next < NBLOCKS && j <= 2
       case Counted(bsize) => w.round == g && 1 <= g <= WK && w.next < |base| && bsize == |Live(base[w.next])|
       case Scanning(bsize, rests, partners) =>
         && w.round == g && 1 <= g <= WK && w.next < |base|
         && ScanOK(H, g, Live(base[w.next]), bsize, rests, partners)
       case Matched(bsize, rests, partners, t0, t1) =>
         && w.round == g && 1 <= g <= WK && w.next < |base|
         && ScanOK(H, g, Live(base[w.next]), bsize, rests, partners) && partners != []
         && t0 == Live(base[w.next])[partners[0]] && t1 == Live(base[w.next])[|rests| - 1]
  }

  /** A claim is for the place whose number the arrival got. */
  predicate ClaimOK(g: nat, out: Layer, found: seq<seq<nat>>, claim: Claim)
  {
    match claim
    case NoClaim => true
    case SlotClaim(q, t, _) =>
      && g < WK && q.h == Target(g) && q.c < |out|
      && q.s < NSLOTS && q.s < |out[q.c]| && out[q.c][q.s] == t
    case SolClaim(k, proof) => g == WK && k < MAXSOLS && k < |found| && found[k] == proof
  }

  predicate SamePlace(x: Claim, y: Claim)
  {
    || (x.SlotClaim? && y.SlotClaim? && x.place == y.place)
    || (x.SolClaim? && y.SolClaim? && x.i == y.i)
  }

  /** The leaves, or the pairs, of unit u handled so far. */
  function LeavesOf(log: seq<nat>, u: nat): seq<nat>
  {
    if log == [] then [] else LeavesOf(log[..|log| - 1], u) + (if log[|log| - 1] / 2 == u then [log[|log| - 1]] else [])
  }

  function PairsOf(log: seq<Pair>, u: nat): seq<Pair>
  {
    if log == [] then [] else PairsOf(log[..|log| - 1], u) + (if log[|log| - 1].b == u then [log[|log| - 1]] else [])
  }

  predicate Scans(w: Worker, g: nat, u: nat)
  {
    w.round == g && w.next == u && (w.work.Scanning? || w.work.Matched?)
  }

  function Cursor(w: Worker, g: nat, i: nat): nat
  {
    if w.round == g then w.next else i
  }

  function Remaining(u: nat, rests: seq<nat>, partners: seq<nat>): seq<Pair>
  {
    if rests == [] then [] else PairsAt(u, |rests| - 1, partners)
  }

  /** Where the scan of bucket u stands, given the worker i that it belongs to. */
  ghost predicate BucketOK(H: IndexHash, g: nat, arrivals: seq<Tree>, u: nat, i: nat, w: Worker, done: seq<Pair>,
                           count: nat)
    requires 1 <= g <= WK
  {
    if Scans(w, g, u) then
      count == 0 && done + Remaining(u, w.work.rests, w.work.partners) == PairsInBucket(u, w.work.rests, |w.work.rests|)
    else if u < Cursor(w, g, i) then
      count == 0 && done == PairsInBucket(u, RestList(H, g - 1, Live(arrivals)), |Live(arrivals)|)
    else
      count == |arrivals| && done == []
  }

  function BlockLeaves(u: nat): (s: seq<nat>)
    ensures |s| == 2
  {
    [2 * u, 2 * u + 1]
  }

  predicate BlockOK(u: nat, w: Worker, done: seq<nat>)
  {
    if w.work.Hashing? && w.next == u then w.work.j <= 2 && done == BlockLeaves(u)[..w.work.j]
    else done == if u < w.next then BlockLeaves(u) else []
  }

  /** The worker that unit u belongs to. */
  function Owner(u: nat, n: nat): (i: nat)
    requires 0 < n
    ensures i < n
  {
    u % n
  }

  /** The layer that the leaves of the log make, in the order in which they arrived. */
  function LeavesArrived(H: IndexHash, log: seq<nat>): (L: Layer)
    ensures |L| == NBUCKETS
  {
    if log == [] then EmptyLayer()
    else
      var k := log[|log| - 1];
      Push(LeavesArrived(H, log[..|log| - 1]), BucketOf(H(k), 0), Leaf(k))
  }

  // ---------- the invariant ----------

  ghost predicate Shape(g: nat, layers: seq<Layer>, out: Layer, n: nat)
  {
    && g <= ROUNDS && 0 < n
    && |layers| == (if g < WK then g else WK)
    && |out| == NBUCKETS
    && (forall k :: 0 <= k < |layers| ==> |layers[k]| == NBUCKETS)
  }

  ghost predicate WorkersOK(H: IndexHash, g: nat, base: Layer, ws: seq<Worker>)
    requires 0 < |ws|
  {
    forall i :: 0 <= i < |ws| ==> WorkerOK(H, g, |ws|, base, i, ws[i])
  }

  ghost predicate ClaimsOK(g: nat, out: Layer, found: seq<seq<nat>>, ws: seq<Worker>)
  {
    && (forall i :: 0 <= i < |ws| ==> ClaimOK(g, out, found, ws[i].claim))
    && (forall i, j :: 0 <= i < j < |ws| ==> !SamePlace(ws[i].claim, ws[j].claim))
  }

  /** The counters of the heap that is written count the arrivals. */
  ghost predicate TargetCounts(g: nat, counts: Counter -> nat, out: Layer)
    requires |out| == NBUCKETS
  {
    forall c :: 0 <= c < NBUCKETS ==> counts(Counter(Target(g), c)) == |out[c]|
  }

  ghost predicate NoCounts(h: nat, counts: Counter -> nat)
  {
    forall c :: 0 <= c < NBUCKETS ==> counts(Counter(h, c)) == 0
  }

  /** The slots that are read hold the layer of the round before. */
  ghost predicate SourceCells(g: nat, cells: Place -> Cell, base: Layer)
  {
    forall c, s :: 0 <= c < |base| && 0 <= s < |Live(base[c])| ==>
           cells(Place(Source(g), c, s)) == Holds(Live(base[c])[s])
  }

  ghost predicate Claimed(ws: seq<Worker>, q: Place)
  {
    exists i :: 0 <= i < |ws| && ws[i].claim.SlotClaim? && ws[i].claim.place == q
  }

  /** The slots that are written hold their arrivals, except those a worker is writing. */
  ghost predicate TargetCells(g: nat, cells: Place -> Cell, out: Layer, ws: seq<Worker>)
  {
    forall c, s :: 0 <= c < |out| && 0 <= s < |Live(out[c])| ==>
      cells(Place(Target(g), c, s)) == Holds(Live(out[c])[s]) || Claimed(ws, Place(Target(g), c, s))
  }

  ghost predicate SolClaimed(ws: seq<Worker>, k: nat)
  {
    exists i :: 0 <= i < |ws| && ws[i].claim.SolClaim? && ws[i].claim.i == k
  }

  ghost predicate SolsOK(sols: nat -> SolCell, nsols: nat, found: seq<seq<nat>>, ws: seq<Worker>)
  {
    && nsols == |found|
    && forall k :: 0 <= k < |found| && k < MAXSOLS ==> sols(k) == Sol(found[k]) || SolClaimed(ws, k)
  }

  ghost predicate BucketsOK(H: IndexHash, g: nat, base: Layer, ws: seq<Worker>, log: seq<Pair>, counts: Counter -> nat)
    requires 1 <= g <= WK && 0 < |ws| && |base| == NBUCKETS
  {
    forall u :: 0 <= u < NBUCKETS ==>
      BucketOK(H, g, base[u], u, Owner(u, |ws|), ws[Owner(u, |ws|)], PairsOf(log, u), counts(Counter(Source(g), u)))
  }

  ghost predicate BlocksOK(ws: seq<Worker>, log: seq<nat>)
    requires 0 < |ws|
  {
    && (forall u :: 0 <= u < NBLOCKS ==> BlockOK(u, ws[Owner(u, |ws|)], LeavesOf(log, u)))
    && (forall k :: k in log ==> k < NHASHES)
  }

  /** What this round has built follows from what it has handled. */
  ghost predicate LogOK(H: IndexHash, g: nat, base: Layer, out: Layer, leafLog: seq<nat>, pairLog: seq<Pair>,
                        found: seq<seq<nat>>)
  {
    && (g <= WK ==> AllInRange(base, pairLog))
    && out == (if g == 0 then LeavesArrived(H, leafLog)
               else if g < WK then Absorb(H, g, base, pairLog).layer
               else EmptyLayer())
    && found == if g < WK then [] else if g == WK then Found(H, base, pairLog) else found
  }

  ghost predicate HistoryOK(H: IndexHash, layers: seq<Layer>)
  {
    layers == [] || IsRun(H, layers)
  }

  ghost predicate Inv(H: IndexHash, st: State)
  {
    var g, ws := st.round, st.workers;
    var base := Base(g, st.layers);
    && Shape(g, st.layers, st.out, |ws|)
    && WorkersOK(H, g, base, ws)
    && ClaimsOK(g, st.out, st.found, ws)
    && SolsOK(st.sols, st.nsols, st.found, ws)
    && HistoryOK(H, st.layers)
    && TargetCounts(g, st.counts, st.out)
    && SourceCells(g, st.cells, base)
    && TargetCells(g, st.cells, st.out, ws)
    && (g == 0 ==> BlocksOK(ws, st.leafLog))
    && (if 1 <= g <= WK then BucketsOK(H, g, base, ws, st.pairLog, st.counts) else NoCounts(Source(g), st.counts))
    && LogOK(H, g, base, st.out, st.leafLog, st.pairLog, st.found)
    && (g == ROUNDS ==> IsSearch(H, st.layers, st.found))
  }

  lemma InitialInv(H: IndexHash, st: State)
    requires Initial(st)
    ensures Inv(H, st)
  {
    hide Absorb;
    hide Found;
    hide IsRun;
    hide IsSearch;
    hide BucketsOK;
    hide Owner;
    var ws := st.workers;
    forall i | 0 <= i < |ws|
      ensures ws[i].next % |ws| == i
    {
      SmallMod(i, |ws|);
    }
    forall u | 0 <= u < NBLOCKS
      ensures Owner(u, |ws|) <= u
    {
      OwnerLow(u, |ws|);
    }
  }

  lemma OwnerLow(u: nat, n: nat)
    requires 0 < n
    ensures Owner(u, n) <= u
  {
    DivMod(u, n);
    MulMono(n, 0, u / n);
  }

  lemma SmallMod(i: nat, n: nat)
    requires i < n
    ensures i % n == i
  {
  }

  // ---------- steps that move one worker only ----------

  lemma SameClaims(ws: seq<Worker>, ws': seq<Worker>)
    requires |ws| == |ws'| && forall i :: 0 <= i < |ws| ==> ws[i].claim == ws'[i].claim
    ensures forall q :: Claimed(ws, q) <==> Claimed(ws', q)
    ensures forall k :: SolClaimed(ws, k) <==> SolClaimed(ws', k)
  {
  }

  /** Nothing that holds of the units of worker i is lost when w takes its place. */
  ghost predicate UnitsKept(H: IndexHash, g: nat, base: Layer, n: nat, i: nat, was: Worker, w: Worker)
    requires 0 < n && |base| == NBUCKETS
  {
    && (g == 0 ==>
          forall u, done | 0 <= u < NBLOCKS && Owner(u, n) == i :: BlockOK(u, was, done) ==> BlockOK(u, w, done))
    && (1 <= g <= WK ==>
          forall u, done, count | 0 <= u < NBUCKETS && Owner(u, n) == i ::
            BucketOK(H, g, base[u], u, i, was, done, count) ==> BucketOK(H, g, base[u], u, i, w, done, count))
  }

  lemma LocalKeeps(H: IndexHash, st: State, i: nat, w: Worker)
    requires Inv(H, st) && i < |st.workers| && w.claim == st.workers[i].claim
    requires WorkerOK(H, st.round, |st.workers|, Base(st.round, st.layers), i, w)
    requires UnitsKept(H, st.round, Base(st.round, st.layers), |st.workers|, i, st.workers[i], w)
    ensures Inv(H, st.(workers := st.workers[i := w]))
  {
    hide WorkerOK;
    hide BucketOK;
    hide BlockOK;
    hide LogOK;
    hide ClaimOK;
    hide SamePlace;
    hide IsRun;
    hide IsSearch;
    hide Owner;
    hide PairsOf;
    hide LeavesOf;
    var ws, ws' := st.workers, st.workers[i := w];
    SameClaims(ws, ws');
  }

  lemma StartBlockKeeps(H: IndexHash, st: State, st': State, i: nat)
    requires Inv(H, st) && StartBlock(st, st', i)
    ensures Inv(H, st')
  {
    hide BucketOK;
    hide Inv;
    var w := st.workers[i];
    InvWorker(H, st, i);
    LocalKeeps(H, st, i, w.(work := Hashing(0)));
  }

  lemma LoadCountKeeps(H: IndexHash, st: State, st': State, i: nat)
    requires Inv(H, st) && LoadCount(st, st', i)
    ensures Inv(H, st')
  {
    hide Inv;
    hide PairsOf;
    var w := st.workers[i];
    InvWorker(H, st, i);
    OwnUnit(H, st, i);
    LocalKeeps(H, st, i, st'.workers[i]);
  }

  lemma AddSlotKeeps(H: IndexHash, st: State, st': State, i: nat, t: Tree)
    requires Inv(H, st) && AddSlot(H, st, st', i, t)
    ensures Inv(H, st')
  {
    hide Inv;
    hide PairsOf;
    hide ScanOK;
    hide RestOf;
    hide RestList;
    hide Live;
    hide TreeXor;
    hide Partners;
    hide PairsInBucket;
    hide Base;
    var w := st.workers[i];
    InvWorker(H, st, i);
    var base := Base(st.round, st.layers);
    var rests, d := w.work.rests, RestOf(TreeXor(H, t), st.round - 1);
    BucketInHand(H, st.round, |st.workers|, base, i, w);
    InvSource(H, st, i, |rests|);
    ScanOKGrows(H, st.round, Live(base[w.next]), w.work.bsize, rests, w.work.partners, d);
    ScanGrows(w.next, rests, d);
    LocalKeeps(H, st, i, st'.workers[i]);
  }

  lemma ScanOKGrows(H: IndexHash, g: nat, trees: seq<Tree>, bsize: nat, rests: seq<nat>, partners: seq<nat>, d: nat)
    requires 1 <= g <= WK && ScanOK(H, g, trees, bsize, rests, partners) && |rests| < bsize
    requires d == RestOf(TreeXor(H, trees[|rests|]), g - 1)
    ensures ScanOK(H, g, trees, bsize, rests + [d], Partners(rests, d, |rests|))
  {
    hide RestOf;
    hide TreeXor;
    hide Partners;
    var out := Partners(rests, d, |rests|);
    assert rests + [d] == RestList(H, g - 1, trees)[..|rests| + 1];
    PartnersExact(rests, d, |rests|);
    assert forall k :: 0 <= k < |out| ==> out[k] in out;
  }

  lemma ReadPairKeeps(H: IndexHash, st: State, st': State, i: nat, t0: Tree, t1: Tree)
    requires Inv(H, st) && ReadPair(st, st', i, t0, t1)
    ensures Inv(H, st')
  {
    hide Inv;
    hide BucketOK;
    hide WorkerOK;
    hide Live;
    hide Base;
    hide CanRead;
    var w, w' := st.workers[i], st'.workers[i];
    InvWorker(H, st, i);
    var base := Base(st.round, st.layers);
    ScanBounds(H, st.round, |st.workers|, base, i, w);
    InvSource(H, st, i, w.work.partners[0]);
    InvSource(H, st, i, |w.work.rests| - 1);
    WholeRead(st.cells(Place(Source(w.round), w.next, w.work.partners[0])), t0);
    WholeRead(st.cells(Place(Source(w.round), w.next, |w.work.rests| - 1)), t1);
    MatchOK(H, st.round, |st.workers|, base, i, w, t0, t1);
    SameScans(H, st.round, base, i, w, w');
    LocalKeeps(H, st, i, w');
  }

  lemma WholeRead(cell: Cell, t: Tree)
    requires CanRead(cell, t) && cell != Torn
    ensures cell == Holds(t)
  {
  }

  lemma MatchOK(H: IndexHash, g: nat, n: nat, base: Layer, i: nat, w: Worker, t0: Tree, t1: Tree)
    requires 0 < n && WorkerOK(H, g, n, base, i, w) && w.work.Scanning? && w.work.partners != []
    requires w.next < |base| && w.work.partners[0] < |Live(base[w.next])| && 1 <= |w.work.rests| <= |Live(base[w.next])|
    requires t0 == Live(base[w.next])[w.work.partners[0]] && t1 == Live(base[w.next])[|w.work.rests| - 1]
    ensures WorkerOK(H, g, n, base, i, w.(work := Matched(w.work.bsize, w.work.rests, w.work.partners, t0, t1)))
  {
    hide ScanOK;
    hide Live;
  }

  lemma SameScans(H: IndexHash, g: nat, base: Layer, i: nat, w: Worker, w': Worker)
    requires 1 <= g <= WK && w.work.Scanning? && w'.work.Matched? && w.round == w'.round && w.next == w'.next
    requires w.work.rests == w'.work.rests && w.work.partners == w'.work.partners
    ensures forall u, done, count :: 0 <= u < |base| && BucketOK(H, g, base[u], u, i, w, done, count) ==>
              BucketOK(H, g, base[u], u, i, w', done, count)
  {
    hide BucketOK;
    forall u, done, count | 0 <= u < |base| && BucketOK(H, g, base[u], u, i, w, done, count)
      ensures BucketOK(H, g, base[u], u, i, w', done, count)
    {
      SameScan(H, g, base[u], u, i, w, w', done, count);
    }
  }

  lemma ScanBounds(H: IndexHash, g: nat, n: nat, base: Layer, i: nat, w: Worker)
    requires 0 < n && WorkerOK(H, g, n, base, i, w) && (w.work.Scanning? || w.work.Matched?)
    ensures w.round == g && 1 <= g <= WK && w.next < |base| && |w.work.rests| <= |Live(base[w.next])|
    ensures forall k :: 0 <= k < |w.work.partners| ==> w.work.partners[k] + 1 < |w.work.rests|
  {
    hide RestList;
  }

  lemma BucketInHand(H: IndexHash, g: nat, n: nat, base: Layer, i: nat, w: Worker)
    requires 0 < n && WorkerOK(H, g, n, base, i, w) && (w.work.Scanning? || w.work.Matched?)
    ensures w.round == g && 1 <= g <= WK && w.next < |base| && w.work.bsize == |Live(base[w.next])|
  {
    hide RestList;
    hide Live;
  }

  lemma SameScan(H: IndexHash, g: nat, arrivals: seq<Tree>, u: nat, i: nat, w: Worker, w': Worker, done: seq<Pair>,
                 count: nat)
    requires 1 <= g <= WK && w.work.Scanning? && w'.work.Matched? && w.round == w'.round && w.next == w'.next
    requires w.work.rests == w'.work.rests && w.work.partners == w'.work.partners
    ensures BucketOK(H, g, arrivals, u, i, w, done, count) ==> BucketOK(H, g, arrivals, u, i, w', done, count)
  {
    hide PairsInBucket;
    hide RestList;
  }

  lemma EndUnitKeeps(H: IndexHash, st: State, st': State, i: nat)
    requires Inv(H, st) && EndUnit(st, st', i)
    ensures Inv(H, st')
  {
    hide Inv;
    hide BucketOK;
    hide BlockOK;
    hide Base;
    hide ScanOK;
    var g, w, w', n, base := st.round, st.workers[i], st'.workers[i], |st.workers|, Base(st.round, st.layers);
    InvWorker(H, st, i);
    assert w'.next == w.next + n;
    SameResidue(w.next, n);
    forall u, done | 0 <= u < NBLOCKS && Owner(u, n) == i && g == 0 && BlockOK(u, w, done)
      ensures BlockOK(u, w', done)
    {
      EndOfBlock(n, u, w, done);
    }
    forall u, done, count |
      0 <= u < NBUCKETS && Owner(u, n) == i && 1 <= g <= WK && BucketOK(H, g, base[u], u, i, w, done, count)
      ensures BucketOK(H, g, base[u], u, i, w', done, count)
    {
      EndOfScan(H, g, n, base, u, i, w, done, count);
    }
    LocalKeeps(H, st, i, w');
  }

  lemma EndOfBlock(n: nat, u: nat, w: Worker, done: seq<nat>)
    requires 0 < n && Owner(u, n) == w.next % n && UnitDone(w.work) && w.work.Hashing? && BlockOK(u, w, done)
    ensures BlockOK(u, w.(work := Idle, next := w.next + n), done)
  {
    if u > w.next {
      ResidueGap(n, w.next, u);
    }
  }

  lemma EndOfScan(H: IndexHash, g: nat, n: nat, base: Layer, u: nat, i: nat, w: Worker, done: seq<Pair>, count: nat)
    requires 1 <= g <= WK && 0 < n && u < |base| && Owner(u, n) == i
    requires WorkerOK(H, g, n, base, i, w) && UnitDone(w.work) && BucketOK(H, g, base[u], u, i, w, done, count)
    ensures BucketOK(H, g, base[u], u, i, w.(work := Idle, next := w.next + n), done, count)
  {
    hide PairsInBucket;
    hide RestOf;
    hide TreeXor;
    if u > w.next {
      ResidueGap(n, w.next, u);
    }
    if u == w.next {
      var rests := RestList(H, g - 1, Live(base[u]));
      assert rests[..|rests|] == rests;
      assert done + [] == done;
    }
  }

  lemma SameResidue(x: nat, n: nat)
    requires 0 < n
    ensures (x + n) % n == x % n
  {
    ModShift(n, 1, x);
  }

  lemma ReachBarrierKeeps(H: IndexHash, st: State, st': State, i: nat)
    requires Inv(H, st) && ReachBarrier(st, st', i)
    ensures Inv(H, st')
  {
    hide Inv;
    hide PairsOf;
    InvWorker(H, st, i);
    LocalKeeps(H, st, i, st'.workers[i]);
  }

  lemma LeaveBarrierKeeps(H: IndexHash, st: State, st': State, i: nat)
    requires Inv(H, st) && LeaveBarrier(st, st', i)
    ensures Inv(H, st')
  {
    hide Inv;
    hide PairsOf;
    InvWorker(H, st, i);
    SmallMod(i, |st.workers|);
    LocalKeeps(H, st, i, st'.workers[i]);
  }

  lemma ResidueGap(n: nat, x: nat, y: nat)
    requires 0 < n && x % n == y % n && x < y
    ensures x + n <= y
  {
    DivMod(x, n);
    DivMod(y, n);
    if x / n >= y / n {
      MulMono(n, y / n, x / n);
      assert false;
    }
    MulMono(n, x / n + 1, y / n);
    MulDist(n, x / n, 1);
  }

  lemma InvShape(H: IndexHash, st: State)
    requires Inv(H, st)
    ensures Shape(st.round, st.layers, st.out, |st.workers|) && ClaimsOK(st.round, st.out, st.found, st.workers)
    ensures TargetCounts(st.round, st.counts, st.out)
  {
    hide WorkersOK;
    hide BucketsOK;
    hide LogOK;
    hide BlocksOK;
    hide ClaimsOK;
    hide TargetCells;
    hide SourceCells;
  }

  lemma InvWorker(H: IndexHash, st: State, i: nat)
    requires Inv(H, st) && i < |st.workers|
    ensures st.round <= ROUNDS && |Base(st.round, st.layers)| == NBUCKETS
    ensures WorkerOK(H, st.round, |st.workers|, Base(st.round, st.layers), i, st.workers[i])
  {
    hide WorkerOK;
    hide BucketsOK;
    hide LogOK;
  }

  /** A slot below the count of the bucket in hand is whole: it holds the tree stored there the round before. */
  lemma InvSource(H: IndexHash, st: State, i: nat, s: nat)
    requires Inv(H, st) && i < |st.workers| && st.workers[i].next < NBUCKETS
    requires |Base(st.round, st.layers)| == NBUCKETS && s < |Live(Base(st.round, st.layers)[st.workers[i].next])|
    ensures st.cells(Place(Source(st.round), st.workers[i].next, s)) ==
              Holds(Live(Base(st.round, st.layers)[st.workers[i].next])[s])
  {
    hide WorkerOK;
    hide BucketsOK;
    hide LogOK;
    hide Base;
    hide Live;
  }

  /** The counter of the bucket a worker is about to take still counts its arrivals. */
  lemma OwnUnit(H: IndexHash, st: State, i: nat)
    requires Inv(H, st) && i < |st.workers| && 1 <= st.round <= WK
    requires st.workers[i].next < NBUCKETS && st.workers[i].work == Idle
    ensures |Base(st.round, st.layers)| == NBUCKETS
    ensures st.counts(Counter(Source(st.round), st.workers[i].next)) == |Base(st.round, st.layers)[st.workers[i].next]|
  {
    hide LogOK;
    hide Live;
    hide PairsInBucket;
    hide RestList;
    var u := st.workers[i].next;
    assert Owner(u, |st.workers|) == i;
  }

  lemma {:induction false} PartnersKeep(rests: seq<nat>, d: nat, x: nat, n: nat)
    requires n <= |rests|
    ensures Partners(rests + [d], x, n) == Partners(rests, x, n)
  {
    if n == 0 {
    } else {
      PartnersKeep(rests, d, x, n - 1);
    }
  }

  lemma {:induction false} PairsKeep(u: nat, rests: seq<nat>, d: nat, n: nat)
    requires n <= |rests|
    ensures PairsInBucket(u, rests + [d], n) == PairsInBucket(u, rests, n)
  {
    hide Partners;
    hide PairsAt;
    if n == 0 {
    } else {
      PairsKeep(u, rests, d, n - 1);
      PartnersKeep(rests, d, rests[n - 1], n - 1);
      assert (rests + [d])[n - 1] == rests[n - 1];
    }
  }

  /** Linking one more slot adds its pairs, all of them still to be visited. */
  lemma ScanGrows(u: nat, rests: seq<nat>, d: nat)
    ensures PairsInBucket(u, rests + [d], |rests| + 1) ==
            PairsInBucket(u, rests, |rests|) + PairsAt(u, |rests|, Partners(rests, d, |rests|))
  {
    hide Partners;
    PairsKeep(u, rests, d, |rests|);
    PartnersKeep(rests, d, d, |rests|);
  }

  // ---------- steps that change shared memory ----------

  lemma ClearCountKeeps(H: IndexHash, st: State, st': State, i: nat)
    requires Inv(H, st) && ClearCount(st, st', i)
    ensures Inv(H, st')
  {
    hide LogOK;
    hide HistoryOK;
    hide IsSearch;
    hide Live;
    hide RestList;
    hide PairsOf;
    hide ClaimOK;
    hide SamePlace;
    var g, ws, ws' := st.round, st.workers, st'.workers;
    var w, base := ws[i], Base(g, st.layers);
    SameClaims(ws, ws');
    assert WorkerOK(H, g, |ws|, base, i, w);
    assert WorkersOK(H, g, base, ws') by {
      hide ScanOK;
      EmptyScan(H, g, Live(base[w.next]));
    }
    ClearBuckets(H, g, base, ws, i, st.pairLog, st.counts);
  }

  lemma EmptyScan(H: IndexHash, g: nat, trees: seq<Tree>)
    requires 1 <= g <= WK
    ensures ScanOK(H, g, trees, |trees|, [], [])
  {
    hide RestOf;
  }

  lemma ClearBuckets(H: IndexHash, g: nat, base: Layer, ws: seq<Worker>, i: nat, log: seq<Pair>, counts: Counter -> nat)
    requires 1 <= g <= WK && i < |ws| && |base| == NBUCKETS && ws[i].work.Counted? && ws[i].round == g
    requires ws[i].next < NBUCKETS && ws[i].next % |ws| == i && BucketsOK(H, g, base, ws, log, counts)
    ensures BucketsOK(H, g, base, ws[i := ws[i].(work := Scanning(ws[i].work.bsize, [], []))], log,
                      SetCount(counts, Counter(Source(g), ws[i].next), 0))
  {
    hide RestList;
    hide Live;
    hide PairsOf;
    assert Owner(ws[i].next, |ws|) == i;
    hide Owner;
    var w' := ws[i].(work := Scanning(ws[i].work.bsize, [], []));
    var ws' := ws[i := w'];
    var counts' := SetCount(counts, Counter(Source(g), ws[i].next), 0);
    forall u | 0 <= u < NBUCKETS
      ensures BucketOK(H, g, base[u], u, Owner(u, |ws'|), ws'[Owner(u, |ws'|)],
                       PairsOf(log, u), counts'(Counter(Source(g), u)))
    {
      assert BucketOK(H, g, base[u], u, Owner(u, |ws|), ws[Owner(u, |ws|)],
                      PairsOf(log, u), counts(Counter(Source(g), u)));
    }
  }

  /** What arrival number s in a bucket gives its worker to write to. */
  predicate ClaimFor(claim: Claim, h: nat, c: nat, s: nat, t: Tree)
  {
    if s < NSLOTS then claim.SlotClaim? && claim.place == Place(h, c, s) && claim.t == t else claim == NoClaim
  }

  /** A claim gets the number the arrival has in its bucket, so nobody else holds it. */
  lemma ReserveClaims(g: nat, out: Layer, found: seq<seq<nat>>, ws: seq<Worker>, i: nat, w: Worker, c: nat, t: Tree)
    requires g < WK && c < |out| && i < |ws| && ClaimsOK(g, out, found, ws)
    requires ClaimFor(w.claim, Target(g), c, |out[c]|, t)
    ensures ClaimsOK(g, Push(out, c, t), found, ws[i := w])
  {
    var out', ws' := Push(out, c, t), ws[i := w];
    forall j | 0 <= j < |ws'|
      ensures ClaimOK(g, out', found, ws'[j].claim)
    {
      if j != i {
        assert ClaimOK(g, out, found, ws[j].claim);
      }
    }
    forall j, k | 0 <= j < k < |ws'|
      ensures !SamePlace(ws'[j].claim, ws'[k].claim)
    {
      assert !SamePlace(ws[j].claim, ws[k].claim);
      assert ClaimOK(g, out, found, ws[j].claim) && ClaimOK(g, out, found, ws[k].claim);
    }
  }

  lemma ReserveCells(g: nat, cells: Place -> Cell, out: Layer, ws: seq<Worker>, i: nat, w: Worker, c: nat, t: Tree)
    requires g < WK && c < |out| && i < |ws| && ws[i].claim == NoClaim && TargetCells(g, cells, out, ws)
    requires ClaimFor(w.claim, Target(g), c, |out[c]|, t)
    ensures TargetCells(g, cells, Push(out, c, t), ws[i := w])
  {
    var out', ws' := Push(out, c, t), ws[i := w];
    forall b, s | 0 <= b < |out'| && 0 <= s < |Live(out'[b])|
      ensures cells(Place(Target(g), b, s)) == Holds(Live(out'[b])[s]) || Claimed(ws', Place(Target(g), b, s))
    {
      if b == c && s == |out[c]| {
        assert ws'[i].claim.place == Place(Target(g), b, s);
      } else {
        assert Live(out'[b])[s] == Live(out[b])[s];
        if Claimed(ws, Place(Target(g), b, s)) {
          var j :| 0 <= j < |ws| && ws[j].claim.SlotClaim? && ws[j].claim.place == Place(Target(g), b, s);
          assert ws'[j] == ws[j];
        }
      }
    }
  }

  lemma ReserveCounts(g: nat, counts: Counter -> nat, out: Layer, c: nat, t: Tree)
    requires |out| == NBUCKETS && c < NBUCKETS && TargetCounts(g, counts, out)
    ensures TargetCounts(g, SetCount(counts, Counter(Target(g), c), |out[c]| + 1), Push(out, c, t))
  {
  }

  lemma HashLeafKeeps(H: IndexHash, st: State, st': State, i: nat)
    requires Inv(H, st) && HashLeaf(H, st, st', i)
    ensures Inv(H, st')
  {
    hide IsRun;
    hide IsSearch;
    hide Live;
    hide BucketOf;
    hide LeavesOf;
    hide BlocksOK;
    hide ClaimsOK;
    hide TargetCells;
    hide SolClaimed;
    hide WorkerOK;
    hide Absorb;
    var g, ws, ws' := st.round, st.workers, st'.workers;
    var w, base := ws[i], Base(g, st.layers);
    var idx := 2 * w.next + w.work.j;
    var c := BucketOf(H(idx), 0);
    InvWorker(H, st, i);
    assert ws' == ws[i := ws'[i]];
    HashingOK(H, g, |ws|, base, i, w, ws'[i]);
    ReserveClaims(g, st.out, st.found, ws, i, ws'[i], c, Leaf(idx));
    ReserveCells(g, st.cells, st.out, ws, i, ws'[i], c, Leaf(idx));
    ReserveCounts(g, st.counts, st.out, c, Leaf(idx));
    NoSolLost(ws, i, ws'[i]);
    assert st'.leafLog[..|st.leafLog|] == st.leafLog;
    LeafBlocks(ws, i, ws'[i], st.leafLog, idx);
    assert WorkersOK(H, g, base, ws') by {
      forall k | 0 <= k < |ws'|
        ensures WorkerOK(H, g, |ws'|, base, k, ws'[k])
      {
        assert WorkerOK(H, g, |ws|, base, k, ws[k]);
      }
    }
  }

  lemma HashingOK(H: IndexHash, g: nat, n: nat, base: Layer, i: nat, w: Worker, w': Worker)
    requires 0 < n && WorkerOK(H, g, n, base, i, w) && w.work.Hashing? && w.work.j < 2
    requires w' == w.(work := Hashing(w.work.j + 1), claim := w'.claim)
    ensures g == 0 && w.round == 0 && w.next < NBLOCKS && w.next % n == i && WorkerOK(H, g, n, base, i, w')
  {
  }

  lemma NoSolLost(ws: seq<Worker>, i: nat, w: Worker)
    requires i < |ws| && ws[i].claim == NoClaim
    ensures forall k :: SolClaimed(ws, k) ==> SolClaimed(ws[i := w], k)
  {
    forall k | SolClaimed(ws, k)
      ensures SolClaimed(ws[i := w], k)
    {
      var j :| 0 <= j < |ws| && ws[j].claim.SolClaim? && ws[j].claim.i == k;
      assert ws[i := w][j] == ws[j];
    }
  }

  lemma LeafBlocks(ws: seq<Worker>, i: nat, w: Worker, log: seq<nat>, idx: nat)
    requires i < |ws| && ws[i].work.Hashing? && ws[i].work.j < 2 && ws[i].next < NBLOCKS && ws[i].next % |ws| == i
    requires idx == 2 * ws[i].next + ws[i].work.j
    requires w.work == Hashing(ws[i].work.j + 1) && w.next == ws[i].next && BlocksOK(ws, log)
    ensures BlocksOK(ws[i := w], log + [idx])
  {
    var ws', log' := ws[i := w], log + [idx];
    assert log'[..|log|] == log;
    assert Owner(ws[i].next, |ws|) == i;
    hide Owner;
    forall u | 0 <= u < NBLOCKS
      ensures BlockOK(u, ws'[Owner(u, |ws'|)], LeavesOf(log', u))
    {
      assert BlockOK(u, ws[Owner(u, |ws|)], LeavesOf(log, u));
      assert LeavesOf(log', u) == LeavesOf(log, u) + (if idx / 2 == u then [idx] else []);
      assert idx / 2 == ws[i].next;
      if u == ws[i].next {
        assert Owner(u, |ws|) == i;
      }
    }
  }

  lemma OneWorker(H: IndexHash, g: nat, base: Layer, ws: seq<Worker>, i: nat, w: Worker)
    requires i < |ws| && WorkersOK(H, g, base, ws) && WorkerOK(H, g, |ws|, base, i, w)
    ensures WorkersOK(H, g, base, ws[i := w])
  {
    hide WorkerOK;
  }

  lemma MatchedPartner(H: IndexHash, g: nat, n: nat, base: Layer, i: nat, w: Worker)
    requires 0 < n && WorkerOK(H, g, n, base, i, w) && w.work.Matched?
    ensures w.work.partners != []
  {
    hide ScanOK;
    hide Live;
  }

  /** The pair that worker w is about to handle, and the tree it makes. */
  lemma MatchedPair(H: IndexHash, g: nat, n: nat, base: Layer, i: nat, w: Worker) returns (p: Pair)
    requires 0 < n && WorkerOK(H, g, n, base, i, w) && w.work.Matched? && w.work.rests != []
    ensures w.round == g && 1 <= g <= WK && w.next < |base| && w.next % n == i && w.work.partners != []
    ensures p == Pair(w.next, w.work.partners[0], |w.work.rests| - 1)
    ensures InRange(base, p) && PairTree(base, p) == Node(w.work.t0, w.work.t1)
  {
    hide ScanOK;
    hide Live;
    ScanBounds(H, g, n, base, i, w);
    p := Pair(w.next, w.work.partners[0], |w.work.rests| - 1);
  }

  lemma AfterMatch(H: IndexHash, g: nat, n: nat, base: Layer, i: nat, w: Worker, w': Worker)
    requires 0 < n && WorkerOK(H, g, n, base, i, w) && w.work.Matched? && w.work.partners != []
    requires w' == w.(work := Scanning(w.work.bsize, w.work.rests, w.work.partners[1..]), claim := w'.claim)
    ensures WorkerOK(H, g, n, base, i, w')
  {
    hide RestList;
    hide Live;
    var ps := w.work.partners;
    assert forall k :: 0 <= k < |ps[1..]| ==> ps[1..][k] == ps[k + 1];
  }

  /** Handling the next pair of a bucket moves it from the pairs to be visited to the log. */
  lemma HandleBuckets(H: IndexHash, g: nat, base: Layer, ws: seq<Worker>, i: nat, w: Worker,
                                         log: seq<Pair>, p: Pair, counts: Counter -> nat, counts': Counter -> nat)
    requires 1 <= g <= WK && i < |ws| && |base| == NBUCKETS && BucketsOK(H, g, base, ws, log, counts)
    requires ws[i].work.Matched? && ws[i].work.partners != [] && ws[i].work.rests != [] && ws[i].round == g
    requires ws[i].next < NBUCKETS && ws[i].next % |ws| == i
    requires p == Pair(ws[i].next, ws[i].work.partners[0], |ws[i].work.rests| - 1)
    requires w.round == g && w.next == ws[i].next
    requires w.work == Scanning(ws[i].work.bsize, ws[i].work.rests, ws[i].work.partners[1..])
    requires forall c :: counts(Counter(Source(g), c)) == counts'(Counter(Source(g), c))
    ensures BucketsOK(H, g, base, ws[i := w], log + [p], counts')
  {
    hide RestList;
    hide Live;
    hide PairsInBucket;
    hide BucketOK;
    assert Owner(ws[i].next, |ws|) == i;
    hide Owner;
    var ws', log' := ws[i := w], log + [p];
    assert log'[..|log|] == log;
    forall u | 0 <= u < NBUCKETS
      ensures BucketOK(H, g, base[u], u, Owner(u, |ws'|), ws'[Owner(u, |ws'|)],
                       PairsOf(log', u), counts'(Counter(Source(g), u)))
    {
      assert BucketOK(H, g, base[u], u, Owner(u, |ws|), ws[Owner(u, |ws|)],
                      PairsOf(log, u), counts(Counter(Source(g), u)));
      assert PairsOf(log', u) == PairsOf(log, u) + (if p.b == u then [p] else []);
      if u == p.b {
        HandledHere(H, g, base[u], u, i, ws[i], w, PairsOf(log, u), counts(Counter(Source(g), u)));
      } else {
        assert PairsOf(log', u) == PairsOf(log, u);
        if Owner(u, |ws|) == i {
          HandledElsewhere(H, g, base[u], u, i, ws[i], w, PairsOf(log, u), counts(Counter(Source(g), u)));
        }
      }
    }
  }

  lemma HandledHere(H: IndexHash, g: nat, arrivals: seq<Tree>, u: nat, i: nat, was: Worker, w: Worker,
                    done: seq<Pair>, count: nat)
    requires 1 <= g <= WK && was.work.Matched? && was.work.partners != [] && was.work.rests != []
    requires was.round == w.round == g && was.next == w.next == u
    requires w.work == Scanning(was.work.bsize, was.work.rests, was.work.partners[1..])
    requires BucketOK(H, g, arrivals, u, i, was, done, count)
    ensures BucketOK(H, g, arrivals, u, i, w, done + [Pair(u, was.work.partners[0], |was.work.rests| - 1)], count)
  {
    hide RestList;
    hide Live;
    hide PairsInBucket;
    hide Remaining;
    var rests, ps, p := w.work.rests, was.work.partners, Pair(u, was.work.partners[0], |was.work.rests| - 1);
    NextRemaining(u, rests, ps);
    assert done + ([p] + Remaining(u, rests, ps[1..])) == (done + [p]) + Remaining(u, rests, ps[1..]);
  }

  lemma HandledElsewhere(H: IndexHash, g: nat, arrivals: seq<Tree>, u: nat, i: nat, was: Worker, w: Worker,
                         done: seq<Pair>, count: nat)
    requires 1 <= g <= WK && was.round == w.round == g && was.next == w.next && u != w.next
    requires BucketOK(H, g, arrivals, u, i, was, done, count)
    ensures BucketOK(H, g, arrivals, u, i, w, done, count)
  {
    hide RestList;
    hide Live;
    hide PairsInBucket;
    hide Remaining;
  }

  lemma NextRemaining(u: nat, rests: seq<nat>, partners: seq<nat>)
    requires rests != [] && partners != []
    ensures Remaining(u, rests, partners) == [Pair(u, partners[0], |rests| - 1)] + Remaining(u, rests, partners[1..])
  {
  }

  lemma HandleLog(H: IndexHash, g: nat, base: Layer, out: Layer, leafLog: seq<nat>, log: seq<Pair>,
                  found: seq<seq<nat>>, p: Pair)
    requires 1 <= g <= WK && LogOK(H, g, base, out, leafLog, log, found) && InRange(base, p)
    ensures var t := PairTree(base, p);
            var out' := if g == WK || Rejected(H, t) then out else Push(out, BucketOf(TreeXor(H, t), g), t);
            var found' := if g == WK && Accepted(H, t) then found + [Leaves(Canon(t))] else found;
            LogOK(H, g, base, out', leafLog, log + [p], found')
  {
    hide Rejected;
    hide Accepted;
    hide BucketOf;
    hide TreeXor;
    hide Canon;
    hide Leaves;
    hide PairTree;
    hide InRange;
    var log' := log + [p];
    assert log'[..|log|] == log && log'[|log|] == p;
  }

  lemma RecordKeeps(g: nat, out: Layer, found: seq<seq<nat>>, ws: seq<Worker>, i: nat, w: Worker,
                                       sols: nat -> SolCell, nsols: nat, proof: seq<nat>)
    requires g == WK && i < |ws| && ws[i].claim == NoClaim
    requires ClaimsOK(g, out, found, ws) && SolsOK(sols, nsols, found, ws)
    requires w.claim == if nsols < MAXSOLS then SolClaim(nsols, proof) else NoClaim
    ensures ClaimsOK(g, out, found + [proof], ws[i := w]) && SolsOK(sols, nsols + 1, found + [proof], ws[i := w])
  {
    var ws', found' := ws[i := w], found + [proof];
    forall j | 0 <= j < |ws'|
      ensures ClaimOK(g, out, found', ws'[j].claim)
    {
      assert ClaimOK(g, out, found, ws[j].claim);
    }
    forall j, k | 0 <= j < k < |ws'|
      ensures !SamePlace(ws'[j].claim, ws'[k].claim)
    {
      assert !SamePlace(ws[j].claim, ws[k].claim);
      assert ClaimOK(g, out, found, ws[j].claim) && ClaimOK(g, out, found, ws[k].claim);
    }
    NoSolLost(ws, i, w);
    if |found| < MAXSOLS {
      assert ws'[i].claim.i == |found|;
    }
  }

  /** Dropping a pair, or claiming a slot for it, or a solution number. */
  lemma HandlePairKeeps(H: IndexHash, st: State, st': State, i: nat)
    requires Inv(H, st) && HandlePair(H, st, st', i)
    ensures Inv(H, st')
  {
    hide IsRun;
    hide IsSearch;
    hide Live;
    hide BucketOf;
    hide Rejected;
    hide Accepted;
    hide TreeXor;
    hide Leaves;
    hide Canon;
    hide InRange;
    hide BucketsOK;
    hide ClaimsOK;
    hide SolsOK;
    hide TargetCells;
    hide WorkersOK;
    hide WorkerOK;
    hide LogOK;
    hide PairTree;
    hide Base;
    hide SourceCells;
    hide BlocksOK;
    hide HistoryOK;
    var g, ws, ws' := st.round, st.workers, st'.workers;
    var w, base := ws[i], Base(g, st.layers);
    InvWorker(H, st, i);
    var p := MatchedPair(H, g, |ws|, base, i, w);
    var t := PairTree(base, p);
    assert ws' == ws[i := ws'[i]];
    AfterMatch(H, g, |ws|, base, i, w, ws'[i]);
    OneWorker(H, g, base, ws, i, ws'[i]);
    HandleBuckets(H, g, base, ws, i, ws'[i], st.pairLog, p, st.counts, st'.counts);
    HandleLog(H, g, base, st.out, st.leafLog, st.pairLog, st.found, p);
    if g == WK && Accepted(H, t) {
      RecordKeeps(g, st.out, st.found, ws, i, ws'[i], st.sols, st.nsols, Leaves(Canon(t)));
      SlotsStay(g, st.cells, st.out, ws, i, ws'[i]);
    } else if g == WK || Rejected(H, t) {
      SameClaims(ws, ws');
      SameClaimsOK(g, st.cells, st.sols, st.nsols, st.out, st.found, ws, ws');
    } else {
      var c := BucketOf(TreeXor(H, t), g);
      ReserveClaims(g, st.out, st.found, ws, i, ws'[i], c, t);
      ReserveCells(g, st.cells, st.out, ws, i, ws'[i], c, t);
      ReserveCounts(g, st.counts, st.out, c, t);
      SolsStay(st.sols, st.nsols, st.found, ws, i, ws'[i]);
    }
  }

  lemma SlotsStay(g: nat, cells: Place -> Cell, out: Layer, ws: seq<Worker>, i: nat, w: Worker)
    requires i < |ws| && ws[i].claim == NoClaim && TargetCells(g, cells, out, ws)
    ensures TargetCells(g, cells, out, ws[i := w])
  {
    hide Live;
    forall c, s | 0 <= c < |out| && 0 <= s < |Live(out[c])|
      ensures cells(Place(Target(g), c, s)) == Holds(Live(out[c])[s]) || Claimed(ws[i := w], Place(Target(g), c, s))
    {
      if Claimed(ws, Place(Target(g), c, s)) {
        var j :| 0 <= j < |ws| && ws[j].claim.SlotClaim? && ws[j].claim.place == Place(Target(g), c, s);
        assert ws[i := w][j] == ws[j];
      }
    }
  }

  lemma SolsStay(sols: nat -> SolCell, nsols: nat, found: seq<seq<nat>>, ws: seq<Worker>, i: nat, w: Worker)
    requires i < |ws| && ws[i].claim == NoClaim && SolsOK(sols, nsols, found, ws)
    ensures SolsOK(sols, nsols, found, ws[i := w])
  {
    NoSolLost(ws, i, w);
  }

  lemma SameClaimsOK(g: nat, cells: Place -> Cell, sols: nat -> SolCell, nsols: nat, out: Layer, found: seq<seq<nat>>,
                                        ws: seq<Worker>, ws': seq<Worker>)
    requires |ws| == |ws'| && forall i :: 0 <= i < |ws| ==> ws[i].claim == ws'[i].claim
    requires ClaimsOK(g, out, found, ws) && SolsOK(sols, nsols, found, ws) && TargetCells(g, cells, out, ws)
    ensures ClaimsOK(g, out, found, ws') && SolsOK(sols, nsols, found, ws') && TargetCells(g, cells, out, ws')
  {
    hide ClaimOK;
    hide SamePlace;
    hide Live;
    SameClaims(ws, ws');
  }

  lemma BeginWriteKeeps(H: IndexHash, st: State, st': State, i: nat)
    requires Inv(H, st) && BeginWrite(st, st', i)
    ensures Inv(H, st')
  {
    hide IsRun;
    hide IsSearch;
    hide Live;
    hide BucketsOK;
    hide BlocksOK;
    hide WorkersOK;
    hide LogOK;
    hide SamePlace;
    hide Base;
    var ws := st.workers;
    assert ClaimOK(st.round, st.out, st.found, ws[i].claim);
    match ws[i].claim
    case SlotClaim(q, t, _) => assert Claimed(ws, q);
    case SolClaim(k, proof) => assert SolClaimed(ws, k);
  }

  lemma EndWriteKeeps(H: IndexHash, st: State, st': State, i: nat)
    requires Inv(H, st) && EndWrite(st, st', i)
    ensures Inv(H, st')
  {
    hide IsRun;
    hide IsSearch;
    hide ClaimsOK;
    hide SolsOK;
    hide TargetCells;
    hide WorkerOK;
    hide BucketsOK;
    hide BlocksOK;
    hide LogOK;
    hide Base;
    hide Live;
    var g, ws, ws' := st.round, st.workers, st'.workers;
    InvWorker(H, st, i);
    WriterOK(H, g, |ws|, Base(g, st.layers), i, ws[i]);
    OneWorker(H, g, Base(g, st.layers), ws, i, ws'[i]);
    FinishedClaims(g, st.out, st.found, ws, i);
    FinishedUnits(H, g, Base(g, st.layers), ws, i, st.leafLog, st.pairLog, st.counts);
    match ws[i].claim
    case SlotClaim(q, t, _) =>
      FinishedSlot(g, st.cells, st.out, st.found, ws, i);
      FinishedNoSol(st.sols, st.nsols, st.found, ws, i);
    case SolClaim(k, proof) =>
      FinishedSol(g, st.sols, st.nsols, st.out, st.found, ws, i);
      FinishedNoSlot(g, st.cells, st.out, ws, i);
  }

  lemma WriterOK(H: IndexHash, g: nat, n: nat, base: Layer, i: nat, w: Worker)
    requires 0 < n && WorkerOK(H, g, n, base, i, w)
    ensures WorkerOK(H, g, n, base, i, w.(claim := NoClaim))
  {
    hide ScanOK;
    hide Live;
  }

  function Finished(ws: seq<Worker>, i: nat): seq<Worker>
    requires i < |ws|
  {
    ws[i := ws[i].(claim := NoClaim)]
  }

  lemma NoClaimOK(g: nat, out: Layer, found: seq<seq<nat>>)
    ensures ClaimOK(g, out, found, NoClaim)
  {
  }

  lemma FinishedClaims(g: nat, out: Layer, found: seq<seq<nat>>, ws: seq<Worker>, i: nat)
    requires i < |ws| && ClaimsOK(g, out, found, ws)
    ensures ClaimsOK(g, out, found, Finished(ws, i))
  {
    hide ClaimOK;
    NoClaimOK(g, out, found);
    forall j, k | 0 <= j < k < |ws|
      ensures !SamePlace(Finished(ws, i)[j].claim, Finished(ws, i)[k].claim)
    {
      assert !SamePlace(ws[j].claim, ws[k].claim);
    }
  }

  lemma FinishedUnits(H: IndexHash, g: nat, base: Layer, ws: seq<Worker>, i: nat, leafLog: seq<nat>, log: seq<Pair>,
                      counts: Counter -> nat)
    requires i < |ws|
    ensures BlocksOK(ws, leafLog) ==> BlocksOK(Finished(ws, i), leafLog)
    ensures 1 <= g <= WK && |base| == NBUCKETS && BucketsOK(H, g, base, ws, log, counts) ==>
              BucketsOK(H, g, base, Finished(ws, i), log, counts)
  {
    hide Owner;
    hide PairsOf;
    hide LeavesOf;
    hide PairsInBucket;
    hide Live;
    hide RestList;
  }

  lemma FinishedSlot(g: nat, cells: Place -> Cell, out: Layer, found: seq<seq<nat>>, ws: seq<Worker>, i: nat)
    requires i < |ws| && ws[i].claim.SlotClaim? && ClaimsOK(g, out, found, ws) && TargetCells(g, cells, out, ws)
    ensures TargetCells(g, SetCell(cells, ws[i].claim.place, Holds(ws[i].claim.t)), out, Finished(ws, i))
    ensures ws[i].claim.place.h == Target(g)
  {
    var q, t := ws[i].claim.place, ws[i].claim.t;
    var cells' := SetCell(cells, q, Holds(t));
    assert ClaimOK(g, out, found, ws[i].claim);
    forall c, s | 0 <= c < |out| && 0 <= s < |Live(out[c])|
      ensures cells'(Place(Target(g), c, s)) == Holds(Live(out[c])[s]) ||
                Claimed(Finished(ws, i), Place(Target(g), c, s))
    {
      var here := Place(Target(g), c, s);
      if here != q && Claimed(ws, here) {
        var j :| 0 <= j < |ws| && ws[j].claim.SlotClaim? && ws[j].claim.place == here;
        assert Finished(ws, i)[j] == ws[j];
      }
    }
  }

  lemma FinishedNoSlot(g: nat, cells: Place -> Cell, out: Layer, ws: seq<Worker>, i: nat)
    requires i < |ws| && ws[i].claim.SolClaim? && TargetCells(g, cells, out, ws)
    ensures TargetCells(g, cells, out, Finished(ws, i))
  {
    hide Live;
    forall c, s | 0 <= c < |out| && 0 <= s < |Live(out[c])|
      ensures cells(Place(Target(g), c, s)) == Holds(Live(out[c])[s]) ||
                Claimed(Finished(ws, i), Place(Target(g), c, s))
    {
      if Claimed(ws, Place(Target(g), c, s)) {
        var j :| 0 <= j < |ws| && ws[j].claim.SlotClaim? && ws[j].claim.place == Place(Target(g), c, s);
        assert Finished(ws, i)[j] == ws[j];
      }
    }
  }

  lemma FinishedSol(g: nat, sols: nat -> SolCell, nsols: nat, out: Layer, found: seq<seq<nat>>, ws: seq<Worker>, i: nat)
    requires i < |ws| && ws[i].claim.SolClaim? && ClaimsOK(g, out, found, ws) && SolsOK(sols, nsols, found, ws)
    ensures SolsOK(SetSol(sols, ws[i].claim.i, Sol(ws[i].claim.proof)), nsols, found, Finished(ws, i))
  {
    assert ClaimOK(g, out, found, ws[i].claim);
    forall k | 0 <= k < |found| && k != ws[i].claim.i && SolClaimed(ws, k)
      ensures SolClaimed(Finished(ws, i), k)
    {
      var j :| 0 <= j < |ws| && ws[j].claim.SolClaim? && ws[j].claim.i == k;
      assert Finished(ws, i)[j] == ws[j];
    }
  }

  lemma FinishedNoSol(sols: nat -> SolCell, nsols: nat, found: seq<seq<nat>>, ws: seq<Worker>, i: nat)
    requires i < |ws| && ws[i].claim.SlotClaim? && SolsOK(sols, nsols, found, ws)
    ensures SolsOK(sols, nsols, found, Finished(ws, i))
  {
    forall k | SolClaimed(ws, k)
      ensures SolClaimed(Finished(ws, i), k)
    {
      var j :| 0 <= j < |ws| && ws[j].claim.SolClaim? && ws[j].claim.i == k;
      assert Finished(ws, i)[j] == ws[j];
    }
  }

  // ---------- the logs of a whole round ----------

  lemma {:induction false} PairsOfIn(log: seq<Pair>, u: nat, p: Pair)
    ensures p in PairsOf(log, u) <==> p in log && p.b == u
  {
    if log == [] {
    } else {
      var n := |log| - 1;
      PairsOfIn(log[..n], u, p);
      assert log == log[..n] + [log[n]];
    }
  }

  /** A log without repeats in any bucket has no repeats. */
  lemma {:induction false} PairsOfOnce(log: seq<Pair>, nb: nat)
    requires forall u :: 0 <= u < nb ==> Distinct(PairsOf(log, u))
    requires forall p :: p in log ==> p.b < nb
    ensures Distinct(log)
  {
    hide Distinct;
    if log == [] {
      DistinctEmpty<Pair>();
    } else {
      var n := |log| - 1;
      var p := log[n];
      assert log == log[..n] + [p];
      forall u | 0 <= u < nb
        ensures Distinct(PairsOf(log[..n], u))
      {
        var more := if p.b == u then [p] else [];
        assert PairsOf(log, u) == PairsOf(log[..n], u) + more;
        DistinctPrefix(PairsOf(log[..n], u), more);
      }
      PairsOfOnce(log[..n], nb);
      PairsOfIn(log[..n], p.b, p);
      assert p in log && PairsOf(log, p.b) == PairsOf(log[..n], p.b) + [p];
      DistinctLast(PairsOf(log[..n], p.b), p);
      AppendOnce(log[..n], p);
    }
  }

  /** When every bucket has been scanned, the log lists each colliding pair once. */
  lemma RoundPairs(H: IndexHash, q: nat, base: Layer, log: seq<Pair>)
    requires q < WK && |base| == NBUCKETS && AllInRange(base, log)
    requires forall u :: 0 <= u < NBUCKETS ==>
               PairsOf(log, u) == PairsInBucket(u, RestList(H, q, Live(base[u])), |Live(base[u])|)
    ensures IsPairList(H, q, base, log)
  {
    hide RestList;
    hide PairsInBucket;
    hide Distinct;
    hide Collides;
    hide PairsOf;
    hide Live;
    forall u | 0 <= u < NBUCKETS
      ensures Distinct(PairsOf(log, u))
    {
      PairsOfBucketExact(H, q, base, u);
    }
    PairsOfOnce(log, NBUCKETS);
    forall p: Pair
      ensures p in log <==> Collides(H, q, base, p)
    {
      PairsOfIn(log, p.b, p);
      if p.b < NBUCKETS {
        PairsOfBucketExact(H, q, base, p.b);
      } else {
        NoFarPair(H, q, base, p);
      }
    }
  }

  lemma NoFarPair(H: IndexHash, q: nat, base: Layer, p: Pair)
    requires q <= WK && p.b >= |base|
    ensures !Collides(H, q, base, p) && !InRange(base, p)
  {
  }

  lemma {:induction false} LeavesOfIn(log: seq<nat>, k: nat)
    ensures k in LeavesOf(log, k / 2) <==> k in log
  {
    if log == [] {
    } else {
      var n := |log| - 1;
      LeavesOfIn(log[..n], k);
      assert log == log[..n] + [log[n]];
    }
  }

  /** A log whose blocks list their two leaves repeats nothing. */
  lemma {:induction false} LeavesOfOnce(log: seq<nat>)
    requires forall k :: k in log ==> Distinct(LeavesOf(log, k / 2))
    ensures Distinct(log)
  {
    hide Distinct;
    if log == [] {
      DistinctEmpty<nat>();
    } else {
      var n := |log| - 1;
      var k := log[n];
      assert log == log[..n] + [k];
      forall j | j in log[..n]
        ensures Distinct(LeavesOf(log[..n], j / 2))
      {
        var more := if k / 2 == j / 2 then [k] else [];
        assert j in log && LeavesOf(log, j / 2) == LeavesOf(log[..n], j / 2) + more;
        DistinctPrefix(LeavesOf(log[..n], j / 2), more);
      }
      LeavesOfOnce(log[..n]);
      LeavesOfIn(log[..n], k);
      assert k in log && LeavesOf(log, k / 2) == LeavesOf(log[..n], k / 2) + [k];
      DistinctLast(LeavesOf(log[..n], k / 2), k);
      AppendOnce(log[..n], k);
    }
  }

  function Logged(log: seq<nat>): nat -> bool
  {
    (k: nat) => k in log
  }

  /** Leaves that arrive in any order, each once, make a layer of good trees. */
  lemma {:induction false} LeavesArrivedOK(H: IndexHash, log: seq<nat>)
    requires Distinct(log) && forall k :: k in log ==> k < NHASHES
    ensures var L := LeavesArrived(H, log);
            LayerOK(H, L, 0) && NoTwins(L) && HoldsLeaves(L, Logged(log))
  {
    hide LayerOK;
    hide NoTwins;
    hide HoldsLeaves;
    hide Push;
    hide EmptyLayer;
    hide BucketOf;
    if log == [] {
      EmptyLayerOK(H, Logged(log));
    } else {
      var n := |log| - 1;
      assert log == log[..n] + [log[n]];
      DistinctPrefix<nat>(log[..n], [log[n]]);
      DistinctLast<nat>(log[..n], log[n]);
      assert forall k :: k in log <==> k in log[..n] || k == log[n];
      LeavesArrivedOK(H, log[..n]);
      LeafPush(H, LeavesArrived(H, log[..n]), Logged(log[..n]), log[n], Logged(log));
    }
  }

  /** When every block has been hashed, every leaf is in place once. */
  lemma RoundLeaves(H: IndexHash, log: seq<nat>)
    requires forall u :: 0 <= u < NBLOCKS ==> LeavesOf(log, u) == BlockLeaves(u)
    requires forall k :: k in log ==> k < NHASHES
    ensures FirstLayer(H, LeavesArrived(H, log))
  {
    hide LeavesOf;
    hide LayerOK;
    hide NoTwins;
    hide LeavesArrived;
    hide Distinct;
    forall k: nat
      ensures k in log <==> k < NHASHES
    {
      LeavesOfIn(log, k);
      if k < NHASHES {
        assert LeavesOf(log, k / 2) == BlockLeaves(k / 2);
        assert k == BlockLeaves(k / 2)[k % 2];
      }
    }
    forall k | k in log
      ensures Distinct(LeavesOf(log, k / 2))
    {
      assert k < NHASHES && LeavesOf(log, k / 2) == BlockLeaves(k / 2);
      BlockOnce(k / 2);
    }
    LeavesOfOnce(log);
    LeavesArrivedOK(H, log);
    SameHolds(LeavesArrived(H, log), Logged(log), Indices(NHASHES));
  }

  lemma BlockOnce(u: nat)
    ensures Distinct(BlockLeaves(u))
  {
  }

  lemma SameHolds(L: Layer, ks: nat -> bool, ks': nat -> bool)
    requires HoldsLeaves(L, ks) && forall k :: ks(k) <==> ks'(k)
    ensures HoldsLeaves(L, ks')
  {
    hide Arrived;
  }

  // ---------- the barrier opens ----------

  ghost predicate AllWait(g: nat, ws: seq<Worker>)
  {
    forall i :: 0 <= i < |ws| ==> ws[i].work == AtBarrier && ws[i].round == g
  }

  lemma WaitingWorkers(H: IndexHash, g: nat, base: Layer, ws: seq<Worker>)
    requires 0 < |ws| && WorkersOK(H, g, base, ws) && AllWait(g, ws)
    ensures forall i :: 0 <= i < |ws| ==> ws[i].claim == NoClaim && ws[i].next >= Units(g) && ws[i].round == g <= WK
  {
    hide ScanOK;
    hide Live;
    forall i | 0 <= i < |ws|
      ensures ws[i].claim == NoClaim && ws[i].next >= Units(g) && ws[i].round == g <= WK
    {
      assert WorkerOK(H, g, |ws|, base, i, ws[i]);
    }
  }

  lemma NextWorkers(H: IndexHash, g: nat, base: Layer, ws: seq<Worker>)
    requires AllWait(g, ws) && 0 < |ws| && g <= WK && forall i :: 0 <= i < |ws| ==> ws[i].claim == NoClaim
    ensures WorkersOK(H, g + 1, base, ws)
  {
  }

  lemma NextClaims(g: nat, out: Layer, found: seq<seq<nat>>, ws: seq<Worker>)
    requires forall i :: 0 <= i < |ws| ==> ws[i].claim == NoClaim
    ensures ClaimsOK(g, out, found, ws)
    ensures forall q :: !Claimed(ws, q)
    ensures forall k :: !SolClaimed(ws, k)
  {
  }

  /** What was written in a round is what the next round reads. */
  lemma NextCells(g: nat, cells: Place -> Cell, out: Layer, ws: seq<Worker>)
    requires TargetCells(g, cells, out, ws) && forall q :: !Claimed(ws, q)
    ensures SourceCells(g + 1, cells, out) && TargetCells(g + 1, cells, EmptyLayer(), ws)
  {
    hide Claimed;
    Swap(g);
  }

  lemma Swap(g: nat)
    ensures Source(g + 1) == Target(g) && Target(g + 1) == Source(g)
  {
  }

  lemma NextCounts(g: nat, counts: Counter -> nat)
    requires NoCounts(Source(g), counts)
    ensures TargetCounts(g + 1, counts, EmptyLayer())
  {
    Swap(g);
  }

  lemma NextBuckets(H: IndexHash, g: nat, out: Layer, ws: seq<Worker>, counts: Counter -> nat)
    requires 0 < |ws| && g < WK && AllWait(g, ws) && |out| == NBUCKETS && TargetCounts(g, counts, out)
    ensures BucketsOK(H, g + 1, out, ws, [], counts)
  {
    hide RestList;
    hide Live;
    hide PairsInBucket;
    hide Owner;
    Swap(g);
    forall u | 0 <= u < NBUCKETS
      ensures BucketOK(H, g + 1, out[u], u, Owner(u, |ws|), ws[Owner(u, |ws|)],
                       PairsOf([], u), counts(Counter(Source(g + 1), u)))
    {
      OwnerLow(u, |ws|);
    }
  }

  /** Every bucket of the round has been scanned to its end and its counter cleared. */
  lemma ScannedBuckets(H: IndexHash, g: nat, base: Layer, ws: seq<Worker>, log: seq<Pair>, counts: Counter -> nat)
    requires 1 <= g <= WK && 0 < |ws| && |base| == NBUCKETS && BucketsOK(H, g, base, ws, log, counts)
    requires AllWait(g, ws) && forall i :: 0 <= i < |ws| ==> ws[i].next >= NBUCKETS
    ensures NoCounts(Source(g), counts)
    ensures forall u :: 0 <= u < NBUCKETS ==>
              PairsOf(log, u) == PairsInBucket(u, RestList(H, g - 1, Live(base[u])), |Live(base[u])|)
  {
    hide RestList;
    hide Live;
    hide PairsInBucket;
    hide PairsOf;
    hide Owner;
    forall u | 0 <= u < NBUCKETS
      ensures counts(Counter(Source(g), u)) == 0
      ensures PairsOf(log, u) == PairsInBucket(u, RestList(H, g - 1, Live(base[u])), |Live(base[u])|)
    {
      assert BucketOK(H, g, base[u], u, Owner(u, |ws|), ws[Owner(u, |ws|)],
                      PairsOf(log, u), counts(Counter(Source(g), u)));
    }
  }

  lemma HashedBlocks(ws: seq<Worker>, log: seq<nat>)
    requires 0 < |ws| && BlocksOK(ws, log) && AllWait(0, ws)
    requires forall i :: 0 <= i < |ws| ==> ws[i].next >= NBLOCKS
    ensures forall u :: 0 <= u < NBLOCKS ==> LeavesOf(log, u) == BlockLeaves(u)
  {
    hide LeavesOf;
    hide Owner;
    forall u | 0 <= u < NBLOCKS
      ensures LeavesOf(log, u) == BlockLeaves(u)
    {
      assert BlockOK(u, ws[Owner(u, |ws|)], LeavesOf(log, u));
    }
  }

  /** The layer that a finished round leaves behind extends the run. */
  lemma RunGrows(H: IndexHash, layers: seq<Layer>, ps: seq<Pair>)
    requires 0 < |layers| < WK && IsRun(H, layers) && IsPairList(H, |layers| - 1, layers[|layers| - 1], ps)
    ensures IsRun(H, layers + [Absorb(H, |layers|, layers[|layers| - 1], ps).layer])
  {
    hide FirstLayer;
    hide Absorb;
    hide Collides;
    hide Distinct;
    var g := |layers|;
    var layers' := layers + [Absorb(H, g, layers[g - 1], ps).layer];
    forall r | 1 <= r < |layers'|
      ensures Follows(H, layers', r)
    {
      if r < g {
        assert Follows(H, layers, r);
      } else {
        assert Built(H, g - 1, layers'[g - 1], layers'[g]);
      }
    }
  }

  lemma OpenFirst(H: IndexHash, ws: seq<Worker>, out: Layer, leafLog: seq<nat>)
    requires 0 < |ws| && BlocksOK(ws, leafLog) && AllWait(0, ws) && out == LeavesArrived(H, leafLog)
    requires forall i :: 0 <= i < |ws| ==> ws[i].next >= NBLOCKS
    ensures IsRun(H, [out])
  {
    hide IsRun;
    hide FirstLayer;
    hide LeavesArrived;
    hide LeavesOf;
    HashedBlocks(ws, leafLog);
    RoundLeaves(H, leafLog);
    FirstRun(H, out);
  }

  lemma OpenLater(H: IndexHash, g: nat, layers: seq<Layer>, ws: seq<Worker>, log: seq<Pair>, counts: Counter -> nat)
    requires 1 <= g <= WK && |layers| == g && |layers[g - 1]| == NBUCKETS
    requires 0 < |ws| && BucketsOK(H, g, layers[g - 1], ws, log, counts) && AllInRange(layers[g - 1], log)
    requires AllWait(g, ws) && forall i :: 0 <= i < |ws| ==> ws[i].next >= NBUCKETS
    ensures NoCounts(Source(g), counts) && IsPairList(H, g - 1, layers[g - 1], log)
    ensures g < WK && IsRun(H, layers) ==> IsRun(H, layers + [Absorb(H, g, layers[g - 1], log).layer])
  {
    hide IsRun;
    hide BucketsOK;
    hide RestList;
    hide PairsOf;
    hide PairsInBucket;
    hide Live;
    hide Absorb;
    hide Collides;
    hide Distinct;
    hide InRange;
    ScannedBuckets(H, g, layers[g - 1], ws, log, counts);
    RoundPairs(H, g - 1, layers[g - 1], log);
    if g < WK && IsRun(H, layers) {
      RunGrows(H, layers, log);
    }
  }

  lemma OpenKeeps(H: IndexHash, st: State, st': State)
    requires Inv(H, st) && OpenBarrier(st, st')
    ensures Inv(H, st')
  {
    hide IsRun;
    hide ClaimsOK;
    hide Claimed;
    hide SolClaimed;
    hide TargetCells;
    hide SourceCells;
    hide TargetCounts;
    hide NoCounts;
    hide Absorb;
    hide Found;
    hide LeavesArrived;
    hide BlocksOK;
    hide BucketsOK;
    hide WorkersOK;
    hide InRange;
    hide Collides;
    hide Distinct;
    hide EmptyLayer;
    hide Source;
    hide Target;
    var g, ws, base := st.round, st.workers, Base(st.round, st.layers);
    WaitingWorkers(H, g, base, ws);
    NextWorkers(H, g, Base(g + 1, st'.layers), ws);
    NextClaims(g + 1, st'.out, st.found, ws);
    NextClaims(g, st.out, st.found, ws);
    NextCells(g, st.cells, st.out, ws);
    if g == 0 {
      OpenFirst(H, ws, st.out, st.leafLog);
      assert st'.layers == [st.out];
    } else {
      OpenLater(H, g, st.layers, ws, st.pairLog, st.counts);
    }
    NextCounts(g, st.counts);
    if g < WK {
      NextBuckets(H, g, st.out, ws, st.counts);
      NoPairsYet(H, g + 1, st.out);
    } else {
      LastCounts(g, st.counts);
    }
  }

  lemma NoPairsYet(H: IndexHash, g: nat, base: Layer)
    requires 1 <= g <= WK
    ensures AllInRange(base, []) && Absorb(H, g, base, []).layer == EmptyLayer() && Found(H, base, []) == []
  {
  }

  lemma LastCounts(g: nat, counts: Counter -> nat)
    requires TargetCounts(g, counts, EmptyLayer())
    ensures NoCounts(Source(g + 1), counts)
  {
    Swap(g);
  }

  lemma FirstRun(H: IndexHash, L: Layer)
    requires FirstLayer(H, L)
    ensures IsRun(H, [L])
  {
    hide FirstLayer;
  }
}
