/**
  The tags of finished rounds under the writes of later ones: whatever the workers are
  doing, every tree of every finished layer still has its tag in its slot, and following the
  tags down from a pair of slots gives the tree that the hashes of the two slots belong to.
*/
module WorkerTags {
  import opened Arith
  import opened HashBits
  import opened Wagner
  import opened Layers
  import opened Workers
  import opened WorkerInvariant
  import opened ConcurrentSolver
  import Slots

  /** v is the tag of t, a tree of height k over the layer below. */
  predicate Stands(base: Layer, k: nat, v: Mark, t: Tree)
  {
    if k == 0 then v.LeafTag? && t == Leaf(v.idx)
    else v.PairTag? && InRange(base, v.p) && t == PairTree(base, v.p)
  }

  /** The slots of layer k hold the tags of its trees. */
  ghost predicate LayerTags(tags: (Place, nat) -> Mark, base: Layer, k: nat, L: Layer)
  {
    forall c, s :: 0 <= c < |L| && 0 <= s < |Live(L[c])| ==>
      Stands(base, k, tags(Place(Target(k), c, s), TagUnit(k)), Live(L[c])[s])
  }

  ghost predicate HistoryTags(tags: (Place, nat) -> Mark, layers: seq<Layer>)
  {
    forall k :: 0 <= k < |layers| ==> LayerTags(tags, Base(k, layers), k, layers[k])
  }

  /** So do the slots of this round that nobody is writing to. */
  ghost predicate OutTags(g: nat, tags: (Place, nat) -> Mark, base: Layer, out: Layer, ws: seq<Worker>)
  {
    g < WK ==> forall c, s :: 0 <= c < |out| && 0 <= s < |Live(out[c])| ==>
      || Stands(base, g, tags(Place(Target(g), c, s), TagUnit(g)), Live(out[c])[s])
      || Claimed(ws, Place(Target(g), c, s))
  }

  /** Those who write have the tag of the tree that they write. */
  ghost predicate ClaimTags(g: nat, base: Layer, ws: seq<Worker>)
  {
    forall i :: 0 <= i < |ws| && ws[i].claim.SlotClaim? ==> Stands(base, g, ws[i].claim.tag, ws[i].claim.t)
  }

  ghost predicate TagInv(st: State)
  {
    var base := Base(st.round, st.layers);
    && HistoryTags(st.tags, st.layers) && OutTags(st.round, st.tags, base, st.out, st.workers)
    && ClaimTags(st.round, base, st.workers)
  }

  lemma InitialTags(st: State)
    requires Initial(st)
    ensures TagInv(st)
  {
  }

  // ---------- steps that write no slot ----------

  lemma ClaimsStay(ws: seq<Worker>, i: nat, w: Worker, q: Place)
    requires i < |ws| && ws[i].claim == NoClaim && Claimed(ws, q)
    ensures Claimed(ws[i := w], q)
  {
    var j :| 0 <= j < |ws| && ws[j].claim.SlotClaim? && ws[j].claim.place == q;
    assert ws[i := w][j] == ws[j];
  }

  lemma TagsStayOut(g: nat, tags: (Place, nat) -> Mark, base: Layer, out: Layer, ws: seq<Worker>, i: nat, w: Worker)
    requires i < |ws| && ws[i].claim == NoClaim && OutTags(g, tags, base, out, ws)
    ensures OutTags(g, tags, base, out, ws[i := w])
  {
    hide Live;
    hide Claimed;
    hide Stands;
    if g < WK {
      forall c, s | 0 <= c < |out| && 0 <= s < |Live(out[c])| && Claimed(ws, Place(Target(g), c, s))
        ensures Claimed(ws[i := w], Place(Target(g), c, s))
      {
        ClaimsStay(ws, i, w, Place(Target(g), c, s));
      }
    }
  }

  lemma ReserveTags(g: nat, tags: (Place, nat) -> Mark, base: Layer, out: Layer, ws: seq<Worker>, i: nat, w: Worker,
                    c: nat, t: Tree)
    requires g < WK && c < |out| && i < |ws| && ws[i].claim == NoClaim && OutTags(g, tags, base, out, ws)
    requires ClaimFor(w.claim, Target(g), c, |out[c]|, t)
    ensures OutTags(g, tags, base, Push(out, c, t), ws[i := w])
  {
    hide Stands;
    var out', ws' := Push(out, c, t), ws[i := w];
    forall b, s | 0 <= b < |out'| && 0 <= s < |Live(out'[b])|
      ensures || Stands(base, g, tags(Place(Target(g), b, s), TagUnit(g)), Live(out'[b])[s])
              || Claimed(ws', Place(Target(g), b, s))
    {
      if b == c && s == |out[c]| {
        assert ws'[i].claim.place == Place(Target(g), b, s);
      } else {
        assert Live(out'[b])[s] == Live(out[b])[s];
        if Claimed(ws, Place(Target(g), b, s)) {
          ClaimsStay(ws, i, w, Place(Target(g), b, s));
        }
      }
    }
  }

  /** A step by which a tree arrives in bucket c, its tag in the hands of the worker. */
  ghost predicate Arrives(st: State, st': State, i: nat, c: nat, t: Tree)
  {
    && i < |st.workers| && i < |st'.workers|
    && var w, claim := st.workers[i], st'.workers[i].claim;
    && st'.out == Arrive(st.out, c, t)
    && ClaimFor(claim, Target(w.round), c, st.counts(Counter(Target(w.round), c)), t)
    && (claim.SlotClaim? ==>
          if w.work.Hashing? then claim.tag.LeafTag? && t == Leaf(claim.tag.idx)
          else w.work.Matched? && claim.tag == PairTag(PairOf(w)) && t == Node(w.work.t0, w.work.t1))
  }

  /** The pair that a worker is about to handle. */
  function PairOf(w: Worker): Pair
  {
    if w.work.Matched? && w.work.partners != [] && w.work.rests != []
    then Pair(w.next, w.work.partners[0], |w.work.rests| - 1)
    else Pair(0, 0, 0)
  }

  /** What a step of a worker that writes no slot leaves as it is. */
  ghost predicate Quiet(st: State, st': State, i: nat)
  {
    && Ready(st, i) && |st'.workers| == |st.workers|
    && st'.workers == st.workers[i := st'.workers[i]]
    && st'.tags == st.tags && st'.layers == st.layers && st'.round == st.round
  }

  lemma LocalQuiet(H: IndexHash, st: State, st': State, i: nat)
    requires StartBlock(st, st', i) || LoadCount(st, st', i) || ClearCount(st, st', i) || EndUnit(st, st', i)
             || ReachBarrier(st, st', i) || LeaveBarrier(st, st', i)
    ensures Quiet(st, st', i) && st'.out == st.out && !st'.workers[i].claim.SlotClaim?
  {
    hide Units;
    hide UnitDone;
  }

  lemma ScanQuiet(H: IndexHash, st: State, st': State, i: nat)
    requires (exists t :: AddSlot(H, st, st', i, t)) || exists t0, t1 :: ReadPair(st, st', i, t0, t1)
    ensures Quiet(st, st', i) && st'.out == st.out && !st'.workers[i].claim.SlotClaim?
  {
    hide RestOf;
    hide TreeXor;
    hide Partners;
    hide CanRead;
  }

  lemma HashQuiet(H: IndexHash, st: State, st': State, i: nat)
    requires HashLeaf(H, st, st', i)
    ensures Quiet(st, st', i) && st.workers[i].work.Hashing?
    ensures exists c: nat, t :: c < NBUCKETS && Arrives(st, st', i, c, t)
  {
    hide BucketOf;
    hide Arrive;
    hide SetCount;
    var w := st.workers[i];
    var idx := 2 * w.next + w.work.j;
    assert Arrives(st, st', i, BucketOf(H(idx), 0), Leaf(idx));
  }

  lemma HandleQuiet(H: IndexHash, st: State, st': State, i: nat)
    requires HandlePair(H, st, st', i)
    ensures Quiet(st, st', i) && st.workers[i].work.Matched?
    ensures || (st'.out == st.out && !st'.workers[i].claim.SlotClaim?)
            || (st.workers[i].round < WK && exists c: nat, t :: c < NBUCKETS && Arrives(st, st', i, c, t))
  {
    hide BucketOf;
    hide Arrive;
    hide SetCount;
    hide Rejected;
    hide Accepted;
    hide Canon;
    hide Leaves;
    hide TreeXor;
    var w := st.workers[i];
    var t := Node(w.work.t0, w.work.t1);
    if w.round < WK && !Rejected(H, t) {
      assert Arrives(st, st', i, BucketOf(TreeXor(H, t), w.round), t);
    }
  }

  lemma WriterRound(H: IndexHash, g: nat, n: nat, base: Layer, i: nat, w: Worker)
    requires 0 < n && WorkerOK(H, g, n, base, i, w)
    ensures w.claim != NoClaim || w.work.Hashing? || w.work.Matched? ==> w.round == g
    ensures w.work.Hashing? ==> g == 0
  {
    hide ScanOK;
    hide Live;
  }

  lemma QuietKeeps(H: IndexHash, st: State, st': State, i: nat)
    requires Inv(H, st) && TagInv(st) && Quiet(st, st', i)
    requires || (st'.out == st.out && !st'.workers[i].claim.SlotClaim?)
             || (st.workers[i].round == st.round < WK && exists c: nat, t :: c < NBUCKETS && Arrives(st, st', i, c, t))
    ensures TagInv(st')
  {
    hide Inv;
    hide HistoryTags;
    hide OutTags;
    hide ClaimTags;
    hide Base;
    var base, ws := Base(st.round, st.layers), st.workers;
    if st'.out == st.out && !st'.workers[i].claim.SlotClaim? {
      TagsStayOut(st.round, st.tags, base, st.out, ws, i, st'.workers[i]);
      NewClaimTag(st.round, base, ws, i, st'.workers[i]);
    } else {
      var c: nat, t :| c < NBUCKETS && Arrives(st, st', i, c, t);
      InvShape(H, st);
      ReserveTags(st.round, st.tags, base, st.out, ws, i, st'.workers[i], c, t);
      if st'.workers[i].claim.SlotClaim? {
        ArrivalTag(H, st, st', i, c, t);
      }
      NewClaimTag(st.round, base, ws, i, st'.workers[i]);
    }
  }

  lemma NewClaimTag(g: nat, base: Layer, ws: seq<Worker>, i: nat, w: Worker)
    requires i < |ws| && ClaimTags(g, base, ws)
    requires w.claim.SlotClaim? ==> Stands(base, g, w.claim.tag, w.claim.t)
    ensures ClaimTags(g, base, ws[i := w])
  {
    hide Stands;
  }

  lemma ArrivalTag(H: IndexHash, st: State, st': State, i: nat, c: nat, t: Tree)
    requires Inv(H, st) && Arrives(st, st', i, c, t) && st'.workers[i].claim.SlotClaim?
    ensures Stands(Base(st.round, st.layers), st.round, st'.workers[i].claim.tag, st'.workers[i].claim.t)
  {
    hide Inv;
    hide Base;
    hide WorkerOK;
    hide Live;
    hide PairTree;
    hide InRange;
    var g, n, base, w := st.round, |st.workers|, Base(st.round, st.layers), st.workers[i];
    InvWorker(H, st, i);
    WriterRound(H, g, n, base, i, w);
    if w.work.Matched? {
      MatchedTag(H, g, n, base, i, w);
    }
  }

  /** The pair in hand is the tag of the tree in hand. */
  lemma MatchedTag(H: IndexHash, g: nat, n: nat, base: Layer, i: nat, w: Worker)
    requires 0 < n && WorkerOK(H, g, n, base, i, w) && w.work.Matched?
    ensures w.work.partners != [] && w.work.rests != [] && w.round == g && 1 <= g <= WK
    ensures PairOf(w) == Pair(w.next, w.work.partners[0], |w.work.rests| - 1)
    ensures Stands(base, g, PairTag(PairOf(w)), Node(w.work.t0, w.work.t1))
  {
    hide WorkerOK;
    hide Live;
    hide PairTree;
    hide InRange;
    ScanBounds(H, g, n, base, i, w);
    MatchedPartner(H, g, n, base, i, w);
    assert w.work.partners[0] + 1 < |w.work.rests|;
    var p := MatchedPair(H, g, n, base, i, w);
  }

  // ---------- writes ----------

  /** A write of round g reaches no tag of an earlier round. */
  lemma TagAbove(g: nat, k: nat)
    requires k < g < WK && Target(k) == Target(g)
    ensures TagUnit(g) < TagUnit(k)
  {
    Slots.TagUnitsFall(g, k);
  }

  lemma HistoryKept(g: nat, tags: (Place, nat) -> Mark, layers: seq<Layer>, q: Place, v: Mark)
    requires |layers| == g < WK && q.h == Target(g) && HistoryTags(tags, layers)
    ensures HistoryTags(SetTag(tags, q, TagUnit(g), v), layers)
  {
    hide Live;
    hide TagUnit;
    hide Stands;
    hide Base;
    var tags' := SetTag(tags, q, TagUnit(g), v);
    forall k | 0 <= k < |layers|
      ensures LayerTags(tags', Base(k, layers), k, layers[k])
    {
      assert LayerTags(tags, Base(k, layers), k, layers[k]);
      if Target(k) == Target(g) {
        TagAbove(g, k);
      }
    }
  }

  lemma BeginTags(H: IndexHash, st: State, st': State, i: nat)
    requires Inv(H, st) && TagInv(st) && BeginWrite(st, st', i)
    ensures TagInv(st')
  {
    hide Inv;
    hide HistoryTags;
    hide Live;
    hide WorkerOK;
    hide Base;
    hide TagUnit;
    hide Stands;
    var g, ws := st.round, st.workers;
    InvWorker(H, st, i);
    WriterRound(H, g, |ws|, Base(g, st.layers), i, ws[i]);
    InvShape(H, st);
    assert ClaimOK(g, st.out, st.found, ws[i].claim);
    match ws[i].claim
    case SolClaim(_, _) =>
    case SlotClaim(q, t, tag) =>
      assert Claimed(ws, q);
      HistoryKept(g, st.tags, st.layers, q, Junk);
  }

  lemma WrittenTag(g: nat, tags: (Place, nat) -> Mark, base: Layer, out: Layer, found: seq<seq<nat>>,
                   ws: seq<Worker>, i: nat)
    requires g < WK && i < |ws| && ws[i].claim.SlotClaim? && Stands(base, g, ws[i].claim.tag, ws[i].claim.t)
    requires ClaimOK(g, out, found, ws[i].claim) && OutTags(g, tags, base, out, ws)
    ensures OutTags(g, SetTag(tags, ws[i].claim.place, TagUnit(g), ws[i].claim.tag), base, out, Finished(ws, i))
  {
    hide TagUnit;
    hide Stands;
    var q, tag := ws[i].claim.place, ws[i].claim.tag;
    var tags' := SetTag(tags, q, TagUnit(g), tag);
    forall c, s | 0 <= c < |out| && 0 <= s < |Live(out[c])|
      ensures || Stands(base, g, tags'(Place(Target(g), c, s), TagUnit(g)), Live(out[c])[s])
              || Claimed(Finished(ws, i), Place(Target(g), c, s))
    {
      var here := Place(Target(g), c, s);
      if here != q && Claimed(ws, here) {
        var j :| 0 <= j < |ws| && ws[j].claim.SlotClaim? && ws[j].claim.place == here;
        assert Finished(ws, i)[j] == ws[j];
      }
    }
  }

  lemma EndTags(H: IndexHash, st: State, st': State, i: nat)
    requires Inv(H, st) && TagInv(st) && EndWrite(st, st', i)
    ensures TagInv(st')
  {
    hide Inv;
    hide HistoryTags;
    hide OutTags;
    hide Live;
    hide WorkerOK;
    hide Base;
    hide TagUnit;
    hide Stands;
    var g, ws, base := st.round, st.workers, Base(st.round, st.layers);
    InvWorker(H, st, i);
    WriterRound(H, g, |ws|, base, i, ws[i]);
    InvShape(H, st);
    assert ClaimOK(g, st.out, st.found, ws[i].claim);
    assert ClaimTags(g, base, st'.workers);
    match ws[i].claim
    case SolClaim(_, _) => LastRoundOut(g, st.tags, base, st.out, ws, st'.workers);
    case SlotClaim(q, t, tag) =>
      HistoryKept(g, st.tags, st.layers, q, tag);
      WrittenTag(g, st.tags, base, st.out, st.found, ws, i);
  }

  lemma LastRoundOut(g: nat, tags: (Place, nat) -> Mark, base: Layer, out: Layer, ws: seq<Worker>, ws': seq<Worker>)
    requires g >= WK
    ensures OutTags(g, tags, base, out, ws')
  {
  }

  // ---------- the barrier ----------

  lemma OpenTags(H: IndexHash, st: State, st': State)
    requires Inv(H, st) && TagInv(st) && OpenBarrier(st, st')
    ensures TagInv(st')
  {
    hide Inv;
    hide LayerTags;
    hide TagUnit;
    hide Stands;
    hide Base;
    var g, ws := st.round, st.workers;
    InvShape(H, st);
    forall i | 0 <= i < |ws|
      ensures ws[i].claim == NoClaim
    {
      BarrierWorker(H, st, i);
    }
    if g < WK {
      assert forall q :: !Claimed(ws, q);
      OutIsTagged(g, st.tags, Base(g, st.layers), st.out, ws);
      NothingOut(g + 1, st.tags, Base(g + 1, st'.layers), ws);
      forall k | 0 <= k < |st'.layers|
        ensures LayerTags(st'.tags, Base(k, st'.layers), k, st'.layers[k])
      {
        SameBase(k, st.layers, st.out);
        if k < g {
          assert LayerTags(st.tags, Base(k, st.layers), k, st.layers[k]);
        }
      }
    }
  }

  lemma SameBase(k: nat, layers: seq<Layer>, out: Layer)
    requires k <= |layers|
    ensures Base(k, layers + [out]) == Base(k, layers)
  {
  }

  lemma BarrierWorker(H: IndexHash, st: State, i: nat)
    requires Inv(H, st) && i < |st.workers| && st.workers[i].work == AtBarrier
    ensures st.workers[i].claim == NoClaim
  {
    hide Inv;
    hide Base;
    InvWorker(H, st, i);
  }

  lemma OutIsTagged(g: nat, tags: (Place, nat) -> Mark, base: Layer, out: Layer, ws: seq<Worker>)
    requires g < WK && OutTags(g, tags, base, out, ws) && forall q :: !Claimed(ws, q)
    ensures LayerTags(tags, base, g, out)
  {
    hide Live;
    hide Claimed;
    hide Stands;
  }

  lemma NothingOut(g: nat, tags: (Place, nat) -> Mark, base: Layer, ws: seq<Worker>)
    ensures OutTags(g, tags, base, EmptyLayer(), ws)
  {
  }

  // ---------- every execution ----------

  lemma WorkerTagsKeep(H: IndexHash, st: State, st': State, i: nat)
    requires Inv(H, st) && TagInv(st) && WorkerStep(H, st, st', i)
    ensures TagInv(st')
  {
    hide *;
    StepCases(H, st, st', i);
    if BeginWrite(st, st', i) {
      BeginTags(H, st, st', i);
    } else if EndWrite(st, st', i) {
      EndTags(H, st, st', i);
    } else if HashLeaf(H, st, st', i) {
      HashQuiet(H, st, st', i);
      QuietRound(H, st, st', i);
      QuietKeeps(H, st, st', i);
    } else if HandlePair(H, st, st', i) {
      HandleQuiet(H, st, st', i);
      QuietRound(H, st, st', i);
      QuietKeeps(H, st, st', i);
    } else if (exists t :: AddSlot(H, st, st', i, t)) || exists t0, t1 :: ReadPair(st, st', i, t0, t1) {
      ScanQuiet(H, st, st', i);
      QuietKeeps(H, st, st', i);
    } else {
      LocalQuiet(H, st, st', i);
      QuietKeeps(H, st, st', i);
    }
  }

  lemma QuietRound(H: IndexHash, st: State, st': State, i: nat)
    requires Inv(H, st) && Quiet(st, st', i) && (st.workers[i].work.Hashing? || st.workers[i].work.Matched?)
    ensures st.workers[i].round == st.round && (st.workers[i].work.Hashing? ==> st.round < WK)
    ensures i < |st.workers|
  {
    hide Inv;
    hide WorkerOK;
    hide Base;
    InvWorker(H, st, i);
    WriterRound(H, st.round, |st.workers|, Base(st.round, st.layers), i, st.workers[i]);
  }

  lemma StepCases(H: IndexHash, st: State, st': State, i: nat)
    requires WorkerStep(H, st, st', i)
    ensures i < |st.workers|
    ensures || BeginWrite(st, st', i) || EndWrite(st, st', i) || HashLeaf(H, st, st', i) || HandlePair(H, st, st', i)
            || (exists t :: AddSlot(H, st, st', i, t)) || (exists t0, t1 :: ReadPair(st, st', i, t0, t1))
            || StartBlock(st, st', i) || LoadCount(st, st', i) || ClearCount(st, st', i) || EndUnit(st, st', i)
            || ReachBarrier(st, st', i) || LeaveBarrier(st, st', i)
  {
    hide HashLeaf, HandlePair, StartBlock, LoadCount, ClearCount, EndUnit, ReachBarrier, LeaveBarrier;
    hide AddSlot, ReadPair, BeginWrite, EndWrite;
    StepWorker(H, st, st', i);
  }

  lemma StepWorker(H: IndexHash, st: State, st': State, i: nat)
    requires WorkerStep(H, st, st', i)
    ensures i < |st.workers|
  {
    hide SetWork, SetClaim, Reserve, Record, RestOf, TreeXor, Partners, CanRead, BucketOf, UnitDone, Units;
    hide Rejected, Accepted, Canon, Leaves;
  }

  lemma TagsKeep(H: IndexHash, st: State, st': State)
    requires Inv(H, st) && TagInv(st) && Next(H, st, st')
    ensures TagInv(st')
  {
    hide Inv, TagInv, OpenBarrier, WorkerStep;
    if OpenBarrier(st, st') {
      OpenTags(H, st, st');
    } else {
      var i: nat :| WorkerStep(H, st, st', i);
      WorkerTagsKeep(H, st, st', i);
    }
  }

  lemma {:induction false} ExecutionTags(H: IndexHash, states: seq<State>, k: nat)
    requires Execution(H, states) && k < |states|
    ensures TagInv(states[k])
  {
    hide Inv, TagInv, Initial, Next;
    if k == 0 {
      InitialTags(states[0]);
    } else {
      ExecutionTags(H, states, k - 1);
      ExecutionInv(H, states, k - 1);
      ExecutionStep(H, states, k);
      TagsKeep(H, states[k - 1], states[k]);
    }
  }

  // ---------- following the tags ----------

  /** listindices: the tree whose tag is v, read off the tag units of the heights below r. */
  function Follow(tags: (Place, nat) -> Mark, r: nat, v: Mark): Tree
    decreases r
  {
    if r == 0 then
      Leaf(if v.LeafTag? then v.idx else 0)
    else if v.PairTag? then
      Node(Follow(tags, r - 1, tags(Place(Target(r - 1), v.p.b, v.p.s0), TagUnit(r - 1))),
           Follow(tags, r - 1, tags(Place(Target(r - 1), v.p.b, v.p.s1), TagUnit(r - 1))))
    else
      Leaf(0)
  }

  /** Following a tag of height r over finished layers gives the tree that it stands for. */
  lemma {:induction false} FollowGives(tags: (Place, nat) -> Mark, layers: seq<Layer>, r: nat, v: Mark, t: Tree)
    requires r <= |layers| && r <= WK && HistoryTags(tags, layers) && Stands(Base(r, layers), r, v, t)
    ensures Follow(tags, r, v) == t
    decreases r
  {
    hide *;
    if r == 0 {
      FollowLeaf(tags, Base(r, layers), v, t);
    } else {
      HalfTags(tags, layers, r, v, t);
      FollowDef(tags, r, v);
      HalvesMake(t);
      FollowGives(tags, layers, r - 1, tags(Place(Target(r - 1), v.p.b, v.p.s0), TagUnit(r - 1)), t.left);
      FollowGives(tags, layers, r - 1, tags(Place(Target(r - 1), v.p.b, v.p.s1), TagUnit(r - 1)), t.right);
    }
  }

  lemma FollowLeaf(tags: (Place, nat) -> Mark, base: Layer, v: Mark, t: Tree)
    requires Stands(base, 0, v, t)
    ensures Follow(tags, 0, v) == t
  {
  }

  lemma FollowDef(tags: (Place, nat) -> Mark, r: nat, v: Mark)
    requires r > 0 && v.PairTag?
    ensures Follow(tags, r, v) ==
            Node(Follow(tags, r - 1, tags(Place(Target(r - 1), v.p.b, v.p.s0), TagUnit(r - 1))),
                 Follow(tags, r - 1, tags(Place(Target(r - 1), v.p.b, v.p.s1), TagUnit(r - 1))))
  {
    hide TagUnit;
  }

  lemma HalvesMake(t: Tree)
    requires t.Node?
    ensures t == Node(t.left, t.right)
  {
  }

  /** The two slots of a tag hold the tags of the halves. */
  lemma HalfTags(tags: (Place, nat) -> Mark, layers: seq<Layer>, r: nat, v: Mark, t: Tree)
    requires 1 <= r <= |layers| && r <= WK && HistoryTags(tags, layers) && Stands(Base(r, layers), r, v, t)
    ensures v.PairTag? && t.Node?
    ensures Stands(Base(r - 1, layers), r - 1, tags(Place(Target(r - 1), v.p.b, v.p.s0), TagUnit(r - 1)), t.left)
    ensures Stands(Base(r - 1, layers), r - 1, tags(Place(Target(r - 1), v.p.b, v.p.s1), TagUnit(r - 1)), t.right)
  {
    hide Live;
    hide TagUnit;
    assert LayerTags(tags, Base(r - 1, layers), r - 1, layers[r - 1]);
  }

  /**
    At every moment of every execution, every tree that a finished round stored has its tag
    at the tag unit of that round in its slot, also while that slot is torn by a later round,
    and following the tags from there gives the tree.
  */
  lemma TagsOutliveRounds(H: IndexHash, states: seq<State>, k: nat, r: nat, c: nat, s: nat)
    requires Execution(H, states) && k < |states| && r < |states[k].layers| && r <= WK
    requires c < |states[k].layers[r]| && s < |states[k].layers[r][c]| && s < NSLOTS
    ensures var tag := states[k].tags(Place(Target(r), c, s), Slots.TagUnit(r));
            && Stands(Base(r, states[k].layers), r, tag, states[k].layers[r][c][s])
            && Follow(states[k].tags, r, tag) == states[k].layers[r][c][s]
  {
    hide Execution;
    hide Stands;
    hide Base;
    ExecutionTags(H, states, k);
    assert LayerTags(states[k].tags, Base(r, states[k].layers), r, states[k].layers[r]);
    assert Live(states[k].layers[r][c])[s] == states[k].layers[r][c][s];
    FollowGives(states[k].tags, states[k].layers, r, states[k].tags(Place(Target(r), c, s), TagUnit(r)),
                states[k].layers[r][c][s]);
  }

  /** Following the tags down from the two slots of the pair that a worker handles gives the tree that it read there. */
  lemma TagsGiveTree(H: IndexHash, states: seq<State>, k: nat, i: nat)
    requires Execution(H, states) && k < |states| && i < |states[k].workers| && states[k].workers[i].work.Matched?
    ensures var w := states[k].workers[i];
            && w.work.partners != [] && w.work.rests != []
            && PairOf(w) == Pair(w.next, w.work.partners[0], |w.work.rests| - 1)
            && Follow(states[k].tags, w.round, PairTag(PairOf(w))) == Node(w.work.t0, w.work.t1)
  {
    hide *;
    ExecutionInv(H, states, k);
    ExecutionTags(H, states, k);
    InvTree(H, states[k], i);
  }

  lemma InvTree(H: IndexHash, st: State, i: nat)
    requires Inv(H, st) && TagInv(st) && i < |st.workers| && st.workers[i].work.Matched?
    ensures var w := st.workers[i];
            && w.work.partners != [] && w.work.rests != []
            && PairOf(w) == Pair(w.next, w.work.partners[0], |w.work.rests| - 1)
            && Follow(st.tags, w.round, PairTag(PairOf(w))) == Node(w.work.t0, w.work.t1)
  {
    hide Inv;
    hide WorkerOK;
    hide Base;
    hide HistoryTags;
    hide OutTags;
    hide ClaimTags;
    hide Stands;
    hide Follow;
    var w := st.workers[i];
    InvWorker(H, st, i);
    InvShape(H, st);
    MatchedTag(H, st.round, |st.workers|, Base(st.round, st.layers), i, w);
    FollowGives(st.tags, st.layers, st.round, PairTag(PairOf(w)), Node(w.work.t0, w.work.t1));
  }

  // ---------- the proofs found ----------

  /** Step j handles a pair of the last round, and proof is what the tags below that pair list. */
  ghost predicate Listed(H: IndexHash, states: seq<State>, j: nat, i: nat, proof: seq<nat>)
  {
    && 1 <= j < |states| && i < |states[j - 1].workers| && states[j - 1].workers[i].round == WK
    && HandlePair(H, states[j - 1], states[j], i)
    && var t := Follow(states[j - 1].tags, WK, PairTag(PairOf(states[j - 1].workers[i])));
    && Accepted(H, t) && proof == Leaves(Canon(t))
  }

  /** Only such a step adds a proof. */
  lemma NewProof(H: IndexHash, states: seq<State>, j: nat)
    requires Execution(H, states) && 1 <= j < |states|
    ensures || states[j].found == states[j - 1].found
            || exists i: nat, proof :: states[j].found == states[j - 1].found + [proof] && Listed(H, states, j, i,
                                                                                                  proof)
  {
    hide *;
    ExecutionStep(H, states, j);
    var st, st' := states[j - 1], states[j];
    FoundGrows(H, st, st');
    if st'.found != st.found {
      var i: nat :| i < |st.workers| && HandlePair(H, st, st', i) && RecordsHere(H, st, st', i);
      var proof := RecordParts(H, st, st', i);
      TagsGiveTree(H, states, j - 1, i);
      ListedDef(H, states, j, i, proof);
    }
  }

  lemma ListedDef(H: IndexHash, states: seq<State>, j: nat, i: nat, proof: seq<nat>)
    requires 1 <= j < |states| && i < |states[j - 1].workers| && states[j - 1].workers[i].round == WK
    requires HandlePair(H, states[j - 1], states[j], i)
    requires var t := Follow(states[j - 1].tags, WK, PairTag(PairOf(states[j - 1].workers[i])));
             Accepted(H, t) && proof == Leaves(Canon(t))
    ensures Listed(H, states, j, i, proof)
  {
    hide HandlePair, Follow, Accepted, Leaves, Canon, PairOf;
  }

  ghost predicate RecordsHere(H: IndexHash, st: State, st': State, i: nat)
  {
    && i < |st.workers| && st.workers[i].round == WK && st.workers[i].work.Matched?
    && var t := Node(st.workers[i].work.t0, st.workers[i].work.t1);
    && Accepted(H, t) && st'.found == st.found + [Leaves(Canon(t))]
  }

  lemma RecordParts(H: IndexHash, st: State, st': State, i: nat) returns (proof: seq<nat>)
    requires RecordsHere(H, st, st', i)
    ensures i < |st.workers| && st.workers[i].round == WK && st.workers[i].work.Matched?
    ensures var t := Node(st.workers[i].work.t0, st.workers[i].work.t1);
            Accepted(H, t) && proof == Leaves(Canon(t)) && st'.found == st.found + [proof]
  {
    hide Accepted, Leaves, Canon;
    proof := Leaves(Canon(Node(st.workers[i].work.t0, st.workers[i].work.t1)));
  }

  lemma FoundGrows(H: IndexHash, st: State, st': State)
    requires Next(H, st, st')
    ensures st'.found == st.found ||
            exists i: nat :: i < |st.workers| && HandlePair(H, st, st', i) && RecordsHere(H, st, st', i)
  {
    hide WorkerStep, RecordsHere, HandlePair;
    if !OpenBarrier(st, st') {
      hide OpenBarrier;
      var i: nat :| WorkerStep(H, st, st', i);
      StepWorker(H, st, st', i);
      if HandlePair(H, st, st', i) {
        HandleFound(H, st, st', i);
      } else {
        OthersFindNothing(H, st, st', i);
      }
    }
  }

  lemma HandleFound(H: IndexHash, st: State, st': State, i: nat)
    requires HandlePair(H, st, st', i)
    ensures st'.found == st.found || RecordsHere(H, st, st', i)
  {
    hide BucketOf, Arrive, SetCount, Rejected, Accepted, Canon, Leaves, TreeXor;
  }

  lemma OthersFindNothing(H: IndexHash, st: State, st': State, i: nat)
    requires WorkerStep(H, st, st', i) && !HandlePair(H, st, st', i)
    ensures st'.found == st.found
  {
    hide HandlePair, RestOf, TreeXor, Partners, CanRead, BucketOf, UnitDone, Units, Arrive, SetCount, SetCell, SetTag;
    hide SetSol, TagUnit;
  }

  /**
    Every proof found in any execution is what following the tags lists, at the step that
    handled its pair in the last round.
  */
  lemma {:induction false} ProofsAreListed(H: IndexHash, states: seq<State>, k: nat, s: nat)
    requires Execution(H, states) && k < |states| && s < |states[k].found|
    ensures exists j: nat, i: nat :: j <= k && Listed(H, states, j, i, states[k].found[s])
  {
    hide Next, Listed, Inv, Execution;
    if k == 0 {
      NothingFound(H, states);
    } else {
      NewProof(H, states, k);
      if s < |states[k - 1].found| {
        ProofsAreListed(H, states, k - 1, s);
        var j: nat, i: nat :| j <= k - 1 && Listed(H, states, j, i, states[k - 1].found[s]);
        assert states[k].found[s] == states[k - 1].found[s];
      } else {
        var i: nat, proof :| states[k].found == states[k - 1].found + [proof] && Listed(H, states, k, i, proof);
        assert states[k].found[s] == proof;
      }
    }
  }

  lemma NothingFound(H: IndexHash, states: seq<State>)
    requires Execution(H, states)
    ensures |states| > 0 && states[0].found == []
  {
  }
}
