/**
  The hand-off of jobs from the message handler to one mining thread. The two share the
  fields of the job, a mutex and three atomic flags; one step is one access to them, and
  the steps of handler and thread interleave in any order. Mining threads share nothing
  with each other, so one thread stands for all.
*/
module JobHandoff {

  /** The parts of a job that a submission carries. */
  datatype Fields = Fields(jobId: nat, time: nat, header: nat, target: nat)

  datatype Message = NewJob(job: Fields, clean: bool) | Pause

  datatype Owner = Free | ByHandler | ByMiner

  /** Where the handler is: the next assignment of the message it works on. */
  datatype Handler = NoMessage | Handling(msg: Message, next: nat)

  /** Where the mining thread is. */
  datatype Miner =
    | Waiting
    | Resetting
    | Locking
    | Copying(next: nat)
    | Starting
    | Solving
    | CheckingEnd
    | CheckingWork
    | CheckingPause
    | Stopped

  /**
    The last eight fields are history: the messages handled so far, how many of them the
    thread's copy has seen, what it submitted, how many solves it started since the last
    message was handled, in all and on a copy older than that message, and where the thread
    was and whether work was waiting when a message last raised the cancel flag.
  */
  datatype State = State(
    owner: Owner,
    handler: Handler,
    miner: Miner,
    shared: Fields,
    workReady: bool,
    cancelSolver: bool,
    pauseMining: bool,
    actual: Fields,
    handled: seq<Message>,
    seen: nat,
    submitted: seq<Fields>,
    starts: nat,
    staleStarts: nat,
    raisedAt: Miner,
    readyAt: bool)

  // ---------- the handler ----------

  ghost predicate Receive(st: State, st': State)
  {
    && st.handler == NoMessage && st.owner == Free
    && exists msg :: st' == st.(owner := ByHandler, handler := Handling(msg, 0))
  }

  function RaiseCancel(st: State): State
  {
    st.(cancelSolver := true, raisedAt := st.miner, readyAt := st.workReady)
  }

  /** The assignments of a job, in program order. */
  function AssignJob(st: State, job: Fields, clean: bool, k: nat): (r: State)
    ensures r.miner == st.miner && r.owner == st.owner && r.actual == st.actual && r.handler == st.handler
    ensures r.handled == st.handled && r.seen == st.seen && r.submitted == st.submitted
    ensures r.starts == st.starts && r.staleStarts == st.staleStarts
    ensures r.workReady <==> st.workReady || k == 5
    ensures r.pauseMining <==> st.pauseMining && k != 4
    ensures r.cancelSolver <==> st.cancelSolver || (clean && k > 5)
  {
    match k
    case 0 => st.(shared := st.shared.(jobId := job.jobId))
    case 1 => st.(shared := st.shared.(time := job.time))
    case 2 => st.(shared := st.shared.(header := job.header))
    case 3 => st.(shared := st.shared.(target := job.target))
    case 4 => st.(pauseMining := false)
    case 5 => st.(workReady := true)
    case _ => if clean then RaiseCancel(st) else st
  }

  function AssignPause(st: State, k: nat): (r: State)
    ensures r.miner == st.miner && r.owner == st.owner && r.actual == st.actual && r.handler == st.handler
    ensures r.handled == st.handled && r.seen == st.seen && r.submitted == st.submitted && r.shared == st.shared
    ensures r.starts == st.starts && r.staleStarts == st.staleStarts
    ensures r.workReady <==> st.workReady && k != 0
    ensures r.pauseMining <==> st.pauseMining || k > 1
    ensures r.cancelSolver <==> st.cancelSolver || k == 1
  {
    match k
    case 0 => st.(workReady := false)
    case 1 => RaiseCancel(st)
    case _ => st.(pauseMining := true)
  }

  function Assignments(msg: Message): nat
  {
    if msg.NewJob? then 7 else 3
  }

  predicate Handle(st: State, st': State)
  {
    && st.handler.Handling? && st.handler.next < Assignments(st.handler.msg)
    && var k := st.handler.next;
    && st' == (match st.handler.msg
               case NewJob(job, clean) => AssignJob(st, job, clean, k)
               case Pause => AssignPause(st, k)).(handler := Handling(st.handler.msg, k + 1))
  }

  predicate FinishMessage(st: State, st': State)
  {
    && st.handler.Handling? && st.handler.next == Assignments(st.handler.msg)
    && st' == st.(owner := Free, handler := NoMessage, handled := st.handled + [st.handler.msg],
                  starts := 0, staleStarts := 0)
  }

  // ---------- the mining thread ----------

  /** compare_exchange_weak may fail even when the flag is set; then the thread keeps waiting. */
  predicate TakeWork(st: State, st': State)
  {
    st.miner == Waiting && st.workReady && st' == st.(workReady := false, miner := Resetting)
  }

  predicate ResetCancel(st: State, st': State)
  {
    st.miner == Resetting && st' == st.(cancelSolver := false, miner := Locking)
  }

  predicate LockFields(st: State, st': State)
  {
    st.miner == Locking && st.owner == Free && st' == st.(owner := ByMiner, miner := Copying(0))
  }

  function CopyField(st: State, k: nat): State
  {
    match k
    case 0 => st.(actual := st.actual.(header := st.shared.header))
    case 1 => st.(actual := st.actual.(jobId := st.shared.jobId))
    case 2 => st.(actual := st.actual.(time := st.shared.time))
    case _ => st.(actual := st.actual.(target := st.shared.target))
  }

  predicate Copy(st: State, st': State)
  {
    && st.miner.Copying? && st.miner.next < 4
    && st' == CopyField(st, st.miner.next).(miner := Copying(st.miner.next + 1))
  }

  predicate UnlockFields(st: State, st': State)
  {
    && st.miner == Copying(4)
    && st' == st.(owner := Free, miner := Starting, seen := |st.handled|)
  }

  predicate StartSolve(st: State, st': State)
  {
    && st.miner == Starting
    && st' == st.(miner := Solving, starts := st.starts + 1,
                  staleStarts := if st.seen < |st.handled| then st.staleStarts + 1 else st.staleStarts)
  }

  predicate Submit(st: State, st': State)
  {
    st.miner == Solving && st' == st.(submitted := st.submitted + [st.actual])
  }

  predicate EndSolve(st: State, st': State)
  {
    st.miner == Solving && st' == st.(miner := CheckingEnd)
  }

  /** The nonce has reached the end of its range, or not. */
  predicate CheckEnd(st: State, st': State)
  {
    st.miner == CheckingEnd && (st' == st.(miner := Waiting) || st' == st.(miner := CheckingWork))
  }

  predicate CheckWork(st: State, st': State)
  {
    st.miner == CheckingWork && st' == st.(miner := if st.workReady then Waiting else CheckingPause)
  }

  predicate CheckPause(st: State, st': State)
  {
    st.miner == CheckingPause && st' == st.(miner := if st.pauseMining then Waiting else Starting)
  }

  /** The thread is told to end; it looks before it waits and before it solves. */
  predicate Stop(st: State, st': State)
  {
    (st.miner == Waiting || st.miner == Starting) && st' == st.(miner := Stopped)
  }

  ghost predicate Next(st: State, st': State)
  {
    || Receive(st, st') || Handle(st, st') || FinishMessage(st, st')
    || TakeWork(st, st') || ResetCancel(st, st') || LockFields(st, st') || Copy(st, st') || UnlockFields(st, st')
    || StartSolve(st, st') || Submit(st, st') || EndSolve(st, st')
    || CheckEnd(st, st') || CheckWork(st, st') || CheckPause(st, st') || Stop(st, st')
  }

  predicate Initial(st: State)
  {
    && st.owner == Free && st.handler == NoMessage && st.miner == Waiting
    && !st.workReady && !st.cancelSolver && !st.pauseMining
    && st.handled == [] && st.seen == 0 && st.submitted == [] && st.starts == 0 && st.staleStarts == 0
  }

  ghost predicate StepAt(states: seq<State>, k: nat)
    requires 1 <= k < |states|
  {
    Next(states[k - 1], states[k])
  }

  ghost predicate Execution(states: seq<State>)
  {
    && |states| > 0 && Initial(states[0])
    && forall k :: 1 <= k < |states| ==> StepAt(states, k)
  }

  // ---------- what every execution keeps ----------

  /** Some message handled was a job. */
  predicate AnyJob(handled: seq<Message>)
  {
    handled != [] && (handled[|handled| - 1].NewJob? || AnyJob(handled[..|handled| - 1]))
  }

  /** The job of the last message that was one. */
  function LastJob(handled: seq<Message>): Fields
    requires AnyJob(handled)
  {
    var last := handled[|handled| - 1];
    if last.NewJob? then last.job else LastJob(handled[..|handled| - 1])
  }

  lemma {:induction false} LastJobHandled(handled: seq<Message>)
    requires AnyJob(handled)
    ensures exists k :: 0 <= k < |handled| && handled[k].NewJob? && handled[k].job == LastJob(handled)
  {
    var n := |handled| - 1;
    if handled[n].NewJob? {
    } else {
      LastJobHandled(handled[..n]);
      var k :| 0 <= k < n && handled[..n][k].NewJob? && handled[..n][k].job == LastJob(handled[..n]);
      assert handled[k] == handled[..n][k];
    }
  }

  /** The mutex is held by whoever is inside its critical section. */
  predicate LockOK(st: State)
  {
    (st.owner == ByHandler <==> st.handler.Handling?) && (st.owner == ByMiner <==> st.miner.Copying?)
  }

  /**
    Outside the handler the shared fields are those of the last job; inside, those assigned so
    far are the new ones.
  */
  predicate SharedOK(st: State)
  {
    match st.handler
    case NoMessage => AnyJob(st.handled) ==> st.shared == LastJob(st.handled)
    case Handling(Pause, k) => k <= 3 && (AnyJob(st.handled) ==> st.shared == LastJob(st.handled))
    case Handling(NewJob(job, clean), k) =>
      && k <= 7
      && (k > 0 ==> st.shared.jobId == job.jobId) && (k > 1 ==> st.shared.time == job.time)
      && (k > 2 ==> st.shared.header == job.header) && (k > 3 ==> st.shared.target == job.target)
  }

  /** A job will be there by the time the lock is free. */
  predicate JobComing(st: State)
  {
    AnyJob(st.handled) || (st.handler.Handling? && st.handler.msg.NewJob? && st.handler.next > 5)
  }

  predicate HasWork(miner: Miner)
  {
    miner.Starting? || miner.Solving? || miner.CheckingEnd? || miner.CheckingWork? || miner.CheckingPause?
  }

  /** The flag is raised only for a job, and the thread copies and holds whole jobs. */
  predicate CopyOK(st: State)
  {
    && st.seen <= |st.handled|
    && (st.workReady || st.miner.Resetting? || st.miner.Locking? ==> JobComing(st))
    && (st.miner.Copying? ==>
          && AnyJob(st.handled) && st.miner.next <= 4
          && (st.miner.next > 0 ==> st.actual.header == st.shared.header)
          && (st.miner.next > 1 ==> st.actual.jobId == st.shared.jobId)
          && (st.miner.next > 2 ==> st.actual.time == st.shared.time)
          && (st.miner.next > 3 ==> st.actual.target == st.shared.target))
    && (HasWork(st.miner) ==> AnyJob(st.handled[..st.seen]) && st.actual == LastJob(st.handled[..st.seen]))
  }

  /** fields are those of one handled job. */
  ghost predicate OfOneJob(handled: seq<Message>, fields: Fields)
  {
    exists k :: 0 <= k < |handled| && handled[k].NewJob? && handled[k].job == fields
  }

  ghost predicate SubmittedOK(handled: seq<Message>, submitted: seq<Fields>)
  {
    forall i :: 0 <= i < |submitted| ==> OfOneJob(handled, submitted[i])
  }

  /** What holds between two messages. */
  predicate BetweenOK(st: State)
  {
    st.handler == NoMessage && st.handled != [] ==>
      var last := st.handled[|st.handled| - 1];
      var stale := HasWork(st.miner) && st.seen < |st.handled|;
      && (last.NewJob? ==>
            && (stale ==> st.workReady)
            && st.staleStarts <= (if stale && (st.miner.Starting? || st.miner.CheckingPause?) then 0 else 1))
      && (last.Pause? ==>
            && !st.workReady && st.pauseMining && st.staleStarts <= st.starts <= 1
            && (st.miner.Resetting? || st.miner.Locking? || st.miner.Copying? || st.miner.Starting? ==> st.starts == 0))
      && (last.Pause? || last.clean ==> stale ==> st.cancelSolver)
  }

  /** What the flags say while a message is handled. */
  predicate HandlingOK(st: State)
  {
    match st.handler
    case NoMessage => true
    case Handling(Pause, k) =>
      (k > 0 ==> !st.workReady) && (k > 1 && HasWork(st.miner) ==> st.cancelSolver) && (k > 2 ==> st.pauseMining)
    case Handling(NewJob(job, clean), k) =>
      HasWork(st.miner) ==> (k > 5 ==> st.workReady) && (k > 6 && clean ==> st.cancelSolver)
  }

  /** A message that tells the running solve to give up. */
  predicate Cancels(msg: Message)
  {
    msg.Pause? || msg.clean
  }

  /** The last assignment to the cancel flag by the handler raised it, and no message has been received since. */
  predicate Raised(st: State)
  {
    match st.handler
    case NoMessage => st.handled != [] && Cancels(st.handled[|st.handled| - 1])
    case Handling(Pause, k) => k > 1
    case Handling(NewJob(_, clean), k) => clean && k > 6
  }

  /**
    The thread has reset the flag since: it was about to when the flag was raised, or it has
    taken the work that was waiting then.
  */
  predicate ResetSince(st: State)
  {
    || (st.raisedAt.Resetting? && !(st.miner.Resetting? && st.workReady == st.readyAt))
    || (st.readyAt && !st.workReady && !st.miner.Resetting?)
  }

  /** The thread is about to copy, or has copied, the fields that the last message left. */
  predicate Fresh(st: State)
  {
    || st.miner.Locking? || st.miner.Copying?
    || (HasWork(st.miner) && st.handler == NoMessage && st.seen == |st.handled|)
  }

  predicate RaisedOK(st: State)
  {
    Raised(st) ==>
      && (st.cancelSolver <==> !ResetSince(st))
      && (st.workReady ==> st.readyAt)
      && (st.miner.Resetting? && !st.raisedAt.Resetting? ==> st.readyAt && !st.workReady)
      && (Fresh(st) && st.cancelSolver ==> st.raisedAt.Locking?)
      && (LatestIsPause(st) ==> !st.readyAt)
  }

  /** The message being handled, or else the last one handled, is a pause. */
  predicate LatestIsPause(st: State)
  {
    match st.handler
    case NoMessage => st.handled != [] && st.handled[|st.handled| - 1].Pause?
    case Handling(msg, _) => msg.Pause?
  }

  ghost predicate Inv(st: State)
  {
    && LockOK(st) && SharedOK(st) && HandlingOK(st) && CopyOK(st) && SubmittedOK(st.handled, st.submitted)
    && BetweenOK(st) && RaisedOK(st)
  }

  lemma AnyJobMore(handled: seq<Message>, msg: Message)
    ensures (handled + [msg])[..|handled|] == handled
    ensures AnyJob(handled + [msg]) <==> msg.NewJob? || AnyJob(handled)
    ensures AnyJob(handled + [msg]) ==> LastJob(handled + [msg]) == if msg.NewJob? then msg.job else LastJob(handled)
  {
    assert (handled + [msg])[..|handled|] == handled;
  }

  lemma ReceiveKeeps(st: State, st': State)
    requires Inv(st) && Receive(st, st')
    ensures Inv(st')
  {
    hide AnyJob;
    hide LastJob;
    hide SubmittedOK;
  }

  lemma HandleJobKeeps(st: State, st': State)
    requires Inv(st) && Handle(st, st') && st.handler.msg.NewJob?
    ensures Inv(st')
  {
    hide *;
    InvParts(st);
    HandleJobShared(st, st');
    HandleJobFlags(st, st');
    HandleJobCopy(st, st');
    HandleJobRaised(st, st');
    InvOfParts(st');
  }

  lemma InvParts(st: State)
    requires Inv(st)
    ensures LockOK(st) && SharedOK(st) && HandlingOK(st) && CopyOK(st)
    ensures SubmittedOK(st.handled, st.submitted) && BetweenOK(st) && RaisedOK(st)
  {
    hide LockOK, SharedOK, HandlingOK, CopyOK, SubmittedOK, BetweenOK, RaisedOK;
  }

  lemma InvOfParts(st: State)
    requires LockOK(st) && SharedOK(st) && HandlingOK(st) && CopyOK(st)
    requires SubmittedOK(st.handled, st.submitted) && BetweenOK(st) && RaisedOK(st)
    ensures Inv(st)
  {
    hide LockOK, SharedOK, HandlingOK, CopyOK, SubmittedOK, BetweenOK, RaisedOK;
  }

  lemma HandleJobShared(st: State, st': State)
    requires LockOK(st) && SharedOK(st) && Handle(st, st') && st.handler.msg.NewJob?
    ensures LockOK(st') && SharedOK(st')
  {
    hide AnyJob;
    hide LastJob;
    HandleJobMoves(st, st');
  }

  lemma HandleJobFlags(st: State, st': State)
    requires LockOK(st) && HandlingOK(st) && SubmittedOK(st.handled, st.submitted)
    requires Handle(st, st') && st.handler.msg.NewJob?
    ensures HandlingOK(st') && SubmittedOK(st'.handled, st'.submitted) && BetweenOK(st')
  {
    hide AnyJob;
    hide LastJob;
    hide SubmittedOK;
  }

  /** Handling a job moves neither the thread nor what it holds, and raises the work flag with the sixth assignment. */
  lemma HandleJobMoves(st: State, st': State)
    requires Handle(st, st') && st.handler.msg.NewJob?
    ensures st'.miner == st.miner && st'.owner == st.owner && st'.actual == st.actual
    ensures st'.handled == st.handled && st'.seen == st.seen
    ensures st'.handler == Handling(st.handler.msg, st.handler.next + 1)
    ensures st'.workReady ==> st.workReady || st'.handler.next > 5
  {
    hide AssignJob;
  }

  lemma HandleJobCopy(st: State, st': State)
    requires LockOK(st) && CopyOK(st) && Handle(st, st') && st.handler.msg.NewJob?
    ensures CopyOK(st')
  {
    hide AnyJob;
    hide LastJob;
    HandleJobMoves(st, st');
    assert st.handler.Handling?;
    hide Handle;
  }

  lemma HandleJobRaised(st: State, st': State)
    requires LockOK(st) && RaisedOK(st) && Handle(st, st') && st.handler.msg.NewJob?
    ensures RaisedOK(st')
  {
  }

  lemma HandlePauseKeeps(st: State, st': State)
    requires Inv(st) && Handle(st, st') && st.handler.msg.Pause?
    ensures Inv(st')
  {
    hide AnyJob;
    hide LastJob;
    hide SubmittedOK;
  }

  lemma FinishKeeps(st: State, st': State)
    requires Inv(st) && FinishMessage(st, st')
    ensures Inv(st')
  {
    hide AnyJob;
    hide LastJob;
    hide SubmittedOK;
    AnyJobMore(st.handled, st.handler.msg);
    SubmittedMore(st.handled, st.handler.msg, st.submitted);
    assert st'.handled[..st'.seen] == st.handled[..st.seen];
  }

  lemma OfOneJobMore(handled: seq<Message>, msg: Message, fields: Fields)
    requires OfOneJob(handled, fields)
    ensures OfOneJob(handled + [msg], fields)
  {
    var k :| 0 <= k < |handled| && handled[k].NewJob? && handled[k].job == fields;
    assert (handled + [msg])[k] == handled[k];
  }

  lemma SubmittedMore(handled: seq<Message>, msg: Message, submitted: seq<Fields>)
    requires SubmittedOK(handled, submitted)
    ensures SubmittedOK(handled + [msg], submitted)
  {
    hide OfOneJob;
    forall i | 0 <= i < |submitted|
      ensures OfOneJob(handled + [msg], submitted[i])
    {
      OfOneJobMore(handled, msg, submitted[i]);
    }
  }

  lemma TakeWorkKeeps(st: State, st': State)
    requires Inv(st) && (TakeWork(st, st'))
    ensures Inv(st')
  {
    hide AnyJob;
    hide LastJob;
    hide SubmittedOK;
  }

  lemma ResetKeeps(st: State, st': State)
    requires Inv(st) && (ResetCancel(st, st'))
    ensures Inv(st')
  {
    hide AnyJob;
    hide LastJob;
    hide SubmittedOK;
  }

  lemma LockKeeps(st: State, st': State)
    requires Inv(st) && (LockFields(st, st'))
    ensures Inv(st')
  {
    hide AnyJob;
    hide LastJob;
    hide SubmittedOK;
  }

  lemma CopyKeeps(st: State, st': State)
    requires Inv(st) && (Copy(st, st'))
    ensures Inv(st')
  {
    hide *;
    InvParts(st);
    CopyFields(st, st');
    CopyShared(st, st');
    CopyFlags(st, st');
    InvOfParts(st');
  }

  lemma CopyFields(st: State, st': State)
    requires CopyOK(st) && Copy(st, st')
    ensures CopyOK(st')
  {
    hide AnyJob;
    hide LastJob;
  }

  /** Copying moves nothing but the thread and its copy. */
  lemma CopyMoves(st: State, st': State)
    requires Copy(st, st')
    ensures st' == st.(actual := st'.actual, miner := st'.miner) && st.miner.Copying? && st'.miner.Copying?
  {
  }

  lemma CopyShared(st: State, st': State)
    requires LockOK(st) && SharedOK(st) && SubmittedOK(st.handled, st.submitted) && Copy(st, st')
    ensures LockOK(st') && SharedOK(st') && SubmittedOK(st'.handled, st'.submitted)
  {
    hide AnyJob;
    hide LastJob;
    hide SubmittedOK;
    hide Copy;
    CopyMoves(st, st');
  }

  lemma CopyFlags(st: State, st': State)
    requires HandlingOK(st) && BetweenOK(st) && RaisedOK(st) && Copy(st, st')
    ensures HandlingOK(st') && BetweenOK(st') && RaisedOK(st')
  {
    hide Copy;
    CopyMoves(st, st');
  }

  lemma StartKeeps(st: State, st': State)
    requires Inv(st) && (StartSolve(st, st'))
    ensures Inv(st')
  {
    hide AnyJob;
    hide LastJob;
    hide SubmittedOK;
  }

  lemma EndKeeps(st: State, st': State)
    requires Inv(st) && EndSolve(st, st')
    ensures Inv(st')
  {
    hide AnyJob;
    hide LastJob;
    hide SubmittedOK;
  }

  lemma CheckEndKeeps(st: State, st': State)
    requires Inv(st) && CheckEnd(st, st')
    ensures Inv(st')
  {
    hide AnyJob;
    hide LastJob;
    hide SubmittedOK;
  }

  lemma StopKeeps(st: State, st': State)
    requires Inv(st) && Stop(st, st')
    ensures Inv(st')
  {
    hide AnyJob;
    hide LastJob;
    hide SubmittedOK;
  }

  lemma CheckKeeps(st: State, st': State)
    requires Inv(st) && (CheckWork(st, st') || CheckPause(st, st'))
    ensures Inv(st')
  {
    hide AnyJob;
    hide LastJob;
    hide SubmittedOK;
  }

  lemma UnlockKeeps(st: State, st': State)
    requires Inv(st) && UnlockFields(st, st')
    ensures Inv(st')
  {
    hide AnyJob;
    hide LastJob;
    assert st.handled[..|st.handled|] == st.handled;
  }

  lemma SubmitKeeps(st: State, st': State)
    requires Inv(st) && Submit(st, st')
    ensures Inv(st')
  {
    hide AnyJob;
    hide LastJob;
    var prefix := st.handled[..st.seen];
    LastJobHandled(prefix);
    var k :| 0 <= k < |prefix| && prefix[k].NewJob? && prefix[k].job == LastJob(prefix);
    assert st.handled[k] == prefix[k];
    assert OfOneJob(st.handled, st.actual);
  }

  // ---------- pausing, and the way of a job ----------

  /** The pause flag follows the last message. */
  predicate PauseFlag(st: State)
  {
    match st.handler
    case NoMessage => st.pauseMining <==> st.handled != [] && st.handled[|st.handled| - 1].Pause?
    case Handling(NewJob(_, _), k) => k > 4 ==> !st.pauseMining
    case Handling(Pause, k) => k > 2 ==> st.pauseMining
  }

  /** A job waits, is being taken, or has been copied. */
  predicate JobThere(st: State)
  {
    match st.handler
    case NoMessage =>
      st.handled != [] && st.handled[|st.handled| - 1].NewJob? ==>
        || st.workReady || st.miner.Resetting? || st.miner.Locking? || st.miner.Copying?
        || st.seen == |st.handled|
    case Handling(NewJob(_, _), k) => k > 5 ==> st.workReady || st.miner.Resetting? || st.miner.Locking?
    case Handling(Pause, _) => true
  }

  predicate Flow(st: State)
  {
    PauseFlag(st) && JobThere(st)
  }

  predicate HandlerStep(st: State, st': State)
  {
    Handle(st, st') || FinishMessage(st, st')
  }

  predicate WaitStep(st: State, st': State)
  {
    TakeWork(st, st') || ResetCancel(st, st') || LockFields(st, st') || Copy(st, st') || UnlockFields(st, st')
  }

  predicate SolveStep(st: State, st': State)
  {
    || StartSolve(st, st') || Submit(st, st') || EndSolve(st, st')
    || CheckEnd(st, st') || CheckWork(st, st') || CheckPause(st, st') || Stop(st, st')
  }

  lemma StepKinds(st: State, st': State)
    ensures Next(st, st') <==>
              Receive(st, st') || HandlerStep(st, st') || WaitStep(st, st') || SolveStep(st, st')
  {
    hide Receive, Handle, FinishMessage, TakeWork, ResetCancel, LockFields, Copy, UnlockFields, StartSolve, Submit;
    hide EndSolve, CheckEnd, CheckWork, CheckPause, Stop;
  }

  lemma ReceiveFlow(st: State, st': State)
    requires Flow(st) && Receive(st, st')
    ensures Flow(st')
  {
  }

  lemma HandlerFlow(st: State, st': State)
    requires Flow(st) && HandlerStep(st, st')
    ensures Flow(st')
  {
  }

  lemma WaitFlow(st: State, st': State)
    requires LockOK(st) && Flow(st) && WaitStep(st, st')
    ensures Flow(st')
  {
    WaitEffect(st, st');
    hide WaitStep;
  }

  /** Taking and copying a job. */
  lemma WaitEffect(st: State, st': State)
    requires LockOK(st) && WaitStep(st, st')
    ensures st'.handler == st.handler && st'.handled == st.handled && st'.pauseMining == st.pauseMining
    ensures st'.seen == if st.miner == Copying(4) then |st.handled| else st.seen
    ensures st'.workReady == if st.miner == Waiting then false else st.workReady
    ensures st.miner == Waiting ==> st'.miner == Resetting
    ensures st.miner == Resetting ==> st'.miner == Locking
    ensures st.miner == Locking ==> st.handler == NoMessage && st'.miner == Copying(0)
    ensures st.miner.Copying? ==> st.handler == NoMessage && (st'.miner.Copying? || st.miner == Copying(4))
  {
    hide CopyField;
    if Copy(st, st') {
      CopyKeepsFlags(st, st.miner.next);
    }
  }

  lemma CopyKeepsFlags(st: State, k: nat)
    ensures var r := CopyField(st, k);
            r == st.(actual := r.actual)
  {
  }

  lemma SolveFlow(st: State, st': State)
    requires Flow(st) && SolveStep(st, st')
    ensures Flow(st')
  {
    SolveEffect(st, st');
    hide SolveStep;
  }

  /** Solving changes none of the flags. */
  lemma SolveEffect(st: State, st': State)
    requires SolveStep(st, st')
    ensures st' == st.(miner := st'.miner, submitted := st'.submitted, starts := st'.starts,
                       staleStarts := st'.staleStarts)
    ensures !st.miner.Resetting? && !st.miner.Locking? && !st.miner.Copying?
    ensures !st'.miner.Resetting? && !st'.miner.Locking? && !st'.miner.Copying?
  {
  }

  lemma FlowKeeps(st: State, st': State)
    requires LockOK(st) && Flow(st) && Next(st, st')
    ensures Flow(st')
  {
    hide LockOK, Flow, Receive, HandlerStep, WaitStep, SolveStep, Next;
    StepKinds(st, st');
    if Receive(st, st') {
      ReceiveFlow(st, st');
    } else if HandlerStep(st, st') {
      HandlerFlow(st, st');
    } else if WaitStep(st, st') {
      WaitFlow(st, st');
    } else {
      SolveFlow(st, st');
    }
  }

  lemma {:induction false} ExecutionInv(states: seq<State>, k: nat)
    requires Execution(states) && k < |states|
    ensures Inv(states[k]) && Flow(states[k])
  {
    if k == 0 {
    } else {
      hide Inv, Flow;
      ExecutionInv(states, k - 1);
      assert StepAt(states, k);
      var st, st' := states[k - 1], states[k];
      InvParts(st);
      hide LockOK, SharedOK, HandlingOK, CopyOK, SubmittedOK, BetweenOK, RaisedOK;
      FlowKeeps(st, st');
      hide Receive, FinishMessage, UnlockFields, Submit, TakeWork, ResetCancel, LockFields, Copy, StartSolve;
      hide EndSolve, CheckEnd, CheckWork, CheckPause, Stop;
      if Receive(st, st') {
        ReceiveKeeps(st, st');
      } else if Handle(st, st') {
        if st.handler.msg.NewJob? {
          HandleJobKeeps(st, st');
        } else {
          HandlePauseKeeps(st, st');
        }
      } else if FinishMessage(st, st') {
        FinishKeeps(st, st');
      } else if UnlockFields(st, st') {
        UnlockKeeps(st, st');
      } else if Submit(st, st') {
        SubmitKeeps(st, st');
      } else if TakeWork(st, st') {
        TakeWorkKeeps(st, st');
      } else if ResetCancel(st, st') {
        ResetKeeps(st, st');
      } else if LockFields(st, st') {
        LockKeeps(st, st');
      } else if Copy(st, st') {
        CopyKeeps(st, st');
      } else if StartSolve(st, st') {
        StartKeeps(st, st');
      } else if CheckWork(st, st') || CheckPause(st, st') {
        CheckKeeps(st, st');
      } else if Stop(st, st') {
        StopKeeps(st, st');
      } else if CheckEnd(st, st') {
        CheckEndKeeps(st, st');
      } else {
        EndKeeps(st, st');
      }
    }
  }

  // ---------- the theorems ----------

  /** Header, job id, time and target of a submission come from one job that was handled. */
  lemma SubmissionsOfOneJob(states: seq<State>, k: nat, i: nat)
    requires Execution(states) && k < |states| && i < |states[k].submitted|
    ensures OfOneJob(states[k].handled, states[k].submitted[i])
  {
    hide Execution;
    hide OfOneJob;
    ExecutionInv(states, k);
  }

  /** Between two messages the thread starts at most one solve on a copy older than the last message. */
  lemma OneStaleSolve(states: seq<State>, k: nat)
    requires Execution(states) && k < |states| && states[k].handler == NoMessage && states[k].handled != []
    ensures states[k].staleStarts <= 1
  {
    hide Execution;
    ExecutionInv(states, k);
  }

  /** After a message without a job it starts at most one solve of any kind, and then waits. */
  lemma PauseStopsMining(states: seq<State>, k: nat)
    requires Execution(states) && k < |states| && states[k].handler == NoMessage && states[k].handled != []
    requires states[k].handled[|states[k].handled| - 1] == Pause
    ensures states[k].starts <= 1
    ensures states[k].miner.Waiting? ==> !states[k].workReady
  {
    hide Execution;
    ExecutionInv(states, k);
  }

  /** A solve on a copy older than a message that cancels sees the cancel flag until the next message. */
  lemma StaleSolveIsCancelled(states: seq<State>, k: nat)
    requires Execution(states) && k < |states| && states[k].handler == NoMessage && states[k].handled != []
    requires Cancels(states[k].handled[|states[k].handled| - 1])
    requires states[k].miner.Solving? && states[k].seen < |states[k].handled|
    ensures states[k].cancelSolver
  {
    hide Execution;
    ExecutionInv(states, k);
  }

  /**
    A solve sees the flag of a message that cancels down exactly when the thread was about to
    reset the flag at the moment it was raised, or has since taken the work that was waiting
    at that moment. No work waits when a pause raises the flag.
  */
  lemma CancelIsLostExactly(states: seq<State>, k: nat)
    requires Execution(states) && k < |states| && states[k].handler == NoMessage && states[k].handled != []
    requires Cancels(states[k].handled[|states[k].handled| - 1]) && states[k].miner.Solving?
    ensures !states[k].cancelSolver <==>
            states[k].raisedAt.Resetting? || (states[k].readyAt && !states[k].workReady)
    ensures states[k].handled[|states[k].handled| - 1].Pause? ==>
              (!states[k].cancelSolver <==> states[k].raisedAt.Resetting?)
  {
    hide Execution;
    ExecutionInv(states, k);
  }

  /**
    A solve on the copy that the message itself provided is cancelled by it exactly when the
    flag was raised between the thread's reset and its lock, and no reset came later.
  */
  lemma FreshSolveCancelledExactly(states: seq<State>, k: nat)
    requires Execution(states) && k < |states| && states[k].handler == NoMessage && states[k].handled != []
    requires Cancels(states[k].handled[|states[k].handled| - 1]) && states[k].miner.Solving?
    requires states[k].seen == |states[k].handled|
    ensures states[k].cancelSolver <==>
            states[k].raisedAt.Locking? && (states[k].readyAt ==> states[k].workReady)
  {
    hide Execution;
    ExecutionInv(states, k);
  }

  // ---------- where the cancel flag is lost ----------

  function Start(job: Fields): State
  {
    State(Free, NoMessage, Waiting, job, false, false, false, job, [], 0, [], 0, 0, Waiting, false)
  }

  /** The first job, handled up to assignment k. */
  function JobBeing(job: Fields, k: nat): State
  {
    Start(job).(owner := ByHandler, handler := Handling(NewJob(job, false), k), workReady := k > 5)
  }

  /** Pause, handled up to assignment k while the thread is about to reset the flag. */
  function PauseBeing(job: Fields, k: nat): State
  {
    Start(job).(owner := ByHandler, handler := Handling(Pause, k), miner := Resetting, cancelSolver := k > 1,
                pauseMining := k > 2, handled := [NewJob(job, false)], raisedAt := if k > 1 then Resetting else Waiting)
  }

  /** After Pause, with the flag reset, and the thread at the given place. */
  function AfterPause(job: Fields, owner: Owner, miner: Miner, seen: nat, starts: nat): State
  {
    Start(job).(owner := owner, miner := miner, pauseMining := true, handled := [NewJob(job, false), Pause],
                seen := seen, starts := starts, raisedAt := Resetting)
  }

  function LostCancelState(job: Fields, k: nat): State
  {
    if k == 0 then Start(job)
    else if k <= 8 then JobBeing(job, k - 1)
    else if k == 9 then Start(job).(workReady := true, handled := [NewJob(job, false)])
    else if k == 10 then Start(job).(miner := Resetting, handled := [NewJob(job, false)])
    else if k <= 14 then PauseBeing(job, k - 11)
    else if k == 15 then AfterPause(job, Free, Resetting, 0, 0).(cancelSolver := true)
    else if k == 16 then AfterPause(job, Free, Locking, 0, 0)
    else if k <= 21 then AfterPause(job, ByMiner, Copying(k - 17), 0, 0)
    else if k == 22 then AfterPause(job, Free, Starting, 2, 0)
    else AfterPause(job, Free, Solving, 2, 1)
  }

  lemma JobStep(job: Fields, k: nat)
    requires k < 7
    ensures Handle(JobBeing(job, k), JobBeing(job, k + 1))
  {
    assert job == Fields(job.jobId, job.time, job.header, job.target);
  }

  lemma PauseStep(job: Fields, k: nat)
    requires k < 3
    ensures Handle(PauseBeing(job, k), PauseBeing(job, k + 1))
  {
  }

  lemma CopyStep(job: Fields, k: nat)
    requires k < 4
    ensures Copy(AfterPause(job, ByMiner, Copying(k), 0, 0), AfterPause(job, ByMiner, Copying(k + 1), 0, 0))
  {
    assert job == Fields(job.jobId, job.time, job.header, job.target);
  }

  lemma MessageStep(job: Fields, k: nat)
    requires k == 1 || k == 9 || k == 11 || k == 15
    ensures Next(LostCancelState(job, k - 1), LostCancelState(job, k))
  {
    var st, st' := LostCancelState(job, k - 1), LostCancelState(job, k);
    if k == 1 {
      assert st' == st.(owner := ByHandler, handler := Handling(NewJob(job, false), 0));
    } else if k == 11 {
      assert st' == st.(owner := ByHandler, handler := Handling(Pause, 0));
    } else {
      assert FinishMessage(st, st');
    }
  }

  lemma LostCancelStep(job: Fields, k: nat)
    requires 1 <= k < 24
    ensures Next(LostCancelState(job, k - 1), LostCancelState(job, k))
  {
    if k == 1 || k == 9 || k == 11 || k == 15 {
      MessageStep(job, k);
    } else if k <= 8 {
      JobStep(job, k - 2);
    } else if 12 <= k <= 14 {
      PauseStep(job, k - 12);
    } else if 18 <= k <= 21 {
      CopyStep(job, k - 18);
    }
  }

  /**
    A solve can run with the flag down although a message that cancels was the last to
    be handled: the thread reset the flag after the message raised it, and copied the job later.
  */
  lemma CancelCanBeLost(job: Fields)
    ensures var states := seq(24, k requires 0 <= k < 24 => LostCancelState(job, k));
            var last := states[23];
            && Execution(states) && last.miner == Solving && !last.cancelSolver
            && last.handler == NoMessage && last.handled == [NewJob(job, false), Pause]
  {
    hide Next;
    var states := seq(24, k requires 0 <= k < 24 => LostCancelState(job, k));
    forall k | 1 <= k < |states|
      ensures StepAt(states, k)
    {
      LostCancelStep(job, k);
    }
  }

  // ---------- where a clean job cancels its own solve ----------

  /** A clean job, handled up to assignment k; the thread takes it after the sixth and resets the flag. */
  function CleanBeing(job: Fields, k: nat, miner: Miner): State
  {
    Start(job).(owner := ByHandler, handler := Handling(NewJob(job, true), k), miner := miner,
                workReady := k > 5 && miner.Waiting?, cancelSolver := k > 6,
                raisedAt := if k > 6 then miner else Waiting)
  }

  /** After the clean job, with the flag up, and the thread at the given place. */
  function AfterClean(job: Fields, owner: Owner, miner: Miner, seen: nat, starts: nat): State
  {
    Start(job).(owner := owner, miner := miner, cancelSolver := true, handled := [NewJob(job, true)],
                seen := seen, starts := starts, raisedAt := Locking)
  }

  function OwnCancelState(job: Fields, k: nat): State
  {
    if k == 0 then Start(job)
    else if k <= 7 then CleanBeing(job, k - 1, Waiting)
    else if k == 8 then CleanBeing(job, 6, Resetting)
    else if k <= 10 then CleanBeing(job, k - 3, Locking)
    else if k == 11 then AfterClean(job, Free, Locking, 0, 0)
    else if k <= 16 then AfterClean(job, ByMiner, Copying(k - 12), 0, 0)
    else if k == 17 then AfterClean(job, Free, Starting, 1, 0)
    else AfterClean(job, Free, Solving, 1, 1)
  }

  lemma CleanStep(job: Fields, k: nat)
    requires k < 6
    ensures Handle(CleanBeing(job, k, Waiting), CleanBeing(job, k + 1, Waiting))
  {
    assert job == Fields(job.jobId, job.time, job.header, job.target);
  }

  lemma CleanCopyStep(job: Fields, k: nat)
    requires k < 4
    ensures Copy(AfterClean(job, ByMiner, Copying(k), 0, 0), AfterClean(job, ByMiner, Copying(k + 1), 0, 0))
  {
    assert job == Fields(job.jobId, job.time, job.header, job.target);
  }

  lemma OwnCancelStep(job: Fields, k: nat)
    requires 1 <= k < 19
    ensures Next(OwnCancelState(job, k - 1), OwnCancelState(job, k))
  {
    var st, st' := OwnCancelState(job, k - 1), OwnCancelState(job, k);
    if k == 1 {
      assert st' == st.(owner := ByHandler, handler := Handling(NewJob(job, true), 0));
    } else if k <= 7 {
      CleanStep(job, k - 2);
    } else if k <= 12 {
      OwnCancelMiddle(job, k);
    } else if k <= 16 {
      CleanCopyStep(job, k - 13);
    } else {
      OwnCancelLast(job, k);
    }
  }

  lemma OwnCancelMiddle(job: Fields, k: nat)
    requires 8 <= k <= 12
    ensures Next(OwnCancelState(job, k - 1), OwnCancelState(job, k))
  {
    hide Next;
    var st, st' := OwnCancelState(job, k - 1), OwnCancelState(job, k);
    assert TakeWork(st, st') || ResetCancel(st, st') || Handle(st, st') ||
           FinishMessage(st, st') || LockFields(st, st');
    NextByHandler(st, st');
    NextByMiner(st, st');
  }

  lemma OwnCancelLast(job: Fields, k: nat)
    requires k == 17 || k == 18
    ensures Next(OwnCancelState(job, k - 1), OwnCancelState(job, k))
  {
    hide Next;
    var st, st' := OwnCancelState(job, k - 1), OwnCancelState(job, k);
    assert UnlockFields(st, st') || StartSolve(st, st');
    NextByMiner(st, st');
  }

  lemma NextByHandler(st: State, st': State)
    ensures Handle(st, st') || FinishMessage(st, st') ==> Next(st, st')
  {
    hide *;
    NextDef(st, st');
  }

  lemma NextByMiner(st: State, st': State)
    ensures TakeWork(st, st') || ResetCancel(st, st') || LockFields(st, st') ==> Next(st, st')
    ensures Copy(st, st') || UnlockFields(st, st') || StartSolve(st, st') ==> Next(st, st')
  {
    hide *;
    NextDef(st, st');
  }

  lemma NextDef(st: State, st': State)
    ensures Next(st, st') <==>
            || Receive(st, st') || Handle(st, st') || FinishMessage(st, st')
            || TakeWork(st, st') || ResetCancel(st, st') || LockFields(st, st')
            || Copy(st, st') || UnlockFields(st, st')
            || StartSolve(st, st') || Submit(st, st') || EndSolve(st, st')
            || CheckEnd(st, st') || CheckWork(st, st') || CheckPause(st, st') || Stop(st, st')
  {
    hide Receive, Handle, FinishMessage, TakeWork, ResetCancel, LockFields, Copy, UnlockFields, StartSolve, Submit;
    hide EndSolve, CheckEnd, CheckWork, CheckPause, Stop;
  }

  /** The solve of a clean job can itself be cancelled by that job. */
  lemma CleanJobCanCancelItself(job: Fields)
    ensures var states := seq(19, k requires 0 <= k < 19 => OwnCancelState(job, k));
            var last := states[18];
            && Execution(states) && last.miner == Solving && last.cancelSolver
            && last.handler == NoMessage && last.handled == [NewJob(job, true)] && last.seen == 1
  {
    hide Next;
    var states := seq(19, k requires 0 <= k < 19 => OwnCancelState(job, k));
    forall k | 1 <= k < |states|
      ensures StepAt(states, k)
    {
      OwnCancelStep(job, k);
    }
  }
}
