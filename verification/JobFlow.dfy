/**
  What becomes of a message: a job ends a pause and reaches the thread, which goes on
  with it nonce after nonce; a pause stops it. Each flag changes only where the program
  changes it.
*/
module JobFlow {
  import opened JobHandoff

  // ---------- pause and job ----------

  /** Between two messages the thread is paused exactly when the last one was a pause. */
  lemma PauseExactly(states: seq<State>, k: nat)
    requires Execution(states) && k < |states| && states[k].handler == NoMessage
    ensures states[k].pauseMining <==> states[k].handled != [] && states[k].handled[|states[k].handled| - 1] == Pause
  {
    hide Execution;
    ExecutionInv(states, k);
  }

  /**
    A job is not lost: once it is handled, it waits, or the thread is about to copy it, or
    what the thread works on is that job.
  */
  lemma JobNotLost(states: seq<State>, k: nat)
    requires Execution(states) && k < |states| && states[k].handler == NoMessage && states[k].handled != []
    requires states[k].handled[|states[k].handled| - 1].NewJob? && !states[k].workReady
    ensures states[k].miner.Resetting? || states[k].miner.Locking? || states[k].miner.Copying? ||
            states[k].seen == |states[k].handled|
    ensures states[k].miner.Starting? || states[k].miner.Solving? || states[k].miner.CheckingEnd? ||
            states[k].miner.CheckingWork? || states[k].miner.CheckingPause? ==>
              states[k].actual == states[k].handled[|states[k].handled| - 1].job
  {
    hide Execution;
    ExecutionInv(states, k);
    assert states[k].handled[..|states[k].handled|] == states[k].handled;
  }

  /**
    After a job, a thread at its test for newer work with none waiting goes on to its next
    nonce: it passes that test and the test for a pause, and changes nothing else.
  */
  lemma JobGoesOn(states: seq<State>, k: nat)
    requires Execution(states) && k + 2 < |states| && states[k].handler == NoMessage && states[k].handled != []
    requires states[k].handled[|states[k].handled| - 1].NewJob? && !states[k].workReady
    requires states[k].miner == CheckingWork
    requires states[k + 1].miner != CheckingWork && states[k + 2].miner != states[k + 1].miner
    ensures states[k + 1] == states[k].(miner := CheckingPause)
    ensures states[k + 2] == states[k].(miner := Starting)
  {
    hide Execution, Receive;
    ExecutionInv(states, k);
    ThreadTests(states, k + 1);
    ThreadTests(states, k + 2);
  }

  /** What the thread's two tests lead to. */
  lemma ThreadTests(states: seq<State>, k: nat)
    requires Execution(states) && 1 <= k < |states|
    ensures states[k - 1].miner == CheckingWork && states[k].miner != CheckingWork ==>
              states[k] == states[k - 1].(miner := if states[k - 1].workReady then Waiting else CheckingPause)
    ensures states[k - 1].miner == CheckingPause && states[k].miner != CheckingPause ==>
              states[k] == states[k - 1].(miner := if states[k - 1].pauseMining then Waiting else Starting)
  {
    assert StepAt(states, k);
    var st, st' := states[k - 1], states[k];
    StepKinds(st, st');
    hide Next, Receive;
    if WaitStep(st, st') {
      hide SolveStep;
    } else if HandlerStep(st, st') {
      hide WaitStep, SolveStep;
    } else if SolveStep(st, st') {
      hide WaitStep, HandlerStep;
    }
  }

  // ---------- who changes what ----------

  /**
    A flag goes up or down only where the program says so. The cancel flag is raised by a
    pause or a clean job, and lowered only by the thread on its way to a new job.
  */
  lemma FlagsChange(states: seq<State>, k: nat)
    requires Execution(states) && 1 <= k < |states|
    ensures var st, st' := states[k - 1], states[k];
            && (st'.cancelSolver && !st.cancelSolver ==>
                  st.handler.Handling? && (st.handler.msg.Pause? || st.handler.msg.clean))
            && (st.cancelSolver && !st'.cancelSolver ==> st.miner == Resetting && st'.miner == Locking)
            && (st'.pauseMining && !st.pauseMining ==> st.handler.Handling? && st.handler.msg.Pause?)
            && (st.pauseMining && !st'.pauseMining ==> st.handler.Handling? && st.handler.msg.NewJob?)
            && (st'.workReady && !st.workReady ==> st.handler.Handling? && st.handler.msg.NewJob?)
            && (st.workReady && !st'.workReady ==>
                  (st.handler.Handling? && st.handler.msg.Pause?) || (st.miner == Waiting && st'.miner == Resetting))
            && (st.shared != st'.shared ==> st.handler.Handling? && st.handler.msg.NewJob?)
  {
    var st, st' := states[k - 1], states[k];
    assert StepAt(states, k);
    hide *;
    StepKinds(st, st');
    if HandlerStep(st, st') {
      HandlerFlags(st, st');
    } else if SolveStep(st, st') {
      SolveEffect(st, st');
    } else if WaitStep(st, st') {
      WaitFlags(st, st');
    } else {
      ReceiveEffect(st, st');
    }
  }

  lemma ReceiveEffect(st: State, st': State)
    requires Receive(st, st')
    ensures st' == st.(owner := ByHandler, handler := st'.handler)
  {
  }

  lemma HandlerFlags(st: State, st': State)
    requires HandlerStep(st, st')
    ensures st.handler.Handling? && (st.cancelSolver ==> st'.cancelSolver)
    ensures st'.cancelSolver && !st.cancelSolver ==> st.handler.msg.Pause? || st.handler.msg.clean
    ensures st.handler.msg.Pause? ==> st'.shared == st.shared
    ensures st.handler.msg.Pause? ==> (st.pauseMining ==> st'.pauseMining) && (st'.workReady ==> st.workReady)
    ensures st.handler.msg.NewJob? ==> (st'.pauseMining ==> st.pauseMining) && (st.workReady ==> st'.workReady)
  {
    hide AssignJob, AssignPause;
  }

  lemma HandlerHistory(st: State, st': State)
    requires HandlerStep(st, st')
    ensures st'.miner == st.miner && st'.submitted == st.submitted && |st.handled| <= |st'.handled|
    ensures |st.handled| == |st'.handled| ==> st'.starts == st.starts && st'.staleStarts == st.staleStarts
  {
    hide AssignJob, AssignPause;
  }

  lemma WaitFlags(st: State, st': State)
    requires WaitStep(st, st')
    ensures st'.shared == st.shared && st'.pauseMining == st.pauseMining
    ensures st.miner == Waiting ==> st'.miner == Resetting
    ensures st.miner == Resetting ==> st'.miner == Locking
    ensures st'.workReady == if st.miner == Waiting then false else st.workReady
    ensures st'.cancelSolver == if st.miner == Resetting then false else st.cancelSolver
  {
    hide CopyField;
    if Copy(st, st') {
      CopyKeepsFlags(st, st.miner.next);
    }
  }

  /** job is that of the last job among the first n messages. */
  predicate IsLastJob(handled: seq<Message>, n: nat, job: Fields)
  {
    exists j :: 0 <= j < n <= |handled| && handled[j].NewJob? && handled[j].job == job &&
                forall i :: j < i < n ==> handled[i].Pause?
  }

  lemma {:induction false} LastJobExact(handled: seq<Message>)
    requires AnyJob(handled)
    ensures IsLastJob(handled, |handled|, LastJob(handled))
  {
    var n := |handled| - 1;
    if handled[n].NewJob? {
      assert handled[n].job == LastJob(handled);
    } else {
      LastJobExact(handled[..n]);
      var j :| 0 <= j < n && handled[..n][j].NewJob? && handled[..n][j].job == LastJob(handled[..n]) &&
               forall i :: j < i < n ==> handled[..n][i].Pause?;
      assert forall i :: 0 <= i < n ==> handled[i] == handled[..n][i];
    }
  }

  /**
    What the thread submits in the middle of a solve, one at a time and only there, is the
    last job among the messages handled before it copied.
  */
  lemma SubmitsItsJob(states: seq<State>, k: nat)
    requires Execution(states) && 1 <= k < |states| && states[k].submitted != states[k - 1].submitted
    ensures states[k - 1].miner == Solving
    ensures states[k] == states[k - 1].(submitted := states[k - 1].submitted + [states[k - 1].actual])
    ensures IsLastJob(states[k - 1].handled, states[k - 1].seen, states[k - 1].actual)
  {
    var st, st' := states[k - 1], states[k];
    assert StepAt(states, k);
    ExecutionInv(states, k - 1);
    InvParts(st);
    hide Execution, Inv, Flow, LockOK, SharedOK, HandlingOK, SubmittedOK, BetweenOK, RaisedOK;
    hide AnyJob, LastJob, IsLastJob;
    OnlySubmits(st, st');
    hide Next;
    var prefix := st.handled[..st.seen];
    LastJobExact(prefix);
    PrefixJob(st.handled, st.seen, LastJob(prefix));
  }

  lemma PrefixJob(handled: seq<Message>, n: nat, job: Fields)
    requires n <= |handled| && IsLastJob(handled[..n], n, job)
    ensures IsLastJob(handled, n, job)
  {
    var j :| 0 <= j < n && handled[..n][j].NewJob? && handled[..n][j].job == job &&
             forall i :: j < i < n ==> handled[..n][i].Pause?;
    assert forall i :: 0 <= i < n ==> handled[i] == handled[..n][i];
  }

  lemma OnlySubmits(st: State, st': State)
    requires Next(st, st') && st'.submitted != st.submitted
    ensures Submit(st, st')
  {
    hide *;
    StepKinds(st, st');
    if WaitStep(st, st') {
      WaitHistory(st, st');
    } else if HandlerStep(st, st') {
      HandlerHistory(st, st');
    } else if SolveStep(st, st') {
      SolveHistory(st, st');
    } else {
      ReceiveEffect(st, st');
    }
  }

  lemma SolveHistory(st: State, st': State)
    requires SolveStep(st, st')
    ensures st'.submitted != st.submitted ==> Submit(st, st')
    ensures st'.starts == if st.miner == Starting && st'.miner == Solving then st.starts + 1 else st.starts
    ensures st'.staleStarts == if st.miner == Starting && st'.miner == Solving && st.seen < |st.handled|
                               then st.staleStarts + 1 else st.staleStarts
  {
  }

  // ---------- at most one more solve ----------

  /** The thread begins a solve in step k. */
  predicate StartsAt(states: seq<State>, k: nat)
  {
    1 <= k < |states| && states[k - 1].miner == Starting && states[k].miner == Solving
  }

  lemma StepHistory(states: seq<State>, k: nat)
    requires Execution(states) && 1 <= k < |states|
    ensures var st, st' := states[k - 1], states[k];
            && |st.handled| <= |st'.handled|
            && (|st.handled| == |st'.handled| ==>
                  && st'.starts == st.starts + (if StartsAt(states, k) then 1 else 0)
                  && st'.staleStarts ==
                       st.staleStarts + (if StartsAt(states, k) && st.seen < |st.handled| then 1 else 0))
  {
    var st, st' := states[k - 1], states[k];
    assert StepAt(states, k);
    hide Next, Execution, Receive, HandlerStep, SolveStep, WaitStep;
    StepKinds(st, st');
    if HandlerStep(st, st') {
      HandlerHistory(st, st');
    } else if SolveStep(st, st') {
      SolveHistory(st, st');
      SolveEffect(st, st');
    } else if WaitStep(st, st') {
      WaitHistory(st, st');
    } else {
      ReceiveEffect(st, st');
    }
  }

  lemma WaitHistory(st: State, st': State)
    requires WaitStep(st, st')
    ensures st'.handled == st.handled && st'.starts == st.starts && st'.staleStarts == st.staleStarts
    ensures st'.submitted == st.submitted && !st.miner.Starting?
  {
    hide CopyField;
    if Copy(st, st') {
      CopyKeepsFlags(st, st.miner.next);
    }
  }

  lemma {:induction false} HistoryGrows(states: seq<State>, i: nat, j: nat)
    requires Execution(states) && i <= j < |states|
    ensures |states[i].handled| <= |states[j].handled|
    ensures |states[i].handled| == |states[j].handled| ==>
              states[i].starts <= states[j].starts && states[i].staleStarts <= states[j].staleStarts
    decreases j
  {
    hide Execution, StartsAt;
    if i < j {
      HistoryGrows(states, i, j - 1);
      StepHistory(states, j);
    }
  }

  /**
    Two solves begun between the same two messages: at most one of them is on a copy older than
    the last message, and after a pause there are no two.
  */
  lemma NotTwice(states: seq<State>, i: nat, j: nat)
    requires Execution(states) && StartsAt(states, i) && StartsAt(states, j) && i < j
    requires states[j].handler == NoMessage && |states[i - 1].handled| == |states[j].handled| > 0
    ensures !(states[i - 1].seen < |states[j].handled| && states[j - 1].seen < |states[j].handled|)
    ensures states[j].handled[|states[j].handled| - 1].NewJob?
  {
    HistoryGrows(states, i - 1, i);
    HistoryGrows(states, i, j - 1);
    HistoryGrows(states, j - 1, j);
    StepHistory(states, i);
    StepHistory(states, j);
    hide Execution;
    OneStaleSolve(states, j);
    if states[j].handled[|states[j].handled| - 1].Pause? {
      PauseStopsMining(states, j);
    }
  }

  // ---------- messages and nonces that nothing interrupts ----------

  /** Steps lead from st to st'. */
  ghost predicate Reaches(st: State, st': State)
  {
    exists path: seq<State> :: IsPath(path) && path[0] == st && path[|path| - 1] == st'
  }

  ghost predicate IsPath(path: seq<State>)
  {
    |path| > 0 && forall k :: 1 <= k < |path| ==> StepAt(path, k)
  }

  lemma ReachesSelf(st: State)
    ensures Reaches(st, st)
  {
    assert IsPath([st]);
  }

  lemma ReachesNext(st: State, mid: State, st': State)
    requires Reaches(st, mid) && Next(mid, st')
    ensures Reaches(st, st')
  {
    hide Next;
    var path: seq<State> :| IsPath(path) && path[0] == st && path[|path| - 1] == mid;
    var longer := path + [st'];
    forall k | 1 <= k < |longer|
      ensures StepAt(longer, k)
    {
      if k < |path| {
        assert StepAt(path, k);
      }
    }
  }

  /** What a message is on its way to, once k of its assignments are done. */
  lemma {:induction false} Assigned(st: State, mid: State, k: nat)
    requires Reaches(st, mid) && mid.handler.Handling? && mid.handler.next == 0
    requires k <= Assignments(mid.handler.msg)
    ensures Reaches(st, After(mid, k))
  {
    hide Reaches;
    if k > 0 {
      Assigned(st, mid, k - 1);
      AfterStep(mid, k);
      ReachesNext(st, After(mid, k - 1), After(mid, k));
    }
  }

  function After(mid: State, k: nat): (r: State)
    requires mid.handler.Handling? && mid.handler.next == 0
    ensures r.handler == Handling(mid.handler.msg, k)
  {
    if k == 0 then mid
    else (match mid.handler.msg
          case NewJob(job, clean) => AssignJob(After(mid, k - 1), job, clean, k - 1)
          case Pause => AssignPause(After(mid, k - 1), k - 1)).(handler := Handling(mid.handler.msg, k))
  }

  lemma AfterStep(mid: State, k: nat)
    requires mid.handler.Handling? && mid.handler.next == 0 && 0 < k <= Assignments(mid.handler.msg)
    ensures Next(After(mid, k - 1), After(mid, k))
  {
    hide AssignJob, AssignPause, Next;
    NextByHandler(After(mid, k - 1), After(mid, k));
  }

  /** What a whole job does when the thread takes no step meanwhile. */
  lemma JobIsHandled(st: State, job: Fields, clean: bool)
    requires st.handler == NoMessage && st.owner == Free
    ensures Reaches(st, st.(shared := job, pauseMining := false, workReady := true,
                            cancelSolver := clean || st.cancelSolver, handled := st.handled + [NewJob(job, clean)],
                            starts := 0, staleStarts := 0,
                            raisedAt := if clean then st.miner else st.raisedAt, readyAt := clean || st.readyAt))
  {
    var mid := st.(owner := ByHandler, handler := Handling(NewJob(job, clean), 0));
    Received(st, NewJob(job, clean));
    Assigned(st, mid, 7);
    AfterJob(mid, job, clean);
    assert job == Fields(job.jobId, job.time, job.header, job.target);
    MessageEnds(st, After(mid, 7));
  }

  lemma AfterJob(mid: State, job: Fields, clean: bool)
    requires mid.handler == Handling(NewJob(job, clean), 0)
    ensures After(mid, 7) ==
            mid.(shared := Fields(job.jobId, job.time, job.header, job.target), pauseMining := false, workReady := true,
                 cancelSolver := clean || mid.cancelSolver, handler := Handling(NewJob(job, clean), 7),
                 raisedAt := if clean then mid.miner else mid.raisedAt, readyAt := clean || mid.readyAt)
  {
    var msg := NewJob(job, clean);
    AfterFields(mid, job, clean);
    assert After(mid, 5) == After(mid, 4).(pauseMining := false, handler := Handling(msg, 5));
    assert After(mid, 6) == After(mid, 5).(workReady := true, handler := Handling(msg, 6));
  }

  lemma AfterFields(mid: State, job: Fields, clean: bool)
    requires mid.handler == Handling(NewJob(job, clean), 0)
    ensures After(mid, 4) ==
            mid.(shared := Fields(job.jobId, job.time, job.header, job.target),
                 handler := Handling(NewJob(job, clean), 4))
  {
    var was := mid.shared;
    var msg := NewJob(job, clean);
    var one := Fields(job.jobId, was.time, was.header, was.target);
    var two := Fields(job.jobId, job.time, was.header, was.target);
    var three := Fields(job.jobId, job.time, job.header, was.target);
    assert After(mid, 1) == mid.(shared := one, handler := Handling(msg, 1));
    assert After(mid, 2) == mid.(shared := two, handler := Handling(msg, 2));
    assert After(mid, 3) == mid.(shared := three, handler := Handling(msg, 3));
  }

  lemma Received(st: State, msg: Message)
    requires st.handler == NoMessage && st.owner == Free
    ensures Reaches(st, st.(owner := ByHandler, handler := Handling(msg, 0)))
  {
    hide Reaches;
    var st' := st.(owner := ByHandler, handler := Handling(msg, 0));
    assert Receive(st, st');
    hide Receive;
    StepKinds(st, st');
    ReachesSelf(st);
    ReachesNext(st, st, st');
  }

  lemma MessageEnds(st: State, last: State)
    requires Reaches(st, last) && last.handler.Handling? && last.handler.next == Assignments(last.handler.msg)
    ensures Reaches(st, last.(owner := Free, handler := NoMessage, handled := last.handled + [last.handler.msg],
                              starts := 0, staleStarts := 0))
  {
    hide Reaches;
    var st' := last.(owner := Free, handler := NoMessage, handled := last.handled + [last.handler.msg],
                     starts := 0, staleStarts := 0);
    NextByHandler(last, st');
    hide Next;
    ReachesNext(st, last, st');
  }

  /** What a whole pause does when the thread takes no step meanwhile. */
  lemma PauseIsHandled(st: State)
    requires st.handler == NoMessage && st.owner == Free
    ensures Reaches(st, st.(workReady := false, cancelSolver := true, pauseMining := true,
                            handled := st.handled + [Pause], starts := 0, staleStarts := 0,
                            raisedAt := st.miner, readyAt := false))
  {
    hide Reaches;
    var mid := st.(owner := ByHandler, handler := Handling(Pause, 0));
    Received(st, Pause);
    Assigned(st, mid, 3);
    assert After(mid, 1) == mid.(workReady := false, handler := Handling(Pause, 1));
    assert After(mid, 2) == RaiseCancel(After(mid, 1)).(handler := Handling(Pause, 2));
    assert After(mid, 3) == After(mid, 2).(pauseMining := true, handler := Handling(Pause, 3));
    MessageEnds(st, After(mid, 3));
  }

  /** What the thread does with waiting work when the handler is idle: it comes to start on the last job. */
  lemma JobIsTaken(st: State)
    requires st.miner == Waiting && st.workReady && st.owner == Free
    ensures Reaches(st, st.(workReady := false, cancelSolver := false, actual := st.shared,
                            seen := |st.handled|, miner := Starting))
  {
    hide Reaches;
    var s1 := st.(workReady := false, miner := Resetting);
    var s2 := s1.(cancelSolver := false, miner := Locking);
    var s3 := s2.(owner := ByMiner, miner := Copying(0));
    NextByMiner(st, s1);
    NextByMiner(s1, s2);
    NextByMiner(s2, s3);
    hide Next;
    ReachesSelf(st);
    ReachesNext(st, st, s1);
    ReachesNext(st, s1, s2);
    ReachesNext(st, s2, s3);
    JobIsCopied(st, s3);
  }

  lemma JobIsCopied(st: State, s: State)
    requires Reaches(st, s) && s.miner == Copying(0) && s.owner == ByMiner
    ensures Reaches(st, s.(actual := s.shared, seen := |s.handled|, miner := Starting, owner := Free))
  {
    hide Reaches;
    var a, b := s.actual, s.shared;
    var one := Fields(a.jobId, a.time, b.header, a.target);
    var two := Fields(b.jobId, a.time, b.header, a.target);
    var three := Fields(b.jobId, b.time, b.header, a.target);
    assert b == Fields(b.jobId, b.time, b.header, b.target);
    CopyOne(st, s, one);
    CopyOne(st, s.(actual := one, miner := Copying(1)), two);
    CopyOne(st, s.(actual := two, miner := Copying(2)), three);
    CopyOne(st, s.(actual := three, miner := Copying(3)), b);
    var last := s.(actual := b, miner := Copying(4));
    var st' := s.(actual := b, seen := |s.handled|, miner := Starting, owner := Free);
    assert UnlockFields(last, st');
    NextByMiner(last, st');
    hide Next;
    ReachesNext(st, last, st');
  }

  lemma CopyOne(st: State, s: State, fields: Fields)
    requires Reaches(st, s) && s.miner.Copying? && s.miner.next < 4
    requires CopyField(s, s.miner.next) == s.(actual := fields)
    ensures Reaches(st, s.(actual := fields, miner := Copying(s.miner.next + 1)))
  {
    hide Reaches, CopyField;
    var s' := s.(actual := fields, miner := Copying(s.miner.next + 1));
    assert Copy(s, s');
    NextByMiner(s, s');
    hide Next;
    ReachesNext(st, s, s');
  }

  /**
    One nonce: the solve, a submission if it found a proof, and the tests after it. The thread
    goes on to the next nonce exactly when its range has not ended, no work waits and nothing
    pauses it; otherwise it waits for work.
  */
  lemma NonceIsTried(st: State, found: bool, ended: bool)
    requires st.miner == Starting
    ensures Reaches(st, st.(starts := st.starts + 1,
                            staleStarts := if st.seen < |st.handled| then st.staleStarts + 1 else st.staleStarts,
                            submitted := if found then st.submitted + [st.actual] else st.submitted,
                            miner := if ended || st.workReady || st.pauseMining then Waiting else Starting))
  {
    hide Reaches;
    var s1 := st.(miner := Solving, starts := st.starts + 1,
                  staleStarts := if st.seen < |st.handled| then st.staleStarts + 1 else st.staleStarts);
    var s2 := if found then s1.(submitted := s1.submitted + [s1.actual]) else s1;
    NextBySolver(st, s1);
    NextBySolver(s1, s2);
    hide Next;
    ReachesSelf(st);
    ReachesNext(st, st, s1);
    if found {
      ReachesNext(st, s1, s2);
    }
    NonceEnds(st, s2, ended);
  }

  lemma NonceEnds(st: State, s: State, ended: bool)
    requires Reaches(st, s) && s.miner == Solving
    ensures Reaches(st, s.(miner := if ended || s.workReady || s.pauseMining then Waiting else Starting))
  {
    hide Reaches;
    var s1 := s.(miner := CheckingEnd);
    var s2 := s.(miner := if ended then Waiting else CheckingWork);
    NextBySolver(s, s1);
    NextBySolver(s1, s2);
    hide Next;
    ReachesNext(st, s, s1);
    ReachesNext(st, s1, s2);
    if !ended {
      TestsAreMade(st, s2);
    }
  }

  lemma TestsAreMade(st: State, s: State)
    requires Reaches(st, s) && s.miner == CheckingWork
    ensures Reaches(st, s.(miner := if s.workReady || s.pauseMining then Waiting else Starting))
  {
    hide Reaches;
    var s1 := s.(miner := if s.workReady then Waiting else CheckingPause);
    var s2 := s.(miner := if s.pauseMining then Waiting else Starting);
    NextBySolver(s, s1);
    hide Next;
    ReachesNext(st, s, s1);
    if !s.workReady {
      NextBySolver(s1, s2);
      ReachesNext(st, s1, s2);
    }
  }

  lemma NextBySolver(st: State, st': State)
    ensures SolveStep(st, st') ==> Next(st, st')
  {
    hide *;
    StepKinds(st, st');
  }

  /** A thread told to end ends where it waits and where it would begin a solve. */
  lemma ThreadEnds(st: State)
    requires st.miner == Waiting || st.miner == Starting
    ensures Reaches(st, st.(miner := Stopped))
  {
    hide Reaches;
    NextBySolver(st, st.(miner := Stopped));
    hide Next;
    ReachesSelf(st);
    ReachesNext(st, st, st.(miner := Stopped));
  }
}
