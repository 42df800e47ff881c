/** The pipeline does not get stuck: without new requests it comes to rest, and at rest
    nothing is left to do. */
module PipelineProgress {
  import opened Words
  import opened ThreadWorker
  import P = Pipeline
  import opened Pipeline
  import opened PipelineSafety
  import opened PipelineExit
  import opened PipelineLoop

  /** Nothing is left to finish. */
  ghost predicate AtRest(s: System) {
    forall a :: P.Enabled(s, a) ==> !Internal(a)
  }

  predicate Measurable(s: System) {
    s.w.pos <= |s.w.queue2| && (!s.phase.Fetching? ==> s.w.pos < |s.w.queue2|)
  }

  /** The worker's part of the steps left: each stage a job has still to pass weighs one
      or more. */
  function WorkerWork(w: Worker, phase: Phase): nat
    requires w.pos <= |w.queue2| && (!phase.Fetching? ==> w.pos < |w.queue2|)
  {
    (if Deinit in w.added then 0 else 12) + (if Stop in w.added then 0 else 12)
    + 11 * |w.queue1|
    + 9 * |w.queue2[w.pos..]| - (match phase case Fetching => 0 case InBody => 1 case BodyDone => 2)
    + (if w.queue2 == [] then 0 else 1)
  }

  /** The main thread's part, apart from close messages. */
  function MainWork(m: Window): nat {
    (if m.adding.Some? then 12 else 0) + 4 * |m.idle| + (if m.busy.Ready? then 0 else 1)
    + 2 * m.wakes + (match m.loop case Waiting => 0 case Pumping => 1 case Serving => 3)
  }

  /** Steps left, at most. */
  ghost function Work(s: System): nat
    requires Measurable(s)
  {
    20 * ClosesLeft(s.win) + MainWork(s.win) + WorkerWork(s.w, s.phase)
  }

  /** The jobs of the batch that have not returned. */
  lemma BatchShrinks(w: Worker)
    requires CanRun(w)
    ensures |RunDone(w).queue2[RunDone(w).pos..]| == |w.queue2[w.pos..]| - 1
  {
  }

  /** A step that lowers the other parts and adds no close message. */
  ghost predicate Eases(s: System, n: System) {
    && Measurable(s) && Measurable(n)
    && MainWork(n.win) + WorkerWork(n.w, n.phase) < MainWork(s.win) + WorkerWork(s.w, s.phase)
  }

  lemma SwapEases(s: System)
    requires Inv(s) && P.Enabled(s, WorkerSwap)
    ensures Eases(s, P.Next(s, WorkerSwap))
  {
    var n := P.Next(s, WorkerSwap);
    assert n.w.queue2[n.w.pos..] == s.w.queue1 && n.w.queue1 == [];
  }

  lemma HandBackEases(s: System)
    requires Inv(s) && P.Enabled(s, WorkerHandsBack)
    ensures Eases(s, P.Next(s, WorkerHandsBack))
  {
    BatchShrinks(s.w);
    assert P.Next(s, WorkerHandsBack).w == RunDone(s.w);
  }

  lemma OwnJobEases(s: System)
    requires Inv(s) && P.Enabled(s, WorkerOwnJob)
    ensures Eases(s, P.Next(s, WorkerOwnJob))
  {
    BatchShrinks(s.w);
    assert P.Next(s, WorkerOwnJob).w == RunDone(s.w);
  }

  /** Starting a task and the end of its body; clearing the batch. */
  lemma WorkerEases(s: System, a: Action)
    requires a.WorkerStart? || a.WorkerBodyEnds? || a.WorkerClear?
    requires Inv(s) && P.Enabled(s, a)
    ensures Eases(s, P.Next(s, a))
  {
  }

  lemma AddedToo(jobs: seq<Job>, j: Job, x: Job)
    ensures x in jobs + [j] <==> x in jobs || x == j
  {
  }

  /** A new job weighs less than what it takes to add it. */
  lemma AddWeighs(w: Worker, phase: Phase, j: Job)
    requires w.pos <= |w.queue2| && (!phase.Fetching? ==> w.pos < |w.queue2|)
    ensures WorkerWork(AddTask(w, j), phase)
            == WorkerWork(w, phase) + 11 - (if (j.Deinit? || j.Stop?) && j !in w.added then 12 else 0)
  {
    AddedToo(w.added, j, Deinit);
    AddedToo(w.added, j, Stop);
  }

  lemma EnqueueEases(s: System)
    requires Inv(s) && P.Enabled(s, Enqueue)
    ensures Eases(s, P.Next(s, Enqueue))
  {
    AddWeighs(s.w, s.phase, Task(s.win.adding.value));
  }

  lemma ProviderEases(s: System, a: Action)
    requires a.ProviderDeinit? || a.ProviderStop?
    requires Inv(s) && P.Enabled(s, a)
    ensures Eases(s, P.Next(s, a))
  {
    AddWeighs(s.w, s.phase, if a.ProviderDeinit? then Deinit else Stop);
  }

  lemma MainEases(s: System, a: Action)
    requires a.BeginIdle? || a.OpenFails? || a.RefreshEnds? || a.FinishCallback? || a.WmNull? || a.Wait?
    requires Inv(s) && P.Enabled(s, a)
    ensures Eases(s, P.Next(s, a))
  {
  }

  /** Handling a close message costs less than the message weighs. */
  lemma CloseCosts(s: System)
    requires Inv(s) && P.Enabled(s, PostedClose)
    ensures Measurable(s) && Measurable(P.Next(s, PostedClose)) && P.Next(s, PostedClose).w == s.w
    ensures MainWork(P.Next(s, PostedClose).win) <= MainWork(s.win) + 13
  {
  }

  lemma OthersEase(s: System, a: Action)
    requires Inv(s) && P.Enabled(s, a) && Internal(a) && !a.PostedClose?
    ensures Eases(s, P.Next(s, a))
  {
    if a.Enqueue? {
      EnqueueEases(s);
    } else if a.ProviderDeinit? || a.ProviderStop? {
      ProviderEases(s, a);
    } else if a.WorkerSwap? {
      SwapEases(s);
    } else if a.WorkerHandsBack? {
      HandBackEases(s);
    } else if a.WorkerOwnJob? {
      OwnJobEases(s);
    } else if a.WorkerStart? || a.WorkerBodyEnds? || a.WorkerClear? {
      WorkerEases(s, a);
    } else {
      MainEases(s, a);
    }
  }

  /** Every such step gets closer to rest. */
  lemma InternalStepsWork(s: System, a: Action)
    requires Inv(s) && OneClose(s.win) && P.Enabled(s, a) && Internal(a)
    ensures Measurable(s) && Measurable(P.Next(s, a)) && Work(P.Next(s, a)) < Work(s)
  {
    ClosesRunOut(s, a);
    if a.PostedClose? {
      CloseCosts(s);
    } else {
      OthersEase(s, a);
    }
  }

  /** The states the lemmas below speak of. */
  ghost predicate Good(s: System) {
    Inv(s) && StopInv(s) && LoopInv(s.win) && OneClose(s.win)
  }

  lemma StepKeepsGood(s: System, a: Action)
    requires Good(s) && P.Enabled(s, a)
    ensures Good(P.Next(s, a))
  {
    StepKeepsInv(s, a);
    StepKeepsStopInv(s, a);
    StepKeepsLoopInv(s, a);
    StepKeepsOneClose(s, a);
  }

  lemma {:induction false} RunKeepsGood(s: System, run: seq<Action>)
    requires Good(s) && P.Exec(s, run).Some?
    ensures Good(P.Exec(s, run).value)
    decreases |run|
  {
    if run == [] {
    } else {
      StepKeepsGood(s, run[0]);
      RunKeepsGood(P.Next(s, run[0]), run[1..]);
    }
  }

  lemma InitiallyGood()
    ensures Good(INITIAL)
  {
    InitiallyInv();
  }

  lemma ReachableIsGood(s: System)
    requires Reachable(s)
    ensures Good(s)
  {
    var run :| P.Exec(INITIAL, run) == Some(s);
    InitiallyGood();
    RunKeepsGood(INITIAL, run);
  }

  /** The worker can move whenever it has something to do. */
  lemma WorkerMoves(s: System)
    requires Good(s) && !s.w.exited && (s.w.queue1 != [] || s.w.queue2 != [])
    ensures !AtRest(s)
  {
    if s.w.queue2 == [] {
      assert P.Enabled(s, WorkerSwap);
    } else if s.w.pos == |s.w.queue2| {
      assert P.Enabled(s, WorkerClear);
    } else if HoldsTask(s.w) {
      HeldTaskIsInFlight(s);
      var a := match s.phase
        case Fetching => WorkerStart
        case InBody => WorkerBodyEnds
        case BodyDone => WorkerHandsBack;
      assert P.Enabled(s, a);
    } else {
      assert P.Enabled(s, WorkerOwnJob);
    }
  }

  /** The main thread has nothing to do: its loop is blocked with no message and no task. */
  predicate Blocked(m: Window) {
    Idling(m) && m.loop.Waiting? && m.idle == [] && m.wakes == 0 && m.posted == 0
  }

  /** So can the main thread, in the middle of something. */
  lemma BusyMoves(s: System)
    requires Good(s) && !s.win.destroyed && !(s.win.adding.None? && s.win.busy.Ready?)
    ensures !AtRest(s)
  {
    if s.win.adding.Some? {
      assert P.Enabled(s, Enqueue);
    } else if s.win.busy.Opening? {
      assert P.Enabled(s, OpenFails);
    } else if s.win.busy.Refreshing? {
      assert P.Enabled(s, RefreshEnds);
    } else {
      UnregistersFront(s);
      assert P.Enabled(s, FinishCallback);
    }
  }

  /** And its message loop. */
  lemma LoopMoves(s: System)
    requires Good(s) && !s.win.destroyed && s.win.adding.None? && s.win.busy.Ready? && !Blocked(s.win)
    ensures !AtRest(s)
  {
    if s.win.wakes > 0 {
      assert P.Enabled(s, WmNull);
    } else if s.win.loop.Serving? || (Drained(s.win) && s.win.idle == []) {
      assert P.Enabled(s, Wait);
    } else if s.win.posted > 0 {
      assert P.Enabled(s, PostedClose);
    } else {
      FrontIdleExists(s);
      assert P.Enabled(s, BeginIdle);
    }
  }

  lemma WindowAtRest(s: System)
    requires Good(s) && AtRest(s) && !s.win.destroyed
    ensures Blocked(s.win) && Quiet(s.win)
  {
    if !(s.win.adding.None? && s.win.busy.Ready?) {
      BusyMoves(s);
    } else if !Blocked(s.win) {
      LoopMoves(s);
    }
    assert !s.w.exited;
    if s.w.queue1 != [] || s.w.queue2 != [] {
      WorkerMoves(s);
    }
    assert InFlight(s) == [];
  }

  /** A worker that was told to stop has something in its queues until it leaves. */
  lemma NotAllRun(s: System)
    requires Good(s) && Stop in s.w.added && !s.w.exited
    ensures s.w.queue1 + s.w.queue2 != []
  {
    assert s.w.executed + s.w.queue2[s.w.pos..] + s.w.queue1 == s.w.added;
  }

  lemma WorkerAtRest(s: System)
    requires Good(s) && AtRest(s) && s.win.destroyed
    ensures s.w.exited && s.w.executed == s.w.added && Stop in s.w.added
  {
    assert !P.Enabled(s, ProviderDeinit) && !P.Enabled(s, ProviderStop);
    if !s.w.exited {
      NotAllRun(s);
      WorkerMoves(s);
    } else {
      ExitMeansAllDone(s.w);
    }
  }

  /** No deadlock: at rest either the window is there with nothing pending and its loop
      blocked, or it is gone and the worker thread has left after running every job. */
  lemma RestMeansDone(s: System)
    requires Reachable(s) && AtRest(s)
    ensures if s.win.destroyed then s.w.exited && s.w.executed == s.w.added && Stop in s.w.added
            else Blocked(s.win) && Quiet(s.win) && !CloseComing(s.win)
  {
    ReachableIsGood(s);
    if s.win.destroyed {
      WorkerAtRest(s);
    } else {
      WindowAtRest(s);
      QuietMeansPosted(s);
    }
  }

  ghost predicate AllInternal(run: seq<Action>) {
    forall i :: 0 <= i < |run| ==> Internal(run[i])
  }

  /** Runs without new requests are finite. */
  lemma {:induction false} InternalRunsAreShort(s: System, run: seq<Action>)
    requires Good(s) && AllInternal(run) && P.Exec(s, run).Some?
    ensures Measurable(s) && |run| <= Work(s)
    decreases |run|
  {
    if run == [] {
    } else {
      StepKeepsGood(s, run[0]);
      InternalStepsWork(s, run[0]);
      InternalRunsAreShort(P.Next(s, run[0]), run[1..]);
    }
  }

  /** They keep a pending close request until the window is gone. */
  lemma {:induction false} InternalRunsKeepClosing(s: System, run: seq<Action>)
    requires Good(s) && AllInternal(run) && P.Exec(s, run).Some?
    requires s.win.destroyed || CloseComing(s.win)
    ensures var n := P.Exec(s, run).value.win; n.destroyed || CloseComing(n)
    decreases |run|
  {
    if s.win.destroyed {
      GoneForGood(s, run);
    } else if run != [] {
      StepKeepsGood(s, run[0]);
      CloseIsKeptExactly(s, run[0]);
      InternalRunsKeepClosing(P.Next(s, run[0]), run[1..]);
    }
  }

  /** A close request is honoured: from every reachable state in which it is still
      pending, all runs without new requests are bounded, and where they end the window is
      gone and the worker thread has left after running every job. */
  lemma CloseIsHonoured(s: System, run: seq<Action>)
    requires Reachable(s) && CloseComing(s.win)
    requires AllInternal(run) && P.Exec(s, run).Some?
    ensures Measurable(s) && |run| <= Work(s)
    ensures var n := P.Exec(s, run).value;
            AtRest(n) ==> n.win.destroyed && n.w.exited && n.w.executed == n.w.added
  {
    ReachableIsGood(s);
    InternalRunsAreShort(s, run);
    InternalRunsKeepClosing(s, run);
    ReachesOn(s, run);
    if AtRest(P.Exec(s, run).value) {
      RestMeansDone(P.Exec(s, run).value);
    }
  }

  lemma {:induction false} ReachesOn(s: System, run: seq<Action>)
    requires Reachable(s) && P.Exec(s, run).Some?
    ensures Reachable(P.Exec(s, run).value)
    decreases |run|
  {
    if run == [] {
    } else {
      var n := TakeStep(s, run[0]);
      ReachesOn(n, run[1..]);
    }
  }

  /** Some internal run always reaches rest. */
  lemma {:induction false} RestIsReached(s: System) returns (run: seq<Action>)
    requires Good(s)
    ensures AllInternal(run) && P.Exec(s, run).Some? && AtRest(P.Exec(s, run).value)
    decreases if Measurable(s) then Work(s) else 0
  {
    if AtRest(s) {
      run := [];
    } else {
      var a :| P.Enabled(s, a) && Internal(a);
      StepKeepsGood(s, a);
      InternalStepsWork(s, a);
      var rest := RestIsReached(P.Next(s, a));
      run := [a] + rest;
      assert run[1..] == rest;
    }
  }
}
