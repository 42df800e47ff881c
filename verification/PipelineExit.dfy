/** How the pipeline ends: the worker thread's exit and the closing of a hidden window. */
module PipelineExit {
  import opened Words
  import opened ThreadWorker
  import P = Pipeline
  import opened Pipeline
  import opened PipelineSafety

  // ---- The worker thread ----

  /** The provider is taken down after the window, and its stop job is the last one. */
  ghost predicate StopInv(s: System) {
    && (Deinit in s.w.added ==> s.win.destroyed)
    && (Stop in s.w.added ==> Deinit in s.w.added)
    && StopIsLast(s.w.added)
  }

  lemma StepKeepsStopInv(s: System, a: Action)
    requires Inv(s) && StopInv(s) && P.Enabled(s, a)
    ensures StopInv(P.Next(s, a))
  {
    var n := P.Next(s, a);
    if |n.w.added| > |s.w.added| {
      assert n.w.added[..|s.w.added|] == s.w.added;
    }
  }

  lemma {:induction false} RunKeepsStopInv(s: System, run: seq<Action>)
    requires Inv(s) && StopInv(s) && P.Exec(s, run).Some?
    ensures StopInv(P.Exec(s, run).value)
    decreases |run|
  {
    if run == [] {
    } else {
      StepKeepsInv(s, run[0]);
      StepKeepsStopInv(s, run[0]);
      RunKeepsStopInv(P.Next(s, run[0]), run[1..]);
    }
  }

  /** The thread leaves only after every job ever queued ran once, in order, with both
      queues empty, the window gone and every marshaller freed. */
  lemma ThreadExitIsClean(s: System)
    requires Reachable(s) && s.w.exited
    ensures s.w.executed == s.w.added && s.w.queue1 == [] && s.w.queue2 == []
    ensures s.win.destroyed && |s.win.freedTasks| == |s.win.tasks|
  {
    var run :| P.Exec(INITIAL, run) == Some(s);
    InitiallyInv();
    RunKeepsStopInv(INITIAL, run);
    ReachableInv(s);
    ExitMeansAllDone(s.w);
    assert Stop in s.w.added;
  }

  // ---- Closing ----

  /** Marshaller i will post a close message when its callback runs. */
  predicate PendingClose(m: Window, i: int) {
    && |m.freedTasks| <= i < |m.tasks| && m.tasks[i].kind.Close? && !m.tasks[i].canceled
    && !(m.busy.Callback? && m.busy.id == i)
  }

  /** A close message is posted, or a live close task will post one. */
  ghost predicate CloseComing(m: Window) {
    m.posted > 0 || exists i :: PendingClose(m, i)
  }

  /** A close message is handled. */
  predicate IsClose(a: Action) {
    a.UserClose? || a.PostedClose?
  }

  lemma OtherStepsKeepTasks(s: System, a: Action)
    requires P.Enabled(s, a) && a != Refresh && !IsClose(a)
    ensures s.win.tasks <= P.Next(s, a).win.tasks
  {
  }

  /** A step keeps a pending close task or turns it into a posted message. */
  lemma PendingCloseGoesOn(s: System, a: Action, i: int)
    requires Inv(s) && P.Enabled(s, a) && PendingClose(s.win, i) && a != Refresh && !IsClose(a)
    ensures CloseComing(P.Next(s, a).win)
  {
    var n := P.Next(s, a).win;
    OtherStepsKeepTasks(s, a);
    if a == FinishCallback {
      UnregistersFront(s);
    }
    if i < |n.tasks| && n.posted == 0 {
      assert n.tasks[i] == s.win.tasks[i];
      assert PendingClose(n, i);
    }
  }

  lemma RefreshAsksNothing(s: System, i: int)
    requires Inv(s) && P.Enabled(s, Refresh)
    ensures !PendingClose(P.Next(s, Refresh).win, i)
  {
    CancelKeepsInv(s);
  }

  /** A window that stays after a close message is closing. */
  lemma CloseAsks(s: System, a: Action)
    requires P.Enabled(s, a) && IsClose(a) && |s.win.freedTasks| <= |s.win.tasks|
    ensures P.Next(s, a).win.destroyed || CloseComing(P.Next(s, a).win)
  {
    if !P.Next(s, a).win.destroyed {
      assert PendingClose(P.Next(s, a).win, |s.win.tasks|);
    }
  }

  /** While a window that asked to close is still there, one thing alone makes it forget:
      new results are swapped in before the close task has posted its message. */
  lemma CloseIsKeptExactly(s: System, a: Action)
    requires Inv(s) && P.Enabled(s, a) && !s.win.destroyed && CloseComing(s.win)
    ensures P.Next(s, a).win.destroyed || CloseComing(P.Next(s, a).win) <==> !(a == Refresh && s.win.posted == 0)
  {
    if a == Refresh {
      forall i ensures !PendingClose(P.Next(s, a).win, i) {
        RefreshAsksNothing(s, i);
      }
    } else if IsClose(a) {
      CloseAsks(s, a);
    } else if s.win.posted == 0 {
      var i :| PendingClose(s.win, i);
      PendingCloseGoesOn(s, a, i);
    }
  }

  lemma FinishAsksNothing(s: System, i: int)
    requires Inv(s) && P.Enabled(s, FinishCallback) && !PendingClose(s.win, i)
    ensures !PendingClose(P.Next(s, FinishCallback).win, i)
  {
    UnregistersFront(s);
  }

  /** The marshallers a step leaves, or adds, ask for nothing. */
  lemma OthersAskNothing(s: System, a: Action, i: int)
    requires P.Enabled(s, a) && !IsClose(a) && !a.Refresh? && !a.FinishCallback?
    requires s.win.busy.Callback? ==> P.Next(s, a).win.busy == s.win.busy
    requires P.Next(s, a).win.freedTasks == s.win.freedTasks && !PendingClose(s.win, i)
    ensures !PendingClose(P.Next(s, a).win, i)
  {
    OtherStepsKeepTasks(s, a);
  }

  lemma OthersKeepCallback(s: System, a: Action)
    requires P.Enabled(s, a) && !IsClose(a) && !a.Refresh? && !a.FinishCallback?
    ensures s.win.busy.Callback? ==> P.Next(s, a).win.busy == s.win.busy
    ensures P.Next(s, a).win.freedTasks == s.win.freedTasks
  {
  }

  /** Only a close message makes the window closing. */
  lemma OnlyCloseAsks(s: System, a: Action, i: int)
    requires Inv(s) && P.Enabled(s, a) && !IsClose(a) && !PendingClose(s.win, i)
    ensures !PendingClose(P.Next(s, a).win, i)
  {
    if a.Refresh? {
      RefreshAsksNothing(s, i);
    } else if a.FinishCallback? {
      FinishAsksNothing(s, i);
    } else {
      OthersKeepCallback(s, a);
      OthersAskNothing(s, a, i);
    }
  }

  lemma NobodyElseAsks(s: System, a: Action)
    requires Inv(s) && P.Enabled(s, a) && !IsClose(a) && !CloseComing(s.win)
    ensures !CloseComing(P.Next(s, a).win)
  {
    forall i ensures !PendingClose(P.Next(s, a).win, i) {
      OnlyCloseAsks(s, a, i);
    }
    if a == BeginIdle && s.win.idle[0].Finish? {
      BegunIsRegistered(s);
      assert !PendingClose(s.win, s.win.idle[0].id);
    }
  }

  /** A task about to begin is not freed and is not the one that runs. */
  lemma BegunIsRegistered(s: System)
    requires Inv(s) && P.Enabled(s, BeginIdle) && s.win.idle[0].Finish?
    ensures |s.win.freedTasks| <= s.win.idle[0].id < |s.win.tasks|
  {
    var id := s.win.idle[0].id;
    assert id in FinishIds(s.win.idle) && id in InFlight(s);
    var k :| 0 <= k < |s.win.dbg| && s.win.dbg[k] == id;
  }

  /** Whether a window that stayed is still closing: the last close message was not
      followed by new results that found no close message posted. */
  ghost predicate Remembers(s: System, run: seq<Action>, was: bool)
    decreases |run|
  {
    if run == [] then was
    else P.Enabled(s, run[0]) && Remembers(P.Next(s, run[0]), run[1..], StepRemembers(s, run[0], was))
  }

  predicate StepRemembers(s: System, a: Action, was: bool) {
    IsClose(a) || (was && !(a == Refresh && s.win.posted == 0))
  }

  lemma StepClosing(s: System, a: Action)
    requires Inv(s) && P.Enabled(s, a) && !P.Next(s, a).win.destroyed
    ensures !s.win.destroyed
    ensures CloseComing(P.Next(s, a).win) <==> StepRemembers(s, a, CloseComing(s.win))
  {
    if IsClose(a) {
      CloseAsks(s, a);
    } else if CloseComing(s.win) {
      CloseIsKeptExactly(s, a);
    } else {
      NobodyElseAsks(s, a);
    }
  }

  /** A destroyed window stays destroyed. */
  lemma {:induction false} GoneForGood(s: System, run: seq<Action>)
    requires P.Exec(s, run).Some? && s.win.destroyed
    ensures P.Exec(s, run).value.win.destroyed
    decreases |run|
  {
    if run == [] {
    } else {
      GoneForGood(P.Next(s, run[0]), run[1..]);
    }
  }

  /** Over every run that leaves the window in place: a close message is posted or still
      to come exactly when the run remembers one. */
  lemma {:induction false} ClosingExactly(s: System, run: seq<Action>)
    requires Inv(s) && P.Exec(s, run).Some? && !P.Exec(s, run).value.win.destroyed
    ensures CloseComing(P.Exec(s, run).value.win) <==> Remembers(s, run, CloseComing(s.win))
    decreases |run|
  {
    if run == [] {
    } else {
      var n := P.Next(s, run[0]);
      StepKeepsInv(s, run[0]);
      if n.win.destroyed {
        GoneForGood(n, run[1..]);
      }
      StepClosing(s, run[0]);
      ClosingExactly(n, run[1..]);
    }
  }

  predicate Quiet(m: Window) {
    Idling(m) && m.idle == [] && m.dbg == []
  }

  lemma QuietMeansPosted(s: System)
    requires Inv(s) && Quiet(s.win)
    ensures CloseComing(s.win) <==> s.win.posted > 0
    ensures P.Enabled(s, UserClose) && P.Next(s, UserClose).win.destroyed
    ensures s.win.posted > 0 ==> P.Enabled(s, PostedClose) && P.Next(s, PostedClose).win.destroyed
  {
  }

  lemma NotClosingInitially()
    ensures !CloseComing(INITIAL.win)
  {
  }

  /** A window with nothing left to do closes at the next close message, and such a
      message is posted if and only if the run that led there remembers a close request. */
  lemma QuietWindowClosesExactly(s: System, run: seq<Action>)
    requires P.Exec(INITIAL, run) == Some(s) && Quiet(s.win)
    ensures P.Enabled(s, UserClose) && P.Next(s, UserClose).win.destroyed
    ensures s.win.posted > 0 <==> Remembers(INITIAL, run, false)
    ensures s.win.posted > 0 ==> P.Enabled(s, PostedClose) && P.Next(s, PostedClose).win.destroyed
  {
    InitiallyInv();
    RunKeepsInv(INITIAL, run);
    NotClosingInitially();
    ClosingExactly(INITIAL, run);
    QuietMeansPosted(s);
  }

  // ---- A close request can be lost ----

  lemma {:induction false} ExecAppend(s: System, run: seq<Action>, a: Action)
    requires P.Exec(s, run).Some? && P.Enabled(P.Exec(s, run).value, a)
    ensures P.Exec(s, run + [a]) == Some(P.Next(P.Exec(s, run).value, a))
    decreases |run|
  {
    if run == [] {
      assert [a][1..] == [];
    } else {
      assert (run + [a])[1..] == run[1..] + [a];
      ExecAppend(P.Next(s, run[0]), run[1..], a);
    }
  }

  lemma TakeStep(s: System, a: Action) returns (n: System)
    requires Reachable(s) && P.Enabled(s, a)
    ensures n == P.Next(s, a) && Reachable(n)
  {
    var run :| P.Exec(INITIAL, run) == Some(s);
    ExecAppend(INITIAL, run, a);
    n := P.Next(s, a);
  }

  const CLOSING: seq<Marshaller> := [Marshaller(Close, false)]
  const REPLACED: seq<Marshaller> := [Marshaller(Close, true), Marshaller(Deletion(0), false)]

  /** The user closes the window before the files of the command line are opened. */
  lemma UserCloses() returns (s: System)
    ensures Reachable(s) && s.phase == INITIAL.phase && s.w == AddTask(INITIAL.w, Task(0))
    ensures s.win == NEW_WINDOW.(tasks := CLOSING, dbg := [0], hidden := true)
  {
    assert P.Exec(INITIAL, []) == Some(INITIAL);
    s := TakeStep(INITIAL, UserClose);
    s := TakeStep(s, Enqueue);
  }

  lemma LoopDrains() returns (s: System)
    ensures Reachable(s) && s.phase == INITIAL.phase && s.w == AddTask(INITIAL.w, Task(0))
    ensures s.win == NEW_WINDOW.(tasks := CLOSING, dbg := [0], hidden := true, idle := [], busy := Opening,
                                 loop := Serving, wakes := 0)
  {
    s := UserCloses();
    s := TakeStep(s, WmNull);
    s := TakeStep(s, BeginIdle);
  }

  /** The files are opened: the new results cancel the close task. */
  lemma FilesOpen() returns (s: System)
    ensures Reachable(s) && s.phase == INITIAL.phase && s.w == AddTask(AddTask(INITIAL.w, Task(0)), Task(1))
    ensures s.win == NEW_WINDOW.(tasks := REPLACED, dbg := [0, 1], hidden := true, idle := [], busy := Refreshing,
                                 loop := Serving, cur := 1, wakes := 0)
  {
    s := LoopDrains();
    s := TakeStep(s, Refresh);
    s := TakeStep(s, Enqueue);
  }

  /** The loop blocks, with both tasks in the worker's queue. */
  lemma LoopBlocks() returns (s: System)
    ensures Reachable(s) && Idling(s.win) && s.phase.Fetching? && !s.w.exited && s.w.queue2 == []
    ensures s.w.queue1 == [Init, Task(0), Task(1)]
    ensures s.win == NEW_WINDOW.(tasks := REPLACED, dbg := [0, 1], hidden := true, idle := [], loop := Waiting,
                                 cur := 1, wakes := 0)
  {
    s := FilesOpen();
    s := TakeStep(s, RefreshEnds);
    s := TakeStep(s, Wait);
  }

  /** The worker is about to run a task of its batch. */
  ghost predicate AtTask(s: System, pos: nat) {
    && Reachable(s) && s.phase.Fetching? && !s.w.exited && s.w.pos == pos
    && s.w.queue2 == [Init, Task(0), Task(1)] && s.win.tasks == REPLACED
  }

  lemma WorkerRunsInit(s: System) returns (n: System)
    requires Reachable(s) && s.phase.Fetching? && !s.w.exited && s.w.queue2 == []
    requires s.w.queue1 == [Init, Task(0), Task(1)] && s.win.tasks == REPLACED
    ensures AtTask(n, 1) && n.win == s.win
  {
    n := TakeStep(s, WorkerSwap);
    n := TakeStep(n, WorkerOwnJob);
  }

  lemma WorkerSkipsClose(s: System) returns (n: System)
    requires AtTask(s, 1)
    ensures AtTask(n, 2) && n.win == AddIdle(s.win, Finish(0))
  {
    n := TakeStep(s, WorkerStart);
    n := TakeStep(n, WorkerHandsBack);
  }

  lemma WorkerRunsDeletion(s: System) returns (n: System)
    requires AtTask(s, 2)
    ensures Reachable(n) && n.win == AddIdle(s.win, Finish(1))
  {
    n := TakeStep(s, WorkerStart);
    n := TakeStep(n, WorkerBodyEnds);
    n := TakeStep(n, WorkerHandsBack);
  }

  /** One turn of the loop for a task that posts nothing. */
  lemma LoopServes(s: System) returns (n: System)
    requires Reachable(s) && Idling(s.win) && s.win.wakes > 0 && s.win.loop.Waiting? && s.win.posted == 0
    requires s.win.idle != [] && s.win.idle[0].Finish? && s.win.idle[0].id < |s.win.tasks| && s.win.dbg != []
    requires s.win.tasks[s.win.idle[0].id] in REPLACED
    ensures Reachable(n) && Idling(n.win) && n.win.loop.Waiting? && n.win.posted == 0 && n.win.hidden == s.win.hidden
    ensures n.win.tasks == s.win.tasks && n.win.idle == s.win.idle[1..] && n.win.dbg == s.win.dbg[1..]
    ensures n.win.idle != [] ==> n.win.wakes > 0
  {
    n := TakeStep(s, WmNull);
    n := LoopPumps(n);
    n := TakeStep(n, BeginIdle);
    n := TakeStep(n, FinishCallback);
    n := TakeStep(n, Wait);
  }

  /** The loop takes every wake message before it calls on_idle. */
  lemma {:induction false} LoopPumps(s: System) returns (n: System)
    requires Reachable(s) && Idling(s.win) && s.win.loop.Pumping?
    ensures Reachable(n) && n.win == s.win.(wakes := 0)
    decreases s.win.wakes
  {
    n := s;
    if s.win.wakes > 0 {
      n := TakeStep(s, WmNull);
      n := LoopPumps(n);
    }
  }

  /** A reachable state with the window hidden, nothing pending and no close message
      posted: the window stays. */
  lemma HiddenWindowCanStay()
    ensures exists s :: Reachable(s) && s.win.hidden && s.win.loop.Waiting? && Quiet(s.win) && !CloseComing(s.win)
  {
    var s := LoopBlocks();
    s := WorkerRunsInit(s);
    s := WorkerSkipsClose(s);
    s := WorkerRunsDeletion(s);
    s := LoopServes(s);
    s := LoopServes(s);
    assert Quiet(s.win) && s.win.hidden;
  }
}
