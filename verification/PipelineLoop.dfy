/** The message loop of the main thread: it never blocks on a waiting task, and it has
    only so many close messages to handle. */
module PipelineLoop {
  import opened Words
  import opened ThreadWorker
  import P = Pipeline
  import opened Pipeline
  import opened PipelineSafety
  import opened PipelineExit

  // ---- The loop is woken ----

  /** Tasks run inside on_idle; a blocked loop is in the middle of nothing, and if a task
      waits, so does a wake message. */
  predicate LoopInv(m: Window) {
    && (m.busy.Opening? || m.busy.Callback? ==> m.loop.Serving?)
    && (m.loop.Waiting? ==> m.busy.Ready? && m.adding.None? && (m.idle != [] ==> m.wakes > 0))
  }

  lemma StepKeepsLoopInv(s: System, a: Action)
    requires P.Enabled(s, a) && LoopInv(s.win)
    ensures LoopInv(P.Next(s, a).win)
  {
  }

  lemma {:induction false} RunKeepsLoopInv(s: System, run: seq<Action>)
    requires P.Exec(s, run).Some? && LoopInv(s.win)
    ensures LoopInv(P.Exec(s, run).value.win)
    decreases |run|
  {
    if run == [] {
    } else {
      StepKeepsLoopInv(s, run[0]);
      RunKeepsLoopInv(P.Next(s, run[0]), run[1..]);
    }
  }

  /** Whenever the loop blocks while a task waits, a message is there to wake it. */
  lemma BlockedIsWoken(s: System)
    requires Reachable(s) && s.win.loop.Waiting? && s.win.idle != []
    ensures s.win.wakes > 0 && P.Enabled(s, WmNull) && P.Next(s, WmNull).win.loop.Pumping?
  {
    var run :| P.Exec(INITIAL, run) == Some(s);
    RunKeepsLoopInv(INITIAL, run);
    ReachableInv(s);
  }

  // ---- One live close task ----

  predicate LiveClose(m: Window, i: int) {
    |m.freedTasks| <= i < |m.tasks| && m.tasks[i].kind.Close? && !m.tasks[i].canceled
  }

  ghost predicate OneClose(m: Window) {
    forall i, j :: LiveClose(m, i) && LiveClose(m, j) ==> i == j
  }

  /** Handling a close message cancels every close task but its own. */
  lemma CloseIsOnly(s: System, a: Action)
    requires Inv(s) && P.Enabled(s, a) && IsClose(a)
    ensures forall i :: LiveClose(P.Next(s, a).win, i) ==> i == |s.win.tasks|
  {
    CancelKeepsInv(s);
  }

  lemma StepKeepsOneClose(s: System, a: Action)
    requires Inv(s) && P.Enabled(s, a) && OneClose(s.win)
    ensures OneClose(P.Next(s, a).win)
  {
    if IsClose(a) {
      CloseIsOnly(s, a);
    } else {
      forall i | LiveClose(P.Next(s, a).win, i) ensures LiveClose(s.win, i) {
        NoNewClose(s, a, i);
      }
    }
  }

  lemma RefreshLeavesNone(s: System, i: int)
    requires Inv(s) && P.Enabled(s, Refresh)
    ensures !LiveClose(P.Next(s, Refresh).win, i)
  {
    CancelKeepsInv(s);
  }

  lemma NoNewClose(s: System, a: Action, i: int)
    requires Inv(s) && P.Enabled(s, a) && !IsClose(a) && LiveClose(P.Next(s, a).win, i)
    ensures LiveClose(s.win, i)
  {
    if a.Refresh? {
      RefreshLeavesNone(s, i);
    } else {
      OtherStepsKeepTasks(s, a);
      FreedGrows(s, a);
    }
  }

  lemma FreedGrows(s: System, a: Action)
    requires P.Enabled(s, a)
    ensures |s.win.freedTasks| <= |P.Next(s, a).win.freedTasks|
  {
  }

  // ---- The close messages still to be handled ----

  /** The close task is the last thing under way: nothing is registered or idle behind it. */
  ghost predicate LastClose(m: Window) {
    && PendingClose(m, |m.tasks| - 1)
    && forall j, k :: 0 <= j < k < |m.idle| && m.idle[j] == Finish(|m.tasks| - 1) ==> !m.idle[k].Open?
  }

  /** Nothing is left but the end of the running callback. */
  predicate NearlyDone(m: Window) {
    m.idle == [] && m.adding.None? && m.dbg == if m.busy.Callback? then [m.busy.id] else []
  }

  ghost function Stage(m: Window): nat {
    if NearlyDone(m) then 0
    else if LastClose(m) then 1
    else if exists i :: PendingClose(m, i) then 3
    else 2
  }

  /** How many posted close messages are still to be handled, at most, unless the user
      asks for more. */
  ghost function ClosesLeft(m: Window): nat {
    if m.destroyed then 0 else m.posted + Stage(m)
  }

  lemma IdleIdsExist(s: System)
    requires Inv(s)
    ensures forall j :: 0 <= j < |s.win.idle| && s.win.idle[j].Finish? ==> s.win.idle[j].id in s.win.dbg
    ensures forall j :: 0 <= j < |s.win.idle| && s.win.idle[j].Finish? ==> s.win.idle[j].id < |s.win.tasks|
  {
    forall j | 0 <= j < |s.win.idle| && s.win.idle[j].Finish? ensures s.win.idle[j].id in s.win.dbg {
      IdleIdIn(s.win.idle, j);
      assert s.win.idle[j].id in InFlight(s);
    }
  }

  lemma {:induction false} IdleIdIn(idle: seq<Idle>, j: nat)
    requires j < |idle| && idle[j].Finish?
    ensures idle[j].id in FinishIds(idle)
    decreases |idle|
  {
    if j > 0 {
      IdleIdIn(idle[1..], j - 1);
    }
  }

  /** After a close message that leaves the window, its task is the last one. */
  lemma CloseIsLast(s: System, m: Window)
    requires Inv(s) && m == s.win.(posted := m.posted) && |s.win.freedTasks| <= |s.win.tasks| && m.busy.Ready?
    ensures DoClose(m).destroyed || LastClose(DoClose(m))
  {
    IdleIdsExist(s);
  }

  lemma ClosesOrStays(m: Window)
    requires m.busy.Ready? && m.adding.None?
    ensures DoClose(m).destroyed || (DoClose(m).posted == m.posted && !NearlyDone(m))
  {
  }

  lemma LastCloseIsLess(m: Window, n: Window)
    requires !m.destroyed && !NearlyDone(m) && LastClose(n) && n.posted < m.posted
    ensures ClosesLeft(n) < ClosesLeft(m)
  {
  }

  lemma PostedCloseIsHandled(s: System)
    requires Inv(s) && P.Enabled(s, PostedClose)
    ensures ClosesLeft(P.Next(s, PostedClose).win) < ClosesLeft(s.win)
  {
    var m := s.win.(posted := s.win.posted - 1);
    CloseIsLast(s, m);
    ClosesOrStays(m);
    if !DoClose(m).destroyed {
      LastCloseIsLess(s.win, DoClose(m));
    }
  }

  lemma NoIdsBeginOpen(idle: seq<Idle>)
    requires FinishIds(idle) == []
    ensures idle == [] || idle[0].Open?
  {
  }

  /** The callback of the last close task leaves nothing behind. */
  lemma LastCloseBegins(s: System)
    requires Inv(s) && P.Enabled(s, BeginIdle) && LastClose(s.win)
    requires s.win.idle[0] == Finish(|s.win.tasks| - 1)
    ensures NearlyDone(P.Next(s, BeginIdle).win)
  {
    var m := s.win;
    var id := m.idle[0].id;
    assert InFlight(s)[0] == id == m.dbg[0];
    assert m.dbg == [id];
    assert |FinishIds(m.idle)| == 1 + |FinishIds(m.idle[1..])| <= |InFlight(s)|;
    var rest := m.idle[1..];
    assert FinishIds(rest) == [];
    NoIdsBeginOpen(rest);
  }

  /** The same close tasks are pending, and nothing was added behind the last one. */
  lemma SamePending(m: Window, n: Window)
    requires !m.destroyed && n.posted == m.posted
    requires forall i :: PendingClose(n, i) <==> PendingClose(m, i)
    requires (NearlyDone(m) ==> NearlyDone(n)) && (LastClose(m) ==> LastClose(n))
    ensures ClosesLeft(n) <= ClosesLeft(m)
  {
  }

  /** A task begins that is not a live close task. */
  lemma OtherBegins(s: System)
    requires Inv(s) && P.Enabled(s, BeginIdle)
    requires s.win.idle[0].Finish? ==> !LiveClose(s.win, s.win.idle[0].id)
    ensures ClosesLeft(P.Next(s, BeginIdle).win) <= ClosesLeft(s.win)
  {
    if s.win.idle[0].Finish? {
      BegunIsRegistered(s);
    }
    SamePending(s.win, P.Next(s, BeginIdle).win);
  }

  /** A live close task begins: its message replaces it. */
  lemma CloseBegins(s: System)
    requires Inv(s) && OneClose(s.win) && P.Enabled(s, BeginIdle)
    requires s.win.idle[0].Finish? && LiveClose(s.win, s.win.idle[0].id)
    ensures ClosesLeft(P.Next(s, BeginIdle).win) <= ClosesLeft(s.win)
  {
    var m, n, id := s.win, P.Next(s, BeginIdle).win, s.win.idle[0].id;
    assert PendingClose(m, id);
    forall i ensures !PendingClose(n, i) {
      assert LiveClose(n, i) ==> LiveClose(m, i);
    }
    if LastClose(m) {
      assert LiveClose(m, |m.tasks| - 1);
      LastCloseBegins(s);
    }
  }

  lemma FinishLeavesCloses(s: System)
    requires Inv(s) && P.Enabled(s, FinishCallback)
    ensures ClosesLeft(P.Next(s, FinishCallback).win) <= ClosesLeft(s.win)
  {
    UnregistersFront(s);
    SamePending(s.win, P.Next(s, FinishCallback).win);
  }

  lemma HandBackLeavesCloses(s: System)
    requires Inv(s) && P.Enabled(s, WorkerHandsBack)
    ensures ClosesLeft(P.Next(s, WorkerHandsBack).win) <= ClosesLeft(s.win)
  {
    HeldTaskIsInFlight(s);
    HeldIsNotRunning(s);
    SamePending(s.win, P.Next(s, WorkerHandsBack).win);
  }

  /** While the worker holds a task there is more under way than a callback. */
  lemma HeldIsNotRunning(s: System)
    requires Inv(s) && HoldsTask(s.w)
    ensures !NearlyDone(s.win)
  {
    RestOfBatch(s.w);
    assert |TaskIds(s.w.queue2[s.w.pos..])| > 0;
    assert |InFlight(s)| > if s.win.busy.Callback? then 1 else 0;
  }

  /** The steps that finish what was started. The others are requests of the user. */
  predicate Internal(a: Action) {
    !(a.PostOpen? || a.Refresh? || a.RequestSymbols? || a.UserClose? || a.OtherInput?)
  }

  lemma OthersLeaveCloses(s: System, a: Action)
    requires Inv(s) && P.Enabled(s, a) && Internal(a)
    requires !a.PostedClose? && !a.BeginIdle? && !a.FinishCallback? && !a.WorkerHandsBack?
    ensures ClosesLeft(P.Next(s, a).win) <= ClosesLeft(s.win)
  {
    if !s.win.destroyed {
      SamePending(s.win, P.Next(s, a).win);
    }
  }

  /** No step but a new request adds to the close messages still to be handled, and
      handling one takes it away for good. */
  lemma ClosesRunOut(s: System, a: Action)
    requires Inv(s) && OneClose(s.win) && P.Enabled(s, a) && Internal(a)
    ensures ClosesLeft(P.Next(s, a).win) <= ClosesLeft(s.win) - (if a.PostedClose? then 1 else 0)
  {
    if a.PostedClose? {
      PostedCloseIsHandled(s);
    } else if a.BeginIdle? {
      if s.win.idle[0].Finish? && LiveClose(s.win, s.win.idle[0].id) {
        CloseBegins(s);
      } else {
        OtherBegins(s);
      }
    } else if a.FinishCallback? {
      FinishLeavesCloses(s);
    } else if a.WorkerHandsBack? {
      HandBackLeavesCloses(s);
    } else {
      OthersLeaveCloses(s, a);
    }
  }
}
