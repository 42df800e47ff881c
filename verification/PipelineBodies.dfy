/** When the worker runs the body of a task: once, and exactly when the task was not
    cancelled at the moment the worker took it up. */
module PipelineBodies {
  import opened Words
  import opened ThreadWorker
  import P = Pipeline
  import opened Pipeline
  import opened PipelineSafety

  // ---- Which tasks have been handed back ----

  /** Task t has left the worker: it waits in the idle queue, its main-thread half runs,
      or it has been freed. */
  ghost predicate HasReturned(m: Window, t: nat) {
    t in m.freedTasks || (m.busy.Callback? && m.busy.id == t) || Finish(t) in m.idle
  }

  /** How many tasks have left the worker. */
  function Returned(m: Window): nat {
    |m.freedTasks| + (if m.busy.Callback? then 1 else 0) + |FinishIds(m.idle)|
  }

  lemma {:induction false} InFinishIds(idle: seq<Idle>, t: nat)
    ensures t in FinishIds(idle) <==> Finish(t) in idle
    decreases |idle|
  {
    if idle == [] {
    } else {
      InFinishIds(idle[1..], t);
      assert idle == [idle[0]] + idle[1..];
    }
  }

  /** The registered tasks that have left the worker are the first ones. */
  lemma ReturnedIds(s: System)
    requires Inv(s)
    ensures Returned(s.win) <= |s.win.tasks|
    ensures var first := if s.win.busy.Callback? then [s.win.busy.id] else [];
            first + FinishIds(s.win.idle) == Range(|s.win.freedTasks|, Returned(s.win))
  {
    var m := s.win;
    var first := if m.busy.Callback? then [m.busy.id] else [];
    var n := |first + FinishIds(m.idle)|;
    assert |InFlight(s)| >= n;
    assert InFlight(s)[..n] == first + FinishIds(m.idle);
  }

  lemma HasReturnedExactly(s: System, t: nat)
    requires Inv(s)
    ensures HasReturned(s.win, t) <==> t < Returned(s.win)
  {
    var m := s.win;
    var first := if m.busy.Callback? then [m.busy.id] else [];
    var r := first + FinishIds(m.idle);
    ReturnedIds(s);
    InFinishIds(m.idle, t);
    if |m.freedTasks| <= t < Returned(m) {
      assert r[t - |m.freedTasks|] == t;
    }
    if t < |m.freedTasks| {
      assert m.freedTasks[t] == t;
    }
    assert t in r ==> |m.freedTasks| <= t < Returned(m);
  }

  /** The worker holds the first task that has not left it. */
  lemma HeldIsNext(s: System)
    requires Inv(s) && HoldsTask(s.w)
    ensures s.w.queue2[s.w.pos].id == Returned(s.win) < |s.win.tasks|
  {
    var m := s.win;
    var n := Returned(m) - |m.freedTasks|;
    RestOfBatch(s.w);
    assert InFlight(s)[n] == s.w.queue2[s.w.pos].id;
    assert m.dbg[n] == Returned(m);
  }

  lemma MainReturnedStep(s: System, a: Action)
    requires Inv(s) && P.Enabled(s, a) && (a.BeginIdle? || a.FinishCallback? || a.PostOpen?)
    ensures Returned(P.Next(s, a).win) == Returned(s.win)
  {
    if a.PostOpen? {
      FinishIdsAppend(s.win.idle, Open);
    }
  }

  lemma ReturnedStep(s: System, a: Action)
    requires Inv(s) && P.Enabled(s, a)
    ensures Returned(P.Next(s, a).win) == Returned(s.win) + (if a.WorkerHandsBack? then 1 else 0)
  {
    if a.WorkerHandsBack? {
      FinishIdsAppend(s.win.idle, Finish(s.w.queue2[s.w.pos].id));
    } else if a.BeginIdle? || a.FinishCallback? || a.PostOpen? {
      MainReturnedStep(s, a);
    }
  }

  /** A cancelled task stays cancelled. */
  lemma CancelSticks(s: System, a: Action, t: nat)
    requires P.Enabled(s, a) && t < |s.win.tasks|
    ensures t < |P.Next(s, a).win.tasks|
    ensures s.win.tasks[t].canceled ==> P.Next(s, a).win.tasks[t].canceled
  {
  }

  // ---- What every step keeps ----

  ghost predicate RanOrCanceled(s: System, t: nat) {
    t in s.ran || (t < |s.win.tasks| && s.win.tasks[t].canceled)
  }

  /** A body has run at most once, and only of tasks that have left the worker or are
      about to; a task that left it without was cancelled. */
  ghost predicate BodyInv(s: System) {
    && Distinct(s.ran)
    && (forall t :: t in s.ran ==> t < Returned(s.win) || (t == Returned(s.win) && s.phase.BodyDone?))
    && (forall t :: 0 <= t < Returned(s.win) ==> RanOrCanceled(s, t))
    && (s.phase.BodyDone? ==> RanOrCanceled(s, Returned(s.win)))
  }

  lemma StillRanOrCanceled(s: System, a: Action, t: nat)
    requires P.Enabled(s, a) && RanOrCanceled(s, t)
    ensures RanOrCanceled(P.Next(s, a), t)
  {
    if t !in s.ran {
      CancelSticks(s, a, t);
    }
  }

  lemma BodyEndsKeepsBodyInv(s: System)
    requires Inv(s) && BodyInv(s) && P.Enabled(s, WorkerBodyEnds)
    ensures BodyInv(P.Next(s, WorkerBodyEnds))
  {
    var n := P.Next(s, WorkerBodyEnds);
    HeldIsNext(s);
    ReturnedStep(s, WorkerBodyEnds);
    forall t | 0 <= t < Returned(n.win) ensures RanOrCanceled(n, t) {
      StillRanOrCanceled(s, WorkerBodyEnds, t);
    }
    assert n.ran[|s.ran|] == Returned(n.win);
    forall i | 0 <= i < |s.ran| ensures s.ran[i] < Returned(s.win) {
      assert s.ran[i] in s.ran;
    }
  }

  lemma StartKeepsBodyInv(s: System)
    requires Inv(s) && BodyInv(s) && P.Enabled(s, WorkerStart)
    ensures BodyInv(P.Next(s, WorkerStart))
  {
    var n := P.Next(s, WorkerStart);
    HeldIsNext(s);
    ReturnedStep(s, WorkerStart);
    forall t | 0 <= t < Returned(n.win) ensures RanOrCanceled(n, t) {
      StillRanOrCanceled(s, WorkerStart, t);
    }
  }

  /** Every step but those two leaves the bodies alone. */
  lemma OthersKeepBodyInv(s: System, a: Action)
    requires Inv(s) && BodyInv(s) && P.Enabled(s, a) && !a.WorkerBodyEnds? && !a.WorkerStart?
    ensures BodyInv(P.Next(s, a))
  {
    var n := P.Next(s, a);
    ReturnedStep(s, a);
    forall t | 0 <= t < Returned(n.win) || (n.phase.BodyDone? && t == Returned(n.win)) ensures RanOrCanceled(n, t) {
      assert RanOrCanceled(s, t);
      StillRanOrCanceled(s, a, t);
    }
  }

  lemma StepKeepsBodyInv(s: System, a: Action)
    requires Inv(s) && BodyInv(s) && P.Enabled(s, a)
    ensures BodyInv(P.Next(s, a))
  {
    if a.WorkerBodyEnds? {
      BodyEndsKeepsBodyInv(s);
    } else if a.WorkerStart? {
      StartKeepsBodyInv(s);
    } else {
      OthersKeepBodyInv(s, a);
    }
  }

  lemma {:induction false} RunKeepsBodyInv(s: System, run: seq<Action>)
    requires Inv(s) && BodyInv(s) && P.Exec(s, run).Some?
    ensures Inv(P.Exec(s, run).value) && BodyInv(P.Exec(s, run).value)
    decreases |run|
  {
    if run == [] {
    } else {
      StepKeepsInv(s, run[0]);
      StepKeepsBodyInv(s, run[0]);
      RunKeepsBodyInv(P.Next(s, run[0]), run[1..]);
    }
  }

  lemma ReachableBodyInv(s: System)
    requires Reachable(s)
    ensures Inv(s) && BodyInv(s)
  {
    var run :| P.Exec(INITIAL, run) == Some(s);
    InitiallyInv();
    assert FinishIds(NEW_WINDOW.idle) == [] + FinishIds([]);
    RunKeepsBodyInv(INITIAL, run);
  }

  // ---- The results ----

  /** In every reachable state each body has run at most once; a task that has left the
      worker without its body was cancelled; and a live callback on the main thread
      belongs to a task whose body has run. */
  lemma BodiesRanOnce(s: System)
    requires Reachable(s)
    ensures Distinct(s.ran)
    ensures forall t: nat :: HasReturned(s.win, t) ==> t in s.ran || (t < |s.win.tasks| && s.win.tasks[t].canceled)
    ensures s.win.busy.Callback? && s.win.busy.live ==> s.win.busy.id in s.ran
    ensures s.phase.InBody? ==> HoldsTask(s.w) && s.w.queue2[s.w.pos].id !in s.ran
  {
    ReachableBodyInv(s);
    forall t: nat | HasReturned(s.win, t) ensures RanOrCanceled(s, t) {
      HasReturnedExactly(s, t);
    }
    if s.phase.InBody? {
      HeldIsNext(s);
    }
    if s.win.busy.Callback? {
      assert HasReturned(s.win, s.win.busy.id);
    }
  }

  /** A body is entered by one step only, and by every task that is not cancelled then. */
  lemma BodyIsEnteredExactly(s: System, a: Action)
    requires Inv(s) && P.Enabled(s, a) && !s.phase.InBody?
    ensures P.Next(s, a).phase.InBody? <==>
              a.WorkerStart? && !s.win.tasks[s.w.queue2[s.w.pos].id].canceled
  {
  }

  /** Task t on its way through the worker, which found it live or not. */
  ghost predicate Passing(s: System, t: nat, live: bool) {
    || (t == Returned(s.win) && s.phase.InBody? && live && t !in s.ran)
    || (t == Returned(s.win) && s.phase.BodyDone? && (t in s.ran <==> live))
    || (t < Returned(s.win) && (t in s.ran <==> live))
  }

  lemma StepKeepsPassing(s: System, a: Action, t: nat, live: bool)
    requires Inv(s) && P.Enabled(s, a) && Passing(s, t, live)
    ensures Passing(P.Next(s, a), t, live)
  {
    ReturnedStep(s, a);
    if !s.phase.Fetching? {
      HeldIsNext(s);
    }
  }

  lemma {:induction false} RunKeepsPassing(s: System, run: seq<Action>, t: nat, live: bool)
    requires Inv(s) && P.Exec(s, run).Some? && Passing(s, t, live)
    ensures Inv(P.Exec(s, run).value) && Passing(P.Exec(s, run).value, t, live)
    decreases |run|
  {
    if run == [] {
    } else {
      StepKeepsInv(s, run[0]);
      StepKeepsPassing(s, run[0], t, live);
      RunKeepsPassing(P.Next(s, run[0]), run[1..], t, live);
    }
  }

  /** Over every run: once a task has been handed back, its body has run if and only if
      the task was not cancelled when the worker took it up. */
  lemma BodyRunsExactly(s: System, run: seq<Action>, n: System, t: nat)
    requires Reachable(s) && P.Enabled(s, WorkerStart) && s.w.queue2[s.w.pos] == Task(t)
    requires P.Exec(P.Next(s, WorkerStart), run) == Some(n) && HasReturned(n.win, t)
    ensures t in n.ran <==> !s.win.tasks[t].canceled
  {
    ReachableBodyInv(s);
    HeldIsNext(s);
    StepKeepsInv(s, WorkerStart);
    ReturnedStep(s, WorkerStart);
    var live := !s.win.tasks[t].canceled;
    assert Passing(P.Next(s, WorkerStart), t, live);
    RunKeepsPassing(P.Next(s, WorkerStart), run, t, live);
    HasReturnedExactly(n, t);
  }
}
