/** The task part of the main window, as the object the source has: each method is a
    run of main-thread steps of the pipeline. */
module MainWindow {
  import opened Words
  import W = ThreadWorker
  import P = Pipeline
  import opened Pipeline
  import S = PipelineSafety
  import X = PipelineExit

  /** n symbol requests, one after the other. */
  function SymbolRun(n: nat): seq<Action> {
    if n == 0 then [] else SymbolRun(n - 1) + [RequestSymbols, Enqueue]
  }

  /** Showing new results: the deletion of the old ones is requested, then the tree view
      requests symbol work for its nodes. */
  function RefreshRun(requests: nat): seq<Action> {
    [Action.Refresh, Enqueue] + SymbolRun(requests) + [RefreshEnds]
  }

  /** The steps a task takes once it is out of the idle queue: opening files ends in new
      results or fails; a finished symbol task may ask for one more. */
  function TaskRun(m: Window, opens: bool, requests: nat, again: bool): seq<Action> {
    match m.busy
    case Ready => []
    case Opening => if opens then RefreshRun(requests) else [OpenFails]
    case Refreshing => []
    case Callback(_, _) =>
      if again && InLiveSymbols(m) then [RequestSymbols, Enqueue, FinishCallback] else [FinishCallback]
  }

  /** The steps of a task on the worker thread when nothing comes between. */
  function WorkerRun(live: bool): seq<Action> {
    if live then [WorkerStart, WorkerBodyEnds, WorkerHandsBack] else [WorkerStart, WorkerHandsBack]
  }

  lemma WorkerRunIs(s: System)
    requires P.Enabled(s, WorkerStart)
    ensures var live := !s.win.tasks[s.w.queue2[s.w.pos].id].canceled;
            var t := P.Next(s, WorkerStart);
            && (live ==> P.Enabled(t, WorkerBodyEnds) && P.Enabled(P.Next(t, WorkerBodyEnds), WorkerHandsBack)
                         && P.Exec(s, WorkerRun(live)) == Some(P.Next(P.Next(t, WorkerBodyEnds), WorkerHandsBack)))
            && (!live ==> P.Enabled(t, WorkerHandsBack)
                          && P.Exec(s, WorkerRun(live)) == Some(P.Next(t, WorkerHandsBack)))
  {
    var t := P.Next(s, WorkerStart);
    if s.win.tasks[s.w.queue2[s.w.pos].id].canceled {
      ExecTwo(s, WorkerStart, WorkerHandsBack);
    } else {
      ExecCons(s, WorkerStart, [WorkerBodyEnds, WorkerHandsBack]);
      ExecTwo(t, WorkerBodyEnds, WorkerHandsBack);
    }
  }

  function CloseAction(queued: bool): Action {
    if queued then PostedClose else UserClose
  }

  lemma ExecOne(s: System, a: Action)
    requires P.Enabled(s, a)
    ensures P.Exec(s, [a]) == Some(P.Next(s, a))
  {
    assert [a][1..] == [];
  }

  lemma ExecCons(s: System, a: Action, run: seq<Action>)
    requires P.Enabled(s, a)
    ensures P.Exec(s, [a] + run) == P.Exec(P.Next(s, a), run)
  {
    assert ([a] + run)[1..] == run;
  }

  lemma ExecTwo(s: System, a: Action, b: Action)
    requires P.Enabled(s, a) && P.Enabled(P.Next(s, a), b)
    ensures P.Exec(s, [a, b]) == Some(P.Next(P.Next(s, a), b))
  {
    ExecCons(s, a, [b]);
    ExecOne(P.Next(s, a), b);
  }

  /** Every registered id names a marshaller. */
  predicate RegisteredExist(m: Window) {
    forall k :: 0 <= k < |m.dbg| ==> m.dbg[k] < |m.tasks|
  }

  lemma InvRegisteredExist(s: System)
    requires Inv(s)
    ensures RegisteredExist(s.win)
  {
  }

  /** on_wm_close once it has cancelled every task. */
  function Cancelled(m: Window, queued: bool): Window
    requires queued ==> m.posted > 0
  {
    Woken(m).(tasks := CancelAll(m.tasks, m.dbg), posted := if queued then m.posted - 1 else m.posted)
  }

  /** A cancelled window goes away, or it is hidden and its close task queued. */
  function CloseOutcome(s: System): System {
    if s.win.idle == [] && s.win.dbg == [] then s.(win := s.win.(destroyed := true))
    else RequestOutcome(s.(win := s.win.(hidden := true)), Close)
  }

  /** A new marshaller is registered and its task queued. */
  function RequestOutcome(s: System, k: Kind): System {
    s.(win := Register(s.win, k).(adding := None), w := W.AddTask(s.w, W.Task(|s.win.tasks|)))
  }

  lemma CloseIsStep(s: System, queued: bool)
    requires P.Enabled(s, CloseAction(queued))
    ensures var c := Cancelled(s.win, queued);
            P.Next(s, CloseAction(queued)).win
            == if s.win.idle == [] && s.win.dbg == [] then c.(destroyed := true)
               else Register(c.(hidden := true), Close)
    ensures P.Next(s, CloseAction(queued)) == s.(win := P.Next(s, CloseAction(queued)).win)
  {
  }

  lemma CloseIsRun(s: System, queued: bool)
    requires P.Enabled(s, CloseAction(queued))
    ensures var a := CloseAction(queued);
            var run := if s.win.idle == [] && s.win.dbg == [] then [a] else [a, Enqueue];
            P.Exec(s, run) == Some(CloseOutcome(s.(win := Cancelled(s.win, queued))))
  {
    CloseIsStep(s, queued);
    if s.win.idle == [] && s.win.dbg == [] {
      ExecOne(s, CloseAction(queued));
    } else {
      ExecTwo(s, CloseAction(queued), Enqueue);
    }
  }

  /** What refresh leaves behind before the tree view is refreshed, with its deletion queued. */
  function RefreshOutcome(s: System): System {
    RequestOutcome(s.(win := Replaced(s.win)), Deletion(s.win.cur))
  }

  /** refresh once it has cancelled every task and swapped in the new results. */
  function Replaced(m: Window): Window {
    Woken(m).(tasks := CancelAll(m.tasks, m.dbg), cur := m.cur + 1, busy := Refreshing)
  }

  lemma RefreshIsRun(s: System)
    requires P.Enabled(s, Action.Refresh)
    ensures P.Exec(s, [Action.Refresh, Enqueue]) == Some(RefreshOutcome(s))
  {
    ExecTwo(s, Action.Refresh, Enqueue);
  }

  /** The new results are on display and the main thread may request symbol work. */
  predicate ShowingResults(m: Window) {
    !m.destroyed && m.adding.None? && m.busy.Refreshing?
  }

  /** One more symbol request after n of them. */
  lemma OneMoreRequest(s: System, first: seq<Action>, n: nat, t: System)
    requires P.Exec(s, first + SymbolRun(n)) == Some(t) && ShowingResults(t.win)
    ensures P.Exec(s, first + SymbolRun(n + 1)) == Some(RequestOutcome(t, Symbols(t.win.cur)))
  {
    X.ExecAppend(s, first + SymbolRun(n), RequestSymbols);
    X.ExecAppend(s, first + SymbolRun(n) + [RequestSymbols], Enqueue);
    assert first + SymbolRun(n + 1) == first + SymbolRun(n) + [RequestSymbols] + [Enqueue];
  }

  lemma RefreshReturns(s: System, requests: nat, t: System)
    requires P.Exec(s, [Action.Refresh, Enqueue] + SymbolRun(requests)) == Some(t) && ShowingResults(t.win)
    ensures P.Exec(s, RefreshRun(requests)) == Some(t.(win := t.win.(busy := Ready)))
  {
    X.ExecAppend(s, [Action.Refresh, Enqueue] + SymbolRun(requests), RefreshEnds);
  }

  /** A task can be taken whenever one waits, and then it is in front of the registered ones. */
  lemma BeginsWell(s: System)
    requires Inv(s) && Drained(s.win) && s.win.idle != []
    ensures P.Enabled(s, BeginIdle) && RegisteredExist(P.Next(s, BeginIdle).win)
    ensures s.win.idle[0].Open? ==> P.Enabled(P.Next(s, BeginIdle), OpenFails)
    ensures s.win.idle[0].Open? ==> P.Enabled(P.Next(s, BeginIdle), Action.Refresh)
    ensures s.win.idle[0].Finish? ==> S.Started(P.Next(s, BeginIdle), s.win.idle[0].id)
  {
    S.FrontIdleExists(s);
    S.IdleKeepsInv(s);
    InvRegisteredExist(s);
  }

  /** What a task that has begun leaves behind. */
  lemma TaskOutcome(s: System, id: nat, again: bool)
    requires S.Started(s, id)
    ensures s.win.dbg != [] && s.win.dbg[0] == id < |s.win.tasks|
    ensures var k := s.win.tasks[id].kind;
            var more := again && k.Symbols? && !s.win.tasks[id].canceled;
            var c := if more then Register(s.win, Symbols(k.gen)).(adding := None) else s.win;
            && P.Exec(s, TaskRun(s.win, false, 0, again))
               == Some(s.(win := EndCallback(c), w := if more then W.AddTask(s.w, W.Task(|s.win.tasks|)) else s.w))
  {
    S.UnregistersFront(s);
    if again && InLiveSymbols(s.win) {
      ExecCons(s, RequestSymbols, [Enqueue, FinishCallback]);
      ExecTwo(P.Next(s, RequestSymbols), Enqueue, FinishCallback);
    } else {
      ExecOne(s, FinishCallback);
    }
  }

  /** A task has been run from the idle queue. */
  predicate Ended(m: Window) {
    !m.destroyed && m.adding.None? && m.busy.Ready? && m.loop.Serving?
  }

  /** on_idle returns and the loop blocks. */
  lemma IdleReturns(s: System, task: seq<Action>, t: System)
    requires P.Enabled(s, BeginIdle) && P.Exec(P.Next(s, BeginIdle), task) == Some(t)
    requires Ended(t.win)
    ensures P.Exec(s, [BeginIdle] + task + [Wait]) == Some(t.(win := DoWait(t.win)))
  {
    ExecCons(s, BeginIdle, task);
    X.ExecAppend(s, [BeginIdle] + task, Wait);
  }

  class TaskWindow {
    const worker: W.ThreadWorkerQueues
    ghost var phase: Phase
    ghost var ran: seq<nat>
    var tasks: seq<Marshaller>
    var dbgTasks: seq<nat>
    var idleTasks: seq<Idle>
    ghost var adding: Option<nat>
    ghost var busy: Busy
    ghost var loop: Loop
    var cur: nat
    ghost var freedTasks: seq<nat>
    ghost var freedGens: seq<nat>
    var wakes: nat
    var posted: nat
    var hidden: bool
    var destroyed: bool

    constructor (dbg: W.ThreadWorkerQueues)
      requires dbg.Value() == W.AddTask(W.NEW_WORKER, W.Init)
      ensures worker == dbg && Sys() == INITIAL
    {
      worker, phase, ran := dbg, Fetching, [];
      tasks, dbgTasks, idleTasks, adding, busy, loop := [], [], [Open], None, Ready, Pumping;
      cur, freedTasks, freedGens, wakes, posted, hidden, destroyed := 0, [], [], 1, 0, false, false;
    }

    ghost function Value(): Window
      reads this
    {
      Window(tasks, dbgTasks, idleTasks, adding, busy, loop, cur, freedTasks, freedGens, wakes, posted, hidden,
             destroyed)
    }

    ghost function Sys(): System
      reads this, worker
    {
      System(Value(), worker.Value(), phase, ran)
    }

    /** The task is queued and a message posted that wakes the loop. */
    method AddIdleTask(task: Idle)
      modifies this`idleTasks, this`wakes
      ensures Value() == AddIdle(old(Value()), task)
    {
      idleTasks := idleTasks + [task];
      wakes := wakes + 1;
    }

    /** The loop has taken a message. */
    ghost method Wake()
      modifies this`loop
      ensures Value() == Woken(old(Value()))
    {
      loop := if loop.Waiting? then Pumping else loop;
    }

    method RegisterDbgTask(id: nat)
      modifies this`dbgTasks
      ensures Value() == old(Value()).(dbg := old(dbgTasks) + [id])
    {
      dbgTasks := dbgTasks + [id];
    }

    /** Its precondition is the assertion of the source. */
    method UnregisterDbgTask(id: nat)
      requires dbgTasks != [] && dbgTasks[0] == id
      modifies this`dbgTasks
      ensures Value() == old(Value()).(dbg := old(dbgTasks)[1..])
    {
      dbgTasks := dbgTasks[1..];
    }

    method CancelAllDbgTasks()
      requires RegisteredExist(Value())
      modifies this`tasks
      ensures Value() == old(Value()).(tasks := CancelAll(old(tasks), dbgTasks))
    {
      var i, n := 0, |dbgTasks|;
      while i != n
        invariant i <= n && |tasks| == old(|tasks|)
        invariant forall k :: 0 <= k < |tasks| ==>
                    tasks[k] == if k in dbgTasks[..i] then old(tasks)[k].(canceled := true) else old(tasks)[k]
        decreases n - i
      {
        var t := dbgTasks[i];
        assert dbgTasks[..i + 1] == dbgTasks[..i] + [t];
        tasks := tasks[t := tasks[t].(canceled := true)];
        i := i + 1;
      }
      assert dbgTasks[..n] == dbgTasks;
    }

    /** Registers a new marshaller, then queues its task. */
    method RequestHelper(k: Kind)
      requires adding.None?
      modifies this`tasks, this`dbgTasks, this`adding, worker
      ensures Value() == Register(old(Value()), k).(adding := None)
      ensures worker.Value() == W.AddTask(old(worker.Value()), W.Task(old(|tasks|)))
    {
      var id := |tasks|;
      tasks := tasks + [Marshaller(k, false)];
      RegisterDbgTask(id);
      worker.AddTask(W.Task(id));
    }

    /** cancel, swap in the new results, request the deletion of the old ones. */
    method SwapResults()
      requires RegisteredExist(Value()) && adding.None?
      modifies this, worker
      ensures Sys() == RefreshOutcome(old(Sys()))
    {
      var replaced := cur;
      CancelAndSwap();
      RequestHelper(Deletion(replaced));
    }

    method CancelAndSwap()
      requires RegisteredExist(Value())
      modifies this`tasks, this`cur, this`busy, this`loop
      ensures Value() == Replaced(old(Value()))
    {
      CancelAllDbgTasks();
      cur, busy := cur + 1, Refreshing;
      Wake();
    }

    /** The tree view requests symbol work while it inserts its nodes. */
    method RequestTreeSymbols(requests: nat, ghost s: System, ghost first: seq<Action>)
      requires P.Exec(s, first) == Some(Sys()) && ShowingResults(Value())
      modifies this`tasks, this`dbgTasks, this`adding, worker
      ensures P.Exec(s, first + SymbolRun(requests)) == Some(Sys()) && ShowingResults(Value())
    {
      var i := 0;
      assert first + SymbolRun(0) == first;
      while i != requests
        invariant i <= requests && ShowingResults(Value())
        invariant P.Exec(s, first + SymbolRun(i)) == Some(Sys())
        decreases requests - i
      {
        OneMoreRequest(s, first, i, Sys());
        RequestHelper(Symbols(cur));
        i := i + 1;
      }
    }

    /** refresh(main_type&&): requests is how often the tree view asks for symbol work. */
    method Refresh(requests: nat)
      requires RegisteredExist(Value()) && P.Enabled(Sys(), Action.Refresh)
      modifies this, worker
      ensures P.Exec(old(Sys()), RefreshRun(requests)) == Some(Sys())
      ensures !destroyed && adding.None? && busy.Ready? && loop == Woken(old(Value())).loop
    {
      ghost var s := Sys();
      RefreshIsRun(s);
      SwapResults();
      RequestTreeSymbols(requests, s, [Action.Refresh, Enqueue]);
      RefreshReturns(s, requests, Sys());
      busy := Ready;
    }

    method HideAndRequestClose()
      requires adding.None?
      modifies this`tasks, this`dbgTasks, this`adding, this`hidden, worker
      ensures Sys() == RequestOutcome(old(Sys()).(win := old(Value()).(hidden := true)), Close)
    {
      RequestHelper(Close);
      hidden := true;
    }

    /** A close message is taken; queued says that it was one the program posted. */
    method TakeClose(queued: bool)
      requires RegisteredExist(Value()) && (queued ==> posted > 0)
      modifies this`loop, this`posted, this`tasks
      ensures Value() == Cancelled(old(Value()), queued)
    {
      Wake();
      posted := if queued then posted - 1 else posted;
      CancelAllDbgTasks();
    }

    method CloseOrWait()
      requires adding.None?
      modifies this`destroyed, this`tasks, this`dbgTasks, this`adding, this`hidden, worker
      ensures Sys() == CloseOutcome(old(Sys()))
    {
      if idleTasks == [] && dbgTasks == [] {
        destroyed := true;
      } else {
        HideAndRequestClose();
      }
    }

    /** on_wm_close: closes at once when nothing is left to do, and otherwise hides the
        window and sends a close task down the pipeline. */
    method OnWmClose(queued: bool)
      requires RegisteredExist(Value()) && P.Enabled(Sys(), CloseAction(queued))
      modifies this, worker
      ensures destroyed <==> old(idleTasks) == [] && old(dbgTasks) == []
      ensures var a := CloseAction(queued);
              P.Exec(old(Sys()), if destroyed then [a] else [a, Enqueue]) == Some(Sys())
    {
      CloseIsRun(Sys(), queued);
      TakeClose(queued);
      CloseOrWait();
    }

    /** Files dropped on the window are opened from the idle queue. */
    method OnWmDropFiles()
      requires P.Enabled(Sys(), PostOpen)
      modifies this`idleTasks, this`wakes, this`loop
      ensures Sys() == P.Next(old(Sys()), PostOpen)
    {
      Wake();
      AddIdleTask(Open);
    }

    /** The end of a task on the worker thread: it is handed to the idle queue, and then
        the job returns. */
    method HandBack()
      requires P.Enabled(Sys(), WorkerHandsBack)
      modifies this`idleTasks, this`wakes, this`phase, worker
      ensures Sys() == P.Next(old(Sys()), WorkerHandsBack)
    {
      AddIdleTask(Finish(worker.queue2[worker.pos].id));
      worker.FinishJob();
      phase := Fetching;
    }

    /** The worker takes up the task at its position: its body is to run unless the task
        has been cancelled. */
    method StartTask() returns (runs: bool)
      requires P.Enabled(Sys(), WorkerStart)
      modifies this`phase
      ensures Sys() == P.Next(old(Sys()), WorkerStart)
      ensures runs <==> !tasks[worker.queue2[worker.pos].id].canceled
    {
      runs := !tasks[worker.queue2[worker.pos].id].canceled;
      phase := if runs then InBody else BodyDone;
    }

    /** The task's own code for the worker. */
    ghost method RunBody()
      requires P.Enabled(Sys(), WorkerBodyEnds)
      modifies this`phase, this`ran
      ensures Sys() == P.Next(old(Sys()), WorkerBodyEnds)
    {
      phase, ran := BodyDone, ran + [worker.queue2[worker.pos].id];
    }

    /** A task on the worker thread: its body unless it was cancelled, then it is handed
        back. Each of the parts is one step; steps of the main thread may come between. */
    method RunOnWorker()
      requires P.Enabled(Sys(), WorkerStart)
      modifies this`phase, this`ran, this`idleTasks, this`wakes, worker
      ensures var live := !old(tasks)[old(worker.queue2)[old(worker.pos)].id].canceled;
              && P.Exec(old(Sys()), WorkerRun(live)) == Some(Sys())
              && ran == old(ran) + if live then [old(worker.queue2)[old(worker.pos)].id] else []
    {
      ghost var s := Sys();
      WorkerRunIs(s);
      var runs := StartTask();
      if runs {
        RunBody();
      }
      HandBack();
    }

    /** Takes the oldest idle task. */
    method BeginIdleTask()
      requires P.Enabled(Sys(), BeginIdle)
      modifies this
      ensures Sys() == P.Next(old(Sys()), BeginIdle)
    {
      var task := idleTasks[0];
      idleTasks, loop := idleTasks[1..], Serving;
      match task {
        case Open =>
          busy := Opening;
        case Finish(id) =>
          busy := Callback(id, !tasks[id].canceled);
          if !tasks[id].canceled && tasks[id].kind.Close? {
            posted := posted + 1;
          }
      }
    }

    /** Opening files from the idle queue. */
    method OpenTask(opens: bool, requests: nat)
      requires RegisteredExist(Value()) && P.Enabled(Sys(), OpenFails) && loop.Serving?
      modifies this, worker
      ensures P.Exec(old(Sys()), TaskRun(old(Value()), opens, requests, false)) == Some(Sys())
      ensures Ended(Value())
    {
      if opens {
        Refresh(requests);
      } else {
        ExecOne(old(Sys()), OpenFails);
        busy := Ready;
      }
    }

    /** The scope exits of a callback. */
    method LeaveTask(id: nat)
      requires busy.Callback? && busy.id == id < |tasks| && dbgTasks != [] && dbgTasks[0] == id
      modifies this`dbgTasks, this`busy, this`freedTasks, this`freedGens
      ensures Value() == EndCallback(old(Value()))
    {
      UnregisterDbgTask(id);
      busy, freedTasks := Ready, freedTasks + [id];
      if tasks[id].kind.Deletion? {
        freedGens := freedGens + [tasks[id].kind.gen];
      }
    }

    /** The main-thread half of a task: its own code unless it was cancelled, then the
        scope exits. */
    method FinishTask(id: nat, again: bool)
      requires S.Started(Sys(), id) && loop.Serving?
      modifies this, worker
      ensures P.Exec(old(Sys()), TaskRun(old(Value()), false, 0, again)) == Some(Sys())
      ensures Ended(Value())
    {
      TaskOutcome(Sys(), id, again);
      if again && tasks[id].kind.Symbols? && !tasks[id].canceled {
        RequestHelper(Symbols(tasks[id].kind.gen));
      }
      LeaveTask(id);
    }

    /** The task in front of the idle queue is run. */
    method RunTask(opens: bool, requests: nat, again: bool)
      requires Inv(Sys()) && Drained(Value()) && idleTasks != []
      modifies this, worker
      ensures P.Enabled(old(Sys()), BeginIdle) && Ended(Value())
      ensures var run := TaskRun(DoIdle(old(Value())), opens, requests, again);
              P.Exec(P.Next(old(Sys()), BeginIdle), run) == Some(Sys())
    {
      BeginsWell(Sys());
      var task := idleTasks[0];
      BeginIdleTask();
      match task {
        case Open => OpenTask(opens, requests);
        case Finish(id) => FinishTask(id, again);
      }
    }

    /** The end of on_idle: if more tasks are waiting a message is posted, so that the loop
        does not block for long. */
    method LeaveOnIdle()
      requires loop.Serving? || idleTasks == []
      modifies this`wakes, this`loop
      ensures Value() == DoWait(old(Value()))
    {
      if idleTasks != [] {
        wakes := wakes + 1;
      }
      loop := Waiting;
    }

    /** on_idle: takes the oldest idle task and runs it. */
    method OnIdle(opens: bool, requests: nat, again: bool)
      requires Inv(Sys()) && Drained(Value())
      modifies this, worker
      ensures old(idleTasks) == [] ==> P.Exec(old(Sys()), [Wait]) == Some(Sys())
      ensures old(idleTasks) != [] ==>
                && P.Enabled(old(Sys()), BeginIdle)
                && var run := [BeginIdle] + TaskRun(DoIdle(old(Value())), opens, requests, again) + [Wait];
                   P.Exec(old(Sys()), run) == Some(Sys())
    {
      ghost var s := Sys();
      if idleTasks == [] {
        ExecOne(s, Wait);
        LeaveOnIdle();
        return;
      }
      RunTask(opens, requests, again);
      IdleReturns(s, TaskRun(DoIdle(s.win), opens, requests, again), Sys());
      LeaveOnIdle();
    }
  }
}
