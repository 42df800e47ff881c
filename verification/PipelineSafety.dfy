/** Safety of the pipeline over every interleaving. */
module PipelineSafety {
  import opened Words
  import opened ThreadWorker
  import P = Pipeline
  import opened Pipeline

  // ---- Sequences of marshallers ----

  lemma {:induction false} TaskIdsJoin(a: seq<Job>, b: seq<Job>)
    ensures TaskIds(a + b) == TaskIds(a) + TaskIds(b)
    decreases |a|
  {
    if a == [] {
      assert a + b == b;
    } else {
      TaskIdsJoin(a[1..], b);
      var first := if a[0].Task? then [a[0].id] else [];
      assert (a + b)[0] == a[0] && (a + b)[1..] == a[1..] + b;
      assert first + (TaskIds(a[1..]) + TaskIds(b)) == (first + TaskIds(a[1..])) + TaskIds(b);
    }
  }

  lemma {:induction false} FinishIdsAppend(a: seq<Idle>, x: Idle)
    ensures FinishIds(a + [x]) == FinishIds(a) + (if x.Finish? then [x.id] else [])
    decreases |a|
  {
    if a != [] {
      assert (a + [x])[1..] == a[1..] + [x];
      FinishIdsAppend(a[1..], x);
    } else {
      assert a + [x] == [x];
    }
  }

  lemma RestOfBatch(w: Worker)
    requires CanRun(w)
    ensures TaskIds(w.queue2[w.pos..])
            == (if w.queue2[w.pos].Task? then [w.queue2[w.pos].id] else []) + TaskIds(w.queue2[w.pos + 1..])
  {
    assert w.queue2[w.pos..][1..] == w.queue2[w.pos + 1..];
  }

  /** Generations depend on the kinds of the marshallers only. */
  lemma {:induction false} EraOfKinds(a: seq<Marshaller>, b: seq<Marshaller>, n: nat)
    requires n <= |a| && n <= |b| && forall i :: 0 <= i < n ==> a[i].kind == b[i].kind
    ensures Era(a, n) == Era(b, n)
  {
    if n == 0 {
    } else {
      EraOfKinds(a, b, n - 1);
    }
  }

  lemma {:induction false} EraMonotone(tasks: seq<Marshaller>, a: nat, b: nat)
    requires a <= b <= |tasks|
    ensures Era(tasks, a) <= Era(tasks, b)
  {
    if a == b {
    } else {
      EraMonotone(tasks, a, b - 1);
    }
  }

  lemma RangeTail(a: nat, b: nat)
    requires a < b
    ensures Range(a, b) == [a] + Range(a + 1, b)
  {
    assert |Range(a, b)| == b - a && |Range(a + 1, b)| == b - a - 1;
  }

  // ---- Every step keeps the invariant ----

  /** A change of flags only. */
  lemma KindsKeepEras(m: seq<Marshaller>, n: seq<Marshaller>)
    requires |m| <= |n| && forall i :: 0 <= i < |m| ==> m[i].kind == n[i].kind
    ensures forall i :: 0 <= i <= |m| ==> Era(n, i) == Era(m, i)
  {
    forall i | 0 <= i <= |m| ensures Era(n, i) == Era(m, i) {
      EraOfKinds(n, m, i);
    }
  }

  lemma RangeHead(a: nat, b: nat)
    requires a <= b
    ensures Range(a, b + 1) == Range(a, b) + [b]
  {
  }

  /** A new marshaller is the last one in flight. */
  lemma RegisterFlight(s: System, m: Window, k: Kind)
    requires s.w.pos <= |s.w.queue2| && m.adding.None?
    ensures InFlight(s.(win := Register(m, k))) == InFlight(s.(win := m)) + [|m.tasks|]
  {
  }

  /** Every marshaller is of its era, with one more of the era on display. */
  lemma RegisterEras(m: Window, k: Kind)
    requires forall i {:trigger OfItsEra(m.tasks, i)} :: 0 <= i < |m.tasks| ==> OfItsEra(m.tasks, i)
    requires k.Close? || k.gen == Era(m.tasks, |m.tasks|)
    ensures var n := Register(m, k).tasks;
            && (forall i {:trigger OfItsEra(n, i)} :: 0 <= i < |n| ==> OfItsEra(n, i))
            && forall i :: 0 <= i <= |m.tasks| ==> Era(n, i) == Era(m.tasks, i)
  {
    var n := Register(m, k).tasks;
    KindsKeepEras(m.tasks, n);
    forall i {:trigger OfItsEra(n, i)} | 0 <= i < |n| ensures OfItsEra(n, i) {
      assert i < |m.tasks| ==> OfItsEra(m.tasks, i);
    }
  }

  /** What a change of the window's tasks has to show. */
  lemma NewWindowKeepsInv(s: System, m: Window, n: Window)
    requires Inv(s.(win := m)) && !m.destroyed && !n.destroyed && n.busy == m.busy
    requires n.freedTasks == m.freedTasks && n.freedGens == m.freedGens && m.tasks <= n.tasks
    requires n.dbg == Range(|n.freedTasks|, |n.tasks|) == InFlight(s.(win := n))
    requires n.cur == Era(n.tasks, |n.tasks|) && Era(n.tasks, |n.freedTasks|) == Era(m.tasks, |m.freedTasks|)
    requires forall i {:trigger OfItsEra(n.tasks, i)} :: 0 <= i < |n.tasks| ==> OfItsEra(n.tasks, i)
    requires forall i :: |n.freedTasks| <= i < |n.tasks| && n.tasks[i].kind.Symbols? && !n.tasks[i].canceled ==>
               n.tasks[i].kind.gen == n.cur
    ensures Inv(s.(win := n))
  {
  }

  lemma RegisterKeepsInv(s: System, m: Window, k: Kind)
    requires Inv(s.(win := m)) && !m.destroyed && m.adding.None?
    requires k.Symbols? ==> k.gen == m.cur
    requires !k.Deletion?
    ensures Inv(s.(win := Register(m, k)))
  {
    var n := Register(m, k);
    RegisterEras(m, k);
    RegisterFlight(s, m, k);
    RangeHead(|m.freedTasks|, |m.tasks|);
    assert n.dbg == InFlight(s.(win := n)) == Range(|m.freedTasks|, |n.tasks|);
    NewWindowKeepsInv(s, m, n);
  }

  /** Cancelling everything keeps the invariant and leaves no live marshaller. */
  lemma CancelKeepsInv(s: System)
    requires Inv(s) && !s.win.busy.Callback?
    ensures Inv(s.(win := s.win.(tasks := CancelAll(s.win.tasks, s.win.dbg))))
    ensures forall i :: |s.win.freedTasks| <= i < |s.win.tasks| ==> CancelAll(s.win.tasks, s.win.dbg)[i].canceled
  {
    var m := s.win;
    var tasks := CancelAll(m.tasks, m.dbg);
    KindsKeepEras(m.tasks, tasks);
    forall i | 0 <= i < |tasks| ensures OfItsEra(tasks, i) {
      assert OfItsEra(m.tasks, i);
    }
    forall i | |m.freedTasks| <= i < |m.tasks| ensures tasks[i].canceled {
      assert m.dbg[i - |m.freedTasks|] == i;
    }
    assert InFlight(s.(win := m.(tasks := tasks))) == InFlight(s);
  }

  /** A deletion is registered for the generation that has just been replaced, when no
      registered marshaller is live. */
  lemma ReplaceKeepsInv(s: System)
    requires Inv(s) && !s.win.destroyed && s.win.adding.None? && !s.win.busy.Callback?
    requires forall i :: |s.win.freedTasks| <= i < |s.win.tasks| ==> s.win.tasks[i].canceled
    ensures Inv(s.(win := Register(s.win.(cur := s.win.cur + 1, busy := Refreshing), Deletion(s.win.cur))))
  {
    var m := s.win.(cur := s.win.cur + 1, busy := Refreshing);
    RegisterEras(m, Deletion(s.win.cur));
    RegisterFlight(s, m, Deletion(s.win.cur));
    RangeHead(|m.freedTasks|, |m.tasks|);
    assert InFlight(s.(win := m)) == InFlight(s);
  }

  /** What the invariant does not speak of: the loop, the messages and the flags of the
      window; it may go away when nothing is pending. */
  lemma FlagsKeepInv(s: System, m: Window, h: Window)
    requires Inv(s.(win := m)) && !m.destroyed
    requires h == m.(busy := h.busy, loop := h.loop, wakes := h.wakes, posted := h.posted,
                     hidden := h.hidden, destroyed := h.destroyed)
    requires h.busy == m.busy || (!m.busy.Callback? && !h.busy.Callback?)
    requires h.destroyed ==> m.dbg == [] && m.idle == [] && h.busy.Ready? && m.adding.None?
    ensures Inv(s.(win := h))
  {
    assert InFlight(s.(win := h)) == InFlight(s.(win := m));
  }

  lemma CancelledAndWoken(s: System)
    requires Inv(s) && P.Enabled(s, Refresh)
    ensures Inv(s.(win := Woken(s.win).(tasks := CancelAll(s.win.tasks, s.win.dbg))))
    ensures forall i :: |s.win.freedTasks| <= i < |s.win.tasks| ==> CancelAll(s.win.tasks, s.win.dbg)[i].canceled
  {
    CancelKeepsInv(s);
    var m := s.win.(tasks := CancelAll(s.win.tasks, s.win.dbg));
    FlagsKeepInv(s, m, Woken(m));
  }

  lemma RefreshKeepsInv(s: System)
    requires Inv(s) && P.Enabled(s, Refresh)
    ensures Inv(P.Next(s, Refresh))
  {
    CancelledAndWoken(s);
    ReplaceKeepsInv(s.(win := Woken(s.win).(tasks := CancelAll(s.win.tasks, s.win.dbg))));
  }

  lemma CloseKeepsInv(s: System, posted: nat)
    requires Inv(s) && Idling(s.win)
    ensures Inv(s.(win := DoClose(s.win.(posted := posted))))
  {
    CancelKeepsInv(s);
    var m := s.win.(tasks := CancelAll(s.win.tasks, s.win.dbg));
    var c := Woken(m).(posted := posted);
    var h := if c.idle == [] && c.dbg == [] then c.(destroyed := true) else c.(hidden := true);
    FlagsKeepInv(s, m, h);
    if !h.destroyed {
      RegisterKeepsInv(s, h, Close);
    }
  }

  /** The callback of a live symbol task works on the generation on display. */
  lemma LiveCallbackIsCurrent(s: System)
    requires Inv(s) && InLiveSymbols(s.win)
    ensures s.win.tasks[s.win.busy.id].kind.gen == s.win.cur
    ensures s.win.dbg != [] && s.win.dbg[0] == s.win.busy.id
  {
    assert InFlight(s)[0] == s.win.busy.id;
    assert s.win.dbg[0] == |s.win.freedTasks|;
  }

  lemma RequestKeepsInv(s: System)
    requires Inv(s) && P.Enabled(s, RequestSymbols)
    ensures Inv(P.Next(s, RequestSymbols))
  {
    if InLiveSymbols(s.win) {
      LiveCallbackIsCurrent(s);
    }
    RegisterKeepsInv(s, s.win, Symbols(RequestGen(s.win)));
  }

  /** A task that waits in the idle queue is registered. */
  lemma FrontIdleExists(s: System)
    requires Inv(s) && s.win.idle != []
    ensures s.win.idle[0].Finish? ==> s.win.idle[0].id < |s.win.tasks|
  {
    if s.win.idle[0].Finish? {
      var id := s.win.idle[0].id;
      assert id in FinishIds(s.win.idle);
      assert id in InFlight(s);
      var i :| 0 <= i < |s.win.dbg| && s.win.dbg[i] == id;
    }
  }

  lemma IdleKeepsInv(s: System)
    requires Inv(s) && P.Enabled(s, BeginIdle)
    ensures Inv(P.Next(s, BeginIdle))
  {
    var m := s.win;
    var c := P.Next(s, BeginIdle);
    assert m.idle == [m.idle[0]] + m.idle[1..];
    assert InFlight(c) == InFlight(s);
  }

  lemma OpenKeepsInv(s: System)
    requires Inv(s) && !s.win.destroyed
    ensures Inv(s.(win := AddIdle(s.win, Open)))
  {
    FinishIdsAppend(s.win.idle, Open);
    assert InFlight(s.(win := AddIdle(s.win, Open))) == InFlight(s);
  }

  lemma PostKeepsInv(s: System)
    requires Inv(s) && P.Enabled(s, PostOpen)
    ensures Inv(P.Next(s, PostOpen))
  {
    FlagsKeepInv(s, s.win, Woken(s.win));
    OpenKeepsInv(s.(win := Woken(s.win)));
  }

  /** Unregistering finds its own marshaller in front, and frees it for the first time. */
  lemma UnregistersFront(s: System)
    requires Inv(s) && s.win.busy.Callback?
    ensures s.win.dbg != [] && s.win.dbg[0] == s.win.busy.id == |s.win.freedTasks| < |s.win.tasks|
    ensures s.win.busy.id !in s.win.freedTasks
  {
    assert InFlight(s)[0] == s.win.busy.id;
  }

  /** The main-thread callback of task id has just begun. */
  ghost predicate Started(s: System, id: nat) {
    Inv(s) && s.win.adding.None? && s.win.busy.Callback? && s.win.busy.id == id
  }

  /** The finished task was the first in flight. */
  lemma FinishFlight(s: System)
    requires s.w.pos <= |s.w.queue2| && s.win.busy.Callback? && s.win.dbg != [] && s.win.busy.id < |s.win.tasks|
    ensures InFlight(s) == [s.win.busy.id] + InFlight(s.(win := EndCallback(s.win)))
  {
    var id, f, q := s.win.busy.id, FinishIds(s.win.idle), TaskIds(s.w.queue2[s.w.pos..]);
    var r, a := TaskIds(s.w.queue1), if s.win.adding.Some? then [s.win.adding.value] else [];
    assert InFlight(s.(win := EndCallback(s.win))) == f + q + r + a;
    assert [id] + f + q + r + a == [id] + (f + q + r + a);
  }

  lemma FinishKeepsInv(s: System)
    requires Inv(s) && P.Enabled(s, FinishCallback)
    ensures Inv(P.Next(s, FinishCallback))
  {
    var m := s.win;
    var c := P.Next(s, FinishCallback);
    UnregistersFront(s);
    var f := |m.freedTasks|;
    FinishFlight(s);
    RangeTail(f, |m.tasks|);
    assert c.win.dbg == Range(f + 1, |m.tasks|);
    assert OfItsEra(m.tasks, f);
    assert c.win.freedGens == Range(0, Era(m.tasks, f + 1));
  }

  lemma EnqueueKeepsInv(s: System)
    requires Inv(s) && P.Enabled(s, Enqueue)
    ensures Inv(P.Next(s, Enqueue))
  {
    var c := P.Next(s, Enqueue);
    StepKeepsWorkerInv(s.w, Add(Task(s.win.adding.value)));
    TaskIdsJoin(s.w.queue1, [Task(s.win.adding.value)]);
    assert TaskIds([Task(s.win.adding.value)]) == [s.win.adding.value] + TaskIds([]);
    assert InFlight(c) == InFlight(s);
  }

  /** A step of the worker alone that leaves the marshallers in flight. */
  lemma WorkerStepKeepsInv(s: System, c: System)
    requires Inv(s) && c.win == s.win && WorkerInv(c.w)
    requires InFlight(c) == InFlight(s)
    requires !c.phase.Fetching? ==> HoldsTask(c.w)
    ensures Inv(c)
  {
  }

  lemma SwapKeepsInv(s: System)
    requires Inv(s) && P.Enabled(s, WorkerSwap)
    ensures Inv(P.Next(s, WorkerSwap))
  {
    var c := P.Next(s, WorkerSwap);
    StepKeepsWorkerInv(s.w, DoSwap);
    assert s.w.queue2[s.w.pos..] == [] && c.w.queue2[c.w.pos..] == s.w.queue1;
    WorkerStepKeepsInv(s, c);
  }

  lemma HandedIds(m: Window, j: Job)
    ensures FinishIds((if j.Task? then AddIdle(m, Finish(j.id)) else m).idle)
            == FinishIds(m.idle) + (if j.Task? then [j.id] else [])
  {
    if j.Task? {
      FinishIdsAppend(m.idle, Finish(j.id));
    }
  }

  /** A job that has run leaves the batch; a task enters the idle queue. */
  lemma RunKeepsFlight(s: System, c: System)
    requires CanRun(s.w) && c.w == RunDone(s.w)
    requires var j := s.w.queue2[s.w.pos];
             c.win == if j.Task? then AddIdle(s.win, Finish(j.id)) else s.win
    ensures InFlight(c) == InFlight(s)
  {
    var j := s.w.queue2[s.w.pos];
    var mine := if j.Task? then [j.id] else [];
    var before := if s.win.busy.Callback? then [s.win.busy.id] else [];
    RestOfBatch(s.w);
    HandedIds(s.win, j);
    assert FinishIds(c.win.idle) == FinishIds(s.win.idle) + mine;
    var rest := TaskIds(c.w.queue2[c.w.pos..]);
    assert before + (FinishIds(s.win.idle) + mine) + rest == before + FinishIds(s.win.idle) + (mine + rest);
  }

  lemma HandBackKeepsInv(s: System)
    requires Inv(s) && P.Enabled(s, WorkerHandsBack)
    ensures Inv(P.Next(s, WorkerHandsBack))
  {
    var c := P.Next(s, WorkerHandsBack);
    StepKeepsWorkerInv(s.w, DoRun);
    RunKeepsFlight(s, c);
    HeldTaskIsInFlight(s);
    HandBackFrame(s, c);
  }

  lemma HandBackFrame(s: System, c: System)
    requires Inv(s) && !s.win.destroyed && WorkerInv(c.w) && c.phase.Fetching?
    requires c.win == s.win.(idle := c.win.idle, wakes := c.win.wakes) && InFlight(c) == InFlight(s)
    ensures Inv(c)
  {
  }

  /** The task in the worker's hands is registered and not freed. */
  lemma HeldTaskIsInFlight(s: System)
    requires Inv(s) && HoldsTask(s.w)
    ensures var id := s.w.queue2[s.w.pos].id;
            id in s.win.dbg && |s.win.freedTasks| <= id < |s.win.tasks|
  {
    RestOfBatch(s.w);
    var id := s.w.queue2[s.w.pos].id;
    var batch := TaskIds(s.w.queue2[s.w.pos..]);
    assert batch[0] == id && id in batch;
    assert id in InFlight(s);
    var i :| 0 <= i < |s.win.dbg| && s.win.dbg[i] == id;
  }

  lemma OwnJobKeepsInv(s: System)
    requires Inv(s) && P.Enabled(s, WorkerOwnJob)
    ensures Inv(P.Next(s, WorkerOwnJob))
  {
    var c := P.Next(s, WorkerOwnJob);
    StepKeepsWorkerInv(s.w, DoRun);
    RunKeepsFlight(s, c);
    WorkerStepKeepsInv(s, c);
  }

  lemma ClearKeepsInv(s: System)
    requires Inv(s) && P.Enabled(s, WorkerClear)
    ensures Inv(P.Next(s, WorkerClear))
  {
    var c := P.Next(s, WorkerClear);
    StepKeepsWorkerInv(s.w, DoClear);
    assert s.w.queue2[s.w.pos..] == [];
    WorkerStepKeepsInv(s, c);
  }

  /** A job of the provider's own is not in flight. */
  lemma OwnJobFlight(s: System, j: Job)
    requires s.w.pos <= |s.w.queue2| && !j.Task?
    ensures InFlight(s.(w := AddTask(s.w, j))) == InFlight(s)
  {
    TaskIdsJoin(s.w.queue1, [j]);
    assert TaskIds([j]) == [] + TaskIds([]);
  }

  lemma ProviderKeepsInv(s: System, a: Action)
    requires Inv(s) && (a == ProviderDeinit || a == ProviderStop) && P.Enabled(s, a)
    ensures Inv(P.Next(s, a))
  {
    var j := if a == ProviderDeinit then Deinit else Stop;
    StepKeepsWorkerInv(s.w, Add(j));
    OwnJobFlight(s, j);
    WorkerStepKeepsInv(s, P.Next(s, a));
  }

  predicate IsMainStep(a: Action) {
    a.PostOpen? || a.BeginIdle? || a.Refresh? || a.RequestSymbols? || a.FinishCallback?
    || a.UserClose? || a.PostedClose?
  }

  /** The steps that touch only what the invariant does not speak of. */
  predicate IsLoopStep(a: Action) {
    a.OpenFails? || a.RefreshEnds? || a.WmNull? || a.OtherInput? || a.Wait?
  }

  lemma LoopStepKeepsInv(s: System, a: Action)
    requires Inv(s) && P.Enabled(s, a) && IsLoopStep(a)
    ensures Inv(P.Next(s, a))
  {
    FlagsKeepInv(s, s.win, P.Next(s, a).win);
  }

  lemma MainStepKeepsInv(s: System, a: Action)
    requires Inv(s) && P.Enabled(s, a)
    requires IsMainStep(a)
    ensures Inv(P.Next(s, a))
  {
    if a.PostOpen? {
      PostKeepsInv(s);
    } else if a.BeginIdle? {
      IdleKeepsInv(s);
    } else if a.Refresh? {
      RefreshKeepsInv(s);
    } else if a.RequestSymbols? {
      RequestKeepsInv(s);
    } else if a.FinishCallback? {
      FinishKeepsInv(s);
    } else {
      CloseKeepsInv(s, if a.PostedClose? then s.win.posted - 1 else s.win.posted);
    }
  }

  lemma PhaseKeepsInv(s: System, a: Action)
    requires Inv(s) && P.Enabled(s, a) && (a.WorkerStart? || a.WorkerBodyEnds?)
    ensures Inv(P.Next(s, a))
  {
    WorkerStepKeepsInv(s, P.Next(s, a));
  }

  lemma QueueStepKeepsInv(s: System, a: Action)
    requires Inv(s) && P.Enabled(s, a)
    requires a.Enqueue? || a.WorkerSwap? || a.WorkerHandsBack? || a.WorkerOwnJob? || a.WorkerClear?
             || a.ProviderDeinit? || a.ProviderStop?
    ensures Inv(P.Next(s, a))
  {
    if a.Enqueue? {
      EnqueueKeepsInv(s);
    } else if a.WorkerSwap? {
      SwapKeepsInv(s);
    } else if a.WorkerHandsBack? {
      HandBackKeepsInv(s);
    } else if a.WorkerOwnJob? {
      OwnJobKeepsInv(s);
    } else if a.WorkerClear? {
      ClearKeepsInv(s);
    } else {
      ProviderKeepsInv(s, a);
    }
  }

  /** Every step of either thread keeps the invariant. */
  lemma StepKeepsInv(s: System, a: Action)
    requires Inv(s) && P.Enabled(s, a)
    ensures Inv(P.Next(s, a))
  {
    if IsMainStep(a) {
      MainStepKeepsInv(s, a);
    } else if IsLoopStep(a) {
      LoopStepKeepsInv(s, a);
    } else if a.WorkerStart? || a.WorkerBodyEnds? {
      PhaseKeepsInv(s, a);
    } else {
      QueueStepKeepsInv(s, a);
    }
  }

  lemma {:induction false} RunKeepsInv(s: System, run: seq<Action>)
    requires Inv(s) && P.Exec(s, run).Some?
    ensures Inv(P.Exec(s, run).value)
    decreases |run|
  {
    if run == [] {
    } else {
      StepKeepsInv(s, run[0]);
      RunKeepsInv(P.Next(s, run[0]), run[1..]);
    }
  }

  lemma InitiallyInv()
    ensures Inv(INITIAL)
  {
    assert INITIAL.w.queue1 == [Init] && INITIAL.w.queue2 == [];
    assert TaskIds([Init]) == [] + TaskIds([]);
    assert FinishIds([Open]) == [] + FinishIds([]);
    assert INITIAL.w.queue2[INITIAL.w.pos..] == [];
    assert InFlight(INITIAL) == [];
    assert Range(0, 0) == [];
  }

  lemma ReachableInv(s: System)
    requires Reachable(s)
    ensures Inv(s)
  {
    var run :| P.Exec(INITIAL, run) == Some(s);
    InitiallyInv();
    RunKeepsInv(INITIAL, run);
  }

  // ---- The results, for every reachable state ----

  /** The registered tasks are, in order, all marshallers in flight; each marshaller is
      registered until it is freed, and is freed once, in the order of registration. */
  lemma PipelineConservation(s: System)
    requires Reachable(s)
    ensures s.w.pos <= |s.w.queue2| && s.win.dbg == InFlight(s)
    ensures Distinct(s.win.dbg + s.win.freedTasks)
    ensures forall t: nat :: t < |s.win.tasks| <==> t in s.win.dbg || t in s.win.freedTasks
    ensures s.win.busy.Callback? ==> s.win.dbg != [] && s.win.dbg[0] == s.win.busy.id
  {
    ReachableInv(s);
    var m := s.win;
    forall t: nat ensures t < |m.tasks| <==> t in m.dbg || t in m.freedTasks {
      if t < |m.freedTasks| {
        assert m.freedTasks[t] == t;
      } else if t < |m.tasks| {
        assert m.dbg[t - |m.freedTasks|] == t;
      }
    }
    if m.busy.Callback? {
      UnregistersFront(s);
    }
  }

  /** Nothing touches freed results: the results on display are never freed, the
      worker's body runs on results that are not freed and a marshaller that is not
      freed, and a live callback runs on the generation on display. */
  lemma GenerationSafety(s: System)
    requires Reachable(s)
    ensures s.win.cur !in s.win.freedGens
    ensures !s.phase.Fetching? ==> HoldsTask(s.w)
    ensures HoldsTask(s.w) ==>
              var t := s.w.queue2[s.w.pos].id;
              && t < |s.win.tasks| && t !in s.win.freedTasks
              && (s.win.tasks[t].kind.Symbols? ==> s.win.tasks[t].kind.gen !in s.win.freedGens)
    ensures InLiveSymbols(s.win) ==>
              && s.win.busy.id !in s.win.freedTasks
              && s.win.tasks[s.win.busy.id].kind.gen == s.win.cur
  {
    ReachableInv(s);
    var m := s.win;
    EraMonotone(m.tasks, |m.freedTasks|, |m.tasks|);
    if HoldsTask(s.w) {
      HeldTaskIsInFlight(s);
      var t := s.w.queue2[s.w.pos].id;
      assert OfItsEra(m.tasks, t);
      EraMonotone(m.tasks, |m.freedTasks|, t);
    }
    if InLiveSymbols(m) {
      UnregistersFront(s);
      LiveCallbackIsCurrent(s);
    }
  }

  /** Old results are freed once each, in the order they were replaced. */
  lemma GenerationsFreedOnce(s: System)
    requires Reachable(s)
    ensures Distinct(s.win.freedGens)
    ensures forall g :: g in s.win.freedGens ==> g < s.win.cur
    ensures s.win.dbg == [] ==> forall g: nat :: g < s.win.cur ==> g in s.win.freedGens
  {
    ReachableInv(s);
    var m := s.win;
    EraMonotone(m.tasks, |m.freedTasks|, |m.tasks|);
    if m.dbg == [] {
      assert |m.freedTasks| == |m.tasks|;
      forall g: nat | g < m.cur ensures g in m.freedGens {
        assert m.freedGens[g] == g;
      }
    }
  }

  /** The window goes away only when nothing is registered or idle, and from then on
      the worker holds no task, so nothing is handed back to it. */
  lemma ShutdownIsClean(s: System)
    requires Reachable(s) && s.win.destroyed
    ensures s.win.idle == [] && s.win.dbg == []
    ensures !P.Enabled(s, WorkerHandsBack)
    ensures s.w.pos <= |s.w.queue2| && forall j :: j in s.w.queue2[s.w.pos..] + s.w.queue1 ==> !j.Task?
  {
    ReachableInv(s);
    if HoldsTask(s.w) {
      HeldTaskIsInFlight(s);
    }
    forall j | j in s.w.queue2[s.w.pos..] ensures !j.Task? {
      NoIdsNoTasks(s.w.queue2[s.w.pos..]);
    }
    forall j | j in s.w.queue1 ensures !j.Task? {
      NoIdsNoTasks(s.w.queue1);
    }
  }

  lemma {:induction false} NoIdsNoTasks(jobs: seq<Job>)
    requires TaskIds(jobs) == []
    ensures forall j :: j in jobs ==> !j.Task?
    decreases |jobs|
  {
    if jobs == [] {
    } else {
      NoIdsNoTasks(jobs[1..]);
    }
  }
}
