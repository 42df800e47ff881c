/** The worker thread and its double-buffered queue. */
module ThreadWorker {
  import opened Words

  /** What can be queued: the provider's own jobs, the destructor's stop request, and
      symbol tasks named by their marshaller. */
  datatype Job = Init | Deinit | Stop | Task(id: nat)

  /** `added` and `executed` are the histories of add_task and of finished jobs. */
  datatype Worker = Worker(
    queue1: seq<Job>, queue2: seq<Job>, pos: nat, stopRequested: bool, exited: bool,
    added: seq<Job>, executed: seq<Job>)

  const NEW_WORKER := Worker([], [], 0, false, false, [], [])

  // ---- The steps of the two threads ----

  function AddTask(w: Worker, j: Job): Worker {
    w.(queue1 := w.queue1 + [j], added := w.added + [j])
  }

  /** The wait is over: there is something in the first queue and the second is done. */
  predicate CanSwap(w: Worker) {
    !w.exited && w.queue2 == [] && w.queue1 != []
  }

  function Swap(w: Worker): Worker
    requires CanSwap(w)
  {
    w.(queue1 := w.queue2, queue2 := w.queue1, pos := 0)
  }

  predicate CanRun(w: Worker) {
    !w.exited && w.pos < |w.queue2|
  }

  /** The job at the position has returned. */
  function RunDone(w: Worker): Worker
    requires CanRun(w)
  {
    var j := w.queue2[w.pos];
    w.(pos := w.pos + 1, executed := w.executed + [j], stopRequested := w.stopRequested || j.Stop?)
  }

  predicate CanClear(w: Worker) {
    !w.exited && w.queue2 != [] && w.pos == |w.queue2|
  }

  /** The batch is cleared and the loop condition read. */
  function Clear(w: Worker): Worker
    requires CanClear(w)
  {
    w.(queue2 := [], pos := 0, exited := w.stopRequested)
  }

  // ---- What every interleaving keeps ----

  ghost predicate WorkerInv(w: Worker) {
    && w.pos <= |w.queue2|
    && w.executed + w.queue2[w.pos..] + w.queue1 == w.added
    && (w.stopRequested <==> Stop in w.executed)
    && (w.exited ==> w.stopRequested && w.queue2 == [])
    && (w.stopRequested && !w.exited ==> w.queue2 != [])
  }

  datatype Step = Add(job: Job) | DoSwap | DoRun | DoClear

  ghost predicate Enabled(w: Worker, a: Step) {
    match a
    case Add(_) => true
    case DoSwap => CanSwap(w)
    case DoRun => CanRun(w)
    case DoClear => CanClear(w)
  }

  ghost function Next(w: Worker, a: Step): Worker
    requires Enabled(w, a)
  {
    match a
    case Add(j) => AddTask(w, j)
    case DoSwap => Swap(w)
    case DoRun => RunDone(w)
    case DoClear => Clear(w)
  }

  lemma StepKeepsWorkerInv(w: Worker, a: Step)
    requires WorkerInv(w) && Enabled(w, a)
    ensures WorkerInv(Next(w, a))
  {
    var n := Next(w, a);
    match a {
      case Add(j) =>
        assert n.executed + n.queue2[n.pos..] + n.queue1 == w.executed + w.queue2[w.pos..] + w.queue1 + [j];
      case DoSwap =>
        assert w.queue2[w.pos..] == [] && n.queue2[n.pos..] == w.queue1;
      case DoRun =>
        assert w.queue2[w.pos..] == [w.queue2[w.pos]] + n.queue2[n.pos..];
        assert n.executed + n.queue2[n.pos..] == w.executed + w.queue2[w.pos..];
      case DoClear =>
        assert w.queue2[w.pos..] == [] && n.queue2[n.pos..] == [];
    }
  }

  /** The state after a run of steps, or None when a step was not possible. */
  ghost function Exec(w: Worker, run: seq<Step>): Option<Worker>
    decreases |run|
  {
    if run == [] then Some(w)
    else if Enabled(w, run[0]) then Exec(Next(w, run[0]), run[1..])
    else None
  }

  /** The jobs a run adds, in order. */
  ghost function JobsOf(run: seq<Step>): seq<Job> {
    if run == [] then []
    else (if run[0].Add? then [run[0].job] else []) + JobsOf(run[1..])
  }

  lemma {:induction false} ExecKeepsWorkerInv(w: Worker, run: seq<Step>)
    requires WorkerInv(w) && Exec(w, run).Some?
    ensures WorkerInv(Exec(w, run).value)
    decreases |run|
  {
    if run == [] {
    } else {
      StepKeepsWorkerInv(w, run[0]);
      ExecKeepsWorkerInv(Next(w, run[0]), run[1..]);
    }
  }

  lemma {:induction false} ExecAdds(w: Worker, run: seq<Step>)
    requires Exec(w, run).Some?
    ensures Exec(w, run).value.added == w.added + JobsOf(run)
    decreases |run|
  {
    if run == [] {
    } else {
      var n := Next(w, run[0]);
      ExecAdds(n, run[1..]);
      var first := if run[0].Add? then [run[0].job] else [];
      assert n.added == w.added + first;
      assert (w.added + first) + JobsOf(run[1..]) == w.added + (first + JobsOf(run[1..]));
    }
  }

  /** Over every interleaving: executed jobs, the rest of the second queue and the
      first queue are the added jobs, in order. */
  lemma QueueConservation(run: seq<Step>)
    requires Exec(NEW_WORKER, run).Some?
    ensures var w := Exec(NEW_WORKER, run).value;
            w.pos <= |w.queue2| && w.executed + w.queue2[w.pos..] + w.queue1 == JobsOf(run)
  {
    ExecKeepsWorkerInv(NEW_WORKER, run);
    ExecAdds(NEW_WORKER, run);
  }

  ghost predicate StopIsLast(jobs: seq<Job>) {
    forall i :: 0 <= i < |jobs| && jobs[i] == Stop ==> i == |jobs| - 1
  }

  /** When the stop job is the last one added, the thread leaves only after every job
      ran once, with both queues empty. */
  lemma ExitMeansAllDone(w: Worker)
    requires WorkerInv(w) && w.exited
    requires StopIsLast(w.added)
    ensures w.executed == w.added && w.queue1 == [] && w.queue2 == []
  {
    var k :| 0 <= k < |w.executed| && w.executed[k] == Stop;
    assert w.added[k] == Stop;
    assert |w.executed| == |w.added|;
  }

  // ---- What is added behind the stop job ----

  /** Every run that adds these jobs and ends with the thread's exit executes them all. */
  ghost predicate AlwaysAllRun(jobs: seq<Job>) {
    forall run :: Exec(NEW_WORKER, run).Some? && JobsOf(run) == jobs && Exec(NEW_WORKER, run).value.exited ==>
      Exec(NEW_WORKER, run).value.executed == jobs
  }

  ghost function Adds(jobs: seq<Job>): seq<Step> {
    seq(|jobs|, i requires 0 <= i < |jobs| => Add(jobs[i]))
  }

  ghost function Runs(n: nat): seq<Step> {
    seq(n, _ => DoRun)
  }

  /** The run takes one worker to the other and adds these jobs. */
  ghost predicate Leads(w: Worker, run: seq<Step>, jobs: seq<Job>, n: Worker) {
    Exec(w, run) == Some(n) && JobsOf(run) == jobs
  }

  lemma {:induction false} ExecJoin(w: Worker, a: seq<Step>, b: seq<Step>)
    requires Exec(w, a).Some?
    ensures Exec(w, a + b) == Exec(Exec(w, a).value, b)
    decreases |a|
  {
    if a == [] {
      assert a + b == b;
    } else {
      assert (a + b)[0] == a[0] && (a + b)[1..] == a[1..] + b;
      ExecJoin(Next(w, a[0]), a[1..], b);
    }
  }

  lemma {:induction false} JobsJoin(a: seq<Step>, b: seq<Step>)
    ensures JobsOf(a + b) == JobsOf(a) + JobsOf(b)
    decreases |a|
  {
    if a == [] {
      assert a + b == b;
    } else {
      var first := if a[0].Add? then [a[0].job] else [];
      assert (a + b)[0] == a[0] && (a + b)[1..] == a[1..] + b;
      JobsJoin(a[1..], b);
      assert first + (JobsOf(a[1..]) + JobsOf(b)) == (first + JobsOf(a[1..])) + JobsOf(b);
    }
  }

  lemma LeadsOn(w: Worker, a: seq<Step>, x: seq<Job>, m: Worker, b: seq<Step>, y: seq<Job>, n: Worker)
    requires Leads(w, a, x, m) && Leads(m, b, y, n)
    ensures Leads(w, a + b, x + y, n)
  {
    ExecJoin(w, a, b);
    JobsJoin(a, b);
  }

  lemma {:induction false} AddingAll(w: Worker, jobs: seq<Job>)
    ensures Leads(w, Adds(jobs), jobs, w.(queue1 := w.queue1 + jobs, added := w.added + jobs))
    decreases |jobs|
  {
    if jobs == [] {
      assert w.queue1 + jobs == w.queue1 && w.added + jobs == w.added;
    } else {
      var n := AddTask(w, jobs[0]);
      AddingAll(n, jobs[1..]);
      assert Adds(jobs)[1..] == Adds(jobs[1..]);
      assert n.queue1 + jobs[1..] == w.queue1 + jobs && n.added + jobs[1..] == w.added + jobs;
    }
  }

  /** The rest of the batch runs. */
  lemma {:induction false} RunningAll(w: Worker, n: nat)
    requires !w.exited && w.pos + n == |w.queue2|
    ensures Leads(w, Runs(n), [], w.(pos := |w.queue2|, executed := w.executed + w.queue2[w.pos..],
                                     stopRequested := w.stopRequested || Stop in w.queue2[w.pos..]))
    decreases n
  {
    if n == 0 {
      assert w.queue2[w.pos..] == [] && w.executed + [] == w.executed;
    } else {
      var m := RunDone(w);
      RunningAll(m, n - 1);
      assert Runs(n)[1..] == Runs(n - 1);
      assert w.queue2[w.pos..] == [w.queue2[w.pos]] + m.queue2[m.pos..];
      assert m.executed + m.queue2[m.pos..] == w.executed + w.queue2[w.pos..];
    }
  }

  lemma OneStep(w: Worker, a: Step)
    requires Enabled(w, a) && !a.Add?
    ensures Leads(w, [a], [], Next(w, a))
  {
    assert [a][1..] == [];
  }

  /** The batch of the stop job is run and cleared: the thread leaves, and what has been
      added meanwhile stays in the first queue. */
  lemma BatchThenExit(w: Worker) returns (run: seq<Step>)
    requires !w.exited && w.queue2 != [] && w.pos == 0 && Stop in w.queue2
    ensures Leads(w, run, [],
                  w.(queue2 := [], executed := w.executed + w.queue2, stopRequested := true, exited := true))
  {
    assert w.queue2[w.pos..] == w.queue2;
    RunningAll(w, |w.queue2|);
    var m := w.(pos := |w.queue2|, executed := w.executed + w.queue2, stopRequested := true);
    OneStep(m, DoClear);
    LeadsOn(w, Runs(|w.queue2|), [], m, [DoClear], [], Clear(m));
    run := Runs(|w.queue2|) + [DoClear];
  }

  /** The batch is taken, and more jobs are added before it is cleared. */
  lemma TakeThenAdd(w: Worker, late: seq<Job>) returns (run: seq<Step>)
    requires CanSwap(w)
    ensures Leads(w, run, late, w.(queue1 := late, queue2 := w.queue1, pos := 0, added := w.added + late))
  {
    var taken := Swap(w);
    AddingAll(taken, late);
    OneStep(w, DoSwap);
    assert [] + late == late && taken.queue1 == [];
    LeadsOn(w, [DoSwap], [], taken, Adds(late), late, taken.(queue1 := late, added := w.added + late));
    run := [DoSwap] + Adds(late);
  }

  /** Jobs are added and taken as a batch before the late ones arrive. */
  lemma AddThenTake(early: seq<Job>, late: seq<Job>) returns (run: seq<Step>)
    requires early != []
    ensures Leads(NEW_WORKER, run, early + late, NEW_WORKER.(queue1 := late, queue2 := early, added := early + late))
  {
    var full := NEW_WORKER.(queue1 := early, added := early);
    AddingAll(NEW_WORKER, early);
    assert [] + early == early;
    var taking := TakeThenAdd(full, late);
    LeadsOn(NEW_WORKER, Adds(early), early, full, taking, late,
            full.(queue1 := late, queue2 := early, added := early + late));
    run := Adds(early) + taking;
  }

  /** The batch is taken just after a stop job; the jobs behind it are added before the
      batch is cleared, and stay. */
  lemma LateJobsStay(jobs: seq<Job>, k: nat) returns (run: seq<Step>, w: Worker)
    requires k < |jobs| && jobs[k] == Stop
    ensures Leads(NEW_WORKER, run, jobs, w) && w.exited && w.executed == jobs[..k + 1] && w.queue1 == jobs[k + 1..]
  {
    var early, late := jobs[..k + 1], jobs[k + 1..];
    assert early + late == jobs && early[k] == Stop;
    var first := AddThenTake(early, late);
    var taken := NEW_WORKER.(queue1 := late, queue2 := early, added := jobs);
    var last := BatchThenExit(taken);
    assert [] + early == early && jobs + [] == jobs;
    w := taken.(queue2 := [], executed := early, stopRequested := true, exited := true);
    LeadsOn(NEW_WORKER, first, jobs, taken, last, [], w);
    run := first + last;
  }

  /** Every exit leaves all jobs executed if and only if no job is added behind a stop job. */
  lemma StopLastExactly(jobs: seq<Job>)
    ensures StopIsLast(jobs) <==> AlwaysAllRun(jobs)
  {
    if StopIsLast(jobs) {
      forall run | Exec(NEW_WORKER, run).Some? && JobsOf(run) == jobs && Exec(NEW_WORKER, run).value.exited
        ensures Exec(NEW_WORKER, run).value.executed == jobs
      {
        ExecKeepsWorkerInv(NEW_WORKER, run);
        ExecAdds(NEW_WORKER, run);
        ExitMeansAllDone(Exec(NEW_WORKER, run).value);
      }
    } else {
      var k :| 0 <= k < |jobs| - 1 && jobs[k] == Stop;
      var run, w := LateJobsStay(jobs, k);
      assert |w.executed| == k + 1;
    }
  }

  /** The shortest such run: a job added behind the stop job stays in the first queue. */
  lemma JobBehindStopIsLost()
    ensures exists run :: Exec(NEW_WORKER, run).Some? &&
              var w := Exec(NEW_WORKER, run).value;
              w.exited && w.queue1 == [Task(0)]
  {
    var run, w := LateJobsStay([Stop, Task(0)], 0);
    assert [Stop, Task(0)][1..] == [Task(0)];
  }

  // ---- The object ----

  class ThreadWorkerQueues {
    var queue1: seq<Job>
    var queue2: seq<Job>
    var pos: nat
    var stopRequested: bool
    var exited: bool
    ghost var added: seq<Job>
    ghost var executed: seq<Job>

    constructor ()
      ensures Value() == NEW_WORKER
    {
      queue1, queue2, pos, stopRequested, exited, added, executed := [], [], 0, false, false, [], [];
    }

    ghost function Value(): Worker
      reads this
    {
      Worker(queue1, queue2, pos, stopRequested, exited, added, executed)
    }

    method AddTask(j: Job)
      modifies this
      ensures Value() == Next(old(Value()), Add(j))
    {
      queue1 := queue1 + [j];
      added := added + [j];
    }

    /** Other threads add these jobs. */
    method AddAll(jobs: seq<Job>)
      modifies this
      ensures Value() == old(Value()).(queue1 := old(queue1) + jobs, added := old(added) + jobs)
    {
      var i := 0;
      while i != |jobs|
        invariant i <= |jobs|
        invariant Value() == old(Value()).(queue1 := old(queue1) + jobs[..i], added := old(added) + jobs[..i])
        decreases |jobs| - i
      {
        assert jobs[..i + 1] == jobs[..i] + [jobs[i]];
        AddTask(jobs[i]);
        i := i + 1;
      }
      assert jobs[..i] == jobs;
    }

    /** The job at the position returns. */
    method FinishJob()
      requires CanRun(Value())
      modifies this
      ensures Value() == RunDone(old(Value()))
    {
      stopRequested := stopRequested || queue2[pos].Stop?;
      executed := executed + [queue2[pos]];
      pos := pos + 1;
    }

    /** One job of the batch; other threads add jobs while it runs. */
    method RunJob(arriving: seq<Job>)
      requires WorkerInv(Value()) && CanRun(Value())
      modifies this
      ensures WorkerInv(Value()) && queue2 == old(queue2) && pos == old(pos) + 1 && exited == old(exited)
      ensures executed == old(executed) + [old(queue2)[old(pos)]]
      ensures queue1 == old(queue1) + arriving && added == old(added) + arriving
    {
      AddsKeepWorkerInv(Value(), arriving);
      AddAll(arriving);
      StepKeepsWorkerInv(Value(), DoRun);
      FinishJob();
    }

    /** One turn of the loop of thread_func: take the batch, run it, clear it. While job k
        runs, other threads add meanwhile[k]. */
    method RunBatch(meanwhile: seq<seq<Job>>)
      requires WorkerInv(Value()) && CanSwap(Value()) && |meanwhile| == |queue1|
      modifies this
      ensures WorkerInv(Value())
      ensures executed == old(executed) + old(queue1) && added == old(added) + Joined(meanwhile)
      ensures queue1 == Joined(meanwhile) && queue2 == []
      ensures exited <==> Stop in executed
    {
      StepKeepsWorkerInv(Value(), DoSwap);
      queue1, queue2, pos := queue2, queue1, 0;
      while pos != |queue2|
        invariant pos <= |queue2| && queue2 == old(queue1) && !exited
        invariant WorkerInv(Value())
        invariant executed == old(executed) + queue2[..pos]
        invariant queue1 == Joined(meanwhile[..pos]) && added == old(added) + Joined(meanwhile[..pos])
        decreases |queue2| - pos
      {
        JoinedNext(meanwhile, pos);
        assert queue2[..pos + 1] == queue2[..pos] + [queue2[pos]];
        RunJob(meanwhile[pos]);
      }
      StepKeepsWorkerInv(Value(), DoClear);
      assert queue2[..pos] == queue2 && meanwhile[..pos] == meanwhile;
      queue2, pos, exited := [], 0, stopRequested;
    }
  }

  function Joined(s: seq<seq<Job>>): seq<Job> {
    if s == [] then [] else Joined(s[..|s| - 1]) + s[|s| - 1]
  }

  lemma JoinedNext(s: seq<seq<Job>>, k: nat)
    requires k < |s|
    ensures Joined(s[..k + 1]) == Joined(s[..k]) + s[k]
  {
    assert s[..k + 1][..k] == s[..k];
  }

  lemma AddsKeepWorkerInv(w: Worker, jobs: seq<Job>)
    requires WorkerInv(w)
    ensures WorkerInv(w.(queue1 := w.queue1 + jobs, added := w.added + jobs))
  {
    assert w.executed + w.queue2[w.pos..] + (w.queue1 + jobs) == w.executed + w.queue2[w.pos..] + w.queue1 + jobs;
  }
}
