/** The symbol-task pipeline between the main window and the worker thread, as a
    transition system: main-thread steps and worker steps in any interleaving. */
module Pipeline {
  import opened Words
  import opened ThreadWorker

  /** What a marshaller is for: symbol work on the results of one generation, freeing
      an old generation, or closing the window. */
  datatype Kind = Symbols(gen: nat) | Deletion(gen: nat) | Close

  datatype Marshaller = Marshaller(kind: Kind, canceled: bool)

  /** An entry of the idle queue: a task handed back by the worker, or files to open. */
  datatype Idle = Finish(id: nat) | Open

  /** What the main thread is in the middle of: opening files, showing new results, or
      the main-thread half of a task. */
  datatype Busy = Ready | Opening | Refreshing | Callback(id: nat, live: bool)

  /** Where the message loop is: dispatching what PeekMessageW finds, inside on_idle, or
      blocked in GetMessageW. */
  datatype Loop = Pumping | Serving | Waiting

  /** The state the main thread owns. Marshallers are named by their index; freedTasks
      and freedGens list what was freed, in order; wakes and posted count the WM_NULL and
      WM_CLOSE messages that the program has posted and the loop has not taken yet. */
  datatype Window = Window(
    tasks: seq<Marshaller>, dbg: seq<nat>, idle: seq<Idle>, adding: Option<nat>, busy: Busy, loop: Loop,
    cur: nat, freedTasks: seq<nat>, freedGens: seq<nat>, wakes: nat, posted: nat, hidden: bool, destroyed: bool)

  const NEW_WINDOW := Window([], [], [Open], None, Ready, Pumping, 0, [], [], 1, 0, false, false)

  /** Where the worker is with the job at its position. */
  datatype Phase = Fetching | InBody | BodyDone

  /** ran lists the tasks whose body has run on the worker, in order. */
  datatype System = System(win: Window, w: Worker, phase: Phase, ran: seq<nat>)

  /** The provider queues its own job first. */
  const INITIAL := System(NEW_WINDOW, AddTask(NEW_WORKER, Init), Fetching, [])

  // ---- Main-thread operations ----

  /** cancel_all_dbg_tasks: marks every registered marshaller. */
  function CancelAll(tasks: seq<Marshaller>, dbg: seq<nat>): (r: seq<Marshaller>)
    ensures |r| == |tasks|
    ensures forall i :: 0 <= i < |tasks| ==> r[i] == (if i in dbg then tasks[i].(canceled := true) else tasks[i])
  {
    seq(|tasks|, i requires 0 <= i < |tasks| => if i in dbg then tasks[i].(canceled := true) else tasks[i])
  }

  /** The front half of request_helper: a new marshaller, registered but not yet queued. */
  function Register(m: Window, k: Kind): Window {
    m.(tasks := m.tasks + [Marshaller(k, false)], dbg := m.dbg + [|m.tasks|], adding := Some(|m.tasks|))
  }

  /** add_idle_task: the task is queued and a message posted to wake the loop. */
  function AddIdle(m: Window, x: Idle): Window {
    m.(idle := m.idle + [x], wakes := m.wakes + 1)
  }

  /** The loop has taken a message. */
  function Woken(m: Window): Window {
    m.(loop := if m.loop.Waiting? then Pumping else m.loop)
  }

  /** refresh(main_type&&) up to the refresh of the tree view: cancel, swap in the new
      results, send the old ones to be freed. */
  function DoRefresh(m: Window): Window {
    Register(Woken(m).(tasks := CancelAll(m.tasks, m.dbg), cur := m.cur + 1, busy := Refreshing), Deletion(m.cur))
  }

  /** on_wm_close. */
  function DoClose(m: Window): Window {
    var c := Woken(m).(tasks := CancelAll(m.tasks, m.dbg));
    if c.idle == [] && c.dbg == [] then c.(destroyed := true)
    else Register(c.(hidden := true), Close)
  }

  /** on_idle up to the point where the task's own code runs. */
  function DoIdle(m: Window): Window
    requires m.idle != [] && (m.idle[0].Finish? ==> m.idle[0].id < |m.tasks|)
  {
    var rest := m.(idle := m.idle[1..], loop := Serving);
    match m.idle[0]
    case Open => rest.(busy := Opening)
    case Finish(id) =>
      var live := !m.tasks[id].canceled;
      rest.(busy := Callback(id, live), posted := if live && m.tasks[id].kind.Close? then m.posted + 1 else m.posted)
  }

  /** on_idle returns, after posting a message if it leaves tasks behind, and the loop
      blocks. */
  function DoWait(m: Window): Window {
    m.(loop := Waiting, wakes := if m.loop.Serving? && m.idle != [] then m.wakes + 1 else m.wakes)
  }

  /** The scope exits of the callback: unregister, then free the marshaller and, with a
      deletion, the old results it owns. */
  function EndCallback(m: Window): Window
    requires m.busy.Callback? && m.dbg != [] && m.busy.id < |m.tasks|
  {
    var id := m.busy.id;
    m.(busy := Ready, dbg := m.dbg[1..], freedTasks := m.freedTasks + [id],
       freedGens := if m.tasks[id].kind.Deletion? then m.freedGens + [m.tasks[id].kind.gen] else m.freedGens)
  }

  // ---- The transitions ----

  /** UserClose is a close message from outside, PostedClose one that the program posted;
      OtherInput is any other message. A message loop nested in a task may take WM_NULL
      messages as well. */
  datatype Action =
    | PostOpen | BeginIdle | OpenFails | Refresh | RequestSymbols | RefreshEnds | Enqueue | FinishCallback
    | UserClose | PostedClose | WmNull | OtherInput | Wait
    | WorkerSwap | WorkerStart | WorkerBodyEnds | WorkerHandsBack | WorkerOwnJob | WorkerClear
    | ProviderDeinit | ProviderStop

  /** The main thread can dispatch a message. */
  predicate Idling(m: Window) {
    !m.destroyed && m.adding.None? && m.busy.Ready? && !m.loop.Serving?
  }

  /** The loop has found no more messages and calls on_idle. */
  predicate Drained(m: Window) {
    Idling(m) && m.loop.Pumping? && m.wakes == 0 && m.posted == 0
  }

  /** A callback of a live symbol task runs: it may request more symbol work. */
  predicate InLiveSymbols(m: Window) {
    m.busy.Callback? && m.busy.live && m.busy.id < |m.tasks| && m.tasks[m.busy.id].kind.Symbols?
  }

  predicate HoldsTask(w: Worker) {
    CanRun(w) && w.queue2[w.pos].Task?
  }

  predicate Enabled(s: System, a: Action) {
    var m := s.win;
    match a
    case PostOpen => Idling(m)
    case BeginIdle => Drained(m) && m.idle != [] && (m.idle[0].Finish? ==> m.idle[0].id < |m.tasks|)
    case OpenFails => !m.destroyed && m.adding.None? && m.busy.Opening?
    case Refresh => Idling(m) || (!m.destroyed && m.adding.None? && m.busy.Opening?)
    case RequestSymbols => !m.destroyed && m.adding.None? && (m.busy.Refreshing? || InLiveSymbols(m))
    case RefreshEnds => !m.destroyed && m.adding.None? && m.busy.Refreshing?
    case Enqueue => m.adding.Some?
    case FinishCallback => !m.destroyed && m.adding.None? && m.busy.Callback? && m.dbg != [] && m.busy.id < |m.tasks|
    case UserClose => Idling(m)
    case PostedClose => Idling(m) && m.posted > 0
    case WmNull => !m.destroyed && m.adding.None? && m.wakes > 0
    case OtherInput => Idling(m)
    case Wait =>
      (Drained(m) && m.idle == []) || (!m.destroyed && m.adding.None? && m.busy.Ready? && m.loop.Serving?)
    case WorkerSwap => CanSwap(s.w)
    case WorkerStart => s.phase.Fetching? && HoldsTask(s.w) && s.w.queue2[s.w.pos].id < |m.tasks|
    case WorkerBodyEnds => s.phase.InBody? && HoldsTask(s.w)
    case WorkerHandsBack => s.phase.BodyDone? && HoldsTask(s.w)
    case WorkerOwnJob => s.phase.Fetching? && CanRun(s.w) && !s.w.queue2[s.w.pos].Task?
    case WorkerClear => CanClear(s.w)
    case ProviderDeinit => m.destroyed && Deinit !in s.w.added
    case ProviderStop => Deinit in s.w.added && Stop !in s.w.added
  }

  /** The generation a new request works on: the one of the running callback, or the
      one on display. */
  function RequestGen(m: Window): nat {
    if InLiveSymbols(m) then m.tasks[m.busy.id].kind.gen else m.cur
  }

  function Next(s: System, a: Action): System
    requires Enabled(s, a)
  {
    var m := s.win;
    match a
    case PostOpen => s.(win := AddIdle(Woken(m), Open))
    case BeginIdle => s.(win := DoIdle(m))
    case OpenFails => s.(win := m.(busy := Ready))
    case Refresh => s.(win := DoRefresh(m))
    case RefreshEnds => s.(win := m.(busy := Ready))
    case RequestSymbols => s.(win := Register(m, Symbols(RequestGen(m))))
    case Enqueue => s.(win := m.(adding := None), w := AddTask(s.w, Task(m.adding.value)))
    case FinishCallback => s.(win := EndCallback(m))
    case UserClose => s.(win := DoClose(m))
    case PostedClose => s.(win := DoClose(m.(posted := m.posted - 1)))
    case WmNull => s.(win := Woken(m).(wakes := m.wakes - 1))
    case OtherInput => s.(win := Woken(m))
    case Wait => s.(win := DoWait(m))
    case WorkerSwap => s.(w := Swap(s.w))
    case WorkerStart => s.(phase := if m.tasks[s.w.queue2[s.w.pos].id].canceled then BodyDone else InBody)
    case WorkerBodyEnds => s.(phase := BodyDone, ran := s.ran + [s.w.queue2[s.w.pos].id])
    case WorkerHandsBack =>
      s.(win := AddIdle(m, Finish(s.w.queue2[s.w.pos].id)), w := RunDone(s.w), phase := Fetching)
    case WorkerOwnJob => s.(w := RunDone(s.w))
    case WorkerClear => s.(w := Clear(s.w))
    case ProviderDeinit => s.(w := AddTask(s.w, Deinit))
    case ProviderStop => s.(w := AddTask(s.w, Stop))
  }

  ghost function Exec(s: System, run: seq<Action>): Option<System>
    decreases |run|
  {
    if run == [] then Some(s)
    else if Enabled(s, run[0]) then Exec(Next(s, run[0]), run[1..])
    else None
  }

  ghost predicate Reachable(s: System) {
    exists run :: Exec(INITIAL, run) == Some(s)
  }

  // ---- The order in which marshallers travel ----

  function TaskIds(jobs: seq<Job>): seq<nat> {
    if jobs == [] then []
    else (if jobs[0].Task? then [jobs[0].id] else []) + TaskIds(jobs[1..])
  }

  function FinishIds(idle: seq<Idle>): seq<nat> {
    if idle == [] then []
    else (if idle[0].Finish? then [idle[0].id] else []) + FinishIds(idle[1..])
  }

  /** All marshallers in flight, oldest first: the running callback, the idle queue, the
      worker's current job and the rest of its batch, the first queue, and the one being
      added. */
  function InFlight(s: System): seq<nat>
    requires s.w.pos <= |s.w.queue2|
  {
    (if s.win.busy.Callback? then [s.win.busy.id] else [])
    + FinishIds(s.win.idle)
    + TaskIds(s.w.queue2[s.w.pos..])
    + TaskIds(s.w.queue1)
    + (if s.win.adding.Some? then [s.win.adding.value] else [])
  }

  function Range(a: nat, b: nat): (s: seq<nat>)
    ensures a <= b ==> |s| == b - a
    ensures forall i :: 0 <= i < |s| ==> s[i] == a + i
  {
    if a < b then Range(a, b - 1) + [b - 1] else []
  }

  /** Number of deletions among the first n marshallers: the generation on display
      when marshaller n was made. */
  function Era(tasks: seq<Marshaller>, n: nat): nat
    requires n <= |tasks|
  {
    if n == 0 then 0 else Era(tasks, n - 1) + (if tasks[n - 1].kind.Deletion? then 1 else 0)
  }

  predicate OfItsEra(tasks: seq<Marshaller>, i: nat)
    requires i < |tasks|
  {
    match tasks[i].kind
    case Symbols(g) => g == Era(tasks, i)
    case Deletion(g) => g == Era(tasks, i)
    case Close => true
  }

  ghost predicate Inv(s: System) {
    var m := s.win;
    && WorkerInv(s.w)
    && |m.freedTasks| <= |m.tasks|
    && m.freedTasks == Range(0, |m.freedTasks|)
    && m.dbg == Range(|m.freedTasks|, |m.tasks|)
    && m.dbg == InFlight(s)
    && m.cur == Era(m.tasks, |m.tasks|)
    && m.freedGens == Range(0, Era(m.tasks, |m.freedTasks|))
    && (forall i {:trigger OfItsEra(m.tasks, i)} :: 0 <= i < |m.tasks| ==> OfItsEra(m.tasks, i))
    && (forall i :: |m.freedTasks| <= i < |m.tasks| && m.tasks[i].kind.Symbols? && !m.tasks[i].canceled ==>
          m.tasks[i].kind.gen == m.cur)
    && (m.busy.Callback? ==> m.busy.id < |m.tasks| && m.busy.live == !m.tasks[m.busy.id].canceled)
    && (!s.phase.Fetching? ==> HoldsTask(s.w))
    && (m.destroyed ==> m.dbg == [] && m.idle == [] && m.busy.Ready? && m.adding.None?)
    && (m.adding.Some? ==> !m.destroyed)
  }
}
