/** ThreadPool of tcp_server/src/thread_pool.hpp as a step machine: a mutex, a condition variable
    with spurious wake-ups, a queue, any number of submitting threads, and `shutdown`. Notifications
    happen after the mutex is released, so each is a step of its own. */
module ThreadPool {

  type Task = nat

  /** Waiting for the mutex, holding it with the wait predicate to evaluate, asleep on the condition
      variable, running a task, or returned from `worker_loop`. */
  datatype Worker = Wants | Checks | Asleep | Runs(task: Task) | Exited

  datatype Mutex = Free | ByWorker(i: nat) | BySubmit(task: Task) | ByStop

  datatype State = State(
    tasks: seq<Task>, stop: bool, mutex: Mutex, workers: seq<Worker>,
    // calls of `notify_one` and `notify_all` that are still to be made
    notifies: nat, notifyAll: bool,
    // history; `late` records a submit after stop
    submitted: seq<Task>, taken: seq<Task>, finished: seq<Task>, late: bool)

  datatype Event =
    | SubmitLock(task: Task) | SubmitPush | NotifyOne(i: nat) | NotifyNobody
    | StopLock | StopSet | NotifyAll
    | Spurious(i: nat) | Acquire(i: nat) | Check(i: nat) | Done(i: nat)

  function Init(n: nat): State {
    State([], false, Free, seq(n, i => Wants), 0, false, [], [], [], false)
  }

  predicate AnyAsleep(workers: seq<Worker>) {
    exists i :: 0 <= i < |workers| && workers[i].Asleep?
  }

  predicate Enabled(s: State, e: Event) {
    match e
    case SubmitLock(_) => s.mutex.Free?
    case SubmitPush => s.mutex.BySubmit?
    case NotifyOne(i) => s.notifies > 0 && i < |s.workers| && s.workers[i].Asleep?
    case NotifyNobody => s.notifies > 0 && !AnyAsleep(s.workers)
    case StopLock => s.mutex.Free?
    case StopSet => s.mutex.ByStop?
    case NotifyAll => s.notifyAll
    case Spurious(i) => i < |s.workers| && s.workers[i].Asleep?
    case Acquire(i) => i < |s.workers| && s.workers[i].Wants? && s.mutex.Free?
    case Check(i) => i < |s.workers| && s.workers[i].Checks?
    case Done(i) => i < |s.workers| && s.workers[i].Runs?
  }

  function WakeAll(workers: seq<Worker>): (r: seq<Worker>)
    ensures |r| == |workers|
    ensures forall i :: 0 <= i < |r| ==> r[i] == (if workers[i].Asleep? then Wants else workers[i])
  {
    seq(|workers|, i requires 0 <= i < |workers| => if workers[i].Asleep? then Wants else workers[i])
  }

  function With(s: State, i: nat, w: Worker): State
    requires i < |s.workers|
  {
    s.(workers := s.workers[i := w])
  }

  function Next(s: State, e: Event): State
    requires Enabled(s, e)
  {
    match e
    case SubmitLock(t) => s.(mutex := BySubmit(t))
    case SubmitPush =>
      s.(tasks := s.tasks + [s.mutex.task], submitted := s.submitted + [s.mutex.task], mutex := Free,
         notifies := s.notifies + 1, late := s.late || s.stop)
    case NotifyOne(i) => With(s, i, Wants).(notifies := s.notifies - 1)
    case NotifyNobody => s.(notifies := s.notifies - 1)
    case StopLock => s.(mutex := ByStop)
    case StopSet => s.(stop := true, mutex := Free, notifyAll := true)
    case NotifyAll => s.(workers := WakeAll(s.workers), notifyAll := false)
    case Spurious(i) => With(s, i, Wants)
    case Acquire(i) => With(s, i, Checks).(mutex := ByWorker(i))
    case Check(i) =>
      if s.tasks == [] then With(s, i, if s.stop then Exited else Asleep).(mutex := Free)
      else With(s, i, Runs(s.tasks[0])).(mutex := Free, tasks := s.tasks[1..], taken := s.taken + [s.tasks[0]])
    case Done(i) => With(s, i, Wants).(finished := s.finished + [s.workers[i].task])
  }

  // ---- invariant ------------------------------------------------------------------------------

  /** Workers on their way to the queue. */
  function OnTheWay(workers: seq<Worker>): nat {
    if workers == [] then 0
    else OnTheWay(workers[..|workers| - 1]) + Weight(workers[|workers| - 1])
  }

  function Weight(w: Worker): nat {
    if w.Wants? || w.Checks? then 1 else 0
  }

  lemma {:induction false} OnTheWayUpdate(workers: seq<Worker>, i: nat, w: Worker)
    requires i < |workers|
    ensures OnTheWay(workers[i := w]) == OnTheWay(workers) - Weight(workers[i]) + Weight(w)
    ensures OnTheWay(workers) >= Weight(workers[i])
  {
    var n := |workers| - 1;
    if i == n {
      assert workers[i := w][..n] == workers[..n];
    } else {
      OnTheWayUpdate(workers[..n], i, w);
      assert workers[i := w][..n] == workers[..n][i := w];
    }
  }

  lemma {:induction false} SomebodyOnTheWay(workers: seq<Worker>)
    requires OnTheWay(workers) > 0
    ensures exists i :: 0 <= i < |workers| && (workers[i].Wants? || workers[i].Checks?)
  {
    var n := |workers| - 1;
    if Weight(workers[n]) == 0 {
      SomebodyOnTheWay(workers[..n]);
      var i :| 0 <= i < n && (workers[..n][i].Wants? || workers[..n][i].Checks?);
      assert workers[i].Wants? || workers[i].Checks?;
    }
  }

  /** A worker holds the mutex exactly while it evaluates the predicate. */
  ghost predicate MutexOk(s: State) {
    forall i :: 0 <= i < |s.workers| ==> (s.workers[i].Checks? <==> s.mutex == ByWorker(i))
  }

  /** No lost wake-up: while any worker sleeps, every queued task is covered by a notification still
      to be made or by a worker on its way to the queue. */
  ghost predicate Covered(s: State) {
    AnyAsleep(s.workers) ==> |s.tasks| <= s.notifies + OnTheWay(s.workers)
  }

  /** After stop has been announced nobody sleeps, and a worker leaves only an empty queue behind. */
  ghost predicate StopOk(s: State) {
    && (s.stop && !s.notifyAll ==> !AnyAsleep(s.workers))
    && (forall i :: 0 <= i < |s.workers| && s.workers[i].Exited? ==> s.stop && (!s.late ==> s.tasks == []))
  }

  ghost predicate Inv(s: State) {
    && s.taken + s.tasks == s.submitted
    && MutexOk(s) && Covered(s) && StopOk(s)
  }

  lemma AsleepAfter(workers: seq<Worker>, i: nat, w: Worker)
    requires i < |workers| && AnyAsleep(workers[i := w]) && !w.Asleep?
    ensures AnyAsleep(workers)
  {
    var j :| 0 <= j < |workers| && workers[i := w][j].Asleep?;
    assert workers[j].Asleep?;
  }

  lemma CheckKeeps(s: State, i: nat)
    requires Inv(s) && Enabled(s, Check(i))
    ensures Inv(Next(s, Check(i)))
  {
    hide OnTheWay;
    var s' := Next(s, Check(i));
    OnTheWayUpdate(s.workers, i, s'.workers[i]);
    assert s'.workers == s.workers[i := s'.workers[i]];
    if s.tasks != [] {
      assert s'.taken + s'.tasks == s.taken + s.tasks;
      if AnyAsleep(s'.workers) { AsleepAfter(s.workers, i, s'.workers[i]); }
    } else if s.stop {
      if AnyAsleep(s'.workers) { AsleepAfter(s.workers, i, s'.workers[i]); }
    }
  }

  /** A worker moving without the queue: woken, acquiring the mutex, or finished with its task. */
  lemma MoveKeeps(s: State, e: Event, i: nat)
    requires Inv(s) && Enabled(s, e)
    requires e == NotifyOne(i) || e == Spurious(i) || e == Acquire(i) || e == Done(i)
    ensures Inv(Next(s, e))
  {
    hide OnTheWay;
    var s' := Next(s, e);
    OnTheWayUpdate(s.workers, i, s'.workers[i]);
    assert s'.workers == s.workers[i := s'.workers[i]];
    if AnyAsleep(s'.workers) { AsleepAfter(s.workers, i, s'.workers[i]); }
  }

  lemma StepKeeps(s: State, e: Event)
    requires Inv(s) && Enabled(s, e)
    ensures Inv(Next(s, e))
  {
    hide OnTheWay;
    match e
    case NotifyOne(i) => MoveKeeps(s, e, i);
    case Spurious(i) => MoveKeeps(s, e, i);
    case Acquire(i) => MoveKeeps(s, e, i);
    case Done(i) => MoveKeeps(s, e, i);
    case Check(i) => CheckKeeps(s, i);
    case SubmitPush => assert s.taken + (s.tasks + [s.mutex.task]) == (s.taken + s.tasks) + [s.mutex.task];
    case _ =>
  }

  // ---- what the workers run -------------------------------------------------------------------

  function Hand(w: Worker, t: Task): nat {
    if w == Runs(t) then 1 else 0
  }

  /** How many workers are running `t` now. */
  function InHand(workers: seq<Worker>, t: Task): nat {
    if workers == [] then 0 else InHand(workers[..|workers| - 1], t) + Hand(workers[|workers| - 1], t)
  }

  lemma {:induction false} InHandUpdate(workers: seq<Worker>, i: nat, w: Worker, t: Task)
    requires i < |workers|
    ensures InHand(workers[i := w], t) == InHand(workers, t) - Hand(workers[i], t) + Hand(w, t)
  {
    var n := |workers| - 1;
    if i == n {
      assert workers[i := w][..n] == workers[..n];
    } else {
      InHandUpdate(workers[..n], i, w, t);
      assert workers[i := w][..n] == workers[..n][i := w];
    }
  }

  lemma {:induction false} InHandSame(workers: seq<Worker>, workers': seq<Worker>, t: Task)
    requires |workers| == |workers'|
    requires forall i :: 0 <= i < |workers| ==> Hand(workers[i], t) == Hand(workers'[i], t)
    ensures InHand(workers, t) == InHand(workers', t)
  {
    if workers != [] { InHandSame(workers[..|workers| - 1], workers'[..|workers| - 1], t); }
  }

  /** Each time `t` was taken it is being run by one worker or has been finished. */
  ghost predicate RunOnce(s: State, t: Task) {
    multiset(s.finished)[t] + InHand(s.workers, t) == multiset(s.taken)[t]
  }

  lemma MoveRunsOnce(s: State, e: Event, i: nat, t: Task)
    requires RunOnce(s, t) && Enabled(s, e) && (e == NotifyOne(i) || e == Spurious(i) || e == Acquire(i))
    ensures RunOnce(Next(s, e), t)
  {
    hide InHand;
    InHandUpdate(s.workers, i, Next(s, e).workers[i], t);
  }

  lemma DoneRunsOnce(s: State, i: nat, t: Task)
    requires RunOnce(s, t) && Enabled(s, Done(i))
    ensures RunOnce(Next(s, Done(i)), t)
  {
    hide InHand;
    InHandUpdate(s.workers, i, Wants, t);
    OneMore(s.finished, s.workers[i].task, t);
  }

  lemma CheckRunsOnce(s: State, i: nat, t: Task)
    requires RunOnce(s, t) && Enabled(s, Check(i))
    ensures RunOnce(Next(s, Check(i)), t)
  {
    hide InHand;
    hide Next;
    hide Enabled;
    CheckNext(s, i);
    InHandUpdate(s.workers, i, Next(s, Check(i)).workers[i], t);
    if s.tasks != [] { OneMore(s.taken, s.tasks[0], t); }
  }

  lemma CheckNext(s: State, i: nat)
    requires Enabled(s, Check(i))
    ensures i < |s.workers| && s.workers[i].Checks?
    ensures var s' := Next(s, Check(i));
            && |s'.workers| == |s.workers| && s'.workers == s.workers[i := s'.workers[i]] && s'.finished == s.finished
            && (s.tasks == [] ==> !s'.workers[i].Runs? && s'.taken == s.taken)
            && (s.tasks != [] ==> s'.workers[i] == Runs(s.tasks[0]) && s'.taken == s.taken + [s.tasks[0]])
  {
  }

  lemma OneMore(s: seq<Task>, x: Task, t: Task)
    ensures multiset(s + [x])[t] == multiset(s)[t] + (if x == t then 1 else 0)
  {
  }

  lemma StepRunsOnce(s: State, e: Event, t: Task)
    requires RunOnce(s, t) && Enabled(s, e)
    ensures RunOnce(Next(s, e), t)
  {
    hide InHand;
    match e
    case NotifyOne(i) => MoveRunsOnce(s, e, i, t);
    case Spurious(i) => MoveRunsOnce(s, e, i, t);
    case Acquire(i) => MoveRunsOnce(s, e, i, t);
    case Done(i) => DoneRunsOnce(s, i, t);
    case Check(i) => CheckRunsOnce(s, i, t);
    case NotifyAll => InHandSame(s.workers, WakeAll(s.workers), t);
    case _ =>
  }

  lemma {:induction false} NobodyRuns(workers: seq<Worker>, t: Task)
    requires forall i :: 0 <= i < |workers| ==> !workers[i].Runs?
    ensures InHand(workers, t) == 0
  {
    if workers != [] { NobodyRuns(workers[..|workers| - 1], t); }
  }

  // ---- every run ------------------------------------------------------------------------------

  ghost predicate Step(s: State, e: Event, s': State) {
    Enabled(s, e) && s' == Next(s, e)
  }

  ghost predicate Run(n: nat, ss: seq<State>, es: seq<Event>) {
    && |ss| == |es| + 1 && ss[0] == Init(n)
    && forall i :: 0 <= i < |es| ==> Step(ss[i], es[i], ss[i + 1])
  }

  lemma {:induction false} RunKeeps(n: nat, ss: seq<State>, es: seq<Event>, i: nat)
    requires Run(n, ss, es) && i <= |es|
    ensures Inv(ss[i]) && |ss[i].workers| == n
  {
    hide Inv;
    hide Next;
    hide Enabled;
    if i == 0 {
      InitOk(n);
    } else {
      RunKeeps(n, ss, es, i - 1);
      assert Step(ss[i - 1], es[i - 1], ss[i]);
      StepKeeps(ss[i - 1], es[i - 1]);
      SameWorkers(ss[i - 1], es[i - 1]);
    }
  }

  lemma SameWorkers(s: State, e: Event)
    requires Enabled(s, e)
    ensures |Next(s, e).workers| == |s.workers|
  {
  }

  lemma InitOk(n: nat)
    ensures Inv(Init(n)) && |Init(n).workers| == n
  {
  }

  /** Every task that leaves the queue is run exactly once: at every moment, it has been finished or
      is being run by one worker, as many times as it was taken. */
  lemma {:induction false} EachRunOnce(n: nat, ss: seq<State>, es: seq<Event>, i: nat, t: Task)
    requires Run(n, ss, es) && i <= |es|
    ensures multiset(ss[i].finished)[t] + InHand(ss[i].workers, t) == multiset(ss[i].taken)[t]
  {
    hide Next;
    hide InHand;
    if i == 0 {
      NobodyRuns(ss[0].workers, t);
    } else {
      EachRunOnce(n, ss, es, i - 1, t);
      assert Step(ss[i - 1], es[i - 1], ss[i]);
      StepRunsOnce(ss[i - 1], es[i - 1], t);
    }
  }

  /** A submit that has the mutex, at event `i`, pushes its own task when it next pushes, at event `j`,
      behind all others. */
  lemma {:induction false} SubmitPushes(n: nat, ss: seq<State>, es: seq<Event>, i: nat, j: nat, t: Task)
    requires Run(n, ss, es) && i < j < |es| && es[i] == SubmitLock(t)
    requires forall k :: i < k < j ==> es[k] != SubmitPush
    ensures ss[j].mutex == BySubmit(t) && ss[j].submitted == ss[i].submitted
    ensures es[j] == SubmitPush ==> ss[j + 1].submitted == ss[i].submitted + [t] && ss[j + 1].mutex == Free
  {
    hide Next;
    hide Enabled;
    hide Inv;
    assert Step(ss[j - 1], es[j - 1], ss[j]);
    assert Step(ss[j], es[j], ss[j + 1]);
    RunKeeps(n, ss, es, j - 1);
    if i < j - 1 { SubmitPushes(n, ss, es, i, j - 1, t); }
    SubmitHolds(ss[j - 1], es[j - 1], t);
    PushTask(ss[j], es[j]);
  }

  lemma PushTask(s: State, e: Event)
    requires Enabled(s, e)
    ensures e == SubmitPush ==>
              s.mutex.BySubmit? && Next(s, e).submitted == s.submitted + [s.mutex.task] && Next(s, e).mutex == Free
  {
  }

  lemma SubmitHolds(s: State, e: Event, t: Task)
    requires Inv(s) && Enabled(s, e)
    ensures e == SubmitLock(t) ==> Next(s, e).mutex == BySubmit(t) && Next(s, e).submitted == s.submitted
    ensures s.mutex == BySubmit(t) && e != SubmitPush ==>
              Next(s, e).mutex == BySubmit(t) && Next(s, e).submitted == s.submitted
  {
    hide OnTheWay;
  }

  /** How many notifications of single workers have been made. */
  function Notified(es: seq<Event>): nat {
    if es == [] then 0
    else
      var last := es[|es| - 1];
      Notified(es[..|es| - 1]) + (if last.NotifyOne? || last.NotifyNobody? then 1 else 0)
  }

  /** Each submit makes one notification, after its push: those made and those to come are as many as
      the tasks submitted. And `late` says exactly that some push came after the stop. */
  lemma {:induction false} OneNotifyEach(n: nat, ss: seq<State>, es: seq<Event>, i: nat)
    requires Run(n, ss, es) && i <= |es|
    ensures Notified(es[..i]) + ss[i].notifies == |ss[i].submitted|
    ensures ss[i].late <==> exists k :: 0 <= k < i && es[k] == SubmitPush && ss[k].stop
  {
    hide Next;
    hide Enabled;
    if i > 0 {
      OneNotifyEach(n, ss, es, i - 1);
      assert es[..i][..i - 1] == es[..i - 1];
      assert Step(ss[i - 1], es[i - 1], ss[i]);
      NotifyStep(ss[i - 1], es[i - 1]);
    }
  }

  lemma NotifyStep(s: State, e: Event)
    requires Enabled(s, e)
    ensures var s' := Next(s, e);
            && s'.notifies - |s'.submitted| == s.notifies - |s.submitted| - (if e.NotifyOne? || e.NotifyNobody? then 1 else 0)
            && (s'.late <==> s.late || (e == SubmitPush && s.stop))
  {
  }

  /** What a worker does when it has the mutex: if there is a task it starts the oldest one submitted
      and not yet taken; if there is none it returns exactly if the pool has been stopped. */
  lemma StartsOldest(n: nat, ss: seq<State>, es: seq<Event>, i: nat, j: nat)
    requires Run(n, ss, es) && i < |es| && es[i] == Check(j)
    ensures |ss[i].workers| == |ss[i + 1].workers| == n && j < n
    ensures var s, s' := ss[i], ss[i + 1];
            && |s.taken| <= |s.submitted|
            && (|s.taken| < |s.submitted| ==>
                  s'.workers[j] == Runs(s.submitted[|s.taken|]) && s'.taken == s.submitted[..|s.taken| + 1])
            && (|s.taken| == |s.submitted| ==> s'.taken == s.taken && s'.workers[j] == if s.stop then Exited else Asleep)
            && (forall k :: 0 <= k < n && k != j ==> s'.workers[k] == s.workers[k])
  {
    hide OnTheWay;
    RunKeeps(n, ss, es, i);
    RunHas(n, ss, es);
    assert Step(ss[i], es[i], ss[i + 1]);
    hide Run;
  }

  /** Tasks leave the queue in submit order, each once. */
  lemma TakenInOrder(n: nat, ss: seq<State>, es: seq<Event>, i: nat)
    requires Run(n, ss, es) && i <= |es|
    ensures ss[i].taken <= ss[i].submitted && ss[i].taken + ss[i].tasks == ss[i].submitted
  {
    hide Run;
    RunHas(n, ss, es);
    RunKeeps(n, ss, es, i);
  }

  lemma RunHas(n: nat, ss: seq<State>, es: seq<Event>)
    requires Run(n, ss, es)
    ensures |ss| == |es| + 1
  {
  }

  predicate Awake(w: Worker) {
    w.Wants? || w.Checks? || w.Runs?
  }

  predicate AllExited(workers: seq<Worker>) {
    forall j :: 0 <= j < |workers| ==> workers[j].Exited?
  }

  /** A queued task is never forgotten: until the last worker has returned, there is an awake worker
      or a notification still to be made; and if anyone is asleep, a worker on its way or a
      notification for every queued task. */
  lemma NoLostWakeup(n: nat, ss: seq<State>, es: seq<Event>, i: nat)
    requires Run(n, ss, es) && i <= |es| && !AllExited(ss[i].workers) && ss[i].tasks != []
    ensures ss[i].notifies > 0 || exists j :: 0 <= j < n && j < |ss[i].workers| && Awake(ss[i].workers[j])
    ensures AnyAsleep(ss[i].workers) ==> |ss[i].tasks| <= ss[i].notifies + OnTheWay(ss[i].workers)
  {
    hide OnTheWay;
    RunKeeps(n, ss, es, i);
    hide Run;
    var s := ss[i];
    if s.notifies == 0 {
      if AnyAsleep(s.workers) {
        SomebodyOnTheWay(s.workers);
        var j :| 0 <= j < |s.workers| && (s.workers[j].Wants? || s.workers[j].Checks?);
        assert Awake(s.workers[j]);
      } else {
        var j :| 0 <= j < |s.workers| && !s.workers[j].Exited?;
        assert !s.workers[j].Asleep?;
        assert Awake(s.workers[j]);
      }
    }
  }

  /** Shutdown loses nothing: once the first worker has returned the queue is empty, and when all
      have, every submitted task has been taken; provided nobody submits after stop. And once the
      notification is out, no worker sleeps, so joining cannot wait for a sleeper. */
  lemma ShutdownDrains(n: nat, ss: seq<State>, es: seq<Event>, i: nat, j: nat)
    requires Run(n, ss, es) && i <= |es| && j < n
    ensures |ss[i].workers| == n
    ensures ss[i].workers[j].Exited? && !ss[i].late ==> ss[i].tasks == [] && ss[i].taken == ss[i].submitted
    ensures ss[i].stop && !ss[i].notifyAll ==> !ss[i].workers[j].Asleep?
  {
    RunKeeps(n, ss, es, i);
    hide Run;
  }

  /** A worker that has returned stays so, and the queue it left stays empty. */
  lemma {:induction false} StaysEmpty(n: nat, ss: seq<State>, es: seq<Event>, i: nat, later: nat, j: nat)
    requires Run(n, ss, es) && i <= later <= |es| && j < n
    requires |ss[i].workers| == n && ss[i].workers[j].Exited?
    ensures |ss[later].workers| == n && ss[later].workers[j].Exited?
    ensures !ss[later].late ==> ss[later].tasks == []
  {
    hide OnTheWay;
    hide Next;
    if i < later {
      StaysEmpty(n, ss, es, i, later - 1, j);
      assert Step(ss[later - 1], es[later - 1], ss[later]);
      ExitedStays(ss[later - 1], es[later - 1], j);
    }
    ShutdownDrains(n, ss, es, later, j);
  }

  lemma ExitedStays(s: State, e: Event, j: nat)
    requires Enabled(s, e) && j < |s.workers| && s.workers[j].Exited?
    ensures |Next(s, e).workers| == |s.workers| && Next(s, e).workers[j].Exited?
  {
  }

  /** Once every worker has returned, no step takes a task or starts a worker. */
  lemma NothingTaken(s: State, e: Event)
    requires Enabled(s, e) && AllExited(s.workers)
    ensures var s' := Next(s, e);
            s'.workers == s.workers && s'.taken == s.taken && s.tasks <= s'.tasks && s.submitted <= s'.submitted
  {
    if e.NotifyAll? { assert WakeAll(s.workers) == s.workers; }
  }

  lemma LastReturn(s: State, e: Event)
    requires Inv(s) && Enabled(s, e) && !AllExited(s.workers) && AllExited(Next(s, e).workers)
    ensures e.Check? && s.stop && Next(s, e).tasks == [] && Next(s, e).taken == Next(s, e).submitted
  {
    hide OnTheWay;
    var s' := Next(s, e);
    var j :| 0 <= j < |s.workers| && !s.workers[j].Exited?;
    assert s'.workers[j].Exited?;
  }

  /** Submits after stop included: when all workers have returned, there was a step in which the last
      one did, it left an empty queue with every task submitted so far taken, and nothing has been
      taken since. So a task is abandoned if and only if it was pushed after the last worker
      returned. */
  lemma {:induction false} AbandonedIff(n: nat, ss: seq<State>, es: seq<Event>, i: nat) returns (last: nat)
    requires Run(n, ss, es) && i <= |es| && n >= 1 && AllExited(ss[i].workers)
    ensures last < i && es[last].Check? && !AllExited(ss[last].workers) && AllExited(ss[last + 1].workers)
    ensures ss[last + 1].tasks == [] && ss[last + 1].taken == ss[last + 1].submitted
    ensures ss[i].taken == ss[last + 1].submitted
    ensures ss[i].submitted == ss[last + 1].submitted + ss[i].tasks
  {
    hide Inv;
    hide Next;
    RunKeeps(n, ss, es, i);
    if i == 0 {
      StartsAwake(n);
    } else {
      assert Step(ss[i - 1], es[i - 1], ss[i]);
      if AllExited(ss[i - 1].workers) {
        last := AbandonedIff(n, ss, es, i - 1);
        NothingTaken(ss[i - 1], es[i - 1]);
      } else {
        last := i - 1;
        RunKeeps(n, ss, es, i - 1);
        LastReturn(ss[i - 1], es[i - 1]);
      }
    }
    TakenInOrder(n, ss, es, i);
  }

  lemma StartsAwake(n: nat)
    requires n >= 1
    ensures !AllExited(Init(n).workers)
  {
    assert !Init(n).workers[0].Exited?;
  }

  /** When all workers have returned, the finished tasks are exactly those taken; so without late
      submits they are exactly those submitted. */
  lemma AllFinished(n: nat, ss: seq<State>, es: seq<Event>, i: nat)
    requires Run(n, ss, es) && i <= |es| && n >= 1 && AllExited(ss[i].workers)
    ensures multiset(ss[i].finished) == multiset(ss[i].taken)
    ensures !ss[i].late ==> multiset(ss[i].finished) == multiset(ss[i].submitted)
  {
    hide InHand;
    forall t: Task
      ensures multiset(ss[i].finished)[t] == multiset(ss[i].taken)[t]
    {
      EachRunOnce(n, ss, es, i, t);
      NobodyRuns(ss[i].workers, t);
    }
    ShutdownDrains(n, ss, es, i, 0);
  }

  /** A task pushed when all have returned stays in the queue for good. */
  lemma {:induction false} LateTaskAbandoned(ss: seq<State>, es: seq<Event>, i: nat)
    requires |ss| == |es| + 1 && forall k :: 0 <= k < |es| ==> Step(ss[k], es[k], ss[k + 1])
    requires i <= |es| && AllExited(ss[0].workers)
    ensures ss[i].workers == ss[0].workers && ss[i].taken == ss[0].taken && ss[0].tasks <= ss[i].tasks
  {
    hide Next;
    if i > 0 {
      LateTaskAbandoned(ss, es, i - 1);
      assert Step(ss[i - 1], es[i - 1], ss[i]);
      NothingTaken(ss[i - 1], es[i - 1]);
    }
  }

  lemma Go(n: nat, ss: seq<State>, es: seq<Event>, e: Event) returns (ss': seq<State>, es': seq<Event>)
    requires Run(n, ss, es) && Enabled(ss[|es|], e)
    ensures Run(n, ss', es') && |ss'| == |es'| + 1 && ss'[|es'|] == Next(ss[|es|], e)
  {
    hide Next;
    hide Enabled;
    ss', es' := ss + [Next(ss[|es|], e)], es + [e];
    forall i | 0 <= i < |es'|
      ensures Step(ss'[i], es'[i], ss'[i + 1])
    {
      if i < |es| { assert Step(ss[i], es[i], ss[i + 1]); }
    }
  }

  /** Such a run: one worker, stopped before it had anything to do, and a submit after it returned. */
  lemma AbandonedRun(t: Task) returns (ss: seq<State>, es: seq<Event>)
    ensures Run(1, ss, es) && AllExited(ss[|es|].workers) && ss[|es|].tasks == [t] && ss[|es|].taken == []
  {
    hide Run;
    ss, es := StoppedRun();
    ss, es := Go(1, ss, es, Acquire(0));
    ss, es := Go(1, ss, es, Check(0));
    ss, es := Go(1, ss, es, SubmitLock(t));
    ss, es := Go(1, ss, es, SubmitPush);
  }

  lemma StoppedRun() returns (ss: seq<State>, es: seq<Event>)
    ensures Run(1, ss, es) && |ss| == |es| + 1
    ensures ss[|es|] == State.State([], true, Free, [Wants], 0, false, [], [], [], false)
  {
    hide Run;
    ss, es := [Init(1)], [];
    Begins(1);
    ss, es := Go(1, ss, es, StopLock);
    ss, es := Go(1, ss, es, StopSet);
    ss, es := Go(1, ss, es, NotifyAll);
    assert ss[|es|].workers == [Wants];
  }

  lemma Begins(n: nat)
    ensures Run(n, [Init(n)], [])
  {
  }
}
