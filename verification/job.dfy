/**
 * The parallel job loop of SCons (scons/scons-local-2.5.0/SCons/Job.py): the main thread's Parallel.start and the
 * worker threads, as steps that interleave freely. A step is one access to a shared queue together with the
 * thread-local code around it.
 */
module ParallelJobs {

  /** Tasks are numbered in the order next_task hands them out. */
  type Task = nat

  datatype Option<+T> = None | Some(value: T)

  /** Where the main thread is: the loop bodies of start, then ThreadPool.cleanup with sentinels left to put. */
  datatype Main = Filling | Deciding | Getting | Testing | Cleaning(left: nat) | Finished

  datatype Worker = Idle | Running(task: Task) | Stopped

  /**
   * `requests` holds tasks and the None sentinels; `finished` records, per task, whether executed() or failed()
   * was called, each time followed by postprocess().
   */
  datatype State = State(main: Main, jobs: int, task: Option<Task>, requests: seq<Option<Task>>, workers: seq<Worker>,
                         results: seq<(Task, bool)>, issued: nat, finished: seq<(Task, bool)>)

  datatype Step =
    | NextNone         // next_task returns None
    | NextUnprepared   // prepare raises
    | NextUpToDate     // needs_execute is false
    | NextDispatched   // the task goes to the request queue
    | Full             // as many jobs as allowed
    | Decide           // leave the loop, or wait for results
    | Get              // a result, its callbacks
    | Test             // is the results queue empty?
    | PutSentinel
    | Leave
    | Take(worker: nat)
    | Put(worker: nat, ok: bool)

  /** maxjobs is the number of workers. */
  function MaxJobs(s: State): nat { |s.workers| }

  predicate CanStep(s: State, step: Step) {
    match step
    case NextNone => s.main.Filling? && s.jobs < MaxJobs(s)
    case NextUnprepared => s.main.Filling? && s.jobs < MaxJobs(s)
    case NextUpToDate => s.main.Filling? && s.jobs < MaxJobs(s)
    case NextDispatched => s.main.Filling? && s.jobs < MaxJobs(s)
    case Full => s.main.Filling? && s.jobs >= MaxJobs(s)
    case Decide => s.main.Deciding?
    case Get => s.main.Getting? && s.results != []
    case Test => s.main.Testing?
    case PutSentinel => s.main.Cleaning? && s.main.left > 0
    case Leave => s.main == Cleaning(0)
    case Take(w) => w < |s.workers| && s.workers[w].Idle? && s.requests != []
    case Put(w, _) => w < |s.workers| && s.workers[w].Running?
  }

  function After(s: State, step: Step): State
    requires CanStep(s, step)
  {
    match step
    case NextNone => s.(task := None, main := Deciding)
    case NextUnprepared => s.(task := Some(s.issued), issued := s.issued + 1, finished := s.finished + [(s.issued, false)])
    case NextUpToDate => s.(task := Some(s.issued), issued := s.issued + 1, finished := s.finished + [(s.issued, true)])
    case NextDispatched =>
      s.(task := Some(s.issued), issued := s.issued + 1, requests := s.requests + [Some(s.issued)], jobs := s.jobs + 1)
    case Full => s.(main := Deciding)
    case Decide => s.(main := if s.task.None? && s.jobs == 0 then Cleaning(|s.workers|) else Getting)
    case Get =>
      s.(task := Some(s.results[0].0), jobs := s.jobs - 1, finished := s.finished + [s.results[0]],
         results := s.results[1..], main := Testing)
    case Test => s.(main := if s.results == [] then Filling else Getting)
    case PutSentinel => s.(requests := s.requests + [None], main := Cleaning(s.main.left - 1))
    case Leave => s.(main := Finished)
    case Take(w) =>
      s.(requests := s.requests[1..],
         workers := s.workers[w := match s.requests[0] case None => Stopped case Some(t) => Running(t)])
    case Put(w, ok) =>
      s.(results := s.results + [(s.workers[w].task, ok)], workers := s.workers[w := Idle])
  }

  predicate Initial(s: State) {
    && s.main == Filling && s.jobs == 0 && s.task == None && s.requests == [] && s.results == []
    && s.workers != [] && (forall w :: 0 <= w < |s.workers| ==> s.workers[w] == Idle)
    && s.issued == 0 && s.finished == []
  }

  // ---------- counting tasks ----------

  /** How often task t is in the request queue. */
  function Queued(q: seq<Option<Task>>, t: Task): nat {
    if q == [] then 0 else Queued(q[..|q| - 1], t) + if q[|q| - 1] == Some(t) then 1 else 0
  }

  function Sentinels(q: seq<Option<Task>>): nat {
    if q == [] then 0 else Sentinels(q[..|q| - 1]) + if q[|q| - 1].None? then 1 else 0
  }

  function RunBy(ws: seq<Worker>, t: Task): nat {
    if ws == [] then 0 else RunBy(ws[..|ws| - 1], t) + if ws[|ws| - 1] == Running(t) then 1 else 0
  }

  function RunningCount(ws: seq<Worker>): nat {
    if ws == [] then 0 else RunningCount(ws[..|ws| - 1]) + if ws[|ws| - 1].Running? then 1 else 0
  }

  function StoppedCount(ws: seq<Worker>): nat {
    if ws == [] then 0 else StoppedCount(ws[..|ws| - 1]) + if ws[|ws| - 1].Stopped? then 1 else 0
  }

  /** How often task t has a result, or callbacks, in rs. */
  function Results(rs: seq<(Task, bool)>, t: Task): nat {
    if rs == [] then 0 else Results(rs[..|rs| - 1], t) + if rs[|rs| - 1].0 == t then 1 else 0
  }

  /** Where task t is between being dispatched and being taken from the results queue. */
  function Outstanding(s: State, t: Task): nat {
    Queued(s.requests, t) + RunBy(s.workers, t) + Results(s.results, t)
  }

  /** Tasks queued, running, or in the results queue. */
  function OutstandingCount(s: State): int {
    |s.requests| - Sentinels(s.requests) + RunningCount(s.workers) + |s.results|
  }

  lemma QueueGrows(q: seq<Option<Task>>, x: Option<Task>)
    ensures forall t: Task :: Queued(q + [x], t) == Queued(q, t) + if x == Some(t) then 1 else 0
    ensures Sentinels(q + [x]) == Sentinels(q) + if x.None? then 1 else 0
  {
    assert (q + [x])[..|q|] == q;
  }

  lemma {:induction false} QueueShrinks(q: seq<Option<Task>>)
    requires q != []
    ensures forall t: Task :: Queued(q, t) == Queued(q[1..], t) + if q[0] == Some(t) then 1 else 0
    ensures Sentinels(q) == Sentinels(q[1..]) + if q[0].None? then 1 else 0
    decreases |q|
  {
    var n := |q| - 1;
    if n == 0 {
      assert q[..0] == [] && q[1..] == [];
    } else {
      QueueShrinks(q[..n]);
      assert q[..n][1..] == q[1..][..n - 1] && q[1..][n - 1] == q[n];
    }
  }

  lemma {:induction false} WorkerChanges(ws: seq<Worker>, w: nat, x: Worker)
    requires w < |ws|
    ensures forall t: Task :: RunBy(ws[w := x], t) + (if ws[w] == Running(t) then 1 else 0)
                              == RunBy(ws, t) + if x == Running(t) then 1 else 0
    ensures RunningCount(ws[w := x]) + (if ws[w].Running? then 1 else 0) == RunningCount(ws) + if x.Running? then 1 else 0
    ensures StoppedCount(ws[w := x]) + (if ws[w].Stopped? then 1 else 0) == StoppedCount(ws) + if x.Stopped? then 1 else 0
  {
    var n := |ws| - 1;
    if w < n {
      assert ws[w := x][..n] == ws[..n][w := x];
      WorkerChanges(ws[..n], w, x);
    } else {
      assert ws[w := x][..n] == ws[..n];
    }
  }

  lemma ResultsGrow(rs: seq<(Task, bool)>, r: (Task, bool))
    ensures forall t: Task :: Results(rs + [r], t) == Results(rs, t) + if r.0 == t then 1 else 0
  {
    assert (rs + [r])[..|rs|] == rs;
  }

  lemma {:induction false} ResultsShrink(rs: seq<(Task, bool)>)
    requires rs != []
    ensures forall t: Task :: Results(rs, t) == Results(rs[1..], t) + if rs[0].0 == t then 1 else 0
    decreases |rs|
  {
    var n := |rs| - 1;
    if n == 0 {
      assert rs[..0] == [] && rs[1..] == [];
    } else {
      ResultsShrink(rs[..n]);
      assert rs[..n][1..] == rs[1..][..n - 1] && rs[1..][n - 1] == rs[n];
    }
  }

  lemma {:induction false} QueueBound(q: seq<Option<Task>>, t: Task)
    ensures Queued(q, t) + Sentinels(q) <= |q|
  {
    if q != [] {
      QueueBound(q[..|q| - 1], t);
    }
  }

  lemma {:induction false} WorkerBound(ws: seq<Worker>, t: Task)
    ensures RunBy(ws, t) <= RunningCount(ws)
  {
    if ws != [] {
      WorkerBound(ws[..|ws| - 1], t);
    }
  }

  lemma {:induction false} ResultBound(rs: seq<(Task, bool)>, t: Task)
    ensures Results(rs, t) <= |rs|
  {
    if rs != [] {
      ResultBound(rs[..|rs| - 1], t);
    }
  }

  lemma NoneOutstanding(s: State, t: Task)
    requires OutstandingCount(s) == 0
    ensures Outstanding(s, t) == 0
  {
    QueueBound(s.requests, t);
    WorkerBound(s.workers, t);
    ResultBound(s.results, t);
  }

  lemma {:induction false} AllIdle(ws: seq<Worker>)
    requires forall w :: 0 <= w < |ws| ==> ws[w].Idle?
    ensures RunningCount(ws) == 0 && StoppedCount(ws) == 0 && forall t: Task :: RunBy(ws, t) == 0
  {
    if ws != [] {
      AllIdle(ws[..|ws| - 1]);
    }
  }

  /** Some worker is idle unless all are busy or stopped. */
  lemma {:induction false} WorkerAvailable(ws: seq<Worker>)
    ensures RunningCount(ws) + StoppedCount(ws) <= |ws|
    ensures RunningCount(ws) + StoppedCount(ws) < |ws| ==> exists w :: 0 <= w < |ws| && ws[w].Idle?
    ensures RunningCount(ws) > 0 ==> exists w :: 0 <= w < |ws| && ws[w].Running?
    ensures StoppedCount(ws) == |ws| ==> forall w :: 0 <= w < |ws| ==> ws[w].Stopped?
  {
    if ws != [] {
      var n := |ws| - 1;
      WorkerAvailable(ws[..n]);
      assert ws[n].Idle? || ws[n].Running? || ws[n].Stopped?;
    }
  }

  // ---------- the invariant ----------

  ghost predicate Cleanup(s: State) {
    s.main.Cleaning? || s.main.Finished?
  }

  /** Each task handed out is in exactly one place, or done; no other task is anywhere. */
  ghost predicate EachOnce(s: State) {
    forall t: Task :: Results(s.finished, t) + Outstanding(s, t) == if t < s.issued then 1 else 0
  }

  ghost predicate Counters(s: State) {
    && s.workers != []
    && s.jobs == OutstandingCount(s) && 0 <= s.jobs <= MaxJobs(s)
    && Sentinels(s.requests) <= |s.requests|
    && (s.main.Deciding? ==> s.task.None? || s.jobs == MaxJobs(s))
    && (s.main.Getting? ==> s.jobs > 0)
    && (Cleanup(s) ==> s.jobs == 0)
    && (s.main.Cleaning? ==> s.main.left <= |s.workers|)
    && Sentinels(s.requests) + StoppedCount(s.workers)
       == if s.main.Cleaning? then |s.workers| - s.main.left else if s.main.Finished? then |s.workers| else 0
  }

  ghost predicate Inv(s: State) {
    Counters(s) && EachOnce(s)
  }

  lemma InitialInv(s: State)
    requires Initial(s)
    ensures Inv(s)
  {
    AllIdle(s.workers);
  }

  /** What a step does to the queues, said in counts. */
  lemma StepCounts(s: State, step: Step)
    requires CanStep(s, step)
    ensures var s' := After(s, step);
      && (step.Take? ==>
            && (forall t: Task :: Queued(s.requests, t) == Queued(s'.requests, t) + if s.requests[0] == Some(t) then 1 else 0)
            && Sentinels(s.requests) == Sentinels(s'.requests) + if s.requests[0].None? then 1 else 0)
      && (step.Take? || step.Put? ==> var w, x := s.workers[step.worker], s'.workers[step.worker];
            && (forall t: Task :: RunBy(s'.workers, t) + (if w == Running(t) then 1 else 0)
                                  == RunBy(s.workers, t) + if x == Running(t) then 1 else 0)
            && RunningCount(s'.workers) + (if w.Running? then 1 else 0) == RunningCount(s.workers) + (if x.Running? then 1 else 0)
            && StoppedCount(s'.workers) + (if w.Stopped? then 1 else 0) == StoppedCount(s.workers) + if x.Stopped? then 1 else 0)
  {
    if step.Take? {
      QueueShrinks(s.requests);
    }
    if step.Take? || step.Put? {
      WorkerChanges(s.workers, step.worker, After(s, step).workers[step.worker]);
    }
  }

  lemma WorkerKeepsCounters(s: State, step: Step)
    requires Counters(s) && CanStep(s, step) && (step.Take? || step.Put?)
    ensures Counters(After(s, step))
  {
    StepCounts(s, step);
    QueueBound(After(s, step).requests, 0);
    assert OutstandingCount(After(s, step)) == OutstandingCount(s);
  }

  lemma QueuePutKeepsCounters(s: State, step: Step)
    requires Counters(s) && CanStep(s, step) && (step.NextDispatched? || step.PutSentinel?)
    ensures Counters(After(s, step))
  {
    QueueGrows(s.requests, if step.PutSentinel? then None else Some(s.issued));
    assert OutstandingCount(After(s, step)) == OutstandingCount(s) + if step.PutSentinel? then 0 else 1;
  }

  lemma StepKeepsCounters(s: State, step: Step)
    requires Counters(s) && CanStep(s, step)
    ensures Counters(After(s, step))
  {
    match step
    case NextDispatched => QueuePutKeepsCounters(s, step);
    case PutSentinel => QueuePutKeepsCounters(s, step);
    case Take(_) => WorkerKeepsCounters(s, step);
    case Put(_, _) => WorkerKeepsCounters(s, step);
    case _ =>
  }

  lemma StepKeepsEachOnce(s: State, step: Step)
    requires EachOnce(s) && CanStep(s, step)
    ensures EachOnce(After(s, step))
  {
    match step
    case NextUnprepared => ResultsGrow(s.finished, (s.issued, false));
    case NextUpToDate => ResultsGrow(s.finished, (s.issued, true));
    case NextDispatched => QueueGrows(s.requests, Some(s.issued));
    case PutSentinel => QueueGrows(s.requests, None);
    case Get =>
      ResultsShrink(s.results);
      ResultsGrow(s.finished, s.results[0]);
    case Take(_) => StepCounts(s, step);
    case Put(w, ok) =>
      StepCounts(s, step);
      ResultsGrow(s.results, (s.workers[w].task, ok));
    case _ =>
  }

  /** Every step of every thread keeps the invariant. */
  lemma StepKeepsInv(s: State, step: Step)
    requires Inv(s) && CanStep(s, step)
    ensures Inv(After(s, step))
  {
    StepKeepsCounters(s, step);
    StepKeepsEachOnce(s, step);
  }

  // ---------- runs ----------

  ghost predicate Run(states: seq<State>, steps: seq<Step>) {
    && |states| == |steps| + 1 && Initial(states[0])
    && forall i :: 0 <= i < |steps| ==> CanStep(states[i], steps[i]) && states[i + 1] == After(states[i], steps[i])
  }

  /** Steps in which next_task hands out a task. */
  predicate Issues(step: Step) {
    step.NextUnprepared? || step.NextUpToDate? || step.NextDispatched?
  }

  /**
   * Over every interleaving: `jobs` counts exactly the tasks queued, running or in the results queue and never
   * exceeds maxjobs; the main thread waits for a result only while a task is outstanding; no task is
   * postprocessed twice; and once the loop is left, nothing is outstanding and every task was postprocessed.
   */
  lemma {:induction false} RunSafety(states: seq<State>, steps: seq<Step>)
    requires Run(states, steps)
    ensures var s := states[|steps|];
      && Inv(s) && s.jobs == OutstandingCount(s) <= MaxJobs(s)
      && (s.main.Getting? ==> OutstandingCount(s) > 0)
      && (forall t: Task :: Results(s.finished, t) <= if t < s.issued then 1 else 0)
      && (Cleanup(s) ==> OutstandingCount(s) == 0 && forall t: Task :: t < s.issued ==> Results(s.finished, t) == 1)
    decreases |steps|
  {
    var n := |steps|;
    var s := states[n];
    if n == 0 {
      InitialInv(s);
    } else {
      RunSafety(states[..n], steps[..n - 1]);
      assert CanStep(states[n - 1], steps[n - 1]);
      StepKeepsInv(states[n - 1], steps[n - 1]);
    }
    if Cleanup(s) {
      forall t: Task | t < s.issued
        ensures Results(s.finished, t) == 1
      {
        NoneOutstanding(s, t);
      }
    }
  }

  lemma RunPrefix(states: seq<State>, steps: seq<Step>)
    requires Run(states, steps) && steps != []
    ensures var n := |steps| - 1;
      && Run(states[..n + 1], steps[..n]) && states[..n + 1][n] == states[n]
      && CanStep(states[n], steps[n]) && states[n + 1] == After(states[n], steps[n])
  {
  }

  // ---------- outcomes ----------

  /**
   * This step decides how task t ends: a worker's execute() returned (ok) or raised, or the main thread found nothing
   * to execute (ok) or could not prepare it.
   */
  predicate Decides(s: State, step: Step, t: Task, ok: bool) {
    match step
    case Put(w, executed) => w < |s.workers| && s.workers[w] == Running(t) && ok == executed
    case NextUpToDate => t == s.issued && ok
    case NextUnprepared => t == s.issued && !ok
    case _ => false
  }

  ghost predicate Decided(states: seq<State>, steps: seq<Step>, t: Task, ok: bool)
    requires |steps| <= |states|
  {
    exists i :: 0 <= i < |steps| && Decides(states[i], steps[i], t, ok)
  }

  ghost predicate Recorded(s: State, t: Task, ok: bool) {
    (t, ok) in s.finished || (t, ok) in s.results
  }

  lemma StepRecords(s: State, step: Step, t: Task, ok: bool)
    requires CanStep(s, step)
    ensures Recorded(After(s, step), t, ok) <==> Recorded(s, t, ok) || Decides(s, step, t, ok)
  {
    if step.Get? {
      assert s.results == [s.results[0]] + After(s, step).results;
    }
  }

  /**
   * Over every interleaving: a task is recorded as executed, or as failed, exactly if some step of the run decided it
   * so. After Get the record says which callback was made.
   */
  lemma {:induction false} OutcomesAreDecided(states: seq<State>, steps: seq<Step>, t: Task, ok: bool)
    requires Run(states, steps)
    ensures Recorded(states[|steps|], t, ok) <==> Decided(states, steps, t, ok)
    decreases |steps|
  {
    var n := |steps| - 1;
    if n >= 0 {
      RunPrefix(states, steps);
      OutcomesAreDecided(states[..n + 1], steps[..n], t, ok);
      StepRecords(states[n], steps[n], t, ok);
      DecidedNext(states, steps, t, ok);
    }
  }

  lemma DecidedNext(states: seq<State>, steps: seq<Step>, t: Task, ok: bool)
    requires |states| == |steps| + 1 && steps != []
    ensures var n := |steps| - 1;
      Decided(states, steps, t, ok) <==> Decided(states[..n + 1], steps[..n], t, ok) || Decides(states[n], steps[n], t, ok)
  {
    var n := |steps| - 1;
    if Decided(states[..n + 1], steps[..n], t, ok) {
      var i :| 0 <= i < n && Decides(states[..n + 1][i], steps[..n][i], t, ok);
      assert Decides(states[i], steps[i], t, ok);
    }
    if Decided(states, steps, t, ok) && !Decides(states[n], steps[n], t, ok) {
      var i :| 0 <= i < n + 1 && Decides(states[i], steps[i], t, ok);
      assert Decides(states[..n + 1][i], steps[..n][i], t, ok);
    }
  }

  // ---------- order ----------

  /** What a step puts on the request queue. */
  function RequestPut(s: State, step: Step): seq<Option<Task>> {
    match step
    case NextDispatched => [Some(s.issued)]
    case PutSentinel => [None]
    case _ => []
  }

  /** What became of a worker that took something from it: its task, or None for one that stopped. */
  function RequestTaken(after: State, step: Step): seq<Option<Task>> {
    if step.Take? && step.worker < |after.workers| then
      match after.workers[step.worker]
      case Running(t) => [Some(t)]
      case _ => [None]
    else []
  }

  function ResultPut(s: State, step: Step): seq<(Task, bool)> {
    if step.Put? && step.worker < |s.workers| && s.workers[step.worker].Running?
    then [(s.workers[step.worker].task, step.ok)] else []
  }

  /** The callbacks for a result: what Get adds to `finished`. */
  function ResultHandled(after: State, step: Step): seq<(Task, bool)> {
    if step.Get? && after.finished != [] then [after.finished[|after.finished| - 1]] else []
  }

  lemma StepIsFifo(s: State, step: Step)
    requires CanStep(s, step)
    ensures s.requests + RequestPut(s, step) == RequestTaken(After(s, step), step) + After(s, step).requests
    ensures s.results + ResultPut(s, step) == ResultHandled(After(s, step), step) + After(s, step).results
  {
  }

  function Requested(states: seq<State>, steps: seq<Step>): seq<Option<Task>>
    requires |steps| < |states|
  {
    if steps == [] then []
    else Requested(states, steps[..|steps| - 1]) + RequestPut(states[|steps| - 1], steps[|steps| - 1])
  }

  function Taken(states: seq<State>, steps: seq<Step>): seq<Option<Task>>
    requires |steps| < |states|
  {
    if steps == [] then []
    else Taken(states, steps[..|steps| - 1]) + RequestTaken(states[|steps|], steps[|steps| - 1])
  }

  function Delivered(states: seq<State>, steps: seq<Step>): seq<(Task, bool)>
    requires |steps| < |states|
  {
    if steps == [] then []
    else Delivered(states, steps[..|steps| - 1]) + ResultPut(states[|steps| - 1], steps[|steps| - 1])
  }

  function Handled(states: seq<State>, steps: seq<Step>): seq<(Task, bool)>
    requires |steps| < |states|
  {
    if steps == [] then []
    else Handled(states, steps[..|steps| - 1]) + ResultHandled(states[|steps|], steps[|steps| - 1])
  }

  lemma Requeue<T>(put: seq<T>, taken: seq<T>, queue: seq<T>, put': seq<T>, taken': seq<T>, queue': seq<T>)
    requires put == taken + queue && queue + put' == taken' + queue'
    ensures put + put' == taken + taken' + queue'
  {
    assert put + put' == taken + (queue + put');
    assert taken + taken' + queue' == taken + (taken' + queue');
  }

  /**
   * Both queues are first in, first out, over every interleaving: workers take requests in the order in which they
   * were put, and the main thread handles results in the order in which the workers put them.
   */
  lemma {:induction false} QueuesAreFifo(states: seq<State>, steps: seq<Step>, n: nat)
    requires Run(states, steps) && n <= |steps|
    ensures Requested(states, steps[..n]) == Taken(states, steps[..n]) + states[n].requests
    ensures Delivered(states, steps[..n]) == Handled(states, steps[..n]) + states[n].results
  {
    if n > 0 {
      var init, s, step, after := steps[..n - 1], states[n - 1], steps[n - 1], states[n];
      QueuesAreFifo(states, steps, n - 1);
      assert steps[..n][..n - 1] == init && steps[..n][n - 1] == step && |steps[..n]| == n;
      StepIsFifo(s, step);
      Requeue(Requested(states, init), Taken(states, init), s.requests,
              RequestPut(s, step), RequestTaken(after, step), after.requests);
      Requeue(Delivered(states, init), Handled(states, init), s.results,
              ResultPut(s, step), ResultHandled(after, step), after.results);
    }
  }

  /** next_task is asked. */
  predicate Asks(step: Step) {
    Issues(step) || step.NextNone?
  }

  /** After handling a result the main thread asks for no task before it has seen the results queue empty. */
  lemma {:induction false} DrainsFirst(states: seq<State>, steps: seq<Step>, k: nat)
    requires Run(states, steps) && k < |steps| && steps[k].Get?
    requires forall i :: k < i < |steps| && steps[i].Test? ==> states[i].results != []
    ensures states[|steps|].main.Testing? || states[|steps|].main.Getting?
    ensures forall i :: k < i < |steps| ==> !Asks(steps[i])
    decreases |steps|
  {
    var n := |steps| - 1;
    RunPrefix(states, steps);
    if k < n {
      DrainsFirst(states[..n + 1], steps[..n], k);
    }
  }

  /**
   * The loop is left only after next_task has returned None with nothing outstanding, and no task is asked for after
   * that.
   */
  lemma {:induction false} LeavesAfterNone(states: seq<State>, steps: seq<Step>) returns (k: nat)
    requires Run(states, steps)
    requires Cleanup(states[|steps|]) || (states[|steps|].main.Deciding? && states[|steps|].jobs == 0)
    ensures k < |steps| && steps[k].NextNone? && OutstandingCount(states[k]) == 0
    ensures forall i :: k < i < |steps| ==> !Asks(steps[i])
    decreases |steps|
  {
    RunSafety(states, steps);
    var n := |steps| - 1;
    if n < 0 {
      assert false;
    } else {
      RunPrefix(states, steps);
      RunSafety(states[..n + 1], steps[..n]);
      if steps[n].NextNone? {
        k := n;
      } else {
        k := LeavesAfterNone(states[..n + 1], steps[..n]);
      }
    }
  }

  // ---------- progress ----------

  /** Everything is over: main thread and all workers have ended and both queues are empty. */
  ghost predicate Over(s: State) {
    && s.main.Finished? && s.requests == [] && s.results == []
    && forall w :: 0 <= w < |s.workers| ==> s.workers[w].Stopped?
  }

  /** There is no deadlock: unless everything is over, some thread can take a step. */
  lemma NoDeadlock(s: State)
    requires Inv(s)
    ensures Over(s) || exists step :: CanStep(s, step)
  {
    WorkerAvailable(s.workers);
    match s.main
    case Filling => assert CanStep(s, NextNone) || CanStep(s, Full);
    case Deciding => assert CanStep(s, Decide);
    case Testing => assert CanStep(s, Test);
    case Cleaning(left) => assert CanStep(s, PutSentinel) || CanStep(s, Leave);
    case Getting =>
      if s.results != [] {
        assert CanStep(s, Get);
      } else {
        WorkerCanStep(s);
      }
    case Finished =>
      if s.requests == [] {
        assert StoppedCount(s.workers) == |s.workers|;
      } else {
        var w :| 0 <= w < |s.workers| && s.workers[w].Idle?;
        assert CanStep(s, Take(w));
      }
  }

  lemma WorkerCanStep(s: State)
    requires Inv(s) && s.main.Getting? && s.results == []
    ensures exists step :: CanStep(s, step)
  {
    WorkerAvailable(s.workers);
    if RunningCount(s.workers) > 0 {
      var w :| 0 <= w < |s.workers| && s.workers[w].Running?;
      assert CanStep(s, Put(w, true));
    } else {
      assert s.requests != [];
      var w :| 0 <= w < |s.workers| && s.workers[w].Idle?;
      assert CanStep(s, Take(w));
    }
  }

  /** Bounds the steps still possible without a new task. */
  ghost function Measure(s: State): nat
    requires Sentinels(s.requests) <= |s.requests|
  {
    6 * (|s.requests| - Sentinels(s.requests)) + Sentinels(s.requests) + 5 * RunningCount(s.workers) + 4 * |s.results|
    + match s.main
      case Testing => 2 * |s.workers| + 6
      case Filling => 2 * |s.workers| + 5
      case Deciding => 2 * |s.workers| + 4
      case Getting => 2 * |s.workers| + 3
      case Cleaning(left) => 2 * left + 1
      case Finished => 0
  }

  lemma WorkerMeasure(s: State, step: Step)
    requires Counters(s) && CanStep(s, step) && (step.Take? || step.Put?)
    ensures Counters(After(s, step))
    ensures Measure(After(s, step)) < Measure(s)
  {
    WorkerKeepsCounters(s, step);
    StepCounts(s, step);
  }

  lemma StepMeasure(s: State, step: Step)
    requires Counters(s) && CanStep(s, step)
    ensures Counters(After(s, step))
    ensures Measure(After(s, step)) < Measure(s) + if Issues(step) then 7 else 0
    ensures |After(s, step).workers| == |s.workers|
    ensures After(s, step).issued == s.issued + if Issues(step) then 1 else 0
  {
    StepKeepsCounters(s, step);
    match step
    case NextDispatched => QueueGrows(s.requests, Some(s.issued));
    case PutSentinel => QueueGrows(s.requests, None);
    case Take(_) => WorkerMeasure(s, step);
    case Put(_, _) => WorkerMeasure(s, step);
    case _ =>
  }

  /** No livelock: a run that is handed T tasks has at most 2 * workers + 5 + 7 * T steps, however it is scheduled. */
  lemma {:induction false} RunIsBounded(states: seq<State>, steps: seq<Step>)
    requires Run(states, steps)
    ensures Counters(states[|steps|]) && |states[0].workers| == |states[|steps|].workers|
    ensures |steps| + Measure(states[|steps|]) <= 2 * |states[0].workers| + 5 + 7 * states[|steps|].issued
    decreases |steps|
  {
    var n := |steps|;
    if n == 0 {
      InitialInv(states[0]);
      AllIdle(states[0].workers);
    } else {
      RunIsBounded(states[..n], steps[..n - 1]);
      var s, step := states[n - 1], steps[n - 1];
      assert states[..n][n - 1] == s && CanStep(s, step) && states[n] == After(s, step);
      StepMeasure(s, step);
    }
  }

  /** A run that cannot go on is over, and every task it was handed was postprocessed exactly once. */
  lemma StuckRunIsComplete(states: seq<State>, steps: seq<Step>)
    requires Run(states, steps) && forall step :: !CanStep(states[|steps|], step)
    ensures Over(states[|steps|])
    ensures forall t: Task :: Results(states[|steps|].finished, t) == if t < states[|steps|].issued then 1 else 0
    ensures forall t: Task, ok :: (t, ok) in states[|steps|].finished <==> Decided(states, steps, t, ok)
  {
    RunSafety(states, steps);
    NoDeadlock(states[|steps|]);
    forall t: Task, ok
      ensures (t, ok) in states[|steps|].finished <==> Decided(states, steps, t, ok)
    {
      OutcomesAreDecided(states, steps, t, ok);
    }
  }
}
