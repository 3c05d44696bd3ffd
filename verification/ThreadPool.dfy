/** The worker pool of the server (cpp_learning_projects/30dayMakeCppServer/day11/src/ThreadPool.cpp:3-39 and
    ThreadPool.h:33-53): a queue of tasks under a mutex, a condition variable, and a destructor that drains.

    A critical section is one step.  The notification that follows it is another, and so is the start of
    `task()`: other threads may come between.  A notification wakes one sleeping worker, any one, or none if
    none sleeps; sleepers may also wake by themselves.
*/
module ThreadPool {

  type Task = nat

  type Worker = nat

  type Thread = nat

  // ---------------------------------------------------------------- the critical sections

  /** What the mutex protects. */
  datatype Queue = Queue(tasks: seq<Task>, stop: bool)

  /** What a worker does with the lock held: wait, return, or take the task at the front. */
  datatype Outcome = Wait | Return | Take(task: Task)

  function Look(q: Queue): Outcome {
    if !q.stop && q.tasks == [] then Wait
    else if q.tasks == [] then Return
    else Take(q.tasks[0])
  }

  function Enqueued(q: Queue, task: Task): Queue {
    if q.stop then q else q.(tasks := q.tasks + [task])
  }

  function Looked(q: Queue): Queue {
    if Look(q).Take? then q.(tasks := q.tasks[1..]) else q
  }

  /** The critical sections as methods; the steps of the protocol below change its queue by the same
      functions. */
  class TaskQueue {
    var tasks: seq<Task>
    var stop: bool

    ghost function Abs(): Queue
      reads this
    {
      Queue(tasks, stop)
    }

    constructor ()
      ensures Abs() == Queue([], false)
    {
      tasks, stop := [], false;
    }

    /** False stands for the exception. */
    method Add(task: Task) returns (accepted: bool)
      modifies `tasks
      ensures Abs() == Enqueued(old(Abs()), task) && (accepted <==> !stop)
    {
      if stop {
        return false;
      }
      tasks := tasks + [task];
      return true;
    }

    method Next() returns (outcome: Outcome)
      modifies `tasks
      ensures outcome == Look(old(Abs())) && Abs() == Looked(old(Abs()))
    {
      if !(stop || tasks != []) {
        return Wait;
      }
      if stop && tasks == [] {
        return Return;
      }
      var task := tasks[0];
      tasks := tasks[1..];
      return Take(task);
    }

    method Stop()
      modifies `stop
      ensures Abs() == old(Abs()).(stop := true)
    {
      stop := true;
    }
  }

  // ---------------------------------------------------------------- the protocol

  /** `Running(k)`: on the task that was taken as number `k`. */
  datatype WorkerPc = Ready | Asleep | Running(k: nat) | Exited

  /** A thread that adds tasks: `Added` still owes the notification. */
  datatype AdderPc = Idle | Added

  /** The destructor: not begun, past the flag, past the notification. */
  datatype Destructor = Alive | Stopped | Joining

  /** `accepted` and `started` are the tasks in the order they were queued and taken; `runner[k]` is the
      worker that took number `k`, and `done` are the numbers whose task has returned. */
  datatype State = State(
    queue: Queue,
    workers: map<Worker, WorkerPc>,
    adders: map<Thread, AdderPc>,
    destructor: Destructor,
    accepted: seq<Task>,
    started: seq<Task>,
    runner: seq<Worker>,
    done: set<nat>)

  datatype Step =
    | Enter(w: Worker)
    | Finish(w: Worker)
    | WakeUp(w: Worker)
    | Add(t: Thread, task: Task)
    | NotifyOne(t: Thread, w: Worker)
    | NotifyNone(t: Thread)
    | SetStop
    | NotifyAll

  predicate Init(s: State) {
    && s.queue == Queue([], false) && s.destructor == Alive
    && (forall w :: w in s.workers ==> s.workers[w] == Ready) && (forall t :: t in s.adders ==> s.adders[t] == Idle)
    && s.accepted == [] && s.started == [] && s.runner == [] && s.done == {}
  }

  ghost predicate Enabled(s: State, step: Step) {
    match step
    case Enter(w) => w in s.workers && s.workers[w].Ready?
    case Finish(w) => w in s.workers && s.workers[w].Running?
    case WakeUp(w) => w in s.workers && s.workers[w].Asleep?
    case Add(t, _) => t in s.adders && s.adders[t].Idle?
    case NotifyOne(t, w) => t in s.adders && s.adders[t].Added? && w in s.workers && s.workers[w].Asleep?
    case NotifyNone(t) => t in s.adders && s.adders[t].Added? && forall w :: w in s.workers ==> !s.workers[w].Asleep?
    case SetStop => s.destructor.Alive?
    case NotifyAll => s.destructor.Stopped?
  }

  function Roused(workers: map<Worker, WorkerPc>): map<Worker, WorkerPc> {
    map w | w in workers :: if workers[w].Asleep? then Ready else workers[w]
  }

  ghost function Apply(s: State, step: Step): State
    requires Enabled(s, step)
  {
    match step
    case Enter(w) =>
      (match Look(s.queue)
       case Wait => s.(workers := s.workers[w := Asleep])
       case Return => s.(workers := s.workers[w := Exited])
       case Take(task) =>
         s.(workers := s.workers[w := Running(|s.started|)], queue := Looked(s.queue),
            started := s.started + [task], runner := s.runner + [w]))
    case Finish(w) => s.(workers := s.workers[w := Ready], done := s.done + {s.workers[w].k})
    case WakeUp(w) => s.(workers := s.workers[w := Ready])
    case Add(t, task) =>
      if s.queue.stop then s
      else s.(queue := Enqueued(s.queue, task), adders := s.adders[t := Added], accepted := s.accepted + [task])
    case NotifyOne(t, w) => s.(adders := s.adders[t := Idle], workers := s.workers[w := Ready])
    case NotifyNone(t) => s.(adders := s.adders[t := Idle])
    case SetStop => s.(queue := s.queue.(stop := true), destructor := Stopped)
    case NotifyAll => s.(workers := Roused(s.workers), destructor := Joining)
  }

  // ---------------------------------------------------------------- invariants

  ghost function At(workers: map<Worker, WorkerPc>, pc: WorkerPc): set<Worker> {
    set w | w in workers && workers[w] == pc
  }

  ghost function Owing(adders: map<Thread, AdderPc>): set<Thread> {
    set t | t in adders && adders[t].Added?
  }

  /** While any worker sleeps, each waiting task has a worker awake to look at the queue, or a notification
      to come. */
  ghost predicate Attended(s: State) {
    At(s.workers, Asleep) != {} ==> |s.queue.tasks| <= |At(s.workers, Ready)| + |Owing(s.adders)|
  }

  /** First in, first out: the started tasks and those that wait are the accepted ones. */
  ghost predicate InOrder(s: State) {
    s.started + s.queue.tasks == s.accepted
  }

  /** A task that was taken is on the worker that took it, until it is done. */
  ghost predicate Tracked(s: State) {
    && |s.runner| == |s.started|
    && (forall k :: k in s.done ==> k < |s.started|)
    && (forall k :: 0 <= k < |s.started| && k !in s.done ==>
          s.runner[k] in s.workers && s.workers[s.runner[k]] == Running(k))
    && forall w :: w in s.workers && s.workers[w].Running? ==>
      s.workers[w].k < |s.started| && s.runner[s.workers[w].k] == w && s.workers[w].k !in s.done
  }

  /** Workers return only from an empty queue that nothing can enter any more, and once the destructor has
      notified them none sleeps. */
  ghost predicate Drained(s: State) {
    && (s.queue.stop <==> !s.destructor.Alive?)
    && (forall w :: w in s.workers && s.workers[w].Exited? ==> s.queue == Queue([], true))
    && (s.destructor.Joining? ==> forall w :: w in s.workers ==> !s.workers[w].Asleep?)
  }

  ghost predicate Inv(s: State) {
    Attended(s) && InOrder(s) && Tracked(s) && Drained(s)
  }

  lemma Moves(workers: map<Worker, WorkerPc>, w: Worker, to: WorkerPc, pc: WorkerPc)
    requires w in workers
    ensures At(workers[w := to], pc) == if pc == to then At(workers, pc) + {w} else At(workers, pc) - {w}
    ensures |At(workers[w := to], pc)| == |At(workers, pc)| +
      (if pc == to then 1 else 0) - (if pc == workers[w] then 1 else 0)
  {
    assert At(workers[w := to], pc) == if pc == to then At(workers, pc) + {w} else At(workers, pc) - {w};
    assert w in At(workers, pc) <==> pc == workers[w];
  }

  lemma Owes(adders: map<Thread, AdderPc>, t: Thread, to: AdderPc)
    requires t in adders && adders[t] != to
    ensures |Owing(adders[t := to])| == |Owing(adders)| + if to.Added? then 1 else -1
  {
    assert Owing(adders[t := to]) == if to.Added? then Owing(adders) + {t} else Owing(adders) - {t};
    assert t in Owing(adders) <==> !to.Added?;
  }

  lemma EnterAttended(s: State, w: Worker)
    requires Attended(s) && Enabled(s, Enter(w))
    ensures Attended(Apply(s, Enter(w)))
  {
    var to := Apply(s, Enter(w)).workers[w];
    Moves(s.workers, w, to, Ready);
    Moves(s.workers, w, to, Asleep);
  }

  lemma AttendedKeeps(s: State, step: Step)
    requires Attended(s) && Enabled(s, step)
    ensures Attended(Apply(s, step))
  {
    match step
    case Enter(w) => EnterAttended(s, w);
    case Finish(w) => Moves(s.workers, w, Ready, Ready); Moves(s.workers, w, Ready, Asleep);
    case WakeUp(w) => Moves(s.workers, w, Ready, Ready); Moves(s.workers, w, Ready, Asleep);
    case Add(t, _) => if !s.queue.stop { Owes(s.adders, t, Added); }
    case NotifyOne(t, w) =>
      Owes(s.adders, t, Idle);
      Moves(s.workers, w, Ready, Ready);
      Moves(s.workers, w, Ready, Asleep);
    case NotifyNone(t) => assert At(s.workers, Asleep) == {};
    case NotifyAll => assert At(Roused(s.workers), Asleep) == {};
    case _ =>
  }

  lemma TrackedKeeps(s: State, step: Step)
    requires Tracked(s) && Enabled(s, step)
    ensures Tracked(Apply(s, step))
  {
  }

  lemma DrainedKeeps(s: State, step: Step)
    requires Drained(s) && Enabled(s, step)
    ensures Drained(Apply(s, step))
  {
  }

  lemma InOrderKeeps(s: State, step: Step)
    requires InOrder(s) && Enabled(s, step)
    ensures InOrder(Apply(s, step))
  {
    var q := s.queue.tasks;
    assert q != [] ==> q == [q[0]] + q[1..];
    assert q != [] ==> (s.started + [q[0]]) + q[1..] == s.started + q;
    if step.Add? {
      assert s.started + (q + [step.task]) == (s.started + q) + [step.task];
    }
  }

  lemma StepKeeps(s: State, step: Step)
    requires Inv(s) && Enabled(s, step)
    ensures Inv(Apply(s, step))
  {
    AttendedKeeps(s, step);
    TrackedKeeps(s, step);
    DrainedKeeps(s, step);
    InOrderKeeps(s, step);
  }

  // ---------------------------------------------------------------- runs

  ghost predicate IsRun(s: State, steps: seq<Step>)
    decreases |steps|
  {
    steps != [] ==> Enabled(s, steps[0]) && IsRun(Apply(s, steps[0]), steps[1..])
  }

  ghost function After(s: State, steps: seq<Step>): State
    requires IsRun(s, steps)
    decreases |steps|
  {
    if steps == [] then s else After(Apply(s, steps[0]), steps[1..])
  }

  lemma First(s: State, step: Step, rest: seq<Step>)
    requires Enabled(s, step) && IsRun(Apply(s, step), rest)
    ensures IsRun(s, [step] + rest) && After(s, [step] + rest) == After(Apply(s, step), rest)
  {
    assert ([step] + rest)[1..] == rest;
  }

  lemma {:induction false} RunKeeps(s: State, steps: seq<Step>)
    requires Inv(s) && IsRun(s, steps)
    ensures Inv(After(s, steps)) && After(s, steps).workers.Keys == s.workers.Keys
    decreases |steps|
  {
    if steps != [] {
      StepKeeps(s, steps[0]);
      assert Apply(s, steps[0]).workers.Keys == s.workers.Keys;
      RunKeeps(Apply(s, steps[0]), steps[1..]);
    }
  }

  lemma InitInv(s: State)
    requires Init(s)
    ensures Inv(s)
  {
    assert At(s.workers, Asleep) == {};
  }

  /** In every run of a pool with a worker: while tasks wait, a worker is looking at the queue or running, or
      a notification is on its way. */
  lemma NeverAllAsleep(s: State, steps: seq<Step>)
    requires Init(s) && IsRun(s, steps) && s.workers.Keys != {}
    ensures var s' := After(s, steps); s'.queue.tasks != [] ==>
      Owing(s'.adders) != {} || exists w :: w in s'.workers && (s'.workers[w].Ready? || s'.workers[w].Running?)
  {
    InitInv(s);
    RunKeeps(s, steps);
    var s' := After(s, steps);
    if s'.queue.tasks != [] {
      var w :| w in s'.workers;
      assert s'.workers[w].Asleep? ==> w in At(s'.workers, Asleep);
      if s'.workers[w].Asleep? && Owing(s'.adders) == {} {
        assert At(s'.workers, Ready) != {};
        var r :| r in At(s'.workers, Ready);
        assert s'.workers[r].Ready?;
      }
    }
  }

  /** In every run tasks start in the order they were accepted, each at most once, and the numbers taken by
      the workers at work are distinct and not done. */
  lemma EveryRunInOrder(s: State, steps: seq<Step>)
    requires Init(s) && IsRun(s, steps)
    ensures var s' := After(s, steps);
      && s'.started <= s'.accepted && Tracked(s')
      && forall v, w ::
        (v in s'.workers && w in s'.workers && s'.workers[v].Running? && s'.workers[v] == s'.workers[w]) ==> v == w
  {
    InitInv(s);
    RunKeeps(s, steps);
  }

  ghost predicate AllExited(s: State) {
    forall w :: w in s.workers ==> s.workers[w].Exited?
  }

  /** When every worker has returned, so that the destructor has joined them, and there was at least one,
      every accepted task has been started in order and has run to its end. */
  lemma JoinedMeansAllRan(s: State, steps: seq<Step>)
    requires Init(s) && IsRun(s, steps) && s.workers.Keys != {} && AllExited(After(s, steps))
    ensures var s' := After(s, steps);
      s'.started == s'.accepted && forall k: nat :: k in s'.done <==> k < |s'.accepted|
  {
    InitInv(s);
    RunKeeps(s, steps);
    AllRan(After(s, steps));
  }

  lemma AllRan(s: State)
    requires Inv(s) && s.workers.Keys != {} && AllExited(s)
    ensures s.started == s.accepted && forall k: nat :: k in s.done <==> k < |s.accepted|
  {
    var w :| w in s.workers;
    assert s.workers[w].Exited?;
    assert s.started + [] == s.started;
    forall k: nat | k < |s.accepted|
      ensures k in s.done
    {
      var r := s.runner[k];
      assert r in s.workers ==> s.workers[r].Exited?;
    }
  }

  lemma {:induction false} AcceptedStays(s: State, steps: seq<Step>)
    requires IsRun(s, steps)
    ensures s.accepted <= After(s, steps).accepted
    decreases |steps|
  {
    if steps != [] {
      AcceptedStays(Apply(s, steps[0]), steps[1..]);
    }
  }

  /** A task that `add` does not refuse is taken under the number it was accepted with, and has run to its end
      when all workers have returned; one that it refuses is never accepted.  Whatever runs before and after. */
  lemma AddedTaskRuns(s: State, before: seq<Step>, t: Thread, task: Task, after: seq<Step>)
    requires Init(s) && s.workers.Keys != {} && IsRun(s, before) && Enabled(After(s, before), Add(t, task))
    requires IsRun(Apply(After(s, before), Add(t, task)), after)
    requires AllExited(After(Apply(After(s, before), Add(t, task)), after))
    ensures var m := After(s, before); var d := After(Apply(m, Add(t, task)), after); var k := |m.accepted|;
      if m.queue.stop then d.accepted == m.accepted
      else k < |d.started| && d.started[k] == task && k in d.done
  {
    var m := After(s, before);
    var a := Apply(m, Add(t, task));
    InitInv(s);
    RunKeeps(s, before);
    StepKeeps(m, Add(t, task));
    RunKeeps(a, after);
    if m.queue.stop {
      StoppedAcceptsNothing(a, after);
    } else {
      AllRan(After(a, after));
      AcceptedStays(a, after);
      assert a.accepted[|m.accepted|] == task;
    }
  }

  /** A pool of no workers keeps every task it accepts waiting for ever. */
  lemma {:induction false} NoWorkersRunNothing(s: State, steps: seq<Step>)
    requires s.workers == map[] && s.started == [] && IsRun(s, steps)
    ensures After(s, steps).started == []
    decreases |steps|
  {
    if steps != [] {
      assert Apply(s, steps[0]).workers == map[];
      NoWorkersRunNothing(Apply(s, steps[0]), steps[1..]);
    }
  }

  /** Once the flag is set no task is accepted: not after the destructor has begun, and not at all in a pool
      whose flag, which the constructor leaves as it finds it, happens to be set. */
  lemma {:induction false} StoppedAcceptsNothing(s: State, steps: seq<Step>)
    requires s.queue.stop && IsRun(s, steps)
    ensures After(s, steps).queue.stop && After(s, steps).accepted == s.accepted
    decreases |steps|
  {
    if steps != [] {
      StoppedAcceptsNothing(Apply(s, steps[0]), steps[1..]);
    }
  }

  /** A sleeper that is notified, or wakes by itself, looks at the queue again; one that is not stays asleep until
      the destructor notifies all. */
  lemma SleepersWake(s: State, step: Step, w: Worker)
    requires Enabled(s, step) && w in s.workers && s.workers[w].Asleep?
    ensures w in Apply(s, step).workers
    ensures Apply(s, step).workers[w] ==
      if step == WakeUp(w) || step == NotifyAll || (step.NotifyOne? && step.w == w) then Ready else Asleep
  {
  }

  // Progress of the shutdown.

  function Drain(w: Worker, n: nat): seq<Step> {
    if n == 0 then [Enter(w)] else [Enter(w)] + ([Finish(w)] + Drain(w, n - 1))
  }

  /** The worker takes the first task and finishes it. */
  lemma OneTaskDone(s: State, w: Worker)
    requires w in s.workers && s.workers[w].Ready? && s.queue.tasks != []
    ensures Enabled(s, Enter(w)) && Enabled(Apply(s, Enter(w)), Finish(w))
    ensures var d := Apply(Apply(s, Enter(w)), Finish(w));
      && d.queue == s.queue.(tasks := s.queue.tasks[1..]) && d.started == s.started + [s.queue.tasks[0]]
      && w in d.workers && d.workers[w].Ready?
  {
  }

  lemma FirstOf(a: seq<Task>, b: seq<Task>)
    requires b != []
    ensures (a + [b[0]]) + b[1..] == a + b
  {
    assert [b[0]] + b[1..] == b;
  }

  /** One worker that is awake is enough: by itself it runs what waits, in order, and then sleeps or, after the
      flag is set, returns. */
  lemma {:induction false} OneWorkerDrains(s: State, w: Worker)
    requires w in s.workers && s.workers[w].Ready?
    ensures IsRun(s, Drain(w, |s.queue.tasks|))
    ensures var s' := After(s, Drain(w, |s.queue.tasks|));
      && s'.queue == s.queue.(tasks := []) && s'.started == s.started + s.queue.tasks
      && w in s'.workers && s'.workers[w] == if s.queue.stop then Exited else Asleep
    decreases |s.queue.tasks|
  {
    var q := s.queue.tasks;
    if q == [] {
      First(s, Enter(w), []);
      assert [Enter(w)] + [] == [Enter(w)] && s.started + q == s.started;
    } else {
      OneTaskDone(s, w);
      var s1 := Apply(s, Enter(w));
      OneWorkerDrains(Apply(s1, Finish(w)), w);
      First(s1, Finish(w), Drain(w, |q| - 1));
      First(s, Enter(w), [Finish(w)] + Drain(w, |q| - 1));
      FirstOf(s.started, q);
    }
  }

  // The joins come to an end.

  ghost function Up(workers: map<Worker, WorkerPc>): set<Worker> {
    set w | w in workers && !workers[w].Exited?
  }

  ghost function Busy(workers: map<Worker, WorkerPc>): set<Worker> {
    set w | w in workers && workers[w].Running?
  }

  /** The steps the workers have before them: two for each task that waits, one to end the task each is on,
      and one for each to return. */
  ghost function ToDo(s: State): nat {
    2 * |s.queue.tasks| + |Busy(s.workers)| + |Up(s.workers)|
  }

  predicate OfWorker(step: Step) {
    step.Enter? || step.Finish?
  }

  function WorkerSteps(steps: seq<Step>): nat
    decreases |steps|
  {
    if steps == [] then 0 else (if OfWorker(steps[0]) then 1 else 0) + WorkerSteps(steps[1..])
  }

  lemma UpMoves(workers: map<Worker, WorkerPc>, w: Worker, to: WorkerPc)
    requires w in workers && !workers[w].Exited?
    ensures |Up(workers[w := to])| == |Up(workers)| - if to.Exited? then 1 else 0
  {
    assert Up(workers[w := to]) == if to.Exited? then Up(workers) - {w} else Up(workers);
  }

  lemma BusyMoves(workers: map<Worker, WorkerPc>, w: Worker, to: WorkerPc)
    requires w in workers
    ensures |Busy(workers[w := to])| ==
      |Busy(workers)| + (if to.Running? then 1 else 0) - (if workers[w].Running? then 1 else 0)
  {
    assert Busy(workers[w := to]) == if to.Running? then Busy(workers) + {w} else Busy(workers) - {w};
    assert w in Busy(workers) <==> workers[w].Running?;
  }

  lemma JoiningStep(s: State, step: Step)
    requires Inv(s) && s.destructor.Joining? && Enabled(s, step)
    ensures Apply(s, step).destructor.Joining?
    ensures ToDo(Apply(s, step)) == ToDo(s) - if OfWorker(step) then 1 else 0
  {
    if OfWorker(step) {
      UpMoves(s.workers, step.w, Apply(s, step).workers[step.w]);
      BusyMoves(s.workers, step.w, Apply(s, step).workers[step.w]);
    }
  }

  lemma NothingToDoIff(s: State)
    requires Inv(s) && s.workers.Keys != {}
    ensures AllExited(s) <==> ToDo(s) == 0
  {
    var w :| w in s.workers;
    if AllExited(s) {
      assert Up(s.workers) == {} && Busy(s.workers) == {};
      assert s.workers[w].Exited?;
    } else {
      var v :| v in s.workers && !s.workers[v].Exited?;
      assert v in Up(s.workers);
    }
  }

  lemma WorkersGoOn(s: State)
    requires Inv(s) && s.destructor.Joining? && !AllExited(s)
    ensures exists step :: OfWorker(step) && Enabled(s, step)
  {
    var w :| w in s.workers && !s.workers[w].Exited?;
    assert Enabled(s, if s.workers[w].Ready? then Enter(w) else Finish(w));
  }

  lemma {:induction false} StepsAreDone(s: State, steps: seq<Step>)
    requires Inv(s) && s.destructor.Joining? && IsRun(s, steps)
    ensures Inv(After(s, steps)) && After(s, steps).destructor.Joining?
    ensures ToDo(After(s, steps)) == ToDo(s) - WorkerSteps(steps)
    decreases |steps|
  {
    if steps != [] {
      JoiningStep(s, steps[0]);
      StepKeeps(s, steps[0]);
      StepsAreDone(Apply(s, steps[0]), steps[1..]);
    }
  }

  /** Once the destructor has notified, the joins end whatever the interleaving: until all workers have returned
      one of them can go on, and they have all returned exactly when they have made a number of steps that is
      known from the start.  No schedule gives them more. */
  lemma JoinsEnd(s: State, before: seq<Step>, steps: seq<Step>)
    requires Init(s) && s.workers.Keys != {} && IsRun(s, before) && After(s, before).destructor.Joining?
    requires IsRun(After(s, before), steps)
    ensures var m := After(s, before); var d := After(m, steps);
      && WorkerSteps(steps) <= ToDo(m)
      && (AllExited(d) <==> WorkerSteps(steps) == ToDo(m))
      && (!AllExited(d) ==> exists step :: OfWorker(step) && Enabled(d, step))
  {
    var m := After(s, before);
    InitInv(s);
    RunKeeps(s, before);
    StepsAreDone(m, steps);
    RunKeeps(m, steps);
    NothingToDoIff(After(m, steps));
    if !AllExited(After(m, steps)) {
      WorkersGoOn(After(m, steps));
    }
  }
}
