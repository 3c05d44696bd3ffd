/** The reactor's task queue and its wake-up protocol (cpp_learning_projects/muduo-mgkl/src/EventLoop.cpp:59-156):
    one loop thread, and any number of other threads that queue functors or ask it to quit.

    Every access to shared state is a step of its own: a push under the mutex, the write to the eventfd
    that follows it, the read of the eventfd in the handler, the swap under the mutex.  A poll may return
    at any time; it reports the eventfd only if its counter is positive.
*/
module EventLoop {

  type Functor = nat

  type Thread = nat

  /** The largest value an eventfd counter can hold; a write that would pass it fails and changes nothing. */
  const MAX_COUNT: nat := 0xFFFF_FFFF_FFFF_FFFE

  function Bump(counter: nat): (r: nat)
    ensures r > 0
  {
    if counter < MAX_COUNT then counter + 1 else MAX_COUNT
  }

  /** Where the loop thread is.  `Pushed(back)`: inside `queueInLoop`, past the push. */
  datatype LoopPc =
    | Outside
    | Check
    | Poll
    | Handling(wake: bool)
    | Calling
    | Running(left: seq<Functor>)
    | Pushed(back: LoopPc)

  /** Another thread: `Queued` and `QuitSet` still owe the loop a write to the eventfd. */
  datatype Submitter = Idle | Queued | QuitSet

  /** `queued` is every functor ever pushed, in order; `early` says that the queue holds one which the loop
      thread pushed while not in `loop()`. */
  datatype State = State(
    pc: LoopPc,
    quit: bool,
    calling: bool,
    pending: seq<Functor>,
    counter: nat,
    threads: map<Thread, Submitter>,
    executed: seq<Functor>,
    queued: seq<Functor>,
    early: bool)

  datatype Step =
    | Begin
    | Test
    | Return(woken: bool)
    | Read
    | LoopPush(f: Functor)
    | LoopWake
    | LoopQuit
    | EndHandling
    | Swap
    | Run
    | Clear
    | Push(t: Thread, f: Functor)
    | SetQuit(t: Thread)
    | Wake(t: Thread)

  predicate Init(s: State) {
    && s.pc == Outside && !s.quit && !s.calling && s.pending == [] && s.counter == 0 && !s.early
    && s.executed == [] && s.queued == []
    && forall t :: t in s.threads ==> s.threads[t] == Idle
  }

  /** Points at which user code runs on the loop thread: before or after `loop()`, in a handler, in a functor. */
  predicate UserCode(pc: LoopPc) {
    pc.Outside? || pc.Handling? || pc.Running?
  }

  predicate Enabled(s: State, step: Step) {
    match step
    case Begin => s.pc.Outside?
    case Test => s.pc.Check?
    case Return(woken) => s.pc.Poll? && (woken ==> s.counter > 0)
    case Read => s.pc == Handling(true)
    case LoopPush(_) => UserCode(s.pc)
    case LoopWake => s.pc.Pushed?
    case LoopQuit => UserCode(s.pc)
    case EndHandling => s.pc == Handling(false)
    case Swap => s.pc.Calling?
    case Run => s.pc.Running? && s.pc.left != []
    case Clear => s.pc == Running([])
    case Push(t, _) => t in s.threads && s.threads[t].Idle?
    case SetQuit(t) => t in s.threads && s.threads[t].Idle?
    case Wake(t) => t in s.threads && !s.threads[t].Idle?
  }

  function Apply(s: State, step: Step): State
    requires Enabled(s, step)
  {
    match step
    case Begin => s.(pc := Check, quit := false)
    case Test => s.(pc := if s.quit then Outside else Poll)
    case Return(woken) => s.(pc := Handling(woken))
    case Read => s.(pc := Handling(false), counter := 0)
    case LoopPush(f) =>
      s.(pc := Pushed(s.pc), pending := s.pending + [f], queued := s.queued + [f], early := s.early || s.pc.Outside?)
    case LoopWake => s.(pc := s.pc.back, counter := if s.calling then Bump(s.counter) else s.counter)
    case LoopQuit => s.(quit := true)
    case EndHandling => s.(pc := Calling, calling := true)
    case Swap => s.(pc := Running(s.pending), pending := [], early := false)
    case Run => s.(pc := Running(s.pc.left[1..]), executed := s.executed + [s.pc.left[0]])
    case Clear => s.(pc := Check, calling := false)
    case Push(t, f) =>
      s.(threads := s.threads[t := Queued], pending := s.pending + [f], queued := s.queued + [f])
    case SetQuit(t) => s.(threads := s.threads[t := QuitSet], quit := true)
    case Wake(t) => s.(threads := s.threads[t := Idle], counter := Bump(s.counter))
  }

  // ---------------------------------------------------------------- invariants

  function Left(pc: LoopPc): seq<Functor> {
    match pc
    case Running(left) => left
    case Pushed(back) => Left(back)
    case _ => []
  }

  /** Everything ever queued is executed, swapped out or pending, in the order of the pushes. */
  ghost predicate InOrder(s: State) {
    s.executed + Left(s.pc) + s.pending == s.queued
  }

  ghost predicate CallingRight(s: State) {
    && (s.pc.Pushed? ==> UserCode(s.pc.back))
    && (s.calling <==> s.pc.Calling? || s.pc.Running? || (s.pc.Pushed? && s.pc.back.Running?))
  }

  ghost predicate Owed(threads: map<Thread, Submitter>, owed: Submitter) {
    exists t :: t in threads && threads[t] == owed
  }

  /** The loop thread is certain to swap the queue before it polls again. */
  predicate WillSwap(pc: LoopPc) {
    pc.Handling? || pc.Calling? || (pc.Pushed? && pc.back.Handling?)
  }

  /** A pending functor has a wake-up to come, is about to be swapped, or was pushed outside `loop()`. */
  ghost predicate Awake(s: State) {
    s.pending != [] ==>
      s.counter > 0 || Owed(s.threads, Queued) || s.early || WillSwap(s.pc) || (s.pc.Pushed? && s.pc.back.Running?)
  }

  /** A quit that the test before this poll did not see has a wake-up to come. */
  ghost predicate QuitAwake(s: State) {
    s.pc.Poll? && s.quit ==> s.counter > 0 || Owed(s.threads, QuitSet)
  }

  ghost predicate Inv(s: State) {
    InOrder(s) && CallingRight(s) && Awake(s) && QuitAwake(s)
  }

  lemma InOrderKeeps(s: State, step: Step)
    requires InOrder(s) && CallingRight(s) && Enabled(s, step)
    ensures InOrder(Apply(s, step))
  {
    var s' := Apply(s, step);
    match step
    case Run => assert s.pc.left == [s.pc.left[0]] + s.pc.left[1..];
    case Push(_, f) => assert s'.executed + Left(s'.pc) + s'.pending == s.queued + [f];
    case LoopPush(f) => assert s'.executed + Left(s'.pc) + s'.pending == s.queued + [f];
    case _ =>
  }

  /** Only the thread's own write settles what it owes. */
  lemma OwedKeeps(threads: map<Thread, Submitter>, owed: Submitter, t: Thread, now: Submitter)
    requires Owed(threads, owed) && t in threads && threads[t] != owed
    ensures Owed(threads[t := now], owed)
  {
    var u :| u in threads && threads[u] == owed;
    assert threads[t := now][u] == owed;
  }

  lemma OthersOwe(s: State, step: Step, owed: Submitter)
    requires Enabled(s, step) && Owed(s.threads, owed) && owed != Idle
    ensures Owed(Apply(s, step).threads, owed) || Apply(s, step).counter > 0
  {
    if step.Push? || step.SetQuit? {
      OwedKeeps(s.threads, owed, step.t, Apply(s, step).threads[step.t]);
    }
  }

  lemma AwakeKeeps(s: State, step: Step)
    requires Awake(s) && CallingRight(s) && Enabled(s, step)
    ensures Awake(Apply(s, step))
  {
    if Owed(s.threads, Queued) {
      OthersOwe(s, step, Queued);
    }
    if step.Push? {
      assert Apply(s, step).threads[step.t] == Queued;
    }
  }

  lemma QuitAwakeKeeps(s: State, step: Step)
    requires QuitAwake(s) && Enabled(s, step) && CallingRight(s)
    ensures QuitAwake(Apply(s, step))
  {
    if Owed(s.threads, QuitSet) {
      OthersOwe(s, step, QuitSet);
    }
    if step.SetQuit? {
      assert Apply(s, step).threads[step.t] == QuitSet;
    }
  }

  lemma StepKeeps(s: State, step: Step)
    requires Inv(s) && Enabled(s, step)
    ensures Inv(Apply(s, step))
  {
    InOrderKeeps(s, step);
    AwakeKeeps(s, step);
    QuitAwakeKeeps(s, step);
  }

  // ---------------------------------------------------------------- runs

  ghost predicate IsRun(s: State, steps: seq<Step>)
    decreases |steps|
  {
    steps != [] ==> Enabled(s, steps[0]) && IsRun(Apply(s, steps[0]), steps[1..])
  }

  ghost function After(s: State, steps: seq<Step>): State
    requires IsRun(s, steps)
    decreases |steps|
  {
    if steps == [] then s else After(Apply(s, steps[0]), steps[1..])
  }

  lemma First(s: State, step: Step, rest: seq<Step>)
    requires Enabled(s, step) && IsRun(Apply(s, step), rest)
    ensures IsRun(s, [step] + rest) && After(s, [step] + rest) == After(Apply(s, step), rest)
  {
    assert ([step] + rest)[1..] == rest;
  }

  lemma {:induction false} RunKeeps(s: State, steps: seq<Step>)
    requires Inv(s) && IsRun(s, steps)
    ensures Inv(After(s, steps))
    decreases |steps|
  {
    if steps != [] {
      StepKeeps(s, steps[0]);
      RunKeeps(Apply(s, steps[0]), steps[1..]);
    }
  }

  /** The loop is about to block, and something has to be done, and nothing will wake it. */
  ghost predicate Asleep(s: State) {
    && s.pc.Poll? && s.counter == 0
    && ((s.pending != [] && !Owed(s.threads, Queued)) || (s.quit && !Owed(s.threads, QuitSet)))
  }

  /** The loop thread pushed outside `loop()`, which does not write to the eventfd. */
  ghost predicate PushesEarly(s: State, steps: seq<Step>)
    requires IsRun(s, steps)
    decreases |steps|
  {
    steps != [] && ((s.pc.Outside? && steps[0].LoopPush?) || PushesEarly(Apply(s, steps[0]), steps[1..]))
  }

  /** Only such a push sets the mark, which stands for a functor that is still pending. */
  lemma {:induction false} EarlyOverRun(s: State, steps: seq<Step>)
    requires IsRun(s, steps) && (s.early ==> s.pending != [])
    ensures After(s, steps).early ==> After(s, steps).pending != []
    ensures !s.early && !PushesEarly(s, steps) ==> !After(s, steps).early
    decreases |steps|
  {
    if steps != [] {
      EarlyOverRun(Apply(s, steps[0]), steps[1..]);
    }
  }

  /** In every interleaving the loop falls asleep over something to do exactly if a functor that the loop
      thread pushed outside `loop()` is still pending and nobody has written to the eventfd or owes it. */
  lemma AsleepIff(s: State, steps: seq<Step>)
    requires Init(s) && IsRun(s, steps)
    ensures var d := After(s, steps);
      Asleep(d) <==> d.pc.Poll? && d.early && d.counter == 0 && !Owed(d.threads, Queued)
  {
    RunKeeps(s, steps);
    EarlyOverRun(s, steps);
  }

  /** No lost wake-up, in every interleaving in which the loop thread queues only from handlers and functors. */
  lemma NoLostWakeup(s: State, steps: seq<Step>)
    requires Init(s) && IsRun(s, steps) && !PushesEarly(s, steps)
    ensures !Asleep(After(s, steps))
  {
    AsleepIff(s, steps);
    EarlyOverRun(s, steps);
  }

  /** In every interleaving, functors are executed in the order of their pushes, each at most once; and
      when the loop polls, all that are not executed are in the queue. */
  lemma EveryRunInOrder(s: State, steps: seq<Step>)
    requires Init(s) && IsRun(s, steps)
    ensures var s' := After(s, steps);
      && s'.executed <= s'.queued && s'.executed + Left(s'.pc) + s'.pending == s'.queued
      && (s'.pc.Poll? ==> s'.executed + s'.pending == s'.queued)
  {
    RunKeeps(s, steps);
    var s' := After(s, steps);
    assert s'.executed + Left(s'.pc) + s'.pending == s'.executed + (Left(s'.pc) + s'.pending);
  }

  // Pushes before `loop()`.

  function EarlyPushes(fs: seq<Functor>): seq<Step> {
    if fs == [] then [Begin, Test] else [LoopPush(fs[0]), LoopWake] + EarlyPushes(fs[1..])
  }

  /** A loop thread that queues before it calls `loop()` leaves those functors asleep at the first poll,
      however many there are; with none it does not. */
  lemma {:induction false} EarlyPushesSleepIff(s: State, fs: seq<Functor>)
    requires s.pc.Outside? && !s.calling && s.counter == 0 && !Owed(s.threads, Queued)
    ensures IsRun(s, EarlyPushes(fs))
    ensures var s' := After(s, EarlyPushes(fs)); s'.pending == s.pending + fs && (Asleep(s') <==> s.pending + fs != [])
    decreases |fs|
  {
    if fs == [] {
      var s' := Apply(s, Begin);
      assert [Begin, Test][1..] == [Test];
      assert IsRun(Apply(s', Test), [Test][1..]);
    } else {
      var steps := EarlyPushes(fs);
      var s1 := Apply(s, LoopPush(fs[0]));
      var s2 := Apply(s1, LoopWake);
      EarlyPushesSleepIff(s2, fs[1..]);
      assert s.pending + fs == s2.pending + fs[1..];
      assert steps[1..] == [LoopWake] + EarlyPushes(fs[1..]);
      assert steps[1..][1..] == EarlyPushes(fs[1..]);
      assert IsRun(s1, steps[1..]);
    }
  }

  // Quitting.

  /** Once a quit is requested, from any thread and wherever the loop is, the loop enters no further poll
      until `loop()` is entered anew: it is in one only if it has not returned from the poll it was in. */
  lemma {:induction false} QuitEndsPolling(s: State, steps: seq<Step>)
    requires s.quit && CallingRight(s) && IsRun(s, steps)
    requires forall i :: 0 <= i < |steps| ==> !steps[i].Begin?
    ensures After(s, steps).quit
    ensures After(s, steps).pc.Poll? ==> s.pc.Poll? && forall i :: 0 <= i < |steps| ==> !steps[i].Return?
    decreases |steps|
  {
    if steps != [] {
      assert forall i :: 0 <= i < |steps[1..]| ==> steps[1..][i] == steps[i+1];
      QuitEndsPolling(Apply(s, steps[0]), steps[1..]);
      assert forall i :: 0 < i < |steps| ==> steps[i] == steps[1..][i-1];
    }
  }

  predicate Quits(step: Step) {
    step.SetQuit? || step.LoopQuit?
  }

  ghost predicate Enters(steps: seq<Step>) {
    exists i :: 0 <= i < |steps| && steps[i].Begin?
  }

  /** A quit in the run that no entry into `loop()` follows. */
  ghost predicate QuitsLast(steps: seq<Step>) {
    exists k :: 0 <= k < |steps| && Quits(steps[k]) && !Enters(steps[k+1..])
  }

  /** In every run, a quit stands at the end if and only if no entry into `loop()` came after it; each entry
      drops the quits made before. */
  lemma {:induction false} QuitStandsIff(s: State, steps: seq<Step>)
    requires IsRun(s, steps)
    ensures After(s, steps).quit <==> (s.quit && !Enters(steps)) || QuitsLast(steps)
    decreases |steps|
  {
    if steps != [] {
      QuitStandsIff(Apply(s, steps[0]), steps[1..]);
      EntersFirst(steps);
      QuitsLastFirst(steps);
    }
  }

  lemma EntersFirst(steps: seq<Step>)
    requires steps != []
    ensures Enters(steps) <==> steps[0].Begin? || Enters(steps[1..])
  {
    var rest := steps[1..];
    forall i | 0 <= i < |rest| && rest[i].Begin?
      ensures Enters(steps)
    {
      assert steps[i+1].Begin?;
    }
    forall i | 0 < i < |steps| && steps[i].Begin?
      ensures Enters(rest)
    {
      assert rest[i-1].Begin?;
    }
  }

  lemma QuitsLastFirst(steps: seq<Step>)
    requires steps != []
    ensures QuitsLast(steps) <==> (Quits(steps[0]) && !Enters(steps[1..])) || QuitsLast(steps[1..])
  {
    var rest := steps[1..];
    forall k | 0 <= k < |rest| && Quits(rest[k]) && !Enters(rest[k+1..])
      ensures QuitsLast(steps)
    {
      assert rest[k+1..] == steps[k+1+1..] && Quits(steps[k+1]);
    }
    forall k | 0 < k < |steps| && Quits(steps[k]) && !Enters(steps[k+1..])
      ensures QuitsLast(rest)
    {
      assert Quits(rest[k-1]) && rest[k-1+1..] == steps[k+1..];
    }
  }

  /** Before or after `loop()`, or in a push made there. */
  predicate OutsideLoop(pc: LoopPc) {
    pc.Outside? || (pc.Pushed? && OutsideLoop(pc.back))
  }

  lemma {:induction false} StaysInLoop(s: State, steps: seq<Step>)
    requires IsRun(s, steps) && (Enters(steps) || !OutsideLoop(s.pc) || s.quit)
    ensures !OutsideLoop(After(s, steps).pc) || After(s, steps).quit
    decreases |steps|
  {
    if steps != [] {
      EntersFirst(steps);
      StaysInLoop(Apply(s, steps[0]), steps[1..]);
    }
  }

  /** In every run, a loop thread that has entered `loop()` is outside again only if a quit was made after its
      last entry. */
  lemma LeavesOnlyByQuit(s: State, steps: seq<Step>)
    requires Init(s) && IsRun(s, steps) && Enters(steps)
    ensures OutsideLoop(After(s, steps).pc) ==> QuitsLast(steps)
  {
    StaysInLoop(s, steps);
    QuitStandsIff(s, steps);
  }

  /** And in every run its test before a poll leaves if such a quit was made, and polls if none was. */
  lemma TestLeavesIff(s: State, steps: seq<Step>)
    requires Init(s) && IsRun(s, steps) && After(s, steps).pc.Check?
    ensures var m := After(s, steps); Apply(m, Test) == m.(pc := if QuitsLast(steps) then Outside else Poll)
  {
    QuitStandsIff(s, steps);
  }

  /** In every run: what the loop thread queues writes to the eventfd exactly if a functor queues it, not if a
      handler does, after which the queue is swapped anyway, nor outside `loop()`. */
  lemma LoopWritesIff(s: State, steps: seq<Step>)
    requires Init(s) && IsRun(s, steps) && After(s, steps).pc.Pushed?
    ensures var m := After(s, steps);
      Apply(m, LoopWake) == m.(pc := m.pc.back, counter := if m.pc.back.Running? then Bump(m.counter) else m.counter)
  {
    RunKeeps(s, steps);
  }

  /** A thread that quits the loop before the loop thread has entered `loop()` is not heard: the loop
      polls with the request gone. */
  lemma QuitBeforeLoopIsLost(s: State, t: Thread)
    requires Init(s) && t in s.threads
    ensures IsRun(s, [SetQuit(t), Wake(t), Begin, Test])
    ensures var s' := After(s, [SetQuit(t), Wake(t), Begin, Test]); s'.pc.Poll? && !s'.quit
  {
    var s1 := Apply(s, SetQuit(t));
    var s2 := Apply(s1, Wake(t));
    var s3 := Apply(s2, Begin);
    First(s3, Test, []);
    First(s2, Begin, [Test]);
    First(s1, Wake(t), [Begin, Test]);
    First(s, SetQuit(t), [Wake(t), Begin, Test]);
    assert [SetQuit(t)] + [Wake(t), Begin, Test] == [SetQuit(t), Wake(t), Begin, Test];
    assert [Wake(t)] + [Begin, Test] == [Wake(t), Begin, Test] && [Begin] + [Test] == [Begin, Test];
  }

  // Progress.

  function Runs(n: nat): seq<Step> {
    if n == 0 then [Clear] else [Run] + Runs(n - 1)
  }

  lemma {:induction false} RunsAll(s: State)
    requires s.pc.Running?
    ensures IsRun(s, Runs(|s.pc.left|))
    ensures After(s, Runs(|s.pc.left|)) == s.(pc := Check, calling := false, executed := s.executed + s.pc.left)
    decreases |s.pc.left|
  {
    var left := s.pc.left;
    if left == [] {
      assert [Clear][1..] == [];
      assert s.executed + left == s.executed;
    } else {
      var s' := Apply(s, Run);
      RunsAll(s');
      assert Runs(|left|)[1..] == Runs(|left| - 1);
      assert s.executed + left == s'.executed + left[1..];
    }
  }

  function Drain(n: nat): seq<Step> {
    [Return(true)] + ([Read] + ([EndHandling] + ([Swap] + Runs(n))))
  }

  /** A poll with the counter positive is enough: the loop thread, by itself and with handlers and functors
      that queue nothing, executes everything ever queued before it polls again. */
  lemma WokenLoopDrains(s: State)
    requires Inv(s) && s.pc.Poll? && s.counter > 0
    ensures var steps := Drain(|s.pending|);
      IsRun(s, steps) && var s' := After(s, steps);
        s'.pc.Check? && s'.executed == s.queued && s'.pending == [] && s'.counter == 0 && s'.quit == s.quit
  {
    var s2 := Apply(Apply(s, Return(true)), Read);
    SwapDrains(s2);
    First(Apply(s, Return(true)), Read, [EndHandling] + ([Swap] + Runs(|s.pending|)));
    First(s, Return(true), [Read] + ([EndHandling] + ([Swap] + Runs(|s.pending|))));
  }

  lemma SwapDrains(s: State)
    requires InOrder(s) && s.pc == Handling(false)
    ensures var steps := [EndHandling] + ([Swap] + Runs(|s.pending|));
      IsRun(s, steps) && After(s, steps) ==
        s.(pc := Check, pending := [], executed := s.queued, calling := false, early := false)
  {
    var s3 := Apply(s, EndHandling);
    RunsAll(Apply(s3, Swap));
    First(s3, Swap, Runs(|s.pending|));
    First(s, EndHandling, [Swap] + Runs(|s.pending|));
    assert s.executed + [] + s.pending == s.executed + s.pending;
  }

  lemma {:induction false} Joined(s: State, a: seq<Step>, b: seq<Step>)
    requires IsRun(s, a) && IsRun(After(s, a), b)
    ensures IsRun(s, a + b) && After(s, a + b) == After(After(s, a), b)
    decreases |a|
  {
    if a == [] {
      assert a + b == b;
    } else {
      Joined(Apply(s, a[0]), a[1..], b);
      assert (a + b)[1..] == a[1..] + b;
    }
  }

  /** A quit from another thread gets the loop out of the poll it is blocked in: the loop executes what is
      queued and leaves `loop()`. */
  lemma QuitLeavesLoop(s: State, t: Thread)
    requires Inv(s) && s.pc.Poll? && t in s.threads && s.threads[t].Idle?
    ensures var steps := ([SetQuit(t)] + ([Wake(t)] + Drain(|s.pending|))) + [Test];
      IsRun(s, steps) && After(s, steps).pc.Outside? && After(s, steps).executed == s.queued
  {
    var s1 := Apply(s, SetQuit(t));
    var s2 := Apply(s1, Wake(t));
    StepKeeps(s, SetQuit(t));
    StepKeeps(s1, Wake(t));
    WokenLoopDrains(s2);
    First(s1, Wake(t), Drain(|s.pending|));
    First(s, SetQuit(t), [Wake(t)] + Drain(|s.pending|));
    var d := After(s2, Drain(|s.pending|));
    First(d, Test, []);
    assert [Test] + [] == [Test];
    Joined(s, [SetQuit(t)] + ([Wake(t)] + Drain(|s.pending|)), [Test]);
  }

  // ---------------------------------------------------------------- the loop's own methods

  /** The fields of the loop, in the protocol and in the class below. */
  datatype Loop = Loop(quit: bool, calling: bool, pending: seq<Functor>, counter: nat, executed: seq<Functor>)

  function View(s: State): Loop {
    Loop(s.quit, s.calling, s.pending, s.counter, s.executed)
  }

  function AfterQueue(l: Loop, f: Functor, inLoopThread: bool): Loop {
    l.(pending := l.pending + [f], counter := if !inLoopThread || l.calling then Bump(l.counter) else l.counter)
  }

  function AfterQuit(l: Loop, inLoopThread: bool): Loop {
    l.(quit := true, counter := if inLoopThread then l.counter else Bump(l.counter))
  }

  /** A round of `doPendingFunctors`, when functor `f` queues `queues(f)`. */
  function AfterRound(l: Loop, queues: Functor -> seq<Functor>): Loop {
    var spawned := Spawned(l.pending, queues);
    Loop(l.quit, false, spawned, BumpBy(l.counter, |spawned|), l.executed + l.pending)
  }

  /** The methods that other threads call are the steps they take in the protocol, with nothing between. */
  lemma CallsAreSteps(s: State, t: Thread, f: Functor)
    requires t in s.threads && s.threads[t].Idle?
    ensures View(Apply(Apply(s, Push(t, f)), Wake(t))) == AfterQueue(View(s), f, false)
    ensures View(Apply(Apply(s, SetQuit(t)), Wake(t))) == AfterQuit(View(s), false)
  {
  }

  /** And so are those the loop thread calls from its handlers and functors. */
  lemma LoopCallsAreSteps(s: State, f: Functor)
    requires UserCode(s.pc)
    ensures View(Apply(Apply(s, LoopPush(f)), LoopWake)) == AfterQueue(View(s), f, true)
    ensures View(Apply(s, LoopQuit)) == AfterQuit(View(s), true)
  {
  }

  function QueueAll(fs: seq<Functor>): seq<Step> {
    if fs == [] then [] else [LoopPush(fs[0])] + ([LoopWake] + QueueAll(fs[1..]))
  }

  function Round(fs: seq<Functor>, queues: Functor -> seq<Functor>): seq<Step> {
    if fs == [] then [Clear] else [Run] + (QueueAll(queues(fs[0])) + Round(fs[1..], queues))
  }

  lemma {:induction false} QueueAllRuns(s: State, fs: seq<Functor>)
    requires s.pc.Running? && s.calling
    ensures IsRun(s, QueueAll(fs))
    ensures After(s, QueueAll(fs)) ==
      s.(pending := s.pending + fs, queued := s.queued + fs, counter := BumpBy(s.counter, |fs|))
    decreases |fs|
  {
    if fs == [] {
      assert s.pending + fs == s.pending && s.queued + fs == s.queued;
    } else {
      var s1 := Apply(s, LoopPush(fs[0]));
      var s2 := Apply(s1, LoopWake);
      QueueAllRuns(s2, fs[1..]);
      First(s1, LoopWake, QueueAll(fs[1..]));
      First(s, LoopPush(fs[0]), [LoopWake] + QueueAll(fs[1..]));
      assert (s.pending + [fs[0]]) + fs[1..] == s.pending + fs;
      assert (s.queued + [fs[0]]) + fs[1..] == s.queued + fs;
    }
  }

  lemma {:induction false} SpawnedFirst(fs: seq<Functor>, queues: Functor -> seq<Functor>)
    requires fs != []
    ensures Spawned(fs, queues) == queues(fs[0]) + Spawned(fs[1..], queues)
    decreases |fs|
  {
    var front := fs[..|fs|-1];
    if |fs| == 1 {
      assert front == [] && fs[1..] == [];
      assert [] + queues(fs[0]) == queues(fs[0]) + [];
    } else {
      SpawnedFirst(front, queues);
      assert front[1..] == fs[1..][..|fs|-2];
      assert fs[1..][|fs|-2] == fs[|fs|-1];
    }
  }

  lemma {:induction false} RoundRuns(s: State, queues: Functor -> seq<Functor>)
    requires s.pc.Running? && s.calling
    ensures var steps, spawned := Round(s.pc.left, queues), Spawned(s.pc.left, queues);
      IsRun(s, steps) && After(s, steps) == s.(pc := Check, calling := false, executed := s.executed + s.pc.left,
        pending := s.pending + spawned, queued := s.queued + spawned, counter := BumpBy(s.counter, |spawned|))
    decreases |s.pc.left|
  {
    var left := s.pc.left;
    if left == [] {
      assert [Clear][1..] == [];
      assert s.executed + left == s.executed && s.pending + [] == s.pending && s.queued + [] == s.queued;
    } else {
      RoundOfFirst(s, queues);
      var s1 := Apply(s, Run);
      var s2 := After(s1, QueueAll(queues(left[0])));
      RoundRuns(s2, queues);
      Joined(s1, QueueAll(queues(left[0])), Round(left[1..], queues));
      First(s, Run, QueueAll(queues(left[0])) + Round(left[1..], queues));
      SpawnedFirst(left, queues);
      Regroup(s.pending, queues(left[0]), Spawned(left[1..], queues));
      Regroup(s.queued, queues(left[0]), Spawned(left[1..], queues));
      FirstOf(s.executed, left);
      BumpByPlus(s.counter, |queues(left[0])|, |Spawned(left[1..], queues)|);
    }
  }

  lemma RoundOfFirst(s: State, queues: Functor -> seq<Functor>)
    requires s.pc.Running? && s.calling && s.pc.left != []
    ensures var f, s1 := s.pc.left[0], Apply(s, Run);
      IsRun(s1, QueueAll(queues(f))) && After(s1, QueueAll(queues(f))) ==
        s.(pc := Running(s.pc.left[1..]), executed := s.executed + [f], pending := s.pending + queues(f),
           queued := s.queued + queues(f), counter := BumpBy(s.counter, |queues(f)|))
  {
    QueueAllRuns(Apply(s, Run), queues(s.pc.left[0]));
  }

  lemma FirstOf(a: seq<Functor>, b: seq<Functor>)
    requires b != []
    ensures (a + [b[0]]) + b[1..] == a + b
  {
    assert [b[0]] + b[1..] == b;
  }

  lemma Regroup(a: seq<Functor>, b: seq<Functor>, c: seq<Functor>)
    ensures (a + b) + c == a + (b + c)
  {
  }

  /** A round of the class is a run of the loop thread: what the method leaves behind is what the protocol
      leaves after the calling flag, the swap, and every functor with what it queues. */
  lemma RoundIsARun(s: State, queues: Functor -> seq<Functor>)
    requires s.pc == Handling(false)
    ensures var steps := [EndHandling] + ([Swap] + Round(s.pending, queues));
      IsRun(s, steps) && After(s, steps).pc.Check? && View(After(s, steps)) == AfterRound(View(s), queues)
  {
    var s1 := Apply(s, EndHandling);
    var s2 := Apply(s1, Swap);
    RoundRuns(s2, queues);
    First(s1, Swap, Round(s.pending, queues));
    First(s, EndHandling, [Swap] + Round(s.pending, queues));
    assert [] + Spawned(s.pending, queues) == Spawned(s.pending, queues);
  }

  function BumpBy(counter: nat, n: nat): (r: nat)
    ensures n > 0 ==> r > 0
    decreases n
  {
    if n == 0 then counter else BumpBy(Bump(counter), n - 1)
  }

  lemma {:induction false} BumpByPlus(counter: nat, m: nat, n: nat)
    ensures BumpBy(BumpBy(counter, m), n) == BumpBy(counter, m + n)
    decreases m
  {
    if m > 0 {
      BumpByPlus(Bump(counter), m - 1, n);
    }
  }

  /** What running `fs` in order queues, when functor `f` queues `queues(f)`. */
  function Spawned(fs: seq<Functor>, queues: Functor -> seq<Functor>): seq<Functor> {
    if fs == [] then [] else Spawned(fs[..|fs|-1], queues) + queues(fs[|fs|-1])
  }

  /** The loop between two interleavings: what its methods do while no other thread runs.  A functor is
      known by what it queues; running it in the loop thread appends it to `executed`. */
  class EventLoop {
    var quit: bool
    var calling: bool
    var pending: seq<Functor>
    var counter: nat
    var executed: seq<Functor>

    ghost function Abs(): Loop
      reads this
    {
      Loop(quit, calling, pending, counter, executed)
    }

    constructor ()
      ensures !quit && !calling && pending == [] && counter == 0 && executed == []
    {
      quit, calling, pending, counter, executed := false, false, [], 0, [];
    }

    method Wakeup()
      modifies `counter
      ensures counter == Bump(old(counter))
    {
      if counter < MAX_COUNT {
        counter := counter + 1;
      } else {
        counter := MAX_COUNT;
      }
    }

    method HandleRead()
      modifies `counter
      ensures counter == 0
    {
      counter := 0;
    }

    method QueueInLoop(cb: Functor, inLoopThread: bool)
      modifies `pending, `counter
      ensures Abs() == AfterQueue(old(Abs()), cb, inLoopThread)
      ensures pending == old(pending) + [cb]
      ensures counter == if !inLoopThread || calling then Bump(old(counter)) else old(counter)
    {
      pending := pending + [cb];
      if !inLoopThread || calling {
        Wakeup();
      }
    }

    method RunInLoop(cb: Functor, queues: Functor -> seq<Functor>, inLoopThread: bool)
      modifies `pending, `counter, `executed
      ensures inLoopThread ==> executed == old(executed) + [cb] && pending == old(pending) + queues(cb)
      ensures inLoopThread ==> counter == if calling then BumpBy(old(counter), |queues(cb)|) else old(counter)
      ensures !inLoopThread ==> counter == Bump(old(counter))
      ensures !inLoopThread ==> executed == old(executed) && pending == old(pending) + [cb] && counter > 0
    {
      if inLoopThread {
        Call(cb, queues);
      } else {
        QueueInLoop(cb, false);
      }
    }

    method Quit(inLoopThread: bool)
      modifies `quit, `counter
      ensures Abs() == AfterQuit(old(Abs()), inLoopThread)
    {
      quit := true;
      if !inLoopThread {
        Wakeup();
      }
    }

    method Call(f: Functor, queues: Functor -> seq<Functor>)
      modifies `pending, `counter, `executed
      ensures executed == old(executed) + [f] && pending == old(pending) + queues(f)
      ensures counter == if calling then BumpBy(old(counter), |queues(f)|) else old(counter)
    {
      executed := executed + [f];
      var cbs := queues(f);
      for i := 0 to |cbs|
        modifies `pending, `counter
        invariant pending == old(pending) + cbs[..i]
        invariant counter == if calling then BumpBy(old(counter), i) else old(counter)
      {
        BumpByPlus(old(counter), i, 1);
        QueueInLoop(cbs[i], true);
        assert calling ==> BumpBy(BumpBy(old(counter), i), 1) == counter;
        assert cbs[..i+1] == cbs[..i] + [cbs[i]];
      }
      assert cbs[..|cbs|] == cbs;
    }

    /** Each functor of the queue is executed once, in order; what they queue waits for the next round, and
        the eventfd is written once for each, so that the next poll returns. */
    method DoPendingFunctors(queues: Functor -> seq<Functor>)
      modifies this
      ensures Abs() == AfterRound(old(Abs()), queues) && (pending != [] ==> counter > 0)
      ensures executed == old(executed) + old(pending) && pending == Spawned(old(pending), queues)
      ensures counter == BumpBy(old(counter), |pending|)
      ensures !calling && quit == old(quit)
    {
      calling := true;
      var functors := pending;
      pending := [];
      for i := 0 to |functors|
        modifies `pending, `counter, `executed
        invariant executed == old(executed) + functors[..i] && pending == Spawned(functors[..i], queues)
        invariant counter == BumpBy(old(counter), |pending|)
      {
        BumpByPlus(old(counter), |pending|, |queues(functors[i])|);
        Call(functors[i], queues);
        assert functors[..i+1][..i] == functors[..i];
        assert functors[..i+1] == functors[..i] + [functors[i]];
      }
      assert functors[..|functors|] == functors;
      calling := false;
    }
  }
}
