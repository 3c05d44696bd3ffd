/** The output side of a connection (cpp_learning_projects/muduo-mgkl/src/TcpConnection.cpp:47-189): sends
    and write events with any short or failing writes, half-close, and close.

    All of it runs in the loop thread, except that `shutdown` may be called by other threads; its test of
    the state, its store to the state and the functor it queues are then separate steps.
*/
module TcpConnection {

  import Buffer

  datatype Phase = Connecting | Connected | Disconnecting | Disconnected

  /** What `write` returns; `Broken` is EPIPE or ECONNRESET. */
  datatype WriteResult = Wrote(n: nat) | WouldBlock | Broken | OtherError

  /** Which callbacks are set, and the high-water mark. */
  datatype Config = Config(onComplete: bool, onMark: bool, mark: nat)

  /** `wire`: the bytes the socket took.  `sent`: the messages not dropped, joined.  `closed`: the channel
      was disabled for good.  `checked` and `queued`: other threads inside `shutdown`, past its test or past
      its store; `ran`: the functors they queued that were run. */
  datatype Conn = Conn(
    config: Config,
    phase: Phase,
    writing: bool,
    closed: bool,
    out: seq<char>,
    wire: seq<char>,
    sent: seq<char>,
    halfCloses: nat,
    completes: nat,
    marks: seq<nat>,
    checked: nat,
    queued: nat,
    ran: nat)

  predicate Fits(r: WriteResult, len: nat) {
    r.Wrote? ==> r.n <= len
  }

  // ---------------------------------------------------------------- operations

  function AfterSendInLoop(c: Conn, data: seq<char>, r: WriteResult): Conn
    requires Fits(r, |data|)
  {
    if !c.writing && c.out == [] then
      if r.Broken? then
        c
      else
        var n := if r.Wrote? then r.n else 0;
        var c' := c.(wire := c.wire + data[..n],
                     completes := c.completes + if r.Wrote? && n == |data| && c.config.onComplete then 1 else 0);
        Kept(c', data, n)
    else Kept(c, data, 0)
  }

  /** The bytes from `n` on wait in the buffer. */
  function Kept(c: Conn, data: seq<char>, n: nat): Conn
    requires n <= |data|
  {
    var c' := c.(sent := c.sent + data);
    if n == |data| then c'
    else
      var total := |c.out| + (|data| - n);
      c'.(out := c.out + data[n..], writing := true,
          marks := c.marks +
            if total >= c.config.mark && |c.out| < c.config.mark && c.config.onMark then [total] else [])
  }

  function AfterSend(c: Conn, data: seq<char>, r: WriteResult): Conn
    requires Fits(r, |data|)
  {
    if c.phase.Connected? then AfterSendInLoop(c, data, r) else c
  }

  function AfterShutdownInLoop(c: Conn): Conn {
    if !c.writing then c.(halfCloses := c.halfCloses + 1) else c
  }

  function AfterShutdown(c: Conn): Conn {
    if c.phase.Connected? then AfterShutdownInLoop(c.(phase := Disconnecting)) else c
  }

  function AfterWrite(c: Conn, r: WriteResult): Conn
    requires Fits(r, |c.out|)
  {
    if !c.writing || !r.Wrote? || r.n == 0 then c
    else
      var c' := c.(wire := c.wire + c.out[..r.n], out := c.out[r.n..]);
      if c'.out != [] then c'
      else
        var d := c'.(writing := false, completes := c.completes + if c.config.onComplete then 1 else 0);
        if d.phase.Disconnecting? then AfterShutdownInLoop(d) else d
  }

  function AfterClose(c: Conn): Conn {
    c.(phase := Disconnected, writing := false, closed := true)
  }

  function AfterDestroy(c: Conn): Conn {
    if c.phase.Connected? then AfterClose(c) else c
  }

  // ---------------------------------------------------------------- steps

  datatype Step =
    | Establish
    | Message(data: seq<char>, r: WriteResult)
    | WriteEvent(w: WriteResult)
    | ShutdownHere
    | Close
    | Destroy
    | RemoteTest
    | RemoteStore
    | RunQueued

  predicate Init(c: Conn) {
    && c.phase == Connecting && !c.writing && !c.closed && c.out == [] && c.wire == [] && c.sent == []
    && c.halfCloses == 0 && c.completes == 0 && c.marks == [] && c.checked == 0 && c.queued == 0 && c.ran == 0
  }

  predicate Enabled(c: Conn, step: Step) {
    match step
    case Establish => c.phase.Connecting?
    case Message(data, r) => Fits(r, |data|)
    case WriteEvent(w) => !c.phase.Connecting? && Fits(w, |c.out|)
    case ShutdownHere => true
    case Close => !c.phase.Connecting?
    case Destroy => true
    case RemoteTest => c.phase.Connected?
    case RemoteStore => c.checked > 0
    case RunQueued => c.queued > 0
  }

  function Apply(c: Conn, step: Step): Conn
    requires Enabled(c, step)
  {
    match step
    case Establish => c.(phase := Connected)
    case Message(data, r) => AfterSend(c, data, r)
    case WriteEvent(w) => AfterWrite(c, w)
    case ShutdownHere => AfterShutdown(c)
    case Close => AfterClose(c)
    case Destroy => AfterDestroy(c)
    case RemoteTest => c.(checked := c.checked + 1)
    case RemoteStore => c.(phase := Disconnecting, checked := c.checked - 1, queued := c.queued + 1)
    case RunQueued => AfterShutdownInLoop(c.(queued := c.queued - 1, ran := c.ran + 1))
  }

  predicate InLoop(step: Step) {
    !step.RemoteTest? && !step.RemoteStore? && !step.RunQueued?
  }

  // ---------------------------------------------------------------- invariants

  /** The stream is whole: what the socket took and what waits are the messages accepted, in order. */
  ghost predicate Whole(c: Conn) {
    c.wire + c.out == c.sent
  }

  /** The write interest is on exactly when bytes wait, until the channel is disabled for good. */
  ghost predicate Interested(c: Conn) {
    && (!c.closed ==> (c.writing <==> c.out != []))
    && (c.closed ==> !c.writing && (c.phase.Disconnected? || c.phase.Disconnecting?))
  }

  /** A half-close needs a shutdown and an idle channel; besides those that other threads queue there is one. */
  ghost predicate HalfClosed(c: Conn) {
    && (c.halfCloses > 0 ==> (c.phase.Disconnecting? || c.phase.Disconnected?) && !c.writing)
    && c.halfCloses <= c.ran + (if c.phase.Connected? || c.writing then 0 else 1)
    && (c.phase.Connecting? ==> !c.writing && c.checked == 0 && c.queued == 0)
    && (c.queued > 0 ==> c.phase.Disconnecting? || c.phase.Disconnected?)
  }

  ghost predicate Inv(c: Conn) {
    Whole(c) && Interested(c) && HalfClosed(c)
  }

  lemma KeptWhole(c: Conn, data: seq<char>, n: nat)
    requires n <= |data| && (c.out == [] || n == 0) && c.wire + c.out == c.sent + data[..n]
    ensures Whole(Kept(c, data, n))
  {
    assert data == data[..n] + data[n..];
    assert c.wire + (c.out + data[n..]) == (c.wire + c.out) + data[n..];
    assert (c.sent + data[..n]) + data[n..] == c.sent + data;
  }

  lemma SendWhole(c: Conn, data: seq<char>, r: WriteResult)
    requires Whole(c) && Fits(r, |data|)
    ensures Whole(AfterSendInLoop(c, data, r))
  {
    if !c.writing && c.out == [] {
      if !r.Broken? {
        var n := if r.Wrote? then r.n else 0;
        assert c.wire + [] == c.wire && (c.wire + data[..n]) + [] == c.wire + data[..n];
        KeptWhole(c.(wire := c.wire + data[..n],
                     completes := c.completes +
                       if r.Wrote? && n == |data| && c.config.onComplete then 1 else 0), data, n);
      }
    } else {
      assert c.sent + data[..0] == c.sent;
      KeptWhole(c, data, 0);
    }
  }

  lemma WriteWhole(c: Conn, r: WriteResult)
    requires Whole(c) && Fits(r, |c.out|)
    ensures Whole(AfterWrite(c, r))
  {
    if r.Wrote? {
      assert c.out == c.out[..r.n] + c.out[r.n..];
      assert (c.wire + c.out[..r.n]) + c.out[r.n..] == c.wire + c.out;
    }
  }

  lemma StepKeeps(c: Conn, step: Step)
    requires Inv(c) && Enabled(c, step)
    ensures Inv(Apply(c, step))
  {
    match step
    case Message(data, r) => SendWhole(c, data, r);
    case WriteEvent(w) => WriteWhole(c, w);
    case _ =>
  }

  // ---------------------------------------------------------------- runs

  ghost predicate IsRun(c: Conn, steps: seq<Step>)
    decreases |steps|
  {
    steps != [] ==> Enabled(c, steps[0]) && IsRun(Apply(c, steps[0]), steps[1..])
  }

  ghost function After(c: Conn, steps: seq<Step>): Conn
    requires IsRun(c, steps)
    decreases |steps|
  {
    if steps == [] then c else After(Apply(c, steps[0]), steps[1..])
  }

  lemma First(c: Conn, step: Step, rest: seq<Step>)
    requires Enabled(c, step) && IsRun(Apply(c, step), rest)
    ensures IsRun(c, [step] + rest) && After(c, [step] + rest) == After(Apply(c, step), rest)
  {
    assert ([step] + rest)[1..] == rest;
  }

  lemma {:induction false} RunKeeps(c: Conn, steps: seq<Step>)
    requires Inv(c) && IsRun(c, steps)
    ensures Inv(After(c, steps))
    decreases |steps|
  {
    if steps != [] {
      StepKeeps(c, steps[0]);
      RunKeeps(Apply(c, steps[0]), steps[1..]);
    }
  }

  /** The messages that a run accepts: those sent while connected, except for one refused whole by a
      broken socket with nothing waiting. */
  ghost function Accepted(c: Conn, steps: seq<Step>): seq<char>
    requires IsRun(c, steps)
    decreases |steps|
  {
    if steps == [] then []
    else
      (if steps[0].Message? && c.phase.Connected? && !(steps[0].r.Broken? && !c.writing && c.out == [])
       then steps[0].data else []) + Accepted(Apply(c, steps[0]), steps[1..])
  }

  lemma {:induction false} SentIsAccepted(c: Conn, steps: seq<Step>)
    requires IsRun(c, steps)
    ensures After(c, steps).sent == c.sent + Accepted(c, steps)
    decreases |steps|
  {
    if steps != [] {
      var c' := Apply(c, steps[0]);
      SentIsAccepted(c', steps[1..]);
      var first := if steps[0].Message? && c.phase.Connected? && !(steps[0].r.Broken? && !c.writing && c.out == [])
        then steps[0].data else [];
      assert c'.sent == c.sent + first;
      assert (c.sent + first) + Accepted(c', steps[1..]) == c.sent + (first + Accepted(c', steps[1..]));
    }
  }

  /** In every run, other threads shutting down or not: the bytes on the wire and in the buffer are the
      accepted messages in order, and until the channel is disabled its write interest is on exactly when
      bytes wait. */
  lemma EveryRunIsWhole(c: Conn, steps: seq<Step>)
    requires Init(c) && IsRun(c, steps)
    ensures var d := After(c, steps);
      d.wire + d.out == Accepted(c, steps) && (!d.closed ==> (d.writing <==> d.out != []))
  {
    RunKeeps(c, steps);
    SentIsAccepted(c, steps);
  }

  lemma {:induction false} RunOfHalfClosed(c: Conn, steps: seq<Step>)
    requires Inv(c) && IsRun(c, steps) && c.halfCloses > 0
    ensures After(c, steps).wire == c.wire && After(c, steps).out == c.out
    decreases |steps|
  {
    if steps != [] {
      StepKeeps(c, steps[0]);
      RunOfHalfClosed(Apply(c, steps[0]), steps[1..]);
    }
  }

  /** In every run, no byte follows a half-close. */
  lemma NoByteAfterHalfClose(c: Conn, steps: seq<Step>, more: seq<Step>)
    requires Init(c) && IsRun(c, steps) && After(c, steps).halfCloses > 0 && IsRun(After(c, steps), more)
    ensures After(After(c, steps), more).wire == After(c, steps).wire
  {
    RunKeeps(c, steps);
    RunOfHalfClosed(After(c, steps), more);
  }

  /** A half-close leaves bytes behind only if another thread queued it and the channel was disabled first. */
  lemma HalfCloseDropsIff(c: Conn, step: Step)
    requires Inv(c) && Enabled(c, step) && Apply(c, step).halfCloses > c.halfCloses
    ensures Apply(c, step).out != [] <==> step.RunQueued? && c.closed && c.out != []
  {
  }

  /** The high-water callback is queued exactly when a step carries the waiting bytes from below the mark
      to it or past it, with their number. */
  lemma MarkIffCrossed(c: Conn, step: Step)
    requires Enabled(c, step)
    ensures var d := Apply(c, step);
      d.marks == c.marks + if c.config.onMark && |c.out| < c.config.mark <= |d.out| then [|d.out|] else []
  {
    assert c.marks + [] == c.marks;
  }

  /** The write-complete callback is queued exactly when a step leaves nothing waiting of bytes that waited
      or, having found none waiting, of the message it sent. */
  lemma CompleteIffAllOut(c: Conn, step: Step)
    requires Inv(c) && Enabled(c, step)
    ensures var d := Apply(c, step);
      var idle := step.Message? && c.phase.Connected? && c.out == [] && !c.writing && step.r.Wrote?;
      && d.completes == c.completes + (if c.config.onComplete && d.out == [] && (c.out != [] || idle) then 1 else 0)
      && (d.completes > c.completes ==> d.wire == d.sent && !d.writing)
  {
    StepKeeps(c, step);
    var d := Apply(c, step);
    assert d.out == [] ==> d.wire + d.out == d.wire;
  }

  // In-loop runs.

  /** Without other threads, a shutdown half-closes once the bytes are out, and never again. */
  ghost predicate Orderly(c: Conn) {
    && c.checked == 0 && c.queued == 0 && c.ran == 0
    && (c.halfCloses > 0 ==> c.out == [])
    && (c.phase.Disconnecting? && !c.closed ==> (c.halfCloses == 1 <==> !c.writing))
    && (c.closed ==> c.phase.Disconnected?)
  }

  lemma OrderlyKeeps(c: Conn, step: Step)
    requires Inv(c) && Orderly(c) && Enabled(c, step) && InLoop(step)
    ensures Orderly(Apply(c, step))
  {
  }

  lemma {:induction false} OrderlyRun(c: Conn, steps: seq<Step>)
    requires Inv(c) && Orderly(c) && IsRun(c, steps) && forall i :: 0 <= i < |steps| ==> InLoop(steps[i])
    ensures Inv(After(c, steps)) && Orderly(After(c, steps))
    decreases |steps|
  {
    if steps != [] {
      StepKeeps(c, steps[0]);
      OrderlyKeeps(c, steps[0]);
      OrderlyRun(Apply(c, steps[0]), steps[1..]);
    }
  }

  /** In every run of the loop thread alone, half-close happens at most once, when every accepted byte is
      on the wire; and while the connection is shutting down it has happened exactly if no byte waits. */
  lemma InLoopHalfClosesOnce(c: Conn, steps: seq<Step>)
    requires Init(c) && IsRun(c, steps) && forall i :: 0 <= i < |steps| ==> InLoop(steps[i])
    ensures var d := After(c, steps);
      && d.halfCloses <= 1
      && (d.halfCloses == 1 ==> d.wire == Accepted(c, steps))
      && (d.phase.Disconnecting? ==> (d.halfCloses == 1 <==> d.out == []))
  {
    OrderlyRun(c, steps);
    SentIsAccepted(c, steps);
    var d := After(c, steps);
    assert d.out == [] ==> d.wire + d.out == d.wire;
  }

  // How often the connection half-closes.

  /** Once it has half-closed, it does so again exactly when a queued shutdown is run. */
  lemma HalfClosesAgain(c: Conn, step: Step)
    requires Inv(c) && Enabled(c, step) && c.halfCloses >= 1
    ensures Apply(c, step).halfCloses == c.halfCloses + if step.RunQueued? then 1 else 0
  {
  }

  function QueuedRuns(steps: seq<Step>): nat
    decreases |steps|
  {
    if steps == [] then 0 else (if steps[0].RunQueued? then 1 else 0) + QueuedRuns(steps[1..])
  }

  /** After the first half-close, those that follow are the queued shutdowns that are run, one for one. */
  lemma {:induction false} HalfClosesCounted(c: Conn, steps: seq<Step>)
    requires Inv(c) && IsRun(c, steps) && c.halfCloses >= 1
    ensures After(c, steps).halfCloses == c.halfCloses + QueuedRuns(steps)
    decreases |steps|
  {
    if steps != [] {
      StepKeeps(c, steps[0]);
      HalfClosesAgain(c, steps[0]);
      HalfClosesCounted(Apply(c, steps[0]), steps[1..]);
    }
  }

  /** A shutdown that another thread queued is run although the connection has half-closed already. */
  ghost predicate RunsQueuedLate(c: Conn, steps: seq<Step>)
    requires IsRun(c, steps)
    decreases |steps|
  {
    steps != [] && ((c.halfCloses >= 1 && steps[0].RunQueued?) || RunsQueuedLate(Apply(c, steps[0]), steps[1..]))
  }

  lemma {:induction false} LateIffQueuedRuns(c: Conn, steps: seq<Step>)
    requires Inv(c) && IsRun(c, steps) && c.halfCloses >= 1
    ensures RunsQueuedLate(c, steps) <==> QueuedRuns(steps) > 0
    decreases |steps|
  {
    if steps != [] {
      StepKeeps(c, steps[0]);
      LateIffQueuedRuns(Apply(c, steps[0]), steps[1..]);
    }
  }

  lemma {:induction false} AtMostOnceIff(c: Conn, steps: seq<Step>)
    requires Inv(c) && IsRun(c, steps) && c.halfCloses <= 1
    ensures After(c, steps).halfCloses <= 1 <==> !RunsQueuedLate(c, steps)
    decreases |steps|
  {
    if c.halfCloses == 1 {
      HalfClosesCounted(c, steps);
      LateIffQueuedRuns(c, steps);
    } else if steps != [] {
      StepKeeps(c, steps[0]);
      AtMostOnceIff(Apply(c, steps[0]), steps[1..]);
    }
  }

  /** In every run, with shutdowns from any thread, the connection half-closes at most once if and only if
      no shutdown that another thread queued is run after the first half-close. */
  lemma HalfClosesOnceIff(c: Conn, steps: seq<Step>)
    requires Init(c) && IsRun(c, steps)
    ensures After(c, steps).halfCloses <= 1 <==> !RunsQueuedLate(c, steps)
  {
    AtMostOnceIff(c, steps);
  }

  /** One shutdown by another thread can half-close twice: the write event that empties the buffer does it,
      and then the functor that the shutdown queued. */
  lemma RemoteShutdownHalfClosesTwice(c: Conn)
    requires Init(c)
    ensures var steps := [Establish] +
      ([Message("ab", Wrote(1))] + ([RemoteTest] + ([RemoteStore] + ([WriteEvent(Wrote(1))] + ([RunQueued] + [])))));
      IsRun(c, steps) && After(c, steps).halfCloses == 2
  {
    var c1 := Apply(c, Establish);
    var c2 := Apply(c1, Message("ab", Wrote(1)));
    assert c2.out == "b" && c2.writing;
    var c3 := Apply(c2, RemoteTest);
    var c4 := Apply(c3, RemoteStore);
    var c5 := Apply(c4, WriteEvent(Wrote(1)));
    assert c5.out == [] && c5.halfCloses == 1;
    First(c5, RunQueued, []);
    First(c4, WriteEvent(Wrote(1)), [RunQueued] + []);
    First(c3, RemoteStore, [WriteEvent(Wrote(1))] + ([RunQueued] + []));
    First(c2, RemoteTest, [RemoteStore] + ([WriteEvent(Wrote(1))] + ([RunQueued] + [])));
    First(c1, Message("ab", Wrote(1)), [RemoteTest] + ([RemoteStore] + ([WriteEvent(Wrote(1))] + ([RunQueued] + []))));
    First(c, Establish, [Message("ab", Wrote(1))] +
      ([RemoteTest] + ([RemoteStore] + ([WriteEvent(Wrote(1))] + ([RunQueued] + [])))));
  }

  /** A peer that closes with a byte waiting, after another thread has queued its shutdown: the half-close
      comes with the byte unsent. */
  lemma RemoteHalfCloseDropsBytes(c: Conn)
    requires Init(c)
    ensures var steps := [Establish] +
      ([Message("ab", Wrote(1))] + ([RemoteTest] + ([RemoteStore] + ([Close] + ([RunQueued] + [])))));
      IsRun(c, steps) && After(c, steps).halfCloses == 1 && After(c, steps).out == "b"
  {
    var c1 := Apply(c, Establish);
    var c2 := Apply(c1, Message("ab", Wrote(1)));
    assert c2.out == "b" && c2.writing;
    var c3 := Apply(c2, RemoteTest);
    var c4 := Apply(c3, RemoteStore);
    var c5 := Apply(c4, Close);
    First(c5, RunQueued, []);
    First(c4, Close, [RunQueued] + []);
    First(c3, RemoteStore, [Close] + ([RunQueued] + []));
    First(c2, RemoteTest, [RemoteStore] + ([Close] + ([RunQueued] + [])));
    First(c1, Message("ab", Wrote(1)), [RemoteTest] + ([RemoteStore] + ([Close] + ([RunQueued] + []))));
    First(c, Establish, [Message("ab", Wrote(1))] + ([RemoteTest] + ([RemoteStore] + ([Close] + ([RunQueued] + [])))));
  }

  // What each operation does to the stream and to the state.

  /** The fields no send and no write event touches. */
  predicate SameState(c: Conn, d: Conn) {
    && d.config == c.config && d.phase == c.phase && d.closed == c.closed
    && d.checked == c.checked && d.queued == c.queued && d.ran == c.ran
  }

  /** A message is dropped unless the connection is established, or if a broken socket refuses it with nothing
      waiting.  Otherwise the socket takes its front, if nothing waits, and the rest waits behind the others. */
  lemma SendDoes(c: Conn, data: seq<char>, r: WriteResult)
    requires Inv(c) && Fits(r, |data|)
    ensures var d, dropped := AfterSend(c, data, r), !c.phase.Connected? || (c.out == [] && r.Broken?);
      var n := if c.out == [] && r.Wrote? then r.n else 0;
      if dropped then d == c
      else
        && SameState(c, d) && d.halfCloses == c.halfCloses && d.sent == c.sent + data
        && d.wire == c.wire + data[..n] && d.out == c.out + data[n..] && (d.writing <==> d.out != [])
  {
    assert c.wire + [] == c.wire && data[0..] == data;
  }

  /** The first `n` waiting bytes go to the wire.  The interest goes off when none is left, and the connection
      then half-closes exactly if it is shutting down.  Nothing else changes, but for the callbacks. */
  ghost predicate Moved(c: Conn, d: Conn, n: nat) {
    && n <= |c.out| && d.wire == c.wire + c.out[..n] && d.out == c.out[n..]
    && SameState(c, d) && d.sent == c.sent && d.marks == c.marks
    && (d.writing <==> c.writing && n < |c.out|)
    && d.halfCloses == c.halfCloses + if c.writing && n == |c.out| && c.phase.Disconnecting? then 1 else 0
  }

  /** In every phase a write event, if the interest is on, moves exactly the bytes that the socket takes. */
  lemma WriteDoes(c: Conn, r: WriteResult)
    requires Inv(c) && Fits(r, |c.out|)
    ensures var d, n := AfterWrite(c, r), if c.writing && r.Wrote? then r.n else 0;
      Moved(c, d, n) && (n == 0 ==> d == c)
  {
    assert c.wire + [] == c.wire && c.out[0..] == c.out;
  }

  /** In the loop thread, a shutdown of an established connection begins the shutting down and half-closes at
      once exactly if no byte waits; of any other it does nothing. */
  lemma ShutdownDoes(c: Conn)
    requires Inv(c)
    ensures AfterShutdown(c) ==
      if !c.phase.Connected? then c
      else c.(phase := Disconnecting, halfCloses := if c.out == [] then c.halfCloses + 1 else c.halfCloses)
  {
  }

  /** From another thread it does the same in three steps, whatever that thread is preempted by: the state goes to
      shutting down with the store, even from closed, and the functor half-closes if the interest is off then. */
  lemma RemoteShutdownDoes(c: Conn)
    requires Inv(c) && c.phase.Connected?
    ensures IsRun(c, [RemoteTest] + ([RemoteStore] + ([RunQueued] + [])))
    ensures After(c, [RemoteTest] + ([RemoteStore] + ([RunQueued] + []))) == AfterShutdown(c).(ran := c.ran + 1)
  {
    var c1 := Apply(c, RemoteTest);
    var c2 := Apply(c1, RemoteStore);
    First(c2, RunQueued, []);
    First(c1, RemoteStore, [RunQueued] + []);
    First(c, RemoteTest, [RemoteStore] + ([RunQueued] + []));
  }

  /** A close, by the peer or, of an established connection, by its destruction. */
  predicate Closes(c: Conn, step: Step) {
    step.Close? || (step.Destroy? && c.phase.Connected?)
  }

  /** It takes effect in every phase, and moves no byte and half-closes nothing. */
  lemma CloseDoes(c: Conn, step: Step)
    requires Enabled(c, step) && (step.Close? || step.Destroy?)
    ensures var d := Apply(c, step);
      if Closes(c, step) then
        && d.phase.Disconnected? && !d.writing && d.closed
        && (d.out, d.wire, d.sent, d.halfCloses, d.completes, d.marks)
            == (c.out, c.wire, c.sent, c.halfCloses, c.completes, c.marks)
      else d == c
  {
  }

  lemma {:induction false} ClosedStays(c: Conn, steps: seq<Step>)
    requires c.closed && !c.writing && (c.phase.Disconnected? || c.phase.Disconnecting?) && IsRun(c, steps)
    ensures var d := After(c, steps);
      && d.closed && !d.writing && (d.phase.Disconnected? || d.phase.Disconnecting?)
      && d.wire == c.wire && d.out == c.out && d.sent == c.sent
    decreases |steps|
  {
    if steps != [] {
      ClosedStays(Apply(c, steps[0]), steps[1..]);
    }
  }

  /** In every run, nothing is sent and nothing more is accepted once the connection was closed, and it is never
      established again. */
  lemma NothingAfterClose(c: Conn, steps: seq<Step>, step: Step, more: seq<Step>)
    requires Init(c) && IsRun(c, steps) && Enabled(After(c, steps), step) && Closes(After(c, steps), step)
    requires IsRun(Apply(After(c, steps), step), more)
    ensures var m := After(c, steps); var d := After(Apply(m, step), more);
      d.wire == m.wire && d.out == m.out && d.sent == m.sent && !d.writing && !d.phase.Connected?
  {
    ClosedStays(Apply(After(c, steps), step), more);
  }

  // Progress.

  /** What the socket takes in these write events, if there is so much. */
  function Total(ws: seq<WriteResult>): nat {
    if ws == [] then 0 else (if ws[0].Wrote? then ws[0].n else 0) + Total(ws[1..])
  }

  function Writes(ws: seq<WriteResult>): seq<Step> {
    if ws == [] then [] else [WriteEvent(ws[0])] + Writes(ws[1..])
  }

  lemma MovedTwice(c: Conn, c': Conn, d: Conn, k: nat, n: nat)
    requires Moved(c, c', k) && Moved(c', d, n) && (c.writing || k + n == 0)
    ensures Moved(c, d, k + n)
  {
    assert c.out[..k] + c.out[k..][..n] == c.out[..k+n];
    assert (c.wire + c.out[..k]) + c.out[k..][..n] == c.wire + (c.out[..k] + c.out[k..][..n]);
  }

  /** Write events in every phase, in pieces of any size with failures between, move exactly what the socket
      takes, and end in the half-close if the connection is shutting down and they take all. */
  lemma {:induction false} WritesDo(c: Conn, ws: seq<WriteResult>)
    requires Inv(c) && !c.phase.Connecting? && Total(ws) <= |c.out| && (c.writing || Total(ws) == 0)
    ensures IsRun(c, Writes(ws))
    ensures Inv(After(c, Writes(ws))) && Moved(c, After(c, Writes(ws)), Total(ws))
    decreases |ws|
  {
    if ws == [] {
      assert c.wire + [] == c.wire && c.out[0..] == c.out;
    } else {
      var step, rest := WriteEvent(ws[0]), Writes(ws[1..]);
      var c' := Apply(c, step);
      var k, n := if ws[0].Wrote? then ws[0].n else 0, Total(ws);
      WriteDoes(c, ws[0]);
      StepKeeps(c, step);
      WritesDo(c', ws[1..]);
      First(c, step, rest);
      MovedTwice(c, c', After(c', rest), k, n - k);
    }
  }

  /** So what waits goes out in every phase, and the interest goes off with the last byte. */
  lemma WritesDrain(c: Conn, ws: seq<WriteResult>)
    requires Inv(c) && c.writing && Total(ws) == |c.out|
    ensures IsRun(c, Writes(ws))
    ensures var d := After(c, Writes(ws));
      && d.out == [] && !d.writing && d.wire == c.sent && d.phase == c.phase
      && d.halfCloses == c.halfCloses + if c.phase.Disconnecting? then 1 else 0
  {
    WritesDo(c, ws);
    var d := After(c, Writes(ws));
    assert d.wire + d.out == d.wire;
  }

  /** From every reachable state in which the connection is established: a shutdown, and write events that take
      what waits, end with every accepted byte on the wire and exactly one more half-close. */
  lemma ShutdownCompletes(c: Conn, steps: seq<Step>, ws: seq<WriteResult>)
    requires Init(c) && IsRun(c, steps) && After(c, steps).phase.Connected? && Total(ws) == |After(c, steps).out|
    ensures IsRun(After(c, steps), [ShutdownHere] + Writes(ws))
    ensures var m := After(c, steps); var d := After(m, [ShutdownHere] + Writes(ws));
      && d.wire == d.sent == Accepted(c, steps) && d.out == [] && d.phase.Disconnecting?
      && d.halfCloses == m.halfCloses + 1
  {
    var m := After(c, steps);
    RunKeeps(c, steps);
    SentIsAccepted(c, steps);
    var m' := Apply(m, ShutdownHere);
    StepKeeps(m, ShutdownHere);
    ShutdownDoes(m);
    if m.out == [] {
      WritesDo(m', ws);
      assert m'.wire + m'.out == m'.wire && m'.wire + m'.out[..0] == m'.wire;
    } else {
      WritesDrain(m', ws);
    }
    WritesDo(m', ws);
    First(m, ShutdownHere, Writes(ws));
  }

  // ---------------------------------------------------------------- the connection

  class TcpConnection {
    const config: Config
    const inputBuffer: Buffer.Buffer
    const outputBuffer: Buffer.Buffer
    var phase: Phase
    var writing: bool
    var wire: seq<char>
    var halfCloses: nat
    var completes: nat
    var marks: seq<nat>
    ghost var closed: bool
    ghost var sent: seq<char>

    ghost predicate Valid()
      reads this, inputBuffer, outputBuffer
    {
      && inputBuffer.Valid() && outputBuffer.Valid()
      && inputBuffer != outputBuffer && inputBuffer.buffer != outputBuffer.buffer
    }

    ghost function Abs(): Conn
      requires Valid()
      reads this, inputBuffer, outputBuffer, outputBuffer.buffer
    {
      Conn(config, phase, writing, closed, outputBuffer.Contents(), wire, sent, halfCloses, completes, marks, 0, 0, 0)
    }

    constructor (config: Config)
      ensures Valid() && fresh(inputBuffer) && fresh(outputBuffer) && fresh(inputBuffer.buffer) &&
        fresh(outputBuffer.buffer)
      ensures Init(Abs()) && this.config == config && inputBuffer.Contents() == []
    {
      this.config := config;
      inputBuffer := new Buffer.Buffer(Buffer.INITIAL_SIZE);
      outputBuffer := new Buffer.Buffer(Buffer.INITIAL_SIZE);
      phase, writing, wire, halfCloses, completes, marks, closed, sent := Connecting, false, [], 0, 0, [], false, [];
    }

    /** `write(2)`: `r` is its result; the bytes it took go out. */
    method Write(data: seq<char>, r: WriteResult) returns (n: int)
      requires Fits(r, |data|)
      modifies `wire
      ensures n == if r.Wrote? then r.n else -1
      ensures wire == old(wire) + if r.Wrote? then data[..r.n] else []
    {
      if r.Wrote? {
        wire := wire + data[..r.n];
        return r.n;
      }
      return -1;
    }

    method Send(data: seq<char>, r: WriteResult)
      requires Valid() && Fits(r, |data|)
      modifies this, outputBuffer, outputBuffer.buffer
      ensures Valid() && Abs() == AfterSend(old(Abs()), data, r)
    {
      if phase == Connected {
        SendInLoop(data, r);
      }
    }

    method SendInLoop(data: seq<char>, r: WriteResult)
      requires Valid() && Fits(r, |data|)
      modifies this, outputBuffer, outputBuffer.buffer
      ensures Valid() && Abs() == AfterSendInLoop(old(Abs()), data, r)
    {
      var nwrote := 0;
      var remaining := |data|;
      var faultError := false;
      if !writing && outputBuffer.writerIndex - outputBuffer.readerIndex == 0 {
        nwrote := Write(data, r);
        if nwrote >= 0 {
          remaining := |data| - nwrote;
          if remaining == 0 && config.onComplete {
            completes := completes + 1;
          }
        } else {
          nwrote := 0;
          if r.Broken? {
            faultError := true;
          }
        }
      }
      if !faultError {
        Keep(data, nwrote);
      }
    }

    /** What was not written waits in the buffer, and the write interest goes on. */
    method Keep(data: seq<char>, nwrote: nat)
      requires Valid() && nwrote <= |data|
      modifies this, outputBuffer, outputBuffer.buffer
      ensures Valid() && Abs() == Kept(old(Abs()), data, nwrote)
    {
      sent := sent + data;
      var remaining := |data| - nwrote;
      if remaining > 0 {
        var oldLen := outputBuffer.writerIndex - outputBuffer.readerIndex;
        if oldLen + remaining >= config.mark && oldLen < config.mark && config.onMark {
          marks := marks + [oldLen + remaining];
        } else {
          assert marks + [] == marks;
        }
        outputBuffer.Append(data[nwrote..]);
        writing := true;
      }
    }

    method HandleWrite(r: WriteResult)
      requires Valid() && Fits(r, |outputBuffer.Contents()|)
      modifies this, outputBuffer, outputBuffer.buffer
      ensures Valid() && Abs() == AfterWrite(old(Abs()), r)
      ensures var n := if old(writing) && r.Wrote? then r.n else 0;
        && wire == old(wire) + old(outputBuffer.Contents())[..n]
        && outputBuffer.Contents() == old(outputBuffer.Contents())[n..]
        && (writing <==> old(writing) && (n == 0 || outputBuffer.Contents() != []))
    {
      assert wire + [] == wire && outputBuffer.Contents()[0..] == outputBuffer.Contents();
      if writing {
        var n := Write(outputBuffer.buffer[outputBuffer.readerIndex..outputBuffer.writerIndex], r);
        if n > 0 {
          outputBuffer.Retrieve(n);
          if outputBuffer.writerIndex - outputBuffer.readerIndex == 0 {
            writing := false;
            if config.onComplete {
              completes := completes + 1;
            }
            if phase == Disconnecting {
              ShutdownInLoop();
            }
          }
        }
      }
    }

    method Shutdown()
      requires Valid()
      modifies this
      ensures Valid() && Abs() == AfterShutdown(old(Abs()))
      ensures phase == if old(phase) == Connected then Disconnecting else old(phase)
      ensures halfCloses == old(halfCloses) + if old(phase) == Connected && !writing then 1 else 0
      ensures writing == old(writing) && wire == old(wire) && outputBuffer.Contents() == old(outputBuffer.Contents())
    {
      if phase == Connected {
        phase := Disconnecting;
        ShutdownInLoop();
      }
    }

    method ShutdownInLoop()
      requires Valid()
      modifies `halfCloses
      ensures Valid() && Abs() == AfterShutdownInLoop(old(Abs()))
    {
      if !writing {
        halfCloses := halfCloses + 1;
      }
    }

    method ConnectEstablished()
      requires Valid()
      modifies `phase
      ensures Valid() && Abs() == old(Abs()).(phase := Connected)
    {
      phase := Connected;
    }

    method ConnectDestroyed()
      requires Valid()
      modifies this
      ensures Valid() && Abs() == AfterDestroy(old(Abs()))
    {
      if phase == Connected {
        phase := Disconnected;
        writing, closed := false, true;
      }
    }

    method HandleClose()
      requires Valid()
      modifies this
      ensures Valid() && Abs() == AfterClose(old(Abs()))
    {
      phase := Disconnected;
      writing, closed := false, true;
    }

    /** A read event: what came is appended to the input, and an empty read closes.  `received` says whether
        the message callback is due. */
    method HandleRead(result: Buffer.ReadResult) returns (received: bool)
      requires Valid() && (result.Got? ==> |result.data| <= Buffer.ReadLimit(inputBuffer.Abs()))
      modifies this, inputBuffer, inputBuffer.buffer
      ensures Valid() && outputBuffer.Contents() == old(outputBuffer.Contents())
      ensures Abs() == if result == Buffer.Got([]) then AfterClose(old(Abs())) else old(Abs())
      ensures inputBuffer.Contents() == old(inputBuffer.Contents()) + if result.Got? then result.data else []
      ensures received <==> result.Got? && result.data != []
    {
      var n := inputBuffer.ReadFd(result);
      received := n > 0;
      if n == 0 {
        HandleClose();
      }
    }
  }
}
