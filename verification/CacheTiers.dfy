/** Any number of threads over one central cache, for one size class
    (cpp_learning_projects/memory-mgkl/src/ThreadCache.cpp:7-129 with CentralCache.cpp:16-112).

    A thread's own list changes in single steps, because no other thread can reach it.  The central list changes
    under a spin lock, in a load of its head and a later store: that the load is still valid then is proved.  The
    effects of the steps are those of the methods in `ThreadCache`; `CacheMemory` takes them down to pointers.
*/
module CacheTiers {

  import opened IntrusiveList
  import opened SizeClasses
  import opened ThreadCache

  type Thread = nat

  datatype Pc =
    | Idle
    | FetchWait
    | FetchHold
    | FetchLoaded(seen: seq<Address>)
    | FetchStored(got: Option<Address>)
    | FetchDone(got: Option<Address>)
    | ReturnWait(chain: seq<Address>, limit: nat)
    | ReturnHold(chain: seq<Address>, limit: nat)
    | ReturnLoaded(chain: seq<Address>, limit: nat, seen: seq<Address>)
    | ReturnStored

  /** `held` are the blocks the thread's code has; `failed` counts fetches that gave nothing, and `drift`
      says by how much the counter lags behind the list. */
  datatype Worker = Worker(local: Local, pc: Pc, held: set<Address>, drift: nat, failed: nat)

  /** Where a block is. */
  datatype Place = User(t: Thread) | Listed(t: Thread) | Moving(t: Thread) | Central | Lost

  datatype State = State(index: nat, workers: map<Thread, Worker>, central: seq<Address>, lock: Option<Thread>,
    place: map<Address, Place>)

  datatype Step =
    | Allocate(t: Thread)
    | Acquire(t: Thread)
    | Load(t: Thread)
    | Store(t: Thread, span: Option<Address>)
    | Unlock(t: Thread)
    | Finish(t: Thread)
    | Free(t: Thread, b: Address, bytes: nat)
    | HandOver(t: Thread, to: Thread, b: Address)

  predicate Init(s: State) {
    && s.central == [] && s.lock == None && s.place == map[]
    && forall t :: t in s.workers ==> s.workers[t] == Worker(Local([], 0), Idle, {}, 0, 0)
  }

  predicate HoldsLock(pc: Pc) {
    pc.FetchHold? || pc.FetchLoaded? || pc.FetchStored? || pc.ReturnHold? || pc.ReturnLoaded? || pc.ReturnStored?
  }

  /** A fetch between the decrement of the counter and its outcome. */
  predicate Fetching(pc: Pc) {
    pc.FetchWait? || pc.FetchHold? || pc.FetchLoaded? || pc.FetchStored? || pc.FetchDone?
  }

  /** The blocks a thread is carrying between a list and another. */
  function Transit(pc: Pc): seq<Address> {
    match pc
    case FetchStored(Some(b)) => [b]
    case FetchDone(Some(b)) => [b]
    case ReturnWait(chain, _) => chain
    case ReturnHold(chain, _) => chain
    case ReturnLoaded(chain, _, _) => chain
    case _ => []
  }

  /** A span gives blocks that were never carved before. */
  predicate IsNew(place: map<Address, Place>, blocks: seq<Address>) {
    && blocks != [] && (forall i, j :: 0 <= i < j < |blocks| ==> blocks[i] != blocks[j])
    && forall b :: b in blocks ==> b !in place
  }

  /** The page cache gives spans whose blocks were never carved before. */
  predicate IsNewSpan(s: State, start: Address) {
    start != NULL && forall b :: b in Blocks(start, ClassBytes(s.index)) ==> b !in s.place
  }

  /** What a span is carved into. */
  function Carved(index: nat, span: Option<Address>): Option<seq<Address>> {
    if span.Some? then Some(Blocks(span.value, ClassBytes(index))) else None
  }

  predicate Enabled(s: State, step: Step) {
    step.t in s.workers &&
    var w := s.workers[step.t];
    match step
    case Allocate(_) => w.pc.Idle?
    case Acquire(_) => (w.pc.FetchWait? || w.pc.ReturnWait?) && s.lock == None
    case Load(_) => w.pc.FetchHold? || w.pc.ReturnHold?
    case Store(_, span) =>
      (w.pc.FetchLoaded? && (span.Some? ==> IsNewSpan(s, span.value))) || (w.pc.ReturnLoaded? && span.None?)
    case Unlock(_) => w.pc.FetchStored? || w.pc.ReturnStored?
    case Finish(_) => w.pc.FetchDone?
    case Free(_, b, bytes) => w.pc.Idle? && b in w.held && bytes <= MAX_BYTES && GetIndex(bytes) == s.index
    case HandOver(t, to, b) => w.pc.Idle? && b in w.held && to in s.workers && to != t
  }

  function Moved(place: map<Address, Place>, blocks: seq<Address>, to: Place): map<Address, Place> {
    map b | b in place.Keys + (set x | x in blocks) :: if b in blocks then to else place[b]
  }

  function ApplyAllocate(s: State, t: Thread, w: Worker): State {
    var l := Decremented(w.local);
    if w.local.list != [] then
      var b := w.local.list[0];
      s.(workers := s.workers[t := w.(local := l.(list := l.list[1..]), held := w.held + {b})],
         place := Moved(s.place, [b], User(t)))
    else
      s.(workers := s.workers[t := w.(local := l, pc := FetchWait)])
  }

  function ApplyStore(s: State, t: Thread, w: Worker, span: Option<seq<Address>>): State
    requires w.pc.FetchLoaded? || w.pc.ReturnLoaded?
    requires span.Some? ==> span.value != []
  {
    match w.pc
    case FetchLoaded(seen) =>
      if seen != [] then
        s.(workers := s.workers[t := w.(pc := FetchStored(Some(seen[0])))], central := seen[1..],
           place := Moved(s.place, [seen[0]], Moving(t)))
      else if span.None? then
        s.(workers := s.workers[t := w.(pc := FetchStored(None))])
      else
        s.(workers := s.workers[t := w.(pc := FetchStored(Some(span.value[0])))], central := span.value[1..],
           place := Moved(Moved(s.place, span.value[1..], Central), [span.value[0]], Moving(t)))
    case ReturnLoaded(chain, limit, seen) =>
      var n := Accepted(|chain|, limit);
      s.(workers := s.workers[t := w.(pc := ReturnStored)], central := chain[..n] + seen,
         place := Moved(Moved(s.place, chain[..n], Central), chain[n..], Lost))
  }

  /** The thread counts the chain it fetched, of one block, and its code gets the block. */
  function Received(w: Worker, b: Address): Worker {
    w.(local := w.local.(size := Wrap(w.local.size + 1)), pc := Idle, held := w.held + {b})
  }

  function ApplyFinish(s: State, t: Thread, w: Worker): State
    requires w.pc.FetchDone?
  {
    if w.pc.got.Some? then
      s.(workers := s.workers[t := Received(w, w.pc.got.value)], place := Moved(s.place, [w.pc.got.value], User(t)))
    else
      s.(workers := s.workers[t := w.(pc := Idle, drift := w.drift + 1, failed := w.failed + 1)])
  }

  function ApplyFree(s: State, t: Thread, w: Worker, b: Address, bytes: nat): State {
    var l := Pushed(w.local, b);
    if l.size > THRESHOLD && Cuts(l) then
      s.(workers := s.workers[t := GivenBack(w, l, b, bytes)],
         place := Moved(Moved(s.place, [b], Listed(t)), CutOff(l), Moving(t)))
    else
      s.(workers := s.workers[t := w.(local := l, held := w.held - {b})], place := Moved(s.place, [b], Listed(t)))
  }

  /** The worker once it has cut `l`: the chain is on its way to the central list. */
  function GivenBack(w: Worker, l: Local, b: Address, bytes: nat): Worker
    requires Cuts(l)
  {
    var chain := CutOff(l);
    w.(local := Kept(l), pc := if chain == [] then Idle else ReturnWait(chain, ReturnLimit(l.size, bytes)),
       held := w.held - {b}, drift := 1)
  }

  function Apply(s: State, step: Step): State
    requires Enabled(s, step)
  {
    var t := step.t;
    var w := s.workers[t];
    match step
    case Allocate(_) => ApplyAllocate(s, t, w)
    case Acquire(_) =>
      var pc := if w.pc.FetchWait? then FetchHold else ReturnHold(w.pc.chain, w.pc.limit);
      s.(workers := s.workers[t := w.(pc := pc)], lock := Some(t))
    case Load(_) =>
      var pc := if w.pc.FetchHold? then FetchLoaded(s.central) else ReturnLoaded(w.pc.chain, w.pc.limit, s.central);
      s.(workers := s.workers[t := w.(pc := pc)])
    case Store(_, span) => ApplyStore(s, t, w, Carved(s.index, span))
    case Unlock(_) =>
      var pc := if w.pc.FetchStored? then FetchDone(w.pc.got) else Idle;
      s.(workers := s.workers[t := w.(pc := pc)], lock := None)
    case Finish(_) =>
      ApplyFinish(s, t, w)
    case Free(_, b, bytes) => ApplyFree(s, t, w, b, bytes)
    case HandOver(_, to, b) =>
      var u := s.workers[to];
      s.(workers := s.workers[t := w.(held := w.held - {b})][to := u.(held := u.held + {b})],
         place := Moved(s.place, [b], User(to)))
  }

  // ---------------------------------------------------------------- where the blocks are

  /** `blocks` are exactly those placed at `at`, each once. */
  ghost predicate Holds(blocks: seq<Address>, place: map<Address, Place>, at: Place) {
    && Distinct(blocks)
    && forall b :: b in blocks <==> b in place && place[b] == at
  }

  ghost predicate WorkerPlaced(t: Thread, w: Worker, place: map<Address, Place>) {
    && Holds(w.local.list, place, Listed(t))
    && Holds(Transit(w.pc), place, Moving(t))
    && (forall b :: b in w.held <==> b in place && place[b] == User(t))
  }

  // Moving blocks from one place to another.

  lemma MovedAway(blocks: seq<Address>, place: map<Address, Place>, at: Place, moved: seq<Address>, to: Place)
    requires Holds(blocks, place, at) && at != to
    requires forall b :: b in moved ==> b !in blocks
    ensures Holds(blocks, Moved(place, moved, to), at)
  {
  }

  lemma MovedIn(blocks: seq<Address>, place: map<Address, Place>, at: Place, moved: seq<Address>)
    requires Holds(blocks, place, at) && Distinct(moved)
    requires forall b :: b in moved ==> b !in blocks
    ensures Holds(moved + blocks, Moved(place, moved, at), at)
  {
    var all := moved + blocks;
    assert forall i :: 0 <= i < |moved| ==> all[i] == moved[i] && all[i] in moved;
    assert forall i :: |moved| <= i < |all| ==> all[i] == blocks[i-|moved|] && all[i] in blocks;
  }

  /** Moving one end of a list away leaves the other end. */
  lemma MovedOut(kept: seq<Address>, moved: seq<Address>, place: map<Address, Place>, at: Place, to: Place)
    requires (Holds(kept + moved, place, at) || Holds(moved + kept, place, at)) && at != to
    ensures Holds(kept, Moved(place, moved, to), at) && Distinct(moved) && forall b :: b in moved ==> b !in kept
  {
    if Holds(kept + moved, place, at) {
      var all := kept + moved;
      assert forall i :: 0 <= i < |kept| ==> all[i] == kept[i];
      assert forall i :: 0 <= i < |moved| ==> all[i+|kept|] == moved[i];
    } else {
      var all := moved + kept;
      assert forall i :: 0 <= i < |moved| ==> all[i] == moved[i];
      assert forall i :: 0 <= i < |kept| ==> all[i+|moved|] == kept[i];
    }
  }

  predicate Concerns(at: Place, u: Thread) {
    at == Listed(u) || at == Moving(u) || at == User(u)
  }

  /** Blocks that are not with a thread and do not go to it do not concern it. */
  lemma OtherPlaced(u: Thread, w: Worker, place: map<Address, Place>, moved: seq<Address>, to: Place)
    requires WorkerPlaced(u, w, place) && !Concerns(to, u)
    requires forall b :: b in moved && b in place ==> !Concerns(place[b], u)
    ensures WorkerPlaced(u, w, Moved(place, moved, to))
  {
    MovedAway(w.local.list, place, Listed(u), moved, to);
    MovedAway(Transit(w.pc), place, Moving(u), moved, to);
  }

  /** Every place a block can be in names a known thread. */
  ghost predicate ThreadsKnown(place: map<Address, Place>, threads: set<Thread>) {
    forall b :: b in place && place[b] != Central && place[b] != Lost ==> place[b].t in threads
  }

  ghost predicate Placed(s: State) {
    && Holds(s.central, s.place, Central)
    && (forall t :: t in s.workers ==> WorkerPlaced(t, s.workers[t], s.place))
    && ThreadsKnown(s.place, s.workers.Keys)
  }

  /** Blocks that move between a thread, the central list and nowhere concern no other thread. */
  lemma OthersPlaced(workers: map<Thread, Worker>, place: map<Address, Place>, t: Thread, moved: seq<Address>,
      to: Place)
    requires forall u :: u in workers && u != t ==> WorkerPlaced(u, workers[u], place)
    requires forall b :: b in moved && b in place ==> place[b] == Central || Concerns(place[b], t)
    requires to == Central || to == Lost || Concerns(to, t)
    ensures forall u :: u in workers && u != t ==> WorkerPlaced(u, workers[u], Moved(place, moved, to))
  {
    forall u | u in workers && u != t
      ensures WorkerPlaced(u, workers[u], Moved(place, moved, to))
    {
      OtherPlaced(u, workers[u], place, moved, to);
    }
  }

  /** The parts that make a state placed after a step of `t`. */
  lemma StepPlaced(s: State, t: Thread, w: Worker, central: seq<Address>, place: map<Address, Place>)
    requires t in s.workers && WorkerPlaced(t, w, place) && Holds(central, place, Central)
    requires forall u :: u in s.workers && u != t ==> WorkerPlaced(u, s.workers[u], place)
    requires ThreadsKnown(place, s.workers.Keys)
    ensures Placed(s.(workers := s.workers[t := w], central := central, place := place))
  {
    assert s.workers[t := w].Keys == s.workers.Keys;
  }

  /** Blocks of `t` that stay with `t` leave everything else as it was. */
  lemma WithinThread(s: State, t: Thread, w: Worker, moved: seq<Address>, to: Place)
    requires Placed(s) && t in s.workers && WorkerPlaced(t, w, Moved(s.place, moved, to)) && Concerns(to, t)
    requires forall b :: b in moved ==> b in s.place && Concerns(s.place[b], t)
    ensures Placed(s.(workers := s.workers[t := w], place := Moved(s.place, moved, to)))
  {
    MovedAway(s.central, s.place, Central, moved, to);
    OthersPlaced(s.workers, s.place, t, moved, to);
    StepPlaced(s, t, w, s.central, Moved(s.place, moved, to));
  }

  lemma TakeKeeps(s: State, t: Thread)
    requires Placed(s) && t in s.workers && s.workers[t].local.list != []
    ensures Placed(ApplyAllocate(s, t, s.workers[t]))
  {
    var w := s.workers[t];
    var b := w.local.list[0];
    WithinThread(s, t, w.(local := Decremented(w.local).(list := w.local.list[1..]), held := w.held + {b}), [b],
      User(t));
  }

  /** A block arrives with a thread that carries none. */
  lemma ArriveOwn(t: Thread, w: Worker, place: map<Address, Place>, b: Address, pc: Pc)
    requires WorkerPlaced(t, w, place) && Transit(w.pc) == [] && Transit(pc) == [b]
    requires b in place ==> place[b] == Central
    ensures WorkerPlaced(t, w.(pc := pc), Moved(place, [b], Moving(t)))
  {
    MovedIn([], place, Moving(t), [b]);
    assert [b] + [] == [b];
    MovedAway(w.local.list, place, Listed(t), [b], Moving(t));
  }

  lemma FetchListedKeeps(s: State, t: Thread)
    requires Placed(s) && t in s.workers && s.workers[t].pc.FetchLoaded? && s.workers[t].pc.seen == s.central != []
    ensures Placed(ApplyStore(s, t, s.workers[t], None))
  {
    var w := s.workers[t];
    var b := s.central[0];
    ArriveOwn(t, w, s.place, b, FetchStored(Some(b)));
    OthersPlaced(s.workers, s.place, t, [b], Moving(t));
    StepPlaced(s, t, w.(pc := FetchStored(Some(b))), s.central[1..], Moved(s.place, [b], Moving(t)));
  }

  /** New blocks join the central list. */
  lemma CarvedCentral(s: State, t: Thread, rest: seq<Address>)
    requires Placed(s) && t in s.workers && s.central == [] && Distinct(rest) && forall b :: b in rest ==> b !in s.place
    ensures Placed(s.(central := rest, place := Moved(s.place, rest, Central)))
  {
    MovedIn([], s.place, Central, rest);
    assert rest + [] == rest;
    OthersPlaced(s.workers, s.place, t, rest, Central);
    OtherPlaced(t, s.workers[t], s.place, rest, Central);
    StepPlaced(s, t, s.workers[t], rest, Moved(s.place, rest, Central));
    assert s.workers[t := s.workers[t]] == s.workers;
  }

  lemma FetchCarvedKeeps(s: State, t: Thread, blocks: seq<Address>)
    requires Placed(s) && t in s.workers && s.workers[t].pc.FetchLoaded? && s.workers[t].pc.seen == s.central == []
    requires IsNew(s.place, blocks)
    ensures Placed(ApplyStore(s, t, s.workers[t], Some(blocks)))
  {
    var b, rest := blocks[0], blocks[1..];
    assert forall i :: 0 <= i < |rest| ==> rest[i] == blocks[i+1] && rest[i] in blocks;
    assert b in blocks && b !in rest && Distinct(rest);
    CarvedCentral(s, t, rest);
    var m := s.(central := rest, place := Moved(s.place, rest, Central));
    FirstCarvedKeeps(m, t, b);
  }

  lemma FirstCarvedKeeps(m: State, t: Thread, b: Address)
    requires Placed(m) && t in m.workers && Transit(m.workers[t].pc) == [] && b !in m.place
    ensures Placed(m.(workers := m.workers[t := m.workers[t].(pc := FetchStored(Some(b)))],
      place := Moved(m.place, [b], Moving(t))))
  {
    var w := m.workers[t];
    MovedAway(m.central, m.place, Central, [b], Moving(t));
    ArriveOwn(t, w, m.place, b, FetchStored(Some(b)));
    OthersPlaced(m.workers, m.place, t, [b], Moving(t));
    StepPlaced(m, t, w.(pc := FetchStored(Some(b))), m.central, Moved(m.place, [b], Moving(t)));
  }

  /** The front of the carried chain joins the central list, and the back of it nothing. */
  lemma ReturnOwn(t: Thread, w: Worker, place: map<Address, Place>, front: seq<Address>, back: seq<Address>)
    requires WorkerPlaced(t, w, place) && Transit(w.pc) == front + back
    ensures WorkerPlaced(t, w.(pc := ReturnStored), Moved(Moved(place, front, Central), back, Lost))
  {
    MovedOut(back, front, place, Moving(t), Central);
    MovedAway(w.local.list, place, Listed(t), front, Central) by {
      assert forall b :: b in front ==> b in front + back;
    }
    var between := Moved(place, front, Central);
    assert [] + back == back;
    MovedOut([], back, between, Moving(t), Lost);
    MovedAway(w.local.list, between, Listed(t), back, Lost);
  }

  lemma ReturnCentral(place: map<Address, Place>, central: seq<Address>, t: Thread, front: seq<Address>,
      back: seq<Address>)
    requires Holds(central, place, Central) && Holds(front + back, place, Moving(t))
    ensures Holds(front + central, Moved(Moved(place, front, Central), back, Lost), Central)
  {
    MovedOut(back, front, place, Moving(t), Central);
    var chain := front + back;
    assert forall i :: 0 <= i < |front| ==> chain[i] == front[i];
    assert forall b :: b in front ==> b in chain;
    assert forall b :: b in back ==> b in chain;
    MovedIn(central, place, Central, front);
    MovedAway(front + central, Moved(place, front, Central), Central, back, Lost);
  }

  /** The parts of a carried chain are with its thread. */
  lemma ReturnOthers(s: State, t: Thread, front: seq<Address>, back: seq<Address>)
    requires Placed(s) && t in s.workers && Holds(front + back, s.place, Moving(t))
    ensures var place := Moved(Moved(s.place, front, Central), back, Lost);
      && (forall u :: u in s.workers && u != t ==> WorkerPlaced(u, s.workers[u], place))
      && ThreadsKnown(place, s.workers.Keys)
  {
    OthersPlaced(s.workers, s.place, t, front, Central);
    OthersPlaced(s.workers, Moved(s.place, front, Central), t, back, Lost);
  }

  lemma ReturnKeeps(s: State, t: Thread)
    requires Placed(s) && t in s.workers && s.workers[t].pc.ReturnLoaded? && s.workers[t].pc.seen == s.central
    ensures Placed(ApplyStore(s, t, s.workers[t], None))
  {
    var w := s.workers[t];
    var chain := w.pc.chain;
    var n := Accepted(|chain|, w.pc.limit);
    var front, back := chain[..n], chain[n..];
    assert chain == front + back;
    ReturnOwn(t, w, s.place, front, back);
    ReturnCentral(s.place, s.central, t, front, back);
    ReturnOthers(s, t, front, back);
    StepPlaced(s, t, w.(pc := ReturnStored), front + s.central, Moved(Moved(s.place, front, Central), back, Lost));
  }

  lemma FinishOwn(t: Thread, w: Worker, place: map<Address, Place>, b: Address)
    requires WorkerPlaced(t, w, place) && w.pc == FetchDone(Some(b))
    ensures b in place && place[b] == Moving(t)
    ensures WorkerPlaced(t, Received(w, b), Moved(place, [b], User(t)))
  {
    assert b in Transit(w.pc) && [] + [b] == [b];
    MovedOut([], [b], place, Moving(t), User(t));
    MovedAway(w.local.list, place, Listed(t), [b], User(t));
  }

  lemma FinishKeeps(s: State, t: Thread)
    requires Placed(s) && t in s.workers && s.workers[t].pc.FetchDone?
    ensures Placed(ApplyFinish(s, t, s.workers[t]))
  {
    var w := s.workers[t];
    assert WorkerPlaced(t, w, s.place);
    if w.pc.got.Some? {
      var b := w.pc.got.value;
      FinishOwn(t, w, s.place, b);
      WithinThread(s, t, Received(w, b), [b], User(t));
    } else {
      StepPlaced(s, t, w.(pc := Idle, drift := w.drift + 1, failed := w.failed + 1), s.central, s.place);
    }
  }

  lemma PushKeeps(s: State, t: Thread, b: Address)
    requires Placed(s) && t in s.workers && b in s.workers[t].held
    ensures var w := s.workers[t];
      Placed(s.(workers := s.workers[t := w.(local := Pushed(w.local, b), held := w.held - {b})],
        place := Moved(s.place, [b], Listed(t))))
  {
    var w := s.workers[t];
    assert WorkerPlaced(t, w, s.place);
    WithinThread(s, t, w.(local := Pushed(w.local, b), held := w.held - {b}), [b], Listed(t));
  }

  lemma CutKeeps(s: State, t: Thread, w': Worker)
    requires Placed(s) && t in s.workers && Transit(s.workers[t].pc) == [] && Cuts(s.workers[t].local)
    requires w'.local == Kept(s.workers[t].local) && Transit(w'.pc) == CutOff(s.workers[t].local) &&
      w'.held == s.workers[t].held
    ensures Placed(s.(workers := s.workers[t := w'], place := Moved(s.place, CutOff(s.workers[t].local), Moving(t))))
  {
    var w := s.workers[t];
    assert w.local.list == w'.local.list + CutOff(w.local);
    WithinThread(s, t, w', CutOff(w.local), Moving(t));
  }

  /** The state between the push of a freed block and the give-back. */
  function AfterPush(s: State, t: Thread, w: Worker, b: Address): State {
    s.(workers := s.workers[t := w.(local := Pushed(w.local, b), held := w.held - {b})],
      place := Moved(s.place, [b], Listed(t)))
  }

  /** A free is the push, and then past the threshold the cut. */
  lemma FreeIsPushThenCut(s: State, t: Thread, w: Worker, b: Address, bytes: nat)
    requires t in s.workers && s.workers[t] == w && Transit(w.pc) == []
    ensures var l, m, s' := Pushed(w.local, b), AfterPush(s, t, w, b), ApplyFree(s, t, w, b, bytes);
      if l.size > THRESHOLD && Cuts(l) then
        var w' := GivenBack(w, l, b, bytes);
        && m.workers[t].local == l && Transit(m.workers[t].pc) == []
        && w'.local == Kept(l) && w'.held == m.workers[t].held && (w.pc.Idle? ==> Transit(w'.pc) == CutOff(l))
        && s' == m.(workers := m.workers[t := w'], place := Moved(m.place, CutOff(l), Moving(t)))
      else s' == m
  {
    var m, l := AfterPush(s, t, w, b), Pushed(w.local, b);
    if l.size > THRESHOLD && Cuts(l) {
      assert s.workers[t := GivenBack(w, l, b, bytes)] == m.workers[t := GivenBack(w, l, b, bytes)];
    }
  }

  lemma FreeKeeps(s: State, t: Thread, b: Address, bytes: nat)
    requires Placed(s) && t in s.workers && s.workers[t].pc.Idle? && b in s.workers[t].held
    ensures Placed(ApplyFree(s, t, s.workers[t], b, bytes))
  {
    PushKeeps(s, t, b);
    PushedCutKeeps(s, t, s.workers[t], b, bytes);
  }

  lemma PushedCutKeeps(s: State, t: Thread, w: Worker, b: Address, bytes: nat)
    requires t in s.workers && s.workers[t] == w && w.pc.Idle? && Placed(AfterPush(s, t, w, b))
    ensures Placed(ApplyFree(s, t, w, b, bytes))
  {
    FreeIsPushThenCut(s, t, w, b, bytes);
    var l := Pushed(w.local, b);
    if l.size > THRESHOLD && Cuts(l) {
      CutKeeps(AfterPush(s, t, w, b), t, GivenBack(w, l, b, bytes));
    }
  }

  lemma HandOverPlaced(u: Thread, w: Worker, place: map<Address, Place>, t: Thread, to: Thread, b: Address)
    requires WorkerPlaced(u, w, place) && b in place && place[b] == User(t) && t != to
    ensures var held := if u == t then w.held - {b} else if u == to then w.held + {b} else w.held;
      WorkerPlaced(u, w.(held := held), Moved(place, [b], User(to)))
  {
    MovedAway(w.local.list, place, Listed(u), [b], User(to));
    MovedAway(Transit(w.pc), place, Moving(u), [b], User(to));
  }

  lemma HandOverKeeps(s: State, t: Thread, to: Thread, b: Address)
    requires Placed(s) && Enabled(s, HandOver(t, to, b))
    ensures Placed(Apply(s, HandOver(t, to, b)))
  {
    var s' := Apply(s, HandOver(t, to, b));
    assert b in s.place && s.place[b] == User(t) by {
      assert WorkerPlaced(t, s.workers[t], s.place);
    }
    MovedAway(s.central, s.place, Central, [b], User(to));
    assert s'.workers.Keys == s.workers.Keys;
    HandOverWorkers(s, t, to, b);
  }

  lemma HandOverWorkers(s: State, t: Thread, to: Thread, b: Address)
    requires Enabled(s, HandOver(t, to, b)) && b in s.place && s.place[b] == User(t)
    requires forall u :: u in s.workers ==> WorkerPlaced(u, s.workers[u], s.place)
    ensures var s' := Apply(s, HandOver(t, to, b));
      forall u :: u in s'.workers ==> WorkerPlaced(u, s'.workers[u], s'.place)
  {
    var s' := Apply(s, HandOver(t, to, b));
    forall u | u in s'.workers
      ensures WorkerPlaced(u, s'.workers[u], s'.place)
    {
      HandOverPlaced(u, s.workers[u], s.place, t, to, b);
    }
  }

  /** A thread may move its program counter as long as it carries the same blocks. */
  lemma PcKeeps(s: State, t: Thread, pc: Pc, lock: Option<Thread>)
    requires Placed(s) && t in s.workers && Transit(pc) == Transit(s.workers[t].pc)
    ensures Placed(s.(workers := s.workers[t := s.workers[t].(pc := pc)], lock := lock))
  {
    var w := s.workers[t];
    assert WorkerPlaced(t, w, s.place);
    assert WorkerPlaced(t, w.(pc := pc), s.place);
    StepPlaced(s.(lock := lock), t, w.(pc := pc), s.central, s.place);
  }

  /** Every step keeps every block in one place. */
  lemma PlacedKeeps(s: State, step: Step)
    requires Placed(s) && Locked(s) && Enabled(s, step)
    ensures Placed(Apply(s, step))
  {
    var t := step.t;
    var w := s.workers[t];
    match step
    case Allocate(_) =>
      if w.local.list != [] {
        TakeKeeps(s, t);
      } else {
        StepPlaced(s, t, w.(local := Decremented(w.local), pc := FetchWait), s.central, s.place);
      }
    case Store(_, span) => StoreKeeps(s, t, span);
    case Finish(_) => FinishKeeps(s, t);
    case Free(_, b, bytes) => FreeKeeps(s, t, b, bytes);
    case HandOver(_, to, b) => HandOverKeeps(s, t, to, b);
    case _ => PcKeeps(s, t, Apply(s, step).workers[t].pc, Apply(s, step).lock);
  }

  lemma SpanIsNew(s: State, start: Address)
    requires IsNewSpan(s, start)
    ensures IsNew(s.place, Blocks(start, ClassBytes(s.index)))
  {
    BlocksDistinct(start, ClassBytes(s.index));
  }

  lemma StoreKeeps(s: State, t: Thread, span: Option<Address>)
    requires Placed(s) && Locked(s) && Enabled(s, Store(t, span))
    ensures Placed(ApplyStore(s, t, s.workers[t], Carved(s.index, span)))
  {
    var pc := s.workers[t].pc;
    assert pc.seen == s.central;
    if pc.ReturnLoaded? {
      ReturnKeeps(s, t);
    } else if s.central != [] {
      FetchListedKeeps(s, t);
    } else if span.Some? {
      SpanIsNew(s, span.value);
      FetchCarvedKeeps(s, t, Blocks(span.value, ClassBytes(s.index)));
    } else {
      StepPlaced(s, t, s.workers[t].(pc := FetchStored(None)), s.central, s.place);
    }
  }

  // ---------------------------------------------------------------- the lock

  /** The lock is held by the thread inside its critical section, and what that thread has loaded from
      the central list is still there. */
  ghost predicate LockRespected(pc: Pc, t: Thread, lock: Option<Thread>, central: seq<Address>) {
    && (HoldsLock(pc) <==> lock == Some(t))
    && (pc.FetchLoaded? || pc.ReturnLoaded? ==> pc.seen == central)
  }

  ghost predicate Locked(s: State) {
    forall t :: t in s.workers ==> LockRespected(s.workers[t].pc, t, s.lock, s.central)
  }

  /** A step of one thread leaves the others where they were, with the list and counter they had. */
  lemma OthersUntouched(s: State, step: Step, u: Thread)
    requires Enabled(s, step) && u in s.workers && u != step.t
    ensures u in Apply(s, step).workers
    ensures var w, w' := s.workers[u], Apply(s, step).workers[u]; w' == w.(held := w'.held)
  {
  }

  lemma LockedKeeps(s: State, step: Step)
    requires Locked(s) && Enabled(s, step)
    ensures Locked(Apply(s, step))
  {
    var s' := Apply(s, step);
    var t := step.t;
    assert LockRespected(s.workers[t].pc, t, s.lock, s.central);
    forall u | u in s'.workers && u != t
      ensures LockRespected(s'.workers[u].pc, u, s'.lock, s'.central)
    {
      OthersUntouched(s, step, u);
    }
  }

  // ---------------------------------------------------------------- the counter

  /** Below this many failed fetches the counter stays far from the range in which it would seem small again. */
  const FAILURES: nat := WORD_RANGE / 8

  /** The counter is the length of the list less `drift`, and less one while a fetch is under way. */
  ghost predicate Counted(w: Worker) {
    && w.local.size == Wrap(|w.local.list| - w.drift - if Fetching(w.pc) then 1 else 0)
    && (Fetching(w.pc) ==> w.local.list == [])
    && w.drift <= 1 + w.failed
    && (w.failed < FAILURES ==> |w.local.list| <= THRESHOLD + w.drift)
  }

  lemma AllocateCounted(s: State, t: Thread)
    requires t in s.workers && s.workers[t].pc.Idle? && Counted(s.workers[t])
    ensures Counted(ApplyAllocate(s, t, s.workers[t]).workers[t])
  {
  }

  /** What the threshold test of a free reads: the list less the drift, wrapped exactly if the drift is
      the longer of the two. */
  lemma PushedCounter(w: Worker, b: Address)
    requires Counted(w) && w.pc.Idle? && w.failed < FAILURES
    ensures var l := Pushed(w.local, b);
      l.size == |l.list| - w.drift + if |l.list| < w.drift then WORD_RANGE else 0
  {
  }

  /** A thread none of whose fetches failed is at most one behind, so no free sees a wrapped counter. */
  lemma FreeNeverSeesWrapped(w: Worker, b: Address)
    requires Counted(w) && w.pc.Idle? && w.failed == 0
    ensures |Pushed(w.local, b).list| - 1 <= Pushed(w.local, b).size <= |Pushed(w.local, b).list|
  {
    PushedCounter(w, b);
  }

  /** The give-back happens at a count of exactly one past the threshold, and leaves seventeen blocks. */
  lemma GiveBackIff(w: Worker, b: Address)
    requires Counted(w) && w.pc.Idle? && w.failed < FAILURES
    ensures var l := Pushed(w.local, b);
      l.size > THRESHOLD && Cuts(l) <==> |w.local.list| == THRESHOLD + w.drift
    ensures var l := Pushed(w.local, b);
      l.size > THRESHOLD && Cuts(l) ==> l.size == THRESHOLD + 1 && Keep(l.size) == 16 && |CutOff(l)| == 48 + w.drift
  {
    PushedCounter(w, b);
    var l := Pushed(w.local, b);
    if |l.list| < w.drift {
      assert Keep(l.size) == l.size / 4;
    }
  }

  lemma FreeCounted(s: State, t: Thread, b: Address, bytes: nat)
    requires t in s.workers && s.workers[t].pc.Idle? && Counted(s.workers[t])
    ensures Counted(ApplyFree(s, t, s.workers[t], b, bytes).workers[t])
  {
    var w := s.workers[t];
    var l := Pushed(w.local, b);
    if w.failed < FAILURES {
      GiveBackIff(w, b);
    }
    if l.size > THRESHOLD && Cuts(l) {
      CutCounted(w, l, b, bytes);
    } else {
      WrapAdd(|w.local.list| - w.drift, 1);
    }
  }

  lemma WrapAdd(x: int, d: int)
    ensures Wrap(Wrap(x) + d) == Wrap(x + d)
  {
  }

  lemma CutCounted(w: Worker, l: Local, b: Address, bytes: nat)
    requires Cuts(l) && l.size < WORD_RANGE && (w.failed < FAILURES ==> l.size == THRESHOLD + 1) && w.pc.Idle?
    ensures Counted(GivenBack(w, l, b, bytes))
  {
    var w' := GivenBack(w, l, b, bytes);
    assert |w'.local.list| - w'.drift == Keep(l.size) < WORD_RANGE;
    assert !Fetching(w'.pc);
  }

  lemma CountedKeeps(s: State, step: Step)
    requires Enabled(s, step) && forall u :: u in s.workers ==> Counted(s.workers[u])
    ensures forall u :: u in Apply(s, step).workers ==> Counted(Apply(s, step).workers[u])
  {
    forall u | u in Apply(s, step).workers
      ensures Counted(Apply(s, step).workers[u])
    {
      if u == step.t {
        OwnCounted(s, step);
      } else {
        OthersUntouched(s, step, u);
      }
    }
  }

  lemma OwnCounted(s: State, step: Step)
    requires Enabled(s, step) && Counted(s.workers[step.t])
    ensures Counted(Apply(s, step).workers[step.t])
  {
    match step
    case Allocate(t) => AllocateCounted(s, t);
    case Finish(t) => FinishCounted(s, t);
    case Free(t, b, bytes) => FreeCounted(s, t, b, bytes);
    case _ =>
  }

  lemma FinishCounted(s: State, t: Thread)
    requires t in s.workers && s.workers[t].pc.FetchDone? && Counted(s.workers[t])
    ensures Counted(ApplyFinish(s, t, s.workers[t]).workers[t])
  {
    WrapAdd(0 - s.workers[t].drift - 1, 1);
  }

  // ---------------------------------------------------------------- what a give-back loses

  /** A chain on its way back is taken whole under the limit that travels with it. */
  ghost predicate Fits(pc: Pc) {
    pc.ReturnWait? || pc.ReturnHold? || pc.ReturnLoaded? ==> Accepted(|pc.chain|, pc.limit) == |pc.chain|
  }

  /** A free of this many told bytes sends off a chain no longer than its limit, which is a byte count. */
  predicate Ample(w: Worker, bytes: nat) {
    48 + w.drift <= 49 * Ceil(bytes)
  }

  /** A give-back is taken whole if and only if the free that caused it told enough bytes; of one that told
      none the central list takes a single block. */
  lemma GiveBackTakesAllIff(w: Worker, b: Address, bytes: nat)
    requires Counted(w) && w.pc.Idle? && w.failed < FAILURES && bytes <= MAX_BYTES
    requires Cuts(Pushed(w.local, b)) && Pushed(w.local, b).size > THRESHOLD
    ensures var l := Pushed(w.local, b);
      Accepted(|CutOff(l)|, ReturnLimit(l.size, bytes)) == |CutOff(l)| <==> Ample(w, bytes)
    ensures bytes == 0 ==> Accepted(|CutOff(Pushed(w.local, b))|, ReturnLimit(Pushed(w.local, b).size, bytes)) == 1
    ensures Fits(GivenBack(w, Pushed(w.local, b), b, bytes).pc) <==> Ample(w, bytes)
  {
    GiveBackIff(w, b);
    var l := Pushed(w.local, b);
    assert (if bytes >= 1 then ALIGNMENT else 0) <= Ceil(bytes) <= MAX_BYTES + 7;
    assert ReturnLimit(l.size, bytes) == 49 * Ceil(bytes);
    assert |CutOff(l)| == 48 + w.drift;
  }

  /** Frees that tell a size of at least one byte, as all do in every class but the first. */
  predicate Sized(step: Step) {
    step.Free? ==> step.bytes >= 1
  }

  lemma SizedUnlessFirstClass(s: State, step: Step)
    requires Enabled(s, step) && s.index >= 1
    ensures Sized(step)
  {
  }

  ghost predicate NothingLost(place: map<Address, Place>) {
    forall b :: b in place ==> place[b] != Lost
  }

  /** Nothing is lost, and nothing on its way is bound to be. */
  ghost predicate Intact(s: State) {
    NothingLost(s.place) && forall t :: t in s.workers ==> Fits(s.workers[t].pc)
  }

  /** If the step is a free that gives back, it tells enough bytes. */
  predicate AmpleStep(s: State, step: Step)
    requires Enabled(s, step)
  {
    var w := s.workers[step.t];
    step.Free? && |w.local.list| == THRESHOLD + w.drift ==> Ample(w, step.bytes)
  }

  /** Only the store of a give-back can lose blocks: those behind the accepted part of its chain. */
  lemma LostByStore(s: State, step: Step)
    requires Enabled(s, step) && NothingLost(s.place)
    ensures !NothingLost(Apply(s, step).place) <==> step.Store? && !Fits(s.workers[step.t].pc)
  {
    if step.Store? && !Fits(s.workers[step.t].pc) {
      StoreLoses(s, step);
    }
  }

  lemma StoreLoses(s: State, step: Step)
    requires Enabled(s, step) && step.Store? && !Fits(s.workers[step.t].pc)
    ensures !NothingLost(Apply(s, step).place)
  {
    var pc := s.workers[step.t].pc;
    var n := Accepted(|pc.chain|, pc.limit);
    var b := pc.chain[n];
    assert b == pc.chain[n..][0];
    assert b in pc.chain[n..];
    assert Apply(s, step).place[b] == Lost;
  }

  /** What a step leaves in transit fits, if it did before, unless the step is a free that tells too little. */
  lemma OwnFits(s: State, step: Step)
    requires Enabled(s, step) && Counted(s.workers[step.t]) && s.workers[step.t].failed < FAILURES
    requires Fits(s.workers[step.t].pc)
    ensures Fits(Apply(s, step).workers[step.t].pc) <==> AmpleStep(s, step)
  {
    var w := s.workers[step.t];
    if step.Free? {
      GiveBackIff(w, step.b);
      var l := Pushed(w.local, step.b);
      if l.size > THRESHOLD && Cuts(l) {
        GiveBackTakesAllIff(w, step.b, step.bytes);
      }
    }
  }

  lemma IntactStepIff(s: State, step: Step)
    requires Enabled(s, step) && Counted(s.workers[step.t]) && s.workers[step.t].failed < FAILURES && Intact(s)
    ensures Intact(Apply(s, step)) <==> AmpleStep(s, step)
  {
    var s' := Apply(s, step);
    OwnFits(s, step);
    LostByStore(s, step);
    assert s'.workers.Keys == s.workers.Keys;
    forall u | u in s'.workers && u != step.t
      ensures Fits(s'.workers[u].pc)
    {
      OthersUntouched(s, step, u);
    }
  }

  /** What is lost stays lost, and what is bound to be lost will be. */
  lemma LossStays(s: State, step: Step)
    requires Placed(s) && Locked(s) && Enabled(s, step) && !Intact(s)
    ensures !Intact(Apply(s, step))
  {
    var s' := Apply(s, step);
    if b :| b in s.place && s.place[b] == Lost {
      LostBlockStays(s, step, b);
    } else {
      var t :| t in s.workers && !Fits(s.workers[t].pc);
      if t != step.t {
        OthersUntouched(s, step, t);
      } else if step.Store? {
        StoreLoses(s, step);
      } else {
        assert t in s'.workers && !Fits(s'.workers[t].pc);
      }
    }
  }

  lemma LostBlockStays(s: State, step: Step, b: Address)
    requires Placed(s) && Locked(s) && Enabled(s, step) && b in s.place && s.place[b] == Lost
    ensures b in Apply(s, step).place && Apply(s, step).place[b] == Lost
  {
    var w := s.workers[step.t];
    assert WorkerPlaced(step.t, w, s.place);
    if step.Store? {
      assert LockRespected(w.pc, step.t, s.lock, s.central);
      LostStaysAtStore(s, step.t, w, Carved(s.index, step.span), b);
    } else if step.Free? {
      LostStaysAtFree(s, step.t, w, step.b, step.bytes, b);
    } else {
      LostStaysElsewhere(s, step, b);
    }
  }

  lemma LostStaysAtFree(s: State, t: Thread, w: Worker, freed: Address, bytes: nat, b: Address)
    requires b in s.place && s.place[b] == Lost && b !in w.local.list && b != freed
    ensures b in ApplyFree(s, t, w, freed, bytes).place && ApplyFree(s, t, w, freed, bytes).place[b] == Lost
  {
    var l := Pushed(w.local, freed);
    assert Cuts(l) ==> forall x :: x in CutOff(l) ==> x in l.list;
  }

  lemma LostStaysElsewhere(s: State, step: Step, b: Address)
    requires Enabled(s, step) && !step.Store? && !step.Free? && WorkerPlaced(step.t, s.workers[step.t], s.place)
    requires b in s.place && s.place[b] == Lost
    ensures b in Apply(s, step).place && Apply(s, step).place[b] == Lost
  {
    var w := s.workers[step.t];
    if step.Allocate? {
      assert w.local.list != [] ==> w.local.list[0] in w.local.list;
    } else if step.Finish? {
      assert w.pc.got.Some? ==> w.pc.got.value in Transit(w.pc);
    }
  }

  lemma LostStaysAtStore(s: State, t: Thread, w: Worker, span: Option<seq<Address>>, b: Address)
    requires WorkerPlaced(t, w, s.place) && Holds(s.central, s.place, Central) && b in s.place && s.place[b] == Lost
    requires (w.pc.FetchLoaded? || w.pc.ReturnLoaded?) && w.pc.seen == s.central
    requires span.Some? ==> span.value != [] && forall x :: x in span.value ==> x !in s.place
    ensures b in ApplyStore(s, t, w, span).place && ApplyStore(s, t, w, span).place[b] == Lost
  {
    if w.pc.ReturnLoaded? {
      assert forall x :: x in w.pc.chain ==> x in Transit(w.pc);
    } else if s.central != [] {
      assert s.central[0] in s.central;
    } else if span.Some? {
      assert span.value[0] in span.value;
      assert forall x :: x in span.value[1..] ==> x in span.value;
    }
  }

  // ---------------------------------------------------------------- runs

  ghost predicate Inv(s: State) {
    && Placed(s) && Locked(s)
    && (forall t :: t in s.workers ==> Counted(s.workers[t]))
  }

  lemma InitInv(s: State)
    requires Init(s)
    ensures Inv(s) && Intact(s)
  {
  }

  lemma StepKeeps(s: State, step: Step)
    requires Inv(s) && Enabled(s, step)
    ensures Inv(Apply(s, step))
  {
    PlacedKeeps(s, step);
    LockedKeeps(s, step);
    CountedKeeps(s, step);
  }

  ghost predicate IsRun(s: State, steps: seq<Step>)
    decreases |steps|
  {
    steps != [] ==> Enabled(s, steps[0]) && IsRun(Apply(s, steps[0]), steps[1..])
  }

  ghost function After(s: State, steps: seq<Step>): State
    requires IsRun(s, steps)
    decreases |steps|
  {
    if steps == [] then s else After(Apply(s, steps[0]), steps[1..])
  }

  lemma {:induction false} RunKeeps(s: State, steps: seq<Step>)
    requires Inv(s) && IsRun(s, steps)
    ensures Inv(After(s, steps))
    decreases |steps|
  {
    if steps != [] {
      StepKeeps(s, steps[0]);
      RunKeeps(Apply(s, steps[0]), steps[1..]);
    }
  }

  /** Block `b` is found at `at`: in a list, with a thread's code, on its way, or lost. */
  ghost predicate FoundAt(s: State, b: Address, at: Place) {
    match at
    case User(t) => t in s.workers && b in s.workers[t].held
    case Listed(t) => t in s.workers && b in s.workers[t].local.list
    case Moving(t) => t in s.workers && b in Transit(s.workers[t].pc)
    case Central => b in s.central
    case Lost => b in s.place && s.place[b] == Lost
  }

  /** In every run of every number of threads, each block ever carved is in exactly one place and in each
      list once, and nothing else is anywhere. */
  lemma EveryRunConserves(s: State, steps: seq<Step>, b: Address, at: Place)
    requires Init(s) && IsRun(s, steps)
    ensures var s' := After(s, steps);
      && (FoundAt(s', b, at) <==> b in s'.place && s'.place[b] == at)
      && Distinct(s'.central) && forall t :: t in s'.workers ==> Distinct(s'.workers[t].local.list)
  {
    InitInv(s);
    RunKeeps(s, steps);
    var s' := After(s, steps);
    forall t | t in s'.workers
      ensures Distinct(s'.workers[t].local.list)
    {
      assert WorkerPlaced(t, s'.workers[t], s'.place);
    }
    if at != Central && at != Lost {
      FoundWithThread(s', b, at);
    }
  }

  lemma FoundWithThread(s: State, b: Address, at: Place)
    requires Placed(s) && at != Central && at != Lost
    ensures FoundAt(s, b, at) <==> b in s.place && s.place[b] == at
  {
    if at.t in s.workers {
      assert WorkerPlaced(at.t, s.workers[at.t], s.place);
    }
  }

  /** Only carving makes blocks, and nothing unmakes them. */
  lemma OnlyCarvingMakes(s: State, step: Step)
    requires Inv(s) && Enabled(s, step)
    ensures Apply(s, step).place.Keys == s.place.Keys + set b | b in Made(s, step)
  {
    assert WorkerPlaced(step.t, s.workers[step.t], s.place);
    if step.Store? {
      assert LockRespected(s.workers[step.t].pc, step.t, s.lock, s.central);
      if step.span.Some? && s.workers[step.t].pc.FetchLoaded? {
        SpanIsNew(s, step.span.value);
      }
    } else {
      MoveMakesNothing(s, step);
    }
  }

  function Made(s: State, step: Step): seq<Address> {
    if step.Store? && step.span.Some? && s.central == [] then Blocks(step.span.value, ClassBytes(s.index)) else []
  }

  lemma MoveMakesNothing(s: State, step: Step)
    requires Enabled(s, step) && !step.Store? && WorkerPlaced(step.t, s.workers[step.t], s.place)
    ensures Apply(s, step).place.Keys == s.place.Keys
  {
    var w := s.workers[step.t];
    assert w.local.list != [] ==> w.local.list[0] in w.local.list;
    assert w.pc.FetchDone? && w.pc.got.Some? ==> w.pc.got.value in Transit(w.pc);
    if step.Free? {
      FreeMakesNothing(s, step.t, w, step.b, step.bytes);
    }
  }

  lemma FreeMakesNothing(s: State, t: Thread, w: Worker, b: Address, bytes: nat)
    requires b in s.place && forall x :: x in w.local.list ==> x in s.place
    ensures ApplyFree(s, t, w, b, bytes).place.Keys == s.place.Keys
  {
    var l := Pushed(w.local, b);
    if l.size > THRESHOLD && Cuts(l) {
      assert forall x :: x in CutOff(l) ==> x in l.list;
    }
  }

  /** In every run, no two threads are inside a critical section together. */
  lemma EveryRunExcludes(s: State, steps: seq<Step>, t: Thread, u: Thread)
    requires Init(s) && IsRun(s, steps) && t in After(s, steps).workers && u in After(s, steps).workers
    requires HoldsLock(After(s, steps).workers[t].pc) && HoldsLock(After(s, steps).workers[u].pc)
    ensures t == u
  {
    InitInv(s);
    RunKeeps(s, steps);
    var s' := After(s, steps);
    assert LockRespected(s'.workers[t].pc, t, s'.lock, s'.central) &&
      LockRespected(s'.workers[u].pc, u, s'.lock, s'.central);
  }

  /** In every run, the counter of a thread between calls is its list's length, less one at most if none
      of its fetches failed, and the list then has at most 65 blocks. */
  lemma EveryRunCounts(s: State, steps: seq<Step>, t: Thread)
    requires Init(s) && IsRun(s, steps) && t in After(s, steps).workers
    ensures var w := After(s, steps).workers[t];
      && w.local.size == Wrap(|w.local.list| - w.drift - if Fetching(w.pc) then 1 else 0) && w.drift <= 1 + w.failed
      && (w.failed < FAILURES ==> |w.local.list| <= THRESHOLD + 1 + w.failed)
  {
    InitInv(s);
    RunKeeps(s, steps);
    assert Counted(After(s, steps).workers[t]);
  }

  /** Fetches that fail are counted, never forgotten. */
  lemma {:induction false} FailuresGrowOverRun(s: State, steps: seq<Step>, t: Thread)
    requires IsRun(s, steps) && t in s.workers
    ensures t in After(s, steps).workers && After(s, steps).workers[t].failed >= s.workers[t].failed
    decreases |steps|
  {
    if steps != [] {
      FailuresGrowOverRun(Apply(s, steps[0]), steps[1..], t);
    }
  }

  /** Every free of the run that gives back tells enough bytes. */
  ghost predicate AllAmple(s: State, steps: seq<Step>)
    requires IsRun(s, steps)
    decreases |steps|
  {
    steps != [] ==> AmpleStep(s, steps[0]) && AllAmple(Apply(s, steps[0]), steps[1..])
  }

  ghost predicate Modest(s: State) {
    forall t :: t in s.workers ==> s.workers[t].failed < FAILURES
  }

  lemma {:induction false} LossStaysOverRun(s: State, steps: seq<Step>)
    requires Inv(s) && IsRun(s, steps) && !Intact(s)
    ensures !Intact(After(s, steps))
    decreases |steps|
  {
    if steps != [] {
      StepKeeps(s, steps[0]);
      LossStays(s, steps[0]);
      LossStaysOverRun(Apply(s, steps[0]), steps[1..]);
    }
  }

  lemma {:induction false} IntactIff(s: State, steps: seq<Step>)
    requires Inv(s) && IsRun(s, steps) && Intact(s) && Modest(After(s, steps))
    ensures Intact(After(s, steps)) <==> AllAmple(s, steps)
    decreases |steps|
  {
    if steps != [] {
      StepKeeps(s, steps[0]);
      FailuresGrowOverRun(s, steps, steps[0].t);
      IntactStepIff(s, steps[0]);
      if AmpleStep(s, steps[0]) {
        IntactIff(Apply(s, steps[0]), steps[1..]);
      } else {
        LossStaysOverRun(Apply(s, steps[0]), steps[1..]);
      }
    }
  }

  /** In every run no block is lost, nor bound to be, if and only if every free that gave back told enough
      bytes for its chain; and while no give-back is under way, bound to be lost is lost. */
  lemma EveryRunLosesNothingIff(s: State, steps: seq<Step>)
    requires Init(s) && IsRun(s, steps) && Modest(After(s, steps))
    ensures var d := After(s, steps);
      && (Intact(d) <==> AllAmple(s, steps))
      && ((forall t :: t in d.workers ==> d.workers[t].pc.Idle?) ==> (NothingLost(d.place) <==> AllAmple(s, steps)))
  {
    InitInv(s);
    IntactIff(s, steps);
  }

  /** The bytes of a class are enough for a thread with that few failed fetches. */
  ghost predicate FewFailures(s: State) {
    forall t :: t in s.workers ==> 49 + s.workers[t].failed <= 49 * ClassBytes(s.index)
  }

  lemma {:induction false} IndexStays(s: State, steps: seq<Step>)
    requires IsRun(s, steps)
    ensures After(s, steps).index == s.index
    decreases |steps|
  {
    if steps != [] {
      IndexStays(Apply(s, steps[0]), steps[1..]);
    }
  }

  lemma {:induction false} SizedIsAmple(s: State, steps: seq<Step>)
    requires Inv(s) && IsRun(s, steps) && FewFailures(After(s, steps))
    requires forall i :: 0 <= i < |steps| ==> Sized(steps[i])
    ensures AllAmple(s, steps)
    decreases |steps|
  {
    if steps != [] {
      StepKeeps(s, steps[0]);
      FailuresGrowOverRun(s, steps, steps[0].t);
      IndexStays(s, steps);
      if steps[0].Free? {
        CeilMatchesClassIff(steps[0].bytes);
        assert Counted(s.workers[steps[0].t]);
      }
      assert forall i :: 0 <= i < |steps[1..]| ==> steps[1..][i] == steps[i+1];
      SizedIsAmple(Apply(s, steps[0]), steps[1..]);
    }
  }

  /** So no run loses a block whose frees tell a size of at least one byte, as long as no thread has had more
      failed fetches than 49 times the bytes of the class, less 49. */
  lemma EveryCarefulRunLosesNothing(s: State, steps: seq<Step>)
    requires Init(s) && IsRun(s, steps) && FewFailures(After(s, steps)) && s.index < FREE_LIST_SIZE
    requires forall i :: 0 <= i < |steps| ==> Sized(steps[i])
    ensures NothingLost(After(s, steps).place)
  {
    InitInv(s);
    SizedIsAmple(s, steps);
    IndexStays(s, steps);
    IntactIff(s, steps);
  }

  // ---------------------------------------------------------------- what the calls come to

  /** A free puts the block at the front of its thread's list and touches no lock, unless the list had 64 blocks
      and the drift: then the block and the 16 before it stay, and the rest is on its way to the central list. */
  lemma FreeDoes(s: State, t: Thread, b: Address, bytes: nat)
    requires Inv(s) && Enabled(s, Free(t, b, bytes)) && s.workers[t].failed < FAILURES
    ensures var w, w' := s.workers[t], Apply(s, Free(t, b, bytes)).workers[t];
      && w'.held == w.held - {b}
      && if |w.local.list| == THRESHOLD + w.drift then
           && w'.local.list == [b] + w.local.list[..16]
           && w'.pc == ReturnWait(w.local.list[16..], 49 * Ceil(bytes))
         else w'.local.list == [b] + w.local.list && w'.pc == Idle
    ensures var s' := Apply(s, Free(t, b, bytes));
      && s'.central == s.central && s'.lock == s.lock
      && forall u :: u in s.workers && u != t ==> s'.workers[u] == s.workers[u]
  {
    var w := s.workers[t];
    var l := Pushed(w.local, b);
    GiveBackIff(w, b);
    if |w.local.list| == THRESHOLD + w.drift {
      assert Keep(l.size) == 16 && ReturnLimit(l.size, bytes) == 49 * Ceil(bytes);
      assert l.list[..17] == [b] + w.local.list[..16] && l.list[17..] == w.local.list[16..];
      assert |w.local.list[16..]| == 48 + w.drift;
    }
  }

  /** A returned chain comes before the blocks of the central list, in its order, as far as its limit allows. */
  lemma ReturnDoes(s: State, t: Thread)
    requires Inv(s) && Enabled(s, Store(t, None)) && s.workers[t].pc.ReturnLoaded?
    ensures var pc, s' := s.workers[t].pc, Apply(s, Store(t, None));
      var n := if |pc.chain| <= pc.limit then |pc.chain| else if pc.limit == 0 then 1 else pc.limit;
      s'.central == pc.chain[..n] + s.central && s'.workers[t] == s.workers[t].(pc := ReturnStored)
  {
    assert LockRespected(s.workers[t].pc, t, s.lock, s.central);
  }

  /** A thread's code may pass on a block it has. */
  lemma HandOverDoes(s: State, t: Thread, to: Thread, b: Address)
    requires Enabled(s, HandOver(t, to, b))
    ensures var s' := Apply(s, HandOver(t, to, b));
      && s'.workers[t] == s.workers[t].(held := s.workers[t].held - {b})
      && s'.workers[to] == s.workers[to].(held := s.workers[to].held + {b})
      && s'.central == s.central && s'.lock == s.lock
  {
  }

  // An allocation is served.

  /** The code of a thread that held these blocks, after that many failures, has one more of either. */
  ghost predicate Served(held: set<Address>, failed: nat, w: Worker) {
    (w.failed == failed && exists b :: b !in held && w.held == held + {b}) || (w.held == held && w.failed == failed + 1)
  }

  ghost predicate Unserved(held: set<Address>, failed: nat, w: Worker) {
    Fetching(w.pc) && w.held == held && w.failed == failed
  }

  /** With a block at the head of its own list, a thread allocates it at once. */
  lemma AllocateDoes(s: State, t: Thread)
    requires Inv(s) && Enabled(s, Allocate(t))
    ensures var w, w' := s.workers[t], Apply(s, Allocate(t)).workers[t];
      if w.local.list != [] then
        && Served(w.held, w.failed, w') && w'.held == w.held + {w.local.list[0]}
        && w'.local.list == w.local.list[1..] && w'.pc == Idle
      else w'.pc == FetchWait && Unserved(w.held, w.failed, w') && w'.local.list == []
  {
    var w := s.workers[t];
    if w.local.list != [] {
      assert WorkerPlaced(t, w, s.place) && w.local.list[0] in w.local.list;
    }
  }

  /** Other threads may hand blocks over meanwhile. */
  predicate Receives(step: Step, t: Thread) {
    step.HandOver? && step.to == t
  }

  lemma FetchStep(s: State, step: Step, t: Thread)
    requires Inv(s) && Enabled(s, step) && t in s.workers && Fetching(s.workers[t].pc) && !Receives(step, t)
    ensures var w, w' := s.workers[t], Apply(s, step).workers[t];
      || Unserved(w.held, w.failed, w')
      || (step == Finish(t) && w'.pc == Idle && Served(w.held, w.failed, w'))
  {
    var w, w' := s.workers[t], Apply(s, step).workers[t];
    if step.t != t {
      OthersUntouched(s, step, t);
      assert w'.held == w.held;
    } else if step.Finish? && w.pc.got.Some? {
      assert WorkerPlaced(t, w, s.place) && w.pc.got.value in Transit(w.pc);
      assert w'.held == w.held + {w.pc.got.value};
    }
  }

  lemma FetchStepKeeps(s: State, step: Step, t: Thread) returns (m: State)
    requires Inv(s) && Enabled(s, step) && t in s.workers && Fetching(s.workers[t].pc) && !Receives(step, t)
    ensures m == Apply(s, step) && Inv(m) && t in m.workers
    ensures var w := s.workers[t];
      Unserved(w.held, w.failed, m.workers[t]) || (step == Finish(t) && Served(w.held, w.failed, m.workers[t]))
  {
    m := Apply(s, step);
    StepKeeps(s, step);
    FetchStep(s, step, t);
  }

  /** A fetch of thread `t` ends in the run, with what it is for. */
  ghost predicate EndsServed(s: State, steps: seq<Step>, t: Thread, held: set<Address>, failed: nat)
    requires IsRun(s, steps)
    decreases |steps|
  {
    steps != [] &&
    var m := Apply(s, steps[0]);
    || (steps[0] == Finish(t) && t in m.workers && Served(held, failed, m.workers[t]))
    || EndsServed(m, steps[1..], t, held, failed)
  }

  /** In every run, a thread that has gone to the central cache for a block goes on until it has one more, or knows
      that there is none, and its code gets and gives up nothing before. */
  lemma {:induction false} AllocationEnds(s: State, steps: seq<Step>, t: Thread)
    requires Inv(s) && IsRun(s, steps) && t in s.workers && Fetching(s.workers[t].pc)
    requires forall i :: 0 <= i < |steps| ==> !Receives(steps[i], t)
    ensures t in After(s, steps).workers
    ensures var w := s.workers[t];
      Unserved(w.held, w.failed, After(s, steps).workers[t]) || EndsServed(s, steps, t, w.held, w.failed)
    decreases |steps|
  {
    WorkersStay(s, steps);
    if steps != [] {
      var m := FetchStepKeeps(s, steps[0], t);
      if Fetching(m.workers[t].pc) {
        AllocationEnds(m, steps[1..], t);
      }
    }
  }

  lemma {:induction false} WorkersStay(s: State, steps: seq<Step>)
    requires IsRun(s, steps)
    ensures After(s, steps).workers.Keys == s.workers.Keys
    decreases |steps|
  {
    if steps != [] {
      WorkersStay(Apply(s, steps[0]), steps[1..]);
    }
  }

  /** A fetch fails only if the central list is empty and the page cache gives no span. */
  lemma FetchFailsOnlyIf(s: State, t: Thread, span: Option<Address>)
    requires Inv(s) && Enabled(s, Store(t, span)) && s.workers[t].pc.FetchLoaded?
    ensures var got, s' := Apply(s, Store(t, span)).workers[t].pc.got, Apply(s, Store(t, span));
      if s.central != [] then got == Some(s.central[0]) && s'.central == s.central[1..]
      else if span.Some? then
        got == Some(span.value) && [span.value] + s'.central == Blocks(span.value, ClassBytes(s.index))
      else got == None && s'.central == []
  {
    assert LockRespected(s.workers[t].pc, t, s.lock, s.central);
    if s.central == [] && span.Some? {
      BlocksDistinct(span.value, ClassBytes(s.index));
    }
  }

  // What a thread frees it allocates again first.

  /** Only the thread's own allocations and frees change its list. */
  lemma {:induction false} ListStays(s: State, steps: seq<Step>, t: Thread)
    requires IsRun(s, steps) && t in s.workers
    requires forall i :: 0 <= i < |steps| ==> steps[i] != Allocate(t) && !(steps[i].Free? && steps[i].t == t)
    ensures t in After(s, steps).workers && After(s, steps).workers[t].local.list == s.workers[t].local.list
    decreases |steps|
  {
    if steps != [] {
      if steps[0].t != t {
        OthersUntouched(s, steps[0], t);
      }
      ListStays(Apply(s, steps[0]), steps[1..], t);
    }
  }

  /** Whatever the other threads do in between, and the give-back that the free may have caused. */
  lemma FreedIsNext(s: State, t: Thread, b: Address, bytes: nat, steps: seq<Step>)
    requires Inv(s) && Enabled(s, Free(t, b, bytes)) && s.workers[t].failed < FAILURES
    requires IsRun(Apply(s, Free(t, b, bytes)), steps)
    requires forall i :: 0 <= i < |steps| ==> steps[i] != Allocate(t) && !(steps[i].Free? && steps[i].t == t)
    requires Enabled(After(Apply(s, Free(t, b, bytes)), steps), Allocate(t))
    ensures var m := After(Apply(s, Free(t, b, bytes)), steps);
      Apply(m, Allocate(t)).workers[t].held == m.workers[t].held + {b} && b !in m.workers[t].held
  {
    var f := Apply(s, Free(t, b, bytes));
    FreeDoes(s, t, b, bytes);
    StepKeeps(s, Free(t, b, bytes));
    ListStays(f, steps, t);
    RunKeeps(f, steps);
    var m := After(f, steps);
    AllocateDoes(m, t);
    assert WorkerPlaced(t, m.workers[t], m.place) && b in m.workers[t].local.list;
  }
}
