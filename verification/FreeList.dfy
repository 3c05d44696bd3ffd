/** The lock-free slot list of MemoryPool (cpp_learning_projects/memory-mgkl/src/MemoryPool.cpp:31-116)
    as a state machine over the loads, stores and compare-and-swaps of any number of threads.

    The list carries no version tag: `EveryRunIsAStackIff` says which runs keep it a stack.
*/
module FreeList {

  // `next` is the first word of every slot.  The code that holds a slot writes there freely, so a pop may
  // read a word that is no longer a link.  A run keeps the list a stack if and only if every successful pop
  // swap stores the link its slot has at that moment.  That is so in every run in which no slot is pushed
  // while another thread's pop still has that slot and the link read from it in hand (`Timely`);
  // `ReuseBreaksTheList` is a run in which it is not.  `allocateNewBlock` clears the list head without
  // looking, which drops whatever is on the list; the model keeps that step and accounts for what it drops.

  import opened IntrusiveList

  type Thread = nat
  type Slot = Address

  datatype Pc =
    | Idle
    | PushLoad(slot: Slot)
    | PushStore(slot: Slot, oldHead: Slot)
    | PushSwap(slot: Slot, oldHead: Slot)
    | PopLoad
    | PopRead(oldHead: Slot)
    | PopSwap(oldHead: Slot, newHead: Slot)
    | Refill(renewed: bool)

  datatype Event =
    | Pushed(thread: Thread, slot: Slot)
    | Popped(thread: Thread, slot: Slot)
    | FoundEmpty(thread: Thread)
    | Cleared(thread: Thread, lost: nat)
    | Carved(thread: Thread, slot: Slot)

  /** Where a slot is: on the list, in the hands of a thread, or lost when the list was cleared. */
  datatype Place = OnList | HeldBy(thread: Thread) | Dropped

  /** `head`, `next`, `pc` and `held` are the program's; `stack`, `place` and `log` record what the
      list should hold, where every slot ever cut from a block should be, and the operations in the
      order in which they took effect. */
  datatype State = State(
    head: Slot,
    next: map<Slot, Slot>,
    pc: map<Thread, Pc>,
    held: map<Thread, set<Slot>>,
    stack: seq<Slot>,
    place: map<Slot, Place>,
    log: seq<Event>)

  datatype Step =
    | Deallocate(t: Thread, slot: Slot)
    | LoadForPush(t: Thread)
    | StoreNext(t: Thread)
    | SwapPush(t: Thread, spurious: bool)
    | Allocate(t: Thread)
    | LoadForPop(t: Thread)
    | ReadNext(t: Thread)
    | SwapPop(t: Thread, spurious: bool)
    | NewBlock(t: Thread)
    | Carve(t: Thread, slot: Slot, word: Slot)
    | Write(t: Thread, slot: Slot, word: Slot)
    | HandOver(t: Thread, to: Thread, slot: Slot)

  predicate Init(s: State) {
    && s.head == NULL && s.next == map[] && s.stack == [] && s.place == map[] && s.log == []
    && s.held.Keys == s.pc.Keys
    && (forall t :: t in s.pc ==> s.pc[t] == Idle && s.held[t] == {})
  }

  predicate Enabled(s: State, step: Step) {
    && step.t in s.pc && step.t in s.held
    && match step
       case Deallocate(t, slot) => s.pc[t].Idle? && slot in s.held[t]
       case LoadForPush(t) => s.pc[t].PushLoad?
       case StoreNext(t) => s.pc[t].PushStore?
       case SwapPush(t, _) => s.pc[t].PushSwap?
       case Allocate(t) => s.pc[t].Idle?
       case LoadForPop(t) => s.pc[t].PopLoad?
       case ReadNext(t) => s.pc[t].PopRead? && s.pc[t].oldHead in s.next
       case SwapPop(t, _) => s.pc[t].PopSwap?
       case NewBlock(t) => s.pc[t] == Refill(false)
       case Carve(t, slot, _) => s.pc[t].Refill? && slot !in s.place && slot != NULL
       case Write(t, slot, _) => s.pc[t].Idle? && slot in s.held[t]
       case HandOver(t, to, slot) => s.pc[t].Idle? && slot in s.held[t] && to in s.held && to != t
  }

  predicate Swaps(s: State, step: Step)
    requires Enabled(s, step)
  {
    (step.SwapPush? || step.SwapPop?) && !step.spurious && s.head == s.pc[step.t].oldHead
  }

  function Apply(s: State, step: Step): State
    requires Enabled(s, step)
  {
    var t := step.t;
    match step
    case Deallocate(_, slot) => s.(pc := s.pc[t := PushLoad(slot)])
    case LoadForPush(_) => s.(pc := s.pc[t := PushStore(s.pc[t].slot, s.head)])
    case StoreNext(_) =>
      s.(next := s.next[s.pc[t].slot := s.pc[t].oldHead], pc := s.pc[t := PushSwap(s.pc[t].slot, s.pc[t].oldHead)])
    case SwapPush(_, _) =>
      var slot := s.pc[t].slot;
      if Swaps(s, step) then
        s.(head := slot, pc := s.pc[t := Idle], held := s.held[t := s.held[t] - {slot}],
           stack := [slot] + s.stack, place := s.place[slot := OnList], log := s.log + [Pushed(t, slot)])
      else
        s.(pc := s.pc[t := PushLoad(slot)])
    case Allocate(_) => s.(pc := s.pc[t := PopLoad])
    case LoadForPop(_) =>
      if s.head == NULL then s.(pc := s.pc[t := Refill(false)], log := s.log + [FoundEmpty(t)])
      else s.(pc := s.pc[t := PopRead(s.head)])
    case ReadNext(_) => s.(pc := s.pc[t := PopSwap(s.pc[t].oldHead, s.next[s.pc[t].oldHead])])
    case SwapPop(_, _) =>
      var slot := s.pc[t].oldHead;
      if Swaps(s, step) then
        s.(head := s.pc[t].newHead, pc := s.pc[t := Idle], held := s.held[t := s.held[t] + {slot}],
           stack := if s.stack == [] then [] else s.stack[1..], place := s.place[slot := HeldBy(t)],
           log := s.log + [Popped(t, slot)])
      else
        s.(pc := s.pc[t := PopLoad])
    case NewBlock(_) =>
      s.(head := NULL, pc := s.pc[t := Refill(true)], stack := [],
         place := map x | x in s.place :: (if s.place[x] == OnList then Dropped else s.place[x]),
         log := s.log + [Cleared(t, |s.stack|)])
    case Carve(_, slot, word) =>
      s.(next := s.next[slot := word], pc := s.pc[t := Idle], held := s.held[t := s.held[t] + {slot}],
         place := s.place[slot := HeldBy(t)], log := s.log + [Carved(t, slot)])
    case Write(_, slot, word) => s.(next := s.next[slot := word])
    case HandOver(_, to, slot) =>
      s.(held := s.held[t := s.held[t] - {slot}][to := s.held[to] + {slot}], place := s.place[slot := HeldBy(to)])
  }

  /** No slot is pushed while a pop of it is between reading its link and its swap. */
  predicate Timely(s: State, step: Step)
    requires Enabled(s, step)
  {
    step.SwapPush? && Swaps(s, step) ==>
      forall u :: u in s.pc && s.pc[u].PopSwap? ==> s.pc[u].oldHead != s.pc[step.t].slot
  }

  // ---------------------------------------------------------------- what has to hold

  /** The list holds the slots placed on it, each once. */
  ghost predicate ListPlaced(stack: seq<Slot>, place: map<Slot, Place>) {
    && NULL !in place
    && (forall i, j :: 0 <= i < j < |stack| ==> stack[i] != stack[j])
    && (forall x :: x in stack ==> x in place && place[x] == OnList)
    && (forall x :: x in place && place[x] == OnList ==> x in stack)
  }

  /** Each thread holds the slots placed with it. */
  ghost predicate HoldersPlaced(held: map<Thread, set<Slot>>, place: map<Slot, Place>) {
    && (forall t, x :: t in held && x in held[t] ==> x in place && place[x] == HeldBy(t))
    && (forall x :: x in place && place[x].HeldBy? ==> place[x].thread in held && x in held[place[x].thread])
  }

  /** The operations took effect in log order on one stack: replaying them gives its contents, each
      pop returns the slot on top, and an empty answer is given only when the stack is empty. */
  function Replay(log: seq<Event>): (bool, seq<Slot>) {
    if log == [] then (true, []) else Replayed(Replay(log[..|log|-1]), log[|log|-1])
  }

  function Replayed(so: (bool, seq<Slot>), e: Event): (bool, seq<Slot>) {
    var (legal, stack) := so;
    match e
    case Pushed(_, slot) => (legal, [slot] + stack)
    case Popped(_, slot) => if stack != [] && stack[0] == slot then (legal, stack[1..]) else (false, stack)
    case FoundEmpty(_) => (legal && stack == [], stack)
    case Cleared(_, lost) => (legal && lost == |stack|, [])
    case Carved(_, _) => so
  }

  ghost predicate Linearized(s: State) {
    Replay(s.log) == (true, s.stack)
  }

  /** What each thread's program counter vouches for. */
  ghost predicate InHand(s: State, t: Thread)
    requires t in s.pc && t in s.held
  {
    match s.pc[t]
    case Idle => true
    case PushLoad(slot) => slot in s.held[t]
    case PushStore(slot, _) => slot in s.held[t]
    case PushSwap(slot, oldHead) => slot in s.held[t] && slot in s.next && s.next[slot] == oldHead
    case PopLoad => true
    case PopRead(oldHead) => oldHead in s.next
    case PopSwap(oldHead, _) => oldHead in s.next
    case Refill(_) => true
  }

  /** The link a pop has read is still the link of its slot, if that is on the list. */
  ghost predicate LinkCurrent(s: State, t: Thread)
    requires t in s.pc && t in s.held && InHand(s, t)
  {
    s.pc[t].PopSwap? && s.pc[t].oldHead in s.stack ==> s.next[s.pc[t].oldHead] == s.pc[t].newHead
  }

  /** Memory, list and holders agree with the records. */
  ghost predicate Consistent(s: State) {
    && s.held.Keys == s.pc.Keys && s.next.Keys == s.place.Keys
    && Linked(s.head, s.next, s.stack)
    && ListPlaced(s.stack, s.place)
    && HoldersPlaced(s.held, s.place)
  }

  ghost predicate Sound(s: State) {
    && Consistent(s)
    && Linearized(s)
    && (forall t :: t in s.pc ==> InHand(s, t))
  }

  ghost predicate Inv(s: State) {
    Sound(s) && forall t :: t in s.pc ==> LinkCurrent(s, t)
  }

  /** A successful pop swap stores the link that its slot has at that moment. */
  predicate Matches(s: State, step: Step)
    requires Enabled(s, step)
  {
    step.SwapPop? && Swaps(s, step) ==>
      var slot := s.pc[step.t].oldHead; slot in s.next && s.next[slot] == s.pc[step.t].newHead
  }

  // ---------------------------------------------------------------- every step keeps it

  // The parts of the invariant, one change of the data at a time.

  lemma LogGrows(s: State, s': State, e: Event)
    requires Linearized(s) && s'.log == s.log + [e] && (true, s'.stack) == Replayed((true, s.stack), e)
    ensures Linearized(s')
  {
    assert s'.log[..|s.log|] == s.log;
  }

  lemma TakeInHand(held: map<Thread, set<Slot>>, place: map<Slot, Place>, t: Thread, slot: Slot)
    requires HoldersPlaced(held, place) && t in held && (slot in place ==> !place[slot].HeldBy?)
    ensures HoldersPlaced(held[t := held[t] + {slot}], place[slot := HeldBy(t)])
  {
  }

  lemma LetGo(held: map<Thread, set<Slot>>, place: map<Slot, Place>, t: Thread, slot: Slot, to: Place)
    requires HoldersPlaced(held, place) && t in held && slot in held[t] && !to.HeldBy?
    ensures HoldersPlaced(held[t := held[t] - {slot}], place[slot := to])
  {
    var held', place' := held[t := held[t] - {slot}], place[slot := to];
    forall u, x | u in held' && x in held'[u]
      ensures x in place' && place'[x] == HeldBy(u)
    {
      assert x in held[u];
      assert place[slot] == HeldBy(t);
    }
  }

  // The steps.

  lemma SwapKeepsList(s: State, step: Step)
    requires Consistent(s) && Enabled(s, step) && InHand(s, step.t)
    requires (step.SwapPush? || step.SwapPop?) && Swaps(s, step) && Matches(s, step)
    ensures var s' := Apply(s, step);
      s'.next.Keys == s'.place.Keys && Linked(s'.head, s'.next, s'.stack) && ListPlaced(s'.stack, s'.place)
  {
    var s' := Apply(s, step);
    if step.SwapPush? {
      var slot := s.pc[step.t].slot;
      assert slot in s.place && s.place[slot] == HeldBy(step.t);
      assert s'.head == slot && s'.next == s.next && s'.stack == [slot] + s.stack &&
        s'.place == s.place[slot := OnList];
      LinkFirst(s.head, s.next, s.stack, slot);
    } else {
      assert s.stack != [] && s.stack[0] == s.head && s.head in s.stack;
      assert s'.head == s.next[s.head] && s'.next == s.next && s'.stack == s.stack[1..];
      assert s'.place == s.place[s.head := HeldBy(step.t)];
    }
  }

  lemma OtherKeepsList(s: State, step: Step)
    requires Consistent(s) && Enabled(s, step) && InHand(s, step.t)
    requires (step.SwapPush? || step.SwapPop?) ==> !Swaps(s, step)
    ensures var s' := Apply(s, step);
      s'.next.Keys == s'.place.Keys && Linked(s'.head, s'.next, s'.stack) && ListPlaced(s'.stack, s'.place)
  {
    var s' := Apply(s, step);
    if step.NewBlock? {
      assert s'.stack == [] && s'.head == NULL;
    } else if step.HandOver? {
      assert s.place[step.slot] == HeldBy(step.t);
      assert s'.head == s.head && s'.next == s.next && s'.stack == s.stack;
    } else if step.StoreNext? || step.Write? || step.Carve? {
      var slot := if step.StoreNext? then s.pc[step.t].slot else step.slot;
      assert slot !in s.stack;
      assert s'.head == s.head && s'.next == s.next[slot := s'.next[slot]] && s'.stack == s.stack;
      LinkedElsewhere(s.head, s.next, s.stack, slot, s'.next[slot]);
    } else {
      assert s'.head == s.head && s'.next == s.next && s'.stack == s.stack && s'.place == s.place;
    }
  }

  lemma StepKeepsHolders(s: State, step: Step)
    requires Consistent(s) && Enabled(s, step) && InHand(s, step.t)
    ensures var s' := Apply(s, step); s'.held.Keys == s'.pc.Keys && HoldersPlaced(s'.held, s'.place)
  {
    var s' := Apply(s, step);
    if step.SwapPush? && Swaps(s, step) {
      LetGo(s.held, s.place, step.t, s.pc[step.t].slot, OnList);
    } else if step.SwapPop? && Swaps(s, step) {
      assert s.stack != [] && s.stack[0] == s.head && s.head in s.stack;
      TakeInHand(s.held, s.place, step.t, s.head);
    } else if step.Carve? {
      TakeInHand(s.held, s.place, step.t, step.slot);
    } else if step.HandOver? {
      LetGo(s.held, s.place, step.t, step.slot, Dropped);
      var held, place := s.held[step.t := s.held[step.t] - {step.slot}], s.place[step.slot := Dropped];
      TakeInHand(held, place, step.to, step.slot);
      assert s'.place == place[step.slot := HeldBy(step.to)];
    } else if step.NewBlock? {
      assert s'.held == s.held;
    } else {
      assert s'.held == s.held && s'.place == s.place;
    }
  }

  lemma StepKeepsLog(s: State, step: Step)
    requires Consistent(s) && Linearized(s) && Enabled(s, step) && InHand(s, step.t)
    ensures Linearized(Apply(s, step))
  {
    var t, s' := step.t, Apply(s, step);
    if step.SwapPush? && Swaps(s, step) {
      LogGrows(s, s', Pushed(t, s.pc[t].slot));
    } else if step.SwapPop? && Swaps(s, step) {
      assert s.stack != [] && s.stack[0] == s.head;
      LogGrows(s, s', Popped(t, s.head));
    } else if step.LoadForPop? && s.head == NULL {
      LogGrows(s, s', FoundEmpty(t));
    } else if step.NewBlock? {
      LogGrows(s, s', Cleared(t, |s.stack|));
    } else if step.Carve? {
      LogGrows(s, s', Carved(t, step.slot));
    } else {
      assert s'.log == s.log && s'.stack == s.stack;
    }
  }

  lemma OtherInHand(s: State, step: Step, u: Thread)
    requires Consistent(s) && Enabled(s, step) && InHand(s, step.t)
    requires u in s.pc && u != step.t && InHand(s, u)
    ensures InHand(Apply(s, step), u)
  {
    var s' := Apply(s, step);
    assert s'.pc[u] == s.pc[u];
    if step.StoreNext? || step.Write? || step.Carve? {
      var slot := if step.StoreNext? then s.pc[step.t].slot else step.slot;
      assert slot in s.place ==> s.place[slot] == HeldBy(step.t);
      assert slot !in s.held[u];
      assert s'.next == s.next[slot := s'.next[slot]];
    }
  }

  /** Every step keeps the list sound whose swap, if it pops, stores a current link. */
  lemma SoundKeeps(s: State, step: Step)
    requires Sound(s) && Enabled(s, step) && Matches(s, step)
    ensures Sound(Apply(s, step))
  {
    assert InHand(s, step.t);
    if (step.SwapPush? || step.SwapPop?) && Swaps(s, step) {
      SwapKeepsList(s, step);
    } else {
      OtherKeepsList(s, step);
    }
    StepKeepsHolders(s, step);
    StepKeepsLog(s, step);
    forall u | u in Apply(s, step).pc
      ensures InHand(Apply(s, step), u)
    {
      if u != step.t {
        OtherInHand(s, step, u);
      }
    }
  }

  /** A swap that stores another link leaves memory and stack apart. */
  lemma MismatchBreaks(s: State, step: Step)
    requires Sound(s) && Enabled(s, step) && !Matches(s, step)
    ensures !Linked(Apply(s, step).head, Apply(s, step).next, Apply(s, step).stack)
  {
    assert InHand(s, step.t);
    assert s.stack != [];
    PopKeepsTheListIff(s, step);
  }

  // Links stay current as long as no slot returns while its link is in a pop's hand.

  lemma OwnLinkCurrent(s: State, step: Step)
    requires Sound(s) && Enabled(s, step) && InHand(Apply(s, step), step.t)
    ensures LinkCurrent(Apply(s, step), step.t)
  {
  }

  /** Only a push of its slot could put the link of another thread out of date. */
  lemma OtherLinkCurrent(s: State, step: Step, u: Thread)
    requires Consistent(s) && Enabled(s, step) && Timely(s, step) && InHand(s, step.t)
    requires u in s.pc && u != step.t && InHand(s, u) && LinkCurrent(s, u) && InHand(Apply(s, step), u)
    ensures LinkCurrent(Apply(s, step), u)
  {
    var s' := Apply(s, step);
    assert s'.pc[u] == s.pc[u];
    if step.SwapPush? && Swaps(s, step) {
      assert s'.stack == [s.pc[step.t].slot] + s.stack && s'.next == s.next;
    } else if step.SwapPop? && Swaps(s, step) {
      assert forall x :: x in s'.stack ==> x in s.stack;
      assert s'.next == s.next;
    } else if step.StoreNext? || step.Write? || step.Carve? {
      var slot := if step.StoreNext? then s.pc[step.t].slot else step.slot;
      assert slot !in s.stack && slot !in s.held[u];
      assert s'.next == s.next[slot := s'.next[slot]] && s'.stack == s.stack;
    }
  }

  lemma CurrentMatches(s: State, step: Step)
    requires Inv(s) && Enabled(s, step)
    ensures Matches(s, step)
  {
    assert InHand(s, step.t) && LinkCurrent(s, step.t);
    if step.SwapPop? && Swaps(s, step) {
      assert s.stack != [] && s.stack[0] == s.head && s.head in s.stack;
    }
  }

  lemma StepKeeps(s: State, step: Step)
    requires Inv(s) && Enabled(s, step) && Timely(s, step)
    ensures Inv(Apply(s, step))
  {
    CurrentMatches(s, step);
    SoundKeeps(s, step);
    OwnLinkCurrent(s, step);
    forall u | u in Apply(s, step).pc
      ensures LinkCurrent(Apply(s, step), u)
    {
      if u != step.t {
        OtherLinkCurrent(s, step, u);
      }
    }
  }

  // ---------------------------------------------------------------- whole runs

  /** The steps lead from `s` to `s'`, each enabled where it is taken. */
  ghost predicate Runs(s: State, steps: seq<Step>, s': State)
    decreases steps
  {
    if steps == [] then s' == s
    else Enabled(s, steps[0]) && Runs(Apply(s, steps[0]), steps[1..], s')
  }

  ghost predicate TimelyRun(s: State, steps: seq<Step>)
    decreases steps
  {
    steps != [] && Enabled(s, steps[0]) ==> Timely(s, steps[0]) && TimelyRun(Apply(s, steps[0]), steps[1..])
  }

  /** Every carved slot is in exactly one place: once on the list, with one thread, or dropped. */
  ghost predicate Exclusive(s: State) {
    && (forall i, j :: 0 <= i < j < |s.stack| ==> s.stack[i] != s.stack[j])
    && (forall t, u, x :: t in s.held && u in s.held && x in s.held[t] && x in s.held[u] ==> t == u)
    && (forall t, x :: t in s.held && x in s.held[t] ==> x !in s.stack && x !in DroppedSlots(s))
    && (forall x :: x in s.stack ==> x !in DroppedSlots(s))
    && (forall x :: x in s.place ==> x in s.stack || x in DroppedSlots(s) || exists t :: t in s.held && x in s.held[t])
  }

  ghost function DroppedIn(place: map<Slot, Place>): set<Slot> {
    set x | x in place && place[x] == Dropped
  }

  ghost function DroppedSlots(s: State): set<Slot> {
    DroppedIn(s.place)
  }

  lemma PlacedIsExclusive(s: State)
    requires ListPlaced(s.stack, s.place) && HoldersPlaced(s.held, s.place)
    ensures Exclusive(s)
  {
    forall t, u, x | t in s.held && u in s.held && x in s.held[t] && x in s.held[u]
      ensures t == u
    {
      assert s.place[x] == HeldBy(t) && s.place[x] == HeldBy(u);
    }
    forall x | x in s.place
      ensures x in s.stack || x in DroppedSlots(s) || exists t :: t in s.held && x in s.held[t]
    {
      if s.place[x].HeldBy? {
        assert s.place[x].thread in s.held;
      }
    }
  }

  /** The list is a stack: the links in memory are those of the stack, each slot is in one place, and the
      successful swaps are where the operations take effect. */
  ghost predicate IsAStack(s: State) {
    Linked(s.head, s.next, s.stack) && Exclusive(s) && Linearized(s)
  }

  lemma SoundIsAStack(s: State)
    requires Sound(s)
    ensures IsAStack(s)
  {
    PlacedIsExclusive(s);
  }

  /** It is one in every state that the run comes through. */
  ghost predicate StaysAStack(s: State, steps: seq<Step>)
    decreases steps
  {
    IsAStack(s) && (steps != [] && Enabled(s, steps[0]) ==> StaysAStack(Apply(s, steps[0]), steps[1..]))
  }

  /** Every successful pop swap of the run stores a current link. */
  ghost predicate LinksCurrent(s: State, steps: seq<Step>)
    decreases steps
  {
    steps != [] && Enabled(s, steps[0]) ==> Matches(s, steps[0]) && LinksCurrent(Apply(s, steps[0]), steps[1..])
  }

  lemma {:induction false} RunKeepsSound(s: State, steps: seq<Step>, s': State)
    requires Sound(s) && Runs(s, steps, s') && LinksCurrent(s, steps)
    ensures Sound(s')
    decreases steps
  {
    if steps != [] {
      SoundKeeps(s, steps[0]);
      RunKeepsSound(Apply(s, steps[0]), steps[1..], s');
    }
  }

  lemma {:induction false} StackIffCurrent(s: State, steps: seq<Step>, s': State)
    requires Sound(s) && Runs(s, steps, s')
    ensures StaysAStack(s, steps) <==> LinksCurrent(s, steps)
    decreases steps
  {
    SoundIsAStack(s);
    if steps != [] {
      if Matches(s, steps[0]) {
        SoundKeeps(s, steps[0]);
        StackIffCurrent(Apply(s, steps[0]), steps[1..], s');
      } else {
        MismatchBreaks(s, steps[0]);
      }
    }
  }

  /** For any number of threads and any interleaving: the list is a stack throughout if and only if every
      successful pop swap stores the link that its slot has at that moment. */
  lemma EveryRunIsAStackIff(s: State, steps: seq<Step>, s': State)
    requires Init(s) && Runs(s, steps, s')
    ensures StaysAStack(s, steps) <==> LinksCurrent(s, steps)
  {
    StackIffCurrent(s, steps, s');
  }

  lemma {:induction false} TimelyLinksCurrent(s: State, steps: seq<Step>, s': State)
    requires Inv(s) && Runs(s, steps, s') && TimelyRun(s, steps)
    ensures LinksCurrent(s, steps)
    decreases steps
  {
    if steps != [] {
      CurrentMatches(s, steps[0]);
      StepKeeps(s, steps[0]);
      TimelyLinksCurrent(Apply(s, steps[0]), steps[1..], s');
    }
  }

  /** So it is in every run in which no slot returns to the list while another thread's pop has its link. */
  lemma EveryTimelyRunIsAStack(s: State, steps: seq<Step>, s': State)
    requires Init(s) && Runs(s, steps, s') && TimelyRun(s, steps)
    ensures Linked(s'.head, s'.next, s'.stack) && Exclusive(s') && Linearized(s') && StaysAStack(s, steps)
  {
    TimelyLinksCurrent(s, steps, s');
    StackIffCurrent(s, steps, s');
    RunKeepsSound(s, steps, s');
    SoundIsAStack(s');
  }

  ghost predicate ClearedOnlyWhenEmpty(log: seq<Event>) {
    forall k :: 0 <= k < |log| && log[k].Cleared? ==> log[k].lost == 0
  }

  lemma ClearedNext(log: seq<Event>, e: Event)
    ensures ClearedOnlyWhenEmpty(log + [e]) <==> ClearedOnlyWhenEmpty(log) && (e.Cleared? ==> e.lost == 0)
  {
    var next := log + [e];
    assert next[|log|] == e && forall k :: 0 <= k < |log| ==> next[k] == log[k];
  }

  lemma DroppedStep(s: State, step: Step)
    requires Sound(s) && Enabled(s, step)
    requires DroppedSlots(s) == {} <==> ClearedOnlyWhenEmpty(s.log)
    ensures var s' := Apply(s, step); DroppedSlots(s') == {} <==> ClearedOnlyWhenEmpty(s'.log)
  {
    var s' := Apply(s, step);
    if |s'.log| > |s.log| {
      ClearedNext(s.log, s'.log[|s.log|]);
      assert s'.log == s.log + [s'.log[|s.log|]];
    }
    if step.NewBlock? {
      if s.stack != [] {
        assert s.stack[0] in s.stack && s.stack[0] in DroppedSlots(s');
      } else {
        assert DroppedSlots(s') == DroppedSlots(s);
      }
    } else {
      SameDropped(s, step);
    }
  }

  /** The slot that a step moves, if it moves one, and where to. */
  lemma MovesOne(s: State, step: Step) returns (moves: bool, slot: Slot, to: Place)
    requires Sound(s) && Enabled(s, step) && !step.NewBlock?
    ensures !moves ==> Apply(s, step).place == s.place
    ensures moves ==> Apply(s, step).place == s.place[slot := to]
    ensures moves ==> to != Dropped && (slot in s.place ==> s.place[slot] != Dropped)
  {
    assert InHand(s, step.t);
    moves, slot, to := true, NULL, OnList;
    if step.SwapPop? && Swaps(s, step) {
      assert s.stack != [] && s.stack[0] in s.stack;
      slot, to := s.head, HeldBy(step.t);
    } else if step.SwapPush? && Swaps(s, step) {
      slot, to := s.pc[step.t].slot, OnList;
      assert s.place[slot] == HeldBy(step.t);
    } else if step.HandOver? {
      slot, to := step.slot, HeldBy(step.to);
      assert s.place[slot] == HeldBy(step.t);
    } else if step.Carve? {
      slot, to := step.slot, HeldBy(step.t);
    } else {
      moves := false;
    }
  }

  lemma SameDropped(s: State, step: Step)
    requires Sound(s) && Enabled(s, step) && !step.NewBlock?
    ensures DroppedSlots(Apply(s, step)) == DroppedSlots(s)
  {
    var moves, slot, to := MovesOne(s, step);
  }

  lemma {:induction false} DroppedRun(s: State, steps: seq<Step>, s': State)
    requires Sound(s) && Runs(s, steps, s') && LinksCurrent(s, steps)
    requires DroppedSlots(s) == {} <==> ClearedOnlyWhenEmpty(s.log)
    ensures DroppedSlots(s') == {} <==> ClearedOnlyWhenEmpty(s'.log)
    decreases steps
  {
    if steps != [] {
      SoundKeeps(s, steps[0]);
      DroppedStep(s, steps[0]);
      DroppedRun(Apply(s, steps[0]), steps[1..], s');
    }
  }

  /** Slots are lost exactly by obtaining a block while the list is not empty. */
  lemma LostIffClearedNonEmpty(s: State, steps: seq<Step>, s': State)
    requires Init(s) && Runs(s, steps, s') && LinksCurrent(s, steps)
    ensures (forall x :: x in s'.place ==> x in s'.stack || exists t :: t in s'.held && x in s'.held[t])
      <==> ClearedOnlyWhenEmpty(s'.log)
  {
    DroppedRun(s, steps, s');
    RunKeepsSound(s, steps, s');
    PlacedIsExclusive(s');
    if x :| x in DroppedSlots(s') {
      assert x in s'.place && x !in s'.stack && forall t :: t in s'.held ==> x !in s'.held[t];
    }
  }

  // ---------------------------------------------------------------- operations come to their end

  /** The event that a step logs, if it takes effect on the list or carves a slot. */
  function NewEvents(s: State, step: Step): seq<Event>
    requires Enabled(s, step)
  {
    var log := Apply(s, step).log;
    if |log| > |s.log| then [log[|s.log|]] else []
  }

  /** The events of thread `t` in a run. */
  ghost function EventsOf(s: State, steps: seq<Step>, t: Thread): seq<Event>
    decreases steps
  {
    if steps == [] || !Enabled(s, steps[0]) then []
    else (if steps[0].t == t then NewEvents(s, steps[0]) else []) + EventsOf(Apply(s, steps[0]), steps[1..], t)
  }

  /** Every event is logged once, at the end, under the thread that takes the step. */
  lemma LogsOwn(s: State, step: Step)
    requires Enabled(s, step)
    ensures Apply(s, step).log == s.log + NewEvents(s, step)
    ensures NewEvents(s, step) != [] ==> NewEvents(s, step)[0].thread == step.t
    ensures Apply(s, step).pc.Keys == s.pc.Keys
    ensures forall u :: u in s.pc && u != step.t ==> Apply(s, step).pc[u] == s.pc[u]
  {
  }

  /** Inside a deallocation of `slot`. */
  predicate Returning(pc: Pc, slot: Slot) {
    (pc.PushLoad? || pc.PushStore? || pc.PushSwap?) && pc.slot == slot
  }

  lemma ReturningStep(s: State, step: Step, slot: Slot)
    requires Enabled(s, step) && Returning(s.pc[step.t], slot)
    ensures var pc := Apply(s, step).pc[step.t];
      if NewEvents(s, step) == [] then Returning(pc, slot) else NewEvents(s, step) == [Pushed(step.t, slot)] && pc.Idle?
  {
  }

  /** In every run: a thread that deallocates a slot goes on with it until its push of that slot has taken effect,
      and nothing else takes effect for that thread before. */
  lemma {:induction false} DeallocationEnds(s: State, t: Thread, slot: Slot, steps: seq<Step>, s': State)
    requires t in s.pc && Returning(s.pc[t], slot) && Runs(s, steps, s')
    ensures t in s'.pc
    ensures var events := EventsOf(s, steps, t);
      if events == [] then Returning(s'.pc[t], slot) else events[0] == Pushed(t, slot)
    decreases steps
  {
    if steps != [] {
      var m := Apply(s, steps[0]);
      LogsOwn(s, steps[0]);
      if steps[0].t == t {
        ReturningStep(s, steps[0], slot);
      }
      if steps[0].t == t && NewEvents(s, steps[0]) != [] {
        ThreadsStay(m, steps[1..], s');
      } else {
        DeallocationEnds(m, t, slot, steps[1..], s');
      }
    }
  }

  lemma {:induction false} ThreadsStay(s: State, steps: seq<Step>, s': State)
    requires Runs(s, steps, s')
    ensures s'.pc.Keys == s.pc.Keys
    decreases steps
  {
    if steps != [] {
      LogsOwn(s, steps[0]);
      ThreadsStay(Apply(s, steps[0]), steps[1..], s');
    }
  }

  /** Inside an allocation that has these events so far: it looks for a slot on the list until it finds the list
      empty, and only then for one in a block, a new one at most once. */
  predicate Getting(pc: Pc, events: seq<Event>) {
    if pc.Refill? then
      |events| == (if pc.renewed then 2 else 1) && events[0].FoundEmpty? && (pc.renewed ==> events[1].Cleared?)
    else (pc.PopLoad? || pc.PopRead? || pc.PopSwap?) && events == []
  }

  /** The allocation has ended with a slot from the list, or else from a block. */
  predicate Got(events: seq<Event>) {
    || (events != [] && events[0].Popped?)
    || (|events| > 1 && events[0].FoundEmpty? && events[1].Carved?)
    || (|events| > 2 && events[0].FoundEmpty? && events[1].Cleared? && events[2].Carved?)
  }

  lemma GettingStep(s: State, step: Step, past: seq<Event>)
    requires Enabled(s, step) && Getting(s.pc[step.t], past)
    ensures var s', events := Apply(s, step), past + NewEvents(s, step);
      || Getting(s'.pc[step.t], events)
      || (Got(events) && s'.pc[step.t].Idle? && events[|events|-1].slot in s'.held[step.t])
  {
    assert past + [] == past;
  }

  /** In every run: a thread that allocates goes on until it has a slot, from the list if it does not find that
      empty, and from a block only if it does. */
  lemma {:induction false} AllocationEnds(s: State, t: Thread, past: seq<Event>, steps: seq<Step>, s': State)
    requires t in s.pc && Getting(s.pc[t], past) && Runs(s, steps, s')
    ensures t in s'.pc
    ensures var events := past + EventsOf(s, steps, t); Getting(s'.pc[t], events) || Got(events)
    decreases steps
  {
    assert past + [] == past;
    if steps != [] {
      var m, own := Apply(s, steps[0]), steps[0].t == t;
      var now, rest := if own then NewEvents(s, steps[0]) else [], EventsOf(m, steps[1..], t);
      LogsOwn(s, steps[0]);
      ThreadsStay(m, steps[1..], s');
      if own {
        GettingStep(s, steps[0], past);
      }
      assert (past + now) + rest == past + (now + rest);
      if Getting(m.pc[t], past + now) {
        AllocationEnds(m, t, past + now, steps[1..], s');
      } else {
        GotMore(past + now, rest);
      }
    }
  }

  lemma GotMore(events: seq<Event>, more: seq<Event>)
    requires Got(events)
    ensures Got(events + more)
  {
    assert forall i :: 0 <= i < |events| ==> (events + more)[i] == events[i];
  }

  /** Both begin where the calls do. */
  lemma CallsBegin(s: State, t: Thread, slot: Slot)
    requires t in s.pc && t in s.held && s.pc[t].Idle?
    ensures slot in s.held[t] ==>
      Enabled(s, Deallocate(t, slot)) && Returning(Apply(s, Deallocate(t, slot)).pc[t], slot)
    ensures Enabled(s, Allocate(t)) && Getting(Apply(s, Allocate(t)).pc[t], [])
  {
  }

  /** What the code that holds a slot may do meanwhile: store any word in it, or pass it on. */
  lemma HoldersDo(s: State, t: Thread, slot: Slot, word: Slot, to: Thread)
    requires Sound(s) && t in s.pc && s.pc[t].Idle? && slot in s.held[t] && to in s.held && to != t
    ensures Enabled(s, Write(t, slot, word)) && Apply(s, Write(t, slot, word)) == s.(next := s.next[slot := word])
    ensures Enabled(s, HandOver(t, to, slot))
    ensures var s' := Apply(s, HandOver(t, to, slot));
      && slot !in s'.held[t] && slot in s'.held[to] && s'.head == s.head && s'.next == s.next && s'.log == s.log
      && forall u, x :: u in s.held && x in s.held[u] && x != slot ==> u in s'.held && x in s'.held[u]
  {
  }

  // Another thread has to succeed for a swap to fail.

  predicate MovesHead(events: seq<Event>) {
    events != [] && !events[0].FoundEmpty? && !events[0].Carved?
  }

  /** Some push, pop or clearing takes effect in the run. */
  ghost predicate HeadMoves(s: State, steps: seq<Step>)
    decreases steps
  {
    steps != [] && Enabled(s, steps[0]) &&
    (MovesHead(NewEvents(s, steps[0])) || HeadMoves(Apply(s, steps[0]), steps[1..]))
  }

  predicate Loads(steps: seq<Step>, t: Thread) {
    exists i :: 0 <= i < |steps| && (steps[i] == LoadForPush(t) || steps[i] == LoadForPop(t))
  }

  /** The head that the thread compares with in its swap. */
  predicate Compares(pc: Pc, head: Slot) {
    (pc.PushStore? || pc.PushSwap? || pc.PopRead? || pc.PopSwap?) && pc.oldHead == head
  }

  predicate AtSwap(pc: Pc) {
    pc.PushSwap? || pc.PopSwap?
  }

  lemma {:induction false} HeadStands(s: State, t: Thread, steps: seq<Step>, s': State)
    requires t in s.pc && t in s.held && Compares(s.pc[t], s.head) && Runs(s, steps, s')
    requires !Loads(steps, t) && !HeadMoves(s, steps)
    ensures t in s'.pc && t in s'.held && (AtSwap(s'.pc[t]) ==> Compares(s'.pc[t], s'.head))
    decreases steps
  {
    if steps != [] {
      var m := Apply(s, steps[0]);
      LogsOwn(s, steps[0]);
      assert !Loads(steps[1..], t) by {
        assert forall i :: 0 <= i < |steps[1..]| ==> steps[1..][i] == steps[i+1];
      }
      assert m.head == s.head;
      if Compares(m.pc[t], m.head) {
        HeadStands(m, t, steps[1..], s');
      } else {
        NoSwapWithoutLoad(m, t, steps[1..], s');
      }
    }
  }

  lemma {:induction false} NoSwapWithoutLoad(s: State, t: Thread, steps: seq<Step>, s': State)
    requires t in s.pc && t in s.held && (s.pc[t].PushLoad? || s.pc[t].PopLoad?) && Runs(s, steps, s') &&
      !Loads(steps, t)
    ensures t in s'.pc && t in s'.held && s'.pc[t] == s.pc[t]
    decreases steps
  {
    if steps != [] {
      LogsOwn(s, steps[0]);
      assert steps[0] != LoadForPush(t) && steps[0] != LoadForPop(t);
      assert !Loads(steps[1..], t) by {
        assert forall i :: 0 <= i < |steps[1..]| ==> steps[1..][i] == steps[i+1];
      }
      NoSwapWithoutLoad(Apply(s, steps[0]), t, steps[1..], s');
    }
  }

  /** Lock freedom: from a load of the head on, whatever the other threads do, the swap that follows succeeds unless
      it fails spuriously or some operation has taken effect in between. */
  lemma SwapFailsOnlyIfMoved(s: State, t: Thread, steps: seq<Step>, s': State, step: Step)
    requires t in s.pc && t in s.held && Compares(s.pc[t], s.head) && Runs(s, steps, s') && !Loads(steps, t)
    requires Enabled(s', step) && step.t == t && (step == SwapPush(t, false) || step == SwapPop(t, false))
    ensures Swaps(s', step) || HeadMoves(s, steps)
  {
    if !HeadMoves(s, steps) {
      HeadStands(s, t, steps, s');
    }
  }

  // ---------------------------------------------------------------- one thread

  ghost predicate Solo(s: State, t: Thread) {
    && s.pc.Keys == {t}
    && (s.pc[t] == Refill(false) ==> s.stack == [])
    && DroppedSlots(s) == {}
  }

  lemma SoloStep(s: State, t: Thread, step: Step)
    requires Inv(s) && Solo(s, t) && Enabled(s, step)
    ensures Timely(s, step) && Solo(Apply(s, step), t)
  {
    var s' := Apply(s, step);
    assert step.t == t;
    if !step.NewBlock? {
      SameDropped(s, step);
    }
  }

  lemma {:induction false} SoloRun(s: State, t: Thread, steps: seq<Step>, s': State)
    requires Inv(s) && Solo(s, t) && Runs(s, steps, s')
    ensures TimelyRun(s, steps) && Solo(s', t)
    decreases steps
  {
    if steps != [] {
      SoloStep(s, t, steps[0]);
      StepKeeps(s, steps[0]);
      SoloRun(Apply(s, steps[0]), t, steps[1..], s');
    }
  }

  /** A pool used by one thread needs no restriction: its list is a stack and no slot is dropped. */
  lemma OneThreadLosesNothing(s: State, t: Thread, steps: seq<Step>, s': State)
    requires Init(s) && s.pc.Keys == {t} && Runs(s, steps, s')
    ensures Linked(s'.head, s'.next, s'.stack) && Exclusive(s') && Linearized(s')
    ensures DroppedSlots(s') == {}
  {
    SoloRun(s, t, steps, s');
    EveryTimelyRunIsAStack(s, steps, s');
  }

  // ---------------------------------------------------------------- the missing version tag

  /** A successful pop swap on a well-formed list leaves one exactly when the link it read earlier is
      still the link of the slot it removes. */
  lemma PopKeepsTheListIff(s: State, step: Step)
    requires Linked(s.head, s.next, s.stack) && s.stack != [] && Enabled(s, step)
    requires step.SwapPop? && Swaps(s, step)
    ensures var s' := Apply(s, step);
      Linked(s'.head, s'.next, s'.stack) <==> s.pc[step.t].newHead == s.next[s.pc[step.t].oldHead]
  {
    var s' := Apply(s, step);
    assert s'.stack == s.stack[1..] && s'.next == s.next && s'.head == s.pc[step.t].newHead;
    assert Linked(s.next[s.head], s.next, s.stack[1..]);
  }

  function AfterPop(s: State, t: Thread): State
    requires t in s.held && s.head in s.next
  {
    s.(head := s.next[s.head], held := s.held[t := s.held[t] + {s.head}],
       stack := if s.stack == [] then [] else s.stack[1..], place := s.place[s.head := HeldBy(t)],
       log := s.log + [Popped(t, s.head)])
  }

  function AfterPush(s: State, t: Thread, slot: Slot): State
    requires t in s.held
  {
    s.(head := slot, next := s.next[slot := s.head], held := s.held[t := s.held[t] - {slot}],
       stack := [slot] + s.stack, place := s.place[slot := OnList], log := s.log + [Pushed(t, slot)])
  }

  function AfterCarve(s: State, t: Thread, slot: Slot): State
    requires t in s.held
  {
    s.(next := s.next[slot := NULL], held := s.held[t := s.held[t] + {slot}],
       place := s.place[slot := HeldBy(t)], log := s.log + [FoundEmpty(t)] + [Carved(t, slot)])
  }

  /** An operation that runs without interruption. */
  lemma PopAlone(s: State, t: Thread) returns (steps: seq<Step>)
    requires t in s.pc && t in s.held && s.pc[t] == Idle && s.head != NULL && s.head in s.next
    ensures Runs(s, steps, AfterPop(s, t))
  {
    var s1 := Apply(s, Allocate(t));
    var s2 := Apply(s1, LoadForPop(t));
    var s3 := Apply(s2, ReadNext(t));
    var s4 := Apply(s3, SwapPop(t, false));
    assert s4.pc == s.pc;
    assert s4 == AfterPop(s, t);
    assert Runs(s3, [SwapPop(t, false)], s4);
    assert Runs(s2, [ReadNext(t)] + [SwapPop(t, false)], s4);
    assert Runs(s1, [LoadForPop(t)] + ([ReadNext(t)] + [SwapPop(t, false)]), s4);
    steps := [Allocate(t)] + ([LoadForPop(t)] + ([ReadNext(t)] + [SwapPop(t, false)]));
  }

  lemma PushAlone(s: State, t: Thread, slot: Slot) returns (steps: seq<Step>)
    requires t in s.pc && t in s.held && s.pc[t] == Idle && slot in s.held[t]
    ensures Runs(s, steps, AfterPush(s, t, slot))
  {
    var s1 := Apply(s, Deallocate(t, slot));
    var s2 := Apply(s1, LoadForPush(t));
    var s3 := Apply(s2, StoreNext(t));
    var s4 := Apply(s3, SwapPush(t, false));
    assert s4.pc == s.pc;
    assert s4 == AfterPush(s, t, slot);
    assert Runs(s3, [SwapPush(t, false)], s4);
    assert Runs(s2, [StoreNext(t)] + [SwapPush(t, false)], s4);
    assert Runs(s1, [LoadForPush(t)] + ([StoreNext(t)] + [SwapPush(t, false)]), s4);
    steps := [Deallocate(t, slot)] + ([LoadForPush(t)] + ([StoreNext(t)] + [SwapPush(t, false)]));
  }

  lemma CarveAlone(s: State, t: Thread, slot: Slot) returns (steps: seq<Step>)
    requires t in s.pc && t in s.held && s.pc[t] == Idle && s.head == NULL && slot != NULL && slot !in s.place
    ensures Runs(s, steps, AfterCarve(s, t, slot))
  {
    var s1 := Apply(s, Allocate(t));
    var s2 := Apply(s1, LoadForPop(t));
    var s3 := Apply(s2, Carve(t, slot, NULL));
    assert s3.pc == s.pc;
    assert s3 == AfterCarve(s, t, slot);
    assert Runs(s2, [Carve(t, slot, NULL)], s3);
    assert Runs(s1, [LoadForPop(t)] + [Carve(t, slot, NULL)], s3);
    steps := [Allocate(t)] + ([LoadForPop(t)] + [Carve(t, slot, NULL)]);
  }

  lemma {:induction false} RunsConcat(s: State, a: seq<Step>, m: State, b: seq<Step>, s': State)
    requires Runs(s, a, m) && Runs(m, b, s')
    ensures Runs(s, a + b, s')
    decreases a
  {
    if a == [] {
      assert a + b == b;
    } else {
      RunsConcat(Apply(s, a[0]), a[1..], m, b, s');
      assert (a + b)[1..] == a[1..] + b;
    }
  }

  ghost predicate Reaches(s: State, s': State) {
    exists steps :: Runs(s, steps, s')
  }

  lemma ReachesThrough(s: State, m: State, s': State)
    requires Reaches(s, m) && Reaches(m, s')
    ensures Reaches(s, s')
  {
    var a :| Runs(s, a, m);
    var b :| Runs(m, b, s');
    RunsConcat(s, a, m, b, s');
  }

  lemma ReachesByStep(s: State, m: State, step: Step)
    requires Reaches(s, m) && Enabled(m, step)
    ensures Reaches(s, Apply(m, step))
  {
    assert Runs(m, [step], Apply(m, step));
    ReachesThrough(s, m, Apply(m, step));
  }

  /** What the example is about: the head, the links, thread 0, and what each thread holds. */
  ghost predicate Shape(s: State, head: Slot, next: map<Slot, Slot>, pc0: Pc, held0: set<Slot>, held1: set<Slot>) {
    && s.head == head && s.next == next && s.place.Keys == next.Keys
    && s.pc.Keys == s.held.Keys == {0, 1}
    && s.pc[0] == pc0 && s.pc[1] == Idle && s.held[0] == held0 && s.held[1] == held1
  }

  lemma CarveBy1(s: State, m: State, next: map<Slot, Slot>, pc0: Pc, held: set<Slot>, slot: Slot) returns (m': State)
    requires Reaches(s, m) && Shape(m, NULL, next, pc0, {}, held) && slot != NULL && slot !in next
    ensures Reaches(s, m') && Shape(m', NULL, next[slot := NULL], pc0, {}, held + {slot})
  {
    var steps := CarveAlone(m, 1, slot);
    m' := AfterCarve(m, 1, slot);
    ReachesThrough(s, m, m');
  }

  lemma PushBy1(s: State, m: State, head: Slot, next: map<Slot, Slot>, pc0: Pc, held: set<Slot>, slot: Slot)
    returns (m': State)
    requires Reaches(s, m) && Shape(m, head, next, pc0, {}, held) && slot in held && slot in next
    ensures Reaches(s, m') && Shape(m', slot, next[slot := head], pc0, {}, held - {slot})
  {
    var steps := PushAlone(m, 1, slot);
    m' := AfterPush(m, 1, slot);
    ReachesThrough(s, m, m');
  }

  lemma PopBy1(s: State, m: State, head: Slot, next: map<Slot, Slot>, pc0: Pc, held: set<Slot>) returns (m': State)
    requires Reaches(s, m) && Shape(m, head, next, pc0, {}, held) && head != NULL && head in next
    ensures Reaches(s, m') && Shape(m', next[head], next, pc0, {}, held + {head})
  {
    var steps := PopAlone(m, 1);
    m' := AfterPop(m, 1);
    ReachesThrough(s, m, m');
  }

  /** Thread 1 carves slots 8 and 16. */
  lemma TwoSlotsCarved() returns (s: State, m: State)
    ensures Init(s) && Reaches(s, m)
    ensures Shape(m, NULL, map[8 := NULL, 16 := NULL], Idle, {}, {8, 16})
  {
    s := State(NULL, map[], map[0 := Idle, 1 := Idle], map[0 := {}, 1 := {}], [], map[], []);
    assert Runs(s, [], s);
    m := CarveBy1(s, s, map[], Idle, {}, 8);
    m := CarveBy1(s, m, map[][8 := NULL], Idle, {} + {8}, 16);
    assert {} + {8} + {16} == {8, 16};
    assert map[][8 := NULL][16 := NULL] == map[8 := NULL, 16 := NULL];
  }

  /** Thread 1 pushes both: the list is 8, 16. */
  lemma TwoSlotsListed() returns (s: State, m: State)
    ensures Init(s) && Reaches(s, m)
    ensures Shape(m, 8, map[8 := 16, 16 := NULL], Idle, {}, {})
  {
    s, m := TwoSlotsCarved();
    var next := map[8 := NULL, 16 := NULL];
    m := PushBy1(s, m, NULL, next, Idle, {8, 16}, 16);
    assert {8, 16} - {16} == {8} && next[16 := NULL] == next;
    m := PushBy1(s, m, 16, next, Idle, {8}, 8);
    assert {8} - {8} == {} && next[8 := 16] == map[8 := 16, 16 := NULL];
  }

  /** Thread 0 stops between reading the link of slot 8 and its swap. */
  lemma PopInterrupted(s: State, m: State) returns (m': State)
    requires Reaches(s, m) && Shape(m, 8, map[8 := 16, 16 := NULL], Idle, {}, {})
    ensures Reaches(s, m') && Shape(m', 8, map[8 := 16, 16 := NULL], PopSwap(8, 16), {}, {})
  {
    ReachesByStep(s, m, Allocate(0));
    var m1 := Apply(m, Allocate(0));
    ReachesByStep(s, m1, LoadForPop(0));
    var m2 := Apply(m1, LoadForPop(0));
    ReachesByStep(s, m2, ReadNext(0));
    m' := Apply(m2, ReadNext(0));
  }

  /** Thread 1 takes both slots and gives slot 8 back. */
  lemma SlotReused(s: State, m: State) returns (m': State)
    requires Reaches(s, m) && Shape(m, 8, map[8 := 16, 16 := NULL], PopSwap(8, 16), {}, {})
    ensures Reaches(s, m') && Shape(m', 8, map[8 := NULL, 16 := NULL], PopSwap(8, 16), {}, {16})
  {
    var next := map[8 := 16, 16 := NULL];
    m' := PopBy1(s, m, 8, next, PopSwap(8, 16), {});
    m' := PopBy1(s, m', 16, next, PopSwap(8, 16), {} + {8});
    assert {} + {8} + {16} == {8, 16};
    m' := PushBy1(s, m', NULL, next, PopSwap(8, 16), {8, 16}, 8);
    assert {8, 16} - {8} == {16} && next[8 := NULL] == map[8 := NULL, 16 := NULL];
  }

  /** Thread 0 finds the list empty. */
  lemma EmptySeen() returns (s: State, m: State)
    ensures Init(s) && Reaches(s, m) && Shape(m, NULL, map[], Refill(false), {}, {})
  {
    s := State(NULL, map[], map[0 := Idle, 1 := Idle], map[0 := {}, 1 := {}], [], map[], []);
    assert Runs(s, [], s);
    ReachesByStep(s, s, Allocate(0));
    var m1 := Apply(s, Allocate(0));
    ReachesByStep(s, m1, LoadForPop(0));
    m := Apply(m1, LoadForPop(0));
  }

  /** A thread that has found the list empty and then obtains a block clears the list, although another
      thread has pushed a slot meanwhile: the slot is on no list and with no thread. */
  lemma ClearingLosesASlot() returns (s: State, s': State)
    ensures Init(s) && Reaches(s, s')
    ensures 8 in s'.place && 8 !in s'.stack && s'.head == NULL && forall t :: t in s'.held ==> 8 !in s'.held[t]
  {
    var m: State;
    s, m := EmptySeen();
    m := CarveBy1(s, m, map[], Refill(false), {}, 8);
    m := PushBy1(s, m, NULL, map[][8 := NULL], Refill(false), {} + {8}, 8);
    ReachesByStep(s, m, NewBlock(0));
    s' := Apply(m, NewBlock(0));
  }

  /** Without the restriction two threads come to hold one slot: the interrupted swap of thread 0
      succeeds because slot 8 is back at the head, puts slot 16 on the list although thread 1 holds
      it, and the next pop of thread 0 takes it too. */
  lemma ReuseBreaksTheList() returns (s: State, s': State)
    ensures Init(s) && Reaches(s, s')
    ensures s'.held.Keys == {0, 1} && s'.held[0] == {8, 16} && s'.held[1] == {16}
  {
    var m: State;
    s, m := TwoSlotsListed();
    m := PopInterrupted(s, m);
    m := SlotReused(s, m);
    ReachesByStep(s, m, SwapPop(0, false));
    var m1 := Apply(m, SwapPop(0, false));
    assert m1.head == 16 && m1.held[0] == {8} && m1.held[1] == {16} && m1.pc[0] == Idle && m1.next == m.next;
    var steps := PopAlone(m1, 0);
    s' := AfterPop(m1, 0);
    ReachesThrough(s, m1, s');
  }
}
