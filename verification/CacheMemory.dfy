/** The tiered cache down to its pointers: any number of threads, with the list heads, the counters and the
    first word of every block as the program has them
    (cpp_learning_projects/memory-mgkl/src/ThreadCache.cpp:7-129 with CentralCache.cpp:16-112).

    `CacheTiers` tells the same story with sequences of blocks for lists.  Here the steps only follow and
    store pointers; that they do what the steps there do, whatever the users meanwhile write into the blocks
    they hold, is `StepRefines`, and over whole runs `EveryRunIsLinked`.

    A free walks its list to the node behind which it cuts, and the give-back walks the chain to the node
    the byte limit allows it to reach, each by the words it finds.  What keeps another thread's writes out
    of those words is the placement of the blocks that `CacheTiers` proves.
*/
module CacheMemory {

  import opened IntrusiveList
  import opened SizeClasses
  import opened ThreadCache
  import Tiers = CacheTiers

  type Thread = Tiers.Thread

  // ---------------------------------------------------------------- pointers and steps

  datatype Pc =
    | Idle
    | FetchWait
    | FetchHold
    | FetchLoaded(seen: Address)
    | FetchStored(res: Address)
    | FetchDone(res: Address)
    | ReturnWait(start: Address, limit: nat)
    | ReturnHold(start: Address, limit: nat)
    | ReturnLoaded(start: Address, limit: nat, seen: Address)
    | ReturnStored

  datatype Cache = Cache(head: Address, size: nat, pc: Pc)

  datatype State = State(
    index: nat,
    word: map<Address, Address>,
    caches: map<Thread, Cache>,
    central: Address,
    lock: Option<Thread>)

  /** The steps of the caches, and a user's store into the first word of a block. */
  datatype Step = Cached(step: Tiers.Step) | Write(t: Thread, b: Address, v: Address)

  /** `k` links on from `p`, or null past the end. */
  function NodeAt(word: map<Address, Address>, p: Address, k: nat): Address
    decreases k
  {
    if k == 0 || p == NULL || p !in word then p else NodeAt(word, word[p], k - 1)
  }

  /** The node that a walk over at most `n` links stops at, never past the last. */
  function EndOf(word: map<Address, Address>, p: Address, n: nat): Address
    decreases n
  {
    if n == 0 || p !in word || word[p] == NULL then p else EndOf(word, word[p], n - 1)
  }

  /** How many nodes hang on `p`, up to `most`. */
  function Length(word: map<Address, Address>, p: Address, most: nat): nat
    decreases most
  {
    if most == 0 || p == NULL || p !in word then 0 else 1 + Length(word, word[p], most - 1)
  }

  /** The words of a span once it is carved: the first block stands alone, each other leads to the next.  A
      span of one block is not written: its word is null because its pages are zeroed. */
  function CarvedWords(word: map<Address, Address>, blocks: seq<Address>, size: nat): map<Address, Address>
    requires blocks != []
  {
    map b | b in word.Keys + (set x | x in blocks) ::
      if b !in blocks then word[b]
      else if b == blocks[0] || b == blocks[|blocks|-1] then NULL
      else b + size
  }

  /** Whether the thread and the lock allow the step. */
  predicate Ready(m: State, step: Tiers.Step) {
    step.t in m.caches &&
    var pc := m.caches[step.t].pc;
    match step
    case Allocate(_) => pc.Idle?
    case Acquire(_) => (pc.FetchWait? || pc.ReturnWait?) && m.lock == None
    case Load(_) => pc.FetchHold? || pc.ReturnHold?
    case Store(_, span) => pc.FetchLoaded? || (pc.ReturnLoaded? && span.None?)
    case Unlock(_) => pc.FetchStored? || pc.ReturnStored?
    case Finish(_) => pc.FetchDone?
    case Free(_, _, _) => pc.Idle?
    case HandOver(_, to, _) => pc.Idle? && to in m.caches
  }

  function DoAllocate(m: State, t: Thread, c: Cache): State {
    var c' := c.(size := Wrap(c.size - 1));
    if c.head != NULL then
      m.(caches := m.caches[t := c'.(head := if c.head in m.word then m.word[c.head] else NULL)])
    else
      m.(caches := m.caches[t := c'.(pc := FetchWait)])
  }

  function DoFetchStore(m: State, t: Thread, c: Cache, span: Option<Address>): State
    requires c.pc.FetchLoaded?
  {
    var seen := c.pc.seen;
    if seen != NULL then
      m.(word := m.word[seen := NULL], central := if seen in m.word then m.word[seen] else NULL,
         caches := m.caches[t := c.(pc := FetchStored(seen))])
    else if span.None? then
      m.(caches := m.caches[t := c.(pc := FetchStored(NULL))])
    else
      var blocks := Blocks(span.value, ClassBytes(m.index));
      m.(word := CarvedWords(m.word, blocks, ClassBytes(m.index)),
         central := if |blocks| > 1 then blocks[1] else m.central,
         caches := m.caches[t := c.(pc := FetchStored(span.value))])
  }

  function DoReturnStore(m: State, t: Thread, c: Cache): State
    requires c.pc.ReturnLoaded?
  {
    var end := EndOf(m.word, c.pc.start, if c.pc.limit < 1 then 0 else c.pc.limit - 1);
    m.(word := m.word[end := c.pc.seen], central := c.pc.start, caches := m.caches[t := c.(pc := ReturnStored)])
  }

  function DoFinish(m: State, t: Thread, c: Cache): State
    requires c.pc.FetchDone?
  {
    var res := c.pc.res;
    if res == NULL then
      m.(caches := m.caches[t := c.(pc := Idle)])
    else
      m.(caches := m.caches[t := Cache(if res in m.word then m.word[res] else NULL,
        Wrap(c.size + Length(m.word, res, |m.word|)), Idle)])
  }

  /** The push, and past the threshold the walk, the cut and the counter. */
  function DoFree(m: State, t: Thread, c: Cache, b: Address, bytes: nat): State {
    var word, size := m.word[b := c.head], Wrap(c.size + 1);
    var split := NodeAt(word, b, Keep(size));
    if size > THRESHOLD && split != NULL && split in word then
      var next := word[split];
      m.(word := word[split := NULL],
         caches := m.caches[t := Cache(b, Keep(size),
           if next == NULL then Idle else ReturnWait(next, ReturnLimit(size, bytes)))])
    else
      m.(word := word, caches := m.caches[t := c.(head := b, size := size)])
  }

  function Do(m: State, step: Tiers.Step): State
    requires Ready(m, step)
  {
    var t := step.t;
    var c := m.caches[t];
    match step
    case Allocate(_) => DoAllocate(m, t, c)
    case Acquire(_) =>
      m.(caches := m.caches[t := c.(pc := if c.pc.FetchWait? then FetchHold else ReturnHold(c.pc.start, c.pc.limit))],
         lock := Some(t))
    case Load(_) =>
      m.(caches := m.caches[t := c.(pc := if c.pc.FetchHold? then FetchLoaded(m.central)
                                          else ReturnLoaded(c.pc.start, c.pc.limit, m.central))])
    case Store(_, span) => if c.pc.FetchLoaded? then DoFetchStore(m, t, c, span) else DoReturnStore(m, t, c)
    case Unlock(_) =>
      m.(caches := m.caches[t := c.(pc := if c.pc.FetchStored? then FetchDone(c.pc.res) else Idle)], lock := None)
    case Finish(_) => DoFinish(m, t, c)
    case Free(_, b, bytes) => DoFree(m, t, c, b, bytes)
    case HandOver(_, _, _) => m
  }

  // ---------------------------------------------------------------- what the pointers stand for

  ghost predicate PcStands(pc: Pc, apc: Tiers.Pc, word: map<Address, Address>) {
    match apc
    case Idle => pc == Idle
    case FetchWait => pc == FetchWait
    case FetchHold => pc == FetchHold
    case FetchLoaded(list) => pc.FetchLoaded? && Linked(pc.seen, word, list)
    case FetchStored(got) => pc.FetchStored? &&
      (if got.None? then pc.res == NULL else Linked(pc.res, word, [got.value]))
    case FetchDone(got) => pc.FetchDone? && (if got.None? then pc.res == NULL else Linked(pc.res, word, [got.value]))
    case ReturnWait(chain, limit) => pc.ReturnWait? && pc.limit == limit && chain != [] && Linked(pc.start, word, chain)
    case ReturnHold(chain, limit) => pc.ReturnHold? && pc.limit == limit && chain != [] && Linked(pc.start, word, chain)
    case ReturnLoaded(chain, limit, list) =>
      pc.ReturnLoaded? && pc.limit == limit && chain != [] && Linked(pc.start, word, chain) &&
        Linked(pc.seen, word, list)
    case ReturnStored => pc == ReturnStored
  }

  ghost predicate CacheStands(c: Cache, w: Tiers.Worker, word: map<Address, Address>) {
    c.size == w.local.size && Linked(c.head, word, w.local.list) && PcStands(c.pc, w.pc, word)
  }

  /** Every block carved has a word, and none is null. */
  ghost predicate Known(place: map<Address, Tiers.Place>, word: map<Address, Address>) {
    NULL !in place && place.Keys <= word.Keys
  }

  /** Pointers and words stand for the lists: each is linked from its head through its blocks to null. */
  ghost predicate Stands(m: State, s: Tiers.State) {
    && m.index == s.index && m.lock == s.lock && m.caches.Keys == s.workers.Keys
    && Known(s.place, m.word)
    && Linked(m.central, m.word, s.central)
    && forall t :: t in s.workers ==> CacheStands(m.caches[t], s.workers[t], m.word)
  }

  /** What a thread has loaded of the central list. */
  function SeenBy(pc: Tiers.Pc): seq<Address> {
    match pc
    case FetchLoaded(seen) => seen
    case ReturnLoaded(_, _, seen) => seen
    case _ => []
  }

  ghost predicate Agree(word: map<Address, Address>, word': map<Address, Address>, blocks: seq<Address>) {
    forall b :: b in blocks && b in word ==> b in word' && word'[b] == word[b]
  }

  /** A thread's lists stand as long as their words do. */
  lemma StandsElsewhere(c: Cache, w: Tiers.Worker, word: map<Address, Address>, word': map<Address, Address>)
    requires CacheStands(c, w, word)
    requires Agree(word, word', w.local.list) && Agree(word, word', Tiers.Transit(w.pc)) &&
      Agree(word, word', SeenBy(w.pc))
    ensures CacheStands(c, w, word')
  {
    LinkedFrame(c.head, word, word', w.local.list);
    match w.pc
    case FetchLoaded(seen) => LinkedFrame(c.pc.seen, word, word', seen);
    case FetchStored(got) => if got.Some? { LinkedFrame(c.pc.res, word, word', [got.value]); }
    case FetchDone(got) => if got.Some? { LinkedFrame(c.pc.res, word, word', [got.value]); }
    case ReturnWait(chain, _) => LinkedFrame(c.pc.start, word, word', chain);
    case ReturnHold(chain, _) => LinkedFrame(c.pc.start, word, word', chain);
    case ReturnLoaded(chain, _, seen) =>
      LinkedFrame(c.pc.start, word, word', chain);
      LinkedFrame(c.pc.seen, word, word', seen);
    case _ =>
  }

  /** The blocks whose words a step of `t` may change: its own, new ones, and under the lock the central ones. */
  predicate MayTouch(s: Tiers.State, t: Thread, b: Address) {
    b in s.place ==> Tiers.Concerns(s.place[b], t) || (s.place[b] == Tiers.Central && s.lock == Some(t))
  }

  ghost predicate TouchesOwn(s: Tiers.State, t: Thread, word: map<Address, Address>, word': map<Address, Address>) {
    forall b :: b in word && !MayTouch(s, t, b) ==> b in word' && word'[b] == word[b]
  }

  lemma OthersStand(m: State, s: Tiers.State, t: Thread, word': map<Address, Address>, u: Thread)
    requires u in m.caches && t in s.workers && u in s.workers && u != t &&
      CacheStands(m.caches[u], s.workers[u], m.word)
    requires Tiers.Placed(s) && Tiers.Locked(s) && TouchesOwn(s, t, m.word, word')
    ensures CacheStands(m.caches[u], s.workers[u], word')
  {
    var w := s.workers[u];
    StandsElsewhere(m.caches[u], w, m.word, word');
  }

  /** The parts that make a state stand after a step of `t`. */
  lemma StepStands(m: State, s: Tiers.State, m': State, s': Tiers.State, t: Thread)
    requires Stands(m, s) && Tiers.Placed(s) && Tiers.Locked(s) && t in s.workers
    requires m'.index == s'.index && m'.lock == s'.lock && Known(s'.place, m'.word)
    requires t in m'.caches && m'.caches == m.caches[t := m'.caches[t]]
    requires t in s'.workers && s'.workers == s.workers[t := s'.workers[t]]
    requires TouchesOwn(s, t, m.word, m'.word)
    requires CacheStands(m'.caches[t], s'.workers[t], m'.word) && Linked(m'.central, m'.word, s'.central)
    ensures Stands(m', s')
  {
    forall u | u in s'.workers
      ensures CacheStands(m'.caches[u], s'.workers[u], m'.word)
    {
      if u != t {
        OthersStand(m, s, t, m'.word, u);
      }
    }
  }

  // ---------------------------------------------------------------- following pointers

  lemma {:induction false} NodeAtIs(head: Address, word: map<Address, Address>, s: seq<Address>, k: nat)
    requires Linked(head, word, s)
    ensures NodeAt(word, head, k) == if k < |s| then s[k] else NULL
    decreases k
  {
    if k > 0 && s != [] {
      NodeAtIs(word[head], word, s[1..], k - 1);
    }
  }

  lemma {:induction false} EndOfIs(head: Address, word: map<Address, Address>, s: seq<Address>, n: nat)
    requires Linked(head, word, s) && s != []
    ensures EndOf(word, head, n) == s[if n < |s| then n else |s| - 1]
    decreases n
  {
    LinkedNext(head, word, s, 0);
    if n > 0 && |s| > 1 {
      EndOfIs(word[head], word, s[1..], n - 1);
    }
  }

  lemma LengthOfOne(word: map<Address, Address>, b: Address)
    requires Linked(b, word, [b])
    ensures word[b] == NULL && Length(word, b, |word|) == 1
  {
    assert [b][1..] == [];
    assert b in word.Keys && |word| == |word.Keys|;
    assert Length(word, b, |word|) == 1 + Length(word, word[b], |word| - 1);
  }

  // ---------------------------------------------------------------- each step

  /** Blocks that only move stay known. */
  lemma KnownStays(m: State, s: Tiers.State, step: Tiers.Step)
    requires Stands(m, s) && Tiers.Inv(s) && Tiers.Enabled(s, step) && !step.Store?
    ensures Known(Tiers.Apply(s, step).place, m.word)
  {
    Tiers.OnlyCarvingMakes(s, step);
  }

  lemma AllocateOwn(c: Cache, w: Tiers.Worker, word: map<Address, Address>)
    requires CacheStands(c, w, word) && w.pc.Idle?
    ensures c.head == NULL <==> w.local.list == []
    ensures var c' := c.(size := Wrap(c.size - 1)); var l := Decremented(w.local);
      && (c.head == NULL ==> CacheStands(c'.(pc := FetchWait), w.(local := l, pc := Tiers.FetchWait), word))
      && (c.head != NULL ==> c.head == w.local.list[0] && c.head in word)
      && (c.head != NULL ==>
        CacheStands(c'.(head := word[c.head]), w.(local := l.(list := l.list[1..]), held := w.held + {c.head}), word))
  {
  }

  lemma AllocateRefines(m: State, s: Tiers.State, t: Thread)
    requires Stands(m, s) && Tiers.Placed(s) && Tiers.Locked(s) && t in s.workers && s.workers[t].pc.Idle?
    requires Known(Tiers.ApplyAllocate(s, t, s.workers[t]).place, m.word)
    ensures Stands(DoAllocate(m, t, m.caches[t]), Tiers.ApplyAllocate(s, t, s.workers[t]))
  {
    AllocateOwn(m.caches[t], s.workers[t], m.word);
    StepStands(m, s, DoAllocate(m, t, m.caches[t]), Tiers.ApplyAllocate(s, t, s.workers[t]), t);
  }

  lemma AcquireRefines(m: State, s: Tiers.State, t: Thread)
    requires Stands(m, s) && Tiers.Placed(s) && Tiers.Locked(s) && Tiers.Enabled(s, Tiers.Acquire(t)) &&
      Ready(m, Tiers.Acquire(t))
    ensures Stands(Do(m, Tiers.Acquire(t)), Tiers.Apply(s, Tiers.Acquire(t)))
  {
    assert CacheStands(m.caches[t], s.workers[t], m.word);
    StepStands(m, s, Do(m, Tiers.Acquire(t)), Tiers.Apply(s, Tiers.Acquire(t)), t);
  }

  lemma LoadRefines(m: State, s: Tiers.State, t: Thread)
    requires Stands(m, s) && Tiers.Placed(s) && Tiers.Locked(s) && Tiers.Enabled(s, Tiers.Load(t)) &&
      Ready(m, Tiers.Load(t))
    ensures Stands(Do(m, Tiers.Load(t)), Tiers.Apply(s, Tiers.Load(t)))
  {
    assert CacheStands(m.caches[t], s.workers[t], m.word);
    StepStands(m, s, Do(m, Tiers.Load(t)), Tiers.Apply(s, Tiers.Load(t)), t);
  }

  lemma UnlockRefines(m: State, s: Tiers.State, t: Thread)
    requires Stands(m, s) && Tiers.Placed(s) && Tiers.Locked(s) && Tiers.Enabled(s, Tiers.Unlock(t)) &&
      Ready(m, Tiers.Unlock(t))
    ensures Stands(Do(m, Tiers.Unlock(t)), Tiers.Apply(s, Tiers.Unlock(t)))
  {
    assert CacheStands(m.caches[t], s.workers[t], m.word);
    StepStands(m, s, Do(m, Tiers.Unlock(t)), Tiers.Apply(s, Tiers.Unlock(t)), t);
  }

  lemma HandOverRefines(m: State, s: Tiers.State, step: Tiers.Step)
    requires Stands(m, s) && Tiers.Enabled(s, step) && step.HandOver? && Known(Tiers.Apply(s, step).place, m.word)
    ensures Stands(m, Tiers.Apply(s, step))
  {
    var s' := Tiers.Apply(s, step);
    assert s'.workers.Keys == s.workers.Keys;
    forall u | u in s'.workers
      ensures CacheStands(m.caches[u], s'.workers[u], m.word)
    {
      assert s'.workers[u].local == s.workers[u].local && s'.workers[u].pc == s.workers[u].pc;
    }
  }

  lemma FinishOwn(c: Cache, w: Tiers.Worker, word: map<Address, Address>)
    requires CacheStands(c, w, word) && w.pc.FetchDone? && w.local.list == []
    ensures c.pc.FetchDone?
    ensures w.pc.got.None? ==> c.pc.res == NULL
    ensures w.pc.got.Some? ==> var b := w.pc.got.value;
      b == c.pc.res != NULL && b in word &&
      CacheStands(Cache(word[b], Wrap(c.size + Length(word, b, |word|)), Idle), Tiers.Received(w, b), word)
  {
    if w.pc.got.Some? {
      LengthOfOne(word, w.pc.got.value);
    }
  }

  /** Only the cache of one thread changes, and no word. */
  lemma FinishGot(m: State, s: Tiers.State, t: Thread)
    requires Stands(m, s) && t in s.workers
    requires s.workers[t].pc.FetchDone? && s.workers[t].pc.got.Some? && s.workers[t].local.list == []
    requires Known(Tiers.ApplyFinish(s, t, s.workers[t]).place, m.word)
    ensures m.caches[t].pc.FetchDone?
    ensures Stands(DoFinish(m, t, m.caches[t]), Tiers.ApplyFinish(s, t, s.workers[t]))
  {
    FinishOwn(m.caches[t], s.workers[t], m.word);
  }

  lemma FinishFailed(m: State, s: Tiers.State, t: Thread)
    requires Stands(m, s) && Tiers.Placed(s) && Tiers.Locked(s) && t in s.workers
    requires s.workers[t].pc.FetchDone? && s.workers[t].pc.got.None?
    ensures m.caches[t].pc.FetchDone?
    ensures Stands(DoFinish(m, t, m.caches[t]), Tiers.ApplyFinish(s, t, s.workers[t]))
  {
    assert CacheStands(m.caches[t], s.workers[t], m.word);
    StepStands(m, s, DoFinish(m, t, m.caches[t]), Tiers.ApplyFinish(s, t, s.workers[t]), t);
  }

  // The store of a fetch.

  /** The head of the central list leaves it, cut off from the rest. */
  lemma HeadTaken(word: map<Address, Address>, head: Address, list: seq<Address>)
    requires Linked(head, word, list) && Distinct(list) && list != []
    ensures head == list[0] && head in word && head != NULL
    ensures Linked(word[head], word[head := NULL], list[1..]) && Linked(head, word[head := NULL], [head])
  {
    CutBehind(head, word, list, 0);
    LinkedNext(head, word, list, 0);
    assert list[..1] == [head] && list[0+1..] == list[1..];
  }

  /** The thread in its critical section: what it has loaded is the central list, and its own list is empty. */
  ghost predicate Loaded(s: Tiers.State, t: Thread) {
    && t in s.workers && s.workers[t].pc.FetchLoaded? && s.workers[t].pc.seen == s.central
    && s.lock == Some(t) && s.workers[t].local.list == []
  }

  lemma TakeRefines(m: State, s: Tiers.State, t: Thread)
    requires Stands(m, s) && Tiers.Placed(s) && Tiers.Locked(s) && Loaded(s, t) && s.central != []
    requires Known(Tiers.ApplyStore(s, t, s.workers[t], None).place, m.word)
    ensures m.caches[t].pc.FetchLoaded?
    ensures Stands(DoFetchStore(m, t, m.caches[t], None), Tiers.ApplyStore(s, t, s.workers[t], None))
  {
    var c, w := m.caches[t], s.workers[t];
    assert CacheStands(c, w, m.word);
    HeadTaken(m.word, c.pc.seen, s.central);
    assert s.central[0] in s.central;
    StepStands(m, s, DoFetchStore(m, t, c, None), Tiers.ApplyStore(s, t, w, None), t);
  }

  lemma CarvedWord(word: map<Address, Address>, start: Address, size: nat, k: nat)
    requires size > 0 && start != NULL && 0 < k < |Blocks(start, size)|
    ensures var blocks := Blocks(start, size); var word' := CarvedWords(word, blocks, size);
      blocks[k] in word' && word'[blocks[k]] == NextIn(blocks, k)
  {
    var blocks := Blocks(start, size);
    BlocksDistinct(start, size);
    assert blocks[k] != blocks[0];
    if k < |blocks| - 1 {
      assert blocks[k] != blocks[|blocks|-1] && blocks[k+1] == start + (k + 1) * size == blocks[k] + size;
    }
  }

  /** The carved blocks behind the first are a list, and the first stands alone. */
  lemma CarvedIsLinked(word: map<Address, Address>, start: Address, size: nat)
    requires size > 0 && start != NULL
    ensures var blocks := Blocks(start, size); var word' := CarvedWords(word, blocks, size);
      && Linked(start, word', [start])
      && Linked(if |blocks| > 1 then blocks[1] else NULL, word', blocks[1..])
  {
    var blocks := Blocks(start, size);
    var word' := CarvedWords(word, blocks, size);
    BlocksDistinct(start, size);
    assert start in blocks && word'[start] == NULL && [start][1..] == [];
    if |blocks| > 1 {
      var rest := blocks[1..];
      forall k | 0 <= k < |rest|
        ensures rest[k] in word' && word'[rest[k]] == NextIn(rest, k)
      {
        CarvedWord(word, start, size, k + 1);
        assert NextIn(rest, k) == NextIn(blocks, k + 1);
      }
      LinkedFromWords(word', rest);
    }
  }

  lemma CarvedKnown(s: Tiers.State, t: Thread, word: map<Address, Address>, start: Address)
    requires Tiers.Inv(s) && Known(s.place, word) && Tiers.Enabled(s, Tiers.Store(t, Some(start))) && s.central == []
    ensures var blocks := Blocks(start, ClassBytes(s.index));
      Known(Tiers.ApplyStore(s, t, s.workers[t], Some(blocks)).place, CarvedWords(word, blocks, ClassBytes(s.index)))
  {
    BlocksDistinct(start, ClassBytes(s.index));
    Tiers.OnlyCarvingMakes(s, Tiers.Store(t, Some(start)));
  }

  lemma CarveStands(m: State, s: Tiers.State, t: Thread, start: Address)
    requires Stands(m, s) && Tiers.Placed(s) && Tiers.Locked(s) && Loaded(s, t) && s.central == [] &&
      Tiers.IsNewSpan(s, start)
    requires var blocks := Blocks(start, ClassBytes(s.index));
      Known(Tiers.ApplyStore(s, t, s.workers[t], Some(blocks)).place, CarvedWords(m.word, blocks, ClassBytes(s.index)))
    ensures m.caches[t].pc.FetchLoaded?
    ensures Stands(DoFetchStore(m, t, m.caches[t], Some(start)),
      Tiers.ApplyStore(s, t, s.workers[t], Tiers.Carved(s.index, Some(start))))
  {
    var c, w := m.caches[t], s.workers[t];
    var blocks := Blocks(start, ClassBytes(s.index));
    assert CacheStands(c, w, m.word);
    CarvedIsLinked(m.word, start, ClassBytes(s.index));
    BlocksDistinct(start, ClassBytes(s.index));
    StepStands(m, s, DoFetchStore(m, t, c, Some(start)), Tiers.ApplyStore(s, t, w, Some(blocks)), t);
  }

  /** Carving a span links its blocks and leaves every other list as it was. */
  lemma CarveRefines(m: State, s: Tiers.State, t: Thread, start: Address)
    requires Stands(m, s) && Tiers.Inv(s) && Tiers.Enabled(s, Tiers.Store(t, Some(start))) && Loaded(s, t) &&
      s.central == []
    ensures m.caches[t].pc.FetchLoaded?
    ensures Stands(DoFetchStore(m, t, m.caches[t], Some(start)),
      Tiers.ApplyStore(s, t, s.workers[t], Tiers.Carved(s.index, Some(start))))
  {
    CarvedKnown(s, t, m.word, start);
    CarveStands(m, s, t, start);
  }

  lemma FailRefines(m: State, s: Tiers.State, t: Thread)
    requires Stands(m, s) && Tiers.Placed(s) && Tiers.Locked(s) && Loaded(s, t) && s.central == []
    ensures m.caches[t].pc.FetchLoaded?
    ensures Stands(DoFetchStore(m, t, m.caches[t], None), Tiers.ApplyStore(s, t, s.workers[t], None))
  {
    var c, w := m.caches[t], s.workers[t];
    assert CacheStands(c, w, m.word);
    StepStands(m, s, DoFetchStore(m, t, c, None), Tiers.ApplyStore(s, t, w, None), t);
  }

  lemma FetchStoreRefines(m: State, s: Tiers.State, t: Thread, span: Option<Address>)
    requires Stands(m, s) && Tiers.Inv(s) && Tiers.Enabled(s, Tiers.Store(t, span)) && s.workers[t].pc.FetchLoaded?
    ensures m.caches[t].pc.FetchLoaded?
    ensures Stands(DoFetchStore(m, t, m.caches[t], span),
      Tiers.ApplyStore(s, t, s.workers[t], Tiers.Carved(s.index, span)))
  {
    if s.central != [] {
      TakeRefines(m, s, t);
    } else if span.Some? {
      CarveRefines(m, s, t, span.value);
    } else {
      FailRefines(m, s, t);
    }
  }

  // The store of a give-back.

  /** The walk stops at the last accepted block, and the store there joins the two lists. */
  lemma ReturnJoins(word: map<Address, Address>, start: Address, chain: seq<Address>, limit: nat,
      seen: Address, central: seq<Address>)
    requires Linked(start, word, chain) && Distinct(chain) && chain != []
    requires Linked(seen, word, central) && Distinct(central) && Apart(chain, central)
    ensures var end := EndOf(word, start, if limit < 1 then 0 else limit - 1);
      end in chain && Linked(start, word[end := seen], chain[..Accepted(|chain|, limit)] + central)
  {
    var k := Accepted(|chain|, limit);
    EndOfIs(start, word, chain, if limit < 1 then 0 else limit - 1);
    assert EndOf(word, start, if limit < 1 then 0 else limit - 1) == chain[k-1];
    LinkedFront(start, word, chain, k, central, seen);
  }

  lemma ReturnStoreStands(m: State, s: Tiers.State, t: Thread)
    requires Stands(m, s) && Tiers.Placed(s) && Tiers.Locked(s) && t in s.workers && s.workers[t].pc.ReturnLoaded?
    requires s.workers[t].pc.seen == s.central && Known(Tiers.ApplyStore(s, t, s.workers[t], None).place, m.word)
    ensures m.caches[t].pc.ReturnLoaded?
    ensures Stands(DoReturnStore(m, t, m.caches[t]), Tiers.ApplyStore(s, t, s.workers[t], None))
  {
    var c, w := m.caches[t], s.workers[t];
    assert CacheStands(c, w, m.word);
    assert Tiers.WorkerPlaced(t, w, s.place);
    assert Tiers.Transit(w.pc) == w.pc.chain;
    ReturnJoins(m.word, c.pc.start, w.pc.chain, w.pc.limit, c.pc.seen, s.central);
    var end := EndOf(m.word, c.pc.start, if c.pc.limit < 1 then 0 else c.pc.limit - 1);
    LinkedElsewhere(c.head, m.word, w.local.list, end, c.pc.seen);
    StepStands(m, s, DoReturnStore(m, t, c), Tiers.ApplyStore(s, t, w, None), t);
  }

  /** The walk along the chain and the two stores splice its accepted front before the central list. */
  lemma ReturnStoreRefines(m: State, s: Tiers.State, t: Thread)
    requires Stands(m, s) && Tiers.Inv(s) && Tiers.Enabled(s, Tiers.Store(t, None)) && s.workers[t].pc.ReturnLoaded?
    ensures m.caches[t].pc.ReturnLoaded?
    ensures Stands(DoReturnStore(m, t, m.caches[t]), Tiers.ApplyStore(s, t, s.workers[t], None))
  {
    assert Tiers.LockRespected(s.workers[t].pc, t, s.lock, s.central);
    ReturnStoreStands(m, s, t);
  }

  // A free.

  /** The freed block heads the list. */
  lemma PushLinks(word: map<Address, Address>, head: Address, list: seq<Address>, b: Address)
    requires Linked(head, word, list) && Distinct(list) && b !in list && b != NULL
    ensures Linked(b, word[b := head], [b] + list) && Distinct([b] + list)
  {
    LinkedElsewhere(head, word, list, b, head);
    LinkFirst(head, word[b := head], list, b);
  }

  /** The walk over the links to keep ends on the node to cut behind, and the cut leaves two lists. */
  lemma CutLinks(word: map<Address, Address>, head: Address, list: seq<Address>, keep: nat)
    requires Linked(head, word, list) && Distinct(list)
    ensures NodeAt(word, head, keep) == if keep < |list| then list[keep] else NULL
    ensures keep < |list| ==>
      var split := list[keep];
      && split != NULL && split in word && word[split] == NextIn(list, keep) &&
        (word[split] == NULL <==> keep + 1 == |list|)
      && Linked(head, word[split := NULL], list[..keep+1]) && Linked(word[split], word[split := NULL], list[keep+1..])
  {
    NodeAtIs(head, word, list, keep);
    if keep < |list| {
      LinkedNext(head, word, list, keep);
      CutBehind(head, word, list, keep);
      if keep + 1 < |list| {
        LinkedNext(head, word, list, keep + 1);
      }
    }
  }

  /** What the freeing thread's pointers stand for afterwards. */
  lemma FreeStands(m: State, t: Thread, c: Cache, w: Tiers.Worker, b: Address, bytes: nat)
    requires CacheStands(c, w, m.word) && w.pc.Idle? && Distinct(w.local.list) && b !in w.local.list && b != NULL
    ensures var m' := DoFree(m, t, c, b, bytes); var l := Pushed(w.local, b);
      && m'.caches == m.caches[t := m'.caches[t]] && m'.central == m.central && m'.index == m.index && m'.lock == m.lock
      && CacheStands(m'.caches[t], if l.size > THRESHOLD && Cuts(l) then Tiers.GivenBack(w, l, b, bytes)
                                   else w.(local := l, held := w.held - {b}), m'.word)
  {
    var l := Pushed(w.local, b);
    PushLinks(m.word, c.head, w.local.list, b);
    CutLinks(m.word[b := c.head], b, l.list, Keep(l.size));
  }

  /** Its stores go to the block and to its own list. */
  lemma FreeTouches(m: State, t: Thread, c: Cache, w: Tiers.Worker, b: Address, bytes: nat)
    requires CacheStands(c, w, m.word) && Distinct(w.local.list) && b !in w.local.list && b != NULL
    ensures var word' := DoFree(m, t, c, b, bytes).word;
      forall x :: x in m.word ==> x in word' && (x != b && x !in w.local.list ==> word'[x] == m.word[x])
  {
    var l := Pushed(w.local, b);
    PushLinks(m.word, c.head, w.local.list, b);
    CutLinks(m.word[b := c.head], b, l.list, Keep(l.size));
  }

  /** The freed block and the list are the thread's, apart from one another and from the central list. */
  lemma FreeOwns(s: Tiers.State, t: Thread, b: Address)
    requires Tiers.Placed(s) && t in s.workers && b in s.workers[t].held && NULL !in s.place
    ensures b !in s.workers[t].local.list && b != NULL && Distinct(s.workers[t].local.list)
    ensures MayTouch(s, t, b) && forall x :: x in s.workers[t].local.list ==> MayTouch(s, t, x)
    ensures b !in s.central && forall x :: x in s.workers[t].local.list ==> x !in s.central
  {
    assert Tiers.WorkerPlaced(t, s.workers[t], s.place);
  }

  lemma FreeStepStands(m: State, s: Tiers.State, t: Thread, b: Address, bytes: nat)
    requires Stands(m, s) && Tiers.Placed(s) && Tiers.Locked(s) && t in s.workers && s.workers[t].pc.Idle? &&
      b in s.workers[t].held
    requires Known(Tiers.ApplyFree(s, t, s.workers[t], b, bytes).place, m.word)
    ensures Stands(DoFree(m, t, m.caches[t], b, bytes), Tiers.ApplyFree(s, t, s.workers[t], b, bytes))
  {
    var c, w := m.caches[t], s.workers[t];
    var m' := DoFree(m, t, c, b, bytes);
    FreeOwns(s, t, b);
    FreeStands(m, t, c, w, b, bytes);
    FreeTouches(m, t, c, w, b, bytes);
    LinkedFrame(m.central, m.word, m'.word, s.central);
    StepStands(m, s, m', Tiers.ApplyFree(s, t, w, b, bytes), t);
  }

  /** The push, the walk, the cut and the counter do to the lists what they should. */
  lemma FreeRefines(m: State, s: Tiers.State, t: Thread, b: Address, bytes: nat)
    requires Stands(m, s) && Tiers.Inv(s) && Tiers.Enabled(s, Tiers.Free(t, b, bytes))
    ensures Stands(DoFree(m, t, m.caches[t], b, bytes), Tiers.ApplyFree(s, t, s.workers[t], b, bytes))
  {
    KnownStays(m, s, Tiers.Free(t, b, bytes));
    FreeStepStands(m, s, t, b, bytes);
  }

  /** A user's store into a block it holds changes no list. */
  lemma WriteRefines(m: State, s: Tiers.State, t: Thread, b: Address, v: Address)
    requires Stands(m, s) && Tiers.Inv(s) && t in s.workers && b in s.workers[t].held
    ensures Stands(m.(word := m.word[b := v]), s)
  {
    WriteOwn(m.caches[t], s.workers[t], m.word, s, t, b, v);
    LinkedFrame(m.central, m.word, m.word[b := v], s.central);
    var m' := m.(word := m.word[b := v]);
    assert m.caches == m.caches[t := m.caches[t]] && s.workers == s.workers[t := s.workers[t]];
    StepStands(m, s, m', s, t);
  }

  lemma WriteOwn(c: Cache, w: Tiers.Worker, word: map<Address, Address>, s: Tiers.State, t: Thread, b: Address,
      v: Address)
    requires CacheStands(c, w, word) && Tiers.Inv(s) && t in s.workers && s.workers[t] == w && b in w.held
    ensures CacheStands(c, w, word[b := v])
  {
    assert Tiers.WorkerPlaced(t, w, s.place);
    assert Tiers.LockRespected(w.pc, t, s.lock, s.central);
    StandsElsewhere(c, w, word, word[b := v]);
  }

  // ---------------------------------------------------------------- refinement

  /** What users and the page cache owe: they free, hand over and write to blocks they hold, told sizes are of
      the class, and spans are new. */
  predicate Disciplined(s: Tiers.State, step: Step) {
    match step
    case Write(t, b, _) => t in s.workers && b in s.workers[t].held
    case Cached(Free(t, b, bytes)) =>
      t in s.workers && b in s.workers[t].held && bytes <= MAX_BYTES && GetIndex(bytes) == s.index
    case Cached(HandOver(t, to, b)) => t in s.workers && b in s.workers[t].held && to != t
    case Cached(Store(_, span)) => span.Some? ==> Tiers.IsNewSpan(s, span.value)
    case _ => true
  }

  predicate MayStep(m: State, step: Step) {
    step.Cached? ==> Ready(m, step.step)
  }

  function Next(m: State, step: Step): State
    requires MayStep(m, step)
  {
    match step
    case Cached(cached) => Do(m, cached)
    case Write(_, b, v) => m.(word := m.word[b := v])
  }

  /** The same step on the lists; a user's store is none. */
  function NextLists(s: Tiers.State, step: Step): Tiers.State
    requires step.Cached? ==> Tiers.Enabled(s, step.step)
  {
    if step.Cached? then Tiers.Apply(s, step.step) else s
  }

  /** A step that pointers and lock allow, of disciplined users, is one that the lists allow. */
  lemma CachedRefines(m: State, s: Tiers.State, step: Tiers.Step)
    requires Stands(m, s) && Tiers.Inv(s) && Ready(m, step) && Tiers.Enabled(s, step)
    ensures Stands(Do(m, step), Tiers.Apply(s, step))
  {
    var t := step.t;
    assert CacheStands(m.caches[t], s.workers[t], m.word);
    match step
    case Allocate(_) => KnownStays(m, s, step); AllocateRefines(m, s, t);
    case Acquire(_) => AcquireRefines(m, s, t);
    case Load(_) => LoadRefines(m, s, t);
    case Store(_, span) => StoreRefines(m, s, t, span);
    case Unlock(_) => UnlockRefines(m, s, t);
    case Finish(_) => FinishRefines(m, s, t);
    case Free(_, b, bytes) => FreeRefines(m, s, t, b, bytes);
    case HandOver(_, _, _) => KnownStays(m, s, step); HandOverRefines(m, s, step);
  }

  lemma FinishRefines(m: State, s: Tiers.State, t: Thread)
    requires Stands(m, s) && Tiers.Inv(s) && Tiers.Enabled(s, Tiers.Finish(t))
    ensures m.caches[t].pc.FetchDone?
    ensures Stands(DoFinish(m, t, m.caches[t]), Tiers.ApplyFinish(s, t, s.workers[t]))
  {
    if s.workers[t].pc.got.Some? {
      assert Tiers.Counted(s.workers[t]);
      KnownStays(m, s, Tiers.Finish(t));
      FinishGot(m, s, t);
    } else {
      FinishFailed(m, s, t);
    }
  }

  lemma StoreRefines(m: State, s: Tiers.State, t: Thread, span: Option<Address>)
    requires Stands(m, s) && Tiers.Inv(s) && Tiers.Enabled(s, Tiers.Store(t, span)) && Ready(m, Tiers.Store(t, span))
    ensures Stands(Do(m, Tiers.Store(t, span)), Tiers.Apply(s, Tiers.Store(t, span)))
  {
    assert CacheStands(m.caches[t], s.workers[t], m.word);
    if s.workers[t].pc.FetchLoaded? {
      FetchStoreRefines(m, s, t, span);
    } else {
      ReturnStoreRefines(m, s, t);
    }
  }

  /** Each step of the pointers is the step of the lists. */
  lemma StepRefines(m: State, s: Tiers.State, step: Step)
    requires Stands(m, s) && Tiers.Inv(s) && MayStep(m, step) && Disciplined(s, step)
    ensures step.Cached? ==> Tiers.Enabled(s, step.step)
    ensures Stands(Next(m, step), NextLists(s, step)) && Tiers.Inv(NextLists(s, step))
  {
    match step
    case Cached(cached) =>
      CachedRefines(m, s, cached);
      Tiers.StepKeeps(s, cached);
    case Write(t, b, v) => WriteRefines(m, s, t, b, v);
  }

  /** The pointers make the steps, and the lists follow. */
  ghost predicate Runs(m: State, s: Tiers.State, steps: seq<Step>, m': State, s': Tiers.State)
    decreases |steps|
  {
    if steps == [] then m' == m && s' == s
    else
      && MayStep(m, steps[0]) && Disciplined(s, steps[0])
      && (steps[0].Cached? ==> Tiers.Enabled(s, steps[0].step))
      && Runs(Next(m, steps[0]), NextLists(s, steps[0]), steps[1..], m', s')
  }

  predicate Init(m: State) {
    && m.central == NULL && m.lock == None && m.word == map[]
    && forall t :: t in m.caches ==> m.caches[t] == Cache(NULL, 0, Idle)
  }

  /** No thread and no block yet, on both sides. */
  predicate InitTogether(m: State, s: Tiers.State) {
    Init(m) && Tiers.Init(s) && m.index == s.index && m.caches.Keys == s.workers.Keys
  }

  lemma InitStands(m: State, s: Tiers.State)
    requires InitTogether(m, s)
    ensures Stands(m, s) && Tiers.Inv(s)
  {
    Tiers.InitInv(s);
  }

  lemma {:induction false} RunRefines(m: State, s: Tiers.State, steps: seq<Step>, m': State, s': Tiers.State)
    requires Stands(m, s) && Tiers.Inv(s) && Runs(m, s, steps, m', s')
    ensures Stands(m', s') && Tiers.Inv(s')
    decreases |steps|
  {
    if steps != [] {
      StepRefines(m, s, steps[0]);
      RunRefines(Next(m, steps[0]), NextLists(s, steps[0]), steps[1..], m', s');
    }
  }

  /** In every run of any number of threads, whatever the users write into the blocks they hold: from every
      list head, of a thread or of the central cache, the words of memory lead through exactly the blocks of
      that list to null, the counters are those of the lists, and a step that pointers, lock and discipline
      allow is never stuck. */
  lemma EveryRunIsLinked(m: State, s: Tiers.State, steps: seq<Step>, m': State, s': Tiers.State, next: Step)
    requires InitTogether(m, s) && Runs(m, s, steps, m', s')
    ensures Linked(m'.central, m'.word, s'.central) && Tiers.Inv(s')
    ensures m'.caches.Keys == s'.workers.Keys
    ensures forall t :: t in s'.workers ==> Linked(m'.caches[t].head, m'.word, s'.workers[t].local.list)
    ensures forall t :: t in s'.workers ==> m'.caches[t].size == s'.workers[t].local.size
    ensures MayStep(m', next) && Disciplined(s', next) && next.Cached? ==> Tiers.Enabled(s', next.step)
    ensures next.Write? ==> Next(m', next) == m'.(word := m'.word[next.b := next.v])
  {
    InitStands(m, s);
    RunRefines(m, s, steps, m', s');
    forall t | t in s'.workers
      ensures t in m'.caches && CacheStands(m'.caches[t], s'.workers[t], m'.word)
    {
    }
    if MayStep(m', next) && Disciplined(s', next) {
      StepRefines(m', s', next);
    }
  }
}
