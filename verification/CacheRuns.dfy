/** Runs of the tiered cache in which it falls short.  One thread and the first size class are enough.

    `WrapRun` ends with a free that reads a wrapped counter: two fetches fail, each takes one off a counter
    that nothing puts back, and a third fetch succeeds.

    `LossRun` ends with lost blocks: 65 blocks are taken and freed with a told size of zero, the last free
    sends a chain back, and the byte limit that goes with the chain lets the central cache take one block
    of it.  The rest of the chain is on no list, and no thread holds it.

    Both are put together from whole fetches (`Fetch`) and frees (`FreeOne`), each a few steps.
*/
module CacheRuns {

  import opened IntrusiveList
  import opened SizeClasses
  import opened ThreadCache
  import opened CacheTiers

  // ---------------------------------------------------------------- reaching a state

  ghost predicate Reaches(s: State, s': State) {
    exists steps :: IsRun(s, steps) && After(s, steps) == s'
  }

  lemma ReachesItself(s: State)
    ensures Reaches(s, s)
  {
    assert IsRun(s, []) && After(s, []) == s;
  }

  lemma {:induction false} RunThen(s: State, steps: seq<Step>, step: Step)
    requires IsRun(s, steps) && Enabled(After(s, steps), step)
    ensures IsRun(s, steps + [step]) && After(s, steps + [step]) == Apply(After(s, steps), step)
    decreases |steps|
  {
    if steps == [] {
      assert IsRun(Apply(s, step), []) && [step][1..] == [];
    } else {
      RunThen(Apply(s, steps[0]), steps[1..], step);
      assert (steps + [step])[1..] == steps[1..] + [step];
    }
  }

  lemma Then(s: State, m: State, step: Step)
    requires Reaches(s, m) && Enabled(m, step)
    ensures Reaches(s, Apply(m, step))
  {
    var steps :| IsRun(s, steps) && After(s, steps) == m;
    RunThen(s, steps, step);
  }

  /** One thread, in the first class. */
  ghost predicate Alone(s: State, t: Thread, w: Worker, central: seq<Address>, lock: Option<Thread>) {
    s.workers == map[t := w] && s.central == central && s.lock == lock && s.index == 0
  }

  // ---------------------------------------------------------------- single steps

  /** The central list after a fetch, and what the fetch got. */
  function LeftBy(central: seq<Address>, span: Option<Address>): seq<Address> {
    if central != [] then central[1..] else if span.Some? then Blocks(span.value, ClassBytes(0))[1..] else []
  }

  function GotBy(central: seq<Address>, span: Option<Address>): Option<Address> {
    if central != [] then Some(central[0]) else span
  }

  lemma FetchStores(m: State, t: Thread, w: Worker, central: seq<Address>, span: Option<Address>)
    requires Alone(m, t, w, central, Some(t)) && w.pc == FetchLoaded(central) &&
      (span.Some? ==> IsNewSpan(m, span.value))
    ensures Enabled(m, Store(t, span))
    ensures var m' := Apply(m, Store(t, span));
      && Alone(m', t, w.(pc := FetchStored(GotBy(central, span))), LeftBy(central, span), Some(t))
      && (central == [] && span.None? ==> m'.place == m.place)
  {
    if span.Some? {
      BlocksDistinct(span.value, ClassBytes(0));
    }
  }

  function Finished(w: Worker, got: Option<Address>): Worker {
    if got.Some? then Received(w, got.value) else w.(pc := Idle, drift := w.drift + 1, failed := w.failed + 1)
  }

  lemma FreesBelow(m: State, t: Thread, w: Worker, central: seq<Address>, b: Address, bytes: nat)
    requires Alone(m, t, w, central, None) && w.pc.Idle? && b in w.held && bytes <= 8
    requires var l := Pushed(w.local, b); !(l.size > THRESHOLD && Cuts(l))
    ensures Enabled(m, Free(t, b, bytes))
    ensures Alone(Apply(m, Free(t, b, bytes)), t, w.(local := Pushed(w.local, b), held := w.held - {b}), central, None)
  {
  }

  // ---------------------------------------------------------------- one fetch

  /** A fetch up to its store. */
  lemma FetchBegins(s: State, m: State, t: Thread, w: Worker, central: seq<Address>) returns (m': State)
    requires Reaches(s, m) && Alone(m, t, w, central, None) && w.pc.Idle? && w.local.list == []
    ensures Reaches(s, m') && m'.place == m.place
    ensures Alone(m', t, w.(local := Decremented(w.local), pc := FetchLoaded(central)), central, Some(t))
  {
    Then(s, m, Allocate(t));
    var m1 := Apply(m, Allocate(t));
    Then(s, m1, Acquire(t));
    var m2 := Apply(m1, Acquire(t));
    Then(s, m2, Load(t));
    m' := Apply(m2, Load(t));
  }

  /** And from its store on. */
  lemma FetchEnds(s: State, m: State, t: Thread, w: Worker, central: seq<Address>, got: Option<Address>)
    returns (m': State)
    requires Reaches(s, m) && Alone(m, t, w, central, Some(t)) && w.pc == FetchStored(got)
    ensures Reaches(s, m') && (got.None? ==> m'.place == m.place)
    ensures Alone(m', t, Finished(w, got), central, None)
  {
    Then(s, m, Unlock(t));
    var m1 := Apply(m, Unlock(t));
    Then(s, m1, Finish(t));
    m' := Apply(m1, Finish(t));
    assert Finished(w.(pc := FetchDone(got)), got) == Finished(w, got);
  }

  /** A whole fetch: a block of the central list, or the first of the span, or nothing. */
  lemma Fetch(s: State, m: State, t: Thread, w: Worker, central: seq<Address>, span: Option<Address>)
    returns (m': State)
    requires Reaches(s, m) && Alone(m, t, w, central, None) && w.pc.Idle? && w.local.list == []
    requires span.Some? ==> IsNewSpan(m, span.value)
    ensures Reaches(s, m') && (central == [] && span.None? ==> m'.place == m.place)
    ensures Alone(m', t, Finished(w.(local := Decremented(w.local)), GotBy(central, span)), LeftBy(central, span), None)
  {
    var m1 := FetchBegins(s, m, t, w, central);
    var v := w.(local := Decremented(w.local), pc := FetchLoaded(central));
    var got := GotBy(central, span);
    FetchStores(m1, t, v, central, span);
    Then(s, m1, Store(t, span));
    m' := FetchEnds(s, Apply(m1, Store(t, span)), t, v.(pc := FetchStored(got)), LeftBy(central, span), got);
    assert Finished(v.(pc := FetchStored(got)), got) == Finished(w.(local := Decremented(w.local)), got);
  }

  // ---------------------------------------------------------------- a wrapped counter

  lemma Start(t: Thread) returns (s: State)
    ensures Init(s) && Reaches(s, s) && s.place == map[] && Alone(s, t, Worker(Local([], 0), Idle, {}, 0, 0), [], None)
  {
    s := State(0, map[t := Worker(Local([], 0), Idle, {}, 0, 0)], [], None, map[]);
    ReachesItself(s);
  }

  /** Two fetches that fail and one that succeeds: the free that follows reads 2^64 - 1 at its threshold test,
      and then finds nothing to cut. */
  lemma WrapRun(t: Thread) returns (s: State, m: State, m': State)
    ensures Init(s) && Reaches(s, m) && Enabled(m, Free(t, 8, 8)) && m' == Apply(m, Free(t, 8, 8)) && Reaches(s, m')
    ensures Pushed(m.workers[t].local, 8).size == WORD_RANGE - 1 > THRESHOLD
    ensures m'.workers[t].local == Local([8], WORD_RANGE - 1) && m'.workers[t].pc.Idle?
  {
    var w := Worker(Local([], 0), Idle, {}, 0, 0);
    s := Start(t);
    var m1 := Fetch(s, s, t, w, [], None);
    var w1 := w.(local := Local([], WORD_RANGE - 1), drift := 1, failed := 1);
    assert Finished(w.(local := Decremented(w.local)), None) == w1;
    var m2 := Fetch(s, m1, t, w1, [], None);
    var w2 := w.(local := Local([], WORD_RANGE - 2), drift := 2, failed := 2);
    assert Finished(w1.(local := Decremented(w1.local)), None) == w2;
    m := Fetch(s, m2, t, w2, [], Some(8));
    var w3 := w.(local := Local([], WORD_RANGE - 2), held := {8}, drift := 2, failed := 2);
    assert Finished(w2.(local := Decremented(w2.local)), Some(8)) == w3;
    assert Keep(WORD_RANGE - 1) > 1;
    FreesBelow(m, t, w3, Blocks(8, ClassBytes(0))[1..], 8, 8);
    Then(s, m, Free(t, 8, 8));
    m' := Apply(m, Free(t, 8, 8));
  }

  // ---------------------------------------------------------------- lost blocks

  /** `n` blocks are fetched, one by one. */
  lemma {:induction false} Fetches(s: State, m: State, t: Thread, w: Worker, central: seq<Address>, n: nat)
    returns (m': State, w': Worker)
    requires Reaches(s, m) && Alone(m, t, w, central, None) && w.pc.Idle? && w.local == Local([], 0) && n <= |central|
    ensures Reaches(s, m') && Alone(m', t, w', central[n..], None) && w' == w.(held := w'.held)
    ensures w.held <= w'.held && forall k :: 0 <= k < n ==> central[k] in w'.held
    decreases n
  {
    if n == 0 {
      m', w' := m, w;
      assert central[0..] == central;
    } else {
      var m1 := Fetch(s, m, t, w, central, None);
      var w1 := w.(held := w.held + {central[0]});
      assert Finished(w.(local := Decremented(w.local)), Some(central[0])) == w1;
      m', w' := Fetches(s, m1, t, w1, central[1..], n - 1);
      assert central[1..][n-1..] == central[n..];
      forall k | 0 <= k < n
        ensures central[k] in w'.held
      {
        assert k > 0 ==> central[k] == central[1..][k-1];
      }
    }
  }

  /** One free below the threshold. */
  lemma FreeOne(s: State, m: State, t: Thread, w: Worker, central: seq<Address>, b: Address)
    returns (m': State, w': Worker)
    requires Reaches(s, m) && Alone(m, t, w, central, None) && w.pc.Idle? && b in w.held
    requires w.local.size == |w.local.list| < THRESHOLD
    ensures Reaches(s, m') && Alone(m', t, w', central, None) && w' == w.(local := w'.local, held := w.held - {b})
    ensures w'.local.size == |w'.local.list| == |w.local.list| + 1
  {
    w' := w.(local := Pushed(w.local, b), held := w.held - {b});
    FreesBelow(m, t, w, central, b, 0);
    Then(s, m, Free(t, b, 0));
    m' := Apply(m, Free(t, b, 0));
  }

  /** The blocks of `free` are freed, one by one, below the threshold. */
  lemma {:induction false} Frees(s: State, m: State, t: Thread, w: Worker, central: seq<Address>, free: seq<Address>)
    returns (m': State, w': Worker)
    requires Reaches(s, m) && Alone(m, t, w, central, None) && w.pc.Idle?
    requires w.local.size == |w.local.list| && |w.local.list| + |free| <= THRESHOLD
    requires Distinct(free) && forall b :: b in free ==> b in w.held
    ensures Reaches(s, m') && Alone(m', t, w', central, None) && w' == w.(local := w'.local, held := w'.held)
    ensures w'.local.size == |w'.local.list| == |w.local.list| + |free|
    ensures forall b :: b in w.held && b !in free ==> b in w'.held
    decreases |free|
  {
    if free == [] {
      m', w' := m, w;
    } else {
      var rest := free[1..];
      var m1, w1 := FreeOne(s, m, t, w, central, free[0]);
      m', w' := Frees(s, m1, t, w1, central, rest);
    }
  }

  lemma FreesOver(m: State, t: Thread, w: Worker, central: seq<Address>, b: Address)
    requires Alone(m, t, w, central, None) && w.pc.Idle? && b in w.held
    requires var l := Pushed(w.local, b); l.size > THRESHOLD && Cuts(l)
    ensures Enabled(m, Free(t, b, 0)) &&
      Alone(Apply(m, Free(t, b, 0)), t, GivenBack(w, Pushed(w.local, b), b, 0), central, None)
  {
  }

  /** The free that crosses the threshold, told zero bytes, and its give-back. */
  lemma GiveBackLoses(s: State, m: State, t: Thread, w: Worker, central: seq<Address>, b: Address) returns (m': State)
    requires Reaches(s, m) && Alone(m, t, w, central, None) && w.pc.Idle? && b in w.held
    requires w.local.size == |w.local.list| == THRESHOLD
    ensures Reaches(s, m') && !NothingLost(m'.place)
  {
    var l := Pushed(w.local, b);
    var chain := CutOff(l);
    assert |chain| == 48 && ReturnLimit(l.size, 0) == 0;
    FreesOver(m, t, w, central, b);
    Then(s, m, Free(t, b, 0));
    m' := ReturnLoses(s, Apply(m, Free(t, b, 0)), t, GivenBack(w, l, b, 0), central, chain);
  }

  lemma ReturnLoses(s: State, m: State, t: Thread, w: Worker, central: seq<Address>, chain: seq<Address>)
    returns (m': State)
    requires Reaches(s, m) && Alone(m, t, w, central, None) && w.pc == ReturnWait(chain, 0) && |chain| > 1
    ensures Reaches(s, m') && !NothingLost(m'.place)
  {
    Then(s, m, Acquire(t));
    var m1 := Apply(m, Acquire(t));
    Then(s, m1, Load(t));
    var m2 := Apply(m1, Load(t));
    Then(s, m2, Store(t, None));
    m' := Apply(m2, Store(t, None));
    StoreLoses(m2, Store(t, None));
  }

  /** One thread takes 65 blocks and frees them, telling zero bytes each time, as a caller may in the first
      class: the last free gives part of the list back, and blocks are lost. */
  lemma LossRun(t: Thread) returns (s: State, m': State)
    ensures Init(s) && Reaches(s, m') && !NothingLost(m'.place)
  {
    s := Start(t);
    var blocks := Blocks(8, ClassBytes(0));
    BlocksDistinct(8, ClassBytes(0));
    assert |blocks| == 4096;
    var w := Worker(Local([], 0), Idle, {}, 0, 0);
    var m1 := Fetch(s, s, t, w, [], Some(8));
    var w1 := w.(held := {8});
    assert Finished(w.(local := Decremented(w.local)), Some(8)) == w1;
    var m2, w2 := Fetches(s, m1, t, w1, blocks[1..], 64);
    HeldBlocks(blocks, w2.held);
    var free := blocks[..64];
    assert forall i :: 0 <= i < |free| ==> free[i] == blocks[i];
    var m3, w3 := Frees(s, m2, t, w2, blocks[1..][64..], free);
    m' := GiveBackLoses(s, m3, t, w3, blocks[1..][64..], blocks[64]);
  }

  lemma HeldBlocks(blocks: seq<Address>, held: set<Address>)
    requires |blocks| > 64 && blocks[0] in held && forall k :: 0 <= k < 64 ==> blocks[1..][k] in held
    ensures forall k :: 0 <= k <= 64 ==> blocks[k] in held
  {
    forall k | 0 <= k <= 64
      ensures blocks[k] in held
    {
      if k > 0 {
        var j := k - 1;
        assert blocks[1..][j] == blocks[k];
      }
    }
  }
}
