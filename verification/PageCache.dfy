/** The page-span cache (cpp_learning_projects/memory-mgkl/src/PageCache.cpp:16-124).

    Addresses are counted in pages: every span starts on a page and mmap returns whole pages.  The
    nodes of a free list and the entries of `spanMap_` are shared Span objects in the program; here they
    are values, and that the two containers agree about every span is part of the invariant.
*/
module PageCache {

  // `deallocateSpan` can leave a key of `freeSpans_` with an empty list, and `allocateSpan` dereferences the
  // head of the list it finds without looking.  Both are kept: allocation has a `Crash` outcome, `CrashIff`
  // says when it occurs, `EmptyKeyIff` says which releases prepare it, and `CrashRun` is a run of ordinary
  // calls that reaches it.

  datatype Option<+T> = None | Some(value: T)

  datatype Span = Span(page: nat, count: nat)

  datatype Outcome = Pages(page: nat) | Failed | Crash

  /** Where a span stands with respect to callers. */
  datatype Status = Live | Free

  /** `free` and `index` are the program's two maps; `status` records all spans and `owner` the span
      to which each page obtained from the system belongs. */
  datatype State = State(
    free: map<nat, seq<Span>>,
    index: map<nat, Span>,
    status: map<Span, Status>,
    owner: map<nat, Span>)

  const EMPTY := State(map[], map[], map[], map[])

  predicate Within(x: nat, sp: Span) {
    sp.page <= x < sp.page + sp.count
  }

  // ---------------------------------------------------------------- the invariant

  /** List `k` holds exactly the k-page free spans, each once. */
  ghost predicate ListAgrees(list: seq<Span>, k: nat, status: map<Span, Status>) {
    && (forall i, j :: 0 <= i < j < |list| ==> list[i] != list[j])
    && (forall sp :: sp in list <==> sp.count == k && sp in status && status[sp] == Free)
  }

  /** Every list agrees with the spans' status, and a key without a list stands for no free span. */
  ghost predicate ListsAgree(free: map<nat, seq<Span>>, status: map<Span, Status>) {
    forall k :: ListAgrees(ListAt(free, k), k, status)
  }

  /** `index` has no stale address: each entry is a span that starts there; every live span has one. */
  ghost predicate IndexAgrees(index: map<nat, Span>, status: map<Span, Status>) {
    && (forall a :: a in index ==> index[a].page == a && index[a] in status)
    && (forall sp :: sp in status && status[sp] == Live ==> sp.page in index && index[sp.page] == sp)
  }

  /** The spans tile the pages obtained from the system: each page lies in exactly one span. */
  ghost predicate Tiled(status: map<Span, Status>, owner: map<nat, Span>) {
    && (forall sp :: sp in status ==> sp.count >= 1)
    && (forall x :: x in owner ==> owner[x] in status && Within(x, owner[x]))
    && (forall sp, x :: sp in status && Within(x, sp) ==> x in owner && owner[x] == sp)
  }

  ghost predicate Inv(s: State) {
    ListsAgree(s.free, s.status) && IndexAgrees(s.index, s.status) && Tiled(s.status, s.owner)
  }

  // ---------------------------------------------------------------- what the calls do

  /** `k` is what lower_bound(n) finds. */
  ghost predicate IsLowerBound(keys: set<nat>, n: nat, k: nat) {
    k in keys && n <= k && forall j :: j in keys && n <= j ==> k <= j
  }

  ghost predicate HasKeyFrom(keys: set<nat>, n: nat) {
    exists k :: k in keys && n <= k
  }

  lemma {:induction false} LowerBoundExists(keys: set<nat>, n: nat)
    requires HasKeyFrom(keys, n)
    ensures exists k :: IsLowerBound(keys, n, k)
    decreases keys
  {
    var k :| k in keys && n <= k;
    var below := set j | j in keys && n <= j < k;
    if below == {} {
      assert forall j :: j in keys && n <= j < k ==> j in below;
      assert IsLowerBound(keys, n, k);
    } else {
      var j :| j in below;
      assert below < keys && HasKeyFrom(below, n);
      LowerBoundExists(below, n);
      var m :| IsLowerBound(below, n, m);
      forall i | i in keys && n <= i
        ensures m <= i
      {
        assert i < k ==> i in below;
      }
      assert IsLowerBound(keys, n, m);
    }
  }

  ghost function LowerBound(keys: set<nat>, n: nat): (k: nat)
    requires HasKeyFrom(keys, n)
    ensures IsLowerBound(keys, n, k)
  {
    LowerBoundExists(keys, n);
    var k: nat :| IsLowerBound(keys, n, k);
    k
  }

  /** The list left after its head is taken: a key is erased with its last element. */
  function WithoutHead(free: map<nat, seq<Span>>, k: nat): map<nat, seq<Span>>
    requires k in free && free[k] != []
  {
    if |free[k]| > 1 then free[k := free[k][1..]] else free - {k}
  }

  function ListAt(free: map<nat, seq<Span>>, k: nat): seq<Span> {
    if k in free then free[k] else []
  }

  function PushFront(free: map<nat, seq<Span>>, sp: Span): map<nat, seq<Span>> {
    free[sp.count := [sp] + ListAt(free, sp.count)]
  }

  function SplitOwner(owner: map<nat, Span>, sp: Span, cut: Span, rest: Span): map<nat, Span> {
    map x | x in owner :: if owner[x] != sp then owner[x] else if Within(x, cut) then cut else rest
  }

  function MergedOwner(owner: map<nat, Span>, sp: Span, behind: Span, merged: Span): map<nat, Span> {
    map x | x in owner :: if owner[x] == sp || owner[x] == behind then merged else owner[x]
  }

  /** Take the head span of list `k` and give the caller its first `n` pages. */
  function TakeFrom(s: State, n: nat, k: nat): State
    requires k in s.free && s.free[k] != []
  {
    var sp := s.free[k][0];
    var free := WithoutHead(s.free, k);
    var cut := Span(sp.page, n);
    if k > n then
      var rest := Span(sp.page + n, k - n);
      State(PushFront(free, rest), s.index[sp.page := cut], (s.status - {sp})[cut := Live][rest := Free],
            SplitOwner(s.owner, sp, cut, rest))
    else
      State(free, s.index[sp.page := sp], s.status[sp := Live], s.owner)
  }

  function PagesOf(sp: Span): (m: map<nat, Span>)
    ensures forall x :: x in m <==> Within(x, sp)
    ensures forall x :: x in m ==> m[x] == sp
  {
    map x | sp.page <= x < sp.page + sp.count && Within(x, sp) :: sp
  }

  function TakeFromSystem(s: State, n: nat, memory: nat): State {
    var sp := Span(memory, n);
    State(s.free, s.index[memory := sp], s.status[sp := Live], s.owner + PagesOf(sp))
  }

  /** `allocateSpan(n)`, where `memory` is what the system would answer. */
  ghost function Allocate(s: State, n: nat, memory: Option<nat>): (State, Outcome) {
    if HasKeyFrom(s.free.Keys, n) then
      var k := LowerBound(s.free.Keys, n);
      if s.free[k] == [] then (s, Crash) else (TakeFrom(s, n, k), Pages(s.free[k][0].page))
    else if memory.None? then (s, Failed)
    else (TakeFromSystem(s, n, memory.value), Pages(memory.value))
  }

  /** The list without the first occurrence of `sp`. */
  function Remove(list: seq<Span>, sp: Span): seq<Span> {
    if list == [] then [] else if list[0] == sp then list[1..] else [list[0]] + Remove(list[1..], sp)
  }

  /** Join the span `sp` with the free span `behind` it. */
  function Merge(s: State, sp: Span, behind: Span): State {
    var merged := Span(sp.page, sp.count + behind.count);
    State(PushFront(s.free[behind.count := Remove(ListAt(s.free, behind.count), behind)], merged),
          s.index[sp.page := merged] - {behind.page},
          (s.status - {sp, behind})[merged := Free],
          MergedOwner(s.owner, sp, behind, merged))
  }

  /** `deallocateSpan(p, n)`: the span right behind is merged if it is found on the list of its size;
      looking there creates the list. */
  function Deallocate(s: State, p: nat, n: nat): State {
    if p !in s.index then s
    else
      var sp := s.index[p];
      if p + n !in s.index then
        State(PushFront(s.free, sp), s.index, s.status[sp := Free], s.owner)
      else
        var behind := s.index[p + n];
        var list := ListAt(s.free, behind.count);
        if behind !in list then
          State(PushFront(s.free[behind.count := list], sp), s.index, s.status[sp := Free], s.owner)
        else
          Merge(s, sp, behind)
  }

  // ---------------------------------------------------------------- every call keeps the invariant

  /** What a caller may ask for: at least one page, and the system answers with pages not given before. */
  ghost predicate MayAllocate(s: State, n: nat, memory: Option<nat>) {
    n >= 1 && (memory.Some? ==> forall x :: Within(x, Span(memory.value, n)) ==> x !in s.owner)
  }

  /** What a caller may release: a page the cache does not know, or a live span with its true size. */
  ghost predicate MayRelease(s: State, p: nat, n: nat) {
    p in s.index ==> Span(p, n) in s.status && s.status[Span(p, n)] == Live
  }

  lemma {:induction false} RemoveKeeps(list: seq<Span>, sp: Span)
    requires forall i, j :: 0 <= i < j < |list| ==> list[i] != list[j]
    ensures forall x :: x in Remove(list, sp) <==> x in list && x != sp
    ensures forall i, j :: 0 <= i < j < |Remove(list, sp)| ==> Remove(list, sp)[i] != Remove(list, sp)[j]
    ensures sp in list ==> |Remove(list, sp)| == |list| - 1
  {
    if list != [] {
      assert list == [list[0]] + list[1..];
      if list[0] == sp {
        assert forall i :: 0 <= i < |list[1..]| ==> list[1..][i] == list[i+1];
      } else {
        RemoveKeeps(list[1..], sp);
        var rest := Remove(list[1..], sp);
        assert forall i :: 0 <= i < |rest| ==> rest[i] in rest;
      }
    }
  }

  // The lists, one change at a time.

  lemma PushFrontAgrees(free: map<nat, seq<Span>>, status: map<Span, Status>, sp: Span)
    requires ListsAgree(free, status) && (sp in status ==> status[sp] == Live)
    ensures ListsAgree(PushFront(free, sp), status[sp := Free])
  {
    var free', status' := PushFront(free, sp), status[sp := Free];
    forall k: nat
      ensures ListAgrees(ListAt(free', k), k, status')
    {
      var list := ListAt(free, k);
      assert ListAgrees(list, k, status);
      if k == sp.count {
        assert sp !in list && ListAt(free', k) == [sp] + list;
      }
    }
  }

  lemma TailAgrees(list: seq<Span>, k: nat, status: map<Span, Status>)
    requires ListAgrees(list, k, status) && list != []
    ensures ListAgrees(list[1..], k, status - {list[0]})
  {
    var rest := list[1..];
    assert list == [list[0]] + rest;
    assert forall i :: 0 <= i < |rest| ==> rest[i] == list[i+1] && list[0] != list[i+1];
  }

  lemma WithoutHeadAgrees(free: map<nat, seq<Span>>, status: map<Span, Status>, k: nat)
    requires ListsAgree(free, status) && k in free && free[k] != []
    ensures free[k][0].count == k && free[k][0] in status && status[free[k][0]] == Free
    ensures ListsAgree(WithoutHead(free, k), status - {free[k][0]})
  {
    var sp := free[k][0];
    assert ListAgrees(ListAt(free, k), k, status) && sp in ListAt(free, k);
    forall j: nat
      ensures ListAgrees(ListAt(WithoutHead(free, k), j), j, status - {sp})
    {
      assert ListAgrees(ListAt(free, j), j, status);
      if j == k {
        TailAgrees(free[k], k, status);
      }
    }
  }

  lemma RemoveAgrees(free: map<nat, seq<Span>>, status: map<Span, Status>, sp: Span)
    requires ListsAgree(free, status) && sp in status && status[sp] == Free
    ensures ListsAgree(free[sp.count := Remove(ListAt(free, sp.count), sp)], status - {sp})
  {
    var free', status' := free[sp.count := Remove(ListAt(free, sp.count), sp)], status - {sp};
    forall j: nat
      ensures ListAgrees(ListAt(free', j), j, status')
    {
      assert ListAgrees(ListAt(free, j), j, status);
      RemoveKeeps(ListAt(free, j), sp);
    }
  }

  /** Two spans that share a page are the same span. */
  lemma SharedPage(status: map<Span, Status>, owner: map<nat, Span>, a: Span, b: Span, x: nat)
    requires Tiled(status, owner) && a in status && b in status && Within(x, a) && Within(x, b)
    ensures a == b
  {
  }

  lemma SplitLists(s: State, n: nat, k: nat)
    requires Inv(s) && 1 <= n < k && k in s.free && s.free[k] != []
    ensures ListsAgree(TakeFrom(s, n, k).free, TakeFrom(s, n, k).status)
  {
    var sp := s.free[k][0];
    WithoutHeadAgrees(s.free, s.status, k);
    SplitFresh(s, sp, Span(sp.page, n));
    SplitFresh(s, sp, Span(sp.page + n, k - n));
    CutListed(WithoutHead(s.free, k), s.status - {sp}, Span(sp.page, n), Span(sp.page + n, k - n));
  }

  /** One new span is live and another is listed. */
  lemma CutListed(free: map<nat, seq<Span>>, status: map<Span, Status>, cut: Span, rest: Span)
    requires ListsAgree(free, status) && cut !in status && rest !in status && cut.page != rest.page
    ensures ListsAgree(PushFront(free, rest), status[cut := Live][rest := Free])
  {
    PushFrontAgrees(free, status[cut := Live], rest);
  }

  lemma WholeLists(s: State, k: nat)
    requires Inv(s) && k in s.free && s.free[k] != []
    ensures ListsAgree(TakeFrom(s, k, k).free, TakeFrom(s, k, k).status)
  {
    var sp := s.free[k][0];
    WithoutHeadAgrees(s.free, s.status, k);
    assert (s.status - {sp})[sp := Live] == s.status[sp := Live];
  }

  lemma SplitKeeps(s: State, n: nat, k: nat)
    requires Inv(s) && 1 <= n < k && k in s.free && s.free[k] != []
    ensures Inv(TakeFrom(s, n, k))
  {
    var sp := s.free[k][0];
    var cut, rest := Span(sp.page, n), Span(sp.page + n, k - n);
    var s' := TakeFrom(s, n, k);
    assert ListsAgree(s'.free, s'.status) by {
      SplitLists(s, n, k);
    }
    assert sp.count == k && sp in s.status && s.status[sp] == Free by {
      WithoutHeadAgrees(s.free, s.status, k);
    }
    assert s'.index == s.index[sp.page := cut] && s'.status == (s.status - {sp})[cut := Live][rest := Free];
    assert cut !in s.status && rest !in s.status by {
      SplitFresh(s, sp, cut);
      SplitFresh(s, sp, rest);
    }
    SplitIndex(s, sp, cut, rest);
    SplitTiles(s, sp, cut, rest);
  }

  lemma WholeKeeps(s: State, k: nat)
    requires Inv(s) && k >= 1 && k in s.free && s.free[k] != []
    ensures Inv(TakeFrom(s, k, k))
  {
    var sp := s.free[k][0];
    WholeLists(s, k);
    assert sp.count == k && sp in s.status && s.status[sp] == Free by {
      WithoutHeadAgrees(s.free, s.status, k);
    }
    TakeWholeIndex(s, sp);
  }

  /** No span is a proper part of another. */
  lemma SplitFresh(s: State, sp: Span, part: Span)
    requires Inv(s) && sp in s.status && part.count < sp.count && part.count >= 1
    requires sp.page <= part.page && part.page + part.count <= sp.page + sp.count
    ensures part !in s.status
  {
    if part in s.status {
      SharedPage(s.status, s.owner, sp, part, part.page);
    }
  }

  lemma SplitIndex(s: State, sp: Span, cut: Span, rest: Span)
    requires Inv(s) && sp in s.status && s.status[sp] == Free
    requires cut.page == sp.page && 1 <= cut.count < sp.count && cut !in s.status && rest !in s.status
    ensures IndexAgrees(s.index[sp.page := cut], (s.status - {sp})[cut := Live][rest := Free])
  {
    forall q | q in s.status && s.status[q] == Live
      ensures q.page != sp.page
    {
      if q.page == sp.page {
        SharedPage(s.status, s.owner, sp, q, sp.page);
      }
    }
  }

  lemma SplitTiles(s: State, sp: Span, cut: Span, rest: Span)
    requires Tiled(s.status, s.owner) && sp in s.status && cut.page == sp.page && 1 <= cut.count < sp.count
    requires rest == Span(sp.page + cut.count, sp.count - cut.count)
    ensures Tiled((s.status - {sp})[cut := Live][rest := Free],
      SplitOwner(s.owner, sp, cut, rest))
  {
  }

  lemma TakeWholeIndex(s: State, sp: Span)
    requires Inv(s) && sp in s.status && s.status[sp] == Free
    ensures IndexAgrees(s.index[sp.page := sp], s.status[sp := Live]) && Tiled(s.status[sp := Live], s.owner)
  {
    forall q | q in s.status && q.page == sp.page
      ensures q == sp
    {
      SharedPage(s.status, s.owner, sp, q, sp.page);
    }
  }

  lemma TakeFromSystemKeeps(s: State, n: nat, memory: nat)
    requires Inv(s) && MayAllocate(s, n, Some(memory))
    ensures Inv(TakeFromSystem(s, n, memory))
  {
    var sp := Span(memory, n);
    SystemSpanApart(s, sp);
  }

  /** A span of new pages shares none with the spans there are. */
  lemma SystemSpanApart(s: State, sp: Span)
    requires Inv(s) && sp.count >= 1 && forall x :: Within(x, sp) ==> x !in s.owner
    ensures forall q :: q in s.status ==> q != sp && q.page != sp.page
  {
    assert Within(sp.page, sp);
    forall q | q in s.status
      ensures q != sp && q.page != sp.page
    {
      assert Within(q.page, q);
    }
  }

  // Releasing a span.

  lemma SameLists(free: map<nat, seq<Span>>, status: map<Span, Status>, k: nat)
    requires ListsAgree(free, status)
    ensures ListsAgree(free[k := ListAt(free, k)], status)
  {
    var free' := free[k := ListAt(free, k)];
    forall j: nat
      ensures ListAgrees(ListAt(free', j), j, status)
    {
      assert ListAgrees(ListAt(free, j), j, status);
    }
  }

  lemma ForgetLiveAgrees(free: map<nat, seq<Span>>, status: map<Span, Status>, sp: Span)
    requires ListsAgree(free, status) && sp in status && status[sp] == Live
    ensures ListsAgree(free, status - {sp})
  {
    forall k: nat
      ensures ListAgrees(ListAt(free, k), k, status - {sp})
    {
      assert ListAgrees(ListAt(free, k), k, status);
    }
  }

  lemma UnmergedKeeps(s: State, sp: Span, free: map<nat, seq<Span>>)
    requires Inv(s) && ListsAgree(free, s.status) && sp in s.status && s.status[sp] == Live
    ensures Inv(State(PushFront(free, sp), s.index, s.status[sp := Free], s.owner))
  {
    PushFrontAgrees(free, s.status, sp);
  }

  /** The span that a merge makes is new. */
  lemma MergedFresh(s: State, sp: Span, behind: Span)
    requires Inv(s) && sp in s.status && behind in s.status && sp.page + sp.count == behind.page
    ensures Span(sp.page, sp.count + behind.count) !in s.status
  {
    var merged := Span(sp.page, sp.count + behind.count);
    if merged in s.status {
      SharedPage(s.status, s.owner, sp, merged, sp.page);
    }
  }

  lemma MergedLists(s: State, sp: Span, behind: Span)
    requires Inv(s) && sp in s.status && s.status[sp] == Live && behind in s.status && s.status[behind] == Free
    requires sp.page + sp.count == behind.page
    ensures var merged := Span(sp.page, sp.count + behind.count);
      ListsAgree(PushFront(s.free[behind.count := Remove(ListAt(s.free, behind.count), behind)], merged),
                 (s.status - {sp, behind})[merged := Free])
  {
    var merged := Span(sp.page, sp.count + behind.count);
    var free := s.free[behind.count := Remove(ListAt(s.free, behind.count), behind)];
    MergedFresh(s, sp, behind);
    RemoveAgrees(s.free, s.status, behind);
    ForgetLiveAgrees(free, s.status - {behind}, sp);
    PushFrontAgrees(free, s.status - {behind} - {sp}, merged);
    assert s.status - {behind} - {sp} == s.status - {sp, behind};
  }

  lemma MergedIndex(s: State, sp: Span, behind: Span)
    requires Inv(s) && sp in s.status && s.status[sp] == Live && behind in s.status && s.status[behind] == Free
    requires sp.page + sp.count == behind.page
    ensures var merged := Span(sp.page, sp.count + behind.count);
      IndexAgrees(s.index[sp.page := merged] - {behind.page}, (s.status - {sp, behind})[merged := Free])
  {
    forall q | q in s.status && q.page == behind.page
      ensures q == behind
    {
      SharedPage(s.status, s.owner, q, behind, behind.page);
    }
  }

  lemma MergedTiles(s: State, sp: Span, behind: Span)
    requires Tiled(s.status, s.owner) && sp in s.status && behind in s.status && sp.page + sp.count == behind.page
    ensures var merged := Span(sp.page, sp.count + behind.count);
      Tiled((s.status - {sp, behind})[merged := Free],
            MergedOwner(s.owner, sp, behind, merged))
  {
  }

  /** Whether the release of `p` finds the span behind it on a free list. */
  predicate Merges(s: State, p: nat, n: nat) {
    p in s.index && p + n in s.index && s.index[p+n] in ListAt(s.free, s.index[p+n].count)
  }

  lemma MergeKeeps(s: State, sp: Span, behind: Span)
    requires Inv(s) && sp in s.status && s.status[sp] == Live && behind in s.status && s.status[behind] == Free
    requires sp.page + sp.count == behind.page
    ensures Inv(Merge(s, sp, behind))
  {
    MergedLists(s, sp, behind);
    MergedIndex(s, sp, behind);
    MergedTiles(s, sp, behind);
  }

  lemma DeallocateKeeps(s: State, p: nat, n: nat)
    requires Inv(s) && MayRelease(s, p, n)
    ensures Inv(Deallocate(s, p, n))
    ensures Deallocate(s, p, n).owner.Keys == s.owner.Keys
  {
    if Merges(s, p, n) {
      var behind := s.index[p+n];
      assert s.index[p] == Span(p, n) && behind.page == p + n;
      assert ListAgrees(ListAt(s.free, behind.count), behind.count, s.status);
      MergeKeeps(s, s.index[p], behind);
    } else if p in s.index {
      var sp := s.index[p];
      assert sp == Span(p, n);
      if p + n in s.index {
        SameLists(s.free, s.status, s.index[p+n].count);
        UnmergedKeeps(s, sp, s.free[s.index[p+n].count := ListAt(s.free, s.index[p+n].count)]);
      } else {
        UnmergedKeeps(s, sp, s.free);
      }
    }
  }

  lemma AllocateKeeps(s: State, n: nat, memory: Option<nat>)
    requires Inv(s) && MayAllocate(s, n, memory)
    ensures Inv(Allocate(s, n, memory).0)
  {
    if HasKeyFrom(s.free.Keys, n) {
      var k := LowerBound(s.free.Keys, n);
      if s.free[k] != [] {
        if k > n {
          SplitKeeps(s, n, k);
        } else {
          WholeKeeps(s, k);
        }
      }
    } else if memory.Some? {
      TakeFromSystemKeeps(s, n, memory.value);
    }
  }

  // ---------------------------------------------------------------- what a request gets

  /** A free span of at least `n` pages, none of them smaller than this one. */
  ghost predicate SmallestFit(s: State, n: nat, sp: Span) {
    && sp in s.status && s.status[sp] == Free && n <= sp.count
    && forall q :: q in s.status && s.status[q] == Free && n <= q.count ==> sp.count <= q.count
  }

  /** Allocation reads through a null list head exactly when the first key at or above `n` has lost all
      its spans; nothing else makes it fail but the system, and only when no key is large enough. */
  lemma CrashIff(s: State, n: nat, memory: Option<nat>)
    ensures Allocate(s, n, memory).1 == Crash <==> exists k :: IsLowerBound(s.free.Keys, n, k) && s.free[k] == []
    ensures Allocate(s, n, memory).1 == Failed <==> !HasKeyFrom(s.free.Keys, n) && memory == None
    ensures !Allocate(s, n, memory).1.Pages? ==> Allocate(s, n, memory).0 == s
  {
    if k :| IsLowerBound(s.free.Keys, n, k) {
      assert HasKeyFrom(s.free.Keys, n);
      var m := LowerBound(s.free.Keys, n);
      assert m == k;
    }
  }

  /** A request that succeeds gets exactly `n` pages, live from then on and free or new until then.  They
      are the front of a smallest free span that fits, or else just what the system returned. */
  lemma AllocateGives(s: State, n: nat, memory: Option<nat>)
    requires Inv(s) && MayAllocate(s, n, memory) && Allocate(s, n, memory).1.Pages?
    ensures var (s', r) := Allocate(s, n, memory); var got := Span(r.page, n);
      && got in s'.status && s'.status[got] == Live
      && (forall q :: q in s'.status && s'.status[q] == Live <==> q == got || (q in s.status && s.status[q] == Live))
      && (got in s.status ==> s.status[got] == Free)
      && if s'.owner.Keys == s.owner.Keys then exists sp :: SmallestFit(s, n, sp) && sp.page == r.page
         else
           memory == Some(r.page) && s'.owner.Keys == s.owner.Keys + PagesOf(got).Keys &&
           forall sp :: !SmallestFit(s, n, sp)
  {
    if HasKeyFrom(s.free.Keys, n) {
      var k := LowerBound(s.free.Keys, n);
      TakeGives(s, n, k);
    } else {
      SystemGives(s, n, memory.value);
    }
  }

  /** The span at the head of the first list that can serve `n` pages is a smallest one that fits. */
  lemma TakeFits(s: State, n: nat, k: nat)
    requires ListsAgree(s.free, s.status) && IsLowerBound(s.free.Keys, n, k) && s.free[k] != []
    ensures s.free[k][0].count == k && SmallestFit(s, n, s.free[k][0])
  {
    WithoutHeadAgrees(s.free, s.status, k);
    forall q | q in s.status && s.status[q] == Free && n <= q.count
      ensures k <= q.count
    {
      assert ListAgrees(ListAt(s.free, q.count), q.count, s.status);
    }
  }

  lemma TakeGives(s: State, n: nat, k: nat)
    requires Inv(s) && n >= 1 && IsLowerBound(s.free.Keys, n, k) && s.free[k] != []
    ensures var s', sp := TakeFrom(s, n, k), s.free[k][0]; var got := Span(sp.page, n);
      && got in s'.status && s'.status[got] == Live
      && (forall q :: q in s'.status && s'.status[q] == Live <==> q == got || (q in s.status && s.status[q] == Live))
      && (got in s.status ==> s.status[got] == Free)
      && s'.owner.Keys == s.owner.Keys && SmallestFit(s, n, sp)
  {
    var sp := s.free[k][0];
    TakeFits(s, n, k);
    if n < k {
      SplitFresh(s, sp, Span(sp.page, n));
      SplitFresh(s, sp, Span(sp.page + n, k - n));
    }
  }

  lemma SystemGives(s: State, n: nat, memory: nat)
    requires Inv(s) && MayAllocate(s, n, Some(memory)) && !HasKeyFrom(s.free.Keys, n)
    ensures var s', got := TakeFromSystem(s, n, memory), Span(memory, n);
      && got in s'.status && s'.status[got] == Live && got !in s.status
      && (forall q :: q in s'.status && s'.status[q] == Live <==> q == got || (q in s.status && s.status[q] == Live))
      && s'.owner.Keys == s.owner.Keys + PagesOf(got).Keys && memory in PagesOf(got) && memory !in s.owner
      && forall sp :: !SmallestFit(s, n, sp)
  {
    var got := Span(memory, n);
    SystemSpanApart(s, got);
    assert Within(memory, got);
    forall sp
      ensures !SmallestFit(s, n, sp)
    {
      if sp in s.status && s.status[sp] == Free {
        assert ListAgrees(ListAt(s.free, sp.count), sp.count, s.status);
        assert sp.count in s.free.Keys;
      }
    }
  }

  /** A release joins its span with the one behind exactly when that one is free and indexed. */
  lemma MergesIff(s: State, p: nat, n: nat)
    requires Inv(s) && p in s.index
    ensures Merges(s, p, n) <==> p + n in s.index && s.status[s.index[p+n]] == Free
  {
    if p + n in s.index {
      var behind := s.index[p+n];
      assert ListAgrees(ListAt(s.free, behind.count), behind.count, s.status);
    }
  }

  /** The live spans of `status'` are those of `status` but for `sp`. */
  ghost predicate OnlyFreed(status: map<Span, Status>, status': map<Span, Status>, sp: Span) {
    forall q :: q in status' && status'[q] == Live <==> q != sp && q in status && status[q] == Live
  }

  lemma FoundBehind(s: State, p: nat, n: nat)
    requires Inv(s) && MayRelease(s, p, n) && Merges(s, p, n)
    ensures var behind := s.index[p+n];
      && s.index[p] == Span(p, n) && behind in s.status && s.status[behind] == Free && behind.page == p + n
      && Span(p, n + behind.count) !in s.status
  {
    MergesIff(s, p, n);
    MergedFresh(s, s.index[p], s.index[p+n]);
  }

  /** `sp` is no longer live, nothing else is, and `joined` is free. */
  ghost predicate Freed(status: map<Span, Status>, status': map<Span, Status>, sp: Span, joined: Span) {
    OnlyFreed(status, status', sp) && joined in status' && status'[joined] == Free
  }

  lemma MergedFrees(s: State, p: nat, n: nat)
    requires Merges(s, p, n) && s.index[p] == Span(p, n)
    requires var behind := s.index[p+n];
      behind in s.status && s.status[behind] == Free && Span(p, n + behind.count) !in s.status
    ensures Freed(s.status, Deallocate(s, p, n).status, Span(p, n), Span(p, n + s.index[p+n].count))
  {
    assert Deallocate(s, p, n) == Merge(s, s.index[p], s.index[p+n]);
  }

  lemma UnmergedFrees(s: State, p: nat, n: nat)
    requires p in s.index && !Merges(s, p, n) && s.index[p] == Span(p, n)
    ensures Freed(s.status, Deallocate(s, p, n).status, Span(p, n), Span(p, n))
  {
    assert Deallocate(s, p, n).status == s.status[s.index[p] := Free];
  }

  /** A release takes exactly one span from the callers, and its pages end up in one free span. */
  lemma ReleaseFrees(s: State, p: nat, n: nat)
    requires Inv(s) && MayRelease(s, p, n) && p in s.index
    ensures var joined := Span(p, if Merges(s, p, n) then n + s.index[p+n].count else n);
      Freed(s.status, Deallocate(s, p, n).status, Span(p, n), joined)
  {
    if Merges(s, p, n) {
      FoundBehind(s, p, n);
      MergedFrees(s, p, n);
    } else {
      UnmergedFrees(s, p, n);
    }
  }

  // ---------------------------------------------------------------- what a request and a release leave

  predicate IsFree(s: State, sp: Span) {
    sp in s.status && s.status[sp] == Free
  }

  predicate IsLive(s: State, sp: Span) {
    sp in s.status && s.status[sp] == Live
  }

  /** The span that the pages of a released span end up in. */
  function Joined(s: State, p: nat, n: nat): Span {
    Span(p, if Merges(s, p, n) then n + s.index[p+n].count else n)
  }

  /** After a release the cache finds the free span that has its pages under its address, so that a later release
      in front can join it.  All other entries stand, and all other free spans, but for the one joined; and pages
      that the cache does not know change nothing. */
  lemma ReleaseLeaves(s: State, p: nat, n: nat)
    requires Inv(s) && MayRelease(s, p, n)
    ensures var s', joins := Deallocate(s, p, n), Merges(s, p, n);
      if p !in s.index then s' == s
      else
        && p in s'.index && s'.index[p] == Joined(s, p, n) && IsFree(s', Joined(s, p, n))
        && s'.index.Keys == s.index.Keys - (if joins then {p + n} else {})
        && (forall q :: q in s'.index && q != p ==> s'.index[q] == s.index[q])
        && (forall q :: IsFree(s', q) <==> q == Joined(s, p, n) || (IsFree(s, q) && !(joins && q == s.index[p+n])))
  {
    if p in s.index {
      assert s.index[p] == Span(p, n);
      if Merges(s, p, n) {
        FoundBehind(s, p, n);
        assert Deallocate(s, p, n) == Merge(s, s.index[p], s.index[p+n]);
      } else {
        UnmergedIndex(s, p, n);
      }
    }
  }

  lemma UnmergedIndex(s: State, p: nat, n: nat)
    requires p in s.index && !Merges(s, p, n)
    ensures Deallocate(s, p, n).index == s.index && Deallocate(s, p, n).status == s.status[s.index[p] := Free]
  {
  }

  /** A request that is served from a free span leaves what it does not need of that span free, and all other free
      spans as they are; it finds the pages it gives, and nothing else, under their address. */
  lemma RequestLeaves(s: State, n: nat, memory: Option<nat>)
    requires Inv(s) && MayAllocate(s, n, memory) && Allocate(s, n, memory).1.Pages?
    ensures var (s', r) := Allocate(s, n, memory);
      && s'.index == s.index[r.page := Span(r.page, n)]
      && if HasKeyFrom(s.free.Keys, n) then
           exists sp :: SmallestFit(s, n, sp) && sp.page == r.page && LeavesRest(s, s', n, sp)
         else forall q :: IsFree(s', q) <==> IsFree(s, q)
  {
    if HasKeyFrom(s.free.Keys, n) {
      var k := LowerBound(s.free.Keys, n);
      TakeFits(s, n, k);
      TakeLeaves(s, n, k);
    } else {
      SystemSpanApart(s, Span(memory.value, n));
    }
  }

  /** Of `sp` all but the first `n` pages are free, as one span that is next to be taken for its size. */
  ghost predicate LeavesRest(s: State, s': State, n: nat, sp: Span) {
    n <= sp.count &&
    var rest := Span(sp.page + n, sp.count - n);
    && (forall q :: IsFree(s', q) <==> (IsFree(s, q) && q != sp) || (n < sp.count && q == rest))
    && (n < sp.count ==> ListAt(s'.free, rest.count) != [] && ListAt(s'.free, rest.count)[0] == rest)
  }

  lemma TakeLeaves(s: State, n: nat, k: nat)
    requires Inv(s) && n >= 1 && IsLowerBound(s.free.Keys, n, k) && s.free[k] != []
    ensures LeavesRest(s, TakeFrom(s, n, k), n, s.free[k][0])
  {
    var sp := s.free[k][0];
    TakeFits(s, n, k);
    if n < k {
      SplitFresh(s, sp, Span(sp.page, n));
      SplitFresh(s, sp, Span(sp.page + n, k - n));
    }
  }

  /** Last in, first out: the span that a release makes is what the next request of just its size gets. */
  lemma LastReleasedIsNext(s: State, p: nat, n: nat, memory: Option<nat>)
    requires Inv(s) && MayRelease(s, p, n) && p in s.index
    ensures var d, k := Deallocate(s, p, n), Joined(s, p, n).count;
      Allocate(d, k, memory).1 == Pages(p) && IsLive(Allocate(d, k, memory).0, Joined(s, p, n))
  {
    var d, sp := Deallocate(s, p, n), Joined(s, p, n);
    assert s.index[p] == Span(p, n);
    HeadAfterRelease(s, p, n);
    assert IsLowerBound(d.free.Keys, sp.count, sp.count);
    assert LowerBound(d.free.Keys, sp.count) == sp.count;
  }

  lemma HeadAfterRelease(s: State, p: nat, n: nat)
    requires p in s.index && s.index[p] == Span(p, n)
    ensures var d, sp := Deallocate(s, p, n), Joined(s, p, n);
      sp.count in d.free && d.free[sp.count] != [] && d.free[sp.count][0] == sp
  {
  }

  // ---------------------------------------------------------------- the keys without a list

  ghost predicate NoEmptyKey(free: map<nat, seq<Span>>) {
    forall k :: k in free ==> free[k] != []
  }

  /** While every key has a span, allocation cannot crash and leaves it so. */
  lemma NoEmptyKeyNoCrash(s: State, n: nat, memory: Option<nat>)
    requires NoEmptyKey(s.free)
    ensures Allocate(s, n, memory).1 != Crash && NoEmptyKey(Allocate(s, n, memory).0.free)
  {
  }

  /** Replacing one list and pushing onto another leaves an empty key exactly if the new list is empty. */
  lemma EmptyKeyAfterPush(free: map<nat, seq<Span>>, k: nat, rest: seq<Span>, sp: Span)
    requires NoEmptyKey(free) && sp.count != k
    ensures NoEmptyKey(PushFront(free[k := rest], sp)) <==> rest != []
  {
    var free' := PushFront(free[k := rest], sp);
    assert k in free' && free'[k] == rest;
  }

  lemma EmptyKeyAfterMerge(s: State, p: nat, n: nat)
    requires Inv(s) && MayRelease(s, p, n) && NoEmptyKey(s.free) && p in s.index && p + n in s.index
    requires s.status[s.index[p+n]] == Free
    ensures NoEmptyKey(Deallocate(s, p, n).free) <==> |ListAt(s.free, s.index[p+n].count)| >= 2
  {
    MergesIff(s, p, n);
    var behind := s.index[p+n];
    EmptyKeyAfterPush(s.free, behind.count, Remove(ListAt(s.free, behind.count), behind), Span(p, n + behind.count));
  }

  lemma EmptyKeyAfterLookup(s: State, p: nat, n: nat)
    requires Inv(s) && MayRelease(s, p, n) && NoEmptyKey(s.free) && p in s.index && p + n in s.index
    requires s.status[s.index[p+n]] == Live
    ensures NoEmptyKey(Deallocate(s, p, n).free) <==> s.index[p+n].count == n || s.index[p+n].count in s.free
  {
    var behind := s.index[p+n];
    var list := ListAt(s.free, behind.count);
    assert s.index[p] == Span(p, n);
    assert ListAgrees(list, behind.count, s.status);
    var free := Deallocate(s, p, n).free;
    assert free == PushFront(s.free[behind.count := list], Span(p, n));
    assert behind.count != n ==> free[behind.count] == list;
  }

  /** The span behind, if there is one, is not the last free span of its size, or, being live itself, has a
      size under which some free span is listed afterwards. */
  ghost predicate KeepsKeys(s: State, p: nat, n: nat)
    requires Inv(s)
  {
    p in s.index && p + n in s.index ==>
      var behind := s.index[p+n];
      if s.status[behind] == Free then |ListAt(s.free, behind.count)| >= 2
      else behind.count == n || behind.count in s.free
  }

  /** That is when a release leaves a span under every key. */
  lemma EmptyKeyIff(s: State, p: nat, n: nat)
    requires Inv(s) && MayRelease(s, p, n) && NoEmptyKey(s.free)
    ensures NoEmptyKey(Deallocate(s, p, n).free) <==> KeepsKeys(s, p, n)
  {
    if p in s.index && p + n in s.index {
      if s.status[s.index[p+n]] == Free {
        EmptyKeyAfterMerge(s, p, n);
      } else {
        EmptyKeyAfterLookup(s, p, n);
      }
    }
  }

  // ---------------------------------------------------------------- whole runs

  datatype Call = Request(n: nat, memory: Option<nat>) | Release(p: nat, n: nat)

  ghost predicate MayDo(s: State, c: Call) {
    match c
    case Request(n, memory) => MayAllocate(s, n, memory) && Allocate(s, n, memory).1 != Crash
    case Release(p, n) => MayRelease(s, p, n)
  }

  ghost function Do(s: State, c: Call): State {
    match c
    case Request(n, memory) => Allocate(s, n, memory).0
    case Release(p, n) => Deallocate(s, p, n)
  }

  /** The calls lead from `s` to `s'`, each allowed where it is made and none crashing. */
  ghost predicate Runs(s: State, calls: seq<Call>, s': State)
    decreases calls
  {
    if calls == [] then s' == s
    else MayDo(s, calls[0]) && Runs(Do(s, calls[0]), calls[1..], s')
  }

  /** The calls are allowed where they are made; requests may crash. */
  ghost predicate Asks(s: State, calls: seq<Call>)
    decreases calls
  {
    calls != [] ==>
      && (match calls[0]
          case Request(n, memory) => MayAllocate(s, n, memory)
          case Release(p, n) => MayRelease(s, p, n))
      && Asks(Do(s, calls[0]), calls[1..])
  }

  ghost function End(s: State, calls: seq<Call>): State
    decreases calls
  {
    if calls == [] then s else End(Do(s, calls[0]), calls[1..])
  }

  /** In every state that the calls go through each key has a span. */
  ghost predicate KeysStay(s: State, calls: seq<Call>)
    decreases calls
  {
    NoEmptyKey(s.free) && (calls != [] ==> KeysStay(Do(s, calls[0]), calls[1..]))
  }

  ghost predicate ReleasesKeep(s: State, calls: seq<Call>)
    decreases calls
  {
    calls != [] ==>
      && (calls[0].Release? ==> Inv(s) && KeepsKeys(s, calls[0].p, calls[0].n))
      && ReleasesKeep(Do(s, calls[0]), calls[1..])
  }

  /** Over any run from a cache in which each key has a span: it stays so throughout if and only if every
      release meets the condition where it is made, and then no request crashes. */
  lemma {:induction false} KeysStayIff(s: State, calls: seq<Call>)
    requires Inv(s) && NoEmptyKey(s.free) && Asks(s, calls)
    ensures KeysStay(s, calls) <==> ReleasesKeep(s, calls)
    ensures ReleasesKeep(s, calls) ==> Runs(s, calls, End(s, calls)) && NoEmptyKey(End(s, calls).free)
    decreases calls
  {
    if calls != [] {
      match calls[0] {
        case Request(n, memory) => AllocateKeeps(s, n, memory); NoEmptyKeyNoCrash(s, n, memory);
        case Release(p, n) => DeallocateKeeps(s, p, n); EmptyKeyIff(s, p, n);
      }
      if NoEmptyKey(Do(s, calls[0]).free) {
        KeysStayIff(Do(s, calls[0]), calls[1..]);
      }
    }
  }

  // Joining over runs.

  /** No call releases the span at `p`, and no request is given the pages from `q` on. */
  ghost predicate LeavesAlone(s: State, calls: seq<Call>, p: nat, q: nat)
    decreases calls
  {
    calls != [] ==>
      && (match calls[0]
          case Request(n, memory) => Allocate(s, n, memory).1 != Pages(q)
          case Release(at, _) => at != p)
      && LeavesAlone(Do(s, calls[0]), calls[1..], p, q)
  }

  /** A live span with a free one behind it that can be found. */
  ghost predicate FreeBehind(s: State, front: Span, rear: Span) {
    && IsLive(s, front) && IsFree(s, rear) && rear.page == front.page + front.count
    && rear.page in s.index && s.index[rear.page] == rear
  }

  lemma RequestKeepsRear(s: State, n: nat, memory: Option<nat>, front: Span, rear: Span)
    requires Inv(s) && MayAllocate(s, n, memory) && FreeBehind(s, front, rear)
    requires Allocate(s, n, memory).1 != Pages(rear.page)
    ensures FreeBehind(Allocate(s, n, memory).0, front, rear)
  {
    if Allocate(s, n, memory).1.Pages? {
      AllocateGives(s, n, memory);
      RequestLeaves(s, n, memory);
    } else {
      CrashIff(s, n, memory);
    }
  }

  lemma ReleaseKeepsRear(s: State, p: nat, n: nat, front: Span, rear: Span)
    requires Inv(s) && MayRelease(s, p, n) && FreeBehind(s, front, rear) && p != front.page
    ensures FreeBehind(Deallocate(s, p, n), front, rear)
  {
    ReleaseLeaves(s, p, n);
    if p in s.index {
      ReleaseFrees(s, p, n);
      if p + n == rear.page {
        SharedPage(s.status, s.owner, front, Span(p, n), rear.page - 1);
      }
    }
  }

  lemma {:induction false} RunKeepsRear(s: State, calls: seq<Call>, s': State, front: Span, rear: Span)
    requires Inv(s) && Runs(s, calls, s') && FreeBehind(s, front, rear)
    requires LeavesAlone(s, calls, front.page, rear.page)
    ensures Inv(s') && FreeBehind(s', front, rear)
    decreases calls
  {
    if calls != [] {
      match calls[0] {
        case Request(n, memory) => AllocateKeeps(s, n, memory); RequestKeepsRear(s, n, memory, front, rear);
        case Release(p, n) => DeallocateKeeps(s, p, n); ReleaseKeepsRear(s, p, n, front, rear);
      }
      RunKeepsRear(Do(s, calls[0]), calls[1..], s', front, rear);
    }
  }

  lemma RearReleased(s: State, front: Span, rear: Span)
    requires Inv(s) && IsLive(s, front) && IsLive(s, rear) && rear.page == front.page + front.count
    ensures var d := Deallocate(s, rear.page, rear.count);
      Inv(d) && FreeBehind(d, front, Joined(s, rear.page, rear.count))
  {
    DeallocateKeeps(s, rear.page, rear.count);
    ReleaseLeaves(s, rear.page, rear.count);
    ReleaseFrees(s, rear.page, rear.count);
  }

  lemma FrontReleased(s: State, front: Span, rear: Span)
    requires Inv(s) && FreeBehind(s, front, rear)
    ensures var d, joined := Deallocate(s, front.page, front.count), Span(front.page, front.count + rear.count);
      IsFree(d, joined) && front.page in d.index && d.index[front.page] == joined
  {
    MergesIff(s, front.page, front.count);
    ReleaseLeaves(s, front.page, front.count);
  }

  /** Two live spans side by side, the rear one released first: whatever is called in between, if it neither takes
      the rear one nor releases the front one, they end up in one free span, with what was free behind them. */
  lemma NeighboursJoin(s: State, front: Span, rear: Span, calls: seq<Call>, s': State)
    requires Inv(s) && IsLive(s, front) && IsLive(s, rear) && rear.page == front.page + front.count
    requires Runs(Deallocate(s, rear.page, rear.count), calls, s')
    requires LeavesAlone(Deallocate(s, rear.page, rear.count), calls, front.page, rear.page)
    ensures var d := Deallocate(s', front.page, front.count);
      var joined := Span(front.page, front.count + Joined(s, rear.page, rear.count).count);
      IsFree(d, joined) && front.page in d.index && d.index[front.page] == joined
  {
    RearReleased(s, front, rear);
    RunKeepsRear(Deallocate(s, rear.page, rear.count), calls, s', front, Joined(s, rear.page, rear.count));
    FrontReleased(s', front, Joined(s, rear.page, rear.count));
  }

  /** So a new cache, however it is used, crashes only after a release that empties a key. */
  lemma CrashNeedsEmptyKey(calls: seq<Call>, n: nat, memory: Option<nat>)
    requires Asks(EMPTY, calls) && ReleasesKeep(EMPTY, calls)
    ensures Runs(EMPTY, calls, End(EMPTY, calls)) && Allocate(End(EMPTY, calls), n, memory).1 != Crash
  {
    KeysStayIff(EMPTY, calls);
    NoEmptyKeyNoCrash(End(EMPTY, calls), n, memory);
  }

  lemma {:induction false} RunKeeps(s: State, calls: seq<Call>, s': State)
    requires Inv(s) && Runs(s, calls, s')
    ensures Inv(s')
    decreases calls
  {
    if calls != [] {
      match calls[0] {
        case Request(n, memory) => AllocateKeeps(s, n, memory);
        case Release(p, n) => DeallocateKeeps(s, p, n);
      }
      RunKeeps(Do(s, calls[0]), calls[1..], s');
    }
  }

  /** After any run from the empty cache the spans, live and free, tile exactly the pages obtained from
      the system, the lists hold the free spans by size, and the index has no stale address. */
  lemma EveryRunTiles(calls: seq<Call>, s: State)
    requires Runs(EMPTY, calls, s)
    ensures forall a, b, x :: a in s.status && b in s.status && Within(x, a) && Within(x, b) ==> a == b
    ensures forall x :: x in s.owner <==> exists sp :: sp in s.status && Within(x, sp)
    ensures forall k: nat, sp :: sp in ListAt(s.free, k) <==> sp.count == k && sp in s.status && s.status[sp] == Free
    ensures forall a :: a in s.index ==> s.index[a].page == a && s.index[a] in s.status
  {
    RunKeeps(EMPTY, calls, s);
    forall k: nat, sp
      ensures sp in ListAt(s.free, k) <==> sp.count == k && sp in s.status && s.status[sp] == Free
    {
      assert ListAgrees(ListAt(s.free, k), k, s.status);
    }
    forall x | x in s.owner
      ensures exists sp :: sp in s.status && Within(x, sp)
    {
      assert s.owner[x] in s.status;
    }
  }

  // ---------------------------------------------------------------- a run that crashes

  ghost predicate Reaches(s: State, s': State) {
    exists calls :: Runs(s, calls, s')
  }

  lemma {:induction false} RunsThen(s: State, calls: seq<Call>, m: State, c: Call)
    requires Runs(s, calls, m) && MayDo(m, c)
    ensures Runs(s, calls + [c], Do(m, c))
    decreases calls
  {
    if calls == [] {
      assert Runs(Do(m, c), [], Do(m, c));
    } else {
      RunsThen(Do(s, calls[0]), calls[1..], m, c);
      assert (calls + [c])[1..] == calls[1..] + [c];
    }
  }

  lemma Then(m: State, c: Call)
    requires Reaches(EMPTY, m) && MayDo(m, c)
    ensures Reaches(EMPTY, Do(m, c))
  {
    var calls :| Runs(EMPTY, calls, m);
    RunsThen(EMPTY, calls, m, c);
  }

  /** The two maps, which decide what the calls do. */
  ghost predicate Looks(s: State, free: map<nat, seq<Span>>, index: map<nat, Span>, live: set<Span>) {
    && Reaches(EMPTY, s) && s.free == free && s.index == index
    && (forall sp :: sp in live ==> sp in s.status && s.status[sp] == Live)
  }

  /** Two pages are obtained, released as one span, requested one by one and released again, the second
      page first: joining the two empties the list of one-page spans but leaves its key. */
  lemma EmptyKeyRun() returns (s: State)
    ensures Looks(s, map[1 := [], 2 := [Span(16, 2)]], map[16 := Span(16, 2)], {})
  {
    assert Runs(EMPTY, [], EMPTY);
    var two, first, second := Span(16, 2), Span(16, 1), Span(17, 1);
    Then(EMPTY, Request(2, Some(16)));
    s := Do(EMPTY, Request(2, Some(16)));
    assert Looks(s, map[], map[16 := two], {two});
    Then(s, Release(16, 2));
    s := Do(s, Release(16, 2));
    assert [two] + [] == [two];
    assert Looks(s, map[2 := [two]], map[16 := two], {});
    s := SplitTwo(s);
    s := GiveBackBoth(s);
  }

  lemma SplitTwo(m: State) returns (s: State)
    requires Looks(m, map[2 := [Span(16, 2)]], map[16 := Span(16, 2)], {})
    ensures Looks(s, map[], map[16 := Span(16, 1), 17 := Span(17, 1)], {Span(16, 1), Span(17, 1)})
  {
    s := TakeFirst(m);
    assert IsLowerBound(s.free.Keys, 1, 1);
    Then(s, Request(1, None));
    s := Do(s, Request(1, None));
  }

  lemma TakeFirst(m: State) returns (s: State)
    requires Looks(m, map[2 := [Span(16, 2)]], map[16 := Span(16, 2)], {})
    ensures Looks(s, map[1 := [Span(17, 1)]], map[16 := Span(16, 1)], {Span(16, 1)})
  {
    assert IsLowerBound(m.free.Keys, 1, 2);
    Then(m, Request(1, None));
    s := Do(m, Request(1, None));
    assert [Span(17, 1)] + [] == [Span(17, 1)] && s.free == map[1 := [Span(17, 1)]];
  }

  lemma GiveBackBoth(m: State) returns (s: State)
    requires Looks(m, map[], map[16 := Span(16, 1), 17 := Span(17, 1)], {Span(16, 1), Span(17, 1)})
    ensures Looks(s, map[1 := [], 2 := [Span(16, 2)]], map[16 := Span(16, 2)], {})
  {
    s := GiveBackSecond(m);
    Then(s, Release(16, 1));
    assert Remove([Span(17, 1)], Span(17, 1)) == [] && [Span(16, 2)] + [] == [Span(16, 2)];
    s := Do(s, Release(16, 1));
    assert s.free == map[1 := [], 2 := [Span(16, 2)]];
  }

  lemma GiveBackSecond(m: State) returns (s: State)
    requires Looks(m, map[], map[16 := Span(16, 1), 17 := Span(17, 1)], {Span(16, 1), Span(17, 1)})
    ensures Looks(s, map[1 := [Span(17, 1)]], map[16 := Span(16, 1), 17 := Span(17, 1)], {Span(16, 1)})
  {
    Then(m, Release(17, 1));
    s := Do(m, Release(17, 1));
    assert [Span(17, 1)] + [] == [Span(17, 1)] && s.free == map[1 := [Span(17, 1)]];
  }

  /** The next one-page request reads through the null head of that list. */
  lemma CrashRun() returns (calls: seq<Call>, s: State)
    ensures Runs(EMPTY, calls, s) && MayAllocate(s, 1, None) && Allocate(s, 1, None).1 == Crash
  {
    s := EmptyKeyRun();
    calls :| Runs(EMPTY, calls, s);
    assert IsLowerBound(s.free.Keys, 1, 1);
    CrashIff(s, 1, None);
  }

  // ---------------------------------------------------------------- the class

  /** The walk along the list for the span: its node is unlinked if it is found. */
  method Unlink(list: seq<Span>, sp: Span) returns (found: bool, rest: seq<Span>)
    ensures found <==> sp in list
    ensures rest == Remove(list, sp)
  {
    if list != [] && list[0] == sp {
      return true, list[1..];
    }
    found, rest := false, list;
    var prev := 0;
    while prev + 1 < |list|
      invariant 0 <= prev && (list != [] ==> prev < |list|)
      invariant sp !in list[..if list == [] then 0 else prev + 1]
      decreases |list| - prev
    {
      if list[prev+1] == sp {
        RemoveAt(list, prev + 1);
        return true, list[..prev+1] + list[prev+2..];
      }
      prev := prev + 1;
    }
    assert sp !in list by {
      assert list == [] || list[..prev+1] == list;
    }
    RemoveAbsent(list, sp);
  }

  lemma {:induction false} RemoveAt(list: seq<Span>, i: nat)
    requires i < |list| && list[i] !in list[..i]
    ensures Remove(list, list[i]) == list[..i] + list[i+1..]
  {
    if i > 0 {
      assert list[0] in list[..i];
      assert list[1..][..i-1] == list[..i][1..];
      RemoveAt(list[1..], i - 1);
    }
  }

  lemma {:induction false} RemoveAbsent(list: seq<Span>, sp: Span)
    requires sp !in list
    ensures Remove(list, sp) == list
  {
    if list != [] {
      RemoveAbsent(list[1..], sp);
    }
  }

  lemma HeadCount(s: State, k: nat)
    requires Inv(s) && k in s.free && s.free[k] != []
    ensures s.free[k][0].count == k
  {
    WithoutHeadAgrees(s.free, s.status, k);
  }

  class PageCache {
    var freeSpans: map<nat, seq<Span>>
    var spanMap: map<nat, Span>
    ghost var status: map<Span, Status>
    ghost var owner: map<nat, Span>

    ghost function Abs(): State
      reads this
    {
      State(freeSpans, spanMap, status, owner)
    }

    constructor ()
      ensures Abs() == EMPTY
    {
      freeSpans, spanMap, status, owner := map[], map[], map[], map[];
    }

    method AllocateSpan(n: nat, memory: Option<nat>) returns (r: Outcome)
      requires Inv(Abs()) && MayAllocate(Abs(), n, memory)
      modifies this
      ensures (Abs(), r) == Allocate(old(Abs()), n, memory)
      ensures Inv(Abs())
    {
      AllocateKeeps(Abs(), n, memory);
      if exists k :: k in freeSpans && n <= k {
        assert HasKeyFrom(freeSpans.Keys, n);
        ghost var bound := LowerBound(freeSpans.Keys, n);
        var k :| k in freeSpans && n <= k && forall j :: j in freeSpans && n <= j ==> k <= j;
        assert k == bound;
        if freeSpans[k] == [] {
          return Crash;
        }
        HeadCount(Abs(), k);
        var page := SplitHead(n, k);
        return Pages(page);
      }

      if memory.None? {
        return Failed;
      }
      ghost var after := TakeFromSystem(Abs(), n, memory.value);
      var span := Span(memory.value, n);
      spanMap := spanMap[memory.value := span];
      status, owner := after.status, after.owner;
      return Pages(memory.value);
    }

    /** The head span of list `k` leaves the list; what it has beyond `n` pages goes back as a span. */
    method SplitHead(n: nat, k: nat) returns (page: nat)
      requires n <= k && k in freeSpans && freeSpans[k] != [] && freeSpans[k][0].count == k
      modifies this
      ensures Abs() == TakeFrom(old(Abs()), n, k) && page == old(freeSpans[k][0].page)
    {
      ghost var after := TakeFrom(Abs(), n, k);
      var span := freeSpans[k][0];
      if |freeSpans[k]| > 1 {
        freeSpans := freeSpans[k := freeSpans[k][1..]];
      } else {
        freeSpans := freeSpans - {k};
      }
      if span.count > n {
        var newSpan := Span(span.page + n, span.count - n);
        freeSpans := freeSpans[newSpan.count := [newSpan] + ListAt(freeSpans, newSpan.count)];
        span := Span(span.page, n);
      }
      spanMap := spanMap[span.page := span];
      status, owner := after.status, after.owner;
      return span.page;
    }

    method DeallocateSpan(p: nat, n: nat)
      requires Inv(Abs()) && MayRelease(Abs(), p, n)
      modifies this
      ensures Abs() == Deallocate(old(Abs()), p, n)
      ensures Inv(Abs())
    {
      DeallocateKeeps(Abs(), p, n);
      if p !in spanMap {
        return;
      }
      ListSpan(p, n);
    }

    /** The span at `p` is joined with the one behind it, if that is on its list, and listed. */
    method ListSpan(p: nat, n: nat)
      requires p in spanMap && spanMap[p].page == p && (p + n in spanMap ==> spanMap[p+n].page == p + n)
      modifies this
      ensures Abs() == Deallocate(old(Abs()), p, n)
    {
      ghost var after := Deallocate(Abs(), p, n);
      CoalescedIsReleased(Abs(), p, n);
      var span := Coalesce(p, n);
      freeSpans := freeSpans[span.count := [span] + ListAt(freeSpans, span.count)];
      status, owner := after.status, after.owner;
    }

    method Coalesce(p: nat, n: nat) returns (span: Span)
      requires p in spanMap
      modifies `freeSpans, `spanMap
      ensures (freeSpans, spanMap, span) == Coalesced(old(Abs()), p, n)
    {
      span := spanMap[p];
      if p + n in spanMap {
        var nextSpan := spanMap[p+n];
        var found, list := Unlink(ListAt(freeSpans, nextSpan.count), nextSpan);
        freeSpans := freeSpans[nextSpan.count := list];
        if found {
          span := Span(span.page, span.count + nextSpan.count);
          spanMap := spanMap[p := span] - {p + n};
        }
      }
    }
  }

  /** The two maps before the span is listed, and the span. */
  function Coalesced(s: State, p: nat, n: nat): (map<nat, seq<Span>>, map<nat, Span>, Span)
    requires p in s.index
  {
    var sp := s.index[p];
    if p + n !in s.index then (s.free, s.index, sp)
    else
      var behind := s.index[p+n];
      var list := ListAt(s.free, behind.count);
      var free := s.free[behind.count := Remove(list, behind)];
      if behind !in list then (free, s.index, sp)
      else
        var merged := Span(sp.page, sp.count + behind.count);
        (free, s.index[p := merged] - {p + n}, merged)
  }

  lemma CoalescedIsReleased(s: State, p: nat, n: nat)
    requires p in s.index && s.index[p].page == p && (p + n in s.index ==> s.index[p+n].page == p + n)
    ensures var (free, index, sp) := Coalesced(s, p, n); var d := Deallocate(s, p, n);
      d.free == PushFront(free, sp) && d.index == index
  {
    if p + n in s.index {
      var behind := s.index[p+n];
      var list := ListAt(s.free, behind.count);
      if behind !in list {
        RemoveAbsent(list, behind);
      }
    }
  }
}
