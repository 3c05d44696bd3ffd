/** One size class of the thread cache and of the central cache behind it
    (cpp_learning_projects/memory-mgkl/src/ThreadCache.cpp:7-129 and CentralCache.cpp:16-112), with the
    lists threaded through the blocks.

    The methods here are the program's, list walks included, and each is tied to what it does to the
    sequences of blocks in the two lists.  `CacheTiers` takes those effects as the steps of a protocol
    between threads.  Different classes use different array entries and different blocks, so one object
    stands for one class.
*/
module ThreadCache {

  import opened IntrusiveList
  import opened SizeClasses

  const WORD_RANGE: nat := 0x1_0000_0000_0000_0000
  const THRESHOLD: nat := 64
  const SPAN_PAGES: nat := 8
  const PAGE_SIZE: nat := 4096
  const SPAN_BYTES: nat := SPAN_PAGES * PAGE_SIZE

  datatype Option<+T> = None | Some(value: T)

  /** Unsigned 64-bit arithmetic. */
  function Wrap(x: int): nat {
    x % WORD_RANGE
  }

  // ---------------------------------------------------------------- effects on the lists

  /** A thread's list of one class: its blocks and the counter kept beside it. */
  datatype Local = Local(list: seq<Address>, size: nat)

  function Decremented(l: Local): Local {
    l.(size := Wrap(l.size - 1))
  }

  function Pushed(l: Local, p: Address): Local {
    Local([p] + l.list, Wrap(l.size + 1))
  }

  /** The number of nodes the give-back means to keep. */
  function Keep(size: nat): nat {
    if size / 4 > 1 then size / 4 else 1
  }

  /** Whether a give-back cuts the list: the walk over `Keep` links has to end on a node. */
  predicate Cuts(l: Local) {
    l.size > 1 && Keep(l.size) < |l.list|
  }

  /** What stays: one node more than the counter then says. */
  function Kept(l: Local): Local
    requires Cuts(l)
  {
    Local(l.list[..Keep(l.size)+1], Keep(l.size))
  }

  function CutOff(l: Local): seq<Address>
    requires Cuts(l)
  {
    l.list[Keep(l.size)+1..]
  }

  /** The limit passed along with the chain: a byte count where `returnRange` counts blocks. */
  function ReturnLimit(size: nat, bytes: nat): nat {
    Wrap((size - Keep(size)) * Ceil(bytes))
  }

  /** How many blocks of a chain `returnRange` links in before its count stops it. */
  function Accepted(length: nat, limit: nat): nat {
    if length <= limit then length else if limit < 1 && length >= 1 then 1 else limit
  }

  /** The blocks carved from a span, in address order. */
  function Blocks(start: Address, size: nat): (s: seq<Address>)
    requires size > 0
    ensures |s| == if SPAN_BYTES / size > 1 then SPAN_BYTES / size else 1
  {
    seq(if SPAN_BYTES / size > 1 then SPAN_BYTES / size else 1, i => start + i * size)
  }

  lemma BlocksDistinct(start: Address, size: nat)
    requires size > 0 && start != NULL
    ensures Distinct(Blocks(start, size)) && NULL !in Blocks(start, size)
    ensures Blocks(start, size)[0] == start
  {
    var s := Blocks(start, size);
    forall i, j | 0 <= i < j < |s|
      ensures s[i] != s[j]
    {
      assert (j - i) * size > 0;
      assert j * size == i * size + (j - i) * size;
    }
  }

  /** The pages that the central cache asks for, to carve blocks of `size` bytes from. */
  function SpanPages(size: nat): nat {
    if size <= SPAN_BYTES then SPAN_PAGES else (size + PAGE_SIZE - 1) / PAGE_SIZE
  }

  /** The blocks lie back to back in the pages of the span, all inside.  What is left behind the last is too
      short for one more, or, for sizes that have a span of their own, less than a page. */
  lemma BlocksFillSpan(start: Address, size: nat)
    requires size > 0
    ensures var s, end := Blocks(start, size), start + SpanPages(size) * PAGE_SIZE;
      && (forall i :: 0 <= i < |s| ==> start <= s[i] && s[i] + size <= end)
      && (forall i :: 0 < i < |s| ==> s[i] == s[i-1] + size)
      && s[0] == start && end - (s[|s|-1] + size) < if size <= SPAN_BYTES then size else PAGE_SIZE
  {
    var s := Blocks(start, size);
    SpanRoom(size, |s|);
    forall i | 0 <= i < |s|
      ensures start <= s[i] && s[i] + size <= start + |s| * size
      ensures i > 0 ==> s[i] == s[i-1] + size
      ensures i == |s| - 1 ==> s[i] + size == start + |s| * size
    {
      BlockEnds(i, |s|, size);
    }
  }

  lemma SpanRoom(size: nat, n: nat)
    requires size > 0 && n == if SPAN_BYTES / size > 1 then SPAN_BYTES / size else 1
    ensures 0 <= SpanPages(size) * PAGE_SIZE - n * size < if size <= SPAN_BYTES then size else PAGE_SIZE
  {
    if size <= SPAN_BYTES {
      QuotientBounds(SPAN_BYTES, size);
    } else {
      assert SPAN_BYTES / size == 0;
    }
  }

  lemma QuotientBounds(x: nat, d: nat)
    requires 0 < d <= x
    ensures x / d >= 1 && x / d * d <= x < x / d * d + d
  {
  }

  lemma BlockEnds(i: nat, n: nat, size: nat)
    requires i < n
    ensures i * size + size <= n * size
    ensures i == n - 1 ==> i * size + size == n * size
    ensures i > 0 ==> i * size == (i - 1) * size + size
  {
    OneMore(i, size);
    MulBelow(i + 1, n, size);
    if i > 0 {
      OneMore(i - 1, size);
    }
  }

  lemma OneMore(i: nat, size: nat)
    ensures (i + 1) * size == i * size + size
  {
  }

  lemma MulBelow(a: nat, b: nat, c: nat)
    requires a <= b
    ensures a * c <= b * c
  {
  }

  /** The block after position `k`, or null. */
  function NextIn(s: seq<Address>, k: nat): Address {
    if k + 1 < |s| then s[k+1] else NULL
  }

  /** Blocks whose words lead each to the next form a list. */
  lemma {:induction false} LinkedFromWords(word: map<Address, Address>, s: seq<Address>)
    requires s != [] && NULL !in s
    requires forall k :: 0 <= k < |s| ==> s[k] in word
    requires forall k :: 0 <= k < |s| ==> word[s[k]] == NextIn(s, k)
    ensures Linked(s[0], word, s)
    decreases s
  {
    if |s| > 1 {
      var t := s[1..];
      forall k | 0 <= k < |t|
        ensures t[k] in word && word[t[k]] == NextIn(t, k)
      {
        var j := k + 1;
        assert t[k] == s[j] && NextIn(t, k) == NextIn(s, j);
      }
      assert NULL !in t;
      LinkedFromWords(word, t);
      assert word[s[0]] == NextIn(s, 0);
    } else {
      assert word[s[0]] == NextIn(s, 0);
      assert Linked(NULL, word, s[1..]);
    }
  }

  ghost predicate Apart(s: seq<Address>, t: seq<Address>) {
    forall b :: b in s ==> b !in t
  }

  // ---------------------------------------------------------------- the memory and the two caches

  /** The first word of every block. */
  class Memory {
    var word: map<Address, Address>

    constructor ()
      ensures word == map[]
    {
      word := map[];
    }
  }

  class CentralCache {
    const memory: Memory
    const index: nat
    var head: Address
    ghost var list: seq<Address>

    ghost predicate Valid()
      reads this, memory
    {
      Linked(head, memory.word, list) && Distinct(list)
    }

    constructor (memory: Memory, index: nat)
      ensures this.memory == memory && this.index == index && list == [] && Valid()
    {
      this.memory, this.index, head, list := memory, index, NULL, [];
    }

    /** A span that the page cache gives is new to the caches and zeroed. */
    ghost predicate FreshSpan(start: Address)
      reads this, memory
    {
      start != NULL && var blocks := Blocks(start, ClassBytes(index));
        Apart(blocks, list) && forall b :: b in blocks ==> b in memory.word && memory.word[b] == NULL
    }

    /** One block, null-terminated: the head of the list, or else the first of a newly carved span. */
    method FetchRange(span: Option<Address>) returns (res: Address)
      requires Valid() && index < FREE_LIST_SIZE && (span.Some? ==> FreshSpan(span.value))
      modifies this, memory
      ensures Valid() && memory.word.Keys == old(memory.word.Keys)
      ensures old(list) != [] ==> res == old(list)[0] && list == old(list)[1..]
      ensures old(list) == [] && span.None? ==> res == NULL && list == [] && memory.word == old(memory.word)
      ensures old(list) == [] && span.Some? ==>
        var blocks := Blocks(span.value, ClassBytes(index)); res == blocks[0] && list == blocks[1..]
      ensures res != NULL ==> Linked(res, memory.word, [res]) && res !in list
      ensures forall b ::
        (b in memory.word && b !in old(list) && (span.None? || b !in Blocks(span.value, ClassBytes(index))))
        ==> memory.word[b] == old(memory.word)[b]
    {
      res := head;
      if res == NULL {
        if span.None? {
          return NULL;
        }
        res := span.value;
        BlocksDistinct(res, ClassBytes(index));
        CarveSpan(res);
      } else {
        CutBehind(head, memory.word, list, 0);
        LinkedNext(head, memory.word, list, 0);
        var next := memory.word[res];
        memory.word := memory.word[res := NULL];
        head := next;
        list := list[1..];
      }
    }

    /** Cut the span into blocks: the first is handed out, the rest become the list. */
    method CarveSpan(start: Address)
      requires Valid() && list == [] && FreshSpan(start)
      modifies this, memory
      ensures Valid() && memory.word.Keys == old(memory.word.Keys)
      ensures list == Blocks(start, ClassBytes(index))[1..] && Linked(start, memory.word, [start]) && start !in list
      ensures forall b :: b in memory.word && b !in Blocks(start, ClassBytes(index)) ==>
        memory.word[b] == old(memory.word)[b]
    {
      var size := ClassBytes(index);
      ghost var blocks := Blocks(start, size);
      BlocksDistinct(start, size);
      var blockNum := SPAN_BYTES / size;
      if blockNum > 1 {
        LinkBlocks(start, size, blockNum, blocks);
        LinkedFromWords(memory.word, blocks);
        CutBehind(start, memory.word, blocks, 0);
        LinkedNext(start, memory.word, blocks, 0);
        assert blocks[..0+1] == [start];
        var next := memory.word[start];
        memory.word := memory.word[start := NULL];
        head := next;
        list := blocks[1..];
        assert forall i :: 0 <= i < |list| ==> list[i] == blocks[i+1];
      } else {
        assert blocks == [start];
        assert Linked(NULL, memory.word, [start][1..]);
      }
    }

    /** The carving loop: each block's word leads to the next block, the last one's is null. */
    method LinkBlocks(start: Address, size: nat, blockNum: nat, ghost blocks: seq<Address>)
      requires blockNum > 1 && |blocks| == blockNum && Distinct(blocks)
      requires forall i :: 0 <= i < blockNum ==> blocks[i] == start + i * size && blocks[i] in memory.word
      modifies memory
      ensures memory.word.Keys == old(memory.word.Keys)
      ensures forall k :: 0 <= k < |blocks| ==> memory.word[blocks[k]] == NextIn(blocks, k)
      ensures forall b :: b in memory.word && b !in blocks ==> memory.word[b] == old(memory.word)[b]
    {
      for i := 1 to blockNum
        invariant memory.word.Keys == old(memory.word.Keys)
        invariant forall k :: 0 <= k < i - 1 ==> memory.word[blocks[k]] == NextIn(blocks, k)
        invariant forall b :: b in memory.word && b !in blocks ==> memory.word[b] == old(memory.word)[b]
      {
        var cur := start + (i - 1) * size;
        var next := start + i * size;
        ghost var k := i - 1;
        assert cur == blocks[k] && next == NextIn(blocks, k);
        memory.word := memory.word[cur := next];
      }
      ghost var last := blockNum - 1;
      assert blocks[last] == start + (blockNum - 1) * size;
      memory.word := memory.word[start + (blockNum - 1) * size := NULL];
    }

    /** Put a chain in front of the list.  The count stops at `limit` blocks; what lies behind is cut off. */
    method ReturnRange(start: Address, limit: nat, ghost chain: seq<Address>)
      requires Valid() && index < FREE_LIST_SIZE
      requires Linked(start, memory.word, chain) && Distinct(chain) && Apart(chain, list)
      modifies this, memory
      ensures Valid() && memory.word.Keys == old(memory.word.Keys)
      ensures list == chain[..Accepted(|chain|, limit)] + old(list)
      ensures forall b :: b in memory.word && b !in chain ==> memory.word[b] == old(memory.word)[b]
    {
      if start == NULL {
        return;
      }
      var end, count := start, 1;
      LinkedNext(start, memory.word, chain, 0);
      while memory.word[end] != NULL && count < limit
        modifies {}
        invariant 1 <= count <= |chain| && (count == 1 || count <= limit)
        invariant end == chain[count-1] && end in memory.word
        invariant memory.word[end] == NextIn(chain, count - 1)
        decreases |chain| - count
      {
        end := memory.word[end];
        LinkedNext(start, memory.word, chain, count);
        count := count + 1;
      }
      assert count == Accepted(|chain|, limit) by {
        if count < |chain| {
          LinkedNext(start, memory.word, chain, count);
        }
      }
      ghost var front := chain[..count];
      LinkedFront(start, memory.word, chain, count, list, head);
      memory.word := memory.word[end := head];
      head := start;
      list := front + list;
    }
  }

  /** The first `k` blocks of a chain, joined to another list. */
  lemma LinkedFront(start: Address, word: map<Address, Address>, chain: seq<Address>, k: nat,
      list: seq<Address>, head: Address)
    requires Linked(start, word, chain) && Distinct(chain) && 1 <= k <= |chain|
    requires Linked(head, word, list) && Distinct(list) && Apart(chain, list)
    ensures Linked(start, word[chain[k-1] := head], chain[..k] + list) && Distinct(chain[..k] + list)
  {
    var front := chain[..k];
    var last := chain[k-1];
    CutBehind(start, word, chain, k - 1);
    assert chain[..k-1+1] == front;
    LinkedElsewhere(head, word, list, last, NULL);
    Splice(start, word[last := NULL], front, head, list);
    assert word[last := NULL][last := head] == word[last := head];
    assert forall i :: 0 <= i < |front| ==> front[i] in chain;
  }

  class ThreadCache {
    const memory: Memory
    const central: CentralCache
    const index: nat
    var freeList: Address
    var freeListSize: nat
    ghost var list: seq<Address>

    ghost predicate Valid()
      reads this, central, memory
    {
      && central.memory == memory && central.index == index && index < FREE_LIST_SIZE
      && freeListSize < WORD_RANGE
      && Linked(freeList, memory.word, list) && Distinct(list)
      && central.Valid() && Apart(list, central.list)
    }

    ghost function Abs(): Local
      reads this
    {
      Local(list, freeListSize)
    }

    constructor (central: CentralCache)
      requires central.Valid() && central.index < FREE_LIST_SIZE
      ensures Valid() && this.central == central && list == [] && freeListSize == 0
    {
      this.memory, this.central, this.index := central.memory, central, central.index;
      freeList, freeListSize, list := NULL, 0, [];
    }

    /** Blocks this object may touch besides those of its own list. */
    ghost predicate SpanApart(span: Option<Address>)
      requires Valid()
      reads this, central, memory
    {
      span.Some? ==> central.FreshSpan(span.value) && Apart(Blocks(span.value, ClassBytes(index)), list)
    }

    /** `span` is what the page cache answers if the central list is empty. */
    method Allocate(bytes: nat, span: Option<Address>) returns (p: Address)
      requires Valid() && bytes <= MAX_BYTES && GetIndex(bytes) == index && SpanApart(span)
      modifies this, central, memory
      ensures Valid() && memory.word.Keys == old(memory.word.Keys)
      ensures old(list) != [] ==>
        && p == old(list)[0] && Abs() == Decremented(old(Abs())).(list := old(list)[1..])
        && central.list == old(central.list)
      ensures old(list) == [] && p != NULL ==> Abs() == old(Abs())
      ensures old(list) == [] && old(central.list) != [] ==>
        p == old(central.list)[0] && central.list == old(central.list)[1..]
      ensures old(list) == [] && old(central.list) == [] && span.Some? ==>
        var blocks := Blocks(span.value, ClassBytes(index)); p == blocks[0] && central.list == blocks[1..]
      ensures old(list) == [] && old(central.list) == [] && span.None? ==>
        p == NULL && Abs() == Decremented(old(Abs())) && central.list == []
      ensures forall b ::
        (b in memory.word && b !in old(central.list) && (span.None? || b !in Blocks(span.value, ClassBytes(index))))
        ==> memory.word[b] == old(memory.word)[b]
    {
      var size := if bytes == 0 then ALIGNMENT else bytes;
      assert GetIndex(size) == index;
      freeListSize := Wrap(freeListSize - 1);
      if freeList != NULL {
        p := freeList;
        LinkedNext(freeList, memory.word, list, 0);
        freeList := memory.word[p];
        list := list[1..];
        return p;
      }
      p := FetchFromCentralCache(span);
      assert Wrap(Wrap(old(freeListSize) - 1) + 1) == old(freeListSize);
    }

    /** The list is empty: one block comes from the central cache, and the rest of its chain is counted. */
    method FetchFromCentralCache(span: Option<Address>) returns (res: Address)
      requires Valid() && list == [] && SpanApart(span)
      modifies this, central, memory
      ensures Valid() && memory.word.Keys == old(memory.word.Keys) && list == []
      ensures freeListSize == if res == NULL then old(freeListSize) else Wrap(old(freeListSize) + 1)
      ensures old(central.list) != [] ==> res == old(central.list)[0] && central.list == old(central.list)[1..]
      ensures old(central.list) == [] && span.Some? ==>
        var blocks := Blocks(span.value, ClassBytes(index));
          res == blocks[0] && res != NULL && central.list == blocks[1..]
      ensures old(central.list) == [] && span.None? ==> res == NULL && central.list == []
      ensures old(central.list) != [] ==> res != NULL
      ensures forall b ::
        (b in memory.word && b !in old(central.list) && (span.None? || b !in Blocks(span.value, ClassBytes(index))))
        ==> memory.word[b] == old(memory.word)[b]
    {
      res := central.FetchRange(span);
      if res == NULL {
        return;
      }
      freeList := memory.word[res];
      var batchNum, cur := 0, res;
      while cur != NULL
        modifies {}
        invariant cur == (if batchNum == 0 then res else NULL) && 0 <= batchNum <= 1
        decreases 1 - batchNum
      {
        batchNum := batchNum + 1;
        cur := memory.word[cur];
      }
      freeListSize := Wrap(freeListSize + batchNum);
    }

    /** Put `p` on the list; past the threshold give part of the list back. */
    method Deallocate(p: Address, bytes: nat)
      requires Valid() && bytes <= MAX_BYTES && GetIndex(bytes) == index
      requires p != NULL && p in memory.word && p !in list && p !in central.list
      modifies this, central, memory
      ensures Valid() && memory.word.Keys == old(memory.word.Keys)
      ensures var l := Pushed(old(Abs()), p);
        if l.size > THRESHOLD && Cuts(l) then
          && Abs() == Kept(l)
          && central.list == CutOff(l)[..Accepted(|CutOff(l)|, ReturnLimit(l.size, bytes))] + old(central.list)
        else Abs() == l && central.list == old(central.list)
      ensures forall b :: b in memory.word && b != p && b !in old(list) ==> memory.word[b] == old(memory.word)[b]
    {
      PushFront(p);
      if freeListSize > THRESHOLD {
        ReturnToCentralCache(bytes);
      }
    }

    method PushFront(p: Address)
      requires Valid() && p != NULL && p in memory.word && p !in list && p !in central.list
      modifies this, memory
      ensures Valid() && memory.word.Keys == old(memory.word.Keys) && list != []
      ensures Abs() == Pushed(old(Abs()), p) && central.list == old(central.list)
      ensures forall b :: b in memory.word && b != p && b !in old(list) ==> memory.word[b] == old(memory.word)[b]
    {
      LinkedElsewhere(freeList, memory.word, list, p, freeList);
      LinkedElsewhere(central.head, memory.word, central.list, p, freeList);
      memory.word := memory.word[p := freeList];
      LinkFirst(freeList, memory.word, list, p);
      freeList := p;
      list := [p] + list;
      freeListSize := Wrap(freeListSize + 1);
    }

    method ReturnToCentralCache(bytes: nat)
      requires Valid() && list != []
      modifies this, central, memory
      ensures Valid() && memory.word.Keys == old(memory.word.Keys)
      ensures var l := old(Abs());
        if Cuts(l) then
          && Abs() == Kept(l)
          && central.list == CutOff(l)[..Accepted(|CutOff(l)|, ReturnLimit(l.size, bytes))] + old(central.list)
        else Abs() == l && central.list == old(central.list)
      ensures forall b :: b in memory.word && b !in old(list) ==> memory.word[b] == old(memory.word)[b]
    {
      var alignedSize := Ceil(bytes);
      var batchNum := freeListSize;
      if batchNum <= 1 {
        return;
      }
      var keepNum := Keep(batchNum);
      var returnNum := batchNum - keepNum;
      var returnBytes := Wrap(returnNum * alignedSize);
      assert returnBytes == ReturnLimit(batchNum, bytes);
      var splitNode := WalkTo(keepNum);
      if splitNode != NULL {
        CutList(splitNode, keepNum, returnBytes);
      }
    }

    /** The walk over `keepNum` links, which stops early at the end of the list. */
    method WalkTo(keepNum: nat) returns (splitNode: Address)
      requires Valid() && list != []
      ensures splitNode == if keepNum < |list| then list[keepNum] else NULL
      ensures splitNode != NULL <==> keepNum < |list|
    {
      splitNode := freeList;
      LinkedNext(freeList, memory.word, list, 0);
      for i := 0 to keepNum
        invariant i < |list| && splitNode == list[i] && splitNode != NULL
      {
        LinkedNext(freeList, memory.word, list, i);
        if i + 1 < |list| {
          LinkedNext(freeList, memory.word, list, i + 1);
        }
        splitNode := memory.word[splitNode];
        if splitNode == NULL {
          return;
        }
      }
    }

    /** The cut behind `splitNode`, and the return of what lay behind it. */
    method CutList(splitNode: Address, keepNum: nat, returnBytes: nat)
      requires Valid() && keepNum < |list| && splitNode == list[keepNum] && keepNum < WORD_RANGE
      modifies this, central, memory
      ensures Valid() && memory.word.Keys == old(memory.word.Keys)
      ensures Abs() == Local(old(list)[..keepNum+1], keepNum)
      ensures var chain := old(list)[keepNum+1..];
        central.list == chain[..Accepted(|chain|, returnBytes)] + old(central.list)
      ensures forall b :: b in memory.word && b !in old(list) ==> memory.word[b] == old(memory.word)[b]
    {
      LinkedNext(freeList, memory.word, list, keepNum);
      CutBehind(freeList, memory.word, list, keepNum);
      LinkedElsewhere(central.head, memory.word, central.list, splitNode, NULL);
      ghost var chain, kept := list[keepNum+1..], list[..keepNum+1];
      var nextNode := memory.word[splitNode];
      memory.word := memory.word[splitNode := NULL];
      freeListSize := keepNum;
      list := kept;
      if nextNode != NULL {
        ghost var word := memory.word;
        central.ReturnRange(nextNode, returnBytes, chain);
        LinkedFrame(freeList, word, memory.word, list);
      }
    }
  }
}
