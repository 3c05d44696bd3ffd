/** The bump allocator under MemoryPool (cpp_learning_projects/memory-mgkl/src/MemoryPool.cpp:31-96) and
    the size dispatch in front of it (cpp_learning_projects/memory-mgkl/include/MemoryPool.hpp:13-78).

    Addresses are 64-bit: `PadPointer` subtracts with wrap-around.  The block header and the slots share
    one memory, so the chain of blocks that the destructor walks survives only because no slot reaches
    into a header; that is part of the invariant.

    A slot has no header of its own.  The pool pads the start of the slots of a block to the slot size,
    which aligns them for sizes that are powers of two and for no others (`FirstSlotAlignedIff`).
*/
module SlotPool {

  import opened IntrusiveList

  const ADDRESS_RANGE: nat := 0x1_0000_0000_0000_0000
  const WORD: nat := 8
  const BLOCK_SIZE: nat := 4096
  const MEMORY_POOL_NUM: nat := 64
  const SLOT_BASE_SIZE: nat := 8
  const MAX_SLOT_SIZE: nat := 512

  // ---------------------------------------------------------------- padding

  /** `(align - p) % align` in unsigned 64-bit arithmetic. */
  function PadPointer(p: Address, align: nat): (pad: nat)
    requires 0 < align < ADDRESS_RANGE && p < ADDRESS_RANGE
    ensures pad < align
  {
    ((ADDRESS_RANGE + align - p) % ADDRESS_RANGE) % align
  }

  function Pow2(n: nat): (r: nat)
    ensures r > 0
  {
    if n == 0 then 1 else 2 * Pow2(n - 1)
  }

  predicate IsPowerOfTwo(a: nat)
    requires a > 0
  {
    a == 1 || (a % 2 == 0 && IsPowerOfTwo(a / 2))
  }

  ghost predicate Divides(a: nat, x: nat) {
    exists q: nat :: a * q == x
  }

  lemma {:induction false} Pow2Sum(m: nat, n: nat)
    ensures Pow2(m + n) == Pow2(m) * Pow2(n)
  {
    if m > 0 {
      Pow2Sum(m - 1, n);
      assert Pow2(m) * Pow2(n) == 2 * (Pow2(m - 1) * Pow2(n));
    }
  }

  lemma AddressRangeIsPow2()
    ensures Pow2(64) == ADDRESS_RANGE
  {
    assert Pow2(4) == 16;
    Pow2Sum(4, 4);
    Pow2Sum(8, 8);
    Pow2Sum(16, 16);
    Pow2Sum(32, 32);
  }

  /** The divisors of a power of two are the powers of two up to it. */
  lemma {:induction false} DividesPow2Iff(a: nat, n: nat)
    requires a > 0
    ensures Divides(a, Pow2(n)) <==> IsPowerOfTwo(a) && a <= Pow2(n)
    decreases n
  {
    if Divides(a, Pow2(n)) {
      var q: nat :| a * q == Pow2(n);
      DivisorIsPowerOfTwo(a, q, n);
    }
    if IsPowerOfTwo(a) && a <= Pow2(n) {
      if a == 1 {
        assert a * Pow2(n) == Pow2(n);
      } else {
        DividesPow2Iff(a / 2, n - 1);
        var q: nat :| (a / 2) * q == Pow2(n - 1);
        assert a * q == 2 * ((a / 2) * q);
      }
    }
  }

  lemma {:induction false} DivisorIsPowerOfTwo(a: nat, q: nat, n: nat)
    requires a > 0 && a * q == Pow2(n)
    ensures IsPowerOfTwo(a) && a <= Pow2(n)
  {
    FactorBound(a, q, Pow2(n));
    if n > 0 {
      EvenFactor(a, q, Pow2(n - 1));
      if a % 2 == 0 {
        DivisorIsPowerOfTwo(a / 2, q, n - 1);
      } else {
        DivisorIsPowerOfTwo(a, q / 2, n - 1);
      }
    }
  }

  lemma FactorBound(a: nat, q: nat, x: nat)
    requires a * q == x && x > 0
    ensures a <= x
  {
  }

  /** If a product is even, one of the factors can be halved. */
  lemma EvenFactor(a: nat, q: nat, half: nat)
    requires a * q == 2 * half
    ensures if a % 2 == 0 then (a / 2) * q == half else a * (q / 2) == half
  {
    if a % 2 == 0 {
      Halve(q, a / 2);
      assert q * a == 2 * half;
    } else if q % 2 == 0 {
      Halve(a, q / 2);
    } else {
      OddProduct(a / 2, q / 2);
    }
  }

  lemma Halve(x: nat, h: nat)
    ensures x * (2 * h) == 2 * (x * h)
  {
  }

  lemma OddProduct(b: nat, h: nat)
    ensures (2 * b + 1) * (2 * h + 1) == 2 * (2 * (b * h) + b + h) + 1
  {
  }

  lemma MulBounds(a: int, d: int)
    requires a > 0
    ensures d >= 1 ==> a * d >= a
    ensures d <= -1 ==> a * d <= -a
  {
  }

  lemma DivModUnique(x: int, a: nat, q: int, r: nat)
    requires a > 0 && x == a * q + r && r < a
    ensures x % a == r
  {
    assert a * (q - x / a) == x % a - r;
    MulBounds(a, q - x / a);
  }

  lemma ModZeroIffDivides(x: nat, a: nat)
    requires a > 0
    ensures x % a == 0 <==> Divides(a, x)
  {
    if x % a == 0 {
      assert a * (x / a) == x;
    }
    if Divides(a, x) {
      var q: nat :| a * q == x;
      DivModUnique(x, a, q, 0);
    }
  }

  /** Where the wrapped subtraction leads: to an address congruent to 2^64 modulo the slot size. */
  lemma WrappedPaddingAligns(p: Address, align: nat)
    requires 0 < align < p < ADDRESS_RANGE
    ensures (p + PadPointer(p, align)) % align == 0 <==> IsPowerOfTwo(align)
  {
    var x := ADDRESS_RANGE + align - p;
    var pad := PadPointer(p, align);
    assert x % ADDRESS_RANGE == x;
    var r := ADDRESS_RANGE % align;
    var k := x / align;
    assert p + pad == align * (ADDRESS_RANGE / align + 1 - k) + r by {
      assert pad == x - align * k;
      assert ADDRESS_RANGE == align * (ADDRESS_RANGE / align) + r;
      assert align * (ADDRESS_RANGE / align + 1 - k) == align * (ADDRESS_RANGE / align) + align - align * k;
    }
    DivModUnique(p + pad, align, ADDRESS_RANGE / align + 1 - k, r);
    ModZeroIffDivides(ADDRESS_RANGE, align);
    AddressRangeIsPow2();
    DividesPow2Iff(align, 64);
  }

  /** Up to the slot size nothing wraps, and padding goes to zero or to the slot size. */
  lemma LowPaddingAligns(p: Address, align: nat)
    requires 0 < align < ADDRESS_RANGE && p <= align
    ensures p + PadPointer(p, align) == if p == 0 then 0 else align
  {
    DivModUnique(ADDRESS_RANGE + (align - p), ADDRESS_RANGE, 1, align - p);
    DivModUnique(align - p, align, if p == 0 then 1 else 0, if p == 0 then 0 else align - p);
  }

  /** The padded address is a multiple of the slot size exactly for power-of-two slot sizes, and for
      addresses so low that the subtraction does not wrap. */
  lemma PaddingAligns(p: Address, align: nat)
    requires 0 < align < ADDRESS_RANGE && p < ADDRESS_RANGE
    ensures (p + PadPointer(p, align)) % align == 0 <==> p <= align || IsPowerOfTwo(align)
  {
    if p <= align {
      LowPaddingAligns(p, align);
      DivModUnique(p + PadPointer(p, align), align, if p == 0 then 0 else 1, 0);
    } else {
      WrappedPaddingAligns(p, align);
    }
  }

  lemma ScaledMod(m: nat, k: nat)
    requires k > 0
    ensures (WORD * m) % (WORD * k) == WORD * (m % k)
  {
    assert m == k * (m / k) + m % k;
    assert WORD * m == (WORD * k) * (m / k) + WORD * (m % k);
    DivModUnique(WORD * m, WORD * k, m / k, WORD * (m % k));
  }

  /** Slot sizes are multiples of the word, so padding never leaves word alignment. */
  lemma PaddingKeepsWords(p: Address, align: nat)
    requires 0 < align < ADDRESS_RANGE && p < ADDRESS_RANGE && align % WORD == 0 && p % WORD == 0
    ensures PadPointer(p, align) % WORD == 0
  {
    var x := (ADDRESS_RANGE + align - p) % ADDRESS_RANGE;
    assert x % WORD == 0;
    var m, k := x / WORD, align / WORD;
    assert x == WORD * m && align == WORD * k;
    ScaledMod(m, k);
  }

  /** Where the first slot of a new block goes: past the header, padded. */
  function FirstSlot(t: Address, size: nat): Address
    requires 0 < size < ADDRESS_RANGE && t + WORD < ADDRESS_RANGE
  {
    t + WORD + PadPointer(t + WORD, size)
  }

  /** A new block has room for a slot, whatever the padding. */
  lemma FirstSlotFits(t: Address, size: nat)
    requires IsBlock(t) && SLOT_BASE_SIZE <= size <= MAX_SLOT_SIZE && size % WORD == 0
    ensures SlotInBlock(FirstSlot(t, size), size, t) && FirstSlot(t, size) % WORD == 0
  {
    PaddingKeepsWords(t + WORD, size);
    WordSum(t, PadPointer(t + WORD, size));
  }

  lemma WordSum(a: nat, b: nat)
    requires a % WORD == 0 && b % WORD == 0
    ensures (a + WORD + b) % WORD == 0
  {
  }

  /** The first slot is slot-aligned exactly for the power-of-two sizes. */
  lemma FirstSlotAlignedIff(t: Address, size: nat)
    requires IsBlock(t) && SLOT_BASE_SIZE <= size <= MAX_SLOT_SIZE
    ensures FirstSlot(t, size) % size == 0 <==> IsPowerOfTwo(size)
  {
    WrappedPaddingAligns(t + WORD, size);
  }

  // ---------------------------------------------------------------- the pool

  /** Two slots of `size` bytes do not overlap. */
  ghost predicate Apart(a: Address, b: Address, size: nat) {
    a + size <= b || b + size <= a
  }

  /** The slot lies inside the block, past its header. */
  ghost predicate SlotInBlock(slot: Address, size: nat, block: Address) {
    block + WORD <= slot && slot + size <= block + BLOCK_SIZE
  }

  /** What operator new may return: a word-aligned block, not at the very start of memory. */
  predicate IsBlock(block: Address) {
    MAX_SLOT_SIZE <= block && block + BLOCK_SIZE <= ADDRESS_RANGE && block % WORD == 0
  }

  ghost predicate BlocksApart(blocks: seq<Address>) {
    && (forall i :: 0 <= i < |blocks| ==> IsBlock(blocks[i]))
    && (forall i, j :: 0 <= i < j < |blocks| ==> Apart(blocks[i], blocks[j], BLOCK_SIZE))
  }

  ghost predicate HasHome(slot: Address, size: nat, blocks: seq<Address>) {
    exists b :: 0 <= b < |blocks| && SlotInBlock(slot, size, blocks[b])
  }

  /** Every slot handed out is inside a block past its header, and no two overlap. */
  ghost predicate SlotsSound(handed: seq<Address>, size: nat, blocks: seq<Address>) {
    && (forall i :: 0 <= i < |handed| ==> handed[i] % WORD == 0 && HasHome(handed[i], size, blocks))
    && (forall i, j :: 0 <= i < j < |handed| ==> Apart(handed[i], handed[j], size))
  }

  /** No slot handed out reaches into the part of `block` from `cur` on. */
  ghost predicate Clear(handed: seq<Address>, size: nat, cur: Address, block: Address) {
    forall i :: 0 <= i < |handed| ==> handed[i] + size <= cur || block + BLOCK_SIZE <= handed[i]
  }

  /** A new block disturbs no slot, and none reaches into it. */
  lemma BlockAdded(handed: seq<Address>, size: nat, blocks: seq<Address>, t: Address)
    requires size > 0 && SlotsSound(handed, size, blocks) && BlocksApart([t] + blocks)
    ensures SlotsSound(handed, size, [t] + blocks) && t !in blocks && BlocksApart(blocks)
    ensures forall cur :: t <= cur ==> Clear(handed, size, cur, t)
  {
    var more := [t] + blocks;
    assert more[0] == t;
    forall b | 0 <= b < |blocks|
      ensures IsBlock(blocks[b]) && Apart(t, blocks[b], BLOCK_SIZE)
      ensures forall c :: b < c < |blocks| ==> Apart(blocks[b], blocks[c], BLOCK_SIZE)
    {
      var i := b + 1;
      assert more[i] == blocks[b] && Apart(more[0], more[i], BLOCK_SIZE) && IsBlock(more[i]);
      forall c | b < c < |blocks|
        ensures Apart(blocks[b], blocks[c], BLOCK_SIZE)
      {
        var j := c + 1;
        assert more[j] == blocks[c] && Apart(more[i], more[j], BLOCK_SIZE);
      }
    }
    forall i | 0 <= i < |handed|
      ensures HasHome(handed[i], size, more)
      ensures t + BLOCK_SIZE <= handed[i] || handed[i] + size <= t
    {
      assert HasHome(handed[i], size, blocks);
      var b :| 0 <= b < |blocks| && SlotInBlock(handed[i], size, blocks[b]);
      var c := b + 1;
      assert more[c] == blocks[b];
      assert SlotInBlock(handed[i], size, more[c]);
    }
  }

  /** Handing out the slot at the cursor keeps the slots apart. */
  lemma SlotAdded(handed: seq<Address>, size: nat, blocks: seq<Address>, cur: Address)
    requires SlotsSound(handed, size, blocks) && blocks != [] && cur % WORD == 0
    requires SlotInBlock(cur, size, blocks[0]) && Clear(handed, size, cur, blocks[0])
    ensures SlotsSound(handed + [cur], size, blocks)
    ensures Clear(handed + [cur], size, cur + size, blocks[0])
  {
    var more := handed + [cur];
    assert HasHome(cur, size, blocks);
    assert more[|handed|] == cur && forall i :: 0 <= i < |handed| ==> more[i] == handed[i];
  }

  /** No word of a slot is the header of a block. */
  lemma HeadersOutOfReach(slot: Address, size: nat, blocks: seq<Address>, a: Address)
    requires HasHome(slot, size, blocks) && BlocksApart(blocks) && slot <= a < slot + size
    ensures a !in blocks
  {
    var b :| 0 <= b < |blocks| && SlotInBlock(slot, size, blocks[b]);
    forall c | 0 <= c < |blocks|
      ensures blocks[c] != a
    {
      assert c < b ==> Apart(blocks[c], blocks[b], BLOCK_SIZE);
      assert b < c ==> Apart(blocks[b], blocks[c], BLOCK_SIZE);
    }
  }

  /** The state of a pool: header chain, slots and cursor agree.  The part of the newest block from the
      cursor on has not been handed out. */
  ghost predicate PoolSound(size: nat, first: Address, cur: Address, last: Address, word: map<Address, Address>,
    blocks: seq<Address>, handed: seq<Address>)
  {
    && SLOT_BASE_SIZE <= size <= MAX_SLOT_SIZE && size % WORD == 0
    && BlocksApart(blocks) && Linked(first, word, blocks) && SlotsSound(handed, size, blocks)
    && if blocks == [] then handed == [] && cur == last == 0
       else
         var block := blocks[0];
         last == block + BLOCK_SIZE - size + 1 && cur % WORD == 0 && block + WORD <= cur &&
           Clear(handed, size, cur, block)
  }

  lemma NewBlockSound(size: nat, first: Address, cur: Address, last: Address, word: map<Address, Address>,
      blocks: seq<Address>, handed: seq<Address>, t: Address)
    requires PoolSound(size, first, cur, last, word, blocks, handed) && IsBlock(t) && BlocksApart([t] + blocks)
    ensures PoolSound(size, t, FirstSlot(t, size), t + BLOCK_SIZE - size + 1, word[t := first], [t] + blocks, handed)
    ensures FirstSlot(t, size) + size <= t + BLOCK_SIZE
  {
    BlockAdded(handed, size, blocks, t);
    LinkedElsewhere(first, word, blocks, t, first);
    LinkFirst(first, word[t := first], blocks, t);
    FirstSlotFits(t, size);
  }

  lemma NextSlotSound(size: nat, first: Address, cur: Address, last: Address, word: map<Address, Address>,
      blocks: seq<Address>, handed: seq<Address>)
    requires PoolSound(size, first, cur, last, word, blocks, handed) && cur < last
    ensures PoolSound(size, first, cur + size, last, word, blocks, handed + [cur])
    ensures SlotInBlock(cur, size, blocks[0])
  {
    SlotAdded(handed, size, blocks, cur);
  }

  /** How many slots a new block has. */
  function Capacity(t: Address, size: nat): nat
    requires IsBlock(t) && SLOT_BASE_SIZE <= size <= MAX_SLOT_SIZE && size % WORD == 0
  {
    FirstSlotFits(t, size);
    (t + BLOCK_SIZE - FirstSlot(t, size)) / size
  }

  /** The slots of a block are handed out back to back, until exactly as many are that no further one fits: the
      cursor is short of the last slot after `k` of them if and only if there is a slot number `k`. */
  lemma BlockServes(t: Address, size: nat, k: nat)
    requires IsBlock(t) && SLOT_BASE_SIZE <= size <= MAX_SLOT_SIZE && size % WORD == 0
    ensures FirstSlot(t, size) + k * size < t + BLOCK_SIZE - size + 1 <==> k < Capacity(t, size)
    ensures k < Capacity(t, size) <==> SlotInBlock(FirstSlot(t, size) + k * size, size, t)
  {
    FirstSlotFits(t, size);
    var room := t + BLOCK_SIZE - FirstSlot(t, size);
    var n := room / size;
    assert n * size <= room < n * size + size by { QuotientBounds(room, size); }
    if k < n {
      MulBelow(k + 1, n, size);
    } else {
      MulBelow(n, k, size);
    }
  }

  lemma QuotientBounds(x: nat, d: nat)
    requires d > 0
    ensures x / d * d <= x < x / d * d + d
  {
  }

  lemma MulBelow(a: nat, b: nat, c: nat)
    requires a <= b
    ensures a * c <= b * c
  {
  }

  class MemoryPool {
    var slotSize: nat
    var firstBlock: Address
    var curSlot: Address
    var lastSlot: Address
    /** The first word of each block, and whatever the holders of slots have stored there. */
    var word: map<Address, Address>
    ghost var blocks: seq<Address>
    ghost var handed: seq<Address>

    ghost predicate Valid()
      reads this
    {
      PoolSound(slotSize, firstBlock, curSlot, lastSlot, word, blocks, handed)
    }

    /** The next slot lies in the newest block. */
    ghost predicate HasRoom()
      reads this
    {
      blocks != [] && SlotInBlock(curSlot, slotSize, blocks[0])
    }

    constructor (size: nat)
      requires SLOT_BASE_SIZE <= size <= MAX_SLOT_SIZE && size % WORD == 0
      ensures Valid() && slotSize == size && handed == []
    {
      slotSize := size;
      firstBlock, curSlot, lastSlot := 0, 0, 0;
      word, blocks, handed := map[], [], [];
    }

    /** `t` is the block that operator new returned: new, word-aligned, apart from the others. */
    method AllocateNewBlock(t: Address)
      requires Valid() && IsBlock(t) && BlocksApart([t] + blocks)
      modifies this
      ensures Valid() && blocks == [t] + old(blocks) && handed == old(handed) && slotSize == old(slotSize)
      ensures curSlot == FirstSlot(t, slotSize) && curSlot < lastSlot && lastSlot == t + BLOCK_SIZE - slotSize + 1
      ensures word == old(word)[t := old(firstBlock)] && firstBlock == t
    {
      NewBlockSound(slotSize, firstBlock, curSlot, lastSlot, word, blocks, handed, t);
      word := word[t := firstBlock];
      firstBlock := t;
      var body := t + WORD;
      curSlot := body + PadPointer(body, slotSize);
      lastSlot := t + BLOCK_SIZE - slotSize + 1;
      blocks := [t] + blocks;
    }

    /** The part of `allocate` under the lock: `t` is what operator new returns if it is asked. */
    method Allocate(t: Address) returns (slot: Address)
      requires Valid() && IsBlock(t) && BlocksApart([t] + blocks)
      modifies this
      ensures Valid() && slotSize == old(slotSize)
      ensures handed == old(handed) + [slot]
      ensures SlotInBlock(slot, slotSize, blocks[0]) && curSlot == slot + slotSize
      ensures old(HasRoom()) ==> slot == old(curSlot) && blocks == old(blocks) && word == old(word)
      ensures !old(HasRoom()) ==> slot == FirstSlot(t, slotSize) && blocks == [t] + old(blocks)
      ensures !old(HasRoom()) ==> word == old(word)[t := old(firstBlock)]
    {
      if curSlot >= lastSlot {
        AllocateNewBlock(t);
      }
      slot := curSlot;
      NextSlotSound(slotSize, firstBlock, curSlot, lastSlot, word, blocks, handed);
      curSlot := curSlot + WORD * (slotSize / WORD);
      handed := handed + [slot];
    }

    /** A holder of a slot writes to it; the chain of blocks is out of reach. */
    method Store(slot: Address, a: Address, v: Address)
      requires Valid() && slot in handed && slot <= a < slot + slotSize
      modifies this`word
      ensures Valid() && word == old(word)[a := v]
    {
      HeadersOutOfReach(slot, slotSize, blocks, a);
      LinkedElsewhere(firstBlock, word, blocks, a, v);
      word := word[a := v];
    }

    /** The destructor's walk: it releases every block once, the newest first. */
    method ReleaseAll() returns (released: seq<Address>)
      requires Valid()
      ensures released == blocks
    {
      released := [];
      var p := firstBlock;
      while p != NULL
        invariant |released| <= |blocks| && released == blocks[..|released|]
        invariant Linked(p, word, blocks[|released|..])
        decreases |blocks| - |released|
      {
        var q := word[p];
        assert blocks[|released|..][1..] == blocks[|released|+1..];
        released := released + [p];
        p := q;
      }
    }
  }

  // ---------------------------------------------------------------- size classes

  /** The index of the pool that serves `nbytes`, as in `useMemory` and `freeMemory`. */
  function PoolIndex(nbytes: nat): nat
    requires 1 <= nbytes <= MAX_SLOT_SIZE
  {
    (nbytes + 7) / SLOT_BASE_SIZE - 1
  }

  /** The slot size `initMemoryPool` gives pool `index`. */
  function PoolSlotSize(index: nat): nat {
    (index + 1) * SLOT_BASE_SIZE
  }

  /** Every request goes to an existing pool whose slots are the smallest that hold it. */
  lemma DispatchIsTight(nbytes: nat)
    requires 1 <= nbytes <= MAX_SLOT_SIZE
    ensures PoolIndex(nbytes) < MEMORY_POOL_NUM
    ensures nbytes <= PoolSlotSize(PoolIndex(nbytes))
    ensures forall i :: 0 <= i < PoolIndex(nbytes) ==> PoolSlotSize(i) < nbytes
  {
  }
}
