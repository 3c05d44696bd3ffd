# Verified models of the study projects

Each module models one part of the repository and proves what that part is for. The parts share no
code, and neither do their models, except for lists threaded through memory (`IntrusiveList`), the
size classes, and sorting.

- **Memory allocator** (`memory-mgkl`)
  - `FreeList`: the lock-free slot list, as single loads, stores and swaps of any number of threads.
  - `SlotPool`: the bump allocator over 4096-byte blocks, with wrapping pointer arithmetic, and the size dispatch.
  - `PageCache`: splitting and coalescing page spans.
  - `ThreadCache`: the thread and central caches, with their lists threaded through the blocks.
  - `CacheTiers`: any number of threads over one central cache, with the spin lock and the counters;
    `CacheRuns` has its runs that lose blocks or wrap the counter.
  - `CacheMemory`: the same down to list heads and first words, shown to refine `CacheTiers`.
  - `SizeClasses`: the arithmetic of the classes.
- **Reactor** (`muduo-mgkl`)
  - `EventLoop`: the task queue and the eventfd wake-up protocol.
  - `Buffer`: the compacting byte buffer and the queue it stands for.
  - `TcpConnection`: sends, short writes, half-close and close, over `Buffer`.
- **Worker pool** (`30dayMakeCppServer/day11`)
  - `ThreadPool`: mutex, condition variable, and a destructor that drains.
- **Algorithms** (`Algorithm/`)
  - `Dijkstra`, `TopoSort`, `Floyd`, `MinWindow`, `Subsets`, `Permutations`, `Greedy`.

## How it is built

What runs in one thread is a class whose methods change its fields as the program does, each tied by its
contract to a function of the state before; what the program promises is proved about those functions.
What several threads share is a state machine: one step for each access that another thread can come
between. Its invariants are kept by every step and carried over every run by induction. The word of
memory that links a block to the next is an entry of a map from addresses to words.

Verify everything with `dafny verify dfyconfig.toml`.

## Where the code does not do what it is for

The code is modelled as it stands. Where it falls short, a lemma gives the input or the run, and another
says exactly when it does not.

- `PageCache`: a release can leave a key of `freeSpans_` without a span, and a later request then
  dereferences null (`CrashRun`, `CrashIff`, `EmptyKeyIff`; over runs, `KeysStayIff` and `CrashNeedsEmptyKey`).
- `FreeList`: without a version tag, reuse of a slot between the read and the swap of a pop gives one slot to
  two threads (`ReuseBreaksTheList`; `EveryRunIsAStackIff` says exactly which runs keep the list a stack). A new
  block clears the list unseen (`ClearingLosesASlot`, `LostIffClearedNonEmpty`); with one thread it never loses a
  slot (`OneThreadLosesNothing`).
- `ThreadCache` and `CacheTiers`: the give-back passes a byte count where blocks are counted, so a free that tells
  too few bytes loses blocks (`CacheRuns.LossRun`; `GiveBackTakesAllIff` and `EveryRunLosesNothingIff` say exactly
  when); a fetch that fails leaves the counter decremented, until a free reads it wrapped (`CacheRuns.WrapRun`,
  `PushedCounter`); the cut keeps one node more than it records.
- `EventLoop`: what the loop thread queues before `loop()` does not wake it (`EarlyPushesSleepIff`, and over all
  runs `AsleepIff`), and a quit before `loop()` is dropped (`QuitBeforeLoopIsLost`; exactly which, `QuitStandsIff`).
- `TcpConnection`: a shutdown from another thread can half-close twice (`RemoteShutdownHalfClosesTwice`;
  exactly when, `HalfClosesOnceIff`), and can half-close a connection that was closed with bytes waiting
  (`RemoteHalfCloseDropsBytes`, `HalfCloseDropsIff`).
- `ThreadPool`: `stop` has no initialiser. The runs start with it false; `StoppedAcceptsNothing` says what a pool
  that starts with it true does. A pool of size zero accepts tasks and never runs them.
- `Dijkstra`: the distance of the source itself is that of the lightest closed walk, not zero, unless the
  diagonal entry is zero (`LoneSourceIsUnreached`, `SourceDistanceIsZeroIff`).
- `TopoSort`: `hasCycle` and `postorder` are not cleared between calls; the contract of `FindOrder` starts from any
  state. `Subsets` and `Permutations`: neither are `res` and `track`.
- `Permutations`: equal numbers are not told apart, so that each permutation is listed several times
  (`ListsEachEqually`; once exactly for distinct numbers, `OnceIffDistinct`).
- `Floyd`: `detectCycle` dereferences null on every list of two or more nodes that ends.
- `MinWindow`: for an empty `t` the inner loop never stops and reads past the end of `s`.
- `Greedy`: the scan visits the first interval again and counts it twice if that is empty, and an empty interval
  that the sort puts before another of the same end keeps that one out (`EmptyKeepsOut`; exactly when the count is
  right, `ScanIsLargestIff`). Meetings entered backwards can hide others (`BackwardHides`; exactly when, `PeakIsMostIff`).

## Model

| member | source | states |
|---|---|---|
| `FreeList.EveryRunIsAStackIff` | cpp_learning_projects/memory-mgkl/src/MemoryPool.cpp:83-116 | For any number of threads and any interleaving of loads, stores and swaps: in every state the run comes through the links in memory spell out one abstract stack, every carved slot is in exactly one place and the successful swaps are where pushes and pops take effect, if and only if every successful pop swap stores the link that its slot has at that moment |
| `FreeList.EveryTimelyRunIsAStack` | cpp_learning_projects/memory-mgkl/src/MemoryPool.cpp:83-116 | So it is in every run in which no slot returns to the list between another pop's read of its link and that pop's swap |
| `FreeList.SoundKeeps` | cpp_learning_projects/memory-mgkl/src/MemoryPool.cpp:83-116 | Each single load, store or swap that does not store an outdated link keeps it, also when a pop reads the word of a slot that another thread already owns and writes |
| `FreeList.MismatchBreaks` | cpp_learning_projects/memory-mgkl/src/MemoryPool.cpp:105-114 | A successful pop swap that stores an outdated link always leaves memory and stack apart |
| `FreeList.StepKeeps` | cpp_learning_projects/memory-mgkl/src/MemoryPool.cpp:83-116 | As long as no slot returns in that window, every link in a pop's hand stays current |
| `FreeList.LostIffClearedNonEmpty` | cpp_learning_projects/memory-mgkl/src/MemoryPool.cpp:65-81 | Slots become unreachable in a run that keeps the list a stack exactly when a new block is obtained while the list is not empty, because of the unconditional reset of the head |
| `FreeList.ClearingLosesASlot` | cpp_learning_projects/memory-mgkl/src/MemoryPool.cpp:65-81 | A run in which that happens: a thread that found the list empty obtains a block after another has pushed a slot, and the slot is on no list and with no thread |
| `FreeList.OneThreadLosesNothing` | cpp_learning_projects/memory-mgkl/src/MemoryPool.cpp:31-54 | A pool used by one thread needs no restriction: no slot is ever lost, and the list is a stack |
| `FreeList.DeallocationEnds` | cpp_learning_projects/memory-mgkl/src/MemoryPool.cpp:56-92 | In every run a deallocation goes on until its push of that slot has taken effect, and nothing else takes effect for that thread before |
| `FreeList.AllocationEnds` | cpp_learning_projects/memory-mgkl/src/MemoryPool.cpp:31-54 | In every run an allocation goes on until it has a slot: one popped from the list, or, only once it has found the list empty, one from a block, new at most once |
| `FreeList.SwapFailsOnlyIfMoved` | cpp_learning_projects/memory-mgkl/src/MemoryPool.cpp:83-116 | Lock freedom: after a load of the head the swap that follows succeeds unless it fails spuriously or some operation has taken effect in between |
| `FreeList.PopKeepsTheListIff` | cpp_learning_projects/memory-mgkl/src/MemoryPool.cpp:98-116 | A single successful pop swap leaves a well-formed list if and only if the link read earlier is still the link of the removed slot |
| `FreeList.ReuseBreaksTheList` | cpp_learning_projects/memory-mgkl/src/MemoryPool.cpp:98-116 | There is a run, with one slot given back in between, after which two threads hold the same slot: the list has no version tag |
| `FreeList.PlacedIsExclusive` | cpp_learning_projects/memory-mgkl/src/MemoryPool.cpp:83-116 | The record of where each slot is makes list, holders and dropped slots pairwise disjoint and together all carved slots |
| `SlotPool.PadPointer` | cpp_learning_projects/memory-mgkl/src/MemoryPool.cpp:94-96 | The wrapping subtraction gives a padding below the slot size for every address |
| `SlotPool.PaddingAligns` | cpp_learning_projects/memory-mgkl/src/MemoryPool.cpp:94-96 | The padded address is slot-aligned if and only if the slot size is a power of two or the address is so low, at most the slot size, that the subtraction does not wrap |
| `SlotPool.PaddingKeepsWords` | cpp_learning_projects/memory-mgkl/src/MemoryPool.cpp:94-96 | For slot sizes that are multiples of 8 padding never leaves 8-byte alignment, whatever the wrap-around |
| `SlotPool.DividesPow2Iff` | cpp_learning_projects/memory-mgkl/src/MemoryPool.cpp:94-96 | The sizes that divide the address range, for which wrapping is harmless, are exactly the powers of two up to it |
| `SlotPool.FirstSlotFits` | cpp_learning_projects/memory-mgkl/src/MemoryPool.cpp:65-81 | A new block always has room for one slot past its header, for every slot size 8..512 in steps of 8 |
| `SlotPool.FirstSlotAlignedIff` | cpp_learning_projects/memory-mgkl/src/MemoryPool.cpp:65-81 | The first slot of a block is aligned to its size exactly for power-of-two sizes |
| `SlotPool.NewBlockSound` | cpp_learning_projects/memory-mgkl/src/MemoryPool.cpp:65-81 | Obtaining a block keeps header chain, slots and cursor in agreement, and the new block can serve a request |
| `SlotPool.NextSlotSound` | cpp_learning_projects/memory-mgkl/src/MemoryPool.cpp:38-53 | Handing out the slot at the cursor keeps all slots pairwise disjoint, inside their block and past its header |
| `SlotPool.HeadersOutOfReach` | cpp_learning_projects/memory-mgkl/src/MemoryPool.cpp:69-72 | No word of a handed-out slot is the header word of any block |
| `SlotPool.MemoryPool.AllocateNewBlock` | cpp_learning_projects/memory-mgkl/src/MemoryPool.cpp:65-81 | The block becomes the newest of the chain, and the cursor stands on a slot that can be handed out |
| `SlotPool.MemoryPool.Allocate` | cpp_learning_projects/memory-mgkl/src/MemoryPool.cpp:38-53 | Gives the slot right behind the last one if it lies in the newest block, else the first of a new block; it is disjoint from all given before, and the only word written is the header of the new block |
| `SlotPool.BlockServes` | cpp_learning_projects/memory-mgkl/src/MemoryPool.cpp:38-53 | A block serves exactly as many slots, back to back, as fit behind its header and padding |
| `SlotPool.MemoryPool.Store` | cpp_learning_projects/memory-mgkl/src/MemoryPool.cpp:17-29 | A holder's write into its slot disturbs neither the chain of blocks nor the pool |
| `SlotPool.MemoryPool.ReleaseAll` | cpp_learning_projects/memory-mgkl/src/MemoryPool.cpp:13-20 | The destructor releases every block exactly once, newest first |
| `SlotPool.DispatchIsTight` | cpp_learning_projects/memory-mgkl/include/MemoryPool.hpp:55-78 | Requests of 1..512 bytes go to an existing pool, the one with the smallest slots that hold them |
| `PageCache.EveryRunTiles` | cpp_learning_projects/memory-mgkl/src/PageCache.cpp:16-124 | After every run of requests and releases the spans, live and free, are disjoint and tile exactly the pages obtained from the system; list k holds exactly the k-page free spans; the index has no stale address |
| `PageCache.AllocateKeeps` | cpp_learning_projects/memory-mgkl/src/PageCache.cpp:16-64 | Every allocation keeps that, whether it splits, takes a whole span, asks the system or crashes |
| `PageCache.DeallocateKeeps` | cpp_learning_projects/memory-mgkl/src/PageCache.cpp:75-124 | Every release of a live span with its true size keeps that, and neither gains nor loses a page |
| `PageCache.AllocateGives` | cpp_learning_projects/memory-mgkl/src/PageCache.cpp:16-64 | A successful request gets exactly its pages, from the front of a smallest free span that fits, or from the system only if none fits; the other live spans stay as they are |
| `PageCache.ReleaseFrees` | cpp_learning_projects/memory-mgkl/src/PageCache.cpp:75-124 | A release frees exactly the one span, whose pages end up in one free span |
| `PageCache.ReleaseLeaves` | cpp_learning_projects/memory-mgkl/src/PageCache.cpp:75-124 | The span that a release makes is found under its address; every other entry and every other free span stands, but for the one joined; an unknown address changes nothing |
| `PageCache.RequestLeaves` | cpp_learning_projects/memory-mgkl/src/PageCache.cpp:20-62 | A request leaves the rest of the span it takes as one free span, next to be taken for its size, and all other free spans as they are; it indexes just the pages it gives |
| `PageCache.LastReleasedIsNext` | cpp_learning_projects/memory-mgkl/src/PageCache.cpp:20-124 | Last in, first out: a request of just its size gets the span that the last release made |
| `PageCache.NeighboursJoin` | cpp_learning_projects/memory-mgkl/src/PageCache.cpp:75-124 | Two live neighbours, the rear one released first, end up in one free span, whatever is called in between that neither takes the rear one nor releases the front one |
| `PageCache.MergesIff` | cpp_learning_projects/memory-mgkl/src/PageCache.cpp:89-119 | A release joins with the span behind exactly when that one is indexed and free |
| `PageCache.CrashIff` | cpp_learning_projects/memory-mgkl/src/PageCache.cpp:20-29 | Allocation dereferences a null head exactly when the first key at or above the request has no span left |
| `PageCache.NoEmptyKeyNoCrash` | cpp_learning_projects/memory-mgkl/src/PageCache.cpp:20-49 | While every key has a span allocation cannot crash, and leaves it so |
| `PageCache.EmptyKeyIff` | cpp_learning_projects/memory-mgkl/src/PageCache.cpp:91-119 | Exactly which releases leave a key without a span |
| `PageCache.KeysStayIff` | cpp_learning_projects/memory-mgkl/src/PageCache.cpp:20-119 | Over every run of requests and releases every key keeps a span throughout if and only if each release meets that condition where it is made, and then no request of the run crashes |
| `PageCache.CrashNeedsEmptyKey` | cpp_learning_projects/memory-mgkl/src/PageCache.cpp:20-119 | So a new cache crashes only after a release that does not meet it |
| `PageCache.CrashRun` | cpp_learning_projects/memory-mgkl/src/PageCache.cpp:75-124 | A run of ordinary requests and releases after which a request crashes |
| `PageCache.PageCache.AllocateSpan` | cpp_learning_projects/memory-mgkl/src/PageCache.cpp:16-64 | The method on the two maps does what the specification of allocation says, crash included |
| `PageCache.PageCache.SplitHead` | cpp_learning_projects/memory-mgkl/src/PageCache.cpp:22-48 | The head span leaves its list, and what it has beyond the request returns as a span of its own |
| `PageCache.PageCache.DeallocateSpan` | cpp_learning_projects/memory-mgkl/src/PageCache.cpp:75-124 | The method does what the specification of release says and keeps the invariant |
| `PageCache.PageCache.ListSpan` | cpp_learning_projects/memory-mgkl/src/PageCache.cpp:84-123 | The lookup of the span behind, the join and the listing together are the specified release |
| `PageCache.Unlink` | cpp_learning_projects/memory-mgkl/src/PageCache.cpp:94-112 | The list walk removes the first occurrence of a span and tells whether it was there |
| `SizeClasses.MaskRoundsDown` | cpp_learning_projects/memory-mgkl/include/Common.hpp:21-23 | Clearing the low three bits is subtracting the remainder modulo 8, on 64-bit words |
| `SizeClasses.ClassIsTight` | cpp_learning_projects/memory-mgkl/include/Common.hpp:25-29 | Each size up to 256 KB goes to an existing class, the smallest that holds it |
| `SizeClasses.CeilMatchesClassIff` | cpp_learning_projects/memory-mgkl/include/Common.hpp:21-29 | The rounded size is the class size exactly for sizes of at least one byte |
| `ThreadCache.ThreadCache.Allocate` | cpp_learning_projects/memory-mgkl/src/ThreadCache.cpp:7-38 | Takes the head of the list, or else one block of the central list or of a new span; says what list, counter and memory are afterwards, a failed fetch included |
| `ThreadCache.ThreadCache.FetchFromCentralCache` | cpp_learning_projects/memory-mgkl/src/ThreadCache.cpp:68-90 | One block arrives, its chain of one is counted, and the list stays empty |
| `ThreadCache.ThreadCache.Deallocate` | cpp_learning_projects/memory-mgkl/src/ThreadCache.cpp:40-60 | Pushes the block; past the threshold keeps `keepNum + 1` blocks, records `keepNum`, and splices the accepted front of the rest before the central list |
| `ThreadCache.ThreadCache.PushFront` | cpp_learning_projects/memory-mgkl/src/ThreadCache.cpp:50-53 | The block is linked in front, with the rest of memory untouched |
| `ThreadCache.ThreadCache.ReturnToCentralCache` | cpp_learning_projects/memory-mgkl/src/ThreadCache.cpp:92-129 | The give-back as a whole, also when the walk runs off the list and nothing is given back |
| `ThreadCache.ThreadCache.WalkTo` | cpp_learning_projects/memory-mgkl/src/ThreadCache.cpp:108-116 | The walk ends on the node `keepNum` links in, or on null if the list is shorter |
| `ThreadCache.ThreadCache.CutList` | cpp_learning_projects/memory-mgkl/src/ThreadCache.cpp:118-128 | The cut splits the list in two and hands the second part on with a byte count for a limit |
| `ThreadCache.CentralCache.FetchRange` | cpp_learning_projects/memory-mgkl/src/CentralCache.cpp:16-81 | One null-terminated block: the head of the list, or the first of a new span, or null |
| `ThreadCache.CentralCache.CarveSpan` | cpp_learning_projects/memory-mgkl/src/CentralCache.cpp:44-63 | The span becomes its blocks in address order: the first is handed out, the rest are the list |
| `ThreadCache.CentralCache.LinkBlocks` | cpp_learning_projects/memory-mgkl/src/CentralCache.cpp:50-57 | The carving loop links each block to the next and ends the last one |
| `ThreadCache.CentralCache.ReturnRange` | cpp_learning_projects/memory-mgkl/src/CentralCache.cpp:83-112 | The first blocks of the chain, as many as the limit lets the count reach, go in front of the list; those behind are cut off |
| `ThreadCache.BlocksDistinct` | cpp_learning_projects/memory-mgkl/src/CentralCache.cpp:44-57 | The blocks carved from a span are distinct and none is null |
| `ThreadCache.BlocksFillSpan` | cpp_learning_projects/memory-mgkl/src/CentralCache.cpp:44-63 | The blocks lie back to back inside the pages of the span that is asked for, and less than one block, or one page for large sizes, is left over |
| `ThreadCache.LinkedFront` | cpp_learning_projects/memory-mgkl/src/CentralCache.cpp:94-105 | Pointing the last accepted block of a chain at the old head joins the two lists without a repetition |
| `IntrusiveList.CutBehind` | cpp_learning_projects/memory-mgkl/src/ThreadCache.cpp:118-121 | Clearing one word cuts a list into two lists |
| `IntrusiveList.Splice` | cpp_learning_projects/memory-mgkl/src/CentralCache.cpp:103-105 | Writing one word joins two lists |
| `CacheTiers.EveryRunConserves` | cpp_learning_projects/memory-mgkl/src/ThreadCache.cpp:7-129 | For any number of threads and any interleaving of allocations, frees and give-backs of a class: each block ever carved is in exactly one of a user's hands, a thread list, the central list, transit, or the lost blocks, and in each list once |
| `CacheTiers.StepKeeps` | cpp_learning_projects/memory-mgkl/src/CentralCache.cpp:16-112 | Every step of every thread keeps that, with the lock discipline and the counters |
| `CacheTiers.EveryRunExcludes` | cpp_learning_projects/memory-mgkl/src/CentralCache.cpp:23-80 | No two threads are inside the spin-locked sections together |
| `CacheTiers.LockedKeeps` | cpp_learning_projects/memory-mgkl/src/CentralCache.cpp:83-112 | What a thread has loaded from the central list is still there when it stores, because of the lock |
| `CacheTiers.OnlyCarvingMakes` | cpp_learning_projects/memory-mgkl/src/CentralCache.cpp:34-63 | Blocks come into being only by carving a span, exactly its blocks, and none ever disappears from the account |
| `CacheTiers.EveryRunCounts` | cpp_learning_projects/memory-mgkl/src/ThreadCache.cpp:21-37 | The wrapped 64-bit counter is the length of the list less a drift of at most one, plus one for each failed fetch, and no list ever holds more than 65 blocks plus one for each failed fetch (as long as fewer than 2^61 fail) |
| `CacheTiers.AllocateDoes` | cpp_learning_projects/memory-mgkl/src/ThreadCache.cpp:7-38 | An allocation takes the head of the thread's own list at once, and goes to the central cache only if that is empty |
| `CacheTiers.AllocationEnds` | cpp_learning_projects/memory-mgkl/src/ThreadCache.cpp:68-90 | In every run a thread that went to the central cache goes on until its code has one block more, or one failure |
| `CacheTiers.FetchFailsOnlyIf` | cpp_learning_projects/memory-mgkl/src/CentralCache.cpp:16-81 | It gets the head of the central list, else the first block of a new span, and fails only if there is neither |
| `CacheTiers.FreeDoes` | cpp_learning_projects/memory-mgkl/src/ThreadCache.cpp:40-66 | A free puts the block in front of the thread's list; at 64 blocks and the drift it keeps the block and the 16 before it and sends off the rest with its byte limit |
| `CacheTiers.ReturnDoes` | cpp_learning_projects/memory-mgkl/src/CentralCache.cpp:83-112 | The returned chain, as far as its limit allows, comes before the central list in its own order |
| `CacheTiers.FreedIsNext` | cpp_learning_projects/memory-mgkl/src/ThreadCache.cpp:7-66 | Whatever other threads do meanwhile, what a thread freed last is what it allocates next, also after a give-back |
| `CacheTiers.FreeNeverSeesWrapped` | cpp_learning_projects/memory-mgkl/src/ThreadCache.cpp:53-66 | Without failed fetches the threshold test of a free reads the list length, or one less, never a wrapped value |
| `CacheTiers.PushedCounter` | cpp_learning_projects/memory-mgkl/src/ThreadCache.cpp:62-66 | In general the test reads a wrapped value exactly when the drift exceeds the list |
| `CacheRuns.WrapRun` | cpp_learning_projects/memory-mgkl/src/ThreadCache.cpp:68-73 | A run from the start: after two failed fetches and one that succeeds the free that follows reads 2^64 - 1 at its threshold test, and finds nothing to cut |
| `CacheTiers.GiveBackIff` | cpp_learning_projects/memory-mgkl/src/ThreadCache.cpp:57-59 | A give-back happens exactly when the list has reached 64 plus the drift; it then keeps 17 blocks and sends off 48 plus the drift |
| `CacheTiers.GiveBackTakesAllIff` | cpp_learning_projects/memory-mgkl/src/ThreadCache.cpp:94-126 | The central list takes all of a give-back if and only if 48 plus the drift is at most 49 times the rounded size that the free told; told zero bytes, it takes one block |
| `CacheTiers.LostByStore` | cpp_learning_projects/memory-mgkl/src/CentralCache.cpp:93-105 | The only step that can lose blocks is the store of a give-back, and it does exactly when its limit stops the count before the end of the chain |
| `CacheTiers.EveryRunLosesNothingIff` | cpp_learning_projects/memory-mgkl/src/ThreadCache.cpp:40-129 | In every run no block is lost, nor on its way to be, if and only if every free that gave back told enough bytes for its chain |
| `CacheTiers.EveryCarefulRunLosesNothing` | cpp_learning_projects/memory-mgkl/src/ThreadCache.cpp:40-129 | So no run loses a block whose frees tell at least one byte while each thread has had at most 49 times the class size, less 49, failed fetches |
| `CacheRuns.LossRun` | cpp_learning_projects/memory-mgkl/src/ThreadCache.cpp:40-129 | A run from the start that loses blocks: 65 blocks are taken and freed with size zero |
| `CacheMemory.EveryRunIsLinked` | cpp_learning_projects/memory-mgkl/src/ThreadCache.cpp:7-129 | Down to the pointers, for any number of threads and whatever users write into the blocks they hold: in every run the words of memory lead from each list head, of a thread or of the central cache, through exactly the blocks of that list to null, and the counters are those of the lists |
| `CacheMemory.StepRefines` | cpp_learning_projects/memory-mgkl/src/CentralCache.cpp:16-112 | Each step of the pointers, walks and cuts included, is the step of the lists, and none that pointers, lock and users allow is one the lists forbid |
| `CacheMemory.FreeRefines` | cpp_learning_projects/memory-mgkl/src/ThreadCache.cpp:40-129 | The push, the walk over the links to keep, the cut and the counter do to the lists what they should |
| `CacheMemory.CarveRefines` | cpp_learning_projects/memory-mgkl/src/CentralCache.cpp:34-63 | Carving a span links its blocks and leaves every other list as it was |
| `CacheMemory.ReturnStoreRefines` | cpp_learning_projects/memory-mgkl/src/CentralCache.cpp:93-105 | The walk along the chain and the two stores splice its accepted front before the central list |
| `CacheMemory.WriteRefines` | cpp_learning_projects/memory-mgkl/src/ThreadCache.cpp:27-34 | A user's store into the first word of a block it holds changes no list |
| `CacheTiers.SizedUnlessFirstClass` | cpp_learning_projects/memory-mgkl/include/Common.hpp:25-29 | In every class but the first all frees tell a size of at least one byte |
| `EventLoop.AsleepIff` | cpp_learning_projects/muduo-mgkl/src/EventLoop.cpp:59-156 | In every interleaving of the loop thread with any number of submitters: the loop blocks over a functor or a quit with the eventfd zero and no write owed if and only if a functor that the loop thread queued outside `loop()` is still pending and no write has been made or is owed |
| `EventLoop.NoLostWakeup` | cpp_learning_projects/muduo-mgkl/src/EventLoop.cpp:59-156 | So it never does when the loop thread queues only from handlers and functors |
| `EventLoop.EveryRunInOrder` | cpp_learning_projects/muduo-mgkl/src/EventLoop.cpp:102-156 | In every interleaving executed, swapped-out and pending functors, joined, are the functors in the order of their pushes, so each is executed at most once and in order |
| `EventLoop.StepKeeps` | cpp_learning_projects/muduo-mgkl/src/EventLoop.cpp:59-156 | Every step of every thread keeps order, wake-up and the calling flag |
| `EventLoop.WokenLoopDrains` | cpp_learning_projects/muduo-mgkl/src/EventLoop.cpp:65-77 | From a poll with a positive counter the loop thread alone executes everything queued before it polls again |
| `EventLoop.EarlyPushesSleepIff` | cpp_learning_projects/muduo-mgkl/src/EventLoop.cpp:102-111 | Functors queued by the loop thread before `loop()` sleep at the first poll: exactly when there are any |
| `EventLoop.QuitEndsPolling` | cpp_learning_projects/muduo-mgkl/src/EventLoop.cpp:59-77 | After a quit, from any thread and wherever the loop is, no run enters another poll until `loop()` is entered anew |
| `EventLoop.QuitStandsIff` | cpp_learning_projects/muduo-mgkl/src/EventLoop.cpp:59-92 | In every run of all threads, a quit stands at the end if and only if one was made that no entry into `loop()` follows: each entry drops the quits before it |
| `EventLoop.LeavesOnlyByQuit` | cpp_learning_projects/muduo-mgkl/src/EventLoop.cpp:59-77 | In every run a loop thread that has entered `loop()` is outside again only if a quit was made after its last entry |
| `EventLoop.TestLeavesIff` | cpp_learning_projects/muduo-mgkl/src/EventLoop.cpp:65-77 | In every run the test before a poll leaves if such a quit was made, and goes on to poll if none was |
| `EventLoop.LoopWritesIff` | cpp_learning_projects/muduo-mgkl/src/EventLoop.cpp:102-111 | In every run, what the loop thread queues writes to the eventfd exactly if a functor queues it |
| `EventLoop.QuitBeforeLoopIsLost` | cpp_learning_projects/muduo-mgkl/src/EventLoop.cpp:84-92 | A run in which another thread's quit, made before `loop()` is entered, is not heard |
| `EventLoop.EventLoop.QueueInLoop` | cpp_learning_projects/muduo-mgkl/src/EventLoop.cpp:102-111 | The functor is last in the queue, and the eventfd is written exactly for other threads or while functors run |
| `EventLoop.EventLoop.RunInLoop` | cpp_learning_projects/muduo-mgkl/src/EventLoop.cpp:94-100 | In the loop thread the functor runs at once, with a write for each functor it queues if functors are being run; otherwise it is queued with a wake-up |
| `EventLoop.QuitLeavesLoop` | cpp_learning_projects/muduo-mgkl/src/EventLoop.cpp:84-92 | A quit from another thread gets the loop out of the poll it is blocked in: there is a run that executes everything queued and leaves `loop()` |
| `EventLoop.CallsAreSteps` | cpp_learning_projects/muduo-mgkl/src/EventLoop.cpp:84-111 | What the methods `QueueInLoop` and `Quit` do for another thread is what that thread's two steps do in the protocol |
| `EventLoop.LoopCallsAreSteps` | cpp_learning_projects/muduo-mgkl/src/EventLoop.cpp:84-111 | And for the loop thread, what its steps do |
| `EventLoop.RoundIsARun` | cpp_learning_projects/muduo-mgkl/src/EventLoop.cpp:142-156 | What the method `DoPendingFunctors` leaves behind is what the protocol leaves after a run of the loop thread: flag, swap, each functor with all it queues, flag |
| `EventLoop.EventLoop.DoPendingFunctors` | cpp_learning_projects/muduo-mgkl/src/EventLoop.cpp:142-156 | Runs each queued functor once, in order; what they queue waits for the next round, and the next poll is certain to return |
| `EventLoop.EventLoop.Call` | cpp_learning_projects/muduo-mgkl/src/EventLoop.cpp:151-153 | One functor runs; what it queues is queued in its order, with a write each |
| `Buffer.GrowsIff` | cpp_learning_projects/muduo-mgkl/include/Buffer.hpp:81-85 | Making room keeps the readable bytes and the indices in order, and grows the vector exactly when readable and new bytes do not fit behind the prefix, to less than readable + 2*len + 8 |
| `Buffer.EmptiedIsWritable` | cpp_learning_projects/muduo-mgkl/include/Buffer.hpp:54-66 | Taking everything makes the whole vector behind the prefix writable again |
| `Buffer.OpKeeps` | cpp_learning_projects/muduo-mgkl/include/Buffer.hpp:54-128 | Every operation keeps 8 <= reader <= writer <= size and changes the number of readable bytes as a queue does |
| `Buffer.SizeBounded` | cpp_learning_projects/muduo-mgkl/include/Buffer.hpp:116-128 | Over every run the vector stays at its first size, or below the largest backlog plus one message plus 8 |
| `Buffer.Play` | cpp_learning_projects/muduo-mgkl/include/Buffer.hpp:54-128 | Over every run of appends, scatter reads and retrievals on one buffer, what was taken and what remains is what was put, in order, and the vector has the size that `SizeBounded` bounds |
| `Buffer.FirstInFirstOut` | cpp_learning_projects/muduo-mgkl/include/Buffer.hpp:54-92 | The queue of bytes such a run stands for gives them out in the order they came, none lost and none twice |
| `Buffer.Buffer.Append` | cpp_learning_projects/muduo-mgkl/include/Buffer.hpp:88-92 | The contents gain the data at the end |
| `Buffer.Buffer.Retrieve` | cpp_learning_projects/muduo-mgkl/include/Buffer.hpp:54-60 | The contents lose the first bytes, or all |
| `Buffer.Buffer.RetrieveAsString` | cpp_learning_projects/muduo-mgkl/include/Buffer.hpp:68-74 | Result and remaining contents, joined, are the old contents |
| `Buffer.Buffer.EnsureWritableBytes` | cpp_learning_projects/muduo-mgkl/include/Buffer.hpp:81-85 | Room for the new bytes, with the contents unchanged |
| `Buffer.Buffer.MakeSpace` | cpp_learning_projects/muduo-mgkl/include/Buffer.hpp:116-130 | Grows or compacts without touching the contents |
| `Buffer.Buffer.Compact` | cpp_learning_projects/muduo-mgkl/include/Buffer.hpp:121-127 | The overlapping copy to the front preserves the readable bytes |
| `Buffer.Buffer.ReadFd` | cpp_learning_projects/muduo-mgkl/src/Buffer.cpp:7-43 | A read in two parts, into the buffer and beside it, appends exactly what was read; a failed one changes nothing |
| `TcpConnection.EveryRunIsWhole` | cpp_learning_projects/muduo-mgkl/src/TcpConnection.cpp:47-189 | In every run, with any short or failing writes and shutdowns from any thread: bytes on the wire followed by bytes waiting are the accepted messages in order, and until the channel is disabled its write interest is on exactly when bytes wait |
| `TcpConnection.NoByteAfterHalfClose` | cpp_learning_projects/muduo-mgkl/src/TcpConnection.cpp:47-166 | In every run no byte follows a half-close |
| `TcpConnection.InLoopHalfClosesOnce` | cpp_learning_projects/muduo-mgkl/src/TcpConnection.cpp:98-109 | In every run of the loop thread alone half-close happens at most once, with every accepted byte written, and during shutdown it has happened exactly if no byte waits |
| `TcpConnection.StepKeeps` | cpp_learning_projects/muduo-mgkl/src/TcpConnection.cpp:47-189 | Every event keeps the stream whole, the write interest right and the half-closes accounted for |
| `TcpConnection.HalfCloseDropsIff` | cpp_learning_projects/muduo-mgkl/src/TcpConnection.cpp:105-109 | A half-close leaves bytes behind exactly when another thread queued it and the channel had been disabled with bytes waiting |
| `TcpConnection.RemoteHalfCloseDropsBytes` | cpp_learning_projects/muduo-mgkl/src/TcpConnection.cpp:98-109 | A run in which that happens: the peer closes with a byte waiting after another thread has queued its shutdown |
| `TcpConnection.HalfClosesOnceIff` | cpp_learning_projects/muduo-mgkl/src/TcpConnection.cpp:98-109 | In every run, with shutdowns from any thread, half-close happens at most once if and only if no shutdown that another thread queued is run after the first half-close |
| `TcpConnection.HalfClosesCounted` | cpp_learning_projects/muduo-mgkl/src/TcpConnection.cpp:98-109 | After the first half-close, those that follow are the queued shutdowns that are run, one for one |
| `TcpConnection.RemoteShutdownHalfClosesTwice` | cpp_learning_projects/muduo-mgkl/src/TcpConnection.cpp:98-103 | A run in which one shutdown by another thread half-closes twice |
| `TcpConnection.ShutdownDoes` | cpp_learning_projects/muduo-mgkl/src/TcpConnection.cpp:98-109 | In the loop thread a shutdown of an established connection begins the shutting down and half-closes at once exactly if no byte waits; of any other it does nothing |
| `TcpConnection.RemoteShutdownDoes` | cpp_learning_projects/muduo-mgkl/src/TcpConnection.cpp:98-109 | Uninterrupted, the three steps of another thread's shutdown do the same |
| `TcpConnection.WriteDoes` | cpp_learning_projects/muduo-mgkl/src/TcpConnection.cpp:144-166 | In every phase a write event moves exactly the bytes the socket takes; the interest goes off with the last one, and the connection half-closes then exactly if it is shutting down |
| `TcpConnection.WritesDo` | cpp_learning_projects/muduo-mgkl/src/TcpConnection.cpp:144-166 | So do write events in pieces of any size with failures between, over a whole run of them |
| `TcpConnection.WritesDrain` | cpp_learning_projects/muduo-mgkl/src/TcpConnection.cpp:144-166 | From every state with bytes waiting, in every phase, write events that take them end with all on the wire and the interest off |
| `TcpConnection.ShutdownCompletes` | cpp_learning_projects/muduo-mgkl/src/TcpConnection.cpp:98-166 | From every reachable state of an established connection: a shutdown and write events that take what waits end with every accepted byte on the wire and exactly one more half-close |
| `TcpConnection.SendDoes` | cpp_learning_projects/muduo-mgkl/src/TcpConnection.cpp:47-96 | What a send puts on the wire, what it leaves waiting, and when it drops the message |
| `TcpConnection.CloseDoes` | cpp_learning_projects/muduo-mgkl/src/TcpConnection.cpp:119-126 | A close, or the destruction of an established connection, disables the channel and moves no byte; the destruction of any other does nothing |
| `TcpConnection.NothingAfterClose` | cpp_learning_projects/muduo-mgkl/src/TcpConnection.cpp:119-177 | In every run nothing is sent or accepted after a close, and the connection is never established again |
| `TcpConnection.MarkIffCrossed` | cpp_learning_projects/muduo-mgkl/src/TcpConnection.cpp:85-91 | The high-water callback is queued exactly when the waiting bytes reach the mark from below |
| `TcpConnection.CompleteIffAllOut` | cpp_learning_projects/muduo-mgkl/src/TcpConnection.cpp:66-72 | The write-complete callback is queued exactly when nothing is left of bytes that waited, or of a message sent directly; then all accepted bytes are on the wire |
| `TcpConnection.SentIsAccepted` | cpp_learning_projects/muduo-mgkl/src/TcpConnection.cpp:57-96 | A message is dropped only whole: by a broken socket with nothing waiting |
| `TcpConnection.TcpConnection.SendInLoop` | cpp_learning_projects/muduo-mgkl/src/TcpConnection.cpp:57-96 | The method over the real buffer does what the specification of a send says |
| `TcpConnection.TcpConnection.HandleWrite` | cpp_learning_projects/muduo-mgkl/src/TcpConnection.cpp:144-166 | The method over the real buffer moves the bytes the socket takes from its front to the wire, and does what `WriteDoes` says of a write event |
| `TcpConnection.TcpConnection.Shutdown` | cpp_learning_projects/muduo-mgkl/src/TcpConnection.cpp:98-109 | The method sets the state and half-closes at once exactly if the interest is off, and does nothing unless connected |
| `TcpConnection.TcpConnection.HandleRead` | cpp_learning_projects/muduo-mgkl/src/TcpConnection.cpp:128-142 | What was read is appended to the input, an empty read closes, and the output is untouched |
| `TcpConnection.TcpConnection.HandleClose` | cpp_learning_projects/muduo-mgkl/src/TcpConnection.cpp:168-177 | The channel is disabled, and what waited stays unsent |
| `ThreadPool.NeverAllAsleep` | cpp_learning_projects/30dayMakeCppServer/day11/src/ThreadPool.cpp:3-25 | In every run of a pool with a worker: while tasks wait, a worker is awake or a notification is on its way |
| `ThreadPool.AttendedKeeps` | cpp_learning_projects/30dayMakeCppServer/day11/src/ThreadPool.h:41-50 | Every step keeps, while any worker sleeps, the waiting tasks no more than the workers about to look and the notifications to come |
| `ThreadPool.EveryRunInOrder` | cpp_learning_projects/30dayMakeCppServer/day11/src/ThreadPool.cpp:9-21 | Tasks start in the order they were accepted, each at most once, and each is on one worker |
| `ThreadPool.JoinedMeansAllRan` | cpp_learning_projects/30dayMakeCppServer/day11/src/ThreadPool.cpp:27-39 | When all workers, at least one, have returned, every accepted task was started in order and has finished |
| `ThreadPool.StepKeeps` | cpp_learning_projects/30dayMakeCppServer/day11/src/ThreadPool.cpp:3-39 | Every step of workers, submitters and destructor keeps all of it |
| `ThreadPool.JoinsEnd` | cpp_learning_projects/30dayMakeCppServer/day11/src/ThreadPool.cpp:9-21 | Once the destructor has notified, the joins end whatever the interleaving: until all workers have returned one of them can go on, and they have all returned exactly when they have made a number of steps known from the start |
| `ThreadPool.OneWorkerDrains` | cpp_learning_projects/30dayMakeCppServer/day11/src/ThreadPool.cpp:9-21 | One worker that is awake runs everything that waits, in order, and then sleeps or, once the flag is set, returns |
| `ThreadPool.NoWorkersRunNothing` | cpp_learning_projects/30dayMakeCppServer/day11/src/ThreadPool.cpp:3-4 | A pool of size zero never runs a task |
| `ThreadPool.StoppedAcceptsNothing` | cpp_learning_projects/30dayMakeCppServer/day11/src/ThreadPool.h:41-49 | Once the flag is set no task is ever accepted |
| `ThreadPool.AddedTaskRuns` | cpp_learning_projects/30dayMakeCppServer/day11/src/ThreadPool.h:34-53 | In every run, a task that `add` does not refuse is taken under the number it was accepted with and has run to its end once all workers have returned; one that it refuses is never accepted |
| `ThreadPool.TaskQueue.Next` | cpp_learning_projects/30dayMakeCppServer/day11/src/ThreadPool.cpp:9-20 | Waits, returns, or takes the task at the front |
| `Dijkstra.Dijkstra` | Algorithm/graphy.cpp:185-213 | For every non-negative matrix without overflowing sums each entry ends as the least weight over walks of at least one edge, INT_MAX exactly if there is none |
| `Dijkstra.SelectNearest` | Algorithm/graphy.cpp:193-204 | The scan finds an unvisited vertex of least finite distance, or that there is none |
| `Dijkstra.RelaxEdges` | Algorithm/graphy.cpp:207-211 | Relaxing all edges of the settled vertex restores the settled-set invariant |
| `Dijkstra.RowSettles` | Algorithm/graphy.cpp:207-211 | Edge by edge, the row of a settled vertex keeps every distance that of a real walk and brings no unvisited vertex above its relaxed distance |
| `Dijkstra.SelectedIsSettled` | Algorithm/graphy.cpp:193-206 | No walk to the selected vertex is lighter than its tentative distance |
| `Dijkstra.FirstUnsettled` | Algorithm/graphy.cpp:193-206 | A walk out of the settled set passes an unsettled vertex whose distance is no more than the weight so far |
| `Dijkstra.RelaxStep` | Algorithm/graphy.cpp:207-211 | The sum of a relaxation fits 32 bits, and the invariant advances by an edge |
| `Dijkstra.AllFinal` | Algorithm/graphy.cpp:202-205 | When the loop stops, all distances are final |
| `Dijkstra.ZeroDiagonalIsShortest` | Algorithm/graphy.cpp:187-190 | With a zero at the source's diagonal the result is the usual shortest distance |
| `Dijkstra.SourceDistanceIsZeroIff` | Algorithm/graphy.cpp:187-190 | For other matrices it is so exactly when, at the source, a closed walk of weight zero passes through it |
| `Dijkstra.LoneSourceIsUnreached` | Algorithm/graphy.cpp:187-190 | A matrix for which it is not: a source without a loop is left at INT_MAX |
| `TopoSort.Scheduler.FindOrder` | Algorithm/graphy.cpp:84-105 | From any state of the globals: empty exactly if a cycle is or was met, otherwise a permutation of 0..n-1 with every prerequisite before its dependant, followed by what earlier calls left |
| `TopoSort.Scheduler.Traverse` | Algorithm/graphy.cpp:65-82 | The depth-first visit terminates, finds only real cycles, and finishes the vertex after all its successors |
| `TopoSort.BuildGraph` | Algorithm/graphy.cpp:88-92 | The adjacency lists are the prerequisite pairs |
| `TopoSort.ScheduleFromFinished` | Algorithm/graphy.cpp:94-105 | All vertices finished means no cycle, and the reverse finishing order is a schedule |
| `TopoSort.ClosedPath` | Algorithm/graphy.cpp:66-68 | A successor on the current path closes a cycle |
| `TopoSort.LeaveVertex` | Algorithm/graphy.cpp:78-81 | A vertex whose successors are all finished may be finished next |
| `Floyd.HasCycle` | Algorithm/LinkedList.cpp:116-128 | On every finite linked structure the loop ends, and the answer is true exactly if a cycle can be reached |
| `Floyd.DetectCycle` | Algorithm/LinkedList.cpp:131-153 | The first node of the cycle if there is one; null exactly for lists of at most one node without a cycle; a null dereference on every longer list that ends |
| `Floyd.Meet` | Algorithm/LinkedList.cpp:136-144 | The first loop ends where slow and fast meet, or at the end of the list |
| `Floyd.Approach` | Algorithm/LinkedList.cpp:146-152 | The second loop stops exactly at the first node of the cycle |
| `Floyd.OnCycleIff` | Algorithm/LinkedList.cpp:146-150 | A node is on the cycle exactly if the walk is back on it after as many links as the pointers took to meet |
| `Floyd.TheyMeet` | Algorithm/LinkedList.cpp:137-144 | The pointers meet after no more links than there are nodes, and one |
| `Floyd.CycleNeverEnds` | Algorithm/LinkedList.cpp:118-125 | A walk that reaches a cycle never ends |
| `MinWindow.MinWindow` | Algorithm/LinkedList.cpp:236-272 | For a non-empty `t` the first of the shortest substrings that cover it as a multiset, the empty string exactly if none does; reads out of range exactly for an empty `t` and a non-empty `s` |
| `MinWindow.Sweep` | Algorithm/LinkedList.cpp:245-269 | Both loops end, having swept every window |
| `MinWindow.Shrink` | Algorithm/LinkedList.cpp:255-268 | The inner loop ends with a window that does not cover, and none that it passed was better than the one noted |
| `MinWindow.ValidIff` | Algorithm/LinkedList.cpp:255-255 | The counter equals the number of needed characters exactly when the window covers |
| `MinWindow.Enter` | Algorithm/LinkedList.cpp:247-253 | The counter always is the number of characters whose need is met, after one more character |
| `MinWindow.Leave` | Algorithm/LinkedList.cpp:261-267 | The same after one less |
| `MinWindow.SweptRight` | Algorithm/LinkedList.cpp:245-247 | Moving the right end cannot bring back a window that starts further left and is as short |
| `Subsets.EnumListsOnce` | Algorithm/BackTrack.cpp:82-100 | A call lists each extension of the track by the remaining numbers exactly once and nothing else: the skip neither loses nor repeats one |
| `Subsets.LoopListsOnce` | Algorithm/BackTrack.cpp:85-99 | The same of the loop from any index on |
| `Subsets.SkipLosesNothing` | Algorithm/BackTrack.cpp:87-89 | What a skipped index would list is listed already |
| `Subsets.TakeSplits` | Algorithm/BackTrack.cpp:92-98 | Taking a number splits what is left into what has it and what has it not |
| `Subsets.Backtracking.Backtrack` | Algorithm/BackTrack.cpp:82-100 | The result gains exactly that list, and the track is restored |
| `Subsets.Backtracking.SubsetWithDup` | Algorithm/BackTrack.cpp:102-108 | After sorting, the result gains every sub-multiset of the numbers exactly once, behind what earlier calls left |
| `Permutations.ListsEachEqually` | Algorithm/BackTrack.cpp:14-45 | From an empty track the recursion lists every permutation, all equally often, and nothing else: once for each way to put the indices of equal numbers |
| `Permutations.WaysOfOne` | Algorithm/BackTrack.cpp:14-37 | That number is the product of the factorials of how often each number occurs |
| `Permutations.OnceIffDistinct` | Algorithm/BackTrack.cpp:14-37 | Each permutation is listed exactly once if and only if the numbers are distinct |
| `Permutations.EnumLists` | Algorithm/BackTrack.cpp:15-37 | A call lists each completion of the track by the unused numbers in every such way, and nothing else |
| `Permutations.LoopLists` | Algorithm/BackTrack.cpp:21-36 | The loop from any index on lists it for every unused index from there on that holds its next number |
| `Permutations.ChoiceSplits` | Algorithm/BackTrack.cpp:26-31 | Choosing a number leaves exactly the completions that go on with it |
| `Permutations.RepeatedListsTwice` | Algorithm/BackTrack.cpp:14-37 | If a number occurs twice every permutation is listed twice or more |
| `Permutations.Backtracking.Backtrack` | Algorithm/BackTrack.cpp:15-37 | The result gains exactly that list, and track and used flags are restored |
| `Permutations.Backtracking.Permutate` | Algorithm/BackTrack.cpp:39-45 | The result gains every permutation equally often, once exactly if the numbers are distinct, behind what earlier calls left |
| `Greedy.IntervalSchedule` | Algorithm/greedy.cpp:34-55 | For intervals that do not end before they start, in any order the sort gives equal ends: the result is the largest size over all pairwise non-overlapping selections if and only if the first interval counted twice makes up for those missed; where no empty interval has the end of another, if and only if no empty interval is among those that end first; and always for intervals that start before they end |
| `Greedy.Schedule` | Algorithm/greedy.cpp:44-54 | The scan with its first interval visited again does that on intervals sorted by end; of a single interval it finds one exactly if that starts before it ends |
| `Greedy.ScanIsLargestIff` | Algorithm/greedy.cpp:44-54 | How far off the count is: one too many if the first interval is empty, and too few by the intervals that an empty one of the same end kept out |
| `Greedy.NoneMissed` | Algorithm/greedy.cpp:40-52 | Where empty intervals come behind the others of their end none is kept out |
| `Greedy.EmptyKeepsOut` | Algorithm/greedy.cpp:40-52 | Three intervals that do not overlap, sorted by end, of which the scan finds two |
| `Greedy.TallyIsLargest` | Algorithm/greedy.cpp:40-54 | A scan that takes up what an empty interval kept out attains the largest size over all selections |
| `Greedy.TallyBounded` | Algorithm/greedy.cpp:44-52 | After each interval no selection of those scanned is larger than that tally, and none as large can do without the end or the room it has |
| `Greedy.BoundStep` | Algorithm/greedy.cpp:46-52 | The exchange argument: an interval that starts after the chosen ones end can be chosen without loss, and one that starts before only stands in for another |
| `Greedy.MinMeetingRooms` | Algorithm/greedy.cpp:58-84 | For all meetings the largest excess of starts over ends; that is the largest number of meetings running at one time if and only if at some busiest time no meeting entered backwards stands against it; the running count stays at zero or above if each starts before it ends |
| `Greedy.Sweep` | Algorithm/greedy.cpp:69-82 | The merged sweep finds that excess, and its count goes below zero exactly if the sorted ends are somewhere not behind the sorted starts |
| `Greedy.NetIsRunningLessBackward` | Algorithm/greedy.cpp:58-84 | Sorting starts and ends separately loses nothing: starts less ends up to a time are the meetings running then, less those entered backwards around it |
| `Greedy.PeakIsMostIff` | Algorithm/greedy.cpp:58-84 | Exactly when backward meetings make the answer too small |
| `Greedy.ProperNeverNegative` | Algorithm/greedy.cpp:69-80 | For meetings that start before they end the sorted ends are everywhere behind the sorted starts |
| `Greedy.BackwardHides` | Algorithm/greedy.cpp:58-84 | A meeting entered backwards can make the answer too small |

## Left out

- FreeList: is sequentially consistent; the relaxed and acquire-release orderings of the atomics are not modelled.
- PageCache: list nodes and map entries are values rather than shared `Span` objects, so updating one through the other is replaced by the invariant that the two containers agree; addresses are counted in pages.
- PageCache.DeallocateSpan: requires a live span with its true size, or an address the cache does not know; the code trusts its callers in this.
- ThreadCache: one object stands for one size class; sizes above 256 KB, which go to `malloc`, are not modelled, and a span of the page cache is a parameter.
- CacheTiers, CacheMemory: the spin is a step that waits for the lock to be free; fairness is not modelled.
- Dijkstra.Dijkstra: requires that extending a lightest walk by an edge stays below INT_MAX; beyond that the C++ sum is undefined.
- MinWindow.MinWindow: requires strings shorter than INT_MAX, the value the code uses for "none found"; the character counts are unbounded.
- Greedy, Subsets: a vector that the code sorts through a reference is returned sorted.
- Greedy.IntervalSchedule: what an interval that ends before it starts overlaps is not defined; for inputs with such intervals only the double count of the first interval is stated.
- CacheMemory: the code does not write the word of a span that is a single block but relies on zeroed pages; the model gives that word null, as the zeroed page has it.
- EventLoop: the poller is a step that may return at any time and reports the eventfd only if its counter is positive; timers, channels and timestamps are not modelled.
- TcpConnection: results of `write` and `readv` are parameters; `sendFile` and sends from other threads, which pass a raw pointer, are not modelled.
- Buffer: allocation failure and the size limit of a vector are not modelled.
- Subsets: `std::sort` is a method known only by its contract, here and in `Greedy`.
- The iterative `merge` in `LinkedList.cpp`; `substr`, the palindrome and longest-common-subsequence functions and the compressed `canPartition` in `DynamicProgramming.cpp`; the breadth-first `canFinish`, `isBipartite` and `Prim` in `graphy.cpp`; `isDuplicatedNumber`; and `StackedQueue::pop`: their text does not do what the names say.
- Array reversal, palindrome test, two-sum, list reversal, array de-duplication and quicksort: they would only add easy members.
- Sockets, epoll, logging, timestamps, MySQL, JSON, and the other days of the server tutorial: plumbing.
- `ConnectionPool`, `Timer`, `my_shared_ptr` and the promise and coroutine notes: thin, or tied to clocks and libraries.
