# A verified model of message_us_cld

The repository is a set of C++ building blocks for low-latency message processing: two timer
services, a shared-memory message bus, a slab allocator, a thread pool and a framed TCP protocol.
This project models the six of them in Dafny and proves what each one promises, over every input,
every run or every interleaving.

| component | files | the simple specification it is proved against |
|---|---|---|
| Hierarchical timer wheel | TimerSpec, TimerCounts, UnsafeTick, WheelLayout, WheelOrder, TimerWheel | a map from id to expiry and interval, in which the tick to time `t` fires exactly the timers whose expiry is `t` |
| Lossless SPSC bus | BusLayout, SpscBus, SpscCalls | a FIFO queue bounded by the capacity |
| Lossy SPSC bus | LossyBus, LossyCalls, LossyRuns, LossyWrap | a pop of a slot in which no push was cut short is one whole pushed message |
| Slab allocator | PoolArith, PoolProtocol, PoolCalls, MemoryPool, ThreadCache | a set of free blocks, each block with one owner |
| EpollTimer | EpollSpec, EpollTimer, EpollRuns | fire the live timer of least expiry until none is due |
| Thread pool | ThreadPool | a queue whose tasks are taken in order and never forgotten |
| TCP framing | Framing | decoding is the exact inverse of encoding |

Bits, Lists and Options hold what they share: masks and shifts as arithmetic, counters modulo 2^64,
lists without repetition.

Objects that the source updates in place are classes with the source's fields, and ghost fields for
the state they stand for. Code that runs concurrently is a step machine with one memory access (or
one mutex or condition-variable operation) per step; its theorems quantify over all runs.
`hide` statements only keep definitions out of the solver's way.

## How callbacks, the kernel and time appear

- A callback is whatever sequence of calls it makes back into the timer. A tick or a drain takes a
  *reaction*, a function from timer id to such a sequence, and every theorem holds for all of them. A
  timer fires at most once per tick or drain, so this covers every behaviour a callback can have.
- Clock readings are parameters. The kernel timer is the deadline it was last armed for. A socket
  takes a function that decides how many bytes each call moves.
- Memory is sequentially consistent.

## What the model found

- The timer wheel is exact for every delay, also beyond its span of 2^26 ticks: a level 3 entry that
  is swept early returns to the same slot until its own lap (`WheelLayout.OverRangeStays`).
  timer/DESIGN.md:211 says that such a timer fires at the wrong tick; the code is better than that.
- timer/DESIGN.md:209 says that a callback may safely cancel another timer, since the list being fired
  was swapped out. It is the reverse: `cancel` erases through the slot that the index names, and that
  slot holds the timer if and only if it is not waiting in a swapped-out list
  (`WheelLayout.EraseIsSound`; `TimerWheel.SiblingWaits` is the case of two timers of delay 1). So a
  tick is well defined if and only if no callback cancels a timer behind it in the firing order
  (`SafeOrder`). If none does, the tick is one of the service (`Tick`); if one does, the tick reaches
  an erase through a list that does not hold the node (`ReachBadErase`). A callback may cancel those
  that fired before it. A timer that cancels itself inside its own callback gets `false`, and a
  periodic one keeps running.
- In lossy mode a newer message can be delivered early and then again, an older one lost, and no loss
  flagged (`LossyRuns.EarlyAndTwice`). A pop returns the message at `read_pos` exactly when the push
  for the next lap had not begun at its first generation load (`LossyBus.PopIsWhole`).
- When exactly a capacity of messages has been published, the fast-forward after an overwrite skips
  to the end (`LossyBus.FastForward`), past messages that are still intact
  (`LossyRuns.IntactMessageSkipped`).
- A lossy producer that dies between the two generation stores of a push shifts the parity of that
  slot's generation. A slot that passes the reader's first test is not whole exactly in two cases
  (`LossyBus.GenerationTest`): it is being written, which is so if and only if an odd number of pushes
  to it were cut short; or the last push to it was cut short, and the number is even again. In both a
  pop can return a mix (`LossyRuns.TornAfterCrash`, `LossyRuns.TornAtRest`). Deaths anywhere else, and
  in other slots, do no harm.
- In lossy mode the wrap of the 64-bit positions shows. With a reader less than 2^64 messages behind
  it does so in one step only, the reload after an overwrite, if and only if the wrapped `write_pos`
  is not above the capacity (`LossyWrap.ImageStep`, `LossyWrap.OnlyTheReload`): reading then resumes at
  the end instead of at the oldest message. In lossless mode it never shows.
- A bus with `max_msg_size` above 0xFFFFFFB8 gets a truncated stride and overlapping slots; up to there
  all slots are disjoint (`BusLayout.StrideLimit`).
- The size of a pool's backing is a 64-bit product that is not checked. All blocks lie inside what was
  mapped if and only if the product does not wrap (`MemoryPool.InsideIff`); 64 blocks of 2^58 + 64
  bytes map 4096 bytes (`MemoryPool.WrappedBacking`).
- `EpollTimer` arms the kernel timer for the top of its heap if and only if that lies after the
  origin of the clock; while a live timer at or before the origin is on top, its deadline is lost, and
  no later `schedule` call arms the kernel timer for another one (`EpollTimer.ArmedIff`). A time of 0
  disarms the kernel timer, a negative one is refused and leaves its entry behind; either loses a
  timer that follows (`EpollTimer.DeadlineLost`).
- A task submitted to the thread pool is abandoned if and only if it is pushed after the last worker
  has returned (`ThreadPool.AbandonedIff`, `ThreadPool.AbandonedRun`); after stop but before that it is
  still taken.

## Model

| member | source | states |
|---|---|---|
| TimerSpec.StepKeeps | timer/include/timer_wheel.hpp:114-212 | every call and every tick keeps ids fresh, nothing overdue, and inserted = cancelled + one-shots fired + pending |
| TimerSpec.FireAllFires | timer/include/timer_wheel.hpp:194-212 | half-way through a tick the timers still waiting are untouched and everything else, new or re-armed, lies strictly in the future |
| TimerSpec.ExactFiring | timer/include/timer_wheel.hpp:248-264 | in every run a pending timer that is not cancelled is fired by the tick to `u` if and only if `u` is its expiry or a whole number of intervals after it |
| TimerSpec.ScheduledFiring | timer/include/timer_wheel.hpp:114-125 | a timer from `schedule(delay)` at `t0` fires exactly at `t0 + delay`, and with delay 0 exactly at `t0 + 1` |
| TimerSpec.PeriodicFiring | timer/include/timer_wheel.hpp:127-138 | a timer from `schedule_periodic(n)` at `t0` fires exactly at the multiples of `n` after `t0`, until cancelled, and with `n` 0 in every tick |
| TimerSpec.CallbackFiring | timer/include/timer_wheel.hpp:194-212 | a timer from `schedule(delay)` called by a callback in the tick to `u` does not fire in that tick, and afterwards exactly at `u + delay` (`u + 1` for delay 0), unless cancelled |
| TimerSpec.CallbackPeriodic | timer/include/timer_wheel.hpp:194-212 | a timer from `schedule_periodic(n)` called by a callback in the tick to `u` fires exactly at the later multiples of `n` after `u` (every tick for `n` 0), until cancelled |
| TimerSpec.GoneForGood | timer/include/timer_wheel.hpp:140-164 | an issued timer that is not pending any more never fires again and never comes back |
| TimerSpec.CancelledForGood | timer/include/timer_wheel.hpp:140-164 | once a caller or another timer's callback has cancelled an issued timer it is never pending and never fired again |
| TimerSpec.Conservation | timer/include/timer_wheel.hpp:41-46 | over every run from an empty wheel the counters balance and nothing pending is overdue |
| TimerCounts.Counters | timer/include/timer_wheel.hpp:41-46 | in every run `inserted` is the number of schedule calls, by callers and callbacks, `cancelled` that of the cancels that found a pending timer, `fired` that of the callbacks run, and ids are 1, 2, 3, ... in the order of the calls |
| WheelLayout.SlotBits | timer/include/timer_wheel.hpp:171-190 | the masks and shifts select the slot of the expiry on each level |
| WheelLayout.BoundaryBits | timer/include/timer_wheel.hpp:252-257 | the mask tests of `tick` are the three nested boundaries |
| WheelLayout.WrapIsInvisible | timer/include/timer_wheel.hpp:166-191 | keeping ticks and expiries modulo 2^64 changes no remaining time, slot or boundary |
| WheelLayout.PlaceFits | timer/include/timer_wheel.hpp:166-191 | the level chosen by `insert` always has its next sweep of that slot still ahead, at every moment of a tick |
| WheelLayout.PlaceIs | timer/include/timer_wheel.hpp:166-191 | the level and slot by the time that remains: below 256, 2^14, 2^20 ticks and above |
| WheelLayout.PutStored | timer/include/timer_wheel.hpp:166-191 | inserting keeps slots, index and pending timers in agreement |
| WheelLayout.RemoveStored | timer/include/timer_wheel.hpp:140-164 | erasing at the indexed location removes exactly that timer and keeps the agreement |
| WheelLayout.EraseIsSound | timer/include/timer_wheel.hpp:144-160 | the slot named by the index holds the timer if and only if the timer is not in a swapped-out list |
| WheelLayout.SweptStored | timer/include/timer_wheel.hpp:214-246 | once the current slot of a level is emptied, everything left on the level belongs to later sweeps |
| WheelLayout.SweepStep | timer/include/timer_wheel.hpp:220-223 | re-inserting a swept entry keeps the agreement and, within the span, puts it on a strictly lower level |
| WheelLayout.OverRangeStays | timer/include/timer_wheel.hpp:234-242 | an entry beyond the span that is swept early goes back to the same slot; on its own lap it goes lower |
| WheelLayout.DueSlot | timer/include/timer_wheel.hpp:262-263 | after the cascades the level 0 slot of the current tick holds a timer if and only if its expiry is now |
| WheelLayout.FireStarts | timer/include/timer_wheel.hpp:194-200 | the list swapped out by `fire_slot` is exactly the due timers, each once, and all others expire later |
| WheelLayout.NextOrder | timer/include/timer_wheel.hpp:248-264 | the level 0 slot after the cascades of the next tick lists exactly the due timers, each once |
| WheelOrder.PutAllPair | timer/include/timer_wheel.hpp:214-246 | two entries of a swept slot with the same expiry are re-inserted into one slot, in their order |
| WheelOrder.FireInTurn | timer/include/timer_wheel.hpp:194-212 | timers that are in the same slot with the same expiry when they become due fire in their order |
| TimerWheel.TimerWheel.constructor | timer/include/timer_wheel.hpp:112-112 | a new wheel stands for the empty service at time 0 |
| TimerWheel.TimerWheel.Pending | timer/include/timer_wheel.hpp:72-72 | the index has as many entries as there are pending timers |
| TimerWheel.TimerWheel.Insert | timer/include/timer_wheel.hpp:166-192 | appends the entry to the slot of its level and indexes it there |
| TimerWheel.TimerWheel.Schedule | timer/include/timer_wheel.hpp:114-125 | is the service's schedule, also from inside a callback: a fresh id with expiry `delay` ticks ahead (1 for delay 0), behind all timers that this tick has scheduled for the same time |
| TimerWheel.TimerWheel.SchedulePeriodic | timer/include/timer_wheel.hpp:127-138 | is the service's periodic schedule, also from inside a callback: a fresh id with that interval (1 for 0) and the first expiry one interval ahead |
| TimerWheel.TimerWheel.Cancel | timer/include/timer_wheel.hpp:140-164 | returns true exactly for a pending timer and is the service's cancel |
| TimerWheel.TimerWheel.Cascade | timer/include/timer_wheel.hpp:214-246 | empties the current slot of a level into later sweeps, in list order, without changing what is pending, and returns how many moved; pays for itself within the span |
| TimerWheel.TimerWheel.FireSlot | timer/include/timer_wheel.hpp:194-212 | fires exactly the due timers, each once, in list order, running each callback and re-arming periodic ones |
| TimerWheel.TimerWheel.Tick | timer/include/timer_wheel.hpp:248-264 | is one tick of the service, in the order of the slot after the cascades, and returns the number fired; nothing enters the slot being fired |
| TimerWheel.TimerWheel.Advance | timer/include/timer_wheel.hpp:266-271 | is `n` ticks of the service and returns the total fired; it stops early only before a tick in which a callback cancels a timer behind it in the firing order |
| TimerWheel.TimerWheel.ReachBadErase | timer/include/timer_wheel.hpp:140-164 | a tick in which a callback cancels a timer behind it in the firing order does reach that call, with the timer pending, indexed, and missing from the slot that the index names |
| TimerWheel.SiblingWaits | timer/include/timer_wheel.hpp:198-202 | a reachable moment in which the index names, for two timers about to fire, a slot that holds neither |
| TimerWheel.Run | timer/include/timer_wheel.hpp:14-16 | any sequence of calls on a new wheel, up to an undefined tick, is a run of the service; timers scheduled in the same tick for the same time fire in the order of the calls; and if all delays and intervals are below 2^26 then cascades + sum of levels <= 3 * (inserted + fired) |
| BusLayout.StrideIs | spsc_bus/spsc_bus.hpp:141-144 | the stride is the least multiple of a cache line that holds header and payload |
| BusLayout.IndexIsMod | spsc_bus/spsc_bus.hpp:152-159 | truncating to 32 bits and masking is the position modulo the capacity, wrapped or not |
| BusLayout.SlotsDisjoint | spsc_bus/spsc_bus.hpp:146-159 | any capacity of consecutive positions has disjoint byte ranges inside the segment |
| BusLayout.SegmentIsFull | spsc_bus/spsc_bus.hpp:146-159 | the first slot follows the control block of 256 bytes and the last one ends with the segment |
| BusLayout.StrideLimit | spsc_bus/spsc_bus.hpp:234-234 | all slots are disjoint if and only if the payload limit is at most 0xFFFFFFB8 |
| SpscBus.StepKeeps | spsc_bus/spsc_bus.hpp:363-473 | every memory access of either side, every crash and every re-attach keeps the ring, the registers and the log consistent |
| SpscBus.NeverStuck | spsc_bus/spsc_bus.hpp:375-473 | neither side can be stopped by the other inside a call |
| SpscBus.WaitFree | spsc_bus/spsc_bus.hpp:375-473 | each step of a side brings its own call nearer to its end and never sets the other back |
| SpscBus.ImageStep | spsc_bus/spsc_bus.hpp:379-389 | each step on 64-bit positions is the image of the step on unbounded ones |
| SpscBus.Unwrap | spsc_bus/spsc_bus.hpp:363-473 | every run with wrapping positions is the image of a run with unbounded positions that keeps the invariant |
| SpscBus.LosslessDelivery | spsc_bus/spsc_bus.hpp:458-473 | in every interleaving with crashes the copies are the published messages at positions 0, 1, 2, ...: all bytes of one that fits the buffer, else as many as it holds; repeats are exactly the copies whose consumer died before releasing them |
| SpscBus.RefinesQueue | spsc_bus/spsc_bus.hpp:375-473 | each step is an enqueue, a dequeue of the message just copied, or nothing, on a queue bounded by the capacity |
| SpscBus.FullAndEmptyAreTrue | spsc_bus/spsc_bus.hpp:379-383 | full is reported exactly when the queue is full at the refresh, empty exactly when it is empty; a stale cache is conservative |
| SpscBus.PopReturnsSize | spsc_bus/spsc_bus.hpp:466-472 | a consuming pop returns the size of the message it released, so 0 exactly for an empty message |
| SpscBus.NeverSameSlot | spsc_bus/spsc_bus.hpp:385-387 | the slot being written is never the slot being read |
| SpscCalls.PushReturns | spsc_bus/spsc_bus.hpp:375-391 | what a whole `try_push` returns in any interleaving: too big exactly above the limit, with nothing changed; pushed exactly if it published its message; full exactly if it published nothing, and then the queue was full at its load |
| SpscCalls.PopReturns | spsc_bus/spsc_bus.hpp:458-473 | what a whole `try_pop` returns in any interleaving: empty exactly if it released nothing, and then the queue was empty at its load; else it released the next message, returns its size and filled the caller's buffer with it |
| SpscCalls.CacheIsLastLoad | spsc_bus/spsc_bus.hpp:363-373 | the cached position of the other side is the one last loaded, attaching or refreshing |
| SpscCalls.LoadsOnlyIfNeeded | spsc_bus/spsc_bus.hpp:379-383 | a call loads the other side's position exactly if by the cached one the ring is full, or empty |
| SpscCalls.ProducerReplaced | spsc_bus/spsc_bus.hpp:363-373 | after a death nothing is published until the next producer is idle, which continues at the published position |
| SpscCalls.ConsumerReplaced | spsc_bus/spsc_bus.hpp:446-455 | after a death nothing is copied or released until the next consumer is idle |
| LossyBus.StepKeeps | spsc_bus/spsc_bus.hpp:479-621 | every access and every death of either side, anywhere, keeps each generation equal to twice the pushes begun on the slot less the open and cut-short ones, committed slots whole, and a copy of a quiet slot a prefix of one message |
| LossyBus.NeverStuck | spsc_bus/spsc_bus.hpp:507-509 | even a torn size never leads outside the slot |
| LossyBus.AlwaysEnabled | spsc_bus/spsc_bus.hpp:479-621 | in every run, whoever dies, neither side can be stopped inside a call |
| LossyBus.GenerationTest | spsc_bus/spsc_bus.hpp:498-506 | in every run, a slot that passes the first generation test is being written if and only if an odd number of pushes to it were cut short; it is not whole exactly if it is being written or its last push was cut short, and otherwise holds the last message pushed to it |
| LossyBus.PopIsWhole | spsc_bus/spsc_bus.hpp:498-524 | in every run, if no push to this slot was cut short (or the last one begun was committed when the copy began), a successful pop returns one whole message of its slot, and the one at `read_pos` if and only if the next lap's push had not begun |
| LossyBus.ReadPosMonotone | spsc_bus/spsc_bus.hpp:489-523 | in every run `read_pos` never decreases and never passes `write_pos`, which never decreases |
| LossyBus.FastForward | spsc_bus/spsc_bus.hpp:512-519 | in every run, after an overwrite reading resumes at the oldest position in the ring if and only if more than a capacity was published, else at the end |
| LossyCalls.LapSkip | spsc_bus/spsc_bus.hpp:489-496 | in every run, a lapped reader skips if and only if more than a capacity lies between it and the loaded `write_pos`, and then resumes exactly a capacity behind that load |
| LossyCalls.PopReturns | spsc_bus/spsc_bus.hpp:479-524 | what a whole `try_pop_lossy` answers in any interleaving, when, and what it does to `read_pos`: nothing, busy, overwritten with the position where reading resumes, or a size with the caller's buffer filled |
| LossyCalls.PushReturns | spsc_bus/spsc_bus.hpp:602-621 | when a push returns, its message is published at the next position, held by its slot, committed two generations on, and no other slot was touched; only a message above the limit is refused |
| LossyCalls.ProducerReplaced | spsc_bus/spsc_bus.hpp:590-598 | after a death no slot is written and nothing published until the next producer is idle |
| LossyCalls.ConsumerReplaced | spsc_bus/spsc_bus.hpp:446-455 | after a death nothing is answered or released until the next consumer is idle, at `read_pos` |
| LossyRuns.EarlyAndTwice | spsc_bus/spsc_bus.hpp:483-490 | a run that delivers the second message twice, the first never, and flags nothing |
| LossyRuns.TornAfterCrash | spsc_bus/spsc_bus.hpp:607-616 | a run in which a producer dies inside a push and a pop then returns a mix of two messages |
| LossyRuns.TornAtRest | spsc_bus/spsc_bus.hpp:607-616 | a run in which two producers die inside a push, the generation is even again, nobody is writing, and a pop returns a mix |
| LossyRuns.IntactMessageSkipped | spsc_bus/spsc_bus.hpp:512-519 | a run of two slots and three pushes in which the fast-forward skips an intact message |
| LossyWrap.ImageStep | spsc_bus/spsc_bus.hpp:479-524 | a step on 64-bit positions is the image of the step on unbounded ones if and only if it is not one of four comparisons of the reader that the wrap falsifies |
| LossyWrap.OnlyTheReload | spsc_bus/spsc_bus.hpp:512-519 | with less than 2^64 messages of lag only the reload after an overwrite is left, exactly when the wrapped position is not above the capacity and the true one is |
| LossyWrap.Unwrap | spsc_bus/spsc_bus.hpp:479-621 | every run on 64-bit positions is the image of a run on unbounded ones up to its first such step |
| PoolArith.AlignUpIs | memory_pool/memory_pool.hpp:47-49 | the least multiple of a power of two not below `n` |
| PoolArith.AlignUpWraps | memory_pool/memory_pool.hpp:47-49 | above the last multiple below 2^64 the result is 0 |
| PoolArith.NextPow2 | memory_pool/memory_pool.hpp:51-62 | the least power of two not below `n`, and 0 exactly when `n` exceeds 2^63 |
| PoolProtocol.StepKeeps | memory_pool/memory_pool.hpp:104-121 | every memory access of the allocating and the freeing thread keeps the partition of the blocks |
| PoolProtocol.ImageStep | memory_pool/memory_pool.hpp:104-126 | each step on 64-bit counters is the image of the step on unbounded ones |
| PoolProtocol.Ownership | memory_pool/memory_pool.hpp:176-192 | in every interleaving each block is in exactly one of ring, threads' hands and clients' hands, and a free never overflows |
| PoolProtocol.NullMeansExhausted | memory_pool/memory_pool.hpp:114-121 | `alloc` fails exactly when no block is in the ring at its load |
| PoolProtocol.FullRefused | memory_pool/memory_pool.hpp:104-107 | the overflow test flags exactly a push to a full ring, and leaves the ring alone |
| PoolCalls.AllocReturns | memory_pool/memory_pool.hpp:176-183 | what a whole `alloc` returns in any interleaving: null exactly if it took nothing, the ring being empty at its load; else the oldest block, which has left the ring for the client |
| PoolCalls.FreeReturns | memory_pool/memory_pool.hpp:186-192 | when `free` returns, exactly that block has been added to the ring, behind all others |
| MemoryPool.FreeList.Push | memory_pool/memory_pool.hpp:104-111 | appends to a FIFO, and fails exactly when it is full |
| MemoryPool.FreeList.Pop | memory_pool/memory_pool.hpp:114-121 | takes the oldest pointer, and fails exactly when there is none |
| MemoryPool.FreeList.Size | memory_pool/memory_pool.hpp:124-126 | the wrapping difference of the counters is the number of free blocks |
| MemoryPool.InsideIff | memory_pool/memory_pool.hpp:207-240 | all blocks lie inside the backing, whose size is the product modulo 2^64, if and only if the product is below 2^64 |
| MemoryPool.WrappedBacking | memory_pool/memory_pool.hpp:207-240 | the input for which they do not: a backing of 4096 bytes and a second block at 2^58 + 64 |
| MemoryPool.BlocksDisjoint | memory_pool/memory_pool.hpp:207-240 | if the product does not wrap, blocks are disjoint, inside the backing and on cache-line boundaries |
| MemoryPool.OffsetsDiffer | memory_pool/memory_pool.hpp:234-240 | wrapped or not, no two blocks of a pool with a backing have the same address |
| MemoryPool.RoundUp | memory_pool/memory_pool.hpp:152-156 | the block size becomes the least whole number of cache lines, the count the least power of two of at least 2, and either is 0 when it would be 2^64 |
| MemoryPool.MemoryPool.constructor | memory_pool/memory_pool.hpp:152-159 | a new pool has every block free, in address order, each once |
| MemoryPool.Create | memory_pool/memory_pool.hpp:152-159 | for any arguments, throws exactly if nothing is mapped or the 64-bit backing size is 0; otherwise the rounded pool |
| MemoryPool.MemoryPool.Populate | memory_pool/memory_pool.hpp:234-240 | pushes every block once, none refused |
| MemoryPool.MemoryPool.Alloc | memory_pool/memory_pool.hpp:176-183 | hands out the oldest free block, and fails exactly when none is free |
| MemoryPool.MemoryPool.Free | memory_pool/memory_pool.hpp:186-192 | returns a block that is not free; there is always room |
| ThreadCache.ThreadLocalCache.FillBatch | memory_pool/memory_pool.hpp:284-289 | a refill moves the oldest free blocks, up to a batch, onto the stack within its bounds, and changes nothing about who holds what |
| ThreadCache.ThreadLocalCache.Alloc | memory_pool/memory_pool.hpp:280-291 | hands out a block nobody holds, the last one cached if there is one without touching the pool, and fails exactly when the client holds every block |
| ThreadCache.ThreadLocalCache.Free | memory_pool/memory_pool.hpp:294-302 | takes a held block back onto the stack, touching the pool only to flush a batch when the stack is full |
| ThreadCache.ThreadLocalCache.FlushAll | memory_pool/memory_pool.hpp:305-308 | afterwards the pool has exactly the blocks the client does not hold |
| EpollSpec.NextExpiryIsLeast | timer/src/epoll_timer.cpp:105-113 | a periodic timer's next expiry keeps the phase and is the least such after now |
| EpollSpec.DrainIsExact | timer/src/epoll_timer.cpp:80-115 | whatever the callbacks do, no timer fires twice; those live at the start fire in order of expiry, and a due one if and only if no callback cancels it before its turn; a fired one-shot is gone and a fired periodic timer is live at its next expiry unless a later callback cancels it; one not due is untouched unless cancelled |
| EpollSpec.OnlyDueFire | timer/src/epoll_timer.cpp:80-115 | when callbacks schedule only beyond the drain's clock reading, a drain fires nothing but timers live and due at its start |
| EpollTimer.EpollTimer.Schedule | timer/src/epoll_timer.cpp:134-147 | adds a live timer, throws exactly if the new expiry is negative and the earliest, and says what deadline is then armed (the new expiry exactly if it is positive and the earliest) and whether that was a re-arming |
| EpollTimer.EpollTimer.SchedulePeriodic | timer/src/epoll_timer.cpp:149-162 | adds a live periodic timer, throws exactly if the first expiry is negative and the earliest, and says what deadline is then armed |
| EpollTimer.EpollTimer.Cancel | timer/src/epoll_timer.cpp:164-172 | returns true exactly for a live timer, and leaves its heap entry stale |
| EpollTimer.EpollTimer.CatchUp | timer/src/epoll_timer.cpp:105-110 | the catch-up loop ends at the next expiry |
| EpollTimer.EpollTimer.FireDue | timer/src/epoll_timer.cpp:84-115 | the firings are in turn, and a complete drain unless stopped with a timer still due; with callbacks that schedule for later it ends within as many firings as entries were due |
| EpollTimer.EndlessDrain | timer/src/epoll_timer.cpp:84-115 | callbacks that schedule a timer due at once can keep the drain firing, in turn, any number of times |
| EpollTimer.EpollTimer.ArmNext | timer/src/epoll_timer.cpp:117-127 | drops stale tops and arms for the next live one, and throws exactly if a live expiry is negative |
| EpollTimer.EpollTimer.DrainExpired | timer/src/epoll_timer.cpp:80-130 | is a complete drain when it ends, and then leaves the kernel timer armed for the top of the heap |
| EpollTimer.EpollTimer.RunOnce | timer/src/epoll_timer.cpp:174-192 | drains when the timer is ready and otherwise changes nothing |
| EpollRuns.ExactFiring | timer/src/epoll_timer.cpp:80-130 | in every run of calls and drains, a timer nobody cancels fires in a drain if and only if its expiry, or a whole number of intervals later, lies after every reading of the drains since and not after this one |
| EpollRuns.LatestIsLast | timer/src/epoll_timer.cpp:82-82 | with a clock that never goes back, that is the reading of the previous drain |
| EpollRuns.ScheduledFiring | timer/src/epoll_timer.cpp:134-147 | a timer from `schedule(delay)` at reading `clock`, that nobody cancels, fires in a drain exactly if `clock + delay` has come up and no drain since had reached it |
| EpollRuns.Counters | timer/src/epoll_timer.cpp:99-103 | in every run `cancelled` is the number of cancels that found a live timer, `fired` that of the callbacks run, and ids count the schedule calls |
| EpollRuns.Run | timer/src/epoll_timer.cpp:194-199 | any sequence of calls and turns of the event loop on a new timer is such a run, up to a drain that does not end |
| EpollTimer.ArmedIff | timer/src/epoll_timer.cpp:117-147 | the kernel timer is armed for the top of the heap if and only if the top is positive; then it is in time for every live timer, and if the top is live only then |
| EpollTimer.ArmedInTime | timer/src/epoll_timer.cpp:117-147 | with positive expiries no deadline is lost |
| EpollTimer.DeadlineLost | timer/src/epoll_timer.cpp:62-68 | for every time up to the origin, two calls after which a live timer waits and the kernel timer is disarmed |
| ThreadPool.StepKeeps | tcp_server/src/thread_pool.hpp:25-59 | every step of submitters, workers and shutdown keeps order, mutual exclusion, wake-up cover and the stop conditions |
| ThreadPool.TakenInOrder | tcp_server/src/thread_pool.hpp:54-55 | tasks leave the queue in submit order, each once |
| ThreadPool.SubmitPushes | tcp_server/src/thread_pool.hpp:25-31 | a submit pushes its own task behind all others |
| ThreadPool.StartsOldest | tcp_server/src/thread_pool.hpp:46-59 | a worker with the mutex starts the oldest submitted task not yet taken; with none it returns exactly if the pool was stopped |
| ThreadPool.EachRunOnce | tcp_server/src/thread_pool.hpp:54-57 | at every moment each task has been finished or is being run exactly as often as it was taken |
| ThreadPool.AllFinished | tcp_server/src/thread_pool.hpp:33-59 | when all workers have returned the finished tasks are those taken, and without late submits those submitted |
| ThreadPool.OneNotifyEach | tcp_server/src/thread_pool.hpp:25-31 | the notifications made and to come are as many as the tasks submitted |
| ThreadPool.NoLostWakeup | tcp_server/src/thread_pool.hpp:25-31 | until the last worker has returned, a queued task has an awake worker or a notification to come, and as long as someone sleeps one for each task |
| ThreadPool.ShutdownDrains | tcp_server/src/thread_pool.hpp:33-43 | if nobody submits after stop, every submitted task has been taken when the first worker has returned; after the notification nobody sleeps |
| ThreadPool.StaysEmpty | tcp_server/src/thread_pool.hpp:52-53 | a returned worker stays so, and if nobody submits after stop the queue it left stays empty |
| ThreadPool.AbandonedIff | tcp_server/src/thread_pool.hpp:46-59 | in every run, submits after stop included, the last worker to return leaves an empty queue with every task taken; a task is abandoned if and only if it is pushed after that |
| ThreadPool.AbandonedRun | tcp_server/src/thread_pool.hpp:25-59 | a run of one worker that ends with all workers returned and a task in the queue |
| ThreadPool.LateTaskAbandoned | tcp_server/src/thread_pool.hpp:25-31 | once all workers have returned no task is ever taken again, and those in the queue stay there |
| Framing.RoundTrip | tcp_server/src/protocol.cpp:37-98 | decoding an encoding gives the message back and leaves the rest |
| Framing.WireFormat | tcp_server/src/protocol.hpp:30-32 | the bytes on the wire: length and id with the most significant byte first, tag, and a payload of at most 65535 bytes |
| Framing.WireRefused | tcp_server/src/protocol.cpp:76-98 | a stream is refused exactly if its length word is below 5 or above 65540, and short exactly if it ends before that length |
| Framing.DecodeIsExact | tcp_server/src/protocol.cpp:76-124 | a successful decode consumed exactly the encoding of its result |
| Framing.ListRoundTrip | tcp_server/src/protocol.cpp:37-124 | a stream of frames decodes to the same messages |
| Framing.ListIsExact | tcp_server/src/protocol.cpp:76-124 | any stream is the frames decoded from it followed by what is left |
| Framing.SendExact | tcp_server/src/protocol.cpp:24-35 | all the bytes are sent, or on failure a proper prefix |
| Framing.RecvExact | tcp_server/src/protocol.cpp:11-22 | exactly the next bytes are received; with a progressing kernel it fails only if the stream is too short |
| Framing.SendMessage | tcp_server/src/protocol.cpp:37-74 | sends the encoding, or a proper prefix on failure, and refuses an oversized payload before sending anything |
| Framing.RecvMessage | tcp_server/src/protocol.cpp:76-124 | returns what decoding the stream gives, however it is cut |
| Framing.Exchange | tcp_server/src/protocol.cpp:11-124 | any list of messages that fit survives any two fragmentations |

## Left out

- Weak memory: acquire, release and fences are taken as sequentially consistent accesses.
- Liveness and fairness: the blocking `push` and `pop`, spin loops and `join` are not modelled beyond the steps they repeat; `Producer::push` never returns for an oversized message, and `pop` silently drops messages of no bytes.
- TimerWheel.TimerWheel.Cancel: requires that the timer is not waiting in a swapped-out list, because the source then erases a list node through a list that does not hold it, which is undefined.
- TimerWheel.TimerWheel.FireSlot: requires that no callback cancels a timer behind it in the list being fired, for the same reason.
- TimerWheel.TimerWheel.Tick: requires the same of the list it is about to fire; `tick` called from a callback is not modelled.
- TimerWheel: timer ids are unbounded.
- LossyBus.PopIsWhole: requires fewer than 2^31 pushes to one slot during one copy, after which the 32-bit generation repeats; it speaks of unbounded positions, which LossyWrap relates to 64-bit ones.
- SpscBus: `create`, `open`, heartbeats, process liveness, session ids and the notifier are operating-system plumbing.
- MemoryPool: pointers are offsets from the backing, so that a wrapped block at address null is not told apart; alloc and free statistics wrap in the source; allocating the array of the free list is taken to succeed if the backing is mapped.
- EpollTimer.EpollTimer.FireDue: takes a number of firings after which it stops, because callbacks that keep scheduling timers already due keep the source's loop going for ever (`EpollTimer.EndlessDrain`); it says what holds after any number of firings.
- EpollTimer.EpollTimer.DrainExpired: the same; the clock reading is not negative, and expiries do not overflow 64 bits.
- EpollTimer.EpollTimer.RunOnce: the same.
- EpollRuns.Run: stops at a drain that does not end within a given number of firings.
- EpollTimer: a callback that throws, or lets an exception of `schedule` out, is not modelled.
- EpollTimer: the internals of the priority queue, epoll and timerfd system calls, overrun statistics and the unused `push_entry`.
- ThreadPool: tasks are names; what they do, and exceptions they throw, are not modelled.
- Framing.RecvMessage: does not model the fields of `out` that a failed receive leaves half written.
- SlabPool and `size_to_class`, a table lookup that adds only easy members.
- TcpServer, TcpClient, tsc_clock, benchmarks and demos.
