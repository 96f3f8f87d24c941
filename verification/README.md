# Verified model of a small aarch64 hypervisor's core

This project models, in Dafny, the parts of the hypervisor that everything else stands on, and
proves what they promise. `dafny verify dfyconfig.toml` checks all of it.

## What is modelled

**The allocator** (`Heap*.dfy`). Memory is one array of 32-bit words. Headers are overlaid on it
(magic at +0, size at +4, next at +8 as two words), so list links, split headers and payloads share
words, and that none of them destroys another is proved, not assumed. `HeapModel` has the data and
the tiling of the heap by used and free blocks, `HeapSteps` what an allocation and a free write,
`HeapKeeps` that both keep the heap valid, `HeapRuns` runs of allocations, frees and program stores,
`HeapDecode` what raw memory decodes to, `HeapFrames` frames and double frees, `HeapTheorems` the
main results, and `HeapCode` the class whose methods are the C functions, step by step. Size
arithmetic has the widths of the C code: `size_t` of 64 bits, `total_size` and header sizes of 32.
A panic is a returned flag, and ends the run.

**The locks and counters** (`Exclusive`, `TicketLock`, `RunOnce`, `RunOnceRetry`, `RwLock`,
`Atomics`). The assembly is a state machine over any number of CPUs. A load-exclusive, a
store-exclusive that succeeds or fails, and a plain store are one step each; any CPU's write to the
word clears the other CPUs' reservations (Arm DDI 0487, section B2.9 in issue F). A ticket lock is
one 32-bit word with two wrapping halves. Unlocking is a read of the owner half and a later store
to it.

**The timer list** (`IntrusiveList`, `TimerFates`, `Timer`). The list is a ring of mutable nodes.
The interrupt walk is the loop of the handler: it calls back, unlinks and frees, while callbacks
start timers.

**Timers in the heap** (`TimerHeap`, `TimerHeapRound`, `TimerHeapIrq`). The same walk on memory of
the allocator: a timer is 14 words of a live block, links are addresses in those words, `malloc`
may fail, and a timer that a callback starts may stand where one freed earlier in the walk stood.

**Printing** (`Numerals`, `NumberText`, `Print`, `Formats`, `FormatTexts`, `FormatParts`,
`Directives`, `Vprintf`). `print64` with its 72-byte buffer, `fetch_digit`, and `vprintf` with its
directives. `Directives` has the output of each of them, character for character, and
`FormatParts` formats put together from such parts.

**Interrupt registers** (`Bits`, `Gic`, `GicCode`). The C bit operators on 32-bit words, the
register arrays of the distributor, and `gic_irq_enable` on a shared peripheral interrupt.

**Copying** (`MemCopy`). The word-and-tail loops of `memcpy` and `memset` on one memory, so that
regions may overlap.

## Limits of the code

Each of these is proved, with the exact condition.

- A request of 2^32 - 31 to 2^32 - 16 bytes makes `total_size` wrap to 0, and the first free block
  is marked used while it stays the head of the free list; most larger requests get a payload too
  short for them. The size arithmetic is right exactly up to 2^32 - 32 bytes, and where the rounded
  size wraps to 0, so that nothing is asked for (`HeapTheorems.HonestExactly`, `TotalWrapsToZero`).
  A payload holds its request exactly up to 2^32 - 32 bytes (`HeapTheorems.PayloadHoldsExactly`);
  what the call leaves for a total of 0 is in the last clauses of `HeapCode.MiniHeap.Alloc`.
- A heap of 2^32 bytes or more does not fit its own header: some tiling by blocks agrees with what
  `miniheap_init` sets up exactly below that size (`HeapCode.InitValidExactly`,
  `TooBigForItsHeader`).
- The ticket lock excludes exactly up to 65536 CPUs, and `arch_spin_is_locked` is right exactly
  below 65536 (`TicketLock.MutualExclusionExactly`, `IsLockedExactly`).
- `arch_read_can_lock` says yes when the word is 0x7FFF_FFFF, where `arch_read_trylock` fails, and
  is right about every other word; a run with 2^31 - 1 read locks gets there
  (`RwLock.ReadCanLockExactly`, `ReadCanLockGoesWrong`).
- `atomic64_dec_if_positive` also decrements the most negative value (`Atomics.DecIfPositiveExactly`).
- `fetch_digit` overflows an int for widths above INT_MAX - 48, not above INT_MAX
  (`FormatTexts.WidthRoundTrip`).
- A format that ends in `%`, `%l` or `%L`, with or without a width, makes `vprintf` step past its
  terminator, exactly when printing gets to a directive that the terminator cuts short
  (`Formats.StepsPastExactly`, `FormatTexts.CutShortStepsPast`).
- A number printed with a zero flag cannot be read back exactly when zeros come before its minus
  sign or prefix (`NumberText.ReadsBackExactly`). In a format only the sign can be so cut off:
  `vprintf` asks for a prefix only for `%p`, and then without zeros.
- `memcpy` is right on overlapping regions exactly when the destination is at or below the source,
  or the length is 8 (`MemCopy.MemcpyExactly`).
- Configuring a shared interrupt for group 0 leaves its group bit as it was and sets its modifier
  bit (`GicCode.Gicd.GicIrqEnable`).

## Model

| member | source | states |
|---|---|---|
| `HeapCode.InitValidExactly` | src/libc/miniheap.c:15-24 | some tiling agrees with headers, list and byte count that init sets up exactly when the size is below 2^32; the heap is then valid |
| `HeapCode.TooBigForItsHeader` | src/libc/miniheap.c:15-24 | a heap of 2^32 bytes or more, all of it free, agrees with no tiling whatever its memory holds |
| `HeapCode.MiniHeap.Init` | src/libc/miniheap.c:9-27 | it panics exactly on size 0 or a size that is no multiple of 16, and changes nothing then; else the first four words are the free magic, the size modulo 2^32 and NULL, every other word is as it was, and the list is that one block |
| `HeapCode.MiniHeap.Search` | src/libc/miniheap.c:41-72 | the loop stops at the lowest free block that is big enough, with the free block before it, or at NULL when there is none |
| `HeapCode.MiniHeap.Take` | src/libc/miniheap.c:44-65 | an exact fit unlinks the block, a larger one is split; every word and the list head as they are after |
| `HeapCode.MiniHeap.Alloc` | src/libc/miniheap.c:29-80 | for every size whose total does not wrap to 0: heap valid, memory, fields and result those of the specification; for the others: what is corrupted |
| `HeapCode.MiniHeap.Locate` | src/libc/miniheap.c:92-101 | the loop finds the free neighbours in the list of the block being freed |
| `HeapCode.MiniHeap.Free` | src/libc/miniheap.c:82-124 | it panics exactly on a header that is not marked used, changing nothing; else heap valid, and memory and fields those of the specification, whichever neighbours merge |
| `HeapCode.MiniHeap.Dump` | src/libc/miniheap.c:126-136 | it visits the free blocks of the tiling, each once, in address order |
| `HeapKeeps.AllocKeeps` | src/libc/miniheap.c:44-77 | an allocation keeps tiling, headers, links, byte count and that no two free blocks touch |
| `HeapKeeps.FreeKeeps` | src/libc/miniheap.c:103-123 | a free does too, in each of the four merge cases |
| `HeapRuns.ExecKeeps` | src/libc/miniheap.c:29-124 | every allocation, free and store into a live payload keeps the heap valid |
| `HeapRuns.RunKeeps` | src/libc/miniheap.c:29-124 | so does every run of them |
| `HeapDecode.DecodeIsTiling` | src/libc/miniheap.c:5-6 | reading headers from the base up gives back exactly the blocks |
| `HeapDecode.WalkIsFreeList` | src/libc/miniheap.c:126-136 | following the links in memory gives exactly the free blocks in address order |
| `HeapDecode.RunDecodes` | src/libc/miniheap.c:9-124 | after any run raw memory decodes to an exact tiling in 16-byte multiples; the list holds exactly the free blocks, each past a gap after the one before; free_bytes is their sum and the size less the used sizes |
| `HeapFrames.UsedStays` | src/libc/miniheap.c:29-124 | a live block survives every operation but its own free |
| `HeapFrames.ExecFrame` | src/libc/miniheap.c:44-123 | no operation changes a header or payload word of a live block that it does not free or store to itself |
| `HeapFrames.RunFrame` | unittest/miniheap_stress_test.c:82-111 | over any run the words of a live block, header and payload, keep what the program stored |
| `HeapFrames.ExecMarks` | src/libc/miniheap.c:54-123 | a free magic outside allocated blocks outlives every operation until an allocation covers it |
| `HeapFrames.DoubleFreePanics` | src/libc/miniheap.c:89-91 | after free(p) and any later run, a second free(p) panics as long as no allocated block has covered its header granule, whatever was merged |
| `HeapFrames.LiveFreeDoesNotPanic` | src/libc/miniheap.c:87-91 | a live pointer is never taken for an invalid one |
| `HeapTheorems.TotalIsNeeded` | src/libc/miniheap.c:31-36 | up to 2^32 - 32 bytes the 32-bit arithmetic yields the size rounded up to 16, plus 16 |
| `HeapTheorems.MallocFailsExactly` | src/libc/miniheap.c:33-72 | NULL exactly for size 0 or when no free block is big enough, the free_bytes test never rejecting too much; and then the heap is unchanged |
| `HeapTheorems.MallocFirstFit` | src/libc/miniheap.c:43-79 | otherwise the lowest free block that fits is used, from its front |
| `HeapTheorems.MallocServes` | src/libc/miniheap.c:73-79 | the payload is new, live, 16-aligned to the base, of the rounded size, and disjoint from every other live block, all of which were live before |
| `HeapFrames.LiveBlocksApart` | unittest/miniheap_stress_test.c:82-84 | two live blocks share no byte |
| `HeapTheorems.TilingIsCanonical` | src/libc/miniheap.c:105-122 | a coalesced tiling is determined by its used blocks |
| `HeapTheorems.FreeListIsCanonical` | src/libc/miniheap.c:105-122 | the free list read from memory, its head and free_bytes are a function of the live blocks alone |
| `HeapTheorems.FreeEach` | src/libc/miniheap.c:82-124 | freeing a set of live pointers is legal in any order and leaves exactly the other live blocks |
| `HeapTheorems.FreeOrderDoesNotMatter` | src/libc/miniheap.c:82-124 | any two orders of freeing give the same free list |
| `HeapTheorems.FreeingAllRestores` | unittest/miniheap_stress_test.c:137-157 | freeing every live block leaves the one free block of the whole heap |
| `HeapTheorems.MallocFreeRoundTrip` | src/libc/miniheap.c:44-123 | a successful alloc and the free of its result restore the free list and free_bytes exactly |
| `HeapTheorems.HonestExactly` | src/libc/miniheap.c:31-36 | the 32-bit arithmetic asks for nothing or for a block that holds the request, exactly for sizes up to 2^32 - 32 and those whose rounding wraps to 0 |
| `HeapTheorems.PayloadHoldsExactly` | src/libc/miniheap.c:31-36 | the payload returned for a total that did not wrap to 0 holds the request exactly up to 2^32 - 32, and is then the least multiple of 16 that does |
| `HeapTheorems.NeededIs` | src/libc/miniheap.c:31-36 | a request needs a header of 16 bytes and the least multiple of 16 that holds it |
| `HeapTheorems.LiveHeader` | src/libc/miniheap.c:73-77 | in front of a live payload stand the used magic and the size of the block |
| `HeapTheorems.TotalWrapsToZero` | src/libc/miniheap.c:31-36 | the sizes on either side of the limit |
| `TicketLock.Simulate` | platform/aarch64/include/spinlock/arch_spinlock.h:34-93 | each instruction of lock, trylock and unlock is at most one step of a queue with unbounded tickets |
| `TicketLock.LockRefinesQueue` | platform/aarch64/include/spinlock/arch_spinlock.h:34-93 | every run of up to 65536 CPUs refines a run of that queue |
| `TicketLock.RefinesMutex` | platform/aarch64/include/spinlock/arch_spinlock.h:34-63 | at most one CPU is past the lock |
| `TicketLock.FirstInFirstOut` | platform/aarch64/include/spinlock/arch_spinlock.h:41-57 | CPUs enter in the order of their ticket stores and leave in the order they entered, across any number of wraps |
| `TicketLock.TrylockNeverOvertakes` | platform/aarch64/include/spinlock/arch_spinlock.h:65-84 | a trylock whose store succeeds finds that nobody holds or waits |
| `TicketLock.TrylockExactly` | platform/aarch64/include/spinlock/arch_spinlock.h:65-84 | from every reachable state an undisturbed trylock takes the lock exactly when nobody holds or waits, and otherwise gives up with the word unchanged |
| `TicketLock.TrylockGivesUp` | platform/aarch64/include/spinlock/arch_spinlock.h:71-77 | in any run a trylock gives up only at a load that finds somebody holding or waiting; after a failed store it tries again |
| `TicketLock.LockExactly` | platform/aarch64/include/spinlock/arch_spinlock.h:39-51 | from every reachable state an undisturbed lock takes its ticket, and is inside at once exactly when nobody holds or waits |
| `TicketLock.LockReturnsHolding` | platform/aarch64/include/spinlock/arch_spinlock.h:34-63 | a lock never returns without the lock, whatever fails and whatever the others do |
| `TicketLock.UnlockHandsOver` | platform/aarch64/include/spinlock/arch_spinlock.h:53-57 | the holder gets out by its read and its store, and the next spin of the CPU with the next ticket lets that one in |
| `TicketLock.TicketStoreKeepsOwner` | platform/aarch64/include/spinlock/arch_spinlock.h:42-45 | the add of 1 << 16 never carries into owner, and no ticket store undoes a release |
| `TicketLock.RefinesIsLocked` | platform/aarch64/include/spinlock/arch_spinlock.h:95-103 | owner differs from next exactly when some CPU holds or waits |
| `TicketLock.MutualExclusionExactly` | platform/aarch64/include/spinlock/arch_spinlock.h:34-93 | mutual exclusion in every run exactly up to 65536 CPUs |
| `TicketLock.IsLockedExactly` | platform/aarch64/include/spinlock/arch_spinlock.h:100-103 | is_locked right in every run exactly below 65536 CPUs |
| `TicketLock.TooManyCpus` | platform/aarch64/include/spinlock/arch_spinlock.h:39-48 | with more CPUs than tickets some run has two holders |
| `RunOnce.MoveSound` | include/utils/utils.h:17-34 | every step of every caller, lock instructions included, keeps the invariant of run_once |
| `RunOnce.ReachableSound` | include/utils/utils.h:17-34 | so it holds in every reachable state of the callers over the ticket lock |
| `RunOnce.FuncRunsAlone` | include/utils/utils.h:22-30 | func never runs twice at once, and at most one call of it returns 0 |
| `RunOnce.NoCallAfterSuccess` | include/utils/utils.h:21-28 | once a call has returned 0 no call starts |
| `RunOnce.ZeroMeansDone` | include/utils/utils.h:19-33 | a caller returns 0 only when the flag is 1 |
| `RunOnce.FailureIsRetryable` | include/utils/utils.h:19-23 | while no call has returned 0, failed ones included, a caller at either check passes it |
| `RunOnceRetry.RetryExactly` | include/utils/utils.h:17-34 | from every reachable state some continuation brings a caller to func exactly when no call of it has returned 0, whoever holds or waits for the lock |
| `RunOnceRetry.CallerReturnsOwnResult` | include/utils/utils.h:19-33 | what a caller returns is what its own call of func has returned, or 0 if it has made none |
| `RwLock.StepSound` | platform/aarch64/include/spinlock/arch_spinlock.h:122-222 | every instruction keeps the invariant that ties the word to its holders |
| `RwLock.WordTellsHolders` | platform/aarch64/include/spinlock/arch_spinlock.h:122-222 | the word is 0x80000000 exactly with one writer and no reader, else the number of readers, below 2^31 with any number of CPUs |
| `RwLock.WriterIsAlone` | platform/aarch64/include/spinlock/arch_spinlock.h:122-159 | a writer excludes everyone |
| `RwLock.WriteLockExactly` | platform/aarch64/include/spinlock/arch_spinlock.h:122-152 | from every reachable state an undisturbed write lock or trylock takes the lock exactly when nobody holds it; else the trylock gives up and the lock loads again, the word unchanged |
| `RwLock.ReadLockExactly` | platform/aarch64/include/spinlock/arch_spinlock.h:177-222 | and a read lock or trylock exactly when no writer and fewer than 2^31 - 1 readers do, counting itself |
| `RwLock.UnlockExactly` | platform/aarch64/include/spinlock/arch_spinlock.h:154-205 | a reader that unlocks counts itself off; a writer that does clears the word |
| `RwLock.CallsReturn` | platform/aarch64/include/spinlock/arch_spinlock.h:122-222 | whatever fails and whatever the others do, a lock returns only with the lock, an unlock only without, a trylock with it or with what it had |
| `RwLock.CanLockMacros` | platform/aarch64/include/spinlock/arch_spinlock.h:161-162 | the values the macros test mean nobody, and no writer |
| `RwLock.ReadCanLockExactly` | platform/aarch64/include/spinlock/arch_spinlock.h:207-225 | in every reachable state read_can_lock agrees with the test of read_trylock exactly unless the word is 0x7FFF_FFFF, which is that of 2^31 - 1 readers |
| `RwLock.ReadCanLockGoesWrong` | platform/aarch64/include/spinlock/arch_spinlock.h:207-225 | with any number of CPUs some run gets to that word |
| `Atomics.StepSound` | platform/aarch64/include/atomic/atomic.h:85-117 | each instruction of the loops changes nothing or is the whole atomic operation |
| `Atomics.EveryRunIsSequential` | platform/aarch64/include/atomic/atomic.h:85-117 | any interleaving equals the operations one after the other: same results, same value |
| `Atomics.OneEffectEach` | platform/aarch64/include/atomic/atomic.h:109-117 | each call takes effect exactly once, in order, and returns that effect's result |
| `Atomics.AddAlone` | platform/aarch64/include/atomic/atomic.h:34-83 | an undisturbed add or sub leaves the sum modulo the width, and returns it |
| `Atomics.CmpXchgAlone` | platform/aarch64/include/atomic/atomic.h:85-105 | a compare-and-swap returns the old value, and replaces it exactly if it is the one expected |
| `Atomics.AddUnlessAlone` | platform/aarch64/include/atomic/atomic.h:109-117 | add_unless returns the old value, and adds exactly if it is not the one excepted |
| `Atomics.DecIfPositiveAlone` | platform/aarch64/include/atomic/atomic.h:233-251 | dec_if_positive returns one less, and stores it exactly for positive values and the most negative one |
| `Atomics.ValueIsSum` | platform/aarch64/include/atomic/atomic.h:253-262 | the value is the start plus the successful adds modulo the word size |
| `Atomics.DecNeverBelowZero` | platform/aarch64/include/atomic/atomic.h:233-251 | decrements of a non-negative counter stop at 0, and each success counts one |
| `Atomics.DecRunsNeverBelowZero` | platform/aarch64/include/atomic/atomic.h:233-251 | so in every interleaving |
| `Atomics.DecIfPositiveExactly` | platform/aarch64/include/atomic/atomic.h:233-251 | it decrements exactly positive values and the most negative one |
| `IntrusiveList.Insert` | include/list/list.h:23-31 | the ring with the node between its two neighbours |
| `IntrusiveList.ListAdd` | include/list/list.h:33-36 | the ring with the node behind the head |
| `IntrusiveList.ListAddTail` | include/list/list.h:38-41 | the ring with the node at its end |
| `IntrusiveList.ListDel` | include/list/list.h:43-54 | the ring without the node, whose links are NULL |
| `Timer.Manager.StartTimer` | platform/aarch64/timer/timer.c:151-167 | NULL is refused; else the timer is active, its other fields as they were, and first in the list, and no other changes |
| `Timer.Manager.Visit` | platform/aarch64/timer/timer.c:54-66 | one round, by the fields of the timer: called back exactly if is_active with a callback, dropped exactly if is_active and not is_periodic, the others kept in order behind those the callback has started |
| `Timer.Manager.TimerIrq` | platform/aarch64/timer/timer.c:41-74 | the walk ends; of the timers linked at entry it calls back exactly those with is_active and a callback, frees exactly those with is_active and not is_periodic, each once and in order, and keeps exactly the others linked, in order and unchanged; those started meanwhile stand in front, none of them fired |
| `TimerFates.PickIs` | platform/aarch64/timer/timer.c:54-66 | picked to fire are the active timers with a callback, to expire the active one-shot ones, to stay the others, without repetition |
| `TimerFates.ExpireOrStay` | platform/aarch64/timer/timer.c:61-65 | every timer is freed or kept |
| `Timer.CountedIs` | platform/aarch64/timer/timer.c:164 | nr_timers counts the timers started, modulo 2^32 |
| `TimerHeap.OtherTimer` | src/libc/miniheap.c:29-124 | a timer in the heap outlives, all 14 words untouched, every allocation, free and store that is not about it |
| `TimerHeap.AddLinked` | include/list/list.h:23-36 | the four pointer writes of list_add into heap words put the timer first in the list and change no other field |
| `TimerHeap.DeleteLinked` | include/list/list.h:43-54 | those of list_del take it out of the list, and change no field but links |
| `TimerHeapRound.CreateTimer` | platform/aarch64/timer/timer.c:119-149 | NULL exactly when no free block is big enough for a timer, and then nothing changes; else a new live block whose words are the interval, the periodic bit, the callback and the argument asked for, NULL as private, links to itself, inactive, and every other timer untouched |
| `TimerHeapRound.Callback` | platform/aarch64/timer/timer.c:62 | timers created and started by a callback are linked in front, active and with the interval, callback and argument asked for, as far as there was memory for them; no other timer changes but in its links |
| `TimerHeapRound.FreedIsReused` | platform/aarch64/timer/timer.c:65 | a timer freed below every free block gives its memory to the next timer created |
| `TimerHeapRound.Visit` | platform/aarch64/timer/timer.c:54-66 | one round, by the words of the timer: called back exactly if bit 1 of the flags is set and the callback is not NULL; unlinked and freed exactly if bit 1 is set and bit 0 is not; live pointers, links and fields of all others afterwards |
| `TimerHeapIrq.TimerIrq` | platform/aarch64/timer/timer.c:41-74 | the walk, reading its links from memory that it gives back, ends; of the timers linked at entry it calls back exactly those with bit 1 of the flags and a callback, frees exactly those with bit 1 and not bit 0, in order, and keeps exactly the others linked in order behind those started, their fields untouched; those started have the fields that were asked for; what is live afterwards is what was, less those freed, and those started, of which none is visited even where it reuses freed memory |
| `Numerals.DigitsRoundTrip` | src/libc/printf.c:34-36 | in every base from 2 to 16 the digits of a number parse back to it |
| `Numerals.DigitAt` | src/libc/printf.c:34-36 | the digit at each place is the character for the quotient at that place modulo the base, and there are no more digits than needed |
| `Numerals.NoLeadingZero` | src/libc/printf.c:34-36 | only zero starts with a zero, and is one digit |
| `Numerals.WordDigitsFit` | src/libc/printf.c:21-23 | a 64-bit value has at most 64 digits, which is what the buffer is made for |
| `Print.Negate` | src/libc/printf.c:27-32 | the magnitude of every value, INT64_MIN included, without overflow |
| `Print.WriteDigits` | src/libc/printf.c:34-36 | the digits end up before the last byte, which survives, with at least 7 bytes to spare |
| `Print.Strlen` | src/libc/string.c:65-72 | the length up to the terminator |
| `Print.Console.Puts` | src/libc/console.c:106-114 | the text up to the terminator, and no newline |
| `Print.Console.Pad` | src/libc/printf.c:48-52 | one character for each place that is missing, none if none is |
| `Print.Console.Print64` | src/libc/printf.c:19-60 | for every value, base, width and option the output is minus sign, "0x" and digits, on the right of spaces or zeros for a positive width, on the left of spaces for a negative one |
| `NumberText.PaddedIs` | src/libc/printf.c:46-59 | where the text stands in the output, and what is beside it |
| `NumberText.PaddedLength` | src/libc/printf.c:46-59 | the output is as long as the text or the width, whichever is longer |
| `NumberText.ReadsBackExactly` | src/libc/printf.c:19-60 | a reader gets the value back from the padded output, exactly unless zeros come before a sign or prefix (from vprintf, a sign) |
| `Vprintf.FetchDigit` | src/libc/printf.c:67-84 | sign, zero flag, value and end of a width, or the overflow of its intermediate sum |
| `FormatTexts.WidthRoundTrip` | src/libc/printf.c:67-84 | fetch_digit inverts decimal printing of every width, exactly up to INT_MAX - 48 |
| `FormatTexts.ParseRoundTrip` | src/libc/printf.c:86-156 | every list of literals and directives, written down as a format, is parsed back |
| `Formats.RenderConcat` | src/libc/printf.c:92-153 | what items print is the concatenation of what each prints, each taking the next argument |
| `Formats.MeaningStep` | src/libc/printf.c:92-153 | a format prints its first item and then the rest with the arguments left |
| `FormatTexts.FormatPrints` | src/libc/printf.c:86-156 | a format made from items prints those items |
| `Directives.NumberPrinted` | src/libc/printf.c:98-125 | for every width, flag and value: `%d` and `%ld` print signed decimal, `%u` and `%lu` unsigned decimal, `%x` and `%lx` hexadecimal, `%p` hexadecimal after "0x" and never with zeros, each at its place in its field |
| `Directives.NumberReadsBack` | src/libc/printf.c:98-125 | each reads back in its base and signedness, exactly unless zeros come before a minus sign |
| `Directives.CharactersPrinted` | src/libc/printf.c:133-149 | `%c` prints its character, `%s` its string or "(null)", `%%` a percent, and an unknown directive itself, at any width |
| `Directives.PlainTextPrinted` | src/libc/printf.c:150-152 | text without a percent is printed as it is |
| `FormatParts.FormatConcat` | src/libc/printf.c:92-153 | a format put together from two prints what the first prints for the arguments it takes, then what the second prints for the rest |
| `Formats.DoneExactly` | src/libc/printf.c:93-153 | the run over a format ends well exactly when the format has a meaning with these arguments |
| `Formats.StepsPastExactly` | src/libc/printf.c:93-151 | it steps past the terminator exactly when printing gets to a directive that the terminator cuts short |
| `FormatTexts.CutShortStepsPast` | src/libc/printf.c:93-151 | so does every format that goes on from printable items to a `%`, `%l` or `%L` at its end |
| `FormatTexts.PrintedReadsBack` | src/libc/printf.c:117-118 | a 64-bit integer printed with `%ld` at any width reads back, exactly unless zeros come before its sign |
| `Vprintf.DoDirective` | src/libc/printf.c:94-151 | a directive prints its denotation and takes its argument; it steps past the terminator exactly when that cuts it short, overflows exactly when its width does, and stops exactly when its argument is missing or of another type |
| `Vprintf.Vprintf` | src/libc/printf.c:86-156 | done exactly when the format is complete and its arguments fit; then the output is what the format means; else which of the three failures comes first |
| `Bits.InsertBit` | platform/aarch64/driver/gic/common/intr/spi.c:119-120 | clearing a shifted mask and or-ing a shifted value changes exactly the bits of that field |
| `Bits.FieldInserted` | platform/aarch64/driver/gic/common/intr/spi.c:119-120 | the field then reads as the value |
| `Bits.FieldBeside` | platform/aarch64/driver/gic/common/intr/spi.c:119-120 | and the fields beside it read as before |
| `Gic.PriorityWrite` | platform/aarch64/driver/gic/common/intr/spi.c:115-122 | a priority write changes the priority of that INTID alone, of all 1024 |
| `Gic.TriggerWrite` | platform/aarch64/driver/gic/common/intr/spi.c:55-62 | a trigger write changes the 2-bit field of that INTID alone |
| `Gic.BitWrite` | platform/aarch64/driver/gic/common/intr/spi.c:28-36 | an enable or group write changes the bit of that INTID alone |
| `Gic.TriggerBits` | platform/aarch64/driver/gic/common/intr/spi.c:55-62 | the high bit of a trigger field says edge, and the low one is clear |
| `Gic.ViewDeterminesRegs` | platform/aarch64/driver/gic/common/private/gicd_regs.h:43-65 | registers that agree as a map from INTID to settings agree in every bit |
| `GicCode.Gicd.SetClearSpi` | platform/aarch64/driver/gic/common/intr/spi.c:15-39 | sets or clears bit intid % 32 of word intid / 32, and with it that interrupt alone, by one write, or -EINVAL and no write |
| `GicCode.Gicd.SpiSetTrigger` | platform/aarch64/driver/gic/common/intr/spi.c:41-65 | the high bit of its 2-bit field says edge, and no other interrupt changes, by one write, or -EINVAL and no write |
| `GicCode.Gicd.SpiSetPriority` | platform/aarch64/driver/gic/common/intr/spi.c:101-125 | sets the byte of that interrupt alone by one write, or -EINVAL and no write |
| `GicCode.Gicd.SpiSetSecurity` | platform/aarch64/driver/gic/common/intr/spi.c:127-166 | sets the group bit, or for group 0 the modifier bit alone |
| `GicCode.Gicd.DoAll` | platform/aarch64/driver/gic/common/intr/spi.c:15-166 | after any operations the registers, seen as a map, are what the same operations make of a plain map |
| `GicCode.Gicd.GicIrqEnable` | platform/aarch64/driver/gic/common/gicv3.c:79-106 | five writes, the interrupt disabled after each but the last, its bits and byte in the registers then those asked for, no other INTID touched by any; -22 and no write for an INTID outside 32 to 1019 |
| `MemCopy.MemcpyCode` | src/libc/string.c:4-20 | the word loop and byte tail on one memory are the steps of `Memcpy`, and with safe regions the plain copy |
| `MemCopy.MemcpyMoves` | src/libc/string.c:4-20 | with disjoint regions, the destination at or below the source, or one word, the result is the plain copy and nothing else changes |
| `MemCopy.MemcpyExactly` | src/libc/string.c:4-20 | every memory is copied right exactly in those cases |
| `MemCopy.MemsetCode` | src/libc/string.c:23-41 | the words and the tail fill exactly those bytes with the low byte of the value |

## Left out

- `platform/aarch64/vcpu/vcpu.c`: it is not built, and its queue test never succeeds.
- Weak memory ordering, barriers, `wfe`/`sevl` and liveness: steps are sequentially consistent, and the results are about safety.
- `arch_spin_is_contended`: it subtracts after promotion to int, so it is not exact across a wrap.
- Atomics.EveryRunIsSequential: an addition that overflows a signed int is undefined in C; here it wraps, as the machine does.
- HeapCode.MiniHeap.Init: the base is not NULL and base plus size stays below 2^64. Memory is in 32-bit words, so a program's store into a payload is a whole word.
- HeapCode.MiniHeap.Free: a pointer that is not live but whose header happens to be marked used (a forged header) is not modelled, because the code then links whatever that header says. Nor are pointers outside the heap or off its 16-byte grid, for which the code reads a header from memory that is not the heap's.
- Timer.Manager.TimerIrq: callbacks start fresh timers and do nothing else to the list; one that stops or frees another timer would invalidate the pointer the loop has read ahead. Nodes are objects here, and allocation succeeds; `TimerHeapIrq.TimerIrq` has addresses, reuse and failing allocation.
- TimerHeapIrq.TimerIrq: callbacks do the same and nothing else, on the heap and the list as values that each step replaces. `nr_timers` is left to the version on objects, and `expired_tick` is never set by the code.
- Timer.Manager.StartTimer: the timer is on no list; starting one that is already linked breaks the list. A NULL manager, which stands for that of the CPU, is not modelled.
- `nr_timers` as the length of the list: it is never decremented. Intervals and ticks: the handler fires every active timer on every interrupt.
- Vprintf.Vprintf: arguments of the wrong type or missing are undefined in C; the model stops there. `%c` takes a character, not the low byte of an int. Output is the characters written, not the devices.
- Print.Console.Print64: a width of INT_MIN, whose negation overflows, cannot come from `fetch_digit` and is not modelled.
- GicCode.Gicd.GicIrqEnable: the interrupt is given by its fields, so -ENOENT for a NULL context is not modelled; nor are the panic without a register base and the poll for pending writes.
- `gicd_init`, `gicr_init`, routing, and the SGI and PPI operations, which pack in the same way.
- MemCopy.MemsetCode: the replicated word is a sum of shifted bytes, which is what `|` makes of disjoint bits.
- `strcmp`, `strstr` and the copying string functions, `console.c` beyond its output, device drivers, exception vectors and start-up code.
