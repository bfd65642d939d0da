# Memory managers and containers of the USB/IP server

This project models the hand-written memory managers and containers of an embedded USB/IP server and
proves what their callers rely on. Addresses are natural numbers, memory is one array of bytes, a
`size_t` or a pointer is eight bytes of it (LP64), and address 0 is NULL.

| file | models |
|---|---|
| `Memory.dfy` | bytes, words and `memcpy`; bit operations on words |
| `HeapChain.dfy`, `HeapEager.dfy`, `HeapFit.dfy` | the block list of `src/heap.c` as a value: what the calls do to it, the eager allocator it is compared with, the completeness of its search |
| `Heap.dfy`, `HeapRuns.dfy` | tags and rounding, the heap in memory with its nested loops, whole runs with client writes |
| `MemPool.dfy` | the pool of `src/mem_pool.c`, whose chain runs through the freed objects |
| `LinkedList.dfy`, `ListOverPool.dfy` | the list of `src/linked_list.c`, and the list whose nodes come from a pool |
| `RingBuffer.dfy`, `StreamFifo.dfy` | the byte queue of `src/queue.c` |
| `MsgFifo.dfy`, `MsgFifoRuns.dfy` | the message queue of `src/queue.c`: its steps and layout; what its client reads, damage, and whole runs |
| `Vhci.dfy`, `Decimal.dfy` | device numbering, bus ids and lookups of `src/usb/vhci.c` |

Calls that change memory are methods on classes with the fields of the C structures. Their contracts
tie the new state to a step function or to a sequence of blocks, nodes or items, and the lemmas prove
what those steps mean over one call and over whole runs.

Five properties hold only under a condition, which is stated and proved exact:

- A heap object holds the requested size unless the request is within one alignment of 2^64, where
  the round-up wraps to 0 (`HeapRuns.Granted`); such a request is served with at most 16 bytes
  (`HeapRuns.HugeRequestServed`).
- Heap results are multiples of the alignment if it divides the 16-byte header; otherwise the first
  allocation already is not (`HeapRuns.ResultsAligned`, `HeapRuns.FirstResultMisaligned`).
- The pool serves every client correctly if and only if bit 0 of a link is unambiguous: even pool
  address and object size, or one object, or two objects at an even address (`MemPool.PoolCorrectIff`).
- The byte queue appends an accepted message if and only if it fits, with one byte of slack once the
  head has moved; its guard looks at the used space (`StreamFifo.PushAppendsIff`). A run keeps all its
  bytes if and only if every accepted push fits (`StreamFifo.Conservation`), and two pushes to a fresh
  queue suffice to lose some (`StreamFifo.OverfullReached`).
- A run of the message queue returns what a queue of byte strings would, and the ring can be drained to
  that queue at any time, whatever the bytes of the messages, if and only if no accepted push damages
  (`MsgFifoRuns.RunsCorrectIff`). Whether a push damages can be read off the pointers and the length of
  the last message (`MsgFifo.Damages`). There are two ways. The new item meets the header of the first
  one: it wraps around behind a first item that is not behind the head, or it restarts at the front of
  the buffer and does not end before the first item. Or the head lies inside the last item: a restart
  leaves it 16 bytes too low. The restart itself does no harm if it is clear of the first item, and
  neither does the low head if that item is popped first (`MsgFifoRuns.AfterRestart`,
  `MsgFifo.StartIsBarrier`); but a push in between clears the last byte of the message
  (`MsgFifoRuns.DamageLast`). In `MsgFifoRuns.OverrunReached` the fifth call damages.

The comment at `src/queue.c:209` and the guard below it disagree, and so do the comments at
`src/queue.c:69-76` and `src/queue.c:87-92` and their guards; the model follows the code.

## Model

| member | source | states |
|---|---|---|
| HeapWords.TagRoundTrip | src/heap.c:10-14 | for every even address the tag in bit 0 can be set, seen and cleared again, and clearing returns the address |
| HeapWords.MaskIsBits | src/heap.c:5-8 | for every alignment the test asks that no bit of the alignment less one is set in the address |
| HeapWords.MaskIsRemainder | src/heap.c:5-8 | for power-of-two alignments the mask test agrees with the remainder |
| HeapWords.RoundIsLeastMultiple | src/heap.c:44-46 | the rounded size is the least multiple of the alignment not below the request, except that requests within one alignment of 2^64 wrap to 0 |
| HeapChain.AbsorbTiles | src/heap.c:52-57 | merging keeps the tiling of the pool and every live block |
| HeapChain.AllocTiles | src/heap.c:48-86 | an allocation keeps the tiling and every live block; a new live block appears only at the returned address |
| HeapChain.AllocGrant | src/heap.c:60-80 | the block handed out has at least the rounded size, at most 16 bytes more, and overlaps no live block or header |
| HeapChain.FreeTiles | src/heap.c:97-106 | a free keeps the tiling and removes exactly the freed object from the live ones |
| HeapChain.AllocMultiple | src/heap.c:60-79 | splits happen at multiples of every divisor of the header and the rounded size |
| HeapEager.NormSound | src/heap.c:52-57 | merging all free neighbours tiles the same pool with the same live blocks and leaves no two free neighbours |
| HeapEager.NormUnique | src/heap.c:52-57 | a chain without free neighbours is determined by the pool it tiles and its live blocks |
| HeapEager.NormAlloc | src/heap.c:48-86 | an allocation commutes with merging: same address or failure as first fit on the merged chain, same merged result |
| HeapEager.NormFree | src/heap.c:97-106 | a free, which merges one successor, equals after merging a free that joins both neighbours at once |
| HeapEager.EagerFreeSound | src/heap.c:97-106 | the eager free leaves no free neighbours and removes exactly the freed object |
| HeapFit.FirstFitComplete | src/heap.c:48-86 | an allocation fails exactly when no maximal run of free blocks offers the rounded size, and otherwise takes the lowest-addressed run that does |
| HeapFit.AllocExact | src/heap.c:48-86 | all blocks after an allocation: a failure merges every free run; a success merges the runs in front of the first one that fits, takes the rounded size from it and leaves the rest as a free block if more than a header remains, or takes it whole, and leaves what lies behind alone |
| HeapFit.AllFreeServesAll | src/heap.c:48-86 | with nothing live, every rounded size up to the pool less one header is served from the front |
| HeapMemory.Heap.Init | src/heap.c:16-34 | rejects NULL, alignments below 2 and pools that fail the mask test; otherwise the fields and the header of the first block, its size in `size_t` arithmetic; for powers of two and pools of at least 16 bytes that is one free block covering the pool |
| HeapMemory.Heap.Alloc | src/heap.c:36-87 | the nested loops over the headers in memory compute the first-fit step, keep the invariant, and touch no live payload and nothing outside the pool |
| HeapMemory.Heap.Search | src/heap.c:48-83 | the outer loop stops at the first block that fits after merging, or at the end, having done exactly the merges of the step function |
| HeapMemory.Heap.AbsorbAt | src/heap.c:52-57 | the inner loop leaves the front block merged with all free blocks behind it |
| HeapMemory.Heap.Take | src/heap.c:60-79 | the chosen block is split if a header and a byte remain, tagged, and its links stay consistent |
| HeapMemory.Heap.Free | src/heap.c:89-107 | untags the object, merges one free successor, keeps the invariant and every payload |
| HeapMemory.FindLive | src/heap.c:97-99 | the header 16 bytes before a live object is its block |
| HeapRuns.Execute | src/heap.c:16-107 | every client that frees and writes only its own objects can run on the heap in memory, and what happens is a run in the sense of the following lemmas |
| HeapRuns.InvariantAt | src/heap.c:16-107 | every state of every run, with client writes, satisfies the invariant |
| HeapRuns.PoolExactlyTiled | src/heap.c:53-77 | in every run the headers in memory form a chain from the pool start whose untagged links are the block ends; sizes and headers add up to the pool |
| HeapRuns.LiveObjectsApart | src/heap.c:60-80 | live payloads lie in the pool and apart from each other and from every header |
| HeapRuns.NonInterference | src/heap.c:53-106 | while its owner neither frees nor writes it, a live object keeps its place, its size and every byte over any stretch of a run |
| HeapRuns.Granted | src/heap.c:44-80 | what a successful call grants: the front of the first maximal free run that fits, with just the rounded size if more than a header remains and the whole run otherwise; it holds the requested size exactly when rounding does not wrap |
| HeapRuns.HugeRequestServed | src/heap.c:44-80 | a fresh heap serves a request within one alignment of 2^64, with at most 16 bytes |
| HeapRuns.Freed | src/heap.c:97-106 | all blocks after a free: the one of the object is free, joined with its successor if that is free, but not with its predecessor; the others stay |
| HeapRuns.FailsOnlyWhenFull | src/heap.c:50-86 | completeness of the search for every call of every run |
| HeapRuns.NoPermanentFragmentation | src/heap.c:50-106 | after any run that freed everything, in any order, the whole pool less one header is available at its start |
| HeapRuns.ResultsAligned | src/heap.c:60-79 | every result of every run is a multiple of an alignment that divides the header |
| HeapRuns.FirstResultMisaligned | src/heap.c:79 | with any other alignment the first result of a fresh heap is misaligned |
| HeapRuns.DeferredCoalescingInvisible | src/heap.c:48-106 | every run returns, call by call, what the eagerly coalescing allocator returns, and the heaps agree up to merging |
| MemPool.Conservation | src/mem_pool.c:15-37 | freed, live and never used blocks add up to the pool |
| MemPool.AllocServesFree | src/mem_pool.c:40-71 | the allocator fails exactly when all blocks are live, and never returns a live block |
| MemPool.FreeReturnsBlock | src/mem_pool.c:73-80 | a free removes exactly its block from the live ones |
| MemPool.LastFreedFirst | src/mem_pool.c:56-79 | the block freed last is handed out first, and then the pool is as before |
| MemPool.AllocRefines | src/mem_pool.c:40-71 | an allocation in memory pops the latest freed block or advances the frontier, and keeps the chain |
| MemPool.FreeRefines | src/mem_pool.c:73-80 | a free in memory pushes the block on the chain |
| MemPool.WriteRefines | src/mem_pool.c:40-80 | client writes into live blocks do not disturb the chain |
| MemPool.PoolRefinesStack | src/mem_pool.c:29-80 | every run returns the addresses and failures of a stack of freed blocks over an ascending counter |
| MemPool.AmbiguousPoolFails | src/mem_pool.c:53-68 | every other pool has a legal run with a wrong result |
| MemPool.PoolCorrectIff | src/mem_pool.c:29-80 | all runs are right if and only if bit 0 is unambiguous |
| MemPool.StepFrame | src/mem_pool.c:56-79 | no call writes to a live block or outside the pool |
| MemPool.Pool.Init | src/mem_pool.c:5-38 | the object size is at least a pointer, the pool a whole number of objects, and at least one, or the call fails |
| MemPool.Pool.Alloc | src/mem_pool.c:40-71 | the allocation step in memory, in every pool; in an unambiguous one the new chain, the frontier mark and the returned address of the simple allocator |
| MemPool.Pool.Free | src/mem_pool.c:73-80 | the free step in memory, in every pool; in an unambiguous one the new chain of the simple allocator |
| LinkedList.List.constructor | src/linked_list.c:6-21 | an empty list |
| LinkedList.List.Push | src/linked_list.c:23-53 | appends the element, or fails and changes nothing when the allocator does; writes only to nodes |
| LinkedList.List.Find | src/linked_list.c:55-91 | returns node i, or NULL, following pointers from the nearer end, at most (size - 1) / 2 of them |
| LinkedList.List.Get | src/linked_list.c:93-103 | element i, or NULL |
| LinkedList.List.Rem | src/linked_list.c:105-147 | deletes element i and returns its data and node; also for the sole element, where `first` is left behind |
| LinkedList.List.Iter | src/linked_list.c:149-181 | for callbacks that remove the element with their index for any set of indices, as `client_stop` does, and an allocator that writes anything into each freed node: the calls and the remaining list are those of the reference walk; a freed node is read exactly when the sole element removes itself |
| LinkedList.List.Visit | src/linked_list.c:153-180 | one round of the iteration, with or without a removal, wherever the cursor stands |
| LinkedList.List.RemoveAt | src/linked_list.c:158-170 | where the three ways back lead after a removal: to the element behind the removed one, or, after earlier removals, to element 1 or to the current element again |
| LinkedList.IterAll | src/linked_list.c:153-156 | without removals every element is visited in order with its index |
| LinkedList.IterOne | src/linked_list.c:149-181 | with one self-removal every call still gets the element and index it had at the start, and all are visited but possibly the last |
| LinkedList.WalkNext | src/linked_list.c:149-181 | the next two calls from any point of an iteration: the next element; behind a removed own element; the same element again after a removal elsewhere, except for index 1; and when it ends |
| LinkedList.SecondRemovalMisses | src/linked_list.c:158-170 | a second self-removal deletes the element behind its own; the next call gets its element again and later ones the element with their index, or, after removals by the first two, run one ahead |
| LinkedList.ChainsMirror | src/linked_list.c:33-49 | following `next` from `first` and `prev` from `last` reaches all elements in opposite orders, and then NULL |
| LinkedList.Unlinked | src/linked_list.c:111-137 | the four link writes of a removal leave the other nodes linked, in order, with their data |
| LinkedList.Pushed | src/linked_list.c:40-49 | the link writes of a push leave all nodes linked, in order, with their data |
| ListOverPool.PooledList.Push | src/usbip.c:45-57 | fails exactly when the list has as many elements as the pool has objects, otherwise appends |
| ListOverPool.PooledList.Rem | src/usbip.c:45-57 | deletes element i and gives its node back to the pool |
| ListOverPool.SizeIsLiveCount | src/usbip.c:45-57 | the nodes of the list are as many as the live blocks of the pool |
| ListOverPool.TopIsFresh | src/usbip.c:51-52 | the block the pool hands out meets no node of the list, and the live blocks stay exactly the nodes |
| ListOverPool.FreeMatches | src/usbip.c:53 | after a removal the live blocks are exactly the remaining nodes |
| ListOverPool.PoolSpared | src/linked_list.c:23-53 | writing list nodes leaves the chain of the pool intact |
| StreamFifo.LengthOfContents | src/queue.c:236-245 | the reported length is the number of bytes held |
| StreamFifo.PushStaysInside | src/queue.c:195-234 | no accepted push writes outside the buffer or moves the tail out of it |
| StreamFifo.PushAppendsIff | src/queue.c:195-234 | an accepted push appends exactly its bytes if and only if they fit |
| StreamFifo.FittingPushRefused | src/queue.c:197-213 | a message that fits is refused exactly when the contents do not wrap and are shorter than it |
| StreamFifo.PushVerdict | src/queue.c:197-213 | for every state and length, from the bytes held and whether they wrap around, whether a push is accepted; a refused one changes nothing |
| StreamFifo.PushWrites | src/queue.c:215-231 | every byte of memory after an accepted push, fitting or not |
| StreamFifo.PopTakesPrefix | src/queue.c:247-277 | a pop returns the oldest bytes, as many as there are and fit, and leaves the rest |
| StreamFifo.Conservation | src/queue.c:195-277 | over a run, bytes popped followed by bytes held are the bytes held before followed by the bytes accepted, if and only if every accepted push fits |
| StreamFifo.PointersOfTotals | src/queue.c:195-277 | after any run from a fresh ring the totals of bytes popped and accepted determine both pointers, the end of the buffer included, and which push is accepted next |
| StreamFifo.OverfullReached | src/queue.c:197-213 | two pushes of 10 bytes are accepted by a fresh ring of 17, which then holds 3 bytes |
| StreamFifo.GuardFitsIff | src/queue.c:197-207 | the `int` computed by the guard of a push fits in every state if and only if the buffer has at most 2^30 bytes |
| StreamFifo.OverflowReached | src/queue.c:197-207 | in a larger buffer three calls reach a state whose guard overflows |
| StreamFifo.Fifo.Init | src/queue.c:173-193 | rejects NULL and buffers below 17 bytes, otherwise empty |
| StreamFifo.Fifo.PushBytes | src/queue.c:195-234 | the step function of a push, in memory |
| StreamFifo.Fifo.BytesHeld | src/queue.c:236-245 | the number of bytes held |
| StreamFifo.Fifo.PopBytes | src/queue.c:247-277 | the step function of a pop, in memory |
| MsgFifo.PushStaysInside | src/queue.c:52-135 | no push, even one that damages, writes outside the buffer or moves a pointer out of it |
| MsgFifo.NewPosFits | src/queue.c:63-120 | an accepted push that does not damage goes right behind the last item, or to the front where no header fits, and ends before the first |
| MsgFifo.StartIsBarrier | src/queue.c:72-109 | while the first message is at the start of the buffer every push is refused |
| MsgFifo.AcceptedIff | src/queue.c:60-114 | in any state, by the gap from the head around the ring to the first item, which lengths are accepted |
| MsgFifo.RefusedPush | src/queue.c:67-78 | a refused push moves the head to the start exactly if the message reaches the end of the buffer where no header fits; otherwise it changes nothing |
| MsgFifo.AcceptedPush | src/queue.c:63-132 | the three pointers after any accepted push, damaging or not |
| MsgFifo.FittingPushRefused | src/queue.c:72-109 | a message that has room behind the last item is refused exactly if it would end before the end of the buffer in the round of the first item, or fill the ring to the last byte without a restart |
| MsgFifo.PushRefines | src/queue.c:52-135 | a push that does not damage appends exactly its message, or is refused and changes no message |
| MsgFifo.AfterRefusal | src/queue.c:67-119 | after a refusal that moved the head to the start the next push that does not damage leaves the head right behind its item |
| MsgFifoRuns.PushKeepsIff | src/queue.c:52-135 | from a queue of messages that end in a nonzero byte: for all messages of a length the ring drains to the old messages and, if accepted, the new one, if and only if the push does not damage |
| MsgFifoRuns.DamageFirst | src/queue.c:72-104 | a push that meets the header of the first item loses messages for one of two contents of its length |
| MsgFifoRuns.DamageLast | src/queue.c:83-119 | a push behind a restart clears the last byte of the item there, whatever it contains |
| MsgFifoRuns.AfterRestart | src/queue.c:67-84 | a restart clear of the first item keeps every message; afterwards every accepted push damages |
| MsgFifoRuns.PushLays | src/queue.c:43-132 | header, link and payload of the new item in memory after any accepted push behind other items |
| MsgFifoRuns.PushFrame | src/queue.c:43-132 | an accepted push changes no other bytes than its item and the link to it |
| MsgFifoRuns.OverrunReached | src/queue.c:88-104 | the state after four calls on a fresh ring of 64 bytes drains to two messages, its guards let 42 bytes in where 14 are free, and after that no pop returns the older message, whatever the bytes |
| MsgFifo.PopRefines | src/queue.c:137-171 | a pop with enough room returns the oldest message byte for byte and removes it, otherwise changes nothing |
| MsgFifo.PopKeeps | src/queue.c:137-171 | a pop in any state moves nothing but `first` |
| MsgFifo.FirstRead | src/queue.c:149-165 | a message is read whole, split or not |
| MsgFifoRuns.FifoRefinesQueue | src/queue.c:52-171 | every run without damage is a run of a queue of byte strings, result by result, and drains to it at any time |
| MsgFifoRuns.ShapeDecides | src/queue.c:52-171 | whether a run damages depends on the lengths of its messages alone |
| MsgFifoRuns.RunsCorrectIff | src/queue.c:52-171 | a run never damages if and only if all runs with messages of the same lengths are runs of a queue of byte strings |
| MsgFifoRuns.RoundTrip | src/queue.c:54-170 | wherever the head of an empty queue is, a message that fits is accepted, survives a pop without room, and comes back unchanged |
| MsgFifo.Fifo.Init | src/queue.c:19-41 | rejects NULL and buffers below 17 bytes, otherwise empty |
| MsgFifo.Fifo.AddNewItem | src/queue.c:43-50 | the header at the head |
| MsgFifo.Fifo.PushMessage | src/queue.c:52-135 | the step function of a push, in memory, and the returned length |
| MsgFifo.Fifo.PopMessage | src/queue.c:137-171 | the step function of a pop, and the bytes copied out |
| Decimal.PairSpells | src/usb/vhci.c:380 | a printed pair is the first number, one dash and the second number, in decimal without leading zeros |
| Decimal.PairInstances | src/usb/vhci.c:380 | two such texts, digit by digit |
| Decimal.PaddedFills | src/usb/vhci.c:379 | a number of the path: its sign, its value, and zeros only to fill three characters |
| Decimal.PairInjective | src/usb/vhci.c:380 | different number pairs are printed differently |
| Decimal.PairLength | src/usb/vhci.c:380 | a printed pair has at most 16 characters |
| Decimal.SamePrefixIsEqual | src/usb/vhci.c:420 | comparing 32 characters with a bus id is comparing the whole texts |
| Vhci.NumbersOfAttempt | src/usb/vhci.c:353-380 | attempt k gets bus k / 65535 (32 bits) and device k mod 65535, whatever attempts failed for memory, and the device keeps them until it is registered again |
| Vhci.SameNumbers | src/usb/vhci.c:353-361 | two attempts share numbers exactly when a multiple of 65535 * 2^32 lies between them |
| Vhci.TextsOfDevice | src/usb/vhci.c:379-380 | the bus id and the path of a registered device after any run spell the numbers of the attempt that registered it last, bus before device |
| Vhci.PathSpells | src/usb/vhci.c:379 | a path is its directory, the bus number as an `int`, a slash and the device number, and is never cut off |
| Vhci.ScanFinds | src/usb/vhci.c:415-457 | a scan that keeps the last match finds the last registered device that the test accepts |
| Vhci.RegisteredIsFound | src/usb/vhci.c:345-469 | both lookups return exactly the registered device if and only if its numbers were not given out again; so always within 65535 * 2^32 attempts |
| Vhci.UnregisteredIsMissing | src/usb/vhci.c:428-469 | the lookups return nothing exactly when no attempt with these numbers, or this text, succeeded |
| Vhci.LookupsAfterAnyRun | src/usb/vhci.c:345-469 | what both lookups return after any run: devices that are attempted again answer to the numbers of their latest attempt and to the bus id of their latest successful one |
| Vhci.FailedAgain | src/usb/vhci.c:353-380 | a registered device whose latest attempt failed has the new numbers and the old bus id, which agree only at multiples of 65535 * 2^32 |
| Vhci.Handle.constructor | src/usb/vhci.c:66-85 | no devices, counters at zero |
| Vhci.Handle.RegisterDev | src/usb/vhci.c:345-383 | the new counters, device fields with bus id and path, list and return value, also when either allocation fails |
| Vhci.Handle.LookupNumbers | src/usb/vhci.c:446-469 | the last device in the list with these numbers |
| Vhci.Handle.LookupBusid | src/usb/vhci.c:415-437 | the last device in the list with this bus id |

## Left out

- HeapMemory.Heap.Init: asks for 16 bytes of memory at the pool, which the code writes in any case; a working heap is promised for powers of two and pools that hold a header, as `src/heap.h:26` asks.
- MemPool.Pool.Free: asks for the address of a block of the pool.
- StreamFifo.Fifo.PushBytes: asks for a buffer up to 2^30 bytes, beyond which its `int` variable can overflow (`StreamFifo.GuardFitsIff`).
- StreamFifo.Fifo.PopBytes: like the length, asks for a buffer below 2^31 bytes, for the same reason.
- MsgFifo.Fifo.PushMessage: does not model the overflow of `msg_len + 16`, which no message that fits into memory reaches.
- MsgFifoRuns.RunsCorrectIff: is about pushes of at least one byte, since 0 is also the return value of a refused push; `MsgFifoRuns.FifoRefinesQueue` has no such restriction.
- MsgFifoRuns.PushKeepsIff: asks for messages in the queue that end in a nonzero byte, because damage can write the byte that was there; over whole runs, where all contents are considered, nothing of the kind is needed.
- LinkedList.List.Iter: a removing callback removes the element with its index and returns -1; other removals inside a callback are not covered.
- LinkedList.List.Push: the allocator is a parameter, a fresh node or NULL; `ListOverPool` supplies the pool.
- Vhci.Handle.RegisterDev: the list is a sequence and the results of the two allocations are parameters.
- Vhci.RegisteredIsFound: like `Vhci.UnregisteredIsMissing`, covers runs that do not attempt a device again after a success; `Vhci.LookupsAfterAnyRun` covers all runs.
- `errno`, debug output, NULL handles and concurrency.
- `stream_fifo_send_sock`, sockets, request dispatch and `src/main.c`.
- `INIT_MEM_POOL`, which sets a count where a byte size is expected and leaves out the first mark; pools come from `init_mem_pool`.
- The pool-backed allocators of `src/usb/vhci.c:19-57`, which call a function that does not exist.
- Descriptors, URBs, `src/usb/dev.c` and `src/conv.c`.
