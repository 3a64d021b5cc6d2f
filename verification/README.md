# Verified models of the Frog runtime

Frog is an actor-style runtime in C: services with mailboxes, event loops with timers, and wire codecs.
This project models its dense components in Dafny and proves what they are for. It is one Dafny project:
`dafny verify dfyconfig.toml` checks all of it.

| part | files |
|---|---|
| red-black tree of `rbtree_t.h` | `RbShape`, `RbRules`, `RbTree` |
| pointer heap of `heap_t.h` and the timers in it | `HeapShape`, `TimerHeap`, `TimerRun`, `TimerDeadlines`, `EventTimers`, `TimerLife` |
| mailbox of a service, intrusive lists | `Mailbox`, `MailboxSends`, `QueueLinks` |
| locks | `RwSpinLock`, `RwSpinLockProgress`, `McsLock`, `ClhLock` |
| byte ring, scatter receive | `ByteRing`, `ByteQueue`, `ByteFifo`, `EventConnection` |
| tpack framing | `Tpack`, `TpackFrames`, `TpackFormat`, `TpackReassembly`, `TpackTokens`, `TpackCodec`, `TpackEncoder`, `Ltpack`, `TpackConversation` |
| MessagePack | `Msgpack`, `MsgpackRoundTrip`, `MsgpackFormats`, `MsgpackTruncated`, `MsgpackCodec`, `Lmsgpack` |
| channel handles | `ChannelTable`, `ChannelSlots`, `ChannelCenter` |
| used by several | `Options` |

How the models are made:

* Sequential code that changes memory is a class with the same fields and methods with the same steps.
  `RbTree` and `TimerHeap` work on real pointer nodes. A ghost snapshot of the links (`mem`) is what the
  lemmas speak about; every write to a link also updates it, and `Valid()` says that it is true. A tree
  with a hole is a zipper (`Ctx`), so an update deep in the tree is a change of the focus. Code that the C
  macros write twice, once for each side, is written once with the side as a parameter.
* Concurrent code is a state machine. Every compare-and-swap, fetch-and-add, exchange, load, store to a
  shared node and section under a lock is one step of one thread; a run is any list of steps of any
  threads, so a statement about `Run(Init(n), acts)` is about every interleaving of any number of threads.
  Memory is sequentially consistent.
* Codecs are functions on byte sequences with their theorems (round trips, independence of chunking), and
  methods on buffers proved equal to the functions. A byte is an `int` from 0 to 255; shifts and masks are
  written as divisions and remainders.
* Integers are unbounded unless the width matters: int64 values and two's complement in MessagePack, the
  sequence and index fields of a channel ID, the two low bits of the spin lock, the `int32_t` that
  `eventIO_nextTimeout` returns. Sizes, `nelts`, counters and reference counts do not overflow. Allocation
  succeeds.

Six facts about the code came out of the proofs:

* `byteQueue_writeChar` stores past its buffer exactly when the write index is at the end and something has
  been read; an exact `byteQueue_reserve` leads there (`ByteQueue.ByteQueue.WriteChar`,
  `ByteFifo.EdgeIsReachable`).
* `tpack_encodeVec` reads one buffer too many exactly when the total is a non-zero multiple of 0xffff and the
  vector does not end with an empty buffer; one buffer of 0xffff bytes is enough (`TpackEncoder.EncodeVec`,
  `TpackEncoder.FullBuffer`).
* `tpack_encode` writes outside the buffers that it allocates exactly when it makes several fragments and the flag
  carries a token, or the last fragment has 1 to 0xfe bytes (`TpackEncoder.Encode`, `TpackEncoder.FirstShort`).
* A message with a token that is longer than one frame holds (0xffff bytes or more) comes back exactly if its
  token is 0 and every byte from number 0xffff on is 0; otherwise it is not delivered at all. Each fragment
  after the first repeats the token, and the decoder takes that for payload and ends the frame four bytes
  early; zeros hide the shift. The shortest lost message is a reply with token 1 and 0xffff bytes
  (`TpackTokens.ComesBackExactly`, `TpackTokens.Lost`, `TpackTokens.FirstLost`).
* `eventIO_nextTimeout` casts the remaining time to `int32_t`. What it returns is the time until a timer is due
  exactly if the least timeout is less than 2^31 ms ahead; 2^31 ms ahead it is negative, and 0xffffffff ms ahead
  it is -1, the value for no timer (`TimerRun.SleepsUntilDue`, `TimerRun.LongTimers`).
* `channelCenter_gain` and `channelCenter_deregister` look at slot -1 exactly for the IDs whose top bit is set
  and whose low 20 bits are zero, such as 0x80000000: the index is signed and only compared with the
  capacity. No issued ID is one of them (`ChannelTable.LookupInside`, `ChannelTable.MissedID`,
  `ChannelTable.RunInside`, `ChannelTable.IssuedIsInside`).

## Model

| member | source | states |
|---|---|---|
| RbTree.RbTree.Insert | src/core/include/rbtree_t.h:329-357 | from any valid red-black tree, inserting a fresh node gives a valid one (links, order, no red-red edge, equal black heights, black root) whose in-order sequence is the old one with the node at its place; an equal key changes nothing and the node that has it is returned |
| RbTree.RbTree.Remove | src/core/include/rbtree_t.h:265-326 | removing a member leaves a valid red-black tree whose in-order sequence is the old one without that node, and whose node set is the old one minus it |
| RbTree.RbTree.RotateLeft | src/core/include/rbtree_t.h:84-103 | a rotation rewrites exactly the links of the rotated subtree, wherever it hangs |
| RbTree.RbTree.InsertColor | src/core/include/rbtree_t.h:148-190 | the insertion fix-up ends in a red-black tree with the in-order sequence it was given, from any tree whose only flaw is one red node under a red one |
| RbTree.RbTree.RemoveColor | src/core/include/rbtree_t.h:191-263 | the removal fix-up ends in a red-black tree with the in-order sequence it was given, from any tree with one place short of one black node |
| RbTree.RbTree.Find | src/core/include/rbtree_t.h:360-374 | finds the node with the key, and null only if no node of the tree has it; a tree of n nodes takes at most 2 log2(n + 1) moves down |
| RbTree.RbTree.NFind | src/core/include/rbtree_t.h:377-394 | finds the node with the least key that is not below the given one, and null only if all keys are below |
| RbTree.RbTree.MinMax | src/core/include/rbtree_t.h:434-446 | the first or the last node of the sorted sequence |
| RbTree.RbTree.Next | src/core/include/rbtree_t.h:397-413 | the in-order successor of a member, through parent links |
| RbTree.RbTree.Prev | src/core/include/rbtree_t.h:416-431 | the in-order predecessor of a member |
| RbTree.RbTree.Drain | src/core/include/rbtree_t.h:466-468 | the safe iteration that removes every node as it goes visits each node once, in order, and leaves the empty tree: removal keeps the saved successor valid |
| RbRules.HeightBound | src/core/include/rbtree_t.h:148-326 | a red-black tree of n nodes is at most 2 log2(n + 1) high |
| TimerHeap.Heap.Insert | src/core/include/heap_t.h:102-143 | the new node goes to position nelts + 1 along the bit path and rises; complete shape, all links, heap order and exactly one more node |
| TimerHeap.Heap.FindPlace | src/core/include/heap_t.h:112-134 | the bit path of a position, followed from the top, ends at the link that holds that position of the complete tree |
| TimerHeap.Heap.SwapNode | src/core/include/heap_t.h:71-100 | swapping a node with its parent exchanges the two positions and leaves every other node where it was |
| TimerHeap.Heap.Remove | src/core/include/heap_t.h:145-228 | any member can be removed: the last node takes its place, sinks and rises; complete shape, all links, heap order and exactly one node less |
| TimerHeap.Heap.Dequeue | src/core/include/heap_t.h:230-233 | removes a node that no other is less than |
| TimerHeap.Heap.Min | src/core/include/heap_t.h:65-68 | null exactly for the empty heap, otherwise a node that no other is less than |
| Mailbox.NoLostWakeUp | src/service/source/service_t.c:248-307 | in every interleaving before STOP is dispatched, a non-empty pending queue means that the watcher is notified or running, or that some thread still has a notification ahead of it |
| Mailbox.QuietMeansDelivered | src/service/include/internal/service-inl.h:54-81 | when no thread has anything left to do and no node is posted, every inserted event was dispatched, in order, and the watcher waits in status 1 |
| Mailbox.ExclusiveDispatch | src/core/source/eventIO/posix/eventWatcher_t.c:7-108 | one runner exactly while the status is 3; one copy of the watcher's node posted or in flight exactly while it is 2; callbacks of one service never overlap |
| Mailbox.FifoConservation | src/service/source/service_t.c:265-292 | dispatched, then the batch in hand, then pending is the order of insertion; uiQueueSize is exactly the undispatched events and the counted ones about to be inserted, and never underflows |
| Mailbox.CanDeliver | src/service/source/service_t.c:358-409 | from every reachable state, letting the threads finish what they have begun dispatches every inserted event, or STOP: nothing can get stuck |
| Mailbox.StepKeepsInv | src/service/source/service_t.c:248-409 | every atomic operation of every thread keeps ownership of the watcher, conservation of events, and wakefulness |
| MailboxSends.InsertedIsSent | src/service/include/internal/service-inl.h:62-81 | in every run, the events inserted and those that callers are about to insert are, each as often, the events that callers handed in while the service was running |
| MailboxSends.QuietHasDispatchedAll | src/service/source/service_t.c:248-307 | a quiet system has dispatched exactly what was sent: each event as often as it was handed in |
| MailboxSends.OnlySentIsDispatched | src/service/source/service_t.c:282-292 | in every run no event is dispatched more often than it was sent |
| MailboxSends.StopsOnce | src/service/source/service_t.c:387-409 | STOP is sent once at most; the service takes events until it is, or its start fails; it stops exactly when it dispatches STOP, and that is the last event |
| MailboxSends.SentArrives | src/service/include/internal/service-inl.h:54-81 | from every reachable state, letting the threads finish what they have begun dispatches exactly what was sent, unless STOP comes first |
| MailboxSends.GivesWay | src/service/source/service_t.c:294-303 | after a batch, a worker goes on unless events remain and other services wait; then it resets the watcher and notifies it again, so that the node is posted |
| QueueLinks.Move | src/core/include/queue_t.h:65-73 | on real links, the new head has the whole list in order and the old head is empty |
| QueueLinks.Split | src/core/include/queue_t.h:55-63 | cuts the list in two at a node, both parts in order |
| QueueLinks.InsertTail | src/core/include/queue_t.h:83-89 | the list with the node at its end |
| QueueLinks.Remove | src/core/include/queue_t.h:91-95 | the list without the node at that position |
| QueueLinks.EmptyMeansNone | src/core/include/queue_t.h:37 | a head that points to itself is the head of the empty list, and only that |
| RwSpinLock.BitsCount | src/core/include/rwSpinLock_t.h:50-176 | iBits is four times the readers in it, confirmed or about to back off, plus U, plus W; with W clear, U is set exactly while there is an upgrader, although failed attempts set U while W is held; the word stays below 4 n + 4 for n threads |
| RwSpinLock.Exclusion | src/core/include/rwSpinLock_t.h:50-176 | a writer excludes confirmed readers, upgraders and other writers; there is one upgrader at most |
| RwSpinLock.StepKeepsInv | src/core/include/rwSpinLock_t.h:50-176 | every atomic operation keeps the meaning of the bits |
| RwSpinLockProgress.BitsTell | src/core/include/rwSpinLock_t.h:50-78 | in every run iBits is 0 exactly if every thread is free, and W and U are clear exactly if nobody writes or is upgraded: the U that a failed attempt leaves goes with the writer or upgrader it met |
| RwSpinLockProgress.Attempts | src/core/include/rwSpinLock_t.h:50-71 | an attempt to write succeeds exactly if every thread is free; one to read or to upgrade exactly if nobody writes or is upgraded |
| RwSpinLockProgress.Upgrade | src/core/include/rwSpinLock_t.h:73-78 | an upgrader becomes the writer exactly if every other thread is free |
| RwSpinLockProgress.LetsGo | src/core/include/rwSpinLock_t.h:101-176 | every unlock and hand-over leaves its thread free or in the role it asked for, and no other thread changed |
| RwSpinLockProgress.NeverStuck | src/core/include/rwSpinLock_t.h:86-176 | from every reachable state, once the holders have unlocked, any thread gets the lock in each of the three ways |
| McsLock.Exclusion | src/benchmark/source/spin_lock/mscLock.c:49-82 | at most one thread is between entering and releasing |
| McsLock.FifoEntry | src/benchmark/source/spin_lock/mscLock.c:58-68 | threads enter in the order in which they exchanged the tail, each once per exchange |
| McsLock.HandsToSuccessor | src/benchmark/source/spin_lock/mscLock.c:71-82 | a release with a known successor clears the flag of exactly the thread that exchanged next, which is waiting, and lets no other in |
| McsLock.ReleasesToNobody | src/benchmark/source/spin_lock/mscLock.c:73-77 | swapping the tail back to null succeeds exactly when nobody has exchanged since |
| McsLock.NodeNotReused | src/benchmark/source/spin_lock/mscLock.c:55-82 | no thread is about to write a node whose owner is outside the queue |
| McsLock.NeverStuck | src/benchmark/source/spin_lock/mscLock.c:49-82 | while somebody is queued, some queued thread can take a step |
| McsLock.Arrives | src/benchmark/source/spin_lock/mscLock.c:56-68 | a thread that locks queues up at the end within three steps of its own, and has the lock at once if nobody is queued |
| McsLock.EveryoneEnters | src/benchmark/source/spin_lock/mscLock.c:49-82 | from every reachable state there is a run in which everybody who is queued enters and leaves, in order, until the tail is null |
| ClhLock.Exclusion | src/benchmark/source/spin_lock/clhLock.c:50-83 | at most one thread is between entering and releasing, although nodes are recycled |
| ClhLock.FifoEntry | src/benchmark/source/spin_lock/clhLock.c:50-74 | threads enter in the order in which they exchanged the tail, each once per exchange |
| ClhLock.EntersInTurn | src/benchmark/source/spin_lock/clhLock.c:59-62 | the watched node is unlocked exactly when everybody before has released |
| ClhLock.OneKeeper | src/benchmark/source/spin_lock/clhLock.c:27-83 | every node has exactly one keeper: a thread's local node, or the front of the queue (a watched predecessor, or the tail when nobody queues) |
| ClhLock.IdleSelfIsTail | src/benchmark/source/spin_lock/clhLock.c:27-41 | when the lock is idle, pSelfNode is the tail, unlocked, and no thread's local node |
| ClhLock.NeverStuck | src/benchmark/source/spin_lock/clhLock.c:50-83 | while somebody is queued, the thread in front can take a step |
| ClhLock.Arrives | src/benchmark/source/spin_lock/clhLock.c:52-64 | a thread that locks queues up at the end within three steps of its own, and can enter at once if nobody is queued |
| ClhLock.EveryoneEnters | src/benchmark/source/spin_lock/clhLock.c:52-83 | from every reachable state there is a run in which everybody who is queued enters and leaves, in order |
| ClhLock.NodeNotWatched | src/benchmark/source/spin_lock/clhLock.c:50-83 | a thread that locks again never writes a node that another thread watches |
| ByteRing.Sizes | src/core/include/byteQueue_t.h:65-138 | readable and writable counts are the lengths of the two parts of the ring and add up to the capacity |
| ByteRing.Runs | src/core/include/byteQueue_t.h:65-138 | each part is one run and a run at the start of the buffer; r at the end means nothing to read, except in a swapped buffer |
| ByteRing.ConsumedContents | src/core/include/byteQueue_t.h:140-151 | advancing the read index drops that many bytes from the front, across the end and at exhaustion |
| ByteRing.ProducedContents | src/core/include/byteQueue_t.h:153-161 | advancing the write index adds the next bytes of the free part to the end, in all ring states |
| ByteRing.StoredContents | src/core/source/detail/byteQueue_t.c:114-124 | storing into the free part, in one piece or two, touches nothing readable |
| ByteRing.StoredRoom | src/core/source/detail/byteQueue_t.c:114-124 | what was stored is the front of the free part, in order |
| ByteQueue.ByteQueue.Write | src/core/source/detail/byteQueue_t.c:79-129 | the old bytes followed by the new ones, across the wrap and across growth, and the exact capacity; growing from a swapped buffer loses its bytes and nothing else does |
| ByteQueue.ByteQueue.WriteBytes | src/core/source/detail/byteQueue_t.c:131-178 | the same with exact growth |
| ByteQueue.ByteQueue.WriteChar | src/core/source/detail/byteQueue_t.c:30-77 | appends the byte, or stores outside the buffer: exactly when the write index is at the end and something was read |
| ByteQueue.ByteQueue.ReadBytes | src/core/source/detail/byteQueue_t.c:180-202 | the front of the ring in order, up to the maximum; peeking leaves it there; false exactly when there is nothing |
| ByteQueue.ByteQueue.Reserve | src/core/source/detail/byteQueue_t.c:210-236 | keeps the bytes and sets the capacity, or does nothing if they would not fit |
| ByteQueue.ByteQueue.WriteOffset | src/core/include/byteQueue_t.h:153-161 | makes bytes written behind the queue's back readable, in order |
| ByteQueue.ByteQueue.Clear | src/core/source/detail/byteQueue_t.c:19-28 | leaves an empty queue without a buffer |
| ByteQueue.ByteQueue.SwapBuffer | src/core/include/byteQueue_t.h:52-63 | takes over a buffer with all of it readable |
| ByteFifo.InOrder | src/core/source/detail/byteQueue_t.c:79-236 | over every sequence of operations, everything taken followed by everything held is everything put |
| ByteFifo.Replay | src/core/source/detail/byteQueue_t.c:6-236 | the ring, from init, follows the byte sequence through every sequence of operations: contents, capacity and bytes handed out |
| ByteFifo.EdgeIsReachable | src/core/source/detail/byteQueue_t.c:210-236 | a queue in the state in which byteQueue_writeChar misses its buffer can be reached |
| EventConnection.Receive | src/core/source/eventIO/posix/eventConnection_t.c:182-244 | for every ring state and every number of bytes delivered into the iovec list, the ring is the old content followed by exactly those bytes; only a swapped buffer loses its content, as soon as anything arrives |
| EventConnection.AllDeliver | src/core/source/eventIO/posix/eventConnection_t.c:190-219 | readv puts the bytes into the free runs of the ring in order and the rest into the scratch buffer |
| EventConnection.SpaceOffered | src/core/source/eventIO/posix/eventConnection_t.c:190-219 | every iovec list offers all of the free bytes and at least 65536 bytes |
| EventConnection.AfterCallback | src/core/source/eventIO/posix/eventConnection_t.c:226-240 | after the callback a ring that was less than half full gets half its capacity, or the least one if that is more, unless its bytes would not fit; the bytes stay, except of a swapped buffer |
| Tpack.DecodeStable | src/core/source/codec/tpack_t.c:8-115 | a head, once decoded, is within the bytes at hand and stays the same as more arrive |
| Tpack.SplitOn | src/service/source/stream/tpackStream_t.c:47-105 | splitting what has arrived and then the rest with what comes next is splitting it all |
| Tpack.ChunkingIsInvisible | src/service/source/stream/tpackStream_t.c:47-105 | the events of a connection do not depend on how its bytes were cut into chunks |
| TpackFrames.DecodeFrame | src/core/source/codec/tpack_t.c:195-235 | the head of an encoded frame is decoded to its length, flag and offset, for all seven opcodes and continuations, with and without extended length |
| TpackFrames.YieldsMessage | src/core/source/codec/tpack_t.c:316-534 | whatever follows on the stream, a message makes its own events and exactly its bytes are used |
| TpackFormat.Layout | src/core/source/codec/tpack_t.c:195-235 | a frame is the opcode byte, one length byte or 0xff and two with the most significant first, the token and the payload |
| TpackFormat.FirstBytes | src/core/source/codec/tpack_t.c:149-314 | a message has one frame more than it has whole fragments; the opcode is in the first and the top bit in the last; five kinds carry a big-endian token |
| TpackFormat.RefusedOpcode | src/core/source/codec/tpack_t.c:17-55 | a stream is refused exactly for an opcode that the encoder has for no flag |
| TpackFormat.RefusedIsHopeless | src/core/source/codec/tpack_t.c:8-115 | from two bytes on, a stream is refused exactly if no further bytes make it a frame |
| TpackFormat.MessageKinds | src/service/source/stream/tpackStream_t.c:83 | whatever arrives, the event of a message has 10 in its low four bits and an opcode from 1 to 7 in the others |
| TpackReassembly.RoundTrip | src/runtime/source/stream/ltpack_t.c:39-130 | any conversation of messages of the kind that comes back (TEXT and BINARY of any length, others of one frame, or of token 0 with nothing but zeros behind the first fragment), encoded, cut into arbitrary chunks, split and reassembled, is delivered exactly: kinds, tokens and payloads in order, nothing left over |
| TpackTokens.ComesBackExactly | src/core/source/codec/tpack_t.c:316-534 | a message alone on a connection, cut into any chunks, is delivered, and nothing else is, exactly if it is of one frame, or without a token, or has token 0 and only zeros behind the first fragment (for token 0, below 2^31 bytes, the width of a buffer's length) |
| TpackTokens.Lost | src/core/source/codec/tpack_t.c:482-503 | any other message is not among the deliveries of its bytes, whatever had been collected before and however many events the service accepts |
| TpackTokens.FirstLost | src/core/source/codec/tpack_t.c:482-503 | a reply with token 1 and 0xffff bytes is lost; with token 0 it comes back, and with one more byte that is not 0 it does not |
| TpackTokens.TokenNeedsOneFrame | src/runtime/source/stream/ltpack_t.c:56-101 | no stream of bytes at all delivers a token other than 0 with more than 0xffff bytes of payload |
| TpackTokens.TokenContinuationIsCutShort | src/core/source/codec/tpack_t.c:482-503 | every continuation frame with a token is decoded four bytes short with the token as payload |
| TpackTokens.Origin | src/runtime/source/stream/ltpack_t.c:56-101 | of n bytes of any stream at most n * 0xffff / 0x10003 are delivered as payload, behind what was collected before or on their own |
| TpackConversation.Serve | src/core/source/eventIO/posix/eventConnection_t.c:182-244 | on the real ring, scratch buffer and reassembly queue, for every wire and every size of the pieces that readv finds, the service delivers what the whole stream specifies, and the ring keeps the rest |
| TpackConversation.Converse | src/service/source/stream/tpackStream_t.c:47-105 | messages of the kind that comes back, encoded by tpack_encodeVec and received in any pieces, are delivered exactly by those buffers, with nothing left over |
| TpackCodec.DecodeHeadOf | src/core/source/codec/tpack_t.c:8-115 | decodes the head of what is readable in any ring state, and changes nothing |
| TpackCodec.Decode | src/core/source/codec/tpack_t.c:117-147 | one frame's token and payload, consuming exactly that frame, or nothing |
| TpackCodec.Receive | src/service/source/stream/tpackStream_t.c:47-105 | the receive callback makes the events of the specification, keeps what is not a frame yet, and fails on a bad opcode or a service that refuses an event |
| TpackEncoder.EncodeVec | src/core/source/codec/tpack_t.c:316-534 | gathers any vector of buffers into the frames of the concatenated payload; reads outside the vector exactly if the total is a non-zero multiple of 0xffff without a trailing empty buffer |
| TpackEncoder.FullBuffer | src/core/source/codec/tpack_t.c:447-474 | a vector of one buffer of 0xffff bytes makes it read outside; an empty buffer behind it prevents that |
| TpackEncoder.Gather | src/core/source/codec/tpack_t.c:447-474 | the copy loop fills a frame with the next bytes of the vector, whatever the boundaries of its buffers |
| TpackEncoder.Encode | src/core/source/codec/tpack_t.c:149-314 | any buffer is encoded as the frames that tpack_encodeVec makes of it; a write goes outside an allocated buffer exactly if there are several fragments and a token, or a last fragment of 1 to 0xfe bytes |
| TpackEncoder.FirstShort | src/core/source/codec/tpack_t.c:239-310 | the shortest buffers for which that happens: 0xffff bytes with a token, 0x10000 without |
| Ltpack.LtpackFrame.Write | src/runtime/source/stream/ltpack_t.c:39-101 | one raw frame starts or continues the message collected; the code says whether it was the last |
| Ltpack.LtpackFrame.Read | src/runtime/source/stream/ltpack_t.c:103-131 | hands out all bytes collected, in order, and leaves none; nothing when there are none |
| MsgpackRoundTrip.ValueBack | src/runtime/source/msgpack/lmsgpack_t.c:95-144 | unpacking a packed value followed by anything gives the value (tables with their entries) and stops exactly at what follows |
| MsgpackRoundTrip.RoundTrip | src/runtime/source/msgpack/lmsgpack_t.c:328-366 | ldecode inverts packing of any list of values |
| MsgpackRoundTrip.IntBack | src/core/source/msgpack/msgpackEncode_t.c:79-175 | every int64 comes back from the format of its range (nine formats, sections "int format family" of the MessagePack specification) |
| MsgpackRoundTrip.StrBack | src/core/source/msgpack/msgpackEncode_t.c:221-261 | every string below 2^32 bytes comes back from the head of its length class |
| MsgpackRoundTrip.MapBack | src/core/source/msgpack/msgpackEncode_t.c:327-353 | so does every array count |
| MsgpackRoundTrip.PtrBack | src/core/source/msgpack/msgpackEncode_t.c:355-392 | so does every 64-bit user pointer |
| MsgpackRoundTrip.RealBack | src/core/source/msgpack/msgpackEncode_t.c:185-219 | floats and doubles that are not integers come back byte for byte |
| MsgpackRoundTrip.PacksUpToDepth | src/runtime/source/msgpack/lmsgpack_t.c:95-100 | packing fails exactly for values that nest more than 32 tables |
| MsgpackTruncated.UnpackStable | src/runtime/source/msgpack/lmsgpack_t.c:247-326 | what was unpacked from a buffer is unpacked in the same way when more bytes follow |
| MsgpackTruncated.CutOff | src/runtime/source/msgpack/lmsgpack_t.c:247-326 | a packed value that was cut off is not taken for any value |
| MsgpackFormats.IntShortest | src/core/source/msgpack/msgpackEncode_t.c:79-175 | no bytes that read back as the integer are shorter than those written, and of the same length and the right sign there are no others |
| MsgpackFormats.IntFormats | src/core/source/msgpack/msgpackEncode_t.c:79-175 | the first byte of each of the nine formats is written exactly for the integers of its range |
| MsgpackFormats.StrShortest | src/core/source/msgpack/msgpackEncode_t.c:221-261 | no bytes that read back as the string are shorter, and none of the same length differ |
| MsgpackFormats.MapShortest | src/core/source/msgpack/msgpackEncode_t.c:327-353 | the same for the head of a table |
| MsgpackFormats.PtrShortest | src/core/source/msgpack/msgpackEncode_t.c:355-392 | the same for a user pointer |
| MsgpackFormats.HeadFormats | src/core/source/msgpack/msgpackEncode_t.c:221-392 | the first bytes of the string, map and pointer formats, each exactly for its range |
| MsgpackFormats.FourField | src/core/source/msgpack/msgpackEncode_t.c:101-104 | a four-byte field has its most significant byte first |
| MsgpackFormats.LongField | src/core/source/msgpack/msgpackEncode_t.c:111-118 | an eight-byte field is two four-byte fields, the high one first |
| MsgpackFormats.UnsignedBack | src/core/source/msgpack/msgpackDecode_t.c:125-190 | a field of any unsigned format is read as its number, shortest or not; 64 bits are cast to int64_t |
| MsgpackFormats.SignedFieldBack | src/core/source/msgpack/msgpackDecode_t.c:125-190 | a field of any signed format is read in two's complement |
| MsgpackFormats.BinBack | src/core/source/msgpack/msgpackDecode_t.c:454-508 | the three binary formats, which this packer does not write, are read as their bytes |
| MsgpackFormats.Refused | src/core/source/msgpack/msgpackDecode_t.c:983-1060 | arrays, extensions and 0xc1 are refused whatever follows |
| MsgpackCodec.NegativeFormats | src/core/source/msgpack/msgpackEncode_t.c:127-174 | the masks and shifts of a negative integer give its two's complement fields |
| MsgpackCodec.FormatsOf | src/core/source/msgpack/msgpackEncode_t.c:79-126 | the masks and shifts of an unsigned value give its big-endian fields |
| MsgpackCodec.Encoder.Append | src/core/source/msgpack/msgpackEncode_t.c:22-38 | the doubling loop ends with room for the bytes and keeps what was written; a new buffer is less than twice what is needed |
| MsgpackCodec.Encoder.WriteInteger | src/core/source/msgpack/msgpackEncode_t.c:79-175 | appends the shortest format of the integer (MsgpackFormats.IntShortest), growing as needed |
| MsgpackCodec.Decoder.ReadInteger | src/core/source/msgpack/msgpackDecode_t.c:117-216 | reads one integer of any format or leaves the input alone |
| MsgpackCodec.LongWords | src/core/source/msgpack/msgpackDecode_t.c:150-190 | the shifted bytes that the decoder combines are the big-endian number |
| Lmsgpack.PackValue | src/runtime/source/msgpack/lmsgpack_t.c:43-144 | the recursive packer appends the specified bytes to the growing buffer, or fails at the depth limit |
| Lmsgpack.UnpackValue | src/runtime/source/msgpack/lmsgpack_t.c:217-326 | the recursive unpacker reads the specified value and advances past it, on every input that is not Garbled |
| Lmsgpack.DecodeAll | src/runtime/source/msgpack/lmsgpack_t.c:328-366 | ldecode gives the values of the whole input, on every input that is not Garbled |
| ChannelTable.FreeAndOccupied | src/service/source/channel/channelCenter_t.c:94-153 | in every reachable state the free stack and the occupied slots partition the table, across all doublings up to 0xfffff, and the count is exact |
| ChannelTable.GainFindsItsOwn | src/service/source/channel/channelCenter_t.c:194-226 | an issued ID leads to its channel exactly while that is registered; otherwise to none, or to one that got the same ID a multiple of 2046 registrations apart |
| ChannelTable.IdsDistinct | src/service/source/channel/channelCenter_t.c:136-146 | IDs issued within 2046 consecutive registrations are distinct, whatever was deregistered between |
| ChannelTable.SameId | src/service/source/channel/channelCenter_t.c:136-153 | two IDs are equal exactly if slot and sequence stamp are |
| ChannelTable.RegisterAdds | src/service/source/channel/channelCenter_t.c:94-153 | registering fails exactly when 0xfffff channels are registered; otherwise the new one is found under its ID and all others stay |
| ChannelTable.DeregisterRemoves | src/service/source/channel/channelCenter_t.c:155-192 | unless the ID misses the table, deregistering removes the channel that the ID leads to and no other; gain and deregister miss it for the same IDs |
| ChannelTable.LookupInside | src/service/source/channel/channelCenter_t.c:165-168 | in every table the slot looked at is outside exactly for an ID with the top bit set and the low 20 bits zero; for any other ID the one slot with that ID is found |
| ChannelTable.MissedID | src/service/source/channel/channelCenter_t.c:204-207 | 0x80000000, the least such ID, leads to slot -1 |
| ChannelTable.RunInside | src/service/source/channel/channelCenter_t.c:94-192 | a run of registrations and deregistrations keeps to the table exactly if no deregistered ID is one of those |
| ChannelTable.IssuedIsInside | src/service/source/channel/channelCenter_t.c:153 | no issued ID is one of those, so deregistering issued IDs keeps to the table |
| ChannelSlots.FirstIds | src/service/source/channel/channelCenter_t.c:136-150 | while nothing is deregistered, channel h gets slot h and the ID 0x80000000 + (1 + h % 2046) * 2^20 + h + 1 |
| ChannelSlots.Reuses | src/service/source/channel/channelCenter_t.c:135-139 | the slot given back last is given out first |
| ChannelSlots.TableSize | src/service/source/channel/channelCenter_t.c:113-133 | in every run the table has 64 slots, doubled some times, or 0xfffff, and fewer than twice as many as channels were registered |
| ChannelCenter.ChannelCenter.Register | src/service/source/channel/channelCenter_t.c:94-153 | the slot array and the free stack follow the table through growth and allocation |
| ChannelCenter.ChannelCenter.Deregister | src/service/source/channel/channelCenter_t.c:155-192 | and through release: pushing a free index never overflows the stack; the slot is outside the array exactly for the IDs that miss |
| ChannelCenter.ChannelCenter.Gain | src/service/source/channel/channelCenter_t.c:194-226 | finds what the table holds, with the same exception |
| ChannelCenter.ChannelCenter.GetIds | src/service/source/channel/channelCenter_t.c:228-263 | fills an array of exactly the reported count with the IDs of the registered channels |
| TimerRun.PassEnds | src/core/source/eventIO/posix/eventIO_t.c:325-338 | a pass over the due timers ends whatever the callbacks start and stop: it has no more turns than timers were due |
| TimerRun.NoneEarly | src/core/source/eventIO/posix/eventIO_t.c:325-338 | every timer taken was due when the pass began, under the same key: none early, none started during the pass |
| TimerRun.PassKeeps | src/core/source/eventIO/posix/eventIO_t.c:325-338 | a pass leaves timers with distinct IDs below the counter, so passes can follow each other |
| TimerRun.InOrder | src/core/include/eventIO/internal/eventTimer_t.h:40-95 | timers are taken in strictly increasing (timeout, id), so none twice |
| TimerRun.AllHandled | src/core/source/eventIO/posix/eventIO_t.c:325-338 | every timer due at the start was taken, or stopped by a callback |
| TimerRun.SleepsUntilDue | src/core/source/eventIO/posix/eventIO_t.c:314-323 | after every wait nothing is due exactly if the wait was shorter than eventIO_nextTimeout says: this is so exactly if the least timeout is less than 2^31 ms ahead |
| TimerRun.LongTimers | src/core/source/eventIO/posix/eventIO_t.c:323 | 2^31 ms ahead the result is -2^31, and 0xffffffff ms ahead it is -1 |
| TimerDeadlines.DueFrom | src/core/include/eventIO/internal/eventTimer_t.h:128 | a timer that is started is due exactly from the loop time plus its interval on |
| TimerDeadlines.RunsOnTime | src/core/source/eventIO/posix/eventIO_t.c:325-338 | a timer that is started and not stopped is run by the first pass whose clock is at least start plus interval, and by none before, whatever happens to other timers |
| TimerDeadlines.Repeats | src/core/include/eventIO/internal/eventTimer_t.h:80-86 | a repeating timer that a pass has run and nothing has stopped since is due one interval after the clock of the pass, and not before |
| TimerDeadlines.StoppedIsSilent | src/core/include/eventIO/internal/eventTimer_t.h:140-158 | a timer that was stopped is not run until it is started again |
| TimerDeadlines.RunsNoMore | src/core/include/eventIO/internal/eventTimer_t.h:64-95 | after a turn in which it does not repeat, or its callback stops it, a timer is not run again until it is started |
| TimerDeadlines.StartedFirst | src/core/include/eventIO/internal/eventTimer_t.h:40-62 | of two timers due at the same time, the one started first is run first |
| EventTimers.EventIO.StartTimer | src/core/include/eventIO/internal/eventTimer_t.h:108-138 | a timer with an interval that is not in the heap enters it with the loop time plus the interval; otherwise nothing changes |
| EventTimers.EventIO.StopTimer | src/core/include/eventIO/internal/eventTimer_t.h:140-158 | the timer is out of the heap, and nothing else changes |
| EventTimers.EventIO.RunTimers | src/core/source/eventIO/posix/eventIO_t.c:325-338 | on the pointer heap, for every behaviour of the callbacks, the loop makes such a pass and ends with nothing due, ready for the next pass: bActive says which timers are in the heap, and their IDs differ |
| EventTimers.EventIO.RunTimer | src/core/include/eventIO/internal/eventTimer_t.h:64-95 | one turn: out of the heap, back in with the loop time plus its interval if it repeats, then the callback's changes |
| EventTimers.EventIO.NextWait | src/core/source/eventIO/posix/eventIO_t.c:314-323 | -1 without timers; otherwise the cast time to the least timeout, which tells how long nothing is due exactly if it is less than 2^31 ms ahead |
| TimerLife.Lifecycle | src/core/include/eventIO/internal/eventTimer_t.h:64-158 | for a timer started once, in every interleaving of starter, stoppers and loop: one close callback at most, exactly when the started timer has left the heap for good, a one-shot timer fires once at most, references balance |
| TimerLife.CompletedLife | src/core/source/eventIO/eventTimer_t.c:39-68 | when nothing is under way, a started timer was closed exactly once and only the owner's reference is left; dropping it frees the timer |
| TimerLife.StopEndsIt | src/core/include/eventIO/internal/eventTimer_t.h:139-158 | a stopped timer is closed once its messages have run, in whichever order |
| TimerLife.FreedIsOver | src/core/source/eventIO/eventTimer_t.c:28-35 | when the last reference goes, no step of anybody touches the timer any more |
| TimerLife.NothingAfterClose | src/core/include/eventIO/internal/eventTimer_t.h:64-158 | neither callback is called after the close callback |
| TimerLife.CalledOrStopped | src/core/include/eventIO/internal/eventTimer_t.h:67-73 | a timer that runs once and has been closed was called exactly once, unless a stop came before, and then not at all |
| TimerLife.CalledEachTime | src/core/include/eventIO/internal/eventTimer_t.h:80-86 | a repeating timer is called exactly once for each expiry between its start message and its stop |
| TimerLife.StartArrives | src/core/include/eventIO/internal/eventTimer_t.h:107-138 | from every reachable state of a started timer: once the start message has run, the timer is in the heap and running, or was called at once, or is closed |
| TimerLife.StopArrives | src/core/include/eventIO/internal/eventTimer_t.h:140-158 | from every reachable state of a stopped timer: once the stop message has run too, it is closed without a call |
| TimerLife.CanBegin | src/core/source/eventIO/eventTimer_t.c:40-68 | an owner can start the timer once and stop it as long as it runs |
| TimerLife.ExpiryCalls | src/core/include/eventIO/internal/eventTimer_t.h:64-95 | the expiry of a running timer calls it, and closes it exactly if it runs once |

## Left out

- RB_AUGMENT, which is empty in the source.
- heap_remove: the branch that clears the minimum when the detached node is the minimum is not modelled; it cannot be reached, because the link that it tests was cleared just before.
- Mailbox: everything after the dispatch of STOP (close, serviceCenter, freeing), the reference counts of the watcher, and the failing branch of service_start beyond bRunning.
- Mailbox: service_waitForCount is an arbitrary choice; eventIO_postQueued is "one more copy of the node is in the hands of the event loop"; a manual-reset watcher is not used by services.
- Mailbox: it is a state machine over values, not classes with methods, because its steps interleave; QueueLinks has the list operations on real links.
- RwSpinLock, McsLock, ClhLock: state machines over values for the same reason; memory orders weaker than sequential consistency, fairness, and thread-local clean-up are not modelled. BitsCount shows when the counter fits its 32 bits.
- ClhLock: thread-local nodes of several locks, which the source shares through one variable per thread.
- ByteQueue: byteQueue_swapToReset, allocation failure; a NULL buffer is the empty array.
- EventConnection: the socket and errors of readv. The callback between Receive and AfterCallback is that of the tpack stream in TpackConversation; it runs once per readv.
- Connection write queue: its gather loop in eventConnection_t.c does not advance past the head of the queue, so it has no stream property to prove.
- tpack: the writeMove wrappers and the channel and service IDs of events are left out.
- Ltpack: the Lua stack. What a service does with raw frames (write each, read out after the last) is the function TpackReassembly.Consume and the method TpackConversation.Collect; another service may do something else.
- Msgpack: metatables with `__pairs`, user pointers on 32-bit platforms, writeBinary and writeArray, the skip and peek functions, which the packer and unpacker do not use (skipNil apart).
- Msgpack: which doubles are integers or floats is part of the value (Number); a double that equals an integer comes back as that integer. lua_next may list entries in any order; the model keeps the order it was given.
- Lmsgpack.UnpackValue: says nothing about a table that fails inside: unpackValue ignores that and goes on with a disordered Lua stack, which the model calls Garbled. A key that is NaN makes lua_rawset raise an error, where the model keeps the entry. Nesting has no limit while unpacking, and the C stack is not modelled.
- Lmsgpack.DecodeAll: the same inputs.
- MsgpackCodec: msgpackDecode_readBinary looks at its length byte before checking that it is there; the result does not depend on that byte, and only the result is modelled.
- ChannelCenter: the moment between issuing an ID and storing it in the channel, reference counts, and channelCenter_clear. After a look at slot -1 nothing is promised; what lies there is not modelled.
- serviceCenter, a near-copy of channelCenter whose growth does not clear the new slots.
- EventTimers: the constructor's set of timers stands for all timers of the loop; what callbacks do is an arbitrary script of starts and stops.
- TimerLife: timers that are started again after a stop, a loop that is not running, and readers of isRunning.
- WebSocket codec: its encoder writes lengths big-endian and its decoder reads them little-endian, so there is no round trip to prove.
- Sockets, pollers, SSL, crypto, DNS, files, logging, other protocol parsers and the Lua bindings.
