# A verified model of the virtio device side

This project models the device side of the VIRTIO split virtqueue and the components built on it,
and proves what they promise. Guest memory is a map from addresses to bytes, cut into regions; every
access can fail. The parts:

- **Split-ring protocol** (`words`, `queue_state`, `rings`, `ring_layout`, `queue`, `queue_bounds`, `protocol`,
  `protocol_safety`).
  `Queue` is the class with the source's fields and methods, on raw bytes of guest memory. Its methods
  are proved against the functions of `Rings`, which act on a view of the rings; `RingLayout` says which
  bytes that view stands for. `Protocol` lets a
  driver (sections 2.7.10 and 2.7.13 of VIRTIO 1.2) and a device that performs those same functions
  interleave their single loads and stores in any order. `ProtocolSafety` proves what holds after every
  such run, however often the 16-bit counters wrap.
- **Descriptor chains** (`chain`, `chain_frame`): the walk through tables that the driver controls.
- **Byte streams** (`byte_stream`, `descriptor_utils`): readers and writers over a chain's buffers.
- **Device status and registers** (`mmio_device`, `mmio_handshake`): feature negotiation, activation,
  queue setup, as safety over every sequence of writes and as success of the standard's sequence.
- **Block requests** (`block_request`, `block_effects`, `block_answers`, `block_executor`, `block_runs`): parsing,
  execution against a file, how each request is answered, and what a file keeps over runs of requests.
- **Console receive queue** (`console`): the input buffer as a FIFO.

Where the code takes an answer from outside (the file system, `activate`, `reset`), that answer is a
parameter, so each statement holds for every answer. Objects with fields that change are classes;
each method is tied to a function on values, and the theorems over runs are about those functions.

Choices that a reader should know:

- Copying zero bytes still needs a mapped first address, as in `vm-memory`.
- The documentation of `consume` says that its callback sees buffers up to `count` bytes; the code hands
  over whole buffers, so the last one may exceed it. The model follows the code; `PrefixWithinCount` says
  exactly when the documented bound holds, `PrefixCanExceedCount` shows an input where it does not.
- `is_valid` checks the address behind each table and ring only. `EndsSuffice` says exactly in which
  memories that bounds every access, `EndsDoNotSuffice` shows one where it does not.
- `consume` and its callbacks are one operation in the source. Here `SelectPrefix`, `FillFrom` or
  `SpreadOver`, and `DropFront` are its stages.
- `ack_device_status` stores the value it is given, so earlier status bits may be lost. The model
  follows the code; the invariants do not rely on a growing status. `ActivationFreezesFeatures` says exactly
  when features can still be written after activation, `UnofferedFeatureAccepted` shows the case.
- Register words and feature words are represented by the sets of their one bits.
- `execute` is one function with a `match` in the source; `ExecuteIn`, `ExecuteOut`,
  `ExecuteGetDeviceId` and `ZeroSegments` are its arms.
- A receive call of the console that fails has already taken bytes from the buffer; they are lost.
  `CallConserves` says, from the chain as the driver left it, exactly when that happens, and `ReceiveCanLose`
  shows a chain that makes it happen.

## Model

| member | source | states |
|---|---|---|
| `Words.BitTrickIsPowerOfTwo` | virtio-queue/src/queue.rs:119-125 | the test `n & (n - 1) == 0` on a positive number holds exactly for powers of two |
| `GuestMemory.LoadsU64` | virtio-queue/src/desc/split.rs:63-75 | a word loaded from guest memory is v exactly when the little-endian bytes of v are there; every layout below is stated on bytes through this |
| `QueueState.NewIsValid` | virtio-queue/src/queue.rs:280-298 | `new` succeeds exactly on powers of two up to 32768 and gives a valid queue |
| `QueueState.TrySetSizeAccepts` | virtio-queue/src/queue.rs:119-125 | a size is accepted exactly when it is a power of two not above the maximum |
| `QueueState.ApplyKeepsValid` | virtio-queue/src/queue.rs:351-421 | every configuration or device call, accepted or not, keeps sizes powers of two within the maximum and addresses aligned |
| `QueueState.RunKeepsValid` | virtio-queue/src/queue.rs:351-421 | the same after any sequence of calls |
| `QueueState.SaveThenRestore` | virtio-queue/src/state.rs:39-52 | the saved state of any queue reachable from `new` or a restore can be restored, and gives back that queue with an empty notification window |
| `QueueState.RestoreThenSave` | virtio-queue/src/state.rs:39-52 | a state that restores is saved again unchanged |
| `QueueState.RestoresValid` | virtio-queue/src/state.rs:39-52 | a saved state restores exactly when it is that of a valid queue |
| `QueueState.PopUndone` | virtio-queue/src/queue.rs:606-608 | going back one position and taking a chain undo each other, also where the counter wraps |
| `Rings.WriteElemKeepsRecent` | virtio-queue/src/queue.rs:464-474 | between the element write and the index store the most recent size - 1 published entries are intact and nothing is published |
| `Rings.AddUsedExtendsLog` | virtio-queue/src/queue.rs:450-486 | one `add_used` appends one entry to the unbounded log that the ring stands for |
| `Rings.UsedRingRefinesLog` | virtio-queue/src/queue.rs:450-486 | after any number of `add_used` calls the last min(n, size) entries of the log are in their slots and the index is the log's length modulo 2^16 |
| `Rings.NeedsNotificationIsWindow` | virtio-queue/src/queue.rs:507-539 | with fewer than 2^16 additions the check is true exactly when `used_event` names an entry added since the last check |
| `Rings.NeedsNotificationOverflow` | virtio-queue/src/queue.rs:507-539 | from 2^16 additions on, every index is due, yet the check looks only at the last count modulo 2^16 entries |
| `Rings.FullWindowIsMissed` | virtio-queue/src/queue.rs:507-539 | after exactly 2^16 additions the check answers no although the event is among them |
| `Rings.IterAcceptsARing` | virtio-queue/src/queue.rs:700-719 | with `popped` heads taken of `published` ones, the index check accepts exactly when at most `size` are left, however often the counters have wrapped |
| `RingLayout.AvailRingDecodes` | virtio-queue/src/queue.rs:423-436 | the view of an available ring is what its bytes say: flags, index, heads, used event (section 2.7.6 of VIRTIO 1.2) |
| `RingLayout.UsedRingDecodes` | virtio-queue/src/queue.rs:464-485 | likewise for a used ring: flags, index, pairs of id and length, available event (section 2.7.8) |
| `VirtQueue.Queue.Create` | virtio-queue/src/queue.rs:280-298 | a queue object, or the error, as `New` says |
| `VirtQueue.Queue.TrySetSize` | virtio-queue/src/queue.rs:119-125 | accepted or refused with the registers unchanged |
| `VirtQueue.Queue.TrySetDescTableAddress` | virtio-queue/src/queue.rs:133-140 | an aligned address is stored, any other is refused with the registers unchanged |
| `VirtQueue.Queue.TrySetAvailRingAddress` | virtio-queue/src/queue.rs:148-154 | likewise for the available ring |
| `VirtQueue.Queue.TrySetUsedRingAddress` | virtio-queue/src/queue.rs:162-168 | likewise for the used ring |
| `VirtQueue.Queue.Configure` | virtio-queue/src/queue.rs:351-421 | each configuration call of the object is the step on registers whose runs are proved valid |
| `VirtQueue.Queue.Restore` | virtio-queue/src/state.rs:39-52 | the sequence of setters fails with the first violated requirement or yields exactly the saved registers |
| `VirtQueue.Queue.IsValid` | virtio-queue/src/queue.rs:300-349 | true exactly when the queue is ready and the address behind each table and ring is mapped; a queue that is not ready is refused |
| `QueueBounds.DescEndSuffices` | virtio-queue/src/queue.rs:315-325 | the check of its end bounds the descriptor table of every valid queue exactly when each mapped multiple of 16 has the 16 bytes below it mapped |
| `QueueBounds.AvailEndSuffices` | virtio-queue/src/queue.rs:326-335 | likewise for the available ring, with even addresses and the 8 bytes below |
| `QueueBounds.UsedEndSuffices` | virtio-queue/src/queue.rs:336-345 | likewise for the used ring, with addresses 2 modulo 4 and the 14 bytes below |
| `QueueBounds.EndsSuffice` | virtio-queue/src/queue.rs:300-349 | `is_valid` bounds all accesses of every valid queue exactly when all three conditions hold or no queue passes at all |
| `QueueBounds.EndsSufficeInFlatMemory` | virtio-queue/src/queue.rs:300-349 | so it does in one region that starts at 0, where it places rings that do not overlap |
| `QueueBounds.EndsDoNotSuffice` | virtio-queue/src/queue.rs:300-349 | elsewhere it can hold although no byte of the descriptor table is mapped |
| `VirtQueue.Queue.SetAvailEvent` | virtio-queue/src/queue.rs:195-212 | stores the event and changes no other ring field; a failure changes nothing |
| `VirtQueue.Queue.SetUsedFlags` | virtio-queue/src/queue.rs:215-223 | stores the flags and changes no other ring field; a failure changes nothing |
| `VirtQueue.Queue.SetNotification` | virtio-queue/src/queue.rs:229-246 | asks for or declines notifications by event index or by flag, as negotiated, and touches nothing else |
| `VirtQueue.Queue.EnableNotification` | virtio-queue/src/queue.rs:488-501 | asks for notifications and then answers whether heads are available that the device has not taken |
| `VirtQueue.Queue.DisableNotification` | virtio-queue/src/queue.rs:503-505 | declines notifications, by flag only |
| `VirtQueue.Queue.AvailIdx` | virtio-queue/src/queue.rs:423-436 | the driver's index, or the error of the address or the load |
| `VirtQueue.Queue.WriteUsedElem` | virtio-queue/src/queue.rs:464-473 | the bytes stored decode to the element in the slot of `next_used`, all other slots are kept |
| `VirtQueue.Queue.PublishUsedIdx` | virtio-queue/src/queue.rs:475-485 | both counters advance and the index field is the new counter |
| `VirtQueue.Queue.AddUsed` | virtio-queue/src/queue.rs:450-486 | on the bytes of guest memory it is the ring step that extends the log; a bad head changes nothing; only the used ring is written |
| `VirtQueue.Queue.NeedsNotification` | virtio-queue/src/queue.rs:507-539 | the answer of the window check on the bytes of guest memory; a successful check empties the window |
| `VirtQueue.Queue.Iter` | virtio-queue/src/queue.rs:590-604 | refuses a queue that is not ready; with `published - popped` heads left, answers InvalidAvailRingIndex exactly when these are more than `size`; passes on a failing load, else stops at the driver's index |
| `VirtQueue.Queue.NextHead` | virtio-queue/src/queue.rs:740-767 | returns the head in the slot of `next_avail` and advances, or returns nothing and stays: at the last index, in an empty queue, or when the load fails |
| `ProtocolSafety.StepKeepsInv` | virtio-queue/src/queue.rs:450-539 | every load or store of driver or device keeps all invariants: counters, ownership, intact slots, order, wakefulness, windows |
| `ProtocolSafety.Outstanding` | virtio-queue/src/queue.rs:700-719 | heads waiting, held and returned together never exceed the queue size, since each is in one place only |
| `ProtocolSafety.Reachable` | virtio-queue/src/queue.rs:57-73 | the invariants hold after every interleaving from a fresh queue |
| `ProtocolSafety.NoLostWakeup` | virtio-queue/src/queue.rs:488-501 | whenever the device sleeps and the ring is not empty, a notification is pending or the driver is about to send one, with EVENT_IDX and with flags |
| `ProtocolSafety.WokenDeviceProceeds` | virtio-queue/src/queue.rs:57-73 | a sleeping device behind a driver at rest can consume the notification, iterate without error and pop the next published head |
| `ProtocolSafety.AlwaysAccepted` | virtio-queue/src/queue.rs:700-719 | the index check of the iterator never refuses a driver that keeps to the queue size |
| `ProtocolSafety.FlagDecides` | virtio-queue/src/queue.rs:229-246 | by flag: after declining, the driver need not notify, whatever it adds; after asking, it must for every batch |
| `ProtocolSafety.HeadsInOrder` | virtio-queue/src/queue.rs:740-767 | popped heads are the published heads in order, none skipped or repeated; the driver takes back the returned elements in order; unread slots are never overwritten; what the device holds is distinct and in range |
| `ProtocolSafety.ChecksTileTheUsedRing` | virtio-queue/src/queue.rs:507-539 | successive notification checks cover each used entry exactly once, and each answers for its own entries |
| `Chain.Advance` | virtio-queue/src/chain.rs:163-202 | every descriptor returned lowers a rank, so walking ends whatever memory holds |
| `Chain.FetchDecodes` | virtio-queue/src/desc/split.rs:63-75 | a descriptor is read from a table exactly when its 16 bytes are at its index: address, length, flags, next, each little-endian |
| `Chain.FlagBits` | virtio-queue/src/desc/split.rs:115-131 | bit 0 of the flags says that a descriptor follows, bit 1 that the buffer is writable, bit 2 that it is a table, whatever the others are |
| `Chain.AdvanceReturnsEntry` | virtio-queue/src/chain.rs:163-202 | what is returned is an entry of the current table within its size, and never a table itself |
| `Chain.ListIsPath` | virtio-queue/src/chain.rs:163-202 | the list of a table follows the next fields, from entry to entry |
| `Chain.ListIsLongest` | virtio-queue/src/chain.rs:163-202 | it ends only where nothing can follow: no successor, an index out of bounds, an entry out of memory, a table, the ttl or the byte limit |
| `Chain.ListJumps` | virtio-queue/src/chain.rs:163-202 | it leads into an indirect table exactly when the entry that would follow is one |
| `Chain.AdvanceTakesFirst` | virtio-queue/src/chain.rs:163-202 | `next` removes the first element of the list that a chain means, and returns nothing exactly when that list is empty |
| `Chain.AnswersAreTheChain` | virtio-queue/src/chain.rs:163-202 | over fixed memory the calls return the direct list, then at most one indirect table, then nothing for ever |
| `Chain.DescriptorsAreBounded` | virtio-queue/src/chain.rs:187-190 | a chain names fewer than 2^32 bytes |
| `Chain.ChainIsBounded` | virtio-queue/src/chain.rs:163-202 | with memory changing arbitrarily between the calls and between the two tables of one call: at most `size` descriptors, or `size - 1` plus the indirect table's length, and fewer than 2^32 bytes |
| `Chain.PathHasNoRepeat` | virtio-queue/src/chain.rs:163-202 | a direct path that ends visits no index twice |
| `Chain.WellFormedChainIsWhole` | virtio-queue/src/chain.rs:41-58 | a direct chain that ends within the byte limit is returned whole: the ttl never cuts it |
| `Chain.DescriptorChain.constructor` | virtio-queue/src/chain.rs:41-58 | a fresh walk with a ttl of the queue size |
| `Chain.DescriptorChain.SwitchToIndirectTable` | virtio-queue/src/chain.rs:119-148 | succeeds exactly for a first table of whole descriptors with a 16-bit length; a refusal changes nothing |
| `Chain.DescriptorChain.Next` | virtio-queue/src/chain.rs:163-202 | the object takes the first descriptor off its list, or has none and stays so; a descriptor whose bytes are at the current index is the one returned, and any returned one stands in the table as bytes |
| `Chain.NextOfKind` | virtio-queue/src/chain.rs:225-236 | the next descriptor whose write flag is the wanted one, none of that kind skipped |
| `Chain.SelectByFlag` | virtio-queue/src/chain.rs:225-236 | the readable and the writable descriptors are those of the chain by their write flag, each descriptor in exactly one of the two |
| `Chain.SelectInOrder` | virtio-queue/src/chain.rs:225-236 | both kinds keep the order of the chain |
| `ChainFrame.SameChain` | virtio-queue/src/chain.rs:163-202 | memory that changes outside the descriptors a walk reads does not change the chain |
| `ChainFrame.WriteKeepsRest` | virtio-queue/src/chain.rs:163-202 | filling the buffer just taken leaves the rest of a chain as it was when no buffer overlaps the descriptors |
| `ByteStream.GatherScattered` | virtio-queue/src/descriptor_utils.rs:337-357 | bytes stored at distinct addresses read back in order |
| `ByteStream.StreamByte` | virtio-queue/src/descriptor_utils.rs:53-80 | byte k of buffer i comes in the stream after all bytes of the buffers before it |
| `DescriptorUtils.Consumer.AvailableBytes` | virtio-queue/src/descriptor_utils.rs:31-38 | the length of the stream that is left |
| `DescriptorUtils.Consumer.SelectPrefix` | virtio-queue/src/descriptor_utils.rs:53-80 | the shortest prefix of the buffers that holds `count` bytes, or all of them |
| `DescriptorUtils.PrefixWithinCount` | virtio-queue/src/descriptor_utils.rs:43-80 | that prefix keeps to `count` bytes, as documented, exactly when a buffer ends there or the stream is no longer |
| `DescriptorUtils.PrefixCanExceedCount` | virtio-queue/src/descriptor_utils.rs:43-80 | it does not for one byte out of a buffer of two |
| `DescriptorUtils.Consumer.DropFront` | virtio-queue/src/descriptor_utils.rs:82-106 | exactly the first n bytes of the stream are gone and counted |
| `DescriptorUtils.Consumer.SplitAt` | virtio-queue/src/descriptor_utils.rs:108-143 | succeeds exactly within the stream; the halves concatenate to it; a failure changes nothing |
| `DescriptorUtils.FillFrom` | virtio-queue/src/descriptor_utils.rs:236-255 | the caller's buffer starts with the front of the stream and is otherwise unchanged |
| `DescriptorUtils.SpreadOver` | virtio-queue/src/descriptor_utils.rs:337-357 | the bytes lie in order at the front of the stream and nothing else changes |
| `DescriptorUtils.Consumer.Read` | virtio-queue/src/descriptor_utils.rs:236-255 | returns min(buffer, stream) bytes from the front and moves on by that many; a stream made from a chain never errs |
| `DescriptorUtils.Consumer.Write` | virtio-queue/src/descriptor_utils.rs:337-357 | stores min(data, stream) bytes at the front and moves on by that many; a stream made from a chain never errs |
| `DescriptorUtils.Open` | virtio-queue/src/descriptor_utils.rs:160-196 | a stream over exactly the buffers whose write flag is the wanted one, if each lies in one region; the overflow error never occurs |
| `DescriptorUtils.SelectedBuffers` | virtio-queue/src/descriptor_utils.rs:160-196 | a buffer is in the stream exactly when the chain has a descriptor with its address, its length and the wanted write flag |
| `DescriptorUtils.ChunkedWrite` | virtio-queue/src/descriptor_utils.rs:337-357 | writing in chunks is writing their concatenation |
| `DescriptorUtils.ChunkedRead` | virtio-queue/src/descriptor_utils.rs:236-255 | reading in chunks returns the stream, whatever the chunks |
| `DescriptorUtils.StreamPasses` | virtio-queue/src/descriptor_utils.rs:53-106 | over disjoint buffers any chunking of writes and of reads gives back the bytes written, followed by the old bytes; memory outside the buffers is unchanged |
| `DescriptorUtils.WriteEach` | virtio-queue/src/descriptor_utils.rs:337-357 | a writer object called with chunk after chunk does what the fold of writes says, and consumed plus available bytes are conserved |
| `DescriptorUtils.ReadEach` | virtio-queue/src/descriptor_utils.rs:236-255 | a reader object called with buffer after buffer does what the fold of reads says, and consumed plus available bytes are conserved |
| `DescriptorUtils.WriteThenRead` | virtio-queue/src/descriptor_utils.rs:160-357 | a writer opened on one chain and a reader opened on another that names the same distinct addresses: the round trip, for any chunks; it succeeds exactly when all buffers are reachable |
| `DescriptorUtils.SplitThenRead` | virtio-queue/src/descriptor_utils.rs:108-143 | reading the two halves of a split stream is reading the whole |
| `MmioDevice.AckKeepsInv` | virtio-device/src/lib.rs:117-174 | an acknowledged status keeps the negotiation invariant, whatever `activate` and `reset` answer |
| `MmioDevice.WriteKeepsInv` | virtio-device/src/mmio.rs:136-219 | so does a write to any register with any data |
| `MmioDevice.NegotiationIsSound` | virtio-device/src/lib.rs:129-156 | after any writes to a fresh device FEATURES_OK means that only offered features are accepted and every queue's EVENT_IDX setting is the negotiated one; so it is at each call of `activate`, of which at most one succeeds between resets |
| `MmioDevice.ActivatedDeviceIsFixed` | virtio-device/src/mmio.rs:44-62 | once DRIVER_OK is set, no writes but a reset clear it, change a queue or activate again |
| `MmioDevice.FailedIsFinal` | virtio-device/src/lib.rs:117-174 | once FAILED is set only a write of 0 can change the status |
| `MmioDevice.OnlyZeroIsEmpty` | virtio-device/src/lib.rs:160-165 | a status byte without bits is the value 0, so only that asks for a reset |
| `MmioDevice.ZeroResets` | virtio-device/src/lib.rs:160-165 | a write of 0 to the status register, in every state: no status, no features, no activation, selectors 0, every queue not ready, of the largest size, without addresses, counters or EVENT_IDX; if `reset` fails nothing changes |
| `MmioDevice.StatusMovesInOrder` | virtio-device/src/lib.rs:117-174 | apart from failure and reset the status moves only along ACKNOWLEDGE, DRIVER, FEATURES_OK, DRIVER_OK, one bit at a time, the third only with offered features, the fourth only with a successful `activate` |
| `MmioDevice.FailureIsNoted` | virtio-device/src/lib.rs:157-159 | FAILED is added to the status in every state |
| `MmioHandshake.GivesUp` | virtio-device/src/lib.rs:157-159 | a write of 128 to the status register adds bit 7 and changes nothing else |
| `MmioDevice.Gates` | virtio-device/src/mmio.rs:147-195 | a write to a queue register has effect only between FEATURES_OK and DRIVER_OK, one to the features only between DRIVER and FEATURES_OK, one to the interrupts only after DRIVER_OK, none of the first two after FAILED |
| `MmioDevice.InterruptsAcknowledged` | virtio-device/src/mmio.rs:170-175 | an interrupt bit is cleared exactly when it is written |
| `MmioDevice.PageReplaced` | virtio-device/src/virtio_config.rs:125-134 | a page of the driver's features is replaced bit by bit, pages other than 0 and 1 have no effect |
| `MmioDevice.ConfigBytes` | virtio-device/src/virtio_config.rs:175-188 | a write to the configuration space replaces the bytes it covers, as far as the space goes, and no others |
| `MmioDevice.OtherWritesIgnored` | virtio-device/src/mmio.rs:136-219 | writes to unknown registers, of other widths or beyond the configuration space change nothing |
| `MmioHandshake.HalvesMakeAddress` | virtio-queue/src/queue.rs:389-417 | an address written in two halves, the low one first, keeps the alignment of its low half in between and arrives whole |
| `MmioHandshake.NegotiationSucceeds` | virtio-device/src/mmio.rs:147-160 | from a fresh device the writes of any offered feature word in two pages are agreed on; the word arrives whole and EVENT_IDX reaches every queue |
| `MmioHandshake.QueueSetUp` | virtio-device/src/mmio.rs:166-195 | the writes for one queue set its size, three addresses and ready flag to what the driver wrote and change no other queue |
| `MmioHandshake.HandshakeSucceeds` | virtio-device/src/mmio.rs:136-219 | the standard's whole initialization gets through for any offered features and any acceptable queues: one activation, with exactly the features and queue registers written |
| `MmioHandshake.ResetThenHandshake` | virtio-device/src/lib.rs:160-165 | from any state, however broken, a reset followed by the standard's sequence brings the device into use with exactly what the driver then writes |
| `MmioHandshake.FrozenIffClosed` | virtio-device/src/mmio.rs:147-160 | the accepted features of a device in use stay fixed until a reset exactly when its status closes the feature register |
| `MmioHandshake.ActivationFreezesFeatures` | virtio-device/src/lib.rs:129-156 | an activation fixes them exactly when the status written keeps FEATURES_OK or drops DRIVER |
| `MmioHandshake.UnofferedFeatureAccepted` | virtio-device/src/lib.rs:129-156 | with the status DRIVER and DRIVER_OK a device that offers nothing is activated and then accepts a feature |
| `MmioDevice.VirtioDevice.CheckDeviceStatus` | virtio-device/src/lib.rs:106-108 | true exactly when the wanted bits are set and the unwanted ones clear |
| `MmioDevice.VirtioDevice.UpdateQueueField` | virtio-device/src/mmio.rs:44-62 | the selected queue changes only while features are agreed and the driver is not ready |
| `MmioDevice.VirtioDevice.AckDeviceStatus` | virtio-device/src/lib.rs:117-174 | the object makes the status step whose runs are proved sound; 0 resets every field that the driver controls, or changes nothing if `reset` fails |
| `MmioDevice.VirtioDevice.Write` | virtio-device/src/mmio.rs:136-219 | the object makes the register step whose runs are proved sound |
| `BlockRequest.ParsedLengthFits` | virtio-blk/src/request.rs:157-161 | the data of a parsed request and its status byte fit in 32 bits |
| `BlockRequest.TypeHasCode` | virtio-blk/src/request.rs:95-106 | each request type is recognised by its number: 0, 1, 4, 8, 11, 13; every other number is unsupported under that number |
| `BlockRequest.HeaderDecodes` | virtio-blk/src/request.rs:109-116 | 16 bytes of type, reserved word and sector, little-endian, are read as that type and that sector |
| `BlockRequest.ParsesRequests` | virtio-blk/src/request.rs:212-253 | a chain parses exactly when it is a readable header (sector 0 for a flush), linked data (writable for a read) and a writable status byte in memory; the request then has the type, sector, buffers and status address of these |
| `BlockRequest.HeaderErrors` | virtio-blk/src/request.rs:212-230 | which header is refused with which error |
| `BlockRequest.BodyErrors` | virtio-blk/src/request.rs:239-252 | behind a good header each error means exactly one defect: a chain that never ends in a status descriptor, a read-only descriptor in the wrong place, an empty status buffer, a status byte outside memory |
| `BlockRequest.ParseHeader` | virtio-blk/src/request.rs:217-230 | the first descriptor gives type and sector, those of its 16 bytes, or the first error that applies |
| `BlockRequest.ParseBody` | virtio-blk/src/request.rs:239-252 | the descriptors up to the one without a successor are data, that one is the status, or the first error that applies |
| `BlockRequest.Parse` | virtio-blk/src/request.rs:212-253 | a chain parses exactly when it is a request; for a header of the bytes of type t and a sector, the kind has code t and the sector is that one; the length fits in 32 bits |
| `BlockEffects.AccessIsInFile` | virtio-blk/src/stdio_executor.rs:271-279 | an access that passes the check lies in the sectors of the device at exactly 512 times the sector, although the shift reports no lost bits |
| `BlockEffects.CompletedAreGood` | virtio-blk/src/stdio_executor.rs:395-421 | success means that every segment was handled; every handled segment passed flag and range checks |
| `BlockEffects.HandledBytes` | virtio-blk/src/stdio_executor.rs:395-421 | byte by byte: handled segments read zero (a discard only where the hole was punched), whatever UNMAP says; every other byte is unchanged except zeroes inside the segment that failed |
| `BlockEffects.HandledInSectors` | virtio-blk/src/stdio_executor.rs:429-477 | no byte behind the last sector changes |
| `BlockEffects.InSucceeds` | virtio-blk/src/stdio_executor.rs:327-352 | a successful read has copied the range of the file in order into the buffers, changed no other memory and not the file |
| `BlockEffects.IdSucceeds` | virtio-blk/src/stdio_executor.rs:361-394 | a successful device-id request has copied the 20 bytes of the id in order into the buffers |
| `BlockEffects.OutSucceeds` | virtio-blk/src/stdio_executor.rs:353-359 | a successful write has stored the buffers in order at 512 times the sector, changed no other byte of the file and no memory |
| `BlockEffects.ExecutedInSectors` | virtio-blk/src/stdio_executor.rs:305-427 | whatever happens, the file keeps its length and every byte behind the last sector; only writes, discards and write-zeroes change it |
| `BlockEffects.ReportedIsMoved` | virtio-blk/src/stdio_executor.rs:332-347 | the length reported, also by an error, counts no byte that did not reach the guest |
| `BlockEffects.UsedLengthFits` | virtio-blk/src/stdio_executor.rs:266-268 | the used length of any request fits in 32 bits; it is 1 for a write and the data length and 1 for a read that succeeds |
| `BlockEffects.ParsedReadFits` | virtio-blk/src/stdio_executor.rs:329-332 | a parsed read is never refused as too long |
| `BlockAnswers.SegmentDecodes` | virtio-blk/src/stdio_executor.rs:59-63 | a segment is found at an address exactly when its bytes are there: sector, count, flags, little-endian |
| `BlockAnswers.SegmentsDecode` | virtio-blk/src/stdio_executor.rs:395-421 | a buffer that holds encoded segments yields them, in their order |
| `BlockAnswers.ItemsInOrder` | virtio-blk/src/stdio_executor.rs:395-421 | the segments of several buffers follow one another as the buffers do |
| `BlockAnswers.HandledUpToFirst` | virtio-blk/src/stdio_executor.rs:395-477 | the first segment with bad flags, beyond the device, out of memory or with a failed write ends the request with that reason; without one it succeeds |
| `BlockAnswers.FeaturesGate` | virtio-blk/src/stdio_executor.rs:281-297 | bit 5 forbids everything but reads; flush, discard and write zeroes need bits 9, 13 and 14 and are otherwise unsupported under their own code |
| `BlockAnswers.TransfersInDevice` | virtio-blk/src/stdio_executor.rs:271-279 | a transfer of whole sectors is accepted exactly when it ends within the device, the last sector included |
| `BlockAnswers.StatusTells` | virtio-blk/src/stdio_executor.rs:107-123 | the status byte of any request, from what the driver sent: 0 exactly if every condition of its kind holds, 2 exactly for an unsupported type, a missing feature or bad segment flags, else 1 |
| `BlockExecutor.StdIoBackend.constructor` | virtio-blk/src/stdio_executor.rs:202-222 | whole sectors of the file are visible, a remainder is not |
| `BlockExecutor.StdIoBackend.Create` | virtio-blk/src/stdio_executor.rs:202-222 | fails exactly with the seek; otherwise the guest sees as many whole sectors as the file has |
| `BlockExecutor.StdIoBackend.CheckAccess` | virtio-blk/src/stdio_executor.rs:271-279 | sector plus count neither overflows nor exceeds the device |
| `BlockExecutor.StdIoBackend.DrainBuffers` | virtio-blk/src/stdio_executor.rs:353-359 | the file holds a prefix of the data stream, all of it exactly when every buffer is in memory and no fault occurs |
| `BlockExecutor.StdIoBackend.FillBuffers` | virtio-blk/src/stdio_executor.rs:333-351 | the buffers hold a prefix of the data, all of it exactly when every buffer is in memory and no fault occurs; an error counts the bytes moved |
| `BlockExecutor.StdIoBackend.HandleDiscardWriteZeroes` | virtio-blk/src/stdio_executor.rs:429-477 | a segment is refused for flags or range, or has its effect at exactly 512 times its sector |
| `BlockExecutor.StdIoBackend.ZeroSegments` | virtio-blk/src/stdio_executor.rs:395-421 | the nested loops are the in-order fold over all segments of all descriptors, up to the first error |
| `BlockExecutor.StdIoBackend.Execute` | virtio-blk/src/stdio_executor.rs:305-427 | a request is refused with the first failing check and no effect, or has exactly the effect that the theorems over runs are about |
| `BlockExecutor.StdIoBackend.ProcessRequest` | virtio-blk/src/stdio_executor.rs:250-269 | the byte at the status address is 0, 1 or 2 as `StatusTells` says of the request; the used length is one more than the bytes delivered and never overflows; the only error is an unmapped status address |
| `BlockRuns.EventKeepsByte` | virtio-blk/src/stdio_executor.rs:305-427 | a request, successful or not, changes no byte outside the ranges it names |
| `BlockRuns.RunKeepsByte` | virtio-blk/src/stdio_executor.rs:305-427 | over any run a byte that no request names keeps its value |
| `BlockRuns.ReadOnlyRun` | virtio-blk/src/stdio_executor.rs:281-297 | with F_RO no run of requests changes the file |
| `BlockRuns.RunKeepsRemainder` | virtio-blk/src/stdio_executor.rs:202-222 | no run changes a byte behind the last whole sector |
| `BlockRuns.ReadsWhatWasWritten` | virtio-blk/src/stdio_executor.rs:327-359 | a write, any run that stays off its range, and a read of the range: the reader's buffers hold what the writer's held, under any two segmentations |
| `Console.DeliverIsPour` | virtio-console/src/console.rs:262-281 | when no buffer overlaps the descriptors, walking while writing meets the chain that was there at the start |
| `Console.DeliverConserves` | virtio-console/src/console.rs:262-281 | for any chain, what is left is the end of the buffer, and a success counts exactly the bytes no longer in it |
| `Console.PourSucceeds` | virtio-console/src/console.rs:262-281 | a call succeeds exactly when each descriptor that has to take bytes is writable and mapped as far as it is used |
| `Console.PourSends` | virtio-console/src/console.rs:262-283 | a successful call sends min(buffer length, chain capacity) bytes and keeps the rest |
| `Console.PourStores` | virtio-console/src/console.rs:270-274 | the bytes sent lie in order at the front of the chain's buffers and nothing else changes |
| `Console.PourFails` | virtio-console/src/console.rs:262-281 | a call fails at the first descriptor that has to take bytes and cannot; the buffer has then lost the bytes for all before it, and its own if it is writable |
| `Console.PourDrops` | virtio-console/src/console.rs:262-281 | so a call fails with bytes lost exactly when that descriptor comes after non-empty ones or is writable and not empty |
| `Console.ReceiveCanLose` | virtio-console/src/console.rs:262-281 | a mapped writable buffer followed by a read-only descriptor: four of five bytes are gone |
| `Console.CallConserves` | virtio-console/src/console.rs:237-284 | what arrives and what is left make up what was buffered and accepted, exactly unless the chain makes the call drop bytes or a buffer is cleared |
| `Console.RunConserves` | virtio-console/src/console.rs:159-284 | over a run the bytes found in guest memory followed by the buffer are the bytes enqueued, exactly when no call of it loses any |
| `Console.RunKeepsCapacity` | virtio-console/src/console.rs:159-179 | over any run, failures included, the buffer never exceeds its capacity |
| `Console.Device.NewWithCapacity` | virtio-console/src/console.rs:138-148 | a console exists exactly for capacities from 1 to 16384 |
| `Console.Device.EnqueueData` | virtio-console/src/console.rs:159-171 | data that fits is appended whole, other data is refused whole |
| `Console.Device.AvailableCapacity` | virtio-console/src/console.rs:174-179 | never below zero, and exactly the data up to that length is accepted |
| `Console.Device.ClearInputBuffer` | virtio-console/src/console.rs:182-185 | nothing is left |
| `Console.Device.ProcessReceiveqChain` | virtio-console/src/console.rs:237-284 | memory, buffer and result of the object are those of the delivery that the theorems are about |

## Left out

- ChecksTileTheUsedRing: a check that covers 2^16 or more entries has no promise; `NeedsNotificationOverflow` says what it answers.
- Consumer.Read and Consumer.Write: memory is not changed by others during a call, and dirty bitmaps are not modelled.
- Execute: the sum of the data lengths is an unbounded number; in the source it is a `u64`, which parsed requests never fill.
- Execute: at most one fault interrupts a data transfer, and the file neither grows nor shrinks between requests.
- DescriptorChain.Next: host byte order is little endian, and alignment faults of atomic accesses are not modelled.
- VirtioDevice.Write: at most 65535 queues, as the source assumes; a successful `reset` returns the device to its fresh state, a failing one changes nothing.
- Weak memory ordering: loads and stores interleave sequentially consistently, as the fences in `enable_notification` and `needs_notification` intend.
- `go_to_previous_position`, `set_next_avail` and `set_next_used` inside protocol runs, since a caller can break the counters with them.
- The mutex wrapper in `queue_sync.rs`, serialization in `virtio-queue-ser`, accessors for packed descriptors, and vsock packets: forwarding, copying and per-field checks, which would only add easy members.
- Reading MMIO registers and the configuration space, which changes nothing.
- The transmit queue of the console, and logging and error texts everywhere.
- Regions, slices and copies inside `vm-memory`; they are primitives that succeed or fail here.
