# Verified model of the engine

A Dafny model of the C engine under `engine/`: its message rings, its value serializer, its size-balanced
tree with the tick scheduler on it, its generational ids, the protocol by which sessions and events travel
between threads, and its heap. `dafny verify dfyconfig.toml` checks everything.

## What is modelled

**Message rings** (`Arith`, `Ring`, `BlockRing`, `RingSpans`, `Framing`, `SendBuff`, `RecvBuff`,
`FrameCounts`, `Channel`, `RecvQueue`, `QueueChannel`, `MsgBuff`). Positions are packed block numbers and
offsets, as in the source; ghost counters that only grow say which byte they stand for. Blocks are arrays
allocated on demand and freed by the collector; how many the allocator still has to give is an input, and
every operation says exactly when that is too few. Every operation is a method on those fields and
arrays, proved against the stream of all bytes ever written: `log` is the stream, `taken` how much of it
has been removed. `Channel` joins a send ring, a transport that keeps order, and a receive
ring, and proves what arrives for every run. `RecvQueue` is the second receive implementation, and
`QueueChannel` its runs.

**Serializer** (`LuaValue`, `Pack`, `Packer`, `Unpack`, `Unpacker`, `RoundTrip`, `WireFormat`,
`GraphRoundTrip`, `ArgumentRoundTrip`). Values are a datatype, tables are names in a heap, a table's content is a sequence
of entries. `Pack` and `Unpack` say what bytes mean; `Packer` and `Unpacker` are the growing buffer, the
position, the Lua stack and the recursion of the source, proved equal to them. The round trip is stated
with the packer's numbering of tables as the isomorphism; `WireFormat` says what any bytes mean, packed or
not.

**Tree and ticks** (`SbTree`, `SbTreeDamage`, `SbTreeQueries`, `SbTreeNodes`, `SbTreeRuns`, `Tick`).
`SbTree` has the operations on values and their theorems, `SbTreeNodes` the linked nodes that are
rewritten in place and proved to follow `SbTree`, `SbTreeRuns` whole runs. `SbTreeDamage` is the tree with
its size fields stored, for what a deletion that meets no record does to it, and `SbTreeQueries` what it
answers then. `sb_tree_main_tain` keeps using the old root after a rotation, and the model does too.

**Ids and sessions** (`Ffid`, `FfidRuns`, `NetProtocol`, `NetLogs`, `NetRelease`, `NetEvents`, `NetRuns`,
`NetDelivery`, `NetLookups`, `NetFaults`, `NetRepeats`). `Ffid` is the id array with the free list
threaded through it. The protocol is a transition system: any number of threads, each step one section
that the source runs under a lock, in every interleaving. Threads fetch batches of events, for sessions
nothing has released yet, and look at them one by one later. `close_root` is the tree of `SbTree`, with
its faulting deletion; a lookup in it and the read of the node it found are two steps. `NetLogs` takes from
a run alone what its steps raised, reported, released and deleted, and the theorems speak of that.
`NetRuns` composes runs, `NetFaults` and `NetRepeats` are runs from the start that reach what the theorems exclude. `Options`
holds the option type all share.

**Heap** (`Heap`): the array, its two sift loops, and growing and shrinking.

## Where the code does less than it seems to

These are theorems, with the exact condition where there is one.

- `send_buff_write` accepts payloads whose length with the header no longer fits the header; the reader
  then reports a malformed message (`Framing.AcceptedReadable`).
- `send_buff_write` allocates the block that a payload over several blocks ends in even where it ends before the
  first cell of that block, and fails if it cannot (`SendBuff.SendRing.Accept`).
- Block counts above 32768 are accepted at creation but do not survive packing (`Ring.PackFitsExactly`).
- `recv_buff_consume_vA` reports only the error when a chunk completes frames and also shows a malformed
  header; those frames go unreported, though they can be read (`FrameCounts.CountsAddUp`,
  `FrameCounts.FramesHidden`).
- The version B receive queue offers no more room once the header of an empty payload has arrived
  (`RecvQueue.MessageQueue.Prepare`, `RecvQueue.VersionsAgree`).
- The smallest 64-bit integer is packed as the 8-bit 0 (`RoundTrip.IntegerRoundTrip`), and strings of 2^15
  bytes or more come back only where `size_t` has four bytes (`RoundTrip.StringBackExactly`).
- A negative answer of the version B queue loses the bytes just taken from the socket, and after a failed
  allocation the queue also goes by the length it has stored over the header bytes it counts as taken in
  (`RecvQueue.LengthInHeader`). The stream stays in step exactly while no answer is negative
  (`QueueChannel.StreamKeptExactly`). The engine posts an error and receives again at the owner's next
  read; then payloads that were never sent can be handed out (`QueueChannel.NeverSent`). An owner who
  receives no more after a negative answer is given an initial part of what was sent
  (`QueueChannel.DutifulRunsDeliver`).
- Deleting from the tree does not keep the shape insertion keeps. A run of 23 insertions and 6 deletions
  reaches a tree in which deleting a stored key answers 0, removes nothing and leaves a size field one too
  small (`SbTreeRuns.FaultReachable`); `SbTree.DeleteOutcome` gives the exact condition. Ranks and
  selections can then be off by one, and `sb_tree_index` can follow a link that is not there
  (`SbTreeQueries.RawLtCounts`, `SbTreeQueries.RawWalkAnswers`).
- `lua_tick_reg` leaves the band of its second exactly when the last key of the band is in use; for the
  second -1 the band end wraps (`Tick.ChooseKeyMeaning`).
- `lua_tick_lt` takes the low half of its argument, so it counts ticks before a late second when it is
  asked about a negative one (`Tick.TickScheduler.DueBefore`).
- `heap_pop` at an inner index only moves keys down, so it can leave an array that is no heap
  (`Heap.PopOrdered` for the exact condition, `Heap.PopBreaksHeap` for a heap it breaks).
- Without looping, `ffid_del_id` of the last id of a slot does not reduce `cur_size`: `ffid_size` is the
  number of live ids exactly while no slot is retired (`Ffid.IdArray.Size`, `FfidRuns.SizeCountsRetired`),
  and every array has a run that retires a slot (`FfidRuns.RetiringRun`).
- A session that lingers in `close_root` is released a second time if the deletion of its id meets the
  fault of the tree while another thread waits with an event for it, which happens without any slot being
  used twice (`NetFaults.FaultReleasesTwice`); or if another entry with the same id is taken out instead,
  which needs a slot that has cycled through all its ids (`NetRepeats.SharedIdReleasesTwice`). These are
  all the ways a deletion goes wrong (`NetRelease.DropCleanExactly`, `NetRelease.UniqueIsClean`), and the
  second release takes such an event, or one for a second session with the id
  (`NetLookups.SecondReleaseNeedsEvent`). Without them every session is released at most once
  (`NetRelease.CarefulRunsReleaseOnce`), provided no node is freed between being found and being read,
  which `net_wait` does not ensure (`NetRepeats.NodeFreedBeforeRead`).
- A queue entry that outlives a whole cycle of its slot can clear the flag of another session that still
  waits (`NetRepeats.StaleEntryClearsFlag`); exactly the runs without such a step keep every flagged
  session queued once (`NetEvents.QueuedOnceExactly`). Nothing gets stuck or lost by it: in every run
  pending events can still be delivered (`NetDelivery.PendingCanBeDelivered`, `NetEvents.NoBitIsLost`). A
  queue write that fails strands the events of its session (`NetEvents.LostWriteStrands`).

## Model

| member | source | states |
|---|---|---|
| Ring.SpaceIsFree | engine/net/buff.c:19-33 | For every reachable pair of positions `buff_get_space` is exactly the number of free cells, between 0 and the capacity, across all wrap-arounds of the block numbers. |
| Ring.FullIsEqual | engine/net/buff.c:144-148 | The stored write and read positions are equal exactly when the ring is full, never when it is empty. |
| Ring.PackLossless | engine/net/buff.c:167-172 | Block number and offset come back from the packed position. |
| Ring.PackFitsExactly | engine/net/buff.c:101-121 | Of the block counts creation accepts, exactly those up to 32768 survive packing into 32 bits. |
| Ring.BlockDistance | engine/net/buff.c:19-33 | The writer is between 0 and `pool_cnt` blocks ahead of the reader, and the offsets compare accordingly in the two extreme cases. |
| Ring.AdvanceWrite | engine/net/buff.c:313-316 | Adding to the offset and carrying into the block number modulo `2 * pool_cnt` moves the write position by exactly that many bytes. |
| Ring.AdvanceRead | engine/net/buff.c:374-376 | The same for the read and check positions, which are stored `pool_cnt` blocks ahead. |
| Ring.CellsDiffer | engine/net/buff.c:836-969 | Two positions less than a capacity apart never share a cell, so a write inside the free space overwrites nothing unread. |
| Ring.StoreExtends | engine/net/buff.c:920-927 | Copying a run behind the stream inside one block extends what the ring holds and keeps every unread byte. |
| Ring.AllocKeeps | engine/net/buff.c:893-901 | Putting a fresh block into an empty place loses no unread byte. |
| Ring.RunInBlock | engine/net/buff.c:379-388 | A run inside one block reads back the bytes of the stream at that position, and the block is allocated. |
| BlockRing.CollectedBlock | engine/net/buff.c:35-62 | The collector frees a block exactly when it passes it and the writer is not in it. |
| BlockRing.CollectKeeps | engine/net/buff.c:35-62 | After a read the collector has freed no block holding unread bytes, nor bytes already deposited at the write position, nor the writer's block. |
| BlockRing.CollectorReaches | engine/net/buff.c:44-58 | The collector's loop always arrives at the reader's block, in fewer than `2 * pool_cnt` rounds. |
| BlockRing.BlockArray.GcHelp | engine/net/buff.c:35-62 | The loop in place, equal to the specification above, with `freeH` ending at the reader's block. |
| BlockRing.BlockArray.EnsureBlock | engine/net/buff.c:182-192 | A missing block is allocated exactly if the allocator has one to give, and nothing else changes. |
| BlockRing.BlockArray.Append | engine/net/buff.c:893-905 | Copying a run behind the stream extends it, unless its block is missing and the allocator has none to give, which leaves the stream as it was. |
| BlockRing.TookExactly | engine/net/buff.c:893-955 | Coming to any number of blocks, an operation goes through exactly when the allocator has one for every missing block among them, and takes exactly as many. |
| Framing.LowBytesValue | engine/net/buff.c:891-907 | A length written to a header of `en_byte` bytes is read back as itself exactly when it is below 256 to the power `en_byte`. |
| Framing.LowBytesTruncated | engine/net/buff.c:855-863 | The lengths the size test lets through but the header cannot hold lose exactly one modulus. |
| Framing.AcceptedReadable | engine/net/buff.c:855-907 | A payload that `send_buff_write` accepts is recognised exactly when its length together with the header fits the header; otherwise the reader reports a malformed message. |
| Framing.FrameRecognised | engine/net/buff.c:219-259 | A frame that fits is recognised exactly when it is complete, whatever follows it and however the bytes are cut. |
| Framing.GainStable | engine/net/buff.c:244-258 | Once a size or an error is reported, more bytes never change it. |
| Framing.StopIsFinal | engine/net/buff.c:276-293 | Counting frames stops only at an incomplete frame or a malformed header. |
| Framing.ScanResumes | engine/net/buff.c:261-295 | Resuming the scan at the last frame boundary finds the same frames as scanning everything again. |
| Framing.EncodeAllConcat | engine/net/buff.c:836-969 | The stream of two lists of payloads written one after the other is the two streams joined. |
| Framing.GainOfEncoded | engine/net/buff.c:219-259 | On any prefix of a stream of frames that fit the reader sees the first payload when it is complete, otherwise nothing, and never an error. |
| SendBuff.ShiftedBytes | engine/net/buff.c:902 | Shifting left and back in 32 bits yields the i-th byte of the length, for every header size. |
| SendBuff.ShiftedZero | engine/net/buff.c:857-863 | The loop that shifts the size right finds it non-zero exactly when the size needs more bytes than the header has. |
| SendBuff.SendRing.ExceedsHeader | engine/net/buff.c:857-863 | The size test refuses exactly the payloads of 256 to the power `en_byte` bytes and more. |
| SendBuff.SendRing.Prepare | engine/net/buff.c:753-796 | The run offered is the front of the queued bytes, lies inside one allocated block, and is all of them or all that the block holds. |
| SendBuff.SendRing.Consume | engine/net/buff.c:798-832 | Exactly the consumed bytes leave the queue; the rest stays allocated and in order, and exactly the passed blocks are freed. |
| SendBuff.SendRing.PutHeader | engine/net/buff.c:890-907 | The header bytes are stored across block boundaries, unless the allocator has fewer blocks than are missing, which leaves the stream as it was. |
| SendBuff.SendRing.PutPayload | engine/net/buff.c:908-964 | The payload is stored, within a block or over several, and the write position moves by its length, unless the allocator has fewer blocks than are missing of those it comes to, which leaves the stream as it was. |
| SendBuff.SendRing.PutBlocks | engine/net/buff.c:935-949 | The loop over whole blocks stores that many bytes in order, with as many blocks taken from the allocator as were missing. |
| SendBuff.SendRing.Accept | engine/net/buff.c:890-968 | A frame that there is room for is appended exactly if the allocator has a block for every missing one it comes to, which includes the one it ends in even where it ends before its first cell; as many are taken. |
| SendBuff.SendRing.Write | engine/net/buff.c:836-969 | An accepted write appends exactly the frame; 0 is answered exactly for a negative size, a size beyond the header, or a frame larger than the free space; -1 exactly when there is room and the allocator has fewer blocks than are missing of those the frame comes to; in every refusal the stream is unchanged. |
| RingSpans.AlignedRun | engine/net/buff.c:935-948 | The i-th block after a position is the block of the byte that far ahead, for writer and reader, across wrap-around. |
| RingSpans.SpanPlan | engine/net/buff.c:930-963 | Rest, whole blocks and remainder add up to the payload, and the final block and offset are those of the end of the payload. |
| RingSpans.BlocksEqual | engine/net/buff.c:772-784 | The test of `send_buff_prepare` holds exactly when reader and writer are in the same block and the writer has not come round. |
| RingSpans.ContiguousQueued | engine/net/buff.c:775-785 | What `send_buff_prepare` computes is the smaller of the queued bytes and the rest of the block, which is a queued run. |
| RingSpans.Forward | engine/net/buff.c:313-316 | The position arithmetic every operation repeats, for both encodings. |
| RecvBuff.GainMsgSize | engine/net/buff.c:219-259 | Reading the header byte by byte across blocks gives exactly the size, the wait or the error that the queued bytes call for. |
| RecvBuff.GainHeader | engine/net/buff.c:237-243 | The loop puts together the number whose little-endian bytes lie at the read position. |
| RecvBuff.AppendByte | engine/net/buff.c:242 | One more header byte adds its value at the next power of 256. |
| RecvBuff.FreeRun | engine/net/buff.c:193-200 | The run `recv_buff_prepare_vA` offers lies wholly inside the free space and inside one block. |
| RecvBuff.RecvRing.Prepare | engine/net/buff.c:150-216 | Offered is the smaller of the free bytes and the rest of the block of the write position, and nothing exactly when the ring is full or that block is missing and the allocator has none to give. |
| RecvBuff.RecvRing.CheckNewMsg | engine/net/buff.c:261-295 | The check position ends behind the last complete frame, and the answer is the number of frames passed or the error that stopped it. |
| RecvBuff.RecvRing.Consume | engine/net/buff.c:297-325 | The received bytes join the stream in order and the answer is the number of frames they complete, or the error of a malformed header behind them. |
| RecvBuff.NextFrame | engine/net/buff.c:359-409 | Taking the frame in front leaves the reader on a frame boundary, not beyond the check position. |
| RecvBuff.TakenBeforeChecked | engine/net/buff.c:288-291 | The check position is a frame boundary between the read and the write position. |
| RecvBuff.RecvRing.CopyOut | engine/net/buff.c:379-409 | The payload copied out is the stream's bytes at that place, within a block or over several. |
| RecvBuff.RecvRing.Read | engine/net/buff.c:328-419 | The oldest complete payload is handed out byte for byte, its frame removed and exactly the passed blocks freed; a buffer that is too small is told the size and changes nothing; otherwise 0 or the error, and nothing changes. |
| FrameCounts.CountsAddUp | engine/net/buff.c:261-325 | For every way of cutting the stream into chunks, the positive answers add up to the number of complete frames exactly when no chunk completes frames and also shows a malformed header behind them; they never exceed it. |
| FrameCounts.WellFormedCounts | engine/net/buff.c:297-325 | In a stream without malformed headers every complete frame is reported exactly once, for every chunking. |
| FrameCounts.ErrorStays | engine/net/buff.c:278-283 | A malformed header stops every later scan at the same place with the same error. |
| FrameCounts.FramesHidden | engine/net/buff.c:280-283 | A concrete chunk whose complete frame goes unreported because of the header behind it. |
| FrameCounts.OneFramePerPayload | engine/net/buff.c:261-295 | A stream of frames that fit contains exactly one counted frame per payload. |
| Channel.GainOfAccepted | engine/net/buff.c:219-259 | At the front of any accepted stream: a frame exactly when it is complete and fits the receiver, an error exactly when the header of one that does not fit has arrived. |
| Channel.NextDelivery | engine/net/buff.c:328-419 | Whatever is read is the next accepted payload; with everything arrived and nothing to read, all payloads were delivered; an error means the next one does not fit. |
| Channel.RoomToProgress | engine/net/buff.c:150-216 | No deadlock: while a payload that fits is outstanding and nothing can be read, the receiver has room and bytes are still under way. |
| Channel.QueuedIsPrefix | engine/net/buff.c:836-969 | The bytes at the receiver, under way and at the sender together are the frames still to be delivered. |
| Channel.Connection.Write | engine/net/buff.c:836-969 | A write either appends its payload to what was accepted and answers its size, or changes nothing and answers 0 or the memory error; 0 exactly when the payload does not fit the header or the frame does not fit the free space; it is accepted exactly when it fits both and the allocator has a block for every missing one the frame comes to. |
| Channel.Connection.Transmit | engine/net/buff.c:753-832 | The transport gets the smallest of what it takes, what is queued and the rest of the block; no byte is lost or duplicated. |
| Channel.Connection.Receive | engine/net/buff.c:297-325 | The receiver gets in order the smallest of what is delivered, what is under way and what it offers, and nothing exactly when that is nothing or it has no block. |
| Channel.Connection.Read | engine/net/buff.c:328-419 | What is read is the next accepted payload; something is read exactly when its frame is complete and the buffer is large enough; otherwise the answer is its size, an error for one that does not fit, or 0, and then everything was read once both queues are drained. |
| Channel.Connection.Run | engine/net/buff.c:665-687 | Every run of the four operations, in any order and with chunks of any size, does step for step what the specification says: a write is accepted exactly if it fits and its missing blocks can be had, bytes move as many as limit, queue and block allow, a read hands out the frame in front; and the payloads read are an initial part of the payloads accepted, byte for byte and in order. |
| RecvQueue.MessageQueue.Prepare | engine/net/buff.c:480-515 | Offered is exactly what the current header or payload lacks; nothing exactly when the queue is full or the header of an empty payload was taken in. |
| RecvQueue.MessageQueue.Consume | engine/net/buff.c:519-600 | The bytes complete a message, are taken in, or are refused with the error of their header, or begin a payload that the allocator does not grant a buffer for; then the front of the next header is what the length stored over it left in the cell; the messages waiting are untouched by any answer. |
| RecvQueue.LengthInHeader | engine/net/buff.c:546-577 | Of the cell alone: what the length stored over the header before the buffer is there leaves of the header bytes taken in earlier is those bytes only if there were none. |
| RecvQueue.MessageQueue.Read | engine/net/buff.c:602-631 | The oldest finished message is handed over whole, once, and its slot cleared; 0 and nothing else when none is there. |
| RecvQueue.TakenInExactly | engine/net/buff.c:519-600 | Finished messages and partial one together are byte for byte the chunks that were taken in. |
| RecvQueue.VersionsAgree | engine/net/buff.c:480-631 | Both receive versions find the same payloads in the same bytes, except that the queue never gives out an empty payload whose header it has taken in. |
| QueueChannel.Receiver.Receive | engine/net/epoll_service.c:171-229 | Received is the smallest of what the transport delivers, what is under way and what is offered, whatever earlier answers were; an allocation fails exactly if a payload begins and no buffer is granted; a stream in step stays in step exactly if the answer is not negative; a negative answer other than for memory means that the next payload does not fit. |
| QueueChannel.Receiver.Read | engine/net/buff.c:602-631 | The oldest completed message is handed out; in a stream in step, once all bytes have arrived and nothing is found, all payloads were handed out or the next one is empty. |
| QueueChannel.Receiver.Run | engine/net/net_service.c:645-671 | Every run of writes, receptions in chunks of any size, failed allocations and reads is a run of the specification; if the owner lets nothing be received after a negative answer, the payloads handed out are an initial part of those sent, byte for byte and in order. |
| QueueChannel.ReceptionKeepsStream | engine/net/epoll_service.c:191-207 | What was taken in and what is under way remain the frames of what was sent exactly when the answer of the reception is not negative; every negative answer loses the bytes it has taken from the socket. |
| QueueChannel.StreamKeptExactly | engine/net/epoll_service.c:191-207 | Over whole runs: the stream is in step at the end exactly when no answer was negative; it never comes back into step. |
| QueueChannel.DutifulRunsDeliver | engine/net/buff.c:480-631 | In every run in which nothing is received after a negative answer, the messages completed are an initial part of the payloads sent. |
| QueueChannel.NeverSent | engine/net/epoll_service.c:251-270 | The duty is needed: a run from the start in which a payload never sent is handed out, as reception goes on after the allocation for its header failed. |
| QueueChannel.FramesMatch | engine/net/buff.c:519-600 | Whole frames in front of a stream of accepted payloads are the frames of the first payloads, even where later lengths are truncated. |
| RecvQueue.DecodeOfEncoded | engine/net/buff.c:328-419 | Decoding a stream of frames that fit gives the payloads and leaves the rest. |
| Framing.BytesOfValue | engine/net/buff.c:548-565 | A header read as a length and written again is the same bytes. |
| RecvQueue.WholeHeader | engine/net/buff.c:546-563 | The tests on a completed header decide exactly as the byte ring does. |
| RecvQueue.QueueFull | engine/net/buff.c:496 | The positions are equal exactly when every slot holds an unread message. |
| RecvQueue.QueueEmpty | engine/net/buff.c:611-618 | The positions are half a round apart exactly when no message waits. |
| RecvQueue.OthersWait | engine/net/buff.c:538-598 | Filling the current slot touches no finished message. |
| RecvQueue.SlotCleared | engine/net/buff.c:622-623 | Clearing the slot of the message read leaves all later ones. |
| MsgBuff.MessageRing.Write | engine/net/buff.c:1040-1089 | 1 and the message queued last, 0 exactly when the ring is full, -1 exactly when the block of its place is missing and the allocator has none to give; nothing is queued then. |
| MsgBuff.MessageRing.Read | engine/net/buff.c:1091-1136 | The oldest messages in order, as many as are queued and asked for; exactly the passed blocks are freed. |
| MsgBuff.MessageRing.Size | engine/net/buff.c:1138-1166 | The number of queued messages. |
| LuaValue.RenameInjective | engine/lualib/serialize.c:274-296 | Numbering the tables keeps different values different, so keys do not collide. |
| LuaValue.NumberStable | engine/lualib/serialize.c:294-296 | A table keeps its number when more tables are met. |
| LuaValue.FloatKeyMeaning | thirdlib/lua5.3/src/ltable.c:85-94 | A float key becomes an integer key exactly when its value, computed without rounding, is that 64-bit integer. |
| LuaValue.KeyMeaning | thirdlib/lua5.3/src/ltable.c:439-451 | For every value: exactly nil and the doubles that are no number are refused as keys; a float of an integral value stands under that integer, and every other value under itself. |
| LuaValue.PartsOfDouble | engine/lualib/serialize.c:168-173 | Sign, exponent and fraction make up the eight bytes of a double, so they are its binary64 parts. |
| LuaValue.GetAfterSet | engine/lualib/serialize.c:574 | After an entry is set, its key has the value and every other key what it had. |
| LuaValue.NewKeyAppends | engine/lualib/serialize.c:574 | Setting a key the table does not have appends exactly its entry and touches no other; setting it to nil changes nothing. |
| Pack.VisitedOne | engine/lualib/serialize.c:287-311 | Packing a new table leaves fewer tables to visit, which is why packing cyclic tables ends. |
| RoundTrip.IntegerBack | engine/lualib/serialize.c:381-433 | A two's complement integer of 1, 2, 4 or 8 bytes is read back as itself. |
| RoundTrip.IntegerRoundTrip | engine/lualib/serialize.c:130-166 | An integer comes back exactly when it is not the smallest 64-bit one, which comes back as 0 because its negation wraps. |
| RoundTrip.StringRoundTrip | engine/lualib/serialize.c:176-206 | A string comes back with exactly its bytes consumed if it is shorter than 2^15, or `size_t` has 4 bytes. |
| RoundTrip.LongStringLost | engine/lualib/serialize.c:202-205 | With an 8-byte `size_t` no longer string comes back, however long: the low half of its length is taken for its length and the high half for its first bytes. |
| RoundTrip.StringBackExactly | engine/lualib/serialize.c:176-206 | Of the strings a word can count, exactly those come back that are shorter than 2^15, or all where `size_t` has 4 bytes. |
| RoundTrip.ScalarBack | engine/lualib/serialize.c:631-699 | Every value without tables comes back, with exactly its bytes consumed. |
| GraphRoundTrip.ValueBack | engine/lualib/serialize.c:320-355 | Unpacking a packed value gives the value with tables renamed to their numbers, and extends the table list exactly as the packer extended its own. |
| GraphRoundTrip.TableBack | engine/lualib/serialize.c:269-318 | A new table gets the same number on both sides before its content is looked at. |
| GraphRoundTrip.EntriesBack | engine/lualib/serialize.c:543-577 | Reading a content entry by entry rebuilds it, with nested new tables complete and outer tables untouched. |
| GraphRoundTrip.RefBack | engine/lualib/serialize.c:519-539 | A reference leads back to the table with that number. |
| ArgumentRoundTrip.ArgsBack | engine/lualib/serialize.c:702-747 | The arguments come back one after the other up to the number asked for. |
| ArgumentRoundTrip.UnpackingPacked | engine/lualib/serialize.c:357-373 | The round trip, for every heap whose keys are not nil, not NaN and no floats of integral values: same values, exactly the emitted bytes, and a table list isomorphic to what the values reach, with sharing, cycles and tables as keys. |
| ArgumentRoundTrip.ExactlyReachable | engine/lualib/serialize.c:269-318 | The tables carried are the least set that contains those of the arguments and is closed under reference. |
| ArgumentRoundTrip.VisitsReachable | engine/lualib/serialize.c:274-296 | No table is numbered twice, and none that cannot be reached. |
| Packer.SerializeData.CheckRoom | engine/lualib/serialize.c:53-94 | Exactly which buffer the bytes end up in: the one there is, the first one, a larger one, or none, when neither is large enough and the allocator has none to give; those already packed are kept in all but the last case. |
| Packer.SerializeData.PackBytes | engine/lualib/serialize.c:96-110 | Appends exactly the bytes; or the memory error is set and nothing is left, which the bytes fitting the first buffer or a buffer for every 1024 rules out; an earlier error stays and nothing changes. |
| Packer.SerializeData.PackInteger | engine/lualib/serialize.c:130-166 | Emits the bytes of the specification for every 64-bit integer, or the memory error under the same condition. |
| Packer.SerializeData.PackString | engine/lualib/serialize.c:176-206 | Emits tag, length and bytes as specified, or the memory error under the same condition. |
| Packer.SerializeData.PackObject | engine/lualib/serialize.c:320-355 | Emits exactly the specified bytes and numbers the tables in the specified order, or the memory error under the same condition. |
| Packer.SerializeData.PackTable | engine/lualib/serialize.c:269-318 | The same for a table, by reference if it was met before. |
| Packer.SerializeData.Serialize | engine/lualib/serialize.c:357-373 | The buffer holds exactly the packed argument list, or the memory error is answered: never if the bytes fit the first buffer or the allocator has a buffer for every 1024 of them, always if they do not fit it and the allocator has none. |
| Unpack.UnpackObject | engine/lualib/serialize.c:631-699 | On every byte string: ends, never reads beyond the end, moves on at every tag, and yields one value except at the end of the bytes or of a table. |
| Unpack.UnpackEntries | engine/lualib/serialize.c:543-577 | On every byte string the loop over a content ends, behind its end tag and with one value, or with an error. |
| WireFormat.ObjectMeaning | engine/lualib/serialize.c:631-699 | On every byte string, packed by this packer or not: an object without a content is read as a value exactly when the bytes are one of the wire forms of that value, and a reference leads to one of the tables made so far. |
| WireFormat.NoMeaning | engine/lualib/serialize.c:631-699 | Any other such object is the end of a table, user data, or an error, exactly by its tag and by spelling no value. |
| WireFormat.ContentExactly | engine/lualib/serialize.c:543-577 | On every byte string a content is read as an outcome exactly when a run over its entries, each set under what its key stands for, leads to where the content stops with that outcome. |
| WireFormat.RaisedExactly | engine/lualib/serialize.c:543-577 | A Lua error is raised exactly where an entry is read whose key is nil or no number, in the table or in one inside it. |
| Unpack.UnpackArgs | engine/lualib/serialize.c:702-747 | The whole loop ends on every byte string, inside the bytes, and only ever adds to the values. |
| Unpacker.DeserializeData.UnpackObj | engine/lualib/serialize.c:631-699 | Position, stack, table list and error are exactly what the specification says, and the position never leaves the bytes. |
| Unpacker.DeserializeData.UnpackTable | engine/lualib/serialize.c:543-577 | The same for a table: keys and values leave the stack as they are set, and one value remains. |
| Unpacker.DeserializeData.Deserialize | engine/lualib/serialize.c:702-747 | On success the answer is the number of values left on the stack; after an error it is 0. |
| SbTree.LiftLeftDecreases | engine/tool/sbtree.c:62-80 | Every rotation that fires keeps the size and strictly reduces the sum of all subtree sizes; the first recursive call is on a subtree of the new root's right child. |
| SbTree.LiftRightDecreases | engine/tool/sbtree.c:81-100 | The mirrored case. |
| SbTree.Maintain | engine/tool/sbtree.c:55-103 | The recursion ends on every tree, balanced or not, and keeps the size field exact. |
| SbTree.MaintainEntries | engine/tool/sbtree.c:55-103 | Rebalancing changes neither what is stored nor its order. |
| SbTree.MaintainShape | engine/tool/sbtree.c:55-103 | Rebalancing keeps the shape: any node of size 3 or more has two children. |
| SbTree.InsertEntries | engine/tool/sbtree.c:105-127 | The new entry lands behind every entry with a key not above it, and nothing else moves. |
| SbTree.InsertSorted | engine/tool/sbtree.c:105-127 | Insertion keeps the keys in order. |
| SbTree.InsertShape | engine/tool/sbtree.c:105-127 | Insertion keeps the shape. |
| SbTree.DeleteMaxEntries | engine/tool/sbtree.c:142-156 | The inner deletion takes exactly the last entry. |
| SbTree.DeleteOutcome | engine/tool/sbtree.c:142-218 | On any tree, exactly when deletion removes the matched entry, answers that nothing is there, or hits a missing record: the last happens exactly when the first match stands for three or more entries and has no left child. |
| SbTree.FindIsMatch | engine/tool/sbtree.c:238-255 | A search finds the value of the very entry that a deletion of the key would match, and nothing exactly when there is no match. |
| SbTree.MatchIndexMeaning | engine/tool/sbtree.c:158-197 | On ordered keys the search finds a match exactly for the stored keys. |
| SbTree.DeleteFromShape | engine/tool/sbtree.c:207-218 | From a tree of the invariant shape deletion answers 1 exactly for a stored key, takes exactly one entry with it, and keeps order and sizes. |
| SbTree.SelectIsEntry | engine/tool/sbtree.c:257-284 | Selecting index i gives the i-th entry in order. |
| SbTree.LtIsCount | engine/tool/sbtree.c:286-298 | The rank of a key is the number of smaller keys. |
| SbTree.FindCntIsCount | engine/tool/sbtree.c:220-236 | The multiplicity counts all entries with the key. |
| SbTree.RankSelectInverse | engine/tool/sbtree.c:257-298 | Rank and select invert each other. |
| SbTree.RankSplits | engine/tool/sbtree.c:286-298 | The entries below, at and above a key are three consecutive runs cut at its rank. |
| SbTreeDamage.RawMaintain | engine/tool/sbtree.c:55-103 | With one size field one too small, as after a fault, the recursion still ends, and leaves at most that shortage. |
| SbTreeDamage.RawMaintainRound | engine/tool/sbtree.c:55-103 | One round of rotations and the first recursive call keep the shortage within one and strictly reduce what the recursion goes by. |
| SbTreeDamage.RawMaintainEntries | engine/tool/sbtree.c:55-103 | Rebalancing by wrong sizes changes neither what is stored nor its order. |
| SbTreeDamage.RawMaintainExact | engine/tool/sbtree.c:55-103 | On exact size fields this is the rebalancing of the tree without fields. |
| SbTreeDamage.FaultedEntries | engine/tool/sbtree.c:158-218 | The deletion that meets no record, and all the rebalancing after it, leaves every entry in its place. |
| SbTreeDamage.RawFindMeaning | engine/tool/sbtree.c:238-255 | On ordered keys a search finds exactly the stored keys, whatever the size fields say. |
| SbTreeQueries.FaultedUnder | engine/tool/sbtree.c:158-204 | After a fault no size field counts more than there is below it. |
| SbTreeQueries.RawLtCounts | engine/tool/sbtree.c:286-298 | With one field too small at most, the rank counts the smaller keys, but for one exactly if the search passes a subtree with too small a field. |
| SbTreeQueries.RawWalkAnswers | engine/tool/sbtree.c:257-284 | The walk to an index gives the entry there, the next one exactly if it passes such a subtree, and comes to a missing child exactly if the innermost subtree entered to the left ends before that entry. |
| SbTreeRuns.RunRefinesList | engine/tool/sbtree.c:105-218 | Every run that meets no fault does to the stored sequence exactly what it does to a plain ordered list. |
| SbTreeRuns.PutsKeepShape | engine/tool/sbtree.c:129-140 | A run of insertions never loses the shape, so the deletion after it is safe. |
| SbTreeRuns.InsertionsBuild | engine/tool/sbtree.c:105-127 | Every balanced tree with distinct ordered keys is the result of some insertions. |
| SbTreeRuns.FaultReachable | engine/tool/sbtree.c:174-204 | A run of 23 insertions of distinct keys and 6 deletions that each remove an entry reaches a tree in which deleting a key stored once removes nothing, keeps every entry, and leaves a size field one too small; the search for the last index then comes to a child that is not there. |
| SbTreeRuns.FaultLeavesShortage | engine/tool/sbtree.c:55-103 | The rotation at the matched node leaves its size field over the wrong children, and nothing above repairs it. |
| SbTreeRuns.ShapeExcluded | engine/tool/sbtree.c:174-184 | A fault only ever happens on a tree that has lost the shape. |
| SbTreeNodes.LeftRotate | engine/tool/sbtree.c:27-39 | The links and stored size fields become those of the rotated tree, within the same nodes, exact or not. |
| SbTreeNodes.RightRotate | engine/tool/sbtree.c:41-53 | The mirrored rotation. |
| SbTreeNodes.MainTain | engine/tool/sbtree.c:55-103 | On linked nodes, with exact size fields or one that is one too small: the result is the specified tree, field for field, on the same nodes. |
| SbTreeNodes.KeptExact | engine/tool/sbtree.c:55-103 | From exact size fields it is the rebalanced tree with exact size fields. |
| SbTreeNodes.InsertNode | engine/tool/sbtree.c:105-127 | On linked nodes: the result is the specified tree, with exactly the new node added. |
| SbTreeNodes.DeleteMaxNode | engine/tool/sbtree.c:142-156 | On linked nodes: unlinks exactly the node of the last entry. |
| SbTreeNodes.DeleteNode | engine/tool/sbtree.c:142-205 | On linked nodes: the specified outcome, the unlinked node holding the specified entry; a fault exactly when the specification has one, and then no node is unlinked, the answer is 0, and the nodes are the specified damaged tree, rebalanced at and above the match. |
| SbTreeNodes.FindCntOf | engine/tool/sbtree.c:220-236 | On linked nodes, the multiplicity of the key. |
| SbTreeNodes.LtOf | engine/tool/sbtree.c:286-298 | On linked nodes, the rank by the stored size fields, which is the number of smaller keys where they are exact. |
| SbTreeNodes.IndexOf | engine/tool/sbtree.c:257-284 | On linked nodes, the node that the walk by the stored size fields ends at, none beyond the field of the root, and whether it follows a link that is not there. |
| SbTreeNodes.ExactWalk | engine/tool/sbtree.c:257-284 | With exact size fields no link is missing, and the node is that of the i-th entry. |
| Tick.FirstKeyBands | engine/lualib/lua_tick.c:38-45 | Consecutive seconds own consecutive bands of 2^32 keys; only the second -1 has the wrapped band 0 behind it. |
| Tick.ChooseKeyMeaning | engine/lualib/lua_tick.c:26-58 | The chosen key lies in the band of its second, is new and larger than all keys of that second, exactly when the last key of the band is not in use (except for the second -1). |
| Tick.DeletionFaults | engine/lualib/lua_tick.c:66-73 | Removing a tick does what it should unless the tree has a hollow match for the key. |
| Tick.TickScheduler.Reg | engine/lualib/lua_tick.c:26-64 | Returns the chosen key and registers it in order, or registers nothing exactly when the allocator does not grant a node. |
| Tick.TickScheduler.Unreg | engine/lualib/lua_tick.c:66-73 | Removes exactly one tick with the key, or nothing if there is none, or meets the fault of the tree, which leaves every tick in place and at most one size field too small. |
| Tick.TickScheduler.Index | engine/lualib/lua_tick.c:81-95 | The i-th tick in order; after a fault the next one exactly if the search passes a subtree with too small a field, and a missing child exactly if the subtree it is in ends before that one. |
| Tick.TickScheduler.DueBefore | engine/lualib/lua_tick.c:97-107 | The ticks due before a second are exactly the first so many in index order, where of any 64-bit argument the low half is the second; after a fault one less exactly if the search passes a subtree with too small a field. |
| Ffid.NextValue | engine/tool/ffid.c:94-106 | The value computed for the next use is one stride further, or the slot number itself exactly when that would reach the limit. |
| Ffid.ValuesDiffer | engine/tool/ffid.c:57-71 | Values of different slots always differ, and those of one slot within a cycle. |
| Ffid.TakePoolOk | engine/tool/ffid.c:57-71 | Handing out keeps live, free and retired slots apart. |
| Ffid.GivePoolOk | engine/tool/ffid.c:85-118 | Giving back keeps live, free and retired slots apart. |
| Ffid.ContentsBySlot | engine/tool/ffid.c:73-83 | The content of a cell tells whether its slot is live. |
| Ffid.ReturnedValue | engine/tool/ffid.c:94-106 | What deletion stores for the next use, and whether the slot is retired instead. |
| Ffid.IdArray.constructor | engine/tool/ffid.c:26-47 | The initial array threads all slots in order into the free list, ending at the limit. |
| Ffid.IdArray.NewId | engine/tool/ffid.c:57-71 | 0 exactly when no slot is free, else one more than the pending value of the first free slot, which becomes live. |
| Ffid.IdArray.HasId | engine/tool/ffid.c:73-83 | True exactly for live ids. |
| Ffid.IdArray.DelId | engine/tool/ffid.c:85-118 | A live slot goes to the end of the free list with its next value, or is retired; the list stays threaded and acyclic. |
| Ffid.IdArray.Size | engine/tool/ffid.c:120-124 | The live slots and the retired ones together; the number of live ids exactly when no slot is retired, and always with looping. |
| Ffid.IdArray.IdAt | engine/tool/ffid.c:132-144 | The live id of the slot, 0 exactly for slots that are not live. |
| FfidRuns.NoIdTwice | engine/tool/ffid.c:57-118 | Without looping no id is ever issued twice, over whole runs. |
| FfidRuns.WholeCycleBeforeRepeat | engine/tool/ffid.c:57-118 | With looping, between two issues of one id every value of its slot below the limit was issued. |
| FfidRuns.FirstInFirstOut | engine/tool/ffid.c:107-116 | Slots are reused in the order in which they became free. |
| FfidRuns.SlotsPartition | engine/tool/ffid.c:57-118 | Every slot is live, free or retired and never two of these; with looping none is retired. |
| FfidRuns.RetiredUsedUp | engine/tool/ffid.c:94-100 | A retired slot was given every value it owns. |
| FfidRuns.SizeCountsRetired | engine/tool/ffid.c:94-118 | In every run the slots not free are the live and the retired ones, and just the live ones exactly while none is retired. |
| FfidRuns.RetiringRun | engine/tool/ffid.c:94-100 | For every array without looping a run after which one slot is retired and all others are live, so that the size is one above the number of live ids. |
| NetProtocol.InstallSlots | engine/net/net_service.c:380-383 | The array cell is empty when a session is installed, so no live session is overwritten. |
| NetProtocol.DeleteIdSlots | engine/net/epoll_service.c:887-889 | `ffid_del_id` is called with a live id, and never twice for one issue. |
| NetProtocol.StepKeepsSlots | engine/net/net_service.c:362-385 | Every step of every thread keeps the invariant on slots, cells and threads. |
| NetRelease.CellsHoldLiveSessions | engine/net/net_service.c:362-385 | In every reachable state a non-null `sessions[i]` holds a session whose id is live and maps to slot i. |
| NetRelease.IdDeletedOncePerIssue | engine/net/epoll_service.c:832-890 | In every run no two of its calls of `ffid_del_id` are for the same issue of an id. |
| NetRelease.RecentIdsDiffer | engine/net/epoll_service.c:832-890 | Until its slot has cycled, a session shares its id with no other. |
| NetRelease.StepKeepsRelease | engine/net/epoll_service.c:832-890 | Every step keeps the release invariant, if a deletion takes out the entry of its own session and a node is read while it holds what was found. |
| NetRelease.ReleasedAtMostOnce | engine/net/epoll_service.c:316-327 | In every run of such steps each session object is released at most once, in close or through `close_root`. |
| NetRelease.CarefulRunsReleaseOnce | engine/net/epoll_service.c:316-327 | The same for every run in which no deletion from `close_root` meets a hollow match, no two entries share an id when one is deleted, and every node is read before it is freed. |
| NetRelease.DropCleanExactly | engine/net/epoll_service.c:316-327 | A release leaves no released session findable exactly when its deletion takes out its own entry: no hollow match, and no other entry with the id matched first. |
| NetRelease.UniqueIsClean | engine/net/epoll_service.c:316-327 | While the ids in `close_root` differ, that is exactly when the match is not hollow. |
| NetRelease.RecentIsUnique | engine/net/epoll_service.c:868-882 | The ids in `close_root` differ as long as no session lingers there until its slot has cycled. |
| NetRelease.UncleanReleasesAgain | engine/net/epoll_service.c:471-489 | After a release that leaves its own entry, a thread with an event for the id finds the released session and releases it a second time, unless another session is installed under the id or a third entry has it. |
| NetRelease.SecondSessionReleasesAgain | engine/net/epoll_service.c:471-489 | Under the same conditions so does a thread without one, by fetching an event for a second session with the id. |
| NetLookups.SecondReleaseNeedsEvent | engine/net/epoll_service.c:456-482 | Conversely, after a release through `close_root`, itself clean or not, that no unclean one preceded, no run releases the session again in which no thread has an event for its id left, none is fetched for another session with it, and no freed node is read. |
| NetLookups.NotReleasedWithoutEvent | engine/net/epoll_service.c:456-482 | The same from any state, whatever earlier releases did, for a released session that is out of the array and that no thread has hold of. |
| NetLookups.StepKeepsOwn | engine/net/epoll_service.c:316-327 | In every run, whatever deletions did to the tree, each entry stands under the id of its session. |
| NetFaults.FaultReleasesTwice | engine/net/epoll_service.c:456-489 | A run from the start, with two threads and no slot used twice, that releases a session twice: both had fetched an event for it, and the deletion of its entry by the first met the fault of the tree. |
| NetRepeats.SharedIdReleasesTwice | engine/net/epoll_service.c:471-489 | A run from the start, with two threads and no fault, that releases a session twice: a second entry with its id was turned in front of its own between lookup and deletion, and an event for that second session leads back to it. |
| NetRepeats.NodeFreedBeforeRead | engine/net/epoll_service.c:476-482 | A run from the start after which a thread is about to read a node that another release has freed since it was found. |
| NetEvents.EntryReachesOwner | engine/net/net_service.c:539-555 | An entry reaches the session it was queued for, or none, unless its slot has cycled through all its ids. |
| NetEvents.EntryReachesOwnerInEveryRun | engine/net/net_service.c:539-555 | The same in every run from the start, recent or not. |
| NetEvents.StepKeepsBits | engine/net/net_service.c:474-562 | Every step of every thread, without exception, keeps entries with their sessions and raised bits pending or reported. |
| NetEvents.NoBitIsLost | engine/net/net_service.c:474-562 | In every run the bits its steps raised on any session are those its steps reported and those that are pending, which are exactly the ones raised since the last report; a session with pending bits is flagged. |
| NetLogs.RaisedIsReported | engine/net/net_service.c:474-562 | From any state: what a step raises is reported in a later step or still pending; a report before does not count. |
| NetLogs.PendingExactly | engine/net/net_service.c:474-562 | From any state and after every run, pending is exactly what was raised since the last report. |
| NetLogs.LogsOfTheRun | engine/net/epoll_service.c:832-890 | The fields in which a session collects bits, reports, releases, node moves and failed writes, and the list of deleted ids, agree with what the steps of the run did. |
| NetRuns.PushAny | engine/net/net_service.c:474-496 | Raising bits adds them to the events whether the session is flagged or not; it is flagged then, and its id queued exactly if it was not and the write succeeds. |
| NetRuns.DelayAny | engine/net/net_service.c:456-472 | The same for the delayed writes, which leave the events alone. |
| NetRuns.FindAny | engine/net/epoll_service.c:456-482 | What any event leads to: nothing for a session in the array, the node for one that lingers in `close_root`, else nothing; the thread goes on with the events behind it. |
| NetRuns.ProcessAny | engine/net/net_service.c:539-562 | Looking at any entry reports exactly the session found under its id: events handed out and cleared, the flag of that queue cleared, nothing else changed. |
| NetEvents.RecentEntryIsOwn | engine/net/net_service.c:539-555 | With recent entries the session found is always the one the entry was queued for. |
| NetEvents.ProcessExactly | engine/net/net_service.c:539-555 | The same for the one step that can break it, a reader looking at an entry. |
| NetEvents.StepKeepsEvents | engine/net/net_service.c:474-496 | A step keeps the event invariant exactly if it does not look, through an entry, at another session than the one it was queued for that is flagged and lost no queue write. |
| NetEvents.QueuedOnceExactly | engine/net/net_service.c:474-562 | A run keeps the event invariant throughout exactly when it has no such step. |
| NetEvents.RecentRunsAreOwn | engine/net/net_service.c:539-555 | Runs in which no entry outlives a whole cycle of its slot have none. |
| NetEvents.EventsAreNotLost | engine/net/net_service.c:474-562 | After every run without such a step a live session none of whose queue writes failed waits exactly once if flagged and not at all otherwise, in both queues, and the bits the run raised on it are those it reported and those pending. |
| NetRepeats.StaleEntryClearsFlag | engine/net/net_service.c:539-562 | A run from the start, with one thread and no failed write, after which a live session waits in the queue without being flagged: an entry as old as a cycle of its slot cleared the flag. |
| NetDelivery.StepKeepsWaiting | engine/net/net_service.c:474-562 | Every step of every thread, without exception, keeps each live session that is flagged and lost no queue write waiting at least once. |
| NetDelivery.FlaggedSessionsWait | engine/net/net_service.c:474-562 | In every run such a session waits in the queue or with a reader. |
| NetDelivery.PendingCanBeDelivered | engine/net/net_service.c:524-562 | No pending event is stuck: from every reachable state, whatever old entries did to flags, the threads can report every pending bit of a live session none of whose queue writes failed, by going on with what they have begun, reading and looking. |
| NetDelivery.DrainedMeansDelivered | engine/net/net_service.c:524-562 | In every run, once the queue and all batches are worked off, every bit raised on a live session none of whose queue writes failed was reported after it was raised. |
| NetDelivery.NoDeadlock | engine/net/epoll_service.c:456-489 | In every run a thread in the middle of an operation can take its next step, which brings it nearer to the end, or one that holds a lock can. |
| NetEvents.LostWriteStrands | engine/net/net_service.c:485-495 | A failed queue write leaves the flag set with nothing queued, and later pushes do not queue the session. |
| Heap.PushOrdered | engine/tool/heap.c:61-108 | Pushing keeps the heap order, in both orientations. |
| Heap.PushAdds | engine/tool/heap.c:88-106 | Pushing adds exactly the key. |
| Heap.PopOrdered | engine/tool/heap.c:110-156 | Removing at an index leaves a heap exactly when it was the last or the first, or the last key does not beat the parent of the hole. |
| Heap.PopBreaksHeap | engine/tool/heap.c:110-156 | For each orientation a heap and an index whose removal leaves no heap. |
| Heap.PopRemoves | engine/tool/heap.c:110-156 | Removing at any index takes exactly the key that was there. |
| Heap.HeadUnbeaten | engine/tool/heap.c:61-108 | No key of a heap beats the first. |
| Heap.DrainSorts | engine/tool/heap.c:110-156 | Removing the first again and again gives every key, sorted. |
| Heap.KeyHeap.CheckGc | engine/tool/heap.c:33-59 | The counter counts the checks in a row that find less than half in use, and goes back to 0 at any other; the eighth in a row halves the array, rounding up, and nothing else changes the array; the keys are dropped exactly if the allocator does not grant that. |
| Heap.KeyHeap.PushKey | engine/tool/heap.c:61-108 | The sift loop in place does the specified push, growing the array first if it is full; the keys are dropped exactly when growing, or giving back at the eighth sparse check, is due and not granted; size of the array and counter in every case. |
| Heap.KeyHeap.PopKey | engine/tool/heap.c:110-156 | The sift loop in place does the specified removal and returns the key, with the same check behind it; an index outside changes nothing. |

## Left out

- `thirdlib/`: a vendored Lua; only the values the serializer sees and the treatment of table keys are
  modelled.
- Sockets, epoll and IOCP calls, address lookup, clocks and threads; `iocp_service.c` repeats the close
  protocol of the epoll service.
- Locks, fences and atomics: a locked section is one step. Nothing is said about an unlocked reader and
  writer inside one `msg_buff` operation, nor about `prep_flag`.
- `buff_pool.c`: what the allocator answers, or how much it still has to give, is an input of the operations
  that allocate; it gives fresh memory with arbitrary content.
- Releasing whole buffers, queues, trees and arrays (`*_release`, `sb_tree_clean`).
- Integer widths are written out where a value can reach them (positions, ids, keys, header lengths,
  packed integers, `usize`); counters that only a gigabyte-sized heap or buffer could overflow are
  unbounded.
- Messages of the version B queue are values in the slots; which buffer holds them is not modelled.
- RecvBuff.RecvRing.Read: always has a buffer; into a null buffer the source answers -1 for a payload that
  spans blocks.
- `net_queue` reuses its count for a slot number, so its test for a short read compares with the last slot
  number; the protocol lets a reader stop or go on at will, which covers both.
- What happens inside `close_root` after its first fault: any tree may follow the next insertion or
  deletion that holds nothing but what was put there, and no node counts as freed any more. What the
  faulting deletion itself leaves is exact.
- The deletion from `close_root` and the release that follows it are one step, as both happen under the
  lock of the session's slot.
- `lua_tick_reg` of the largest `int`, whose successor overflows.
- Registering and removing further ticks in a tree that a deletion has left damaged; what the queries answer on it
  is stated.
- Connecting, accepting, listening, `net_socket_cfg`, and the read and write loops around the rings.
- In the serializer: user data, functions and threads (all packed as nil or depending on the host);
  `error_info`; unpacking stops at a user data tag with an outcome of its own. The first allocation of the
  packer's buffer is treated as failing cleanly, where the source would copy into a null pointer. `char`
  is signed and integers are little-endian. The depth of the C stack and of the Lua stack is unbounded.
  The order in which `lua_next` visits an unpacked table is not modelled.
- Tables handled by the packer number at most 2^31 - 1, which its 4-byte references need.
- cpack, bit, tdriver, the mailboxes, MySQL, console and file bindings: wrappers.
- NetRelease.ReleasedAtMostOnce: for runs in which every deletion takes out the entry of its own session and
  every node is read before it is freed; without that it is false, as NetFaults.FaultReleasesTwice and
  NetRepeats.SharedIdReleasesTwice show.
- NetRelease.UncleanReleasesAgain: leaves open what happens when a third entry has the id, or a session is
  installed under it.
- NetEvents.EventsAreNotLost: for runs in which no reader looks through an old entry at another flagged
  session, and for sessions whose queue writes succeeded; the first condition is exact
  (NetEvents.QueuedOnceExactly).
- QueueChannel.Receiver.Run: for owners who receive nothing after a negative answer; without that it is false,
  as QueueChannel.NeverSent shows.
- Packer.SerializeData.Serialize: between no buffer to be had and one for every 1024 bytes it is not stated
  which packings go through; SerializeData.CheckRoom says it step by step.
- NetDelivery.PendingCanBeDelivered: says that the steps exist, not that the scheduler takes them.
