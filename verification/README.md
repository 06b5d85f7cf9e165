# Verified models of the server's stateful cores

This project models, in Dafny, the parts of a C/C++ game server whose correctness rests on state kept over long runs,
and proves what they promise.

- **The byte pipeline** (`CircleBuffer`, `PacketHeader`, `FrameParser`, `Messages`, `Session`, `Link`). A wrap-around
  send buffer, an incremental parser over one receive buffer, and the link between two ends. A link is a reliable FIFO
  of messages under any partial sends and any chunking of receives, for frames of at most 32769 bytes. The bound is
  exact: the copy that keeps an unfinished frame is given the remaining room as its destination size.
- **The handler queue** (`HandlerQueue`). A segmented multi-producer queue and the try-lock around its consumer, one
  atomic instruction a step.
- **The timing wheel** (`TimerWheel`, `TimerSlots`, `TimerLives`, `SingleTimerManager`, `TimerManager`).
  3000 slots, rounds and drift correction refine a countdown, and repeating timers keep their interval.
- **The connection table** (`DoubleList`, `ConnectionList`). Intrusive lists over a fixed array, and ids with a
  generation.
- **The pool allocator** (`Allocator`, `MemAllocator`, `MemoryClient`). Free lists threaded through the memory they
  manage, thirteen pools behind a one-byte tag, and a program on top of them.
- **Smaller cores**: streaming MD5 around an arbitrary block transform (`Md5`), the substitution book (`EncryBook`),
  requests and acknowledgements (`DispatchMessage`), the write-back player cache (`PlayerCache`), the watch index
  (`WatchIndex`).

`Bytes` holds machine integers and byte order, `Collections` optional values and facts about sets and lists.

What the sockets, the clock, the database, the system allocator and the callbacks answer is a parameter of each
operation. A method that the source guards with a lock is one step, except in `HandlerQueue`.

Where the code does not do what it seems to be meant for, the model follows the code and a member states exactly when
it does:

- a frame longer than 32769 bytes can be lost (`FrameParser.DeliveredIffSmall`);
- a header between a client and a server is misread by the same code (`PacketHeader.EncodeDecode`);
- a refused write can cost room in the send buffer (`CircleBuffer.RefusalOnlyShrinks`);
- a first delay below 100 wraps to about 50 days (`TimerWheel.FirstTicksExact`);
- the drift test goes wrong after 7158 rounds, about 25 days, when a 32-bit product wraps (`TimerWheel.RoundsTime`), and
  a timer then misses its tick if the clock is a millisecond late (`TimerWheel.LateAfterWrap`);
- in the multi-thread manager a timer cancelled by an earlier callback of the same visit still runs
  (`TimerManager.CancelsComeTooLate`);
- an id is mistaken after 2^32 further ids (`ConnectionList.ResolvesIff`);
- the MD5 block loop runs past inputs of nearly 2^32 bytes (`Md5.GuardExact`);
- a request is lost when its token comes round again (`DispatchMessage.LostIff`);
- saving a player reports failure on every call (`PlayerCache.PlayerDBMgr.SavePlayerStruct`), and an eviction whose
  write fails loses what was not yet written (`PlayerCache.EvictAllKeeps`).

`dafny verify dfyconfig.toml` checks the whole project.

## Model

| member | source | states |
|---|---|---|
| Link.Link.Run | CommBase/Network/Session.cpp:109-494 | any interleaving of writes, partial or failing sends and partial receives, moment by moment: each write is accepted exactly when its end is up and the ring admits it, each send moves what the socket took, each receive takes what its replies bring; at every moment what has been handed up is, in order and without gaps, the start of the accepted messages meant for the receiver; with ring and wire empty and both ends up it is all of them |
| Link.Link.Settle | CommBase/Network/Session.cpp:109-494 | from any moment with both ends up, two sends and one receive without partial replies empty ring and wire and hand every accepted message meant for the receiver up |
| Link.Link.Write | CommBase/Network/Session.cpp:327-340 | a write either adds its one message to the accepted stream, exactly when the ring buffer admits it, or nothing; conservation of bytes is kept |
| Link.Link.Send | CommBase/Network/Session.cpp:432-494 | a send moves exactly the bytes the replies took from ring to wire, none lost or repeated while the connection is up, and the end stays up exactly unless a failing reply ended it |
| Link.Link.Recv | CommBase/Network/Session.cpp:230-325 | a receive takes from the wire exactly the chunks that replies, room and wire allow, extends what was handed up and keeps it a prefix of what was sent; it closes exactly when the peer has |
| Link.Link.Drained | CommBase/Network/Session.cpp:109-494 | once every accepted byte has been taken, every message meant for the receiver has been handed up |
| Link.CaughtInOrder | CommBase/Network/Session.cpp:109-228 | a receiver that has taken any prefix of the byte stream has delivered a prefix of the intended messages, and all of them when the stream is complete |
| Link.RecvCatches | CommBase/Network/Session.cpp:230-292 | one receive keeps the delivered frames and the residue equal to a one-shot parse of all bytes taken |
| Link.FeedAllKeepsFrames | CommBase/Network/Session.cpp:230-292 | what later chunks deliver does not depend on what was delivered before |
| FrameParser.DeliveredIffSmall | CommBase/Network/Session.cpp:116-179 | for a stream of well-formed frames: every way of cutting it into chunks delivers exactly its frames if and only if no frame is longer than 32769 bytes, the bound set by the destination size given to the compaction copy |
| FrameParser.ChunkIndependent | CommBase/Network/Session.cpp:109-292 | for frames of at most 32769 bytes, frames and residue after any chunks equal those of a one-shot parse of the same bytes |
| FrameParser.ParseExtends | CommBase/Network/Session.cpp:116-225 | for arbitrary bytes, parsing a then b from the residue is parsing a + b; a bad header is final |
| FrameParser.ReparseResidue | CommBase/Network/Session.cpp:286 | parsing a residue again delivers nothing and leaves it alone |
| FrameParser.ParsePrefix | CommBase/Network/Session.cpp:116-225 | a cut stream parses to its leading frames, and the residue is short of the next one |
| FrameParser.ParseWhole | CommBase/Network/Session.cpp:116-225 | a whole stream parses to its frames with nothing left |
| FrameParser.TurnByBytes | CommBase/Network/Session.cpp:116-168 | one turn of the loop, told by the bytes alone: which header they carry, whether its fields are in range, and whether the whole body is there |
| FrameParser.DeliveredReadOff | CommBase/Network/Session.cpp:116-225 | however malformed a stream, what is delivered are frames read off it one behind the other, none out of range |
| FrameParser.FeedStep | CommBase/Network/Session.cpp:237-279 | after each chunk of a good stream the residue is below the buffer size, so the next receive has room |
| FrameParser.Compact | CommBase/Network/Session.cpp:172-176 | a residue survives compaction exactly when it is at most 32768 bytes |
| FrameParser.LosingChunks | CommBase/Network/Session.cpp:172-176 | the schedule of chunks under which a frame above the bound is lost |
| FrameParser.ParseSize | CommBase/Network/Session.cpp:217-218 | no byte is delivered twice: delivered frames and residue add up to the input |
| Session.Session.RecvFrames | CommBase/Network/Session.cpp:109-228 | the in-place parse loop delivers the accepted messages of the one-shot parse of the buffer and leaves its compacted residue; a bad header clears the buffer, or closes a client |
| Session.Session.Recv | CommBase/Network/Session.cpp:230-325 | the receive loop takes the chunks that replies, room and wire determine, each no longer than any of the three, feeds them, dispatches the batch at its end, and closes and dispatches nothing exactly when the peer has closed |
| Session.ReadsStop | CommBase/Network/Session.cpp:235-290 | if a further reply brings bytes, the loop has stopped only because nothing is left on the wire |
| Session.ReadsAll | CommBase/Network/Session.cpp:235-290 | a socket that keeps bringing bytes, asked often enough, brings all that is on the wire: the loop never runs out of room |
| Session.ReadsGreedily | CommBase/Network/Session.cpp:235-290 | each reading takes all the reply offers, or fills the buffer, or empties the wire |
| Session.Session.KeepTail | CommBase/Network/Session.cpp:169-179 | the unfinished tail is moved to the front, or dropped when the copy is refused |
| Session.Session.Send | CommBase/Network/Session.cpp:432-494 | bytes sent are a prefix of the contents, as many as the replies took of the next range; on success they are exactly what left the buffer, on an error exit the buffer keeps them |
| Session.Session.Push | CommBase/Network/Session.cpp:454-485 | the total is the sum of what the leading replies took of what was left, and the result is the one of the reply that ended the loop |
| Session.OfferedIs | CommBase/Network/Session.cpp:454-485 | the socket is asked again up to the first reply that takes nothing, and that reply decides how the sending ends |
| Session.Session.SendTwice | CommBase/Network/Session.cpp:432-494 | with a socket that takes everything two sends empty the buffer, in order |
| Session.Session.Write | CommBase/Network/Session.cpp:327-340 | a message is queued as its whole frame or refused whole; what is queued holds every field in its place and in the byte order of the peer, then the content and, where it is sealed, the digest |
| Messages.SealedRoundTrip | CommBase/Network/MessageManager.cpp:141-177 | a sealed message comes out unchanged at the peer it is addressed to and is filtered by any other |
| Messages.AcceptIff | CommBase/Network/Session.cpp:185-215 | a frame gets through exactly when it is for this peer, carries a message to dispatch and, at a peer that seals, ends with the digest of what stands before, up to a NUL in both; what gets through is the frame less its digest |
| Messages.FrameOnWire | CommBase/Network/MessageManager.cpp:102-157 | the bytes of a frame: the fields in their places, the content, and the digest where the message is sealed |
| Messages.AcceptFrames | CommBase/Network/Session.cpp:185-215 | of a sequence of frames exactly the addressed messages get through, unchanged and in order; a rejected frame costs no other |
| Messages.AcceptAllAppend | CommBase/Network/Session.cpp:185-215 | acceptance works frame by frame |
| Messages.SendableIsGood | CommBase/Network/MessageManager.cpp:102-115 | what a sender may send is a well-formed frame within the bound |
| PacketHeader.EncodeDecode | CommBase/Network/NetWorkConfig.h:141-163 | decoding an encoded header gives it back exactly when both ends are clients or both are not, or when swapping its fields changes nothing |
| PacketHeader.EncodeCarries | CommBase/Network/NetWorkConfig.h:141-152 | the sender puts them there, most significant byte first when the message is bound for a client, as they stand in memory otherwise |
| PacketHeader.DecodeCarries | CommBase/Network/NetWorkConfig.h:154-163 | the receiver takes length, ids, request number and time from the bytes at 0, 6, 9, 14 and 18, most significant first when the sender is a client, least significant first otherwise; security and types from 4, 5, 8 and 13 |
| PacketHeader.CarriesUnique | CommBase/Network/NetWorkConfig.h:120-135 | the bytes leave no choice of header |
| PacketHeader.MixedSidesMisread | CommBase/Network/NetWorkConfig.h:141-163 | a concrete server-to-client header that the same code misreads: its length 1 becomes 0x1000000 |
| PacketHeader.ImageRoundTrip | CommBase/Network/NetWorkConfig.h:120-135 | the packed 26-byte image determines every field |
| PacketHeader.AnnouncedIsLength | CommBase/Network/CircleBuffer.cpp:67-75 | the length read back from a prepared header is the body length |
| CircleBuffer.CCircleBuff.WriteData | CommBase/Network/CircleBuffer.cpp:82-110 | success exactly when the indices admit header and body; then both are appended, in one contiguous range; a refusal leaves the contents, though it may have wrapped the write index |
| CircleBuffer.CCircleBuff.WriteSend | CommBase/Network/CircleBuffer.cpp:67-75 | the same for a prepared header and as much content as it announces, contiguous range and indices after a refusal included |
| CircleBuffer.CCircleBuff.WriteBuffer | CommBase/Network/CircleBuffer.cpp:113-132 | the same for plain bytes |
| CircleBuffer.CCircleBuff.IsWriteOverAgain | CommBase/Network/CircleBuffer.cpp:51-65 | abandoning the tail leaves the contents alone |
| CircleBuffer.CCircleBuff.IsReadOverAgain | CommBase/Network/CircleBuffer.cpp:35-49 | going back to offset 0 leaves the contents alone |
| CircleBuffer.CCircleBuff.HadWrite | CommBase/Network/CircleBuffer.cpp:25-33 | the write index advances; within the free range the bytes put down are appended to the contents |
| CircleBuffer.CCircleBuff.HadRead | CommBase/Network/CircleBuffer.cpp:15-23 | the read index advances; within the current range a prefix of the contents is dropped |
| CircleBuffer.CCircleBuff.ReadSendBuff | CommBase/Network/CircleBuffer.cpp:134-146 | the next range is non-empty, contiguous and a prefix of the contents; none exactly when the contents are empty |
| CircleBuffer.CCircleBuff.ResetSize | CommBase/Network/CircleBuffer.h:39-52 | everything unread is forgotten |
| CircleBuffer.Indices.Contents | CommBase/Network/CircleBuffer.h:55-63 | the unread bytes number what GetLeftBuffSize says, and the next range is within them |
| CircleBuffer.RefusalOnlyShrinks | CommBase/Network/CircleBuffer.cpp:51-65 | a refused write never makes room, and costs room exactly when the abandoned tail was the larger gap |
| CircleBuffer.AdmitsIff | CommBase/Network/CircleBuffer.cpp:51-98 | a write is admitted exactly when that many free bytes lie in one piece at the write position or at the front, short of the read position |
| CircleBuffer.GapWrite | CommBase/Network/CircleBuffer.cpp:95-107 | bytes written into the free gap do not touch unread bytes |
| CircleBuffer.SafeMemmove | CommBase/util.cpp:60-69 | copies the whole source or nothing |
| Bytes.SwapTwice | CommBase/Network/NetWorkConfig.h:141-163 | htonl and its relatives undo themselves, at every width |
| HandlerQueue.Linearizable | antlib/commandlib/squeue.h:36-110 | in every interleaving of any number of producers and threads: the popped values are the first of the reservation order, across segments; that order holds each producer's pushes as it made them; no assertion has failed |
| HandlerQueue.SafeDrain | antlib/handlerlib/thread_proc.h:14-30 | at most one thread is inside a handler; during its drain the count covers the pops still to come and equals reservations less unpublished pushes less pops; the slot waited on is reserved |
| HandlerQueue.DrainsTheCount | antlib/handlerlib/handler.h:76-97 | from the moment a thread reads the count to its next unlock, whatever the others do, exactly that many values are popped, the next ones of the reservation order; the count then left was published in between |
| HandlerQueue.LockAdmits | antlib/handlerlib/thread_proc.h:23-27 | a thread that tries the lock gets in exactly when no thread is inside |
| HandlerQueue.DrainedMeansAll | antlib/commandlib/hqueue.h:16-31 | a zero count with nobody in mid-push means everything pushed has been popped, in order |
| HandlerQueue.WaitEnds | antlib/commandlib/squeue.h:46-55 | a consumer spinning on a slot waits for a store that a named producer can do now |
| HandlerQueue.SwingEnds | antlib/commandlib/hqueue.h:21-27 | a consumer spinning on the segment hand-over waits for a step that a named producer can do now |
| HandlerQueue.NeverStuck | antlib/commandlib/squeue.h:36-110 | in every reachable state every producer can take its next step, and every thread too unless it spins on a step that some producer can take |
| HandlerQueue.FullEnds | antlib/commandlib/squeue.h:91-107 | a producer that finds the newest segment full waits for a step that a named producer can take |
| HandlerQueue.StepInv | antlib/commandlib/squeue.h:36-110 | every atomic step keeps the whole invariant |
| HandlerQueue.RunInv | antlib/commandlib/squeue.h:36-110 | every run keeps it |
| HandlerQueue.ReserveInv | antlib/commandlib/squeue.h:38 | a fetch-and-add reserves the next position of the global order |
| HandlerQueue.StoreInv | antlib/commandlib/squeue.h:39-42 | a store fills exactly the slot its producer reserved |
| HandlerQueue.LinkInv | antlib/commandlib/squeue.h:101-104 | only the holder of the last slot links a new segment |
| HandlerQueue.AdvanceInv | antlib/commandlib/squeue.h:104 | and only it moves the tail on |
| HandlerQueue.FetchInv | antlib/commandlib/hqueue.h:18-20 | the count is positive whenever a pop begins |
| HandlerQueue.RetireInv | antlib/commandlib/hqueue.h:21-27 | the head moves on to the next segment without skipping a value |
| HandlerQueue.FinishInv | antlib/commandlib/hqueue.h:29-30 | a finished pop extends the popped values by the next of the order |
| HandlerQueue.PosInjective | antlib/commandlib/squeue.h:91-107 | segment and index number the slots without clash |
| TimerWheel.WheelIsCountdown | CommBase/Timer/TimerManager.cpp:23-134 | an uncancelled timer fires within its countdown whatever the clock reads; ticks waited, ticks saved by drift correction and ticks left over add up to it, and none are left over unless the clock had reached the target |
| TimerWheel.OnTime | CommBase/Timer/NewSingleTimerMgr.cpp:32-100 | a timer just attached for n ticks fires on exactly the n-th if and only if at each earlier visit the clock reads less than the target and is not a slot ahead of the rounds since the first visit |
| TimerWheel.PunctualIff | CommBase/Timer/NewSingleTimerMgr.cpp:32-100 | the same for any waiting timer: it fires exactly when its countdown ends if and only if no reading at an earlier visit reaches the target or finds the clock ahead of tickPoint and elapseRound |
| TimerWheel.SteadyClock | CommBase/Timer/NewSingleTimerMgr.cpp:32-100 | a clock that never gains a slot on the ticks, nor falls behind them once the 32-bit product has wrapped, makes every timer fire exactly on time if its target is not reached before |
| TimerWheel.RoundsTime | CommBase/Timer/NewSingleTimerMgr.cpp:57 | the time of the rounds waited is what the drift test compares with exactly up to 7158 rounds; beyond, the 32-bit product wraps |
| TimerWheel.LateAfterWrap | CommBase/Timer/NewSingleTimerMgr.cpp:57 | beyond 7158 rounds a timer attached as in OnTime misses its tick whenever the clock is late at that visit by anything from one millisecond up to a round less a slot |
| TimerWheel.AttachRemaining | CommBase/Timer/NewSingleTimerMgr.cpp:272-280 | slot and round encode exactly the requested number of ticks |
| TimerWheel.VisitTick | CommBase/Timer/NewSingleTimerMgr.cpp:32-100 | a visit that does not fire the timer takes one off its countdown, and as many more as the slots it is moved back |
| TimerWheel.VisitIs | CommBase/Timer/NewSingleTimerMgr.cpp:32-100 | one visit in plain arithmetic: when a timer is dropped, fires, stays or is moved; a moved one goes back by the whole slots that the time since tickPoint exceeds full rounds by, tickPoint goes on by the rounds waited and counting starts again |
| TimerWheel.VisitOnly | CommBase/Timer/NewSingleTimerMgr.cpp:32-100 | that arithmetic leaves no choice |
| TimerWheel.MovesTheGain | CommBase/Timer/NewSingleTimerMgr.cpp:82-88 | a moved timer goes back by exactly the whole slots the clock has gained on the rounds, if that is less than a round and the product has not wrapped |
| TimerWheel.IdleTick | CommBase/Timer/NewSingleTimerMgr.cpp:180-190 | a tick that visits another slot takes exactly one off |
| TimerWheel.NoDriftInTargets | CommBase/Timer/NewSingleTimerMgr.cpp:249-272 | attaching again n times, at whatever times, moves the target by n intervals and measures the next delay to it |
| TimerWheel.AgainOnTime | CommBase/Timer/NewSingleTimerMgr.cpp:249-280 | a loop timer attached again is as good as new: it waits the whole slots up to its next target, and fires on exactly that tick under the condition of OnTime |
| TimerWheel.FirstTicksExact | CommBase/Timer/NewSingleTimerMgr.cpp:246 | the first delay is the start delay less one slot exactly when that is at least 100; below, the unsigned subtraction wraps |
| SingleTimerManager.SingleTimerManager.OnTick | CommBase/Timer/NewSingleTimerMgr.cpp:180-200 | one tick drops, fires, keeps or moves each timer of the slot the hand leaves, by how much and in what state said in plain arithmetic, and touches no other; the fired ones join the timed-out list in id order |
| SingleTimerManager.TickIsLawful | CommBase/Timer/NewSingleTimerMgr.cpp:180-200 | the same told of the whole wheel: where each timer is after a tick, and which have timed out |
| SingleTimerManager.SingleTimerManager.SlotOnTick | CommBase/Timer/NewSingleTimerMgr.cpp:23-103 | the two loops over a slot together do one visit of each of its timers |
| SingleTimerManager.SingleTimerManager.RunTicks | CommBase/Timer/NewSingleTimerMgr.cpp:180-200 | over any number of ticks every timer follows its own countdown, and an uncancelled one has left the wheel after it |
| SingleTimerManager.SingleTimerManager.AddTimer | CommBase/Timer/NewSingleTimerMgr.cpp:202-281 | a new timer gets the next id, 0 left out when the counter wraps, and a place that encodes its delay; a zero start is refused without effect |
| SingleTimerManager.SingleTimerManager.Tick | CommBase/Timer/NewSingleTimerMgr.cpp:149-178 | callbacks run in order for the timed-out timers not cancelled by then, what they cancel is marked wherever it is, and exactly the loop timers still wanted are attached again |
| SingleTimerManager.SingleTimerManager.Cancel | CommBase/Timer/Timer.cpp:70-76 | a cancel marks the timer wherever it is and nothing else |
| TimerSlots.TraceEnds | CommBase/Timer/NewSingleTimerMgr.cpp:23-103 | an uncancelled timer is out of the wheel once more ticks have passed than its countdown held, and not before it fires |
| TimerSlots.TraceMore | CommBase/Timer/NewSingleTimerMgr.cpp:180-200 | ticks compose |
| SingleTimerManager.CancelledNeverRuns | CommBase/Timer/NewSingleTimerMgr.cpp:163-168 | from its turn on, and from the start if it is cancelled then, a timer of the batch runs no callback |
| SingleTimerManager.RunsIff | CommBase/Timer/NewSingleTimerMgr.cpp:163-168 | a timer of the batch runs its callback, and once, if and only if it is neither cancelled at the start nor by a callback that ran before it |
| SingleTimerManager.CancelInBatchIsInTime | CommBase/Timer/NewSingleTimerMgr.cpp:163-168 | an earlier callback of the same batch that cancels a timer keeps it from running |
| SingleTimerManager.LeftIs | CommBase/Timer/NewSingleTimerMgr.cpp:163-168 | callbacks leave the batch as it was but for the marks of those that ran |
| SingleTimerManager.SingleTimerManager.Run | CommBase/Timer/NewSingleTimerMgr.cpp:149-281 | any calls of AddTimer, OnTick, Tick and Cancel in any order, moment by moment: each call does its own step on wheel, timed-out list and books; a timer still wanted is in one slot or in the timed-out list, not both; every timer held has as target its first one and an interval for each time it ran, however late; a once-timer runs at most once; nothing runs in a call after its cancel, by a call or by a callback |
| SingleTimerManager.TickKeepsBooked | CommBase/Timer/NewSingleTimerMgr.cpp:180-200 | a tick changes nothing of targets, intervals and counts, and loses no timer still wanted |
| SingleTimerManager.TickKeepsBooks | CommBase/Timer/NewSingleTimerMgr.cpp:149-178 | a batch of callbacks adds one run and one interval to each loop timer that ran, and loses none still wanted |
| SingleTimerManager.CancelKeepsBooks | CommBase/Timer/Timer.cpp:70-76 | a cancel changes nothing but the mark |
| TimerLives.Silenced | CommBase/Timer/NewSingleTimerMgr.cpp:163-168 | over any run, a timer cancelled by a call or by a callback runs in no later call |
| TimerLives.RunCounts | CommBase/Timer/NewSingleTimerMgr.cpp:149-178 | the number of runs kept for a timer is the number of its callbacks |
| TimerLives.EvolvesOver | CommBase/Timer/NewSingleTimerMgr.cpp:149-178 | between any two moments of a run nothing kept for a timer is taken back, and a cancelled one has not run again |
| TimerLives.IdsCountOn | CommBase/Timer/NewSingleTimerMgr.cpp:240-244 | ids count on from the last, leave 0 out, and come round again after exactly 2^32 - 1 timers |
| TimerLives.LifeGoesOn | CommBase/Timer/NewSingleTimerMgr.cpp:259-264 | firing once and attaching again keeps the target in step with the count |
| SingleTimerManager.UncancelledRunsOnce | CommBase/Timer/NewSingleTimerMgr.cpp:163-168 | a timer nobody cancels runs its callback exactly once |
| SingleTimerManager.CancelledStaysOut | CommBase/Timer/NewSingleTimerMgr.cpp:163-177 | a cancelled timer neither runs nor returns to the wheel |
| SingleTimerManager.AttachedExactly | CommBase/Timer/NewSingleTimerMgr.cpp:170-177 | who is in the wheel after the second loop, and in what state |
| SingleTimerManager.LoopGoesOn | CommBase/Timer/NewSingleTimerMgr.cpp:149-178 | a loop timer nobody cancels runs once and waits exactly the ticks up to its next target |
| SingleTimerManager.HalfwayStep | CommBase/Timer/NewSingleTimerMgr.cpp:32-75 | one turn of the first loop sorts one timer by its verdict |
| SingleTimerManager.RestoreStep | CommBase/Timer/NewSingleTimerMgr.cpp:80-100 | one turn of the second loop puts one moved timer back |
| DoubleList.DoubleList.AddHead | antlib/commandlib/double_list.h:27-41 | adds in front of the sequence; the assertion holds |
| DoubleList.DoubleList.AddTail | antlib/commandlib/double_list.h:43-57 | adds behind the sequence; the assertion holds |
| DoubleList.DoubleList.AddBack | antlib/commandlib/double_list.h:59-76 | inserts behind the given node |
| DoubleList.DoubleList.AddFront | antlib/commandlib/double_list.h:78-95 | inserts before the given node |
| DoubleList.DoubleList.Remove | antlib/commandlib/double_list.h:97-119 | takes out exactly the node; no assertion fires for a node of the list |
| DoubleList.DoubleList.Pop | antlib/commandlib/double_list.h:121-129 | takes the first node, or finds the list empty |
| DoubleList.DoubleList.Push | antlib/commandlib/double_list.h:131-134 | adds at the end |
| DoubleList.WalkReaches | antlib/commandlib/double_list.h:14-18 | following next, and prev back, visits exactly the sequence |
| DoubleList.InsertLinks | antlib/commandlib/double_list.h:71-74 | after the four assignments of a middle insertion next and prev are mutually inverse |
| DoubleList.RemoveLinks | antlib/commandlib/double_list.h:99-118 | after a removal likewise |
| ConnectionList.ConnectionList.RunAll | antlib/tcplib/tcp_connection_list.c:69-155 | over any run of accepts, connects, messages, polls and timeouts, moment by moment: each step opens and takes back exactly the connections it should, the sweep those that came in and were last accepted, received from or sent to too long ago; the table keeps its invariants, no connection is forgotten or reopened, and the id of every connection, those opened on the way included, means that connection while open and nothing afterwards, as long as fewer than 2^32 ids follow |
| ConnectionList.SweepsIdle | antlib/tcplib/tcp_connection_list.c:69-90 | the idle sweep over whole runs, told by the steps alone: which connections it takes back |
| ConnectionList.TableKnows | antlib/tcplib/tcp_connection.c:14-157 | of every open connection the table knows when it was last accepted, received from or sent to, and whether it came in |
| ConnectionList.Resolves | antlib/tcplib/tcp_connection_list.c:47-54 | below 2^32 further ids, an id resolves to its own entry while its connection is open and to nothing after, even when the entry is in use again |
| ConnectionList.ResolvesIff | antlib/tcplib/tcp_connection_list.c:47-54 | exactly when an id goes wrong: its entry holds a later connection whose number agrees modulo 2^32 |
| ConnectionList.ConnectionList.constructor | antlib/tcplib/tcp_connection_list.c:11-31 | all 4096 entries are free, in order, with closed sockets |
| ConnectionList.ConnectionList.AddTcpConnection | antlib/tcplib/tcp_connection_list.c:97-105 | under the accept guard an entry is always free: the head of the free queue becomes alive with a fresh id |
| ConnectionList.ConnectionList.AddTcpConnecting | antlib/tcplib/tcp_connection_list.c:107-138 | a full table or a refusal changes nothing but the order of the free queue; otherwise one entry becomes alive |
| ConnectionList.ConnectionList.BackTcpConnection | antlib/tcplib/tcp_connection_list.c:56-66 | an entry goes back to the free queue exactly when its socket is closed, and its id stops resolving |
| ConnectionList.ConnectionList.GetTcpConnection | antlib/tcplib/tcp_connection_list.c:47-54 | returns the entry of an id that is current and open, and null otherwise |
| ConnectionList.ConnectionList.EpollRun | antlib/tcplib/tcp_epoll.c:27-59 | of all connections exactly those named by an event that closes the socket are taken back |
| ConnectionList.ConnectionList.HandleEvent | antlib/tcplib/tcp_epoll.c:32-58 | one reported event has the effect of one poll of the table; data received or sent without closing renews the time the connection was last active, and nothing else does |
| ConnectionList.ConnectionList.DoTcpConnectionMsg | antlib/tcplib/tcp_connection_list.c:140-155 | a message for a connection that is gone is dropped; one that closes its connection takes back that one only |
| ConnectionList.ConnectionList.TcpAccepterRunning | antlib/tcplib/tcp_listener.h:42-57 | accepts as many waiting connections as there is room for, each on its own new id |
| ConnectionList.ConnectionList.ClearTimeouts | antlib/tcplib/tcp_connection_list.c:72-88 | after the grace period exactly the idle incoming connections are taken back; the others stay alive in their order |
| ConnectionList.ConnectionList.TcpConnectionListRun | antlib/tcplib/tcp_connection_list.c:69-105 | takes back exactly the connections that a closing event names and then, once the grace period is over, exactly the incoming ones idle for too long by then; one that the poll has data of is not among these |
| ConnectionList.ConnectionList.Admit | antlib/tcplib/tcp_connection.c:14-33 | initialising an entry gives it the next number of the shared counter |
| ConnectionList.AdmitKeeps | antlib/tcplib/tcp_connection_list.c:97-105 | admitting keeps the table sound and between steps an entry is alive exactly when its socket is open |
| ConnectionList.BackKeeps | antlib/tcplib/tcp_connection_list.c:56-66 | taking back does too |
| ConnectionList.PollKeeps | antlib/tcplib/tcp_epoll.c:34-57 | one event takes back the open connection it names exactly when handling it closes the socket |
| ConnectionList.MainId.LockAdd | antlib/tcplib/tcp_connection.c:17-18 | ids are handed out in order, modulo 2^32 |
| Allocator.AllocatorBlock.Malloc | CommBase/Memory/AllocatorBlock.cpp:63-92 | returns a block that was not in use; a new chunk is cut only when the free list is empty; nothing mapped before moves or changes |
| Allocator.AllocatorBlock.Free | CommBase/Memory/AllocatorBlock.cpp:94-100 | the block becomes the first of the list, linked through its own bytes |
| Allocator.AllocatorBlock.AllocatSize | CommBase/Memory/AllocatorBlock.cpp:102-134 | a chunk is cut into disjoint blocks chained last to first, or the system's refusal changes nothing |
| Allocator.AllocatorBlock.Carve | CommBase/Memory/AllocatorBlock.cpp:121-133 | the threading loop links every block to the one before it and ends the chain with null |
| Allocator.AllocatorBlock.constructor | CommBase/Memory/AllocatorBlock.cpp:13-19 | blocks are at least a pointer long, and one byte more |
| Allocator.AllocatorBlock.Conservation | CommBase/Memory/AllocatorBlock.cpp:63-134 | free blocks and blocks in use add up to the block number times the chunks |
| Allocator.AllocatorBlock.Disjoint | CommBase/Memory/AllocatorBlock.cpp:121-133 | blocks never overlap |
| Allocator.AllocatorBlock.StoreKeeps | CommBase/Memory/AllocatorBlock.cpp:94-100 | whatever a user writes into its own block leaves the list of every pool intact |
| Allocator.AllocatorBlock.FreeChain | CommBase/Memory/AllocatorBlock.cpp:94-100 | freeing keeps the chain of stored pointers acyclic and complete |
| MemAllocator.MemAllocator.Malloc | CommBase/Memory/MemAllocator.cpp:273-461 | a fresh piece of at least the size asked for, from the right pool, never one in use; every other user's bytes stay as they were |
| MemAllocator.MemAllocator.Free | CommBase/Memory/MemAllocator.cpp:473-528 | looking only at the tag, the piece goes back to the front of the pool it came from, or to the system; no other user or pool changes; null is ignored |
| MemAllocator.MemAllocator.Write | CommBase/Memory/MemAllocator.cpp:273-461 | whatever a user writes into the bytes it asked for, the tag in front and everybody else's bytes stay |
| MemAllocator.MemAllocator.UsersApart | CommBase/Memory/MemAllocator.cpp:273-461 | pieces in use never overlap, tags included |
| MemAllocator.MemAllocator.ClassConserved | CommBase/Memory/MemAllocator.cpp:273-528 | in every class free blocks and users add up to 32 a chunk |
| MemAllocator.MemAllocator.NotFree | CommBase/Memory/MemAllocator.cpp:473-528 | a piece in use is on no free list, and its tag names the pool it is a block of |
| MemAllocator.MemAllocator.constructor | CommBase/Memory/MemAllocator.cpp:273-461 | thirteen pools of 32 blocks with nobody using them |
| MemAllocator.ClassesFit | CommBase/Memory/MemAllocator.cpp:278-447 | a request goes to the smallest class that holds it, with room for the tag |
| MemoryClient.Run | CommBase/Memory/MemAllocator.cpp:273-528 | any program of allocations, writes and releases, stopped only by an allocation for which the pool needs memory and the system has none: every piece it holds is its own, holds what it last wrote there, and every class still counts 32 blocks a chunk |
| MemoryClient.HoldsMore | CommBase/Memory/MemAllocator.cpp:273-461 | a new piece disturbs none that is held |
| MemoryClient.HoldsPut | CommBase/Memory/MemAllocator.cpp:273-461 | a write changes the piece written and no other |
| MemoryClient.HoldsLess | CommBase/Memory/MemAllocator.cpp:473-528 | a release takes one piece away and leaves the content of the others |
| MemoryClient.Take | CommBase/Memory/MemAllocator.cpp:273-461 | an allocation fails exactly when the pool needs memory and the system has none; it leaves what others hold |
| Md5.Context.Update | antlib/commandlib/md5.c:164-187 | after any pieces, state, live part of the buffer and 64-bit bit count are those of a one-shot pass over everything fed |
| Md5.Context.Final | antlib/commandlib/md5.c:189-199 | the digest is the one defined in RFC 1321 for everything fed |
| Md5.SplitsAgree | antlib/commandlib/md5.c:164-187 | two contexts fed the same bytes in different pieces agree on state, count and live buffer |
| Md5.GuardExact | antlib/commandlib/md5.c:178-185 | the 32-bit loop test is right at every turn exactly for inputs below 2^32 - 64 bytes plus what the first block takes beyond a multiple of 64; for any longer one the loop takes a block that begins within the input and ends beyond it |
| Md5.BlocksAppend | antlib/commandlib/md5.c:174-186 | where a message is cut does not matter to the state |
| Md5.AddBits | antlib/commandlib/md5.c:169-172 | the two-word counter with its carry adds the length in bits modulo 2^64 |
| Md5.PaddedShape | antlib/commandlib/md5.c:193-197 | padding is a one bit, zeros and the bit length, ends on a 64-byte boundary and is the shortest that does (RFC 1321, sections 3.1 and 3.2) |
| Md5.InitBytes | antlib/commandlib/md5.c:50-58 | the initial state is the sixteen bytes of RFC 1321, section 3.3 |
| Md5.EncodedDigits | antlib/commandlib/md5.c:60-72 | the digest is the words a, b, c, d in this order, low-order byte first (RFC 1321, section 3.5) |
| Md5.PaddedInjective | antlib/commandlib/md5.c:193-197 | different messages below 2^61 bytes are padded differently |
| Md5.MyMd5Encrypt2 | antlib/commandlib/md5.c:254-272 | hashes exactly head, both inputs as one, and tail, and prints the digest |
| Md5.MyMd5Encrypt | antlib/commandlib/md5.c:234-252 | the same for one input, with one character overwritten |
| Md5.MyHexInjective | antlib/commandlib/md5.c:265-270 | no two digests print alike |
| Md5.MyHexAt | antlib/commandlib/md5.c:265-270 | each byte prints as two characters of a fixed alphabet, the low half first |
| EncryBook.EncryBook.UpdateEncryBook | antlib/commandlib/encry_book.c:39-59 | whatever the key and number of rounds, the encode table stays a permutation and the decode table is its inverse |
| EncryBook.EncryBook.GetEncryBook | antlib/commandlib/encry_book.c:68-74 | the book is a function of the key, so both ends of a connection build the same |
| EncryBook.EncryBook.FillDeBook | antlib/commandlib/encry_book.c:55-58 | the last loop computes the inverse |
| EncryBook.ShuffledKeeps | antlib/commandlib/encry_book.c:44-54 | any number of rounds keeps the table a permutation of the same bytes |
| EncryBook.ShuffledAt | antlib/commandlib/encry_book.c:39-54 | where each byte of the shuffled table comes from: four trades of places a round, between the places that the two halves of the key name, every key byte counting on by one each round |
| EncryBook.InitIsPermutation | antlib/commandlib/encry_book.c:13-29 | the initial table holds every byte once |
| EncryBook.Exchanged | antlib/commandlib/encry_book.h:31-48 | decoding with a book built from the same key restores every byte in place |
| EncryBook.DecodeEncode | antlib/commandlib/encry_book.h:31-48 | decoding undoes encoding, for every buffer |
| EncryBook.EncodeDecode | antlib/commandlib/encry_book.h:31-48 | and encoding undoes decoding |
| EncryBook.EncryBook.Encry | antlib/commandlib/encry_book.h:31-38 | substitutes the first bytes in place and leaves the rest |
| EncryBook.EncryBook.Unencry | antlib/commandlib/encry_book.h:41-48 | likewise with the decode table |
| DispatchMessage.DispatchBase.ProcessMessage | CommBase/Network/DispatchMessage.cpp:456-551 | the sweep when it is due, then every message received, in order: the requests past their deadline and those acknowledged are completed, each with its message, and no others; the answers and timeouts given to handlers are those of the requests completed, each at most once; the other messages given to handlers are, in order, the system messages and those for which there is a handler; the requests registered are those the handlers send |
| DispatchMessage.DispatchBase.Run | CommBase/Network/DispatchMessage.cpp:112-551 | over any arrivals, requests sent and rounds of the dispatcher, moment by moment: each call registers, queues or processes what it should; what handlers are given of answers and timeouts is what was completed, in order, each request once; of all other messages that arrived, handlers are given those wanted, in order, and the rest is still queued; below 2^31 - 1 requests each is either waiting or completed |
| DispatchMessage.DispatchBase.TakeEach | CommBase/Network/DispatchMessage.cpp:498-542 | of a queue of messages received, handlers are given exactly the answers that complete a request; timeouts go to their handlers and complete nothing more |
| DispatchMessage.DispatchBase.TakeAllOthers | CommBase/Network/DispatchMessage.cpp:153-287 | however requests are answered meanwhile, the messages that are no acknowledgements go to their handlers one by one, in order |
| DispatchMessage.DispatchBase.SweepDone | CommBase/Network/DispatchMessage.cpp:468-496 | exactly the requests past their deadline are completed by a sweep, whatever the handlers send meanwhile |
| DispatchMessage.RoundEnds | CommBase/Network/DispatchMessage.cpp:456-551 | of the requests waiting before a round, exactly those past their deadline at a sweep and those acknowledged are completed |
| DispatchMessage.DispatchBase.TimesOutInTime | CommBase/Network/DispatchMessage.cpp:112-151 | over any run: a request still waiting is timed out by the first sweep at least its timeout in seconds after it was sent, and by none before |
| DispatchMessage.HandedOnce | CommBase/Network/DispatchMessage.cpp:136-151 | a request is answered or timed out at most once, and not again after that |
| DispatchMessage.HandsOverTrans | CommBase/Network/DispatchMessage.cpp:523-542 | what was handed over and what was completed stay in step from one message to the next |
| DispatchMessage.DispatchBase.AddMessage | CommBase/Network/DispatchMessage.cpp:28-50 | messages received wait in order |
| DispatchMessage.DispatchBase.Sweep | CommBase/Network/DispatchMessage.cpp:468-496 | completes by a timeout exactly the entries whose deadline has passed, in token order, and leaves the others as they are |
| DispatchMessage.DispatchBase.SweepIfDue | CommBase/Network/DispatchMessage.cpp:464-505 | at most once a second by the clock; completes exactly the waiting requests past their deadline, hands their timeouts over in order, and leaves every other waiting unless a handler it ran has sent a request with the same token |
| DispatchMessage.DispatchBase.Dispatch | CommBase/Network/DispatchMessage.cpp:153-287 | an acknowledgement completes the request its token names and carries it to the handler; an unknown or late one is dropped without a trace; a system message is handed over, a simple message or request if there is a handler |
| DispatchMessage.DispatchBase.AddAckTimeOut | CommBase/Network/DispatchMessage.cpp:112-134 | the n-th request gets the n-th token and its deadline |
| DispatchMessage.DispatchBase.DelAckTimeOut | CommBase/Network/DispatchMessage.cpp:136-151 | finds the waiting request of a token and takes it out, at most once |
| DispatchMessage.DispatchBase.GetToken | CommBase/Network/DispatchMessage.h:61-73 | tokens count from 1 to 2^31 - 1 and, after the overflow, from 1 again |
| DispatchMessage.TokensRepeat | CommBase/Network/DispatchMessage.h:61-73 | two requests share a token exactly when their numbers differ by a multiple of 2^31 - 1 |
| DispatchMessage.NoneLost | CommBase/Network/DispatchMessage.cpp:112-151 | up to 2^31 - 1 requests: all tokens differ, none is lost, and a request is waiting exactly while it is not completed |
| DispatchMessage.LostIff | CommBase/Network/DispatchMessage.cpp:127-128 | a registration loses an earlier request exactly when that one is still waiting and the tokens agree |
| DispatchMessage.SecondAckDropped | CommBase/Network/DispatchMessage.cpp:215-225 | a second copy of an acknowledgement is dropped, whatever was registered in between |
| DispatchMessage.OverKeeps | CommBase/Network/DispatchMessage.cpp:136-151 | a completion takes a waiting request out for good |
| DispatchMessage.RegisteredKeeps | CommBase/Network/DispatchMessage.cpp:112-134 | a registration keeps all books |
| PlayerCache.CCharMemCache.Run | DBServer/src/CharMemCache/CharMemCache.cpp:55-274 | in any run, whichever database writes fail, at every moment: every reader finds exactly what the player last saved, a save counting exactly when it is taken, but for the players evicted at risk by a sweep whose write failed who have not saved since; without failing writes there are none |
| PlayerCache.SpoiledIffLost | DBServer/src/CharMemCache/CharMemCache.cpp:55-109 | a save is lost over a run only by an eviction at risk whose write fails, and after one such the reader is right again only once the player has saved |
| PlayerCache.NothingSpoiled | DBServer/src/CharMemCache/CharMemCache.cpp:55-109 | a run without failing writes loses nobody's save |
| PlayerCache.WrittenInTime | DBServer/src/CharMemCache/CharMemCache.cpp:87-109 | what a cached player has saved is in the database at some moment up to the first sweep a minute later, unless a sweep fails to write it |
| PlayerCache.LeavesInTime | DBServer/src/CharMemCache/CharMemCache.cpp:72-85 | a player gone offline stays cached for two minutes and is evicted by the first sweep after them, unless it is read or goes offline again meanwhile |
| PlayerCache.ReadCallsOff | DBServer/src/CharMemCache/CharMemCache.cpp:258-274 | a player that a reader has found stays cached until it goes offline again |
| PlayerCache.LoginCaches | DBServer/src/CharMemCache/CharMemCache.cpp:124-133 | a login leaves its player cached, with its row unless it was cached before, and its next flush a minute away, and touches no other |
| PlayerCache.StaysScheduled | DBServer/src/CharMemCache/CharMemCache.cpp:124-131 | no player is ever cached without a flush to come within a minute |
| PlayerCache.SweepDoes | DBServer/src/CharMemCache/CharMemCache.cpp:55-109 | whom a sweep removes from the cache, whom it writes out, and what it leaves of the two schedules |
| PlayerCache.CCharMemCache.SaveCacheAndDelete | DBServer/src/CharMemCache/CharMemCache.cpp:167-181 | after an eviction the database holds what the player last saved; lost is exactly what was not yet in the database when the write failed |
| PlayerCache.CCharMemCache.SaveCacheToDB | DBServer/src/CharMemCache/CharMemCache.cpp:147-165 | a flush changes nothing any reader sees, whether its writes succeed or not |
| PlayerCache.CCharMemCache.SaveOneToDB | DBServer/src/CharMemCache/CharMemCache.cpp:183-206 | the same for one player; it reports failure on every call |
| PlayerCache.CCharMemCache.SaveOneAndDelete | DBServer/src/CharMemCache/CharMemCache.cpp:208-220 | evicts one player and takes it off the flush schedule |
| PlayerCache.CCharMemCache.SaveToCache | DBServer/src/CharMemCache/CharMemCache.cpp:222-256 | replaces the record of a cached player and nobody else's; drops a save for a player not cached; a player going offline is written at once and its deletion scheduled |
| PlayerCache.TakesIff | DBServer/src/CharMemCache/CharMemCache.cpp:227-231 | a save is taken exactly when the player is cached and the lowest bit of its kinds is set |
| PlayerCache.CCharMemCache.GetPlayerInfo | DBServer/src/CharMemCache/CharMemCache.cpp:258-274 | a reader finds the last save and calls off a scheduled deletion |
| PlayerCache.CCharMemCache.AddNewPlayer | DBServer/src/CharMemCache/CharMemCache.cpp:124-133 | replaces whatever was cached under the id |
| PlayerCache.CCharMemCache.Sweep | DBServer/src/CharMemCache/CharMemCache.cpp:55-109 | flushes and evictions that are due change nobody's value but those of exactly the players evicted while the database lags behind and their write fails |
| PlayerCache.CacheTimeOut.CollectDeletes | DBServer/src/CharMemCache/CharMemCache.cpp:72-85 | takes out exactly the deletions that are due, and their flushes |
| PlayerCache.CacheTimeOut.CollectFlushes | DBServer/src/CharMemCache/CharMemCache.cpp:87-95 | reports exactly the flushes that are due and puts each off by a minute |
| PlayerCache.CacheTimeOut.Collect | DBServer/src/CharMemCache/CharMemCache.cpp:72-95 | the due deletions are taken out of both schedules, and of the rest exactly the due flushes are reported and put off by a minute |
| PlayerCache.FlushKeeps | DBServer/src/CharMemCache/PlayerDBManager.cpp:66-105 | saving one record keeps every reader's value; after a successful write the database has it |
| PlayerCache.EvictAllKeeps | DBServer/src/CharMemCache/CharMemCache.cpp:167-181 | a value is lost exactly when the player is evicted, its write fails and the database lags behind |
| PlayerCache.DropKeepsIff | DBServer/src/CharMemCache/CharMemCache.cpp:178 | dropping an entry is invisible exactly when its content is in the database |
| PlayerCache.LoadKeepsIff | DBServer/src/CharMemCache/CharMemCache.cpp:124-128 | a reload is invisible exactly when it replaces nothing the database lags behind |
| PlayerCache.PlayerDBMgr.SavePlayerStruct | DBServer/src/CharMemCache/PlayerDBManager.cpp:143-170 | the base record is written when it is dirty and the write succeeds; the result is -1 on every call, since the friend record has no save |
| PlayerCache.CStructTemplate.Save | DBServer/src/CharMemCache/PlayerDBManager.cpp:66-105 | when a record is written, when its mark is cleared, and what is returned |
| PlayerCache.CStructTemplate.AddContent | DBServer/src/CharMemCache/PlayerDBManager.cpp:113-119 | the new content is taken and marked |
| WatchIndex.FriendMessage.Run | GameServer/src/Friend/FriendMessage.cpp:99-144 | after any requests the index holds exactly the pairs of the plain relation, and no empty set |
| WatchIndex.FriendMessage.ClearWatch | GameServer/src/Friend/FriendMessage.cpp:99-120 | removes every pair of a leaving watcher, though its own list may be out of date |
| WatchIndex.FriendMessage.CancelWatch | GameServer/src/Friend/FriendMessage.cpp:122-132 | removes one pair from the index only |
| WatchIndex.FriendMessage.DoWatch | GameServer/src/Friend/FriendMessage.cpp:134-144 | adds one pair, once |
| WatchIndex.FriendMessage.DispatchEvent | GameServer/src/Friend/FriendMessage.cpp:146-157 | tells every watcher of the player once, in order, and nobody else |
| WatchIndex.FriendMessage.GetFriendWatchSelf | GameServer/src/Friend/FriendMessage.cpp:159-168 | returns exactly the watchers of a player |
| WatchIndex.IndexUnique | GameServer/src/Friend/FriendMessage.cpp:99-144 | the index is determined by the relation |
| TimerManager.TimerManager.RunTicks | CommBase/Timer/TimerManager.cpp:180-198 | any number of ticks of the multi-thread manager, whatever the clock reads and whatever callbacks cancel: from any tick on, a timer nobody cancels runs its callback within the countdown it then has, and a repeating one stays in the wheel, so it runs again and again |
| TimerManager.TimerManager.Run | CommBase/Timer/TimerManager.cpp:180-278 | any calls of AddTimer, OnTick and Cancel in any order, moment by moment: each call does its own step on wheel and books; no timer still wanted is missing, every timer held has as target its first one and an interval for each time it ran, a once-timer runs at most once, and nothing runs in a call after its cancel, by a call or by a callback |
| TimerManager.RunsInTime | CommBase/Timer/TimerManager.cpp:23-134 | from any tick of a run, a timer nobody cancels runs within the countdown it has there |
| TimerManager.GoesOn | CommBase/Timer/TimerManager.cpp:226-278 | a repeating timer nobody cancels is in the wheel at every later tick |
| TimerManager.TickKeepsBooks | CommBase/Timer/TimerManager.cpp:180-198 | a tick adds one run and one interval to each repeating timer that ran, and loses none still wanted |
| TimerManager.TimerManager.Cancel | CommBase/Timer/Timer.cpp:70-76 | a cancel marks the timer and nothing else |
| TimerManager.TimerManager.OnTick | CommBase/Timer/TimerManager.cpp:180-198 | one tick, in plain arithmetic: each timer of the slot is dropped, runs, stays, moves by so many slots or comes back as good as new for its next target; the others only take the cancels of the callbacks that ran |
| TimerManager.TimerManager.AddTimer | CommBase/Timer/TimerManager.cpp:200-278 | a new timer gets the next id, 0 left out when the counter wraps, and waits exactly its whole start delay; a start of zero or less, or a cancelled timer, changes nothing |
| TimerManager.TimerManager.Collect | CommBase/Timer/TimerManager.cpp:30-49 | the first loop takes the uncancelled timers of the slot, in id order, and drops exactly the cancelled ones |
| TimerManager.TimerManager.VisitEach | CommBase/Timer/TimerManager.cpp:51-120 | the middle loop does one step of each timer of its list, callbacks included, in order |
| TimerManager.TimerManager.VisitOne | CommBase/Timer/TimerManager.cpp:51-120 | one turn of it, by the tests it makes |
| TimerManager.TimerManager.Clean | CommBase/Timer/TimerManager.cpp:122-133 | exactly the timers that ran leave the slot, and those that repeat are handed back |
| TimerManager.TimerManager.AttachEach | CommBase/Timer/TimerManager.cpp:193-197 | exactly the handed back timers not cancelled by then return, each where its next target says |
| TimerManager.VisitsExactly | CommBase/Timer/TimerManager.cpp:51-120 | the callbacks run are those of the timers due when the visit began, in order; each timer has made its own step and carries the cancels of all |
| TimerManager.CancelsComeTooLate | CommBase/Timer/TimerManager.cpp:32-69 | a timer due at the start of a visit runs whatever the earlier callbacks of that visit cancelled, and no other timer runs |
| TimerManager.TickIs | CommBase/Timer/TimerManager.cpp:180-198 | the three loops and the re-attachment together are one tick, timer by timer |
| TimerManager.TickIsLawful | CommBase/Timer/TimerManager.cpp:23-134 | who runs in a tick, who is in the wheel afterwards, where and in what state |
| TimerManager.SameWheel | CommBase/Timer/TimerManager.cpp:23-134 | an uncancelled timer goes the way of the plain countdown; one that fires is gone, or waits exactly the ticks up to its next target |
| TimerSlots.SlotTable.AddToSlot | CommBase/Timer/TimerManager.cpp:15-21 | puts a timer into one slot; every timer stays in exactly one |
| TimerSlots.SlotTable.Mark | CommBase/Timer/Timer.cpp:70-76 | a cancel marks the timer in whatever slot it is and nothing else |

## Left out

- Session.Session.Recv: after a close midway the messages parsed in that call are not handed up, as in the code; the order of what was handed up before is kept.
- Session.Session.Send: an error after a partial send returns without moving the read index, so bytes can be both sent and kept; conservation is stated for the connection while it is up.
- Link.Link.Run: a malformed header throws the rest of the buffer away, so the pipeline is stated for senders of well-formed messages; the buffer is not resized in the middle of a stream.
- CircleBuffer.CCircleBuff.WriteSend: the announced length is required not to exceed the content handed over, as it is in every call; the code would read past a shorter one.
- Link.Link.Write: the message is one a sender may send, with its fields in range and a frame within the bound; the code does not check this, and a frame above the bound or of mixed byte order is queued all the same (`Session.Session.Write`).
- HandlerQueue.Linearizable: segments are fresh and never reused, so the node pool and its later recycling are not modelled, nor are weaker memory orders.
- SingleTimerManager.SingleTimerManager.AddTimer: the next id is not borne by a timer still held; after 2^32 - 1 timers it can be, and the code then holds two timers under one id.
- SingleTimerManager.SingleTimerManager.Run: stated for the first 2^32 - 1 timers, so that ids are not used again.
- SingleTimerManager.SingleTimerManager.Tick: a callback may cancel any timers; callbacks that add timers are not modelled, nor are ticks between two callbacks of a batch, nor month timers.
- TimerManager.TimerManager.OnTick: a callback may cancel timers; callbacks that add timers, the locks and month timers are not modelled. A moved timer leaves its old slot at once instead of at the end of the visit, and the mark put on a once-timer that fired is not kept, since it leaves the wheel.
- TimerManager.TimerManager.AddTimer: the next id is not borne by a timer still held, as above.
- TimerManager.TimerManager.Run: stated for the first 2^32 - 1 timers, as above.
- ConnectionList.ConnectionList.GetTcpConnection: its three assertions are its precondition; ids come from the table itself.
- ConnectionList.ConnectionList.AddTcpConnection: a new socket is not -1, as the listener checks before the call.
- MemAllocator.MemAllocator.Malloc: the system has memory; when it has none the code writes its tag through a null pointer.
- MemAllocator.MemAllocator.Free: the pointer is null or in use; freeing anything else corrupts a list in the code.
- Md5.Context.Update: inputs for which the loop test wraps are excluded by the exact condition of `Md5.GuardExact`; beyond it the code reads past its input.
- Md5.MyMd5Encrypt: the input is not empty, because the code reads its first byte.
- DispatchMessage.DispatchBase.AddAckTimeOut: the message is put on the send queue before its token is set, so another thread could send it without one; the model takes both as one step.
- PlayerCache.CCharMemCache.SaveToCache: a save for a cached player carries a record of the same player, and one was found in the database when the player was cached; otherwise the code writes another player's row or dereferences null.
- PlayerCache.CCharMemCache.Sweep: collecting the due players and evicting them is one step, so a reader between the two is not modelled.
- PlayerCache.CCharMemCache.Run: a save event for a cached player without a record, or carrying another player's record, is left out, as under SaveToCache.
- MemoryClient.Run: a step on a piece the program does not hold, or beyond its end, is left out, as the pool does not check it.
- DispatchMessage.DispatchBase.AddMessage: a received message never has the error number of a timeout, which does not travel.
- TimerWheel.RoundsTime: an overflow of the 32-bit product wraps around; the language leaves it undefined.
- Sockets, epoll, pipes, files, MySQL, Lua, protobuf, logging and reference counts: their answers are parameters or they do not matter to the properties.
- The MD5 block transform and its constants are a parameter.
- antlib/handlerlib/timer.c, `pop_squeue`, the grown TCP send queue, the URL escape pair, `MemAllocator::realloc` and the sized `free`: they do not keep the property their names suggest.
- Gate, login and game handlers: easy or unfinished.
