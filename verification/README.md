# mOS networking stack: a verified model of its core

mOS/mTCP is a TCP stack in user space. These Dafny modules model the parts whose correctness is hardest to see, each in
the form the C code has: classes over arrays and fields that are updated in place, loops with invariants, and state
machines where two threads or two hosts take turns. Each such method is proved equal to a function on values, and the
lemmas are about those functions.

- **Receive ring** (`SegBuf`, `Frags`, `RingSpec`, `TcpRb`, `RingLaws`): the sorted fragment list over a segmented,
  on-demand, circular store refines a map from stream offsets to octets; order independence; sequence recovery.
- **Byte stream** (`SendBuffer`, `Stream`, `StreamSafety`, `StreamProgress`, `StreamDelivery`, `Endpoints`): sender, network
  and receiver as steps of one protocol over wrapped sequence numbers; prefix safety over every run; what each step has to
  do; when everything written can be delivered.
- **Connection** (`ConnectionSpec`, `ConnectionRaces`, `Connection`): the packet handlers and the close and abort paths
  against a table of states; section 3.2 of RFC 793 over every run; which event gets a connection on; simultaneous close.
- **Stream queue** (`StreamQueue`): one producer and one consumer, every interleaving of their loads and stores.
- **Event dispatch** (`EventSpec`, `DispatchSpec`, `DispatchLaws`, `Registration`, `EventDispatch`): the forest of
  user-defined events, the search with an explicit stack, pruning bitmaps and early return against the recursive
  definition, and every run of definitions and registrations.
- **Pool** (`MemPool`), **round-trip estimation and backoff** (`Rtt`, `RttLaws`), **timing wheel** (`TimingWheel`), **event queues**
  (`EpollSpec`, `Epoll`), **hash and address pool** (`Rss`, `AddrPool`), **checksum** (`Checksum`), **packet filter**
  (`Bpf`, `BpfLaws`). `Bytes`, `Modular` and `Containers` hold machine integers, remainders and lists.

`dafny verify dfyconfig.toml` checks the whole project.

Where a promise of the design does not hold of the code, the model keeps the code, and there is a lemma with the exact
condition under which the promise holds and one with an input for which it does not:

- `StreamSafety.FastRetransmitStaysInBuffer`, `OldDuplicatesPassTheBuffer`: an old acknowledgement is remembered as the
  last one, so three copies of it send snd_nxt below the send buffer.
- `StreamSafety.UnaFollows`, `IdleAckMovesUna`, `StreamDelivery.DeliveryExact`: an acknowledgement exactly 2^31 octets old
  moves snd_una of an idle sender, and what is written after it is never sent.
- `StreamProgress.FlushHalves`, `HalfTheWindow`: a flush counts what it sends twice, so it uses about half the window.
- `StreamProgress.AckFields`, `WindowUpdatesRetransmit`: acknowledgements that only open the window count as duplicates.
- `RingLaws.BufRwSpan`, `FullRingPeek`, `FullRingReached`: a span as long as the ring is taken for one inside a segment.
- `ConnectionSpec.ClosingRace`, `SimultaneousClose`: the control packet of CLOSING is a RST, so a simultaneous close is a
  race between it and the peer's acknowledgement.
- `ConnectionSpec.CloseAfterReset`, `ResetThenFin`: a close request that was put off goes on after a reset.
- `DispatchLaws.HandleExact`, `EarlyReturnLoses`: the early return of HandleCallback drops callbacks below later events.
- `EventSpec.DefineKeepsGood`, `Registration.WalkEndsExactly`, `SelfParent`, `LateParent`: a parent that is not defined
  yet is accepted; UnregCb may then run forever, or a callback never be called. `Registration.UnregisterExact` and
  `DispatchLaws.SiblingLost`: unregistering takes a filter off that a sibling still needs; a comment in the code says
  ft_map is not managed properly.
- `RoundTrip.BoundIsExact`, `FirstTimeoutIsPositive`: from samples of 2^29 on the fixed point ends, and a first sample of
  2^31 gives a timeout of 0.
- `TimingWheel.NeverEarly`, `FiresEarly`: deadlines a lap of the wheel away or more come up early; the list meant for them is unused.
- `EpollSpec.FreedSocketIsTaken`, `OwnEntryAnswered`, `StaleEntry`: the test for left-over events never refuses a socket,
  because freeing it clears its bits, so the next owner can be answered with an entry of the last one.
- `Bpf.StepFaults` with `ConstantZeroIsAccepted`, `BackwardIsAccepted`, `UnknownIsAccepted`, and `Bpf.LoadStays`: what the
  userland validator lets through, although its comment promises a valid program.

## Model

| member | source | states |
|---|---|---|
| RingLaws.PWriteMeaning | core/src/tcp_rb.c:632-781 | offset by offset, what a write leaves in the ring: offsets the window moved past are gone, octets already held keep their value, exactly the missing octets of the accepted part are added with the payload's values, the result is the accepted length, and -1 is returned exactly outside the window |
| RingLaws.WriteThenPeek | core/src/tcp_rb.c:605-629 | a peek at the offset just written returns the whole accepted length, with the payload's octets where they were missing |
| RingLaws.WriteAllMeaning | core/src/tcp_rb.c:632-781 | any list of in-window segments of one stream leaves the window where it was and the ring with exactly the union of what they carry, every octet the stream's |
| RingLaws.OrderIndependent | core/src/tcp_rb.c:632-781 | two lists of segments of one stream that cover the same offsets, in any order and overlap, leave the same ring |
| RingLaws.OneListPerWindow | core/src/tcp_rb.c:51-63 | all fragment lists that represent one window are the same list |
| RingLaws.InOrderEndOfSegments | core/src/tcp_rb.c:434-447 | in a ring that started empty, read point plus contiguous length is the first offset of the window that no segment has covered |
| RingLaws.PileInFirstFragment | core/src/tcp_rb.c:412-431 | the read point is the window's head or inside the first fragment, which then starts at that head |
| RingLaws.Seq2LoffRecovers | core/src/tcp_rb.c:344-352 | the wrapped sequence number of offset o is turned back into o exactly if o is less than 2^32 at or above the window's head; below the head the answer is off by whole laps |
| RingLaws.Seq2Loff | core/src/tcp_rb.c:344-352 | the method computes that recovery |
| RingLaws.BufRwSpan | core/src/tcp_rb.c:293-342 | buf_rw's one-copy branch stays inside its segment exactly for spans shorter than the ring, or for a one-segment ring from its start: a full-ring span is taken for a span inside one segment |
| RingLaws.FullRingPeek | core/src/tcp_rb.c:605-629 | a peek comes to a full-ring span exactly if the ring is full, the read point is at its head and at least the whole ring is asked for |
| Fragments.CanonicalUnique | core/src/tcp_rb.c:51-63 | two sorted lists of non-empty fragments with gaps between neighbours that cover the same offsets are equal |
| Fragments.GrowRightCovers | core/src/tcp_rb.c:684-712 | growing a fragment at its tail, with the merge into its neighbour, keeps the list canonical and covers exactly the octets written in addition, none of which was covered |
| Fragments.GrowLeftCovers | core/src/tcp_rb.c:714-734 | the same for growing a fragment at its head |
| Fragments.InsertCovers | core/src/tcp_rb.c:744-755 | the same for a new fragment in a gap |
| Fragments.CutFirstCovers | core/src/tcp_rb.c:450-480 | cutting the first fragment drops exactly the offsets the window moves past |
| RingLaws.FullRingReached | core/src/tcp_rb.c:632-781 | a ring of any size above one gets there from tcprb_new by two writes |
| RingSpec.FitsExactly | core/src/tcp_rb.c:632-653 | of the payloads that start in the window, those written in a piece as long as the ring or longer are exactly those as long as the ring that start at or below the read point |
| RingSpec.PWriteWf | core/src/tcp_rb.c:632-781 | a write keeps the read point inside the in-order data and everything held inside the window, and the in-order end never goes back |
| RingSpec.FfHeadWf | core/src/tcp_rb.c:450-480 | a fast forward keeps that too and drops no octet the application has not read |
| TcpRingBuffer.TcpRb.PWrite | core/src/tcp_rb.c:632-781 | the skip, extend, merge or create loop over the fragment list and the segmented store does what the map from offsets to octets says, keeps the list canonical and the store in step, and terminates |
| TcpRingBuffer.TcpRb.WriteAccepted | core/src/tcp_rb.c:659-762 | the loop itself, for the accepted part of the payload |
| TcpRingBuffer.TcpRb.ListStep | core/src/tcp_rb.c:669-755 | one pass over the fragment list: a positive number of octets, all held already or all missing before, and the list is canonical again |
| TcpRingBuffer.TcpRb.PPeek | core/src/tcp_rb.c:605-629 | returns exactly the octets held from the offset to the end of its fragment, at most len of them |
| TcpRingBuffer.TcpRb.SetPile | core/src/tcp_rb.c:412-431 | moves the read point only inside the in-order data |
| TcpRingBuffer.TcpRb.CfLen | core/src/tcp_rb.c:434-447 | the length of the in-order data after the read point |
| TcpRingBuffer.TcpRb.FfHead | core/src/tcp_rb.c:450-480 | the window's head moves over at most what was read, and the list and the store follow |
| TcpRingBuffer.RunEndIsTail | core/src/tcp_rb.c:605-629 | the run of held octets from inside a fragment ends at that fragment's tail |
| SegmentedBuffer.SegBuf.BufGetBuf | core/src/tcp_rb.c:116-143 | the segment of a ring position, allocated on the way; old segments keep their place and their octets |
| SegmentedBuffer.SegBuf.BufWrite | core/src/tcp_rb.c:293-342 | the octets of a span shorter than the ring land at their positions, over segment borders and the end of the ring, and no other position changes |
| SegmentedBuffer.SegBuf.BufRead | core/src/tcp_rb.c:293-342 | reading a span returns the octets at its positions |
| StreamSafety.PrefixSafety | core/src/tcp_in.c:546-697 | over every run of writes, flushes, timeouts, network loss, duplication and reordering, receives, reads and acknowledgements: what was read is a prefix of what was written, the sender has dropped only octets the receiver holds in order, those not yet read are in the ring with the right value, and each step finds a well-formed ring, a segment shorter than it, and snd_nxt at an acknowledged number or within the buffer's reach |
| StreamSafety.StepKeeps | core/src/tcp_in.c:467-523 | each step keeps the invariant behind it, for data and acknowledgements less than 2^32 octets old |
| StreamSafety.FlushOneSends | core/src/tcp_out.c:441-507 | a segment carries the stream's octets at its sequence number and ends at or before snd_una plus the window, in true offsets |
| StreamSafety.FlushSends | core/src/tcp_out.c:441-507 | a whole flush (FlushMaximal says how much) sends the buffered octets from snd_nxt on, in order and without gap, leaves snd_nxt after them, and no segment is longer than the maximum or ends beyond snd_una plus the window |
| StreamSafety.FlushAllIsFlush | core/src/tcp_out.c:441-507 | the protocol's flush is that flush, with its segments on the network |
| StreamSafety.FlushAllSends | core/src/tcp_out.c:441-507 | and all its segments are on the network, each at the offset of its first octet |
| StreamSafety.OldAckIgnored | core/src/tcp_in.c:334-365 | the first test of ProcessACK holds exactly for an acknowledgement between 2^31 and 2^32 octets old, which then changes nothing but the peer's window |
| StreamSafety.AckCompares | core/src/tcp_in.c:334-475 | for all other acknowledgements the wrapped comparisons of ProcessACK decide what the true offsets say, but for distances of exactly 2^31, which are named |
| StreamSafety.AckOnBuffer | core/src/tcp_in.c:466-523 | an acknowledgement drops exactly the octets below it from the send buffer, and what snd_una and snd_nxt become |
| StreamSafety.PassesWindow | core/src/tcp_in.c:546-697 | a segment less than 2^32 octets old that passes both window tests really ends inside the window |
| StreamSafety.WritesAtTrueOffset | core/src/tcp_rb.c:344-352 | such a segment is written at its true offset, or refused because that is below the window |
| StreamSafety.FastRetransmitStaysInBuffer | core/src/tcp_in.c:398-410 | an acknowledgement leaves snd_nxt at or above the first buffered octet, as FlushTCPSendingBuffer asserts, exactly if it is not an old one counted as the third duplicate |
| StreamSafety.NeverBelowBuffer | core/src/tcp_out.c:444-450 | in every run without an old third duplicate, and without an acknowledgement exactly 2^31 octets old at an empty buffer, snd_nxt is at or above the first buffered octet in every state and snd_una is at it |
| StreamSafety.UnaFollows | core/src/tcp_in.c:466-523 | an acknowledgement leaves snd_una where the send buffer starts exactly if it does not meet an empty buffer at an age of 2^31 octets |
| StreamSafety.IdleAckMovesUna | core/src/tcp_in.c:466-523 | such an acknowledgement moves snd_una of an idle sender back by 2^31, and a timeout then snd_nxt |
| StreamSafety.OldDuplicatesPassTheBuffer | core/src/tcp_in.c:379-410 | four copies of one old acknowledgement send snd_nxt below the send buffer |
| StreamProgress.PassesExactly | core/src/tcp_in.c:559-585 | for every segment that may be delivered the two window tests pass exactly if it ends between the first missing octet and the end of the window, in true offsets |
| StreamProgress.ReceiveExact | core/src/tcp_in.c:546-697 | for every segment that may be delivered: one that does not end in the window changes nothing; any other leaves rcv_nxt at the first missing octet and rcv_wnd at the ring size less the unread in-order octets, and TRUE is returned exactly if the first missing octet moved; if it starts in reach, an offset not below the new head is held exactly if it was or is the segment's and fits, what was held is unchanged and what is new is the stream's |
| StreamProgress.InOrderMoves | core/src/tcp_in.c:648-697 | a segment that ends in the window moves rcv_nxt exactly if it starts at or below the first missing octet, and not below the ring, and ends above it; then past all of it that the ring takes |
| StreamProgress.ReadExact | core/src/api.c:1470-1499 | a read hands over all there is in order, up to the length asked for, and leaves rcv_wnd at the room behind the rest |
| StreamProgress.OneTrip | core/src/api.c:1470-1499 | a segment that brings the first missing octet, then a read of all there is: the application has the stream at least to the end of that segment |
| StreamProgress.WindowStaysTrue | core/src/tcp_in.c:675-676 | once rcv_wnd is the room there is, every step keeps it so |
| StreamProgress.FlushOneExact | core/src/tcp_out.c:441-499 | one turn of the loop sends nothing exactly if the least of buffered octets, segment length and window left is none or would end beyond snd_una and the window left, and otherwise exactly that many octets |
| StreamProgress.FlushMaximal | core/src/tcp_out.c:441-507 | a flush ends only where no packet buffer is left or nothing more may be sent, and every segment is as long as may be sent at its turn |
| StreamProgress.FlushHalves | core/src/tcp_out.c:466-499 | a flush that starts with everything acknowledged sends half the window and half a segment at most: the window left shrinks by what the distance from snd_una counts again |
| StreamProgress.HalfTheWindow | core/src/tcp_out.c:466-499 | a window of 8 octets takes 4 of 8 buffered ones |
| StreamProgress.PutFills | core/src/api.c:1728-1767 | a write takes octets from the front until there are no more or the buffer is full, and appends them |
| StreamProgress.AckFields | core/src/tcp_in.c:334-426 | what every acknowledgement does beside the buffer: peer_wnd is its window; the window's stamps become its numbers exactly if it is newer; duplicate count and last acknowledgement; snd_nxt on the third duplicate and on an acknowledgement above it |
| StreamProgress.WindowUpdatesRetransmit | core/src/tcp_in.c:355-410 | three acknowledgements that only change the window send snd_nxt back as a fast retransmission does, since the window they are compared with is already their own |
| StreamDelivery.DeliveryExact | core/src/tcp_in.c:305-697 | from every state of every run that starts with an open window: some steps of the protocol lead to everything written being read and acknowledged, if and only if snd_una is where the send buffer starts or the buffer is empty |
| StreamDelivery.AliveOrStuck | core/src/tcp_in.c:466-523 | only an acknowledgement 2^31 octets old that meets an empty buffer takes a connection out of the states from which everything can be delivered |
| StreamDelivery.StuckStays | core/src/tcp_out.c:441-507 | after it no steps send anything again |
| Endpoints.TcpSender.CopyFromUser | core/src/api.c:1728-1767 | puts as many octets as the buffer takes at the end of the send buffer and returns their number, or -1 |
| Endpoints.TcpSender.FlushTCPSendingBuffer | core/src/tcp_out.c:415-512 | the loop over the send buffer does the protocol's flush step, and stops only where no packet buffer is left or nothing more may be sent |
| Endpoints.TcpSender.ProcessACK | core/src/tcp_in.c:305-540 | does the protocol's acknowledgement step: window update, duplicate count, fast retransmission, removal |
| Endpoints.TcpReceiver.ProcessTCPPayload | core/src/tcp_in.c:546-697 | does the protocol's receive step on the ring, rcv_nxt and the window |
| Endpoints.TcpReceiver.CopyToUser | core/src/api.c:1470-1499 | does the protocol's read step |
| SendBuffers.SendBuffer.SBPut | core/src/tcp_send_buffer.c:102-131 | appends what fits to the buffered octets, through the compaction, and returns its length, 0 or -2 |
| SendBuffers.SendBuffer.SBRemove | core/src/tcp_send_buffer.c:134-158 | drops the oldest octets and moves head_seq over them |
| ConnectionSpec.RunSafety | core/src/tcp_in.c:905-1268 | over every run: each event leaves the state, takes one edge of section 3.2 of RFC 793 or one of two pairs of edges, or aborts the connection, no state is entered again, at most one FIN of the peer moves rcv_nxt, FIN_WAIT_2 and TIME_WAIT mean our FIN was sent and acknowledged, TIME_WAIT that the peer's FIN was taken too |
| ConnectionSpec.StepKeepsInv | core/src/tcp_in.c:1271-1397 | every packet, call, queue and timer event keeps the invariant about the two FINs and the application's one request |
| ConnectionSpec.StatesClimb | core/src/core.c:594-691 | along every run the state moves on in one fixed order or stays |
| ConnectionSpec.StepTakesPath | core/src/tcp_in.c:905-1268 | one event makes no change of state, one edge or an abort, or one of the two pairs of edges the code takes in one packet: SYN_RCVD to CLOSE_WAIT and FIN_WAIT_1 to TIME_WAIT |
| ConnectionSpec.LastAckRace | core/src/tcp_in.c:995-1052 | over every run from LAST_ACK: our FIN counts as acknowledged if and only if an acknowledgement of fss + 1 that is not stale comes before a RST and before the stack gives up |
| ConnectionSpec.ClosingRace | core/src/tcp_out.c:515-569 | the control packet of CLOSING is a RST, as the case falls through, so the peer's FIN is never acknowledged from there; over every run from there, CLOSING gets to TIME_WAIT if and only if our FIN is acknowledged before that control packet leaves, a RST arrives or the stack gives up |
| ConnectionSpec.SimultaneousClose | core/src/tcp_in.c:1055-1165 | a run from an active open in which both ends close at once reaches CLOSING, and either ending can follow |
| ConnectionSpec.CloseAfterReset | core/src/core.c:594-691 | over every run after a reset with a close request pending: the connection goes through FIN_WAIT_1 or LAST_ACK if and only if the request had been put off to the internal queue and that queue is served before the stack gives up |
| ConnectionSpec.ResetThenFin | core/src/core.c:622-631 | a run from an active open that gets there |
| ConnectionRaces.Race | core/src/tcp_in.c:905-1268 | over every run from SYN_RCVD, ESTABLISHED, CLOSE_WAIT, FIN_WAIT_1, FIN_WAIT_2 or CLOSING: the connection comes to one of the states that are to follow if and only if the event that takes it there comes before a RST that counts, a served request, the destroy queue and the stack giving up |
| ConnectionRaces.PeerCloses | core/src/tcp_in.c:957-962 | over every run from ESTABLISHED: CLOSE_WAIT is visited if and only if an in-order FIN without SYN or RST comes before a RST, a served request and the stack giving up |
| ConnectionRaces.WeCloseToo | core/src/core.c:594-691 | over every run from CLOSE_WAIT: LAST_ACK is visited if and only if the close request is served first |
| ConnectionRaces.PeerClosesToo | core/src/tcp_in.c:1168-1220 | over every run from FIN_WAIT_2: TIME_WAIT is visited if and only if the peer's in-order FIN comes with an ACK before a RST and the stack giving up |
| ConnectionRaces.PacketEdges | core/src/tcp_in.c:1271-1397 | for a packet without RST, in each state and for each other state, exactly when it takes the connection there, and that the peer's FIN is counted on exactly its own edges |
| ConnectionRaces.RstEdges | core/src/tcp_in.c:175-248 | a RST destroys a connection we have closed, or one in SYN_RCVD if it is for our SYN, and ends an open one without a pending request; otherwise it is only noted |
| ConnectionRaces.PassiveClose | core/src/tcp_in.c:957-1052 | a run from an active open in which the peer closes first: CLOSE_WAIT, LAST_ACK, our FIN acknowledged |
| ConnectionRaces.ActiveClose | core/src/tcp_in.c:1055-1220 | one in which we close first: FIN_WAIT_2, TIME_WAIT, the end |
| ConnectionRaces.PassiveOpen | core/src/tcp_in.c:823-902 | a run from LISTEN to ESTABLISHED |
| Connection.AcksAreTaken | core/src/tcp_in.c:904-1268 | an acknowledgement that is not old brings snd_nxt and snd_una where ProcessACK does in every state with something to be acknowledged, and one of our FIN past it |
| Connection.TcpStream.UpdateRecvTCPContext | core/src/tcp_in.c:1271-1397 | the handlers do the table's step for the packet, and rcv_nxt moves by the accepted payload plus one for a FIN taken, in exactly the cases where payload and FIN are looked at; snd_nxt and snd_una as the state has them, past our FIN once it is acknowledged |
| Connection.TcpStream.HandleSynSent | core/src/tcp_in.c:729-821 | SYN_SENT: what each kind of answer does to the state and to the four sequence variables |
| Connection.TcpStream.HandleSynRcvd | core/src/tcp_in.c:823-902 | SYN_RCVD: the handshake completes on an acknowledgement, or the connection is aborted for want of room; otherwise snd_nxt goes back |
| Connection.TcpStream.HandleEstablished | core/src/tcp_in.c:904-976 | ESTABLISHED: payload, acknowledgement, and a FIN exactly if it ends at the new rcv_nxt |
| Connection.TcpStream.HandleFinWait1 | core/src/tcp_in.c:1055-1165 | FIN_WAIT_1: the acknowledgement of our FIN first, then payload and the peer's FIN, which may end it in FIN_WAIT_2, CLOSING or TIME_WAIT |
| Connection.TcpStream.HandleFinWait2 | core/src/tcp_in.c:1168-1220 | FIN_WAIT_2: payload, and the peer's FIN to TIME_WAIT |
| Connection.TcpStream.HandleClosing | core/src/tcp_in.c:1223-1268 | CLOSING: TIME_WAIT on the acknowledgement of our FIN only |
| Connection.TcpStream.HandleLastAck | core/src/tcp_in.c:995-1052 | LAST_ACK: closed on the acknowledgement of our FIN only |
| Connection.TcpStream.ProcessRST | core/src/tcp_in.c:175-248 | what a RST does in each state; with a request to close or reset pending the state stays |
| Connection.TcpStream.RequestClose | core/src/api.c:1198-1268 | a close call frees the socket; it is queued exactly in ESTABLISHED and CLOSE_WAIT, and in SYN_SENT and CLOSED_RSVD the stream goes to the destroy queue |
| Connection.TcpStream.RequestReset | core/src/api.c:1398-1452 | mtcp_abort frees the socket; it changes the state at once, does nothing, or queues the request, by state |
| Connection.TcpStream.HandleReset | core/src/core.c:693-728 | serving the reset queue: the reset case, the delay while anything is being sent, or CLOSED_RSVD |
| Connection.TcpStream.HandleDelayedReset | core/src/core.c:731-753 | serving the internal reset queue |
| Connection.TcpStream.ServeDestroyQueue | core/src/core.c:755-758 | serving the destroy queue |
| Connection.TcpStream.HandleClose | core/src/core.c:594-664 | serving the close queue: fss, the reset case, the delay while data is being sent, FIN_WAIT_1 or LAST_ACK |
| Connection.TcpStream.HandleDelayedClose | core/src/core.c:666-691 | serving the internal close queue |
| Connection.TcpStream.SendControlPacket | core/src/tcp_out.c:515-569 | what goes out in each state; every FIN is sent with the sequence number fss and takes one sequence number |
| StreamQueue.Linearizable | core/src/tcp_stream_queue.c:181-213 | under every interleaving of the single loads and stores of one producer and one consumer, the calls took effect one after the other so that a sequential FIFO queue of the capacity gives the same answers, each thread's answers are its calls in that history, the history only grows, and each call takes effect while it runs |
| StreamQueue.RealTimeOrder | core/src/tcp_stream_queue.c:181-213 | at any moment the calls that have returned are all before those that begin later, in that history and whichever threads they are of |
| StreamQueue.FifoInEveryRun | core/src/tcp_stream_queue.c:181-213 | what was dequeued is a prefix of what was enqueued, and at most capacity streams are between |
| StreamQueue.ReplayIsFifo | core/src/tcp_stream_queue.c:181-213 | a history of the sequential queue loses nothing, doubles nothing and keeps the order |
| StreamQueue.FullIsSeen | core/src/tcp_stream_queue.c:181-196 | the producer refuses exactly if the queue held capacity streams when it loaded _head |
| StreamQueue.SlotIsFree | core/src/tcp_stream_queue.c:181-196 | the slot the producer stores to holds nothing published |
| StreamQueue.NeverStuck | core/src/tcp_stream_queue.c:181-213 | no interleaving reads outside the array or dequeues an empty slot: the assertion on the stream holds |
| StreamQueue.WaitFree | core/src/tcp_stream_queue.c:181-213 | under every interleaving a call takes at most four steps of its own thread, which never waits for the other |
| StreamQueue.RunInv | core/src/tcp_stream_queue.c:121-213 | the invariant over memory, both threads' locals and the history holds after every interleaving |
| StreamQueue.InternalQueue.Enqueue | core/src/tcp_stream_queue.c:81-99 | appends, or refuses exactly when full |
| StreamQueue.InternalQueue.Dequeue | core/src/tcp_stream_queue.c:101-119 | takes the oldest, or NULL exactly when empty |
| EventDispatch.EventPointer.HandleCallback | core/src/event_callback.c:597-727 | for every set of built-in events: with ft_map as registrations keep it, and the last of the events with something registered at or below them registered itself or the only one, it calls exactly the registered events below them that every filter on the way lets through, each once and ancestors first; on any bitmaps, what the specification of the loop and its early return says |
| DispatchLaws.HandleOne | core/src/event_callback.c:597-727 | one raised event, whatever is registered: it calls what the recursive definition calls, so exactly the registered events below it that every filter on the way lets through, with the data of the last filter, each once and ancestors first |
| DispatchLaws.HandleCalls | core/src/event_callback.c:597-727 | the same for sets of events, under that condition |
| Registration.RunExact | core/src/event_callback.c:218-557 | over every run of definitions, registrations and unregistrations: the tables are a forest and ft_map covers every event above a registered one in every state, if and only if no event was defined below one that does not exist and no unregistration took off a filter another event needs |
| Registration.RunHandlesOne | core/src/event_callback.c:218-727 | so in every run without those steps, one raised event calls exactly what it should |
| EventDispatch.EventPointer.Search | core/src/event_callback.c:675-722 | the search below one event with an explicit stack calls exactly what the recursive definition calls, in its order, and takes exactly those bits; its stack never holds more than NUM_UDE + 1 frames and it terminates |
| EventDispatch.EventPointer.NextEvent | core/src/event_callback.c:690-722 | one run of the inner loop goes on to the next event whose callback is due, or finds nothing left |
| DispatchSpec.VisitCalls | core/src/event_callback.c:597-727 | the recursive definition calls a callback exactly if it is registered and every filter on the way from the event lets it through, with the data of the last filter |
| DispatchSpec.VisitOrder | core/src/event_callback.c:597-727 | it calls no callback twice and none before one of an ancestor |
| DispatchSpec.InSight | core/src/event_callback.c:706-712 | during the search the working bitmaps say of the next child what the registered ones say |
| DispatchSpec.NothingLeft | core/src/event_callback.c:688-691 | with no callback left to come below an event, nothing is left to call there |
| DispatchLaws.SearchExact | core/src/event_callback.c:706-712 | passing over events on neither bitmap loses no call, whatever the filters answer, if and only if every event on the way to a registered one is on a bitmap |
| DispatchLaws.HandleExact | core/src/event_callback.c:664-727 | handling a set of events calls all that is due, whatever the filters answer, if and only if whenever two of them have something registered at or below them, one not before the later of the two is registered itself: the early return does not see callbacks below events that come later |
| DispatchLaws.EarlyReturnLoses | core/src/event_callback.c:688-691 | two raised events with one callback at the first and one below the second: the second is not called |
| DispatchSpec.RegisterCovers | core/src/event_callback.c:218-276 | registration keeps ft_map covering every event above a registered one |
| Registration.UnregisterExact | core/src/event_callback.c:278-329 | unregistering any set of events keeps that exactly if no walk up from one of them takes an event off that still has something registered below it |
| Registration.WalkEndsExactly | core/src/event_callback.c:285-306 | the walk of UnregCb from an event ends whatever is registered, on any tables, exactly if its parents lead to a built-in event |
| Registration.GoodReaches | core/src/event_callback.c:285-306 | on tables without undefined parents they do |
| Registration.SelfParent | core/src/event_callback.c:502-557 | an event defined below itself is accepted, and the walk from it then never ends |
| Registration.LateParent | core/src/event_callback.c:502-557 | an event defined below one that is defined afterwards is not among the descendants of the built-in event above, and its registration puts nothing on the bitmaps that event looks at |
| DispatchLaws.SiblingLost | core/src/event_callback.c:278-329 | two siblings registered, one unregistered: the other should be called, and the handling of the event calls nothing |
| DispatchSpec.DefineCovers | core/src/event_callback.c:502-557 | a later definition keeps that too, exactly if the new event was not registered before it existed or all above it is on ft_map already |
| EventDispatch.EventPointer.RegCb | core/src/event_callback.c:378-429 | registers all the events or, if one is unknown or taken, none; ft_map goes on covering them |
| EventDispatch.EventPointer.UnregCb | core/src/event_callback.c:278-421 | unregisters all the events or, if one is unknown or has no callback, none; the loop over them and up the parents, with the exact condition under which ft_map still covers the registered events |
| EventSpec.DefineKeepsGood | core/src/event_callback.c:502-557 | a definition keeps the tables a forest whose descendants are its transitive closure exactly if the event named as parent exists or is not a user-defined one |
| EventSpec.DefineExact | core/src/event_callback.c:502-557 | a definition is refused exactly when all ids are taken or the parent's row is full, and otherwise takes the first free id below that parent |
| EventDispatch.Events.DefineEvent | core/src/event_callback.c:502-557 | the search for a free id and a free entry and the table updates; nothing changes for a mask that is not one bit, a missing filter, or full tables |
| EventSpec.SiblingsApart | core/src/event_callback.c:502-557 | the subtrees of two children of one event have nothing in common |
| MemPool.NoDoubleAllocation | core/src/memory_mgt.c:106-156 | over every sequence of allocations and legal frees, a chunk is handed out only while it is not in use and an allocation fails only when all are in use |
| MemPool.CallsKeep | core/src/memory_mgt.c:106-156 | free runs are disjoint and with the chunks in use make up the pool, and the chunks in use are those taken and not given back |
| MemPool.AllocateKeeps | core/src/memory_mgt.c:106-135 | one allocation keeps that and hands out a chunk that was free |
| MemPool.FreeKeeps | core/src/memory_mgt.c:137-156 | one legal free keeps it and adds one chunk to the count |
| MemPool.Allocator.AllocateChunk | core/src/memory_mgt.c:106-135 | the headers inside the free chunks do that, and no chunk in use changes |
| MemPool.Allocator.FreeChunk | core/src/memory_mgt.c:137-156 | the chunk becomes a run of one at the front of the list, no other chunk in use changes, and its address passes the alignment assertion |
| MemPool.Allocator.Write | core/src/memory_mgt.c:15-36 | what the owner of a chunk writes there, whatever it is, leaves every header and every other chunk alone |
| MemPool.Create | core/src/memory_mgt.c:39-104 | enough chunks for the size and no more, or null for a chunk size it rejects |
| RoundTrip.TimeoutBounded | core/src/tcp_in.c:251-302 | for any number of samples in [lo, hi], 1 <= lo and hi < 2^29: srtt / 8 stays in [lo, hi], the deviations stay at or below max(4 (hi - lo) + 3, 2 hi) with mdev_max at or below rttvar, and the timeout is in [lo, hi + that bound], so positive |
| RoundTrip.BoundIsExact | core/src/tcp_in.c:251-302 | samples in [lo, hi] always leave a fresh connection with that estimate if and only if hi is below 2^29 |
| RoundTrip.DevStays | core/src/tcp_in.c:265-276 | mdev never goes below zero nor above its bound |
| RoundTrip.FirstTimeoutIsPositive | core/src/tcp_in.c:290-296 | for a first sample of any size the assertion on the timeout fails exactly for 2^31 |
| RoundTrip.FirstSampleIsKept | core/src/tcp_in.c:290-296 | a first sample is its own estimate exactly below 2^29 |
| RoundTripLaws.SampleIsFollowed | core/src/tcp_in.c:264-266 | for samples below 2^29: each brings srtt nearer to 8 m by an eighth of the distance, up to the rounding of one shift, never across it, and in whole units by the difference of m and srtt / 8 |
| RoundTripLaws.DeviationIsFollowed | core/src/tcp_in.c:265-276 | mdev goes a quarter of the way to the new error; where a sample below the estimate would raise it, an eighth of that |
| RoundTripLaws.RoundIsFollowed | core/src/tcp_in.c:277-289 | mdev_max is the top of the round and rttvar at least that; the end of a round takes rttvar a quarter of the way down and starts mdev_max at 0 |
| RoundTripLaws.FirstIsTaken | core/src/tcp_in.c:290-296 | a first sample is taken as it is, with half of it as the deviation |
| RoundTripLaws.SteadyPath | core/src/tcp_in.c:250-302 | for any number of equal samples m, each of which ends a round: after as many as srtt was away from 8 m the estimate is m, and after twice the deviation bound more the timeout is in [m, m + 6] |
| RoundTrip.Timeouts.EstimateRTT | core/src/tcp_in.c:250-302 | the updates in place compute that estimate, with the wrap-around of the 32-bit variables |
| RoundTrip.Timeouts.MeasureAck | core/src/tcp_in.c:483-488 | the use in ProcessACK for any sample, and whether the assertion there passes; it does for samples below 2^29 |
| RoundTrip.TimeoutStaysPositive | core/src/timer.c:182-238 | over every run of timeouts, handshakes, acknowledgements and samples below 2^29, from any initial timeout below 2^26 (TCP_INITIAL_RTO is 500): the timeout is positive, so its assertions hold, and while the connection opens it is the initial one doubled at each timeout, six times at most |
| RoundTrip.BackoffDoubles | core/src/timer.c:221-233 | each timeout of an established connection without an acknowledgement doubles the next one, seven times |
| RoundTripLaws.ProgressRestarts | core/src/timer.c:156-238 | after progress the backoff starts again: the next timeout is twice the estimate's |
| RoundTrip.Timeouts.HandleRTO | core/src/timer.c:182-253 | does the timeout step of that run; congestion window and threshold; gives up after TCP_MAX_RTX |
| TimingWheel.RtoStore.CheckRtmTimeout | core/src/timer.c:380-438 | a sweep hands over, each once, only streams whose first visit by the clock is due by now, and unless the threshold stops it all of those; one put on the wheel less than RTO_HASH ticks ahead is not handed over before its deadline; all others keep their slot and deadline |
| TimingWheel.NeverEarly | core/src/timer.c:49-56 | the clock comes by a stream's slot before its deadline exactly if that was RTO_HASH ticks away or more when it was put there |
| TimingWheel.FiresEarly | core/src/timer.c:380-438 | at any time: of two streams put on an empty wheel, one for now and one for a lap later, the next sweep hands over the second too |
| TimingWheel.RtoStore.AddtoRTOList | core/src/timer.c:31-67 | an empty wheel starts over at the deadline, and the stream goes to the slot congruent to it; nothing for a stream already there or in TIME_WAIT |
| TimingWheel.RtoStore.RemoveFromRTOList | core/src/timer.c:69-82 | the stream leaves its list and nothing else changes |
| TimingWheel.RtoStore.Tick | core/src/timer.c:425-429 | a tick keeps every waiting stream congruent to its deadline and passes none by |
| TimingWheel.OutcomeJoins | core/src/timer.c:396-432 | sweeps of several slots add up to one |
| EpollSpec.NoDuplicates | core/src/eventpoll.c:544-605 | over every run: a set event bit has an entry on a queue, no event is delivered more often than it was registered, no queue exceeds its size |
| EpollSpec.OnlyFetchOrFreeClears | core/src/eventpoll.c:458-533 | a bit is cleared only by a fetch that meets an entry for it, or with its socket |
| EpollSpec.FetchDelivers | core/src/eventpoll.c:458-533 | an event that is set, wanted and queued is delivered by a fetch with room for it, and its bit is cleared |
| EpollSpec.FlushKeeps | core/src/core.c:516-539 | moving events to the user queue keeps all of them and their order, and stops only when one queue is empty or the other full |
| EpollSpec.WaitKeeps | core/src/eventpoll.c:458-533 | a fetch keeps that and counts exactly what it returns as delivered, at most maxevents |
| EpollSpec.WaitOnlyDue | core/src/eventpoll.c:458-533 | nothing else is delivered: each entry was on one of the two queues, for an event that was set and in the interest of its socket, and the socket is in use |
| EpollSpec.FreedIsSilent | core/src/socket.c:132-165 | a freed socket gets nothing, whatever is queued for it |
| EpollSpec.WaitAnswersFirst | core/src/eventpoll.c:458-533 | a fetch with room for all that is queued delivers a set and wanted event once, with the first entry for it in the two queues |
| EpollSpec.FreedSocketIsTaken | core/src/socket.c:96-131 | a freed socket passes the test for left-over events, whatever is queued |
| EpollSpec.OwnEntryAnswered | core/src/socket.c:132-165 | for every state in which a socket is freed and allocated again, and every queue its new owner's event is raised on: the fetch delivers the new owner's entry if and only if no entry for the same event was left ahead of it (or one with the same data), and otherwise the first of those |
| EpollSpec.StaleEntry | core/src/socket.c:132-165 | a run in which the new owner's first event is answered with the old owner's data |
| EventPoll.MtcpEpoll.AddEpollEvent | core/src/eventpoll.c:543-605 | raising an event: nothing for a set bit, -1 for a full queue, otherwise bit and entry |
| EventPoll.MtcpEpoll.FlushEpollEvents | core/src/core.c:516-539 | the loop over the circular queues does that move |
| EventPoll.MtcpEpoll.EpollWait | core/src/eventpoll.c:458-533 | the two fetch loops do that fetch |
| Rss.HashLinear | core/src/util.c:61-99 | the hash of the exclusive or of two 96-bit tuples is the exclusive or of their hashes |
| Rss.HashBits | core/src/util.c:61-99 | bit b of the hash is the parity of the 96 tuple bits i for which bit i + b of the key is set, ports included |
| Rss.HashSymmetric | core/src/util.c:61-99 | with this key both directions of a connection have the same hash |
| Rss.WindowIsKey | core/src/util.c:28-59 | each cached word is the key's 32 bits from its position on, bit by bit |
| Rss.BuildKeyCache | core/src/util.c:27-59 | entry i of the cache is the key's window at bit i |
| Rss.GetRSSHash | core/src/util.c:61-99 | the four loops compute the Toeplitz hash |
| Rss.RedirectReverses | core/src/util.c:114-131 | the redirection table of the second card reverses groups of four |
| Rss.SameCoreBothWays | core/src/util.c:114-131 | both directions of a connection come to one core |
| Rss.EveryCoreIsUsed | core/src/util.c:114-131 | no core is left out: each of up to 128 queues, or 512 behind the redirection, has its hash |
| AddressPool.Pool.constructor | core/src/addr_pool.c:108-192 | the pool holds only addresses of the space whose connections come to the core, none twice, at most its share, and all of them if it is not full |
| AddressPool.Pool.FetchAddressPerCore | core/src/addr_pool.c:268-294 | hands out an address nobody has, on the core in both packet directions, or fails exactly when none is free |
| AddressPool.Pool.FreeAddress | core/src/addr_pool.c:296-343 | takes it back; -1 for an address the pool does not know |
| Checksum.FilledSegmentVerifies | core/src/tcp_util.c:157-190 | for every segment, odd lengths included, filling the zeroed checksum word with the computed value makes the receiver compute 0 |
| Checksum.TotalIsWordSum | core/src/tcp_util.c:157-190 | the sum is that of the words of the twelve octets of the pseudo header of section 3.1 of RFC 793 and the segment behind them |
| Checksum.TCPCalcChecksum | core/src/tcp_util.c:157-190 | the loop computes the folded complement of the sum without overflow, and 0 exactly if the one's-complement sum is 0 modulo 65535 |
| Checksum.FinishIsComplement | core/src/tcp_util.c:182-189 | two folds are enough: the result is the number that makes the sum 0 modulo 65535, never the second zero |
| Bpf.AcceptedRuns | core/src/bpf/sf_bpf_filter.c:214-536 | an accepted program without unknown codes, division by a constant zero and wrapped jumps runs to a return on every packet in at most as many steps as it is long, unless a wrapped offset is loaded |
| Bpf.StepFaults | core/src/bpf/sf_bpf_filter.c:549-692 | for each instruction of an accepted program, which faults the validator has excluded and exactly when the others happen |
| Bpf.PlainRuns | core/src/bpf/sf_bpf_filter.c:241-371 | without offsets that wrap no run reads outside the packet |
| Bpf.LoadStays | core/src/bpf/sf_bpf_filter.c:241-346 | a load leaves the packet exactly if its offset wraps round the end of the address range to inside it |
| Bpf.Validate | core/src/bpf/sf_bpf_filter.c:549-692 | the loop accepts exactly the programs the specification accepts |
| Bpf.Filter | core/src/bpf/sf_bpf_filter.c:214-536 | the interpreter's loop over its registers and scratch memory does the specified run |
| Bpf.ConstantZeroIsAccepted | core/src/bpf/sf_bpf_filter.c:630-637 | the test for a constant divisor never fires, because the operation's own bits are read as the operand's kind |
| Bpf.BackwardIsAccepted | core/src/bpf/sf_bpf_filter.c:671-677 | a backward jump is accepted and leaves the program |
| Bpf.UnknownIsAccepted | core/src/bpf/sf_bpf_filter.c:549-692 | a code the interpreter aborts on is accepted |
| BpfLaws.CodesRoundTrip | core/src/include/bpf/sfbpf.h:118-169 | every operation has one code, made of its class and the fields of the class, and every other code is unknown |
| BpfLaws.AddAndSub | core/src/bpf/sf_bpf_filter.c:457-502 | addition and subtraction undo each other and are those of the integers without a carry or borrow |
| BpfLaws.DivAndMul | core/src/bpf/sf_bpf_filter.c:465-506 | the quotient is the integer one, the product is right modulo 2^32 |
| BpfLaws.ShiftLeftIs | core/src/bpf/sf_bpf_filter.c:483-522 | shifting left multiplies by the power of two, modulo 2^32 |
| BpfLaws.ShiftRightIs | core/src/bpf/sf_bpf_filter.c:483-522 | shifting right divides by it |
| BpfLaws.Comparisons | core/src/bpf/sf_bpf_filter.c:425-452 | exactly one of greater, equal and less, unsigned; at least is not less |
| BpfLaws.MaskTest | core/src/bpf/sf_bpf_filter.c:437-456 | a mask test looks for a bit set in both |
| BpfLaws.BitByBit | core/src/bpf/sf_bpf_filter.c:475-514 | and and or go bit by bit |
| BpfLaws.LoadIsBigEndian | core/src/bpf/sf_bpf_filter.c:263-395 | a load inside the packet is the number its 1, 2 or 4 octets make in network byte order |
| BpfLaws.StoreThenLoad | core/src/bpf/sf_bpf_filter.c:405-420 | a scratch word gives back what was stored in it, and no other word changes |
| BpfLaws.Moves | core/src/bpf/sf_bpf_filter.c:317-534 | constants, the length, moves between the registers, negation and the IP header length |
| BpfLaws.AcceptsIPv4 | core/src/bpf/sf_bpf_filter.c:214-536 | a whole program: the filter for EtherType 0x0800 accepts exactly the packets that have it |

## Left out

- TcpRingBuffer.TcpRb.PWrite: models rings with metalen equal to len, so no empty fragments and no resizing (core/src/tcp_rb.c:152-154 calls that area unsettled), the overlap policies that keep the first octet, and fragment and segment allocations that succeed; a payload as long as the ring that starts at or below the read point is left out, for the reasons RingSpec.FitsExactly and RingLaws.BufRwSpan give.
- TcpRingBuffer.TcpRb.PPeek: the full-ring read that RingLaws.FullRingPeek describes is left out for the same reason.
- SegmentedBuffer.SegBuf.BufWrite: spans shorter than the ring, for that reason; BufRead too.
- TcpRingBuffer.TcpRb.FfHead: buffer segments are not recycled when the window moves on; positions stay in the ring for good.
- Endpoints.TcpSender.FlushTCPSendingBuffer: min(cwnd, peer_wnd) and the number of packet buffers are parameters of the call, so the congestion window's own updates in ProcessACK are not part of the stream's steps; its return codes and the request for a window update are left out.
- Endpoints.TcpSender.ProcessACK: the congestion window, ssthresh, the round-trip sample (RoundTrip has it) and the timer lists are left out.
- Endpoints.TcpReceiver.CopyToUser: not the full-ring read of RingLaws.FullRingPeek.
- Endpoints.TcpReceiver.ProcessTCPPayload: ESTABLISHED only, buffers exist, the receive window is the ring's; monitor callbacks, BE_RESILIENT_TO_PACKET_DROP and out-of-buffer handling are not modelled.
- StreamSafety.PrefixSafety: SYN and FIN take no place in the stream here (ConnectionSpec has them), a SYN in ESTABLISHED is not a step, buffers are below 2^30 octets, a flush sends segments shorter than the receiver's ring (the maximum segment size is), and the network delivers no data and no acknowledgement 2^32 octets old, whose numbers mean something else; a read is not the full-ring read; once an acknowledgement of the kind UnaFollows names has moved snd_una, windows are below 2^31.
- StreamDelivery.DeliveryExact: the receiver's ring spans more than one octet, as no segment fits one of one; the steps of the run are possible ones, which the model does not say the timers and the network take.
- Connection.TcpStream.UpdateRecvTCPContext: what ProcessTCPPayload and ProcessACK do with a packet are parameters (Endpoints has them); sequence validation, timers, lists and application events are not part of the handlers here; the accept queue's answer is a parameter; buffer management is on, and the BE_RESILIENT_TO_PACKET_DROP variants of the handlers are left out.
- Connection.TcpStream.SendControlPacket: a packet buffer is there, so the segment is sent; a stream is off the send and ACK lists or on one of them, as a parameter.
- Connection.TcpStream.RequestReset: the freed socket's number is not reused for another stream here; a listening or half-open stream has a socket, where the code gives it one on accept.
- ConnectionSpec.RunSafety: an event that finds a freed socket changes nothing, as the socket's stream pointer is gone.
- Connection.TcpStream.HandleListen: stream creation for a listening socket is not modelled.
- StreamQueue.Linearizable: sequential consistency; the barrier in the code stops the compiler only.
- EventDispatch.EventPointer.HandleCallback: filters are functions of event and data without side effects; callbacks do not register or unregister while it runs; masks are sets of bit positions; the socket's BPF filter and the tests for the monitored side are left out.
- EventDispatch.EventPointer.RegCb: one event table; copies, reuse and reference counts of tables are left out.
- EventDispatch.EventPointer.UnregCb: tables without undefined parents, as its loop need not end otherwise (Registration.WalkEndsExactly); reference counts of tables are left out.
- MemPool.Create: a total size of 0 is excluded, since the code then writes a header into no memory; memory is modelled in cells of four bytes with the pointer in one of them; huge pages and mlock are left out.
- MemPool.Allocator.FreeChunk: the chunk must be in use; the code does not detect a double free.
- RoundTrip.TimeoutBounded: samples below 2^29, where the fixed point ends; BoundIsExact, FirstSampleIsKept and FirstTimeoutIsPositive say what happens above.
- RoundTrip.TimeoutStaysPositive: the same samples, and an initial timeout below 2^26.
- RoundTrip.Timeouts.HandleRTO: the retransmission itself and the state changes on giving up are not part of it.
- TimingWheel.RtoStore.CheckRtmTimeout: HandleRTO is the stream's name in the result; it does not put a stream back during a sweep. That no stream is late is not claimed: a later insertion with an earlier deadline can be.
- EpollSpec.OwnEntryAnswered: the queues have room for all that is on them and the call for all that is queued.
- EventPoll.MtcpEpoll.EpollWait: one pass over the two queues; waiting, and starting over when a pass delivered nothing, are left out.
- EpollSpec.NoDuplicates: each call is one step; the read-modify-write of socket->events is not atomic between threads, which could lose an event. Waiting, timeouts and monitor sockets are left out.
- AddressPool.Pool.FreeAddress: the address must not be free already; the code would unlink it from the wrong list. The pool shared by all cores and the linear search of FetchAddress are left out.
- Checksum.TCPCalcChecksum: a host that stores the low octet first.
- Bpf.Filter: a 64-bit host, where `pc += pc->k` always moves forward; on a 32-bit host the pointer can wrap. Shifts by 32 or more have a result that is a parameter; initial scratch memory is a parameter; the kernel variants are left out.
- Packet I/O, devices, configuration, logging, threads, signals and samples: foreign calls.
- TCP options, SACK, pipes, monitor-mode send context, hash tables, key-value store and the other queues: easier members or duplicates of the algorithms here.
- Scalable event sets: they depend on tree macros that are not part of this model.
