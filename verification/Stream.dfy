/** One direction of an established connection: sender, network, receiver, as steps of one protocol. */
module ByteStream {
  import opened Bytes
  import opened Containers
  import opened RingSpec
  import RingLaws

  datatype Segment = Segment(sn: U32, data: seq<Byte>)

  // ---------------------------------------------------------------- sender

  // sndbuf: octets not yet removed; the rest as in struct tcp_send_vars and struct tcp_recv_vars.
  datatype Sender = Sender(sndbuf: seq<Byte>, headSeq: U32, sndNxt: U32, sndUna: U32,
                           peerWnd: int, sndWl1: U32, sndWl2: U32, lastAck: U32, dupAcks: U8)

  // SBPut through CopyFromUser: as many octets as the buffer of `size` still takes.
  function Put(s: Sender, bytes: seq<Byte>, size: int): Sender {
    s.(sndbuf := s.sndbuf + bytes[..Max(0, Min(|bytes|, size - |s.sndbuf|))])
  }

  // The next sequence number to send is that of a buffered octet, of the first octet after them, or an old one.
  predicate SndNxtInReach(s: Sender) {
    |s.sndbuf| < 0x8000_0000 && (SeqLt(s.sndNxt, s.headSeq) || SeqDiff(s.sndNxt, s.headSeq) <= |s.sndbuf|)
  }

  // One turn of the loop of FlushTCPSendingBuffer: the segment it sends, if it sends one.
  function FlushOne(s: Sender, maxlen: int, window: int): (g: Option<Segment>)
    requires SndNxtInReach(s)
    ensures g.Some? ==> 0 < |g.value.data| <= window && SndNxtInReach(Advance(s, |g.value.data|))
  {
    if SeqLt(s.sndNxt, s.headSeq) then None
    else
      var from := Wrap(s.sndNxt - s.headSeq);
      var buffered := Wrap(s.headSeq + |s.sndbuf| - s.sndNxt);
      BufferedIsRest(s);
      var n := Min(Min(buffered, maxlen), window);
      if buffered == 0 || n <= 0 || Wrap(s.sndNxt - s.sndUna + n) > window then None
      else
        AdvanceInReach(s, n);
        Some(Segment(s.sndNxt, s.sndbuf[from..from + n]))
  }

  // The wrapped differences of the loop are the distances inside the buffer.
  lemma BufferedIsRest(s: Sender)
    requires SndNxtInReach(s) && !SeqLt(s.sndNxt, s.headSeq)
    ensures Wrap(s.sndNxt - s.headSeq) == SeqDiff(s.sndNxt, s.headSeq) <= |s.sndbuf|
    ensures Wrap(s.headSeq + |s.sndbuf| - s.sndNxt) == |s.sndbuf| - Wrap(s.sndNxt - s.headSeq)
  {
    var d := SeqDiff(s.sndNxt, s.headSeq);
    assert s.sndNxt == s.headSeq + d || s.sndNxt == s.headSeq + d - TWO32;
  }

  lemma AdvanceInReach(s: Sender, n: int)
    requires SndNxtInReach(s) && !SeqLt(s.sndNxt, s.headSeq)
    requires 0 <= n <= |s.sndbuf| - SeqDiff(s.sndNxt, s.headSeq)
    ensures SeqDiff(Advance(s, n).sndNxt, s.headSeq) == SeqDiff(s.sndNxt, s.headSeq) + n
    ensures SndNxtInReach(Advance(s, n))
  {
    var d := SeqDiff(s.sndNxt, s.headSeq);
    assert s.sndNxt == s.headSeq + d || s.sndNxt == s.headSeq + d - TWO32;
    assert (Wrap(s.sndNxt + n) - s.headSeq) % TWO32 == d + n;
  }

  // SendTCPPacket: the sequence number moves past what was sent.
  function Advance(s: Sender, n: int): Sender {
    s.(sndNxt := Wrap(s.sndNxt + n))
  }

  // The whole loop, with packet buffers for `slots` segments.
  function Flush(s: Sender, maxlen: int, window: int, slots: nat): (Sender, seq<Segment>)
    requires SndNxtInReach(s)
    decreases slots
  {
    var g := FlushOne(s, maxlen, window);
    if slots == 0 || g == None then (s, [])
    else
      var (s', out) := Flush(Advance(s, |g.value.data|), maxlen, window - |g.value.data|, slots - 1);
      (s', [g.value] + out)
  }

  // HandleRTO: go back to the oldest unacknowledged octet.
  function Timeout(s: Sender): Sender {
    s.(sndNxt := s.sndUna)
  }

  // The duplicate-ACK bookkeeping of ProcessACK and its fast retransmission.
  function CountAck(s: Sender, ack: U32, payloadLen: int, rightEdge: U32): (s': Sender)
    ensures (s'.sndbuf, s'.headSeq, s'.sndUna) == (s.sndbuf, s.headSeq, s.sndUna)
    ensures s'.sndNxt == s.sndNxt || (s'.sndNxt == ack && SeqLt(ack, s.sndNxt))
  {
    var dup := SeqLt(ack, s.sndNxt) && ack == s.lastAck && payloadLen == 0 && Wrap(s.sndWl2 + s.peerWnd) == rightEdge;
    if !dup then s.(dupAcks := 0, lastAck := ack)
    else
      var d := (s.dupAcks + 1) % 256;
      s.(dupAcks := d, sndNxt := if d == 3 then ack else s.sndNxt)
  }

  // ProcessACK of an acknowledgement with sequence number sn and window cwindow.
  function ProcessAck(s0: Sender, sn: U32, ack: U32, cwindow: U32, payloadLen: int): Sender {
    var s := s0.(peerWnd := cwindow);
    if SeqGt(ack, Wrap(s.headSeq + |s.sndbuf|)) then s
    else
      var rightEdge := Wrap(s.peerWnd + s.sndWl2);
      var newer := SeqLt(s.sndWl1, sn) || (s.sndWl1 == sn && SeqLt(s.sndWl2, ack));
      var s1 := if newer then s.(sndWl1 := sn, sndWl2 := ack) else s;
      var s2 := CountAck(s1, ack, payloadLen, rightEdge);
      var s3 := if SeqGt(ack, s2.sndNxt) then s2.(sndNxt := ack) else s2;
      DropAcked(s3, ack)
  }

  // The acknowledged octets leave the send buffer.
  function DropAcked(s: Sender, ack: U32): (s': Sender)
    ensures s'.sndNxt == s.sndNxt
  {
    if SeqGeq(s.headSeq, ack) then s
    else
      var m := Min(Wrap(ack - s.headSeq), |s.sndbuf|);
      s.(sndbuf := s.sndbuf[m..], headSeq := Wrap(s.headSeq + m), sndUna := ack)
  }

  // ---------------------------------------------------------------- receiver

  datatype Receiver = Receiver(irs: U32, ring: Ring, rcvNxt: U32, rcvWnd: int)

  // The end of ProcessTCPPayload: rcv_nxt moves to the end of the in-order data of the ring.
  function TakeIn(irs: U32, rcvNxt: U32, ring: Ring): Receiver
    requires Wf(ring)
  {
    var cftail := ring.pile + CfLen(ring);
    var nxt := if cftail > 0 && Wrap(irs + 1) + cftail > rcvNxt then Wrap(Wrap(irs + 1) + cftail) else rcvNxt;
    Receiver(irs, ring, nxt, ring.size - (cftail - ring.pile))
  }

  // ProcessTCPPayload; the flag is its return value.
  function ProcessPayload(r: Receiver, g: Segment): (next: (Receiver, bool))
    requires Wf(r.ring) && |g.data| < r.ring.size
    ensures Wf(next.0.ring)
  {
    if SeqLt(Wrap(g.sn + |g.data|), r.rcvNxt) then (r, false)
    else if SeqGt(Wrap(g.sn + |g.data|), Wrap(r.rcvNxt + r.rcvWnd)) then (r, false)
    else
      var off := RingLaws.Seq2LoffSpec(r.ring.head, g.sn, Wrap(r.irs + 1));
      PWriteWf(r.ring, g.data, off);
      var ring := PWrite(r.ring, g.data, off).0;
      var r' := TakeIn(r.irs, r.rcvNxt, ring);
      (r', SeqGt(r'.rcvNxt, r.rcvNxt))
  }

  // CopyToUser: the octets handed to the application.
  function CopyToUser(r: Receiver, n: int): (Receiver, seq<Byte>)
    requires Wf(r.ring)
  {
    var k := PPeekLen(r.ring, n, r.ring.pile);
    if k <= 0 then (r, [])
    else
      var ring := r.ring.(pile := r.ring.pile + k);
      RunEndSuffix(r.ring, r.ring.pile);
      (r.(ring := ring, rcvWnd := ring.size - (InOrderEnd(ring) - ring.pile)),
       seq(k, i requires 0 <= i < k => r.ring.held[r.ring.pile + i]))
  }

  // The run from inside the in-order data ends where the in-order data ends.
  lemma RunEndSuffix(r: Ring, off: int)
    requires 0 < r.size && r.head <= off <= InOrderEnd(r)
    ensures RunEnd(r.held, off, r.head + r.size) == InOrderEnd(r)
  {
    RunEndUnique(r.held, off, r.head + r.size, InOrderEnd(r));
  }

  // ---------------------------------------------------------------- the connection

  // A segment or acknowledgement in the network, with the stream offset it is about.
  datatype Sent = Sent(seg: Segment, at: int)
  datatype Ack = Ack(sn: U32, ack: U32, wnd: U32, payloadLen: int, upTo: int)

  datatype Conn = Conn(
    snd: Sender,
    rcv: Receiver,
    segs: set<Sent>,            // every data segment ever sent; the network may deliver each any number of times
    acks: set<Ack>,             // every acknowledgement ever sent
    // history
    written: seq<Byte>,         // octets the sending application's calls have put
    removed: int,               // octets the sender has dropped as acknowledged
    nxt: int,                   // stream offset the sender's snd_nxt stands for
    una: int,                   // stream offset its snd_una stands for
    sent: int,                  // end of the octets that were ever sent
    delivered: seq<Byte>)       // octets handed to the receiving application

  // Constants of a connection: initial sequence number, send buffer size, receive ring size.
  datatype Config = Config(iss: U32, sndSize: int, ringSize: int) {
    ghost predicate Ok() { 0 < sndSize < 0x4000_0000 && 0 < ringSize < 0x4000_0000 }
  }

  // Right after the handshake.
  ghost predicate Init(c: Config, m: Conn) {
    && m.snd.sndbuf == [] && m.snd.headSeq == m.snd.sndNxt == m.snd.sndUna == Wrap(c.iss + 1)
    && m.rcv.irs == c.iss && m.rcv.ring == New(c.ringSize) && m.rcv.rcvNxt == Wrap(c.iss + 1)
    && 0 <= m.rcv.rcvWnd < 0x4000_0000
    && m.segs == {} && m.acks == {}
    && m.written == [] && m.removed == 0 && m.nxt == 0 && m.una == 0 && m.sent == 0 && m.delivered == []
  }

  // The first offset the receiver still misses.
  function InOrder(m: Conn): int
    requires m.rcv.ring.size >= 0
  {
    InOrderEnd(m.rcv.ring)
  }

  datatype Step =
    | Write(bytes: seq<Byte>)
    | FlushStep(maxlen: int, window: int, slots: nat)
    | TimeoutStep
    | Receive(g: Sent)
    | SendAck(sn: U32, wnd: U32, payloadLen: int)
    | ReceiveAck(a: Ack)
    | Read(n: int)

  // One segment goes out.
  function SendOne(m: Conn, g: Segment): Conn {
    var n := |g.data|;
    m.(snd := Advance(m.snd, n), segs := m.segs + {Sent(g, m.nxt)}, nxt := m.nxt + n, sent := Max(m.sent, m.nxt + n))
  }

  // The sender's loop with the network: each segment it sends is on its way, for good.
  function FlushAll(m: Conn, maxlen: int, window: int, slots: nat): Conn
    requires SndNxtInReach(m.snd)
    decreases slots
  {
    var g := FlushOne(m.snd, maxlen, window);
    if slots == 0 || g == None then m
    else
      var n := |g.value.data|;
      FlushAll(SendOne(m, g.value), maxlen, window - n, slots - 1)
  }

  // The offsets snd_nxt and snd_una stand for after an acknowledgement of `upTo`.
  function NxtAfter(m: Conn, s': Sender, a: Ack): int {
    if s'.sndNxt == m.snd.sndNxt then m.nxt else a.upTo
  }

  function UnaAfter(m: Conn, s': Sender, a: Ack): int {
    if s'.sndUna == m.snd.sndUna then m.una else a.upTo
  }

  // When a step may happen. The network delivers nothing that is 2^32 octets old; the age of an acknowledgement counts
  // from the last octet put. A read is not of a full ring. A window is below 2^31, unless snd_una is where the buffer
  // starts; a flush sends segments shorter than the receiver's ring.
  ghost predicate Enabled(c: Config, m: Conn, s: Step)
    requires m.rcv.ring.size >= 0
  {
    match s
    case Write(_) => true
    case FlushStep(maxlen, window, _) => maxlen < c.ringSize && (window < TWO31 || m.una == m.removed)
    case TimeoutStep => true
    case Receive(g) => g in m.segs && InOrder(m) + m.rcv.rcvWnd < g.at + |g.seg.data| + TWO32
    case SendAck(_, _, _) => true
    case ReceiveAck(a) => a in m.acks && |m.written| < a.upTo + TWO32
    case Read(n) => Wf(m.rcv.ring) ==> PPeekLen(m.rcv.ring, n, m.rcv.ring.pile) < c.ringSize
  }

  // What the code of a step relies on.
  ghost predicate Ready(m: Conn, s: Step) {
    && Wf(m.rcv.ring) && SndNxtInReach(m.snd)
    && (s.Receive? ==> |s.g.seg.data| < m.rcv.ring.size)
  }

  ghost function Next(c: Config, m: Conn, s: Step): Conn
    requires Ready(m, s)
  {
    match s
    case Write(bytes) =>
      var snd := Put(m.snd, bytes, c.sndSize);
      m.(snd := snd, written := m.written + snd.sndbuf[|m.snd.sndbuf|..])
    case FlushStep(maxlen, window, slots) => FlushAll(m, maxlen, window, slots)
    case TimeoutStep => m.(snd := Timeout(m.snd), nxt := m.una)
    case Receive(g) => m.(rcv := ProcessPayload(m.rcv, g.seg).0)
    case SendAck(sn, wnd, payloadLen) => m.(acks := m.acks + {Ack(sn, m.rcv.rcvNxt, wnd, payloadLen, InOrder(m))})
    case ReceiveAck(a) =>
      var snd := ProcessAck(m.snd, a.sn, a.ack, a.wnd, a.payloadLen);
      m.(snd := snd, removed := m.removed + |m.snd.sndbuf| - |snd.sndbuf|,
         nxt := NxtAfter(m, snd, a), una := UnaAfter(m, snd, a))
    case Read(n) =>
      var (rcv, out) := CopyToUser(m.rcv, n);
      m.(rcv := rcv, delivered := m.delivered + out)
  }
}
