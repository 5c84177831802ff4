/** Whether a connection can still deliver: from every state of every run, exactly when the octets that are written can
    all reach the receiving application. */
module StreamDelivery {
  import opened Bytes
  import opened RingSpec
  import opened ByteStream
  import opened StreamSafety
  import opened StreamProgress

  ghost predicate MayTake(c: Config, m: Conn, s: Step) {
    0 <= m.rcv.ring.size && Enabled(c, m, s) && Ready(m, s)
  }

  // k steps, each enabled, lead from m to m'.
  ghost predicate Leads(c: Config, m: Conn, m': Conn, k: nat)
    decreases k
  {
    if k == 0 then m' == m else exists s :: MayTake(c, m, s) && Leads(c, Next(c, m, s), m', k - 1)
  }

  // Everything written has been read and acknowledged.
  ghost predicate Done(m: Conn, m': Conn) {
    m'.written == m.written == m'.delivered && m'.snd.sndbuf == []
  }

  // Some steps that write nothing new lead there.
  ghost predicate CanDeliver(c: Config, m: Conn) {
    exists k, m' :: Leads(c, m, m', k) && Done(m, m')
  }

  // The window is true, or still the one of the handshake and open.
  ghost predicate Opened(c: Config, m: Conn)
    requires m.rcv.ring.size >= 0
  {
    WindowTrue(c, m) || 0 < m.rcv.rcvWnd
  }

  ghost predicate Alive(c: Config, m: Conn) {
    Inv(c, m) && Opened(c, m) && m.una == m.removed
  }

  // snd_una is 2^31 octets behind, and nothing is on its way or can be.
  ghost predicate Stuck(c: Config, m: Conn) {
    Inv(c, m) && Opened(c, m) && m.una == m.removed - TWO31 && m.sent == m.removed
  }

  // ---------------------------------------------------------------- one of the two holds in every state

  lemma StaysOpened(c: Config, m: Conn, s: Step)
    requires c.Ok() && Inv(c, m) && Enabled(c, m, s) && Ready(m, s) && Opened(c, m)
    ensures Inv(c, Next(c, m, s)) && Opened(c, Next(c, m, s))
  {
    StepKeeps(c, m, s);
    hide RunEnd, ProcessPayload, ProcessAck, CopyToUser, FlushAll, Put;
    hide Stored, FirstMissing, SentInv, AckInv, SenderInv;
    if WindowTrue(c, m) {
      WindowStaysTrue(c, m, s);
    } else {
      match s
      case Receive(g) =>
        assert SentInv(c, m.written, m.sent, g);
        ReceiveExact(c, m, g);
        if EndsInWindow(m, g) && StartsInReach(m, g) {
          StoredPile(m, g, ProcessPayload(m.rcv, g.seg).0.ring);
        }
      case Read(n) => ReadExact(c, m, n);
      case FlushStep(maxlen, window, slots) => FlushLeavesReceiver(m, maxlen, window, slots);
      case _ =>
    }
  }

  // Only an acknowledgement 2^31 octets old that meets an empty buffer ends the life of a connection.
  lemma AliveOrStuck(c: Config, m: Conn, s: Step)
    requires c.Ok() && Alive(c, m) && Enabled(c, m, s) && Ready(m, s)
    ensures var m' := Next(c, m, s);
            if s.ReceiveAck? && m.snd.sndbuf == [] && Age(m, s.a) == TWO31 then Stuck(c, m') else Alive(c, m')
  {
    StaysOpened(c, m, s);
    hide ProcessAck, ProcessPayload, CopyToUser, FlushOne, Put, Wrap, RunEnd, Opened;
    match s
    case ReceiveAck(a) =>
      assert AckInv(c, InOrder(m), a);
      AckSender(c, m, a);
      UnaFollows(c, m, a);
    case FlushStep(maxlen, window, slots) => FlushOnlyAdvances(m, maxlen, window, slots);
    case _ =>
  }

  lemma StaysStuck(c: Config, m: Conn, s: Step)
    requires c.Ok() && Stuck(c, m) && Enabled(c, m, s) && Ready(m, s)
    ensures Stuck(c, Next(c, m, s)) && Next(c, m, s).sent == m.sent && m.written <= Next(c, m, s).written
  {
    StaysOpened(c, m, s);
    hide ProcessAck, ProcessPayload, CopyToUser, FlushOne, Put, Wrap, RunEnd, Opened;
    match s
    case ReceiveAck(a) =>
      assert AckInv(c, InOrder(m), a);
      AckSender(c, m, a);
      StuckAck(c, m, a);
    case FlushStep(maxlen, window, slots) => StuckSendsNothing(c, m, maxlen, window);
    case _ =>
  }

  lemma StuckAck(c: Config, m: Conn, a: Ack)
    requires c.Ok() && MayArrive(c, m, a) && Ready(m, ReceiveAck(a))
    requires a.upTo <= m.removed && m.una == m.removed - TWO31
    ensures Next(c, m, ReceiveAck(a)).una == m.una
  {
    hide Wrap, SeqDiff, SeqAt, RunEnd, FlushAll, ProcessPayload, CopyToUser, ProcessAck;
    OldAckIgnored(c, m, a);
    if Age(m, a) <= TWO31 {
      AckCompares(c, m, a);
      AckOnBuffer(c, m, a);
    }
  }

  lemma {:induction false} RunAliveOrStuck(c: Config, ms: seq<Conn>, ss: seq<Step>, i: nat)
    requires c.Ok() && Run(c, ms, ss) && i < |ms| && 0 < ms[0].rcv.rcvWnd
    ensures Alive(c, ms[i]) || Stuck(c, ms[i])
  {
    hide Inv, Opened, Next, Enabled;
    if i == 0 {
      InitInv(c, ms[0]);
      StartsAlive(c, ms[0]);
    } else {
      RunAliveOrStuck(c, ms, ss, i - 1);
      assert StepsTo(c, ms[i - 1], ss[i - 1], ms[i - 1 + 1]);
      InvReady(c, ms[i - 1], ss[i - 1]);
      if Alive(c, ms[i - 1]) {
        AliveOrStuck(c, ms[i - 1], ss[i - 1]);
      } else {
        StaysStuck(c, ms[i - 1], ss[i - 1]);
      }
    }
  }

  lemma StartsAlive(c: Config, m: Conn)
    requires c.Ok() && Init(c, m) && Inv(c, m) && 0 < m.rcv.rcvWnd
    ensures Alive(c, m)
  {
  }

  // ---------------------------------------------------------------- the steps that deliver

  lemma {:induction false} LeadsOn(c: Config, m: Conn, m1: Conn, m2: Conn, j: nat, k: nat)
    requires Leads(c, m, m1, j) && Leads(c, m1, m2, k)
    ensures Leads(c, m, m2, j + k)
    decreases j
  {
    hide Next, Enabled, Ready;
    if j > 0 {
      var s :| MayTake(c, m, s) && Leads(c, Next(c, m, s), m1, j - 1);
      LeadsOn(c, Next(c, m, s), m1, m2, j - 1, k);
    }
  }

  lemma Takes(c: Config, m: Conn, s: Step)
    requires c.Ok() && Alive(c, m) && Enabled(c, m, s)
    ensures Ready(m, s) && Leads(c, m, Next(c, m, s), 1)
    ensures !s.ReceiveAck? ==> Alive(c, Next(c, m, s))
  {
    InvReady(c, m, s);
    AliveOrStuck(c, m, s);
    hide Inv, Next, Enabled, Ready;
    assert MayTake(c, m, s) && Leads(c, Next(c, m, s), Next(c, m, s), 0);
  }

  // The read of one octet, if there is one.
  lemma ReadsOne(c: Config, m: Conn)
    requires c.Ok() && 1 < c.ringSize && Alive(c, m) && m.rcv.ring.pile < InOrder(m)
    ensures Ready(m, Read(1))
    ensures var m' := Next(c, m, Read(1));
            && Alive(c, m') && Leads(c, m, m', 1) && m'.written == m.written && |m'.delivered| == |m.delivered| + 1
  {
    Takes(c, m, Read(1));
    ReadExact(c, m, 1);
    hide CopyToUser, RunEnd, SenderInv, SentInv, AckInv, Opened;
  }

  // Where the receiver has read everything it got in order: an acknowledgement that brings the sender there.
  ghost predicate Level(m: Conn)
    requires 0 <= m.rcv.ring.size
  {
    m.rcv.ring.pile == InOrder(m) == m.removed
  }

  lemma LevelsUp(c: Config, m: Conn) returns (m': Conn)
    requires c.Ok() && Alive(c, m) && m.rcv.ring.pile == InOrder(m)
    ensures Alive(c, m') && Leads(c, m, m', 2) && Level(m')
    ensures (m'.written, m'.rcv, m'.delivered) == (m.written, m.rcv, m.delivered)
  {
    hide ProcessAck, RunEnd, SentInv, Wrap, SeqDiff, SeqAt, Opened, Leads;
    Takes(c, m, SendAck(0, 1, 0));
    var m1 := Next(c, m, SendAck(0, 1, 0));
    var a := Ack(0, m.rcv.rcvNxt, 1, 0, InOrder(m));
    assert Age(m1, a) <= |m.snd.sndbuf| <= c.sndSize;
    Takes(c, m1, ReceiveAck(a));
    AliveOrStuck(c, m1, ReceiveAck(a));
    AckSender(c, m1, a);
    m' := Next(c, m1, ReceiveAck(a));
    LeadsOn(c, m, m1, m', 1, 1);
  }

  // A timeout, and one octet goes out from the front of the buffer.
  lemma SendsOne(c: Config, m: Conn) returns (m': Conn, g: Sent)
    requires c.Ok() && 1 < c.ringSize && Alive(c, m) && m.removed < |m.written|
    ensures Alive(c, m') && Leads(c, m, m', 2)
    ensures g in m'.segs && g.at == m.removed && |g.seg.data| == 1
    ensures (m'.written, m'.rcv, m'.delivered) == (m.written, m.rcv, m.delivered)
  {
    hide FlushOne, RunEnd, SentInv, Wrap, SeqDiff, Opened, Leads, ProcessAck;
    Takes(c, m, TimeoutStep);
    var m1 := Next(c, m, TimeoutStep);
    Takes(c, m1, FlushStep(1, 1, 1));
    FrontMayGo(c, m1);
    var seg := FlushOne(m1.snd, 1, 1).value;
    m' := Next(c, m1, FlushStep(1, 1, 1));
    assert FlushAll(SendOne(m1, seg), 1, 0, 0) == SendOne(m1, seg);
    g := Sent(seg, m1.nxt);
    LeadsOn(c, m, m1, m', 1, 1);
  }

  lemma FrontMayGo(c: Config, m: Conn)
    requires c.Ok() && SenderInv(c, m) && m.nxt == m.una == m.removed < |m.written| && SndNxtInReach(m.snd)
    ensures var g := FlushOne(m.snd, 1, 1); g.Some? && |g.value.data| == 1
  {
    SeqAtDiff(c, m.nxt, m.removed);
    SeqAtGap(c, m.nxt, m.una, 1);
    FlushOneExact(m.snd, 1, 1);
    hide FlushOne, SeqAt;
  }

  // It arrives.
  lemma GetsOne(c: Config, m: Conn, g: Sent) returns (m': Conn)
    requires c.Ok() && Alive(c, m) && m.rcv.ring.pile == InOrder(m) == g.at && g in m.segs && |g.seg.data| == 1
    ensures Alive(c, m') && Leads(c, m, m', 1) && m'.rcv.ring.pile < InOrder(m')
    ensures (m'.written, m'.delivered) == (m.written, m.delivered)
  {
    hide ProcessPayload, RunEnd, Leads, ProcessAck, FirstMissing, Stored;
    assert SentInv(c, m.written, m.sent, g);
    Takes(c, m, Receive(g));
    ReceiveExact(c, m, g);
    InOrderMoves(c, m, g);
    m' := Next(c, m, Receive(g));
    StoredPile(m, g, m'.rcv.ring);
  }

  // From every state that is alive and has something left to deliver, steps lead to one that has delivered more.
  lemma DeliversOne(c: Config, m: Conn) returns (m': Conn, k: nat)
    requires c.Ok() && 1 < c.ringSize && Alive(c, m) && |m.delivered| < |m.written|
    ensures Alive(c, m') && Leads(c, m, m', k) && m'.written == m.written && |m'.delivered| == |m.delivered| + 1
  {
    hide Next, Leads, RunEnd, SenderInv, SentInv, AckInv, Opened;
    if m.rcv.ring.pile < InOrder(m) {
      ReadsOne(c, m);
      m', k := Next(c, m, Read(1)), 1;
    } else {
      var m1 := LevelsUp(c, m);
      var m2, g := SendsOne(c, m1);
      var m3 := GetsOne(c, m2, g);
      ReadsOne(c, m3);
      m', k := Next(c, m3, Read(1)), 6;
      LeadsOn(c, m, m1, m2, 2, 2);
      LeadsOn(c, m, m2, m3, 4, 1);
      LeadsOn(c, m, m3, m', 5, 1);
    }
  }

  lemma {:induction false} DeliversAll(c: Config, m: Conn)
    requires c.Ok() && 1 < c.ringSize && Alive(c, m)
    ensures CanDeliver(c, m)
    decreases |m.written| - |m.delivered|
  {
    hide Next, Leads, RunEnd, SenderInv, SentInv, AckInv, Opened;
    if |m.delivered| < |m.written| {
      var m1, j := DeliversOne(c, m);
      DeliversAll(c, m1);
      var k, m' :| Leads(c, m1, m', k) && Done(m1, m');
      LeadsOn(c, m, m1, m', j, k);
      assert Done(m, m');
    } else {
      var m' := LevelsUp(c, m);
      assert Done(m, m') by { NothingBuffered(c, m'); }
    }
  }

  lemma NothingBuffered(c: Config, m: Conn)
    requires Inv(c, m) && Level(m) && |m.written| <= |m.delivered|
    ensures m.delivered == m.written && m.snd.sndbuf == []
  {
  }

  // ---------------------------------------------------------------- exactly when

  lemma {:induction false} StuckStays(c: Config, m: Conn, m': Conn, k: nat)
    requires c.Ok() && Stuck(c, m) && Leads(c, m, m', k)
    ensures Stuck(c, m') && m'.sent == m.sent && m.written <= m'.written
    decreases k
  {
    hide Next, Inv, Enabled, Ready, Opened;
    if k > 0 {
      var s :| MayTake(c, m, s) && Leads(c, Next(c, m, s), m', k - 1);
      StaysStuck(c, m, s);
      StuckStays(c, Next(c, m, s), m', k - 1);
    }
  }

  // A stuck connection whose buffer is empty has only to be read out.
  lemma {:induction false} ReadsOut(c: Config, m: Conn)
    requires c.Ok() && 1 < c.ringSize && Stuck(c, m) && m.snd.sndbuf == []
    ensures CanDeliver(c, m)
    decreases InOrder(m) - m.rcv.ring.pile
  {
    hide CopyToUser, RunEnd, SentInv, AckInv, Opened, Leads;
    if m.rcv.ring.pile < InOrder(m) {
      var m1 := ReadsOneStuck(c, m);
      ReadsOut(c, m1);
      var k, m' :| Leads(c, m1, m', k) && Done(m1, m');
      LeadsOn(c, m, m1, m', 1, k);
      assert Done(m, m');
    } else {
      LeadsNowhere(c, m);
      assert Done(m, m);
    }
  }

  lemma LeadsNowhere(c: Config, m: Conn)
    ensures Leads(c, m, m, 0)
  {
  }

  lemma ReadsOneStuck(c: Config, m: Conn) returns (m': Conn)
    requires c.Ok() && 1 < c.ringSize && Stuck(c, m) && m.snd.sndbuf == [] && m.rcv.ring.pile < InOrder(m)
    ensures Stuck(c, m') && Leads(c, m, m', 1) && (m'.written, m'.snd) == (m.written, m.snd)
    ensures InOrder(m') == InOrder(m) && m'.rcv.ring.pile == m.rcv.ring.pile + 1
  {
    InvReady(c, m, Read(1));
    StaysStuck(c, m, Read(1));
    ReadExact(c, m, 1);
    hide CopyToUser, RunEnd, SenderInv, SentInv, AckInv, Opened;
    m' := Next(c, m, Read(1));
    assert MayTake(c, m, Read(1)) && Leads(c, m', m', 0);
  }

  // What is written can be delivered, from a state of a run that starts with an open window, exactly if snd_una is
  // where the send buffer starts or there is nothing in the buffer.
  lemma DeliveryExact(c: Config, ms: seq<Conn>, ss: seq<Step>, i: nat)
    requires c.Ok() && 1 < c.ringSize && Run(c, ms, ss) && i < |ms| && 0 < ms[0].rcv.rcvWnd
    ensures CanDeliver(c, ms[i]) <==> ms[i].snd.sndUna == ms[i].snd.headSeq || ms[i].snd.sndbuf == []
  {
    hide Run, Leads, Opened, RunEnd, SentInv, AckInv;
    RunAliveOrStuck(c, ms, ss, i);
    UnaIsHead(c, ms[i]);
    if Alive(c, ms[i]) {
      DeliversAll(c, ms[i]);
    } else if ms[i].snd.sndbuf == [] {
      ReadsOut(c, ms[i]);
    } else if CanDeliver(c, ms[i]) {
      var k, m' :| Leads(c, ms[i], m', k) && Done(ms[i], m');
      StuckStays(c, ms[i], m', k);
    }
  }

  lemma UnaIsHead(c: Config, m: Conn)
    requires Alive(c, m) || Stuck(c, m)
    ensures m.snd.sndUna == m.snd.headSeq <==> m.una == m.removed
  {
    SeqAtDiff(c, m.una, m.removed);
  }
}
