/** When a connection gets on: for each state in the middle of its life, over every run, exactly which events take it to
    the next state of the diagram. */
module ConnectionRaces {
  import opened ConnectionSpec

  // ---------------------------------------------------------------- one packet

  // Where a packet without RST takes the connection, by the edge: one clause for each edge of the diagram a packet can
  // take, and the state of the connection stays when no clause applies.
  predicate TakesEdge(c: Conn, i: Input, t: State) {
    var timely := !i.stale && i.ack;
    match c.state
    case Listen => t == SynRcvd && i.syn
    case SynSent => i.syn && ((t == Established && i.ack && !i.ackRefused) || (t == SynRcvd && !i.ack))
    case SynRcvd => !i.retransmittedSyn && i.ack && t == HandshakeEnd(i)
    case Established => t == CloseWait && !i.syn && i.finInOrder
    case FinWait1 =>
      && timely
      && ((t == FinWait2 && i.acksFin && !i.finInOrder) || (t == Closing && !i.acksFin && i.finInOrder)
          || (t == TimeWait && i.acksFin && i.finInOrder))
    case FinWait2 => t == TimeWait && i.ack && i.finInOrder
    case Closing => t == TimeWait && i.ack && i.acksFin
    case LastAck => t == ClosedRsvd && timely && i.acksFin
    case _ => false
  }

  // Where the end of a handshake takes it: the packet may already bring payload and the peer's FIN.
  function HandshakeEnd(i: Input): State {
    if !i.accepted then ClosedRsvd
    else if i.hasPayload && !i.syn && i.finInOrder then CloseWait
    else Established
  }

  // The edges that are the peer's FIN, which then moves rcv_nxt.
  predicate FinEdge(s: State, t: State) {
    t == CloseWait || t == Closing || (t == TimeWait && s != Closing)
  }

  ghost predicate MovesTo(c: Conn, i: Input, t: State, c': Conn) {
    && (c'.state == t <==> TakesEdge(c, i, t))
    && (c'.state == t ==> c'.fins == c.fins + if FinEdge(c.state, t) then 1 else 0)
    && (c'.state == c.state ==> c'.fins == c.fins)
  }

  lemma PacketEdges(c: Conn, i: Input, t: State)
    requires !i.rst && t != c.state
    ensures MovesTo(c, i, t, OnPacket(c, i))
  {
    hide OnSynSent, OnSynRcvd, MovesTo, OnFin, OnEstablished;
    match c.state
    case SynSent => SynSentEdges(c, i, t);
    case SynRcvd => SynRcvdEdges(c, i, t);
    case FinWait1 | FinWait2 => FinWaitEdges(c, i, t);
    case _ => OtherEdges(c, i, t);
  }

  lemma SynSentEdges(c: Conn, i: Input, t: State)
    requires !i.rst && t != SynSent && c.state == SynSent
    ensures MovesTo(c, i, t, OnSynSent(c, i))
  {
  }

  lemma SynRcvdEdges(c: Conn, i: Input, t: State)
    requires t != SynRcvd && c.state == SynRcvd
    ensures MovesTo(c, i, t, OnSynRcvd(c, i))
  {
    hide OnSynRcvd, HandshakeEnd;
    SynRcvdGoes(c, i);
  }

  lemma SynRcvdGoes(c: Conn, i: Input)
    requires c.state == SynRcvd
    ensures var t := HandshakeEnd(i);
            OnSynRcvd(c, i) == if i.retransmittedSyn || !i.ack then c
                               else c.(state := t, fins := c.fins + if FinEdge(SynRcvd, t) then 1 else 0)
    ensures HandshakeEnd(i) != SynRcvd
  {
  }

  lemma FinWaitEdges(c: Conn, i: Input, t: State)
    requires !i.rst && t != c.state && FinWait(c.state)
    ensures MovesTo(c, i, t, OnPacket(c, i))
  {
  }

  lemma OtherEdges(c: Conn, i: Input, t: State)
    requires !i.rst && t != c.state && !FinWait(c.state) && c.state != SynSent && c.state != SynRcvd
    ensures MovesTo(c, i, t, OnPacket(c, i))
  {
    hide OnSynSent, OnSynRcvd, OnFin;
  }

  // What a RST does once the connection is known to the peer: it destroys a connection we have closed, or have not
  // opened yet if it is for our SYN; it ends an open one, unless a request for that is pending anyway.
  lemma RstEdges(c: Conn, i: Input)
    requires i.rst && (c.state == SynRcvd || Synchronized(c.state))
    ensures var c' := OnPacket(c, i);
            && c'.haveReset && c'.fins == c.fins && c'.finAcked == c.finAcked
            && (WeClosed(c.state) || (c.state == SynRcvd && i.rstMatches) ==> c'.state == ClosedRsvd && c'.destroyed)
            && (c.state == SynRcvd && !i.rstMatches ==> c' == c.(haveReset := true))
            && (Open(c.state) ==>
                  c' == c.(haveReset := true, state := if Pending(c.request) then c.state else ClosedRsvd))
  {
    hide OnSegment;
  }

  // ---------------------------------------------------------------- the races

  // The states a connection in state s is to come to next.
  predicate Goal(s: State, t: State) {
    match s
    case SynRcvd => t == Established || t == CloseWait
    case Established => t == CloseWait
    case CloseWait => t == LastAck
    case FinWait1 => t == FinWait2 || t == Closing || t == TimeWait
    case FinWait2 | Closing => t == TimeWait
    case _ => false
  }

  predicate Racing(s: State) { s.SynRcvd? || Open(s) || FinWait(s) || s.Closing? }

  // A close request is served on a connection that was not reset, or out of the internal queue.
  predicate ServesClose(c: Conn, e: Event) {
    || (e == HandleClose(false) && c.request == CloseQueued && !c.haveReset)
    || (e == HandleDelayedClose(false) && c.request == CloseDelayed)
  }

  // The event that takes it there.
  predicate Wins(c: Conn, e: Event) {
    match c.state
    case CloseWait => ServesClose(c, e)
    case SynRcvd => e.Packet? && !e.i.rst && !e.i.retransmittedSyn && e.i.ack && e.i.accepted
    case Established => e.Packet? && !e.i.rst && !e.i.syn && e.i.finInOrder
    case FinWait1 => e.Packet? && !e.i.rst && !e.i.stale && e.i.ack && (e.i.acksFin || e.i.finInOrder)
    case FinWait2 => e.Packet? && !e.i.rst && e.i.ack && e.i.finInOrder
    case Closing => e.Packet? && !e.i.rst && e.i.ack && e.i.acksFin
    case _ => false
  }

  // A packet that ends the connection instead: a RST that counts, or the end of a handshake nobody accepts.
  predicate PacketLoses(c: Conn, i: Input) {
    if i.rst then
      match c.state
      case SynRcvd => i.rstMatches
      case Established | CloseWait => !Pending(c.request)
      case _ => true
    else c.state == SynRcvd && !i.retransmittedSyn && i.ack && !i.accepted
  }

  // An event that ends the race otherwise: such a packet, a request that is served, the destroy queue, the RST that
  // CLOSING sends for a control packet, or the stack giving up.
  predicate Loses(c: Conn, e: Event) {
    match e
    case Packet(i) => PacketLoses(c, i)
    case HandleClose(later) => c.request == CloseQueued && (c.haveReset || (!later && Open(c.state)))
    case HandleDelayedClose(later) => c.request == CloseDelayed && !later && Open(c.state)
    case HandleReset(busy) => c.request == ResetQueued && (c.haveReset || !busy)
    case HandleDelayedReset(busy) => c.request == ResetDelayed && !busy
    case ServeDestroyQueue => c.toDestroy
    case SendControl(busy) => c.state == Closing && !busy
    case GiveUp => true
    case _ => false
  }

  // The event that takes the connection on comes before any other that ends the race.
  predicate WonFirst(c: Conn, es: seq<Event>)
    decreases |es|
  {
    es != [] && (Wins(c, es[0]) || (!Loses(c, es[0]) && WonFirst(Step(c, es[0]), es[1..])))
  }

  // Whether it is ever in a state that state s is to lead to.
  predicate Meets(c: Conn, es: seq<Event>, s: State)
    decreases |es|
  {
    Goal(s, c.state) || (es != [] && Meets(Step(c, es[0]), es[1..], s))
  }

  // It is too late.
  predicate Lost(c: Conn, s: State) {
    && !Goal(s, c.state)
    && (c.destroyed || c.state == ClosedRsvd || (s == Established && WeClosed(c.state)))
  }

  lemma LostStays(c: Conn, e: Event, s: State)
    requires Lost(c, s)
    ensures Lost(Step(c, e), s)
  {
    hide Step;
    StepTakesPath(c, e);
    if c.destroyed || c.state == ClosedRsvd {
      EndStep(c, e);
    }
  }

  lemma {:induction false} LostForGood(c: Conn, es: seq<Event>, s: State)
    requires Lost(c, s)
    ensures !Meets(c, es, s)
    decreases |es|
  {
    hide Step, Lost;
    assert !Goal(s, c.state) by { NotThere(c, s); }
    if es != [] {
      LostStays(c, es[0], s);
      LostForGood(Step(c, es[0]), es[1..], s);
    }
  }

  lemma NotThere(c: Conn, s: State)
    requires Lost(c, s)
    ensures !Goal(s, c.state)
  {
  }

  // What one event does to a race.
  ghost predicate Decides(c: Conn, e: Event, c': Conn) {
    if Wins(c, e) then Goal(c.state, c'.state)
    else if Loses(c, e) then Lost(c', c.state)
    else c'.state == c.state && !c'.destroyed
  }

  lemma PacketDecides(c: Conn, i: Input)
    requires Racing(c.state) && !c.destroyed
    ensures Decides(c, Packet(i), OnPacket(c, i))
  {
    if i.rst {
      RstDecides(c, i);
    } else {
      SegmentDecides(c, i);
    }
    hide OnPacket, Decides;
  }

  lemma RstDecides(c: Conn, i: Input)
    requires Racing(c.state) && !c.destroyed && i.rst
    ensures Decides(c, Packet(i), OnPacket(c, i))
  {
    hide OnSegment, OnRst, PacketLoses, Goal;
    RstEnds(c.(haveReset := true), i);
    SameLoses(c, c.(haveReset := true), i);
    NotTheEnd(c.state);
  }

  lemma RstEnds(c: Conn, i: Input)
    requires Racing(c.state) && i.rst
    ensures if PacketLoses(c, i) then OnRst(c, i).state == ClosedRsvd else OnRst(c, i) == c
  {
    hide Pending;
  }

  lemma SameLoses(c: Conn, d: Conn, i: Input)
    requires c.state == d.state && c.request == d.request
    ensures PacketLoses(c, i) == PacketLoses(d, i)
  {
  }

  lemma NotTheEnd(s: State)
    ensures !Goal(s, ClosedRsvd)
  {
  }

  lemma SegmentDecides(c: Conn, i: Input)
    requires Racing(c.state) && !c.destroyed && !i.rst
    ensures Decides(c, Packet(i), OnPacket(c, i))
  {
    hide OnRst, OnSynSent;
    match c.state
    case SynRcvd =>
    case FinWait1 =>
    case _ =>
  }

  lemma EventDecides(c: Conn, e: Event)
    requires Racing(c.state) && !c.destroyed && Inv(c)
    ensures Decides(c, e, Step(c, e))
  {
    hide OnPacket, Decides, Inv;
    match e
    case Packet(i) => PacketDecides(c, i);
    case HandleClose(_) | HandleDelayedClose(_) => CloseDecides(c, e);
    case _ => OtherDecides(c, e);
  }

  lemma CloseDecides(c: Conn, e: Event)
    requires Racing(c.state) && !c.destroyed && Inv(c) && (e.HandleClose? || e.HandleDelayedClose?)
    ensures Decides(c, e, Step(c, e))
  {
    hide OnPacket;
  }

  lemma OtherDecides(c: Conn, e: Event)
    requires Racing(c.state) && !c.destroyed && Inv(c) && !e.Packet? && !e.HandleClose? && !e.HandleDelayedClose?
    ensures Decides(c, e, Step(c, e))
  {
    hide OnPacket, Goal;
    NotTheEnd(c.state);
    NotYet(c.state);
  }

  // The race in every state and every run: a connection comes to one of the states that are to follow its own if and
  // only if the event that takes it there comes before any event that ends the race.
  lemma {:induction false} Race(c: Conn, es: seq<Event>)
    requires Racing(c.state) && !c.destroyed && Inv(c) && AllSane(c, es)
    ensures Meets(c, es, c.state) <==> WonFirst(c, es)
    decreases |es|
  {
    hide Step, Inv, Sane, Wins, Loses, Lost;
    NotYet(c.state);
    if es != [] {
      var c' := Step(c, es[0]);
      EventDecides(c, es[0]);
      StepKeepsInv(c, es[0]);
      if Wins(c, es[0]) {
        assert Meets(c', es[1..], c.state);
      } else if Loses(c, es[0]) {
        LostForGood(c', es[1..], c.state);
      } else {
        Race(c', es[1..]);
      }
    }
  }

  lemma NotYet(s: State)
    ensures !Goal(s, s)
  {
  }

  // The peer closes: a connection in ESTABLISHED, with or without a request, comes to CLOSE_WAIT if and only if an
  // in-order FIN without SYN or RST comes before a RST, a served request and the stack giving up.
  lemma PeerCloses(c: Conn, es: seq<Event>)
    requires c.state == Established && !c.destroyed && Inv(c) && AllSane(c, es)
    ensures Visits(c, es, CloseWait) <==> WonFirst(c, es)
  {
    Race(c, es);
    MeetsOne(c, es, Established, CloseWait);
  }

  // The second half of the peer's close: LAST_ACK, if and only if the close request is served in time.
  lemma WeCloseToo(c: Conn, es: seq<Event>)
    requires c.state == CloseWait && !c.destroyed && Inv(c) && AllSane(c, es)
    ensures Visits(c, es, LastAck) <==> WonFirst(c, es)
  {
    Race(c, es);
    MeetsOne(c, es, CloseWait, LastAck);
  }

  // Our close: TIME_WAIT, if and only if the peer's FIN comes, in order and with an ACK, before a RST or giving up.
  lemma PeerClosesToo(c: Conn, es: seq<Event>)
    requires c.state == FinWait2 && !c.destroyed && Inv(c) && AllSane(c, es)
    ensures Visits(c, es, TimeWait) <==> WonFirst(c, es)
  {
    Race(c, es);
    MeetsOne(c, es, FinWait2, TimeWait);
  }

  lemma {:induction false} MeetsOne(c: Conn, es: seq<Event>, s: State, t: State)
    requires forall u :: Goal(s, u) <==> u == t
    ensures Meets(c, es, s) <==> Visits(c, es, t)
    decreases |es|
  {
    hide Step, Goal;
    if es != [] {
      MeetsOne(Step(c, es[0]), es[1..], s, t);
    }
  }

  // ---------------------------------------------------------------- three lives

  // The peer closes first: through CLOSE_WAIT and LAST_ACK to the end.
  lemma PassiveClose()
    ensures var es := [Packet(SYN_ACK), Packet(FIN), Event.RequestClose, HandleClose(false)];
            var c := After(Start(SynSent), es); var c' := Step(c, SendControl(false));
            && AllSane(Start(SynSent), es) && Visits(Start(SynSent), es, CloseWait) && c.state == LastAck
            && Control(c, false).1 == FinAck && Sane(c', Packet(FIN_ACKED))
            && Step(c', Packet(FIN_ACKED)).destroyed && Step(c', Packet(FIN_ACKED)).finAcked
  {
    hide After, AllSane, Visits;
    var e2 := [Packet(FIN), Event.RequestClose, HandleClose(false)];
    Unfold(Start(SynSent), Packet(SYN_ACK), e2);
    VisitsOn(Start(SynSent), Packet(SYN_ACK), e2, CloseWait) by { FromEstablished(); }
    FromEstablished();
    assert [Packet(SYN_ACK), Packet(FIN), Event.RequestClose, HandleClose(false)] == [Packet(SYN_ACK)] + e2;
  }

  lemma FromEstablished()
    ensures var es := [Packet(FIN), Event.RequestClose, HandleClose(false)]; var c := Start(Established);
            && After(c, es) == c.(state := LastAck, fins := 1, request := CloseHandled)
            && AllSane(c, es) && Visits(c, es, CloseWait)
  {
    var e4 := [HandleClose(false)];
    var e3 := [Event.RequestClose] + e4;
    var c1 := Start(Established);
    var c2 := c1.(state := CloseWait, fins := 1);
    var c3 := c2.(request := CloseQueued);
    Unfold(c1, Packet(FIN), e3);
    Unfold(c2, Event.RequestClose, e4);
    Unfold(c3, HandleClose(false), []);
    assert [HandleClose(false)] + [] == e4;
    VisitsOn(c1, Packet(FIN), e3, CloseWait);
    assert [Packet(FIN), Event.RequestClose, HandleClose(false)] == [Packet(FIN)] + e3;
  }

  lemma VisitsOn(c: Conn, e: Event, es: seq<Event>, s: State)
    requires Visits(Step(c, e), es, s)
    ensures Visits(c, [e] + es, s)
  {
    assert ([e] + es)[1..] == es;
    hide Step;
  }

  // We close first: through FIN_WAIT_1, FIN_WAIT_2 and TIME_WAIT.
  lemma ActiveClose()
    ensures var es := [Packet(SYN_ACK), Event.RequestClose, HandleClose(false), SendControl(false), Packet(FIN_ACKED)];
            var c := After(Start(SynSent), es); var c' := Step(c, Packet(FIN));
            && AllSane(Start(SynSent), es) && c.state == FinWait2 && c'.state == TimeWait && !c'.destroyed
            && Step(c', TimeWaitOver).destroyed
  {
    var e5 := [Packet(FIN_ACKED)];
    var e4 := [SendControl(false)] + e5;
    var e3 := [HandleClose(false)] + e4;
    var e2 := [Event.RequestClose] + e3;
    var c1 := Start(Established);
    var c2 := c1.(request := CloseQueued);
    var c3 := c2.(request := CloseHandled, state := FinWait1);
    var c4 := c3.(finSent := true);
    Unfold(Start(SynSent), Packet(SYN_ACK), e2);
    Unfold(c1, Event.RequestClose, e3);
    Unfold(c2, HandleClose(false), e4);
    Unfold(c3, SendControl(false), e5);
    Unfold(c4, Packet(FIN_ACKED), []);
    assert [Packet(FIN_ACKED)] + [] == e5;
    assert [Packet(SYN_ACK), Event.RequestClose, HandleClose(false), SendControl(false), Packet(FIN_ACKED)]
      == [Packet(SYN_ACK)] + e2;
  }

  const SYN := Input(true, false, false, false, false, false, false, false, false, false, true)
  const ACK := Input(false, true, false, false, false, false, false, false, false, false, true)

  // The other end's handshake.
  lemma PassiveOpen()
    ensures var es := [Packet(SYN), SendControl(false), Packet(ACK)]; var c := After(Start(Listen), es);
            AllSane(Start(Listen), es) && c == Start(Established) && Control(Start(SynRcvd), false).1 == SynAck
  {
    var e3 := [Packet(ACK)];
    var e2 := [SendControl(false)] + e3;
    Unfold(Start(Listen), Packet(SYN), e2);
    Unfold(Start(SynRcvd), SendControl(false), e3);
    Unfold(Start(SynRcvd), Packet(ACK), []);
    assert [Packet(ACK)] + [] == e3;
    assert [Packet(SYN), SendControl(false), Packet(ACK)] == [Packet(SYN)] + e2;
  }
}
