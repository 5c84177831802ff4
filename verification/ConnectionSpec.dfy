/** The connection states of one end host, as a table over what each packet or call amounts to. */
module ConnectionSpec {

  datatype State = Closed | Listen | SynSent | SynRcvd | Established | FinWait1 | FinWait2
                 | CloseWait | Closing | LastAck | TimeWait | ClosedRsvd

  predicate Opening(s: State) { s.Closed? || s.Listen? || s.SynSent? }
  predicate Open(s: State) { s.Established? || s.CloseWait? }
  predicate FinWait(s: State) { s.FinWait1? || s.FinWait2? }
  predicate WeClosed(s: State) { FinWait(s) || s.Closing? || s.LastAck? || s.TimeWait? }
  predicate PeerClosed(s: State) { s.CloseWait? || s.LastAck? || s.Closing? }
  predicate PeerOpen(s: State) { Opening(s) || s.SynRcvd? || s.Established? || FinWait(s) }
  predicate Synchronized(s: State) { Open(s) || WeClosed(s) }

  // The one request the holder of the socket makes, to close or to reset, and where it is: on the queue between the
  // threads, put off to the internal queue, or carried out. mtcp_close and mtcp_abort both free the socket.
  datatype Request = NotMade
                   | CloseQueued | CloseDelayed | CloseHandled
                   | ResetQueued | ResetDelayed | ResetHandled

  // What a received segment amounts to for the connection.
  datatype Input = Input(
    syn: bool, ack: bool, rst: bool,
    hasPayload: bool,
    stale: bool,            // starts below rcv_nxt
    retransmittedSyn: bool, // the SYN that opened the connection again
    ackRefused: bool,       // SYN_SENT: acknowledges nothing we sent
    rstMatches: bool,       // SYN_RCVD: the RST is for our SYN
    acksFin: bool,          // acknowledges our FIN, sent at fss, with fss + 1
    finInOrder: bool,       // carries a FIN that ends exactly at rcv_nxt
    accepted: bool)         // there is room in the accept queue

  datatype Event =
    | Packet(i: Input)
    | RequestClose          // mtcp_close
    | HandleClose(onControlList: bool)          // the close queue is served
    | HandleDelayedClose(onControlList: bool)   // the internal close queue is served
    | SendControl(busy: bool)                   // SendControlPacket; busy: on the send or the ACK list
    | RequestReset          // mtcp_abort
    | HandleReset(busy: bool)                   // the reset queue is served; busy: on one of the three lists
    | HandleDelayedReset(busy: bool)            // the internal reset queue is served
    | ServeDestroyQueue
    | GiveUp                // retransmission limit, idle timeout
    | TimeWaitOver          // CheckTimewaitExpire

  datatype Flags = NoSegment | Syn | SynAck | PlainAck | FinAck | Rst

  // fins: FINs of the peer that advanced rcv_nxt; finAcked: our FIN was acknowledged.
  // toDestroy: on the queue of streams to destroy.
  datatype Conn = Conn(state: State, finSent: bool, finAcked: bool, fins: nat, haveReset: bool,
                       request: Request, toDestroy: bool, destroyed: bool)

  function Start(s: State): Conn {
    Conn(s, false, false, 0, false, NotMade, false, false)
  }

  // The edges of the state diagram in section 3.2 of RFC 793 that an end host of this stack can take.
  predicate RfcEdge(s: State, t: State) {
    match s
    case Listen => t == SynRcvd
    case SynSent => t == Established || t == SynRcvd
    case SynRcvd => t == Established
    case Established => t == FinWait1 || t == CloseWait
    case FinWait1 => t == FinWait2 || t == Closing
    case FinWait2 | Closing => t == TimeWait
    case CloseWait => t == LastAck
    case LastAck | TimeWait => t == ClosedRsvd
    case _ => false
  }

  // A change of state the design knows: an edge of the diagram, or an abort. Nothing follows CLOSED_RSVD.
  predicate MayGo(s: State, t: State) {
    s != ClosedRsvd && (RfcEdge(s, t) || t == ClosedRsvd)
  }

  // The two pairs of edges the code takes in one packet: a handshake that ends with the peer's FIN, and a FIN that
  // acknowledges ours.
  predicate TwoEdges(s: State, t: State) {
    (s == SynRcvd && t == CloseWait) || (s == FinWait1 && t == TimeWait)
  }

  // The changes one event may make: none, one, or one of those pairs.
  predicate Path(s: State, t: State) {
    s == t || MayGo(s, t) || TwoEdges(s, t)
  }

  function Go(c: Conn, s: State): Conn { c.(state := s) }

  function Destroy(c: Conn): Conn { c.(destroyed := true) }

  predicate HasSocket(c: Conn) { c.request.NotMade? }

  // No packet makes or serves a request, or sends our FIN.
  predicate SameClose(c: Conn, c': Conn) {
    c'.request == c.request && c'.toDestroy == c.toDestroy && c'.finSent == c.finSent
  }

  predicate Pending(r: Request) { r.CloseQueued? || r.CloseDelayed? || r.ResetQueued? || r.ResetDelayed? }

  // ProcessRST, for states after SYN_SENT.
  function OnRst(c: Conn, i: Input): (c': Conn)
    ensures SameClose(c, c') && c'.fins == c.fins
  {
    match c.state
    case SynRcvd => if i.rstMatches then Destroy(Go(c, ClosedRsvd)) else c
    case FinWait1 | FinWait2 | LastAck | Closing | TimeWait => Destroy(Go(c, ClosedRsvd))
    case _ => if Pending(c.request) then c else Go(c, ClosedRsvd)
  }

  function OnSynSent(c: Conn, i: Input): (c': Conn)
    ensures SameClose(c, c')
  {
    if i.ack && i.ackRefused then c
    else if i.rst then (if i.ack then (if HasSocket(c) then Go(c, ClosedRsvd) else Destroy(Go(c, ClosedRsvd))) else c)
    else if i.ack && i.syn then (if HasSocket(c) then Go(c, Established) else Destroy(Go(c, Established)))
    else if i.syn then Go(c, SynRcvd)
    else c
  }

  function OnEstablished(c: Conn, i: Input): (c': Conn)
    ensures SameClose(c, c')
  {
    if !i.syn && i.finInOrder then Go(c, CloseWait).(fins := c.fins + 1) else c
  }

  function OnSynRcvd(c: Conn, i: Input): (c': Conn)
    ensures SameClose(c, c')
  {
    if i.retransmittedSyn || !i.ack then c
    else if !i.accepted then Go(Go(c, Established), ClosedRsvd)
    else if i.hasPayload then OnEstablished(Go(c, Established), i)
    else Go(c, Established)
  }

  // The FIN of the peer in FIN_WAIT_1 (still, or already gone on to FIN_WAIT_2) and FIN_WAIT_2.
  function OnFin(c: Conn, i: Input): (c': Conn)
    ensures SameClose(c, c')
  {
    if !i.finInOrder then c
    else Go(c, if c.state == FinWait1 then Closing else TimeWait).(fins := c.fins + 1)
  }

  // The switch over the state, for a segment whose RST, if any, does not end the connection.
  function OnSegment(c: Conn, i: Input): (c': Conn)
    ensures SameClose(c, c')
  {
    match c.state
    case Listen => if i.syn then Go(c, SynRcvd) else c
    case SynSent => OnSynSent(c, i)
    case SynRcvd => OnSynRcvd(c, i)
    case Established => OnEstablished(c, i)
    case LastAck => if !i.stale && i.ack && i.acksFin then Destroy(Go(c.(finAcked := true), ClosedRsvd)) else c
    case FinWait1 =>
      if i.stale || !i.ack then c
      else OnFin(if i.acksFin then Go(c.(finAcked := true), FinWait2) else c, i)
    case FinWait2 => if i.ack then OnFin(c, i) else c
    case Closing => if i.ack && i.acksFin then Go(c.(finAcked := true), TimeWait) else c
    case _ => c
  }

  function OnPacket(c: Conn, i: Input): (c': Conn)
    ensures SameClose(c, c')
  {
    var c := if i.rst then c.(haveReset := true) else c;
    if i.rst && !Opening(c.state) then OnRst(c, i) else OnSegment(c, i)
  }

  // The application's half of the close: FIN_WAIT_1 or LAST_ACK.
  function CloseNow(c: Conn): Conn {
    if c.state == Established then Go(c, FinWait1)
    else if c.state == CloseWait then Go(c, LastAck)
    else c
  }

  // SendControlPacket: what goes out, and the connection afterwards.
  function Control(c: Conn, busy: bool): (Conn, Flags) {
    match c.state
    case SynSent => (c, Syn)
    case SynRcvd => (c, SynAck)
    case Established | CloseWait | FinWait2 | TimeWait => (c, PlainAck)
    case LastAck | FinWait1 => if busy then (c, NoSegment) else (c.(finSent := true), FinAck)
    case Closing | ClosedRsvd => if busy then (c, NoSegment) else (Destroy(c), Rst)
    case _ => (c, NoSegment)
  }

  // CloseStreamSocket. Out of ESTABLISHED and CLOSE_WAIT nothing is queued, but an unborn or dead stream is destroyed.
  function OnRequestClose(c: Conn): Conn {
    if !HasSocket(c) then c
    else if Open(c.state) then c.(request := CloseQueued)
    else c.(request := CloseHandled, toDestroy := c.toDestroy || c.state == SynSent || c.state == ClosedRsvd)
  }

  // A request served on a connection that was reset.
  function EndReset(c: Conn): Conn {
    if c.state == ClosedRsvd then c else Destroy(Go(c, ClosedRsvd))
  }

  // mtcp_abort
  function OnRequestReset(c: Conn): Conn {
    if !HasSocket(c) then c
    else if c.state == ClosedRsvd then c.(request := ResetHandled)
    else if c.state == SynSent || c.state == Closing || c.state == LastAck || c.state == TimeWait
    then Go(c, ClosedRsvd).(toDestroy := true, request := ResetHandled)
    else c.(request := ResetQueued)
  }

  function OnHandleReset(c: Conn, busy: bool): Conn {
    if c.request != ResetQueued then c
    else if c.haveReset then EndReset(c.(request := ResetHandled))
    else if busy then c.(request := ResetDelayed)
    else Go(c, ClosedRsvd).(request := ResetHandled)
  }

  function Step(c: Conn, e: Event): Conn {
    if c.destroyed then c
    else match e
      case Packet(i) => OnPacket(c, i)
      case RequestClose => OnRequestClose(c)
      case HandleClose(onControlList) =>
        if c.request != CloseQueued then c
        else if c.haveReset then EndReset(c.(request := CloseHandled))
        else if onControlList then c.(request := CloseDelayed)
        else CloseNow(c.(request := CloseHandled))
      case HandleDelayedClose(onControlList) =>
        if c.request != CloseDelayed || onControlList then c else CloseNow(c.(request := CloseHandled))
      case SendControl(busy) => Control(c, busy).0
      case RequestReset => OnRequestReset(c)
      case HandleReset(busy) => OnHandleReset(c, busy)
      case HandleDelayedReset(busy) =>
        if c.request != ResetDelayed || busy then c else Go(c, ClosedRsvd).(request := ResetHandled)
      case ServeDestroyQueue => if c.toDestroy then Destroy(c) else c
      case GiveUp => Go(c, ClosedRsvd)
      case TimeWaitOver => if c.state == TimeWait then Destroy(Go(c, ClosedRsvd)) else c
  }

  // What every event keeps.
  ghost predicate Inv(c: Conn) {
    && (c.state == FinWait2 ==> c.finSent && c.finAcked)
    && (c.state == TimeWait ==> c.finSent && c.finAcked && c.fins == 1)
    && (PeerClosed(c.state) ==> c.fins == 1)
    && (PeerOpen(c.state) ==> c.fins == 0)
    && c.fins <= 1
    && (c.finAcked ==> c.finSent)
    && (c.finSent ==> c.request == CloseHandled)
    && (WeClosed(c.state) ==> c.request == CloseHandled && !c.toDestroy)
    && (c.toDestroy ==> c.request == CloseHandled || c.request == ResetHandled)
  }

  // An input may claim to acknowledge our FIN only if one was sent.
  predicate Sane(c: Conn, e: Event) {
    e.Packet? && e.i.acksFin ==> c.finSent
  }

  lemma AbortKeepsInv(c: Conn)
    requires Inv(c)
    ensures Inv(Go(c, ClosedRsvd)) && Inv(Destroy(Go(c, ClosedRsvd)))
  {
  }

  lemma RstKeepsInv(c: Conn, i: Input)
    requires Inv(c) && !Opening(c.state)
    ensures Inv(OnRst(c, i))
  {
    hide Inv, Go, Destroy;
    AbortKeepsInv(c);
  }

  lemma EstablishedKeepsInv(c: Conn, i: Input)
    requires Inv(c)
    ensures c.state == Established ==> Inv(OnEstablished(c, i))
  {
  }

  lemma OpensKeepingInv(c: Conn)
    requires Inv(c) && (Opening(c.state) || c.state == SynRcvd)
    ensures Inv(Go(c, SynRcvd)) && Inv(Go(c, Established)) && Inv(Destroy(Go(c, Established)))
  {
  }

  lemma OpeningKeepsInv(c: Conn, i: Input)
    requires Inv(c)
    ensures c.state == Listen ==> Inv(Go(c, SynRcvd))
    ensures c.state == SynSent ==> Inv(OnSynSent(c, i))
    ensures c.state == SynRcvd ==> Inv(OnSynRcvd(c, i))
  {
    if Opening(c.state) || c.state == SynRcvd {
      OpensKeepingInv(c);
      AbortKeepsInv(c);
      AbortKeepsInv(Go(c, Established));
      EstablishedKeepsInv(Go(c, Established), i);
      assert Go(c, Established).state == Established;
    }
    hide Inv, Go, Destroy, OnEstablished;
  }

  lemma FinWaitKeepsInv(c: Conn, i: Input)
    requires Inv(c) && Sane(c, Packet(i)) && FinWait(c.state)
    ensures Inv(OnFin(c, i))
    ensures c.state == FinWait1 && i.acksFin ==> Inv(OnFin(Go(c.(finAcked := true), FinWait2), i))
  {
  }

  lemma ClosingKeepsInv(c: Conn)
    requires Inv(c) && c.finSent
    ensures c.state == LastAck ==> Inv(Destroy(Go(c.(finAcked := true), ClosedRsvd)))
    ensures c.state == Closing ==> Inv(Go(c.(finAcked := true), TimeWait))
  {
  }

  lemma SegmentKeepsInv(c: Conn, i: Input)
    requires Inv(c) && Sane(c, Packet(i))
    ensures Inv(OnSegment(c, i))
  {
    hide Inv, OnSynSent, OnSynRcvd, OnEstablished, OnFin;
    match c.state
    case FinWait1 | FinWait2 => FinWaitKeepsInv(c, i);
    case LastAck | Closing => if i.acksFin { ClosingKeepsInv(c); }
    case Established => EstablishedKeepsInv(c, i);
    case _ => OpeningKeepsInv(c, i);
  }

  lemma PacketKeepsInv(c0: Conn, i: Input)
    requires Inv(c0) && Sane(c0, Packet(i))
    ensures Inv(OnPacket(c0, i))
  {
    var c := if i.rst then c0.(haveReset := true) else c0;
    assert Inv(c);
    hide OnRst, OnSegment, Inv;
    if i.rst && !Opening(c.state) {
      RstKeepsInv(c, i);
    } else {
      SegmentKeepsInv(c, i);
    }
  }

  lemma RequestKeepsInv(c: Conn)
    requires Inv(c)
    ensures Inv(OnRequestClose(c)) && Inv(OnRequestReset(c))
  {
  }

  lemma CloseKeepsInv(c: Conn)
    requires Inv(c) && (c.request == CloseQueued || c.request == CloseDelayed)
    ensures Inv(EndReset(c.(request := CloseHandled))) && Inv(c.(request := CloseDelayed))
    ensures Inv(CloseNow(c.(request := CloseHandled)))
  {
  }

  lemma ResetKeepsInv(c: Conn, busy: bool)
    requires Inv(c)
    ensures Inv(OnHandleReset(c, busy))
    ensures c.request == ResetDelayed ==> Inv(Go(c, ClosedRsvd).(request := ResetHandled))
  {
  }

  lemma ControlKeepsInv(c: Conn, busy: bool)
    requires Inv(c)
    ensures Inv(Control(c, busy).0) && Inv(Destroy(c))
  {
  }

  lemma StepKeepsInv(c: Conn, e: Event)
    requires Inv(c) && Sane(c, e)
    ensures Inv(Step(c, e))
  {
    hide Inv, OnPacket, OnRequestClose, OnRequestReset, OnHandleReset, EndReset, CloseNow, Control, Go, Destroy;
    AbortKeepsInv(c);
    match e
    case Packet(i) => PacketKeepsInv(c, i);
    case RequestClose | RequestReset => RequestKeepsInv(c);
    case HandleClose(_) => if c.request == CloseQueued { CloseKeepsInv(c); }
    case HandleDelayedClose(_) => if c.request == CloseDelayed { CloseKeepsInv(c); }
    case HandleReset(busy) => ResetKeepsInv(c, busy);
    case HandleDelayedReset(busy) => ResetKeepsInv(c, busy);
    case SendControl(busy) => ControlKeepsInv(c, busy);
    case _ => ControlKeepsInv(c, false);
  }

  // ---------------------------------------------------------------- over whole runs

  ghost predicate Run(cs: seq<Conn>, es: seq<Event>) {
    && |cs| == |es| + 1 && (cs[0] == Start(Listen) || cs[0] == Start(SynSent))
    && forall k :: 0 <= k < |es| ==> Sane(cs[k], es[k]) && cs[k + 1] == Step(cs[k], es[k])
  }

  lemma {:induction false} RunInv(cs: seq<Conn>, es: seq<Event>, k: nat)
    requires Run(cs, es) && k < |cs|
    ensures Inv(cs[k])
  {
    if k > 0 {
      RunInv(cs, es, k - 1);
      StepKeepsInv(cs[k - 1], es[k - 1]);
    }
  }

  // How far along its life a connection is; every change of state moves on.
  function Rank(s: State): nat {
    match s
    case Closed => 0
    case Listen => 1
    case SynSent => 1
    case SynRcvd => 2
    case Established => 3
    case CloseWait => 4
    case FinWait1 => 4
    case FinWait2 => 5
    case Closing => 5
    case LastAck => 6
    case TimeWait => 6
    case ClosedRsvd => 7
  }

  lemma HandshakeMoves(c: Conn, i: Input)
    ensures c.state == SynSent ==> Path(SynSent, OnSynSent(c, i).state)
    ensures c.state == SynRcvd ==> Path(SynRcvd, OnSynRcvd(c, i).state)
    ensures c.state == Established ==> Path(Established, OnEstablished(c, i).state)
  {
  }

  lemma SegmentMoves(c: Conn, i: Input)
    ensures Path(c.state, OnSegment(c, i).state)
  {
    HandshakeMoves(c, i);
    hide OnSynSent, OnSynRcvd, OnEstablished;
  }

  lemma RstMoves(c: Conn, i: Input)
    ensures Path(c.state, OnRst(c, i).state)
  {
  }

  lemma PacketTakesPath(c: Conn, i: Input)
    ensures Path(c.state, OnPacket(c, i).state)
  {
    hide OnSegment, OnRst, Path;
    var d := if i.rst then c.(haveReset := true) else c;
    SegmentMoves(d, i);
    RstMoves(d, i);
  }

  // Every event moves the connection along the diagram, or aborts it.
  lemma StepTakesPath(c: Conn, e: Event)
    ensures Path(c.state, Step(c, e).state)
  {
    if e.Packet? {
      PacketTakesPath(c, e.i);
    }
    hide OnPacket;
  }

  lemma PathClimbs(s: State, t: State)
    requires Path(s, t)
    ensures s == t || Rank(s) < Rank(t)
  {
  }

  lemma {:induction false} StatesClimb(cs: seq<Conn>, es: seq<Event>, j: nat, k: nat)
    requires Run(cs, es) && j <= k < |cs|
    ensures cs[j].state == cs[k].state || Rank(cs[j].state) < Rank(cs[k].state)
    decreases k
  {
    hide Path, Rank, Step;
    if j < k {
      StatesClimb(cs, es, j, k - 1);
      StepTakesPath(cs[k - 1], es[k - 1]);
      PathClimbs(cs[k - 1].state, cs[k].state);
    }
  }

  // In every run: each event takes the connection along edges of the diagram or aborts it, a state that was left is
  // never entered again, and at most one FIN of the peer moves rcv_nxt; FIN_WAIT_2 and TIME_WAIT are reached only with
  // our FIN sent and acknowledged, TIME_WAIT only with the peer's FIN taken too.
  lemma RunSafety(cs: seq<Conn>, es: seq<Event>, i: nat, j: nat, k: nat)
    requires Run(cs, es) && i <= j <= k < |cs|
    ensures k < |es| ==> Path(cs[k].state, cs[k + 1].state)
    ensures cs[i].state == cs[k].state ==> cs[j].state == cs[k].state
    ensures var c := cs[k];
            && c.fins <= 1
            && (c.state == FinWait2 ==> c.finSent && c.finAcked && c.fins == 0)
            && (c.state == TimeWait ==> c.finSent && c.finAcked && c.fins == 1)
  {
    RunInv(cs, es, k);
    StatesClimb(cs, es, i, j);
    StatesClimb(cs, es, j, k);
    if k < |es| {
      StepTakesPath(cs[k], es[k]);
    }
  }

  // ---------------------------------------------------------------- simultaneous close

  // The connection after these events, each of which it may meet.
  function After(c: Conn, es: seq<Event>): Conn
    decreases |es|
  {
    if es == [] then c else After(Step(c, es[0]), es[1..])
  }

  predicate AllSane(c: Conn, es: seq<Event>)
    decreases |es|
  {
    es == [] || (Sane(c, es[0]) && AllSane(Step(c, es[0]), es[1..]))
  }

  lemma Unfold(c: Conn, e: Event, es: seq<Event>)
    ensures After(c, [e] + es) == After(Step(c, e), es)
    ensures AllSane(c, [e] + es) <==> Sane(c, e) && AllSane(Step(c, e), es)
  {
    assert ([e] + es)[1..] == es;
    hide Step, Sane;
  }

  // Whether it is ever in state s while they happen.
  predicate Visits(c: Conn, es: seq<Event>, s: State)
    decreases |es|
  {
    c.state == s || (es != [] && Visits(Step(c, es[0]), es[1..], s))
  }

  // The peer acknowledges our FIN.
  predicate AcksOurFin(e: Event) { e.Packet? && !e.i.rst && e.i.ack && e.i.acksFin }

  // What ends a connection in CLOSING: its control packet leaves, a RST arrives, or the stack gives up.
  predicate EndsClosing(e: Event) { e == SendControl(false) || e == GiveUp || (e.Packet? && e.i.rst) }

  // The acknowledgement comes before any of these.
  predicate AckedInTime(es: seq<Event>) {
    es != [] && (AcksOurFin(es[0]) || (!EndsClosing(es[0]) && AckedInTime(es[1..])))
  }

  // Nothing moves a destroyed connection, or one in CLOSED_RSVD.
  lemma {:induction false} EndIsEnd(c: Conn, es: seq<Event>, s: State)
    requires c.state != s && (c.destroyed || c.state == ClosedRsvd)
    ensures !Visits(c, es, s)
    decreases |es|
  {
    if es != [] {
      EndStep(c, es[0]);
      EndIsEnd(Step(c, es[0]), es[1..], s);
    }
  }

  lemma EndStep(c: Conn, e: Event)
    requires c.destroyed || c.state == ClosedRsvd
    ensures var c' := Step(c, e);
            c'.state == c.state && (c'.destroyed || c'.state == ClosedRsvd) && c'.finAcked == c.finAcked
  {
  }

  lemma ClosingStep(c: Conn, e: Event)
    requires c.state == Closing && !c.destroyed && c.request == CloseHandled && !c.toDestroy
    ensures var c' := Step(c, e);
            if AcksOurFin(e) then c'.state == TimeWait
            else if EndsClosing(e) then c'.state == ClosedRsvd || (c'.state == Closing && c'.destroyed)
            else c'.state == Closing && !c'.destroyed && c'.request == CloseHandled && !c'.toDestroy
  {
  }

  lemma ClosingIsOver(c: Conn)
    requires Inv(c) && c.state == Closing
    ensures c.request == CloseHandled && !c.toDestroy
  {
  }

  // The control packet of CLOSING is never an ACK of the peer's FIN: it is a RST, and it destroys the connection. A
  // connection in CLOSING gets to TIME_WAIT if and only if our FIN is acknowledged before the control packet is
  // sent: whether both ends that close at once see each other's acknowledgement is a race.
  lemma {:induction false} ClosingRace(c: Conn, es: seq<Event>)
    requires Inv(c) && c.state == Closing && !c.destroyed && AllSane(c, es)
    ensures Visits(c, es, TimeWait) <==> AckedInTime(es)
    ensures forall busy :: Control(c, busy).1 == if busy then NoSegment else Rst
    decreases |es|
  {
    hide Step, Inv, Sane;
    if es != [] {
      var c' := Step(c, es[0]);
      ClosingIsOver(c);
      ClosingStep(c, es[0]);
      if AcksOurFin(es[0]) {
        assert Visits(c', es[1..], TimeWait);
      } else if EndsClosing(es[0]) {
        EndIsEnd(c', es[1..], TimeWait);
      } else {
        StepKeepsInv(c, es[0]);
        ClosingRace(c', es[1..]);
      }
    }
  }

  // ---------------------------------------------------------------- LAST_ACK

  predicate EverAcked(c: Conn, es: seq<Event>)
    decreases |es|
  {
    c.finAcked || (es != [] && EverAcked(Step(c, es[0]), es[1..]))
  }

  predicate AcksFresh(e: Event) { AcksOurFin(e) && !e.i.stale }

  predicate EndsLastAck(e: Event) { e == GiveUp || (e.Packet? && e.i.rst) }

  // A fresh acknowledgement of our FIN comes before a RST and before the stack gives up.
  predicate AckedFirst(es: seq<Event>) {
    es != [] && (AcksFresh(es[0]) || (!EndsLastAck(es[0]) && AckedFirst(es[1..])))
  }

  lemma {:induction false} EndIsUnacked(c: Conn, es: seq<Event>)
    requires !c.finAcked && (c.destroyed || c.state == ClosedRsvd)
    ensures !EverAcked(c, es)
    decreases |es|
  {
    hide Step;
    if es != [] {
      EndStep(c, es[0]);
      EndIsUnacked(Step(c, es[0]), es[1..]);
    }
  }

  lemma LastAckStep(c: Conn, e: Event)
    requires Inv(c) && c.state == LastAck && !c.destroyed && !c.finAcked
    ensures var c' := Step(c, e);
            if AcksFresh(e) then c'.finAcked && c'.state == ClosedRsvd && c'.destroyed
            else if EndsLastAck(e) then c'.state == ClosedRsvd && !c'.finAcked
            else c'.state == LastAck && !c'.destroyed && !c'.finAcked
  {
  }

  // A connection in LAST_ACK learns that its FIN arrived if and only if a fresh acknowledgement of it comes first.
  lemma {:induction false} LastAckRace(c: Conn, es: seq<Event>)
    requires Inv(c) && c.state == LastAck && !c.destroyed && !c.finAcked && AllSane(c, es)
    ensures EverAcked(c, es) <==> AckedFirst(es)
    decreases |es|
  {
    hide Step, Inv, Sane;
    if es != [] {
      var c' := Step(c, es[0]);
      LastAckStep(c, es[0]);
      if AcksFresh(es[0]) {
        assert EverAcked(c', es[1..]);
      } else if EndsLastAck(es[0]) {
        EndIsUnacked(c', es[1..]);
      } else {
        StepKeepsInv(c, es[0]);
        LastAckRace(c', es[1..]);
      }
    }
  }

  const SYN_ACK := Input(true, true, false, false, false, false, false, false, false, false, true)
  const FIN := Input(false, true, false, false, false, false, false, false, false, true, true)
  const FIN_ACKED := Input(false, true, false, false, false, false, false, false, true, false, true)
  const RST := Input(false, false, true, false, false, false, false, false, false, false, true)

  // Both ends close at once: the run loses the race, or wins it.
  lemma SimultaneousClose()
    ensures var es := [Packet(SYN_ACK), Event.RequestClose, HandleClose(false), SendControl(false), Packet(FIN)];
            var c := After(Start(SynSent), es);
            && AllSane(Start(SynSent), es) && c.state == Closing && !c.destroyed
            && Step(c, SendControl(false)).destroyed && Control(c, false).1 == Rst
            && Sane(c, Packet(FIN_ACKED)) && Step(c, Packet(FIN_ACKED)).state == TimeWait
  {
    var e5 := [Packet(FIN)];
    var e4 := [SendControl(false)] + e5;
    var e3 := [HandleClose(false)] + e4;
    var e2 := [Event.RequestClose] + e3;
    var c1 := Start(Established);
    var c2 := c1.(request := CloseQueued);
    var c3 := c2.(request := CloseHandled, state := FinWait1);
    var c4 := c3.(finSent := true);
    Unfold(Start(SynSent), Packet(SYN_ACK), e2);
    Unfold(c1, Event.RequestClose, e3);
    Unfold(c2, HandleClose(false), e4);
    Unfold(c3, SendControl(false), e5);
    Unfold(c4, Packet(FIN), []);
    assert [Packet(FIN)] + [] == e5;
    assert After(Start(SynSent), [Packet(SYN_ACK)] + e2) == Step(c4, Packet(FIN));
    assert [Packet(SYN_ACK), Event.RequestClose, HandleClose(false), SendControl(false), Packet(FIN)]
      == [Packet(SYN_ACK)] + e2;
  }

  // ---------------------------------------------------------------- a close request on a connection that was reset

  // The internal close queue is served before the stack gives up.
  predicate ServedInTime(es: seq<Event>) {
    es != [] && (es[0] == HandleDelayedClose(false) || (es[0] != GiveUp && ServedInTime(es[1..])))
  }

  lemma ResetStep(c: Conn, e: Event)
    requires !c.destroyed && c.haveReset && Open(c.state) && (c.request == CloseQueued || c.request == CloseDelayed)
    requires Inv(c) && Sane(c, e)
    ensures var c' := Step(c, e);
            if c.request == CloseDelayed && e == HandleDelayedClose(false)
            then c'.state == FinWait1 || c'.state == LastAck
            else c'.state == ClosedRsvd
                 || (Open(c'.state) && !c'.destroyed && c'.haveReset && c'.request == c.request && e != GiveUp)
    ensures e == GiveUp ==> Step(c, e).state == ClosedRsvd
    ensures e != GiveUp && c.request == CloseDelayed ==> Step(c, e).state != ClosedRsvd
  {
  }

  // The design: a close request ends a connection that was reset. A request that was put off to the internal queue
  // when the RST arrived goes through FIN_WAIT_1 or LAST_ACK all the same, as soon as it is served.
  lemma {:induction false} CloseAfterReset(c: Conn, es: seq<Event>)
    requires !c.destroyed && c.haveReset && Open(c.state) && (c.request == CloseQueued || c.request == CloseDelayed)
    requires Inv(c) && AllSane(c, es)
    ensures Visits(c, es, FinWait1) || Visits(c, es, LastAck) <==> c.request == CloseDelayed && ServedInTime(es)
    decreases |es|
  {
    hide Step, Inv, Sane;
    if es != [] {
      var c' := Step(c, es[0]);
      ResetStep(c, es[0]);
      if c'.state == ClosedRsvd {
        EndIsEnd(c', es[1..], FinWait1);
        EndIsEnd(c', es[1..], LastAck);
      } else if Open(c'.state) {
        StepKeepsInv(c, es[0]);
        CloseAfterReset(c', es[1..]);
      } else {
        assert Visits(c', es[1..], FinWait1) || Visits(c', es[1..], LastAck);
      }
    }
  }

  // A run that gets there: the request is put off, then the RST arrives.
  lemma ResetThenFin()
    ensures var es := [Packet(SYN_ACK), Event.RequestClose, HandleClose(true), Packet(RST)];
            var c := After(Start(SynSent), es);
            && AllSane(Start(SynSent), es) && !c.destroyed && c.haveReset && Open(c.state) && c.request == CloseDelayed
            && Step(c, HandleDelayedClose(false)).state == FinWait1
  {
    var e4 := [Packet(RST)];
    var e3 := [HandleClose(true)] + e4;
    var e2 := [Event.RequestClose] + e3;
    var c1 := Start(Established);
    var c2 := c1.(request := CloseQueued);
    var c3 := c2.(request := CloseDelayed);
    Unfold(Start(SynSent), Packet(SYN_ACK), e2);
    Unfold(c1, Event.RequestClose, e3);
    Unfold(c2, HandleClose(true), e4);
    Unfold(c3, Packet(RST), []);
    assert [Packet(RST)] + [] == e4;
    assert After(Start(SynSent), [Packet(SYN_ACK)] + e2) == Step(c3, Packet(RST));
    assert [Packet(SYN_ACK), Event.RequestClose, HandleClose(true), Packet(RST)] == [Packet(SYN_ACK)] + e2;
  }
}
