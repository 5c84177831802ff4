/** The connection state of one end host as the packet handlers and the close path change it. */
module Connection {
  import opened Bytes
  import opened ConnectionSpec

  datatype Pkt = Pkt(syn: bool, ack: bool, fin: bool, rst: bool, sn: U32, ackSeq: U32, payloadLen: nat)

  // What ProcessTCPPayload and ProcessACK do with this packet; ByteStream says how they do it.
  // advance: octets by which rcv_nxt moves; sndNxt, sndUna: the sender's variables after ProcessACK.
  datatype Effects = Effects(advance: nat, sndNxt: U32, sndUna: U32)

  // snd_nxt and snd_una after a packet in a synchronized state.
  function SndAfter(s: State, i: Input, p: Pkt, fx: Effects, nxt: U32, una: U32): (U32, U32) {
    match s
    case Established => if i.syn then (p.ackSeq, una) else if i.ack then (fx.sndNxt, fx.sndUna) else (nxt, una)
    case CloseWait => if i.stale then (nxt, una) else (fx.sndNxt, fx.sndUna)
    case FinWait1 =>
      if i.stale || !i.ack then (nxt, una)
      else if i.acksFin then (if SeqGt(p.ackSeq, fx.sndNxt) then p.ackSeq else fx.sndNxt, p.ackSeq)
      else (fx.sndNxt, fx.sndUna)
    case FinWait2 => if i.ack then (fx.sndNxt, fx.sndUna) else (nxt, una)
    case Closing => if !i.ack then (nxt, una) else (fx.sndNxt, if i.acksFin then p.ackSeq else fx.sndUna)
    case LastAck =>
      if i.stale || !i.ack then (nxt, una)
      else (fx.sndNxt, if i.acksFin then Wrap(fx.sndUna + 1) else fx.sndUna)
    case _ => (nxt, una)
  }

  // A segment that acknowledges, and is not old, brings the variables where ProcessACK does in every state that still
  // has something to be acknowledged; the acknowledgement of our FIN moves snd_una past it.
  lemma AcksAreTaken(s: State, i: Input, p: Pkt, fx: Effects, nxt: U32, una: U32)
    requires Synchronized(s) && s != TimeWait && i.ack && !i.stale && !(s == Established && i.syn)
    requires i.acksFin ==> fx.sndUna == p.ackSeq || Wrap(fx.sndUna + 1) == p.ackSeq
    ensures var (nxt', una') := SndAfter(s, i, p, fx, nxt, una);
            var ours := s == FinWait1 || s == Closing || s == LastAck;
            && (!(ours && i.acksFin) ==> (nxt', una') == (fx.sndNxt, fx.sndUna))
            && (ours && i.acksFin && s != LastAck ==> una' == p.ackSeq)
            && (ours && i.acksFin && s == LastAck && fx.sndUna != p.ackSeq ==> una' == p.ackSeq)
            && (nxt' == fx.sndNxt || (s == FinWait1 && i.acksFin && nxt' == p.ackSeq))
  {
  }

  lemma NothingToSend(s: State, i: Input, p: Pkt, fx: Effects, nxt: U32, una: U32)
    requires s == TimeWait || s == ClosedRsvd
    ensures SndAfter(s, i, p, fx, nxt, una) == (nxt, una)
  {
  }

  lemma ControlDoes(c: Conn, busy: bool)
    requires Inv(c) && !c.destroyed
    ensures Inv(Control(c, busy).0)
    ensures var (c', flags) := Control(c, busy);
            c' == if flags == Rst then ConnectionSpec.Destroy(c) else if flags == FinAck then c.(finSent := true) else c
  {
    StepKeepsInv(c, SendControl(busy));
    hide Inv;
  }

  // State and rcv_nxt behind the payload of a packet in FIN_WAIT_1 or FIN_WAIT_2 that brings the peer's FIN or not.
  function AfterFinWait(s: State, fin: bool, rcvNxt: U32): (State, U32) {
    if !fin then (s, rcvNxt) else (if s == FinWait1 then Closing else TimeWait, Wrap(rcvNxt + 1))
  }

  class TcpStream {
    var state: State
    var iss: U32
    var sndNxt: U32
    var sndUna: U32
    var fss: U32              // sequence number of our FIN
    var isFinSent: bool
    var irs: U32
    var rcvNxt: U32
    var haveReset: bool
    var closed: bool
    var onCloseq: bool
    var onCloseqInt: bool
    var onResetq: bool
    var onResetqInt: bool
    var onDestroyq: bool
    var hasSocket: bool       // until mtcp_close or mtcp_abort frees it
    var destroyed: bool
    ghost var abs: Conn       // the row of the table this stream stands at, with its history
    ghost var finsSent: set<U32>   // sequence numbers of the FINs that were sent

    ghost predicate Valid()
      reads this
    {
      && Mirrors()
      && (closed ==> !HasSocket(abs))
      && Inv(abs)
      && (isFinSent ==> fss in finsSent)
    }

    constructor (active: bool, iss: U32, irs: U32)
      ensures Valid() && abs == Start(if active then SynSent else Listen)
    {
      state := if active then SynSent else Listen;
      this.iss, sndNxt, sndUna, fss, this.irs, rcvNxt := iss, iss, iss, 0, irs, irs;
      isFinSent, haveReset, closed, hasSocket, destroyed := false, false, false, true, false;
      onCloseq, onCloseqInt, onResetq, onResetqInt, onDestroyq := false, false, false, false, false;
      abs := Start(if active then SynSent else Listen);
      finsSent := {};
    }

    // The table input this packet is.
    function InputOf(p: Pkt, fx: Effects, accepted: bool): Input
      reads this`state, this`irs, this`rcvNxt, this`iss, this`sndNxt, this`isFinSent, this`fss
    {
      var base := if state == SynRcvd then Wrap(irs + 1) else rcvNxt;
      Input(p.syn, p.ack, p.rst, p.payloadLen > 0,
            SeqLt(p.sn, rcvNxt),
            p.syn && p.sn == irs,
            SeqLeq(p.ackSeq, iss) || SeqGt(p.ackSeq, sndNxt),
            p.sn == 0 || p.ackSeq == sndNxt,
            isFinSent && p.ackSeq == Wrap(fss + 1),
            p.fin && Wrap(p.sn + p.payloadLen) == Wrap(base + (if p.payloadLen > 0 then fx.advance else 0)),
            accepted)
    }

    // What the table row says about the fields.
    ghost predicate Mirrors()
      reads this`abs, this`state, this`isFinSent, this`haveReset, this`destroyed, this`hasSocket
      reads this`onCloseq, this`onCloseqInt, this`onResetq, this`onResetqInt, this`onDestroyq
    {
      abs.state == state && abs.finSent == isFinSent && abs.haveReset == haveReset && abs.destroyed == destroyed
      && (onCloseq <==> abs.request == CloseQueued) && (onCloseqInt <==> abs.request == CloseDelayed)
      && (onResetq <==> abs.request == ResetQueued) && (onResetqInt <==> abs.request == ResetDelayed)
      && (onDestroyq <==> abs.toDestroy) && (hasSocket <==> HasSocket(abs))
    }

    method SetState(s: State)
      requires Mirrors()
      modifies this`state, this`abs
      ensures Mirrors() && state == s && abs == Go(old(abs), s)
    {
      state := s;
      abs := Go(abs, s);
    }

    method Destroy()
      requires Mirrors()
      modifies this`destroyed, this`abs
      ensures Mirrors() && destroyed && abs == ConnectionSpec.Destroy(old(abs))
    {
      destroyed := true;
      abs := ConnectionSpec.Destroy(abs);
    }

    // The end of a connection: CLOSED_RSVD, and the stream is queued for destruction.
    method Abort()
      requires Mirrors()
      modifies this`state, this`destroyed, this`abs
      ensures Mirrors() && state == ClosedRsvd && destroyed
      ensures abs == ConnectionSpec.Destroy(Go(old(abs), ClosedRsvd))
    {
      hide Mirrors;
      SetState(ClosedRsvd);
      Destroy();
    }

    // The peer has our FIN.
    method FinAcked(next: State)
      requires Mirrors()
      modifies this`state, this`abs
      ensures Mirrors() && state == next && abs == Go(old(abs).(finAcked := true), next)
    {
      SetState(next);
      abs := abs.(finAcked := true);
    }

    method NoteReset()
      requires Mirrors()
      modifies this`haveReset, this`abs
      ensures Mirrors() && haveReset && abs == old(abs).(haveReset := true)
    {
      haveReset := true;
      abs := abs.(haveReset := true);
    }

    method ProcessRST(p: Pkt, ghost i: Input) returns (handled: bool)
      requires Mirrors() && i.rstMatches == (p.sn == 0 || p.ackSeq == sndNxt)
      modifies this`state, this`destroyed, this`abs
      ensures Mirrors() && handled == !Opening(old(state))
      ensures abs == if handled then OnRst(old(abs), i) else old(abs)
    {
      hide SeqDiff, Wrap;
      if Opening(state) {
        return false;
      }
      if state == SynRcvd {
        if p.sn == 0 || p.ackSeq == sndNxt {
          Abort();
        }
        return true;
      }
      if WeClosed(state) {
        Abort();
        return true;
      }
      if !(onCloseq || onCloseqInt || onResetq || onResetqInt) {
        SetState(ClosedRsvd);
      }
      return true;
    }

    method HandleListen(p: Pkt)
      requires Mirrors()
      modifies this`state, this`abs, this`rcvNxt
      ensures Mirrors() && abs == if p.syn then Go(old(abs), SynRcvd) else old(abs)
      ensures old(state) == SynRcvd ==> abs == old(abs)
      ensures rcvNxt == if p.syn && old(state) == Listen then Wrap(old(rcvNxt) + 1) else old(rcvNxt)
    {
      hide SeqDiff, Wrap;
      if p.syn {
        if state == Listen {
          rcvNxt := Wrap(rcvNxt + 1);
        }
        SetState(SynRcvd);
      }
    }

    method HandleSynSent(p: Pkt, ghost i: Input)
      requires Mirrors() && i.syn == p.syn && i.ack == p.ack && i.rst == p.rst
      requires i.ackRefused <==> SeqLeq(p.ackSeq, iss) || SeqGt(p.ackSeq, sndNxt)
      modifies this`state, this`abs, this`destroyed, this`rcvNxt, this`sndNxt, this`sndUna, this`irs
      ensures Mirrors() && abs == OnSynSent(old(abs), i)
      ensures (irs, rcvNxt) == if p.ack && !i.ackRefused && !p.rst && p.syn then (p.sn, Wrap(p.sn + 1))
                               else (old(irs), old(rcvNxt))
      ensures sndUna == if p.ack && !i.ackRefused then Wrap(old(sndUna) + 1) else old(sndUna)
      ensures sndNxt == if (p.ack && i.ackRefused) || p.rst || !p.syn then old(sndNxt)
                        else if p.ack then p.ackSeq else iss
      ensures var taken := !(p.ack && i.ackRefused) && !p.rst && p.syn;
              old(state) == SynSent ==>
                && (state == Established <==> taken && p.ack) && (state == SynRcvd <==> taken && !p.ack)
                && (state == ClosedRsvd <==> p.ack && !i.ackRefused && p.rst)
                && (destroyed <==> old(destroyed) || (state != SynSent && p.ack && !old(hasSocket)))
    {
      hide SeqDiff, Wrap, Go, ConnectionSpec.Destroy;
      if p.ack {
        if SeqLeq(p.ackSeq, iss) || SeqGt(p.ackSeq, sndNxt) {
          return;
        }
        sndUna := Wrap(sndUna + 1);
      }
      if p.rst {
        if p.ack {
          SetState(ClosedRsvd);
          if !hasSocket {
            Destroy();
          }
        }
        return;
      }
      if p.ack && p.syn {
        irs := p.sn;
        sndNxt := p.ackSeq;
        rcvNxt := Wrap(irs + 1);
        SetState(Established);
        if !hasSocket {
          Destroy();
        }
      } else if p.syn {
        SetState(SynRcvd);
        sndNxt := iss;
      }
    }

    method HandleSynRcvd(p: Pkt, accepted: bool)
      requires Mirrors()
      modifies this`state, this`abs, this`rcvNxt, this`sndNxt, this`sndUna
      ensures Mirrors()
      ensures abs == if !p.ack then old(abs)
                     else if accepted then Go(old(abs), Established)
                     else Go(Go(old(abs), Established), ClosedRsvd)
      ensures rcvNxt == if p.ack then Wrap(irs + 1) else old(rcvNxt)
      ensures (sndNxt, sndUna) == if p.ack then (p.ackSeq, Wrap(old(sndUna) + 1)) else (iss, old(sndUna))
      ensures state == if !p.ack then old(state) else if accepted then Established else ClosedRsvd
    {
      hide Mirrors, SeqDiff, Go, Wrap;
      if p.ack {
        sndUna := Wrap(sndUna + 1);
        sndNxt := p.ackSeq;
        rcvNxt := Wrap(irs + 1);
        SetState(Established);
        if !accepted {
          SetState(ClosedRsvd);
        }
      } else {
        sndNxt := iss;
      }
    }

    // The FIN of the peer is in order: it takes one sequence number.
    method AcceptFin(next: State)
      requires Mirrors()
      modifies this`state, this`rcvNxt, this`abs
      ensures Mirrors() && state == next && rcvNxt == Wrap(old(rcvNxt) + 1)
      ensures abs == Go(old(abs), next).(fins := old(abs).fins + 1)
    {
      SetState(next);
      rcvNxt := Wrap(rcvNxt + 1);
      abs := abs.(fins := abs.fins + 1);
    }

    // How far rcv_nxt moves on a packet that is looked at for payload and FIN.
    twostate predicate RcvNxtMoves(p: Pkt, fx: Effects)
      reads this
    {
      rcvNxt == Wrap(old(rcvNxt) + (if p.payloadLen > 0 then fx.advance else 0) + (abs.fins - old(abs.fins)))
    }

    // The peer's FIN, in order after `advance` octets of this packet's payload.
    predicate BringsFin(p: Pkt, fx: Effects)
      reads this`rcvNxt
    {
      p.fin && Wrap(p.sn + p.payloadLen) == PastPayload(p, fx)
    }

    // rcv_nxt after the payload.
    function PastPayload(p: Pkt, fx: Effects): U32
      reads this`rcvNxt
    {
      if p.payloadLen > 0 then Wrap(rcvNxt + fx.advance) else rcvNxt
    }

    method HandleEstablished(p: Pkt, fx: Effects, ghost i: Input)
      requires Mirrors() && state == Established && i.syn == p.syn && i.ack == p.ack
      requires i.finInOrder <==>
        p.fin && Wrap(p.sn + p.payloadLen) == Wrap(rcvNxt + (if p.payloadLen > 0 then fx.advance else 0))
      modifies this`state, this`abs, this`rcvNxt, this`sndNxt, this`sndUna
      ensures Mirrors() && abs == OnEstablished(old(abs), i)
      ensures if p.syn then rcvNxt == old(rcvNxt) && abs.fins == old(abs).fins else RcvNxtMoves(p, fx)
      ensures (sndNxt, sndUna) == SndAfter(old(state), i, p, fx, old(sndNxt), old(sndUna))
      ensures if p.syn then state == Established
              else if old(BringsFin(p, fx)) then state == CloseWait && rcvNxt == Wrap(old(PastPayload(p, fx)) + 1)
              else state == Established && rcvNxt == old(PastPayload(p, fx))
    {
      hide Mirrors, SeqDiff, Go, Wrap;
      if p.syn {
        sndNxt := p.ackSeq;
        return;
      }
      WrapId(rcvNxt);
      WrapAdd(rcvNxt + (if p.payloadLen > 0 then fx.advance else 0), 1);
      if p.payloadLen > 0 {
        rcvNxt := Wrap(rcvNxt + fx.advance);
      }
      if p.ack {
        sndNxt, sndUna := fx.sndNxt, fx.sndUna;
      }
      if p.fin {
        if Wrap(p.sn + p.payloadLen) == rcvNxt {
          AcceptFin(CloseWait);
        }
      }
    }

    method HandleCloseWait(p: Pkt, fx: Effects, ghost i: Input)
      requires Mirrors() && state == CloseWait && (i.stale <==> SeqLt(p.sn, rcvNxt))
      modifies this`sndNxt, this`sndUna
      ensures Mirrors()
      ensures (sndNxt, sndUna) == SndAfter(old(state), i, p, fx, old(sndNxt), old(sndUna))
    {
      if SeqLt(p.sn, rcvNxt) {
        return;
      }
      sndNxt, sndUna := fx.sndNxt, fx.sndUna;
    }

    method HandleLastAck(p: Pkt, fx: Effects, ghost i: Input)
      requires Mirrors() && state == LastAck && i == InputOf(p, fx, i.accepted)
      modifies this`state, this`abs, this`destroyed, this`sndNxt, this`sndUna
      ensures Mirrors()
      ensures abs == if !i.stale && i.ack && i.acksFin
                     then ConnectionSpec.Destroy(Go(old(abs).(finAcked := true), ClosedRsvd)) else old(abs)
      ensures state == if !i.stale && p.ack && isFinSent && p.ackSeq == Wrap(fss + 1) then ClosedRsvd else LastAck
      ensures (sndNxt, sndUna) == SndAfter(old(state), i, p, fx, old(sndNxt), old(sndUna))
    {
      hide Mirrors, SeqDiff, Go, Wrap;
      if SeqLt(p.sn, rcvNxt) {
        return;
      }
      if p.ack {
        sndNxt, sndUna := fx.sndNxt, fx.sndUna;
        if !isFinSent {
          return;
        }
        if p.ackSeq == Wrap(fss + 1) {
          sndUna := Wrap(sndUna + 1);
          FinAcked(ClosedRsvd);
          Destroy();
        }
      }
    }

    method HandleFinWait1(p: Pkt, fx: Effects, ghost i: Input)
      requires Mirrors() && state == FinWait1 && i == InputOf(p, fx, i.accepted)
      modifies this`state, this`abs, this`rcvNxt, this`sndNxt, this`sndUna
      ensures Mirrors()
      ensures abs == if i.stale || !i.ack then old(abs)
                     else OnFin(if i.acksFin then Go(old(abs).(finAcked := true), FinWait2) else old(abs), i)
      ensures if i.stale || !i.ack then rcvNxt == old(rcvNxt) else RcvNxtMoves(p, fx)
      ensures (sndNxt, sndUna) == SndAfter(old(state), i, p, fx, old(sndNxt), old(sndUna))
      ensures if i.stale || !i.ack then state == FinWait1
              else (state, rcvNxt) == AfterFinWait(if i.acksFin then FinWait2 else FinWait1,
                                                   old(BringsFin(p, fx)), old(PastPayload(p, fx)))
    {
      hide Mirrors, SeqDiff, Wrap, OnFin;
      if SeqLt(p.sn, rcvNxt) {
        return;
      }
      if p.ack {
        sndNxt, sndUna := fx.sndNxt, fx.sndUna;
        if isFinSent && p.ackSeq == Wrap(fss + 1) {
          sndUna := p.ackSeq;
          if SeqGt(p.ackSeq, sndNxt) {
            sndNxt := p.ackSeq;
          }
          FinAcked(FinWait2);
        }
      } else {
        return;
      }
      PayloadAndFin(p, fx, i);
    }

    // The tail of the FIN_WAIT handlers.
    method PayloadAndFin(p: Pkt, fx: Effects, ghost i: Input)
      requires Mirrors() && FinWait(state)
      requires i.finInOrder <==>
        p.fin && Wrap(p.sn + p.payloadLen) == Wrap(rcvNxt + (if p.payloadLen > 0 then fx.advance else 0))
      modifies this`state, this`abs, this`rcvNxt
      ensures Mirrors() && abs == OnFin(old(abs), i) && RcvNxtMoves(p, fx)
      ensures (state, rcvNxt) == AfterFinWait(old(state), old(BringsFin(p, fx)), old(PastPayload(p, fx)))
    {
      hide SeqDiff, Go, Wrap;
      WrapId(rcvNxt);
      WrapAdd(rcvNxt + (if p.payloadLen > 0 then fx.advance else 0), 1);
      if p.payloadLen > 0 {
        rcvNxt := Wrap(rcvNxt + fx.advance);
      }
      if p.fin {
        if Wrap(p.sn + p.payloadLen) == rcvNxt {
          AcceptFin(if state == FinWait1 then Closing else TimeWait);
        }
      }
    }

    method HandleFinWait2(p: Pkt, fx: Effects, ghost i: Input)
      requires Mirrors() && state == FinWait2 && i == InputOf(p, fx, i.accepted)
      modifies this`state, this`abs, this`rcvNxt, this`sndNxt, this`sndUna
      ensures Mirrors() && abs == if i.ack then OnFin(old(abs), i) else old(abs)
      ensures if i.ack then RcvNxtMoves(p, fx) else rcvNxt == old(rcvNxt)
      ensures (sndNxt, sndUna) == SndAfter(old(state), i, p, fx, old(sndNxt), old(sndUna))
      ensures if i.ack then (state, rcvNxt) == AfterFinWait(FinWait2, old(BringsFin(p, fx)), old(PastPayload(p, fx)))
              else state == FinWait2
    {
      hide Mirrors, SeqDiff, Go, Wrap, OnFin;
      if p.ack {
        sndNxt, sndUna := fx.sndNxt, fx.sndUna;
      } else {
        return;
      }
      PayloadAndFin(p, fx, i);
    }

    method HandleClosing(p: Pkt, fx: Effects, ghost i: Input)
      requires Mirrors() && state == Closing && i.ack == p.ack
      requires i.acksFin <==> isFinSent && p.ackSeq == Wrap(fss + 1)
      modifies this`state, this`abs, this`sndNxt, this`sndUna
      ensures Mirrors()
      ensures abs == if i.ack && i.acksFin then Go(old(abs).(finAcked := true), TimeWait) else old(abs)
      ensures state == if p.ack && isFinSent && p.ackSeq == Wrap(fss + 1) then TimeWait else Closing
      ensures (sndNxt, sndUna) == SndAfter(old(state), i, p, fx, old(sndNxt), old(sndUna))
    {
      hide SeqDiff, Wrap, Mirrors, Go;
      if p.ack {
        sndNxt, sndUna := fx.sndNxt, fx.sndUna;
        if !isFinSent {
          return;
        }
        if p.ackSeq != Wrap(fss + 1) {
          return;
        }
        sndUna := p.ackSeq;
        FinAcked(TimeWait);
      }
    }

    // Whether the handlers look at payload and FIN of a packet in this state.
    ghost predicate LooksAtPayload(i: Input)
      reads this`state
    {
      !i.rst && match state
                case Established => !i.syn
                case FinWait1 => !i.stale && i.ack
                case FinWait2 => i.ack
                case _ => false
    }

    // Its SYN_RCVD case: our SYN/ACK was lost, or the handshake completes and the payload is looked at at once.
    method InSynRcvd(p: Pkt, fx: Effects, accepted: bool, ghost i: Input)
      requires Mirrors() && state == SynRcvd && i == InputOf(p, fx, accepted)
      modifies this`state, this`abs, this`rcvNxt, this`sndNxt, this`sndUna
      ensures Mirrors() && abs == OnSynRcvd(old(abs), i)
    {
      hide SeqDiff, Wrap, OnEstablished;
      if p.syn && p.sn == irs {
        HandleListen(p);
      } else {
        HandleSynRcvd(p, accepted);
        if p.payloadLen > 0 && state == Established {
          HandleEstablished(p, fx, i);
        }
      }
    }

    // The handlers of the states in which the handshake is not over.
    method DispatchOpening(p: Pkt, fx: Effects, accepted: bool, ghost i: Input)
      requires Mirrors() && i == InputOf(p, fx, accepted) && (Opening(state) || state == SynRcvd)
      modifies this`state, this`abs, this`destroyed, this`rcvNxt, this`sndNxt, this`sndUna, this`irs
      ensures Mirrors() && abs == OnSegment(old(abs), i)
    {
      hide SeqDiff, Wrap, OnSynSent, OnSynRcvd;
      match state {
        case Listen => HandleListen(p);
        case SynSent => HandleSynSent(p, i);
        case SynRcvd => InSynRcvd(p, fx, accepted, i);
        case _ =>
      }
    }

    // The switch of UpdateRecvTCPContext.
    method Dispatch(p: Pkt, fx: Effects, accepted: bool, ghost i: Input)
      requires Mirrors() && i == InputOf(p, fx, accepted) && (p.rst ==> Opening(state))
      modifies this`state, this`abs, this`destroyed, this`rcvNxt, this`sndNxt, this`sndUna, this`irs
      ensures Mirrors() && abs == OnSegment(old(abs), i)
      ensures Synchronized(old(state)) ==>
                if old(LooksAtPayload(i)) then RcvNxtMoves(p, fx)
                else rcvNxt == old(rcvNxt) && abs.fins == old(abs).fins
      ensures Synchronized(old(state)) ==> (sndNxt, sndUna) == SndAfter(old(state), i, p, fx, old(sndNxt), old(sndUna))
    {
      hide SeqDiff, Wrap, OnEstablished, OnFin, SndAfter;
      match state {
        case Established => HandleEstablished(p, fx, i);
        case CloseWait => HandleCloseWait(p, fx, i);
        case LastAck => HandleLastAck(p, fx, i);
        case FinWait1 => HandleFinWait1(p, fx, i);
        case FinWait2 => HandleFinWait2(p, fx, i);
        case Closing => HandleClosing(p, fx, i);
        case TimeWait | ClosedRsvd => NothingToSend(state, i, p, fx, sndNxt, sndUna);
        case _ => DispatchOpening(p, fx, accepted, i);
      }
    }

    // RST first, then the switch.
    method Receive(p: Pkt, fx: Effects, accepted: bool, ghost i: Input)
      requires Mirrors() && i == InputOf(p, fx, accepted)
      modifies this`state, this`abs, this`destroyed, this`rcvNxt, this`sndNxt, this`sndUna, this`irs, this`haveReset
      ensures Mirrors() && abs == OnPacket(old(abs), i)
      ensures Synchronized(old(state)) ==>
                if old(LooksAtPayload(i)) then RcvNxtMoves(p, fx)
                else rcvNxt == old(rcvNxt) && abs.fins == old(abs).fins
      ensures Synchronized(old(state)) ==>
                (sndNxt, sndUna) == if i.rst then old((sndNxt, sndUna))
                                    else SndAfter(old(state), i, p, fx, old(sndNxt), old(sndUna))
    {
      assert i.rstMatches == (p.sn == 0 || p.ackSeq == sndNxt) && i.rst == p.rst;
      hide SeqDiff, OnSegment, OnRst, InputOf, Wrap, SndAfter;
      var handled := false;
      if p.rst {
        NoteReset();
        handled := ProcessRST(p, i);
      }
      if !handled {
        Dispatch(p, fx, accepted, i);
      }
    }

    // UpdateRecvTCPContext
    method UpdateRecvTCPContext(p: Pkt, fx: Effects, accepted: bool)
      requires Valid() && !destroyed
      modifies this`state, this`abs, this`destroyed, this`rcvNxt, this`sndNxt, this`sndUna, this`irs, this`haveReset
      ensures Valid() && abs == Step(old(abs), Packet(old(InputOf(p, fx, accepted))))
      ensures Synchronized(old(state)) ==>
                if old(LooksAtPayload(InputOf(p, fx, accepted))) then RcvNxtMoves(p, fx)
                else rcvNxt == old(rcvNxt) && abs.fins == old(abs).fins
      ensures var i := old(InputOf(p, fx, accepted));
              Synchronized(old(state)) ==>
                (sndNxt, sndUna) == if i.rst then old((sndNxt, sndUna))
                                    else SndAfter(old(state), i, p, fx, old(sndNxt), old(sndUna))
    {
      ghost var i := InputOf(p, fx, accepted);
      PacketKeepsInv(abs, i);
      hide SndAfter, Inv, OnPacket, Wrap, InputOf, LooksAtPayload, SeqDiff;
      Receive(p, fx, accepted, i);
    }

    // CloseStreamSocket, and FreeSocket after it; true where the request is queued.
    method RequestClose() returns (queued: bool)
      requires Valid() && !destroyed
      modifies this`closed, this`hasSocket, this`onCloseq, this`onDestroyq, this`abs
      ensures Valid() && abs == Step(old(abs), Event.RequestClose) && !hasSocket
      ensures queued <==> old(hasSocket) && Open(state)
    {
      StepKeepsInv(abs, Event.RequestClose);
      hide Inv;
      if closed || !hasSocket {
        return false;
      }
      closed, hasSocket := true, false;
      abs := Step(abs, Event.RequestClose);
      if state == ClosedRsvd || state == SynSent {
        onDestroyq := true;
        return false;
      }
      if state != Established && state != CloseWait {
        return false;
      }
      onCloseq := true;
      queued := true;
    }

    // mtcp_abort; true where the request is queued.
    method RequestReset() returns (queued: bool)
      requires Valid() && !destroyed
      modifies this`state, this`hasSocket, this`onResetq, this`onDestroyq, this`abs
      ensures Valid() && abs == Step(old(abs), Event.RequestReset) && !hasSocket
      ensures queued <==>
        old(hasSocket) && (Open(state) || FinWait(state) || state == Closed || state == Listen || state == SynRcvd)
      ensures var atOnce := old(hasSocket) && !queued && old(state) != ClosedRsvd;
              state == (if atOnce then ClosedRsvd else old(state)) && (onDestroyq <==> old(onDestroyq) || atOnce)
    {
      StepKeepsInv(abs, Event.RequestReset);
      hide Inv;
      if !hasSocket {
        return false;
      }
      hasSocket := false;
      abs := Step(abs, Event.RequestReset);
      if state == ClosedRsvd {
        return false;
      }
      if state == SynSent || state == Closing || state == LastAck || state == TimeWait {
        state, onDestroyq := ClosedRsvd, true;
        return false;
      }
      onResetq := true;
      queued := true;
    }

    // One stream of the reset queue in HandleApplicationCalls.
    method HandleReset(busy: bool)
      requires Valid() && !destroyed && onResetq
      modifies this`state, this`destroyed, this`onResetq, this`onResetqInt, this`abs
      ensures Valid() && abs == Step(old(abs), Event.HandleReset(busy))
    {
      StepKeepsInv(abs, Event.HandleReset(busy));
      hide Inv;
      onResetq := false;
      if haveReset {
        abs := abs.(request := ResetHandled);
        if state != ClosedRsvd {
          Abort();
        }
      } else if busy {
        onResetqInt := true;
        abs := abs.(request := ResetDelayed);
      } else {
        abs := abs.(request := ResetHandled);
        if state != ClosedRsvd {
          SetState(ClosedRsvd);
        }
      }
    }

    // One stream of the internal reset queue.
    method HandleDelayedReset(busy: bool)
      requires Valid() && !destroyed && onResetqInt
      modifies this`state, this`onResetqInt, this`abs
      ensures Valid() && abs == Step(old(abs), Event.HandleDelayedReset(busy))
    {
      StepKeepsInv(abs, Event.HandleDelayedReset(busy));
      hide Inv;
      if busy {
        return;
      }
      onResetqInt := false;
      abs := abs.(request := ResetHandled);
      if state != ClosedRsvd {
        SetState(ClosedRsvd);
      }
    }

    // One stream of the destroy queue.
    method ServeDestroyQueue()
      requires Valid() && !destroyed && onDestroyq
      modifies this`destroyed, this`abs
      ensures Valid() && abs == Step(old(abs), Event.ServeDestroyQueue)
    {
      StepKeepsInv(abs, Event.ServeDestroyQueue);
      hide Inv;
      Destroy();
    }

    // FIN_WAIT_1 or LAST_ACK.
    method CloseNow()
      requires Mirrors()
      modifies this`state, this`abs
      ensures Mirrors() && abs == ConnectionSpec.CloseNow(old(abs))
    {
      if state == Established {
        SetState(FinWait1);
      } else if state == CloseWait {
        SetState(LastAck);
      }
    }

    // The request leaves its queue: put off to the internal one, or carried out.
    method MoveClose(delay: bool)
      requires Mirrors() && (onCloseq || onCloseqInt)
      modifies this`onCloseq, this`onCloseqInt, this`abs
      ensures Mirrors() && onCloseqInt == delay
      ensures abs == old(abs).(request := if delay then CloseDelayed else CloseHandled)
    {
      onCloseq, onCloseqInt := false, delay;
      abs := abs.(request := if delay then CloseDelayed else CloseHandled);
    }

    // One stream of the close queue in HandleApplicationCalls. bufEnd: sequence number after the buffered octets,
    // if there is a send buffer.
    method HandleClose(onControlList: bool, hasSndbuf: bool, bufEnd: U32)
      requires Valid() && !destroyed && onCloseq
      modifies this`state, this`fss, this`destroyed, this`onCloseq, this`onCloseqInt, this`abs
      ensures Valid() && abs == Step(old(abs), Event.HandleClose(onControlList))
      ensures fss == (if hasSndbuf then bufEnd else sndNxt)
    {
      StepKeepsInv(abs, Event.HandleClose(onControlList));
      hide Inv;
      fss := if hasSndbuf then bufEnd else sndNxt;
      if haveReset {
        MoveClose(false);
        if state != ClosedRsvd {
          Abort();
        }
      } else if onControlList {
        MoveClose(true);
      } else {
        MoveClose(false);
        CloseNow();
      }
    }

    // One stream of the internal close queue.
    method HandleDelayedClose(onControlList: bool)
      requires Valid() && !destroyed && onCloseqInt
      modifies this`state, this`onCloseq, this`onCloseqInt, this`abs
      ensures Valid() && abs == Step(old(abs), Event.HandleDelayedClose(onControlList))
    {
      StepKeepsInv(abs, Event.HandleDelayedClose(onControlList));
      if onControlList {
        return;
      }
      MoveClose(false);
      if state != ClosedRsvd {
        CloseNow();
      }
    }

    // SendTCPPacket of a segment without payload: its sequence number, and what it takes of the sequence space.
    method SendTCPPacket(flags: Flags) returns (sn: U32)
      requires Mirrors()
      modifies this`sndNxt, this`isFinSent, this`finsSent, this`abs
      ensures Mirrors() && abs == if flags == FinAck then old(abs).(finSent := true) else old(abs)
      ensures sn == if flags == FinAck then fss else old(sndNxt)
      ensures finsSent == if flags == FinAck then old(finsSent) + {fss} else old(finsSent)
      ensures isFinSent <==> old(isFinSent) || flags == FinAck
      ensures sndNxt == if flags.Syn? || flags.SynAck? || flags.FinAck? then Wrap(old(sndNxt) + 1) else old(sndNxt)
    {
      hide Wrap;
      sn := sndNxt;
      if flags == FinAck {
        sn := fss;
        isFinSent := true;
        finsSent := finsSent + {fss};
        abs := abs.(finSent := true);
      }
      if flags == Syn || flags == SynAck || flags == FinAck {
        sndNxt := Wrap(sndNxt + 1);
      }
    }

    // The switch of SendControlPacket: the segment to send, if any.
    method ChooseControl(busy: bool) returns (flags: Flags)
      requires Mirrors()
      modifies this`sndNxt, this`destroyed, this`abs
      ensures Mirrors() && flags == Control(old(abs), busy).1
      ensures flags == FinAck <==> !busy && (old(state) == FinWait1 || old(state) == LastAck)
      ensures flags == Rst <==> !busy && (old(state) == Closing || old(state) == ClosedRsvd)
      ensures (flags == Syn <==> old(state) == SynSent) && (flags == SynAck <==> old(state) == SynRcvd)
      ensures abs == if flags == Rst then ConnectionSpec.Destroy(old(abs)) else old(abs)
      ensures sndNxt == if flags == SynAck then iss else old(sndNxt)
    {
      flags := NoSegment;
      match state {
        case SynSent => flags := Syn;
        case SynRcvd =>
          sndNxt := iss;
          flags := SynAck;
        case Established | CloseWait | FinWait2 | TimeWait => flags := PlainAck;
        case LastAck | FinWait1 => flags := if busy then NoSegment else FinAck;
        case Closing | ClosedRsvd =>
          if !busy {
            flags := Rst;
            Destroy();
          }
        case _ =>
      }
    }

    lemma SameDestroyed()
      requires Mirrors()
      ensures abs.destroyed == destroyed
    {
    }

    // SendControlPacket; the segment's sequence number.
    method SendControlPacket(busy: bool) returns (flags: Flags, sn: U32)
      requires Valid() && !destroyed && state != Closed && state != Listen
      modifies this`sndNxt, this`isFinSent, this`finsSent, this`destroyed, this`abs
      ensures Valid() && (abs, flags) == Control(old(abs), busy)
      ensures flags == FinAck <==> !busy && (old(state) == FinWait1 || old(state) == LastAck)
      ensures flags == Rst <==> !busy && (old(state) == Closing || old(state) == ClosedRsvd)
      ensures (flags == Syn <==> old(state) == SynSent) && (flags == SynAck <==> old(state) == SynRcvd)
      ensures flags == FinAck ==> sn == fss && finsSent == old(finsSent) + {fss}
      ensures flags != FinAck ==> finsSent == old(finsSent)
      ensures sndNxt == match flags
                        case SynAck => Wrap(iss + 1)
                        case Syn | FinAck => Wrap(old(sndNxt) + 1)
                        case _ => old(sndNxt)
    {
      hide Wrap, Inv, Control, Mirrors;
      SameDestroyed();
      ControlDoes(abs, busy);
      sn := sndNxt;
      flags := ChooseControl(busy);
      if flags != NoSegment {
        sn := SendTCPPacket(flags);
      }
    }
  }
}
