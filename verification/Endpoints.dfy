/** The two ends of the byte stream as they run, each call doing what the protocol step of ByteStream says. */
module Endpoints {
  import opened Bytes
  import opened Containers
  import opened ByteStream
  import RingLaws
  import RingSpec
  import opened SendBuffers
  import opened StreamProgress
  import opened StreamSafety
  import opened TcpRingBuffer

  // The rest of a flush from state s, after what was sent already.
  ghost function FlushFrom(s: Sender, maxlen: int, window: int, slots: nat, sent: seq<Segment>): (Sender, seq<Segment>)
    requires SndNxtInReach(s)
  {
    var (s', out) := Flush(s, maxlen, window, slots);
    (s', sent + out)
  }

  // One turn of the loop ends it or moves one segment to what was sent.
  lemma FlushTurn(s: Sender, maxlen: int, window: int, slots: nat, sent: seq<Segment>)
    requires SndNxtInReach(s)
    ensures var g := FlushOne(s, maxlen, window);
            if slots == 0 || g == None then FlushFrom(s, maxlen, window, slots, sent) == (s, sent)
            else FlushFrom(s, maxlen, window, slots, sent) ==
                 FlushFrom(Advance(s, |g.value.data|), maxlen, window - |g.value.data|, slots - 1, sent + [g.value])
  {
    hide FlushOne, SndNxtInReach;
    var g := FlushOne(s, maxlen, window);
    if slots > 0 && g.Some? {
      var n := |g.value.data|;
      var rest := Flush(Advance(s, n), maxlen, window - n, slots - 1).1;
      assert sent + ([g.value] + rest) == sent + [g.value] + rest;
    } else {
      assert sent + [] == sent;
    }
  }

  lemma FlushFromStart(s: Sender, maxlen: int, window: int, slots: nat)
    requires SndNxtInReach(s)
    ensures FlushFrom(s, maxlen, window, slots, []) == Flush(s, maxlen, window, slots)
  {
    var out := Flush(s, maxlen, window, slots).1;
    assert [] + out == out;
  }

  lemma NothingToFlush(s: Sender, maxlen: int, window: int, slots: nat)
    requires SndNxtInReach(s) && s.sndbuf == []
    ensures Flush(s, maxlen, window, slots) == (s, [])
  {
    if !SeqLt(s.sndNxt, s.headSeq) {
      BufferedIsRest(s);
    }
  }

  lemma SubSlice(s: seq<Byte>, a: int, b: int, from: int, n: int)
    requires 0 <= a <= b <= |s| && 0 <= from && 0 <= n && from + n <= b - a
    ensures s[a..b][from..from + n] == s[a + from..a + from + n]
  {
    var x, y := s[a..b][from..from + n], s[a + from..a + from + n];
    assert forall k :: 0 <= k < n ==> x[k] == y[k];
  }

  // The sending side of struct tcp_stream.
  class TcpSender {
    const sndbuf: SendBuffer
    var sndNxt: U32
    var sndUna: U32
    var sndWnd: int
    var peerWnd: U32
    var sndWl1: U32
    var sndWl2: U32
    var lastAck: U32
    var dupAcks: U8

    ghost predicate Valid()
      reads this, sndbuf
    {
      sndbuf.Valid() && sndWnd == sndbuf.data.Length - sndbuf.len
    }

    ghost function Snap(): Sender
      requires Valid()
      reads this, sndbuf, sndbuf.data
    {
      Sender(sndbuf.Contents(), sndbuf.headSeq, sndNxt, sndUna, peerWnd, sndWl1, sndWl2, lastAck, dupAcks)
    }

    // Right after the handshake.
    constructor (size: nat, iss: U32, wnd: U32, irs: U32)
      ensures Valid() && fresh(sndbuf) && fresh(sndbuf.data) && sndbuf.data.Length == size
      ensures var una := Wrap(iss + 1); Snap() == Sender([], una, una, una, wnd, irs, una, una, 0)
    {
      sndbuf := new SendBuffer(size, Wrap(iss + 1));
      sndNxt, sndUna, sndWnd := Wrap(iss + 1), Wrap(iss + 1), size;
      peerWnd, sndWl1, sndWl2, lastAck, dupAcks := wnd, irs, Wrap(iss + 1), Wrap(iss + 1), 0;
    }

    // CopyFromUser; -1 where the source sets EAGAIN.
    method CopyFromUser(bytes: seq<Byte>) returns (ret: int)
      requires Valid()
      modifies this, sndbuf, sndbuf.data
      ensures Valid() && sndbuf.data == old(sndbuf.data)
      ensures Snap() == Put(old(Snap()), bytes, sndbuf.data.Length)
      ensures var was := old(Snap()).sndbuf; var n := Min(|bytes|, sndbuf.data.Length - |was|);
              Snap().sndbuf == was + bytes[..n] && ret == if n == 0 then -1 else n
    {
      var sndlen := Min(sndWnd, |bytes|);
      if sndlen <= 0 {
        return -1;
      }
      ret := sndbuf.SBPut(bytes[..sndlen]);
      assert bytes[..sndlen][..sndlen] == bytes[..sndlen];
      sndWnd := sndbuf.data.Length - sndbuf.len;
    }

    // FlushTCPSendingBuffer for window = MIN(cwnd, peer_wnd), with packet buffers for `slots` segments.
    method FlushTCPSendingBuffer(maxlen: int, window: int, slots: nat) returns (out: seq<Segment>)
      requires Valid() && SndNxtInReach(Snap())
      modifies this`sndNxt
      ensures Valid() && (Snap(), out) == Flush(old(Snap()), maxlen, window, slots)
      ensures var s := old(Snap());
              SeqGeq(s.sndNxt, s.headSeq) ==> |out| == slots || Stops(s, maxlen, window, |Octets(out)|)
    {
      hide FlushOne, SndNxtInReach, Flush, Advance, Stops, Octets, SeqDiff;
      if SeqGeq(sndNxt, sndbuf.headSeq) {
        FlushMaximal(Snap(), maxlen, window, slots);
      }
      out := [];
      if sndbuf.len == 0 {
        NothingToFlush(Snap(), maxlen, window, slots);
        return;
      }
      var win, left := window, slots;
      FlushFromStart(Snap(), maxlen, window, slots);
      while left > 0
        invariant Valid() && SndNxtInReach(Snap())
        invariant FlushFrom(Snap(), maxlen, win, left, out) == Flush(old(Snap()), maxlen, window, slots)
      {
        FlushTurn(Snap(), maxlen, win, left, out);
        var g := SendNext(maxlen, win);
        if g == None {
          return;
        }
        out := out + [g.value];
        win := win - |g.value.data|;
        left := left - 1;
      }
      FlushTurn(Snap(), maxlen, win, left, out);
    }

    // One turn of the loop.
    method SendNext(maxlen: int, window: int) returns (g: Option<Segment>)
      requires Valid() && SndNxtInReach(Snap())
      modifies this`sndNxt
      ensures Valid() && g == FlushOne(old(Snap()), maxlen, window)
      ensures Snap() == if g == None then old(Snap()) else Advance(old(Snap()), |g.value.data|)
    {
      hide FlushOne, SndNxtInReach;
      g := NextSegment(maxlen, window);
      if g != None {
        sndNxt := Wrap(sndNxt + |g.value.data|);
      }
    }

    // What one turn of the loop would send next.
    method NextSegment(maxlen: int, window: int) returns (g: Option<Segment>)
      requires Valid() && SndNxtInReach(Snap())
      ensures g == FlushOne(Snap(), maxlen, window)
    {
      hide Wrap, SeqDiff;
      if SeqLt(sndNxt, sndbuf.headSeq) {
        return None;
      }
      BufferedIsRest(Snap());
      var buffered := Wrap(sndbuf.headSeq + sndbuf.len - sndNxt);
      if buffered == 0 {
        return None;
      }
      var n := if buffered > maxlen then maxlen else buffered;
      if n > window {
        n := window;
      }
      if n <= 0 {
        return None;
      }
      if Wrap(sndNxt - sndUna + n) > window {
        return None;
      }
      var from := sndbuf.headOff + Wrap(sndNxt - sndbuf.headSeq);
      SubSlice(sndbuf.data[..], sndbuf.headOff, sndbuf.tailOff, Wrap(sndNxt - sndbuf.headSeq), n);
      g := Some(Segment(sndNxt, sndbuf.data[from..from + n]));
    }

    // HandleRTO, as far as the stream is concerned.
    method HandleRTO()
      requires Valid()
      modifies this`sndNxt
      ensures Valid() && Snap() == Timeout(old(Snap()))
    {
      sndNxt := sndUna;
    }

    // ProcessACK in ESTABLISHED, after UpdateRecvTCPContext has set the peer's window.
    method ProcessACK(sn: U32, ack: U32, cwindow: U32, payloadLen: int)
      requires Valid()
      modifies this, sndbuf
      ensures Valid() && Snap() == ProcessAck(old(Snap()), sn, ack, cwindow, payloadLen)
      ensures peerWnd == cwindow
    {
      hide Wrap, SeqDiff, CountAck, ByteStream.DropAcked;
      peerWnd := cwindow;
      var rightEdge := Wrap(peerWnd + sndWl2);
      if SeqGt(ack, Wrap(sndbuf.headSeq + sndbuf.len)) {
        return;
      }
      if SeqLt(sndWl1, sn) || (sndWl1 == sn && SeqLt(sndWl2, ack)) || (sndWl2 == ack && cwindow > peerWnd) {
        peerWnd := cwindow;
        sndWl1 := sn;
        sndWl2 := ack;
      }
      CountDupAck(ack, payloadLen, rightEdge);
      if SeqGt(ack, sndNxt) {
        sndNxt := ack;
      }
      DropAcked(ack);
    }

    // Removes what `ack` acknowledges from the send buffer.
    method DropAcked(ack: U32)
      requires Valid()
      modifies this`sndUna, this`sndWnd, sndbuf
      ensures Valid() && Snap() == ByteStream.DropAcked(old(Snap()), ack)
    {
      if SeqGeq(sndbuf.headSeq, ack) {
        return;
      }
      SeqGtGap(ack, sndbuf.headSeq);
      hide Wrap, SeqDiff;
      var rmlen := Wrap(ack - sndbuf.headSeq);
      if rmlen > 0 {
        var removed := sndbuf.SBRemove(rmlen);
        sndUna := ack;
        sndWnd := sndbuf.data.Length - sndbuf.len;
      }
    }

    // Duplicate count and fast retransmission.
    method CountDupAck(ack: U32, payloadLen: int, rightEdge: U32)
      requires Valid()
      modifies this`sndNxt, this`dupAcks, this`lastAck
      ensures Valid() && Snap() == CountAck(old(Snap()), ack, payloadLen, rightEdge)
    {
      var dup := false;
      if SeqLt(ack, sndNxt) {
        if ack == lastAck && payloadLen == 0 {
          if Wrap(sndWl2 + peerWnd) == rightEdge {
            dupAcks := (dupAcks + 1) % 256;
            dup := true;
          }
        }
      }
      if !dup {
        dupAcks := 0;
        lastAck := ack;
      }
      if dup && dupAcks == 3 {
        if SeqLt(ack, sndNxt) {
          sndNxt := ack;
        }
      }
    }
  }

  lemma NothingCopied(r: Receiver, n: int)
    requires RingSpec.Wf(r.ring) && RingSpec.PPeekLen(r.ring, n, r.ring.pile) <= 0
    ensures ByteStream.CopyToUser(r, n) == (r, [])
  {
  }

  // What tcprb_ppeek returned is what the read pointer then moves over.
  lemma CopiedOut(r: Receiver, n: int, k: int, out: seq<Byte>)
    requires RingSpec.Wf(r.ring) && 0 < k == RingSpec.PPeekLen(r.ring, n, r.ring.pile) == |out|
    requires RingSpec.Peeked(r.ring.held, r.ring.pile, out)
    ensures var ring := r.ring.(pile := r.ring.pile + k);
            && RingSpec.Wf(ring) && RingSpec.SetPile(r.ring, r.ring.pile + k) == (ring, true)
            && ByteStream.CopyToUser(r, n) == (r.(ring := ring, rcvWnd := ring.size - RingSpec.CfLen(ring)), out)
  {
    hide RingSpec.RunEnd;
    var ring := r.ring;
    RunEndSuffix(ring, ring.pile);
    assert out == seq(k, i requires 0 <= i < k => ring.held[ring.pile + i]);
  }

  // The receiving side of struct tcp_stream.
  class TcpReceiver {
    const rcvbuf: TcpRb
    const irs: U32
    var rcvNxt: U32
    var rcvWnd: int

    ghost predicate Valid()
      reads this, rcvbuf, rcvbuf.store, rcvbuf.store.segs
    {
      rcvbuf.Valid()
    }

    ghost function Snap(): Receiver
      reads this, rcvbuf
    {
      Receiver(irs, rcvbuf.A, rcvNxt, rcvWnd)
    }

    constructor (segments: nat, irs: U32, wnd: int)
      requires segments > 0
      ensures Valid() && Snap() == Receiver(irs, RingSpec.New(rcvbuf.len), Wrap(irs + 1), wnd)
      ensures fresh(rcvbuf) && fresh(rcvbuf.store)
    {
      rcvbuf := new TcpRb(segments);
      this.irs := irs;
      rcvNxt, rcvWnd := Wrap(irs + 1), wnd;
    }

    // ProcessTCPPayload in ESTABLISHED.
    method ProcessTCPPayload(sn: U32, payload: seq<Byte>) returns (advanced: bool)
      requires Valid() && |payload| < rcvbuf.len
      modifies this, rcvbuf, rcvbuf.store, rcvbuf.store.segs
      ensures Valid() && rcvbuf.store.Appends()
      ensures (Snap(), advanced) == ProcessPayload(old(Snap()), Segment(sn, payload))
    {
      hide RingSpec.PWrite, RingLaws.Seq2LoffSpec, RingSpec.CfLen, SeqDiff, Wrap, ByteStream.TakeIn;
      hide RingSpec.Wf, RingSpec.RunEnd, Represents, StoredIn;
      if SeqLt(Wrap(sn + |payload|), rcvNxt) {
        return false;
      }
      if SeqGt(Wrap(sn + |payload|), Wrap(rcvNxt + rcvWnd)) {
        return false;
      }
      var prevRcvNxt := rcvNxt;
      var off := RingLaws.Seq2Loff(rcvbuf.head, sn, Wrap(irs + 1));
      RingSpec.PWriteWf(rcvbuf.A, payload, off);
      var ret := rcvbuf.PWrite(payload, off);
      TakeIn();
      advanced := !SeqLeq(rcvNxt, prevRcvNxt);
    }

    // Its end: rcv_nxt follows the in-order data.
    method TakeIn()
      requires Valid()
      modifies this`rcvNxt, this`rcvWnd
      ensures Valid() && Snap() == ByteStream.TakeIn(irs, old(rcvNxt), rcvbuf.A)
    {
      hide RingSpec.CfLen, Wrap;
      var cflen := rcvbuf.CfLen();
      var cftail := rcvbuf.pile + cflen;
      if cftail > 0 && Wrap(irs + 1) + cftail > rcvNxt {
        rcvNxt := Wrap(Wrap(irs + 1) + cftail);
      }
      rcvWnd := rcvbuf.len - (cftail - rcvbuf.pile);
    }

    // CopyToUser; -1 where the source sets EAGAIN.
    method CopyToUser(n: int) returns (copylen: int, out: seq<Byte>)
      requires Valid() && RingSpec.PPeekLen(rcvbuf.A, n, rcvbuf.pile) < rcvbuf.len
      modifies this, rcvbuf, rcvbuf.store
      ensures Valid() && rcvbuf.store.Appends()
      ensures (Snap(), out) == ByteStream.CopyToUser(old(Snap()), n)
      ensures copylen == if out == [] then -1 else |out|
    {
      hide RingSpec.SetPile, RingSpec.PPeekLen, RingSpec.CfLen, ByteStream.CopyToUser;
      hide RingSpec.Wf, Represents, TcpRb.Stores;
      ghost var was := Snap();
      copylen, out := rcvbuf.PPeek(n, rcvbuf.pile);
      if copylen <= 0 {
        NothingCopied(was, n);
        return -1, [];
      }
      CopiedOut(was, n, copylen, out);
      var ok := rcvbuf.SetPile(rcvbuf.pile + copylen);
      var cflen := rcvbuf.CfLen();
      rcvWnd := rcvbuf.len - cflen;
    }
  }
}
