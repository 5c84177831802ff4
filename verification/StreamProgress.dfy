/** What the steps of the byte stream have to do, in true offsets: octets that arrive in the window are taken, a flush
    sends all it may, an acknowledgement leaves its window, and a read hands over all there is. */
module StreamProgress {
  import opened Bytes
  import opened Containers
  import opened RingSpec
  import opened ByteStream
  import opened StreamSafety
  import RingLaws

  // ---------------------------------------------------------------- receiving

  // The segment ends in the window the receiver has announced.
  predicate EndsInWindow(m: Conn, g: Sent)
    requires m.rcv.ring.size >= 0
  {
    InOrder(m) <= g.at + |g.seg.data| <= InOrder(m) + m.rcv.rcvWnd
  }

  // ... and starts in it, or at most as far above as the window may move: over what was read.
  predicate StartsInReach(m: Conn, g: Sent) {
    m.rcv.ring.head <= g.at < m.rcv.ring.pile + m.rcv.ring.size
  }

  ghost predicate MayBeReceived(c: Config, m: Conn, g: Sent) {
    && c.Ok() && Inv(c, m) && SentInv(c, m.written, m.sent, g)
    && InOrder(m) + m.rcv.rcvWnd < g.at + |g.seg.data| + TWO32
  }

  // The first offset a window misses, or its end.
  ghost predicate FirstMissing(r: Ring, e: int) {
    && r.head <= e <= r.head + r.size && (forall o :: r.head <= o < e ==> o in r.held)
    && (e < r.head + r.size ==> e !in r.held)
  }

  // The ring after a segment that does not start below it: the window moves as little as it must and over nothing
  // unread, and holds what it held and the segment's octets that lie in it. Those already held are unchanged, the new
  // ones are the stream's.
  ghost predicate Stored(m: Conn, g: Sent, r': Ring) {
    var r, e := m.rcv.ring, g.at + |g.seg.data|;
    && 0 <= g.at && e <= |m.written| && r'.size == r.size && r'.pile == r.pile
    && r'.head == Max(r.head, Min(r.pile, e - r.size))
    && (forall o :: o in r'.held <==> r'.head <= o && (o in r.held || g.at <= o < Min(e, r'.head + r.size)))
    && (forall o :: o in r'.held ==> r'.held[o] == if g.at <= o < e then m.written[o] else m.rcv.ring.held[o])
  }

  // The two tests of ProcessTCPPayload pass exactly for a segment that ends in the window.
  lemma PassesExactly(c: Config, m: Conn, g: Sent)
    requires MayBeReceived(c, m, g)
    ensures EndsInWindow(m, g) <==>
      && !SeqLt(Wrap(g.seg.sn + |g.seg.data|), m.rcv.rcvNxt)
      && !SeqGt(Wrap(g.seg.sn + |g.seg.data|), Wrap(m.rcv.rcvNxt + m.rcv.rcvWnd))
  {
    if EndsInWindow(m, g) {
      SeqAtAdd(c, g.at, |g.seg.data|);
      SeqAtAdd(c, InOrder(m), m.rcv.rcvWnd);
      SeqAtDiff(c, g.at + |g.seg.data|, InOrder(m));
      SeqAtDiff(c, g.at + |g.seg.data|, InOrder(m) + m.rcv.rcvWnd);
    } else if !SeqLt(Wrap(g.seg.sn + |g.seg.data|), m.rcv.rcvNxt)
              && !SeqGt(Wrap(g.seg.sn + |g.seg.data|), Wrap(m.rcv.rcvNxt + m.rcv.rcvWnd)) {
      PassesWindow(c, m, g);
    }
  }

  lemma RunEndIsFirst(r: Ring)
    requires Wf(r)
    ensures FirstMissing(r, InOrderEnd(r))
  {
  }

  lemma RingStores(c: Config, m: Conn, g: Sent)
    requires c.Ok() && Inv(c, m) && SentInv(c, m.written, m.sent, g) && StartsInReach(m, g)
    ensures Stored(m, g, PWrite(m.rcv.ring, g.seg.data, g.at).0)
  {
    hide PWrite, RunEnd, Inv;
    RingFacts(c, m, g);
    var r := m.rcv.ring;
    RingLaws.PWriteMeaning(r, g.seg.data, g.at);
    var (r', ret) := PWrite(r, g.seg.data, g.at);
    forall o | o in r'.held ensures r'.held[o] == if g.at <= o < g.at + |g.seg.data| then m.written[o] else r.held[o] {
      if o !in r.held {
        assert g.seg.data[o - g.at] == m.written[o];
      }
    }
  }

  // What the ring and the segment have in common: the stream.
  lemma RingFacts(c: Config, m: Conn, g: Sent)
    requires Inv(c, m) && SentInv(c, m.written, m.sent, g)
    ensures Wf(m.rcv.ring) && 0 < |g.seg.data| < m.rcv.ring.size && g.at + |g.seg.data| <= |m.written|
    ensures forall o :: o in m.rcv.ring.held ==> 0 <= o < |m.written| && m.rcv.ring.held[o] == m.written[o]
    ensures forall o {:trigger m.written[o]} :: g.at <= o < g.at + |g.seg.data| ==> g.seg.data[o - g.at] == m.written[o]
  {
    hide RunEnd, SeqAt;
    forall o {:trigger m.written[o]} | g.at <= o < g.at + |g.seg.data| ensures g.seg.data[o - g.at] == m.written[o] {
      assert g.seg.data[o - g.at] == m.written[g.at..g.at + |g.seg.data|][o - g.at];
    }
  }

  // A segment below the window, or too far above it, is refused by the ring.
  lemma RingRefuses(c: Config, m: Conn, g: Sent)
    requires c.Ok() && Inv(c, m) && SentInv(c, m.written, m.sent, g) && EndsInWindow(m, g) && !StartsInReach(m, g)
    ensures var off := RingLaws.Seq2LoffSpec(m.rcv.ring.head, g.seg.sn, Wrap(m.rcv.irs + 1));
            PWrite(m.rcv.ring, g.seg.data, off).0 == m.rcv.ring
  {
    WritesAtTrueOffset(c, m, g);
    hide RunEnd, RingLaws.Seq2LoffSpec, Wrap;
  }

  // rcv_nxt, rcv_wnd and the result, from the ring that is left behind.
  lemma TakenIn(c: Config, m: Conn, ring: Ring)
    requires c.Ok() && ReceiverInv(c, m) && Wf(ring) && ring.size == c.ringSize && ring.pile == m.rcv.ring.pile
    requires InOrder(m) <= InOrderEnd(ring) < InOrder(m) + TWO31
    ensures var r' := TakeIn(m.rcv.irs, m.rcv.rcvNxt, ring);
            && r' == m.rcv.(ring := ring, rcvNxt := SeqAt(c, InOrderEnd(ring)),
                            rcvWnd := c.ringSize - (InOrderEnd(ring) - ring.pile))
            && (SeqGt(r'.rcvNxt, m.rcv.rcvNxt) <==> InOrder(m) < InOrderEnd(ring))
  {
    RcvNxtFollows(c, InOrder(m), InOrderEnd(ring));
    SeqAtDiff(c, InOrderEnd(ring), InOrder(m));
    hide RunEnd, SeqDiff, Wrap;
  }

  // ProcessTCPPayload, for every segment that may be delivered. One that does not end in the window changes nothing.
  // Any other leaves rcv_nxt at the first missing octet and rcv_wnd at the room behind it, and is reported exactly if
  // the first missing octet is another one; its octets are in the ring if it starts in reach.
  lemma ReceiveExact(c: Config, m: Conn, g: Sent)
    requires MayBeReceived(c, m, g) && Ready(m, Receive(g))
    ensures var (r', advanced) := ProcessPayload(m.rcv, g.seg); var e := InOrderEnd(r'.ring);
            && Wf(r'.ring) && FirstMissing(r'.ring, e)
            && (if EndsInWindow(m, g)
                then (if StartsInReach(m, g) then Stored(m, g, r'.ring) else r'.ring == m.rcv.ring)
                     && r'.rcvNxt == SeqAt(c, e) && r'.rcvWnd == c.ringSize - (e - r'.ring.pile)
                else r' == m.rcv)
            && (advanced <==> InOrder(m) < e)
  {
    hide PWrite, RunEnd, SeqDiff, Wrap, RingLaws.Seq2LoffSpec, TakeIn, FirstMissing, Stored, SentInv;
    PassesExactly(c, m, g);
    var r' := ProcessPayload(m.rcv, g.seg).0;
    if EndsInWindow(m, g) {
      var off := RingLaws.Seq2LoffSpec(m.rcv.ring.head, g.seg.sn, Wrap(m.rcv.irs + 1));
      RingAfter(c, m, g);
      WritesAtTrueOffset(c, m, g);
      if StartsInReach(m, g) {
        RingStores(c, m, g);
      } else {
        RingRefuses(c, m, g);
      }
      var ring := PWrite(m.rcv.ring, g.seg.data, off).0;
      RingSpans(c, m);
      TakenIn(c, m, ring);
    }
    RunEndIsFirst(r'.ring);
  }

  lemma RingSpans(c: Config, m: Conn)
    requires c.Ok() && Inv(c, m)
    ensures m.sent <= InOrder(m) + c.sndSize
  {
  }

  // The end of what the window can take of a segment, over all that was read.
  function TakenEnd(m: Conn, g: Sent): int {
    Min(g.at + |g.seg.data|, m.rcv.ring.pile + m.rcv.ring.size)
  }

  // So a segment that ends in the window moves rcv_nxt exactly if it starts at or below the first missing octet, but
  // not below the ring, and has that octet; then it moves past all the ring can take of the segment.
  lemma InOrderMoves(c: Config, m: Conn, g: Sent)
    requires MayBeReceived(c, m, g) && Ready(m, Receive(g)) && EndsInWindow(m, g)
    ensures var (r', advanced) := ProcessPayload(m.rcv, g.seg); var e := TakenEnd(m, g);
            && (advanced <==> m.rcv.ring.head <= g.at <= InOrder(m) < e) && (advanced ==> e <= InOrderEnd(r'.ring))
            && (m.rcv.ring.head <= g.at ==> forall o :: g.at <= o < e && r'.ring.head <= o ==> o in r'.ring.held)
  {
    hide ProcessPayload, RunEnd, Inv, SentInv, FirstMissing, Stored;
    ReceiveExact(c, m, g);
    InOrderIsFirst(c, m);
    SentIsSome(c, m, g);
    if StartsInReach(m, g) {
      FirstMoves(c, m, g, ProcessPayload(m.rcv, g.seg).0.ring);
    }
  }

  // The first missing offset, when a segment is stored.
  lemma FirstMoves(c: Config, m: Conn, g: Sent, r': Ring)
    requires Wf(m.rcv.ring) && Wf(r') && Stored(m, g, r') && 0 < |g.seg.data| < c.ringSize == m.rcv.ring.size
    requires StartsInReach(m, g)
    ensures var k, k', e := InOrder(m), InOrderEnd(r'), TakenEnd(m, g);
            && (k < k' <==> g.at <= k < e) && (k < k' ==> e <= k')
            && forall o :: g.at <= o < e && r'.head <= o ==> o in r'.held
  {
    RunEndIsFirst(m.rcv.ring);
    RunEndIsFirst(r');
    hide RunEnd;
    var k, k', e := InOrder(m), InOrderEnd(r'), TakenEnd(m, g);
    assert r'.head <= k && e <= r'.head + r'.size;
    assert k < k' ==> k in r'.held;
    assert k' < k ==> k' in r'.held;
    assert g.at <= k' < e ==> k' in r'.held;
  }

  lemma InOrderIsFirst(c: Config, m: Conn)
    requires Inv(c, m)
    ensures Wf(m.rcv.ring) && FirstMissing(m.rcv.ring, InOrder(m))
    ensures m.rcv.ring.head <= m.rcv.ring.pile <= InOrder(m)
  {
  }

  lemma SentIsSome(c: Config, m: Conn, g: Sent)
    requires Inv(c, m) && SentInv(c, m.written, m.sent, g)
    ensures 0 < |g.seg.data| < c.ringSize && m.rcv.ring.size == c.ringSize
  {
  }

  // ---------------------------------------------------------------- sending

  // What a flush may send next when `t` octets of it are out: of the octets left in the buffer, a segment's length and
  // the window left, the least.
  function Sending(s: Sender, maxlen: int, window: int, t: int): int {
    Min(Min(|s.sndbuf| - SndOff(s) - t, maxlen), window - t)
  }

  // It sends nothing more: there is nothing it may send, or it would end beyond snd_una and the window left.
  predicate Stops(s: Sender, maxlen: int, window: int, t: int) {
    var n := Sending(s, maxlen, window, t);
    n <= 0 || Wrap(s.sndNxt + t - s.sndUna + n) > window - t
  }

  // Segment k of a flush is what may be sent at its turn, all of it.
  predicate SendsAll(s: Sender, maxlen: int, window: int, out: seq<Segment>, k: int)
    requires 0 <= k < |out|
  {
    var t := |Octets(out[..k])|;
    !Stops(s, maxlen, window, t) && |out[k].data| == Sending(s, maxlen, window, t)
  }

  lemma FlushOneExact(s: Sender, maxlen: int, window: int)
    requires SndNxtInReach(s) && !SeqLt(s.sndNxt, s.headSeq)
    ensures var g := FlushOne(s, maxlen, window);
            if Stops(s, maxlen, window, 0) then g == None
            else g.Some? && |g.value.data| == Sending(s, maxlen, window, 0)
  {
    BufferedIsRest(s);
  }

  // After n octets the rest of a flush is a flush in the window that is left.
  lemma StopsShift(s: Sender, maxlen: int, window: int, n: int, t: int)
    requires SndOff(Advance(s, n)) == SndOff(s) + n
    ensures Stops(Advance(s, n), maxlen, window - n, t) <==> Stops(s, maxlen, window, n + t)
    ensures Sending(Advance(s, n), maxlen, window - n, t) == Sending(s, maxlen, window, n + t)
  {
    hide SeqDiff;
    var k := Sending(s, maxlen, window, n + t);
    WrapAdd(s.sndNxt + n, t - s.sndUna + k);
    assert Wrap(s.sndNxt + n) + t - s.sndUna + k == Wrap(s.sndNxt + n) + (t - s.sndUna + k);
  }

  lemma SendsAllCons(s: Sender, maxlen: int, window: int, g: Segment, rest: seq<Segment>, k: int)
    requires SndOff(Advance(s, |g.data|)) == SndOff(s) + |g.data|
    requires 0 <= k < |rest| && SendsAll(Advance(s, |g.data|), maxlen, window - |g.data|, rest, k)
    ensures SendsAll(s, maxlen, window, [g] + rest, k + 1)
  {
    hide Stops, Sending, Octets, SndOff;
    assert ([g] + rest)[1..] == rest;
    OctetsSnoc([g] + rest, k + 1);
    StopsShift(s, maxlen, window, |g.data|, |Octets(rest[..k])|);
  }

  // A flush is maximal. Its segments are as long as they may be, each at its turn, and it ends only where there is no
  // packet buffer left or nothing more that may be sent.
  lemma {:induction false} FlushMaximal(s: Sender, maxlen: int, window: int, slots: nat)
    requires SndNxtInReach(s) && !SeqLt(s.sndNxt, s.headSeq)
    ensures var out := Flush(s, maxlen, window, slots).1;
            && |out| <= slots && (|out| == slots || Stops(s, maxlen, window, |Octets(out)|))
            && forall k :: 0 <= k < |out| ==> SendsAll(s, maxlen, window, out, k)
    decreases slots
  {
    hide FlushOne, SndNxtInReach, Wrap, SeqDiff, Stops, Sending, Advance;
    FlushOneExact(s, maxlen, window);
    var g := FlushOne(s, maxlen, window);
    if slots > 0 && g.Some? {
      var n := |g.value.data|;
      FlushOneIs(s, maxlen, window);
      var rest := Flush(Advance(s, n), maxlen, window - n, slots - 1).1;
      FlushMaximal(Advance(s, n), maxlen, window - n, slots - 1);
      StopsShift(s, maxlen, window, n, |Octets(rest)|);
      var out := [g.value] + rest;
      assert out[1..] == rest && Octets(out) == g.value.data + Octets(rest);
      forall k | 0 <= k < |out| ensures SendsAll(s, maxlen, window, out, k) {
        if k > 0 {
          SendsAllCons(s, maxlen, window, g.value, rest, k - 1);
        } else {
          assert Octets(out[..0]) == [];
        }
      }
    }
  }

  // The window is spent twice, by what is left of it and by the distance from snd_una. A flush that starts with
  // everything acknowledged sends half the window and at most half a segment more.
  lemma FlushHalves(s: Sender, maxlen: int, window: int, slots: nat)
    requires SndNxtInReach(s) && s.sndNxt == s.sndUna == s.headSeq && 0 <= window && 0 <= maxlen < TWO31
    ensures 2 * |Octets(Flush(s, maxlen, window, slots).1)| <= window + maxlen
  {
    hide SndNxtInReach, SeqDiff, Wrap, Flush, Stops;
    FromTheStart(s);
    FlushMaximal(s, maxlen, window, slots);
    FlushSends(s, maxlen, window, slots);
    var out := Flush(s, maxlen, window, slots).1;
    if out != [] {
      var k := |out| - 1;
      assert SendsAll(s, maxlen, window, out, k);
      LastOctets(out);
      PrefixOctets(out, k);
      NotHalfway(s, maxlen, window, |Octets(out[..k])|);
    }
  }

  lemma FromTheStart(s: Sender)
    requires SndNxtInReach(s) && s.sndNxt == s.headSeq
    ensures SndOff(s) == 0 && !SeqLt(s.sndNxt, s.headSeq) && |s.sndbuf| < TWO31
  {
  }

  lemma NotHalfway(s: Sender, maxlen: int, window: int, t: int)
    requires s.sndNxt == s.sndUna && SndOff(s) == 0 && |s.sndbuf| < TWO31 && 0 <= t <= |s.sndbuf|
    requires !Stops(s, maxlen, window, t)
    ensures 2 * t + Sending(s, maxlen, window, t) <= window
  {
    hide SndOff;
    var n := Sending(s, maxlen, window, t);
    assert s.sndNxt + t - s.sndUna + n == t + n && 0 < t + n <= |s.sndbuf|;
    assert Wrap(t + n) == t + n;
  }

  lemma {:induction false} LastOctets(out: seq<Segment>)
    requires out != []
    ensures Octets(out) == Octets(out[..|out| - 1]) + out[|out| - 1].data
  {
    if |out| > 1 {
      LastOctets(out[1..]);
      assert out[..|out| - 1][1..] == out[1..][..|out| - 2] && out[..|out| - 1][0] == out[0];
    } else {
      assert out[1..] == [] && out[..0] == [];
    }
  }

  lemma PrefixOctets(out: seq<Segment>, k: nat)
    requires k == |out| - 1
    ensures |Octets(out[..k])| <= |Octets(out)|
  {
    LastOctets(out);
  }

  lemma OneSegment(s: Sender, maxlen: int, window: int, slots: nat, g: Segment)
    requires SndNxtInReach(s) && 2 <= slots && FlushOne(s, maxlen, window) == Some(g)
    requires FlushOne(Advance(s, |g.data|), maxlen, window - |g.data|) == None
    ensures Flush(s, maxlen, window, slots).1 == [g]
  {
    hide FlushOne, SndNxtInReach, Advance;
  }

  const HALF := Sender([1, 2, 3, 4, 5, 6, 7, 8], 101, 101, 101, 8, 0, 101, 101, 0)

  // A window of 8 octets takes 4 of the 8 that are buffered.
  lemma HalfTheWindow()
    ensures Flush(HALF, 4, 8, 9).1 == [Segment(101, [1, 2, 3, 4])]
  {
    hide Flush;
    FlushOneExact(HALF, 4, 8);
    FlushOneIs(HALF, 4, 8);
    assert HALF.sndbuf[0..][..4] == [1, 2, 3, 4];
    FlushOneExact(Advance(HALF, 4), 4, 4);
    OneSegment(HALF, 4, 8, 9, Segment(101, [1, 2, 3, 4]));
  }

  // ---------------------------------------------------------------- acknowledgements

  // CopyFromUser: the buffer takes octets from the front until there are no more or it is full.
  lemma PutFills(s: Sender, bytes: seq<Byte>, size: int)
    requires |s.sndbuf| <= size
    ensures var s' := Put(s, bytes, size);
            && s' == s.(sndbuf := s'.sndbuf) && s.sndbuf <= s'.sndbuf <= s.sndbuf + bytes
            && |s'.sndbuf| == Min(|s.sndbuf| + |bytes|, size)
  {
    assert s.sndbuf + bytes[..Min(|bytes|, size - |s.sndbuf|)] == (s.sndbuf + bytes)[..Min(|s.sndbuf| + |bytes|, size)];
  }

  // An acknowledgement of octets that were never put.
  predicate Ignored(s: Sender, ack: U32) { SeqGt(ack, Wrap(s.headSeq + |s.sndbuf|)) }

  // One that is newer than the last from which the window was taken.
  predicate Newer(s: Sender, sn: U32, ack: U32) {
    SeqLt(s.sndWl1, sn) || (s.sndWl1 == sn && SeqLt(s.sndWl2, ack))
  }

  // One that is counted as a duplicate. Its window plays no part.
  predicate Duplicate(s: Sender, sn: U32, ack: U32, payloadLen: int) {
    SeqLt(ack, s.sndNxt) && ack == s.lastAck && payloadLen == 0 && (Newer(s, sn, ack) ==> ack == s.sndWl2)
  }

  // What any acknowledgement does to the variables beside the buffer. The peer's window is always its own.
  lemma AckFields(s: Sender, sn: U32, ack: U32, wnd: U32, payloadLen: int)
    ensures var s' := ProcessAck(s, sn, ack, wnd, payloadLen); var dup := Duplicate(s, sn, ack, payloadLen);
            if Ignored(s, ack) then s' == s.(peerWnd := wnd)
            else
              && s'.peerWnd == wnd
              && (s'.sndWl1, s'.sndWl2) == (if Newer(s, sn, ack) then (sn, ack) else (s.sndWl1, s.sndWl2))
              && (s'.dupAcks, s'.lastAck) == (if dup then ((s.dupAcks + 1) % 256, s.lastAck) else (0, ack))
              && s'.sndNxt == if (dup && s.dupAcks == 2) || SeqGt(ack, s.sndNxt) then ack else s.sndNxt
  {
    SameEdge(wnd, s.sndWl2, ack);
    hide Wrap, SeqDiff;
  }

  // So three acknowledgements that only open the window send snd_nxt back to what they acknowledge.
  lemma WindowUpdatesRetransmit(s: Sender, sn: U32, w1: U32, w2: U32, w3: U32)
    requires SeqLt(s.lastAck, s.sndNxt) && !Ignored(s, s.lastAck) && SeqGeq(s.headSeq, s.lastAck) && s.dupAcks == 0
    requires s.sndWl1 == sn && s.sndWl2 == s.lastAck
    ensures var ack := s.lastAck;
            ProcessAck(ProcessAck(ProcessAck(s, sn, ack, w1, 0), sn, ack, w2, 0), sn, ack, w3, 0)
            == s.(peerWnd := w3, dupAcks := 3, sndNxt := ack)
  {
    var ack := s.lastAck;
    var s1 := s.(peerWnd := w1, dupAcks := 1);
    var s2 := s.(peerWnd := w2, dupAcks := 2);
    WindowUpdate(s, sn, w1);
    WindowUpdate(s1, sn, w2);
    WindowUpdate(s2, sn, w3);
    hide Wrap, SeqDiff, ProcessAck;
  }

  lemma WindowUpdate(s: Sender, sn: U32, wnd: U32)
    requires SeqLt(s.lastAck, s.sndNxt) && !Ignored(s, s.lastAck) && SeqGeq(s.headSeq, s.lastAck) && s.dupAcks < 3
    requires s.sndWl1 == sn && s.sndWl2 == s.lastAck
    ensures ProcessAck(s, sn, s.lastAck, wnd, 0) ==
            s.(peerWnd := wnd, dupAcks := s.dupAcks + 1, sndNxt := if s.dupAcks == 2 then s.lastAck else s.sndNxt)
  {
    SameEdge(wnd, s.sndWl2, s.lastAck);
    hide Wrap;
  }

  // ---------------------------------------------------------------- reading

  // A read hands over all there is in order, up to n octets of it, and leaves rcv_wnd at the room behind the rest.
  lemma ReadExact(c: Config, m: Conn, n: int)
    requires c.Ok() && ReceiverInv(c, m)
    ensures var (r', out) := CopyToUser(m.rcv, n); var p := m.rcv.ring.pile;
            && |out| == Max(0, Min(n, InOrder(m) - p)) && p + |out| <= |m.written| && out == m.written[p..p + |out|]
            && Wf(r'.ring) && InOrderEnd(r'.ring) == InOrder(m) && r'.ring.pile == p + |out|
            && (out != [] ==> r'.rcvWnd == c.ringSize - (InOrder(m) - r'.ring.pile)) && (out == [] ==> r' == m.rcv)
  {
    PeekLength(m.rcv.ring, n);
    ReadOut(c, m, n);
    hide RunEnd, PPeekLen, Wf;
  }

  lemma PeekLength(r: Ring, n: int)
    requires Wf(r)
    ensures Max(0, PPeekLen(r, n, r.pile)) == Max(0, Min(n, InOrderEnd(r) - r.pile))
  {
    if r.pile in r.held {
      RunEndSuffix(r, r.pile);
    } else {
      assert InOrderEnd(r) == r.pile;
    }
  }

  // The receiver's window is the room there is.
  ghost predicate WindowTrue(c: Config, m: Conn)
    requires m.rcv.ring.size >= 0
  {
    m.rcv.rcvWnd == c.ringSize - (InOrder(m) - m.rcv.ring.pile)
  }

  lemma {:induction false} FlushLeavesReceiver(m: Conn, maxlen: int, window: int, slots: nat)
    requires SndNxtInReach(m.snd)
    ensures FlushAll(m, maxlen, window, slots).rcv == m.rcv
    decreases slots
  {
    hide FlushOne, SndNxtInReach;
    var g := FlushOne(m.snd, maxlen, window);
    if slots > 0 && g.Some? {
      FlushLeavesReceiver(SendOne(m, g.value), maxlen, window - |g.value.data|, slots - 1);
    }
  }

  // It may start out different, but once it is, it stays so.
  lemma WindowStaysTrue(c: Config, m: Conn, s: Step)
    requires c.Ok() && Inv(c, m) && Enabled(c, m, s) && Ready(m, s) && WindowTrue(c, m)
    ensures Inv(c, Next(c, m, s)) && WindowTrue(c, Next(c, m, s))
  {
    StepKeeps(c, m, s);
    hide RunEnd, ProcessPayload, ProcessAck, CopyToUser, FlushAll, Put;
    hide Stored, FirstMissing, SentInv, AckInv, SenderInv;
    match s
    case Receive(g) =>
      assert SentInv(c, m.written, m.sent, g);
      ReceiveExact(c, m, g);
      if EndsInWindow(m, g) && StartsInReach(m, g) {
        StoredPile(m, g, ProcessPayload(m.rcv, g.seg).0.ring);
      }
    case Read(n) => ReadExact(c, m, n);
    case FlushStep(maxlen, window, slots) => FlushLeavesReceiver(m, maxlen, window, slots);
    case _ =>
  }

  lemma StoredPile(m: Conn, g: Sent, r: Ring)
    requires Stored(m, g, r)
    ensures r.pile == m.rcv.ring.pile
  {
  }

  // An octet arrives: a segment that ends in a true window and starts at the first missing octet or below, then a read
  // of all there is. The application has then got the stream up to the end of that segment at least.
  lemma OneTrip(c: Config, m: Conn, g: Sent, n: int)
    requires MayBeReceived(c, m, g) && Ready(m, Receive(g)) && EndsInWindow(m, g) && WindowTrue(c, m)
    requires m.rcv.ring.head <= g.at <= InOrder(m) < g.at + |g.seg.data| && c.ringSize <= n
    ensures var r' := ProcessPayload(m.rcv, g.seg).0; var e := InOrderEnd(r'.ring);
            && g.at + |g.seg.data| <= e <= |m.written|
            && m.delivered + CopyToUser(r', n).1 == m.written[..e]
  {
    hide ProcessPayload, RunEnd, Inv, SentInv, CopyToUser, Stored, FirstMissing;
    SentIsSome(c, m, g);
    InOrderMoves(c, m, g);
    ReceiverAfter(c, m, g);
    var m' := m.(rcv := ProcessPayload(m.rcv, g.seg).0);
    ReadExact(c, m', n);
    SpanBound(c, m');
    ReceiveExact(c, m, g);
    var p := m'.rcv.ring.pile;
    assert m.written[..p] + m.written[p..InOrder(m')] == m.written[..InOrder(m')];
    if StartsInReach(m, g) {
      StoredPile(m, g, m'.rcv.ring);
    }
  }

  lemma SpanBound(c: Config, m: Conn)
    requires ReceiverInv(c, m)
    ensures InOrder(m) - m.rcv.ring.pile <= c.ringSize && InOrder(m) <= |m.written|
    ensures 0 <= m.rcv.ring.pile <= InOrder(m) && m.delivered == m.written[..m.rcv.ring.pile]
  {
  }
}
