/** Safety of the byte stream over every run: what is read is what was written, in order. */
module StreamSafety {
  import opened Bytes
  import opened Containers
  import opened RingSpec
  import opened ByteStream
  import RingLaws

  // The sequence number of a stream offset.
  function SeqAt(c: Config, off: int): U32 { Wrap(c.iss + 1 + off) }

  lemma SeqAtDiff(c: Config, x: int, y: int)
    requires -TWO31 <= x - y < TWO31
    ensures SeqDiff(SeqAt(c, x), SeqAt(c, y)) == x - y
    ensures SeqAt(c, x) == SeqAt(c, y) <==> x == y
  {
    SeqDiffOfWrap(c.iss + 1 + x, c.iss + 1 + y);
  }

  lemma SeqAtAdd(c: Config, x: int, n: int)
    ensures Wrap(SeqAt(c, x) + n) == SeqAt(c, x + n)
  {
    WrapAdd(c.iss + 1 + x, n);
  }

  lemma SeqAtGap(c: Config, x: int, y: int, n: int)
    requires 0 <= x - y + n < TWO32
    ensures Wrap(SeqAt(c, x) - SeqAt(c, y) + n) == x - y + n
  {
    var q := (c.iss + 1 + x) / TWO32 - (c.iss + 1 + y) / TWO32;
    assert SeqAt(c, x) - SeqAt(c, y) + n == x - y + n - TWO32 * q;
  }

  // Nothing sent is more than 2^31 octets ahead of snd_nxt or snd_una. snd_una is where the buffer starts, or, after an
  // acknowledgement exactly 2^31 octets old, that far behind.
  ghost predicate SenderInv(c: Config, m: Conn) {
    && 0 <= m.removed <= |m.written| && m.snd.sndbuf == m.written[m.removed..] && |m.snd.sndbuf| <= c.sndSize
    && m.snd.headSeq == SeqAt(c, m.removed) && m.snd.sndUna == SeqAt(c, m.una) && m.snd.sndNxt == SeqAt(c, m.nxt)
    && (m.una == m.removed || m.una == m.removed - TWO31)
    && m.removed <= m.sent <= |m.written| && m.nxt <= m.sent && m.sent <= m.nxt + TWO31 && m.sent <= m.una + TWO31
  }

  ghost predicate SentInv(c: Config, written: seq<Byte>, sent: int, g: Sent) {
    && 0 <= g.at && g.at + |g.seg.data| <= sent <= |written| && 0 < |g.seg.data| < c.ringSize
    && g.seg.sn == SeqAt(c, g.at) && g.seg.data == written[g.at..g.at + |g.seg.data|]
  }

  ghost predicate AckInv(c: Config, upTo: int, a: Ack) {
    0 <= a.upTo <= upTo && a.ack == SeqAt(c, a.upTo)
  }

  ghost predicate ReceiverInv(c: Config, m: Conn) {
    && Wf(m.rcv.ring) && m.rcv.ring.size == c.ringSize && m.rcv.irs == c.iss
    && InOrder(m) <= m.sent <= |m.written| && m.rcv.rcvNxt == SeqAt(c, InOrder(m))
    && 0 <= m.rcv.rcvWnd < 0x4000_0000
    && (forall o :: o in m.rcv.ring.held ==> o < m.sent && m.rcv.ring.held[o] == m.written[o])
    && m.delivered == m.written[..m.rcv.ring.pile]
  }

  ghost predicate Inv(c: Config, m: Conn) {
    && SenderInv(c, m)
    && ReceiverInv(c, m)
    && (forall g :: g in m.segs ==> SentInv(c, m.written, m.sent, g))
    && (forall a :: a in m.acks ==> AckInv(c, InOrder(m), a))
    && m.removed <= InOrder(m)
  }

  lemma InitInv(c: Config, m: Conn)
    requires c.Ok() && Init(c, m)
    ensures Inv(c, m)
  {
  }

  // In a reachable state the ring is well formed, snd_nxt is an old number or one that the buffer reaches, and a
  // segment is shorter than the ring.
  lemma InvReady(c: Config, m: Conn, s: Step)
    requires c.Ok() && Inv(c, m) && Enabled(c, m, s)
    ensures Ready(m, s)
  {
    SeqDiffOfWrap(c.iss + 1 + m.nxt, c.iss + 1 + m.removed);
  }

  // ---------------------------------------------------------------- one lemma per step

  lemma WriteKeeps(c: Config, m: Conn, bytes: seq<Byte>)
    requires c.Ok() && Inv(c, m)
    requires Ready(m, Write(bytes))
    ensures Inv(c, Next(c, m, Write(bytes)))
  {
    var m' := Next(c, m, Write(bytes));
    assert m'.snd.sndbuf == m'.written[m'.removed..];
    forall g | g in m'.segs ensures SentInv(c, m'.written, m'.sent, g) {
      assert SentInv(c, m.written, m.sent, g);
      assert m'.written[g.at..g.at + |g.seg.data|] == m.written[g.at..g.at + |g.seg.data|];
    }
    assert m'.delivered == m'.written[..m'.rcv.ring.pile];
  }

  // While snd_una is 2^31 octets behind, nothing fits the window.
  lemma StuckSendsNothing(c: Config, m: Conn, maxlen: int, window: int)
    requires c.Ok() && SenderInv(c, m) && SndNxtInReach(m.snd) && window < TWO31 && m.una != m.removed
    ensures FlushOne(m.snd, maxlen, window) == None
  {
    if m.removed <= m.nxt && FlushOne(m.snd, maxlen, window).Some? {
      var n := |FlushOne(m.snd, maxlen, window).value.data|;
      FlushOneIs(m.snd, maxlen, window);
      SeqAtDiff(c, m.nxt, m.removed);
      SeqAtGap(c, m.nxt, m.una, n);
    } else {
      SeqAtDiff(c, m.nxt, m.removed);
    }
  }

  // What the sender's loop sends are the stream's octets at the segment's sequence number.
  lemma FlushOneSends(c: Config, m: Conn, maxlen: int, window: int)
    requires c.Ok() && SenderInv(c, m) && SndNxtInReach(m.snd) && maxlen < c.ringSize
    requires FlushOne(m.snd, maxlen, window).Some? && (window < TWO31 || m.una == m.removed)
    ensures var g := FlushOne(m.snd, maxlen, window).value;
            && SentInv(c, m.written, Max(m.sent, m.nxt + |g.data|), Sent(g, m.nxt))
            && m.una == m.removed <= m.nxt && m.nxt + |g.data| <= m.removed + window
  {
    if m.una != m.removed {
      StuckSendsNothing(c, m, maxlen, window);
    }
    var s := m.snd;
    var g := FlushOne(s, maxlen, window).value;
    FlushOneIs(s, maxlen, window);
    SeqAtDiff(c, m.nxt, m.removed);
    SeqAtGap(c, m.nxt, m.removed, |g.data|);
    hide SeqDiff, SeqAt, Wrap, FlushOne;
    SliceOfSuffix(m.written, m.removed, m.nxt, |g.data|);
  }

  lemma SliceOfSuffix(w: seq<Byte>, r: int, x: int, n: int)
    requires 0 <= r <= x && 0 <= n && x + n <= |w|
    ensures w[r..][x - r..x - r + n] == w[x..x + n]
  {
  }

  // One segment on its way: the invariant holds again.
  lemma SendOneKeeps(c: Config, m: Conn, maxlen: int, window: int)
    requires c.Ok() && Inv(c, m) && SndNxtInReach(m.snd) && maxlen < c.ringSize
    requires FlushOne(m.snd, maxlen, window).Some? && (window < TWO31 || m.una == m.removed)
    ensures Inv(c, SendOne(m, FlushOne(m.snd, maxlen, window).value))
    ensures SendOne(m, FlushOne(m.snd, maxlen, window).value).una == m.removed
  {
    hide FlushOne, SeqAt, Wrap, RunEnd, SndNxtInReach;
    FlushOneSends(c, m, maxlen, window);
    var g := FlushOne(m.snd, maxlen, window).value;
    SeqAtAdd(c, m.nxt, |g.data|);
  }

  lemma {:induction false} FlushKeeps(c: Config, m: Conn, maxlen: int, window: int, slots: nat)
    requires c.Ok() && Inv(c, m) && SndNxtInReach(m.snd) && maxlen < c.ringSize
    requires window < TWO31 || m.una == m.removed
    ensures Inv(c, FlushAll(m, maxlen, window, slots))
    decreases slots
  {
    hide Inv, FlushOne;
    var g := FlushOne(m.snd, maxlen, window);
    if slots > 0 && g.Some? {
      SendOneKeeps(c, m, maxlen, window);
      FlushKeeps(c, SendOne(m, g.value), maxlen, window - |g.value.data|, slots - 1);
    }
  }

  // The octets of some segments, one after the other.
  function Octets(out: seq<Segment>): seq<Byte> {
    if out == [] then [] else out[0].data + Octets(out[1..])
  }

  // Where snd_nxt stands in the send buffer.
  function SndOff(s: Sender): int { SeqDiff(s.sndNxt, s.headSeq) }

  // The `n` octets one turn of the loop sends are those at snd_nxt.
  lemma FlushOneIs(s: Sender, maxlen: int, window: int)
    requires SndNxtInReach(s) && FlushOne(s, maxlen, window).Some?
    ensures var g := FlushOne(s, maxlen, window).value; var n := |g.data|;
            && g.sn == s.sndNxt && 0 < n <= maxlen && Wrap(g.sn - s.sndUna + n) <= window
            && 0 <= SndOff(s) && SndOff(s) + n <= |s.sndbuf| && g.data == s.sndbuf[SndOff(s)..][..n]
            && SndOff(Advance(s, n)) == SndOff(s) + n && SndNxtInReach(Advance(s, n))
  {
    BufferedIsRest(s);
    var d := SndOff(s);
    var n := |FlushOne(s, maxlen, window).value.data|;
    AdvanceInReach(s, n);
    assert Wrap(s.sndNxt - s.sndUna + n) <= window;
    assert s.sndbuf[d..d + n] == s.sndbuf[d..][..n];
    hide Wrap, SeqDiff;
  }

  lemma SliceJoins(w: seq<Byte>, d: int, n: nat, m: nat)
    requires 0 <= d && d + n + m <= |w|
    ensures w[d..][..n] + w[d + n..][..m] == w[d..][..n + m]
  {
  }

  lemma OctetsSnoc(out: seq<Segment>, k: nat)
    requires 0 < k <= |out|
    ensures Octets(out[..k]) == out[0].data + Octets(out[1..][..k - 1])
  {
    assert out[..k][0] == out[0] && out[..k][1..] == out[1..][..k - 1];
  }

  // What the segments of a flush carry and where they end.
  predicate SegmentFits(s: Sender, maxlen: int, window: int, out: seq<Segment>, k: int)
    requires 0 <= k < |out|
  {
    && 0 < |out[k].data| <= maxlen && Wrap(out[k].sn - s.sndUna + |out[k].data|) <= window
    && out[k].sn == Wrap(s.sndNxt + |Octets(out[..k])|)
  }

  ghost predicate InOrderFrom(s: Sender, maxlen: int, window: int, out: seq<Segment>) {
    && (out != [] ==> 0 <= SndOff(s) && SndOff(s) + |Octets(out)| <= |s.sndbuf|
                      && Octets(out) == s.sndbuf[SndOff(s)..][..|Octets(out)|])
    && (forall k :: 0 <= k < |out| ==> SegmentFits(s, maxlen, window, out, k))
  }

  lemma SegmentFitsCons(s: Sender, maxlen: int, window: int, g: Segment, rest: seq<Segment>, k: int)
    requires 0 <= |g.data| && 0 <= k < |rest| && SegmentFits(Advance(s, |g.data|), maxlen, window - |g.data|, rest, k)
    ensures SegmentFits(s, maxlen, window, [g] + rest, k + 1)
  {
    hide Wrap, Octets;
    var out, n := [g] + rest, |g.data|;
    assert out[1..] == rest;
    OctetsSnoc(out, k + 1);
    WrapSum(s.sndNxt, n, |Octets(rest[..k])|);
  }

  lemma WrapSum(x: int, n: int, m: int)
    ensures Wrap(Wrap(x + n) + m) == Wrap(x + (n + m))
  {
    WrapAdd(x + n, m);
  }

  lemma FirstFits(s: Sender, maxlen: int, window: int, g: Segment, rest: seq<Segment>)
    requires SndNxtInReach(s) && FlushOne(s, maxlen, window) == Some(g)
    ensures SegmentFits(s, maxlen, window, [g] + rest, 0)
  {
    FlushOneIs(s, maxlen, window);
    WrapId(s.sndNxt);
    assert Octets(([g] + rest)[..0]) == [];
    hide FlushOne, SndNxtInReach, Wrap, SndOff;
  }

  lemma InOrderCons(s: Sender, maxlen: int, window: int, g: Segment, rest: seq<Segment>)
    requires SndNxtInReach(s) && FlushOne(s, maxlen, window) == Some(g)
    requires InOrderFrom(Advance(s, |g.data|), maxlen, window - |g.data|, rest)
    ensures InOrderFrom(s, maxlen, window, [g] + rest)
    ensures Octets([g] + rest) == g.data + Octets(rest)
  {
    hide FlushOne, SndNxtInReach, Wrap, SndOff, SegmentFits;
    var out, n := [g] + rest, |g.data|;
    FlushOneIs(s, maxlen, window);
    FirstFits(s, maxlen, window, g, rest);
    assert out[0] == g && out[1..] == rest;
    assert Octets(out) == g.data + Octets(rest);
    if rest != [] {
      SliceJoins(s.sndbuf, SndOff(s), n, |Octets(rest)|);
    }
    forall k | 0 <= k < |out| ensures SegmentFits(s, maxlen, window, out, k) {
      if k > 0 {
        SegmentFitsCons(s, maxlen, window, g, rest, k - 1);
      }
    }
  }

  // A flush sends the buffered octets from snd_nxt on, in order and without a gap, and leaves snd_nxt after them; no
  // segment is longer than maxlen or ends beyond snd_una + window.
  lemma {:induction false} FlushSends(s: Sender, maxlen: int, window: int, slots: nat)
    requires SndNxtInReach(s)
    ensures var (s', out) := Flush(s, maxlen, window, slots);
            s' == Advance(s, |Octets(out)|) && InOrderFrom(s, maxlen, window, out)
    decreases slots
  {
    hide FlushOne, SndNxtInReach, Wrap, SeqDiff, InOrderFrom;
    var g := FlushOne(s, maxlen, window);
    if slots > 0 && g.Some? {
      var n := |g.value.data|;
      var (s', rest) := Flush(Advance(s, n), maxlen, window - n, slots - 1);
      FlushSends(Advance(s, n), maxlen, window - n, slots - 1);
      InOrderCons(s, maxlen, window, g.value, rest);
      WrapSum(s.sndNxt, n, |Octets(rest)|);
    } else {
      NothingInOrder(s, maxlen, window);
    }
  }

  lemma NothingInOrder(s: Sender, maxlen: int, window: int)
    ensures InOrderFrom(s, maxlen, window, []) && Advance(s, 0) == s
  {
    WrapId(s.sndNxt);
  }

  // In the protocol: the sender's part of a flush is that flush, and nothing but its segments goes on the network.
  lemma {:induction false} FlushAllIsFlush(m: Conn, maxlen: int, window: int, slots: nat)
    requires SndNxtInReach(m.snd)
    ensures var (s', out) := Flush(m.snd, maxlen, window, slots); var m' := FlushAll(m, maxlen, window, slots);
            && m'.snd == s' && m'.nxt == m.nxt + |Octets(out)|
            && (forall g :: g in m'.segs ==> g in m.segs || g.seg in out)
            && (forall g :: g in m.segs ==> g in m'.segs)
    decreases slots
  {
    hide FlushOne, SndNxtInReach;
    var g := FlushOne(m.snd, maxlen, window);
    if slots > 0 && g.Some? {
      var n := |g.value.data|;
      var m1 := SendOne(m, g.value);
      FlushAllIsFlush(m1, maxlen, window - n, slots - 1);
      var rest := Flush(m1.snd, maxlen, window - n, slots - 1).1;
      assert ([g.value] + rest)[1..] == rest;
    }
  }

  // Segment k of a flush is on the network, with the offset of its first octet.
  predicate OnNetwork(segs: set<Sent>, nxt: int, out: seq<Segment>, k: int)
    requires 0 <= k < |out|
  {
    Sent(out[k], nxt + |Octets(out[..k])|) in segs
  }

  // All the segments of a flush go on the network.
  lemma {:induction false} FlushAllSends(m: Conn, maxlen: int, window: int, slots: nat)
    requires SndNxtInReach(m.snd)
    ensures var out := Flush(m.snd, maxlen, window, slots).1;
            forall k :: 0 <= k < |out| ==> OnNetwork(FlushAll(m, maxlen, window, slots).segs, m.nxt, out, k)
    decreases slots
  {
    hide FlushOne, SndNxtInReach, OnNetwork, Octets;
    var g := FlushOne(m.snd, maxlen, window);
    if slots > 0 && g.Some? {
      var n := |g.value.data|;
      var m1 := SendOne(m, g.value);
      FlushAllSends(m1, maxlen, window - n, slots - 1);
      FlushAllIsFlush(m1, maxlen, window - n, slots - 1);
      var rest := Flush(m1.snd, maxlen, window - n, slots - 1).1;
      var segs := FlushAll(m, maxlen, window, slots).segs;
      forall k | 0 <= k < |rest| + 1 ensures OnNetwork(segs, m.nxt, [g.value] + rest, k) {
        OnNetworkCons(segs, m.nxt, g.value, rest, k);
      }
    }
  }

  lemma OnNetworkCons(segs: set<Sent>, nxt: int, g: Segment, rest: seq<Segment>, k: int)
    requires Sent(g, nxt) in segs && 0 <= k <= |rest|
    requires 0 < k ==> OnNetwork(segs, nxt + |g.data|, rest, k - 1)
    ensures OnNetwork(segs, nxt, [g] + rest, k)
  {
    var out := [g] + rest;
    assert out[1..] == rest;
    if k > 0 {
      OctetsSnoc(out, k);
    } else {
      assert Octets(out[..0]) == [];
    }
  }

  // How old an acknowledgement is, counted from the last octet put.
  function Age(m: Conn, a: Ack): int { |m.written| - a.upTo }

  ghost predicate MayArrive(c: Config, m: Conn, a: Ack) {
    SenderInv(c, m) && AckInv(c, m.sent, a) && Age(m, a) < TWO32
  }

  // An acknowledgement more than 2^31 octets old looks like one of octets never put, and is ignored.
  lemma OldAckIgnored(c: Config, m: Conn, a: Ack)
    requires c.Ok() && MayArrive(c, m, a)
    ensures SeqGt(a.ack, Wrap(m.snd.headSeq + |m.snd.sndbuf|)) <==> TWO31 < Age(m, a)
    ensures TWO31 < Age(m, a) ==> ProcessAck(m.snd, a.sn, a.ack, a.wnd, a.payloadLen) == m.snd.(peerWnd := a.wnd)
  {
    SeqAtAdd(c, m.removed, |m.snd.sndbuf|);
    if 0 < Age(m, a) {
      SeqAtLap(c, a.upTo, |m.written|);
    } else {
      SeqAtDiff(c, a.upTo, |m.written|);
    }
    hide SeqDiff, SeqAt, Wrap, CountAck, DropAcked;
  }

  // For the others the wrapped comparisons of ProcessACK decide what they are meant to, but for distances of 2^31.
  lemma AckCompares(c: Config, m: Conn, a: Ack)
    requires c.Ok() && MayArrive(c, m, a) && Age(m, a) <= TWO31
    ensures SeqLt(a.ack, m.snd.sndNxt) <==> a.upTo < m.nxt || a.upTo == m.nxt + TWO31
    ensures SeqGt(a.ack, m.snd.sndNxt) <==> m.nxt < a.upTo < m.nxt + TWO31
    ensures a.ack == m.snd.sndNxt <==> a.upTo == m.nxt
    ensures a.ack == m.snd.sndUna <==> a.upTo == m.una
    ensures SeqGeq(m.snd.headSeq, a.ack) <==> a.upTo <= m.removed && !(m.snd.sndbuf == [] && Age(m, a) == TWO31)
    ensures m.removed < a.upTo ==> Wrap(a.ack - m.snd.headSeq) == a.upTo - m.removed
    ensures m.removed < a.upTo ==> Wrap(m.snd.headSeq + (a.upTo - m.removed)) == a.ack
    ensures Wrap(m.snd.headSeq) == m.snd.headSeq
  {
    WrapId(m.snd.headSeq);
    SeqAtNear(c, a.upTo, m.nxt);
    SeqAtNear(c, a.upTo, m.una);
    SeqAtNear(c, m.removed, a.upTo);
    if m.removed < a.upTo {
      SeqAtGap(c, a.upTo, m.removed, 0);
      SeqAtAdd(c, m.removed, a.upTo - m.removed);
    }
    hide SeqDiff, SeqAt, Wrap;
  }

  // The signed difference of two offsets up to 2^31 apart; at 2^31 it is negative either way.
  lemma SeqAtNear(c: Config, x: int, y: int)
    requires -TWO31 <= x - y <= TWO31
    ensures SeqDiff(SeqAt(c, x), SeqAt(c, y)) == if x - y == TWO31 then -TWO31 else x - y
    ensures SeqAt(c, x) == SeqAt(c, y) <==> x == y
  {
    if x - y == TWO31 {
      SeqAtGap(c, x, y, 0);
    } else {
      SeqAtDiff(c, x, y);
    }
  }

  lemma ReceiveAckKeeps(c: Config, m: Conn, a: Ack)
    requires c.Ok() && Inv(c, m) && Ready(m, ReceiveAck(a)) && Enabled(c, m, ReceiveAck(a))
    ensures Inv(c, Next(c, m, ReceiveAck(a)))
  {
    assert AckInv(c, InOrder(m), a);
    AckSender(c, m, a);
    hide ProcessAck, RunEnd, SenderInv;
  }

  // The sender after an acknowledgement of `upTo`, in true offsets.
  lemma AckSender(c: Config, m: Conn, a: Ack)
    requires c.Ok() && MayArrive(c, m, a) && Ready(m, ReceiveAck(a))
    ensures var m' := Next(c, m, ReceiveAck(a));
            && SenderInv(c, m') && m'.removed == Max(m.removed, a.upTo) && (m'.nxt == m.nxt || m'.nxt == a.upTo)
            && (m'.written, m'.rcv, m'.sent, m'.segs, m'.acks, m'.delivered)
               == (m.written, m.rcv, m.sent, m.segs, m.acks, m.delivered)
  {
    hide Wrap, SeqDiff, RunEnd, FlushAll, ProcessPayload, CopyToUser, SeqAt, ProcessAck;
    OldAckIgnored(c, m, a);
    if Age(m, a) <= TWO31 {
      AckCompares(c, m, a);
      AckOnBuffer(c, m, a);
    }
  }

  // ProcessACK drops exactly the octets below `upTo`; snd_nxt stays, or becomes the acknowledged number. snd_una
  // becomes that number if octets were dropped, or if none are buffered and the acknowledgement is exactly 2^31 octets
  // old.
  lemma AckOnBuffer(c: Config, m: Conn, a: Ack)
    requires c.Ok() && MayArrive(c, m, a) && Age(m, a) <= TWO31
    ensures var s := ProcessAck(m.snd, a.sn, a.ack, a.wnd, a.payloadLen); var r := Max(m.removed, a.upTo);
            && s.sndbuf == m.written[r..] && s.headSeq == SeqAt(c, r)
            && s.sndUna == (if m.removed < a.upTo || (m.snd.sndbuf == [] && Age(m, a) == TWO31) then a.ack
                            else m.snd.sndUna)
            && (s.sndNxt == a.ack || (s.sndNxt == m.snd.sndNxt && !SeqGt(a.ack, m.snd.sndNxt)))
  {
    hide Wrap, SeqDiff, SeqAt, CountAck, RunEnd, DropAcked, ProcessAck;
    OldAckIgnored(c, m, a);
    var s := BeforeDrop(m.snd, a);
    DropOnBuffer(c, m, a, s);
  }

  // The sender when ProcessACK comes to the removal.
  lemma BeforeDrop(s: Sender, a: Ack) returns (s': Sender)
    requires !SeqGt(a.ack, Wrap(s.headSeq + |s.sndbuf|))
    ensures ProcessAck(s, a.sn, a.ack, a.wnd, a.payloadLen) == DropAcked(s', a.ack)
    ensures (s'.sndbuf, s'.headSeq, s'.sndUna) == (s.sndbuf, s.headSeq, s.sndUna)
    ensures s'.sndNxt == a.ack || (s'.sndNxt == s.sndNxt && !SeqGt(a.ack, s.sndNxt))
  {
    hide Wrap, SeqDiff, CountAck, DropAcked;
    var s0 := s.(peerWnd := a.wnd);
    var newer := SeqLt(s0.sndWl1, a.sn) || (s0.sndWl1 == a.sn && SeqLt(s0.sndWl2, a.ack));
    var s1 := if newer then s0.(sndWl1 := a.sn, sndWl2 := a.ack) else s0;
    var s2 := CountAck(s1, a.ack, a.payloadLen, Wrap(s0.peerWnd + s0.sndWl2));
    s' := if SeqGt(a.ack, s2.sndNxt) then s2.(sndNxt := a.ack) else s2;
  }

  ghost predicate Dropped(c: Config, m: Conn, a: Ack, s: Sender)
    requires m.removed <= |m.written| && 0 <= a.upTo <= |m.written| && 0 <= m.removed
  {
    var d := DropAcked(s, a.ack); var r := Max(m.removed, a.upTo);
    && d.sndbuf == m.written[r..] && d.headSeq == SeqAt(c, r) && d.sndNxt == s.sndNxt
    && d.sndUna == if m.removed < a.upTo || (m.snd.sndbuf == [] && Age(m, a) == TWO31) then a.ack else m.snd.sndUna
  }

  lemma DropOnBuffer(c: Config, m: Conn, a: Ack, s: Sender)
    requires c.Ok() && MayArrive(c, m, a) && Age(m, a) <= TWO31
    requires (s.sndbuf, s.headSeq, s.sndUna) == (m.snd.sndbuf, m.snd.headSeq, m.snd.sndUna)
    ensures Dropped(c, m, a, s)
  {
    hide Wrap, SeqDiff, SeqAt, RunEnd;
    AckCompares(c, m, a);
    if m.removed < a.upTo {
      assert m.snd.sndbuf[a.upTo - m.removed..] == m.written[a.upTo..];
    }
  }

  // ---------------------------------------------------------------- receiving

  // A segment younger than 2^32 octets that passes both window tests of ProcessTCPPayload really ends in the window.
  lemma PassesWindow(c: Config, m: Conn, g: Sent)
    requires c.Ok() && Inv(c, m) && SentInv(c, m.written, m.sent, g)
    requires InOrder(m) + m.rcv.rcvWnd < g.at + |g.seg.data| + TWO32
    requires !SeqLt(Wrap(g.seg.sn + |g.seg.data|), m.rcv.rcvNxt)
    requires !SeqGt(Wrap(g.seg.sn + |g.seg.data|), Wrap(m.rcv.rcvNxt + m.rcv.rcvWnd))
    ensures InOrder(m) <= g.at + |g.seg.data| <= InOrder(m) + m.rcv.rcvWnd
  {
    var e, n := g.at + |g.seg.data|, InOrder(m);
    SeqAtAdd(c, g.at, |g.seg.data|);
    SeqAtAdd(c, n, m.rcv.rcvWnd);
    assert e - n <= c.sndSize;
    if e < n {
      SeqAtLap(c, e, n);
      SeqAtLap(c, e, n + m.rcv.rcvWnd);
    } else {
      SeqAtDiff(c, e, n + m.rcv.rcvWnd);
    }
  }

  // The signed difference of an offset to a later one, less than a lap behind.
  lemma SeqAtLap(c: Config, x: int, y: int)
    requires -TWO32 < x - y < 0
    ensures SeqDiff(SeqAt(c, x), SeqAt(c, y)) == if -TWO31 <= x - y then x - y else x - y + TWO32
  {
    SeqAtGap(c, x, y, TWO32);
    assert (SeqAt(c, x) - SeqAt(c, y) + TWO32) % TWO32 == (SeqAt(c, x) - SeqAt(c, y)) % TWO32;
  }

  // It is written at its true offset, or not at all.
  lemma WritesAtTrueOffset(c: Config, m: Conn, g: Sent)
    requires c.Ok() && Inv(c, m) && SentInv(c, m.written, m.sent, g)
    requires InOrder(m) <= g.at + |g.seg.data| <= InOrder(m) + m.rcv.rcvWnd
    ensures var off := RingLaws.Seq2LoffSpec(m.rcv.ring.head, g.seg.sn, Wrap(m.rcv.irs + 1));
            if m.rcv.ring.head <= g.at then off == g.at else PWrite(m.rcv.ring, g.seg.data, off) == (m.rcv.ring, -1)
  {
    var isn := Wrap(c.iss + 1);
    WrapAdd(c.iss + 1, g.at);
    RingLaws.Seq2LoffRecovers(m.rcv.ring.head, g.at, isn);
    hide RingLaws.Seq2LoffSpec, Wrap, RunEnd;
    var off := RingLaws.Seq2LoffSpec(m.rcv.ring.head, g.seg.sn, isn);
    if g.at < m.rcv.ring.head && g.at < off {
      LapAhead(g.at, off);
    }
  }

  lemma LapAhead(x: int, y: int)
    requires x < y && (y - x) % TWO32 == 0
    ensures x + TWO32 <= y
  {
  }

  // The octets of the ring stay those of the stream, and the in-order end only moves forward.
  lemma RingKeeps(c: Config, m: Conn, g: Sent)
    requires c.Ok() && Inv(c, m) && SentInv(c, m.written, m.sent, g) && m.rcv.ring.head <= g.at
    ensures var (r', ret) := PWrite(m.rcv.ring, g.seg.data, g.at);
            && Wf(r') && r'.size == c.ringSize && r'.pile == m.rcv.ring.pile
            && (forall o :: o in r'.held ==> o < m.sent && r'.held[o] == m.written[o])
            && InOrder(m) <= InOrderEnd(r') <= m.sent
  {
    hide PWrite, RunEnd;
    PWriteWf(m.rcv.ring, g.seg.data, g.at);
    RingLaws.PWriteMeaning(m.rcv.ring, g.seg.data, g.at);
    var (r', ret) := PWrite(m.rcv.ring, g.seg.data, g.at);
    forall o | o in r'.held ensures o < m.sent && r'.held[o] == m.written[o] {
      if o !in m.rcv.ring.held {
        assert g.seg.data[o - g.at] == m.written[g.at..g.at + |g.seg.data|][o - g.at];
      }
    }
    var e := InOrderEnd(r');
    assert r'.head < e ==> e - 1 in r'.held;
  }

  // rcv_nxt follows the in-order end although it is compared with an unwrapped sum.
  lemma RcvNxtFollows(c: Config, n: int, n': int)
    requires 0 <= n <= n'
    ensures var isn := Wrap(c.iss + 1);
            (if n' > 0 && isn + n' > SeqAt(c, n) then Wrap(isn + n') else SeqAt(c, n)) == SeqAt(c, n')
  {
    WrapAdd(c.iss + 1, n);
    WrapAdd(c.iss + 1, n');
    assert Wrap(Wrap(c.iss + 1) + n) <= Wrap(c.iss + 1) + n;
  }

  // What ProcessTCPPayload needs of the ring it leaves behind.
  ghost predicate RingFits(c: Config, m: Conn, r': Ring)
    requires Wf(m.rcv.ring)
  {
    && Wf(r') && r'.size == c.ringSize && r'.pile == m.rcv.ring.pile
    && m.sent <= |m.written| && (forall o :: o in r'.held ==> o < m.sent && r'.held[o] == m.written[o])
    && InOrder(m) <= InOrderEnd(r') <= m.sent
  }

  lemma RingAfter(c: Config, m: Conn, g: Sent)
    requires c.Ok() && Inv(c, m) && SentInv(c, m.written, m.sent, g)
    requires InOrder(m) <= g.at + |g.seg.data| <= InOrder(m) + m.rcv.rcvWnd
    ensures var off := RingLaws.Seq2LoffSpec(m.rcv.ring.head, g.seg.sn, Wrap(m.rcv.irs + 1));
            RingFits(c, m, PWrite(m.rcv.ring, g.seg.data, off).0)
  {
    WritesAtTrueOffset(c, m, g);
    if m.rcv.ring.head <= g.at {
      RingKeeps(c, m, g);
    }
    hide PWrite, RingLaws.Seq2LoffSpec, Wrap, RunEnd;
  }

  // The receiver after a segment that may be delivered.
  lemma ReceiverAfter(c: Config, m: Conn, g: Sent)
    requires c.Ok() && Inv(c, m) && Ready(m, Receive(g)) && SentInv(c, m.written, m.sent, g)
    requires InOrder(m) + m.rcv.rcvWnd < g.at + |g.seg.data| + TWO32
    ensures var m' := m.(rcv := ProcessPayload(m.rcv, g.seg).0);
            ReceiverInv(c, m') && InOrder(m) <= InOrder(m')
  {
    hide PWrite, RunEnd, SeqDiff, Wrap, RingLaws.Seq2LoffSpec;
    var r' := ProcessPayload(m.rcv, g.seg).0;
    if r' != m.rcv {
      PassesWindow(c, m, g);
      RingAfter(c, m, g);
      RcvNxtFollows(c, InOrder(m), InOrderEnd(r'.ring));
    }
  }

  lemma ReceiveKeeps(c: Config, m: Conn, g: Sent)
    requires c.Ok() && Inv(c, m) && Ready(m, Receive(g)) && Enabled(c, m, Receive(g))
    ensures Inv(c, Next(c, m, Receive(g)))
  {
    assert SentInv(c, m.written, m.sent, g);
    ReceiverAfter(c, m, g);
    hide ReceiverInv, ProcessPayload, RunEnd, SentInv, ProcessAck, FlushAll, CopyToUser;
  }

  // ---------------------------------------------------------------- reading

  // The octets handed over are the stream's next ones.
  lemma ReadOut(c: Config, m: Conn, n: int)
    requires c.Ok() && ReceiverInv(c, m)
    ensures var (r', out) := CopyToUser(m.rcv, n); var p := m.rcv.ring.pile;
            && Wf(r'.ring) && InOrderEnd(r'.ring) == InOrder(m)
            && r' == m.rcv.(ring := m.rcv.ring.(pile := p + |out|), rcvWnd := r'.rcvWnd)
            && (r' == m.rcv || r'.rcvWnd == c.ringSize - (InOrder(m) - p - |out|))
            && p + |out| <= |m.written| && out == m.written[p..p + |out|]
  {
    var r := m.rcv.ring;
    if r.pile in r.held {
      RunEndSuffix(r, r.pile);
    }
  }

  lemma ReadKeeps(c: Config, m: Conn, n: int)
    requires c.Ok() && Inv(c, m) && Ready(m, Read(n))
    ensures Inv(c, Next(c, m, Read(n)))
  {
    ReadOut(c, m, n);
    hide CopyToUser, RunEnd, ProcessPayload, ProcessAck, FlushAll, PPeekLen, SentInv;
    var (r', out) := CopyToUser(m.rcv, n);
    var p := m.rcv.ring.pile;
    assert m.written[..p] + m.written[p..p + |out|] == m.written[..p + |out|];
  }

  // ---------------------------------------------------------------- every run

  lemma StepKeeps(c: Config, m: Conn, s: Step)
    requires c.Ok() && Inv(c, m) && Enabled(c, m, s)
    ensures Ready(m, s) && Inv(c, Next(c, m, s))
  {
    InvReady(c, m, s);
    match s
    case Write(bytes) => WriteKeeps(c, m, bytes);
    case FlushStep(maxlen, window, slots) => FlushKeeps(c, m, maxlen, window, slots);
    case TimeoutStep =>
    case Receive(g) => ReceiveKeeps(c, m, g);
    case SendAck(_, _, _) =>
    case ReceiveAck(a) => ReceiveAckKeeps(c, m, a);
    case Read(n) => ReadKeeps(c, m, n);
  }

  ghost predicate StepsTo(c: Config, m: Conn, s: Step, m': Conn) {
    m.rcv.ring.size >= 0 && Enabled(c, m, s) && (Ready(m, s) ==> m' == Next(c, m, s))
  }

  // A run: steps that are enabled, each taken as the code takes it.
  ghost predicate Run(c: Config, ms: seq<Conn>, ss: seq<Step>) {
    && |ms| == |ss| + 1 && Init(c, ms[0])
    && forall i :: 0 <= i < |ss| ==> StepsTo(c, ms[i], ss[i], ms[i + 1])
  }

  lemma {:induction false} RunInv(c: Config, ms: seq<Conn>, ss: seq<Step>, i: nat)
    requires c.Ok() && Run(c, ms, ss) && i < |ms|
    ensures Inv(c, ms[i])
  {
    if i == 0 {
      InitInv(c, ms[0]);
    } else {
      RunInv(c, ms, ss, i - 1);
      assert StepsTo(c, ms[i - 1], ss[i - 1], ms[i - 1 + 1]);
      StepKeeps(c, ms[i - 1], ss[i - 1]);
    }
  }

  // Prefix safety. In every run, whatever the network loses, repeats or reorders, the octets handed to the receiving
  // application are a prefix of the octets the sending application has put, and the sender has dropped only octets
  // below the receiver's in-order end. The next step finds snd_nxt old or within the buffer's reach.
  lemma PrefixSafety(c: Config, ms: seq<Conn>, ss: seq<Step>, i: nat)
    requires c.Ok() && Run(c, ms, ss) && i < |ms|
    ensures ms[i].delivered <= ms[i].written
    ensures 0 < ms[i].rcv.ring.size && ms[i].removed <= InOrder(ms[i]) <= |ms[i].written|
    ensures forall o :: |ms[i].delivered| <= o < InOrder(ms[i]) ==>
              o in ms[i].rcv.ring.held && ms[i].rcv.ring.held[o] == ms[i].written[o]
    ensures i < |ss| ==> Ready(ms[i], ss[i])
  {
    RunInv(c, ms, ss, i);
    if i < |ss| {
      assert StepsTo(c, ms[i], ss[i], ms[i + 1]);
      InvReady(c, ms[i], ss[i]);
    }
  }

  // ---------------------------------------------------------------- where fast retransmission may send snd_nxt

  // Whether this acknowledgement is counted as the third duplicate.
  predicate ThirdDuplicate(s: Sender, a: Ack) {
    var newer := SeqLt(s.sndWl1, a.sn) || (s.sndWl1 == a.sn && SeqLt(s.sndWl2, a.ack));
    && !SeqGt(a.ack, Wrap(s.headSeq + |s.sndbuf|))
    && SeqLt(a.ack, s.sndNxt) && a.ack == s.lastAck && a.payloadLen == 0
    && (newer ==> s.sndWl2 == a.ack)
    && s.dupAcks == 2
  }

  // snd_nxt stays at or above the first buffered octet, as FlushTCPSendingBuffer asserts, exactly when the
  // acknowledgement is not an old one counted as the third duplicate.
  lemma FastRetransmitStaysInBuffer(c: Config, m: Conn, a: Ack)
    requires c.Ok() && MayArrive(c, m, a) && Ready(m, ReceiveAck(a)) && m.removed <= m.nxt
    ensures var m' := Next(c, m, ReceiveAck(a));
            m'.removed <= m'.nxt <==> !(a.upTo < m.removed && ThirdDuplicate(m.snd, a))
  {
    hide Wrap, SeqDiff, SeqAt, RunEnd, FlushAll, ProcessPayload, CopyToUser, ProcessAck;
    AckSender(c, m, a);
    OldAckIgnored(c, m, a);
    if Age(m, a) <= TWO31 {
      AckCompares(c, m, a);
      AckOnBuffer(c, m, a);
      if a.upTo < m.nxt {
        ThirdDuplicateMoves(m.snd, a);
      }
    }
  }

  // Below snd_nxt, only the third duplicate moves snd_nxt to the acknowledged number.
  lemma ThirdDuplicateMoves(s: Sender, a: Ack)
    requires SeqLt(a.ack, s.sndNxt) && !SeqGt(a.ack, Wrap(s.headSeq + |s.sndbuf|))
    ensures ProcessAck(s, a.sn, a.ack, a.wnd, a.payloadLen).sndNxt == (if ThirdDuplicate(s, a) then a.ack else s.sndNxt)
  {
    SameEdge(a.wnd, s.sndWl2, a.ack);
    hide Wrap, DropAcked;
  }

  // The right window edge is unmoved exactly when the acknowledgement that moved it is the one that set it.
  lemma SameEdge(wnd: U32, wl2: U32, ack: U32)
    ensures Wrap(ack + wnd) == Wrap(wnd + wl2) <==> ack == wl2
    ensures Wrap(wl2 + wnd) == Wrap(wnd + wl2)
  {
  }

  // Four copies of one old acknowledgement are enough to send snd_nxt back below the send buffer.
  lemma OldDuplicatesPassTheBuffer()
    ensures var s := Sender([7], 101, 102, 101, 1000, 5000, 101, 101, 0);
            var once := ProcessAck(s, 5000, 91, 1000, 0);
            var third := ProcessAck(ProcessAck(once, 5000, 91, 1000, 0), 5000, 91, 1000, 0);
            var fourth := ProcessAck(third, 5000, 91, 1000, 0);
            once.sndNxt == 102 && fourth.sndNxt == 91 && SeqLt(fourth.sndNxt, fourth.headSeq)
  {
    var s := Sender([7], 101, 102, 101, 1000, 5000, 101, 101, 0);
    var s1 := ProcessAck(s, 5000, 91, 1000, 0);
    assert s1 == s.(lastAck := 91);
    var s2 := ProcessAck(s1, 5000, 91, 1000, 0);
    assert s2 == s1.(dupAcks := 1);
    var s3 := ProcessAck(s2, 5000, 91, 1000, 0);
    assert s3 == s1.(dupAcks := 2);
  }

  // What takes snd_nxt or snd_una back: an old third duplicate, and an acknowledgement exactly 2^31 octets old of a
  // sender with nothing buffered.
  ghost predicate GoesBack(m: Conn, s: Step) {
    s.ReceiveAck?
    && ((s.a.upTo < m.removed && ThirdDuplicate(m.snd, s.a)) || (m.snd.sndbuf == [] && Age(m, s.a) == TWO31))
  }

  lemma StaysInBuffer(c: Config, m: Conn, s: Step)
    requires c.Ok() && Inv(c, m) && Enabled(c, m, s) && Ready(m, s)
    requires m.una == m.removed <= m.nxt && !GoesBack(m, s)
    ensures var m' := Next(c, m, s); m'.una == m'.removed <= m'.nxt
  {
    hide ProcessAck, ProcessPayload, CopyToUser, FlushOne, ThirdDuplicate, Put, Wrap;
    match s
    case ReceiveAck(a) =>
      assert AckInv(c, InOrder(m), a);
      FastRetransmitStaysInBuffer(c, m, a);
      AckSender(c, m, a);
      UnaFollows(c, m, a);
    case FlushStep(maxlen, window, slots) => FlushOnlyAdvances(m, maxlen, window, slots);
    case _ =>
  }

  lemma {:induction false} FlushOnlyAdvances(m: Conn, maxlen: int, window: int, slots: nat)
    requires SndNxtInReach(m.snd)
    ensures var m' := FlushAll(m, maxlen, window, slots); (m'.una, m'.removed) == (m.una, m.removed) && m.nxt <= m'.nxt
    decreases slots
  {
    hide FlushOne;
    var g := FlushOne(m.snd, maxlen, window);
    if slots > 0 && g.Some? {
      FlushOnlyAdvances(SendOne(m, g.value), maxlen, window - |g.value.data|, slots - 1);
    }
  }

  // snd_una stays where the buffer starts, whatever acknowledgement arrives, exactly if it is not one 2^31 octets old
  // that meets an empty buffer.
  lemma UnaFollows(c: Config, m: Conn, a: Ack)
    requires c.Ok() && MayArrive(c, m, a) && Ready(m, ReceiveAck(a)) && m.una == m.removed
    ensures var m' := Next(c, m, ReceiveAck(a));
            && (m'.una == m'.removed <==> !(m.snd.sndbuf == [] && Age(m, a) == TWO31))
            && (a.upTo < m.removed ==> (m'.snd.sndUna == m.snd.sndUna <==> !(m.snd.sndbuf == [] && Age(m, a) == TWO31)))
  {
    hide Wrap, SeqDiff, SeqAt, RunEnd, FlushAll, ProcessPayload, CopyToUser, ProcessAck;
    AckSender(c, m, a);
    OldAckIgnored(c, m, a);
    if Age(m, a) <= TWO31 {
      AckCompares(c, m, a);
      AckOnBuffer(c, m, a);
    }
  }

  // Such an acknowledgement: everything is acknowledged up to 2^31 + 101, and number 101 arrives again.
  lemma IdleAckMovesUna()
    ensures var s := Sender([], 0x8000_0065, 0x8000_0065, 0x8000_0065, 1000, 5000, 0x8000_0065, 0x8000_0065, 0);
            var s' := ProcessAck(s, 5000, 101, 1000, 0);
            s'.sndUna == 101 && s'.headSeq == 0x8000_0065 && Timeout(s').sndNxt == 101
  {
    var s := Sender([], 0x8000_0065, 0x8000_0065, 0x8000_0065, 1000, 5000, 0x8000_0065, 0x8000_0065, 0);
    assert SeqDiff(101, 0x8000_0065) == -0x8000_0000 && SeqDiff(0x8000_0065, 101) == -0x8000_0000;
    assert SeqDiff(5000, 5000) == 0 && Wrap(0x8000_0065) == 0x8000_0065;
    hide SeqDiff, Wrap, CountAck;
    var counted := CountAck(s.(sndWl2 := 101), 101, 0, Wrap(1000 + 0x8000_0065));
    assert !SeqGt(101, counted.sndNxt) && ProcessAck(s, 5000, 101, 1000, 0) == DropAcked(counted, 101);
  }

  // In every run in which no step goes back, the assertion of FlushTCPSendingBuffer holds in every state: snd_nxt is at
  // or above the first buffered octet, as is snd_una.
  lemma {:induction false} NeverBelowBuffer(c: Config, ms: seq<Conn>, ss: seq<Step>, i: nat)
    requires c.Ok() && Run(c, ms, ss) && i < |ms|
    requires forall j :: 0 <= j < i ==> !GoesBack(ms[j], ss[j])
    ensures ms[i].una == ms[i].removed <= ms[i].nxt
  {
    hide GoesBack, Inv;
    if i > 0 {
      NeverBelowBuffer(c, ms, ss, i - 1);
      RunInv(c, ms, ss, i - 1);
      assert StepsTo(c, ms[i - 1], ss[i - 1], ms[i - 1 + 1]);
      InvReady(c, ms[i - 1], ss[i - 1]);
      StaysInBuffer(c, ms[i - 1], ss[i - 1]);
    }
  }
}
