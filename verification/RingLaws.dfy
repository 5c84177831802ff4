/** Laws of the receive ring that span several calls. */
module RingLaws {
  import opened Bytes
  import opened Fragments
  import opened RingSpec
  import opened SegmentedBuffer
  import TcpRingBuffer

  // tcprb_pwrite, offset by offset: which octets the ring holds afterwards and what they are.
  lemma PWriteMeaning(r: Ring, data: seq<Byte>, off: int)
    requires Wf(r) && Fits(r, |data|, off)
    ensures var (r', ret) := PWrite(r, data, off);
            && Wf(r') && r'.size == r.size && r'.pile == r.pile && r.head <= r'.head <= r.pile
            && -1 <= ret && (ret == -1 <==> off < r.head || r.pile + r.size <= off)
            && (forall o :: o in r.held && r'.head <= o ==> o in r'.held && r'.held[o] == r.held[o])
            && (0 <= ret ==> ret <= |data| && off + ret == Min(off + |data|, Max(off, r'.head + r.size)))
            && (forall o :: o in r'.held <==> r'.head <= o && (o in r.held || off <= o < off + ret))
            && (forall o :: off <= o < off + ret && o !in r.held ==> r'.held[o] == data[o - off])
            && (r'.head != r.head ==> off + ret == r'.head + r.size)
            && (0 <= ret && data != [] ==> r'.head == Max(r.head, Min(r.pile, off + |data| - r.size)))
  {
    PWriteWf(r, data, off);
    if r.head <= off < r.pile + r.size && 0 < |data| {
      if off + |data| < r.pile {
        AllHeld(r, off, |data|);
      } else {
        AcceptedInWindow(r, |data|, off);
        FillMeaning(FfHead(r, off + |data| - (r.head + r.size)).held, data, off, Accepted(r, |data|, off));
      }
    }
    hide RunEnd, Wf, Fill, Accepted;
  }

  // Below the read point everything is held.
  lemma AllHeld(r: Ring, off: int, n: int)
    requires Wf(r) && r.head <= off && off + n <= r.pile
    ensures forall o :: off <= o < off + n ==> o in r.held
  {
  }

  lemma FillMeaning(held: map<int, Byte>, data: seq<Byte>, off: int, n: int)
    requires 0 <= n <= |data|
    ensures var now := Fill(held, data, off, n);
            && (forall o :: o in now <==> o in held || off <= o < off + n)
            && (forall o :: o in now ==> now[o] == if o in held then held[o] else data[o - off])
  {
  }

  // What was just written and was missing before can be read back, all of it at once.
  lemma WriteThenPeek(r: Ring, data: seq<Byte>, off: int)
    requires Wf(r) && Fits(r, |data|, off) && PWrite(r, data, off).1 > 0
    ensures var (r', n) := PWrite(r, data, off);
            && PPeekLen(r', n, off) == n
            && forall k :: 0 <= k < n ==> off + k in r'.held && (off + k !in r.held ==> r'.held[off + k] == data[k])
  {
    PWriteMeaning(r, data, off);
    var (r', n) := PWrite(r, data, off);
    assert off in r'.held by {
      if off + |data| >= r.pile { AcceptedInWindow(r, |data|, off); }
    }
    assert r'.head <= off;
    var e := RunEnd(r'.held, off, r'.head + r'.size);
    assert off <= e < off + n ==> e in r'.held;
    forall k | 0 <= k < n ensures off + k in r'.held && (off + k !in r.held ==> r'.held[off + k] == data[k]) {
      assert off <= off + k < off + n;
    }
  }

  // The read point is in the first fragment or at the head of the window.
  lemma PileInFirstFragment(r: Ring, fs: seq<Frag>)
    requires Wf(r) && TcpRingBuffer.Represents(fs, r)
    ensures r.pile == r.head || (fs != [] && fs[0].head == r.head && r.pile <= fs[0].tail)
  {
    TcpRingBuffer.InOrderEndIsFirstTail(r, fs);
  }

  // A segment of a stream: the octets of [off, off + len).
  datatype Seg = Seg(off: int, len: int)

  function Cut(s: int -> Byte, g: Seg): (d: seq<Byte>)
    requires 0 <= g.len
    ensures |d| == g.len && forall k :: 0 <= k < g.len ==> d[k] == s(g.off + k)
  {
    seq(g.len, k => s(g.off + k))
  }

  ghost predicate InWindow(r: Ring, g: Seg) {
    0 < g.len < r.size && r.head <= g.off && g.off + g.len <= r.head + r.size
  }

  ghost predicate Reaches(gs: seq<Seg>, o: int) {
    exists i :: 0 <= i < |gs| && gs[i].off <= o < gs[i].off + gs[i].len
  }

  // The segments of one stream, written one after the other.
  ghost function WriteAll(r: Ring, s: int -> Byte, gs: seq<Seg>): (r': Ring)
    requires Wf(r) && forall i :: 0 <= i < |gs| ==> InWindow(r, gs[i])
    ensures Wf(r') && r'.size == r.size
    decreases |gs|
  {
    if gs == [] then r
    else
      var g := gs[|gs| - 1];
      assert InWindow(r, g);
      var r' := WriteAll(r, s, gs[..|gs| - 1]);
      PWriteWf(r', Cut(s, g), g.off);
      PWrite(r', Cut(s, g), g.off).0
  }

  lemma InWindowMeaning(r: Ring, s: int -> Byte, g: Seg)
    requires Wf(r) && InWindow(r, g)
    ensures var r' := PWrite(r, Cut(s, g), g.off).0;
            && Wf(r') && (r'.size, r'.head, r'.pile) == (r.size, r.head, r.pile)
            && (forall o :: o in r'.held <==> o in r.held || g.off <= o < g.off + g.len)
            && (forall o :: o in r'.held ==> r'.held[o] == if o in r.held then r.held[o] else s(o))
  {
    hide PWrite, RunEnd;
    PWriteMeaning(r, Cut(s, g), g.off);
  }

  // In-window segments never move the window; the ring ends up with the union of what they carry.
  lemma {:induction false} WriteAllMeaning(r: Ring, s: int -> Byte, gs: seq<Seg>)
    requires Wf(r) && forall i :: 0 <= i < |gs| ==> InWindow(r, gs[i])
    ensures var r' := WriteAll(r, s, gs);
            && (r'.head, r'.pile) == (r.head, r.pile)
            && (forall o :: o in r'.held <==> o in r.held || Reaches(gs, o))
            && (forall o :: o in r'.held ==> r'.held[o] == if o in r.held then r.held[o] else s(o))
    decreases |gs|
  {
    hide PWrite, RunEnd, Reaches, Cut;
    if gs == [] {
      NoneReach();
    } else {
      var gs', g := gs[..|gs| - 1], gs[|gs| - 1];
      WriteAllMeaning(r, s, gs');
      var r' := WriteAll(r, s, gs');
      assert InWindow(r, g);
      InWindowMeaning(r', s, g);
      forall o ensures Reaches(gs, o) <==> Reaches(gs', o) || g.off <= o < g.off + g.len {
        ReachesSnoc(gs', g, o);
        assert gs == gs' + [g];
      }
    }
  }

  lemma NoneReach()
    ensures forall o :: !Reaches([], o)
  {
  }

  lemma ReachesSnoc(gs: seq<Seg>, g: Seg, o: int)
    ensures Reaches(gs + [g], o) <==> Reaches(gs, o) || g.off <= o < g.off + g.len
  {
    if Reaches(gs, o) {
      var i :| 0 <= i < |gs| && gs[i].off <= o < gs[i].off + gs[i].len;
      assert (gs + [g])[i] == gs[i];
    }
    if g.off <= o < g.off + g.len {
      assert (gs + [g])[|gs|] == g;
    }
  }

  // Any order, any overlap: two ways to send the same octets of one stream give the same window ...
  lemma OrderIndependent(r: Ring, s: int -> Byte, gs: seq<Seg>, gs': seq<Seg>)
    requires Wf(r)
    requires forall i :: 0 <= i < |gs| ==> InWindow(r, gs[i])
    requires forall i :: 0 <= i < |gs'| ==> InWindow(r, gs'[i])
    requires forall o :: Reaches(gs, o) <==> Reaches(gs', o)
    ensures WriteAll(r, s, gs) == WriteAll(r, s, gs')
  {
    hide RunEnd, WriteAll, Reaches;
    WriteAllMeaning(r, s, gs);
    WriteAllMeaning(r, s, gs');
    assert WriteAll(r, s, gs).held == WriteAll(r, s, gs').held;
  }

  // ... and one window has one fragment list.
  lemma OneListPerWindow(r: Ring, fs: seq<Frag>, fs': seq<Frag>)
    requires TcpRingBuffer.Represents(fs, r) && TcpRingBuffer.Represents(fs', r)
    ensures fs == fs'
  {
    CanonicalUnique(fs, fs', r.head, r.head + r.size);
  }

  // tcprb_cflen plus the read point is the first offset that no segment has brought yet.
  lemma InOrderEndOfSegments(r: Ring, s: int -> Byte, gs: seq<Seg>)
    requires Wf(r) && r.held == map[] && forall i :: 0 <= i < |gs| ==> InWindow(r, gs[i])
    ensures var r' := WriteAll(r, s, gs);
            var e := r'.pile + CfLen(r');
            && (forall o :: r.head <= o < e ==> Reaches(gs, o))
            && (e < r.head + r.size ==> !Reaches(gs, e))
  {
    WriteAllMeaning(r, s, gs);
  }

  // seq2loff, as one expression: the least offset from `head` on that has this sequence number.
  function Seq2LoffSpec(head: int, sn: U32, isn: U32): int {
    var off := Wrap(sn - isn);
    if head <= off then off else head + Wrap(off - head)
  }

  method Seq2Loff(head: int, sn: U32, isn: U32) returns (off: int)
    ensures off == Seq2LoffSpec(head, sn, isn)
  {
    off := Wrap(sn - isn);
    ghost var first: int := off;
    while off < head
      invariant first <= off && (off == first || off < head + TWO32) && (off - first) % TWO32 == 0
      decreases head - off
    {
      off := off + 0x1_0000_0000;
    }
    if first < head {
      assert (off - head) % TWO32 == (first - head) % TWO32;
    }
  }

  // The true offset comes back exactly when it lies in the 2^32 offsets from `head` on.
  lemma Seq2LoffRecovers(head: int, o: int, isn: U32)
    requires 0 <= head && 0 <= o
    ensures Seq2LoffSpec(head, Wrap(isn + o), isn) == o <==> head <= o < head + TWO32
    ensures o < head ==> (Seq2LoffSpec(head, Wrap(isn + o), isn) - o) % TWO32 == 0
    ensures head <= Seq2LoffSpec(head, Wrap(isn + o), isn)
  {
    IsnCancels(o, isn);
    LapsToHead(head, o);
    hide Wrap;
  }

  lemma IsnCancels(o: int, isn: U32)
    requires 0 <= o
    ensures Wrap(Wrap(isn + o) - isn) == Wrap(o)
  {
    var n: int := isn;
    WrapAdd(n + o, -n);
  }

  lemma LapsToHead(head: int, o: int)
    requires 0 <= head && 0 <= o
    ensures var r := if head <= Wrap(o) then Wrap(o) else head + Wrap(Wrap(o) - head);
            (r == o <==> head <= o < head + TWO32) && (o < head ==> (r - o) % TWO32 == 0) && head <= r
  {
    WrapAdd(o, -head);
    var q := o / TWO32;
    assert o == TWO32 * q + Wrap(o);
    if head > Wrap(o) {
      var p := (o - head) / TWO32;
      assert o - head == TWO32 * p + Wrap(o - head);
    }
  }

  // Where one memcpy of the macro would have to end when both ends of the span share a segment.
  predicate OneCopyFits(from: int, n: int) {
    from % UNITBUFSIZE + n <= UNITBUFSIZE
  }

  // buf_rw copies inside its segments for every span shorter than the ring. For the full ring the two ends
  // coincide, so it takes the one-segment branch, which fits only if the ring is that one segment, read from its start.
  lemma BufRwSpan(segments: int, from: int, n: int)
    requires 0 < segments && 0 <= from < segments * UNITBUFSIZE && 0 <= n <= segments * UNITBUFSIZE
    ensures var len := segments * UNITBUFSIZE;
            var to := if from + n < len then from + n else from + n - len;
            var oneCopy := !(from > to) && from / UNITBUFSIZE == to / UNITBUFSIZE;
            (oneCopy ==> OneCopyFits(from, n)) <==> n < len || (segments == 1 && from == 0)
  {
  }

  // Peeks come to such a span exactly for a full ring whose read point is at its head, and a read of all of it.
  lemma FullRingPeek(r: Ring, n: int)
    requires Wf(r)
    ensures PPeekLen(r, n, r.pile) == r.size <==>
            r.size <= n && r.pile == r.head && forall o :: r.head <= o < r.head + r.size ==> o in r.held
    ensures PPeekLen(r, n, r.pile) <= r.size
  {
    var e := RunEnd(r.held, r.pile, r.head + r.size);
    if r.size <= n && r.pile == r.head && forall o :: r.head <= o < r.head + r.size ==> o in r.held {
      RunEndUnique(r.held, r.head, r.head + r.size, r.head + r.size);
    }
  }

  // An input, for a ring of any size above one: all it holds comes in two segments, the first octet last. Then a read
  // of the whole ring comes to the full span.
  lemma FullRingReached(data: seq<Byte>)
    requires 1 < |data|
    ensures Wf(New(|data|)) && Wf(PWrite(New(|data|), data[1..], 1).0)
    ensures var r := PWrite(PWrite(New(|data|), data[1..], 1).0, data[..1], 0).0;
            && Wf(r) && r.size == |data| && PPeekLen(r, |data|, r.pile) == |data|
            && forall o :: 0 <= o < |data| ==> o in r.held && r.held[o] == data[o]
  {
    hide RunEnd;
    var r0 := New(|data|);
    EmptyWf(|data|);
    PWriteMeaning(r0, data[1..], 1);
    var r1 := PWrite(r0, data[1..], 1).0;
    PWriteMeaning(r1, data[..1], 0);
    FullRingPeek(PWrite(r1, data[..1], 0).0, |data|);
  }

  lemma EmptyWf(size: int)
    requires 0 < size
    ensures Wf(New(size))
  {
  }
}
