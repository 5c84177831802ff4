/** The TCP receive ring: a sorted fragment list over a segmented, modulo-indexed byte store. */
module TcpRingBuffer {
  import opened Bytes
  import opened Fragments
  import opened Modular
  import opened RingSpec
  import opened SegmentedBuffer

  // Where the scan of the fragment list stops for the next octet of a payload.
  datatype Hit = Skip | Right | Left | Nowhere

  // Two offsets of one window are as far apart round the ring as they are in the stream.
  lemma DistOfOffsets(o: int, off: int, n: int)
    requires 0 < n && -n < o - off < n
    ensures Dist(o % n, off % n, n) == if off <= o then o - off else o - off + n
  {
    var d := if off <= o then o - off else o - off + n;
    ModAdd(off, d, n);
    if o < off {
      ModAdd(o, n, n);
      assert o + n == off + d;
    }
  }

  // The fragment list is canonical and says exactly which octets of the window are held.
  ghost predicate Represents(fs: seq<Frag>, r: Ring) {
    && Canonical(fs, r.head, r.head + r.size)
    && forall o :: o in r.held <==> Covers(fs, o)
  }

  // The list and the held offsets agree on the in-order end.
  lemma InOrderEndIsFirstTail(r: Ring, fs: seq<Frag>)
    requires 0 < r.size && Represents(fs, r)
    ensures InOrderEnd(r) == if fs != [] && fs[0].head == r.head then fs[0].tail else r.head
  {
    if fs != [] && fs[0].head == r.head {
      RunEndIsTail(r, fs, 0, r.head);
    } else {
      assert !Covers(fs, r.head);
      RunEndUnique(r.held, r.head, r.head + r.size, r.head);
    }
  }

  // The run of held offsets from inside fragment i ends at that fragment's tail.
  lemma RunEndIsTail(r: Ring, fs: seq<Frag>, i: int, off: int)
    requires 0 < r.size && Represents(fs, r)
    requires 0 <= i < |fs| && fs[i].head <= off < fs[i].tail
    ensures RunEnd(r.held, off, r.head + r.size) == fs[i].tail
  {
    forall o | off <= o < fs[i].tail ensures o in r.held {
      assert Covers(fs, o);
    }
    var t := fs[i].tail;
    assert !Covers(fs, t) by {
      forall j | 0 <= j < |fs| ensures !(fs[j].head <= t < fs[j].tail) {}
    }
    RunEndUnique(r.held, off, r.head + r.size, t);
  }

  // Dropping what was read keeps list and window in step.
  lemma CutRepresents(r: Ring, fs: seq<Frag>, n: int, ff: int)
    requires Wf(r) && Represents(fs, r) && fs != [] && fs[0].head == r.head && 0 < n
    requires ff == Min(Min(n, fs[0].tail - fs[0].head), r.pile - r.head)
    ensures ff == FfLen(r, n) && 0 <= ff <= fs[0].tail - fs[0].head
    ensures Represents(CutFirst(fs, ff), FfHead(r, n)) && Wf(FfHead(r, n))
  {
    FfHeadWf(r, n);
    InOrderEndIsFirstTail(r, fs);
    CutFirstCanonical(fs, ff, r.head + r.size, r.head + ff + r.size);
    CutFirstCovers(fs, ff, r.head + r.size);
  }

  // Without a fragment at the head the application has read everything there is: nothing to drop.
  lemma NoCutAtHead(r: Ring, fs: seq<Frag>, n: int)
    requires Wf(r) && Represents(fs, r) && (fs == [] || fs[0].head != r.head || n <= 0)
    ensures FfLen(r, n) == 0 && FfHead(r, n) == r
  {
    InOrderEndIsFirstTail(r, fs);
  }

  // Every octet of `held` is in the store, at its offset modulo the ring.
  ghost predicate StoredIn(flat: map<int, Byte>, held: map<int, Byte>, lo: int, len: int)
    requires 0 < len
  {
    forall o {:trigger o in held} :: o in held ==> lo <= o < lo + len && o % len in flat && flat[o % len] == held[o]
  }

  // A list that covers n octets more stands for the window filled with them.
  lemma FillRepresents(r: Ring, fs: seq<Frag>, data: seq<Byte>, at: int, n: int)
    requires 0 <= n <= |data| && Canonical(fs, r.head, r.head + r.size)
    requires forall o :: Covers(fs, o) <==> o in r.held || at <= o < at + n
    ensures Represents(fs, r.(held := Fill(r.held, data, at, n)))
  {
  }

  lemma StoredShrinks(flat: map<int, Byte>, held: map<int, Byte>, lo: int, moved: Ring, len: int)
    requires 0 < len && lo <= moved.head && StoredIn(flat, held, lo, len) && Wf(moved)
    requires forall o :: o in moved.held ==> o in held && moved.held[o] == held[o]
    ensures StoredIn(flat, moved.held, moved.head, len)
  {
    hide RunEnd;
  }

  // Writing missing octets of one window at their ring positions stores them beside the held ones.
  lemma WriteStores(was: map<int, Byte>, now: map<int, Byte>, held: map<int, Byte>, data: seq<Byte>, at: int, lo: int,
                    len: int)
    requires 0 < |data| < len && lo <= at && at + |data| <= lo + len
    requires StoredIn(was, held, lo, len)
    requires forall o :: at <= o < at + |data| ==> o !in held
    requires WrittenTo(was, now, data, at % len, |data|, len)
    ensures StoredIn(now, Fill(held, data, at, |data|), lo, len)
  {
    forall o | o in Fill(held, data, at, |data|)
      ensures lo <= o < lo + len && o % len in now && now[o % len] == Fill(held, data, at, |data|)[o]
    {
      DistOfOffsets(o, at, len);
      OctetStored(was, now, held, data, at, len, o, o % len, at % len);
    }
  }

  // One octet of WriteStores, at ring position p.
  lemma OctetStored(was: map<int, Byte>, now: map<int, Byte>, held: map<int, Byte>, data: seq<Byte>, at: int, len: int,
                    o: int, p: int, start: int)
    requires WrittenTo(was, now, data, start, |data|, len) && 0 <= p < len
    requires forall x :: at <= x < at + |data| ==> x !in held
    requires -len < o - at < len && (o < at ==> at + |data| <= o + len)
    requires Dist(p, start, len) == if at <= o then o - at else o - at + len
    requires o in held ==> p in was && was[p] == held[o]
    requires o in Fill(held, data, at, |data|)
    ensures p in now && now[p] == Fill(held, data, at, |data|)[o]
  {
  }

  // What a read from the position of `off` returns are the held octets from `off` on.
  lemma ReadStored(flat: map<int, Byte>, held: map<int, Byte>, out: seq<Byte>, off: int, lo: int, len: int)
    requires 0 < len && |out| < len && lo <= off && off + |out| <= lo + len
    requires StoredIn(flat, held, lo, len) && MatchesIn(flat, out, off % len, len)
    requires forall o :: off <= o < off + |out| ==> o in held
    ensures forall k :: 0 <= k < |out| ==> out[k] == held[off + k]
  {
    forall k | 0 <= k < |out| ensures out[k] == held[off + k] {
      assert off + k in held;
      DistOfOffsets(off + k, off, len);
      OctetRead(flat, out, off % len, len, (off + k) % len, k);
    }
  }

  lemma OctetRead(flat: map<int, Byte>, out: seq<Byte>, start: int, len: int, p: int, k: int)
    requires MatchesIn(flat, out, start, len) && 0 <= p < len && 0 <= k < |out| && Dist(p, start, len) == k
    ensures p in flat && out[k] == flat[p]
  {
  }

  class TcpRb {
    const len: int
    const store: SegBuf
    var head: int
    var pile: int
    var frags: seq<Frag>
    ghost var A: Ring         // the window this ring stands for

    ghost predicate Stores(held: map<int, Byte>, lo: int)
      reads this, store, store.segs
    {
      store.Valid() && len == store.Positions() && StoredIn(store.flat, held, lo, len)
    }

    ghost predicate Valid()
      reads this, store, store.segs
    {
      && A == Ring(len, head, pile, A.held) && Wf(A)
      && Represents(frags, A)
      && Stores(A.held, head)
    }

    // tcprb_new
    constructor (segments: nat)
      requires segments > 0
      ensures Valid() && A == New(segments * UNITBUFSIZE)
      ensures fresh(store)
    {
      store := new SegBuf(segments);
      len := segments * UNITBUFSIZE;
      head, pile, frags := 0, 0, [];
      A := New(segments * UNITBUFSIZE);
    }

    // loff2boff
    function Loff2Boff(loff: int): (b: int)
      requires len > 0
      reads this`head
    {
      var woff := loff - head;
      if woff < 0 || woff > len then -1 else loff % len
    }

    // buf_write of missing octets that the list already accounts for; none that is held changes.
    method Put(data: seq<Byte>, at: int)
      requires A == Ring(len, head, pile, A.held) && Wf(A) && Stores(A.held, head)
      requires 0 < |data| < len && head <= at && at + |data| <= head + len
      requires Canonical(frags, head, head + len)
      requires forall o :: Covers(frags, o) <==> o in A.held || at <= o < at + |data|
      requires forall o :: at <= o < at + |data| ==> o !in A.held
      modifies store, store.segs, this`A
      ensures Valid() && store.Appends()
      ensures A == old(A).(held := Fill(old(A.held), data, at, |data|))
    {
      hide Wf, RunEnd, Represents, StoredIn, Fill, Canonical, Covers, WrittenTo;
      ModAdd(at, |data|, len);
      ghost var was := store.flat;
      store.BufWrite(data, Loff2Boff(at), Loff2Boff(at + |data|));
      WriteStores(was, store.flat, A.held, data, at, head, len);
      FillWf(A, data, at, |data|);
      FillRepresents(A, frags, data, at, |data|);
      A := A.(held := Fill(A.held, data, at, |data|));
    }

    method CfLen() returns (n: int)
      requires Valid()
      ensures n == RingSpec.CfLen(A)
    {
      InOrderEndIsFirstTail(A, frags);
      if frags == [] || frags[0].head != head {
        return 0;
      }
      n := frags[0].tail - pile;
      assert n >= 0;
    }

    method SetPile(to: int) returns (ok: bool)
      requires Valid()
      modifies this
      ensures Valid() && (A, ok) == RingSpec.SetPile(old(A), to) && frags == old(frags)
    {
      InOrderEndIsFirstTail(A, frags);
      assert frags != [] && frags[0].head == head ==> Covers(frags, head);
      if to > head + len || to < head {
        return false;
      }
      if frags == [] || frags[0].head != head {
        assert pile == head;
        assert !Covers(frags, head);
        return false;
      }
      if to > frags[0].tail {
        return false;
      }
      pile := to;
      A := A.(pile := to);
      ok := true;
    }

    method FfHead(n: int) returns (ff: int)
      requires Valid()
      modifies this
      ensures Valid() && A == RingSpec.FfHead(old(A), n) && ff == FfLen(old(A), n)
    {
      if n <= 0 || frags == [] || frags[0].head != head {
        NoCutAtHead(A, frags, n);
        return 0;
      }
      var cflen := frags[0].tail - frags[0].head;
      ff := Min(n, cflen);
      ff := Min(ff, pile - head);
      CutRepresents(A, frags, n, ff);
      MoveHead(ff, RingSpec.FfHead(A, n));
    }

    // The window drops its first ff octets, all of them in the first fragment.
    method MoveHead(ff: int, ghost moved: Ring)
      requires Valid() && frags != [] && Represents(CutFirst(frags, ff), moved) && Wf(moved)
      requires moved == Ring(len, head + ff, pile, moved.held) && 0 <= ff
      requires forall o :: o in moved.held ==> o in A.held && moved.held[o] == A.held[o]
      modifies this
      ensures Valid() && A == moved
    {
      hide Represents, StoredIn, CutFirst, RunEnd, Wf;
      StoredShrinks(store.flat, A.held, head, moved, len);
      frags := CutFirst(frags, ff);
      head := head + ff;
      A := moved;
    }

    // The scan of the fragment list for the octet at `at`, from position `start` on (-1: no fragment).
    method Locate(start: int, at: int, end: int) returns (f: int, hit: Hit)
      requires Canonical(frags, head, head + len)
      requires if start == -1 then frags == [] else 0 <= start < |frags|
      requires forall i :: 0 <= i < start ==> frags[i].tail < at
      ensures if hit == Nowhere then f == -1 else 0 <= f < |frags|
      ensures hit == Skip ==> frags[f].head <= at < frags[f].tail
      ensures hit == Right ==> frags[f].tail == at
      ensures hit == Left ==> at < frags[f].head <= end && (0 < f ==> frags[f - 1].tail < at)
      ensures hit == Nowhere ==> forall i :: 0 <= i < |frags| ==> frags[i].tail < at || end < frags[i].head
    {
      f := start;
      while f != -1
        invariant f == -1 || 0 <= f < |frags|
        invariant forall i :: 0 <= i < (if f == -1 then |frags| else f) ==> frags[i].tail < at
        decreases if f == -1 then 0 else |frags| - f
      {
        if frags[f].head <= at {
          if frags[f].tail > at {
            return f, Skip;
          } else if frags[f].tail == at {
            return f, Right;
          }
        } else if frags[f].head <= end {
          return f, Left;
        } else {
          return -1, Nowhere;
        }
        f := if f + 1 < |frags| then f + 1 else -1;
      }
      hit := Nowhere;
    }

    // frags_insert
    method FragsInsert(f: Frag)
      requires Canonical(frags, head, head + len) && head <= f.head < f.tail <= head + len
      requires forall i :: 0 <= i < |frags| ==> frags[i].tail < f.head || f.tail < frags[i].head
      modifies this`frags
      ensures Canonical(frags, head, head + len)
      ensures forall o :: Covers(frags, o) <==> old(Covers(frags, o)) || f.head <= o < f.tail
      ensures forall o :: f.head <= o < f.tail ==> !old(Covers(frags, o))
    {
      var walk := 0;
      while walk < |frags| && frags[walk].head <= f.head
        invariant 0 <= walk <= |frags|
        invariant forall i :: 0 <= i < walk ==> frags[i].head <= f.head
      {
        walk := walk + 1;
      }
      InsertCovers(frags, walk, f, head, head + len);
      frags := frags[..walk] + [f] + frags[walk..];
    }

    // tcprb_ppeek: the octets held from `off` on, up to `n` of them and up to the end of their fragment.
    method PPeek(n: int, off: int) returns (ret: int, out: seq<Byte>)
      requires Valid() && PPeekLen(A, n, off) < len
      modifies store
      ensures Valid() && A == old(A) && frags == old(frags) && store.Appends()
      ensures ret == PPeekLen(A, n, off) && |out| == Max(0, ret)
      ensures Peeked(A.held, off, out)
    {
      if n < 0 {
        return -1, [];
      } else if n == 0 {
        return 0, [];
      }
      var f := 0;
      while f < |frags| && !(frags[f].head <= off < frags[f].tail)
        invariant 0 <= f <= |frags|
        invariant forall i :: 0 <= i < f ==> !(frags[i].head <= off < frags[i].tail)
      {
        f := f + 1;
      }
      if f == |frags| {
        assert !Covers(frags, off);
        return -1, [];
      }
      assert Covers(frags, off);
      RunEndIsTail(A, frags, f, off);
      ret := Min(n, frags[f].tail - off);
      out := Get(ret, off);
    }

    // buf_read of n held octets from `off` on.
    method Get(n: int, off: int) returns (out: seq<Byte>)
      requires Valid() && 0 < n < len && head <= off && off + n <= head + len
      requires forall o :: off <= o < off + n ==> o in A.held
      modifies store
      ensures Valid() && |out| == n && store.Appends()
      ensures forall k :: 0 <= k < n ==> out[k] == A.held[off + k]
    {
      ModAdd(off, n, len);
      out := store.BufRead(n, Loff2Boff(off), Loff2Boff(off + n));
      ReadStored(store.flat, A.held, out, off, head, len);
    }

    // tcprb_pwrite
    method PWrite(data: seq<Byte>, off: int) returns (ret: int)
      requires Valid() && Fits(A, |data|, off)
      modifies this, store, store.segs
      ensures Valid() && (A, ret) == RingSpec.PWrite(old(A), data, off) && store.Appends()
    {
      hide Wf, RunEnd, Represents, StoredIn, Fill;
      var n := |data|;
      if off < head || off >= pile + len {
        return -1;
      } else if n == 0 {
        return 0;
      } else if off + n < pile {
        return n;
      }
      AcceptedInWindow(A, n, off);
      var ff := off + n - (head + len);
      if ff > 0 {
        var moved := FfHead(ff);
        n := n - (ff - moved);
      } else {
        NoCutAtHead(A, frags, ff);
      }
      WriteAccepted(data, off, n);
      ret := n;
    }

    // The payload's next octet is the one after 'f': 'f' grows up to the payload's end or its neighbour.
    method ExtendRight(f: int, at: int, room: int) returns (wrlen: int)
      requires Canonical(frags, head, head + len) && 0 <= f < |frags| && frags[f].tail == at
      requires 0 < room && at + room <= head + len
      modifies this`frags
      ensures Canonical(frags, head, head + len) && 0 < wrlen <= room
      ensures forall o :: Covers(frags, o) <==> old(Covers(frags, o)) || at <= o < at + wrlen
      ensures forall o :: at <= o < at + wrlen ==> !old(Covers(frags, o))
      ensures f < |frags| && frags[f].head <= at + wrlen <= frags[f].tail
    {
      wrlen := if f + 1 < |frags| then Min(frags[f + 1].head - at, room) else room;
      GrowRightCovers(frags, f, wrlen, head, head + len);
      frags := GrowRight(frags, f, wrlen);
    }

    // The payload starts before 'f': 'f' grows down to the payload's next octet.
    method ExtendLeft(f: int, at: int, room: int) returns (wrlen: int)
      requires Canonical(frags, head, head + len) && 0 <= f < |frags| && at < frags[f].head <= at + room
      requires head <= at && (0 < f ==> frags[f - 1].tail < at)
      modifies this`frags
      ensures Canonical(frags, head, head + len) && 0 < wrlen <= room
      ensures forall o :: Covers(frags, o) <==> old(Covers(frags, o)) || at <= o < at + wrlen
      ensures forall o :: at <= o < at + wrlen ==> !old(Covers(frags, o))
      ensures f < |frags| && frags[f].head <= at + wrlen <= frags[f].tail
    {
      wrlen := Min(frags[f].head - at, room);
      GrowLeftCovers(frags, f, wrlen, head, head + len);
      frags := GrowLeft(frags, f, wrlen);
    }

    // The list part of one pass: the scan from fragment f, and what it does to the list.
    // `wrlen` octets from off + uoff on are accounted for; `skip` says they were held before.
    method ListStep(start: int, off: int, uoff: int, n: int) returns (f: int, wrlen: int, skip: bool)
      requires Represents(frags, A) && A.head == head && A.size == len && 0 < len
      requires 0 <= uoff < n && head <= off && off + n <= head + len
      requires if uoff == 0 then start == (if frags == [] then -1 else 0)
               else 0 <= start < |frags| && frags[start].head <= off + uoff <= frags[start].tail
      modifies this`frags
      ensures Canonical(frags, head, head + len)
      ensures 0 < wrlen && (!skip ==> uoff + wrlen <= n)
      ensures forall o :: Covers(frags, o) <==> o in A.held || off + uoff <= o < off + uoff + wrlen
      ensures forall o :: off + uoff <= o < off + uoff + wrlen ==> (skip <==> o in A.held)
      ensures uoff + wrlen < n ==> 0 <= f < |frags| && frags[f].head <= off + uoff + wrlen <= frags[f].tail
    {
      hide Covers, Canonical;
      EarlierEnd(frags, head, head + len, start, off + uoff);
      var hit;
      f, hit := Locate(start, off + uoff, off + n);
      skip := hit == Skip;
      match hit {
        case Skip =>
          wrlen := frags[f].tail - (off + uoff);
          InFragment(frags, f);
        case Right =>
          wrlen := ExtendRight(f, off + uoff, n - uoff);
        case Left =>
          wrlen := ExtendLeft(f, off + uoff, n - uoff);
        case Nowhere =>
          assert uoff == 0;
          wrlen := n;
          FragsInsert(Frag(off, off + n));
      }
    }

    // One pass of the write loop.
    method WriteStep(start: int, data: seq<Byte>, off: int, uoff: int, n: int)
      returns (f: int, wrlen: int, ghost piece: seq<Byte>)
      requires Valid()
      requires 0 <= uoff < n <= |data| && n < len && head <= off && off + n <= head + len
      requires if uoff == 0 then start == (if frags == [] then -1 else 0)
               else 0 <= start < |frags| && frags[start].head <= off + uoff <= frags[start].tail
      modifies this, store, store.segs
      ensures Valid() && 0 < wrlen
      ensures |piece| == Min(wrlen, n - uoff) && piece == data[uoff..uoff + |piece|]
      ensures A == old(A).(held := Fill(old(A.held), piece, off + uoff, |piece|))
      ensures uoff + wrlen < n ==> 0 <= f < |frags| && frags[f].head <= off + uoff + wrlen <= frags[f].tail
      ensures store.Appends()
    {
      hide Fill, RunEnd, StoredIn, Canonical, Covers;
      var skip;
      f, wrlen, skip := ListStep(start, off, uoff, n);
      if skip {
        piece := data[uoff..uoff + Min(wrlen, n - uoff)];
        FillHeld(A.held, piece, off + uoff, |piece|);
      } else {
        piece := data[uoff..uoff + wrlen];
        Put(data[uoff..uoff + wrlen], off + uoff);
      }
    }

    // The write loop: data[..n] goes to `off`, octets that are held already are skipped.
    method WriteAccepted(data: seq<Byte>, off: int, n: int)
      requires Valid() && 0 < n <= |data| && n < len && head <= off && off + n <= head + len
      modifies this, store, store.segs
      ensures Valid() && A == old(A).(held := Fill(old(A.held), data, off, n)) && store.Appends()
    {
      hide Fill, RunEnd, StoredIn, Represents, Wf, Canonical, Covers;
      ghost var was := A;
      ghost var done := 0;
      var f := if frags == [] then -1 else 0;
      var uoff := 0;
      FillHeld(was.held, data, off, 0);
      while uoff < n
        invariant 0 <= uoff && done == Min(uoff, n)
        invariant Valid() && A == was.(held := Fill(was.held, data, off, done))
        invariant uoff == 0 ==> f == if frags == [] then -1 else 0
        invariant 0 < uoff < n ==> 0 <= f < |frags| && frags[f].head <= off + uoff <= frags[f].tail
        invariant store.Appends()
        decreases n - uoff
      {
        var wrlen;
        ghost var piece;
        f, wrlen, piece := WriteStep(f, data, off, uoff, n);
        FillSplit(was.held, data, off, done, piece, A.held);
        done := done + |piece|;
        uoff := uoff + wrlen;
      }
    }
  }
}
