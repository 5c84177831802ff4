/** The segmented byte store behind a receive ring: fixed-size segments taken from the pool on demand. */
module SegmentedBuffer {
  import opened Bytes

  const UNITBUFSIZE: int := 1024

  // How far position p lies after position `from`, going round a ring of n positions.
  function Dist(p: int, from: int, n: int): int {
    if p >= from then p - from else p - from + n
  }

  // data[..done] went round a ring of `len` positions from `start`; other positions are as before.
  ghost predicate WrittenTo(was: map<int, Byte>, now: map<int, Byte>, data: seq<Byte>, start: int, done: int, len: int)
    requires 0 <= done <= |data|
  {
    && (forall p :: p in was ==> p in now)
    && (forall p :: 0 <= p < len && Dist(p, start, len) < done ==> p in now)
    && (forall p :: p in now ==> (0 <= Dist(p, start, len) < done ==> now[p] == data[Dist(p, start, len)]))
    && (forall p :: p in was ==> (done <= Dist(p, start, len) ==> now[p] == was[p]))
  }

  lemma NothingWritten(was: map<int, Byte>, now: map<int, Byte>, data: seq<Byte>, start: int, len: int)
    requires 0 <= start < len && forall p :: p in was ==> p in now && now[p] == was[p]
    ensures WrittenTo(was, now, data, start, 0, len)
  {
  }

  // n octets more, put at position q in one piece.
  lemma PieceWritten(was: map<int, Byte>, before: map<int, Byte>, now: map<int, Byte>, data: seq<Byte>, start: int,
                     done: int, n: int, q: int, len: int)
    requires 0 <= start < len && 0 <= done && 0 <= n && done + n <= |data| <= len && 0 <= q && q + n <= len
    requires n == 0 || q == if start + done < len then start + done else start + done - len
    requires WrittenTo(was, before, data, start, done, len)
    requires forall p :: p in before <==> p in now
    requires forall p :: p in before ==> 0 <= p < len
    requires forall p :: q <= p < q + n ==> p in before
    requires forall p :: p in now ==> now[p] == if 0 <= p - q < n then data[done + (p - q)] else before[p]
    ensures WrittenTo(was, now, data, start, done + n, len)
  {
  }

  // out is what lies round the ring from `start` on.
  ghost predicate MatchesIn(flat: map<int, Byte>, out: seq<Byte>, start: int, len: int) {
    forall p :: 0 <= p < len && 0 <= Dist(p, start, len) < |out| ==> p in flat && out[Dist(p, start, len)] == flat[p]
  }

  class SegBuf {
    const lbufsegs: nat               // segments the ring may own
    var segs: seq<array<Byte>>        // segments allocated so far; the index is the segment id
    ghost var flat: map<int, Byte>    // the same bytes, by ring position

    ghost predicate Valid()
      reads this, segs
    {
      && 0 < lbufsegs
      && |segs| <= lbufsegs
      && (forall i :: 0 <= i < |segs| ==> segs[i].Length == UNITBUFSIZE)
      && (forall i, j :: 0 <= i < j < |segs| ==> segs[i] != segs[j])
      && (forall p :: p in flat <==> 0 <= p < |segs| * UNITBUFSIZE)
      && (forall p :: 0 <= p < |segs| * UNITBUFSIZE ==> flat[p] == segs[p / UNITBUFSIZE][p % UNITBUFSIZE])
    }

    function Positions(): int { lbufsegs * UNITBUFSIZE }

    constructor (n: nat)
      requires n > 0
      ensures Valid() && lbufsegs == n && segs == [] && flat == map[]
    {
      lbufsegs := n;
      segs := [];
      flat := map[];
    }

    // Segments are only ever appended.
    twostate predicate Appends()
      reads this
    {
      old(segs) <= segs && forall i :: old(|segs|) <= i < |segs| ==> fresh(segs[i])
    }

    // Allocation only appends: old segments keep their ids, old positions their bytes.
    twostate predicate Grows()
      reads this
    {
      && Appends()
      && (forall p :: p in old(flat) ==> p in flat && flat[p] == old(flat)[p])
    }

    // Appends one segment, with whatever the pool chunk happened to hold.
    method AddSegment()
      requires Valid() && |segs| < lbufsegs
      modifies this
      ensures Valid() && Grows() && |segs| == old(|segs|) + 1
    {
      var chunk := new Byte[UNITBUFSIZE];
      ghost var was := segs;
      segs := segs + [chunk];
      flat := map p | 0 <= p < |segs| * UNITBUFSIZE :: segs[p / UNITBUFSIZE][p % UNITBUFSIZE];
    }

    // First segment, allocated if there is none yet.
    method BufFirst() returns (id: int)
      requires Valid()
      modifies this
      ensures Valid() && Grows() && id == 0 && 0 < |segs| && (0 < old(|segs|) ==> flat == old(flat))
    {
      if |segs| == 0 {
        AddSegment();
      }
      id := 0;
    }

    // Segment after `id`, allocated if the ring still owns one; -1 past the last.
    method BufNext(buf: int) returns (id: int)
      requires Valid() && 0 <= buf < |segs|
      modifies this
      ensures Valid() && Grows()
      ensures if buf + 1 < lbufsegs then id == buf + 1 < |segs| else id == -1
    {
      if buf + 1 < |segs| {
        return buf + 1;
      }
      if lbufsegs <= buf + 1 {
        return -1;
      }
      AddSegment();
      id := buf + 1;
    }

    // Segment that holds ring position `off`, walking the list from its head.
    method BufGetBuf(off: int) returns (buf: int)
      requires Valid() && 0 <= off < Positions()
      modifies this
      ensures Valid() && Grows() && buf == off / UNITBUFSIZE && 0 <= buf < |segs|
    {
      var id := off / UNITBUFSIZE;
      buf := BufFirst();
      while id > 0
        invariant 0 <= id && buf + id == off / UNITBUFSIZE && 0 <= buf < |segs|
        invariant Valid() && Grows()
      {
        buf := BufNext(buf);
        id := id - 1;
      }
    }

    // memcpy into one segment.
    method CopyIn(id: int, at: int, data: seq<Byte>)
      requires Valid() && 0 <= id < |segs| && 0 <= at && at + |data| <= UNITBUFSIZE
      modifies this`flat, segs[id]
      ensures Valid()
      ensures flat.Keys == old(flat.Keys)
      ensures forall p :: p in flat ==>
        flat[p] == (if 0 <= p - id * UNITBUFSIZE - at < |data| then data[p - id * UNITBUFSIZE - at] else old(flat)[p])
    {
      var chunk := segs[id];
      forall k | 0 <= k < |data| {
        chunk[at + k] := data[k];
      }
      flat := map p | p in flat :: segs[p / UNITBUFSIZE][p % UNITBUFSIZE];
    }

    // What holds after the first `done` octets of `data` went round the ring from `start`; `was` is the store before.
    ghost predicate Written(was: map<int, Byte>, data: seq<Byte>, start: int, done: int)
      requires 0 <= done <= |data|
      reads this
    {
      WrittenTo(was, flat, data, start, done, Positions())
    }

    // One memcpy advances Written by one piece.
    method CopyPiece(id: int, at: int, data: seq<Byte>, done: int, n: int, ghost was: map<int, Byte>, ghost start: int)
      requires Valid() && 0 <= id < |segs| && 0 <= at && 0 <= n && at + n <= UNITBUFSIZE
      requires 0 <= done && done + n <= |data| <= Positions() && 0 <= start < Positions()
      requires n == 0
        || id * UNITBUFSIZE + at == if start + done < Positions() then start + done else start + done - Positions()
      requires Written(was, data, start, done)
      modifies this`flat, segs[id]
      ensures Valid() && flat.Keys == old(flat.Keys)
      ensures Written(was, data, start, done + n)
    {
      ghost var before := flat;
      hide WrittenTo;
      CopyIn(id, at, data[done..done + n]);
      PieceWritten(was, before, flat, data, start, done, n, id * UNITBUFSIZE + at, Positions());
    }

    // The macro's `for` loop on the write side: whole segments from `first` up to `stop`, or to the last one.
    // `base` is where octet 0 of `data` sits, counted in segment `first`'s lap of the ring.
    method WriteRun(first: int, stop: int, data: seq<Byte>, start: int, base: int, ghost was: map<int, Byte>)
      returns (done: int)
      requires Valid() && 0 <= start < Positions() && (base == start || base == start - Positions())
      requires 0 <= stop < |segs| && (first == -1 || 0 <= first < |segs|)
      requires var b := (if first == -1 then lbufsegs else first) * UNITBUFSIZE;
               var e := (if 0 <= first <= stop then stop else lbufsegs) * UNITBUFSIZE;
               0 <= b - base && e - base <= |data| <= Positions() && Written(was, data, start, b - base)
      modifies this, segs
      ensures Valid() && Appends()
      ensures 0 <= done <= |data|
      ensures base + done == (if 0 <= first <= stop then stop else lbufsegs) * UNITBUFSIZE
      ensures Written(was, data, start, done)
    {
      var bufseg := first;
      done := (if first == -1 then lbufsegs else first) * UNITBUFSIZE - base;
      while bufseg != -1 && bufseg != stop
        invariant Valid() && Appends()
        invariant if bufseg == -1 then base + done == Positions()
                  else 0 <= bufseg < |segs| && bufseg * UNITBUFSIZE == base + done
        invariant 0 <= first <= stop ==> 0 <= bufseg <= stop
        invariant !(0 <= first <= stop) ==> bufseg == -1 || stop < bufseg
        invariant 0 <= done <= |data| && Written(was, data, start, done)
        decreases |data| - done
      {
        CopyPiece(bufseg, 0, data, done, UNITBUFSIZE, was, start);
        done := done + UNITBUFSIZE;
        bufseg := BufNext(bufseg);
      }
    }

    // The tail of the segment that holds `start`, then the segment after it.
    method WriteHead(buf: int, data: seq<Byte>, start: int, ghost was: map<int, Byte>) returns (next: int)
      requires Valid() && 0 <= buf < |segs| && buf == start / UNITBUFSIZE && 0 <= start
      requires UNITBUFSIZE - start % UNITBUFSIZE <= |data| <= Positions()
      requires Written(was, data, start, 0)
      modifies this, segs
      ensures Valid() && Appends()
      ensures if buf + 1 < lbufsegs then next == buf + 1 < |segs| else next == -1
      ensures Written(was, data, start, UNITBUFSIZE - start % UNITBUFSIZE)
    {
      CopyPiece(buf, start % UNITBUFSIZE, data, 0, UNITBUFSIZE - start % UNITBUFSIZE, was, start);
      next := BufNext(buf);
    }

    // The span goes round the end of the ring.
    method BufWriteWrapped(data: seq<Byte>, from: int, to: int, bufsegFrom: int, bufsegTo: int,
                           ghost was: map<int, Byte>)
      requires Valid() && 0 <= to < from < Positions() && from + |data| == to + Positions()
      requires bufsegFrom == from / UNITBUFSIZE < |segs| && bufsegTo == to / UNITBUFSIZE
      requires Written(was, data, from, 0)
      modifies this, segs
      ensures Valid() && Appends()
      ensures Written(was, data, from, |data|)
    {
      hide WrittenTo, Valid;
      var bufseg := WriteHead(bufsegFrom, data, from, was);
      var done := WriteRun(bufseg, bufsegTo, data, from, from, was);
      BufWriteSecondLap(data, from, to, bufsegTo, was);
    }

    // From the first segment on.
    method BufWriteSecondLap(data: seq<Byte>, from: int, to: int, bufsegTo: int, ghost was: map<int, Byte>)
      requires Valid() && 0 <= to < from < Positions() && from + |data| == to + Positions()
      requires bufsegTo == to / UNITBUFSIZE < |segs|
      requires Written(was, data, from, Positions() - from)
      modifies this, segs
      ensures Valid() && Appends()
      ensures Written(was, data, from, |data|)
    {
      hide WrittenTo, Valid;
      var bufseg := BufFirst();
      var done := WriteRun(bufseg, bufsegTo, data, from, from - Positions(), was);
      CopyPiece(bufsegTo, 0, data, done, to % UNITBUFSIZE, was, from);
    }

    // The span crosses a segment border but not the end of the ring.
    method BufWriteStraight(data: seq<Byte>, from: int, to: int, bufsegFrom: int, bufsegTo: int,
                            ghost was: map<int, Byte>)
      requires Valid() && 0 <= from < to < Positions() && from + |data| == to
      requires bufsegFrom == from / UNITBUFSIZE < bufsegTo == to / UNITBUFSIZE < |segs|
      requires Written(was, data, from, 0)
      modifies this, segs
      ensures Valid() && Appends()
      ensures Written(was, data, from, |data|)
    {
      hide WrittenTo, Valid;
      var bufseg := WriteHead(bufsegFrom, data, from, was);
      var done := WriteRun(bufseg, bufsegTo, data, from, from, was);
      CopyPiece(bufsegTo, 0, data, done, to % UNITBUFSIZE, was, from);
    }

    // The bytes of `data` land at ring positions from, from+1, ... modulo the ring; nothing else changes.
    method BufWrite(data: seq<Byte>, from: int, to: int)
      requires Valid() && 0 <= from < Positions() && 0 <= to < Positions()
      requires |data| < Positions()
      requires to == (if from + |data| < Positions() then from + |data| else from + |data| - Positions())
      modifies this, segs
      ensures Valid() && Appends()
      ensures Written(old(flat), data, from, |data|)
    {
      hide WrittenTo, Valid;
      ghost var was := flat;
      var bufsegFrom := BufGetBuf(from);
      var bufsegTo := BufGetBuf(to);
      NothingWritten(was, flat, data, from, Positions());
      if from > to {
        BufWriteWrapped(data, from, to, bufsegFrom, bufsegTo, was);
      } else if bufsegFrom == bufsegTo {
        CopyPiece(bufsegFrom, from % UNITBUFSIZE, data, 0, |data|, was, from);
      } else {
        BufWriteStraight(data, from, to, bufsegFrom, bufsegTo, was);
      }
    }

    // Octet k of a read that starts at ring position `start`.
    ghost predicate Matches(out: seq<Byte>, start: int)
      reads this
    {
      MatchesIn(flat, out, start, Positions())
    }

    // The same `for` loop on the read side.
    method ReadRun(first: int, stop: int, got: seq<Byte>, ghost start: int, base: int) returns (out: seq<Byte>)
      requires Valid() && 0 <= start < Positions() && (base == start || base == start - Positions())
      requires 0 <= stop < |segs| && (first == -1 || 0 <= first < |segs|)
      requires base + |got| == (if first == -1 then lbufsegs else first) * UNITBUFSIZE
      requires (if 0 <= first <= stop then stop else lbufsegs) * UNITBUFSIZE - base <= Positions()
      requires Matches(got, start)
      modifies this
      ensures Valid() && Grows()
      ensures base + |out| == (if 0 <= first <= stop then stop else lbufsegs) * UNITBUFSIZE
      ensures Matches(out, start)
    {
      out := got;
      var bufseg := first;
      while bufseg != -1 && bufseg != stop
        invariant Valid() && Grows()
        invariant if bufseg == -1 then base + |out| == Positions()
                  else 0 <= bufseg < |segs| && bufseg * UNITBUFSIZE == base + |out|
        invariant 0 <= first <= stop ==> 0 <= bufseg <= stop
        invariant !(0 <= first <= stop) ==> bufseg == -1 || stop < bufseg
        invariant Matches(out, start)
        decreases Positions() - |out|
      {
        out := AppendPiece(bufseg, 0, UNITBUFSIZE, out, start);
        bufseg := BufNext(bufseg);
      }
    }

    // memcpy out of one segment, after what was already read.
    method AppendPiece(id: int, at: int, n: int, got: seq<Byte>, ghost start: int) returns (out: seq<Byte>)
      requires Valid() && 0 <= id < |segs| && 0 <= at && 0 <= n && at + n <= UNITBUFSIZE
      requires 0 <= start < Positions() && |got| + n <= Positions()
      requires n == 0 ||
        id * UNITBUFSIZE + at == (if start + |got| < Positions() then start + |got| else start + |got| - Positions())
      requires Matches(got, start)
      ensures |out| == |got| + n && Matches(out, start)
    {
      out := got + segs[id][at..at + n];
    }

    // The tail of the segment that holds `start`, then the segment after it.
    method ReadHead(buf: int, start: int) returns (out: seq<Byte>, next: int)
      requires Valid() && 0 <= buf < |segs| && buf == start / UNITBUFSIZE && 0 <= start
      modifies this
      ensures Valid() && Grows()
      ensures if buf + 1 < lbufsegs then next == buf + 1 < |segs| else next == -1
      ensures |out| == UNITBUFSIZE - start % UNITBUFSIZE && Matches(out, start)
    {
      out := AppendPiece(buf, start % UNITBUFSIZE, UNITBUFSIZE - start % UNITBUFSIZE, [], start);
      next := BufNext(buf);
    }

    method BufReadWrapped(n: int, from: int, to: int, bufsegFrom: int, bufsegTo: int) returns (out: seq<Byte>)
      requires Valid() && 0 <= to < from < Positions() && from + n == to + Positions()
      requires bufsegFrom == from / UNITBUFSIZE < |segs| && bufsegTo == to / UNITBUFSIZE
      modifies this
      ensures Valid() && Grows()
      ensures |out| == n && Matches(out, from)
    {
      var bufseg;
      out, bufseg := ReadHead(bufsegFrom, from);
      out := ReadRun(bufseg, bufsegTo, out, from, from);
      bufseg := BufFirst();
      out := ReadRun(bufseg, bufsegTo, out, from, from - Positions());
      out := AppendPiece(bufsegTo, 0, to % UNITBUFSIZE, out, from);
    }

    method BufReadStraight(n: int, from: int, to: int, bufsegFrom: int, bufsegTo: int) returns (out: seq<Byte>)
      requires Valid() && 0 <= from < to < Positions() && from + n == to
      requires bufsegFrom == from / UNITBUFSIZE < bufsegTo == to / UNITBUFSIZE < |segs|
      modifies this
      ensures Valid() && Grows()
      ensures |out| == n && Matches(out, from)
    {
      var bufseg;
      out, bufseg := ReadHead(bufsegFrom, from);
      out := ReadRun(bufseg, bufsegTo, out, from, from);
      out := AppendPiece(bufsegTo, 0, to % UNITBUFSIZE, out, from);
    }

    // Reads n octets from ring positions from, from+1, ... modulo the ring; no stored byte changes.
    method BufRead(n: int, from: int, to: int) returns (out: seq<Byte>)
      requires Valid() && 0 <= from < Positions() && 0 <= to < Positions()
      requires 0 <= n < Positions()
      requires to == (if from + n < Positions() then from + n else from + n - Positions())
      modifies this
      ensures Valid() && Grows()
      ensures |out| == n && Matches(out, from)
    {
      var bufsegFrom := BufGetBuf(from);
      var bufsegTo := BufGetBuf(to);
      if from > to {
        out := BufReadWrapped(n, from, to, bufsegFrom, bufsegTo);
      } else if bufsegFrom == bufsegTo {
        out := AppendPiece(bufsegFrom, from % UNITBUFSIZE, n, [], from);
      } else {
        out := BufReadStraight(n, from, to, bufsegFrom, bufsegTo);
      }
    }
  }
}
