/** What a receive ring means: a window over an infinite stream, holding some of its octets. */
module RingSpec {
  import opened Bytes

  // size: octets the window spans; head: its first offset; pile: the application's read point;
  // held: the octets held, by stream offset.
  datatype Ring = Ring(size: int, head: int, pile: int, held: map<int, Byte>)

  // End of the run of held offsets that starts at `from`, not looking past `limit`.
  function RunEnd(held: map<int, Byte>, from: int, limit: int): (e: int)
    requires from <= limit
    ensures from <= e <= limit
    ensures forall o :: from <= o < e ==> o in held
    ensures e < limit ==> e !in held
    decreases limit - from
  {
    if from < limit && from in held then RunEnd(held, from + 1, limit) else from
  }

  // End of the in-order data: the first offset of the window that is still missing.
  function InOrderEnd(r: Ring): int
    requires r.size >= 0
  {
    RunEnd(r.held, r.head, r.head + r.size)
  }

  ghost predicate Wf(r: Ring) {
    && 0 < r.size
    && 0 <= r.head <= r.pile <= InOrderEnd(r)
    && forall o :: o in r.held ==> r.head <= o < r.head + r.size
  }

  // tcprb_new
  function New(size: int): Ring {
    Ring(size, 0, 0, map[])
  }

  // tcprb_cflen
  function CfLen(r: Ring): int
    requires Wf(r)
  {
    InOrderEnd(r) - r.pile
  }

  // tcprb_setpile; the flag is false where the source returns -1.
  function SetPile(r: Ring, to: int): (Ring, bool)
    requires Wf(r)
  {
    if r.head <= to <= InOrderEnd(r) && r.head in r.held then (r.(pile := to), true) else (r, false)
  }

  // tcprb_ffhead: the window may drop what the application has read, at most n octets of it.
  function FfLen(r: Ring, n: int): int {
    if n <= 0 then 0 else Min(n, r.pile - r.head)
  }

  function FfHead(r: Ring, n: int): Ring {
    var head := r.head + FfLen(r, n);
    Ring(r.size, head, r.pile, map o | o in r.held && head <= o :: r.held[o])
  }

  // Stream octet o of a segment that carries `data` from offset `off` on.
  function Octet(data: seq<Byte>, off: int, o: int): Byte
    requires off <= o < off + |data|
  {
    data[o - off]
  }

  // First writer wins: octets already held stay, missing ones of data[..n] at `off` are added.
  function Fill(held: map<int, Byte>, data: seq<Byte>, off: int, n: int): map<int, Byte>
    requires n <= |data|
  {
    (map o | off <= o < off + n :: Octet(data, off, o)) + held
  }

  // How much of the payload is kept when the window has to move for it (core/src/tcp_rb.c:650-653).
  function Accepted(r: Ring, n: int, off: int): int {
    var ff := off + n - (r.head + r.size);
    if ff > 0 then n - (ff - FfLen(r, ff)) else n
  }

  // Not so for a payload as long as the ring that starts in the window at or below the read point: its accepted part
  // would be as long as the ring, a span the store takes for one inside a segment.
  predicate Fits(r: Ring, n: int, off: int) {
    n < r.size || off < r.head || r.pile < off
  }

  // tcprb_pwrite: new ring and return value.
  function PWrite(r: Ring, data: seq<Byte>, off: int): (Ring, int)
    requires Wf(r) && Fits(r, |data|, off)
  {
    if off < r.head || off >= r.pile + r.size then (r, -1)
    else if |data| == 0 then (r, 0)
    else if off + |data| < r.pile then (r, |data|)
    else
      var n := Accepted(r, |data|, off);
      var r1 := FfHead(r, off + |data| - (r.head + r.size));
      (r1.(held := Fill(r1.held, data, off, n)), n)
  }

  // tcprb_ppeek: the octets from `off` on, up to `n` of them and up to the end of the run they lie in.
  function PPeekLen(r: Ring, n: int, off: int): int
    requires Wf(r)
  {
    if n < 0 then -1
    else if n == 0 then 0
    else if off !in r.held then -1
    else Min(n, RunEnd(r.held, off, r.head + r.size) - off)
  }

  // The octets held from `off` on.
  ghost predicate Peeked(held: map<int, Byte>, off: int, out: seq<Byte>) {
    forall k :: 0 <= k < |out| ==> off + k in held && out[k] == held[off + k]
  }

  lemma {:induction false} RunEndUnique(held: map<int, Byte>, from: int, limit: int, e: int)
    requires from <= e <= limit
    requires forall o :: from <= o < e ==> o in held
    requires e == limit || e !in held
    ensures RunEnd(held, from, limit) == e
  {
  }

  // A run can only get longer when octets are added or its start is dropped.
  lemma RunEndGrows(held: map<int, Byte>, from: int, limit: int, held': map<int, Byte>, from': int, limit': int)
    requires from <= limit && from' <= limit' && from <= from'
    requires RunEnd(held, from, limit) <= limit'
    requires from' <= RunEnd(held, from, limit)
    requires forall o :: o in held && from' <= o ==> o in held'
    ensures RunEnd(held, from, limit) <= RunEnd(held', from', limit')
  {
    var e := RunEnd(held', from', limit');
    assert from <= e < RunEnd(held, from, limit) ==> e in held;
  }

  // Writing in two pieces is writing once.
  lemma FillSplit(held: map<int, Byte>, data: seq<Byte>, off: int, u: int, piece: seq<Byte>, held': map<int, Byte>)
    requires 0 <= u && u + |piece| <= |data| && piece == data[u..u + |piece|]
    requires held' == Fill(Fill(held, data, off, u), piece, off + u, |piece|)
    ensures held' == Fill(held, data, off, u + |piece|)
  {
  }

  // Octets that are all held already are not written again.
  lemma FillHeld(held: map<int, Byte>, data: seq<Byte>, off: int, n: int)
    requires 0 <= n <= |data|
    requires forall o :: off <= o < off + n ==> o in held
    ensures Fill(held, data, off, n) == held
  {
  }

  lemma FfHeadWf(r: Ring, n: int)
    requires Wf(r)
    ensures Wf(FfHead(r, n)) && FfHead(r, n).head == Max(r.head, Min(r.head + n, r.pile))
    ensures forall o :: o in FfHead(r, n).held <==> o in r.held && FfHead(r, n).head <= o
    ensures InOrderEnd(r) <= InOrderEnd(FfHead(r, n))
  {
    var r' := FfHead(r, n);
    RunEndGrows(r.held, r.head, r.head + r.size, r'.held, r'.head, r'.head + r'.size);
  }

  lemma FillWf(r: Ring, data: seq<Byte>, off: int, n: int)
    requires Wf(r) && 0 <= n <= |data| && r.head <= off && off + n <= r.head + r.size
    ensures Wf(r.(held := Fill(r.held, data, off, n)))
    ensures InOrderEnd(r) <= InOrderEnd(r.(held := Fill(r.held, data, off, n)))
  {
    var r' := r.(held := Fill(r.held, data, off, n));
    RunEndGrows(r.held, r.head, r.head + r.size, r'.held, r'.head, r'.head + r'.size);
  }

  // The accepted part of a payload lies in the moved window and is not empty.
  lemma AcceptedInWindow(r: Ring, n: int, off: int)
    requires Wf(r) && 0 < n && Fits(r, n, off) && r.head <= off < r.pile + r.size
    ensures var ff := off + n - (r.head + r.size); var h := r.head + FfLen(r, ff);
            && 0 < Accepted(r, n, off) <= n && Accepted(r, n, off) < r.size
            && h <= off && off + Accepted(r, n, off) == Min(off + n, h + r.size)
  {
  }

  // The payloads that do not fit are those that would be written in a piece as long as the ring.
  lemma FitsExactly(r: Ring, n: int, off: int)
    requires Wf(r) && 0 < n && r.head <= off < r.pile + r.size
    ensures Fits(r, n, off) <==> off + n < r.pile || Accepted(r, n, off) < r.size
  {
  }

  lemma PWriteWf(r: Ring, data: seq<Byte>, off: int)
    requires Wf(r) && Fits(r, |data|, off)
    ensures Wf(PWrite(r, data, off).0)
    ensures InOrderEnd(r) <= InOrderEnd(PWrite(r, data, off).0)
  {
    if r.head <= off < r.pile + r.size && |data| > 0 && off + |data| >= r.pile {
      var ff := off + |data| - (r.head + r.size);
      AcceptedInWindow(r, |data|, off);
      FfHeadWf(r, ff);
      FillWf(FfHead(r, ff), data, off, Accepted(r, |data|, off));
    }
  }
}
