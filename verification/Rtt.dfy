/** Round-trip estimation and the retransmission timeout, in the fixed point of the receive and send variables. */
module RoundTrip {
  import opened Bytes

  // srtt in eighths; mdev, mdevMax and rttvar are mean deviations, of now, of this round and smoothed.
  datatype Rtt = Rtt(srtt: U32, mdev: U32, mdevMax: U32, rttvar: U32, rttSeq: U32)

  function Sample(mrtt: U32): U32 { if mrtt == 0 then 1 else mrtt }

  // By how much the sample changes mdev.
  function DevChange(r: Rtt, m: int): int {
    var err := m - r.srtt / 8;
    if err < 0 then
      var d := -err - r.mdev / 4;
      if d > 0 then d / 8 else d
    else err - r.mdev / 4
  }

  function FirstSample(m: U32, sndNxt: U32): Rtt {
    Rtt(Wrap(8 * m), Wrap(2 * m), Wrap(2 * m), Wrap(2 * m), sndNxt)
  }

  // The smoothed deviation after a new mean deviation, and at the end of a round.
  function Smoothed(r: Rtt, srtt: U32, mdev: U32, roundOver: bool, sndNxt: U32): Rtt {
    var top := if mdev > r.mdevMax then mdev else r.mdevMax;
    var rttvar := if mdev > r.mdevMax && top > r.rttvar then top else r.rttvar;
    if !roundOver then Rtt(srtt, mdev, top, rttvar, r.rttSeq)
    else Rtt(srtt, mdev, 0, if top < rttvar then rttvar - (rttvar - top) / 4 else rttvar, sndNxt)
  }

  function Estimate(r: Rtt, mrtt: U32, sndUna: U32, sndNxt: U32): Rtt {
    var m := Sample(mrtt);
    if r.srtt == 0 then FirstSample(m, sndNxt)
    else Smoothed(r, Wrap(r.srtt + (m - r.srtt / 8)), Wrap(r.mdev + DevChange(r, m)), SeqGt(sndUna, r.rttSeq), sndNxt)
  }

  // The timeout ProcessACK computes after a sample.
  function Rto(r: Rtt): U32 { Wrap(r.srtt / 8 + r.rttvar) }

  // How far the deviation can get for samples in [lo, hi].
  function DevBound(lo: int, hi: int): int { Max(4 * (hi - lo) + 3, 2 * hi) }

  ghost predicate Bounded(r: Rtt, lo: int, hi: int) {
    && lo <= r.srtt / 8 <= hi
    && r.mdev <= DevBound(lo, hi) && r.mdevMax <= r.rttvar <= DevBound(lo, hi)
  }

  // The mean deviation never goes below zero and never above its bound.
  lemma DevStays(r: Rtt, m: int, lo: int, hi: int)
    requires lo <= r.srtt / 8 <= hi && lo <= m <= hi && r.mdev <= DevBound(lo, hi)
    ensures 0 <= r.mdev + DevChange(r, m) <= DevBound(lo, hi)
  {
    var err := m - r.srtt / 8;
    var d := (if err < 0 then -err else err) - r.mdev / 4;
    assert -(r.mdev / 4) <= DevChange(r, m) && (DevChange(r, m) <= d || d <= 0);
    assert DevChange(r, m) <= Max(0, d);
    assert d <= hi - lo - r.mdev / 4;
  }

  lemma SrttStays(s: int, m: int, lo: int, hi: int)
    requires 1 <= lo <= s / 8 <= hi && lo <= m <= hi
    ensures lo <= (s + (m - s / 8)) / 8 <= hi
  {
    var q := s / 8;
    assert 8 * q <= s <= 8 * q + 7;
  }

  // One sample in [lo, hi] keeps the estimate there; for a fresh connection it brings it there.
  lemma EstimateKeeps(r: Rtt, mrtt: U32, sndUna: U32, sndNxt: U32, lo: int, hi: int)
    requires 1 <= lo <= Sample(mrtt) <= hi < 0x2000_0000 && (r.srtt == 0 || Bounded(r, lo, hi))
    ensures Bounded(Estimate(r, mrtt, sndUna, sndNxt), lo, hi)
  {
    hide DevChange, SeqDiff, Wrap, Smoothed;
    var m := Sample(mrtt);
    if r.srtt != 0 {
      DevStays(r, m, lo, hi);
      SrttStays(r.srtt, m, lo, hi);
      NoWrap(r.srtt + (m - r.srtt / 8));
      NoWrap(r.mdev + DevChange(r, m));
      SmoothedKeeps(r, r.srtt + (m - r.srtt / 8), r.mdev + DevChange(r, m), SeqGt(sndUna, r.rttSeq), sndNxt, lo, hi);
    } else {
      NoWrap(8 * m);
      NoWrap(2 * m);
    }
  }

  // rttvar stays on top of mdev_max, and goes down to it at most.
  lemma SmoothedKeeps(r: Rtt, srtt: U32, mdev: U32, roundOver: bool, sndNxt: U32, lo: int, hi: int)
    requires Bounded(r, lo, hi) && lo <= srtt / 8 <= hi && mdev <= DevBound(lo, hi)
    ensures Bounded(Smoothed(r, srtt, mdev, roundOver, sndNxt), lo, hi)
  {
  }

  // Any number of samples, with whatever acknowledgement and send numbers.
  datatype Acked = Acked(mrtt: U32, sndUna: U32, sndNxt: U32)

  function EstimateAll(r: Rtt, samples: seq<Acked>): Rtt {
    if samples == [] then r
    else
      var s := samples[|samples| - 1];
      Estimate(EstimateAll(r, samples[..|samples| - 1]), s.mrtt, s.sndUna, s.sndNxt)
  }

  // For samples in [lo, hi] the smoothed time stays in [lo, hi], and the timeout is positive and bounded after each.
  lemma {:induction false} TimeoutBounded(r: Rtt, samples: seq<Acked>, lo: int, hi: int)
    requires 1 <= lo <= hi < 0x2000_0000 && (r.srtt == 0 || Bounded(r, lo, hi)) && samples != []
    requires Within(samples, lo, hi)
    ensures var e := EstimateAll(r, samples); Bounded(e, lo, hi) && lo <= Rto(e) <= hi + DevBound(lo, hi)
  {
    var before, s := samples[..|samples| - 1], samples[|samples| - 1];
    if before != [] {
      TimeoutBounded(r, before, lo, hi);
    }
    hide Estimate, Bounded;
    EstimateKeeps(EstimateAll(r, before), s.mrtt, s.sndUna, s.sndNxt, lo, hi);
    RtoInRange(EstimateAll(r, samples), lo, hi);
  }

  const FRESH := Rtt(0, 0, 0, 0, 0)

  ghost predicate Within(samples: seq<Acked>, lo: int, hi: int) {
    forall k :: 0 <= k < |samples| ==> lo <= Sample(samples[k].mrtt) <= hi
  }

  // Whatever samples in [lo, hi] a fresh connection takes, its estimate is bounded by them.
  ghost predicate AlwaysBounded(lo: int, hi: int) {
    forall samples :: samples != [] && Within(samples, lo, hi) ==> Bounded(EstimateAll(FRESH, samples), lo, hi)
  }

  // The estimate is bounded by its samples exactly where these stay below 2^29, 6 days.
  lemma BoundIsExact(lo: U32, hi: U32)
    requires 1 <= lo <= hi
    ensures AlwaysBounded(lo, hi) <==> hi < 0x2000_0000
  {
    if hi < 0x2000_0000 {
      forall samples | samples != [] && Within(samples, lo, hi) ensures Bounded(EstimateAll(FRESH, samples), lo, hi) {
        TimeoutBounded(FRESH, samples, lo, hi);
      }
    } else {
      var x: U32 := Max(lo, 0x2000_0000);
      var samples := [Acked(x, 0, 0)];
      assert samples[..0] == [];
      assert EstimateAll(FRESH, samples) == FirstSample(x, 0);
      WrapsToLess(x);
      assert Within(samples, lo, hi) && !Bounded(EstimateAll(FRESH, samples), lo, hi);
    }
  }

  lemma WrapsToLess(x: U32)
    ensures Wrap(8 * x) / 8 == x % 0x2000_0000
  {
    assert 8 * x == 0x1_0000_0000 * (x / 0x2000_0000) + 8 * (x % 0x2000_0000);
  }

  lemma RtoInRange(r: Rtt, lo: int, hi: int)
    requires Bounded(r, lo, hi) && 1 <= lo <= hi < 0x2000_0000
    ensures lo <= Rto(r) <= hi + DevBound(lo, hi)
  {
    assert r.srtt / 8 + r.rttvar < 0x1_0000_0000;
  }

  // For a first sample without that bound the assertion on the timeout fails for one measurement only.
  lemma FirstTimeoutIsPositive(mrtt: U32, sndNxt: U32)
    ensures Rto(FirstSample(Sample(mrtt), sndNxt)) == 0 <==> mrtt == 0x8000_0000
  {
    var m: int := Sample(mrtt);
    var k, x := m / 0x2000_0000, m % 0x2000_0000;
    assert Wrap(8 * m) == 8 * x by {
      assert 8 * m == 0x1_0000_0000 * k + 8 * x;
    }
    assert Wrap(8 * m) / 8 == x;
    assert 0 <= k < 8;
    var v := Wrap(2 * m);
    assert v == 2 * m || v == 2 * m - 0x1_0000_0000;
    assert m == 0x2000_0000 * k + x;
  }

  // 2^29 is where the fixed point ends: from there on a first sample is not even its own estimate.
  lemma FirstSampleIsKept(mrtt: U32, sndNxt: U32)
    ensures var m := Sample(mrtt); FirstSample(m, sndNxt).srtt / 8 == m <==> m < 0x2000_0000
    ensures var m := Sample(mrtt); m < 0x2000_0000 ==> Bounded(FirstSample(m, sndNxt), m, m)
  {
  }

  // ---------------------------------------------------------------- backing off

  // Where HandleRTO finds the connection.
  datatype Phase = Unconnected | Opening | Connected

  const TCP_MAX_RTX := 16
  const TCP_MAX_BACKOFF := 7

  function Shifted(x: int, n: nat): int {
    if n == 0 then x else 2 * Shifted(x, n - 1)
  }

  // HandleRTO's timeout for the n-th retransmission.
  function Backoff(r: Rtt, rto: U32, nrtx: nat, phase: Phase): U32 {
    match phase
    case Connected =>
      var next := Wrap(Shifted(Rto(r), if nrtx < TCP_MAX_BACKOFF then nrtx else TCP_MAX_BACKOFF));
      if next <= 0 then rto else next
    case Opening => if nrtx < TCP_MAX_BACKOFF then Wrap(2 * rto) else rto
    case Unconnected => rto
  }

  lemma {:induction false} ShiftGrows(x: int, n: nat, k: nat)
    requires 0 <= x && n <= k
    ensures 0 <= Shifted(x, n) <= Shifted(x, k)
    decreases k
  {
    if n < k {
      ShiftGrows(x, n, k - 1);
    } else if n > 0 {
      ShiftGrows(x, n - 1, n - 1);
    }
  }

  lemma ShiftSeven(x: int)
    ensures Shifted(x, 7) == 128 * x
  {
    assert Shifted(x, 1) == 2 * x;
    assert Shifted(x, 2) == 4 * x;
    assert Shifted(x, 3) == 8 * x;
    assert Shifted(x, 4) == 16 * x;
    assert Shifted(x, 5) == 32 * x;
    assert Shifted(x, 6) == 64 * x;
  }

  // Each timeout without an acknowledgement doubles the next one, seven times.
  lemma BackoffDoubles(r: Rtt, rto: U32, nrtx: nat)
    requires 0 < Rto(r) < 0x200_0000
    ensures Backoff(r, rto, 0, Connected) == Rto(r)
    ensures Backoff(r, rto, nrtx + 1, Connected) ==
            if nrtx < TCP_MAX_BACKOFF then 2 * Backoff(r, rto, nrtx, Connected) else Backoff(r, rto, nrtx, Connected)
  {
    var x := Rto(r);
    ShiftSeven(x);
    ShiftGrows(x, 0, 0);
    if nrtx < TCP_MAX_BACKOFF {
      ShiftGrows(x, nrtx + 1, 7);
      ShiftGrows(x, nrtx, 7);
      ShiftGrows(x, 0, nrtx);
    }
    hide Rto, Wrap;
    NoWrap(Shifted(x, if nrtx < 7 then nrtx else 7));
    NoWrap(Shifted(x, if nrtx < 6 then nrtx + 1 else 7));
    NoWrap(x);
  }

  lemma NoWrap(x: int)
    ensures 0 <= x < 0x1_0000_0000 ==> Wrap(x) == x
  {
  }

  // ---------------------------------------------------------------- over the life of a connection

  datatype Timer = Timer(r: Rtt, rto: U32, nrtx: nat, phase: Phase)

  datatype TimerEvent =
    | Timeout
    | Established             // the handshake is over
    | Progress                // UpdateRetransmissionTimer
    | Measure(a: Acked)       // ProcessACK takes a sample

  function OnTimer(t: Timer, e: TimerEvent): Timer {
    match e
    case Timeout =>
      if t.nrtx < TCP_MAX_RTX then t.(nrtx := t.nrtx + 1, rto := Backoff(t.r, t.rto, t.nrtx + 1, t.phase)) else t
    case Established => t.(phase := Connected, nrtx := 0)
    case Progress => if t.phase == Connected then t.(nrtx := 0) else t
    case Measure(a) =>
      if t.phase != Connected then t
      else var r := Estimate(t.r, a.mrtt, a.sndUna, a.sndNxt); t.(r := r, rto := Rto(r))
  }

  // From CreateTCPStream on.
  function TimerAfter(initialRto: U32, es: seq<TimerEvent>): Timer {
    if es == [] then Timer(FRESH, initialRto, 0, Opening)
    else OnTimer(TimerAfter(initialRto, es[..|es| - 1]), es[|es| - 1])
  }

  const LONGEST := 0x1FFF_FFFF

  ghost predicate TimerInv(t: Timer, initialRto: U32) {
    && t.rto > 0 && (t.r.srtt == 0 || Bounded(t.r, 1, LONGEST))
    && (t.phase == Opening ==> t.rto == Shifted(initialRto, Min(t.nrtx, TCP_MAX_BACKOFF - 1)))
    && t.phase != Unconnected
  }

  lemma OpeningTimeout(t: Timer, initialRto: U32)
    requires 0 < initialRto < 0x400_0000 && TimerInv(t, initialRto) && t.phase == Opening && t.nrtx < TCP_MAX_RTX
    ensures TimerInv(OnTimer(t, Timeout), initialRto)
  {
    hide Bounded;
    var x: int := initialRto;
    ShiftSeven(x);
    ShiftGrows(x, 0, Min(t.nrtx + 1, 6));
    ShiftGrows(x, Min(t.nrtx + 1, 6), 6);
  }

  lemma TimerStep(t: Timer, e: TimerEvent, initialRto: U32)
    requires 0 < initialRto < 0x400_0000 && TimerInv(t, initialRto)
    requires e.Measure? ==> Sample(e.a.mrtt) <= LONGEST
    ensures TimerInv(OnTimer(t, e), initialRto)
  {
    hide Bounded, Estimate, Rto, Shifted;
    match e
    case Timeout =>
      if t.phase == Opening && t.nrtx < TCP_MAX_RTX {
        OpeningTimeout(t, initialRto);
      }
    case Measure(a) =>
      if t.phase == Connected {
        EstimateKeeps(t.r, a.mrtt, a.sndUna, a.sndNxt, 1, LONGEST);
        RtoInRange(Estimate(t.r, a.mrtt, a.sndUna, a.sndNxt), 1, LONGEST);
      }
    case _ =>
  }

  // In every run, whatever timeouts and samples below 2^29 it has, the timeout is positive; while the connection opens
  // it is the initial one, doubled at each timeout but six times at most.
  lemma {:induction false} TimeoutStaysPositive(initialRto: U32, es: seq<TimerEvent>)
    requires 0 < initialRto < 0x400_0000
    requires forall e :: e in es && e.Measure? ==> Sample(e.a.mrtt) <= LONGEST
    ensures var t := TimerAfter(initialRto, es);
            && t.rto > 0
            && (t.phase == Opening ==> t.rto == Shifted(initialRto, Min(t.nrtx, TCP_MAX_BACKOFF - 1)))
    ensures TimerInv(TimerAfter(initialRto, es), initialRto)
  {
    hide OnTimer;
    if es != [] {
      TimeoutStaysPositive(initialRto, es[..|es| - 1]);
      TimerStep(TimerAfter(initialRto, es[..|es| - 1]), es[|es| - 1], initialRto);
    }
  }

  // ---------------------------------------------------------------- in the stream's variables

  // The estimator's part of struct tcp_recv_vars and tcp_send_vars.
  class Timeouts {
    var srtt: U32
    var mdev: U32
    var mdevMax: U32
    var rttvar: U32
    var rttSeq: U32
    var rto: U32
    var nrtx: nat
    var maxNrtx: nat
    var cwnd: U32
    var ssthresh: U32

    function Est(): Rtt
      reads this
    {
      Rtt(srtt, mdev, mdevMax, rttvar, rttSeq)
    }

    ghost function Clock(phase: Phase): Timer
      reads this
    {
      Timer(Est(), rto, nrtx, phase)
    }

    // TCP_INITIAL_RTO and TCP_INIT_CWND are parameters.
    constructor (initialRto: U32, initCwnd: U32)
      ensures Clock(Opening) == TimerAfter(initialRto, [])
    {
      srtt, mdev, mdevMax, rttvar, rttSeq := 0, 0, 0, 0, 0;
      rto, nrtx, maxNrtx, cwnd, ssthresh := initialRto, 0, 0, initCwnd, 0;
    }

    method EstimateRTT(mrtt: U32, sndUna: U32, sndNxt: U32)
      modifies this`srtt, this`mdev, this`mdevMax, this`rttvar, this`rttSeq
      ensures Est() == Estimate(old(Est()), mrtt, sndUna, sndNxt)
    {
      hide SeqDiff, Wrap;
      var m: int := mrtt;
      if m == 0 {
        m := 1;
      }
      if srtt != 0 {
        m := m - srtt / 8;
        srtt := Wrap(srtt + m);
        if m < 0 {
          m := -m;
          m := m - mdev / 4;
          if m > 0 {
            m := m / 8;
          }
        } else {
          m := m - mdev / 4;
        }
        mdev := Wrap(mdev + m);
        if mdev > mdevMax {
          mdevMax := mdev;
          if mdevMax > rttvar {
            rttvar := mdevMax;
          }
        }
        if SeqGt(sndUna, rttSeq) {
          if mdevMax < rttvar {
            rttvar := rttvar - (rttvar - mdevMax) / 4;
          }
          rttSeq := sndNxt;
          mdevMax := 0;
        }
      } else {
        srtt := Wrap(8 * m);
        mdev := Wrap(2 * m);
        rttvar := if mdev > 0 then mdev else 0;
        mdevMax := rttvar;
        rttSeq := sndNxt;
      }
    }

    // Its use in ProcessACK, and whether the assertion on the timeout there passes.
    method MeasureAck(mrtt: U32, sndUna: U32, sndNxt: U32) returns (passes: bool)
      modifies this`srtt, this`mdev, this`mdevMax, this`rttvar, this`rttSeq, this`rto
      ensures Clock(Connected) == OnTimer(old(Clock(Connected)), Measure(Acked(mrtt, sndUna, sndNxt)))
      ensures passes <==> rto > 0
      ensures Sample(mrtt) <= LONGEST && (old(srtt) == 0 || Bounded(old(Est()), 1, LONGEST)) ==> passes
    {
      ghost var r := Est();
      if Sample(mrtt) <= LONGEST && (srtt == 0 || Bounded(Est(), 1, LONGEST)) {
        EstimateKeeps(r, mrtt, sndUna, sndNxt, 1, LONGEST);
        RtoInRange(Estimate(r, mrtt, sndUna, sndNxt), 1, LONGEST);
      }
      hide Estimate, Bounded, Wrap;
      EstimateRTT(mrtt, sndUna, sndNxt);
      rto := Wrap(srtt / 8 + rttvar);
      passes := rto > 0;
    }

    // The timer part of HandleRTO; false where it gives the connection up.
    method HandleRTO(phase: Phase, peerWnd: U32, mss: U16) returns (goesOn: bool)
      requires 0 < rto
      modifies this`rto, this`nrtx, this`maxNrtx, this`cwnd, this`ssthresh
      ensures goesOn <==> old(nrtx) < TCP_MAX_RTX
      ensures Clock(phase) == OnTimer(old(Clock(phase)), Timeout)
      ensures goesOn ==> maxNrtx == if nrtx > old(maxNrtx) then nrtx else old(maxNrtx)
      ensures goesOn ==> cwnd == mss && ssthresh == Max(Min(old(cwnd), peerWnd) / 2, 2 * mss)
      ensures !goesOn ==> cwnd == old(cwnd) && ssthresh == old(ssthresh)
    {
      hide Wrap, Shifted;
      if nrtx < TCP_MAX_RTX {
        nrtx := nrtx + 1;
      } else {
        return false;
      }
      if nrtx > maxNrtx {
        maxNrtx := nrtx;
      }
      if phase == Connected {
        var backoff := if nrtx < TCP_MAX_BACKOFF then nrtx else TCP_MAX_BACKOFF;
        var rtoPrev := rto;
        rto := Wrap(Shifted(Wrap(srtt / 8 + rttvar), backoff));
        if rto <= 0 {
          rto := rtoPrev;
        }
      } else if phase == Opening {
        if nrtx < TCP_MAX_BACKOFF {
          rto := Wrap(2 * rto);
        }
      }
      ssthresh := Min(cwnd, peerWnd) / 2;
      if ssthresh < 2 * mss {
        ssthresh := mss * 2;
      }
      cwnd := mss;
      goesOn := true;
    }
  }
}
