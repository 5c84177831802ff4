/** The round-trip estimate follows its samples: what one sample does to each variable, and where equal samples lead. */
module RoundTripLaws {
  import opened Bytes
  import opened RoundTrip

  function Abs(x: int): nat { if x < 0 then -x else x }

  // How far the smoothed time, in eighths, is below a measurement.
  function Off(r: Rtt, m: int): int { 8 * m - r.srtt }

  // A first measurement is taken as it is, with half of it as the deviation.
  lemma FirstIsTaken(r: Rtt, mrtt: U32, sndUna: U32, sndNxt: U32)
    requires r.srtt == 0 && Sample(mrtt) < 0x2000_0000
    ensures var r', m := Estimate(r, mrtt, sndUna, sndNxt), Sample(mrtt);
            Off(r', m) == 0 && r'.mdev == r'.mdevMax == r'.rttvar == 2 * m && r'.rttSeq == sndNxt
  {
  }

  // Each further one shrinks the distance by an eighth, up to the rounding of one shift, and never crosses to the far
  // side. In whole units it closes the gap by the difference of the measurement and the estimate.
  lemma SampleIsFollowed(r: Rtt, mrtt: U32, sndUna: U32, sndNxt: U32)
    requires r.srtt != 0 && Sample(mrtt) < 0x2000_0000
    ensures var r', m := Estimate(r, mrtt, sndUna, sndNxt), Sample(mrtt);
            && 8 * Off(r', m) == 7 * Off(r, m) - r.srtt % 8
            && (0 < Off(r, m) ==> 0 <= Off(r', m)) && (Off(r, m) <= 0 ==> Off(r', m) <= 0)
            && Abs(Off(r', m)) == Abs(Off(r, m)) - Abs(m - r.srtt / 8)
            && r'.srtt != 0
  {
    hide Wrap, SeqDiff, DevChange;
    NoWrap(r.srtt + (Sample(mrtt) - r.srtt / 8));
  }

  // The mean deviation goes a quarter of the way to the new error; but a measurement below the estimate that would
  // raise it counts an eighth of that.
  lemma DeviationIsFollowed(r: Rtt, mrtt: U32, sndUna: U32, sndNxt: U32)
    requires r.srtt != 0 && Sample(mrtt) < 0x2000_0000
    ensures var m, e := Sample(mrtt), Abs(Sample(mrtt) - r.srtt / 8);
            Estimate(r, mrtt, sndUna, sndNxt).mdev ==
            if m < r.srtt / 8 && r.mdev / 4 < e then r.mdev + (e - r.mdev / 4) / 8 else r.mdev - r.mdev / 4 + e
  {
    hide Wrap, SeqDiff;
    NoWrap(r.mdev + DevChange(r, Sample(mrtt)));
  }

  // mdev_max is the top deviation of the round, and rttvar is at least that. At the end of a round rttvar goes a
  // quarter of the way down to the top of the round, which starts again at 0.
  lemma RoundIsFollowed(r: Rtt, mrtt: U32, sndUna: U32, sndNxt: U32)
    requires r.srtt != 0 && r.mdevMax <= r.rttvar
    ensures var r' := Estimate(r, mrtt, sndUna, sndNxt); var top := Max(r'.mdev, r.mdevMax);
            && (r'.rttSeq, r'.mdevMax) == (if SeqGt(sndUna, r.rttSeq) then (sndNxt, 0) else (r.rttSeq, top))
            && r'.rttvar == (if r.rttvar <= top then top
                             else if SeqGt(sndUna, r.rttSeq) then r.rttvar - (r.rttvar - top) / 4
                             else r.rttvar)
  {
    hide Wrap, SeqDiff, DevChange;
  }

  // ---------------------------------------------------------------- equal samples

  // Samples of m milliseconds, each of which ends a round.
  predicate Steady(r: Rtt, samples: seq<Acked>, m: int)
    decreases |samples|
  {
    samples == []
    || (var before, s := samples[..|samples| - 1], samples[|samples| - 1];
        && Steady(r, before, m) && Sample(s.mrtt) == m && SeqGt(s.sndUna, EstimateAll(r, before).rttSeq))
  }

  // The estimate is m from as many samples on as it was eighths away; the mean deviation then runs out, and after it
  // the smoothed one.
  ghost predicate Settles(r: Rtt, e: Rtt, n: nat, m: int, bound: int) {
    var d := Abs(Off(r, m));
    && (e.srtt / 8 == m || Abs(Off(e, m)) + n <= d)
    && (d <= n ==> e.srtt / 8 == m && e.mdev <= Max(3, bound - (n - d)))
    && (d + bound <= n ==> e.rttvar <= Max(6, 2 * bound - (n - d)))
    && (0 < n ==> e.mdevMax == 0)
  }

  lemma SettlesOn(r: Rtt, e: Rtt, n: nat, m: U32, s: Acked, lo: int, hi: int)
    requires 1 <= lo <= m <= hi < 0x2000_0000 && Bounded(e, lo, hi) && e.srtt != 0
    requires Settles(r, e, n, m, DevBound(lo, hi)) && Sample(s.mrtt) == m && SeqGt(s.sndUna, e.rttSeq)
    ensures Settles(r, Estimate(e, s.mrtt, s.sndUna, s.sndNxt), n + 1, m, DevBound(lo, hi))
  {
    hide Estimate, SeqDiff, DevBound;
    SampleIsFollowed(e, s.mrtt, s.sndUna, s.sndNxt);
    DeviationIsFollowed(e, s.mrtt, s.sndUna, s.sndNxt);
    RoundIsFollowed(e, s.mrtt, s.sndUna, s.sndNxt);
    EstimateKeeps(e, s.mrtt, s.sndUna, s.sndNxt, lo, hi);
  }

  // So on a path with a constant round-trip time the estimate becomes that time, and the timeout at most 6 milliseconds
  // more.
  lemma {:induction false} SteadyPath(r: Rtt, samples: seq<Acked>, m: U32, lo: int, hi: int)
    requires 1 <= lo <= m <= hi < 0x2000_0000 && Bounded(r, lo, hi) && Steady(r, samples, m)
    ensures var e, d, b := EstimateAll(r, samples), Abs(Off(r, m)), DevBound(lo, hi);
            && Bounded(e, lo, hi) && Settles(r, e, |samples|, m, b)
            && (d <= |samples| ==> e.srtt / 8 == m)
            && (d + 2 * b <= |samples| ==> m <= Rto(e) <= m + 6)
  {
    hide Estimate, SeqDiff;
    if samples != [] {
      var before, s := samples[..|samples| - 1], samples[|samples| - 1];
      SteadyPath(r, before, m, lo, hi);
      var e := EstimateAll(r, before);
      SettlesOn(r, e, |before|, m, s, lo, hi);
      EstimateKeeps(e, s.mrtt, s.sndUna, s.sndNxt, lo, hi);
    }
  }

  // ---------------------------------------------------------------- backing off

  // An acknowledgement that makes progress ends a series of timeouts: whatever their number was, the next one is the
  // first again and doubles the timeout of the estimate.
  lemma ProgressRestarts(t: Timer)
    requires t.phase == Connected && 0 < Rto(t.r) < 0x200_0000
    ensures OnTimer(OnTimer(t, Progress), Timeout) == t.(nrtx := 1, rto := 2 * Rto(t.r))
  {
    hide Rto;
    BackoffDoubles(t.r, t.rto, 0);
    hide Backoff;
  }
}
