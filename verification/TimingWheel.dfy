/** The wheel of retransmission timers: RTO_HASH lists, a clock, and streams that wait in the list of their deadline. */
module TimingWheel {
  import opened Bytes
  import opened Containers
  import Modular

  const RTO_HASH := 2048

  // Slot of a deadline that is `diff` ticks away, when the clock's slot is idx: the mask of two's complement numbers.
  function Slot(idx: int, diff: int): int { (diff + idx) % 2048 }

  // The first time, from `now` on, at which the clock comes by the slot of a deadline `due`.
  function FirstVisit(now: int, due: int): int { now + (due - now) % 2048 }

  // A stream comes up before its deadline exactly if that was a lap of the wheel or more away.
  lemma NeverEarly(now: int, due: int)
    ensures now <= FirstVisit(now, due) < now + RTO_HASH
    ensures FirstVisit(now, due) < due <==> due - now >= RTO_HASH
    ensures now <= due < now + RTO_HASH ==> FirstVisit(now, due) == due
  {
  }

  lemma SlotStays(idx: int, now: int, due: int)
    requires 0 <= idx < RTO_HASH
    ensures Slot((idx + 1) % 2048, due - (now + 1)) == Slot(idx, due - now)
    ensures 0 <= Slot(idx, due - now) < RTO_HASH
  {
  }

  // The clock is in the slot of a deadline exactly when it is that time, but for whole laps.
  lemma InSlot(idx: int, now: int, due: int)
    requires 0 <= idx < RTO_HASH
    ensures Slot(idx, due - now) == idx <==> (due - now) % 2048 == 0
  {
  }

  // After one tick, the next visit of a deadline that was not due in the slot left behind is the same.
  lemma VisitStays(now: int, due: int)
    requires (due - now) % 2048 != 0
    ensures FirstVisit(now + 1, due) == FirstVisit(now, due)
  {
  }

  // Each list holds exactly the streams whose index says so.
  ghost predicate Listed(list: seq<int>, onRtoIdx: map<int, int>, i: int) {
    NoDup(list) && forall x :: x in list <==> x in onRtoIdx && onRtoIdx[x] == i
  }

  // When a stream was put on the wheel (of a clock that never wraps), and its deadline then.
  datatype Armed = Armed(since: int, due: int) {
    // When the clock first comes by.
    function Visit(): int { FirstVisit(since, due) }
  }

  // Every waiting stream is in the slot of its deadline, and the clock has not come by since it was put there.
  ghost predicate Waits(slot: int, a: Armed, idx: int, now: int) {
    && slot == Slot(idx, a.due - now)
    && a.since <= now && FirstVisit(now, a.due) == a.Visit()
  }

  lemma SweepWindow(nowTs: U32, now: int, curTs: U32)
    requires nowTs == Wrap(now)
    ensures Wrap(now + SeqDiff(curTs, nowTs)) == curTs
  {
    var d := (curTs - nowTs) % 0x1_0000_0000;
    var q := (curTs - nowTs) / 0x1_0000_0000;
    assert curTs - nowTs == 0x1_0000_0000 * q + d;
    WrapAdd(now, SeqDiff(curTs, nowTs));
  }

  class RtoStore {
    const lists: array<seq<int>>     // the list at RTO_HASH itself is never used
    var nowIdx: int
    var nowTs: U32
    var cnt: nat                     // rto_list_cnt
    var onRtoIdx: map<int, int>      // of the streams where it is not -1
    var tsRto: map<int, U32>         // every stream's deadline
    ghost var now: int               // the clock without its wrap
    ghost var armed: map<int, Armed>

    ghost predicate Valid()
      reads this, lists
    {
      && lists.Length == RTO_HASH && 0 <= nowIdx < RTO_HASH && nowTs == Wrap(now)
      && cnt == |onRtoIdx| && armed.Keys == onRtoIdx.Keys
      && (forall i :: 0 <= i < RTO_HASH ==> Listed(lists[i], onRtoIdx, i))
      && (forall x :: x in onRtoIdx ==> Waits(onRtoIdx[x], armed[x], nowIdx, now))
    }

    // InitRTOHashstore
    constructor ()
      ensures Valid() && armed == map[] && fresh(lists)
    {
      lists := new seq<int>[RTO_HASH](_ => []);
      nowIdx, nowTs, cnt, onRtoIdx, tsRto, now, armed := 0, 0, 0, map[], map[], 0, map[];
    }

    // SendTCPPacket: the deadline moves, the place on the wheel does not.
    method SetDeadline(x: int, ts: U32)
      requires Valid()
      modifies this`tsRto
      ensures Valid() && tsRto == old(tsRto)[x := ts]
    {
      tsRto := tsRto[x := ts];
    }

    // AddtoRTOList. An empty wheel starts over at the stream's deadline.
    method AddtoRTOList(x: int, onTimewaitList: bool)
      requires Valid() && x in tsRto
      modifies this`nowIdx, this`nowTs, this`cnt, this`onRtoIdx, this`now, this`armed, lists
      ensures Valid() && (old(cnt) > 0 ==> now == old(now))
      ensures old(cnt) == 0 ==> nowTs == tsRto[x]
      ensures if x in old(onRtoIdx) || onTimewaitList then armed == old(armed)
              else armed == old(armed)[x := Armed(now, now + SeqDiff(tsRto[x], nowTs))]
    {
      if cnt == 0 {
        Restart(tsRto[x]);
      }
      if x !in onRtoIdx {
        if onTimewaitList {
          return;
        }
        var diff := SeqDiff(tsRto[x], nowTs);
        Insert(x, diff);
      }
    }

    method Restart(ts: U32)
      requires Valid() && cnt == 0
      modifies this`nowIdx, this`nowTs, this`now
      ensures Valid() && nowTs == ts && nowIdx == 0
    {
      hide SeqDiff, Listed, Slot, FirstVisit;
      SweepWindow(nowTs, now, ts);
      nowIdx := 0;
      now := now + SeqDiff(ts, nowTs);
      nowTs := ts;
    }

    method Insert(x: int, diff: int)
      requires Valid() && x !in onRtoIdx
      modifies this`cnt, this`onRtoIdx, this`armed, lists
      ensures Valid() && armed == old(armed)[x := Armed(now, now + diff)]
    {
      hide Wrap, FirstVisit;
      var offset := (diff + nowIdx) % RTO_HASH;
      onRtoIdx := onRtoIdx[x := offset];
      armed := armed[x := Armed(now, now + diff)];
      lists[offset] := lists[offset] + [x];
      cnt := cnt + 1;
    }

    // RemoveFromRTOList
    method RemoveFromRTOList(x: int)
      requires Valid()
      modifies this`cnt, this`onRtoIdx, this`armed, lists
      ensures Valid() && armed == old(armed) - {x}
    {
      hide Wrap, Slot, FirstVisit;
      if x !in onRtoIdx {
        return;
      }
      var i := onRtoIdx[x];
      SlotInRange(nowIdx, armed[x].due - now);
      WithoutFacts(lists[i], x);
      lists[i] := Without(lists[i], x);
      onRtoIdx := onRtoIdx - {x};
      armed := armed - {x};
      cnt := cnt - 1;
    }

    // The first stream of the list at the clock: its timer has run out.
    method FireFirst() returns (x: int)
      requires Valid() && lists[nowIdx] != []
      modifies this`cnt, this`onRtoIdx, this`armed, lists
      ensures Valid() && x in old(armed) && old(armed)[x].Visit() == now
      ensures armed == old(armed) - {x} && lists[nowIdx] == old(lists[nowIdx])[1..]
    {
      x := lists[nowIdx][0];
      assert x in lists[nowIdx] && Waits(onRtoIdx[x], armed[x], nowIdx, now);
      InSlot(nowIdx, now, armed[x].due);
      TailFacts(lists[nowIdx]);
      hide Wrap, Slot, FirstVisit, NoDup;
      lists[nowIdx] := lists[nowIdx][1..];
      cnt := cnt - 1;
      onRtoIdx := onRtoIdx - {x};
      armed := armed - {x};
    }

    // The inner loop of CheckRtmTimeout: the streams of one slot, until `count` passes `thresh`.
    method SweepSlot(thresh: int, count0: int) returns (count: int, fired: seq<int>)
      requires Valid()
      modifies this`cnt, this`onRtoIdx, this`armed, lists
      ensures Valid() && Outcome(old(armed), armed, fired)
      ensures forall x :: x in fired ==> x in old(armed) && old(armed)[x].Visit() == now
      ensures count <= thresh ==> lists[nowIdx] == []
      ensures count == count0 + |fired| || thresh < count == count0 + |fired| + 1
    {
      hide Wrap, Slot, FirstVisit, Listed, NoDup, Outcome, Waits;
      NothingFired(armed);
      count, fired := count0, [];
      while lists[nowIdx] != []
        invariant Valid() && Outcome(old(armed), armed, fired)
        invariant forall x :: x in fired ==> x in old(armed) && old(armed)[x].Visit() == now
        invariant count == count0 + |fired|
        decreases |lists[nowIdx]|
      {
        count := count + 1;
        if count > thresh {
          break;
        }
        ghost var before := armed;
        var x := FireFirst();
        OneFired(old(armed), before, fired, x);
        fired := fired + [x];
      }
    }

    // The clock goes on by one tick once its slot is empty.
    method Tick()
      requires Valid() && lists[nowIdx] == []
      modifies this`nowIdx, this`nowTs, this`now
      ensures Valid() && now == old(now) + 1
    {
      forall x | x in onRtoIdx ensures Waits(onRtoIdx[x], armed[x], (nowIdx + 1) % RTO_HASH, now + 1) {
        TickWaits(onRtoIdx[x], armed[x], nowIdx, now);
      }
      WrapAdd(now, 1);
      hide Wrap, Waits;
      nowIdx := (nowIdx + 1) % RTO_HASH;
      nowTs := Wrap(nowTs + 1);
      now := now + 1;
    }

    // CheckRtmTimeout: every stream that comes up is one whose visit is due by now, and unless the threshold stops the
    // sweep all of those do. One put on the wheel less than a lap ahead does not come up before its deadline.
    method CheckRtmTimeout(curTs: U32, thresh: int) returns (count: int, fired: seq<int>)
      requires Valid()
      modifies this`nowIdx, this`nowTs, this`cnt, this`onRtoIdx, this`now, this`armed, lists
      ensures Valid() && Outcome(old(armed), armed, fired)
      ensures count == |fired| || thresh < count == |fired| + 1
      ensures var cur := old(now) + SeqDiff(curTs, old(nowTs));
              && (forall x :: x in fired ==> x in old(armed) && old(armed)[x].Visit() <= cur)
              && (forall x :: x in fired && old(armed)[x].due - old(armed)[x].since < RTO_HASH ==>
                    old(armed)[x].due <= cur)
              && (count <= thresh ==> forall x :: x in armed ==> cur < armed[x].Visit())
    {
      hide Wrap, Slot, FirstVisit, Listed, Outcome, SeqDiff;
      NothingFired(armed);
      count, fired := 0, [];
      if cnt == 0 {
        return;
      }
      ghost var cur := now + SeqDiff(curTs, nowTs);
      SweepWindow(nowTs, now, curTs);
      SeqDiffIsSmall(curTs, nowTs);
      while true
        invariant Valid() && Outcome(old(armed), armed, fired)
        invariant forall x :: x in fired ==> x in old(armed) && old(armed)[x].Visit() <= cur
        invariant count == |fired|
        invariant now <= cur + 1 || now == old(now)
        invariant old(now) <= now && cur - old(now) < 0x8000_0000 && -0x8000_0000 <= cur - now
        decreases cur - now
      {
        SeqDiffOfWrap(cur, now);
        if SeqDiff(curTs, nowTs) < 0 {
          NotYet(onRtoIdx, armed, nowIdx, now);
          break;
        }
        ghost var before := armed;
        var more;
        count, more := SweepSlot(thresh, count);
        OutcomeJoins(old(armed), before, armed, fired, more);
        fired := fired + more;
        if count > thresh {
          break;
        }
        Tick();
      }
      forall x | x in fired && old(armed)[x].due - old(armed)[x].since < RTO_HASH ensures old(armed)[x].due <= cur {
        NotBefore(old(armed)[x]);
      }
    }
  }

  lemma NotBefore(a: Armed)
    ensures a.due - a.since < RTO_HASH ==> a.due <= a.Visit()
  {
    NeverEarly(a.since, a.due);
  }

  // An input, at any time: the wheel is empty, one stream is put on it for now, and one for a lap later. The next sweep
  // hands over both.
  method FiresEarly(curTs: U32) returns (due: U32, fired: seq<int>)
    ensures due == Wrap(curTs + RTO_HASH) && SeqDiff(due, curTs) == RTO_HASH && 2 in fired
  {
    due := Wrap(curTs + RTO_HASH);
    LapLater(curTs);
    hide Wrap, SeqDiff, Slot, Outcome, NoDup, Waits, Listed, FirstVisit;
    var store := new RtoStore();
    store.SetDeadline(1, curTs);
    assert 1 !in store.armed;
    store.AddtoRTOList(1, false);
    store.SetDeadline(2, due);
    store.AddtoRTOList(2, false);
    ghost var before, now := store.armed, store.now;
    assert before == map[1 := Armed(now, now), 2 := Armed(now, now + RTO_HASH)];
    FirstIsNow(now);
    var count;
    count, fired := store.CheckRtmTimeout(curTs, 10);
    TwoAtMost(before, store.armed, fired);
  }

  lemma LapLater(curTs: U32)
    ensures SeqDiff(Wrap(curTs + RTO_HASH), curTs) == RTO_HASH && SeqDiff(curTs, curTs) == 0
  {
  }

  lemma FirstIsNow(now: int)
    ensures FirstVisit(now, now + RTO_HASH) == now
  {
  }

  lemma TwoAtMost(before: map<int, Armed>, after: map<int, Armed>, fired: seq<int>)
    requires Outcome(before, after, fired) && before.Keys <= {1, 2}
    ensures |fired| <= 2
    ensures 2 in before ==> 2 in fired || (2 in after && after[2] == before[2])
  {
    forall x | x in fired ensures x in {1, 2} {
      assert x in before.Keys;
    }
    if 2 < |fired| {
      ThreeCollide(fired);
    }
  }

  lemma ThreeCollide(s: seq<int>)
    requires 2 < |s| && forall x :: x in s ==> x in {1, 2}
    ensures !NoDup(s)
  {
    assert s[0] in s && s[1] in s && s[2] in s;
    assert s[0] == s[1] || s[1] == s[2] || s[0] == s[2];
  }

  // What a sweep did: the streams that are gone came up, each once, and no others.
  ghost predicate Outcome(before: map<int, Armed>, after: map<int, Armed>, fired: seq<int>) {
    && (forall x :: x in after ==> x in before && after[x] == before[x])
    && (forall x :: x in before && x !in after ==> x in fired)
    && (forall x :: x in fired ==> x in before && x !in after)
    && NoDup(fired)
  }

  lemma NothingFired(armed: map<int, Armed>)
    ensures Outcome(armed, armed, [])
  {
  }

  lemma OneFired(before: map<int, Armed>, mid: map<int, Armed>, fired: seq<int>, x: int)
    requires Outcome(before, mid, fired) && x in mid
    ensures Outcome(before, mid - {x}, fired + [x]) && x in before && before[x] == mid[x]
  {
    hide FirstVisit;
  }

  lemma OutcomeJoins(before: map<int, Armed>, mid: map<int, Armed>, after: map<int, Armed>, f: seq<int>, g: seq<int>)
    requires Outcome(before, mid, f) && Outcome(mid, after, g)
    ensures Outcome(before, after, f + g)
    ensures forall x :: x in g ==> x in before && x in mid && before[x] == mid[x]
  {
    hide FirstVisit;
    var s := f + g;
    forall i, j | 0 <= i < j < |s| ensures s[i] != s[j] {
      if i < |f| <= j {
        assert s[i] in f && s[j] in g;
      }
    }
    assert forall x :: x in s <==> x in f || x in g;
  }

  lemma TailFacts(s: seq<int>)
    requires s != [] && NoDup(s)
    ensures NoDup(s[1..]) && forall y :: y in s[1..] <==> y in s && y != s[0]
  {
    assert s == [s[0]] + s[1..];
  }

  lemma TickWaits(slot: int, a: Armed, idx: int, now: int)
    requires Waits(slot, a, idx, now) && 0 <= idx < RTO_HASH && slot != idx
    ensures Waits(slot, a, (idx + 1) % RTO_HASH, now + 1)
  {
    SlotStays(idx, now, a.due);
    InSlot(idx, now, a.due);
    VisitStays(now, a.due);
  }

  lemma NotYet(onRtoIdx: map<int, int>, armed: map<int, Armed>, idx: int, now: int)
    requires armed.Keys == onRtoIdx.Keys && forall x :: x in onRtoIdx ==> Waits(onRtoIdx[x], armed[x], idx, now)
    ensures forall x :: x in armed ==> now <= armed[x].Visit()
  {
    forall x | x in armed ensures now <= armed[x].Visit() {
      assert x in onRtoIdx;
      NeverEarly(now, armed[x].due);
    }
  }

  lemma SeqDiffIsSmall(a: U32, b: U32)
    ensures -0x8000_0000 <= SeqDiff(a, b) < 0x8000_0000
  {
  }

  lemma SlotInRange(idx: int, diff: int)
    ensures 0 <= Slot(idx, diff) < RTO_HASH
  {
  }
}
