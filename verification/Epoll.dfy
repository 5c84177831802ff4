/** The event queues as circular arrays, and the calls that move events over them. */
module EventPoll {
  import opened EpollSpec

  // struct event_queue
  class EventQueue {
    const slots: array<Entry>
    var start: int
    var end: int
    var num: int

    ghost predicate Valid()
      reads this
    {
      && 0 < slots.Length && 0 <= start < slots.Length && 0 <= num <= slots.Length
      && end == if start + num < slots.Length then start + num else start + num - slots.Length
    }

    ghost function Contents(): (s: seq<Entry>)
      requires Valid()
      reads this, slots
      ensures |s| == num
    {
      if start + num <= slots.Length then slots[start..start + num]
      else slots[start..] + slots[..start + num - slots.Length]
    }

    // CreateEventQueue
    constructor (size: nat)
      requires 0 < size
      ensures Valid() && Contents() == [] && slots.Length == size && fresh(slots)
    {
      slots := new Entry[size](_ => Entry(0, 0, 0));
      start, end, num := 0, 0, 0;
    }

    // The caller has seen that there is room.
    method Push(e: Entry)
      requires Valid() && num < slots.Length
      modifies this, slots
      ensures Valid() && Contents() == old(Contents()) + [e]
    {
      ghost var was := Contents();
      slots[end] := e;
      end := end + 1;
      if end >= slots.Length {
        end := 0;
      }
      num := num + 1;
      assert Contents() == was + [e];
    }

    method Pop() returns (e: Entry)
      requires Valid() && num > 0
      modifies this
      ensures Valid() && old(Contents()) == [e] + Contents()
    {
      ghost var was := Contents();
      e := slots[start];
      assert e == was[0];
      start := start + 1;
      if start >= slots.Length {
        start := 0;
      }
      num := num - 1;
      assert was == [e] + Contents();
    }
  }

  class MtcpEpoll {
    const mtcpQueue: EventQueue
    const usrQueue: EventQueue
    const shadowQueue: EventQueue
    const size: nat
    var events: set<(int, int)>
    var interest: set<(int, int)>
    var inUse: set<int>
    ghost var registered: multiset<(int, int)>
    ghost var delivered: multiset<(int, int)>

    ghost const Repr: set<object> :=
      {mtcpQueue, usrQueue, shadowQueue, mtcpQueue.slots, usrQueue.slots, shadowQueue.slots}

    ghost predicate Valid()
      reads this, mtcpQueue, usrQueue, shadowQueue
    {
      && mtcpQueue.Valid() && usrQueue.Valid() && shadowQueue.Valid()
      && mtcpQueue.slots.Length == usrQueue.slots.Length == shadowQueue.slots.Length == size
      && mtcpQueue != usrQueue && usrQueue != shadowQueue && mtcpQueue != shadowQueue
      && mtcpQueue.slots != usrQueue.slots && usrQueue.slots != shadowQueue.slots
      && mtcpQueue.slots != shadowQueue.slots
    }

    ghost function Abs(): Epoll
      requires Valid()
      reads this, Repr
    {
      Epoll(size, mtcpQueue.Contents(), usrQueue.Contents(), shadowQueue.Contents(), events, interest, inUse,
            registered, delivered)
    }

    constructor (size: nat)
      requires 0 < size
      ensures Valid() && Abs() == Idle(size) && fresh(Repr)
    {
      mtcpQueue := new EventQueue(size);
      usrQueue := new EventQueue(size);
      shadowQueue := new EventQueue(size);
      this.size := size;
      events, interest, inUse, registered, delivered := {}, {}, {}, multiset{}, multiset{};
    }

    function Queue(w: Which): EventQueue {
      match w
      case MtcpQueue => mtcpQueue
      case UserQueue => usrQueue
      case ShadowQueue => shadowQueue
    }

    // AddEpollEvent
    method AddEpollEvent(w: Which, e: Entry) returns (ret: int)
      requires Valid()
      modifies this`events, this`registered, Queue(w), Queue(w).slots
      ensures Valid() && Abs() == Add(old(Abs()), w, e).0 && ret == if Add(old(Abs()), w, e).1 then 0 else -1
      ensures events == if ret == 0 then old(events) + {Key(e)} else old(events)
    {
      hide EventQueue.Valid, EventQueue.Contents;
      if (e.sock, e.ev) in events {
        return 0;
      }
      var eq := Queue(w);
      if eq.num >= eq.slots.Length {
        return -1;
      }
      events := events + {(e.sock, e.ev)};
      registered := registered + multiset{Key(e)};
      eq.Push(e);
      ret := 0;
    }

    // FlushEpollEvents
    method FlushEpollEvents()
      requires Valid()
      modifies mtcpQueue, usrQueue, usrQueue.slots
      ensures Valid() && Abs() == Flush(old(Abs()))
    {
      hide EventQueue.Valid, EventQueue.Contents, Flush;
      while mtcpQueue.num > 0 && usrQueue.num < usrQueue.slots.Length
        invariant Valid() && Flush(Abs()) == Flush(old(Abs()))
        decreases mtcpQueue.num
      {
        ghost var was := Abs();
        FlushTurn(was);
        var e := mtcpQueue.Pop();
        usrQueue.Push(e);
        assert Abs() == was.(usrq := was.usrq + [was.mtcpq[0]], mtcpq := was.mtcpq[1..]);
      }
      FlushOver(Abs());
    }

    // One turn of a fetch loop.
    method FetchFirst(w: Which) returns (out: seq<Entry>)
      requires Valid() && Queue(w).num > 0
      modifies this`events, this`delivered, Queue(w)
      ensures Valid() && (Abs(), out) == FetchOne(old(Abs()), w) && Queue(w).num == old(Queue(w).num) - 1
    {
      hide EventQueue.Valid, EventQueue.Contents;
      var e := PopFrom(w);
      var validity := e.sock in inUse && (e.sock, e.ev) in interest && (e.sock, e.ev) in events;
      out := [];
      if validity {
        out := [e];
        delivered := delivered + multiset{Key(e)};
      }
      events := events - {(e.sock, e.ev)};
    }

    method PopFrom(w: Which) returns (e: Entry)
      requires Valid() && Queue(w).num > 0
      modifies Queue(w)
      ensures Valid() && QueueOf(old(Abs()), w) != [] && e == QueueOf(old(Abs()), w)[0]
      ensures Abs() == WithQueue(old(Abs()), w, QueueOf(old(Abs()), w)[1..])
      ensures Queue(w).num == old(Queue(w).num) - 1
    {
      hide EventQueue.Valid, EventQueue.Contents;
      e := Queue(w).Pop();
    }

    // A fetch loop of mtcp_epoll_wait.
    method FetchQueue(w: Which, maxEvents: nat) returns (out: seq<Entry>)
      requires Valid()
      modifies this`events, this`delivered, Queue(w)
      ensures Valid() && (Abs(), out) == Fetch(old(Abs()), w, |QueueOf(old(Abs()), w)|, maxEvents)
    {
      hide FetchOne, Fetch, EventQueue.Valid, EventQueue.Contents;
      out := [];
      var numEvents := Queue(w).num;
      var i := 0;
      FetchFrom(Abs(), w, numEvents, maxEvents, []);
      while i < numEvents && |out| < maxEvents
        invariant 0 <= i <= numEvents && |out| <= maxEvents && Valid() && Queue(w).num == numEvents - i
        invariant FetchRest(Abs(), w, numEvents - i, maxEvents - |out|, out)
          == Fetch(old(Abs()), w, numEvents, maxEvents)
      {
        FetchTurn(Abs(), w, numEvents - i, maxEvents - |out|, out);
        var one := FetchFirst(w);
        out := out + one;
        i := i + 1;
      }
      FetchEnds(Abs(), w, numEvents - i, maxEvents - |out|, out);
    }

    // mtcp_epoll_wait where it does not wait.
    method EpollWait(maxEvents: nat) returns (out: seq<Entry>)
      requires Valid()
      modifies this`events, this`delivered, usrQueue, shadowQueue
      ensures Valid() && (Abs(), out) == Wait(old(Abs()), maxEvents)
    {
      hide Fetch, EventQueue.Valid, EventQueue.Contents;
      FetchCount(Abs(), UserQueue, usrQueue.num, maxEvents);
      out := FetchQueue(UserQueue, maxEvents);
      var more := FetchQueue(ShadowQueue, maxEvents - |out|);
      out := out + more;
    }
  }

  lemma FlushTurn(p: Epoll)
    requires p.mtcpq != [] && |p.usrq| < p.size
    ensures Flush(p) == Flush(p.(usrq := p.usrq + [p.mtcpq[0]], mtcpq := p.mtcpq[1..]))
  {
  }

  lemma FlushOver(p: Epoll)
    requires p.mtcpq == [] || |p.usrq| >= p.size
    ensures Flush(p) == p
  {
  }

  // The rest of a fetch loop, after what was delivered already.
  ghost function FetchRest(p: Epoll, w: Which, n: int, room: int, out: seq<Entry>): (Epoll, seq<Entry>)
    requires 0 <= n <= |QueueOf(p, w)| && 0 <= room
  {
    var (p', more) := Fetch(p, w, n, room);
    (p', out + more)
  }

  lemma FetchFrom(p: Epoll, w: Which, n: int, room: int, out: seq<Entry>)
    requires 0 <= n <= |QueueOf(p, w)| && 0 <= room && out == []
    ensures FetchRest(p, w, n, room, out) == Fetch(p, w, n, room)
  {
    var more := Fetch(p, w, n, room).1;
    assert [] + more == more;
  }

  lemma FetchTurn(p: Epoll, w: Which, n: int, room: int, out: seq<Entry>)
    requires 0 < n <= |QueueOf(p, w)| && 0 < room
    ensures var (p', one) := FetchOne(p, w);
            && n - 1 <= |QueueOf(p', w)| && |one| <= 1
            && FetchRest(p, w, n, room, out) == FetchRest(p', w, n - 1, room - |one|, out + one)
  {
    hide FetchOne, QueueOf, IsValid;
    FetchOneFacts(p, w);
    var (p', one) := FetchOne(p, w);
    var more := Fetch(p', w, n - 1, room - |one|).1;
    assert out + (one + more) == out + one + more;
  }

  lemma FetchEnds(p: Epoll, w: Which, n: int, room: int, out: seq<Entry>)
    requires 0 <= n <= |QueueOf(p, w)| && 0 <= room && (n == 0 || room == 0)
    ensures FetchRest(p, w, n, room, out) == (p, out)
  {
    assert out + [] == out;
  }
}
