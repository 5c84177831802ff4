/** The event queues between the stack and the application, and the bits that say which events are on them. */
module EpollSpec {

  // An event of a socket: one bit of socket->events, with the data it was queued with.
  datatype Entry = Entry(sock: int, ev: int, data: int)

  function Key(e: Entry): (int, int) { (e.sock, e.ev) }

  // The queue an event is raised on.
  datatype Which = MtcpQueue | UserQueue | ShadowQueue

  datatype Epoll = Epoll(
    size: nat,
    mtcpq: seq<Entry>,
    usrq: seq<Entry>,
    shadow: seq<Entry>,
    events: set<(int, int)>,       // the bits of socket->events that are set
    interest: set<(int, int)>,     // socket->epoll
    inUse: set<int>,               // sockets whose type is not UNUSED
    // history
    registered: multiset<(int, int)>,
    delivered: multiset<(int, int)>)

  function QueueOf(p: Epoll, w: Which): seq<Entry> {
    match w
    case MtcpQueue => p.mtcpq
    case UserQueue => p.usrq
    case ShadowQueue => p.shadow
  }

  function WithQueue(p: Epoll, w: Which, q: seq<Entry>): Epoll {
    match w
    case MtcpQueue => p.(mtcpq := q)
    case UserQueue => p.(usrq := q)
    case ShadowQueue => p.(shadow := q)
  }

  // AddEpollEvent; false where the queue is full.
  function Add(p: Epoll, w: Which, e: Entry): (Epoll, bool) {
    if Key(e) in p.events then (p, true)
    else if |QueueOf(p, w)| >= p.size then (p, false)
    else
      var p' := WithQueue(p, w, QueueOf(p, w) + [e]);
      (p'.(events := p.events + {Key(e)}, registered := p.registered + multiset{Key(e)}), true)
  }

  // FlushEpollEvents
  function Flush(p: Epoll): Epoll
    decreases |p.mtcpq|
  {
    if p.mtcpq != [] && |p.usrq| < p.size
    then Flush(p.(usrq := p.usrq + [p.mtcpq[0]], mtcpq := p.mtcpq[1..]))
    else p
  }

  predicate IsValid(p: Epoll, e: Entry) { e.sock in p.inUse && Key(e) in p.interest && Key(e) in p.events }

  // The first entry of a queue leaves it; it is delivered if it is still valid, and its bit is cleared either way.
  function FetchOne(p: Epoll, w: Which): (Epoll, seq<Entry>)
    requires QueueOf(p, w) != []
  {
    var q := QueueOf(p, w);
    var e := q[0];
    var p' := WithQueue(p, w, q[1..]).(events := p.events - {Key(e)});
    if IsValid(p, e) then (p'.(delivered := p.delivered + multiset{Key(e)}), [e]) else (p', [])
  }

  // One fetch loop of mtcp_epoll_wait: at most n entries, and at most `room` of them delivered.
  function Fetch(p: Epoll, w: Which, n: nat, room: nat): (Epoll, seq<Entry>)
    requires n <= |QueueOf(p, w)|
    decreases n
  {
    if n == 0 || room == 0 then (p, [])
    else
      var (p', out) := FetchOne(p, w);
      var (p'', more) := Fetch(p', w, n - 1, room - |out|);
      (p'', out + more)
  }

  // The two loops.
  function Wait(p: Epoll, maxEvents: nat): (Epoll, seq<Entry>) {
    var (p', out) := Fetch(p, UserQueue, |p.usrq|, maxEvents);
    FetchCount(p, UserQueue, |p.usrq|, maxEvents);
    var (p'', more) := Fetch(p', ShadowQueue, |p'.shadow|, maxEvents - |out|);
    (p'', out + more)
  }

  // FreeSocket. The socket's entries stay on the queues.
  function FreeSocket(p: Epoll, s: int): Epoll {
    p.(inUse := p.inUse - {s},
       interest := (set k | k in p.interest && k.0 != s),
       events := (set k | k in p.events && k.0 != s))
  }

  // AllocateSocket; it takes no socket with a bit set.
  function AllocateSocket(p: Epoll, s: int): (Epoll, bool) {
    if exists k :: k in p.events && k.0 == s then (p, false)
    else (p.(inUse := p.inUse + {s}, interest := (set k | k in p.interest && k.0 != s)), true)
  }

  function SetInterest(p: Epoll, s: int, evs: set<int>): Epoll {
    p.(interest := (set k | k in p.interest && k.0 != s) + (set e | e in evs :: (s, e)))
  }

  // ---------------------------------------------------------------- what every step keeps

  predicate Has(q: seq<Entry>, k: (int, int)) {
    exists i :: 0 <= i < |q| && Key(q[i]) == k
  }

  predicate Queued(p: Epoll, k: (int, int)) { Has(p.mtcpq, k) || Has(p.usrq, k) || Has(p.shadow, k) }

  // A set bit has an entry on a queue, and counts as a registration not delivered yet.
  ghost predicate Inv(p: Epoll) {
    && (forall k :: k in p.events ==> Queued(p, k))
    && (forall k :: p.delivered[k] + (if k in p.events then 1 else 0) <= p.registered[k])
    && |p.mtcpq| <= p.size && |p.usrq| <= p.size && |p.shadow| <= p.size
  }

  lemma HasSnoc(q: seq<Entry>, e: Entry, k: (int, int))
    ensures Has(q + [e], k) <==> Has(q, k) || Key(e) == k
  {
    if Has(q, k) {
      var i :| 0 <= i < |q| && Key(q[i]) == k;
      assert Key((q + [e])[i]) == k;
    }
    assert Key((q + [e])[|q|]) == Key(e);
  }

  lemma HasTail(q: seq<Entry>, k: (int, int))
    requires q != []
    ensures Has(q, k) <==> Has(q[1..], k) || Key(q[0]) == k
  {
    if Has(q, k) && Key(q[0]) != k {
      var i :| 0 <= i < |q| && Key(q[i]) == k;
      assert Key(q[1..][i - 1]) == k;
    }
    if Has(q[1..], k) {
      var i :| 0 <= i < |q[1..]| && Key(q[1..][i]) == k;
      assert Key(q[i + 1]) == k;
    }
  }

  // An event is refused only by a full queue; a new one is the last on its queue, set and counted, and on no other.
  lemma AddExact(p: Epoll, w: Which, e: Entry)
    ensures var (p', ok) := Add(p, w, e); var taken := ok && Key(e) !in p.events;
            && (!ok <==> Key(e) !in p.events && p.size <= |QueueOf(p, w)|)
            && p'.events == (if ok then p.events + {Key(e)} else p.events)
            && (forall v :: QueueOf(p', v) == if taken && v == w then QueueOf(p, v) + [e] else QueueOf(p, v))
            && p'.registered == (if taken then p.registered + multiset{Key(e)} else p.registered)
  {
  }

  lemma AddKeeps(p: Epoll, w: Which, e: Entry)
    requires Inv(p)
    ensures Inv(Add(p, w, e).0)
  {
    hide Has;
    forall k ensures Has(QueueOf(p, w) + [e], k) <==> Has(QueueOf(p, w), k) || Key(e) == k {
      HasSnoc(QueueOf(p, w), e, k);
    }
  }

  lemma {:induction false} FlushKeeps(p: Epoll)
    requires Inv(p)
    ensures Inv(Flush(p)) && p.usrq + p.mtcpq == Flush(p).usrq + Flush(p).mtcpq
    ensures Flush(p).mtcpq == [] || |Flush(p).usrq| == p.size
    decreases |p.mtcpq|
  {
    if p.mtcpq != [] && |p.usrq| < p.size {
      var q := p.(usrq := p.usrq + [p.mtcpq[0]], mtcpq := p.mtcpq[1..]);
      FlushOneKeeps(p);
      FlushKeeps(q);
      assert p.usrq + p.mtcpq == q.usrq + q.mtcpq;
      hide Inv;
    }
  }

  lemma FlushOneKeeps(p: Epoll)
    requires Inv(p) && p.mtcpq != [] && |p.usrq| < p.size
    ensures Inv(p.(usrq := p.usrq + [p.mtcpq[0]], mtcpq := p.mtcpq[1..]))
  {
    hide Has;
    var q := p.(usrq := p.usrq + [p.mtcpq[0]], mtcpq := p.mtcpq[1..]);
    forall k ensures Queued(p, k) <==> Queued(q, k) {
      HasSnoc(p.usrq, p.mtcpq[0], k);
      HasTail(p.mtcpq, k);
    }
    hide Queued;
  }

  lemma FetchOneKeeps(p: Epoll, w: Which)
    requires Inv(p) && QueueOf(p, w) != []
    ensures Inv(FetchOne(p, w).0) && |QueueOf(FetchOne(p, w).0, w)| == |QueueOf(p, w)| - 1
    ensures var (p', out) := FetchOne(p, w); |out| <= 1 && p'.delivered == p.delivered + multiset(Keys(out))
  {
    hide Has;
    var q := QueueOf(p, w);
    forall k ensures Has(q, k) <==> Has(q[1..], k) || Key(q[0]) == k {
      HasTail(q, k);
    }
  }

  function Keys(out: seq<Entry>): seq<(int, int)> {
    seq(|out|, i requires 0 <= i < |out| => Key(out[i]))
  }

  lemma KeysConcat(a: seq<Entry>, b: seq<Entry>)
    ensures multiset(Keys(a + b)) == multiset(Keys(a)) + multiset(Keys(b))
    ensures forall k :: k in Keys(a + b) <==> k in Keys(a) || k in Keys(b)
  {
    assert Keys(a + b) == Keys(a) + Keys(b);
  }

  lemma FetchCount(p: Epoll, w: Which, n: nat, room: nat)
    requires n <= |QueueOf(p, w)|
    ensures |Fetch(p, w, n, room).1| <= room && |Fetch(p, w, n, room).1| <= n
    decreases n
  {
    if n > 0 && room > 0 {
      var (p', out) := FetchOne(p, w);
      FetchCount(p', w, n - 1, room - |out|);
    }
  }

  lemma NoKeys()
    ensures Keys([]) == []
  {
  }

  lemma FetchOneFacts(p: Epoll, w: Which)
    requires QueueOf(p, w) != []
    ensures var (p', out) := FetchOne(p, w); var q := QueueOf(p, w);
            && p'.size == p.size && p'.interest == p.interest && p'.inUse == p.inUse
            && p'.events == p.events - {Key(q[0])} && QueueOf(p', w) == q[1..]
            && out == (if IsValid(p, q[0]) then [q[0]] else [])
  {
  }

  lemma {:induction false} FetchKeeps(p: Epoll, w: Which, n: nat, room: nat)
    requires Inv(p) && n <= |QueueOf(p, w)|
    ensures var (p', out) := Fetch(p, w, n, room); Inv(p') && p'.delivered == p.delivered + multiset(Keys(out))
    decreases n
  {
    hide FetchOne, QueueOf, IsValid, Inv, Keys;
    if n > 0 && room > 0 {
      FetchOneFacts(p, w);
      FetchOneKeeps(p, w);
      var (p', out) := FetchOne(p, w);
      FetchKeeps(p', w, n - 1, room - |out|);
      var more := Fetch(p', w, n - 1, room - |out|).1;
      KeysConcat(out, more);
    } else {
      NoKeys();
    }
  }

  // Nothing is lost: an event that is set, still wanted, and has an entry among the first n of a queue is delivered by
  // a fetch of those with room for them.
  lemma {:induction false} FetchDelivers(p: Epoll, w: Which, n: nat, room: nat, k: (int, int))
    requires n <= |QueueOf(p, w)| && n <= room && Has(QueueOf(p, w)[..n], k)
    requires k in p.events && k in p.interest && k.0 in p.inUse
    ensures k in Keys(Fetch(p, w, n, room).1) && k !in Fetch(p, w, n, room).0.events
    decreases n
  {
    hide FetchOne, QueueOf;
    var q := QueueOf(p, w);
    assert n > 0;
    FetchOneFacts(p, w);
    var (p', out) := FetchOne(p, w);
    var more := Fetch(p', w, n - 1, room - |out|).1;
    KeysConcat(out, more);
    assert q[..n][1..] == QueueOf(p', w)[..n - 1];
    if Key(q[0]) == k {
      assert Keys(out)[0] == k;
      FetchOnlyClears(p', w, n - 1, room - |out|, k);
    } else {
      HasTail(q[..n], k);
      FetchDelivers(p', w, n - 1, room - |out|, k);
    }
  }

  lemma {:induction false} FetchOnlyClears(p: Epoll, w: Which, n: nat, room: nat, k: (int, int))
    requires n <= |QueueOf(p, w)| && k !in p.events
    ensures k !in Fetch(p, w, n, room).0.events
    decreases n
  {
    hide FetchOne, QueueOf, IsValid;
    if n > 0 && room > 0 {
      FetchOneFacts(p, w);
      var (p', out) := FetchOne(p, w);
      FetchOnlyClears(p', w, n - 1, room - |out|, k);
    }
  }

  // An entry that may be delivered from queue q: its event is wanted, set, and of a socket in use.
  predicate Due(p: Epoll, q: seq<Entry>, e: Entry) {
    e in q && e.sock in p.inUse && Key(e) in p.interest && Key(e) in p.events
  }

  lemma {:induction false} FetchOnlyDue(p: Epoll, w: Which, n: nat, room: nat)
    requires n <= |QueueOf(p, w)|
    ensures forall e :: e in Fetch(p, w, n, room).1 ==> Due(p, QueueOf(p, w), e)
    decreases n
  {
    hide FetchOne, QueueOf;
    if n > 0 && room > 0 {
      FetchOneFacts(p, w);
      var (p', out) := FetchOne(p, w);
      FetchOnlyDue(p', w, n - 1, room - |out|);
      forall e | e in Fetch(p', w, n - 1, room - |out|).1 ensures Due(p, QueueOf(p, w), e) {
        assert Due(p', QueueOf(p', w), e);
      }
    }
  }

  // Nothing else is delivered: each entry was on one of the two queues, for an event that was set, is in the interest
  // of its socket, and whose socket is in use.
  lemma WaitOnlyDue(p: Epoll, maxEvents: nat, e: Entry)
    requires e in Wait(p, maxEvents).1
    ensures Due(p, p.usrq + p.shadow, e)
  {
    hide Fetch;
    var (p', out) := Fetch(p, UserQueue, |p.usrq|, maxEvents);
    FetchCount(p, UserQueue, |p.usrq|, maxEvents);
    FetchOnlyDue(p, UserQueue, |p.usrq|, maxEvents);
    FetchOnlyDue(p', ShadowQueue, |p'.shadow|, maxEvents - |out|);
    FetchLeaves(p, UserQueue, |p.usrq|, maxEvents);
    if e !in out && Key(e) !in p.events {
      FetchOnlyClears(p, UserQueue, |p.usrq|, maxEvents, Key(e));
    }
  }

  // So a freed socket gets nothing, whatever is queued for it.
  lemma FreedIsSilent(p: Epoll, s: int, maxEvents: nat, e: Entry)
    requires e in Wait(FreeSocket(p, s), maxEvents).1
    ensures e.sock != s && s !in FreeSocket(p, s).inUse && Due(p, p.usrq + p.shadow, e)
  {
    WaitOnlyDue(FreeSocket(p, s), maxEvents, e);
  }

  lemma WaitKeeps(p: Epoll, maxEvents: nat)
    requires Inv(p)
    ensures var (p', out) := Wait(p, maxEvents);
            Inv(p') && p'.delivered == p.delivered + multiset(Keys(out)) && |out| <= maxEvents
  {
    hide Fetch, Inv, Keys;
    FetchKeeps(p, UserQueue, |p.usrq|, maxEvents);
    var (p', out) := Fetch(p, UserQueue, |p.usrq|, maxEvents);
    FetchCount(p, UserQueue, |p.usrq|, maxEvents);
    FetchKeeps(p', ShadowQueue, |p'.shadow|, maxEvents - |out|);
    FetchCount(p', ShadowQueue, |p'.shadow|, maxEvents - |out|);
    var more := Fetch(p', ShadowQueue, |p'.shadow|, maxEvents - |out|).1;
    KeysConcat(out, more);
  }

  // ---------------------------------------------------------------- every run

  datatype Step =
    | Raise(w: Which, e: Entry)
    | FlushEvents
    | EpollWait(maxEvents: nat)
    | Ctl(sock: int, evs: set<int>)
    | Free(sock: int)
    | Allocate(sock: int)

  function Next(p: Epoll, s: Step): Epoll {
    match s
    case Raise(w, e) => Add(p, w, e).0
    case FlushEvents => Flush(p)
    case EpollWait(maxEvents) => Wait(p, maxEvents).0
    case Ctl(sock, evs) => SetInterest(p, sock, evs)
    case Free(sock) => FreeSocket(p, sock)
    case Allocate(sock) => AllocateSocket(p, sock).0
  }

  function Idle(size: nat): Epoll {
    Epoll(size, [], [], [], {}, {}, {}, multiset{}, multiset{})
  }

  function After(size: nat, steps: seq<Step>): Epoll {
    if steps == [] then Idle(size) else Next(After(size, steps[..|steps| - 1]), steps[|steps| - 1])
  }

  // In every run of the stack and the application, atomic step by step: a set bit always has an entry queued, no event
  // is delivered more often than it was registered, and no queue exceeds its size.
  lemma {:induction false} NoDuplicates(size: nat, steps: seq<Step>)
    ensures Inv(After(size, steps)) && After(size, steps).size == size
  {
    if steps != [] {
      var p, s := After(size, steps[..|steps| - 1]), steps[|steps| - 1];
      NoDuplicates(size, steps[..|steps| - 1]);
      NextKeeps(p, s);
    }
  }

  lemma NextKeeps(p: Epoll, s: Step)
    requires Inv(p)
    ensures Inv(Next(p, s)) && Next(p, s).size == p.size
  {
    hide Add, Flush, Wait, Has;
    match s
    case Raise(w, e) => AddKeeps(p, w, e); SizeStays(p, s);
    case FlushEvents => FlushKeeps(p); SizeStays(p, s);
    case EpollWait(maxEvents) => WaitKeeps(p, maxEvents); SizeStays(p, s);
    case _ =>
  }

  lemma SizeStays(p: Epoll, s: Step)
    ensures Next(p, s).size == p.size
    decreases |p.mtcpq|
  {
    match s
    case EpollWait(maxEvents) =>
      FetchCount(p, UserQueue, |p.usrq|, maxEvents);
      var (p', out) := Fetch(p, UserQueue, |p.usrq|, maxEvents);
      FetchSize(p, UserQueue, |p.usrq|, maxEvents);
      FetchSize(p', ShadowQueue, |p'.shadow|, maxEvents - |out|);
    case FlushEvents =>
      if p.mtcpq != [] && |p.usrq| < p.size {
        SizeStays(p.(usrq := p.usrq + [p.mtcpq[0]], mtcpq := p.mtcpq[1..]), FlushEvents);
      }
    case _ =>
  }

  lemma {:induction false} FetchSize(p: Epoll, w: Which, n: nat, room: nat)
    requires n <= |QueueOf(p, w)|
    ensures Fetch(p, w, n, room).0.size == p.size
    decreases n
  {
    hide FetchOne, QueueOf, IsValid;
    if n > 0 && room > 0 {
      FetchOneFacts(p, w);
      var (p', out) := FetchOne(p, w);
      FetchSize(p', w, n - 1, room - |out|);
    }
  }

  lemma {:induction false} FetchClears(p: Epoll, w: Which, n: nat, room: nat, k: (int, int))
    requires n <= |QueueOf(p, w)| && k in p.events && !Has(QueueOf(p, w), k)
    ensures k in Fetch(p, w, n, room).0.events
    decreases n
  {
    hide FetchOne, QueueOf, IsValid, Has;
    if n > 0 && room > 0 {
      FetchOneFacts(p, w);
      HasTail(QueueOf(p, w), k);
      var (p', out) := FetchOne(p, w);
      FetchClears(p', w, n - 1, room - |out|, k);
    }
  }

  lemma {:induction false} FetchLeaves(p: Epoll, w: Which, n: nat, room: nat)
    requires n <= |QueueOf(p, w)|
    ensures var p' := Fetch(p, w, n, room).0;
            && (w != UserQueue ==> p'.usrq == p.usrq) && (w != ShadowQueue ==> p'.shadow == p.shadow)
            && p'.interest == p.interest && p'.inUse == p.inUse
    decreases n
  {
    hide FetchOne, QueueOf;
    if n > 0 && room > 0 {
      var (p', out) := FetchOne(p, w);
      FetchOneLeaves(p, w);
      FetchLeaves(p', w, n - 1, room - |out|);
    }
  }

  lemma FetchOneLeaves(p: Epoll, w: Which)
    requires QueueOf(p, w) != []
    ensures var p' := FetchOne(p, w).0;
            && (w != UserQueue ==> p'.usrq == p.usrq) && (w != ShadowQueue ==> p'.shadow == p.shadow)
            && p'.interest == p.interest && p'.inUse == p.inUse && QueueOf(p', w) == QueueOf(p, w)[1..]
            && |FetchOne(p, w).1| <= 1
  {
  }

  lemma {:induction false} FlushMovesOnly(p: Epoll)
    ensures Flush(p).(mtcpq := p.mtcpq, usrq := p.usrq) == p
    decreases |p.mtcpq|
  {
    if p.mtcpq != [] && |p.usrq| < p.size {
      FlushMovesOnly(p.(usrq := p.usrq + [p.mtcpq[0]], mtcpq := p.mtcpq[1..]));
    }
  }

  // A bit is cleared only by taking an entry for it off a queue, or with its socket.
  lemma OnlyFetchOrFreeClears(p: Epoll, s: Step, k: (int, int))
    requires k in p.events && k !in Next(p, s).events
    ensures (s.EpollWait? && (Has(p.usrq, k) || Has(p.shadow, k))) || s == Free(k.0)
  {
    hide Fetch, Has, Flush;
    match s
    case EpollWait(maxEvents) =>
      if !Has(p.usrq, k) && !Has(p.shadow, k) {
        var (p', out) := Fetch(p, UserQueue, |p.usrq|, maxEvents);
        FetchClears(p, UserQueue, |p.usrq|, maxEvents, k);
        FetchLeaves(p, UserQueue, |p.usrq|, maxEvents);
        FetchCount(p, UserQueue, |p.usrq|, maxEvents);
        FetchClears(p', ShadowQueue, |p'.shadow|, maxEvents - |out|, k);
      }
    case FlushEvents => FlushMovesOnly(p);
    case _ =>
  }

  // ---------------------------------------------------------------- whose data an event is delivered with

  // The entries for an event among those delivered.
  function Of(out: seq<Entry>, k: (int, int)): seq<Entry> {
    if out == [] then [] else (if Key(out[0]) == k then [out[0]] else []) + Of(out[1..], k)
  }

  // The first entry for an event on a queue, if there is one.
  function FirstOf(q: seq<Entry>, k: (int, int)): seq<Entry> {
    if q == [] then [] else if Key(q[0]) == k then [q[0]] else FirstOf(q[1..], k)
  }

  lemma NoneHas(k: (int, int))
    ensures !Has([], k)
  {
  }

  lemma {:induction false} OfConcat(a: seq<Entry>, b: seq<Entry>, k: (int, int))
    ensures Of(a + b, k) == Of(a, k) + Of(b, k)
  {
    if a == [] {
      assert a + b == b;
    } else {
      OfConcat(a[1..], b, k);
      assert (a + b)[1..] == a[1..] + b;
    }
  }

  lemma {:induction false} FirstOfConcat(a: seq<Entry>, b: seq<Entry>, k: (int, int))
    ensures FirstOf(a + b, k) == if Has(a, k) then FirstOf(a, k) else FirstOf(b, k)
  {
    hide Has;
    if a == [] {
      NoneHas(k);
      assert a + b == b;
    } else {
      FirstOfConcat(a[1..], b, k);
      HasTail(a, k);
      assert (a + b)[1..] == a[1..] + b;
    }
  }

  lemma FetchTurnOf(p: Epoll, w: Which, n: nat, room: nat, k: (int, int))
    requires 0 < n <= |QueueOf(p, w)| && 0 < room
    ensures var (p', out) := FetchOne(p, w);
            && n - 1 <= |QueueOf(p', w)| && |out| <= 1
            && Fetch(p, w, n, room).0 == Fetch(p', w, n - 1, room - |out|).0
            && Of(Fetch(p, w, n, room).1, k) == Of(out, k) + Of(Fetch(p', w, n - 1, room - |out|).1, k)
  {
    hide FetchOne, QueueOf, Of;
    FetchOneFacts(p, w);
    var (p', out) := FetchOne(p, w);
    OfConcat(out, Fetch(p', w, n - 1, room - |out|).1, k);
  }

  lemma FetchOneSilent(p: Epoll, w: Which, k: (int, int))
    requires QueueOf(p, w) != [] && k !in p.events
    ensures k !in FetchOne(p, w).0.events && Of(FetchOne(p, w).1, k) == []
  {
    hide FetchOne, QueueOf;
    FetchOneFacts(p, w);
  }

  lemma NothingOf(k: (int, int))
    ensures Of([], k) == []
  {
  }

  lemma {:induction false} SilentIfClear(p: Epoll, w: Which, n: nat, room: nat, k: (int, int))
    requires n <= |QueueOf(p, w)| && k !in p.events
    ensures Of(Fetch(p, w, n, room).1, k) == []
    decreases n
  {
    hide FetchOne, QueueOf, IsValid, Of;
    if n > 0 && room > 0 {
      FetchOneSilent(p, w, k);
      FetchTurnOf(p, w, n, room, k);
      var (p', out) := FetchOne(p, w);
      SilentIfClear(p', w, n - 1, room - |out|, k);
    } else {
      NothingOf(k);
    }
  }

  lemma FetchOneAnswers(p: Epoll, w: Which, k: (int, int))
    requires QueueOf(p, w) != [] && k in p.events && k in p.interest && k.0 in p.inUse
    ensures var (p', out) := FetchOne(p, w); var e := QueueOf(p, w)[0];
            && QueueOf(p', w) == QueueOf(p, w)[1..] && |out| <= 1
            && Of(out, k) == (if Key(e) == k then [e] else [])
            && (k in p'.events <==> Key(e) != k) && k in p'.interest && k.0 in p'.inUse
  {
    hide FetchOne, QueueOf;
    FetchOneFacts(p, w);
  }

  lemma FirstOfHead(q: seq<Entry>, n: nat, k: (int, int))
    requires 0 < n <= |q|
    ensures FirstOf(q[..n], k) == if Key(q[0]) == k then [q[0]] else FirstOf(q[1..][..n - 1], k)
    ensures Has(q[..n], k) <==> Key(q[0]) == k || Has(q[1..][..n - 1], k)
  {
    hide Has;
    assert q[..n][1..] == q[1..][..n - 1];
    HasTail(q[..n], k);
  }

  lemma NothingFetched(p: Epoll, w: Which, room: nat, k: (int, int))
    ensures Fetch(p, w, 0, room) == (p, []) && Of([], k) == [] && FirstOf([], k) == [] && !Has([], k)
  {
  }

  // A set and wanted event is delivered once, with its first entry on the queue.
  lemma {:induction false} FetchAnswersFirst(p: Epoll, w: Which, n: nat, room: nat, k: (int, int))
    requires n <= |QueueOf(p, w)| && n <= room && k in p.events && k in p.interest && k.0 in p.inUse
    ensures Of(Fetch(p, w, n, room).1, k) == FirstOf(QueueOf(p, w)[..n], k)
    ensures k in Fetch(p, w, n, room).0.events <==> !Has(QueueOf(p, w)[..n], k)
    decreases n
  {
    hide *;
    if n == 0 {
      NothingFetched(p, w, room, k);
      assert QueueOf(p, w)[..n] == [];
    } else {
      FetchOneAnswers(p, w, k);
      FetchTurnOf(p, w, n, room, k);
      FirstOfHead(QueueOf(p, w), n, k);
      var (p', out) := FetchOne(p, w);
      if Key(QueueOf(p, w)[0]) == k {
        SilentIfClear(p', w, n - 1, room - |out|, k);
        FetchOnlyClears(p', w, n - 1, room - |out|, k);
      } else {
        FetchAnswersFirst(p', w, n - 1, room - |out|, k);
      }
    }
  }

  // The two loops, with room for all that is queued.
  lemma WaitAnswersFirst(p: Epoll, maxEvents: nat, k: (int, int))
    requires |p.usrq| + |p.shadow| <= maxEvents && k in p.events && k in p.interest && k.0 in p.inUse
    ensures Of(Wait(p, maxEvents).1, k) == FirstOf(p.usrq + p.shadow, k)
  {
    hide Fetch, Has;
    var n := |p.usrq|;
    var (p', out) := Fetch(p, UserQueue, n, maxEvents);
    FetchCount(p, UserQueue, n, maxEvents);
    FetchAnswersFirst(p, UserQueue, n, maxEvents, k);
    FetchLeaves(p, UserQueue, n, maxEvents);
    var room := maxEvents - |out|;
    var more := Fetch(p', ShadowQueue, |p'.shadow|, room).1;
    OfConcat(out, more, k);
    FirstOfConcat(p.usrq, p.shadow, k);
    assert p.usrq[..n] == p.usrq && p.shadow[..|p.shadow|] == p.shadow;
    if Has(p.usrq, k) {
      SilentIfClear(p', ShadowQueue, |p'.shadow|, room, k);
    } else {
      FetchAnswersFirst(p', ShadowQueue, |p'.shadow|, room, k);
      NoneOf(p.usrq, k);
    }
  }

  lemma {:induction false} NoneOf(q: seq<Entry>, k: (int, int))
    ensures FirstOf(q, k) == [] <==> !Has(q, k)
  {
    if q != [] {
      NoneOf(q[1..], k);
      HasTail(q, k);
    }
  }

  // A freed socket can be allocated again at once: its bits are cleared, so the test for them never refuses it.
  lemma FreedSocketIsTaken(p: Epoll, s: int)
    ensures AllocateSocket(FreeSocket(p, s), s).1
  {
  }

  // What mtcp_epoll_wait meets, after a flush, before an entry that is put on this queue now.
  function Ahead(p: Epoll, w: Which): seq<Entry> {
    match w
    case MtcpQueue => p.usrq + p.mtcpq
    case UserQueue => p.usrq
    case ShadowQueue => p.usrq + p.mtcpq + p.shadow
  }

  function Behind(p: Epoll, w: Which): seq<Entry> {
    match w
    case MtcpQueue => p.shadow
    case UserQueue => p.mtcpq + p.shadow
    case ShadowQueue => []
  }

  // The socket is freed and allocated again, the new owner asks for events, and one is raised and flushed.
  function NewOwner(p: Epoll, e: Entry, evs: set<int>, w: Which): Epoll {
    Next(Next(Next(Next(Next(p, Free(e.sock)), Allocate(e.sock)), Ctl(e.sock, evs)), Raise(w, e)), FlushEvents)
  }

  lemma NewOwnerRaised(p: Epoll, e: Entry, evs: set<int>, w: Which)
    requires e.ev in evs && |QueueOf(p, w)| < p.size && |p.usrq| + |p.mtcpq| < p.size
    ensures var q := NewOwner(p, e, evs, w);
            && q.usrq + q.shadow == Ahead(p, w) + [e] + Behind(p, w)
            && Key(e) in q.events && Key(e) in q.interest && e.sock in q.inUse
  {
    hide Flush;
    FreedSocketIsTaken(p, e.sock);
    var c := Next(Next(Next(p, Free(e.sock)), Allocate(e.sock)), Ctl(e.sock, evs));
    assert Key(e) !in c.events && Key(e) in c.interest;
    var r := Next(c, Raise(w, e));
    FlushMovesOnly(r);
    FlushOrder(r);
    match w
    case MtcpQueue => assert p.usrq + (p.mtcpq + [e]) == Ahead(p, w) + [e];
    case UserQueue => assert p.usrq + [e] + p.mtcpq + p.shadow == Ahead(p, w) + [e] + Behind(p, w);
    case ShadowQueue => assert p.usrq + p.mtcpq + (p.shadow + [e]) == Ahead(p, w) + [e];
  }

  lemma {:induction false} FlushOrder(p: Epoll)
    ensures p.usrq + p.mtcpq == Flush(p).usrq + Flush(p).mtcpq
    ensures |p.usrq| + |p.mtcpq| <= p.size ==> Flush(p).mtcpq == []
    decreases |p.mtcpq|
  {
    if p.mtcpq != [] && |p.usrq| < p.size {
      var q := p.(usrq := p.usrq + [p.mtcpq[0]], mtcpq := p.mtcpq[1..]);
      FlushOrder(q);
      assert p.usrq + p.mtcpq == q.usrq + q.mtcpq;
    }
  }

  // Whether the new owner of a socket gets its own event: the call delivers it exactly if the socket was freed with no
  // entry for the same event still queued ahead of it. Otherwise it delivers the first of those, with the data the old
  // owner registered.
  lemma OwnEntryAnswered(p: Epoll, e: Entry, evs: set<int>, w: Which, maxEvents: nat)
    requires e.ev in evs && |QueueOf(p, w)| < p.size && |p.usrq| + |p.mtcpq| < p.size
    requires var q := NewOwner(p, e, evs, w); |q.usrq| + |q.shadow| <= maxEvents
    ensures var got := Of(Wait(NewOwner(p, e, evs, w), maxEvents).1, Key(e));
            && got == (if Has(Ahead(p, w), Key(e)) then FirstOf(Ahead(p, w), Key(e)) else [e])
            && (got == [e] <==> !Has(Ahead(p, w), Key(e)) || FirstOf(Ahead(p, w), Key(e)) == [e])
  {
    hide NewOwner, Wait, Has, Ahead, Behind;
    NewOwnerRaised(p, e, evs, w);
    WaitAnswersFirst(NewOwner(p, e, evs, w), maxEvents, Key(e));
    FirstOfConcat(Ahead(p, w) + [e], Behind(p, w), Key(e));
    FirstOfConcat(Ahead(p, w), [e], Key(e));
    HasSnoc(Ahead(p, w), e, Key(e));
  }

  // An input: the old entry is delivered, with the old data.
  lemma StaleEntry(d1: int, d2: int)
    ensures var p1 := Next(Next(Next(Idle(4), Allocate(0)), Ctl(0, {1})), Raise(UserQueue, Entry(0, 1, d1)));
            var p2 := Next(Next(Next(Next(p1, Free(0)), Allocate(0)), Ctl(0, {1})), Raise(UserQueue, Entry(0, 1, d2)));
            && p2.usrq == [Entry(0, 1, d1), Entry(0, 1, d2)] && Wait(p2, 2).1 == [Entry(0, 1, d1)]
  {
    var p1 := Next(Next(Next(Idle(4), Allocate(0)), Ctl(0, {1})), Raise(UserQueue, Entry(0, 1, d1)));
    RaiseOnIdle(Idle(4), Entry(0, 1, d1));
    RaiseOnIdle(Next(p1, Free(0)), Entry(0, 1, d2));
    hide Next;
    var p2 := Next(Next(Next(Next(p1, Free(0)), Allocate(0)), Ctl(0, {1})), Raise(UserQueue, Entry(0, 1, d2)));
    assert [Entry(0, 1, d1)] + [Entry(0, 1, d2)] == [Entry(0, 1, d1), Entry(0, 1, d2)];
    TwoEntries(p2, Entry(0, 1, d1), Entry(0, 1, d2));
  }

  // A socket without a bit set is taken, and an event of it is raised.
  lemma RaiseOnIdle(p: Epoll, e: Entry)
    requires (forall k :: k in p.events ==> k.0 != e.sock) && |p.usrq| < p.size
    ensures var q := Next(Next(Next(p, Allocate(e.sock)), Ctl(e.sock, {e.ev})), Raise(UserQueue, e));
            && q.usrq == p.usrq + [e] && q.shadow == p.shadow && q.size == p.size && IsValid(q, e)
            && forall k :: k in Next(q, Free(e.sock)).events ==> k.0 != e.sock
    ensures var q := Next(Next(Next(p, Allocate(e.sock)), Ctl(e.sock, {e.ev})), Raise(UserQueue, e));
            var f := Next(q, Free(e.sock)); (f.usrq, f.shadow, f.size) == (q.usrq, q.shadow, q.size)
  {
  }

  // Of two entries for one set bit only the first is delivered.
  lemma TwoEntries(p: Epoll, e: Entry, e': Entry)
    requires p.usrq == [e, e'] && p.shadow == [] && Key(e) == Key(e') && IsValid(p, e)
    ensures Wait(p, 2).1 == [e]
  {
    var (p', out) := FetchOne(p, UserQueue);
    assert out == [e] && p'.usrq == [e'] && !IsValid(p', e');
    var (p'', none) := FetchOne(p', UserQueue);
    assert none == [] && p''.usrq == [];
    var more := Fetch(p'', UserQueue, 0, 1).1;
    assert more == [] && none + more == [] && out + [] == [e];
    assert Fetch(p', UserQueue, 1, 1) == (p'', []);
    assert Fetch(p, UserQueue, 2, 2) == (p'', [e]);
    assert Fetch(p'', ShadowQueue, 0, 1).1 == [];
  }
}
