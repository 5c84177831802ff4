/** The lock-free queue between the application thread and the stack: one producer, one consumer, and every interleaving
    of their single loads and stores, under sequential consistency. */
module StreamQueue {
  import Modular

  // An entry of the array: calloc leaves NULL, and only streams are enqueued.
  datatype Ref = Null | Stream(id: nat)

  // struct stream_queue; q has capacity + 1 slots.
  datatype Queue = Queue(capacity: nat, head: int, tail: int, q: seq<Ref>)

  function NextIndex(capacity: nat, i: int): int {
    if i != capacity then i + 1 else 0
  }

  // Where each thread stands in its call, with the values its locals hold.
  datatype Producer = Outside | LoadedHead(x: nat, h: int) | LoadedTail(x: nat, h: int, t: int)
                    | StoredSlot(x: nat, t: int)
  datatype Consumer = Away | GotHead(h: int) | GotTail(h: int, t: int) | GotSlot(h: int, item: Ref)

  // Calls with their results, as a sequential queue would see them.
  datatype Op = Enqueued(x: nat) | Refused(x: nat) | Dequeued(x: nat) | FoundEmpty

  datatype World = World(
    sq: Queue,
    prod: Producer,
    cons: Consumer,
    // history
    put: seq<nat>,           // streams published, in order
    taken: nat,              // how many of them were taken
    headSeen: nat,           // `taken` when the producer last loaded _head
    tailSeen: nat,           // |put| when the consumer last loaded _tail
    log: seq<Op>,            // calls in the order in which they take effect
    prodDone: seq<Op>,       // calls of the producer that returned
    consDone: seq<Op>)       // calls of the consumer that returned

  // CreateStreamQueue, with both threads outside their calls.
  function Init(capacity: nat): World {
    World(Queue(capacity, 0, 0, seq(capacity + 1, _ => Null)), Outside, Away, [], 0, 0, 0, [], [], [])
  }

  // One load, store or return of StreamEnqueue; a new call enqueues x.
  function ProducerStep(w: World, x: nat): World
    requires w.prod.LoadedTail? ==> 0 <= w.prod.t < |w.sq.q|
  {
    match w.prod
    case Outside =>
      w.(prod := LoadedHead(x, w.sq.head), headSeen := w.taken,
         log := if |w.put| - w.taken == w.sq.capacity then w.log + [Refused(x)] else w.log)
    case LoadedHead(x, h) => w.(prod := LoadedTail(x, h, w.sq.tail))
    case LoadedTail(x, h, t) =>
      if NextIndex(w.sq.capacity, t) != h
      then w.(prod := StoredSlot(x, t), sq := w.sq.(q := w.sq.q[t := Stream(x)]))
      else w.(prod := Outside, prodDone := w.prodDone + [Refused(x)])
    case StoredSlot(x, t) =>
      w.(prod := Outside, sq := w.sq.(tail := NextIndex(w.sq.capacity, t)), put := w.put + [x],
         log := w.log + [Enqueued(x)], prodDone := w.prodDone + [Enqueued(x)])
  }

  // One load, store or return of StreamDequeue.
  function ConsumerStep(w: World): World
    requires w.cons.GotTail? ==> 0 <= w.cons.h < |w.sq.q|
    requires w.cons.GotSlot? ==> w.cons.item.Stream?
  {
    match w.cons
    case Away => w.(cons := GotHead(w.sq.head))
    case GotHead(h) =>
      w.(cons := GotTail(h, w.sq.tail), tailSeen := |w.put|,
         log := if |w.put| == w.taken then w.log + [FoundEmpty] else w.log)
    case GotTail(h, t) =>
      if h != t then w.(cons := GotSlot(h, w.sq.q[h])) else w.(cons := Away, consDone := w.consDone + [FoundEmpty])
    case GotSlot(h, item) =>
      w.(cons := Away, sq := w.sq.(head := NextIndex(w.sq.capacity, h)), taken := w.taken + 1,
         log := w.log + [Dequeued(item.id)], consDone := w.consDone + [Dequeued(item.id)])
  }

  // ---------------------------------------------------------------- the sequential queue

  // What a FIFO queue of this capacity holds after the calls; None if it would have answered one of them otherwise.
  datatype Contents = Impossible | Holds(items: seq<nat>)

  function Replay(log: seq<Op>, capacity: nat): Contents {
    if log == [] then Holds([])
    else
      match Replay(log[..|log| - 1], capacity)
      case Impossible => Impossible
      case Holds(items) =>
        match log[|log| - 1]
        case Enqueued(x) => if |items| < capacity then Holds(items + [x]) else Impossible
        case Refused(x) => if |items| == capacity then Holds(items) else Impossible
        case Dequeued(x) => if items != [] && items[0] == x then Holds(items[1..]) else Impossible
        case FoundEmpty => if items == [] then Holds(items) else Impossible
  }

  predicate OfProducer(op: Op) { op.Enqueued? || op.Refused? }

  // The calls of one thread, in order.
  function Calls(log: seq<Op>, producer: bool): seq<Op> {
    if log == [] then []
    else
      var last := log[|log| - 1];
      Calls(log[..|log| - 1], producer) + (if OfProducer(last) == producer then [last] else [])
  }

  lemma ReplayNext(log: seq<Op>, op: Op, capacity: nat)
    ensures Replay(log + [op], capacity) ==
            match Replay(log, capacity)
            case Impossible => Impossible
            case Holds(items) =>
              match op
              case Enqueued(x) => if |items| < capacity then Holds(items + [x]) else Impossible
              case Refused(x) => if |items| == capacity then Holds(items) else Impossible
              case Dequeued(x) => if items != [] && items[0] == x then Holds(items[1..]) else Impossible
              case FoundEmpty => if items == [] then Holds(items) else Impossible
  {
    assert (log + [op])[..|log|] == log;
  }

  lemma CallsNext(log: seq<Op>, op: Op, producer: bool)
    ensures Calls(log + [op], producer) == Calls(log, producer) + (if OfProducer(op) == producer then [op] else [])
  {
    assert (log + [op])[..|log|] == log;
  }

  // ---------------------------------------------------------------- what every step keeps

  // The slot of the i-th stream ever put.
  function Slot(i: nat, capacity: nat): int {
    i % (capacity + 1)
  }

  ghost predicate MemoryInv(w: World) {
    var c := w.sq.capacity;
    && |w.sq.q| == c + 1 && (forall i: nat :: 0 <= Slot(i, c) <= c) && w.taken <= |w.put| <= w.taken + w.sq.capacity
    && w.sq.head == Slot(w.taken, c) && w.sq.tail == Slot(|w.put|, c)
    && forall i :: w.taken <= i < |w.put| ==> w.sq.q[Slot(i, c)] == Stream(w.put[i])
  }

  ghost predicate ProducerInv(w: World) {
    var c := w.sq.capacity;
    && (w.prod.LoadedHead? || w.prod.LoadedTail? ==>
          w.headSeen <= w.taken && |w.put| - w.headSeen <= w.sq.capacity && w.prod.h == Slot(w.headSeen, c))
    && (w.prod.LoadedTail? || w.prod.StoredSlot? ==> w.prod.t == Slot(|w.put|, c))
    && (w.prod.StoredSlot? ==>
          |w.put| - w.taken < w.sq.capacity && 0 <= w.prod.t < |w.sq.q| && w.sq.q[w.prod.t] == Stream(w.prod.x))
  }

  ghost predicate ConsumerInv(w: World) {
    var c := w.sq.capacity;
    && (!w.cons.Away? ==> w.cons.h == Slot(w.taken, c))
    && (w.cons.GotTail? ==> w.taken <= w.tailSeen <= |w.put| && w.cons.t == Slot(w.tailSeen, c))
    && (w.cons.GotSlot? ==> w.taken < |w.put| && w.cons.item == Stream(w.put[w.taken]))
  }

  // Calls that have taken effect but not returned: the answers that were settled by a load.
  function ProducerPending(w: World): seq<Op> {
    if (w.prod.LoadedHead? || w.prod.LoadedTail?) && |w.put| - w.headSeen == w.sq.capacity then [Refused(w.prod.x)]
    else []
  }

  function ConsumerPending(w: World): seq<Op> {
    if w.cons.GotTail? && w.tailSeen == w.taken then [FoundEmpty] else []
  }

  // The log is a history of the sequential queue, and the history of each thread.
  ghost predicate LogInv(w: World)
    requires w.taken <= |w.put|
  {
    && Replay(w.log, w.sq.capacity) == Holds(w.put[w.taken..])
    && Calls(w.log, true) == w.prodDone + ProducerPending(w)
    && Calls(w.log, false) == w.consDone + ConsumerPending(w)
  }

  ghost predicate Inv(w: World) {
    MemoryInv(w) && ProducerInv(w) && ConsumerInv(w) && LogInv(w)
  }

  lemma NextIndexIsNext(capacity: nat, k: nat)
    ensures NextIndex(capacity, Slot(k, capacity)) == Slot(k + 1, capacity)
  {
    Modular.ModAdd(k, 1, capacity + 1);
  }

  // Positions less than a lap apart are different slots; a lap apart they are the same one.
  lemma SlotsApart(i: nat, j: nat, c: nat)
    requires i <= j <= i + c + 1
    ensures Slot(i, c) == Slot(j, c) <==> i == j || j == i + c + 1
    ensures 0 <= Slot(i, c) <= c
  {
    Modular.ModAdd(i, j - i, c + 1);
  }

  lemma InitInv(capacity: nat)
    ensures Inv(Init(capacity))
  {
  }

  // nt == h exactly if the queue was full when _head was loaded: only this thread moves _tail.
  lemma FullIsSeen(w: World)
    requires MemoryInv(w) && ProducerInv(w) && w.prod.LoadedTail?
    ensures 0 <= w.prod.t < |w.sq.q|
    ensures NextIndex(w.sq.capacity, w.prod.t) == w.prod.h <==> |w.put| - w.headSeen == w.sq.capacity
  {
    hide Slot, Replay, Calls;
    NextIndexIsNext(w.sq.capacity, |w.put|);
    SlotsApart(w.headSeen, |w.put| + 1, w.sq.capacity);
    SlotsApart(|w.put|, |w.put|, w.sq.capacity);
  }

  // The slot the producer stores to holds nothing that is published.
  lemma SlotIsFree(w: World)
    requires MemoryInv(w) && |w.put| - w.taken < w.sq.capacity
    ensures forall i :: w.taken <= i < |w.put| ==> Slot(i, w.sq.capacity) != Slot(|w.put|, w.sq.capacity)
  {
    hide Slot, Replay, Calls;
    forall i | w.taken <= i < |w.put| ensures Slot(i, w.sq.capacity) != Slot(|w.put|, w.sq.capacity) {
      SlotsApart(i, |w.put|, w.sq.capacity);
    }
  }

  lemma StoreSlotKeeps(w: World, x: nat)
    requires Inv(w) && w.prod.LoadedTail?
    ensures 0 <= w.prod.t < |w.sq.q| && Inv(ProducerStep(w, x))
  {
    hide Slot, Replay, Calls;
    assert w.prodDone + [] == w.prodDone;
    FullIsSeen(w);
    if NextIndex(w.sq.capacity, w.prod.t) != w.prod.h {
      SlotIsFree(w);
    }
  }

  lemma StoreTailKeeps(w: World, x: nat)
    requires Inv(w) && w.prod.StoredSlot?
    ensures Inv(ProducerStep(w, x))
  {
    hide Slot, Replay, Calls;
    NextIndexIsNext(w.sq.capacity, |w.put|);
    ReplayNext(w.log, Enqueued(w.prod.x), w.sq.capacity);
    CallsNext(w.log, Enqueued(w.prod.x), true);
    CallsNext(w.log, Enqueued(w.prod.x), false);
    assert (w.put + [w.prod.x])[w.taken..] == w.put[w.taken..] + [w.prod.x];
  }

  lemma LoadHeadKeeps(w: World, x: nat)
    requires Inv(w) && w.prod.Outside?
    ensures Inv(ProducerStep(w, x))
  {
    hide Slot, Replay, Calls;
    ReplayNext(w.log, Refused(x), w.sq.capacity);
    CallsNext(w.log, Refused(x), true);
    CallsNext(w.log, Refused(x), false);
  }

  lemma ProducerKeeps(w: World, x: nat)
    requires Inv(w)
    ensures w.prod.LoadedTail? ==> 0 <= w.prod.t < |w.sq.q|
    ensures Inv(ProducerStep(w, x))
  {
    match w.prod
    case Outside => LoadHeadKeeps(w, x);
    case LoadedHead(_, _) =>
    case LoadedTail(_, _, _) => StoreSlotKeeps(w, x);
    case StoredSlot(_, _) => StoreTailKeeps(w, x);
  }

  lemma LoadTailKeeps(w: World)
    requires Inv(w) && w.cons.GotHead?
    ensures Inv(ConsumerStep(w))
  {
    hide Slot, Replay, Calls;
    ReplayNext(w.log, FoundEmpty, w.sq.capacity);
    CallsNext(w.log, FoundEmpty, true);
    CallsNext(w.log, FoundEmpty, false);
  }

  lemma ReadSlotKeeps(w: World)
    requires Inv(w) && w.cons.GotTail?
    ensures 0 <= w.cons.h < |w.sq.q| && Inv(ConsumerStep(w))
  {
    hide Slot, Replay, Calls;
    SlotsApart(w.taken, w.tailSeen, w.sq.capacity);
  }

  lemma StoreHeadKeeps(w: World)
    requires Inv(w) && w.cons.GotSlot?
    ensures w.cons.item.Stream? && Inv(ConsumerStep(w))
  {
    hide Slot, Replay, Calls;
    NextIndexIsNext(w.sq.capacity, w.taken);
    ReplayNext(w.log, Dequeued(w.cons.item.id), w.sq.capacity);
    CallsNext(w.log, Dequeued(w.cons.item.id), true);
    CallsNext(w.log, Dequeued(w.cons.item.id), false);
  }

  lemma ConsumerKeeps(w: World)
    requires Inv(w)
    ensures w.cons.GotTail? ==> 0 <= w.cons.h < |w.sq.q|
    ensures w.cons.GotSlot? ==> w.cons.item.Stream?
    ensures Inv(ConsumerStep(w))
  {
    match w.cons
    case Away =>
    case GotHead(_) => LoadTailKeeps(w);
    case GotTail(_, _) => ReadSlotKeeps(w);
    case GotSlot(_, _) => StoreHeadKeeps(w);
  }

  // ---------------------------------------------------------------- every interleaving

  // Which thread moves next; x is what the producer enqueues if it starts a call.
  datatype Turn = ProducerTurn(x: nat) | ConsumerTurn

  ghost predicate StepsTo(w: World, turn: Turn, w': World) {
    match turn
    case ProducerTurn(x) => (w.prod.LoadedTail? ==> 0 <= w.prod.t < |w.sq.q|) && w' == ProducerStep(w, x)
    case ConsumerTurn =>
      && (w.cons.GotTail? ==> 0 <= w.cons.h < |w.sq.q|) && (w.cons.GotSlot? ==> w.cons.item.Stream?)
      && w' == ConsumerStep(w)
  }

  ghost predicate Run(capacity: nat, ws: seq<World>, turns: seq<Turn>) {
    && |ws| == |turns| + 1 && ws[0] == Init(capacity)
    && forall k :: 0 <= k < |turns| ==> StepsTo(ws[k], turns[k], ws[k + 1])
  }

  lemma {:induction false} RunInv(capacity: nat, ws: seq<World>, turns: seq<Turn>, k: nat)
    requires Run(capacity, ws, turns) && k < |ws|
    ensures Inv(ws[k]) && ws[k].sq.capacity == capacity
  {
    if k == 0 {
      InitInv(capacity);
    } else {
      RunInv(capacity, ws, turns, k - 1);
      ProducerKeeps(ws[k - 1], if turns[k - 1].ProducerTurn? then turns[k - 1].x else 0);
      ConsumerKeeps(ws[k - 1]);
      hide Inv;
    }
  }

  // No interleaving gets stuck on a slot outside the array or on an empty slot.
  lemma NeverStuck(capacity: nat, ws: seq<World>, turns: seq<Turn>, k: nat, turn: Turn)
    requires Run(capacity, ws, turns) && k < |ws|
    ensures exists w' :: StepsTo(ws[k], turn, w')
  {
    RunInv(capacity, ws, turns, k);
    var x := if turn.ProducerTurn? then turn.x else 0;
    ProducerKeeps(ws[k], x);
    ConsumerKeeps(ws[k]);
    hide Inv;
    var w' := if turn.ProducerTurn? then ProducerStep(ws[k], x) else ConsumerStep(ws[k]);
    assert StepsTo(ws[k], turn, w');
  }

  // No entry of the log is ever taken back or moved.
  lemma {:induction false} LogGrows(capacity: nat, ws: seq<World>, turns: seq<Turn>, j: nat, k: nat)
    requires Run(capacity, ws, turns) && j <= k < |ws|
    ensures ws[j].log <= ws[k].log
    decreases k
  {
    if j < k {
      LogGrows(capacity, ws, turns, j, k - 1);
      assert StepsTo(ws[k - 1], turns[k - 1], ws[k]);
      hide Run;
    }
  }

  // Linearizability: whatever the interleaving, the calls took effect one after the other in the order of the log, a
  // sequential FIFO queue of this capacity would have given the same answers, and each thread's answers are the log's
  // entries for its calls. The log only grows, and has an entry for every call that has returned and none for one that
  // has not begun: an entry is written while its call runs.
  lemma Linearizable(capacity: nat, ws: seq<World>, turns: seq<Turn>, k: nat)
    requires Run(capacity, ws, turns) && k < |ws|
    ensures var w := ws[k];
            && Replay(w.log, capacity).Holds?
            && w.prodDone <= Calls(w.log, true) && |Calls(w.log, true)| <= |w.prodDone| + 1
            && w.consDone <= Calls(w.log, false) && |Calls(w.log, false)| <= |w.consDone| + 1
            && (w.prod.Outside? ==> Calls(w.log, true) == w.prodDone)
            && (w.cons.Away? ==> Calls(w.log, false) == w.consDone)
    ensures forall j :: 0 <= j <= k ==> ws[j].log <= ws[k].log
  {
    RunInv(capacity, ws, turns, k);
    forall j | 0 <= j <= k ensures ws[j].log <= ws[k].log {
      LogGrows(capacity, ws, turns, j, k);
    }
    hide Run, Inv;
  }

  lemma {:induction false} CallsConcat(a: seq<Op>, b: seq<Op>, producer: bool)
    ensures Calls(a + b, producer) == Calls(a, producer) + Calls(b, producer)
  {
    if b == [] {
      assert a + b == a;
    } else {
      var before, op := b[..|b| - 1], b[|b| - 1];
      CallsConcat(a, before, producer);
      assert before + [op] == b && a + b == (a + before) + [op];
      CallsNext(a + before, op, producer);
      CallsNext(before, op, producer);
    }
  }

  // Real-time order: at any moment the log splits in two, the calls of a thread that is in none, returned by then, are
  // all in the first part, and those it makes later are all in the second. So a call that returned before another began
  // comes first in the history, whichever threads they are of.
  lemma RealTimeOrder(capacity: nat, ws: seq<World>, turns: seq<Turn>, j: nat, k: nat)
    requires Run(capacity, ws, turns) && j <= k < |ws|
    ensures ws[j].log <= ws[k].log
    ensures var now, later := ws[j], ws[k].log[|ws[j].log|..];
            && now.prodDone <= Calls(now.log, true) && now.consDone <= Calls(now.log, false)
            && (now.prod.Outside? ==> Calls(ws[k].log, true) == now.prodDone + Calls(later, true))
            && (now.cons.Away? ==> Calls(ws[k].log, false) == now.consDone + Calls(later, false))
  {
    hide Run, Inv;
    Linearizable(capacity, ws, turns, j);
    LogGrows(capacity, ws, turns, j, k);
    var later := ws[k].log[|ws[j].log|..];
    assert ws[k].log == ws[j].log + later;
    CallsConcat(ws[j].log, later, true);
    CallsConcat(ws[j].log, later, false);
  }

  // The streams a history enqueues, and those it dequeues.
  function In(log: seq<Op>): seq<nat> {
    if log == [] then []
    else In(log[..|log| - 1]) + (if log[|log| - 1].Enqueued? then [log[|log| - 1].x] else [])
  }

  function Out(log: seq<Op>): seq<nat> {
    if log == [] then []
    else Out(log[..|log| - 1]) + (if log[|log| - 1].Dequeued? then [log[|log| - 1].x] else [])
  }

  // A sequential history loses nothing, doubles nothing and keeps the order.
  lemma {:induction false} ReplayIsFifo(log: seq<Op>, capacity: nat)
    requires Replay(log, capacity).Holds?
    ensures In(log) == Out(log) + Replay(log, capacity).items
    ensures |Replay(log, capacity).items| <= capacity
  {
    if log != [] {
      var before, op := log[..|log| - 1], log[|log| - 1];
      ReplayIsFifo(before, capacity);
      var items := Replay(before, capacity).items;
      match op
      case Enqueued(x) => assert Out(before) + items + [x] == Out(before) + (items + [x]);
      case Dequeued(x) => assert Out(before) + items == Out(before) + [x] + items[1..];
      case _ =>
    }
  }

  // What the application thread has dequeued is a prefix of what the other enqueued.
  lemma FifoInEveryRun(capacity: nat, ws: seq<World>, turns: seq<Turn>, k: nat)
    requires Run(capacity, ws, turns) && k < |ws|
    ensures Out(ws[k].log) <= In(ws[k].log) && |In(ws[k].log)| - |Out(ws[k].log)| <= capacity
  {
    Linearizable(capacity, ws, turns, k);
    ReplayIsFifo(ws[k].log, capacity);
  }

  // ---------------------------------------------------------------- no call waits for the other thread

  // How many of at most four steps the call a thread is in has taken.
  function ProducerAt(p: Producer): nat {
    match p case Outside => 0 case LoadedHead(_, _) => 1 case LoadedTail(_, _, _) => 2 case StoredSlot(_, _) => 3
  }

  function ConsumerAt(c: Consumer): nat {
    match c case Away => 0 case GotHead(_) => 1 case GotTail(_, _) => 2 case GotSlot(_, _) => 3
  }

  function TurnsOf(turns: seq<Turn>, producer: bool): nat {
    if turns == [] then 0
    else TurnsOf(turns[..|turns| - 1], producer) + (if turns[|turns| - 1].ProducerTurn? == producer then 1 else 0)
  }

  // A call takes at most four steps of its own thread, whatever the other thread does or leaves undone: after n steps
  // at least (n - 3) / 4 calls have returned.
  lemma {:induction false} WaitFree(capacity: nat, ws: seq<World>, turns: seq<Turn>, k: nat)
    requires Run(capacity, ws, turns) && k < |ws|
    ensures TurnsOf(turns[..k], true) <= 4 * |ws[k].prodDone| + ProducerAt(ws[k].prod)
    ensures TurnsOf(turns[..k], false) <= 4 * |ws[k].consDone| + ConsumerAt(ws[k].cons)
  {
    if k > 0 {
      WaitFree(capacity, ws, turns, k - 1);
      assert turns[..k][..k - 1] == turns[..k - 1];
      assert StepsTo(ws[k - 1], turns[k - 1], ws[k - 1 + 1]);
    }
  }

  // ---------------------------------------------------------------- the queues of one thread

  // stream_queue_int: the close and reset queues put off inside the stack.
  class InternalQueue {
    const slots: array<Ref>
    var first: int
    var last: int
    var count: int

    ghost predicate Valid()
      reads this, slots
    {
      && 0 <= count <= slots.Length && 0 <= first <= slots.Length && (0 < slots.Length ==> first < slots.Length)
      && last == (if first + count < slots.Length || slots.Length == 0 then first + count
                  else first + count - slots.Length)
      && Null !in Entries()
    }

    // The entries, oldest first.
    ghost function Entries(): seq<Ref>
      requires 0 <= count <= slots.Length && 0 <= first <= slots.Length
      reads this, slots
    {
      if first + count <= slots.Length then slots[first..first + count]
      else slots[first..] + slots[..first + count - slots.Length]
    }

    // CreateInternalStreamQueue
    constructor (size: nat)
      ensures Valid() && Entries() == [] && slots.Length == size && fresh(slots)
    {
      slots := new Ref[size](_ => Null);
      first, last, count := 0, 0, 0;
    }

    // StreamInternalEnqueue; false where the source returns -1.
    method Enqueue(x: nat) returns (ok: bool)
      requires Valid()
      modifies this, slots
      ensures Valid() && (ok <==> |old(Entries())| < slots.Length)
      ensures Entries() == if ok then old(Entries()) + [Stream(x)] else old(Entries())
    {
      if count >= slots.Length {
        return false;
      }
      ghost var was := Entries();
      slots[last] := Stream(x);
      last := last + 1;
      count := count + 1;
      if last >= slots.Length {
        last := 0;
      }
      assert Entries() == was + [Stream(x)];
      ok := true;
    }

    // StreamInternalDequeue
    method Dequeue() returns (stream: Ref)
      requires Valid()
      modifies this
      ensures Valid()
      ensures if old(Entries()) == [] then stream == Null && Entries() == []
              else stream.Stream? && old(Entries()) == [stream] + Entries()
    {
      if count <= 0 {
        return Null;
      }
      ghost var was := Entries();
      stream := slots[first];
      assert stream == was[0];
      first := first + 1;
      if first >= slots.Length {
        first := 0;
      }
      count := count - 1;
      assert was[1..] == Entries();
      assert was == [was[0]] + was[1..];
    }
  }
}
