/** Defining events and registering callbacks: over every run, when a dispatch can be relied on. */
module Registration {
  import opened DispatchLaws
  import opened DispatchSpec
  import opened EventSpec

  // A mask may name built-in events and events that are defined.
  predicate Known(t: Tables, events: set<int>) {
    forall u :: u in events ==> 0 <= u < NUM_BEV || u in t.udeMap
  }

  // g_bev_map
  function BuiltIn(): set<int> { {0, 1, 2, 3, 4, 5, 6, 7, 8, 9, 10, 11} }

  lemma KnownIs(t: Tables, events: set<int>)
    ensures events <= BuiltIn() + t.udeMap <==> Known(t, events)
  {
    assert forall u :: 0 <= u < NUM_BEV <==> u in BuiltIn();
    if events <= BuiltIn() + t.udeMap {
      forall u | u in events ensures 0 <= u < NUM_BEV || u in t.udeMap {
        assert u in BuiltIn() + t.udeMap;
      }
    }
  }

  // mtcp_register_callback takes all the events or none.
  predicate MayRegister(t: Tables, reg: set<int>, events: set<int>) { Known(t, events) && reg * events == {} }

  predicate MayUnregister(t: Tables, reg: set<int>, events: set<int>) { Known(t, events) && events <= reg }

  // cb_map and ft_map afterwards.
  function Register(t: Tables, reg: set<int>, ftReg: set<int>, events: set<int>): (set<int>, set<int>)
    requires Shape(t)
  {
    if MayRegister(t, reg, events) then (reg + events, FtAfter(t, events, ftReg, UDE_OFFSET)) else (reg, ftReg)
  }

  // The loop of UnregCb over the user-defined events it is given, from event i on.
  function UnregAll(t: Tables, cb: set<int>, ftReg: set<int>, events: set<int>, i: int): (ft: set<int>)
    requires Good(t) && UDE_OFFSET <= i <= MAX_EV
    ensures ft <= ftReg
    decreases MAX_EV - i
  {
    if i == MAX_EV then ftReg
    else UnregAll(t, cb, if i in events * t.udeMap then UnregWalk(t, cb, ftReg, i) else ftReg, events, i + 1)
  }

  function Unregister(t: Tables, reg: set<int>, ftReg: set<int>, events: set<int>): (set<int>, set<int>)
    requires Good(t)
  {
    if MayUnregister(t, reg, events) then (reg - events, UnregAll(t, reg - events, ftReg, events, UDE_OFFSET))
    else (reg, ftReg)
  }

  lemma {:induction false} NoMoreUnreg(t: Tables, cb: set<int>, ftReg: set<int>, events: set<int>, i: int)
    requires Good(t) && UDE_OFFSET <= i <= MAX_EV && forall u :: u in events * t.udeMap ==> u < i
    ensures UnregAll(t, cb, ftReg, events, i) == ftReg
    decreases MAX_EV - i
  {
    hide Rows, Closed;
    if i < MAX_EV {
      NoMoreUnreg(t, cb, ftReg, events, i + 1);
    }
  }

  // No walk takes an event off that still has something registered below it.
  ghost predicate NoneInUse(t: Tables, cb: set<int>, events: set<int>, i: int)
    requires Good(t)
  {
    forall u: EventId :: i <= u && u in events * t.udeMap ==> NoSiblingInUse(t, cb, u)
  }

  lemma {:induction false} UnregAllCovers(t: Tables, cb: set<int>, ftReg: set<int>, events: set<int>, i: int)
    requires Good(t) && UDE_OFFSET <= i <= MAX_EV && FtCovers(t, cb, ftReg)
    ensures FtCovers(t, cb, UnregAll(t, cb, ftReg, events, i)) <==> NoneInUse(t, cb, events, i)
    decreases MAX_EV - i
  {
    hide Rows, Closed, IsAbove, NoSiblingInUse;
    if i < MAX_EV {
      var ft := if i in events * t.udeMap then UnregWalk(t, cb, ftReg, i) else ftReg;
      if i in events * t.udeMap {
        UnregisterCovers(t, cb, ftReg, i);
      }
      if FtCovers(t, cb, ft) {
        UnregAllCovers(t, cb, ft, events, i + 1);
      }
      assert NoneInUse(t, cb, events, i) <==>
        NoneInUse(t, cb, events, i + 1) && (i in events * t.udeMap ==> NoSiblingInUse(t, cb, i));
    }
  }

  // Unregistering keeps ft_map covering the events above registered ones exactly if no walk takes off one that is
  // needed.
  lemma UnregisterExact(t: Tables, reg: set<int>, ftReg: set<int>, events: set<int>)
    requires Good(t) && FtCovers(t, reg, ftReg)
    ensures var (reg', ftReg') := Unregister(t, reg, ftReg, events);
            FtCovers(t, reg', ftReg') <==>
              !MayUnregister(t, reg, events) || NoneInUse(t, reg - events, events, UDE_OFFSET)
  {
    hide Rows, Closed, IsAbove, NoneInUse;
    assert FtCovers(t, reg - events, ftReg);
    UnregAllCovers(t, reg - events, ftReg, events, UDE_OFFSET);
  }

  // ---------------------------------------------------------------- every run

  // The tables and one socket's bitmaps.
  datatype Book = Book(t: Tables, reg: set<int>, ftReg: set<int>)

  datatype Action =
    | DefineBelow(evid: EventId)              // mtcp_define_event
    | RegisterAll(events: set<int>)           // mtcp_register_callback
    | UnregisterAll(events: set<int>)         // mtcp_unregister_callback

  function Act(b: Book, a: Action): Book
    requires Good(b.t)
  {
    match a
    case DefineBelow(evid) => b.(t := Define(b.t, evid).0)
    case RegisterAll(events) => var (reg, ftReg) := Register(b.t, b.reg, b.ftReg, events); Book(b.t, reg, ftReg)
    case UnregisterAll(events) => var (reg, ftReg) := Unregister(b.t, b.reg, b.ftReg, events); Book(b.t, reg, ftReg)
  }

  ghost predicate Reliable(b: Book) {
    Good(b.t) && FtCovers(b.t, b.reg, b.ftReg) && Known(b.t, b.reg)
  }

  // A definition below an event that does not exist, or an unregistration that takes a filter off a sibling needs.
  ghost predicate Spoils(b: Book, a: Action) {
    Good(b.t) &&
    match a
    case DefineBelow(evid) => Define(b.t, evid).1 != -1 && !MayDefineBelow(b.t, evid)
    case RegisterAll(_) => false
    case UnregisterAll(events) =>
      MayUnregister(b.t, b.reg, events) && !NoneInUse(b.t, b.reg - events, events, UDE_OFFSET)
  }

  lemma DefineAct(b: Book, evid: EventId)
    requires Reliable(b)
    ensures Reliable(Act(b, DefineBelow(evid))) <==> !Spoils(b, DefineBelow(evid))
  {
    hide Rows, Closed, IsAbove, FtCovers, Shape;
    DefineKeepsGood(b.t, evid);
    if MayDefineBelow(b.t, evid) {
      DefineCovers(b.t, evid, b.reg, b.ftReg);
      DefineKnows(b.t, evid);
    }
  }

  lemma DefineKnows(t: Tables, evid: EventId)
    requires Shape(t)
    ensures var (t', u) := Define(t, evid);
            t'.udeMap == (if u == -1 then t.udeMap else t.udeMap + {u}) && (u != -1 ==> NUM_BEV <= u && u !in t.udeMap)
  {
  }

  lemma ActExact(b: Book, a: Action)
    requires Reliable(b)
    ensures Reliable(Act(b, a)) <==> !Spoils(b, a)
  {
    hide Forest, Rows, Closed, IsAbove, FtCovers, Shape, UnregAll, FtAfter, NoneInUse;
    match a
    case DefineBelow(evid) => DefineAct(b, evid);
    case RegisterAll(events) =>
      if MayRegister(b.t, b.reg, events) {
        ForestShape(b.t);
        RegisterCovers(b.t, b.reg, b.ftReg, events);
      }
    case UnregisterAll(events) => UnregisterExact(b.t, b.reg, b.ftReg, events);
  }

  ghost predicate Run(bs: seq<Book>, acts: seq<Action>) {
    && |bs| == |acts| + 1 && bs[0] == Book(NoEvents(), {}, {})
    && forall k :: 0 <= k < |acts| ==> (Good(bs[k].t) ==> bs[k + 1] == Act(bs[k], acts[k]))
  }

  // Over every run of definitions, registrations and unregistrations: the tables are a forest and ft_map covers what is
  // above a registered event in every state so far, exactly if none of those two kinds of step was taken.
  lemma {:induction false} RunExact(bs: seq<Book>, acts: seq<Action>, k: nat)
    requires Run(bs, acts) && k < |bs|
    ensures (forall j :: 0 <= j <= k ==> Reliable(bs[j])) <==> (forall j :: 0 <= j < k ==> !Spoils(bs[j], acts[j]))
  {
    hide Reliable, Spoils, Act;
    if k == 0 {
      StartsReliable();
    } else {
      RunExact(bs, acts, k - 1);
      if Reliable(bs[k - 1]) {
        ReliableIsGood(bs[k - 1]);
        ActExact(bs[k - 1], acts[k - 1]);
        assert bs[k - 1 + 1] == Act(bs[k - 1], acts[k - 1]);
      }
      if forall j :: 0 <= j <= k - 1 ==> Reliable(bs[j]) {
        assert Reliable(bs[k]) <==> !Spoils(bs[k - 1], acts[k - 1]);
      }
    }
  }

  lemma StartsReliable()
    ensures Reliable(Book(NoEvents(), {}, {}))
  {
    NoEventsGood();
  }

  lemma ReliableIsGood(b: Book)
    requires Reliable(b)
    ensures Good(b.t)
  {
  }

  // In every run without such a step, one raised event calls exactly the registered events below it that every filter
  // on the way lets through, each once and ancestors first.
  lemma RunHandlesOne(bs: seq<Book>, acts: seq<Action>, k: nat, b: EventId, ft: Filter, x: int, d: int)
    requires Run(bs, acts) && k < |bs| && b < NUM_BEV && forall j :: 0 <= j < k ==> !Spoils(bs[j], acts[j])
    ensures var s := bs[k];
            && Good(s.t)
            && (Call(x, d) in Handle(s.t, s.reg, s.ftReg, ft, {b}) <==>
                  x in s.reg && IsAbove(s.t, b, x) && DataAt(s.t, ft, b, 0, x) == Reached(d))
            && Ordered(s.t, Handle(s.t, s.reg, s.ftReg, ft, {b}))
  {
    hide Forest, Rows, Closed, FtCovers, Handle, Ordered, Act, Spoils, Run;
    RunExact(bs, acts, k);
    assert Reliable(bs[k]);
    HandleOne(bs[k].t, bs[k].reg, bs[k].ftReg, ft, b, x, d);
  }

  // ---------------------------------------------------------------- a parent that is not defined

  // Where the loop of UnregCb stands after n turns up from event w, on any tables.
  function WalkAt(t: Tables, w: EventId, n: nat): int
    requires Shape(t)
  {
    if n == 0 then w
    else
      var e := WalkAt(t, w, n - 1);
      if UDE_OFFSET <= e < MAX_EV then t.parent[e - UDE_OFFSET] else e
  }

  // It stops at a built-in event, or at one that is in use or has something registered below it.
  ghost predicate WalkEnds(t: Tables, cb: set<int>, w: EventId)
    requires Shape(t)
  {
    exists n: nat :: var e := WalkAt(t, w, n); !(UDE_OFFSET <= e < MAX_EV) || !Useless(t, cb, e)
  }

  ghost predicate ReachesBuiltIn(t: Tables, w: EventId)
    requires Shape(t)
  {
    exists n: nat :: !(UDE_OFFSET <= WalkAt(t, w, n) < MAX_EV)
  }

  // The walk from an event ends whatever is registered, exactly if its parents lead to a built-in event.
  lemma WalkEndsExactly(t: Tables, w: EventId)
    requires Shape(t)
    ensures (forall cb :: WalkEnds(t, cb, w)) <==> ReachesBuiltIn(t, w)
  {
    hide WalkAt;
    if ReachesBuiltIn(t, w) {
      var n: nat :| !(UDE_OFFSET <= WalkAt(t, w, n) < MAX_EV);
    }
    if WalkEnds(t, {}, w) {
      var n: nat :| var e := WalkAt(t, w, n); !(UDE_OFFSET <= e < MAX_EV) || !Useless(t, {}, e);
      assert !(UDE_OFFSET <= WalkAt(t, w, n) < MAX_EV);
    }
  }

  // On good tables they always do.
  lemma {:induction false} GoodReaches(t: Tables, w: EventId)
    requires Good(t) && (w < UDE_OFFSET || w in t.udeMap)
    ensures ReachesBuiltIn(t, w)
    decreases w
  {
    hide Rows, Closed;
    if w < UDE_OFFSET {
      assert WalkAt(t, w, 0) == w;
    } else {
      GoodReaches(t, Parent(t, w));
      var n: nat :| !(UDE_OFFSET <= WalkAt(t, Parent(t, w), n) < MAX_EV);
      WalkFromParent(t, w, n);
    }
  }

  lemma {:induction false} WalkFromParent(t: Tables, w: EventId, n: nat)
    requires Shape(t) && UDE_OFFSET <= w && 0 <= t.parent[w - UDE_OFFSET] < MAX_EV
    ensures WalkAt(t, w, n + 1) == WalkAt(t, t.parent[w - UDE_OFFSET], n)
  {
    if n > 0 {
      WalkFromParent(t, w, n - 1);
    } else {
      assert WalkAt(t, w, 0) == w;
    }
  }

  // An input: the first event is defined below itself. Once its callback is unregistered, the walk never ends.
  lemma SelfParent()
    ensures var (t, u) := Define(NoEvents(), 32);
            u == 32 && t.parent[0] == 32 && !Good(t) && !WalkEnds(t, {}, 32)
  {
    var t := AddUde(NoEvents(), 32, 32, 0);
    assert FreeUde({}, 32) == 32;
    assert Define(NoEvents(), 32) == (t, 32);
    forall n: nat ensures WalkAt(t, 32, n) == 32 {
      StaysAt(t, 32, n);
    }
    NoEventsGood();
    DefineKeepsGood(NoEvents(), 32);
  }

  lemma {:induction false} StaysAt(t: Tables, w: EventId, n: nat)
    requires Shape(t) && UDE_OFFSET <= w && t.parent[w - UDE_OFFSET] == w
    ensures WalkAt(t, w, n) == w
  {
    if n > 0 {
      StaysAt(t, w, n - 1);
    }
  }

  // An input: event 32 is defined below 33, and 33 then below event 0. The parents of 32 lead to event 0, but it is not
  // among that event's descendants, and a registration of it puts nothing on the bitmaps that event 0 looks at.
  lemma LateParent()
    ensures var t := Define(Define(NoEvents(), 33).0, 0).0;
            && WalkAt(t, 32, 2) == 0 && t.descendants[0] == {33} && !Good(t)
            && Register(t, {}, {}, {32}) == ({32}, {33}) && 0 !in {32} + {33}
  {
    hide Rows, Closed, Define, AddUde;
    LateTables();
    var t := Define(Define(NoEvents(), 33).0, 0).0;
    assert WalkAt(t, 32, 1) == 33;
    assert t.udeMap != {} && Parent(t, 32) == 33;
    FtAfterOne(t, 32);
    assert {} + {32} == {32};
  }

  lemma LateTables()
    ensures var t := Define(Define(NoEvents(), 33).0, 0).0;
            && Shape(t) && t.udeMap == {32, 33} && t.parent[0] == 33 && t.parent[1] == 0
            && t.ancestors[0] == {33} && t.descendants[0] == {33}
  {
    var t1 := AddUde(NoEvents(), 33, 32, 0);
    assert FreeUde({}, 32) == 32;
    assert Define(NoEvents(), 33) == (t1, 32);
    assert FreeUde({32}, 32) == 33;
    assert Define(t1, 0) == (AddUde(t1, 0, 33, 0), 33);
  }

  lemma {:induction false} FtAfterOne(t: Tables, i: int)
    requires Shape(t) && UDE_OFFSET <= i <= MAX_EV && t.ancestors[0] == {33}
    ensures FtAfter(t, {32}, {33}, i) == {33}
    ensures i == 32 ==> FtAfter(t, {32}, {}, i) == {33}
    decreases MAX_EV - i
  {
    if i < MAX_EV {
      FtAfterOne(t, i + 1);
      assert {33} + {33} == {33} && {} + {33} == {33};
    }
  }
}
