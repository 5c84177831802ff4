/** Handling a set of built-in events: what HandleCallback calls, and exactly when that is all it should. */
module DispatchLaws {
  import opened DispatchSpec
  import opened EventSpec

  function Evs(s: seq<Call>): set<int> { set c | c in s :: c.ev }

  lemma EvsSnoc(s: seq<Call>, c: Call)
    ensures Evs(s + [c]) == Evs(s) + {c.ev}
  {
    forall x | x in Evs(s) + {c.ev} ensures x in Evs(s + [c]) {
      if x == c.ev {
        assert (s + [c])[|s|] == c;
      } else {
        var d :| d in s && d.ev == x;
        assert d in s + [c];
      }
    }
  }

  // From built-in event i on, with the callbacks cb still to come: each event on a bitmap is searched, and the handling
  // ends with a call after which no collected callback is left.
  function HandleFrom(t: Tables, reg: set<int>, ftReg: set<int>, ft: Filter, events: set<int>, i: nat, cb: set<int>)
    : seq<Call>
    requires Good(t)
    decreases NUM_BEV - i
  {
    if i >= NUM_BEV then []
    else if i !in events * (reg + ftReg) then HandleFrom(t, reg, ftReg, ft, events, i + 1, cb)
    else
      var out := Visit(t, reg, Seen(ft, reg + ftReg), i, 0);
      var left := cb + t.descendants[i] * reg - Evs(out);
      if out != [] && left == {} then out else out + HandleFrom(t, reg, ftReg, ft, events, i + 1, left)
  }

  function Handle(t: Tables, reg: set<int>, ftReg: set<int>, ft: Filter, events: set<int>): seq<Call>
    requires Good(t)
  {
    HandleFrom(t, reg, ftReg, ft, events, 0, events * reg)
  }

  // What should be called: everything registered that the filters let through, event by event.
  function Due(t: Tables, reg: set<int>, ft: Filter, events: set<int>, i: nat): seq<Call>
    requires Good(t)
    decreases NUM_BEV - i
  {
    if i >= NUM_BEV then []
    else (if i in events then Visit(t, reg, ft, i, 0) else []) + Due(t, reg, ft, events, i + 1)
  }

  // ---------------------------------------------------------------- for the loop

  function Left(events: set<int>, i: int): set<int> { set b | b in events && i <= b }

  lemma LeftTurn(events: set<int>, i: int)
    ensures i in Left(events, i) <==> i in events
    ensures Left(events, i + 1) == Left(events, i) - {i}
  {
  }

  // The built-in events from i on that have a callback to come.
  ghost predicate ToCome(registered: set<int>, cb: set<int>, i: int) {
    forall b :: i <= b < NUM_BEV ==> (b in cb <==> b in registered)
  }

  lemma HandleTurn(t: Tables, reg: set<int>, ftReg: set<int>, ft: Filter, events: set<int>, i: nat, cb: set<int>)
    requires Good(t) && i < NUM_BEV
    ensures HandleFrom(t, reg, ftReg, ft, events, i, cb) ==
            if i !in events * (reg + ftReg) then HandleFrom(t, reg, ftReg, ft, events, i + 1, cb)
            else
              var out := Visit(t, reg, Seen(ft, reg + ftReg), i, 0);
              var left := cb + t.descendants[i] * reg - Evs(out);
              if out != [] && left == {} then out else out + HandleFrom(t, reg, ftReg, ft, events, i + 1, left)
  {
    hide Good;
  }

  lemma HandleEnds(t: Tables, reg: set<int>, ftReg: set<int>, ft: Filter, events: set<int>, i: nat, cb: set<int>)
    requires Good(t) && i >= NUM_BEV
    ensures HandleFrom(t, reg, ftReg, ft, events, i, cb) == []
  {
  }

  lemma HandleStarts(events: set<int>, reg: set<int>, see: set<int>)
    requires forall b :: b in events ==> 0 <= b
    ensures Left(events * see, 0) == events * see && ToCome(events * reg, events * reg, 0)
  {
  }

  lemma EvsBelow(t: Tables, reg: set<int>, ft: Filter, b: EventId, x: int)
    requires Good(t) && x in Evs(Visit(t, reg, ft, b, 0))
    ensures x in reg && IsAbove(t, b, x) && (x == b || x in t.udeMap)
  {
    var c :| c in Visit(t, reg, ft, b, 0) && c.ev == x;
    VisitCalls(t, reg, ft, b, 0, c.ev, c.data);
    AboveIsSmaller(t, b, x);
  }

  // The search below i takes no bit of a later built-in event, and puts none in.
  lemma TurnKeeps(t: Tables, reg: set<int>, ft: Filter, events: set<int>, i: EventId, cb: set<int>)
    requires Good(t) && i < NUM_BEV && ToCome(events * reg, cb, i)
    ensures ToCome(events * reg, cb, i + 1) && ToCome(events * reg, cb + t.descendants[i] * reg, i)
    ensures ToCome(events * reg, cb + t.descendants[i] * reg - Evs(Visit(t, reg, ft, i, 0)), i + 1)
  {
    assert DescendantsOk(t, i);
    ForestShape(t);
    forall b | i <= b < NUM_BEV ensures b !in t.descendants[i] {
      assert b in t.udeMap ==> UDE_OFFSET <= b;
    }
    forall b | i < b < NUM_BEV ensures b !in Evs(Visit(t, reg, ft, i, 0)) {
      if b in Evs(Visit(t, reg, ft, i, 0)) {
        EvsBelow(t, reg, ft, i, b);
      }
    }
  }

  lemma {:induction false} NoneLeft(t: Tables, reg: set<int>, ftReg: set<int>, ft: Filter, events: set<int>,
                                    i: nat, cb: set<int>)
    requires Good(t) && Left(events * (reg + ftReg), i) == {}
    ensures HandleFrom(t, reg, ftReg, ft, events, i, cb) == []
    decreases NUM_BEV - i
  {
    LeftTurn(events * (reg + ftReg), i);
    if i < NUM_BEV {
      NoneLeft(t, reg, ftReg, ft, events, i + 1, cb);
    }
  }

  // The test at the start: with no raised event and no user-defined one registered there is nothing to call.
  lemma {:induction false} NothingToHandle(t: Tables, reg: set<int>, ftReg: set<int>, ft: Filter, events: set<int>,
                                           i: nat, cb: set<int>)
    requires Good(t) && events * reg == {} && t.udeMap * reg == {}
    ensures HandleFrom(t, reg, ftReg, ft, events, i, cb) == []
    decreases NUM_BEV - i
  {
    hide Rows, Closed, Visit, Seen;
    if i < NUM_BEV {
      var out := Visit(t, reg, Seen(ft, reg + ftReg), i, 0);
      if i in events {
        forall x | IsAbove(t, i, x) ensures x !in reg {
          AboveIsSmaller(t, i, x);
          assert x in reg ==> x !in events && x !in t.udeMap by {
            assert x in reg && x in events ==> x in events * reg;
            assert x in reg && x in t.udeMap ==> x in t.udeMap * reg;
          }
        }
        NothingBelow(t, reg, Seen(ft, reg + ftReg), i, 0);
      }
      NothingToHandle(t, reg, ftReg, ft, events, i + 1, cb);
      NothingToHandle(t, reg, ftReg, ft, events, i + 1, cb + t.descendants[i] * reg - Evs(out));
    }
  }

  // ---------------------------------------------------------------- one event: what passing others over loses

  // Every event on the way from e to a registered one is on a bitmap.
  ghost predicate InReach(t: Tables, reg: set<int>, see: set<int>, e: int)
    requires Forest(t)
  {
    forall a, x :: x in reg && IsAbove(t, e, a) && IsAbove(t, a, x) && a != x ==> a in see
  }

  lemma {:induction false} SeenIsAll(t: Tables, reg: set<int>, see: set<int>, ft: Filter, e: EventId, data: int)
    requires Good(t) && InReach(t, reg, see, e) && reg <= see
    ensures Visit(t, reg, Seen(ft, see), e, data) == Visit(t, reg, ft, e, data)
    decreases MAX_EV - e, 1, 0
  {
    hide Good, InReach, Visit;
    SeenFromIsAll(t, reg, see, ft, e, data, 0);
    VisitIs(t, reg, ft, e, data);
    VisitIs(t, reg, Seen(ft, see), e, data);
  }

  lemma {:induction false} SeenFromIsAll(t: Tables, reg: set<int>, see: set<int>, ft: Filter, e: EventId, data: int,
                                         k: nat)
    requires Good(t) && InReach(t, reg, see, e) && reg <= see
    ensures VisitFrom(t, reg, Seen(ft, see), e, data, k) == VisitFrom(t, reg, ft, e, data, k)
    decreases MAX_EV - e, 0, NUM_UDE - k
  {
    hide Rows, Closed, InReach, Visit;
    if HasChild(t, e, k) {
      ChildFacts(t, e, k);
      var c := Child(t, e, k);
      SeenFromIsAll(t, reg, see, ft, e, data, k + 1);
      if c in see {
        ReachDown(t, reg, see, e, c);
        SeenIsAll(t, reg, see, ft, c, ft(c, e, data));
      } else {
        OutOfSight(t, reg, see, e, c);
        NothingBelow(t, reg, ft, c, ft(c, e, data));
      }
    }
  }

  lemma ReachDown(t: Tables, reg: set<int>, see: set<int>, e: EventId, c: EventId)
    requires Good(t) && InReach(t, reg, see, e) && c in t.udeMap && Parent(t, c) == e
    ensures InReach(t, reg, see, c)
  {
    hide Rows, Closed;
    AboveSelf(t, e);
    forall a | IsAbove(t, c, a) ensures IsAbove(t, e, a) {
      AboveTransitive(t, e, c, a);
    }
  }

  // A child that is on no bitmap has nothing registered at or below it.
  lemma OutOfSight(t: Tables, reg: set<int>, see: set<int>, e: EventId, c: EventId)
    requires Good(t) && InReach(t, reg, see, e) && c in t.udeMap && Parent(t, c) == e && c !in see && reg <= see
    ensures forall x :: IsAbove(t, c, x) ==> x !in reg
  {
    hide Rows, Closed;
    AboveSelf(t, e);
    assert IsAbove(t, e, c);
  }

  lemma {:induction false} Blocks(t: Tables, ft: Filter, see: set<int>, e: EventId, data: int, a: int, x: int)
    requires Good(t) && IsAbove(t, e, a) && a != e && IsAbove(t, a, x) && a !in see
    ensures DataAt(t, Seen(ft, see), e, data, x) == Blocked
    decreases x
  {
    hide Rows, Closed;
    AboveIsSmaller(t, e, a);
    AboveIsSmaller(t, a, x);
    if x != a {
      Blocks(t, ft, see, e, data, a, Parent(t, x));
    }
  }

  // The filters that let everything through.
  function Pass(): Filter { (u, e, data) => 1 }

  lemma {:induction false} PassReaches(t: Tables, e: EventId, x: int)
    requires Good(t) && IsAbove(t, e, x)
    ensures DataAt(t, Pass(), e, 0, x).Reached?
    decreases x
  {
    hide Rows, Closed;
    if x != e {
      PassReaches(t, e, Parent(t, x));
    }
  }

  // The search below b, if b is on a bitmap at all.
  function Searched(t: Tables, reg: set<int>, ftReg: set<int>, ft: Filter, b: EventId): seq<Call>
    requires Good(t)
  {
    if b in reg + ftReg then Visit(t, reg, Seen(ft, reg + ftReg), b, 0) else []
  }

  lemma SearchedIsAll(t: Tables, reg: set<int>, ftReg: set<int>, ft: Filter, b: EventId)
    requires Good(t) && InReach(t, reg, reg + ftReg, b)
    ensures Searched(t, reg, ftReg, ft, b) == Visit(t, reg, ft, b, 0)
  {
    AboveSelf(t, b);
    if b in reg + ftReg {
      SeenIsAll(t, reg, reg + ftReg, ft, b, 0);
    } else {
      NothingBelow(t, reg, ft, b, 0);
    }
  }

  ghost predicate AlwaysAll(t: Tables, reg: set<int>, ftReg: set<int>, b: EventId)
    requires Good(t)
  {
    forall ft: Filter :: Searched(t, reg, ftReg, ft, b) == Visit(t, reg, ft, b, 0)
  }

  // The search below a built-in event calls all it should whatever the filters answer, exactly if every event on the
  // way to a registered one is on a bitmap.
  lemma SearchExact(t: Tables, reg: set<int>, ftReg: set<int>, b: EventId)
    requires Good(t)
    ensures AlwaysAll(t, reg, ftReg, b) <==> InReach(t, reg, reg + ftReg, b)
  {
    if InReach(t, reg, reg + ftReg, b) {
      forall ft: Filter ensures Searched(t, reg, ftReg, ft, b) == Visit(t, reg, ft, b, 0) {
        SearchedIsAll(t, reg, ftReg, ft, b);
      }
    } else {
      var a, x :| x in reg && IsAbove(t, b, a) && IsAbove(t, a, x) && a != x && a !in reg + ftReg;
      LosesOne(t, reg, ftReg, b, a, x);
    }
  }

  lemma LosesOne(t: Tables, reg: set<int>, ftReg: set<int>, b: EventId, a: int, x: int)
    requires Good(t) && x in reg && IsAbove(t, b, a) && IsAbove(t, a, x) && a != x && a !in reg + ftReg
    ensures !AlwaysAll(t, reg, ftReg, b)
  {
    hide Rows, Closed, DataAt, Visit;
    AboveTransitive(t, b, a, x);
    PassReaches(t, b, x);
    var see, d := reg + ftReg, DataAt(t, Pass(), b, 0, x).data;
    VisitCalls(t, reg, Pass(), b, 0, x, d);
    assert Call(x, d) in Visit(t, reg, Pass(), b, 0);
    if a != b {
      Blocks(t, Pass(), see, b, 0, a, x);
      VisitCalls(t, reg, Seen(Pass(), see), b, 0, x, d);
    }
    assert Searched(t, reg, ftReg, Pass(), b) != Visit(t, reg, Pass(), b, 0);
  }

  // ---------------------------------------------------------------- several events: what the early return loses

  // Something is registered at or below b.
  ghost predicate Busy(t: Tables, reg: set<int>, b: int)
    requires Forest(t)
  {
    exists x :: x in reg && IsAbove(t, b, x)
  }

  // Whenever two raised events have something registered at or below them, one that is not before the later of the two
  // is registered itself.
  ghost predicate LastIsRegistered(t: Tables, reg: set<int>, events: set<int>)
    requires Forest(t)
  {
    forall i, j :: i in events && j in events && i < j && Busy(t, reg, i) && Busy(t, reg, j) ==>
      exists k :: k in events && k in reg && j <= k
  }

  // With every way on the bitmaps.
  ghost predicate AllInReach(t: Tables, reg: set<int>, ftReg: set<int>, events: set<int>)
    requires Forest(t)
  {
    forall b :: b in events ==> InReach(t, reg, reg + ftReg, b)
  }

  // ft_map as registrations keep it puts every way on the bitmaps.
  lemma CoversReach(t: Tables, reg: set<int>, ftReg: set<int>, events: set<int>)
    requires Forest(t) && FtCovers(t, reg, ftReg)
    ensures AllInReach(t, reg, ftReg, events)
  {
  }

  lemma IdleIsSilent(t: Tables, reg: set<int>, ft: Filter, b: EventId)
    requires Good(t) && !Busy(t, reg, b)
    ensures Visit(t, reg, ft, b, 0) == []
  {
    hide Rows, Closed;
    NothingBelow(t, reg, ft, b, 0);
  }

  lemma {:induction false} IdleRest(t: Tables, reg: set<int>, ft: Filter, events: set<int>, i: nat)
    requires Good(t) && forall b :: b in events && i <= b < NUM_BEV ==> !Busy(t, reg, b)
    ensures Due(t, reg, ft, events, i) == []
    decreases NUM_BEV - i
  {
    hide Rows, Closed, Busy, Visit;
    if i < NUM_BEV {
      IdleRest(t, reg, ft, events, i + 1);
      if i in events {
        IdleIsSilent(t, reg, ft, i);
      }
    }
  }

  // Nothing that comes after an early return is due.
  lemma StopsAtEnd(t: Tables, reg: set<int>, ft: Filter, events: set<int>, i: EventId, left: set<int>)
    requires Good(t) && LastIsRegistered(t, reg, events) && i < NUM_BEV && i in events && Busy(t, reg, i)
    requires (forall b :: b in events ==> 0 <= b < NUM_BEV) && ToCome(events * reg, left, i + 1) && left == {}
    ensures Due(t, reg, ft, events, i + 1) == []
  {
    hide Rows, Closed, Busy;
    assert forall k :: k in events && k in reg && i < k ==> k in left;
    IdleRest(t, reg, ft, events, i + 1);
  }

  lemma {:induction false} HandleIsDue(t: Tables, reg: set<int>, ftReg: set<int>, ft: Filter, events: set<int>,
                                       i: nat, cb: set<int>)
    requires Good(t) && AllInReach(t, reg, ftReg, events) && LastIsRegistered(t, reg, events)
    requires (forall b :: b in events ==> 0 <= b < NUM_BEV) && ToCome(events * reg, cb, i)
    ensures HandleFrom(t, reg, ftReg, ft, events, i, cb) == Due(t, reg, ft, events, i)
    decreases NUM_BEV - i
  {
    hide Rows, Closed, Visit, Busy, InReach, LastIsRegistered, Seen, ToCome, IsAbove;
    if i < NUM_BEV {
      TurnKeeps(t, reg, Seen(ft, reg + ftReg), events, i, cb);
      HandleIsDue(t, reg, ftReg, ft, events, i + 1, cb);
      if i in events {
        SearchedIsAll(t, reg, ftReg, ft, i);
        var out := Visit(t, reg, ft, i, 0);
        if i in reg + ftReg {
          var left := cb + t.descendants[i] * reg - Evs(out);
          HandleIsDue(t, reg, ftReg, ft, events, i + 1, left);
          if out != [] && left == {} {
            CalledIsBusy(t, reg, ft, i);
            StopsAtEnd(t, reg, ft, events, i, left);
          }
        }
      }
    }
  }

  lemma CalledIsBusy(t: Tables, reg: set<int>, ft: Filter, b: EventId)
    requires Good(t) && Visit(t, reg, ft, b, 0) != []
    ensures Busy(t, reg, b)
  {
    hide Rows, Closed, Visit;
    if !Busy(t, reg, b) {
      IdleIsSilent(t, reg, ft, b);
    }
  }

  lemma RootsApart(t: Tables, i: EventId, j: EventId, x: int)
    requires Good(t) && i < j < NUM_BEV && IsAbove(t, i, x)
    ensures !IsAbove(t, j, x)
  {
    ForestShape(t);
    if IsAbove(t, j, x) {
      AboveLinear(t, i, j, x);
      AboveIsSmaller(t, i, j);
    }
  }

  lemma PassCalls(t: Tables, reg: set<int>, b: EventId, x: int)
    requires Good(t) && x in reg && IsAbove(t, b, x)
    ensures x in Evs(Visit(t, reg, Pass(), b, 0))
  {
    hide Rows, Closed, Visit, DataAt;
    PassReaches(t, b, x);
    VisitCalls(t, reg, Pass(), b, 0, x, DataAt(t, Pass(), b, 0, x).data);
  }

  // With every filter passed, the search below i takes all bits there are at or below i, and no other.
  lemma PassTurn(t: Tables, reg: set<int>, i: EventId, cb: set<int>)
    requires Good(t) && (i in cb ==> i in reg)
    ensures var out := Visit(t, reg, Pass(), i, 0);
            && cb + t.descendants[i] * reg - Evs(out) <= cb - {i} && (Busy(t, reg, i) ==> out != [])
  {
    hide Rows, Visit, IsAbove;
    var out := Visit(t, reg, Pass(), i, 0);
    assert DescendantsOk(t, i);
    AboveSelf(t, i);
    forall x | x in t.descendants[i] * reg ensures x in Evs(out) {
      PassCalls(t, reg, i, x);
    }
    if i in reg {
      PassCalls(t, reg, i, i);
    }
    if Busy(t, reg, i) {
      var x :| x in reg && IsAbove(t, i, x);
      PassCalls(t, reg, i, x);
      assert x in Evs(out);
    }
  }

  // The bits collected are those of built-in events before j, and one at least has something to call: with every filter
  // passed, the handling ends before it comes to j.
  lemma {:induction false} StopsBefore(t: Tables, reg: set<int>, ftReg: set<int>, events: set<int>, i: nat,
                                       cb: set<int>, w: int, j: EventId, c: Call)
    requires Good(t) && AllInReach(t, reg, ftReg, events) && j < NUM_BEV
    requires forall k :: k in cb ==> i <= k < j && k in events && k in reg
    requires i <= w < j && w in events && Busy(t, reg, w)
    ensures c in HandleFrom(t, reg, ftReg, Pass(), events, i, cb) ==> !IsAbove(t, j, c.ev)
    decreases NUM_BEV - i
  {
    hide Rows, Closed, Visit, Busy, InReach, Seen, IsAbove;
    var out := Visit(t, reg, Pass(), i, 0);
    var left := cb + t.descendants[i] * reg - Evs(out);
    PassTurn(t, reg, i, cb);
    if i in events {
      SearchedIsAll(t, reg, ftReg, Pass(), i);
    }
    if c in out {
      assert c.ev in Evs(out);
      EvsBelow(t, reg, Pass(), i, c.ev);
      RootsApart(t, i, j, c.ev);
    }
    if i !in events * (reg + ftReg) {
      assert i in events ==> out == [];
      assert w != i;
      StopsBefore(t, reg, ftReg, events, i + 1, cb, w, j, c);
    } else if left != {} {
      var k := Member(left);
      OwnIsBusy(t, reg, k);
      StopsBefore(t, reg, ftReg, events, i + 1, left, k, j, c);
    } else if out == [] {
      StopsBefore(t, reg, ftReg, events, i + 1, left, w, j, c);
    }
  }

  lemma OwnIsBusy(t: Tables, reg: set<int>, k: int)
    requires Good(t) && k in reg
    ensures Busy(t, reg, k)
  {
    AboveSelf(t, k);
  }

  lemma {:induction false} DueHas(t: Tables, reg: set<int>, ft: Filter, events: set<int>, i: nat, b: EventId, c: Call)
    requires Good(t) && b in events && i <= b < NUM_BEV && c in Visit(t, reg, ft, b, 0)
    ensures c in Due(t, reg, ft, events, i)
    decreases NUM_BEV - i
  {
    hide Rows, Closed, Visit;
    if i < b {
      DueHas(t, reg, ft, events, i + 1, b, c);
    }
  }

  ghost predicate AlwaysDue(t: Tables, reg: set<int>, ftReg: set<int>, events: set<int>)
    requires Good(t)
  {
    forall ft: Filter :: Handle(t, reg, ftReg, ft, events) == Due(t, reg, ft, events, 0)
  }

  lemma GapLoses(t: Tables, reg: set<int>, ftReg: set<int>, events: set<int>, i: EventId, j: EventId)
    requires Good(t) && AllInReach(t, reg, ftReg, events) && (forall b :: b in events ==> 0 <= b < NUM_BEV)
    requires i in events && j in events && i < j && Busy(t, reg, i) && Busy(t, reg, j)
    requires forall k :: k in events && k in reg ==> k < j
    ensures !AlwaysDue(t, reg, ftReg, events)
  {
    var x :| x in reg && IsAbove(t, j, x);
    hide Rows, Closed, Visit, Busy, InReach, IsAbove;
    PassCalls(t, reg, j, x);
    var c :| c in Visit(t, reg, Pass(), j, 0) && c.ev == x;
    DueHas(t, reg, Pass(), events, 0, j, c);
    StopsBefore(t, reg, ftReg, events, 0, events * reg, i, j, c);
    assert Handle(t, reg, ftReg, Pass(), events) != Due(t, reg, Pass(), events, 0);
  }

  // Handling a set of built-in events calls all that is due whatever the filters answer, exactly if of those events
  // that have something registered at or below them the last is registered itself, or there is only one. The early
  // return looks at the callbacks collected so far, and those below a later event are not collected yet.
  lemma HandleExact(t: Tables, reg: set<int>, ftReg: set<int>, events: set<int>)
    requires Good(t) && AllInReach(t, reg, ftReg, events) && forall b :: b in events ==> 0 <= b < NUM_BEV
    ensures AlwaysDue(t, reg, ftReg, events) <==> LastIsRegistered(t, reg, events)
  {
    hide Forest, Rows, Closed, Shape, Visit, Busy, InReach;
    if LastIsRegistered(t, reg, events) {
      HandleStarts(events, reg, reg + ftReg);
      forall ft: Filter ensures Handle(t, reg, ftReg, ft, events) == Due(t, reg, ft, events, 0) {
        HandleIsDue(t, reg, ftReg, ft, events, 0, events * reg);
      }
    } else {
      var i, j :| i in events && j in events && i < j && Busy(t, reg, i) && Busy(t, reg, j)
                  && !exists k :: k in events && k in reg && j <= k;
      GapLoses(t, reg, ftReg, events, i, j);
    }
  }

  // The tables with one UDE, below built-in event 1.
  function OneUde(): Tables { Define(NoEvents(), 1).0 }

  lemma OneChild()
    ensures var t := OneUde();
            && Good(t) && |t.descendants| == MAX_EV && t.udeMap == {32} && Parent(t, 32) == 1
            && t.descendants[0] == {} && t.descendants[1] == {32}
            && HasChild(t, 1, 0) && Child(t, 1, 0) == 32
            && !HasChild(t, 1, 1) && !HasChild(t, 0, 0) && !HasChild(t, 32, 0)
  {
    NoEventsGood();
    assert FreeUde({}, 32) == 32;
    assert Define(NoEvents(), 1) == (AddUde(NoEvents(), 1, 32, 0), 32);
    DefineKeepsGood(NoEvents(), 1);
  }

  lemma OneUdeVisits(ft: Filter)
    requires ft(32, 1, 0) == 1
    ensures Good(OneUde())
    ensures Visit(OneUde(), {0, 32}, ft, 0, 0) == [Call(0, 0)] && Visit(OneUde(), {0, 32}, ft, 1, 0) == [Call(32, 1)]
  {
    hide Good, OneUde;
    OneChild();
    var t := OneUde();
    assert Visit(t, {0, 32}, ft, 32, 1) == [Call(32, 1)];
    assert VisitFrom(t, {0, 32}, ft, 1, 0, 1) == [];
    assert VisitFrom(t, {0, 32}, ft, 1, 0, 0) == [Call(32, 1)];
  }

  lemma EvsOne(c: Call)
    ensures Evs([c]) == {c.ev}
  {
    EvsSnoc([], c);
    assert [] + [c] == [c];
  }

  lemma HandlesFirstOnly(t: Tables)
    requires t == OneUde() && Good(t)
    ensures Handle(t, {0, 32}, {1}, Pass(), {0, 1}) == [Call(0, 0)]
  {
    hide Good, OneUde, Visit, HandleFrom, Handle, Seen, Evs, Pass;
    var reg: set<int>, ft := {0, 32}, {1};
    OneChild();
    SeenPasses(reg + ft);
    OneUdeVisits(Seen(Pass(), reg + ft));
    EvsOne(Call(0, 0));
    assert {0, 1} * reg == {0} && {0} + t.descendants[0] * reg - {0} == {};
    HandleTurn(t, reg, ft, Pass(), {0, 1}, 0, {0});
    HandleIs(t, reg, ft, Pass(), {0, 1});
  }

  lemma HandlesSecondAlone(t: Tables)
    requires t == OneUde() && Good(t)
    ensures Handle(t, {0, 32}, {1}, Pass(), {1}) == [Call(32, 1)]
  {
    hide Good, OneUde, Visit, HandleFrom, Handle, Seen, Evs, Pass;
    var reg: set<int>, ft := {0, 32}, {1};
    OneChild();
    SeenPasses(reg + ft);
    OneUdeVisits(Seen(Pass(), reg + ft));
    EvsOne(Call(32, 1));
    assert {1} * reg == {} && {} + t.descendants[1] * reg - {32} == {};
    HandleTurn(t, reg, ft, Pass(), {1}, 0, {});
    HandleTurn(t, reg, ft, Pass(), {1}, 1, {});
    HandleIs(t, reg, ft, Pass(), {1});
  }

  lemma SeenPasses(see: set<int>)
    ensures 32 in see ==> Seen(Pass(), see)(32, 1, 0) == 1
  {
  }

  lemma HandleIs(t: Tables, reg: set<int>, ftReg: set<int>, ft: Filter, events: set<int>)
    requires Good(t)
    ensures Handle(t, reg, ftReg, ft, events) == HandleFrom(t, reg, ftReg, ft, events, 0, events * reg)
  {
  }

  lemma NoDue(t: Tables, reg: set<int>, ft: Filter, events: set<int>, i: nat)
    requires Good(t) && forall b :: b in events ==> b < i
    ensures Due(t, reg, ft, events, i) == []
    decreases NUM_BEV - i
  {
    if i < NUM_BEV {
      NoDue(t, reg, ft, events, i + 1);
    }
  }

  lemma DueTurn(t: Tables, reg: set<int>, ft: Filter, events: set<int>, i: nat)
    requires Good(t) && i < NUM_BEV && i in events
    ensures Due(t, reg, ft, events, i) == Visit(t, reg, ft, i, 0) + Due(t, reg, ft, events, i + 1)
  {
    hide Good, Visit;
  }

  lemma BothAreDue(t: Tables)
    requires t == OneUde() && Good(t)
    ensures Due(t, {0, 32}, Pass(), {0, 1}, 0) == [Call(0, 0), Call(32, 1)]
  {
    hide Good, OneUde, Visit, Due;
    OneUdeVisits(Pass());
    DueTurn(t, {0, 32}, Pass(), {0, 1}, 0);
    DueTurn(t, {0, 32}, Pass(), {0, 1}, 1);
    NoDue(t, {0, 32}, Pass(), {0, 1}, 2);
  }

  // An input: the event 0 is registered, and a user-defined event below event 1. Both are raised; only the first is
  // called, where each alone would be.
  lemma EarlyReturnLoses()
    ensures var t := OneUde();
            && Good(t) && Handle(t, {0, 32}, {1}, Pass(), {0, 1}) == [Call(0, 0)]
            && Due(t, {0, 32}, Pass(), {0, 1}, 0) == [Call(0, 0), Call(32, 1)]
            && Handle(t, {0, 32}, {1}, Pass(), {1}) == [Call(32, 1)]
  {
    hide OneUde, Visit, Handle, Good, Due;
    OneChild();
    HandlesFirstOnly(OneUde());
    HandlesSecondAlone(OneUde());
    BothAreDue(OneUde());
  }

  // Two events below event 0 are registered, and one of them is unregistered. The other should still be called, but
  // event 0 is on no bitmap any more.
  lemma SiblingLost(ft: Filter)
    requires ft(33, 0, 0) == 1 && ft(32, 0, 0) == 0
    ensures var t := TwoUdes();
            && Good(t) && FtCovers(t, {32, 33}, {0}) && UnregWalk(t, {33}, {0}, 32) == {}
            && Visit(t, {33}, ft, 0, 0) == [Call(33, 1)] && Handle(t, {33}, {}, ft, {0}) == []
  {
    hide Good, TwoUdes;
    TwoSiblings();
    var t := TwoUdes();
    assert Visit(t, {33}, ft, 33, 1) == [Call(33, 1)];
    assert VisitFrom(t, {33}, ft, 0, 0, 1) == [Call(33, 1)];
    assert VisitFrom(t, {33}, ft, 0, 0, 0) == [Call(33, 1)];
    hide Visit, VisitFrom;
    assert Left({0} * ({33} + {}), 0) == {};
    NoneLeft(t, {33}, {}, ft, {0}, 0, {0} * {33});
  }

  // ---------------------------------------------------------------- what the handling calls

  // Event x is to be called with d: it is registered below one of the events, and every filter on the way lets it
  // through.
  ghost predicate ToCall(t: Tables, reg: set<int>, ft: Filter, events: set<int>, x: int, d: int)
    requires Forest(t)
  {
    x in reg && exists b: EventId :: b in events && IsAbove(t, b, x) && DataAt(t, ft, b, 0, x) == Reached(d)
  }

  // Those are called, no others, each at most once and ancestors first.
  ghost predicate CallsWhatItShould(t: Tables, reg: set<int>, ft: Filter, events: set<int>, called: seq<Call>)
    requires Forest(t)
  {
    && (forall x, d :: Call(x, d) in called <==> ToCall(t, reg, ft, events, x, d))
    && Ordered(t, called)
  }

  lemma {:induction false} DueCalls(t: Tables, reg: set<int>, ft: Filter, events: set<int>, i: nat, x: int, d: int)
    requires Good(t) && forall b :: b in events ==> 0 <= b < NUM_BEV
    ensures Call(x, d) in Due(t, reg, ft, events, i) <==> ToCall(t, reg, ft, Left(events, i), x, d)
    decreases NUM_BEV - i
  {
    hide Rows, Closed, Visit, DataAt, IsAbove;
    if i < NUM_BEV {
      DueCalls(t, reg, ft, events, i + 1, x, d);
      VisitCalls(t, reg, ft, i, 0, x, d);
      LeftTurn(events, i);
      if ToCall(t, reg, ft, Left(events, i), x, d) {
        var b: EventId :| b in Left(events, i) && IsAbove(t, b, x) && DataAt(t, ft, b, 0, x) == Reached(d);
        assert b != i ==> b in Left(events, i + 1);
      }
      if ToCall(t, reg, ft, Left(events, i + 1), x, d) {
        var b: EventId :| b in Left(events, i + 1) && IsAbove(t, b, x) && DataAt(t, ft, b, 0, x) == Reached(d);
        assert b in Left(events, i);
      }
    }
  }

  lemma {:induction false} DueOrder(t: Tables, reg: set<int>, ft: Filter, events: set<int>, i: nat)
    requires Good(t) && forall b :: b in events ==> 0 <= b < NUM_BEV
    ensures Ordered(t, Due(t, reg, ft, events, i))
    decreases NUM_BEV - i
  {
    hide Rows, Closed, Visit, DataAt, IsAbove, Ordered;
    if i >= NUM_BEV {
      NoneOrdered(t);
    } else {
      DueOrder(t, reg, ft, events, i + 1);
      VisitOrder(t, reg, ft, i, 0);
      NoneOrdered(t);
      var a, rest := if i in events then Visit(t, reg, ft, i, 0) else [], Due(t, reg, ft, events, i + 1);
      forall x, y | x in a && y in rest ensures !IsAbove(t, y.ev, x.ev) {
        VisitCalls(t, reg, ft, i, 0, x.ev, x.data);
        DueCalls(t, reg, ft, events, i + 1, y.ev, y.data);
        var j: EventId :| j in Left(events, i + 1) && IsAbove(t, j, y.ev);
        RootsApart(t, i, j, x.ev);
        if IsAbove(t, y.ev, x.ev) {
          AboveTransitive(t, j, y.ev, x.ev);
        }
      }
      OrderedConcat(t, a, rest);
    }
  }

  lemma NoneOrdered(t: Tables)
    requires Forest(t)
    ensures Ordered(t, [])
  {
  }

  // With ft_map as registrations keep it: the handling calls what it should, if of the raised events with something
  // registered at or below them the last is registered itself or there is only one.
  lemma HandleCalls(t: Tables, reg: set<int>, ftReg: set<int>, ft: Filter, events: set<int>)
    requires Good(t) && FtCovers(t, reg, ftReg) && LastIsRegistered(t, reg, events)
    requires forall b :: b in events ==> 0 <= b < NUM_BEV
    ensures CallsWhatItShould(t, reg, ft, events, Handle(t, reg, ftReg, ft, events))
  {
    hide Rows, Closed, Visit, DataAt, IsAbove, Ordered, FtCovers, InReach, Busy, Handle, ToCall;
    CoversReach(t, reg, ftReg, events);
    HandleExact(t, reg, ftReg, events);
    DueOrder(t, reg, ft, events, 0);
    assert Left(events, 0) == events;
    forall x, d ensures Call(x, d) in Due(t, reg, ft, events, 0) <==> ToCall(t, reg, ft, events, x, d) {
      DueCalls(t, reg, ft, events, 0, x, d);
    }
  }

  // One raised event: what the recursive definition calls, whatever is registered.
  lemma HandleOne(t: Tables, reg: set<int>, ftReg: set<int>, ft: Filter, b: EventId, x: int, d: int)
    requires Good(t) && FtCovers(t, reg, ftReg) && b < NUM_BEV
    ensures Handle(t, reg, ftReg, ft, {b}) == Visit(t, reg, ft, b, 0)
    ensures Call(x, d) in Handle(t, reg, ftReg, ft, {b}) <==>
            x in reg && IsAbove(t, b, x) && DataAt(t, ft, b, 0, x) == Reached(d)
    ensures Ordered(t, Handle(t, reg, ftReg, ft, {b}))
  {
    hide Rows, Closed, Visit, DataAt, IsAbove, Ordered, FtCovers, InReach, Busy, Handle;
    CoversReach(t, reg, ftReg, {b});
    HandleExact(t, reg, ftReg, {b});
    OneIsDue(t, reg, ft, b, 0);
    VisitCalls(t, reg, ft, b, 0, x, d);
    VisitOrder(t, reg, ft, b, 0);
  }

  lemma {:induction false} OneIsDue(t: Tables, reg: set<int>, ft: Filter, b: EventId, i: nat)
    requires Good(t) && b < NUM_BEV && i <= b
    ensures Due(t, reg, ft, {b}, i) == Visit(t, reg, ft, b, 0)
    decreases b - i
  {
    hide Rows, Closed, Visit;
    if i < b {
      OneIsDue(t, reg, ft, b, i + 1);
    } else {
      NoDue(t, reg, ft, {b}, b + 1);
    }
  }
}
