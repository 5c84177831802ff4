/** Dispatching one built-in event: the recursive meaning, and the state of the iterative search against it. */
module DispatchSpec {
  import opened EventSpec

  // The call of one event's callback with the data of the filter that let it through.
  datatype Call = Call(ev: int, data: int)

  // What the filter of UDE `u` answers below event `ev` with data `data`; 0 lets nothing through.
  type Filter = (int, int, int) -> int

  lemma ChildFacts(t: Tables, e: EventId, k: int)
    requires Good(t) && HasChild(t, e, k)
    ensures e < Child(t, e, k) < MAX_EV && Child(t, e, k) in t.udeMap && Parent(t, Child(t, e, k)) == e
  {
  }

  // An event and all that its children let through, depth first.
  function Visit(t: Tables, reg: set<int>, ft: Filter, e: EventId, data: int): seq<Call>
    requires Good(t)
    decreases MAX_EV - e, 1, 0
  {
    (if e in reg then [Call(e, data)] else []) + VisitFrom(t, reg, ft, e, data, 0)
  }

  function VisitFrom(t: Tables, reg: set<int>, ft: Filter, e: EventId, data: int, k: nat): seq<Call>
    requires Good(t)
    decreases MAX_EV - e, 0, NUM_UDE - k
  {
    if !HasChild(t, e, k) then []
    else
      ChildFacts(t, e, k);
      var c := Child(t, e, k);
      var d := ft(c, e, data);
      (if d != 0 then Visit(t, reg, ft, c, d) else []) + VisitFrom(t, reg, ft, e, data, k + 1)
  }

  // The filters as the search runs them: it passes an event over that is on neither bitmap.
  function Seen(ft: Filter, see: set<int>): Filter {
    (u, e, data) => if u in see then ft(u, e, data) else 0
  }

  // ---------------------------------------------------------------- what the recursion calls

  // Event x is in the subtree of a child of e from entry k on.
  predicate InBelow(t: Tables, e: EventId, k: nat, x: int)
    requires Forest(t)
    decreases NUM_UDE - k
  {
    HasChild(t, e, k) && (IsAbove(t, Child(t, e, k), x) || InBelow(t, e, k + 1, x))
  }

  lemma {:induction false} InBelowAt(t: Tables, e: EventId, j: nat, k: nat, x: int)
    requires Good(t) && j <= k && HasChild(t, e, k) && IsAbove(t, Child(t, e, k), x)
    ensures InBelow(t, e, j, x)
    decreases k - j
  {
    if j < k {
      InBelowAt(t, e, j + 1, k, x);
      assert HasChild(t, e, j);
    }
  }

  lemma {:induction false} InBelowIs(t: Tables, e: EventId, j: nat, x: int)
    requires Good(t) && InBelow(t, e, j, x)
    ensures e < x && IsAbove(t, e, x)
    ensures exists k: nat :: j <= k && HasChild(t, e, k) && IsAbove(t, Child(t, e, k), x)
    decreases NUM_UDE - j
  {
    ChildFacts(t, e, j);
    if IsAbove(t, Child(t, e, j), x) {
      AboveTransitive(t, e, Child(t, e, j), x);
      AboveIsSmaller(t, Child(t, e, j), x);
    } else {
      InBelowIs(t, e, j + 1, x);
    }
  }

  lemma {:induction false} StrictlyAboveIsBelow(t: Tables, e: EventId, x: int)
    requires Good(t) && IsAbove(t, e, x) && x != e
    ensures InBelow(t, e, 0, x)
    decreases x
  {
    if Parent(t, x) == e {
      assert InRow(t, x);
      var k :| HasChild(t, e, k) && Child(t, e, k) == x;
      InBelowAt(t, e, 0, k, x);
    } else {
      StrictlyAboveIsBelow(t, e, Parent(t, x));
      InBelowIs(t, e, 0, Parent(t, x));
      var k: nat :| HasChild(t, e, k) && IsAbove(t, Child(t, e, k), Parent(t, x));
      InBelowAt(t, e, 0, k, x);
    }
  }

  datatype Reach = Blocked | Reached(data: int)

  // The data with which event x is reached from event e, if every filter on the way lets it through.
  function DataAt(t: Tables, ft: Filter, e: EventId, data: int, x: int): Reach
    requires Forest(t)
    decreases x
  {
    if x == e then Reached(data)
    else if x !in t.udeMap then Blocked
    else
      match DataAt(t, ft, e, data, Parent(t, x))
      case Blocked => Blocked
      case Reached(d) => if ft(x, Parent(t, x), d) == 0 then Blocked else Reached(ft(x, Parent(t, x), d))
  }

  // The way from e to x leads through the child of e that is above x.
  lemma {:induction false} DataVia(t: Tables, ft: Filter, e: EventId, data: int, c: EventId, x: int)
    requires Good(t) && c in t.udeMap && Parent(t, c) == e && IsAbove(t, c, x)
    ensures DataAt(t, ft, e, data, x) ==
            if ft(c, e, data) == 0 then Blocked else DataAt(t, ft, c, ft(c, e, data), x)
    decreases x
  {
    AboveIsSmaller(t, c, x);
    if x != c {
      DataVia(t, ft, e, data, c, Parent(t, x));
    }
  }

  // A dispatch calls exactly the callbacks below e that are registered and whose every filter on the way lets the event
  // through, with the data of the last filter.
  lemma {:induction false} VisitCalls(t: Tables, reg: set<int>, ft: Filter, e: EventId, data: int, x: int, d: int)
    requires Good(t)
    ensures Call(x, d) in Visit(t, reg, ft, e, data) <==>
            x in reg && IsAbove(t, e, x) && DataAt(t, ft, e, data, x) == Reached(d)
    decreases MAX_EV - e, 1, 0
  {
    VisitFromCalls(t, reg, ft, e, data, 0, x, d);
    hide Good;
    if InBelow(t, e, 0, x) {
      InBelowIs(t, e, 0, x);
    }
    if IsAbove(t, e, x) && x != e {
      StrictlyAboveIsBelow(t, e, x);
    }
  }

  lemma {:induction false} VisitFromCalls(t: Tables, reg: set<int>, ft: Filter, e: EventId, data: int, k: nat,
                                          x: int, d: int)
    requires Good(t)
    ensures Call(x, d) in VisitFrom(t, reg, ft, e, data, k) <==>
            x in reg && InBelow(t, e, k, x) && DataAt(t, ft, e, data, x) == Reached(d)
    decreases MAX_EV - e, 0, NUM_UDE - k
  {
    if HasChild(t, e, k) {
      ChildFacts(t, e, k);
      var c := Child(t, e, k);
      VisitCalls(t, reg, ft, c, ft(c, e, data), x, d);
      VisitFromCalls(t, reg, ft, e, data, k + 1, x, d);
      if IsAbove(t, c, x) {
        DataVia(t, ft, e, data, c, x);
      }
      hide Good, DataAt, HasChild, Child, Visit;
    }
  }

  // No event follows one it is above, and none comes twice.
  ghost predicate Ordered(t: Tables, s: seq<Call>)
    requires Forest(t)
  {
    forall i, j :: 0 <= i < j < |s| ==> !IsAbove(t, s[j].ev, s[i].ev)
  }

  lemma OrderedConcat(t: Tables, a: seq<Call>, b: seq<Call>)
    requires Forest(t) && Ordered(t, a) && Ordered(t, b)
    requires forall x, y :: x in a && y in b ==> !IsAbove(t, y.ev, x.ev)
    ensures Ordered(t, a + b)
  {
    var s := a + b;
    forall i, j | 0 <= i < j < |s| ensures !IsAbove(t, s[j].ev, s[i].ev) {
      if j < |a| {
        assert s[i] == a[i] && s[j] == a[j];
      } else if |a| <= i {
        assert s[i] == b[i - |a|] && s[j] == b[j - |a|];
      } else {
        assert s[i] in a && s[j] in b;
      }
    }
  }

  // What hangs below different entries of a row is not ordered.
  lemma BelowApart(t: Tables, e: EventId, k: nat, x: int, y: int)
    requires Good(t) && HasChild(t, e, k) && IsAbove(t, Child(t, e, k), x) && InBelow(t, e, k + 1, y)
    ensures !IsAbove(t, y, x)
  {
    InBelowIs(t, e, k + 1, y);
    var j: nat :| k + 1 <= j && HasChild(t, e, j) && IsAbove(t, Child(t, e, j), y);
    ChildFacts(t, e, j);
    ChildFacts(t, e, k);
    assert Child(t, e, k) < Child(t, e, j);
    if IsAbove(t, y, x) {
      AboveTransitive(t, Child(t, e, j), y, x);
      SiblingsApart(t, Child(t, e, k), Child(t, e, j), x);
    }
  }

  // A dispatch calls every callback at most once, and those of ancestors before those of descendants.
  lemma {:induction false} VisitOrder(t: Tables, reg: set<int>, ft: Filter, e: EventId, data: int)
    requires Good(t)
    ensures Ordered(t, Visit(t, reg, ft, e, data))
    decreases MAX_EV - e, 1, 0
  {
    hide Visit;
    VisitFromOrder(t, reg, ft, e, data, 0);
    var own, rest := if e in reg then [Call(e, data)] else [], VisitFrom(t, reg, ft, e, data, 0);
    forall y | y in rest ensures !IsAbove(t, y.ev, e) {
      VisitFromCalls(t, reg, ft, e, data, 0, y.ev, y.data);
      InBelowIs(t, e, 0, y.ev);
      if IsAbove(t, y.ev, e) {
        AboveIsSmaller(t, y.ev, e);
      }
    }
    OrderedConcat(t, own, rest);
    VisitIs(t, reg, ft, e, data);
  }

  lemma VisitIs(t: Tables, reg: set<int>, ft: Filter, e: EventId, data: int)
    requires Good(t)
    ensures Visit(t, reg, ft, e, data) == (if e in reg then [Call(e, data)] else []) + VisitFrom(t, reg, ft, e, data, 0)
  {
  }

  lemma {:induction false} VisitFromOrder(t: Tables, reg: set<int>, ft: Filter, e: EventId, data: int, k: nat)
    requires Good(t)
    ensures Ordered(t, VisitFrom(t, reg, ft, e, data, k))
    decreases MAX_EV - e, 0, NUM_UDE - k
  {
    if HasChild(t, e, k) {
      ChildFacts(t, e, k);
      var c := Child(t, e, k);
      var d := ft(c, e, data);
      VisitOrder(t, reg, ft, c, d);
      VisitFromOrder(t, reg, ft, e, data, k + 1);
      var a, b := if d != 0 then Visit(t, reg, ft, c, d) else [], VisitFrom(t, reg, ft, e, data, k + 1);
      forall x, y | x in a && y in b ensures !IsAbove(t, y.ev, x.ev) {
        VisitCalls(t, reg, ft, c, d, x.ev, x.data);
        VisitFromCalls(t, reg, ft, e, data, k + 1, y.ev, y.data);
        BelowApart(t, e, k, x.ev, y.ev);
      }
      OrderedConcat(t, a, b);
    }
  }

  // Nothing registered below, nothing called.
  lemma NothingFrom(t: Tables, reg: set<int>, ft: Filter, e: EventId, data: int, k: nat)
    requires Good(t) && forall x :: InBelow(t, e, k, x) ==> x !in reg
    ensures VisitFrom(t, reg, ft, e, data, k) == []
  {
    var s := VisitFrom(t, reg, ft, e, data, k);
    if s != [] {
      var c := s[0];
      assert Call(c.ev, c.data) in s;
      VisitFromCalls(t, reg, ft, e, data, k, c.ev, c.data);
    }
  }

  lemma NothingBelow(t: Tables, reg: set<int>, ft: Filter, e: EventId, data: int)
    requires Good(t) && forall x :: IsAbove(t, e, x) ==> x !in reg
    ensures Visit(t, reg, ft, e, data) == []
  {
    var s := Visit(t, reg, ft, e, data);
    if s != [] {
      var c := s[0];
      assert Call(c.ev, c.data) in s;
      VisitCalls(t, reg, ft, e, data, c.ev, c.data);
    }
  }

  // ---------------------------------------------------------------- the iterative search

  // An event whose children are being tried, at entry ft.
  datatype Frame = Frame(ev: EventId, ft: nat, data: int)

  // What is still to be called from entry k of event e, and then from the entries after those on the stack.
  function Rest(t: Tables, reg: set<int>, ft: Filter, stack: seq<Frame>, e: EventId, k: nat, data: int): seq<Call>
    requires Good(t)
  {
    VisitFrom(t, reg, ft, e, data, k)
    + (if stack == [] then []
       else var f := stack[|stack| - 1]; Rest(t, reg, ft, stack[..|stack| - 1], f.ev, f.ft + 1, f.data))
  }

  lemma RestAtStart(t: Tables, reg: set<int>, ft: Filter, e: EventId, k: nat, data: int)
    requires Good(t)
    ensures Rest(t, reg, ft, [], e, k, data) == VisitFrom(t, reg, ft, e, data, k)
  {
  }

  // The events that are still to be looked at.
  predicate InTodo(t: Tables, stack: seq<Frame>, e: EventId, k: nat, x: int)
    requires Good(t)
  {
    InBelow(t, e, k, x)
    || (stack != [] && InTodo(t, stack[..|stack| - 1], stack[|stack| - 1].ev, stack[|stack| - 1].ft + 1, x))
  }

  // Each frame waits for the child it was left for; the last is the built-in event b or one of its children.
  predicate Chain(t: Tables, stack: seq<Frame>, e: EventId, b: EventId)
    requires Good(t)
  {
    if stack == [] then e == b
    else
      var f := stack[|stack| - 1];
      HasChild(t, f.ev, f.ft) && Child(t, f.ev, f.ft) == e && Chain(t, stack[..|stack| - 1], f.ev, b)
  }

  // Events on the way from b to e are above e; there are at most NUM_UDE of them.
  lemma {:induction false} ChainFacts(t: Tables, stack: seq<Frame>, e: EventId, b: EventId)
    requires Good(t) && Chain(t, stack, e, b)
    ensures IsAbove(t, b, e) && (stack != [] ==> e in t.udeMap && |stack| <= e - UDE_OFFSET + 1)
    ensures forall f :: f in stack ==> f.ev < e
  {
    if stack != [] {
      var f, rest := stack[|stack| - 1], stack[..|stack| - 1];
      ChainFacts(t, rest, f.ev, b);
      ChildFacts(t, f.ev, f.ft);
      AboveTransitive(t, b, f.ev, e);
      assert stack == rest + [f];
    }
  }

  // Everything to be looked at is below b.
  lemma {:induction false} TodoBelow(t: Tables, stack: seq<Frame>, e: EventId, k: nat, b: EventId, x: int)
    requires Good(t) && Chain(t, stack, e, b) && InTodo(t, stack, e, k, x)
    ensures IsAbove(t, b, x) && x != b && x in t.udeMap
  {
    ChainFacts(t, stack, e, b);
    if InBelow(t, e, k, x) {
      InBelowIs(t, e, k, x);
      AboveTransitive(t, b, e, x);
      AboveIsSmaller(t, e, x);
      AboveIsSmaller(t, b, e);
    } else {
      var f := stack[|stack| - 1];
      TodoBelow(t, stack[..|stack| - 1], f.ev, f.ft + 1, b, x);
    }
  }

  // What is above e or e itself is looked at already, as is everything in the subtree of e before entry k.
  lemma {:induction false} StackDone(t: Tables, stack: seq<Frame>, e: EventId, b: EventId, x: int)
    requires Good(t) && Chain(t, stack, e, b) && stack != [] && IsAbove(t, e, x)
    ensures var f := stack[|stack| - 1]; !InTodo(t, stack[..|stack| - 1], f.ev, f.ft + 1, x)
  {
    var f, rest := stack[|stack| - 1], stack[..|stack| - 1];
    ChildFacts(t, f.ev, f.ft);
    AboveTransitive(t, f.ev, e, x);
    if InBelow(t, f.ev, f.ft + 1, x) {
      BelowApart(t, f.ev, f.ft, x, x);
    } else if rest != [] {
      StackDone(t, rest, f.ev, b, x);
    }
  }

  // Steps the search still takes: entries looked at, and events left.
  function Work(t: Tables, e: EventId, k: nat): nat
    requires Good(t)
    decreases MAX_EV - e, NUM_UDE - k
  {
    if !HasChild(t, e, k) then 1
    else ChildFacts(t, e, k); 1 + Work(t, Child(t, e, k), 0) + Work(t, e, k + 1)
  }

  function WorkLeft(t: Tables, stack: seq<Frame>, e: EventId, k: nat): nat
    requires Good(t)
  {
    Work(t, e, k)
    + (if stack == [] then 0
       else var f := stack[|stack| - 1]; WorkLeft(t, stack[..|stack| - 1], f.ev, f.ft + 1))
  }

  // The filters that are run reach every registered event: ft_map holds what is above a registered callback.
  ghost predicate FtCovers(t: Tables, reg: set<int>, ftReg: set<int>)
    requires Forest(t)
  {
    forall a, x :: x in reg && a != x && IsAbove(t, a, x) ==> a in ftReg
  }

  // The bitmaps during the search below b: cb holds the callbacks still to come, fm the events worth a filter.
  ghost predicate Sound(t: Tables, reg: set<int>, ftReg: set<int>, b: EventId, stack: seq<Frame>, e: EventId, k: nat,
                        cb: set<int>, fm: set<int>)
    requires Good(t)
  {
    && Chain(t, stack, e, b)
    && (forall x :: InTodo(t, stack, e, k, x) ==> (x in cb <==> x in reg))
    && (forall f :: f in stack ==> f.ev !in cb)
    && (forall x :: x in t.descendants[b] ==> (x in fm <==> x in ftReg))
  }

  lemma StartSound(t: Tables, reg: set<int>, ftReg: set<int>, b: EventId, cb: set<int>, fm: set<int>)
    requires Good(t) && (forall x :: x in t.descendants[b] ==> (x in cb <==> x in reg) && (x in fm <==> x in ftReg))
    ensures Sound(t, reg, ftReg, b, [], b, 0, cb, fm)
  {
    forall x | InTodo(t, [], b, 0, x) ensures x in t.descendants[b] {
      TodoBelow(t, [], b, 0, b, x);
      assert DescendantsOk(t, b);
    }
  }

  // The callback of e is not met again.
  lemma CalledSound(t: Tables, reg: set<int>, ftReg: set<int>, b: EventId, stack: seq<Frame>, e: EventId, k: nat,
                    cb: set<int>, fm: set<int>)
    requires Good(t) && Sound(t, reg, ftReg, b, stack, e, k, cb, fm)
    ensures Sound(t, reg, ftReg, b, stack, e, k, cb - {e}, fm)
  {
    if InTodo(t, stack, e, k, e) {
      if InBelow(t, e, k, e) {
        InBelowIs(t, e, k, e);
      } else {
        StackDone(t, stack, e, b, e);
      }
    }
  }

  // The four functions on a stack, one frame higher.
  lemma Unstack(t: Tables, reg: set<int>, ft: Filter, stack: seq<Frame>, f: Frame, c: EventId, k: nat, data: int,
                b: EventId)
    requires Good(t)
    ensures Rest(t, reg, ft, stack + [f], c, k, data) ==
            VisitFrom(t, reg, ft, c, data, k) + Rest(t, reg, ft, stack, f.ev, f.ft + 1, f.data)
    ensures forall x :: InTodo(t, stack + [f], c, k, x) <==> InBelow(t, c, k, x) || InTodo(t, stack, f.ev, f.ft + 1, x)
    ensures Chain(t, stack + [f], c, b) <==>
            HasChild(t, f.ev, f.ft) && Child(t, f.ev, f.ft) == c && Chain(t, stack, f.ev, b)
    ensures WorkLeft(t, stack + [f], c, k) == Work(t, c, k) + WorkLeft(t, stack, f.ev, f.ft + 1)
  {
    hide Good, VisitFrom, InBelow, HasChild, Work;
    assert (stack + [f])[..|stack|] == stack;
  }

  // Entry k looked at: the rest is what its child calls, and then the rest from entry k + 1.
  lemma EntryDone(t: Tables, reg: set<int>, ft: Filter, stack: seq<Frame>, e: EventId, k: nat, data: int)
    requires Good(t) && HasChild(t, e, k)
    ensures var c := Child(t, e, k);
            && e < c < MAX_EV
            && Rest(t, reg, ft, stack, e, k, data) ==
                 (if ft(c, e, data) != 0 then Visit(t, reg, ft, c, ft(c, e, data)) else [])
                 + Rest(t, reg, ft, stack, e, k + 1, data)
            && WorkLeft(t, stack, e, k) == 1 + Work(t, c, 0) + WorkLeft(t, stack, e, k + 1)
  {
    hide Forest, Rows, Closed, Shape, Visit, HasChild, Child;
    ForestShape(t);
    ChildFacts(t, e, k);
  }

  lemma EntryTodo(t: Tables, stack: seq<Frame>, e: EventId, k: nat, x: int)
    requires Good(t) && HasChild(t, e, k)
    requires InTodo(t, stack, e, k + 1, x) || IsAbove(t, Child(t, e, k), x)
    ensures InTodo(t, stack, e, k, x)
  {
    hide Forest, Rows, Closed, Shape, HasChild, IsAbove, Child;
    ForestShape(t);
  }

  // The next entry is a child the search goes down to.
  lemma PushSound(t: Tables, reg: set<int>, ftReg: set<int>, ft: Filter, b: EventId, stack: seq<Frame>, e: EventId,
                  k: nat, data: int, cb: set<int>, fm: set<int>)
    requires Good(t) && Sound(t, reg, ftReg, b, stack, e, k, cb, fm) && e !in cb && HasChild(t, e, k)
    ensures var c := Child(t, e, k);
            && 0 <= c < MAX_EV && Sound(t, reg, ftReg, b, stack + [Frame(e, k, data)], c, 0, cb, fm)
            && (c in cb <==> c in reg) && |stack| < NUM_UDE
  {
    hide Forest, Rows, Closed, Shape, Rest, VisitFrom, InBelow, InTodo, Chain, Work, WorkLeft, HasChild, IsAbove;
    ForestShape(t);
    ChildFacts(t, e, k);
    var c, f := Child(t, e, k), Frame(e, k, data);
    Unstack(t, reg, ft, stack, f, c, 0, 0, b);
    ChainFacts(t, stack + [f], c, b);
    AboveSelf(t, c);
    forall x | InTodo(t, stack + [f], c, 0, x) || x == c ensures InTodo(t, stack, e, k, x) {
      if InBelow(t, c, 0, x) {
        InBelowIs(t, c, 0, x);
      }
      EntryTodo(t, stack, e, k, x);
    }
  }

  lemma PushRest(t: Tables, reg: set<int>, ft: Filter, stack: seq<Frame>, e: EventId, k: nat, data: int)
    requires Good(t) && HasChild(t, e, k) && 0 <= Child(t, e, k) < MAX_EV && ft(Child(t, e, k), e, data) != 0
    ensures var c := Child(t, e, k); var stack' := stack + [Frame(e, k, data)]; var d := ft(c, e, data);
            && WorkLeft(t, stack', c, 0) < WorkLeft(t, stack, e, k)
            && Rest(t, reg, ft, stack, e, k, data) ==
                 (if c in reg then [Call(c, d)] else []) + Rest(t, reg, ft, stack', c, 0, d)
  {
    hide Forest, Rows, Closed, Shape, Rest, VisitFrom, InBelow, InTodo, Chain, Work, WorkLeft, HasChild, IsAbove, Visit;
    ForestShape(t);
    var c, d := Child(t, e, k), ft(Child(t, e, k), e, data);
    EntryDone(t, reg, ft, stack, e, k, data);
    Unstack(t, reg, ft, stack, Frame(e, k, data), c, 0, d, e);
    VisitIs(t, reg, ft, c, d);
  }

  // During the search the bitmaps say of a child what they say at its start.
  lemma InSight(t: Tables, reg: set<int>, ftReg: set<int>, b: EventId, stack: seq<Frame>, e: EventId, k: nat,
                cb: set<int>, fm: set<int>)
    requires Good(t) && Sound(t, reg, ftReg, b, stack, e, k, cb, fm) && HasChild(t, e, k)
    ensures var c := Child(t, e, k); c in cb || c in fm <==> c in reg + ftReg
  {
    ChildFacts(t, e, k);
    hide Rows, HasChild, InTodo, Shape, IsAbove, Child;
    ForestShape(t);
    var c := Child(t, e, k);
    AboveSelf(t, c);
    EntryTodo(t, stack, e, k, c);
    TodoBelow(t, stack, e, k, b, c);
    assert DescendantsOk(t, b);
  }

  // The entry is passed over.
  lemma SkipSound(t: Tables, reg: set<int>, ftReg: set<int>, ft: Filter, b: EventId, stack: seq<Frame>, e: EventId,
                  k: nat, data: int, cb: set<int>, fm: set<int>)
    requires Good(t) && Sound(t, reg, ftReg, b, stack, e, k, cb, fm) && HasChild(t, e, k)
    requires ft(Child(t, e, k), e, data) == 0
    ensures Sound(t, reg, ftReg, b, stack, e, k + 1, cb, fm)
    ensures Rest(t, reg, ft, stack, e, k + 1, data) == Rest(t, reg, ft, stack, e, k, data)
    ensures WorkLeft(t, stack, e, k + 1) < WorkLeft(t, stack, e, k)
  {
    hide Forest, Rows, Closed, Shape, Rest, VisitFrom, InBelow, InTodo, Chain, Work, WorkLeft, HasChild, IsAbove, Visit;
    ForestShape(t);
    EntryDone(t, reg, ft, stack, e, k, data);
    forall x | InTodo(t, stack, e, k + 1, x) ensures InTodo(t, stack, e, k, x) {
      EntryTodo(t, stack, e, k, x);
    }
  }

  // No entry is left at e: the search goes on after the entry it came from, or is over.
  lemma PopSound(t: Tables, reg: set<int>, ftReg: set<int>, ft: Filter, b: EventId, stack: seq<Frame>, e: EventId,
                 k: nat, data: int, cb: set<int>, fm: set<int>)
    requires Good(t) && Sound(t, reg, ftReg, b, stack, e, k, cb, fm) && !HasChild(t, e, k)
    ensures if stack == [] then Rest(t, reg, ft, stack, e, k, data) == []
            else var f := stack[|stack| - 1]; var rest := stack[..|stack| - 1];
                 && Sound(t, reg, ftReg, b, rest, f.ev, f.ft + 1, cb, fm) && f.ev !in cb
                 && Rest(t, reg, ft, rest, f.ev, f.ft + 1, f.data) == Rest(t, reg, ft, stack, e, k, data)
                 && WorkLeft(t, rest, f.ev, f.ft + 1) < WorkLeft(t, stack, e, k)
  {
    hide Forest, Rows, Closed, Shape, HasChild, IsAbove, Visit;
    ForestShape(t);
  }

  // With no callback left to come, nothing is left to call.
  lemma {:induction false} NothingLeft(t: Tables, reg: set<int>, ft: Filter, stack: seq<Frame>, e: EventId, k: nat,
                                       data: int)
    requires Good(t) && forall x :: InTodo(t, stack, e, k, x) ==> x !in reg
    ensures Rest(t, reg, ft, stack, e, k, data) == []
  {
    hide Forest, Rows, Closed, Shape, HasChild, IsAbove, Visit, VisitFrom, InBelow;
    ForestShape(t);
    NothingFrom(t, reg, ft, e, data, k);
    if stack != [] {
      var f := stack[|stack| - 1];
      NothingLeft(t, reg, ft, stack[..|stack| - 1], f.ev, f.ft + 1, f.data);
    }
  }

  lemma AboveSelf(t: Tables, x: int)
    requires Good(t)
    ensures IsAbove(t, x, x)
  {
  }

  lemma NoneToCome(t: Tables, reg: set<int>, ftReg: set<int>, ft: Filter, b: EventId, stack: seq<Frame>, e: EventId,
                   k: nat, data: int, fm: set<int>)
    requires Good(t) && Sound(t, reg, ftReg, b, stack, e, k, {}, fm)
    ensures Rest(t, reg, ft, stack, e, k, data) == []
  {
    NothingLeft(t, reg, ft, stack, e, k, data);
  }

  // ---------------------------------------------------------------- registration

  // ft_map after the registration of `events`, from event i on.
  function FtAfter(t: Tables, events: set<int>, ftReg: set<int>, i: int): set<int>
    requires Shape(t) && UDE_OFFSET <= i <= MAX_EV
    decreases MAX_EV - i
  {
    if i == MAX_EV then ftReg
    else FtAfter(t, events, if i in events then ftReg + AncestorsOf(t, i) else ftReg, i + 1)
  }

  lemma {:induction false} FtAfterHas(t: Tables, events: set<int>, ftReg: set<int>, i: int, a: int, u: EventId)
    requires Shape(t) && UDE_OFFSET <= i <= MAX_EV
    requires a in ftReg || (i <= u && u in events && a in AncestorsOf(t, u))
    ensures a in FtAfter(t, events, ftReg, i)
    decreases MAX_EV - i
  {
    if i < MAX_EV {
      FtAfterHas(t, events, if i in events then ftReg + AncestorsOf(t, i) else ftReg, i + 1, a, u);
    }
  }

  // Registration keeps the filters that reach the registered events.
  lemma RegisterCovers(t: Tables, reg: set<int>, ftReg: set<int>, events: set<int>)
    requires Good(t) && FtCovers(t, reg, ftReg)
    requires forall u :: u in events ==> u < UDE_OFFSET || u in t.udeMap
    ensures FtCovers(t, reg + events, FtAfter(t, events, ftReg, UDE_OFFSET))
  {
    hide Forest, Rows, Shape, IsAbove, FtAfter;
    ForestShape(t);
    forall a, x | x in reg + events && a != x && IsAbove(t, a, x) ensures a in FtAfter(t, events, ftReg, UDE_OFFSET) {
      AboveIsSmaller(t, a, x);
      assert AncestorsOk(t, x);
      FtAfterHas(t, events, ftReg, UDE_OFFSET, a, x);
    }
  }

  // A definition keeps them, unless the new event was registered before it existed and not all that is above it now was
  // on ft_map already.
  lemma DefineCovers(t: Tables, evid: EventId, reg: set<int>, ftReg: set<int>)
    requires Good(t) && MayDefineBelow(t, evid) && FtCovers(t, reg, ftReg)
    ensures var (t', u) := Define(t, evid);
            && Good(t') && (u == -1 || u in t'.udeMap)
            && (FtCovers(t', reg, ftReg) <==> u !in reg || u == -1 || AncestorsOf(t', u) <= ftReg)
  {
    hide Rows, Closed, AddUde;
    DefineKeepsGood(t, evid);
    var u := FreeUde(t.udeMap, UDE_OFFSET);
    var entry := FreeEntry(t.udeId[evid], 0);
    if u < MAX_EV && entry < NUM_UDE {
      var t' := AddUde(t, evid, u, entry);
      AddParents(t, evid, u, entry);
      AncestorsAre(t', u);
      forall a, x | x != u ensures IsAbove(t', a, x) <==> IsAbove(t, a, x) {
        AddAbove(t, t', evid, u, a, x);
      }
      if u in reg && FtCovers(t', reg, ftReg) {
        forall a | a in AncestorsOf(t', u) ensures a in ftReg {
          assert IsAbove(t', a, u);
        }
      }
      if u !in reg || AncestorsOf(t', u) <= ftReg {
        forall a, x | x in reg && a != x && IsAbove(t', a, x) ensures a in ftReg {
          assert x != u ==> IsAbove(t, a, x);
        }
      }
    }
  }

  lemma AncestorsAre(t: Tables, u: EventId)
    requires Good(t) && u in t.udeMap
    ensures forall a :: a in AncestorsOf(t, u) <==> a != u && IsAbove(t, a, u)
  {
    assert AncestorsOk(t, u);
  }

  // Nothing is registered at or below event w.
  predicate Useless(t: Tables, cb: set<int>, w: EventId)
    requires Shape(t)
  {
    w !in cb && t.descendants[w] * cb == {}
  }

  // The loop of UnregCb, from event w up: filters nobody needs any more are taken off ft_map.
  function UnregWalk(t: Tables, cb: set<int>, ftReg: set<int>, w: EventId): (ft: set<int>)
    requires Good(t) && w in t.udeMap
    ensures ft <= ftReg
    decreases w
  {
    if !Useless(t, cb, w) then ftReg
    else
      var ft := ftReg - {Parent(t, w)};
      if Parent(t, w) < UDE_OFFSET then ft else UnregWalk(t, cb, ft, Parent(t, w))
  }

  // Whenever the walk takes an event off, nothing is left registered below that event: no sibling of w is in use.
  predicate NoSiblingInUse(t: Tables, cb: set<int>, w: EventId)
    requires Good(t) && w in t.udeMap
    decreases w
  {
    Useless(t, cb, w) ==>
      var p := Parent(t, w);
      t.descendants[p] * cb == {} && (p < UDE_OFFSET || NoSiblingInUse(t, cb, p))
  }

  // Unregistering keeps the filters that reach the registered events exactly if no sibling on the way up is in use.
  lemma {:induction false} UnregisterCovers(t: Tables, cb: set<int>, ftReg: set<int>, w: EventId)
    requires Good(t) && w in t.udeMap && FtCovers(t, cb, ftReg)
    ensures FtCovers(t, cb, UnregWalk(t, cb, ftReg, w)) <==> NoSiblingInUse(t, cb, w)
    decreases w
  {
    if Useless(t, cb, w) {
      var p := Parent(t, w);
      assert DescendantsOk(t, p);
      var below := t.descendants[p] * cb;
      if below == {} {
        forall x | p != x && IsAbove(t, p, x) ensures x !in cb {
          AboveIsSmaller(t, p, x);
          assert x in cb ==> x in below;
        }
        assert FtCovers(t, cb, ftReg - {p});
        if p >= UDE_OFFSET {
          UnregisterCovers(t, cb, ftReg - {p}, p);
        }
      } else {
        var x := Member(below);
        assert IsAbove(t, p, x) && p !in UnregWalk(t, cb, ftReg, w);
      }
    }
  }

  lemma Member(s: set<int>) returns (x: int)
    requires s != {}
    ensures x in s
  {
    assert (forall y :: y !in s) ==> s == {};
    x :| x in s;
  }

  // The tables with two UDEs below built-in event 0.
  function TwoUdes(): Tables {
    Define(Define(NoEvents(), 0).0, 0).0
  }

  lemma TwoSiblings()
    ensures var t := TwoUdes();
            && Good(t) && t.udeMap == {32, 33} && t.descendants[0] == {32, 33} && t.descendants[32] == {}
            && Parent(t, 32) == 0 && Parent(t, 33) == 0
            && HasChild(t, 0, 0) && Child(t, 0, 0) == 32 && HasChild(t, 0, 1) && Child(t, 0, 1) == 33
            && !HasChild(t, 0, 2) && !HasChild(t, 33, 0)
  {
    NoEventsGood();
    var t0 := NoEvents();
    assert FreeUde({}, 32) == 32;
    var t1 := AddUde(t0, 0, 32, 0);
    assert Define(t0, 0) == (t1, 32);
    DefineKeepsGood(t0, 0);
    assert t1.udeMap == {32};
    assert FreeUde({32}, 32) == 33;
    assert FreeEntry(t1.udeId[0], 0) == 1;
    assert Define(t1, 0) == (AddUde(t1, 0, 33, 1), 33);
    DefineKeepsGood(t1, 0);
  }
}
