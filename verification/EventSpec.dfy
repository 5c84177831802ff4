/** The forest of user-defined events, and what dispatching a built-in event through it means. */
module EventSpec {
  const MAX_EV := 64
  const UDE_OFFSET := 32
  const NUM_UDE := 32
  const NUM_BEV := 12

  type EventId = e: int | 0 <= e < 64

  // The global tables. Event masks are sets of bit positions. A row of udeId lists the children of an event, -1 after
  // the last.
  datatype Tables = Tables(
    ancestors: seq<set<int>>,     // of UDE i at index i - UDE_OFFSET
    parent: seq<int>,
    descendants: seq<set<int>>,   // of every event
    udeMap: set<int>,             // the UDEs that are defined
    udeId: seq<seq<int>>)

  predicate Shape(t: Tables) {
    && |t.ancestors| == |t.parent| == NUM_UDE && |t.descendants| == |t.udeId| == MAX_EV
    && (forall e: EventId :: |t.udeId[e]| == NUM_UDE)
    && (forall u :: u in t.udeMap ==> UDE_OFFSET <= u < MAX_EV)
  }

  // GlobInitEvent
  function NoEvents(): Tables {
    Tables(seq(NUM_UDE, _ => {}), seq(NUM_UDE, _ => -1), seq(MAX_EV, _ => {}), {},
           seq(MAX_EV, _ => seq(NUM_UDE, _ => -1)))
  }

  function Parent(t: Tables, u: int): int
    requires Shape(t) && u in t.udeMap
  {
    t.parent[u - UDE_OFFSET]
  }

  predicate HasChild(t: Tables, e: EventId, k: int)
    requires Shape(t)
  {
    0 <= k < NUM_UDE && 0 <= t.udeId[e][k]
  }

  function Child(t: Tables, e: EventId, k: int): int
    requires Shape(t) && HasChild(t, e, k)
  {
    t.udeId[e][k]
  }

  // Every UDE hangs below an event defined before it; ids are given out in order.
  ghost predicate Forest(t: Tables) {
    && Shape(t)
    && (forall u :: u in t.udeMap ==> 0 <= Parent(t, u) < u && (Parent(t, u) < UDE_OFFSET || Parent(t, u) in t.udeMap))
    && (forall u, v :: u in t.udeMap && UDE_OFFSET <= v < u ==> v in t.udeMap)
  }

  // Event a is x or above it.
  predicate IsAbove(t: Tables, a: int, x: int)
    requires Forest(t)
    decreases x
  {
    x == a || (x in t.udeMap && IsAbove(t, a, Parent(t, x)))
  }

  // Each row lists exactly the children of its event, in ascending order.
  ghost predicate Rows(t: Tables)
    requires Shape(t)
  {
    && (forall e: EventId, k :: 0 <= k < NUM_UDE ==> HasChild(t, e, k) || t.udeId[e][k] == -1)
    && (forall e: EventId, k :: HasChild(t, e, k) ==> Child(t, e, k) in t.udeMap && Parent(t, Child(t, e, k)) == e)
    && (forall e: EventId, j, k :: HasChild(t, e, k) && 0 <= j < k ==>
          HasChild(t, e, j) && Child(t, e, j) < Child(t, e, k))
    && (forall u :: u in t.udeMap && 0 <= Parent(t, u) ==> InRow(t, u))
  }

  ghost predicate InRow(t: Tables, u: int)
    requires Shape(t) && u in t.udeMap && 0 <= Parent(t, u)
  {
    Parent(t, u) < MAX_EV && exists k :: HasChild(t, Parent(t, u), k) && Child(t, Parent(t, u), k) == u
  }

  function AncestorsOf(t: Tables, u: EventId): set<int>
    requires Shape(t) && UDE_OFFSET <= u
  {
    t.ancestors[u - UDE_OFFSET]
  }

  ghost predicate AncestorsOk(t: Tables, u: EventId)
    requires Forest(t) && UDE_OFFSET <= u
  {
    forall a :: a in AncestorsOf(t, u) <==> u in t.udeMap && a != u && IsAbove(t, a, u)
  }

  ghost predicate DescendantsOk(t: Tables, e: EventId)
    requires Forest(t)
  {
    forall x :: x in t.descendants[e] <==> x in t.udeMap && x != e && IsAbove(t, e, x)
  }

  // Ancestors and descendants are the transitive closure of parent.
  ghost predicate Closed(t: Tables)
    requires Forest(t)
  {
    (forall u: EventId :: UDE_OFFSET <= u ==> AncestorsOk(t, u)) && (forall e: EventId :: DescendantsOk(t, e))
  }

  ghost predicate Good(t: Tables) {
    Forest(t) && Rows(t) && Closed(t)
  }

  lemma NoEventsGood()
    ensures Good(NoEvents())
  {
  }

  // ---------------------------------------------------------------- the tree order

  lemma {:induction false} AboveIsSmaller(t: Tables, a: int, x: int)
    requires Forest(t) && IsAbove(t, a, x)
    ensures a <= x && (a != x ==> a < x && x in t.udeMap)
    decreases x
  {
    if a != x {
      AboveIsSmaller(t, a, Parent(t, x));
    }
  }

  lemma {:induction false} AboveTransitive(t: Tables, a: int, b: int, x: int)
    requires Forest(t) && IsAbove(t, a, b) && IsAbove(t, b, x)
    ensures IsAbove(t, a, x)
    decreases x
  {
    if b != x {
      AboveTransitive(t, a, b, Parent(t, x));
    }
  }

  // Two events above the same one: the smaller is above the other.
  lemma {:induction false} AboveLinear(t: Tables, a: int, b: int, x: int)
    requires Forest(t) && IsAbove(t, a, x) && IsAbove(t, b, x) && a <= b
    ensures IsAbove(t, a, b)
    decreases x
  {
    if b != x {
      AboveIsSmaller(t, b, x);
      AboveLinear(t, a, b, Parent(t, x));
    }
  }

  // The subtrees of two children of one event have nothing in common.
  lemma SiblingsApart(t: Tables, a: int, b: int, x: int)
    requires Forest(t) && a in t.udeMap && b in t.udeMap && a < b && Parent(t, a) == Parent(t, b)
    requires IsAbove(t, a, x)
    ensures !IsAbove(t, b, x)
  {
    if IsAbove(t, b, x) {
      AboveLinear(t, a, b, x);
      AboveIsSmaller(t, a, Parent(t, b));
    }
  }

  // ---------------------------------------------------------------- mtcp_define_event

  // First UDE id from i on that is free; MAX_EV if there is none.
  function FreeUde(udeMap: set<int>, i: int): (u: int)
    requires UDE_OFFSET <= i <= MAX_EV
    ensures i <= u <= MAX_EV && (u < MAX_EV ==> u !in udeMap)
    ensures forall v :: i <= v < u ==> v in udeMap
    decreases MAX_EV - i
  {
    if i < MAX_EV && i in udeMap then FreeUde(udeMap, i + 1) else i
  }

  // First unused entry of a row from j on.
  function FreeEntry(row: seq<int>, j: int): (k: int)
    requires 0 <= j <= |row|
    ensures j <= k <= |row| && (k < |row| ==> row[k] == -1)
    ensures forall i :: j <= i < k ==> row[i] != -1
    decreases |row| - j
  {
    if j < |row| && row[j] != -1 then FreeEntry(row, j + 1) else j
  }

  // The UDE `u` below event `evid`, in the tables.
  function AddUde(t: Tables, evid: EventId, u: EventId, entry: int): Tables
    requires Shape(t) && UDE_OFFSET <= u && 0 <= entry < NUM_UDE
  {
    var above := {evid} + (if evid >= UDE_OFFSET then t.ancestors[evid - UDE_OFFSET] else {});
    var mine := if evid in t.udeMap then {evid} + t.ancestors[evid - UDE_OFFSET] else {evid};
    Tables(t.ancestors[u - UDE_OFFSET := mine],
           t.parent[u - UDE_OFFSET := evid],
           seq(MAX_EV, e requires 0 <= e < MAX_EV => if e in above then t.descendants[e] + {u} else t.descendants[e]),
           t.udeMap + {u},
           t.udeId[evid := t.udeId[evid][entry := u]])
  }

  // The new tables and the new event; -1 where the source returns 0.
  function Define(t: Tables, evid: EventId): (r: (Tables, int))
    requires Shape(t)
    ensures Shape(r.0)
  {
    var u := FreeUde(t.udeMap, UDE_OFFSET);
    var entry := FreeEntry(t.udeId[evid], 0);
    if u == MAX_EV || entry == NUM_UDE then (t, -1) else (AddUde(t, evid, u, entry), u)
  }

  // A definition is refused exactly when all ids are taken or the parent's row is full, and takes the first free id.
  lemma DefineExact(t: Tables, evid: EventId)
    requires Shape(t)
    ensures var u := Define(t, evid).1;
            && (u == -1 <==> (forall v :: UDE_OFFSET <= v < MAX_EV ==> v in t.udeMap) || -1 !in t.udeId[evid])
            && (u != -1 ==> UDE_OFFSET <= u < MAX_EV && u !in t.udeMap
                            && (forall v :: UDE_OFFSET <= v < u ==> v in t.udeMap)
                            && Define(t, evid).0.udeMap == t.udeMap + {u} && Parent(Define(t, evid).0, u) == evid)
  {
    var entry := FreeEntry(t.udeId[evid], 0);
    if entry < NUM_UDE {
      assert t.udeId[evid][entry] == -1;
    }
  }

  // A caller may only name an event that exists or could be built in.
  predicate MayDefineBelow(t: Tables, evid: EventId) { evid < UDE_OFFSET || evid in t.udeMap }

  lemma AddParents(t: Tables, evid: EventId, u: EventId, entry: int)
    requires Shape(t) && UDE_OFFSET <= u && u !in t.udeMap && 0 <= entry < NUM_UDE
    ensures var t' := AddUde(t, evid, u, entry);
            && Shape(t') && t'.udeMap == t.udeMap + {u} && Parent(t', u) == evid
            && forall v :: v in t.udeMap ==> Parent(t', v) == Parent(t, v)
  {
  }

  lemma AddForest(t: Tables, evid: EventId, u: EventId, entry: int)
    requires Forest(t) && MayDefineBelow(t, evid) && 0 <= entry < NUM_UDE && u == FreeUde(t.udeMap, UDE_OFFSET)
    ensures evid < u && Forest(AddUde(t, evid, u, entry))
  {
    hide AddUde, Shape, Parent;
    AddParents(t, evid, u, entry);
  }

  // The order above an old event does not change; above the new one are its parent and what is above that.
  lemma {:induction false} AddAbove(t: Tables, t': Tables, evid: EventId, u: EventId, a: int, x: int)
    requires Forest(t) && Forest(t') && UDE_OFFSET <= u && u !in t.udeMap && t'.udeMap == t.udeMap + {u}
    requires Parent(t', u) == evid && forall v :: v in t.udeMap ==> Parent(t', v) == Parent(t, v)
    ensures IsAbove(t', a, x) <==> if x == u then a == u || IsAbove(t', a, evid) else IsAbove(t, a, x)
    decreases x
  {
    if x in t.udeMap && x != u {
      assert Parent(t, x) in t.udeMap || Parent(t, x) < UDE_OFFSET;
      AddAbove(t, t', evid, u, a, Parent(t, x));
    }
  }

  // The order of t', by the order of t.
  ghost predicate AddedAt(t: Tables, t': Tables, evid: EventId, u: EventId)
    requires Forest(t) && Forest(t')
  {
    forall a, x :: IsAbove(t', a, x) <==> if x == u then a == u || IsAbove(t, a, evid) else IsAbove(t, a, x)
  }

  lemma AddAncestors(t: Tables, t': Tables, evid: EventId, u: EventId, entry: int, v: EventId)
    requires Forest(t) && Forest(t') && AddedAt(t, t', evid, u) && UDE_OFFSET <= v && AncestorsOk(t, v)
    requires UDE_OFFSET <= u && u !in t.udeMap && evid < u && MayDefineBelow(t, evid) && 0 <= entry < NUM_UDE
    requires evid >= UDE_OFFSET ==> AncestorsOk(t, evid)
    requires t' == AddUde(t, evid, u, entry)
    ensures AncestorsOk(t', v)
  {
    hide Forest, IsAbove;
    ForestShape(t);
    ForestShape(t');
    forall a ensures a in AncestorsOf(t', v) <==> v in t'.udeMap && a != v && IsAbove(t', a, v) {
      if v == u {
        IsAboveSelf(t, evid);
        if IsAbove(t, a, evid) {
          AboveIsSmaller(t, a, evid);
          if evid !in t.udeMap {
            AboveBuiltIn(t, a, evid);
          }
        }
        assert a in AncestorsOf(t', v) <==> IsAbove(t, a, evid);
      } else {
        assert AncestorsOf(t', v) == AncestorsOf(t, v);
        assert IsAbove(t', a, v) <==> IsAbove(t, a, v);
      }
    }
  }

  lemma ForestShape(t: Tables)
    requires Forest(t)
    ensures Shape(t) && forall v :: v in t.udeMap ==> 0 <= Parent(t, v) < MAX_EV
  {
  }

  lemma AddDescendants(t: Tables, t': Tables, evid: EventId, u: EventId, entry: int, e: EventId)
    requires Forest(t) && Forest(t') && AddedAt(t, t', evid, u) && DescendantsOk(t, e)
    requires UDE_OFFSET <= u && u !in t.udeMap && evid < u && MayDefineBelow(t, evid) && 0 <= entry < NUM_UDE
    requires evid >= UDE_OFFSET ==> AncestorsOk(t, evid)
    requires t' == AddUde(t, evid, u, entry)
    ensures DescendantsOk(t', e)
  {
    hide Forest, IsAbove;
    ForestShape(t);
    ForestShape(t');
    forall x ensures x in t'.descendants[e] <==> x in t'.udeMap && x != e && IsAbove(t', e, x) {
      if x == u {
        IsAboveSelf(t, evid);
        if IsAbove(t, e, evid) {
          AboveIsSmaller(t, e, evid);
          if evid !in t.udeMap {
            AboveBuiltIn(t, e, evid);
          }
        }
      }
    }
  }

  lemma IsAboveSelf(t: Tables, x: int)
    requires Forest(t)
    ensures IsAbove(t, x, x)
  {
  }

  lemma AboveBuiltIn(t: Tables, a: int, e: int)
    requires Forest(t) && IsAbove(t, a, e) && e !in t.udeMap
    ensures a == e
  {
  }

  lemma AddClosed(t: Tables, evid: EventId, u: EventId, entry: int)
    requires Good(t) && MayDefineBelow(t, evid) && 0 <= entry < NUM_UDE && u == FreeUde(t.udeMap, UDE_OFFSET)
    ensures evid < u && Forest(AddUde(t, evid, u, entry)) && Closed(AddUde(t, evid, u, entry))
  {
    AddForest(t, evid, u, entry);
    AddParents(t, evid, u, entry);
    var t' := AddUde(t, evid, u, entry);
    hide Rows, AddUde, Forest, IsAbove, AncestorsOk, DescendantsOk;
    forall a, x ensures IsAbove(t', a, x) <==> if x == u then a == u || IsAbove(t, a, evid) else IsAbove(t, a, x) {
      AddAbove(t, t', evid, u, a, x);
      AddAbove(t, t', evid, u, a, evid);
    }
    forall v: EventId | UDE_OFFSET <= v ensures AncestorsOk(t', v) {
      AddAncestors(t, t', evid, u, entry, v);
    }
    forall e: EventId ensures DescendantsOk(t', e) {
      AddDescendants(t, t', evid, u, entry, e);
    }
  }

  // Rows grow at their first unused entry.
  lemma AddEntry(t: Tables, evid: EventId, u: EventId, entry: int)
    requires Shape(t) && UDE_OFFSET <= u && u !in t.udeMap && 0 <= entry < NUM_UDE && !HasChild(t, evid, entry)
    requires Shape(AddUde(t, evid, u, entry))
    ensures var t' := AddUde(t, evid, u, entry);
            && (forall e: EventId, k :: HasChild(t', e, k) <==> HasChild(t, e, k) || (e == evid && k == entry))
            && (forall e: EventId, k :: HasChild(t, e, k) ==> Child(t', e, k) == Child(t, e, k))
            && Child(t', evid, entry) == u
            && (forall e: EventId, k :: 0 <= k < NUM_UDE && !HasChild(t', e, k) ==> t'.udeId[e][k] == t.udeId[e][k])
  {
  }

  lemma DefinedBelow(t: Tables, u: int)
    requires Forest(t) && u == FreeUde(t.udeMap, UDE_OFFSET)
    ensures forall v :: v in t.udeMap ==> v < u
  {
  }

  lemma EntryIsNext(t: Tables, evid: EventId, entry: int)
    requires Shape(t) && Rows(t) && entry == FreeEntry(t.udeId[evid], 0) < NUM_UDE
    ensures forall k :: HasChild(t, evid, k) <==> 0 <= k < entry
  {
    assert !HasChild(t, evid, entry);
  }

  lemma StaysInRow(t: Tables, t': Tables, v: int)
    requires Shape(t) && Shape(t') && v in t.udeMap && v in t'.udeMap
    requires Parent(t', v) == Parent(t, v) && 0 <= Parent(t, v)
    requires InRow(t, v)
    requires forall k :: HasChild(t, Parent(t, v), k) ==>
               HasChild(t', Parent(t, v), k) && Child(t', Parent(t, v), k) == Child(t, Parent(t, v), k)
    ensures InRow(t', v)
  {
    hide Shape, Parent, HasChild, Child;
    var k :| HasChild(t, Parent(t, v), k) && Child(t, Parent(t, v), k) == v;
    assert HasChild(t', Parent(t', v), k);
  }

  lemma AddRows(t: Tables, evid: EventId, u: EventId, entry: int)
    requires Good(t) && u == FreeUde(t.udeMap, UDE_OFFSET)
    requires entry == FreeEntry(t.udeId[evid], 0) < NUM_UDE
    ensures Shape(AddUde(t, evid, u, entry)) && Rows(AddUde(t, evid, u, entry))
  {
    hide Forest, Closed, AddUde, Shape, Parent, HasChild, Child, InRow;
    ForestShape(t);
    DefinedBelow(t, u);
    EntryIsNext(t, evid, entry);
    AddParents(t, evid, u, entry);
    AddEntry(t, evid, u, entry);
    var t' := AddUde(t, evid, u, entry);
    NewInRow(t', evid, u, entry);
    forall v | v in t.udeMap && 0 <= Parent(t', v) ensures InRow(t', v) {
      StaysInRow(t, t', v);
    }
  }

  lemma NewInRow(t: Tables, evid: EventId, u: EventId, entry: int)
    requires Shape(t) && u in t.udeMap && Parent(t, u) == evid && HasChild(t, evid, entry) && Child(t, evid, entry) == u
    ensures InRow(t, u)
  {
  }

  // Defining an event keeps the tables a forest with its closure exactly if the event named as parent exists already.
  lemma DefineKeepsGood(t: Tables, evid: EventId)
    requires Good(t)
    ensures var (t', u) := Define(t, evid);
            if u == -1 then t' == t else u !in t.udeMap && (Good(t') <==> MayDefineBelow(t, evid))
  {
    hide Rows, Closed, AddUde;
    var u := FreeUde(t.udeMap, UDE_OFFSET);
    var entry := FreeEntry(t.udeId[evid], 0);
    if u < MAX_EV && entry < NUM_UDE {
      AddParents(t, evid, u, entry);
      if MayDefineBelow(t, evid) {
        AddClosed(t, evid, u, entry);
        AddRows(t, evid, u, entry);
      } else {
        assert u <= evid;
      }
    }
  }
}
