/** The event tables, the registration bitmaps and the dispatch loop as they run. */
module EventDispatch {
  import opened EventSpec
  import opened DispatchLaws
  import opened DispatchSpec
  import opened Registration

  // g_udes, g_descendants, g_ude_map and g_ude_id
  class Events {
    const ancestors: array<set<int>>
    const parent: array<int>
    const descendants: array<set<int>>
    var udeMap: set<int>
    const udeId: array<seq<int>>    // one row for each event

    ghost predicate Valid()
      reads this, udeId
    {
      && ancestors.Length == parent.Length == NUM_UDE && descendants.Length == MAX_EV
      && udeId.Length == MAX_EV && (forall e :: 0 <= e < MAX_EV ==> |udeId[e]| == NUM_UDE)
      && ancestors != descendants
      && forall u :: u in udeMap ==> UDE_OFFSET <= u < MAX_EV
    }

    ghost function Tab(): (t: Tables)
      requires Valid()
      reads this, ancestors, parent, descendants, udeId
      ensures Shape(t)
    {
      Tables(ancestors[..], parent[..], descendants[..], udeMap, udeId[..])
    }

    // GlobInitEvent
    constructor ()
      ensures Valid() && Tab() == NoEvents()
      ensures fresh(ancestors) && fresh(parent) && fresh(descendants) && fresh(udeId)
    {
      ancestors := new set<int>[NUM_UDE](_ => {});
      parent := new int[NUM_UDE](_ => -1);
      descendants := new set<int>[MAX_EV](_ => {});
      udeMap := {};
      udeId := new seq<int>[MAX_EV](_ => seq(NUM_UDE, _ => -1));
    }

    // mtcp_define_event; -1 where the source returns 0.
    method DefineEvent(event: set<int>, filter: bool) returns (ude: int)
      requires Valid()
      modifies this, ancestors, parent, descendants, udeId
      ensures Valid()
      ensures if filter && exists e: EventId :: event == {e}
              then forall e: EventId :: event == {e} ==> (Tab(), ude) == Define(old(Tab()), e)
              else Tab() == old(Tab()) && ude == -1
    {
      if |event| > 1 || !filter {
        return -1;
      }
      var evid := 0;
      while evid < MAX_EV && event != {evid}
        invariant 0 <= evid <= MAX_EV && forall i :: 0 <= i < evid ==> event != {i}
        decreases MAX_EV - evid
      {
        evid := evid + 1;
      }
      if evid == MAX_EV {
        return -1;
      }
      ude := DefineBelow(evid);
      assert event == {evid} && evid in event;
    }

    // Its search for a free id.
    method DefineBelow(evid: EventId) returns (ude: int)
      requires Valid()
      modifies this, ancestors, parent, descendants, udeId
      ensures Valid() && (Tab(), ude) == Define(old(Tab()), evid)
    {
      hide AddUde;
      var i := 0;
      while i < NUM_UDE && i + UDE_OFFSET in udeMap
        invariant 0 <= i <= NUM_UDE && FreeUde(udeMap, UDE_OFFSET) == FreeUde(udeMap, UDE_OFFSET + i)
      {
        i := i + 1;
      }
      if i == NUM_UDE {
        return -1;
      }
      var row := udeId[evid];
      var j := 0;
      while j < NUM_UDE && row[j] != -1
        invariant 0 <= j <= NUM_UDE && FreeEntry(row, 0) == FreeEntry(row, j)
      {
        j := j + 1;
      }
      if j == NUM_UDE {
        return -1;
      }
      Link(evid, i + UDE_OFFSET, j);
      ude := i + UDE_OFFSET;
    }

    // Its updates.
    method Link(evid: EventId, ude: EventId, entry: int)
      requires Valid() && UDE_OFFSET <= ude && 0 <= entry < NUM_UDE
      modifies this, ancestors, parent, descendants, udeId
      ensures Valid() && Tab() == AddUde(old(Tab()), evid, ude, entry)
    {
      ghost var t := Tab();
      udeId[evid] := udeId[evid][entry := ude];
      var above := {evid} + (if evid >= UDE_OFFSET then ancestors[evid - UDE_OFFSET] else {});
      Inherit(above, ude);
      ancestors[ude - UDE_OFFSET] := if evid in udeMap then {evid} + ancestors[evid - UDE_OFFSET] else {evid};
      parent[ude - UDE_OFFSET] := evid;
      udeMap := udeMap + {ude};
      assert Tab() == AddUde(t, evid, ude, entry);
    }

    // EVENT_FOREACH over the ancestors: their descendants grow by the new event.
    method Inherit(above: set<int>, ude: int)
      requires Valid()
      modifies descendants
      ensures forall e :: 0 <= e < MAX_EV ==>
        descendants[e] == (if e in above then old(descendants[e]) + {ude} else old(descendants[e]))
    {
      var j := 0;
      while j < MAX_EV
        invariant 0 <= j <= MAX_EV
        invariant forall e :: 0 <= e < MAX_EV ==>
          descendants[e] == (if e < j && e in above then old(descendants[e]) + {ude} else old(descendants[e]))
      {
        if j in above {
          descendants[j] := descendants[j] + {ude};
        }
        j := j + 1;
      }
    }
  }

  // struct ev_pointer: the callbacks registered at a socket's hook, and the events whose filters matter.
  class EventPointer {
    var cbMap: set<int>
    var ftMap: set<int>

    constructor ()
      ensures cbMap == {} && ftMap == {}
    {
      cbMap, ftMap := {}, {};
    }

    // The registrations every search can rely on.
    ghost predicate Covered(evs: Events)
      requires evs.Valid() && Good(evs.Tab())
      reads this, evs, evs.ancestors, evs.parent, evs.descendants, evs.udeId
    {
      FtCovers(evs.Tab(), cbMap, ftMap)
    }

    // mtcp_register_callback where no table is copied: -1 for an unknown event, or one that has a callback already.
    method RegCb(evs: Events, events: set<int>) returns (ret: int)
      requires evs.Valid()
      modifies this
      ensures ret == if MayRegister(evs.Tab(), old(cbMap), events) then 0 else -1
      ensures (cbMap, ftMap) == Register(evs.Tab(), old(cbMap), old(ftMap), events)
      ensures cbMap == if ret == 0 then old(cbMap) + events else old(cbMap)
      ensures Good(evs.Tab()) && old(Good(evs.Tab()) && Covered(evs)) ==> Covered(evs)
    {
      if Good(evs.Tab()) && Covered(evs) && MayRegister(evs.Tab(), cbMap, events) {
        RegisterCovers(evs.Tab(), cbMap, ftMap, events);
      }
      KnownIs(evs.Tab(), events);
      hide Forest, Rows, Closed, Shape, FtAfter, FtCovers, Known, BuiltIn;
      if !(events <= BuiltIn() + evs.udeMap) {
        return -1;
      }
      if events * cbMap != {} {
        return -1;
      }
      cbMap := cbMap + events;
      RegCbWoCpy(evs, events);
      ret := 0;
    }

    // Its effect on ft_map: the ancestors of every UDE.
    method RegCbWoCpy(evs: Events, events: set<int>)
      requires evs.Valid()
      modifies this`ftMap
      ensures ftMap == FtAfter(evs.Tab(), events, old(ftMap), UDE_OFFSET)
    {
      var i := UDE_OFFSET;
      while i < MAX_EV
        invariant UDE_OFFSET <= i <= MAX_EV
        invariant FtAfter(evs.Tab(), events, ftMap, i) == FtAfter(evs.Tab(), events, old(ftMap), UDE_OFFSET)
      {
        if i in events {
          ftMap := ftMap + evs.ancestors[i - UDE_OFFSET];
        }
        i := i + 1;
      }
    }

    // mtcp_unregister_callback: -1 for an unknown event, or one that has no callback.
    method UnregCb(evs: Events, events: set<int>) returns (ret: int)
      requires evs.Valid() && Good(evs.Tab())
      modifies this
      ensures ret == if MayUnregister(evs.Tab(), old(cbMap), events) then 0 else -1
      ensures (cbMap, ftMap) == Unregister(evs.Tab(), old(cbMap), old(ftMap), events)
      ensures cbMap == if ret == 0 then old(cbMap) - events else old(cbMap)
      ensures old(Covered(evs)) ==>
                (Covered(evs) <==> ret == -1 || NoneInUse(evs.Tab(), cbMap, events, UDE_OFFSET))
    {
      ghost var t := evs.Tab();
      if Covered(evs) {
        UnregisterExact(t, cbMap, ftMap, events);
      }
      KnownIs(t, events);
      hide Rows, Closed, NoneInUse, FtCovers, UnregAll, Known, BuiltIn;
      if !(events <= BuiltIn() + evs.udeMap) {
        return -1;
      }
      if !(events <= cbMap) {
        return -1;
      }
      cbMap := cbMap - events;
      UnregUdes(evs, events);
      ret := 0;
    }

    // Its loop over the user-defined events.
    method UnregUdes(evs: Events, events: set<int>)
      requires evs.Valid() && Good(evs.Tab())
      modifies this`ftMap
      ensures ftMap == UnregAll(evs.Tab(), cbMap, old(ftMap), events, UDE_OFFSET)
    {
      hide Rows, Closed, UnregWalk, Useless;
      ghost var t := evs.Tab();
      var left := events * evs.udeMap;
      var i := UDE_OFFSET;
      while i < MAX_EV
        invariant UDE_OFFSET <= i <= MAX_EV
        invariant forall u :: i <= u ==> (u in left <==> u in events * t.udeMap)
        invariant UnregAll(t, cbMap, ftMap, events, i) == UnregAll(t, cbMap, old(ftMap), events, UDE_OFFSET)
      {
        if i in left {
          left := WalkUp(evs, i, left);
          left := left - {i};
          assert forall u :: i < u && u in events * t.udeMap ==> u in left;
          if left == {} {
            NoMoreUnreg(t, cbMap, ftMap, events, i + 1);
            return;
          }
        }
        i := i + 1;
      }
    }

    // Its walk up from one of them; events it passes need not be looked at again.
    method WalkUp(evs: Events, ude: EventId, evset: set<int>) returns (left: set<int>)
      requires evs.Valid() && Good(evs.Tab()) && ude in evs.udeMap
      modifies this`ftMap
      ensures ftMap == UnregWalk(evs.Tab(), cbMap, old(ftMap), ude)
      ensures forall u :: ude < u ==> (u in left <==> u in evset)
    {
      hide Rows, Closed;
      ghost var t := evs.Tab();
      left := evset;
      var walk := ude;
      while true
        invariant 0 <= walk <= ude && walk in t.udeMap
        invariant UnregWalk(t, cbMap, ftMap, walk) == UnregWalk(t, cbMap, old(ftMap), ude)
        invariant forall u :: ude < u ==> (u in left <==> u in evset)
        decreases walk
      {
        if walk !in cbMap && evs.descendants[walk] * cbMap == {} {
          assert Parent(t, walk) == evs.parent[walk - UDE_OFFSET];
          ftMap := ftMap - {evs.parent[walk - UDE_OFFSET]};
          left := left - {walk};
          walk := evs.parent[walk - UDE_OFFSET];
          if walk < UDE_OFFSET {
            break;
          }
        } else {
          break;
        }
      }
    }

    // HandleCallback: the callbacks it calls, in order.
    method HandleCallback(evs: Events, events: set<int>, filter: Filter) returns (called: seq<Call>)
      requires evs.Valid() && Good(evs.Tab()) && forall b :: b in events ==> 0 <= b < NUM_BEV
      ensures called == Handle(evs.Tab(), cbMap, ftMap, filter, events)
      ensures Covered(evs) && LastIsRegistered(evs.Tab(), cbMap, events) ==>
                CallsWhatItShould(evs.Tab(), cbMap, filter, events, called)
    {
      called := HandleEach(evs, events, filter);
      if Covered(evs) && LastIsRegistered(evs.Tab(), cbMap, events) {
        HandleCalls(evs.Tab(), cbMap, ftMap, filter, events);
      }
      hide Forest, Rows, Closed, Shape, CallsWhatItShould, Handle, FtCovers, LastIsRegistered;
    }

    // Its loop over the built-in events.
    method HandleEach(evs: Events, events: set<int>, filter: Filter) returns (called: seq<Call>)
      requires evs.Valid() && Good(evs.Tab()) && forall b :: b in events ==> 0 <= b < NUM_BEV
      ensures called == Handle(evs.Tab(), cbMap, ftMap, filter, events)
    {
      hide Forest, Rows, Closed, Shape, Visit, Sound, HandleFrom, Left, Seen, Evs;
      called := [];
      ghost var t := evs.Tab();
      var cb := events * cbMap;
      if cb == {} && evs.udeMap * cbMap == {} {
        NothingToHandle(t, cbMap, ftMap, filter, events, 0, cb);
        return;
      }
      var fm := events * ftMap;
      var bevMap := cb + fm;
      var bidx := 0;
      HandleStarts(events, cbMap, cbMap + ftMap);
      assert cb + fm == events * (cbMap + ftMap);
      while bidx < NUM_BEV
        invariant 0 <= bidx <= NUM_BEV && bevMap == Left(events * (cbMap + ftMap), bidx)
        invariant cb <= cbMap && fm <= ftMap && ToCome(events * cbMap, cb, bidx)
        invariant called + HandleFrom(t, cbMap, ftMap, filter, events, bidx, cb)
          == Handle(t, cbMap, ftMap, filter, events)
      {
        HandleTurn(t, cbMap, ftMap, filter, events, bidx, cb);
        LeftTurn(events * (cbMap + ftMap), bidx);
        TurnKeeps(t, cbMap, Seen(filter, cbMap + ftMap), events, bidx, cb);
        if bidx in bevMap {
          cb := cb + evs.descendants[bidx] * cbMap;
          fm := fm + evs.descendants[bidx] * ftMap;
          StartSound(t, cbMap, ftMap, bidx, cb, fm);
          var out, over;
          out, cb, over := Search(evs, bidx, filter, cb, fm);
          called := called + out;
          if over {
            return;
          }
          bevMap := bevMap - {bidx};
          if bevMap == {} {
            NoneLeft(t, cbMap, ftMap, filter, events, bidx + 1, cb);
            return;
          }
        }
        bidx := bidx + 1;
      }
      HandleEnds(t, cbMap, ftMap, filter, events, bidx, cb);
    }

    // The depth-first search below one built-in event, with an explicit stack. over: no callback is left to come.
    method Search(evs: Events, bev: EventId, filter: Filter, cbInit: set<int>, fm: set<int>)
      returns (called: seq<Call>, cb: set<int>, over: bool)
      requires evs.Valid() && Good(evs.Tab()) && (bev in cbInit <==> bev in cbMap)
      requires Sound(evs.Tab(), cbMap, ftMap, bev, [], bev, 0, cbInit, fm)
      ensures called == Visit(evs.Tab(), cbMap, Seen(filter, cbMap + ftMap), bev, 0)
      ensures cb == cbInit - Evs(called) && (over <==> called != [] && cb == {})
    {
      hide Forest, Rows, Closed, Shape, Sound, Visit, VisitFrom, InTodo, Rest, WorkLeft, Seen;
      ghost var t, ft := evs.Tab(), Seen(filter, cbMap + ftMap);
      ghost var all := Visit(t, cbMap, ft, bev, 0);
      VisitIs(t, cbMap, ft, bev, 0);
      RestAtStart(t, cbMap, ft, bev, 0, 0);
      var stack := new Frame[NUM_UDE + 1](_ => Frame(0, 0, 0));
      var sp, ev, fidx, data := 0, bev, 0, 0;
      called, cb, over := [], cbInit, false;
      while true
        invariant 0 <= sp <= NUM_UDE && Sound(t, cbMap, ftMap, bev, stack[..sp], ev, fidx, cb, fm)
        invariant called + (if ev in cb then [Call(ev, data)] else [])
          + Rest(t, cbMap, ft, stack[..sp], ev, fidx, data) == all
        invariant cb == cbInit - Evs(called) && (called != [] ==> cb != {})
        decreases WorkLeft(t, stack[..sp], ev, fidx)
      {
        if ev in cb {
          EvsSnoc(called, Call(ev, data));
          called := called + [Call(ev, data)];
          CalledSound(t, cbMap, ftMap, bev, stack[..sp], ev, fidx, cb, fm);
          cb := cb - {ev};
          if cb == {} {
            NoneToCome(t, cbMap, ftMap, ft, bev, stack[..sp], ev, fidx, data, fm);
            over := true;
            return;
          }
        }
        var done;
        done, sp, ev, fidx, data := NextEvent(evs, bev, filter, cb, fm, stack, sp, ev, fidx, data);
        if done {
          return;
        }
      }
    }

    // The inner loop: to the next event whose callback is due, or over when nothing is left.
    method NextEvent(evs: Events, ghost bev: EventId, filter: Filter, cb: set<int>, fm: set<int>, stack: array<Frame>,
                     sp0: nat, ev0: EventId, ft0: nat, data0: int)
      returns (over: bool, sp: nat, ev: EventId, ft: nat, data: int)
      requires evs.Valid() && Good(evs.Tab()) && stack.Length == NUM_UDE + 1
      requires sp0 <= NUM_UDE && ev0 !in cb && Sound(evs.Tab(), cbMap, ftMap, bev, stack[..sp0], ev0, ft0, cb, fm)
      modifies stack
      ensures over ==> Rest(evs.Tab(), cbMap, Seen(filter, cbMap + ftMap), old(stack[..sp0]), ev0, ft0, data0) == []
      ensures !over ==>
        && sp <= NUM_UDE && Sound(evs.Tab(), cbMap, ftMap, bev, stack[..sp], ev, ft, cb, fm)
        && Rest(evs.Tab(), cbMap, Seen(filter, cbMap + ftMap), old(stack[..sp0]), ev0, ft0, data0) ==
             (if ev in cb then [Call(ev, data)] else [])
             + Rest(evs.Tab(), cbMap, Seen(filter, cbMap + ftMap), stack[..sp], ev, ft, data)
        && WorkLeft(evs.Tab(), stack[..sp], ev, ft) < WorkLeft(evs.Tab(), old(stack[..sp0]), ev0, ft0)
    {
      hide Forest, Rows, Closed, Sound, Visit, VisitFrom, InTodo, Rest, WorkLeft;
      ghost var t, fts := evs.Tab(), Seen(filter, cbMap + ftMap);
      ghost var frames := stack[..sp0];
      over, sp, ev, ft, data := false, sp0, ev0, ft0, data0;
      while true
        invariant stack[..sp0] == frames && sp == sp0 && ev == ev0 && data == data0 && !over
        invariant Sound(t, cbMap, ftMap, bev, frames, ev, ft, cb, fm)
        invariant Rest(t, cbMap, fts, frames, ev, ft, data) == Rest(t, cbMap, fts, frames, ev0, ft0, data0)
        invariant WorkLeft(t, frames, ev, ft) <= WorkLeft(t, frames, ev0, ft0)
        decreases WorkLeft(t, frames, ev, ft)
      {
        if ft >= NUM_UDE || evs.udeId[ev][ft] < 0 {
          PopSound(t, cbMap, ftMap, fts, bev, frames, ev, ft, data, cb, fm);
          if sp == 0 {
            over := true;
          } else {
            sp := sp - 1;
            ev, ft, data := stack[sp].ev, stack[sp].ft + 1, stack[sp].data;
            assert frames[..|frames| - 1] == stack[..sp];
          }
          return;
        }
        var ude := evs.udeId[ev][ft];
        assert HasChild(t, ev, ft) && Child(t, ev, ft) == ude;
        ChildFacts(t, ev, ft);
        InSight(t, cbMap, ftMap, bev, frames, ev, ft, cb, fm);
        if ude in cb || ude in fm {
          var tmp := filter(ude, ev, data);
          if tmp != 0 {
            PushSound(t, cbMap, ftMap, fts, bev, frames, ev, ft, data, cb, fm);
            PushRest(t, cbMap, fts, frames, ev, ft, data);
            stack[sp] := Frame(ev, ft, data);
            sp := sp + 1;
            assert stack[..sp] == frames + [Frame(ev, ft, data)];
            ev, ft, data := ude, 0, tmp;
            return;
          }
        }
        SkipSound(t, cbMap, ftMap, fts, bev, frames, ev, ft, data, cb, fm);
        ft := ft + 1;
      }
    }
  }
}
