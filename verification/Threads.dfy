// mcdb.c: threads that share maps, run on the linked maps themselves.  Each call of a thread is
// carried out on the objects, in any interleaving, and stays in step with the state machine of
// Refresh.
module Threads {
  import opened Wrappers
  import opened Bytes
  import opened Refresh
  import opened Registration

  // Those released are unmapped.
  ghost predicate Unmapped(objs: seq<LinkedMap>, maps: seq<MMap>)
    requires |objs| == |maps|
    reads objs
  {
    forall i :: 0 <= i < |objs| && maps[i].freed ==> !objs[i].mapped
  }

  // The maps handed to free so far: exactly those released, each once
  ghost predicate FreedOnce(objs: seq<LinkedMap>, maps: seq<MMap>, freed: seq<LinkedMap>)
    requires |objs| == |maps|
  {
    && Distinct(freed) && (forall m :: m in freed ==> m in objs)
    && forall k :: 0 <= k < |objs| ==> (objs[k] in freed <==> maps[k].freed)
  }

  lemma FreedMore(objs: seq<LinkedMap>, was: seq<MMap>, now: seq<MMap>, h: nat, freed: seq<LinkedMap>,
                  more: seq<LinkedMap>)
    requires |objs| == |was| == |now| && h < |objs| && FreedOnce(objs, was, freed)
    requires FreedAre(objs, was, now, h, more)
    requires LiveFrom(was, h) && forall k :: 0 <= k < h ==> now[k] == was[k]
    ensures FreedOnce(objs, now, freed + more)
  {
    forall i, j | 0 <= i < |freed| <= j < |freed| + |more|
      ensures (freed + more)[i] != (freed + more)[j]
    {
      assert (freed + more)[i] in freed && (freed + more)[j] in more && (freed + more)[j] in objs;
    }
  }

  // A decrement or a move leaves the maps before h alone.
  lemma DropEarlier(maps: seq<MMap>, h: nat)
    requires Forward(maps) && LiveFrom(maps, h)
    ensures forall k :: 0 <= k < h ==> Drop(maps, h)[k] == maps[k]
  {
    hide ReleaseFrom, Minus;
    var less := maps[h := maps[h].(refcnt := Minus(maps[h].refcnt))];
    if less[h].refcnt == 0 {
      var j := ReleaseFrees(less, h);
    }
  }

  lemma IncrEarlier(maps: seq<MMap>, h: nat)
    requires Forward(maps) && LiveFrom(maps, h)
    ensures forall k :: 0 <= k < h ==> Incr(maps, h).0[k] == maps[k]
  {
    hide Drop, Plus;
    if maps[h].next.Some? {
      var l := Last(maps, h);
      DropEarlier(maps[l := maps[l].(refcnt := Plus(maps[l].refcnt))], h);
    }
  }

  lemma LiveMapped(objs: seq<LinkedMap>, maps: seq<MMap>, h: nat)
    requires Mirrors(objs, maps) && LiveFrom(maps, h)
    ensures objs[h].mapped
  {
    assert Node(objs, maps, h);
  }

  lemma UnmappedBefore(objs: seq<LinkedMap>, maps: seq<MMap>, h: nat)
    requires |objs| == |maps| && Unmapped(objs, maps) && LiveFrom(maps, h)
    ensures forall k :: 0 <= k < h && maps[k].freed ==> !objs[k].mapped
  {
  }

  lemma UnmappedAfter(objs: seq<LinkedMap>, was: seq<MMap>, now: seq<MMap>, h: nat, more: seq<LinkedMap>)
    requires |objs| == |was| == |now| && LiveFrom(was, h) && FreedAre(objs, was, now, h, more)
    requires forall k :: 0 <= k < h ==> now[k] == was[k]
    requires forall k :: 0 <= k < h && was[k].freed ==> !objs[k].mapped
    requires forall m :: m in more ==> !m.mapped
    ensures Unmapped(objs, now)
  {
  }

  lemma SameReleased(objs: seq<LinkedMap>, was: seq<MMap>, now: seq<MMap>, freed: seq<LinkedMap>)
    requires |objs| == |was| == |now| && forall k :: 0 <= k < |was| ==> now[k].freed == was[k].freed
    requires FreedOnce(objs, was, freed) && Unmapped(objs, was)
    ensures FreedOnce(objs, now, freed) && Unmapped(objs, now)
  {
  }

  // The objects are the maps of the state, and `freed` are those released.
  ghost predicate Tracks(objs: seq<LinkedMap>, maps: seq<MMap>, freed: seq<LinkedMap>)
    reads objs
  {
    |objs| == |maps| > 0 && Mirrors(objs, maps) && Unmapped(objs, maps) && FreedOnce(objs, maps, freed)
  }

  lemma InvLive(s: Sys, lo: nat, a: Action)
    requires Inv(s, lo) && Typed(s) && Enabled(s, a)
    ensures LiveFrom(s.maps, if a.Register? then Newest(s) else s.threads[a.t].handle.value)
    ensures a.ReopenPublish? ==> s.threads[a.t].handle.value == |s.maps| - 1
  {
    hide CountsOk, OldestUsed;
    assert ThreadOk(s.maps, lo, s.threads[a.t]);
  }

  lemma PointOf(s: Sys, a: Action, h: nat)
    requires Typed(s) && Enabled(s, a)
    requires h == if a.Register? then Newest(s) else s.threads[a.t].handle.value
    ensures a.t < |s.threads| && Forward(s.maps) && h < |s.maps|
    ensures !a.Register? ==> s.threads[a.t].handle == Some(h)
    ensures match s.threads[a.t].pc
            case Ready => a.Register? || a.Unregister? || a.RefreshTest? || a.ReopenBegin?
            case Seen => a.RefreshMove?
            case Guarding => a.ReopenPublish? || a.ReopenFail?
            case Published => a.ReopenEnd?
  {
  }

  lemma StepMoves(s: Sys, a: Action, h: nat)
    requires Typed(s) && Enabled(s, a)
    requires h == if a.Register? then Newest(s) else s.threads[a.t].handle.value
    ensures a.Register? || a.RefreshMove? ==> Step(s, a) == Refresh.Move(s, a.t, s.maps, h)
  {
    hide Incr;
  }

  // The map that a step starts from, and what is known of it
  lemma StepFrom(s: Sys, lo: nat, a: Action) returns (h: nat)
    requires Inv(s, lo) && Typed(s) && Enabled(s, a)
    ensures a.t < |s.threads| && Forward(s.maps) && s.maps != [] && LiveFrom(s.maps, h)
    ensures a.Register? ==> h == Newest(s)
    ensures !a.Register? ==> s.threads[a.t].handle == Some(h)
    ensures a.ReopenPublish? ==> h == |s.maps| - 1
    ensures a.Unregister? || a.RefreshTest? ==> s.threads[a.t] == Thread(Some(h), Ready)
    ensures a.RefreshMove? ==> s.threads[a.t] == Thread(Some(h), Seen)
    ensures a.Register? || a.RefreshMove? ==> Step(s, a) == Refresh.Move(s, a.t, s.maps, h)
  {
    h := if a.Register? then Newest(s) else s.threads[a.t].handle.value;
    InvLive(s, lo, a);
    PointOf(s, a, h);
    hide Inv, LiveFrom, Step;
    StepMoves(s, a, h);
  }

  // One step adds to the frees what FreedAre says.
  ghost predicate FreedNow(objs: seq<LinkedMap>, was: seq<MMap>, now: seq<MMap>, h: nat, freed: seq<LinkedMap>,
                           after: seq<LinkedMap>)
    requires |objs| == |was| == |now| && h < |objs|
  {
    freed <= after && FreedAre(objs, was, now, h, after[|freed|..])
  }

  // Register through m with USE_INCR; `after` is `freed` and the maps freed by the call.
  method Incremented(m: LinkedMap, freed: seq<LinkedMap>, ghost objs: seq<LinkedMap>, ghost maps: seq<MMap>,
                     ghost h: nat)
    returns (p: LinkedMap?, after: seq<LinkedMap>)
    requires Tracks(objs, maps, freed) && Forward(maps) && LiveFrom(maps, h) && m == objs[h]
    modifies objs
    ensures Tracks(objs, Incr(maps, h).0, after) && p == objs[Incr(maps, h).1]
    ensures FreedNow(objs, maps, Incr(maps, h).0, h, freed, after)
  {
    hide FreedOnce, Incr, Mirrors, Unmapped, FreedAre, Linked;
    LiveMapped(objs, maps, h);
    UnmappedBefore(objs, maps, h);
    IncrEarlier(maps, h);
    var ok, q, f := Registration.Register(m, true, objs, maps, h);
    FreedMore(objs, maps, Incr(maps, h).0, h, freed, f);
    UnmappedAfter(objs, maps, Incr(maps, h).0, h, f);
    p, after := q, freed + f;
    assert after[|freed|..] == f;
  }

  // ... and without it
  method Decremented(m: LinkedMap, freed: seq<LinkedMap>, ghost objs: seq<LinkedMap>, ghost maps: seq<MMap>,
                     ghost h: nat)
    returns (p: LinkedMap?, after: seq<LinkedMap>)
    requires Tracks(objs, maps, freed) && Forward(maps) && LiveFrom(maps, h) && m == objs[h]
    modifies objs
    ensures Tracks(objs, Drop(maps, h), after)
  {
    hide FreedOnce, Drop, Mirrors, Unmapped, FreedAre, Linked;
    UnmappedBefore(objs, maps, h);
    DropEarlier(maps, h);
    var ok, q, f := Registration.Register(m, false, objs, maps, h);
    FreedMore(objs, maps, Drop(maps, h), h, freed, f);
    UnmappedAfter(objs, maps, Drop(maps, h), h, f);
    p, after := q, freed + f;
  }

  method SetCount(m: LinkedMap, r: word, ghost objs: seq<LinkedMap>, ghost maps: seq<MMap>, ghost h: nat,
                  ghost freed: seq<LinkedMap>)
    requires Tracks(objs, maps, freed) && LiveFrom(maps, h) && m == objs[h]
    modifies m`refcnt
    ensures Tracks(objs, maps[h := maps[h].(refcnt := r)], freed) && m.refcnt == r
  {
    hide FreedOnce;
    ghost var now := maps[h := maps[h].(refcnt := r)];
    SameReleased(objs, maps, now, freed);
    m.refcnt := r;
    forall k | 0 <= k < |objs| && !now[k].freed
      ensures Node(objs, now, k)
    {
      assert old(Node(objs, maps, k));
    }
  }

  // A new map linked after the newest one
  method LinkNew(m: LinkedMap, ghost objs: seq<LinkedMap>, ghost maps: seq<MMap>, ghost h: nat,
                 ghost freed: seq<LinkedMap>)
    returns (next: LinkedMap)
    requires Tracks(objs, maps, freed) && LiveFrom(maps, h) && m == objs[h] && h == |maps| - 1
    modifies m`next
    ensures fresh(next) && m.next == next && next.refcnt == MARK
    ensures Tracks(objs + [next], maps[h := maps[h].(next := Some(|maps|))] + [MMap(MARK, None, false, false)], freed)
  {
    hide FreedOnce;
    next := new LinkedMap(MARK);
    m.next := next;
    ghost var all, now := objs + [next], maps[h := maps[h].(next := Some(|maps|))] + [MMap(MARK, None, false, false)];
    OneMoreMap(objs, next, maps, now, freed);
    forall k | 0 <= k < |all| && !now[k].freed
      ensures Node(all, now, k)
    {
      if k < |objs| {
        assert old(Node(objs, maps, k));
      }
    }
  }

  lemma OneMoreMap(objs: seq<LinkedMap>, next: LinkedMap, was: seq<MMap>, now: seq<MMap>, freed: seq<LinkedMap>)
    requires |objs| == |was| && |now| == |was| + 1 && Distinct(objs) && next !in objs && !now[|was|].freed
    requires forall k :: 0 <= k < |was| ==> now[k].freed == was[k].freed
    requires FreedOnce(objs, was, freed)
    ensures FreedOnce(objs + [next], now, freed) && Distinct(objs + [next])
  {
  }

  // The links of live maps lead to the newest.
  lemma {:induction false} LinksLead(maps: seq<MMap>, h: nat)
    requires Forward(maps) && LiveFrom(maps, h)
    ensures Last(maps, h) == |maps| - 1
    decreases |maps| - h
  {
    if h + 1 < |maps| {
      LinksLead(maps, h + 1);
    }
  }

  lemma MovedLast(maps: seq<MMap>, h: nat)
    requires Forward(maps) && LiveFrom(maps, h)
    ensures Incr(maps, h).1 == |maps| - 1
  {
    hide Drop, Last;
    LinksLead(maps, h);
  }

  class Process {
    var ptrs: seq<LinkedMap?>       // each thread's own pointer
    var held: seq<bool>             // whether the thread is registered
    var pcs: seq<Pc>
    var newest: LinkedMap           // where threads that register find the map
    var freed: seq<LinkedMap>       // in the order of the frees
    ghost var objs: seq<LinkedMap>

    ghost predicate IsAt(ts: seq<Thread>, t: nat)
      requires |ptrs| == |held| == |pcs| == |ts| && t < |ts|
      reads `ptrs, `held, `pcs, `objs
    {
      && pcs[t] == ts[t].pc && (held[t] <==> ts[t].handle.Some?)
      && (held[t] ==> ts[t].handle.value < |objs| && ptrs[t] == objs[ts[t].handle.value])
    }

    ghost predicate AllThreads(ts: seq<Thread>)
      reads `ptrs, `held, `pcs, `objs
    {
      |ptrs| == |held| == |pcs| == |ts| && forall t :: 0 <= t < |ts| ==> IsAt(ts, t)
    }

    // The objects, pointers and frees are those of the state.
    ghost predicate Stands(s: Sys)
      reads this, objs
    {
      && Tracks(objs, s.maps, freed) && objs != [] && newest == objs[|objs| - 1] && AllThreads(s.threads)
    }

    // mcdb_mmap_create by thread 0 of n
    constructor (n: nat)
      requires n > 0
      ensures Stands(Init(n)) && fresh(objs) && freed == []
    {
      var m := new LinkedMap(1);
      ptrs := seq(n, t => if t == 0 then m else null);
      held := seq(n, t => t == 0);
      pcs := seq(n, _ => Ready);
      newest, freed := m, [];
      objs := [m];
    }

    method SetPointer(t: nat, p: LinkedMap?, h: bool, pc: Pc, ghost ts: seq<Thread>, ghost th: Thread)
      requires AllThreads(ts) && t < |ts| && pc == th.pc && h == th.handle.Some?
      requires h ==> th.handle.value < |objs| && p == objs[th.handle.value]
      modifies this`ptrs, this`held, this`pcs
      ensures AllThreads(ts[t := th])
      ensures |ptrs| == |held| == |pcs| == |ts| && ptrs[t] == p && held[t] == h && pcs[t] == pc
    {
      ptrs, held, pcs := ptrs[t := p], held[t := h], pcs[t := pc];
      ghost var now := ts[t := th];
      forall u | 0 <= u < |now|
        ensures IsAt(now, u)
      {
        assert old(IsAt(ts, u));
      }
    }

    // What thread t finds through its pointer
    lemma AtMap(s: Sys, t: nat, h: nat)
      requires Stands(s) && t < |s.threads| && LiveFrom(s.maps, h) && s.threads[t].handle == Some(h)
      ensures t < |ptrs| == |pcs| == |held| && h < |objs| == |s.maps|
      ensures ptrs[t] == objs[h] && objs[h].mapped && objs[h].refcnt == s.maps[h].refcnt
      ensures objs[h].next != null <==> s.maps[h].next.Some?
    {
      assert IsAt(s.threads, t);
      assert Node(objs, s.maps, h);
    }

    lemma Safe(s: Sys, lo: nat)
      requires Stands(s) && Inv(s, lo)
      ensures |ptrs| == |held| == |s.threads|
      ensures forall t :: 0 <= t < |ptrs| && held[t] ==> ptrs[t] != null && ptrs[t] in objs && ptrs[t].mapped
      ensures Distinct(freed) && forall m :: m in freed ==> m in objs && !m.mapped
    {
      hide CountsOk, OldestUsed;
      forall t | 0 <= t < |ptrs| && held[t]
        ensures ptrs[t] != null && ptrs[t] in objs && ptrs[t].mapped
      {
        assert IsAt(s.threads, t) && ThreadOk(s.maps, lo, s.threads[t]);
        AtMap(s, t, s.threads[t].handle.value);
      }
    }

    twostate lemma MoreObjects(ts: seq<Thread>)
      requires old(AllThreads(ts)) && ptrs == old(ptrs) && held == old(held) && pcs == old(pcs)
      requires |old(objs)| <= |objs| && objs[..|old(objs)|] == old(objs)
      ensures AllThreads(ts)
    {
      forall t | 0 <= t < |ts|
        ensures IsAt(ts, t)
      {
        assert old(IsAt(ts, t));
      }
    }

    // The thread is registered on the newest map, between calls.
    predicate OnNewest(t: nat)
      reads this
    {
      t < |ptrs| == |held| == |pcs| && held[t] && ptrs[t] == newest && pcs[t] == Ready
    }

    // Register thread t through m, with USE_INCR.
    method Moved(t: nat, m: LinkedMap, ghost s: Sys, ghost h: nat)
      requires Stands(s) && t < |s.threads| && Forward(s.maps) && LiveFrom(s.maps, h) && |objs| == |s.maps| && m == objs[h]
      modifies this`ptrs, this`held, this`pcs, this`freed, objs
      ensures Stands(Refresh.Move(s, t, s.maps, h))
      ensures FreedNow(objs, s.maps, Incr(s.maps, h).0, h, old(freed), freed) && OnNewest(t)
    {
      hide FreedNow, Tracks, Incr, Process.AllThreads;
      var p;
      p, freed := Incremented(m, freed, objs, s.maps, h);
      MovedLast(s.maps, h);
      SetPointer(t, p, true, Ready, s.threads, Thread(Some(Incr(s.maps, h).1), Ready));
    }

    // mcdb_thread_register
    method Join(t: nat, ghost s: Sys)
      requires Stands(s) && t < |s.threads| && Forward(s.maps) && s.maps != [] && LiveFrom(s.maps, Newest(s))
      modifies this`ptrs, this`held, this`pcs, this`freed, objs
      ensures Stands(Refresh.Move(s, t, s.maps, Newest(s))) && OnNewest(t)
    {
      hide Mirrors, Unmapped, FreedOnce, LiveFrom, Refresh.Move;
      Moved(t, newest, s, Newest(s));
    }

    // mcdb_thread_unregister
    method Unregistered(t: nat, ghost s: Sys, ghost h: nat)
      requires Stands(s) && t < |s.threads| && Typed(s) && LiveFrom(s.maps, h)
      requires s.threads[t] == Thread(Some(h), Ready)
      modifies this`ptrs, this`held, this`pcs, this`freed, objs
      ensures Stands(Step(s, Unregister(t))) && t < |held| && !held[t]
    {
      hide Tracks, Drop, Process.AllThreads, LiveFrom;
      AtMap(s, t, h);
      var p;
      p, freed := Decremented(ptrs[t], freed, objs, s.maps, h);
      SetPointer(t, p, false, Ready, s.threads, Thread(None, Ready));
    }

    // mcdb_thread_refresh_self: the unlocked test
    method TestNext(t: nat, ghost s: Sys, ghost h: nat)
      requires Stands(s) && t < |s.threads| && Typed(s) && LiveFrom(s.maps, h)
      requires s.threads[t] == Thread(Some(h), Ready)
      modifies this`ptrs, this`held, this`pcs
      ensures Stands(Step(s, RefreshTest(t)))
    {
      hide Tracks, Process.AllThreads, LiveFrom;
      AtMap(s, t, h);
      if ptrs[t].next != null {
        SetPointer(t, ptrs[t], true, Seen, s.threads, Thread(Some(h), Seen));
      }
    }

    // ... and the locked registration
    method MoveOn(t: nat, ghost s: Sys, ghost h: nat)
      requires Stands(s) && t < |s.threads| && Typed(s) && LiveFrom(s.maps, h)
      requires s.threads[t] == Thread(Some(h), Seen)
      modifies this`ptrs, this`held, this`pcs, this`freed, objs
      ensures |objs| == |s.maps| && Stands(Refresh.Move(s, t, s.maps, h))
      ensures FreedNow(objs, s.maps, Incr(s.maps, h).0, h, old(freed), freed) && OnNewest(t)
    {
      hide FreedNow, Process.Stands, LiveFrom, Refresh.Move;
      AtMap(s, t, h);
      Moved(t, ptrs[t], s, h);
    }

    // mcdb_mmap_reopen_threadsafe: the first section under the lock
    method BeginReopen(t: nat, ghost s: Sys, ghost h: nat)
      requires Stands(s) && t < |s.threads| && Typed(s) && LiveFrom(s.maps, h)
      requires s.threads[t] == Thread(Some(h), Ready)
      modifies this`ptrs, this`held, this`pcs, this`freed, objs
      ensures Stands(Step(s, ReopenBegin(t))) && h < |objs|
      ensures old(objs[h].next) != null ==> OnNewest(t)
      ensures old(objs[h].next) == null ==>
        if old(objs[h].refcnt) < 0x8000_0000
        then t < |pcs| && pcs[t] == Guarding && objs[h].refcnt == old(objs[h].refcnt) + 0x8000_0000
        else pcs == old(pcs) && ptrs == old(ptrs) && objs[h].refcnt == old(objs[h].refcnt)
    {
      hide Tracks, Process.AllThreads, Incr, LiveFrom;
      AtMap(s, t, h);
      var m := ptrs[t];
      if m.next != null {
        Moved(t, m, s, h);
      } else if m.refcnt < GUARD {
        SetCount(m, SetGuard(m.refcnt), objs, s.maps, h, freed);
        SetPointer(t, m, true, Guarding, s.threads, Thread(Some(h), Guarding));
      }
    }

    // ... the new map is linked, outside the lock
    method Publish(t: nat, ghost s: Sys, ghost h: nat)
      requires Stands(s) && t < |s.threads| && Typed(s) && LiveFrom(s.maps, h) && h == |s.maps| - 1
      requires s.threads[t] == Thread(Some(h), Guarding)
      modifies this, objs
      ensures Stands(Step(s, ReopenPublish(t))) && Grown(true)
      ensures h < |objs| && objs[h].next == newest && fresh(newest) && newest.refcnt == 0x4000_0000
    {
      hide Tracks, Process.AllThreads, LiveFrom;
      AtMap(s, t, h);
      var next := LinkNew(ptrs[t], objs, s.maps, h, freed);
      newest := next;
      objs := objs + [next];
      MoreObjects(s.threads);
      SetPointer(t, ptrs[t], true, Published, s.threads, Thread(Some(h), Published));
    }

    // ... or it could not be opened; the guard stays
    method FailReopen(t: nat, ghost s: Sys, ghost h: nat)
      requires Stands(s) && t < |s.threads| && Typed(s) && LiveFrom(s.maps, h)
      requires s.threads[t] == Thread(Some(h), Guarding)
      modifies this`ptrs, this`held, this`pcs
      ensures Stands(Step(s, ReopenFail(t)))
    {
      AtMap(s, t, h);
      ghost var now := s.maps[h := s.maps[h].(failed := true)];
      SameReleased(objs, s.maps, now, freed);
      assert Mirrors(objs, now) by {
        forall k | 0 <= k < |objs| && !now[k].freed
          ensures Node(objs, now, k)
        {
          assert Node(objs, s.maps, k);
        }
      }
      hide Mirrors, FreedOnce, Unmapped, Process.AllThreads, LiveFrom;
      SetPointer(t, ptrs[t], true, Ready, s.threads, Thread(Some(h), Ready));
    }

    // ... the second section under the lock
    method EndReopen(t: nat, ghost s: Sys, ghost h: nat)
      requires Stands(s) && t < |s.threads| && Typed(s) && LiveFrom(s.maps, h)
      requires s.threads[t] == Thread(Some(h), Published)
      modifies this`ptrs, this`held, this`pcs, this`freed, objs
      ensures Stands(Step(s, ReopenEnd(t))) && OnNewest(t)
    {
      hide Tracks, Process.AllThreads, Incr;
      AtMap(s, t, h);
      var m := ptrs[t];
      ghost var less := s.maps[h := s.maps[h].(refcnt := ClearGuard(s.maps[h].refcnt))];
      SetCount(m, ClearGuard(m.refcnt), objs, s.maps, h, freed);
      Moved(t, m, Sys(less, s.threads), h);
    }

    // Can thread a.t do this now?
    method CanDo(a: Action, ghost s: Sys, ghost lo: nat) returns (can: bool)
      requires Stands(s) && Inv(s, lo)
      ensures can <==> Enabled(s, a)
    {
      hide Inv, FreedOnce;
      if a.t >= |ptrs| {
        return false;
      }
      assert IsAt(s.threads, a.t);
      var reg, pc := held[a.t], pcs[a.t];
      match a {
        case Register(_) =>
          assert !s.maps[Newest(s)].freed ==> Node(objs, s.maps, Newest(s));
          can := !reg && pc.Ready? && newest.mapped;
        case RefreshMove(_) => can := reg && pc.Seen?;
        case ReopenPublish(_) => can := reg && pc.Guarding?;
        case ReopenFail(_) => can := reg && pc.Guarding?;
        case ReopenEnd(_) => can := reg && pc.Published?;
        case _ => can := reg && pc.Ready?;
      }
    }

    // At most one new map joins the list.
    twostate predicate Grown(one: bool)
      reads `objs
    {
      || objs == old(objs)
      || (one && |objs| == |old(objs)| + 1 && objs[..|old(objs)|] == old(objs) && fresh(objs[|old(objs)|]))
    }

    // The next step of thread a.t
    method Do(a: Action, ghost s: Sys, ghost lo: nat)
      requires Stands(s) && Inv(s, lo) && Typed(s) && Enabled(s, a)
      modifies this, objs
      ensures Stands(Step(s, a))
      ensures Grown(a.ReopenPublish?)
    {
      hide Process.Stands, Inv, LiveFrom, Step, Forward, Typed, Enabled, Refresh.Move;
      ghost var h := StepFrom(s, lo, a);
      if a.Register? {
        Join(a.t, s);
      } else if a.Unregister? {
        Unregistered(a.t, s, h);
      } else if a.RefreshTest? {
        TestNext(a.t, s, h);
      } else if a.RefreshMove? {
        MoveOn(a.t, s, h);
      } else {
        Reopens(a, s, h);
      }
    }

    // One part of mcdb_mmap_reopen_threadsafe
    method Reopens(a: Action, ghost s: Sys, ghost h: nat)
      requires Stands(s) && Typed(s) && Enabled(s, a) && !a.Register? && s.threads[a.t].handle == Some(h)
      requires a.ReopenBegin? || a.ReopenPublish? || a.ReopenFail? || a.ReopenEnd?
      requires LiveFrom(s.maps, h) && (a.ReopenPublish? ==> h == |s.maps| - 1)
      modifies this, objs
      ensures Stands(Step(s, a)) && Grown(a.ReopenPublish?)
    {
      PointOf(s, a, h);
      hide Process.Stands, LiveFrom, Step, Forward, Typed, Enabled;
      if a.ReopenBegin? {
        BeginReopen(a.t, s, h);
      } else if a.ReopenPublish? {
        Publish(a.t, s, h);
      } else if a.ReopenFail? {
        FailReopen(a.t, s, h);
      } else {
        EndReopen(a.t, s, h);
      }
    }

    method Act(a: Action, ghost s: Sys, ghost lo: nat)
      requires Stands(s) && Inv(s, lo) && Typed(s)
      modifies this, objs
      ensures Stands(if Enabled(s, a) then Step(s, a) else s)
      ensures Grown(a.ReopenPublish?)
    {
      hide Inv, Stands, Step, Enabled;
      var can := CanDo(a, s, lo);
      if can {
        Do(a, s, lo);
      }
    }
  }

  // Any interleaving of n threads, carried out on the objects: they stay in step with the state
  // machine, so no registered thread has a pointer to an unmapped map and no map is freed twice.
  method RunThreads(n: nat, actions: seq<Action>) returns (p: Process)
    requires 0 < n < MARK
    ensures fresh(p) && fresh(p.objs) && p.Stands(Run(Init(n), actions)) && |p.ptrs| == |p.held| == n
    ensures forall t :: 0 <= t < n && p.held[t] ==> p.ptrs[t] != null && p.ptrs[t].mapped
    ensures Distinct(p.freed) && forall m :: m in p.freed ==> !m.mapped
  {
    hide Run, Step, Enabled, Typed, Init, Inv, Process.Stands;
    p := new Process(n);
    RunNone(Init(n), actions);
    for i := 0 to |actions|
      invariant fresh(p) && fresh(p.objs) && p.Stands(Run(Init(n), actions[..i]))
    {
      ghost var s := Run(Init(n), actions[..i]);
      ghost var lo := RunInv(n, actions[..i]);
      InvTyped(s, lo);
      RunNext(Init(n), actions, i);
      ghost var was := p.objs;
      p.Act(actions[i], s, lo);
      assert forall k :: 0 <= k < |was| ==> p.objs[k] == was[k];
    }
    assert actions[..|actions|] == actions;
    ghost var s := Run(Init(n), actions);
    ghost var lo := RunInv(n, actions);
    RunThreadCount(n, actions);
    p.Safe(s, lo);
  }

  lemma RunNone(s: Sys, actions: seq<Action>)
    ensures Run(s, actions[..0]) == s
  {
  }

  lemma RunNext(s: Sys, actions: seq<Action>, i: nat)
    requires i < |actions|
    ensures var m := Run(s, actions[..i]);
      Run(s, actions[..i + 1]) == if Typed(m) && Enabled(m, actions[i]) then Step(m, actions[i]) else m
  {
    assert actions[..i + 1][..i] == actions[..i];
  }

  lemma {:induction false} RunThreadCount(n: nat, actions: seq<Action>)
    requires n > 0
    ensures |Run(Init(n), actions).threads| == n
  {
    hide Incr, Drop;
    if actions != [] {
      RunThreadCount(n, actions[..|actions| - 1]);
    }
  }

  lemma FirstFreed(objs: seq<LinkedMap>, maps: seq<MMap>, freed: seq<LinkedMap>)
    requires |objs| == |maps| && FreedOnce(objs, maps, freed) && freed != []
    ensures exists k :: 0 <= k < |maps| && maps[k].freed
  {
    assert freed[0] in objs;
  }

  lemma LastStep()
    ensures var s := Run(Init(2), ThreeReopens());
      && Typed(s) && LiveFrom(s.maps, 0) && s.threads == [Thread(Some(0), Seen), Thread(Some(3), Ready)]
      && Run(Init(2), ThreeReopens() + [RefreshMove(0)]) == Refresh.Move(s, 0, s.maps, 0)
      && Run(Init(2), ThreeReopens() + [RefreshMove(0)]).maps == Incr(s.maps, 0).0
  {
    hide Run, Init, ThreeReopens, Incr;
    AfterThreeReopens();
    RunStep(Init(2), ThreeReopens(), RefreshMove(0));
  }

  // The run of Refresh.ThreeReleased on the objects: the third map is freed ahead of the second.
  method ReleaseThree() returns (p: Process)
    ensures p.Stands(Run(Init(2), ThreeReopens() + [RefreshMove(0)])) && |p.objs| == 4
    ensures p.freed == [p.objs[0], p.objs[2], p.objs[1]]
  {
    hide Run, Init, Typed, LiveFrom, FreedAre, Process.AllThreads, Incr, Refresh.Move;
    ghost var s := Run(Init(2), ThreeReopens());
    p := RunThreads(2, ThreeReopens());
    hide ThreeReopens;
    LastStep();
    ThreeReleased();
    if p.freed != [] {
      FirstFreed(p.objs, s.maps, p.freed);
      assert false;
    }
    p.MoveOn(0, s, 0);
    assert p.freed[0..] == p.freed;
    ThreeFreedOutOfOrder(p.objs, s.maps, Run(Init(2), ThreeReopens() + [RefreshMove(0)]).maps, p.freed);
  }
}
