// mcdb.c: refresh of maps shared by threads, as a state machine.  Maps are numbered in the order
// in which they were opened.  Every section under the global spinlock is one step; publishing
// map->next is a step of its own.
module Refresh {
  import opened Wrappers
  import opened Bytes

  const MARK: word := 0x4000_0000      // not the oldest map of the chain
  const GUARD: word := 0x8000_0000     // a reopen is in progress

  // struct mcdb_mmap: `freed` once released; `failed` when a reopen of it has failed
  datatype MMap = MMap(refcnt: word, next: Option<nat>, freed: bool, failed: bool)

  // Where a thread is: between calls; after seeing a newer map, unlocked; after setting the guard;
  // after publishing the new map
  datatype Pc = Ready | Seen | Guarding | Published

  // A thread and its own map pointer: None while not registered
  datatype Thread = Thread(handle: Option<nat>, pc: Pc)

  datatype Sys = Sys(maps: seq<MMap>, threads: seq<Thread>)

  // ----- the 32-bit reference count

  function Plus(r: word): word { (r as int + 1) % 0x1_0000_0000 }

  function Minus(r: word): word { (r as int + 0x1_0000_0000 - 1) % 0x1_0000_0000 }

  predicate Marked(r: word) { r / MARK % 2 == 1 }

  predicate Guarded(r: word) { r >= GUARD }

  function Count(r: word): nat { r % MARK }

  function SetGuard(r: word): word { if Guarded(r) then r else r + GUARD }

  function ClearGuard(r: word): word { if Guarded(r) then r - GUARD else r }

  function ClearMark(r: word): word { if Marked(r) then r - MARK else r }

  // Nothing but perhaps the mark is left of the count.
  predicate Unused(r: word) { ClearMark(r) == 0 }

  // ----- mcdb_mmap_thread_registration

  // Links lead to later maps, as long as maps are only ever published at the end.
  predicate Forward(maps: seq<MMap>) {
    forall i :: 0 <= i < |maps| && maps[i].next.Some? ==> i < maps[i].next.value < |maps|
  }

  // The end of the links that start at map i
  function Last(maps: seq<MMap>, i: nat): (l: nat)
    requires Forward(maps) && i < |maps|
    ensures i <= l < |maps| && maps[l].next.None?
    decreases |maps| - i
  {
    if maps[i].next.None? then i else Last(maps, maps[i].next.value)
  }

  // The first map after i, along the links, that is still in use
  function FirstUsed(maps: seq<MMap>, i: nat): Option<nat>
    requires Forward(maps) && i < |maps|
    decreases |maps| - i
  {
    match maps[i].next
    case None => None
    case Some(n) => if Unused(maps[n].refcnt) then FirstUsed(maps, n) else Some(n)
  }

  // Release map i and the unused maps linked after it; the first one kept becomes the oldest.
  function ReleaseFrom(maps: seq<MMap>, i: nat): (out: seq<MMap>)
    requires Forward(maps) && i < |maps|
    ensures |out| == |maps|
    decreases |maps| - i
  {
    var out := maps[i := maps[i].(freed := true)];
    match maps[i].next
    case None => out
    case Some(n) =>
      if Unused(maps[n].refcnt) then ReleaseFrom(out, n)
      else out[n := maps[n].(refcnt := ClearMark(maps[n].refcnt))]
  }

  // Take back one count; a map whose count becomes 0 is released.
  function Drop(maps: seq<MMap>, h: nat): (out: seq<MMap>)
    requires Forward(maps) && h < |maps|
    ensures |out| == |maps|
  {
    var out := maps[h := maps[h].(refcnt := Minus(maps[h].refcnt))];
    if out[h].refcnt == 0 then ReleaseFrom(out, h) else out
  }

  // Register with flag USE_INCR through a pointer to map h: the maps and the pointer afterwards
  function Incr(maps: seq<MMap>, h: nat): (out: (seq<MMap>, nat))
    requires Forward(maps) && h < |maps|
    ensures |out.0| == |maps| && out.1 < |maps|
  {
    if maps[h].next.None? then (maps[h := maps[h].(refcnt := Plus(maps[h].refcnt))], h)
    else
      var l := Last(maps, h);
      (Drop(maps[l := maps[l].(refcnt := Plus(maps[l].refcnt))], h), l)
  }

  // ----- the steps of a run

  datatype Action =
    | Register(t: nat)          // mcdb_thread_register through a pointer to the newest map
    | Unregister(t: nat)        // mcdb_thread_unregister
    | RefreshTest(t: nat)       // mcdb_thread_refresh_self: the unlocked test of map->next
    | RefreshMove(t: nat)       // ... and the locked registration
    | ReopenBegin(t: nat)       // mcdb_mmap_reopen_threadsafe: first locked section
    | ReopenPublish(t: nat)     // ... the new map is ready and linked
    | ReopenFail(t: nat)        // ... or could not be opened
    | ReopenEnd(t: nat)         // ... second locked section

  function Newest(s: Sys): nat
    requires s.maps != []
  {
    |s.maps| - 1
  }

  predicate Enabled(s: Sys, a: Action) {
    && a.t < |s.threads| && s.maps != []
    && var th := s.threads[a.t];
       match a
       case Register(_) => th.handle.None? && th.pc.Ready? && !s.maps[Newest(s)].freed
       case Unregister(_) => th.handle.Some? && th.pc.Ready?
       case RefreshTest(_) => th.handle.Some? && th.pc.Ready?
       case RefreshMove(_) => th.handle.Some? && th.pc.Seen?
       case ReopenBegin(_) => th.handle.Some? && th.pc.Ready?
       case ReopenPublish(_) => th.handle.Some? && th.pc.Guarding?
       case ReopenFail(_) => th.handle.Some? && th.pc.Guarding?
       case ReopenEnd(_) => th.handle.Some? && th.pc.Published?
  }

  // Handles refer to maps that exist.
  predicate Typed(s: Sys) {
    && Forward(s.maps)
    && forall t :: 0 <= t < |s.threads| && s.threads[t].handle.Some? ==> s.threads[t].handle.value < |s.maps|
  }

  function SetThread(s: Sys, t: nat, maps: seq<MMap>, handle: Option<nat>, pc: Pc): Sys
    requires t < |s.threads|
  {
    Sys(maps, s.threads[t := Thread(handle, pc)])
  }

  function Move(s: Sys, t: nat, maps: seq<MMap>, h: nat): Sys
    requires t < |s.threads| && Forward(maps) && h < |maps|
  {
    var (out, l) := Incr(maps, h);
    SetThread(s, t, out, Some(l), Ready)
  }

  function Step(s: Sys, a: Action): Sys
    requires Typed(s) && Enabled(s, a)
  {
    var maps, t := s.maps, a.t;
    if a.Register? then Move(s, t, maps, Newest(s))
    else
      var h := s.threads[t].handle.value;
      match a
      case Unregister(_) => SetThread(s, t, Drop(maps, h), None, Ready)
      case RefreshTest(_) => if maps[h].next.None? then s else SetThread(s, t, maps, Some(h), Seen)
      case RefreshMove(_) => Move(s, t, maps, h)
      case ReopenBegin(_) =>
        if maps[h].next.Some? then Move(s, t, maps, h)
        else if Guarded(maps[h].refcnt) then s
        else SetThread(s, t, maps[h := maps[h].(refcnt := SetGuard(maps[h].refcnt))], Some(h), Guarding)
      case ReopenPublish(_) =>
        var next := MMap(MARK, None, false, false);
        SetThread(s, t, maps[h := maps[h].(next := Some(|maps|))] + [next], Some(h), Published)
      case ReopenFail(_) => SetThread(s, t, maps[h := maps[h].(failed := true)], Some(h), Ready)
      case ReopenEnd(_) =>
        Move(s, t, maps[h := maps[h].(refcnt := ClearGuard(maps[h].refcnt))], h)
  }

  // ----- the invariant

  // Registered handles on map i
  function Users(ts: seq<Thread>, i: nat): (n: nat)
    ensures n <= |ts|
  {
    if ts == [] then 0 else Users(ts[..|ts| - 1], i) + if ts[|ts| - 1].handle == Some(i) then 1 else 0
  }

  lemma {:induction false} UsersUpdate(ts: seq<Thread>, t: nat, th: Thread, i: nat)
    requires t < |ts|
    ensures Users(ts[t := th], i)
      == Users(ts, i) - (if ts[t].handle == Some(i) then 1 else 0) + (if th.handle == Some(i) then 1 else 0)
  {
    var n := |ts| - 1;
    if t == n {
      assert ts[t := th][..n] == ts[..n];
    } else {
      assert ts[t := th][..n] == ts[..n][t := th];
      UsersUpdate(ts[..n], t, th, i);
    }
  }

  lemma {:induction false} UsersSeen(ts: seq<Thread>, t: nat, i: nat)
    requires t < |ts| && ts[t].handle == Some(i)
    ensures Users(ts, i) > 0
  {
    if t < |ts| - 1 {
      UsersSeen(ts[..|ts| - 1], t, i);
    }
  }

  lemma {:induction false} UsersNone(ts: seq<Thread>, i: nat)
    requires forall t :: 0 <= t < |ts| ==> ts[t].handle != Some(i)
    ensures Users(ts, i) == 0
  {
    if ts != [] {
      UsersNone(ts[..|ts| - 1], i);
    }
  }

  // A thread that has set the guard of map i and not cleared it
  predicate Holds(th: Thread, i: nat) {
    th.handle == Some(i) && (th.pc.Guarding? || th.pc.Published?)
  }

  ghost predicate GuardSet(maps: seq<MMap>, ts: seq<Thread>, i: nat)
    requires i < |maps|
  {
    maps[i].failed || exists t :: 0 <= t < |ts| && Holds(ts[t], i)
  }

  // What the reference count of map i must be when `lo` is the oldest live map
  ghost function Expected(maps: seq<MMap>, ts: seq<Thread>, lo: nat, i: nat): nat
    requires i < |maps|
  {
    Users(ts, i) + (if i > lo then MARK else 0) + (if GuardSet(maps, ts, i) then GUARD else 0)
  }

  // Maps before lo are released; the others form one chain, oldest first.
  ghost predicate Chain(maps: seq<MMap>, lo: nat) {
    && lo <= |maps|
    && forall i :: 0 <= i < |maps| ==>
         (maps[i].freed <==> i < lo) && maps[i].next == if i + 1 < |maps| then Some(i + 1) else None
  }

  ghost predicate ThreadOk(maps: seq<MMap>, lo: nat, th: Thread) {
    match th.handle
    case None => th.pc.Ready?
    case Some(h) =>
      && lo <= h < |maps|
      && (th.pc.Seen? || th.pc.Published? ==> h + 1 < |maps|)
      && (th.pc.Guarding? ==> h + 1 == |maps|)
      && (th.pc.Guarding? || th.pc.Published? ==> !maps[h].failed)
  }

  ghost predicate ThreadsOk(maps: seq<MMap>, ts: seq<Thread>, lo: nat) {
    && |ts| < MARK
    && (forall t :: 0 <= t < |ts| ==> ThreadOk(maps, lo, ts[t]))
    // one guard, one holder
    && (forall t, u, i: nat :: 0 <= t < u < |ts| && Holds(ts[t], i) ==> !Holds(ts[u], i))
  }

  ghost predicate CountsOk(maps: seq<MMap>, ts: seq<Thread>, lo: nat) {
    forall i :: lo <= i < |maps| ==> maps[i].refcnt == Expected(maps, ts, lo, i)
  }

  // The oldest live map is in use, or a failed reopen keeps it.
  ghost predicate OldestUsed(maps: seq<MMap>, ts: seq<Thread>, lo: nat) {
    lo < |maps| ==> Users(ts, lo) > 0 || maps[lo].failed
  }

  ghost predicate Inv(s: Sys, lo: nat) {
    && s.maps != [] && Chain(s.maps, lo) && ThreadsOk(s.maps, s.threads, lo)
    && CountsOk(s.maps, s.threads, lo) && OldestUsed(s.maps, s.threads, lo)
  }

  // ----- releasing

  function AfterRelease(maps: seq<MMap>, i: nat, j: nat, k: nat): MMap
    requires k < |maps|
  {
    if i <= k < j then maps[k].(freed := true)
    else if k == j then maps[k].(refcnt := ClearMark(maps[k].refcnt))
    else maps[k]
  }

  // Releasing from map i frees exactly the maps up to the first one in use, and unmarks that one.
  lemma {:induction false} ReleaseFrees(maps: seq<MMap>, i: nat) returns (j: nat)
    requires Forward(maps) && i < |maps|
    requires forall k :: i <= k < |maps| ==> maps[k].next == if k + 1 < |maps| then Some(k + 1) else None
    ensures i < j <= |maps|
    ensures forall k :: i < k < j ==> Unused(maps[k].refcnt)
    ensures j < |maps| ==> !Unused(maps[j].refcnt)
    ensures forall k :: 0 <= k < |maps| ==> ReleaseFrom(maps, i)[k] == AfterRelease(maps, i, j, k)
    decreases |maps| - i
  {
    j := i + 1;
    if i + 1 < |maps| && Unused(maps[i + 1].refcnt) {
      var out := maps[i := maps[i].(freed := true)];
      j := ReleaseFrees(out, i + 1);
      forall k | i < k < j
        ensures Unused(maps[k].refcnt)
      {
        assert k > i + 1 ==> Unused(out[k].refcnt);
      }
    }
  }

  // The parts of a count can be told apart.
  lemma CountParts(u: nat, mark: bool, guard: bool)
    requires u < MARK
    ensures var r := u + (if mark then MARK else 0) + (if guard then GUARD else 0);
      && 0 <= r < 0x1_0000_0000 && Count(r) == u && (Guarded(r) <==> guard) && (Marked(r) <==> mark)
      && ClearMark(r) == u + (if guard then GUARD else 0)
      && ClearGuard(r) == u + (if mark then MARK else 0)
      && SetGuard(r) == u + (if mark then MARK else 0) + GUARD
  {
  }

  // One decrement is still to be made on map h.
  ghost predicate OneOver(maps: seq<MMap>, ts: seq<Thread>, lo: nat, h: nat) {
    forall i :: lo <= i < |maps| ==> maps[i].refcnt == Expected(maps, ts, lo, i) + if i == h then 1 else 0
  }

  ghost predicate SameLinks(was: seq<MMap>, now: seq<MMap>) {
    |was| == |now| && forall i :: 0 <= i < |was| ==> now[i].next == was[i].next && now[i].failed == was[i].failed
  }

  lemma GuardSame(was: seq<MMap>, now: seq<MMap>, ts: seq<Thread>)
    requires SameLinks(was, now)
    ensures forall i :: 0 <= i < |was| ==> GuardSet(now, ts, i) == GuardSet(was, ts, i)
  {
  }

  // Releasing the oldest map: the released maps have no users.
  lemma ReleaseKeeps(maps: seq<MMap>, ts: seq<Thread>, lo: nat) returns (lo': nat)
    requires Forward(maps) && Chain(maps, lo) && ThreadsOk(maps, ts, lo) && CountsOk(maps, ts, lo)
    requires lo < |maps| && maps[lo].refcnt == 0
    ensures lo < lo' && Chain(ReleaseFrom(maps, lo), lo') && ThreadsOk(ReleaseFrom(maps, lo), ts, lo')
    ensures CountsOk(ReleaseFrom(maps, lo), ts, lo') && OldestUsed(ReleaseFrom(maps, lo), ts, lo')
    ensures SameLinks(maps, ReleaseFrom(maps, lo)) && NoneFailed(maps, lo, lo')
  {
    hide Users, GuardSet, ReleaseFrom, Unused, ClearMark;
    lo' := ReleaseFrees(maps, lo);
    ReleasedNotFailed(maps, ts, lo, lo');
    hide NoneFailed;
    var out := ReleaseFrom(maps, lo);
    GuardSame(maps, out, ts);
    forall t | 0 <= t < |ts|
      ensures ThreadOk(out, lo', ts[t])
    {
      if ts[t].handle.Some? {
        UsersSeen(ts, t, ts[t].handle.value);
        UnusedCount(maps, ts, lo, ts[t].handle.value);
      }
    }
    if lo' < |maps| {
      UnusedCount(maps, ts, lo, lo');
      if GuardSet(maps, ts, lo') {
        HolderUses(maps, ts, lo');
      }
    }
  }

  // A failed reopen leaves the guard set, and a map with the guard set is in use.
  ghost predicate NoneFailed(maps: seq<MMap>, lo: nat, hi: nat) {
    forall i :: lo <= i < hi && i < |maps| ==> !maps[i].failed
  }

  lemma ReleasedNotFailed(maps: seq<MMap>, ts: seq<Thread>, lo: nat, hi: nat)
    requires CountsOk(maps, ts, lo) && |ts| < MARK && lo < hi <= |maps| && maps[lo].refcnt == 0
    requires forall k :: lo < k < hi ==> Unused(maps[k].refcnt)
    ensures NoneFailed(maps, lo, hi)
  {
    hide Users, CountsOk, Unused;
    forall i | lo <= i < hi
      ensures !maps[i].failed
    {
      UnusedCount(maps, ts, lo, i);
    }
  }

  lemma UnusedCount(maps: seq<MMap>, ts: seq<Thread>, lo: nat, i: nat)
    requires CountsOk(maps, ts, lo) && lo <= i < |maps| && |ts| < MARK
    ensures Unused(maps[i].refcnt) <==> Users(ts, i) == 0 && !GuardSet(maps, ts, i)
    ensures ClearMark(maps[i].refcnt) == Users(ts, i) + if GuardSet(maps, ts, i) then GUARD else 0
    ensures i == lo ==> (maps[i].refcnt == 0 <==> Users(ts, i) == 0 && !GuardSet(maps, ts, i))
  {
    hide Users, GuardSet;
    CountParts(Users(ts, i), i > lo, GuardSet(maps, ts, i));
  }

  // The decrement, and the release it may cause
  lemma DropKeeps(maps: seq<MMap>, ts: seq<Thread>, lo: nat, h: nat) returns (lo': nat)
    requires Forward(maps) && Chain(maps, lo) && ThreadsOk(maps, ts, lo) && lo <= h < |maps|
    requires OneOver(maps, ts, lo, h) && (h != lo ==> OldestUsed(maps, ts, lo))
    ensures lo <= lo' && Chain(Drop(maps, h), lo') && ThreadsOk(Drop(maps, h), ts, lo')
    ensures CountsOk(Drop(maps, h), ts, lo') && OldestUsed(Drop(maps, h), ts, lo')
    ensures SameLinks(maps, Drop(maps, h)) && NoneFailed(maps, lo, lo')
  {
    hide Users, GuardSet, ReleaseFrom;
    var less := maps[h := maps[h].(refcnt := Minus(maps[h].refcnt))];
    GuardSame(maps, less, ts);
    assert CountsOk(less, ts, lo);
    lo' := lo;
    if less[h].refcnt == 0 {
      lo' := ReleaseKeeps(less, ts, lo);
    } else if h == lo && GuardSet(maps, ts, lo) {
      HolderUses(maps, ts, lo);
    }
  }

  lemma HolderUses(maps: seq<MMap>, ts: seq<Thread>, i: nat)
    requires i < |maps| && GuardSet(maps, ts, i)
    ensures maps[i].failed || Users(ts, i) > 0
  {
    if !maps[i].failed {
      var t :| 0 <= t < |ts| && Holds(ts[t], i);
      UsersSeen(ts, t, i);
    }
  }

  // ----- every step keeps the invariant

  lemma {:induction false} LastIsNewest(maps: seq<MMap>, lo: nat, h: nat)
    requires Forward(maps) && Chain(maps, lo) && h < |maps|
    ensures Last(maps, h) == |maps| - 1
    decreases |maps| - h
  {
    if h + 1 < |maps| {
      LastIsNewest(maps, lo, h + 1);
    }
  }

  // Thread t changes without taking or giving up a guard.
  lemma GuardsStay(maps: seq<MMap>, ts: seq<Thread>, t: nat, th: Thread)
    requires t < |ts| && forall i: nat :: !Holds(ts[t], i) && !Holds(th, i)
    ensures forall i :: 0 <= i < |maps| ==> GuardSet(maps, ts[t := th], i) == GuardSet(maps, ts, i)
  {
    var now := ts[t := th];
    forall i | 0 <= i < |maps|
      ensures GuardSet(maps, now, i) == GuardSet(maps, ts, i)
    {
      if u :| 0 <= u < |ts| && Holds(ts[u], i) {
        assert Holds(now[u], i);
      }
      if u :| 0 <= u < |now| && Holds(now[u], i) {
        assert Holds(ts[u], i);
      }
    }
  }

  // A registered thread moves from a superseded map to the newest: one handle less, one more.
  lemma MoveKeeps(s: Sys, lo: nat, t: nat, h: nat) returns (lo': nat)
    requires Inv(s, lo) && Forward(s.maps) && t < |s.threads| && h + 1 < |s.maps|
    requires s.threads[t].handle == Some(h) && (s.threads[t].pc.Ready? || s.threads[t].pc.Seen?)
    ensures lo <= lo' && Inv(Move(s, t, s.maps, h), lo')
    ensures SameLinks(s.maps, Move(s, t, s.maps, h).maps) && NoneFailed(s.maps, lo, lo')
    ensures Move(s, t, s.maps, h).threads == s.threads[t := Thread(Some(|s.maps| - 1), Ready)]
  {
    hide Users, GuardSet, Drop, Last;
    var maps, ts, l := s.maps, s.threads, |s.maps| - 1;
    LastIsNewest(maps, lo, h);
    var th := Thread(Some(l), Ready);
    var more := maps[l := maps[l].(refcnt := Plus(maps[l].refcnt))];
    GuardsStay(maps, ts, t, th);
    GuardSame(maps, more, ts[t := th]);
    forall i | lo <= i < |maps|
      ensures more[i].refcnt == Expected(more, ts[t := th], lo, i) + if i == h then 1 else 0
    {
      UsersUpdate(ts, t, th, i);
    }
    UsersUpdate(ts, t, th, lo);
    lo' := DropKeeps(more, ts[t := th], lo, h);
  }

  lemma RegisterKeeps(s: Sys, lo: nat, t: nat)
    requires Inv(s, lo) && Forward(s.maps) && t < |s.threads|
    requires s.threads[t].handle.None? && s.threads[t].pc.Ready? && lo < |s.maps|
    ensures Inv(Move(s, t, s.maps, Newest(s)), lo)
  {
    hide Users, GuardSet, Drop;
    var maps, ts, l := s.maps, s.threads, |s.maps| - 1;
    var th := Thread(Some(l), Ready);
    var more := maps[l := maps[l].(refcnt := Plus(maps[l].refcnt))];
    GuardsStay(maps, ts, t, th);
    GuardSame(maps, more, ts[t := th]);
    forall i | lo <= i < |maps|
      ensures more[i].refcnt == Expected(more, ts[t := th], lo, i)
    {
      UsersUpdate(ts, t, th, i);
    }
    UsersUpdate(ts, t, th, lo);
  }

  lemma UnregisterKeeps(s: Sys, lo: nat, t: nat, h: nat) returns (lo': nat)
    requires Inv(s, lo) && Forward(s.maps) && t < |s.threads|
    requires s.threads[t] == Thread(Some(h), Ready) && h < |s.maps|
    ensures lo <= lo' && Inv(SetThread(s, t, Drop(s.maps, h), None, Ready), lo')
    ensures SameLinks(s.maps, Drop(s.maps, h)) && NoneFailed(s.maps, lo, lo')
  {
    hide Users, GuardSet, Drop;
    var maps, ts, th := s.maps, s.threads, Thread(None, Ready);
    GuardsStay(maps, ts, t, th);
    forall i | lo <= i < |maps|
      ensures maps[i].refcnt == Expected(maps, ts[t := th], lo, i) + if i == h then 1 else 0
    {
      UsersUpdate(ts, t, th, i);
    }
    UsersUpdate(ts, t, th, lo);
    lo' := DropKeeps(maps, ts[t := th], lo, h);
  }

  // Only the program point of a thread changes.
  lemma PointKeeps(s: Sys, lo: nat, t: nat, pc: Pc)
    requires Inv(s, lo) && t < |s.threads| && s.threads[t].handle.Some?
    requires (s.threads[t].pc.Ready? || s.threads[t].pc.Seen?) && (pc.Ready? || pc.Seen?)
    requires pc.Seen? ==> s.threads[t].handle.value + 1 < |s.maps|
    ensures Inv(SetThread(s, t, s.maps, s.threads[t].handle, pc), lo)
  {
    hide Users, GuardSet;
    var maps, ts, th := s.maps, s.threads, Thread(s.threads[t].handle, pc);
    GuardsStay(maps, ts, t, th);
    forall i | lo <= i < |maps|
      ensures Users(ts[t := th], i) == Users(ts, i)
    {
      UsersUpdate(ts, t, th, i);
    }
  }

  lemma SetGuardKeeps(s: Sys, lo: nat, t: nat, h: nat)
    requires Inv(s, lo) && t < |s.threads| && s.threads[t] == Thread(Some(h), Ready)
    requires h < |s.maps| && s.maps[h].next.None? && !Guarded(s.maps[h].refcnt)
    ensures Inv(SetThread(s, t, s.maps[h := s.maps[h].(refcnt := SetGuard(s.maps[h].refcnt))], Some(h), Guarding), lo)
  {
    hide Users;
    var maps, ts, th := s.maps, s.threads, Thread(Some(h), Guarding);
    var set1 := maps[h := maps[h].(refcnt := SetGuard(maps[h].refcnt))];
    CountParts(Users(ts, h), h > lo, GuardSet(maps, ts, h));
    assert !GuardSet(maps, ts, h);
    forall i | lo <= i < |maps|
      ensures Users(ts[t := th], i) == Users(ts, i)
      ensures GuardSet(set1, ts[t := th], i) <==> i == h || GuardSet(maps, ts, i)
    {
      UsersUpdate(ts, t, th, i);
      assert Holds(ts[t := th][t], h);
      if u :| 0 <= u < |ts| && Holds(ts[u], i) {
        assert Holds(ts[t := th][u], i);
      }
    }
  }

  lemma PublishKeeps(s: Sys, lo: nat, t: nat, h: nat)
    requires Inv(s, lo) && t < |s.threads| && s.threads[t] == Thread(Some(h), Guarding) && h < |s.maps|
    ensures Inv(SetThread(s, t, s.maps[h := s.maps[h].(next := Some(|s.maps|))] + [MMap(MARK, None, false, false)],
                          Some(h), Published), lo)
  {
    hide Users;
    var maps, ts, th := s.maps, s.threads, Thread(Some(h), Published);
    var more := maps[h := maps[h].(next := Some(|maps|))] + [MMap(MARK, None, false, false)];
    assert Holds(ts[t], h) && Holds(ts[t := th][t], h);
    forall i | 0 <= i < |maps|
      ensures Users(ts[t := th], i) == Users(ts, i)
      ensures GuardSet(more, ts[t := th], i) <==> GuardSet(maps, ts, i)
    {
      UsersUpdate(ts, t, th, i);
      if u :| 0 <= u < |ts| && Holds(ts[u], i) {
        assert Holds(ts[t := th][u], i);
      }
    }
    UsersNone(ts[t := th], |maps|);
  }

  lemma FailKeeps(s: Sys, lo: nat, t: nat, h: nat)
    requires Inv(s, lo) && t < |s.threads| && s.threads[t] == Thread(Some(h), Guarding) && h < |s.maps|
    ensures Inv(SetThread(s, t, s.maps[h := s.maps[h].(failed := true)], Some(h), Ready), lo)
  {
    hide Users;
    var maps, ts, th := s.maps, s.threads, Thread(Some(h), Ready);
    var more := maps[h := maps[h].(failed := true)];
    assert Holds(ts[t], h);
    forall i | 0 <= i < |maps|
      ensures Users(ts[t := th], i) == Users(ts, i)
      ensures GuardSet(more, ts[t := th], i) <==> GuardSet(maps, ts, i)
    {
      UsersUpdate(ts, t, th, i);
      if u :| 0 <= u < |ts| && Holds(ts[u], i) && i != h {
        assert Holds(ts[t := th][u], i);
      }
    }
  }

  // The guard goes before the holder moves on.
  lemma ClearKeeps(s: Sys, lo: nat, t: nat, h: nat)
    requires Inv(s, lo) && t < |s.threads| && s.threads[t] == Thread(Some(h), Published) && h < |s.maps|
    ensures Inv(SetThread(s, t, s.maps[h := s.maps[h].(refcnt := ClearGuard(s.maps[h].refcnt))], Some(h), Seen), lo)
  {
    hide Users;
    var maps, ts, th := s.maps, s.threads, Thread(Some(h), Seen);
    var less := maps[h := maps[h].(refcnt := ClearGuard(maps[h].refcnt))];
    assert Holds(ts[t], h);
    CountParts(Users(ts, h), h > lo, true);
    forall i | 0 <= i < |maps|
      ensures Users(ts[t := th], i) == Users(ts, i)
      ensures GuardSet(less, ts[t := th], i) <==> i != h && GuardSet(maps, ts, i)
    {
      UsersUpdate(ts, t, th, i);
      if u :| 0 <= u < |ts| && Holds(ts[u], i) && i != h {
        assert Holds(ts[t := th][u], i);
      }
    }
  }

  lemma InvTyped(s: Sys, lo: nat)
    requires Inv(s, lo)
    ensures Typed(s)
  {
    forall t | 0 <= t < |s.threads| && s.threads[t].handle.Some?
      ensures s.threads[t].handle.value < |s.maps|
    {
      assert ThreadOk(s.maps, lo, s.threads[t]);
    }
  }

  // Links only ever appear: no live map's next returns to NULL.
  ghost predicate Later(was: seq<MMap>, now: seq<MMap>) {
    && |was| <= |now|
    && forall i :: 0 <= i < |was| && was[i].next.Some? ==> now[i].next == was[i].next
  }

  lemma StepKeeps(s: Sys, lo: nat, a: Action) returns (lo': nat)
    requires Inv(s, lo) && Typed(s) && Enabled(s, a)
    ensures lo <= lo' && Inv(Step(s, a), lo') && Later(s.maps, Step(s, a).maps)
    ensures NoneFailed(s.maps, 0, lo) ==> NoneFailed(Step(s, a).maps, 0, lo')
  {
    hide Users, CountsOk, OldestUsed, Drop, Move, SetThread, ThreadsOk;
    var t := a.t;
    lo' := lo;
    assert ThreadOk(s.maps, lo, s.threads[t]) by { ThreadIsOk(s, lo, t); }
    if a.Register? {
      RegisterKeeps(s, lo, t);
      MovedLinks(s, t, Newest(s));
    } else {
      var h := s.threads[t].handle.value;
      match a {
        case Unregister(_) =>
          lo' := UnregisterKeeps(s, lo, t, h);
          SetThreadMaps(s, t, Drop(s.maps, h), None, Ready);
        case RefreshTest(_) =>
          if s.maps[h].next.Some? {
            PointKeeps(s, lo, t, Seen);
            SetThreadMaps(s, t, s.maps, Some(h), Seen);
          }
        case RefreshMove(_) =>
          lo' := MoveKeeps(s, lo, t, h);
        case ReopenBegin(_) =>
          if s.maps[h].next.Some? {
            lo' := MoveKeeps(s, lo, t, h);
          } else if !Guarded(s.maps[h].refcnt) {
            SetGuardKeeps(s, lo, t, h);
            SetThreadMaps(s, t, s.maps[h := s.maps[h].(refcnt := SetGuard(s.maps[h].refcnt))], Some(h), Guarding);
          }
        case ReopenPublish(_) =>
          PublishKeeps(s, lo, t, h);
          SetThreadMaps(s, t, s.maps[h := s.maps[h].(next := Some(|s.maps|))] + [MMap(MARK, None, false, false)],
                        Some(h), Published);
        case ReopenFail(_) =>
          FailKeeps(s, lo, t, h);
          SetThreadMaps(s, t, s.maps[h := s.maps[h].(failed := true)], Some(h), Ready);
        case ReopenEnd(_) =>
          ClearKeeps(s, lo, t, h);
          var less := s.maps[h := s.maps[h].(refcnt := ClearGuard(s.maps[h].refcnt))];
          var mid := SetThread(s, t, less, Some(h), Seen);
          SetThreadMaps(s, t, less, Some(h), Seen);
          lo' := MoveKeeps(mid, lo, t, h);
          MidMove(s, t, less, h);
      }
    }
  }

  // What each step does to the thread that takes it, in numbers of maps: the newest one is the last.
  // The other threads are where they were.
  lemma StepThread(s: Sys, lo: nat, t: nat, h: nat)
    requires Inv(s, lo) && Typed(s) && t < |s.threads| && s.threads[t].handle == Some(h)
    ensures h < |s.maps|
    ensures var newest, was := Thread(Some(|s.maps| - 1), Ready), s.threads;
      match s.threads[t].pc
      case Ready =>
        && Enabled(s, Unregister(t)) && Step(s, Unregister(t)).threads == was[t := Thread(None, Ready)]
        && Enabled(s, RefreshTest(t))
        && Step(s, RefreshTest(t)).threads == was[t := Thread(Some(h), if h + 1 < |s.maps| then Seen else Ready)]
        && Enabled(s, ReopenBegin(t))
        && (h + 1 < |s.maps| ==> Step(s, ReopenBegin(t)).threads == was[t := newest])
        && (h + 1 == |s.maps| ==>
              Step(s, ReopenBegin(t)).threads
                == was[t := Thread(Some(h), if s.maps[h].refcnt < 0x8000_0000 then Guarding else Ready)])
      case Seen => Enabled(s, RefreshMove(t)) && Step(s, RefreshMove(t)).threads == was[t := newest]
      case Guarding =>
        && Enabled(s, ReopenPublish(t)) && Step(s, ReopenPublish(t)).threads == was[t := Thread(Some(h), Published)]
        && Enabled(s, ReopenFail(t)) && Step(s, ReopenFail(t)).threads == was[t := Thread(Some(h), Ready)]
      case Published => Enabled(s, ReopenEnd(t)) && Step(s, ReopenEnd(t)).threads == was[t := newest]
  {
    hide CountsOk, OldestUsed, Drop;
    ThreadIsOk(s, lo, t);
    LastIsNewest(s.maps, lo, h);
    if s.threads[t].pc.Published? {
      ClearKeeps(s, lo, t, h);
      LastIsNewest(s.maps[h := s.maps[h].(refcnt := ClearGuard(s.maps[h].refcnt))], lo, h);
    }
  }

  lemma StepRegisters(s: Sys, lo: nat, t: nat)
    requires Inv(s, lo) && Typed(s) && t < |s.threads| && s.threads[t].handle.None?
    ensures Enabled(s, Register(t)) <==> !s.maps[|s.maps| - 1].freed
    ensures Enabled(s, Register(t)) ==>
      Step(s, Register(t)).threads == s.threads[t := Thread(Some(|s.maps| - 1), Ready)]
  {
    hide CountsOk, OldestUsed, Drop;
    ThreadIsOk(s, lo, t);
  }

  lemma ThreadIsOk(s: Sys, lo: nat, t: nat)
    requires Inv(s, lo) && t < |s.threads|
    ensures ThreadOk(s.maps, lo, s.threads[t])
  {
  }

  lemma SetThreadMaps(s: Sys, t: nat, maps: seq<MMap>, handle: Option<nat>, pc: Pc)
    requires t < |s.threads|
    ensures SetThread(s, t, maps, handle, pc).maps == maps
    ensures SetThread(s, t, maps, handle, pc).threads == s.threads[t := Thread(handle, pc)]
  {
  }

  lemma MovedLinks(s: Sys, t: nat, h: nat)
    requires t < |s.threads| && Forward(s.maps) && h < |s.maps| && s.maps[h].next.None?
    ensures SameLinks(s.maps, Move(s, t, s.maps, h).maps)
  {
  }

  // Passing through the intermediate state is the same move.
  lemma MidMove(s: Sys, t: nat, less: seq<MMap>, h: nat)
    requires t < |s.threads| && Forward(less) && h < |less|
    ensures Move(SetThread(s, t, less, Some(h), Seen), t, less, h) == Move(s, t, less, h)
  {
    hide Incr;
    assert s.threads[t := Thread(Some(h), Seen)][t := Thread(Some(Incr(less, h).1), Ready)]
      == s.threads[t := Thread(Some(Incr(less, h).1), Ready)];
  }

  // ----- whole runs

  // mcdb_mmap_create by thread 0
  function Init(n: nat): Sys
    requires n > 0
  {
    Sys([MMap(1, None, false, false)], seq(n, t => Thread(if t == 0 then Some(0) else None, Ready)))
  }

  // Any interleaving: actions that are not enabled when their turn comes do nothing.
  function Run(s: Sys, actions: seq<Action>): Sys {
    if actions == [] then s
    else
      var m, a := Run(s, actions[..|actions| - 1]), actions[|actions| - 1];
      if Typed(m) && Enabled(m, a) then Step(m, a) else m
  }

  lemma {:induction false} InitInv(n: nat)
    requires 0 < n < MARK
    ensures Inv(Init(n), 0)
  {
    var ts := Init(n).threads;
    FirstUser(ts);
  }

  lemma {:induction false} FirstUser(ts: seq<Thread>)
    requires ts != [] && ts[0].handle == Some(0)
    requires forall t :: 0 < t < |ts| ==> ts[t].handle != Some(0)
    ensures Users(ts, 0) == 1
  {
    if |ts| > 1 {
      FirstUser(ts[..|ts| - 1]);
    } else {
      assert ts[..0] == [];
    }
  }

  lemma {:induction false} RunInv(n: nat, actions: seq<Action>) returns (lo: nat)
    requires 0 < n < MARK
    ensures Inv(Run(Init(n), actions), lo) && NoneFailed(Run(Init(n), actions).maps, 0, lo)
  {
    hide Inv, Step, Enabled, Init;
    if actions == [] {
      InitInv(n);
      lo := 0;
    } else {
      lo := RunInv(n, actions[..|actions| - 1]);
      var m, a := Run(Init(n), actions[..|actions| - 1]), actions[|actions| - 1];
      InvTyped(m, lo);
      if Enabled(m, a) {
        lo := StepKeeps(m, lo, a);
      }
    }
  }

  // Safety.  In every reachable state no registered handle is on a released map, a live map's low
  // 30 bits count its handles, exactly the oldest live map lacks bit 30, exactly those being
  // reopened, or whose reopen failed, have bit 31, and the live maps are linked in order of age.
  lemma Safety(n: nat, actions: seq<Action>)
    requires 0 < n < MARK
    ensures var s := Run(Init(n), actions);
      && (forall t :: 0 <= t < |s.threads| && s.threads[t].handle.Some? ==>
            s.threads[t].handle.value < |s.maps| && !s.maps[s.threads[t].handle.value].freed)
      && (forall i :: 0 <= i < |s.maps| && !s.maps[i].freed ==>
            && s.maps[i].refcnt % 0x4000_0000 == Users(s.threads, i)
            && (s.maps[i].refcnt / 0x4000_0000 % 2 == 0 <==> forall j :: 0 <= j < i ==> s.maps[j].freed)
            && (s.maps[i].refcnt >= 0x8000_0000 <==> GuardSet(s.maps, s.threads, i))
            && s.maps[i].next == if i + 1 < |s.maps| then Some(i + 1) else None)
      && (forall i, j :: 0 <= i < j < |s.maps| && s.maps[j].freed ==> s.maps[i].freed)
  {
    hide Run, Init, Users, GuardSet;
    var lo := RunInv(n, actions);
    var s := Run(Init(n), actions);
    forall i | lo <= i < |s.maps|
      ensures var r := s.maps[i].refcnt;
        && r % 0x4000_0000 == Users(s.threads, i) && (r / 0x4000_0000 % 2 == 0 <==> i == lo)
        && (r >= 0x8000_0000 <==> GuardSet(s.maps, s.threads, i))
    {
      CountParts(Users(s.threads, i), i > lo, GuardSet(s.maps, s.threads, i));
    }
    forall t | 0 <= t < |s.threads| && s.threads[t].handle.Some?
      ensures lo <= s.threads[t].handle.value < |s.maps|
    {
      ThreadIsOk(s, lo, t);
    }
  }

  // Reclamation.  When every thread has unregistered, exactly the maps before the first one with a
  // failed reopen have been released; so all have, if and only if no reopen has failed.
  lemma NoLeak(n: nat, actions: seq<Action>)
    requires 0 < n < MARK
    ensures var s := Run(Init(n), actions);
      (forall t :: 0 <= t < |s.threads| ==> s.threads[t].handle.None?) ==>
        && (forall i :: 0 <= i < |s.maps| ==> (s.maps[i].freed <==> forall j :: 0 <= j <= i ==> !s.maps[j].failed))
        && ((forall i :: 0 <= i < |s.maps| ==> s.maps[i].freed) <==> forall i :: 0 <= i < |s.maps| ==> !s.maps[i].failed)
  {
    hide Run, Init, CountsOk, ThreadsOk;
    var lo := RunInv(n, actions);
    var s := Run(Init(n), actions);
    if forall t :: 0 <= t < |s.threads| ==> s.threads[t].handle.None? {
      UsersNone(s.threads, lo);
    }
  }

  lemma RunStep(s: Sys, actions: seq<Action>, a: Action)
    requires Typed(Run(s, actions)) && Enabled(Run(s, actions), a)
    ensures Run(s, actions + [a]) == Step(Run(s, actions), a)
  {
    assert (actions + [a])[..|actions|] == actions;
  }

  // One thread whose reopen fails: it unregisters, and its map is never released.
  lemma FailedReopenLeaks()
    ensures var s := Run(Init(1), [ReopenBegin(0), ReopenFail(0), Unregister(0)]);
      && s.threads == [Thread(None, Ready)]
      && s.maps == [MMap(GUARD, None, false, true)]
  {
    var init := Init(1);
    assert init == Sys([MMap(1, None, false, false)], [Thread(Some(0), Ready)]);
    assert Run(init, []) == init;
    RunStep(init, [], ReopenBegin(0));
    var begun := Sys([MMap(GUARD + 1, None, false, false)], [Thread(Some(0), Guarding)]);
    assert Run(init, [ReopenBegin(0)]) == begun by {
      assert [] + [ReopenBegin(0)] == [ReopenBegin(0)];
    }
    RunStep(init, [ReopenBegin(0)], ReopenFail(0));
    var failed := Sys([MMap(GUARD + 1, None, false, true)], [Thread(Some(0), Ready)]);
    assert Run(init, [ReopenBegin(0), ReopenFail(0)]) == failed by {
      assert [ReopenBegin(0)] + [ReopenFail(0)] == [ReopenBegin(0), ReopenFail(0)];
    }
    RunStep(init, [ReopenBegin(0), ReopenFail(0)], Unregister(0));
    assert [ReopenBegin(0), ReopenFail(0)] + [Unregister(0)] == [ReopenBegin(0), ReopenFail(0), Unregister(0)];
  }

  // What has been released stays released, and links do not go away, as a run goes on.
  lemma {:induction false} RunForward(n: nat, actions: seq<Action>, more: seq<Action>) returns (lo: nat, lo': nat)
    requires 0 < n < MARK
    ensures Later(Run(Init(n), actions).maps, Run(Init(n), actions + more).maps)
    ensures Inv(Run(Init(n), actions), lo) && Inv(Run(Init(n), actions + more), lo') && lo <= lo'
    ensures forall i :: 0 <= i < |Run(Init(n), actions).maps| && Run(Init(n), actions).maps[i].freed ==>
      Run(Init(n), actions + more).maps[i].freed
    decreases |more|
  {
    hide Init, Step, Enabled, ThreadsOk, CountsOk, OldestUsed;
    if more == [] {
      assert actions + more == actions;
      lo := RunInv(n, actions);
      lo' := lo;
    } else {
      var init, a := more[..|more| - 1], more[|more| - 1];
      lo, lo' := RunForward(n, actions, init);
      assert (actions + more)[..|actions + more| - 1] == actions + init;
      var m := Run(Init(n), actions + init);
      InvTyped(m, lo');
      if Enabled(m, a) {
        lo' := StepKeeps(m, lo', a);
      }
    }
  }

  // ----- handles are conserved

  function Registered(ts: seq<Thread>): nat {
    if ts == [] then 0 else Registered(ts[..|ts| - 1]) + if ts[|ts| - 1].handle.Some? then 1 else 0
  }

  // Handles counted by the maps from lo on
  ghost function Held(maps: seq<MMap>, lo: nat): nat
    decreases |maps| - lo
  {
    if lo >= |maps| then 0 else Count(maps[lo].refcnt) + Held(maps, lo + 1)
  }

  ghost function UsersFrom(ts: seq<Thread>, lo: nat, hi: nat): nat
    decreases hi - lo
  {
    if lo >= hi then 0 else Users(ts, lo) + UsersFrom(ts, lo + 1, hi)
  }

  lemma {:induction false} UsersFromLast(ts: seq<Thread>, lo: nat, hi: nat)
    requires ts != []
    ensures var h := ts[|ts| - 1].handle;
      UsersFrom(ts, lo, hi)
        == UsersFrom(ts[..|ts| - 1], lo, hi) + if h.Some? && lo <= h.value < hi then 1 else 0
    decreases hi - lo
  {
    if lo < hi {
      UsersFromLast(ts, lo + 1, hi);
    }
  }

  lemma {:induction false} UsersFromAll(ts: seq<Thread>, lo: nat, hi: nat)
    requires forall t :: 0 <= t < |ts| && ts[t].handle.Some? ==> lo <= ts[t].handle.value < hi
    ensures UsersFrom(ts, lo, hi) == Registered(ts)
  {
    if ts == [] {
      NoUsers(lo, hi);
    } else {
      UsersFromLast(ts, lo, hi);
      UsersFromAll(ts[..|ts| - 1], lo, hi);
    }
  }

  lemma {:induction false} NoUsers(lo: nat, hi: nat)
    ensures UsersFrom([], lo, hi) == 0
    decreases hi - lo
  {
    if lo < hi {
      NoUsers(lo + 1, hi);
    }
  }

  lemma {:induction false} HeldIsUsers(maps: seq<MMap>, ts: seq<Thread>, lo: nat, i: nat)
    requires CountsOk(maps, ts, lo) && |ts| < MARK && lo <= i
    ensures Held(maps, i) == UsersFrom(ts, i, |maps|)
    decreases |maps| - i
  {
    hide Users, GuardSet, Count;
    if i < |maps| {
      CountParts(Users(ts, i), i > lo, GuardSet(maps, ts, i));
      HeldIsUsers(maps, ts, lo, i + 1);
    }
  }

  // The counts of the live maps add up to the number of registered threads: so a refresh, which
  // registers and unregisters no one, leaves the total as it was.
  lemma HandlesConserved(s: Sys, lo: nat)
    requires Inv(s, lo)
    ensures Held(s.maps, lo) == Registered(s.threads)
  {
    hide Users, GuardSet, OldestUsed;
    HeldIsUsers(s.maps, s.threads, lo, lo);
    forall t | 0 <= t < |s.threads| && s.threads[t].handle.Some?
      ensures lo <= s.threads[t].handle.value < |s.maps|
    {
      ThreadIsOk(s, lo, t);
    }
    UsersFromAll(s.threads, lo, |s.maps|);
  }

  // A refresh moves the thread to the newest map and leaves the other threads alone.
  lemma RefreshMoves(s: Sys, lo: nat, t: nat) returns (lo': nat)
    requires Inv(s, lo) && Typed(s) && Enabled(s, RefreshMove(t))
    ensures var s' := Step(s, RefreshMove(t));
      && s'.threads == s.threads[t := Thread(Some(Newest(s)), Ready)]
      && Inv(s', lo') && Held(s'.maps, lo') == Held(s.maps, lo)
  {
    hide CountsOk, OldestUsed, Drop, Move, Held;
    ThreadIsOk(s, lo, t);
    var h := s.threads[t].handle.value;
    lo' := MoveKeeps(s, lo, t, h);
    HandlesConserved(s, lo);
    HandlesConserved(Move(s, t, s.maps, h), lo');
    RegisteredSame(s.threads, t, Thread(Some(Newest(s)), Ready));
  }

  lemma {:induction false} RegisteredSame(ts: seq<Thread>, t: nat, th: Thread)
    requires t < |ts| && (ts[t].handle.Some? <==> th.handle.Some?)
    ensures Registered(ts[t := th]) == Registered(ts)
  {
    var n := |ts| - 1;
    if t == n {
      assert ts[t := th][..n] == ts[..n];
    } else {
      assert ts[t := th][..n] == ts[..n][t := th];
      RegisteredSame(ts[..n], t, th);
    }
  }

  // ----- a fresh registration must start from the newest map

  // mcdb_thread_register by a thread that is not registered, through a pointer to map p
  function RegisterAt(s: Sys, t: nat, p: nat): Sys
    requires Forward(s.maps) && t < |s.threads| && p < |s.maps|
  {
    Move(s, t, s.maps, p)
  }

  // On a superseded map the code takes back a reference that this thread never had: no oldest map
  // makes the invariant hold afterwards.
  lemma FreshRegistration(s: Sys, lo: nat, t: nat, p: nat)
    requires Inv(s, lo) && Typed(s) && t < |s.threads| && s.threads[t] == Thread(None, Ready)
    requires lo <= p < |s.maps|
    ensures (exists lo' :: Inv(RegisterAt(s, t, p), lo')) <==> p == Newest(s)
  {
    hide Inv, Move;
    if p == Newest(s) {
      RegisterKeeps(s, lo, t);
      assert Inv(RegisterAt(s, t, p), lo);
    } else {
      forall lo'
        ensures !Inv(RegisterAt(s, t, p), lo')
      {
        StaleBreaks(s, lo, t, p, lo');
      }
    }
  }

  lemma {:induction false} SomeUser(ts: seq<Thread>, i: nat) returns (t: nat)
    requires Users(ts, i) > 0
    ensures t < |ts| && ts[t].handle == Some(i)
  {
    t := |ts| - 1;
    if ts[t].handle != Some(i) {
      t := SomeUser(ts[..t], i);
    }
  }

  lemma StaleBreaks(s: Sys, lo: nat, t: nat, p: nat, lo': nat)
    requires Inv(s, lo) && Typed(s) && t < |s.threads| && s.threads[t] == Thread(None, Ready)
    requires lo <= p < |s.maps| - 1
    ensures !Inv(Move(s, t, s.maps, p), lo')
  {
    hide Users, GuardSet, ReleaseFrom, Last, OldestUsed;
    var maps, ts, l := s.maps, s.threads, |s.maps| - 1;
    LastIsNewest(maps, lo, p);
    var th := Thread(Some(l), Ready);
    var more := maps[l := maps[l].(refcnt := Plus(maps[l].refcnt))];
    var less := more[p := more[p].(refcnt := Minus(more[p].refcnt))];
    CountParts(Users(ts, p), p > lo, GuardSet(maps, ts, p));
    if less[p].refcnt == 0 {
      // the map is released under the threads that use it
      var j := ReleaseFrees(less, p);
      assert ReleaseFrom(less, p)[p] == AfterRelease(less, p, j, p);
      var u := SomeUser(ts, p);
      assert ts[t := th][u] == ts[u];
    } else {
      // its count is one too low
      GuardsStay(maps, ts, t, th);
      GuardSame(maps, less, ts[t := th]);
      UsersUpdate(ts, t, th, p);
      assert less[lo].freed == maps[lo].freed;
    }
  }

  // A thread that registers through map 0 while map 1 is already linked takes thread 0's count away.
  lemma StaleRegistrationUncounts()
    ensures var s := Run(Init(2), [ReopenBegin(0), ReopenPublish(0)]);
      && Typed(s) && |s.threads| == 2 && |s.maps| == 2 && s.threads[1].handle.None?
      && var after := RegisterAt(s, 1, 0);
         after.threads[0].handle == Some(0) && Count(after.maps[0].refcnt) == 0
  {
    hide Run, Init;
    GuardedByZero();
    RunStep(Init(2), [ReopenBegin(0)], ReopenPublish(0));
    assert [ReopenBegin(0)] + [ReopenPublish(0)] == [ReopenBegin(0), ReopenPublish(0)];
    var s := Sys([MMap(GUARD + 1, Some(1), false, false), MMap(MARK, None, false, false)],
                 [Thread(Some(0), Published), Thread(None, Ready)]);
    assert Run(Init(2), [ReopenBegin(0), ReopenPublish(0)]) == s;
    StaleMove(s);
  }

  lemma GuardedByZero()
    ensures Run(Init(2), [ReopenBegin(0)])
      == Sys([MMap(GUARD + 1, None, false, false)], [Thread(Some(0), Guarding), Thread(None, Ready)])
  {
    hide Run, Init;
    TwoThreads();
    RunStep(Init(2), [], ReopenBegin(0));
    assert [] + [ReopenBegin(0)] == [ReopenBegin(0)];
  }

  lemma TwoThreads()
    ensures Init(2) == Sys([MMap(1, None, false, false)], [Thread(Some(0), Ready), Thread(None, Ready)])
    ensures Run(Init(2), []) == Init(2)
  {
  }

  lemma StaleMove(s: Sys)
    requires s.maps == [MMap(GUARD + 1, Some(1), false, false), MMap(MARK, None, false, false)]
    requires s.threads == [Thread(Some(0), Published), Thread(None, Ready)]
    ensures Typed(s)
    ensures var after := RegisterAt(s, 1, 0);
      after.threads[0].handle == Some(0) && Count(after.maps[0].refcnt) == 0
  {
    hide ReleaseFrom;
    assert Last(s.maps, 0) == 1;
    var more := s.maps[1 := s.maps[1].(refcnt := MARK + 1)];
    assert Drop(more, 0) == more[0 := more[0].(refcnt := GUARD)];
    assert Incr(s.maps, 0) == (more[0 := more[0].(refcnt := GUARD)], 1);
  }

  // ----- several maps released at once

  function Reopen(t: nat): seq<Action> {
    [ReopenBegin(t), ReopenPublish(t), ReopenEnd(t)]
  }

  // While thread 0 stays where it is, thread 1 reopens the newest map h and moves on.
  lemma ReopenRun(init: Sys, acts: seq<Action>, s: Sys, h: nat)
    requires Run(init, acts) == s && Typed(s) && |s.maps| == h + 1 && |s.threads| == 2
    requires s.threads[1] == Thread(Some(h), Ready)
    requires s.maps[h].next.None? && 1 < s.maps[h].refcnt < GUARD
    ensures Run(init, acts + Reopen(1))
      == Sys(s.maps[h := s.maps[h].(refcnt := Minus(s.maps[h].refcnt), next := Some(h + 1))]
               + [MMap(MARK + 1, None, false, false)],
             s.threads[1 := Thread(Some(h + 1), Ready)])
  {
    hide Run;
    var guarded := s.maps[h].(refcnt := s.maps[h].refcnt + GUARD);
    var begun := Sys(s.maps[h := guarded], s.threads[1 := Thread(Some(h), Guarding)]);
    RunStep(init, acts, ReopenBegin(1));
    assert Run(init, acts + [ReopenBegin(1)]) == begun;
    RunStep(init, acts + [ReopenBegin(1)], ReopenPublish(1));
    var linked := Sys(s.maps[h := guarded.(next := Some(h + 1))] + [MMap(MARK, None, false, false)],
                      s.threads[1 := Thread(Some(h), Published)]);
    assert Run(init, acts + [ReopenBegin(1)] + [ReopenPublish(1)]) == linked by {
      assert begun.maps[h := guarded.(next := Some(h + 1))] == s.maps[h := guarded.(next := Some(h + 1))];
      assert begun.threads[1 := Thread(Some(h), Published)] == s.threads[1 := Thread(Some(h), Published)];
    }
    RunStep(init, acts + [ReopenBegin(1)] + [ReopenPublish(1)], ReopenEnd(1));
    assert acts + [ReopenBegin(1)] + [ReopenPublish(1)] + [ReopenEnd(1)] == acts + Reopen(1);
    ReopenEnds(s, linked, h);
  }

  lemma ReopenEnds(s: Sys, linked: Sys, h: nat)
    requires Typed(s) && |s.maps| == h + 1 && |s.threads| == 2 && 1 < s.maps[h].refcnt < GUARD
    requires linked.maps == s.maps[h := s.maps[h].(refcnt := s.maps[h].refcnt + GUARD, next := Some(h + 1))]
                              + [MMap(MARK, None, false, false)]
    requires linked.threads == s.threads[1 := Thread(Some(h), Published)]
    ensures Typed(linked) && Enabled(linked, ReopenEnd(1))
    ensures Step(linked, ReopenEnd(1))
      == Sys(s.maps[h := s.maps[h].(refcnt := Minus(s.maps[h].refcnt), next := Some(h + 1))]
               + [MMap(MARK + 1, None, false, false)],
             s.threads[1 := Thread(Some(h + 1), Ready)])
  {
    hide ReleaseFrom;
    var node := s.maps[h].(next := Some(h + 1));
    var cleared := linked.maps[h := node];
    assert Last(cleared, h) == h + 1;
    var more := cleared[h + 1 := MMap(MARK + 1, None, false, false)];
    assert Drop(more, h) == more[h := node.(refcnt := Minus(node.refcnt))];
  }

  // Thread 1 registers and reopens three times while thread 0 stays on map 0; then thread 0's
  // refresh finds three maps without users.
  function ThreeReopens(): seq<Action> {
    [Register(1)] + Reopen(1) + Reopen(1) + Reopen(1) + [RefreshTest(0)]
  }

  lemma BothRegistered()
    ensures Run(Init(2), [Register(1)])
      == Sys([MMap(2, None, false, false)], [Thread(Some(0), Ready), Thread(Some(0), Ready)])
  {
    hide Run, Init;
    TwoThreads();
    RunStep(Init(2), [], Register(1));
    assert [] + [Register(1)] == [Register(1)];
  }

  lemma AfterThreeReopens()
    ensures Run(Init(2), ThreeReopens())
      == Sys([MMap(1, Some(1), false, false), MMap(MARK, Some(2), false, false), MMap(MARK, Some(3), false, false),
              MMap(MARK + 1, None, false, false)],
             [Thread(Some(0), Seen), Thread(Some(3), Ready)])
  {
    hide Run, Init;
    BothRegistered();
    var init, acts := Init(2), [Register(1)];
    var s := Sys([MMap(2, None, false, false)], [Thread(Some(0), Ready), Thread(Some(0), Ready)]);
    ReopenRun(init, acts, s, 0);
    acts := acts + Reopen(1);
    var m0, m1 := MMap(1, Some(1), false, false), MMap(MARK + 1, None, false, false);
    s := Sys([m0, m1], [Thread(Some(0), Ready), Thread(Some(1), Ready)]);
    assert Run(init, acts) == s;
    ReopenRun(init, acts, s, 1);
    acts := acts + Reopen(1);
    var m2 := MMap(MARK, Some(2), false, false);
    s := Sys([m0, m2, m1], [Thread(Some(0), Ready), Thread(Some(2), Ready)]);
    assert Run(init, acts) == s;
    ReopenRun(init, acts, s, 2);
    acts := acts + Reopen(1);
    var m3 := MMap(MARK, Some(3), false, false);
    s := Sys([m0, m2, m3, m1], [Thread(Some(0), Ready), Thread(Some(3), Ready)]);
    assert Run(init, acts) == s;
    RunStep(init, acts, RefreshTest(0));
    assert acts + [RefreshTest(0)] == ThreeReopens();
  }

  lemma ThreeReleased()
    ensures |Run(Init(2), ThreeReopens()).maps| == 4
    ensures forall i :: 0 <= i < 4 ==> !Run(Init(2), ThreeReopens()).maps[i].freed
    ensures Run(Init(2), ThreeReopens() + [RefreshMove(0)]).maps
      == [MMap(0, Some(1), true, false), MMap(MARK, Some(2), true, false), MMap(MARK, Some(3), true, false),
          MMap(2, None, false, false)]
  {
    hide Run, ThreeReopens, Init, Step, Incr, Typed;
    AfterThreeReopens();
    var s := Run(Init(2), ThreeReopens());
    ThreeMoved(s.maps);
    RefreshMoveMaps(s, 0, 0);
    RunStep(Init(2), ThreeReopens(), RefreshMove(0));
  }

  lemma RefreshMoveMaps(s: Sys, t: nat, h: nat)
    requires t < |s.threads| && s.threads[t] == Thread(Some(h), Seen) && Forward(s.maps) && h < |s.maps|
    requires forall u :: 0 <= u < |s.threads| && s.threads[u].handle.Some? ==> s.threads[u].handle.value < |s.maps|
    ensures Typed(s) && Enabled(s, RefreshMove(t)) && Step(s, RefreshMove(t)).maps == Incr(s.maps, h).0
  {
    hide Incr;
  }

  lemma ThreeMoved(maps: seq<MMap>)
    requires maps == [MMap(1, Some(1), false, false), MMap(MARK, Some(2), false, false),
                      MMap(MARK, Some(3), false, false), MMap(MARK + 1, None, false, false)]
    ensures Forward(maps) && Incr(maps, 0).0
      == [MMap(0, Some(1), true, false), MMap(MARK, Some(2), true, false), MMap(MARK, Some(3), true, false),
          MMap(2, None, false, false)]
  {
    hide Drop;
    var more := [maps[0], maps[1], maps[2], MMap(MARK + 2, None, false, false)];
    assert Last(maps, 2) == 3 && Last(maps, 1) == 3 && Last(maps, 0) == 3;
    assert maps[3 := more[3]] == more;
    ThreeDropped(maps[0], maps[1], maps[2]);
  }

  lemma ThreeDropped(m0: MMap, m1: MMap, m2: MMap)
    requires m0 == MMap(1, Some(1), false, false)
    requires m1 == MMap(MARK, Some(2), false, false) && m2 == MMap(MARK, Some(3), false, false)
    ensures var more := [m0, m1, m2, MMap(MARK + 2, None, false, false)];
      Forward(more) && Drop(more, 0)
        == [m0.(refcnt := 0, freed := true), m1.(freed := true), m2.(freed := true), MMap(2, None, false, false)]
  {
    var more := [m0, m1, m2, MMap(MARK + 2, None, false, false)];
    var less := more[0 := m0.(refcnt := 0)];
    var a := less[0 := less[0].(freed := true)];
    var b := a[1 := m1.(freed := true)];
    var c := b[2 := m2.(freed := true)];
    assert ReleaseFrom(b, 2) == c[3 := MMap(2, None, false, false)];
    assert ReleaseFrom(a, 1) == ReleaseFrom(b, 2);
    assert ReleaseFrom(less, 0) == ReleaseFrom(a, 1);
  }
}
