// mcdb.c: mcdb_mmap_thread_registration on the linked maps themselves.  The section under the lock
// and the frees after it carry out one step of the state machine in Refresh.
module Registration {
  import opened Wrappers
  import opened Bytes
  import opened Refresh

  class LinkedMap {
    var refcnt: word
    var next: LinkedMap?
    var mapped: bool         // not yet handed to free

    constructor (r: word)
      ensures refcnt == r && next == null && mapped
    {
      refcnt, next, mapped := r, null, true;
    }
  }

  ghost predicate Linked(maps: seq<MMap>) {
    forall i :: 0 <= i < |maps| ==> maps[i].next == if i + 1 < |maps| then Some(i + 1) else None
  }

  ghost predicate Node(objs: seq<LinkedMap>, maps: seq<MMap>, i: nat)
    requires |objs| == |maps| && i < |objs|
    reads objs
  {
    && objs[i].mapped && objs[i].refcnt == maps[i].refcnt
    && objs[i].next == if i + 1 < |objs| then objs[i + 1] else null
  }

  // The objects are the live maps of the state.
  ghost predicate Mirrors(objs: seq<LinkedMap>, maps: seq<MMap>)
    reads objs
  {
    && |objs| == |maps| && Distinct(objs)
    && forall i :: 0 <= i < |objs| && !maps[i].freed ==> Node(objs, maps, i)
  }

  ghost predicate LiveFrom(maps: seq<MMap>, h: nat) {
    h < |maps| && Linked(maps) && forall i :: h <= i < |maps| ==> !maps[i].freed
  }

  function Reversed<T>(s: seq<T>): seq<T> {
    if s == [] then [] else Reversed(s[1..]) + [s[0]]
  }

  lemma {:induction false} ReversedLast<T>(s: seq<T>, x: T)
    ensures Reversed(s + [x]) == [x] + Reversed(s)
  {
    if s == [] {
      assert [x][1..] == [];
    } else {
      assert (s + [x])[1..] == s[1..] + [x];
      ReversedLast(s[1..], x);
    }
  }

  // Maps j and up after map h are the first still in use, or there is none.
  ghost predicate Stops(maps: seq<MMap>, h: nat, j: nat) {
    && h < j <= |maps|
    && (forall k :: h < k < j ==> Unused(maps[k].refcnt))
    && (j < |maps| ==> !Unused(maps[j].refcnt))
  }

  // What the release loop of the source hands to free: map h, then the unused maps after it, the
  // newest of them first
  ghost function FreeOrder(objs: seq<LinkedMap>, h: nat, j: nat): seq<LinkedMap>
    requires h < j <= |objs|
  {
    [objs[h]] + Reversed(objs[h + 1..j])
  }

  lemma StopsOnce(maps: seq<MMap>, h: nat, i: nat, j: nat)
    requires Stops(maps, h, i) && Stops(maps, h, j)
    ensures i == j
  {
    hide Unused;
  }

  lemma ReleaseIs(maps: seq<MMap>, h: nat, j: nat)
    requires LiveFrom(maps, h) && Stops(maps, h, j) && Forward(maps)
    ensures forall k :: 0 <= k < |maps| ==> ReleaseFrom(maps, h)[k] == AfterRelease(maps, h, j, k)
  {
    hide Unused, ReleaseFrom, AfterRelease;
    var i := ReleaseFrees(maps, h);
    StopsOnce(maps, h, i, j);
  }

  // ----- the release loops

  // A list of maps waiting to be freed
  ghost predicate Waiting(head: LinkedMap?, c: seq<LinkedMap>)
    reads c
  {
    && head == (if c == [] then null else c[0])
    && forall k {:trigger c[k].next} :: 0 <= k < |c| ==> c[k].next == if k + 1 < |c| then c[k + 1] else null
  }

  lemma {:induction false} ReversedHas<T>(s: seq<T>, x: T)
    ensures x in Reversed(s) <==> x in s
  {
    if s != [] {
      ReversedHas(s[1..], x);
    }
  }

  lemma Apart(objs: seq<LinkedMap>, h: nat, j: nat, k: nat)
    requires Distinct(objs) && h < j <= |objs| && k < |objs| && (k <= h || j <= k)
    ensures objs[k] !in Reversed(objs[h + 1..j])
  {
    ReversedHas(objs[h + 1..j], objs[k]);
  }

  lemma OneMore(objs: seq<LinkedMap>, h: nat, j: nat)
    requires h < j < |objs|
    ensures Reversed(objs[h + 1..j + 1]) == [objs[j]] + Reversed(objs[h + 1..j])
  {
    assert objs[h + 1..j + 1] == objs[h + 1..j] + [objs[j]];
    ReversedLast(objs[h + 1..j], objs[j]);
  }

  // Unlink map h and the unused maps after it; unmark the first one kept.
  method Unlink(m: LinkedMap, ghost objs: seq<LinkedMap>, ghost maps: seq<MMap>, ghost h: nat)
    returns (unmap: LinkedMap?, ghost j: nat)
    requires Mirrors(objs, maps) && LiveFrom(maps, h) && m == objs[h]
    modifies objs
    ensures Stops(maps, h, j) && Waiting(unmap, FreeOrder(objs, h, j))
    ensures forall k :: 0 <= k < |objs| && (k < h || j < k) ==> unchanged(objs[k])
    ensures j < |objs| ==> 
      objs[j].next == old(objs[j].next) && objs[j].refcnt == ClearMark(maps[j].refcnt) && objs[j].mapped
  {
    hide Reversed, Unused, ClearMark;
    unmap := null;
    j := h + 1;
    var next := m.next;
    assert Node(objs, maps, h);
    assert Reversed(objs[h + 1..j]) == [] by { assert objs[h + 1..j] == []; ReversedNone<LinkedMap>(); }
    while next != null && Unused(next.refcnt)
      invariant h < j <= |objs| && next == m.next == if j < |objs| then objs[j] else null
      invariant Waiting(unmap, Reversed(objs[h + 1..j]))
      invariant forall k :: h < k < j ==> Unused(maps[k].refcnt)
      invariant forall k :: 0 <= k < |objs| && (k < h || j <= k) ==> unchanged(objs[k])
      decreases |objs| - j
    {
      assert old(Node(objs, maps, j));
      assert Node(objs, maps, j);
      Apart(objs, h, j, j);
      Apart(objs, h, j, h);
      OneMore(objs, h, j);
      m.next := next.next;
      next.next := unmap;
      unmap := next;
      next := m.next;
      j := j + 1;
    }
    Apart(objs, h, j, h);
    if next != null {
      assert old(Node(objs, maps, j));
      assert Node(objs, maps, j);
      Apart(objs, h, j, j);
      next.refcnt := ClearMark(next.refcnt);
    }
    m.next := unmap;
    unmap := m;
  }

  lemma ReversedNone<T>()
    ensures Reversed<T>([]) == []
  {
  }

  // The frees, after the lock is released: every map waiting is unmapped.
  method FreeAll(unmap: LinkedMap?, ghost c: seq<LinkedMap>) returns (freed: seq<LinkedMap>)
    requires Waiting(unmap, c)
    modifies c`mapped
    ensures freed == c && forall o :: o in c ==> !o.mapped
  {
    freed := [];
    var next := unmap;
    ghost var n := 0;
    while next != null
      invariant 0 <= n <= |c| && next == (if n < |c| then c[n] else null) && freed == c[..n]
      invariant forall k :: 0 <= k < n ==> !c[k].mapped
      decreases |c| - n
    {
      freed := freed + [next];
      assert c[n].next == if n + 1 < |c| then c[n + 1] else null;
      next.mapped := false;
      next := next.next;
      n := n + 1;
    }
  }

  // Freed are exactly the maps that this step releases, each once: the oldest of them, then the
  // others from the newest back.
  ghost predicate FreedAre(objs: seq<LinkedMap>, was: seq<MMap>, now: seq<MMap>, h: nat, freed: seq<LinkedMap>)
    requires |objs| == |was| == |now| && h < |objs|
  {
    && Distinct(freed)
    && (freed != [] ==> exists j :: h < j <= |objs| && freed == FreeOrder(objs, h, j))
    && (forall k :: 0 <= k < |objs| ==> (objs[k] in freed <==> now[k].freed && !was[k].freed))
    && (forall m :: m in freed ==> m in objs)
  }

  lemma {:induction false} ReversedDistinct(s: seq<LinkedMap>)
    requires Distinct(s)
    ensures Distinct(Reversed(s))
  {
    if s != [] {
      ReversedDistinct(s[1..]);
      ReversedHas(s[1..], s[0]);
    }
  }

  lemma FreeOrderIs(objs: seq<LinkedMap>, was: seq<MMap>, now: seq<MMap>, h: nat, j: nat)
    requires |objs| == |was| == |now| && Distinct(objs) && h < j <= |objs|
    requires forall k :: 0 <= k < |objs| ==> (now[k].freed && !was[k].freed <==> h <= k < j)
    ensures FreedAre(objs, was, now, h, FreeOrder(objs, h, j))
  {
    hide Reversed;
    var rest := objs[h + 1..j];
    ReversedDistinct(rest);
    forall m: LinkedMap
      ensures m in Reversed(rest) <==> m in rest
    {
      ReversedHas(rest, m);
    }
    var all := FreeOrder(objs, h, j);
    assert objs[h] !in rest;
    forall i | 0 < i < |all|
      ensures all[i] != all[0]
    {
      assert all[i] == Reversed(rest)[i - 1];
      assert all[i] in Reversed(rest);
    }
    assert Distinct(all) by {
      assert all[1..] == Reversed(rest);
      forall a, b | 0 < a < b < |all|
        ensures all[a] != all[b]
      {
        assert all[a] == all[1..][a - 1] && all[b] == all[1..][b - 1];
      }
    }
    forall m | m in all
      ensures m in objs
    {
      assert m in rest ==> m in objs;
    }
    forall k | 0 <= k < |objs|
      ensures objs[k] in all <==> h <= k < j
    {
      assert h < k < j ==> objs[k] == rest[k - h - 1];
    }
  }

  lemma FreeOrderHas(objs: seq<LinkedMap>, h: nat, j: nat)
    requires Distinct(objs) && h < j <= |objs|
    ensures forall i :: 0 <= i < |FreeOrder(objs, h, j)| ==> FreeOrder(objs, h, j)[i] in objs
    ensures forall k :: 0 <= k < |objs| && (k < h || j <= k) ==> objs[k] !in FreeOrder(objs, h, j)
  {
    hide Reversed;
    var rest := objs[h + 1..j];
    forall o: LinkedMap
      ensures o in Reversed(rest) <==> o in rest
    {
      ReversedHas(rest, o);
    }
    assert objs[h] in objs && forall o :: o in rest ==> o in objs;
    forall i | 0 < i < |FreeOrder(objs, h, j)|
      ensures FreeOrder(objs, h, j)[i] in objs
    {
      var o := Reversed(rest)[i - 1];
      assert FreeOrder(objs, h, j)[i] == o && o in Reversed(rest);
      ReversedHas(rest, o);
    }
  }

  lemma FreeOrderDistinct(objs: seq<LinkedMap>, h: nat, j: nat)
    requires Distinct(objs) && h < j <= |objs|
    ensures |FreeOrder(objs, h, j)| == j - h
    ensures j > h + 1 ==> FreeOrder(objs, h, j)[1] == objs[j - 1]
  {
    hide Reversed;
    ReversedLength(objs[h + 1..j]);
    if j > h + 1 {
      OneMore(objs, h, j - 1);
    }
  }

  lemma {:induction false} ReversedLength<T>(s: seq<T>)
    ensures |Reversed(s)| == |s|
  {
    if s != [] {
      ReversedLength(s[1..]);
    }
  }

  // The frees follow the order in which the maps leave the chain exactly when at most two are freed.
  lemma FreedOldestFirst(objs: seq<LinkedMap>, h: nat, j: nat)
    requires Distinct(objs) && h < j <= |objs|
    ensures FreeOrder(objs, h, j) == objs[h..j] <==> j <= h + 2
  {
    hide Reversed;
    var all := FreeOrder(objs, h, j);
    FreeOrderDistinct(objs, h, j);
    if j > h + 2 {
      assert objs[h..j][1] == objs[h + 1] != objs[j - 1];
    } else {
      assert all == objs[h..j];
    }
  }

  // Which maps a decrement frees, and in which order, can be told before it: j is the first map
  // after h that is still in use.
  lemma DropOrder(objs: seq<LinkedMap>, maps: seq<MMap>, h: nat, j: nat, freed: seq<LinkedMap>)
    requires |objs| == |maps| && Distinct(objs) && LiveFrom(maps, h) && Forward(maps)
    requires Minus(maps[h].refcnt) == 0 && Stops(maps, h, j)
    requires FreedAre(objs, maps, Drop(maps, h), h, freed)
    ensures freed == FreeOrder(objs, h, j)
    ensures freed == objs[h..j] <==> j <= h + 2
  {
    hide Unused, Minus, ReleaseFrom, FreeOrder;
    var less := maps[h := maps[h].(refcnt := Minus(maps[h].refcnt))];
    ReleaseIs(less, h, j);
    assert objs[h] in freed;
    var i :| h < i <= |objs| && freed == FreeOrder(objs, h, i);
    FreeOrderMember(objs, h, i);
    SameEnd(objs, h, i, j, freed);
    FreedOldestFirst(objs, h, j);
  }

  lemma FreeOrderMember(objs: seq<LinkedMap>, h: nat, j: nat)
    requires Distinct(objs) && h < j <= |objs|
    ensures forall k :: 0 <= k < |objs| ==> (objs[k] in FreeOrder(objs, h, j) <==> h <= k < j)
  {
    hide Reversed;
    FreeOrderHas(objs, h, j);
    forall k | h < k < j
      ensures objs[k] in FreeOrder(objs, h, j)
    {
      assert objs[h + 1..j][k - h - 1] == objs[k];
      ReversedHas(objs[h + 1..j], objs[k]);
    }
  }

  lemma SameEnd(objs: seq<LinkedMap>, h: nat, i: nat, j: nat, freed: seq<LinkedMap>)
    requires h < i <= |objs| && h < j <= |objs|
    requires forall k :: 0 <= k < |objs| ==> (objs[k] in freed <==> h <= k < i)
    requires forall k :: 0 <= k < |objs| ==> (objs[k] in freed <==> h <= k < j)
    ensures i == j
  {
    var k := if i < j then i else if j < i then j else h;
    assert objs[k] in freed <==> h <= k < i;
  }

  // In the run of Refresh.ThreeReleased map 2 is freed ahead of map 1.
  lemma ThreeFreedOutOfOrder(objs: seq<LinkedMap>, was: seq<MMap>, now: seq<MMap>, freed: seq<LinkedMap>)
    requires was == Run(Init(2), ThreeReopens()).maps && now == Run(Init(2), ThreeReopens() + [RefreshMove(0)]).maps
    requires |objs| == |was| == |now| == 4 && Distinct(objs) && FreedAre(objs, was, now, 0, freed)
    ensures freed == [objs[0], objs[2], objs[1]]
  {
    hide FreeOrder, Run, Init, ThreeReopens;
    ThreeReleased();
    assert objs[0] in freed;
    var j :| 0 < j <= |objs| && freed == FreeOrder(objs, 0, j);
    FreeOrderMember(objs, 0, j);
    SameEnd(objs, 0, j, 3, freed);
    ThreeInOrder(objs);
  }

  lemma ThreeInOrder(objs: seq<LinkedMap>)
    requires |objs| == 4
    ensures FreeOrder(objs, 0, 3) == [objs[0], objs[2], objs[1]]
  {
    OneMore(objs, 0, 2);
    OneMore(objs, 0, 1);
    assert objs[1..1] == [];
  }

  // Take back one count; a map without counts is released.
  method Decrement(m: LinkedMap, ghost objs: seq<LinkedMap>, ghost maps: seq<MMap>, ghost h: nat)
    returns (zero: bool, freed: seq<LinkedMap>)
    requires Mirrors(objs, maps) && LiveFrom(maps, h) && m == objs[h] && Forward(maps)
    modifies objs
    ensures Mirrors(objs, Drop(maps, h)) && zero == Drop(maps, h)[h].freed
    ensures FreedAre(objs, maps, Drop(maps, h), h, freed) && forall o :: o in freed ==> !o.mapped
    ensures forall k :: 0 <= k < h ==> unchanged(objs[k])
  {
    hide FreedAre, FreeOrder, Waiting, ReleaseFrom, Unused, Minus;
    assert Node(objs, maps, h);
    m.refcnt := Minus(m.refcnt);
    zero := m.refcnt == 0;
    freed := [];
    ghost var less := maps[h := maps[h].(refcnt := Minus(maps[h].refcnt))];
    if zero {
      var unmap, j := Unlink(m, objs, less, h);
      ReleaseIs(less, h, j);
      FreeOrderIs(objs, maps, ReleaseFrom(less, h), h, j);
      FreeOrderHas(objs, h, j);
      freed := FreeAll(unmap, FreeOrder(objs, h, j));
      forall k | 0 <= k < |objs| && (k < h || j <= k) && !maps[k].freed
        ensures Node(objs, ReleaseFrom(less, h), k)
      {
        assert old(Node(objs, maps, k));
      }
    } else {
      NoneFreed(objs, maps, less, h);
    }
  }

  // mcdb_mmap_thread_registration: the new value of the caller's pointer, and the maps freed
  method Register(m: LinkedMap?, incr: bool, ghost objs: seq<LinkedMap>, ghost maps: seq<MMap>, ghost h: nat)
    returns (ok: bool, mapptr: LinkedMap?, freed: seq<LinkedMap>)
    requires m != null && (m.mapped || !incr) ==>
      Mirrors(objs, maps) && LiveFrom(maps, h) && m == objs[h] && Forward(maps)
    modifies objs
    ensures ok <==> !incr || (m != null && old(m.mapped))
    ensures m == null || !ok ==> mapptr == m && freed == [] && forall o :: o in objs ==> unchanged(o)
    ensures ok && m != null && incr ==>
      && Mirrors(objs, Incr(maps, h).0) && mapptr == objs[Incr(maps, h).1]
      && FreedAre(objs, maps, Incr(maps, h).0, h, freed)
    ensures ok && m != null && !incr ==>
      && Mirrors(objs, Drop(maps, h)) && mapptr == (if Drop(maps, h)[h].freed then null else m)
      && FreedAre(objs, maps, Drop(maps, h), h, freed)
    ensures forall o :: o in freed ==> !o.mapped
    ensures forall k :: 0 <= k < h && k < |objs| ==> unchanged(objs[k])
  {
    hide Incr, Drop, FreedAre, Mirrors;
    ok, mapptr, freed := true, m, [];
    if m == null || (!m.mapped && incr) {
      ok := !incr;
    } else if incr {
      mapptr, freed := Move(m, objs, maps, h);
    } else {
      var zero;
      zero, freed := Decrement(m, objs, maps, h);
      if zero {
        mapptr := null;
      }
    }
  }

  // In every state of a run the registration can be carried out on a thread's map.
  lemma RunAllows(n: nat, actions: seq<Action>, t: nat)
    requires 0 < n < MARK && t < |Run(Init(n), actions).threads|
    ensures var s := Run(Init(n), actions);
      Forward(s.maps) && (s.threads[t].handle.Some? ==> LiveFrom(s.maps, s.threads[t].handle.value))
  {
    hide Run, Init, CountsOk, OldestUsed;
    var lo := RunInv(n, actions);
    InvTyped(Run(Init(n), actions), lo);
    ThreadIsOk(Run(Init(n), actions), lo, t);
  }

  // ... when registering: count the caller on the newest map instead
  method Move(m: LinkedMap, ghost objs: seq<LinkedMap>, ghost maps: seq<MMap>, ghost h: nat)
    returns (mapptr: LinkedMap, freed: seq<LinkedMap>)
    requires Mirrors(objs, maps) && LiveFrom(maps, h) && m == objs[h] && Forward(maps)
    modifies objs
    ensures Mirrors(objs, Incr(maps, h).0) && mapptr == objs[Incr(maps, h).1]
    ensures FreedAre(objs, maps, Incr(maps, h).0, h, freed) && forall o :: o in freed ==> !o.mapped
    ensures forall k :: 0 <= k < h ==> unchanged(objs[k])
  {
    hide Plus, Minus, Drop, FreedAre;
    assert Node(objs, maps, h);
    mapptr, freed := m, [];
    if m.next == null {
      m.refcnt := Plus(m.refcnt);
      NoneFreed(objs, maps, Incr(maps, h).0, h);
    } else {
      var next: LinkedMap := m.next;
      ghost var l := h + 1;
      assert Node(objs, maps, l);
      while next.next != null
        invariant h < l < |objs| && next == objs[l] && Node(objs, maps, l) && Last(maps, h) == Last(maps, l)
        decreases |objs| - l
      {
        assert Node(objs, maps, l + 1);
        next := next.next;
        l := l + 1;
      }
      next.refcnt := Plus(next.refcnt);
      mapptr := next;
      ghost var more := maps[l := maps[l].(refcnt := Plus(maps[l].refcnt))];
      var zero;
      zero, freed := Decrement(m, objs, more, h);
      SameFreed(objs, maps, more, Drop(more, h), h, freed);
    }
  }

  lemma NoneFreed(objs: seq<LinkedMap>, was: seq<MMap>, now: seq<MMap>, h: nat)
    requires |objs| == |was| == |now| && h < |objs|
    requires forall k :: 0 <= k < |was| ==> now[k].freed == was[k].freed
    ensures FreedAre(objs, was, now, h, [])
  {
  }

  lemma SameFreed(objs: seq<LinkedMap>, was: seq<MMap>, mid: seq<MMap>, now: seq<MMap>, h: nat, freed: seq<LinkedMap>)
    requires |objs| == |was| == |mid| == |now| && h < |objs|
    requires forall k :: 0 <= k < |was| ==> mid[k].freed == was[k].freed
    requires FreedAre(objs, mid, now, h, freed)
    ensures FreedAre(objs, was, now, h, freed)
  {
  }
}
