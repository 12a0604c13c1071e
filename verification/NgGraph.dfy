// Netgroups as a graph: entry e >= 0 of a group is the number of a triple, entry -h < 0 is
// subgroup h.  The graph may be cyclic.
module NgGraph {
  import opened Wrappers
  import opened Uniq

  // The entry for subgroup h; groups are numbered from 1.
  function Sub(h: nat): int {
    0 - h as int
  }

  predicate WellFormed(ap: seq<seq<int>>, ntriples: nat) {
    forall g, k :: 0 <= g < |ap| && 0 <= k < |ap[g]| ==> Sub(|ap|) < ap[g][k] < ntriples
  }

  ghost predicate Path(ap: seq<seq<int>>, p: seq<nat>, a: nat, b: nat) {
    && p != [] && p[0] == a && p[|p| - 1] == b
    && (forall k :: 0 <= k < |p| ==> 0 < p[k] < |ap|)
    && (forall k :: 0 < k < |p| ==> Sub(p[k]) in ap[p[k - 1]])
  }

  ghost predicate Reaches(ap: seq<seq<int>>, a: nat, b: nat) {
    exists p: seq<nat> :: Path(ap, p, a, b)
  }

  // e is an entry of a group that root reaches.
  ghost predicate InReach(ap: seq<seq<int>>, root: nat, e: int) {
    exists g: nat :: g < |ap| && Reaches(ap, root, g) && e in ap[g]
  }

  // What the flattened form of a netgroup must be: its own list when it has no subgroup, and
  // otherwise every triple in reach exactly once
  ghost predicate Flattened(ap: seq<seq<int>>, root: nat, out: seq<int>)
    requires root < |ap|
  {
    if Plain(ap[root]) then out == ap[root]
    else
      && Distinct(out) && (forall e :: e in out <==> e >= 0 && InReach(ap, root, e))
      && out == Trail(ap, ap[root], {Sub(root)})
  }

  // The triples met when `work` is gone through from the front and every subgroup is replaced by its
  // entries; whatever has been seen is passed over.
  ghost function Trail(ap: seq<seq<int>>, work: seq<int>, seen: set<int>): seq<int>
    decreases |Unvisited(|ap|, seen)|, |work|
  {
    if work == [] then []
    else
      var e, rest := work[0], work[1..];
      if e in seen then Trail(ap, rest, seen)
      else if e >= 0 then
        UnvisitedSame(|ap|, seen, e);
        [e] + Trail(ap, rest, seen + {e})
      else if 0 - e < |ap| then
        VisitShrinks(|ap|, seen, seen + {e}, 0 - e);
        Trail(ap, ap[0 - e] + rest, seen + {e})
      else []
  }

  lemma UnvisitedSame(n: nat, ids: set<int>, e: nat)
    ensures Unvisited(n, ids + {e}) == Unvisited(n, ids)
  {
  }

  // Going through `work` first emits `more`, whatever comes after it.
  ghost predicate Trailed(ap: seq<seq<int>>, work: seq<int>, was: set<int>, now: set<int>, more: seq<int>) {
    forall rest :: Trail(ap, work + rest, was) == more + Trail(ap, rest, now)
  }

  lemma TrailNone(ap: seq<seq<int>>, ids: set<int>)
    ensures Trailed(ap, [], ids, ids, [])
  {
    hide Trail;
    forall rest
      ensures Trail(ap, [] + rest, ids) == [] + Trail(ap, rest, ids)
    {
      assert [] + rest == rest;
    }
  }

  lemma TrailOne(ap: seq<seq<int>>, e: int, was: set<int>)
    ensures e in was ==> Trailed(ap, [e], was, was, [])
    ensures e >= 0 && e !in was ==> Trailed(ap, [e], was, was + {e}, [e])
  {
    forall rest
      ensures e in was ==> Trail(ap, [e] + rest, was) == [] + Trail(ap, rest, was)
      ensures e >= 0 && e !in was ==> Trail(ap, [e] + rest, was) == [e] + Trail(ap, rest, was + {e})
    {
      assert ([e] + rest)[1..] == rest;
    }
  }

  lemma TrailEnters(ap: seq<seq<int>>, h: nat, rest: seq<int>, was: set<int>)
    requires 0 < h < |ap| && Sub(h) !in was
    ensures Trail(ap, [Sub(h)] + rest, was) == Trail(ap, ap[h] + rest, was + {Sub(h)})
  {
    assert ([Sub(h)] + rest)[1..] == rest;
  }

  lemma TrailGroup(ap: seq<seq<int>>, h: nat, was: set<int>, now: set<int>, more: seq<int>)
    requires 0 < h < |ap| && Sub(h) !in was && Trailed(ap, ap[h], was + {Sub(h)}, now, more)
    ensures Trailed(ap, [Sub(h)], was, now, more)
  {
    hide Trail;
    forall rest
      ensures Trail(ap, [Sub(h)] + rest, was) == more + Trail(ap, rest, now)
    {
      TrailEnters(ap, h, rest, was);
    }
  }

  lemma TrailJoin(ap: seq<seq<int>>, a: seq<int>, b: seq<int>, x: set<int>, y: set<int>, z: set<int>,
                  more: seq<int>, last: seq<int>)
    requires Trailed(ap, a, x, y, more) && Trailed(ap, b, y, z, last)
    ensures Trailed(ap, a + b, x, z, more + last)
  {
    hide Trail;
    forall rest
      ensures Trail(ap, (a + b) + rest, x) == (more + last) + Trail(ap, rest, z)
    {
      assert (a + b) + rest == a + (b + rest);
      assert (more + last) + Trail(ap, rest, z) == more + (last + Trail(ap, rest, z));
    }
  }

  // So the whole of it is this.
  lemma TrailWhole(ap: seq<seq<int>>, work: seq<int>, was: set<int>, now: set<int>, more: seq<int>)
    requires Trailed(ap, work, was, now, more)
    ensures Trail(ap, work, was) == more
  {
    assert work + [] == work && Trail(ap, [], now) == [];
  }

  predicate Plain(es: seq<int>) {
    forall k :: 0 <= k < |es| ==> es[k] >= 0
  }

  lemma ReachesSelf(ap: seq<seq<int>>, a: nat)
    requires 0 < a < |ap|
    ensures Reaches(ap, a, a)
  {
    assert Path(ap, [a], a, a);
  }

  lemma ReachesMore(ap: seq<seq<int>>, a: nat, b: nat, c: nat)
    requires Reaches(ap, a, b) && b < |ap| && 0 < c < |ap| && Sub(c) in ap[b]
    ensures Reaches(ap, a, c)
  {
    var p: seq<nat> :| Path(ap, p, a, b);
    assert Path(ap, p + [c], a, c);
  }

  // A set of ids that holds a group and, with every group, its entries holds all it reaches.
  ghost predicate Done(ap: seq<seq<int>>, h: nat, ids: set<int>)
    requires h < |ap|
  {
    forall k :: 0 <= k < |ap[h]| ==> ap[h][k] in ids
  }

  ghost predicate Closed(ap: seq<seq<int>>, ids: set<int>) {
    forall h: nat :: 0 < h < |ap| && Sub(h) in ids ==> Done(ap, h, ids)
  }

  lemma {:induction false} ClosedPath(ap: seq<seq<int>>, p: seq<nat>, a: nat, b: nat, ids: set<int>)
    requires Path(ap, p, a, b) && Sub(a) in ids && Closed(ap, ids)
    ensures Sub(b) in ids
    decreases |p|
  {
    if |p| > 1 {
      assert Done(ap, a, ids) && Sub(p[1]) in ap[p[0]];
      forall k | 0 < k < |p[1..]|
        ensures Sub(p[1..][k]) in ap[p[1..][k - 1]]
      {
        assert Sub(p[k + 1]) in ap[p[k]];
      }
      ClosedPath(ap, p[1..], p[1], b, ids);
    }
  }

  lemma ClosedReach(ap: seq<seq<int>>, root: nat, ids: set<int>, e: int)
    requires Sub(root) in ids && Closed(ap, ids) && InReach(ap, root, e)
    ensures e in ids
  {
    var g: nat :| g < |ap| && Reaches(ap, root, g) && e in ap[g];
    var p: seq<nat> :| Path(ap, p, root, g);
    ClosedPath(ap, p, root, g, ids);
    assert Done(ap, g, ids);
  }

  // A path leaves its first group through a subgroup.
  lemma PathStart(ap: seq<seq<int>>, p: seq<nat>, a: nat, b: nat)
    requires Path(ap, p, a, b)
    ensures b == a || exists e :: e in ap[a] && e < 0
  {
    if |p| > 1 {
      assert Sub(p[1]) in ap[p[0]];
    }
  }

  // A netgroup without subgroups reaches nothing else.
  lemma PlainReach(ap: seq<seq<int>>, root: nat, e: int)
    requires 0 < root < |ap| && Plain(ap[root])
    ensures InReach(ap, root, e) <==> e in ap[root]
  {
    ReachesSelf(ap, root);
    if InReach(ap, root, e) {
      var g: nat :| g < |ap| && Reaches(ap, root, g) && e in ap[g];
      var p: seq<nat> :| Path(ap, p, root, g);
      PathStart(ap, p, root, g);
    }
  }

  // Either way the flattened form has exactly the triples in reach.
  lemma FlattenedMembers(ap: seq<seq<int>>, root: nat, out: seq<int>, e: int)
    requires 0 < root < |ap| && Flattened(ap, root, out)
    ensures e in out <==> e >= 0 && InReach(ap, root, e)
  {
    if Plain(ap[root]) {
      PlainReach(ap, root, e);
    }
  }

  // ----- groups still to be visited, which bound the recursion

  ghost function Unvisited(n: nat, ids: set<int>): set<nat> {
    set h: nat | 0 < h < n && Sub(h) !in ids
  }

  lemma VisitShrinks(n: nat, was: set<int>, now: set<int>, h: nat)
    requires was <= now && 0 < h < n && Sub(h) !in was && Sub(h) in now
    ensures |Unvisited(n, now)| < |Unvisited(n, was)|
  {
    CardinalityMonotone(Unvisited(n, now), Unvisited(n, was) - {h});
  }
}
