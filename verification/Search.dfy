// What a lookup returns, stated on the list of added records.
module Search {
  import opened Wrappers
  import opened Bytes
  import opened Uint32
  import opened ProbeTable
  import opened Layout

  // Numbers of the records of slot s, in the order they are placed in its table
  function Placed(recs: seq<Rec>, s: nat): (idx: seq<nat>)
    ensures |idx| == |Members(recs, s)|
    ensures forall j :: 0 <= j < |idx| ==> idx[j] < |recs|
    ensures multiset(idx) == multiset(Members(recs, s))
  {
    var idx := Placement(Members(recs, s));
    PlacementPermutes(Members(recs, s));
    assert forall j :: 0 <= j < |idx| ==> idx[j] in multiset(Members(recs, s));
    idx
  }

  lemma SlotEntries(recs: seq<Rec>, s: nat)
    requires s < SLOTS
    ensures Describes(recs, Placed(recs, s), SlotsOf(recs)[s])
  {
    PlacementDescribes(recs, Members(recs, s), HpsOf(recs, Members(recs, s)));
  }

  // Those of the records idx whose stored key is k
  function WithKey(recs: seq<Rec>, idx: seq<nat>, k: seq<byte>): (hits: seq<nat>)
    requires forall j :: 0 <= j < |idx| ==> idx[j] < |recs|
    ensures forall i :: i in hits <==> i in idx && recs[i].key == k
  {
    if idx == [] then []
    else
      var n := |idx| - 1;
      WithKey(recs, idx[..n], k) + if recs[idx[n]].key == k then [idx[n]] else []
  }

  // The answer to a lookup of the stored key k: record numbers in placement order
  function Matches(recs: seq<Rec>, k: seq<byte>): (hits: seq<nat>)
    ensures forall j :: 0 <= j < |hits| ==> hits[j] < |recs|
  {
    var hits := WithKey(recs, Placed(recs, Slot(Hash(k))), k);
    assert forall j :: 0 <= j < |hits| ==> hits[j] in hits;
    hits
  }

  lemma {:induction false} WithKeyMultiset(recs: seq<Rec>, idx: seq<nat>, k: seq<byte>, i: nat)
    requires forall j :: 0 <= j < |idx| ==> idx[j] < |recs|
    ensures multiset(WithKey(recs, idx, k))[i] <= multiset(idx)[i]
  {
    if idx != [] {
      var n := |idx| - 1;
      assert idx == idx[..n] + [idx[n]];
      WithKeyMultiset(recs, idx[..n], k, i);
    }
  }

  lemma {:induction false} AtMostOnceIsDistinct(s: seq<nat>)
    requires forall i :: multiset(s)[i] <= 1
    ensures Distinct(s)
  {
    forall i, j | 0 <= i < j < |s|
      ensures s[i] != s[j]
    {
      assert s == s[..i] + [s[i]] + s[i + 1..j] + [s[j]] + s[j + 1..];
      assert multiset(s)[s[i]] <= 1;
    }
  }

  lemma {:induction false} AscendingOnce(s: seq<nat>, i: nat)
    requires Ascending(s)
    ensures multiset(s)[i] <= 1
  {
    if s != [] {
      var n := |s| - 1;
      assert s == s[..n] + [s[n]];
      assert multiset(s) == multiset(s[..n]) + multiset{s[n]};
      AscendingOnce(s[..n], i);
      if i == s[n] {
        assert i !in s[..n];
      }
    }
  }

  lemma PlacedDistinct(recs: seq<Rec>, s: nat)
    ensures Distinct(Placed(recs, s))
  {
    hide Members;
    forall i: nat
      ensures multiset(Placed(recs, s))[i] <= 1
    {
      AscendingOnce(Members(recs, s), i);
    }
    AtMostOnceIsDistinct(Placed(recs, s));
  }

  // A lookup returns exactly the records stored under the key, each once.
  lemma MatchesAreTheRecords(recs: seq<Rec>, k: seq<byte>)
    ensures forall i :: i in Matches(recs, k) <==> 0 <= i < |recs| && recs[i].key == k
    ensures Distinct(Matches(recs, k))
  {
    var s := Slot(Hash(k));
    var idx, members := Placed(recs, s), Members(recs, s);
    forall i | 0 <= i < |recs| && recs[i].key == k
      ensures i in idx
    {
      assert i in multiset(members);
    }
    forall i: nat
      ensures multiset(Matches(recs, k))[i] <= 1
    {
      WithKeyMultiset(recs, idx, k, i);
      AscendingOnce(members, i);
    }
    AtMostOnceIsDistinct(Matches(recs, k));
  }

  lemma {:induction false} WithKeyAscending(recs: seq<Rec>, idx: seq<nat>, k: seq<byte>)
    requires forall j :: 0 <= j < |idx| ==> idx[j] < |recs|
    requires Ascending(idx)
    ensures Ascending(WithKey(recs, idx, k))
  {
    if idx != [] {
      var n := |idx| - 1;
      WithKeyAscending(recs, idx[..n], k);
      var hits := WithKey(recs, idx[..n], k);
      forall j | 0 <= j < |hits|
        ensures hits[j] < idx[n]
      {
        assert hits[j] in idx[..n];
      }
    }
  }

  // ----- the order of duplicates

  lemma {:induction false} WithKeyConcat(recs: seq<Rec>, a: seq<nat>, b: seq<nat>, k: seq<byte>)
    requires forall j :: 0 <= j < |a| ==> a[j] < |recs|
    requires forall j :: 0 <= j < |b| ==> b[j] < |recs|
    ensures WithKey(recs, a + b, k) == WithKey(recs, a, k) + WithKey(recs, b, k)
  {
    if b == [] {
      assert a + b == a && WithKey(recs, b, k) == [];
    } else {
      hide WithKey;
      var n := |b| - 1;
      var init, ab := b[..n], a + b;
      AppendInit(a, b);
      WithKeyLast(recs, ab, k);
      WithKeyLast(recs, b, k);
      WithKeyConcat(recs, a, init, k);
      AppendThree(WithKey(recs, a, k), WithKey(recs, init, k), if recs[b[n]].key == k then [b[n]] else []);
    }
  }

  lemma AppendInit(a: seq<nat>, b: seq<nat>)
    requires b != []
    ensures var ab := a + b; ab[..|ab| - 1] == a + b[..|b| - 1] && ab[|ab| - 1] == b[|b| - 1]
  {
  }

  lemma AppendThree(a: seq<nat>, b: seq<nat>, c: seq<nat>)
    ensures (a + b) + c == a + (b + c)
  {
  }

  // Of the entries xs of a slot, all that have key k lie in one block.
  ghost predicate OneBlock(recs: seq<Rec>, xs: seq<nat>, k: seq<byte>) {
    forall a, b :: 0 <= a < b < |xs| && HasKeyAt(recs, xs[a], k) && HasKeyAt(recs, xs[b], k) ==> a / 250 == b / 250
  }

  predicate HasKeyAt(recs: seq<Rec>, i: nat, k: seq<byte>) {
    i < |recs| && recs[i].key == k
  }

  predicate NoneHas(recs: seq<Rec>, xs: seq<nat>, k: seq<byte>) {
    forall j :: 0 <= j < |xs| ==> !HasKeyAt(recs, xs[j], k)
  }

  lemma AscendingConcat(a: seq<nat>, b: seq<nat>)
    requires Ascending(a) && forall i, j :: i in a && j in b ==> j < i
    ensures Ascending(a + b) <==> Ascending(b) && (a == [] || b == [])
  {
    var c := a + b;
    assert forall j :: 0 <= j < |b| ==> c[|a| + j] == b[j];
    if a != [] && b != [] {
      assert c[0] == a[0] && c[|a|] == b[0] && a[0] in a && b[0] in b;
    } else if a == [] {
      assert c == b;
    } else {
      assert c == a;
    }
  }

  // The last block against the ones before it
  lemma OneBlockSplit(recs: seq<Rec>, xs: seq<nat>, k: seq<byte>, full: nat)
    requires full % HPLIST == 0 && full < |xs| <= full + HPLIST
    ensures OneBlock(recs, xs, k) <==>
      OneBlock(recs, xs[..full], k) && (NoneHas(recs, xs[..full], k) || NoneHas(recs, xs[full..], k))
  {
    hide HasKeyAt;
    var head, last := xs[..full], xs[full..];
    forall a, b | 0 <= a < full <= b < |xs|
      ensures a / HPLIST < b / HPLIST
    {
    }
    forall a, b | full <= a < b < |xs|
      ensures a / 250 == b / 250
    {
    }
    assert forall j :: 0 <= j < |last| ==> last[j] == xs[full + j];
    assert forall b :: full <= b < |xs| ==> xs[b] == last[b - full];
    if OneBlock(recs, xs, k) {
      forall a, b | 0 <= a < b < full && HasKeyAt(recs, head[a], k) && HasKeyAt(recs, head[b], k)
        ensures a / 250 == b / 250
      {
        assert HasKeyAt(recs, xs[a], k) && HasKeyAt(recs, xs[b], k);
      }
      if a :| 0 <= a < full && HasKeyAt(recs, head[a], k) {
        forall j | 0 <= j < |last|
          ensures !HasKeyAt(recs, last[j], k)
        {
          assert HasKeyAt(recs, xs[a], k) && a / HPLIST < (full + j) / HPLIST && last[j] == xs[full + j];
        }
      }
    }
    if OneBlock(recs, head, k) && (NoneHas(recs, head, k) || NoneHas(recs, last, k)) {
      forall a, b | 0 <= a < b < |xs| && HasKeyAt(recs, xs[a], k) && HasKeyAt(recs, xs[b], k)
        ensures a / 250 == b / 250
      {
        assert b < full ==> HasKeyAt(recs, head[a], k) && HasKeyAt(recs, head[b], k);
        assert a < full ==> HasKeyAt(recs, head[a], k);
        assert b >= full ==> HasKeyAt(recs, last[b - full], k);
      }
    }
  }

  lemma WithKeyNone(recs: seq<Rec>, xs: seq<nat>, k: seq<byte>)
    requires forall j :: 0 <= j < |xs| ==> xs[j] < |recs|
    ensures WithKey(recs, xs, k) == [] <==> NoneHas(recs, xs, k)
  {
    var hits := WithKey(recs, xs, k);
    if hits != [] {
      assert hits[0] in hits;
    }
    forall j | 0 <= j < |xs| && HasKeyAt(recs, xs[j], k)
      ensures hits != []
    {
      assert xs[j] in hits;
    }
  }

  lemma PlacedMembers(xs: seq<nat>, n: nat)
    requires forall j :: 0 <= j < |xs| ==> xs[j] < n
    ensures forall j :: 0 <= j < |Placement<nat>(xs)| ==> Placement<nat>(xs)[j] < n
    ensures forall i :: i in Placement<nat>(xs) <==> i in xs
  {
    hide Placement;
    PlacementPermutes<nat>(xs);
    var ps := Placement<nat>(xs);
    forall i
      ensures i in ps <==> i in xs
    {
      assert i in multiset(ps) <==> i in multiset(xs);
    }
    assert forall j :: 0 <= j < |ps| ==> ps[j] in ps;
  }

  // The entries of one key keep their order in placement exactly when they share a block.
  lemma {:induction false} PlacementOrder(recs: seq<Rec>, xs: seq<nat>, k: seq<byte>)
    requires Ascending(xs) && forall j :: 0 <= j < |xs| ==> xs[j] < |recs|
    ensures forall j :: 0 <= j < |Placement<nat>(xs)| ==> Placement<nat>(xs)[j] < |recs|
    ensures Ascending(WithKey(recs, Placement<nat>(xs), k)) <==> OneBlock(recs, xs, k)
    decreases |xs|
  {
    PlacedMembers(xs, |recs|);
    hide OneBlock, WithKey, HasKeyAt, NoneHas, Ascending, Placement, Earlier;
    if |xs| <= HPLIST {
      PlacementParts(xs);
      WithKeyAscending(recs, xs, k);
      ShortBlock(recs, xs, k);
    } else {
      var full := Earlier(xs);
      EarlierIs(xs);
      var head, last := xs[..full], xs[full..];
      PlacementOrder(recs, head, k);
      LastBlockFirst(xs, head, last);
      PlacedMembers(head, |recs|);
      OrderStep(recs, last, Placement<nat>(head), k);
      OneBlockSplit(recs, xs, k, full);
      SameMembers(recs, Placement<nat>(head), head, k);
    }
  }

  lemma EarlierIs(xs: seq<nat>)
    requires |xs| > HPLIST
    ensures Earlier(xs) % HPLIST == 0 && Earlier(xs) < |xs| <= Earlier(xs) + HPLIST
  {
  }

  lemma LastBlockFirst(xs: seq<nat>, head: seq<nat>, last: seq<nat>)
    requires Ascending(xs) && |xs| > HPLIST && head == xs[..Earlier(xs)] && last == xs[Earlier(xs)..]
    ensures Placement<nat>(xs) == last + Placement<nat>(head)
    ensures Ascending(last) && Ascending(head) && forall i, j :: i in last && j in head ==> j < i
    ensures (forall i :: i in last ==> i in xs)
  {
    hide Earlier;
    LastUnfold(xs);
    hide Placement;
    assert xs == head + last;
  }

  lemma LastUnfold(xs: seq<nat>)
    requires |xs| > HPLIST
    ensures Placement<nat>(xs) == xs[Earlier(xs)..] + Placement<nat>(xs[..Earlier(xs)])
  {
    hide Earlier;
  }

  // The last block goes ahead of the rest, whose numbers are all smaller.
  lemma OrderStep(recs: seq<Rec>, last: seq<nat>, rest: seq<nat>, k: seq<byte>)
    requires forall j :: 0 <= j < |last| ==> last[j] < |recs|
    requires forall j :: 0 <= j < |rest| ==> rest[j] < |recs|
    requires Ascending(last) && forall i, j :: i in last && j in rest ==> j < i
    ensures Ascending(WithKey(recs, last + rest, k)) <==>
      Ascending(WithKey(recs, rest, k)) && (NoneHas(recs, rest, k) || NoneHas(recs, last, k))
  {
    hide NoneHas;
    WithKeyConcat(recs, last, rest, k);
    WithKeyAscending(recs, last, k);
    AscendingConcat(WithKey(recs, last, k), WithKey(recs, rest, k));
    WithKeyNone(recs, last, k);
    WithKeyNone(recs, rest, k);
  }

  lemma ShortBlock(recs: seq<Rec>, xs: seq<nat>, k: seq<byte>)
    requires |xs| <= HPLIST
    ensures OneBlock(recs, xs, k)
  {
  }

  lemma SameMembers(recs: seq<Rec>, xs: seq<nat>, ys: seq<nat>, k: seq<byte>)
    requires forall i :: i in xs <==> i in ys
    ensures NoneHas(recs, xs, k) <==> NoneHas(recs, ys, k)
  {
    hide HasKeyAt;
    assert forall j :: 0 <= j < |xs| ==> xs[j] in ys;
    assert forall j :: 0 <= j < |ys| ==> ys[j] in xs;
  }

  // A lookup returns duplicates in the order they were added exactly when they share a block.
  lemma InsertionOrderIff(recs: seq<Rec>, k: seq<byte>)
    ensures Ascending(Matches(recs, k)) <==> OneBlock(recs, Members(recs, Slot(Hash(k))), k)
  {
    PlacementOrder(recs, Members(recs, Slot(Hash(k))), k);
  }

  // ... so in any slot of at most one block.
  lemma MatchesInInsertionOrder(recs: seq<Rec>, k: seq<byte>)
    requires |Members(recs, Slot(Hash(k)))| <= 250
    ensures Ascending(Matches(recs, k))
  {
    hide Matches, Members, OneBlock;
    InsertionOrderIff(recs, k);
    ShortBlock(recs, Members(recs, Slot(Hash(k))), k);
  }

  lemma TwoBlocks(recs: seq<Rec>, xs: seq<nat>)
    requires |xs| == |recs| == HPLIST + 1 && forall j :: 0 <= j < |xs| ==> xs[j] == j
    requires forall i :: 0 <= i < |recs| ==> recs[i] == Record([], [])
    ensures !OneBlock(recs, xs, [])
  {
    assert HasKeyAt(recs, xs[0], []) && HasKeyAt(recs, xs[HPLIST], []) && 0 / HPLIST != HPLIST / HPLIST;
  }

  // One more duplicate than a block holds is the least that comes back in another order.
  lemma TwoBlocksReorder() returns (recs: seq<Rec>)
    ensures |recs| == 251 && forall i :: 0 <= i < |recs| ==> recs[i] == Record([], [])
    ensures !Ascending(Matches(recs, []))
  {
    var n := HPLIST + 1;
    recs := seq(n, _ => Record([], []));
    var s := Slot(Hash([]));
    var xs: seq<nat>, all: seq<nat> := Members(recs, s), seq(n, i requires 0 <= i < n => i);
    hide Members, OneBlock, Matches;
    forall i
      ensures i in xs <==> i in all
    {
      assert 0 <= i < n ==> all[i] == i;
    }
    AscendingUnique(xs, all);
    TwoBlocks(recs, xs);
    InsertionOrderIff(recs, []);
  }

  // ----- the table walk returns this answer

  function Want(recs: seq<Rec>, idx: seq<nat>, k: seq<byte>): (want: seq<bool>)
    requires forall j :: 0 <= j < |idx| ==> idx[j] < |recs|
    ensures |want| == |idx|
  {
    seq(|idx|, j requires 0 <= j < |idx| => recs[idx[j]].key == k)
  }

  lemma {:induction false} PickWanted(recs: seq<Rec>, idx: seq<nat>, k: seq<byte>)
    requires forall j :: 0 <= j < |idx| ==> idx[j] < |recs|
    ensures var js := Wanted(Want(recs, idx, k));
      && (forall n :: 0 <= n < |js| ==> js[n] < |idx|)
      && Picked<nat>(idx, js) == WithKey(recs, idx, k)
  {
    hide WithKey, Wanted, Picked;
    var want := Want(recs, idx, k);
    assert forall n :: 0 <= n < |Wanted(want)| ==> Wanted(want)[n] in Wanted(want);
    if idx != [] {
      var n := |idx| - 1;
      assert want[..n] == Want(recs, idx[..n], k);
      PickWanted(recs, idx[..n], k);
      PickInit(idx, Wanted(want[..n]), want[n]);
      WantedLast(want);
      WithKeyLast(recs, idx, k);
    } else {
      PickNone(recs, idx, k);
    }
  }

  lemma WantedLast(want: seq<bool>)
    requires want != []
    ensures var n := |want| - 1;
      Wanted(want) == Wanted(want[..n]) + if want[n] then [n] else []
  {
  }

  lemma WithKeyLast(recs: seq<Rec>, idx: seq<nat>, k: seq<byte>)
    requires idx != [] && forall j :: 0 <= j < |idx| ==> idx[j] < |recs|
    ensures var n := |idx| - 1;
      WithKey(recs, idx, k) == WithKey(recs, idx[..n], k) + if recs[idx[n]].key == k then [idx[n]] else []
  {
  }

  lemma PickNone(recs: seq<Rec>, idx: seq<nat>, k: seq<byte>)
    requires idx == []
    ensures Wanted(Want(recs, idx, k)) == [] && Picked<nat>(idx, []) == WithKey(recs, idx, k)
  {
  }

  lemma PickInit(idx: seq<nat>, js: seq<nat>, more: bool)
    requires idx != [] && forall m :: 0 <= m < |js| ==> js[m] < |idx| - 1
    ensures var n := |idx| - 1;
      Picked<nat>(idx, js + if more then [n] else []) == Picked<nat>(idx[..n], js) + if more then [idx[n]] else []
  {
  }

  // Record numbers still to be returned by a walk that has taken d steps
  function Remaining(recs: seq<Rec>, k: seq<byte>, d: nat): (hits: seq<nat>)
    requires Members(recs, Slot(Hash(k))) != []
  {
    var s := Slot(Hash(k));
    var es, idx := SlotsOf(recs)[s], Placed(recs, s);
    SlotEntries(recs, s);
    var js := Walk(Cells(es, 2 * |es|), Home(Hash(k), 2 * |es|), d, Want(recs, idx, k));
    WalkBounded(Cells(es, 2 * |es|), Home(Hash(k), 2 * |es|), d, Want(recs, idx, k));
    Picked<nat>(idx, js)
  }

  lemma {:induction false} WalkBounded(cells: seq<int>, home: nat, d: nat, want: seq<bool>)
    requires home < |cells|
    requires forall c :: 0 <= c < |cells| ==> cells[c] < |want|
    ensures forall n :: 0 <= n < |Walk(cells, home, d, want)| ==> Walk(cells, home, d, want)[n] < |want|
    decreases |cells| - d
  {
    if d < |cells| && cells[Cell(home, d, |cells|)] >= 0 {
      WalkBounded(cells, home, d + 1, want);
    }
  }

  lemma RemainingFromStart(recs: seq<Rec>, k: seq<byte>)
    requires Members(recs, Slot(Hash(k))) != []
    ensures Remaining(recs, k, 0) == Matches(recs, k)
  {
    var s := Slot(Hash(k));
    var es, idx := SlotsOf(recs)[s], Placed(recs, s);
    var len := 2 * |es|;
    SlotEntries(recs, s);
    forall j | 0 <= j < |idx| && Want(recs, idx, k)[j]
      ensures HomesOf(es, len)[j] == Home(Hash(k), len)
    {
    }
    SearchFinds(HomesOf(es, len), len, Home(Hash(k), len), Want(recs, idx, k));
    PickWanted(recs, idx, k);
  }
}
