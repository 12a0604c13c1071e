// mcdb_make.c: the hash entries of every slot, collected in linked blocks of HPLIST entries.
// Blocks are allocated SLOTS at a time; those not needed yet wait on a slot's spare (pend) chain.
module HpLists {
  import opened Bytes
  import opened Layout

  class HpBlock {
    var num: nat
    var next: HpBlock?
    var pend: HpBlock?
    var hp: seq<Hp>          // MCDB_HPLIST entries
    ghost const slot: nat
    ghost const batch: nat   // number of the array that it is part of

    constructor (s: nat, ghost b: nat)
      ensures slot == s && batch == b && num == 0 && next == null && pend == null && |hp| == HPLIST
    {
      slot, batch := s, b;
      num, next, pend := 0, null, null;
      hp := seq(HPLIST, _ => Hp(0, 0, 0));
    }
  }

  // ----- what the blocks of one slot hold, newest block first

  ghost predicate Blocks(bs: seq<seq<Hp>>) {
    && bs != [] && |bs[0]| <= HPLIST
    && forall k :: 0 < k < |bs| ==> |bs[k]| == HPLIST
  }

  // Order in which finish visits the entries
  ghost function Visit(bs: seq<seq<Hp>>): seq<Hp> {
    if bs == [] then [] else bs[0] + Visit(bs[1..])
  }

  lemma VisitFrom(bs: seq<seq<Hp>>, k: nat)
    requires k <= |bs|
    ensures Visit(bs[k..]) == if k < |bs| then bs[k] + Visit(bs[k + 1..]) else []
  {
    assert k < |bs| ==> bs[k..][0] == bs[k] && bs[k..][1..] == bs[k + 1..];
  }

  // Order in which they were added
  ghost function Added(bs: seq<seq<Hp>>): seq<Hp> {
    if bs == [] then [] else Added(bs[1..]) + bs[0]
  }

  // Entries after whole blocks are placed first.
  lemma PlacementStep(rest: seq<Hp>, last: seq<Hp>)
    requires |rest| % HPLIST == 0 && 0 < |last| <= HPLIST
    ensures Placement(rest + last) == last + Placement(rest)
  {
    hide Placement;
    var xs := rest + last;
    LastBlock(|rest|, |last|);
    if rest == [] {
      assert xs == last && last + [] == last;
      PlacementNone();
      PlacementOneBlock(last);
    } else {
      assert xs[..|rest|] == rest && xs[|rest|..] == last;
      assert Earlier(xs) == |rest|;
      PlacementUnfold(xs);
    }
  }

  lemma PlacementOneBlock(xs: seq<Hp>)
    requires |xs| <= HPLIST
    ensures Placement(xs) == xs
  {
  }

  lemma PlacementUnfold(xs: seq<Hp>)
    requires |xs| > HPLIST
    ensures Placement(xs) == xs[Earlier(xs)..] + Placement(xs[..Earlier(xs)])
  {
    hide Earlier;
  }

  lemma LastBlock(whole: nat, last: nat)
    requires whole % HPLIST == 0 && 0 < last <= HPLIST
    ensures (whole + last - 1) % HPLIST == last - 1
    ensures whole == 0 || whole >= HPLIST
  {
    assert whole == whole / HPLIST * HPLIST;
  }

  lemma {:induction false} FullBlocks(bs: seq<seq<Hp>>)
    requires forall k :: 0 <= k < |bs| ==> |bs[k]| == HPLIST
    ensures |Added(bs)| % HPLIST == 0 && Visit(bs) == Placement(Added(bs))
  {
    hide Placement;
    if bs != [] {
      FullBlocks(bs[1..]);
      PlacementStep(Added(bs[1..]), bs[0]);
    } else {
      PlacementNone();
    }
  }

  lemma PlacementNone()
    ensures Placement<Hp>([]) == []
  {
  }

  // Visiting the chain is the placement order of the entries added.
  lemma VisitIsPlacement(bs: seq<seq<Hp>>)
    requires Blocks(bs)
    ensures Visit(bs) == Placement(Added(bs))
  {
    hide Placement;
    FullBlocks(bs[1..]);
    if bs[0] == [] {
      assert Added(bs) == Added(bs[1..]) && Visit(bs) == Visit(bs[1..]);
    } else {
      PlacementStep(Added(bs[1..]), bs[0]);
    }
  }

  // c is a next chain of blocks of slot s that hold bs.
  ghost predicate ChainOk(c: seq<HpBlock>, bs: seq<seq<Hp>>, s: nat)
    reads c
  {
    && |c| == |bs|
    && (forall k :: 0 <= k < |c| ==>
          && c[k].slot == s && |c[k].hp| == HPLIST
          && c[k].num == |bs[k]| <= HPLIST && c[k].hp[..c[k].num] == bs[k])
    && (forall k {:trigger c[k].next} :: 0 <= k < |c| ==> c[k].next == if k + 1 < |c| then c[k + 1] else null)
  }

  // p is a pend chain of empty blocks of slot s.
  ghost predicate SpareOk(p: seq<HpBlock>, s: nat)
    reads p
  {
    && (forall k :: 0 <= k < |p| ==> p[k].slot == s && |p[k].hp| == HPLIST && p[k].num == 0)
    && (forall k {:trigger p[k].pend} :: 0 <= k < |p| ==> p[k].pend == if k + 1 < |p| then p[k + 1] else null)
  }

  // No block is on the two chains twice.
  ghost predicate Apart(c: seq<HpBlock>, p: seq<HpBlock>) {
    && (forall j, k :: 0 <= j < k < |c| ==> c[j] != c[k])
    && (forall j, k :: 0 <= j < k < |p| ==> p[j] != p[k])
    && (forall j, k :: 0 <= j < |c| && 0 <= k < |p| ==> c[j] != p[k])
  }

  // Sum of the first s counts in 32-bit arithmetic
  ghost function Sum(count: seq<word>, s: nat): word
    requires s <= |count|
  {
    if s == 0 then 0 else (Sum(count, s - 1) + count[s - 1]) % 0x1_0000_0000
  }

  ghost predicate Clean(x: HpBlock, s: nat)
    reads x
  {
    x.slot == s && x.num == 0 && |x.hp| == HPLIST && x.next == null && x.pend == null
  }

  // Every block is part of one of the arrays allocated.
  ghost predicate Batched(repr: set<HpBlock>, bases: seq<HpBlock>) {
    && (forall x :: x in repr ==> x.batch < |bases|)
    && (forall k :: 0 <= k < |bases| ==> bases[k].batch == k)
  }

  // Block x of slot i is the next one of the array being allocated, or the first of a new one.
  ghost predicate NextOf(bases: seq<HpBlock>, i: nat, x: HpBlock) {
    if i == 0 then x.batch == |bases| else x.batch < |bases|
  }

  // The arrays after a block of slot i has come in
  ghost function WithBlock(bases: seq<HpBlock>, i: nat, x: HpBlock): seq<HpBlock> {
    if i == 0 then bases + [x] else bases
  }

  lemma BatchGiven(repr: set<HpBlock>, bases: seq<HpBlock>, i: nat, x: HpBlock)
    requires Batched(repr, bases) && NextOf(bases, i, x)
    ensures Batched(repr + {x}, WithBlock(bases, i, x))
  {
  }

  lemma SumNext(count: seq<word>, s: nat)
    requires s < |count|
    ensures Sum(count, s + 1) == (Sum(count, s) + count[s]) % 0x1_0000_0000 && Sum(count, 0) == 0
  {
  }

  // An element of the array allocated, as the loop over it sets it up
  method NewBlock(s: nat, ghost b: nat) returns (x: HpBlock)
    ensures fresh(x) && Clean(x, s) && x.batch == b
  {
    x := new HpBlock(s, b);
  }

  // The first spare block becomes the head.
  lemma SameBlocks(c: seq<HpBlock>, p: seq<HpBlock>)
    requires p != []
    ensures multiset([p[0]] + c + p[1..]) == multiset(c + p)
  {
    assert c + p == c + ([p[0]] + p[1..]);
  }

  class HpLists {
    var head: seq<HpBlock>                  // MCDB_SLOTS of them
    var count: seq<word>                    // entries a slot
    ghost var chain: seq<seq<HpBlock>>      // per slot: head and its next chain
    ghost var blocks: seq<seq<seq<Hp>>>     // per slot: what the chain's blocks hold
    ghost var spare: seq<seq<HpBlock>>      // per slot: the pend chain of head
    ghost var bases: seq<HpBlock>           // first element of every allocated array
    ghost var Repr: set<HpBlock>

    ghost predicate Sized()
      reads this
    {
      |head| == SLOTS && |count| == SLOTS && |chain| == SLOTS && |spare| == SLOTS && |blocks| == SLOTS
    }

    ghost predicate SlotOk(s: nat)
      requires Sized() && s < SLOTS
      reads this, chain[s], spare[s]
    {
      && Blocks(blocks[s]) && ChainOk(chain[s], blocks[s], s) && head[s] == chain[s][0]
      && SpareOk(spare[s], s) && head[s].pend == (if spare[s] == [] then null else spare[s][0])
      && Apart(chain[s], spare[s])
      && count[s] == |AddedTo(s)| % 0x1_0000_0000
    }

    // Entries of slot s in the order added
    ghost function AddedTo(s: nat): seq<Hp>
      requires Sized() && s < SLOTS
      reads this
    {
      Added(blocks[s])
    }

    ghost function AddedAll(): (all: seq<seq<Hp>>)
      requires Sized()
      reads this
      ensures |all| == SLOTS && forall s :: 0 <= s < SLOTS ==> all[s] == AddedTo(s)
    {
      seq(SLOTS, s requires 0 <= s < SLOTS && Sized() reads this => AddedTo(s))
    }

    ghost predicate Valid()
      reads this, Repr
      ensures Valid() ==> Sized()
    {
      && Sized()
      && (forall s :: 0 <= s < SLOTS ==>
            && (forall k :: 0 <= k < |chain[s]| ==> chain[s][k] in Repr)
            && (forall k :: 0 <= k < |spare[s]| ==> spare[s][k] in Repr)
            && SlotOk(s))
      && multiset(bases) == multiset(chain[0] + spare[0]) && Batched(Repr, bases)
    }


    // The head block of slot s can take another entry.
    ghost predicate Room(s: nat)
      requires Sized() && s < SLOTS
      reads this
    {
      blocks[s] != [] && |blocks[s][0]| < HPLIST
    }

    // The first array of blocks, as mcdb_make_start sets it up
    constructor ()
      ensures Valid() && fresh(Repr) && |bases| == 1
      ensures forall s :: 0 <= s < SLOTS ==> AddedTo(s) == [] && Room(s)
    {
      hide HpLists.Valid, Added;
      var a: seq<HpBlock> := [];
      while |a| < SLOTS
        invariant |a| <= SLOTS
        invariant forall s :: 0 <= s < |a| ==> fresh(a[s]) && Clean(a[s], s) && a[s].batch == 0
      {
        var x := new HpBlock(|a|, 0);
        a := a + [x];
      }
      head, count := a, seq(SLOTS, _ => 0);
      chain := seq(SLOTS, s requires 0 <= s < |a| => [a[s]]);
      blocks, spare := seq(SLOTS, _ => [[]]), seq(SLOTS, _ => []);
      bases := [a[0]];
      Repr := set x | x in a;
      new;
      assert chain[0] + spare[0] == bases;
      FirstBlocks(a);
    }

    lemma FirstBlocks(a: seq<HpBlock>)
      requires |a| == SLOTS && head == a && Sized() && Repr == (set x | x in a)
      requires forall s :: 0 <= s < SLOTS ==> Clean(a[s], s) && a[s].batch == 0
      requires forall s :: 0 <= s < SLOTS ==> count[s] == 0 && chain[s] == [a[s]] && blocks[s] == [[]] && spare[s] == []
      requires bases == [a[0]] == chain[0] + spare[0]
      ensures Valid() && forall s :: 0 <= s < SLOTS ==> AddedTo(s) == [] && Room(s)
    {
      assert Added([[]]) == [] + [];
      forall s | 0 <= s < SLOTS
        ensures SlotOk(s) && AddedTo(s) == []
      {
        assert chain[s] == [a[s]] && Clean(a[s], s);
      }
    }

    // The head block of slot i is full: make room by its spare block, or by an array of new blocks,
    // one for every slot.  False when the records counted so far reach INT_MAX.
    method Alloc(i: nat) returns (ok: bool)
      requires Valid() && i < SLOTS && !Room(i)
      requires forall s :: 0 <= s < SLOTS && s != i ==> Room(s)
      modifies this, Repr
      ensures Valid() && fresh(Repr - old(Repr))
      ensures count == old(count)
      ensures forall s :: 0 <= s < SLOTS ==> AddedTo(s) == old(AddedTo(s)) && Room(s)
      ensures !ok <==> old(head[i].pend) == null && Sum(count, SLOTS) >= INT_MAX
      ensures if old(head[i].pend) != null then bases == old(bases) else OneMoreBase()
    {
      hide Added, HpLists.Valid;
      HeadFacts(i);
      AddEmpty(blocks[i]);
      if head[i].pend != null {
        PushSpare(i);
        ok := true;
      } else {
        ok := NewArray(i);
      }
      forall s | 0 <= s < SLOTS
        ensures AddedTo(s) == old(AddedTo(s)) && Room(s)
      {
        assert s != i ==> old(Room(s));
      }
    }

    // Allocate SLOTS blocks: the one of slot i becomes its head, the others wait.
    method NewArray(i: nat) returns (ok: bool)
      requires Valid() && i < SLOTS && !Room(i) && head[i].pend == null
      requires forall s :: 0 <= s < SLOTS && s != i ==> Room(s)
      modifies this, Repr
      ensures Valid() && fresh(Repr - old(Repr)) && OneMoreBase() && count == old(count)
      ensures blocks == old(blocks)[i := [[]] + old(blocks[i])]
      ensures ok <==> Sum(count, SLOTS) < INT_MAX
    {
      hide Added, HpLists.Valid, Clean, Sum;
      var cnt: word := 0;
      SumNext(count, 0);
      for s := 0 to SLOTS
        invariant Valid() && fresh(Repr - old(Repr)) && count == old(count)
        invariant blocks == if s <= i then old(blocks) else old(blocks)[i := [[]] + old(blocks[i])]
        invariant s <= i ==> head[i].pend == null
        invariant cnt == Sum(count, s)
        invariant if s == 0 then bases == old(bases) else OneMoreBase()
      {
        var x := NewBlock(s, |old(bases)|);
        HeadFacts(s);
        HeadFacts(i);
        assert s != i ==> old(Room(s));
        if head[s].num != HPLIST {
          GiveSpare(s, x);
        } else {
          PushFresh(s, x);
        }
        SumNext(count, s);
        cnt := (cnt + count[s]) % 0x1_0000_0000;
      }
      return cnt < INT_MAX;
    }

    // One more array has been allocated, and none is forgotten.
    twostate predicate OneMoreBase()
      reads this
    {
      |bases| == |old(bases)| + 1 && old(bases) <= bases && fresh(bases[|old(bases)|])
    }

    // Slot i changed and the others did not: what has to be shown of slot i
    twostate lemma Assembled(i: nat)
      requires old(Valid()) && Sized() && i < SLOTS && old(Repr) <= Repr
      requires forall s :: 0 <= s < SLOTS ==> SlotOk(s)
      requires forall s :: 0 <= s < SLOTS && s != i ==> chain[s] == old(chain[s]) && spare[s] == old(spare[s])
      requires forall k :: 0 <= k < |chain[i]| ==> chain[i][k] in Repr
      requires forall k :: 0 <= k < |spare[i]| ==> spare[i][k] in Repr
      requires multiset(bases) + multiset(old(chain[0] + spare[0])) == multiset(old(bases)) + multiset(chain[0] + spare[0])
      requires Batched(Repr, bases)
      ensures Valid()
    {
      hide SlotOk, Batched;
      assert multiset(bases) == multiset(chain[0] + spare[0]) by {
        forall x: HpBlock
          ensures multiset(bases)[x] == multiset(chain[0] + spare[0])[x]
        {
          assert (multiset(bases) + multiset(old(chain[0] + spare[0])))[x]
            == (multiset(old(bases)) + multiset(chain[0] + spare[0]))[x];
        }
      }
    }

    // A new block becomes the first spare of slot i.
    method GiveSpare(i: nat, x: HpBlock)
      requires Valid() && i < SLOTS && x !in Repr && Clean(x, i) && NextOf(bases, i, x)
      modifies this, Repr, x
      ensures Valid() && Repr == old(Repr) + {x} && blocks == old(blocks) && count == old(count) && head == old(head)
      ensures bases == WithBlock(old(bases), i, x)
      ensures forall s :: 0 <= s < SLOTS && s != i ==> head[s].pend == old(head[s].pend)
    {
      hide Added, Blocks, ChainOk, SpareOk, Apart, SlotOk, Batched, NextOf, HpLists.Valid;
      HeadFacts(i);
      Owned(i);
      SlotsDiffer();
      x.pend := head[i].pend;
      head[i].pend := x;
      spare := spare[i := [x] + spare[i]];
      Repr := Repr + {x};
      if i == 0 {
        bases := bases + [x];
      }
      SpareGiven(i);
      OthersSame(i);
      BatchGiven(old(Repr), old(bases), i, x);
      Assembled(i);
    }

    // A new block becomes the head of slot i.
    method PushFresh(i: nat, x: HpBlock)
      requires Valid() && i < SLOTS && x !in Repr && Clean(x, i) && NextOf(bases, i, x) && !Room(i) && head[i].pend == null
      modifies this, Repr, x
      ensures Valid() && Repr == old(Repr) + {x} && count == old(count)
      ensures blocks == old(blocks)[i := [[]] + old(blocks[i])]
      ensures bases == WithBlock(old(bases), i, x)
      ensures forall s :: 0 <= s < SLOTS && s != i ==> head[s] == old(head[s]) && head[s].pend == old(head[s].pend)
    {
      hide Added, Blocks, ChainOk, SpareOk, Apart, SlotOk, Batched, NextOf, HpLists.Valid;
      HeadFacts(i);
      Owned(i);
      SlotsDiffer();
      AddEmpty(blocks[i]);
      x.next := head[i];
      head := head[i := x];
      chain := chain[i := [x] + chain[i]];
      blocks := blocks[i := [[]] + blocks[i]];
      Repr := Repr + {x};
      if i == 0 {
        bases := bases + [x];
      }
      FreshPushed(i);
      OthersSame(i);
      BatchGiven(old(Repr), old(bases), i, x);
      Assembled(i);
    }

    // Where the blocks of slot i are
    lemma Owned(i: nat)
      requires Valid() && i < SLOTS
      ensures Batched(Repr, bases) && SlotOk(i)
      ensures forall k :: 0 <= k < |chain[i]| ==> chain[i][k] in Repr
      ensures forall k :: 0 <= k < |spare[i]| ==> spare[i][k] in Repr
    {
    }

    lemma SlotsDiffer()
      requires Valid()
      ensures forall s :: 0 <= s < SLOTS ==> head[s] in Repr && head[s].slot == s
    {
      hide Added, Apart;
      forall s | 0 <= s < SLOTS
        ensures head[s] in Repr && head[s].slot == s
      {
        HeadFacts(s);
      }
    }

    twostate lemma SpareGiven(s: nat)
      requires old(Valid()) && Sized() && s < SLOTS && head == old(head)
      requires head[s].pend != null && allocated(head[s].pend) && head[s].pend !in old(Repr)
      requires var x := head[s].pend; x.slot == s && x.num == 0 && |x.hp| == HPLIST && x.pend == old(head[s].pend)
      requires spare[s] == [head[s].pend] + old(spare[s]) && Repr == old(Repr) + {head[s].pend}
      requires head[s].num == old(head[s].num) && head[s].hp == old(head[s].hp) && head[s].next == old(head[s].next)
      requires forall x: HpBlock {:trigger x in old(Repr)} :: x in old(Repr) && x != head[s] ==> unchanged(x)
      requires chain[s] == old(chain[s]) && blocks[s] == old(blocks[s]) && count[s] == old(count[s])
      ensures SlotOk(s)
    {
      hide Added;
      assert old(SlotOk(s));
      assert old(Blocks(blocks[s]) && ChainOk(chain[s], blocks[s], s) && SpareOk(spare[s], s));
      assert old(count[s] == |AddedTo(s)| % 0x1_0000_0000);
      forall k | 0 < k < |chain[s]|
        ensures unchanged(chain[s][k])
      {
        assert old(chain[s][k] in Repr);
      }
      forall k | 0 <= k < |old(spare[s])|
        ensures unchanged(old(spare[s])[k])
      {
        assert old(spare[s][k] in Repr);
      }
    }

    twostate lemma FreshPushed(s: nat)
      requires old(Valid()) && Sized() && s < SLOTS && head[s] !in old(Repr)
      requires head[s].slot == s && head[s].num == 0 && |head[s].hp| == HPLIST && head[s].pend == null
      requires head[s].next == old(head[s]) && old(head[s].pend) == null
      requires forall x: HpBlock {:trigger x in old(Repr)} :: x in old(Repr) ==> unchanged(x)
      requires chain[s] == [head[s]] + old(chain[s]) && spare[s] == old(spare[s])
      requires blocks[s] == [[]] + old(blocks[s]) && Added(blocks[s]) == old(Added(blocks[s]))
      requires old(|blocks[s]| > 0 && |blocks[s][0]| == HPLIST)
      requires count[s] == old(count[s]) && Repr == old(Repr) + {head[s]}
      ensures SlotOk(s)
    {
      hide Added;
      assert old(SlotOk(s));
      assert old(Blocks(blocks[s]) && ChainOk(chain[s], blocks[s], s) && SpareOk(spare[s], s));
      assert old(count[s] == |AddedTo(s)| % 0x1_0000_0000);
      forall k | 0 <= k < |old(chain[s])|
        ensures unchanged(old(chain[s])[k])
      {
        assert old(chain[s][k] in Repr);
      }
      assert spare[s] == [];
    }

    // The spare block becomes the head of the chain.
    method PushSpare(i: nat)
      requires Valid() && i < SLOTS && head[i].pend != null && !Room(i)
      modifies this, Repr
      ensures Valid() && Repr == old(Repr) && bases == old(bases) && count == old(count)
      ensures blocks == old(blocks)[i := [[]] + old(blocks[i])]
    {
      hide Added, Blocks, ChainOk, SpareOk, Apart, SlotOk, Batched, HpLists.Valid;
      SpareFacts(i);
      SlotsDiffer();
      HeadFacts(i);
      var h := head[i];
      var p := h.pend;
      p.next := h;
      head := head[i := p];
      AddEmpty(blocks[i]);
      chain := chain[i := [p] + chain[i]];
      blocks := blocks[i := [[]] + blocks[i]];
      spare := spare[i := spare[i][1..]];
      SpareMoved(i);
    }

    twostate lemma WereOwned(i: nat)
      requires old(Valid()) && i < SLOTS
      ensures old(Batched(Repr, bases))
      ensures old(forall k :: 0 <= k < |chain[i]| ==> chain[i][k] in Repr)
      ensures old(forall k :: 0 <= k < |spare[i]| ==> spare[i][k] in Repr)
    {
    }

    twostate lemma SpareMoved(i: nat)
      requires old(Valid()) && Sized() && i < SLOTS && old(spare[i]) != []
      requires Repr == old(Repr) && bases == old(bases) && count == old(count)
      requires head == old(head)[i := old(spare[i])[0]] && head[i].slot == i && head[i].next == old(head[i])
      requires head[i].num == old(spare[i][0].num) && head[i].hp == old(spare[i][0].hp)
      requires head[i].pend == old(spare[i][0].pend)
      requires forall x: HpBlock {:trigger x in old(Repr)} :: x in old(Repr) && x != head[i] ==> unchanged(x)
      requires chain == old(chain)[i := [head[i]] + old(chain[i])] && spare == old(spare)[i := old(spare[i])[1..]]
      requires blocks == old(blocks)[i := [[]] + old(blocks[i])] && Added(blocks[i]) == old(Added(blocks[i]))
      requires old(|blocks[i]| > 0 && |blocks[i][0]| == HPLIST)
      ensures Valid()
    {
      hide Added, Blocks, ChainOk, SpareOk, Apart, SlotOk, Batched, HpLists.Valid;
      WereOwned(i);
      SparePushed(i);
      OthersSame(i);
      SameBlocks(old(chain[i]), old(spare[i]));
      Assembled(i);
    }

    lemma SpareFacts(s: nat)
      requires Valid() && s < SLOTS
      ensures head[s] in Repr
      ensures head[s].pend != null ==>
        spare[s] != [] && head[s].pend == spare[s][0] && spare[s][0] in Repr && spare[s][0].slot == s
    {
      hide Added, Apart;
      assert SlotOk(s);
      assert chain[s][0] in Repr;
      assert spare[s] != [] ==> spare[s][0] in Repr;
    }

    twostate lemma SparePushed(s: nat)
      requires old(Valid()) && Sized() && s < SLOTS && old(spare[s]) != []
      requires head[s] == old(spare[s])[0] && head[s].next == old(head[s])
      requires head[s].num == old(spare[s][0].num) && head[s].hp == old(spare[s][0].hp)
      requires head[s].pend == old(spare[s][0].pend)
      requires forall x: HpBlock {:trigger x in old(Repr)} :: x in old(Repr) && x != head[s] ==> unchanged(x)
      requires chain[s] == [head[s]] + old(chain[s]) && spare[s] == old(spare[s])[1..]
      requires blocks[s] == [[]] + old(blocks[s]) && Added(blocks[s]) == old(Added(blocks[s]))
      requires old(|blocks[s]| > 0 && |blocks[s][0]| == HPLIST)
      requires count[s] == old(count[s])
      ensures SlotOk(s)
    {
      hide Added;
      assert old(SlotOk(s));
      assert old(Blocks(blocks[s]) && ChainOk(chain[s], blocks[s], s) && SpareOk(spare[s], s));
      assert old(count[s] == |AddedTo(s)| % 0x1_0000_0000);
      forall k | 0 <= k < |old(chain[s])|
        ensures unchanged(old(chain[s])[k])
      {
        assert old(chain[s][k] in Repr);
      }
      forall k | 0 < k < |old(spare[s])|
        ensures unchanged(old(spare[s])[k])
      {
        assert old(spare[s][k] in Repr);
      }
    }

    // mcdb_make_destroy: every allocated array is freed through its first block, which slot 0 has on
    // its pend chain or on its next chain; each array is freed exactly once.
    method Destroy() returns (freed: seq<HpBlock>)
      requires Valid()
      ensures multiset(freed) == multiset(bases)
      ensures forall j, k :: 0 <= j < k < |freed| ==> freed[j] != freed[k]
      ensures forall x :: x in Repr ==> x.batch < |bases| && bases[x.batch] in freed && bases[x.batch].batch == x.batch
    {
      hide Added, Blocks;
      HeadFacts(0);
      assert SlotOk(0);
      freed := [];
      ghost var k := 0;
      var node := head[0].pend;
      while node != null
        invariant k <= |spare[0]| && freed == spare[0][..k]
        invariant node == if k < |spare[0]| then spare[0][k] else null
        decreases |spare[0]| - k
      {
        var n := node;
        node := n.pend;
        freed := freed + [n];
        k := k + 1;
      }
      node := head[0];
      k := 0;
      while node != null
        invariant k <= |chain[0]| && freed == spare[0] + chain[0][..k]
        invariant node == if k < |chain[0]| then chain[0][k] else null
        decreases |chain[0]| - k
      {
        var n := node;
        node := n.next;
        freed := freed + [n];
        k := k + 1;
      }
      assert freed == spare[0] + chain[0];
      AllFreed(freed);
    }

    // So no block is left behind.
    lemma AllFreed(freed: seq<HpBlock>)
      requires Valid() && multiset(freed) == multiset(bases)
      ensures forall x :: x in Repr ==> x.batch < |bases| && bases[x.batch] in freed && bases[x.batch].batch == x.batch
    {
      forall x | x in Repr
        ensures bases[x.batch] in freed
      {
        assert bases[x.batch] in multiset(bases);
      }
    }

    // What a walk down slot s's chain finds at block k
    lemma ChainFacts(s: nat, k: nat)
      requires Valid() && s < SLOTS
      ensures |chain[s]| == |blocks[s]| > 0 && head[s] == chain[s][0]
      ensures k < |blocks[s]| ==>
        && chain[s][k] in Repr
        && chain[s][k].num == |blocks[s][k]| <= |chain[s][k].hp|
        && chain[s][k].hp[..chain[s][k].num] == blocks[s][k]
        && chain[s][k].next == if k + 1 < |chain[s]| then chain[s][k + 1] else null
    {
      hide Added, Apart;
      assert SlotOk(s);
    }

    // mcdb_make_addend: store the entry in its slot's head block; true when that filled the block
    method AddEnd(e: Hp) returns (full: bool)
      requires Valid() && Room(Slot(e.h))
      modifies this, Repr
      ensures Valid() && Repr == old(Repr) && bases == old(bases)
      ensures forall s :: 0 <= s < SLOTS ==> AddedTo(s) == old(AddedTo(s)) + if s == Slot(e.h) then [e] else []
      ensures forall s :: 0 <= s < SLOTS && s != Slot(e.h) ==> (Room(s) <==> old(Room(s)))
      ensures full <==> !Room(Slot(e.h))
    {
      hide SlotOk, Blocks, ChainOk, SpareOk, Apart, Added;
      var slot := e.h % SLOTS;
      HeadFacts(slot);
      var x := head[slot];
      var i := x.num;
      x.num := x.num + 1;
      x.hp := x.hp[i := e];
      count := count[slot := (count[slot] as int + 1) % 0x1_0000_0000];
      AddOne(blocks[slot], e);
      blocks := blocks[slot := [blocks[slot][0] + [e]] + blocks[slot][1..]];
      full := i == HPLIST - 1;
      HeadGrew(e);
      OthersSame(slot);
    }

    lemma HeadFacts(s: nat)
      requires Valid() && s < SLOTS
      ensures blocks[s] != [] && head[s] in Repr && head[s].slot == s
      ensures head[s].num == |blocks[s][0]| <= HPLIST == |head[s].hp|
      ensures count[s] == |AddedTo(s)| % 0x1_0000_0000
    {
      hide Added;
      assert SlotOk(s);
      assert chain[s][0] in Repr;
    }

    twostate predicate SameSlot(s: nat)
      requires old(Sized()) && Sized() && s < SLOTS
      reads this, chain[s], spare[s]
    {
      && head[s] == old(head[s]) && count[s] == old(count[s]) && blocks[s] == old(blocks[s])
      && chain[s] == old(chain[s]) && spare[s] == old(spare[s])
      && (forall k :: 0 <= k < |chain[s]| ==> unchanged(chain[s][k]))
      && (forall k :: 0 <= k < |spare[s]| ==> unchanged(spare[s][k]))
    }

    // A slot none of whose blocks changed is as it was.
    twostate lemma Untouched(s: nat)
      requires old(Sized()) && Sized() && s < SLOTS && old(SlotOk(s)) && SameSlot(s)
      ensures SlotOk(s)
    {
      assert old(Blocks(blocks[s]) && ChainOk(chain[s], blocks[s], s) && SpareOk(spare[s], s));
      assert old(count[s] == |AddedTo(s)| % 0x1_0000_0000);
    }

    // Only blocks of one slot changed.
    twostate lemma OthersSame(slot: nat)
      requires old(Valid()) && Sized() && slot < SLOTS && old(Repr) <= Repr
      requires forall s :: 0 <= s < SLOTS && s != slot ==>
        && head[s] == old(head[s]) && count[s] == old(count[s]) && blocks[s] == old(blocks[s])
        && chain[s] == old(chain[s]) && spare[s] == old(spare[s])
      requires forall x: HpBlock {:trigger x in old(Repr)} :: x in old(Repr) && x.slot != slot ==> unchanged(x)
      ensures forall s :: 0 <= s < SLOTS && s != slot ==> SlotOk(s)
    {
      hide Added, Blocks, Apart;
      forall s | 0 <= s < SLOTS && s != slot
        ensures SlotOk(s)
      {
        assert old(SlotOk(s));
        forall k | 0 <= k < |chain[s]|
          ensures unchanged(chain[s][k])
        {
          assert old(chain[s][k] in Repr);
        }
        forall k | 0 <= k < |spare[s]|
          ensures unchanged(spare[s][k])
        {
          assert old(spare[s][k] in Repr);
        }
        Untouched(s);
      }
    }

    // The head block of the entry's slot took one more entry.
    twostate lemma HeadGrew(e: Hp)
      requires old(Valid()) && Sized()
      requires old(blocks[Slot(e.h)]) != []
      requires |old(blocks[Slot(e.h)])[0]| < HPLIST
      requires head[Slot(e.h)] == old(head[Slot(e.h)]) && head[Slot(e.h)].num == old(head[Slot(e.h)].num) + 1
      requires old(head[Slot(e.h)].num < |head[Slot(e.h)].hp|)
      requires head[Slot(e.h)].hp == old(head[Slot(e.h)].hp[head[Slot(e.h)].num := e])
      requires head[Slot(e.h)].next == old(head[Slot(e.h)].next) && head[Slot(e.h)].pend == old(head[Slot(e.h)].pend)
      requires chain[Slot(e.h)] == old(chain[Slot(e.h)]) && spare[Slot(e.h)] == old(spare[Slot(e.h)])
      requires forall x: HpBlock {:trigger x in old(Repr)} :: x in old(Repr) && x != head[Slot(e.h)] ==> unchanged(x)
      requires blocks[Slot(e.h)] == [old(blocks[Slot(e.h)])[0] + [e]] + old(blocks[Slot(e.h)])[1..]
      requires count[Slot(e.h)] == |AddedTo(Slot(e.h))| % 0x1_0000_0000
      ensures SlotOk(Slot(e.h))
    {
      hide Added;
      var s := Slot(e.h);
      assert old(SlotOk(s));
      assert old(Blocks(blocks[s]) && ChainOk(chain[s], blocks[s], s) && SpareOk(spare[s], s));
      forall k | 0 < k < |chain[s]|
        ensures unchanged(chain[s][k])
      {
        assert old(chain[s][k] in Repr);
      }
      forall k | 0 <= k < |spare[s]|
        ensures unchanged(spare[s][k])
      {
        assert old(spare[s][k] in Repr);
      }
    }
  }

  lemma AddEmpty(bs: seq<seq<Hp>>)
    ensures Added([[]] + bs) == Added(bs)
  {
    assert ([[]] + bs)[1..] == bs && Added(bs) + [] == Added(bs);
  }

  lemma AddOne(bs: seq<seq<Hp>>, e: Hp)
    requires bs != []
    ensures Added([bs[0] + [e]] + bs[1..]) == Added(bs) + [e]
  {
    assert ([bs[0] + [e]] + bs[1..])[1..] == bs[1..];
  }
}