// What the writer's limits amount to: a selection of storable records is storable, and so is any
// list short enough.
module Limits {
  import opened Wrappers
  import opened Bytes
  import opened Uint32
  import opened Layout
  import opened Reader
  import opened Walks
  import opened Make

  // ----- weighing records

  function Total(ws: seq<nat>): nat {
    if ws == [] then 0 else Total(ws[..|ws| - 1]) + ws[|ws| - 1]
  }

  lemma {:induction false} TotalBounded(ws: seq<nat>, most: nat)
    requires forall i :: 0 <= i < |ws| ==> ws[i] <= most
    ensures Total(ws) <= |ws| * most
  {
    if ws != [] {
      TotalBounded(ws[..|ws| - 1], most);
      assert (|ws| - 1) * most + most == |ws| * most;
    }
  }

  lemma {:induction false} TotalWithout(ws: seq<nat>, j: nat)
    requires j < |ws|
    ensures Total(ws) == Total(ws[..j] + ws[j + 1..]) + ws[j]
  {
    var n := |ws| - 1;
    if j == n {
      assert ws[..j] + ws[j + 1..] == ws[..n];
    } else {
      var rest := ws[..j] + ws[j + 1..];
      TotalWithout(ws[..n], j);
      assert rest[..|rest| - 1] == ws[..n][..j] + ws[..n][j + 1..];
    }
  }

  lemma TotalAddOne(ws: seq<nat>, j: nat)
    requires j < |ws|
    ensures Total(ws[j := ws[j] + 1]) == Total(ws) + 1
  {
    var more := ws[j := ws[j] + 1];
    TotalWithout(ws, j);
    TotalWithout(more, j);
    assert more[..j] + more[j + 1..] == ws[..j] + ws[j + 1..];
  }

  // Distinct elements of a list weigh no more than all of them.
  lemma {:induction false} TotalPicked(ws: seq<nat>, ids: seq<int>)
    requires Distinct(ids) && forall k :: 0 <= k < |ids| ==> 0 <= ids[k] < |ws|
    ensures Total(Picked(ws, ids)) <= Total(ws)
    decreases |ws|
  {
    if ids != [] {
      assert 0 <= ids[0] < |ws|;
      var n := |ws| - 1;
      if j :| 0 <= j < |ids| && ids[j] == n {
        var rest := DropLargest(ws, ids, j);
        hide Picked, Distinct;
        TotalPicked(ws[..n], rest);
        TotalWithout(Picked(ws, ids), j);
      } else {
        TotalPicked(ws[..n], ids);
        assert Picked(ws[..n], ids) == Picked(ws, ids);
      }
    }
  }

  // Leave out number j, which picks the last element.
  lemma DropLargest(ws: seq<nat>, ids: seq<int>, j: nat) returns (rest: seq<int>)
    requires Distinct(ids) && forall k :: 0 <= k < |ids| ==> 0 <= ids[k] < |ws|
    requires j < |ids| && ids[j] == |ws| - 1
    ensures Distinct(rest) && forall k :: 0 <= k < |rest| ==> 0 <= rest[k] < |ws| - 1
    ensures Picked(ws, ids)[..j] + Picked(ws, ids)[j + 1..] == Picked(ws[..|ws| - 1], rest)
  {
    rest := ids[..j] + ids[j + 1..];
    forall k | 0 <= k < |rest|
      ensures 0 <= rest[k] < |ws| - 1
    {
      assert rest[k] == if k < j then ids[k] else ids[k + 1];
    }
  }

  // Bytes of each record, and which of them are in slot s
  function Sizes(recs: seq<Rec>): (ws: seq<nat>)
    ensures |ws| == |recs|
  {
    seq(|recs|, i requires 0 <= i < |recs| => 8 + |recs[i].key| + |recs[i].data|)
  }

  function Marks(recs: seq<Rec>, s: nat): (ws: seq<nat>)
    ensures |ws| == |recs|
  {
    seq(|recs|, i requires 0 <= i < |recs| => if Slot(Hash(recs[i].key)) == s then 1 else 0)
  }

  lemma {:induction false} DataTotal(recs: seq<Rec>)
    ensures |Data(recs)| == Total(Sizes(recs))
  {
    if recs != [] {
      var n := |recs| - 1;
      DataTotal(recs[..n]);
      assert Sizes(recs)[..n] == Sizes(recs[..n]);
      assert recs == recs[..n] + [recs[n]];
      AddRecord(recs[..n], recs[n]);
    }
  }

  lemma {:induction false} MembersTotal(recs: seq<Rec>, s: nat)
    ensures |Members(recs, s)| == Total(Marks(recs, s))
  {
    hide Members, Hash;
    if recs == [] {
      NoMembers(s);
    } else {
      var n := |recs| - 1;
      MembersTotal(recs[..n], s);
      assert Marks(recs, s)[..n] == Marks(recs[..n], s);
      LastMember(recs, s);
    }
  }

  // ----- where the file ends

  lemma {:induction false} TablesEnd(recs: seq<Rec>, b: bits, s: nat)
    requires s <= SLOTS
    ensures TableOffset(SlotsOf(recs), b, s) == 2 * CountTo(recs, s) * CellSize(b)
  {
    hide Members, CellSize, SlotsOf, TableOffset;
    if s == 0 {
      NoSlots(SlotsOf(recs), 0, b);
    } else {
      TablesEnd(recs, b, s - 1);
      TableNext(SlotsOf(recs), b, s - 1);
      SlotLength(recs, s - 1);
      Scale(CountTo(recs, s - 1), |Members(recs, s - 1)|, CellSize(b));
    }
  }

  lemma SlotLength(recs: seq<Rec>, s: nat)
    requires s < SLOTS
    ensures |SlotsOf(recs)[s]| == |Members(recs, s)|
  {
    PlacementPermutes(HpsOf(recs, Members(recs, s)));
  }

  lemma Scale(a: nat, b: nat, w: nat)
    ensures 2 * (a + b) * w == 2 * a * w + 2 * b * w
  {
  }

  lemma FileEnd(recs: seq<Rec>)
    ensures TablePos(recs, SLOTS) == Base(Data(recs)) + 2 * |recs| * CellSize(BitsOf(recs))
  {
    hide Base, Data, SlotsOf, TableOffset, CellSize;
    TablesEnd(recs, BitsOf(recs), SLOTS);
    CountAll(recs);
  }

  lemma BaseGrows(a: seq<byte>, b: seq<byte>)
    requires |a| <= |b|
    ensures Base(a) <= Base(b) && Base(a) < HEADER_SZ + |a| + PAD_ALIGN
  {
    var x, y := HEADER_SZ + |a| + PadLen(HEADER_SZ + |a|), HEADER_SZ + |b| + PadLen(HEADER_SZ + |b|);
    assert x % PAD_ALIGN == 0 && y % PAD_ALIGN == 0;
  }

  // ----- limits

  // Some of the records of a list that finish can store, each taken once
  lemma PickedFinishable(recs: seq<Rec>, ids: seq<int>, out: seq<Rec>)
    requires Finishable(recs) && Distinct(ids) && forall k :: 0 <= k < |ids| ==> 0 <= ids[k] < |recs|
    requires out == Picked(recs, ids)
    ensures Finishable(out)
  {
    hide Data, Members, Base, TablePos, Distinct;
    PickedCount(recs, ids);
    PickedData(recs, ids, out);
    BaseGrows(Data(out), Data(recs));
    FileEnd(recs);
    FileEnd(out);
    forall s | 0 <= s < SLOTS
      ensures |Members(out, s)| <= SlotLimit(BitsOf(out))
    {
      PickedMembers(recs, ids, out, s);
    }
    EndGrows(|out|, |recs|, CellSize(BitsOf(out)), CellSize(BitsOf(recs)));
  }

  lemma EndGrows(a: nat, b: nat, v: nat, w: nat)
    requires a <= b && v <= w
    ensures 2 * a * v <= 2 * b * w
  {
    assert a * v <= b * v <= b * w;
  }

  lemma PickedCount(recs: seq<Rec>, ids: seq<int>)
    requires Distinct(ids) && forall k :: 0 <= k < |ids| ==> 0 <= ids[k] < |recs|
    ensures |ids| <= |recs|
  {
    var ones: seq<nat> := seq(|recs|, _ => 1);
    TotalPicked(ones, ids);
    OnesTotal(ones);
    OnesTotal(Picked(ones, ids));
  }

  lemma {:induction false} OnesTotal(ws: seq<nat>)
    requires forall i :: 0 <= i < |ws| ==> ws[i] == 1
    ensures Total(ws) == |ws|
  {
    if ws != [] {
      OnesTotal(ws[..|ws| - 1]);
    }
  }

  lemma PickedData(recs: seq<Rec>, ids: seq<int>, out: seq<Rec>)
    requires Distinct(ids) && forall k :: 0 <= k < |ids| ==> 0 <= ids[k] < |recs|
    requires out == Picked(recs, ids)
    ensures |Data(out)| <= |Data(recs)|
  {
    hide Data, Total;
    TotalPicked(Sizes(recs), ids);
    assert Sizes(out) == Picked(Sizes(recs), ids);
    DataTotal(recs);
    DataTotal(out);
  }

  lemma PickedMembers(recs: seq<Rec>, ids: seq<int>, out: seq<Rec>, s: nat)
    requires Distinct(ids) && forall k :: 0 <= k < |ids| ==> 0 <= ids[k] < |recs|
    requires out == Picked(recs, ids)
    ensures |Members(out, s)| <= |Members(recs, s)|
  {
    hide Members, Hash, Total;
    TotalPicked(Marks(recs, s), ids);
    assert Marks(out, s) == Picked(Marks(recs, s), ids);
    MembersTotal(recs, s);
    MembersTotal(out, s);
  }

  // At most 2^27 records of any size can be stored, however they fall into slots.
  lemma FewFinishable(recs: seq<Rec>)
    requires |recs| <= 0x800_0000
    ensures Finishable(recs)
  {
    hide Data, Members, TablePos, Base, BitsOf;
    DataTotal(recs);
    TotalBounded(Sizes(recs), 0x1_0000_0000);
    BaseGrows(Data(recs), Data(recs));
    FileEnd(recs);
    forall s | 0 <= s < SLOTS
      ensures |Members(recs, s)| <= SlotLimit(BitsOf(recs))
    {
      MembersCount(recs, s);
    }
    EndGrows(|recs|, |recs|, CellSize(BitsOf(recs)), 16);
  }
}
