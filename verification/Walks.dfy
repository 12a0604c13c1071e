// mcdb.c: whole-file walks.  Counting records, checking the header, iterating the data section.
module Walks {
  import opened Bytes
  import opened Uint32
  import opened Parts
  import opened Layout
  import opened Reader

  // Records in the slots before slot s
  ghost function CountTo(recs: seq<Rec>, s: nat): nat {
    if s == 0 then 0 else CountTo(recs, s - 1) + |Members(recs, s - 1)|
  }

  lemma {:induction false} CountLast(recs: seq<Rec>, s: nat)
    requires recs != []
    ensures var n := |recs| - 1;
      CountTo(recs, s) == CountTo(recs[..n], s) + if Slot(Hash(recs[n].key)) < s then 1 else 0
  {
    hide Hash, Members;
    if s > 0 {
      LastMember(recs, s - 1);
      CountLast(recs, s - 1);
    }
  }

  // The slots partition the records.
  lemma {:induction false} CountAll(recs: seq<Rec>)
    ensures CountTo(recs, SLOTS) == |recs|
  {
    if recs == [] {
      CountNone(SLOTS);
    } else {
      CountLast(recs, SLOTS);
      CountAll(recs[..|recs| - 1]);
    }
  }

  lemma {:induction false} CountNone(s: nat)
    ensures CountTo([], s) == 0
  {
    if s > 0 {
      NoMembers(s - 1);
      CountNone(s - 1);
    }
  }

  lemma {:induction false} CountGrows(recs: seq<Rec>, s: nat, t: nat)
    requires s <= t
    ensures CountTo(recs, s) <= CountTo(recs, t)
    decreases t
  {
    if s < t {
      CountGrows(recs, s, t - 1);
    }
  }

  // mcdb_numrecs: half the sum of hslots, summed once
  method NumRecs(mm: McdbMmap, ghost recs: seq<Rec>) returns (n: word)
    requires mm.Holds(recs) && (mm.n == UINT_MAX || mm.n == |recs|)
    modifies mm
    ensures n == mm.n == |recs|
  {
    hide IsImage, Storable, Members, Flat, SlotsOf;
    if mm.n == UINT_MAX {
      var u: word, i := 0, 8;
      ghost var s := 0;
      CountAll(recs);
      assert |recs| <= INT_MAX by { StorableCount(recs); }
      while i < HEADER_SZ
        invariant s <= SLOTS && i == 16 * s + 8
        invariant u == 2 * CountTo(recs, s)
      {
        HeaderFields(mm.ptr, recs, s);
        CountGrows(recs, s + 1, SLOTS);
        u := (u + Get32(mm.ptr, i)) % 0x1_0000_0000;
        i, s := i + 16, s + 1;
      }
      mm.n := u / 2;
    }
    return mm.n;
  }

  lemma StorableCount(recs: seq<Rec>)
    requires Storable(recs)
    ensures |recs| <= INT_MAX
  {
  }

  // ----- mcdb_validate_slots, on any file

  ghost function HeadPos(file: seq<byte>, s: nat): long
    requires |file| >= HEADER_SZ && s < SLOTS
  {
    Get64(file, 16 * s)
  }

  ghost function HeadSlots(file: seq<byte>, s: nat): word
    requires |file| >= HEADER_SZ && s < SLOTS
  {
    Get32(file, 16 * s + 8)
  }

  // Where the table after the first s tables must start, in 64-bit arithmetic
  ghost function NextPos(file: seq<byte>, b: bits, s: nat): long
    requires |file| >= HEADER_SZ && s <= SLOTS
  {
    if s == 0 then HeadPos(file, 0)
    else (NextPos(file, b, s - 1) + HeadSlots(file, s - 1) * CellSize(b)) % 0x1_0000_0000_0000_0000
  }

  ghost predicate SlotsChained(file: seq<byte>, b: bits) {
    && |file| >= HEADER_SZ
    && (forall s :: 0 <= s < SLOTS ==> HeadPos(file, s) == NextPos(file, b, s))
    && NextPos(file, b, SLOTS) == |file|
  }

  // Where table s starts, or the file ends
  ghost function StartOf(file: seq<byte>, s: nat): nat
    requires |file| >= HEADER_SZ && s <= SLOTS
  {
    if s < SLOTS then HeadPos(file, s) else |file|
  }

  // The 256 tables fill the file from the first table's start to its end, no gap and no overlap.
  ghost predicate Tiled(file: seq<byte>, b: bits) {
    && |file| >= HEADER_SZ
    && (forall s {:trigger HeadSlots(file, s)} :: 0 <= s < SLOTS ==>
          HeadPos(file, s) + HeadSlots(file, s) * CellSize(b) == StartOf(file, s + 1))
  }

  method ValidateSlots(mm: McdbMmap) returns (r: bool)
    requires |mm.ptr| < 0x8000_0000_0000_0000
    modifies mm
    ensures r <==> SlotsChained(mm.ptr, mm.b)
    ensures r ==> mm.n == HeadCount(mm.ptr, SLOTS) / 2
  {
    hide Get64, Get32, NextPos, HeadCount;
    if HEADER_SZ > |mm.ptr| {
      return false;
    }
    var u, numrecs: word := 0, 0;
    var next := Get64(mm.ptr, 0);
    ghost var s := 0;
    NothingSummed(mm.ptr, mm.b);
    while u < HEADER_SZ
      invariant s <= SLOTS && u == 16 * s
      invariant next == NextPos(mm.ptr, mm.b, s) && numrecs == HeadCount(mm.ptr, s)
      invariant forall t :: 0 <= t < s ==> HeadPos(mm.ptr, t) == NextPos(mm.ptr, mm.b, t)
    {
      var hpos, hslots := Get64(mm.ptr, u), Get32(mm.ptr, u + 8);
      OneMoreSummed(mm.ptr, mm.b, s);
      numrecs := (numrecs + hslots) % 0x1_0000_0000;
      if hpos != next {
        assert HeadPos(mm.ptr, s) != NextPos(mm.ptr, mm.b, s);
        return false;
      }
      next := (next + hslots * CellSize(mm.b)) % 0x1_0000_0000_0000_0000;
      u, s := u + 16, s + 1;
    }
    mm.n := numrecs / 2;
    return next == |mm.ptr|;
  }

  // Sum of hslots in 32-bit arithmetic
  ghost function HeadCount(file: seq<byte>, s: nat): word
    requires |file| >= HEADER_SZ && s <= SLOTS
  {
    if s == 0 then 0 else (HeadCount(file, s - 1) + HeadSlots(file, s - 1)) % 0x1_0000_0000
  }

  lemma NothingSummed(file: seq<byte>, b: bits)
    requires |file| >= HEADER_SZ
    ensures NextPos(file, b, 0) == HeadPos(file, 0) && HeadCount(file, 0) == 0
  {
  }

  lemma OneMoreSummed(file: seq<byte>, b: bits, s: nat)
    requires |file| >= HEADER_SZ && s < SLOTS
    ensures NextPos(file, b, s + 1) == (NextPos(file, b, s) + HeadSlots(file, s) * CellSize(b)) % 0x1_0000_0000_0000_0000
    ensures HeadCount(file, s + 1) == (HeadCount(file, s) + HeadSlots(file, s)) % 0x1_0000_0000
  {
    hide HeadSlots, CellSize;
  }

  lemma {:induction false} NextPosPlain(file: seq<byte>, b: bits, s: nat)
    requires |file| >= HEADER_SZ && s <= SLOTS && HeadPos(file, 0) < 0x8000_0000_0000_0000
    ensures NextPos(file, b, s) <= HeadPos(file, 0) + s * 0x10_0000_0000
    ensures s > 0 ==> NextPos(file, b, s) == NextPos(file, b, s - 1) + HeadSlots(file, s - 1) * CellSize(b)
  {
    hide HeadPos, HeadSlots;
    if s > 0 {
      NextPosPlain(file, b, s - 1);
      assert HeadSlots(file, s - 1) * CellSize(b) <= 0x10_0000_0000;
    }
  }

  lemma {:induction false} TiledChain(file: seq<byte>, b: bits, s: nat)
    requires Tiled(file, b) && s <= SLOTS && HeadPos(file, 0) < 0x8000_0000_0000_0000
    ensures NextPos(file, b, s) == StartOf(file, s)
  {
    hide HeadPos, HeadSlots;
    if s > 0 {
      TiledChain(file, b, s - 1);
      NextPosPlain(file, b, s);
      assert NextPos(file, b, s) == HeadPos(file, s - 1) + HeadSlots(file, s - 1) * CellSize(b);
    }
  }

  // Tables that tile end where the file does, so none starts after its end.
  lemma {:induction false} TiledInside(file: seq<byte>, b: bits, s: nat)
    requires Tiled(file, b) && s < SLOTS
    ensures HeadPos(file, s) <= |file|
    decreases SLOTS - s
  {
    hide HeadPos, HeadSlots;
    assert HeadPos(file, s) + HeadSlots(file, s) * CellSize(b) == StartOf(file, s + 1);
    if s + 1 < SLOTS {
      TiledInside(file, b, s + 1);
    }
  }

  // Tables tile exactly when the header is accepted and the first one starts inside the file.
  lemma AcceptedIsTiled(file: seq<byte>, b: bits)
    requires |file| < 0x8000_0000_0000_0000
    ensures Tiled(file, b) <==> SlotsChained(file, b) && HeadPos(file, 0) <= |file|
  {
    hide HeadPos, HeadSlots;
    if |file| >= HEADER_SZ {
      if HeadPos(file, 0) <= |file| {
        ChainedInside(file, b);
      } else if Tiled(file, b) {
        TiledInside(file, b, 0);
        assert false;
      }
    }
  }

  lemma ChainedInside(file: seq<byte>, b: bits)
    requires |file| >= HEADER_SZ && HeadPos(file, 0) <= |file| < 0x8000_0000_0000_0000
    ensures SlotsChained(file, b) <==> Tiled(file, b)
  {
    hide HeadPos, HeadSlots;
    forall s | 0 <= s <= SLOTS
      ensures s > 0 ==> NextPos(file, b, s) == NextPos(file, b, s - 1) + HeadSlots(file, s - 1) * CellSize(b)
    {
      NextPosPlain(file, b, s);
    }
    if Tiled(file, b) {
      forall s | 0 <= s <= SLOTS
        ensures NextPos(file, b, s) == StartOf(file, s)
      {
        TiledChain(file, b, s);
      }
    }
    if SlotsChained(file, b) {
      forall s | 0 <= s < SLOTS
        ensures HeadPos(file, s) + HeadSlots(file, s) * CellSize(b) == NextPos(file, b, s + 1)
      {
      }
    }
  }

  // The sum is 64-bit, so a first table placed 4096 bytes below 2^64 is accepted in a file of 4096
  // bytes.
  lemma WrappedHeaderAccepted() returns (file: seq<byte>)
    ensures |file| == HEADER_SZ && HeadPos(file, 0) > |file|
    ensures SlotsChained(file, 3) && !Tiled(file, 3)
  {
    hide HeaderEntry, Get64, Get32, Flat;
    var first, last := HeaderEntry(0xFFFF_FFFF_FFFF_F000, 1024), HeaderEntry(HEADER_SZ, 0);
    var parts := seq(SLOTS, s => if s == 0 then first else last);
    file := Flat(parts);
    FlatUniform(parts, 16);
    forall s | 0 <= s < SLOTS
      ensures HeadPos(file, s) == if s == 0 then 0xFFFF_FFFF_FFFF_F000 else HEADER_SZ
      ensures HeadSlots(file, s) == if s == 0 then 1024 else 0
    {
      AtUniform(file, 0, parts, 16, s);
      if s == 0 {
        EntryFields(file, 0, 0xFFFF_FFFF_FFFF_F000, 1024);
      } else {
        EntryFields(file, 16 * s, HEADER_SZ, 0);
      }
    }
    forall s | 1 <= s <= SLOTS
      ensures NextPos(file, 3, s) == HEADER_SZ
    {
      WrappedChain(file, s);
    }
    assert HeadPos(file, 0) + HeadSlots(file, 0) * CellSize(3) != HeadPos(file, 1);
  }

  lemma {:induction false} WrappedChain(file: seq<byte>, s: nat)
    requires |file| == HEADER_SZ && 1 <= s <= SLOTS
    requires HeadPos(file, 0) == 0xFFFF_FFFF_FFFF_F000
    requires forall t :: 0 <= t < SLOTS ==> HeadSlots(file, t) == if t == 0 then 1024 else 0
    ensures NextPos(file, 3, s) == HEADER_SZ
  {
    hide HeadPos, HeadSlots;
    if s > 1 {
      WrappedChain(file, s - 1);
    } else {
      assert NextPos(file, 3, 0) == 0xFFFF_FFFF_FFFF_F000;
    }
  }

  // One slot of a produced file
  lemma ProducedHead(file: seq<byte>, recs: seq<Rec>, s: nat)
    requires IsImage(file, recs) && Storable(recs) && s < SLOTS
    ensures |file| >= HEADER_SZ && HeadPos(file, s) == TablePos(recs, s)
    ensures HeadPos(file, s) + HeadSlots(file, s) * CellSize(BitsOf(recs)) == TablePos(recs, s + 1)
    ensures HeadSlots(file, s) == 2 * |Members(recs, s)|
  {
    hide Flat, SlotsOf, HashFold, Members, TableOffset, BitsOf;
    HeaderFields(file, recs, s);
    TableNext(SlotsOf(recs), BitsOf(recs), s);
  }

  lemma ProducedEnd(file: seq<byte>, recs: seq<Rec>)
    requires IsImage(file, recs) && Storable(recs)
    ensures HEADER_SZ <= |file| == TablePos(recs, SLOTS) < 0x8000_0000_0000_0000
    ensures TablePos(recs, 0) <= |file| && |recs| <= INT_MAX
  {
    hide Flat, SlotsOf, HashFold, Members, TableOffset, BitsOf;
    HeaderFields(file, recs, 0);
    TableOrder(recs, 0);
  }

  lemma ProducedTiles(file: seq<byte>, recs: seq<Rec>)
    requires |file| >= HEADER_SZ && |file| == TablePos(recs, SLOTS)
    requires forall s :: 0 <= s < SLOTS ==>
      && HeadPos(file, s) == TablePos(recs, s)
      && HeadPos(file, s) + HeadSlots(file, s) * CellSize(BitsOf(recs)) == TablePos(recs, s + 1)
    ensures Tiled(file, BitsOf(recs))
  {
    hide TablePos, HeadPos, HeadSlots, BitsOf;
  }

  // Every produced file is accepted, and its count is the number of records added.
  lemma ProducedIsAccepted(file: seq<byte>, recs: seq<Rec>)
    requires IsImage(file, recs) && Storable(recs)
    ensures |file| >= HEADER_SZ && HeadPos(file, 0) <= |file| < 0x8000_0000_0000_0000
    ensures SlotsChained(file, BitsOf(recs)) && Tiled(file, BitsOf(recs))
    ensures HeadCount(file, SLOTS) / 2 == |recs|
  {
    ProducedEnd(file, recs);
    hide *;
    forall s | 0 <= s < SLOTS
      ensures HeadPos(file, s) == TablePos(recs, s)
      ensures HeadPos(file, s) + HeadSlots(file, s) * CellSize(BitsOf(recs)) == TablePos(recs, s + 1)
      ensures HeadSlots(file, s) == 2 * |Members(recs, s)|
    {
      ProducedHead(file, recs, s);
    }
    ProducedTiles(file, recs);
    AcceptedIsTiled(file, BitsOf(recs));
    ProducedCount(file, recs, SLOTS);
    CountAll(recs);
  }

  lemma {:induction false} ProducedCount(file: seq<byte>, recs: seq<Rec>, s: nat)
    requires |file| >= HEADER_SZ && s <= SLOTS && |recs| <= INT_MAX
    requires forall t :: 0 <= t < SLOTS ==> HeadSlots(file, t) == 2 * |Members(recs, t)|
    ensures HeadCount(file, s) == 2 * CountTo(recs, s) <= 2 * |recs|
  {
    hide HeadSlots, Members;
    CountAll(recs);
    CountGrows(recs, s, SLOTS);
    if s > 0 {
      ProducedCount(file, recs, s - 1);
    }
  }

  // ----- struct mcdb_iter

  lemma FirstPosition(m: McdbMmap, recs: seq<Rec>)
    requires m.Holds(recs)
    ensures |m.ptr| >= 8 && Get64(m.ptr, 0) == Base(Data(recs))
  {
    hide IsImage, Storable, TablePos;
    HeaderFields(m.ptr, recs, 0);
    FirstTable(recs);
  }

  class McdbIter {
    const mm: McdbMmap
    var ptr: nat         // next record
    var eod: int
    var klen: word
    var dlen: word

    // mcdb_iter_init
    constructor (m: McdbMmap, ghost recs: seq<Rec>)
      requires m.Holds(recs)
      ensures mm == m && Next(recs, 0)
    {
      hide *;
      mm := m;
      ptr := HEADER_SZ;
      FirstPosition(m, recs);
      eod := Get64(m.ptr, 0) - 7;
      klen, dlen := 0, 0;
      new;
      StartOfData(recs);
    }

    lemma StartOfData(recs: seq<Rec>)
      requires mm.Holds(recs) && ptr == HEADER_SZ && eod == Base(Data(recs)) - 7
      ensures Next(recs, 0)
    {
      hide McdbMmap.Holds;
      assert recs[..0] == [];
    }

    // Record i is the next one; none is when i == |recs|.
    ghost predicate Next(recs: seq<Rec>, i: nat)
      reads this
    {
      && mm.Holds(recs) && i <= |recs|
      && eod == Base(Data(recs)) - 7
      && (ptr == Pos(recs, i) || (i == |recs| && ptr == eod))
    }

    // The fields describe record i.
    ghost predicate AtRecord(recs: seq<Rec>, i: nat)
      reads this
    {
      && i < |recs|
      && klen == |recs[i].key| && dlen == |recs[i].data|
      && ptr == Pos(recs, i) + 8 + klen + dlen <= |mm.ptr|
      && mm.ptr[ptr - dlen - klen..ptr - dlen] == recs[i].key
      && mm.ptr[ptr - dlen..ptr] == recs[i].data
    }

    // mcdb_iter: the next record in insertion order, or false at the padding
    method Advance(ghost recs: seq<Rec>, ghost i: nat) returns (r: bool)
      requires Next(recs, i)
      modifies this
      ensures r <==> i < |recs|
      ensures r ==> AtRecord(recs, i) && Next(recs, i + 1)
      ensures !r ==> Next(recs, i)
    {
      hide IsImage, Storable, Flat, Get32, SlotsOf, BitsOf;
      EndOfData(mm.ptr, recs);
      if i < |recs| {
        RecFields(mm.ptr, recs, i);
      }
      if ptr < eod {
        klen := Get32(mm.ptr, ptr);
        dlen := Get32(mm.ptr, ptr + 4);
        ptr := ptr + (8 + klen + dlen) % 0x1_0000_0000;
        if klen != UINT_MAX {
          return true;
        }
        ptr := eod;
      }
      return false;
    }

    method KeyPtr(ghost recs: seq<Rec>, ghost i: nat) returns (key: seq<byte>)
      requires AtRecord(recs, i)
      ensures key == recs[i].key
    {
      return mm.ptr[ptr - dlen - klen..ptr - dlen];
    }
  }

  // Padding shorter than 8 bytes starts at or after eod; longer padding reads as klen ~0.
  lemma EndOfData(file: seq<byte>, recs: seq<Rec>)
    requires IsImage(file, recs)
    ensures var end := Pos(recs, |recs|);
      && end + PadLen(end) == Base(Data(recs)) <= |file|
      && (PadLen(end) >= 8 ==> Get32(file, end) == UINT_MAX)
  {
    hide Flat, SlotsOf, BitsOf;
    assert recs[..|recs|] == recs;
    var end := Pos(recs, |recs|);
    if PadLen(end) >= 8 {
      AtSlice(file, end, Ones(PadLen(end)), 0, 4);
      assert Ones(PadLen(end))[0..4] == [0xFF, 0xFF, 0xFF, 0xFF];
    }
  }
}
