// mcdb.c: the mmap reader.
module Reader {
  import opened Wrappers
  import opened Bytes
  import opened Uint32
  import opened Parts
  import opened ProbeTable
  import opened Layout
  import opened Search

  // The stride that mcdb_mmap_init picks from the file alone
  predicate NarrowCells(file: seq<byte>) {
    |file| < UINT_MAX || Get32(file, 0) == 0
  }

  // The key under which a record is stored: tag 0 is reserved to mean no tag
  function TagKey(key: seq<byte>, tagc: byte): seq<byte> {
    if tagc != 0 then [tagc] + key else key
  }

  // ----- facts about a produced file

  lemma EntryFields(file: seq<byte>, at: nat, hpos: long, len: word)
    requires At(file, at, HeaderEntry(hpos, len))
    ensures Get64(file, at) == hpos && Get32(file, at + 8) == len
    ensures Get32(file, at) == hpos / 0x1_0000_0000
  {
    hide Pack64, Pack32, Unpack32, Unpack64;
    AtConcat(file, at, Pack64(hpos) + Pack32(len), Pack32(0));
    AtConcat(file, at, Pack64(hpos), Pack32(len));
    assert file[at..at + 4] == Pack64(hpos)[..4];
    PackedHigh(hpos);
    UnpackPack64(hpos);
    UnpackPack32(len);
  }

  lemma PackedHigh(w: long)
    ensures Unpack32(Pack64(w)[..4]) == w / 0x1_0000_0000
  {
    assert Pack64(w)[..4] == Pack32(w / 0x1_0000_0000);
    UnpackPack32(w / 0x1_0000_0000);
  }

  lemma HeaderFields(file: seq<byte>, recs: seq<Rec>, s: nat)
    requires IsImage(file, recs) && Storable(recs) && s < SLOTS
    ensures 16 * s + 16 <= HEADER_SZ <= |file|
    ensures |SlotsOf(recs)[s]| == |Members(recs, s)| <= |recs|
    ensures Get64(file, 16 * s) == TablePos(recs, s)
    ensures Get32(file, 16 * s + 8) == 2 * |SlotsOf(recs)[s]|
    ensures Get32(file, 16 * s) == TablePos(recs, s) / 0x1_0000_0000
  {
    hide Flat, Build, Placement, HeaderEntry;
    HeaderAt(file, recs, s);
    SlotEntries(recs, s);
    MembersCount(recs, s);
    TableOrder(recs, s);
    HeaderSize(SlotsOf(recs), Base(Data(recs)), BitsOf(recs));
    EntryFields(file, 16 * s, TablePos(recs, s), 2 * |SlotsOf(recs)[s]|);
  }

  lemma {:induction false} MembersCount(recs: seq<Rec>, s: nat)
    ensures |Members(recs, s)| <= |recs|
  {
    hide Members;
    if recs != [] {
      LastMember(recs, s);
      MembersCount(recs[..|recs| - 1], s);
    } else {
      NoMembers(s);
    }
  }

  lemma NoMembers(s: nat)
    ensures Members([], s) == []
  {
  }

  lemma {:induction false} TableOrder(recs: seq<Rec>, s: nat)
    requires s <= SLOTS
    ensures Base(Data(recs)) <= TablePos(recs, s) <= TablePos(recs, SLOTS)
    decreases SLOTS - s
  {
    hide Flat, Build, Placement;
    if s < SLOTS {
      TableNext(SlotsOf(recs), BitsOf(recs), s);
      TableOrder(recs, s + 1);
    }
  }

  // Record r lies at position `at`.
  ghost predicate RecordIs(file: seq<byte>, at: nat, r: Rec) {
    && at + 8 + |r.key| + |r.data| <= |file|
    && Get32(file, at) == |r.key| && Get32(file, at + 4) == |r.data|
    && file[at + 8..at + 8 + |r.key|] == r.key
    && file[at + 8 + |r.key|..at + 8 + |r.key| + |r.data|] == r.data
  }

  lemma RecFields(file: seq<byte>, recs: seq<Rec>, i: nat)
    requires IsImage(file, recs) && i < |recs|
    ensures Pos(recs, i) + 8 + |recs[i].key| + |recs[i].data| == Pos(recs, i + 1)
    ensures Pos(recs, i + 1) <= HEADER_SZ + |Data(recs)| <= Base(Data(recs)) <= |file|
    ensures RecordIs(file, Pos(recs, i), recs[i])
  {
    hide Flat, Build, Placement, TableOffset;
    RecAt(file, recs, i);
    var r, at := recs[i], Pos(recs, i);
    assert RecBytes(r) == Pack32(|r.key|) + (Pack32(|r.data|) + (r.key + r.data));
    AtConcat(file, at, Pack32(|r.key|), Pack32(|r.data|) + (r.key + r.data));
    AtConcat(file, at + 4, Pack32(|r.data|), r.key + r.data);
    AtConcat(file, at + 8, r.key, r.data);
    UnpackPack32(|r.key|);
    UnpackPack32(|r.data|);
  }

  // Writer and reader choose the same cell size, though they test different things: this rests on
  // the tables being aligned.
  lemma StridesAgree(file: seq<byte>, recs: seq<Rec>)
    requires IsImage(file, recs) && Storable(recs)
    ensures |file| >= HEADER_SZ && (NarrowCells(file) <==> BitsOf(recs) == 3)
  {
    hide Flat, Build, Placement;
    TableOrder(recs, 0);
    HeaderFields(file, recs, 0);
    FirstTable(recs);
  }

  lemma FirstTable(recs: seq<Rec>)
    ensures TablePos(recs, 0) == Base(Data(recs))
  {
    assert Tables(SlotsOf(recs), BitsOf(recs))[..0] == [];
  }

  // ----- struct mcdb_mmap

  class McdbMmap {
    const ptr: seq<byte>
    const b: bits
    var n: word          // number of records, or ~0 until counted

    // mcdb_mmap_init on an opened file
    constructor (file: seq<byte>)
      requires |file| >= 4
      ensures ptr == file && n == UINT_MAX
      ensures b == 3 <==> NarrowCells(file)
      ensures b == 3 <==> |file| < 0xFFFF_FFFF || file[..4] == [0, 0, 0, 0]
    {
      ptr := file;
      b := if |file| < UINT_MAX || Get32(file, 0) == 0 then 3 else 4;
      n := UINT_MAX;
    }

    // The map is that of a file produced from recs.
    ghost predicate Holds(recs: seq<Rec>) {
      IsImage(ptr, recs) && Storable(recs) && b == BitsOf(recs)
    }
  }

  // In either layout every stored position is non-zero and fits its field.
  lemma PositionFits(file: seq<byte>, recs: seq<Rec>, i: nat)
    requires IsImage(file, recs) && Storable(recs) && i < |recs|
    ensures 0 < Pos(recs, i) < |file|
    ensures if BitsOf(recs) == 3 then Pos(recs, i) < 0x1_0000_0000 else Pos(recs, i) < 0x1_0000_0000_0000_0000
  {
    hide Flat, Build, Placement, TableOffset;
    RecFields(file, recs, i);
  }

  // Cell c of slot s's table is empty, or holds the entry of a record of the slot.
  lemma CellFields(file: seq<byte>, recs: seq<Rec>, s: nat, c: nat, at: nat, j: int)
    requires IsImage(file, recs) && Storable(recs) && s < SLOTS && c < 2 * |SlotsOf(recs)[s]|
    requires at == TablePos(recs, s) + c * CellSize(BitsOf(recs))
    requires j == Cells(SlotsOf(recs)[s], 2 * |SlotsOf(recs)[s]|)[c]
    ensures at + CellSize(BitsOf(recs)) <= |file|
    ensures j < 0 ==> Get32(file, at + 4) == 0 && (BitsOf(recs) == 4 ==> Get64(file, at + 8) == 0)
    ensures j >= 0 ==> j < |Placed(recs, s)| && CellIs(file, at, BitsOf(recs), HpOf(recs, Placed(recs, s)[j]))
  {
    hide *;
    TableAt(file, recs, s);
    CellAt(file, TablePos(recs, s), SlotsOf(recs)[s], BitsOf(recs), c);
    if j < 0 {
      ZeroFields(file, at, BitsOf(recs));
    } else {
      EntryOfCell(recs, s, j);
      PositionFits(file, recs, Placed(recs, s)[j]);
      EntryCell(file, at, BitsOf(recs), SlotsOf(recs)[s][j]);
    }
  }

  lemma EntryOfCell(recs: seq<Rec>, s: nat, j: nat)
    requires s < SLOTS && j < |SlotsOf(recs)[s]|
    ensures j < |Placed(recs, s)| && SlotsOf(recs)[s][j] == HpOf(recs, Placed(recs, s)[j])
    ensures HpOf(recs, Placed(recs, s)[j]).p == Pos(recs, Placed(recs, s)[j])
  {
    hide Placed, SlotsOf;
    SlotEntries(recs, s);
  }

  ghost predicate CellIs(file: seq<byte>, at: nat, b: bits, e: Hp) {
    && at + CellSize(b) <= |file|
    && file[at..at + 4] == Pack32(e.h)
    && (b == 3 ==> Get32(file, at + 4) == e.p)
    && (b == 4 ==> Get32(file, at + 4) == e.l && Get64(file, at + 8) == e.p)
  }

  lemma ZeroFields(file: seq<byte>, at: nat, b: bits)
    requires At(file, at, Zeros(CellSize(b)))
    ensures at + CellSize(b) <= |file|
    ensures Get32(file, at + 4) == 0 && (b == 4 ==> Get64(file, at + 8) == 0)
  {
    var z := Zeros(CellSize(b));
    AtSlice(file, at, z, 4, 8);
    if b == 4 {
      AtSlice(file, at, z, 8, 16);
    }
  }

  lemma EntryCell(file: seq<byte>, at: nat, b: bits, e: Hp)
    requires At(file, at, CellBytes(b, e))
    requires if b == 3 then e.p < 0x1_0000_0000 else e.p < 0x1_0000_0000_0000_0000
    ensures CellIs(file, at, b, e) && at + CellSize(b) <= |file|
  {
    hide Pack32, Pack64, Unpack32, Unpack64;
    if b == 3 {
      AtConcat(file, at, Pack32(e.h), Pack32(e.p));
      UnpackPack32(e.p);
    } else {
      AtConcat(file, at, Pack32(e.h) + Pack32(e.l), Pack64(e.p));
      AtConcat(file, at, Pack32(e.h), Pack32(e.l));
      UnpackPack32(e.l);
      UnpackPack64(e.p);
    }
  }

  // ----- struct mcdb: lookup by key

  class Mcdb {
    const mm: McdbMmap
    var loop: word       // cells visited
    var hslots: word
    var kpos: nat        // next cell
    var hpos: nat        // the slot's table
    var dpos: nat        // data of the record found
    var dlen: word
    var klen: word
    var khash: seq<byte> // stored big-endian

    constructor (m: McdbMmap)
      ensures mm == m && loop == 0
    {
      mm := m;
      loop, hslots, kpos, hpos, dpos, dlen, klen, khash := 0, 0, 0, 0, 0, 0, 0, [];
    }

    // The lookup of the stored key k has visited `loop` cells from k's home.
    ghost predicate Cursor(recs: seq<Rec>, k: seq<byte>)
      reads this
    {
      && mm.Holds(recs) && TableOf(recs, k, hpos, hslots)
      && khash == Pack32(Hash(k))
      && loop <= hslots
      && kpos == Position(k, hpos, hslots, mm.b, loop)
    }

    // Record numbers that the lookup will still return
    ghost function Left(recs: seq<Rec>, k: seq<byte>): seq<nat>
      requires Cursor(recs, k)
      reads this
    {
      Remaining(recs, k, loop)
    }

    // The fields describe record i.
    ghost predicate AtRecord(recs: seq<Rec>, i: nat)
      reads this
    {
      && i < |recs|
      && klen == |recs[i].key| && dlen == |recs[i].data|
      && dpos == Pos(recs, i) + 8 + |recs[i].key|
      && dpos + dlen <= |mm.ptr| && mm.ptr[dpos..dpos + dlen] == recs[i].data
    }

    method FindTagStart(key: seq<byte>, tagc: byte, ghost recs: seq<Rec>) returns (r: bool)
      requires mm.Holds(recs)
      modifies this
      ensures r ==> Cursor(recs, TagKey(key, tagc)) && loop == 0
      ensures r ==> Left(recs, TagKey(key, tagc)) == Matches(recs, TagKey(key, tagc))
      ensures !r ==> Matches(recs, TagKey(key, tagc)) == []
    {
      hide SlotsOf, Members, Matches, Remaining, IsImage, Storable, TablePos, HashFold, Get64, Get32, Pack32, HashDjbUchar;
      var h := HASH_DJB_INIT;
      if tagc != 0 {
        h := HashDjbUchar(HASH_DJB_INIT, tagc);
      }
      h := HashDjb(h, key);
      ghost var k := TagKey(key, tagc);
      TagKeyHash(key, tagc);
      ghost var s := Slot(h);
      var at := (h % SLOTS) * 16;
      HeaderFields(mm.ptr, recs, s);
      hpos := Get64(mm.ptr, at);
      hslots := Get32(mm.ptr, at + 8);
      loop := 0;
      if hslots == 0 {
        EmptySlot(recs, k);
        return false;
      }
      kpos := hpos + (h / SLOTS % hslots) * CellSize(mm.b);
      khash := Pack32(h);
      RemainingFromStart(recs, k);
      assert NextCell(Home(h, hslots), 0, hslots) == Home(h, hslots);
      return true;
    }

    // One call of findtagnext: the next record still left, which lies in the last cell visited, or
    // false when none is.
    twostate predicate Advanced(recs: seq<Rec>, k: seq<byte>, r: bool)
      requires old(Cursor(recs, k))
      reads this
    {
      if r then
        && Cursor(recs, k) && 0 < loop
        && old(Left(recs, k)) != []
        && AtRecord(recs, old(Left(recs, k))[0]) && InCell(recs, k, loop - 1, old(Left(recs, k))[0])
        && Left(recs, k) == old(Left(recs, k))[1..]
      else old(Left(recs, k)) == [] && loop == 0
    }

    method FindTagNext(key: seq<byte>, tagc: byte, ghost recs: seq<Rec>) returns (r: bool)
      requires Cursor(recs, TagKey(key, tagc))
      modifies this
      ensures Advanced(recs, TagKey(key, tagc), r)
    {
      hide Mcdb.Cursor, Mcdb.Advanced;
      if mm.b == 3 {
        r := NextNarrow(key, tagc, recs);
      } else {
        r := NextWide(key, tagc, recs);
      }
    }

    // The loop over 8-byte cells: 4-byte khash, 4-byte dpos
    method NextNarrow(key: seq<byte>, tagc: byte, ghost recs: seq<Rec>) returns (r: bool)
      requires Cursor(recs, TagKey(key, tagc)) && mm.b == 3
      modifies this
      ensures Advanced(recs, TagKey(key, tagc), r)
    {
      hide TableOf, Position, Members, Remaining, IsImage, Storable, BitsOf, HashFold, Hash, Get64, Get32, Pack32, Pos,
        CellIs, RecordIs, InCell, TagKey;
      ghost var k := TagKey(key, tagc);
      var end := hpos + hslots * 8;
      while loop < hslots
        invariant Cursor(recs, k) && hslots == old(hslots) && hpos == old(hpos)
        invariant Left(recs, k) == old(Left(recs, k))
      {
        var at := kpos;
        ghost var i := VisitCell(mm.ptr, recs, k, hpos, hslots, mm.b, loop);
        NarrowCell(mm.ptr, at, recs, i);
        kpos := kpos + 8;
        if kpos == end {
          kpos := hpos;
        }
        var h := mm.ptr[at..at + 4];
        var vpos := Get32(mm.ptr, at + 4);
        if vpos == 0 {
          break;
        }
        loop := loop + 1;
        if h == khash {
          var hit := TestNarrow(vpos, key, tagc, recs, i);
          if hit {
            return true;
          }
        }
      }
      if loop == hslots {
        NoneLeft(recs, k, hpos, hslots);
      }
      loop := 0;
      return false;
    }

    // Is record i, at vpos, stored under the key?
    method TestNarrow(vpos: nat, key: seq<byte>, tagc: byte, ghost recs: seq<Rec>, ghost i: nat) returns (hit: bool)
      requires i < |recs| && vpos == Pos(recs, i) && RecordIs(mm.ptr, vpos, recs[i])
      modifies this`klen, this`dlen, this`dpos
      ensures hit <==> recs[i].key == TagKey(key, tagc)
      ensures hit ==> AtRecord(recs, i)
    {
      hide Get32, Pos, TagKey, KeyIs;
      KeySize(key, tagc);
      klen := Get32(mm.ptr, vpos);
      dlen := Get32(mm.ptr, vpos + 4);
      dpos := vpos + 8 + klen;
      hit := false;
      if klen == |key| + (if tagc != 0 then 1 else 0) {
        KeyIsTagKey(mm.ptr, vpos + 8, key, tagc);
        hit := KeyIs(mm.ptr, vpos + 8, key, tagc);
      }
    }

    // The loop over 16-byte cells: 4-byte khash, 4-byte klen, 8-byte dpos
    method NextWide(key: seq<byte>, tagc: byte, ghost recs: seq<Rec>) returns (r: bool)
      requires Cursor(recs, TagKey(key, tagc)) && mm.b == 4
      modifies this
      ensures Advanced(recs, TagKey(key, tagc), r)
    {
      hide TableOf, Position, Members, Remaining, IsImage, Storable, BitsOf, HashFold, Hash, Get64, Get32, Pack32, Pos,
        CellIs, RecordIs, InCell, TagKey;
      ghost var k := TagKey(key, tagc);
      KeySize(key, tagc);
      var end := hpos + hslots * 16;
      while loop < hslots
        invariant Cursor(recs, k) && hslots == old(hslots) && hpos == old(hpos)
        invariant Left(recs, k) == old(Left(recs, k))
      {
        var at := kpos;
        ghost var i := VisitCell(mm.ptr, recs, k, hpos, hslots, mm.b, loop);
        WideCell(mm.ptr, at, recs, i);
        kpos := kpos + 16;
        if kpos == end {
          kpos := hpos;
        }
        var h := mm.ptr[at..at + 4];
        klen := Get32(mm.ptr, at + 4);
        var vpos := Get64(mm.ptr, at + 8);
        if vpos == 0 {
          break;
        }
        loop := loop + 1;
        if h == khash && klen == |key| + (if tagc != 0 then 1 else 0) {
          var hit := TestWide(vpos, key, tagc, recs, i);
          if hit {
            return true;
          }
        }
      }
      if loop == hslots {
        NoneLeft(recs, k, hpos, hslots);
      }
      loop := 0;
      return false;
    }

    // ... when the cell has told that the key has the right length
    method TestWide(vpos: nat, key: seq<byte>, tagc: byte, ghost recs: seq<Rec>, ghost i: nat) returns (hit: bool)
      requires i < |recs| && vpos == Pos(recs, i) && RecordIs(mm.ptr, vpos, recs[i])
      requires klen == |recs[i].key| == |TagKey(key, tagc)|
      modifies this`dlen, this`dpos
      ensures hit <==> recs[i].key == TagKey(key, tagc)
      ensures hit ==> AtRecord(recs, i)
    {
      hide Get32, Pos, TagKey, KeyIs;
      dpos := vpos + 8 + klen;
      dlen := Get32(mm.ptr, vpos + 4);
      KeyIsTagKey(mm.ptr, vpos + 8, key, tagc);
      hit := KeyIs(mm.ptr, vpos + 8, key, tagc);
    }
  }

  lemma KeySize(key: seq<byte>, tagc: byte)
    ensures |TagKey(key, tagc)| == |key| + if tagc != 0 then 1 else 0
  {
  }

  lemma NarrowCell(file: seq<byte>, at: nat, recs: seq<Rec>, i: int)
    requires i >= 0 ==> i < |recs| && CellIs(file, at, 3, HpOf(recs, i))
    ensures i >= 0 ==> at + 8 <= |file| && file[at..at + 4] == Pack32(Hash(recs[i].key)) && Get32(file, at + 4) == Pos(recs, i)
  {
    hide Hash, Pack32, Get32, Pos;
  }

  lemma WideCell(file: seq<byte>, at: nat, recs: seq<Rec>, i: int)
    requires i >= 0 ==> i < |recs| && CellIs(file, at, 4, HpOf(recs, i))
    ensures i >= 0 ==>
      && at + 16 <= |file| && file[at..at + 4] == Pack32(Hash(recs[i].key))
      && Get32(file, at + 4) == |recs[i].key| && Get64(file, at + 8) == Pos(recs, i)
  {
    hide Hash, Pack32, Get32, Get64, Pos;
  }

  // The tag test and memcmp of findtagnext
  predicate KeyIs(file: seq<byte>, at: nat, key: seq<byte>, tagc: byte)
    requires at + |TagKey(key, tagc)| <= |file|
  {
    if tagc == 0 then file[at..at + |key|] == key
    else file[at] == tagc && file[at + 1..at + 1 + |key|] == key
  }

  lemma KeyIsTagKey(file: seq<byte>, at: nat, key: seq<byte>, tagc: byte)
    requires at + |TagKey(key, tagc)| <= |file|
    ensures KeyIs(file, at, key, tagc) <==> file[at..at + |TagKey(key, tagc)|] == TagKey(key, tagc)
  {
    var n := |TagKey(key, tagc)|;
    if tagc != 0 {
      assert file[at..at + n] == [file[at]] + file[at + 1..at + n];
      assert TagKey(key, tagc)[0] == tagc && TagKey(key, tagc)[1..] == key;
      assert file[at..at + n][0] == file[at] && file[at..at + n][1..] == file[at + 1..at + n];
    }
  }

  lemma EmptySlot(recs: seq<Rec>, k: seq<byte>)
    requires Members(recs, Slot(Hash(k))) == []
    ensures Matches(recs, k) == []
  {
  }

  // The table of k's slot has `len` cells and starts at hpos.
  ghost predicate TableOf(recs: seq<Rec>, k: seq<byte>, hpos: nat, len: nat) {
    var s := Slot(Hash(k));
    && Members(recs, s) != []
    && len == 2 * |SlotsOf(recs)[s]| == 2 * |Members(recs, s)|
    && hpos == TablePos(recs, s)
  }

  // The cell after d steps, back at the home cell after the whole round
  ghost function NextCell(home: nat, d: nat, len: nat): nat
    requires home < len && d <= len
  {
    if d == len then home else Cell(home, d, len)
  }

  ghost function Position(k: seq<byte>, hpos: nat, len: nat, b: bits, d: nat): nat
    requires d <= len && 0 < len
  {
    hpos + NextCell(Home(Hash(k), len), d, len) * CellSize(b)
  }

  lemma NextPosition(k: seq<byte>, hpos: nat, len: nat, b: bits, d: nat)
    requires d < len
    ensures Position(k, hpos, len, b, d + 1) ==
      var at := Position(k, hpos, len, b, d) + CellSize(b);
      if at == hpos + len * CellSize(b) then hpos else at
  {
    hide Hash, Home;
    var c := Cell(Home(Hash(k), len), d, len);
    if b == 3 {
      assert c * 8 + 8 == (c + 1) * 8;
    } else {
      assert c * 16 + 16 == (c + 1) * 16;
    }
  }

  // The entry number in the cell d steps after k's home, or EMPTY
  ghost function Step(recs: seq<Rec>, k: seq<byte>, d: nat): (j: int)
    requires d < 2 * |SlotsOf(recs)[Slot(Hash(k))]|
    ensures j < |SlotsOf(recs)[Slot(Hash(k))]|
  {
    var es := SlotsOf(recs)[Slot(Hash(k))];
    Cells(es, 2 * |es|)[Cell(Home(Hash(k), 2 * |es|), d, 2 * |es|)]
  }

  // Record i lies in the cell d steps after k's home.
  ghost predicate InCell(recs: seq<Rec>, k: seq<byte>, d: nat, i: nat) {
    var s := Slot(Hash(k));
    && d < 2 * |SlotsOf(recs)[s]| && 0 <= Step(recs, k, d) < |Placed(recs, s)|
    && Placed(recs, s)[Step(recs, k, d)] == i
  }

  // No other cell of the table holds that record.
  lemma InCellOnce(recs: seq<Rec>, k: seq<byte>, d: nat, e: nat, i: nat)
    requires InCell(recs, k, d, i) && InCell(recs, k, e, i)
    ensures d == e
  {
    hide SlotsOf, Placed, Hash, Build, Home, Slot;
    var es := SlotsOf(recs)[Slot(Hash(k))];
    PlacedDistinct(recs, Slot(Hash(k)));
    var t := Build(HomesOf(es, 2 * |es|), 2 * |es|);
    assert Stored(t, HomesOf(es, 2 * |es|), 2 * |es|);
  }

  lemma StepRemaining(recs: seq<Rec>, k: seq<byte>, d: nat)
    requires Members(recs, Slot(Hash(k))) != []
    ensures |SlotsOf(recs)[Slot(Hash(k))]| == |Placed(recs, Slot(Hash(k)))|
    ensures d >= 2 * |SlotsOf(recs)[Slot(Hash(k))]| ==> Remaining(recs, k, d) == []
    ensures d < 2 * |SlotsOf(recs)[Slot(Hash(k))]| ==>
      var j := Step(recs, k, d);
      if j < 0 then Remaining(recs, k, d) == []
      else
        var i := Placed(recs, Slot(Hash(k)))[j];
        Remaining(recs, k, d) == (if recs[i].key == k then [i] else []) + Remaining(recs, k, d + 1)
  {
    hide SlotsOf, Placed, Cells, Members, Hash, Wanted;
    var s := Slot(Hash(k));
    var es, idx := SlotsOf(recs)[s], Placed(recs, s);
    SlotEntries(recs, s);
    var cells, home, want := Cells(es, 2 * |es|), Home(Hash(k), 2 * |es|), Want(recs, idx, k);
    WalkBounded(cells, home, d, want);
    if d < 2 * |es| && cells[Cell(home, d, 2 * |es|)] >= 0 {
      WalkBounded(cells, home, d + 1, want);
      PickCons(idx, cells[Cell(home, d, 2 * |es|)], Walk(cells, home, d + 1, want));
    }
  }

  lemma NoneLeft(recs: seq<Rec>, k: seq<byte>, hpos: nat, len: nat)
    requires TableOf(recs, k, hpos, len)
    ensures Members(recs, Slot(Hash(k))) != [] && Remaining(recs, k, len) == []
  {
    hide Remaining, SlotsOf, Members, TablePos, Hash;
    StepRemaining(recs, k, len);
  }

  lemma PickCons(idx: seq<nat>, j: nat, js: seq<nat>)
    requires j < |idx| && forall n :: 0 <= n < |js| ==> js[n] < |idx|
    ensures Picked<nat>(idx, [j] + js) == [idx[j]] + Picked<nat>(idx, js)
    ensures Picked<nat>(idx, [] + js) == Picked<nat>(idx, js)
  {
    assert [] + js == js;
  }

  // All that visiting the d-th cell shows: it is empty and nothing is left, or it holds record i.
  lemma VisitCell(file: seq<byte>, recs: seq<Rec>, k: seq<byte>, hpos: nat, len: nat, b: bits, d: nat) returns (i: int)
    requires IsImage(file, recs) && Storable(recs) && b == BitsOf(recs)
    requires TableOf(recs, k, hpos, len) && d < len
    ensures var at := Position(k, hpos, len, b, d);
      && at + CellSize(b) <= |file|
      && Position(k, hpos, len, b, d + 1) == (if at + CellSize(b) == hpos + len * CellSize(b) then hpos else at + CellSize(b))
      && (i < 0 ==> Get32(file, at + 4) == 0 && (b == 4 ==> Get64(file, at + 8) == 0))
      && (i >= 0 ==> i < |recs| && CellIs(file, at, b, HpOf(recs, i)))
    ensures i < 0 ==> Remaining(recs, k, d) == []
    ensures i >= 0 ==> Remaining(recs, k, d) == (if recs[i].key == k then [i] else []) + Remaining(recs, k, d + 1)
    ensures i >= 0 ==> InCell(recs, k, d, i)
    ensures i >= 0 ==> 0 < Pos(recs, i) < |file| && RecordIs(file, Pos(recs, i), recs[i])
    ensures i >= 0 && recs[i].key == k ==> Pack32(Hash(recs[i].key)) == Pack32(Hash(k))
  {
    hide Hash, SlotsOf, Members, Placed, IsImage, Storable, BitsOf, Remaining, TablePos, Cells, CellIs, RecordIs, Pos,
      Get32, Get64, Pack32;
    var s := Slot(Hash(k));
    StepRemaining(recs, k, d);
    NextPosition(k, hpos, len, b, d);
    var j := Step(recs, k, d);
    CellFields(file, recs, s, Cell(Home(Hash(k), len), d, len), Position(k, hpos, len, b, d), j);
    if j >= 0 {
      i := Placed(recs, s)[j];
      PositionFits(file, recs, i);
      RecFields(file, recs, i);
    } else {
      i := EMPTY;
    }
  }

  lemma TagKeyHash(key: seq<byte>, tagc: byte)
    ensures Hash(TagKey(key, tagc)) ==
      HashFold(if tagc != 0 then HashDjbUchar(HASH_DJB_INIT, tagc) else HASH_DJB_INIT, key)
  {
    if tagc != 0 {
      HashConcat(HASH_DJB_INIT, [tagc], key);
      assert HashFold(HASH_DJB_INIT, [tagc]) == HashDjbUchar(HASH_DJB_INIT, tagc) by {
        assert [tagc][..0] == [];
      }
    }
  }
}