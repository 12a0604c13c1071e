// The file of one record, byte by byte, and where two entries with one home lie.
module KnownFile {
  import opened Bytes
  import opened Uint32
  import opened Parts
  import opened ProbeTable
  import opened Layout

  function OneRec(): seq<Rec> {
    [Record(['a' as byte], ['b' as byte])]
  }

  function OneHp(): Hp {
    Hp(4096, 177604, 1)
  }

  lemma OneData()
    ensures Data(OneRec()) == [0, 0, 0, 1, 0, 0, 0, 1, 'a' as byte, 'b' as byte]
    ensures Pos(OneRec(), 0) == 4096 && BitsOf(OneRec()) == 3 && Base(Data(OneRec())) == 4112
  {
    hide Hash, Slot, Members;
    var r := OneRec()[0];
    AddRecord([], r);
    assert [] + [r] == OneRec() && Data([]) == [];
    assert OneRec()[..0] == [];
  }

  lemma NoMembersYet(s: nat)
    ensures Members([], s) == []
  {
  }

  lemma OneMember(s: nat)
    requires s < 256
    ensures Members(OneRec(), s) == if s == 196 then [0] else []
  {
    hide Hash, Members;
    HashOfA();
    NoMembersYet(s);
    AddMember([], OneRec()[0], s);
    assert [] + [OneRec()[0]] == OneRec();
  }

  lemma OneEntry()
    ensures HpsOf(OneRec(), [0]) == [OneHp()] && HpsOf(OneRec(), []) == []
  {
    hide Hash, Data, Pos;
    HashOfA();
    OneData();
  }

  lemma FewPlaced(recs: seq<Rec>, s: nat)
    requires s < 256 && |Members(recs, s)| <= 1
    ensures |SlotsOf(recs)| == 256 && SlotsOf(recs)[s] == HpsOf(recs, Members(recs, s))
  {
    hide Members;
  }

  // The record is alone in slot 196.
  lemma OneSlots(s: nat)
    requires s < 256
    ensures |SlotsOf(OneRec())| == 256 && SlotsOf(OneRec())[s] == if s == 196 then [OneHp()] else []
  {
    hide SlotsOf, Members, HpsOf;
    OneMember(s);
    OneEntry();
    FewPlaced(OneRec(), s);
  }

  lemma {:induction false} OneTables(s: nat)
    requires s <= 256
    ensures TablePos(OneRec(), s) == 4112 + if s > 196 then 16 else 0
  {
    hide SlotsOf, Data, TableBytes, BitsOf, Base;
    OneData();
    if s > 0 {
      OneTables(s - 1);
      OneSlots(s - 1);
      TableNext(SlotsOf(OneRec()), BitsOf(OneRec()), s - 1);
    } else {
      assert Tables(SlotsOf(OneRec()), 3)[..0] == [];
    }
  }

  // The header entry of slot s: position of its table, number of its cells
  function Entry(s: nat): (e: seq<byte>)
    ensures |e| == 16
  {
    [0, 0, 0, 0, 0, 0, 0x10, if s <= 196 then 0x10 else 0x20, 0, 0, 0, if s == 196 then 2 else 0, 0, 0, 0, 0]
  }

  lemma EntryIs(s: nat)
    requires s < 256
    ensures HeaderEntry(4112 + if s > 196 then 16 else 0, if s == 196 then 2 else 0) == Entry(s)
  {
  }

  lemma OneHeader(file: seq<byte>, s: nat)
    requires file == Image(OneRec()) && s < 256
    ensures 16 * s + 16 <= |file| && file[16 * s..16 * s + 16] == Entry(s)
  {
    hide Image, IsImage, SlotsOf, HeaderEntry, Entry, TablePos;
    ImageIsImage(OneRec());
    HeaderAt(file, OneRec(), s);
    OneTables(s);
    OneSlots(s);
    EntryIs(s);
  }

  lemma OneCells()
    ensures Cells([OneHp()], 2) == [EMPTY, 0]
  {
    assert HomesOf([OneHp()], 2) == [1];
    assert Build([], 2).cells == [EMPTY, EMPTY];
    assert [1][..0] == [];
  }

  lemma OneCell()
    ensures CellBytes(3, OneHp()) == [0, 0x02, 0xB5, 0xC4, 0, 0, 0x10, 0] && Zeros(8) == [0, 0, 0, 0, 0, 0, 0, 0]
  {
  }

  lemma OneTable(file: seq<byte>)
    requires file == Image(OneRec())
    ensures |file| >= 4128 && file[4112..4120] == [0, 0, 0, 0, 0, 0, 0, 0]
    ensures file[4120..4128] == [0, 0x02, 0xB5, 0xC4, 0, 0, 0x10, 0]
  {
    hide Image, IsImage, SlotsOf, TableBytes, Cells, Data, BitsOf, TablePos, CellBytes, Zeros;
    ImageIsImage(OneRec());
    OneData();
    OneTables(196);
    OneSlots(196);
    OneCells();
    OneCell();
    TableAt(file, OneRec(), 196);
    CellAt(file, 4112, [OneHp()], 3, 0);
    CellAt(file, 4112, [OneHp()], 3, 1);
  }

  lemma OneMiddle(file: seq<byte>)
    requires file == Image(OneRec())
    ensures |file| >= 4112 && file[4096..4106] == [0, 0, 0, 1, 0, 0, 0, 1, 'a' as byte, 'b' as byte]
    ensures file[4106..4112] == [0xFF, 0xFF, 0xFF, 0xFF, 0xFF, 0xFF]
  {
    hide Image, SlotsOf, Data, BitsOf, TablePos, Flat;
    ImageIsImage(OneRec());
    OneData();
  }

  // The whole file: 256 header entries, the record, padding, and a table of two cells.
  lemma OneRecordFile(file: seq<byte>)
    requires file == Image(OneRec())
    ensures |file| == 4128
    ensures forall s :: 0 <= s < 256 ==> file[16 * s..16 * s + 16] == Entry(s)
    ensures file[4096..4106] == [0, 0, 0, 1, 0, 0, 0, 1, 'a' as byte, 'b' as byte]
    ensures file[4106..4112] == [0xFF, 0xFF, 0xFF, 0xFF, 0xFF, 0xFF]
    ensures file[4112..4120] == [0, 0, 0, 0, 0, 0, 0, 0]
    ensures file[4120..4128] == [0, 0x02, 0xB5, 0xC4, 0, 0, 0x10, 0]
  {
    hide Image, TablePos, Entry;
    ImageIsImage(OneRec());
    OneTables(256);
    OneMiddle(file);
    OneTable(file);
    hide IsImage;
    forall s | 0 <= s < 256
      ensures file[16 * s..16 * s + 16] == Entry(s)
    {
      OneHeader(file, s);
    }
  }

  // The length of the key comes first.
  lemma LengthsFirst()
    ensures RecBytes(Record(['a' as byte], ['b' as byte, 'c' as byte]))
      == [0, 0, 0, 1, 0, 0, 0, 2, 'a' as byte, 'b' as byte, 'c' as byte]
  {
  }

  // In the 16-byte layout a cell is the hash, the length of the key and the position, and the choice
  // of layout is made where the tables start.
  lemma WideCell(h: word, l: word, p: long, recs: seq<Rec>)
    ensures CellBytes(4, Hp(p, h, l)) == Pack32(h) + Pack32(l) + Pack64(p)
    ensures BitsOf(recs) == 4 <==> Base(Data(recs)) >= 0xFFFF_FFFF
  {
    hide Pack32, Pack64, Data, PadLen;
  }

  // A second entry goes to the next cell, and from the last cell to the first.
  lemma NextCellTaken()
    ensures Build([1, 1], 4).cells == [EMPTY, 0, 1, EMPTY]
    ensures Build([3, 3], 4).cells == [1, EMPTY, EMPTY, 0]
  {
    hide Build;
    OneAfterOther(1);
    OneAfterOther(3);
  }

  lemma OneAfterOther(home: nat)
    requires home < 4
    ensures Build([home, home], 4).cells
      == [EMPTY, EMPTY, EMPTY, EMPTY][home := 0][if home < 3 then home + 1 else 0 := 1]
  {
    hide Build, Place, Occupied;
    FirstBuilt(home);
    assert [home] + [home] == [home, home];
    BuildAppend([home], home, 4);
    FirstPlaced(Build([home], 4), home, 1);
  }

  lemma FirstBuilt(home: nat)
    requires home < 4
    ensures Build([home], 4) == Table([EMPTY, EMPTY, EMPTY, EMPTY][home := 0], [0])
  {
    hide Build, Place, Occupied;
    assert [] + [home] == [home];
    NoneBuilt();
    BuildAppend([], home, 4);
    FirstPlaced(Build([], 4), home, 0);
  }

  lemma NoneBuilt()
    ensures Build([], 4) == Table([EMPTY, EMPTY, EMPTY, EMPTY], [])
  {
  }

  // An entry goes to its home, or one cell on.
  lemma FirstPlaced(t: Table, home: nat, d: nat)
    requires |t.cells| == 4 && home < 4 && d <= 1 && Occupied(t.cells) < 4
    requires t.cells[Cell(home, d, 4)] < 0 && (d == 1 ==> t.cells[home] >= 0)
    ensures Place(t, home) == Table(t.cells[Cell(home, d, 4) := |t.dist|], t.dist + [d])
  {
    hide Occupied;
    FreeStepExists(t.cells, home);
    var f := FirstFree(t.cells, home, 0);
    assert Cell(home, 0, 4) == home;
  }
}
