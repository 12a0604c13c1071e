// The mcdb file format: header, data section, padding, one open-addressed table per slot.
// Everything here is a function of the list of added records.
module Layout {
  import opened Bytes
  import opened Uint32
  import opened Parts
  import opened ProbeTable

  const SLOTS: nat := 256
  const HEADER_SZ: nat := 4096
  const HPLIST: nat := 250
  const PAD_ALIGN: nat := 16
  const LEN_MAX: nat := INT_MAX - 8

  datatype Record = Record(key: seq<byte>, data: seq<byte>)

  // A record that mcdb_make_addbegin accepts
  type Rec = r: Record | |r.key| <= LEN_MAX && |r.data| <= LEN_MAX witness Record([], [])

  // struct mcdb_hp: record position, key hash, key length
  datatype Hp = Hp(p: nat, h: word, l: word)

  function RecBytes(r: Rec): seq<byte> {
    Pack32(|r.key|) + Pack32(|r.data|) + r.key + r.data
  }

  function RecParts(recs: seq<Rec>): (parts: seq<seq<byte>>) {
    seq(|recs|, i requires 0 <= i < |recs| => RecBytes(recs[i]))
  }

  function Data(recs: seq<Rec>): seq<byte> {
    Flat(RecParts(recs))
  }

  // File position of record i, and of the end of the data section when i == |recs|
  function Pos(recs: seq<Rec>, i: nat): nat
    requires i <= |recs|
  {
    HEADER_SZ + |Data(recs[..i])|
  }

  function Slot(h: word): (s: nat)
    ensures s < SLOTS
  {
    h % SLOTS
  }

  function Home(h: word, len: nat): (c: nat)
    requires len > 0
    ensures c < len
  {
    h / SLOTS % len
  }

  // The low eight bits of the hash name the slot; the others, modulo the size of the table, the home.
  lemma SlotAndHome(h: word, q: nat, s: nat, len: nat)
    requires s < 256 && h == 256 * q + s && len > 0
    ensures Slot(h) == s && Home(h, len) == q % len
  {
  }

  // Order in which a slot's entries are placed: its last block of HPLIST first, insertion order
  // inside a block.
  function Placement<T>(xs: seq<T>): seq<T> {
    if |xs| <= HPLIST then xs
    else
      xs[Earlier(xs)..] + Placement(xs[..Earlier(xs)])
  }

  function InSlot(recs: seq<Rec>, s: nat): (want: seq<bool>)
    ensures |want| == |recs|
  {
    seq(|recs|, i requires 0 <= i < |recs| => Slot(Hash(recs[i].key)) == s)
  }

  // Numbers of the records that belong to slot s, in insertion order
  function Members(recs: seq<Rec>, s: nat): (idx: seq<nat>)
    ensures forall i :: i in idx <==> 0 <= i < |recs| && Slot(Hash(recs[i].key)) == s
    ensures forall j :: 0 <= j < |idx| ==> idx[j] < |recs|
    ensures Ascending(idx)
  {
    var idx := Wanted(InSlot(recs, s));
    assert forall j :: 0 <= j < |idx| ==> idx[j] in idx;
    idx
  }

  function HpOf(recs: seq<Rec>, i: nat): Hp
    requires i < |recs|
  {
    Hp(Pos(recs, i), Hash(recs[i].key), |recs[i].key|)
  }

  function HpsOf(recs: seq<Rec>, idx: seq<nat>): seq<Hp>
    requires forall j :: 0 <= j < |idx| ==> idx[j] < |recs|
  {
    seq(|idx|, j requires 0 <= j < |idx| => HpOf(recs, idx[j]))
  }

  // Entries of each slot in placement order
  function SlotsOf(recs: seq<Rec>): (slots: seq<seq<Hp>>)
    ensures |slots| == SLOTS
  {
    seq(SLOTS, s requires 0 <= s < SLOTS => Placement(HpsOf(recs, Members(recs, s))))
  }

  // Hash table stride: 3 for 8-byte cells (khash, dpos), 4 for 16-byte cells (khash, klen, dpos)
  type bits = b: int | 3 <= b <= 4 witness 3

  function CellSize(b: bits): (w: nat) {
    if b == 3 then 8 else 16
  }

  function Zeros(n: nat): (s: seq<byte>)
    ensures |s| == n
  {
    seq(n, _ => 0)
  }

  // The casts truncate; only positions that fit are read back.
  function CellBytes(b: bits, e: Hp): (s: seq<byte>)
    ensures |s| == CellSize(b)
  {
    if b == 3 then Pack32(e.h) + Pack32(e.p % 0x1_0000_0000)
    else Pack32(e.h) + Pack32(e.l) + Pack64(e.p % 0x1_0000_0000_0000_0000)
  }

  function HomesOf(es: seq<Hp>, len: nat): (homes: seq<nat>)
    requires len > 0
    ensures Homes(homes, len)
  {
    seq(|es|, j requires 0 <= j < |es| => Home(es[j].h, len))
  }

  // Cells of a table of `len` cells after the entries `es` have been placed in turn
  function Cells(es: seq<Hp>, len: nat): (cells: seq<int>)
    requires |es| < len || |es| == len == 0
    ensures |cells| == len
    ensures forall c :: 0 <= c < len ==> cells[c] < |es|
  {
    if len == 0 then [] else Build(HomesOf(es, len), len).cells
  }

  function TableParts(es: seq<Hp>, cells: seq<int>, b: bits): (parts: seq<seq<byte>>)
    requires forall c :: 0 <= c < |cells| ==> cells[c] < |es|
    ensures Uniform(parts, CellSize(b))
  {
    seq(|cells|, c requires 0 <= c < |cells| =>
      if cells[c] < 0 then Zeros(CellSize(b)) else CellBytes(b, es[cells[c]]))
  }

  // A finished table has twice as many cells as entries.
  function TableBytes(es: seq<Hp>, b: bits): seq<byte> {
    Flat(TableParts(es, Cells(es, 2 * |es|), b))
  }

  function Tables(slots: seq<seq<Hp>>, b: bits): (parts: seq<seq<byte>>)
    ensures |parts| == |slots|
  {
    seq(|slots|, s requires 0 <= s < |slots| => TableBytes(slots[s], b))
  }

  function PadLen(end: nat): (d: nat)
    ensures d < PAD_ALIGN && (end + d) % PAD_ALIGN == 0
  {
    assert end == end / PAD_ALIGN * PAD_ALIGN + end % PAD_ALIGN;
    (PAD_ALIGN - end % PAD_ALIGN) % PAD_ALIGN
  }

  function Ones(n: nat): (s: seq<byte>)
    ensures |s| == n
  {
    seq(n, _ => 0xFF)
  }

  function HeaderEntry(hpos: nat, hslots: nat): (s: seq<byte>)
    ensures |s| == 16
  {
    Pack64(hpos % 0x1_0000_0000_0000_0000) + Pack32(hslots % 0x1_0000_0000) + Pack32(0)
  }

  // How far into the tables slot s's table starts
  function TableOffset(slots: seq<seq<Hp>>, b: bits, s: nat): nat
    requires s <= |slots|
  {
    |Flat(Tables(slots, b)[..s])|
  }

  function HeaderPart(slots: seq<seq<Hp>>, base: nat, b: bits, s: nat): (entry: seq<byte>)
    requires s < |slots|
    ensures |entry| == 16
  {
    HeaderEntry(base + TableOffset(slots, b, s), 2 * |slots[s]|)
  }

  function HeaderParts(slots: seq<seq<Hp>>, base: nat, b: bits): (parts: seq<seq<byte>>)
    ensures |parts| == |slots| && Uniform(parts, 16)
  {
    seq(|slots|, s requires 0 <= s < |slots| => HeaderPart(slots, base, b, s))
  }

  // Where the tables start
  function Base(data: seq<byte>): nat {
    HEADER_SZ + |data| + PadLen(HEADER_SZ + |data|)
  }

  function WriterBits(base: nat): bits {
    if base < UINT_MAX then 3 else 4
  }

  // The whole file, from a data section and the placed entries of every slot
  function ImageOf(data: seq<byte>, slots: seq<seq<Hp>>): seq<byte> {
    var base := Base(data);
    var b := WriterBits(base);
    Flat(HeaderParts(slots, base, b)) + data + Ones(PadLen(HEADER_SZ + |data|)) + Flat(Tables(slots, b))
  }

  function Image(recs: seq<Rec>): seq<byte> {
    ImageOf(Data(recs), SlotsOf(recs))
  }

  function BitsOf(recs: seq<Rec>): bits {
    WriterBits(Base(Data(recs)))
  }

  // File position of slot s's table
  function TablePos(recs: seq<Rec>, s: nat): nat
    requires s <= SLOTS
  {
    Base(Data(recs)) + TableOffset(SlotsOf(recs), BitsOf(recs), s)
  }

  // What the format can hold: uint32_t counts and off_t positions
  predicate Storable(recs: seq<Rec>) {
    |recs| <= INT_MAX && TablePos(recs, SLOTS) < 0x8000_0000_0000_0000
  }

  // ----- where each piece of the image lies

  lemma HeaderSize(slots: seq<seq<Hp>>, base: nat, b: bits)
    requires |slots| == SLOTS
    ensures |Flat(HeaderParts(slots, base, b))| == HEADER_SZ
  {
    FlatUniform(HeaderParts(slots, base, b), 16);
  }

  lemma Pieces(head: seq<byte>, data: seq<byte>, pad: seq<byte>, tabs: seq<byte>)
    ensures var file := head + data + pad + tabs;
      && At(file, 0, head) && At(file, |head|, data) && At(file, |head| + |data|, pad)
      && At(file, |head| + |data| + |pad|, tabs)
  {
  }

  // The header, the data section, the padding and the tables, one after the other
  ghost predicate IsImage(file: seq<byte>, recs: seq<Rec>) {
    && At(file, 0, Flat(HeaderParts(SlotsOf(recs), Base(Data(recs)), BitsOf(recs))))
    && At(file, HEADER_SZ, Data(recs))
    && At(file, HEADER_SZ + |Data(recs)|, Ones(PadLen(HEADER_SZ + |Data(recs)|)))
    && At(file, Base(Data(recs)), Flat(Tables(SlotsOf(recs), BitsOf(recs))))
    && |file| == TablePos(recs, SLOTS)
  }

  lemma ImageIsImage(recs: seq<Rec>)
    ensures IsImage(Image(recs), recs)
    ensures |Image(recs)| == TablePos(recs, SLOTS)
  {
    hide Flat, TableBytes, Data, SlotsOf;
    var slots, data, b := SlotsOf(recs), Data(recs), BitsOf(recs);
    HeaderSize(slots, Base(data), b);
    Pieces(Flat(HeaderParts(slots, Base(data), b)), data, Ones(PadLen(HEADER_SZ + |data|)), Flat(Tables(slots, b)));
    assert Tables(slots, b)[..SLOTS] == Tables(slots, b);
  }

  lemma HeaderAt(file: seq<byte>, recs: seq<Rec>, s: nat)
    requires IsImage(file, recs) && s < SLOTS
    ensures At(file, 16 * s, HeaderEntry(TablePos(recs, s), 2 * |SlotsOf(recs)[s]|))
  {
    hide TableOffset, SlotsOf, Data, HeaderEntry, Flat, Tables, At;
    AtUniform(file, 0, HeaderParts(SlotsOf(recs), Base(Data(recs)), BitsOf(recs)), 16, s);
  }

  lemma PosNext(recs: seq<Rec>, i: nat)
    requires i < |recs|
    ensures Pos(recs, i + 1) == Pos(recs, i) + |RecBytes(recs[i])|
    ensures At(Data(recs), Pos(recs, i) - HEADER_SZ, RecBytes(recs[i]))
  {
    var parts := RecParts(recs);
    assert parts[..i] == RecParts(recs[..i]);
    assert parts[..i + 1] == RecParts(recs[..i + 1]);
    FlatInit(parts, i);
    AtPart(Data(recs), 0, parts, i);
  }

  lemma RecAt(file: seq<byte>, recs: seq<Rec>, i: nat)
    requires IsImage(file, recs) && i < |recs|
    ensures Pos(recs, i + 1) == Pos(recs, i) + |RecBytes(recs[i])| <= HEADER_SZ + |Data(recs)|
    ensures At(file, Pos(recs, i), RecBytes(recs[i]))
  {
    hide Flat, TableOffset;
    PosNext(recs, i);
    var at := Pos(recs, i) - HEADER_SZ;
    AtSlice(file, HEADER_SZ, Data(recs), at, at + |RecBytes(recs[i])|);
  }

  lemma TableSize(es: seq<Hp>, b: bits)
    ensures |TableBytes(es, b)| == 2 * |es| * CellSize(b)
  {
    FlatUniform(TableParts(es, Cells(es, 2 * |es|), b), CellSize(b));
  }

  lemma TableNext(slots: seq<seq<Hp>>, b: bits, s: nat)
    requires s < |slots|
    ensures TableOffset(slots, b, s + 1) == TableOffset(slots, b, s) + 2 * |slots[s]| * CellSize(b)
  {
    FlatInit(Tables(slots, b), s);
    TableSize(slots[s], b);
  }

  lemma TableAt(file: seq<byte>, recs: seq<Rec>, s: nat)
    requires IsImage(file, recs) && s < SLOTS
    ensures At(file, TablePos(recs, s), TableBytes(SlotsOf(recs)[s], BitsOf(recs)))
  {
    hide TableBytes, Flat, At, SlotsOf, BitsOf, Data, PadLen;
    AtPart(file, Base(Data(recs)), Tables(SlotsOf(recs), BitsOf(recs)), s);
  }

  // Cell c of a table
  lemma CellAt(file: seq<byte>, at: nat, es: seq<Hp>, b: bits, c: nat)
    requires At(file, at, TableBytes(es, b)) && c < 2 * |es|
    ensures var j := Cells(es, 2 * |es|)[c];
      At(file, at + c * CellSize(b), if j < 0 then Zeros(CellSize(b)) else CellBytes(b, es[j]))
  {
    hide Flat, Build;
    AtUniform(file, at, TableParts(es, Cells(es, 2 * |es|), b), CellSize(b), c);
  }

  // ----- adding a record

  lemma AddRecord(recs: seq<Rec>, r: Rec)
    ensures Data(recs + [r]) == Data(recs) + RecBytes(r)
    ensures forall i :: 0 <= i <= |recs| ==> Pos(recs + [r], i) == Pos(recs, i)
    ensures forall s :: 0 <= s < SLOTS ==>
      Members(recs + [r], s) == Members(recs, s) + if Slot(Hash(r.key)) == s then [|recs|] else []
  {
    hide Members, Flat, RecBytes;
    var more := recs + [r];
    FlatInit(RecParts(more), |recs|);
    assert RecParts(more)[..|recs|] == RecParts(recs);
    assert RecParts(more)[..|more|] == RecParts(more);
    forall i | 0 <= i <= |recs|
      ensures Pos(more, i) == Pos(recs, i)
    {
      assert more[..i] == recs[..i];
    }
    forall s | 0 <= s < SLOTS
      ensures Members(more, s) == Members(recs, s) + if Slot(Hash(r.key)) == s then [|recs|] else []
    {
      AddMember(recs, r, s);
    }
  }

  lemma AddMember(recs: seq<Rec>, r: Rec, s: nat)
    ensures Members(recs + [r], s) == Members(recs, s) + if Slot(Hash(r.key)) == s then [|recs|] else []
  {
    hide Hash, Slot;
    assert InSlot(recs + [r], s)[..|recs|] == InSlot(recs, s);
  }

  lemma LastMember(recs: seq<Rec>, s: nat)
    requires recs != []
    ensures var n := |recs| - 1;
      Members(recs, s) == Members(recs[..n], s) + if Slot(Hash(recs[n].key)) == s then [n] else []
  {
    hide Members;
    var n := |recs| - 1;
    assert recs == recs[..n] + [recs[n]];
    AddMember(recs[..n], recs[n], s);
  }

  // ----- placement order

  // The part of a list before its last block
  function Earlier<T>(xs: seq<T>): (full: nat)
    requires |xs| > HPLIST
    ensures 0 < full < |xs|
  {
    |xs| - 1 - (|xs| - 1) % HPLIST
  }

  lemma {:induction false} PlacementPermutes<T>(xs: seq<T>)
    ensures multiset(Placement(xs)) == multiset(xs) && |Placement(xs)| == |xs|
  {
    hide Earlier;
    if |xs| > HPLIST {
      var full := Earlier(xs);
      PlacementPermutes(xs[..full]);
      assert xs == xs[..full] + xs[full..];
    }
  }

  // Where each element goes: blocks of 250 from the last back, each block in its own order.
  lemma {:induction false} PlacementAt<T>(xs: seq<T>, j: nat)
    requires j < |xs|
    ensures var block := j / 250 * 250;
      var after := if block + 250 < |xs| then |xs| - (block + 250) else 0;
      after + j % 250 < |Placement(xs)| == |xs| && Placement(xs)[after + j % 250] == xs[j]
    decreases |xs|
  {
    hide Placement;
    PlacementPermutes(xs);
    PlacementParts(xs);
    if |xs| > 250 {
      var full := |xs| - 1 - (|xs| - 1) % 250;
      EarlierBlocks(|xs|, j);
      if j < full {
        PlacementPermutes(xs[..full]);
        PlacementAt(xs[..full], j);
      }
    }
  }

  lemma PlacementParts<T>(xs: seq<T>)
    ensures |xs| <= 250 ==> Placement(xs) == xs
    ensures |xs| > 250 ==>
      var full := |xs| - 1 - (|xs| - 1) % 250;
      Placement(xs) == xs[full..] + Placement(xs[..full])
  {
  }

  // The last block begins at a multiple of 250.
  lemma EarlierBlocks(n: nat, j: nat)
    requires n > 250 && j < n
    ensures var full := n - 1 - (n - 1) % 250;
      && (j < full ==> j / 250 * 250 + 250 <= full)
      && (j >= full ==> j / 250 * 250 == full && j % 250 == j - full)
  {
  }

  // es lists the hash entries of the records numbered idx.
  ghost predicate Describes(recs: seq<Rec>, idx: seq<nat>, es: seq<Hp>) {
    && |es| == |idx|
    && forall j :: 0 <= j < |idx| ==> idx[j] < |recs| && es[j] == HpOf(recs, idx[j])
  }

  lemma {:induction false} PlacementDescribes(recs: seq<Rec>, idx: seq<nat>, es: seq<Hp>)
    requires Describes(recs, idx, es)
    ensures Describes(recs, Placement(idx), Placement(es))
  {
    hide HpOf;
    if |idx| > HPLIST {
      var full := Earlier(idx);
      PlacementDescribes(recs, idx[..full], es[..full]);
    }
  }
}
