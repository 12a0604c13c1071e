// mcdb_make.c: the writer.  Records stream through a mapped window that slides along the file.
module Make {
  import opened Bytes
  import opened Uint32
  import opened Parts
  import opened ProbeTable
  import opened Layout
  import opened Search
  import opened Reader
  import opened HpLists
  import opened Walks
  import opened Placing

  const MMAP_SZ: nat := 0x8_0000
  const BLOCK_SZ: nat := 0x40_0000

  datatype Code = OK | EPERM | ENOMEM | EINVAL

  // Records per slot that the 32-bit shifts of the placement loop can address
  function SlotLimit(b: bits): nat {
    if b == 3 then 0x1000_0000 else 0x800_0000
  }

  // That is exactly as many as the shifts allow: 2 cells a record, of 8 or 16 bytes, in 32 bits.
  lemma ShiftsFit(n: nat)
    ensures 2 * n * 8 <= 0x1_0000_0000 <==> n <= SlotLimit(3)
    ensures 2 * n * 16 <= 0x1_0000_0000 <==> n <= SlotLimit(4)
  {
  }

  // What finish needs of the records: their number and file size fit, and no slot outgrows the
  // 32-bit shifts.
  ghost predicate Finishable(recs: seq<Rec>) {
    && |recs| < 0x1_0000_0000 && TablePos(recs, SLOTS) < 0x8000_0000_0000_0000
    && forall s :: 0 <= s < SLOTS ==> |Members(recs, s)| <= SlotLimit(BitsOf(recs))
  }

  // The least multiple of the quantum that is at least x
  function RoundUp(x: nat, quantum: nat): (r: nat)
    requires quantum > 0
    ensures x <= r < x + quantum
  {
    x + quantum - 1 - (x + quantum - 1) % quantum
  }

  class McdbMake {
    const page: nat        // page size; pgalign is its mask
    var pos: nat
    var offset: nat        // file position of the window
    var msz: nat           // size of the window
    var mapped: bool       // map != MAP_FAILED
    var fsz: nat
    var osz: nat
    var hp: Hp             // current record; length ~0 asks the next addbegin for blocks
    var file: seq<byte>    // the bytes of fd; the window is shared with them
    const lists: HpLists

    ghost var recs: seq<Rec>
    // the record in progress
    ghost var klen: nat
    ghost var dlen: nat
    ghost var key: seq<byte>
    ghost var data: seq<byte>

    // The window lies in the allocated file and holds the write position.
    ghost predicate Window()
      reads this
    {
      && page > 0 && mapped
      && fsz == osz == |file|
      && HEADER_SZ <= pos && offset <= pos <= offset + msz <= |file|
    }

    // The lists hold the entries of the records added.
    ghost predicate Listed()
      reads `recs, lists, lists.Repr
    {
      && lists.Valid()
      && forall s :: 0 <= s < SLOTS ==> Describes(recs, Members(recs, s), lists.AddedTo(s))
    }

    ghost predicate AllRoom()
      requires lists.Sized()
      reads lists
    {
      forall s :: 0 <= s < SLOTS ==> lists.Room(s)
    }

    ghost predicate OnlyFull(i: nat)
      requires lists.Sized() && i < SLOTS
      reads lists
    {
      !lists.Room(i) && forall s :: 0 <= s < SLOTS && s != i ==> lists.Room(s)
    }

    // The last record filled its slot's block, no spare block is waiting there, and the counts add up
    // to INT_MAX or more.
    ghost predicate Exhausted()
      reads this, lists, lists.Repr
    {
      && hp.l == UINT_MAX && Slot(hp.h) < |lists.head|
      && lists.head[Slot(hp.h)] in lists.Repr && lists.head[Slot(hp.h)].pend == null
      && |recs| % 0x1_0000_0000 >= INT_MAX
    }

    // Between records
    ghost predicate Idle()
      reads this, lists, lists.Repr
    {
      && Window() && Listed()
      && (if hp.l == UINT_MAX then OnlyFull(Slot(hp.h)) else AllRoom())
      && pos == Pos(recs, |recs|) && file[HEADER_SZ..pos] == Data(recs)
    }

    // Inside a record of which `key` and `data` have been written so far
    ghost predicate InRecord()
      reads this, lists, lists.Repr
    {
      && Window() && Listed() && AllRoom()
      && klen <= LEN_MAX && dlen <= LEN_MAX && |key| <= klen && |data| <= dlen && (data != [] ==> |key| == klen)
      && hp == Hp(Pos(recs, |recs|), HashFold(HASH_DJB_INIT, key), klen)
      && offset <= hp.p && hp.p + 8 + klen + dlen <= offset + msz
      && pos == hp.p + 8 + |key| + |data|
      && file[HEADER_SZ..pos] == Data(recs) + Pack32(klen) + Pack32(dlen) + key + data
    }

    // Write through the window.
    method MapWrite(at: nat, buf: seq<byte>)
      requires mapped && offset <= at && at + |buf| <= offset + msz <= |file|
      modifies this`file
      ensures file == old(file)[..at] + buf + old(file)[at + |buf|..]
    {
      var i := at - offset;
      file := file[..offset + i] + buf + file[offset + i + |buf|..];
    }

    // mcdb_mmap_upsize: slide the window so that it covers [pos, sz), growing the file if needed
    method Upsize(sz: nat)
      requires page > 0 && fsz == osz == |file| && pos <= sz
      modifies this`offset, this`msz, this`mapped, this`fsz, this`osz, this`file
      ensures mapped && offset == pos - pos % page
      ensures fsz == osz == |file| && sz <= offset + msz <= |file|
      ensures old(file) <= file
    {
      var off := pos - pos % page;
      var m := if MMAP_SZ > sz - off then MMAP_SZ else RoundUp(sz - off, page);
      if fsz < off + m {
        fsz := RoundUp(off + m, if offset != 0 then BLOCK_SZ else MMAP_SZ);
        file := file + Zeros(fsz - osz);
        osz := fsz;
      }
      mapped := true;
      offset := off;
      msz := m;
    }

    // Make the window reach sz.
    method Cover(sz: nat)
      requires Window() && pos <= sz
      modifies this`offset, this`msz, this`mapped, this`fsz, this`osz, this`file
      ensures Window() && sz <= offset + msz && old(file) <= file
    {
      if offset + msz < sz {
        Upsize(sz);
      }
    }

    // Write at the end of what has been written; the window has room.
    method Append(buf: seq<byte>)
      requires Window() && pos + |buf| <= offset + msz
      modifies this`pos, this`file
      ensures Window() && pos == old(pos) + |buf|
      ensures file[HEADER_SZ..pos] == old(file[HEADER_SZ..pos]) + buf
    {
      ghost var was := file;
      MapWrite(pos, buf);
      Appended(was, file, HEADER_SZ, pos, buf);
      pos := pos + |buf|;
    }

    // mcdb_make_start
    constructor (pagesize: nat)
      requires pagesize > 0
      ensures Idle() && fresh(lists) && fresh(lists.Repr) && recs == []
    {
      hide *;
      page := pagesize;
      pos, offset, msz, mapped, fsz, osz, file := HEADER_SZ, 0, 0, false, 0, 0, [];
      hp := Hp(HEADER_SZ, 0, 0);
      lists := new HpLists();
      recs := [];
      new;
      NoneListed();
      FirstWindow();
    }

    method FirstWindow()
      requires page > 0 && fsz == osz == |file| == 0 && pos == HEADER_SZ && offset == 0 && recs == [] && hp.l == 0
      requires Listed() && AllRoom()
      modifies this
      ensures Idle() && recs == old(recs)
    {
      hide McdbMake.Listed, McdbMake.AllRoom, McdbMake.OnlyFull, Data, Pos;
      NoData();
      Upsize(MMAP_SZ);
      assert file[HEADER_SZ..pos] == [];
    }

    lemma NoneListed()
      requires lists.Valid() && recs == []
      requires forall s :: 0 <= s < SLOTS ==> lists.AddedTo(s) == [] && lists.Room(s)
      ensures Listed() && AllRoom()
    {
      hide Added, HpLists.Valid;
      forall s | 0 <= s < SLOTS
        ensures Describes(recs, Members(recs, s), lists.AddedTo(s))
      {
        NoMembers(s);
      }
    }

    // mcdb_make_addbegin
    method AddBegin(keylen: nat, datalen: nat) returns (r: Code)
      requires Idle()
      modifies this, lists, lists.Repr
      ensures Listed() && recs == old(recs) && fresh(lists.Repr - old(lists.Repr))
      ensures r == OK ==> InRecord() && klen == keylen && dlen == datalen && key == [] && data == []
      ensures r == ENOMEM <==> old(Exhausted())
      ensures r == EINVAL <==> !old(Exhausted()) && (keylen > 2147483639 || datalen > 2147483639)
      ensures r != EPERM && old(lists.bases) <= lists.bases
    {
      hide Listed, AllRoom, OnlyFull, Data, Pos, HashFold, Pack32;
      if !mapped {
        return EPERM;
      }
      var ok := MakeRoom();
      if !ok {
        return ENOMEM;
      }
      hp := Hp(pos, HASH_DJB_INIT, hp.l);
      if keylen > LEN_MAX || datalen > LEN_MAX {
        return EINVAL;
      }
      hp := Hp(hp.p, hp.h, keylen);
      Lengths(keylen, datalen);
      return OK;
    }

    // Make the window cover the record and write its two lengths.
    method Lengths(keylen: nat, datalen: nat)
      requires Window() && Listed() && AllRoom() && keylen <= LEN_MAX && datalen <= LEN_MAX
      requires hp == Hp(pos, HASH_DJB_INIT, keylen)
      requires pos == Pos(recs, |recs|) && file[HEADER_SZ..pos] == Data(recs)
      modifies this
      ensures InRecord() && klen == keylen && dlen == datalen && key == [] && data == []
      ensures recs == old(recs)
    {
      hide Listed, AllRoom, OnlyFull, Data, Pos, HashFold, Pack32;
      ghost var was := file[HEADER_SZ..pos];
      Cover(pos + 8 + keylen + datalen);
      assert file[HEADER_SZ..pos] == was;
      Append(Pack32(keylen) + Pack32(datalen));
      klen, dlen, key, data := keylen, datalen, [], [];
      HashNone();
      Regroup(Data(recs), Pack32(klen), Pack32(dlen));
    }

    // mcdb_make_addbuf_data
    method AddBufData(buf: seq<byte>)
      requires InRecord() && |key| == klen && |data| + |buf| <= dlen
      modifies this
      ensures InRecord() && recs == old(recs) && klen == old(klen) && dlen == old(dlen)
      ensures key == old(key) && data == old(data) + buf
    {
      hide Listed, AllRoom, OnlyFull, Data, Pos, HashFold, Pack32;
      ghost var head := Data(recs) + Pack32(klen) + Pack32(dlen);
      Append(buf);
      data := data + buf;
      assert head + key + (old(data) + buf) == head + key + old(data) + buf;
    }

    // mcdb_make_addbuf_key
    method AddBufKey(buf: seq<byte>)
      requires InRecord() && |key| + |buf| <= klen && data == []
      modifies this
      ensures InRecord() && recs == old(recs) && klen == old(klen) && dlen == old(dlen)
      ensures key == old(key) + buf && data == []
    {
      hide Listed, AllRoom, OnlyFull, Data, Pos, HashFold, Pack32;
      HashConcat(HASH_DJB_INIT, key, buf);
      var h := HashDjb(hp.h, buf);
      hp := Hp(hp.p, h, hp.l);
      ghost var head := Data(recs) + Pack32(klen) + Pack32(dlen);
      Append(buf);
      key := key + buf;
      assert head + (old(key) + buf) + [] == head + old(key) + [] + buf;
    }

    // mcdb_make_addend: the record is complete
    method AddEnd()
      requires InRecord() && |key| == klen && |data| == dlen
      modifies this, lists, lists.Repr
      ensures Idle() && recs == old(recs) + [Record(old(key), old(data))]
      ensures lists.Repr == old(lists.Repr) && lists.bases == old(lists.bases)
    {
      hide Data, Pos, Members, HpOf, RecBytes, Pack32, Describes, Added, HpLists.Valid;
      ghost var r := Record(key, data);
      ghost var was := recs;
      ghost var added := lists.AddedAll();
      Complete(was, r, file, pos);
      var full := lists.AddEnd(hp);
      recs := recs + [r];
      forall s | 0 <= s < SLOTS
        ensures Describes(recs, Members(recs, s), lists.AddedTo(s))
      {
        DescribesMore(was, r, s, added[s]);
      }
      if full {
        assert OnlyFull(Slot(hp.h));
        hp := Hp(hp.p, hp.h, UINT_MAX);
      } else {
        assert AllRoom();
      }
    }

    // The data section and the position after a whole record
    lemma Complete(was: seq<Rec>, r: Rec, f: seq<byte>, end: nat)
      requires end <= |f| && HEADER_SZ <= end
      requires f[HEADER_SZ..end] == Data(was) + Pack32(|r.key|) + Pack32(|r.data|) + r.key + r.data
      ensures f[HEADER_SZ..end] == Data(was + [r]) && end == Pos(was + [r], |was + [r]|)
    {
      hide Pack32;
      AddRecord(was, r);
      var more := was + [r];
      assert more[..|more|] == more;
      assert Data(was) + (Pack32(|r.key|) + Pack32(|r.data|) + r.key + r.data)
        == Data(was) + Pack32(|r.key|) + Pack32(|r.data|) + r.key + r.data;
    }

    // mcdb_make_addrevert inside a record: as if it had not been begun
    method AddRevert()
      requires InRecord()
      modifies this
      ensures Idle() && recs == old(recs)
    {
      hide Listed, AllRoom, OnlyFull, HashFold, Pack32, Data, Pos;
      EndPos();
      FrontOf(file, hp.p, pos, Data(recs), Pack32(klen), Pack32(dlen), key, data);
      pos := hp.p;
    }

    // mcdb_make_add
    method Add(key0: seq<byte>, data0: seq<byte>) returns (r: Code)
      requires Idle()
      modifies this, lists, lists.Repr
      ensures fresh(lists.Repr - old(lists.Repr)) && old(lists.bases) <= lists.bases
      ensures r == OK ==> Idle() && |key0| <= LEN_MAX && |data0| <= LEN_MAX && recs == old(recs) + [Record(key0, data0)]
      ensures r != OK ==> Listed() && recs == old(recs)
      ensures old(|recs|) < 2147483647 && |key0| <= 2147483639 && |data0| <= 2147483639 ==> r == OK
    {
      hide Listed, AllRoom, OnlyFull, Data, Pos, HashFold, Pack32;
      r := AddBegin(|key0|, |data0|);
      if r == OK {
        AddBufKey(key0);
        AddBufData(data0);
        assert key == key0 && data == data0;
        AddEnd();
      }
    }

    // Find the first empty cell on the entry's path.
    method FindCell(p: nat, len: nat, b: bits, h: word, ghost es: seq<Hp>) returns (u: nat)
      requires |es| < len && At(file, p, Flat(Filled(es, len, b)))
      requires forall j :: 0 <= j < |es| ==> Fits(es[j], b)
      ensures u == Cell(Home(h, len), Probe(es, len, Home(h, len)), len)
    {
      hide Flat, Filled, Get32, Get64, At, Home, Cells, Probe;
      u := Home(h, len);
      ghost var d := 0;
      while true
        invariant d <= Probe(es, len, Home(h, len)) && u == Cell(Home(h, len), d, len)
        decreases len - d
      {
        TakenTest(file, p, es, len, b, u);
        var at := p + u * CellSize(b);
        var taken := if b == 3 then Get32(file, at + 4) != 0 else Get64(file, at + 8) != 0;
        if !taken {
          break;
        }
        d := d + 1;
        u := u + 1;
        if u == len {
          u := 0;
        }
      }
    }

    // Store an entry in the table at p.
    method PlaceEntry(p: nat, len: nat, b: bits, e: Hp, ghost es: seq<Hp>)
      requires mapped && offset <= p && p + len * CellSize(b) <= offset + msz <= |file|
      requires |es| + 1 < len <= 2 * SlotLimit(b)
      requires forall j :: 0 <= j < |es| ==> Fits(es[j], b)
      requires At(file, p, Flat(Filled(es, len, b)))
      modifies this`file
      ensures |file| == |old(file)| && At(file, p, Flat(Filled(es + [e], len, b)))
      ensures file[..p] == old(file)[..p]
    {
      hide Flat, Filled, CellBytes, At, Home, Probe, Cell;
      var u := FindCell(p, len, b, e.h, es);
      CellInside(u, len, CellSize(b));
      ghost var was := file;
      var at := p + u * CellSize(b) % 0x1_0000_0000;      // the shift is 32-bit
      MapWrite(at, CellBytes(b, e));
      FilledAppend(es, e, len, b);
      FilledSize(es, len, b);
      CellWritten(was, file, p, Filled(es, len, b), CellSize(b), u, CellBytes(b, e));
    }

    // Place the entries of one block, numbers n and up of the slot's.
    method PlaceBlock(x: HpBlock, p: nat, len: nat, b: bits, ghost all: seq<Hp>, ghost n: nat)
      requires x.num <= |x.hp| && n + x.num <= |all| && all[n..n + x.num] == x.hp[..x.num]
      requires len == 2 * |all| <= 2 * SlotLimit(b) && forall j :: 0 <= j < |all| ==> Fits(all[j], b)
      requires mapped && offset <= p && p + len * CellSize(b) <= offset + msz <= |file|
      requires At(file, p, Flat(Filled(all[..n], len, b)))
      modifies this`file
      ensures |file| == |old(file)| && file[..p] == old(file)[..p]
      ensures At(file, p, Flat(Filled(all[..n + x.num], len, b)))
    {
      hide Flat, Filled, At, CellBytes, Fits;
      var w := 0;
      while w < x.num
        invariant w <= x.num
        invariant |file| == |old(file)| && file[..p] == old(file)[..p]
        invariant At(file, p, Flat(Filled(all[..n + w], len, b)))
      {
        assert all[n + w] == all[n..n + x.num][w] == x.hp[w];
        PlaceEntry(p, len, b, x.hp[w], all[..n + w]);
        assert all[..n + w] + [all[n + w]] == all[..n + w + 1];
        w := w + 1;
      }
    }

    // x is block k of slot i, and the entries from number n on are still to be placed.
    ghost predicate Walked(i: nat, k: nat, x: HpBlock?, all: seq<Hp>, n: nat)
      requires lists.Sized() && i < SLOTS
      reads lists
    {
      && k <= |lists.blocks[i]| == |lists.chain[i]|
      && x == (if k < |lists.chain[i]| then lists.chain[i][k] else null)
      && n <= |all| && all[n..] == Visit(lists.blocks[i][k..])
    }

    lemma WalkStart(i: nat, all: seq<Hp>)
      requires lists.Valid() && i < SLOTS && all == Visit(lists.blocks[i])
      ensures Walked(i, 0, lists.head[i], all, 0)
    {
      hide HpLists.Valid, Visit;
      lists.ChainFacts(i, 0);
      assert lists.blocks[i][0..] == lists.blocks[i] && all[0..] == all;
    }

    lemma WalkEnd(i: nat, k: nat, all: seq<Hp>, n: nat)
      requires lists.Sized() && i < SLOTS && Walked(i, k, null, all, n)
      ensures all[..n] == all
    {
      VisitFrom(lists.blocks[i], k);
    }

    // Place the entries of block k of the slot.
    method PlaceNext(i: nat, x: HpBlock, p: nat, len: nat, b: bits, ghost all: seq<Hp>, ghost n: nat, ghost k: nat)
      returns (next: HpBlock?, ghost m: nat)
      requires lists.Valid() && i < SLOTS && Walked(i, k, x, all, n)
      requires len == 2 * |all| <= 2 * SlotLimit(b) && forall j :: 0 <= j < |all| ==> Fits(all[j], b)
      requires mapped && offset <= p && p + len * CellSize(b) <= offset + msz <= |file|
      requires At(file, p, Flat(Filled(all[..n], len, b)))
      modifies this`file
      ensures |file| == |old(file)| && file[..p] == old(file)[..p]
      ensures k < |lists.blocks[i]| && Walked(i, k + 1, next, all, m)
      ensures m <= |all| && At(file, p, Flat(Filled(all[..m], len, b)))
    {
      hide Flat, Filled, At, HpLists.Valid, Visit, Fits;
      ghost var bs := lists.blocks[i];
      lists.ChainFacts(i, k);
      VisitFrom(bs, k);
      NextBlock(all, n, bs[k], Visit(bs[k + 1..]));
      m := n + |bs[k]|;
      PlaceBlock(x, p, len, b, all, n);
      next := x.next;
    }

    // Visit the slot's blocks, newest first, and place every entry in the zeroed table at p.
    method PlaceSlot(i: nat, p: nat, len: nat, b: bits, ghost all: seq<Hp>)
      requires lists.Valid() && i < SLOTS && all == Visit(lists.blocks[i])
      requires len == 2 * |all| <= 2 * SlotLimit(b) && forall j :: 0 <= j < |all| ==> Fits(all[j], b)
      requires mapped && offset <= p && p + len * CellSize(b) <= offset + msz <= |file|
      requires At(file, p, Zeros(len * CellSize(b)))
      modifies this`file
      ensures |file| == |old(file)| && file[..p] == old(file)[..p] && At(file, p, TableBytes(all, b))
    {
      hide Flat, Filled, At, Zeros, HpLists.Valid, Visit, Fits, TableBytes, McdbMake.Walked, SlotLimit;
      ghost var n: nat, k: nat := 0, 0;
      FilledNone(len, b);
      WalkStart(i, all);
      assert all[..0] == [];
      var x: HpBlock? := lists.head[i];
      while x != null
        invariant Walked(i, k, x, all, n) && k <= |lists.blocks[i]| && n <= |all|
        invariant |file| == |old(file)| && file[..p] == old(file)[..p]
        invariant At(file, p, Flat(Filled(all[..n], len, b)))
        decreases |lists.blocks[i]| - k
      {
        x, n := PlaceNext(i, x, p, len, b, all, n, k);
        k := k + 1;
      }
      WalkEnd(i, k, all, n);
      TableIsFilled(all, b);
    }

    // One round of the slot loop of finish: map the table's place, zero it, fill it.
    method OneSlot(i: nat, b: bits, ghost all: seq<Hp>) returns (entry: seq<byte>)
      requires Window() && lists.Valid() && i < SLOTS && all == Visit(lists.blocks[i])
      requires |all| <= SlotLimit(b) && |all| == |lists.AddedTo(i)| && forall j :: 0 <= j < |all| ==> Fits(all[j], b)
      modifies this
      ensures Window() && lists.Valid() && recs == old(recs)
      ensures entry == HeaderEntry(old(pos), 2 * |all|)
      ensures pos == old(pos) + |TableBytes(all, b)|
      ensures file[HEADER_SZ..pos] == old(file[HEADER_SZ..pos]) + TableBytes(all, b)
    {
      hide Flat, TableBytes, Zeros, HpLists.Valid, HeaderEntry, At;
      lists.HeadFacts(i);
      CountFits(|all|, b);
      var len: word := lists.count[i] * 2 % 0x1_0000_0000;
      var d := pos;
      TableSize(all, b);
      ghost var was := file;
      ClearTable(len * CellSize(b));
      entry := HeaderEntry(d, len);
      PlaceSlot(i, d, len, b, all);
      Extended(was, file, HEADER_SZ, d, TableBytes(all, b));
    }

    // Room for a table, all cells empty
    method ClearTable(size: nat)
      requires Window()
      modifies this`pos, this`offset, this`msz, this`mapped, this`fsz, this`osz, this`file
      ensures Window() && pos == old(pos) + size && offset <= old(pos)
      ensures file[..old(pos)] == old(file[..pos]) && At(file, old(pos), Zeros(size))
    {
      hide Zeros, At;
      Cover(pos + size);
      ghost var was := file;
      MapWrite(pos, Zeros(size));
      WrittenAt(was, file, pos, Zeros(size));
      pos := pos + size;
    }

    lemma CountFits(n: nat, b: bits)
      requires n <= SlotLimit(b)
      ensures n % 0x1_0000_0000 * 2 % 0x1_0000_0000 == 2 * n
    {
    }

    // The hole that aligns the tables
    lemma EndPos()
      ensures Pos(recs, |recs|) == HEADER_SZ + |Data(recs)|
    {
      assert recs[..|recs|] == recs;
    }

    method Pad()
      requires Window() && Listed() && pos == Pos(recs, |recs|) && file[HEADER_SZ..pos] == Data(recs)
      modifies this
      ensures Window() && Listed() && recs == old(recs)
      ensures pos == Base(Data(recs))
      ensures file[HEADER_SZ..pos] == Data(recs) + Ones(PadLen(HEADER_SZ + |Data(recs)|))
    {
      hide McdbMake.Listed, McdbMake.Window, Data, Ones, Pos, PadLen;
      EndPos();
      AppendHole(PadLen(pos));
    }

    // Append d bytes of all ones.
    method AppendHole(d: nat)
      requires Window()
      modifies this`pos, this`offset, this`msz, this`mapped, this`fsz, this`osz, this`file
      ensures Window() && pos == old(pos) + d && file[HEADER_SZ..pos] == old(file[HEADER_SZ..pos]) + Ones(d)
    {
      hide Ones;
      ghost var was := file[HEADER_SZ..pos];
      Cover(pos + d);
      assert file[HEADER_SZ..pos] == was;
      Append(Ones(d));
    }

    // The slot loop: writes all the tables and returns the header.
    method WriteTables(b: bits) returns (header: seq<byte>)
      requires Window() && Listed() && Finishable(recs) && |recs| <= INT_MAX
      requires pos == Base(Data(recs)) && b == BitsOf(recs)
      modifies this
      ensures Window() && Listed() && recs == old(recs)
      ensures header == Flat(HeaderParts(SlotsOf(recs), old(pos), b)[..SLOTS])
      ensures file[HEADER_SZ..pos] == old(file[HEADER_SZ..pos]) + Flat(Tables(SlotsOf(recs), b)[..SLOTS])
    {
      hide Flat, TableBytes, Tables, HeaderParts, HeaderEntry, TableOffset, HpLists.Valid, Members, SlotsOf, Data, BitsOf;
      header := [];
      ghost var slots, base, front := SlotsOf(recs), pos, file[HEADER_SZ..pos];
      NoSlots(slots, base, b);
      for i := 0 to SLOTS
        invariant Window() && Listed() && recs == old(recs)
        invariant pos == base + TableOffset(slots, b, i)
        invariant header == Flat(HeaderParts(slots, base, b)[..i])
        invariant file[HEADER_SZ..pos] == front + Flat(Tables(slots, b)[..i])
      {
        SlotOrder(i);
        var entry := OneSlot(i, b, slots[i]);
        header := header + entry;
        NextSlot(slots, base, b, i);
      }
    }

    // mcdb_make_finish
    method Finish() returns (r: Code, freed: seq<HpBlock>)
      requires Idle() && Finishable(recs)
      modifies this
      ensures recs == old(recs)
      ensures r == OK <==> |recs| <= 2147483647
      ensures r == OK ==> file == Image(recs)
      ensures r != OK ==> r == ENOMEM
      ensures !mapped && multiset(freed) == multiset(lists.bases)
      ensures forall x :: x in lists.Repr ==> x.batch < |lists.bases| && lists.bases[x.batch] in freed
    {
      hide Flat, HpLists.Valid, Members, SlotsOf, Data, Ones, OnlyFull, AllRoom, Pos, Tables, HeaderParts, Image;
      var u: word := 0;
      for i := 0 to SLOTS
        invariant u == Sum(lists.count, i)
      {
        u := (u as int + lists.count[i]) % 0x1_0000_0000;
      }
      SumIsCount(SLOTS);
      if u > INT_MAX {
        freed := lists.Destroy();
        mapped := false;
        return ENOMEM, freed;
      }
      Pad();
      var b: bits := if pos < UINT_MAX then 3 else 4;
      ghost var base := pos;
      var header := WriteTables(b);
      Assemble(recs, SlotsOf(recs), base, b, header, file[HEADER_SZ..pos]);
      file := file[..pos];                       // ftruncate
      file := header + file[HEADER_SZ..];        // write at 0
      freed := lists.Destroy();
      mapped := false;
      r := OK;
    }

    // Finish visits the entries of a slot in placement order.
    lemma SlotOrder(s: nat)
      requires Listed() && Finishable(recs) && s < SLOTS && |recs| <= INT_MAX
      ensures Visit(lists.blocks[s]) == SlotsOf(recs)[s]
      ensures |SlotsOf(recs)[s]| == |lists.AddedTo(s)| <= SlotLimit(BitsOf(recs))
      ensures forall j :: 0 <= j < |SlotsOf(recs)[s]| ==> Fits(SlotsOf(recs)[s][j], BitsOf(recs))
    {
      hide Data, Added, Placement, TablePos, HpOf;
      assert lists.SlotOk(s);
      var es, added := SlotsOf(recs)[s], lists.AddedTo(s);
      VisitIsPlacement(lists.blocks[s]);
      assert Describes(recs, Members(recs, s), added);
      assert added == HpsOf(recs, Members(recs, s));
      PlacementPermutes(added);
      PlacedFit(recs, s);
    }

    // When the last addend filled a block, give its slot another one.
    method MakeRoom() returns (ok: bool)
      requires Idle()
      modifies lists, lists.Repr
      ensures Listed() && fresh(lists.Repr - old(lists.Repr))
      ensures ok ==> AllRoom()
      ensures !ok <==> old(Exhausted())
      ensures old(lists.bases) <= lists.bases
    {
      hide Members, Describes, Sum;
      ok := true;
      if hp.l == UINT_MAX {
        SumIsCount(SLOTS);
        lists.HeadFacts(Slot(hp.h));
        ok := lists.Alloc(hp.h % SLOTS);
      }
    }

    lemma {:induction false} SumIsCount(s: nat)
      requires Listed() && s <= SLOTS
      ensures Sum(lists.count, s) == CountTo(recs, s) % 0x1_0000_0000
      ensures s == SLOTS ==> Sum(lists.count, s) == |recs| % 0x1_0000_0000 <= |recs|
    {
      hide Added, Members, HpOf, HpLists.Valid;
      if s > 0 {
        SumIsCount(s - 1);
        lists.HeadFacts(s - 1);
        assert Describes(recs, Members(recs, s - 1), lists.AddedTo(s - 1));
        SumStep(CountTo(recs, s - 1), |Members(recs, s - 1)|);
      }
      CountAll(recs);
    }
  }

  lemma NextBlock(all: seq<Hp>, n: nat, block: seq<Hp>, rest: seq<Hp>)
    requires n <= |all| && all[n..] == block + rest
    ensures n + |block| <= |all| && all[n..n + |block|] == block && all[n + |block|..] == rest
  {
    assert all[n..n + |block|] == all[n..][..|block|];
    assert all[n + |block|..] == all[n..][|block|..];
  }

  lemma NoData()
    ensures Data([]) == [] && Pos([], 0) == HEADER_SZ
  {
  }

  lemma TableIsFilled(es: seq<Hp>, b: bits)
    ensures TableBytes(es, b) == Flat(Filled(es, 2 * |es|, b))
  {
  }

  lemma WrittenAt(was: seq<byte>, now: seq<byte>, at: nat, buf: seq<byte>)
    requires at + |buf| <= |was| && now == was[..at] + buf + was[at + |buf|..]
    ensures At(now, at, buf) && now[..at] == was[..at] && |now| == |was|
  {
  }

  lemma Extended(was: seq<byte>, now: seq<byte>, from: nat, at: nat, part: seq<byte>)
    requires from <= at <= |was| && at <= |now| && now[..at] == was[..at] && At(now, at, part)
    ensures now[from..at + |part|] == was[from..at] + part
  {
  }

  lemma NoSlots(slots: seq<seq<Hp>>, base: nat, b: bits)
    ensures Flat(HeaderParts(slots, base, b)[..0]) == [] && Flat(Tables(slots, b)[..0]) == []
    ensures TableOffset(slots, b, 0) == 0
  {
  }

  lemma NextSlot(slots: seq<seq<Hp>>, base: nat, b: bits, i: nat)
    requires i < |slots|
    ensures Flat(HeaderParts(slots, base, b)[..i + 1])
      == Flat(HeaderParts(slots, base, b)[..i]) + HeaderEntry(base + TableOffset(slots, b, i), 2 * |slots[i]|)
    ensures Flat(Tables(slots, b)[..i + 1]) == Flat(Tables(slots, b)[..i]) + TableBytes(slots[i], b)
    ensures TableOffset(slots, b, i + 1) == TableOffset(slots, b, i) + |TableBytes(slots[i], b)|
  {
    hide TableBytes;
    FlatInit(HeaderParts(slots, base, b), i);
    FlatInit(Tables(slots, b), i);
  }

  lemma PlacedFit(recs: seq<Rec>, s: nat)
    requires Storable(recs) && s < SLOTS
    ensures forall j :: 0 <= j < |SlotsOf(recs)[s]| ==> Fits(SlotsOf(recs)[s][j], BitsOf(recs))
  {
    hide Image, IsImage, Storable, SlotsOf, Placed, Pos, BitsOf;
    SlotEntries(recs, s);
    ImageIsImage(recs);
    forall j | 0 <= j < |SlotsOf(recs)[s]|
      ensures Fits(SlotsOf(recs)[s][j], BitsOf(recs))
    {
      PositionFits(Image(recs), recs, Placed(recs, s)[j]);
    }
  }

  lemma Assemble(recs: seq<Rec>, slots: seq<seq<Hp>>, base: nat, b: bits, header: seq<byte>, body: seq<byte>)
    requires slots == SlotsOf(recs) && base == Base(Data(recs)) && b == BitsOf(recs)
    requires header == Flat(HeaderParts(slots, base, b)[..SLOTS])
    requires body == Data(recs) + Ones(PadLen(HEADER_SZ + |Data(recs)|)) + Flat(Tables(slots, b)[..SLOTS])
    ensures header + body == Image(recs) && |header| == HEADER_SZ
  {
    hide Flat, SlotsOf, Data, Ones, TableBytes, HeaderEntry;
    assert HeaderParts(slots, base, b)[..SLOTS] == HeaderParts(slots, base, b);
    assert Tables(slots, b)[..SLOTS] == Tables(slots, b);
    HeaderSize(slots, base, b);
    var h, d, q := Flat(HeaderParts(slots, base, b)), Data(recs), Flat(Tables(slots, b));
    var o := Ones(PadLen(HEADER_SZ + |Data(recs)|));
    assert h + (d + o + q) == h + d + o + q;
  }

  lemma CellInside(u: nat, len: nat, w: nat)
    requires u < len && ((w == 8 && len <= 0x2000_0000) || (w == 16 && len <= 0x1000_0000))
    ensures u * w + w <= len * w <= 0x1_0000_0000 && u * w % 0x1_0000_0000 == u * w
  {
  }

  // Overwriting one part where the parts lie in the file
  lemma CellWritten(was: seq<byte>, now: seq<byte>, p: nat, parts: seq<seq<byte>>, w: nat, u: nat, part: seq<byte>)
    requires Uniform(parts, w) && u < |parts| && |part| == w && At(was, p, Flat(parts))
    requires p + u * w + w <= |was| && now == was[..p + u * w] + part + was[p + u * w + w..]
    ensures |now| == |was| && now[..p] == was[..p] && At(now, p, Flat(parts[u := part]))
  {
    hide Flat;
    UniformUpdate(parts, w, u, part);
    FlatUniform(parts, w);
    FlatUniform(parts[u := part], w);
    Overwrite(was, now, p, Flat(parts), u * w, part);
  }

  lemma Overwrite(was: seq<byte>, now: seq<byte>, p: nat, s: seq<byte>, i: nat, part: seq<byte>)
    requires At(was, p, s) && i + |part| <= |s|
    requires now == was[..p + i] + part + was[p + i + |part|..]
    ensures At(now, p, s[..i] + part + s[i + |part|..]) && now[..p] == was[..p]
  {
    var t := s[..i] + part + s[i + |part|..];
    forall k | 0 <= k < |s|
      ensures now[p + k] == t[k]
    {
      assert was[p..p + |s|][k] == was[p + k];
    }
  }

  lemma DescribesMore(was: seq<Rec>, r: Rec, s: nat, es: seq<Hp>)
    requires s < SLOTS && Describes(was, Members(was, s), es)
    ensures Describes(was + [r], Members(was + [r], s),
                      es + if s == Slot(Hash(r.key)) then [Hp(Pos(was, |was|), Hash(r.key), |r.key|)] else [])
  {
    hide Data, Members, Hash;
    AddRecord(was, r);
  }

  lemma SumStep(a: nat, b: nat)
    ensures (a % 0x1_0000_0000 + b % 0x1_0000_0000) % 0x1_0000_0000 == (a + b) % 0x1_0000_0000
  {
  }

  // What was written before the record is still there.
  lemma FrontOf(file: seq<byte>, at: nat, end: nat, d: seq<byte>, a: seq<byte>, b: seq<byte>, key: seq<byte>,
                data: seq<byte>)
    requires HEADER_SZ <= end <= |file| && file[HEADER_SZ..end] == d + a + b + key + data && at == HEADER_SZ + |d|
    ensures at <= end && file[HEADER_SZ..at] == d
  {
    var whole := file[HEADER_SZ..end];
    assert whole == d + (a + b + key + data);
    assert whole[..|d|] == file[HEADER_SZ..at];
  }

  lemma HashNone()
    ensures HashFold(HASH_DJB_INIT, []) == HASH_DJB_INIT
  {
  }

  lemma Regroup(d: seq<byte>, a: seq<byte>, b: seq<byte>)
    ensures d + (a + b) == d + a + b + [] + []
  {
  }

  // Writing at the end of what has been written appends.
  lemma Appended(was: seq<byte>, now: seq<byte>, from: nat, at: nat, buf: seq<byte>)
    requires from <= at && at + |buf| <= |was| && now == was[..at] + buf + was[at + |buf|..]
    ensures now[from..at + |buf|] == was[from..at] + buf
  {
  }
}
