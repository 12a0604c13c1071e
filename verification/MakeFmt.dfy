// mcdb_makefmt.c: the text reader.  Input arrives in pieces of any size into a buffer that is
// compacted and refilled while records are handed to the writer.
module MakeFmt {
  import opened Wrappers
  import opened Bytes
  import opened Uint32
  import opened Layout
  import opened TextFormat
  import opened Make

  // struct mcdb_input
  class McdbInput {
    const buf: array<byte>
    var pos: nat
    var datasz: nat
    const mmap: bool         // fd == -1: the buffer is the whole input
    var unread: seq<byte>    // what read() has yet to deliver
    const most: nat          // how many bytes one read() delivers at most

    ghost predicate Valid()
      reads this
    {
      && pos <= datasz <= buf.Length && most > 0
      && (if mmap then unread == [] else PREAMBLE_MAX <= buf.Length)
    }

    // Bytes in the buffer that are not consumed yet
    ghost function Avail(): seq<byte>
      requires Valid()
      reads this, buf
    {
      buf[pos..datasz]
    }

    // The input that is still to be parsed
    ghost function Rest(): seq<byte>
      requires Valid()
      reads this, buf
    {
      Avail() + unread
    }

    constructor Mapped(input: array<byte>)
      ensures Valid() && mmap && buf == input && Rest() == input[..]
    {
      buf, pos, datasz, mmap, unread, most := input, 0, input.Length, true, [], 1;
    }

    constructor Stream(buffer: array<byte>, input: seq<byte>, limit: nat)
      requires PREAMBLE_MAX <= buffer.Length && limit > 0
      ensures Valid() && !mmap && buf == buffer && Rest() == input && most == limit && pos == datasz
    {
      buf, pos, datasz, mmap, unread, most := buffer, 0, 0, false, input, limit;
    }

    // Every read delivers one byte, and nothing is left over in the buffer.
    predicate OneByOne()
      reads this
    {
      !mmap && most == 1 && pos == datasz
    }

    // mcdb_bufread_fd: compact, then read as many bytes as the system happens to deliver.
    // Callers have consumed all but a few bytes, so the buffer is never full.
    method Fill() returns (r: int)
      requires Valid() && datasz - pos < PREAMBLE_MAX
      modifies this`pos, this`datasz, this`unread, buf
      ensures Valid() && Rest() == old(Rest())
      ensures r > 0 ==> |unread| == |old(unread)| - r && old(Avail()) <= Avail()
      ensures r > 0 ==> datasz - pos == old(datasz - pos) + r
      ensures r <= 0 ==> unread == [] && Avail() == old(Avail()) && datasz - pos == old(datasz - pos)
      ensures r <= 0 ==> r == if mmap then -1 else 0
      ensures r <= most
    {
      hide McdbInput.Avail, McdbInput.Rest;
      if mmap {
        return -1;
      }
      if datasz - pos < 128 && pos != 0 {
        Compact();
      }
      if unread == [] {
        return 0;
      }
      r := Deliver();
    }

    // The read itself: any positive number of bytes that there is room for
    method Deliver() returns (n: nat)
      requires Valid() && !mmap && unread != [] && datasz < buf.Length
      modifies this`datasz, this`unread, buf
      ensures Valid() && Rest() == old(Rest()) && old(Avail()) <= Avail()
      ensures 0 < n <= most && |unread| == |old(unread)| - n && datasz == old(datasz) + n
    {
      n :| 1 <= n <= buf.Length - datasz && n <= |unread| && n <= most;
      forall i | 0 <= i < n {
        buf[datasz + i] := unread[i];
      }
      datasz := datasz + n;
      assert Avail() == old(Avail()) + unread[..n];
      Regrouped(old(Avail()), unread, n);
      unread := unread[n..];
    }

    // memmove what is left to the front
    method Compact()
      requires Valid() && !mmap
      modifies this`pos, this`datasz, buf
      ensures Valid() && pos == 0 && datasz == old(datasz - pos) && Avail() == old(Avail()) && Rest() == old(Rest())
    {
      datasz := datasz - pos;
      forall i | 0 <= i < datasz {
        buf[i] := buf[pos + i];
      }
      pos := 0;
    }

    // mcdb_bufread_preamble_fill
    method PreambleFill() returns (r: int)
      requires Valid() && datasz - pos < PREAMBLE_MAX
      modifies this`pos, this`datasz, this`unread, buf
      ensures Valid() && Rest() == old(Rest())
      ensures r > 0 ==> Avail() != []
      ensures r > 0 ==> COLON in Avail() || Avail()[0] == NEWLINE || |Avail()| >= PREAMBLE_MAX
      ensures r <= 0 ==> unread == [] && COLON !in Avail() && (Avail() == [] || Avail()[0] != NEWLINE)
      ensures old(OneByOne()) && r > 0 ==> |Avail()| <= PREAMBLE_MAX && COLON !in Avail()[..|Avail()| - 1]
    {
      hide McdbInput.Avail, McdbInput.Rest;
      AvailSize();
      r := datasz - pos;                       // length to search before the next read
      while true
        invariant Valid() && Rest() == old(Rest()) && |Avail()| == datasz - pos < PREAMBLE_MAX
        invariant 0 <= r <= |Avail()| && COLON !in Avail()[..|Avail()| - r]
        invariant r == 0 ==> pos == datasz
        invariant old(OneByOne()) ==> r <= 1
        decreases |unread|
      {
        AvailParts(r);
        if COLON in buf[datasz - r..datasz] || !(r == 0 || buf[pos] != NEWLINE) {
          break;
        }
        ghost var before := Avail();
        r := Fill();
        AvailSize();
        if r <= 0 || datasz - pos >= PREAMBLE_MAX {
          break;
        }
      }
    }

    // The buffer but for its last r bytes, and those
    lemma AvailParts(r: nat)
      requires Valid() && r <= datasz - pos
      ensures |Avail()| == datasz - pos && (Avail() != [] ==> Avail()[0] == buf[pos])
      ensures COLON in Avail() <==> COLON in Avail()[..|Avail()| - r] || COLON in buf[datasz - r..datasz]
    {
      assert Avail() == Avail()[..|Avail()| - r] + buf[datasz - r..datasz];
    }

    // mcdb_bufread_number
    method ReadNumber() returns (ok: bool, num: nat)
      requires Valid()
      modifies this`pos
      ensures Valid() && old(pos) <= pos
      ensures ok <==> Number(old(Avail()), 0).Some?
      ensures ok ==> Number(old(Avail()), 0) == Some((num, pos - old(pos)))
      ensures !ok ==> pos == old(pos)
    {
      num := 0;
      var p := pos;
      while datasz != p && IsDigit(buf[p]) && num <= 214748363
        invariant pos <= p <= datasz && AllDigits(buf[pos..p])
        invariant num == Value(buf[pos..p]) <= LEN_MAX
        decreases datasz - p
      {
        assert buf[pos..p + 1][..p - pos] == buf[pos..p];
        num := num * 10 + (buf[p] - '0' as int);
        p := p + 1;
      }
      Slice(buf[..], pos, p, datasz);
      NumberScan(Avail(), p - pos, num);
      if pos != p && (datasz == p || !IsDigit(buf[p])) {
        pos := p;
        return true, num;
      }
      return false, num;
    }

    // mcdb_bufread_preamble: 1 with the lengths, 0 at the blank line, -1 when malformed
    method ReadPreamble() returns (rv: int, klen: nat, dlen: nat)
      requires Valid()
      modifies this`pos, this`datasz, this`unread, buf
      ensures Valid() && -1 <= rv <= 1
      ensures var s := old(Rest());
        && (rv == 1 ==> s != [] && s[0] != NEWLINE && Pre(s).Some?
                        && Pre(s).value.klen == klen && Pre(s).value.dlen == dlen && Rest() == s[Pre(s).value.size..])
        && (rv == 0 ==> s != [] && s[0] == NEWLINE)
        && (rv == -1 ==> (s == [] || s[0] != NEWLINE)
                         && (Pre(s).None? || (!mmap && Pre(s).value.size > PREAMBLE_MAX)))
      ensures old(OneByOne()) && rv == 1 ==> OneByOne() && Pre(old(Rest())).value.size <= PREAMBLE_MAX
    {
      hide Pre, McdbInput.Avail, McdbInput.Rest;
      AvailSize();
      if datasz - pos < PREAMBLE_MAX {
        var r := PreambleFill();
        AvailSize();
        if r <= 0 {
          NoColon(Avail());
          assert Rest() == Avail();
          return -1, 0, 0;
        }
      }
      PreSeen(Avail(), unread);
      ghost var a := Avail();
      rv, klen, dlen := ParsePreamble();
      AvailSize();
      if rv == 1 {
        PreColon(a);
      }
    }

    // The part of the preamble parser that looks at the buffer alone
    method ParsePreamble() returns (rv: int, klen: nat, dlen: nat)
      requires Valid() && pos < datasz
      modifies this`pos
      ensures Valid() && -1 <= rv <= 1 && old(pos) <= pos
      ensures var a := old(Avail());
        && (rv == 1 <==> Pre(a).Some?) && (rv == 1 ==> a[0] != NEWLINE)
        && (rv == 1 ==> Pre(a).value == Preamble(klen, dlen, pos - old(pos)) && Avail() == a[pos - old(pos)..])
        && (rv == 0 <==> a[0] == NEWLINE)
    {
      hide Field;
      klen, dlen := 0, 0;
      ghost var a := Avail();
      pos := pos + 1;
      if buf[pos - 1] == NEWLINE {
        return 0, 0, 0;
      }
      if buf[pos - 1] != PLUS {
        return -1, 0, 0;
      }
      var ok;
      assert Avail() == a[1..];
      FieldShift(a, 1, COMMA);
      ok, klen := ReadField(COMMA);
      if !ok {
        return -1, 0, 0;
      }
      assert Avail() == a[pos - old(pos)..];
      FieldShift(a, pos - old(pos), COLON);
      ok, dlen := ReadField(COLON);
      if !ok {
        return -1, 0, 0;
      }
      return 1, klen, dlen;
    }

    // Consume n bytes of the buffer.
    method Take(n: nat) returns (s: seq<byte>)
      requires Valid() && n <= datasz - pos
      modifies this`pos
      ensures Valid() && |s| == n <= |old(Rest())| && s == old(Rest())[..n] && Rest() == old(Rest())[n..]
      ensures pos == old(pos) + n
    {
      s := buf[pos..pos + n];
      Taken(buf[pos..datasz], unread, n);
      Slice(buf[..], pos, pos + n, datasz);
      pos := pos + n;
    }

    // As much of the next `left` bytes as the buffer holds
    method Piece(left: nat, m: McdbMake, toKey: bool) returns (u: nat)
      requires Valid() && m.InRecord()
      requires if toKey then |m.key| + left == m.klen && m.data == [] else |m.key| == m.klen && |m.data| + left == m.dlen
      modifies this`pos, m
      ensures Valid() && m.InRecord() && m.recs == old(m.recs) && m.klen == old(m.klen) && m.dlen == old(m.dlen)
      ensures u <= left && u <= |old(Rest())| && Rest() == old(Rest())[u..]
      ensures HandedTo(m.key, m.data, old(m.key), old(m.data), old(Rest())[..u], toKey)
      ensures u == left || pos == datasz
      ensures old(datasz - pos) <= left ==> pos == datasz
    {
      hide McdbMake.InRecord, McdbInput.Rest, McdbInput.Avail;
      AvailSize();
      u := if datasz - pos > left then left else datasz - pos;
      var part := Take(u);
      Hand(m, part, toKey);
    }

    // n bytes of s have been handed to the writer.
    ghost predicate Handing(m: McdbMake, s: seq<byte>, n: nat, key0: seq<byte>, data0: seq<byte>, toKey: bool)
      requires Valid()
      reads this, buf, m`key, m`data
    {
      n <= |s| && Rest() == s[n..] && HandedTo(m.key, m.data, key0, data0, s[..n], toKey)
    }

    lemma HandingStarts(m: McdbMake, toKey: bool)
      requires Valid()
      ensures Handing(m, Rest(), 0, m.key, m.data, toKey)
    {
      HandedNone(m.key, m.data, toKey);
    }

    // The record under way lacks `left` bytes of its key, or of its data.
    ghost predicate Room(m: McdbMake, left: nat, toKey: bool)
      reads m
    {
      if toKey then |m.key| + left == m.klen && m.data == [] else |m.key| == m.klen && |m.data| + left == m.dlen
    }

    method HandPiece(left: nat, m: McdbMake, ghost s: seq<byte>, ghost n: nat, ghost key0: seq<byte>,
                     ghost data0: seq<byte>, toKey: bool)
      returns (u: nat)
      requires Valid() && m.InRecord() && Room(m, left, toKey) && Handing(m, s, n, key0, data0, toKey)
      modifies this`pos, m
      ensures Valid() && m.InRecord() && m.recs == old(m.recs) && m.klen == old(m.klen) && m.dlen == old(m.dlen)
      ensures u <= left && Room(m, left - u, toKey) && Handing(m, s, n + u, key0, data0, toKey)
      ensures u == left || pos == datasz
      ensures old(datasz - pos) <= left ==> pos == datasz
    {
      hide McdbMake.InRecord, McdbInput.Rest, McdbInput.Avail, HandedTo;
      u := Piece(left, m, toKey);
      HandedSizes(m.key, m.data, old(m.key), old(m.data), old(Rest())[..u], toKey);
      Prefixes(s, n, u);
      HandedMore(m.key, m.data, old(m.key), old(m.data), key0, data0, s[..n], s[n..][..u], toKey);
    }

    // mcdb_bufread_str: hand len bytes to the writer, refilling as needed; false at end of input
    method ReadStr(len: nat, m: McdbMake, toKey: bool) returns (ok: bool)
      requires Valid() && m.InRecord() && Room(m, len, toKey)
      modifies this`pos, this`datasz, this`unread, buf, m
      ensures Valid() && m.InRecord() && m.recs == old(m.recs) && m.klen == old(m.klen) && m.dlen == old(m.dlen)
      ensures ok <==> len <= |old(Rest())|
      ensures ok ==> Handing(m, old(Rest()), len, old(m.key), old(m.data), toKey)
      ensures ok && old(OneByOne()) ==> OneByOne()
    {
      hide McdbMake.InRecord, McdbInput.Rest, McdbInput.Avail, McdbInput.Room, McdbInput.Handing, HandedTo;
      ghost var s, key0, data0 := Rest(), m.key, m.data;
      var left: nat := len;
      ghost var n: nat := 0;
      HandingStarts(m, toKey);
      while true
        invariant Valid() && m.InRecord() && m.recs == old(m.recs) && m.klen == old(m.klen) && m.dlen == old(m.dlen)
        invariant n + left == len && Room(m, left, toKey) && Handing(m, s, n, key0, data0, toKey)
        invariant old(OneByOne()) ==> datasz - pos <= left
        decreases |unread|
      {
        var u := HandPiece(left, m, s, n, key0, data0, toKey);
        left, n := left - u, n + u;
        HandedSoFar(m, s, n, key0, data0, toKey);
        if left == 0 {
          return true;
        }
        ghost var rest := Rest();
        var r := Fill();
        SameRest(m, s, n, key0, data0, toKey, rest);
        if r <= 0 {
          RestEmpty();
          return false;
        }
      }
    }

    lemma HandedSoFar(m: McdbMake, s: seq<byte>, n: nat, key0: seq<byte>, data0: seq<byte>, toKey: bool)
      requires Valid() && Handing(m, s, n, key0, data0, toKey)
      ensures n <= |s| && |Rest()| == |s| - n && Rest() == s[n..]
      ensures HandedTo(m.key, m.data, key0, data0, s[..n], toKey)
    {
    }

    lemma SameRest(m: McdbMake, s: seq<byte>, n: nat, key0: seq<byte>, data0: seq<byte>, toKey: bool, rest: seq<byte>)
      requires Valid() && n <= |s| && rest == s[n..] && Rest() == rest
      requires HandedTo(m.key, m.data, key0, data0, s[..n], toKey)
      ensures Handing(m, s, n, key0, data0, toKey) && |Rest()| == |s| - n
    {
    }

    lemma AvailSize()
      requires Valid()
      ensures |Avail()| == datasz - pos <= |Rest()| && Rest() == Avail() + unread
    {
    }

    lemma RestEmpty()
      requires Valid() && datasz == pos && unread == []
      ensures Rest() == []
    {
    }

    // mcdb_bufread_xchars: have n bytes in the buffer, or reach the end of the input
    method ReadXchars(n: nat) returns (ok: bool)
      requires Valid() && n < PREAMBLE_MAX
      modifies this`pos, this`datasz, this`unread, buf
      ensures Valid() && Rest() == old(Rest())
      ensures ok <==> n <= |Rest()|
      ensures ok ==> n <= datasz - pos
      ensures ok && old(OneByOne()) ==> n == datasz - pos
    {
      while datasz - pos < n
        invariant Valid() && Rest() == old(Rest())
        invariant old(OneByOne()) ==> datasz - pos <= n
        decreases |unread|
      {
        var r := Fill();
        if r <= 0 {
          break;
        }
      }
      return datasz - pos >= n;
    }

    // mcdb_bufread_rec: the rest of a line that is not all in the buffer
    method ReadRec(klen: nat, dlen: nat, m: McdbMake) returns (ok: bool)
      requires Valid() && m.InRecord() && m.klen == klen && m.dlen == dlen && m.key == [] && m.data == []
      modifies this`pos, this`datasz, this`unread, buf, m
      ensures Valid() && m.InRecord() && m.recs == old(m.recs)
      ensures ok <==> Body(old(Rest()), klen, dlen)
      ensures ok ==> m.klen == |m.key| && m.dlen == |m.data|
      ensures ok ==> m.key == old(Rest())[..klen] && m.data == old(Rest())[klen + 2..klen + 2 + dlen]
      ensures ok ==> Rest() == old(Rest())[klen + dlen + 3..]
      ensures ok && old(OneByOne()) ==> OneByOne()
    {
      hide McdbMake.InRecord, McdbInput.Rest, McdbInput.Avail;
      ghost var s := Rest();
      ok := ReadStr(klen, m, true);
      if !ok {
        return false;
      }
      assert m.key == s[..klen] && m.data == [] && Rest() == s[klen..];
      ok := ReadXchars(2);
      if !ok {
        return false;
      }
      var sep := Take(2);
      if sep[0] != DASH || sep[1] != ARROW {
        return false;
      }
      assert Rest() == s[klen + 2..];
      ok := ReadStr(dlen, m, false);
      if !ok {
        return false;
      }
      assert Rest() == s[klen + 2 + dlen..];
      ok := ReadXchars(1);
      if !ok {
        return false;
      }
      var end := Take(1);
      return end[0] == NEWLINE;
    }

    // A number and its separator
    method ReadField(sep: byte) returns (ok: bool, num: nat)
      requires Valid()
      modifies this`pos
      ensures Valid() && old(pos) <= pos
      ensures ok <==> Field(old(Avail()), 0, sep).Some?
      ensures ok ==> Field(old(Avail()), 0, sep) == Some((num, pos - old(pos)))
    {
      hide Number;
      ok, num := ReadNumber();
      if ok && datasz != pos {
        pos := pos + 1;
        return buf[pos - 1] == sep, num;
      }
      return false, num;
    }
  }

  // The writer's key or data, and what it was before the last bytes handed over
  predicate HandedTo(key: seq<byte>, data: seq<byte>, key0: seq<byte>, data0: seq<byte>, part: seq<byte>, toKey: bool) {
    key == key0 + (if toKey then part else []) && data == data0 + if toKey then [] else part
  }

  lemma HandedNone(key: seq<byte>, data: seq<byte>, toKey: bool)
    ensures HandedTo(key, data, key, data, [], toKey)
  {
  }

  lemma HandedMore(key: seq<byte>, data: seq<byte>, key1: seq<byte>, data1: seq<byte>, key0: seq<byte>, data0: seq<byte>,
                   a: seq<byte>, b: seq<byte>, toKey: bool)
    requires HandedTo(key1, data1, key0, data0, a, toKey) && HandedTo(key, data, key1, data1, b, toKey)
    ensures HandedTo(key, data, key0, data0, a + b, toKey)
  {
    assert (key0 + a) + b == key0 + (a + b) && (data0 + a) + b == data0 + (a + b);
  }

  lemma HandedSizes(key: seq<byte>, data: seq<byte>, key0: seq<byte>, data0: seq<byte>, part: seq<byte>, toKey: bool)
    requires HandedTo(key, data, key0, data0, part, toKey)
    ensures if toKey then |key| == |key0| + |part| && data == data0 else key == key0 && |data| == |data0| + |part|
  {
  }

  // What ReadStr does with the bytes: the key and the data of a record go to different routines.
  method Hand(m: McdbMake, part: seq<byte>, toKey: bool)
    requires m.InRecord()
    requires if toKey then |m.key| + |part| <= m.klen && m.data == [] else |m.key| == m.klen && |m.data| + |part| <= m.dlen
    modifies m
    ensures m.InRecord() && m.recs == old(m.recs) && m.klen == old(m.klen) && m.dlen == old(m.dlen)
    ensures HandedTo(m.key, m.data, old(m.key), old(m.data), part, toKey)
  {
    if toKey {
      m.AddBufKey(part);
    } else {
      m.AddBufData(part);
    }
  }

  datatype Outcome = Success | ReadFormat | WriteError

  // mcdb_makefmt_fdintofd: the loop over lines, then finish.  m is a started writer.
  // The outcome does not depend on how the input was split: it is that of parsing it whole, but
  // for inputs with a preamble longer than the reader looks ahead.
  method MakeFromText(b: McdbInput, m: McdbMake) returns (r: Outcome)
    requires b.Valid() && m.Idle() && m.recs == []
    requires Parse(b.Rest()).Some? ==> Finishable(Parse(b.Rest()).value)
    modifies b, b.buf, m, m.lists, m.lists.Repr
    ensures var s := old(b.Rest());
      && (r == Success ==> Parse(s).Some? && m.file == Image(Parse(s).value))
      && (r == ReadFormat ==> Parse(s).None? || (LongPreamble(s) && !b.mmap))
      && (r == WriteError ==> Parse(s).None? || |Parse(s).value| > INT_MAX)
      && (old(b.OneByOne()) && r != WriteError ==> (r == ReadFormat <==> Parse(s).None? || LongPreamble(s)))
  {
    hide McdbMake.Idle, McdbInput.Rest, McdbInput.Avail, Parse, LongPreamble, Image, Finishable;
    ghost var s := b.Rest();
    NoneBefore(Parse(s));
    while true
      invariant b.Valid() && m.Idle() && fresh(m.lists.Repr - old(m.lists.Repr))
      invariant Parse(s) == Prepend(m.recs, Parse(b.Rest()))
      invariant LongPreamble(b.Rest()) ==> LongPreamble(s)
      invariant old(b.OneByOne()) ==> b.OneByOne() && (LongPreamble(s) ==> LongPreamble(b.Rest()))
      decreases |b.Rest()|
    {
      ghost var was, rest := m.recs, Parse(b.Rest());
      var line := OneLine(b, m);
      if line == Blank {
        break;
      } else if line == Bad {
        return ReadFormat;
      } else if line == NoRoom {
        return WriteError;
      }
      PrependOne(was, m.recs, Parse(b.Rest()));
    }
    NoneAfter(m.recs);
    var code, freed := m.Finish();
    return if code == OK then Success else WriteError;
  }

  ghost function Prepend(a: seq<Rec>, r: Option<seq<Rec>>): Option<seq<Rec>> {
    match r case None => None case Some(b) => Some(a + b)
  }

  lemma NoneBefore(r: Option<seq<Rec>>)
    ensures r == Prepend([], r)
  {
    assert r.Some? ==> [] + r.value == r.value;
  }

  lemma NoneAfter(a: seq<Rec>)
    ensures Prepend(a, Some([])) == Some(a)
  {
    assert a + [] == a;
  }

  lemma PrependOne(a: seq<Rec>, more: seq<Rec>, r: Option<seq<Rec>>)
    requires a <= more
    ensures Prepend(more, r) == Prepend(a, Prepend(more[|a|..], r))
  {
    assert r.Some? ==> more + r.value == a + (more[|a|..] + r.value);
  }

  datatype LineResult = Added | Blank | Bad | NoRoom

  // One more line of s has been added to `was`; `rest` is still to be parsed.
  ghost predicate LineDone(s: seq<byte>, was: seq<Rec>, recs: seq<Rec>, rest: seq<byte>) {
    && was <= recs && |rest| < |s|
    && Parse(s) == Prepend(recs[|was|..], Parse(rest))
    && (LongPreamble(rest) ==> LongPreamble(s))
  }

  // One round of the loop: one step of the grammar
  method OneLine(b: McdbInput, m: McdbMake) returns (r: LineResult)
    requires b.Valid() && m.Idle()
    modifies b, b.buf, m, m.lists, m.lists.Repr
    ensures b.Valid() && fresh(m.lists.Repr - old(m.lists.Repr))
    ensures r == Added ==> m.Idle() && LineDone(old(b.Rest()), old(m.recs), m.recs, b.Rest())
    ensures r == Added && old(b.OneByOne()) ==>
      b.OneByOne() && (LongPreamble(old(b.Rest())) ==> LongPreamble(b.Rest()))
    ensures r == Blank ==> m.Idle() && m.recs == old(m.recs) && Parse(old(b.Rest())) == Some([])
    ensures r == Blank ==> !LongPreamble(old(b.Rest()))
    ensures r == Bad ==> Parse(old(b.Rest())).None? || (LongPreamble(old(b.Rest())) && !b.mmap)
    ensures r == NoRoom ==> |old(m.recs)| >= INT_MAX && (Parse(old(b.Rest())).None? || Parse(old(b.Rest())).value != [])
  {
    hide McdbMake.Idle, McdbMake.Listed, McdbMake.Window, McdbInput.Rest, McdbInput.Avail, McdbInput.Valid;
    hide McdbInput.OneByOne, Pre, Body, BodyRec, Parse, LongPreamble, Prepend, LineDone;
    ghost var s := b.Rest();
    StepBad(s);
    var rv, klen, dlen := b.ReadPreamble();
    if rv < 0 {
      return Bad;
    }
    if rv == 0 {
      return Blank;
    }
    r := AfterPreamble(b, m, klen, dlen, s, Pre(s).value);
  }

  // The line from its preamble on
  method AfterPreamble(b: McdbInput, m: McdbMake, klen: nat, dlen: nat, ghost s: seq<byte>, ghost p: Preamble)
    returns (r: LineResult)
    requires b.Valid() && m.Idle() && s != [] && s[0] != NEWLINE && Pre(s) == Some(p)
    requires klen == p.klen && dlen == p.dlen && b.Rest() == s[p.size..]
    modifies b, b.buf, m, m.lists, m.lists.Repr
    ensures b.Valid() && fresh(m.lists.Repr - old(m.lists.Repr)) && r != Blank
    ensures r == Added ==> m.Idle() && LineDone(s, old(m.recs), m.recs, b.Rest())
    ensures r == Added && old(b.OneByOne()) ==> b.OneByOne()
    ensures r == Added && p.size <= PREAMBLE_MAX ==> (LongPreamble(s) ==> LongPreamble(b.Rest()))
    ensures r == Bad ==> Parse(s).None?
    ensures r == NoRoom ==> |old(m.recs)| >= INT_MAX && (Parse(s).None? || Parse(s).value != [])
  {
    hide *;
    ghost var was, t := m.recs, b.Rest();
    r := RestOfLine(b, m, klen, dlen);
    if r == Added {
      StepDone(s, p, t, was, m.recs, b.Rest());
    } else {
      StepStopped(s, p);
    }
  }

  // The fast path when the whole line is in the buffer, and the slow path otherwise
  method RestOfLine(b: McdbInput, m: McdbMake, klen: nat, dlen: nat) returns (r: LineResult)
    requires b.Valid() && m.Idle() && klen <= LEN_MAX && dlen <= LEN_MAX
    modifies b, b.buf, m, m.lists, m.lists.Repr
    ensures b.Valid() && fresh(m.lists.Repr - old(m.lists.Repr)) && r != Blank
    ensures r == Added ==> m.Idle() && Body(old(b.Rest()), klen, dlen)
    ensures r == Added ==> m.recs == old(m.recs) + [BodyRec(old(b.Rest()), klen, dlen)]
    ensures r == Added ==> b.Rest() == old(b.Rest())[klen + dlen + 3..]
    ensures r == Added && old(b.OneByOne()) ==> b.OneByOne()
    ensures r == Bad ==> !Body(old(b.Rest()), klen, dlen)
    ensures r == NoRoom ==> |old(m.recs)| >= INT_MAX
  {
    hide McdbMake.Idle, McdbInput.Rest, McdbInput.Avail, BodyRec;
    if klen + dlen + 3 <= b.datasz - b.pos {
      r := FastLine(b, m, klen, dlen);
    } else {
      r := SlowLine(b, m, klen, dlen);
    }
  }

  lemma StepDone(s: seq<byte>, p: Preamble, t: seq<byte>, was: seq<Rec>, recs: seq<Rec>, rest: seq<byte>)
    requires s != [] && s[0] != NEWLINE && Pre(s) == Some(p) && t == s[p.size..] && Body(t, p.klen, p.dlen)
    requires recs == was + [BodyRec(t, p.klen, p.dlen)] && rest == t[p.klen + p.dlen + 3..]
    ensures LineDone(s, was, recs, rest)
    ensures p.size <= PREAMBLE_MAX ==> (LongPreamble(s) ==> LongPreamble(rest))
  {
    hide Parse, LongPreamble, Pre, BodyRec, Prepend;
    StepBody(s, p);
    assert recs[|was|..] == [BodyRec(t, p.klen, p.dlen)];
  }

  // The line was not added: it is malformed, or there was no room for it.
  lemma StepStopped(s: seq<byte>, p: Preamble)
    requires s != [] && s[0] != NEWLINE && Pre(s) == Some(p)
    ensures !Body(s[p.size..], p.klen, p.dlen) ==> Parse(s).None?
    ensures Parse(s).None? || Parse(s).value != []
  {
    StepBad(s);
  }

  // One step of the grammar
  lemma StepBody(s: seq<byte>, p: Preamble)
    requires s != [] && s[0] != NEWLINE && Pre(s) == Some(p) && Body(s[p.size..], p.klen, p.dlen)
    ensures var t := s[p.size..];
      var rest := t[p.klen + p.dlen + 3..];
      && |rest| < |s| && Parse(s) == Prepend([BodyRec(t, p.klen, p.dlen)], Parse(rest))
      && (LongPreamble(s) <==> p.size > PREAMBLE_MAX || LongPreamble(rest))
  {
    hide Pre, Body, BodyRec, Parse, LongPreamble;
    var t := s[p.size..];
    BodyInside(t, p.klen, p.dlen);
    ParseStep(s, p, t, t[p.klen + p.dlen + 3..]);
    LongStep(s, p, t, t[p.klen + p.dlen + 3..]);
  }

  lemma BodyInside(t: seq<byte>, klen: nat, dlen: nat)
    requires Body(t, klen, dlen)
    ensures klen + dlen + 3 <= |t|
  {
  }

  lemma ParseStep(s: seq<byte>, p: Preamble, t: seq<byte>, rest: seq<byte>)
    requires s != [] && s[0] != NEWLINE && Pre(s) == Some(p) && t == s[p.size..] && Body(t, p.klen, p.dlen)
    requires p.klen + p.dlen + 3 <= |t| && rest == t[p.klen + p.dlen + 3..]
    ensures Parse(s) == Prepend([BodyRec(t, p.klen, p.dlen)], Parse(rest))
  {
    hide Pre, Body, BodyRec, LongPreamble;
  }

  lemma LongStep(s: seq<byte>, p: Preamble, t: seq<byte>, rest: seq<byte>)
    requires s != [] && s[0] != NEWLINE && Pre(s) == Some(p) && t == s[p.size..] && Body(t, p.klen, p.dlen)
    requires p.klen + p.dlen + 3 <= |t| && rest == t[p.klen + p.dlen + 3..]
    ensures LongPreamble(s) <==> p.size > PREAMBLE_MAX || LongPreamble(rest)
  {
    hide Pre, Body, Parse;
  }

  lemma StepBad(s: seq<byte>)
    ensures s == [] || s[0] != NEWLINE ==>
      && (Pre(s).None? ==> Parse(s).None?)
      && (Pre(s).Some? && !Body(s[Pre(s).value.size..], Pre(s).value.klen, Pre(s).value.dlen) ==> Parse(s).None?)
      && (Pre(s).Some? && Pre(s).value.size > PREAMBLE_MAX ==> LongPreamble(s))
    ensures s != [] && s[0] == NEWLINE ==> Parse(s) == Some([]) && !LongPreamble(s)
    ensures s == [] || s[0] != NEWLINE ==> Parse(s).None? || Parse(s).value != []
  {
  }

  // The whole line is in the buffer.
  method FastLine(b: McdbInput, m: McdbMake, klen: nat, dlen: nat) returns (r: LineResult)
    requires b.Valid() && m.Idle() && klen <= LEN_MAX && dlen <= LEN_MAX
    requires klen + dlen + 3 <= b.datasz - b.pos
    modifies b, m, m.lists, m.lists.Repr
    ensures b.Valid() && fresh(m.lists.Repr - old(m.lists.Repr)) && r != Blank
    ensures r == Added ==> m.Idle() && Body(old(b.Rest()), klen, dlen)
    ensures r == Added ==> m.recs == old(m.recs) + [BodyRec(old(b.Rest()), klen, dlen)]
    ensures r == Added ==> b.Rest() == old(b.Rest())[klen + dlen + 3..]
    ensures r == Bad ==> !Body(old(b.Rest()), klen, dlen)
    ensures r == NoRoom ==> |old(m.recs)| >= INT_MAX
  {
    hide McdbMake.Idle, McdbInput.Rest, McdbInput.Avail;
    ghost var s := b.Rest();
    var line := b.Take(klen + dlen + 3);
    if line[klen] != DASH || line[klen + 1] != ARROW || line[klen + 2 + dlen] != NEWLINE {
      return Bad;
    }
    assert line[..klen] == s[..klen] && line[klen + 2..klen + 2 + dlen] == s[klen + 2..klen + 2 + dlen];
    var code := m.Add(line[..klen], line[klen + 2..klen + 2 + dlen]);
    return if code == OK then Added else NoRoom;
  }

  // The line is longer than what is buffered.
  method SlowLine(b: McdbInput, m: McdbMake, klen: nat, dlen: nat) returns (r: LineResult)
    requires b.Valid() && m.Idle() && klen <= LEN_MAX && dlen <= LEN_MAX
    modifies b, b.buf, m, m.lists, m.lists.Repr
    ensures b.Valid() && fresh(m.lists.Repr - old(m.lists.Repr)) && r != Blank
    ensures r == Added ==> m.Idle() && Body(old(b.Rest()), klen, dlen)
    ensures r == Added ==> m.recs == old(m.recs) + [BodyRec(old(b.Rest()), klen, dlen)]
    ensures r == Added ==> b.Rest() == old(b.Rest())[klen + dlen + 3..]
    ensures r == Added && old(b.OneByOne()) ==> b.OneByOne()
    ensures r == Bad ==> !Body(old(b.Rest()), klen, dlen)
    ensures r == NoRoom ==> |old(m.recs)| >= INT_MAX
  {
    hide McdbMake.Idle, McdbMake.InRecord, McdbMake.Listed, McdbMake.Window;
    hide McdbInput.Rest, McdbInput.Avail, McdbInput.Valid, Body;
    var code := m.AddBegin(klen, dlen);
    if code != OK {
      return NoRoom;
    }
    var ok := b.ReadRec(klen, dlen, m);
    if !ok {
      return Bad;
    }
    m.AddEnd();
    return Added;
  }

  lemma Regrouped(a: seq<byte>, u: seq<byte>, n: nat)
    requires n <= |u|
    ensures a + u == (a + u[..n]) + u[n..]
  {
  }

  lemma Taken(a: seq<byte>, t: seq<byte>, n: nat)
    requires n <= |a|
    ensures (a + t)[..n] == a[..n] && (a + t)[n..] == a[n..] + t
  {
  }

  lemma Prefixes(s: seq<byte>, n: nat, u: nat)
    requires n + u <= |s|
    ensures s[..n + u] == s[..n] + s[n..][..u] && s[n + u..] == s[n..][u..]
  {
  }

  lemma NoColon(s: seq<byte>)
    requires COLON !in s
    ensures Pre(s).None?
  {
    hide Pre;
    if Pre(s).Some? {
      PreColon(s);
    }
  }

  // With a colon, a newline in front, or 23 bytes in the buffer, the buffer decides the preamble.
  lemma PreSeen(a: seq<byte>, t: seq<byte>)
    requires a != [] && (COLON in a || a[0] == NEWLINE || |a| >= PREAMBLE_MAX)
    ensures Pre(a).Some? ==> Pre(a + t) == Pre(a)
    ensures Pre(a).None? ==> Pre(a + t).None? || Pre(a + t).value.size > PREAMBLE_MAX
    ensures t == [] ==> Pre(a + t) == Pre(a)
  {
    hide Field;
    PrePrefix(a, t);
    assert t == [] ==> a + t == a;
    if COLON in a && Pre(a + t).Some? {
      PreColon(a + t);
      var i :| 0 <= i < |a| && a[i] == COLON;
      assert (a + t)[i] == COLON;
    }
  }

  lemma {:induction false} DigitsEndShift(s: seq<byte>, i: nat, j: nat)
    requires i <= j <= |s|
    ensures DigitsEnd(s, j) == i + DigitsEnd(s[i..], j - i)
    decreases |s| - j
  {
    if j < |s| && IsDigit(s[j]) {
      DigitsEndShift(s, i, j + 1);
    }
  }

  lemma NumberShift(s: seq<byte>, i: nat)
    requires i <= |s|
    ensures Number(s, i).Some? <==> Number(s[i..], 0).Some?
    ensures Number(s, i).Some? ==> Number(s, i).value == (Number(s[i..], 0).value.0, i + Number(s[i..], 0).value.1)
  {
    DigitsEndShift(s, i, i);
    assert s[i..][0..DigitsEnd(s[i..], 0)] == s[i..DigitsEnd(s, i)];
  }

  lemma FieldShift(s: seq<byte>, i: nat, sep: byte)
    requires i <= |s|
    ensures Field(s, i, sep).Some? <==> Field(s[i..], 0, sep).Some?
    ensures Field(s, i, sep).Some? ==>
      Field(s, i, sep).value == (Field(s[i..], 0, sep).value.0, i + Field(s[i..], 0, sep).value.1)
  {
    hide Number;
    NumberShift(s, i);
  }

  lemma Slice(s: seq<byte>, i: nat, j: nat, k: nat)
    requires i <= j <= k <= |s|
    ensures s[i..k][..j - i] == s[i..j] && s[i..k][j - i..] == s[j..k]
  {
  }

  // A scan that stopped at e after reading num decides the number.
  lemma NumberScan(s: seq<byte>, e: nat, num: nat)
    requires e <= |s| && AllDigits(s[..e]) && num == Value(s[..e]) <= LEN_MAX
    requires e == |s| || !IsDigit(s[e]) || num > 214748363
    ensures Number(s, 0) == if e > 0 && (e == |s| || !IsDigit(s[e])) then Some((num, e)) else None
  {
    var f := DigitsEnd(s, 0);
    assert s[0..e] == s[..e];
    if e == |s| || !IsDigit(s[e]) {
      DigitsEndRun(s, 0, e);
    } else {
      FurtherDigit(s, e);
      assert s[0..f] == s[..e] + s[e..f];
      ValueGrows(s[..e], s[e..f]);
    }
  }

  lemma FurtherDigit(s: seq<byte>, e: nat)
    requires e < |s| && AllDigits(s[..e]) && IsDigit(s[e])
    ensures e < DigitsEnd(s, 0) && AllDigits(s[e..DigitsEnd(s, 0)])
  {
    var f := DigitsEnd(s, 0);
    forall i | 0 <= i <= e
      ensures IsDigit(s[i])
    {
      assert i < e ==> s[..e][i] == s[i];
    }
    forall i | 0 <= i < f - e
      ensures IsDigit(s[e..f][i])
    {
      assert s[0..f][e + i] == s[e..f][i];
    }
  }
}
