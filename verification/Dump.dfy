// mcdbctl.c: dump.  Output is gathered as a list of pieces, some of them in a digit buffer that is
// reused after every flush, some of them in the mapped file, and written when the list is full.
module Dump {
  import opened Bytes
  import opened Uint32
  import opened Layout
  import opened TextFormat
  import opened Reader
  import opened Walks
  import opened Ctl
  import opened Make
  import opened MakeFmt

  const SSIZE_MAX: nat := 0x7FFF_FFFF_FFFF_FFFF

  // struct iovec: a constant string, a piece of the digit buffer, or a piece of the map
  datatype Iovec = Lit(s: seq<byte>) | Num(off: nat, len: nat) | Map(off: nat, len: nat)

  function Resolve(v: Iovec, buf: seq<byte>, file: seq<byte>): seq<byte> {
    match v
    case Lit(s) => s
    case Num(off, len) => if off + len <= |buf| then buf[off..off + len] else []
    case Map(off, len) => if off + len <= |file| then file[off..off + len] else []
  }

  function Gathered(iov: seq<Iovec>, buf: seq<byte>, file: seq<byte>): seq<byte> {
    if iov == [] then []
    else Gathered(iov[..|iov| - 1], buf, file) + Resolve(iov[|iov| - 1], buf, file)
  }

  // The pieces use only the first n bytes of the digit buffer.
  predicate Within(iov: seq<Iovec>, n: nat) {
    forall i :: 0 <= i < |iov| && iov[i].Num? ==> iov[i].off + iov[i].len <= n
  }

  lemma {:induction false} GatheredStable(iov: seq<Iovec>, was: seq<byte>, now: seq<byte>, file: seq<byte>, n: nat)
    requires Within(iov, n) && n <= |was| && n <= |now| && was[..n] == now[..n]
    ensures Gathered(iov, was, file) == Gathered(iov, now, file)
  {
    hide Resolve;
    if iov != [] {
      GatheredStable(iov[..|iov| - 1], was, now, file, n);
      ResolveStable(iov[|iov| - 1], was, now, file, n);
    }
  }

  lemma ResolveStable(v: Iovec, was: seq<byte>, now: seq<byte>, file: seq<byte>, n: nat)
    requires v.Num? ==> v.off + v.len <= n
    requires n <= |was| && n <= |now| && was[..n] == now[..n]
    ensures Resolve(v, was, file) == Resolve(v, now, file)
  {
    if v.Num? {
      forall i | v.off <= i < v.off + v.len
        ensures was[i] == now[i]
      {
        assert was[..n][i] == now[..n][i];
      }
    }
  }

  lemma GatheredAdd(iov: seq<Iovec>, v: Iovec, buf: seq<byte>, file: seq<byte>)
    ensures Gathered(iov + [v], buf, file) == Gathered(iov, buf, file) + Resolve(v, buf, file)
  {
    assert (iov + [v])[..|iov|] == iov;
  }

  // writev, complete: the pieces in order
  method Writev(out: seq<byte>, iov: seq<Iovec>, buf: array<byte>, file: seq<byte>) returns (all: seq<byte>)
    ensures all == out + Gathered(iov, buf[..], file)
  {
    hide Gathered, Resolve;
    all := out;
    GatheredNone(buf[..], file);
    assert iov[..0] == [];
    for i := 0 to |iov|
      invariant all == out + Gathered(iov[..i], buf[..], file)
    {
      assert iov[..i + 1] == iov[..i] + [iov[i]];
      GatheredAdd(iov[..i], iov[i], buf[..], file);
      all := all + Resolve(iov[i], buf[..], file);
    }
    assert iov[..|iov|] == iov;
  }

  // One number: its digits go to the end of the used part of the buffer.
  method PushNum(x: word, buf: array<byte>, buflen: nat, iov: seq<Iovec>, ghost file: seq<byte>)
    returns (iov': seq<Iovec>, buflen': nat)
    requires buflen + 10 <= buf.Length && Within(iov, buflen)
    modifies buf
    ensures buflen <= buflen' <= buflen + 10 && Within(iov', buflen') && |iov'| == |iov| + 1
    ensures Gathered(iov', buf[..], file) == old(Gathered(iov, buf[..], file)) + Decimal(x)
  {
    hide Decimal, Gathered, Resolve;
    var n := ToAsciiBase10(x, buf, buflen);
    NumPlaced(old(buf[..]), buf[..], buflen, Decimal(x), n);
    GatheredStable(iov, old(buf[..]), buf[..], file, buflen);
    GatheredAdd(iov, Num(buflen, n), buf[..], file);
    NumResolves(buflen, n, buf[..], file);
    iov' := iov + [Num(buflen, n)];
    buflen' := buflen + n;
  }

  lemma NumPlaced(was: seq<byte>, now: seq<byte>, at: nat, digits: seq<byte>, n: nat)
    requires at + n <= |was| && |now| == |was| && now == was[..at] + digits + was[at + n..]
    ensures now[..at] == was[..at] && |digits| == n && now[at..at + n] == digits
  {
  }

  lemma NumResolves(off: nat, len: nat, buf: seq<byte>, file: seq<byte>)
    requires off + len <= |buf|
    ensures Resolve(Num(off, len), buf, file) == buf[off..off + len]
  {
  }

  // mcdbctl_dump, as the stream of bytes written.  iovnum is IOV_MAX.
  method DumpText(mm: McdbMmap, iovnum: nat, ghost recs: seq<Rec>) returns (out: seq<byte>)
    requires mm.Holds(recs) && 9 <= iovnum
    ensures out == Text(recs)
  {
    hide McdbMmap.Holds, McdbIter.AtRecord, McdbIter.Next, Line, Gathered;
    var iter := new McdbIter(mm, recs);
    var buf := new byte[iovnum * 3];
    var iov: seq<Iovec>, iovlen: nat, buflen: nat := [], 0, 0;
    out := [];
    GatheredNone(buf[..], mm.ptr);
    ghost var i := 0;
    while true
      invariant i <= |recs| && iter.Next(recs, i) && iter.mm == mm && fresh(iter) && fresh(buf)
      invariant buflen <= 3 * |iov| <= 3 * iovnum && buf.Length == 3 * iovnum && Within(iov, buflen)
      invariant out + Gathered(iov, buf[..], mm.ptr) + Text(recs[i..]) == Text(recs)
      decreases |recs| - i
    {
      var more := iter.Advance(recs, i);
      if !more {
        break;
      }
      if iovlen + iter.klen + 5 > SSIZE_MAX || |iov| + 8 >= iovnum {
        out, iov := Flush(out, iov, buf, mm.ptr);
        iovlen, buflen := 0, 0;
      }
      ghost var before := out + Gathered(iov, buf[..], mm.ptr);
      out, iov, iovlen, buflen := DumpRec(out, iter, iov, iovlen, buf, buflen, recs, i);
      TextNext(recs, i, before);
      i := i + 1;
    }
    out := Writev(out, iov, buf, mm.ptr);
    assert recs[i..] == [];
    out := out + [NEWLINE];
  }

  lemma GatheredNone(buf: seq<byte>, file: seq<byte>)
    ensures Gathered([], buf, file) == []
  {
  }

  lemma TextNext(recs: seq<Rec>, i: nat, before: seq<byte>)
    requires i < |recs|
    ensures before + Text(recs[i..]) == before + Line(recs[i]) + Text(recs[i + 1..])
  {
    hide Line;
    assert recs[i..][1..] == recs[i + 1..];
  }

  // "+klen,dlen:key->", seven pieces
  method DumpKey(iter: McdbIter, iov: seq<Iovec>, buf: array<byte>, buflen: nat, ghost recs: seq<Rec>, ghost i: nat)
    returns (iov': seq<Iovec>, buflen': nat)
    requires iter.AtRecord(recs, i) && buflen + 20 <= buf.Length && Within(iov, buflen)
    modifies buf
    ensures |iov'| == |iov| + 7 && buflen' <= buflen + 20 && Within(iov', buflen')
    ensures Gathered(iov', buf[..], iter.mm.ptr)
      == old(Gathered(iov, buf[..], iter.mm.ptr)) + Head(recs[i]) + recs[i].key + [DASH, ARROW]
  {
    hide Gathered, Decimal, Resolve, Within;
    var file := iter.mm.ptr;
    ghost var r, g := recs[i], Gathered(iov, buf[..], file);
    iov' := PushLit(iov, [PLUS], buf[..], file, buflen);
    iov', buflen' := PushNum(iter.klen, buf, buflen, iov', file);
    iov' := PushLit(iov', [COMMA], buf[..], file, buflen');
    iov', buflen' := PushNum(iter.dlen, buf, buflen', iov', file);
    iov' := PushLit(iov', [COLON], buf[..], file, buflen');
    HeadPieces(g, r);
    iov' := PushMap(iov', iter.ptr - iter.dlen - iter.klen, iter.klen, buf[..], file, buflen');
    iov' := PushLit(iov', [DASH, ARROW], buf[..], file, buflen');
  }

  method Flush(out: seq<byte>, iov: seq<Iovec>, buf: array<byte>, file: seq<byte>)
    returns (out': seq<byte>, iov': seq<Iovec>)
    ensures iov' == [] && out' + Gathered(iov', buf[..], file) == out + Gathered(iov, buf[..], file)
  {
    hide Gathered;
    out' := Writev(out, iov, buf, file);
    GatheredNone(buf[..], file);
    iov' := [];
  }

  // The data and the newline
  method DumpData(iter: McdbIter, iov: seq<Iovec>, buf: array<byte>, buflen: nat, ghost recs: seq<Rec>, ghost i: nat)
    returns (iov': seq<Iovec>)
    requires iter.AtRecord(recs, i) && Within(iov, buflen) && buflen <= buf.Length
    ensures |iov'| == |iov| + 2 && Within(iov', buflen)
    ensures Gathered(iov', buf[..], iter.mm.ptr) == Gathered(iov, buf[..], iter.mm.ptr) + recs[i].data + [NEWLINE]
  {
    hide Gathered, Within;
    var file := iter.mm.ptr;
    iov' := PushMap(iov, iter.ptr - iter.dlen, iter.dlen, buf[..], file, buflen);
    iov' := PushLit(iov', [NEWLINE], buf[..], file, buflen);
  }

  // The body of the loop, with a second flush when the sizes would overflow
  method DumpRec(out: seq<byte>, iter: McdbIter, iov: seq<Iovec>, iovlen: nat, buf: array<byte>, buflen: nat,
                 ghost recs: seq<Rec>, ghost i: nat)
    returns (out': seq<byte>, iov': seq<Iovec>, iovlen': nat, buflen': nat)
    requires iter.AtRecord(recs, i)
    requires |iov| + 9 <= buf.Length / 3 && buflen <= 3 * |iov| && Within(iov, buflen)
    modifies buf
    ensures buflen' <= 3 * |iov'| <= 3 * (|iov| + 9) && Within(iov', buflen')
    ensures out' + Gathered(iov', buf[..], iter.mm.ptr)
      == old(out + Gathered(iov, buf[..], iter.mm.ptr)) + Line(recs[i])
  {
    assert i < |recs|;
    hide Gathered, Line, Head, McdbIter.AtRecord;
    var file := iter.mm.ptr;
    ghost var r, g := recs[i], Gathered(iov, buf[..], file);
    iov', buflen' := DumpKey(iter, iov, buf, buflen, recs, i);
    iovlen' := iovlen + iter.klen + 5;
    out' := out;
    ghost var half := g + Head(r) + r.key + [DASH, ARROW];
    if iovlen' + iter.dlen + 1 > SSIZE_MAX {
      out', iov' := Flush(out, iov', buf, file);
      iovlen', buflen' := 0, 0;
      NoneWithin();
    }
    assert out' + Gathered(iov', buf[..], file) == out + half;
    Regroup3(out', Gathered(iov', buf[..], file), r.data, [NEWLINE]);
    iov' := DumpData(iter, iov', buf, buflen', recs, i);
    iovlen' := iovlen' + iter.dlen + 1;
    LinePieces(out, g, r);
  }

  lemma NoneWithin()
    ensures Within([], 0)
  {
  }

  lemma Regroup3(a: seq<byte>, b: seq<byte>, c: seq<byte>, d: seq<byte>)
    ensures a + (b + c + d) == a + b + c + d
  {
  }

  lemma HeadPieces(g: seq<byte>, r: Rec)
    ensures g + [PLUS] + Decimal(|r.key|) + [COMMA] + Decimal(|r.data|) + [COLON] == g + Head(r)
  {
    hide Decimal;
  }

  lemma LinePieces(out: seq<byte>, g: seq<byte>, r: Rec)
    ensures out + (g + Head(r) + r.key + [DASH, ARROW]) + r.data + [NEWLINE] == out + g + Line(r)
  {
    hide Head;
  }

  method PushLit(iov: seq<Iovec>, s: seq<byte>, ghost buf: seq<byte>, ghost file: seq<byte>, ghost n: nat)
    returns (iov': seq<Iovec>)
    requires Within(iov, n)
    ensures iov' == iov + [Lit(s)] && Within(iov', n)
    ensures Gathered(iov', buf, file) == Gathered(iov, buf, file) + s
  {
    GatheredAdd(iov, Lit(s), buf, file);
    iov' := iov + [Lit(s)];
  }

  method PushMap(iov: seq<Iovec>, off: nat, len: nat, ghost buf: seq<byte>, ghost file: seq<byte>, ghost n: nat)
    returns (iov': seq<Iovec>)
    requires Within(iov, n) && off + len <= |file|
    ensures iov' == iov + [Map(off, len)] && Within(iov', n)
    ensures Gathered(iov', buf, file) == Gathered(iov, buf, file) + file[off..off + len]
  {
    GatheredAdd(iov, Map(off, len), buf, file);
    iov' := iov + [Map(off, len)];
  }

  // Dump followed by make reproduces the file byte for byte, whatever pieces the text arrives in.
  method DumpThenMake(mm: McdbMmap, iovnum: nat, buffer: array<byte>, most: nat, mk: McdbMake, ghost recs: seq<Rec>)
    returns (r: Outcome)
    requires mm.Holds(recs) && mm.ptr == Image(recs) && 9 <= iovnum && PREAMBLE_MAX <= buffer.Length && most > 0
    requires mk.Idle() && mk.recs == [] && Finishable(recs)
    modifies buffer, mk, mk.lists, mk.lists.Repr
    ensures r == Success && mk.file == mm.ptr
  {
    hide McdbMmap.Holds, McdbMake.Idle, Finishable, Image, Text, Parse, LongPreamble, McdbInput.Rest, McdbInput.Valid;
    HeldCount(mm, recs);
    var text := DumpText(mm, iovnum, recs);
    ParseText(recs);
    var b := new McdbInput.Stream(buffer, text, most);
    r := MakeFromText(b, mk);
  }
}
