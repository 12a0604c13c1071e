// The parts put together: what is stored by the writer is what the reader finds.
module RoundTrip {
  import opened Wrappers
  import opened Bytes
  import opened Layout
  import opened Search
  import opened Reader
  import opened Make
  import opened TextFormat
  import opened MakeFmt
  import opened Limits
  import opened Ctl
  import opened NgGraph
  import opened NgTables
  import opened Triples
  import opened Netgroup
  import opened Netgr
  import opened NetgroupDb
  import opened NgBuild
  import opened NgMeaning

  // A finished file, opened, holds the records added.
  lemma OpenedHolds(mm: McdbMmap, recs: seq<Rec>)
    requires Finishable(recs) && |recs| <= 2147483647
    requires mm.ptr == Image(recs) && (mm.b == 3 <==> NarrowCells(mm.ptr))
    ensures mm.Holds(recs)
  {
    hide NarrowCells, Image, IsImage, BitsOf, TablePos, Members;
    ImageIsImage(recs);
    StridesAgree(mm.ptr, recs);
  }

  // mcdb_make_start, then one mcdb_make_add a record
  method StoreAll(pagesize: nat, recs: seq<Rec>) returns (mk: McdbMake)
    requires pagesize > 0 && |recs| <= 2147483647
    ensures fresh(mk) && fresh(mk.lists) && fresh(mk.lists.Repr) && mk.Idle() && mk.recs == recs
  {
    hide McdbMake.Idle, McdbMake.Listed;
    mk := new McdbMake(pagesize);
    for i := 0 to |recs|
      invariant fresh(mk) && fresh(mk.lists) && fresh(mk.lists.Repr) && mk.Idle() && mk.recs == recs[..i]
    {
      var r := mk.Add(recs[i].key, recs[i].data);
      assert recs[..i + 1] == recs[..i] + [recs[i]];
    }
    assert recs[..|recs|] == recs;
  }

  // ... and mcdb_make_finish
  method Store(pagesize: nat, recs: seq<Rec>) returns (file: seq<byte>)
    requires pagesize > 0 && Finishable(recs) && |recs| <= 2147483647
    ensures file == Image(recs)
  {
    hide *;
    var mk := StoreAll(pagesize, recs);
    var r, freed := mk.Finish();
    file := mk.file;
  }

  // The same text in pieces: refused for its leading zeros when every read delivers one byte and the
  // preamble has more than 23, and accepted when it is mapped
  method LeadingZerosDiffer(pagesize: nat, zeros: nat) returns (mapped: Outcome, pieces: Outcome)
    requires pagesize > 0
    ensures mapped == Success && pieces == if zeros + 5 > 23 then ReadFormat else Success
  {
    hide McdbMake.Idle, McdbMake.Listed, Finishable, Parse, LongPreamble, McdbInput.Rest, PaddedText, Image;
    var text := PaddedText(zeros);
    PaddedIsLong(zeros);
    FewFinishable([Record(['a' as byte], ['b' as byte])]);
    var input := new byte[|text|](i requires 0 <= i < |text| => text[i]);
    assert input[..] == text;
    var whole := new McdbInput.Mapped(input);
    var mk := new McdbMake(pagesize);
    mapped := MakeFromText(whole, mk);
    var buffer := new byte[PREAMBLE_MAX](_ => 0);
    var stream := new McdbInput.Stream(buffer, text, 1);
    var mk2 := new McdbMake(pagesize);
    pieces := MakeFromText(stream, mk2);
  }

  // Every record stored under a key is found, each once, and nothing else.
  method StoreThenGet(pagesize: nat, recs: seq<Rec>, key: seq<byte>) returns (out: seq<seq<byte>>)
    requires pagesize > 0 && Finishable(recs) && |recs| <= 2147483647
    ensures out == Datas(recs, Matches(recs, key))
    ensures Distinct(Matches(recs, key))
    ensures forall i :: i in Matches(recs, key) <==> 0 <= i < |recs| && recs[i].key == key
  {
    hide McdbMmap.Holds, Finishable, Image, Matches, NarrowCells;
    var file := Store(pagesize, recs);
    ImageSize(recs);
    var mm := new McdbMmap(file);
    OpenedHolds(mm, recs);
    var m := new Mcdb(mm);
    var rv;
    rv, out := GetAll(m, key, recs);
    MatchesAreTheRecords(recs, key);
  }

  lemma ImageSize(recs: seq<Rec>)
    requires Finishable(recs)
    ensures |Image(recs)| >= HEADER_SZ >= 4
  {
    hide Data, SlotsOf;
    ImageIsImage(recs);
  }

  // ----- netgroups from lines to answers

  // Enough for every record to be small enough: names below the length limit, and no more than 2^21
  // names and entries
  predicate Modest(lines: seq<Line>) {
    Count(lines) <= 0x20_0000 && forall i :: 0 <= i < |lines| ==> |lines[i].name| < LEN_MAX
  }

  // Read the lines, compile them after the records `pre`, finish the file, open it, and ask.  No
  // status when a triple is too long or a record is refused, which modest lines never are.
  method CompileThenAsk(lines: seq<Line>, hint: nat, pagesize: nat, pre: seq<Rec>, netgroup: seq<byte>, q: Query)
    returns (status: Option<NssStatus>)
    requires hint > 0 && pagesize > 0 && LinesNamed(lines) && NoTagged(pre)
    requires |pre| + 2 + Count(lines) < ID_MAX
    ensures status.Some? ==> Fits(lines)
    ensures Fits(lines) && Modest(lines) ==> status.Some?
    ensures status.Some? ==>
      (status.value == SUCCESS <==>
        |Given(q.host)| <= 255 && |Given(q.domain)| <= 255 && HasMember(lines, netgroup, q))
  {
    hide *;
    status := None;
    var ok, d := Build(lines, hint);
    if ok {
      NumberedBy(lines, d);
      var mk;
      ghost var outs;
      ok, mk, outs := Compile(d, pagesize, pre, lines);
      if ok {
        var s := FinishThenAsk(d, mk, outs, pre, lines, netgroup, q);
        status := Some(s);
      }
    }
  }

  // A netgroup whose triple matches anything, and a query for a host of 256 bytes
  lemma LongHostMissed(name: seq<byte>) returns (lines: seq<Line>, q: Query)
    requires 0 !in name && |name| < LEN_MAX
    ensures LinesNamed(lines) && Fits(lines) && Modest(lines) && HasMember(lines, name, q)
    ensures |Given(q.host)| == 256 && q.user.None? && q.domain.None?
  {
    var t := Triple([], [], []);
    lines := [Line(name, [Rule(t)])];
    q := Query(Some(seq(FIELD_MAX + 1, _ => 'h' as byte)), None, None);
    assert lines[..0] == [] && EntriesOf(lines, name) == [Rule(t)];
    assert NamePath(lines, [name], name, name);
    assert MemberIn(lines, name, name, t, q);
  }

  lemma NumberedBy(lines: seq<Line>, d: NgData)
    requires d.Ready() && Represents(lines, d.g.keys, d.triples, d.ap) && LinesNamed(lines)
    ensures NumberedForm(lines, d.g.keys, d.triples, d.ap) && |d.g.keys| == |d.ap|
  {
    hide Represents, Linked, Sorted, Numbered, Encode, Encodable;
  }

  // The records there before, then those of the groups
  method Compile(d: NgData, pagesize: nat, pre: seq<Rec>, ghost lines: seq<Line>)
    returns (ok: bool, mk: McdbMake, ghost outs: seq<seq<int>>)
    requires d.Ready() && 0 < |d.ap| && pagesize > 0
    requires NumberedForm(lines, d.g.keys, d.triples, d.ap) && |d.triples| <= 2 + Count(lines)
    requires |pre| + |d.ap| < ID_MAX
    modifies d`data, d`datalen, d`out, d`subg, d.data, d.uniq, d.uniq.uniq
    ensures d.Ready() && fresh(mk)
    ensures ok ==> mk.Idle() && |outs| == |d.ap| && Written(d, outs, pre, mk.recs)
    ensures Modest(lines) ==> ok
  {
    hide NgData.Ready, NumberedForm, Written, Stopped, Modest, McdbMake.Idle, Count;
    mk := StoreAll(pagesize, pre);
    ok, outs := EncodeAll(d, mk);
    if !ok {
      Overlarge(d, outs, pre, mk.recs, lines);
    }
  }

  // Finish the file and open it.
  method FinishThenOpen(d: NgData, mk: McdbMake, ghost outs: seq<seq<int>>, ghost pre: seq<Rec>)
    returns (mm: McdbMmap)
    requires d.Ready() && |outs| == |d.ap| && Written(d, outs, pre, mk.recs)
    requires mk.Idle() && |pre| + |d.ap| < ID_MAX
    modifies mk
    ensures fresh(mm) && mk.recs == old(mk.recs) && mm.Holds(mk.recs)
    ensures var c := Compiled(d.g.keys, d.triples, d.ap, outs); c.Valid() && mk.recs == pre + c.Recs()
  {
    hide *;
    WrittenIsCompiled(d, outs, pre, mk.recs);
    WrittenCount(d, outs, pre, mk.recs);
    FewFinishable(mk.recs);
    var r, freed := mk.Finish();
    ImageSize(mk.recs);
    mm := new McdbMmap(mk.file);
    OpenedHolds(mm, mk.recs);
  }

  method FinishThenAsk(d: NgData, mk: McdbMake, ghost outs: seq<seq<int>>, ghost pre: seq<Rec>, ghost lines: seq<Line>,
                       netgroup: seq<byte>, q: Query)
    returns (status: NssStatus)
    requires d.Ready() && |outs| == |d.ap| && Written(d, outs, pre, mk.recs) && NoTagged(pre)
    requires NumberedForm(lines, d.g.keys, d.triples, d.ap) && mk.Idle() && |pre| + |d.ap| < ID_MAX
    modifies mk
    ensures status == SUCCESS <==>
      |Given(q.host)| <= 255 && |Given(q.domain)| <= 255 && HasMember(lines, netgroup, q)
  {
    hide *;
    ghost var c := Compiled(d.g.keys, d.triples, d.ap, outs);
    var mm := FinishThenOpen(d, mk, outs, pre);
    status := AskNetgroup(mm, netgroup, q, c, pre, mk.recs);
    SameMeaning(lines, c, netgroup, q);
  }

  // Read the lines, compile them after the records `pre`, finish the file, open it, and list a
  // netgroup with a buffer that is large enough.
  method CompileThenList(lines: seq<Line>, hint: nat, pagesize: nat, pre: seq<Rec>, netgroup: seq<byte>)
    returns (out: Option<seq<Triple>>)
    requires hint > 0 && pagesize > 0 && LinesNamed(lines) && TriplesNamed(lines) && NoTagged(pre)
    requires |pre| + 2 + Count(lines) < ID_MAX
    ensures out.Some? ==> Fits(lines)
    ensures Fits(lines) && Modest(lines) ==> out.Some?
    ensures out.Some? ==> IsListing(lines, netgroup, out.value)
  {
    hide *;
    out := None;
    var ok, d := Build(lines, hint);
    if ok {
      NumberedBy(lines, d);
      var mk;
      ghost var outs;
      ok, mk, outs := Compile(d, pagesize, pre, lines);
      if ok {
        var ts := FinishThenList(d, mk, outs, pre, lines, netgroup);
        out := Some(ts);
      }
    }
  }

  method FinishThenList(d: NgData, mk: McdbMake, ghost outs: seq<seq<int>>, ghost pre: seq<Rec>, ghost lines: seq<Line>,
                        netgroup: seq<byte>)
    returns (out: seq<Triple>)
    requires d.Ready() && |outs| == |d.ap| && Written(d, outs, pre, mk.recs) && NoTagged(pre)
    requires NumberedForm(lines, d.g.keys, d.triples, d.ap) && TriplesNamed(lines)
    requires mk.Idle() && |pre| + |d.ap| < ID_MAX
    modifies mk
    ensures IsListing(lines, netgroup, out)
  {
    hide *;
    ghost var c := Compiled(d.g.keys, d.triples, d.ap, outs);
    TriplesDistinct(d);
    var mm := FinishThenOpen(d, mk, outs, pre);
    ghost var ts := ListIn(c, netgroup);
    ListMeaning(lines, c, netgroup, ts);
    ListingNamed(lines, netgroup, ts);
    var buf := new byte[1024];
    BufferFits();
    out := ListNetgroup(mm, buf, netgroup, c, pre, mk.recs, ts);
  }

  lemma BufferFits()
    ensures 3 * (FIELD_MAX + 1) < 1024
  {
  }

  lemma TriplesDistinct(d: NgData)
    requires d.Ready()
    ensures Distinct(d.triples)
  {
    hide NgData.Rules, NgData.Table, Linked, Sorted, Numbered, Encode, Encodable;
  }

  lemma ListIn(c: Compiled, netgroup: seq<byte>) returns (ts: seq<Triple>)
    requires c.Valid()
    ensures ListOf(c, netgroup, ts)
  {
    hide EncodeList, AllFlattened, WellFormed;
    ts := [];
    if g: nat :| IsGroup(c, netgroup, g) {
      ts := Picked(c.ts, c.outs[g]);
      OneGroup(c, netgroup, g);
    }
  }

  lemma {:induction false} NetRecsCount(names: seq<seq<byte>>, ts: seq<Triple>, outs: seq<seq<int>>)
    requires Lists(names, ts, outs)
    ensures |NetRecs(names, ts, outs)| <= |outs|
  {
    hide NetRec;
    if |outs| > 1 {
      NetRecsCount(names, ts, outs[..|outs| - 1]);
    }
  }

  lemma WrittenCount(d: NgData, outs: seq<seq<int>>, base: seq<Record>, recs: seq<Record>)
    requires Written(d, outs, base, recs) && |base| + |d.ap| < ID_MAX
    ensures |recs| <= 0x800_0000
  {
    hide NetRecs, Flattened;
    NetRecsCount(d.g.keys, d.triples, outs);
  }

  // ----- how large a group's record is

  lemma {:induction false} EncodedSize(ts: seq<Triple>)
    requires AllEncodable(ts)
    ensures |EncodeList(ts)| <= 772 * |ts| + 2
  {
    hide Encode;
    if ts != [] {
      EncodedSize(ts[1..]);
    }
  }

  lemma {:induction false} EntriesCount(lines: seq<Line>, name: seq<byte>)
    ensures |EntriesOf(lines, name)| <= Count(lines)
  {
    if lines != [] {
      EntriesCount(lines[..|lines| - 1], name);
    }
  }

  // A flattened list is no longer than there are entries, or triples.
  lemma FlattenedSize(lines: seq<Line>, names: seq<seq<byte>>, ts: seq<Triple>, ap: seq<seq<int>>, g: nat, out: seq<int>)
    requires NumberedForm(lines, names, ts, ap) && g < |ap| && Flattened(ap, g, out) && InList(out, |ts|)
    requires |ts| <= 2 + Count(lines)
    ensures |out| <= 2 + Count(lines)
    ensures out != [] ==> exists i :: 0 <= i < |lines| && g < |names| && lines[i].name == names[g]
  {
    hide EntriesOf, Count, InReach, WellFormed, LinesNamed;
    var es := EntriesOf(lines, names[g]);
    assert Codes(ap[g], es, names, ts);
    EntriesCount(lines, names[g]);
    if !Plain(ap[g]) {
      DistinctCount(out, |ts|);
    }
    if forall i :: 0 <= i < |lines| ==> lines[i].name != names[g] {
      NoEntries(lines, names[g]);
      assert Plain(ap[g]);
    }
  }

  lemma DistinctCount(ids: seq<int>, n: nat)
    requires Distinct(ids) && forall k :: 0 <= k < |ids| ==> 0 <= ids[k] < n
    ensures |ids| <= n
  {
    var ones: seq<nat> := seq(n, _ => 1);
    TotalPicked(ones, ids);
    OnesTotal(ones);
    OnesTotal(Picked(ones, ids));
  }

  // A record is refused only when the lines are not modest.
  lemma Overlarge(d: NgData, outs: seq<seq<int>>, pre: seq<Record>, recs: seq<Record>, lines: seq<Line>)
    requires Stopped(d, outs, pre, recs) && NumberedForm(lines, d.g.keys, d.triples, d.ap)
    requires |pre| + |d.ap| < ID_MAX && |d.triples| <= 2 + Count(lines)
    ensures !Modest(lines)
  {
    hide NumberedForm, Flattened, EncodeList, Encodable, NetRecs, Count, Distinct;
    var g := |outs| - 1;
    var names, ts, out := d.g.keys, d.triples, outs[g];
    WrittenCount(d, outs[..g], pre, recs);
    assert Flattened(d.ap, g, out) && InList(out, |ts|);
    FlattenedSize(lines, names, ts, d.ap, g, out);
    PickedEncodable(ts, out);
    EncodedSize(Picked(ts, out));
  }

  lemma PickedEncodable(ts: seq<Triple>, ids: seq<int>)
    requires AllEncodable(ts) && InList(ids, |ts|)
    ensures AllEncodable(Picked(ts, ids))
  {
    hide Encodable;
  }
}
