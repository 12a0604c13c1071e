// nss/nss_mcdb_netdb_make.c, nss/nss_mcdb_make.c: the compiled netgroups as records of a database,
// and what a query of that database answers.
module NetgroupDb {
  import opened Wrappers
  import opened Bytes
  import opened Parts
  import opened NgGraph
  import opened NgTables
  import opened Triples
  import opened Netgroup
  import opened Layout
  import opened Search
  import opened Reader
  import opened Make
  import opened Netgr

  // ----- the records written

  ghost predicate InList(ids: seq<int>, n: nat) {
    forall k :: 0 <= k < |ids| ==> 0 <= ids[k] < n
  }

  // Flattened lists of groups 0 and up, group 0 being the reserved one
  ghost predicate Lists(names: seq<seq<byte>>, ts: seq<Triple>, outs: seq<seq<int>>) {
    && |outs| <= |names| && AllEncodable(ts)
    && forall g :: 0 <= g < |outs| ==> InList(outs[g], |ts|)
  }

  ghost function NetRec(name: seq<byte>, ts: seq<Triple>, ids: seq<int>): Record
    requires AllEncodable(ts) && InList(ids, |ts|)
  {
    Record(['=' as byte] + name, EncodeList(Picked(ts, ids)))
  }

  // One record for every netgroup with a triple in reach
  ghost function NetRecs(names: seq<seq<byte>>, ts: seq<Triple>, outs: seq<seq<int>>): (recs: seq<Record>)
    requires Lists(names, ts, outs)
  {
    if |outs| <= 1 then []
    else
      var g := |outs| - 1;
      NetRecs(names, ts, outs[..g]) + if outs[g] == [] then [] else [NetRec(names[g], ts, outs[g])]
  }

  ghost predicate AllFlattened(ap: seq<seq<int>>, outs: seq<seq<int>>) {
    && 0 < |outs| <= |ap| && outs[0] == []
    && forall g :: 0 < g < |outs| ==> Flattened(ap, g, outs[g])
  }

  // Why a record could not be added
  ghost predicate Refused(r: Record, count: nat) {
    |r.key| > LEN_MAX || |r.data| > LEN_MAX || count >= INT_MAX
  }

  // nss_mcdb_make_mcdbctl_write
  method Write(mk: McdbMake, tagc: byte, key: seq<byte>, data: seq<byte>) returns (ok: bool)
    requires mk.Idle()
    modifies mk, mk.lists, mk.lists.Repr
    ensures fresh(mk.lists.Repr - old(mk.lists.Repr))
    ensures ok ==> mk.Idle() && mk.recs == old(mk.recs) + [Record([tagc] + key, data)]
    ensures !ok ==> mk.recs == old(mk.recs) && Refused(Record([tagc] + key, data), |mk.recs|)
  {
    hide McdbMake.Idle, McdbMake.InRecord, McdbMake.Listed;
    var r := mk.AddBegin(|key| + 1, |data|);
    ok := r == OK;
    if ok {
      mk.AddBufKey([tagc]);
      mk.AddBufKey(key);
      mk.AddBufData(data);
      assert mk.key == [tagc] + key && mk.data == data;
      mk.AddEnd();
    }
  }

  // ----- nss_mcdb_netdb_make_netgrent_encode

  // The data written for a group is the encoded list of its triples.
  lemma DataIsList(keys: seq<seq<byte>>, ts: seq<Triple>, ids: seq<int>)
    requires Coded(keys, ts) && InList(ids, |ts|)
    ensures Flat(Picked(keys, ids)) + [0, 0] == EncodeList(Picked(ts, ids))
  {
    hide Encode, EncodeList, Flat;
    EncodeListFlat(Picked(ts, ids), Picked(keys, ids));
  }

  lemma NoData(keys: seq<seq<byte>>, ts: seq<Triple>, ids: seq<int>)
    requires Coded(keys, ts) && InList(ids, |ts|)
    ensures Flat(Picked(keys, ids)) == [] <==> ids == []
  {
    var ks := Picked(keys, ids);
    if ids == [] {
      assert ks == [];
    } else {
      hide Encode, Flat, Picked, EncodeList;
      var n := |ks| - 1;
      assert ks[n] == keys[ids[n]] == Encode(ts[ids[n]]);
      FlatInit(ks, n);
      assert ks[..n + 1] == ks;
    }
  }

  lemma NodeOf(d: NgData, id: nat)
    requires d.Building() && id < |d.ap|
    ensures id < d.g.nodes.Length && d.g.nodes[id] != null && d.g.nodes[id].k == d.g.keys[id]
  {
    hide Encode, Sorted, Linked;
    assert d.g.nodes[id] == d.g.all[id];
  }

  // Write the list that the buffer holds as the value of a name, unless it is empty.
  method WriteList(d: NgData, mk: McdbMake, name: seq<byte>) returns (ok: bool)
    requires d.Filled() && Coded(d.r.keys, d.triples) && mk.Idle()
    modifies d`data, d`datalen, d.data, mk, mk.lists, mk.lists.Repr
    ensures fresh(mk.lists.Repr - old(mk.lists.Repr)) && (d.data == old(d.data) || fresh(d.data))
    ensures ok ==> mk.Idle()
    ensures ListWritten(name, d.triples, d.out, old(mk.recs), mk.recs, ok)
  {
    hide McdbMake.Idle, McdbMake.Listed, McdbMake.Window, Coded, Encode, EncodeList, Refused, Flat, Picked;
    ok := true;
    InNumbers(d);
    NoData(d.r.keys, d.triples, d.out);
    if d.datalen != 0 {
      DataIsList(d.r.keys, d.triples, d.out);
      d.EndList();
      ok := Write(mk, TAG, name, d.data[..d.datalen]);
    }
  }

  lemma InNumbers(d: NgData)
    requires d.Filled() && Coded(d.r.keys, d.triples)
    ensures InList(d.out, |d.triples|) && AllEncodable(d.triples)
    ensures d.datalen <= d.data.Length && d.data[..d.datalen] == Flat(Picked(d.r.keys, d.out))
  {
  }

  // The record of a name has been added, unless its list is empty or the writer refused it.
  ghost predicate ListWritten(name: seq<byte>, ts: seq<Triple>, ids: seq<int>, was: seq<Record>, now: seq<Record>, ok: bool) {
    && InList(ids, |ts|) && AllEncodable(ts)
    && var r := NetRec(name, ts, ids);
       if ok then now == was + if ids == [] then [] else [r]
       else now == was && ids != [] && Refused(r, |now|)
  }

  // Flatten group id and write its record, unless it has no triple.
  method EncodeGroup(d: NgData, mk: McdbMake, id: nat) returns (ok: bool)
    requires d.Ready() && 0 < id < |d.ap|
    requires mk.Idle()
    modifies d`data, d`datalen, d`out, d`subg, d.data, d.uniq, d.uniq.uniq, mk, mk.lists, mk.lists.Repr
    ensures d.Ready() && GroupDone(d, id, old(mk.recs), mk.recs, ok)
    ensures ok ==> mk.Idle()
    ensures d.data == old(d.data) || fresh(d.data)
    ensures d.uniq.uniq == old(d.uniq.uniq) || fresh(d.uniq.uniq)
    ensures fresh(mk.lists.Repr - old(mk.lists.Repr))
  {
    hide McdbMake.Idle, McdbMake.Listed, McdbMake.Window, NgData.Rules, NgData.Table, NgData.Tables, NgData.Filled;
    hide Coded, Flattened, ListWritten, WellFormed;
    NodeOf(d, id);
    var n := d.g.nodes[id];
    ok := d.Datastr(id);
    ok := WriteList(d, mk, n.k);
  }

  // Groups below |outs| have been written after the records `base`.
  ghost predicate Written(d: NgData, outs: seq<seq<int>>, base: seq<Record>, recs: seq<Record>)
    reads d`ap, d`triples, d.g`keys
  {
    && AllFlattened(d.ap, outs) && Lists(d.g.keys, d.triples, outs)
    && recs == base + NetRecs(d.g.keys, d.triples, outs)
  }

  // ... except the last of them, whose record was refused
  ghost predicate Stopped(d: NgData, outs: seq<seq<int>>, base: seq<Record>, recs: seq<Record>)
    reads d`ap, d`triples, d.g`keys
  {
    && |outs| > 1 && Written(d, outs[..|outs| - 1], base, recs)
    && Lists(d.g.keys, d.triples, outs) && AllFlattened(d.ap, outs) && outs[|outs| - 1] != []
    && Refused(NetRec(d.g.keys[|outs| - 1], d.triples, outs[|outs| - 1]), |recs|)
  }

  // nss_mcdb_netdb_make_netgrent_encode: one record for every group with a triple in reach
  method EncodeAll(d: NgData, mk: McdbMake) returns (ok: bool, ghost outs: seq<seq<int>>)
    requires d.Ready() && 0 < |d.ap| && mk.Idle()
    modifies d`data, d`datalen, d`out, d`subg, d.data, d.uniq, d.uniq.uniq, mk, mk.lists, mk.lists.Repr
    ensures d.Ready() && fresh(mk.lists.Repr - old(mk.lists.Repr))
    ensures ok ==> |outs| == |d.ap| && mk.Idle() && Written(d, outs, old(mk.recs), mk.recs)
    ensures !ok ==> Stopped(d, outs, old(mk.recs), mk.recs)
  {
    hide *;
    outs, ok := [[]], true;
    NoneWritten(d, mk.recs);
    var id: nat, used := 1, |d.ap|;
    while id < used
      invariant 1 <= id == |outs| <= used == |d.ap| && ok && d.Ready()
      invariant d.data == old(d.data) || fresh(d.data)
      invariant d.uniq.uniq == old(d.uniq.uniq) || fresh(d.uniq.uniq)
      invariant fresh(mk.lists.Repr - old(mk.lists.Repr))
      invariant mk.Idle() && Written(d, outs, old(mk.recs), mk.recs)
    {
      ok, outs := EncodeNext(d, mk, id, outs, old(mk.recs));
      if !ok {
        break;
      }
      id := id + 1;
    }
  }

  method EncodeNext(d: NgData, mk: McdbMake, id: nat, ghost outs: seq<seq<int>>, ghost base: seq<Record>)
    returns (ok: bool, ghost more: seq<seq<int>>)
    requires d.Ready() && mk.Idle() && 0 < id == |outs| < |d.ap| && Written(d, outs, base, mk.recs)
    modifies d`data, d`datalen, d`out, d`subg, d.data, d.uniq, d.uniq.uniq, mk, mk.lists, mk.lists.Repr
    ensures d.Ready() && |more| == id + 1 && d.ap == old(d.ap)
    ensures ok ==> mk.Idle() && Written(d, more, base, mk.recs)
    ensures !ok ==> Stopped(d, more, base, mk.recs)
    ensures d.data == old(d.data) || fresh(d.data)
    ensures d.uniq.uniq == old(d.uniq.uniq) || fresh(d.uniq.uniq)
    ensures fresh(mk.lists.Repr - old(mk.lists.Repr))
  {
    hide *;
    ok := EncodeGroup(d, mk, id);
    GroupWritten(d, outs, base, old(mk.recs), mk.recs, ok);
    more := outs + [d.out];
  }

  lemma NoneWritten(d: NgData, base: seq<Record>)
    requires d.Ready() && 0 < |d.ap|
    ensures Written(d, [[]], base, base)
  {
    Sizes(d);
    NetRecsNone(d.g.keys, d.triples, [[]]);
  }

  // What EncodeGroup has done for group |outs|
  ghost predicate GroupDone(d: NgData, id: nat, sofar: seq<Record>, recs: seq<Record>, ok: bool)
    reads d`ap, d`triples, d`out, d.g`keys
  {
    && id < |d.ap| && Flattened(d.ap, id, d.out) && id < |d.g.keys|
    && ListWritten(d.g.keys[id], d.triples, d.out, sofar, recs, ok)
  }

  lemma GroupWritten(d: NgData, outs: seq<seq<int>>, base: seq<Record>, sofar: seq<Record>, recs: seq<Record>, ok: bool)
    requires d.Ready() && Written(d, outs, base, sofar) && GroupDone(d, |outs|, sofar, recs, ok)
    ensures ok ==> Written(d, outs + [d.out], base, recs)
    ensures !ok ==> Stopped(d, outs + [d.out], base, recs)
  {
    Sizes(d);
    hide NgData.Ready, NetRec, Refused, Flattened, InList;
    var names, ts, ids := d.g.keys, d.triples, d.out;
    ListsNext(names, ts, d.ap, outs, ids);
    hide Lists, AllFlattened;
    NetRecsNext(names, ts, outs, ids);
    Regroup(base, NetRecs(names, ts, outs), if ids == [] then [] else [NetRec(names[|outs|], ts, ids)]);
    assert (outs + [ids])[..|outs|] == outs;
  }

  lemma Sizes(d: NgData)
    requires d.Ready()
    ensures |d.ap| == |d.g.keys| && AllEncodable(d.triples)
  {
  }

  lemma NetRecsNone(names: seq<seq<byte>>, ts: seq<Triple>, outs: seq<seq<int>>)
    requires Lists(names, ts, outs) && |outs| == 1
    ensures NetRecs(names, ts, outs) == []
  {
  }

  lemma ListsNext(names: seq<seq<byte>>, ts: seq<Triple>, ap: seq<seq<int>>, outs: seq<seq<int>>, ids: seq<int>)
    requires Lists(names, ts, outs) && 0 < |outs| < |names| && InList(ids, |ts|)
    requires AllFlattened(ap, outs) && |names| == |ap| && Flattened(ap, |outs|, ids)
    ensures Lists(names, ts, outs + [ids]) && AllFlattened(ap, outs + [ids])
  {
    hide Flattened, InList, Encodable;
  }

  lemma NetRecsNext(names: seq<seq<byte>>, ts: seq<Triple>, outs: seq<seq<int>>, ids: seq<int>)
    requires Lists(names, ts, outs) && Lists(names, ts, outs + [ids]) && 0 < |outs| < |names| && InList(ids, |ts|)
    ensures NetRecs(names, ts, outs + [ids])
      == NetRecs(names, ts, outs) + if ids == [] then [] else [NetRec(names[|outs|], ts, ids)]
  {
    hide NetRec, Lists, InList;
    assert (outs + [ids])[..|outs|] == outs;
  }

  lemma Regroup(a: seq<Record>, b: seq<Record>, c: seq<Record>)
    ensures a + (b + c) == (a + b) + c
  {
  }

  // ----- what a query of the compiled database answers

  // Names, triples and entries after parsing; flattened lists as written
  datatype Compiled = Compiled(names: seq<seq<byte>>, ts: seq<Triple>, ap: seq<seq<int>>, outs: seq<seq<int>>) {
    ghost predicate Valid() {
      && Distinct(names) && |names| == |ap| == |outs| && WellFormed(ap, |ts|)
      && Lists(names, ts, outs) && AllFlattened(ap, outs)
    }

    ghost function Recs(): seq<Record>
      requires Valid()
    {
      NetRecs(names, ts, outs)
    }

    // The queried member is a triple that the netgroup reaches through subgroups.
    ghost predicate Has(g: nat, q: Query) {
      exists e: nat :: e < |ts| && InReach(ap, g, e) && Member(q, ts[e])
    }
  }

  lemma {:induction false} RecordOfGroup(names: seq<seq<byte>>, ts: seq<Triple>, outs: seq<seq<int>>, k: nat)
    returns (g: nat)
    requires Lists(names, ts, outs) && k < |NetRecs(names, ts, outs)|
    ensures 0 < g < |outs| && outs[g] != [] && NetRecs(names, ts, outs)[k] == NetRec(names[g], ts, outs[g])
    decreases |outs|
  {
    hide NetRec;
    g := |outs| - 1;
    var init := NetRecs(names, ts, outs[..g]);
    if k < |init| {
      g := RecordOfGroup(names, ts, outs[..g], k);
    }
  }

  lemma {:induction false} GroupHasRecord(names: seq<seq<byte>>, ts: seq<Triple>, outs: seq<seq<int>>, g: nat)
    returns (k: nat)
    requires Lists(names, ts, outs) && 0 < g < |outs| && outs[g] != []
    ensures k < |NetRecs(names, ts, outs)| && NetRecs(names, ts, outs)[k] == NetRec(names[g], ts, outs[g])
    decreases |outs|
  {
    hide NetRec;
    var last := |outs| - 1;
    if g < last {
      k := GroupHasRecord(names, ts, outs[..last], g);
    } else {
      k := |NetRecs(names, ts, outs[..last])|;
    }
  }

  // A record of the compiled database that a netgroup lookup can find is that netgroup's.
  lemma FoundIsGroup(c: Compiled, pre: seq<Record>, netgroup: seq<byte>, i: nat) returns (g: nat)
    requires c.Valid() && NoTagged(pre)
    requires i < |pre + c.Recs()| && (pre + c.Recs())[i].key == TagKey(netgroup, TAG)
    ensures IsGroup(c, netgroup, g) && c.outs[g] != []
    ensures (pre + c.Recs())[i] == NetRec(c.names[g], c.ts, c.outs[g])
  {
    hide EncodeList, NetRecs, AllFlattened, WellFormed, Distinct;
    var key := TagKey(netgroup, TAG);
    assert key[0] == TAG && key[1..] == netgroup;
    assert i >= |pre|;
    g := RecordOfGroup(c.names, c.ts, c.outs, i - |pre|);
    assert TagKey(c.names[g], TAG)[1..] == c.names[g];
  }

  // Records that are not of netgroups, such as the one that a database starts with
  ghost predicate NoTagged(pre: seq<Record>) {
    forall i :: 0 <= i < |pre| ==> pre[i].key == [] || pre[i].key[0] != TAG
  }

  ghost predicate IsGroup(c: Compiled, netgroup: seq<byte>, g: nat) {
    0 < g < |c.names| && c.names[g] == netgroup
  }

  lemma GroupFound(c: Compiled, pre: seq<Record>, recs: seq<Rec>, g: nat)
    requires c.Valid() && NoTagged(pre) && recs == pre + c.Recs() && 0 < g < |c.names|
    ensures c.outs[g] == [] ==> Matches(recs, TagKey(c.names[g], TAG)) == []
    ensures c.outs[g] != [] ==> NetgroupIs(recs, c.names[g], Picked(c.ts, c.outs[g]))
  {
    hide EncodeList, NetRecs, AllFlattened, WellFormed, Encodable, NoTagged;
    var key := TagKey(c.names[g], TAG);
    var hits := Matches(recs, key);
    MatchesAreTheRecords(recs, key);
    if hits != [] {
      assert hits[0] in hits;
      var h := FoundIsGroup(c, pre, c.names[g], hits[0]);
      assert h == g;
    }
    if c.outs[g] != [] {
      var k := GroupHasRecord(c.names, c.ts, c.outs, g);
      assert recs[|pre| + k] == NetRec(c.names[g], c.ts, c.outs[g]);
      assert |pre| + k in hits;
    }
  }

  lemma NotFound(c: Compiled, pre: seq<Record>, recs: seq<Rec>, netgroup: seq<byte>)
    requires c.Valid() && NoTagged(pre) && recs == pre + c.Recs()
    requires forall g: nat :: !IsGroup(c, netgroup, g)
    ensures Matches(recs, TagKey(netgroup, TAG)) == []
  {
    hide EncodeList, NetRecs, Compiled.Valid, NoTagged;
    var hits := Matches(recs, TagKey(netgroup, TAG));
    MatchesAreTheRecords(recs, TagKey(netgroup, TAG));
    if hits != [] {
      assert hits[0] in hits;
      var g := FoundIsGroup(c, pre, netgroup, hits[0]);
    }
  }

  // The flattened list answers for the whole graph.
  lemma ListAnswers(c: Compiled, g: nat, q: Query)
    requires c.Valid() && 0 < g < |c.names|
    ensures AnyMember(q, Picked(c.ts, c.outs[g])) <==> c.Has(g, q)
  {
    hide Member, InReach, Distinct, WellFormed, Flattened;
    var ids := c.outs[g];
    assert InList(ids, |c.ts|) && Flattened(c.ap, g, ids);
    if AnyMember(q, Picked(c.ts, ids)) {
      var k :| 0 <= k < |ids| && Member(q, Picked(c.ts, ids)[k]);
      FlattenedMembers(c.ap, g, ids, ids[k]);
    }
    if c.Has(g, q) {
      var e: nat :| e < |c.ts| && InReach(c.ap, g, e) && Member(q, c.ts[e]);
      FlattenedMembers(c.ap, g, ids, e);
      var k :| 0 <= k < |ids| && ids[k] == e;
      assert Member(q, Picked(c.ts, ids)[k]);
    }
  }

  // innetgr on the compiled database: whether the netgroup exists and a triple it reaches matches
  method AskNetgroup(mm: McdbMmap, netgroup: seq<byte>, q: Query, ghost c: Compiled, ghost pre: seq<Record>,
                     ghost recs: seq<Rec>)
    returns (status: NssStatus)
    requires c.Valid() && NoTagged(pre) && recs == pre + c.Recs() && mm.Holds(recs)
    ensures status == SUCCESS <==>
      && |Given(q.host)| <= 255 && |Given(q.domain)| <= 255
      && exists g: nat :: IsGroup(c, netgroup, g) && c.Has(g, q)
  {
    hide *;
    ghost var ts := Answer(c, pre, recs, netgroup, q);
    status := Innetgr(mm, netgroup, q, recs, ts);
  }

  // The list that a lookup of the netgroup finds, if any, and what it says
  lemma Answer(c: Compiled, pre: seq<Record>, recs: seq<Rec>, netgroup: seq<byte>, q: Query)
    returns (ts: seq<Triple>)
    requires c.Valid() && NoTagged(pre) && recs == pre + c.Recs()
    ensures Matches(recs, TagKey(netgroup, TAG)) == [] || NetgroupIs(recs, netgroup, ts)
    ensures NetgroupIs(recs, netgroup, ts) && AnyMember(q, ts) <==>
      exists g: nat :: IsGroup(c, netgroup, g) && c.Has(g, q)
  {
    hide Compiled.Recs, Compiled.Has, Matches, AnyMember, EncodeList, AllFlattened, WellFormed, Encodable, NoTagged;
    ts := [];
    if g: nat :| IsGroup(c, netgroup, g) {
      ts := Picked(c.ts, c.outs[g]);
      GroupFound(c, pre, recs, g);
      ListAnswers(c, g, q);
      OneGroup(c, netgroup, g);
      if c.outs[g] == [] {
        NothingMatches(q);
      }
    } else {
      NotFound(c, pre, recs, netgroup);
    }
  }

  lemma NothingMatches(q: Query)
    ensures !AnyMember(q, [])
  {
  }

  lemma OneGroup(c: Compiled, netgroup: seq<byte>, g: nat)
    requires c.Valid() && IsGroup(c, netgroup, g)
    ensures forall h: nat :: IsGroup(c, netgroup, h) ==> h == g
  {
    hide EncodeList, AllFlattened, WellFormed, Lists;
  }

  // What EncodeAll has written is a compiled database.
  lemma WrittenIsCompiled(d: NgData, outs: seq<seq<int>>, base: seq<Record>, recs: seq<Record>)
    requires d.Ready() && |outs| == |d.ap| && Written(d, outs, base, recs)
    ensures var c := Compiled(d.g.keys, d.triples, d.ap, outs); c.Valid() && recs == base + c.Recs()
  {
    hide NetRecs, AllFlattened, Lists, Linked, Sorted, Numbered, Encode, Encodable;
    Sizes(d);
  }

  // The list that is stored for a netgroup; none for a name without a group
  ghost predicate ListOf(c: Compiled, netgroup: seq<byte>, ts: seq<Triple>)
    requires c.Valid()
  {
    && (forall g: nat :: IsGroup(c, netgroup, g) ==> ts == Picked(c.ts, c.outs[g]))
    && ((forall g: nat :: !IsGroup(c, netgroup, g)) ==> ts == [])
  }

  lemma ListFound(c: Compiled, pre: seq<Record>, recs: seq<Rec>, netgroup: seq<byte>, ts: seq<Triple>)
    requires c.Valid() && NoTagged(pre) && recs == pre + c.Recs() && ListOf(c, netgroup, ts)
    ensures if Matches(recs, TagKey(netgroup, TAG)) == [] then ts == [] else NetgroupIs(recs, netgroup, ts)
  {
    hide Compiled.Recs, Matches, EncodeList, AllFlattened, WellFormed, Encodable, NoTagged;
    if g: nat :| IsGroup(c, netgroup, g) {
      GroupFound(c, pre, recs, g);
    } else {
      NotFound(c, pre, recs, netgroup);
    }
  }

  // setnetgrent and getnetgrent on the compiled database: the triples that the netgroup reaches,
  // in the order of the flattened list
  method ListNetgroup(mm: McdbMmap, buf: array<byte>, netgroup: seq<byte>, ghost c: Compiled, ghost pre: seq<Record>,
                      ghost recs: seq<Rec>, ghost ts: seq<Triple>)
    returns (out: seq<Triple>)
    requires c.Valid() && NoTagged(pre) && recs == pre + c.Recs() && mm.Holds(recs)
    requires ListOf(c, netgroup, ts) && NoNul(ts) && buf.Length > 3 * (FIELD_MAX + 1)
    modifies buf
    ensures out == ts
  {
    hide Matches, McdbMmap.Holds, Mcdb.Cursor, Mcdb.Left, Compiled.Valid, ListOf;
    hide EncodeList, Encodable, NetRecs, Distinct, WellFormed, Flattened;
    ListFound(c, pre, recs, netgroup, ts);
    out := [];
    var m := new Mcdb(mm);
    var found := SetNetgrent(m, netgroup, recs, ts);
    if found {
      out := GetAllNetgrent(m, buf, ts);
    }
  }
}
