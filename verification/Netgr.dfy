// nss/nss_mcdb_netdb.c: innetgr and getnetgrent, over the encoded triples of one netgroup.
module Netgr {
  import opened Wrappers
  import opened Bytes
  import opened Parts
  import opened Triples
  import opened Layout
  import opened Search
  import opened Reader

  const TAG: byte := '=' as int     // of netgroup names

  datatype NssStatus = SUCCESS | NOTFOUND | TRYAGAIN

  // The three strings of a query, each possibly NULL
  datatype Query = Query(host: Option<seq<byte>>, user: Option<seq<byte>>, domain: Option<seq<byte>>)

  // ----- what a query means

  function Given(v: Option<seq<byte>>): seq<byte> {
    match v
    case None => []
    case Some(s) => s
  }

  // Either side empty, or both the same
  predicate Accepts(q: seq<byte>, s: seq<byte>) {
    q == [] || s == [] || q == s
  }

  // t as stored
  predicate Member(q: Query, t: Triple) {
    && Accepts(Lower(Given(q.host)), t.host)
    && Accepts(Given(q.user), t.user)
    && Accepts(Lower(Given(q.domain)), t.domain)
  }

  ghost predicate AnyMember(q: Query, ts: seq<Triple>) {
    exists i :: 0 <= i < |ts| && Member(q, ts[i])
  }

  // ----- innetgr

  // Lower-case into a buffer of 256; a string that fills it is too long.
  method LowerInto(v: Option<seq<byte>>, h: array<byte>) returns (hlen: nat)
    requires h.Length == 256
    modifies h
    ensures hlen <= 256
    ensures hlen < 256 <==> |Given(v)| <= FIELD_MAX
    ensures hlen < 256 ==> h[..hlen] == Lower(Given(v))
  {
    hlen := 0;
    if v.Some? {
      var s := v.value;
      while hlen < h.Length && hlen < |s|
        invariant hlen <= |s| && hlen <= h.Length
        invariant forall i :: 0 <= i < hlen ==> h[i] == ToLower(s[i])
      {
        h[hlen] := ToLower(s[hlen]);
        hlen := hlen + 1;
      }
    }
  }

  // One field of innetgr's condition: no query, nothing stored (len 0), or equal lengths and bytes
  predicate FieldTest(file: seq<byte>, at: nat, q: seq<byte>, len: nat) {
    q == [] || len == 0 || (|q| == len && at + len <= |file| && file[at..at + len] == q)
  }

  lemma FieldTestAccepts(file: seq<byte>, at: nat, q: seq<byte>, s: seq<byte>)
    requires At(file, at, Field(s))
    ensures FieldTest(file, at, q, |s|) <==> Accepts(q, s)
  {
    if q != [] && s != [] {
      assert file[at..at + |Field(s)|][..|s|] == file[at..at + |s|];
      assert Field(s)[..|s|] == s;
    }
  }

  // The condition of innetgr's loop, at one encoded triple
  method TripleMatches(file: seq<byte>, at: nat, h: seq<byte>, u: seq<byte>, d: seq<byte>, ghost t: Triple)
    returns (r: bool)
    requires TripleAt(file, at, t)
    ensures r <==> Accepts(h, t.host) && Accepts(u, t.user) && Accepts(d, t.domain)
  {
    hide At, Accepts, FieldTest;
    var x := file[at] as int * 0x100 + file[at + 1];
    var hln, uln: nat := file[at + 2] as int, file[at + 3] as int;
    var skip: nat := if hln != 0 then hln + 1 else 0;
    var phulen: nat := skip + if uln != 0 then uln + 1 else 0;
    FieldTestAccepts(file, at + 4, h, t.host);
    FieldTestAccepts(file, at + 4 + skip, u, t.user);
    FieldTestAccepts(file, at + 4 + phulen, d, t.domain);
    var dln: nat := if x - 4 - phulen == 0 then 0 else x - 4 - phulen - 1;
    return FieldTest(file, at + 4, h, hln) && FieldTest(file, at + 4 + skip, u, uln)
      && FieldTest(file, at + 4 + phulen, d, dln);
  }

  method InnetgrDecode(m: Mcdb, q: Query, ghost ts: seq<Triple>) returns (status: NssStatus)
    requires AllEncodable(ts) && At(m.mm.ptr, m.dpos, EncodeList(ts))
    ensures status == SUCCESS || status == NOTFOUND
    ensures status == SUCCESS <==>
      |Given(q.host)| <= 255 && |Given(q.domain)| <= 255 && AnyMember(q, ts)
  {
    hide Encode, EncodeList, TripleAt, Accepts, At;
    var file, ptr: nat := m.mm.ptr, m.dpos;
    var h, d := new byte[256], new byte[256];
    var hlen := LowerInto(q.host, h);
    if hlen == h.Length {
      return NOTFOUND;
    }
    var dlen := LowerInto(q.domain, d);
    if dlen == d.Length {
      return NOTFOUND;
    }
    var hs, us, ds := h[..hlen], Given(q.user), d[..dlen];
    assert hs == Lower(Given(q.host)) && ds == Lower(Given(q.domain));
    ghost var i := 0;
    while true
      invariant 0 <= i <= |ts| && AllEncodable(ts[i..]) && At(file, ptr, EncodeList(ts[i..]))
      invariant forall k :: 0 <= k < i ==> !Member(q, ts[k])
      decreases |ts| - i
    {
      ListAt(file, ptr, ts[i..]);
      Header(file, ptr, ts[i..]);
      var x := file[ptr] as int * 0x100 + file[ptr + 1];
      if x == 0 {
        break;
      }
      assert ts[i..][1..] == ts[i + 1..];
      var hit := TripleMatches(file, ptr, hs, us, ds, ts[i]);
      if hit {
        assert Member(q, ts[i]);
        return SUCCESS;
      }
      ptr, i := ptr + x, i + 1;
    }
    return NOTFOUND;
  }

  // The two bytes that start an entry: its length, or 0 at the end of the list
  lemma Header(file: seq<byte>, at: nat, ts: seq<Triple>)
    requires AllEncodable(ts) && At(file, at, EncodeList(ts)) && at + 2 <= |file|
    ensures var x := file[at] as int * 0x100 + file[at + 1];
      x == if ts == [] then 0 else |Encode(ts[0])|
  {
    ListAt(file, at, ts);
  }

  // The value that a lookup of the netgroup finds first
  ghost predicate NetgroupIs(recs: seq<Rec>, netgroup: seq<byte>, ts: seq<Triple>) {
    var hits := Matches(recs, TagKey(netgroup, TAG));
    hits != [] && AllEncodable(ts) && recs[hits[0]].data == EncodeList(ts)
  }

  // findtagstart and findtagnext, as innetgr and setnetgrent call them: leave the cursor at the
  // netgroup's first triple.
  method SetNetgrent(m: Mcdb, netgroup: seq<byte>, ghost recs: seq<Rec>, ghost ts: seq<Triple>) returns (found: bool)
    requires m.mm.Holds(recs)
    requires Matches(recs, TagKey(netgroup, TAG)) == [] || NetgroupIs(recs, netgroup, ts)
    modifies m
    ensures found <==> NetgroupIs(recs, netgroup, ts)
    ensures found ==> m.loop != 0 && At(m.mm.ptr, m.dpos, EncodeList(ts))
  {
    hide Matches, McdbMmap.Holds, Mcdb.Cursor, Mcdb.Left, Mcdb.AtRecord, InCell, EncodeList, TagKey, Encodable, At;
    ghost var hits := Matches(recs, TagKey(netgroup, TAG));
    found := m.FindTagStart(netgroup, TAG, recs);
    if found {
      found := m.FindTagNext(netgroup, TAG, recs);
    }
    if found {
      DataAt(m, recs, hits[0]);
    }
  }

  lemma DataAt(m: Mcdb, recs: seq<Rec>, i: nat)
    requires m.AtRecord(recs, i)
    ensures i < |recs| && At(m.mm.ptr, m.dpos, recs[i].data)
  {
  }

  // _nss_mcdb_innetgr, a netgroup that is not in the database included
  method Innetgr(mm: McdbMmap, netgroup: seq<byte>, q: Query, ghost recs: seq<Rec>, ghost ts: seq<Triple>)
    returns (status: NssStatus)
    requires mm.Holds(recs)
    requires Matches(recs, TagKey(netgroup, TAG)) == [] || NetgroupIs(recs, netgroup, ts)
    ensures status == SUCCESS || status == NOTFOUND
    ensures status == SUCCESS <==>
      && NetgroupIs(recs, netgroup, ts)
      && |Given(q.host)| <= 255 && |Given(q.domain)| <= 255 && AnyMember(q, ts)
  {
    hide Matches, McdbMmap.Holds, Mcdb.Cursor, Mcdb.Left, EncodeList;
    status := NOTFOUND;
    var m := new Mcdb(mm);
    var r := SetNetgrent(m, netgroup, recs, ts);
    if r {
      status := InnetgrDecode(m, q, ts);
    }
  }

  // ----- getnetgrent

  // A string of the caller's buffer, or NULL for an empty one
  ghost predicate StringAt(buf: seq<byte>, p: Option<nat>, s: seq<byte>) {
    if s == [] then p.None? else p.Some? && At(buf, p.value, s + [0])
  }

  // The triple's strings, as stored
  function TextOf(t: Triple): seq<byte> {
    Field(t.host) + Field(t.user) + Field(t.domain)
  }

  lemma TextAt(file: seq<byte>, at: nat, t: Triple)
    requires Encodable(t) && At(file, at, Encode(t))
    ensures At(file, at + 4, TextOf(t))
    ensures |Encode(t)| == 4 + |TextOf(t)|
  {
    var head := Encode(t)[..4];
    assert Encode(t) == head + TextOf(t);
    AtConcat(file, at, head, TextOf(t));
  }

  lemma Strings(buf: seq<byte>, t: Triple)
    requires At(buf, 0, TextOf(t))
    ensures var h, u := |Field(t.host)|, |Field(t.user)|;
      && StringAt(buf, if t.host == [] then None else Some(0), t.host)
      && StringAt(buf, if t.user == [] then None else Some(h), t.user)
      && StringAt(buf, if t.domain == [] then None else Some(h + u), t.domain)
  {
    var h, u, d := Field(t.host), Field(t.user), Field(t.domain);
    hide At;
    AtConcat(buf, 0, h + u, d);
    AtConcat(buf, 0, h, u);
  }

  // One entry of the netgroup that setnetgrent found; `ts` are the entries left.
  method GetNetgrentDecode(m: Mcdb, buf: array<byte>, ghost ts: seq<Triple>)
    returns (status: NssStatus, host: Option<nat>, user: Option<nat>, domain: Option<nat>)
    requires AllEncodable(ts)
    requires m.loop != 0 ==> At(m.mm.ptr, m.dpos, EncodeList(ts))
    modifies m`loop, m`dpos, buf
    ensures old(m.loop) == 0 || ts == [] ==> status == NOTFOUND && m.loop == 0
    ensures old(m.loop) != 0 && ts != [] ==>
      m.loop == old(m.loop) && status == if |TextOf(ts[0])| < buf.Length then SUCCESS else TRYAGAIN
    ensures status == TRYAGAIN ==> m.dpos == old(m.dpos)
    ensures status == SUCCESS ==>
      && At(m.mm.ptr, m.dpos, EncodeList(ts[1..]))
      && StringAt(buf[..], host, ts[0].host) && StringAt(buf[..], user, ts[0].user)
      && StringAt(buf[..], domain, ts[0].domain)
  {
    hide Encode, TripleAt, At, TextOf, StringAt;
    status, host, user, domain := NOTFOUND, None, None, None;
    if m.loop != 0 {
      var ptr := m.dpos;
      ListAt(m.mm.ptr, ptr, ts);
      Header(m.mm.ptr, ptr, ts);
      var dlen := m.mm.ptr[ptr] as int * 0x100 + m.mm.ptr[ptr + 1];
      if dlen > 0 {
        AtConcat(m.mm.ptr, ptr, Encode(ts[0]), EncodeList(ts[1..]));
        status, host, user, domain := CopyTriple(m, buf, dlen - 4, ts[0]);
        return;
      }
      m.loop := 0;
    }
  }

  method CopyTriple(m: Mcdb, buf: array<byte>, dlen: nat, ghost t: Triple)
    returns (status: NssStatus, host: Option<nat>, user: Option<nat>, domain: Option<nat>)
    requires Encodable(t) && At(m.mm.ptr, m.dpos, Encode(t)) && |Encode(t)| == 4 + dlen
    modifies m`dpos, buf
    ensures status == if |TextOf(t)| < buf.Length then SUCCESS else TRYAGAIN
    ensures status == TRYAGAIN ==> m.dpos == old(m.dpos)
    ensures status == SUCCESS ==>
      && m.dpos == old(m.dpos) + |Encode(t)|
      && StringAt(buf[..], host, t.host) && StringAt(buf[..], user, t.user) && StringAt(buf[..], domain, t.domain)
  {
    hide Encode, StringAt;
    var file, ptr := m.mm.ptr, m.dpos;
    EncodedAt(file, ptr, t);
    TextAt(file, ptr, t);
    status, host, user, domain := TRYAGAIN, None, None, None;
    if dlen < buf.Length {
      var ph := if file[ptr + 2] != 0 then file[ptr + 2] as int + 1 else 0;
      var pu := if file[ptr + 3] != 0 then file[ptr + 3] as int + 1 else 0;
      var pd := dlen - ph - pu;
      assert ph == |Field(t.host)| && pu == |Field(t.user)| && pd == |Field(t.domain)|;
      forall i | 0 <= i < dlen {
        buf[i] := file[ptr + 4 + i];
      }
      assert buf[..][0..dlen] == file[ptr + 4..ptr + 4 + dlen];
      m.dpos := ptr + 4 + dlen;
      Strings(buf[..], t);
      status := SUCCESS;
      host := if ph != 0 then Some(0) else None;
      user := if pu != 0 then Some(ph) else None;
      domain := if pd != 0 then Some(ph + pu) else None;
    }
  }

  // ----- reading a whole netgroup

  // The characters of a C string
  function CString(buf: seq<byte>, p: nat): (s: seq<byte>)
    requires p <= |buf|
    ensures p + |s| <= |buf|
    decreases |buf| - p
  {
    if p == |buf| || buf[p] == 0 then [] else [buf[p]] + CString(buf, p + 1)
  }

  function TextAtPtr(buf: seq<byte>, p: Option<nat>): seq<byte> {
    if p.None? || p.value > |buf| then [] else CString(buf, p.value)
  }

  lemma {:induction false} CStringReads(buf: seq<byte>, p: nat, s: seq<byte>)
    requires At(buf, p, s + [0]) && 0 !in s
    ensures CString(buf, p) == s
    decreases |s|
  {
    var whole := buf[p..p + |s| + 1];
    assert whole == s + [0];
    if s == [] {
      assert whole[0] == buf[p] == 0;
    } else {
      assert whole[0] == buf[p] == s[0];
      AtSlice(buf, p, s + [0], 1, |s| + 1);
      assert (s + [0])[1..|s| + 1] == s[1..] + [0];
      CStringReads(buf, p + 1, s[1..]);
    }
  }

  // Names as the netgroup grammar allows them hold no NUL.
  predicate NoNul(ts: seq<Triple>) {
    forall i :: 0 <= i < |ts| ==> 0 !in ts[i].host && 0 !in ts[i].user && 0 !in ts[i].domain
  }

  lemma StringRead(buf: seq<byte>, p: Option<nat>, s: seq<byte>)
    requires StringAt(buf, p, s) && 0 !in s
    ensures TextAtPtr(buf, p) == s
  {
    if s != [] {
      CStringReads(buf, p.value, s);
    }
  }

  // getnetgrent until NOTFOUND, with a buffer that any triple fits: the triples, in order
  method GetAllNetgrent(m: Mcdb, buf: array<byte>, ghost ts: seq<Triple>) returns (out: seq<Triple>)
    requires AllEncodable(ts) && NoNul(ts) && m.loop != 0 && At(m.mm.ptr, m.dpos, EncodeList(ts))
    requires buf.Length > 3 * (FIELD_MAX + 1)
    modifies m`loop, m`dpos, buf
    ensures out == ts && m.loop == 0
  {
    hide EncodeList, StringAt, At, Encode;
    out := [];
    ghost var i := 0;
    while true
      invariant 0 <= i <= |ts| && out == ts[..i] && m.loop != 0
      invariant AllEncodable(ts[i..]) && At(m.mm.ptr, m.dpos, EncodeList(ts[i..]))
      decreases |ts| - i
    {
      var status, host, user, domain := GetNetgrentDecode(m, buf, ts[i..]);
      if status != SUCCESS {
        break;
      }
      StringRead(buf[..], host, ts[i].host);
      StringRead(buf[..], user, ts[i].user);
      StringRead(buf[..], domain, ts[i].domain);
      assert ts[i..][1..] == ts[i + 1..];
      out := out + [Triple(TextAtPtr(buf[..], host), TextAtPtr(buf[..], user), TextAtPtr(buf[..], domain))];
      i := i + 1;
    }
  }
}
