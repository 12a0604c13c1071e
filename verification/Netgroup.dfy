// nss/nss_mcdb_netdb_make.c: the netgroup compiler.  Triples and group names are numbered, each
// group is flattened, and the encoded triples are written as the value of the group's name.
module Netgroup {
  import opened Wrappers
  import opened Bytes
  import opened Parts
  import opened Uniq
  import opened NgGraph
  import opened NgTables
  import opened Triples

  // Ids stay below 2^27, which keeps uniq_id from failing.
  const ID_MAX: nat := 0x800_0000

  ghost predicate InRange(ids: set<int>, ap: seq<seq<int>>, ntriples: nat) {
    forall x :: x in ids ==> Sub(|ap|) < x < ntriples
  }

  // The table holds the triples written so far, each once, and groups.
  ghost predicate Emitted(ids: set<int>, out: seq<int>) {
    && Distinct(out)
    && forall e :: e in out <==> e >= 0 && e in ids
  }

  // What a walk adds to the table: only what root reaches, and whole groups
  ghost predicate Walked(ap: seq<seq<int>>, root: nat, was: set<int>, now: set<int>) {
    && was <= now
    && (forall e :: e in now && e !in was ==> InReach(ap, root, e))
    && (forall h: nat :: 0 < h < |ap| && Sub(h) in now && Sub(h) !in was ==> Done(ap, h, now))
  }

  lemma WalkedMore(ap: seq<seq<int>>, root: nat, a: set<int>, b: set<int>, c: set<int>)
    requires Walked(ap, root, a, b) && Walked(ap, root, b, c)
    ensures Walked(ap, root, a, c) && b <= c
  {
    hide InReach;
  }

  // A triple seen for the first time
  lemma EmitOne(ids: set<int>, out: seq<int>, e: int)
    requires Emitted(ids, out) && e >= 0 && e !in ids
    ensures Emitted(ids + {e}, out + [e])
  {
  }

  lemma EmitGroup(ids: set<int>, out: seq<int>, e: int)
    requires Emitted(ids, out) && e < 0
    ensures Emitted(ids + {e}, out)
  {
  }

  lemma WalkedKeeps(ap: seq<seq<int>>, root: nat, was: set<int>, now: set<int>)
    requires Walked(ap, root, was, now)
    ensures was <= now
  {
    hide Reaches;
  }

  lemma WentOn(ap: seq<seq<int>>, es: seq<int>, i: nat, x: set<int>, y: set<int>, z: set<int>,
               out: seq<int>, mid: seq<int>, end: seq<int>)
    requires i < |es| && out <= mid <= end
    requires Trailed(ap, es[..i], x, y, mid[|out|..]) && Trailed(ap, [es[i]], y, z, end[|mid|..])
    ensures Trailed(ap, es[..i + 1], x, z, end[|out|..])
  {
    hide Trailed;
    TrailJoin(ap, es[..i], [es[i]], x, y, z, mid[|out|..], end[|mid|..]);
    assert es[..i + 1] == es[..i] + [es[i]];
    assert end[|out|..] == mid[|out|..] + end[|mid|..];
  }

  // One entry of group id that is a triple
  lemma WalkTriple(ap: seq<seq<int>>, root: nat, was: set<int>, id: nat, e: int)
    requires e >= 0 && id < |ap| && Reaches(ap, root, id) && e in ap[id]
    ensures Walked(ap, root, was, was + {e})
  {
  }

  // ... or a subgroup that has now been walked as well
  lemma WalkGroup(ap: seq<seq<int>>, root: nat, was: set<int>, id: nat, h: nat, now: set<int>)
    requires id < |ap| && 0 < h < |ap| && Reaches(ap, root, id) && Sub(h) in ap[id]
    requires Walked(ap, root, was + {Sub(h)}, now) && Done(ap, h, now)
    ensures Walked(ap, root, was, now)
  {
    hide Reaches;
  }

  // A walk from the group alone has found exactly what the group reaches.
  lemma WalkedAll(ap: seq<seq<int>>, root: nat, now: set<int>, out: seq<int>)
    requires 0 < root < |ap| && !Plain(ap[root])
    requires Walked(ap, root, {Sub(root)}, now) && Done(ap, root, now) && Emitted(now, out)
    requires out == Trail(ap, ap[root], {Sub(root)})
    ensures Flattened(ap, root, out)
  {
    hide Reaches;
    assert Closed(ap, now);
    forall e | e >= 0 && InReach(ap, root, e)
      ensures e in now
    {
      ClosedReach(ap, root, now, e);
    }
  }

  // ----- encoding a triple

  // One string of a triple and its NUL, at r + off
  method PutField(r: array<byte>, off: nat, s: seq<byte>, lower: bool) returns (end: nat)
    requires off + |s| + 1 <= r.Length
    modifies r
    ensures end == off + |Field(s)|
    ensures r[..end] == old(r[..off]) + Field(if lower then Lower(s) else s)
  {
    ghost var w := if lower then Lower(s) else s;
    hide Lower, ToLower;
    end := off;
    if s != [] {
      CopyField(r, off, s, lower, w);
      r[off + |s|] := 0;
      end := off + |s| + 1;
      assert r[..end] == r[..off + |s|] + [0];
    }
  }

  method CopyField(r: array<byte>, off: nat, s: seq<byte>, lower: bool, ghost w: seq<byte>)
    requires off + |s| < r.Length && w == if lower then Lower(s) else s
    modifies r
    ensures r[..off + |s|] == old(r[..off]) + w
  {
    var i := 0;
    while i < |s|
      invariant 0 <= i <= |s| && r[..off + i] == old(r[..off]) + w[..i]
    {
      r[off + i] := if lower then ToLower(s[i]) else s[i];
      assert r[..off + i + 1] == r[..off + i] + [w[i]];
      i := i + 1;
    }
  }

  method EncodeInto(t: Triple) returns (r: array<byte>, off: nat)
    requires Encodable(t)
    ensures fresh(r) && off <= r.Length
    ensures Encodable(Folded(t)) && r[..off] == Encode(Folded(t))
  {
    r := new byte[4 + 768];
    var sum: nat := 4 + (if |t.host| != 0 then |t.host| + 1 else 0) + (if |t.user| != 0 then |t.user| + 1 else 0)
      + if |t.domain| != 0 then |t.domain| + 1 else 0;
    r[0] := sum / 0x100 % 0x100;
    r[1] := sum % 0x100;
    r[2] := |t.host|;
    r[3] := |t.user|;
    FoldedEncodable(t);
    Header(Folded(t), sum, r[..4]);
    hide Encode, Field, Lower;
    off := PutField(r, 4, t.host, true);
    off := PutField(r, off, t.user, false);
    off := PutField(r, off, t.domain, true);
  }

  method Encoded(t: Triple) returns (key: seq<byte>)
    requires Encodable(t)
    ensures Encodable(Folded(t)) && key == Encode(Folded(t))
  {
    var r, off := EncodeInto(t);
    key := r[..off];
  }

  lemma Header(t: Triple, sum: nat, head: seq<byte>)
    requires Encodable(t) && sum == 4 + |Field(t.host)| + |Field(t.user)| + |Field(t.domain)|
    requires |head| == 4 && head[0] == sum / 0x100 % 0x100 && head[1] == sum % 0x100
    requires head[2] == |t.host| && head[3] == |t.user|
    ensures Encode(t) == head + Field(t.host) + Field(t.user) + Field(t.domain)
  {
    assert head == [sum / 0x100, sum % 0x100, |t.host|, |t.user|];
    hide Field;
    var h, u, d := Field(t.host), Field(t.user), Field(t.domain);
    assert head + (h + u + d) == head + h + u + d;
  }

  lemma GrowTriples(ap: seq<seq<int>>, keys: seq<seq<byte>>, key: seq<byte>)
    requires WellFormed(ap, |keys|)
    ensures WellFormed(ap, |With(keys, key)|)
  {
  }

  lemma AnotherGroup(ap: seq<seq<int>>, n: nat)
    requires WellFormed(ap, n)
    ensures WellFormed(ap + [[]], n)
  {
  }

  lemma FoldedEncodable(t: Triple)
    ensures Encodable(Folded(t)) <==> Encodable(t)
  {
  }

  // The numbered keys are the encodings of the numbered triples.
  ghost predicate Coded(keys: seq<seq<byte>>, ts: seq<Triple>) {
    |ts| == |keys| && AllEncodable(ts) && forall i :: 0 <= i < |ts| ==> keys[i] == Encode(ts[i])
  }

  // A triple has a number exactly when its encoding has.
  lemma Known(keys: seq<seq<byte>>, ts: seq<Triple>, t: Triple, key: seq<byte>)
    requires Coded(keys, ts) && Encodable(t) && key == Encode(t)
    ensures key in keys <==> t in ts
    ensures Coded(With(keys, key), With(ts, t))
  {
    hide Encode;
    forall i | 0 <= i < |ts|
      ensures keys[i] == key <==> ts[i] == t
    {
      EncodeInjective(ts[i], t);
    }
  }

  // The triple behind the number of a key
  lemma Named(keys: seq<seq<byte>>, ts: seq<Triple>, t: Triple, id: nat)
    requires Coded(keys, ts) && Encodable(t) && id < |keys| && keys[id] == Encode(t)
    ensures id < |ts| && ts[id] == t
  {
    EncodeInjective(ts[id], t);
  }

  class NgData {
    const g: NgTable            // netgroup names
    const r: NgTable            // encoded triples
    const uniq: UniqTable
    var ap: seq<seq<int>>       // per group, triples (>= 0) and subgroups (< 0)
    var data: array<byte>
    var datalen: nat
    var subg: bool
    ghost var triples: seq<Triple>
    ghost var out: seq<int>     // triples appended to data

    // netgroup_ngdata_init; hint is a power of two taken from the size of the text
    constructor (hint: nat)
      requires hint > 0
      ensures Table() && Filled() && !subg && uniq.ids == {} && ap == [] && datalen == 0
      ensures Building() && g.keys == [] && r.keys == []
      ensures fresh(g) && fresh(r) && fresh(g.nodes) && fresh(g.bkts) && fresh(r.nodes) && fresh(r.bkts)
      ensures g.Repr == r.Repr == {} && fresh(uniq) && fresh(uniq.uniq) && fresh(data)
    {
      g := new NgTable(hint);
      r := new NgTable(hint * 2);
      uniq := new UniqTable();
      ap, triples, out, datalen, subg := [], [], [], 0, false;
      data := new byte[0];
    }

    // The two tables share nothing.
    ghost predicate Tables()
      reads g, g.nodes, g.bkts, g.Repr`next, r, r.nodes, r.bkts, r.Repr`next
    {
      && g != r && g.nodes != r.nodes && g.nodes != r.bkts && g.bkts != r.nodes && g.bkts != r.bkts && g.Repr !! r.Repr
      && g.Valid() && r.Valid()
    }

    ghost predicate Building()
      reads `ap, `triples, g, g.nodes, g.bkts, g.Repr`next, r, r.nodes, r.bkts, r.Repr`next
    {
      && Tables()
      && |ap| == |g.keys| && Coded(r.keys, triples) && WellFormed(ap, |r.keys|)
    }

    // netgroup_string_triple_id: -1 for a triple with a field too long
    method TripleId(t: Triple) returns (id: int)
      requires Building()
      modifies this`triples, r, r.nodes, r.bkts, r.Repr
      ensures Building() && fresh(r.Repr - old(r.Repr)) && r.bkts == old(r.bkts)
      ensures r.nodes == old(r.nodes) || fresh(r.nodes)
      ensures id == -1 <==> !Encodable(t)
      ensures id == -1 ==> triples == old(triples)
      ensures g.keys == old(g.keys)
      ensures id != -1 ==> 0 <= id < |triples| && triples[id] == Folded(t)
      ensures id != -1 ==> triples == With(old(triples), Folded(t))
    {
      hide NgData.Tables, Encode, Folded, WellFormed, Coded, With;
      id := -1;
      if |t.host| <= 255 && |t.user| <= 255 && |t.domain| <= 255 {
        FoldedEncodable(t);
        var key := Encoded(t);
        id := InsertRule(key, Folded(t));
        triples := With(triples, Folded(t));
      }
    }

    method InsertRule(key: seq<byte>, ghost t: Triple) returns (id: nat)
      requires Tables() && Coded(r.keys, triples) && WellFormed(ap, |r.keys|)
      requires Encodable(t) && key == Encode(t)
      modifies r, r.nodes, r.bkts, r.Repr
      ensures Tables() && Coded(r.keys, With(triples, t)) && WellFormed(ap, |r.keys|)
      ensures fresh(r.Repr - old(r.Repr)) && r.bkts == old(r.bkts) && (r.nodes == old(r.nodes) || fresh(r.nodes))
      ensures id < |With(triples, t)| && With(triples, t)[id] == t
      ensures g.keys == old(g.keys)
    {
      hide NgTable.Valid, Encode, Encodable, Coded, WellFormed, With;
      Known(r.keys, triples, t, key);
      GrowTriples(ap, r.keys, key);
      id := r.InsertId(key);
      Named(r.keys, With(triples, t), t, id);
    }

    // netgroup_id: the number of a name; a name not seen before gets an empty list
    method GroupId(name: seq<byte>) returns (id: nat)
      requires Building()
      modifies this`ap, g, g.nodes, g.bkts, g.Repr
      ensures Building() && fresh(g.Repr - old(g.Repr)) && g.bkts == old(g.bkts)
      ensures g.nodes == old(g.nodes) || fresh(g.nodes)
      ensures g.keys == With(old(g.keys), name) && id < |g.keys| && g.keys[id] == name
      ensures ap == if name in old(g.keys) then old(ap) else old(ap) + [[]]
      ensures r.keys == old(r.keys)
    {
      hide NgData.Tables, WellFormed, Coded;
      id := InsertName(name);
      if id >= |ap| {
        AnotherGroup(ap, |r.keys|);
        ap := ap + [[]];
      }
    }

    method InsertName(name: seq<byte>) returns (id: nat)
      requires Tables() && |ap| == |g.keys|
      modifies g, g.nodes, g.bkts, g.Repr
      ensures Tables() && r.keys == old(r.keys)
      ensures fresh(g.Repr - old(g.Repr)) && g.bkts == old(g.bkts) && (g.nodes == old(g.nodes) || fresh(g.nodes))
      ensures g.keys == With(old(g.keys), name) && id < |g.keys| && g.keys[id] == name
      ensures id >= |ap| <==> name !in old(g.keys)
    {
      ghost var keys := g.keys;
      assert Distinct(keys);
      hide NgTable.Valid;
      id := g.InsertId(name);
      assert name in keys ==> keys[id] == name;
    }

    // netgroup_ngi_append: another triple or subgroup of group id
    method AppendInt(id: nat, e: int)
      requires Building() && id < |ap| && Sub(|ap|) < e < |r.keys|
      modifies this`ap
      ensures Building() && ap == old(ap)[id := old(ap)[id] + [e]]
    {
      hide NgData.Tables, Coded;
      ap := ap[id := ap[id] + [e]];
    }

    // netgroup_parse_ng before it reads any text: triple 0 is (,,) and group 0 is a name that no
    // text can give, so that groups are numbered from 1
    method Reserve()
      requires Building() && g.keys == [] && r.keys == []
      modifies this`ap, this`triples, g, g.nodes, g.bkts, g.Repr, r, r.nodes, r.bkts, r.Repr
      ensures Building() && g.keys == [[0]] && ap == [[]] && triples == [Triple([], [], [])]
      ensures fresh(g.Repr - old(g.Repr)) && g.bkts == old(g.bkts)
      ensures g.nodes == old(g.nodes) || fresh(g.nodes)
      ensures fresh(r.Repr - old(r.Repr)) && r.bkts == old(r.bkts)
      ensures r.nodes == old(r.nodes) || fresh(r.nodes)
    {
      hide NgData.Building, Encode;
      assert |triples| == 0 && |ap| == 0 by {
        Nothing();
      }
      var id := TripleId(Triple([], [], []));
      assert Lower([]) == [];
      id := GroupId([0]);
    }

    lemma Nothing()
      requires Building() && g.keys == [] && r.keys == []
      ensures triples == [] && ap == []
    {
    }

    // The triples can be read by number.
    ghost predicate Rules()
      reads `ap, r, r.nodes
    {
      && r.Array() && Numbered(r.all, r.keys)
      && (forall i :: 0 <= i < |r.keys| ==> |r.keys[i]| <= 1024)
      && WellFormed(ap, |r.keys|) && |ap| < ID_MAX && |r.keys| < ID_MAX
    }

    ghost predicate Filled()
      reads `data, `datalen, `out, data, r`keys
    {
      && datalen <= data.Length
      && (forall k :: 0 <= k < |out| ==> 0 <= out[k] < |r.keys|)
      && data[..datalen] == Flat(Picked(r.keys, out))
    }

    ghost predicate Table()
      reads `ap, r`keys, uniq, uniq.uniq
    {
      uniq.Valid() && InRange(uniq.ids, ap, |r.keys|)
    }

    // netgroup_datastr_extend and netgroup_datastr_resize
    method Extend(n: nat) returns (ok: bool)
      requires datalen <= data.Length
      modifies this`data
      ensures ok <==> n <= old(data.Length) - datalen || n <= 1024
      ensures ok ==> datalen + n <= data.Length && data[..datalen] == old(data[..datalen])
      ensures data == old(data) || fresh(data)
    {
      if data.Length - datalen >= n {
        return true;
      }
      if n > 1024 {
        return false;
      }
      var ndata := new byte[data.Length + 262144];
      forall i | 0 <= i < datalen {
        ndata[i] := data[i];
      }
      assert ndata[..datalen] == data[..datalen];
      data := ndata;
      return true;
    }

    method Copy(k: seq<byte>)
      requires datalen + |k| <= data.Length
      modifies this`datalen, data
      ensures datalen == old(datalen) + |k| && datalen <= data.Length
      ensures data[..datalen] == old(data[..datalen]) + k
    {
      forall i | 0 <= i < |k| {
        data[datalen + i] := k[i];
      }
      datalen := datalen + |k|;
    }

    // netgroup_datastr_append
    method Append(id: nat) returns (ok: bool)
      requires Rules() && Filled() && id < |r.keys|
      modifies this`data, this`datalen, this`out, data
      ensures ok && Filled() && out == old(out) + [id]
      ensures data == old(data) || fresh(data)
    {
      hide WellFormed, Flat;
      var n := r.nodes[id];
      assert n.k == r.keys[id];
      ok := Extend(|n.k|);
      Copy(n.k);
      KeysMore(r.keys, out, id);
      out := out + [id];
    }

    // netgroup_datastr_recurse for a group without subgroups: every triple, in order
    method AppendAll(id: nat) returns (ok: bool)
      requires Rules() && Filled() && id < |ap| && Plain(ap[id])
      modifies this`data, this`datalen, this`out, data
      ensures ok && Filled() && out == old(out) + ap[id]
      ensures data == old(data) || fresh(data)
    {
      hide Rules, Filled, WellFormed;
      var i := 0;
      while i < |ap[id]|
        invariant 0 <= i <= |ap[id]| && Rules() && Filled()
        invariant out == old(out) + ap[id][..i]
        invariant data == old(data) || fresh(data)
      {
        EntryInRange(id, i);
        ok := Append(ap[id][i]);
        i := i + 1;
      }
      ok := true;
    }

    lemma EntryInRange(id: nat, i: nat)
      requires Rules() && id < |ap| && i < |ap[id]|
      ensures Sub(|ap|) < ap[id][i] < |r.keys|
    {
    }

    ghost predicate Walking(id: nat, root: nat)
      reads this, data, r, r.nodes, uniq, uniq.uniq
    {
      && Rules() && Filled() && Table() && uniq.nuniq > 0
      && Reaches(ap, root, id) && Emitted(uniq.ids, out)
    }

    // Since then exactly what going through `work` emits has been emitted.
    twostate predicate Went(work: seq<int>)
      reads `ap, `out, uniq`ids
    {
      old(out) <= out && Trailed(ap, work, old(uniq.ids), uniq.ids, out[|old(out)|..])
    }

    // netgroup_datastr_recurse while duplicates are tracked
    method Recurse(id: nat, ghost root: nat) returns (ok: bool)
      requires 0 < id < |ap| && Walking(id, root)
      modifies this`data, this`datalen, this`out, data, uniq, uniq.uniq
      ensures ok && Walking(id, root)
      ensures Walked(ap, root, old(uniq.ids), uniq.ids) && Done(ap, id, uniq.ids) && Went(ap[id])
      ensures data == old(data) || fresh(data)
      ensures uniq.uniq == old(uniq.uniq) || fresh(uniq.uniq)
      decreases |Unvisited(|ap|, uniq.ids)|, 2
    {
      hide Walking, Walked, Reaches, Trailed;
      var i := 0;
      WalkedNone(ap, root, uniq.ids);
      TrailNone(ap, uniq.ids);
      assert ap[id][..0] == [] && out[|out|..] == [];
      while i < |ap[id]|
        invariant 0 <= i <= |ap[id]| && Walking(id, root)
        invariant Walked(ap, root, old(uniq.ids), uniq.ids)
        invariant forall k :: 0 <= k < i ==> ap[id][k] in uniq.ids
        invariant Went(ap[id][..i])
        invariant data == old(data) || fresh(data)
        invariant uniq.uniq == old(uniq.uniq) || fresh(uniq.uniq)
      {
        ghost var before, sofar := uniq.ids, out;
        UnvisitedFewer(|ap|, old(uniq.ids), before, ap, root);
        ok := Visit(id, i, root);
        WalkedMore(ap, root, old(uniq.ids), before, uniq.ids);
        WentOn(ap, ap[id], i, old(uniq.ids), before, uniq.ids, old(out), sofar, out);
        i := i + 1;
      }
      assert ap[id][..i] == ap[id];
      ok := true;
    }

    // netgroup_datastr_uniq_id, which never runs out of room for ids in range
    method See(e: int) returns (unseen: bool)
      requires Table() && uniq.nuniq > 0
      requires Sub(|ap|) < e < |r.keys| && |ap| < ID_MAX && |r.keys| < ID_MAX
      modifies uniq, uniq.uniq
      ensures Table() && uniq.nuniq > 0 && (uniq.uniq == old(uniq.uniq) || fresh(uniq.uniq))
      ensures unseen <==> e !in old(uniq.ids)
      ensures uniq.ids == old(uniq.ids) + {e}
    {
      hide InRange, Crowded, UniqTable.Valid;
      InRangeMore(uniq.ids, e, ap, |r.keys|);
      unseen := uniq.UniqId(e);
    }

    // One entry: a triple or a subgroup, unless it has been seen
    method Visit(id: nat, i: nat, ghost root: nat) returns (ok: bool)
      requires 0 < id < |ap| && i < |ap[id]| && Walking(id, root)
      modifies this`data, this`datalen, this`out, data, uniq, uniq.uniq
      ensures ok && Walking(id, root)
      ensures Walked(ap, root, old(uniq.ids), uniq.ids) && ap[id][i] in uniq.ids && Went([ap[id][i]])
      ensures data == old(data) || fresh(data)
      ensures uniq.uniq == old(uniq.uniq) || fresh(uniq.uniq)
      decreases |Unvisited(|ap|, uniq.ids)|, 1
    {
      hide Walked, Reaches, Emitted, Filled, Rules, Table, Trailed;
      EntryInRange(id, i);
      var e := ap[id][i];
      ghost var was := uniq.ids;
      WalkedNone(ap, root, was);
      TrailOne(ap, e, was);
      var unseen := SeeEntry(e, id, root);
      if unseen && e >= 0 {
        ok := EmitTriple(e, id, root, was);
        assert out[|old(out)|..] == [e];
      } else if unseen {
        ok := EnterGroup(0 - e, id, root, was);
      } else {
        assert out[|old(out)|..] == [];
        ok := true;
      }
    }

    // Entry e of group id is about to be dealt with; it is noted in the table already.
    ghost predicate Seen(e: int, id: nat, root: nat, was: set<int>)
      reads this, data, r, r.nodes, uniq, uniq.uniq
    {
      && Rules() && Filled() && Table() && uniq.nuniq > 0
      && id < |ap| && Reaches(ap, root, id) && e in ap[id] && Sub(|ap|) < e < |r.keys|
      && Emitted(was, out) && e !in was && uniq.ids == was + {e}
    }

    method SeeEntry(e: int, id: nat, ghost root: nat) returns (unseen: bool)
      requires 0 < id < |ap| && Walking(id, root) && e in ap[id] && Sub(|ap|) < e < |r.keys|
      modifies uniq, uniq.uniq
      ensures uniq.uniq == old(uniq.uniq) || fresh(uniq.uniq)
      ensures if unseen then Seen(e, id, root, old(uniq.ids)) else Walking(id, root) && uniq.ids == old(uniq.ids)
      ensures e in uniq.ids
    {
      hide Reaches, Emitted, Filled, Table, NgTable.Array, WellFormed, Numbered;
      unseen := See(e);
      assert unseen || old(uniq.ids) + {e} == old(uniq.ids);
    }

    method EmitTriple(e: nat, id: nat, ghost root: nat, ghost was: set<int>) returns (ok: bool)
      requires Seen(e, id, root, was)
      modifies this`data, this`datalen, this`out, data
      ensures ok && Walking(id, root) && Walked(ap, root, was, uniq.ids) && out == old(out) + [e]
      ensures data == old(data) || fresh(data)
    {
      hide Walked, Reaches, Emitted, Filled, WellFormed, Table, NgTable.Array, Numbered;
      EmitOne(was, out, e);
      WalkTriple(ap, root, was, id, e);
      ok := Append(e);
    }

    method EnterGroup(h: nat, id: nat, ghost root: nat, ghost was: set<int>) returns (ok: bool)
      requires Seen(Sub(h), id, root, was) && h > 0
      modifies this`data, this`datalen, this`out, data, uniq, uniq.uniq
      ensures ok && Walking(id, root) && Walked(ap, root, was, uniq.ids) && Sub(h) in uniq.ids
      ensures old(out) <= out && Trailed(ap, [Sub(h)], was, uniq.ids, out[|old(out)|..])
      ensures data == old(data) || fresh(data)
      ensures uniq.uniq == old(uniq.uniq) || fresh(uniq.uniq)
      decreases |Unvisited(|ap|, was)|, 0
    {
      hide Walked, Reaches, Emitted, Filled, WellFormed, Table, NgTable.Array, Numbered, Trailed;
      EmitGroup(was, out, Sub(h));
      ReachesMore(ap, root, id, h);
      VisitShrinks(|ap|, was, uniq.ids, h);
      ok := Recurse(h, root);
      WalkedKeeps(ap, root, was + {Sub(h)}, uniq.ids);
      WalkGroup(ap, root, was, id, h, uniq.ids);
      TrailGroup(ap, h, was, uniq.ids, out[|old(out)|..]);
    }

    // The text has been read, and the next group can be flattened.
    ghost predicate Ready()
      reads `ap, `triples, `subg, g, g.nodes, g.bkts, g.Repr`next, r, r.nodes, r.bkts, r.Repr`next, uniq, uniq.uniq
    {
      Building() && Rules() && Table() && (!subg ==> uniq.ids == {})
    }

    // netgroup_datastr
    method Datastr(id: nat) returns (ok: bool)
      requires Rules() && Table() && (!subg ==> uniq.ids == {}) && 0 < id < |ap|
      modifies this`data, this`datalen, this`out, this`subg, data, uniq, uniq.uniq
      ensures ok && Filled() && Table() && (!subg ==> uniq.ids == {})
      ensures Flattened(ap, id, out)
      ensures data == old(data) || fresh(data)
      ensures uniq.uniq == old(uniq.uniq) || fresh(uniq.uniq)
    {
      hide Rules, Filled, Reaches, Walked, Flattened, Crowded, UniqTable.Valid;
      var plain := Start(id);
      if plain {
        ok := AppendAll(id);
        assert out == ap[id];
        PlainFlattened(ap, id);
      } else {
        FirstGroup(id);
        ok := Recurse(id, id);
        assert out[0..] == out;
        TrailWhole(ap, ap[id], {Sub(id)}, uniq.ids, out);
        WalkedAll(ap, id, uniq.ids, out);
      }
    }

    // Two bytes of 0 end the list.
    method EndList()
      requires Filled() && out != []
      modifies this`data, this`datalen, data
      ensures datalen <= data.Length && data[..datalen] == Flat(Picked(r.keys, out)) + [0, 0]
      ensures data == old(data) || fresh(data)
    {
      hide Flat, Picked;
      var ok := Extend(2);
      Copy([0, 0]);
    }

    // Empty the buffer and the table; look for subgroups.
    method Start(id: nat) returns (plain: bool)
      requires Table() && (!subg ==> uniq.ids == {}) && id < |ap|
      modifies this`datalen, this`out, this`subg, uniq, uniq.uniq
      ensures Filled() && Table() && uniq.ids == {} && out == [] && subg == !plain
      ensures plain <==> Plain(ap[id])
      ensures uniq.uniq == old(uniq.uniq)
    {
      hide UniqTable.Valid, InRange;
      NoneInRange(ap, |r.keys|);
      datalen, out := 0, [];
      NoKeysOf(r.keys);
      if subg {
        subg := false;
        uniq.Reset();
      }
      var i := 0;
      while i < |ap[id]| && ap[id][i] >= 0
        invariant 0 <= i <= |ap[id]| && forall k :: 0 <= k < i ==> ap[id][k] >= 0
      {
        i := i + 1;
      }
      plain := i == |ap[id]|;
      subg := !plain;
    }

    // Add the netgroup itself to the table, as -id.
    method FirstGroup(id: nat)
      requires Rules() && Filled() && Table() && uniq.ids == {} && out == [] && 0 < id < |ap|
      modifies uniq, uniq.uniq
      ensures Walking(id, id) && uniq.ids == {Sub(id)}
      ensures uniq.uniq == old(uniq.uniq) || fresh(uniq.uniq)
    {
      hide Filled, Reaches, WellFormed, Numbered, NgTable.Array, UniqTable.Valid, InRange;
      ReachesSelf(ap, id);
      if uniq.nuniq == 0 {
        var ok := uniq.Resize();
      }
      var unseen := See(0 - id);
    }
  }

  lemma PlainFlattened(ap: seq<seq<int>>, id: nat)
    requires id < |ap| && Plain(ap[id])
    ensures Flattened(ap, id, ap[id])
  {
  }

  lemma NoneInRange(ap: seq<seq<int>>, n: nat)
    ensures InRange({}, ap, n)
  {
  }

  lemma NoKeysOf(keys: seq<seq<byte>>)
    ensures Flat(Picked(keys, [])) == []
  {
  }

  lemma WalkedNone(ap: seq<seq<int>>, root: nat, ids: set<int>)
    ensures Walked(ap, root, ids, ids)
  {
  }

  lemma UnvisitedFewer(n: nat, was: set<int>, now: set<int>, ap: seq<seq<int>>, root: nat)
    requires Walked(ap, root, was, now)
    ensures |Unvisited(n, now)| <= |Unvisited(n, was)|
  {
    CardinalityMonotone(Unvisited(n, now), Unvisited(n, was));
  }

  // The table always has room for an id in range.
  lemma InRangeMore(ids: set<int>, e: int, ap: seq<seq<int>>, n: nat)
    requires InRange(ids, ap, n) && Sub(|ap|) < e < n && |ap| < ID_MAX && n < ID_MAX
    ensures InRange(ids + {e}, ap, n)
    ensures e !in ids ==> !Crowded(ids, e)
  {
    hide Crowded;
    if e !in ids {
      NeverCrowded(ids, e);
    }
  }

  lemma KeysMore(keys: seq<seq<byte>>, ids: seq<int>, id: nat)
    requires forall k :: 0 <= k < |ids| ==> 0 <= ids[k] < |keys|
    requires id < |keys|
    ensures Flat(Picked(keys, ids + [id])) == Flat(Picked(keys, ids)) + keys[id]
  {
    var more := Picked(keys, ids + [id]);
    assert more[..|more| - 1] == Picked(keys, ids);
  }

  lemma RulesHold(d: NgData)
    requires d.Building() && |d.ap| < ID_MAX && |d.r.keys| < ID_MAX
    ensures d.Rules()
  {
    hide Encode, Sorted, Linked;
  }
}
