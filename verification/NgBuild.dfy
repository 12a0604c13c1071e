// nss/nss_mcdb_netdb_make.c: from the lines of a netgroup file, already split into names and
// entries, to the compiler's numbered groups and triples.
module NgBuild {
  import opened Wrappers
  import opened Bytes
  import opened Uniq
  import opened NgGraph
  import opened NgTables
  import opened Triples
  import opened Netgroup

  datatype Entry = Rule(t: Triple) | Subgroup(name: seq<byte>)

  datatype Line = Line(name: seq<byte>, entries: seq<Entry>)

  // The entries that all the lines of one name give it, in order
  function EntriesOf(lines: seq<Line>, name: seq<byte>): seq<Entry> {
    if lines == [] then []
    else
      var last := lines[|lines| - 1];
      EntriesOf(lines[..|lines| - 1], name) + if last.name == name then last.entries else []
  }

  // How many names and entries the lines hold
  function Count(lines: seq<Line>): nat {
    if lines == [] then 0 else Count(lines[..|lines| - 1]) + 1 + |lines[|lines| - 1].entries|
  }

  predicate EntryNamed(e: Entry) {
    e.Subgroup? ==> 0 !in e.name
  }

  // Names as the grammar allows them hold no NUL.
  predicate LineNamed(l: Line) {
    0 !in l.name && forall k :: 0 <= k < |l.entries| ==> EntryNamed(l.entries[k])
  }

  predicate LinesNamed(lines: seq<Line>) {
    forall i :: 0 <= i < |lines| ==> LineNamed(lines[i])
  }

  predicate EntryFits(e: Entry) {
    e.Rule? ==> Encodable(e.t)
  }

  // Every triple is short enough to be stored.
  predicate Fits(lines: seq<Line>) {
    forall i, k :: 0 <= i < |lines| && 0 <= k < |lines[i].entries| ==> EntryFits(lines[i].entries[k])
  }

  // ----- numbers for names and triples

  // x is the number of entry e.
  ghost predicate CodeIs(x: int, e: Entry, names: seq<seq<byte>>, ts: seq<Triple>) {
    match e
    case Rule(t) => 0 <= x < |ts| && ts[x] == Folded(t)
    case Subgroup(name) => x < 0 && 0 - x < |names| && names[0 - x] == name
  }

  ghost predicate Codes(xs: seq<int>, es: seq<Entry>, names: seq<seq<byte>>, ts: seq<Triple>) {
    |xs| == |es| && forall k :: 0 <= k < |xs| ==> CodeIs(xs[k], es[k], names, ts)
  }

  // The groups numbered so far say what the lines say.
  ghost predicate Represents(lines: seq<Line>, names: seq<seq<byte>>, ts: seq<Triple>, ap: seq<seq<int>>) {
    && |names| == |ap| > 0 && names[0] == [0]
    && (forall g :: 0 <= g < |ap| ==> Codes(ap[g], EntriesOf(lines, names[g]), names, ts))
    && (forall i :: 0 <= i < |lines| ==> lines[i].name in names)
  }

  lemma CodesGrow(xs: seq<int>, es: seq<Entry>, names: seq<seq<byte>>, ts: seq<Triple>,
                  names': seq<seq<byte>>, ts': seq<Triple>)
    requires Codes(xs, es, names, ts) && names <= names' && ts <= ts'
    ensures Codes(xs, es, names', ts')
  {
  }

  lemma {:induction false} NoEntries(lines: seq<Line>, name: seq<byte>)
    requires forall i :: 0 <= i < |lines| ==> lines[i].name != name
    ensures EntriesOf(lines, name) == []
  {
    if lines != [] {
      NoEntries(lines[..|lines| - 1], name);
    }
  }

  // More triples, and perhaps a new name with an empty list
  lemma RepresentsGrow(lines: seq<Line>, names: seq<seq<byte>>, ts: seq<Triple>, ap: seq<seq<int>>,
                       name: seq<byte>, ts': seq<Triple>)
    requires Represents(lines, names, ts, ap) && ts <= ts'
    ensures Represents(lines, With(names, name), ts', if name in names then ap else ap + [[]])
  {
    hide EntriesOf, Codes;
    var names' := With(names, name);
    var ap' := if name in names then ap else ap + [[]];
    forall g | 0 <= g < |ap'|
      ensures Codes(ap'[g], EntriesOf(lines, names'[g]), names', ts')
    {
      if g < |ap| {
        CodesGrow(ap[g], EntriesOf(lines, names[g]), names, ts, names', ts');
      } else {
        NoEntries(lines, name);
        NoCodes(names', ts');
      }
    }
  }

  lemma NoCodes(names: seq<seq<byte>>, ts: seq<Triple>)
    ensures Codes([], [], names, ts)
  {
  }

  // A new line without entries yet
  lemma RepresentsLine(lines: seq<Line>, names: seq<seq<byte>>, ts: seq<Triple>, ap: seq<seq<int>>, name: seq<byte>)
    requires Represents(lines, names, ts, ap) && name in names
    ensures Represents(lines + [Line(name, [])], names, ts, ap)
  {
    hide Codes;
    var more := lines + [Line(name, [])];
    assert more[..|lines|] == lines;
    forall g | 0 <= g < |ap|
      ensures EntriesOf(more, names[g]) == EntriesOf(lines, names[g])
    {
    }
  }

  // One more entry of the line under way
  lemma RepresentsEntry(lines: seq<Line>, l: Line, e: Entry, names: seq<seq<byte>>, ts: seq<Triple>,
                        ap: seq<seq<int>>, id: nat, x: int)
    requires Represents(lines + [l], names, ts, ap) && Distinct(names)
    requires id < |names| && names[id] == l.name && CodeIs(x, e, names, ts)
    ensures Represents(lines + [Line(l.name, l.entries + [e])], names, ts, ap[id := ap[id] + [x]])
  {
    hide CodeIs;
    var was, now := lines + [l], lines + [Line(l.name, l.entries + [e])];
    assert was[..|lines|] == lines && now[..|lines|] == lines;
    forall g | 0 <= g < |ap|
      ensures EntriesOf(now, names[g]) == EntriesOf(was, names[g]) + if g == id then [e] else []
    {
    }
  }

  lemma CountLine(lines: seq<Line>, l: Line)
    ensures Count(lines + [l]) == Count(lines) + 1 + |l.entries|
  {
    assert (lines + [l])[..|lines|] == lines;
  }

  // ----- building

  // The compiler's state after the lines
  ghost predicate Holds(d: NgData, lines: seq<Line>)
    reads d`ap, d`triples, d.g, d.g.nodes, d.g.bkts, d.g.Repr`next, d.r, d.r.nodes, d.r.bkts, d.r.Repr`next
  {
    && d.Building() && Represents(lines, d.g.keys, d.triples, d.ap)
    && |d.ap| + |d.triples| <= 2 + Count(lines)
  }

  lemma NamesDistinct(d: NgData)
    requires d.Building()
    ensures Distinct(d.g.keys) && |d.ap| == |d.g.keys| && |d.triples| == |d.r.keys|
  {
    hide Encode, Linked, Sorted, Numbered;
  }

  // The number of an entry, its triple or name being new perhaps; none for a triple too long to store
  method Code(d: NgData, e: Entry, ghost lines: seq<Line>) returns (ok: bool, x: int)
    requires d.Building() && EntryNamed(e) && Represents(lines, d.g.keys, d.triples, d.ap)
    modifies d`ap, d`triples, d.g, d.g.nodes, d.g.bkts, d.g.Repr, d.r, d.r.nodes, d.r.bkts, d.r.Repr
    ensures fresh(d.g.Repr - old(d.g.Repr)) && d.g.bkts == old(d.g.bkts)
    ensures fresh(d.r.Repr - old(d.r.Repr)) && d.r.bkts == old(d.r.bkts)
    ensures d.g.nodes == old(d.g.nodes) || fresh(d.g.nodes)
    ensures d.r.nodes == old(d.r.nodes) || fresh(d.r.nodes)
    ensures ok <==> EntryFits(e)
    ensures d.Building() && old(d.g.keys) <= d.g.keys
    ensures ok ==> Represents(lines, d.g.keys, d.triples, d.ap) && CodeIs(x, e, d.g.keys, d.triples)
    ensures ok ==> |d.ap| + |d.triples| <= old(|d.ap| + |d.triples|) + 1
  {
    hide NgData.Building, Encodable, Represents;
    NamesDistinct(d);
    ghost var names, ts, ap := d.g.keys, d.triples, d.ap;
    FirstName(lines, names, ts, ap);
    if e.Rule? {
      x := d.TripleId(e.t);
      ok := x != -1;
      if ok {
        RepresentsGrow(lines, names, ts, ap, names[0], d.triples);
      }
    } else {
      var h := d.GroupId(e.name);
      x := Sub(h);
      ok := true;
      RepresentsGrow(lines, names, ts, ap, e.name, ts);
    }
  }

  lemma FirstName(lines: seq<Line>, names: seq<seq<byte>>, ts: seq<Triple>, ap: seq<seq<int>>)
    requires Represents(lines, names, ts, ap)
    ensures |names| > 0 && names[0] == [0] && |names| == |ap|
  {
  }

  // One entry of a line, as netgroup_parse_ngrule adds it; false for a triple too long to store
  method AddEntry(d: NgData, id: nat, e: Entry, ghost lines: seq<Line>, ghost l: Line) returns (ok: bool)
    requires Holds(d, lines + [l]) && EntryNamed(e) && id < |d.g.keys| && d.g.keys[id] == l.name
    modifies d`ap, d`triples, d.g, d.g.nodes, d.g.bkts, d.g.Repr, d.r, d.r.nodes, d.r.bkts, d.r.Repr
    ensures fresh(d.g.Repr - old(d.g.Repr)) && d.g.bkts == old(d.g.bkts)
    ensures fresh(d.r.Repr - old(d.r.Repr)) && d.r.bkts == old(d.r.bkts)
    ensures d.g.nodes == old(d.g.nodes) || fresh(d.g.nodes)
    ensures d.r.nodes == old(d.r.nodes) || fresh(d.r.nodes)
    ensures ok <==> EntryFits(e)
    ensures ok ==> Holds(d, lines + [Line(l.name, l.entries + [e])]) && old(d.g.keys) <= d.g.keys
  {
    hide NgData.Building, Encodable, Represents, CodeIs, Count;
    var x;
    ok, x := Code(d, e, lines + [l]);
    if ok {
      NamesDistinct(d);
      CodeInRange(x, e, d.g.keys, d.triples);
      CountLine(lines, l);
      CountLine(lines, Line(l.name, l.entries + [e]));
      RepresentsEntry(lines, l, e, d.g.keys, d.triples, d.ap, id, x);
      d.AppendInt(id, x);
    }
  }

  lemma CodeInRange(x: int, e: Entry, names: seq<seq<byte>>, ts: seq<Triple>)
    requires CodeIs(x, e, names, ts) && |names| > 0
    ensures Sub(|names|) < x < |ts|
  {
  }

  // One line of netgroup_parse_ng: number its name, then add its entries.
  method AddLine(d: NgData, l: Line, ghost lines: seq<Line>) returns (ok: bool)
    requires Holds(d, lines) && LineNamed(l)
    modifies d`ap, d`triples, d.g, d.g.nodes, d.g.bkts, d.g.Repr, d.r, d.r.nodes, d.r.bkts, d.r.Repr
    ensures fresh(d.g.Repr - old(d.g.Repr)) && d.g.bkts == old(d.g.bkts)
    ensures fresh(d.r.Repr - old(d.r.Repr)) && d.r.bkts == old(d.r.bkts)
    ensures d.g.nodes == old(d.g.nodes) || fresh(d.g.nodes)
    ensures d.r.nodes == old(d.r.nodes) || fresh(d.r.nodes)
    ensures ok <==> forall k :: 0 <= k < |l.entries| ==> EntryFits(l.entries[k])
    ensures ok ==> Holds(d, lines + [l])
  {
    hide EntryNamed, EntryFits, Holds;
    var id := StartLine(d, l.name, lines);
    var k := 0;
    ok := true;
    while k < |l.entries|
      invariant 0 <= k <= |l.entries| && ok
      invariant id < |d.g.keys| && d.g.keys[id] == l.name
      invariant Holds(d, lines + [Line(l.name, l.entries[..k])])
      invariant forall j :: 0 <= j < k ==> EntryFits(l.entries[j])
      invariant fresh(d.g.Repr - old(d.g.Repr)) && d.g.bkts == old(d.g.bkts)
      invariant fresh(d.r.Repr - old(d.r.Repr)) && d.r.bkts == old(d.r.bkts)
      invariant d.g.nodes == old(d.g.nodes) || fresh(d.g.nodes)
      invariant d.r.nodes == old(d.r.nodes) || fresh(d.r.nodes)
    {
      assert l.entries[..k + 1] == l.entries[..k] + [l.entries[k]];
      ok := AddEntry(d, id, l.entries[k], lines, Line(l.name, l.entries[..k]));
      if !ok {
        return;
      }
      k := k + 1;
    }
    assert Line(l.name, l.entries[..k]) == l;
  }

  method StartLine(d: NgData, name: seq<byte>, ghost lines: seq<Line>) returns (id: nat)
    requires Holds(d, lines) && 0 !in name
    modifies d`ap, d.g, d.g.nodes, d.g.bkts, d.g.Repr
    ensures fresh(d.g.Repr - old(d.g.Repr)) && d.g.bkts == old(d.g.bkts)
    ensures d.g.nodes == old(d.g.nodes) || fresh(d.g.nodes)
    ensures id < |d.g.keys| && d.g.keys[id] == name
    ensures Holds(d, lines + [Line(name, [])])
  {
    hide NgData.Building, Represents, Count;
    NamesDistinct(d);
    ghost var names, ts, ap := d.g.keys, d.triples, d.ap;
    id := d.GroupId(name);
    RepresentsGrow(lines, names, ts, ap, name, ts);
    RepresentsLine(lines, d.g.keys, ts, d.ap, name);
    CountLine(lines, Line(name, []));
  }

  lemma NothingRepresented(d: NgData)
    requires d.Building() && d.g.keys == [[0]] && d.ap == [[]] && d.triples == [Triple([], [], [])]
    ensures Holds(d, [])
  {
    hide NgData.Building;
  }

  lemma AllBuilt(d: NgData, lines: seq<Line>)
    requires Holds(d, lines) && d.uniq.Valid() && !d.subg && d.uniq.ids == {} && 2 + Count(lines) < ID_MAX
    ensures d.Ready() && |d.ap| > 0 && Represents(lines, d.g.keys, d.triples, d.ap)
    ensures |d.ap| + |d.triples| <= 2 + Count(lines)
  {
    hide NgData.Building, Represents, Count, NgData.Rules, UniqTable.Valid;
    NamesDistinct(d);
    FirstName(lines, d.g.keys, d.triples, d.ap);
    RulesHold(d);
  }

  // The line loop of netgroup_parse_ng: false exactly when some triple has a field too long
  method AddLines(d: NgData, lines: seq<Line>) returns (ok: bool)
    requires Holds(d, []) && LinesNamed(lines)
    modifies d`ap, d`triples, d.g, d.g.nodes, d.g.bkts, d.g.Repr, d.r, d.r.nodes, d.r.bkts, d.r.Repr
    ensures ok <==> Fits(lines)
    ensures ok ==> Holds(d, lines)
  {
    hide LineNamed, EntryFits, Holds;
    var i := 0;
    ok := true;
    while i < |lines|
      invariant 0 <= i <= |lines| && ok && Holds(d, lines[..i])
      invariant forall j, k :: 0 <= j < i && 0 <= k < |lines[j].entries| ==> EntryFits(lines[j].entries[k])
      invariant fresh(d.g.Repr - old(d.g.Repr)) && d.g.bkts == old(d.g.bkts)
      invariant fresh(d.r.Repr - old(d.r.Repr)) && d.r.bkts == old(d.r.bkts)
      invariant d.g.nodes == old(d.g.nodes) || fresh(d.g.nodes)
      invariant d.r.nodes == old(d.r.nodes) || fresh(d.r.nodes)
    {
      assert lines[..i + 1] == lines[..i] + [lines[i]];
      ok := AddLine(d, lines[i], lines[..i]);
      if !ok {
        return;
      }
      i := i + 1;
    }
    assert lines[..i] == lines;
  }

  // netgroup_parse_ng: triple 0 and group 0, then the lines
  method Build(lines: seq<Line>, hint: nat) returns (ok: bool, d: NgData)
    requires hint > 0 && LinesNamed(lines) && 2 + Count(lines) < ID_MAX
    ensures ok ==> fresh(d) && fresh(d.data) && fresh(d.uniq) && fresh(d.uniq.uniq)
    ensures ok <==> Fits(lines)
    ensures ok ==> d.Ready() && |d.ap| > 0 && Represents(lines, d.g.keys, d.triples, d.ap)
    ensures ok ==> |d.ap| + |d.triples| <= 2 + Count(lines)
  {
    hide NgData.Building, NgData.Ready, NgData.Filled, UniqTable.Valid, LinesNamed, Fits, Represents, Holds;
    d := new NgData(hint);
    d.Reserve();
    NothingRepresented(d);
    ok := AddLines(d, lines);
    if ok {
      AllBuilt(d, lines);
    }
  }
}
