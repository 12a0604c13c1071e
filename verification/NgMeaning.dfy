// What the lines of a netgroup file mean, in names, and that the numbered groups mean the same.
module NgMeaning {
  import opened Wrappers
  import opened Bytes
  import opened NgGraph
  import opened Triples
  import opened Netgr
  import opened NgBuild
  import opened NetgroupDb

  // b is a, or a subgroup of a, or a subgroup of such a subgroup, ...
  ghost predicate NamePath(lines: seq<Line>, p: seq<seq<byte>>, a: seq<byte>, b: seq<byte>) {
    && p != [] && p[0] == a && p[|p| - 1] == b
    && forall k :: 0 < k < |p| ==> Subgroup(p[k]) in EntriesOf(lines, p[k - 1])
  }

  ghost predicate Includes(lines: seq<Line>, a: seq<byte>, b: seq<byte>) {
    exists p: seq<seq<byte>> :: NamePath(lines, p, a, b)
  }

  // Some netgroup included has a triple that the query matches.
  ghost predicate HasMember(lines: seq<Line>, netgroup: seq<byte>, q: Query) {
    exists n: seq<byte>, t: Triple :: MemberIn(lines, netgroup, n, t, q)
  }

  ghost predicate MemberIn(lines: seq<Line>, netgroup: seq<byte>, n: seq<byte>, t: Triple, q: Query) {
    Includes(lines, netgroup, n) && Rule(t) in EntriesOf(lines, n) && Member(q, Folded(t))
  }

  // The numbered form of the lines
  ghost predicate NumberedForm(lines: seq<Line>, names: seq<seq<byte>>, ts: seq<Triple>, ap: seq<seq<int>>) {
    && Represents(lines, names, ts, ap) && WellFormed(ap, |ts|)
    && Distinct(names) && LinesNamed(lines)
  }

  // Group g and its entries, side by side
  lemma EntryAt(lines: seq<Line>, names: seq<seq<byte>>, ts: seq<Triple>, ap: seq<seq<int>>, g: nat, k: nat)
    requires NumberedForm(lines, names, ts, ap) && g < |ap| && (k < |ap[g]| || k < |EntriesOf(lines, names[g])|)
    ensures k < |ap[g]| == |EntriesOf(lines, names[g])|
    ensures CodeIs(ap[g][k], EntriesOf(lines, names[g])[k], names, ts)
    ensures Sub(|ap|) < ap[g][k] < |ts|
  {
    hide EntriesOf, CodeIs;
    assert Codes(ap[g], EntriesOf(lines, names[g]), names, ts);
  }

  lemma SubgroupNamed(lines: seq<Line>, names: seq<seq<byte>>, ts: seq<Triple>, ap: seq<seq<int>>, g: nat, h: nat)
    requires NumberedForm(lines, names, ts, ap) && g < |ap| && g < |names| && 0 < h < |ap| && Sub(h) in ap[g]
    ensures h < |names| && Subgroup(names[h]) in EntriesOf(lines, names[g])
  {
    hide EntriesOf, Represents, NumberedForm;
    var k :| 0 <= k < |ap[g]| && ap[g][k] == Sub(h);
    EntryAt(lines, names, ts, ap, g, k);
    assert EntriesOf(lines, names[g])[k] in EntriesOf(lines, names[g]);
  }

  lemma SubgroupNumbered(lines: seq<Line>, names: seq<seq<byte>>, ts: seq<Triple>, ap: seq<seq<int>>, g: nat,
                         n: seq<byte>)
    returns (h: nat)
    requires NumberedForm(lines, names, ts, ap) && g < |ap| && g < |names| && Subgroup(n) in EntriesOf(lines, names[g])
    ensures 0 < h < |ap| && h < |names| && names[h] == n && Sub(h) in ap[g]
  {
    hide EntriesOf, Represents, NumberedForm;
    var es := EntriesOf(lines, names[g]);
    var k :| 0 <= k < |es| && es[k] == Subgroup(n);
    EntryAt(lines, names, ts, ap, g, k);
    h := 0 - ap[g][k];
    assert ap[g][k] in ap[g];
  }

  lemma PathNamed(lines: seq<Line>, names: seq<seq<byte>>, ts: seq<Triple>, ap: seq<seq<int>>, p: seq<nat>,
                  a: nat, b: nat)
    requires NumberedForm(lines, names, ts, ap) && Path(ap, p, a, b)
    ensures a < |names| && b < |names| && Includes(lines, names[a], names[b])
  {
    hide EntriesOf;
    var ns := seq(|p|, k requires 0 <= k < |p| => names[p[k]]);
    forall k | 0 < k < |ns|
      ensures Subgroup(ns[k]) in EntriesOf(lines, ns[k - 1])
    {
      assert Sub(p[k]) in ap[p[k - 1]];
      SubgroupNamed(lines, names, ts, ap, p[k - 1], p[k]);
    }
    assert NamePath(lines, ns, names[a], names[b]);
  }

  lemma {:induction false} PathNumbered(lines: seq<Line>, names: seq<seq<byte>>, ts: seq<Triple>, ap: seq<seq<int>>,
                                        p: seq<seq<byte>>, a: nat, n: seq<byte>)
    returns (b: nat)
    requires NumberedForm(lines, names, ts, ap) && 0 < a < |ap| && a < |names| && NamePath(lines, p, names[a], n)
    ensures 0 < b < |ap| && b < |names| && names[b] == n && Reaches(ap, a, b)
    decreases |p|
  {
    hide EntriesOf, Reaches, NumberedForm;
    if |p| == 1 {
      b := a;
      ReachesSelf(ap, a);
    } else {
      var m := |p| - 1;
      var init := p[..m];
      forall k | 0 < k < |init|
        ensures Subgroup(init[k]) in EntriesOf(lines, init[k - 1])
      {
        assert Subgroup(p[k]) in EntriesOf(lines, p[k - 1]);
      }
      var c := PathNumbered(lines, names, ts, ap, init, a, p[m - 1]);
      b := SubgroupNumbered(lines, names, ts, ap, c, n);
      ReachesMore(ap, a, c, b);
    }
  }

  // A triple of the numbered form that g reaches is a triple of a netgroup included, and the reverse.
  lemma RuleNamed(lines: seq<Line>, names: seq<seq<byte>>, ts: seq<Triple>, ap: seq<seq<int>>, g: nat, e: nat)
    returns (n: seq<byte>, t: Triple)
    requires NumberedForm(lines, names, ts, ap) && 0 < g < |names| && InReach(ap, g, e) && e < |ts|
    ensures Includes(lines, names[g], n) && Rule(t) in EntriesOf(lines, n) && Folded(t) == ts[e]
  {
    hide EntriesOf, Includes, Represents;
    var b: nat :| b < |ap| && Reaches(ap, g, b) && e in ap[b];
    var p: seq<nat> :| Path(ap, p, g, b);
    PathNamed(lines, names, ts, ap, p, g, b);
    n := names[b];
    var k :| 0 <= k < |ap[b]| && ap[b][k] == e;
    EntryAt(lines, names, ts, ap, b, k);
    var entry := EntriesOf(lines, n)[k];
    assert entry in EntriesOf(lines, n);
    t := entry.t;
  }

  lemma RuleNumbered(lines: seq<Line>, names: seq<seq<byte>>, ts: seq<Triple>, ap: seq<seq<int>>, g: nat,
                     n: seq<byte>, t: Triple)
    returns (e: nat)
    requires NumberedForm(lines, names, ts, ap) && 0 < g < |ap| && g < |names|
    requires Includes(lines, names[g], n) && Rule(t) in EntriesOf(lines, n)
    ensures e < |ts| && ts[e] == Folded(t) && InReach(ap, g, e)
  {
    hide EntriesOf, Reaches, Represents;
    var p: seq<seq<byte>> :| NamePath(lines, p, names[g], n);
    var b := PathNumbered(lines, names, ts, ap, p, g, n);
    var es := EntriesOf(lines, n);
    var k :| 0 <= k < |es| && es[k] == Rule(t);
    EntryAt(lines, names, ts, ap, b, k);
    e := ap[b][k];
    assert ap[b][k] in ap[b];
  }

  // A name that no line gives has no members.
  lemma UnknownName(lines: seq<Line>, netgroup: seq<byte>, q: Query)
    requires forall i :: 0 <= i < |lines| ==> lines[i].name != netgroup
    ensures !HasMember(lines, netgroup, q)
  {
    hide EntriesOf, Member;
    NoEntries(lines, netgroup);
    if n: seq<byte>, t: Triple :| MemberIn(lines, netgroup, n, t, q) {
      var p: seq<seq<byte>> :| NamePath(lines, p, netgroup, n);
      FirstStep(lines, p, netgroup, n);
    }
  }

  lemma FirstStep(lines: seq<Line>, p: seq<seq<byte>>, a: seq<byte>, b: seq<byte>)
    requires NamePath(lines, p, a, b)
    ensures a == b || EntriesOf(lines, a) != []
  {
    if |p| > 1 {
      assert Subgroup(p[1]) in EntriesOf(lines, p[0]);
    }
  }

  // Asking the numbered groups is asking the lines.
  lemma SameMeaning(lines: seq<Line>, c: Compiled, netgroup: seq<byte>, q: Query)
    requires NumberedForm(lines, c.names, c.ts, c.ap)
    ensures (exists g: nat :: IsGroup(c, netgroup, g) && c.Has(g, q)) <==> HasMember(lines, netgroup, q)
  {
    hide NumberedForm, Member, EntriesOf, Includes, InReach;
    if g: nat :| IsGroup(c, netgroup, g) && c.Has(g, q) {
      var e: nat :| e < |c.ts| && InReach(c.ap, g, e) && Member(q, c.ts[e]);
      var n, t := RuleNamed(lines, c.names, c.ts, c.ap, g, e);
      assert MemberIn(lines, netgroup, n, t, q);
    }
    if n: seq<byte>, t: Triple :| MemberIn(lines, netgroup, n, t, q) {
      var g := GroupOf(lines, c, netgroup, q);
      var e := RuleNumbered(lines, c.names, c.ts, c.ap, g, n, t);
      assert c.Has(g, q);
    }
  }

  lemma GroupOf(lines: seq<Line>, c: Compiled, netgroup: seq<byte>, q: Query) returns (g: nat)
    requires NumberedForm(lines, c.names, c.ts, c.ap) && HasMember(lines, netgroup, q)
    ensures IsGroup(c, netgroup, g) && |c.names| == |c.ap|
  {
    hide EntriesOf, HasMember, Codes;
    if forall i :: 0 <= i < |lines| ==> lines[i].name != netgroup {
      UnknownName(lines, netgroup, q);
      assert false;
    }
    var i :| 0 <= i < |lines| && lines[i].name == netgroup;
    assert netgroup in c.names && LineNamed(lines[i]);
    g :| 0 <= g < |c.names| && c.names[g] == netgroup;
  }

  // ----- listing a netgroup

  // t, as stored, is a triple of a netgroup included.
  ghost predicate Gives(lines: seq<Line>, netgroup: seq<byte>, t: Triple) {
    exists n: seq<byte>, t0: Triple :: GivenIn(lines, netgroup, n, t0, t)
  }

  ghost predicate GivenIn(lines: seq<Line>, netgroup: seq<byte>, n: seq<byte>, t0: Triple, t: Triple) {
    Includes(lines, netgroup, n) && Rule(t0) in EntriesOf(lines, n) && Folded(t0) == t
  }

  predicate AllRules(es: seq<Entry>) {
    forall k :: 0 <= k < |es| ==> es[k].Rule?
  }

  function RulesOf(es: seq<Entry>): seq<Triple>
    requires AllRules(es)
  {
    seq(|es|, k requires 0 <= k < |es| => Folded(es[k].t))
  }

  // What a listing of the netgroup must be: its own triples, in order, when it has no subgroup, and
  // otherwise every triple included exactly once
  ghost predicate IsListing(lines: seq<Line>, netgroup: seq<byte>, ts: seq<Triple>) {
    && (forall t :: t in ts <==> Gives(lines, netgroup, t))
    && if AllRules(EntriesOf(lines, netgroup)) then ts == RulesOf(EntriesOf(lines, netgroup)) else Distinct(ts)
  }

  lemma ListedGiven(lines: seq<Line>, c: Compiled, g: nat, t: Triple)
    requires NumberedForm(lines, c.names, c.ts, c.ap) && c.Valid() && 0 < g < |c.names|
    ensures t in Picked(c.ts, c.outs[g]) <==> Gives(lines, c.names[g], t)
  {
    hide NumberedForm, EntriesOf, Includes, InReach, Distinct, NetRecs;
    var ids := c.outs[g];
    assert InList(ids, |c.ts|) && Flattened(c.ap, g, ids) && |c.names| == |c.ap|;
    if t in Picked(c.ts, ids) {
      var k :| 0 <= k < |ids| && Picked(c.ts, ids)[k] == t;
      FlattenedMembers(c.ap, g, ids, ids[k]);
      var n, t0 := RuleNamed(lines, c.names, c.ts, c.ap, g, ids[k]);
      assert GivenIn(lines, c.names[g], n, t0, t);
    }
    if n: seq<byte>, t0: Triple :| GivenIn(lines, c.names[g], n, t0, t) {
      var e := RuleNumbered(lines, c.names, c.ts, c.ap, g, n, t0);
      FlattenedMembers(c.ap, g, ids, e);
      var k :| 0 <= k < |ids| && ids[k] == e;
      assert Picked(c.ts, ids)[k] == t;
    }
  }

  // Plain groups are netgroups without subgroups, and their numbers those of their triples.
  lemma PlainIsRules(lines: seq<Line>, c: Compiled, g: nat)
    requires NumberedForm(lines, c.names, c.ts, c.ap) && g < |c.ap| && |c.names| == |c.ap|
    ensures Plain(c.ap[g]) <==> AllRules(EntriesOf(lines, c.names[g]))
    ensures Plain(c.ap[g]) && InList(c.ap[g], |c.ts|) ==> Picked(c.ts, c.ap[g]) == RulesOf(EntriesOf(lines, c.names[g]))
  {
    hide NumberedForm, EntriesOf, Represents;
    var xs, es := c.ap[g], EntriesOf(lines, c.names[g]);
    forall k | 0 <= k < |xs| || 0 <= k < |es|
      ensures k < |xs| == |es| && CodeIs(xs[k], es[k], c.names, c.ts)
    {
      EntryAt(lines, c.names, c.ts, c.ap, g, k);
    }
    if xs != [] || es != [] {
      EntryAt(lines, c.names, c.ts, c.ap, g, 0);
    }
    if Plain(xs) && InList(xs, |c.ts|) {
      forall k | 0 <= k < |xs|
        ensures k < |es| && Picked(c.ts, xs)[k] == RulesOf(es)[k]
      {
        EntryAt(lines, c.names, c.ts, c.ap, g, k);
      }
      assert Picked(c.ts, xs) == RulesOf(es);
    }
  }

  lemma NoRules()
    ensures AllRules([]) && RulesOf([]) == []
  {
  }

  lemma PickedDistinct<T>(xs: seq<T>, ids: seq<int>)
    requires Distinct(xs) && Distinct(ids) && forall k :: 0 <= k < |ids| ==> 0 <= ids[k] < |xs|
    ensures Distinct(Picked(xs, ids))
  {
  }

  // A name without lines gives nothing.
  lemma NothingGiven(lines: seq<Line>, netgroup: seq<byte>, t: Triple)
    requires forall i :: 0 <= i < |lines| ==> lines[i].name != netgroup
    ensures EntriesOf(lines, netgroup) == [] && !Gives(lines, netgroup, t)
  {
    hide EntriesOf;
    NoEntries(lines, netgroup);
    if n: seq<byte>, t0: Triple :| GivenIn(lines, netgroup, n, t0, t) {
      var p: seq<seq<byte>> :| NamePath(lines, p, netgroup, n);
      FirstStep(lines, p, netgroup, n);
    }
  }

  lemma ListMeaning(lines: seq<Line>, c: Compiled, netgroup: seq<byte>, ts: seq<Triple>)
    requires NumberedForm(lines, c.names, c.ts, c.ap) && c.Valid() && Distinct(c.ts) && ListOf(c, netgroup, ts)
    ensures IsListing(lines, netgroup, ts)
  {
    hide Gives, EntriesOf, Codes, AllRules, WellFormed, NetRecs;
    if g: nat :| IsGroup(c, netgroup, g) {
      forall t
        ensures t in ts <==> Gives(lines, netgroup, t)
      {
        ListedGiven(lines, c, g, t);
      }
      PlainIsRules(lines, c, g);
      assert InList(c.outs[g], |c.ts|) && Flattened(c.ap, g, c.outs[g]);
      if !Plain(c.ap[g]) {
        PickedDistinct(c.ts, c.outs[g]);
      }
    } else {
      forall i | 0 <= i < |lines|
        ensures lines[i].name != netgroup
      {
        NameHasGroup(lines, c, i);
      }
      NoEntries(lines, netgroup);
      NoRules();
      forall t
        ensures !Gives(lines, netgroup, t)
      {
        NothingGiven(lines, netgroup, t);
      }
    }
  }

  lemma NameHasGroup(lines: seq<Line>, c: Compiled, i: nat)
    requires NumberedForm(lines, c.names, c.ts, c.ap) && i < |lines|
    ensures exists g: nat :: IsGroup(c, lines[i].name, g)
  {
    hide EntriesOf, Codes;
    assert lines[i].name in c.names && LineNamed(lines[i]);
    var g: nat :| g < |c.names| && c.names[g] == lines[i].name;
    assert IsGroup(c, lines[i].name, g);
  }

  // The grammar has no NUL in a triple either.
  predicate TriplesNamed(lines: seq<Line>) {
    forall i, k :: 0 <= i < |lines| && 0 <= k < |lines[i].entries| && lines[i].entries[k].Rule? ==>
      NoNul([lines[i].entries[k].t])
  }

  lemma {:induction false} EntryFromLine(lines: seq<Line>, name: seq<byte>, e: Entry) returns (i: nat, k: nat)
    requires e in EntriesOf(lines, name)
    ensures i < |lines| && k < |lines[i].entries| && lines[i].name == name && lines[i].entries[k] == e
  {
    var last := |lines| - 1;
    if e in EntriesOf(lines[..last], name) {
      i, k := EntryFromLine(lines[..last], name, e);
    } else {
      i := last;
      k :| 0 <= k < |lines[last].entries| && lines[last].entries[k] == e;
    }
  }

  lemma ListingNamed(lines: seq<Line>, netgroup: seq<byte>, ts: seq<Triple>)
    requires TriplesNamed(lines) && IsListing(lines, netgroup, ts)
    ensures NoNul(ts)
  {
    hide EntriesOf, Includes, AllRules, RulesOf;
    forall j | 0 <= j < |ts|
      ensures 0 !in ts[j].host && 0 !in ts[j].user && 0 !in ts[j].domain
    {
      assert Gives(lines, netgroup, ts[j]);
      var n: seq<byte>, t0: Triple :| GivenIn(lines, netgroup, n, t0, ts[j]);
      var i, k := EntryFromLine(lines, n, Rule(t0));
      assert NoNul([t0]);
      assert 0 !in [t0][0].host;
    }
  }

  lemma {:induction false} EntryOfLine(lines: seq<Line>, i: nat, k: nat)
    requires i < |lines| && k < |lines[i].entries|
    ensures lines[i].entries[k] in EntriesOf(lines, lines[i].name)
  {
    var n := |lines| - 1;
    if i < n {
      EntryOfLine(lines[..n], i, k);
    }
  }

  // ----- what a query asks

  // A string that a query leaves out, or an empty one on either side, does not matter; the others
  // must agree.
  predicate HostAgrees(q: Option<seq<byte>>, s: seq<byte>) {
    q == None || q == Some([]) || s == [] || SameButCase(q.value, s)
  }

  predicate UserAgrees(q: Option<seq<byte>>, s: seq<byte>) {
    q == None || q == Some([]) || s == [] || q.value == s
  }

  // Hosts and domains are compared without regard to case, user names with it.
  lemma MemberIs(q: Query, t: Triple)
    ensures Member(q, Folded(t)) <==>
      HostAgrees(q.host, t.host) && UserAgrees(q.user, t.user) && HostAgrees(q.domain, t.domain)
  {
    hide SameButCase, Lower;
    LowerSame(Given(q.host), t.host);
    LowerSame(Given(q.domain), t.domain);
    LowerNone(Given(q.host));
    LowerNone(Given(q.domain));
  }

  lemma LowerNone(s: seq<byte>)
    ensures Lower(s) == [] <==> s == []
  {
  }

  // A triple of the netgroup, or of one included, answers a query for it in letters of either case.
  lemma GivenMatches(lines: seq<Line>, netgroup: seq<byte>, i: nat, k: nat, t: Triple, q: Query)
    requires i < |lines| && k < |lines[i].entries| && lines[i].entries[k] == Rule(t)
    requires Includes(lines, netgroup, lines[i].name)
    requires HostAgrees(q.host, t.host) && UserAgrees(q.user, t.user) && HostAgrees(q.domain, t.domain)
    ensures HasMember(lines, netgroup, q)
  {
    hide EntriesOf, Includes, Member, HostAgrees, UserAgrees;
    EntryOfLine(lines, i, k);
    MemberIs(q, t);
    assert MemberIn(lines, netgroup, lines[i].name, t, q);
  }

  // A netgroup includes itself, and what it includes includes its subgroups.
  lemma IncludesSubgroup(lines: seq<Line>, a: seq<byte>, i: nat, k: nat, b: seq<byte>)
    requires i < |lines| && k < |lines[i].entries| && lines[i].entries[k] == Subgroup(b)
    requires Includes(lines, a, lines[i].name)
    ensures Includes(lines, a, a) && Includes(lines, a, b)
  {
    hide EntriesOf;
    EntryOfLine(lines, i, k);
    assert NamePath(lines, [a], a, a);
    var p: seq<seq<byte>> :| NamePath(lines, p, a, lines[i].name);
    assert NamePath(lines, p + [b], a, b);
  }

  // Asked for nothing in particular, a netgroup has a member exactly when it is given a triple.
  lemma AskedForAnything(lines: seq<Line>, netgroup: seq<byte>)
    ensures HasMember(lines, netgroup, Query(None, None, None)) <==> exists t :: Gives(lines, netgroup, t)
  {
    hide EntriesOf, Includes;
    var q := Query(None, None, None);
    if n: seq<byte>, t: Triple :| MemberIn(lines, netgroup, n, t, q) {
      assert GivenIn(lines, netgroup, n, t, Folded(t));
      assert Gives(lines, netgroup, Folded(t));
    }
    if t: Triple :| Gives(lines, netgroup, t) {
      var n: seq<byte>, t0: Triple :| GivenIn(lines, netgroup, n, t0, t);
      MemberIs(q, t0);
      assert MemberIn(lines, netgroup, n, t0, q);
    }
  }
}
