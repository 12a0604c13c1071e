// mcdbctl.c: the commands that read a database, and uniq, which rewrites one.
module Ctl {
  import opened Bytes
  import opened Parts
  import opened ProbeTable
  import opened Layout
  import opened Search
  import opened Reader
  import opened Walks
  import opened Make
  import opened Limits

  datatype Status = EXIT_SUCCESS | EXIT_FAILURE | READFORMAT | WRITE

  // ----- positions

  lemma {:induction false} PosIncreases(recs: seq<Rec>, i: nat, j: nat)
    requires i < j <= |recs|
    ensures Pos(recs, i) + 8 + |recs[i].key| <= Pos(recs, j)
    decreases j
  {
    hide Flat, RecBytes;
    PosNext(recs, j - 1);
    RecSize(recs[j - 1]);
    if i < j - 1 {
      PosIncreases(recs, i, j - 1);
    }
  }

  lemma RecSize(r: Rec)
    ensures |RecBytes(r)| == 8 + |r.key| + |r.data|
  {
  }

  // A data position names its record.
  lemma DataPosInjective(recs: seq<Rec>, i: nat, j: nat)
    requires i < |recs| && j < |recs| && recs[i].key == recs[j].key
    requires Pos(recs, i) + 8 + |recs[i].key| == Pos(recs, j) + 8 + |recs[j].key|
    ensures i == j
  {
    hide Pos;
    if i < j {
      PosIncreases(recs, i, j);
    } else if j < i {
      PosIncreases(recs, j, i);
    }
  }

  // mcdb_find
  method Find(m: Mcdb, key: seq<byte>, ghost recs: seq<Rec>) returns (r: bool)
    requires m.mm.Holds(recs)
    modifies m
    ensures r <==> Matches(recs, key) != []
    ensures r ==> m.Cursor(recs, key) && 0 < m.loop && m.AtRecord(recs, Matches(recs, key)[0])
    ensures r ==> m.Left(recs, key) == Matches(recs, key)[1..]
  {
    hide Matches, McdbMmap.Holds, Mcdb.Cursor, Mcdb.Left, Mcdb.AtRecord;
    r := m.FindTagStart(key, 0, recs);
    if r {
      r := m.FindTagNext(key, 0, recs);
    }
  }

  // mcdbctl_getall: the data of every match, in placement order
  method GetAll(m: Mcdb, key: seq<byte>, ghost recs: seq<Rec>) returns (rv: Status, out: seq<seq<byte>>)
    requires m.mm.Holds(recs)
    modifies m
    ensures rv == EXIT_FAILURE <==> Matches(recs, key) == []
    ensures out == Datas(recs, Matches(recs, key))
  {
    hide Matches, McdbMmap.Holds, Mcdb.Cursor, Mcdb.Left, InCell, Datas, Pos;
    NoDatas(recs);
    out := [];
    ghost var hits := Matches(recs, key);
    var r := Find(m, key, recs);
    if !r {
      return EXIT_FAILURE, [];
    }
    ghost var n := 1;
    while true
      invariant 1 <= n <= |hits| && m.Cursor(recs, key) && m.Left(recs, key) == hits[n..]
      invariant m.AtRecord(recs, hits[n - 1]) && out == Datas(recs, hits[..n - 1])
      decreases |hits| - n
    {
      DatasMore(recs, hits, n - 1);
      out := out + [m.mm.ptr[m.dpos..m.dpos + m.dlen]];
      r := m.FindTagNext(key, 0, recs);
      if !r {
        assert hits[..n] == hits;
        break;
      }
      assert hits[n..][1..] == hits[n + 1..];
      n := n + 1;
    }
    return EXIT_SUCCESS, out;
  }

  ghost function Datas(recs: seq<Rec>, idx: seq<nat>): seq<seq<byte>>
    requires forall j :: 0 <= j < |idx| ==> idx[j] < |recs|
  {
    seq(|idx|, j requires 0 <= j < |idx| => recs[idx[j]].data)
  }

  lemma NoDatas(recs: seq<Rec>)
    ensures Datas(recs, []) == []
  {
  }

  lemma DatasMore(recs: seq<Rec>, idx: seq<nat>, n: nat)
    requires n < |idx| && forall j :: 0 <= j < |idx| ==> idx[j] < |recs|
    ensures Datas(recs, idx[..n + 1]) == Datas(recs, idx[..n]) + [recs[idx[n]].data]
  {
  }

  // How many of the searches are counted in bucket d: those that visit d + 1 cells, and in bucket 10
  // those that visit more than ten
  ghost function Counted(tries: seq<nat>, d: nat): nat {
    |set i | 0 <= i < |tries| && if d < 10 then tries[i] == d + 1 else tries[i] > 10|
  }

  lemma CountedMore(tries: seq<nat>, t: nat, d: nat)
    ensures Counted(tries + [t], d) == Counted(tries, d) + if (if d < 10 then t == d + 1 else t > 10) then 1 else 0
  {
    var more := tries + [t];
    var was := set i | 0 <= i < |tries| && if d < 10 then tries[i] == d + 1 else tries[i] > 10;
    var now := set i | 0 <= i < |more| && if d < 10 then more[i] == d + 1 else more[i] > 10;
    assert now == was + if (if d < 10 then t == d + 1 else t > 10) then {|tries|} else {};
  }

  // The search for record i by its key visits t cells: the record lies in the last of them.
  ghost predicate FoundAfter(recs: seq<Rec>, i: nat, t: nat) {
    i < |recs| && 0 < t && InCell(recs, recs[i].key, t - 1, i)
  }

  // mcdbctl_stats on a produced file: every record is found by its key at its own position, and is
  // counted by the number of cells visited.
  method Stats(mm: McdbMmap, ghost recs: seq<Rec>) returns (rv: Status, nrec: nat, numd: seq<nat>, ghost tries: seq<nat>)
    requires mm.Holds(recs)
    modifies mm
    ensures rv == EXIT_SUCCESS && nrec == |recs| == |tries|
    ensures forall i :: 0 <= i < |recs| ==> FoundAfter(recs, i, tries[i])
    ensures Histogram(numd, tries)
  {
    hide IsImage, Storable, Matches, SlotsChained, Histogram, FoundAfter, McdbIter.AtRecord, Data, Pos, Base;
    Accepted(mm, recs);
    rv, nrec, numd, tries := READFORMAT, 0, seq(11, _ => 0), [];
    NoneCounted();
    var ok := ValidateSlots(mm);
    if !ok {
      return;
    }
    var m := new Mcdb(mm);
    var iter := new McdbIter(mm, recs);
    while true
      invariant rv == READFORMAT && nrec <= |recs| && iter.Next(recs, nrec) && iter.mm == m.mm == mm
      invariant fresh(iter) && fresh(m) && nrec == |tries| && Histogram(numd, tries)
      invariant forall i :: 0 <= i < nrec ==> FoundAfter(recs, i, tries[i])
      decreases |recs| - nrec
    {
      var more := iter.Advance(recs, nrec);
      if !more {
        break;
      }
      var found;
      found, numd := TryRecord(m, iter, numd, recs, nrec, tries);
      if !found {
        return;
      }
      tries := tries + [m.loop];
      nrec := nrec + 1;
    }
    rv := EXIT_SUCCESS;
  }

  // Search for the record that the iteration is at, and count the search.
  method TryRecord(m: Mcdb, iter: McdbIter, was: seq<nat>, ghost recs: seq<Rec>, ghost i: nat, ghost tries: seq<nat>)
    returns (found: bool, numd: seq<nat>)
    requires iter.mm == m.mm && m.mm.Holds(recs) && iter.AtRecord(recs, i) && Histogram(was, tries)
    modifies m
    ensures found && FoundAfter(recs, i, m.loop) && Histogram(numd, tries + [m.loop])
  {
    hide McdbMmap.Holds, Histogram, FoundAfter;
    numd := was;
    var key := iter.KeyPtr(recs, i);
    found := FindAt(m, key, iter.ptr - iter.dlen, recs, i);
    if !found {
      return;
    }
    numd := AddTry(was, m.loop, tries);
  }

  // The buckets count the searches made so far.
  ghost predicate Histogram(numd: seq<nat>, tries: seq<nat>) {
    |numd| == 11 && Total(numd) == |tries| && forall d :: 0 <= d < 11 ==> numd[d] == Counted(tries, d)
  }

  method AddTry(was: seq<nat>, loop: nat, ghost tries: seq<nat>) returns (numd: seq<nat>)
    requires 0 < loop && Histogram(was, tries)
    ensures Histogram(numd, tries + [loop])
  {
    hide Total, Counted;
    var d: nat := if loop < 11 then loop - 1 else 10;
    TotalAddOne(was, d);
    numd := was[d := was[d] + 1];
    forall c | 0 <= c < 11
      ensures numd[c] == Counted(tries + [loop], c)
    {
      CountedMore(tries, loop, c);
    }
  }

  lemma NoneCounted()
    ensures Histogram(seq(11, _ => 0), [])
  {
    TotalBounded(seq(11, _ => 0), 0);
  }

  lemma Accepted(mm: McdbMmap, recs: seq<Rec>)
    requires mm.Holds(recs)
    ensures SlotsChained(mm.ptr, mm.b) && |mm.ptr| < 0x8000_0000_0000_0000
  {
    hide IsImage, Storable, SlotsChained;
    ProducedIsAccepted(mm.ptr, recs);
  }

  // The inner loop of stats: findnext until the match is the record at dpos.
  method FindAt(m: Mcdb, key: seq<byte>, dpos: nat, ghost recs: seq<Rec>, ghost i: nat) returns (rc: bool)
    requires m.mm.Holds(recs) && i < |recs| && recs[i].key == key
    requires dpos == Pos(recs, i) + 8 + |key|
    modifies m
    ensures rc && FoundAfter(recs, i, m.loop) && m.loop > 0 && m.AtRecord(recs, i)
  {
    hide Matches, McdbMmap.Holds, Mcdb.Cursor, Mcdb.Left, Pos, InCell;
    MatchesAreTheRecords(recs, key);
    ghost var hits := Matches(recs, key);
    ghost var n :| 0 <= n < |hits| && hits[n] == i;
    rc := m.FindTagStart(key, 0, recs);
    if !rc {
      return;
    }
    ghost var d := 0;
    while true
      invariant d <= n && m.Cursor(recs, key) && m.Left(recs, key) == hits[d..]
      decreases |hits| - d
    {
      rc := m.FindTagNext(key, 0, recs);
      assert hits[d..][0] == hits[d] && hits[d..][1..] == hits[d + 1..];
      if rc && m.dpos != dpos {
        d := d + 1;
      } else {
        assert hits[d] in hits;
        DataPosInjective(recs, hits[d], i);
        break;
      }
    }
  }

  // ----- uniq

  ghost predicate UniqueKeys(recs: seq<Rec>) {
    forall i, j :: 0 <= i < j < |recs| ==> recs[i].key != recs[j].key
  }

  datatype Uniqueness = Unique | Duplicates | Unreadable

  // mcdbctl_has_unique_keys on a produced file
  method HasUniqueKeys(mm: McdbMmap, ghost recs: seq<Rec>) returns (r: Uniqueness)
    requires mm.Holds(recs)
    modifies mm
    ensures r == if UniqueKeys(recs) then Unique else Duplicates
  {
    hide IsImage, Storable, Matches, SlotsChained, Pos, UniqueKeys;
    Accepted(mm, recs);
    r := Unreadable;
    var ok := ValidateSlots(mm);
    if !ok {
      return;
    }
    var m := new Mcdb(mm);
    var iter := new McdbIter(mm, recs);
    ghost var i := 0;
    assert UniqueKeys(recs[..0]) by { NoKeys(recs[..0]); }
    while true
      invariant i <= |recs| && iter.Next(recs, i) && iter.mm == m.mm == mm && fresh(iter) && fresh(m)
      invariant UniqueKeys(recs[..i])
      decreases |recs| - i
    {
      var more := iter.Advance(recs, i);
      if !more {
        break;
      }
      var key := iter.KeyPtr(recs, i);
      r := KeyOnce(m, key, recs);
      NextKey(recs, i);
      if r != Unique {
        return;
      }
      i := i + 1;
    }
    assert recs[..i] == recs;
    r := Unique;
  }

  lemma NoKeys(recs: seq<Rec>)
    requires recs == []
    ensures UniqueKeys(recs)
  {
  }

  // find, then findnext: how often the key occurs
  method KeyOnce(m: Mcdb, key: seq<byte>, ghost recs: seq<Rec>) returns (r: Uniqueness)
    requires m.mm.Holds(recs)
    modifies m
    ensures var n := |Matches(recs, key)|;
      r == if n == 0 then Unreadable else if n == 1 then Unique else Duplicates
  {
    hide Matches, McdbMmap.Holds, Mcdb.Cursor, Mcdb.Left, Mcdb.AtRecord;
    var found := Find(m, key, recs);
    if !found {
      return Unreadable;
    }
    var again := m.FindTagNext(key, 0, recs);
    return if again then Duplicates else Unique;
  }

  lemma NextKey(recs: seq<Rec>, i: nat)
    requires i < |recs| && UniqueKeys(recs[..i])
    ensures var n := |Matches(recs, recs[i].key)|;
      && n != 0
      && (n == 1 ==> UniqueKeys(recs[..i + 1]))
      && (n >= 2 ==> !UniqueKeys(recs))
  {
    hide Matches, UniqueKeys;
    MatchesAreTheRecords(recs, recs[i].key);
    assert i in Matches(recs, recs[i].key);
    if |Matches(recs, recs[i].key)| == 1 {
      OneMatch(recs, i);
    } else {
      TwoMatches(recs, recs[i].key);
    }
  }

  lemma TwoMatches(recs: seq<Rec>, k: seq<byte>)
    requires |Matches(recs, k)| >= 2
    ensures !UniqueKeys(recs)
  {
    hide Matches;
    MatchesAreTheRecords(recs, k);
    var a, b := Matches(recs, k)[0], Matches(recs, k)[1];
    assert a in Matches(recs, k) && b in Matches(recs, k);
    assert a < b || b < a;
  }

  lemma OneMatch(recs: seq<Rec>, i: nat)
    requires i < |recs| && |Matches(recs, recs[i].key)| == 1
    requires UniqueKeys(recs[..i])
    ensures UniqueKeys(recs[..i + 1])
  {
    hide Matches;
    var hits := Matches(recs, recs[i].key);
    MatchesAreTheRecords(recs, recs[i].key);
    forall j | 0 <= j < i
      ensures recs[j].key != recs[i].key
    {
      assert i in hits && hits == [hits[0]];
    }
  }

  // Record i is the one a lookup of its key returns first.
  ghost predicate Leads(recs: seq<Rec>, i: nat)
    requires i < |recs|
  {
    var hits := Matches(recs, recs[i].key);
    hits != [] && hits[0] == i
  }

  // The record that uniq writes for record i: its key with the data of the first or last match
  ghost function KeptRec(recs: seq<Rec>, first: bool, i: nat): Rec
    requires i < |recs| && Leads(recs, i)
  {
    var hits := Matches(recs, recs[i].key);
    Record(recs[i].key, recs[if first then hits[0] else hits[|hits| - 1]].data)
  }

  // What uniq writes for the first n records
  ghost function Kept(recs: seq<Rec>, first: bool, n: nat): (out: seq<Rec>)
    requires n <= |recs|
    ensures |out| <= n
  {
    hide Leads, KeptRec;
    if n == 0 then []
    else Kept(recs, first, n - 1) + if Leads(recs, n - 1) then [KeptRec(recs, first, n - 1)] else []
  }

  lemma {:induction false} KeptMembers(recs: seq<Rec>, first: bool, n: nat)
    requires n <= |recs|
    ensures forall r: Rec :: r in Kept(recs, first, n) <==>
      exists i :: 0 <= i < n && Leads(recs, i) && r == KeptRec(recs, first, i)
    ensures UniqueKeys(Kept(recs, first, n))
  {
    hide Leads, KeptRec;
    if n > 0 {
      KeptMembers(recs, first, n - 1);
      var was := Kept(recs, first, n - 1);
      if Leads(recs, n - 1) {
        forall j | 0 <= j < |was|
          ensures was[j].key != recs[n - 1].key
        {
          assert was[j] in was;
          var i :| 0 <= i < n - 1 && Leads(recs, i) && was[j] == KeptRec(recs, first, i);
          LeadsOnce(recs, first, i, n - 1);
        }
        LeadsOnce(recs, first, n - 1, n - 1);
      }
    }
  }

  // The records kept are in the order of the records that lead.
  lemma {:induction false} KeptInOrder(recs: seq<Rec>, first: bool, n: nat) returns (leads: seq<nat>)
    requires n <= |recs|
    ensures |leads| == |Kept(recs, first, n)| && Ascending(leads)
    ensures forall k :: 0 <= k < |leads| ==>
      && leads[k] < n && Kept(recs, first, n)[k].key == recs[leads[k]].key
      && Matches(recs, recs[leads[k]].key) != [] && Matches(recs, recs[leads[k]].key)[0] == leads[k]
  {
    hide Matches;
    leads := [];
    if n > 0 {
      leads := KeptInOrder(recs, first, n - 1);
      if Leads(recs, n - 1) {
        leads := leads + [n - 1];
      }
    }
  }

  lemma LeadsOnce(recs: seq<Rec>, first: bool, i: nat, j: nat)
    requires i < |recs| && j < |recs| && Leads(recs, i) && Leads(recs, j)
    ensures KeptRec(recs, first, i).key == recs[i].key
    ensures recs[i].key == recs[j].key ==> i == j
  {
    hide Matches;
  }

  ghost predicate HasKey(recs: seq<Rec>, k: seq<byte>) {
    exists j :: 0 <= j < |recs| && recs[j].key == k
  }

  // uniq keeps every key, once, with the value that findstart/findnext return first (or last).
  lemma UniqMeaning(recs: seq<Rec>, first: bool)
    ensures UniqueKeys(Kept(recs, first, |recs|))
    ensures forall r: Rec :: r in Kept(recs, first, |recs|) ==>
      var hits := Matches(recs, r.key);
      hits != [] && r.data == recs[if first then hits[0] else hits[|hits| - 1]].data
    ensures forall i :: 0 <= i < |recs| ==> HasKey(Kept(recs, first, |recs|), recs[i].key)
  {
    hide Matches, Kept, UniqueKeys;
    KeptMembers(recs, first, |recs|);
    forall r: Rec | r in Kept(recs, first, |recs|)
      ensures var hits := Matches(recs, r.key);
        hits != [] && r.data == recs[if first then hits[0] else hits[|hits| - 1]].data
    {
      var i :| 0 <= i < |recs| && Leads(recs, i) && r == KeptRec(recs, first, i);
    }
    forall i | 0 <= i < |recs|
      ensures HasKey(Kept(recs, first, |recs|), recs[i].key)
    {
      KeyKept(recs, first, i);
    }
  }

  lemma KeyKept(recs: seq<Rec>, first: bool, i: nat)
    requires i < |recs|
    ensures HasKey(Kept(recs, first, |recs|), recs[i].key)
  {
    hide Matches, Kept, UniqueKeys;
    KeptMembers(recs, first, |recs|);
    MatchesAreTheRecords(recs, recs[i].key);
    var hits := Matches(recs, recs[i].key);
    assert i in hits && hits[0] in hits;
    assert Leads(recs, hits[0]);
    assert KeptRec(recs, first, hits[0]) in Kept(recs, first, |recs|);
  }

  // Number of the record whose data is kept for record i: the first or last match
  ghost function KeptFrom(recs: seq<Rec>, first: bool, i: nat): (j: nat)
    requires i < |recs| && Leads(recs, i)
    ensures j < |recs|
  {
    hide Matches;
    var hits := Matches(recs, recs[i].key);
    if first then hits[0] else hits[|hits| - 1]
  }

  lemma KeptWhole(recs: seq<Rec>, first: bool, i: nat)
    requires i < |recs| && Leads(recs, i)
    ensures recs[KeptFrom(recs, first, i)] == KeptRec(recs, first, i)
  {
    hide Matches;
    var hits := Matches(recs, recs[i].key);
    MatchesAreTheRecords(recs, recs[i].key);
    assert hits[0] in hits && hits[|hits| - 1] in hits;
  }

  lemma {:induction false} KeptPicked(recs: seq<Rec>, first: bool, n: nat) returns (ids: seq<int>)
    requires n <= |recs|
    ensures |ids| == |Kept(recs, first, n)|
    ensures forall k :: 0 <= k < |ids| ==> 0 <= ids[k] < |recs| && Kept(recs, first, n)[k] == recs[ids[k]]
  {
    hide Leads, KeptFrom, KeptRec, Matches, Kept;
    if n == 0 {
      KeptNone(recs, first);
      ids := [];
    } else {
      ids := KeptPicked(recs, first, n - 1);
      KeptNext(recs, first, n - 1);
      if Leads(recs, n - 1) {
        KeptWhole(recs, first, n - 1);
        ids := ids + [KeptFrom(recs, first, n - 1)];
      }
    }
  }

  // uniq writes no more than it reads.
  lemma KeptFinishable(recs: seq<Rec>, first: bool)
    requires Finishable(recs)
    ensures Finishable(Kept(recs, first, |recs|))
  {
    hide Kept, Finishable;
    var out := Kept(recs, first, |recs|);
    var ids := KeptPicked(recs, first, |recs|);
    KeptMembers(recs, first, |recs|);
    forall i, j | 0 <= i < j < |ids|
      ensures ids[i] != ids[j]
    {
      assert out[i] == recs[ids[i]] && out[j] == recs[ids[j]] && out[i].key != out[j].key;
    }
    PickedFinishable(recs, ids, out);
  }

  // mcdbctl_make_unique_keys on a produced file; mk is a started writer.
  method MakeUniqueKeys(mm: McdbMmap, mk: McdbMake, first: bool, ghost recs: seq<Rec>) returns (rv: Status)
    requires mm.Holds(recs) && mk.Idle() && mk.recs == []
    requires Finishable(recs)
    modifies mm, mk, mk.lists, mk.lists.Repr
    ensures rv == EXIT_SUCCESS && mk.file == Image(Kept(recs, first, |recs|))
  {
    hide McdbMmap.Holds, McdbMake.Idle, McdbIter.Next, McdbIter.AtRecord, Finishable, Image, Kept, SlotsChained;
    Accepted(mm, recs);
    KeptFinishable(recs, first);
    rv := READFORMAT;
    var ok := ValidateSlots(mm);
    if !ok {
      return;
    }
    var m := new Mcdb(mm);
    var iter := new McdbIter(mm, recs);
    ghost var i := 0;
    assert Kept(recs, first, 0) == [] by { KeptNone(recs, first); }
    while true
      invariant i <= |recs| && iter.Next(recs, i) && iter.mm == m.mm == mm && fresh(iter) && fresh(m)
      invariant mk.Idle() && mk.recs == Kept(recs, first, i) && fresh(mk.lists.Repr - old(mk.lists.Repr))
      invariant rv == READFORMAT
      decreases |recs| - i
    {
      var more := iter.Advance(recs, i);
      if !more {
        break;
      }
      rv := UniqOne(m, iter, mk, first, recs, i);
      if rv != EXIT_SUCCESS {
        return;
      }
      rv := READFORMAT;
      i := i + 1;
    }
    HeldCount(mm, recs);
    var code, freed := mk.Finish();
    rv := if code == OK then EXIT_SUCCESS else WRITE;
  }

  lemma KeptNone(recs: seq<Rec>, first: bool)
    ensures Kept(recs, first, 0) == []
  {
  }

  lemma KeptNext(recs: seq<Rec>, first: bool, i: nat)
    requires i < |recs|
    ensures Kept(recs, first, i + 1) == Kept(recs, first, i) + if Leads(recs, i) then [KeptRec(recs, first, i)] else []
  {
    hide Leads, KeptRec;
  }

  lemma HeldCount(mm: McdbMmap, recs: seq<Rec>)
    requires mm.Holds(recs)
    ensures |recs| <= INT_MAX
  {
    hide IsImage, Storable;
    StorableCount(recs);
  }

  // The body of the loop: the iterator is at record i.
  method UniqOne(m: Mcdb, iter: McdbIter, mk: McdbMake, first: bool, ghost recs: seq<Rec>, ghost i: nat)
    returns (rv: Status)
    requires m.mm.Holds(recs) && iter.mm == m.mm && iter.AtRecord(recs, i)
    requires mk.Idle() && mk.recs == Kept(recs, first, i)
    modifies m, mk, mk.lists, mk.lists.Repr
    ensures rv == EXIT_SUCCESS && mk.Idle() && mk.recs == Kept(recs, first, i + 1)
    ensures fresh(mk.lists.Repr - old(mk.lists.Repr))
  {
    hide McdbMmap.Holds, McdbMake.Idle, Kept, Pos, Matches;
    var key := iter.KeyPtr(recs, i);
    var data := iter.mm.ptr[iter.ptr - iter.dlen..iter.ptr];
    var dpos := iter.ptr - iter.dlen;
    KeptNext(recs, first, i);
    HeldCount(m.mm, recs);
    var found, lead, last := Lookup(m, key, dpos, first, recs, i);
    if !found {
      return READFORMAT;
    }
    if lead {
      var code := mk.Add(key, if first then data else last);
      if code != OK {
        return WRITE;
      }
    }
    return EXIT_SUCCESS;
  }

  // find; is the first match the record at dpos; and then, unless only the first is wanted, the
  // data of the last match.
  method Lookup(m: Mcdb, key: seq<byte>, dpos: nat, first: bool, ghost recs: seq<Rec>, ghost i: nat)
    returns (found: bool, lead: bool, last: seq<byte>)
    requires m.mm.Holds(recs) && i < |recs| && recs[i].key == key && dpos == Pos(recs, i) + 8 + |key|
    modifies m
    ensures found && (lead <==> Leads(recs, i))
    ensures lead && !first ==> last == KeptRec(recs, first, i).data
    ensures lead && first ==> KeptRec(recs, first, i).data == recs[i].data
  {
    hide McdbMmap.Holds, Mcdb.Cursor, Mcdb.Left, Pos, Matches;
    ghost var hits := Matches(recs, key);
    MatchesAreTheRecords(recs, key);
    assert i in hits;
    last := [];
    found := Find(m, key, recs);
    lead := found && m.dpos == dpos;
    assert hits[0] in hits;
    if lead {
      DataPosInjective(recs, hits[0], i);
      if !first {
        last := LastMatch(m, key, recs);
      }
    }
  }

  // while findnext: keep the data of the last match
  method LastMatch(m: Mcdb, key: seq<byte>, ghost recs: seq<Rec>) returns (data: seq<byte>)
    requires var hits := Matches(recs, key);
      hits != [] && m.Cursor(recs, key) && m.AtRecord(recs, hits[0]) && m.Left(recs, key) == hits[1..]
    modifies m
    ensures data == recs[Matches(recs, key)[|Matches(recs, key)| - 1]].data
  {
    hide Mcdb.Cursor, Mcdb.Left, Matches;
    ghost var hits := Matches(recs, key);
    ghost var n := 1;
    data := m.mm.ptr[m.dpos..m.dpos + m.dlen];
    while true
      invariant 1 <= n <= |hits| && m.Cursor(recs, key) && m.Left(recs, key) == hits[n..]
      invariant data == recs[hits[n - 1]].data
      decreases |hits| - n
    {
      var r := m.FindTagNext(key, 0, recs);
      if !r {
        break;
      }
      assert hits[n..][1..] == hits[n + 1..];
      data := m.mm.ptr[m.dpos..m.dpos + m.dlen];
      n := n + 1;
    }
  }
}
