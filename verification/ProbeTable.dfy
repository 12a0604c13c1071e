// Open addressing with linear probing, as mcdb_make_finish builds a slot's table and
// mcdb_findtagnext walks it.  A table holds entry numbers: entry j is the j-th one placed.
module ProbeTable {
  const EMPTY := -1

  // The cell d probe steps after `home`, on a table of `len` cells that wraps around once.
  function Cell(home: nat, d: nat, len: nat): (c: nat)
    requires home < len && d < len
    ensures c < len
  {
    if home + d < len then home + d else home + d - len
  }

  // How many steps after `home` cell c is.
  function Steps(home: nat, c: nat, len: nat): (d: nat)
    requires home < len && c < len
    ensures d < len && Cell(home, d, len) == c
  {
    if c >= home then c - home else c + len - home
  }

  function Occupied(cells: seq<int>): (n: nat)
    ensures n <= |cells|
  {
    if cells == [] then 0
    else Occupied(cells[..|cells| - 1]) + if cells[|cells| - 1] >= 0 then 1 else 0
  }

  lemma {:induction false} FreeCellExists(cells: seq<int>) returns (c: nat)
    requires Occupied(cells) < |cells|
    ensures c < |cells| && cells[c] < 0
  {
    c := |cells| - 1;
    if cells[c] >= 0 {
      c := FreeCellExists(cells[..c]);
    }
  }

  lemma {:induction false} OccupyOne(cells: seq<int>, c: nat, j: nat)
    requires c < |cells| && cells[c] < 0
    ensures Occupied(cells[c := j]) == Occupied(cells) + 1
  {
    var n := |cells| - 1;
    if c == n {
      assert cells[c := j][..n] == cells[..n];
    } else {
      assert cells[c := j][..n] == cells[..n][c := j];
      OccupyOne(cells[..n], c, j);
    }
  }

  lemma {:induction false} OccupiedEmpty(n: nat)
    ensures Occupied(seq(n, _ => EMPTY)) == 0
  {
    if n > 0 {
      assert seq(n, _ => EMPTY)[..n - 1] == seq(n - 1, _ => EMPTY);
      OccupiedEmpty(n - 1);
    }
  }

  // `cells` is the table; `dist[j]` says how many probe steps from its home entry j went.
  datatype Table = Table(cells: seq<int>, dist: seq<nat>)

  ghost predicate Homes(homes: seq<nat>, len: nat) {
    forall j :: 0 <= j < |homes| ==> homes[j] < len
  }

  ghost predicate Sized(t: Table, homes: seq<nat>, len: nat) {
    && Homes(homes, len)
    && |t.cells| == len && |t.dist| == |homes|
    && forall j :: 0 <= j < |homes| ==> t.dist[j] < len
  }

  // Every entry is in the table, and every full cell holds an entry that belongs there: so each
  // entry is in exactly one cell.
  ghost predicate Stored(t: Table, homes: seq<nat>, len: nat)
    requires Sized(t, homes, len)
  {
    && (forall j :: 0 <= j < |homes| ==> t.cells[Cell(homes[j], t.dist[j], len)] == j)
    && (forall c :: 0 <= c < len && t.cells[c] >= 0 ==>
          t.cells[c] < |homes| && c == Cell(homes[t.cells[c]], t.dist[t.cells[c]], len))
  }

  // No empty cell lies between an entry and its home.
  ghost predicate PathsFull(t: Table, homes: seq<nat>, len: nat)
    requires Sized(t, homes, len)
  {
    forall j, e: nat :: 0 <= j < |homes| && e <= t.dist[j] ==> t.cells[Cell(homes[j], e, len)] >= 0
  }

  // Entries with one home lie in placement order.
  ghost predicate InOrder(t: Table, homes: seq<nat>, len: nat)
    requires Sized(t, homes, len)
  {
    forall i, j :: 0 <= i < j < |homes| && homes[i] == homes[j] ==> t.dist[i] < t.dist[j]
  }

  // The shape that placement keeps.
  ghost predicate Probed(t: Table, homes: seq<nat>, len: nat) {
    && Sized(t, homes, len) && Stored(t, homes, len)
    && PathsFull(t, homes, len) && InOrder(t, homes, len)
    && Occupied(t.cells) == |homes|
  }

  // The probe loop: steps from the d-th cell on to the first empty one.
  function FirstFree(cells: seq<int>, home: nat, d: nat): (r: nat)
    requires home < |cells|
    requires exists e :: d <= e < |cells| && cells[Cell(home, e, |cells|)] < 0
    ensures d <= r < |cells| && cells[Cell(home, r, |cells|)] < 0
    ensures forall e :: d <= e < r ==> cells[Cell(home, e, |cells|)] >= 0
    decreases |cells| - d
  {
    if cells[Cell(home, d, |cells|)] < 0 then d else FirstFree(cells, home, d + 1)
  }

  lemma FreeStepExists(cells: seq<int>, home: nat)
    requires home < |cells| && Occupied(cells) < |cells|
    ensures exists e :: 0 <= e < |cells| && cells[Cell(home, e, |cells|)] < 0
  {
    var c := FreeCellExists(cells);
    assert cells[Cell(home, Steps(home, c, |cells|), |cells|)] < 0;
  }

  // Place entry number |t.dist| from `home`.
  function Place(t: Table, home: nat): Table
    requires home < |t.cells| && Occupied(t.cells) < |t.cells|
  {
    FreeStepExists(t.cells, home);
    var d := FirstFree(t.cells, home, 0);
    Table(t.cells[Cell(home, d, |t.cells|) := |t.dist|], t.dist + [d])
  }

  // Filling the first free cell on the path from `home` with the next entry number keeps the shape.
  lemma PlaceKeepsStored(t: Table, homes: seq<nat>, home: nat, len: nat, d: nat, u: Table)
    requires Sized(t, homes, len) && Stored(t, homes, len) && home < len && d < len
    requires t.cells[Cell(home, d, len)] < 0
    requires u == Table(t.cells[Cell(home, d, len) := |homes|], t.dist + [d])
    ensures Sized(u, homes + [home], len) && Stored(u, homes + [home], len)
  {
  }

  lemma PlaceKeepsPaths(t: Table, homes: seq<nat>, home: nat, len: nat, d: nat, u: Table)
    requires Sized(t, homes, len) && PathsFull(t, homes, len) && InOrder(t, homes, len) && home < len && d < len
    requires t.cells[Cell(home, d, len)] < 0
    requires forall e :: 0 <= e < d ==> t.cells[Cell(home, e, len)] >= 0
    requires u == Table(t.cells[Cell(home, d, len) := |homes|], t.dist + [d])
    ensures Sized(u, homes + [home], len)
    ensures PathsFull(u, homes + [home], len) && InOrder(u, homes + [home], len)
  {
    forall i | 0 <= i < |homes| && homes[i] == home
      ensures t.dist[i] < d
    {
      // else this free cell would lie on the occupied path of entry i
      assert t.cells[Cell(homes[i], d, len)] < 0;
    }
  }

  lemma PlaceKeepsProbed(t: Table, homes: seq<nat>, home: nat, len: nat)
    requires Probed(t, homes, len) && home < len && |homes| < len
    ensures Probed(Place(t, home), homes + [home], len)
  {
    FreeStepExists(t.cells, home);
    var d := FirstFree(t.cells, home, 0);
    OccupyOne(t.cells, Cell(home, d, len), |t.dist|);
    PlaceKeepsStored(t, homes, home, len, d, Place(t, home));
    PlaceKeepsPaths(t, homes, home, len, d, Place(t, home));
  }

  // The table for entries placed in the order of `homes`.
  function Build(homes: seq<nat>, len: nat): (t: Table)
    requires len > |homes| && Homes(homes, len)
    ensures Probed(t, homes, len)
  {
    if homes == [] then
      OccupiedEmpty(len);
      Table(seq(len, _ => EMPTY), [])
    else
      var n := |homes| - 1;
      var t := Build(homes[..n], len);
      PlaceKeepsProbed(t, homes[..n], homes[n], len);
      assert homes == homes[..n] + [homes[n]];
      Place(t, homes[n])
  }

  lemma BuildAppend(homes: seq<nat>, home: nat, len: nat)
    requires Homes(homes, len) && home < len && |homes| + 1 < len
    ensures Homes(homes + [home], len) && Occupied(Build(homes, len).cells) < len
    ensures Build(homes + [home], len) == Place(Build(homes, len), home)
  {
    hide Place, Occupied, Probed;
    assert (homes + [home])[..|homes|] == homes;
    FewerThanCells(homes, len);
  }

  lemma FewerThanCells(homes: seq<nat>, len: nat)
    requires Homes(homes, len) && |homes| < len
    ensures Occupied(Build(homes, len).cells) == |homes| && |Build(homes, len).cells| == len
  {
    hide Build;
  }

  // Walk from the d-th cell after `home` to the first empty cell, or once around, keeping
  // the entries that are wanted.
  function Walk(cells: seq<int>, home: nat, d: nat, want: seq<bool>): (hits: seq<nat>)
    requires home < |cells|
    requires forall c :: 0 <= c < |cells| ==> cells[c] < |want|
    decreases |cells| - d
  {
    if d >= |cells| || cells[Cell(home, d, |cells|)] < 0 then []
    else
      var j := cells[Cell(home, d, |cells|)];
      (if want[j] then [j] else []) + Walk(cells, home, d + 1, want)
  }

  ghost predicate Ascending(s: seq<nat>) {
    forall i, j :: 0 <= i < j < |s| ==> s[i] < s[j]
  }

  // Entries wanted by a search for `home` have that home.
  ghost predicate WantHome(homes: seq<nat>, home: nat, want: seq<bool>) {
    && |want| == |homes|
    && forall j :: 0 <= j < |want| && want[j] ==> homes[j] == home
  }

  // The cell at step d holds the only entry with this home that lies at step d.
  lemma EntryAtStep(t: Table, homes: seq<nat>, len: nat, home: nat, d: nat, i: nat)
    requires Probed(t, homes, len) && d < len && i < |homes| && homes[i] == home
    ensures t.dist[i] == d ==> t.cells[Cell(home, d, len)] == i
    ensures t.dist[i] >= d ==> t.cells[Cell(home, d, len)] >= 0
    ensures t.cells[Cell(home, d, len)] == i ==> t.dist[i] == d
  {
    assert d <= t.dist[i] ==> t.cells[Cell(homes[i], d, len)] >= 0;
  }

  // From any step on, the walk finds exactly the wanted entries lying at that step or later, in
  // ascending order: the empty cell that ends it is never reached too early.
  lemma {:induction false} WalkFinds(t: Table, homes: seq<nat>, len: nat, home: nat, d: nat, want: seq<bool>)
    requires Probed(t, homes, len) && home < len && WantHome(homes, home, want)
    ensures var hits := Walk(t.cells, home, d, want);
      && Ascending(hits)
      && forall j :: j in hits <==> 0 <= j < |homes| && want[j] && t.dist[j] >= d
    decreases len - d
  {
    if d < len {
      forall i | 0 <= i < |homes| && want[i]
        ensures t.dist[i] == d ==> t.cells[Cell(home, d, len)] == i
        ensures t.dist[i] >= d ==> t.cells[Cell(home, d, len)] >= 0
        ensures t.cells[Cell(home, d, len)] == i ==> t.dist[i] == d
      {
        EntryAtStep(t, homes, len, home, d, i);
      }
      if t.cells[Cell(home, d, len)] >= 0 {
        WalkFinds(t, homes, len, home, d + 1, want);
        if want[t.cells[Cell(home, d, len)]] {
          WalkOrder(t, homes, home, t.cells[Cell(home, d, len)], Walk(t.cells, home, d + 1, want), want);
        }
      }
    }
  }

  lemma WalkOrder(t: Table, homes: seq<nat>, home: nat, j: nat, rest: seq<nat>, want: seq<bool>)
    requires WantHome(homes, home, want) && |t.dist| == |homes| && j < |homes|
    requires forall a, b :: 0 <= a < b < |homes| && homes[a] == homes[b] ==> t.dist[a] < t.dist[b]
    requires forall i :: i in rest ==> 0 <= i < |homes| && want[i] && t.dist[j] < t.dist[i]
    requires Ascending(rest) && want[j]
    ensures Ascending([j] + rest)
  {
    forall k | 0 <= k < |rest|
      ensures j < rest[k]
    {
      assert rest[k] in rest && homes[rest[k]] == homes[j];
    }
  }

  // The numbers j with want[j], in ascending order.
  function Wanted(want: seq<bool>): (s: seq<nat>)
    ensures forall j :: j in s <==> 0 <= j < |want| && want[j]
    ensures Ascending(s)
  {
    if want == [] then []
    else
      var n := |want| - 1;
      var s := Wanted(want[..n]);
      assert forall i :: 0 <= i < |s| ==> s[i] in s;
      if want[n] then s + [n] else s
  }

  lemma {:induction false} AscendingUnique(a: seq<nat>, b: seq<nat>)
    requires Ascending(a) && Ascending(b)
    requires forall j :: j in a <==> j in b
    ensures a == b
  {
    assert a != [] ==> a[0] in b;
    assert b != [] ==> b[0] in a;
    if a != [] && b != [] {
      var m, n := |a| - 1, |b| - 1;
      assert a[m] in b && b[n] in a;
      forall j
        ensures j in a[..m] <==> j in b[..n]
      {
        assert j in a ==> j in a[..m] || j == a[m];
        assert j in b ==> j in b[..n] || j == b[n];
      }
      AscendingUnique(a[..m], b[..n]);
    }
  }

  // A search from `home` returns exactly the wanted entries, each once, in placement order.
  lemma SearchFinds(homes: seq<nat>, len: nat, home: nat, want: seq<bool>)
    requires len > |homes| && Homes(homes, len) && home < len && WantHome(homes, home, want)
    ensures Walk(Build(homes, len).cells, home, 0, want) == Wanted(want)
  {
    var t := Build(homes, len);
    WalkFinds(t, homes, len, home, 0, want);
    AscendingUnique(Walk(t.cells, home, 0, want), Wanted(want));
  }
}
