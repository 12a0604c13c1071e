// nss/nss_mcdb_netdb_make.c: the table of ids already seen while one netgroup is flattened: a
// power-of-two number of rows of 64 ints, then one used count per row, in one array.
module Uniq {
  import opened Wrappers

  const COLS := 64
  const MAX_ROWS: nat := 0x40_0000   // the check in uniq_resize lets the table grow no further

  // The low bits of the id: its remainder by the number of rows, a power of two; never negative
  function RowOf(id: int, n: nat): (r: nat)
    requires n > 0
    ensures r < n
  {
    id % n
  }

  predicate Size(n: nat) {
    || n == 0x40 || n == 0x100 || n == 0x400 || n == 0x1000 || n == 0x4000 || n == 0x1_0000
    || n == 0x4_0000 || n == 0x10_0000 || n == MAX_ROWS
  }

  // Row n of m holds exactly the ids that belong there, each once.
  ghost predicate RowIs(row: seq<int>, n: nat, m: nat, ids: set<int>)
    requires m > 0
  {
    && |row| <= COLS && Distinct(row)
    && forall id :: id in row <==> id in ids && RowOf(id, m) == n
  }

  ghost predicate Shelved(rows: seq<seq<int>>, ids: set<int>) {
    && rows != []
    && forall n :: 0 <= n < |rows| ==> RowIs(rows[n], n, |rows|, ids)
  }

  ghost predicate Stored(a: seq<int>, rows: seq<seq<int>>) {
    && |a| == |rows| * COLS + |rows|
    && (forall n :: 0 <= n < |rows| ==> |rows[n]| <= COLS && a[|rows| * COLS + n] == |rows[n]|)
    && (forall n, j :: 0 <= n < |rows| && 0 <= j < |rows[n]| ==> a[n * COLS + j] == rows[n][j])
  }

  lemma StoredAppend(a: seq<int>, b: seq<int>, rows: seq<seq<int>>, n: nat, id: int)
    requires Stored(a, rows) && n < |rows| && |rows[n]| < COLS
    requires b == a[n * COLS + |rows[n]| := id][|rows| * COLS + n := |rows[n]| + 1]
    ensures Stored(b, rows[n := rows[n] + [id]])
  {
  }

  // ----- rebalancing: every old row is dealt out over four new ones

  ghost function Filter(row: seq<int>, m: nat, n: nat): (out: seq<int>)
    requires m > 0
    ensures |out| <= |row|
  {
    if row == [] then []
    else
      var init, id := row[..|row| - 1], row[|row| - 1];
      Filter(init, m, n) + if RowOf(id, m) == n then [id] else []
  }

  lemma {:induction false} FilterHas(row: seq<int>, m: nat, n: nat, id: int)
    requires m > 0
    ensures id in Filter(row, m, n) <==> id in row && RowOf(id, m) == n
  {
    if row != [] {
      var last := |row| - 1;
      FilterHas(row[..last], m, n, id);
      assert row == row[..last] + [row[last]];
    }
  }

  lemma {:induction false} FilterDistinct(row: seq<int>, m: nat, n: nat)
    requires m > 0 && Distinct(row)
    ensures Distinct(Filter(row, m, n))
  {
    if row != [] {
      var last := |row| - 1;
      FilterDistinct(row[..last], m, n);
      FilterHas(row[..last], m, n, row[last]);
    }
  }

  lemma FourfoldRow(id: int, m: nat)
    requires m > 0
    ensures RowOf(RowOf(id, 4 * m), m) == RowOf(id, m)
  {
    Remainder(id, 4, m);
  }

  lemma FilterIs(row: seq<int>, n: nat, m: nat, ids: set<int>)
    requires m > 0 && n < 4 * m && RowIs(row, RowOf(n, m), m, ids)
    ensures RowIs(Filter(row, 4 * m, n), n, 4 * m, ids)
  {
    FilterDistinct(row, 4 * m, n);
    forall id
      ensures id in Filter(row, 4 * m, n) <==> id in ids && RowOf(id, 4 * m) == n
    {
      FilterHas(row, 4 * m, n, id);
      FourfoldRow(id, m);
    }
  }

  // What the new row n holds after old rows before i and the first j ids of old row i
  ghost function Dealt(rows: seq<seq<int>>, i: nat, j: nat, n: nat): seq<int>
    requires rows != [] && i <= |rows| && (if i < |rows| then j <= |rows[i]| else j == 0)
  {
    var m, o := 4 * |rows|, RowOf(n, |rows|);
    if o < i then Filter(rows[o], m, n) else if o == i then Filter(rows[i][..j], m, n) else []
  }

  ghost predicate DealtTo(rows: seq<seq<int>>, i: nat, j: nat, out: seq<seq<int>>)
    requires rows != [] && i <= |rows| && (if i < |rows| then j <= |rows[i]| else j == 0)
  {
    |out| == 4 * |rows| && forall n :: 0 <= n < |out| ==> out[n] == Dealt(rows, i, j, n)
  }

  lemma DealOne(rows: seq<seq<int>>, i: nat, j: nat, out: seq<seq<int>>, n: nat)
    requires i < |rows| && j < |rows[i]| && DealtTo(rows, i, j, out)
    requires RowOf(rows[i][j], |rows|) == i && n == RowOf(rows[i][j], 4 * |rows|)
    ensures n < |out| && |out[n]| <= j
    ensures DealtTo(rows, i, j + 1, out[n := out[n] + [rows[i][j]]])
  {
    hide RowOf;
    var m, id := 4 * |rows|, rows[i][j];
    FourfoldRow(id, |rows|);
    forall k | 0 <= k < |out|
      ensures Dealt(rows, i, j + 1, k) == Dealt(rows, i, j, k) + if k == n then [id] else []
    {
      assert rows[i][..j + 1][..j] == rows[i][..j];
    }
  }

  lemma DealNextRow(rows: seq<seq<int>>, i: nat, out: seq<seq<int>>)
    requires i < |rows| && DealtTo(rows, i, |rows[i]|, out)
    ensures DealtTo(rows, i + 1, 0, out)
  {
    hide RowOf;
    assert rows[i][..|rows[i]|] == rows[i];
    forall n | 0 <= n < |out|
      ensures Dealt(rows, i + 1, 0, n) == Dealt(rows, i, |rows[i]|, n)
    {
      assert i + 1 < |rows| ==> rows[i + 1][..0] == [];
    }
  }

  lemma AllDealt(rows: seq<seq<int>>, out: seq<seq<int>>, ids: set<int>)
    requires Shelved(rows, ids) && DealtTo(rows, |rows|, 0, out)
    ensures Shelved(out, ids)
  {
    hide RowOf;
    forall n | 0 <= n < |out|
      ensures RowIs(out[n], n, |out|, ids)
    {
      FilterIs(rows[RowOf(n, |rows|)], n, |rows|, ids);
    }
  }

  // ----- when the table cannot take one more id

  // 64 ids already fall in the row of this one, even in the largest table
  ghost predicate Crowded(ids: set<int>, id: int) {
    |SameRow(ids, id, 0x40_0000)| >= 64
  }

  ghost function SameRow(ids: set<int>, id: int, m: nat): set<int>
    requires m > 0
  {
    set x | x in ids && RowOf(x, m) == RowOf(id, m)
  }

  lemma {:induction false} DistinctSize(row: seq<int>)
    requires Distinct(row)
    ensures |set x | x in row| == |row|
  {
    if row != [] {
      var last := |row| - 1;
      DistinctSize(row[..last]);
      assert row == row[..last] + [row[last]];
      assert (set x | x in row) == (set x | x in row[..last]) + {row[last]};
    }
  }

  lemma RowSize(row: seq<int>, id: int, m: nat, ids: set<int>)
    requires m > 0 && RowIs(row, RowOf(id, m), m, ids)
    ensures |SameRow(ids, id, m)| == |row|
  {
    hide RowOf;
    DistinctSize(row);
    var all := set x | x in row;
    forall x
      ensures x in SameRow(ids, id, m) <==> x in all
    {
    }
    assert SameRow(ids, id, m) == all;
  }

  lemma Remainder(x: int, k: nat, n: nat)
    requires k > 0 && n > 0
    ensures x % (k * n) % n == x % n
  {
    var kn := k * n;
    var q, r := x / kn, x % kn;
    assert kn * q == n * (k * q);
    var d, e := r / n, r % n;
    assert n * (k * q) + n * d == n * (k * q + d);
    Unique(x, n, k * q + d, e);
  }

  lemma Unique(x: int, n: nat, q: int, r: int)
    requires x == n * q + r && 0 <= r < n
    ensures x % n == r
  {
    var p, s := x / n, x % n;
    assert n * q - n * p == n * (q - p);
    if p != q {
      Multiple(n, q - p);
      assert false;
    }
  }

  lemma Multiple(n: nat, d: int)
    requires d != 0
    ensures n * d >= n || n * d <= 0 - n
  {
    if d > 0 {
      assert n * d - n == n * (d - 1) >= 0;
    } else {
      assert 0 - n * d - n == n * (0 - d - 1) >= 0;
    }
  }

  lemma Divides(x: int, y: int, k: nat, n: nat)
    requires k > 0 && n > 0 && x % (k * n) == y % (k * n)
    ensures x % n == y % n
  {
    Remainder(x, k, n);
    Remainder(y, k, n);
  }

  lemma {:induction false} CardinalityMonotone<T>(a: set<T>, b: set<T>)
    requires a <= b
    ensures |a| <= |b|
  {
    if a != {} {
      var x :| x in a;
      CardinalityMonotone(a - {x}, b - {x});
    }
  }

  // A row with room in any table means that the largest one has room too.
  lemma RoomNotCrowded(row: seq<int>, id: int, m: nat, ids: set<int>)
    requires Size(m) && RowIs(row, RowOf(id, m), m, ids)
    ensures Crowded(ids, id) ==> |row| >= COLS
  {
    RowSize(row, id, m, ids);
    var k: nat := MAX_ROWS / m;
    assert MAX_ROWS == k * m && k > 0;
    forall x | x in SameRow(ids, id, MAX_ROWS)
      ensures x in SameRow(ids, id, m)
    {
      Divides(x, id, k, m);
    }
    CardinalityMonotone(SameRow(ids, id, MAX_ROWS), SameRow(ids, id, m));
  }

  // ids below 2^27 in size: at most 64 of them share a row of the largest table
  function Congruent(r: int, k: nat): set<int> {
    if k == 0 then {} else Congruent(r, k - 1) + {r + MAX_ROWS * (k - 1)}
  }

  lemma {:induction false} CongruentSize(r: int, k: nat)
    ensures |Congruent(r, k)| <= k
    ensures forall i :: 0 <= i < k ==> r + MAX_ROWS * i in Congruent(r, k)
  {
    if k > 0 {
      CongruentSize(r, k - 1);
    }
  }

  ghost predicate Small(ids: set<int>) {
    forall x :: x in ids ==> -0x800_0000 < x < 0x800_0000
  }

  lemma NeverCrowded(ids: set<int>, id: int)
    requires Small(ids + {id}) && id !in ids
    ensures !Crowded(ids, id)
  {
    var r := RowOf(id, MAX_ROWS);
    var base := r - 32 * MAX_ROWS;
    var all := Congruent(base, 64);
    CongruentSize(base, 64);
    var s := SameRow(ids, id, MAX_ROWS) + {id};
    forall x | x in s
      ensures x in all
    {
      assert x in ids + {id};
      var i := x / MAX_ROWS + 32;
      assert x == base + MAX_ROWS * i;
    }
    CardinalityMonotone(s, all);
  }

  // ----- the table

  class UniqTable {
    var nuniq: nat
    var uniq: array<int>        // nuniq rows of 64, then nuniq counts
    ghost var rows: seq<seq<int>>
    ghost var ids: set<int>

    ghost predicate Valid()
      reads this, uniq
    {
      && |rows| == nuniq
      && (if nuniq == 0 then ids == {} else Size(nuniq) && Stored(uniq[..], rows) && Shelved(rows, ids))
    }

    constructor ()
      ensures Valid() && nuniq == 0 && ids == {} && fresh(uniq)
    {
      nuniq, rows, ids := 0, [], {};
      uniq := new int[0];
    }

    // netgroup_ngdata_uniq_reset
    method Reset()
      requires Valid()
      modifies this`rows, this`ids, uniq
      ensures Valid() && ids == {}
    {
      var base := nuniq * COLS;
      if nuniq > 0 {
        forall n | 0 <= n < nuniq {
          uniq[base + n] := 0;
        }
        rows := seq(nuniq, _ => []);
      }
      ids := {};
    }

    // The new table once old row i has been dealt out
    method DealRow(a: array<int>, i: nat, ghost out: seq<seq<int>>) returns (ghost dealt: seq<seq<int>>)
      requires Valid() && i < nuniq && a != uniq
      requires |out| == nuniq * 4 && DealtTo(rows, i, 0, out) && Stored(a[..], out)
      modifies a
      ensures Valid() && |dealt| == nuniq * 4
      ensures DealtTo(rows, i + 1, 0, dealt) && Stored(a[..], dealt)
    {
      hide RowOf, DealtTo, Size;
      var m, oused := nuniq * 4, uniq[nuniq * COLS + i];
      assert oused == uniq[..][|rows| * COLS + i] == |rows[i]|;
      dealt := out;
      var j: nat := 0;
      while j < oused
        invariant j <= oused == |rows[i]| && Valid() && |dealt| == m
        invariant DealtTo(rows, i, j, dealt) && Stored(a[..], dealt)
      {
        var oid := uniq[i * COLS + j];
        assert oid == rows[i][j] && RowIs(rows[i], i, nuniq, ids);
        assert oid in rows[i];
        var n := RowOf(oid, m);
        DealOne(rows, i, j, dealt, n);
        var used := a[m * COLS + n];
        ghost var was := a[..];
        a[n * COLS + used] := oid;
        a[m * COLS + n] := used + 1;
        StoredAppend(was, a[..], dealt, n, oid);
        dealt := dealt[n := dealt[n] + [oid]];
        j := j + 1;
      }
      DealNextRow(rows, i, dealt);
    }

    // netgroup_ngdata_uniq_resize
    method Resize() returns (ok: bool)
      requires Valid()
      modifies this
      ensures Valid() && ids == old(ids)
      ensures ok <==> old(nuniq) < 0x40_0000
      ensures nuniq == if !ok then old(nuniq) else if old(nuniq) == 0 then 64 else 4 * old(nuniq)
      ensures ok ==> fresh(uniq)
      ensures !ok ==> uniq == old(uniq)
    {
      var nold := nuniq;
      if nold > (0xFFFF_FFFF - nold * 4 * 4) / 0x100 / 4 {
        return false;
      }
      var m := if nold == 0 then 64 else nold * 4;
      var a := new int[m * COLS + m];
      forall n | 0 <= n < m {
        a[m * COLS + n] := 0;
      }
      ghost var out := seq(m, _ => []);
      if nold > 0 {
        var i: nat := 0;
        assert DealtTo(rows, 0, 0, out) by {
          FirstDeal(rows, out);
        }
        while i < nold
          invariant i <= nold == nuniq == |rows| && |out| == m && Valid() && a != uniq && ids == old(ids)
          invariant DealtTo(rows, i, 0, out) && Stored(a[..], out)
        {
          out := DealRow(a, i, out);
          i := i + 1;
        }
        AllDealt(rows, out, ids);
      }
      uniq, nuniq, rows := a, m, out;
      return true;
    }

    // Search the id's row.
    method Seen(id: int) returns (r: bool)
      requires Valid() && nuniq > 0
      ensures r <==> id in ids
    {
      hide Size;
      var n: nat, i := RowOf(id, nuniq), 0;
      var used := uniq[nuniq * COLS + n];
      assert used == uniq[..][|rows| * COLS + n] == |rows[n]|;
      assert RowIs(rows[n], n, nuniq, ids);
      hide RowOf;
      while i < used
        invariant 0 <= i <= used
        invariant id !in rows[n][..i]
      {
        assert uniq[..][n * COLS + i] == rows[n][i];
        if uniq[n * COLS + i] == id {
          return true;
        }
        i := i + 1;
      }
      assert rows[n] == rows[n][..used];
      return false;
    }

    // Add the id at the end of its row.
    method Put(id: int, n: nat)
      requires Valid() && nuniq > 0 && n == RowOf(id, nuniq) && |rows[n]| < COLS && id !in ids
      modifies this`rows, this`ids, uniq
      ensures Valid() && ids == old(ids) + {id}
    {
      hide RowOf, Size;
      ghost var was := uniq[..];
      assert was[|rows| * COLS + n] == |rows[n]|;
      var used := uniq[nuniq * COLS + n];
      uniq[n * COLS + used] := id;
      uniq[nuniq * COLS + n] := used + 1;
      StoredAppend(was, uniq[..], rows, n, id);
      ShelveOne(rows, ids, id, n);
      rows, ids := rows[n := rows[n] + [id]], ids + {id};
    }

    // netgroup_datastr_uniq_id: true exactly for an id not seen before, unless the table is full
    method UniqId(id: int) returns (r: bool)
      requires Valid() && nuniq > 0
      modifies this, uniq
      ensures Valid() && nuniq > 0 && (uniq == old(uniq) || fresh(uniq))
      ensures r <==> id !in old(ids) && !Crowded(old(ids), id)
      ensures ids == if r then old(ids) + {id} else old(ids)
    {
      hide Stored, Shelved, Crowded, SameRow;
      var seen := Seen(id);
      if seen {
        return false;
      }
      var room, n := MakeRoom(id);
      if room {
        Put(id, n);
      }
      return room;
    }

    // Grow the table until the id's row has room, which may take more than one step.
    method MakeRoom(id: int) returns (room: bool, n: nat)
      requires Valid() && nuniq > 0
      modifies this
      ensures Valid() && nuniq > 0 && ids == old(ids) && (uniq == old(uniq) || fresh(uniq))
      ensures n == RowOf(id, nuniq)
      ensures room ==> |rows[n]| < COLS
      ensures room <==> !Crowded(ids, id)
    {
      hide Crowded;
      n := RowOf(id, nuniq);
      room := true;
      assert uniq[..][|rows| * COLS + n] == |rows[n]|;
      while uniq[nuniq * COLS + n] == COLS
        invariant Valid() && nuniq > 0 && n == RowOf(id, nuniq) && ids == old(ids)
        invariant uniq == old(uniq) || fresh(uniq)
        invariant uniq[nuniq * COLS + n] == |rows[n]| <= COLS
        decreases MAX_ROWS - nuniq
      {
        var ok := Resize();
        if !ok {
          room := false;
          FullRow(rows[n], id, ids);
          return;
        }
        n := RowOf(id, nuniq);
        assert uniq[..][|rows| * COLS + n] == |rows[n]|;
      }
      RoomNotCrowded(rows[n], id, nuniq, ids);
    }
  }

  lemma FullRow(row: seq<int>, id: int, ids: set<int>)
    requires |row| == COLS && RowIs(row, RowOf(id, MAX_ROWS), MAX_ROWS, ids)
    ensures Crowded(ids, id)
  {
    RowSize(row, id, MAX_ROWS, ids);
  }

  lemma ShelveOne(rows: seq<seq<int>>, ids: set<int>, id: int, n: nat)
    requires Shelved(rows, ids) && id !in ids && n == RowOf(id, |rows|) && |rows[n]| < COLS
    ensures Shelved(rows[n := rows[n] + [id]], ids + {id})
  {
    hide RowOf;
    var out := rows[n := rows[n] + [id]];
    forall k | 0 <= k < |out|
      ensures RowIs(out[k], k, |out|, ids + {id})
    {
      assert RowIs(rows[k], k, |rows|, ids);
    }
  }

  lemma FirstDeal(rows: seq<seq<int>>, out: seq<seq<int>>)
    requires rows != [] && |out| == 4 * |rows| && forall n :: 0 <= n < |out| ==> out[n] == []
    ensures DealtTo(rows, 0, 0, out)
  {
    assert rows[0][..0] == [];
  }
}
