// The table of one slot while mcdb_make_finish fills it, cell by cell.
module Placing {
  import opened Bytes
  import opened Parts
  import opened ProbeTable
  import opened Layout
  import opened Reader

  // The bytes of a table of `len` cells after the entries `es`
  function Filled(es: seq<Hp>, len: nat, b: bits): seq<seq<byte>>
    requires |es| < len || |es| == len == 0
  {
    TableParts(es, Cells(es, len), b)
  }

  lemma FilledSize(es: seq<Hp>, len: nat, b: bits)
    requires |es| < len || |es| == len == 0
    ensures |Filled(es, len, b)| == len && Uniform(Filled(es, len, b), CellSize(b))
    ensures |Flat(Filled(es, len, b))| == len * CellSize(b)
  {
    FlatUniform(Filled(es, len, b), CellSize(b));
  }

  lemma {:induction false} FlatZeros(n: nat, w: nat)
    ensures Flat(seq(n, _ => Zeros(w))) == Zeros(n * w)
  {
    var parts := seq(n, _ => Zeros(w));
    if n > 0 {
      assert parts[..n - 1] == seq(n - 1, _ => Zeros(w));
      FlatZeros(n - 1, w);
      assert (n - 1) * w + w == n * w;
    }
  }

  // The memset table has every cell empty.
  lemma FilledNone(len: nat, b: bits)
    ensures Flat(Filled([], len, b)) == Zeros(len * CellSize(b))
  {
    hide Flat, Zeros;
    assert Filled([], len, b) == seq(len, _ => Zeros(CellSize(b))) by {
      EmptyCells(len);
    }
    FlatZeros(len, CellSize(b));
  }

  lemma EmptyCells(len: nat)
    ensures Cells([], len) == seq(len, _ => EMPTY)
  {
    if len > 0 {
      assert HomesOf([], len) == [];
    }
  }

  // How far the probe loop goes for the next entry
  ghost function Probe(es: seq<Hp>, len: nat, home: nat): (d: nat)
    requires |es| < len && home < len
    ensures d < len && Cells(es, len)[Cell(home, d, len)] < 0
    ensures forall e :: 0 <= e < d ==> Cells(es, len)[Cell(home, e, len)] >= 0
  {
    var t := Build(HomesOf(es, len), len);
    FreeStepExists(t.cells, home);
    FirstFree(t.cells, home, 0)
  }

  lemma CellsAppend(es: seq<Hp>, e: Hp, len: nat)
    requires |es| + 1 < len
    ensures var home := Home(e.h, len);
      Cells(es + [e], len) == Cells(es, len)[Cell(home, Probe(es, len, home), len) := |es|]
  {
    hide Build, Home, FirstFree, Occupied, Probed;
    var homes := HomesOf(es, len);
    assert HomesOf(es + [e], len) == homes + [Home(e.h, len)];
    BuildAppend(homes, Home(e.h, len), len);
    BuildSizes(homes, len);
    FreeStepExists(Build(homes, len).cells, Home(e.h, len));
  }

  lemma BuildSizes(homes: seq<nat>, len: nat)
    requires Homes(homes, len) && |homes| < len
    ensures |Build(homes, len).dist| == |homes| && |Build(homes, len).cells| == len > Occupied(Build(homes, len).cells)
  {
    hide Build;
  }

  // Placing an entry overwrites one empty cell.
  lemma FilledAppend(es: seq<Hp>, e: Hp, len: nat, b: bits)
    requires |es| + 1 < len
    ensures var c := Cell(Home(e.h, len), Probe(es, len, Home(e.h, len)), len);
      && |Filled(es, len, b)| == len
      && Filled(es + [e], len, b) == Filled(es, len, b)[c := CellBytes(b, e)]
  {
    hide Build, Home, CellBytes, Zeros, FirstFree;
    CellsAppend(es, e, len);
    var c := Cell(Home(e.h, len), Probe(es, len, Home(e.h, len)), len);
    var now, was := Cells(es + [e], len), Cells(es, len);
    forall i | 0 <= i < len
      ensures Filled(es + [e], len, b)[i] == Filled(es, len, b)[c := CellBytes(b, e)][i]
    {
      if i != c {
        assert now[i] == was[i] < |es|;
      }
    }
  }

  // A stored position is non-zero and fits its field.
  predicate Fits(e: Hp, b: bits) {
    0 < e.p < if b == 3 then 0x1_0000_0000 else 0x1_0000_0000_0000_0000
  }

  // The test of the probe loop sees whether a cell is taken.
  lemma TakenTest(file: seq<byte>, p: nat, es: seq<Hp>, len: nat, b: bits, u: nat)
    requires u < len && |es| < len && At(file, p, Flat(Filled(es, len, b)))
    requires forall j :: 0 <= j < |es| ==> Fits(es[j], b)
    ensures p + u * CellSize(b) + CellSize(b) <= |file|
    ensures var at := p + u * CellSize(b);
      (if b == 3 then Get32(file, at + 4) != 0 else Get64(file, at + 8) != 0) <==> Cells(es, len)[u] >= 0
  {
    hide Build, Flat, CellBytes, CellSize, Get32, Get64, Cells, At, Zeros;
    FilledSize(es, len, b);
    AtUniform(file, p, Filled(es, len, b), CellSize(b), u);
    CellTaken(file, p + u * CellSize(b), es, len, b, u);
  }

  lemma CellTaken(file: seq<byte>, at: nat, es: seq<Hp>, len: nat, b: bits, u: nat)
    requires u < len && |es| < len && At(file, at, Filled(es, len, b)[u])
    requires forall j :: 0 <= j < |es| ==> Fits(es[j], b)
    ensures at + CellSize(b) <= |file|
    ensures (if b == 3 then Get32(file, at + 4) != 0 else Get64(file, at + 8) != 0) <==> Cells(es, len)[u] >= 0
  {
    hide Build, CellBytes, Get32, Get64, Cells, At;
    var j := Cells(es, len)[u];
    if j < 0 {
      ZeroFields(file, at, b);
    } else {
      EntryCell(file, at, b, es[j]);
    }
  }
}
