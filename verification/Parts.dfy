// Concatenations of byte strings, and the place of each part.
module Parts {
  import opened Bytes

  function Flat(parts: seq<seq<byte>>): seq<byte> {
    if parts == [] then [] else Flat(parts[..|parts| - 1]) + parts[|parts| - 1]
  }

  lemma {:induction false} FlatConcat(a: seq<seq<byte>>, b: seq<seq<byte>>)
    ensures Flat(a + b) == Flat(a) + Flat(b)
  {
    if b == [] {
      assert a + b == a;
    } else {
      assert (a + b)[..|a + b| - 1] == a + b[..|b| - 1];
      FlatConcat(a, b[..|b| - 1]);
    }
  }

  lemma FlatInit(parts: seq<seq<byte>>, i: nat)
    requires i < |parts|
    ensures Flat(parts[..i + 1]) == Flat(parts[..i]) + parts[i]
  {
    var head := parts[..i + 1];
    assert head[..|head| - 1] == parts[..i];
  }

  lemma FlatSplit(parts: seq<seq<byte>>, i: nat)
    requires i < |parts|
    ensures Flat(parts) == Flat(parts[..i]) + parts[i] + Flat(parts[i + 1..])
  {
    hide Flat;
    FlatInit(parts, i);
    assert parts == parts[..i + 1] + parts[i + 1..];
    FlatConcat(parts[..i + 1], parts[i + 1..]);
  }

  lemma FlatFirst(parts: seq<seq<byte>>)
    requires parts != []
    ensures Flat(parts) == parts[0] + Flat(parts[1..])
  {
    FlatSplit(parts, 0);
    assert Flat(parts[..0]) == [];
  }

  // Part i starts where the parts before it end.
  lemma FlatPart(parts: seq<seq<byte>>, i: nat)
    requires i < |parts|
    ensures var at := |Flat(parts[..i])|;
      at + |parts[i]| <= |Flat(parts)| && Flat(parts)[at..at + |parts[i]|] == parts[i]
    ensures |Flat(parts[..i + 1])| == |Flat(parts[..i])| + |parts[i]|
  {
    FlatSplit(parts, i);
    FlatInit(parts, i);
  }

  ghost predicate Uniform(parts: seq<seq<byte>>, width: nat) {
    forall i :: 0 <= i < |parts| ==> |parts[i]| == width
  }

  lemma {:induction false} FlatUniform(parts: seq<seq<byte>>, width: nat)
    requires Uniform(parts, width)
    ensures |Flat(parts)| == |parts| * width
  {
    if parts != [] {
      FlatUniform(parts[..|parts| - 1], width);
      assert (|parts| - 1) * width + width == |parts| * width;
    }
  }

  lemma UniformOffset(parts: seq<seq<byte>>, width: nat, i: nat)
    requires Uniform(parts, width) && i <= |parts|
    ensures |Flat(parts[..i])| == i * width
  {
    FlatUniform(parts[..i], width);
  }

  lemma UniformPart(parts: seq<seq<byte>>, width: nat, i: nat)
    requires Uniform(parts, width) && i < |parts|
    ensures i * width + width <= |Flat(parts)| && Flat(parts)[i * width..i * width + width] == parts[i]
  {
    UniformOffset(parts, width, i);
    FlatPart(parts, i);
  }

  // Overwriting one part of uniform width in place.
  lemma UniformUpdate(parts: seq<seq<byte>>, width: nat, i: nat, part: seq<byte>)
    requires Uniform(parts, width) && i < |parts| && |part| == width
    ensures i * width + width <= |Flat(parts)|
    ensures Flat(parts[i := part]) == Flat(parts)[..i * width] + part + Flat(parts)[i * width + width..]
  {
    hide Flat, Uniform;
    UniformPart(parts, width, i);
    UniformOffset(parts, width, i);
    FlatSplit(parts, i);
    FlatSplit(parts[i := part], i);
    assert parts[i := part][..i] == parts[..i] && parts[i := part][i + 1..] == parts[i + 1..];
    Middle(Flat(parts[..i]), parts[i], Flat(parts[i + 1..]), part);
  }

  lemma Middle(a: seq<byte>, m: seq<byte>, c: seq<byte>, n: seq<byte>)
    requires |n| == |m|
    ensures (a + m + c)[..|a|] + n + (a + m + c)[|a| + |m|..] == a + n + c
  {
  }

  // `part` lies in `file` at position `at`.
  predicate At(file: seq<byte>, at: nat, part: seq<byte>) {
    at + |part| <= |file| && file[at..at + |part|] == part
  }

  lemma AtSlice(file: seq<byte>, at: nat, part: seq<byte>, i: nat, j: nat)
    requires At(file, at, part) && i <= j <= |part|
    ensures At(file, at + i, part[i..j])
  {
    forall k | 0 <= k < j - i
      ensures file[at + i + k] == part[i..j][k]
    {
      assert file[at..at + |part|][i + k] == file[at + i + k];
    }
  }

  lemma AtConcat(file: seq<byte>, at: nat, a: seq<byte>, b: seq<byte>)
    requires At(file, at, a + b)
    ensures At(file, at, a) && At(file, at + |a|, b)
  {
    AtSlice(file, at, a + b, 0, |a|);
    AtSlice(file, at, a + b, |a|, |a + b|);
    assert (a + b)[0..|a|] == a;
    assert (a + b)[|a|..|a + b|] == b;
  }

  lemma AtPart(file: seq<byte>, at: nat, parts: seq<seq<byte>>, i: nat)
    requires At(file, at, Flat(parts)) && i < |parts|
    ensures At(file, at + |Flat(parts[..i])|, parts[i])
  {
    FlatSplit(parts, i);
    AtConcat(file, at, Flat(parts[..i]) + parts[i], Flat(parts[i + 1..]));
    AtConcat(file, at, Flat(parts[..i]), parts[i]);
  }

  lemma AtUniform(file: seq<byte>, at: nat, parts: seq<seq<byte>>, width: nat, i: nat)
    requires At(file, at, Flat(parts)) && i < |parts| && Uniform(parts, width)
    ensures At(file, at + i * width, parts[i])
  {
    hide Flat, At;
    UniformOffset(parts, width, i);
    AtPart(file, at, parts, i);
  }
}
