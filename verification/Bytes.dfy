// Bytes and the big-endian pack and unpack macros used for every number in an mcdb file.
module Bytes {
  type byte = b: int | 0 <= b < 0x100

  // uint32_t and uint64_t (uintptr_t in a 64-bit build)
  type word = w: int | 0 <= w < 0x1_0000_0000
  type long = w: int | 0 <= w < 0x1_0000_0000_0000_0000

  const UINT_MAX: word := 0xFFFF_FFFF
  const INT_MAX: word := 0x7FFF_FFFF

  function Pack32(w: word): (s: seq<byte>)
    ensures |s| == 4
  {
    [w / 0x100_0000, w / 0x1_0000 % 0x100, w / 0x100 % 0x100, w % 0x100]
  }

  function Unpack32(s: seq<byte>): word
    requires |s| == 4
  {
    ((s[0] as int * 0x100 + s[1]) * 0x100 + s[2]) * 0x100 + s[3]
  }

  function Pack64(w: long): (s: seq<byte>)
    ensures |s| == 8
  {
    Pack32(w / 0x1_0000_0000) + Pack32(w % 0x1_0000_0000)
  }

  function Unpack64(s: seq<byte>): long
    requires |s| == 8
  {
    Unpack32(s[..4]) * 0x1_0000_0000 + Unpack32(s[4..])
  }

  // The unpack macros applied to a position of a mapped file.
  function Get32(file: seq<byte>, at: nat): word
    requires at + 4 <= |file|
  {
    Unpack32(file[at..at + 4])
  }

  function Get64(file: seq<byte>, at: nat): long
    requires at + 8 <= |file|
  {
    Unpack64(file[at..at + 8])
  }

  // The most significant byte comes first.
  lemma PackedFirst(w: word)
    ensures var s := Pack32(w);
      w == ((s[0] as int * 0x100 + s[1]) * 0x100 + s[2]) * 0x100 + s[3]
  {
    UnpackPack32(w);
  }

  lemma PackedFirst64(w: long)
    ensures var s := Pack64(w);
      && w / 0x1_0000_0000 == ((s[0] as int * 0x100 + s[1]) * 0x100 + s[2]) * 0x100 + s[3]
      && w % 0x1_0000_0000 == ((s[4] as int * 0x100 + s[5]) * 0x100 + s[6]) * 0x100 + s[7]
  {
    hide Pack32;
    PackedFirst(w / 0x1_0000_0000);
    PackedFirst(w % 0x1_0000_0000);
  }

  lemma UnpackPack32(w: word)
    ensures Unpack32(Pack32(w)) == w
  {
    assert w / 0x1_0000 == w / 0x100_0000 * 0x100 + w / 0x1_0000 % 0x100;
    assert w / 0x100 == w / 0x1_0000 * 0x100 + w / 0x100 % 0x100;
  }

  lemma UnpackPack64(w: long)
    ensures Unpack64(Pack64(w)) == w
  {
    var hi, lo := Pack32(w / 0x1_0000_0000), Pack32(w % 0x1_0000_0000);
    assert Pack64(w)[..4] == hi && Pack64(w)[4..] == lo;
    UnpackPack32(w / 0x1_0000_0000);
    UnpackPack32(w % 0x1_0000_0000);
  }
}
