// uint32.h and uint32.c: the djb hash and the base-10 conversion.
module Uint32 {
  import opened Bytes

  const HASH_DJB_INIT: word := 5381

  // uint32_hash_djb_uchar: unsigned 32-bit shift and sum wrap around
  function HashDjbUchar(h: word, c: byte): word {
    HashBits(h as bv32, c as bv32) as int
  }

  function HashBits(h: bv32, c: bv32): bv32 {
    (h + (h << 5)) ^ c
  }

  // One step multiplies by 33, as 32-bit numbers do, and then takes the exclusive or with the byte.
  lemma HashStep(h: bv32, c: bv32) returns (next: bv32)
    requires c < 0x100
    ensures HashDjbUchar(h as int, c as int) == next as int && next ^ c == 33 * h
  {
    hide HashBits;
    next := HashBits(h, c);
    StepBits(h, c);
    TimesThenXor(h, c);
  }

  lemma StepBits(h: bv32, c: bv32)
    requires c < 0x100
    ensures HashDjbUchar(h as int, c as int) == HashBits(h, c) as int
  {
    hide HashBits;
    SameBits(h);
    SameBits(c);
  }

  lemma TimesThenXor(x: bv32, y: bv32)
    ensures HashBits(x, y) ^ y == 33 * x
  {
  }

  lemma SameBits(x: bv32)
    ensures (x as int) as bv32 == x
  {
  }

  // The hash as a fold over the bytes, last byte outermost.
  function HashFold(h: word, s: seq<byte>): word {
    if s == [] then h else HashDjbUchar(HashFold(h, s[..|s| - 1]), s[|s| - 1])
  }

  // The hash stored with a record whose key is `key`.
  function Hash(key: seq<byte>): word {
    HashFold(HASH_DJB_INIT, key)
  }

  method HashDjb(init: word, buf: seq<byte>) returns (h: word)
    ensures h == HashFold(init, buf)
  {
    h := init;
    for i := 0 to |buf|
      invariant h == HashFold(init, buf[..i])
    {
      assert buf[..i + 1][..i] == buf[..i];
      h := HashDjbUchar(h, buf[i]);
    }
    assert buf[..|buf|] == buf;
  }

  // Hashing in pieces is hashing the concatenation: a tag byte hashed ahead of the key, and a key
  // fed to the writer a buffer at a time, give the hash of the stored key.
  lemma {:induction false} HashConcat(h: word, a: seq<byte>, b: seq<byte>)
    ensures HashFold(h, a + b) == HashFold(HashFold(h, a), b)
  {
    if b == [] {
      assert a + b == a;
    } else {
      assert (a + b)[..|a + b| - 1] == a + b[..|b| - 1];
      HashConcat(h, a, b[..|b| - 1]);
    }
  }

  // A hash begins as the source's does, and its first byte is hashed first.
  lemma HashStarts(c: byte, s: seq<byte>)
    ensures HashFold(5381, []) == 5381 == HASH_DJB_INIT
    ensures HashFold(HASH_DJB_INIT, [c] + s) == HashFold(HashDjbUchar(HASH_DJB_INIT, c), s)
  {
    HashConcat(HASH_DJB_INIT, [c], s);
    assert [c][..0] == [];
  }

  // The letter a: its hash, its slot and its home in a table of two cells
  lemma HashOfA()
    ensures Hash(['a' as byte]) == 177604 && 177604 % 256 == 196 && 177604 / 256 % 2 == 1
  {
    StepOfA();
    hide HashDjbUchar;
    HashStarts('a' as byte, []);
    assert ['a' as byte] + [] == ['a' as byte];
  }

  lemma StepOfA()
    ensures HashDjbUchar(5381, 97) == 177604
  {
    hide HashBits;
    var h: bv32, c: bv32, next: bv32 := 5381, 97, 177604;
    StepBits(h, c);
    BitsOfA();
    assert h as int == 5381 && c as int == 97 && next as int == 177604;
  }

  lemma BitsOfA()
    ensures HashBits(5381, 97) == 177604
  {
  }

  predicate IsDigit(c: byte) {
    '0' as int <= c <= '9' as int
  }

  predicate AllDigits(s: seq<byte>) {
    forall i :: 0 <= i < |s| ==> IsDigit(s[i])
  }

  // The number written by a run of base-10 digits, leading zeros allowed.
  function Value(s: seq<byte>): nat
    requires AllDigits(s)
  {
    if s == [] then 0 else Value(s[..|s| - 1]) * 10 + (s[|s| - 1] - '0' as int)
  }

  // The digits of x, without leading zeros.
  function Decimal(x: nat): (s: seq<byte>)
    ensures |s| > 0 && AllDigits(s)
  {
    if x < 10 then ['0' as int + x] else Decimal(x / 10) + ['0' as int + x % 10]
  }

  lemma {:induction false} ValueDecimal(x: nat)
    ensures Value(Decimal(x)) == x
  {
    var s := Decimal(x);
    if x < 10 {
      assert s[..0] == [];
    } else {
      assert s[..|s| - 1] == Decimal(x / 10);
      ValueDecimal(x / 10);
    }
  }

  // Appending digits never makes a number smaller: a run that has passed a limit stays past it.
  lemma {:induction false} ValueGrows(s: seq<byte>, t: seq<byte>)
    requires AllDigits(s) && AllDigits(t)
    ensures AllDigits(s + t) && Value(s) <= Value(s + t)
    ensures t != [] ==> 10 * Value(s) <= Value(s + t)
  {
    if t == [] {
      assert s + t == s;
    } else {
      assert (s + t)[..|s + t| - 1] == s + t[..|t| - 1];
      ValueGrows(s, t[..|t| - 1]);
    }
  }

  function Pow10(n: nat): nat {
    if n == 0 then 1 else 10 * Pow10(n - 1)
  }

  lemma {:induction false} DecimalLength(x: nat, n: nat)
    requires 0 < n && x < Pow10(n)
    ensures |Decimal(x)| <= n
  {
    if x >= 10 {
      assert Pow10(0) == 1;
      DecimalLength(x / 10, n - 1);
    }
  }

  // At most 10 digits for any uint32_t
  lemma WordDigits(x: word)
    ensures |Decimal(x)| <= 10
  {
    assert Pow10(10) == 10_000_000_000 by { Pow10Ten(); }
    DecimalLength(x, 10);
  }

  lemma Pow10Ten()
    ensures Pow10(10) == 10_000_000_000
  {
    assert Pow10(4) == 10_000;
    assert Pow10(7) == 10_000_000;
  }

  // The digits of y, none for 0
  function Digits(y: nat): seq<byte> {
    if y == 0 then [] else Decimal(y)
  }

  // The last digit of y goes ahead of the digits done before it.
  lemma DigitsStep(y: nat, c: byte, done: seq<byte>)
    requires c == '0' as int + y % 10
    ensures Decimal(y) + done == Digits(y / 10) + ([c] + done)
  {
  }

  lemma TenDigits(x: word)
    ensures x / 10 < Pow10(9)
  {
    Pow10Ten();
  }

  // The loop of uint32_to_ascii_base10_loop: digits from the last one back
  method FillDigits(x: word, b: array<byte>) returns (i: nat)
    requires b.Length == 12
    modifies b
    ensures 2 <= i < 12 && b[i..] == Decimal(x)
  {
    hide Decimal;
    TenDigits(x);
    var y: nat := x / 10;
    i := 11;
    b[11] := x % 10 + '0' as int;
    DigitsStep(x, b[11], []);
    assert b[11..] == [b[11]] + [];
    while y != 0
      invariant 2 <= i < 12
      invariant y < Pow10(i - 2)
      invariant Decimal(x) == Digits(y) + b[i..]
    {
      DigitsLeft(y, i - 2);
      ghost var done := b[i..];
      i := i - 1;
      b[i] := y % 10 + '0' as int;
      assert b[i..] == [b[i]] + done;
      DigitsStep(y, b[i], done);
      y := y / 10;
    }
  }

  lemma DigitsLeft(y: nat, k: nat)
    requires 0 < y < Pow10(k)
    ensures k > 0 && y / 10 < Pow10(k - 1)
  {
  }

  // Copy the digits to the caller's buffer.
  method CopyOut(b: array<byte>, i: nat, buf: array<byte>, at: nat)
    requires i <= b.Length && at + (b.Length - i) <= buf.Length && b != buf
    modifies buf
    ensures buf[..] == old(buf[..at]) + b[i..] + old(buf[at + (b.Length - i)..])
  {
    forall k | 0 <= k < b.Length - i {
      buf[at + k] := b[i + k];
    }
  }

  // uint32_to_ascii_base10_loop: fills a local buffer from its end, then copies
  method ToAsciiBase10Loop(x: word, buf: array<byte>, at: nat) returns (n: nat)
    requires at + 10 <= buf.Length
    modifies buf
    ensures 1 <= n <= 10
    ensures buf[..] == old(buf[..at]) + Decimal(x) + old(buf[at + n..])
  {
    var b := new byte[12];
    var i := FillDigits(x, b);
    n := 12 - i;
    CopyOut(b, i, buf, at);
  }

  // uint32_to_ascii_base10: one and two digits are special-cased
  method ToAsciiBase10(x: word, buf: array<byte>, at: nat) returns (n: nat)
    requires at + 10 <= buf.Length
    modifies buf
    ensures 1 <= n <= 10
    ensures buf[..] == old(buf[..at]) + Decimal(x) + old(buf[at + n..])
  {
    if x < 10 {
      buf[at] := x + '0' as int;
      n := 1;
    } else if x < 100 {
      buf[at] := x / 10 + '0' as int;
      buf[at + 1] := x % 10 + '0' as int;
      n := 2;
      assert Decimal(x) == Decimal(x / 10) + ['0' as int + x % 10];
    } else {
      n := ToAsciiBase10Loop(x, buf, at);
    }
  }
}
