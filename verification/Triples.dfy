// nss/nss_mcdb_netdb_make.c: netgroup triples and their encoding, a 4-byte header then the
// non-empty strings, each ended by a NUL.  A list of triples is ended by two bytes of 0.
module Triples {
  import opened Bytes
  import opened Parts

  const FIELD_MAX := 255

  datatype Triple = Triple(host: seq<byte>, user: seq<byte>, domain: seq<byte>)

  predicate Encodable(t: Triple) {
    |t.host| <= FIELD_MAX && |t.user| <= FIELD_MAX && |t.domain| <= FIELD_MAX
  }

  // tolower in the C locale
  function ToLower(c: byte): byte {
    if 'A' as int <= c <= 'Z' as int then c + 32 else c
  }

  function Lower(s: seq<byte>): (r: seq<byte>)
    ensures |r| == |s|
  {
    seq(|s|, i requires 0 <= i < |s| => ToLower(s[i]))
  }

  // Capital letters become small ones, and nothing else changes.
  lemma LowerIs(s: seq<byte>, i: nat)
    requires i < |s|
    ensures !('A' as int <= Lower(s)[i] <= 'Z' as int)
    ensures 'A' as int <= s[i] <= 'Z' as int ==> Lower(s)[i] - 'a' as int == s[i] - 'A' as int
    ensures !('A' as int <= s[i] <= 'Z' as int) ==> Lower(s)[i] == s[i]
  {
  }

  // The same byte, or the small and the capital form of one letter
  predicate SameLetter(c: byte, d: byte) {
    || c == d
    || ('a' as int <= c <= 'z' as int && d - 'A' as int == c - 'a' as int)
    || ('a' as int <= d <= 'z' as int && c - 'A' as int == d - 'a' as int)
  }

  predicate SameButCase(a: seq<byte>, b: seq<byte>) {
    |a| == |b| && forall i :: 0 <= i < |a| ==> SameLetter(a[i], b[i])
  }

  // Two strings have one lower-case form exactly when they differ in the case of letters at most.
  lemma LowerSame(a: seq<byte>, b: seq<byte>)
    ensures Lower(a) == Lower(b) <==> SameButCase(a, b)
  {
    forall i | 0 <= i < |a| && i < |b|
      ensures Lower(a)[i] == Lower(b)[i] <==> SameLetter(a[i], b[i])
    {
      LowerIs(a, i);
      LowerIs(b, i);
    }
  }

  // Host ww, user u, domain d, and the triple that matches anything
  lemma EncodeExamples()
    ensures Encode(Triple(['w' as byte, 'w' as byte], ['u' as byte], ['d' as byte]))
      == [0, 11, 2, 1, 'w' as byte, 'w' as byte, 0, 'u' as byte, 0, 'd' as byte, 0]
    ensures Encode(Triple([], [], [])) == [0, 4, 0, 0]
    ensures Encodable(Triple(seq(255, _ => 1), seq(255, _ => 1), seq(255, _ => 1)))
    ensures forall t: Triple :: |t.host| == 256 || |t.user| == 256 || |t.domain| == 256 ==> !Encodable(t)
  {
  }

  // What is stored of a triple: host and domain in lower case
  function Folded(t: Triple): Triple {
    Triple(Lower(t.host), t.user, Lower(t.domain))
  }

  function Field(s: seq<byte>): seq<byte> {
    if s == [] then [] else s + [0]
  }

  function Encode(t: Triple): (r: seq<byte>)
    requires Encodable(t)
    ensures 4 <= |r| <= 4 + 3 * (FIELD_MAX + 1)
  {
    var text := Field(t.host) + Field(t.user) + Field(t.domain);
    [(4 + |text|) / 0x100, (4 + |text|) % 0x100, |t.host|, |t.user|] + text
  }

  predicate AllEncodable(ts: seq<Triple>) {
    forall i :: 0 <= i < |ts| ==> Encodable(ts[i])
  }

  function EncodeList(ts: seq<Triple>): seq<byte>
    requires AllEncodable(ts)
  {
    if ts == [] then [0, 0] else Encode(ts[0]) + EncodeList(ts[1..])
  }

  // What a reader finds at the start of an encoded triple
  predicate TripleAt(file: seq<byte>, at: nat, t: Triple) {
    var h, u := |Field(t.host)|, |Field(t.user)|;
    && at + 4 <= |file|
    && file[at] as int * 0x100 + file[at + 1] == 4 + h + u + |Field(t.domain)|
    && file[at + 2] == |t.host| && file[at + 3] == |t.user|
    && At(file, at + 4, Field(t.host))
    && At(file, at + 4 + h, Field(t.user))
    && At(file, at + 4 + h + u, Field(t.domain))
  }

  lemma EncodedAt(file: seq<byte>, at: nat, t: Triple)
    requires Encodable(t) && At(file, at, Encode(t))
    ensures TripleAt(file, at, t)
  {
    var h, u, d := Field(t.host), Field(t.user), Field(t.domain);
    var text := h + u + d;
    var head: seq<byte> := [(4 + |text|) / 0x100, (4 + |text|) % 0x100, |t.host|, |t.user|];
    assert Encode(t) == head + text;
    hide Field, Encode, At;
    AtConcat(file, at, head, text);
    AtConcat(file, at + 4, h + u, d);
    AtConcat(file, at + 4, h, u);
    HeadBytes(file, at, head);
  }

  lemma HeadBytes(file: seq<byte>, at: nat, head: seq<byte>)
    requires At(file, at, head) && |head| == 4
    ensures at + 4 <= |file| && forall k :: 0 <= k < 4 ==> file[at + k] == head[k]
  {
    forall k | 0 <= k < 4
      ensures file[at + k] == head[k]
    {
      assert file[at..at + 4][k] == file[at + k];
    }
  }

  lemma ListAt(file: seq<byte>, at: nat, ts: seq<Triple>)
    requires AllEncodable(ts) && At(file, at, EncodeList(ts))
    ensures at + 2 <= |file|
    ensures ts == [] ==> file[at] == 0 && file[at + 1] == 0
    ensures ts != [] ==> TripleAt(file, at, ts[0])
    ensures ts != [] ==> At(file, at + |Encode(ts[0])|, EncodeList(ts[1..]))
  {
    hide Encode, Field, TripleAt;
    if ts == [] {
      assert file[at..at + 2][0] == file[at] && file[at..at + 2][1] == file[at + 1];
    } else {
      AtConcat(file, at, Encode(ts[0]), EncodeList(ts[1..]));
      EncodedAt(file, at, ts[0]);
    }
  }

  // Two triples have one encoding exactly when they are stored alike.
  lemma EncodeInjective(t: Triple, s: Triple)
    requires Encodable(t) && Encodable(s)
    ensures Encode(t) == Encode(s) <==> t == s
  {
    if Encode(t) == Encode(s) {
      hide Encode;
      var file := Encode(t);
      assert file[0..0 + |file|] == file;
      EncodedAt(file, 0, t);
      EncodedAt(file, 0, s);
      FieldInjective(file, 4, t.host, s.host);
      FieldInjective(file, 4 + |Field(t.host)|, t.user, s.user);
      FieldInjective(file, 4 + |Field(t.host)| + |Field(t.user)|, t.domain, s.domain);
    }
  }

  lemma FieldInjective(file: seq<byte>, at: nat, a: seq<byte>, b: seq<byte>)
    requires |a| == |b| || |Field(a)| == |Field(b)|
    requires At(file, at, Field(a)) && At(file, at, Field(b))
    ensures a == b
  {
    if a != [] {
      assert a == Field(a)[..|a|] && b == Field(b)[..|a|];
    }
  }

  lemma Regroup(a: seq<byte>, b: seq<byte>, c: seq<byte>)
    ensures (a + b) + c == a + (b + c)
  {
  }

  // The list is the encodings of its triples one after another, then two bytes of 0.
  lemma {:induction false} EncodeListFlat(ts: seq<Triple>, keys: seq<seq<byte>>)
    requires AllEncodable(ts) && |keys| == |ts| && forall i :: 0 <= i < |ts| ==> keys[i] == Encode(ts[i])
    ensures Flat(keys) + [0, 0] == EncodeList(ts)
  {
    if ts != [] {
      hide Encode, Flat, Encodable;
      EncodeListFlat(ts[1..], keys[1..]);
      FlatFirst(keys);
      Regroup(keys[0], Flat(keys[1..]), [0, 0]);
    }
  }
}
