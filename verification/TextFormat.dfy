// The text form of a database: lines "+klen,dlen:key->data\n" and a final blank line.
// Parsing is defined on a whole input; printing is defined on a list of records.
module TextFormat {
  import opened Wrappers
  import opened Bytes
  import opened Uint32
  import opened Layout

  const PLUS: byte := '+' as int
  const COMMA: byte := ',' as int
  const COLON: byte := ':' as int
  const DASH: byte := '-' as int
  const ARROW: byte := '>' as int
  const NEWLINE: byte := '\n' as int

  // Longest preamble that the reader is sure to have whole: "+2147483639,2147483639:"
  const PREAMBLE_MAX: nat := 23

  // End of the run of digits that starts at i
  function DigitsEnd(s: seq<byte>, i: nat): (e: nat)
    requires i <= |s|
    ensures i <= e <= |s| && AllDigits(s[i..e]) && (e == |s| || !IsDigit(s[e]))
    decreases |s| - i
  {
    if i < |s| && IsDigit(s[i]) then
      var e := DigitsEnd(s, i + 1);
      assert s[i..e] == [s[i]] + s[i + 1..e];
      e
    else i
  }

  // A number and where it ends: at least one digit, value at most LEN_MAX
  function Number(s: seq<byte>, i: nat): (n: Option<(nat, nat)>)
    requires i <= |s|
    ensures n.Some? ==> n.value.0 <= LEN_MAX && i < n.value.1 <= |s|
  {
    var e := DigitsEnd(s, i);
    if e > i && Value(s[i..e]) <= LEN_MAX then Some((Value(s[i..e]), e)) else None
  }

  // A number and the separator after it; where the separator ends
  function Field(s: seq<byte>, i: nat, sep: byte): (n: Option<(nat, nat)>)
    requires i <= |s|
    ensures n.Some? ==> n.value.0 <= LEN_MAX && i < n.value.1 <= |s|
  {
    match Number(s, i)
    case None => None
    case Some((k, e)) => if e < |s| && s[e] == sep then Some((k, e + 1)) else None
  }

  datatype Preamble = Preamble(klen: nat, dlen: nat, size: nat)

  // "+klen,dlen:" at the start of s
  function Pre(s: seq<byte>): (p: Option<Preamble>)
    ensures p.Some? ==> p.value.klen <= LEN_MAX && p.value.dlen <= LEN_MAX && 0 < p.value.size <= |s|
  {
    if s == [] || s[0] != PLUS then None
    else
      match Field(s, 1, COMMA)
      case None => None
      case Some((k, e)) =>
        match Field(s, e, COLON)
        case None => None
        case Some((d, f)) => Some(Preamble(k, d, f))
  }

  // "key->data\n" at the start of s
  predicate Body(s: seq<byte>, klen: nat, dlen: nat) {
    && klen + dlen + 3 <= |s|
    && s[klen] == DASH && s[klen + 1] == ARROW && s[klen + 2 + dlen] == NEWLINE
  }

  function BodyRec(s: seq<byte>, klen: nat, dlen: nat): Rec
    requires Body(s, klen, dlen) && klen <= LEN_MAX && dlen <= LEN_MAX
  {
    Record(s[..klen], s[klen + 2..klen + 2 + dlen])
  }

  // The records of a whole input, or nothing when it is malformed
  function Parse(s: seq<byte>): (r: Option<seq<Rec>>)
    decreases |s|
  {
    if s != [] && s[0] == NEWLINE then Some([])
    else
      match Pre(s)
      case None => None
      case Some(p) =>
        var t := s[p.size..];
        if !Body(t, p.klen, p.dlen) then None
        else
          match Parse(t[p.klen + p.dlen + 3..])
          case None => None
          case Some(recs) => Some([BodyRec(t, p.klen, p.dlen)] + recs)
  }

  // Some line that parsing reaches has a preamble longer than PREAMBLE_MAX: its numbers have
  // leading zeros.
  predicate LongPreamble(s: seq<byte>)
    decreases |s|
  {
    && (s == [] || s[0] != NEWLINE)
    && Pre(s).Some?
    && var p := Pre(s).value;
       var t := s[p.size..];
       (p.size > PREAMBLE_MAX || (Body(t, p.klen, p.dlen) && LongPreamble(t[p.klen + p.dlen + 3..])))
  }

  // ----- a preamble seen in a prefix of the input

  lemma {:induction false} DigitsEndPrefix(a: seq<byte>, t: seq<byte>, i: nat)
    requires i <= |a|
    ensures DigitsEnd(a, i) < |a| ==> DigitsEnd(a + t, i) == DigitsEnd(a, i)
    ensures DigitsEnd(a + t, i) < |a| ==> DigitsEnd(a, i) == DigitsEnd(a + t, i)
    decreases |a| - i
  {
    if i < |a| && IsDigit(a[i]) {
      DigitsEndPrefix(a, t, i + 1);
    }
  }

  lemma NumberPrefix(a: seq<byte>, t: seq<byte>, i: nat)
    requires i <= |a|
    ensures DigitsEnd(a, i) < |a| || DigitsEnd(a + t, i) < |a| ==> Number(a + t, i) == Number(a, i)
  {
    DigitsEndPrefix(a, t, i);
    var e := DigitsEnd(a + t, i);
    if e < |a| {
      assert (a + t)[i..e] == a[i..e];
    }
  }

  lemma FieldPrefix(a: seq<byte>, t: seq<byte>, i: nat, sep: byte)
    requires i <= |a|
    ensures Field(a, i, sep).Some? ==> Field(a + t, i, sep) == Field(a, i, sep)
    ensures Field(a + t, i, sep).Some? && Field(a + t, i, sep).value.1 <= |a| ==> Field(a, i, sep) == Field(a + t, i, sep)
  {
    NumberPrefix(a, t, i);
  }

  // A preamble lies whole in a prefix or not at all.
  lemma PrePrefix(a: seq<byte>, t: seq<byte>)
    ensures Pre(a).Some? ==> Pre(a + t) == Pre(a)
    ensures Pre(a + t).Some? && Pre(a + t).value.size <= |a| ==> Pre(a) == Pre(a + t)
  {
    hide Field;
    if a != [] && a[0] == PLUS {
      FieldPrefix(a, t, 1, COMMA);
      var f := Field(a + t, 1, COMMA);
      if f.Some? && f.value.1 <= |a| {
        FieldPrefix(a, t, f.value.1, COLON);
      }
    }
  }

  // A field is digits up to its separator.
  lemma FieldDigits(s: seq<byte>, i: nat, sep: byte)
    requires i <= |s| && Field(s, i, sep).Some?
    ensures var e := Field(s, i, sep).value.1 - 1;
      s[e] == sep && forall j :: i <= j < e ==> IsDigit(s[j])
  {
    var e := DigitsEnd(s, i);
    assert forall j :: i <= j < e ==> s[i..e][j - i] == s[j];
  }

  // The colon that ends a preamble is its first.
  lemma PreColon(s: seq<byte>)
    requires Pre(s).Some?
    ensures var n := Pre(s).value.size;
      s[n - 1] == COLON && forall i :: 0 <= i < n - 1 ==> s[i] != COLON
  {
    hide Field;
    FieldDigits(s, 1, COMMA);
    FieldDigits(s, Field(s, 1, COMMA).value.1, COLON);
  }

  // ----- printing

  function Head(r: Rec): seq<byte> {
    [PLUS] + Decimal(|r.key|) + [COMMA] + Decimal(|r.data|) + [COLON]
  }

  function Line(r: Rec): seq<byte> {
    Head(r) + r.key + [DASH, ARROW] + r.data + [NEWLINE]
  }

  function Text(recs: seq<Rec>): seq<byte> {
    if recs == [] then [NEWLINE] else Line(recs[0]) + Text(recs[1..])
  }

  lemma {:induction false} DigitsEndRun(s: seq<byte>, i: nat, e: nat)
    requires i <= e <= |s| && AllDigits(s[i..e]) && (e == |s| || !IsDigit(s[e]))
    ensures DigitsEnd(s, i) == e
    decreases e - i
  {
    if i < e {
      assert s[i..e][0] == s[i] && s[i..e][1..] == s[i + 1..e];
      DigitsEndRun(s, i + 1, e);
    }
  }

  lemma FieldOf(a: seq<byte>, x: nat, sep: byte, t: seq<byte>)
    requires x <= LEN_MAX && !IsDigit(sep)
    ensures Field(a + Decimal(x) + [sep] + t, |a|, sep) == Some((x, |a| + |Decimal(x)| + 1))
  {
    hide Number, Decimal;
    NumberOf(a, x, [sep] + t);
    assert a + Decimal(x) + ([sep] + t) == a + Decimal(x) + [sep] + t;
  }

  lemma NumberOf(a: seq<byte>, x: nat, t: seq<byte>)
    requires x <= LEN_MAX && t != [] && !IsDigit(t[0])
    ensures Number(a + Decimal(x) + t, |a|) == Some((x, |a| + |Decimal(x)|))
  {
    hide Decimal;
    var s, e := a + Decimal(x) + t, |a| + |Decimal(x)|;
    assert s[|a|..e] == Decimal(x) && s[e] == t[0];
    DigitsEndRun(s, |a|, e);
    ValueDecimal(x);
  }

  // The preamble of a printed line
  lemma PreHead(r: Rec, t: seq<byte>)
    ensures Pre(Head(r) + t) == Some(Preamble(|r.key|, |r.data|, |Head(r)|)) && |Head(r)| <= PREAMBLE_MAX
  {
    hide Field, Decimal;
    var k, d := Decimal(|r.key|), Decimal(|r.data|);
    var s, a := Head(r) + t, [PLUS] + k + [COMMA];
    assert s == [PLUS] + k + [COMMA] + (d + [COLON] + t);
    FieldOf([PLUS], |r.key|, COMMA, d + [COLON] + t);
    assert s == a + d + [COLON] + t;
    FieldOf(a, |r.data|, COLON, t);
    WordDigits(|r.key|);
    WordDigits(|r.data|);
  }

  lemma LineBody(r: Rec, t: seq<byte>)
    ensures var s := r.key + [DASH, ARROW] + r.data + [NEWLINE] + t;
      && Body(s, |r.key|, |r.data|) && BodyRec(s, |r.key|, |r.data|) == r
      && s[|r.key| + |r.data| + 3..] == t
  {
  }

  // Parsing undoes printing, for arbitrary binary keys and data.
  lemma {:induction false} ParseText(recs: seq<Rec>)
    ensures Parse(Text(recs)) == Some(recs) && !LongPreamble(Text(recs))
  {
    hide Pre, Body, BodyRec, Head;
    if recs != [] {
      var r, rest := recs[0], Text(recs[1..]);
      var t := r.key + [DASH, ARROW] + r.data + [NEWLINE] + rest;
      assert Text(recs) == Head(r) + t;
      PreHead(r, t);
      LineBody(r, rest);
      HeadPlus(r);
      assert (Head(r) + t)[|Head(r)|..] == t;
      ParseText(recs[1..]);
      assert [r] + recs[1..] == recs;
    }
  }

  lemma HeadPlus(r: Rec)
    ensures Head(r) != [] && Head(r)[0] == PLUS
  {
  }

  // The text of one record, character by character
  lemma TextExample()
    ensures Text([Record(['a' as byte], ['b' as byte])])
      == ['+' as byte, '1' as byte, ',' as byte, '1' as byte, ':' as byte,
          'a' as byte, '-' as byte, '>' as byte, 'b' as byte, '\n' as byte, '\n' as byte]
    ensures Line(Record(['a' as byte], ['b' as byte, 'c' as byte]))
      == ['+' as byte, '1' as byte, ',' as byte, '2' as byte, ':' as byte,
          'a' as byte, '-' as byte, '>' as byte, 'b' as byte, 'c' as byte, '\n' as byte]
    ensures Decimal(4096) == ['4' as byte, '0' as byte, '9' as byte, '6' as byte]
  {
    var r := Record(['a' as byte], ['b' as byte]);
    assert [r][1..] == [];
    assert Decimal(40) == ['4' as byte, '0' as byte];
    assert Decimal(409) == Decimal(40) + ['9' as byte];
  }

  // ----- which texts are accepted

  // A number as the grammar has it: digits, perhaps with leading zeros
  predicate IsNumber(d: seq<byte>, n: nat) {
    d != [] && AllDigits(d) && Value(d) == n
  }

  function HeadWith(k: seq<byte>, d: seq<byte>): seq<byte> {
    ['+' as byte] + k + [',' as byte] + d + [':' as byte]
  }

  function BodyOf(r: Rec): seq<byte> {
    r.key + ['-' as byte, '>' as byte] + r.data + ['\n' as byte]
  }

  // s starts with one line for each record, in order, and an empty line.
  ghost predicate Spells(s: seq<byte>, recs: seq<Rec>)
    decreases |recs|
  {
    if recs == [] then s != [] && s[0] == '\n' as byte
    else exists k, d, rest :: SpellsLine(s, recs[0], k, d, rest) && Spells(rest, recs[1..])
  }

  ghost predicate SpellsLine(s: seq<byte>, r: Rec, k: seq<byte>, d: seq<byte>, rest: seq<byte>) {
    IsNumber(k, |r.key|) && IsNumber(d, |r.data|) && s == HeadWith(k, d) + BodyOf(r) + rest
  }

  // A number that is followed by something else is read whole.
  lemma FieldReads(a: seq<byte>, k: seq<byte>, n: nat, sep: byte, t: seq<byte>)
    requires IsNumber(k, n) && n <= LEN_MAX && !IsDigit(sep)
    ensures Field(a + k + [sep] + t, |a|, sep) == Some((n, |a| + |k| + 1))
  {
    var s, e := a + k + [sep] + t, |a| + |k|;
    assert s[|a|..e] == k && s[e] == sep;
    DigitsEndRun(s, |a|, e);
  }

  // ... and the other way round, what is read are digits and the separator.
  lemma FieldSplits(s: seq<byte>, i: nat, sep: byte)
    requires i <= |s| && Field(s, i, sep).Some?
    ensures var (n, e) := Field(s, i, sep).value;
      IsNumber(s[i..e - 1], n) && s[i..e] == s[i..e - 1] + [sep]
  {
  }

  lemma PreReads(k: seq<byte>, d: seq<byte>, klen: nat, dlen: nat, t: seq<byte>)
    requires IsNumber(k, klen) && IsNumber(d, dlen) && klen <= LEN_MAX && dlen <= LEN_MAX
    ensures Pre(HeadWith(k, d) + t) == Some(Preamble(klen, dlen, |HeadWith(k, d)|))
  {
    hide Field;
    var s, a := HeadWith(k, d) + t, [PLUS] + k + [COMMA];
    assert s == [PLUS] + k + [COMMA] + (d + [COLON] + t);
    FieldReads([PLUS], k, klen, COMMA, d + [COLON] + t);
    assert s == a + d + [COLON] + t;
    FieldReads(a, d, dlen, COLON, t);
  }

  lemma PreSplits(s: seq<byte>) returns (k: seq<byte>, d: seq<byte>)
    requires Pre(s).Some?
    ensures var p := Pre(s).value;
      IsNumber(k, p.klen) && IsNumber(d, p.dlen) && s[..p.size] == HeadWith(k, d)
  {
    hide Field;
    var e := Field(s, 1, COMMA).value.1;
    var f := Field(s, e, COLON).value.1;
    FieldSplits(s, 1, COMMA);
    FieldSplits(s, e, COLON);
    k, d := s[1..e - 1], s[e..f - 1];
    assert s[..f] == [s[0]] + s[1..e] + s[e..f];
  }

  lemma BodySplits(t: seq<byte>, klen: nat, dlen: nat)
    requires Body(t, klen, dlen) && klen <= LEN_MAX && dlen <= LEN_MAX
    ensures var r := BodyRec(t, klen, dlen);
      |r.key| == klen && |r.data| == dlen && t == BodyOf(r) + t[klen + dlen + 3..]
  {
  }

  lemma {:induction false} ParsedSpells(s: seq<byte>)
    requires Parse(s).Some?
    ensures Spells(s, Parse(s).value)
    decreases |s|
  {
    hide Pre, Body, BodyRec, HeadWith, BodyOf, IsNumber;
    if s == [] || s[0] != NEWLINE {
      var p := Pre(s).value;
      var t := s[p.size..];
      BodySize(t, p.klen, p.dlen);
      var rest := t[p.klen + p.dlen + 3..];
      var k, d := PreSplits(s);
      BodySplits(t, p.klen, p.dlen);
      ParsedSpells(rest);
      var r := BodyRec(t, p.klen, p.dlen);
      AddLine(s, p.size, HeadWith(k, d), BodyOf(r), rest);
      assert SpellsLine(s, r, k, d, rest);
      SpellsMore(s, r, k, d, rest, Parse(rest).value);
    }
  }

  lemma SpellsMore(s: seq<byte>, r: Rec, k: seq<byte>, d: seq<byte>, rest: seq<byte>, more: seq<Rec>)
    requires SpellsLine(s, r, k, d, rest) && Spells(rest, more)
    ensures Spells(s, [r] + more)
  {
    hide SpellsLine;
    var recs := [r] + more;
    assert recs[1..] == more;
    assert SpellsLine(s, recs[0], k, d, rest) && Spells(rest, recs[1..]);
  }

  lemma BodySize(t: seq<byte>, klen: nat, dlen: nat)
    requires Body(t, klen, dlen)
    ensures klen + dlen + 3 <= |t|
  {
  }

  lemma AddLine(s: seq<byte>, n: nat, head: seq<byte>, body: seq<byte>, rest: seq<byte>)
    requires n <= |s| && s[..n] == head && s[n..] == body + rest
    ensures s == head + body + rest
  {
    assert s == s[..n] + s[n..];
  }

  lemma SpelledLine(s: seq<byte>, r: Rec, k: seq<byte>, d: seq<byte>, rest: seq<byte>)
    requires SpellsLine(s, r, k, d, rest)
    ensures s != [] && s[0] != NEWLINE && Pre(s) == Some(Preamble(|r.key|, |r.data|, |HeadWith(k, d)|))
    ensures var t := s[|HeadWith(k, d)|..];
      Body(t, |r.key|, |r.data|) && BodyRec(t, |r.key|, |r.data|) == r && t[|r.key| + |r.data| + 3..] == rest
  {
    hide Pre;
    var t := BodyOf(r) + rest;
    assert s == HeadWith(k, d) + t;
    PreReads(k, d, |r.key|, |r.data|, t);
    assert s[|HeadWith(k, d)|..] == t;
    LineBody(r, rest);
  }

  lemma {:induction false} SpelledParses(s: seq<byte>, recs: seq<Rec>)
    requires Spells(s, recs)
    ensures Parse(s) == Some(recs)
    decreases |recs|
  {
    hide Pre, Body, BodyRec, HeadWith, BodyOf, IsNumber, SpellsLine;
    if recs != [] {
      var k, d, rest :| SpellsLine(s, recs[0], k, d, rest) && Spells(rest, recs[1..]);
      SpelledLine(s, recs[0], k, d, rest);
      SpelledParses(rest, recs[1..]);
      assert [recs[0]] + recs[1..] == recs;
    }
  }

  // A text is read as the records exactly when it spells them: everything else is refused.
  lemma ParseIff(s: seq<byte>, recs: seq<Rec>)
    ensures Parse(s) == Some(recs) <==> Spells(s, recs)
  {
    hide Parse, Spells;
    if Parse(s) == Some(recs) {
      ParsedSpells(s);
    }
    if Spells(s, recs) {
      SpelledParses(s, recs);
    }
  }

  // ----- a preamble longer than the reader looks ahead

  lemma {:induction false} LeadingZeros(n: nat, t: seq<byte>)
    requires AllDigits(t)
    ensures var z := seq(n, _ => '0' as byte); AllDigits(z + t) && Value(z + t) == Value(t)
    decreases n + |t|
  {
    var z := seq(n, _ => '0' as byte);
    if t == [] {
      assert z + t == z;
      if n > 0 {
        assert z[..n - 1] == seq(n - 1, _ => '0' as byte) + [];
        LeadingZeros(n - 1, []);
      }
    } else {
      assert (z + t)[..|z + t| - 1] == z + t[..|t| - 1];
      LeadingZeros(n, t[..|t| - 1]);
    }
  }

  // "+", n zeros and "1,1:a->b", a newline and a blank line
  function PaddedText(n: nat): seq<byte> {
    HeadWith(seq(n, _ => '0' as byte) + ['1' as byte], ['1' as byte])
      + BodyOf(Record(['a' as byte], ['b' as byte])) + ['\n' as byte]
  }

  // It is well-formed, and its preamble is n + 5 bytes long.
  lemma PaddedIsLong(n: nat)
    ensures Parse(PaddedText(n)) == Some([Record(['a' as byte], ['b' as byte])])
    ensures LongPreamble(PaddedText(n)) <==> n + 5 > 23
  {
    var r := Record(['a' as byte], ['b' as byte]);
    var s, k, d: seq<byte>, rest := PaddedText(n), seq(n, _ => '0' as byte) + ['1' as byte], ['1' as byte], [NEWLINE];
    LeadingZeros(n, ['1' as byte]);
    assert d[..0] == [];
    assert SpellsLine(s, r, k, d, rest);
    SpelledLine(s, r, k, d, rest);
    SpellsMore(s, r, k, d, rest, []);
    assert [r] + [] == [r];
    SpelledParses(s, [r]);
    hide Pre, Body;
    assert !LongPreamble(rest);
  }

  // Any byte in place of the newline after the data makes the line malformed.
  lemma NewlineMissing(c: byte, t: seq<byte>)
    requires c != '\n' as byte
    ensures Parse(HeadWith(['1' as byte], ['1' as byte]) + ['a' as byte, '-' as byte, '>' as byte, 'b' as byte, c] + t).None?
  {
    var d: seq<byte> := ['1' as byte];
    var u := ['a' as byte, '-' as byte, '>' as byte, 'b' as byte, c] + t;
    assert d[..0] == [] && IsNumber(d, 1);
    assert HeadWith(d, d) + ['a' as byte, '-' as byte, '>' as byte, 'b' as byte, c] + t == HeadWith(d, d) + u;
    PreReads(d, d, 1, 1, u);
    assert (HeadWith(d, d) + u)[|HeadWith(d, d)|..] == u;
  }

  // ----- printing undoes parsing

  // No number in a preamble that parsing reaches has leading zeros.
  ghost predicate NoZeros(s: seq<byte>)
    decreases |s|
  {
    || (s != [] && s[0] == NEWLINE)
    || (Pre(s).Some?
        && var p := Pre(s).value;
           var t := s[p.size..];
           && s[..p.size] == HeadWith(Decimal(p.klen), Decimal(p.dlen))
           && Body(t, p.klen, p.dlen) && NoZeros(t[p.klen + p.dlen + 3..]))
  }

  lemma {:induction false} TextUndoes(s: seq<byte>)
    requires Parse(s).Some? && NoZeros(s)
    ensures Text(Parse(s).value) <= s
    decreases |s|
  {
    hide Pre, Body, BodyRec, HeadWith, BodyOf, Line;
    if s == [] || s[0] != NEWLINE {
      var p := Pre(s).value;
      var t := s[p.size..];
      BodySize(t, p.klen, p.dlen);
      var rest := t[p.klen + p.dlen + 3..];
      BodySplits(t, p.klen, p.dlen);
      TextUndoes(rest);
      var r := BodyRec(t, p.klen, p.dlen);
      AddLine(s, p.size, HeadWith(Decimal(p.klen), Decimal(p.dlen)), BodyOf(r), rest);
      TextMore(s, r, rest, Parse(rest).value);
    }
  }

  lemma TextMore(s: seq<byte>, r: Rec, rest: seq<byte>, more: seq<Rec>)
    requires s == HeadWith(Decimal(|r.key|), Decimal(|r.data|)) + BodyOf(r) + rest && Text(more) <= rest
    ensures Text([r] + more) <= s
  {
    hide Decimal;
    assert ([r] + more)[1..] == more;
    assert s == Line(r) + rest;
  }
}
