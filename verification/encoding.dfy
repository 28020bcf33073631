/** Byte buffers and the two text encodings of a SHA-256 digest that the
    plugin turns into file names: lowercase hexadecimal (`digest("hex")`)
    and standard padded base64 (`digest("base64")`). The digest itself is an
    oracle of the host; only its encoding is modelled here. */
module Encoding {

  newtype byte = x: int | 0 <= x < 256

  type Buffer = seq<byte>

  /** The lowercase hex character of a nibble. */
  function HexDigit(v: nat): (c: char)
    requires v < 16
  {
    if v < 10 then ('0' as int + v) as char else ('a' as int + v - 10) as char
  }

  predicate IsHexChar(c: char) {
    '0' <= c <= '9' || 'a' <= c <= 'f'
  }

  /** Two lowercase hex characters per byte, high nibble first. */
  function Hex(b: Buffer): (r: string)
    ensures |r| == 2 * |b|
    ensures forall i :: 0 <= i < |r| ==> IsHexChar(r[i])
  {
    if |b| == 0 then ""
    else [HexDigit(b[0] as int / 16), HexDigit(b[0] as int % 16)] + Hex(b[1..])
  }

  function HexValue(c: char): (v: nat)
    requires IsHexChar(c)
    ensures v < 16 && HexDigit(v) == c
  {
    if '0' <= c <= '9' then c as int - '0' as int else c as int - 'a' as int + 10
  }

  function HexDecode(s: string): Buffer
    requires |s| % 2 == 0
    requires forall i :: 0 <= i < |s| ==> IsHexChar(s[i])
  {
    if |s| == 0 then []
    else [(HexValue(s[0]) * 16 + HexValue(s[1])) as byte] + HexDecode(s[2..])
  }

  /** Hex encoding loses nothing: decoding gives the digest back. */
  lemma {:induction false} HexRoundTrip(b: Buffer)
    ensures HexDecode(Hex(b)) == b
  {
    if |b| > 0 {
      var s := Hex(b);
      var hi, lo := b[0] as int / 16, b[0] as int % 16;
      assert s[0] == HexDigit(hi) && s[1] == HexDigit(lo);
      assert HexValue(s[0]) == hi && HexValue(s[1]) == lo;
      assert s[2..] == Hex(b[1..]);
      HexRoundTrip(b[1..]);
      assert HexDecode(s) == [b[0]] + HexDecode(s[2..]);
      assert b == [b[0]] + b[1..];
    }
  }

  /** A hex file name never contains a path separator. */
  lemma HexHasNoSlash(b: Buffer)
    ensures '/' !in Hex(b)
  {
  }

  /** The character of a six-bit group in the standard base64 alphabet. */
  function Sextet(v: nat): (c: char)
    requires v < 64
  {
    if v < 26 then ('A' as int + v) as char
    else if v < 52 then ('a' as int + v - 26) as char
    else if v < 62 then ('0' as int + v - 52) as char
    else if v == 62 then '+'
    else '/'
  }

  predicate IsBase64Char(c: char) {
    'A' <= c <= 'Z' || 'a' <= c <= 'z' || '0' <= c <= '9' || c == '+' || c == '/'
  }

  /** One base64 group: one to three bytes as four characters, padded with
      `=` when fewer than three bytes remain. */
  function EncodeGroup(g: Buffer): (q: string)
    requires 1 <= |g| <= 3
    ensures |q| == 4
  {
    var b0 := g[0] as int;
    var b1 := if |g| > 1 then g[1] as int else 0;
    var b2 := if |g| > 2 then g[2] as int else 0;
    [Sextet(b0 / 4), Sextet(b0 % 4 * 16 + b1 / 16),
     if |g| > 1 then Sextet(b1 % 16 * 4 + b2 / 64) else '=',
     if |g| > 2 then Sextet(b2 % 64) else '=']
  }

  /** Standard base64 with `=` padding, three bytes to four characters. */
  function Base64(b: Buffer): (r: string)
    ensures |r| == 4 * ((|b| + 2) / 3)
  {
    if |b| == 0 then ""
    else if |b| <= 3 then EncodeGroup(b)
    else
      assert (|b| + 2) / 3 == (|b[3..]| + 2) / 3 + 1;
      EncodeGroup(b[..3]) + Base64(b[3..])
  }

  /** The fourth character of a base64 text encodes the low six bits of the
      third byte, so any digest whose third byte ends in six one-bits has a
      `/` there. */
  lemma Base64SlashInside(b: Buffer)
    requires |b| >= 3 && b[2] as int % 64 == 63
    ensures Base64(b)[3] == '/'
  {
    if |b| > 3 {
      assert Base64(b)[3] == EncodeGroup(b[..3])[3];
    }
  }

  lemma Base64LengthMultiple(b: Buffer)
    ensures |Base64(b)| % 4 == 0
  {
    var k := (|b| + 2) / 3;
    assert |Base64(b)| == 4 * k;
  }

  /** The six-bit value of a base64 character; 0 for any other character. */
  function Base64Value(c: char): (v: nat)
    ensures v < 64
    ensures IsBase64Char(c) ==> Sextet(v) == c
  {
    if 'A' <= c <= 'Z' then c as int - 'A' as int
    else if 'a' <= c <= 'z' then c as int - 'a' as int + 26
    else if '0' <= c <= '9' then c as int - '0' as int + 52
    else if c == '+' then 62
    else if c == '/' then 63
    else 0
  }

  lemma SextetValue(v: nat)
    requires v < 64
    ensures Base64Value(Sextet(v)) == v
  {
  }

  /** One group of four characters back to its one to three bytes; `=` in
      the third or fourth place marks the padding. */
  function DecodeGroup(q: string): Buffer
    requires |q| == 4
  {
    var v0, v1 := Base64Value(q[0]), Base64Value(q[1]);
    var x0 := (v0 * 4 + v1 / 16) as byte;
    if q[2] == '=' then [x0]
    else
      var v2 := Base64Value(q[2]);
      var x1 := (v1 % 16 * 16 + v2 / 4) as byte;
      if q[3] == '=' then [x0, x1]
      else [x0, x1, (v2 % 4 * 64 + Base64Value(q[3])) as byte]
  }

  function Base64Decode(s: string): Buffer
    requires |s| % 4 == 0
  {
    if |s| == 0 then [] else DecodeGroup(s[..4]) + Base64Decode(s[4..])
  }

  /** The three bytes of a group come back out of its four sextets. */
  lemma FirstByteBack(b0: nat, b1: nat)
    requires b0 < 256 && b1 < 256
    ensures b0 / 4 * 4 + (b0 % 4 * 16 + b1 / 16) / 16 == b0
  {
    assert b1 / 16 < 16;
    assert (b0 % 4 * 16 + b1 / 16) / 16 == b0 % 4;
  }

  lemma SecondByteBack(b0: nat, b1: nat, b2: nat)
    requires b0 < 256 && b1 < 256 && b2 < 256
    ensures (b0 % 4 * 16 + b1 / 16) % 16 * 16 + (b1 % 16 * 4 + b2 / 64) / 4 == b1
  {
    assert b1 / 16 < 16 && b2 / 64 < 4;
    assert (b0 % 4 * 16 + b1 / 16) % 16 == b1 / 16;
    assert (b1 % 16 * 4 + b2 / 64) / 4 == b1 % 16;
  }

  lemma ThirdByteBack(b1: nat, b2: nat)
    requires b1 < 256 && b2 < 256
    ensures (b1 % 16 * 4 + b2 / 64) % 4 * 64 + b2 % 64 == b2
  {
    assert b2 / 64 < 4;
    assert (b1 % 16 * 4 + b2 / 64) % 4 == b2 / 64;
  }

  /** Decoding a group gives back the bytes it encodes. */
  lemma GroupRoundTrip(g: Buffer)
    requires 1 <= |g| <= 3
    ensures DecodeGroup(EncodeGroup(g)) == g
    ensures |g| == 3 ==> EncodeGroup(g)[3] != '='
  {
    GroupFirstByte(g);
    if |g| > 1 {
      GroupSecondByte(g);
    }
    if |g| > 2 {
      GroupThirdByte(g);
    }
  }

  lemma GroupFirstByte(g: Buffer)
    requires 1 <= |g| <= 3
    ensures |DecodeGroup(EncodeGroup(g))| == |g|
    ensures DecodeGroup(EncodeGroup(g))[0] == g[0]
  {
    var b0 := g[0] as int;
    var b1 := if |g| > 1 then g[1] as int else 0;
    var v0, v1 := b0 / 4, b0 % 4 * 16 + b1 / 16;
    var q := EncodeGroup(g);
    assert q[0] == Sextet(v0) && q[1] == Sextet(v1);
    SextetValue(v0);
    SextetValue(v1);
    FirstByteBack(b0, b1);
  }

  lemma GroupSecondByte(g: Buffer)
    requires 2 <= |g| <= 3
    ensures |DecodeGroup(EncodeGroup(g))| >= 2
    ensures DecodeGroup(EncodeGroup(g))[1] == g[1]
  {
    var b0, b1 := g[0] as int, g[1] as int;
    var b2 := if |g| > 2 then g[2] as int else 0;
    var v1, v2 := b0 % 4 * 16 + b1 / 16, b1 % 16 * 4 + b2 / 64;
    var q := EncodeGroup(g);
    assert q[1] == Sextet(v1) && q[2] == Sextet(v2);
    SextetValue(v1);
    SextetValue(v2);
    SecondByteBack(b0, b1, b2);
  }

  lemma GroupThirdByte(g: Buffer)
    requires |g| == 3
    ensures |DecodeGroup(EncodeGroup(g))| == 3
    ensures DecodeGroup(EncodeGroup(g))[2] == g[2]
    ensures EncodeGroup(g)[3] != '='
  {
    var b1, b2 := g[1] as int, g[2] as int;
    var v2, v3 := b1 % 16 * 4 + b2 / 64, b2 % 64;
    var q := EncodeGroup(g);
    assert q[2] == Sextet(v2) && q[3] == Sextet(v3);
    SextetValue(v2);
    SextetValue(v3);
    ThirdByteBack(b1, b2);
  }

  /** Base64 encoding loses nothing: decoding gives the digest back. */
  lemma {:induction false} Base64RoundTrip(b: Buffer)
    ensures Base64Decode(Base64(b)) == b
  {
    if 1 <= |b| <= 3 {
      GroupRoundTrip(b);
      var s := Base64(b);
      assert s[..4] == s && s[4..] == "";
    } else if |b| > 3 {
      GroupRoundTrip(b[..3]);
      Base64RoundTrip(b[3..]);
      var s := Base64(b);
      assert s[..4] == EncodeGroup(b[..3]);
      assert s[4..] == Base64(b[3..]);
      assert b == b[..3] + b[3..];
    }
  }
}
