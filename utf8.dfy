/** UTF-8 as used by `URLDecoder.decode(s, "UTF-8")` to turn the octets of a
    run of percent escapes into characters, and the encoding it inverts. */
module Utf8 {
  import opened Common

  /** U+FFFD, what the decoder puts in place of a malformed sequence. */
  const REPLACEMENT: char := '�'

  predicate IsContinuation(b: Byte)
  {
    0x80 <= b < 0xC0
  }

  /** The octets of one character, shortest form. */
  function EncodeChar(c: char): (bs: seq<Byte>)
    ensures 1 <= |bs| <= 4
    ensures (c as int < 0x80) == (|bs| == 1)
  {
    var cp := c as int;
    if cp < 0x80 then [cp]
    else if cp < 0x800 then [0xC0 + cp / 64, 0x80 + cp % 64]
    else if cp < 0x10000 then [0xE0 + cp / 4096, 0x80 + (cp / 64) % 64, 0x80 + cp % 64]
    else [0xF0 + cp / 262144, 0x80 + (cp / 4096) % 64, 0x80 + (cp / 64) % 64, 0x80 + cp % 64]
  }

  function Encode(s: string): seq<Byte>
  {
    if |s| == 0 then [] else EncodeChar(s[0]) + Encode(s[1..])
  }

  /** The well-formed character at the head of `bs`, with the number of octets
      it takes, or None when the head is not a well-formed sequence (a stray
      continuation octet, a truncated sequence, an overlong form, a surrogate,
      or a value beyond U+10FFFF). */
  function DecodeHead(bs: seq<Byte>): (r: Option<(char, nat)>)
    requires |bs| >= 1
    ensures r.Some? ==> 1 <= r.value.1 <= |bs| && r.value.1 <= 4
  {
    var b0 := bs[0] as int;
    if b0 < 0x80 then Some((b0 as char, 1))
    else if 0xC2 <= b0 < 0xE0 && |bs| >= 2 && IsContinuation(bs[1]) then
      Some((((b0 - 0xC0) * 64 + (bs[1] as int - 0x80)) as char, 2))
    else if 0xE0 <= b0 < 0xF0 && |bs| >= 3 && IsContinuation(bs[1]) && IsContinuation(bs[2]) then
      var cp := (b0 - 0xE0) * 4096 + (bs[1] as int - 0x80) * 64 + (bs[2] as int - 0x80);
      if 0x800 <= cp && !(0xD800 <= cp < 0xE000) then Some((cp as char, 3)) else None
    else if 0xF0 <= b0 < 0xF5 && |bs| >= 4 && IsContinuation(bs[1]) && IsContinuation(bs[2])
            && IsContinuation(bs[3]) then
      var cp := (b0 - 0xF0) * 262144 + (bs[1] as int - 0x80) * 4096 + (bs[2] as int - 0x80) * 64 + (bs[3] as int - 0x80);
      if 0x10000 <= cp < 0x110000 then Some((cp as char, 4)) else None
    else None
  }

  /** `new String(bytes, UTF_8)`: well-formed sequences become their
      characters; an octet that does not start one becomes U+FFFD. */
  function Decode(bs: seq<Byte>): (s: string)
    ensures |s| <= |bs|
    decreases |bs|
  {
    if |bs| == 0 then []
    else match DecodeHead(bs)
      case Some((c, n)) => [c] + Decode(bs[n..])
      case None => [REPLACEMENT] + Decode(bs[1..])
  }

  /** The decoder reads the encoding of one character back as that character,
      whatever follows it. */
  lemma DecodeHeadEncodeChar(c: char, rest: seq<Byte>)
    ensures DecodeHead(EncodeChar(c) + rest) == Some((c, |EncodeChar(c)|))
  {
    var cp := c as int;
    if 0x80 <= cp < 0x800 {
      DecodeTwoOctets(c, rest);
    } else if 0x800 <= cp < 0x10000 {
      DecodeThreeOctets(c, rest);
    } else if 0x10000 <= cp {
      DecodeFourOctets(c, rest);
    }
  }

  /** Base-64 digits of a two-digit number. */
  lemma TwoDigits(cp: int)
    requires 0 <= cp < 4096
    ensures cp == (cp / 64) * 64 + cp % 64 && cp / 64 < 64
  {
  }

  /** Base-64 digits of a three-digit number. */
  lemma ThreeDigits(cp: int)
    requires 0 <= cp
    ensures cp / 4096 == (cp / 64) / 64
    ensures cp == (cp / 4096) * 4096 + ((cp / 64) % 64) * 64 + cp % 64
  {
    var q := cp / 64;
    assert cp == q * 64 + cp % 64;
    assert q == (q / 64) * 64 + q % 64;
  }

  /** Base-64 digits of a four-digit number. */
  lemma FourDigits(cp: int)
    requires 0 <= cp
    ensures cp / 262144 == (cp / 4096) / 64
    ensures cp == (cp / 262144) * 262144 + ((cp / 4096) % 64) * 4096 + ((cp / 64) % 64) * 64 + cp % 64
  {
    var p := cp / 4096;
    ThreeDigits(cp);
    assert p == (p / 64) * 64 + p % 64;
    assert p / 64 == cp / 262144;
  }

  lemma DecodeTwoOctets(c: char, rest: seq<Byte>)
    requires 0x80 <= c as int < 0x800
    ensures DecodeHead(EncodeChar(c) + rest) == Some((c, 2))
  {
    var cp := c as int;
    TwoDigits(cp);
    var bs := EncodeChar(c) + rest;
    assert bs[0] == 0xC0 + cp / 64 && bs[1] == 0x80 + cp % 64;
  }

  lemma DecodeThreeOctets(c: char, rest: seq<Byte>)
    requires 0x800 <= c as int < 0x10000
    ensures DecodeHead(EncodeChar(c) + rest) == Some((c, 3))
  {
    var cp := c as int;
    ThreeDigits(cp);
    var bs := EncodeChar(c) + rest;
    assert bs[0] == 0xE0 + cp / 4096 && bs[1] == 0x80 + (cp / 64) % 64 && bs[2] == 0x80 + cp % 64;
  }

  lemma DecodeFourOctets(c: char, rest: seq<Byte>)
    requires 0x10000 <= c as int
    ensures DecodeHead(EncodeChar(c) + rest) == Some((c, 4))
  {
    var cp := c as int;
    FourDigits(cp);
    var bs := EncodeChar(c) + rest;
    assert bs[0] == 0xF0 + cp / 262144 && bs[1] == 0x80 + (cp / 4096) % 64;
    assert bs[2] == 0x80 + (cp / 64) % 64 && bs[3] == 0x80 + cp % 64;
  }

  /** Decoding inverts encoding: the round trip that the percent-decoding of
      a form-encoded value relies on. */
  lemma {:induction false} DecodeEncode(s: string)
    ensures Decode(Encode(s)) == s
  {
    if |s| > 0 {
      var head := EncodeChar(s[0]);
      var bs := Encode(s);
      DecodeHeadEncodeChar(s[0], Encode(s[1..]));
      assert bs[|head|..] == Encode(s[1..]);
      DecodeEncode(s[1..]);
      assert s == [s[0]] + s[1..];
    }
  }

  /** Encoding a concatenation is concatenating the encodings. */
  lemma {:induction false} EncodeAppend(a: string, b: string)
    ensures Encode(a + b) == Encode(a) + Encode(b)
  {
    if |a| > 0 {
      assert (a + b)[1..] == a[1..] + b;
      EncodeAppend(a[1..], b);
    } else {
      assert a + b == b;
    }
  }
}
