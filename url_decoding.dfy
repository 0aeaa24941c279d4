/** `java.net.URLDecoder.decode(s, "UTF-8")`, the decoding applied to the
    credential-offer URI: `+` is a space (the form-encoding rule), a run of
    `%XY` escapes is a run of octets read as UTF-8 (section 2.1 of RFC 3986),
    everything else stands for itself. `FormEncode` is the matching encoder
    (`URLEncoder.encode(s, "UTF-8")`), the partner the decoder inverts. */
module UrlDecoding {
  import opened Common
  import Utf8

  const ILLEGAL_HEX: string := "URLDecoder: Illegal hex characters in escape (%) pattern"
  const NEGATIVE_VALUE: string := ILLEGAL_HEX + " - negative value"
  const INCOMPLETE_ESCAPE: string := "URLDecoder: Incomplete trailing escape (%) pattern"

  /** A digit of radix 16 as `Character.digit` reads it: the ASCII digits
      and letters, and the fullwidth Latin letters A to F and a to f
      (U+FF21 to U+FF26, U+FF41 to U+FF46). */
  predicate IsHexDigit(c: char)
  {
    '0' <= c <= '9' || 'a' <= c <= 'f' || 'A' <= c <= 'F'
    || '\U{FF21}' <= c <= '\U{FF26}' || '\U{FF41}' <= c <= '\U{FF46}'
  }

  function HexValue(c: char): (v: nat)
    requires IsHexDigit(c)
    ensures v < 16
  {
    if '0' <= c <= '9' then (c as int - '0' as int) as nat
    else if 'a' <= c <= 'f' then (c as int - 'a' as int + 10) as nat
    else if 'A' <= c <= 'F' then (c as int - 'A' as int + 10) as nat
    else if '\U{FF21}' <= c <= '\U{FF26}' then (c as int - 0xFF21 + 10) as nat
    else (c as int - 0xFF41 + 10) as nat
  }

  /** The message of the `NumberFormatException` that
      `Integer.parseInt(s, i + 1, i + 3, 16)` raises on the two characters
      `c1c2` of an escape, failing at the first (index 0) or the second
      (index 1) of them. */
  function NumberFormatMessage(c1: char, c2: char, atSecond: bool): string
  {
    "Error at index " + (if atSecond then "1" else "0") + " in: \"" + [c1, c2] + "\""
  }

  /** The octet of the escape `%c1c2`, as `Integer.parseInt` reads the two
      characters in radix 16: two hex digits, or a sign followed by one digit
      (`%+7` is 0x07, `%-0` is 0). A negative value is refused with its own
      message; any other refusal carries the message of the
      `NumberFormatException`, which points at the first character that is
      not a digit (a leading sign being allowed). */
  function EscapeValue(c1: char, c2: char): (r: Result<Byte>)
    ensures r.Ok? <==> IsHexDigit(c2) && (IsHexDigit(c1) || c1 == '+' || (c1 == '-' && HexValue(c2) == 0))
    ensures r.Ok? && IsHexDigit(c1) ==> r.value == HexValue(c1) * 16 + HexValue(c2)
    ensures r.Ok? && !IsHexDigit(c1) ==> r.value == HexValue(c2)
    ensures r.Err? ==> r.error.IllegalArgument?
  {
    if IsHexDigit(c1) && IsHexDigit(c2) then Ok(HexValue(c1) * 16 + HexValue(c2))
    else if (c1 == '+' || c1 == '-') && IsHexDigit(c2) then
      if c1 == '-' && HexValue(c2) != 0 then Err(IllegalArgument(NEGATIVE_VALUE)) else Ok(HexValue(c2))
    else
      var atSecond := IsHexDigit(c1) || c1 == '+' || c1 == '-';
      Err(IllegalArgument(ILLEGAL_HEX + " - " + NumberFormatMessage(c1, c2, atSecond)))
  }

  /** The message of a refused escape: a negative value has its own suffix;
      otherwise the `NumberFormatException` points at the first character,
      unless that is a hex digit or a sign, and then at the second. Every
      message opens with the decoder's illegal-hex text. */
  lemma EscapeValueMessages(c1: char, c2: char)
    ensures c1 == '-' && IsHexDigit(c2) && HexValue(c2) != 0
            ==> EscapeValue(c1, c2) == Err(IllegalArgument(NEGATIVE_VALUE))
    ensures !IsHexDigit(c1) && c1 != '+' && c1 != '-'
            ==> EscapeValue(c1, c2) == Err(IllegalArgument(ILLEGAL_HEX + " - " + NumberFormatMessage(c1, c2, false)))
    ensures (IsHexDigit(c1) || c1 == '+' || c1 == '-') && !IsHexDigit(c2)
            ==> EscapeValue(c1, c2) == Err(IllegalArgument(ILLEGAL_HEX + " - " + NumberFormatMessage(c1, c2, true)))
    ensures EscapeValue(c1, c2).Err? ==> ILLEGAL_HEX + " - " <= EscapeValue(c1, c2).error.message
  {
  }

  /** Fullwidth hex letters are digits to `parseInt`: `%ＡＡ` and `%ａａ`
      are the octet 0xAA, and `%Ｇ0` is refused at index 0, as `Ｇ` is no
      digit of radix 16. */
  lemma {:induction false} FullwidthEscapes()
    ensures EscapeValue('\U{FF21}', '\U{FF21}') == Ok(0xAA)
    ensures EscapeValue('\U{FF41}', '\U{FF46}') == Ok(0xAF)
    ensures EscapeValue('\U{FF27}', '0').Err?
  {
  }

  /** The maximal run of escapes at the head of `s`: its octets and how many
      characters it takes. A `%` with fewer than two characters after it is
      an incomplete escape. */
  function EscapeRun(s: string): (r: Result<(seq<Byte>, nat)>)
    requires |s| >= 1 && s[0] == '%'
    ensures r.Ok? ==> 3 <= r.value.1 <= |s| && |r.value.0| * 3 == r.value.1
    ensures r.Ok? ==> r.value.1 == |s| || s[r.value.1] != '%'
    ensures r.Err? ==> r.error.IllegalArgument?
    decreases |s|
  {
    if |s| < 3 then Err(IllegalArgument(INCOMPLETE_ESCAPE))
    else
      var b :- EscapeValue(s[1], s[2]);
      if |s| > 3 && s[3] == '%' then
        var run :- EscapeRun(s[3..]);
        Ok(([b] + run.0, run.1 + 3))
      else Ok(([b], 3))
  }

  /** `URLDecoder.decode(s, UTF_8)`. */
  function Decode(s: string): (r: Result<string>)
    ensures r.Err? ==> r.error.IllegalArgument?
    decreases |s|
  {
    if |s| == 0 then Ok("")
    else if s[0] == '+' then
      var rest :- Decode(s[1..]);
      Ok(" " + rest)
    else if s[0] == '%' then
      var run :- EscapeRun(s);
      var rest :- Decode(s[run.1..]);
      Ok(Utf8.Decode(run.0) + rest)
    else
      var rest :- Decode(s[1..]);
      Ok([s[0]] + rest)
  }

  /** Characters `URLEncoder` leaves alone. */
  predicate IsUnreserved(c: char)
  {
    'a' <= c <= 'z' || 'A' <= c <= 'Z' || '0' <= c <= '9' || c == '.' || c == '-' || c == '*' || c == '_'
  }

  predicate NeedsEscape(c: char)
  {
    !IsUnreserved(c) && c != ' '
  }

  function HexDigit(d: nat): (c: char)
    requires d < 16
    ensures IsHexDigit(c) && HexValue(c) == d && IsUnreserved(c)
  {
    "0123456789ABCDEF"[d]
  }

  /** `%XY` for each octet, upper-case hex. */
  function Escapes(bs: seq<Byte>): (s: string)
    ensures |s| == 3 * |bs|
  {
    if |bs| == 0 then "" else ['%', HexDigit(bs[0] / 16), HexDigit(bs[0] % 16)] + Escapes(bs[1..])
  }

  function FormEncodeChar(c: char): string
  {
    if IsUnreserved(c) then [c] else if c == ' ' then "+" else Escapes(Utf8.EncodeChar(c))
  }

  /** `URLEncoder.encode(s, UTF_8)` for a string of Unicode scalar values. */
  function FormEncode(s: string): string
  {
    if |s| == 0 then "" else FormEncodeChar(s[0]) + FormEncode(s[1..])
  }

  /** The escape the encoder writes for an octet reads back as that octet. */
  lemma EscapeValueOfOctet(b: Byte)
    ensures EscapeValue(HexDigit(b / 16), HexDigit(b % 16)) == Ok(b)
  {
  }

  /** The run of escapes of `bs` ends where the next character is not `%`. */
  lemma {:induction false} EscapeRunEscapes(bs: seq<Byte>, t: string)
    requires |bs| >= 1
    requires |t| == 0 || t[0] != '%'
    ensures EscapeRun(Escapes(bs) + t) == Ok((bs, 3 * |bs|))
  {
    var s := Escapes(bs) + t;
    assert s[0] == '%' && EscapeValue(s[1], s[2]) == Ok(bs[0]) && s[3..] == Escapes(bs[1..]) + t by {
      assert Escapes(bs) == ['%', HexDigit(bs[0] / 16), HexDigit(bs[0] % 16)] + Escapes(bs[1..]);
      EscapeValueOfOctet(bs[0]);
    }
    if |bs| > 1 {
      EscapeRunEscapes(bs[1..], t);
      assert s[3] == '%';
      assert [bs[0]] + bs[1..] == bs;
    } else {
      assert s[3..] == t;
      assert bs == [bs[0]];
    }
  }

  lemma {:induction false} EscapesAppend(a: seq<Byte>, b: seq<Byte>)
    ensures Escapes(a + b) == Escapes(a) + Escapes(b)
  {
    if |a| > 0 {
      assert (a + b)[1..] == a[1..] + b;
      EscapesAppend(a[1..], b);
    } else {
      assert a + b == b;
    }
  }

  lemma {:induction false} FormEncodeAppend(a: string, b: string)
    ensures FormEncode(a + b) == FormEncode(a) + FormEncode(b)
  {
    if |a| > 0 {
      assert (a + b)[1..] == a[1..] + b;
      FormEncodeAppend(a[1..], b);
    } else {
      assert a + b == b;
    }
  }

  /** Length of the leading stretch of characters that are escaped. */
  function EscapedPrefix(s: string): (k: nat)
    ensures k <= |s|
    ensures forall i :: 0 <= i < k ==> NeedsEscape(s[i])
    ensures k < |s| ==> !NeedsEscape(s[k])
  {
    if |s| == 0 || !NeedsEscape(s[0]) then 0 else 1 + EscapedPrefix(s[1..])
  }

  /** A stretch of escaped characters is encoded as the escapes of its UTF-8
      octets. */
  lemma {:induction false} FormEncodeEscaped(s: string)
    requires forall i :: 0 <= i < |s| ==> NeedsEscape(s[i])
    ensures FormEncode(s) == Escapes(Utf8.Encode(s))
  {
    if |s| > 0 {
      FormEncodeEscaped(s[1..]);
      EscapesAppend(Utf8.EncodeChar(s[0]), Utf8.Encode(s[1..]));
    }
  }

  /** An escape run is made of `%` and ASCII hex digits only. */
  lemma {:induction false} EscapesAlphabet(bs: seq<Byte>)
    ensures forall i :: 0 <= i < |Escapes(bs)| ==>
      Escapes(bs)[i] == '%' || (IsHexDigit(Escapes(bs)[i]) && IsUnreserved(Escapes(bs)[i]))
  {
    if |bs| > 0 {
      EscapesAlphabet(bs[1..]);
      var e := Escapes(bs);
      assert e == ['%', HexDigit(bs[0] / 16), HexDigit(bs[0] % 16)] + Escapes(bs[1..]);
      forall i | 3 <= i < |e| ensures e[i] == '%' || (IsHexDigit(e[i]) && IsUnreserved(e[i])) {
        assert e[i] == Escapes(bs[1..])[i - 3];
      }
    }
  }

  /** The encoder never emits a character it does not escape itself unless
      that character is unreserved: in particular no `=`, `&` or space. */
  lemma {:induction false} FormEncodeAlphabet(s: string)
    ensures forall i :: 0 <= i < |FormEncode(s)| ==>
      var c := FormEncode(s)[i]; IsUnreserved(c) || c == '+' || c == '%'
  {
    if |s| > 0 {
      FormEncodeAlphabet(s[1..]);
      var head := FormEncodeChar(s[0]);
      var e := FormEncode(s);
      assert e == head + FormEncode(s[1..]);
      if !IsUnreserved(s[0]) && s[0] != ' ' {
        EscapesAlphabet(Utf8.EncodeChar(s[0]));
      }
      forall i | 0 <= i < |e| ensures IsUnreserved(e[i]) || e[i] == '+' || e[i] == '%' {
        if i >= |head| {
          assert e[i] == FormEncode(s[1..])[i - |head|];
        } else {
          assert e[i] == head[i];
        }
      }
    }
  }

  /** A character that is not escaped (itself, or `+` for a space) decodes
      back to itself. */
  lemma DecodeUnescapedChar(c: char, t: string)
    requires !NeedsEscape(c) && Decode(t).Ok?
    ensures Decode(FormEncodeChar(c) + t) == Ok([c] + Decode(t).value)
  {
    var x := FormEncodeChar(c) + t;
    if c == ' ' {
      assert FormEncodeChar(c) == "+";
    } else {
      assert FormEncodeChar(c) == [c];
      assert x[0] == c && c != '+' && c != '%';
    }
    assert x[1..] == t;
  }

  /** The encoding of a string that does not open with an escaped
      character does not open with `%`. */
  lemma FormEncodeOpening(s: string)
    requires |s| == 0 || !NeedsEscape(s[0])
    ensures |FormEncode(s)| == 0 || FormEncode(s)[0] != '%'
  {
    if |s| > 0 {
      assert FormEncode(s) == FormEncodeChar(s[0]) + FormEncode(s[1..]);
    }
  }

  /** A non-empty stretch of escaped characters, followed by text that does
      not open with `%`, becomes one run of escapes, which decodes back to
      the stretch. */
  lemma DecodeEscapedStretch(head: string, t: string)
    requires |head| >= 1 && forall i :: 0 <= i < |head| ==> NeedsEscape(head[i])
    requires |t| == 0 || t[0] != '%'
    requires Decode(t).Ok?
    ensures Decode(FormEncode(head) + t) == Ok(head + Decode(t).value)
  {
    FormEncodeEscaped(head);
    var bs := Utf8.Encode(head);
    assert |bs| >= 1 by {
      assert bs == Utf8.EncodeChar(head[0]) + Utf8.Encode(head[1..]);
    }
    var e := Escapes(bs) + t;
    EscapeRunEscapes(bs, t);
    assert e[3 * |bs|..] == t;
    Utf8.DecodeEncode(head);
  }

  lemma FormEncodeCons(s: string)
    requires |s| > 0
    ensures FormEncode(s) == FormEncodeChar(s[0]) + FormEncode(s[1..])
  {
  }

  /** Decoding inverts form-encoding: `decode(encode(s)) == s` for every
      string. */
  lemma {:induction false} DecodeFormEncode(s: string)
    ensures Decode(FormEncode(s)) == Ok(s)
    decreases |s|
  {
    if |s| > 0 {
      var k := EscapedPrefix(s);
      if k == 0 {
        var rest := FormEncode(s[1..]);
        DecodeFormEncode(s[1..]);
        FormEncodeCons(s);
        DecodeUnescapedChar(s[0], rest);
        assert [s[0]] + s[1..] == s;
      } else {
        var head, tail := s[..k], s[k..];
        var rest := FormEncode(tail);
        DecodeFormEncode(tail);
        assert s == head + tail;
        FormEncodeAppend(head, tail);
        FormEncodeOpening(tail);
        DecodeEscapedStretch(head, rest);
      }
    }
  }
}
