/** JSON string contents: how the encoder escapes a text and how section 7 of RFC 8259 reads it. */
module JsonText {
  import opened Options
  import opened Text

  function LowerHex(d: nat): (c: char)
    requires d < 16
    ensures IsHex(c) && HexDigit(c) == d
  {
    if d < 10 then (d + '0' as int) as char else (d - 10 + 'a' as int) as char
  }

  function EscapeChar(c: char): (s: string)
    ensures s != ""
  {
    if c == '\"' then "\\\""
    else if c == '\\' then "\\\\"
    else if c as int == 8 then "\\b"
    else if c as int == 9 then "\\t"
    else if c as int == 10 then "\\n"
    else if c as int == 12 then "\\f"
    else if c as int == 13 then "\\r"
    else if c as int < 32 then "\\u00" + [LowerHex(c as int / 16), LowerHex(c as int % 16)]
    else [c]
  }

  /** What the encoder writes between the quotation marks. */
  function Escape(v: string): string {
    if v == "" then "" else EscapeChar(v[0]) + Escape(v[1..])
  }

  function Prepend(c: char, rest: Option<string>): Option<string> {
    if rest.Some? then Some([c] + rest.value) else None
  }

  function SimpleEscape(c: char): Option<char> {
    if c == '\"' || c == '\\' || c == '/' then Some(c)
    else if c == 'b' then Some(8 as char)
    else if c == 'f' then Some(12 as char)
    else if c == 'n' then Some(10 as char)
    else if c == 'r' then Some(13 as char)
    else if c == 't' then Some(9 as char)
    else None
  }

  predicate FourHex(s: string) {
    |s| >= 4 && forall i | 0 <= i < 4 :: IsHex(s[i])
  }

  /** The text a JSON string denotes; `None` for anything that may not stand between quotation
      marks, and for escaped surrogates, which the encoder never writes for Unicode text. */
  function Decode(s: string): Option<string> {
    if s == "" then Some("")
    else if s[0] == '\\' then
      if |s| < 2 then None
      else if s[1] == 'u' then
        if FourHex(s[2..]) && !(0xd800 <= HexValue(s[2..6]) < 0xe000) && HexValue(s[2..6]) < 0x1_0000
        then Prepend(HexValue(s[2..6]) as char, Decode(s[6..])) else None
      else if SimpleEscape(s[1]).Some? then Prepend(SimpleEscape(s[1]).value, Decode(s[2..]))
      else None
    else if s[0] == '\"' || s[0] as int < 32 then None
    else Prepend(s[0], Decode(s[1..]))
  }

  lemma FourDigits(s: string)
    requires |s| == 4 && forall i | 0 <= i < 4 :: IsHex(s[i])
    ensures HexValue(s) == 16 * (16 * (16 * HexDigit(s[0]) + HexDigit(s[1])) + HexDigit(s[2])) + HexDigit(s[3])
  {
    assert s[..3][..2] == s[..2] && s[..2][..1] == s[..1] && s[..1][..0] == "";
    assert HexValue(s[..1]) == HexDigit(s[0]);
    assert HexValue(s[..2]) == 16 * HexValue(s[..1]) + HexDigit(s[1]);
    assert HexValue(s[..3]) == 16 * HexValue(s[..2]) + HexDigit(s[2]);
  }

  /** A four-digit escape is read as the character of that number. */
  lemma DecodeUnicodeEscape(digits: string, rest: string)
    requires |digits| == 4 && (forall i | 0 <= i < 4 :: IsHex(digits[i])) && HexValue(digits) < 0xd800
    ensures Decode("\\u" + digits + rest) == Prepend(HexValue(digits) as char, Decode(rest))
  {
    var s := "\\u" + digits + rest;
    assert s[2..6] == digits && s[6..] == rest;
    assert FourHex(s[2..]);
  }

  lemma DecodeOfEscapedChar(c: char, rest: string)
    ensures Decode(EscapeChar(c) + rest) == Prepend(c, Decode(rest))
  {
    var e := EscapeChar(c);
    var s := e + rest;
    if |e| == 1 {
      assert s[1..] == rest;
    } else if |e| == 2 {
      assert s[2..] == rest;
    } else {
      var digits := "00" + [LowerHex(c as int / 16), LowerHex(c as int % 16)];
      FourDigits(digits);
      assert s == "\\u" + digits + rest;
      DecodeUnicodeEscape(digits, rest);
    }
  }

  lemma {:induction false} DecodeOfEscape(v: string)
    ensures Decode(Escape(v)) == Some(v)
  {
    if v != "" {
      DecodeOfEscape(v[1..]);
      DecodeOfEscapedChar(v[0], Escape(v[1..]));
      assert [v[0]] + v[1..] == v;
    }
  }
}
