/** Byte strings and the web-form percent encoding of Ruby's `CGI.escape`,
    as the request signer applies it to every key and value. */
module FormEncoding {

  newtype byte = b: int | 0 <= b < 256
  type Bytes = seq<byte>

  const SPACE: byte := 32
  const PERCENT: byte := 37
  const AMP: byte := 38
  const PLUS: byte := 43
  const EQUALS: byte := 61

  /** The bytes of a string literal of the model, one byte per character
      (every literal here is ASCII; a character above 255 would become `?`). */
  function Ascii(s: string): (r: Bytes)
    ensures |r| == |s|
    ensures forall i :: 0 <= i < |s| && s[i] as int < 256 ==> r[i] as int == s[i] as int
  {
    seq(|s|, i requires 0 <= i < |s| => if s[i] as int < 256 then s[i] as int as byte else 63)
  }

  /** The bytes `CGI.escape` passes through: `a-z A-Z 0-9 _ . - ~`. */
  predicate Unreserved(b: byte) {
    ('a' as int <= b as int <= 'z' as int) || ('A' as int <= b as int <= 'Z' as int) ||
    ('0' as int <= b as int <= '9' as int) ||
    b as int == '_' as int || b as int == '.' as int || b as int == '-' as int || b as int == '~' as int
  }

  /** An upper-case hexadecimal digit, as `CGI.escape` writes them. */
  function HexDigit(n: int): (d: byte)
    requires 0 <= n < 16
    ensures IsHexDigit(d) && HexValue(d) == n
  {
    if n < 10 then (48 + n) as byte else (55 + n) as byte
  }

  predicate IsHexDigit(d: byte) {
    (48 <= d <= 57) || (65 <= d <= 70) || (97 <= d <= 102)
  }

  function HexValue(d: byte): (n: int)
    requires IsHexDigit(d)
  {
    if d <= 57 then d as int - 48 else if d <= 70 then d as int - 55 else d as int - 87
  }

  /** `%XX` for one byte. */
  function Percent(b: byte): Bytes {
    [PERCENT, HexDigit(b as int / 16), HexDigit(b as int % 16)]
  }

  /** `CGI.escape` of one byte: unreserved bytes unchanged, space as `+`,
      any other byte as `%XX`. */
  function EscapeByte(b: byte): Bytes {
    if Unreserved(b) then [b]
    else if b == SPACE then [PLUS]
    else Percent(b)
  }

  /** `CGI.escape` of a byte string. A literal `+` is never passed through
      (it is `%2B`), and neither are `&` and `=`, so the only `+` in the
      output stands for a space. */
  function Escape(s: Bytes): (r: Bytes)
    ensures |r| >= |s|
    ensures forall i :: 0 <= i < |r| ==> r[i] != AMP && r[i] != EQUALS
    ensures PLUS in r <==> SPACE in s
  {
    if s == [] then [] else EscapeByte(s[0]) + Escape(s[1..])
  }

  /** `gsub(/\+/, "%20")`: every `+` becomes `%20`, every other byte stays. */
  function ReplacePlus(s: Bytes): (r: Bytes)
    ensures PLUS !in r
  {
    if s == [] then []
    else (if s[0] == PLUS then Percent(SPACE) else [s[0]]) + ReplacePlus(s[1..])
  }

  lemma {:induction false} ReplacePlusAppend(a: Bytes, b: Bytes)
    ensures ReplacePlus(a + b) == ReplacePlus(a) + ReplacePlus(b)
    decreases |a|
  {
    if a == [] {
      assert a + b == b;
    } else {
      assert (a + b)[0] == a[0] && (a + b)[1..] == a[1..] + b;
      ReplacePlusAppend(a[1..], b);
    }
  }

  /** Reference definition of the encoding the signing scheme asks for:
      unreserved bytes unchanged, every other byte (space and `+` included)
      as `%XX`. */
  function PctEncode(s: Bytes): (r: Bytes)
    ensures forall i :: 0 <= i < |r| ==> r[i] != AMP && r[i] != EQUALS && r[i] != PLUS
  {
    if s == [] then [] else (if Unreserved(s[0]) then [s[0]] else Percent(s[0])) + PctEncode(s[1..])
  }

  /** Escaping and then replacing `+` by `%20` is exactly the reference
      percent encoding. */
  lemma {:induction false} ReplacePlusEscape(s: Bytes)
    ensures ReplacePlus(Escape(s)) == PctEncode(s)
    decreases |s|
  {
    if s != [] {
      ReplacePlusAppend(EscapeByte(s[0]), Escape(s[1..]));
      ReplacePlusEscape(s[1..]);
      var e := EscapeByte(s[0]);
      if Unreserved(s[0]) {
        assert ReplacePlus(e) == [s[0]] + ReplacePlus([]);
      } else if s[0] == SPACE {
        assert ReplacePlus(e) == Percent(SPACE) + ReplacePlus([]);
      } else {
        var p := Percent(s[0]);
        assert p[0] != PLUS && p[1] != PLUS && p[2] != PLUS;
        assert ReplacePlus(p) == [p[0]] + ReplacePlus(p[1..]);
        assert ReplacePlus(p[1..]) == [p[1]] + ReplacePlus(p[2..]);
        assert ReplacePlus(p[2..]) == [p[2]] + ReplacePlus([]);
        assert [p[0]] + ([p[1]] + ([p[2]] + [])) == p;
      }
    }
  }

  /** `CGI.unescape`: `+` as space, `%XX` with two hex digits as that byte,
      anything else unchanged. */
  function Unescape(s: Bytes): (r: Bytes)
    ensures |r| <= |s|
    decreases |s|
  {
    if s == [] then []
    else if s[0] == PLUS then [SPACE] + Unescape(s[1..])
    else if s[0] == PERCENT && |s| >= 3 && IsHexDigit(s[1]) && IsHexDigit(s[2]) then
      [(HexValue(s[1]) * 16 + HexValue(s[2])) as byte] + Unescape(s[3..])
    else [s[0]] + Unescape(s[1..])
  }

  lemma UnescapeEscapeByte(b: byte, rest: Bytes)
    ensures Unescape(EscapeByte(b) + rest) == [b] + Unescape(rest)
  {
    var e := EscapeByte(b);
    if Unreserved(b) {
      assert (e + rest)[1..] == rest;
    } else if b == SPACE {
      assert (e + rest)[1..] == rest;
    } else {
      assert (e + rest)[3..] == rest;
      assert HexValue(e[1]) * 16 + HexValue(e[2]) == b as int;
    }
  }

  /** `CGI.unescape` undoes `CGI.escape`: escaping loses nothing, so the
      canonical string can be recovered from the string to sign. */
  lemma {:induction false} UnescapeEscape(s: Bytes)
    ensures Unescape(Escape(s)) == s
    decreases |s|
  {
    if s != [] {
      UnescapeEscapeByte(s[0], Escape(s[1..]));
      UnescapeEscape(s[1..]);
    }
  }
}
