// The two conversions between text and bytes that the address type relies on:
// the UTF-8 bytes of a string (`str::as_bytes`) and the ASCII escaping of a
// byte string (`<[u8]>::escape_ascii`).
module Text {
  import opened Io

  /** Visible ASCII and the space, the only characters escaped output contains. */
  predicate Printable(c: char) {
    ' ' <= c <= '~'
  }

  predicate IsAscii(s: string) {
    forall i :: 0 <= i < |s| ==> (s[i] as int) < 0x80
  }

  /** The UTF-8 encoding of one Unicode scalar value. */
  function EncodeChar(c: char): (r: seq<byte>)
    ensures 1 <= |r| <= 4
    ensures |r| == 1 <==> (c as int) < 0x80
    ensures |r| == 1 ==> r[0] == c as int
    ensures |r| > 1 ==> 0xC0 <= r[0] && forall i :: 1 <= i < |r| ==> 0x80 <= r[i] < 0xC0
  {
    var n := c as int;
    if n < 0x80 then [n]
    else if n < 0x800 then [0xC0 + n / 0x40, 0x80 + n % 0x40]
    else if n < 0x1_0000 then [0xE0 + n / 0x1000, 0x80 + n / 0x40 % 0x40, 0x80 + n % 0x40]
    else [0xF0 + n / 0x4_0000, 0x80 + n / 0x1000 % 0x40, 0x80 + n / 0x40 % 0x40, 0x80 + n % 0x40]
  }

  /** The bytes of a string, as `str::as_bytes` exposes them (UTF-8). */
  function AsBytes(s: string): (r: seq<byte>)
    ensures |s| <= |r| <= 4 * |s|
    ensures |s| > 0 ==> (r[0] == 0 <==> s[0] == '\0')
  {
    if s == [] then [] else EncodeChar(s[0]) + AsBytes(s[1..])
  }

  /** On ASCII text the UTF-8 bytes are the character codes themselves. */
  lemma {:induction false} AsBytesOfAscii(s: string)
    requires IsAscii(s)
    ensures |AsBytes(s)| == |s|
    ensures forall i :: 0 <= i < |s| ==> AsBytes(s)[i] == s[i] as int
  {
    if s != [] {
      AsBytesOfAscii(s[1..]);
    }
  }

  const HEX_DIGITS: string := "0123456789abcdef"

  /** The escape of one byte: the named escapes, printable ASCII unchanged,
      and `\xNN` with lower-case hexadecimal digits for everything else. */
  function EscapeByte(b: byte): (r: string)
    ensures 1 <= |r| <= 4
    ensures forall i :: 0 <= i < |r| ==> Printable(r[i])
    ensures |r| == 1 <==> 0x20 <= b < 0x7F && b != '\\' as int && b != '\'' as int && b != '"' as int
    ensures |r| == 1 ==> r[0] as int == b
  {
    if b == '\t' as int then "\\t"
    else if b == '\r' as int then "\\r"
    else if b == '\n' as int then "\\n"
    else if b == '\\' as int then "\\\\"
    else if b == '\'' as int then "\\'"
    else if b == '"' as int then "\\\""
    else if 0x20 <= b < 0x7F then [b as char]
    else "\\x" + [HEX_DIGITS[b / 16], HEX_DIGITS[b % 16]]
  }

  /** `<[u8]>::escape_ascii`: the escapes of all bytes, in order. */
  function EscapeAscii(bs: seq<byte>): (r: string)
    ensures |bs| <= |r| <= 4 * |bs|
    ensures forall i :: 0 <= i < |r| ==> Printable(r[i])
  {
    if bs == [] then "" else EscapeByte(bs[0]) + EscapeAscii(bs[1..])
  }
}
