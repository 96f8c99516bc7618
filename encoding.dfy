/**
 * The few pieces of the Kotlin standard library the emulator's logic leans on:
 * bytes read as unsigned values, `String.toByteArray()` (UTF-8),
 * `String.startsWith` and `String.equals(other, ignoreCase = true)`.
 */
module Encoding {

  /** A byte as the emulator reads it (`b.toInt() and 0xFF`): 0..255. */
  newtype Byte = x: int | 0 <= x < 256

  type Bytes = seq<Byte>

  predicate IsAsciiChar(c: char) {
    c as int < 0x80
  }

  predicate IsAscii(s: string) {
    forall i :: 0 <= i < |s| ==> IsAsciiChar(s[i])
  }

  /** The UTF-8 encoding of one Unicode scalar value. */
  function Utf8Char(c: char): (r: Bytes)
    ensures 1 <= |r| <= 4
    ensures |r| == 1 <==> IsAsciiChar(c)
    ensures IsAsciiChar(c) ==> r[0] as int == c as int
  {
    var n := c as int;
    if n < 0x80 then [n as Byte]
    else if n < 0x800 then [(0xC0 + n / 64) as Byte, (0x80 + n % 64) as Byte]
    else if n < 0x10000 then
      [(0xE0 + n / 4096) as Byte, (0x80 + (n / 64) % 64) as Byte, (0x80 + n % 64) as Byte]
    else
      [(0xF0 + n / 262144) as Byte, (0x80 + (n / 4096) % 64) as Byte,
       (0x80 + (n / 64) % 64) as Byte, (0x80 + n % 64) as Byte]
  }

  /** `String.toByteArray()`, whose default charset is UTF-8. */
  function Utf8Encode(s: string): (r: Bytes)
    ensures |r| >= |s|
    ensures IsAscii(s) ==> |r| == |s| && forall i :: 0 <= i < |s| ==> r[i] as int == s[i] as int
  {
    if |s| == 0 then [] else Utf8Char(s[0]) + Utf8Encode(s[1..])
  }

  /** A text of ASCII characters encodes as their codes. */
  lemma AsciiEncodesAsCodes(s: string, b: Bytes)
    requires |s| == |b|
    requires forall i :: 0 <= i < |s| ==> s[i] as int == b[i] as int < 0x80
    ensures Utf8Encode(s) == b
  {
    assert IsAscii(s);
  }

  /** `s.startsWith(prefix)`: an exact, case-sensitive prefix test. */
  predicate StartsWith(s: string, prefix: string) {
    |prefix| <= |s| && s[..|prefix|] == prefix
  }

  /** ASCII lower-casing; every string compared without case here is ASCII. */
  function LowerAscii(c: char): (r: char)
    ensures IsAsciiChar(c) <==> IsAsciiChar(r)
    ensures !('A' <= r <= 'Z')
  {
    if 'A' <= c <= 'Z' then (c as int - 'A' as int + 'a' as int) as char else c
  }

  /** `a.equals(b, ignoreCase = true)` on ASCII text. */
  predicate EqualsIgnoreCase(a: string, b: string) {
    |a| == |b| && forall i :: 0 <= i < |a| ==> LowerAscii(a[i]) == LowerAscii(b[i])
  }
}
