/** Bytes, as Python's bytes type holds them. */
module Bytes {
  type Byte = i: int | 0 <= i < 256

  const TAB: Byte := 9
  const LF: Byte := 10
  const CR: Byte := 13
  const SPACE: Byte := 32

  /** Decoding as ASCII: one character for each byte below 128. */
  predicate IsAscii(s: seq<Byte>) {
    forall i | 0 <= i < |s| :: s[i] < 128
  }

  function Ascii(s: seq<Byte>): (r: string)
    ensures |r| == |s|
    ensures forall i | 0 <= i < |s| :: r[i] == s[i] as char
  {
    if s == [] then "" else [s[0] as char] + Ascii(s[1..])
  }

  /** One to four bytes that encode one code point (Unicode Standard, table 3-7): the length of
      the encoding at the front of s, or 0. */
  function Utf8Length(s: seq<Byte>): (n: nat)
    ensures n <= |s|
  {
    if s == [] then 0
    else if s[0] < 0x80 then 1
    else if 0xC2 <= s[0] <= 0xDF then
      if |s| >= 2 && Trail(s[1]) then 2 else 0
    else if 0xE0 <= s[0] <= 0xEF then
      if |s| >= 3 && (if s[0] == 0xE0 then 0xA0 else 0x80) <= s[1] <= (if s[0] == 0xED then 0x9F else 0xBF)
          && Trail(s[2])
      then 3 else 0
    else if 0xF0 <= s[0] <= 0xF4 then
      if |s| >= 4 && (if s[0] == 0xF0 then 0x90 else 0x80) <= s[1] <= (if s[0] == 0xF4 then 0x8F else 0xBF)
         && Trail(s[2]) && Trail(s[3])
      then 4 else 0
    else 0
  }

  predicate Trail(b: Byte) {
    0x80 <= b <= 0xBF
  }

  /** Decoding as UTF-8 succeeds. */
  predicate IsUtf8(s: seq<Byte>) {
    s == [] || (Utf8Length(s) > 0 && IsUtf8(s[Utf8Length(s)..]))
  }
}
