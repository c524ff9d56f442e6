/**
 * Fixed-width integers and the byte-level encodings shared by the frame
 * builder and the frame decoder: network-order (big-endian) fields as
 * htons/htonl/ntohs lay them out, and the characters of decimal and
 * hexadecimal text.
 */
module Bytes {
  type byte = x: int | 0 <= x < 0x100
  type uint16 = x: int | 0 <= x < 0x1_0000
  type uint32 = x: int | 0 <= x < 0x1_0000_0000
  /** A C++ `int` on the platforms the program is built for. */
  type int32 = x: int | -0x8000_0000 <= x < 0x8000_0000

  /** The 16-bit value stored big-endian at `s[off..off + 2]` (what ntohs yields). */
  function ReadBE16(s: seq<byte>, off: nat): uint16
    requires off + 2 <= |s|
  {
    s[off] as int * 0x100 + s[off + 1]
  }

  /** `v` in network byte order, as htons leaves it in memory. */
  function BE16(v: uint16): (r: seq<byte>)
    ensures |r| == 2 && ReadBE16(r, 0) == v
  {
    [v / 0x100, v % 0x100]
  }

  /** `v` in network byte order, as htonl leaves it in memory. */
  function BE32(v: uint32): (r: seq<byte>)
    ensures |r| == 4
    ensures ReadBE16(r, 0) as int * 0x1_0000 + ReadBE16(r, 2) == v
  {
    BE16(v / 0x1_0000) + BE16(v % 0x1_0000)
  }

  /** `v` as a `uint16_t` lies in memory on a little-endian host. */
  function LE16(v: uint16): (r: seq<byte>)
    ensures |r| == 2 && r[0] + r[1] as int * 0x100 == v
  {
    [v % 0x100, v / 0x100]
  }

  function Min(a: nat, b: nat): nat {
    if a < b then a else b
  }

  predicate IsDigit(ch: char) {
    '0' <= ch <= '9'
  }

  /** What C's isxdigit accepts. */
  predicate IsHexDigit(ch: char) {
    '0' <= ch <= '9' || 'a' <= ch <= 'f' || 'A' <= ch <= 'F'
  }

  function DigitValue(ch: char): (v: nat)
    requires IsDigit(ch)
    ensures v < 10
  {
    ch as int - '0' as int
  }

  function HexValue(ch: char): (v: nat)
    requires IsHexDigit(ch)
    ensures v < 16
    ensures IsDigit(ch) ==> v == DigitValue(ch)
  {
    if '0' <= ch <= '9' then ch as int - '0' as int
    else if 'a' <= ch <= 'f' then ch as int - 'a' as int + 10
    else ch as int - 'A' as int + 10
  }

  function DigitChar(d: nat): (ch: char)
    requires d < 10
    ensures IsDigit(ch) && DigitValue(ch) == d
  {
    ('0' as int + d) as char
  }

  /** The digit `std::hex` prints for `d` (lower case), as in the hex preview of PacketInfo::GetHexPreview. */
  function LowerHexChar(d: nat): (ch: char)
    requires d < 16
    ensures IsHexDigit(ch) && HexValue(ch) == d
    ensures !('A' <= ch <= 'Z')
  {
    if d < 10 then DigitChar(d) else ('a' as int + d - 10) as char
  }

  /** The digit `%X` prints for `d` (upper case), as in the "%02X" MAC text of macToStr. */
  function UpperHexChar(d: nat): (ch: char)
    requires d < 16
    ensures IsHexDigit(ch) && HexValue(ch) == d
    ensures !('a' <= ch <= 'z')
  {
    if d < 10 then DigitChar(d) else ('A' as int + d - 10) as char
  }
}
