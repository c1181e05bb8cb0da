/**
 * The pieces of the C library that the helper functions rely on, with their
 * ASCII ("C" locale) meanings: the uint8_t type, <ctype.h> classification,
 * tolower, and the "%02X" conversion of printf.
 */
module CLib {

  /** An unsigned 8-bit value, as C's uint8_t. */
  type uint8 = bv8

  /** The byte holding a value below 16. */
  function NibbleByte(d: nat): (b: uint8)
    requires d < 16
    ensures b as int == d
  {
    if d == 0 then 0x0
    else if d == 1 then 0x1
    else if d == 2 then 0x2
    else if d == 3 then 0x3
    else if d == 4 then 0x4
    else if d == 5 then 0x5
    else if d == 6 then 0x6
    else if d == 7 then 0x7
    else if d == 8 then 0x8
    else if d == 9 then 0x9
    else if d == 10 then 0xA
    else if d == 11 then 0xB
    else if d == 12 then 0xC
    else if d == 13 then 0xD
    else if d == 14 then 0xE
    else 0xF
  }

  /** The byte holding a value below 256, as the cast (unsigned char) gives it. */
  function ByteOf(v: nat): uint8
    requires v < 256
  {
    v as uint8
  }

  /** The same byte assembled from its two hexadecimal digits, without a cast. */
  function ByteFromNibbles(v: nat): (b: uint8)
    requires v < 256
    ensures b as int == v
  {
    (NibbleByte(v / 16) << 4) | NibbleByte(v % 16)
  }

  /** Casting a byte's value back to a byte gives the byte. */
  lemma ByteOfValue(b: uint8)
    ensures ByteOf(b as int) == b
  {
  }

  /** The cast keeps the value. */
  lemma ByteOfValueInverse(v: nat)
    requires v < 256
    ensures ByteOf(v) as int == v
  {
    ByteOfValue(ByteFromNibbles(v));
  }

  /** tolower in the "C" locale: only 'A'..'Z' change. */
  function ToLower(c: char): (r: char)
    ensures r == c <==> !('A' <= c <= 'Z')
    ensures !('A' <= r <= 'Z')
    ensures 'A' <= c <= 'Z' ==> 'a' <= r <= 'z' && r as int - 'a' as int == c as int - 'A' as int
    ensures IsLowerHex(r) <==> IsLowerHex(c) || 'A' <= c <= 'F'
  {
    if 'A' <= c <= 'Z' then (c as int + 32) as char else c
  }

  /** isdigit in the "C" locale. */
  predicate IsDigit(c: char)
    ensures IsDigit(c) ==> c != ':' && c != '\0' && !('A' <= c <= 'Z')
  {
    '0' <= c <= '9'
  }

  /** isspace in the "C" locale: space, \t, \n, \v, \f and \r. */
  predicate IsSpace(c: char)
    ensures IsSpace(c) ==> !IsLowerHex(c) && !IsUpperHex(c) && c != ':' && c != '\0'
  {
    c == ' ' || c == '\t' || c == '\n' || c == '\r' || c as int == 0x0B || c as int == 0x0C
  }

  /** A lower-case hexadecimal digit: what str2mac accepts after tolower. */
  predicate IsLowerHex(c: char) {
    IsDigit(c) || 'a' <= c <= 'f'
  }

  /** A hexadecimal digit in either case. */
  predicate IsHexChar(c: char) {
    IsLowerHex(ToLower(c))
  }

  /** An upper-case hexadecimal digit, as "%X" prints them. */
  predicate IsUpperHex(c: char) {
    IsDigit(c) || 'A' <= c <= 'F'
  }

  /** `isdigit(ch) ? ch - '0' : ch - 'a' + 10` for a lower-case hex digit. */
  function LowerHexValue(c: char): (v: nat)
    requires IsLowerHex(c)
    ensures v < 16
    ensures v < 10 <==> IsDigit(c)
  {
    if IsDigit(c) then c as int - '0' as int else c as int - 'a' as int + 10
  }

  /** The digit "%X" prints for a value below 16. */
  function UpperHexDigit(d: nat): (c: char)
    requires d < 16
    ensures IsUpperHex(c) && IsHexChar(c)
    ensures LowerHexValue(ToLower(c)) == d
  {
    if d < 10 then ('0' as int + d) as char else ('A' as int + d - 10) as char
  }

  /** "%02X" applied to one byte: two upper-case hex digits, high nibble first. */
  function Hex2(b: uint8): (s: string)
    ensures |s| == 2 && IsUpperHex(s[0]) && IsUpperHex(s[1])
    ensures LowerHexValue(ToLower(s[0])) * 16 + LowerHexValue(ToLower(s[1])) == b as int
  {
    [UpperHexDigit((b >> 4) as int), UpperHexDigit((b & 0xF) as int)]
  }

  /** The two characters Hex2 prints read back as the byte. */
  lemma Hex2Digits(h: string, b: uint8, c0: char, c1: char)
    requires h == Hex2(b) && c0 == h[0] && c1 == h[1]
    ensures IsLowerHex(ToLower(c0)) && IsLowerHex(ToLower(c1))
    ensures LowerHexValue(ToLower(c0)) * 16 + LowerHexValue(ToLower(c1)) == b as int
  {
  }

  /** Every upper-case hex digit is printed by "%X" for its own value. */
  lemma UpperHexDigitOfValue(c: char)
    requires IsUpperHex(c)
    ensures IsLowerHex(ToLower(c)) && UpperHexDigit(LowerHexValue(ToLower(c))) == c
  {
  }

  /** "%02X" of a byte prints the digits of its value. */
  lemma Hex2OfValue(b: uint8, d0: nat, d1: nat)
    requires d0 < 16 && d1 < 16 && b as int == d0 * 16 + d1
    ensures Hex2(b) == [UpperHexDigit(d0), UpperHexDigit(d1)]
  {
    var h := Hex2(b);
    UpperHexDigitOfValue(h[0]);
    UpperHexDigitOfValue(h[1]);
    DigitsUnique(LowerHexValue(ToLower(h[0])), LowerHexValue(ToLower(h[1])), d0, d1);
  }

  /** Two hexadecimal digits are determined by the value they spell. */
  lemma DigitsUnique(e0: nat, e1: nat, d0: nat, d1: nat)
    requires e0 < 16 && e1 < 16 && d0 < 16 && d1 < 16 && e0 * 16 + e1 == d0 * 16 + d1
    ensures e0 == d0 && e1 == d1
  {
  }

  /** "%02X" of the byte two upper-case hex digits spell prints those digits. */
  lemma Hex2OfDigits(c0: char, c1: char)
    requires IsUpperHex(c0) && IsUpperHex(c1)
    ensures Hex2(ByteOf(LowerHexValue(ToLower(c0)) * 16 + LowerHexValue(ToLower(c1)))) == [c0, c1]
  {
    UpperHexDigitOfValue(c0);
    UpperHexDigitOfValue(c1);
    var d0, d1 := LowerHexValue(ToLower(c0)), LowerHexValue(ToLower(c1));
    ByteOfValueInverse(d0 * 16 + d1);
    Hex2OfValue(ByteOf(d0 * 16 + d1), d0, d1);
  }

  /** "%02X" pads to two digits and prints them in upper case. */
  lemma Hex2Examples()
    ensures Hex2(0x5C) == "5C" && Hex2(0x0B) == "0B" && Hex2(0xFF) == "FF"
  {
  }
}
