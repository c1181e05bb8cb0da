/**
 * printHexBuffer from src/helperFunctions.cpp: the debug rendering of a byte
 * buffer as "XX " triples in a fixed buffer of MAX_STR_LEN characters.
 */
module HexBuffer {
  import opened CLib

  /** MAX_STR_LEN: the size of the static text buffer. */
  const MaxStrLen: nat := 1000

  /**
   * The most bytes that fit: a triple is written only while fewer than
   * MAX_STR_LEN - 2 characters are in use, which happens 333 times.
   */
  const MaxBytes: nat := 333

  /** How many bytes of a len-byte buffer are printed. */
  function PrintedCount(len: nat): (n: nat)
    ensures n <= len && n <= MaxBytes
    ensures n == len || n == MaxBytes
  {
    if len < MaxBytes then len else MaxBytes
  }

  /** "%02X " for each byte of bs, in order. */
  function HexTriples(bs: seq<uint8>): (s: string)
    ensures |s| == 3 * |bs|
  {
    if |bs| == 0 then "" else HexTriples(bs[..|bs| - 1]) + Hex2(bs[|bs| - 1]) + " "
  }

  /** n NUL characters: what memset(.., 0, n) leaves. */
  function Zeros(n: nat): (z: string)
    ensures |z| == n
  {
    seq(n, _ => '\0')
  }

  /** Every character memset leaves is NUL. */
  lemma ZerosAreNul(n: nat, k: nat)
    requires k < n
    ensures Zeros(n)[k] == '\0'
  {
  }

  /**
   * sprintf(a + at, "%02X ", b): writes the two digits, a space and the
   * terminating NUL, and returns the three characters printed.
   */
  method PrintTriple(a: array<char>, at: nat, b: uint8) returns (printed: nat)
    requires at + 4 <= a.Length
    modifies a
    ensures printed == 3
    ensures a[..] == old(a[..at]) + (Hex2(b) + " ") + ['\0'] + old(a[at + 4..])
  {
    var digits := Hex2(b);
    a[at] := digits[0];
    a[at + 1] := digits[1];
    a[at + 2] := ' ';
    a[at + 3] := '\0';
    return 3;
  }

  /** Appending one byte appends its triple. */
  lemma HexTriplesSnoc(bs: seq<uint8>, n: nat)
    requires n < |bs|
    ensures HexTriples(bs[..n + 1]) == HexTriples(bs[..n]) + (Hex2(bs[n]) + " ")
  {
    assert bs[..n + 1][..n] == bs[..n];
  }

  /**
   * Writing a triple and a NUL just after the text in a buffer whose rest is
   * NUL extends the text by the triple and keeps the rest NUL.
   */
  lemma WriteTriple(before: string, after: string, prefix: string, triple: string)
    requires |triple| == 3 && |prefix| + 4 <= |before|
    requires before == prefix + Zeros(|before| - |prefix|)
    requires after == before[..|prefix|] + triple + ['\0'] + before[|prefix| + 4..]
    ensures after == (prefix + triple) + Zeros(|before| - |prefix| - 3)
  {
    assert before[..|prefix|] == prefix;
    assert before[|prefix| + 4..] == Zeros(|before| - |prefix| - 4);
    assert ['\0'] + Zeros(|before| - |prefix| - 4) == Zeros(|before| - |prefix| - 3);
  }

  /**
   * printHexBuffer: clears the buffer, then appends "%02X " for each byte as
   * long as fewer than MAX_STR_LEN - 2 characters are in use. The result is
   * the buffer's contents.
   */
  method PrintHexBuffer(buffer: seq<uint8>, len: nat) returns (text: seq<char>)
    requires len < 0x1_0000
    requires PrintedCount(len) <= |buffer|
    ensures text == HexTriples(buffer[..PrintedCount(len)]) + Zeros(MaxStrLen - 3 * PrintedCount(len))
  {
    var tempStr := new char[MaxStrLen](_ => '\0');
    var charIndex := 0;
    ghost var count := 0;
    var i := 0;
    assert tempStr[..] == HexTriples(buffer[..0]) + Zeros(MaxStrLen) by {
      assert forall k :: 0 <= k < MaxStrLen ==> tempStr[k] == Zeros(MaxStrLen)[k];
    }
    while i < len
      invariant 0 <= i <= len
      invariant count == PrintedCount(i) && charIndex == 3 * count
      invariant tempStr[..] == HexTriples(buffer[..count]) + Zeros(MaxStrLen - charIndex)
    {
      if charIndex < MaxStrLen - 2 {
        assert count == i;
        ghost var before := tempStr[..];
        var printed := PrintTriple(tempStr, charIndex, buffer[i]);
        WriteTriple(before, tempStr[..], HexTriples(buffer[..count]), Hex2(buffer[i]) + " ");
        HexTriplesSnoc(buffer, count);
        charIndex := charIndex + printed;
        count := count + 1;
      }
      i := i + 1;
    }
    return tempStr[..];
  }

  /** Byte k of bs is printed at characters 3k..3k+3: its two digits and a space. */
  lemma {:induction false} HexTriplesAt(bs: seq<uint8>, k: nat)
    requires k < |bs|
    ensures HexTriples(bs)[3 * k..3 * k + 3] == Hex2(bs[k]) + " "
    decreases |bs|
  {
    if k < |bs| - 1 {
      HexTriplesAt(bs[..|bs| - 1], k);
      HexTriplesExtend(bs, k);
    } else {
      HexTriplesLast(bs);
    }
  }

  /** Appending a byte leaves the triples already printed in place. */
  lemma HexTriplesExtend(bs: seq<uint8>, k: nat)
    requires k < |bs| - 1
    ensures HexTriples(bs)[3 * k..3 * k + 3] == HexTriples(bs[..|bs| - 1])[3 * k..3 * k + 3]
  {
    SliceOfJoin(HexTriples(bs[..|bs| - 1]), Hex2(bs[|bs| - 1]), " ", 3 * k, 3 * k + 3);
  }

  /** The last byte is printed in the last three characters. */
  lemma HexTriplesLast(bs: seq<uint8>)
    requires |bs| > 0
    ensures HexTriples(bs)[3 * (|bs| - 1)..3 * |bs|] == Hex2(bs[|bs| - 1]) + " "
  {
    SliceOfJoin(HexTriples(bs[..|bs| - 1]), Hex2(bs[|bs| - 1]), " ", 3 * (|bs| - 1), 3 * |bs|);
  }

  /** A slice of a + b + c lying in a is a slice of a; the part after a is b + c. */
  lemma SliceOfJoin(a: string, b: string, c: string, i: nat, j: nat)
    requires i <= j <= |a| + |b| + |c|
    ensures j <= |a| ==> (a + b + c)[i..j] == a[i..j]
    ensures i == |a| && j == |a| + |b| + |c| ==> (a + b + c)[i..j] == b + c
  {
  }

  /** Reading the two digits printed for byte k gives the byte back. */
  lemma HexTriplesDecode(bs: seq<uint8>, k: nat)
    requires k < |bs|
    ensures IsLowerHex(ToLower(HexTriples(bs)[3 * k])) && IsLowerHex(ToLower(HexTriples(bs)[3 * k + 1]))
    ensures LowerHexValue(ToLower(HexTriples(bs)[3 * k])) * 16 + LowerHexValue(ToLower(HexTriples(bs)[3 * k + 1]))
         == bs[k] as int
  {
    HexTriplesAt(bs, k);
    var s := HexTriples(bs);
    var h := Hex2(bs[k]);
    var t := s[3 * k..3 * k + 3];
    assert t == h + " ";
    assert s[3 * k] == t[0] && s[3 * k + 1] == t[1];
    Hex2Digits(h, bs[k], s[3 * k], s[3 * k + 1]);
  }

  /** The triples hold no NUL: digits and spaces only. */
  lemma {:induction false} HexTriplesNoNul(bs: seq<uint8>)
    ensures forall k :: 0 <= k < |HexTriples(bs)| ==> HexTriples(bs)[k] != '\0'
    decreases |bs|
  {
    if |bs| > 0 {
      HexTriplesNoNul(bs[..|bs| - 1]);
    }
  }

  /**
   * The buffer printHexBuffer returns always holds a NUL-terminated string,
   * and that string is exactly the triples of the printed bytes.
   */
  lemma PrintedString(buffer: seq<uint8>, len: nat)
    requires PrintedCount(len) <= |buffer|
    ensures var n := PrintedCount(len);
      var text := HexTriples(buffer[..n]) + Zeros(MaxStrLen - 3 * n);
      3 * n < MaxStrLen && text[3 * n] == '\0'
      && forall k :: 0 <= k < 3 * n ==> text[k] != '\0'
  {
    var n := PrintedCount(len);
    HexTriplesNoNul(buffer[..n]);
  }
}
