/**
 * calculateCRC32 from src/helperFunctions.cpp: a bit-serial, MSB-first CRC with
 * width 32, polynomial 0x04C11DB7, initial value 0xFFFFFFFF, no reflection of
 * input or output and no final XOR. These are the parameters of CRC-32/MPEG-2,
 * the CRC_32 of Annex A of ISO/IEC 13818-1.
 */
module Crc32 {
  import opened CLib

  const Polynomial: bv32 := 0x04C1_1DB7
  const InitialValue: bv32 := 0xFFFF_FFFF
  const TopBit: bv32 := 0x8000_0000

  /** One bit of the shift register: the feedback is the old top bit XOR the input bit. */
  function ShiftBit(crc: bv32, bit: bool): bv32 {
    var feedback := ((crc & TopBit) != 0) != bit;
    if feedback then (crc << 1) ^ Polynomial else crc << 1
  }

  /**
   * The register after feeding the bits of b selected by mask and every lower
   * mask bit, highest first: the inner loop of calculateCRC32 from mask i on.
   */
  function FeedFrom(crc: bv32, b: bv32, mask: bv32): bv32
    decreases mask
  {
    if mask == 0 then crc else FeedFrom(ShiftBit(crc, b & mask != 0), b, mask >> 1)
  }

  /** The register after one input byte, bit 7 first. */
  function UpdateByte(crc: bv32, c: uint8): bv32 {
    FeedFrom(crc, c as bv32, 0x80)
  }

  /** The register after the bytes of data, starting from crc: a left fold of UpdateByte. */
  function CrcFrom(crc: bv32, data: seq<uint8>): bv32
    decreases |data|
  {
    if data == [] then crc else CrcFrom(UpdateByte(crc, data[0]), data[1..])
  }

  /** The CRC of data: no final XOR is applied. */
  function Crc(data: seq<uint8>): bv32 {
    CrcFrom(InitialValue, data)
  }

  /** The CRC can be computed in pieces: the register after a is the start for b. */
  lemma {:induction false} CrcConcat(crc: bv32, a: seq<uint8>, b: seq<uint8>)
    ensures CrcFrom(crc, a + b) == CrcFrom(CrcFrom(crc, a), b)
    decreases |a|
  {
    if a == [] {
      assert a + b == b;
    } else {
      assert (a + b)[0] == a[0];
      assert (a + b)[1..] == a[1..] + b;
      CrcConcat(UpdateByte(crc, a[0]), a[1..], b);
    }
  }

  /** Appending one byte applies one more byte update. */
  lemma CrcAppendByte(crc: bv32, a: seq<uint8>, c: uint8)
    ensures CrcFrom(crc, a + [c]) == UpdateByte(CrcFrom(crc, a), c)
  {
    CrcConcat(crc, a, [c]);
  }

  /** One unfolding of FeedFrom at a non-zero mask. */
  lemma FeedFromStep(crc: bv32, b: bv32, mask: bv32)
    requires mask != 0
    ensures FeedFrom(crc, b, mask) == FeedFrom(ShiftBit(crc, b & mask != 0), b, mask >> 1)
  {
  }

  /** The inner for loop of calculateCRC32: the eight bit steps for one byte c, bit 7 first. */
  method FeedByte(crc0: bv32, c: uint8) returns (crc: bv32)
    ensures crc == UpdateByte(crc0, c)
  {
    crc := crc0;
    var i: bv32 := 0x80;
    while i > 0
      invariant FeedFrom(crc, c as bv32, i) == UpdateByte(crc0, c)
      decreases i
    {
      ghost var prev := crc;
      ghost var cbit := (c as bv32) & i != 0;
      var bit := crc & 0x8000_0000 != 0;
      if (c as bv32) & i != 0 {
        bit := !bit;
      }
      assert bit == ((prev & TopBit != 0) != cbit);
      crc := crc << 1;
      if bit {
        crc := crc ^ 0x04C1_1DB7;
        assert crc == ShiftBit(prev, cbit);
      } else {
        assert crc == ShiftBit(prev, cbit);
      }
      FeedFromStep(prev, c as bv32, i);
      i := i >> 1;
    }
  }

  /** calculateCRC32 over the first length bytes at data. */
  method CalculateCrc32(data: seq<uint8>, length: nat) returns (crc: bv32)
    requires length <= |data|
    ensures crc == Crc(data[..length])
  {
    crc := 0xFFFF_FFFF;
    var remaining := length;
    var next := 0;
    while remaining > 0
      invariant next + remaining == length
      invariant crc == Crc(data[..next])
    {
      remaining := remaining - 1;
      var c := data[next];
      next := next + 1;
      crc := FeedByte(crc, c);
      assert data[..next] == data[..next - 1] + [c];
      CrcAppendByte(InitialValue, data[..next - 1], c);
    }
  }

  // An independent reference: the byte-at-a-time formulation of an MSB-first CRC.

  /** The shift step of an MSB-first CRC register with no input bit. */
  function PolyShift(x: bv32): bv32 {
    if x & TopBit != 0 then (x << 1) ^ Polynomial else x << 1
  }

  /** XOR the byte into the top eight bits of the register, then shift eight times. */
  function ReferenceUpdateByte(crc: bv32, c: uint8): bv32 {
    var x := crc ^ ((c as bv32) << 24);
    PolyShift(PolyShift(PolyShift(PolyShift(PolyShift(PolyShift(PolyShift(PolyShift(x))))))))
  }

  /** Feed a stream of bits into the register, first bit first. */
  function FeedBits(crc: bv32, bits: seq<bool>): bv32
    decreases |bits|
  {
    if bits == [] then crc else FeedBits(ShiftBit(crc, bits[0]), bits[1..])
  }

  /** The bits of b selected by mask and every lower mask bit, highest first. */
  function BitsOf(b: bv32, mask: bv32): seq<bool>
    decreases mask
  {
    if mask == 0 then [] else [b & mask != 0] + BitsOf(b, mask >> 1)
  }

  /** n plain shifts. */
  function ShiftN(x: bv32, n: nat): bv32
    decreases n
  {
    if n == 0 then x else ShiftN(PolyShift(x), n - 1)
  }

  /** top holds bits from bit 31 down, and nothing below them. */
  predicate Aligned(top: bv32, bits: seq<bool>)
    decreases |bits|
  {
    if bits == [] then top == 0 else (top & TopBit != 0) == bits[0] && Aligned(top << 1, bits[1..])
  }

  /** PolyShift when the top bits of f and top differ: the polynomial is applied. */
  lemma PolyShiftOfSumFeedback(f: bv32, top: bv32)
    requires (f & TopBit != 0) != (top & TopBit != 0)
    ensures PolyShift(f ^ top) == ((f << 1) ^ Polynomial) ^ (top << 1)
  {
    assert (f ^ top) << 1 == (f << 1) ^ (top << 1);
    assert ((f ^ top) & TopBit != 0) == ((f & TopBit != 0) != (top & TopBit != 0));
  }

  /** PolyShift when the top bits of f and top agree: a plain shift. */
  lemma PolyShiftOfSumPlain(f: bv32, top: bv32)
    requires (f & TopBit != 0) == (top & TopBit != 0)
    ensures PolyShift(f ^ top) == (f << 1) ^ (top << 1)
  {
    assert (f ^ top) << 1 == (f << 1) ^ (top << 1);
    assert ((f ^ top) & TopBit != 0) == ((f & TopBit != 0) != (top & TopBit != 0));
  }

  /**
   * One bit: with bit in the top of top, shifting f XOR top once is the
   * bit-serial step next of f, XOR the shifted top.
   */
  lemma PolyShiftOfSum(f: bv32, top: bv32, bit: bool, next: bv32)
    requires (top & TopBit != 0) == bit && next == ShiftBit(f, bit)
    ensures PolyShift(f ^ top) == next ^ (top << 1)
  {
    if (f & TopBit != 0) != bit {
      PolyShiftOfSumFeedback(f, top);
    } else {
      PolyShiftOfSumPlain(f, top);
    }
  }

  /** One unfolding of ShiftN, with the shifted register given as y. */
  lemma ShiftNStep(x: bv32, y: bv32, n: nat)
    requires n > 0 && PolyShift(x) == y
    ensures ShiftN(x, n) == ShiftN(y, n - 1)
  {
  }

  /** The register x is crc with the unfed bits top XORed in. */
  predicate Splits(x: bv32, crc: bv32, top: bv32) {
    x == crc ^ top
  }

  /** One shift of the register x = crc ^ top is one bit step of crc, with top moved up. */
  lemma BitStep(crc: bv32, top: bv32, x: bv32, bit: bool, n: nat) returns (next: bv32, rest: bv32, y: bv32)
    requires n > 0 && Splits(x, crc, top) && (top & TopBit != 0) == bit
    ensures ShiftN(x, n) == ShiftN(y, n - 1)
    ensures Splits(y, next, rest) && next == ShiftBit(crc, bit) && rest == top << 1
  {
    next := ShiftBit(crc, bit);
    rest := top << 1;
    y := next ^ (top << 1);
    PolyShiftOfSum(crc, top, bit, next);
    ShiftNStep(x, y, n);
  }

  /** The first unfed bit sits in bit 31; the rest move up with the register. */
  lemma TopAligned(top: bv32, bits: seq<bool>)
    requires bits != [] && Aligned(top, bits)
    ensures (top & TopBit != 0) == bits[0] && Aligned(top << 1, bits[1..])
  {
  }

  /** With the unfed bits on top of the register, plain shifts equal the bit-serial steps. */
  lemma {:induction false} FeedBitsMatchesShiftN(crc: bv32, top: bv32, x: bv32, bits: seq<bool>)
    requires Splits(x, crc, top) && Aligned(top, bits)
    ensures ShiftN(x, |bits|) == FeedBits(crc, bits)
    decreases |bits|
  {
    if bits != [] {
      TopAligned(top, bits);
      var next, rest, y := BitStep(crc, top, x, bits[0], |bits|);
      FeedBitsMatchesShiftN(next, rest, y, bits[1..]);
    }
  }

  /** ShiftN over one byte is the eight shifts of the reference. */
  lemma ShiftNByte(x: bv32)
    ensures ShiftN(x, 8) == PolyShift(PolyShift(PolyShift(PolyShift(PolyShift(PolyShift(PolyShift(PolyShift(x))))))))
  {
    var x1 := PolyShift(x);
    var x2 := PolyShift(x1);
    var x3 := PolyShift(x2);
    var x4 := PolyShift(x3);
    var x5 := PolyShift(x4);
    var x6 := PolyShift(x5);
    var x7 := PolyShift(x6);
    var x8 := PolyShift(x7);
    assert ShiftN(x7, 1) == x8 by { assert ShiftN(x8, 0) == x8; }
    assert ShiftN(x6, 2) == x8;
    assert ShiftN(x5, 3) == x8;
    assert ShiftN(x4, 4) == x8;
    assert ShiftN(x3, 5) == x8;
    assert ShiftN(x2, 6) == x8;
    assert ShiftN(x1, 7) == x8;
  }

  /** The mask-driven inner loop feeds exactly the bits BitsOf lists. */
  lemma {:induction false} FeedFromIsFeedBits(crc: bv32, b: bv32, mask: bv32)
    ensures FeedFrom(crc, b, mask) == FeedBits(crc, BitsOf(b, mask))
    decreases mask
  {
    if mask != 0 {
      var bits := BitsOf(b, mask);
      assert bits[0] == (b & mask != 0) && bits[1..] == BitsOf(b, mask >> 1);
      FeedFromIsFeedBits(ShiftBit(crc, b & mask != 0), b, mask >> 1);
    }
  }

  /** Alignment extends by one bit when the next mask bit is placed in bit 31. */
  lemma AlignedCons(top: bv32, b: bv32, mask: bv32, top2: bv32, mask2: bv32)
    requires mask != 0 && (top & TopBit != 0) == (b & mask != 0)
    requires top2 == top << 1 && mask2 == mask >> 1 && Aligned(top2, BitsOf(b, mask2))
    ensures Aligned(top, BitsOf(b, mask)) && |BitsOf(b, mask)| == |BitsOf(b, mask2)| + 1
  {
    var bits := BitsOf(b, mask);
    assert bits[0] == (b & mask != 0) && bits[1..] == BitsOf(b, mask2);
  }

  /** The low four bits of b, shifted to the top, are aligned with their bit list. */
  lemma NibbleBits(b: bv32)
    ensures |BitsOf(b, 0x08)| == 4 && Aligned(b << 28, BitsOf(b, 0x08))
  {
    assert Aligned(0, BitsOf(b, 0)) && |BitsOf(b, 0)| == 0;
    AlignedCons(b << 31, b, 0x01, 0, 0);
    AlignedCons(b << 30, b, 0x02, b << 31, 0x01);
    AlignedCons(b << 29, b, 0x04, b << 30, 0x02);
    AlignedCons(b << 28, b, 0x08, b << 29, 0x04);
  }

  /** The eight bits of b, shifted to the top, are aligned with their bit list. */
  lemma ByteBits(b: bv32)
    ensures |BitsOf(b, 0x80)| == 8 && Aligned(b << 24, BitsOf(b, 0x80))
  {
    NibbleBits(b);
    AlignedCons(b << 27, b, 0x10, b << 28, 0x08);
    AlignedCons(b << 26, b, 0x20, b << 27, 0x10);
    AlignedCons(b << 25, b, 0x40, b << 26, 0x20);
    AlignedCons(b << 24, b, 0x80, b << 25, 0x40);
  }

  /** The bit-serial byte update of calculateCRC32 agrees with the byte-at-a-time reference. */
  lemma UpdateByteMatchesReference(crc: bv32, c: uint8)
    ensures UpdateByte(crc, c) == ReferenceUpdateByte(crc, c)
  {
    assert ShiftN(crc ^ ((c as bv32) << 24), 8) == UpdateByte(crc, c) by {
      ByteBits(c as bv32);
      FeedBitsMatchesShiftN(crc, (c as bv32) << 24, crc ^ ((c as bv32) << 24), BitsOf(c as bv32, 0x80));
      FeedFromIsFeedBits(crc, c as bv32, 0x80);
    }
    ShiftNByte(crc ^ ((c as bv32) << 24));
  }

  /** The ASCII codes of "123456789", the catalogue's check input. */
  const CheckInput: seq<uint8> := [0x31, 0x32, 0x33, 0x34, 0x35, 0x36, 0x37, 0x38, 0x39]

  /** With no bytes the loop never runs and the initial value is returned unchanged. */
  lemma CrcOfEmpty()
    ensures Crc([]) == 0xFFFF_FFFF
  {
  }

  /** The CRC of the single byte 0x00. */
  lemma CrcOfZeroByte()
    ensures Crc([0]) == 0x4E08_BFB4
  {
    assert ReferenceUpdateByte(InitialValue, 0) == 0x4E08_BFB4;
    UpdateByteMatchesReference(InitialValue, 0);
  }

  /** The catalogued check value of CRC-32/MPEG-2 on "123456789". */
  lemma CrcCheckValue()
    ensures Crc(CheckInput) == 0x0376_E6E7
  {
    var d := CheckInput;
    assert ReferenceUpdateByte(0xFFFF_FFFF, 0x31) == 0x9EFB_CF93;
    UpdateByteMatchesReference(0xFFFF_FFFF, 0x31);
    assert ReferenceUpdateByte(0x9EFB_CF93, 0x32) == 0x3FEC_5E6A;
    UpdateByteMatchesReference(0x9EFB_CF93, 0x32);
    assert ReferenceUpdateByte(0x3FEC_5E6A, 0x33) == 0xD952_F164;
    UpdateByteMatchesReference(0x3FEC_5E6A, 0x33);
    assert ReferenceUpdateByte(0xD952_F164, 0x34) == 0xA695_C4AA;
    UpdateByteMatchesReference(0xD952_F164, 0x34);
    assert ReferenceUpdateByte(0xA695_C4AA, 0x35) == 0xBD9A_B747;
    UpdateByteMatchesReference(0xA695_C4AA, 0x35);
    assert ReferenceUpdateByte(0xBD9A_B747, 0x36) == 0xD8F0_6C8F;
    UpdateByteMatchesReference(0xBD9A_B747, 0x36);
    assert ReferenceUpdateByte(0xD8F0_6C8F, 0x37) == 0x0D8A_14C4;
    UpdateByteMatchesReference(0xD8F0_6C8F, 0x37);
    assert ReferenceUpdateByte(0x0D8A_14C4, 0x38) == 0x49E3_C2FB;
    UpdateByteMatchesReference(0x0D8A_14C4, 0x38);
    assert ReferenceUpdateByte(0x49E3_C2FB, 0x39) == 0x0376_E6E7;
    UpdateByteMatchesReference(0x49E3_C2FB, 0x39);
    assert CrcFrom(0x49E3_C2FB, d[8..]) == 0x0376_E6E7;
    assert CrcFrom(0x0D8A_14C4, d[7..]) == 0x0376_E6E7;
    assert CrcFrom(0xD8F0_6C8F, d[6..]) == 0x0376_E6E7;
    assert CrcFrom(0xBD9A_B747, d[5..]) == 0x0376_E6E7;
    assert CrcFrom(0xA695_C4AA, d[4..]) == 0x0376_E6E7;
    assert CrcFrom(0xD952_F164, d[3..]) == 0x0376_E6E7;
    assert CrcFrom(0x3FEC_5E6A, d[2..]) == 0x0376_E6E7;
    assert CrcFrom(0x9EFB_CF93, d[1..]) == 0x0376_E6E7;
  }
}
