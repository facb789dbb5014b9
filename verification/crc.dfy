/**
 The 16-bit CRC of the telecommand link.

 The code looks up one table entry per byte. The reference below is the schoolbook division of a bit
 string by the generator x^16 + x^12 + x^5 + 1: strike the leading bit and, when it is set, flip the
 places of the generator's other coefficients.
 */
module Crc {
  type Byte = bv8

  // --- The table ------------------------------------------------------------------------------

  function Pick(k: Byte, a: bv16, b: bv16, c: bv16, d: bv16, e: bv16, f: bv16, g: bv16, h: bv16): bv16 {
    if k == 0 then a else if k == 1 then b else if k == 2 then c else if k == 3 then d else
    if k == 4 then e else if k == 5 then f else if k == 6 then g else h
  }

  /** crc16ccitt_table[i], in the rows of eight in which the code lists it. */
  function Table(i: Byte): bv16 {
    var k := i & 7;
    if i < 0x08 then Pick(k, 0x0000, 0x1021, 0x2042, 0x3063, 0x4084, 0x50a5, 0x60c6, 0x70e7) else
    if i < 0x10 then Pick(k, 0x8108, 0x9129, 0xa14a, 0xb16b, 0xc18c, 0xd1ad, 0xe1ce, 0xf1ef) else
    if i < 0x18 then Pick(k, 0x1231, 0x0210, 0x3273, 0x2252, 0x52b5, 0x4294, 0x72f7, 0x62d6) else
    if i < 0x20 then Pick(k, 0x9339, 0x8318, 0xb37b, 0xa35a, 0xd3bd, 0xc39c, 0xf3ff, 0xe3de) else
    if i < 0x28 then Pick(k, 0x2462, 0x3443, 0x0420, 0x1401, 0x64e6, 0x74c7, 0x44a4, 0x5485) else
    if i < 0x30 then Pick(k, 0xa56a, 0xb54b, 0x8528, 0x9509, 0xe5ee, 0xf5cf, 0xc5ac, 0xd58d) else
    if i < 0x38 then Pick(k, 0x3653, 0x2672, 0x1611, 0x0630, 0x76d7, 0x66f6, 0x5695, 0x46b4) else
    if i < 0x40 then Pick(k, 0xb75b, 0xa77a, 0x9719, 0x8738, 0xf7df, 0xe7fe, 0xd79d, 0xc7bc) else
    if i < 0x48 then Pick(k, 0x48c4, 0x58e5, 0x6886, 0x78a7, 0x0840, 0x1861, 0x2802, 0x3823) else
    if i < 0x50 then Pick(k, 0xc9cc, 0xd9ed, 0xe98e, 0xf9af, 0x8948, 0x9969, 0xa90a, 0xb92b) else
    if i < 0x58 then Pick(k, 0x5af5, 0x4ad4, 0x7ab7, 0x6a96, 0x1a71, 0x0a50, 0x3a33, 0x2a12) else
    if i < 0x60 then Pick(k, 0xdbfd, 0xcbdc, 0xfbbf, 0xeb9e, 0x9b79, 0x8b58, 0xbb3b, 0xab1a) else
    if i < 0x68 then Pick(k, 0x6ca6, 0x7c87, 0x4ce4, 0x5cc5, 0x2c22, 0x3c03, 0x0c60, 0x1c41) else
    if i < 0x70 then Pick(k, 0xedae, 0xfd8f, 0xcdec, 0xddcd, 0xad2a, 0xbd0b, 0x8d68, 0x9d49) else
    if i < 0x78 then Pick(k, 0x7e97, 0x6eb6, 0x5ed5, 0x4ef4, 0x3e13, 0x2e32, 0x1e51, 0x0e70) else
    if i < 0x80 then Pick(k, 0xff9f, 0xefbe, 0xdfdd, 0xcffc, 0xbf1b, 0xaf3a, 0x9f59, 0x8f78) else
    if i < 0x88 then Pick(k, 0x9188, 0x81a9, 0xb1ca, 0xa1eb, 0xd10c, 0xc12d, 0xf14e, 0xe16f) else
    if i < 0x90 then Pick(k, 0x1080, 0x00a1, 0x30c2, 0x20e3, 0x5004, 0x4025, 0x7046, 0x6067) else
    if i < 0x98 then Pick(k, 0x83b9, 0x9398, 0xa3fb, 0xb3da, 0xc33d, 0xd31c, 0xe37f, 0xf35e) else
    if i < 0xa0 then Pick(k, 0x02b1, 0x1290, 0x22f3, 0x32d2, 0x4235, 0x5214, 0x6277, 0x7256) else
    if i < 0xa8 then Pick(k, 0xb5ea, 0xa5cb, 0x95a8, 0x8589, 0xf56e, 0xe54f, 0xd52c, 0xc50d) else
    if i < 0xb0 then Pick(k, 0x34e2, 0x24c3, 0x14a0, 0x0481, 0x7466, 0x6447, 0x5424, 0x4405) else
    if i < 0xb8 then Pick(k, 0xa7db, 0xb7fa, 0x8799, 0x97b8, 0xe75f, 0xf77e, 0xc71d, 0xd73c) else
    if i < 0xc0 then Pick(k, 0x26d3, 0x36f2, 0x0691, 0x16b0, 0x6657, 0x7676, 0x4615, 0x5634) else
    if i < 0xc8 then Pick(k, 0xd94c, 0xc96d, 0xf90e, 0xe92f, 0x99c8, 0x89e9, 0xb98a, 0xa9ab) else
    if i < 0xd0 then Pick(k, 0x5844, 0x4865, 0x7806, 0x6827, 0x18c0, 0x08e1, 0x3882, 0x28a3) else
    if i < 0xd8 then Pick(k, 0xcb7d, 0xdb5c, 0xeb3f, 0xfb1e, 0x8bf9, 0x9bd8, 0xabbb, 0xbb9a) else
    if i < 0xe0 then Pick(k, 0x4a75, 0x5a54, 0x6a37, 0x7a16, 0x0af1, 0x1ad0, 0x2ab3, 0x3a92) else
    if i < 0xe8 then Pick(k, 0xfd2e, 0xed0f, 0xdd6c, 0xcd4d, 0xbdaa, 0xad8b, 0x9de8, 0x8dc9) else
    if i < 0xf0 then Pick(k, 0x7c26, 0x6c07, 0x5c64, 0x4c45, 0x3ca2, 0x2c83, 0x1ce0, 0x0cc1) else
    if i < 0xf8 then Pick(k, 0xef1f, 0xff3e, 0xcf5d, 0xdf7c, 0xaf9b, 0xbfba, 0x8fd9, 0x9ff8) else
                       Pick(k, 0x6e17, 0x7e36, 0x4e55, 0x5e74, 0x2e93, 0x3eb2, 0x0ed1, 0x1ef0)
  }

  // --- The code -------------------------------------------------------------------------------

  function HighByte(w: bv16): Byte { (w >> 8) as Byte }

  function LowByte(w: bv16): Byte { (w & 0xff) as Byte }

  function CrcStep(crc: bv16, b: Byte): bv16 {
    Table(HighByte(crc) ^ b) ^ (crc << 8)
  }

  /** The register after `data`, started at `crc`. */
  function CrcFrom(crc: bv16, data: seq<Byte>): bv16
    decreases |data|
  {
    if data == [] then crc else CrcFrom(CrcStep(crc, data[0]), data[1..])
  }

  function Crc16(data: seq<Byte>): bv16 {
    CrcFrom(0xffff, data)
  }

  lemma {:induction false} CrcFromConcat(crc: bv16, a: seq<Byte>, b: seq<Byte>)
    ensures CrcFrom(crc, a + b) == CrcFrom(CrcFrom(crc, a), b)
    decreases |a|
  {
    if a == [] {
      assert a + b == b;
    } else {
      assert (a + b)[0] == a[0] && (a + b)[1..] == a[1..] + b;
      CrcFromConcat(CrcStep(crc, a[0]), a[1..], b);
    }
  }

  // --- The table entry is eight division steps --------------------------------------------------

  function BitStep(c: bv16): bv16 {
    if c & 0x8000 != 0 then (c << 1) ^ 0x1021 else c << 1
  }

  function ByteShift(c: bv16): bv16 {
    BitStep(BitStep(BitStep(BitStep(BitStep(BitStep(BitStep(BitStep(c))))))))
  }

  lemma TableIsEightSteps(i: Byte)
    ensures Table(i) == ByteShift(Placed(i))
  {
    if i < 0x40 { FirstQuarter(i); } else if i < 0x80 { SecondQuarter(i); }
    else if i < 0xc0 { ThirdQuarter(i); } else { LastQuarter(i); }
  }

  lemma FirstQuarter(i: Byte)
    requires i < 0x40
    ensures Table(i) == ByteShift(Placed(i))
  {
  }

  lemma SecondQuarter(i: Byte)
    requires 0x40 <= i < 0x80
    ensures Table(i) == ByteShift(Placed(i))
  {
  }

  lemma ThirdQuarter(i: Byte)
    requires 0x80 <= i < 0xc0
    ensures Table(i) == ByteShift(Placed(i))
  {
  }

  lemma LastQuarter(i: Byte)
    requires 0xc0 <= i
    ensures Table(i) == ByteShift(Placed(i))
  {
  }

  /** A single byte never leaves a zero in the register: no table entry is 0xff00. */
  lemma OneByteLeavesResidue(b: Byte)
    ensures Crc16([b]) != 0
  {
    assert [b][1..] == [];
    assert Crc16([b]) == CrcFrom(CrcStep(0xffff, b), []);
    StepLeavesResidue(b);
  }

  lemma StepLeavesResidue(b: Byte)
    ensures CrcStep(0xffff, b) != 0
  {
    var t := Table(HighByte(0xffff) ^ b);
    var i := HighByte(0xffff) ^ b;
    if i < 0x80 { LowerHalfNever(i); } else { UpperHalfNever(i); }
    NotCancelled(t);
  }

  lemma NotCancelled(t: bv16)
    requires t != 0xff00
    ensures t ^ (0xffff << 8) != 0
  {
  }

  lemma LowerHalfNever(i: Byte)
    requires i < 0x80
    ensures Table(i) != 0xff00
  {
  }

  lemma UpperHalfNever(i: Byte)
    requires 0x80 <= i
    ensures Table(i) != 0xff00
  {
  }

  // --- Reference: division of bit strings --------------------------------------------------------

  type Bits = seq<bool>

  /** The mask of bit `i` of a word, counted from the most significant. */
  function Mask(i: nat): (m: bv16)
    requires i < 16
    ensures OneBit(m)
  {
    match i
    case 0 => 0x8000 case 1 => 0x4000 case 2 => 0x2000 case 3 => 0x1000
    case 4 => 0x0800 case 5 => 0x0400 case 6 => 0x0200 case 7 => 0x0100
    case 8 => 0x0080 case 9 => 0x0040 case 10 => 0x0020 case 11 => 0x0010
    case 12 => 0x0008 case 13 => 0x0004 case 14 => 0x0002 case _ => 0x0001
  }

  predicate OneBit(m: bv16) {
    || m == 0x8000 || m == 0x4000 || m == 0x2000 || m == 0x1000
    || m == 0x0800 || m == 0x0400 || m == 0x0200 || m == 0x0100
    || m == 0x0080 || m == 0x0040 || m == 0x0020 || m == 0x0010
    || m == 0x0008 || m == 0x0004 || m == 0x0002 || m == 0x0001
  }

  predicate Bit(w: bv16, m: bv16) { w & m != 0 }

  /** The bits of a word, the most significant first. */
  function WordBits(w: bv16): (r: Bits)
    ensures |r| == 16
  {
    seq(16, i requires 0 <= i < 16 => Bit(w, Mask(i)))
  }

  function Placed(b: Byte): bv16 { (b as bv16) << 8 }

  function BitsOf(b: Byte): (r: Bits)
    ensures |r| == 8
  {
    WordBits(Placed(b))[..8]
  }

  /** The bits of a message, the most significant bit of each byte first. */
  function MessageBits(data: seq<Byte>): (r: Bits)
    ensures |r| == 8 * |data|
    decreases |data|
  {
    if data == [] then [] else BitsOf(data[0]) + MessageBits(data[1..])
  }

  /** Adds the sixteen bits `w` (modulo two) into the front of `d`. */
  function AddFront(w: Bits, d: Bits): (r: Bits)
    requires |w| == 16 <= |d|
    ensures |r| == |d|
    ensures forall i :: 0 <= i < |d| ==> r[i] == (if i < 16 then w[i] != d[i] else d[i])
  {
    seq(|d|, i requires 0 <= i < |d| => if i < 16 then w[i] != d[i] else d[i])
  }

  /** The coefficients of x^12, x^5 and 1 of the generator, counted from x^15. */
  const GENERATOR: Bits := [false, false, false, true, false, false, false, false,
                            false, false, true, false, false, false, false, true]

  /** The remainder of the bit string `d` after division by the generator. */
  function Remainder(d: Bits): (r: Bits)
    requires |d| >= 16
    ensures |r| == 16
    decreases |d|
  {
    if |d| == 16 then d
    else if d[0] then Remainder(AddFront(GENERATOR, d[1..]))
    else Remainder(d[1..])
  }

  const ZEROS: Bits := [false, false, false, false, false, false, false, false,
                        false, false, false, false, false, false, false, false]

  /** The dividend of a message: sixteen zero bits appended, the start value added into the front. */
  function Dividend(start: bv16, data: seq<Byte>): (r: Bits)
    ensures |r| == 8 * |data| + 16
  {
    AddFront(WordBits(start), MessageBits(data) + ZEROS)
  }

  // --- Words as bit strings -------------------------------------------------------------------------

  lemma XorMask(a: bv16, b: bv16, m: bv16)
    requires OneBit(m)
    ensures Bit(a ^ b, m) == (Bit(a, m) != Bit(b, m))
  {
    if m == 0x8000 { } else if m == 0x4000 { } else if m == 0x2000 { } else if m == 0x1000 { }
    else if m == 0x0800 { } else if m == 0x0400 { } else if m == 0x0200 { } else if m == 0x0100 { }
    else if m == 0x0080 { } else if m == 0x0040 { } else if m == 0x0020 { } else if m == 0x0010 { }
    else if m == 0x0008 { } else if m == 0x0004 { } else if m == 0x0002 { } else if m == 0x0001 { }
  }

  ghost predicate Xored(a: bv16, b: bv16, c: bv16) {
    forall m: bv16 :: OneBit(m) ==> Bit(c, m) == (Bit(a, m) != Bit(b, m))
  }

  lemma XorIsXored(a: bv16, b: bv16)
    ensures Xored(a, b, a ^ b)
  {
    forall m: bv16 | OneBit(m)
      ensures Bit(a ^ b, m) == (Bit(a, m) != Bit(b, m))
    {
      XorMask(a, b, m);
    }
  }

  lemma XorBits(a: bv16, b: bv16, c: bv16)
    requires Xored(a, b, c)
    ensures forall i :: 0 <= i < 16 ==> WordBits(c)[i] == (WordBits(a)[i] != WordBits(b)[i])
  {
    forall i | 0 <= i < 16
      ensures WordBits(c)[i] == (WordBits(a)[i] != WordBits(b)[i])
    {
      assert Bit(c, Mask(i)) == (Bit(a, Mask(i)) != Bit(b, Mask(i)));
    }
  }

  lemma StepMask(y: bv16, s: bv16, m: bv16)
    requires OneBit(m)
    requires s == if y & 0x8000 != 0 then (y << 1) ^ 0x1021 else y << 1
    ensures Bit(s, m) == ((m != 1 && Bit(y, m >> 1)) != (Bit(y, 0x8000) && Bit(0x1021, m)))
  {
    if y & 0x8000 != 0 {
      if m == 0x8000 { } else if m == 0x4000 { } else if m == 0x2000 { } else if m == 0x1000 { }
      else if m == 0x0800 { } else if m == 0x0400 { } else if m == 0x0200 { } else if m == 0x0100 { }
      else if m == 0x0080 { } else if m == 0x0040 { } else if m == 0x0020 { } else if m == 0x0010 { }
      else if m == 0x0008 { } else if m == 0x0004 { } else if m == 0x0002 { } else if m == 0x0001 { }
    } else {
      if m == 0x8000 { } else if m == 0x4000 { } else if m == 0x2000 { } else if m == 0x1000 { }
      else if m == 0x0800 { } else if m == 0x0400 { } else if m == 0x0200 { } else if m == 0x0100 { }
      else if m == 0x0080 { } else if m == 0x0040 { } else if m == 0x0020 { } else if m == 0x0010 { }
      else if m == 0x0008 { } else if m == 0x0004 { } else if m == 0x0002 { } else if m == 0x0001 { }
    }
  }

  lemma MaskBelow(i: nat)
    requires i < 15
    ensures Mask(i) >> 1 == Mask(i + 1) && Mask(i) != 1
  {
  }

  lemma GeneratorBit(i: nat)
    requires i < 16
    ensures Bit(0x1021, Mask(i)) == GENERATOR[i]
  {
  }

  ghost predicate Stepped(y: bv16, s: bv16) {
    forall m: bv16 :: OneBit(m) ==>
      Bit(s, m) == ((m != 1 && Bit(y, m >> 1)) != (Bit(y, 0x8000) && Bit(0x1021, m)))
  }

  lemma BitStepStepped(y: bv16)
    ensures Stepped(y, BitStep(y))
  {
    forall m: bv16 | OneBit(m)
      ensures Bit(BitStep(y), m) == ((m != 1 && Bit(y, m >> 1)) != (Bit(y, 0x8000) && Bit(0x1021, m)))
    {
      StepMask(y, BitStep(y), m);
    }
  }

  lemma StepBit(y: bv16, s: bv16, i: nat)
    requires i < 16 && Stepped(y, s)
    ensures WordBits(s)[i] == ((i < 15 && WordBits(y)[i + 1]) != (WordBits(y)[0] && GENERATOR[i]))
  {
    assert Bit(s, Mask(i)) == ((Mask(i) != 1 && Bit(y, Mask(i) >> 1)) != (Bit(y, 0x8000) && Bit(0x1021, Mask(i))));
    GeneratorBit(i);
    if i < 15 {
      MaskBelow(i);
    }
  }

  /** One step shifts, and adds the generator when the bit shifted out was set. */
  lemma StepBits(y: bv16, s: bv16)
    requires Stepped(y, s)
    ensures var b, t := WordBits(y), WordBits(s);
            forall i :: 0 <= i < 16 ==> t[i] == ((i < 15 && b[i + 1]) != (b[0] && GENERATOR[i]))
  {
    forall i | 0 <= i < 16
      ensures WordBits(s)[i] == ((i < 15 && WordBits(y)[i + 1]) != (WordBits(y)[0] && GENERATOR[i]))
    {
      StepBit(y, s, i);
    }
  }

  lemma FrontStep(b: Bits, t: Bits, rest: Bits)
    requires |b| == |t| == 16 <= |rest|
    requires forall i :: 0 <= i < 16 ==> t[i] == ((i < 15 && b[i + 1]) != (b[0] && GENERATOR[i]))
    ensures Remainder(AddFront(b, [false] + rest)) == Remainder(AddFront(t, rest))
  {
    var d := AddFront(b, [false] + rest);
    var e := if d[0] then AddFront(GENERATOR, d[1..]) else d[1..];
    assert e == AddFront(t, rest);
  }

  lemma RemainderStep(y: bv16, s: bv16, n: nat, rest: Bits)
    requires Stepped(y, s) && n < 16 <= |rest|
    ensures Remainder(AddFront(WordBits(y), ZEROS[..n + 1] + rest))
            == Remainder(AddFront(WordBits(s), ZEROS[..n] + rest))
  {
    StepBits(y, s);
    assert ZEROS[..n + 1] + rest == [false] + (ZEROS[..n] + rest);
    FrontStep(WordBits(y), WordBits(s), ZEROS[..n] + rest);
  }

  lemma FourRemainderSteps(y: bv16, y1: bv16, y2: bv16, y3: bv16, s: bv16, n: nat, rest: Bits)
    requires Stepped(y, y1) && Stepped(y1, y2) && Stepped(y2, y3) && Stepped(y3, s) && n <= 12 && |rest| >= 16
    ensures Remainder(AddFront(WordBits(y), ZEROS[..n + 4] + rest))
            == Remainder(AddFront(WordBits(s), ZEROS[..n] + rest))
  {
    RemainderStep(y, y1, n + 3, rest);
    RemainderStep(y1, y2, n + 2, rest);
    RemainderStep(y2, y3, n + 1, rest);
    RemainderStep(y3, s, n, rest);
  }

  lemma HalfByteShift(y: bv16, n: nat, rest: Bits)
    requires n <= 12 && |rest| >= 16
    ensures Remainder(AddFront(WordBits(y), ZEROS[..n + 4] + rest)) ==
            Remainder(AddFront(WordBits(BitStep(BitStep(BitStep(BitStep(y))))), ZEROS[..n] + rest))
  {
    var y1 := BitStep(y);
    var y2 := BitStep(y1);
    var y3 := BitStep(y2);
    BitStepStepped(y);
    BitStepStepped(y1);
    BitStepStepped(y2);
    BitStepStepped(y3);
    FourRemainderSteps(y, y1, y2, y3, BitStep(y3), n, rest);
  }

  lemma EightRemainderSteps(y: bv16, rest: Bits)
    requires |rest| >= 16
    ensures Remainder(AddFront(WordBits(y), ZEROS[..8] + rest)) == Remainder(AddFront(WordBits(ByteShift(y)), rest))
  {
    HalfByteShift(y, 4, rest);
    HalfByteShift(BitStep(BitStep(BitStep(BitStep(y)))), 0, rest);
    assert ZEROS[..0] + rest == rest;
  }

  lemma EightUpMask(w: bv16, m: bv16)
    requires OneBit(m)
    ensures Bit(w << 8, m) == (m >= 0x0100 && Bit(w, m >> 8))
    ensures Bit(w & 0xff00, m) == (m >= 0x0100 && Bit(w, m))
  {
    if m == 0x8000 { } else if m == 0x4000 { } else if m == 0x2000 { } else if m == 0x1000 { }
    else if m == 0x0800 { } else if m == 0x0400 { } else if m == 0x0200 { } else if m == 0x0100 { }
    else if m == 0x0080 { } else if m == 0x0040 { } else if m == 0x0020 { } else if m == 0x0010 { }
    else if m == 0x0008 { } else if m == 0x0004 { } else if m == 0x0002 { } else if m == 0x0001 { }
  }

  ghost predicate MovedUp(w: bv16, moved: bv16) {
    forall m: bv16 :: OneBit(m) ==> Bit(moved, m) == (m >= 0x0100 && Bit(w, m >> 8))
  }

  ghost predicate UpperByte(w: bv16, upper: bv16) {
    forall m: bv16 :: OneBit(m) ==> Bit(upper, m) == (m >= 0x0100 && Bit(w, m))
  }

  lemma EightUp(w: bv16)
    ensures MovedUp(w, w << 8) && UpperByte(w, w & 0xff00)
  {
    forall m: bv16 | OneBit(m)
      ensures Bit(w << 8, m) == (m >= 0x0100 && Bit(w, m >> 8)) && Bit(w & 0xff00, m) == (m >= 0x0100 && Bit(w, m))
    {
      EightUpMask(w, m);
    }
  }

  lemma MaskEightBelow(i: nat)
    requires i < 16
    ensures Mask(i) >= 0x0100 <==> i < 8
    ensures i < 8 ==> Mask(i) >> 8 == Mask(i + 8)
  {
  }

  lemma MovedBits(w: bv16, moved: bv16)
    requires MovedUp(w, moved)
    ensures forall i :: 0 <= i < 16 ==> WordBits(moved)[i] == (i < 8 && WordBits(w)[i + 8])
  {
    forall i | 0 <= i < 16
      ensures WordBits(moved)[i] == (i < 8 && WordBits(w)[i + 8])
    {
      assert Bit(moved, Mask(i)) == (Mask(i) >= 0x0100 && Bit(w, Mask(i) >> 8));
      MaskEightBelow(i);
    }
  }

  lemma UpperBits(w: bv16, upper: bv16)
    requires UpperByte(w, upper)
    ensures forall i :: 0 <= i < 16 ==> WordBits(upper)[i] == (i < 8 && WordBits(w)[i])
  {
    forall i | 0 <= i < 16
      ensures WordBits(upper)[i] == (i < 8 && WordBits(w)[i])
    {
      assert Bit(upper, Mask(i)) == (Mask(i) >= 0x0100 && Bit(w, Mask(i)));
      MaskEightBelow(i);
    }
  }

  lemma IndexWord(c: bv16, b: Byte)
    ensures Placed(HighByte(c) ^ b) == (c & 0xff00) ^ Placed(b)
    ensures Placed(b) & 0xff00 == Placed(b)
  {
  }

  /** The upper register byte and the message byte select the table entry; the rest only moves up. */
  lemma SplitDividend(c: Bits, b: Bits, index: Bits, t: Bits, moved: Bits, next: Bits, rest: Bits)
    requires |c| == |index| == |t| == |next| == 16 <= |rest| && |b| == 8
    requires forall i :: 0 <= i < 16 ==> index[i] == (i < 8 && c[i] != b[i])
    requires |moved| == 16 && forall i :: 0 <= i < 16 ==> moved[i] == (i < 8 && c[i + 8])
    requires forall i :: 0 <= i < 16 ==> next[i] == (t[i] != moved[i])
    ensures var d := AddFront(c, b + rest);
            && d == AddFront(index, ZEROS[..8] + d[8..])
            && AddFront(t, d[8..]) == AddFront(next, rest)
  {
  }

  lemma EntryDivides(c: bv16, u: bv16, p: bv16, y: bv16, t: bv16, moved: bv16, next: bv16, rest: Bits)
    requires |rest| >= 16 && UpperByte(c, u) && UpperByte(p, p) && Xored(u, p, y)
    requires MovedUp(c, moved) && Xored(t, moved, next)
    requires var low := AddFront(WordBits(c), WordBits(p)[..8] + rest)[8..];
             Remainder(AddFront(WordBits(y), ZEROS[..8] + low)) == Remainder(AddFront(WordBits(t), low))
    ensures Remainder(AddFront(WordBits(c), WordBits(p)[..8] + rest)) == Remainder(AddFront(WordBits(next), rest))
  {
    UpperBits(c, u);
    UpperBits(p, p);
    XorBits(u, p, y);
    MovedBits(c, moved);
    XorBits(t, moved, next);
    SplitDividend(WordBits(c), WordBits(p)[..8], WordBits(y), WordBits(t), WordBits(moved), WordBits(next), rest);
  }

  lemma TableDivides(index: Byte, rest: Bits)
    requires |rest| >= 16
    ensures Remainder(AddFront(WordBits(Placed(index)), ZEROS[..8] + rest)) ==
            Remainder(AddFront(WordBits(Table(index)), rest))
  {
    TableIsEightSteps(index);
    EightRemainderSteps(Placed(index), rest);
  }

  /** One table step removes one byte from the front of the dividend. */
  lemma CrcStepDivides(c: bv16, b: Byte, rest: Bits)
    requires |rest| >= 16
    ensures Remainder(AddFront(WordBits(c), BitsOf(b) + rest)) == Remainder(AddFront(WordBits(CrcStep(c, b)), rest))
  {
    var index := HighByte(c) ^ b;
    TableDivides(index, AddFront(WordBits(c), BitsOf(b) + rest)[8..]);
    EntryStepDivides(c, b, index, Table(index), CrcStep(c, b), rest);
  }

  lemma EntryStepDivides(c: bv16, b: Byte, index: Byte, t: bv16, next: bv16, rest: Bits)
    requires |rest| >= 16 && index == HighByte(c) ^ b && next == t ^ (c << 8)
    requires var low := AddFront(WordBits(c), BitsOf(b) + rest)[8..];
             Remainder(AddFront(WordBits(Placed(index)), ZEROS[..8] + low)) == Remainder(AddFront(WordBits(t), low))
    ensures Remainder(AddFront(WordBits(c), BitsOf(b) + rest)) == Remainder(AddFront(WordBits(next), rest))
  {
    IndexWord(c, b);
    EightUp(c);
    EightUp(Placed(b));
    XorIsXored(c & 0xff00, Placed(b));
    XorIsXored(t, c << 8);
    EntryDivides(c, c & 0xff00, Placed(b), Placed(index), t, c << 8, next, rest);
  }

  /** The table-driven code computes the remainder, for every message and start value. */
  lemma {:induction false} CrcIsRemainder(start: bv16, data: seq<Byte>)
    ensures WordBits(CrcFrom(start, data)) == Remainder(Dividend(start, data))
    decreases |data|
  {
    if data == [] {
      assert Dividend(start, data) == WordBits(start);
    } else {
      var rest := MessageBits(data[1..]) + ZEROS;
      assert MessageBits(data) + ZEROS == BitsOf(data[0]) + rest;
      CrcStepDivides(start, data[0], rest);
      CrcIsRemainder(CrcStep(start, data[0]), data[1..]);
    }
  }

  // --- What the checksum detects ------------------------------------------------------------------

  /** `a` and `b` differ, and only in the sixteen places from `p` on. */
  ghost predicate DifferWithin(a: Bits, b: Bits, p: nat) {
    && |a| == |b| && a != b
    && forall j :: 0 <= j < |a| && !(p <= j < p + 16) ==> a[j] == b[j]
  }

  lemma {:induction false} RemainderSeparates(a: Bits, b: Bits, p: nat)
    requires DifferWithin(a, b, p) && p + 16 <= |a|
    ensures Remainder(a) != Remainder(b)
    decreases |a|
  {
    if |a| > 16 {
      var a' := if a[0] then AddFront(GENERATOR, a[1..]) else a[1..];
      var b' := if b[0] then AddFront(GENERATOR, b[1..]) else b[1..];
      if a[0] == b[0] {
        var j :| 0 <= j < |a| && a[j] != b[j];
        assert a'[j - 1] != b'[j - 1];
      } else {
        assert p == 0 && a'[15] != b'[15];
      }
      RemainderSeparates(a', b', if p == 0 then 0 else p - 1);
    }
  }

  /** Every error burst of at most sixteen bits changes the checksum. */
  lemma BurstDetected(start: bv16, sent: seq<Byte>, received: seq<Byte>, p: nat)
    requires DifferWithin(MessageBits(sent), MessageBits(received), p)
    ensures CrcFrom(start, sent) != CrcFrom(start, received)
  {
    var s, r := MessageBits(sent), MessageBits(received);
    var j :| 0 <= j < |s| && s[j] != r[j];
    var a, b := Dividend(start, sent), Dividend(start, received);
    assert a[j] != b[j];
    RemainderSeparates(a, b, p);
    CrcIsRemainder(start, sent);
    CrcIsRemainder(start, received);
  }

  lemma CrcOfZeros()
    ensures Crc16([0x00, 0x00, 0x00]) == 0xcc9c
  {
    var data: seq<Byte> := [0x00, 0x00, 0x00];
    assert CrcStep(0xffff, 0x00) == 0xe1f0 && CrcStep(0xe1f0, 0x00) == 0x1d0f && CrcStep(0x1d0f, 0x00) == 0xcc9c;
    assert data[1..] == [0x00, 0x00] && data[1..][1..] == [0x00];
  }

  lemma CrcOfGenerator()
    ensures Crc16([0x01, 0x10, 0x21]) == 0xcc9c
  {
    var data: seq<Byte> := [0x01, 0x10, 0x21];
    assert CrcStep(0xffff, 0x01) == 0xf1d1 && CrcStep(0xf1d1, 0x10) == 0x3c0f && CrcStep(0x3c0f, 0x21) == 0xcc9c;
    assert data[1..] == [0x10, 0x21] && data[1..][1..] == [0x21];
  }

  /** Sixteen is the limit: the generator itself is a seventeen-bit burst that goes unnoticed. */
  lemma SeventeenBitBurstMissed()
    ensures Crc16([0x00, 0x00, 0x00]) == Crc16([0x01, 0x10, 0x21])
  {
    CrcOfZeros();
    CrcOfGenerator();
  }

  lemma ClearTopByte(c: bv16, b: Byte)
    requires b == HighByte(c)
    ensures CrcStep(c, b) == c << 8
  {
    assert b ^ b == 0;
  }

  lemma OwnBytesCancel(c: bv16, high: Byte, low: Byte)
    requires high == HighByte(c) && low == LowByte(c)
    ensures CrcFrom(c, [high, low]) == 0
  {
    var c1, c2 := CrcStep(c, high), CrcStep(CrcStep(c, high), low);
    ClearTopByte(c, high);
    assert c1 == c << 8 && low == HighByte(c << 8);
    ClearTopByte(c1, low);
    assert (c << 8) << 8 == 0;
    assert [high, low][1..] == [low] && [low][1..] == [];
    assert CrcFrom(c2, []) == c2;
    assert CrcFrom(c1, [low]) == c2;
  }

  /** A message followed by two bytes has residue zero exactly when they are its own checksum. */
  lemma ResidueZero(data: seq<Byte>, high: Byte, low: Byte)
    ensures Crc16(data + [high, low]) == 0 <==> high == HighByte(Crc16(data)) && low == LowByte(Crc16(data))
  {
    var c := Crc16(data);
    var own, other := [HighByte(c), LowByte(c)], [high, low];
    OwnBytesCancel(c, HighByte(c), LowByte(c));
    CrcFromConcat(0xffff, data, own);
    CrcFromConcat(0xffff, data, other);
    if own != other {
      TwoBytesDiffer(own, other);
      BurstDetected(c, own, other, 0);
    }
  }

  lemma TwoBytesDiffer(a: seq<Byte>, b: seq<Byte>)
    requires |a| == |b| == 2 && a != b
    ensures DifferWithin(MessageBits(a), MessageBits(b), 0)
  {
    var i := if a[0] != b[0] then 0 else 1;
    var j := DistinctBit(a[i], b[i]);
    assert MessageBits(a) == BitsOf(a[0]) + (BitsOf(a[1]) + MessageBits(a[1..][1..]));
    assert MessageBits(b) == BitsOf(b[0]) + (BitsOf(b[1]) + MessageBits(b[1..][1..]));
    assert MessageBits(a)[8 * i + j] != MessageBits(b)[8 * i + j];
  }

  lemma DistinctBit(a: Byte, b: Byte) returns (j: nat)
    requires a != b
    ensures j < 8 && BitsOf(a)[j] != BitsOf(b)[j]
  {
    var v, w := Placed(a), Placed(b);
    var d := v ^ w;
    assert d & 0xff == 0 && d != 0;
    XorIsXored(v, w);
    XorBits(v, w, d);
    j := TopmostBit(d);
  }

  lemma TopmostBit(d: bv16) returns (j: nat)
    requires d != 0 && d & 0xff == 0
    ensures j < 8 && WordBits(d)[j]
  {
    if d >= 0x8000 { return 0; }
    if d >= 0x4000 { return 1; }
    if d >= 0x2000 { return 2; }
    if d >= 0x1000 { return 3; }
    if d >= 0x0800 { return 4; }
    if d >= 0x0400 { return 5; }
    if d >= 0x0200 { return 6; }
    return 7;
  }
}

/** The checksum for the rest of the model, in which a byte is a number. */
module Checksum {
  import opened Crc

  type byte = x: int | 0 <= x < 256

  /** The byte with the given bits, the most significant first. */
  function Octet(b7: bool, b6: bool, b5: bool, b4: bool, b3: bool, b2: bool, b1: bool, b0: bool): Byte {
    (if b7 then 0x80 else 0) | (if b6 then 0x40 else 0) | (if b5 then 0x20 else 0) | (if b4 then 0x10 else 0)
    | (if b3 then 8 else 0) | (if b2 then 4 else 0) | (if b1 then 2 else 0) | (if b0 then 1 else 0)
  }

  // The binary digits of a number below sixteen.
  predicate Eights(n: nat) { n >= 8 }
  predicate Fours(n: nat) { n % 8 >= 4 }
  predicate Twos(n: nat) { n % 4 >= 2 }
  predicate Ones(n: nat) { n % 2 == 1 }

  function Nibble(b3: bool, b2: bool, b1: bool, b0: bool): (n: nat)
    ensures n < 16
  {
    (if b3 then 8 else 0) + (if b2 then 4 else 0) + (if b1 then 2 else 0) + (if b0 then 1 else 0)
  }

  function ToOctet(x: byte): Byte {
    var h, l := x / 16, x % 16;
    Octet(Eights(h), Fours(h), Twos(h), Ones(h), Eights(l), Fours(l), Twos(l), Ones(l))
  }

  function ToNumber(b: Byte): byte {
    16 * Nibble(b & 0x80 != 0, b & 0x40 != 0, b & 0x20 != 0, b & 0x10 != 0)
    + Nibble(b & 8 != 0, b & 4 != 0, b & 2 != 0, b & 1 != 0)
  }

  /** The bytes as the bit vectors that the table is indexed with. */
  function Octets(s: seq<byte>): (r: seq<Byte>)
    ensures |r| == |s|
  {
    seq(|s|, i requires 0 <= i < |s| => ToOctet(s[i]))
  }

  function Crc16Of(s: seq<byte>): bv16 { Crc16(Octets(s)) }

  function ChecksumBytes(s: seq<byte>): (r: seq<byte>)
    ensures |r| == 2
  {
    [ToNumber(HighByte(Crc16Of(s))), ToNumber(LowByte(Crc16Of(s)))]
  }

  /** The loop of crc16ccitt over the first `length` bytes of a buffer. */
  method Crc16Ccitt(input: array<byte>, length: nat, startingCrc: bv16) returns (crc: bv16)
    requires length <= input.Length
    ensures crc == CrcFrom(startingCrc, Octets(input[..length]))
  {
    ghost var octets := Octets(input[..length]);
    crc := startingCrc;
    var i := 0;
    while i < length
      invariant 0 <= i <= length
      invariant CrcFrom(crc, octets[i..]) == CrcFrom(startingCrc, octets)
    {
      assert octets[i..][1..] == octets[i + 1..] && octets[i..][0] == ToOctet(input[i]);
      crc := CrcStep(crc, ToOctet(input[i]));
      i := i + 1;
    }
  }

  lemma OctetBits(b7: bool, b6: bool, b5: bool, b4: bool, b3: bool, b2: bool, b1: bool, b0: bool)
    ensures var o := Octet(b7, b6, b5, b4, b3, b2, b1, b0);
            && (o & 0x80 != 0) == b7 && (o & 0x40 != 0) == b6 && (o & 0x20 != 0) == b5 && (o & 0x10 != 0) == b4
            && (o & 8 != 0) == b3 && (o & 4 != 0) == b2 && (o & 2 != 0) == b1 && (o & 1 != 0) == b0
  {
  }

  lemma NumberOfOctet(b7: bool, b6: bool, b5: bool, b4: bool, b3: bool, b2: bool, b1: bool, b0: bool)
    ensures ToNumber(Octet(b7, b6, b5, b4, b3, b2, b1, b0)) == 16 * Nibble(b7, b6, b5, b4) + Nibble(b3, b2, b1, b0)
  {
    OctetBits(b7, b6, b5, b4, b3, b2, b1, b0);
  }

  lemma NibbleOfDigits(n: nat)
    requires n < 16
    ensures Nibble(Eights(n), Fours(n), Twos(n), Ones(n)) == n
  {
  }

  lemma DigitsOfNibble(b3: bool, b2: bool, b1: bool, b0: bool)
    ensures var n := Nibble(b3, b2, b1, b0); Eights(n) == b3 && Fours(n) == b2 && Twos(n) == b1 && Ones(n) == b0
  {
  }

  lemma OctetToNumber(x: byte)
    ensures ToNumber(ToOctet(x)) == x
  {
    var h, l := x / 16, x % 16;
    NumberOfOctet(Eights(h), Fours(h), Twos(h), Ones(h), Eights(l), Fours(l), Twos(l), Ones(l));
    NibbleOfDigits(h);
    NibbleOfDigits(l);
  }

  lemma OctetOfBits(b: Byte)
    ensures Octet(b & 0x80 != 0, b & 0x40 != 0, b & 0x20 != 0, b & 0x10 != 0,
                  b & 8 != 0, b & 4 != 0, b & 2 != 0, b & 1 != 0) == b
  {
  }

  lemma NumberToOctet(b: Byte)
    ensures ToOctet(ToNumber(b)) == b
  {
    var h := Nibble(b & 0x80 != 0, b & 0x40 != 0, b & 0x20 != 0, b & 0x10 != 0);
    var l := Nibble(b & 8 != 0, b & 4 != 0, b & 2 != 0, b & 1 != 0);
    DigitsOfNibble(b & 0x80 != 0, b & 0x40 != 0, b & 0x20 != 0, b & 0x10 != 0);
    DigitsOfNibble(b & 8 != 0, b & 4 != 0, b & 2 != 0, b & 1 != 0);
    assert (16 * h + l) / 16 == h && (16 * h + l) % 16 == l;
    OctetOfBits(b);
  }

  lemma SameOctet(x: byte, b: Byte)
    ensures ToOctet(x) == b <==> x == ToNumber(b)
  {
    OctetToNumber(x);
    NumberToOctet(b);
  }

  /** A message has residue zero exactly when it ends in the checksum of the bytes before. */
  lemma ResidueMeansOwnChecksum(f: seq<byte>)
    requires |f| >= 2
    ensures Crc16Of(f) == 0 <==> f[|f| - 2..] == ChecksumBytes(f[..|f| - 2])
  {
    var n := |f| - 2;
    OctetsOfSplit(f, n);
    assert f[n..] == [f[n], f[n + 1]];
    ResidueOfBytes(Octets(f[..n]), f[n], f[n + 1]);
  }

  lemma OwnChecksumLeavesZero(body: seq<byte>, checksum: seq<byte>)
    requires checksum == ChecksumBytes(body)
    ensures Crc16Of(body + checksum) == 0
  {
    var f := body + checksum;
    assert f[..|f| - 2] == body && f[|f| - 2..] == checksum;
    ResidueMeansOwnChecksum(f);
  }

  lemma OneByteHasResidue(f: seq<byte>)
    requires |f| == 1
    ensures Crc16Of(f) != 0
  {
    assert Octets(f) == [ToOctet(f[0])];
    OneByteLeavesResidue(ToOctet(f[0]));
  }

  lemma OctetsOfSplit(f: seq<byte>, n: nat)
    requires n + 2 == |f|
    ensures Octets(f) == Octets(f[..n]) + [ToOctet(f[n]), ToOctet(f[n + 1])]
  {
  }

  lemma ResidueOfBytes(data: seq<Byte>, high: byte, low: byte)
    ensures Crc16(data + [ToOctet(high), ToOctet(low)]) == 0 <==>
              high == ToNumber(HighByte(Crc16(data))) && low == ToNumber(LowByte(Crc16(data)))
  {
    ResidueZero(data, ToOctet(high), ToOctet(low));
    SameOctet(high, HighByte(Crc16(data)));
    SameOctet(low, LowByte(Crc16(data)));
  }

  function Bitstring(s: seq<byte>): Bits { MessageBits(Octets(s)) }
}
