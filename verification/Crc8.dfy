/**
  The CRC-8 that closes every UAVTalk frame (uavtalk/crc8.go).

  Three forms of the same checksum are related here: the table-driven loop of
  the source, the byte-wise function `Crc` that the other modules use, and the
  bit-serial shift register `CrcBits`, which divides by x^8 + x^2 + x + 1.
 */
module Crc8 {
  import opened Bytes
  import opened BitView

  // ---------------------------------------------------------------- reference

  /** One turn of the shift register: multiply by x, reduce by x^8 + x^2 + x + 1. */
  function Turn(c: byte): byte {
    if c < 128 then 2 * c else Xor(2 * c - 256, 7)
  }

  function Turns(c: byte, n: nat): byte
    decreases n
  {
    if n == 0 then c else Turns(Turn(c), n - 1)
  }

  /** The register takes in one message bit. */
  function FeedBit(c: byte, bit: bool): byte {
    Turn(if bit then Xor(c, 128) else c)
  }

  function CrcBits(c: byte, message: seq<bool>): byte
    decreases |message|
  {
    if |message| == 0 then c else CrcBits(FeedBit(c, message[0]), message[1..])
  }

  function ShiftLeft(y: byte): byte {
    if y < 128 then 2 * y else 2 * y - 256
  }

  /** The top `n` bits of a byte, most significant first. */
  function TopBits(y: byte, n: nat): (bits: seq<bool>)
    ensures |bits| == n
    decreases n
  {
    if n == 0 then [] else [y >= 128] + TopBits(ShiftLeft(y), n - 1)
  }

  /** The bits of a byte string in the order in which they are transmitted. */
  function MessageBits(s: seq<byte>): (bits: seq<bool>)
    ensures |bits| == 8 * |s|
  {
    if |s| == 0 then [] else MessageBits(s[..|s| - 1]) + TopBits(s[|s| - 1], 8)
  }

  /** The checksum byte by byte: take a byte in, then eight turns. */
  function Crc(c: byte, s: seq<byte>): byte {
    if |s| == 0 then c
    else Turns(Xor(Crc(c, s[..|s| - 1]), s[|s| - 1]), 8)
  }

  // ---------------------------------------------------------------- the table

  /** The 256 entries, sixteen to a row as in the source. */
  function TableRow(r: nat): (row: seq<byte>)
    requires r < 16
    ensures |row| == 16
  {
    match r
    case 0 => [0x00, 0x07, 0x0e, 0x09, 0x1c, 0x1b, 0x12, 0x15, 0x38, 0x3f, 0x36, 0x31, 0x24, 0x23, 0x2a, 0x2d]
    case 1 => [0x70, 0x77, 0x7e, 0x79, 0x6c, 0x6b, 0x62, 0x65, 0x48, 0x4f, 0x46, 0x41, 0x54, 0x53, 0x5a, 0x5d]
    case 2 => [0xe0, 0xe7, 0xee, 0xe9, 0xfc, 0xfb, 0xf2, 0xf5, 0xd8, 0xdf, 0xd6, 0xd1, 0xc4, 0xc3, 0xca, 0xcd]
    case 3 => [0x90, 0x97, 0x9e, 0x99, 0x8c, 0x8b, 0x82, 0x85, 0xa8, 0xaf, 0xa6, 0xa1, 0xb4, 0xb3, 0xba, 0xbd]
    case 4 => [0xc7, 0xc0, 0xc9, 0xce, 0xdb, 0xdc, 0xd5, 0xd2, 0xff, 0xf8, 0xf1, 0xf6, 0xe3, 0xe4, 0xed, 0xea]
    case 5 => [0xb7, 0xb0, 0xb9, 0xbe, 0xab, 0xac, 0xa5, 0xa2, 0x8f, 0x88, 0x81, 0x86, 0x93, 0x94, 0x9d, 0x9a]
    case 6 => [0x27, 0x20, 0x29, 0x2e, 0x3b, 0x3c, 0x35, 0x32, 0x1f, 0x18, 0x11, 0x16, 0x03, 0x04, 0x0d, 0x0a]
    case 7 => [0x57, 0x50, 0x59, 0x5e, 0x4b, 0x4c, 0x45, 0x42, 0x6f, 0x68, 0x61, 0x66, 0x73, 0x74, 0x7d, 0x7a]
    case 8 => [0x89, 0x8e, 0x87, 0x80, 0x95, 0x92, 0x9b, 0x9c, 0xb1, 0xb6, 0xbf, 0xb8, 0xad, 0xaa, 0xa3, 0xa4]
    case 9 => [0xf9, 0xfe, 0xf7, 0xf0, 0xe5, 0xe2, 0xeb, 0xec, 0xc1, 0xc6, 0xcf, 0xc8, 0xdd, 0xda, 0xd3, 0xd4]
    case 10 => [0x69, 0x6e, 0x67, 0x60, 0x75, 0x72, 0x7b, 0x7c, 0x51, 0x56, 0x5f, 0x58, 0x4d, 0x4a, 0x43, 0x44]
    case 11 => [0x19, 0x1e, 0x17, 0x10, 0x05, 0x02, 0x0b, 0x0c, 0x21, 0x26, 0x2f, 0x28, 0x3d, 0x3a, 0x33, 0x34]
    case 12 => [0x4e, 0x49, 0x40, 0x47, 0x52, 0x55, 0x5c, 0x5b, 0x76, 0x71, 0x78, 0x7f, 0x6a, 0x6d, 0x64, 0x63]
    case 13 => [0x3e, 0x39, 0x30, 0x37, 0x22, 0x25, 0x2c, 0x2b, 0x06, 0x01, 0x08, 0x0f, 0x1a, 0x1d, 0x14, 0x13]
    case 14 => [0xae, 0xa9, 0xa0, 0xa7, 0xb2, 0xb5, 0xbc, 0xbb, 0x96, 0x91, 0x98, 0x9f, 0x8a, 0x8d, 0x84, 0x83]
    case _ => [0xde, 0xd9, 0xd0, 0xd7, 0xc2, 0xc5, 0xcc, 0xcb, 0xe6, 0xe1, 0xe8, 0xef, 0xfa, 0xfd, 0xf4, 0xf3]
  }

  function TableEntry(i: byte): byte {
    TableRow(i / 16)[i % 16]
  }

  function ShiftLeftBits(b: Bits): Bits {
    Bits(b.b6, b.b5, b.b4, b.b3, b.b2, b.b1, b.b0, false)
  }

  function TurnBits(c: Bits): Bits {
    Bits(c.b6, c.b5, c.b4, c.b3, c.b2, XorBool(c.b1, c.b7), XorBool(c.b0, c.b7), c.b7)
  }

  lemma ShiftNibble(x3: bool, x2: bool, x1: bool, x0: bool, next: bool)
    ensures NibbleValue(x2, x1, x0, next)
         == Push(NibbleValue(x3, x2, x1, x0), next) - if x3 then 16 else 0
    ensures NibbleValue(x3, x2, x1, x0) >= 8 <==> x3
  {
  }

  lemma ShiftLeftFromBits(b: Bits)
    ensures ShiftLeft(FromBits(b)) == FromBits(ShiftLeftBits(b))
    ensures FromBits(b) >= 128 <==> b.b7
  {
    hide NibbleValue;
    ShiftNibble(b.b7, b.b6, b.b5, b.b4, b.b3);
    ShiftNibble(b.b3, b.b2, b.b1, b.b0, false);
  }

  lemma SevenInBits(b: Bits)
    requires b.b7
    ensures XorBits(ShiftLeftBits(b), Bits(false, false, false, false, false, true, true, true)) == TurnBits(b)
    ensures FromBits(Bits(false, false, false, false, false, true, true, true)) == 7
  {
  }

  lemma TurnFromBits(b: Bits)
    ensures Turn(FromBits(b)) == FromBits(TurnBits(b))
  {
    hide FromBits, Xor;
    ShiftLeftFromBits(b);
    if b.b7 {
      SevenInBits(b);
      XorFromBits(ShiftLeftBits(b), Bits(false, false, false, false, false, true, true, true));
    } else {
      assert TurnBits(b) == ShiftLeftBits(b);
    }
  }

  /** Multiplication by x^8 modulo the generator, bit by bit. */
  function TimesX8(c: Bits): Bits {
    Bits(XorBool(XorBool(c.b7, c.b6), c.b5),
         XorBool(XorBool(c.b6, c.b5), c.b4),
         XorBool(XorBool(c.b5, c.b4), c.b3),
         XorBool(XorBool(c.b4, c.b3), c.b2),
         XorBool(XorBool(XorBool(c.b7, c.b3), c.b2), c.b1),
         XorBool(XorBool(XorBool(c.b6, c.b2), c.b1), c.b0),
         XorBool(XorBool(c.b6, c.b1), c.b0),
         XorBool(XorBool(c.b7, c.b6), c.b0))
  }

  lemma EightTurnsIsTimesX8(c: Bits)
    ensures TurnBits(TurnBits(TurnBits(TurnBits(TurnBits(TurnBits(TurnBits(TurnBits(c)))))))) == TimesX8(c)
  {
  }

  lemma FourTurns(c: Bits, n: nat)
    requires n >= 4
    ensures Turns(FromBits(c), n) == Turns(FromBits(TurnBits(TurnBits(TurnBits(TurnBits(c))))), n - 4)
  {
    hide FromBits, TurnBits, Turn;
    var c1 := TurnBits(c);
    var c2 := TurnBits(c1);
    var c3 := TurnBits(c2);
    TurnFromBits(c);
    TurnFromBits(c1);
    TurnFromBits(c2);
    TurnFromBits(c3);
    assert Turns(FromBits(c), n) == Turns(FromBits(c1), n - 1);
    assert Turns(FromBits(c2), n - 2) == Turns(FromBits(c3), n - 3);
  }

  lemma TurnsFromBits(c: Bits)
    ensures Turns(FromBits(c), 8) == FromBits(TimesX8(c))
  {
    hide FromBits, TurnBits, Turn, TimesX8;
    FourTurns(c, 8);
    FourTurns(TurnBits(TurnBits(TurnBits(TurnBits(c)))), 4);
    EightTurnsIsTimesX8(c);
  }

  lemma Row0(x: bool, y: bool, z: bool, w: bool)
    ensures TableRow(NibbleValue(false, false, false, false))[NibbleValue(x, y, z, w)]
         == FromBits(TimesX8(Bits(false, false, false, false, x, y, z, w)))
  {
  }

  lemma Row1(x: bool, y: bool, z: bool, w: bool)
    ensures TableRow(NibbleValue(false, false, false, true))[NibbleValue(x, y, z, w)]
         == FromBits(TimesX8(Bits(false, false, false, true, x, y, z, w)))
  {
  }

  lemma Row2(x: bool, y: bool, z: bool, w: bool)
    ensures TableRow(NibbleValue(false, false, true, false))[NibbleValue(x, y, z, w)]
         == FromBits(TimesX8(Bits(false, false, true, false, x, y, z, w)))
  {
  }

  lemma Row3(x: bool, y: bool, z: bool, w: bool)
    ensures TableRow(NibbleValue(false, false, true, true))[NibbleValue(x, y, z, w)]
         == FromBits(TimesX8(Bits(false, false, true, true, x, y, z, w)))
  {
  }

  lemma Row4(x: bool, y: bool, z: bool, w: bool)
    ensures TableRow(NibbleValue(false, true, false, false))[NibbleValue(x, y, z, w)]
         == FromBits(TimesX8(Bits(false, true, false, false, x, y, z, w)))
  {
  }

  lemma Row5(x: bool, y: bool, z: bool, w: bool)
    ensures TableRow(NibbleValue(false, true, false, true))[NibbleValue(x, y, z, w)]
         == FromBits(TimesX8(Bits(false, true, false, true, x, y, z, w)))
  {
  }

  lemma Row6(x: bool, y: bool, z: bool, w: bool)
    ensures TableRow(NibbleValue(false, true, true, false))[NibbleValue(x, y, z, w)]
         == FromBits(TimesX8(Bits(false, true, true, false, x, y, z, w)))
  {
  }

  lemma Row7(x: bool, y: bool, z: bool, w: bool)
    ensures TableRow(NibbleValue(false, true, true, true))[NibbleValue(x, y, z, w)]
         == FromBits(TimesX8(Bits(false, true, true, true, x, y, z, w)))
  {
  }

  lemma Row8(x: bool, y: bool, z: bool, w: bool)
    ensures TableRow(NibbleValue(true, false, false, false))[NibbleValue(x, y, z, w)]
         == FromBits(TimesX8(Bits(true, false, false, false, x, y, z, w)))
  {
  }

  lemma Row9(x: bool, y: bool, z: bool, w: bool)
    ensures TableRow(NibbleValue(true, false, false, true))[NibbleValue(x, y, z, w)]
         == FromBits(TimesX8(Bits(true, false, false, true, x, y, z, w)))
  {
  }

  lemma RowA(x: bool, y: bool, z: bool, w: bool)
    ensures TableRow(NibbleValue(true, false, true, false))[NibbleValue(x, y, z, w)]
         == FromBits(TimesX8(Bits(true, false, true, false, x, y, z, w)))
  {
  }

  lemma RowB(x: bool, y: bool, z: bool, w: bool)
    ensures TableRow(NibbleValue(true, false, true, true))[NibbleValue(x, y, z, w)]
         == FromBits(TimesX8(Bits(true, false, true, true, x, y, z, w)))
  {
  }

  lemma RowC(x: bool, y: bool, z: bool, w: bool)
    ensures TableRow(NibbleValue(true, true, false, false))[NibbleValue(x, y, z, w)]
         == FromBits(TimesX8(Bits(true, true, false, false, x, y, z, w)))
  {
  }

  lemma RowD(x: bool, y: bool, z: bool, w: bool)
    ensures TableRow(NibbleValue(true, true, false, true))[NibbleValue(x, y, z, w)]
         == FromBits(TimesX8(Bits(true, true, false, true, x, y, z, w)))
  {
  }

  lemma RowE(x: bool, y: bool, z: bool, w: bool)
    ensures TableRow(NibbleValue(true, true, true, false))[NibbleValue(x, y, z, w)]
         == FromBits(TimesX8(Bits(true, true, true, false, x, y, z, w)))
  {
  }

  lemma RowF(x: bool, y: bool, z: bool, w: bool)
    ensures TableRow(NibbleValue(true, true, true, true))[NibbleValue(x, y, z, w)]
         == FromBits(TimesX8(Bits(true, true, true, true, x, y, z, w)))
  {
  }

  lemma TableInBits(b: Bits)
    ensures TableRow(High(b))[Low(b)] == FromBits(TimesX8(b))
  {
    hide FromBits, TimesX8, TableRow, NibbleValue;
    var (x, y, z, w) := (b.b3, b.b2, b.b1, b.b0);
    if b.b7 {
      if b.b6 {
        if b.b5 {
          if b.b4 { RowF(x, y, z, w); } else { RowE(x, y, z, w); }
        } else {
          if b.b4 { RowD(x, y, z, w); } else { RowC(x, y, z, w); }
        }
      } else {
        if b.b5 {
          if b.b4 { RowB(x, y, z, w); } else { RowA(x, y, z, w); }
        } else {
          if b.b4 { Row9(x, y, z, w); } else { Row8(x, y, z, w); }
        }
      }
    } else {
      if b.b6 {
        if b.b5 {
          if b.b4 { Row7(x, y, z, w); } else { Row6(x, y, z, w); }
        } else {
          if b.b4 { Row5(x, y, z, w); } else { Row4(x, y, z, w); }
        }
      } else {
        if b.b5 {
          if b.b4 { Row3(x, y, z, w); } else { Row2(x, y, z, w); }
        } else {
          if b.b4 { Row1(x, y, z, w); } else { Row0(x, y, z, w); }
        }
      }
    }
  }

  /** Every table entry is eight turns of the shift register. */
  lemma TableIsShiftRegister(i: byte)
    ensures TableEntry(i) == Turns(i, 8)
  {
    hide ToBits, TimesX8, Turns, TableRow, High, Low;
    TableInBits(ToBits(i));
    TurnsFromBits(ToBits(i));
    assert High(ToBits(i)) == i / 16 && Low(ToBits(i)) == i % 16;
  }

  /** The table-driven loop of the source computes `Crc`. */
  method ComputeCrc8(crc8: byte, packet: seq<byte>) returns (r: byte)
    ensures r == Crc(crc8, packet)
  {
    hide TableEntry, Turns, Xor;
    r := crc8;
    for i := 0 to |packet|
      invariant r == Crc(crc8, packet[..i])
    {
      assert packet[..i + 1][..i] == packet[..i];
      TableIsShiftRegister(Xor(r, packet[i]));
      r := TableEntry(Xor(r, packet[i]));
    }
    assert packet[..|packet|] == packet;
  }

  // ------------------------------------------------- byte-wise equals bit-serial

  lemma TopBitInBits(r: Bits)
    ensures XorBits(r, Bits(true, false, false, false, false, false, false, false)) == r.(b7 := !r.b7)
    ensures FromBits(Bits(true, false, false, false, false, false, false, false)) == 128
  {
  }

  function FeedBits(r: Bits, bit: bool): Bits {
    TurnBits(r.(b7 := XorBool(r.b7, bit)))
  }

  lemma FeedBitFromBits(r: Bits, bit: bool)
    ensures FeedBit(FromBits(r), bit) == FromBits(FeedBits(r, bit))
  {
    hide FromBits, Xor, Turn, TurnBits;
    TopBitInBits(r);
    XorFromBits(r, Bits(true, false, false, false, false, false, false, false));
    TurnFromBits(r.(b7 := XorBool(r.b7, bit)));
    assert !bit ==> r.(b7 := XorBool(r.b7, bit)) == r;
  }

  lemma TurnFeedsTopBits(r: Bits, y: Bits)
    ensures TurnBits(XorBits(r, y)) == XorBits(FeedBits(r, y.b7), ShiftLeftBits(y))
  {
  }

  /** Turning register and pending bits together is feeding the top pending bit. */
  lemma TurnFeedsTopBit(r: byte, y: byte)
    ensures Turn(Xor(r, y)) == Xor(FeedBit(r, y >= 128), ShiftLeft(y))
  {
    hide ToBits, FromBits, Xor, Turn, FeedBit, ShiftLeft, XorBits, TurnBits, FeedBits, ShiftLeftBits;
    var (a, b) := (ToBits(r), ToBits(y));
    XorFromBits(a, b);
    TurnFromBits(XorBits(a, b));
    TurnFeedsTopBits(a, b);
    ShiftLeftFromBits(b);
    FeedBitFromBits(a, b.b7);
    XorFromBits(FeedBits(a, b.b7), ShiftLeftBits(b));
  }

  function ShiftLefts(y: byte, n: nat): byte
    decreases n
  {
    if n == 0 then y else ShiftLefts(ShiftLeft(y), n - 1)
  }

  lemma FourShifts(b: Bits, n: nat)
    requires n >= 4
    ensures ShiftLefts(FromBits(b), n)
         == ShiftLefts(FromBits(Bits(b.b3, b.b2, b.b1, b.b0, false, false, false, false)), n - 4)
  {
    hide FromBits, ShiftLeft;
    var c1 := ShiftLeftBits(b);
    var c2 := ShiftLeftBits(c1);
    var c3 := ShiftLeftBits(c2);
    ShiftLeftFromBits(b);
    ShiftLeftFromBits(c1);
    ShiftLeftFromBits(c2);
    ShiftLeftFromBits(c3);
    assert ShiftLefts(FromBits(b), n) == ShiftLefts(FromBits(c1), n - 1);
    assert ShiftLefts(FromBits(c2), n - 2) == ShiftLefts(FromBits(c3), n - 3);
  }

  lemma AllShiftedOut(y: byte)
    ensures ShiftLefts(y, 8) == 0
  {
    hide ToBits;
    var b := ToBits(y);
    FourShifts(b, 8);
    FourShifts(Bits(b.b3, b.b2, b.b1, b.b0, false, false, false, false), 4);
    assert FromBits(ZERO_BITS) == 0;
  }

  lemma {:induction false} TurnsFeedTopBits(r: byte, y: byte, n: nat)
    ensures Turns(Xor(r, y), n) == Xor(CrcBits(r, TopBits(y, n)), ShiftLefts(y, n))
    decreases n
  {
    hide Xor, FeedBit, Turn, ShiftLeft;
    if n > 0 {
      TurnFeedsTopBit(r, y);
      TurnsFeedTopBits(FeedBit(r, y >= 128), ShiftLeft(y), n - 1);
      assert TopBits(y, n)[1..] == TopBits(ShiftLeft(y), n - 1);
    }
  }

  lemma XorBitsAssociative(x: Bits, y: Bits, z: Bits)
    ensures XorBits(XorBits(x, y), z) == XorBits(x, XorBits(y, z)) && XorBits(x, y) == XorBits(y, x)
  {
  }

  lemma XorAssociative(a: byte, b: byte, c: byte)
    ensures Xor(Xor(a, b), c) == Xor(a, Xor(b, c)) && Xor(a, b) == Xor(b, a)
  {
    hide ToBits, FromBits, Xor, XorBits;
    var (x, y, z) := (ToBits(a), ToBits(b), ToBits(c));
    XorBitsAssociative(x, y, z);
    XorFromBits(x, y);
    XorFromBits(y, x);
    XorFromBits(y, z);
    XorFromBits(x, XorBits(y, z));
    XorFromBits(XorBits(x, y), z);
  }

  lemma FeedByte(c: byte, y: byte)
    ensures Turns(Xor(c, y), 8) == CrcBits(c, TopBits(y, 8))
  {
    hide Xor, Turns, CrcBits, ShiftLefts, TopBits;
    TurnsFeedTopBits(c, y, 8);
    AllShiftedOut(y);
    XorZero(CrcBits(c, TopBits(y, 8)));
  }

  lemma {:induction false} CrcBitsConcat(c: byte, a: seq<bool>, b: seq<bool>)
    ensures CrcBits(c, a + b) == CrcBits(CrcBits(c, a), b)
    decreases |a|
  {
    hide FeedBit;
    if |a| == 0 {
      assert a + b == b;
    } else {
      assert (a + b)[1..] == a[1..] + b;
      CrcBitsConcat(FeedBit(c, a[0]), a[1..], b);
    }
  }

  /** For every initial value and byte string the checksum is the bit-serial one. */
  lemma {:induction false} CrcIsBitSerial(c: byte, s: seq<byte>)
    ensures Crc(c, s) == CrcBits(c, MessageBits(s))
  {
    hide Xor, Turns, TopBits;
    if |s| > 0 {
      var front := s[..|s| - 1];
      CrcIsBitSerial(c, front);
      FeedByte(Crc(c, front), s[|s| - 1]);
      CrcBitsConcat(c, MessageBits(front), TopBits(s[|s| - 1], 8));
    }
  }

  // ------------------------------------------------------------ algebraic laws

  /** The checksum of a concatenation continues from the checksum of the first part. */
  lemma {:induction false} CrcConcat(c: byte, s: seq<byte>, t: seq<byte>)
    ensures Crc(c, s + t) == Crc(Crc(c, s), t)
  {
    hide Turns, Xor;
    if |t| == 0 {
      assert s + t == s;
    } else {
      assert (s + t)[..|s + t| - 1] == s + t[..|t| - 1];
      CrcConcat(c, s, t[..|t| - 1]);
    }
  }

  function XorBytes(s: seq<byte>, t: seq<byte>): (r: seq<byte>)
    requires |s| == |t|
    ensures |r| == |s|
  {
    seq(|s|, i requires 0 <= i < |s| => Xor(s[i], t[i]))
  }

  lemma TurnBitsLinear(x: Bits, y: Bits)
    ensures TurnBits(XorBits(x, y)) == XorBits(TurnBits(x), TurnBits(y))
  {
  }

  lemma TurnLinear(a: byte, b: byte)
    ensures Turn(Xor(a, b)) == Xor(Turn(a), Turn(b))
  {
    hide ToBits, FromBits, Xor, Turn, XorBits, TurnBits;
    var (x, y) := (ToBits(a), ToBits(b));
    XorFromBits(x, y);
    TurnFromBits(x);
    TurnFromBits(y);
    TurnFromBits(XorBits(x, y));
    TurnBitsLinear(x, y);
    XorFromBits(TurnBits(x), TurnBits(y));
  }

  lemma {:induction false} TurnsLinear(a: byte, b: byte, n: nat)
    ensures Turns(Xor(a, b), n) == Xor(Turns(a, n), Turns(b, n))
    decreases n
  {
    hide Xor, Turn;
    if n > 0 {
      TurnLinear(a, b);
      TurnsLinear(Turn(a), Turn(b), n - 1);
    }
  }

  lemma XorExchange(a: byte, b: byte, c: byte, d: byte)
    ensures Xor(Xor(a, b), Xor(c, d)) == Xor(Xor(a, c), Xor(b, d))
  {
    hide Xor;
    XorAssociative(Xor(a, b), c, d);
    XorAssociative(a, b, c);
    XorAssociative(b, c, d);
    XorAssociative(a, c, b);
    XorAssociative(Xor(a, c), b, d);
  }

  /** The checksum is linear under exclusive or of equally long strings. */
  lemma {:induction false} CrcLinear(c: byte, d: byte, s: seq<byte>, t: seq<byte>)
    requires |s| == |t|
    ensures Crc(Xor(c, d), XorBytes(s, t)) == Xor(Crc(c, s), Crc(d, t))
  {
    hide Xor, Turns;
    if |s| > 0 {
      var n := |s| - 1;
      assert XorBytes(s, t)[..n] == XorBytes(s[..n], t[..n]);
      CrcLinear(c, d, s[..n], t[..n]);
      var (x, y) := (Crc(c, s[..n]), Crc(d, t[..n]));
      XorExchange(x, y, s[n], t[n]);
      TurnsLinear(Xor(x, s[n]), Xor(y, t[n]), 8);
    }
  }
}
