/**
  What the CRC-8 of a UAVTalk frame detects.

  A frame is valid when its last byte is the checksum of the bytes before it.
  A corrupted frame stays valid exactly when the error pattern, read as a
  polynomial, is a multiple of the generator; no burst of at most eight bits
  and no odd number of flipped bits is such a multiple.
 */
module CrcDetection {
  import opened Bytes
  import opened BitView
  import opened Crc8

  predicate FrameValid(f: seq<byte>) {
    |f| >= 1 && f[|f| - 1] == Crc(0, f[..|f| - 1])
  }

  // ------------------------------------------------------- the zero register

  lemma TurnZeroIff(c: byte)
    ensures Turn(c) == 0 <==> c == 0
  {
    hide Xor;
    if c >= 128 {
      XorZeroIff(2 * c - 256, 7);
    }
  }

  lemma {:induction false} TurnsZeroIff(c: byte, n: nat)
    ensures Turns(c, n) == 0 <==> c == 0
    decreases n
  {
    hide Turn;
    if n > 0 {
      TurnZeroIff(c);
      TurnsZeroIff(Turn(c), n - 1);
    }
  }

  /** Checking the last byte is checking that the whole frame has residue zero. */
  lemma ValidIffResidueZero(f: seq<byte>)
    requires |f| >= 1
    ensures FrameValid(f) <==> Crc(0, f) == 0
  {
    hide Turns, Xor;
    var (body, last) := (f[..|f| - 1], f[|f| - 1]);
    TurnsZeroIff(Xor(Crc(0, body), last), 8);
    XorZeroIff(Crc(0, body), last);
  }

  /** An error goes unnoticed exactly when the error pattern has residue zero. */
  lemma UndetectedIff(f: seq<byte>, e: seq<byte>)
    requires FrameValid(f) && |e| == |f|
    ensures FrameValid(XorBytes(f, e)) <==> Crc(0, e) == 0
  {
    hide Xor, Crc;
    ValidIffResidueZero(f);
    ValidIffResidueZero(XorBytes(f, e));
    XorZeroIff(0, 0);
    CrcLinear(0, 0, f, e);
    XorZeroIff(0, Crc(0, e));
  }

  // ------------------------------------------------------------ burst errors

  function Zeros(n: nat): (s: seq<bool>)
    ensures |s| == n && forall k :: 0 <= k < n ==> !s[k]
  {
    seq(n, _ => false)
  }

  /** Zero bits neither create nor remove a non-zero register. */
  lemma {:induction false} ZerosKeepRegister(c: byte, n: nat)
    ensures CrcBits(c, Zeros(n)) == 0 <==> c == 0
    decreases n
  {
    hide Turn;
    if n > 0 {
      TurnZeroIff(c);
      assert Zeros(n)[1..] == Zeros(n - 1);
      ZerosKeepRegister(Turn(c), n - 1);
    }
  }

  lemma WindowDetected(pre: nat, w: byte, post: nat)
    ensures CrcBits(0, Zeros(pre) + TopBits(w, 8) + Zeros(post)) == 0 <==> w == 0
  {
    hide CrcBits, TopBits, Turns, Zeros, Xor;
    ZerosKeepRegister(0, pre);
    XorZero(w);
    XorAssociative(0, w, w);
    FeedByte(0, w);
    TurnsZeroIff(w, 8);
    CrcBitsConcat(0, Zeros(pre), TopBits(w, 8));
    CrcBitsConcat(0, Zeros(pre) + TopBits(w, 8), Zeros(post));
    ZerosKeepRegister(CrcBits(0, TopBits(w, 8)), post);
  }

  function BitAt(b: Bits, k: nat): bool {
    if k == 0 then b.b7 else if k == 1 then b.b6 else if k == 2 then b.b5 else if k == 3 then b.b4
    else if k == 4 then b.b3 else if k == 5 then b.b2 else if k == 6 then b.b1 else k == 7 && b.b0
  }

  lemma BitAtShiftLeft(b: Bits, k: nat)
    ensures BitAt(ShiftLeftBits(b), k) == BitAt(b, k + 1) && BitAt(b, 0) == b.b7
  {
  }

  lemma {:induction false} TopBitsAt(b: Bits, n: nat, k: nat)
    requires k < n
    ensures TopBits(FromBits(b), n)[k] == BitAt(b, k)
    decreases n
  {
    hide FromBits, ShiftLeft, ShiftLeftBits, BitAt;
    ShiftLeftFromBits(b);
    BitAtShiftLeft(b, if k > 0 then k - 1 else 0);
    if k > 0 {
      TopBitsAt(ShiftLeftBits(b), n - 1, k - 1);
    }
  }

  /** Every set bit of the error lies among eight consecutive bits, and one is set. */
  ghost predicate IsBurst(e: seq<byte>, p: nat) {
    var bits := MessageBits(e);
    && (forall k :: 0 <= k < |bits| && bits[k] ==> p <= k < p + 8)
    && (exists k :: 0 <= k < |bits| && bits[k])
  }

  /** The byte with the given eight bits. */
  function Window(m: seq<bool>): (w: byte)
    requires |m| == 8
  {
    FromBits(Bits(m[0], m[1], m[2], m[3], m[4], m[5], m[6], m[7]))
  }

  lemma BitsOfWindow(m: seq<bool>)
    requires |m| == 8
    ensures TopBits(Window(m), 8) == m
  {
    hide FromBits, TopBits;
    forall k: nat | k < 8
      ensures TopBits(Window(m), 8)[k] == m[k]
    {
      TopBitsAt(Bits(m[0], m[1], m[2], m[3], m[4], m[5], m[6], m[7]), 8, k);
    }
  }

  lemma BitsOfZero(k: nat)
    requires k < 8
    ensures !TopBits(0, 8)[k]
  {
    TopBitsAt(ZERO_BITS, 8, k);
  }

  lemma BurstHasResidue(e: seq<byte>, p: nat)
    requires IsBurst(e, p)
    ensures Crc(0, e) != 0
  {
    hide CrcBits, Crc, TopBits, MessageBits, Window;
    var bits := MessageBits(e);
    var q := if p + 8 <= |bits| then p else |bits| - 8;
    var w := Window(bits[q..q + 8]);
    BitsOfWindow(bits[q..q + 8]);
    assert bits == Zeros(q) + TopBits(w, 8) + Zeros(|bits| - q - 8);
    WindowDetected(q, w, |bits| - q - 8);
    CrcIsBitSerial(0, e);
    if w == 0 {
      var k :| 0 <= k < |bits| && bits[k];
      assert bits[k] == TopBits(w, 8)[k - q];
      BitsOfZero(k - q);
      assert false;
    }
  }

  /** A burst of at most eight bits never turns a valid frame into a valid one. */
  lemma BurstsDetected(f: seq<byte>, e: seq<byte>, p: nat)
    requires FrameValid(f) && |e| == |f| && IsBurst(e, p)
    ensures !FrameValid(XorBytes(f, e))
  {
    BurstHasResidue(e, p);
    UndetectedIff(f, e);
  }

  // -------------------------------------------------------------- odd errors

  function Ones(m: seq<bool>): nat {
    if |m| == 0 then 0 else (if m[0] then 1 else 0) + Ones(m[1..])
  }

  predicate Parity(c: Bits) {
    XorBool(XorBool(XorBool(c.b7, c.b6), XorBool(c.b5, c.b4)), XorBool(XorBool(c.b3, c.b2), XorBool(c.b1, c.b0)))
  }

  /** The generator has an even number of terms, so a turn keeps the parity. */
  lemma FeedBitsParity(c: Bits, bit: bool)
    ensures Parity(FeedBits(c, bit)) == XorBool(Parity(c), bit)
  {
  }

  lemma {:induction false} CrcBitsParity(c: Bits, m: seq<bool>, r: Bits)
    requires CrcBits(FromBits(c), m) == FromBits(r)
    ensures Parity(r) == XorBool(Parity(c), Ones(m) % 2 == 1)
    decreases |m|
  {
    hide Parity, FeedBit, FeedBits, FromBits;
    if |m| == 0 {
      FromBitsInjective(c, r);
    } else {
      FeedBitsParity(c, m[0]);
      FeedBitFromBits(c, m[0]);
      CrcBitsParity(FeedBits(c, m[0]), m[1..], r);
    }
  }

  lemma OddHasResidue(e: seq<byte>)
    requires Ones(MessageBits(e)) % 2 == 1
    ensures Crc(0, e) != 0
  {
    hide CrcBits, Crc, MessageBits, Ones;
    CrcIsBitSerial(0, e);
    assert FromBits(ZERO_BITS) == 0;
    if Crc(0, e) == 0 {
      CrcBitsParity(ZERO_BITS, MessageBits(e), ZERO_BITS);
    }
  }

  /** Flipping an odd number of bits never turns a valid frame into a valid one. */
  lemma OddErrorsDetected(f: seq<byte>, e: seq<byte>)
    requires FrameValid(f) && |e| == |f| && Ones(MessageBits(e)) % 2 == 1
    ensures !FrameValid(XorBytes(f, e))
  {
    hide Crc, MessageBits, Ones, FrameValid;
    OddHasResidue(e);
    UndetectedIff(f, e);
  }

  // ------------------------------------------------------ polynomial division

  /** Coefficient `i` of a polynomial written most significant coefficient first. */
  predicate Coefficient(q: seq<bool>, i: int) {
    0 <= i < |q| && q[i]
  }

  /** Coefficient `i` of q(x) * (x^8 + x^2 + x + 1), a polynomial of |q| + 8 coefficients. */
  predicate GeneratorTimes(q: seq<bool>, i: int) {
    XorBool(XorBool(Coefficient(q, i), Coefficient(q, i - 6)),
            XorBool(Coefficient(q, i - 7), Coefficient(q, i - 8)))
  }

  /** The quotient bits: what the register carries out as each message bit goes in. */
  function Quotient(m: seq<bool>): (q: seq<bool>)
    ensures |q| == |m|
  {
    if |m| == 0 then []
    else
      var front := m[..|m| - 1];
      Quotient(front) + [XorBool(CrcBits(0, front) >= 128, m[|m| - 1])]
  }

  lemma CrcBitsSnoc(c: byte, m: seq<bool>)
    requires |m| > 0
    ensures CrcBits(c, m) == FeedBit(CrcBits(c, m[..|m| - 1]), m[|m| - 1])
  {
    hide FeedBit;
    var last := [m[|m| - 1]];
    assert m == m[..|m| - 1] + last;
    CrcBitsConcat(c, m[..|m| - 1], last);
    assert last[1..] == [];
  }

  /** Coefficient `i` of the checksum, placed below the |m| coefficients of the message. */
  predicate RemainderAt(m: seq<bool>, i: int) {
    Coefficient(TopBits(CrcBits(0, m), 8), i - |m|)
  }

  /** One more quotient bit adds one shifted copy of the generator. */
  lemma GeneratorTimesSnoc(q: seq<bool>, t: bool, i: int)
    ensures GeneratorTimes(q + [t], i)
         == XorBool(GeneratorTimes(q, i), t && i - |q| in {0, 6, 7, 8})
  {
    forall j
      ensures Coefficient(q + [t], j) == if j == |q| then t else Coefficient(q, j)
    {
    }
    assert !Coefficient(q, |q|);
    hide Coefficient;
  }

  lemma FeedBitsAt(c: Bits, bit: bool, k: nat)
    requires k < 8
    ensures BitAt(FeedBits(c, bit), k) == XorBool(BitAt(c, k + 1), XorBool(c.b7, bit) && k >= 5)
  {
  }

  /** Feeding a bit shifts the remainder up and adds the generator's low terms. */
  lemma FeedBitAt(c: byte, bit: bool, k: nat)
    requires k < 8
    ensures Coefficient(TopBits(FeedBit(c, bit), 8), k)
         == XorBool(Coefficient(TopBits(c, 8), k + 1), XorBool(c >= 128, bit) && k >= 5)
  {
    hide ToBits, FromBits, TopBits, FeedBit, FeedBits, BitAt;
    var b := ToBits(c);
    FeedBitsAt(b, bit, k);
    FeedBitFromBits(b, bit);
    ShiftLeftFromBits(b);
    TopBitsAt(FeedBits(b, bit), 8, k);
    if k < 7 {
      TopBitsAt(b, 8, k + 1);
    } else {
      NoNinthBit(b);
    }
  }

  lemma NoNinthBit(b: Bits)
    ensures !BitAt(b, 8)
  {
  }

  lemma FirstCoefficient(c: byte)
    ensures Coefficient(TopBits(c, 8), 0) == (c >= 128)
  {
  }

  /** The quotient bit that the last message bit adds. */
  predicate LastQuotientBit(m: seq<bool>)
    requires |m| > 0
  {
    XorBool(CrcBits(0, m[..|m| - 1]) >= 128, m[|m| - 1])
  }

  lemma ProductStep(m: seq<bool>, i: int)
    requires |m| > 0
    ensures var n := |m| - 1;
            GeneratorTimes(Quotient(m), i)
            == XorBool(GeneratorTimes(Quotient(m[..n]), i), LastQuotientBit(m) && i - n in {0, 6, 7, 8})
  {
    hide GeneratorTimes, CrcBits, XorBool;
    GeneratorTimesSnoc(Quotient(m[..|m| - 1]), LastQuotientBit(m), i);
  }

  lemma RemainderStep(m: seq<bool>, i: int)
    requires |m| > 0 && i < |m| + 8
    ensures var n := |m| - 1;
            RemainderAt(m, i) == (i > n && XorBool(RemainderAt(m[..n], i), LastQuotientBit(m) && i - n >= 6))
    ensures var n := |m| - 1; RemainderAt(m[..n], n) == (CrcBits(0, m[..n]) >= 128)
  {
    hide CrcBits, FeedBit, TopBits, XorBool;
    var n := |m| - 1;
    var c := CrcBits(0, m[..n]);
    CrcBitsSnoc(0, m);
    FirstCoefficient(c);
    if i > n {
      FeedBitAt(c, m[n], i - n - 1);
    }
  }

  lemma DivisionBelow(m: seq<bool>, i: int)
    requires |m| > 0 && 0 <= i < |m| - 1
    requires var f := m[..|m| - 1]; Coefficient(f, i) == XorBool(GeneratorTimes(Quotient(f), i), RemainderAt(f, i))
    ensures Coefficient(m, i) == XorBool(GeneratorTimes(Quotient(m), i), RemainderAt(m, i))
  {
    hide GeneratorTimes, Quotient, CrcBits, TopBits, LastQuotientBit;
    ProductStep(m, i);
    RemainderStep(m, i);
  }

  lemma DivisionAt(m: seq<bool>)
    requires |m| > 0
    requires var f := m[..|m| - 1]; !XorBool(GeneratorTimes(Quotient(f), |m| - 1), RemainderAt(f, |m| - 1))
    ensures var n := |m| - 1; m[n] == XorBool(GeneratorTimes(Quotient(m), n), RemainderAt(m, n))
  {
    hide GeneratorTimes, Quotient, CrcBits, RemainderAt;
    ProductStep(m, |m| - 1);
    RemainderStep(m, |m| - 1);
  }

  lemma DivisionAbove(m: seq<bool>, i: int)
    requires |m| > 0 && |m| <= i < |m| + 8
    requires var f := m[..|m| - 1]; !XorBool(GeneratorTimes(Quotient(f), i), RemainderAt(f, i))
    ensures !XorBool(GeneratorTimes(Quotient(m), i), RemainderAt(m, i))
  {
    hide GeneratorTimes, Quotient, CrcBits, RemainderAt, LastQuotientBit;
    ProductStep(m, i);
    RemainderStep(m, i);
  }

  /**
    The register is the remainder of division by the generator: coefficient by
    coefficient, m(x) * x^8 = Quotient(m)(x) * (x^8 + x^2 + x + 1) + CRC(x).
   */
  lemma {:induction false} CrcIsRemainder(m: seq<bool>, i: int)
    requires 0 <= i < |m| + 8
    ensures Coefficient(m, i) == XorBool(GeneratorTimes(Quotient(m), i), RemainderAt(m, i))
  {
    if |m| == 0 {
      EmptyRemainder(i);
    } else {
      var n := |m| - 1;
      if i < n + 8 {
        CrcIsRemainder(m[..n], i);
      } else {
        ProductEnds(Quotient(m[..n]));
      }
      hide GeneratorTimes, Quotient, CrcBits, TopBits;
      if i < n {
        DivisionBelow(m, i);
      } else if i == n {
        DivisionAt(m);
      } else {
        DivisionAbove(m, i);
      }
    }
  }

  lemma EmptyRemainder(i: int)
    requires 0 <= i < 8
    ensures !RemainderAt([], i) && !GeneratorTimes([], i)
  {
    BitsOfZero(i);
    assert CrcBits(0, []) == 0;
  }

  lemma ProductEnds(q: seq<bool>)
    ensures !GeneratorTimes(q, |q| + 8)
  {
  }
}
