/**
  Two flipped bits under the CRC-8 of a UAVTalk frame.  Multiplication by x has
  order 127 modulo x^8 + x^2 + x + 1, so two flipped bits go unnoticed exactly
  when their distance is a multiple of 127; the argument needs the 127th power
  only once, because 127 is prime.
 */
module CrcPairs {
  import opened Bytes
  import opened Crc8
  import opened CrcDetection

  // --------------------------------------------------------------- the period

  lemma {:induction false} TurnsSum(c: byte, m: nat, n: nat)
    ensures Turns(c, m + n) == Turns(Turns(c, m), n)
    decreases m
  {
    hide Turn;
    if m > 0 {
      TurnsSum(Turn(c), m - 1, n);
    }
  }

  lemma TurnsInjective(a: byte, b: byte, n: nat)
    requires Turns(a, n) == Turns(b, n)
    ensures a == b
  {
    hide Turns, Xor;
    TurnsLinear(a, b, n);
    XorZeroIff(Turns(a, n), Turns(b, n));
    TurnsZeroIff(Xor(a, b), n);
    XorZeroIff(a, b);
  }

  /** The register with only its top bit set comes back after `d` turns. */
  predicate IsPeriod(d: nat) {
    Turns(128, d) == 128
  }

  lemma PeriodDifference(a: nat, b: nat)
    requires IsPeriod(a) && IsPeriod(b) && b <= a
    ensures IsPeriod(a - b)
  {
    hide Turns;
    TurnsSum(128, a - b, b);
    TurnsInjective(Turns(128, a - b), 128, b);
  }

  lemma {:induction false} PeriodRest(q: nat, b: nat, r: nat)
    requires IsPeriod(q * b + r) && IsPeriod(b)
    ensures IsPeriod(r)
    decreases q
  {
    hide IsPeriod;
    if q > 0 {
      assert q * b == (q - 1) * b + b;
      PeriodDifference(q * b + r, b);
      PeriodRest(q - 1, b, r);
    }
  }

  lemma PeriodRemainder(a: nat, b: nat)
    requires b > 0 && IsPeriod(a) && IsPeriod(b)
    ensures IsPeriod(a % b)
  {
    hide IsPeriod;
    assert a == a / b * b + a % b;
    PeriodRest(a / b, b, a % b);
  }

  /** Eight turns of a register, read from the table. */
  lemma EightTurns(c: byte, n: nat)
    ensures Turns(c, n + 8) == Turns(TableEntry(c), n)
  {
    hide Turns, TableEntry;
    TurnsSum(c, 8, n);
    TableIsShiftRegister(c);
  }

  lemma Turns32FromTop(n: nat)
    ensures Turns(128, n + 32) == Turns(49, n)
  {
    hide Turns;
    assert TableEntry(128) == 137 && TableEntry(137) == 182 && TableEntry(182) == 11 && TableEntry(11) == 49;
    hide TableEntry;
    EightTurns(128, n + 24);
    EightTurns(137, n + 16);
    EightTurns(182, n + 8);
    EightTurns(11, n);
  }

  lemma Turns64FromTop(n: nat)
    ensures Turns(128, n + 64) == Turns(191, n)
  {
    hide Turns;
    assert TableEntry(49) == 151 && TableEntry(151) == 236 && TableEntry(236) == 138 && TableEntry(138) == 191;
    hide TableEntry;
    Turns32FromTop(n + 32);
    EightTurns(49, n + 24);
    EightTurns(151, n + 16);
    EightTurns(236, n + 8);
    EightTurns(138, n);
  }

  lemma Turns96FromTop(n: nat)
    ensures Turns(128, n + 96) == Turns(74, n)
  {
    hide Turns;
    assert TableEntry(191) == 52 && TableEntry(52) == 140 && TableEntry(140) == 173 && TableEntry(173) == 74;
    hide TableEntry;
    Turns64FromTop(n + 32);
    EightTurns(191, n + 24);
    EightTurns(52, n + 16);
    EightTurns(140, n + 8);
    EightTurns(173, n);
  }

  lemma Turns128FromTop()
    ensures Turns(128, 128) == 7
  {
    hide Turns;
    assert TableEntry(74) == 241 && TableEntry(241) == 217 && TableEntry(217) == 1 && TableEntry(1) == 7;
    hide TableEntry;
    Turns96FromTop(32);
    EightTurns(74, 24);
    EightTurns(241, 16);
    EightTurns(217, 8);
    EightTurns(1, 0);
    NoTurns(7);
  }

  lemma NoTurns(c: byte)
    ensures Turns(c, 0) == c && Turns(c, 1) == Turn(c)
  {
    hide Turn;
    assert Turns(c, 1) == Turns(Turn(c), 0);
  }

  lemma TurnOfTop()
    ensures Turn(128) == 7
  {
    hide Xor;
    XorZero(7);
    XorAssociative(0, 7, 7);
  }

  lemma PeriodIs127()
    ensures IsPeriod(127) && !IsPeriod(1)
  {
    hide Turns, Turn;
    TurnOfTop();
    NoTurns(128);
    Turns128FromTop();
    TurnsSum(128, 127, 1);
    NoTurns(Turns(128, 127));
    TurnsInjective(Turns(128, 127), 128, 1);
  }

  /** 127 is prime. */
  lemma NoDivisor(r: nat)
    requires 2 <= r < 127
    ensures 127 % r != 0
  {
    var q := 127 / r;
    if 127 % r == 0 {
      assert r * q == 127;
      if r >= 12 {
        NoSmallFactor(q, r);
      } else {
        NoSmallFactor(r, q);
      }
    }
  }

  lemma NoSmallFactor(small: nat, other: nat)
    requires 2 <= small && 2 <= other && (small <= 11 || other >= 12)
    ensures small * other != 127
  {
    if small <= 11 {
      SmallFactor(small, other);
    } else {
      assert small * other >= 12 * other >= 12 * 12;
    }
  }

  lemma SmallFactor(small: nat, other: nat)
    requires 2 <= small <= 11
    ensures small * other != 127
  {
    if small == 2 {
      assert small * other == 2 * other;
    } else if small == 3 {
      assert small * other == 3 * other;
    } else if small == 4 {
      assert small * other == 4 * other;
    } else if small == 5 {
      assert small * other == 5 * other;
    } else if small == 6 {
      assert small * other == 6 * other;
    } else if small == 7 {
      assert small * other == 7 * other;
    } else if small == 8 {
      assert small * other == 8 * other;
    } else if small == 9 {
      assert small * other == 9 * other;
    } else if small == 10 {
      assert small * other == 10 * other;
    } else {
      assert small * other == 11 * other;
    }
  }

  /** No smaller number of turns brings the register back: the remainders would lead down to 1. */
  lemma {:induction false} NoShorterPeriod(r: nat)
    requires 0 < r < 127
    ensures !IsPeriod(r)
    decreases r
  {
    hide IsPeriod;
    PeriodIs127();
    if r > 1 {
      NoDivisor(r);
      NoShorterPeriod(127 % r);
      if IsPeriod(r) {
        PeriodRemainder(127, r);
      }
    }
  }

  lemma {:induction false} MultipleIsPeriod(q: nat)
    ensures IsPeriod(127 * q)
  {
    hide Turns;
    NoTurns(128);
    if q > 0 {
      MultipleIsPeriod(q - 1);
      PeriodIs127();
      TurnsSum(128, 127 * (q - 1), 127);
    }
  }

  /** Multiplication by x modulo the generator has order exactly 127 on the top bit. */
  lemma PeriodIff(d: nat)
    ensures IsPeriod(d) <==> d % 127 == 0
  {
    hide IsPeriod;
    PeriodIs127();
    if d % 127 == 0 {
      MultipleIsPeriod(d / 127);
    } else {
      NoShorterPeriod(d % 127);
      if IsPeriod(d) {
        PeriodRemainder(d, 127);
      }
    }
  }

  // ------------------------------------------------------------- two-bit errors

  lemma {:induction false} ZerosTurn(c: byte, n: nat)
    ensures CrcBits(c, Zeros(n)) == Turns(c, n)
    decreases n
  {
    hide Turn;
    if n > 0 {
      assert Zeros(n)[1..] == Zeros(n - 1);
      ZerosTurn(Turn(c), n - 1);
    }
  }

  /** Exactly the bits `i` and `j` of the error are set. */
  predicate IsPair(e: seq<byte>, i: nat, j: nat) {
    var bits := MessageBits(e);
    i < j < |bits| && forall k :: 0 <= k < |bits| ==> (bits[k] <==> k == i || k == j)
  }

  /** The bit string with exactly two set bits, `d` apart, the first one behind `i` others. */
  function PairBits(i: nat, d: nat, rest: nat): seq<bool>
    requires d > 0
  {
    Zeros(i) + [true] + Zeros(d - 1) + [true] + Zeros(rest)
  }

  lemma OneBit(c: byte)
    ensures CrcBits(c, [true]) == Turn(Xor(c, 128))
  {
    hide Turn, Xor;
    assert [true][1..] == [];
    assert CrcBits(FeedBit(c, true), []) == FeedBit(c, true);
  }

  /** The register in front of the second set bit: the top bit, turned once for every position passed. */
  lemma BeforeSecondBit(i: nat, d: nat)
    requires d > 0
    ensures CrcBits(0, Zeros(i) + [true] + Zeros(d - 1)) == Turns(128, d)
  {
    hide CrcBits, Turns, Turn, Zeros, Xor;
    CrcBitsConcat(0, Zeros(i) + [true], Zeros(d - 1));
    CrcBitsConcat(0, Zeros(i), [true]);
    ZerosKeepRegister(0, i);
    OneBit(0);
    XorZero(128);
    XorAssociative(0, 128, 128);
    ZerosTurn(Turn(128), d - 1);
    NoTurns(128);
    TurnsSum(128, 1, d - 1);
  }

  lemma PairResidue(i: nat, d: nat, rest: nat)
    requires d > 0
    ensures CrcBits(0, PairBits(i, d, rest)) == 0 <==> d % 127 == 0
  {
    hide CrcBits, Turns, Turn, Zeros, Xor;
    var front := Zeros(i) + [true] + Zeros(d - 1);
    var c := Turns(128, d);
    BeforeSecondBit(i, d);
    CrcBitsConcat(0, front, [true]);
    CrcBitsConcat(0, front + [true], Zeros(rest));
    OneBit(c);
    ZerosKeepRegister(Turn(Xor(c, 128)), rest);
    TurnZeroIff(Xor(c, 128));
    XorZeroIff(c, 128);
    PeriodIff(d);
  }

  /** Two flipped bits have residue 0 exactly when 127 divides their distance. */
  lemma PairHasResidue(e: seq<byte>, i: nat, j: nat)
    requires IsPair(e, i, j)
    ensures Crc(0, e) == 0 <==> (j - i) % 127 == 0
  {
    hide CrcBits, Crc, MessageBits;
    var bits := MessageBits(e);
    assert bits == PairBits(i, j - i, |bits| - j - 1);
    PairResidue(i, j - i, |bits| - j - 1);
    CrcIsBitSerial(0, e);
  }

  /** Two flipped bits turn a valid frame into a valid one exactly when 127 divides their distance. */
  lemma PairsUndetectedIff(f: seq<byte>, e: seq<byte>, i: nat, j: nat)
    requires FrameValid(f) && |e| == |f| && IsPair(e, i, j)
    ensures FrameValid(XorBytes(f, e)) <==> (j - i) % 127 == 0
  {
    hide Crc, MessageBits, FrameValid;
    PairHasResidue(e, i, j);
    UndetectedIff(f, e);
  }

  /** In a frame of at most 15 bytes no two flipped bits are that far apart. */
  lemma ShortFramesDetectPairs(f: seq<byte>, e: seq<byte>, i: nat, j: nat)
    requires FrameValid(f) && |e| == |f| <= 15 && IsPair(e, i, j)
    ensures !FrameValid(XorBytes(f, e))
  {
    hide Crc, MessageBits, FrameValid, XorBytes;
    PairsUndetectedIff(f, e, i, j);
    var d := j - i;
    assert 0 < d < 127 && d % 127 == d;
  }
}
