/**
  Bytes, their exclusive or, and the fixed-width integer encodings that the
  UAVTalk and WebSocket wire formats are built from.  A byte is an integer in
  [0, 256).
 */
module Bytes {

  type byte = x: int | 0 <= x < 256

  type uint32 = x: int | 0 <= x < 0x1_0000_0000

  function Pow2(k: nat): (p: nat)
    ensures p >= 1
  {
    if k == 0 then 1 else 2 * Pow2(k - 1)
  }

  predicate XorBool(a: bool, b: bool) {
    if a then !b else b
  }

  /** The exclusive or of the lowest `k` binary digits. */
  function XorDigits(a: nat, b: nat, k: nat): (r: nat)
    ensures r < Pow2(k)
    decreases k
  {
    if k == 0 then 0 else (a + b) % 2 + 2 * XorDigits(a / 2, b / 2, k - 1)
  }

  function Xor(a: byte, b: byte): byte {
    assert Pow2(8) == 256;
    XorDigits(a, b, 8)
  }

  lemma {:induction false} Pow2Sum(j: nat, k: nat)
    ensures Pow2(j + k) == Pow2(j) * Pow2(k)
    decreases j
  {
    if j > 0 {
      Pow2Sum(j - 1, k);
    }
  }

  lemma Pow2Is32()
    ensures Pow2(32) == 0x1_0000_0000
  {
    assert Pow2(8) == 256;
    Pow2Sum(8, 8);
    Pow2Sum(16, 16);
  }

  function Xor32(a: uint32, b: uint32): uint32 {
    Pow2Is32();
    XorDigits(a, b, 32)
  }

  lemma LowDigit(a: nat, b: nat, high: nat)
    ensures var x := (a + b) % 2 + 2 * high; x / 2 == high && (x + b) % 2 == a % 2
  {
  }

  lemma SameDigits(a: nat, b: nat)
    ensures (a + b) % 2 == 0 && a / 2 == b / 2 <==> a == b
  {
    if a == b {
      assert a + b == 2 * a;
    } else if a / 2 == b / 2 {
      var low := if a < b then a else b;
      assert a + b == 2 * low + 1;
    }
  }

  lemma HalfBelow(a: nat, k: nat)
    requires k > 0 && a < Pow2(k)
    ensures a / 2 < Pow2(k - 1)
  {
  }

  lemma {:induction false} XorDigitsCancel(a: nat, b: nat, k: nat)
    requires a < Pow2(k)
    ensures XorDigits(XorDigits(a, b, k), b, k) == a
    decreases k
  {
    if k == 0 {
      assert Pow2(0) == 1;
    } else {
      HalfBelow(a, k);
      hide XorDigits, Pow2;
      var high := XorDigits(a / 2, b / 2, k - 1);
      XorDigitsStep(a, b, k);
      XorDigitsStep(XorDigits(a, b, k), b, k);
      LowDigit(a, b, high);
      XorDigitsCancel(a / 2, b / 2, k - 1);
    }
  }

  lemma XorDigitsStep(a: nat, b: nat, k: nat)
    requires k > 0
    ensures XorDigits(a, b, k) == (a + b) % 2 + 2 * XorDigits(a / 2, b / 2, k - 1)
  {
  }

  lemma {:induction false} XorDigitsZeroIff(a: nat, b: nat, k: nat)
    requires a < Pow2(k) && b < Pow2(k)
    ensures XorDigits(a, b, k) == 0 <==> a == b
    decreases k
  {
    if k > 0 {
      assert XorDigits(a, b, k) == (a + b) % 2 + 2 * XorDigits(a / 2, b / 2, k - 1);
      HalfBelow(a, k);
      HalfBelow(b, k);
      hide XorDigits, Pow2;
      XorDigitsZeroIff(a / 2, b / 2, k - 1);
      SameDigits(a, b);
    }
  }

  lemma {:induction false} XorDigitsSymmetric(a: nat, b: nat, k: nat)
    ensures XorDigits(a, b, k) == XorDigits(b, a, k)
    decreases k
  {
    if k > 0 {
      XorDigitsSymmetric(a / 2, b / 2, k - 1);
    }
  }

  lemma {:induction false} XorDigitsZero(n: nat, k: nat)
    requires n < Pow2(k)
    ensures XorDigits(0, n, k) == n
    decreases k
  {
    if k > 0 {
      HalfBelow(n, k);
      XorDigitsZero(n / 2, k - 1);
    }
  }

  lemma Xor32Injective(h: uint32, a: uint32, b: uint32)
    requires Xor32(h, a) == Xor32(h, b)
    ensures a == b
  {
    hide XorDigits;
    Pow2Is32();
    hide Pow2;
    XorDigitsSymmetric(a, h, 32);
    XorDigitsSymmetric(b, h, 32);
    XorDigitsCancel(a, h, 32);
    XorDigitsCancel(b, h, 32);
  }

  lemma XorCancels(a: byte, b: byte)
    ensures Xor(Xor(a, b), b) == a
  {
    assert Pow2(8) == 256;
    XorDigitsCancel(a, b, 8);
  }

  lemma XorZero(x: byte)
    ensures Xor(x, 0) == x
  {
    hide XorDigits;
    assert Pow2(8) == 256;
    XorDigitsSymmetric(x, 0, 8);
    XorDigitsZero(x, 8);
  }

  lemma XorSymmetric(a: byte, b: byte)
    ensures Xor(a, b) == Xor(b, a)
  {
    hide XorDigits, Pow2;
    XorDigitsSymmetric(a, b, 8);
  }

  lemma XorZeroIff(a: byte, b: byte)
    ensures Xor(a, b) == 0 <==> a == b
  {
    assert Pow2(8) == 256;
    XorDigitsZeroIff(a, b, 8);
  }

  // Little-endian integers of the UAVTalk format.

  function Le16(n: nat): (s: seq<byte>)
    requires n < 0x1_0000
    ensures |s| == 2 && FromLe16(s) == n
  {
    [n % 256, n / 256]
  }

  function FromLe16(s: seq<byte>): (n: nat)
    requires |s| == 2
    ensures n < 0x1_0000
  {
    (s[0] as int) + 256 * (s[1] as int)
  }

  function Le32(n: nat): (s: seq<byte>)
    requires n < 0x1_0000_0000
    ensures |s| == 4 && FromLe32(s) == n
  {
    assert (Le16(n % 0x1_0000) + Le16(n / 0x1_0000))[..2] == Le16(n % 0x1_0000);
    assert (Le16(n % 0x1_0000) + Le16(n / 0x1_0000))[2..] == Le16(n / 0x1_0000);
    Le16(n % 0x1_0000) + Le16(n / 0x1_0000)
  }

  function FromLe32(s: seq<byte>): (n: nat)
    requires |s| == 4
    ensures n < 0x1_0000_0000
  {
    FromLe16(s[..2]) + 0x1_0000 * FromLe16(s[2..])
  }

  lemma Le16Weights(s: seq<byte>)
    requires |s| == 2
    ensures FromLe16(s) == Weigh2(s[1], s[0])
  {
  }

  lemma Le32Weights(s: seq<byte>)
    requires |s| == 4
    ensures FromLe32(s) == Weigh4(s[3], s[2], s[1], s[0])
  {
  }

  lemma Le16OfFromLe16(s: seq<byte>)
    requires |s| == 2
    ensures Le16(FromLe16(s)) == s
  {
  }

  lemma Le32OfFromLe32(s: seq<byte>)
    requires |s| == 4
    ensures Le32(FromLe32(s)) == s
  {
    hide Le16, FromLe16;
    SplitWord(FromLe16(s[..2]), FromLe16(s[2..]));
    Le16OfFromLe16(s[..2]);
    Le16OfFromLe16(s[2..]);
    assert s == s[..2] + s[2..];
  }

  lemma SplitWord(low: nat, high: nat)
    requires low < 0x1_0000
    ensures (low + 0x1_0000 * high) % 0x1_0000 == low && (low + 0x1_0000 * high) / 0x1_0000 == high
  {
  }

  // Big-endian integers of the WebSocket frame header, `k` bytes wide.

  function Pow256(k: nat): (p: nat)
    ensures p >= 1
  {
    if k == 0 then 1 else 256 * Pow256(k - 1)
  }

  function BigEndian(n: nat, k: nat): (s: seq<byte>)
    ensures |s| == k
  {
    if k == 0 then [] else BigEndian(n / 256, k - 1) + [n % 256]
  }

  function FromBigEndian(s: seq<byte>): nat {
    if |s| == 0 then 0 else 256 * FromBigEndian(s[..|s| - 1]) + s[|s| - 1]
  }

  lemma {:induction false} FromBigEndianOfBigEndian(n: nat, k: nat)
    requires n < Pow256(k)
    ensures FromBigEndian(BigEndian(n, k)) == n
  {
    if k > 0 {
      FromBigEndianOfBigEndian(n / 256, k - 1);
      assert BigEndian(n, k)[..k - 1] == BigEndian(n / 256, k - 1);
    }
  }

  // Bytes with their weights written out, the highest first.

  function Weigh2(b1: int, b0: int): int {
    256 * b1 + b0
  }

  function Weigh4(b3: int, b2: int, b1: int, b0: int): int {
    16777216 * b3 + 65536 * b2 + 256 * b1 + b0
  }

  lemma BigEndianWeights(s: seq<byte>)
    ensures |s| == 2 ==> FromBigEndian(s) == Weigh2(s[0], s[1])
    ensures |s| == 8 ==>
      FromBigEndian(s) == 0x1_0000_0000 * Weigh4(s[0], s[1], s[2], s[3]) + Weigh4(s[4], s[5], s[6], s[7])
  {
    if |s| == 2 || |s| == 8 {
      BigEndianPrefix(s, 2);
      if |s| == 8 {
        BigEndianPrefix(s, 4);
        BigEndianPrefix(s, 6);
        BigEndianPrefix(s, 8);
      }
      assert s[..|s|] == s && s[..0] == [];
    }
  }

  lemma BigEndianPrefix(s: seq<byte>, k: nat)
    requires 2 <= k <= |s|
    ensures FromBigEndian(s[..k]) == 0x1_0000 * FromBigEndian(s[..k - 2]) + Weigh2(s[k - 2], s[k - 1])
  {
    assert s[..k][..k - 1] == s[..k - 1] && s[..k - 1][..k - 2] == s[..k - 2];
  }

  // The concatenation of a sequence of sequences.

  function Flatten<T>(parts: seq<seq<T>>): seq<T> {
    if |parts| == 0 then [] else Flatten(parts[..|parts| - 1]) + parts[|parts| - 1]
  }

  lemma {:induction false} FlattenConcat<T>(a: seq<seq<T>>, b: seq<seq<T>>)
    ensures Flatten(a + b) == Flatten(a) + Flatten(b)
  {
    if |b| == 0 {
      assert a + b == a;
    } else {
      var (front, last) := (b[..|b| - 1], b[|b| - 1]);
      assert (a + b)[..|a + b| - 1] == a + front && (a + b)[|a + b| - 1] == last;
      assert Flatten(a + b) == Flatten(a + front) + last && Flatten(b) == Flatten(front) + last;
      hide Flatten;
      FlattenConcat(a, front);
      assert Flatten(a) + Flatten(front) + last == Flatten(a) + (Flatten(front) + last);
    }
  }
}
