/**
  A byte as a record of eight booleans, most significant first.  The proofs
  about the CRC register argue on this view; `FromBits` carries every fact
  back to bytes.
 */
module BitView {
  import opened Bytes

  datatype Bits = Bits(b7: bool, b6: bool, b5: bool, b4: bool, b3: bool, b2: bool, b1: bool, b0: bool)

  const ZERO_BITS := Bits(false, false, false, false, false, false, false, false)

  function Push(m: nat, bit: bool): nat {
    2 * m + if bit then 1 else 0
  }

  function NibbleValue(b3: bool, b2: bool, b1: bool, b0: bool): (n: nat)
    ensures n < 16
  {
    Push(Push(Push(Push(0, b3), b2), b1), b0)
  }

  function High(b: Bits): (n: nat)
    ensures n < 16
  {
    NibbleValue(b.b7, b.b6, b.b5, b.b4)
  }

  function Low(b: Bits): (n: nat)
    ensures n < 16
  {
    NibbleValue(b.b3, b.b2, b.b1, b.b0)
  }

  function FromBits(b: Bits): byte {
    16 * High(b) + Low(b)
  }

  function NibbleBits(n: nat): (r: (bool, bool, bool, bool))
    requires n < 16
    ensures NibbleValue(r.0, r.1, r.2, r.3) == n
  {
    var r3 := if n >= 8 then n - 8 else n;
    var r2 := if r3 >= 4 then r3 - 4 else r3;
    var r1 := if r2 >= 2 then r2 - 2 else r2;
    (n >= 8, r3 >= 4, r2 >= 2, r1 == 1)
  }

  function ToBits(n: byte): (b: Bits)
    ensures FromBits(b) == n
  {
    var h := NibbleBits(n / 16);
    var l := NibbleBits(n % 16);
    Bits(h.0, h.1, h.2, h.3, l.0, l.1, l.2, l.3)
  }

  lemma NibbleInjective(x3: bool, x2: bool, x1: bool, x0: bool, y3: bool, y2: bool, y1: bool, y0: bool)
    requires NibbleValue(x3, x2, x1, x0) == NibbleValue(y3, y2, y1, y0)
    ensures x3 == y3 && x2 == y2 && x1 == y1 && x0 == y0
  {
  }

  lemma FromBitsInjective(x: Bits, y: Bits)
    requires FromBits(x) == FromBits(y)
    ensures x == y
  {
    hide NibbleValue;
    NibbleInjective(x.b7, x.b6, x.b5, x.b4, y.b7, y.b6, y.b5, y.b4);
    NibbleInjective(x.b3, x.b2, x.b1, x.b0, y.b3, y.b2, y.b1, y.b0);
  }

  function XorBits(x: Bits, y: Bits): Bits {
    Bits(XorBool(x.b7, y.b7), XorBool(x.b6, y.b6), XorBool(x.b5, y.b5), XorBool(x.b4, y.b4),
         XorBool(x.b3, y.b3), XorBool(x.b2, y.b2), XorBool(x.b1, y.b1), XorBool(x.b0, y.b0))
  }

  lemma XorPush(m: nat, n: nat, x: bool, y: bool, k: nat)
    ensures XorDigits(Push(m, x), Push(n, y), k + 1) == Push(XorDigits(m, n, k), XorBool(x, y))
  {
    hide XorDigits;
    XorDigitsStep(Push(m, x), Push(n, y), k + 1);
    PushedDigits(m, n, x, y);
  }

  lemma PushedDigits(m: nat, n: nat, x: bool, y: bool)
    ensures Push(m, x) / 2 == m && Push(n, y) / 2 == n
    ensures (Push(m, x) + Push(n, y)) % 2 == if XorBool(x, y) then 1 else 0
  {
    if x && y {
      assert Push(m, x) + Push(n, y) == 2 * (m + n + 1);
    } else if !x && !y {
      assert Push(m, x) + Push(n, y) == 2 * (m + n);
    } else {
      assert Push(m, x) + Push(n, y) == 2 * (m + n) + 1;
    }
  }

  lemma PushNibble(m: nat, x3: bool, x2: bool, x1: bool, x0: bool)
    ensures Push(Push(Push(Push(m, x3), x2), x1), x0) == 16 * m + NibbleValue(x3, x2, x1, x0)
  {
  }

  lemma XorNibble(m: nat, n: nat, x3: bool, x2: bool, x1: bool, x0: bool,
                  y3: bool, y2: bool, y1: bool, y0: bool, k: nat)
    ensures XorDigits(16 * m + NibbleValue(x3, x2, x1, x0), 16 * n + NibbleValue(y3, y2, y1, y0), k + 4)
         == 16 * XorDigits(m, n, k)
            + NibbleValue(XorBool(x3, y3), XorBool(x2, y2), XorBool(x1, y1), XorBool(x0, y0))
  {
    hide XorDigits, XorBool, Push, NibbleValue;
    var (m1, n1) := (Push(m, x3), Push(n, y3));
    var (m2, n2) := (Push(m1, x2), Push(n1, y2));
    var (m3, n3) := (Push(m2, x1), Push(n2, y1));
    XorPush(m, n, x3, y3, k);
    XorPush(m1, n1, x2, y2, k + 1);
    XorPush(m2, n2, x1, y1, k + 2);
    XorPush(m3, n3, x0, y0, k + 3);
    PushNibble(m, x3, x2, x1, x0);
    PushNibble(n, y3, y2, y1, y0);
    PushNibble(XorDigits(m, n, k), XorBool(x3, y3), XorBool(x2, y2), XorBool(x1, y1), XorBool(x0, y0));
  }

  lemma XorLowNibble(x: Bits, y: Bits, m: nat, n: nat)
    ensures XorDigits(16 * m + Low(x), 16 * n + Low(y), 8) == 16 * XorDigits(m, n, 4) + Low(XorBits(x, y))
  {
    hide NibbleValue, XorDigits, XorBool, Pow2;
    XorNibble(m, n, x.b3, x.b2, x.b1, x.b0, y.b3, y.b2, y.b1, y.b0, 4);
  }

  lemma XorHighNibble(x: Bits, y: Bits)
    ensures XorDigits(High(x), High(y), 4) == High(XorBits(x, y))
  {
    hide NibbleValue, XorDigits, XorBool, Pow2;
    XorNibble(0, 0, x.b7, x.b6, x.b5, x.b4, y.b7, y.b6, y.b5, y.b4, 0);
    NoDigits();
  }

  lemma NoDigits()
    ensures XorDigits(0, 0, 0) == 0
  {
  }

  /** The arithmetic exclusive or is the bitwise one. */
  lemma XorFromBits(x: Bits, y: Bits)
    ensures Xor(FromBits(x), FromBits(y)) == FromBits(XorBits(x, y))
  {
    hide High, Low, XorDigits, XorBits, Pow2;
    XorLowNibble(x, y, High(x), High(y));
    XorHighNibble(x, y);
  }
}
