/**
  What the object ID hash computes: each step in binary digits, and the whole
  hash as one fold over the numbers of a definition (uavtalk/uavobjectid.go).
 */
module ObjectIds {
  import opened Bytes
  import opened BitView
  import opened Schema
  import opened Layout
  import opened Definitions

  // ------------------------------------------------------------- binary digits

  /** Binary digit `i` of a number, counted from the lowest. */
  function Digit(n: nat, i: nat): (d: nat)
    ensures d < 2
    decreases i
  {
    if i == 0 then n % 2 else Digit(n / 2, i - 1)
  }

  predicate IsShiftedUp(r: uint32, n: uint32, places: nat) {
    forall i :: 0 <= i < 32 ==> Digit(r, i) == if i < places then 0 else Digit(n, i - places)
  }

  predicate IsShiftedDown(r: uint32, n: uint32, places: nat) {
    forall i :: 0 <= i < 32 ==> Digit(r, i) == if i + places < 32 then Digit(n, i + places) else 0
  }

  predicate IsXor(r: uint32, a: uint32, b: uint32) {
    forall i :: 0 <= i < 32 ==> (Digit(r, i) == 1 <==> Digit(a, i) != Digit(b, i))
  }

  lemma {:induction false} DigitsDetermine(a: nat, b: nat, k: nat)
    requires a < Pow2(k) && b < Pow2(k)
    requires forall i :: 0 <= i < k ==> Digit(a, i) == Digit(b, i)
    ensures a == b
  {
    if k > 0 {
      HalfBelow(a, k);
      HalfBelow(b, k);
      assert Digit(a, 0) == Digit(b, 0);
      forall i | 0 <= i < k - 1
        ensures Digit(a / 2, i) == Digit(b / 2, i)
      {
        assert Digit(a, i + 1) == Digit(b, i + 1);
      }
      DigitsDetermine(a / 2, b / 2, k - 1);
    }
  }

  lemma {:induction false} DigitOfXor(a: nat, b: nat, k: nat, i: nat)
    requires i < k
    ensures Digit(XorDigits(a, b, k), i) == 1 <==> Digit(a, i) != Digit(b, i)
    decreases i
  {
    var high := XorDigits(a / 2, b / 2, k - 1);
    XorDigitsStep(a, b, k);
    hide XorDigits;
    LowXor(a, b, high);
    if i > 0 {
      DigitOfXor(a / 2, b / 2, k - 1, i - 1);
    }
  }

  lemma LowXor(a: nat, b: nat, high: nat)
    ensures var x := (a + b) % 2 + 2 * high;
            x / 2 == high && (x % 2 == 1 <==> a % 2 != b % 2)
  {
  }

  lemma {:induction false} DigitAbove(n: nat, k: nat, i: nat)
    requires n < Pow2(k) && k <= i
    ensures Digit(n, i) == 0
    decreases i
  {
    if n == 0 {
      if i > 0 {
        DigitAbove(0, 0, i - 1);
      }
    } else {
      HalfBelow(n, k);
      DigitAbove(n / 2, k - 1, i - 1);
    }
  }

  /** Adding a multiple of 2^k leaves the digits below alone. */
  lemma {:induction false} DigitBelow(n: nat, m: nat, k: nat, i: nat)
    requires i < k
    ensures Digit(n + Pow2(k) * m, i) == Digit(n, i)
    decreases i
  {
    var t := Pow2(k - 1) * m;
    assert Pow2(k) * m == 2 * t;
    assert (n + 2 * t) / 2 == n / 2 + t;
    if i > 0 {
      DigitBelow(n / 2, m, k - 1, i - 1);
    }
  }

  lemma {:induction false} DigitOfProduct(n: nat, k: nat, i: nat)
    ensures Digit(Pow2(k) * n, i) == if i < k then 0 else Digit(n, i - k)
    decreases k
  {
    if k > 0 {
      var t := Pow2(k - 1) * n;
      assert Pow2(k) * n == 2 * t;
      if i > 0 {
        DigitOfProduct(n, k - 1, i - 1);
      }
    }
  }

  lemma ShiftUp(n: uint32)
    ensures IsShiftedUp(32 * n % 0x1_0000_0000, n, 5)
  {
    var (low, high) := (n % 0x800_0000, n / 0x800_0000);
    assert 32 * n % 0x1_0000_0000 == 32 * low;
    hide Digit;
    forall i: nat | i < 32
      ensures Digit(32 * low, i) == if i < 5 then 0 else Digit(n, i - 5)
    {
      DigitTimes32(low, i);
      if i >= 5 {
        LowDigits(n, low, high, i - 5);
      }
    }
  }

  lemma DigitTimes32(n: nat, i: nat)
    ensures Digit(32 * n, i) == if i < 5 then 0 else Digit(n, i - 5)
  {
    assert Pow2(5) == 32;
    DigitOfProduct(n, 5, i);
  }

  lemma LowDigits(n: nat, low: nat, high: nat, i: nat)
    requires n == low + 0x800_0000 * high && i < 27
    ensures Digit(n, i) == Digit(low, i)
  {
    Pow2Is27();
    hide Pow2;
    DigitBelow(low, high, 27, i);
  }

  lemma Pow2Is27()
    ensures Pow2(27) == 0x800_0000
  {
    Pow2Is32();
    assert Pow2(5) == 32;
    Pow2Sum(5, 27);
  }

  lemma ShiftDown(n: uint32)
    ensures IsShiftedDown(n / 4, n, 2)
  {
    Pow2Is32();
    hide Pow2;
    forall i | 0 <= i < 32
      ensures Digit(n / 4, i) == if i + 2 < 32 then Digit(n, i + 2) else 0
    {
      assert Digit(n, i + 2) == Digit(n / 2, i + 1) == Digit(n / 2 / 2, i);
      if i + 2 >= 32 {
        DigitAbove(n, 32, i + 2);
      }
    }
  }

  // ------------------------------------------------------------------ one step

  /**
    A mixing step, position by position: the digits moved up by five, the digits
    moved down by two and the value are added on 32 bits, and every digit of
    the hash is flipped where that sum has a one.
   */
  lemma MixIntDigits(h: uint32, value: uint32, up: uint32, down: uint32, r: uint32)
    requires IsShiftedUp(up, h, 5) && IsShiftedDown(down, h, 2)
    ensures r == MixInt(h, value) <==> IsXor(r, h, (up + down + value) % 0x1_0000_0000)
  {
    hide IsShiftedUp, IsShiftedDown, IsXor, MixInt;
    var sum := (up + down + value) % 0x1_0000_0000;
    ShiftsFixed(h, up, down);
    MixIntSum(h, value, up, down);
    XorIsXor(h, sum);
    if IsXor(r, h, sum) {
      SameXor(r, Xor32(h, sum), h, sum);
    }
  }

  lemma ShiftsFixed(h: uint32, up: uint32, down: uint32)
    requires IsShiftedUp(up, h, 5) && IsShiftedDown(down, h, 2)
    ensures up == 32 * h % 0x1_0000_0000 && down == h / 4
  {
    hide Digit;
    ShiftUp(h);
    ShiftDown(h);
    SameNumber(up, 32 * h % 0x1_0000_0000);
    SameNumber(down, h / 4);
  }

  lemma MixIntSum(h: uint32, value: uint32, up: uint32, down: uint32)
    requires up == 32 * h % 0x1_0000_0000 && down == h / 4
    ensures MixInt(h, value) == Xor32(h, (up + down + value) % 0x1_0000_0000)
  {
    hide Xor32;
    SumWraps(32 * h, h / 4 + value);
  }

  /** The two shifted numbers exist. */
  lemma ShiftsExist(h: uint32)
    ensures exists up: uint32 :: IsShiftedUp(up, h, 5)
    ensures exists down: uint32 :: IsShiftedDown(down, h, 2)
  {
    ShiftUp(h);
    ShiftDown(h);
  }

  lemma SumWraps(a: nat, b: nat)
    ensures (a % 0x1_0000_0000 + b) % 0x1_0000_0000 == (a + b) % 0x1_0000_0000
  {
  }

  lemma SameNumber(a: uint32, b: uint32)
    requires forall i :: 0 <= i < 32 ==> Digit(a, i) == Digit(b, i)
    ensures a == b
  {
    Pow2Is32();
    DigitsDetermine(a, b, 32);
  }

  lemma SameXor(r: uint32, x: uint32, a: uint32, b: uint32)
    requires IsXor(r, a, b) && IsXor(x, a, b)
    ensures r == x
  {
    SameNumber(r, x);
  }

  lemma XorIsXor(a: uint32, b: uint32)
    ensures IsXor(Xor32(a, b), a, b)
  {
    forall i | 0 <= i < 32
      ensures Digit(Xor32(a, b), i) == 1 <==> Digit(a, i) != Digit(b, i)
    {
      DigitOfXor(a, b, 32, i);
    }
  }

  // ---------------------------------------------------------------- the whole ID

  /** One number after the other. */
  function MixAll(h: uint32, numbers: seq<uint32>): uint32 {
    if |numbers| == 0 then h else MixInt(MixAll(h, numbers[..|numbers| - 1]), numbers[|numbers| - 1])
  }

  function Letters(s: string): (r: seq<uint32>)
    ensures |r| == |s|
  {
    seq(|s|, i requires 0 <= i < |s| => if s[i] as int < 256 then s[i] as int else 63)
  }

  function AllLetters(options: seq<string>): seq<uint32> {
    if |options| == 0 then [] else AllLetters(options[..|options| - 1]) + Letters(options[|options| - 1])
  }

  function FieldNumbers(f: Field): seq<uint32> {
    Letters(f.name) + [f.elements % 0x1_0000_0000, f.kind.Index()]
    + if f.kind == Enum then AllLetters(f.options) else []
  }

  function AllFieldNumbers(fields: seq<Field>): seq<uint32> {
    if |fields| == 0 then [] else AllFieldNumbers(fields[..|fields| - 1]) + FieldNumbers(fields[|fields| - 1])
  }

  /** The numbers that make up the ID: the name, the two flags, then every field in layout order. */
  function DefinitionNumbers(name: string, settings: bool, singleInstance: bool, fields: seq<Field>): seq<uint32> {
    Letters(name) + [if settings then 1 else 0, if singleInstance then 1 else 0] + AllFieldNumbers(fields)
  }

  lemma {:induction false} MixAllConcat(h: uint32, a: seq<uint32>, b: seq<uint32>)
    ensures MixAll(h, a + b) == MixAll(MixAll(h, a), b)
    decreases |b|
  {
    if |b| == 0 {
      assert a + b == a;
    } else {
      var front := b[..|b| - 1];
      assert (a + b)[..|a + b| - 1] == a + front;
      assert MixAll(h, a + b) == MixInt(MixAll(h, a + front), b[|b| - 1]);
      hide MixInt;
      MixAllConcat(h, a, front);
    }
  }

  lemma {:induction false} MixStringLetters(h: uint32, s: string)
    ensures MixString(h, s) == MixAll(h, Letters(s))
  {
    hide MixInt;
    if s != "" {
      var front := s[..|s| - 1];
      MixStringLetters(h, front);
      assert Letters(s)[..|s| - 1] == Letters(front);
    }
  }

  /** A string is mixed in piece by piece. */
  lemma MixStringConcat(h: uint32, s: string, t: string)
    ensures MixString(h, s + t) == MixString(MixString(h, s), t)
  {
    hide MixString, MixAll;
    MixStringLetters(h, s + t);
    MixStringLetters(h, s);
    MixStringLetters(MixString(h, s), t);
    assert Letters(s + t) == Letters(s) + Letters(t);
    MixAllConcat(h, Letters(s), Letters(t));
  }

  lemma {:induction false} MixOptionsLetters(h: uint32, options: seq<string>)
    ensures MixOptions(h, options) == MixAll(h, AllLetters(options))
  {
    if |options| > 0 {
      var (front, last) := (options[..|options| - 1], options[|options| - 1]);
      hide MixString, MixAll, Letters;
      MixOptionsLetters(h, front);
      MixAllConcat(h, AllLetters(front), Letters(last));
      MixStringLetters(MixOptions(h, front), last);
    }
  }

  lemma MixTwo(h: uint32, a: uint32, b: uint32)
    ensures MixAll(h, [a, b]) == MixInt(MixInt(h, a), b)
  {
    hide MixInt;
    assert [a, b][..1] == [a] && [a][..0] == [];
    assert MixAll(h, [a]) == MixInt(h, a);
  }

  lemma MixFieldNumbers(h: uint32, f: Field)
    ensures MixField(h, f) == MixAll(h, FieldNumbers(f))
  {
    hide MixString, MixInt, MixAll, MixOptions, Letters, AllLetters;
    MixStringLetters(h, f.name);
    var (name, pair) := (Letters(f.name), [f.elements % 0x1_0000_0000, f.kind.Index()]);
    MixAllConcat(h, name, pair);
    MixTwo(MixAll(h, name), f.elements % 0x1_0000_0000, f.kind.Index());
    if f.kind == Enum {
      MixOptionsLetters(MixAll(h, name + pair), f.options);
      MixAllConcat(h, name + pair, AllLetters(f.options));
    } else {
      assert FieldNumbers(f) == name + pair;
    }
  }

  lemma {:induction false} MixFieldsNumbers(h: uint32, fields: seq<Field>)
    ensures MixFields(h, fields) == MixAll(h, AllFieldNumbers(fields))
  {
    if |fields| > 0 {
      var (front, last) := (fields[..|fields| - 1], fields[|fields| - 1]);
      hide MixField, MixAll, FieldNumbers;
      MixFieldsNumbers(h, front);
      MixAllConcat(h, AllFieldNumbers(front), FieldNumbers(last));
      MixFieldNumbers(MixFields(h, front), last);
    }
  }

  /** The object ID is the fold of those numbers, starting at zero, with its lowest digit cleared. */
  lemma ObjectIDNumbers(name: string, settings: bool, singleInstance: bool, fields: seq<Field>)
    ensures var h := MixAll(0, DefinitionNumbers(name, settings, singleInstance, fields));
            var id := ObjectID(name, settings, singleInstance, fields);
            id == if Digit(h, 0) == 0 then h else h - 1
  {
    hide MixString, MixFields, MixInt, MixAll, Letters, AllFieldNumbers;
    var (a, b) := (if settings then 1 else 0, if singleInstance then 1 else 0);
    MixStringLetters(0, name);
    MixAllConcat(0, Letters(name), [a, b]);
    MixTwo(MixString(0, name), a, b);
    MixFieldsNumbers(MixAll(0, Letters(name) + [a, b]), fields);
    MixAllConcat(0, Letters(name) + [a, b], AllFieldNumbers(fields));
  }

  /** A definition that loads keeps its name and flags, has the sorted fields, and gets that ID. */
  lemma LoadedParts(name: string, settings: bool, singleInstance: bool, raw: seq<FieldDefinition>)
    requires Parsed(raw)
    ensures var r := NewDefinition(name, settings, singleInstance, raw);
            && (r.Ok? <==> Setup(raw).Ok? && Setup(raw).value.Sorted?)
            && (r.Ok? ==>
                  && r.value.name == name && r.value.settings == settings && r.value.singleInstance == singleInstance
                  && !r.value.isMeta && r.value.fields == Setup(raw).value.fields
                  && var h := MixAll(0, DefinitionNumbers(name, settings, singleInstance, r.value.fields));
                     r.value.objectID == if Digit(h, 0) == 0 then h else h - 1)
  {
    hide Setup, ObjectID, MixAll, DefinitionNumbers;
    if Setup(raw).Ok? && Setup(raw).value.Sorted? {
      ObjectIDNumbers(name, settings, singleInstance, Setup(raw).value.fields);
    }
  }

  // --------------------------------------------------------------- an ID as a value

  lemma ZeroXorByte(n: byte, k: nat)
    requires k >= 8
    ensures XorDigits(0, n, k) == n
  {
    assert Pow2(8) == 256;
    Pow2Sum(8, k - 8);
    XorDigitsZero(n, k);
  }

  lemma Mix65()
    ensures MixInt(65, 0) == 2161
  {
    hide XorDigits, Pow2;
    XorNibble(4, 131, false, false, false, true, false, false, false, false, 28);
    XorNibble(0, 8, false, true, false, false, false, false, true, true, 24);
    ZeroXorByte(8, 24);
  }

  lemma Mix2161()
    ensures MixInt(2161, 0) == 71757
  {
    hide XorDigits, Pow2;
    XorNibble(135, 4355, false, false, false, true, true, true, false, false, 28);
    XorNibble(8, 272, false, true, true, true, false, false, true, true, 24);
    XorNibble(0, 17, true, false, false, false, false, false, false, false, 20);
    ZeroXorByte(17, 20);
  }

  lemma MixA()
    ensures MixInt(0, 65) == 65
  {
    hide XorDigits, Pow2;
    ZeroXorByte(65, 32);
  }

  /** One ID as a number: the object named A without fields, neither settings nor single instance. */
  lemma ObjectIDOfA()
    ensures ObjectID("A", false, false, []) == 71756
  {
    hide MixInt;
    MixA();
    Mix65();
    Mix2161();
    var s := "A";
    assert s[..0] == "" && MixString(0, s) == 65;
  }
}
