/**
  The laws of the payload codec: decoding inverts encoding on well-typed data,
  the decoder's outcome is determined by the payload's length and its enum
  bytes, and no two payloads decode to the same values.
 */
module PayloadLaws {
  import opened Bytes
  import opened Outcomes
  import opened Schema
  import opened Layout
  import opened Payload

  // -------------------------------------------------------------- round trip

  predicate InRange(kind: FieldType, n: int) {
    match kind
    case Int8 => 0 <= n < 256
    case UInt8 => 0 <= n < 256
    case Int16 => -0x8000 <= n < 0x8000
    case UInt16 => 0 <= n < 0x1_0000
    case Int32 => -0x8000_0000 <= n < 0x8000_0000
    case UInt32 => 0 <= n < 0x1_0000_0000
    case Float => true
    case Enum => false
  }

  /** A value that the element's conversion accepts and represents. */
  predicate ScalarTyped(f: Field, v: Value) {
    if f.kind == Enum then v.Text? && v.text in f.options && |f.options| <= 256
    else v.Number? && InRange(f.kind, v.trunc)
  }

  /** The value as the decoder returns it: 16-bit integers come back unsigned. */
  function NormalScalar(f: Field, v: Value): Value
    requires ScalarTyped(f, v)
  {
    match f.kind
    case Int8 => U8(v.trunc)
    case UInt8 => U8(v.trunc)
    case Int16 => U16(v.trunc % 0x1_0000)
    case UInt16 => U16(v.trunc)
    case Int32 => I32(v.trunc)
    case UInt32 => U32(v.trunc)
    case Float => F32(v.single)
    case Enum => v
  }

  lemma ScalarRoundTrip(f: Field, v: Value)
    requires ScalarTyped(f, v)
    ensures ScalarBytes(f, v).Ok? && |ScalarBytes(f, v).value| == f.Size()
    ensures ScalarOf(f, ScalarBytes(f, v).value) == Ok(NormalScalar(f, v))
  {
    hide Le16, Le32, FromLe16, FromLe32, OptionIndex;
    if f.kind == Enum {
      var i := OptionIndex(f.options, v.text);
      assert i < |f.options|;
    }
  }

  /** The integer that a decoded element stands for. */
  function IntegerOf(v: Value): int {
    match v
    case U8(n) => n
    case U16(n) => n
    case I32(n) => n
    case U32(n) => n
    case _ => 0
  }

  /**
    A signed 8-bit or 16-bit element comes back as the integer that was sent
    exactly when it is not negative: the decoder reads both as unsigned.
   */
  lemma SignedComesBackIff(f: Field, v: Value)
    requires v.Number?
    requires (f.kind == Int8 && -0x80 <= v.trunc < 0x80) || (f.kind == Int16 && -0x8000 <= v.trunc < 0x8000)
    ensures ScalarBytes(f, v).Ok? && |ScalarBytes(f, v).value| == f.Size()
    ensures var r := ScalarOf(f, ScalarBytes(f, v).value);
            r.Ok? && (IntegerOf(r.value) == v.trunc <==> v.trunc >= 0)
  {
  }

  predicate ItemsTyped(f: Field, items: seq<Value>) {
    forall i :: 0 <= i < |items| ==> ScalarTyped(f, items[i])
  }

  function NormalItems(f: Field, items: seq<Value>): (r: seq<Value>)
    requires ItemsTyped(f, items)
    ensures |r| == |items|
  {
    seq(|items|, i requires 0 <= i < |items| => NormalScalar(f, items[i]))
  }

  lemma MulStep(a: int, n: int)
    ensures a * n == a * (n - 1) + a
  {
  }

  lemma ScalarAt(f: Field, v: Value, pre: seq<byte>, post: seq<byte>)
    requires ScalarTyped(f, v)
    ensures ScalarBytes(f, v).Ok? && |ScalarBytes(f, v).value| == f.Size()
    ensures var b := ScalarBytes(f, v).value;
            ReadScalar(f, pre + b + post, |pre|) == Ok(Cursor(NormalScalar(f, v), |pre| + |b|))
  {
    hide ScalarBytes, ScalarOf, Field.Size, ScalarTyped, NormalScalar;
    ScalarRoundTrip(f, v);
    var b := ScalarBytes(f, v).value;
    assert (pre + b + post)[|pre|..|pre| + f.Size()] == b;
  }

  lemma {:induction false} ItemsEncode(f: Field, items: seq<Value>)
    requires ItemsTyped(f, items)
    ensures ItemsBytes(f, items).Ok? && |ItemsBytes(f, items).value| == f.Size() * |items|
  {
    hide ScalarBytes, Field.Size, ScalarTyped;
    if |items| > 0 {
      ItemsEncode(f, items[..|items| - 1]);
      ScalarRoundTrip(f, items[|items| - 1]);
      MulStep(f.Size(), |items|);
    }
  }

  lemma {:induction false} ItemsRoundTrip(f: Field, items: seq<Value>, pre: seq<byte>, post: seq<byte>)
    requires ItemsTyped(f, items)
    ensures ItemsBytes(f, items).Ok?
    ensures var b := ItemsBytes(f, items).value;
            ReadItems(f, pre + b + post, |pre|, |items|) == Ok(Cursor(NormalItems(f, items), |pre| + |b|))
  {
    hide ScalarBytes, ReadScalar, Field.Size, ScalarTyped, NormalScalar;
    if |items| > 0 {
      var (front, last) := (items[..|items| - 1], items[|items| - 1]);
      ItemsEncode(f, front);
      ScalarRoundTrip(f, last);
      var (b, c) := (ItemsBytes(f, front).value, ScalarBytes(f, last).value);
      ScalarAt(f, last, pre + b, post);
      ItemsRoundTrip(f, front, pre, c + post);
      assert pre + (b + c) + post == pre + b + (c + post) == pre + b + c + post;
      assert NormalItems(f, items) == NormalItems(f, front) + [NormalScalar(f, last)];
    }
  }

  /** A value of the field's shape: scalar, array with every element, or object with every name. */
  predicate FieldTyped(f: Field, v: Value) {
    if f.elements > 1 && f.elementNames == [] then v.Array? && |v.items| == f.elements && ItemsTyped(f, v.items)
    else if f.elements > 1 then
      v.Object? && forall n :: n in f.elementNames ==> n in v.entries && ScalarTyped(f, v.entries[n])
    else ScalarTyped(f, v)
  }

  function NormalField(f: Field, v: Value): Value
    requires FieldTyped(f, v)
  {
    if f.elements > 1 && f.elementNames == [] then Array(NormalItems(f, v.items))
    else if f.elements > 1 then Object(map n | n in f.elementNames :: NormalScalar(f, v.entries[n]))
    else NormalScalar(f, v)
  }

  lemma {:induction false} NamedEntries(f: Field, names: seq<string>, entries: map<string, Value>, n: nat)
    requires n <= |names| && forall s :: s in names ==> s in entries && ScalarTyped(f, entries[s])
    ensures ItemsTyped(f, Entries(entries, names)[..n])
    ensures Named(names, NormalItems(f, Entries(entries, names)[..n]))
         == map s | s in names[..n] :: NormalScalar(f, entries[s])
    decreases n
  {
    hide ScalarTyped, NormalScalar;
    var items := Entries(entries, names);
    if n > 0 {
      NamedEntries(f, names, entries, n - 1);
      assert items[..n][..n - 1] == items[..n - 1];
      var normal := NormalItems(f, items[..n]);
      assert normal[..n - 1] == NormalItems(f, items[..n - 1]);
      assert names[..n] == names[..n - 1] + [names[n - 1]];
    }
  }

  lemma FieldRoundTrip(f: Field, v: Value, pre: seq<byte>, post: seq<byte>)
    requires WellFormed(f) && FieldTyped(f, v)
    ensures FieldBytes(f, v).Ok? && |FieldBytes(f, v).value| == f.Size() * f.elements
    ensures var b := FieldBytes(f, v).value;
            ReadField(f, pre + b + post, |pre|) == Ok(Cursor(NormalField(f, v), |pre| + |b|))
  {
    hide ScalarBytes, ItemsBytes, ReadItems, ReadScalar, Field.Size, ScalarTyped, NormalScalar;
    if f.elements > 1 && f.elementNames == [] {
      ItemsEncode(f, v.items);
      ItemsRoundTrip(f, v.items, pre, post);
    } else if f.elements > 1 {
      var items := Entries(v.entries, f.elementNames);
      NamedEntries(f, f.elementNames, v.entries, f.elements);
      assert items[..f.elements] == items && f.elementNames[..f.elements] == f.elementNames;
      ItemsEncode(f, items);
      ItemsRoundTrip(f, items, pre, post);
    } else {
      ScalarAt(f, v, pre, post);
    }
  }

  predicate DistinctFieldNames(fields: seq<Field>) {
    forall i, j :: 0 <= i < j < |fields| ==> fields[i].name != fields[j].name
  }

  predicate MapTyped(fields: seq<Field>, data: map<string, Value>) {
    forall i :: 0 <= i < |fields| ==> FieldTyped(fields[i], Entry(data, fields[i].name))
  }

  /** `m` holds every field's value, as the decoder returns it, and nothing else. */
  ghost predicate IsNormalMap(fields: seq<Field>, data: map<string, Value>, m: map<string, Value>)
    requires MapTyped(fields, data)
  {
    && (forall i :: 0 <= i < |fields| ==>
          fields[i].name in m && m[fields[i].name] == NormalField(fields[i], Entry(data, fields[i].name)))
    && (forall n :: n in m ==> exists i :: 0 <= i < |fields| && fields[i].name == n)
  }

  lemma {:induction false} FieldsEncode(fields: seq<Field>, data: map<string, Value>)
    requires AllWellFormed(fields) && MapTyped(fields, data)
    ensures MapBytes(fields, data).Ok? && |MapBytes(fields, data).value| == ByteLength(fields)
  {
    hide FieldBytes, WellFormed, FieldTyped;
    if |fields| > 0 {
      var last := fields[|fields| - 1];
      FieldsEncode(fields[..|fields| - 1], data);
      FieldRoundTrip(last, Entry(data, last.name), [], []);
    }
  }

  /** One more field behind those already read. */
  lemma LastFieldRoundTrip(front: seq<Field>, last: Field, data: map<string, Value>, a: seq<byte>, post: seq<byte>)
    requires AllWellFormed(front + [last]) && AllWellFormed(front) && WellFormed(last)
    requires var v := Entry(data, last.name);
             FieldTyped(last, v) && ReadFields(front, a + (FieldBytesOf(last, v) + post)).Ok?
             && ReadFields(front, a + (FieldBytesOf(last, v) + post)).value.pos == |a|
    ensures var v := Entry(data, last.name);
            var m := ReadFields(front, a + (FieldBytesOf(last, v) + post)).value.value;
            ReadFields(front + [last], a + FieldBytesOf(last, v) + post)
            == Ok(Cursor(m[last.name := NormalField(last, v)], |a| + |FieldBytesOf(last, v)|))
  {
    hide FieldBytes, ReadField, WellFormed, FieldTyped, NormalField;
    var v := Entry(data, last.name);
    FieldRoundTrip(last, v, a, post);
    assert a + FieldBytesOf(last, v) + post == a + (FieldBytesOf(last, v) + post);
    assert (front + [last])[..|front|] == front;
  }

  function FieldBytesOf(f: Field, v: Value): seq<byte> {
    match FieldBytes(f, v)
    case Ok(b) => b
    case Error => []
    case Panic => []
  }

  lemma {:induction false} FieldsRoundTrip(fields: seq<Field>, data: map<string, Value>, post: seq<byte>)
    requires AllWellFormed(fields) && DistinctFieldNames(fields) && MapTyped(fields, data)
    ensures MapBytes(fields, data).Ok?
    ensures var r := ReadFields(fields, MapBytes(fields, data).value + post);
            && r.Ok? && r.value.pos == |MapBytes(fields, data).value|
            && IsNormalMap(fields, data, r.value.value)
  {
    hide FieldBytes, ReadField, WellFormed, FieldTyped, NormalField, IsNormalMap;
    FieldsEncode(fields, data);
    if |fields| == 0 {
      EmptyIsNormal(data);
    } else {
      var (front, last) := (fields[..|fields| - 1], fields[|fields| - 1]);
      var v := Entry(data, last.name);
      assert fields == front + [last];
      FieldsEncode(front, data);
      FieldRoundTrip(last, v, [], []);
      var (a, b) := (MapBytes(front, data).value, FieldBytesOf(last, v));
      FieldsRoundTrip(front, data, b + post);
      LastFieldRoundTrip(front, last, data, a, post);
      NormalMapGrows(front, last, data, ReadFields(front, a + (b + post)).value.value);
    }
  }

  lemma EmptyIsNormal(data: map<string, Value>)
    ensures IsNormalMap([], data, map[])
  {
  }

  lemma NormalMapGrows(front: seq<Field>, last: Field, data: map<string, Value>, m: map<string, Value>)
    requires MapTyped(front + [last], data) && DistinctFieldNames(front + [last])
    requires MapTyped(front, data) && IsNormalMap(front, data, m)
    requires FieldTyped(last, Entry(data, last.name))
    ensures IsNormalMap(front + [last], data, m[last.name := NormalField(last, Entry(data, last.name))])
  {
    hide FieldTyped, NormalField, Entry;
    var (fields, m') := (front + [last], m[last.name := NormalField(last, Entry(data, last.name))]);
    forall i | 0 <= i < |fields|
      ensures fields[i].name in m' && m'[fields[i].name] == NormalField(fields[i], Entry(data, fields[i].name))
    {
      if i < |front| {
        assert fields[i] == front[i] && fields[|front|] == last;
      }
    }
    forall n | n in m'
      ensures exists i :: 0 <= i < |fields| && fields[i].name == n
    {
      if n == last.name {
        assert fields[|front|].name == n;
      } else {
        var i :| 0 <= i < |front| && front[i].name == n;
        assert fields[i].name == n;
      }
    }
  }

  /**
    Decoding the encoding of well-typed data gives back every field's value, in
    all three shapes; the payload has the schema's length, and bytes behind it
    do not matter.
   */
  lemma PayloadRoundTrip(fields: seq<Field>, data: map<string, Value>, post: seq<byte>)
    requires AllWellFormed(fields) && DistinctFieldNames(fields) && MapTyped(fields, data)
    ensures MapBytes(fields, data).Ok? && |MapBytes(fields, data).value| == ByteLength(fields)
    ensures var r := ReadMap(fields, MapBytes(fields, data).value + post);
            r.Ok? && IsNormalMap(fields, data, r.value)
  {
    FieldsEncode(fields, data);
    FieldsRoundTrip(fields, data, post);
  }

  // --------------------------------------------------------- decoder exactness

  /** Every one of the `n` enum bytes at `pos` that is present names an option. */
  predicate EnumsAt(f: Field, data: seq<byte>, pos: nat, n: nat) {
    f.kind == Enum ==> forall k :: pos <= k < pos + n && k < |data| ==> data[k] < |f.options|
  }

  /** Which of the three outcomes reading up to `end` has, when present enum bytes are fine or not. */
  predicate Decided<T>(r: Outcome<Cursor<T>>, enums: bool, end: int, length: nat) {
    match r
    case Panic => !enums
    case Error => enums && end > length
    case Ok(c) => enums && end <= length && c.pos == end
  }

  lemma ScalarDecided(f: Field, data: seq<byte>, pos: nat)
    requires pos <= |data|
    ensures Decided(ReadScalar(f, data, pos), EnumsAt(f, data, pos, 1), pos + f.Size(), |data|)
  {
    hide FromLe16, FromLe32;
    if f.kind == Enum && pos < |data| {
      assert data[pos..pos + 1][0] == data[pos];
    }
  }

  lemma {:induction false} ItemsDecided(f: Field, data: seq<byte>, pos: nat, n: nat)
    requires pos <= |data|
    ensures Decided(ReadItems(f, data, pos, n), EnumsAt(f, data, pos, n), pos + f.Size() * n, |data|)
    decreases n
  {
    if n > 0 {
      hide ReadScalar, Field.Size, EnumsAt;
      ItemsDecided(f, data, pos, n - 1);
      MulStep(f.Size(), n);
      SizeValues(f);
      var end := pos + f.Size() * (n - 1);
      EnumsSplit(f, data, pos, n);
      if end <= |data| {
        ScalarDecided(f, data, end);
      }
    }
  }

  lemma EnumsSplit(f: Field, data: seq<byte>, pos: nat, n: nat)
    requires n > 0
    ensures var end := pos + f.Size() * (n - 1);
            EnumsAt(f, data, pos, n) <==> EnumsAt(f, data, pos, n - 1) && EnumsAt(f, data, end, 1)
  {
    if f.kind == Enum {
      assert f.Size() == 1;
    }
  }

  lemma FieldDecided(f: Field, data: seq<byte>, pos: nat)
    requires pos <= |data| && WellFormed(f)
    ensures Decided(ReadField(f, data, pos), EnumsAt(f, data, pos, f.elements), pos + f.Size() * f.elements, |data|)
  {
    hide ReadItems, ReadScalar, EnumsAt, Field.Size;
    if f.elements > 1 {
      ItemsDecided(f, data, pos, f.elements);
    } else {
      ScalarDecided(f, data, pos);
    }
  }

  /** Every enum byte of the payload that is present names an option of its field. */
  predicate EnumsInRange(fields: seq<Field>, data: seq<byte>)
    requires AllWellFormed(fields)
  {
    |fields| > 0 ==>
      var (front, last) := (fields[..|fields| - 1], fields[|fields| - 1]);
      EnumsInRange(front, data) && (LengthNonNegative(front); EnumsAt(last, data, ByteLength(front), last.elements))
  }

  lemma {:induction false} LengthNonNegative(fields: seq<Field>)
    requires AllWellFormed(fields)
    ensures ByteLength(fields) >= 0
  {
    if |fields| > 0 {
      hide Field.Size;
      LengthNonNegative(fields[..|fields| - 1]);
      ProductNonNegative(fields[|fields| - 1].Size(), fields[|fields| - 1].elements);
    }
  }

  lemma ProductNonNegative(a: int, b: int)
    requires a >= 0 && b >= 0
    ensures a * b >= 0
  {
  }

  lemma {:induction false} FieldsDecided(fields: seq<Field>, data: seq<byte>)
    requires AllWellFormed(fields)
    ensures Decided(ReadFields(fields, data), EnumsInRange(fields, data), ByteLength(fields), |data|)
  {
    if |fields| > 0 {
      hide ReadField, EnumsAt, Field.Size;
      var (front, last) := (fields[..|fields| - 1], fields[|fields| - 1]);
      FieldsDecided(front, data);
      LengthNonNegative(front);
      ProductNonNegative(last.Size(), last.elements);
      var end := ByteLength(front);
      if end <= |data| {
        FieldDecided(last, data, end);
      } else {
        EnumsBeyond(last, data, end);
      }
    }
  }

  lemma EnumsBeyond(f: Field, data: seq<byte>, pos: nat)
    requires pos >= |data|
    ensures EnumsAt(f, data, pos, if f.elements >= 0 then f.elements else 0)
  {
  }

  /**
    The decoder's outcome on every payload: it panics exactly when a present
    enum byte is out of range, fails exactly when otherwise the payload is
    shorter than the schema, and succeeds in all other cases, having read
    exactly the schema's length.
   */
  lemma DecoderExact(fields: seq<Field>, data: seq<byte>)
    requires AllWellFormed(fields)
    ensures ReadMap(fields, data).Panic? <==> !EnumsInRange(fields, data)
    ensures ReadMap(fields, data).Error? <==> EnumsInRange(fields, data) && |data| < ByteLength(fields)
    ensures ReadMap(fields, data).Ok? <==> EnumsInRange(fields, data) && |data| >= ByteLength(fields)
    ensures ReadMap(fields, data).Ok? ==> ReadFields(fields, data).value.pos == ByteLength(fields)
  {
    hide ReadFields, EnumsInRange;
    FieldsDecided(fields, data);
  }

  // -------------------------------------------------------------- injectivity

  predicate DistinctStrings(s: seq<string>) {
    forall i, j :: 0 <= i < j < |s| ==> s[i] != s[j]
  }

  predicate Unambiguous(f: Field) {
    WellFormed(f) && DistinctStrings(f.elementNames) && (f.kind == Enum ==> DistinctStrings(f.options))
  }

  lemma ScalarInjective(f: Field, a: seq<byte>, b: seq<byte>)
    requires Unambiguous(f) && |a| == |b| == f.Size()
    requires ScalarOf(f, a).Ok? && ScalarOf(f, a) == ScalarOf(f, b)
    ensures a == b
  {
    hide FromLe16, FromLe32, Le16, Le32;
    if f.Size() == 2 {
      Le16OfFromLe16(a);
      Le16OfFromLe16(b);
    } else if f.Size() == 4 {
      Le32OfFromLe32(a);
      Le32OfFromLe32(b);
    }
  }

  lemma LastItem(f: Field, data: seq<byte>, pos: nat, n: nat)
    requires n > 0 && pos <= |data| && ReadItems(f, data, pos, n).Ok?
    ensures ReadItems(f, data, pos, n - 1).Ok?
    ensures var end := pos + f.Size() * (n - 1);
            && f.Size() * (n - 1) >= 0 && end + f.Size() <= |data| && end + f.Size() == pos + f.Size() * n
            && var (items, v) := (ReadItems(f, data, pos, n).value.value, ScalarOf(f, data[end..end + f.Size()]));
               v.Ok? && items == ReadItems(f, data, pos, n - 1).value.value + [v.value]
  {
    hide Field.Size, ScalarOf, EnumsAt;
    ItemsDecided(f, data, pos, n - 1);
    ItemsDecided(f, data, pos, n);
    ProductNonNegative(f.Size(), n - 1);
    MulStep(f.Size(), n);
  }

  lemma {:induction false} ItemsInjective(f: Field, a: seq<byte>, b: seq<byte>, pos: nat, n: nat)
    requires Unambiguous(f) && pos <= |a| && pos <= |b|
    requires ReadItems(f, a, pos, n).Ok? && ReadItems(f, b, pos, n).Ok?
    requires ReadItems(f, a, pos, n).value.value == ReadItems(f, b, pos, n).value.value
    ensures pos + f.Size() * n <= |a| && pos + f.Size() * n <= |b|
    ensures f.Size() * n >= 0 && a[pos..pos + f.Size() * n] == b[pos..pos + f.Size() * n]
    decreases n
  {
    hide Field.Size, ScalarOf, Unambiguous, ReadItems;
    if n == 0 {
      assert f.Size() * 0 == 0;
    } else {
      LastItem(f, a, pos, n);
      LastItem(f, b, pos, n);
      var (x, y) := (ReadItems(f, a, pos, n).value.value, ReadItems(f, b, pos, n).value.value);
      assert x[..n - 1] == ReadItems(f, a, pos, n - 1).value.value;
      assert y[..n - 1] == ReadItems(f, b, pos, n - 1).value.value;
      assert x[n - 1] == y[n - 1];
      ItemsInjective(f, a, b, pos, n - 1);
      var end := pos + f.Size() * (n - 1);
      ScalarInjective(f, a[end..end + f.Size()], b[end..end + f.Size()]);
      SlicesJoin(a, b, pos, end, end + f.Size());
    }
  }

  lemma SlicesJoin(a: seq<byte>, b: seq<byte>, i: nat, j: nat, k: nat)
    requires i <= j <= k <= |a| && k <= |b| && a[i..j] == b[i..j] && a[j..k] == b[j..k]
    ensures a[i..k] == b[i..k]
  {
    assert a[i..k] == a[i..j] + a[j..k];
    assert b[i..k] == b[i..j] + b[j..k];
  }

  lemma {:induction false} NamedInjective(names: seq<string>, x: seq<Value>, y: seq<Value>)
    requires DistinctStrings(names) && |x| == |y| <= |names| && Named(names, x) == Named(names, y)
    ensures x == y
  {
    forall i: nat | i < |x|
      ensures x[i] == y[i]
    {
      NamedAt(names, x, i);
      NamedAt(names, y, i);
    }
  }

  lemma {:induction false} NamedAt(names: seq<string>, items: seq<Value>, i: nat)
    requires DistinctStrings(names) && i < |items| <= |names|
    ensures names[i] in Named(names, items) && Named(names, items)[names[i]] == items[i]
    decreases |items|
  {
    if i < |items| - 1 {
      NamedAt(names, items[..|items| - 1], i);
    }
  }

  lemma FieldInjective(f: Field, a: seq<byte>, b: seq<byte>, pos: nat)
    requires Unambiguous(f) && pos <= |a| && pos <= |b|
    requires ReadField(f, a, pos).Ok? && ReadField(f, a, pos) == ReadField(f, b, pos)
    ensures pos + f.Size() * f.elements <= |a| && pos + f.Size() * f.elements <= |b|
    ensures f.Size() * f.elements >= 0
    ensures a[pos..pos + f.Size() * f.elements] == b[pos..pos + f.Size() * f.elements]
  {
    hide ReadItems, ScalarOf, Field.Size;
    ProductNonNegative(f.Size(), f.elements);
    FieldDecided(f, a, pos);
    FieldDecided(f, b, pos);
    if f.elements > 1 {
      var (x, y) := (ReadItems(f, a, pos, f.elements), ReadItems(f, b, pos, f.elements));
      if f.elementNames != [] {
        NamedInjective(f.elementNames, x.value.value, y.value.value);
      }
      ItemsInjective(f, a, b, pos, f.elements);
    } else {
      ScalarInjective(f, a[pos..pos + f.Size()], b[pos..pos + f.Size()]);
    }
  }

  lemma {:induction false} DecodedNames(fields: seq<Field>, data: seq<byte>, name: string)
    requires AllWellFormed(fields) && ReadFields(fields, data).Ok?
    requires name in ReadFields(fields, data).value.value
    ensures exists i :: 0 <= i < |fields| && fields[i].name == name
  {
    hide ReadField;
    var (front, last) := (fields[..|fields| - 1], fields[|fields| - 1]);
    if name == last.name {
      assert fields[|fields| - 1].name == name;
    } else {
      DecodedNames(front, data, name);
      var i :| 0 <= i < |front| && front[i].name == name;
      assert fields[i].name == name;
    }
  }

  predicate AllUnambiguous(fields: seq<Field>) {
    (forall i :: 0 <= i < |fields| ==> Unambiguous(fields[i])) && DistinctFieldNames(fields)
  }

  lemma UpdateInjective(m: map<string, Value>, n: map<string, Value>, name: string, v: Value, w: Value)
    requires name !in m && name !in n && m[name := v] == n[name := w]
    ensures m == n && v == w
  {
    assert m[name := v][name] == v && n[name := w][name] == w;
    assert m == m[name := v] - {name};
    assert n == n[name := w] - {name};
  }

  lemma {:induction false} FieldsInjective(fields: seq<Field>, a: seq<byte>, b: seq<byte>)
    requires AllWellFormed(fields) && AllUnambiguous(fields)
    requires ReadFields(fields, a).Ok? && ReadFields(fields, b).Ok?
    requires ReadFields(fields, a).value.value == ReadFields(fields, b).value.value
    ensures 0 <= ByteLength(fields) <= |a| && ByteLength(fields) <= |b|
    ensures a[..ByteLength(fields)] == b[..ByteLength(fields)]
  {
    hide ReadField, Unambiguous, WellFormed, EnumsInRange;
    FieldsDecided(fields, a);
    FieldsDecided(fields, b);
    LengthNonNegative(fields);
    if |fields| > 0 {
      var (front, last) := (fields[..|fields| - 1], fields[|fields| - 1]);
      var (c, d) := (ReadFields(front, a).value, ReadFields(front, b).value);
      FieldsDecided(front, a);
      FieldsDecided(front, b);
      LengthNonNegative(front);
      LastIsNew(fields, a);
      LastIsNew(fields, b);
      var (v, w) := (ReadField(last, a, c.pos).value, ReadField(last, b, d.pos).value);
      UpdateInjective(c.value, d.value, last.name, v.value, w.value);
      FieldsInjective(front, a, b);
      var end := ByteLength(front);
      FieldDecided(last, a, end);
      FieldDecided(last, b, end);
      FieldInjective(last, a, b, end);
      SlicesJoin(a, b, 0, end, ByteLength(fields));
    }
  }

  lemma LastIsNew(fields: seq<Field>, data: seq<byte>)
    requires AllWellFormed(fields) && DistinctFieldNames(fields) && |fields| > 0
    requires ReadFields(fields[..|fields| - 1], data).Ok?
    ensures fields[|fields| - 1].name !in ReadFields(fields[..|fields| - 1], data).value.value
  {
    hide ReadFields;
    var (front, last) := (fields[..|fields| - 1], fields[|fields| - 1]);
    if last.name in ReadFields(front, data).value.value {
      DecodedNames(front, data, last.name);
    }
  }

  /** No two payloads of the schema's length decode to the same values. */
  lemma DecoderInjective(fields: seq<Field>, a: seq<byte>, b: seq<byte>)
    requires AllWellFormed(fields) && AllUnambiguous(fields)
    requires |a| == |b| == ByteLength(fields)
    requires ReadMap(fields, a).Ok? && ReadMap(fields, a) == ReadMap(fields, b)
    ensures a == b
  {
    hide ReadFields, AllUnambiguous;
    FieldsInjective(fields, a, b);
    assert a[..|a|] == a && b[..|b|] == b;
  }

  // ------------------------------------------------------- skipped elements

  /** An element whose dynamic type the conversion accepts; any other is skipped without an error. */
  predicate Convertible(f: Field, v: Value) {
    if f.kind == Enum then v.Text? else v.Number?
  }

  function Convertibles(f: Field, items: seq<Value>): nat {
    if |items| == 0 then 0
    else Convertibles(f, items[..|items| - 1]) + if Convertible(f, items[|items| - 1]) then 1 else 0
  }

  lemma ScalarLength(f: Field, v: Value)
    requires ScalarBytes(f, v).Ok?
    ensures |ScalarBytes(f, v).value| == if Convertible(f, v) then f.Size() else 0
  {
    hide Le16, Le32;
  }

  /** What an accepted list of elements occupies: the skipped ones leave no trace. */
  lemma {:induction false} ItemsLength(f: Field, items: seq<Value>)
    requires ItemsBytes(f, items).Ok?
    ensures |ItemsBytes(f, items).value| == f.Size() * Convertibles(f, items)
  {
    hide ScalarBytes, Convertible, Field.Size;
    if |items| > 0 {
      var (front, last) := (items[..|items| - 1], items[|items| - 1]);
      ItemsLength(f, front);
      ScalarLength(f, last);
      MulStep(f.Size(), Convertibles(f, front) + 1);
    }
  }

  /** The elements of a value, as the encoder goes through them. */
  function Elements(f: Field, v: Value): seq<Value>
    requires FieldBytes(f, v).Ok?
  {
    if f.elements > 1 && f.elementNames == [] then v.items
    else if f.elements > 1 then Entries(v.entries, f.elementNames)
    else [v]
  }

  /**
    An accepted field occupies the length that the packet header announces for
    it exactly when it supplies as many convertible elements as the schema has.
   */
  lemma FieldLengthExact(f: Field, v: Value)
    requires WellFormed(f) && FieldBytes(f, v).Ok?
    ensures |FieldBytes(f, v).value| == f.Size() * f.elements
       <==> Convertibles(f, Elements(f, v)) == f.elements
  {
    if f.elements > 1 {
      hide ItemsBytes, ScalarBytes, Field.Size;
      ItemsLength(f, Elements(f, v));
    } else {
      ScalarLength(f, v);
      assert [v][..0] == [];
    }
    SizeValues(f);
    hide *;
    ProductEqual(f.Size(), Convertibles(f, Elements(f, v)), f.elements);
  }

  lemma ProductEqual(a: int, m: int, n: int)
    requires a > 0
    ensures a * m == a * n <==> m == n
  {
    if m < n {
      assert a * n == a * m + a * (n - m);
    } else if m > n {
      assert a * m == a * n + a * (m - n);
    }
  }

  /** A value of no dynamic type at all, as for a field missing in the data, is accepted and leaves no byte. */
  lemma MissingValueIsSkipped(f: Field)
    requires f.elements == 1
    ensures FieldBytes(f, Null) == Ok([]) && |FieldBytes(f, Null).value| != f.Size() * f.elements
  {
  }
}
