/**
  The schema-driven payload codec (uavtalk/maptouavtalk.go,
  uavtalk/uavtalktomap.go): typed values to bytes and back, field by field.

  A JSON number reaches the encoder as a float64; the encoder takes two views
  of it, its integer part and its nearest float32, and `Number` holds exactly
  these.  The decoder produces Go's sized integers instead.
 */
module Payload {
  import opened Bytes
  import opened Outcomes
  import opened Schema
  import opened Layout

  datatype Value =
    | Null
    | Number(trunc: int, single: uint32)
    | Text(text: string)
    | Array(items: seq<Value>)
    | Object(entries: map<string, Value>)
    | U8(u8: byte)
    | U16(u16: nat)
    | I32(i32: int)
    | U32(u32: uint32)
    | F32(bits: uint32)

  // ---------------------------------------------------------------- encoding

  /** The position of the first option equal to the string, or the number of options. */
  function OptionIndex(options: seq<string>, option: string): (i: nat)
    ensures i <= |options|
    ensures i < |options| ==> options[i] == option
    ensures forall k :: 0 <= k < i ==> options[k] != option
  {
    if |options| == 0 || options[0] == option then 0 else 1 + OptionIndex(options[1..], option)
  }

  /** The bytes of a number converted to the field's type; a conversion out of range wraps. */
  function NumberBytes(kind: FieldType, trunc: int, single: uint32): seq<byte>
    requires kind != Enum
  {
    match kind
    case Int8 => [trunc % 256]
    case UInt8 => [trunc % 256]
    case Int16 => Le16(trunc % 0x1_0000)
    case UInt16 => Le16(trunc % 0x1_0000)
    case Int32 => Le32(trunc % 0x1_0000_0000)
    case UInt32 => Le32(trunc % 0x1_0000_0000)
    case Float => Le32(single)
  }

  /**
    One element.  A value of another dynamic type makes the conversion panic;
    the panic is recovered, and the element is skipped without an error.
   */
  function ScalarBytes(f: Field, v: Value): Outcome<seq<byte>> {
    if f.kind == Enum then
      if v.Text? then
        var i := OptionIndex(f.options, v.text);
        if i < |f.options| then Ok([i % 256]) else Error
      else Ok([])
    else if v.Number? then Ok(NumberBytes(f.kind, v.trunc, v.single))
    else Ok([])
  }

  function Append(a: Outcome<seq<byte>>, b: Outcome<seq<byte>>): Outcome<seq<byte>> {
    if a.Ok? && b.Ok? then Ok(a.value + b.value) else Error
  }

  function ItemsBytes(f: Field, items: seq<Value>): Outcome<seq<byte>> {
    if |items| == 0 then Ok([])
    else Append(ItemsBytes(f, items[..|items| - 1]), ScalarBytes(f, items[|items| - 1]))
  }

  function Entry(entries: map<string, Value>, name: string): Value {
    if name in entries then entries[name] else Null
  }

  function Entries(entries: map<string, Value>, names: seq<string>): (items: seq<Value>)
    ensures |items| == |names|
  {
    seq(|names|, i requires 0 <= i < |names| => Entry(entries, names[i]))
  }

  function FieldBytes(f: Field, v: Value): Outcome<seq<byte>> {
    if f.elements > 1 && f.elementNames == [] then
      if v.Array? then ItemsBytes(f, v.items) else Error
    else if f.elements > 1 then
      if v.Object? then ItemsBytes(f, Entries(v.entries, f.elementNames)) else Error
    else ScalarBytes(f, v)
  }

  function MapBytes(fields: seq<Field>, data: map<string, Value>): Outcome<seq<byte>> {
    if |fields| == 0 then Ok([])
    else
      var last := fields[|fields| - 1];
      Append(MapBytes(fields[..|fields| - 1], data), FieldBytes(last, Entry(data, last.name)))
  }

  /** The buffer that an encoding run appends to. */
  class Buffer {
    var bytes: seq<byte>

    constructor ()
      ensures bytes == []
    {
      bytes := [];
    }
  }

  method ValueForEnumString(f: Field, option: string) returns (r: Outcome<byte>)
    ensures var i := OptionIndex(f.options, option);
            r == if i < |f.options| then Ok(i % 256) else Error
  {
    for i := 0 to |f.options|
      invariant forall k :: 0 <= k < i ==> f.options[k] != option
    {
      if f.options[i] == option {
        return Ok(i % 256);
      }
    }
    return Error;
  }

  method WriteToUAVTalk(f: Field, writer: Buffer, v: Value) returns (ok: bool)
    modifies writer
    ensures ok <==> ScalarBytes(f, v).Ok?
    ensures ok ==> writer.bytes == old(writer.bytes) + ScalarBytes(f, v).value
  {
    if f.kind == Enum {
      if v.Text? {
        var r := ValueForEnumString(f, v.text);
        if !r.Ok? {
          return false;
        }
        writer.bytes := writer.bytes + [r.value];
      }
    } else if v.Number? {
      writer.bytes := writer.bytes + NumberBytes(f.kind, v.trunc, v.single);
    }
    return true;
  }

  lemma {:induction false} PrefixFails(f: Field, items: seq<Value>, n: nat)
    requires n <= |items| && !ItemsBytes(f, items[..n]).Ok?
    ensures !ItemsBytes(f, items).Ok?
    decreases |items|
  {
    if n < |items| {
      assert items[..|items| - 1][..n] == items[..n];
      PrefixFails(f, items[..|items| - 1], n);
    } else {
      assert items[..n] == items;
    }
  }

  method WriteItems(f: Field, writer: Buffer, items: seq<Value>) returns (ok: bool)
    modifies writer
    ensures ok <==> ItemsBytes(f, items).Ok?
    ensures ok ==> writer.bytes == old(writer.bytes) + ItemsBytes(f, items).value
  {
    hide ScalarBytes;
    for i := 0 to |items|
      invariant ItemsBytes(f, items[..i]).Ok?
      invariant writer.bytes == old(writer.bytes) + ItemsBytes(f, items[..i]).value
    {
      assert items[..i + 1][..i] == items[..i];
      ok := WriteToUAVTalk(f, writer, items[i]);
      if !ok {
        PrefixFails(f, items, i + 1);
        return;
      }
    }
    assert items[..|items|] == items;
    return true;
  }

  method InterfaceToUAVTalk(f: Field, writer: Buffer, v: Value) returns (ok: bool)
    modifies writer
    ensures ok <==> FieldBytes(f, v).Ok?
    ensures ok ==> writer.bytes == old(writer.bytes) + FieldBytes(f, v).value
  {
    hide ScalarBytes, ItemsBytes;
    if f.elements > 1 && f.elementNames == [] {
      if !v.Array? {
        return false;
      }
      ok := WriteItems(f, writer, v.items);
    } else if f.elements > 1 {
      if !v.Object? {
        return false;
      }
      ok := WriteItems(f, writer, Entries(v.entries, f.elementNames));
    } else {
      ok := WriteToUAVTalk(f, writer, v);
    }
  }

  lemma {:induction false} PrefixOfFieldsFails(fields: seq<Field>, data: map<string, Value>, n: nat)
    requires n <= |fields| && !MapBytes(fields[..n], data).Ok?
    ensures !MapBytes(fields, data).Ok?
    decreases |fields|
  {
    if n < |fields| {
      assert fields[..|fields| - 1][..n] == fields[..n];
      PrefixOfFieldsFails(fields[..|fields| - 1], data, n);
    } else {
      assert fields[..n] == fields;
    }
  }

  method MapToUAVTalk(fields: seq<Field>, data: map<string, Value>) returns (r: Outcome<seq<byte>>)
    ensures r == MapBytes(fields, data)
  {
    hide FieldBytes;
    var writer := new Buffer();
    for i := 0 to |fields|
      invariant MapBytes(fields[..i], data) == Ok(writer.bytes)
    {
      assert fields[..i + 1][..i] == fields[..i];
      var ok := InterfaceToUAVTalk(fields[i], writer, Entry(data, fields[i].name));
      if !ok {
        PrefixOfFieldsFails(fields, data, i + 1);
        MapBytesNeverPanics(fields, data);
        return Error;
      }
    }
    assert fields[..|fields|] == fields;
    return Ok(writer.bytes);
  }

  lemma {:induction false} MapBytesNeverPanics(fields: seq<Field>, data: map<string, Value>)
    ensures !MapBytes(fields, data).Panic?
  {
  }

  // ---------------------------------------------------------------- decoding

  datatype Cursor<+T> = Cursor(value: T, pos: nat)

  function Signed32(n: uint32): int {
    if n < 0x8000_0000 then n else n - 0x1_0000_0000
  }

  /** The value of one element's bytes; an enum byte beyond the options panics. */
  function ScalarOf(f: Field, bytes: seq<byte>): Outcome<Value>
    requires |bytes| == f.Size()
  {
    match f.kind
    case Int8 => Ok(U8(bytes[0]))
    case UInt8 => Ok(U8(bytes[0]))
    case Int16 => Ok(U16(FromLe16(bytes)))
    case UInt16 => Ok(U16(FromLe16(bytes)))
    case Int32 => Ok(I32(Signed32(FromLe32(bytes))))
    case UInt32 => Ok(U32(FromLe32(bytes)))
    case Float => Ok(F32(FromLe32(bytes)))
    case Enum => if bytes[0] < |f.options| then Ok(Text(f.options[bytes[0]])) else Panic
  }

  function ReadScalar(f: Field, data: seq<byte>, pos: nat): Outcome<Cursor<Value>> {
    if pos + f.Size() > |data| then Error
    else
      match ScalarOf(f, data[pos..pos + f.Size()])
      case Ok(v) => Ok(Cursor(v, pos + f.Size()))
      case Error => Error
      case Panic => Panic
  }

  /** `n` elements one after the other. */
  function ReadItems(f: Field, data: seq<byte>, pos: nat, n: nat): (r: Outcome<Cursor<seq<Value>>>)
    ensures r.Ok? ==> |r.value.value| == n
    decreases n
  {
    if n == 0 then Ok(Cursor([], pos))
    else
      match ReadItems(f, data, pos, n - 1)
      case Error => Error
      case Panic => Panic
      case Ok(c) =>
        match ReadScalar(f, data, c.pos)
        case Error => Error
        case Panic => Panic
        case Ok(d) => Ok(Cursor(c.value + [d.value], d.pos))
  }

  /** The elements under their names; a later duplicate replaces an earlier one. */
  function Named(names: seq<string>, items: seq<Value>): map<string, Value>
    requires |items| <= |names|
  {
    if |items| == 0 then map[]
    else Named(names, items[..|items| - 1])[names[|items| - 1] := items[|items| - 1]]
  }

  /** A processed field: at least one element, and all or none of them named. */
  predicate WellFormed(f: Field) {
    Countable(f.elements, f.elementNames)
  }

  /**
    One field in the shape of its schema.  A field with more elements than names
    panics when it comes to the first element without one.
   */
  function ReadField(f: Field, data: seq<byte>, pos: nat): Outcome<Cursor<Value>> {
    if f.elements > 1 && f.elementNames == [] then
      match ReadItems(f, data, pos, f.elements)
      case Error => Error
      case Panic => Panic
      case Ok(c) => Ok(Cursor(Array(c.value), c.pos))
    else if f.elements > 1 then
      var n := NamedReads(f);
      match ReadItems(f, data, pos, n)
      case Error => Error
      case Panic => Panic
      case Ok(c) => if n > |f.elementNames| then Panic else Ok(Cursor(Object(Named(f.elementNames, c.value)), c.pos))
    else ReadScalar(f, data, pos)
  }

  /** How many elements are read under names before the reading ends. */
  function NamedReads(f: Field): nat
    requires f.elements >= 0
  {
    if f.elements <= |f.elementNames| then f.elements else |f.elementNames| + 1
  }

  predicate AllWellFormed(fields: seq<Field>) {
    forall i :: 0 <= i < |fields| ==> WellFormed(fields[i])
  }

  function ReadFields(fields: seq<Field>, data: seq<byte>): Outcome<Cursor<map<string, Value>>> {
    if |fields| == 0 then Ok(Cursor(map[], 0))
    else
      match ReadFields(fields[..|fields| - 1], data)
      case Error => Error
      case Panic => Panic
      case Ok(c) =>
        var last := fields[|fields| - 1];
        match ReadField(last, data, c.pos)
        case Error => Error
        case Panic => Panic
        case Ok(d) => Ok(Cursor(c.value[last.name := d.value], d.pos))
  }

  /** What decoding a payload returns; bytes behind the last field are ignored. */
  function ReadMap(fields: seq<Field>, data: seq<byte>): Outcome<map<string, Value>> {
    match ReadFields(fields, data)
    case Error => Error
    case Panic => Panic
    case Ok(c) => Ok(c.value)
  }

  /** The cursor over a payload that a decoding run advances. */
  class Reader {
    const data: seq<byte>
    var pos: nat

    constructor (data: seq<byte>)
      ensures this.data == data && pos == 0
    {
      this.data := data;
      pos := 0;
    }
  }

  /** A run that returned `r` with the cursor at `pos` did what the specification says. */
  predicate Agrees<T(==)>(spec: Outcome<Cursor<T>>, r: Outcome<T>, pos: nat) {
    match spec
    case Error => r == Error
    case Panic => r == Panic
    case Ok(c) => r == Ok(c.value) && pos == c.pos
  }

  method ReadFromUAVTalk(f: Field, reader: Reader) returns (r: Outcome<Value>)
    modifies reader
    ensures Agrees(ReadScalar(f, reader.data, old(reader.pos)), r, reader.pos)
  {
    var n := f.Size();
    if reader.pos + n > |reader.data| {
      return Error;
    }
    var bytes := reader.data[reader.pos..reader.pos + n];
    reader.pos := reader.pos + n;
    match f.kind
    case Int8 => r := Ok(U8(bytes[0]));
    case Int16 => r := Ok(U16(FromLe16(bytes)));
    case Int32 => r := Ok(I32(Signed32(FromLe32(bytes))));
    case UInt8 => r := Ok(U8(bytes[0]));
    case UInt16 => r := Ok(U16(FromLe16(bytes)));
    case UInt32 => r := Ok(U32(FromLe32(bytes)));
    case Float => r := Ok(F32(FromLe32(bytes)));
    case Enum =>
      if bytes[0] >= |f.options| {
        return Panic;
      }
      r := Ok(Text(f.options[bytes[0]]));
  }

  lemma {:induction false} PrefixDecides(f: Field, data: seq<byte>, pos: nat, m: nat, n: nat)
    requires m <= n && !ReadItems(f, data, pos, m).Ok?
    ensures ReadItems(f, data, pos, n) == ReadItems(f, data, pos, m)
    decreases n
  {
    hide ReadScalar;
    if m < n {
      PrefixDecides(f, data, pos, m, n - 1);
    }
  }

  method ReadArray(f: Field, reader: Reader) returns (r: Outcome<seq<Value>>)
    requires f.elements >= 0
    modifies reader
    ensures Agrees(ReadItems(f, reader.data, old(reader.pos), f.elements), r, reader.pos)
  {
    hide ReadScalar;
    ghost var start := reader.pos;
    var items: seq<Value> := [];
    for i := 0 to f.elements
      invariant ReadItems(f, reader.data, start, i) == Ok(Cursor(items, reader.pos))
    {
      var v := ReadFromUAVTalk(f, reader);
      if !v.Ok? {
        PrefixDecides(f, reader.data, start, i + 1, f.elements);
        return if v.Panic? then Panic else Error;
      }
      items := items + [v.value];
    }
    return Ok(items);
  }

  method ReadNamed(f: Field, reader: Reader) returns (r: Outcome<map<string, Value>>)
    requires f.elements >= 0
    modifies reader
    ensures var spec := ReadItems(f, reader.data, old(reader.pos), NamedReads(f));
            match spec
            case Error => r == Error
            case Panic => r == Panic
            case Ok(c) => if f.elements > |f.elementNames| then r == Panic
                          else r == Ok(Named(f.elementNames, c.value)) && reader.pos == c.pos
  {
    hide ReadScalar;
    ghost var start := reader.pos;
    ghost var items: seq<Value> := [];
    var entries: map<string, Value> := map[];
    for i := 0 to f.elements
      invariant i <= |f.elementNames|
      invariant ReadItems(f, reader.data, start, i) == Ok(Cursor(items, reader.pos))
      invariant |items| == i && entries == Named(f.elementNames, items)
    {
      var v := ReadFromUAVTalk(f, reader);
      if !v.Ok? {
        PrefixDecides(f, reader.data, start, i + 1, NamedReads(f));
        return if v.Panic? then Panic else Error;
      }
      if i >= |f.elementNames| {
        return Panic;
      }
      assert (items + [v.value])[..i] == items;
      items := items + [v.value];
      entries := entries[f.elementNames[i] := v.value];
    }
    return Ok(entries);
  }

  method UAVTalkToInterface(f: Field, reader: Reader) returns (r: Outcome<Value>)
    modifies reader
    ensures Agrees(ReadField(f, reader.data, old(reader.pos)), r, reader.pos)
  {
    hide ReadScalar, ReadItems;
    if f.elements > 1 && f.elementNames == [] {
      var items := ReadArray(f, reader);
      match items
      case Ok(vs) => r := Ok(Array(vs));
      case Error => r := Error;
      case Panic => r := Panic;
    } else if f.elements > 1 {
      var entries := ReadNamed(f, reader);
      match entries
      case Ok(m) => r := Ok(Object(m));
      case Error => r := Error;
      case Panic => r := Panic;
    } else {
      r := ReadFromUAVTalk(f, reader);
    }
  }

  lemma {:induction false} PrefixOfFieldsDecides(fields: seq<Field>, data: seq<byte>, n: nat)
    requires n <= |fields| && !ReadFields(fields[..n], data).Ok?
    ensures ReadFields(fields, data) == ReadFields(fields[..n], data)
    decreases |fields|
  {
    hide ReadField;
    if n < |fields| {
      assert fields[..|fields| - 1][..n] == fields[..n];
      PrefixOfFieldsDecides(fields[..|fields| - 1], data, n);
    } else {
      assert fields[..n] == fields;
    }
  }

  method UAVTalkToMap(fields: seq<Field>, data: seq<byte>) returns (r: Outcome<map<string, Value>>)
    ensures r == ReadMap(fields, data)
  {
    hide ReadField;
    var reader := new Reader(data);
    var result: map<string, Value> := map[];
    for i := 0 to |fields|
      invariant reader.data == data
      invariant ReadFields(fields[..i], data) == Ok(Cursor(result, reader.pos))
    {
      assert fields[..i + 1][..i] == fields[..i];
      var v := UAVTalkToInterface(fields[i], reader);
      if !v.Ok? {
        PrefixOfFieldsDecides(fields, data, i + 1);
        return if v.Panic? then Panic else Error;
      }
      result := result[fields[i].name := v.value];
    }
    assert fields[..|fields|] == fields;
    return Ok(result);
  }
}
