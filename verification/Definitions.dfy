/**
  Complete object definitions: the setup of their fields, the layout that
  results, and the object ID hash (uavtalk/definitions.go,
  uavtalk/uavobjectid.go, uavtalk/uavtalk.go).
 */
module Definitions {
  import opened Outcomes
  import opened Schema
  import opened Layout
  import opened Bytes

  datatype Definition = Definition(
    name: string, settings: bool, singleInstance: bool, objectID: uint32, fields: seq<Field>, isMeta: bool)

  // -------------------------------------------------------------------- setup

  ghost predicate AllResolve(raw: seq<FieldDefinition>)
    requires TargetsExist(raw)
  {
    forall k :: 0 <= k < |raw| ==> Resolves(raw, k)
  }

  function AllFinished(p: seq<FieldDefinition>): (r: seq<Field>)
    requires forall k :: 0 <= k < |p| ==> p[k].typeInfo.Some?
    ensures |r| == |p|
  {
    seq(|p|, k requires 0 <= k < |p| => Finished(p[k]))
  }

  /** The fields of a definition after its setup; one field alone is never compared, so its type may be missing. */
  datatype Ready = Sorted(fields: seq<Field>) | Untyped(only: FieldDefinition)

  /**
    Setup fails with an error on an unknown type or clone target.  The sort
    panics on the missing type information of a clone that does not resolve,
    unless that clone is the only field.
   */
  ghost function Setup(raw: seq<FieldDefinition>): Outcome<Ready>
    requires Parsed(raw)
  {
    if !TypesKnown(raw) || !TargetsExist(raw) then Error
    else if !AllResolve(raw) then
      if |raw| == 1 then Ok(Untyped(Processed(raw)[0])) else Panic
    else
      TypedWhenResolved(raw);
      Ok(Sorted(BySize(AllFinished(Processed(raw)))))
  }

  lemma TypedWhenResolved(raw: seq<FieldDefinition>)
    requires Parsed(raw) && TypesKnown(raw) && TargetsExist(raw)
    ensures AllResolve(raw) <==> forall k :: 0 <= k < |raw| ==> Processed(raw)[k].typeInfo.Some?
  {
    hide Processed, Resolves;
    forall k: nat | k < |raw|
      ensures Processed(raw)[k].typeInfo.Some? <==> Resolves(raw, k)
    {
      FieldProcessResolves(raw, k);
    }
  }

  /** Field processing followed by the stable sort; a missing type makes its first comparison panic. */
  method FinishSetup(fields: array<FieldDefinition>) returns (r: Outcome<Ready>)
    requires Parsed(fields[..])
    modifies fields
    ensures r == Setup(old(fields[..]))
  {
    ghost var raw := fields[..];
    var ok := FieldProcess(fields);
    if !ok {
      return Error;
    }
    TypedWhenResolved(raw);
    hide Processed, TypesKnown, TargetsExist, AllResolve, BySize;
    var p := fields[..];
    if exists k :: 0 <= k < |p| && p[k].typeInfo.None? {
      return if |p| == 1 then Ok(Untyped(p[0])) else Panic;
    }
    var sorted := AllFinished(p);
    var slice := new Field[|sorted|](k requires 0 <= k < |sorted| => sorted[k]);
    assert slice[..] == sorted;
    SortStable(slice);
    r := Ok(Sorted(slice[..]));
  }

  // ------------------------------------------------------------ canonical layout

  predicate DistinctNames(raw: seq<FieldDefinition>) {
    forall i, j :: 0 <= i < j < |raw| ==> raw[i].name != raw[j].name
  }

  predicate ClonesOfRealFields(raw: seq<FieldDefinition>) {
    forall i :: 0 <= i < |raw| && raw[i].IsClone() ==>
      var j := IndexOfName(raw, raw[i].cloneOf);
      j < |raw| && !raw[j].IsClone()
  }

  /** The definition files this result is about: distinct names, known types, no clone of a clone. */
  predicate Plain(raw: seq<FieldDefinition>) {
    Parsed(raw) && TypesKnown(raw) && DistinctNames(raw) && ClonesOfRealFields(raw)
  }

  /** The field that gives `f` its type and shape. */
  function Prototype(all: seq<FieldDefinition>, f: FieldDefinition): FieldDefinition
    requires ClonesOfRealFields(all) && f in all
  {
    if f.IsClone() then all[IndexOfName(all, f.cloneOf)] else f
  }

  function DeclaredSize(all: seq<FieldDefinition>, f: FieldDefinition): nat
    requires ClonesOfRealFields(all) && TypesKnown(all) && f in all
  {
    FieldTypeForString(Prototype(all, f).typeName).value.Size()
  }

  /** The declared fields of one element size, in file order. */
  function DeclaredOfSize(all: seq<FieldDefinition>, part: seq<FieldDefinition>, n: nat): (r: seq<FieldDefinition>)
    requires ClonesOfRealFields(all) && TypesKnown(all) && forall f :: f in part ==> f in all
    ensures forall f :: f in r ==> f in part
  {
    if |part| == 0 then []
    else
      var (front, last) := (part[..|part| - 1], part[|part| - 1]);
      if DeclaredSize(all, last) == n then DeclaredOfSize(all, front, n) + [last] else DeclaredOfSize(all, front, n)
  }

  function Shape(all: seq<FieldDefinition>, f: FieldDefinition): Field
    requires ClonesOfRealFields(all) && TypesKnown(all) && f in all
  {
    Finished(Prepared(Prototype(all, f)).(name := f.name))
  }

  function Shapes(all: seq<FieldDefinition>, part: seq<FieldDefinition>): (r: seq<Field>)
    requires ClonesOfRealFields(all) && TypesKnown(all) && forall f :: f in part ==> f in all
    ensures |r| == |part|
  {
    seq(|part|, i requires 0 <= i < |part| => Shape(all, part[i]))
  }

  lemma PlainResolves(raw: seq<FieldDefinition>, k: nat)
    requires Plain(raw) && k < |raw|
    ensures TargetsExist(raw) && Resolves(raw, k)
    ensures raw[Root(raw, k)] == Prototype(raw, raw[k])
  {
  }

  lemma PlainSetup(raw: seq<FieldDefinition>)
    requires Plain(raw)
    ensures Setup(raw) == Ok(Sorted(BySize(Shapes(raw, raw))))
  {
    hide Processed, Resolves, BySize, Prepared, Prototype;
    forall k: nat | k < |raw|
      ensures TargetsExist(raw) && Resolves(raw, k)
      ensures Processed(raw)[k].typeInfo.Some? && Finished(Processed(raw)[k]) == Shapes(raw, raw)[k]
    {
      PlainResolves(raw, k);
      FieldProcessResolves(raw, k);
    }
    assert TargetsExist(raw);
    TypedWhenResolved(raw);
    assert AllFinished(Processed(raw)) == Shapes(raw, raw);
  }

  lemma {:induction false} ShapesOfSize(all: seq<FieldDefinition>, part: seq<FieldDefinition>, n: nat)
    requires ClonesOfRealFields(all) && TypesKnown(all) && forall f :: f in part ==> f in all
    ensures OfSize(Shapes(all, part), n) == Shapes(all, DeclaredOfSize(all, part, n))
  {
    hide Prepared, Prototype, ClonesOfRealFields, TypesKnown;
    if |part| > 0 {
      hide OfSize, Shape, DeclaredSize;
      var (front, last) := (part[..|part| - 1], part[|part| - 1]);
      ShapesOfSize(all, front, n);
      assert Shapes(all, part) == Shapes(all, front) + [Shape(all, last)];
      OfSizeSnoc(Shapes(all, front), Shape(all, last), n);
      ShapeSize(all, last);
    }
  }

  lemma ShapeSize(all: seq<FieldDefinition>, f: FieldDefinition)
    requires ClonesOfRealFields(all) && TypesKnown(all) && f in all
    ensures Shape(all, f).Size() == DeclaredSize(all, f)
  {
  }

  lemma {:induction false} InItsClass(all: seq<FieldDefinition>, part: seq<FieldDefinition>, f: FieldDefinition)
    requires ClonesOfRealFields(all) && TypesKnown(all) && (forall g :: g in part ==> g in all) && f in part
    ensures f in DeclaredOfSize(all, part, DeclaredSize(all, f))
  {
    hide Prototype;
    var (front, last) := (part[..|part| - 1], part[|part| - 1]);
    if f != last {
      InItsClass(all, front, f);
    }
  }

  /** The two files declare, size class by size class, the same fields in the same order. */
  predicate SameWithinSizes(a: seq<FieldDefinition>, b: seq<FieldDefinition>)
    requires Plain(a) && Plain(b)
  {
    && DeclaredOfSize(a, a, 1) == DeclaredOfSize(b, b, 1)
    && DeclaredOfSize(a, a, 2) == DeclaredOfSize(b, b, 2)
    && DeclaredOfSize(a, a, 4) == DeclaredOfSize(b, b, 4)
  }

  lemma SameFields(a: seq<FieldDefinition>, b: seq<FieldDefinition>, f: FieldDefinition)
    requires Plain(a) && Plain(b) && SameWithinSizes(a, b) && f in a
    ensures f in b
  {
    hide DeclaredOfSize, DeclaredSize;
    InItsClass(a, a, f);
    ShapeSize(a, f);
    SizeValues(Shape(a, f));
  }

  lemma SameModel(a: seq<FieldDefinition>, b: seq<FieldDefinition>, f: FieldDefinition)
    requires Plain(a) && Plain(b) && SameWithinSizes(a, b) && f in a
    ensures f in b && Prototype(a, f) == Prototype(b, f)
  {
    hide SameWithinSizes, IndexOfName;
    SameFields(a, b, f);
    if f.IsClone() {
      var g := a[IndexOfName(a, f.cloneOf)];
      SameFields(a, b, g);
    }
  }

  lemma SameShapes(a: seq<FieldDefinition>, b: seq<FieldDefinition>, part: seq<FieldDefinition>)
    requires Plain(a) && Plain(b) && SameWithinSizes(a, b)
    requires forall f :: f in part ==> f in a && f in b
    ensures Shapes(a, part) == Shapes(b, part)
  {
    hide Prototype, SameWithinSizes, Prepared;
    forall i | 0 <= i < |part|
      ensures Shape(a, part[i]) == Shape(b, part[i])
    {
      SameModel(a, b, part[i]);
    }
  }

  /**
    Two definition files whose fields agree within each element size get the
    same layout, however fields of different sizes are interleaved.
   */
  lemma CanonicalLayout(a: seq<FieldDefinition>, b: seq<FieldDefinition>)
    requires Plain(a) && Plain(b) && SameWithinSizes(a, b)
    ensures Setup(a) == Setup(b)
  {
    hide Setup, OfSize, DeclaredOfSize, Shapes;
    PlainSetup(a);
    PlainSetup(b);
    ShapesOfSize(a, a, 4);
    ShapesOfSize(b, b, 4);
    SameShapes(a, b, DeclaredOfSize(a, a, 4));
    ShapesOfSize(a, a, 2);
    ShapesOfSize(b, b, 2);
    SameShapes(a, b, DeclaredOfSize(a, a, 2));
    ShapesOfSize(a, a, 1);
    ShapesOfSize(b, b, 1);
    SameShapes(a, b, DeclaredOfSize(a, a, 1));
  }

  // ------------------------------------------------------------------ object ID

  /** Latin-1, with a question mark for a character outside it. */
  function Latin1(c: char): byte {
    if c as int < 256 then c as int else 63
  }

  /** h ^ ((h << 5) + (h >> 2) + value) on 32 bits. */
  function MixInt(h: uint32, value: uint32): uint32 {
    Xor32(h, (32 * h + h / 4 + value) % 0x1_0000_0000)
  }

  function MixString(h: uint32, s: string): uint32 {
    if s == "" then h else MixInt(MixString(h, s[..|s| - 1]), Latin1(s[|s| - 1]))
  }

  function MixOptions(h: uint32, options: seq<string>): uint32 {
    if |options| == 0 then h else MixString(MixOptions(h, options[..|options| - 1]), options[|options| - 1])
  }

  function MixField(h: uint32, f: Field): uint32 {
    var named := MixString(h, f.name);
    var counted := MixInt(named, f.elements % 0x1_0000_0000);
    var typed := MixInt(counted, f.kind.Index());
    if f.kind == Enum then MixOptions(typed, f.options) else typed
  }

  function MixFields(h: uint32, fields: seq<Field>): uint32 {
    if |fields| == 0 then h else MixField(MixFields(h, fields[..|fields| - 1]), fields[|fields| - 1])
  }

  function MixBool(h: uint32, value: bool): uint32 {
    MixInt(h, if value then 1 else 0)
  }

  function DefinitionHash(name: string, settings: bool, singleInstance: bool, fields: seq<Field>): uint32 {
    MixFields(MixBool(MixBool(MixString(0, name), settings), singleInstance), fields)
  }

  /** The hash with its lowest bit cleared. */
  function ObjectID(name: string, settings: bool, singleInstance: bool, fields: seq<Field>): uint32 {
    ClearLowBit(DefinitionHash(name, settings, singleInstance, fields))
  }

  function ClearLowBit(n: uint32): (r: uint32)
    ensures r % 2 == 0
  {
    n - n % 2
  }

  /** No two values mix into a hash with the same result. */
  lemma MixIntInjective(h: uint32, a: uint32, b: uint32)
    requires MixInt(h, a) == MixInt(h, b)
    ensures a == b
  {
    hide Xor32;
    var (x, y) := ((32 * h + h / 4 + a) % 0x1_0000_0000, (32 * h + h / 4 + b) % 0x1_0000_0000);
    Xor32Injective(h, x, y);
    SumInjective(32 * h + h / 4, a, b);
  }

  lemma SumInjective(base: nat, a: uint32, b: uint32)
    requires (base + a) % 0x1_0000_0000 == (base + b) % 0x1_0000_0000
    ensures a == b
  {
  }

  lemma MixFieldsSnoc(h: uint32, front: seq<Field>, f: Field)
    ensures MixFields(h, front + [f]) == MixField(MixFields(h, front), f)
  {
    hide MixField;
    assert (front + [f])[..|front|] == front;
  }

  /**
    Changing the type of the last field, neither of them an enum, always
    changes the hash; the object ID stays the same only if the two hashes
    differ in nothing but the bit that the ID drops.
   */
  lemma LastTypeMatters(name: string, settings: bool, singleInstance: bool, front: seq<Field>, f: Field, g: Field)
    requires f.name == g.name && f.elements == g.elements && f.kind != g.kind && f.kind != Enum && g.kind != Enum
    ensures var a := DefinitionHash(name, settings, singleInstance, front + [f]);
            var b := DefinitionHash(name, settings, singleInstance, front + [g]);
            var x := ObjectID(name, settings, singleInstance, front + [f]);
            var y := ObjectID(name, settings, singleInstance, front + [g]);
            a != b && (x == y <==> a / 2 == b / 2)
  {
    hide MixInt, MixString, MixBool, MixFields;
    var h := MixBool(MixBool(MixString(0, name), settings), singleInstance);
    MixFieldsSnoc(h, front, f);
    MixFieldsSnoc(h, front, g);
    var counted := MixInt(MixString(MixFields(h, front), f.name), f.elements % 0x1_0000_0000);
    if MixInt(counted, f.kind.Index()) == MixInt(counted, g.kind.Index()) {
      MixIntInjective(counted, f.kind.Index(), g.kind.Index());
    }
    LowBitOnly(DefinitionHash(name, settings, singleInstance, front + [f]),
               DefinitionHash(name, settings, singleInstance, front + [g]));
  }

  lemma LowBitOnly(a: uint32, b: uint32)
    ensures ClearLowBit(a) == ClearLowBit(b) <==> a / 2 == b / 2
  {
  }

  /** Whether an object without fields has one instance always shows in its hash. */
  lemma FlagsMatter(name: string, settings: bool, singleInstance: bool, other: bool)
    requires singleInstance != other
    ensures DefinitionHash(name, settings, singleInstance, []) != DefinitionHash(name, settings, other, [])
  {
    hide MixInt, MixString;
    var h := MixBool(MixString(0, name), settings);
    if MixInt(h, 1) == MixInt(h, 0) {
      MixIntInjective(h, 1, 0);
    }
  }

  class Hash {
    var value: uint32

    constructor ()
      ensures value == 0
    {
      value := 0;
    }

    method UpdateHashWithInt(v: uint32)
      modifies this
      ensures value == MixInt(old(value), v)
    {
      hide Xor32;
      value := Xor32(value, (32 * value + value / 4 + v) % 0x1_0000_0000);
    }

    method UpdateHashWithBool(v: bool)
      modifies this
      ensures value == MixBool(old(value), v)
    {
      if v {
        UpdateHashWithInt(1);
      } else {
        UpdateHashWithInt(0);
      }
    }

    method UpdateHashWithString(s: string)
      modifies this
      ensures value == MixString(old(value), s)
    {
      hide MixInt;
      for i := 0 to |s|
        invariant value == MixString(old(value), s[..i])
      {
        assert s[..i + 1][..i] == s[..i];
        UpdateHashWithInt(Latin1(s[i]));
      }
      assert s[..|s|] == s;
    }

    method UpdateHashWithOptions(options: seq<string>)
      modifies this
      ensures value == MixOptions(old(value), options)
    {
      hide MixString;
      for i := 0 to |options|
        invariant value == MixOptions(old(value), options[..i])
      {
        assert options[..i + 1][..i] == options[..i];
        UpdateHashWithString(options[i]);
      }
      assert options[..|options|] == options;
    }
  }

  method CalculateID(name: string, settings: bool, singleInstance: bool, fields: seq<Field>) returns (id: uint32)
    ensures id == ObjectID(name, settings, singleInstance, fields)
  {
    hide MixString, MixInt, MixOptions;
    var hash := new Hash();
    hash.UpdateHashWithString(name);
    hash.UpdateHashWithBool(settings);
    hash.UpdateHashWithBool(singleInstance);
    ghost var h := hash.value;
    for i := 0 to |fields|
      invariant hash.value == MixFields(h, fields[..i])
    {
      assert fields[..i + 1][..i] == fields[..i];
      hash.UpdateHashWithString(fields[i].name);
      hash.UpdateHashWithInt(fields[i].elements % 0x1_0000_0000);
      hash.UpdateHashWithInt(fields[i].kind.Index());
      if fields[i].kind == Enum {
        hash.UpdateHashWithOptions(fields[i].options);
      }
    }
    assert fields[..|fields|] == fields;
    id := ClearLowBit(hash.value);
  }

  ghost function NewDefinition(name: string, settings: bool, singleInstance: bool, raw: seq<FieldDefinition>)
    : Outcome<Definition>
    requires Parsed(raw)
  {
    match Setup(raw)
    case Error => Error
    case Panic => Panic
    case Ok(Untyped(_)) => Panic
    case Ok(Sorted(fields)) =>
      Ok(Definition(name, settings, singleInstance, ObjectID(name, settings, singleInstance, fields), fields, false))
  }

  /** Setup, then the object ID, whose computation panics on a missing type. */
  method LoadDefinition(name: string, settings: bool, singleInstance: bool, fields: array<FieldDefinition>)
    returns (r: Outcome<Definition>)
    requires Parsed(fields[..])
    modifies fields
    ensures r == NewDefinition(name, settings, singleInstance, old(fields[..]))
  {
    hide Setup, ObjectID;
    var ready := FinishSetup(fields);
    match ready
    case Error => r := Error;
    case Panic => r := Panic;
    case Ok(Untyped(_)) => r := Panic;
    case Ok(Sorted(sorted)) =>
      var id := CalculateID(name, settings, singleInstance, sorted);
      r := Ok(Definition(name, settings, singleInstance, id, sorted, false));
  }

  /** Reordering fields of different sizes keeps the object ID, so both ends still agree on it. */
  lemma CanonicalDefinition(name: string, settings: bool, singleInstance: bool,
                            a: seq<FieldDefinition>, b: seq<FieldDefinition>)
    requires Plain(a) && Plain(b) && SameWithinSizes(a, b)
    ensures NewDefinition(name, settings, singleInstance, a) == NewDefinition(name, settings, singleInstance, b)
    ensures NewDefinition(name, settings, singleInstance, a).Ok?
  {
    CanonicalLayout(a, b);
    PlainSetup(a);
  }
}
