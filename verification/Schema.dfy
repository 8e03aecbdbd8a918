/**
  Object definitions as they are loaded: field types, the post-processing of
  parsed fields and the resolution of clones (uavtalk/definitions.go).

  A field that was just parsed has no type information yet; `FieldProcess`
  fills it in place, and copies the whole field for one declared as a clone.
 */
module Schema {
  import opened Outcomes

  datatype FieldType = Int8 | Int16 | Int32 | UInt8 | UInt16 | UInt32 | Float | Enum
  {
    function Index(): nat {
      match this
      case Int8 => 0
      case Int16 => 1
      case Int32 => 2
      case UInt8 => 3
      case UInt16 => 4
      case UInt32 => 5
      case Float => 6
      case Enum => 7
    }

    function Size(): nat {
      match this
      case Int8 => 1
      case Int16 => 2
      case Int32 => 4
      case UInt8 => 1
      case UInt16 => 2
      case UInt32 => 4
      case Float => 4
      case Enum => 1
    }
  }

  function FieldTypeForString(ts: string): Option<FieldType> {
    if ts == "int8" then Some(Int8)
    else if ts == "int16" then Some(Int16)
    else if ts == "int32" then Some(Int32)
    else if ts == "uint8" then Some(UInt8)
    else if ts == "uint16" then Some(UInt16)
    else if ts == "uint32" then Some(UInt32)
    else if ts == "float" then Some(Float)
    else if ts == "enum" then Some(Enum)
    else None
  }

  datatype FieldDefinition = FieldDefinition(
    name: string,
    typeName: string,
    typeInfo: Option<FieldType>,
    elements: int,
    elementNamesAttr: string,
    elementNames: seq<string>,
    optionsAttr: string,
    options: seq<string>,
    cloneOf: string)
  {
    predicate IsClone() {
      cloneOf != ""
    }
  }

  /** What the XML decoder leaves: no type information yet. */
  predicate Parsed(fields: seq<FieldDefinition>) {
    forall i :: 0 <= i < |fields| ==> fields[i].typeInfo.None?
  }

  // ------------------------------------------------------------ list attributes

  function ReplaceCommaSpace(s: string): string {
    if s == "" then ""
    else if |s| >= 2 && s[0] == ',' && s[1] == ' ' then "," + ReplaceCommaSpace(s[2..])
    else [s[0]] + ReplaceCommaSpace(s[1..])
  }

  function Without(s: string, c: char): string {
    if s == "" then "" else (if s[0] == c then "" else [s[0]]) + Without(s[1..], c)
  }

  function SanitizeListString(s: string): string {
    Without(Without(ReplaceCommaSpace(s), '\n'), '\t')
  }

  /** The items with commas between them. */
  function Joined(items: seq<string>): string
    requires |items| > 0
  {
    if |items| == 1 then items[0] else items[0] + "," + Joined(items[1..])
  }

  predicate NoCommas(items: seq<string>) {
    forall i :: 0 <= i < |items| ==> ',' !in items[i]
  }

  /** The items without commas that joined with commas are the list. */
  function SplitList(s: string): (r: seq<string>)
    ensures |r| >= 1 && NoCommas(r) && Joined(r) == s
  {
    if s == "" then [""]
    else
      var r := SplitList(s[1..]);
      assert s == [s[0]] + s[1..] && ([""] + r)[1..] == r && ([[s[0]] + r[0]] + r[1..])[1..] == r[1..];
      if s[0] == ',' then [""] + r else [[s[0]] + r[0]] + r[1..]
  }

  // ------------------------------------------------------------- field processing

  /** The first pass over a field that is not a clone. */
  function Prepared(f: FieldDefinition): FieldDefinition {
    var names := if f.elementNamesAttr != "" then SplitList(SanitizeListString(f.elementNamesAttr)) else f.elementNames;
    var elements := if |names| > 0 then |names| else if f.elements == 0 then 1 else f.elements;
    var options := if f.optionsAttr != "" then SplitList(SanitizeListString(f.optionsAttr)) else f.options;
    f.(elements := elements, elementNames := names, options := options, typeInfo := FieldTypeForString(f.typeName))
  }

  function FirstPass(fields: seq<FieldDefinition>): (r: seq<FieldDefinition>)
    ensures |r| == |fields|
  {
    seq(|fields|, i requires 0 <= i < |fields| => if fields[i].IsClone() then fields[i] else Prepared(fields[i]))
  }

  /** The index of the first field of that name, or the number of fields. */
  function IndexOfName(fields: seq<FieldDefinition>, name: string): (i: nat)
    ensures i <= |fields|
    ensures i < |fields| ==> fields[i].name == name
    ensures forall k :: 0 <= k < i ==> fields[k].name != name
  {
    if |fields| == 0 then 0
    else if fields[0].name == name then 0
    else 1 + IndexOfName(fields[1..], name)
  }

  predicate TypesKnown(fields: seq<FieldDefinition>) {
    forall i :: 0 <= i < |fields| && !fields[i].IsClone() ==> FieldTypeForString(fields[i].typeName).Some?
  }

  predicate TargetsExist(fields: seq<FieldDefinition>) {
    forall i :: 0 <= i < |fields| && fields[i].IsClone() ==> IndexOfName(fields, fields[i].cloneOf) < |fields|
  }

  /** Field `k` after the second pass over `p`, which goes through the fields in order. */
  function Cloned(p: seq<FieldDefinition>, k: nat): FieldDefinition
    requires k < |p| && TargetsExist(p)
    decreases k
  {
    if !p[k].IsClone() then p[k]
    else
      var j := IndexOfName(p, p[k].cloneOf);
      (if j < k then Cloned(p, j) else p[j]).(name := p[k].name, cloneOf := p[k].cloneOf)
  }

  function SecondPass(p: seq<FieldDefinition>): (r: seq<FieldDefinition>)
    requires TargetsExist(p)
    ensures |r| == |p|
  {
    seq(|p|, k requires 0 <= k < |p| => Cloned(p, k))
  }

  lemma {:induction false} IndexOfNameCong(a: seq<FieldDefinition>, b: seq<FieldDefinition>, name: string)
    requires |a| == |b| && forall i :: 0 <= i < |a| ==> a[i].name == b[i].name
    ensures IndexOfName(a, name) == IndexOfName(b, name)
  {
    if |a| > 0 {
      IndexOfNameCong(a[1..], b[1..], name);
    }
  }

  lemma PreparedKeepsName(f: FieldDefinition)
    ensures Prepared(f).name == f.name && Prepared(f).cloneOf == f.cloneOf
  {
  }

  lemma TargetsAfterFirstPass(fields: seq<FieldDefinition>)
    ensures TargetsExist(FirstPass(fields)) <==> TargetsExist(fields)
  {
    hide IndexOfName, Prepared;
    var p := FirstPass(fields);
    forall i: nat | i < |fields|
      ensures p[i].name == fields[i].name && p[i].cloneOf == fields[i].cloneOf
    {
      PreparedKeepsName(fields[i]);
    }
    hide FirstPass;
    forall i | 0 <= i < |fields|
      ensures IndexOfName(p, p[i].cloneOf) == IndexOfName(fields, fields[i].cloneOf)
    {
      IndexOfNameCong(p, fields, fields[i].cloneOf);
    }
  }

  function Processed(fields: seq<FieldDefinition>): (r: seq<FieldDefinition>)
    requires TargetsExist(fields)
    ensures |r| == |fields|
  {
    TargetsAfterFirstPass(fields);
    SecondPass(FirstPass(fields))
  }

  method FieldForName(fields: array<FieldDefinition>, name: string) returns (i: nat)
    ensures i == IndexOfName(fields[..], name)
  {
    i := 0;
    while i < fields.Length && fields[i].name != name
      invariant i <= fields.Length
      invariant forall k :: 0 <= k < i ==> fields[k].name != name
    {
      i := i + 1;
    }
    assert IndexOfName(fields[..], name) >= i;
  }

  method PrepareFields(fields: array<FieldDefinition>) returns (ok: bool)
    modifies fields
    ensures ok <==> TypesKnown(old(fields[..]))
    ensures ok ==> fields[..] == FirstPass(old(fields[..]))
  {
    hide FieldTypeForString, SplitList, SanitizeListString;
    ghost var raw := fields[..];
    ghost var p := FirstPass(raw);
    var i := 0;
    while i < fields.Length
      invariant i <= fields.Length
      invariant forall k :: 0 <= k < i && !raw[k].IsClone() ==> FieldTypeForString(raw[k].typeName).Some?
      invariant forall k :: 0 <= k < i ==> fields[k] == p[k]
      invariant forall k :: i <= k < |raw| ==> fields[k] == raw[k]
    {
      if !fields[i].IsClone() {
        fields[i] := Prepared(fields[i]);
        if fields[i].typeInfo.None? {
          return false;
        }
      }
      i := i + 1;
    }
    return true;
  }

  /** The fields while the second pass over `p` has reached field `i`. */
  ghost predicate ClonedUpTo(p: seq<FieldDefinition>, now: seq<FieldDefinition>, i: nat) {
    && |now| == |p|
    && (forall k :: 0 <= k < |p| ==> now[k].name == p[k].name)
    && (forall k :: i <= k < |p| ==> now[k] == p[k])
    && (TargetsExist(p) ==> forall k :: 0 <= k < i && k < |p| ==> now[k] == Cloned(p, k))
  }

  lemma ClonedAt(p: seq<FieldDefinition>, now: seq<FieldDefinition>, i: nat)
    requires i < |p| && ClonedUpTo(p, now, i) && TargetsExist(p) && p[i].IsClone()
    ensures var j := IndexOfName(p, p[i].cloneOf);
            j < |p| && Cloned(p, i) == now[j].(name := p[i].name, cloneOf := p[i].cloneOf)
  {
    hide IndexOfName;
  }

  lemma PlainIsKept(p: seq<FieldDefinition>, i: nat)
    requires i < |p| && !p[i].IsClone()
    ensures TargetsExist(p) ==> Cloned(p, i) == p[i]
  {
  }

  lemma ClonedOneMore(p: seq<FieldDefinition>, now: seq<FieldDefinition>, i: nat, f: FieldDefinition)
    requires i < |p| && ClonedUpTo(p, now, i)
    requires f.name == p[i].name && (TargetsExist(p) ==> f == Cloned(p, i))
    ensures ClonedUpTo(p, now[i := f], i + 1)
  {
    hide Cloned, TargetsExist;
  }

  method ResolveClones(fields: array<FieldDefinition>) returns (ok: bool)
    modifies fields
    ensures ok <==> TargetsExist(old(fields[..]))
    ensures ok ==> fields[..] == SecondPass(old(fields[..]))
  {
    hide IndexOfName, Cloned;
    ghost var p := fields[..];
    var i := 0;
    while i < fields.Length
      invariant i <= fields.Length == |p|
      invariant forall k :: 0 <= k < i && p[k].IsClone() ==> IndexOfName(p, p[k].cloneOf) < |p|
      invariant ClonedUpTo(p, fields[..], i)
    {
      ghost var now := fields[..];
      assert fields[i] == now[i] == p[i];
      if fields[i].IsClone() {
        var j := FieldForName(fields, fields[i].cloneOf);
        IndexOfNameCong(now, p, p[i].cloneOf);
        if j == fields.Length {
          return false;
        }
        if TargetsExist(p) {
          ClonedAt(p, now, i);
        }
        fields[i] := fields[j].(name := fields[i].name, cloneOf := fields[i].cloneOf);
        assert fields[..] == now[i := fields[i]];
      } else {
        PlainIsKept(p, i);
        assert fields[..] == now[i := fields[i]];
      }
      ClonedOneMore(p, now, i, fields[i]);
      i := i + 1;
    }
    return true;
  }

  /**
    Prepares every field in place, then copies every clone's target into it.
    The call fails exactly when a field that is not a clone has an unknown
    type or a clone names no field.
   */
  method FieldProcess(fields: array<FieldDefinition>) returns (ok: bool)
    modifies fields
    ensures ok <==> TypesKnown(old(fields[..])) && TargetsExist(old(fields[..]))
    ensures ok ==> fields[..] == Processed(old(fields[..]))
  {
    TargetsAfterFirstPass(fields[..]);
    ok := PrepareFields(fields);
    if ok {
      ok := ResolveClones(fields);
    }
  }

  // ------------------------------------------------------------ what clones become

  /** Following the clone from `k` meets a real field, or a clone processed before it. */
  predicate Resolves(p: seq<FieldDefinition>, k: nat)
    requires k < |p| && TargetsExist(p)
    decreases k
  {
    p[k].IsClone() ==>
      var j := IndexOfName(p, p[k].cloneOf);
      if j < k then Resolves(p, j) else !p[j].IsClone()
  }

  /** The field at the end of the chain of clones that starts at `k`. */
  function Root(p: seq<FieldDefinition>, k: nat): (r: nat)
    requires k < |p| && TargetsExist(p) && Resolves(p, k)
    ensures r < |p| && !p[r].IsClone()
    decreases k
  {
    if !p[k].IsClone() then k
    else
      var j := IndexOfName(p, p[k].cloneOf);
      if j < k then Root(p, j) else j
  }

  lemma ResolvesAfterFirstPass(fields: seq<FieldDefinition>, k: nat)
    requires k < |fields| && TargetsExist(fields)
    ensures TargetsExist(FirstPass(fields))
    ensures Resolves(FirstPass(fields), k) <==> Resolves(fields, k)
    ensures Resolves(fields, k) ==> Root(FirstPass(fields), k) == Root(fields, k)
    decreases k
  {
    TargetsAfterFirstPass(fields);
    if fields[k].IsClone() {
      IndexOfNameCong(FirstPass(fields), fields, fields[k].cloneOf);
      var j := IndexOfName(fields, fields[k].cloneOf);
      if j < k {
        ResolvesAfterFirstPass(fields, j);
      }
    }
  }

  lemma {:induction false} ClonedIsRoot(p: seq<FieldDefinition>, k: nat)
    requires k < |p| && TargetsExist(p)
    requires forall i :: 0 <= i < |p| ==> (p[i].typeInfo.Some? <==> !p[i].IsClone())
    ensures Cloned(p, k).typeInfo.Some? <==> Resolves(p, k)
    ensures Resolves(p, k) ==>
              Cloned(p, k) == p[Root(p, k)].(name := p[k].name, cloneOf := p[k].cloneOf)
    decreases k
  {
    if p[k].IsClone() {
      var j := IndexOfName(p, p[k].cloneOf);
      if j < k {
        ClonedIsRoot(p, j);
      }
    }
  }

  /**
    A processed field has type information exactly when its chain of clones
    resolves; it is then the prepared field at the end of the chain, under its
    own name.
   */
  lemma FieldProcessResolves(fields: seq<FieldDefinition>, k: nat)
    requires Parsed(fields) && TypesKnown(fields) && TargetsExist(fields) && k < |fields|
    ensures Processed(fields)[k].typeInfo.Some? <==> Resolves(fields, k)
    ensures Resolves(fields, k) ==>
              Processed(fields)[k]
              == Prepared(fields[Root(fields, k)]).(name := fields[k].name, cloneOf := fields[k].cloneOf)
  {
    ResolvesAfterFirstPass(fields, k);
    ClonedIsRoot(FirstPass(fields), k);
  }

  /** Elements that can be counted: at least one, and all or none of them named. */
  predicate Countable(elements: int, names: seq<string>) {
    elements >= 1 && (names == [] || |names| == elements)
  }

  predicate HasElementNames(f: FieldDefinition) {
    f.elementNamesAttr != "" || f.elementNames != []
  }

  /**
    Every processed field has at least one element, and either no element names
    or one for each, exactly when the field it takes its shape from names its
    elements or does not declare a negative number of them.
   */
  lemma FieldProcessCounts(fields: seq<FieldDefinition>, k: nat)
    requires Parsed(fields) && TypesKnown(fields) && TargetsExist(fields) && k < |fields| && Resolves(fields, k)
    ensures Countable(Processed(fields)[k].elements, Processed(fields)[k].elementNames)
       <==> (HasElementNames(fields[Root(fields, k)]) || fields[Root(fields, k)].elements >= 0)
  {
    FieldProcessResolves(fields, k);
  }

  /** A clone of a later clone is left without type information, although the chain ends in a real field. */
  lemma CloneOfLaterClone(a: FieldDefinition, b: FieldDefinition, c: FieldDefinition)
    requires Parsed([a, b, c]) && a.name != b.name && b.name != c.name && c.name != a.name
    requires a.cloneOf == b.name != "" && b.cloneOf == c.name != "" && !c.IsClone()
    requires FieldTypeForString(c.typeName).Some?
    ensures TypesKnown([a, b, c]) && TargetsExist([a, b, c])
    ensures var p := Processed([a, b, c]);
            p[0].typeInfo.None? && p[1].typeInfo == p[2].typeInfo == FieldTypeForString(c.typeName)
  {
    hide FieldTypeForString, Processed, IndexOfName;
    var fields := [a, b, c];
    assert fields[1].name == b.name && fields[2].name == c.name;
    assert IndexOfName(fields, b.name) == 1;
    assert IndexOfName(fields, c.name) == 2;
    assert !Resolves(fields, 0) && Resolves(fields, 1) && Root(fields, 1) == 2 && Root(fields, 2) == 2;
    FieldProcessResolves(fields, 0);
    FieldProcessResolves(fields, 1);
    FieldProcessResolves(fields, 2);
  }

  /** A negative element count without element names is kept as it is. */
  lemma NegativeCountIsKept(f: FieldDefinition)
    requires Parsed([f]) && !f.IsClone() && FieldTypeForString(f.typeName).Some?
    requires !HasElementNames(f) && f.elements < 0
    ensures TypesKnown([f]) && TargetsExist([f])
    ensures Processed([f])[0].elements == f.elements
  {
    hide FieldTypeForString, Processed;
    FieldProcessResolves([f], 0);
  }
}
