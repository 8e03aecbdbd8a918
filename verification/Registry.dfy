/**
  The loaded definitions: every object followed by its metadata object, found
  again by object ID, and the longest object length, which bounds what the
  deframer accepts (uavtalk/definitions.go, uavtalk/uavtalk.go).
 */
module Registry {
  import opened Bytes
  import opened Outcomes
  import opened Schema
  import opened Layout
  import opened Definitions

  function RawMetaField(name: string, typeName: string): FieldDefinition {
    FieldDefinition(name, typeName, None, 0, "", [], "", [], "")
  }

  const RAW_META_FIELDS: seq<FieldDefinition> := [
    RawMetaField("modes", "uint8"),
    RawMetaField("periodFlight", "uint16"),
    RawMetaField("periodGCS", "uint16"),
    RawMetaField("periodLog", "uint16")
  ]

  lemma MetaTypes()
    ensures FieldTypeForString("uint8") == Some(UInt8) && FieldTypeForString("uint16") == Some(UInt16)
  {
  }

  lemma MetaFieldsProcess()
    ensures Parsed(RAW_META_FIELDS) && TypesKnown(RAW_META_FIELDS) && TargetsExist(RAW_META_FIELDS)
    ensures forall k :: 0 <= k < 4 ==> Processed(RAW_META_FIELDS)[k] == Prepared(RAW_META_FIELDS[k])
    ensures forall k :: 0 <= k < 4 ==> Processed(RAW_META_FIELDS)[k].typeInfo.Some?
  {
    hide IndexOfName, SplitList, SanitizeListString, Cloned, FieldTypeForString;
    MetaTypes();
    var p := FirstPass(RAW_META_FIELDS);
    forall k: nat | k < 4
      ensures Processed(RAW_META_FIELDS)[k] == Prepared(RAW_META_FIELDS[k])
    {
      PlainIsKept(p, k);
    }
  }

  /** The fields of every metadata object: processed as all fields are, but never sorted. */
  function MetaFields(): (r: seq<Field>)
    ensures r == [Field("modes", UInt8, 1, [], []), Field("periodFlight", UInt16, 1, [], []),
                  Field("periodGCS", UInt16, 1, [], []), Field("periodLog", UInt16, 1, [], [])]
  {
    MetaFieldsProcess();
    AllFinished(Processed(RAW_META_FIELDS))
  }

  function Meta(parent: Definition): Definition {
    Definition(parent.name + "Meta", false, true, (parent.objectID + 1) % 0x1_0000_0000, MetaFields(), true)
  }

  /**
    The metadata object of any object: an ID of one more on 32 bits, a single
    instance whatever its parent, no settings, and 15 bytes long.
   */
  lemma MetaParts(parent: Definition)
    ensures var m := Meta(parent);
            && m.name == parent.name + "Meta" && m.isMeta && m.singleInstance && !m.settings
            && m.objectID == (if parent.objectID == 0xffff_ffff then 0 else parent.objectID + 1)
            && ObjectLength(m) == 15
  {
    var fields := MetaFields();
    hide MetaFields;
    assert fields[..4] == fields && fields[..0] == [];
    assert fields[..4][..3] == fields[..3] && fields[..3][..2] == fields[..2] && fields[..2][..1] == fields[..1];
    assert fields[..1][..0] == fields[..0] && ByteLength(fields[..1]) == 1 && ByteLength(fields[..2]) == 3;
    assert ByteLength(fields[..3]) == 5 && ByteLength(fields[..4]) == 7;
  }

  /**
    The metadata fields are never sorted, so unlike the objects themselves they
    are not aligned: a two-byte period starts at offset 1.
   */
  lemma MetaIsNotAligned()
    ensures exists i :: 0 <= i < |MetaFields()| && ByteLength(MetaFields()[..i]) % MetaFields()[i].Size() != 0
  {
    var fields := MetaFields();
    assert fields[..1][..0] == [];
    assert ByteLength(fields[..1]) == 1;
    assert fields[1].Size() == 2;
  }

  /** Each object, then its metadata object, in loading order. */
  function Loaded(bases: seq<Definition>): (all: seq<Definition>)
    ensures |all| == 2 * |bases|
    ensures forall i :: 0 <= i < |bases| ==> all[2 * i] == bases[i] && all[2 * i + 1] == Meta(bases[i])
  {
    if |bases| == 0 then []
    else
      var last := bases[|bases| - 1];
      Loaded(bases[..|bases| - 1]) + [last, Meta(last)]
  }

  function IndexOfID(all: seq<Definition>, id: uint32): (i: nat)
    ensures i <= |all|
    ensures i < |all| ==> all[i].objectID == id
    ensures forall k :: 0 <= k < i ==> all[k].objectID != id
  {
    if |all| == 0 || all[0].objectID == id then 0 else 1 + IndexOfID(all[1..], id)
  }

  method GetDefinitionForObjectID(all: seq<Definition>, id: uint32) returns (r: Outcome<Definition>)
    ensures r == Lookup(all, id)
  {
    for i := 0 to |all|
      invariant forall k :: 0 <= k < i ==> all[k].objectID != id
    {
      if all[i].objectID == id {
        return Ok(all[i]);
      }
    }
    return Error;
  }

  function Lookup(all: seq<Definition>, id: uint32): Outcome<Definition> {
    var i := IndexOfID(all, id);
    if i < |all| then Ok(all[i]) else Error
  }

  /** The IDs that the hash can produce. */
  predicate BaseIDs(bases: seq<Definition>) {
    forall i :: 0 <= i < |bases| ==> bases[i].objectID % 2 == 0
  }

  predicate DistinctIDs(defs: seq<Definition>) {
    forall i, j :: 0 <= i < j < |defs| ==> defs[i].objectID != defs[j].objectID
  }

  lemma MetaIDIsOdd(d: Definition)
    requires d.objectID % 2 == 0
    ensures Meta(d).objectID == d.objectID + 1
  {
  }

  lemma LoadedID(bases: seq<Definition>, i: nat)
    requires BaseIDs(bases) && i < |Loaded(bases)|
    ensures Loaded(bases)[i].objectID == bases[i / 2].objectID + i % 2
  {
    hide Loaded, Meta;
    assert i == 2 * (i / 2) + i % 2;
    MetaIDIsOdd(bases[i / 2]);
  }

  lemma LoadedIDs(bases: seq<Definition>)
    requires BaseIDs(bases)
    ensures DistinctIDs(Loaded(bases)) <==> DistinctIDs(bases)
  {
    hide Loaded;
    var all := Loaded(bases);
    if DistinctIDs(bases) {
      forall i, j | 0 <= i < j < |all|
        ensures all[i].objectID != all[j].objectID
      {
        LoadedID(bases, i);
        LoadedID(bases, j);
      }
    }
    if DistinctIDs(all) {
      forall i, j | 0 <= i < j < |bases|
        ensures bases[i].objectID != bases[j].objectID
      {
        assert all[2 * i].objectID != all[2 * j].objectID;
      }
    }
  }

  /**
    Looking up every loaded object by its own ID finds that very object, and
    not another one, exactly when the base objects' IDs are pairwise distinct.
   */
  lemma LookupExact(bases: seq<Definition>)
    requires BaseIDs(bases)
    ensures (forall i :: 0 <= i < |Loaded(bases)| ==> IndexOfID(Loaded(bases), Loaded(bases)[i].objectID) == i)
       <==> DistinctIDs(bases)
  {
    hide IndexOfID, Loaded;
    LoadedIDs(bases);
    var all := Loaded(bases);
    if forall i :: 0 <= i < |all| ==> IndexOfID(all, all[i].objectID) == i {
      forall i, j | 0 <= i < j < |all|
        ensures all[i].objectID != all[j].objectID
      {
        assert IndexOfID(all, all[i].objectID) == i && IndexOfID(all, all[j].objectID) == j;
      }
    }
  }

  // ------------------------------------------------------- the longest object

  const SHORT_HEADER_LENGTH := 8

  function HeaderLength(d: Definition): nat {
    if d.singleInstance then SHORT_HEADER_LENGTH else SHORT_HEADER_LENGTH + 2
  }

  function ObjectLength(d: Definition): int {
    ByteLength(d.fields) + HeaderLength(d)
  }

  /** The length that no loaded object exceeds, and that one reaches unless it is zero. */
  ghost predicate IsMaxObjectLength(all: seq<Definition>, max: nat) {
    && (forall i :: 0 <= i < |all| ==> ObjectLength(all[i]) <= max)
    && (max > 0 ==> exists i :: 0 <= i < |all| && ObjectLength(all[i]) == max)
  }

  method MaxObjectLength(all: seq<Definition>) returns (max: nat)
    ensures IsMaxObjectLength(all, max)
  {
    max := 0;
    for i := 0 to |all|
      invariant forall k :: 0 <= k < i ==> ObjectLength(all[k]) <= max
      invariant max > 0 ==> exists k :: 0 <= k < i && ObjectLength(all[k]) == max
    {
      var tmp := ComputeByteLength(all[i].fields);
      tmp := tmp + SHORT_HEADER_LENGTH;
      if !all[i].singleInstance {
        tmp := tmp + 2;
      }
      assert tmp == ObjectLength(all[i]);
      if tmp > max {
        max := tmp;
      }
    }
  }
}
