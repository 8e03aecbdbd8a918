/**
  From definition files to a working link: what the schema's processing
  guarantees is what the codec, the registry and the deframer ask for
  (uavtalk/uavtalk.go).
 */
module Loading {
  import opened Outcomes
  import opened Schema
  import opened Layout
  import opened Definitions
  import opened Registry
  import opened Payload
  import opened PayloadLaws
  import opened Packets
  import opened Receiver
  import opened CrashLaws
  import opened UsbLink
  import opened EndToEnd

  /** One parsed definition file. */
  datatype File = File(name: string, settings: bool, singleInstance: bool, fields: seq<FieldDefinition>)

  ghost function DefinitionOf(file: File): Outcome<Definition>
    requires Parsed(file.fields)
  {
    NewDefinition(file.name, file.settings, file.singleInstance, file.fields)
  }

  predicate AllParsed(files: seq<File>) {
    forall i :: 0 <= i < |files| ==> Parsed(files[i].fields)
  }

  /** The objects of all files, or the outcome of the first file that does not load. */
  ghost function Bases(files: seq<File>): Outcome<seq<Definition>>
    requires AllParsed(files)
  {
    if |files| == 0 then Ok([])
    else
      match Bases(files[..|files| - 1])
      case Error => Error
      case Panic => Panic
      case Ok(front) =>
        match DefinitionOf(files[|files| - 1])
        case Error => Error
        case Panic => Panic
        case Ok(last) => Ok(front + [last])
  }

  lemma {:induction false} BaseOf(files: seq<File>, i: nat)
    requires AllParsed(files) && Bases(files).Ok? && i < |files|
    ensures |Bases(files).value| == |files| && DefinitionOf(files[i]) == Ok(Bases(files).value[i])
  {
    hide DefinitionOf;
    var front := files[..|files| - 1];
    if |front| > 0 {
      BaseOf(front, if i < |front| then i else 0);
    }
  }

  lemma {:induction false} FirstFailureDecides(files: seq<File>, n: nat)
    requires AllParsed(files) && n <= |files| && !Bases(files[..n]).Ok?
    ensures Bases(files) == Bases(files[..n])
    decreases |files|
  {
    hide DefinitionOf;
    if n < |files| {
      assert files[..|files| - 1][..n] == files[..n];
      FirstFailureDecides(files[..|files| - 1], n);
    } else {
      assert files[..n] == files;
    }
  }

  lemma LoadedSnoc(bases: seq<Definition>, d: Definition)
    ensures Loaded(bases + [d]) == Loaded(bases) + [d, Meta(d)]
  {
    hide Meta;
    assert (bases + [d])[..|bases|] == bases;
  }

  /** Loads every file in order, each object followed by its metadata object. */
  method LoadAll(files: seq<File>) returns (r: Outcome<seq<Definition>>)
    requires AllParsed(files)
    ensures match Bases(files)
            case Error => r == Error
            case Panic => r == Panic
            case Ok(bases) => r == Ok(Loaded(bases))
  {
    hide NewDefinition, Loaded;
    ghost var bases: seq<Definition> := [];
    var all: seq<Definition> := [];
    assert Loaded(bases) == [];
    for i := 0 to |files|
      invariant Bases(files[..i]) == Ok(bases) && all == Loaded(bases)
    {
      var raw := files[i].fields;
      var fields := new FieldDefinition[|raw|](k requires 0 <= k < |raw| => raw[k]);
      assert fields[..] == raw;
      var d := LoadDefinition(files[i].name, files[i].settings, files[i].singleInstance, fields);
      assert files[..i + 1][..i] == files[..i];
      if !d.Ok? {
        FirstFailureDecides(files, i + 1);
        return if d.Panic? then Panic else Error;
      }
      LoadedSnoc(bases, d.value);
      bases := bases + [d.value];
      all := all + [d.value, Meta(d.value)];
    }
    assert files[..|files|] == files;
    return Ok(all);
  }

  // --------------------------------------------------- what processing guarantees

  /** Every field takes its shape from one that names its elements or does not declare a negative number of them. */
  ghost predicate CountsElements(raw: seq<FieldDefinition>)
    requires TargetsExist(raw) && AllResolve(raw)
  {
    forall k :: 0 <= k < |raw| ==> HasElementNames(raw[Root(raw, k)]) || raw[Root(raw, k)].elements >= 0
  }

  lemma SetupFields(raw: seq<FieldDefinition>)
    requires Parsed(raw) && Setup(raw).Ok? && Setup(raw).value.Sorted?
    ensures TypesKnown(raw) && TargetsExist(raw) && AllResolve(raw)
    ensures forall k :: 0 <= k < |raw| ==> Processed(raw)[k].typeInfo.Some?
    ensures Setup(raw).value.fields == BySize(AllFinished(Processed(raw)))
  {
    hide Processed, BySize, Resolves, TypesKnown, TargetsExist;
    if TypesKnown(raw) && TargetsExist(raw) {
      TypedWhenResolved(raw);
    }
  }

  /** The sorted fields are exactly the given ones. */
  lemma SortKeepsFields(fields: seq<Field>, f: Field)
    ensures f in BySize(fields) <==> f in fields
  {
    hide BySize;
    BySizePermutes(fields);
    assert f in multiset(BySize(fields)) <==> f in multiset(fields);
  }

  /**
    The codec can rely on a loaded layout, each field having at least one
    element and none or all of them named, exactly when no field takes its shape
    from one with a negative count.
   */
  lemma SetupWellFormed(raw: seq<FieldDefinition>)
    requires Parsed(raw) && Setup(raw).Ok? && Setup(raw).value.Sorted?
    ensures TargetsExist(raw) && AllResolve(raw)
    ensures AllWellFormed(Setup(raw).value.fields) <==> CountsElements(raw)
  {
    SetupFields(raw);
    hide Processed, BySize, Resolves, TypesKnown, TargetsExist, Setup, Root, HasElementNames;
    var finished := AllFinished(Processed(raw));
    var sorted := BySize(finished);
    forall k: nat | k < |raw|
      ensures WellFormed(finished[k]) <==> (HasElementNames(raw[Root(raw, k)]) || raw[Root(raw, k)].elements >= 0)
    {
      FieldProcessCounts(raw, k);
    }
    hide WellFormed;
    if AllWellFormed(sorted) {
      forall k: nat | k < |raw|
        ensures WellFormed(finished[k])
      {
        SortKeepsFields(finished, finished[k]);
      }
    }
    if CountsElements(raw) {
      forall i: nat | i < |sorted|
        ensures WellFormed(sorted[i])
      {
        SortKeepsFields(finished, sorted[i]);
      }
    }
  }

  lemma TwiceInMultiset<T>(s: seq<T>, i: nat, j: nat)
    requires i < j < |s| && s[i] == s[j]
    ensures multiset(s)[s[i]] >= 2
  {
    var (a, b) := (s[..j], s[j..]);
    assert s == a + b && a[i] == s[i] && b[0] == s[i];
    assert s[i] in multiset(a) && s[i] in multiset(b);
  }

  lemma {:induction false} OnceInMultiset(s: seq<Field>, i: nat)
    requires DistinctFieldNames(s) && i < |s|
    ensures multiset(s)[s[i]] == 1
  {
    var (front, last) := (s[..|s| - 1], s[|s| - 1]);
    assert s == front + [last];
    if i < |front| {
      OnceInMultiset(front, i);
    } else {
      assert last !in front;
    }
  }

  /** Sorting a layout with distinct names leaves them distinct. */
  lemma SortKeepsDistinct(fields: seq<Field>)
    requires DistinctFieldNames(fields)
    ensures DistinctFieldNames(BySize(fields))
  {
    hide BySize;
    var sorted := BySize(fields);
    BySizePermutes(fields);
    forall i: nat, j: nat | i < j < |sorted|
      ensures sorted[i].name != sorted[j].name
    {
      SortKeepsFields(fields, sorted[i]);
      SortKeepsFields(fields, sorted[j]);
      if sorted[i].name == sorted[j].name {
        assert sorted[i] == sorted[j];
        TwiceInMultiset(sorted, i, j);
        var k: nat :| k < |fields| && fields[k] == sorted[i];
        OnceInMultiset(fields, k);
      }
    }
  }

  lemma SetupDistinct(raw: seq<FieldDefinition>)
    requires Parsed(raw) && Setup(raw).Ok? && Setup(raw).value.Sorted? && DistinctNames(raw)
    ensures DistinctFieldNames(Setup(raw).value.fields)
  {
    SetupFields(raw);
    hide Processed, BySize, Resolves, TypesKnown, TargetsExist, Setup, Root;
    var finished := AllFinished(Processed(raw));
    forall k: nat | k < |raw|
      ensures finished[k].name == raw[k].name
    {
      FieldProcessResolves(raw, k);
    }
    SortKeepsDistinct(finished);
  }

  // -------------------------------------------------------- a loaded registry

  lemma BaseIDIsEven(file: File)
    requires Parsed(file.fields) && DefinitionOf(file).Ok?
    ensures DefinitionOf(file).value.objectID % 2 == 0
    ensures Setup(file.fields).Ok? && Setup(file.fields).value.Sorted?
    ensures DefinitionOf(file).value.fields == Setup(file.fields).value.fields
  {
    hide Setup, DefinitionHash;
  }

  /** The IDs of loaded objects are even, so those of metadata objects are odd and never the same. */
  lemma LoadedBases(files: seq<File>)
    requires AllParsed(files) && Bases(files).Ok?
    ensures BaseIDs(Bases(files).value)
  {
    hide Bases, DefinitionOf;
    var bases := Bases(files).value;
    if |files| > 0 {
      forall i: nat | i < |bases|
        ensures bases[i].objectID % 2 == 0
      {
        BaseOf(files, 0);
        BaseOf(files, i);
        BaseIDIsEven(files[i]);
      }
    } else {
      NoFiles(files);
    }
  }

  lemma NoFiles(files: seq<File>)
    requires |files| == 0
    ensures Bases(files) == Ok([])
  {
  }

  /** Looking up a loaded object by its ID finds it, when the base IDs are distinct. */
  lemma LookupFinds(bases: seq<Definition>, d: Definition)
    requires BaseIDs(bases) && DistinctIDs(bases) && d in Loaded(bases)
    ensures Lookup(Loaded(bases), d.objectID) == Ok(d)
  {
    hide Loaded, IndexOfID, Meta;
    LookupExact(bases);
    var i: nat :| i < |Loaded(bases)| && Loaded(bases)[i] == d;
    assert IndexOfID(Loaded(bases), Loaded(bases)[i].objectID) == i;
  }

  /** A file that loads, with distinct field names and no negative count. */
  ghost predicate Sound(file: File)
    requires Parsed(file.fields)
  {
    var raw := file.fields;
    DefinitionOf(file).Ok? && DistinctNames(raw) && TargetsExist(raw) && AllResolve(raw) && CountsElements(raw)
  }

  lemma SoundFields(file: File)
    requires Parsed(file.fields) && Sound(file)
    ensures AllWellFormed(DefinitionOf(file).value.fields) && DistinctFieldNames(DefinitionOf(file).value.fields)
  {
    hide Setup, DefinitionOf, CountsElements, DistinctNames, TargetsExist, AllResolve;
    BaseIDIsEven(file);
    SetupWellFormed(file.fields);
    SetupDistinct(file.fields);
  }

  /** The files of a registry that works: all sound, and no two objects with the same ID. */
  ghost predicate SoundRegistry(files: seq<File>) {
    && AllParsed(files)
    && (forall i :: 0 <= i < |files| ==> Sound(files[i]))
    && Bases(files).Ok?
    && DistinctIDs(Bases(files).value)
  }

  /** Every loaded layout, those of metadata objects included, is one the codec can rely on. */
  lemma LoadedFields(files: seq<File>, d: Definition)
    requires SoundRegistry(files) && d in Loaded(Bases(files).value)
    ensures AllWellFormed(d.fields) && DistinctFieldNames(d.fields)
  {
    hide Bases, Sound, DefinitionOf, AllWellFormed, DistinctFieldNames;
    var bases := Bases(files).value;
    var i: nat :| i < |Loaded(bases)| && Loaded(bases)[i] == d;
    if i % 2 == 1 {
      assert d == Meta(bases[i / 2]) by {
        assert i == 2 * (i / 2) + 1;
      }
      MetaFieldsSound();
    } else if |files| == 0 {
      NoFiles(files);
    } else {
      assert i == 2 * (i / 2);
      BaseOf(files, 0);
      BaseOf(files, i / 2);
      SoundFields(files[i / 2]);
    }
  }

  lemma MetaFieldsSound()
    ensures AllWellFormed(MetaFields()) && DistinctFieldNames(MetaFields())
  {
    hide MetaFields;
    var fields := MetaFields();
    assert |fields[0].name| == 5 && |fields[1].name| == 12;
    assert fields[2].name[6] == 'G' && fields[3].name[6] == 'L';
  }

  /** The registry of sound files is one for which it is known which frames crash the process. */
  lemma LoadedUsable(files: seq<File>)
    requires SoundRegistry(files)
    ensures UsableRegistry(Loaded(Bases(files).value))
  {
    hide Bases, Sound, Loaded, AllWellFormed, DistinctIDs;
    var all := Loaded(Bases(files).value);
    forall i: nat | i < |all|
      ensures AllWellFormed(all[i].fields)
    {
      LoadedFields(files, all[i]);
    }
  }

  /** What the application may ask for: a loaded object, one of the five commands, matching data. */
  predicate Askable(all: seq<Definition>, m: Message) {
    && m.definition in all
    && m.cmd <= OBJECT_NACK
    && m.instanceID < 0x1_0000
    && (m.definition.singleInstance ==> m.instanceID == 0)
    && (if CarriesData(m.cmd) then MapTyped(m.definition.fields, m.data) else m.data == map[])
  }

  /** Everything that may be asked for on a registry loaded from sound files can be sent. */
  lemma LoadedSendable(files: seq<File>, m: Message)
    requires SoundRegistry(files) && Askable(Loaded(Bases(files).value), m)
    ensures Sendable(Loaded(Bases(files).value), m)
  {
    hide Bases, Sound, Loaded, AllWellFormed, DistinctFieldNames, MapTyped, Lookup, DistinctIDs;
    LoadedBases(files);
    LookupFinds(Bases(files).value, m.definition);
    LoadedFields(files, m.definition);
  }

  predicate AllAskable(all: seq<Definition>, messages: seq<Message>) {
    forall i :: 0 <= i < |messages| ==> Askable(all, messages[i]) && FullLength(messages[i]) < 0x1_0000
  }

  lemma AllLoadedTransmittable(files: seq<File>, limit: nat, messages: seq<Message>)
    requires SoundRegistry(files) && AllAskable(Loaded(Bases(files).value), messages)
    requires IsMaxObjectLength(Loaded(Bases(files).value), limit)
    ensures AllTransmittable(Loaded(Bases(files).value), limit, messages)
    ensures AllSendable(Loaded(Bases(files).value), messages)
  {
    hide Bases, Sound, Loaded, Askable, Sendable, FullLength, IsMaxObjectLength, Transmittable;
    var all := Loaded(Bases(files).value);
    forall i: nat | i < |messages|
      ensures Transmittable(all, limit, messages[i]) && Sendable(all, messages[i])
    {
      LoadedSendable(files, messages[i]);
      LimitSuffices(all, limit, messages[i]);
    }
  }

  /** The registry of sound files accepts every message that may be asked for. */
  lemma AllLoadedSendable(files: seq<File>, messages: seq<Message>)
    requires SoundRegistry(files) && AllAskable(Loaded(Bases(files).value), messages)
    ensures AllSendable(Loaded(Bases(files).value), messages)
  {
    hide Bases, Sound, Loaded, Askable, Sendable, FullLength;
    forall i: nat | i < |messages|
      ensures Sendable(Loaded(Bases(files).value), messages[i])
    {
      LoadedSendable(files, messages[i]);
    }
  }

  /**
    From definition files to delivered messages: load the files, compute the
    length limit, send and receive.  Every message that may be asked for and
    fits a packet arrives, in order, with nothing added.
   */
  method LoadAndTransfer(files: seq<File>, messages: seq<Message>, link: Link) returns (reader: FrameReader)
    requires SoundRegistry(files) && AllAskable(Loaded(Bases(files).value), messages)
    requires link.Valid() && link.cc.reports == []
    requires (AllLoadedSendable(files, messages);
              var reports := AllReports(link.fixedLengthWriteBuffer[..], Loaded(Bases(files).value), messages);
              link.cc.writesLeft >= |reports|)
    modifies link.cc, link.fixedLengthWriteBuffer
    ensures AllDelivered(messages, reader.out) && !reader.crashed && reader.buffer == []
  {
    hide Bases, Sound, Loaded, AllAskable, AllSendable, AllTransmittable, AllReports, AllDelivered, IsMaxObjectLength,
         DistinctIDs;
    var all := LoadAll(files);
    var limit := MaxObjectLength(all.value);
    AllLoadedTransmittable(files, limit, messages);
    reader := Transfer(all.value, limit, messages, link);
  }
}
