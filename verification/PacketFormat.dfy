/**
  The UAVTalk wire format in numbers: what every byte of a sent packet is, down
  to each element of each field, and which bytes the deframer takes for a frame
  (uavtalk/uavtalk.go, uavtalk/maptouavtalk.go).
 */
module PacketFormat {
  import opened Bytes
  import opened Crc8
  import opened Outcomes
  import opened Schema
  import opened Layout
  import opened Definitions
  import opened Registry
  import opened Payload
  import opened PayloadLaws
  import opened Packets
  import opened Deframer

  // -------------------------------------------------------------------- payload

  /** The elements of a field's value, in the order of its names if it has any. */
  function ElementsOf(f: Field, v: Value): (items: seq<Value>)
    requires WellFormed(f) && FieldTyped(f, v)
    ensures |items| == f.elements
  {
    if f.elements == 1 then [v]
    else if f.elementNames == [] then v.items
    else seq(f.elements, j requires 0 <= j < f.elements => v.entries[f.elementNames[j]])
  }

  /** One, two or four bytes as a number, lowest byte first. */
  function Weight(s: seq<byte>): int {
    if |s| == 1 then s[0]
    else if |s| == 2 then Weigh2(s[1], s[0])
    else if |s| == 4 then Weigh4(s[3], s[2], s[1], s[0])
    else 0
  }

  function Values(size: nat): (n: nat)
    ensures n > 0
  {
    if size == 1 then 256 else if size == 2 then 65536 else 0x1_0000_0000
  }

  /** The bytes of one element: an integer or the bits of a float, lowest byte first, or an option's place. */
  predicate IsElement(s: seq<byte>, f: Field, v: Value) {
    && |s| == f.Size()
    && if f.kind == Enum
       then v.Text? && s[0] < |f.options| && f.options[s[0]] == v.text && v.text !in f.options[..s[0]]
       else v.Number? && Weight(s) == if f.kind == Float then v.single else v.trunc % Values(|s|)
  }

  lemma ElementFormat(f: Field, v: Value)
    requires ScalarTyped(f, v)
    ensures ScalarBytes(f, v).Ok? && IsElement(ScalarBytes(f, v).value, f, v)
  {
    hide Weight, NumberBytes;
    if f.kind == Enum {
      var i := OptionIndex(f.options, v.text);
      assert i < |f.options| <= 256;
    } else {
      NumberFormat(f.kind, v.trunc, v.single);
    }
  }

  lemma NumberFormat(kind: FieldType, trunc: int, single: uint32)
    requires kind != Enum
    ensures var s := NumberBytes(kind, trunc, single);
            |s| == kind.Size() && Weight(s) == if kind == Float then single else trunc % Values(|s|)
  {
    hide Le16, Le32, FromLe16, FromLe32;
    var s := NumberBytes(kind, trunc, single);
    if |s| == 2 {
      Le16Weights(s);
    } else if |s| == 4 {
      Le32Weights(s);
    }
  }

  /** The element is in `b` from position `at` on. */
  predicate HasElement(b: seq<byte>, at: int, f: Field, v: Value) {
    0 <= at <= at + f.Size() <= |b| && IsElement(b[at..at + f.Size()], f, v)
  }

  lemma ElementStays(pre: seq<byte>, b: seq<byte>, post: seq<byte>, at: int, f: Field, v: Value)
    requires HasElement(b, at, f, v)
    ensures HasElement(pre + b + post, |pre| + at, f, v)
  {
    hide IsElement, Field.Size;
    var (s, n) := (pre + b + post, f.Size());
    assert s[|pre| + at..|pre| + at + n] == b[at..at + n];
  }

  lemma {:induction false} ItemPlace(f: Field, items: seq<Value>, j: nat)
    requires ItemsTyped(f, items) && j < |items|
    ensures ItemsBytes(f, items).Ok? && HasElement(ItemsBytes(f, items).value, f.Size() * j, f, items[j])
  {
    hide ScalarBytes, ScalarTyped, IsElement, Field.Size;
    var (front, last) := (items[..|items| - 1], items[|items| - 1]);
    ItemsEncode(f, items);
    ItemsEncode(f, front);
    ElementFormat(f, last);
    var (a, b) := (ItemsBytes(f, front).value, ScalarBytes(f, last).value);
    assert ItemsBytes(f, items).value == a + b;
    if j < |front| {
      ItemPlace(f, front, j);
      ElementStays([], a, b, f.Size() * j, f, items[j]);
      assert [] + a + b == a + b;
    } else {
      ElementSize(b, f, last);
      assert (a + b)[|a|..|a| + |b|] == b;
    }
  }

  lemma ElementSize(s: seq<byte>, f: Field, v: Value)
    requires IsElement(s, f, v)
    ensures |s| == f.Size()
  {
  }

  lemma OneItem(f: Field, v: Value)
    requires ScalarTyped(f, v)
    ensures ItemsBytes(f, [v]) == ScalarBytes(f, v)
  {
    hide ScalarBytes;
    ScalarRoundTrip(f, v);
    var b := ScalarBytes(f, v).value;
    assert [v][..0] == [] && [] + b == b;
  }

  lemma FieldIsItems(f: Field, v: Value)
    requires WellFormed(f) && FieldTyped(f, v)
    ensures ItemsTyped(f, ElementsOf(f, v)) && FieldBytes(f, v) == ItemsBytes(f, ElementsOf(f, v))
  {
    hide ScalarBytes, ScalarTyped, ItemsBytes;
    if f.elements == 1 {
      OneItem(f, v);
    } else if f.elementNames != [] {
      assert ElementsOf(f, v) == Entries(v.entries, f.elementNames);
    }
  }

  lemma MapBytesSnoc(front: seq<Field>, last: Field, data: map<string, Value>)
    requires AllWellFormed(front + [last]) && MapTyped(front + [last], data)
    ensures MapBytes(front, data).Ok? && |MapBytes(front, data).value| == ByteLength(front)
    ensures FieldBytes(last, Entry(data, last.name)).Ok?
    ensures MapBytes(front + [last], data)
         == Ok(MapBytes(front, data).value + FieldBytes(last, Entry(data, last.name)).value)
  {
    hide FieldBytes, WellFormed, FieldTyped;
    var fields := front + [last];
    assert fields[..|front|] == front && fields[|front|] == last;
    assert forall i :: 0 <= i < |front| ==> fields[i] == front[i];
    FieldsEncode(front, data);
    FieldRoundTrip(last, Entry(data, last.name), [], []);
  }

  /**
    Where every element of the data is in the payload: behind all earlier fields
    and the earlier elements of its own.
   */
  lemma {:induction false} PayloadFormat(fields: seq<Field>, data: map<string, Value>, i: nat, j: nat)
    requires AllWellFormed(fields) && MapTyped(fields, data) && i < |fields| && j < fields[i].elements
    ensures MapBytes(fields, data).Ok?
    ensures var (f, s) := (fields[i], MapBytes(fields, data).value);
            HasElement(s, ByteLength(fields[..i]) + f.Size() * j, f, ElementsOf(f, Entry(data, f.name))[j])
    decreases |fields|
  {
    hide MapBytes, FieldBytes, FieldTyped, WellFormed, ByteLength, HasElement, ElementsOf, Field.Size, ItemsBytes;
    var (f, front, last) := (fields[i], fields[..|fields| - 1], fields[|fields| - 1]);
    assert fields == front + [last];
    MapBytesSnoc(front, last, data);
    var (a, b) := (MapBytes(front, data).value, FieldBytes(last, Entry(data, last.name)).value);
    if i < |front| {
      assert fields[..i] == front[..i];
      PayloadFormat(front, data, i, j);
      ElementStays([], a, b, ByteLength(fields[..i]) + f.Size() * j, f, ElementsOf(f, Entry(data, f.name))[j]);
      assert [] + a + b == a + b;
    } else {
      var v := Entry(data, last.name);
      FieldIsItems(last, v);
      ItemPlace(last, ElementsOf(last, v), j);
      ElementStays(a, b, [], f.Size() * j, f, ElementsOf(f, v)[j]);
      assert a + b + [] == a + b;
    }
  }

  // -------------------------------------------------------------------- packets

  /** The sync byte, the command, the length, the object ID and, for all but single instances, the instance ID. */
  predicate IsHeader(b: seq<byte>, d: Definition, cmd: byte, length: nat, instanceID: nat) {
    && |b| == (if d.singleInstance then 8 else 10)
    && b[0] == 0x3c
    && b[1] == 32 + cmd
    && Weigh2(b[3], b[2]) == length
    && Weigh4(b[7], b[6], b[5], b[4]) == d.objectID
    && (|b| == 10 ==> Weigh2(b[9], b[8]) == instanceID)
  }

  lemma HeaderFormat(p: Packet)
    requires Encodable(p) && p.cmd < 32
    ensures IsHeader(Header(p), p.definition, p.cmd, p.length, p.instanceID)
  {
    hide Le16, Le32, FromLe16, FromLe32;
    var h := Header(p);
    HeaderFields(p, []);
    assert h + [] == h;
    Le16Weights(h[2..4]);
    Le32Weights(h[4..8]);
    if |h| == 10 {
      Le16Weights(h[8..10]);
    }
  }

  /**
    Every byte of a sent packet: the header; for the commands 0 and 2 the
    payload, nothing for the others; and the CRC-8 of all that, bit by bit.
   */
  lemma PacketBytes(all: seq<Definition>, m: Message)
    requires Sendable(all, m)
    ensures var (b, d, h) := (Wire(all, m), m.definition, if m.definition.singleInstance then 8 else 10);
            && |b| > h
            && IsHeader(b[..h], d, m.cmd, (|b| - 1) % 65536, m.instanceID)
            && (if m.cmd == 0 || m.cmd == 2 then MapBytes(d.fields, m.data) == Ok(b[h..|b| - 1]) else |b| == h + 1)
            && b[|b| - 1] == CrcBits(0, MessageBits(b[..|b| - 1]))
  {
    hide Crc, CrcBits, MessageBits, Header, IsHeader, MapBytes, Sendable;
    SendableEncodes(all, m);
    SendableCommand(all, m);
    var (p, b) := (m.Packet(), Wire(all, m));
    var (h, body) := (Header(p), Body(p).value);
    HeaderFormat(p);
    assert b == h + body + [Crc(0, h + body)];
    assert b[..|b| - 1] == h + body && b[..|h|] == h && b[|h|..|b| - 1] == body;
    CrcIsBitSerial(0, h + body);
  }

  /** Any known object can be asked for, acknowledged and refused: the commands 1, 3 and 4 carry nothing. */
  lemma BareCommands(all: seq<Definition>, d: Definition, cmd: byte, instanceID: nat)
    requires Lookup(all, d.objectID) == Ok(d) && cmd in {1, 3, 4}
    requires if d.singleInstance then instanceID == 0 else instanceID < 65536
    ensures var m := Message(d, cmd, instanceID, map[]);
            && Sendable(all, m)
            && IsHeader(Wire(all, m)[..|Wire(all, m)| - 1], d, cmd, if d.singleInstance then 8 else 10, instanceID)
  {
    hide IsHeader, CrcBits, MessageBits, Sendable, Wire, MapBytes;
    var m := Message(d, cmd, instanceID, map[]);
    BareIsSendable(all, d, cmd, instanceID);
    PacketBytes(all, m);
    var (b, h) := (Wire(all, m), if d.singleInstance then 8 else 10);
    assert |b| == h + 1 && (|b| - 1) % 65536 == h;
  }

  lemma BareIsSendable(all: seq<Definition>, d: Definition, cmd: byte, instanceID: nat)
    requires Lookup(all, d.objectID) == Ok(d) && cmd in {1, 3, 4}
    requires if d.singleInstance then instanceID == 0 else instanceID < 65536
    ensures Sendable(all, Message(d, cmd, instanceID, map[]))
  {
    hide Lookup;
  }

  /** What a decoded packet takes from the header bytes; bit 5 of the command byte is flipped. */
  lemma DecodedFormat(all: seq<Definition>, view: seq<byte>, len: nat)
    requires len <= |view| && Decoded(all, view, len).Ok?
    ensures var (p, h) := (Decoded(all, view, len).value, 8);
            && |view| >= h && p.definition in all
            && p.definition.objectID == Weigh4(view[7], view[6], view[5], view[4])
            && p.cmd == (if view[1] % 64 >= 32 then view[1] - 32 else view[1] + 32)
            && p.length == Weigh2(view[3], view[2])
            && (p.definition.singleInstance ==> p.instanceID == 0)
            && (!p.definition.singleInstance ==> |view| >= 10 && p.instanceID == Weigh2(view[9], view[8]))
  {
    hide ReadMap, FromLe16, FromLe32;
    Le16Weights(view[2..4]);
    Le32Weights(view[4..8]);
    if |view| >= 10 {
      Le16Weights(view[8..10]);
    }
  }

  lemma SendableCommand(all: seq<Definition>, m: Message)
    requires Sendable(all, m)
    ensures m.cmd < 32
  {
  }

  // ------------------------------------------------------------------- scanning

  /** A frame may start here: 0x3c, eight bytes, a length of at most ten more than the longest object. */
  predicate MayStart(b: seq<byte>, limit: nat, i: nat) {
    i + 8 <= |b| && b[i] == 0x3c && Weigh2(b[i + 3], b[i + 2]) <= limit + 10
  }

  lemma CandidateFormat(b: seq<byte>, limit: nat, i: nat)
    ensures IsCandidate(b, limit, i) <==> MayStart(b, limit, i)
    ensures i + 8 <= |b| ==> LengthAt(b, i) == Weigh2(b[i + 3], b[i + 2])
  {
    hide FromLe16;
    if i + 8 <= |b| {
      Le16Weights(b[i + 2..i + 4]);
    }
  }

  /**
    What the scan finds, for every buffer: it settles on the first place where a
    frame may start, waits for as many bytes as are announced there and one
    more, and judges them by the CRC-8 of all but the last.
   */
  lemma ScanFormat(b: seq<byte>, limit: nat, i: nat)
    requires MayStart(b, limit, i) && forall k :: 0 <= k < i ==> !MayStart(b, limit, k)
    ensures var to := i + Weigh2(b[i + 3], b[i + 2]) + 1;
            Scanned(b, limit)
            == if to > |b| then NeedMore
               else Frame(b[to - 1] == CrcBits(0, MessageBits(b[i..to - 1])), i, to)
  {
    hide Crc, CrcBits, MessageBits, FirstCandidate, MayStart, IsCandidate, LengthAt;
    forall k: nat | k <= i
      ensures IsCandidate(b, limit, k) <==> MayStart(b, limit, k)
    {
      CandidateFormat(b, limit, k);
    }
    FirstCandidateIs(b, limit, 0, i);
    JudgedBySerialCrc(b, limit, i);
  }

  lemma JudgedBySerialCrc(b: seq<byte>, limit: nat, i: nat)
    requires MayStart(b, limit, i)
    ensures var to := i + Weigh2(b[i + 3], b[i + 2]) + 1;
            ScanAt(b, i)
            == if to > |b| then NeedMore
               else Frame(b[to - 1] == CrcBits(0, MessageBits(b[i..to - 1])), i, to)
  {
    hide Crc, CrcBits, MessageBits, LengthAt;
    CandidateFormat(b, limit, i);
    var to := i + Weigh2(b[i + 3], b[i + 2]) + 1;
    if to <= |b| {
      var f := b[i..to];
      assert f[|f| - 1] == b[to - 1] && f[..|f| - 1] == b[i..to - 1];
      CrcIsBitSerial(0, b[i..to - 1]);
    }
  }

  lemma ScanFindsNothing(b: seq<byte>, limit: nat)
    requires forall k :: 0 <= k < |b| ==> !MayStart(b, limit, k)
    ensures Scanned(b, limit) == NeedMore
  {
    hide FirstCandidate, MayStart, IsCandidate, ScanAt;
    forall k: nat | k < |b|
      ensures !IsCandidate(b, limit, k)
    {
      CandidateFormat(b, limit, k);
    }
    NoCandidate(b, limit, 0);
  }

  /** A whole frame in numbers: 0x3c, its length, and the CRC-8 of all before it at the end. */
  predicate IsWholeFrame(f: seq<byte>, limit: nat) {
    && |f| > 8 && f[0] == 0x3c
    && Weigh2(f[3], f[2]) == |f| - 1 <= limit + 10
    && f[|f| - 1] == CrcBits(0, MessageBits(f[..|f| - 1]))
  }

  /** A whole frame is found behind bytes without 0x3c, whatever comes after it. */
  lemma FrameIsFound(garbage: seq<byte>, f: seq<byte>, rest: seq<byte>, limit: nat)
    requires 0x3c !in garbage && IsWholeFrame(f, limit)
    ensures Scanned(garbage + f + rest, limit) == Frame(true, |garbage|, |garbage| + |f|)
  {
    hide Scanned, CrcBits, MessageBits, Weigh2;
    var (s, g) := (garbage + f + rest, |garbage|);
    assert s[g] == f[0] && s[g + 2] == f[2] && s[g + 3] == f[3] && s[g + |f| - 1] == f[|f| - 1];
    assert forall k :: 0 <= k < g ==> s[k] == garbage[k];
    assert s[g..g + |f| - 1] == f[..|f| - 1];
    ScanFormat(s, limit, g);
  }

  /** Every sent packet whose length fits 16 bits and the limit is such a frame. */
  lemma PacketIsWholeFrame(all: seq<Definition>, m: Message, limit: nat)
    requires Sendable(all, m) && FullLength(m) < 65536 && FullLength(m) <= limit + 10
    ensures IsWholeFrame(Wire(all, m), limit)
  {
    hide Sendable, Wire, FullLength, CrcBits, MessageBits, MapBytes;
    PacketBytes(all, m);
    WireLength(all, m);
  }
}
