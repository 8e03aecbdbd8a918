/**
  UAVTalk packets: sync byte, command, length, object ID, optional instance ID,
  payload and checksum (uavtalk/uavtalk.go).
 */
module Packets {
  import opened Bytes
  import opened Crc8
  import opened Outcomes
  import opened Schema
  import opened Layout
  import opened Definitions
  import opened Registry
  import opened Payload
  import opened PayloadLaws

  const SYNC: byte := 0x3c

  const OBJECT_CMD: byte := 0
  const OBJECT_CMD_WITH_ACK: byte := 2
  const OBJECT_NACK: byte := 4

  datatype Packet = Packet(definition: Definition, cmd: byte, length: nat, instanceID: nat, data: map<string, Value>)

  /** The commands that carry a payload. */
  predicate CarriesData(cmd: byte) {
    cmd == OBJECT_CMD || cmd == OBJECT_CMD_WITH_ACK
  }

  /** cmd | 0x20 */
  function WithVersion(cmd: byte): byte {
    if cmd / 32 % 2 == 1 then cmd else cmd + 32
  }

  /** b ^ 0x20 */
  function FlipVersion(b: byte): byte {
    if b / 32 % 2 == 1 then b - 32 else b + 32
  }

  /** A command survives the version bit exactly when it does not use that bit itself. */
  lemma VersionRoundTrip(cmd: byte)
    ensures FlipVersion(WithVersion(cmd)) == cmd <==> cmd / 32 % 2 == 0
  {
  }

  /** The announced length is computed without looking at the data, and wraps at 16 bits. */
  function NewPacket(d: Definition, cmd: byte, instanceID: nat, data: map<string, Value>): Packet {
    var fieldsLength := if CarriesData(cmd) then ByteLength(d.fields) else 0;
    Packet(d, cmd, (HeaderLength(d) + fieldsLength) % 0x1_0000, instanceID, data)
  }

  predicate Encodable(p: Packet) {
    p.length < 0x1_0000 && p.instanceID < 0x1_0000
  }

  function Header(p: Packet): (h: seq<byte>)
    requires Encodable(p)
    ensures |h| == HeaderLength(p.definition)
  {
    [SYNC, WithVersion(p.cmd)] + Le16(p.length) + Le32(p.definition.objectID)
    + if p.definition.singleInstance then [] else Le16(p.instanceID)
  }

  function Body(p: Packet): Outcome<seq<byte>> {
    if CarriesData(p.cmd) then MapBytes(p.definition.fields, p.data) else Ok([])
  }

  function Checked(s: seq<byte>): seq<byte> {
    s + [Crc(0, s)]
  }

  function Encoded(p: Packet): Outcome<seq<byte>>
    requires Encodable(p)
  {
    if Body(p).Ok? then Ok(Checked(Header(p) + Body(p).value)) else Error
  }

  method ToBinary(p: Packet) returns (r: Outcome<seq<byte>>)
    requires Encodable(p)
    ensures r == Encoded(p)
  {
    hide Crc, MapBytes;
    var writer: seq<byte> := [SYNC];
    writer := writer + [WithVersion(p.cmd)];
    writer := writer + Le16(p.length);
    writer := writer + Le32(p.definition.objectID);
    if !p.definition.singleInstance {
      writer := writer + Le16(p.instanceID);
    }
    assert writer == Header(p);
    if CarriesData(p.cmd) {
      var data := MapToUAVTalk(p.definition.fields, p.data);
      if !data.Ok? {
        return Error;
      }
      writer := writer + data.value;
    }
    assert writer == Header(p) + Body(p).value;
    var cks := ComputeCrc8(0, writer);
    writer := writer + [cks];
    return Ok(writer);
  }

  // ----------------------------------------------------------------- decoding

  /**
    Decodes the first `len` bytes of `view`.  The slice that Go passes can be
    re-sliced up to its capacity, so the object ID of a frame that is shorter
    than its header is read from the buffered bytes behind the frame; only the
    payload slice is bounded by `len`, and panics when the header does not fit.
    `view` is the slice up to its capacity.
   */
  function Decoded(all: seq<Definition>, view: seq<byte>, len: nat): Outcome<Packet>
    requires len <= |view|
  {
    if len < 2 || |view| < SHORT_HEADER_LENGTH then Panic
    else
      var cmd := FlipVersion(view[1]);
      var length := FromLe16(view[2..4]);
      match Lookup(all, FromLe32(view[4..8]))
      case Error => Error
      case Panic => Panic
      case Ok(d) =>
        if len - 1 < HeaderLength(d) then Panic
        else
          var instanceID := if d.singleInstance then 0 else FromLe16(view[8..10]);
          if CarriesData(cmd) then
            match ReadMap(d.fields, view[HeaderLength(d)..len - 1])
            case Error => Error
            case Panic => Panic
            case Ok(data) => Ok(Packet(d, cmd, length, instanceID, data))
          else Ok(Packet(d, cmd, length, instanceID, map[]))
  }

  method NewPacketFromBinary(all: seq<Definition>, view: seq<byte>, len: nat) returns (r: Outcome<Packet>)
    requires len <= |view|
    ensures r == Decoded(all, view, len)
  {
    hide ReadMap, Lookup, FromLe16, FromLe32;
    var headerSize := SHORT_HEADER_LENGTH;
    if len < 2 {
      return Panic;
    }
    var cmd := FlipVersion(view[1]);
    if |view| < SHORT_HEADER_LENGTH {
      return Panic;
    }
    var length := FromLe16(view[2..4]);
    var objectID := FromLe32(view[4..8]);
    var found := GetDefinitionForObjectID(all, objectID);
    if !found.Ok? {
      return if found.Panic? then Panic else Error;
    }
    var definition := found.value;
    var instanceID := 0;
    if !definition.singleInstance {
      headerSize := headerSize + 2;
      if len - 1 < headerSize {
        return Panic;
      }
      instanceID := FromLe16(view[8..10]);
    }
    if len - 1 < headerSize {
      return Panic;
    }
    var binaryData := view[headerSize..len - 1];
    var data: map<string, Value> := map[];
    if CarriesData(cmd) {
      var decoded := UAVTalkToMap(definition.fields, binaryData);
      if !decoded.Ok? {
        return if decoded.Panic? then Panic else Error;
      }
      data := decoded.value;
    }
    return Ok(Packet(definition, cmd, length, instanceID, data));
  }

  // --------------------------------------------------------------- round trip

  /** The arguments of `NewPacket`: what the application asks to be sent. */
  datatype Message = Message(definition: Definition, cmd: byte, instanceID: nat, data: map<string, Value>)
  {
    function Packet(): Packet {
      NewPacket(definition, cmd, instanceID, data)
    }
  }

  /** A known object, one of the five commands, matching data. */
  predicate Sendable(all: seq<Definition>, m: Message) {
    && Lookup(all, m.definition.objectID) == Ok(m.definition)
    && m.cmd <= OBJECT_NACK
    && m.instanceID < 0x1_0000
    && (m.definition.singleInstance ==> m.instanceID == 0)
    && (if CarriesData(m.cmd)
        then AllWellFormed(m.definition.fields) && DistinctFieldNames(m.definition.fields)
             && MapTyped(m.definition.fields, m.data)
        else m.data == map[])
  }

  /** The received packet is the sent one, with its data as the decoder returns it. */
  ghost predicate SameMessage(sent: Message, got: Packet) {
    && got.definition == sent.definition
    && got.cmd == sent.cmd
    && got.length == sent.Packet().length
    && got.instanceID == sent.instanceID
    && (if CarriesData(sent.cmd)
        then MapTyped(sent.definition.fields, sent.data) && IsNormalMap(sent.definition.fields, sent.data, got.data)
        else got.data == map[])
  }

  lemma HeaderFields(p: Packet, rest: seq<byte>)
    requires Encodable(p)
    ensures var v := Header(p) + rest;
            && |v| >= 8 && v[0] == SYNC && v[1] == WithVersion(p.cmd)
            && v[2..4] == Le16(p.length)
            && v[4..8] == Le32(p.definition.objectID)
            && (!p.definition.singleInstance ==> |v| >= 10 && v[8..10] == Le16(p.instanceID))
            && v[HeaderLength(p.definition)..] == rest
  {
    hide Le16, Le32;
  }

  lemma SendableEncodes(all: seq<Definition>, m: Message)
    requires Sendable(all, m)
    ensures Encodable(m.Packet()) && Body(m.Packet()).Ok?
    ensures m.Packet().length == (HeaderLength(m.definition) + |Body(m.Packet()).value|) % 0x1_0000
  {
    hide MapBytes, ByteLength, Lookup;
    if CarriesData(m.cmd) {
      FieldsEncode(m.definition.fields, m.data);
    }
  }

  /** The bytes of a sendable message. */
  function Wire(all: seq<Definition>, m: Message): (b: seq<byte>)
    requires Sendable(all, m)
    ensures |b| >= SHORT_HEADER_LENGTH
  {
    SendableEncodes(all, m);
    Encoded(m.Packet()).value
  }

  /** The length of a message before it is cut to 16 bits. */
  function FullLength(m: Message): int {
    HeaderLength(m.definition) + if CarriesData(m.cmd) then ByteLength(m.definition.fields) else 0
  }

  /**
    A sent packet is its announced length and the checksum byte exactly when
    its length fits 16 bits; the announced length never exceeds the real one.
   */
  lemma WireLength(all: seq<Definition>, m: Message)
    requires Sendable(all, m)
    ensures |Wire(all, m)| == FullLength(m) + 1
    ensures m.Packet().length <= FullLength(m)
    ensures CarriesData(m.cmd) ==> FullLength(m) == ObjectLength(m.definition)
    ensures |Wire(all, m)| == m.Packet().length + 1 <==> FullLength(m) < 0x1_0000
  {
    hide Sendable, Wire, ByteLength, Body;
    BodyLength(all, m);
    SendableEncodes(all, m);
    WireSize(all, m);
  }

  /** A single-instance object with one field of `n` bytes. */
  function BytesObject(n: nat): Definition {
    Definition("Bytes", false, true, 2, [Field("data", UInt8, n, [], [])], false)
  }

  function BytesMessage(n: nat): Message {
    Message(BytesObject(n), OBJECT_CMD, 0, map["data" := Array(seq(n, _ => Number(0, 0)))])
  }

  /** From 65528 payload bytes on, a message can be sent whose header announces another length than it has. */
  lemma LongMessageIsMisannounced(n: nat)
    requires n >= 0x1_0000 - SHORT_HEADER_LENGTH
    ensures Sendable([BytesObject(n)], BytesMessage(n))
    ensures |Wire([BytesObject(n)], BytesMessage(n))| != BytesMessage(n).Packet().length + 1
  {
    hide Wire, Encoded, Header;
    var m := BytesMessage(n);
    var fields := m.definition.fields;
    assert fields[..0] == [] && ByteLength(fields) == n;
    assert MapTyped(fields, m.data);
    assert Sendable([BytesObject(n)], m);
    WireLength([BytesObject(n)], m);
  }

  lemma WireSize(all: seq<Definition>, m: Message)
    requires Sendable(all, m)
    ensures Body(m.Packet()).Ok? && |Wire(all, m)| == HeaderLength(m.definition) + |Body(m.Packet()).value| + 1
  {
    hide Sendable, Crc, Body, Header, ByteLength;
    SendableEncodes(all, m);
  }

  lemma BodyLength(all: seq<Definition>, m: Message)
    requires Sendable(all, m)
    ensures Body(m.Packet()).Ok? && HeaderLength(m.definition) + |Body(m.Packet()).value| == FullLength(m)
  {
    hide MapBytes, ByteLength;
    SendableEncodes(all, m);
    if CarriesData(m.cmd) {
      FieldsEncode(m.definition.fields, m.data);
    }
  }

  /** Decoding an encoded packet, whatever is buffered behind it, gives back the message that was sent. */
  lemma PacketRoundTrip(all: seq<Definition>, m: Message, tail: seq<byte>)
    requires Sendable(all, m)
    ensures var r := Decoded(all, Wire(all, m) + tail, |Wire(all, m)|);
            r.Ok? && SameMessage(m, r.value)
  {
    hide Crc, MapBytes, ReadMap, Lookup, Le16, Le32, FromLe16, FromLe32, Header, ByteLength;
    SendableEncodes(all, m);
    VersionRoundTrip(m.cmd);
    var p := m.Packet();
    var (b, body, h) := (Wire(all, m), Body(p).value, HeaderLength(m.definition));
    var crc := [Crc(0, Header(p) + body)];
    assert b + tail == Header(p) + (body + crc + tail);
    HeaderFields(p, body + crc + tail);
    assert (b + tail)[h..|b| - 1] == (b + tail)[h..][..|b| - 1 - h] == body;
    if CarriesData(m.cmd) {
      PayloadRoundTrip(m.definition.fields, m.data, []);
      assert body + [] == body;
    }
  }
}
