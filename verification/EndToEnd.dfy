/**
  The whole way of a message: encode, fragment into reports, strip the reports,
  reassemble, deframe, decode.
 */
module EndToEnd {
  import opened Bytes
  import opened Crc8
  import opened Outcomes
  import opened Definitions
  import opened Registry
  import opened Packets
  import opened Deframer
  import opened DeframerLaws
  import opened Receiver
  import opened UsbLink

  /** Messages that can be sent, whose own length fits the header and the deframer's limit. */
  predicate Transmittable(all: seq<Definition>, limit: nat, m: Message) {
    Sendable(all, m) && FullLength(m) < 0x1_0000 && FullLength(m) <= limit + SHORT_HEADER_LENGTH + 2
  }

  predicate AllTransmittable(all: seq<Definition>, limit: nat, messages: seq<Message>) {
    forall i :: 0 <= i < |messages| ==> Transmittable(all, limit, messages[i])
  }

  predicate AllSendable(all: seq<Definition>, messages: seq<Message>) {
    forall i :: 0 <= i < |messages| ==> Sendable(all, messages[i])
  }

  /** With the limit computed from the loaded definitions, only the message's own 16-bit length matters. */
  lemma LimitSuffices(all: seq<Definition>, limit: nat, m: Message)
    requires IsMaxObjectLength(all, limit) && Sendable(all, m)
    ensures Transmittable(all, limit, m) <==> FullLength(m) < 0x1_0000
  {
    assert m.definition in all;
  }

  lemma WireIsFrame(all: seq<Definition>, limit: nat, m: Message)
    requires Transmittable(all, limit, m)
    ensures IsFrame(Wire(all, m), limit)
  {
    hide Crc, Header, Body, Sendable, FullLength, FromLe16, Le16, Le32;
    WireLength(all, m);
    SendableEncodes(all, m);
    var p := m.Packet();
    var body := Body(p).value;
    var f := Wire(all, m);
    var crc := [Crc(0, Header(p) + body)];
    assert f == Header(p) + (body + crc);
    HeaderFields(p, body + crc);
    assert f[..|f| - 1] == Header(p) + body;
  }

  function Segments(all: seq<Definition>, messages: seq<Message>): (r: seq<Segment>)
    requires AllSendable(all, messages)
    ensures |r| == |messages|
  {
    seq(|messages|, i requires 0 <= i < |messages| => Segment([], Wire(all, messages[i])))
  }

  /** The bytes of all messages, one packet after the other. */
  function WireAll(all: seq<Definition>, messages: seq<Message>): seq<byte>
    requires AllSendable(all, messages)
  {
    if |messages| == 0 then []
    else Wire(all, messages[0]) + WireAll(all, messages[1..])
  }

  lemma {:induction false} WireAllIsStream(all: seq<Definition>, messages: seq<Message>)
    requires AllSendable(all, messages)
    ensures StreamOf(Segments(all, messages)) == WireAll(all, messages)
  {
    hide Wire, Sendable;
    if |messages| > 0 {
      WireAllIsStream(all, messages[1..]);
      assert Segments(all, messages)[1..] == Segments(all, messages[1..]);
      assert [] + Wire(all, messages[0]) == Wire(all, messages[0]);
    }
  }

  /** Every message was delivered, in order, and nothing else happened. */
  ghost predicate AllDelivered(messages: seq<Message>, events: seq<Event>) {
    && |events| == |messages|
    && forall i :: 0 <= i < |messages| ==> events[i].Delivered? && SameMessage(messages[i], events[i].packet)
  }

  lemma FrameDelivers(all: seq<Definition>, m: Message)
    requires Sendable(all, m)
    ensures var f := Wire(all, m);
            var r := Judged(all, Strip([], f, |f|, true));
            r.Ok? && r.value.Delivered? && SameMessage(m, r.value.packet)
  {
    hide Wire, Decoded, Sendable, SameMessage;
    PacketRoundTrip(all, m, []);
    assert Wire(all, m) + [] == Wire(all, m);
  }

  lemma {:induction false} StripsDeliver(all: seq<Definition>, messages: seq<Message>)
    requires AllSendable(all, messages)
    ensures var strips := StripsOf(Segments(all, messages));
            && (forall i :: 0 <= i < |strips| ==> strips[i].Valid())
            && !Played(all, strips).crashed && AllDelivered(messages, Played(all, strips).events)
  {
    hide Wire, Judged, Sendable, SameMessage;
    var strips := StripsOf(Segments(all, messages));
    if |messages| > 0 {
      var (front, last) := (messages[..|messages| - 1], messages[|messages| - 1]);
      StripsDeliver(all, front);
      FrameDelivers(all, last);
      assert strips[..|strips| - 1] == StripsOf(Segments(all, front));
      assert strips[|strips| - 1] == Strip([], Wire(all, last), |Wire(all, last)|, true);
    }
  }

  /**
    For every sequence of messages and every way of cutting their bytes into
    reads, the reader delivers exactly these messages in order, does not crash
    and is left with an empty buffer.
   */
  lemma StreamDelivers(all: seq<Definition>, limit: nat, messages: seq<Message>, chunks: seq<seq<byte>>)
    requires AllTransmittable(all, limit, messages)
    requires Flatten(chunks) == WireAll(all, messages)
    ensures BufferAfter(chunks, limit) == []
    ensures var strips := StripsAfter(chunks, limit);
            && (forall i :: 0 <= i < |strips| ==> strips[i].Valid())
            && !Played(all, strips).crashed && AllDelivered(messages, Played(all, strips).events)
  {
    hide Wire, WireAll, Strips, Residue, Played, IsFrame, Flatten, StripsAfter, BufferAfter, Sendable, FullLength;
    var segments := Segments(all, messages);
    forall i | 0 <= i < |segments|
      ensures SYNC !in segments[i].garbage && IsFrame(segments[i].frame, limit)
    {
      WireIsFrame(all, limit, messages[i]);
    }
    ChunkIndependence(chunks, limit);
    WireAllIsStream(all, messages);
    Recovery(segments, [], limit);
    EmptyBuffer(limit);
    assert StreamOf(segments) + [] == StreamOf(segments);
    assert StripsOf(segments) + [] == StripsOf(segments);
    StripsDeliver(all, messages);
  }

  // ------------------------------------------------------------- over USB reports

  ghost function AllReports(buffer: seq<byte>, all: seq<Definition>, messages: seq<Message>)
    : (rs: seq<seq<byte>>)
    requires |buffer| == MAX_HID_FRAME_SIZE && AllSendable(all, messages)
    ensures forall i :: 0 <= i < |rs| ==> |rs[i]| == MAX_HID_FRAME_SIZE
    decreases |messages|
  {
    if |messages| == 0 then []
    else
      var b := Wire(all, messages[0]);
      Reports(buffer, b) + AllReports(BufferAfterWrite(buffer, b), all, messages[1..])
  }

  predicate AllReadable(reports: seq<seq<byte>>) {
    forall i :: 0 <= i < |reports| ==> |reports[i]| == MAX_HID_FRAME_SIZE && Chunk(reports[i]).Ok?
  }

  lemma {:induction false} PayloadsConcat(a: seq<seq<byte>>, b: seq<seq<byte>>)
    requires AllReadable(a) && AllReadable(b) && AllReadable(a + b)
    ensures Payloads(a + b) == Payloads(a) + Payloads(b)
    decreases |a|
  {
    hide Chunk;
    if |a| == 0 {
      assert a + b == b;
    } else {
      assert (a + b)[1..] == a[1..] + b;
      PayloadsConcat(a[1..], b);
    }
  }

  /** The reports of all messages carry their bytes, and nothing else. */
  lemma {:induction false} AllReportsRoundTrip(buffer: seq<byte>, all: seq<Definition>, messages: seq<Message>)
    requires |buffer| == MAX_HID_FRAME_SIZE && AllSendable(all, messages)
    ensures AllReadable(AllReports(buffer, all, messages))
    ensures Payloads(AllReports(buffer, all, messages)) == WireAll(all, messages)
    decreases |messages|
  {
    hide Wire, Sendable, Chunk, Reports, BufferAfterWrite;
    if |messages| > 0 {
      var b := Wire(all, messages[0]);
      var after := BufferAfterWrite(buffer, b);
      ReportsRoundTrip(buffer, b);
      AllReportsRoundTrip(after, all, messages[1..]);
      PayloadsConcat(Reports(buffer, b), AllReports(after, all, messages[1..]));
    }
  }

  lemma {:induction false} PayloadsSnoc(reports: seq<seq<byte>>, i: nat)
    requires AllReadable(reports) && i < |reports|
    ensures Payloads(reports[..i + 1]) == Payloads(reports[..i]) + Chunk(reports[i]).value
  {
    hide Chunk;
    var one := [reports[i]];
    assert reports[..i + 1] == reports[..i] + one;
    PayloadsConcat(reports[..i], one);
    assert one[1..] == [] && Payloads(one) == Chunk(reports[i]).value + [];
  }

  /** Encodes every message and writes it to the link. */
  method SendAll(link: Link, all: seq<Definition>, messages: seq<Message>)
    requires link.Valid() && link.cc.reports == [] && AllSendable(all, messages)
    requires link.cc.writesLeft >= |AllReports(link.fixedLengthWriteBuffer[..], all, messages)|
    modifies link.cc, link.fixedLengthWriteBuffer
    ensures link.cc.reports == AllReports(old(link.fixedLengthWriteBuffer[..]), all, messages)
  {
    hide Sendable, Reports, BufferAfterWrite, Header, Body, Checked;
    ghost var start := link.fixedLengthWriteBuffer[..];
    for i := 0 to |messages|
      invariant link.Valid()
      invariant AllReports(start, all, messages)
             == link.cc.reports + AllReports(link.fixedLengthWriteBuffer[..], all, messages[i..])
      invariant link.cc.writesLeft >= |AllReports(link.fixedLengthWriteBuffer[..], all, messages[i..])|
    {
      var m := messages[i];
      assert messages[i..][0] == m && messages[i..][1..] == messages[i + 1..];
      SendableEncodes(all, m);
      var r := ToBinary(m.Packet());
      assert r == Ok(Wire(all, m));
      ghost var now := link.fixedLengthWriteBuffer[..];
      var count, failed := link.Write(r.value);
      assert !failed;
    }
    assert messages[|messages|..] == [];
  }

  /** Reads every report back and feeds it to the frame reader. */
  method ReceiveAll(reports: seq<seq<byte>>, reader: FrameReader)
    requires reader.Valid() && reader.stream == [] && AllReadable(reports)
    modifies reader
    ensures reader.Valid() && reader.stream == Payloads(reports)
  {
    var packet := new byte[MAX_HID_FRAME_SIZE](_ => 0);
    for i := 0 to |reports|
      invariant reader.Valid() && reader.stream == Payloads(reports[..i])
    {
      var n := Read(reports[i], packet);
      assert packet[..n] == Chunk(reports[i]).value;
      PayloadsSnoc(reports, i);
      reader.Feed(packet[..n]);
    }
    assert reports[..|reports|] == reports;
  }

  /**
    The whole stack run once: every message that goes in at one end comes out
    at the other, in order, with nothing added and nothing left in the buffer.
   */
  method Transfer(all: seq<Definition>, limit: nat, messages: seq<Message>, link: Link) returns (reader: FrameReader)
    requires link.Valid() && link.cc.reports == [] && AllTransmittable(all, limit, messages)
    requires link.cc.writesLeft >= |AllReports(link.fixedLengthWriteBuffer[..], all, messages)|
    modifies link.cc, link.fixedLengthWriteBuffer
    ensures AllDelivered(messages, reader.out) && !reader.crashed && reader.buffer == []
  {
    hide AllReports, WireAll, Strips, Residue, Played, AllDelivered, StripsAfter, BufferAfter;
    ghost var start := link.fixedLengthWriteBuffer[..];
    SendAll(link, all, messages);
    AllReportsRoundTrip(start, all, messages);
    reader := new FrameReader(all, limit);
    ReceiveAll(link.cc.reports, reader);
    ghost var bytes := WireAll(all, messages);
    assert Flatten([bytes]) == bytes by { FlattenOne(bytes); }
    StreamDelivers(all, limit, messages, [bytes]);
    ChunkIndependence([bytes], limit);
  }

  lemma FlattenOne(b: seq<byte>)
    ensures Flatten([b]) == b
  {
    assert [b][..0] == [];
  }
}
