/**
  What one side of a WebSocket connection writes, the other side reads: the
  same messages, in order, however the writer fragmented them, however control
  frames fell between the fragments, and in whatever pieces they are read.
 */
module WsRoundTrip {
  import opened Bytes
  import opened Outcomes
  import opened WsFrames
  import opened WsMessages
  import WsWriter
  import opened WsReader

  const EMPTY := Assembly([], None)

  // ------------------------------------------------- assembling from the front

  function AssembleFrom(a: Assembly, sent: seq<Sent>): Assembly
    decreases |sent|
  {
    if |sent| == 0 then a else AssembleFrom(Extended(a, sent[0].frame), sent[1..])
  }

  predicate FitsFrom(a: Assembly, sent: seq<Sent>)
    decreases |sent|
  {
    |sent| > 0 ==> Fits(a, sent[0].frame) && FitsFrom(Extended(a, sent[0].frame), sent[1..])
  }

  lemma {:induction false} FoldSnoc(a: Assembly, sent: seq<Sent>)
    requires |sent| > 0
    ensures var (front, last) := (sent[..|sent| - 1], sent[|sent| - 1].frame);
            && AssembleFrom(a, sent) == Extended(AssembleFrom(a, front), last)
            && (FitsFrom(a, sent) <==> FitsFrom(a, front) && Fits(AssembleFrom(a, front), last))
    decreases |sent|
  {
    hide Extended, Fits;
    if |sent| == 1 {
      assert sent[..0] == [] && sent[1..] == [];
    } else {
      var front := sent[..|sent| - 1];
      FoldSnoc(Extended(a, sent[0].frame), sent[1..]);
      assert sent[1..][..|sent| - 2] == front[1..];
    }
  }

  lemma {:induction false} AssembledIsFold(sent: seq<Sent>)
    ensures Assembled(sent) == AssembleFrom(EMPTY, sent)
    ensures Sequenced(sent) <==> FitsFrom(EMPTY, sent)
  {
    hide Extended, Fits;
    if |sent| > 0 {
      AssembledIsFold(sent[..|sent| - 1]);
      FoldSnoc(EMPTY, sent);
    }
  }

  /** Messages that are already complete stay in front and change nothing else. */
  lemma {:induction false} DoneFirst(d: seq<Message>, a: Assembly, sent: seq<Sent>)
    ensures AssembleFrom(Assembly(d + a.done, a.partial), sent)
         == Assembly(d + AssembleFrom(a, sent).done, AssembleFrom(a, sent).partial)
    ensures FitsFrom(Assembly(d + a.done, a.partial), sent) <==> FitsFrom(a, sent)
    decreases |sent|
  {
    if |sent| > 0 {
      var e := Extended(a, sent[0].frame);
      DoneFirst(d, e, sent[1..]);
      assert Extended(Assembly(d + a.done, a.partial), sent[0].frame) == Assembly(d + e.done, e.partial);
    }
  }

  // --------------------------------------------------------- reading one frame

  predicate NoClose(sent: seq<Sent>) {
    forall i :: 0 <= i < |sent| ==> sent[i].frame.opcode != CLOSE_MESSAGE
  }

  lemma EncodeOne(s: Sent, masked: bool)
    requires SentOk(s, masked)
    ensures AllSentOk([s], masked) && EncodeAll([s], masked) == FrameBytes(s.frame, s.key)
  {
    hide FrameBytes, SentOk;
    assert [s][..0] == [];
  }

  lemma EncodeFirst(sent: seq<Sent>, masked: bool)
    requires AllSentOk(sent, masked) && |sent| > 0
    ensures AllSentOk(sent[1..], masked) && SentOk(sent[0], masked)
    ensures EncodeAll(sent, masked) == FrameBytes(sent[0].frame, sent[0].key) + EncodeAll(sent[1..], masked)
  {
    hide FrameBytes, FrameOk, EncodeAll;
    assert SentOk(sent[0], masked);
    EncodeOne(sent[0], masked);
    assert sent == [sent[0]] + sent[1..];
    EncodeConcat([sent[0]], sent[1..], masked);
  }

  /** The reader is at the start of a frame; these frames and then the bytes `tail` are what is left of the stream. */
  predicate AtFrames(s: ReadState, sent: seq<Sent>, tail: seq<byte>, isServer: bool) {
    s.remaining == 0 && AllSentOk(sent, isServer) && s.br == EncodeAll(sent, isServer) + tail
  }

  /** The reader is within a frame of which `cur` is still to be read; these frames and `tail` follow. */
  predicate InFrame(s: ReadState, cur: seq<byte>, sent: seq<Sent>, tail: seq<byte>, isServer: bool) {
    && s.remaining == |cur| <= |s.br|
    && FrameRest(s, |cur|, isServer) == cur
    && AllSentOk(sent, isServer) && s.br[|cur|..] == EncodeAll(sent, isServer) + tail
  }

  /**
    Reading on from the start of a frame: a control frame is taken in whole, a
    ping is answered with its own payload, a close frame ends the reading; the
    payload of any other frame is next in the stream.
   */
  lemma AdvanceFirst(s: ReadState, sent: seq<Sent>, tail: seq<byte>, isServer: bool)
    requires AtFrames(s, sent, tail, isServer) && |sent| > 0 && InPlace(sent[0].frame, s.final)
    ensures var f := sent[0].frame;
            var a := Advance(s, isServer);
            if f.opcode == CLOSE_MESSAGE then a == Failed(CloseError(f.payload))
            else
              && a.Advanced? && a.frameType == f.opcode
              && (if IsControl(f.opcode)
                  then AtFrames(a.state, sent[1..], tail, isServer) && a.state.final == s.final
                       && a.state.replies == s.replies
                          + (if f.opcode == PING_MESSAGE then [Frame(true, PONG_MESSAGE, f.payload)] else [])
                  else InFrame(a.state, f.payload, sent[1..], tail, isServer) && a.state.final == f.final
                       && a.state.replies == s.replies)
  {
    hide ParseHeader, FrameBytes, Masked, CloseError, EncodeAll;
    EncodeFirst(sent, isServer);
    var (f, key, rest) := (sent[0].frame, sent[0].key, EncodeAll(sent[1..], isServer) + tail);
    assert s.br == FrameBytes(f, key) + rest;
    HeaderRoundTrip(f, key, rest, s.final);
    var wire := match key case None => f.payload case Some(k) => Masked(k, 0, f.payload);
    assert (wire + rest)[..|f.payload|] == wire && (wire + rest)[|f.payload|..] == rest;
    if key.Some? {
      MaskTwice(key.value, 0, f.payload);
    }
  }

  /** What is left of a message after the current frame. */
  lemma RestSkipsFrame(s: ReadState, cur: seq<byte>, sent: seq<Sent>, tail: seq<byte>, isServer: bool)
    returns (t: ReadState)
    requires InFrame(s, cur, sent, tail, isServer)
    ensures AtFrames(t, sent, tail, isServer) && t.final == s.final
    ensures Rest(s, isServer) == Prepend(cur, Rest(t, isServer))
  {
    hide Rest, FrameRest, EncodeAll, SentOk;
    if |cur| == 0 {
      t := s;
      assert cur == [] && s.br[0..] == s.br;
      PrependPrepend([], [], Rest(s, isServer));
    } else {
      RestInFrame(s, isServer);
      t := Consumed(s, |cur|, isServer);
    }
  }

  // ------------------------------------------------------------- all the messages

  /** What is read when message `m` is begun and has this rest. */
  function HistoryAfter(m: Message, r: RestResult, isServer: bool): History {
    match r
    case Broken(data, e) => History([], WithinMessage(Plus(m, data), e))
    case Whole(data, after) =>
      var h := Everything(after, isServer);
      History([Plus(m, data)] + h.messages, h.ending)
  }

  lemma EverythingUnfold(s: ReadState, isServer: bool)
    ensures Everything(s, isServer)
         == match NextMessage(s, isServer)
            case NoNext(e) => History([], AfterMessages(e))
            case Next(t, opcode) => HistoryAfter(Message(opcode, []), Rest(t, isServer), isServer)
  {
    hide NextMessage, Rest;
    match NextMessage(s, isServer) {
      case NoNext(_) =>
      case Next(t, opcode) =>
        assert [] + Rest(t, isServer).data == Rest(t, isServer).data;
    }
  }

  lemma AfterPrepend(m: Message, cur: seq<byte>, r: RestResult, isServer: bool)
    ensures HistoryAfter(m, Prepend(cur, r), isServer) == HistoryAfter(Plus(m, cur), r, isServer)
  {
    hide Everything;
    assert m.payload + (cur + r.data) == m.payload + cur + r.data;
  }

  /** What is read when `a` has been assembled and the reader stands at `u` behind those frames. */
  function After(a: Assembly, u: ReadState, isServer: bool): History {
    var h := match a.partial
             case None => Everything(u, isServer)
             case Some(m) => HistoryAfter(m, Rest(u, isServer), isServer);
    History(a.done + h.messages, h.ending)
  }

  /** The reader stands where `tail` begins, between messages or within one. */
  predicate AtTail(u: ReadState, tail: seq<byte>, a: Assembly) {
    u.remaining == 0 && u.br == tail && u.final == Between(a)
  }

  lemma AfterDone(m: Message, a: Assembly, u: ReadState, isServer: bool)
    ensures After(Assembly([m] + a.done, a.partial), u, isServer)
         == History([m] + After(a, u, isServer).messages, After(a, u, isServer).ending)
  {
    hide Everything, HistoryAfter, Rest;
    var h := match a.partial
             case None => Everything(u, isServer)
             case Some(p) => HistoryAfter(p, Rest(u, isServer), isServer);
    assert [m] + a.done + h.messages == [m] + (a.done + h.messages);
  }

  lemma AfterNothing(a: Assembly, u: ReadState, isServer: bool)
    requires a.done == []
    ensures After(a, u, isServer)
         == match a.partial
            case None => Everything(u, isServer)
            case Some(m) => HistoryAfter(m, Rest(u, isServer), isServer)
  {
    hide Everything, HistoryAfter, Rest;
    var h := match a.partial
             case None => Everything(u, isServer)
             case Some(p) => HistoryAfter(p, Rest(u, isServer), isServer);
    assert [] + h.messages == h.messages;
  }

  /** The messages assembled so far, while the reader is in a frame of message `m`. */
  function Reading(m: Message, final: bool): Assembly {
    if final then Assembly([m], None) else Assembly([], Some(m))
  }

  lemma WholeMessage(m: Message, t: ReadState, isServer: bool)
    ensures HistoryAfter(m, Whole([], t), isServer)
         == History([m] + Everything(t, isServer).messages, Everything(t, isServer).ending)
  {
    hide Everything;
    assert m.payload + [] == m.payload;
  }

  lemma {:induction false} ReadsRest(s: ReadState, cur: seq<byte>, sent: seq<Sent>, tail: seq<byte>, isServer: bool,
                                     m: Message) returns (u: ReadState)
    requires InFrame(s, cur, sent, tail, isServer) && NoClose(sent) && FitsFrom(Reading(Plus(m, cur), s.final), sent)
    ensures var a := AssembleFrom(Reading(Plus(m, cur), s.final), sent);
            AtTail(u, tail, a) && HistoryAfter(m, Rest(s, isServer), isServer) == After(a, u, isServer)
    decreases |sent|, 1
  {
    hide Everything, Rest, Advance, EncodeAll, SentOk, FrameRest, Prepend, HistoryAfter, After;
    var t := RestSkipsFrame(s, cur, sent, tail, isServer);
    var m' := Plus(m, cur);
    AfterPrepend(m, cur, Rest(t, isServer), isServer);
    RestBetween(t, isServer);
    if s.final {
      DoneFirst([m'], EMPTY, sent);
      assert [m'] + [] == [m'];
      u := ReadsMessages(t, sent, tail, isServer);
      AfterDone(m', AssembleFrom(EMPTY, sent), u, isServer);
      WholeMessage(m', t, isServer);
    } else if |sent| == 0 {
      u := t;
      NothingEncoded(sent, tail, isServer);
      AfterNothing(Reading(m', false), u, isServer);
    } else {
      var f := sent[0].frame;
      AdvanceFirst(t, sent, tail, isServer);
      var v := Advance(t, isServer).state;
      if IsControl(f.opcode) {
        ControlKeepsReading(v, sent[1..], tail, isServer);
        assert Plus(m', []) == m';
        u := ReadsRest(v, [], sent[1..], tail, isServer, m');
      } else {
        assert Extended(Reading(m', false), f) == Reading(Plus(m', f.payload), f.final);
        u := ReadsRest(v, f.payload, sent[1..], tail, isServer, m');
      }
    }
  }

  lemma NothingEncoded(sent: seq<Sent>, tail: seq<byte>, isServer: bool)
    requires |sent| == 0
    ensures AllSentOk(sent, isServer) && EncodeAll(sent, isServer) + tail == tail
  {
  }

  lemma ControlKeepsReading(u: ReadState, sent: seq<Sent>, tail: seq<byte>, isServer: bool)
    requires AtFrames(u, sent, tail, isServer)
    ensures InFrame(u, [], sent, tail, isServer)
  {
    assert u.br[0..] == u.br;
    assert FrameRest(u, 0, isServer) == [];
  }

  /**
    Reading any frames, with whatever behind them: the whole messages among them
    are read, and then what is begun is read on from where the frames end.
   */
  lemma {:induction false} ReadsMessages(s: ReadState, sent: seq<Sent>, tail: seq<byte>, isServer: bool)
    returns (u: ReadState)
    requires AtFrames(s, sent, tail, isServer) && s.final && NoClose(sent) && FitsFrom(EMPTY, sent)
    ensures var a := AssembleFrom(EMPTY, sent);
            AtTail(u, tail, a) && Everything(s, isServer) == After(a, u, isServer)
    decreases |sent|, 0
  {
    hide Everything, Advance, EncodeAll, SentOk, FrameRest, HistoryAfter, After;
    if |sent| == 0 {
      u := s;
      NothingEncoded(sent, tail, isServer);
      AfterNothing(EMPTY, u, isServer);
    } else {
      EverythingUnfold(s, isServer);
      NextUnfold(s, isServer);
      AdvanceShrinks(s, isServer);
      hide NextMessage, Rest;
      var f := sent[0].frame;
      AdvanceFirst(s, sent, tail, isServer);
      var v := Advance(s, isServer).state;
      if IsControl(f.opcode) {
        u := ReadsMessages(v, sent[1..], tail, isServer);
        EverythingUnfold(v, isServer);
        assert Everything(s, isServer) == Everything(v, isServer);
      } else {
        var m := Message(f.opcode, f.payload);
        assert Extended(EMPTY, f) == Reading(m, f.final) by {
          assert [] + [m] == [m];
        }
        assert Plus(Message(f.opcode, []), f.payload) == m by {
          assert [] + f.payload == f.payload;
        }
        u := ReadsRest(v, f.payload, sent[1..], tail, isServer, Message(f.opcode, []));
      }
    }
  }

  /** What is read when reading stops with this error behind the frames that assemble to `a`. */
  function Stopped(a: Assembly, e: ReadError): History {
    History(a.done, match a.partial case None => AfterMessages(e) case Some(m) => WithinMessage(m, Reported(e)))
  }

  lemma StopsAt(a: Assembly, u: ReadState, isServer: bool, e: ReadError)
    requires u.remaining == 0 && u.final == Between(a) && Advance(u, isServer) == Failed(e)
    ensures After(a, u, isServer) == Stopped(a, e)
  {
    hide Advance, HistoryAfter;
    match a.partial {
      case None =>
        EverythingUnfold(u, isServer);
        assert a.done + [] == a.done;
      case Some(m) =>
        RestBetween(u, isServer);
        BrokenAtOnce(m, Reported(e), isServer);
        assert a.done + [] == a.done;
    }
  }

  lemma BrokenAtOnce(m: Message, e: ReadError, isServer: bool)
    ensures HistoryAfter(m, Broken([], e), isServer) == History([], WithinMessage(m, e))
  {
    assert m.payload + [] == m.payload;
  }

  lemma StreamEnds(u: ReadState, isServer: bool)
    requires u.remaining == 0 && u.br == []
    ensures Advance(u, isServer) == Failed(UnexpectedEnd)
  {
    assert ParseHeader([], isServer, u.final) == UnexpectedEOF;
  }

  /** The error behind the last frame: what the close frame says, or a stream that ends without one. */
  function LastError(sent: seq<Sent>): ReadError {
    if |sent| > 0 && sent[|sent| - 1].frame.opcode == CLOSE_MESSAGE then CloseError(sent[|sent| - 1].frame.payload)
    else UnexpectedEnd
  }

  /**
    Everything that a connection has put on the wire, closed or not, with a
    message left open or not, reads back as exactly the whole messages written,
    in order, in either direction; then the reader reports the close frame, or
    that the stream ended unexpectedly, within the message left open if there
    is one.
   */
  lemma WireReadsBack(wire: seq<byte>, sent: seq<Sent>, isServer: bool)
    requires OnWire(wire, sent, isServer)
    ensures Everything(Start(wire), isServer) == Stopped(Assembled(sent), LastError(sent))
  {
    hide Everything, EncodeAll, SentOk, Advance, After, Stopped, Assembled, Sequenced, CloseError;
    var n := |sent| - 1;
    if CloseIn(sent) {
      var (front, last) := (sent[..n], sent[n]);
      assert last.frame.opcode == CLOSE_MESSAGE && NoClose(front);
      assert sent == front + [last];
      AssembledSnoc(front, last);
      ReadsBack(front, [last], isServer, CloseError(last.frame.payload));
    } else {
      assert NoClose(sent) && sent + [] == sent;
      ReadsBack(sent, [], isServer, UnexpectedEnd);
    }
  }

  /** Frames without a close frame, then at most a close frame. */
  lemma ReadsBack(front: seq<Sent>, last: seq<Sent>, isServer: bool, e: ReadError)
    requires AllSentOk(front, isServer) && AllSentOk(last, isServer) && AllSentOk(front + last, isServer)
    requires NoClose(front) && Sequenced(front)
    requires if last == [] then e == UnexpectedEnd
             else |last| == 1 && last[0].frame.opcode == CLOSE_MESSAGE && e == CloseError(last[0].frame.payload)
    ensures Everything(Start(EncodeAll(front + last, isServer)), isServer) == Stopped(Assembled(front), e)
  {
    hide Everything, EncodeAll, SentOk, Advance, After, Stopped, Assembled, Sequenced, CloseError;
    AssembledIsFold(front);
    EncodeConcat(front, last, isServer);
    var tail := EncodeAll(last, isServer);
    var u := ReadsMessages(Start(EncodeAll(front + last, isServer)), front, tail, isServer);
    if last == [] {
      NothingEncoded(last, [], isServer);
      StreamEnds(u, isServer);
    } else {
      assert tail + [] == tail;
      AdvanceFirst(u, last, [], isServer);
    }
    StopsAt(Assembled(front), u, isServer, e);
  }

  // ------------------------------------------------------------- one exchange

  /** Writes one message in the given parts. */
  method SendParts(c: WsWriter.Conn, messageType: int, parts: seq<seq<byte>>) returns (err: Option<WsWriter.WsError>)
    requires c.Valid() && c.writeErr.None? && c.writeFrameType == NO_FRAME && !c.closeSent && IsData(messageType)
    requires c.reliable
    requires forall i :: 0 <= i < |parts| ==> |parts[i]| < WsWriter.MAX_SLICE
    modifies c, c.writeBuf
    ensures c.Valid() && err.None? && c.writeErr.None? && c.writeFrameType == NO_FRAME && !c.closeSent
    ensures Assembled(c.sent)
         == Assembly(old(Assembled(c.sent).done) + [Message(messageType, Flatten(parts))], None)
  {
    hide Assembled, OnWire, IsCut, CloseIn, WsWriter.OpenMessage;
    var w;
    w, err := c.NextWriter(messageType);
    for i := 0 to |parts|
      invariant c.Valid() && c.writeErr.None? && c.writeFrameType != NO_FRAME && !c.closeSent && c.writeSeq == w
      invariant !IsControl(c.writeFrameType)
      invariant c.Open() == Message(messageType, Flatten(parts[..i]))
      invariant Assembled(c.sent).done == old(Assembled(c.sent).done)
    {
      ghost var open := c.Open();
      var n;
      n, err := c.Write(w, false, parts[i]);
      assert parts[..i + 1][..i] == parts[..i];
      assert Plus(open, parts[i]) == Message(messageType, Flatten(parts[..i + 1]));
    }
    assert parts[..|parts|] == parts;
    err := c.Close(w);
  }

  /**
    For every payload and every way of splitting it into writes, every buffer
    size and positive read size, both directions and any masking keys: the peer
    reads the same opcode and the same bytes, and then the end of the message.
   */
  method Exchange(writerIsServer: bool, bufferSize: nat, messageType: int, parts: seq<seq<byte>>, readSize: nat)
    returns (opcode: int, data: seq<byte>, end: ReadError)
    requires bufferSize < WsWriter.MAX_SLICE - MAX_FRAME_HEADER_SIZE && IsData(messageType) && readSize > 0
    requires forall i :: 0 <= i < |parts| ==> |parts[i]| < WsWriter.MAX_SLICE
    ensures opcode == messageType && data == Flatten(parts) && end == EndOfFile
  {
    hide Everything, NextMessage, Rest, OnWire;
    var writer := new WsWriter.Conn(writerIsServer, bufferSize, true);
    var err := SendParts(writer, messageType, parts);
    var m := Message(messageType, Flatten(parts));
    assert [] + [m] == [m];
    WireReadsBack(writer.whole, writer.sent, !writerIsServer);
    assert writer.wire == writer.whole + [] == writer.whole;
    EverythingUnfold(Start(writer.wire), !writerIsServer);
    var reader := new Conn(!writerIsServer, writer.wire);
    var w, e;
    opcode, w, e := reader.NextReader();
    assert Everything(Start(writer.wire), !writerIsServer).messages[0] == m;
    data, end := reader.ReadAll(w, readSize);
    assert [] + data == data;
  }

  // ------------------------------------------------------------ a stream cut short

  /** A frame as it goes out, without its payload. */
  function FrameHead(f: Frame, key: Option<Key>): seq<byte>
    requires FrameOk(f)
  {
    [FirstByte(f.final, f.opcode)] + LengthBytes(|f.payload|, key.Some?) + if key.Some? then key.value else []
  }

  function WirePayload(f: Frame, key: Option<Key>): (r: seq<byte>)
    ensures |r| == |f.payload|
  {
    if key.Some? then Masked(key.value, 0, f.payload) else f.payload
  }

  lemma FrameSplits(f: Frame, key: Option<Key>)
    requires FrameOk(f)
    ensures FrameBytes(f, key) == FrameHead(f, key) + WirePayload(f, key)
  {
    hide Masked, LengthBytes, FirstByte;
  }

  lemma MaskPrefix(key: Key, s: seq<byte>, k: nat)
    requires k <= |s|
    ensures Masked(key, 0, s)[..k] == Masked(key, 0, s[..k])
  {
    hide Xor;
  }

  /** The header of a frame is understood whatever follows it. */
  lemma HeadParses(f: Frame, key: Option<Key>, tail: seq<byte>, readFinal: bool)
    requires FrameOk(f) && InPlace(f, readFinal)
    ensures ParseHeader(FrameHead(f, key) + tail, key.Some?, readFinal)
         == Header(f.final, f.opcode, |f.payload|, key, tail)
  {
    hide ParseHeader, LengthBytes, FirstByte;
    var k := if key.Some? then key.value else [];
    ParseShort(f, key.Some?, k + tail, key.Some?, readFinal);
    assert FrameHead(f, key) + tail
        == [FirstByte(f.final, f.opcode)] + LengthBytes(|f.payload|, key.Some?) + (k + tail);
    if key.Some? {
      assert (k + tail)[..4] == k && (k + tail)[4..] == tail;
    } else {
      assert k + tail == tail;
    }
  }

  /** A header that is cut anywhere is no header. */
  lemma HeadCut(f: Frame, key: Option<Key>, j: nat, readFinal: bool)
    requires FrameOk(f) && InPlace(f, readFinal) && j < |FrameHead(f, key)|
    ensures ParseHeader(FrameHead(f, key)[..j], key.Some?, readFinal) == UnexpectedEOF
  {
    hide FromBigEndian, BigEndian, FullLength;
    var (head, cut) := (FrameHead(f, key), FrameHead(f, key)[..j]);
    if j >= 2 {
      assert cut[0] == head[0] == FirstByte(f.final, f.opcode) && cut[1] == head[1];
    }
  }

  /** What a stream shows that ends after `k` payload bytes of a data frame or continuation behind `a`. */
  function CutWithin(a: Assembly, f: Frame, k: nat): History
    requires k <= |f.payload|
  {
    var begun := if a.partial.Some? then a.partial.value else Message(f.opcode, []);
    History(a.done, WithinMessage(Plus(begun, f.payload[..k]), EndOfFile))
  }

  /** The reader behind the header of a data frame or continuation whose payload is cut after `k` bytes. */
  lemma CutPayload(u: ReadState, a: Assembly, g: Sent, k: nat, isServer: bool)
    requires SentOk(g, isServer) && Fits(a, g.frame) && !IsControl(g.frame.opcode) && k < |g.frame.payload|
    requires AtTail(u, FrameHead(g.frame, g.key) + WirePayload(g.frame, g.key)[..k], a)
    ensures After(a, u, isServer) == CutWithin(a, g.frame, k)
  {
    hide ParseHeader, Masked, FrameHead, Everything, Rest, HistoryAfter;
    var f := g.frame;
    var cut := WirePayload(f, g.key)[..k];
    HeadParses(f, g.key, cut, u.final);
    if g.key.Some? {
      MaskPrefix(g.key.value, f.payload, k);
      MaskTwice(g.key.value, 0, f.payload[..k]);
    }
    var t := Advance(u, isServer).state;
    assert Advance(u, isServer) == Advanced(t, f.opcode) && t.br == cut && t.remaining == |f.payload|;
    assert t.br[..k] == t.br;
    RestInFrame(t, isServer);
    assert Rest(t, isServer) == Broken(f.payload[..k], EndOfFile);
    hide Advance;
    assert a.done + [] == a.done;
    match a.partial {
      case None =>
        EverythingUnfold(u, isServer);
        BrokenWith(Message(f.opcode, []), f.payload[..k], isServer);
      case Some(m) =>
        RestBetween(u, isServer);
        BrokenWith(m, f.payload[..k], isServer);
    }
  }

  lemma BrokenWith(m: Message, data: seq<byte>, isServer: bool)
    ensures HistoryAfter(m, Broken(data, EndOfFile), isServer) == History([], WithinMessage(Plus(m, data), EndOfFile))
  {
  }

  /** A frame that is cut in its header, or a control frame that is cut anywhere, is an unexpected end. */
  lemma CutFrameFails(u: ReadState, a: Assembly, g: Sent, j: nat, isServer: bool)
    requires SentOk(g, isServer) && Fits(a, g.frame) && j < |FrameBytes(g.frame, g.key)|
    requires j < |FrameHead(g.frame, g.key)| || IsControl(g.frame.opcode)
    requires AtTail(u, FrameBytes(g.frame, g.key)[..j], a)
    ensures Advance(u, isServer) == Failed(UnexpectedEnd)
  {
    hide ParseHeader, Masked, FrameHead, FrameBytes;
    var (f, head) := (g.frame, FrameHead(g.frame, g.key));
    FrameSplits(f, g.key);
    if j < |head| {
      assert u.br == head[..j];
      HeadCut(f, g.key, j, u.final);
    } else {
      var cut := WirePayload(f, g.key)[..j - |head|];
      assert u.br == head + cut;
      HeadParses(f, g.key, cut, u.final);
    }
  }

  /**
    A stream that ends within a frame, behind any frames: the whole messages are
    read.  If the cut is in the payload of a data frame or continuation, the
    message begun is then handed out as far as it came, followed by io.EOF as
    for a whole message: it looks complete.  Any other cut is reported.
   */
  lemma CutLooksComplete(front: seq<Sent>, g: Sent, j: nat, isServer: bool)
    requires AllSentOk(front, isServer) && NoClose(front) && Sequenced(front)
    requires SentOk(g, isServer) && Fits(Assembled(front), g.frame) && j < |FrameBytes(g.frame, g.key)|
    ensures var wire := EncodeAll(front, isServer) + FrameBytes(g.frame, g.key)[..j];
            var (a, k) := (Assembled(front), j - |FrameHead(g.frame, g.key)|);
            Everything(Start(wire), isServer)
            == if IsControl(g.frame.opcode) || k < 0 then Stopped(a, UnexpectedEnd)
               else (FrameSplits(g.frame, g.key); CutWithin(a, g.frame, k))
  {
    hide Everything, EncodeAll, FrameOk, Advance, After, Stopped, Assembled, Sequenced, FrameBytes, FrameHead, Fits,
         CutWithin;
    var (a, f, tail) := (Assembled(front), g.frame, FrameBytes(g.frame, g.key)[..j]);
    AssembledIsFold(front);
    var u := ReadsMessages(Start(EncodeAll(front, isServer) + tail), front, tail, isServer);
    FrameSplits(f, g.key);
    var k := j - |FrameHead(f, g.key)|;
    if IsControl(f.opcode) || k < 0 {
      CutFrameFails(u, a, g, j, isServer);
      StopsAt(a, u, isServer, UnexpectedEnd);
    } else {
      assert tail == FrameHead(f, g.key) + WirePayload(f, g.key)[..k];
      CutPayload(u, a, g, k, isServer);
    }
  }

  /**
    When the last frame of a message is cut after `k` payload bytes, reading the
    message to its io.EOF gives exactly those bytes of the frame, and the
    message is whole if and only if no byte is missing.
   */
  lemma WholeIffComplete(front: seq<Sent>, g: Sent, k: nat, isServer: bool)
    requires AllSentOk(front, isServer) && NoClose(front) && Sequenced(front)
    requires SentOk(g, isServer) && Fits(Assembled(front), g.frame)
    requires !IsControl(g.frame.opcode) && g.frame.final && k <= |g.frame.payload|
    ensures var wire := EncodeAll(front, isServer) + FrameHead(g.frame, g.key) + WirePayload(g.frame, g.key)[..k];
            var (a, h) := (Assembled(front), Everything(Start(wire), isServer));
            var cut := CutWithin(a, g.frame, k);
            if k == |g.frame.payload|
            then h == History(a.done + [cut.ending.begun], AfterMessages(UnexpectedEnd))
            else h == cut
  {
    hide Everything, EncodeAll, After, Stopped, Assembled, Sequenced, FrameBytes, FrameHead, CutWithin, FrameOk;
    var (a, f) := (Assembled(front), g.frame);
    var j := |FrameHead(f, g.key)| + k;
    FrameSplits(f, g.key);
    assert FrameBytes(f, g.key)[..j] == FrameHead(f, g.key) + WirePayload(f, g.key)[..k];
    var wire := EncodeAll(front, isServer) + FrameBytes(f, g.key)[..j];
    assert wire == EncodeAll(front, isServer) + FrameHead(f, g.key) + WirePayload(f, g.key)[..k];
    if k < |f.payload| {
      CutLooksComplete(front, g, j, isServer);
    } else {
      assert FrameBytes(f, g.key)[..j] == FrameBytes(f, g.key);
      EncodeOne(g, isServer);
      EncodeConcat(front, [g], isServer);
      AssembledSnoc(front, g);
      var sent := front + [g];
      assert sent + [] == sent;
      ReadsBack(sent, [], isServer, UnexpectedEnd);
      CompletedBy(a, f);
    }
  }

  lemma CompletedBy(a: Assembly, f: Frame)
    requires Fits(a, f) && FrameOk(f) && !IsControl(f.opcode) && f.final
    ensures Stopped(Extended(a, f), UnexpectedEnd)
         == History(a.done + [CutWithin(a, f, |f.payload|).ending.begun], AfterMessages(UnexpectedEnd))
  {
    assert f.payload[..|f.payload|] == f.payload && [] + f.payload == f.payload;
  }

  /**
    At any time, whatever writes have failed, the peer reads from the wire of a
    connection exactly the whole messages that it has sent.
   */
  lemma PeerReadsSent(c: WsWriter.Conn)
    requires c.Valid()
    ensures Everything(Start(c.wire), !c.isServer).messages == Assembled(c.sent).done
  {
    hide Everything, EncodeAll, Assembled, Sequenced, SentOk, FrameBytes, FrameHead, Fits;
    if c.cut == [] {
      assert c.wire == c.whole + [] == c.whole;
      WireReadsBack(c.wire, c.sent, !c.isServer);
    } else {
      var f: Sent, k: nat :| CutFrom(c.cut, c.sent, !c.isServer, f, k);
      CutLooksComplete(c.sent, f, k, !c.isServer);
    }
  }

  /**
    One read past the end tells the two apart, on every stream: it reports the
    regular end again exactly when the message was whole.
   */
  method ReadPastEnd(c: WsReader.Conn, w: nat, size: nat) returns (data: seq<byte>, whole: bool)
    requires size > 0 && c.readErr.None? && w == c.readSeq
    modifies c
    ensures data == Rest(old(c.View()), c.isServer).data
    ensures whole <==> Rest(old(c.View()), c.isServer).Whole?
  {
    hide Rest;
    var end;
    data, end := c.ReadAll(w, size);
    var chunk, again := c.Read(w, size);
    whole := again == Some(EndOfFile);
  }

  /** What one attempt to read a message comes to. */
  datatype Attempt = Complete(message: Message) | Incomplete(ending: Ending)

  function Attempted(s: ReadState, isServer: bool): Attempt {
    match NextMessage(s, isServer)
    case NoNext(e) => Incomplete(AfterMessages(e))
    case Next(t, opcode) =>
      match Rest(t, isServer)
      case Broken(data, e) => Incomplete(WithinMessage(Message(opcode, data), e))
      case Whole(data, _) => Complete(Message(opcode, data))
  }

  /** The reader behind a whole message. */
  function Onwards(s: ReadState, isServer: bool): (t: ReadState)
    requires Attempted(s, isServer).Complete?
    ensures |t.br| < |s.br|
  {
    Rest(NextMessage(s, isServer).state, isServer).after
  }

  lemma EverythingByAttempts(s: ReadState, isServer: bool)
    ensures Everything(s, isServer)
         == match Attempted(s, isServer)
            case Incomplete(ending) => History([], ending)
            case Complete(m) =>
              var h := Everything(Onwards(s, isServer), isServer);
              History([m] + h.messages, h.ending)
  {
    hide NextMessage, Rest;
  }

  /** The next message, read in pieces of at most `size` bytes and with one read past its end. */
  method ReadOne(c: WsReader.Conn, size: nat) returns (r: Attempt)
    requires size > 0 && c.readErr.None?
    modifies c
    ensures r == Attempted(old(c.View()), c.isServer)
    ensures r.Complete? ==> c.readErr.None? && c.View() == Onwards(old(c.View()), c.isServer)
  {
    hide NextMessage, Rest;
    var opcode, w, err := c.NextReader();
    if err.Some? {
      return Incomplete(AfterMessages(err.value));
    }
    var data, end := c.ReadAll(w, size);
    var chunk, again := c.Read(w, size);
    var m := Message(opcode, data);
    r := if again == Some(EndOfFile) then Complete(m) else Incomplete(WithinMessage(m, end));
  }

  /** An application that reads message after message sees the whole history of the stream. */
  method ReadEverything(c: WsReader.Conn, size: nat) returns (h: History)
    requires size > 0 && c.readErr.None?
    modifies c
    ensures h == Everything(old(c.View()), c.isServer)
  {
    hide Everything, Attempted, Onwards;
    var messages: seq<Message> := [];
    ghost var whole := Everything(c.View(), c.isServer);
    assert [] + whole.messages == whole.messages;
    while true
      invariant c.readErr.None?
      invariant var e := Everything(c.View(), c.isServer); whole == History(messages + e.messages, e.ending)
      decreases |c.br|
    {
      EverythingByAttempts(c.View(), c.isServer);
      var r := ReadOne(c, size);
      match r {
        case Incomplete(ending) =>
          assert messages + [] == messages;
          return History(messages, ending);
        case Complete(m) =>
          ghost var e := Everything(c.View(), c.isServer);
          assert messages + ([m] + e.messages) == messages + [m] + e.messages;
          messages := messages + [m];
      }
    }
  }
}
