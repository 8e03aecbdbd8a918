/**
  The reading half of a WebSocket connection
  (Godeps/_workspace/src/github.com/gorilla/websocket/conn.go): frame headers
  are parsed from the stream, control frames are answered wherever they occur,
  and the application reads a message's bytes in pieces of any size.
 */
module WsReader {
  import opened Bytes
  import opened Outcomes
  import opened WsFrames
  import opened WsMessages

  /** The errors of the reader; `EndOfFile` is Go's io.EOF, which also ends every whole message. */
  datatype ReadError =
    | EndOfFile
    | UnexpectedEnd
    | Protocol
    | CloseReceived(code: nat, text: seq<byte>)
    | UnexpectedData

  const CLOSE_NORMAL := 1000
  const CLOSE_GOING_AWAY := 1001
  const CLOSE_NO_STATUS := 1005

  /** What a close frame with this payload is reported as: a regular closure is the end of the stream. */
  function CloseError(payload: seq<byte>): ReadError {
    var code := if |payload| >= 2 then FromBigEndian(payload[..2]) else CLOSE_NO_STATUS;
    if code == CLOSE_NORMAL || code == CLOSE_GOING_AWAY then EndOfFile
    else CloseReceived(code, if |payload| >= 2 then payload[2..] else [])
  }

  /** An end of the stream within a message, as a message reader reports it. */
  function Reported(e: ReadError): ReadError {
    if e == EndOfFile then UnexpectedEnd else e
  }

  /** The reader between two operations; `replies` are the control frames it has caused to be sent. */
  datatype ReadState = ReadState(
    br: seq<byte>, remaining: int, final: bool, maskPos: nat, maskKey: Key, replies: seq<Frame>)

  function Start(stream: seq<byte>): ReadState {
    ReadState(stream, 0, true, 0, [0, 0, 0, 0], [])
  }

  // ------------------------------------------------------------ one frame header

  datatype AdvanceResult = Advanced(state: ReadState, frameType: nat) | Failed(err: ReadError)

  /** The payload bytes as the peer meant them. */
  function Unmasked(key: Key, pos: nat, s: seq<byte>, isServer: bool): (r: seq<byte>)
    ensures |r| == |s|
  {
    if isServer then Masked(key, pos, s) else s
  }

  /** A masked frame starts at the first byte of its key. */
  function MaskStart(s: ReadState, isServer: bool): nat {
    if isServer then 0 else s.maskPos
  }

  /** A control frame's payload is read and handled at once. */
  function AfterControl(s: ReadState, opcode: nat, length: int, key: Key, rest: seq<byte>, isServer: bool)
    : AdvanceResult
    requires length >= 0
  {
    if length > |rest| then Failed(UnexpectedEnd)
    else
      var payload := Unmasked(key, 0, rest[..length], isServer);
      if opcode == CLOSE_MESSAGE then Failed(CloseError(payload))
      else
        var replies := if opcode == PING_MESSAGE then s.replies + [Frame(true, PONG_MESSAGE, payload)] else s.replies;
        Advanced(ReadState(rest[length..], 0, s.final, MaskStart(s, isServer), key, replies), opcode)
  }

  function Advance(s: ReadState, isServer: bool): AdvanceResult {
    if s.remaining > |s.br| then Failed(EndOfFile)
    else
      var b := if s.remaining > 0 then s.br[s.remaining..] else s.br;
      match ParseHeader(b, isServer, s.final)
      case UnexpectedEOF => Failed(UnexpectedEnd)
      case ProtocolError => Failed(Protocol)
      case Header(final, opcode, length, key, rest) =>
        var k := if key.Some? then key.value else s.maskKey;
        if IsControl(opcode) then
          if length >= 0 then AfterControl(s, opcode, length, k, rest, isServer) else Failed(Protocol)
        else Advanced(ReadState(rest, length, final, MaskStart(s, isServer), k, s.replies), opcode)
  }

  lemma ParseShrinks(b: seq<byte>, isServer: bool, readFinal: bool)
    ensures var p := ParseHeader(b, isServer, readFinal);
            p.Header? ==>
              && |p.rest| + 2 <= |b|
              && (p.opcode == CONTINUATION || IsData(p.opcode) || IsControl(p.opcode))
              && (IsControl(p.opcode) ==> 0 <= p.length <= MAX_CONTROL_PAYLOAD)
              && (IsData(p.opcode) ==> readFinal) && (p.opcode == CONTINUATION ==> !readFinal)
              && (p.key.Some? <==> isServer)
  {
    hide FromBigEndian;
  }

  lemma AdvanceShrinks(s: ReadState, isServer: bool)
    ensures var a := Advance(s, isServer);
            a.Advanced? ==>
              && |a.state.br| < |s.br|
              && (a.frameType == CONTINUATION || IsData(a.frameType) || IsControl(a.frameType))
              && (!s.final ==> !IsData(a.frameType))
  {
    hide ParseHeader;
    if s.remaining <= |s.br| {
      ParseShrinks(if s.remaining > 0 then s.br[s.remaining..] else s.br, isServer, s.final);
    }
  }

  // --------------------------------------------------------------- whole messages

  datatype NextResult = Next(state: ReadState, opcode: nat) | NoNext(err: ReadError)

  /** On to the next frame that starts a message. */
  function NextMessage(s: ReadState, isServer: bool): (r: NextResult)
    ensures r.Next? ==> |r.state.br| < |s.br| && IsData(r.opcode)
    decreases |s.br|
  {
    AdvanceShrinks(s, isServer);
    match Advance(s, isServer)
    case Failed(e) => NoNext(e)
    case Advanced(t, frameType) => if IsData(frameType) then Next(t, frameType) else NextMessage(t, isServer)
  }

  /** The bytes of the current message that are still to be read, and how reading them ends. */
  datatype RestResult = Whole(data: seq<byte>, after: ReadState) | Broken(data: seq<byte>, err: ReadError)

  function Prepend(p: seq<byte>, r: RestResult): RestResult {
    match r
    case Whole(data, after) => Whole(p + data, after)
    case Broken(data, err) => Broken(p + data, err)
  }

  /** The state when `n` bytes of the current frame have been read. */
  function Consumed(s: ReadState, n: nat, isServer: bool): ReadState
    requires n <= |s.br|
  {
    s.(br := s.br[n..], remaining := s.remaining - n,
       maskPos := if isServer then (s.maskPos + n) % 4 else s.maskPos)
  }

  function FrameRest(s: ReadState, n: nat, isServer: bool): (r: seq<byte>)
    requires n <= |s.br|
    ensures |r| == n
  {
    Unmasked(s.maskKey, s.maskPos, s.br[..n], isServer)
  }

  function Rest(s: ReadState, isServer: bool): (r: RestResult)
    ensures r.Whole? ==> |r.after.br| <= |s.br|
    decreases |s.br|
  {
    if s.remaining > 0 then
      if s.remaining > |s.br| then Broken(FrameRest(s, |s.br|, isServer), EndOfFile)
      else Prepend(FrameRest(s, s.remaining, isServer), Rest(Consumed(s, s.remaining, isServer), isServer))
    else if s.final then Whole([], s)
    else
      AdvanceShrinks(s, isServer);
      match Advance(s, isServer)
      case Failed(e) => Broken([], Reported(e))
      case Advanced(t, frameType) => if IsData(frameType) then Broken([], UnexpectedData) else Rest(t, isServer)
  }

  /** How reading a stream ends: after its last whole message, or with a message begun. */
  datatype Ending = AfterMessages(err: ReadError) | WithinMessage(begun: Message, err: ReadError)

  datatype History = History(messages: seq<Message>, ending: Ending)

  /** All the messages that the application can read from the stream, and what comes after them. */
  function Everything(s: ReadState, isServer: bool): History
    decreases |s.br|
  {
    match NextMessage(s, isServer)
    case NoNext(e) => History([], AfterMessages(e))
    case Next(t, opcode) =>
      match Rest(t, isServer)
      case Broken(data, e) => History([], WithinMessage(Message(opcode, data), e))
      case Whole(data, after) =>
        var h := Everything(after, isServer);
        History([Message(opcode, data)] + h.messages, h.ending)
  }

  // ------------------------------------------------- reading in pieces of any size

  lemma PrependPrepend(p: seq<byte>, q: seq<byte>, r: RestResult)
    ensures Prepend(p, Prepend(q, r)) == Prepend(p + q, r)
    ensures Prepend([], r) == r
  {
    assert p + (q + r.data) == p + q + r.data;
    assert [] + r.data == r.data;
  }

  lemma FrameRestSplit(s: ReadState, n: nat, m: nat, isServer: bool)
    requires n + m <= |s.br|
    ensures FrameRest(s, n + m, isServer)
         == FrameRest(s, n, isServer) + FrameRest(Consumed(s, n, isServer), m, isServer)
  {
    hide Masked;
    MaskConcat(s.maskKey, s.maskPos, s.br[..n], s.br[n..n + m]);
    assert s.br[..n + m] == s.br[..n] + s.br[n..n + m];
    assert s.br[n..][..m] == s.br[n..n + m];
  }

  lemma ConsumedTwice(s: ReadState, n: nat, m: nat, isServer: bool)
    requires n + m <= |s.br|
    ensures Consumed(Consumed(s, n, isServer), m, isServer) == Consumed(s, n + m, isServer)
  {
    assert s.br[n..][m..] == s.br[n + m..];
    assert ((s.maskPos + n) % 4 + m) % 4 == (s.maskPos + (n + m)) % 4;
  }

  lemma RestInFrame(s: ReadState, isServer: bool)
    requires s.remaining > 0
    ensures Rest(s, isServer)
         == if s.remaining > |s.br| then Broken(FrameRest(s, |s.br|, isServer), EndOfFile)
            else Prepend(FrameRest(s, s.remaining, isServer), Rest(Consumed(s, s.remaining, isServer), isServer))
  {
    hide FrameRest, Consumed, Advance;
  }

  lemma RestBetween(s: ReadState, isServer: bool)
    requires s.remaining <= 0
    ensures Rest(s, isServer)
         == if s.final then Whole([], s) else RestFromNextFrame(Advance(s, isServer), isServer)
  {
    hide FrameRest, Consumed, Advance;
  }

  function RestFromNextFrame(a: AdvanceResult, isServer: bool): RestResult {
    match a
    case Failed(e) => Broken([], Reported(e))
    case Advanced(t, frameType) => if IsData(frameType) then Broken([], UnexpectedData) else Rest(t, isServer)
  }

  /** Reading part of a frame takes exactly those bytes off what is still to be read. */
  lemma RestAfterPiece(s: ReadState, isServer: bool, n: nat)
    requires 0 < n <= s.remaining && n <= |s.br|
    ensures Rest(s, isServer) == Prepend(FrameRest(s, n, isServer), Rest(Consumed(s, n, isServer), isServer))
  {
    hide FrameRest, Rest;
    var t := Consumed(s, n, isServer);
    assert t.remaining == s.remaining - n && |t.br| == |s.br| - n;
    hide Consumed;
    RestInFrame(s, isServer);
    if n < s.remaining {
      RestInFrame(t, isServer);
      if s.remaining > |s.br| {
        FrameRestSplit(s, n, |s.br| - n, isServer);
      } else {
        var m := s.remaining - n;
        FrameRestSplit(s, n, m, isServer);
        ConsumedTwice(s, n, m, isServer);
        PrependPrepend(FrameRest(s, n, isServer), FrameRest(t, m, isServer),
                       Rest(Consumed(s, s.remaining, isServer), isServer));
      }
    }
  }

  lemma AdvanceSkips(s: ReadState, isServer: bool)
    requires 0 < s.remaining <= |s.br|
    ensures Advance(s, isServer) == Advance(Consumed(s, s.remaining, isServer), isServer)
  {
    hide ParseHeader, AfterControl;
    var t := Consumed(s, s.remaining, isServer);
    match ParseHeader(t.br, isServer, s.final) {
      case UnexpectedEOF =>
      case ProtocolError =>
      case Header(final, opcode, length, key, rest) =>
        if length >= 0 {
          ControlSkips(s, t, opcode, length, if key.Some? then key.value else s.maskKey, rest, isServer);
        }
    }
  }

  lemma ControlSkips(s: ReadState, t: ReadState, opcode: nat, length: int, key: Key, rest: seq<byte>, isServer: bool)
    requires length >= 0 && s.final == t.final && s.replies == t.replies && (!isServer ==> s.maskPos == t.maskPos)
    ensures AfterControl(s, opcode, length, key, rest, isServer) == AfterControl(t, opcode, length, key, rest, isServer)
  {
    hide Unmasked;
  }

  /**
    Moving to the next message without reading the current one to its end is
    the same as reading it to its end first; if it has no end, there is no next
    message either.
   */
  lemma {:induction false} NextDiscardsRest(s: ReadState, isServer: bool)
    ensures var (r, n) := (Rest(s, isServer), NextMessage(s, isServer));
            if r.Whole? then n == NextMessage(r.after, isServer) else n.NoNext?
    decreases |s.br|
  {
    hide Advance, FrameRest;
    if s.remaining > 0 {
      RestInFrame(s, isServer);
      if s.remaining <= |s.br| {
        AdvanceSkips(s, isServer);
        NextDiscardsRest(Consumed(s, s.remaining, isServer), isServer);
        NextUnfold(s, isServer);
        NextUnfold(Consumed(s, s.remaining, isServer), isServer);
      } else {
        AdvanceBeyond(s, isServer);
      }
    } else if !s.final {
      AdvanceShrinks(s, isServer);
      RestBetween(s, isServer);
      match Advance(s, isServer) {
        case Failed(_) =>
        case Advanced(t, frameType) => NextDiscardsRest(t, isServer);
      }
    } else {
      RestBetween(s, isServer);
    }
  }

  lemma NextUnfold(s: ReadState, isServer: bool)
    ensures NextMessage(s, isServer) == NextFrom(Advance(s, isServer), isServer)
  {
    hide Advance;
  }

  function NextFrom(a: AdvanceResult, isServer: bool): NextResult {
    match a
    case Failed(e) => NoNext(e)
    case Advanced(t, frameType) => if IsData(frameType) then Next(t, frameType) else NextMessage(t, isServer)
  }

  lemma AdvanceBeyond(s: ReadState, isServer: bool)
    requires s.remaining > |s.br|
    ensures Advance(s, isServer) == Failed(EndOfFile)
  {
  }

  class Conn {
    const isServer: bool
    var br: seq<byte>
    var readErr: Option<ReadError>
    var readRemaining: int
    var readFinal: bool
    var readSeq: nat
    var readMaskPos: nat
    var readMaskKey: Key
    var replies: seq<Frame>

    function View(): ReadState
      reads this
    {
      ReadState(br, readRemaining, readFinal, readMaskPos, readMaskKey, replies)
    }

    constructor (isServer: bool, stream: seq<byte>)
      ensures this.isServer == isServer && View() == Start(stream) && readErr.None?
    {
      this.isServer := isServer;
      br := stream;
      readErr := None;
      readRemaining := 0;
      readFinal := true;
      readSeq := 0;
      readMaskPos := 0;
      readMaskKey := [0, 0, 0, 0];
      replies := [];
    }

    /** The next `n` bytes of the stream, or nothing when it ends before. */
    method ReadFull(n: nat) returns (p: seq<byte>, ok: bool)
      modifies this`br
      ensures ok <==> n <= old(|br|)
      ensures ok ==> p == old(br[..n]) && br == old(br[n..])
    {
      if n > |br| {
        return [], false;
      }
      p, br, ok := br[..n], br[n..], true;
    }

    /** The extended length, if the 7-bit one announces it. */
    method ReadLength() returns (ok: bool)
      requires 0 <= readRemaining < 128
      modifies this`br, this`readRemaining
      ensures var k := ExtendedBytes(old(readRemaining));
              && (ok <==> k <= old(|br|))
              && (ok ==> br == old(br[k..]) && readRemaining == FullLength(old(readRemaining), old(br[..k])))
    {
      hide FromBigEndian;
      ok := true;
      var b;
      if readRemaining == 126 {
        b, ok := ReadFull(2);
        if ok {
          readRemaining := FromBigEndian(b);
        }
      } else if readRemaining == 127 {
        b, ok := ReadFull(8);
        if ok {
          readRemaining := SignedLength(FromBigEndian(b));
        }
      }
    }

    /** Checks the opcode against the place in the message, and notes whether the message ends here. */
    method CheckOpcode(frameType: nat, final: bool) returns (ok: bool)
      requires 0 <= readRemaining < 128
      modifies this`readFinal
      ensures ok == Acceptable(final, frameType, readRemaining, old(readFinal))
      ensures ok ==> readFinal == if IsControl(frameType) then old(readFinal) else final
    {
      if IsControl(frameType) {
        return readRemaining <= MAX_CONTROL_PAYLOAD && final;
      } else if IsData(frameType) {
        if !readFinal {
          return false;
        }
        readFinal := final;
      } else if frameType == CONTINUATION {
        if readFinal {
          return false;
        }
        readFinal := final;
      } else {
        return false;
      }
      return true;
    }

    /** Checks the mask flag, and reads the key that a client sends. */
    method ReadKey(mask: bool) returns (err: Option<ReadError>)
      modifies this`br, this`readMaskPos, this`readMaskKey
      ensures match ParseKey(old(br), isServer, true, 0, mask, 0)
              case UnexpectedEOF => err == Some(UnexpectedEnd)
              case ProtocolError => err == Some(Protocol)
              case Header(_, _, _, key, rest) =>
                && err.None? && br == rest
                && readMaskKey == (if key.Some? then key.value else old(readMaskKey))
                && readMaskPos == if isServer then 0 else old(readMaskPos)
    {
      if mask != isServer {
        return Some(Protocol);
      }
      if mask {
        readMaskPos := 0;
        var key, got := ReadFull(4);
        if !got {
          return Some(UnexpectedEnd);
        }
        readMaskKey := key;
      }
      return None;
    }

    /** Reads and parses a frame header from the stream, step by step. */
    method ReadHeader() returns (opcode: int, err: Option<ReadError>)
      modifies this`br, this`readRemaining, this`readFinal, this`readMaskPos, this`readMaskKey
      ensures match ParseHeader(old(br), isServer, old(readFinal))
              case UnexpectedEOF => err == Some(UnexpectedEnd)
              case ProtocolError => err == Some(Protocol)
              case Header(f, o, length, key, rest) =>
                && err.None? && opcode == o && br == rest && readRemaining == length
                && readFinal == (if IsControl(o) then old(readFinal) else f)
                && readMaskKey == (if key.Some? then key.value else old(readMaskKey))
                && readMaskPos == if isServer then 0 else old(readMaskPos)
    {
      hide FullLength, Acceptable;
      ghost var stream := br;
      var b, ok := ReadFull(2);
      if !ok {
        return NO_FRAME, Some(UnexpectedEnd);
      }
      var final := b[0] >= 128;
      var frameType := b[0] % 16;
      var reserved := b[0] / 16 % 8;
      var mask := b[1] >= 128;
      readRemaining := b[1] % 128;
      if reserved != 0 {
        return NO_FRAME, Some(Protocol);
      }
      ok := CheckOpcode(frameType, final);
      if !ok {
        return NO_FRAME, Some(Protocol);
      }
      ghost var k := ExtendedBytes(readRemaining);
      hide ExtendedBytes;
      if |stream| >= 2 + k {
        assert stream[2..][..k] == stream[2..2 + k] && stream[2..][k..] == stream[2 + k..];
      }
      ok := ReadLength();
      if !ok {
        return NO_FRAME, Some(UnexpectedEnd);
      }
      err := ReadKey(mask);
      return frameType, err;
    }

    method AdvanceFrame() returns (frameType: int, err: Option<ReadError>)
      modifies this
      ensures readErr == old(readErr) && readSeq == old(readSeq)
      ensures match Advance(old(View()), isServer)
              case Failed(e) => err == Some(e)
              case Advanced(t, opcode) => err.None? && frameType == opcode && View() == t
    {
      hide ParseHeader, Masked;
      if readRemaining > 0 {
        if readRemaining > |br| {
          return NO_FRAME, Some(EndOfFile);
        }
        br := br[readRemaining..];
      }
      ParseShrinks(br, isServer, readFinal);
      var opcode;
      opcode, err := ReadHeader();
      if err.Some? {
        return NO_FRAME, err;
      }
      if !IsControl(opcode) {
        return opcode, None;
      }
      var payload, ok := ReadFull(readRemaining);
      if !ok {
        return NO_FRAME, Some(UnexpectedEnd);
      }
      readRemaining := 0;
      if isServer {
        payload := Masked(readMaskKey, 0, payload);
      }
      if opcode == CLOSE_MESSAGE {
        return NO_FRAME, Some(CloseError(payload));
      }
      if opcode == PING_MESSAGE {
        replies := replies + [Frame(true, PONG_MESSAGE, payload)];
      }
      return opcode, None;
    }

    /** Discards the rest of the previous message and moves to the next one. */
    method NextReader() returns (messageType: int, w: nat, err: Option<ReadError>)
      modifies this
      ensures w == readSeq == old(readSeq) + 1
      ensures old(readErr).Some? ==> err == readErr == old(readErr) && View() == old(View())
      ensures old(readErr).None? ==>
                match NextMessage(old(View()), isServer)
                case NoNext(e) => err == readErr == Some(e)
                case Next(t, opcode) => err.None? && readErr.None? && messageType == opcode && View() == t
    {
      hide Advance;
      readSeq := readSeq + 1;
      w := readSeq;
      if readErr.Some? {
        return NO_FRAME, w, readErr;
      }
      while true
        invariant readErr.None? && w == readSeq == old(readSeq) + 1
        invariant NextMessage(View(), isServer) == NextMessage(old(View()), isServer)
        decreases |br|
      {
        AdvanceShrinks(View(), isServer);
        messageType, err := AdvanceFrame();
        if err.Some? {
          readErr := err;
          return NO_FRAME, w, err;
        }
        if IsData(messageType) {
          return messageType, w, None;
        }
      }
    }

    /** Takes some bytes of the current frame, as many as the stream happens to have ready. */
    method ReadPiece(size: nat) returns (chunk: seq<byte>)
      requires size > 0 && readRemaining > 0 && |br| > 0
      modifies this
      ensures readErr == old(readErr) && readSeq == old(readSeq)
      ensures 0 < |chunk| <= size && |chunk| <= old(|br|) && |chunk| <= old(readRemaining)
      ensures chunk == FrameRest(old(View()), |chunk|, isServer) && View() == Consumed(old(View()), |chunk|, isServer)
    {
      hide Masked;
      var n :| 0 < n <= |br| && n <= readRemaining && n <= size;
      chunk := br[..n];
      if isServer {
        chunk := Masked(readMaskKey, readMaskPos, chunk);
        readMaskPos := (readMaskPos + n) % 4;
      }
      br := br[n..];
      readRemaining := readRemaining - n;
    }

    /** What a reader that is not the current one, or that failed before, gets at once. */
    function ReaderErr(w: nat): Option<ReadError>
      reads this
    {
      if w != readSeq then Some(EndOfFile)
      else if readErr.Some? then Some(Reported(readErr.value)) else None
    }

    /** Hands out at most `size` bytes of the current message, or reports how the message ends. */
    method Read(w: nat, size: nat) returns (chunk: seq<byte>, err: Option<ReadError>)
      modifies this
      ensures old(ReaderErr(w)).Some? ==>
                && chunk == [] && err == old(ReaderErr(w))
                && View() == old(View()) && readErr == old(readErr) && readSeq == old(readSeq)
      ensures err.None? ==>
                && readErr.None? && w == readSeq && |chunk| <= size && (size > 0 ==> |chunk| > 0 && |br| < old(|br|))
                && Rest(old(View()), isServer) == Prepend(chunk, Rest(View(), isServer))
      ensures old(ReaderErr(w)).None? && err.Some? ==>
                && chunk == []
                && match Rest(old(View()), isServer)
                   case Whole(data, after) =>
                     data == [] && err == Some(EndOfFile) && readErr.None? && View() == after && readSeq == w + 1
                   case Broken(data, e) =>
                     && data == [] && err == Some(e) && readSeq == w
                     && readErr.Some? && Reported(readErr.value) == Reported(e)
    {
      hide Advance, Rest, FrameRest;
      err := ReaderErr(w);
      if err.Some? {
        return [], err;
      }
      while true
        invariant readErr.None? && w == readSeq && |br| <= old(|br|)
        invariant Rest(View(), isServer) == Rest(old(View()), isServer)
        decreases |br|
      {
        ghost var before := View();
        if readRemaining > 0 {
          RestInFrame(before, isServer);
          if size == 0 {
            PrependPrepend([], [], Rest(before, isServer));
            return [], None;
          }
          if |br| == 0 {
            readErr := Some(EndOfFile);
            return [], readErr;
          }
          chunk := ReadPiece(size);
          RestAfterPiece(before, isServer, |chunk|);
          return chunk, None;
        }
        RestBetween(before, isServer);
        if readFinal {
          readSeq := readSeq + 1;
          return [], Some(EndOfFile);
        }
        AdvanceShrinks(before, isServer);
        var frameType;
        frameType, err := AdvanceFrame();
        if err.Some? {
          readErr := err;
          return [], Some(Reported(err.value));
        }
      }
    }

    /** Reads the rest of the message in pieces of at most `size` bytes. */
    method ReadAll(w: nat, size: nat) returns (data: seq<byte>, err: ReadError)
      requires size > 0 && readErr.None? && w == readSeq
      modifies this
      ensures match Rest(old(View()), isServer)
              case Whole(d, after) =>
                data == d && err == EndOfFile && readErr.None? && View() == after && readSeq == w + 1
              case Broken(d, e) =>
                && data == d && err == e && readSeq == w
                && readErr.Some? && Reported(readErr.value) == Reported(e)
    {
      hide Rest;
      data := [];
      PrependPrepend([], [], Rest(View(), isServer));
      while true
        invariant readErr.None? && w == readSeq
        invariant Rest(old(View()), isServer) == Prepend(data, Rest(View(), isServer))
        decreases |br|
      {
        ghost var before := View();
        var chunk, e := Read(w, size);
        if e.Some? {
          assert data + [] == data;
          return data, e.value;
        }
        PrependPrepend(data, chunk, Rest(View(), isServer));
        data := data + chunk;
      }
    }
  }
}
