/**
  The writing half of a WebSocket connection
  (Godeps/_workspace/src/github.com/gorilla/websocket/conn.go): frames are built
  in one buffer with the header right-aligned before the payload, masked in
  place by a client, and flushed when the buffer is full, when a message ends,
  or at once for a large write of a server.  The network may be a reliable one,
  or one that fails at any write after any part of its bytes.
 */
module WsWriter {
  import opened Bytes
  import opened Outcomes
  import opened WsFrames
  import opened WsMessages

  datatype WsError = CloseSent | BadWriteOpCode | WriteClosed | InvalidControlFrame | Internal | Network

  /** The longest slice that this model lets a caller pass; Go's own limit is of this order. */
  const MAX_SLICE := 0x4000_0000_0000_0000

  const DEFAULT_WRITE_BUFFER_SIZE := 4096

  /** Stores `n` big-endian in the `k` bytes of the buffer at `at`. */
  method PutBigEndian(b: array<byte>, at: nat, n: nat, k: nat)
    requires at + k <= b.Length
    modifies b
    ensures b[..] == old(b[..at]) + BigEndian(n, k) + old(b[at + k..])
    decreases k
  {
    if k > 0 {
      ghost var was := b[..];
      PutBigEndian(b, at, n / 256, k - 1);
      b[at + k - 1] := n % 256;
      assert b[..] == was[..at] + (BigEndian(n / 256, k - 1) + [n % 256]) + was[at + k..];
    }
  }

  /** Four bytes of a random 32-bit number: any key at all. */
  method NewMaskKey() returns (key: Key)
  {
    var n: uint32 :| 0 <= n < 0x1_0000_0000;
    key := Le32(n);
  }

  /** Where a header of the frame starts in the buffer, so that it ends where the payload begins. */
  function FramePos(isServer: bool, length: nat): nat {
    (if isServer then 4 else 0) + if length >= 65536 then 0 else if length > 125 then 6 else 8
  }

  function HeaderBytes(final: bool, opcode: nat, length: nat, masked: bool): (h: seq<byte>)
    requires opcode < 16 && length < 2 * MAX_SLICE
    ensures |h| == if length >= 65536 then 10 else if length > 125 then 4 else 2
  {
    [FirstByte(final, opcode)] + LengthBytes(length, masked)
  }

  /** Writes the header into the buffer, in front of the key and the payload. */
  method BuildHeader(b: array<byte>, isServer: bool, final: bool, opcode: nat, length: nat) returns (framePos: nat)
    requires b.Length >= MAX_FRAME_HEADER_SIZE && opcode < 16 && length < 2 * MAX_SLICE
    modifies b
    ensures framePos == FramePos(isServer, length)
    ensures var end := framePos + |HeaderBytes(final, opcode, length, !isServer)|;
            && end == (if isServer then MAX_FRAME_HEADER_SIZE else MAX_FRAME_HEADER_SIZE - 4)
            && b[framePos..end] == HeaderBytes(final, opcode, length, !isServer)
            && b[end..] == old(b[end..])
  {
    hide BigEndian;
    var b0 := FirstByte(final, opcode);
    var b1 := if isServer then 0 else 128;
    framePos := if isServer then 4 else 0;
    if length >= 65536 {
      PutHeader(b, framePos, b0, b1 + 127, length, 8);
    } else if length > 125 {
      framePos := framePos + 6;
      PutHeader(b, framePos, b0, b1 + 126, length, 2);
    } else {
      framePos := framePos + 8;
      PutHeader(b, framePos, b0, b1 + length, length, 0);
    }
  }

  /** The two fixed bytes of a header and `k` bytes of extended length, at the given place in the buffer. */
  method PutHeader(b: array<byte>, at: nat, b0: byte, b1: byte, length: nat, k: nat)
    requires at + 2 + k <= b.Length
    modifies b
    ensures b[at..at + 2 + k] == [b0, b1] + BigEndian(length, k)
    ensures b[at + 2 + k..] == old(b[at + 2 + k..])
  {
    hide BigEndian;
    b[at] := b0;
    b[at + 1] := b1;
    PutBigEndian(b, at + 2, length, k);
  }

  /** The buffer part that goes out, when header, key and masked payload are in place. */
  lemma BufferIsFrame(isServer: bool, f: Frame, key: Key, buf: seq<byte>, pos: nat,
                      extra: seq<byte>, pending: seq<byte>)
    requires FrameOk(f) && f.payload == pending + extra && |f.payload| < 2 * MAX_SLICE && (!isServer ==> extra == [])
    requires MAX_FRAME_HEADER_SIZE <= pos <= |buf|
    requires var framePos := FramePos(isServer, |f.payload|);
             var end := if isServer then MAX_FRAME_HEADER_SIZE else MAX_FRAME_HEADER_SIZE - 4;
             buf[framePos..end] == HeaderBytes(f.final, f.opcode, |f.payload|, !isServer)
    requires if isServer then buf[MAX_FRAME_HEADER_SIZE..pos] == pending
             else buf[MAX_FRAME_HEADER_SIZE - 4..MAX_FRAME_HEADER_SIZE] == key
                  && buf[MAX_FRAME_HEADER_SIZE..pos] == Masked(key, 0, pending)
    ensures buf[FramePos(isServer, |f.payload|)..pos] + extra
         == FrameBytes(f, if isServer then None else Some(key))
  {
    hide LengthBytes, FirstByte, Masked;
    var framePos := FramePos(isServer, |f.payload|);
    if isServer {
      assert buf[framePos..pos] == buf[framePos..14] + buf[14..pos];
    } else {
      SplitInThree(buf, framePos, 10, 14, pos);
      assert pending + extra == pending;
    }
  }

  lemma TakeMore(p: seq<byte>, done: nat, n: nat)
    requires done + n <= |p|
    ensures p[..done] + p[done..][..n] == p[..done + n]
  {
  }

  lemma SplitInThree(s: seq<byte>, a: nat, b: nat, c: nat, d: nat)
    requires a <= b <= c <= d <= |s|
    ensures s[a..d] == s[a..b] + s[b..c] + s[c..d]
  {
  }

  /** The message under way, given what was assembled and what waits in the buffer. */
  function OpenMessage(a: Assembly, frameType: int, pending: seq<byte>): Message
    requires frameType >= 0 && (frameType == CONTINUATION ==> a.partial.Some?)
  {
    if frameType == CONTINUATION then Plus(a.partial.value, pending) else Message(frameType, pending)
  }

  /** What a flushed frame adds to the messages assembled so far. */
  lemma FlushAssembles(a: Assembly, frameType: nat, final: bool, pending: seq<byte>, extra: seq<byte>)
    requires frameType == CONTINUATION <==> a.partial.Some?
    requires frameType == CONTINUATION || IsData(frameType) || IsControl(frameType)
    ensures var f := Frame(final, frameType, pending + extra);
            var m := Plus(OpenMessage(a, frameType, pending), extra);
            && Fits(a, f)
            && Extended(a, f) == if IsControl(frameType) then a
                                 else if final then Assembly(a.done + [m], None)
                                 else Assembly(a.done, Some(m))
  {
    if frameType == CONTINUATION {
      var p := a.partial.value.payload;
      assert p + pending + extra == p + (pending + extra);
    }
  }

  predicate IsMessageType(t: int) {
    IsControl(t) || IsData(t)
  }

  lemma FrameIsNotEmpty(f: Frame, key: Option<Key>)
    requires FrameOk(f)
    ensures |FrameBytes(f, key)| > 0
  {
  }

  class Conn {
    const isServer: bool
    const writeBuf: array<byte>
    var writePos: nat
    var writeFrameType: int
    var writeSeq: nat
    var writeErr: Option<WsError>
    var closeSent: bool
    const reliable: bool
    var broken: bool
    var wire: seq<byte>
    ghost var sent: seq<Sent>
    ghost var whole: seq<byte>
    ghost var cut: seq<byte>

    /** The payload bytes that wait in the buffer. */
    function Pending(): seq<byte>
      requires MAX_FRAME_HEADER_SIZE <= writePos <= writeBuf.Length
      reads this, writeBuf
    {
      writeBuf[MAX_FRAME_HEADER_SIZE..writePos]
    }

    ghost predicate Valid()
      reads this, writeBuf
    {
      && MAX_FRAME_HEADER_SIZE < writeBuf.Length < MAX_SLICE
      && MAX_FRAME_HEADER_SIZE <= writePos <= writeBuf.Length
      && WireOk()
      && (writeErr.None? ==> Ready())
    }

    /** The writer's own state agrees with the frames it has sent. */
    ghost predicate Ready()
      requires MAX_FRAME_HEADER_SIZE <= writePos <= writeBuf.Length
      reads this, writeBuf
    {
      && (writeFrameType == NO_FRAME || writeFrameType == CONTINUATION
          || IsData(writeFrameType) || IsControl(writeFrameType))
      && (writeFrameType == CONTINUATION <==> Assembled(sent).partial.Some?)
      && (writeFrameType == NO_FRAME ==> writePos == MAX_FRAME_HEADER_SIZE)
    }

    /** The message that is being written: what was flushed of it, and what waits in the buffer. */
    ghost function Open(): Message
      requires Valid() && writeErr.None? && writeFrameType != NO_FRAME
      reads this, writeBuf
    {
      OpenMessage(Assembled(sent), writeFrameType, Pending())
    }

    constructor (isServer: bool, writeBufferSize: nat, reliable: bool)
      requires writeBufferSize < MAX_SLICE - MAX_FRAME_HEADER_SIZE
      ensures Valid() && this.isServer == isServer && this.reliable == reliable && fresh(writeBuf)
      ensures writeBuf.Length == 14 + if writeBufferSize == 0 then 4096 else writeBufferSize
      ensures writeErr.None? && writeFrameType == NO_FRAME && sent == [] && !closeSent
    {
      this.isServer := isServer;
      this.reliable := reliable;
      var size := if writeBufferSize == 0 then DEFAULT_WRITE_BUFFER_SIZE else writeBufferSize;
      writeBuf := new byte[size + MAX_FRAME_HEADER_SIZE](_ => 0);
      writePos := MAX_FRAME_HEADER_SIZE;
      writeFrameType := NO_FRAME;
      writeSeq := 0;
      writeErr := None;
      closeSent := false;
      broken := false;
      wire := [];
      sent := [];
      whole := [];
      cut := [];
    }

    /**
      The wire is the frames sent, in sequence, and after a failed write the
      part of one more; behind a close frame there is nothing.
     */
    ghost predicate WireOk()
      reads this
    {
      && OnWire(whole, sent, !isServer)
      && wire == whole + cut
      && (!broken ==> cut == [])
      && (cut != [] ==> IsCut(cut, sent, !isServer))
      && (CloseIn(sent) ==> closeSent && cut == [])
      && (reliable ==> !broken)
    }

    /** The network takes some of the bytes, nothing on a closed connection, and all if it is reliable. */
    method Send(buf: seq<byte>) returns (n: nat)
      modifies this`wire
      ensures n <= |buf| && (broken ==> n == 0) && (reliable && !broken ==> n == |buf|)
      ensures wire == old(wire) + buf[..n]
    {
      if broken {
        n := 0;
      } else if reliable {
        n := |buf|;
      } else {
        n :| 0 <= n <= |buf|;
      }
      wire := wire + buf[..n];
    }

    /** Puts one whole frame on the wire, unless a close frame went before or the network fails. */
    method WriteFrame(frameType: nat, bytes: seq<byte>, extra: seq<byte>, ghost s: Sent) returns (err: Option<WsError>)
      requires WireOk() && SentOk(s, !isServer) && s.frame.opcode == frameType
      requires bytes + extra == FrameBytes(s.frame, s.key) && Fits(Assembled(sent), s.frame)
      modifies this`wire, this`sent, this`closeSent, this`broken, this`whole, this`cut
      ensures WireOk()
      ensures closeSent == (old(closeSent) || frameType == CLOSE_MESSAGE)
      ensures if old(closeSent) then err == Some(CloseSent) && wire == old(wire)
              else err.None? || (err == Some(Network) && broken)
      ensures sent == if err.None? then old(sent) + [s] else old(sent)
      ensures Assembled(sent) == if err.None? then Extended(old(Assembled(sent)), s.frame) else old(Assembled(sent))
    {
      hide FrameBytes, Extended, Fits, OnWire, Assembled, FrameOk, CloseIn, IsCut;
      FrameIsNotEmpty(s.frame, s.key);
      if closeSent {
        return Some(CloseSent);
      } else if frameType == CLOSE_MESSAGE {
        closeSent := true;
      }
      OnWireSnoc(whole, sent, !isServer, s);
      var ok;
      ghost var part;
      ok, part := SendBuffers(bytes, extra);
      if !ok {
        if !old(broken) {
          cut := part;
          CutFromFrame(cut, sent, !isServer, s, |part|);
        }
        return Some(Network);
      }
      whole := whole + part;
      sent := sent + [s];
      return None;
    }

    /** Writes one buffer after the other; a write that takes less than all of it closes the connection. */
    method SendBuffers(bytes: seq<byte>, extra: seq<byte>) returns (ok: bool, ghost part: seq<byte>)
      requires |bytes + extra| > 0
      modifies this`wire, this`broken
      ensures wire == old(wire) + part
      ensures ok ==> part == bytes + extra && !old(broken) && !broken
      ensures !ok ==> broken && (reliable ==> old(broken)) && (old(broken) ==> part == [])
      ensures !ok ==> |part| < |bytes + extra| && part == (bytes + extra)[..|part|]
    {
      var n := Send(bytes);
      if n != |bytes| {
        broken := true;
        return false, bytes[..n];
      }
      n := Send(extra);
      assert old(wire) + bytes + extra[..n] == old(wire) + (bytes + extra[..n]);
      if n != |extra| {
        broken := true;
        return false, bytes + extra[..n];
      }
      return true, bytes + extra;
    }

    /**
      Ends the current frame.  A control frame must be final and short; behind
      a close frame nothing goes out any more.
     */
    method FlushFrame(final: bool, extra: seq<byte>) returns (err: Option<WsError>)
      requires Valid() && writeErr.None? && writeFrameType != NO_FRAME
      requires |extra| < MAX_SLICE
      modifies this, writeBuf
      ensures Valid()
      ensures var bad := IsControl(old(writeFrameType)) && (!final || |old(Pending())| + |extra| > MAX_CONTROL_PAYLOAD);
              && (bad ==>
                    && err == Some(InvalidControlFrame) && writeErr.None?
                    && sent == old(sent) && closeSent == old(closeSent)
                    && writeFrameType == NO_FRAME && writeSeq == old(writeSeq) + 1)
              && (!bad && !isServer && extra != [] ==>
                    err == writeErr == Some(Internal) && sent == old(sent) && closeSent == old(closeSent))
      ensures !(IsControl(old(writeFrameType)) && (!final || |old(Pending())| + |extra| > MAX_CONTROL_PAYLOAD))
              && (isServer || extra == []) ==>
                && writeErr == err
                && (if old(closeSent) then err == Some(CloseSent) else err.None? || (err == Some(Network) && !reliable))
                && writeSeq == old(writeSeq) + (if final then 1 else 0)
                && closeSent == (old(closeSent) || old(writeFrameType) == CLOSE_MESSAGE)
                && (err.Some? ==> sent == old(sent))
                && (err.None? ==>
                      && |sent| == old(|sent|) + 1 && sent[..old(|sent|)] == old(sent)
                      && sent[old(|sent|)].frame == Frame(final, old(writeFrameType), old(Pending()) + extra)
                      && writePos == MAX_FRAME_HEADER_SIZE
                      && writeFrameType == if final then NO_FRAME else CONTINUATION)
      ensures err.None? ==>
                Assembled(sent)
                == if IsControl(old(writeFrameType)) then old(Assembled(sent))
                   else if final then Assembly(old(Assembled(sent).done) + [Plus(old(Open()), extra)], None)
                   else Assembly(old(Assembled(sent).done), Some(Plus(old(Open()), extra)))
    {
      hide Assembled, Extended, OnWire, Fits, Plus, OpenMessage, CloseIn, IsCut, HeaderBytes, Masked,
           FramePos;
      FlushAssembles(Assembled(sent), writeFrameType, final, Pending(), extra);
      var length := writePos - MAX_FRAME_HEADER_SIZE + |extra|;
      if IsControl(writeFrameType) && (!final || length > MAX_CONTROL_PAYLOAD) {
        writeSeq := writeSeq + 1;
        writeFrameType := NO_FRAME;
        writePos := MAX_FRAME_HEADER_SIZE;
        return Some(InvalidControlFrame);
      }
      if !isServer && |extra| > 0 {
        var framePos, key := BuildFrame(final, length);
        writeErr := Some(Internal);
        return writeErr;
      }
      writeErr := PutFrame(final, extra);
      writePos := MAX_FRAME_HEADER_SIZE;
      writeFrameType := CONTINUATION;
      if final {
        writeSeq := writeSeq + 1;
        writeFrameType := NO_FRAME;
      }
      return writeErr;
    }

    /** Builds the frame of the pending bytes and the extra ones, and puts it on the wire. */
    method PutFrame(final: bool, extra: seq<byte>) returns (err: Option<WsError>)
      requires Valid() && writeErr.None? && writeFrameType != NO_FRAME
      requires |extra| < MAX_SLICE && (isServer || extra == [])
      requires IsControl(writeFrameType) ==> final && |Pending()| + |extra| <= MAX_CONTROL_PAYLOAD
      modifies this`wire, this`sent, this`closeSent, this`broken, this`whole, this`cut, writeBuf
      ensures WireOk()
      ensures closeSent == (old(closeSent) || writeFrameType == CLOSE_MESSAGE)
      ensures if old(closeSent) then err == Some(CloseSent) else err.None? || (err == Some(Network) && !reliable)
      ensures err.Some? ==> sent == old(sent)
      ensures err.None? ==>
                && |sent| == old(|sent|) + 1 && sent[..old(|sent|)] == old(sent)
                && sent[old(|sent|)].frame == Frame(final, writeFrameType, old(Pending()) + extra)
                && Assembled(sent)
                   == Extended(old(Assembled(sent)), Frame(final, writeFrameType, old(Pending()) + extra))
    {
      hide Assembled, Extended, OnWire, FrameBytes, HeaderBytes, Fits, Plus, OpenMessage, FramePos, Masked, CloseIn,
           IsCut;
      FlushAssembles(Assembled(sent), writeFrameType, final, Pending(), extra);
      ghost var pending := Pending();
      ghost var f := Frame(final, writeFrameType, pending + extra);
      var framePos, key := BuildFrame(final, writePos - MAX_FRAME_HEADER_SIZE + |extra|);
      ghost var s := Sent(f, if isServer then None else Some(key));
      BufferIsFrame(isServer, f, key, writeBuf[..], writePos, extra, pending);
      err := WriteFrame(writeFrameType, writeBuf[framePos..writePos], extra, s);
    }

    /** Header, and for a client the key and the masked payload, in the buffer. */
    method BuildFrame(final: bool, length: nat) returns (framePos: nat, key: Key)
      requires MAX_FRAME_HEADER_SIZE <= writePos <= writeBuf.Length
      requires 0 <= writeFrameType < 16 && length < 2 * MAX_SLICE
      modifies writeBuf
      ensures framePos == FramePos(isServer, length)
      ensures var end := if isServer then MAX_FRAME_HEADER_SIZE else MAX_FRAME_HEADER_SIZE - 4;
              framePos <= end && writeBuf[framePos..end] == HeaderBytes(final, writeFrameType, length, !isServer)
      ensures if isServer then writeBuf[MAX_FRAME_HEADER_SIZE..writePos] == old(Pending())
              else writeBuf[MAX_FRAME_HEADER_SIZE - 4..MAX_FRAME_HEADER_SIZE] == key
                   && writeBuf[MAX_FRAME_HEADER_SIZE..writePos] == Masked(key, 0, old(Pending()))
    {
      hide HeaderBytes, Masked;
      ghost var was := writeBuf[..];
      framePos := BuildHeader(writeBuf, isServer, final, writeFrameType, length);
      ghost var headed := writeBuf[..];
      key := NewMaskKey();
      if isServer {
        assert writeBuf[14..writePos] == headed[14..][..writePos - 14] == was[14..][..writePos - 14];
      } else {
        assert headed[14..] == headed[10..][4..] == was[10..][4..];
        writeBuf[10], writeBuf[11], writeBuf[12], writeBuf[13] := key[0], key[1], key[2], key[3];
        ghost var keyed := writeBuf[..];
        assert keyed[14..writePos] == headed[14..][..writePos - 14] == was[14..writePos];
        assert keyed[framePos..10] == headed[framePos..10];
        var pos := MaskBytes(key, 0, writeBuf, MAX_FRAME_HEADER_SIZE, writePos);
        assert writeBuf[framePos..10] == keyed[framePos..10];
        assert writeBuf[10..14] == keyed[10..14] == key;
      }
    }

    /** The writer that `NextWriter` returned has a message to write to. */
    ghost predicate Issued(w: nat)
      reads this
    {
      writeSeq == w && writeErr.None? ==> writeFrameType != NO_FRAME
    }

    /** What the peer can assemble once a message that is still open has been closed. */
    ghost function Closed(): Assembly
      requires Valid() && writeErr.None?
      reads this, writeBuf
    {
      if writeFrameType == NO_FRAME || IsControl(writeFrameType) then Assembled(sent)
      else Assembly(Assembled(sent).done + [Open()], None)
    }

    /**
      Opens the next message, closing one that is still open.  The returned
      sequence number stands for the message writer.
     */
    method NextWriter(messageType: int) returns (w: nat, err: Option<WsError>)
      requires Valid()
      modifies this, writeBuf
      ensures Valid()
      ensures err.None? ==>
                && old(writeErr).None? && writeErr.None? && w == writeSeq && IsMessageType(messageType)
                && writeFrameType == messageType && Open() == Message(messageType, [])
                && Assembled(sent) == old(Closed())
      ensures old(writeErr).Some? ==> err == old(writeErr) && sent == old(sent)
      ensures IsMessageType(messageType) && old(writeErr).None? && !IsControl(old(writeFrameType)) ==>
                (old(closeSent) || !reliable || err.None?) && closeSent == old(closeSent)
      ensures IsMessageType(messageType) && old(writeErr).None? && old(writeFrameType) == NO_FRAME ==>
                err.None? && sent == old(sent) && closeSent == old(closeSent) && writeSeq == old(writeSeq)
    {
      hide Assembled, OnWire, IsCut, CloseIn;
      w := writeSeq;
      if writeErr.Some? {
        return w, writeErr;
      }
      if writeFrameType != NO_FRAME {
        ghost var open := Open();
        assert Plus(open, []) == open;
        err := FlushFrame(true, []);
        if err.Some? {
          return w, err;
        }
      }
      if !IsControl(messageType) && !IsData(messageType) {
        return w, Some(BadWriteOpCode);
      }
      writeFrameType := messageType;
      return writeSeq, None;
    }

    function WriterErr(w: nat): Option<WsError>
      reads this
    {
      if writeSeq != w then Some(WriteClosed) else writeErr
    }

    /** Room for up to `max` bytes in the buffer, flushing it first when it is full. */
    method NCopy(max: nat) returns (n: nat, err: Option<WsError>)
      requires Valid() && writeErr.None? && writeFrameType != NO_FRAME && max > 0
      modifies this, writeBuf
      ensures Valid()
      ensures err.None? ==>
                && writeErr.None? && writeFrameType != NO_FRAME && writeSeq == old(writeSeq)
                && 0 < n <= max && n <= writeBuf.Length - writePos
                && (IsControl(writeFrameType) <==> IsControl(old(writeFrameType)))
                && Open() == old(Open()) && Assembled(sent).done == old(Assembled(sent).done)
                && (IsControl(writeFrameType) ==> sent == old(sent))
      ensures !IsControl(old(writeFrameType)) ==> closeSent == old(closeSent)
      ensures reliable && !IsControl(old(writeFrameType)) && !old(closeSent) ==> err.None?
    {
      hide Assembled, OnWire, IsCut, CloseIn;
      n := writeBuf.Length - writePos;
      if n <= 0 {
        ghost var before := Open();
        err := FlushFrame(false, []);
        if err.Some? {
          return 0, err;
        }
        assert Plus(before, []) == before && Plus(before, Pending()) == before;
        n := writeBuf.Length - writePos;
      }
      if n > max {
        n := max;
      }
      return n, None;
    }

    /** Copies the bytes into the buffer behind the pending ones. */
    method Copy(p: seq<byte>)
      requires MAX_FRAME_HEADER_SIZE <= writePos && writePos + |p| <= writeBuf.Length
      modifies writeBuf, this`writePos
      ensures writePos == old(writePos) + |p|
      ensures Pending() == old(Pending()) + p
    {
      ghost var was := writeBuf[..];
      forall i | 0 <= i < |p| {
        writeBuf[writePos + i] := p[i];
      }
      writePos := writePos + |p|;
      assert writeBuf[MAX_FRAME_HEADER_SIZE..writePos] == was[MAX_FRAME_HEADER_SIZE..old(writePos)] + p;
    }

    /** Moves as many bytes as fit into the buffer, at least one. */
    method Fill(p: seq<byte>) returns (n: nat, err: Option<WsError>)
      requires Valid() && writeErr.None? && writeFrameType != NO_FRAME && |p| > 0
      modifies this, writeBuf
      ensures Valid()
      ensures err.None? ==>
                && writeErr.None? && writeFrameType != NO_FRAME && writeSeq == old(writeSeq)
                && 0 < n <= |p| && Open() == Plus(old(Open()), p[..n])
                && Assembled(sent).done == old(Assembled(sent).done)
                && (IsControl(writeFrameType) <==> IsControl(old(writeFrameType)))
                && (IsControl(writeFrameType) ==> sent == old(sent))
      ensures !IsControl(old(writeFrameType)) ==> closeSent == old(closeSent)
      ensures reliable && !IsControl(old(writeFrameType)) && !old(closeSent) ==> err.None?
    {
      hide Assembled, OnWire, IsCut, CloseIn;
      n, err := NCopy(|p|);
      if err.Some? {
        return 0, err;
      }
      ghost var open := Open();
      Copy(p[..n]);
      assert Open() == Plus(open, p[..n]);
    }

    method WriteBuffered(p: seq<byte>) returns (err: Option<WsError>)
      requires Valid() && writeErr.None? && writeFrameType != NO_FRAME
      modifies this, writeBuf
      ensures Valid()
      ensures err.None? ==>
                && writeErr.None? && writeFrameType != NO_FRAME && writeSeq == old(writeSeq)
                && Open() == Plus(old(Open()), p)
                && Assembled(sent).done == old(Assembled(sent).done)
                && (IsControl(writeFrameType) <==> IsControl(old(writeFrameType)))
                && (IsControl(writeFrameType) ==> sent == old(sent))
      ensures !IsControl(old(writeFrameType)) ==> closeSent == old(closeSent)
      ensures reliable && !IsControl(old(writeFrameType)) && !old(closeSent) ==> err.None?
    {
      hide Assembled, OnWire, IsCut, CloseIn, OpenMessage, WireOk, Ready, Pending;
      ghost var before := Open();
      var done, n := 0, 0;
      assert Plus(before, p[..0]) == before;
      hide Plus;
      while done < |p|
        invariant done <= |p|
        invariant Valid() && writeErr.None? && writeFrameType != NO_FRAME && writeSeq == old(writeSeq)
        invariant Open() == Plus(before, p[..done])
        invariant Assembled(sent).done == old(Assembled(sent).done)
        invariant !IsControl(old(writeFrameType)) ==> closeSent == old(closeSent)
        invariant IsControl(writeFrameType) <==> IsControl(old(writeFrameType))
        invariant IsControl(writeFrameType) ==> sent == old(sent)
        decreases |p| - done
      {
        n, err := Fill(p[done..]);
        if err.Some? {
          return;
        }
        TakeMore(p, done, n);
        PlusPlus(before, p[..done], p[done..][..n]);
        done := done + n;
      }
      assert p[..|p|] == p;
      return None;
    }

    /**
      Appends bytes to the open message.  A large write of a server goes out at
      once, with what is in the buffer, and ends the message when `final`;
      any other write fills the buffer and flushes it when it is full.
     */
    method Write(w: nat, final: bool, p: seq<byte>) returns (n: nat, err: Option<WsError>)
      requires Valid() && Issued(w) && |p| < MAX_SLICE
      modifies this, writeBuf
      ensures Valid()
      ensures old(WriterErr(w)).Some? ==> err == old(WriterErr(w)) && sent == old(sent)
      ensures err.None? ==>
                && old(WriterErr(w)).None? && writeErr.None? && n == |p|
                && if final && isServer && |p| > 2 * writeBuf.Length
                   then && writeFrameType == NO_FRAME && writeSeq == w + 1
                        && |sent| == old(|sent|) + 1 && sent[..old(|sent|)] == old(sent)
                        && sent[old(|sent|)].frame == Frame(true, old(writeFrameType), old(Pending()) + p)
                        && Assembled(sent)
                           == (if IsControl(old(writeFrameType)) then old(Assembled(sent))
                               else Assembly(old(Assembled(sent).done) + [Plus(old(Open()), p)], None))
                   else && writeFrameType != NO_FRAME && writeSeq == w
                        && (IsControl(writeFrameType) <==> IsControl(old(writeFrameType)))
                        && (IsControl(writeFrameType) ==> sent == old(sent))
                        && Open() == Plus(old(Open()), p)
                        && Assembled(sent).done == old(Assembled(sent).done)
      ensures old(WriterErr(w)).None? && !IsControl(old(writeFrameType)) ==> closeSent == old(closeSent)
      ensures old(WriterErr(w)).None? && !IsControl(old(writeFrameType)) && !old(closeSent) && reliable ==> err.None?
    {
      hide Assembled, OnWire, IsCut, CloseIn;
      err := WriterErr(w);
      if err.Some? {
        return 0, err;
      }
      if |p| > 2 * writeBuf.Length && isServer {
        ghost var before := Open();
        err := FlushFrame(final, p);
        if err.Some? {
          return 0, err;
        }
        assert !final ==> Plus(Plus(before, p), Pending()) == Plus(before, p);
      } else {
        hide Plus;
        err := WriteBuffered(p);
        if err.Some? {
          return 0, err;
        }
      }
      return |p|, None;
    }

    method Close(w: nat) returns (err: Option<WsError>)
      requires Valid() && Issued(w)
      modifies this, writeBuf
      ensures Valid()
      ensures old(WriterErr(w)).Some? ==> err == old(WriterErr(w)) && sent == old(sent)
      ensures err.None? ==>
                && old(WriterErr(w)).None? && writeErr.None? && writeFrameType == NO_FRAME && writeSeq == w + 1
                && |sent| == old(|sent|) + 1 && sent[..old(|sent|)] == old(sent)
                && sent[old(|sent|)].frame == Frame(true, old(writeFrameType), old(Pending()))
                && Assembled(sent)
                   == if IsControl(old(writeFrameType)) then old(Assembled(sent))
                      else Assembly(old(Assembled(sent).done) + [old(Open())], None)
      ensures old(WriterErr(w)).None? && !IsControl(old(writeFrameType)) ==> closeSent == old(closeSent)
      ensures old(WriterErr(w)).None? && !IsControl(old(writeFrameType)) && !old(closeSent) && reliable ==> err.None?
    {
      hide Assembled, OnWire, IsCut, CloseIn;
      err := WriterErr(w);
      if err.Some? {
        return err;
      }
      ghost var before := Open();
      assert Plus(before, []) == before;
      err := FlushFrame(true, []);
    }

    /**
      One message in one call, behind one that is still open: exactly this
      message is added to those the peer can assemble, or its control frame is
      the last one sent.
     */
    method WriteMessage(messageType: int, data: seq<byte>) returns (err: Option<WsError>)
      requires Valid() && |data| < MAX_SLICE
      modifies this, writeBuf
      ensures Valid()
      ensures old(writeErr).Some? ==> err == old(writeErr) && sent == old(sent)
      ensures err.None? ==>
                && old(writeErr).None? && writeErr.None? && writeFrameType == NO_FRAME
                && IsMessageType(messageType)
                && (IsControl(messageType) ==>
                      |sent| > 0 && sent[|sent| - 1].frame == Frame(true, messageType, data))
                && Assembled(sent)
                   == if IsControl(messageType) then old(Closed())
                      else Assembly(old(Closed()).done + [Message(messageType, data)], None)
      ensures IsData(messageType) && !IsControl(old(writeFrameType)) && !old(closeSent) && reliable ==>
                old(writeErr).Some? || err.None?
    {
      hide Assembled, OnWire, IsCut, CloseIn;
      var w;
      w, err := NextWriter(messageType);
      if err.Some? {
        return;
      }
      assert Plus(Open(), data) == Message(messageType, data);
      var n;
      n, err := Write(w, true, data);
      if err.Some? {
        return;
      }
      if writeSeq == w {
        ghost var before := Open();
        assert Plus(before, []) == before;
        err := FlushFrame(true, []);
      }
    }

    /**
      Sends a control frame from any goroutine.  It touches nothing but the
      wire: the messages being assembled stay as they are.  A write that takes
      no byte at all does not close the connection.
     */
    method WriteControl(messageType: int, data: seq<byte>) returns (err: Option<WsError>)
      requires Valid()
      modifies this`wire, this`sent, this`closeSent, this`broken, this`whole, this`cut
      ensures Valid()
      ensures if !IsControl(messageType) then err == Some(BadWriteOpCode)
              else if |data| > MAX_CONTROL_PAYLOAD then err == Some(InvalidControlFrame)
              else if old(closeSent) then err == Some(CloseSent)
              else err.None? || (err == Some(Network) && !reliable)
      ensures err.Some? ==> sent == old(sent)
      ensures err.None? ==>
                && |sent| == old(|sent|) + 1 && sent[..old(|sent|)] == old(sent)
                && sent[old(|sent|)].frame == Frame(true, messageType, data)
      ensures Assembled(sent) == old(Assembled(sent))
    {
      hide OnWire, IsCut, Assembled, Masked;
      if !IsControl(messageType) {
        return Some(BadWriteOpCode);
      }
      if |data| > MAX_CONTROL_PAYLOAD {
        return Some(InvalidControlFrame);
      }
      var b0 := FirstByte(true, messageType);
      var b1 := |data|;
      ghost var f := Frame(true, messageType, data);
      if isServer {
        var buf := [b0, b1] + data;
        assert buf == FrameBytes(f, None);
        err := SendControl(messageType, buf, Sent(f, None));
      } else {
        b1 := b1 + 128;
        var key := NewMaskKey();
        var buf := [b0, b1] + key + Masked(key, 0, data);
        assert buf == FrameBytes(f, Some(key));
        err := SendControl(messageType, buf, Sent(f, Some(key)));
      }
    }

    /** Checks the close flag and puts the bytes of a control frame on the wire in one write. */
    method SendControl(messageType: nat, buf: seq<byte>, ghost s: Sent) returns (err: Option<WsError>)
      requires WireOk() && SentOk(s, !isServer) && s.frame.opcode == messageType && IsControl(messageType)
      requires buf == FrameBytes(s.frame, s.key)
      modifies this`wire, this`sent, this`closeSent, this`broken, this`whole, this`cut
      ensures WireOk() && Assembled(sent) == old(Assembled(sent))
      ensures if old(closeSent) then err == Some(CloseSent) else err.None? || (err == Some(Network) && !reliable)
      ensures sent == if err.None? then old(sent) + [s] else old(sent)
    {
      hide FrameBytes, OnWire, Assembled, FrameOk, CloseIn, IsCut;
      FrameIsNotEmpty(s.frame, s.key);
      if closeSent {
        return Some(CloseSent);
      } else if messageType == CLOSE_MESSAGE {
        closeSent := true;
      }
      OnWireSnoc(whole, sent, !isServer, s);
      var n := Send(buf);
      if n != 0 && n != |buf| {
        broken := true;
        cut := buf[..n];
        CutFromFrame(cut, sent, !isServer, s, n);
      }
      if n != |buf| {
        return Some(Network);
      }
      assert whole + [] + buf == whole + buf + [];
      whole := whole + buf;
      sent := sent + [s];
      return None;
    }
  }
}
