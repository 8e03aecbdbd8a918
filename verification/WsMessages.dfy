/**
  Messages over WebSocket frames (section 5.4 of RFC 6455): how a sequence of
  frames, with control frames anywhere between them, is put together again.
  Both the writer and the reader of a connection are specified against this.
 */
module WsMessages {
  import opened Bytes
  import opened Outcomes
  import opened WsFrames

  /** A frame as it went out, with the masking key if the sender is a client. */
  datatype Sent = Sent(frame: Frame, key: Option<Key>)

  predicate SentOk(s: Sent, masked: bool) {
    FrameOk(s.frame) && s.key.Some? == masked
  }

  predicate AllSentOk(sent: seq<Sent>, masked: bool) {
    forall i :: 0 <= i < |sent| ==> SentOk(sent[i], masked)
  }

  function EncodeAll(sent: seq<Sent>, masked: bool): seq<byte>
    requires AllSentOk(sent, masked)
  {
    if |sent| == 0 then []
    else
      var last := sent[|sent| - 1];
      EncodeAll(sent[..|sent| - 1], masked) + FrameBytes(last.frame, last.key)
  }

  lemma {:induction false} EncodeConcat(a: seq<Sent>, b: seq<Sent>, masked: bool)
    requires AllSentOk(a, masked) && AllSentOk(b, masked) && AllSentOk(a + b, masked)
    ensures EncodeAll(a + b, masked) == EncodeAll(a, masked) + EncodeAll(b, masked)
  {
    hide FrameBytes, SentOk;
    if |b| == 0 {
      assert a + b == a;
    } else {
      assert (a + b)[..|a + b| - 1] == a + b[..|b| - 1];
      EncodeConcat(a, b[..|b| - 1], masked);
    }
  }

  datatype Message = Message(opcode: nat, payload: seq<byte>)

  /** The message with these bytes behind its own. */
  function Plus(m: Message, p: seq<byte>): Message {
    Message(m.opcode, m.payload + p)
  }

  lemma PlusPlus(m: Message, a: seq<byte>, b: seq<byte>)
    ensures Plus(Plus(m, a), b) == Plus(m, a + b)
  {
    assert m.payload + a + b == m.payload + (a + b);
  }

  /** The complete messages, and the one that still waits for its final frame. */
  datatype Assembly = Assembly(done: seq<Message>, partial: Option<Message>)

  /** Whether the peer is between messages, as its reader keeps it. */
  function Between(a: Assembly): bool {
    a.partial.None?
  }

  /** A frame in place: control frames anywhere, a new message between messages, continuations within one. */
  predicate Fits(a: Assembly, f: Frame) {
    InPlace(f, Between(a))
  }

  function Extended(a: Assembly, f: Frame): Assembly {
    if IsControl(f.opcode) then a
    else
      var m := if IsData(f.opcode) || a.partial.None? then Message(f.opcode, f.payload)
               else Message(a.partial.value.opcode, a.partial.value.payload + f.payload);
      if f.final then Assembly(a.done + [m], None) else Assembly(a.done, Some(m))
  }

  function Assembled(sent: seq<Sent>): Assembly {
    if |sent| == 0 then Assembly([], None)
    else Extended(Assembled(sent[..|sent| - 1]), sent[|sent| - 1].frame)
  }

  /** Every message is one frame with its opcode, then continuations, the last one final. */
  predicate Sequenced(sent: seq<Sent>) {
    |sent| > 0 ==>
      var front := sent[..|sent| - 1];
      Sequenced(front) && Fits(Assembled(front), sent[|sent| - 1].frame)
  }

  /** A close frame is the last one (section 5.5.1 of RFC 6455). */
  predicate NothingAfterClose(sent: seq<Sent>) {
    forall i :: 0 <= i < |sent| && sent[i].frame.opcode == CLOSE_MESSAGE ==> i == |sent| - 1
  }

  predicate CloseIn(sent: seq<Sent>) {
    exists i :: 0 <= i < |sent| && sent[i].frame.opcode == CLOSE_MESSAGE
  }

  lemma AssembledSnoc(sent: seq<Sent>, s: Sent)
    ensures Assembled(sent + [s]) == Extended(Assembled(sent), s.frame)
    ensures Sequenced(sent + [s]) <==> Sequenced(sent) && Fits(Assembled(sent), s.frame)
    ensures NothingAfterClose(sent + [s]) <==> !CloseIn(sent)
    ensures CloseIn(sent + [s]) <==> CloseIn(sent) || s.frame.opcode == CLOSE_MESSAGE
  {
    hide Extended, Fits;
    var t := sent + [s];
    assert t[..|sent|] == sent;
    assert forall i :: 0 <= i < |sent| ==> t[i] == sent[i];
    assert t[|sent|] == s;
  }

  /** These bytes are exactly the frames sent, in sequence, with nothing behind a close frame. */
  ghost predicate OnWire(wire: seq<byte>, sent: seq<Sent>, masked: bool) {
    && AllSentOk(sent, masked)
    && wire == EncodeAll(sent, masked)
    && Sequenced(sent)
    && NothingAfterClose(sent)
  }

  /** The bytes are the first `k` of a frame that would fit behind the frames sent. */
  predicate CutFrom(cut: seq<byte>, sent: seq<Sent>, masked: bool, f: Sent, k: nat) {
    && SentOk(f, masked) && Fits(Assembled(sent), f.frame)
    && k < |FrameBytes(f.frame, f.key)| && cut == FrameBytes(f.frame, f.key)[..k]
  }

  /** The bytes are the beginning of one such frame, and not the whole of it. */
  ghost predicate IsCut(cut: seq<byte>, sent: seq<Sent>, masked: bool) {
    exists f: Sent, k: nat :: CutFrom(cut, sent, masked, f, k)
  }

  lemma CutFromFrame(cut: seq<byte>, sent: seq<Sent>, masked: bool, f: Sent, k: nat)
    requires CutFrom(cut, sent, masked, f, k)
    ensures IsCut(cut, sent, masked)
  {
  }

  lemma OnWireSnoc(wire: seq<byte>, sent: seq<Sent>, masked: bool, s: Sent)
    requires OnWire(wire, sent, masked) && !CloseIn(sent) && SentOk(s, masked) && Fits(Assembled(sent), s.frame)
    ensures OnWire(wire + FrameBytes(s.frame, s.key), sent + [s], masked)
    ensures CloseIn(sent + [s]) <==> s.frame.opcode == CLOSE_MESSAGE
    ensures Assembled(sent + [s]) == Extended(Assembled(sent), s.frame)
  {
    hide FrameBytes, Extended, Fits, SentOk;
    AssembledSnoc(sent, s);
    assert (sent + [s])[..|sent|] == sent;
  }
}
