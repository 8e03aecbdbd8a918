/**
  The WebSocket wire format in numbers (sections 5.2, 5.3 and 5.5 of RFC 6455):
  what every byte of a written frame is, which headers a reader refuses, and
  what it makes of control frames.
 */
module WsFormat {
  import opened Bytes
  import opened Outcomes
  import opened WsFrames
  import opened WsReader

  // ------------------------------------------------------------------- masking

  lemma XorShows(a: byte, k: byte)
    ensures Xor(Xor(a, k), a) == k && (a == 0 ==> Xor(a, k) == k)
  {
    hide Xor;
    XorSymmetric(a, k);
    XorCancels(k, a);
    XorZero(k);
  }

  /** Masked text and text differ by the key, byte (pos + i) mod 4 of it at place i. */
  lemma MaskShowsKey(key: Key, pos: nat, s: seq<byte>, i: nat)
    requires i < |s|
    ensures Xor(Masked(key, pos, s)[i], s[i]) == key[(pos + i) % 4]
  {
    hide Xor;
    XorShows(s[i], key[(pos + i) % 4]);
  }

  /** Four zero bytes masked from the start are the key. */
  lemma MaskOfZeros(key: Key)
    ensures Masked(key, 0, [0, 0, 0, 0]) == key
  {
    hide Xor;
    XorShows(0, key[0]);
    XorShows(0, key[1]);
    XorShows(0, key[2]);
    XorShows(0, key[3]);
  }

  // ------------------------------------------------------------- written frames

  /** How many bytes come before the masking key, or before the payload if there is none. */
  function HeadLength(n: nat): (r: nat)
    ensures r >= 2
  {
    if n <= 125 then 2 else if n < 65536 then 4 else 10
  }

  /** The bytes before the key: final bit and opcode, mask bit and length, the length in one of three sizes. */
  predicate IsHead(b: seq<byte>, final: bool, opcode: nat, masked: bool, n: nat) {
    && |b| == HeadLength(n)
    && b[0] == opcode + (if final then 128 else 0)
    && b[1] == (if masked then 128 else 0) + (if n <= 125 then n else if n < 65536 then 126 else 127)
    && (|b| == 4 ==> Weigh2(b[2], b[3]) == n)
    && (|b| == 10 ==> 0x1_0000_0000 * Weigh4(b[2], b[3], b[4], b[5]) + Weigh4(b[6], b[7], b[8], b[9]) == n)
  }

  lemma HeadFormat(f: Frame, masked: bool)
    requires FrameOk(f)
    ensures IsHead([FirstByte(f.final, f.opcode)] + LengthBytes(|f.payload|, masked),
                   f.final, f.opcode, masked, |f.payload|)
  {
    hide BigEndian, FromBigEndian, Pow256;
    Pow256Values();
    var n := |f.payload|;
    if n >= 65536 {
      FromBigEndianOfBigEndian(n, 8);
      BigEndianWeights(BigEndian(n, 8));
    } else if n > 125 {
      FromBigEndianOfBigEndian(n, 2);
      BigEndianWeights(BigEndian(n, 2));
    }
  }

  /**
    Every byte of a written frame: its head; then from a server the payload
    itself, and from a client its key and the payload with key byte i mod 4 in
    place i.
   */
  lemma FrameFormat(f: Frame, key: Option<Key>)
    requires FrameOk(f)
    ensures var (b, h) := (FrameBytes(f, key), HeadLength(|f.payload|));
            && |b| == h + |f.payload| + (if key.Some? then 4 else 0)
            && IsHead(b[..h], f.final, f.opcode, key.Some?, |f.payload|)
            && (match key
                case None => b[h..] == f.payload
                case Some(k) => b[h..h + 4] == k && ShowsKey(b[h + 4..], f.payload, k))
  {
    hide IsHead, LengthBytes, Masked, ShowsKey;
    HeadFormat(f, key.Some?);
    var head := [FirstByte(f.final, f.opcode)] + LengthBytes(|f.payload|, key.Some?);
    HeadSize(head, f.final, f.opcode, key.Some?, |f.payload|);
    match key {
      case None =>
        assert FrameBytes(f, key) == head + f.payload;
      case Some(k) =>
        var (b, wire) := (FrameBytes(f, key), Masked(k, 0, f.payload));
        assert b == head + (k + wire);
        ThreeParts(head, k, wire);
        MaskedShowsKey(f.payload, k);
    }
  }

  lemma ThreeParts(a: seq<byte>, b: seq<byte>, c: seq<byte>)
    ensures var s := a + (b + c);
            s[..|a|] == a && s[|a|..|a| + |b|] == b && s[|a| + |b|..] == c
  {
  }

  lemma HeadSize(b: seq<byte>, final: bool, opcode: nat, masked: bool, n: nat)
    requires IsHead(b, final, opcode, masked, n)
    ensures |b| == HeadLength(n)
  {
  }

  /** The bytes on the wire are the text with the key over it, from the key's first byte on. */
  predicate ShowsKey(wire: seq<byte>, text: seq<byte>, key: Key) {
    |wire| == |text| && forall i :: 0 <= i < |text| ==> Xor(wire[i], text[i]) == key[i % 4]
  }

  lemma MaskedShowsKey(text: seq<byte>, key: Key)
    ensures ShowsKey(Masked(key, 0, text), text, key)
  {
    hide Xor, Masked;
    forall i | 0 <= i < |text|
      ensures Xor(Masked(key, 0, text)[i], text[i]) == key[i % 4]
    {
      MaskShowsKey(key, 0, text, i);
    }
  }

  // -------------------------------------------------------------- refused headers

  /** The header violates the protocol before its length is known. */
  predicate BadStart(b: seq<byte>, readFinal: bool)
    requires |b| >= 2
  {
    var (opcode, final, n7) := (b[0] % 16, b[0] >= 128, b[1] % 128);
    || b[0] % 128 >= 16
    || 3 <= opcode <= 7 || opcode >= 11
    || (8 <= opcode <= 10 && (!final || n7 > 125))
    || (1 <= opcode <= 2 && !readFinal)
    || (opcode == 0 && readFinal)
  }

  /** The length of a header whose first byte is fine. */
  function HeaderEnd(b: seq<byte>): (r: nat)
    requires |b| >= 2
    ensures r >= 2
  {
    if b[1] % 128 == 126 then 4 else if b[1] % 128 == 127 then 10 else 2
  }

  /** The check of the first two bytes, up to the mask bit. */
  lemma StartFormat(b: seq<byte>, readFinal: bool)
    requires |b| >= 2
    ensures BadStart(b, readFinal)
       <==> b[0] / 16 % 8 != 0 || !Acceptable(b[0] >= 128, b[0] % 16, b[1] % 128, readFinal)
  {
    assert b[0] / 16 % 8 != 0 <==> b[0] % 128 >= 16;
  }

  /**
    A header is refused exactly when a reserved bit is set, its opcode is not one
    of the six, a control frame is fragmented or longer than 125 bytes, a message
    starts inside another or continues without one, or the mask bit is not the
    one that this side must see; it is incomplete exactly when bytes are missing
    before that is found.
   */
  lemma HeaderRefused(b: seq<byte>, isServer: bool, readFinal: bool)
    requires |b| >= 2
    ensures var (p, h, mask) := (ParseHeader(b, isServer, readFinal), HeaderEnd(b), b[1] >= 128);
            && (p.ProtocolError? <==> BadStart(b, readFinal) || (|b| >= h && mask != isServer))
            && (p.UnexpectedEOF? <==> !BadStart(b, readFinal) && (|b| < h || (mask && isServer && |b| < h + 4)))
  {
    hide BadStart, Acceptable, FullLength;
    StartFormat(b, readFinal);
  }

  /** The flags, opcode, length and key that an accepted header gives, and what is left of the stream. */
  lemma HeaderFormat(b: seq<byte>, isServer: bool, readFinal: bool)
    requires |b| >= 2 && ParseHeader(b, isServer, readFinal).Header?
    ensures var (p, h) := (ParseHeader(b, isServer, readFinal), HeaderEnd(b));
            && p.final == (b[0] >= 128) && p.opcode == b[0] % 16
            && |b| >= h + (if isServer then 4 else 0)
            && (isServer ==> p.key == Some(b[h..h + 4]) && p.rest == b[h + 4..])
            && (!isServer ==> p.key == None && p.rest == b[h..])
            && p.length == (if h == 2 then b[1] % 128 else if h == 4 then Weigh2(b[2], b[3])
                            else
                              var n := 0x1_0000_0000 * Weigh4(b[2], b[3], b[4], b[5]) + Weigh4(b[6], b[7], b[8], b[9]);
                              if b[2] < 128 then n else n - 0x1_0000_0000_0000_0000)
  {
    hide Acceptable, FromBigEndian;
    var h := HeaderEnd(b);
    assert h == 2 + ExtendedBytes(b[1] % 128);
    if |b| >= h + 4 {
      assert b[h..][..4] == b[h..h + 4] && b[h..][4..] == b[h + 4..];
    }
    if 2 < h <= |b| {
      BigEndianWeights(b[2..h]);
    }
  }

  // ---------------------------------------------------------------- control frames

  /** What a close frame's payload is reported as: a status of 1000 or 1001 is a regular end. */
  lemma CloseFormat(payload: seq<byte>)
    ensures |payload| < 2 ==> CloseError(payload) == CloseReceived(1005, [])
    ensures |payload| >= 2 ==>
      var code := Weigh2(payload[0], payload[1]);
      CloseError(payload) == if code == 1000 || code == 1001 then EndOfFile else CloseReceived(code, payload[2..])
  {
    hide FromBigEndian;
    if |payload| >= 2 {
      BigEndianWeights(payload[..2]);
    }
  }

  /**
    A client that reads an unmasked control frame of at most 125 bytes: 0x88 ends
    the reading, 0x89 is answered by a final frame of opcode 10 with the same
    payload, 0x8a is dropped.
   */
  lemma ControlFormat(s: ReadState, first: byte, payload: seq<byte>, rest: seq<byte>)
    requires |payload| <= 125 && s.remaining == 0 && 0x88 <= first <= 0x8a
    requires s.br == [first, |payload|] + payload + rest
    ensures var a := Advance(s, false);
            if first == 0x88 then a == Failed(CloseError(payload))
            else
              && a.Advanced? && a.state.br == rest && a.state.remaining == 0
              && a.state.replies == s.replies + if first == 0x89 then [Frame(true, 10, payload)] else []
  {
    hide CloseError, ParseHeader;
    ControlHeader(first, payload, rest, s.final);
    assert (payload + rest)[..|payload|] == payload && (payload + rest)[|payload|..] == rest;
  }

  lemma ControlHeader(first: byte, payload: seq<byte>, rest: seq<byte>, readFinal: bool)
    requires |payload| <= 125 && 0x88 <= first <= 0x8a
    ensures ParseHeader([first, |payload|] + payload + rest, false, readFinal)
         == Header(true, first % 16, |payload|, None, payload + rest)
  {
    hide ParseHeader;
    var b := [first, |payload|] + payload + rest;
    HeaderRefused(b, false, readFinal);
    HeaderFormat(b, false, readFinal);
    assert b[2..] == payload + rest;
  }
}
