/**
  WebSocket frames (sections 5.2 and 5.3 of RFC 6455) as the vendored
  gorilla/websocket connection writes and reads them: three header sizes, the
  masking key that a client sends, and the masked payload.
 */
module WsFrames {
  import opened Bytes
  import opened Outcomes

  const CONTINUATION := 0
  const TEXT_MESSAGE := 1
  const BINARY_MESSAGE := 2
  const CLOSE_MESSAGE := 8
  const PING_MESSAGE := 9
  const PONG_MESSAGE := 10
  const NO_FRAME := -1

  const MAX_FRAME_HEADER_SIZE := 14
  const MAX_CONTROL_PAYLOAD := 125

  predicate IsControl(t: int) {
    t == CLOSE_MESSAGE || t == PING_MESSAGE || t == PONG_MESSAGE
  }

  predicate IsData(t: int) {
    t == TEXT_MESSAGE || t == BINARY_MESSAGE
  }

  type Key = k: seq<byte> | |k| == 4 witness [0, 0, 0, 0]

  datatype Frame = Frame(final: bool, opcode: nat, payload: seq<byte>)

  /** What the peer accepts as a frame, apart from its place in the message. */
  predicate FrameOk(f: Frame) {
    && (f.opcode == CONTINUATION || IsData(f.opcode) || IsControl(f.opcode))
    && (IsControl(f.opcode) ==> f.final && |f.payload| <= MAX_CONTROL_PAYLOAD)
    && |f.payload| < 0x8000_0000_0000_0000
  }

  // ------------------------------------------------------------------- masking

  function Masked(key: Key, pos: nat, s: seq<byte>): (r: seq<byte>)
    ensures |r| == |s|
  {
    seq(|s|, i requires 0 <= i < |s| => Xor(s[i], key[(pos + i) % 4]))
  }

  /** Masking twice from the same position gives the bytes back. */
  lemma MaskTwice(key: Key, pos: nat, s: seq<byte>)
    ensures Masked(key, pos, Masked(key, pos, s)) == s
  {
    hide Xor;
    forall i | 0 <= i < |s|
      ensures Xor(Xor(s[i], key[(pos + i) % 4]), key[(pos + i) % 4]) == s[i]
    {
      XorCancels(s[i], key[(pos + i) % 4]);
    }
  }

  /** Masking a concatenation carries the position on, and only its remainder counts. */
  lemma MaskConcat(key: Key, pos: nat, a: seq<byte>, b: seq<byte>)
    ensures Masked(key, pos, a + b) == Masked(key, pos, a) + Masked(key, (pos + |a|) % 4, b)
  {
    hide Xor;
    var whole, second := Masked(key, pos, a + b), Masked(key, (pos + |a|) % 4, b);
    forall i | 0 <= i < |b|
      ensures whole[|a| + i] == second[i]
    {
      assert (pos + (|a| + i)) % 4 == ((pos + |a|) % 4 + i) % 4;
    }
  }

  /** In place, on the part of the buffer from `lo` to `hi`. */
  method MaskBytes(key: Key, start: nat, b: array<byte>, lo: nat, hi: nat) returns (pos: nat)
    requires lo <= hi <= b.Length
    modifies b
    ensures b[..] == old(b[..lo]) + Masked(key, start, old(b[lo..hi])) + old(b[hi..])
    ensures pos == (start + (hi - lo)) % 4
  {
    hide Xor;
    ghost var was := b[..];
    pos := start;
    for i := lo to hi
      invariant pos == start + (i - lo)
      invariant forall k :: 0 <= k < b.Length ==>
        b[k] == if lo <= k < i then Xor(was[k], key[(start + (k - lo)) % 4]) else was[k]
    {
      b[i] := Xor(b[i], key[pos % 4]);
      pos := pos + 1;
    }
    pos := pos % 4;
  }

  // -------------------------------------------------------------------- header

  function FirstByte(final: bool, opcode: nat): byte
    requires opcode < 16
  {
    opcode + if final then 128 else 0
  }

  /** The second byte and the extended length. */
  function LengthBytes(length: nat, masked: bool): seq<byte>
    requires length < 0x1_0000_0000_0000_0000
  {
    var m := if masked then 128 else 0;
    if length >= 65536 then [m + 127] + BigEndian(length, 8)
    else if length > 125 then [m + 126] + BigEndian(length, 2)
    else [m + length]
  }

  function FrameBytes(f: Frame, key: Option<Key>): seq<byte>
    requires FrameOk(f)
  {
    [FirstByte(f.final, f.opcode)] + LengthBytes(|f.payload|, key.Some?)
    + match key
      case None => f.payload
      case Some(k) => k + Masked(k, 0, f.payload)
  }

  // ------------------------------------------------------------------- parsing

  /** What reading a frame header gives; the length is the signed 64-bit one that the reader keeps. */
  datatype Parsed =
    | Header(final: bool, opcode: nat, length: int, key: Option<Key>, rest: seq<byte>)
    | UnexpectedEOF
    | ProtocolError

  function SignedLength(n: nat): int {
    if n < 0x8000_0000_0000_0000 then n else n - 0x1_0000_0000_0000_0000
  }

  /** How many bytes of extended length follow the 7-bit one. */
  function ExtendedBytes(n7: nat): nat {
    if n7 == 126 then 2 else if n7 == 127 then 8 else 0
  }

  function FullLength(n7: nat, extended: seq<byte>): int {
    if n7 == 126 then FromBigEndian(extended) else if n7 == 127 then SignedLength(FromBigEndian(extended)) else n7
  }

  /** The opcode checks, given whether the previous message is complete. */
  predicate Acceptable(final: bool, opcode: nat, n7: nat, readFinal: bool) {
    if IsControl(opcode) then n7 <= MAX_CONTROL_PAYLOAD && final
    else if IsData(opcode) then readFinal
    else opcode == CONTINUATION && !readFinal
  }

  function ParseKey(br: seq<byte>, isServer: bool, final: bool, opcode: nat, mask: bool, length: int): Parsed {
    if mask != isServer then ProtocolError
    else if !mask then Header(final, opcode, length, None, br)
    else if |br| < 4 then UnexpectedEOF
    else Header(final, opcode, length, Some(br[..4]), br[4..])
  }

  function ParseHeader(br: seq<byte>, isServer: bool, readFinal: bool): Parsed {
    if |br| < 2 then UnexpectedEOF
    else
      var (final, opcode, mask, n7) := (br[0] >= 128, br[0] % 16, br[1] >= 128, br[1] % 128);
      if br[0] / 16 % 8 != 0 then ProtocolError
      else if !Acceptable(final, opcode, n7, readFinal) then ProtocolError
      else if |br| < 2 + ExtendedBytes(n7) then UnexpectedEOF
      else
        var extended := br[2..2 + ExtendedBytes(n7)];
        ParseKey(br[2 + ExtendedBytes(n7)..], isServer, final, opcode, mask, FullLength(n7, extended))
  }

  /** The frame fits the reader's place in the message. */
  predicate InPlace(f: Frame, readFinal: bool) {
    (IsData(f.opcode) ==> readFinal) && (f.opcode == CONTINUATION ==> !readFinal)
  }

  lemma Pow256Values()
    ensures Pow256(2) == 65536 && Pow256(8) == 0x1_0000_0000_0000_0000
  {
    assert Pow256(4) == 0x1_0000_0000;
  }

  lemma ParseShort(f: Frame, masked: bool, tail: seq<byte>, isServer: bool, readFinal: bool)
    requires FrameOk(f) && InPlace(f, readFinal)
    ensures ParseHeader([FirstByte(f.final, f.opcode)] + LengthBytes(|f.payload|, masked) + tail, isServer, readFinal)
         == ParseKey(tail, isServer, f.final, f.opcode, masked, |f.payload|)
  {
    hide BigEndian, FromBigEndian, Pow256;
    Pow256Values();
    var n := |f.payload|;
    var b := [FirstByte(f.final, f.opcode)] + LengthBytes(n, masked) + tail;
    assert b[0] == FirstByte(f.final, f.opcode);
    if n >= 65536 {
      FromBigEndianOfBigEndian(n, 8);
      assert b[2..10] == BigEndian(n, 8) && b[10..] == tail;
    } else if n > 125 {
      FromBigEndianOfBigEndian(n, 2);
      assert b[2..4] == BigEndian(n, 2) && b[4..] == tail;
    } else {
      assert b[2..] == tail;
    }
  }

  /**
    Reading back the header of a written frame: same flags, opcode and length,
    at every payload length, with the payload next in the stream.
   */
  lemma HeaderRoundTrip(f: Frame, key: Option<Key>, rest: seq<byte>, readFinal: bool)
    requires FrameOk(f) && InPlace(f, readFinal)
    ensures ParseHeader(FrameBytes(f, key) + rest, key.Some?, readFinal)
         == Header(f.final, f.opcode, |f.payload|, key,
                   (match key case None => f.payload case Some(k) => Masked(k, 0, f.payload)) + rest)
  {
    hide ParseHeader, LengthBytes, FirstByte;
    match key {
      case None =>
        ParseShort(f, false, f.payload + rest, false, readFinal);
        assert FrameBytes(f, key) + rest
            == [FirstByte(f.final, f.opcode)] + LengthBytes(|f.payload|, false) + (f.payload + rest);
      case Some(k) =>
        var tail := k + Masked(k, 0, f.payload) + rest;
        ParseShort(f, true, tail, true, readFinal);
        assert FrameBytes(f, key) + rest == [FirstByte(f.final, f.opcode)] + LengthBytes(|f.payload|, true) + tail;
        assert tail[..4] == k && tail[4..] == Masked(k, 0, f.payload) + rest;
    }
  }
}
