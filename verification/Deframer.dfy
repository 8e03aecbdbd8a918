/**
  Finding frames in the byte stream from the flight controller: resynchronise
  on the sync byte, skip implausible lengths, wait for missing bytes, check the
  CRC (`packetComplete` in uavtalk/uavtalk.go).

  `limit` is the longest object length among the loaded definitions.
 */
module Deframer {
  import opened Bytes
  import opened Crc8
  import opened CrcDetection
  import opened Registry
  import opened Packets

  datatype Scan = NeedMore | Frame(ok: bool, from: nat, to: nat)

  function LengthAt(b: seq<byte>, i: nat): nat
    requires i + 4 <= |b|
  {
    FromLe16(b[i + 2..i + 4])
  }

  /** A sync byte with a whole short header behind it and a plausible length. */
  predicate IsCandidate(b: seq<byte>, limit: nat, i: nat) {
    i + SHORT_HEADER_LENGTH <= |b| && b[i] == SYNC && LengthAt(b, i) <= limit + SHORT_HEADER_LENGTH + 2
  }

  /** The least candidate at or after `start`, or the length of the buffer. */
  function FirstCandidate(b: seq<byte>, limit: nat, start: nat): (i: nat)
    requires start <= |b|
    ensures start <= i <= |b|
    ensures i < |b| ==> IsCandidate(b, limit, i)
    ensures forall k :: start <= k < i ==> !IsCandidate(b, limit, k)
    decreases |b| - start
  {
    if start + SHORT_HEADER_LENGTH > |b| then |b|
    else if IsCandidate(b, limit, start) then start
    else FirstCandidate(b, limit, start + 1)
  }

  /** The outcome once the scan has settled on the candidate at `i`. */
  function ScanAt(b: seq<byte>, i: nat): Scan
    requires i + SHORT_HEADER_LENGTH <= |b|
  {
    var to := i + LengthAt(b, i) + 1;
    if to > |b| then NeedMore else Frame(FrameValid(b[i..to]), i, to)
  }

  function Scanned(b: seq<byte>, limit: nat): (r: Scan)
    ensures r.Frame? ==> r.from < r.to <= |b| && r.from + SHORT_HEADER_LENGTH <= |b|
  {
    var i := FirstCandidate(b, limit, 0);
    if i == |b| then NeedMore else ScanAt(b, i)
  }

  lemma FirstCandidateIs(b: seq<byte>, limit: nat, start: nat, i: nat)
    requires start <= i && IsCandidate(b, limit, i)
    requires forall k :: start <= k < i ==> !IsCandidate(b, limit, k)
    ensures FirstCandidate(b, limit, start) == i
  {
  }

  lemma NoCandidate(b: seq<byte>, limit: nat, start: nat)
    requires start <= |b| && forall k :: start <= k < |b| ==> !IsCandidate(b, limit, k)
    ensures FirstCandidate(b, limit, start) == |b|
  {
  }

  method PacketComplete(buffer: seq<byte>, limit: nat) returns (ok: bool, from: nat, to: nat, failed: bool)
    ensures Scanned(buffer, limit) == if ok || failed then Frame(ok, from, to) else NeedMore
    ensures !(ok && failed)
    ensures !ok && !failed ==> from == 0 && to == 0
  {
    hide FirstCandidate, FromLe16, Crc;
    var start := 0;
    while true
      invariant 0 <= start <= |buffer|
      invariant forall k :: 0 <= k < start ==> !IsCandidate(buffer, limit, k)
      decreases |buffer| - start
    {
      var offset := -1;
      var i := start;
      while i < |buffer| - SHORT_HEADER_LENGTH + 1
        invariant start <= i && offset == -1
        invariant forall k :: start <= k < i && k < |buffer| ==> !IsCandidate(buffer, limit, k)
      {
        if buffer[i] == SYNC {
          offset := i;
          break;
        }
        i := i + 1;
      }
      if offset < 0 {
        NoCandidate(buffer, limit, 0);
        return false, 0, 0, false;
      }
      var length := FromLe16(buffer[offset + 2..offset + 4]);
      if length > limit + SHORT_HEADER_LENGTH + 2 {
        start := offset + 1;
        continue;
      }
      FirstCandidateIs(buffer, limit, 0, offset);
      if length + 1 > |buffer| - offset {
        return false, 0, 0, false;
      }
      var cks := buffer[offset + length];
      var crc := ComputeCrc8(0, buffer[offset..offset + length]);
      assert buffer[offset..offset + length + 1][..length] == buffer[offset..offset + length];
      if cks != crc {
        return false, offset, offset + length + 1, true;
      }
      return true, offset, offset + length + 1, false;
    }
  }

  // ------------------------------------------------------ decided for good

  lemma CandidateExtends(b: seq<byte>, x: seq<byte>, limit: nat, i: nat)
    requires i + SHORT_HEADER_LENGTH <= |b|
    ensures IsCandidate(b + x, limit, i) <==> IsCandidate(b, limit, i)
    ensures LengthAt(b + x, i) == LengthAt(b, i)
  {
    assert (b + x)[i + 2..i + 4] == b[i + 2..i + 4];
  }

  /** Once a frame is found, no further byte changes the outcome. */
  lemma DecidedStays(b: seq<byte>, x: seq<byte>, limit: nat)
    requires Scanned(b, limit).Frame?
    ensures Scanned(b + x, limit) == Scanned(b, limit)
  {
    hide FirstCandidate, LengthAt, Crc;
    var i := FirstCandidate(b, limit, 0);
    forall k: nat | k <= i
      ensures IsCandidate(b + x, limit, k) <==> IsCandidate(b, limit, k)
    {
      CandidateExtends(b, x, limit, k);
    }
    FirstCandidateIs(b + x, limit, 0, i);
    CandidateExtends(b, x, limit, i);
    var to := i + LengthAt(b, i) + 1;
    assert (b + x)[i..to] == b[i..to];
  }

  // ----------------------------------------------------- stripping the buffer

  /**
    One step of the reader loop: the bytes skipped before the frame, the bytes
    the decoder may look at (the frame, and at least a short header), the
    frame's length, and whether its checksum was right.
   */
  datatype Strip = Strip(skipped: seq<byte>, head: seq<byte>, len: nat, ok: bool)
  {
    predicate Valid() {
      len <= |head| && |head| >= SHORT_HEADER_LENGTH
    }

    function Bytes(): seq<byte>
      requires Valid()
    {
      skipped + head[..len]
    }
  }

  function StripOf(b: seq<byte>, s: Scan): (r: Strip)
    requires s.Frame? && s.from < s.to <= |b| && s.from + SHORT_HEADER_LENGTH <= |b|
    ensures r.Valid() && r.Bytes() == b[..s.to]
  {
    var len := s.to - s.from;
    var seen := if len < SHORT_HEADER_LENGTH then SHORT_HEADER_LENGTH else len;
    var head := b[s.from..s.from + seen];
    assert head[..len] == b[s.from..s.to];
    assert b[..s.from] + b[s.from..s.to] == b[..s.to];
    Strip(b[..s.from], head, len, s.ok)
  }

  /** Everything the loop strips from a buffer, in order. */
  function Strips(b: seq<byte>, limit: nat): (r: seq<Strip>)
    ensures forall i :: 0 <= i < |r| ==> r[i].Valid()
    decreases |b|
  {
    var s := Scanned(b, limit);
    if s.NeedMore? then [] else [StripOf(b, s)] + Strips(b[s.to..], limit)
  }

  /** What is left in the buffer. */
  function Residue(b: seq<byte>, limit: nat): (r: seq<byte>)
    ensures Scanned(r, limit).NeedMore?
    decreases |b|
  {
    var s := Scanned(b, limit);
    if s.NeedMore? then b else Residue(b[s.to..], limit)
  }

  lemma StripOfExtends(b: seq<byte>, x: seq<byte>, s: Scan)
    requires s.Frame? && s.from < s.to <= |b| && s.from + SHORT_HEADER_LENGTH <= |b|
    ensures StripOf(b + x, s) == StripOf(b, s)
  {
    var len := s.to - s.from;
    var seen := if len < SHORT_HEADER_LENGTH then SHORT_HEADER_LENGTH else len;
    assert (b + x)[s.from..s.from + seen] == b[s.from..s.from + seen];
    assert (b + x)[..s.from] == b[..s.from];
  }

  /**
    Appending bytes never changes what was stripped: the rest is stripped from
    the residue followed by the new bytes.
   */
  lemma {:induction false} StripsExtend(b: seq<byte>, x: seq<byte>, limit: nat)
    ensures Strips(b + x, limit) == Strips(b, limit) + Strips(Residue(b, limit) + x, limit)
    ensures Residue(b + x, limit) == Residue(Residue(b, limit) + x, limit)
    decreases |b|
  {
    hide Scanned, StripOf;
    var s := Scanned(b, limit);
    if s.Frame? {
      DecidedStays(b, x, limit);
      StripOfExtends(b, x, s);
      assert (b + x)[s.to..] == b[s.to..] + x;
      StripsExtend(b[s.to..], x, limit);
    }
  }

  function StripBytes(strips: seq<Strip>): seq<byte>
    requires forall i :: 0 <= i < |strips| ==> strips[i].Valid()
  {
    if |strips| == 0 then [] else strips[0].Bytes() + StripBytes(strips[1..])
  }

  /** No byte is lost or invented: skipped bytes, frames and residue are the input. */
  lemma {:induction false} Conservation(b: seq<byte>, limit: nat)
    ensures StripBytes(Strips(b, limit)) + Residue(b, limit) == b
    decreases |b|
  {
    var s := Scanned(b, limit);
    if s.Frame? {
      hide Scanned, StripOf, Strip.Bytes, Strip.Valid;
      Conservation(b[s.to..], limit);
      var (first, rest) := (StripOf(b, s), Strips(b[s.to..], limit));
      assert first.Valid();
      StripBytesCons(first, rest);
      Cut(b, s.to, StripBytes(rest), Residue(b, limit));
    }
  }

  lemma StripBytesCons(first: Strip, rest: seq<Strip>)
    requires first.Valid() && forall i :: 0 <= i < |rest| ==> rest[i].Valid()
    ensures StripBytes([first] + rest) == first.Bytes() + StripBytes(rest)
  {
    assert ([first] + rest)[1..] == rest;
  }

  lemma Cut(b: seq<byte>, k: nat, x: seq<byte>, y: seq<byte>)
    requires k <= |b| && x + y == b[k..]
    ensures b[..k] + x + y == b
  {
    assert b[..k] + x + y == b[..k] + (x + y);
  }
}
