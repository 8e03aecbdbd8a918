/**
  The reader loop of the link (uavtalk/uavtalk.go): it appends what the link
  delivers to a buffer and strips complete frames from its front, decoding
  those with a right checksum.
 */
module Receiver {
  import opened Bytes
  import opened Outcomes
  import opened Definitions
  import opened Registry
  import opened Payload
  import opened Packets
  import opened Deframer

  /** What the loop does with a stripped frame: hand on its packet, or log it. */
  datatype Event = Delivered(packet: Packet) | Undecodable(frame: seq<byte>) | WrongChecksum(frame: seq<byte>)

  // --------------------------------------------------------- chunk independence

  /** The buffer after a series of reads, each stripped before the next one. */
  function BufferAfter(chunks: seq<seq<byte>>, limit: nat): seq<byte> {
    if |chunks| == 0 then []
    else Residue(BufferAfter(chunks[..|chunks| - 1], limit) + chunks[|chunks| - 1], limit)
  }

  /** Everything stripped during a series of reads. */
  function StripsAfter(chunks: seq<seq<byte>>, limit: nat): seq<Strip> {
    if |chunks| == 0 then []
    else
      var front := chunks[..|chunks| - 1];
      StripsAfter(front, limit) + Strips(BufferAfter(front, limit) + chunks[|chunks| - 1], limit)
  }

  lemma EmptyBuffer(limit: nat)
    ensures Strips([], limit) == [] && Residue([], limit) == []
  {
  }

  /** However a byte stream is cut into reads, the same is stripped and the same is left. */
  lemma {:induction false} ChunkIndependence(chunks: seq<seq<byte>>, limit: nat)
    ensures StripsAfter(chunks, limit) == Strips(Flatten(chunks), limit)
    ensures BufferAfter(chunks, limit) == Residue(Flatten(chunks), limit)
  {
    hide Strips, Residue;
    if |chunks| == 0 {
      EmptyBuffer(limit);
    } else {
      var front := chunks[..|chunks| - 1];
      ChunkIndependence(front, limit);
      StripsExtend(Flatten(front), chunks[|chunks| - 1], limit);
    }
  }

  // --------------------------------------------------------------- the events

  function Judged(all: seq<Definition>, s: Strip): Outcome<Event>
    requires s.Valid()
  {
    if !s.ok then Ok(WrongChecksum(s.head[..s.len]))
    else
      match Decoded(all, s.head, s.len)
      case Ok(p) => Ok(Delivered(p))
      case Error => Ok(Undecodable(s.head[..s.len]))
      case Panic => Panic
  }

  datatype Run = Run(events: seq<Event>, crashed: bool)

  /** The events of a series of strips, up to the first one whose decoding panics. */
  function Played(all: seq<Definition>, strips: seq<Strip>): Run
    requires forall i :: 0 <= i < |strips| ==> strips[i].Valid()
  {
    if |strips| == 0 then Run([], false)
    else
      var before := Played(all, strips[..|strips| - 1]);
      if before.crashed then before
      else
        match Judged(all, strips[|strips| - 1])
        case Ok(event) => Run(before.events + [event], false)
        case Error => before
        case Panic => Run(before.events, true)
  }

  lemma {:induction false} CrashIsFinal(all: seq<Definition>, a: seq<Strip>, b: seq<Strip>)
    requires forall i :: 0 <= i < |a + b| ==> (a + b)[i].Valid()
    requires forall i :: 0 <= i < |a| ==> a[i].Valid()
    requires Played(all, a).crashed
    ensures Played(all, a + b) == Played(all, a)
  {
    hide Judged, Strip.Valid;
    if |b| == 0 {
      assert a + b == a;
    } else {
      assert (a + b)[..|a + b| - 1] == a + b[..|b| - 1];
      CrashIsFinal(all, a, b[..|b| - 1]);
    }
  }

  lemma CrashStays(all: seq<Definition>, limit: nat, stream: seq<byte>, chunk: seq<byte>)
    requires Played(all, Strips(stream, limit)).crashed
    ensures Played(all, Strips(stream + chunk, limit)) == Played(all, Strips(stream, limit))
  {
    hide Strips, Residue, Played;
    StripsExtend(stream, chunk, limit);
    CrashIsFinal(all, Strips(stream, limit), Strips(Residue(stream, limit) + chunk, limit));
  }

  /** Decoding looks at nothing but the frame and the short header. */
  lemma DecodedLocal(all: seq<Definition>, view: seq<byte>, len: nat)
    requires len <= |view|
    ensures var seen := if len >= SHORT_HEADER_LENGTH then len
                        else if |view| < SHORT_HEADER_LENGTH then |view| else SHORT_HEADER_LENGTH;
            Decoded(all, view[..seen], len) == Decoded(all, view, len)
  {
    hide Lookup, ReadMap, FromLe16, FromLe32;
    var seen := if len >= SHORT_HEADER_LENGTH then len
                else if |view| < SHORT_HEADER_LENGTH then |view| else SHORT_HEADER_LENGTH;
    var v := view[..seen];
    if |view| >= SHORT_HEADER_LENGTH {
      SliceOfPrefix(view, seen, 2, 4);
      SliceOfPrefix(view, seen, 4, 8);
    }
    if len > SHORT_HEADER_LENGTH + 2 {
      SliceOfPrefix(view, seen, 8, 10);
      SliceOfPrefix(view, seen, SHORT_HEADER_LENGTH + 2, len - 1);
    }
    if len > SHORT_HEADER_LENGTH {
      SliceOfPrefix(view, seen, SHORT_HEADER_LENGTH, len - 1);
    }
  }

  lemma SliceOfPrefix(s: seq<byte>, n: nat, i: nat, j: nat)
    requires i <= j <= n <= |s|
    ensures s[..n][i..j] == s[i..j]
  {
  }

  class FrameReader {
    const all: seq<Definition>
    const limit: nat
    var buffer: seq<byte>
    var out: seq<Event>
    var crashed: bool
    ghost var stream: seq<byte>

    /** The reader's state is a function of the bytes it was given, not of how they were cut. */
    ghost predicate Valid()
      reads this
    {
      && Played(all, Strips(stream, limit)) == Run(out, crashed)
      && (!crashed ==> buffer == Residue(stream, limit))
    }

    constructor (all: seq<Definition>, limit: nat)
      ensures Valid() && stream == [] && out == [] && !crashed
      ensures this.all == all && this.limit == limit
    {
      this.all := all;
      this.limit := limit;
      buffer := [];
      out := [];
      crashed := false;
      stream := [];
      EmptyBuffer(limit);
    }

    /** What one read adds: nothing to a process that has crashed, else one pass of the loop. */
    method Feed(chunk: seq<byte>)
      requires Valid()
      modifies this
      ensures Valid() && stream == old(stream) + chunk
    {
      hide Strips, Residue, Played;
      if crashed {
        CrashStays(all, limit, stream, chunk);
        stream := stream + chunk;
      } else {
        StripAll(chunk);
      }
    }

    /** One pass of the loop over the bytes of one read. */
    method StripAll(chunk: seq<byte>)
      requires Valid() && !crashed
      modifies this
      ensures Valid() && stream == old(stream) + chunk
    {
      hide Strips, Residue, Scanned, Decoded, Played;
      ghost var done := Strips(stream, limit);
      StripsExtend(stream, chunk, limit);
      stream := stream + chunk;
      buffer := buffer + chunk;
      assert Midway(all, limit, stream, done, buffer, out);
      hide Midway;
      while true
        invariant !crashed && stream == old(stream) + chunk
        invariant Midway(all, limit, stream, done, buffer, out)
        decreases |buffer|
      {
        var ok, from, to, failed := PacketComplete(buffer, limit);
        if !ok && !failed {
          MidwayEnds(all, limit, stream, done, buffer, out);
          return;
        }
        MidwayStep(all, limit, stream, done, buffer, out);
        done := done + [StripOf(buffer, Frame(ok, from, to))];
        if ok {
          var r := NewPacketFromBinary(all, buffer[from..], to - from);
          match r {
            case Ok(p) => out := out + [Delivered(p)];
            case Error => out := out + [Undecodable(buffer[from..to])];
            case Panic =>
              crashed := true;
              return;
          }
        } else {
          out := out + [WrongChecksum(buffer[from..to])];
        }
        buffer := buffer[to..];
      }
    }
  }

  /** The loop has stripped `done` from the stream and reported `events`; `buffer` is what is left to look at. */
  ghost predicate Midway(all: seq<Definition>, limit: nat, stream: seq<byte>, done: seq<Strip>, buffer: seq<byte>,
                         events: seq<Event>)
  {
    && (forall i :: 0 <= i < |done| ==> done[i].Valid())
    && Strips(stream, limit) == done + Strips(buffer, limit)
    && Residue(stream, limit) == Residue(buffer, limit)
    && Played(all, done) == Run(events, false)
  }

  lemma MidwayEnds(all: seq<Definition>, limit: nat, stream: seq<byte>, done: seq<Strip>, buffer: seq<byte>,
                   events: seq<Event>)
    requires Midway(all, limit, stream, done, buffer, events) && Scanned(buffer, limit).NeedMore?
    ensures Played(all, Strips(stream, limit)) == Run(events, false) && buffer == Residue(stream, limit)
  {
    hide Scanned, Played;
    StripsStep(buffer, limit);
    assert done + [] == done;
  }

  /** What the loop does with the frame that it has found in the buffer. */
  function Handled(all: seq<Definition>, b: seq<byte>, s: Scan): Outcome<Event>
    requires s.Frame? && s.from < s.to <= |b| && s.from + SHORT_HEADER_LENGTH <= |b|
  {
    if !s.ok then Ok(WrongChecksum(b[s.from..s.to]))
    else
      match Decoded(all, b[s.from..], s.to - s.from)
      case Ok(p) => Ok(Delivered(p))
      case Error => Ok(Undecodable(b[s.from..s.to]))
      case Panic => Panic
  }

  lemma MidwayStep(all: seq<Definition>, limit: nat, stream: seq<byte>, done: seq<Strip>, buffer: seq<byte>,
                   events: seq<Event>)
    requires Midway(all, limit, stream, done, buffer, events) && Scanned(buffer, limit).Frame?
    ensures var s := Scanned(buffer, limit);
            var h := Handled(all, buffer, s);
            && !h.Error?
            && (h.Ok? ==> Midway(all, limit, stream, done + [StripOf(buffer, s)], buffer[s.to..], events + [h.value]))
            && (h.Panic? ==> Played(all, Strips(stream, limit)) == Run(events, true))
  {
    hide Scanned, Strips, Residue, Handled, StripOf, Played;
    var s := Scanned(buffer, limit);
    var (strip, rest) := (StripOf(buffer, s), Strips(buffer[s.to..], limit));
    StripsStep(buffer, limit);
    assert done + ([strip] + rest) == done + [strip] + rest;
    PlayedStep(all, done, buffer, s);
    if Handled(all, buffer, s).Panic? {
      CrashIsFinal(all, done + [strip], rest);
    }
  }

  lemma StripsStep(b: seq<byte>, limit: nat)
    ensures var s := Scanned(b, limit);
            if s.NeedMore? then Strips(b, limit) == [] && Residue(b, limit) == b
            else Strips(b, limit) == [StripOf(b, s)] + Strips(b[s.to..], limit)
                 && Residue(b, limit) == Residue(b[s.to..], limit)
  {
    hide Scanned, StripOf;
  }

  lemma PlayedStep(all: seq<Definition>, done: seq<Strip>, b: seq<byte>, s: Scan)
    requires (forall i :: 0 <= i < |done| ==> done[i].Valid())
    requires s.Frame? && s.from < s.to <= |b| && s.from + SHORT_HEADER_LENGTH <= |b|
    requires !Played(all, done).crashed
    ensures var (events, h) := (Played(all, done).events, Handled(all, b, s));
            && !h.Error?
            && Played(all, done + [StripOf(b, s)])
               == if h.Ok? then Run(events + [h.value], false) else Run(events, true)
  {
    hide Judged, StripOf, Handled;
    var strip := StripOf(b, s);
    assert (done + [strip])[..|done|] == done;
    JudgedIsHandled(all, b, s);
  }

  /** What the decoder may look at beyond the frame makes no difference. */
  lemma JudgedIsHandled(all: seq<Definition>, b: seq<byte>, s: Scan)
    requires s.Frame? && s.from < s.to <= |b| && s.from + SHORT_HEADER_LENGTH <= |b|
    ensures Judged(all, StripOf(b, s)) == Handled(all, b, s) && !Handled(all, b, s).Error?
  {
    hide Decoded;
    var strip := StripOf(b, s);
    var len := s.to - s.from;
    var seen := if len < SHORT_HEADER_LENGTH then SHORT_HEADER_LENGTH else len;
    assert strip.head == b[s.from..][..seen];
    assert strip.head[..strip.len] == b[s.from..s.to];
    DecodedLocal(all, b[s.from..], len);
  }
}
