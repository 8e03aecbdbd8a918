/**
  When a frame with a right checksum takes the process down: the decoder panics
  on a frame that is shorter than its header and on an enum byte without an
  option (uavtalk/uavtalk.go, uavtalk/uavtalktomap.go).
 */
module CrashLaws {
  import opened Bytes
  import opened Outcomes
  import opened Definitions
  import opened Registry
  import opened Payload
  import opened PayloadLaws
  import opened Packets
  import opened Deframer
  import opened Receiver

  predicate UsableRegistry(all: seq<Definition>) {
    forall i :: 0 <= i < |all| ==> AllWellFormed(all[i].fields)
  }

  lemma FoundIsUsable(all: seq<Definition>, id: uint32)
    requires UsableRegistry(all) && Lookup(all, id).Ok?
    ensures AllWellFormed(Lookup(all, id).value.fields)
  {
    hide AllWellFormed;
  }

  /** A frame for a known object that is too short for its header, or has an enum byte without an option. */
  predicate Poisonous(all: seq<Definition>, view: seq<byte>, len: nat)
    requires UsableRegistry(all) && SHORT_HEADER_LENGTH <= |view| && len <= |view|
  {
    || len < 2
    || (var found := Lookup(all, FromLe32(view[4..8]));
        && found.Ok?
        && (|| len - 1 < HeaderLength(found.value)
            || (&& CarriesData(FlipVersion(view[1]))
                && (FoundIsUsable(all, FromLe32(view[4..8]));
                    !EnumsInRange(found.value.fields, view[HeaderLength(found.value)..len - 1])))))
  }

  lemma DecodedPanicsIff(all: seq<Definition>, view: seq<byte>, len: nat)
    requires UsableRegistry(all) && SHORT_HEADER_LENGTH <= |view| && len <= |view|
    ensures Decoded(all, view, len).Panic? <==> Poisonous(all, view, len)
  {
    hide Lookup, ReadMap, EnumsInRange, FromLe16, FromLe32, FlipVersion, UsableRegistry, AllWellFormed;
    var id := FromLe32(view[4..8]);
    LookupNeverPanics(all, id);
    if Lookup(all, id).Ok? {
      FoundIsUsable(all, id);
      var d := Lookup(all, id).value;
      if 2 <= len && HeaderLength(d) <= len - 1 {
        DecoderExact(d.fields, view[HeaderLength(d)..len - 1]);
      }
    }
  }

  lemma LookupNeverPanics(all: seq<Definition>, id: uint32)
    ensures !Lookup(all, id).Panic?
  {
  }

  predicate AllValid(strips: seq<Strip>) {
    forall i :: 0 <= i < |strips| ==> strips[i].Valid()
  }

  /** A stripped frame with a right checksum on which decoding panics. */
  predicate Kills(all: seq<Definition>, s: Strip)
    requires UsableRegistry(all) && s.Valid()
  {
    s.ok && Poisonous(all, s.head, s.len)
  }

  lemma JudgedPanicsIff(all: seq<Definition>, s: Strip)
    requires UsableRegistry(all) && s.Valid()
    ensures Judged(all, s).Panic? <==> Kills(all, s)
    ensures !Judged(all, s).Error?
  {
    hide Decoded, Poisonous, UsableRegistry;
    DecodedPanicsIff(all, s.head, s.len);
  }

  /** Reporting a series of strips crashes exactly when one of them kills. */
  lemma {:induction false} PlayedCrashesIff(all: seq<Definition>, strips: seq<Strip>)
    requires UsableRegistry(all) && AllValid(strips)
    ensures Played(all, strips).crashed <==> exists i :: 0 <= i < |strips| && Kills(all, strips[i])
  {
    hide UsableRegistry, Kills, Judged;
    if |strips| > 0 {
      var (front, n) := (strips[..|strips| - 1], |strips| - 1);
      PlayedCrashesIff(all, front);
      JudgedPanicsIff(all, strips[n]);
      if i: nat :| i < |front| && Kills(all, front[i]) {
        assert Kills(all, strips[i]);
      }
    }
  }

  /**
    For every byte stream and every way of cutting it into reads, the process
    crashes exactly when the stream holds a frame with a right checksum, where
    the deframer finds one, that is too short for its object's header or has an
    enum byte without an option.
   */
  lemma StreamCrashesIff(all: seq<Definition>, limit: nat, chunks: seq<seq<byte>>)
    requires UsableRegistry(all)
    ensures AllValid(StripsAfter(chunks, limit)) && AllValid(Strips(Flatten(chunks), limit))
    ensures Played(all, StripsAfter(chunks, limit)).crashed
       <==> exists i :: 0 <= i < |Strips(Flatten(chunks), limit)| && Kills(all, Strips(Flatten(chunks), limit)[i])
  {
    hide UsableRegistry, Kills, Strips, StripsAfter, Flatten, Played;
    ChunkIndependence(chunks, limit);
    PlayedCrashesIff(all, Strips(Flatten(chunks), limit));
  }
}
