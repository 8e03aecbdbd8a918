/**
  What the deframer guarantees about a stream: valid frames are recovered from
  between garbage, and a damaged frame is rejected where it stands.
 */
module DeframerLaws {
  import opened Bytes
  import opened Crc8
  import opened CrcDetection
  import opened CrcPairs
  import opened Registry
  import opened Packets
  import opened Deframer

  // ---------------------------------------------------------------- recovery

  /** A complete valid frame that the deframer can accept. */
  predicate IsFrame(f: seq<byte>, limit: nat) {
    && |f| > SHORT_HEADER_LENGTH
    && f[0] == SYNC
    && LengthAt(f, 0) + 1 == |f|
    && LengthAt(f, 0) <= limit + SHORT_HEADER_LENGTH + 2
    && FrameValid(f)
  }

  lemma FrameIsScanned(g: seq<byte>, f: seq<byte>, rest: seq<byte>, limit: nat)
    requires SYNC !in g && IsFrame(f, limit)
    ensures Scanned(g + f + rest, limit) == Frame(true, |g|, |g| + |f|)
  {
    hide FirstCandidate, FromLe16, Crc;
    var b := g + f + rest;
    assert forall k :: 0 <= k < |g| ==> b[k] == g[k];
    assert b[|g|] == f[0] && b[|g| + 2..|g| + 4] == f[2..4];
    FirstCandidateIs(b, limit, 0, |g|);
    assert b[|g|..|g| + |f|] == f;
  }

  lemma FrameIsStripped(g: seq<byte>, f: seq<byte>, rest: seq<byte>, limit: nat)
    requires SYNC !in g && IsFrame(f, limit)
    ensures Strips(g + f + rest, limit) == [Strip(g, f, |f|, true)] + Strips(rest, limit)
    ensures Residue(g + f + rest, limit) == Residue(rest, limit)
  {
    hide Scanned, IsFrame;
    var b := g + f + rest;
    FrameIsScanned(g, f, rest, limit);
    assert b[|g| + |f|..] == rest;
    FrameIsLong(f, limit);
    assert b[|g|..|g| + |f|] == f && b[..|g|] == g;
  }

  lemma FrameIsLong(f: seq<byte>, limit: nat)
    requires IsFrame(f, limit)
    ensures |f| > SHORT_HEADER_LENGTH
  {
  }

  /** A valid frame, and the garbage before it, which contains no sync byte. */
  datatype Segment = Segment(garbage: seq<byte>, frame: seq<byte>)

  predicate Recoverable(segments: seq<Segment>, limit: nat) {
    forall i :: 0 <= i < |segments| ==> SYNC !in segments[i].garbage && IsFrame(segments[i].frame, limit)
  }

  function StreamOf(segments: seq<Segment>): seq<byte> {
    if |segments| == 0 then [] else segments[0].garbage + segments[0].frame + StreamOf(segments[1..])
  }

  function StripsOf(segments: seq<Segment>): (r: seq<Strip>)
    ensures |r| == |segments|
  {
    seq(|segments|, i requires 0 <= i < |segments| =>
      Strip(segments[i].garbage, segments[i].frame, |segments[i].frame|, true))
  }

  /** Every valid frame between garbage is recovered, in order, and nothing else is reported. */
  lemma {:induction false} Recovery(segments: seq<Segment>, tail: seq<byte>, limit: nat)
    requires Recoverable(segments, limit)
    ensures Strips(StreamOf(segments) + tail, limit) == StripsOf(segments) + Strips(tail, limit)
    ensures Residue(StreamOf(segments) + tail, limit) == Residue(tail, limit)
  {
    hide Strips, Residue, IsFrame;
    if |segments| == 0 {
      assert StreamOf(segments) + tail == tail;
    } else {
      var (g, f, rest) := (segments[0].garbage, segments[0].frame, StreamOf(segments[1..]));
      Recovery(segments[1..], tail, limit);
      FrameIsStripped(g, f, rest + tail, limit);
      assert StreamOf(segments) + tail == g + f + (rest + tail);
      assert StripsOf(segments) == [Strip(g, f, |f|, true)] + StripsOf(segments[1..]);
    }
  }

  /** Garbage without a sync byte is kept in the buffer and reported as nothing. */
  lemma GarbageIsQuiet(tail: seq<byte>, limit: nat)
    requires SYNC !in tail
    ensures Strips(tail, limit) == [] && Residue(tail, limit) == tail
  {
    hide FirstCandidate;
    NoCandidate(tail, limit, 0);
  }

  // --------------------------------------------------------------- corruption

  /** The error leaves the sync byte and the two length bytes of the frame alone. */
  predicate SparesHeader(e: seq<byte>) {
    forall k :: 0 <= k < |e| && k in {0, 2, 3} ==> e[k] == 0
  }

  function Damaged(b: seq<byte>, from: nat, to: nat, e: seq<byte>): (r: seq<byte>)
    requires from <= to <= |b| && |e| == to - from
    ensures |r| == |b|
  {
    b[..from] + XorBytes(b[from..to], e) + b[to..]
  }

  lemma DamageSpares(b: seq<byte>, from: nat, to: nat, e: seq<byte>, k: nat)
    requires from <= to <= |b| && |e| == to - from && k < |b|
    requires from <= k < to ==> e[k - from] == 0
    ensures Damaged(b, from, to, e)[k] == b[k]
  {
    hide Xor;
    if from <= k < to {
      XorZero(b[k]);
    }
  }

  /** The command byte of the frame at `from` after the damage. */
  function DamagedCommand(b: seq<byte>, from: nat, e: seq<byte>): byte
    requires from + 1 < |b|
  {
    if |e| > 1 then Xor(b[from + 1], e[1]) else b[from + 1]
  }

  /**
    A sync byte among the two bytes before the frame reads its length from the
    frame's command byte; with the command byte `c` that length is plausible.
   */
  predicate FalseStart(b: seq<byte>, limit: nat, from: nat, c: byte)
    requires from + SHORT_HEADER_LENGTH <= |b|
  {
    || (from >= 2 && b[from - 2] == SYNC && FromLe16([b[from], c]) <= limit + SHORT_HEADER_LENGTH + 2)
    || (from >= 1 && b[from - 1] == SYNC && FromLe16([c, b[from + 2]]) <= limit + SHORT_HEADER_LENGTH + 2)
  }

  /** What damage that spares the sync and length bytes does to the bytes around the header. */
  lemma DamagedHeader(b: seq<byte>, from: nat, to: nat, e: seq<byte>, k: nat)
    requires from < to <= |b| && |e| == to - from && SparesHeader(e)
    requires from + SHORT_HEADER_LENGTH <= |b| && k < from + 4
    ensures Damaged(b, from, to, e)[k] == if k == from + 1 then DamagedCommand(b, from, e) else b[k]
  {
    hide Xor;
    if k != from + 1 {
      hide Damaged;
      DamageSpares(b, from, to, e, k);
    }
  }

  lemma CandidatesBefore(b: seq<byte>, limit: nat, from: nat, to: nat, e: seq<byte>, k: nat)
    requires from < to <= |b| && |e| == to - from && SparesHeader(e)
    requires from + SHORT_HEADER_LENGTH <= |b| && k < from && !IsCandidate(b, limit, k)
    ensures IsCandidate(Damaged(b, from, to, e), limit, k)
       <==> k + 2 >= from && b[k] == SYNC
            && (var c := DamagedCommand(b, from, e);
                FromLe16(if k + 2 == from then [b[from], c] else [c, b[from + 2]]) <= limit + SHORT_HEADER_LENGTH + 2)
  {
    hide FromLe16, Damaged, DamagedCommand, SparesHeader;
    var d := Damaged(b, from, to, e);
    DamagedHeader(b, from, to, e, k);
    DamagedHeader(b, from, to, e, k + 2);
    DamagedHeader(b, from, to, e, k + 3);
    assert d[k + 2..k + 4] == [d[k + 2], d[k + 3]];
    assert b[k + 2..k + 4] == [b[k + 2], b[k + 3]];
  }

  lemma CandidateItself(b: seq<byte>, limit: nat, from: nat, to: nat, e: seq<byte>)
    requires from < to <= |b| && |e| == to - from && SparesHeader(e)
    requires from + SHORT_HEADER_LENGTH <= |b| && IsCandidate(b, limit, from)
    ensures IsCandidate(Damaged(b, from, to, e), limit, from)
    ensures LengthAt(Damaged(b, from, to, e), from) == LengthAt(b, from)
  {
    hide FromLe16, Damaged, DamagedCommand, SparesHeader;
    var d := Damaged(b, from, to, e);
    DamagedHeader(b, from, to, e, from);
    DamagedHeader(b, from, to, e, from + 2);
    DamagedHeader(b, from, to, e, from + 3);
    assert d[from + 2..from + 4] == [d[from + 2], d[from + 3]];
    assert b[from + 2..from + 4] == [b[from + 2], b[from + 3]];
  }

  lemma ScanSettles(b: seq<byte>, limit: nat)
    requires Scanned(b, limit).Frame?
    ensures var s := Scanned(b, limit);
            && IsCandidate(b, limit, s.from)
            && s.to == s.from + LengthAt(b, s.from) + 1
            && s.ok == FrameValid(b[s.from..s.to])
            && forall k :: 0 <= k < s.from ==> !IsCandidate(b, limit, k)
  {
    hide FirstCandidate, IsCandidate, FrameValid;
    var i := FirstCandidate(b, limit, 0);
    assert IsCandidate(b, limit, i) && Scanned(b, limit) == ScanAt(b, i);
  }

  lemma NoFalseStart(b: seq<byte>, limit: nat, from: nat, to: nat, e: seq<byte>)
    requires from < to <= |b| && |e| == to - from && SparesHeader(e)
    requires IsCandidate(b, limit, from) && forall k :: 0 <= k < from ==> !IsCandidate(b, limit, k)
    requires !FalseStart(b, limit, from, DamagedCommand(b, from, e))
    ensures FirstCandidate(Damaged(b, from, to, e), limit, 0) == from
  {
    hide FirstCandidate, Damaged, DamagedCommand, FromLe16, SparesHeader, LengthAt;
    var d := Damaged(b, from, to, e);
    CandidateItself(b, limit, from, to, e);
    forall k: nat | k < from
      ensures !IsCandidate(d, limit, k)
    {
      CandidatesBefore(b, limit, from, to, e, k);
    }
    hide IsCandidate;
    FirstCandidateIs(d, limit, 0, from);
  }

  lemma FalseStartWins(b: seq<byte>, limit: nat, from: nat, to: nat, e: seq<byte>)
    requires from < to <= |b| && |e| == to - from && SparesHeader(e)
    requires IsCandidate(b, limit, from) && forall k :: 0 <= k < from ==> !IsCandidate(b, limit, k)
    requires FalseStart(b, limit, from, DamagedCommand(b, from, e))
    ensures FirstCandidate(Damaged(b, from, to, e), limit, 0) < from
  {
    hide FirstCandidate, Damaged, DamagedCommand, FromLe16, SparesHeader, LengthAt;
    var d := Damaged(b, from, to, e);
    CandidatesBefore(b, limit, from, to, e, from - 1);
    if from >= 2 {
      CandidatesBefore(b, limit, from, to, e, from - 2);
    }
    hide IsCandidate;
  }

  lemma DamagedFrame(b: seq<byte>, from: nat, to: nat, e: seq<byte>)
    requires from < to <= |b| && |e| == to - from && FrameValid(b[from..to])
    ensures Damaged(b, from, to, e)[from..to] == XorBytes(b[from..to], e)
    ensures FrameValid(Damaged(b, from, to, e)[from..to]) <==> Crc(0, e) == 0
  {
    hide Crc, FrameValid, XorBytes;
    UndetectedIff(b[from..to], e);
  }

  lemma ScanStarts(d: seq<byte>, limit: nat)
    requires FirstCandidate(d, limit, 0) < |d|
    ensures var i := FirstCandidate(d, limit, 0);
            Scanned(d, limit) == ScanAt(d, i) && (ScanAt(d, i).NeedMore? || ScanAt(d, i).from == i)
  {
    hide FirstCandidate, LengthAt, FrameValid;
  }

  lemma JudgedInPlace(b: seq<byte>, from: nat, to: nat, e: seq<byte>, limit: nat)
    requires from < to <= |b| && |e| == to - from && SparesHeader(e)
    requires IsCandidate(b, limit, from) && to == from + LengthAt(b, from) + 1 && FrameValid(b[from..to])
    ensures ScanAt(Damaged(b, from, to, e), from) == Frame(Crc(0, e) == 0, from, to)
  {
    assert from + SHORT_HEADER_LENGTH <= |b|;
    hide Damaged, LengthAt, Crc, FrameValid, SparesHeader, IsCandidate, XorBytes;
    CandidateItself(b, limit, from, to, e);
    DamagedFrame(b, from, to, e);
  }

  /**
    Damage that spares the sync and length bytes of a valid frame is judged in
    place (accepted exactly when the error pattern has residue 0) exactly when
    no sync byte just before the frame now reads a plausible length.
   */
  lemma DamagedScan(b: seq<byte>, limit: nat, e: seq<byte>)
    requires Scanned(b, limit).Frame? && Scanned(b, limit).ok
    requires |e| == Scanned(b, limit).to - Scanned(b, limit).from && SparesHeader(e)
    ensures var s := Scanned(b, limit);
            Scanned(Damaged(b, s.from, s.to, e), limit) == Frame(Crc(0, e) == 0, s.from, s.to)
            <==> !FalseStart(b, limit, s.from, DamagedCommand(b, s.from, e))
  {
    hide Scanned, ScanAt, FirstCandidate, Damaged, LengthAt, DamagedCommand, FalseStart, FrameValid, Crc, IsCandidate,
         SparesHeader;
    var s := Scanned(b, limit);
    var d := Damaged(b, s.from, s.to, e);
    ScanSettles(b, limit);
    if FalseStart(b, limit, s.from, DamagedCommand(b, s.from, e)) {
      FalseStartWins(b, limit, s.from, s.to, e);
    } else {
      NoFalseStart(b, limit, s.from, s.to, e);
      JudgedInPlace(b, s.from, s.to, e, limit);
    }
    ScanStarts(d, limit);
  }

  /**
    A burst of at most eight bits, or an odd number of flipped bits, behind the
    header's sync and length bytes makes the scan report a wrong checksum over
    the same range.
   */
  lemma DamageDetected(b: seq<byte>, limit: nat, e: seq<byte>, p: nat)
    requires Scanned(b, limit).Frame? && Scanned(b, limit).ok
    requires |e| == Scanned(b, limit).to - Scanned(b, limit).from && SparesHeader(e)
    requires !FalseStart(b, limit, Scanned(b, limit).from, DamagedCommand(b, Scanned(b, limit).from, e))
    requires IsBurst(e, p) || Ones(MessageBits(e)) % 2 == 1
    ensures var s := Scanned(b, limit);
            Scanned(Damaged(b, s.from, s.to, e), limit) == Frame(false, s.from, s.to)
  {
    hide Scanned, Damaged, FalseStart, DamagedCommand, Crc, IsBurst, Ones, MessageBits, SparesHeader;
    DamagedScan(b, limit, e);
    if IsBurst(e, p) {
      BurstHasResidue(e, p);
    } else {
      OddHasResidue(e);
    }
  }

  /**
    Two flipped bits behind the header's sync and length bytes are accepted over
    the same range when 127 divides their distance, and rejected otherwise.
   */
  lemma PairJudged(b: seq<byte>, limit: nat, e: seq<byte>, i: nat, j: nat)
    requires Scanned(b, limit).Frame? && Scanned(b, limit).ok
    requires |e| == Scanned(b, limit).to - Scanned(b, limit).from && SparesHeader(e)
    requires !FalseStart(b, limit, Scanned(b, limit).from, DamagedCommand(b, Scanned(b, limit).from, e))
    requires IsPair(e, i, j)
    ensures var s := Scanned(b, limit);
            Scanned(Damaged(b, s.from, s.to, e), limit) == Frame((j - i) % 127 == 0, s.from, s.to)
  {
    hide Scanned, Damaged, FalseStart, DamagedCommand, SparesHeader, IsPair, Crc;
    DamagedScan(b, limit, e);
    PairHasResidue(e, i, j);
  }

  lemma {:induction false} ZeroBytesKeepResidue(s: seq<byte>, n: nat)
    ensures Crc(0, s + seq(n, _ => 0)) == 0 <==> Crc(0, s) == 0
    decreases n
  {
    hide Xor, Turns;
    var t := s + seq(n, _ => 0);
    if n == 0 {
      assert t == s;
    } else {
      assert t[..|t| - 1] == s + seq(n - 1, _ => 0);
      ZeroBytesKeepResidue(s, n - 1);
      XorZero(Crc(0, t[..|t| - 1]));
      TurnsZeroIff(Crc(0, t[..|t| - 1]), 8);
    }
  }

  lemma CommandFlipHasResidue(n: nat)
    ensures Crc(0, [0, 0x20] + seq(n, _ => 0)) != 0
  {
    hide Xor, Turns;
    var s: seq<byte> := [0, 0x20];
    ZeroBytesKeepResidue(s, n);
    assert s[..1] == [0] && s[..1][..0] == [];
    XorZeroIff(0, 0);
    TurnsZeroIff(0, 8);
    XorZeroIff(0, 0x20);
    TurnsZeroIff(Xor(0, 0x20), 8);
    assert Crc(0, s) == Turns(Xor(Crc(0, [0]), 0x20), 8);
  }

  /** A valid frame of a request for the object `id`, behind a stray sync byte and a zero byte. */
  function StrayStart(id: seq<byte>, rest: seq<byte>): (b: seq<byte>)
    requires |id| == 4
    ensures |b| == 11 + |rest|
  {
    [SYNC, 0] + Checked([SYNC, 0x20, 8, 0] + id) + rest
  }

  lemma StrayStartScanned(id: seq<byte>, rest: seq<byte>, limit: nat)
    requires |id| == 4 && 50 <= limit < 8000
    ensures Scanned(StrayStart(id, rest), limit) == Frame(true, 2, 11)
    ensures FalseStart(StrayStart(id, rest), limit, 2, 0)
  {
    hide Crc, FirstCandidate;
    var f := Checked([SYNC, 0x20, 8, 0] + id);
    var b := StrayStart(id, rest);
    assert b[2..4] == [SYNC, 0x20] && b[4..6] == [8, 0] && b[2..11] == f;
    assert f[..8] == [SYNC, 0x20, 8, 0] + id;
    FirstCandidateIs(b, limit, 0, 2);
  }

  /**
    Without that condition detection in place fails: behind a stray sync byte,
    one flipped bit in the command byte of a valid frame makes the scan settle
    on the stray byte instead.
   */
  lemma StrayStartHidesFrame(id: seq<byte>, rest: seq<byte>, limit: nat)
    requires |id| == 4 && 50 <= limit < 8000
    ensures var b := StrayStart(id, rest);
            var e := [0, 0x20] + seq(7, _ => 0);
            && Scanned(b, limit) == Frame(true, 2, 11) && SparesHeader(e)
            && Scanned(Damaged(b, 2, 11, e), limit) != Frame(false, 2, 11)
  {
    hide Scanned, Crc, Damaged, FalseStart, Xor;
    var b := StrayStart(id, rest);
    var e: seq<byte> := [0, 0x20] + seq(7, _ => 0);
    StrayStartScanned(id, rest, limit);
    CommandFlipHasResidue(7);
    XorZeroIff(0x20, 0x20);
    assert b[3] == 0x20 && e[1] == 0x20;
    DamagedScan(b, limit, e);
  }
}
