/**
  Goroutines sharing one WebSocket connection: one data writer and any number
  of control writers put frames on the wire, each holding the single token of
  the channel `mu` meanwhile
  (Godeps/_workspace/src/github.com/gorilla/websocket/conn.go).

  A frame goes out in one or two network writes; any of them can fail after
  part of its bytes, and then the connection is closed.  The data writer never
  looks at the wire: it takes the opcode of a frame from its own record of the
  frame type, which it updates after every flush, whatever came of it.
  Everything here holds for every interleaving of the goroutines' steps.
 */
module WsWireOrder {
  import opened Bytes
  import opened Outcomes
  import opened WsFrames
  import opened WsMessages

  /**
    Where a goroutine is: outside, waiting for the token, writing its buffers,
    about to return the token, or back from the write with its outcome.
   */
  datatype Local =
    | Idle
    | Waiting(want: Sent, queued: seq<seq<byte>>)
    | Holding(frame: Sent, written: seq<byte>, bufs: seq<seq<byte>>)
    | Releasing(sent: Sent, ok: bool)
    | Returned(back: Sent, fine: bool)

  datatype System = System(
    masked: bool,
    token: bool,
    closeSent: bool,
    broken: bool,
    writeErr: bool,
    writeFrameType: int,
    wire: seq<byte>,
    log: seq<Sent>,
    threads: map<nat, Local>)

  /** The goroutine that writes data messages; all others only write control frames. */
  const DATA_WRITER: nat := 0

  function Initial(masked: bool): System {
    System(masked, true, false, false, false, NO_FRAME, [], [], map[])
  }

  function At(s: System, t: nat): Local {
    if t in s.threads then s.threads[t] else Idle
  }

  /** A goroutine that has taken the token and not returned it. */
  predicate Busy(l: Local) {
    l.Holding? || l.Releasing?
  }

  // -------------------------------------------------------------------- steps

  datatype Step =
    | Open(messageType: int)
    | Reject
    | Request(t: nat, frame: Sent, bufs: seq<seq<byte>>)
    | Acquire(t: nat)
    | WriteBuffer(t: nat, n: nat)
    | Release(t: nat)
    | Finish(t: nat)

  /** The data writer is outside a flush, and no earlier one has failed. */
  predicate Free(s: System) {
    At(s, DATA_WRITER).Idle? && !s.writeErr
  }

  /** The buffers that are written at all: empty ones are passed over. */
  predicate Full(bufs: seq<seq<byte>>) {
    |bufs| > 0 && forall i :: 0 <= i < |bufs| ==> bufs[i] != []
  }

  /** The frames that a goroutine may ask to write: the data writer only one of its current frame type. */
  predicate MayRequest(s: System, t: nat, frame: Sent, bufs: seq<seq<byte>>) {
    && At(s, t).Idle?
    && SentOk(frame, s.masked)
    && Full(bufs) && Flatten(bufs) == FrameBytes(frame.frame, frame.key)
    && (t != DATA_WRITER ==> IsControl(frame.frame.opcode))
    && (t == DATA_WRITER ==> !s.writeErr && frame.frame.opcode == s.writeFrameType)
  }

  predicate Enabled(s: System, step: Step) {
    match step
    case Open(messageType) => Free(s) && s.writeFrameType == NO_FRAME && (IsData(messageType) || IsControl(messageType))
    case Reject => Free(s) && IsControl(s.writeFrameType)
    case Request(t, frame, bufs) => MayRequest(s, t, frame, bufs)
    case Acquire(t) => At(s, t).Waiting? && s.token
    case WriteBuffer(t, n) => At(s, t).Holding? && |At(s, t).bufs| > 0 && n <= |At(s, t).bufs[0]|
    case Release(t) => At(s, t).Releasing?
    case Finish(t) => At(s, t).Returned?
  }

  /** Behind a close frame the token is only returned. */
  function AfterAcquire(s: System, t: nat): System
    requires At(s, t).Waiting?
  {
    var l := At(s, t);
    if s.closeSent then s.(token := false, threads := s.threads[t := Releasing(l.want, false)])
    else
      s.(token := false, closeSent := l.want.frame.opcode == CLOSE_MESSAGE,
         threads := s.threads[t := Holding(l.want, [], l.queued)])
  }

  /**
    The network takes `n` bytes of the next buffer.  All of them: on to the next
    buffer, or the frame is out.  Fewer, or a connection closed before: an
    error.  A partial write closes the connection, and so does any short write
    of the data writer.
   */
  function AfterWrite(s: System, t: nat, n: nat): System
    requires At(s, t).Holding? && |At(s, t).bufs| > 0 && n <= |At(s, t).bufs[0]|
  {
    var l := At(s, t);
    var failed := s.(threads := s.threads[t := Releasing(l.frame, false)]);
    if s.broken then failed
    else if n < |l.bufs[0]| then
      if n == 0 && t != DATA_WRITER && |l.written| == 0 then failed
      else failed.(broken := true, wire := s.wire + l.bufs[0][..n])
    else if |l.bufs| > 1 then
      s.(wire := s.wire + l.bufs[0], threads := s.threads[t := Holding(l.frame, l.written + l.bufs[0], l.bufs[1..])])
    else
      s.(wire := s.wire + l.bufs[0], log := s.log + [l.frame], threads := s.threads[t := Releasing(l.frame, true)])
  }

  /** The frame type behind a flushed frame. */
  function NextType(f: Frame): int {
    if f.final then NO_FRAME else CONTINUATION
  }

  /** The write has returned: the data writer notes its outcome and sets up the next frame. */
  function AfterFinish(s: System, t: nat): System
    requires At(s, t).Returned?
  {
    var l := At(s, t);
    var idle := s.(threads := s.threads[t := Idle]);
    if t == DATA_WRITER then idle.(writeErr := !l.fine, writeFrameType := NextType(l.back.frame)) else idle
  }

  function Apply(s: System, step: Step): System
    requires Enabled(s, step)
  {
    match step
    case Open(messageType) => s.(writeFrameType := messageType)
    case Reject => s.(writeFrameType := NO_FRAME)
    case Request(t, frame, bufs) => s.(threads := s.threads[t := Waiting(frame, bufs)])
    case Acquire(t) => AfterAcquire(s, t)
    case WriteBuffer(t, n) => AfterWrite(s, t, n)
    case Release(t) => s.(token := true, threads := s.threads[t := Returned(At(s, t).sent, At(s, t).ok)])
    case Finish(t) => AfterFinish(s, t)
  }

  /** The state after a sequence of steps, if each of them was possible where it occurred. */
  function Run(masked: bool, steps: seq<Step>): Option<System> {
    if |steps| == 0 then Some(Initial(masked))
    else
      var (before, step) := (Run(masked, steps[..|steps| - 1]), steps[|steps| - 1]);
      if before.Some? && Enabled(before.value, step) then Some(Apply(before.value, step)) else None
  }

  // ---------------------------------------------------------------- invariant

  /** At most one goroutine holds the token, and none while it is in the channel. */
  ghost predicate Exclusive(s: System) {
    && (forall t, u :: Busy(At(s, t)) && Busy(At(s, u)) ==> t == u)
    && (s.token ==> forall t :: !Busy(At(s, t)))
  }

  /** A frame that goroutine `t` may write at all. */
  predicate Suits(s: System, t: nat, f: Sent) {
    SentOk(f, s.masked) && (t != DATA_WRITER ==> IsControl(f.frame.opcode))
  }

  /** The frame type says whether a message is open on the wire. */
  predicate Tracks(s: System, frameType: int) {
    frameType == CONTINUATION <==> Assembled(s.log).partial.Some?
  }

  /** The data writer's own record agrees with the wire, unless it has seen or is about to see an error. */
  predicate DataOk(s: System) {
    match At(s, DATA_WRITER)
    case Idle => !s.writeErr ==> Tracks(s, s.writeFrameType)
    case Waiting(f, _) => f.frame.opcode == s.writeFrameType && Tracks(s, s.writeFrameType)
    case Holding(f, _, _) => f.frame.opcode == s.writeFrameType && Tracks(s, s.writeFrameType)
    case Releasing(f, ok) => ok ==> Tracks(s, NextType(f.frame))
    case Returned(f, ok) => ok ==> Tracks(s, NextType(f.frame))
  }

  /** Whatever holds the token, the frame it writes fits behind the frames on the wire. */
  lemma HeldFrameFits(s: System, t: nat)
    requires LocalOk(s, t) && DataOk(s) && At(s, t).Holding?
    ensures Fits(Assembled(s.log), At(s, t).frame.frame)
  {
    hide Assembled, FrameBytes, CloseIn;
  }

  /** The record after a flush still agrees with the wire. */
  lemma FlushTracks(s: System, f: Sent)
    requires SentOk(f, s.masked) && f.frame.opcode == s.writeFrameType && Tracks(s, s.writeFrameType)
    ensures Tracks(s.(log := s.log + [f]), NextType(f.frame))
  {
    hide Assembled, Sequenced, NothingAfterClose, CloseIn;
    AssembledSnoc(s.log, f);
  }

  predicate LocalOk(s: System, t: nat) {
    match At(s, t)
    case Idle => true
    case Releasing(_, _) => true
    case Returned(_, _) => true
    case Waiting(f, bufs) => Suits(s, t, f) && Full(bufs) && Flatten(bufs) == FrameBytes(f.frame, f.key)
    case Holding(f, written, bufs) =>
      && Suits(s, t, f) && Full(bufs) && written + Flatten(bufs) == FrameBytes(f.frame, f.key)
      && !CloseIn(s.log) && s.closeSent == (f.frame.opcode == CLOSE_MESSAGE)
  }

  predicate LogOk(s: System) {
    AllSentOk(s.log, s.masked) && Sequenced(s.log) && NothingAfterClose(s.log) && (CloseIn(s.log) ==> s.closeSent)
  }

  /** The bytes `p` are on the wire behind the complete frames. */
  predicate Behind(s: System, p: seq<byte>)
    requires LogOk(s)
  {
    s.wire == EncodeAll(s.log, s.masked) + p
  }

  /** The connection was closed after `k` bytes of frame `f`, and not the whole of it. */
  predicate CutFrame(s: System, f: Sent, k: nat)
    requires LogOk(s)
  {
    && SentOk(f, s.masked) && Fits(Assembled(s.log), f.frame) && k < |FrameBytes(f.frame, f.key)|
    && !CloseIn(s.log) && Behind(s, FrameBytes(f.frame, f.key)[..k])
  }

  /** Complete frames, then what the holder of the token has written of its frame, and nothing else. */
  ghost predicate WireOk(s: System)
    requires LogOk(s)
  {
    if s.broken then exists f: Sent, k: nat :: CutFrame(s, f, k)
    else
      && (forall t :: At(s, t).Holding? ==> Behind(s, At(s, t).written))
      && ((forall t :: !At(s, t).Holding?) ==> Behind(s, []))
  }

  ghost predicate Inv(s: System) {
    Exclusive(s) && (forall t :: LocalOk(s, t)) && DataOk(s) && LogOk(s) && WireOk(s)
  }

  lemma RequestKeeps(s: System, t: nat, f: Sent, bufs: seq<seq<byte>>)
    requires Inv(s) && MayRequest(s, t, f, bufs)
    ensures Inv(Apply(s, Request(t, f, bufs)))
  {
    hide FrameBytes, EncodeAll, Assembled, SentOk, Fits, Sequenced, NothingAfterClose, CloseIn;
    var s' := Apply(s, Request(t, f, bufs));
    forall u
      ensures At(s', u) == if u == t then Waiting(f, bufs) else At(s, u)
      ensures LocalOk(s', u)
    {
      assert LocalOk(s, u);
    }
    SameElsewhere(s, s');
    hide Exclusive, LogOk, WireOk;
  }

  lemma AcquireKeeps(s: System, t: nat)
    requires Inv(s) && At(s, t).Waiting? && s.token
    ensures Inv(AfterAcquire(s, t))
  {
    hide FrameBytes, EncodeAll, Assembled, SentOk, Fits, Sequenced, NothingAfterClose, CloseIn;
    var s' := AfterAcquire(s, t);
    assert LocalOk(s, t) && !Busy(At(s, t));
    assert [] + Flatten(At(s, t).queued) == Flatten(At(s, t).queued);
    forall u
      ensures u != t ==> At(s', u) == At(s, u)
      ensures LocalOk(s', u)
    {
      assert LocalOk(s, u) && !Busy(At(s, u));
    }
    if s.broken {
      var g: Sent, k: nat :| CutFrame(s, g, k);
      assert CutFrame(s', g, k);
    } else {
      assert Behind(s, []) && Behind(s', []);
    }
  }

  lemma ReleaseKeeps(s: System, t: nat)
    requires Inv(s) && At(s, t).Releasing?
    ensures Inv(Apply(s, Release(t)))
  {
    hide FrameBytes, EncodeAll, Assembled, SentOk, Fits, Sequenced, NothingAfterClose, CloseIn;
    var s' := Apply(s, Release(t));
    forall u
      ensures At(s', u) == if u == t then Returned(At(s, t).sent, At(s, t).ok) else At(s, u)
      ensures LocalOk(s', u) && !Busy(At(s', u))
    {
      assert LocalOk(s, u) && (Busy(At(s, u)) ==> u == t);
    }
    if s.broken {
      var g: Sent, k: nat :| CutFrame(s, g, k);
      assert CutFrame(s', g, k);
    } else {
      assert forall u :: !At(s, u).Holding? by {
        forall u
          ensures !At(s, u).Holding?
        {
          assert Busy(At(s, u)) ==> u == t;
        }
      }
      assert Behind(s', []);
    }
  }

  /** Opening a message, or giving up a control frame, happens while no message is open on the wire. */
  lemma TypeKeeps(s: System, frameType: int)
    requires Inv(s) && Free(s) && s.writeFrameType != CONTINUATION && frameType != CONTINUATION
    ensures Inv(s.(writeFrameType := frameType))
  {
    hide FrameBytes, EncodeAll, Assembled, SentOk, Fits, Sequenced, NothingAfterClose, CloseIn;
    var s' := s.(writeFrameType := frameType);
    SameElsewhere(s, s');
    forall u
      ensures LocalOk(s', u)
    {
      assert LocalOk(s, u) && At(s', u) == At(s, u);
    }
  }

  lemma FinishKeeps(s: System, t: nat)
    requires Inv(s) && At(s, t).Returned?
    ensures Inv(AfterFinish(s, t))
  {
    hide FrameBytes, EncodeAll, Assembled, SentOk, Fits, Sequenced, NothingAfterClose, CloseIn, LocalOk;
    var s' := AfterFinish(s, t);
    AtUpdated(s, s', t, Idle);
    FinishTracks(s, t);
    hide At, DataOk, NextType;
    SameElsewhere(s, s');
    hide Exclusive, LogOk, WireOk;
    forall u
      ensures LocalOk(s', u)
    {
      assert LocalOk(s, u);
      if u == t {
        IdleIsOk(s', u);
      } else {
        SameLocal(s, s', u);
      }
    }
  }

  lemma FinishTracks(s: System, t: nat)
    requires DataOk(s) && At(s, t).Returned?
    ensures DataOk(AfterFinish(s, t))
  {
    hide Assembled;
  }

  lemma AtUpdated(s: System, s': System, t: nat, l: Local)
    requires s'.threads == s.threads[t := l]
    ensures forall u :: At(s', u) == if u == t then l else At(s, u)
  {
  }

  lemma SameLocal(s: System, s': System, u: nat)
    requires s'.masked == s.masked && s'.log == s.log && s'.closeSent == s.closeSent
    requires LocalOk(s, u) && At(s', u) == At(s, u)
    ensures LocalOk(s', u)
  {
    hide FrameBytes, SentOk, CloseIn, At;
  }

  lemma IdleIsOk(s: System, u: nat)
    requires At(s, u).Idle?
    ensures LocalOk(s, u)
  {
  }

  /** Steps that touch neither the token, the wire nor the log, and no goroutine that holds the token. */
  lemma SameElsewhere(s: System, s': System)
    requires Exclusive(s) && LogOk(s) && WireOk(s)
    requires s'.masked == s.masked && s'.token == s.token && s'.wire == s.wire && s'.log == s.log
    requires s'.broken == s.broken && s'.closeSent == s.closeSent
    requires forall u :: (Busy(At(s, u)) || Busy(At(s', u))) ==> At(s', u) == At(s, u)
    ensures Exclusive(s') && LogOk(s') && WireOk(s')
  {
    hide FrameBytes, EncodeAll, Assembled, SentOk, Fits, Sequenced, NothingAfterClose, CloseIn;
    if s.broken {
      var g: Sent, k: nat :| CutFrame(s, g, k);
      assert CutFrame(s', g, k);
    } else if forall u :: !At(s', u).Holding? {
      forall u
        ensures !At(s, u).Holding?
      {
        assert !At(s', u).Holding?;
      }
    }
  }

  lemma FlattenFirst(bufs: seq<seq<byte>>)
    requires |bufs| > 0
    ensures Flatten(bufs) == bufs[0] + Flatten(bufs[1..])
  {
    var one := bufs[..1];
    assert bufs == one + bufs[1..] && one[..0] == [];
    FlattenConcat(one, bufs[1..]);
  }

  /** The goroutine gives up its frame: nothing but its own place changes. */
  lemma GiveUpKeeps(s: System, t: nat)
    requires Inv(s) && At(s, t).Holding? && (s.broken || At(s, t).written == [])
    ensures Inv(s.(threads := s.threads[t := Releasing(At(s, t).frame, false)]))
  {
    hide FrameBytes, EncodeAll, Assembled, SentOk, Fits, Sequenced, NothingAfterClose, CloseIn;
    var gone := Releasing(At(s, t).frame, false);
    var s' := s.(threads := s.threads[t := gone]);
    forall u
      ensures At(s', u) == if u == t then gone else At(s, u)
      ensures LocalOk(s', u) && (Busy(At(s', u)) ==> u == t)
    {
      assert LocalOk(s, u) && (Busy(At(s, u)) ==> u == t);
    }
    if s.broken {
      var g: Sent, k: nat :| CutFrame(s, g, k);
      assert CutFrame(s', g, k);
    } else {
      assert Behind(s, At(s, t).written) && Behind(s', []);
    }
  }

  /** A write cut short: part of the frame stays on the wire, and the connection is closed. */
  lemma CutKeeps(s: System, t: nat, n: nat)
    requires Inv(s) && !s.broken && At(s, t).Holding? && |At(s, t).bufs| > 0 && n < |At(s, t).bufs[0]|
    ensures Inv(s.(threads := s.threads[t := Releasing(At(s, t).frame, false)], broken := true,
                   wire := s.wire + At(s, t).bufs[0][..n]))
  {
    hide FrameBytes, EncodeAll, Assembled, FrameOk, Fits, Sequenced, NothingAfterClose, CloseIn, Flatten;
    var l := At(s, t);
    var gone := Releasing(l.frame, false);
    var s' := s.(threads := s.threads[t := gone], broken := true, wire := s.wire + l.bufs[0][..n]);
    forall u
      ensures At(s', u) == if u == t then gone else At(s, u)
      ensures LocalOk(s', u) && (Busy(At(s', u)) ==> u == t)
    {
      assert LocalOk(s, u) && (Busy(At(s, u)) ==> u == t);
    }
    assert LocalOk(s, t) && Behind(s, l.written);
    HeldFrameFits(s, t);
    FlattenFirst(l.bufs);
    var k := |l.written| + n;
    var bytes := FrameBytes(l.frame.frame, l.frame.key);
    assert bytes[..k] == l.written + l.bufs[0][..n];
    assert EncodeAll(s.log, s.masked) + l.written + l.bufs[0][..n] == EncodeAll(s.log, s.masked) + bytes[..k];
    assert CutFrame(s', l.frame, k);
  }

  lemma NextBufferKeeps(s: System, t: nat)
    requires Inv(s) && !s.broken && At(s, t).Holding? && |At(s, t).bufs| > 1
    ensures var l := At(s, t);
            Inv(s.(wire := s.wire + l.bufs[0],
                   threads := s.threads[t := Holding(l.frame, l.written + l.bufs[0], l.bufs[1..])]))
  {
    hide FrameBytes, EncodeAll, Assembled, SentOk, Fits, Sequenced, NothingAfterClose, CloseIn, Flatten;
    var l := At(s, t);
    var next := Holding(l.frame, l.written + l.bufs[0], l.bufs[1..]);
    var s' := s.(wire := s.wire + l.bufs[0], threads := s.threads[t := next]);
    assert LocalOk(s, t) && Behind(s, l.written);
    FlattenFirst(l.bufs);
    assert l.written + (l.bufs[0] + Flatten(l.bufs[1..])) == l.written + l.bufs[0] + Flatten(l.bufs[1..]);
    forall u
      ensures At(s', u) == if u == t then next else At(s, u)
      ensures LocalOk(s', u) && (Busy(At(s', u)) ==> u == t)
    {
      assert LocalOk(s, u) && (Busy(At(s, u)) ==> u == t);
    }
    assert EncodeAll(s.log, s.masked) + l.written + l.bufs[0] == EncodeAll(s.log, s.masked) + (l.written + l.bufs[0]);
    assert Behind(s', next.written);
    assert At(s', t).Holding?;
  }

  lemma LogGrows(s: System, t: nat, f: Sent)
    requires LogOk(s) && Suits(s, t, f) && Fits(Assembled(s.log), f.frame)
    requires !CloseIn(s.log) && s.closeSent == (f.frame.opcode == CLOSE_MESSAGE)
    ensures LogOk(s.(log := s.log + [f]))
    ensures EncodeAll(s.log + [f], s.masked) == EncodeAll(s.log, s.masked) + FrameBytes(f.frame, f.key)
    ensures t != DATA_WRITER ==> Assembled(s.log + [f]) == Assembled(s.log)
  {
    hide FrameBytes, Assembled, Sequenced, SentOk;
    AssembledSnoc(s.log, f);
    assert (s.log + [f])[..|s.log|] == s.log;
  }

  lemma LastBufferKeeps(s: System, t: nat)
    requires Inv(s) && !s.broken && At(s, t).Holding? && |At(s, t).bufs| == 1
    ensures var l := At(s, t);
            Inv(s.(wire := s.wire + l.bufs[0], log := s.log + [l.frame],
                   threads := s.threads[t := Releasing(l.frame, true)]))
  {
    hide FrameBytes, EncodeAll, Assembled, FrameOk, Fits, Sequenced, NothingAfterClose, CloseIn, Flatten;
    var l := At(s, t);
    var gone := Releasing(l.frame, true);
    var s' := s.(wire := s.wire + l.bufs[0], log := s.log + [l.frame], threads := s.threads[t := gone]);
    assert LocalOk(s, t) && Behind(s, l.written);
    HeldFrameFits(s, t);
    LogGrows(s, t, l.frame);
    if t == DATA_WRITER {
      FlushTracks(s, l.frame);
    }
    assert LogOk(s');
    forall u
      ensures At(s', u) == if u == t then gone else At(s, u)
      ensures LocalOk(s', u) && (Busy(At(s', u)) ==> u == t)
    {
      assert LocalOk(s, u) && (Busy(At(s, u)) ==> u == t);
    }
    FlattenFirst(l.bufs);
    assert l.bufs[1..] == [] && Flatten(l.bufs[1..]) == [] by { FlattenNone(); }
    assert l.written + l.bufs[0] == FrameBytes(l.frame.frame, l.frame.key);
    assert EncodeAll(s.log, s.masked) + l.written + l.bufs[0] == EncodeAll(s.log, s.masked) + (l.written + l.bufs[0]);
    assert Behind(s', []);
  }

  lemma FlattenNone()
    ensures Flatten<byte>([]) == []
  {
  }

  lemma WriteKeeps(s: System, t: nat, n: nat)
    requires Inv(s) && At(s, t).Holding? && |At(s, t).bufs| > 0 && n <= |At(s, t).bufs[0]|
    ensures Inv(AfterWrite(s, t, n))
  {
    hide Inv;
    var l := At(s, t);
    if s.broken || (n < |l.bufs[0]| && n == 0 && t != DATA_WRITER && |l.written| == 0) {
      GiveUpKeeps(s, t);
    } else if n < |l.bufs[0]| {
      CutKeeps(s, t, n);
    } else if |l.bufs| > 1 {
      NextBufferKeeps(s, t);
    } else {
      LastBufferKeeps(s, t);
    }
  }

  lemma InitialInv(masked: bool)
    ensures Inv(Initial(masked))
  {
    assert EncodeAll([], masked) + [] == [];
  }

  lemma {:induction false} EveryRunKeeps(masked: bool, steps: seq<Step>)
    requires Run(masked, steps).Some?
    ensures Inv(Run(masked, steps).value) && Run(masked, steps).value.masked == masked
  {
    hide Inv, Enabled;
    if |steps| == 0 {
      InitialInv(masked);
    } else {
      EveryRunKeeps(masked, steps[..|steps| - 1]);
      StepKeeps(Run(masked, steps[..|steps| - 1]).value, steps[|steps| - 1]);
    }
  }

  lemma StepKeeps(s: System, step: Step)
    requires Inv(s) && Enabled(s, step)
    ensures Inv(Apply(s, step)) && Apply(s, step).masked == s.masked
  {
    hide Inv;
    match step
    case Open(messageType) => TypeKeeps(s, messageType);
    case Reject => TypeKeeps(s, NO_FRAME);
    case Request(t, f, bufs) => RequestKeeps(s, t, f, bufs);
    case Acquire(t) => AcquireKeeps(s, t);
    case WriteBuffer(t, n) => WriteKeeps(s, t, n);
    case Release(t) => ReleaseKeeps(s, t);
    case Finish(t) => FinishKeeps(s, t);
  }

  // ----------------------------------------------------------------- theorems

  lemma TailOfWire(s: System) returns (p: seq<byte>)
    requires Inv(s)
    ensures PartialTail(s, p) && (CloseIn(s.log) ==> p == [])
  {
    hide FrameBytes, EncodeAll, Assembled, FrameOk, Fits, Sequenced, NothingAfterClose, CloseIn, Flatten;
    if s.broken {
      var f: Sent, k: nat :| CutFrame(s, f, k);
      p := FrameBytes(f.frame, f.key)[..k];
      assert CutFrom(p, s.log, s.masked, f, k);
    } else if exists t :: At(s, t).Holding? {
      var t :| At(s, t).Holding?;
      var l := At(s, t);
      assert LocalOk(s, t) && Behind(s, l.written);
      HeldFrameFits(s, t);
      FlattenFirst(l.bufs);
      p := l.written;
      assert FrameBytes(l.frame.frame, l.frame.key)[..|p|] == p;
      assert CutFrom(p, s.log, s.masked, l.frame, |p|);
    } else {
      assert Behind(s, []);
      p := [];
    }
  }

  /**
    On every interleaving the wire is a series of whole frames followed by at
    most part of one more, which would fit behind them; the messages among the
    frames are in sequence, and behind a close frame there is nothing at all,
    not even part of a frame.
   */
  lemma WireOrder(masked: bool, steps: seq<Step>)
    requires Run(masked, steps).Some?
    ensures var s := Run(masked, steps).value;
            && AllSentOk(s.log, masked) && Sequenced(s.log) && NothingAfterClose(s.log)
            && (exists p :: PartialTail(s, p))
            && (CloseIn(s.log) ==> s.wire == EncodeAll(s.log, masked))
  {
    EveryRunKeeps(masked, steps);
    hide Run, EncodeAll, SentOk, Sequenced, NothingAfterClose, CloseIn, LocalOk, WireOk, Exclusive;
    var s := Run(masked, steps).value;
    var p := TailOfWire(s);
    assert EncodeAll(s.log, masked) + [] == EncodeAll(s.log, masked);
  }

  /**
    On every interleaving, whenever the data writer is outside a flush and has
    seen no error, its frame type says whether a message is open on the wire;
    so a frame with the opcode that it takes from there is one the peer accepts.
   */
  lemma FrameTypeTracksWire(masked: bool, steps: seq<Step>)
    requires Run(masked, steps).Some? && Free(Run(masked, steps).value)
    ensures var s := Run(masked, steps).value;
            && (s.writeFrameType == CONTINUATION <==> Assembled(s.log).partial.Some?)
            && (forall f: Frame :: f.opcode == s.writeFrameType ==> Fits(Assembled(s.log), f))
  {
    EveryRunKeeps(masked, steps);
    hide Run, Assembled, LocalOk, LogOk, WireOk, Exclusive;
  }

  /** The wire is the complete frames and then `p`, which is nothing or the beginning of one fitting frame. */
  ghost predicate PartialTail(s: System, p: seq<byte>) {
    && AllSentOk(s.log, s.masked)
    && s.wire == EncodeAll(s.log, s.masked) + p
    && (p == [] || IsCut(p, s.log, s.masked))
  }

  /** The frames of the messages, without the control frames between them. */
  function DataOnly(sent: seq<Sent>): seq<Sent> {
    if |sent| == 0 then []
    else
      var (front, last) := (sent[..|sent| - 1], sent[|sent| - 1]);
      if IsControl(last.frame.opcode) then DataOnly(front) else DataOnly(front) + [last]
  }

  /** Control frames between fragments leave the reassembled messages unchanged. */
  lemma {:induction false} ControlFramesDoNotMatter(sent: seq<Sent>)
    ensures Assembled(DataOnly(sent)) == Assembled(sent)
    ensures Sequenced(sent) <==> Sequenced(DataOnly(sent))
  {
    if |sent| > 0 {
      var (front, last) := (sent[..|sent| - 1], sent[|sent| - 1]);
      ControlFramesDoNotMatter(front);
      if !IsControl(last.frame.opcode) {
        AssembledSnoc(DataOnly(front), last);
      }
    }
  }
}
