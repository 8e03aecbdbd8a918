/**
  The session handlers composed with a controller that works in lock step: it
  answers every packet before the next one is handled, announces how many
  objects it has and answers a fetch of index k with its k-th object ID.
  It sees nothing but the packets, and a fetch of index 0 under session ID 0 is
  the very packet that resets a session.
 */
module SessionFetch {
  import opened Bytes
  import opened Outcomes
  import opened Definitions
  import opened Packets
  import opened Session

  /** The controller's object list; an 8-bit field announces its length. */
  predicate Announceable(ids: seq<uint32>) {
    |ids| <= 255
  }

  /** The object at index `k`, or none beyond the list. */
  function Asked(ids: seq<uint32>, k: nat): uint32 {
    if k < |ids| then ids[k] else 0
  }

  /** The object in the answer to a packet of this content: none to a reset. */
  function Answered(ids: seq<uint32>, id: uint16, k: byte): uint32 {
    if Set(id, k) == RESET then 0 else Asked(ids, k)
  }

  /** The controller's answer to a packet, if it gives one, handled at time `now`. */
  function Reply(ids: seq<uint32>, o: Output, now: nat): Option<Input>
    requires Announceable(ids)
  {
    match o
    case HandshakeReq => Some(Stats(Some("HandshakeAck")))
    case HandshakeConnected => Some(Stats(Some("Connected")))
    case SessionRequest => Some(Managing(OBJECT_CMD, 0, 0, 0, now))
    case Set(id, k) => Some(Managing(OBJECT_CMD_WITH_ACK, |ids|, Answered(ids, id, k), id, now))
    case Ack => None
    case FetchDone => None
  }

  /** The handlers, and how many of their outputs the controller has dealt with. */
  datatype System = System(client: State, seen: nat)

  function SystemStep(all: seq<Definition>, ids: seq<uint32>, clock: nat -> nat, y: System): System
    requires Announceable(ids) && y.seen < |y.client.out|
  {
    match Reply(ids, y.client.out[y.seen], clock(y.seen))
    case None => System(y.client, y.seen + 1)
    case Some(i) => System(Step(all, y.client, i), y.seen + 1)
  }

  /** Some number of exchanges leads from one system state to the other. */
  ghost predicate Leads(all: seq<Definition>, ids: seq<uint32>, clock: nat -> nat, y: System, z: System, n: nat)
    requires Announceable(ids)
    decreases n
  {
    if n == 0 then y == z
    else y.seen < |y.client.out| && Leads(all, ids, clock, SystemStep(all, ids, clock, y), z, n - 1)
  }

  lemma {:induction false} LeadsOn(all: seq<Definition>, ids: seq<uint32>, clock: nat -> nat,
                                   x: System, y: System, z: System, m: nat, n: nat)
    requires Announceable(ids) && Leads(all, ids, clock, x, y, m) && Leads(all, ids, clock, y, z, n)
    ensures Leads(all, ids, clock, x, z, m + n)
    decreases m
  {
    hide SystemStep;
    if m > 0 {
      LeadsOn(all, ids, clock, SystemStep(all, ids, clock, x), y, z, m - 1, n);
    }
  }

  /** The packets that fetch the indices from `c` up to `n`, each after an ack. */
  function FetchTrace(id: uint16, c: nat, n: nat): seq<Output>
    requires n <= 255
    decreases n - c
  {
    if c >= n then [Ack, FetchDone] else [Ack, Set(id, c)] + FetchTrace(id, c + 1, n)
  }

  lemma {:induction false} KnownAllConcat(all: seq<Definition>, a: seq<uint32>, b: seq<uint32>)
    ensures KnownAll(all, a + b) == KnownAll(all, a) + KnownAll(all, b)
  {
    hide Known;
    if |b| == 0 {
      assert a + b == a;
    } else {
      assert (a + b)[..|a + b| - 1] == a + b[..|b| - 1];
      KnownAllConcat(all, a, b[..|b| - 1]);
    }
  }

  /** The controller's objects from index `c` on. */
  function From(ids: seq<uint32>, c: nat): seq<uint32> {
    if c <= |ids| then ids[c..] else []
  }

  lemma KnownAllOne(all: seq<Definition>, x: uint32)
    ensures KnownAll(all, []) == [] && KnownAll(all, [x]) == Known(all, x)
  {
    hide Known;
    assert [x][..0] == [];
  }

  lemma KnownAllFirst(all: seq<Definition>, ids: seq<uint32>, c: nat)
    ensures KnownAll(all, From(ids, c)) == Known(all, Asked(ids, c)) + KnownAll(all, From(ids, c + 1))
  {
    NothingKnown(all);
    hide Known, KnownAll;
    KnownAllOne(all, Asked(ids, c));
    if c < |ids| {
      assert From(ids, c) == [ids[c]] + From(ids, c + 1);
      KnownAllConcat(all, [ids[c]], From(ids, c + 1));
    } else {
      assert From(ids, c) == From(ids, c + 1) == [];
    }
  }

  lemma NothingKnown(all: seq<Definition>)
    ensures Known(all, 0) == []
  {
  }

  /** The first index whose object a fetch that starts at index `c` gets to see. */
  function First(id: uint16, c: byte): nat {
    if Set(id, c) == RESET then 1 else c
  }

  lemma KnownAllNext(all: seq<Definition>, ids: seq<uint32>, id: uint16, c: byte)
    requires c < 255
    ensures KnownAll(all, From(ids, First(id, c)))
         == Known(all, Answered(ids, id, c)) + KnownAll(all, From(ids, First(id, c + 1)))
  {
    NothingKnown(all);
    hide Known, KnownAll, From;
    if Set(id, c) != RESET {
      KnownAllFirst(all, ids, c);
    }
  }

  /** The session ID of a fetch that starts at index `c`. */
  function SessionOf(s: State, c: nat, now: nat): uint16 {
    if c == 0 then now % 0x1_0000 else s.sessionID
  }

  /** The controller is about to answer the last packet with an acknowledged update for object `x`. */
  ghost predicate AboutToAck(ids: seq<uint32>, clock: nat -> nat, y: System, x: uint32)
    requires Announceable(ids)
  {
    && y.seen + 1 == |y.client.out|
    && var r := Reply(ids, y.client.out[y.seen], clock(y.seen));
    && r.Some? && IsAckedUpdate(r.value)
    && r.value.numberOfObjects == |ids| && r.value.objectID == x && r.value.now == clock(y.seen)
  }

  /** How many objects the client will ask for; an announced zero leaves the number that it had. */
  function Target(ids: seq<uint32>, s: State): byte
    requires Announceable(ids)
  {
    if |ids| == 0 then s.numberOfObjects else |ids|
  }

  /** The client after an acknowledged update, when the fetch is to end at `n`. */
  function Acked(all: seq<Definition>, s: State, x: uint32, id: uint16, n: byte): State {
    var t := s.(numberOfObjects := n, active := s.active + Known(all, x));
    if s.currentObjectID >= n then t.(out := s.out + [Ack, FetchDone])
    else
      t.(sessionID := id, currentObjectID := s.currentObjectID + 1,
         out := s.out + [Ack, Set(id, s.currentObjectID)])
  }

  lemma AckedStep(all: seq<Definition>, s: State, i: Input, n: byte)
    requires IsAckedUpdate(i) && n == if i.numberOfObjects == 0 then s.numberOfObjects else i.numberOfObjects
    ensures Step(all, s, i) == Acked(all, s, i.objectID, SessionOf(s, s.currentObjectID, i.now), n)
  {
    hide Known;
    assert s.out + [Ack] + [FetchDone] == s.out + [Ack, FetchDone];
    assert forall o :: s.out + [Ack] + [o] == s.out + [Ack, o];
  }

  /** An answer to the pending packet, and the ack that the controller does not answer. */
  lemma AckedExchange(all: seq<Definition>, ids: seq<uint32>, clock: nat -> nat, y: System, x: uint32)
    requires Announceable(ids) && AboutToAck(ids, clock, y, x)
    ensures var s := y.client;
            var t := Acked(all, s, x, SessionOf(s, s.currentObjectID, clock(y.seen)), Target(ids, s));
            Leads(all, ids, clock, y, System(t, y.seen + 2), 2)
  {
    hide Known;
    var s := y.client;
    var i := Reply(ids, s.out[y.seen], clock(y.seen)).value;
    AckedStep(all, s, i, Target(ids, s));
    var t := Step(all, s, i);
    assert t.out[y.seen + 1] == Ack;
    hide Step, Acked;
    var z := SystemStep(all, ids, clock, y);
    assert z == System(t, y.seen + 1);
    assert SystemStep(all, ids, clock, z) == System(t, y.seen + 2);
    assert Leads(all, ids, clock, z, System(t, y.seen + 2), 1);
  }

  /** What the system comes to when the fetch of the indices from `c` up to `n` has finished. */
  function Finished(all: seq<Definition>, ids: seq<uint32>, n: byte, s: State, x: uint32, id: uint16, c: byte): State {
    State(s.connected, if c < n then id else s.sessionID, if c < n then n else c, n,
          s.active + Known(all, x) + KnownAll(all, From(ids, First(id, c))), s.out + FetchTrace(id, c, n))
  }

  function Left(c: nat, n: nat): nat {
    if c < n then n - c else 0
  }

  /**
    From index `c` on, the exchanges fetch every index up to the client's
    target in order and end with nothing left to answer; the measure is the
    number of indices left.
   */
  lemma {:induction false} FetchFrom(all: seq<Definition>, ids: seq<uint32>, clock: nat -> nat, y: System, x: uint32)
    requires Announceable(ids) && AboutToAck(ids, clock, y, x)
    ensures var (s, c, n) := (y.client, y.client.currentObjectID, Target(ids, y.client));
            var f := Finished(all, ids, n, s, x, SessionOf(s, c, clock(y.seen)), c);
            Leads(all, ids, clock, y, System(f, |f.out|), 2 * Left(c, n) + 3)
    decreases Left(y.client.currentObjectID, Target(ids, y.client))
  {
    hide Step, Known, Leads, Finished, AboutToAck;
    var (s, c, n) := (y.client, y.client.currentObjectID, Target(ids, y.client));
    var id := SessionOf(s, c, clock(y.seen));
    var f := Finished(all, ids, n, s, x, id, c);
    AckedExchange(all, ids, clock, y, x);
    var t := Acked(all, s, x, id, n);
    var z := System(t, y.seen + 2);
    PendingIsLast(ids, clock, y, x);
    if c >= n {
      FinishedLast(all, ids, s, x, id, n);
      LastOutput(all, ids, clock, z);
      LeadsOn(all, ids, clock, y, z, System(f, |f.out|), 2, 1);
    } else {
      NextAck(ids, clock, z, id, c);
      FetchFrom(all, ids, clock, z, Answered(ids, id, c));
      FinishedNext(all, ids, s, x, id, n);
      LeadsOn(all, ids, clock, y, z, System(f, |f.out|), 2, 2 * Left(c + 1, n) + 3);
    }
  }

  lemma PendingIsLast(ids: seq<uint32>, clock: nat -> nat, y: System, x: uint32)
    requires Announceable(ids) && AboutToAck(ids, clock, y, x)
    ensures y.seen + 1 == |y.client.out|
  {
  }

  lemma NextAck(ids: seq<uint32>, clock: nat -> nat, z: System, id: uint16, c: byte)
    requires Announceable(ids) && z.seen + 1 == |z.client.out| && z.client.out[z.seen] == Set(id, c)
    ensures AboutToAck(ids, clock, z, Answered(ids, id, c))
  {
  }

  lemma FinishedLast(all: seq<Definition>, ids: seq<uint32>, s: State, x: uint32, id: uint16, n: byte)
    requires Announceable(ids) && s.currentObjectID >= n == Target(ids, s)
    ensures Finished(all, ids, n, s, x, id, s.currentObjectID) == Acked(all, s, x, id, n)
  {
    hide Known;
    assert From(ids, First(id, s.currentObjectID)) == [];
    assert s.active + Known(all, x) + [] == s.active + Known(all, x);
  }

  lemma LastOutput(all: seq<Definition>, ids: seq<uint32>, clock: nat -> nat, z: System)
    requires Announceable(ids) && z.seen + 1 == |z.client.out| && z.client.out[z.seen] == FetchDone
    ensures Leads(all, ids, clock, z, System(z.client, |z.client.out|), 1)
  {
    assert SystemStep(all, ids, clock, z) == System(z.client, z.seen + 1);
    assert Leads(all, ids, clock, System(z.client, z.seen + 1), System(z.client, z.seen + 1), 0);
  }

  lemma FinishedNext(all: seq<Definition>, ids: seq<uint32>, s: State, x: uint32, id: uint16, n: byte)
    requires s.currentObjectID < n
    ensures var c := s.currentObjectID;
            Finished(all, ids, n, Acked(all, s, x, id, n), Answered(ids, id, c), id, c + 1)
            == Finished(all, ids, n, s, x, id, c)
  {
    hide Known, KnownAll, From, First, Answered;
    var (c, known) := (s.currentObjectID, s.active + Known(all, x));
    var trace := FetchTrace(id, c + 1, n);
    KnownAllNext(all, ids, id, c);
    assert s.out + [Ack, Set(id, c)] + trace == s.out + ([Ack, Set(id, c)] + trace);
    var (first, rest) := (Known(all, Answered(ids, id, c)), KnownAll(all, From(ids, First(id, c + 1))));
    assert known + first + rest == known + (first + rest);
  }

  // ------------------------------------------------------------ the whole fetch

  const PREAMBLE: seq<Output> := [HandshakeReq, HandshakeConnected, SessionRequest, RESET]

  /** Connecting takes three exchanges and leaves the reset packet to be answered. */
  lemma Connects(all: seq<Definition>, ids: seq<uint32>, clock: nat -> nat)
    requires Announceable(ids)
    ensures Leads(all, ids, clock, System(INITIAL, 0), System(CONNECTED, 3), 3)
  {
    hide Leads;
    var y1 := System(State(false, 0, 0, 0, [], [HandshakeReq, HandshakeConnected]), 1);
    var y2 := System(State(true, 0, 0, 0, [], [HandshakeReq, HandshakeConnected, SessionRequest]), 2);
    var y3 := System(CONNECTED, 3);
    assert SystemStep(all, ids, clock, System(INITIAL, 0)) == y1;
    assert SystemStep(all, ids, clock, y1) == y2;
    assert SystemStep(all, ids, clock, y2) == y3;
    OneStep(all, ids, clock, System(INITIAL, 0));
    OneStep(all, ids, clock, y1);
    OneStep(all, ids, clock, y2);
    LeadsOn(all, ids, clock, System(INITIAL, 0), y1, y2, 1, 1);
    LeadsOn(all, ids, clock, System(INITIAL, 0), y2, y3, 2, 1);
  }

  lemma OneStep(all: seq<Definition>, ids: seq<uint32>, clock: nat -> nat, y: System)
    requires Announceable(ids) && y.seen < |y.client.out|
    ensures Leads(all, ids, clock, y, SystemStep(all, ids, clock, y), 1)
  {
    hide SystemStep;
    assert Leads(all, ids, clock, SystemStep(all, ids, clock, y), SystemStep(all, ids, clock, y), 0);
  }

  lemma {:induction false} AcksInTrace(id: uint16, c: nat, n: nat)
    requires c <= n <= 255
    ensures Count(FetchTrace(id, c, n), Ack) == n - c + 1 && Count(FetchTrace(id, c, n), FetchDone) == 1
    decreases n - c
  {
    CountFew([Ack, FetchDone], Ack);
    CountFew([Ack, FetchDone], FetchDone);
    if c < n {
      hide Count;
      AcksInTrace(id, c + 1, n);
      CountFew([Ack, Set(id, c)], Ack);
      CountFew([Ack, Set(id, c)], FetchDone);
      CountConcat([Ack, Set(id, c)], FetchTrace(id, c + 1, n), Ack);
      CountConcat([Ack, Set(id, c)], FetchTrace(id, c + 1, n), FetchDone);
    }
  }

  const CONNECTED := State(true, 0, 0, 0, [], PREAMBLE)

  /** Where a fresh process and the controller end up. */
  function FirstSession(all: seq<Definition>, ids: seq<uint32>, clock: nat -> nat): State
    requires Announceable(ids)
  {
    Finished(all, ids, |ids|, CONNECTED, 0, clock(3) % 0x1_0000, 0)
  }

  /**
    A fresh process composed with the controller ends with nothing left to
    answer: it has handled one acknowledged update more than the controller has
    objects and asked for every index once and in order.  Its active definitions
    are the controller's known objects in index order, all of them exactly when
    the clock gives a session ID other than 0 or the first object is not known.
   */
  lemma FetchComplete(all: seq<Definition>, ids: seq<uint32>, clock: nat -> nat)
    requires Announceable(ids)
    ensures var (f, id) := (FirstSession(all, ids, clock), clock(3) % 0x1_0000);
            && Leads(all, ids, clock, System(INITIAL, 0), System(f, |f.out|), 2 * |ids| + 6)
            && f.active == KnownAll(all, From(ids, First(id, 0)))
            && AreActiveFor(all, f.active, if id == 0 then From(ids, 1) else ids)
            && (AreActiveFor(all, f.active, ids) <==> id != 0 || !IsLoaded(all, Asked(ids, 0)))
            && (f.active == KnownAll(all, ids) <==> id != 0 || Known(all, Asked(ids, 0)) == [])
            && f.out == PREAMBLE + FetchTrace(id, 0, |ids|)
            && Count(f.out, Ack) == |ids| + 1 && Count(f.out, FetchDone) == 1
  {
    hide Leads, Known, KnownAll, Count, FetchTrace;
    var y := System(CONNECTED, 3);
    var id := clock(3) % 0x1_0000;
    Connects(all, ids, clock);
    FetchFrom(all, ids, clock, y, 0);
    var f := FirstSession(all, ids, clock);
    LeadsOn(all, ids, clock, System(INITIAL, 0), y, System(f, |f.out|), 3, 2 * |ids| + 3);
    FinishedActive(all, ids, |ids|, CONNECTED, id, 0);
    FirstKnown(all, ids, id);
    FirstActive(all, ids, id);
    TraceCounts(id, |ids|);
  }

  lemma FirstActive(all: seq<Definition>, ids: seq<uint32>, id: uint16)
    ensures var active := KnownAll(all, From(ids, First(id, 0)));
            && AreActiveFor(all, active, if id == 0 then From(ids, 1) else ids)
            && (AreActiveFor(all, active, ids) <==> id != 0 || !IsLoaded(all, Asked(ids, 0)))
  {
    hide Known, KnownAll, AreActiveFor, IsLoaded;
    FirstKnown(all, ids, id);
    KnownIsFirst(all, Asked(ids, 0));
    assert From(ids, 0) == ids;
    ActiveIff(all, ids, First(id, 0));
  }

  lemma ActiveIff(all: seq<Definition>, ids: seq<uint32>, c: nat)
    ensures var active := KnownAll(all, From(ids, c));
            && AreActiveFor(all, active, From(ids, c))
            && (AreActiveFor(all, active, ids) <==> active == KnownAll(all, ids))
  {
    hide KnownAll, AreActiveFor, From;
    var active := KnownAll(all, From(ids, c));
    KnownAllActive(all, From(ids, c));
    KnownAllActive(all, ids);
    if AreActiveFor(all, active, ids) {
      ActiveIsFixed(all, active, KnownAll(all, ids), ids);
    }
  }

  lemma NoneLoaded(all: seq<Definition>, ids: seq<uint32>)
    ensures KnownAll(all, ids) == [] <==> LoadedIDsOf(all, ids) == []
  {
    hide KnownAll, LoadedIDsOf;
    KnownAllActive(all, ids);
    assert |IDsOf(KnownAll(all, ids))| == |KnownAll(all, ids)|;
  }

  lemma FirstKnown(all: seq<Definition>, ids: seq<uint32>, id: uint16)
    ensures KnownAll(all, From(ids, First(id, 0))) == KnownAll(all, ids) <==> id != 0 || Known(all, Asked(ids, 0)) == []
  {
    hide Known, KnownAll;
    assert From(ids, 0) == ids;
    KnownAllFirst(all, ids, 0);
    NothingBefore(Known(all, Asked(ids, 0)), KnownAll(all, From(ids, 1)));
  }

  /**
    When the clock gives the session ID 0, the first fetch is the same packet as
    the reset before it, the controller answers it as a reset, and a known first
    object is lost.
   */
  lemma ZeroSessionLosesFirst(all: seq<Definition>, ids: seq<uint32>, clock: nat -> nat)
    requires Announceable(ids) && |ids| > 0 && Known(all, ids[0]) != [] && clock(3) % 0x1_0000 == 0
    ensures var f := FirstSession(all, ids, clock);
            && Leads(all, ids, clock, System(INITIAL, 0), System(f, |f.out|), 2 * |ids| + 6)
            && |f.out| > 5 && f.out[3] == f.out[5] && f.out[4] == Ack
            && f.active == KnownAll(all, ids[1..]) && f.active != KnownAll(all, ids)
  {
    FetchComplete(all, ids, clock);
    hide Leads, Known, KnownAll, Count;
    assert FetchTrace(0, 0, |ids|)[..2] == [Ack, RESET];
  }

  lemma TraceCounts(id: uint16, n: nat)
    requires n <= 255
    ensures Count(PREAMBLE + FetchTrace(id, 0, n), Ack) == n + 1
    ensures Count(PREAMBLE + FetchTrace(id, 0, n), FetchDone) == 1
  {
    hide Count, FetchTrace;
    PreambleCounts();
    AcksInTrace(id, 0, n);
    CountConcat(PREAMBLE, FetchTrace(id, 0, n), Ack);
    CountConcat(PREAMBLE, FetchTrace(id, 0, n), FetchDone);
  }

  lemma PreambleCounts()
    ensures Count(PREAMBLE, Ack) == 0 && Count(PREAMBLE, FetchDone) == 0
  {
    hide Count;
    assert PREAMBLE == [HandshakeReq, HandshakeConnected] + [SessionRequest, RESET];
    CountConcat([HandshakeReq, HandshakeConnected], [SessionRequest, RESET], Ack);
    CountConcat([HandshakeReq, HandshakeConnected], [SessionRequest, RESET], FetchDone);
    CountFew([HandshakeReq, HandshakeConnected], Ack);
    CountFew([SessionRequest, RESET], Ack);
    CountFew([HandshakeReq, HandshakeConnected], FetchDone);
    CountFew([SessionRequest, RESET], FetchDone);
  }

  // ------------------------------------------------------------ a second session

  /** The controller's objects below index `c`. */
  function Below(ids: seq<uint32>, c: nat): seq<uint32> {
    if c <= |ids| then ids[..c] else ids
  }

  /**
    The index counter survives a reset, so a session that restarts with the
    counter at `c` fetches only the objects from index `c` on, and none if the
    controller has come back with fewer.  Under the session ID 0 a fetch from
    index 0 on does not see the first object either.  It ends with all of the
    controller's known objects exactly when none below the first index seen is
    known.  A controller without objects is asked for as many as before.
   */
  lemma RestartLosesFetched(all: seq<Definition>, ids: seq<uint32>, clock: nat -> nat, y: System)
    requires Announceable(ids)
    requires y.seen + 1 == |y.client.out| && y.client.out[y.seen] == RESET && y.client.active == []
    ensures var (s, c, n) := (y.client, y.client.currentObjectID, Target(ids, y.client));
            var id := SessionOf(s, c, clock(y.seen));
            var f := Finished(all, ids, n, s, 0, id, c);
            && Leads(all, ids, clock, y, System(f, |f.out|), 2 * Left(c, n) + 3)
            && f.active == KnownAll(all, From(ids, First(id, c)))
            && AreActiveFor(all, f.active, From(ids, if id == 0 && c == 0 then 1 else c))
            && (AreActiveFor(all, f.active, ids) <==> LoadedIDsOf(all, Below(ids, First(id, c))) == [])
            && (f.active == KnownAll(all, ids) <==> KnownAll(all, Below(ids, First(id, c))) == [])
  {
    var (s, c, n) := (y.client, y.client.currentObjectID, Target(ids, y.client));
    assert AboutToAck(ids, clock, y, 0);
    var id := SessionOf(s, c, clock(y.seen));
    hide Leads, KnownAll, LoadedIDsOf, Finished, From, Below, AboutToAck, AreActiveFor;
    FetchFrom(all, ids, clock, y, 0);
    ActiveIff(all, ids, First(id, c));
    NoneLoaded(all, Below(ids, First(id, c)));
    FinishedActive(all, ids, n, s, id, c);
    CompleteIff(all, ids, First(id, c));
  }

  lemma FinishedActive(all: seq<Definition>, ids: seq<uint32>, n: byte, s: State, id: uint16, c: byte)
    requires s.active == []
    ensures Finished(all, ids, n, s, 0, id, c).active == KnownAll(all, From(ids, First(id, c)))
  {
    NothingKnown(all);
    hide Known, KnownAll, From, First, FetchTrace;
    var rest := KnownAll(all, From(ids, First(id, c)));
    assert [] + [] + rest == rest;
  }

  lemma CompleteIff(all: seq<Definition>, ids: seq<uint32>, c: nat)
    ensures KnownAll(all, From(ids, c)) == KnownAll(all, ids) <==> KnownAll(all, Below(ids, c)) == []
  {
    hide KnownAll;
    assert Below(ids, c) + From(ids, c) == ids;
    hide Below, From;
    KnownAllConcat(all, Below(ids, c), From(ids, c));
    NothingBefore(KnownAll(all, Below(ids, c)), KnownAll(all, From(ids, c)));
  }

  lemma NothingBefore(below: seq<Definition>, from: seq<Definition>)
    ensures from == below + from <==> below == []
  {
    if from == below + from {
      assert |below| == 0;
    }
  }

  /** When nothing is left to answer and the controller disconnects, three exchanges lead to the next reset. */
  lemma Reconnects(all: seq<Definition>, ids: seq<uint32>, clock: nat -> nat, s: State)
    requires Announceable(ids)
    ensures var y := System(Step(all, s, Stats(Some("Disconnected"))), |s.out|);
            var z := System(s.(connected := true, active := [], out := s.out + PREAMBLE), |s.out| + 3);
            Leads(all, ids, clock, y, z, 3)
  {
    hide Leads;
    var y := System(Step(all, s, Stats(Some("Disconnected"))), |s.out|);
    assert y.client == s.(connected := false, out := s.out + [HandshakeReq]);
    var y1 := System(y.client.(out := s.out + PREAMBLE[..2]), |s.out| + 1);
    var y2 := System(s.(connected := true, out := s.out + PREAMBLE[..3]), |s.out| + 2);
    var y3 := System(s.(connected := true, active := [], out := s.out + PREAMBLE), |s.out| + 3);
    ConnectStep(all, ids, clock, y, y1);
    ConnectStep(all, ids, clock, y1, y2);
    ConnectStep(all, ids, clock, y2, y3);
    LeadsOn(all, ids, clock, y, y1, y2, 1, 1);
    LeadsOn(all, ids, clock, y, y2, y3, 2, 1);
  }

  lemma ConnectStep(all: seq<Definition>, ids: seq<uint32>, clock: nat -> nat, y: System, z: System)
    requires Announceable(ids) && y.seen + 1 == |y.client.out| && z.seen == y.seen + 1
    requires var (s, t, o) := (y.client, z.client, y.client.out[y.seen]);
             || (o == HandshakeReq && t == s.(out := s.out + [HandshakeConnected]))
             || (o == HandshakeConnected && !s.connected && t == s.(connected := true, out := s.out + [SessionRequest]))
             || (o == SessionRequest && t == s.(active := [], out := s.out + [RESET]))
    ensures Leads(all, ids, clock, y, z, 1)
  {
    hide Leads;
    assert SystemStep(all, ids, clock, y) == z;
    OneStep(all, ids, clock, y);
  }

  /** Where the process ends up when a first session is followed by one with a restarted controller. */
  function SecondSession(all: seq<Definition>, ids: seq<uint32>, again: seq<uint32>, clock: nat -> nat): State
    requires Announceable(ids) && Announceable(again)
  {
    var f := FirstSession(all, ids, clock);
    var s := f.(connected := true, active := [], out := f.out + PREAMBLE);
    Finished(all, again, Target(again, s), s, 0, SessionOf(s, |ids|, clock(|f.out| + 3)), |ids|)
  }

  /**
    A controller that restarts after a complete first fetch, with any object
    list, is asked only for the indices beyond the first list.  If it has the
    same objects again, the process ends with no active definition at all.
    What the first session came to is the subject of `FetchComplete`.
   */
  lemma RestartForgets(all: seq<Definition>, ids: seq<uint32>, again: seq<uint32>, clock: nat -> nat)
    requires Announceable(ids) && Announceable(again)
    ensures var (f, g) := (FirstSession(all, ids, clock), SecondSession(all, ids, again, clock));
            && Leads(all, ids, clock, System(INITIAL, 0), System(f, |f.out|), 2 * |ids| + 6)
            && (exists n :: Leads(all, again, clock, System(Step(all, f, Stats(Some("Disconnected"))), |f.out|),
                                  System(g, |g.out|), n))
            && (f.active == KnownAll(all, ids) <==> clock(3) % 0x1_0000 != 0 || Known(all, Asked(ids, 0)) == [])
            && g.active == KnownAll(all, From(again, First(SessionOf(f, |ids|, clock(|f.out| + 3)), |ids|)))
            && (again == ids ==> g.active == [])
  {
    hide Leads, Known, FetchTrace, Count, KnownAll, AreActiveFor, LoadedIDsOf, IsLoaded, Below;
    var f := FirstSession(all, ids, clock);
    FetchComplete(all, ids, clock);
    Reconnects(all, again, clock, f);
    var y := System(Step(all, f, Stats(Some("Disconnected"))), |f.out|);
    var z := System(f.(connected := true, active := [], out := f.out + PREAMBLE), |f.out| + 3);
    hide Step;
    RestartLosesFetched(all, again, clock, z);
    var g := SecondSession(all, ids, again, clock);
    var m := 2 * Left(|ids|, Target(again, z.client)) + 3;
    LeadsOn(all, again, clock, y, z, System(g, |g.out|), 3, m);
    if again == ids {
      NoneKnown(all, ids, SessionOf(f, |ids|, clock(|f.out| + 3)));
    }
  }

  lemma NoneKnown(all: seq<Definition>, ids: seq<uint32>, id: uint16)
    requires Announceable(ids)
    ensures KnownAll(all, From(ids, First(id, |ids|))) == []
  {
  }
}
