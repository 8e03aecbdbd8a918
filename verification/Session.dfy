/**
  The session with the flight controller (`initAuthHandlers` in main.go): two
  handlers share the connection state, answer telemetry handshakes, and fetch
  the list of objects that the controller knows, one index at a time.
 */
module Session {
  import opened Bytes
  import opened Outcomes
  import opened Definitions
  import opened Registry
  import opened Packets

  type uint16 = x: int | 0 <= x < 0x1_0000

  /**
    A packet that passes the handlers' filter: FlightTelemetryStats with its
    status, if it carries one; SessionManaging with the fields the handlers
    use, and the clock at the time of handling; or GCSTelemetryStats.
   */
  datatype Input =
    | Stats(status: Option<string>)
    | Managing(cmd: byte, numberOfObjects: byte, objectID: uint32, sessionID: uint16, now: nat)
    | GcsStats

  /**
    What the handlers send to the controller, and the end of a fetch.  The
    packet that resets a session and the one that fetches an index come from
    the same constructor; `Set` holds the two fields in which they can differ.
   */
  datatype Output =
    | HandshakeReq
    | HandshakeConnected
    | SessionRequest
    | Ack
    | Set(sessionID: uint16, index: byte)
    | FetchDone

  datatype State = State(
    connected: bool,
    sessionID: uint16,
    currentObjectID: byte,
    numberOfObjects: byte,
    active: seq<Definition>,
    out: seq<Output>)

  const RESET := Set(0, 0)

  const INITIAL := State(false, 0, 0, 0, [], [HandshakeReq])

  function Send(s: State, o: Output): State {
    s.(out := s.out + [o])
  }

  // ------------------------------------------------------------- the handlers

  function AfterDisconnected(s: State, i: Input): State {
    if i.Stats? && i.status == Some("Disconnected") then Send(s.(connected := false), HandshakeReq)
    else if i.Stats? && i.status == Some("HandshakeAck") then Send(s, HandshakeConnected)
    else s
  }

  /** The definitions that an object ID adds: one if the ID is set and known. */
  function Known(all: seq<Definition>, id: uint32): seq<Definition> {
    if id != 0 && Lookup(all, id).Ok? then [Lookup(all, id).value] else []
  }

  function AfterAcked(all: seq<Definition>, s: State, i: Input): State
    requires i.Managing?
  {
    var t := Send(s, Ack).(active := s.active + Known(all, i.objectID));
    if t.currentObjectID >= t.numberOfObjects then Send(t, FetchDone)
    else
      var id := if t.currentObjectID == 0 then i.now % 0x1_0000 else t.sessionID;
      Send(t.(sessionID := id, currentObjectID := (t.currentObjectID + 1) % 256), Set(id, t.currentObjectID))
  }

  function AfterUnacked(s: State, i: Input): State
    requires i.Managing?
  {
    if s.sessionID != 0 && s.sessionID == i.sessionID then s
    else Send(s, RESET).(active := [])
  }

  function AfterSession(all: seq<Definition>, s: State, i: Input): State {
    match i
    case Stats(status) =>
      if !s.connected && status == Some("Connected") then Send(s.(connected := true), SessionRequest) else s
    case Managing(cmd, number, _, _, _) =>
      if !CarriesData(cmd) then s
      else
        var t := if number != 0 then s.(numberOfObjects := number) else s;
        if cmd == OBJECT_CMD_WITH_ACK then AfterAcked(all, t, i) else AfterUnacked(t, i)
    case GcsStats => s
  }

  /** Both handlers, in the order in which they are attached. */
  function Step(all: seq<Definition>, s: State, i: Input): State {
    AfterSession(all, AfterDisconnected(s, i), i)
  }

  function Run(all: seq<Definition>, inputs: seq<Input>): State {
    if |inputs| == 0 then INITIAL
    else Step(all, Run(all, inputs[..|inputs| - 1]), inputs[|inputs| - 1])
  }

  class AuthHandlers {
    const all: seq<Definition>
    var connected: bool
    var sessionID: uint16
    var currentObjectID: byte
    var numberOfObjects: byte
    var activeDefinitions: seq<Definition>
    var fcInChan: seq<Output>

    function View(): State
      reads this
    {
      State(connected, sessionID, currentObjectID, numberOfObjects, activeDefinitions, fcInChan)
    }

    constructor (all: seq<Definition>)
      ensures this.all == all && View() == INITIAL
    {
      this.all := all;
      fcInChan := [HandshakeReq];
      connected := false;
      sessionID := 0;
      currentObjectID := 0;
      numberOfObjects := 0;
      activeDefinitions := [];
    }

    method DisconnectedHandler(p: Input)
      modifies this
      ensures View() == AfterDisconnected(old(View()), p)
    {
      if p.Stats? {
        if p.status == Some("Disconnected") {
          connected := false;
          fcInChan := fcInChan + [HandshakeReq];
        } else if p.status == Some("HandshakeAck") {
          fcInChan := fcInChan + [HandshakeConnected];
        }
      }
    }

    method SessionHandler(p: Input)
      modifies this
      ensures View() == AfterSession(all, old(View()), p)
    {
      hide Lookup;
      if p.Stats? {
        if !connected && p.status == Some("Connected") {
          connected := true;
          fcInChan := fcInChan + [SessionRequest];
        }
      } else if p.Managing? {
        if p.cmd == OBJECT_CMD || p.cmd == OBJECT_CMD_WITH_ACK {
          if p.numberOfObjects != 0 {
            numberOfObjects := p.numberOfObjects;
          }
          if p.cmd == OBJECT_CMD_WITH_ACK {
            fcInChan := fcInChan + [Ack];
            if p.objectID != 0 {
              var found := GetDefinitionForObjectID(all, p.objectID);
              if found.Ok? {
                activeDefinitions := activeDefinitions + [found.value];
              }
            }
            if currentObjectID >= numberOfObjects {
              fcInChan := fcInChan + [FetchDone];
              return;
            }
            if currentObjectID == 0 {
              sessionID := p.now % 0x1_0000;
            }
            fcInChan := fcInChan + [Set(sessionID, currentObjectID)];
            currentObjectID := (currentObjectID + 1) % 256;
          } else {
            if sessionID != 0 && sessionID == p.sessionID {
              return;
            }
            fcInChan := fcInChan + [RESET];
            activeDefinitions := [];
          }
        }
      }
    }

    method Handle(p: Input)
      modifies this
      ensures View() == Step(all, old(View()), p)
    {
      DisconnectedHandler(p);
      SessionHandler(p);
    }
  }

  // ------------------------------------------------------ safety over every run

  predicate EndsWithAck(out: seq<Output>) {
    |out| > 0 && out[|out| - 1] == Ack
  }

  /** The fetch packets among the outputs: they are sent right behind an ack, unlike resets. */
  function Fetches(out: seq<Output>): seq<Output> {
    if |out| == 0 then []
    else
      var (front, last) := (out[..|out| - 1], out[|out| - 1]);
      if last.Set? && EndsWithAck(front) then Fetches(front) + [last] else Fetches(front)
  }

  /** Every packet of that kind that is not sent behind an ack is a reset. */
  predicate OthersReset(out: seq<Output>) {
    |out| > 0 ==>
      var (front, last) := (out[..|out| - 1], out[|out| - 1]);
      OthersReset(front) && (last.Set? && !EndsWithAck(front) ==> last == RESET)
  }

  function Count(out: seq<Output>, o: Output): nat {
    if |out| == 0 then 0 else Count(out[..|out| - 1], o) + if out[|out| - 1] == o then 1 else 0
  }

  function CountInputs(inputs: seq<Input>, p: Input -> bool): nat {
    if |inputs| == 0 then 0 else CountInputs(inputs[..|inputs| - 1], p) + if p(inputs[|inputs| - 1]) then 1 else 0
  }

  predicate IsAckedUpdate(i: Input) {
    i.Managing? && i.cmd == OBJECT_CMD_WITH_ACK
  }

  predicate IsStatus(i: Input, status: string) {
    i.Stats? && i.status == Some(status)
  }

  /** The fetch packets ask for the indices 0, 1, 2, ... under the session's one ID. */
  predicate FetchesInOrder(s: State) {
    var f := Fetches(s.out);
    && |f| == s.currentObjectID
    && (forall k :: 0 <= k < |f| ==> f[k] == Set(s.sessionID, k))
    && OthersReset(s.out)
  }

  lemma FetchesSnoc(out: seq<Output>, o: Output)
    ensures Fetches(out + [o]) == if o.Set? && EndsWithAck(out) then Fetches(out) + [o] else Fetches(out)
    ensures OthersReset(out + [o]) <==> OthersReset(out) && (o.Set? && !EndsWithAck(out) ==> o == RESET)
    ensures EndsWithAck(out + [o]) <==> o == Ack
    ensures forall x :: Count(out + [o], x) == Count(out, x) + if o == x then 1 else 0
  {
    assert (out + [o])[..|out|] == out;
  }

  lemma SendKeepsFetches(s: State, o: Output)
    requires o.Set? ==> o == RESET && !EndsWithAck(s.out)
    ensures EndsWithAck(Send(s, o).out) <==> o == Ack
    ensures FetchesInOrder(Send(s, o)) <==> FetchesInOrder(s)
  {
    hide Fetches, Count, OthersReset, EndsWithAck;
    FetchesSnoc(s.out, o);
  }

  lemma AckedFetches(all: seq<Definition>, s: State, i: Input)
    requires i.Managing? && FetchesInOrder(s)
    ensures var t := AfterAcked(all, s, i);
            && FetchesInOrder(t) && !EndsWithAck(t.out)
            && s.currentObjectID <= t.currentObjectID <= s.currentObjectID + 1
            && (s.currentObjectID > 0 ==> t.sessionID == s.sessionID)
  {
    hide Known, Fetches, Count, OthersReset, EndsWithAck;
    var t := Send(s, Ack).(active := s.active + Known(all, i.objectID));
    SendKeepsFetches(s, Ack);
    SendKeepsFetches(t, FetchDone);
    if t.currentObjectID < t.numberOfObjects {
      var id := if t.currentObjectID == 0 then i.now % 0x1_0000 else t.sessionID;
      FetchesSnoc(t.out, Set(id, t.currentObjectID));
    }
  }

  lemma StepFetches(all: seq<Definition>, s: State, i: Input)
    requires FetchesInOrder(s) && !EndsWithAck(s.out)
    ensures FetchesInOrder(Step(all, s, i)) && !EndsWithAck(Step(all, s, i).out)
    ensures s.currentObjectID <= Step(all, s, i).currentObjectID <= s.currentObjectID + 1
    ensures s.currentObjectID > 0 ==> Step(all, s, i).sessionID == s.sessionID
  {
    hide Fetches, AfterAcked, OthersReset, EndsWithAck;
    SendKeepsFetches(s.(connected := false), HandshakeReq);
    SendKeepsFetches(s, HandshakeConnected);
    var t := AfterDisconnected(s, i);
    assert FetchesInOrder(t);
    SendKeepsFetches(t.(connected := true), SessionRequest);
    if i.Managing? {
      var u := if i.numberOfObjects != 0 then t.(numberOfObjects := i.numberOfObjects) else t;
      SendKeepsFetches(u, RESET);
      AckedFetches(all, u, i);
    }
  }

  /**
    On every run the packets sent right behind an ack carry the indices 0, 1,
    2, ... without gap or repetition and all the same session ID, and every
    other one of that kind is a reset; the index counter is the number of
    fetches, so it never wraps.
   */
  lemma {:induction false} FetchSafety(all: seq<Definition>, inputs: seq<Input>)
    ensures FetchesInOrder(Run(all, inputs)) && !EndsWithAck(Run(all, inputs).out)
  {
    hide Step;
    if |inputs| == 0 {
      assert Fetches(INITIAL.out[..0]) == [];
      assert FetchesInOrder(INITIAL);
    } else {
      FetchSafety(all, inputs[..|inputs| - 1]);
      StepFetches(all, Run(all, inputs[..|inputs| - 1]), inputs[|inputs| - 1]);
    }
  }

  // --------------------------------------------------------------- accounting

  /** The outputs of one step, one after the other. */
  function NewOutputs(s: State, t: State): seq<Output>
    requires s.out <= t.out
  {
    t.out[|s.out|..]
  }

  lemma StepOutputs(all: seq<Definition>, s: State, i: Input)
    ensures var t := Step(all, s, i);
            && s.out <= t.out
            && NewOutputs(s, t)
               == if IsStatus(i, "Disconnected") then [HandshakeReq]
                  else if IsStatus(i, "HandshakeAck") then [HandshakeConnected]
                  else if IsStatus(i, "Connected") then (if s.connected then [] else [SessionRequest])
                  else if IsAckedUpdate(i) then
                    [Ack, if t.currentObjectID == s.currentObjectID then FetchDone
                          else Set(t.sessionID, s.currentObjectID)]
                  else if Resets(s, i) then [RESET]
                  else []
    ensures Step(all, s, i).connected
         == if IsStatus(i, "Disconnected") then false else if IsStatus(i, "Connected") then true else s.connected
  {
    hide Known;
  }

  /**
    What a SessionManaging packet is answered with, by its command number: 2 is
    acknowledged and followed by one packet more, 0 of another session is
    answered with a packet of session ID 0 and index 0, and any other command is
    ignored.
   */
  lemma AnsweredByCommand(all: seq<Definition>, s: State, i: Input)
    requires i.Managing?
    ensures var t := Step(all, s, i);
            && s.out <= t.out
            && var added := NewOutputs(s, t);
            && (i.cmd == 2 ==> |added| == 2 && added[0] == Ack && (added[1] == FetchDone || added[1].Set?))
            && (i.cmd == 0 ==>
                  added == (if s.sessionID != 0 && s.sessionID == i.sessionID then [] else [Set(0, 0)]))
            && (i.cmd != 0 && i.cmd != 2 ==> t == s)
  {
    hide Known;
    StepOutputs(all, s, i);
  }

  lemma CountConcat(a: seq<Output>, b: seq<Output>, o: Output)
    ensures Count(a + b, o) == Count(a, o) + Count(b, o)
    decreases |b|
  {
    if |b| == 0 {
      assert a + b == a;
    } else {
      assert (a + b)[..|a + b| - 1] == a + b[..|b| - 1];
      CountConcat(a, b[..|b| - 1], o);
    }
  }

  lemma CountStep(all: seq<Definition>, s: State, i: Input, o: Output)
    ensures s.out <= Step(all, s, i).out
    ensures Count(Step(all, s, i).out, o) == Count(s.out, o) + Count(NewOutputs(s, Step(all, s, i)), o)
  {
    hide Step, Count;
    StepOutputs(all, s, i);
    var t := Step(all, s, i);
    assert t.out == s.out + NewOutputs(s, t);
    CountConcat(s.out, NewOutputs(s, t), o);
  }

  lemma CountFew(a: seq<Output>, o: Output)
    requires |a| <= 2
    ensures Count(a, o) == (if |a| >= 1 && a[0] == o then 1 else 0) + if |a| == 2 && a[1] == o then 1 else 0
  {
    assert |a| == 2 ==> a[..1][..0] == [];
  }

  /** On every run, every acknowledged update received is answered by exactly one ack. */
  lemma {:induction false} AckAccounting(all: seq<Definition>, inputs: seq<Input>)
    ensures Count(Run(all, inputs).out, Ack) == CountInputs(inputs, IsAckedUpdate)
  {
    if |inputs| == 0 {
      CountFew([HandshakeReq], Ack);
    } else {
      hide Step, Count;
      var (front, i) := (inputs[..|inputs| - 1], inputs[|inputs| - 1]);
      var s := Run(all, front);
      AckAccounting(all, front);
      StepOutputs(all, s, i);
      CountStep(all, s, i, Ack);
      CountFew(NewOutputs(s, Step(all, s, i)), Ack);
    }
  }

  /** On every run, every ack is followed by the next fetch packet or the end of the fetch. */
  lemma {:induction false} FetchAccounting(all: seq<Definition>, inputs: seq<Input>)
    ensures var s := Run(all, inputs);
            Count(s.out, Ack) == |Fetches(s.out)| + Count(s.out, FetchDone)
  {
    FetchSafety(all, inputs);
    if |inputs| == 0 {
      CountFew([HandshakeReq], Ack);
      CountFew([HandshakeReq], FetchDone);
    } else {
      hide Step, Count;
      var (front, i) := (inputs[..|inputs| - 1], inputs[|inputs| - 1]);
      var s := Run(all, front);
      FetchSafety(all, front);
      FetchAccounting(all, front);
      StepFetches(all, s, i);
      StepOutputs(all, s, i);
      CountStep(all, s, i, Ack);
      CountStep(all, s, i, FetchDone);
      CountFew(NewOutputs(s, Step(all, s, i)), Ack);
      CountFew(NewOutputs(s, Step(all, s, i)), FetchDone);
      OnlyAckedFetches(all, s, i);
    }
  }

  lemma OnlyAckedFetches(all: seq<Definition>, s: State, i: Input)
    ensures !IsAckedUpdate(i) ==> Step(all, s, i).currentObjectID == s.currentObjectID
  {
  }

  /** A Connected status was handled since the last Disconnected one. */
  predicate ConnectedSince(inputs: seq<Input>) {
    |inputs| > 0 &&
      var last := inputs[|inputs| - 1];
      !IsStatus(last, "Disconnected") && (IsStatus(last, "Connected") || ConnectedSince(inputs[..|inputs| - 1]))
  }

  predicate IsDisconnected(i: Input) {
    IsStatus(i, "Disconnected")
  }

  predicate IsHandshakeAck(i: Input) {
    IsStatus(i, "HandshakeAck")
  }

  /**
    On every run: the connection flag is up exactly when a Connected status was
    handled since the last Disconnected one; every Disconnected status and the
    start send one handshake request, every handshake acknowledgement one
    confirmation; and session requests never exceed one plus the Disconnected
    statuses received.
   */
  lemma {:induction false} HandshakeAccounting(all: seq<Definition>, inputs: seq<Input>)
    ensures Run(all, inputs).connected == ConnectedSince(inputs)
    ensures Count(Run(all, inputs).out, HandshakeReq) == 1 + CountInputs(inputs, IsDisconnected)
    ensures Count(Run(all, inputs).out, HandshakeConnected) == CountInputs(inputs, IsHandshakeAck)
    ensures Count(Run(all, inputs).out, SessionRequest)
         <= CountInputs(inputs, IsDisconnected) + if ConnectedSince(inputs) then 1 else 0
  {
    if |inputs| == 0 {
      CountFew([HandshakeReq], HandshakeReq);
      CountFew([HandshakeReq], HandshakeConnected);
      CountFew([HandshakeReq], SessionRequest);
    } else {
      hide Step, Count;
      var (front, i) := (inputs[..|inputs| - 1], inputs[|inputs| - 1]);
      var s := Run(all, front);
      HandshakeAccounting(all, front);
      StepOutputs(all, s, i);
      HandshakeStep(all, s, i);
    }
  }

  lemma HandshakeStep(all: seq<Definition>, s: State, i: Input)
    ensures var t := Step(all, s, i);
            && Count(t.out, HandshakeReq) == Count(s.out, HandshakeReq) + (if IsStatus(i, "Disconnected") then 1 else 0)
            && Count(t.out, HandshakeConnected)
               == Count(s.out, HandshakeConnected) + (if IsStatus(i, "HandshakeAck") then 1 else 0)
            && Count(t.out, SessionRequest)
               == Count(s.out, SessionRequest) + if IsStatus(i, "Connected") && !s.connected then 1 else 0
  {
    hide Step, Count;
    StepOutputs(all, s, i);
    CountStep(all, s, i, HandshakeReq);
    CountStep(all, s, i, HandshakeConnected);
    CountStep(all, s, i, SessionRequest);
    var added := NewOutputs(s, Step(all, s, i));
    CountFew(added, HandshakeReq);
    CountFew(added, HandshakeConnected);
    CountFew(added, SessionRequest);
  }

  // ------------------------------------------------------- active definitions

  function KnownAll(all: seq<Definition>, ids: seq<uint32>): seq<Definition> {
    if |ids| == 0 then [] else KnownAll(all, ids[..|ids| - 1]) + Known(all, ids[|ids| - 1])
  }

  /** An update that is not acknowledged and names another session than the current one. */
  predicate Resets(s: State, i: Input) {
    i.Managing? && i.cmd == OBJECT_CMD && !(s.sessionID != 0 && s.sessionID == i.sessionID)
  }

  /** The object IDs in the acknowledged updates since the last reset. */
  function IdsSinceReset(all: seq<Definition>, inputs: seq<Input>): seq<uint32> {
    if |inputs| == 0 then []
    else
      var (front, i) := (inputs[..|inputs| - 1], inputs[|inputs| - 1]);
      if Resets(Run(all, front), i) then []
      else if IsAckedUpdate(i) then IdsSinceReset(all, front) + [i.objectID]
      else IdsSinceReset(all, front)
  }

  lemma KnownAllSnoc(all: seq<Definition>, ids: seq<uint32>, id: uint32)
    ensures KnownAll(all, ids + [id]) == KnownAll(all, ids) + Known(all, id)
  {
    hide Known;
    assert (ids + [id])[..|ids|] == ids;
  }

  lemma StepActive(all: seq<Definition>, s: State, i: Input)
    ensures Step(all, s, i).active
         == if Resets(s, i) then [] else if IsAckedUpdate(i) then s.active + Known(all, i.objectID) else s.active
  {
    hide Known;
  }

  /** An object ID that counts: it is set, and some loaded definition has it. */
  predicate IsLoaded(all: seq<Definition>, id: uint32) {
    id != 0 && exists k :: 0 <= k < |all| && all[k].objectID == id
  }

  /** The object IDs of a list that count, in order. */
  function LoadedIDsOf(all: seq<Definition>, ids: seq<uint32>): seq<uint32> {
    if |ids| == 0 then []
    else
      var (front, id) := (ids[..|ids| - 1], ids[|ids| - 1]);
      if IsLoaded(all, id) then LoadedIDsOf(all, front) + [id] else LoadedIDsOf(all, front)
  }

  function IDsOf(definitions: seq<Definition>): (r: seq<uint32>)
    ensures |r| == |definitions|
  {
    seq(|definitions|, j requires 0 <= j < |definitions| => definitions[j].objectID)
  }

  /** A loaded definition that no earlier one shares its ID with. */
  predicate IsFirst(all: seq<Definition>, d: Definition) {
    exists k :: 0 <= k < |all| && all[k] == d && forall m :: 0 <= m < k ==> all[m].objectID != d.objectID
  }

  /** One definition, the first loaded one, for every ID of the list that counts, in order. */
  predicate AreActiveFor(all: seq<Definition>, active: seq<Definition>, ids: seq<uint32>) {
    IDsOf(active) == LoadedIDsOf(all, ids) && forall j :: 0 <= j < |active| ==> IsFirst(all, active[j])
  }

  lemma FirstIsFixed(all: seq<Definition>, d: Definition, e: Definition)
    requires IsFirst(all, d) && IsFirst(all, e) && d.objectID == e.objectID
    ensures d == e
  {
  }

  /** A list of IDs leaves no choice of active definitions. */
  lemma ActiveIsFixed(all: seq<Definition>, a: seq<Definition>, b: seq<Definition>, ids: seq<uint32>)
    requires AreActiveFor(all, a, ids) && AreActiveFor(all, b, ids)
    ensures a == b
  {
    hide LoadedIDsOf, IsFirst;
    assert |IDsOf(a)| == |IDsOf(b)|;
    forall j | 0 <= j < |a|
      ensures a[j] == b[j]
    {
      assert IDsOf(a)[j] == IDsOf(b)[j];
      FirstIsFixed(all, a[j], b[j]);
    }
  }

  lemma KnownIsFirst(all: seq<Definition>, id: uint32)
    ensures IsLoaded(all, id) ==> |Known(all, id)| == 1 && Known(all, id)[0].objectID == id
    ensures IsLoaded(all, id) ==> IsFirst(all, Known(all, id)[0])
    ensures !IsLoaded(all, id) ==> Known(all, id) == []
  {
    var i := IndexOfID(all, id);
    if i < |all| {
      assert all[i].objectID == id;
    }
  }

  lemma {:induction false} KnownAllActive(all: seq<Definition>, ids: seq<uint32>)
    ensures AreActiveFor(all, KnownAll(all, ids), ids)
  {
    if |ids| > 0 {
      hide Known, IsLoaded, IsFirst;
      var (front, id) := (ids[..|ids| - 1], ids[|ids| - 1]);
      KnownAllActive(all, front);
      KnownIsFirst(all, id);
      var (a, b) := (KnownAll(all, front), Known(all, id));
      assert IDsOf(a + b) == IDsOf(a) + IDsOf(b);
      assert !IsLoaded(all, id) ==> a + b == a;
    }
  }

  /**
    On every run the active definitions are the known objects acknowledged since
    the last reset: the first loaded definition for every one of those IDs that
    is set and loaded, in the order received.
   */
  lemma ActiveDefinitions(all: seq<Definition>, inputs: seq<Input>)
    ensures Run(all, inputs).active == KnownAll(all, IdsSinceReset(all, inputs))
    ensures AreActiveFor(all, Run(all, inputs).active, IdsSinceReset(all, inputs))
  {
    RunActive(all, inputs);
    KnownAllActive(all, IdsSinceReset(all, inputs));
  }

  lemma {:induction false} RunActive(all: seq<Definition>, inputs: seq<Input>)
    ensures Run(all, inputs).active == KnownAll(all, IdsSinceReset(all, inputs))
  {
    if |inputs| > 0 {
      var (front, i) := (inputs[..|inputs| - 1], inputs[|inputs| - 1]);
      hide Known, Step, Resets, IsAckedUpdate;
      RunActive(all, front);
      StepActive(all, Run(all, front), i);
      if IsAckedUpdate(i) {
        KnownAllSnoc(all, IdsSinceReset(all, front), i.objectID);
      }
    }
  }
}
