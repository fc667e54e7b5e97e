/** What an acknowledgment promises: the packet is held by the other end and may be forgotten. */
module AckSafety {
  import opened Bytes
  import opened PacketCodec
  import opened ReliableSpec
  import opened ControlChannel

  predicate Held(r: Peer, id: Uint32) {
    id <= r.incoming.last || id in r.incoming.pending
  }

  /** Everything acknowledged is held, so a packet is either still in flight or held. */
  ghost predicate Safe(s: Peer, r: Peer, back: set<Packet>) {
    && (forall id :: id in r.pendingAcks ==> Held(r, id))
    && (forall p, id :: p in back && id in p.acknowledgmentIDs ==> Held(r, id))
    && (forall id :: 1 <= id < s.next ==> id in s.inFlight || Held(r, id))
  }

  ghost predicate BothSafe(sys: System) {
    Safe(sys.a, sys.b, sys.toA) && Safe(sys.b, sys.a, sys.toB)
  }

  /** Whoever receives a control packet expects one at most eleven before it. */
  predicate WithinWindow(sys: System, action: Action) {
    action.Deliver? && IsControl(action.packet.opcode) ==>
        action.packet.id < sys.a.incoming.last + 1 + RECEIVE_BUFFER_SIZE
  }

  lemma ReceiveHolds(r: Peer, packet: Packet)
    requires Settled(r.incoming)
    ensures forall id :: Held(r, id) ==> Held(Receive(r, packet), id)
    ensures Held(Receive(r, packet), packet.id) <==>
            packet.id < r.incoming.last + 1 + RECEIVE_BUFFER_SIZE
    ensures Receive(r, packet).pendingAcks == r.pendingAcks && Receive(r, packet).inFlight == r.inFlight
  {
    hide Ready, AfterReady, NonEmpty;
    AdmitsExactly(r.incoming, packet.id);
    if Admits(r.incoming, packet.id) {
      var i := Incoming(r.incoming.pending[packet.id := packet], r.incoming.last);
      hide Admits;
      assert Windowed(i);
      ReadySettles(i);
    }
  }

  /**
   A genuine control packet is noted for acknowledgment whenever there is room,
   but it is held afterwards exactly when it was less than twelve past the next
   expected one.
   */
  lemma AcknowledgedIsHeld(sys: System, packet: Packet)
    requires BothInOrder(sys) && packet in sys.toA && IsControl(packet.opcode)
    requires ValidRemote(sys.a, packet) && ValidLocal(sys.a, packet) && packet.keyID == sys.a.keyID
    ensures var after := Process(sys.a, packet);
            && (|sys.a.pendingAcks| < ACK_SET_CAPACITY ==> packet.id in after.pendingAcks)
            && (Held(after, packet.id) <==> packet.id < sys.a.incoming.last + 1 + RECEIVE_BUFFER_SIZE)
  {
    hide Receive, AckedAll, ValidRemote, Held;
    assert !IsHardReset(packet.opcode) && packet.opcode != SOFT_RESET_V1;
    ReceiveHolds(NoteAcks(sys.a, packet), packet);
  }

  lemma NotedHeld(sys: System, packet: Packet)
    requires BothInOrder(sys) && BothSafe(sys) && Arrives(sys, packet) && WithinWindow(sys, Deliver(packet))
    ensures var after := Process(sys.a, packet);
            && (forall id :: Held(sys.a, id) ==> Held(after, id))
            && (forall id :: id in after.pendingAcks ==> Held(after, id))
  {
    hide Receive, AckedAll, ValidRemote, Held;
    var noted := NoteAcks(sys.a, packet);
    ReceiveHolds(noted, packet);
    SameHeld(sys.a, noted);
  }

  lemma SameHeld(r: Peer, t: Peer)
    requires r.incoming == t.incoming
    ensures forall id :: Held(r, id) == Held(t, id)
  {
  }

  lemma ProcessReleases(sys: System, packet: Packet)
    requires BothInOrder(sys) && BothSafe(sys) && Arrives(sys, packet)
    ensures forall id :: id in sys.a.inFlight && id !in Process(sys.a, packet).inFlight ==> Held(sys.b, id)
  {
    hide Receive, Held;
    ReleasedExactly(sys.a.inFlight, packet.acknowledgmentIDs);
    ReceiveKeepsFlight(NoteAcks(sys.a, packet), packet);
    hide AckedAll;
  }

  lemma ReceiveKeepsFlight(r: Peer, packet: Packet)
    ensures Receive(r, packet).inFlight == r.inFlight
  {
  }

  lemma DeliverKeepsSafe(sys: System, packet: Packet)
    requires BothInOrder(sys) && BothSafe(sys) && Arrives(sys, packet) && WithinWindow(sys, Deliver(packet))
    ensures BothSafe(sys.(a := Process(sys.a, packet)))
  {
    hide Process, Held, InOrder;
    NotedHeld(sys, packet);
    ProcessReleases(sys, packet);
    ProcessKeepsOrder(sys.b, sys.a, sys.toA, packet);
  }

  lemma EmitKeepsSafe(sys: System, opcode: nat, payload: seq<Byte>, maximumAcks: int)
    requires BothSafe(sys) && CanBuild(sys.a)
    ensures BothSafe(sys.(a := Insert(sys.a, opcode, payload, maximumAcks),
                          toB := sys.toB + {OnWire(sys.a, Built(sys.a, opcode, payload, maximumAcks))}))
  {
    hide Taken, Held;
    var next := Insert(sys.a, opcode, payload, maximumAcks);
    SameHeld(sys.a, next);
    assert next.inFlight.Keys == sys.a.inFlight.Keys + {sys.a.next};
  }

  lemma AckKeepsSafe(sys: System, linked: bool)
    requires BothSafe(sys)
    ensures BothSafe(StepA(sys, SendAck(linked)))
  {
    hide Taken, Returned, Held;
    SameHeld(sys.a, StepA(sys, SendAck(linked)).a);
  }

  lemma TakeKeepsSafe(sys: System, count: nat)
    requires BothSafe(sys)
    ensures BothSafe(StepA(sys, Take(count)))
  {
    hide Held;
    SameHeld(sys.a, Read(sys.a, count));
  }

  lemma StepAKeepsSafe(sys: System, action: Action)
    requires BothInOrder(sys) && BothSafe(sys) && WithinWindow(sys, action)
    ensures BothSafe(StepA(sys, action))
  {
    hide InOrder, Safe, Process, Insert;
    match action
    case Emit(opcode, buffer, room, maximumAcks) =>
      if CanBuild(sys.a) { EmitKeepsSafe(sys, opcode, Chunk(buffer, room), maximumAcks); }
    case SendAck(linked) => AckKeepsSafe(sys, linked);
    case Deliver(packet) =>
      if Arrives(sys, packet) { DeliverKeepsSafe(sys, packet); }
    case Take(count) => TakeKeepsSafe(sys, count);
  }

  /** Every control packet of the run arrives within the receiver's window. */
  ghost predicate AllWithin(sys: System, events: seq<Event>)
    decreases |events|
  {
    |events| > 0 ==>
      var before, e := Run(sys, events[..|events| - 1]), events[|events| - 1];
      AllWithin(sys, events[..|events| - 1]) && WithinWindow(if e.atB then Flip(before) else before, e.action)
  }

  lemma {:induction false} RunKeepsSafe(sys: System, events: seq<Event>)
    requires BothInOrder(sys) && BothSafe(sys) && AllWithin(sys, events)
    ensures BothInOrder(Run(sys, events)) && BothSafe(Run(sys, events))
    decreases |events|
  {
    hide InOrder, Safe, StepA, WithinWindow;
    if |events| > 0 {
      RunKeepsSafe(sys, events[..|events| - 1]);
      var before, e := Run(sys, events[..|events| - 1]), events[|events| - 1];
      var view := if e.atB then Flip(before) else before;
      StepAKeepsSafe(view, e.action);
      StepAKeepsOrder(view, e.action);
    }
  }

  lemma StartSafe(keyID: nat, sessionA: seq<Byte>, sessionB: seq<Byte>, optionsA: Options, optionsB: Options)
    ensures var sys := Start(keyID, sessionA, sessionB, optionsA, optionsB); BothInOrder(sys) && BothSafe(sys)
  {
    var sys := Start(keyID, sessionA, sessionB, optionsA, optionsB);
    StartInOrder(sys.a, sys.b);
    StartInOrder(sys.b, sys.a);
  }

  /** While arrivals stay within the window, no acknowledged packet is lost. */
  lemma NothingAcknowledgedIsLost(keyID: nat, sessionA: seq<Byte>, sessionB: seq<Byte>, optionsA: Options,
        optionsB: Options, events: seq<Event>)
    requires AllWithin(Start(keyID, sessionA, sessionB, optionsA, optionsB), events)
    ensures var sys := Run(Start(keyID, sessionA, sessionB, optionsA, optionsB), events);
            && (forall id :: id in sys.b.pendingAcks ==> Held(sys.b, id))
            && (forall id :: 1 <= id < sys.a.next ==> id in sys.a.inFlight || Held(sys.b, id))
  {
    hide InOrder, Run, AllWithin;
    StartSafe(keyID, sessionA, sessionB, optionsA, optionsB);
    RunKeepsSafe(Start(keyID, sessionA, sessionB, optionsA, optionsB), events);
  }

  /** An empty send buffer then means that the other end has everything, in order. */
  lemma EmptySendBuffer(keyID: nat, sessionA: seq<Byte>, sessionB: seq<Byte>, optionsA: Options, optionsB: Options,
        events: seq<Event>)
    requires AllWithin(Start(keyID, sessionA, sessionB, optionsA, optionsB), events)
    requires Run(Start(keyID, sessionA, sessionB, optionsA, optionsB), events).a.inFlight == map[]
    ensures var sys := Run(Start(keyID, sessionA, sessionB, optionsA, optionsB), events);
            Arrived(sys.b) == Payloads(sys.a.sent)
  {
    hide InOrder, Run, AllWithin;
    StartSafe(keyID, sessionA, sessionB, optionsA, optionsB);
    RunKeepsSafe(Start(keyID, sessionA, sessionB, optionsA, optionsB), events);
    var sys := Run(Start(keyID, sessionA, sessionB, optionsA, optionsB), events);
    AllHeld(sys.a, sys.b, sys.toB, sys.toA);
  }

  lemma AllHeld(s: Peer, r: Peer, wire: set<Packet>, back: set<Packet>)
    requires InOrder(s, r, wire) && Safe(s, r, back) && s.inFlight == map[]
    ensures Arrived(r) == Payloads(s.sent)
  {
    hide Arrived, Payloads;
    assert !Held(r, r.incoming.last + 1);
    assert s.sent[..|s.sent|] == s.sent;
  }

  // ---- Beyond the window -------------------------------------------------

  const SESSION_A: seq<Byte> := [1, 0, 0, 0, 0, 0, 0, 0]
  const SESSION_B: seq<Byte> := [2, 0, 0, 0, 0, 0, 0, 0]

  function Origin(): System {
    Start(0, SESSION_A, SESSION_B, Options(false, false), Options(false, false))
  }

  ghost predicate Reachable(sys: System) {
    exists events :: sys == Run(Origin(), events)
  }

  function Plain(id: Uint32): Packet {
    Packet(CONTROL_V1, 0, NO_PEER, SESSION_A, [], SESSION_B, id, [0])
  }

  /** A run in which only the first end writes, one byte a packet, and its first packet is lost. */
  ghost predicate At(sys: System, next: Uint32, flying: set<Uint32>, owed: set<Uint32>) {
    && Reachable(sys) && BothInOrder(sys)
    && sys.a.keyID == 0 && sys.a.localSession == SESSION_A && sys.a.remoteSession == SESSION_B
    && sys.b.keyID == 0 && sys.b.localSession == SESSION_B && sys.b.remoteSession == SESSION_A
    && !sys.a.options.wrappedKey && sys.a.pendingAcks == {} && sys.a.next == next && sys.a.inFlight.Keys == flying
    && sys.b.pendingAcks == owed && sys.b.incoming.last == 0
    && (forall k :: 0 <= k < |sys.a.sent| ==> sys.a.sent[k].payload == [0])
  }

  lemma Extend(sys: System, e: Event)
    requires Reachable(sys) && BothInOrder(sys)
    ensures Reachable(Step(sys, e)) && BothInOrder(Step(sys, e))
  {
    hide InOrder, StepA;
    var events :| sys == Run(Origin(), events);
    assert (events + [e])[..|events|] == events;
    assert Step(sys, e) == Run(Origin(), events + [e]);
    StepAKeepsOrder(if e.atB then Flip(sys) else sys, e.action);
  }

  lemma EmitOne(sys: System, next: Uint32, flying: set<Uint32>) returns (after: System)
    requires At(sys, next, flying, {}) && |flying| < SEND_BUFFER_SIZE && next < MAX_UINT32
    ensures At(after, next + 1, flying + {next}, {}) && Plain(next) in after.toB
  {
    hide InOrder, Reachable;
    var e := Event(false, Emit(CONTROL_V1, [0], 1, ACKS_PER_PACKET));
    Extend(sys, e);
    after := Step(sys, e);
    assert |sys.a.inFlight| == |sys.a.inFlight.Keys|;
    assert Taken({}, ACKS_PER_PACKET) == [];
  }

  lemma DeliverGap(r: Peer, packet: Packet)
    requires Settled(r.incoming) && r.incoming.last == 0 && packet.id > 1
    ensures var after := Receive(r, packet);
            && after.incoming.last == 0 && after.pendingAcks == r.pendingAcks && after.keyID == r.keyID
            && after.localSession == r.localSession && after.remoteSession == r.remoteSession
  {
    hide Admits, Ready, NonEmpty;
    var i := Incoming(r.incoming.pending[packet.id := packet], r.incoming.last);
    assert Following(0) == 1;
    assert 1 !in i.pending;
    assert AfterReady(i) == i;
  }

  lemma DeliverOne(sys: System, next: Uint32, flying: set<Uint32>, id: Uint32) returns (after: System)
    requires At(sys, next, flying, {}) && Plain(id) in sys.toB && id > 1
    ensures At(after, next, flying, {id})
  {
    hide InOrder, Reachable, Receive;
    var e := Event(true, Deliver(Plain(id)));
    Extend(sys, e);
    after := Step(sys, e);
    var noted := NoteAcks(sys.b, Plain(id));
    assert noted.pendingAcks == {id};
    NextIsSettled(sys);
    DeliverGap(noted, Plain(id));
  }

  lemma NextIsSettled(sys: System)
    requires BothInOrder(sys)
    ensures Settled(sys.b.incoming)
  {
  }

  lemma AckOne(sys: System, next: Uint32, flying: set<Uint32>, id: Uint32) returns (after: System)
    requires At(sys, next, flying, {id})
    ensures At(after, next, flying - {id}, {})
  {
    hide InOrder, Reachable, AckedAll;
    var send := Event(true, SendAck(true));
    Extend(sys, send);
    var sent := Step(sys, send);
    var ids := Taken({id}, ACK_SET_CAPACITY);
    assert ids == [id];
    assert Members(ids) == {id};
    var deliver := Event(false, Deliver(AckPacket(sys.b, ids)));
    Extend(sent, deliver);
    after := Step(sent, deliver);
    ReleasedExactly(sys.a.inFlight, ids);
  }

  lemma OriginAt()
    ensures At(Origin(), 1, {}, {})
  {
    hide InOrder;
    StartSafe(0, SESSION_A, SESSION_B, Options(false, false), Options(false, false));
    assert Origin() == Run(Origin(), []);
  }

  /** Packets 2, 3, ... each arrive and are acknowledged, while packet 1 never arrives. */
  lemma {:induction false} WithoutTheFirst(next: Uint32) returns (sys: System)
    requires 2 <= next < MAX_UINT32
    ensures At(sys, next, {1}, {})
  {
    hide At;
    if next == 2 {
      OriginAt();
      sys := EmitOne(Origin(), 1, {});
      assert {} + {1} == {1};
    } else {
      sys := WithoutTheFirst(next - 1);
      sys := EmitOne(sys, next - 1, {1});
      sys := DeliverOne(sys, next, {1} + {next - 1}, next - 1);
      sys := AckOne(sys, next, {1} + {next - 1}, next - 1);
      assert {1} + {next - 1} - {next - 1} == {1};
    }
  }

  /**
   The window condition cannot be dropped: with packet 1 lost, packet 13 arrives
   twelve past the expected one, is acknowledged and forgotten by its sender,
   and is nowhere.
   */
  lemma AcknowledgedAndLost() returns (sys: System)
    ensures Reachable(sys)
    ensures 13 < sys.a.next && 13 !in sys.a.inFlight && !Held(sys.b, 13)
    ensures |sys.a.sent| >= 13 && sys.a.sent[12].id == 13 && |sys.a.sent[12].payload| > 0
  {
    hide Run;
    sys := WithoutTheFirst(14);
    NextIsSettled(sys);
  }
}
