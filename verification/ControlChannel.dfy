/** Two control channels over a network that drops, duplicates and reorders packets. */
module ControlChannel {
  import opened Bytes
  import opened PacketCodec
  import opened ReliableSpec

  /** Whether the first packet carries a wrapped client key, and whether soft resets go to a listener. */
  datatype Options = Options(wrappedKey: bool, listens: bool)

  /**
   One end of the channel. `sent` remembers every control packet built so far,
   and `delivered` every byte handed to a reader.
   */
  datatype Peer = Peer(
    keyID: nat,
    localSession: seq<Byte>,
    remoteSession: seq<Byte>,
    options: Options,
    next: Uint32,
    sent: seq<Packet>,
    inFlight: InFlight,
    pendingAcks: set<Uint32>,
    incoming: Incoming,
    chunks: seq<seq<Byte>>,
    remainder: seq<Byte>,
    delivered: seq<Byte>)

  function NewPeer(keyID: nat, localSession: seq<Byte>, remoteSession: seq<Byte>, options: Options): Peer {
    Peer(keyID, localSession, remoteSession, options, 1, [], map[], {}, NOTHING_RECEIVED, [], [], [])
  }

  function Concat(chunks: seq<seq<Byte>>): seq<Byte> {
    if |chunks| == 0 then [] else chunks[0] + Concat(chunks[1..])
  }

  /** The payload bytes of the packets, in order. */
  function Payloads(packets: seq<Packet>): seq<Byte> {
    if |packets| == 0 then [] else packets[0].payload + Payloads(packets[1..])
  }

  function NonEmpty(packets: seq<Packet>): seq<seq<Byte>> {
    if |packets| == 0 then []
    else if |packets[0].payload| == 0 then NonEmpty(packets[1..])
    else [packets[0].payload] + NonEmpty(packets[1..])
  }

  // ---- Building packets --------------------------------------------------

  const CONTROL_PAYLOAD_SIZE := 1024

  function AckArrayLength(count: nat): nat {
    var n := if count < ACKS_PER_PACKET then count else ACKS_PER_PACKET;
    if n == 0 then 1 else 1 + 4 * n + 8
  }

  /** The keyed hash of tls-auth is as long as its key slot at most. */
  type DigestSize = n: nat | n <= 64

  /** How control packets are protected: not at all, by tls-auth, or by tls-crypt. */
  datatype Protection = Unprotected | Auth(digestSize: DigestSize) | Crypt

  function ProtectionOverhead(protection: Protection): nat {
    match protection
    case Unprotected => 0
    case Auth(digestSize) => digestSize + 8
    case Crypt => 8 + 32 + 16
  }

  function DatagramOverhead(ipv4: bool): nat {
    (if ipv4 then 20 else 40) + 8
  }

  /** Opcode, session ID, acknowledgments and packet ID. */
  function HeaderLength(pendingAcks: nat): nat {
    1 + 8 + AckArrayLength(pendingAcks) + 4
  }

  /** The header with what the protection and the datagram add to it. */
  function FrameOverhead(pendingAcks: nat, protection: Protection, ipv4: bool): (r: nat)
    ensures r < CONTROL_PAYLOAD_SIZE
  {
    HeaderLength(pendingAcks) + ProtectionOverhead(protection) + DatagramOverhead(ipv4)
  }

  /** What is left for the payload; nothing, where the wrapped key takes all. */
  function PayloadRoom(p: Peer, protection: Protection, ipv4: bool, keyLength: nat): (r: nat)
    ensures !(p.options.wrappedKey && p.next == 1) ==> r > 0
  {
    var size := CONTROL_PAYLOAD_SIZE - FrameOverhead(|p.pendingAcks|, protection, ipv4);
    if p.options.wrappedKey && p.next == 1 then (if size > keyLength then size - keyLength else 0) else size
  }

  predicate CanBuild(p: Peer) {
    |p.inFlight| < SEND_BUFFER_SIZE && p.next < MAX_UINT32
  }

  function Built(p: Peer, opcode: nat, payload: seq<Byte>, maximumAcks: int): Packet {
    Packet(opcode, p.keyID, NO_PEER, p.localSession, Taken(p.pendingAcks, maximumAcks), p.remoteSession, p.next,
        payload)
  }

  /** The packet takes its acknowledgments, the next ID and a slot in the send buffer, or nothing at all. */
  function Insert(p: Peer, opcode: nat, payload: seq<Byte>, maximumAcks: int): Peer {
    if !CanBuild(p) then p
    else
      var packet := Built(p, opcode, payload, maximumAcks);
      p.(next := p.next + 1,
         sent := p.sent + [packet],
         inFlight := p.inFlight[p.next := Tracked(packet, 0)],
         pendingAcks := Rest(p.pendingAcks, maximumAcks))
  }

  /** The first packet carries the wrapped key under its own opcode. */
  function OnWire(p: Peer, packet: Packet): Packet {
    if p.options.wrappedKey && packet.id == 1 && packet.opcode == CONTROL_V1
    then packet.(opcode := CONTROL_WKC_V1)
    else packet
  }

  function AckPacket(p: Peer, ids: seq<Uint32>): Packet {
    Packet(ACKNOWLEDGMENT_V1, p.keyID, NO_PEER, p.localSession, ids, p.remoteSession, 0, [])
  }

  // ---- Receiving packets -------------------------------------------------

  /** A packet with acknowledgments must name this end's session. */
  predicate ValidRemote(p: Peer, packet: Packet) {
    |packet.acknowledgmentIDs| == 0 ||
    (packet.remoteSessionID != NO_SESSION && packet.remoteSessionID == p.localSession)
  }

  predicate ValidLocal(p: Peer, packet: Packet) {
    packet.localSessionID == p.remoteSession
  }

  predicate IsHardReset(opcode: nat) {
    opcode in {HARD_RESET_CLIENT_V1, HARD_RESET_SERVER_V1, HARD_RESET_CLIENT_V2, HARD_RESET_SERVER_V2,
        HARD_RESET_CLIENT_V3}
  }

  function NoteAcks(p: Peer, packet: Packet): Peer {
    p.(inFlight := AckedAll(p.inFlight, packet.acknowledgmentIDs), pendingAcks := Noted(p.pendingAcks, packet))
  }

  /** Buffers the packet and passes on everything that is now in order. */
  function Receive(p: Peer, packet: Packet): Peer {
    if !Admits(p.incoming, packet.id) then p
    else
      var i := Incoming(p.incoming.pending[packet.id := packet], p.incoming.last);
      p.(incoming := AfterReady(i), chunks := p.chunks + NonEmpty(Ready(i)))
  }

  function Process(p: Peer, packet: Packet): Peer {
    if !ValidRemote(p, packet) then p
    else if IsHardReset(packet.opcode) then
      if packet.keyID != 0 || p.keyID != 0 || !ValidLocal(p, packet) then p else NoteAcks(p, packet)
    else if packet.opcode == SOFT_RESET_V1 then
      if !ValidLocal(p, packet) || p.options.listens then p else NoteAcks(p, packet)
    else if !ValidLocal(p, packet) || packet.keyID != p.keyID then p
    else if !IsControl(packet.opcode) then NoteAcks(p, packet)
    else Receive(NoteAcks(p, packet), packet)
  }

  /** A read returns from the remainder, refilled from the next chunk when it is empty. */
  function Read(p: Peer, count: nat): Peer {
    var q := if |p.remainder| == 0 && |p.chunks| > 0 then p.(remainder := p.chunks[0], chunks := p.chunks[1..]) else p;
    var n := if count < |q.remainder| then count else |q.remainder|;
    q.(remainder := q.remainder[n..], delivered := q.delivered + q.remainder[..n])
  }

  // ---- The system --------------------------------------------------------

  /** Whatever was ever put on the wire may arrive any number of times, in any order, or never. */
  datatype System = System(a: Peer, b: Peer, toB: set<Packet>, toA: set<Packet>)

  datatype Action =
    | Emit(opcode: nat, buffer: seq<Byte>, room: nat, maximumAcks: int)
    | SendAck(linked: bool)
    | Deliver(packet: Packet)
    | Take(count: nat)

  datatype Event = Event(atB: bool, action: Action)

  function Flip(s: System): System {
    System(s.b, s.a, s.toA, s.toB)
  }

  /** Packets of other sessions may arrive too. */
  predicate Arrives(s: System, packet: Packet) {
    packet in s.toA || !ValidLocal(s.a, packet)
  }

  function Chunk(buffer: seq<Byte>, room: nat): seq<Byte> {
    if room < |buffer| then buffer[..room] else buffer
  }

  function StepA(s: System, action: Action): System {
    match action
    case Emit(opcode, buffer, room, maximumAcks) =>
      if (opcode != CONTROL_V1 && opcode != CONTROL_WKC_V1) || !CanBuild(s.a) then s
      else
        s.(a := Insert(s.a, opcode, Chunk(buffer, room), maximumAcks),
           toB := s.toB + {OnWire(s.a, Built(s.a, opcode, Chunk(buffer, room), maximumAcks))})
    case SendAck(linked) =>
      var ids := Taken(s.a.pendingAcks, ACK_SET_CAPACITY);
      if |ids| == 0 then s
      else if linked then
        s.(a := s.a.(pendingAcks := Rest(s.a.pendingAcks, ACK_SET_CAPACITY)), toB := s.toB + {AckPacket(s.a, ids)})
      else s.(a := s.a.(pendingAcks := Returned(Rest(s.a.pendingAcks, ACK_SET_CAPACITY), ids)))
    case Deliver(packet) =>
      if Arrives(s, packet) then s.(a := Process(s.a, packet)) else s
    case Take(count) => s.(a := Read(s.a, count))
  }

  function Step(s: System, e: Event): System {
    if e.atB then Flip(StepA(Flip(s), e.action)) else StepA(s, e.action)
  }

  function Run(s: System, events: seq<Event>): System {
    if |events| == 0 then s else Step(Run(s, events[..|events| - 1]), events[|events| - 1])
  }

  function Start(keyID: nat, sessionA: seq<Byte>, sessionB: seq<Byte>, optionsA: Options, optionsB: Options): System {
    System(NewPeer(keyID, sessionA, sessionB, optionsA), NewPeer(keyID, sessionB, sessionA, optionsB), {}, {})
  }

  // ---- Bytes in order ----------------------------------------------------

  lemma {:induction false} PayloadsAppend(left: seq<Packet>, right: seq<Packet>)
    ensures Payloads(left + right) == Payloads(left) + Payloads(right)
    decreases |left|
  {
    if |left| == 0 {
      assert left + right == right;
    } else {
      assert (left + right)[1..] == left[1..] + right;
      PayloadsAppend(left[1..], right);
    }
  }

  lemma {:induction false} ConcatAppend(left: seq<seq<Byte>>, right: seq<seq<Byte>>)
    ensures Concat(left + right) == Concat(left) + Concat(right)
    decreases |left|
  {
    if |left| == 0 {
      assert left + right == right;
    } else {
      assert (left + right)[1..] == left[1..] + right;
      ConcatAppend(left[1..], right);
    }
  }

  lemma {:induction false} NonEmptyKeepsBytes(packets: seq<Packet>)
    ensures Concat(NonEmpty(packets)) == Payloads(packets)
    decreases |packets|
  {
    if |packets| > 0 {
      NonEmptyKeepsBytes(packets[1..]);
      if |packets[0].payload| > 0 {
        assert NonEmpty(packets)[1..] == NonEmpty(packets[1..]);
      }
    }
  }

  lemma {:induction false} SamePayloads(left: seq<Packet>, right: seq<Packet>)
    requires |left| == |right| && forall k :: 0 <= k < |left| ==> left[k].payload == right[k].payload
    ensures Payloads(left) == Payloads(right)
    decreases |left|
  {
    if |left| > 0 {
      SamePayloads(left[1..], right[1..]);
    }
  }

  /** Everything that has reached the reader's side of the buffer. */
  function Arrived(r: Peer): seq<Byte> {
    r.delivered + r.remainder + Concat(r.chunks)
  }

  /** A control packet of `s` with the payload it was built with. */
  ghost predicate Genuine(s: Peer, id: Uint32, payload: seq<Byte>) {
    1 <= id <= |s.sent| && payload == s.sent[id - 1].payload
  }

  /** The receiver has exactly the bytes of the first `last` packets, and only genuine packets beyond. */
  ghost predicate InOrder(s: Peer, r: Peer, wire: set<Packet>) {
    && |s.sent| == s.next - 1
    && (forall k :: 0 <= k < |s.sent| ==> s.sent[k].id == k + 1)
    && (forall p :: p in wire && IsControl(p.opcode) ==> Genuine(s, p.id, p.payload))
    && (forall p :: p in wire ==> p.opcode in {CONTROL_V1, CONTROL_WKC_V1, ACKNOWLEDGMENT_V1})
    && Settled(r.incoming)
    && r.incoming.last <= |s.sent|
    && (forall id :: id in r.incoming.pending ==> Genuine(s, id, r.incoming.pending[id].payload))
    && Arrived(r) == Payloads(s.sent[..r.incoming.last])
  }

  lemma InsertKeepsOrder(s: Peer, r: Peer, wire: set<Packet>, opcode: nat, payload: seq<Byte>, maximumAcks: int)
    requires InOrder(s, r, wire) && CanBuild(s) && (opcode == CONTROL_V1 || opcode == CONTROL_WKC_V1)
    ensures InOrder(Insert(s, opcode, payload, maximumAcks), r,
          wire + {OnWire(s, Built(s, opcode, payload, maximumAcks))})
  {
    hide Taken, Rest, Arrived, Payloads, Settled;
    var t := Insert(s, opcode, payload, maximumAcks);
    assert forall k :: 0 <= k < |s.sent| ==> t.sent[k] == s.sent[k];
    assert t.sent[..r.incoming.last] == s.sent[..r.incoming.last];
    forall id, bytes | Genuine(s, id, bytes) ensures Genuine(t, id, bytes) {}
  }

  lemma ReceiveKeepsOrder(s: Peer, r: Peer, wire: set<Packet>, packet: Packet)
    requires InOrder(s, r, wire) && Genuine(s, packet.id, packet.payload)
    ensures InOrder(s, Receive(r, packet), wire)
  {
    hide Ready, AfterReady, NonEmpty, Concat, Payloads;
    if Admits(r.incoming, packet.id) {
      AdmitsExactly(r.incoming, packet.id);
      var i := Incoming(r.incoming.pending[packet.id := packet], r.incoming.last);
      assert Windowed(i);
      ReadySettles(i);
      var next := AfterReady(i);
      forall id | id in i.pending ensures Genuine(s, id, i.pending[id].payload) {}
      LastWithin(s, i);
      ReadyBytes(s, i);
      ConcatAppend(r.chunks, NonEmpty(Ready(i)));
      NonEmptyKeepsBytes(Ready(i));
      var received := Receive(r, packet);
      assert Arrived(received) == Arrived(r) + Payloads(Ready(i));
    }
  }

  lemma LastWithin(s: Peer, i: Incoming)
    requires Windowed(i) && i.last <= |s.sent| && forall id :: id in i.pending ==> Genuine(s, id, i.pending[id].payload)
    ensures AfterReady(i).last <= |s.sent|
  {
    hide Ready, AfterReady, Windowed;
    ReadyMoves(i);
    if AfterReady(i).last > i.last {
      ReadyAt(i, |Ready(i)| - 1);
    }
  }

  lemma ReadyBytes(s: Peer, i: Incoming)
    requires Windowed(i) && i.last <= |s.sent| && forall id :: id in i.pending ==> Genuine(s, id, i.pending[id].payload)
    requires AfterReady(i).last <= |s.sent|
    ensures Payloads(s.sent[..AfterReady(i).last]) == Payloads(s.sent[..i.last]) + Payloads(Ready(i))
  {
    hide Ready, AfterReady, Payloads, Windowed, Settled;
    ReadyMoves(i);
    ReadyGoesOn(i);
    var last := AfterReady(i).last;
    var tail := s.sent[i.last..last];
    assert |tail| == |Ready(i)|;
    forall k | 0 <= k < |tail| ensures tail[k].payload == Ready(i)[k].payload {
      ReadyAt(i, k);
      assert Genuine(s, i.last + 1 + k, i.pending[i.last + 1 + k].payload);
    }
    SamePayloads(tail, Ready(i));
    assert s.sent[..last] == s.sent[..i.last] + tail;
    PayloadsAppend(s.sent[..i.last], tail);
  }

  lemma NoteAcksKeepsOrder(s: Peer, r: Peer, wire: set<Packet>, packet: Packet)
    requires InOrder(s, r, wire)
    ensures InOrder(s, NoteAcks(r, packet), wire)
    ensures forall other, back :: InOrder(r, other, back) ==> InOrder(NoteAcks(r, packet), other, back)
  {
    hide AckedAll, Noted;
  }

  lemma ProcessKeepsOrder(s: Peer, r: Peer, wire: set<Packet>, packet: Packet)
    requires InOrder(s, r, wire) && (packet in wire || !ValidLocal(r, packet))
    ensures InOrder(s, Process(r, packet), wire)
    ensures Process(r, packet).sent == r.sent && Process(r, packet).next == r.next
  {
    hide Receive, NoteAcks, ValidRemote, InOrder;
    NoteAcksKeepsOrder(s, r, wire, packet);
    if packet in wire && IsControl(packet.opcode) {
      WireGenuine(s, r, wire, packet);
      ReceiveKeepsOrder(s, NoteAcks(r, packet), wire, packet);
    }
    ReceiveKeepsSent(NoteAcks(r, packet), packet);
    NoteAcksKeepsSent(r, packet);
  }

  lemma WireGenuine(s: Peer, r: Peer, wire: set<Packet>, packet: Packet)
    requires InOrder(s, r, wire) && packet in wire && IsControl(packet.opcode)
    ensures Genuine(s, packet.id, packet.payload)
  {
  }

  lemma ReceiveKeepsSent(r: Peer, packet: Packet)
    ensures Receive(r, packet).sent == r.sent && Receive(r, packet).next == r.next
  {
  }

  lemma NoteAcksKeepsSent(r: Peer, packet: Packet)
    ensures NoteAcks(r, packet).sent == r.sent && NoteAcks(r, packet).next == r.next
  {
  }

  /** What the other direction sees of a step: the same packets sent, perhaps an acknowledgment on the wire. */
  lemma OrderIgnores(s: Peer, t: Peer, r: Peer, wire: set<Packet>, more: set<Packet>)
    requires InOrder(s, r, wire) && t.sent == s.sent && t.next == s.next
    requires forall p :: p in more ==> p in wire || p.opcode == ACKNOWLEDGMENT_V1
    ensures InOrder(t, r, more)
  {
    hide Arrived, Payloads;
    forall id, bytes | Genuine(s, id, bytes) ensures Genuine(t, id, bytes) {}
  }

  lemma RefillKeepsBytes(r: Peer)
    requires |r.remainder| == 0 && |r.chunks| > 0
    ensures Arrived(r.(remainder := r.chunks[0], chunks := r.chunks[1..])) == Arrived(r)
  {
    assert r.delivered + r.remainder == r.delivered;
    assert Concat(r.chunks) == r.chunks[0] + Concat(r.chunks[1..]);
    assert r.delivered + (r.chunks[0] + Concat(r.chunks[1..])) == r.delivered + r.chunks[0] + Concat(r.chunks[1..]);
  }

  lemma ReadKeepsBytes(r: Peer, count: nat)
    ensures Arrived(Read(r, count)) == Arrived(r)
  {
    hide Concat;
    var refill := |r.remainder| == 0 && |r.chunks| > 0;
    if refill {
      RefillKeepsBytes(r);
    }
    var q := if refill then r.(remainder := r.chunks[0], chunks := r.chunks[1..]) else r;
    var n := if count < |q.remainder| then count else |q.remainder|;
    assert (q.delivered + q.remainder[..n]) + q.remainder[n..] == q.delivered + q.remainder;
  }

  lemma ReadKeepsOrder(s: Peer, r: Peer, wire: set<Packet>, count: nat)
    requires InOrder(s, r, wire)
    ensures InOrder(s, Read(r, count), wire)
  {
    hide Payloads, Arrived, Concat;
    ReadKeepsBytes(r, count);
  }

  ghost predicate BothInOrder(sys: System) {
    InOrder(sys.a, sys.b, sys.toB) && InOrder(sys.b, sys.a, sys.toA)
  }

  lemma StepAKeepsOrder(sys: System, action: Action)
    requires BothInOrder(sys)
    ensures BothInOrder(StepA(sys, action))
  {
    hide InOrder, Process, Insert, Read, Taken, Rest, Returned;
    var next := StepA(sys, action);
    match action
    case Emit(opcode, buffer, room, maximumAcks) =>
      if (opcode == CONTROL_V1 || opcode == CONTROL_WKC_V1) && CanBuild(sys.a) {
        InsertKeepsOrder(sys.a, sys.b, sys.toB, opcode, Chunk(buffer, room), maximumAcks);
        ReceiverIgnores(sys.b, sys.a, next.a, sys.toA, Chunk(buffer, room), opcode, maximumAcks);
      }
    case SendAck(linked) =>
      OrderIgnores(sys.a, next.a, sys.b, sys.toB, next.toB);
      PendingIgnored(sys.b, sys.a, sys.toA, next.a.pendingAcks);
    case Deliver(packet) =>
      if Arrives(sys, packet) {
        ProcessKeepsOrder(sys.b, sys.a, sys.toA, packet);
        OrderIgnores(sys.a, next.a, sys.b, sys.toB, sys.toB);
      }
    case Take(count) =>
      ReadKeepsOrder(sys.b, sys.a, sys.toA, count);
      ReadKeepsSent(sys.a, count);
      OrderIgnores(sys.a, next.a, sys.b, sys.toB, sys.toB);
  }

  lemma ReadKeepsSent(r: Peer, count: nat)
    ensures Read(r, count).sent == r.sent && Read(r, count).next == r.next
  {
  }

  lemma ReceiverIgnores(s: Peer, r: Peer, t: Peer, wire: set<Packet>, payload: seq<Byte>, opcode: nat, maximumAcks: int)
    requires InOrder(s, r, wire) && t == Insert(r, opcode, payload, maximumAcks)
    ensures InOrder(s, t, wire)
  {
    hide Taken, Rest, Payloads, Concat;
  }

  lemma PendingIgnored(s: Peer, r: Peer, wire: set<Packet>, pending: set<Uint32>)
    requires InOrder(s, r, wire)
    ensures InOrder(s, r.(pendingAcks := pending), wire)
  {
    hide Payloads, Concat;
  }

  lemma {:induction false} RunKeepsOrder(sys: System, events: seq<Event>)
    requires BothInOrder(sys)
    ensures BothInOrder(Run(sys, events))
    decreases |events|
  {
    hide InOrder, StepA;
    if |events| > 0 {
      RunKeepsOrder(sys, events[..|events| - 1]);
      var before, e := Run(sys, events[..|events| - 1]), events[|events| - 1];
      StepAKeepsOrder(if e.atB then Flip(before) else before, e.action);
    }
  }

  /**
   Over every run, what one end reads is a prefix of what the other end wrote,
   in order and without repetition.
   */
  lemma StreamPrefix(keyID: nat, sessionA: seq<Byte>, sessionB: seq<Byte>, optionsA: Options, optionsB: Options,
        events: seq<Event>)
    ensures var sys := Run(Start(keyID, sessionA, sessionB, optionsA, optionsB), events);
            sys.b.delivered <= Payloads(sys.a.sent) && sys.a.delivered <= Payloads(sys.b.sent)
  {
    hide Run, InOrder;
    var start := Start(keyID, sessionA, sessionB, optionsA, optionsB);
    assert BothInOrder(start) by { StartInOrder(start.a, start.b); StartInOrder(start.b, start.a); }
    RunKeepsOrder(start, events);
    var sys := Run(start, events);
    DeliveredPrefix(sys.a, sys.b, sys.toB);
    DeliveredPrefix(sys.b, sys.a, sys.toA);
  }

  lemma StartInOrder(s: Peer, r: Peer)
    requires s.next == 1 && s.sent == [] && r.incoming == NOTHING_RECEIVED && Arrived(r) == []
    ensures InOrder(s, r, {})
  {
  }

  lemma DeliveredPrefix(s: Peer, r: Peer, wire: set<Packet>)
    requires InOrder(s, r, wire)
    ensures r.delivered <= Payloads(s.sent)
  {
    hide Payloads;
    var last := r.incoming.last;
    assert s.sent == s.sent[..last] + s.sent[last..];
    PayloadsAppend(s.sent[..last], s.sent[last..]);
    assert r.delivered <= Arrived(r);
  }
}
