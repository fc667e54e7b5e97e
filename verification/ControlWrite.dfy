/** What a write to the control channel comes to, turn by turn, and how much of it is reported. */
module ControlWrite {
  import opened Bytes
  import opened PacketCodec
  import opened ReliableSpec
  import opened ControlChannel

  /**
   What happens around one round of a write: packets that arrive before it, and how deadline, channel
   and link are.
   */
  datatype Turn = Turn(expired: bool, arriving: seq<Packet>, closed: bool, linked: bool)

  datatype WriteOutcome = Complete | DeadlineExceeded | Closed | Failed | LinkFailed | Waiting

  /** How packets are protected and addressed, and how long the wrapped client key is. */
  datatype Wrapping = Wrapping(protection: Protection, ipv4: bool, keyLength: nat)

  /** The peer after a write, the bytes reported to the caller, and the bytes put into packets. */
  datatype Written = Written(peer: Peer, reported: nat, taken: nat, outcome: WriteOutcome)

  function ProcessAll(p: Peer, packets: seq<Packet>): Peer {
    if |packets| == 0 then p else Process(ProcessAll(p, packets[..|packets| - 1]), packets[|packets| - 1])
  }

  /** The next chunk of what is not in a packet yet. */
  function NextChunk(q: Peer, wrapping: Wrapping, rest: seq<Byte>): seq<Byte> {
    Chunk(rest, PayloadRoom(q, wrapping.protection, wrapping.ipv4, wrapping.keyLength))
  }

  /** One round of a write that is still going on. */
  function OneTurn(w: Written, wrapping: Wrapping, buffer: seq<Byte>, turn: Turn): (r: Written)
    requires w.taken <= |buffer|
    ensures r.taken <= |buffer|
  {
    if turn.expired then w.(outcome := DeadlineExceeded)
    else
      var q := ProcessAll(w.peer, turn.arriving);
      if |q.inFlight| >= SEND_BUFFER_SIZE then Written(q, w.reported, w.taken, if turn.closed then Closed else Waiting)
      else if q.next >= MAX_UINT32 then Written(q, w.reported, w.taken, Failed)
      else
        var chunk := NextChunk(q, wrapping, buffer[w.taken..]);
        var r := Insert(q, CONTROL_V1, chunk, ACKS_PER_PACKET);
        if !turn.linked then Written(r, w.reported, w.taken + |chunk|, LinkFailed)
        else
          var taken := w.taken + |chunk|;
          Written(r, w.reported + |chunk|, taken, if taken == |buffer| then Complete else Waiting)
  }

  /** A write after the given turns; `Waiting` is a write that is still going on. */
  function WriteAll(p: Peer, wrapping: Wrapping, buffer: seq<Byte>, turns: seq<Turn>): (w: Written)
    ensures w.taken <= |buffer|
  {
    if |turns| == 0 then Written(p, 0, 0, if |buffer| == 0 then Complete else Waiting)
    else
      var before := WriteAll(p, wrapping, buffer, turns[..|turns| - 1]);
      if before.outcome != Waiting then before else OneTurn(before, wrapping, buffer, turns[|turns| - 1])
  }

  lemma WriteOneMore(p: Peer, wrapping: Wrapping, buffer: seq<Byte>, turns: seq<Turn>, k: nat)
    requires k < |turns|
    ensures var before := WriteAll(p, wrapping, buffer, turns[..k]);
            WriteAll(p, wrapping, buffer, turns[..k + 1]) ==
              if before.outcome != Waiting then before else OneTurn(before, wrapping, buffer, turns[k])
  {
    hide OneTurn;
    assert turns[..k + 1][..k] == turns[..k];
  }

  lemma WriteBegins(p: Peer, wrapping: Wrapping, buffer: seq<Byte>, turns: seq<Turn>)
    ensures WriteAll(p, wrapping, buffer, turns[..0]) == Written(p, 0, 0, if |buffer| == 0 then Complete else Waiting)
  {
  }

  /** One turn, spelt out for a write that has reported everything so far. */
  lemma TurnGiven(p: Peer, taken: nat, wrapping: Wrapping, buffer: seq<Byte>, turn: Turn)
    requires taken <= |buffer|
    ensures var w, q := Written(p, taken, taken, Waiting), ProcessAll(p, turn.arriving);
            var chunk := NextChunk(q, wrapping, buffer[taken..]);
            var next := taken + |chunk|;
            var r := Insert(q, CONTROL_V1, chunk, ACKS_PER_PACKET);
            OneTurn(w, wrapping, buffer, turn) ==
              if turn.expired then w.(outcome := DeadlineExceeded)
              else if |q.inFlight| >= SEND_BUFFER_SIZE
              then Written(q, taken, taken, if turn.closed then Closed else Waiting)
              else if !CanBuild(q) then Written(q, taken, taken, Failed)
              else if !turn.linked then Written(r, taken, next, LinkFailed)
              else Written(r, next, next, if next == |buffer| then Complete else Waiting)
  {
    hide ProcessAll, Insert, PayloadRoom;
  }

  /** Once a write has stopped, later turns change nothing. */
  lemma {:induction false} StaysStopped(p: Peer, wrapping: Wrapping, buffer: seq<Byte>, turns: seq<Turn>, k: nat)
    requires k <= |turns| && WriteAll(p, wrapping, buffer, turns[..k]).outcome != Waiting
    ensures WriteAll(p, wrapping, buffer, turns) == WriteAll(p, wrapping, buffer, turns[..k])
    decreases |turns|
  {
    hide OneTurn;
    if k < |turns| {
      var front := turns[..|turns| - 1];
      assert front[..k] == turns[..k];
      StaysStopped(p, wrapping, buffer, front, k);
    } else {
      assert turns[..k] == turns;
    }
  }

  // ---- When a write stops, and why ---------------------------------------

  /** The write is still going on at turn `k`, which finds `q` after taking in what has arrived. */
  predicate Reaches(p: Peer, wrapping: Wrapping, buffer: seq<Byte>, turns: seq<Turn>, k: nat)
    requires k < |turns|
  {
    WriteAll(p, wrapping, buffer, turns[..k]).outcome == Waiting
  }

  function Found(p: Peer, wrapping: Wrapping, buffer: seq<Byte>, turns: seq<Turn>, k: nat): Peer
    requires k < |turns|
  {
    ProcessAll(WriteAll(p, wrapping, buffer, turns[..k]).peer, turns[k].arriving)
  }

  function Cut(p: Peer, wrapping: Wrapping, buffer: seq<Byte>, turns: seq<Turn>, k: nat): seq<Byte>
    requires k < |turns|
  {
    NextChunk(Found(p, wrapping, buffer, turns, k), wrapping, buffer[WriteAll(p, wrapping, buffer, turns[..k]).taken..])
  }

  /** What at turn `k` ends a write with the given outcome. */
  predicate StopsAt(p: Peer, wrapping: Wrapping, buffer: seq<Byte>, turns: seq<Turn>, k: nat, outcome: WriteOutcome)
    requires k < |turns|
  {
    && Reaches(p, wrapping, buffer, turns, k)
    && var q := Found(p, wrapping, buffer, turns, k);
       match outcome
       case DeadlineExceeded => turns[k].expired
       case Closed => !turns[k].expired && |q.inFlight| >= SEND_BUFFER_SIZE && turns[k].closed
       case Failed => !turns[k].expired && |q.inFlight| < SEND_BUFFER_SIZE && q.next >= MAX_UINT32
       case LinkFailed => !turns[k].expired && CanBuild(q) && !turns[k].linked
       case Complete =>
         && !turns[k].expired && CanBuild(q) && turns[k].linked
         && Cut(p, wrapping, buffer, turns, k) == buffer[WriteAll(p, wrapping, buffer, turns[..k]).taken..]
       case Waiting => false
  }

  lemma OneTurnStops(p: Peer, wrapping: Wrapping, buffer: seq<Byte>, turns: seq<Turn>, k: nat, outcome: WriteOutcome)
    requires k < |turns| && Reaches(p, wrapping, buffer, turns, k) && outcome != Waiting
    ensures OneTurn(WriteAll(p, wrapping, buffer, turns[..k]), wrapping, buffer, turns[k]).outcome == outcome <==>
            StopsAt(p, wrapping, buffer, turns, k, outcome)
  {
    hide ProcessAll, Insert, PayloadRoom, WriteAll;
    var w := WriteAll(p, wrapping, buffer, turns[..k]);
    var rest, chunk := buffer[w.taken..], Cut(p, wrapping, buffer, turns, k);
    assert chunk <= rest;
    assert |chunk| == |rest| <==> chunk == rest;
  }

  /** A write of a buffer that is not empty ends with an outcome exactly when some turn it reaches brings that about. */
  lemma {:induction false} OutcomeExactly(p: Peer, wrapping: Wrapping, buffer: seq<Byte>, turns: seq<Turn>,
        outcome: WriteOutcome)
    requires |buffer| > 0 && outcome != Waiting
    ensures WriteAll(p, wrapping, buffer, turns).outcome == outcome <==>
            exists k :: 0 <= k < |turns| && StopsAt(p, wrapping, buffer, turns, k, outcome)
    decreases |turns|
  {
    hide OneTurn, StopsAt;
    if |turns| > 0 {
      var last := |turns| - 1;
      var front := turns[..last];
      assert turns[..last + 1] == turns;
      OutcomeExactly(p, wrapping, buffer, front, outcome);
      WriteOneMore(p, wrapping, buffer, turns, last);
      forall k | 0 <= k < last ensures StopsAt(p, wrapping, buffer, turns, k, outcome) <==>
                                       StopsAt(p, wrapping, buffer, front, k, outcome) {
        SameTurn(p, wrapping, buffer, turns, last, k, outcome);
      }
      if Reaches(p, wrapping, buffer, turns, last) {
        OneTurnStops(p, wrapping, buffer, turns, last, outcome);
      } else {
        NotReached(p, wrapping, buffer, turns, last, outcome);
      }
    }
  }

  lemma SameTurn(p: Peer, wrapping: Wrapping, buffer: seq<Byte>, turns: seq<Turn>, n: nat, k: nat,
        outcome: WriteOutcome)
    requires k < n <= |turns|
    ensures StopsAt(p, wrapping, buffer, turns, k, outcome) <==> StopsAt(p, wrapping, buffer, turns[..n], k, outcome)
  {
    hide WriteAll, ProcessAll, NextChunk;
    assert turns[..n][..k] == turns[..k];
  }

  lemma NotReached(p: Peer, wrapping: Wrapping, buffer: seq<Byte>, turns: seq<Turn>, k: nat, outcome: WriteOutcome)
    requires k < |turns| && !Reaches(p, wrapping, buffer, turns, k)
    ensures !StopsAt(p, wrapping, buffer, turns, k, outcome)
  {
    hide Reaches;
  }

  // ---- What is reported --------------------------------------------------

  /** A turn at which bytes go into a packet that the link does not take. */
  predicate LosesAt(p: Peer, wrapping: Wrapping, buffer: seq<Byte>, turns: seq<Turn>, k: nat)
    requires k < |turns|
  {
    StopsAt(p, wrapping, buffer, turns, k, LinkFailed) && |Cut(p, wrapping, buffer, turns, k)| > 0
  }

  /** Before a write stops, and unless the link fails, everything in packets has been reported. */
  lemma {:induction false} ReportedSoFar(p: Peer, wrapping: Wrapping, buffer: seq<Byte>, turns: seq<Turn>)
    ensures var w := WriteAll(p, wrapping, buffer, turns);
            w.reported <= w.taken && (w.outcome != LinkFailed ==> w.reported == w.taken)
    ensures var w := WriteAll(p, wrapping, buffer, turns); w.outcome == Complete <==> w.reported == |buffer|
    decreases |turns|
  {
    hide ProcessAll, Insert, PayloadRoom;
    if |turns| > 0 {
      ReportedSoFar(p, wrapping, buffer, turns[..|turns| - 1]);
    }
  }

  /** What a write that fails on the link leaves unreported is the chunk of that turn. */
  lemma UnreportedChunk(p: Peer, wrapping: Wrapping, buffer: seq<Byte>, turns: seq<Turn>, k: nat)
    requires k < |turns| && StopsAt(p, wrapping, buffer, turns, k, LinkFailed)
    ensures var w := WriteAll(p, wrapping, buffer, turns);
            w.outcome == LinkFailed && w.taken == w.reported + |Cut(p, wrapping, buffer, turns, k)|
  {
    hide ProcessAll, Insert, NextChunk, WriteAll;
    ReportedSoFar(p, wrapping, buffer, turns[..k]);
    OneTurnStops(p, wrapping, buffer, turns, k, LinkFailed);
    WriteOneMore(p, wrapping, buffer, turns, k);
    StaysStopped(p, wrapping, buffer, turns, k + 1);
  }

  /**
   A write reports exactly the bytes it has put into packets if and only if no turn
   it reaches finds a slot and bytes to send while the link is broken.
   */
  lemma ReportedExactly(p: Peer, wrapping: Wrapping, buffer: seq<Byte>, turns: seq<Turn>)
    ensures var w := WriteAll(p, wrapping, buffer, turns);
            w.reported == w.taken <==> forall k :: 0 <= k < |turns| ==> !LosesAt(p, wrapping, buffer, turns, k)
  {
    hide WriteAll, StopsAt, Cut;
    ReportedSoFar(p, wrapping, buffer, turns);
    var w := WriteAll(p, wrapping, buffer, turns);
    forall k | 0 <= k < |turns| && StopsAt(p, wrapping, buffer, turns, k, LinkFailed)
      ensures w.taken == w.reported + |Cut(p, wrapping, buffer, turns, k)|
    {
      UnreportedChunk(p, wrapping, buffer, turns, k);
    }
    if w.reported != w.taken {
      EmptyIsComplete(p, wrapping, buffer, turns);
      OutcomeExactly(p, wrapping, buffer, turns, LinkFailed);
      var k :| 0 <= k < |turns| && StopsAt(p, wrapping, buffer, turns, k, LinkFailed);
      assert LosesAt(p, wrapping, buffer, turns, k);
    }
  }

  lemma {:induction false} EmptyIsComplete(p: Peer, wrapping: Wrapping, buffer: seq<Byte>, turns: seq<Turn>)
    ensures |buffer| == 0 ==> WriteAll(p, wrapping, buffer, turns) == Written(p, 0, 0, Complete)
    decreases |turns|
  {
    hide OneTurn;
    if |turns| > 0 {
      EmptyIsComplete(p, wrapping, buffer, turns[..|turns| - 1]);
    }
  }

  /** Without a wrapped key to carry, there are always bytes to send. */
  lemma ChunkNotEmpty(q: Peer, wrapping: Wrapping, rest: seq<Byte>)
    requires |rest| > 0 && !(q.options.wrappedKey && q.next == 1)
    ensures |NextChunk(q, wrapping, rest)| > 0
  {
    hide FrameOverhead;
  }

  // ---- What is sent ------------------------------------------------------

  lemma ProcessKeepsSent(p: Peer, packet: Packet)
    ensures Process(p, packet).sent == p.sent
  {
  }

  lemma {:induction false} ProcessAllKeepsSent(p: Peer, packets: seq<Packet>)
    ensures ProcessAll(p, packets).sent == p.sent
    decreases |packets|
  {
    hide Process;
    if |packets| > 0 {
      ProcessAllKeepsSent(p, packets[..|packets| - 1]);
      ProcessKeepsSent(ProcessAll(p, packets[..|packets| - 1]), packets[|packets| - 1]);
    }
  }

  /** A packet that is built adds its payload to the bytes sent. */
  lemma InsertedBytes(p: Peer, opcode: nat, payload: seq<Byte>, maximumAcks: int)
    requires CanBuild(p)
    ensures var q := Insert(p, opcode, payload, maximumAcks);
            && q.sent == p.sent + [Built(p, opcode, payload, maximumAcks)]
            && Payloads(q.sent) == Payloads(p.sent) + payload
  {
    hide Taken, Rest;
    PayloadsAppend(p.sent, [Built(p, opcode, payload, maximumAcks)]);
  }

  lemma TurnSends(w: Written, wrapping: Wrapping, buffer: seq<Byte>, turn: Turn, before: seq<Packet>)
    requires w.taken <= |buffer| && before <= w.peer.sent
    requires Payloads(w.peer.sent) == Payloads(before) + buffer[..w.taken]
    ensures var r := OneTurn(w, wrapping, buffer, turn);
            before <= r.peer.sent && Payloads(r.peer.sent) == Payloads(before) + buffer[..r.taken]
  {
    hide Payloads, Insert, Built, PayloadRoom, ProcessAll;
    ProcessAllKeepsSent(w.peer, turn.arriving);
    var q := ProcessAll(w.peer, turn.arriving);
    if CanBuild(q) {
      var chunk := NextChunk(q, wrapping, buffer[w.taken..]);
      InsertedBytes(q, CONTROL_V1, chunk, ACKS_PER_PACKET);
      assert buffer[..w.taken] + chunk == buffer[..w.taken + |chunk|];
    }
  }

  /** The payloads of the packets sent grow by the bytes taken, in order. */
  lemma {:induction false} WriteSends(p: Peer, wrapping: Wrapping, buffer: seq<Byte>, turns: seq<Turn>)
    ensures var w := WriteAll(p, wrapping, buffer, turns);
            p.sent <= w.peer.sent && Payloads(w.peer.sent) == Payloads(p.sent) + buffer[..w.taken]
    decreases |turns|
  {
    hide OneTurn, Payloads;
    if |turns| == 0 {
      assert Payloads(p.sent) + buffer[..0] == Payloads(p.sent);
    } else {
      WriteSends(p, wrapping, buffer, turns[..|turns| - 1]);
      var before := WriteAll(p, wrapping, buffer, turns[..|turns| - 1]);
      TurnSends(before, wrapping, buffer, turns[|turns| - 1], p.sent);
    }
  }

  /** What holds when a write returns after the first `k` turns. */
  lemma WriteEnds(p: Peer, wrapping: Wrapping, buffer: seq<Byte>, turns: seq<Turn>, k: nat)
    requires k <= |turns| && (k == |turns| || WriteAll(p, wrapping, buffer, turns[..k]).outcome != Waiting)
    ensures var w := WriteAll(p, wrapping, buffer, turns[..k]);
            && w == WriteAll(p, wrapping, buffer, turns) && w.reported <= w.taken <= |buffer|
            && p.sent <= w.peer.sent && Payloads(w.peer.sent) == Payloads(p.sent) + buffer[..w.taken]
  {
    hide WriteAll, Payloads;
    if k == |turns| {
      assert turns[..k] == turns;
    } else {
      StaysStopped(p, wrapping, buffer, turns, k);
    }
    ReportedSoFar(p, wrapping, buffer, turns);
    WriteSends(p, wrapping, buffer, turns);
  }
}
