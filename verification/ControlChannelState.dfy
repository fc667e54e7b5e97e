/** The control channel as it runs, step by step refining the peers of the protocol. */
module ControlChannelState {
  import opened Bytes
  import opened PacketCodec
  import opened ReliableSpec
  import opened ReliableState
  import opened ControlChannel
  import opened ControlWrite
  import opened ById

  class TlsControlChannel {
    const session: SessionManager
    const outgoing: OutgoingReliableState
    const incoming: IncomingReliableState
    const wrappedClientKey: seq<Byte>
    const listens: bool
    var readChunks: seq<seq<Byte>>
    var readRemainder: seq<Byte>
    ghost var sent: seq<Packet>
    ghost var delivered: seq<Byte>

    ghost function View(): Peer
      reads this, session, outgoing, incoming
    {
      Peer(session.keyID, session.localSessionID, session.remoteSessionID, Options(|wrappedClientKey| > 0, listens),
          session.localControlPacketID,
           sent, outgoing.View(), outgoing.pending, incoming.View(), readChunks, readRemainder, delivered)
    }

    ghost predicate Valid()
      reads this, session, outgoing, incoming
    {
      && session.Valid() && session.hasRemoteSessionID && outgoing.Valid() && incoming.Valid()
      && (forall id :: id in outgoing.View() ==> id < session.localControlPacketID)
      && (forall k :: 0 <= k < |readChunks| ==> |readChunks[k]| > 0)
    }

    constructor (session: SessionManager, wrappedClientKey: seq<Byte>, listens: bool)
      requires session.Valid() && session.hasRemoteSessionID && session.localControlPacketID == 1
      ensures Valid() && this.session == session && fresh(outgoing) && fresh(incoming)
      ensures this.wrappedClientKey == wrappedClientKey
      ensures View() == NewPeer(session.keyID, session.localSessionID, session.remoteSessionID,
            Options(|wrappedClientKey| > 0, listens))
    {
      this.session, this.wrappedClientKey, this.listens := session, wrappedClientKey, listens;
      outgoing := new OutgoingReliableState();
      incoming := new IncomingReliableState();
      readChunks, readRemainder, sent, delivered := [], [], [], [];
    }

    /** Cuts a chunk off the buffer that leaves room for everything else in the packet. */
    method NewOutgoingControlPacket(buffer: seq<Byte>, protection: Protection, ipv4: bool)
      returns (r: Attempt<Packet>, chunkSize: nat)
      requires Valid()
      modifies this, session, outgoing
      ensures Valid()
      ensures r.Got? <==> CanBuild(old(View()))
      ensures r == Nothing <==> |old(View()).inFlight| >= SEND_BUFFER_SIZE
      ensures chunkSize <= |buffer| && View() == Insert(old(View()), CONTROL_V1, buffer[..chunkSize], ACKS_PER_PACKET)
      ensures r.Got? ==>
                && r.value == Built(old(View()), CONTROL_V1, buffer[..chunkSize], ACKS_PER_PACKET)
                && buffer[..chunkSize] == Chunk(buffer, PayloadRoom(old(View()), protection, ipv4, |wrappedClientKey|))
    {
      hide Index, Rest, Taken, Windowed, Insert, Built, CanBuild, FrameOverhead;
      var size := CONTROL_PAYLOAD_SIZE - FrameOverhead(|outgoing.pending|, protection, ipv4);
      if |wrappedClientKey| > 0 && session.localControlPacketID == 1 {
        size := if size > |wrappedClientKey| then size - |wrappedClientKey| else 0;
      }
      chunkSize := if |buffer| < size then |buffer| else size;
      r := Issue(CONTROL_V1, buffer[..chunkSize], ACKS_PER_PACKET);
    }

    ghost function Wrapped(protection: Protection, ipv4: bool): Wrapping
      reads this
    {
      Wrapping(protection, ipv4, |wrappedClientKey|)
    }

    /**
     Cuts the buffer into packets, each as soon as there is a slot for it. While it
     runs, packets arrive; it stops early when the deadline passes, the channel is
     closed, the IDs are used up or the link fails. The packet of a failed write
     stays in the send buffer, so that its bytes are sent but not reported.
     */
    method Write(buffer: seq<Byte>, protection: Protection, ipv4: bool, turns: seq<Turn>)
      returns (totalWritten: nat, outcome: WriteOutcome, ghost taken: nat)
      requires Valid()
      modifies this, session, outgoing, incoming
      ensures Valid() && totalWritten <= taken <= |buffer|
      ensures Written(View(), totalWritten, taken, outcome) ==
            WriteAll(old(View()), Wrapped(protection, ipv4), buffer, turns)
      ensures old(sent) <= sent && Payloads(sent) == Payloads(old(sent)) + buffer[..taken]
    {
      hide Index, Windowed, Payloads, OneTurn, WriteAll, ProcessAll, NextChunk, Insert, CanBuild;
      ghost var p, wrapping := View(), Wrapped(protection, ipv4);
      totalWritten, taken := 0, 0;
      var turn := 0;
      WriteBegins(p, wrapping, buffer, turns);
      while totalWritten < |buffer|
        invariant Valid() && 0 <= turn <= |turns| && totalWritten == taken <= |buffer|
        invariant WriteAll(p, wrapping, buffer, turns[..turn]) ==
                  Written(View(), totalWritten, taken, if totalWritten < |buffer| then Waiting else Complete)
        decreases |turns| - turn
      {
        if turn == |turns| {
          WriteEnds(p, wrapping, buffer, turns, turn);
          return totalWritten, Waiting, taken;
        }
        var now := turns[turn];
        ghost var before := View();
        WriteOneMore(p, wrapping, buffer, turns, turn);
        turn := turn + 1;
        if now.expired {
          TurnGiven(before, taken, wrapping, buffer, now);
          WriteEnds(p, wrapping, buffer, turns, turn);
          return totalWritten, DeadlineExceeded, taken;
        }
        var packet, chunkSize := CutChunk(buffer[totalWritten..], protection, ipv4, now.arriving);
        TurnGiven(before, taken, wrapping, buffer, now);
        if packet == Nothing {
          if now.closed {
            WriteEnds(p, wrapping, buffer, turns, turn);
            return totalWritten, Closed, taken;
          }
          continue;
        }
        if !packet.Got? {
          WriteEnds(p, wrapping, buffer, turns, turn);
          return totalWritten, Failed, taken;
        }
        taken := taken + chunkSize;
        if !now.linked {
          WriteEnds(p, wrapping, buffer, turns, turn);
          return totalWritten, LinkFailed, taken;
        }
        totalWritten := totalWritten + chunkSize;
      }
      WriteEnds(p, wrapping, buffer, turns, turn);
      outcome := Complete;
    }

    /** One round: takes in what has arrived, and cuts off the next chunk if there is a slot for it. */
    method CutChunk(rest: seq<Byte>, protection: Protection, ipv4: bool, arriving: seq<Packet>)
      returns (packet: Attempt<Packet>, chunkSize: nat)
      requires Valid()
      modifies this, session, outgoing, incoming
      ensures Valid() && chunkSize <= |rest|
      ensures var q := ProcessAll(old(View()), arriving);
              && (packet.Got? <==> CanBuild(q)) && (packet == Nothing <==> |q.inFlight| >= SEND_BUFFER_SIZE)
              && View() == (if packet.Got? then Insert(q, CONTROL_V1, rest[..chunkSize], ACKS_PER_PACKET) else q)
              && (packet.Got? ==> rest[..chunkSize] == NextChunk(q, Wrapped(protection, ipv4), rest))
    {
      hide Index, Windowed, ProcessAll, Built, Taken, Rest, FrameOverhead, PayloadRoom;
      ReceiveAll(arriving);
      packet, chunkSize := NewOutgoingControlPacket(rest, protection, ipv4);
    }

    method ReceiveAll(packets: seq<Packet>)
      requires Valid()
      modifies this, outgoing, incoming
      ensures Valid() && View() == ProcessAll(old(View()), packets)
    {
      hide Index, Windowed, Process;
      for n := 0 to |packets|
        invariant Valid() && View() == ProcessAll(old(View()), packets[..n])
      {
        assert packets[..n + 1][..n] == packets[..n];
        var _ := ProcessIncomingControlPacket(packets[n]);
      }
      assert packets[..|packets|] == packets;
    }

    method Issue(opcode: nat, payload: seq<Byte>, maximumCount: int) returns (r: Attempt<Packet>)
      requires Valid() && IsControl(opcode)
      modifies this, session, outgoing
      ensures Valid()
      ensures r.Got? <==> CanBuild(old(View()))
      ensures r == Nothing <==> |old(View()).inFlight| >= SEND_BUFFER_SIZE
      ensures View() == Insert(old(View()), opcode, payload, maximumCount)
      ensures r.Got? ==> r.value == Built(old(View()), opcode, payload, maximumCount)
    {
      hide Index, Rest, Taken, Windowed, Sort;
      Indexed(outgoing.inFlight, TrackedID);
      ghost var id := session.localControlPacketID;
      assert id !in outgoing.View();
      r := outgoing.InsertOutgoingPacket(session, opcode, payload, maximumCount);
      if r.Got? {
        assert r.value.id == id && outgoing.Valid();
        sent := sent + [r.value];
      }
    }

    /** An acknowledgment of its own, or an empty packet while the wrapped key is still to be sent. */
    method NewAcknowledgmentPacket() returns (r: Attempt<Packet>)
      requires Valid()
      modifies this, session, outgoing
      ensures Valid()
      ensures var p := old(View());
              if p.options.wrappedKey && p.next == 1 then
                && (r.Got? <==> CanBuild(p)) && View() == Insert(p, CONTROL_WKC_V1, [], ACK_SET_CAPACITY)
                && (r.Got? ==> r.value == Built(p, CONTROL_WKC_V1, [], ACK_SET_CAPACITY))
              else
                var ids := Taken(p.pendingAcks, ACK_SET_CAPACITY);
                && (r.Got? <==> |ids| > 0) && View() == p.(pendingAcks := Rest(p.pendingAcks, ACK_SET_CAPACITY))
                && (r.Got? ==> r.value == AckPacket(p, ids))
    {
      hide Insert, Built, Taken, Rest, CanBuild, AckPacket;
      if |wrappedClientKey| > 0 && session.localControlPacketID == 1 {
        r := Issue(CONTROL_WKC_V1, [], ACK_SET_CAPACITY);
      } else {
        r := DedicatedAcknowledgment();
      }
    }

    method DedicatedAcknowledgment() returns (r: Attempt<Packet>)
      requires Valid()
      modifies outgoing
      ensures Valid()
      ensures var p := old(View());
              var ids := Taken(p.pendingAcks, ACK_SET_CAPACITY);
              && (r.Got? <==> |ids| > 0) && View() == p.(pendingAcks := Rest(p.pendingAcks, ACK_SET_CAPACITY))
              && (r.Got? ==> r.value == AckPacket(p, ids))
    {
      hide Index, Rest, Taken, Windowed;
      var ids := outgoing.TakeAcknowledgmentIDs(ACK_SET_CAPACITY);
      assert View() == old(View()).(pendingAcks := Rest(old(outgoing.pending), ACK_SET_CAPACITY));
      if |ids| == 0 {
        r := Nothing;
      } else {
        r := Got(Packet(ACKNOWLEDGMENT_V1, session.keyID, NO_PEER, session.localSessionID, ids,
            session.remoteSessionID, 0, []));
      }
    }

    /** A failed write gives the acknowledgments back, so that sending one leaves nothing changed. */
    method AcknowledgmentNotSent(packet: Packet, ghost before: Peer)
      requires Valid() && |before.pendingAcks| <= ACK_SET_CAPACITY
      requires packet.acknowledgmentIDs == Taken(before.pendingAcks, ACK_SET_CAPACITY)
      requires View() == before.(pendingAcks := Rest(before.pendingAcks, ACK_SET_CAPACITY))
      modifies outgoing
      ensures Valid() && View() == before
    {
      hide Index, Windowed;
      ReturnUndoesTake(before.pendingAcks, ACK_SET_CAPACITY);
      hide Rest, Taken, Returned;
      outgoing.ReturnAcknowledgmentIDs(packet.acknowledgmentIDs);
    }

    /** A soft reset goes to the listener instead, if there is one. */
    method ProcessIncomingControlPacket(packet: Packet) returns (handed: bool)
      requires Valid()
      modifies this, outgoing, incoming
      ensures Valid() && View() == Process(old(View()), packet)
      ensures handed <==>
              listens && packet.opcode == SOFT_RESET_V1 && ValidRemote(old(View()), packet) &&
                  ValidLocal(old(View()), packet)
    {
      handed := false;
      hide Index, Windowed, Noted, AckedAll, Receive;
      if |packet.acknowledgmentIDs| > 0 &&
          (packet.remoteSessionID == NO_SESSION || packet.remoteSessionID != session.localSessionID) {
        return;
      }
      var validLocal := session.hasRemoteSessionID && packet.localSessionID == session.remoteSessionID;
      if IsHardReset(packet.opcode) {
        if packet.keyID == 0 && session.keyID == 0 && validLocal {
          Note(packet);
        }
        return;
      }
      if packet.opcode == SOFT_RESET_V1 {
        if validLocal {
          if listens {
            return true;
          }
          Note(packet);
        }
        return;
      }
      if !validLocal || packet.keyID != session.keyID {
        return;
      }
      Note(packet);
      if packet.opcode == ACKNOWLEDGMENT_V1 || !IsControl(packet.opcode) {
        return;
      }
      Accept(packet);
    }

    method Note(packet: Packet)
      requires Valid()
      modifies outgoing
      ensures Valid() && View() == NoteAcks(old(View()), packet)
    {
      hide Index, Windowed, Noted, AckedAll;
      ReleasedExactly(outgoing.View(), packet.acknowledgmentIDs);
      outgoing.OnIncomingPacket(packet);
    }

    /** Buffers the packet and queues the payloads that are now in order, leaving out empty ones. */
    method Accept(packet: Packet)
      requires Valid()
      modifies this, incoming
      ensures Valid() && View() == ControlChannel.Receive(old(View()), packet)
    {
      hide Index, Windowed, Ready, AfterReady, Admits;
      var inserted := incoming.TryInsertIncomingPacket(packet);
      if !inserted {
        return;
      }
      var ready := incoming.NextOrderedSequence();
      for n := 0 to |ready|
        invariant Valid() && sent == old(sent) && delivered == old(delivered) && readRemainder == old(readRemainder)
        invariant incoming.View() ==
              AfterReady(Incoming(old(incoming.View()).pending[packet.id := packet], old(incoming.View()).last))
        invariant readChunks + NonEmpty(ready[n..]) == old(readChunks) + NonEmpty(ready)
      {
        assert ready[n..][1..] == ready[n + 1..];
        if |ready[n].payload| > 0 {
          assert readChunks + [ready[n].payload] + NonEmpty(ready[n + 1..]) ==
              readChunks + ([ready[n].payload] + NonEmpty(ready[n + 1..]));
          readChunks := readChunks + [ready[n].payload];
        }
      }
    }

    method Read(count: nat) returns (bytes: seq<Byte>)
      requires Valid()
      modifies this
      ensures Valid() && View() == ControlChannel.Read(old(View()), count)
      ensures delivered == old(delivered) + bytes && |bytes| <= count
    {
      hide Index, Windowed;
      while |readRemainder| == 0 && |readChunks| > 0
        invariant Valid() && sent == old(sent) && delivered == old(delivered)
        invariant if old(|readRemainder| == 0 && |readChunks| > 0) && readChunks != old(readChunks)
                  then readRemainder == old(readChunks)[0] && readChunks == old(readChunks)[1..]
                  else readRemainder == old(readRemainder) && readChunks == old(readChunks)
        decreases |readChunks|
      {
        readRemainder, readChunks := readChunks[0], readChunks[1..];
      }
      var n := if count < |readRemainder| then count else |readRemainder|;
      bytes := readRemainder[..n];
      readRemainder := readRemainder[n..];
      delivered := delivered + bytes;
    }
  }

  /** A write that fails on the link reports none of the bytes that stay in the send buffer and are sent again. */
  method FailedWriteIsSent(session: SessionManager, buffer: seq<Byte>)
    returns (totalWritten: nat, outcome: WriteOutcome, ghost sent: seq<Byte>)
    requires session.Valid() && session.hasRemoteSessionID && session.localControlPacketID == 1 && |buffer| > 0
    modifies session
    ensures totalWritten == 0 && outcome == LinkFailed && 0 < |sent| && sent <= buffer
  {
    hide Index, Windowed;
    var channel := new TlsControlChannel(session, [], false);
    var turn := Turn(false, [], false, false);
    ghost var p, wrapping := channel.View(), channel.Wrapped(Unprotected, true);
    ghost var taken;
    totalWritten, outcome, taken := channel.Write(buffer, Unprotected, true, [turn]);
    assert [turn][..0] == [] && ProcessAll(p, []) == p;
    hide OneTurn, PayloadRoom;
    WriteOneMore(p, wrapping, buffer, [turn], 0);
    assert StopsAt(p, wrapping, buffer, [turn], 0, LinkFailed);
    UnreportedChunk(p, wrapping, buffer, [turn], 0);
    ReportedSoFar(p, wrapping, buffer, []);
    ChunkNotEmpty(p, wrapping, buffer);
    assert buffer[0..] == buffer;
    sent := Payloads(channel.sent);
  }

  /**
   A packet built on its own never exceeds the packet size, unless the wrapped
   key alone already does.
   */
  lemma PacketFits(p: Peer, buffer: seq<Byte>, protection: Protection, ipv4: bool, keyLength: nat)
    requires Sized(Built(p, CONTROL_V1, [], ACKS_PER_PACKET)) && |p.pendingAcks| <= ACK_SET_CAPACITY
    ensures var packet := Built(p, CONTROL_V1, Chunk(buffer, PayloadRoom(p, protection, ipv4, keyLength)),
          ACKS_PER_PACKET);
            var carried := if p.options.wrappedKey && p.next == 1 then keyLength else 0;
            && ToBytes(packet).Ok?
            && |ToBytes(packet).value| == HeaderLength(|p.pendingAcks|) + |packet.payload|
            && (FrameOverhead(|p.pendingAcks|, protection, ipv4) + carried <= CONTROL_PAYLOAD_SIZE ==>
                  |ToBytes(packet).value| + ProtectionOverhead(protection) + DatagramOverhead(ipv4) +
                      carried <= CONTROL_PAYLOAD_SIZE)
  {
    hide AckBytes;
  }
}
