/** The reliable layer as it runs: slices, swaps and sorts, refining the specification on maps and sets. */
module ReliableState {
  import opened Bytes
  import opened PacketCodec
  import opened ReliableSpec
  import opened ById
  import opened Collections

  function TrackedID(t: Tracked): Uint32 { t.packet.id }

  function PacketID(p: Packet): Uint32 { p.id }

  function Itself(id: Uint32): Uint32 { id }

  // ---- Session -----------------------------------------------------------

  datatype Attempt<+T> = Got(value: T) | Nothing | InvalidOpcode | PacketIDExpired | MissingRemoteSession

  function NextKeyID(keyID: Byte): (next: Byte)
    ensures keyID <= KEY_ID_MAX ==> 1 <= next <= KEY_ID_MAX
    ensures next != keyID
  {
    if keyID >= KEY_ID_MAX then 1
    else
      var n := (keyID + 1) % 256;
      if n == 0 then 1 else n
  }

  class SessionManager {
    const keyID: nat
    const localSessionID: seq<Byte>
    var remoteSessionID: seq<Byte>
    var hasRemoteSessionID: bool
    var localControlPacketID: Uint32
    var localDataPacketID: Uint32

    ghost predicate Valid()
      reads this
    {
      localControlPacketID > 0 && localDataPacketID > 0 && (!hasRemoteSessionID ==> remoteSessionID == NO_SESSION)
    }

    constructor (localSessionID: seq<Byte>)
      ensures Valid() && keyID == 0 && this.localSessionID == localSessionID && !hasRemoteSessionID
      ensures localControlPacketID == 1 && localDataPacketID == 1
    {
      keyID := 0;
      this.localSessionID := localSessionID;
      remoteSessionID := NO_SESSION;
      hasRemoteSessionID := false;
      localControlPacketID := 1;
      localDataPacketID := 1;
    }

    /** A soft reset keeps both session IDs and starts all packet IDs afresh. */
    constructor Renegotiated(origin: SessionManager, keyID: nat)
      requires origin.Valid()
      ensures Valid() && this.keyID == keyID && localSessionID == origin.localSessionID
      ensures hasRemoteSessionID == origin.hasRemoteSessionID && remoteSessionID == origin.remoteSessionID
      ensures localControlPacketID == 1 && localDataPacketID == 1
    {
      this.keyID := keyID;
      localSessionID := origin.localSessionID;
      hasRemoteSessionID := origin.hasRemoteSessionID;
      remoteSessionID := if origin.hasRemoteSessionID then origin.remoteSessionID else NO_SESSION;
      localControlPacketID := 1;
      localDataPacketID := 1;
    }

    method NewControlPacket(opcode: nat, payload: seq<Byte>) returns (r: Attempt<Packet>)
      requires Valid()
      modifies this
      ensures r != Nothing
      ensures Valid() && hasRemoteSessionID == old(hasRemoteSessionID) && remoteSessionID == old(remoteSessionID)
      ensures localDataPacketID == old(localDataPacketID)
      ensures r.Got? <==> IsControl(opcode) && old(localControlPacketID) < MAX_UINT32
      ensures r.Got? ==>
                r.value == Packet(opcode, keyID, NO_PEER, localSessionID, [], remoteSessionID,
                    old(localControlPacketID), payload)
      ensures localControlPacketID == old(localControlPacketID) + if r.Got? then 1 else 0
    {
      if !IsControl(opcode) {
        return InvalidOpcode;
      }
      if localControlPacketID == MAX_UINT32 {
        return PacketIDExpired;
      }
      var id := localControlPacketID;
      localControlPacketID := localControlPacketID + 1;
      var remote := if hasRemoteSessionID then remoteSessionID else NO_SESSION;
      r := Got(Packet(opcode, keyID, NO_PEER, localSessionID, [], remote, id, payload));
    }

    /** A block of consecutive IDs, all of them or none. */
    method NewDataPacketIDs(opcode: nat, count: int) returns (r: Attempt<seq<Uint32>>)
      requires Valid()
      modifies this
      ensures Valid() && hasRemoteSessionID == old(hasRemoteSessionID) && remoteSessionID == old(remoteSessionID)
      ensures localControlPacketID == old(localControlPacketID)
      ensures r.Got? <==> IsData(opcode) && 0 < count <= MAX_UINT32 - old(localDataPacketID)
      ensures r.Got? ==> |r.value| == count && forall i :: 0 <= i < count ==> r.value[i] == old(localDataPacketID) + i
      ensures localDataPacketID == old(localDataPacketID) + if r.Got? then count else 0
    {
      if !IsData(opcode) {
        return InvalidOpcode;
      }
      if count == 0 {
        return Nothing;
      }
      if count < 0 || count > MAX_UINT32 - localDataPacketID {
        return PacketIDExpired;
      }
      var first := localDataPacketID;
      localDataPacketID := localDataPacketID + count;
      var ids: seq<Uint32> := [];
      for i := 0 to count
        invariant |ids| == i && forall j :: 0 <= j < i ==> ids[j] == first + j
      {
        ids := ids + [first + i];
      }
      r := Got(ids);
    }
  }

  // ---- Sending side ------------------------------------------------------

  /** Any order in which a map is walked gives the same sorted list. */
  method SortedIDs(pending: set<Uint32>) returns (ids: seq<Uint32>)
    ensures ids == Ascending(pending)
  {
    hide Sort, Ascending;
    ids := [];
    var rest := pending;
    while rest != {}
      invariant rest <= pending && Sorting.Distinct(ids, Itself)
      invariant forall x :: x in ids <==> x in pending - rest
      decreases rest
    {
      var x :| x in rest;
      forall i | 0 <= i < |ids| ensures ids[i] != x { assert ids[i] in ids; }
      ids := ids + [x];
      rest := rest - {x};
    }
    SortedIsAscending(pending, ids);
    ids := Sort(ids, Itself);
  }

  lemma SortedIsAscending(pending: set<Uint32>, ids: seq<Uint32>)
    requires Sorting.Distinct(ids, Itself) && forall x :: x in ids <==> x in pending
    ensures Sort(ids, Itself) == Ascending(pending)
  {
    hide Sort, Ascending, Sorting.Distinct;
    SortAscends(ids, Itself);
    var sorted, all := Sort(ids, Itself), Ascending(pending);
    AscendingAscends(pending);
    assert forall x :: x in sorted <==> x in all;
    hide Ascends;
    AscendingIsUnique(sorted, all, Itself);
  }

  lemma AscendingAscends(pending: set<Uint32>)
    ensures Ascends(Ascending(pending), Itself) && forall x :: x in Ascending(pending) <==> x in pending
  {
    hide Least;
    var all := Ascending(pending);
    hide Ascending;
    AscendsByKey(all, Itself);
  }

  class OutgoingReliableState {
    var inFlight: seq<Tracked>
    var pending: set<Uint32>

    ghost predicate Valid()
      reads this
    {
      |inFlight| <= SEND_BUFFER_SIZE && Sorting.Distinct(inFlight, TrackedID) && |pending| <= ACK_SET_CAPACITY
    }

    ghost function View(): InFlight
      reads this
    {
      Index(inFlight, TrackedID)
    }

    constructor ()
      ensures Valid() && View() == map[] && pending == {}
    {
      inFlight, pending := [], {};
    }

    method TakeAcknowledgmentIDs(maximumCount: int) returns (ids: seq<Uint32>)
      requires Valid()
      modifies `pending
      ensures Valid()
      ensures ids == Taken(old(pending), maximumCount) && pending == Rest(old(pending), maximumCount)
    {
      hide Ascending;
      if maximumCount <= 0 || |pending| == 0 {
        ids := [];
        assert |Taken(pending, maximumCount)| == 0;
        assert pending - Members([]) == pending;
        return;
      }
      ids := SortedIDs(pending);
      if |ids| > maximumCount {
        ids := ids[..maximumCount];
      }
      assert ids == Taken(old(pending), maximumCount);
      Forget(ids);
    }

    method Forget(ids: seq<Uint32>)
      requires Valid()
      modifies `pending
      ensures Valid() && pending == old(pending) - Members(ids)
    {
      for n := 0 to |ids|
        invariant pending == old(pending) - Members(ids[..n])
      {
        assert Members(ids[..n + 1]) == Members(ids[..n]) + {ids[n]};
        pending := pending - {ids[n]};
      }
      assert ids[..|ids|] == ids;
      Fewer(pending, old(pending));
    }

    method ReturnAcknowledgmentIDs(ids: seq<Uint32>)
      requires Valid()
      modifies `pending
      ensures Valid() && pending == Returned(old(pending), ids)
    {
      for n := 0 to |ids|
        invariant |pending| <= ACK_SET_CAPACITY && Returned(pending, ids[n..]) == Returned(old(pending), ids)
      {
        assert ids[n..][1..] == ids[n + 1..];
        if ids[n] !in pending && |pending| >= ACK_SET_CAPACITY {
          return;
        }
        assert ids[n] in pending ==> pending + {ids[n]} == pending;
        pending := pending + {ids[n]};
      }
    }

    /** All or nothing: a slot, an ID and the acknowledgments, or no change at all. */
    method InsertOutgoingPacket(session: SessionManager, opcode: nat, payload: seq<Byte>, maximumCount: int)
      returns (r: Attempt<Packet>)
      requires Valid() && session.Valid()
      modifies this, session
      ensures session.Valid() && session.hasRemoteSessionID == old(session.hasRemoteSessionID)
      ensures session.remoteSessionID == old(session.remoteSessionID)
      ensures r.Got? <==>
              && old(|inFlight|) < SEND_BUFFER_SIZE && IsControl(opcode)
              && old(session.localControlPacketID) < MAX_UINT32
      ensures r == Nothing <==> old(|inFlight|) >= SEND_BUFFER_SIZE
      ensures r.Got? ==>
                && r.value == Packet(opcode, session.keyID, NO_PEER, session.localSessionID,
                      Taken(old(pending), maximumCount),
                                     session.remoteSessionID, old(session.localControlPacketID), payload)
                && inFlight == Sort(old(inFlight) + [Tracked(r.value, 0)], TrackedID)
                && pending == Rest(old(pending), maximumCount)
                && session.localControlPacketID == old(session.localControlPacketID) + 1
      ensures r.Got? && r.value.id !in old(View()) ==>
                Valid() && View() == old(View())[r.value.id := Tracked(r.value, 0)]
      ensures !r.Got? ==>
                && Valid() && inFlight == old(inFlight) && pending == old(pending)
                && session.localControlPacketID == old(session.localControlPacketID)
    {
      hide Index, Sort, Taken, Rest, IsControl;
      if |inFlight| >= SEND_BUFFER_SIZE {
        return Nothing;
      }
      var ids := TakeAcknowledgmentIDs(maximumCount);
      var built := session.NewControlPacket(opcode, payload);
      if !built.Got? {
        ReturnUndoesTake(old(pending), maximumCount);
        ReturnAcknowledgmentIDs(ids);
        return built;
      }
      var packet := built.value.(acknowledgmentIDs := ids);
      if packet.id !in View() {
        AppendIndex(inFlight, Tracked(packet, 0), TrackedID);
        SortKeepsIndex(inFlight + [Tracked(packet, 0)], TrackedID);
      }
      inFlight := Sort(inFlight + [Tracked(packet, 0)], TrackedID);
      r := Got(packet);
    }

    /** One acknowledgment: its packet leaves by swapping with the last, the earlier ones are counted. */
    method Acknowledge(ack: Uint32)
      requires Valid()
      modifies `inFlight
      ensures Valid() && View() == Acked(old(View()), ack)
    {
      hide Halfway, Index, Acked;
      ghost var m := View();
      StartWalk(inFlight, ack);
      var i := 0;
      while i < |inFlight|
        invariant |inFlight| <= SEND_BUFFER_SIZE && 0 <= i <= |inFlight| && Halfway(inFlight, m, ack, i)
        decreases |inFlight| - i
      {
        var tracked := inFlight[i];
        if tracked.packet.id == ack {
          WalkRemoves(inFlight, m, ack, i);
          inFlight := SwapRemove(inFlight, i);
        } else {
          WalkCounts(inFlight, m, ack, i);
          inFlight := inFlight[i := if ack > tracked.packet.id then
              tracked.(higherAcks := tracked.higherAcks + 1) else tracked];
          i := i + 1;
        }
      }
      EndWalk(inFlight, m, ack);
    }

    method OnIncomingPacket(packet: Packet)
      requires Valid()
      modifies this
      ensures Valid()
      ensures View() == AckedAll(old(View()), packet.acknowledgmentIDs) && pending == Noted(old(pending), packet)
    {
      if packet.opcode != ACKNOWLEDGMENT_V1 && |pending| < ACK_SET_CAPACITY {
        pending := pending + {packet.id};
      }
      var acks := packet.acknowledgmentIDs;
      for n := 0 to |acks|
        invariant Valid() && pending == Noted(old(pending), packet)
        invariant View() == AckedAll(old(View()), acks[..n])
      {
        assert acks[..n + 1][..n] == acks[..n];
        Acknowledge(acks[n]);
      }
      assert acks[..|acks|] == acks;
      SortKeepsIndex(inFlight, TrackedID);
      inFlight := Sort(inFlight, TrackedID);
    }
  }

  /** The walk has passed the first `i` packets; the rest are as they were. */
  ghost predicate Halfway(s: seq<Tracked>, m: InFlight, ack: Uint32, i: nat) {
    && Sorting.Distinct(s, TrackedID)
    && m.Keys - {ack} <= Index(s, TrackedID).Keys
    && (forall k :: 0 <= k < |s| ==> TrackedID(s[k]) in m)
    && (forall k :: 0 <= k < i && k < |s| ==> TrackedID(s[k]) != ack && s[k] == Bumped(m[TrackedID(s[k])], ack))
    && (forall k :: i <= k < |s| ==> s[k] == m[TrackedID(s[k])])
  }

  lemma StartWalk(s: seq<Tracked>, ack: Uint32)
    requires Sorting.Distinct(s, TrackedID)
    ensures Halfway(s, Index(s, TrackedID), ack, 0)
  {
    Indexed(s, TrackedID);
  }

  lemma WalkRemoves(s: seq<Tracked>, m: InFlight, ack: Uint32, i: nat)
    requires Halfway(s, m, ack, i) && i < |s| && TrackedID(s[i]) == ack
    ensures Halfway(SwapRemove(s, i), m, ack, i)
  {
    hide Index;
    RemoveIndex(s, i, TrackedID);
    var t := SwapRemove(s, i);
    assert forall k :: 0 <= k < |t| ==> t[k] == if k == i then s[|s| - 1] else s[k];
  }

  lemma WalkCounts(s: seq<Tracked>, m: InFlight, ack: Uint32, i: nat)
    requires Halfway(s, m, ack, i) && i < |s| && TrackedID(s[i]) != ack
    ensures Halfway(s[i := Bumped(s[i], ack)], m, ack, i + 1)
  {
    hide Index;
    UpdateIndex(s, i, Bumped(s[i], ack), TrackedID);
  }

  lemma EndWalk(s: seq<Tracked>, m: InFlight, ack: Uint32)
    requires Halfway(s, m, ack, |s|)
    ensures Sorting.Distinct(s, TrackedID) && Index(s, TrackedID) == Acked(m, ack)
  {
    hide Index;
    Indexed(s, TrackedID);
    var n := Index(s, TrackedID);
    forall id | id in n ensures id in m && id != ack && n[id] == Bumped(m[id], ack) {
      var k :| 0 <= k < |s| && s[k] == n[id];
    }
  }

  // ---- Receiving side ----------------------------------------------------

  lemma AdmitsIf(i: Incoming, id: Uint32)
    ensures Admits(i, id) <==>
            && !(id <= i.last || id in i.pending)
            && !((id - (i.last + 1) % 0x1_0000_0000) % 0x1_0000_0000 >= RECEIVE_BUFFER_SIZE)
            && !(|i.pending| >= RECEIVE_BUFFER_SIZE)
  {
  }

  lemma AdmittedIsWindowed(i: Incoming, packet: Packet)
    requires Windowed(i) && Admits(i, packet.id)
    ensures Windowed(Incoming(i.pending[packet.id := packet], i.last))
  {
  }

  /** Of the first `n` packets the first `k` follow on `last`, and the one after them does not. */
  ghost predicate Leads(s: seq<Packet>, last: Uint32, k: nat, n: nat) {
    && k <= n <= |s| && last + k <= MAX_UINT32
    && (forall j :: 0 <= j < k ==> s[j].id == last + 1 + j)
    && (k < n ==> s[k].id > last + k + 1)
  }

  lemma FirstIsNew(s: seq<Packet>, last: Uint32)
    requires Ascends(s, PacketID) && Windowed(Incoming(Index(s, PacketID), last))
    ensures |s| > 0 ==> s[0].id > last
  {
    hide Index;
    Indexed(s, PacketID);
  }

  lemma StartLead(s: seq<Packet>, last: Uint32)
    ensures Leads(s, last, 0, 0)
  {
  }

  function IDs(s: seq<Packet>): set<Uint32> {
    set p | p in s :: p.id
  }

  lemma LeadsOn(s: seq<Packet>, last: Uint32, k: nat, n: nat)
    requires Ascends(s, PacketID) && Leads(s, last, k, n) && n < |s| && s[0].id > last
    ensures last + k + 1 <= s[n].id
    ensures if s[n].id == last + k + 1 then k == n && Leads(s, last, n + 1, n + 1) else Leads(s, last, k, n + 1)
  {
    if 0 < k { assert PacketID(s[k - 1]) == last + k; }
    if k < n { assert PacketID(s[k]) < PacketID(s[n]); }
    else if 0 < n { assert PacketID(s[n - 1]) < PacketID(s[n]); }
  }

  lemma NoneReady(s: seq<Packet>, last: Uint32)
    requires Ascends(s, PacketID) && Leads(s, last, 0, |s|)
    ensures last < MAX_UINT32 ==> last + 1 !in Index(s, PacketID)
  {
    hide Index;
    Indexed(s, PacketID);
    forall j | 0 <= j < |s| ensures s[j].id > last + 1 {
      if j > 0 { assert PacketID(s[0]) < PacketID(s[j]); }
    }
  }

  lemma LeadsTail(s: seq<Packet>, last: Uint32, k: nat)
    requires Ascends(s, PacketID) && Leads(s, last, k, |s|) && k > 0
    ensures |s| > 0 && s[0].id == last + 1 && k <= |s|
    ensures Ascends(s[1..], PacketID) && Leads(s[1..], last + 1, k - 1, |s| - 1)
  {
    var rest := s[1..];
    assert forall j :: 0 <= j < |rest| ==> rest[j] == s[j + 1];
  }

  lemma ConsumesFirst(s: seq<Packet>, last: Uint32)
    requires Ascends(s, PacketID) && |s| > 0 && PacketID(s[0]) == last + 1
    ensures var i := Incoming(Index(s, PacketID), last);
            && last < MAX_UINT32 && Following(last) == last + 1 && last + 1 in i.pending && i.pending[last + 1] == s[0]
            && Consumed(i) == Incoming(Index(s[1..], PacketID), last + 1)
  {
    hide Index;
    DropFirst(s, PacketID);
    Indexed(s, PacketID);
    hide Sorting.Distinct, Ascends;
  }

  /** In a sorted buffer, what is ready is the leading run of consecutive IDs. */
  lemma {:induction false} ReadyIsTheLeadingRun(s: seq<Packet>, last: Uint32, k: nat)
    requires Ascends(s, PacketID) && Leads(s, last, k, |s|)
    ensures Ready(Incoming(Index(s, PacketID), last)) == s[..k]
    ensures AfterReady(Incoming(Index(s, PacketID), last)) == Incoming(Index(s[k..], PacketID), last + k)
    decreases k
  {
    hide Index, Ascends, Leads;
    if k == 0 {
      assert s[0..] == s;
      NoneReady(s, last);
    } else {
      LeadsTail(s, last, k);
      ConsumesFirst(s, last);
      var rest := s[1..];
      ReadyIsTheLeadingRun(rest, last + 1, k - 1);
      assert rest[k - 1..] == s[k..];
      assert s[..k] == [s[0]] + rest[..k - 1];
    }
  }

  lemma BufferedAfter(s: seq<Packet>, k: nat)
    requires Ascends(s, PacketID) && k <= |s|
    ensures Sorting.Distinct(s[k..], PacketID)
    ensures Index(s[k..], PacketID).Keys == Index(s, PacketID).Keys - IDs(s[..k])
    decreases k
  {
    if k > 0 {
      BufferedAfter(s, k - 1);
      var t := s[k - 1..];
      RestAscends(s, k - 1);
      DropFirst(t, PacketID);
      assert t[1..] == s[k..];
      OneMoreID(s, k);
      hide Index, IDs, Ascends, Sorting.Distinct;
    } else {
      assert s[0..] == s;
      RestAscends(s, 0);
      DistinctIfAscending(s);
      hide Index, Ascends;
      assert IDs(s[..0]) == {};
    }
  }

  lemma RestAscends(s: seq<Packet>, k: nat)
    requires Ascends(s, PacketID) && k <= |s|
    ensures Ascends(s[k..], PacketID)
  {
  }

  lemma DistinctIfAscending(s: seq<Packet>)
    requires Ascends(s, PacketID)
    ensures Sorting.Distinct(s, PacketID)
  {
    forall i, j | 0 <= i < j < |s| ensures PacketID(s[i]) != PacketID(s[j]) {
      assert Wide(PacketID)(s[i]) < Wide(PacketID)(s[j]);
    }
  }

  lemma OneMoreID(s: seq<Packet>, k: nat)
    requires 0 < k <= |s|
    ensures IDs(s[..k]) == IDs(s[..k - 1]) + {PacketID(s[k - 1])}
  {
    assert s[..k] == s[..k - 1] + [s[k - 1]];
  }

  lemma HandsOn(s: seq<Packet>, last: Uint32, k: nat)
    requires Ascends(s, PacketID) && Leads(s, last, k, |s|) && Windowed(Incoming(Index(s, PacketID), last))
    ensures k <= |s| && last + k <= MAX_UINT32 && Sorting.Distinct(s[k..], PacketID)
    ensures var i, after := Incoming(Index(s, PacketID), last), Incoming(Index(s[k..], PacketID), last + k);
            && Ready(i) == s[..k] && AfterReady(i) == after && Windowed(after)
            && after.pending.Keys == i.pending.Keys - IDs(s[..k])
  {
    hide Index, Ready, AfterReady, Windowed;
    ReadyIsTheLeadingRun(s, last, k);
    BufferedAfter(s, k);
    hide IDs, Ascends;
    ReadySettles(Incoming(Index(s, PacketID), last));
  }

  class IncomingReliableState {
    var pendingPackets: seq<Packet>
    var bufferedID: set<Uint32>
    var lastConsumedID: Uint32

    ghost function View(): Incoming
      reads this
    {
      Incoming(Index(pendingPackets, PacketID), lastConsumedID)
    }

    ghost predicate Valid()
      reads this
    {
      Sorting.Distinct(pendingPackets, PacketID) && Windowed(View()) && bufferedID == View().pending.Keys
    }

    constructor ()
      ensures Valid() && View() == NOTHING_RECEIVED
    {
      pendingPackets, bufferedID, lastConsumedID := [], {}, 0;
    }

    method TryInsertIncomingPacket(packet: Packet) returns (inserted: bool)
      requires Valid()
      modifies this
      ensures Valid() && inserted == Admits(old(View()), packet.id)
      ensures View() == if inserted then Incoming(old(View()).pending[packet.id := packet], old(View()).last)
            else old(View())
    {
      hide Index, Windowed, Sorting.Distinct, Admits;
      Indexed(pendingPackets, PacketID);
      AdmitsIf(View(), packet.id);
      if packet.id <= lastConsumedID || packet.id in bufferedID {
        return false;
      }
      var nextExpectedID := (lastConsumedID + 1) % 0x1_0000_0000;
      if (packet.id - nextExpectedID) % 0x1_0000_0000 >= RECEIVE_BUFFER_SIZE {
        return false;
      }
      if |pendingPackets| >= RECEIVE_BUFFER_SIZE {
        return false;
      }
      AppendIndex(pendingPackets, packet, PacketID);
      AdmittedIsWindowed(View(), packet);
      pendingPackets := pendingPackets + [packet];
      bufferedID := bufferedID + {packet.id};
      return true;
    }

    /** Hands on the packets that are now in order and keeps the rest. */
    method NextOrderedSequence() returns (ready: seq<Packet>)
      requires Valid()
      modifies this
      ensures Valid() && ready == Ready(old(View())) && View() == AfterReady(old(View()))
    {
      hide Index, Leads, Windowed, Ascends, Sorting.Distinct, Ready, AfterReady, IDs, Sort;
      SortKeepsIndex(pendingPackets, PacketID);
      var sorted := Sort(pendingPackets, PacketID);
      var retained, last;
      ready, retained, last := Walk(sorted, lastConsumedID);
      HandsOn(sorted, lastConsumedID, |ready|);
      pendingPackets, lastConsumedID := retained, last;
    }

    method Walk(sorted: seq<Packet>, start: Uint32) returns (ready: seq<Packet>, retained: seq<Packet>, last: Uint32)
      requires Ascends(sorted, PacketID) && Windowed(Incoming(Index(sorted, PacketID), start))
      modifies `bufferedID
      ensures Leads(sorted, start, |ready|, |sorted|) && last == start + |ready|
      ensures ready == sorted[..|ready|] && retained == sorted[|ready|..]
      ensures bufferedID == old(bufferedID) - IDs(ready)
    {
      hide Index, Leads, Ascends;
      FirstIsNew(sorted, start);
      hide Windowed;
      ready, retained, last := [], [], start;
      StartLead(sorted, start);
      for n := 0 to |sorted|
        invariant |ready| <= n && last == start + |ready| && Leads(sorted, start, |ready|, n)
        invariant ready == sorted[..|ready|] && retained == sorted[|ready|..n]
        invariant bufferedID == old(bufferedID) - IDs(ready)
      {
        var packet := sorted[n];
        LeadsOn(sorted, start, |ready|, n);
        var next := (last + 1) % 0x1_0000_0000;
        if packet.id == next {
          assert IDs(ready + [packet]) == IDs(ready) + {packet.id};
          ready := ready + [packet];
          bufferedID := bufferedID - {packet.id};
          last := packet.id;
        } else if packet.id > next {
          retained := retained + [packet];
        }
      }
    }
  }
}
