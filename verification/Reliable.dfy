/** What the reliable layer does to the packets in flight, the pending acknowledgments and the receive buffer. */
module ReliableSpec {
  import opened Bytes
  import opened PacketCodec

  const SEND_BUFFER_SIZE := 6
  const RECEIVE_BUFFER_SIZE := 12
  const ACKS_PER_PACKET := 4
  const ACK_SET_CAPACITY := 8

  /** A packet awaiting acknowledgment, and how often a later one was acknowledged instead. */
  datatype Tracked = Tracked(packet: Packet, higherAcks: nat)

  type InFlight = map<Uint32, Tracked>

  function Members(ids: seq<Uint32>): set<Uint32> {
    set x | x in ids
  }

  // ---- Sending side ------------------------------------------------------

  function Bumped(t: Tracked, ack: Uint32): Tracked {
    if ack > t.packet.id then t.(higherAcks := t.higherAcks + 1) else t
  }

  /** One acknowledgment releases its packet and counts against the ones before it. */
  function Acked(m: InFlight, ack: Uint32): InFlight {
    map id | id in m && id != ack :: Bumped(m[id], ack)
  }

  function AckedAll(m: InFlight, acks: seq<Uint32>): InFlight {
    if |acks| == 0 then m else Acked(AckedAll(m, acks[..|acks| - 1]), acks[|acks| - 1])
  }

  lemma {:induction false} ReleasedExactly(m: InFlight, acks: seq<Uint32>)
    ensures AckedAll(m, acks).Keys == m.Keys - Members(acks)
    ensures forall id :: id in AckedAll(m, acks) ==> AckedAll(m, acks)[id].packet == m[id].packet
    decreases |acks|
  {
    if |acks| > 0 {
      ReleasedExactly(m, acks[..|acks| - 1]);
    }
  }

  /** A received packet is noted for acknowledgment while the set has room. */
  function Noted(pending: set<Uint32>, packet: Packet): set<Uint32> {
    if packet.opcode != ACKNOWLEDGMENT_V1 && |pending| < ACK_SET_CAPACITY then pending + {packet.id} else pending
  }

  predicate IsLeast(m: Uint32, s: set<Uint32>) {
    m in s && forall x :: x in s ==> m <= x
  }

  function Least(s: set<Uint32>): (m: Uint32)
    requires s != {}
    ensures IsLeast(m, s)
  {
    LeastExists(s);
    var m :| IsLeast(m, s);
    m
  }

  lemma {:induction false} LeastExists(s: set<Uint32>)
    requires s != {}
    ensures exists m :: IsLeast(m, s)
    decreases s
  {
    var y :| y in s;
    var rest := s - {y};
    if rest == {} {
      assert s == {y};
      assert IsLeast(y, s);
    } else {
      LeastExists(rest);
      var m :| IsLeast(m, rest);
      LeastOfTwo(s, y, m);
    }
  }

  lemma LeastOfTwo(s: set<Uint32>, y: Uint32, m: Uint32)
    requires y in s && IsLeast(m, s - {y})
    ensures IsLeast(if m <= y then m else y, s)
  {
    forall x | x in s ensures (if m <= y then m else y) <= x {
      if x != y { assert x in s - {y}; }
    }
  }

  /** The members in ascending order. */
  function Ascending(s: set<Uint32>): (r: seq<Uint32>)
    ensures |r| == |s| && (forall x :: x in r <==> x in s)
    ensures forall i, j :: 0 <= i < j < |r| ==> r[i] < r[j]
    decreases s
  {
    if s == {} then []
    else
      var m := Least(s);
      var rest := Ascending(s - {m});
      LeastFirst(s, m, rest);
      [m] + rest
  }

  lemma LeastFirst(s: set<Uint32>, m: Uint32, rest: seq<Uint32>)
    requires IsLeast(m, s) && |rest| == |s - {m}| && (forall x :: x in rest <==> x in s - {m})
    requires forall i, j :: 0 <= i < j < |rest| ==> rest[i] < rest[j]
    ensures |[m] + rest| == |s| && (forall x :: x in [m] + rest <==> x in s)
    ensures forall i, j :: 0 <= i < j < |[m] + rest| ==> ([m] + rest)[i] < ([m] + rest)[j]
  {
    var all := [m] + rest;
    assert s == {m} + (s - {m});
    forall x ensures x in all <==> x in s { assert x in all <==> x == m || x in rest; }
    forall i, j | 0 <= i < j < |all| ensures all[i] < all[j] {
      assert all[j] == rest[j - 1] && rest[j - 1] in rest;
      if i > 0 { assert all[i] == rest[i - 1]; }
    }
  }

  /** The oldest pending acknowledgments, at most `count` of them. */
  function Taken(pending: set<Uint32>, count: int): (r: seq<Uint32>)
    ensures forall x :: x in r ==> x in pending
    ensures |r| <= |pending|
  {
    if count <= 0 then []
    else if |pending| > count then Ascending(pending)[..count]
    else Ascending(pending)
  }

  function Rest(pending: set<Uint32>, count: int): set<Uint32> {
    pending - Members(Taken(pending, count))
  }

  /** Acknowledgments that were not sent go back, as far as there is room. */
  function Returned(pending: set<Uint32>, ids: seq<Uint32>): (r: set<Uint32>)
    ensures forall x :: x in r ==> x in pending || x in ids
    decreases |ids|
  {
    if |ids| == 0 then pending
    else if ids[0] !in pending && |pending| >= ACK_SET_CAPACITY then pending
    else Returned(pending + {ids[0]}, ids[1..])
  }

  /** Taking acknowledgments and giving them back changes nothing. */
  lemma ReturnUndoesTake(pending: set<Uint32>, count: int)
    requires |pending| <= ACK_SET_CAPACITY
    ensures Returned(Rest(pending, count), Taken(pending, count)) == pending
  {
    hide Returned;
    var taken := Taken(pending, count);
    var rest := Rest(pending, count);
    assert forall i, j :: 0 <= i < j < |taken| ==> taken[i] != taken[j];
    var ids := Members(taken);
    assert rest + ids == pending;
    DistinctCount(taken);
    assert |pending| == |rest| + |ids|;
    ReturnAdds(rest, taken);
  }

  lemma {:induction false} DistinctCount(ids: seq<Uint32>)
    requires forall i, j :: 0 <= i < j < |ids| ==> ids[i] != ids[j]
    ensures |Members(ids)| == |ids|
  {
    if |ids| == 0 {
      assert Members(ids) == {};
    } else {
      DistinctCount(ids[1..]);
      assert Members(ids) == {ids[0]} + Members(ids[1..]);
      assert ids[0] !in ids[1..];
    }
  }

  lemma {:induction false} ReturnAdds(pending: set<Uint32>, ids: seq<Uint32>)
    requires forall i, j :: 0 <= i < j < |ids| ==> ids[i] != ids[j]
    requires forall i :: 0 <= i < |ids| ==> ids[i] !in pending
    requires |pending| + |ids| <= ACK_SET_CAPACITY
    ensures Returned(pending, ids) == pending + Members(ids)
    decreases |ids|
  {
    if |ids| > 0 {
      ReturnAdds(pending + {ids[0]}, ids[1..]);
    }
  }

  // ---- Receiving side ----------------------------------------------------

  /** Packets received out of order, and the last one handed on. */
  datatype Incoming = Incoming(pending: map<Uint32, Packet>, last: Uint32)

  const NOTHING_RECEIVED := Incoming(map[], 0)

  function Following(id: Uint32): Uint32 {
    (id + 1) % 0x1_0000_0000
  }

  /** New, in the window, and not yet buffered. */
  predicate Admits(i: Incoming, id: Uint32) {
    && id > i.last && id !in i.pending
    && (id - Following(i.last)) % 0x1_0000_0000 < RECEIVE_BUFFER_SIZE
    && |i.pending| < RECEIVE_BUFFER_SIZE
  }

  /** The run of packets that follows the last one handed on. */
  function Ready(i: Incoming): (r: seq<Packet>)
    decreases i.pending
  {
    if Following(i.last) in i.pending && i.last < MAX_UINT32 then
      [i.pending[i.last + 1]] + Ready(Consumed(i))
    else []
  }

  function Consumed(i: Incoming): (r: Incoming)
    requires i.last < MAX_UINT32 && Following(i.last) in i.pending
    ensures r.pending.Keys < i.pending.Keys
  {
    assert Following(i.last) == i.last + 1;
    Incoming(i.pending - {i.last + 1}, i.last + 1)
  }

  function AfterReady(i: Incoming): (r: Incoming)
    decreases i.pending
  {
    if Following(i.last) in i.pending && i.last < MAX_UINT32 then AfterReady(Consumed(i)) else i
  }

  /** The buffered packets lie in the window and the next expected one is not among them. */
  ghost predicate Windowed(i: Incoming) {
    forall id :: id in i.pending ==> i.last < id <= i.last + RECEIVE_BUFFER_SIZE && i.pending[id].id == id
  }

  ghost predicate Settled(i: Incoming) {
    Windowed(i) && (i.last < MAX_UINT32 ==> i.last + 1 !in i.pending)
  }

  /** The numbers after `last`, `n` of them. */
  function Window(last: int, n: nat): (w: set<int>)
    ensures |w| == n && forall x :: x in w <==> last < x <= last + n
  {
    if n == 0 then {} else Window(last, n - 1) + {last + n}
  }

  lemma WindowCount(i: Incoming, id: Uint32)
    requires Settled(i) && i.last < id <= i.last + RECEIVE_BUFFER_SIZE && id !in i.pending
    ensures |i.pending| < RECEIVE_BUFFER_SIZE
  {
    var keys: set<int> := i.pending.Keys;
    var window := Window(i.last, RECEIVE_BUFFER_SIZE);
    assert keys < window by { assert id in window; }
    assert window == keys + (window - keys);
    assert |i.pending| == |keys|;
  }

  /** In a settled buffer, a new packet is admitted exactly when it is less than twelve past the next expected one. */
  lemma AdmitsExactly(i: Incoming, id: Uint32)
    requires Settled(i)
    ensures Admits(i, id) <==> id > i.last && id !in i.pending && id < i.last + 1 + RECEIVE_BUFFER_SIZE
  {
    if i.last < id <= i.last + RECEIVE_BUFFER_SIZE && id !in i.pending {
      WindowCount(i, id);
    }
  }

  /** There is a packet to hand on next. */
  predicate HasNext(i: Incoming) {
    i.last < MAX_UINT32 && Following(i.last) in i.pending
  }

  /** What handing on one packet does to the ready run and to what is left. */
  lemma ReadyStep(i: Incoming)
    requires HasNext(i)
    ensures var c := Consumed(i);
            && i.last + 1 in i.pending && c.last == i.last + 1 && c.pending == i.pending - {i.last + 1}
            && Ready(i) == [i.pending[i.last + 1]] + Ready(c) && AfterReady(i) == AfterReady(c)
  {
  }

  lemma ReadyStops(i: Incoming)
    requires !HasNext(i)
    ensures Ready(i) == [] && AfterReady(i) == i
  {
  }

  lemma ConsumedIsWindowed(i: Incoming)
    requires Windowed(i) && HasNext(i)
    ensures Windowed(Consumed(i))
  {
  }

  lemma {:induction false} ReadyAt(i: Incoming, k: nat)
    requires k < |Ready(i)|
    ensures i.last + 1 + k in i.pending && Ready(i)[k] == i.pending[i.last + 1 + k]
    decreases k
  {
    hide Ready, AfterReady, Consumed, HasNext;
    if !HasNext(i) {
      ReadyStops(i);
    } else {
      ReadyStep(i);
      if k > 0 {
        var c := Consumed(i);
        assert Ready(i)[k] == Ready(c)[k - 1];
        ReadyAt(c, k - 1);
        assert c.last + 1 + (k - 1) == i.last + 1 + k;
      }
    }
  }

  lemma {:induction false} ReadyMoves(i: Incoming)
    requires Windowed(i)
    ensures Settled(AfterReady(i)) && |Ready(i)| == AfterReady(i).last - i.last
    decreases i.pending.Keys
  {
    hide Ready, AfterReady, Consumed;
    if HasNext(i) {
      ReadyStep(i);
      hide HasNext;
      ConsumedIsWindowed(i);
      hide Windowed, Settled;
      ReadyMoves(Consumed(i));
    } else {
      ReadyStops(i);
    }
  }

  lemma {:induction false} ReadyKeeps(i: Incoming, id: Uint32)
    requires i.last <= AfterReady(i).last
    ensures id in AfterReady(i).pending ==> id in i.pending && AfterReady(i).pending[id] == i.pending[id]
    ensures id in i.pending ==> id <= AfterReady(i).last || id in AfterReady(i).pending
    decreases i.pending.Keys
  {
    hide Ready, AfterReady, Consumed, HasNext;
    if HasNext(i) {
      ReadyStep(i);
      ReadyGoesOn(Consumed(i));
      ReadyKeeps(Consumed(i), id);
    } else {
      ReadyStops(i);
    }
  }

  lemma {:induction false} ReadyGoesOn(i: Incoming)
    ensures i.last <= AfterReady(i).last
    decreases i.pending.Keys
  {
    hide Ready, AfterReady, Consumed, HasNext;
    if HasNext(i) {
      ReadyStep(i);
      ReadyGoesOn(Consumed(i));
    } else {
      ReadyStops(i);
    }
  }

  /** The ready run is the packets from the next expected ID on, one for each ID. */
  ghost predicate RunOf(run: seq<Packet>, i: Incoming, last: Uint32) {
    && |run| == last - i.last
    && forall id :: i.last < id <= last ==> id in i.pending && run[id - i.last - 1] == i.pending[id]
  }

  /** What stays is buffered as before, and nothing past the run is lost. */
  ghost predicate Remains(after: Incoming, i: Incoming) {
    && (forall id :: id in after.pending ==> id in i.pending && after.pending[id] == i.pending[id])
    && (forall id :: id in i.pending ==> id <= after.last || id in after.pending)
  }

  lemma ReadyHolds(i: Incoming, run: seq<Packet>, id: Uint32)
    requires run == Ready(i) && i.last < id <= i.last + |run|
    ensures id in i.pending && run[id - i.last - 1] == i.pending[id]
  {
    hide Ready;
    ReadyAt(i, id - i.last - 1);
  }

  lemma ReadyIsRun(i: Incoming, run: seq<Packet>, last: Uint32)
    requires run == Ready(i) && |run| == last - i.last
    ensures RunOf(run, i, last)
  {
    hide Ready;
    forall id: Uint32 | i.last < id <= last ensures id in i.pending && run[id - i.last - 1] == i.pending[id] {
      ReadyHolds(i, run, id);
    }
  }

  lemma ReadyRemains(i: Incoming, after: Incoming)
    requires after == AfterReady(i) && i.last <= after.last
    ensures Remains(after, i)
  {
    hide AfterReady;
    forall id: Uint32 | id in after.pending ensures id in i.pending && after.pending[id] == i.pending[id] {
      ReadyKeeps(i, id);
    }
    forall id: Uint32 | id in i.pending ensures id <= after.last || id in after.pending {
      ReadyKeeps(i, id);
    }
  }

  /** Handing on the ready run moves the last ID past it and settles the buffer. */
  lemma ReadySettles(i: Incoming)
    requires Windowed(i)
    ensures Settled(AfterReady(i)) && i.last <= AfterReady(i).last
    ensures RunOf(Ready(i), i, AfterReady(i).last) && Remains(AfterReady(i), i)
  {
    hide Windowed, Settled, RunOf, Remains, Consumed, Following;
    ReadyMoves(i);
    ReadyGoesOn(i);
    ReadyIsRun(i, Ready(i), AfterReady(i).last);
    ReadyRemains(i, AfterReady(i));
  }
}
