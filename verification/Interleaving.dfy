/** Fragments of many packets, arriving in any order. */
module Interleaving {
  import opened Arithmetic
  import opened Bytes
  import opened FragmentHeader
  import opened Reassembly

  /** A framed packet and the fragment size it is cut to. */
  datatype Message = Message(framed: seq<Byte>, size: nat)

  /** Where fragment `j` starts, or the end of the packet. */
  function Cut(m: Message, j: nat): (c: nat)
    ensures c <= |m.framed|
  {
    if j * m.size < |m.framed| then j * m.size else |m.framed|
  }

  predicate CutOff(m: Message, last: nat) {
    last * m.size < |m.framed| <= (last + 1) * m.size
  }

  /** A packet that is cut into `last + 1` fragments. */
  predicate Fragmentable(m: Message, last: nat) {
    && m.size > 0 && m.size % 4 == 0
    && m.size < |m.framed| <= MAX_PACKET_BYTES
    && 1 <= last < MAX_PARTS && CutOff(m, last)
  }

  lemma CutsGrow(m: Message, j: nat)
    ensures Cut(m, j) <= Cut(m, j + 1) <= Cut(m, j) + m.size
  {
    assert (j + 1) * m.size == j * m.size + m.size;
  }

  function Part(m: Message, j: nat): (part: seq<Byte>)
  {
    CutsGrow(m, j);
    m.framed[Cut(m, j)..Cut(m, j + 1)]
  }

  lemma PartLengths(m: Message, last: nat, j: nat)
    requires Fragmentable(m, last) && j <= last
    ensures j < last ==> |Part(m, j)| == m.size
    ensures 0 < |Part(m, j)| <= m.size
  {
    if j < last {
      CutInside(m, last, j + 1);
      assert (j + 1) * m.size == j * m.size + m.size;
    }
    CutInside(m, last, j);
  }

  lemma CutInside(m: Message, last: nat, j: nat)
    requires Fragmentable(m, last) && j <= last
    ensures Cut(m, j) == j * m.size
  {
    assert j * m.size <= last * m.size by { Times(j, last, m.size); }
  }

  /** What the receiver parses when fragment `j` arrives. */
  function FragmentOf(m: Message, last: nat, sequence: nat, j: nat): Fragment {
    Fragment(sequence, j, if j == last then m.size else 0, j == last, Part(m, j))
  }

  // ---- One packet --------------------------------------------------------

  /** The buffer holds exactly the fragments `ids` of the packet. */
  ghost predicate Holds(b: Buffer, m: Message, last: nat, ids: set<nat>) {
    && b.maxSize == m.size
    && b.parts.Keys == ids
    && (forall j :: j in ids ==> b.parts[j] == Part(m, j))
    && b.lastID == (if last in ids then last else -1)
    && b.bytes == PartsBytes(b.parts, 32)
  }

  lemma {:induction false} PartsFit(parts: map<nat, seq<Byte>>, m: Message, n: nat)
    requires forall j :: j in parts ==> parts[j] == Part(m, j)
    ensures PartsBytes(parts, n) <= Cut(m, n)
  {
    if n > 0 {
      PartsFit(parts, m, n - 1);
      CutsGrow(m, n - 1);
    }
  }

  lemma Joined(s: seq<Byte>, i: nat, j: nat)
    requires i <= j <= |s|
    ensures s[..i] + s[i..j] == s[..j]
  {
  }

  lemma JoinNext(parts: map<nat, seq<Byte>>, m: Message, n: nat)
    requires n > 0 && (forall j :: 0 <= j < n ==> j in parts) && parts[n - 1] == Part(m, n - 1)
    requires Join(parts, n - 1) == m.framed[..Cut(m, n - 1)]
    ensures Join(parts, n) == m.framed[..Cut(m, n)]
  {
    hide Cut;
    CutsGrow(m, n - 1);
    Joined(m.framed, Cut(m, n - 1), Cut(m, n));
  }

  lemma {:induction false} PartsJoin(parts: map<nat, seq<Byte>>, m: Message, n: nat)
    requires forall j :: 0 <= j < n ==> j in parts && parts[j] == Part(m, j)
    ensures Join(parts, n) == m.framed[..Cut(m, n)]
  {
    if n == 0 {
      assert Cut(m, 0) == 0;
    } else {
      hide Part, Cut, Join;
      PartsJoin(parts, m, n - 1);
      JoinNext(parts, m, n);
    }
  }

  lemma StoredHolds(b: Buffer, m: Message, last: nat, sequence: nat, ids: set<nat>, j: nat, now: int)
    requires Fragmentable(m, last) && j <= last && j !in ids
    requires Holds(b, m, last, ids)
    ensures var stored := Stored(b, FragmentOf(m, last, sequence, j), now);
            Holds(stored, m, last, ids + {j}) && stored.bytes <= MAX_PACKET_BYTES && stored.updated == now
  {
    hide Part;
    PartsUpdated(b.parts, j, Part(m, j), 32);
    PartsFit(b.parts[j := Part(m, j)], m, 32);
  }

  lemma FreshHolds(m: Message, last: nat, now: int)
    ensures Holds(Buffer(m.size, -1, map[], 0, now), m, last, {})
  {
    PartsEmpty(32);
  }

  ghost predicate AllParts(last: nat, ids: set<nat>) {
    forall j :: 0 <= j <= last ==> j in ids
  }

  lemma FinishedExactly(b: Buffer, m: Message, last: nat, ids: set<nat>)
    requires Fragmentable(m, last) && Holds(b, m, last, ids)
    ensures Finished(b) <==> AllParts(last, ids)
    ensures Finished(b) ==> Join(b.parts, b.lastID + 1) == m.framed
  {
    hide Part, Join, PartsBytes;
    if Finished(b) {
      assert b.lastID == last;
      PartsJoin(b.parts, m, last + 1);
      assert Cut(m, last + 1) == |m.framed|;
      assert m.framed[..|m.framed|] == m.framed;
    }
  }

  // ---- Circular sequence numbers -----------------------------------------

  lemma DifferenceOfOffsets(base: nat, a: nat, b: nat)
    requires base < 256 && a < RECEIVE_WINDOW && b < RECEIVE_WINDOW
    ensures Difference((base + a) % 256, (base + b) % 256) == a - b
  {
  }

  lemma DistinctSequences(base: nat, a: nat, b: nat)
    requires base < 256 && a < RECEIVE_WINDOW && b < RECEIVE_WINDOW && a != b
    ensures (base + a) % 256 != (base + b) % 256
  {
  }

  // ---- Many packets ------------------------------------------------------

  /** The packets in transit, numbered consecutively from `base`. */
  datatype Batch = Batch(messages: seq<Message>, lasts: seq<nat>, base: nat) {
    ghost predicate Valid() {
      && |messages| == |lasts| <= RECEIVE_WINDOW
      && base < 256
      && forall i :: 0 <= i < |messages| ==> Fragmentable(messages[i], lasts[i])
    }

    function Sequence(i: nat): nat {
      (base + i) % 256
    }
  }

  /** A fragment of packet `message`, or a packet that was not cut at all. */
  datatype Arrival = PartOf(message: nat, part: nat, now: int) | Intact(framed: seq<Byte>)

  ghost predicate Possible(batch: Batch, a: Arrival) {
    a.PartOf? ==> a.message < |batch.messages| == |batch.lasts| && a.part <= batch.lasts[a.message]
  }

  /** The bytes on the wire. */
  function Wire(batch: Batch, a: Arrival): seq<Byte>
    requires a.PartOf? ==> a.message < |batch.messages| == |batch.lasts|
  {
    match a
    case Intact(framed) => Prepend(framed, TYPE_WHOLE, 0, 0, 0)
    case PartOf(i, j, _) =>
      PartBytes(batch.messages[i], batch.lasts[i], batch.Sequence(i), j)
  }

  function PartBytes(m: Message, last: nat, sequence: nat, j: nat): seq<Byte> {
    if j == last then Prepend(Part(m, j), TYPE_LAST, sequence, j, m.size / 4)
    else Prepend(Part(m, j), TYPE_PARTIAL, sequence, j, 0)
  }

  function DecodeFragment(s: State, framed: seq<Byte>, now: int): Step {
    match Parse(framed)
    case Malformed => Step(s, Refused)
    case Whole(payload) => Step(s, Complete(payload))
    case Piece(sequence, id, maxSize, last, payload) => Store(s, Fragment(sequence, id, maxSize, last, payload), now)
  }

  lemma WireIsStored(batch: Batch, a: Arrival, s: State)
    requires batch.Valid() && Possible(batch, a)
    ensures a.Intact? ==> DecodeFragment(s, Wire(batch, a), 0) == Step(s, Complete(a.framed))
    ensures a.PartOf? ==>
              DecodeFragment(s, Wire(batch, a), a.now) ==
              Store(s, FragmentOf(batch.messages[a.message], batch.lasts[a.message], batch.Sequence(a.message),
                  a.part), a.now)
  {
    hide Store, Prepend, Parse, Part;
    match a
    case Intact(framed) => ParsePrepended(framed, TYPE_WHOLE, 0, 0, 0);
    case PartOf(i, j, _) =>
      var m, last := batch.messages[i], batch.lasts[i];
      if j == last {
        ParsePrepended(Part(m, j), TYPE_LAST, batch.Sequence(i), j, m.size / 4);
      } else {
        ParsePrepended(Part(m, j), TYPE_PARTIAL, batch.Sequence(i), j, 0);
      }
  }

  /** The fragments of packet `i` among the arrivals. */
  function Arrived(arrivals: seq<Arrival>, i: nat): set<nat> {
    set k | 0 <= k < |arrivals| && arrivals[k].PartOf? && arrivals[k].message == i :: arrivals[k].part
  }

  ghost predicate Complete?(batch: Batch, arrivals: seq<Arrival>, i: nat)
    requires i < |batch.lasts|
  {
    AllParts(batch.lasts[i], Arrived(arrivals, i))
  }

  /** The newest packet seen so far, or -1. */
  function Newest(arrivals: seq<Arrival>): int {
    if |arrivals| == 0 then -1
    else
      var before := Newest(arrivals[..|arrivals| - 1]);
      var a := arrivals[|arrivals| - 1];
      if a.PartOf? && a.message > before then a.message else before
  }

  /** Each fragment arrives at most once and no two arrivals are a timeout apart. */
  ghost predicate Scheduled(batch: Batch, arrivals: seq<Arrival>) {
    && (forall k :: 0 <= k < |arrivals| ==> Possible(batch, arrivals[k]))
    && (forall k, l :: 0 <= k < l < |arrivals| && arrivals[k].PartOf? && arrivals[l].PartOf? ==>
          && (arrivals[k].message, arrivals[k].part) != (arrivals[l].message, arrivals[l].part)
          && arrivals[l].now - arrivals[k].now < TIMEOUT)
  }

  function Now(a: Arrival): int {
    if a.PartOf? then a.now else 0
  }

  function Run(batch: Batch, arrivals: seq<Arrival>): (r: State)
    requires forall k :: 0 <= k < |arrivals| ==> arrivals[k].PartOf? ==>
          arrivals[k].message < |batch.messages| == |batch.lasts|
  {
    if |arrivals| == 0 then FRESH
    else
      var a := arrivals[|arrivals| - 1];
      DecodeFragment(Run(batch, arrivals[..|arrivals| - 1]), Wire(batch, a), Now(a)).state
  }

  ghost predicate HeldFor(s: State, batch: Batch, arrivals: seq<Arrival>, i: nat)
    requires i < |batch.messages| == |batch.lasts|
  {
    var q, ids := batch.Sequence(i), Arrived(arrivals, i);
    if ids == {} || AllParts(batch.lasts[i], ids) then q !in s.buffers
    else q in s.buffers && Holds(s.buffers[q], batch.messages[i], batch.lasts[i], ids)
  }

  /** A buffer belongs to a packet whose fragments have been arriving. */
  ghost predicate Owned(batch: Batch, arrivals: seq<Arrival>, q: nat, b: Buffer) {
    exists k :: 0 <= k < |arrivals| && arrivals[k].PartOf? && arrivals[k].message < |batch.messages|
                && q == batch.Sequence(arrivals[k].message) && b.updated == arrivals[k].now
  }

  /** The receiver holds, for every packet, the fragments that have arrived until the last one does. */
  ghost predicate Tracks(s: State, batch: Batch, arrivals: seq<Arrival>)
    requires |batch.messages| == |batch.lasts|
  {
    && (forall i :: 0 <= i < |batch.messages| ==> HeldFor(s, batch, arrivals, i))
    && (forall q :: q in s.buffers ==> Owned(batch, arrivals, q, s.buffers[q]))
    && s.sequenceSet == (Newest(arrivals) >= 0)
    && (Newest(arrivals) >= 0 ==> s.sequence == batch.Sequence(Newest(arrivals)))
  }

  // ---- One arrival -------------------------------------------------------

  lemma ArrivedAppend(arrivals: seq<Arrival>, a: Arrival, i: nat)
    ensures Arrived(arrivals + [a], i) ==
            if a.PartOf? && a.message == i then Arrived(arrivals, i) + {a.part} else Arrived(arrivals, i)
  {
    var all := arrivals + [a];
    forall j | j in Arrived(arrivals, i) ensures j in Arrived(all, i) {
      var k :| 0 <= k < |arrivals| && arrivals[k].PartOf? && arrivals[k].message == i && arrivals[k].part == j;
      assert all[k] == arrivals[k];
    }
    if a.PartOf? && a.message == i {
      assert all[|arrivals|] == a;
      assert a.part in Arrived(all, i);
    }
  }

  lemma NewestAppend(arrivals: seq<Arrival>, a: Arrival)
    ensures Newest(arrivals + [a]) == if a.PartOf? && a.message > Newest(arrivals) then a.message else Newest(arrivals)
  {
    assert (arrivals + [a])[..|arrivals|] == arrivals;
  }

  lemma {:induction false} NewestBounds(batch: Batch, arrivals: seq<Arrival>)
    requires forall k :: 0 <= k < |arrivals| ==> Possible(batch, arrivals[k])
    ensures Newest(arrivals) < |batch.messages|
    ensures forall k :: 0 <= k < |arrivals| && arrivals[k].PartOf? ==> arrivals[k].message <= Newest(arrivals)
    decreases |arrivals|
  {
    if |arrivals| > 0 {
      NewestBounds(batch, arrivals[..|arrivals| - 1]);
    }
  }

  lemma NothingExpires(s: State, batch: Batch, arrivals: seq<Arrival>, a: Arrival)
    requires |batch.messages| == |batch.lasts| && Tracks(s, batch, arrivals) && a.PartOf?
    requires Scheduled(batch, arrivals + [a])
    ensures Expire(s, a.now) == s
  {
    var all := arrivals + [a];
    forall q | q in s.buffers ensures a.now - s.buffers[q].updated < TIMEOUT {
      assert Owned(batch, arrivals, q, s.buffers[q]);
      var k :| 0 <= k < |arrivals| && arrivals[k].PartOf? && s.buffers[q].updated == arrivals[k].now;
      assert all[k] == arrivals[k] && all[|arrivals|] == a;
    }
    assert Expire(s, a.now).buffers == s.buffers;
  }

  lemma OwnedInWindow(batch: Batch, arrivals: seq<Arrival>, q: nat, b: Buffer, i: nat)
    requires batch.Valid() && i < |batch.messages| && Owned(batch, arrivals, q, b)
    requires forall k :: 0 <= k < |arrivals| && arrivals[k].PartOf? ==> arrivals[k].message <= i
    ensures InWindow(q, batch.Sequence(i))
  {
    hide Difference;
    var k :| 0 <= k < |arrivals| && arrivals[k].PartOf? && arrivals[k].message < |batch.messages|
             && q == batch.Sequence(arrivals[k].message);
    DifferenceOfOffsets(batch.base, arrivals[k].message, i);
  }

  lemma WindowMoves(s: State, batch: Batch, arrivals: seq<Arrival>, i: nat)
    requires batch.Valid() && Tracks(s, batch, arrivals) && i < |batch.messages|
    requires forall k :: 0 <= k < |arrivals| ==> Possible(batch, arrivals[k])
    ensures Advance(s, batch.Sequence(i)) ==
            s.(sequence := batch.Sequence(if i > Newest(arrivals) then i else Newest(arrivals)), sequenceSet := true)
  {
    hide Difference, HeldFor, Owned, InWindow, Fragmentable, Newest;
    NewestBounds(batch, arrivals);
    var newest := Newest(arrivals);
    if newest >= 0 {
      DifferenceOfOffsets(batch.base, i, newest);
      if i > newest {
        forall q | q in s.buffers ensures InWindow(q, batch.Sequence(i)) {
          OwnedInWindow(batch, arrivals, q, s.buffers[q], i);
        }
        assert Advance(s, batch.Sequence(i)).buffers == s.buffers;
      }
    }
  }

  /** What the receiver reports when `a` arrives after `arrivals`. */
  ghost function Report(batch: Batch, arrivals: seq<Arrival>, a: Arrival): Outcome
    requires Possible(batch, a)
  {
    match a
    case Intact(framed) => Complete(framed)
    case PartOf(i, _, _) => if Complete?(batch, arrivals + [a], i) then Complete(batch.messages[i].framed)
        else Incomplete
  }

  lemma TargetHolds(s: State, batch: Batch, arrivals: seq<Arrival>, i: nat, j: nat, now: int)
    requires batch.Valid() && i < |batch.messages| && HeldFor(s, batch, arrivals, i)
    requires j <= batch.lasts[i] && j !in Arrived(arrivals, i)
    ensures Holds(Target(s, FragmentOf(batch.messages[i], batch.lasts[i], batch.Sequence(i), j), now),
                  batch.messages[i], batch.lasts[i], Arrived(arrivals, i))
  {
    hide Part;
    var m, last := batch.messages[i], batch.lasts[i];
    PartLengths(m, last, j);
    assert !AllParts(last, Arrived(arrivals, i));
    FreshHolds(m, last, now);
  }

  /** The state of every other packet is left alone. */
  lemma OthersKept(s: State, t: State, batch: Batch, arrivals: seq<Arrival>, a: Arrival, k: nat)
    requires batch.Valid() && a.PartOf? && Possible(batch, a)
    requires k < |batch.messages| && k != a.message && HeldFor(s, batch, arrivals, k)
    requires forall q :: q != batch.Sequence(a.message) ==>
          (q in t.buffers <==> q in s.buffers) && (q in s.buffers ==> t.buffers[q] == s.buffers[q])
    ensures HeldFor(t, batch, arrivals + [a], k)
  {
    hide Holds, AllParts;
    ArrivedAppend(arrivals, a, k);
    DistinctSequences(batch.base, a.message, k);
  }

  lemma OwnersKept(batch: Batch, arrivals: seq<Arrival>, a: Arrival, q: nat, b: Buffer)
    requires Owned(batch, arrivals, q, b)
    ensures Owned(batch, arrivals + [a], q, b)
  {
    var k :| 0 <= k < |arrivals| && arrivals[k].PartOf? && arrivals[k].message < |batch.messages|
             && q == batch.Sequence(arrivals[k].message) && b.updated == arrivals[k].now;
    assert (arrivals + [a])[k] == arrivals[k];
  }

  lemma PartTracked(s: State, batch: Batch, arrivals: seq<Arrival>, a: Arrival)
    requires batch.Valid() && a.PartOf? && Scheduled(batch, arrivals + [a]) && Possible(batch, a)
    requires Tracks(s, batch, arrivals)
    ensures var step := DecodeFragment(s, Wire(batch, a), a.now);
            step.outcome == Report(batch, arrivals, a) && Tracks(step.state, batch, arrivals + [a])
  {
    hide Expire, Advance, Target, Stored, Finished, Join, Holds, AllParts, FragmentOf, DecodeFragment, Wire, Owned;
    var i, j, m, last, q := a.message, a.part, batch.messages[a.message], batch.lasts[a.message],
        batch.Sequence(a.message);
    var f := FragmentOf(m, last, q, j);
    WireIsStored(batch, a, s);
    FragmentFields(m, last, q, j);
    NothingExpires(s, batch, arrivals, a);
    ScheduleParts(batch, arrivals, a);
    WindowMoves(s, batch, arrivals, i);
    NewestAppend(arrivals, a);
    ArrivedAppend(arrivals, a, i);
    var moved := Advance(s, q);
    assert HeldFor(s, batch, arrivals, i) && HeldFor(moved, batch, arrivals, i);
    TargetHolds(moved, batch, arrivals, i, j, a.now);
    var ids := Arrived(arrivals, i);
    StoredHolds(Target(moved, f, a.now), m, last, q, ids, j, a.now);
    var b := Stored(Target(moved, f, a.now), f, a.now);
    FinishedExactly(b, m, last, ids + {j});
    var step := Store(s, f, a.now);
    forall k | 0 <= k < |batch.messages| ensures HeldFor(step.state, batch, arrivals + [a], k) {
      if k != i {
        OthersKept(s, step.state, batch, arrivals, a, k);
      }
    }
    forall r | r in step.state.buffers ensures Owned(batch, arrivals + [a], r, step.state.buffers[r]) {
      if r == q {
        NewOwner(batch, arrivals, a, b);
      } else {
        OwnersKept(batch, arrivals, a, r, s.buffers[r]);
      }
    }
  }

  lemma FragmentFields(m: Message, last: nat, sequence: nat, j: nat)
    requires Fragmentable(m, last) && j <= last
    ensures FragmentOf(m, last, sequence, j).sequence == sequence
    ensures |FragmentOf(m, last, sequence, j).payload| <= MAX_PACKET_BYTES
  {
    PartLengths(m, last, j);
  }

  lemma NewOwner(batch: Batch, arrivals: seq<Arrival>, a: Arrival, b: Buffer)
    requires a.PartOf? && a.message < |batch.messages| && b.updated == a.now
    ensures Owned(batch, arrivals + [a], batch.Sequence(a.message), b)
  {
    assert (arrivals + [a])[|arrivals|] == a;
  }

  lemma ScheduleParts(batch: Batch, arrivals: seq<Arrival>, a: Arrival)
    requires Scheduled(batch, arrivals + [a])
    ensures Scheduled(batch, arrivals)
    ensures Possible(batch, a)
    ensures a.PartOf? ==> a.part !in Arrived(arrivals, a.message)
  {
    var all := arrivals + [a];
    forall k | 0 <= k < |arrivals| ensures all[k] == arrivals[k] {}
    assert all[|arrivals|] == a;
  }

  lemma IntactTracked(s: State, batch: Batch, arrivals: seq<Arrival>, a: Arrival)
    requires batch.Valid() && a.Intact? && Tracks(s, batch, arrivals)
    ensures var step := DecodeFragment(s, Wire(batch, a), 0);
            step.outcome == Report(batch, arrivals, a) && Tracks(step.state, batch, arrivals + [a])
  {
    hide Holds, AllParts, Owned, DecodeFragment, Wire;
    WireIsStored(batch, a, s);
    NewestAppend(arrivals, a);
    forall k | 0 <= k < |batch.messages| ensures HeldFor(s, batch, arrivals + [a], k) {
      assert HeldFor(s, batch, arrivals, k);
      ArrivedAppend(arrivals, a, k);
    }
    forall r | r in s.buffers ensures Owned(batch, arrivals + [a], r, s.buffers[r]) {
      OwnersKept(batch, arrivals, a, r, s.buffers[r]);
    }
  }

  // ---- Whole runs --------------------------------------------------------

  lemma {:induction false} RunTracks(batch: Batch, arrivals: seq<Arrival>)
    requires batch.Valid() && Scheduled(batch, arrivals)
    ensures Tracks(Run(batch, arrivals), batch, arrivals)
    decreases |arrivals|
  {
    hide DecodeFragment, Wire, HeldFor, Owned;
    if |arrivals| == 0 {
      NothingTracked(batch);
    } else {
      var before, a := arrivals[..|arrivals| - 1], arrivals[|arrivals| - 1];
      assert before + [a] == arrivals;
      ScheduleParts(batch, before, a);
      RunTracks(batch, before);
      if a.PartOf? {
        PartTracked(Run(batch, before), batch, before, a);
      } else {
        IntactTracked(Run(batch, before), batch, before, a);
      }
    }
  }

  lemma NothingTracked(batch: Batch)
    requires batch.Valid()
    ensures Tracks(FRESH, batch, [])
  {
    forall i | 0 <= i < |batch.messages| ensures HeldFor(FRESH, batch, [], i) {
      assert Arrived([], i) == {};
    }
  }

  /** What the receiver reports at step `k` of a run. */
  function OutcomeAt(batch: Batch, arrivals: seq<Arrival>, k: nat): Outcome
    requires k < |arrivals|
    requires forall l :: 0 <= l < |arrivals| ==> arrivals[l].PartOf? ==>
          arrivals[l].message < |batch.messages| == |batch.lasts|
  {
    DecodeFragment(Run(batch, arrivals[..k]), Wire(batch, arrivals[k]), Now(arrivals[k])).outcome
  }

  lemma {:induction false} ScheduledPrefix(batch: Batch, arrivals: seq<Arrival>, k: nat)
    requires Scheduled(batch, arrivals) && k <= |arrivals|
    ensures Scheduled(batch, arrivals[..k])
  {
    assert forall l :: 0 <= l < k ==> arrivals[..k][l] == arrivals[l];
  }

  /**
   In every order of arrival, a packet is delivered, whole and unchanged, at the
   arrival that completes it; every other fragment is silently kept.
   */
  lemma EveryArrival(batch: Batch, arrivals: seq<Arrival>, k: nat)
    requires batch.Valid() && Scheduled(batch, arrivals) && k < |arrivals|
    ensures Possible(batch, arrivals[k])
    ensures OutcomeAt(batch, arrivals, k) == Report(batch, arrivals[..k], arrivals[k])
  {
    hide DecodeFragment, Wire, Report, Run;
    ScheduledPrefix(batch, arrivals, k + 1);
    assert arrivals[..k + 1] == arrivals[..k] + [arrivals[k]];
    ScheduleParts(batch, arrivals[..k], arrivals[k]);
    RunTracks(batch, arrivals[..k]);
    if arrivals[k].PartOf? {
      PartTracked(Run(batch, arrivals[..k]), batch, arrivals[..k], arrivals[k]);
    } else {
      IntactTracked(Run(batch, arrivals[..k]), batch, arrivals[..k], arrivals[k]);
    }
  }

  /** Arrival `k` is the one that delivers packet `i`. */
  ghost predicate Delivers(batch: Batch, arrivals: seq<Arrival>, k: nat, i: nat)
    requires batch.Valid() && Scheduled(batch, arrivals) && k < |arrivals| && i < |batch.messages|
  {
    arrivals[k].PartOf? && arrivals[k].message == i && OutcomeAt(batch, arrivals, k).Complete?
  }

  lemma {:induction false} CompletionPoint(batch: Batch, arrivals: seq<Arrival>, i: nat, n: nat) returns (k: nat)
    requires batch.Valid() && Scheduled(batch, arrivals) && i < |batch.messages| && n <= |arrivals|
    requires Complete?(batch, arrivals[..n], i)
    ensures k < n && Complete?(batch, arrivals[..k + 1], i) && !Complete?(batch, arrivals[..k], i)
    decreases n
  {
    assert arrivals[..0] == [];
    IncompleteAtFirst(batch, i);
    if Complete?(batch, arrivals[..n - 1], i) {
      k := CompletionPoint(batch, arrivals, i, n - 1);
    } else {
      k := n - 1;
    }
  }

  lemma IncompleteAtFirst(batch: Batch, i: nat)
    requires i < |batch.lasts|
    ensures !Complete?(batch, [], i)
  {
    assert 0 !in Arrived([], i);
  }

  lemma CompleteStays(batch: Batch, arrivals: seq<Arrival>, i: nat, k: nat, l: nat)
    requires batch.Valid() && Scheduled(batch, arrivals) && i < |batch.messages| && k <= l <= |arrivals|
    requires Complete?(batch, arrivals[..k], i)
    ensures Complete?(batch, arrivals[..l], i)
  {
    forall j | j in Arrived(arrivals[..k], i) ensures j in Arrived(arrivals[..l], i) {
      var p :| 0 <= p < k && arrivals[..k][p].PartOf? && arrivals[..k][p].message == i && arrivals[..k][p].part == j;
      assert arrivals[..l][p] == arrivals[..k][p];
    }
  }

  /** Once every fragment has arrived, exactly one arrival has delivered the packet, with its bytes. */
  lemma DeliveredExactlyOnce(batch: Batch, arrivals: seq<Arrival>, i: nat) returns (k: nat)
    requires batch.Valid() && Scheduled(batch, arrivals) && i < |batch.messages|
    requires Complete?(batch, arrivals, i)
    ensures k < |arrivals| && Delivers(batch, arrivals, k, i)
    ensures OutcomeAt(batch, arrivals, k) == Complete(batch.messages[i].framed)
    ensures forall l :: 0 <= l < |arrivals| && l != k ==> !Delivers(batch, arrivals, l, i)
  {
    hide AllParts, Run, DecodeFragment, Wire;
    assert arrivals[..|arrivals|] == arrivals;
    k := CompletionPoint(batch, arrivals, i, |arrivals|);
    assert arrivals[..k + 1] == arrivals[..k] + [arrivals[k]];
    ArrivedAppend(arrivals[..k], arrivals[k], i);
    assert arrivals[k].PartOf? && arrivals[k].message == i;
    EveryArrival(batch, arrivals, k);
    forall l | 0 <= l < |arrivals| && l != k ensures !Delivers(batch, arrivals, l, i) {
      EveryArrival(batch, arrivals, l);
      assert arrivals[..l + 1] == arrivals[..l] + [arrivals[l]];
      if l > k {
        NoLateFragment(batch, arrivals, i, k, l);
      } else if Complete?(batch, arrivals[..l + 1], i) {
        CompleteStays(batch, arrivals, i, l + 1, k);
      }
    }
  }

  /** Nothing of a packet is left to arrive once it is complete. */
  lemma NoLateFragment(batch: Batch, arrivals: seq<Arrival>, i: nat, k: nat, l: nat)
    requires batch.Valid() && Scheduled(batch, arrivals) && i < |batch.messages| && k < l < |arrivals|
    requires Complete?(batch, arrivals[..k + 1], i)
    ensures !(arrivals[l].PartOf? && arrivals[l].message == i)
  {
    CompleteStays(batch, arrivals, i, k + 1, l);
    ScheduledPrefix(batch, arrivals, l + 1);
    assert arrivals[..l + 1] == arrivals[..l] + [arrivals[l]];
    ScheduleParts(batch, arrivals[..l], arrivals[l]);
  }
}
