/** Payloads through one framing object after another: what a run of encodings sends, a run of decodings gives back. */
module FramingRuns {
  import opened Bytes
  import opened Compression
  import opened FragmentHeader
  import opened Reassembly
  import opened Interleaving
  import opened Framing

  /** One framed packet and the budget it is cut for. */
  datatype Call = Call(framed: seq<Byte>, budget: int)

  function CutSize(c: Call): int {
    c.budget - c.budget % 4
  }

  /** The packet is longer than a fragment, so that it takes a sequence number, also when it is then refused. */
  predicate Numbers(c: Call) {
    0 < CutSize(c) < |c.framed|
  }

  /** The packet is cut, and short enough for a receiver. */
  predicate Cuts(c: Call) {
    Numbers(c) && |c.framed| <= MAX_PACKET_BYTES && LastPart(Message(c.framed, CutSize(c))) < MAX_PARTS
  }

  /** Takes the place of a packet that used up its number and is not sent. */
  const STAND_IN := Message([0, 0, 0, 0, 0, 0, 0, 0], 4)

  function Carried(c: Call): (m: Message)
    ensures m.size > 0 && |m.framed| > 0
  {
    if Cuts(c) then Message(c.framed, CutSize(c)) else STAND_IN
  }

  /** The packets that took a number, in order. */
  function Messages(calls: seq<Call>): (r: seq<Message>)
    ensures forall i :: 0 <= i < |r| ==> r[i].size > 0 && |r[i].framed| > 0
  {
    if |calls| == 0 then []
    else
      var front, c := Messages(calls[..|calls| - 1]), calls[|calls| - 1];
      if Numbers(c) then front + [Carried(c)] else front
  }

  function Lasts(messages: seq<Message>): (r: seq<nat>)
    requires forall i :: 0 <= i < |messages| ==> messages[i].size > 0 && |messages[i].framed| > 0
    ensures |r| == |messages| && forall i :: 0 <= i < |r| ==> r[i] == LastPart(messages[i])
  {
    if |messages| == 0 then [] else Lasts(messages[..|messages| - 1]) + [LastPart(messages[|messages| - 1])]
  }

  function BatchOf(calls: seq<Call>, first: nat): Batch {
    Batch(Messages(calls), Lasts(Messages(calls)), first)
  }

  /** How many numbers the calls before `n` have taken. */
  function NumbersBefore(calls: seq<Call>, n: nat): nat
    requires n <= |calls|
  {
    |Messages(calls[..n])|
  }

  lemma CarriedIsFragmentable(c: Call)
    requires Numbers(c)
    ensures Fragmentable(Carried(c), LastPart(Carried(c)))
  {
    var m := Carried(c);
    LastPartCuts(m);
    assert (0 + 1) * m.size == m.size;
    assert !Cuts(c) ==> LastPart(m) == 1;
  }

  lemma {:induction false} MessagesFragment(calls: seq<Call>, i: nat)
    requires i < |Messages(calls)|
    ensures Fragmentable(Messages(calls)[i], LastPart(Messages(calls)[i]))
    decreases |calls|
  {
    hide Fragmentable, Carried, LastPart, Numbers;
    var front, c := calls[..|calls| - 1], calls[|calls| - 1];
    if i < |Messages(front)| {
      MessagesFragment(front, i);
    } else {
      CarriedIsFragmentable(c);
    }
  }

  lemma BatchIsValid(calls: seq<Call>, first: nat)
    requires first < 256 && |Messages(calls)| <= RECEIVE_WINDOW
    ensures BatchOf(calls, first).Valid()
  {
    hide Fragmentable, Messages, LastPart;
    var batch := BatchOf(calls, first);
    forall i | 0 <= i < |batch.messages| ensures Fragmentable(batch.messages[i], batch.lasts[i]) {
      MessagesFragment(calls, i);
    }
  }

  lemma {:induction false} MessageAt(calls: seq<Call>, n: nat)
    requires n < |calls| && Numbers(calls[n])
    ensures NumbersBefore(calls, n) < |Messages(calls)| && Messages(calls)[NumbersBefore(calls, n)] == Carried(calls[n])
    decreases |calls|
  {
    hide Carried, Numbers;
    var front := calls[..|calls| - 1];
    if n < |front| {
      assert front[..n] == calls[..n];
      MessageAt(front, n);
    }
  }

  lemma NumbersGrow(calls: seq<Call>, n: nat)
    requires n < |calls|
    ensures NumbersBefore(calls, n + 1) == NumbersBefore(calls, n) + if Numbers(calls[n]) then 1 else 0
  {
    hide Carried, Numbers;
    assert calls[..n + 1][..n] == calls[..n];
  }

  // ---- Sending -----------------------------------------------------------

  /** What the encodings of the calls put out, one after the other. */
  ghost predicate Outputs(calls: seq<Call>, first: nat, outputs: seq<Encoded>) {
    && |outputs| == |calls|
    && forall n :: 0 <= n < |calls| ==>
         outputs[n] == Fragments(calls[n].framed, calls[n].budget, (first + NumbersBefore(calls, n)) % 256)
  }

  datatype Outgoing = Outgoing(payload: seq<Byte>, budget: int, now: int)

  lemma OutputsGrow(calls: seq<Call>, first: nat, outputs: seq<Encoded>, c: Call, output: Encoded)
    requires Outputs(calls, first, outputs)
    requires output == Fragments(c.framed, c.budget, (first + NumbersBefore(calls, |calls|)) % 256)
    ensures Outputs(calls + [c], first, outputs + [output])
  {
    hide Fragments, Messages;
    var all := calls + [c];
    assert forall n :: 0 <= n <= |calls| ==> all[..n] == calls[..n];
    assert forall n :: 0 <= n < |calls| ==> all[n] == calls[n] && (outputs + [output])[n] == outputs[n];
  }

  /** One payload after another through one object. */
  method EncodeAll(framing: DataChannelFraming, outgoing: seq<Outgoing>)
    returns (outputs: seq<Encoded>, ghost calls: seq<Call>)
    requires framing.Valid() && framing.fragmentSize > 0
    modifies framing
    ensures framing.Valid() && framing.View() == old(framing.View()) && |calls| == |outgoing|
    ensures forall n :: 0 <= n < |calls| ==>
              calls[n].budget == outgoing[n].budget && Frames(framing.compression, outgoing[n].payload, calls[n].framed)
    ensures Outputs(calls, old(framing.outgoingSequence), outputs)
  {
    hide Outputs, Fragments, Frames, Messages, NumbersBefore, Chosen;
    outputs, calls := [], [];
    ghost var first := framing.outgoingSequence;
    NothingSent(first);
    for n := 0 to |outgoing|
      invariant framing.Valid() && framing.View() == old(framing.View()) && |calls| == n
      invariant framing.outgoingSequence == (first + NumbersBefore(calls, n)) % 256
      invariant forall k :: 0 <= k < n ==>
                  calls[k].budget == outgoing[k].budget &&
                      Frames(framing.compression, outgoing[k].payload, calls[k].framed)
      invariant Outputs(calls, first, outputs)
    {
      var next := outgoing[n];
      var output, framed, block := framing.Encode(next.payload, next.budget, next.now);
      ghost var call := Call(framed, next.budget);
      OutputsGrow(calls, first, outputs, call, output);
      OneMoreNumber(calls, call, first);
      NumberedOrNot(framed, next.budget, (first + NumbersBefore(calls, n)) % 256);
      outputs, calls := outputs + [output], calls + [call];
    }
  }

  lemma NothingSent(first: nat)
    requires first < 256
    ensures Outputs([], first, []) && (first + NumbersBefore([], 0)) % 256 == first
  {
  }

  lemma OneMoreNumber(calls: seq<Call>, c: Call, first: nat)
    ensures var n, all := |calls|, calls + [c];
            (first + NumbersBefore(all, n + 1)) % 256 ==
              if Numbers(c)
              then ((first + NumbersBefore(calls, n)) % 256 + 1) % 256
              else (first + NumbersBefore(calls, n)) % 256
  {
    var all := calls + [c];
    NumbersGrow(all, |calls|);
    assert all[..|calls|] == calls[..|calls|];
    hide Messages, Numbers;
  }

  lemma NumberedOrNot(framed: seq<Byte>, budget: int, sequence: nat)
    ensures Numbers(Call(framed, budget)) <==>
            !(Fragments(framed, budget, sequence) == TooSmall || |framed| <= budget - budget % 4)
  {
    hide LastPart, PartBytes;
  }

  /** What the encoder puts out for a packet is on the wire what the batch says. */
  lemma {:induction false} OutputsAreWire(calls: seq<Call>, first: nat, outputs: seq<Encoded>, n: nat)
    requires Outputs(calls, first, outputs) && first < 256 && |Messages(calls)| <= RECEIVE_WINDOW && n < |calls|
    ensures BatchOf(calls, first).Valid()
    ensures Cuts(calls[n]) ==>
              var batch, i := BatchOf(calls, first), NumbersBefore(calls, n);
              && i < |batch.messages| && batch.messages[i] == Message(calls[n].framed, CutSize(calls[n]))
              && outputs[n].Frame? && |outputs[n].frames| == batch.lasts[i] + 1
              && forall j, now :: 0 <= j <= batch.lasts[i] ==> outputs[n].frames[j] == Wire(batch, PartOf(i, j, now))
    ensures 0 < CutSize(calls[n]) && !Numbers(calls[n]) ==>
              outputs[n] == Frame([Wire(BatchOf(calls, first), Intact(calls[n].framed))])
  {
    hide Messages, LastPart, PartBytes;
    BatchIsValid(calls, first);
    if Cuts(calls[n]) {
      MessageAt(calls, n);
      hide Fragments;
      FragmentsAreWire(BatchOf(calls, first), NumbersBefore(calls, n), calls[n].budget);
    }
  }

  // ---- Receiving ---------------------------------------------------------

  /** What arrives, one packet after another, at one object. */
  method DecodeAll(framing: DataChannelFraming, ghost batch: Batch, ghost arrivals: seq<Arrival>,
                   packets: seq<seq<Byte>>, times: seq<int>)
    returns (results: seq<Decoded>)
    requires framing.Valid() && framing.fragmentSize > 0 && framing.View() == FRESH
    requires batch.Valid() && Scheduled(batch, arrivals) && |packets| == |times| == |arrivals|
    requires forall k :: 0 <= k < |arrivals| ==> Possible(batch, arrivals[k])
    requires forall k :: 0 <= k < |arrivals| ==> packets[k] == Wire(batch, arrivals[k]) && times[k] == Now(arrivals[k])
    modifies framing
    ensures framing.Valid() && |results| == |arrivals|
    ensures forall k :: 0 <= k < |arrivals| ==>
          results[k] == Deliver(framing.compression, OutcomeAt(batch, arrivals, k))
  {
    hide Deliver, Wire, DecodeFragment, OutcomeAt;
    results := [];
    assert arrivals[..0] == [];
    for k := 0 to |packets|
      invariant framing.Valid() && framing.View() == Interleaving.Run(batch, arrivals[..k]) && |results| == k
      invariant forall n :: 0 <= n < k ==> results[n] == Deliver(framing.compression, OutcomeAt(batch, arrivals, n))
    {
      assert arrivals[..k + 1][..k] == arrivals[..k] && arrivals[..k + 1][k] == arrivals[k];
      OutcomeIs(batch, arrivals, k);
      var result := framing.Decode(packets[k], times[k]);
      results := results + [result];
    }
  }

  lemma OutcomeIs(batch: Batch, arrivals: seq<Arrival>, k: nat)
    requires batch.Valid() && Scheduled(batch, arrivals) && k < |arrivals|
    ensures Possible(batch, arrivals[k]) && (forall n :: 0 <= n < k ==> Possible(batch, arrivals[..k][n]))
    ensures OutcomeAt(batch, arrivals, k) ==
            DecodeFragment(Interleaving.Run(batch, arrivals[..k]), Wire(batch, arrivals[k]), Now(arrivals[k])).outcome
  {
    hide DecodeFragment, Wire;
  }

  // ---- End to end --------------------------------------------------------

  /**
   Of everything one object encoded, up to 25 packets of it cut, the fragments
   arrive in any order among packets that were not cut: the arrival that completes
   packet `n` yields its payload, and every other fragment of it yields nothing.
   */
  lemma EncodedPayloadsArrive(settings: Settings, calls: seq<Call>, first: nat, arrivals: seq<Arrival>,
                              n: nat, payload: seq<Byte>, k: nat)
    requires first < 256 && |Messages(calls)| <= RECEIVE_WINDOW && n < |calls| && k < |arrivals|
    requires Scheduled(BatchOf(calls, first), arrivals)
    requires Frames(settings, payload, calls[n].framed) && |payload| <= LZO_MAX_DECOMPRESSED
    ensures Cuts(calls[n]) && arrivals[k].PartOf? && arrivals[k].message == NumbersBefore(calls, n) ==>
              Deliver(settings, OutcomeAt(BatchOf(calls, first), arrivals, k)) ==
                if Complete?(BatchOf(calls, first), arrivals[..k + 1], arrivals[k].message)
                then Payload(payload)
                else Pending
    ensures arrivals[k] == Intact(calls[n].framed) ==>
              Deliver(settings, OutcomeAt(BatchOf(calls, first), arrivals, k)) == Payload(payload)
  {
    hide Messages, LastPart, Frames, Deliver, OutcomeAt, Complete?;
    var batch := BatchOf(calls, first);
    BatchIsValid(calls, first);
    Fits(settings, payload, calls[n].framed);
    if Cuts(calls[n]) && arrivals[k].PartOf? && arrivals[k].message == NumbersBefore(calls, n) {
      MessageAt(calls, n);
      PayloadsArrive(settings, batch, payload, arrivals, k);
    }
    if arrivals[k] == Intact(calls[n].framed) {
      IntactArrives(settings, batch, payload, arrivals, k);
    }
  }

  lemma Fits(settings: Settings, payload: seq<Byte>, framed: seq<Byte>)
    requires |payload| <= LZO_MAX_DECOMPRESSED
    ensures Receivable(settings, payload, framed)
  {
  }
}
