/** Decoding with several keys and a replay window behind them. */
module DataReceive {
  import opened Bytes
  import opened DataCodec
  import ReplaySpec

  /** The first key that opens the packet decides. */
  function OpenFirst(candidates: seq<Codec>, extra: seq<Byte>, packet: seq<Byte>): Option<Opened> {
    if |candidates| == 0 then None
    else
      var found := Decode(candidates[0], extra, packet);
      if found.Some? then found else OpenFirst(candidates[1..], extra, packet)
  }

  method TryCandidates(candidates: seq<Codec>, extra: seq<Byte>, packet: seq<Byte>) returns (r: Option<Opened>)
    ensures r == OpenFirst(candidates, extra, packet)
  {
    hide Decode;
    for i := 0 to |candidates|
      invariant OpenFirst(candidates[i..], extra, packet) == OpenFirst(candidates, extra, packet)
    {
      assert candidates[i..][1..] == candidates[i + 1..];
      r := Decode(candidates[i], extra, packet);
      if r.Some? {
        return;
      }
    }
    return None;
  }

  lemma {:induction false} FirstOpens(candidates: seq<Codec>, i: nat, extra: seq<Byte>, packet: seq<Byte>)
    requires i < |candidates| && Decode(candidates[i], extra, packet).Some?
    requires forall j :: 0 <= j < i ==> Decode(candidates[j], extra, packet).None?
    ensures OpenFirst(candidates, extra, packet) == Decode(candidates[i], extra, packet)
    decreases i
  {
    hide Decode;
    if i > 0 {
      FirstOpens(candidates[1..], i - 1, extra, packet);
    }
  }

  /** The keys are for block ciphers with one size of digest, as for a static key. */
  predicate Alike(candidates: seq<Codec>, size: nat) {
    forall j :: 0 <= j < |candidates| ==> candidates[j].Blocks? && candidates[j].digest.size == size
  }

  /** What one of several keys encoded is decoded with it when no earlier key has the same digest for the packet. */
  lemma CandidateRoundTrip(candidates: seq<Codec>, size: nat, i: nat, id: Uint32, extra: seq<Byte>, iv: seq<Byte>,
        payload: seq<Byte>)
    requires Alike(candidates, size) && size > 0 && i < |candidates| && Sound(candidates[i]) && id != 0
    requires candidates[i].cipher.Chained? ==> |iv| == candidates[i].cipher.block
    requires var body := Protected(candidates[i], id, iv, payload);
             forall j :: 0 <= j < i ==> candidates[j].digest.sum(body) != candidates[i].digest.sum(body)
    ensures OpenFirst(candidates, extra, Encode(candidates[i], id, extra, iv, payload).value) ==
            Some(Opened(id, Stamp(candidates[i]), payload))
  {
    hide Protected, Unprotected;
    var c := candidates[i];
    var body, packet := Protected(c, id, iv, payload), Encode(c, id, extra, iv, payload).value;
    CodecRoundTrip(c, id, extra, iv, payload);
    assert |c.digest.sum(body)| == size;
    assert packet == c.digest.sum(body) + body;
    assert packet[..size] == c.digest.sum(body) && packet[size..] == body;
    forall j | 0 <= j < i ensures Decode(candidates[j], extra, packet).None? {
      assert candidates[j].digest.sum(body) != packet[..size];
    }
    hide Decode, Encode;
    FirstOpens(candidates, i, extra, packet);
  }

  // ---- Packets as they arrive --------------------------------------------

  /** Timestamps, where there are any, go to the replay window with the ID. */
  datatype Receiver = Receiver(candidates: seq<Codec>, stamps: bool, window: ReplaySpec.Window)

  datatype Arrival = Arrival(extra: seq<Byte>, packet: seq<Byte>, now: int, later: int)

  ghost predicate Uniform(candidates: seq<Codec>, stamps: bool) {
    forall i :: 0 <= i < |candidates| ==> Stamps(candidates[i]) == stamps
  }

  function Judge(r: Receiver, o: Opened, now: int, later: int): ReplaySpec.Verdict {
    if r.stamps then ReplaySpec.AcceptLongForm(r.window, o.id, o.timestamp, now, later)
    else ReplaySpec.Accept(r.window, o.id, now, later)
  }

  datatype Received = Received(receiver: Receiver, result: Option<Opened>)

  /** A packet is found first, and only then does its ID reach the window. */
  function Receive(r: Receiver, a: Arrival): Received {
    var found := OpenFirst(r.candidates, a.extra, a.packet);
    if found.None? then Received(r, None)
    else
      var v := Judge(r, found.value, a.now, a.later);
      Received(r.(window := v.window), if v.ok then found else None)
  }

  datatype History = History(receiver: Receiver, log: seq<Opened>)

  function ReceiveAll(r: Receiver, arrivals: seq<Arrival>): History {
    if |arrivals| == 0 then History(r, [])
    else
      var before := ReceiveAll(r, arrivals[..|arrivals| - 1]);
      var next := Receive(before.receiver, arrivals[|arrivals| - 1]);
      History(next.receiver, if next.result.Some? then before.log + [next.result.value] else before.log)
  }

  lemma {:induction false} OpenedStamp(candidates: seq<Codec>, stamps: bool, extra: seq<Byte>, packet: seq<Byte>)
    requires Uniform(candidates, stamps)
    ensures var o := OpenFirst(candidates, extra, packet); o.Some? && !stamps ==> o.value.timestamp == 0
    decreases |candidates|
  {
    if |candidates| > 0 {
      OpenedStamp(candidates[1..], stamps, extra, packet);
    }
  }

  function RunOf(stamps: bool, start: ReplaySpec.Window, ids: seq<ReplaySpec.Arrival>): ReplaySpec.Outcome {
    if stamps then ReplaySpec.Run(start, ids) else ReplaySpec.RunShort(start, ids)
  }

  /** The window has seen exactly the IDs of the packets that found, and the log is what it let through. */
  ghost predicate Mirrors(h: History, start: ReplaySpec.Window, ids: seq<ReplaySpec.Arrival>) {
    var o := RunOf(h.receiver.stamps, start, ids);
    && h.receiver.window == o.window && |h.log| == |o.log|
    && forall i :: 0 <= i < |h.log| ==> (h.log[i].id, h.log[i].timestamp) == o.log[i]
  }

  lemma RunsOne(stamps: bool, start: ReplaySpec.Window, ids: seq<ReplaySpec.Arrival>, a: ReplaySpec.Arrival)
    ensures var o := RunOf(stamps, start, ids);
            var v := if stamps then ReplaySpec.AcceptLongForm(o.window, a.id, a.timestamp, a.now, a.later)
                     else ReplaySpec.Accept(o.window, a.id, a.now, a.later);
            RunOf(stamps, start, ids + [a]) ==
              ReplaySpec.Outcome(v.window, if v.ok then o.log + [(a.id, if stamps then a.timestamp else 0)] else o.log)
  {
    hide ReplaySpec.AcceptLongForm, ReplaySpec.Accept;
    assert (ids + [a])[..|ids|] == ids;
  }

  lemma {:induction false} WindowMirrors(r: Receiver, arrivals: seq<Arrival>) returns (ids: seq<ReplaySpec.Arrival>)
    requires Uniform(r.candidates, r.stamps)
    ensures Mirrors(ReceiveAll(r, arrivals), r.window, ids)
    ensures ReceiveAll(r, arrivals).receiver == r.(window := ReceiveAll(r, arrivals).receiver.window)
    decreases |arrivals|
  {
    hide Decode, OpenFirst, ReplaySpec.AcceptLongForm, ReplaySpec.Accept, Uniform;
    ids := [];
    if |arrivals| > 0 {
      ids := WindowMirrors(r, arrivals[..|arrivals| - 1]);
      var a := arrivals[|arrivals| - 1];
      OpenedStamp(r.candidates, r.stamps, a.extra, a.packet);
      var found := OpenFirst(r.candidates, a.extra, a.packet);
      if found.Some? {
        var next := ReplaySpec.Arrival(found.value.id, found.value.timestamp, a.now, a.later);
        hide RunOf;
        RunsOne(r.stamps, r.window, ids, next);
        ids := ids + [next];
      }
    }
  }

  /** Whatever arrives, no ID with its timestamp is handed on twice. */
  lemma ReceivedOnce(candidates: seq<Codec>, stamps: bool, size: Uint32, span: int, arrivals: seq<Arrival>)
    requires Uniform(candidates, stamps)
    ensures var log := ReceiveAll(Receiver(candidates, stamps, ReplaySpec.Fresh(size, span)), arrivals).log;
            forall i, j :: 0 <= i < j < |log| ==> (log[i].id, log[i].timestamp) != (log[j].id, log[j].timestamp)
  {
    hide ReceiveAll, ReplaySpec.Run, ReplaySpec.RunShort;
    var ids := WindowMirrors(Receiver(candidates, stamps, ReplaySpec.Fresh(size, span)), arrivals);
    ReplaySpec.NoReplay(size, span, ids);
    ReplaySpec.NoShortReplay(size, span, ids);
  }

  /** A packet of the other end is handed on as it was encoded, exactly when the window accepts its ID. */
  lemma GenuineArrives(r: Receiver, c: Codec, id: Uint32, extra: seq<Byte>, iv: seq<Byte>, payload: seq<Byte>,
        now: int, later: int)
    requires r.candidates == [c] && Sound(c) && id != 0 && |payload| > 0
    requires c.Blocks? && c.cipher.Chained? ==> |iv| == c.cipher.block
    ensures var found := Opened(id, Stamp(c), payload);
            Receive(r, Arrival(extra, Encode(c, id, extra, iv, payload).value, now, later)).result ==
              if Judge(r, found, now, later).ok then Some(found) else None
  {
    hide Decode, Encode, Judge, Sound;
    ExactLength(c, id, extra, iv, payload);
    CodecRoundTrip(c, id, extra, iv, payload);
  }
}
