/** What a replay window means: the set of packet IDs accepted so far. */
module ReplaySpec {
  import opened Bytes

  /** A clock reading; a slot without one has never been stamped. */
  type Stamp = Option<int>

  /**
   `accepted` holds every ID accepted since the window was last reset, and
   `arrivals[k]` the time `highest - k` arrived.
   */
  datatype Window = Window(
    size: Uint32,
    span: int,
    initialized: bool,
    highest: Uint32,
    timestamp: Uint32,
    minimum: Uint32,
    accepted: set<Uint32>,
    arrivals: seq<Stamp>)

  ghost predicate Consistent(w: Window) {
    && |w.arrivals| == w.size
    && (w.initialized ==>
        && w.highest in w.accepted
        && (forall id :: id in w.accepted ==> 1 <= id <= w.highest)
        && (forall k :: 0 <= k < w.size && w.arrivals[k].Some? ==> k < w.highest && w.highest - k in w.accepted))
  }

  function Empty(n: nat): seq<Stamp> {
    seq(n, _ => None)
  }

  function Fresh(size: Uint32, span: int): Window {
    Window(size, span, false, 0, 0, 0, {}, Empty(size))
  }

  /** A reset keeps nothing but the packet that caused it. */
  function Restarted(w: Window, id: Uint32, timestamp: Uint32, now: int): Window {
    w.(initialized := true, highest := id, timestamp := timestamp, minimum := 0, accepted := {id},
       arrivals := if w.size > 0 then Empty(w.size)[0 := Some(now)] else [])
  }

  /** Moving the window up by `shift` drops the oldest arrivals. */
  function Shifted(arrivals: seq<Stamp>, shift: nat): (r: seq<Stamp>)
    ensures |r| == |arrivals|
  {
    if shift >= |arrivals| then Empty(|arrivals|)
    else Empty(shift) + arrivals[..|arrivals| - shift]
  }

  predicate Expired(stamp: Stamp, cutoff: int) {
    stamp.Some? && stamp.value < cutoff
  }

  /** The most recent slot that is too old, or the length when there is none. */
  function FirstExpired(arrivals: seq<Stamp>, cutoff: int): (k: nat)
    ensures k <= |arrivals|
    ensures k < |arrivals| ==> Expired(arrivals[k], cutoff)
    ensures forall j :: 0 <= j < k ==> !Expired(arrivals[j], cutoff)
  {
    if |arrivals| == 0 || Expired(arrivals[0], cutoff) then 0
    else
      var k := 1 + FirstExpired(arrivals[1..], cutoff);
      assert forall j :: 1 <= j < k ==> arrivals[j] == arrivals[1..][j - 1];
      k
  }

  /** Everything up to the first expired packet becomes too old. */
  function Reaped(w: Window, now: int): Window {
    if w.span <= 0 then w
    else
      var k := FirstExpired(w.arrivals, now - w.span);
      if k == |w.arrivals| then w
      else
        var floor: Uint32 := (w.highest - k + 1) % 0x1_0000_0000;
        if floor > w.minimum then w.(minimum := floor) else w
  }

  datatype Verdict = Verdict(window: Window, ok: bool)

  /** One packet of the current timestamp. `now` is read for reaping, `later` for the stamp. */
  function AcceptSame(w: Window, id: Uint32, now: int, later: int): Verdict {
    if !w.initialized then Verdict(Restarted(w, id, 0, later), true)
    else if w.size == 0 then
      if id != (w.highest + 1) % 0x1_0000_0000 then Verdict(w, false)
      else Verdict(w.(highest := id, accepted := w.accepted + {id}), true)
    else
      var r := Reaped(w, now);
      if id > w.highest then
        Verdict(r.(highest := id, accepted := w.accepted + {id},
                   arrivals := if |w.arrivals| > 0 then Shifted(w.arrivals, id - w.highest)[0 := Some(later)]
                       else []), true)
      else if id < r.minimum || w.highest - id >= w.size || id in w.accepted then Verdict(r, false)
      else
        Verdict(r.(accepted := w.accepted + {id},
                   arrivals := if w.highest - id < |w.arrivals| then w.arrivals[w.highest - id := Some(later)]
                       else w.arrivals), true)
  }

  function Accept(w: Window, id: Uint32, now: int, later: int): Verdict {
    if id == 0 then Verdict(w, false) else AcceptSame(w, id, now, later)
  }

  /** A later timestamp restarts the window; an earlier one is refused. */
  function AcceptLongForm(w: Window, id: Uint32, timestamp: Uint32, now: int, later: int): Verdict {
    if id == 0 then Verdict(w, false)
    else if !w.initialized then
      if w.size == 0 && timestamp > 0 && id != 1 then Verdict(w, false)
      else Verdict(Restarted(w, id, timestamp, later), true)
    else if timestamp < w.timestamp then Verdict(w, false)
    else if timestamp > w.timestamp then
      if w.size == 0 && id != 1 then Verdict(w, false)
      else Verdict(Restarted(w, id, timestamp, later), true)
    else AcceptSame(w, id, now, later)
  }

  // ---- What every step keeps ---------------------------------------------

  lemma RestartedConsistent(w: Window, id: Uint32, timestamp: Uint32, now: int)
    requires Consistent(w) && id > 0
    ensures Consistent(Restarted(w, id, timestamp, now))
  {
  }

  lemma AcceptSameFields(w: Window, id: Uint32, now: int, later: int)
    requires w.initialized
    ensures var v := AcceptSame(w, id, now, later);
            v.window.timestamp == w.timestamp && v.window.accepted == if v.ok then w.accepted + {id} else w.accepted
  {
    hide FirstExpired, Shifted, Restarted, Empty;
  }

  lemma ShiftedKeeps(w: Window, id: Uint32, later: int)
    requires Consistent(w) && w.initialized && w.size > 0 && id > w.highest
    ensures var arrivals := Shifted(w.arrivals, id - w.highest)[0 := Some(later)];
            forall k :: 0 <= k < w.size && arrivals[k].Some? ==> k < id && id - k in w.accepted + {id}
  {
    var shift := id - w.highest;
    var shifted := Shifted(w.arrivals, shift);
    forall k | 0 < k < w.size && shifted[k].Some? ensures k < id && id - k in w.accepted {
      assert k >= shift && shifted[k] == w.arrivals[k - shift];
    }
  }

  lemma AcceptSameConsistent(w: Window, id: Uint32, now: int, later: int)
    requires Consistent(w) && id > 0
    ensures Consistent(AcceptSame(w, id, now, later).window)
    ensures AcceptSame(w, id, now, later).ok ==> !w.initialized || id !in w.accepted
    ensures w.initialized ==> AcceptSame(w, id, now, later).window.timestamp == w.timestamp
    ensures w.initialized ==>
              AcceptSame(w, id, now, later).window.accepted ==
              if AcceptSame(w, id, now, later).ok then w.accepted + {id} else w.accepted
  {
    hide FirstExpired, Shifted, Empty;
    if w.initialized { AcceptSameFields(w, id, now, later); }
    RestartedConsistent(w, id, 0, later);
    if w.initialized && w.size > 0 && id > w.highest {
      ShiftedKeeps(w, id, later);
    }
    hide Restarted;
  }

  /**
   With a window, a packet of the current timestamp is accepted exactly when it
   is new and either ahead of everything or inside the window and not too old.
   */
  lemma AcceptedExactly(w: Window, id: Uint32, now: int, later: int)
    requires Consistent(w) && w.initialized && w.size > 0
    ensures AcceptLongForm(w, id, w.timestamp, now, later).ok <==>
            && id != 0 && id !in w.accepted
            && (id > w.highest || (w.highest - id < w.size && id >= Reaped(w, now).minimum))
  {
  }

  /** Without a window only the direct successor is accepted, and never after the last ID. */
  lemma AcceptedInOrder(w: Window, id: Uint32, now: int, later: int)
    requires Consistent(w) && w.initialized && w.size == 0
    ensures AcceptLongForm(w, id, w.timestamp, now, later).ok <==> id == w.highest + 1
  {
  }

  // ---- Whole runs --------------------------------------------------------

  datatype Arrival = Arrival(id: Uint32, timestamp: Uint32, now: int, later: int)

  datatype Outcome = Outcome(window: Window, log: seq<(Uint32, Uint32)>)

  /** The window after the arrivals, and the packets it let through in order. */
  function Run(start: Window, arrivals: seq<Arrival>): Outcome {
    if |arrivals| == 0 then Outcome(start, [])
    else
      var before := Run(start, arrivals[..|arrivals| - 1]);
      var a := arrivals[|arrivals| - 1];
      var v := AcceptLongForm(before.window, a.id, a.timestamp, a.now, a.later);
      Outcome(v.window, if v.ok then before.log + [(a.id, a.timestamp)] else before.log)
  }

  /** The same with the short form, which carries no timestamp. */
  function RunShort(start: Window, arrivals: seq<Arrival>): Outcome {
    if |arrivals| == 0 then Outcome(start, [])
    else
      var before := RunShort(start, arrivals[..|arrivals| - 1]);
      var a := arrivals[|arrivals| - 1];
      var v := Accept(before.window, a.id, a.now, a.later);
      Outcome(v.window, if v.ok then before.log + [(a.id, 0)] else before.log)
  }

  ghost predicate NoRepeats<T>(s: seq<T>) {
    forall i, j :: 0 <= i < j < |s| ==> s[i] != s[j]
  }

  /** The log agrees with the window: older timestamps are history, the current one is `accepted`. */
  ghost predicate Faithful(o: Outcome) {
    && Consistent(o.window)
    && NoRepeats(o.log)
    && (!o.window.initialized ==> o.log == [])
    && (forall i :: 0 <= i < |o.log| ==> o.log[i].1 <= o.window.timestamp)
    && (forall i :: 0 <= i < |o.log| && o.log[i].1 == o.window.timestamp ==> o.log[i].0 in o.window.accepted)
    && (o.window.initialized ==> forall id :: id in o.window.accepted ==> (id, o.window.timestamp) in o.log)
  }

  /** One step of the log: the new pair is nowhere in it. */
  lemma FaithfulStep(o: Outcome, v: Verdict, id: Uint32, timestamp: Uint32)
    requires Faithful(o) && Consistent(v.window)
    requires !v.ok ==> v.window.accepted == o.window.accepted && v.window.timestamp == o.window.timestamp
                       && v.window.initialized == o.window.initialized
    requires v.ok ==> v.window.initialized && v.window.timestamp == timestamp
    requires v.ok && o.window.initialized ==> timestamp >= o.window.timestamp
    requires v.ok && o.window.initialized && timestamp == o.window.timestamp ==>
               id !in o.window.accepted && v.window.accepted == o.window.accepted + {id}
    requires v.ok && (!o.window.initialized || timestamp > o.window.timestamp) ==> v.window.accepted == {id}
    ensures Faithful(Outcome(v.window, if v.ok then o.log + [(id, timestamp)] else o.log))
  {
    var log := if v.ok then o.log + [(id, timestamp)] else o.log;
    if v.ok {
      assert (id, timestamp) !in o.log;
      forall other | other in v.window.accepted ensures (other, timestamp) in log {
        if other != id {
          assert (other, timestamp) in o.log;
        } else {
          assert log[|o.log|] == (id, timestamp);
        }
      }
    }
  }

  lemma {:induction false} RunFaithful(size: Uint32, span: int, arrivals: seq<Arrival>)
    ensures Faithful(Run(Fresh(size, span), arrivals))
    decreases |arrivals|
  {
    if |arrivals| > 0 {
      var before := arrivals[..|arrivals| - 1];
      RunFaithful(size, span, before);
      var o := Run(Fresh(size, span), before);
      var a := arrivals[|arrivals| - 1];
      if a.id > 0 {
        AcceptSameConsistent(o.window, a.id, a.now, a.later);
        RestartedConsistent(o.window, a.id, a.timestamp, a.later);
      }
      FaithfulStep(o, AcceptLongForm(o.window, a.id, a.timestamp, a.now, a.later), a.id, a.timestamp);
    }
  }

  /** No packet gets through twice, whatever arrives, in whatever order, at whatever time. */
  lemma NoReplay(size: Uint32, span: int, arrivals: seq<Arrival>)
    ensures NoRepeats(Run(Fresh(size, span), arrivals).log)
  {
    RunFaithful(size, span, arrivals);
  }

  lemma {:induction false} ShortRunFaithful(size: Uint32, span: int, arrivals: seq<Arrival>)
    ensures Faithful(RunShort(Fresh(size, span), arrivals))
    ensures RunShort(Fresh(size, span), arrivals).window.timestamp == 0
    decreases |arrivals|
  {
    if |arrivals| > 0 {
      var before := arrivals[..|arrivals| - 1];
      ShortRunFaithful(size, span, before);
      var o := RunShort(Fresh(size, span), before);
      var a := arrivals[|arrivals| - 1];
      if a.id > 0 {
        AcceptSameConsistent(o.window, a.id, a.now, a.later);
        RestartedConsistent(o.window, a.id, 0, a.later);
      }
      FaithfulStep(o, Accept(o.window, a.id, a.now, a.later), a.id, 0);
    }
  }

  lemma NoShortReplay(size: Uint32, span: int, arrivals: seq<Arrival>)
    ensures NoRepeats(RunShort(Fresh(size, span), arrivals).log)
  {
    ShortRunFaithful(size, span, arrivals);
  }

  // ---- Reaping -----------------------------------------------------------

  /**
   Reaping shuts out everything up to the newest expired packet, with one
   exception: when that packet carries the last ID there is, the raised bound
   wraps to zero and the window decides as before.
   */
  lemma ReapedRefuses(w: Window, id: Uint32, now: int, later: int)
    requires Consistent(w) && w.initialized && w.size > 0 && w.span > 0
    requires FirstExpired(w.arrivals, now - w.span) < w.size
    requires 0 < id <= w.highest - FirstExpired(w.arrivals, now - w.span)
    ensures AcceptLongForm(w, id, w.timestamp, now, later).ok <==>
            && w.highest - FirstExpired(w.arrivals, now - w.span) == MAX_UINT32
            && id !in w.accepted && w.highest - id < w.size && id >= w.minimum
  {
    hide AcceptLongForm, FirstExpired, Reaped, Consistent;
    AcceptedExactly(w, id, now, later);
    ReapedFloor(w, now);
  }

  /** Reaping raises the bound past the newest expired packet, or leaves it, if that packet has the last ID. */
  lemma ReapedFloor(w: Window, now: int)
    requires Consistent(w) && w.initialized && w.span > 0 && FirstExpired(w.arrivals, now - w.span) < w.size
    ensures var k := FirstExpired(w.arrivals, now - w.span);
            && k < w.highest
            && (w.highest - k == MAX_UINT32 ==> Reaped(w, now).minimum == w.minimum)
            && (w.highest - k < MAX_UINT32 ==> Reaped(w, now).minimum > w.highest - k)
  {
    var k := FirstExpired(w.arrivals, now - w.span);
    assert w.arrivals[k].Some?;
    hide FirstExpired;
  }

  /**
   When the newest packet carries the last ID and has expired, the raised bound wraps to zero and an
   older packet still passes.
   */
  lemma ReapWraps(size: Uint32, span: int, now: int)
    requires size > 1 && 0 < span < now
    ensures var arrivals := [Arrival(MAX_UINT32, 0, 0, 0), Arrival(MAX_UINT32 - 1, 0, now, now)];
            && FirstExpired(Run(Fresh(size, span), arrivals[..1]).window.arrivals, now - span) == 0
            && Run(Fresh(size, span), arrivals).log == [(MAX_UINT32, 0), (MAX_UINT32 - 1, 0)]
  {
    hide Run, AcceptLongForm, Restarted;
    var one, two := Arrival(MAX_UINT32, 0, 0, 0), Arrival(MAX_UINT32 - 1, 0, now, now);
    var start := Fresh(size, span);
    FirstStep(size, span);
    RunsOne(start, [], one);
    SecondStep(Restarted(start, MAX_UINT32, 0, 0), now);
    RunsOne(start, [one], two);
    assert [] + [one] == [one] && [one] + [two] == [one, two] && [one, two][..1] == [one];
  }

  lemma FirstStep(size: Uint32, span: int)
    requires size > 1
    ensures var w := Restarted(Fresh(size, span), MAX_UINT32, 0, 0);
            && Run(Fresh(size, span), []) == Outcome(Fresh(size, span), [])
            && AcceptLongForm(Fresh(size, span), MAX_UINT32, 0, 0, 0) == Verdict(w, true)
            && w.initialized && w.size == size && w.span == span && w.highest == MAX_UINT32 && w.timestamp == 0 &&
                  w.minimum == 0
            && w.accepted == {MAX_UINT32} && |w.arrivals| == size && w.arrivals[0] == Some(0)
  {
  }

  lemma SecondStep(w: Window, now: int)
    requires w.initialized && w.size > 1 && 0 < w.span < now && w.highest == MAX_UINT32 && w.timestamp == 0
    requires w.minimum == 0
    requires w.accepted == {MAX_UINT32} && |w.arrivals| == w.size && w.arrivals[0] == Some(0)
    ensures FirstExpired(w.arrivals, now - w.span) == 0
    ensures AcceptLongForm(w, MAX_UINT32 - 1, 0, now, now).ok
  {
    assert Reaped(w, now) == w;
  }

  lemma RunsOne(start: Window, before: seq<Arrival>, a: Arrival)
    ensures var o := Run(start, before);
            var v := AcceptLongForm(o.window, a.id, a.timestamp, a.now, a.later);
            Run(start, before + [a]) == Outcome(v.window, if v.ok then o.log + [(a.id, a.timestamp)] else o.log)
  {
    assert (before + [a])[..|before|] == before;
    hide AcceptLongForm;
  }
}

/** The window as the code keeps it: a shifted bitmap and an array of arrival times. */
module ReplayWindows {
  import opened Bytes
  import opened Word64
  import opened ReplaySpec

  /** Bit `p` of the bitmap stands for the ID `p` below the highest one. */
  predicate BitAt(words: seq<Word>, p: nat)
    requires p / 64 < |words|
  {
    Bit(words[p / 64], p % 64)
  }

  /** What the shift writes at `target`, from the words before the shift. */
  function ShiftedWord(words: seq<Word>, shift: nat, target: nat): Word
    requires target < |words|
  {
    var source := target - shift / 64;
    if source < 0 then 0
    else if shift % 64 > 0 && source - 1 >= 0 then
      Union(Left(words[source], shift % 64), Right(words[source - 1], 64 - shift % 64))
    else Left(words[source], shift % 64)
  }

  /** The word and the bit that come to bit `j` of word `target`. */
  lemma Places(shift: nat, target: nat, j: nat)
    requires j < 64
    ensures var source, bits, p := target - shift / 64, shift % 64, 64 * target + j - shift;
            && (source < 0 ==> p < 0) && (source == 0 && j < bits ==> p < 0)
            && (source >= 0 && j >= bits ==> p >= 0 && p / 64 == source && p % 64 == j - bits)
            && (source >= 1 && j < bits ==> p >= 0 && p / 64 == source - 1 && p % 64 == 64 + j - bits)
  {
    var source, bits, p := target - shift / 64, shift % 64, 64 * target + j - shift;
    assert p == 64 * source + j - bits;
  }

  lemma FoundAt(words: seq<Word>, p: int)
    ensures p >= 0 && p / 64 < |words| ==> BitAt(words, p) == Bit(words[p / 64], p % 64)
  {
    hide Bit;
  }

  lemma ShiftedWordBit(words: seq<Word>, shift: nat, target: nat, j: nat)
    requires target < |words| && j < 64
    ensures Bit(ShiftedWord(words, shift, target), j) ==
            (64 * target + j >= shift && BitAt(words, 64 * target + j - shift))
  {
    var source, bits := target - shift / 64, shift % 64;
    hide Left, Right, Union, Bit, BitAt;
    Places(shift, target, j);
    FoundAt(words, 64 * target + j - shift);
    if source < 0 {
      ZeroBit(j);
    } else if bits > 0 && source >= 1 {
      assert ShiftedWord(words, shift, target) == Union(Left(words[source], bits), Right(words[source - 1], 64 - bits));
      hide ShiftedWord;
      JoinedBit(words[source], words[source - 1], bits, j);
    } else {
      assert ShiftedWord(words, shift, target) == Left(words[source], bits);
      hide ShiftedWord;
      LeftBit(words[source], bits, j);
    }
  }

  /** Two words moved against each other: the upper bits of the lower word fill up the other one. */
  lemma JoinedBit(upper: Word, lower: Word, bits: nat, j: nat)
    requires 0 < bits < 64 && j < 64
    ensures Bit(Union(Left(upper, bits), Right(lower, 64 - bits)), j) ==
            if j >= bits then Bit(upper, j - bits) else Bit(lower, 64 + j - bits)
  {
    hide Left, Right, Union, Bit;
    LeftBit(upper, bits, j);
    UnionBit(Left(upper, bits), Right(lower, 64 - bits), j);
    RightBit(lower, 64 - bits, j);
    if j >= bits { BeyondWidth(lower, 64, j + 64 - bits); }
  }

  lemma UnionBit(a: Word, b: Word, k: nat)
    ensures Bit(Union(a, b), k) == (Bit(a, k) || Bit(b, k))
  {
    OrBit(a, b, k);
  }

  /** Moves every bit up by `shift`, filling with zeros. */
  method ShiftBitmap(bitmap: array<Word>, shift: nat)
    modifies bitmap
    ensures forall p :: 0 <= p < 64 * bitmap.Length ==>
              BitAt(bitmap[..], p) == (p >= shift && BitAt(old(bitmap[..]), p - shift))
  {
    hide Left, Right, Union, Bit, BitAt;
    ghost var words := bitmap[..];
    var wordShift, bitShift := shift / 64, shift % 64;
    var target := bitmap.Length;
    while target > 0
      invariant 0 <= target <= bitmap.Length
      invariant forall i :: 0 <= i < target ==> bitmap[i] == words[i]
      invariant forall i :: target <= i < bitmap.Length ==> bitmap[i] == ShiftedWord(words, shift, i)
    {
      target := target - 1;
      var source := target - wordShift;
      var result: Word := 0;
      if source >= 0 {
        result := Left(bitmap[source], bitShift);
        if bitShift > 0 && source - 1 >= 0 {
          result := Union(result, Right(bitmap[source - 1], 64 - bitShift));
        }
      }
      bitmap[target] := result;
    }
    ShiftedBits(words, bitmap[..], shift);
  }

  lemma ShiftedBits(words: seq<Word>, shifted: seq<Word>, shift: nat)
    requires |shifted| == |words|
    requires forall i :: 0 <= i < |words| ==> shifted[i] == ShiftedWord(words, shift, i)
    ensures forall p :: 0 <= p < 64 * |words| ==> BitAt(shifted, p) == (p >= shift && BitAt(words, p - shift))
  {
    hide ShiftedWord, Bit;
    forall p | 0 <= p < 64 * |words|
      ensures BitAt(shifted, p) == (p >= shift && BitAt(words, p - shift))
    {
      ShiftedWordBit(words, shift, p / 64, p % 64);
    }
  }

  /** A cleared bitmap with its lowest bit set. */
  lemma SingleBit(words: seq<Word>)
    requires |words| > 0 && words[0] == 1 && forall i :: 1 <= i < |words| ==> words[i] == 0
    ensures forall p :: 0 <= p < 64 * |words| ==> BitAt(words, p) == (p == 0)
  {
    hide Bit;
    forall p | 0 <= p < 64 * |words| ensures BitAt(words, p) == (p == 0) {
      if p < 64 { OneBit(p); } else { ZeroBit(p % 64); }
    }
  }

  /** Setting one bit leaves the others alone. */
  lemma BitSet(words: seq<Word>, q: nat)
    requires q / 64 < |words|
    ensures var marked := words[q / 64 := Union(words[q / 64], Left(1, q % 64))];
            forall p :: 0 <= p < 64 * |words| ==> BitAt(marked, p) == (BitAt(words, p) || p == q)
  {
    hide Bit, Union, Left;
    var marked := words[q / 64 := Union(words[q / 64], Left(1, q % 64))];
    forall p | 0 <= p < 64 * |words| ensures BitAt(marked, p) == (BitAt(words, p) || p == q) {
      if p / 64 == q / 64 {
        UnionBit(words[q / 64], Left(1, q % 64), p % 64);
        LeftBit(1, q % 64, p % 64);
        if p % 64 >= q % 64 { OneBit(p % 64 - q % 64); }
      }
    }
  }

  method ShiftTimes(arrivalTimes: array<Stamp>, shift: nat)
    modifies arrivalTimes
    ensures arrivalTimes[..] == Shifted(old(arrivalTimes[..]), shift)
  {
    ghost var times := arrivalTimes[..];
    if shift == 0 || arrivalTimes.Length == 0 {
      return;
    }
    if shift >= arrivalTimes.Length {
      ClearTimes(arrivalTimes);
      return;
    }
    forall i | shift <= i < arrivalTimes.Length {
      arrivalTimes[i] := arrivalTimes[i - shift];
    }
    for i := 0 to shift
      invariant forall k :: 0 <= k < i ==> arrivalTimes[k] == None
      invariant forall k :: shift <= k < arrivalTimes.Length ==> arrivalTimes[k] == times[k - shift]
    {
      arrivalTimes[i] := None;
    }
  }

  method ClearTimes(arrivalTimes: array<Stamp>)
    modifies arrivalTimes
    ensures arrivalTimes[..] == Empty(arrivalTimes.Length)
  {
    for i := 0 to arrivalTimes.Length
      invariant forall k :: 0 <= k < i ==> arrivalTimes[k] == None
    {
      arrivalTimes[i] := None;
    }
  }

  method ClearBitmap(bitmap: array<Word>)
    modifies bitmap
    ensures forall k :: 0 <= k < bitmap.Length ==> bitmap[k] == 0
  {
    for i := 0 to bitmap.Length
      invariant forall k :: 0 <= k < i ==> bitmap[k] == 0
    {
      bitmap[i] := 0;
    }
  }

  class ReplayWindow {
    const windowSize: Uint32
    const timeWindow: int
    var initialized: bool
    var highestID: Uint32
    var highestTimestamp: Uint32
    var minimumID: Uint32
    const bitmap: array<Word>
    const arrivalTimes: array<Stamp>
    ghost var accepted: set<Uint32>

    ghost function View(): Window
      reads this, arrivalTimes
      requires arrivalTimes.Length == windowSize
    {
      Window(windowSize, timeWindow, initialized, highestID, highestTimestamp, minimumID, accepted, arrivalTimes[..])
    }

    /** Bit k is set exactly when the ID k below the highest was accepted since the last reset. */
    ghost predicate BitsTell()
      reads this, bitmap
      requires bitmap.Length == (windowSize + 63) / 64
    {
      forall k :: 0 <= k < windowSize ==> BitAt(bitmap[..], k) == (k < highestID && highestID - k in accepted)
    }

    ghost predicate Valid()
      reads this, bitmap, arrivalTimes
    {
      && bitmap.Length == (windowSize + 63) / 64
      && arrivalTimes.Length == windowSize
      && Consistent(View())
      && (initialized ==> BitsTell())
    }

    constructor (windowSize: Uint32, timeWindow: int)
      ensures Valid() && View() == Fresh(windowSize, timeWindow)
      ensures fresh(bitmap) && fresh(arrivalTimes)
    {
      this.windowSize := windowSize;
      this.timeWindow := timeWindow;
      initialized, highestID, highestTimestamp, minimumID := false, 0, 0, 0;
      bitmap := new Word[(windowSize + 63) / 64](_ => 0);
      arrivalTimes := new Stamp[windowSize](_ => None);
      accepted := {};
      new;
      assert arrivalTimes[..] == Empty(windowSize);
    }

    method Initialize(packetID: Uint32, timestamp: Uint32, now: int)
      requires Valid() && packetID > 0
      modifies this, bitmap, arrivalTimes
      ensures Valid() && View() == Restarted(old(View()), packetID, timestamp, now)
    {
      hide BitAt, Consistent;
      ghost var before := View();
      RestartedConsistent(before, packetID, timestamp, now);
      initialized := true;
      highestTimestamp := timestamp;
      highestID := packetID;
      minimumID := 0;
      accepted := {packetID};
      ClearBitmap(bitmap);
      ClearTimes(arrivalTimes);
      if windowSize > 0 {
        bitmap[0] := 1;
        arrivalTimes[0] := Some(now);
        SingleBit(bitmap[..]);
      }
      assert arrivalTimes[..] == if windowSize > 0 then Empty(windowSize)[0 := Some(now)] else [];
    }

    method Reap(now: int)
      requires Valid()
      modifies this`minimumID
      ensures Valid() && View() == Reaped(old(View()), now)
    {
      if timeWindow <= 0 {
        return;
      }
      var cutoff := now - timeWindow;
      for offset := 0 to arrivalTimes.Length
        invariant View() == old(View()) && Valid()
        invariant forall j :: 0 <= j < offset ==> !Expired(arrivalTimes[..][j], cutoff)
      {
        if arrivalTimes[offset].None? || arrivalTimes[offset].value >= cutoff {
          continue;
        }
        FirstExpiredIs(arrivalTimes[..], cutoff, offset);
        var floor: Uint32 := (highestID - offset + 1) % 0x1_0000_0000;
        if floor > minimumID {
          minimumID := floor;
        }
        return;
      }
      FirstExpiredIs(arrivalTimes[..], cutoff, arrivalTimes.Length);
    }

    static lemma FirstExpiredIs(arrivals: seq<Stamp>, cutoff: int, k: nat)
      requires k <= |arrivals| && (k < |arrivals| ==> Expired(arrivals[k], cutoff))
      requires forall j :: 0 <= j < k ==> !Expired(arrivals[j], cutoff)
      ensures FirstExpired(arrivals, cutoff) == k
    {
      var first := FirstExpired(arrivals, cutoff);
      assert !(first < k) && !(k < first);
    }

    /** Bits of the old bitmap moved up by the distance to the new highest ID. */
    static ghost predicate Moved(words: seq<Word>, moved: seq<Word>, shift: nat, size: nat)
      requires size <= 64 * |words| && |moved| == |words|
    {
      forall p :: 0 <= p < size ==> BitAt(moved, p) == ((p >= shift && BitAt(words, p - shift)) || p == 0)
    }

    /** Makes room for `shift` new IDs at the low end and marks the newest. */
    method Advance(shift: nat)
      requires Valid() && initialized && windowSize > 0 && shift > 0
      modifies bitmap
      ensures Moved(old(bitmap[..]), bitmap[..], shift, windowSize)
    {
      hide BitAt, Left, Union;
      if shift >= windowSize {
        ClearBitmap(bitmap);
        ghost var words := bitmap[..];
        assert words[0] == 0;
        bitmap[0] := Union(bitmap[0], 1);
        assert bitmap[0] == 1 by { assert Or(0, 1) == 1; UnionIs(0, 1); }
        SingleBit(bitmap[..]);
      } else {
        ghost var before := bitmap[..];
        ShiftBitmap(bitmap, shift);
        ghost var words := bitmap[..];
        assert forall p :: 0 <= p < 64 * |words| ==> BitAt(words, p) == (p >= shift && BitAt(before, p - shift));
        bitmap[0] := Union(bitmap[0], 1);
        LowBitSet(words);
        ghost var marked := words[0 := Union(words[0], 1)];
        assert bitmap[..] == marked;
        forall p | 0 <= p < windowSize
          ensures BitAt(marked, p) == ((p >= shift && BitAt(before, p - shift)) || p == 0)
        {
          assert BitAt(marked, p) == (BitAt(words, p) || p == 0);
        }
      }
    }

    static lemma LowBitSet(words: seq<Word>)
      requires |words| > 0
      ensures forall p :: 0 <= p < 64 * |words| ==>
            BitAt(words[0 := Union(words[0], 1)], p) == (BitAt(words, p) || p == 0)
    {
      hide BitAt, Union;
      BitSet(words, 0);
      assert Left(1, 0) == 1;
    }

    static lemma UnionIs(a: Word, b: Word)
      ensures Union(a, b) == Or(a, b)
    {
    }

    method AcceptLocked(packetID: Uint32, now: int, later: int) returns (ok: bool)
      requires Valid() && packetID > 0
      modifies this, bitmap, arrivalTimes
      ensures Valid()
      ensures Verdict(View(), ok) == AcceptSame(old(View()), packetID, now, later)
    {
      AcceptSameConsistent(View(), packetID, now, later);
      hide FirstExpired, Shifted, BitAt, Empty;
      if !initialized {
        Initialize(packetID, 0, later);
        return true;
      }
      if windowSize == 0 {
        if packetID != (highestID + 1) % 0x1_0000_0000 {
          return false;
        }
        highestID := packetID;
        accepted := accepted + {packetID};
        return true;
      }
      Reap(now);
      if packetID > highestID {
        Raise(packetID, later);
        return true;
      }
      if packetID < minimumID {
        return false;
      }
      var offset := highestID - packetID;
      if offset >= windowSize {
        return false;
      }
      ok := Fill(offset, later);
    }

    /** Takes in a packet above everything seen so far. */
    method Raise(packetID: Uint32, now: int)
      requires Valid() && initialized && windowSize > 0 && packetID > highestID
      modifies this`highestID, this`accepted, bitmap, arrivalTimes
      ensures BitsTell() && arrivalTimes.Length == windowSize
      ensures View() == old(View()).(highest := packetID, accepted := old(accepted) + {packetID},
                                     arrivals := Shifted(old(arrivalTimes[..]),
                                         packetID - old(highestID))[0 := Some(now)])
    {
      hide BitAt, Moved;
      var shift := packetID - highestID;
      ghost var words := bitmap[..];
      Advance(shift);
      ShiftTimes(arrivalTimes, shift);
      MovedTell(words, bitmap[..], windowSize, highestID, packetID, accepted);
      arrivalTimes[0] := Some(now);
      highestID := packetID;
      accepted := accepted + {packetID};
    }

    /** Bits that told about IDs up to `highest` tell, once moved, about those up to `id`. */
    static lemma MovedTell(words: seq<Word>, moved: seq<Word>, size: nat, highest: nat, id: nat, accepted: set<Uint32>)
      requires size <= 64 * |words| && |moved| == |words| && highest < id <= MAX_UINT32
      requires Moved(words, moved, id - highest, size)
      requires forall k :: 0 <= k < size ==> BitAt(words, k) == (k < highest && highest - k in accepted)
      requires forall other :: other in accepted ==> 1 <= other <= highest
      ensures forall k :: 0 <= k < size ==> BitAt(moved, k) == (k < id && id - k in accepted + {id})
    {
      hide BitAt;
      var shift := id - highest;
      forall k | 0 <= k < size ensures BitAt(moved, k) == (k < id && id - k in accepted + {id}) {
        assert BitAt(moved, k) == ((k >= shift && BitAt(words, k - shift)) || k == 0);
      }
    }

    /** Takes in a packet inside the window unless its bit is already set. */
    method Fill(offset: nat, now: int) returns (ok: bool)
      requires Valid() && initialized && offset < windowSize && offset < highestID
      modifies this`accepted, bitmap, arrivalTimes
      ensures BitsTell() && arrivalTimes.Length == windowSize
      ensures ok <==> highestID - offset !in old(accepted)
      ensures View() == if !ok then old(View()) else
                        old(View()).(accepted := old(accepted) + {highestID - offset},
                                     arrivals := old(arrivalTimes[..])[offset := Some(now)])
    {
      hide Left, Union, Bit;
      var packetMask := Left(1, offset % 64);
      assert BitAt(bitmap[..], offset) == (highestID - offset in accepted);
      MaskPicks(bitmap[offset / 64], offset % 64);
      if And(bitmap[offset / 64], packetMask) != 0 {
        return false;
      }
      ghost var words := bitmap[..];
      bitmap[offset / 64] := Union(bitmap[offset / 64], packetMask);
      BitSet(words, offset);
      assert bitmap[..] == words[offset / 64 := Union(words[offset / 64], packetMask)];
      arrivalTimes[offset] := Some(now);
      accepted := accepted + {highestID - offset};
      return true;
    }

    /** Accepts a packet without a timestamp; the reset state tells whether it is the first. */
    method Accept(packetID: Uint32, now: int, later: int) returns (ok: bool)
      requires Valid()
      modifies this, bitmap, arrivalTimes
      ensures Valid()
      ensures Verdict(View(), ok) == ReplaySpec.Accept(old(View()), packetID, now, later)
    {
      if packetID == 0 {
        return false;
      }
      ok := AcceptLocked(packetID, now, later);
    }

    method AcceptLongForm(packetID: Uint32, timestamp: Uint32, now: int, later: int) returns (ok: bool)
      requires Valid()
      modifies this, bitmap, arrivalTimes
      ensures Valid()
      ensures Verdict(View(), ok) == ReplaySpec.AcceptLongForm(old(View()), packetID, timestamp, now, later)
    {
      if packetID == 0 {
        return false;
      }
      if !initialized {
        if windowSize == 0 && timestamp > 0 && packetID != 1 {
          return false;
        }
        Initialize(packetID, timestamp, later);
        return true;
      }
      if timestamp < highestTimestamp {
        return false;
      }
      if timestamp > highestTimestamp {
        if windowSize == 0 && packetID != 1 {
          return false;
        }
        Initialize(packetID, timestamp, later);
        return true;
      }
      ok := AcceptLocked(packetID, now, later);
    }
  }
}
