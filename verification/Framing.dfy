/** The data channel's framing: compression marker inside, fragment header outside. */
module Framing {
  import opened Arithmetic
  import opened Bytes
  import LzoCompress
  import opened Compression
  import opened FragmentHeader
  import opened Reassembly
  import opened Interleaving

  const ADAPTIVE_SAMPLE := 2_000_000_000
  const ADAPTIVE_OFF := 60_000_000_000
  const ADAPTIVE_MINIMUM_BYTES := 1000
  const ADAPTIVE_SAVE_PERCENT := 5

  /** What a decoded packet amounts to. */
  datatype Decoded = Pending | Payload(bytes: seq<Byte>) | Foreign(block: seq<Byte>) | Dropped

  function Deliver(settings: Settings, outcome: Outcome): Decoded {
    match outcome
    case Incomplete => Pending
    case Refused => Dropped
    case Complete(framed) =>
      match Unframe(settings, framed)
      case Plain(payload) => Payload(payload)
      case Lz4Block(block) => Foreign(block)
      case Invalid => Dropped
  }

  /** The index of the last fragment of a packet longer than the fragment size. */
  function LastPart(m: Message): nat
    requires m.size > 0 && |m.framed| > 0
  {
    (|m.framed| - 1) / m.size
  }

  lemma LastPartCuts(m: Message)
    requires m.size > 0 && |m.framed| > 0
    ensures CutOff(m, LastPart(m))
  {
    var n := |m.framed| - 1;
    assert n == m.size * (n / m.size) + n % m.size;
  }

  /** What encoding a framed packet yields. */
  datatype Encoded = Frame(frames: seq<seq<Byte>>) | TooSmall | TooMany

  /** The first `n` fragments. */
  function FirstParts(m: Message, last: nat, sequence: nat, n: nat): (r: seq<seq<Byte>>)
    ensures |r| == n
  {
    if n == 0 then [] else FirstParts(m, last, sequence, n - 1) + [PartBytes(m, last, sequence, n - 1)]
  }

  lemma {:induction false} FirstPartsAt(m: Message, last: nat, sequence: nat, n: nat, j: nat)
    requires j < n
    ensures FirstParts(m, last, sequence, n)[j] == PartBytes(m, last, sequence, j)
    decreases n
  {
    hide PartBytes;
    if j < n - 1 { FirstPartsAt(m, last, sequence, n - 1, j); }
  }

  /** Fragments of up to `fragmentSize` bytes, rounded down to a multiple of four. */
  function Fragments(framed: seq<Byte>, fragmentSize: int, sequence: nat): Encoded {
    var size := fragmentSize - fragmentSize % 4;
    if size <= 0 then TooSmall
    else if |framed| <= size then Frame([Prepend(framed, TYPE_WHOLE, 0, 0, 0)])
    else
      var m := Message(framed, size);
      if LastPart(m) >= MAX_PARTS then TooMany
      else Frame(FirstParts(m, LastPart(m), sequence, LastPart(m) + 1))
  }

  /** The sampling that decides whether compression is worth trying. */
  datatype Adaptive = Adaptive(disabled: bool, next: Option<int>, total: int, compressed: int)

  /** At the end of a period compression goes off if it saved less than five percent, and comes back after being off. */
  function Sampled(a: Adaptive, now: int): Adaptive {
    if a.next.Some? && now < a.next.value then a
    else if a.disabled then Adaptive(false, Some(now + ADAPTIVE_SAMPLE), 0, 0)
    else if a.total > ADAPTIVE_MINIMUM_BYTES && a.total - a.compressed < a.total / (100 / ADAPTIVE_SAVE_PERCENT) then
      Adaptive(true, Some(now + ADAPTIVE_OFF), 0, 0)
    else Adaptive(false, Some(now + ADAPTIVE_SAMPLE), 0, 0)
  }

  function SampledAll(a: Adaptive, times: seq<int>): Adaptive {
    if |times| == 0 then a else Sampled(SampledAll(a, times[..|times| - 1]), times[|times| - 1])
  }

  /** Compression that goes off stays off for a minute, however often it is asked for, and then comes back. */
  lemma {:induction false} OffForAMinute(a: Adaptive, now: int, times: seq<int>, later: int)
    requires !a.disabled && Sampled(a, now).disabled
    requires forall k :: 0 <= k < |times| ==> times[k] < now + ADAPTIVE_OFF
    ensures SampledAll(Sampled(a, now), times) == Sampled(a, now)
    ensures later >= now + ADAPTIVE_OFF ==> !Sampled(SampledAll(Sampled(a, now), times), later).disabled
    decreases |times|
  {
    if |times| > 0 {
      OffForAMinute(a, now, times[..|times| - 1], later);
      assert times[|times| - 1] < now + ADAPTIVE_OFF;
    }
  }

  /** With compression tried, the shorter of the block and the stored payload is sent. */
  predicate Chosen(payload: seq<Byte>, tried: bool, block: seq<Byte>, framed: seq<Byte>) {
    && (tried ==> |payload| >= COMPRESSION_THRESHOLD && LzoCompress.BlockOf(payload, block))
    && framed == if tried && |block| < |payload| then [LZO_COMPRESS] + block else [NO_COMPRESS] + payload
  }

  lemma ChosenIsFrame(payload: seq<Byte>, tried: bool, block: seq<Byte>, framed: seq<Byte>)
    requires Chosen(payload, tried, block, framed)
    ensures framed == [NO_COMPRESS] + payload || Compressed(payload, framed)
  {
    assert ([LZO_COMPRESS] + block)[1..] == block;
  }

  class DataChannelFraming {
    const compression: Settings
    const compressOutbound: bool
    const fragmentSize: int
    var lzoAdaptiveDisabled: bool
    var lzoAdaptiveNext: Option<int>
    var lzoAdaptiveTotalBytes: int
    var lzoAdaptiveCompressedBytes: int
    var outgoingSequence: nat
    var incomingBySequence: map<nat, Buffer>
    var incomingBytes: int
    var incomingSequence: nat
    var incomingSequenceSet: bool

    function View(): State
      reads this
    {
      State(incomingBySequence, incomingSequence, incomingSequenceSet)
    }

    /** The byte counter is exactly what the buffers hold. */
    ghost predicate Valid()
      reads this
    {
      && outgoingSequence < 256
      && Accounted(View())
      && incomingBytes == TotalBytes(incomingBySequence, 256)
    }

    constructor (compression: Settings, compressOutbound: bool, fragmentSize: int, firstSequence: nat)
      requires firstSequence < 256
      ensures Valid() && View() == FRESH && outgoingSequence == firstSequence
      ensures this.compression == compression && this.compressOutbound == compressOutbound
      ensures this.fragmentSize == fragmentSize
    {
      this.compression := compression;
      this.compressOutbound := compressOutbound;
      this.fragmentSize := fragmentSize;
      lzoAdaptiveDisabled, lzoAdaptiveNext := false, None;
      lzoAdaptiveTotalBytes, lzoAdaptiveCompressedBytes := 0, 0;
      outgoingSequence := firstSequence;
      incomingBySequence, incomingBytes := map[], 0;
      incomingSequence, incomingSequenceSet := 0, false;
      NothingHeld(256);
    }

    static lemma {:induction false} NothingHeld(n: nat)
      ensures TotalBytes(map[], n) == 0
    {
      if n > 0 { NothingHeld(n - 1); }
    }

    // ---- Sending ---------------------------------------------------------

    ghost function Sampling(): Adaptive
      reads this
    {
      Adaptive(lzoAdaptiveDisabled, lzoAdaptiveNext, lzoAdaptiveTotalBytes, lzoAdaptiveCompressedBytes)
    }

    method LzoCompressionEnabled(now: int) returns (enabled: bool)
      modifies this`lzoAdaptiveDisabled, this`lzoAdaptiveNext, this`lzoAdaptiveTotalBytes,
          this`lzoAdaptiveCompressedBytes
      ensures Sampling() == if compression.adaptive then Sampled(old(Sampling()), now) else old(Sampling())
      ensures enabled <==> compression.adaptive ==> !Sampling().disabled
    {
      if !compression.adaptive {
        return true;
      }
      if lzoAdaptiveNext.None? || now >= lzoAdaptiveNext.value {
        if lzoAdaptiveDisabled {
          lzoAdaptiveDisabled := false;
          lzoAdaptiveNext := Some(now + ADAPTIVE_SAMPLE);
        } else if lzoAdaptiveTotalBytes > ADAPTIVE_MINIMUM_BYTES &&
                  lzoAdaptiveTotalBytes - lzoAdaptiveCompressedBytes <
                    lzoAdaptiveTotalBytes / (100 / ADAPTIVE_SAVE_PERCENT) {
          lzoAdaptiveDisabled := true;
          lzoAdaptiveNext := Some(now + ADAPTIVE_OFF);
        } else {
          lzoAdaptiveNext := Some(now + ADAPTIVE_SAMPLE);
        }
        lzoAdaptiveTotalBytes := 0;
        lzoAdaptiveCompressedBytes := 0;
      }
      return !lzoAdaptiveDisabled;
    }

    /** Whether a payload is worth compressing, once the sampling has been brought up to date. */
    ghost predicate Tries(payload: seq<Byte>, sampling: Adaptive)
      reads this
    {
      compressOutbound && |payload| >= COMPRESSION_THRESHOLD && (compression.adaptive ==> !sampling.disabled)
    }

    /** The block is sent exactly when it is tried and shorter, and both sizes enter the sample. */
    method EncodeLzoFrame(payload: seq<Byte>, now: int) returns (framed: seq<Byte>, ghost block: seq<Byte>)
      modifies this`lzoAdaptiveDisabled, this`lzoAdaptiveNext, this`lzoAdaptiveTotalBytes,
          this`lzoAdaptiveCompressedBytes
      ensures Chosen(payload, Tries(payload, Sampled(old(Sampling()), now)), block, framed)
      ensures Sampling() ==
              if !compressOutbound || |payload| < COMPRESSION_THRESHOLD || !compression.adaptive then old(Sampling())
              else
                var sampled := Sampled(old(Sampling()), now);
                if sampled.disabled then sampled
                else sampled.(total := sampled.total + |payload|, compressed := sampled.compressed + |block|)
    {
      block := [];
      if !compressOutbound || |payload| < COMPRESSION_THRESHOLD {
        return [NO_COMPRESS] + payload, block;
      }
      var enabled := LzoCompressionEnabled(now);
      if !enabled {
        return [NO_COMPRESS] + payload, block;
      }
      var compressed := LzoCompress.CompressBlock(payload);
      block := compressed;
      if compression.adaptive {
        lzoAdaptiveTotalBytes := lzoAdaptiveTotalBytes + |payload|;
        lzoAdaptiveCompressedBytes := lzoAdaptiveCompressedBytes + |compressed|;
      }
      if |compressed| >= |payload| {
        return [NO_COMPRESS] + payload, block;
      }
      framed := [LZO_COMPRESS] + compressed;
    }

    method EncodeFragments(framed: seq<Byte>, fragmentSize: int) returns (result: Encoded)
      requires outgoingSequence < 256
      modifies this`outgoingSequence
      ensures result == Fragments(framed, fragmentSize, old(outgoingSequence))
      ensures outgoingSequence ==
              if result == TooSmall || |framed| <= fragmentSize - fragmentSize % 4 then old(outgoingSequence)
              else (old(outgoingSequence) + 1) % 256
    {
      hide PartBytes, LastPart, Cut, Prepend;
      var size := fragmentSize - fragmentSize % 4;
      if size <= 0 {
        return TooSmall;
      }
      if |framed| <= size {
        return Frame([Prepend(framed, TYPE_WHOLE, 0, 0, 0)]);
      }
      var sequence := outgoingSequence;
      outgoingSequence := (outgoingSequence + 1) % 256;
      ghost var m := Message(framed, size);
      ghost var last := LastPart(m);
      LastPartCuts(m);
      NextCut(m, last, 0);
      var fragments: seq<seq<Byte>> := [];
      var offset, id := 0, 0;
      while offset < |framed|
        invariant outgoingSequence == (sequence + 1) % 256
        invariant 0 <= offset <= |framed| && id <= MAX_PARTS
        invariant id == |fragments| && offset == Cut(m, id)
        invariant id <= last + 1 && (offset < |framed| ==> id <= last)
        invariant offset == |framed| ==> id == last + 1
        invariant fragments == FirstParts(m, last, sequence, id)
        decreases |framed| - offset
      {
        if id >= MAX_PARTS {
          return TooMany;
        }
        var chunk := if size < |framed| - offset then size else |framed| - offset;
        NextCut(m, last, id);
        PartIs(m, last, sequence, id);
        if offset + chunk >= |framed| {
          fragments := fragments + [Prepend(framed[offset..offset + chunk], TYPE_LAST, sequence, id, size / 4)];
        } else {
          fragments := fragments + [Prepend(framed[offset..offset + chunk], TYPE_PARTIAL, sequence, id, 0)];
        }
        offset := offset + chunk;
        id := id + 1;
      }
      result := Frame(fragments);
    }

    /** Between two cuts lies the part, and it is marked as the last one or not. */
    static lemma PartIs(m: Message, last: nat, sequence: nat, j: nat)
      ensures Cut(m, j) <= Cut(m, j + 1) <= |m.framed|
      ensures var part := m.framed[Cut(m, j)..Cut(m, j + 1)];
              PartBytes(m, last, sequence, j) ==
                if j == last then Prepend(part, TYPE_LAST, sequence, j, m.size / 4)
                else Prepend(part, TYPE_PARTIAL, sequence, j, 0)
    {
      hide Cut, Prepend;
      CutsGrow(m, j);
    }

    static lemma NextCut(m: Message, last: nat, j: nat)
      requires m.size > 0 && CutOff(m, last) && j <= last
      ensures Cut(m, j) == j * m.size < |m.framed|
      ensures Cut(m, j + 1) - Cut(m, j) == if m.size < |m.framed| - Cut(m, j) then m.size else |m.framed| - Cut(m, j)
      ensures Cut(m, j + 1) == |m.framed| <==> j == last
    {
      Times(j, last, m.size);
      assert (j + 1) * m.size == j * m.size + m.size;
      if j < last {
        Times(j + 1, last, m.size);
      }
    }

    /** Compresses or marks the payload and cuts the result into fragments. */
    method Encode(payload: seq<Byte>, budget: int, now: int)
      returns (result: Encoded, ghost framed: seq<Byte>, ghost block: seq<Byte>)
      requires Valid()
      modifies this
      ensures Valid() && View() == old(View())
      ensures Frames(compression, payload, framed)
      ensures compression.algorithm.Lzo? ==>
            Chosen(payload, Tries(payload, Sampled(old(Sampling()), now)), block, framed)
      ensures result == if fragmentSize <= 0 then Frame([framed]) else Fragments(framed, budget, old(outgoingSequence))
      ensures outgoingSequence ==
              if fragmentSize <= 0 || result == TooSmall || |framed| <= budget - budget % 4 then old(outgoingSequence)
              else (old(outgoingSequence) + 1) % 256
    {
      var frame := payload;
      block := [];
      match compression.algorithm {
        case NoCompression =>
        case Stub => frame := ApplyStub(payload, compression.swap);
        case Lz4 => frame := ApplyStub(payload, true);
        case Lzo =>
          frame, block := EncodeLzoFrame(payload, now);
          ChosenIsFrame(payload, Tries(payload, Sampled(old(Sampling()), now)), block, frame);
        case StubV2 => frame := EscapeV2(payload);
        case Lz4V2 => frame := EscapeV2(payload);
      }
      framed := frame;
      if fragmentSize <= 0 {
        return Frame([frame]), frame, block;
      }
      result := EncodeFragments(frame, budget);
    }

    // ---- Receiving -------------------------------------------------------

    static lemma {:induction false} TotalWithout(buffers: map<nat, Buffer>, q: nat, n: nat)
      ensures TotalBytes(buffers - {q}, n) == TotalBytes(buffers, n) - if q < n then Held(buffers, q) else 0
    {
      if n > 0 { TotalWithout(buffers, q, n - 1); }
    }

    static lemma {:induction false} TotalWith(buffers: map<nat, Buffer>, q: nat, b: Buffer, n: nat)
      ensures TotalBytes(buffers[q := b], n) == TotalBytes(buffers, n) + if q < n then b.bytes - Held(buffers, q) else 0
    {
      if n > 0 { TotalWith(buffers, q, b, n - 1); }
    }

    static lemma AccountedWithout(s: State, q: nat)
      requires Accounted(s)
      ensures Accounted(s.(buffers := s.buffers - {q}))
    {
    }

    method DeleteBuffer(sequence: nat)
      requires Valid()
      modifies this`incomingBySequence, this`incomingBytes
      ensures Valid() && incomingBySequence == old(incomingBySequence) - {sequence}
    {
      if sequence !in incomingBySequence {
        return;
      }
      hide Accounted, TotalBytes;
      AccountedWithout(View(), sequence);
      TotalWithout(incomingBySequence, sequence, 256);
      assert 0 <= TotalBytes(incomingBySequence - {sequence}, 256) by {
        MemoryBounded(View().(buffers := incomingBySequence - {sequence}));
      }
      assert sequence < 256 by { KnownSequence(View(), sequence); }
      var held := incomingBySequence[sequence].bytes;
      incomingBySequence := incomingBySequence - {sequence};
      incomingBytes := incomingBytes - held;
      incomingBytes := if incomingBytes > 0 then incomingBytes else 0;
    }

    static lemma KnownSequence(s: State, q: nat)
      requires Accounted(s) && q in s.buffers
      ensures q < 256
    {
    }

    /** Deletes every buffer outside `kept`, one at a time. */
    method RetainBuffers(kept: set<nat>)
      requires Valid()
      modifies this`incomingBySequence, this`incomingBytes
      ensures Valid() && View() == Restrict(old(View()), kept)
    {
      hide Accounted, TotalBytes;
      var pending := incomingBySequence.Keys - kept;
      ghost var all := incomingBySequence;
      while pending != {}
        invariant Valid() && pending <= all.Keys - kept
        invariant incomingBySequence == all - (all.Keys - kept - pending)
        invariant incomingSequence == old(incomingSequence) && incomingSequenceSet == old(incomingSequenceSet)
        decreases pending
      {
        var sequence :| sequence in pending;
        DeleteBuffer(sequence);
        pending := pending - {sequence};
      }
    }

    method ExpireFragments(now: int)
      requires Valid()
      modifies this`incomingBySequence, this`incomingBytes
      ensures Valid() && View() == Expire(old(View()), now)
    {
      hide Accounted, TotalBytes;
      RetainBuffers(set q | q in incomingBySequence && now - incomingBySequence[q].updated < TIMEOUT);
    }

    method AdvanceWindow(sequence: nat)
      requires Valid() && sequence < 256
      modifies this`incomingBySequence, this`incomingBytes, this`incomingSequence, this`incomingSequenceSet
      ensures Valid() && View() == Advance(old(View()), sequence)
    {
      hide TotalBytes, Difference;
      AdvanceAccounted(View(), sequence);
      if !incomingSequenceSet {
        incomingSequence := sequence;
        incomingSequenceSet := true;
        return;
      }
      var difference := Difference(sequence, incomingSequence);
      if difference >= RECEIVE_WINDOW || difference <= -RECEIVE_WINDOW {
        RetainBuffers({});
        incomingSequence := sequence;
        return;
      }
      if difference <= 0 {
        return;
      }
      RetainBuffers(set q | q in incomingBySequence && InWindow(q, sequence));
      incomingSequence := sequence;
    }

    static lemma AccountedWith(s: State, q: nat, b: Buffer)
      requires Accounted(s) && s.sequenceSet && q < 256 && InWindow(q, s.sequence) && BufferAccounted(b)
      ensures Accounted(s.(buffers := s.buffers[q := b]))
    {
      hide InWindow, BufferAccounted;
    }

    /** The parts below `count` in order, if none is missing. */
    static method Gather(parts: map<nat, seq<Byte>>, count: nat) returns (payload: seq<Byte>, found: bool)
      ensures found <==> forall id :: 0 <= id < count ==> id in parts
      ensures found ==> payload == Join(parts, count)
    {
      payload := [];
      for id := 0 to count
        invariant forall k :: 0 <= k < id ==> k in parts
      {
        if id !in parts {
          return [], false;
        }
      }
      for id := 0 to count
        invariant payload == Join(parts, id)
      {
        payload := payload + parts[id];
      }
      found := true;
    }

    /** The buffer for a fragment, created or replaced when none agrees on the fragment size. */
    method OpenBuffer(f: Fragment, now: int) returns (buffer: Buffer)
      requires Valid() && f.sequence < 256 && incomingSequenceSet && InWindow(f.sequence, incomingSequence)
      modifies this`incomingBySequence, this`incomingBytes
      ensures Valid() && buffer == Target(old(View()), f, now) && BufferAccounted(buffer)
      ensures incomingBySequence == old(incomingBySequence)[f.sequence := buffer]
    {
      hide Accounted, TotalBytes, InWindow, BufferAccounted;
      TargetAccounted(View(), f, now);
      var size := if f.maxSize > 0 then f.maxSize else |f.payload|;
      if f.sequence in incomingBySequence && incomingBySequence[f.sequence].maxSize != size {
        DeleteBuffer(f.sequence);
      }
      if f.sequence !in incomingBySequence {
        buffer := Buffer(size, -1, map[], 0, now);
        AccountedWith(View(), f.sequence, buffer);
        TotalWith(incomingBySequence, f.sequence, buffer, 256);
        incomingBySequence := incomingBySequence[f.sequence := buffer];
      }
      buffer := incomingBySequence[f.sequence];
    }

    /** Takes in one fragment; the memory limit that would evict other packets is never reached. */
    method StoreFragment(f: Fragment, now: int) returns (outcome: Outcome)
      requires Valid() && f.sequence < 256 && f.id < 32
      modifies this`incomingBySequence, this`incomingBytes, this`incomingSequence, this`incomingSequenceSet
      ensures Valid() && Step(View(), outcome) == Store(old(View()), f, now)
    {
      hide Accounted, TotalBytes, Expire, Advance, Target, Join, InWindow, BufferAccounted;
      ExpireFragments(now);
      if |f.payload| > MAX_PACKET_BYTES {
        return Refused;
      }
      AdvanceAccounted(View(), f.sequence);
      AdvanceWindow(f.sequence);
      ghost var moved := View();
      var buffer := OpenBuffer(f, now);
      var additional := |f.payload| - PartLength(buffer.parts, f.id);
      if buffer.bytes + additional > MAX_PACKET_BYTES {
        DeleteBuffer(f.sequence);
        assert incomingBySequence == moved.buffers - {f.sequence};
        return Refused;
      }
      var stored := Stored(buffer, f, now);
      StoredAccounted(buffer, f, now);
      AccountedWith(View(), f.sequence, stored);
      TotalWith(incomingBySequence, f.sequence, stored, 256);
      assert incomingBytes + additional <= MAX_BYTES by {
        MemoryBounded(View().(buffers := incomingBySequence[f.sequence := stored]));
      }
      incomingBySequence := incomingBySequence[f.sequence := stored];
      incomingBytes := incomingBytes + additional;
      assert incomingBySequence == moved.buffers[f.sequence := stored];
      if stored.lastID < 0 {
        return Incomplete;
      }
      var payload, found := Gather(stored.parts, stored.lastID + 1);
      assert found <==> Finished(stored);
      if !found {
        return Incomplete;
      }
      DeleteBuffer(f.sequence);
      assert incomingBySequence == moved.buffers - {f.sequence};
      return Complete(payload);
    }

    method DecodePacket(packet: seq<Byte>, now: int) returns (outcome: Outcome)
      requires Valid()
      modifies this`incomingBySequence, this`incomingBytes, this`incomingSequence, this`incomingSequenceSet
      ensures Valid() && Step(View(), outcome) == DecodeFragment(old(View()), packet, now)
    {
      match Parse(packet)
      case Malformed => outcome := Refused;
      case Whole(payload) => outcome := Complete(payload);
      case Piece(sequence, id, maxSize, last, payload) =>
        outcome := StoreFragment(Fragment(sequence, id, maxSize, last, payload), now);
    }

    method Decode(packet: seq<Byte>, now: int) returns (decoded: Decoded)
      requires Valid()
      modifies this`incomingBySequence, this`incomingBytes, this`incomingSequence, this`incomingSequenceSet
      ensures Valid()
      ensures fragmentSize > 0 ==>
                var step := DecodeFragment(old(View()), packet, now);
                View() == step.state && decoded == Deliver(compression, step.outcome)
      ensures fragmentSize <= 0 ==> View() == old(View()) && decoded == Deliver(compression, Complete(packet))
    {
      var outcome := Complete(packet);
      if fragmentSize > 0 {
        outcome := DecodePacket(packet, now);
      }
      decoded := Deliver(compression, outcome);
    }
  }

  // ---- End to end ----------------------------------------------------------

  /** What the encoder hands out for a packet that is cut is what the batch puts on the wire. */
  lemma FragmentsAreWire(batch: Batch, i: nat, budget: int)
    requires batch.Valid() && i < |batch.messages|
    requires budget - budget % 4 == batch.messages[i].size
    ensures batch.lasts[i] == LastPart(batch.messages[i])
    ensures var encoded := Fragments(batch.messages[i].framed, budget, batch.Sequence(i));
            && encoded.Frame? && |encoded.frames| == batch.lasts[i] + 1
            && forall j, now :: 0 <= j <= batch.lasts[i] ==> encoded.frames[j] == Wire(batch, PartOf(i, j, now))
  {
    hide PartBytes, FirstParts, LastPart;
    var m, last, sequence := batch.messages[i], batch.lasts[i], batch.Sequence(i);
    SameLast(m, last);
    var encoded := Fragments(m.framed, budget, sequence);
    forall j, now | 0 <= j <= last ensures encoded.frames[j] == Wire(batch, PartOf(i, j, now)) {
      FirstPartsAt(m, last, sequence, last + 1, j);
    }
  }

  lemma SameLast(m: Message, last: nat)
    requires m.size > 0 && |m.framed| > 0 && CutOff(m, last)
    ensures LastPart(m) == last
  {
    LastPartCuts(m);
    if LastPart(m) < last {
      Times(LastPart(m) + 1, last, m.size);
    } else if last < LastPart(m) {
      Times(last + 1, LastPart(m), m.size);
    }
  }

  /** The receiver can hold what the payload decompresses to. */
  predicate Receivable(settings: Settings, payload: seq<Byte>, framed: seq<Byte>) {
    !(settings.algorithm.Lzo? && |framed| > 0 && framed[0] == LZO_COMPRESS && |payload| > LZO_MAX_DECOMPRESSED)
  }

  lemma DeliverFrame(settings: Settings, payload: seq<Byte>, framed: seq<Byte>)
    requires Frames(settings, payload, framed)
    ensures Deliver(settings, Complete(framed)) == Payload(payload) <==> Receivable(settings, payload, framed)
  {
    hide Unframe;
    FrameRoundTrip(settings, payload, framed);
    assert settings.algorithm.Lzo? ==> |framed| > 0;
  }

  /** A payload that fits the receiver's buffer arrives, whatever the setting and whatever the encoder chooses. */
  lemma FittingFrame(settings: Settings, payload: seq<Byte>, framed: seq<Byte>)
    requires Frames(settings, payload, framed) && |payload| <= LZO_MAX_DECOMPRESSED
    ensures Deliver(settings, Complete(framed)) == Payload(payload)
  {
    hide Deliver, Frames;
    DeliverFrame(settings, payload, framed);
  }

  /**
   What the LZO encoder sends arrives exactly when it fits the receiver's buffer or
   was not compressed; a run of equal bytes, when it fits or compression was not tried.
   */
  lemma LzoArrives(settings: Settings, payload: seq<Byte>, tried: bool, block: seq<Byte>, framed: seq<Byte>)
    requires settings.algorithm.Lzo? && Chosen(payload, tried, block, framed)
    ensures Deliver(settings, Complete(framed)) == Payload(payload) <==>
            |payload| <= LZO_MAX_DECOMPRESSED || !tried || |block| >= |payload|
    ensures LzoCompress.Uniform(payload) ==>
              (Deliver(settings, Complete(framed)) == Payload(payload) <==> |payload| <= LZO_MAX_DECOMPRESSED || !tried)
    ensures Deliver(settings, Complete(framed)) == Payload(payload) || Deliver(settings, Complete(framed)) == Dropped
  {
    hide LzoCompress.Uniform, LzoCompress.RunSize, LzoStream.Decompress;
    ChosenIsFrame(payload, tried, block, framed);
    DeliverFrame(settings, payload, framed);
    if tried {
      LzoCompress.RunShrinks(|payload|);
      assert ([LZO_COMPRESS] + block)[1..] == block;
    }
    assert ([NO_COMPRESS] + payload)[1..] == payload;
  }

  /** A run of equal bytes longer than the receiver's buffer is sent, and dropped where it arrives. */
  method OversizedPayload(value: Byte, size: nat) returns (decoded: Decoded)
    requires size > LZO_MAX_DECOMPRESSED
    ensures decoded == Dropped
  {
    hide LzoCompress.BlockOf;
    var settings := Settings(Lzo, false, false);
    var sender := new DataChannelFraming(settings, true, 0, 0);
    var receiver := new DataChannelFraming(settings, true, 0, 0);
    var payload := seq(size, _ => value);
    assert LzoCompress.Uniform(payload);
    ghost var tried := sender.Tries(payload, Sampled(sender.Sampling(), 0));
    var sent, framed, block := sender.Encode(payload, 0, 0);
    LzoArrives(settings, payload, tried, block, framed);
    decoded := receiver.Decode(sent.frames[0], 0);
  }

  /**
   For every compression setting and every order in which the fragments of up to
   25 packets arrive: the arrival that completes a packet yields its payload,
   every other fragment yields nothing.
   */
  lemma PayloadsArrive(settings: Settings, batch: Batch, payload: seq<Byte>, arrivals: seq<Arrival>, k: nat)
    requires batch.Valid() && Scheduled(batch, arrivals) && k < |arrivals| && arrivals[k].PartOf?
    requires arrivals[k].message < |batch.messages|
    requires Frames(settings, payload, batch.messages[arrivals[k].message].framed)
    requires Receivable(settings, payload, batch.messages[arrivals[k].message].framed)
    ensures Deliver(settings, OutcomeAt(batch, arrivals, k)) ==
            if Complete?(batch, arrivals[..k + 1], arrivals[k].message) then Payload(payload) else Pending
  {
    hide Frames, Receivable, Run, DecodeFragment, Wire, Complete?;
    EveryArrival(batch, arrivals, k);
    assert arrivals[..k + 1] == arrivals[..k] + [arrivals[k]];
    DeliverFrame(settings, payload, batch.messages[arrivals[k].message].framed);
  }

  /** A packet that was not cut yields its payload wherever it arrives. */
  lemma IntactArrives(settings: Settings, batch: Batch, payload: seq<Byte>, arrivals: seq<Arrival>, k: nat)
    requires batch.Valid() && Scheduled(batch, arrivals) && k < |arrivals| && arrivals[k].Intact?
    requires Frames(settings, payload, arrivals[k].framed) && Receivable(settings, payload, arrivals[k].framed)
    ensures Deliver(settings, OutcomeAt(batch, arrivals, k)) == Payload(payload)
  {
    hide Frames, Receivable, Run, DecodeFragment, Wire, Complete?;
    EveryArrival(batch, arrivals, k);
    DeliverFrame(settings, payload, arrivals[k].framed);
  }
}
