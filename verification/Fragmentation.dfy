/** The four-byte fragment header. */
module FragmentHeader {
  import opened Bytes

  const TYPE_WHOLE := 0
  const TYPE_PARTIAL := 1
  const TYPE_LAST := 2
  const MAX_PARTS := 32

  /** The fields packed from the low end: two bits, eight, five and fourteen. */
  function Flags(kind: nat, sequence: nat, id: nat, size: nat): (flags: Uint32)
    requires kind < 4 && sequence < 256 && id < 32 && size < 0x4000
  {
    kind + 4 * (sequence + 256 * (id + 32 * size))
  }

  /** The size field is only written on the last fragment, in units of four bytes. */
  function Prepend(payload: seq<Byte>, kind: nat, sequence: nat, id: nat, size: nat): (framed: seq<Byte>)
    requires kind < 4
    ensures |framed| == |payload| + 4
  {
    Uint32Bytes(Flags(kind, sequence % 256, id % 32, if kind == TYPE_LAST then size % 0x4000 else 0)) + payload
  }

  datatype Parsed =
    | Malformed
    | Whole(payload: seq<Byte>)
    | Piece(sequence: nat, id: nat, maxSize: nat, last: bool, payload: seq<Byte>)

  function Parse(framed: seq<Byte>): (p: Parsed)
    ensures p.Piece? ==> p.sequence < 256 && p.id < 32 && p.maxSize < 0x1_0000
  {
    if |framed| < 4 then Malformed
    else
      var flags := Uint32At(framed, 0);
      var kind := flags % 4;
      var sequence, id, size := (flags / 4) % 256, (flags / 0x400) % 32, (flags / 0x8000) % 0x4000;
      if kind == TYPE_WHOLE then
        if sequence != 0 || id != 0 then Malformed else Whole(framed[4..])
      else if kind == TYPE_PARTIAL || kind == TYPE_LAST then
        Piece(sequence, id, size * 4, kind == TYPE_LAST, framed[4..])
      else Malformed
  }

  lemma FlagsUnpack(kind: nat, sequence: nat, id: nat, size: nat)
    requires kind < 4 && sequence < 256 && id < 32 && size < 0x4000
    ensures var flags := Flags(kind, sequence, id, size);
            flags % 4 == kind && (flags / 4) % 256 == sequence && (flags / 0x400) % 32 == id &&
                (flags / 0x8000) % 0x4000 == size
  {
    var rest := id + 32 * size;
    var flags := Flags(kind, sequence, id, size);
    assert flags / 4 == sequence + 256 * rest;
    assert flags / 0x400 == rest;
    assert flags / 0x8000 == rest / 32 == size;
  }

  lemma ParsePrepended(payload: seq<Byte>, kind: nat, sequence: nat, id: nat, size: nat)
    requires kind < 3 && sequence < 256 && id < 32 && size < 0x4000 && (kind != TYPE_LAST ==> size == 0)
    requires kind == TYPE_WHOLE ==> sequence == 0 && id == 0
    ensures Parse(Prepend(payload, kind, sequence, id, size)) ==
            if kind == TYPE_WHOLE then Whole(payload) else Piece(sequence, id, size * 4, kind == TYPE_LAST, payload)
  {
    var flags := Flags(kind, sequence, id, size);
    FlagsUnpack(kind, sequence, id, size);
    assert sequence % 256 == sequence && id % 32 == id && size % 0x4000 == size;
    hide Flags, Uint32Bytes, Uint32At;
    Uint32Reads(flags, payload);
  }
}

/** Reassembly: which fragments are held, under which sequence numbers, and for how long. */
module Reassembly {
  import opened Bytes

  const RECEIVE_WINDOW := 25
  const TIMEOUT := 30_000_000_000
  const MAX_BYTES := 0x40_0000
  const MAX_PACKET_BYTES := 0xFFFF

  datatype Buffer = Buffer(maxSize: nat, lastID: int, parts: map<nat, seq<Byte>>, bytes: int, updated: int)

  datatype State = State(buffers: map<nat, Buffer>, sequence: nat, sequenceSet: bool)

  datatype Fragment = Fragment(sequence: nat, id: nat, maxSize: nat, last: bool, payload: seq<Byte>)

  datatype Outcome = Incomplete | Complete(payload: seq<Byte>) | Refused

  const FRESH := State(map[], 0, false)

  /** The shorter way round a circle of 256, positive when `sequence` is ahead. */
  function Difference(sequence: nat, reference: nat): (d: int) {
    var direct := sequence - reference;
    if direct == 0 then 0
    else
      var wrapped := if sequence > reference then direct - 256 else direct + 256;
      if direct < 0 then (if -direct <= wrapped then direct else wrapped)
      else (if direct <= -wrapped then direct else wrapped)
  }

  predicate InWindow(sequence: nat, reference: nat) {
    -RECEIVE_WINDOW < Difference(sequence, reference) <= 0
  }

  function Restrict(s: State, kept: set<nat>): (r: State) {
    s.(buffers := map q | q in s.buffers && q in kept :: s.buffers[q])
  }

  /** Buffers untouched for the timeout are dropped. */
  function Expire(s: State, now: int): State {
    Restrict(s, set q | q in s.buffers && now - s.buffers[q].updated < TIMEOUT)
  }

  /** A number ahead of the window moves it; one far away restarts it. */
  function Advance(s: State, sequence: nat): State {
    if !s.sequenceSet then s.(sequence := sequence, sequenceSet := true)
    else
      var d := Difference(sequence, s.sequence);
      if d >= RECEIVE_WINDOW || d <= -RECEIVE_WINDOW then State(map[], sequence, true)
      else if d <= 0 then s
      else Restrict(s.(sequence := sequence), set q | q in s.buffers && InWindow(q, sequence))
  }

  /** The buffer a fragment goes to: the one held, unless it disagrees on the fragment size. */
  function Target(s: State, f: Fragment, now: int): Buffer {
    var size := if f.maxSize > 0 then f.maxSize else |f.payload|;
    if f.sequence in s.buffers && s.buffers[f.sequence].maxSize == size then s.buffers[f.sequence]
    else Buffer(size, -1, map[], 0, now)
  }

  function PartLength(parts: map<nat, seq<Byte>>, id: nat): nat {
    if id in parts then |parts[id]| else 0
  }

  function Stored(b: Buffer, f: Fragment, now: int): Buffer {
    Buffer(if f.maxSize > 0 then f.maxSize else if b.maxSize == 0 then |f.payload| else b.maxSize,
           if f.last then f.id else b.lastID,
           b.parts[f.id := f.payload],
           b.bytes + |f.payload| - PartLength(b.parts, f.id),
           now)
  }

  predicate Finished(b: Buffer) {
    b.lastID >= 0 && forall id :: 0 <= id <= b.lastID ==> id in b.parts
  }

  /** The parts below `n` in order. */
  function Join(parts: map<nat, seq<Byte>>, n: nat): seq<Byte>
    requires forall id :: 0 <= id < n ==> id in parts
  {
    if n == 0 then [] else Join(parts, n - 1) + parts[n - 1]
  }

  datatype Step = Step(state: State, outcome: Outcome)

  function Store(s: State, f: Fragment, now: int): Step {
    var live := Expire(s, now);
    if |f.payload| > MAX_PACKET_BYTES then Step(live, Refused)
    else
      var moved := Advance(live, f.sequence);
      var b := Stored(Target(moved, f, now), f, now);
      if b.bytes > MAX_PACKET_BYTES then Step(moved.(buffers := moved.buffers - {f.sequence}), Refused)
      else if Finished(b) then
          Step(moved.(buffers := moved.buffers - {f.sequence}), Complete(Join(b.parts, b.lastID + 1)))
      else Step(moved.(buffers := moved.buffers[f.sequence := b]), Incomplete)
  }

  // ---- Accounting --------------------------------------------------------

  function PartsBytes(parts: map<nat, seq<Byte>>, n: nat): nat {
    if n == 0 then 0 else PartsBytes(parts, n - 1) + PartLength(parts, n - 1)
  }

  function Held(buffers: map<nat, Buffer>, q: nat): int {
    if q in buffers then buffers[q].bytes else 0
  }

  /** What all buffers hold, by sequence number below `n`. */
  function TotalBytes(buffers: map<nat, Buffer>, n: nat): int {
    if n == 0 then 0 else TotalBytes(buffers, n - 1) + Held(buffers, n - 1)
  }

  ghost predicate BufferAccounted(b: Buffer) {
    && (forall id :: id in b.parts ==> id < 32)
    && b.bytes == PartsBytes(b.parts, 32)
    && 0 <= b.bytes <= MAX_PACKET_BYTES
    && -1 <= b.lastID < 32
  }

  /** Every buffer is counted exactly and lies at most 24 behind the newest sequence number. */
  ghost predicate Accounted(s: State) {
    && s.sequence < 256
    && (!s.sequenceSet ==> s.buffers == map[])
    && forall q :: q in s.buffers ==> q < 256 && InWindow(q, s.sequence) && BufferAccounted(s.buffers[q])
  }

  lemma {:induction false} PartsUpdated(parts: map<nat, seq<Byte>>, id: nat, part: seq<Byte>, n: nat)
    ensures PartsBytes(parts[id := part], n) ==
            PartsBytes(parts, n) + if id < n then |part| - PartLength(parts, id) else 0
  {
    if n > 0 {
      PartsUpdated(parts, id, part, n - 1);
    }
  }

  lemma {:induction false} PartsEmpty(n: nat)
    ensures PartsBytes(map[], n) == 0
  {
    if n > 0 { PartsEmpty(n - 1); }
  }

  lemma TargetAccounted(s: State, f: Fragment, now: int)
    requires Accounted(s)
    ensures BufferAccounted(Target(s, f, now))
  {
    PartsEmpty(32);
  }

  lemma StoredAccounted(b: Buffer, f: Fragment, now: int)
    requires BufferAccounted(b) && f.id < 32
    requires Stored(b, f, now).bytes <= MAX_PACKET_BYTES
    ensures BufferAccounted(Stored(b, f, now))
  {
    PartsUpdated(b.parts, f.id, f.payload, 32);
  }

  lemma AdvanceAccounted(s: State, sequence: nat)
    requires Accounted(s) && sequence < 256
    ensures Accounted(Advance(s, sequence))
    ensures Advance(s, sequence).sequenceSet && InWindow(sequence, Advance(s, sequence).sequence)
  {
  }

  /** Whatever arrives, the accounting stays exact and the window is respected. */
  lemma StoreAccounted(s: State, f: Fragment, now: int)
    requires Accounted(s) && f.sequence < 256 && f.id < 32
    ensures Accounted(Store(s, f, now).state)
  {
    hide Expire, Advance, Target, Stored, Finished, Join, InWindow, BufferAccounted;
    var live := Expire(s, now);
    ExpireAccounted(s, now);
    AdvanceAccounted(live, f.sequence);
    var moved := Advance(live, f.sequence);
    TargetAccounted(moved, f, now);
    if Stored(Target(moved, f, now), f, now).bytes <= MAX_PACKET_BYTES {
      StoredAccounted(Target(moved, f, now), f, now);
    }
  }

  lemma ExpireAccounted(s: State, now: int)
    requires Accounted(s)
    ensures Accounted(Expire(s, now))
  {
    hide InWindow, BufferAccounted;
  }

  /** How many sequence numbers below `n` lie in the window that ends at `reference`. */
  function WindowBelow(reference: nat, n: nat): (c: int)
    requires reference < 256 && n <= 256
    ensures 0 <= c <= RECEIVE_WINDOW
  {
    if reference >= 24 then
      if n <= reference - 24 then 0 else if n <= reference then n - (reference - 24) else RECEIVE_WINDOW
    else
      (if n <= reference then n else reference + 1) + (if n <= 232 + reference then 0 else n - (232 + reference))
  }

  lemma WindowSteps(reference: nat, q: nat)
    requires reference < 256 && q < 256
    ensures WindowBelow(reference, q + 1) == WindowBelow(reference, q) + if InWindow(q, reference) then 1 else 0
  {
  }

  lemma {:induction false} TotalBounded(s: State, n: nat)
    requires Accounted(s) && n <= 256
    ensures 0 <= TotalBytes(s.buffers, n) <= MAX_PACKET_BYTES * WindowBelow(s.sequence, n)
    decreases n
  {
    if n > 0 {
      TotalBounded(s, n - 1);
      WindowSteps(s.sequence, n - 1);
      hide WindowBelow, InWindow;
    }
  }

  /** At most 25 packets of at most 65535 bytes are held, so the memory limit is never reached. */
  lemma MemoryBounded(s: State)
    requires Accounted(s)
    ensures 0 <= TotalBytes(s.buffers, 256) <= RECEIVE_WINDOW * MAX_PACKET_BYTES < MAX_BYTES
  {
    TotalBounded(s, 256);
  }

  function KeysBelow(buffers: map<nat, Buffer>, n: nat): set<nat> {
    set q | q in buffers && q < n
  }

  lemma {:induction false} CountBounded(s: State, n: nat)
    requires Accounted(s) && n <= 256
    ensures |KeysBelow(s.buffers, n)| <= WindowBelow(s.sequence, n)
    decreases n
  {
    hide WindowBelow, InWindow, BufferAccounted;
    if n == 0 {
      assert KeysBelow(s.buffers, 0) == {};
    } else {
      CountBounded(s, n - 1);
      var q := n - 1;
      WindowSteps(s.sequence, q);
      if q in s.buffers {
        assert KeysBelow(s.buffers, n) == KeysBelow(s.buffers, n - 1) + {q};
      } else {
        assert KeysBelow(s.buffers, n) == KeysBelow(s.buffers, n - 1);
      }
    }
  }

  lemma BuffersBounded(s: State)
    requires Accounted(s)
    ensures |s.buffers| <= RECEIVE_WINDOW
  {
    CountBounded(s, 256);
    assert KeysBelow(s.buffers, 256) == s.buffers.Keys;
  }
}
