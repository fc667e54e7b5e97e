/** The packet connection over a byte stream: a sliding read buffer and framed writes. */
module StreamConnection {
  import opened Bytes
  import opened StreamFraming

  const MAX_EMPTY_READS := 100
  const BATCH_SIZE := 64

  // ---- The link ----------------------------------------------------------

  /** What one read of the link brings: bytes, an error, both or neither. */
  datatype Reading = Reading(bytes: seq<Byte>, error: Option<nat>)

  const END_OF_SCRIPT := 0

  function Volume(script: seq<Reading>): nat {
    if |script| == 0 then 0 else 1 + |script[0].bytes| + Volume(script[1..])
  }

  /** The bytes and the errors that a script still holds. */
  ghost function Contents(script: seq<Reading>): seq<Byte> {
    if |script| == 0 then [] else script[0].bytes + Contents(script[1..])
  }

  ghost function Faults(script: seq<Reading>): seq<nat> {
    if |script| == 0 then [] else Raised(script[0].error) + Faults(script[1..])
  }

  ghost function Raised(error: Option<nat>): seq<nat> {
    if error.Some? then [error.value] else []
  }

  /** A link that will bring any finite sequence of readings, and fails when they run out. */
  class Link {
    var script: seq<Reading>
    ghost var given: seq<Byte>
    ghost var faults: seq<nat>
    ghost var idle: nat

    constructor (script: seq<Reading>)
      ensures this.script == script && given == [] && faults == [] && idle == 0
    {
      this.script, given, faults, idle := script, [], [], 0;
    }

    /** Everything the link has brought and will bring. */
    ghost function Whole(): seq<Byte>
      reads this
    {
      given + Contents(script)
    }

    method Read(space: nat) returns (bytes: seq<Byte>, error: Option<nat>)
      requires space > 0
      modifies this
      ensures |bytes| <= space
      ensures given == old(given) + bytes && faults == old(faults) + Raised(error)
      ensures idle == if bytes == [] && error.None? then old(idle) + 1 else 0
      ensures Whole() == old(Whole())
      ensures faults + Faults(script) == old(faults + Faults(script)) + if old(|script|) == 0 then
            [END_OF_SCRIPT] else []
      ensures error.None? ==> Volume(script) < old(Volume(script))
    {
      if |script| == 0 {
        faults, idle := faults + [END_OF_SCRIPT], 0;
        return [], Some(END_OF_SCRIPT);
      }
      var next := script[0];
      if |next.bytes| <= space {
        bytes, error := next.bytes, next.error;
        Associates(given, bytes, Contents(script[1..]));
        script := script[1..];
      } else {
        bytes, error := next.bytes[..space], None;
        var rest := [Reading(next.bytes[space..], next.error)] + script[1..];
        assert rest[1..] == script[1..];
        assert next.bytes == bytes + next.bytes[space..];
        Associates(bytes, next.bytes[space..], Contents(script[1..]));
        Associates(given, bytes, Contents(rest));
        script := rest;
      }
      given, faults, idle := given + bytes, faults + Raised(error), if bytes == [] && error.None? then idle + 1 else 0;
    }
  }

  // ---- Reading -----------------------------------------------------------

  datatype Outcome = Packet(bytes: seq<Byte>) | NoPacket | BadLength | LinkError(error: nat) | NoProgress

  /** No whole frame is at hand. */
  predicate Incomplete(pending: seq<Byte>) {
    |pending| < LENGTH_SIZE || |pending| < LENGTH_SIZE + Uint16At(pending, 0)
  }

  predicate ZeroLength(pending: seq<Byte>) {
    |pending| >= LENGTH_SIZE && Uint16At(pending, 0) == 0
  }

  lemma TakeFrame(pending: seq<Byte>)
    requires !Incomplete(pending) && !ZeroLength(pending)
    ensures var n := Uint16At(pending, 0);
            pending == Frame(pending[LENGTH_SIZE..LENGTH_SIZE + n]) + pending[LENGTH_SIZE + n..]
  {
    var n := Uint16At(pending, 0);
    assert pending[..2] == Uint16Bytes(n);
    assert pending == pending[..2] + pending[2..2 + n] + pending[2 + n..];
  }

  lemma SliceOfSlice(s: seq<Byte>, i: nat, j: nat, k: nat, l: nat)
    requires i <= j <= |s| && k <= l <= j - i
    ensures s[i..j][k..l] == s[i + k..i + l]
  {
    var left, right := s[i..j][k..l], s[i + k..i + l];
    assert forall m :: 0 <= m < l - k ==> left[m] == s[i + k + m] == right[m];
  }

  class StreamPacketConnection {
    const link: Link
    const readBufferSize: nat
    var readBuffer: array<Byte>
    var readStart: nat
    var readEnd: nat
    var readErr: Option<nat>
    ghost var returned: seq<seq<Byte>>
    ghost var reported: seq<nat>

    ghost function Pending(): seq<Byte>
      reads this, readBuffer
      requires readStart <= readEnd <= readBuffer.Length
    {
      readBuffer[readStart..readEnd]
    }

    /**
     The frames of the packets returned so far, followed by what is buffered, are
     all bytes the link has given; the errors reported, and the one still to
     report, are all errors it has given.
     */
    ghost predicate Valid()
      reads this, readBuffer, link
    {
      && readBufferSize >= LENGTH_SIZE && readStart <= readEnd <= readBuffer.Length
      && NoneEmpty(returned) && Framed(returned) + Pending() == link.given
      && reported + Raised(readErr) == link.faults
    }

    constructor (link: Link, readBufferSize: nat)
      requires readBufferSize >= LENGTH_SIZE && link.given == [] && link.faults == []
      ensures Valid() && this.link == link && returned == [] && reported == [] && fresh(readBuffer)
    {
      this.link, this.readBufferSize := link, readBufferSize;
      readBuffer := new Byte[0];
      readStart, readEnd, readErr, returned, reported := 0, 0, None, [], [];
    }

    /** The next packet, if all of it is buffered. */
    method BufferedPacket() returns (r: Outcome)
      requires Valid()
      modifies this
      ensures Valid() && readBuffer == old(readBuffer) && readErr == old(readErr) && reported == old(reported)
      ensures returned == if r.Packet? then old(returned) + [r.bytes] else old(returned)
      ensures !r.Packet? ==> Pending() == old(Pending())
      ensures match r
              case Packet(bytes) => true
              case BadLength => ZeroLength(Pending())
              case NoPacket => Incomplete(Pending()) && !ZeroLength(Pending())
              case _ => false
    {
      hide Framed, Raised;
      ghost var pending := Pending();
      if readEnd - readStart < LENGTH_SIZE {
        return NoPacket;
      }
      var length := (readBuffer[readStart] as int) * 256 + readBuffer[readStart + 1];
      assert pending[0] == readBuffer[readStart] && pending[1] == readBuffer[readStart + 1];
      if length == 0 {
        return BadLength;
      }
      var packetEnd := readStart + LENGTH_SIZE + length;
      if readEnd < packetEnd {
        return NoPacket;
      }
      var packet := readBuffer[readStart + LENGTH_SIZE..packetEnd];
      SliceOfSlice(readBuffer[..], readStart, readEnd, LENGTH_SIZE, LENGTH_SIZE + length);
      assert pending == readBuffer[..][readStart..readEnd];
      assert packet == pending[LENGTH_SIZE..LENGTH_SIZE + length];
      SliceOfSlice(readBuffer[..], readStart, readEnd, LENGTH_SIZE + length, readEnd - readStart);
      TakeFrame(pending);
      FramedSnoc(returned, packet);
      Associates(Framed(returned), Frame(packet), pending[LENGTH_SIZE + length..]);
      readStart := packetEnd;
      if readStart == readEnd {
        readStart, readEnd := 0, 0;
      }
      returned := returned + [packet];
      assert Pending() == pending[LENGTH_SIZE + length..];
      return Packet(packet);
    }

    /** Makes room behind what is buffered: for a read buffer, or for the frame that has begun. */
    method MakeRoom()
      requires Valid() && Incomplete(Pending())
      modifies this, readBuffer
      ensures Valid() && readStart == 0 && readEnd < readBuffer.Length
      ensures (readBuffer == old(readBuffer) || fresh(readBuffer))
      ensures Pending() == old(Pending()) && returned == old(returned) && readErr == old(readErr)
      ensures reported == old(reported)
    {
      hide Framed;
      ghost var pending := Pending();
      var length := readEnd - readStart;
      var required := readBufferSize;
      if length >= LENGTH_SIZE {
        assert pending[0] == readBuffer[readStart] && pending[1] == readBuffer[readStart + 1];
        var n := (readBuffer[readStart] as int) * 256 + readBuffer[readStart + 1];
        required := if required < LENGTH_SIZE + n then LENGTH_SIZE + n else required;
      }
      if readBuffer.Length < required {
        var grown := new Byte[required];
        Copy(grown, readBuffer, readStart, length);
        readBuffer, readStart, readEnd := grown, 0, length;
      } else if readStart > 0 {
        Copy(readBuffer, readBuffer, readStart, length);
        readStart, readEnd := 0, length;
      }
      assert Pending() == pending;
    }

    /** Reads once into the free space, keeping the bytes that come with an error. */
    method Fill() returns (count: nat)
      requires Valid() && Incomplete(Pending()) && readErr.None?
      modifies this, readBuffer, link
      ensures Valid() && (readBuffer == old(readBuffer) || fresh(readBuffer)) && returned == old(returned) &&
            reported == old(reported)
      ensures |link.given| == |old(link.given)| + count && link.Whole() == old(link.Whole())
      ensures count == 0 ==> Pending() == old(Pending())
      ensures link.idle == if count == 0 && readErr.None? then old(link.idle) + 1 else 0
      ensures readErr.None? ==> Volume(link.script) < old(Volume(link.script))
    {
      hide Framed, Volume, Contents, Faults;
      MakeRoom();
      ghost var pending := Pending();
      var bytes, error := link.Read(readBuffer.Length - readEnd);
      Append(readBuffer, readEnd, bytes);
      readEnd := readEnd + |bytes|;
      readErr := error;
      Associates(Framed(returned), pending, bytes);
      assert Pending() == pending + bytes;
      return |bytes|;
    }

    /** Reads until a whole packet is there; an error waits until every packet before it has been taken. */
    method ReadPacket() returns (r: Outcome)
      requires Valid()
      modifies this, readBuffer, link
      ensures Valid() && link.Whole() == old(link.Whole()) && !r.NoPacket?
      ensures returned == if r.Packet? then old(returned) + [r.bytes] else old(returned)
      ensures reported == if r.LinkError? then old(reported) + [r.error] else old(reported)
      ensures r.BadLength? ==> ZeroLength(Pending())
      ensures r.LinkError? || r.NoProgress? ==> Incomplete(Pending()) && !ZeroLength(Pending())
      ensures r.NoProgress? ==> link.idle >= MAX_EMPTY_READS
    {
      hide Framed, Volume, Contents, Faults;
      var emptyReads := 0;
      while true
        invariant Valid() && (readBuffer == old(readBuffer) || fresh(readBuffer)) && link.Whole() == old(link.Whole())
        invariant returned == old(returned) && reported == old(reported) && 0 <= emptyReads < MAX_EMPTY_READS &&
              emptyReads <= link.idle
        decreases readErr.None?, Volume(link.script)
      {
        r := BufferedPacket();
        if !r.NoPacket? {
          return;
        }
        if readErr.Some? {
          r := LinkError(readErr.value);
          reported := reported + [readErr.value];
          readErr := None;
          return;
        }
        var count := Fill();
        if count > 0 || readErr.Some? {
          emptyReads := 0;
          continue;
        }
        emptyReads := emptyReads + 1;
        if emptyReads >= MAX_EMPTY_READS {
          return NoProgress;
        }
      }
    }

    /** One packet, waited for if need be, and whatever else is already complete. */
    method ReadPackets() returns (packets: seq<seq<Byte>>, r: Outcome)
      requires Valid()
      modifies this, readBuffer, link
      ensures Valid() && link.Whole() == old(link.Whole()) && returned == old(returned) + packets
      ensures |packets| <= BATCH_SIZE
      ensures reported == if r.LinkError? then old(reported) + [r.error] else old(reported)
      ensures r.NoPacket? ==> |packets| > 0
      ensures r.BadLength? ==> ZeroLength(Pending())
      ensures r.NoPacket? && |packets| < BATCH_SIZE ==> Incomplete(Pending()) && !ZeroLength(Pending())
      ensures r.LinkError? || r.NoProgress? ==> packets == [] && Incomplete(Pending()) && !ZeroLength(Pending())
    {
      hide Framed, Incomplete, ZeroLength, Contents, Faults;
      packets := [];
      r := ReadPacket();
      if !r.Packet? {
        return;
      }
      packets, r := [r.bytes], NoPacket;
      while |packets| < BATCH_SIZE
        invariant Valid() && link.Whole() == old(link.Whole()) && returned == old(returned) + packets
        invariant 0 < |packets| <= BATCH_SIZE
        invariant r.NoPacket? && reported == old(reported)
        decreases BATCH_SIZE - |packets|
      {
        r := BufferedPacket();
        if !r.Packet? {
          return;
        }
        packets, r := packets + [r.bytes], NoPacket;
      }
    }
  }

  /** Copies to the front of an array, which may be the one copied from. */
  method Copy(target: array<Byte>, source: array<Byte>, start: nat, length: nat)
    requires length <= target.Length && start + length <= source.Length
    modifies target
    ensures target[..length] == old(source[start..start + length])
  {
    for k := 0 to length
      invariant forall j :: 0 <= j < k ==> target[j] == old(source[start..start + length])[j]
      invariant forall j :: start + k <= j < start + length ==> source[j] == old(source[j])
    {
      target[k] := source[start + k];
    }
  }

  method Append(target: array<Byte>, at: nat, bytes: seq<Byte>)
    requires at + |bytes| <= target.Length
    modifies target
    ensures target[..at + |bytes|] == old(target[..at]) + bytes
  {
    for k := 0 to |bytes|
      invariant forall j :: 0 <= j < at ==> target[j] == old(target[j])
      invariant forall j :: at <= j < at + k ==> target[j] == bytes[j - at]
    {
      target[at + k] := bytes[k];
    }
  }

  // ---- Writing -----------------------------------------------------------

  function Total(lengths: seq<nat>): nat {
    if |lengths| == 0 then 0 else Total(lengths[..|lengths| - 1]) + lengths[|lengths| - 1]
  }

  ghost predicate Fitting(packets: seq<seq<Byte>>, n: nat) {
    n <= |packets| && forall k :: 0 <= k < n ==> |packets[k]| <= MAX_PACKET
  }

  /** The frames of the first `n` packets. */
  ghost function Wire(packets: seq<seq<Byte>>, n: nat): seq<Byte>
    requires Fitting(packets, n)
  {
    if n == 0 then [] else Wire(packets, n - 1) + Frame(packets[n - 1])
  }

  lemma {:induction false} WireIsFramed(packets: seq<seq<Byte>>, n: nat)
    requires Fitting(packets, n)
    ensures Sendable(packets[..n]) && Wire(packets, n) == Framed(packets[..n])
  {
    if n > 0 {
      WireIsFramed(packets, n - 1);
      assert packets[..n] == packets[..n - 1] + [packets[n - 1]];
      FramedSnoc(packets[..n - 1], packets[n - 1]);
    }
  }

  lemma {:induction false} WireGrows(packets: seq<seq<Byte>>, c: nat, n: nat)
    requires c <= n && Fitting(packets, n)
    ensures Wire(packets, c) <= Wire(packets, n)
    decreases n - c
  {
    hide Frame;
    if c < n {
      WireGrows(packets, c, n - 1);
    }
  }

  /** The packets that have a frame, and how long the frames are. */
  ghost function Indexes(packets: seq<seq<Byte>>, n: nat): seq<nat>
    requires n <= |packets|
  {
    if n == 0 then [] else if |packets[n - 1]| == 0 then Indexes(packets, n - 1) else Indexes(packets, n - 1) + [n - 1]
  }

  ghost function Lengths(packets: seq<seq<Byte>>, n: nat): seq<nat>
    requires n <= |packets|
  {
    if n == 0 then []
    else if |packets[n - 1]| == 0 then Lengths(packets, n - 1)
    else Lengths(packets, n - 1) + [LENGTH_SIZE + |packets[n - 1]|]
  }

  lemma TotalNothing()
    ensures Total([]) == 0
  {
  }

  lemma TotalSnoc(lengths: seq<nat>, length: nat)
    ensures Total(lengths + [length]) == Total(lengths) + length
  {
    assert (lengths + [length])[..|lengths|] == lengths;
  }

  lemma {:induction false} WholeLength(packets: seq<seq<Byte>>, n: nat)
    requires Fitting(packets, n)
    ensures Total(Lengths(packets, n)) == |Wire(packets, n)| && |Lengths(packets, n)| == |Indexes(packets, n)|
  {
    hide Frame, Total;
    if n == 0 {
      assert Total([]) == 0 by { TotalNothing(); }
    } else {
      WholeLength(packets, n - 1);
      TotalSnoc(Lengths(packets, n - 1), LENGTH_SIZE + |packets[n - 1]|);
    }
  }

  /** The frames before a frame are the packets before its packet. */
  lemma {:induction false} FrameStarts(packets: seq<seq<Byte>>, n: nat, j: nat)
    requires Fitting(packets, n) && j < |Indexes(packets, n)|
    ensures |Lengths(packets, n)| == |Indexes(packets, n)|
    ensures var i := Indexes(packets, n)[j];
            && i < n && |packets[i]| > 0 && Lengths(packets, n)[j] == LENGTH_SIZE + |packets[i]|
            && Total(Lengths(packets, n)[..j]) == |Wire(packets, i)|
    decreases n
  {
    WholeLength(packets, n - 1);
    hide Wire, Total;
    var front := Lengths(packets, n - 1);
    if j < |Indexes(packets, n - 1)| {
      FrameStarts(packets, n - 1, j);
      assert Lengths(packets, n)[..j] == front[..j];
    } else {
      assert Lengths(packets, n)[..j] == front;
    }
  }

  /** Everything before packet `count` is on the wire and packet `count` is not, or all are. */
  ghost predicate SentUpTo(packets: seq<seq<Byte>>, n: nat, written: nat, count: nat) {
    && count <= n && Fitting(packets, n) && |Wire(packets, count)| <= written
    && (count < n ==> |packets[count]| > 0 && |Wire(packets, count)| + LENGTH_SIZE + |packets[count]| > written)
  }

  datatype WriteError = Fine | TooLarge | Broken

  /** `accepted` bytes go through before the link stops taking them, and `failed` says that it reports an error. */
  method WriteFrames(ghost packets: seq<seq<Byte>>, total: nat, lengths: seq<nat>, indexes: seq<nat>, n: nat,
        accepted: nat, failed: bool)
    returns (count: nat, error: WriteError, closed: bool)
    requires Fitting(packets, n) && lengths == Lengths(packets, n) && indexes == Indexes(packets, n)
    requires total == Total(lengths)
    ensures var written := if accepted < total then accepted else total;
            && (error == Broken <==> failed || written < total) && error != TooLarge
            && SentUpTo(packets, n, written, count)
            && (closed <==> error == Broken && |Wire(packets, count)| < written)
            && (error == Fine ==> count == n)
  {
    hide Wire, Lengths, Indexes;
    WholeLength(packets, n);
    var written := if accepted < total then accepted else total;
    closed := false;
    if !failed && written == total {
      return n, Fine, false;
    }
    error := Broken;
    var frames, framed := 0, 0;
    while frames < |lengths|
      invariant 0 <= frames <= |lengths| && framed == Total(lengths[..frames]) <= written
    {
      assert lengths[..frames + 1][..frames] == lengths[..frames];
      if framed + lengths[frames] > written {
        break;
      }
      framed := framed + lengths[frames];
      frames := frames + 1;
    }
    if framed < written {
      closed := true;
    }
    if frames == |lengths| {
      assert lengths[..|lengths|] == lengths;
      count := n;
    } else {
      FrameStarts(packets, n, frames);
      count := indexes[frames];
    }
  }

  /** The packets before the first one that is too large for its length field. */
  method Validate(packets: seq<seq<Byte>>) returns (n: nat)
    ensures Fitting(packets, n) && (n < |packets| ==> |packets[n]| > MAX_PACKET)
  {
    n := |packets|;
    for i := 0 to |packets|
      invariant n == |packets| && Fitting(packets, i)
    {
      if |packets[i]| > MAX_PACKET {
        return i;
      }
    }
  }

  method Measure(packets: seq<seq<Byte>>, n: nat) returns (total: nat, lengths: seq<nat>, indexes: seq<nat>)
    requires Fitting(packets, n)
    ensures lengths == Lengths(packets, n) && indexes == Indexes(packets, n) && total == Total(lengths)
  {
    total, lengths, indexes := 0, [], [];
    for i := 0 to n
      invariant lengths == Lengths(packets, i) && indexes == Indexes(packets, i) && total == Total(lengths)
    {
      if |packets[i]| > 0 {
        TotalSnoc(lengths, LENGTH_SIZE + |packets[i]|);
        lengths, indexes := lengths + [LENGTH_SIZE + |packets[i]|], indexes + [i];
        total := total + LENGTH_SIZE + |packets[i]|;
      }
    }
  }

  /** All frames in one buffer. */
  method Encapsulate(packets: seq<seq<Byte>>, n: nat, total: nat) returns (batch: array<Byte>)
    requires Fitting(packets, n) && total == |Wire(packets, n)|
    ensures fresh(batch) && batch[..] == Wire(packets, n)
  {
    hide Wire, Frame;
    batch := new Byte[total];
    var offset := 0;
    WireNothing(packets);
    for i := 0 to n
      invariant offset == |Wire(packets, i)| <= total && batch[..offset] == Wire(packets, i)
    {
      WireStep(packets, i, n);
      if |packets[i]| > 0 {
        PutFrame(batch, offset, packets[i]);
        offset := offset + LENGTH_SIZE + |packets[i]|;
      }
    }
    assert batch[..offset] == batch[..];
  }

  lemma WireNothing(packets: seq<seq<Byte>>)
    ensures Wire(packets, 0) == []
  {
  }

  lemma WireStep(packets: seq<seq<Byte>>, i: nat, n: nat)
    requires i < n && Fitting(packets, n)
    ensures |Wire(packets, i + 1)| <= |Wire(packets, n)| && Wire(packets, i + 1) == Wire(packets, i) + Frame(packets[i])
  {
    WireGrows(packets, i + 1, n);
    hide Frame;
  }

  method PutFrame(batch: array<Byte>, offset: nat, packet: seq<Byte>)
    requires 0 < |packet| <= MAX_PACKET && offset + LENGTH_SIZE + |packet| <= batch.Length
    modifies batch
    ensures batch[..offset + LENGTH_SIZE + |packet|] == old(batch[..offset]) + Frame(packet)
  {
    Append(batch, offset, Uint16Bytes(|packet|));
    Append(batch, offset + LENGTH_SIZE, packet);
    Associates(old(batch[..offset]), Uint16Bytes(|packet|), packet);
  }

  /** What a write reports about the bytes it put on the wire. */
  ghost predicate Accounted(packets: seq<seq<Byte>>, n: nat, accepted: nat, failed: bool,
                            count: nat, error: WriteError, closed: bool, wire: seq<Byte>) {
    && Fitting(packets, n) && (n < |packets| ==> |packets[n]| > MAX_PACKET)
    && var all := Wire(packets, n);
       var broken := all != [] && (failed || accepted < |all|);
       && wire == (if accepted < |all| then all[..accepted] else all)
       && SentUpTo(packets, n, |wire|, count) && (!broken ==> count == n)
       && error == (if broken then Broken else if n < |packets| then TooLarge else Fine)
       && (closed <==> broken && |Wire(packets, count)| < |wire|)
  }

  method WritePackets(packets: seq<seq<Byte>>, accepted: nat, failed: bool)
    returns (count: nat, error: WriteError, closed: bool, wire: seq<Byte>, ghost n: nat)
    ensures Accounted(packets, n, accepted, failed, count, error, closed, wire)
  {
    hide Wire, Lengths, Indexes;
    var limit := Validate(packets);
    n := limit;
    var tooLarge := if limit < |packets| then TooLarge else Fine;
    var total, lengths, indexes := Measure(packets, limit);
    WholeLength(packets, limit);
    if |indexes| == 0 {
      assert total == 0;
      return limit, tooLarge, false, [], n;
    }
    assert total > 0 by {
      FrameStarts(packets, limit, 0);
      NextFrame(packets, indexes[0], limit);
    }
    var batch := Encapsulate(packets, limit, total);
    count, error, closed := WriteFrames(packets, total, lengths, indexes, limit, accepted, failed);
    wire := if accepted < total then batch[..accepted] else batch[..];
    if error == Fine {
      error := tooLarge;
    }
  }

  /** The link is closed exactly when a failed write stops inside a frame; otherwise the peer is left at a boundary. */
  lemma ClosedInsideFrame(packets: seq<seq<Byte>>, n: nat, accepted: nat, failed: bool, count: nat,
        error: WriteError, closed: bool, wire: seq<Byte>)
    requires Accounted(packets, n, accepted, failed, count, error, closed, wire)
    ensures closed <==> error == Broken && forall c :: 0 <= c <= n ==> |Wire(packets, c)| != |wire|
    ensures !closed ==> wire == Wire(packets, count)
    ensures count <= n && Wire(packets, count) <= wire
  {
    hide Wire;
    WireGrows(packets, count, n);
    forall c | 0 <= c <= n ensures |Wire(packets, c)| == |wire| ==> |Wire(packets, count)| == |wire| {
      if c <= count { WireGrows(packets, c, count); } else { NextFrame(packets, count, c); }
    }
  }

  lemma NextFrame(packets: seq<seq<Byte>>, count: nat, c: nat)
    requires count < c && Fitting(packets, c) && |packets[count]| > 0
    ensures |Wire(packets, c)| >= |Wire(packets, count)| + LENGTH_SIZE + |packets[count]|
  {
    assert Wire(packets, count + 1) == Wire(packets, count) + Frame(packets[count]);
    hide Wire;
    WireGrows(packets, count + 1, c);
  }
}
