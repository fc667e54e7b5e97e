/** How much payload fits into a packet of a configured size, and fragments that keep to it. */
module PayloadBudget {
  import opened Bytes
  import opened DataCodec
  import opened Interleaving
  import opened Framing

  const FRAGMENT_HEADER := 4

  /** The length on the wire of a packet with `fixed + n` bytes of payload. */
  function PacketLength(c: Codec, header: nat, fixed: nat, n: nat): nat
    requires c.Blocks? && c.cipher.Chained? ==> c.cipher.block > 0
  {
    header + EncodedLength(c, fixed + n)
  }

  /** The greatest payload that fits; if not even one byte does, then 1 or what is missing. */
  ghost predicate IsBudget(c: Codec, packetSize: int, header: nat, fixed: nat, r: int)
    requires Sound(c)
  {
    if PacketLength(c, header, fixed, 0) >= packetSize then r == packetSize - PacketLength(c, header, fixed, 0)
    else if PacketLength(c, header, fixed, 1) > packetSize then r == 1
    else
      && r >= 1 && PacketLength(c, header, fixed, r) <= packetSize
      && forall n: nat :: n > r ==> PacketLength(c, header, fixed, n) > packetSize
  }

  method Calculate(c: Codec, packetSize: int, header: nat, fixed: nat) returns (r: int)
    requires Sound(c)
    ensures IsBudget(c, packetSize, header, fixed, r)
  {
    hide EncodedLength;
    var minimum := PacketLength(c, header, fixed, 0);
    if minimum >= packetSize {
      return packetSize - minimum;
    }
    var low, high := 1, packetSize;
    forall n: nat | n > high ensures PacketLength(c, header, fixed, n) > packetSize {
      LongerIsLonger(c, fixed + n, fixed + n);
    }
    while low < high
      invariant 1 <= low <= high && (low > 1 ==> PacketLength(c, header, fixed, low) <= packetSize)
      invariant forall n: nat :: n > high ==> PacketLength(c, header, fixed, n) > packetSize
      decreases high - low
    {
      var candidate := low + (high - low + 1) / 2;
      var length := PacketLength(c, header, fixed, candidate);
      if length <= packetSize {
        low := candidate;
      } else {
        forall n: nat | n > candidate - 1 ensures PacketLength(c, header, fixed, n) > packetSize {
          LongerIsLonger(c, fixed + candidate, fixed + n);
        }
        high := candidate - 1;
      }
    }
    LongerIsLonger(c, fixed + 1, fixed + low);
    return low;
  }

  lemma PartFits(m: Message, j: nat)
    ensures |Part(m, j)| <= m.size
  {
    CutsGrow(m, j);
    assert (j + 1) * m.size == j * m.size + m.size;
  }

  lemma FrameSizes(framed: seq<Byte>, fragmentSize: int, sequence: nat)
    ensures var r := Fragments(framed, fragmentSize, sequence);
            r.Frame? ==>
              && fragmentSize >= 4
              && forall j :: 0 <= j < |r.frames| ==> |r.frames[j]| <= FRAGMENT_HEADER + fragmentSize
  {
    hide LastPart, PartBytes, FirstParts;
    var size := fragmentSize - fragmentSize % 4;
    var r := Fragments(framed, fragmentSize, sequence);
    if r.Frame? && |framed| > size {
      var m := Message(framed, size);
      forall j | 0 <= j < |r.frames| ensures |r.frames[j]| <= FRAGMENT_HEADER + size {
        FirstPartsAt(m, LastPart(m), sequence, |r.frames|, j);
        PartBytesFit(m, LastPart(m), sequence, j);
      }
    }
  }

  lemma PartBytesFit(m: Message, last: nat, sequence: nat, j: nat)
    ensures |PartBytes(m, last, sequence, j)| <= FRAGMENT_HEADER + m.size
  {
    PartFits(m, j);
    hide Part;
  }

  /**
   Every fragment, encoded and put behind the packet header, keeps to the
   configured size; a budget too small for a fragment is an error.
   */
  lemma FragmentsFit(c: Codec, packetSize: int, header: nat, budget: int, framed: seq<Byte>, sequence: nat)
    requires Sound(c) && IsBudget(c, packetSize, header, FRAGMENT_HEADER, budget)
    ensures budget < 4 <==> Fragments(framed, budget, sequence) == TooSmall
    ensures var r := Fragments(framed, budget, sequence);
            r.Frame? ==> forall j :: 0 <= j < |r.frames| ==> header + EncodedLength(c, |r.frames[j]|) <= packetSize
  {
    FrameSizes(framed, budget, sequence);
    hide EncodedLength, LastPart, PartBytes;
    var r := Fragments(framed, budget, sequence);
    if r.Frame? {
      forall j | 0 <= j < |r.frames| ensures header + EncodedLength(c, |r.frames[j]|) <= packetSize {
        LongerIsLonger(c, |r.frames[j]|, FRAGMENT_HEADER + budget);
      }
    }
  }
}
