/** The markers that say how a payload is compressed, and how to take them off again. */
module Compression {
  import opened Bytes
  import opened LzoStream

  const LZO_COMPRESS: Byte := 0x66
  const LZ4_COMPRESS: Byte := 0x69
  const NO_COMPRESS: Byte := 0xfa
  const NO_COMPRESS_SWAP: Byte := 0xfb
  const V2_INDICATOR: Byte := 0x50
  const V2_NONE: Byte := 0x00
  const V2_LZ4: Byte := 0x01
  const LZO_MAX_DECOMPRESSED := 0x1_0000
  const COMPRESSION_THRESHOLD := 100

  datatype Algorithm = NoCompression | Stub | Lzo | Lz4 | StubV2 | Lz4V2

  datatype Settings = Settings(algorithm: Algorithm, swap: bool, adaptive: bool)

  /** What is left without the marker; an LZ4 block is handed to a foreign decompressor. */
  datatype Unframed = Plain(payload: seq<Byte>) | Lz4Block(block: seq<Byte>) | Invalid

  function ApplyStub(payload: seq<Byte>, swap: bool): (framed: seq<Byte>)
    ensures |framed| == |payload| + 1
  {
    if !swap then [NO_COMPRESS] + payload
    else if |payload| == 0 then [NO_COMPRESS_SWAP]
    else [NO_COMPRESS_SWAP] + payload[1..] + [payload[0]]
  }

  /** Puts the last byte back in front. */
  function Unswap(framed: seq<Byte>): seq<Byte> {
    if |framed| <= 1 then [] else [framed[|framed| - 1]] + framed[1..|framed| - 1]
  }

  function UnframeStub(framed: seq<Byte>, swap: bool): Unframed {
    if |framed| == 0 then Invalid
    else if !swap then (if framed[0] != NO_COMPRESS then Invalid else Plain(framed[1..]))
    else if framed[0] != NO_COMPRESS_SWAP then Invalid
    else Plain(Unswap(framed))
  }

  function EscapeV2(payload: seq<Byte>): seq<Byte> {
    if |payload| == 0 || payload[0] != V2_INDICATOR then payload
    else [V2_INDICATOR, V2_NONE] + payload
  }

  function UnwrapV2(framed: seq<Byte>, algorithm: Algorithm): Unframed {
    if |framed| == 0 || framed[0] != V2_INDICATOR then Plain(framed)
    else if |framed| < 2 then Invalid
    else if framed[1] == V2_NONE then Plain(framed[2..])
    else if framed[1] == V2_LZ4 && algorithm.Lz4V2? then Lz4Block(framed[2..])
    else Invalid
  }

  /** The decompressor's output buffer holds 65536 bytes. */
  function DecompressBlock(block: seq<Byte>): Unframed {
    match Decompress(block)
    case Corrupt => Invalid
    case Done(output, _) => if 0 < |output| <= LZO_MAX_DECOMPRESSED then Plain(output) else Invalid
  }

  function DecodeLzoFrame(framed: seq<Byte>): Unframed {
    if |framed| == 0 then Invalid
    else if framed[0] == NO_COMPRESS then Plain(framed[1..])
    else if framed[0] == LZO_COMPRESS then DecompressBlock(framed[1..])
    else Invalid
  }

  function DecodeLz4Frame(framed: seq<Byte>): Unframed {
    if |framed| == 0 then Invalid
    else if framed[0] == NO_COMPRESS_SWAP then Plain(Unswap(framed))
    else if framed[0] == LZ4_COMPRESS then (if |framed| < 2 then Invalid else Lz4Block(Unswap(framed)))
    else Invalid
  }

  function Unframe(settings: Settings, framed: seq<Byte>): Unframed {
    match settings.algorithm
    case NoCompression => Plain(framed)
    case Stub => UnframeStub(framed, settings.swap)
    case Lzo => DecodeLzoFrame(framed)
    case Lz4 => DecodeLz4Frame(framed)
    case StubV2 => UnwrapV2(framed, StubV2)
    case Lz4V2 => UnwrapV2(framed, Lz4V2)
  }

  /** A block of the payload that is shorter than the payload. */
  predicate Compressed(payload: seq<Byte>, framed: seq<Byte>) {
    |framed| > 0 && framed[0] == LZO_COMPRESS &&
    COMPRESSION_THRESHOLD <= |payload| && |framed| - 1 < |payload| &&
    Decompress(framed[1..]) == Done(payload, |framed| - 1)
  }

  /** The frames an encoder may choose for the payload. */
  predicate Frames(settings: Settings, payload: seq<Byte>, framed: seq<Byte>) {
    match settings.algorithm
    case NoCompression => framed == payload
    case Stub => framed == ApplyStub(payload, settings.swap)
    case Lz4 => framed == ApplyStub(payload, true)
    case Lzo => framed == [NO_COMPRESS] + payload || Compressed(payload, framed)
    case StubV2 => framed == EscapeV2(payload)
    case Lz4V2 => framed == EscapeV2(payload)
  }

  lemma StubRoundTrip(payload: seq<Byte>, swap: bool)
    ensures UnframeStub(ApplyStub(payload, swap), swap) == Plain(payload)
    ensures swap ==> DecodeLz4Frame(ApplyStub(payload, swap)) == Plain(payload)
  {
    var framed := ApplyStub(payload, swap);
    if swap && |payload| > 0 {
      assert framed[1..|framed| - 1] == payload[1..];
      assert [payload[0]] + payload[1..] == payload;
    } else {
      assert framed[1..] == payload;
    }
  }

  /**
   Every frame gives its payload back, with one exception: a payload that
   compressed well enough to be sent but does not fit the receiver's buffer.
   */
  lemma FrameRoundTrip(settings: Settings, payload: seq<Byte>, framed: seq<Byte>)
    requires Frames(settings, payload, framed)
    ensures Unframe(settings, framed) == Plain(payload) <==>
            !(settings.algorithm.Lzo? && framed[0] == LZO_COMPRESS && |payload| > LZO_MAX_DECOMPRESSED)
  {
    match settings.algorithm
    case NoCompression =>
    case Stub => StubRoundTrip(payload, settings.swap);
    case Lz4 => StubRoundTrip(payload, true);
    case Lzo => assert framed[0] == NO_COMPRESS ==> framed[1..] == payload;
    case StubV2 => EscapeRoundTrip(payload, StubV2);
    case Lz4V2 => EscapeRoundTrip(payload, Lz4V2);
  }

  lemma EscapeRoundTrip(payload: seq<Byte>, algorithm: Algorithm)
    ensures UnwrapV2(EscapeV2(payload), algorithm) == Plain(payload)
  {
    if |payload| > 0 && payload[0] == V2_INDICATOR {
      assert EscapeV2(payload)[2..] == payload;
    }
  }
}
