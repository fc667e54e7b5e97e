/** Padding, and the data codecs around ciphers and digests left as parameters. */
module DataCodec {
  import opened Bytes
  import opened Arithmetic

  // ---- Padding -----------------------------------------------------------

  function PadSize(length: nat, block: nat): (n: nat)
    requires block > 0
    ensures 0 < n <= block
  {
    block - length % block
  }

  function Repeated(value: Byte, n: nat): (r: seq<Byte>)
    ensures |r| == n && forall i :: 0 <= i < n ==> r[i] == value
  {
    if n == 0 then [] else Repeated(value, n - 1) + [value]
  }

  /** Each byte of the padding is its length, as far as it fits a byte. */
  function Padded(payload: seq<Byte>, block: int): (r: Option<seq<Byte>>)
    ensures r.Some? <==> block > 0
    ensures r.Some? ==> |r.value| == |payload| + PadSize(|payload|, block)
  {
    if block <= 0 then None
    else
      var n := PadSize(|payload|, block);
      Some(payload + Repeated(n % 256, n))
  }

  /** What the padding says was there before, if it is padding at all. */
  function Unpadded(padded: seq<Byte>, block: int): Option<seq<Byte>> {
    if block <= 0 || |padded| == 0 || |padded| % block != 0 then None
    else
      var n: int := padded[|padded| - 1];
      if n <= 0 || n > block || n > |padded| then None
      else if forall i :: |padded| - n <= i < |padded| ==> padded[i] == n then Some(padded[..|padded| - n])
      else None
  }

  method Pad(payload: seq<Byte>, block: int) returns (r: Option<seq<Byte>>)
    ensures r == Padded(payload, block)
  {
    if block <= 0 {
      return None;
    }
    var n := block - |payload| % block;
    if n == 0 {
      n := block;
    }
    var padded := Fill(payload, n, n % 256);
    return Some(padded[..]);
  }

  /** The payload with `n` bytes of one value behind it. */
  method Fill(payload: seq<Byte>, n: nat, value: Byte) returns (padded: array<Byte>)
    ensures padded[..] == payload + Repeated(value, n)
  {
    padded := new Byte[|payload| + n];
    for i := 0 to |payload|
      invariant padded[..i] == payload[..i]
    {
      padded[i] := payload[i];
    }
    for i := |payload| to padded.Length
      invariant padded[..|payload|] == payload && forall k :: |payload| <= k < i ==> padded[k] == value
    {
      padded[i] := value;
    }
  }

  method Unpad(padded: seq<Byte>, block: int) returns (payload: Option<seq<Byte>>)
    ensures payload == Unpadded(padded, block)
  {
    if block <= 0 || |padded| == 0 || |padded| % block != 0 {
      return None;
    }
    var n: int := padded[|padded| - 1];
    if n <= 0 || n > block || n > |padded| {
      return None;
    }
    for i := |padded| - n to |padded|
      invariant forall k :: |padded| - n <= k < i ==> padded[k] == n
    {
      if padded[i] != n {
        return None;
      }
    }
    return Some(padded[..|padded| - n]);
  }

  lemma Quotients(n: nat, block: nat)
    requires block > 0
    ensures n + PadSize(n, block) == (n / block + 1) * block
  {
    assert n == n / block * block + n % block;
  }

  /** Unpadding gives back what was padded, exactly while the length of the padding fits a byte. */
  lemma PadRoundTrip(payload: seq<Byte>, block: nat)
    requires block > 0
    ensures Unpadded(Padded(payload, block).value, block) == Some(payload) <==> PadSize(|payload|, block) < 256
  {
    var padded, n := Padded(payload, block).value, PadSize(|payload|, block);
    Quotients(|payload|, block);
    NoRemainder(|payload| / block + 1, block);
    assert padded[..|payload|] == payload;
    assert padded[|padded| - 1] == n % 256;
  }

  // ---- Codecs ------------------------------------------------------------

  const TAG_SIZE := 16

  /** A block cipher in a chaining mode: initialization vector and text to text. */
  datatype Cipher =
    | NoCipher
    | Chained(block: nat, encrypt: (seq<Byte>, seq<Byte>) -> seq<Byte>, decrypt: (seq<Byte>, seq<Byte>) -> seq<Byte>)

  datatype Digest = Digest(size: nat, sum: seq<Byte> -> seq<Byte>)

  /** Both directions of one key: what one end encodes with it, the other decodes. */
  datatype Codec =
    | Aead(suffix: seq<Byte>, seal: (seq<Byte>, seq<Byte>, seq<Byte>) -> seq<Byte>,
           open: (seq<Byte>, seq<Byte>, seq<Byte>) -> Option<seq<Byte>>)
    | Blocks(cipher: Cipher, digest: Digest, timestamp: Option<Uint32>)
    | Stream(block: nat, stream: (seq<Byte>, seq<Byte>) -> seq<Byte>, unstream: (seq<Byte>, seq<Byte>) -> seq<Byte>,
             digest: Digest, started: Uint32)

  ghost predicate SoundDigest(d: Digest) {
    forall x :: |d.sum(x)| == d.size
  }

  ghost predicate SoundCipher(c: Cipher) {
    c.Chained? ==>
      && 0 < c.block < 256
      && forall iv, x :: |c.encrypt(iv, x)| == |x| && c.decrypt(iv, c.encrypt(iv, x)) == x
  }

  /** What the ciphers and digests are taken to do. */
  ghost predicate Sound(c: Codec) {
    match c
    case Aead(_, seal, open) =>
      forall nonce, payload, extra ::
        |seal(nonce, payload, extra)| == |payload| + TAG_SIZE &&
            open(nonce, seal(nonce, payload, extra), extra) == Some(payload)
    case Blocks(cipher, digest, _) => SoundCipher(cipher) && SoundDigest(digest)
    case Stream(block, stream, unstream, digest, _) =>
      block >= 8 && SoundDigest(digest) && forall iv, x :: |stream(iv, x)| == |x| && unstream(iv, stream(iv, x)) == x
  }

  function EncodedLength(c: Codec, length: nat): nat
    requires c.Blocks? && c.cipher.Chained? ==> c.cipher.block > 0
  {
    match c
    case Aead(_, _, _) => 4 + TAG_SIZE + length
    case Blocks(cipher, digest, timestamp) =>
      var plain := (if timestamp.Some? then 8 else 4) + length;
      digest.size + if cipher.NoCipher? then plain else cipher.block + (plain / cipher.block + 1) * cipher.block
    case Stream(block, _, _, digest, _) => digest.size + block + length
  }

  /** The packet ID, and the timestamp where the codec sends one. */
  function Head(id: Uint32, timestamp: Option<Uint32>): seq<Byte> {
    Uint32Bytes(id) + if timestamp.Some? then Uint32Bytes(timestamp.value) else []
  }

  function Protected(c: Codec, id: Uint32, iv: seq<Byte>, payload: seq<Byte>): seq<Byte>
    requires c.Blocks? && (c.cipher.Chained? ==> 0 < c.cipher.block)
  {
    var plain := Head(id, c.timestamp) + payload;
    if c.cipher.NoCipher? then plain else iv + c.cipher.encrypt(iv, Padded(plain, c.cipher.block).value)
  }

  function Zeros(n: nat): seq<Byte> {
    Repeated(0, n)
  }

  /** Packet ID and timestamp, filled up to a block. */
  function Vector(id: Uint32, started: Uint32, block: nat): (r: seq<Byte>)
    requires block >= 8
    ensures |r| == block && Uint32At(r, 0) == id && Uint32At(r, 4) == started
  {
    Uint32Reads(id, Uint32Bytes(started) + Zeros(block - 8));
    Uint32Reads(started, Zeros(block - 8));
    var rest := Uint32Bytes(started) + Zeros(block - 8);
    assert (Uint32Bytes(id) + rest)[4..] == rest;
    assert Uint32Bytes(id) + rest == Uint32Bytes(id) + Uint32Bytes(started) + Zeros(block - 8);
    Uint32Bytes(id) + rest
  }

  /** A digest goes in front of what it covers. */
  function Summed(d: Digest, body: seq<Byte>): seq<Byte> {
    if d.size > 0 then d.sum(body) + body else body
  }

  /** `iv` is the initialization vector drawn for the packet, used where the cipher needs one. */
  function Encode(c: Codec, id: Uint32, extra: seq<Byte>, iv: seq<Byte>, payload: seq<Byte>): Option<seq<Byte>>
    requires c.Blocks? && c.cipher.Chained? ==> 0 < c.cipher.block && |iv| == c.cipher.block
    requires c.Stream? ==> c.block >= 8
  {
    if id == 0 then None
    else
      match c
      case Aead(suffix, seal, _) =>
        var sealed := seal(Uint32Bytes(id) + suffix, payload, extra + Uint32Bytes(id));
        if |sealed| < TAG_SIZE then None
        else Some(Uint32Bytes(id) + sealed[|sealed| - TAG_SIZE..] + sealed[..|sealed| - TAG_SIZE])
      case Blocks(_, digest, _) =>
        var body := Protected(c, id, iv, payload);
        Some(Summed(digest, body))
      case Stream(block, stream, _, digest, started) =>
        var vector := Vector(id, started, block);
        Some(Summed(digest, vector + stream(vector, payload)))
  }

  /** The announced length is the length that encoding produces. */
  lemma ExactLength(c: Codec, id: Uint32, extra: seq<Byte>, iv: seq<Byte>, payload: seq<Byte>)
    requires Sound(c) && (c.Blocks? && c.cipher.Chained? ==> |iv| == c.cipher.block)
    ensures Encode(c, id, extra, iv, payload).Some? <==> id != 0
    ensures id != 0 ==> |Encode(c, id, extra, iv, payload).value| == EncodedLength(c, |payload|)
  {
    if c.Blocks? && c.cipher.Chained? {
      var plain := Head(id, c.timestamp) + payload;
      Quotients(|plain|, c.cipher.block);
    }
  }

  lemma LongerIsLonger(c: Codec, a: nat, b: nat)
    requires Sound(c) && a <= b
    ensures EncodedLength(c, a) <= EncodedLength(c, b) && a <= EncodedLength(c, a)
  {
    if c.Blocks? && c.cipher.Chained? {
      BlocksGrow(if c.timestamp.Some? then 8 else 4, a, b, c.cipher.block);
    }
  }

  lemma BlocksGrow(head: nat, a: nat, b: nat, block: nat)
    requires a <= b && block > 0
    ensures a <= ((head + a) / block + 1) * block <= ((head + b) / block + 1) * block
  {
    QuotientGrows(head + a, head + b, block);
    Times((head + a) / block + 1, (head + b) / block + 1, block);
    Quotients(head + a, block);
  }

  // ---- Decoding ----------------------------------------------------------

  /** What a packet holds; without a timestamp on the wire it counts as 0. */
  datatype Opened = Opened(id: Uint32, timestamp: Uint32, payload: seq<Byte>)

  /** The codec sends its start time with every packet. */
  predicate Stamps(c: Codec) {
    c.Stream? || (c.Blocks? && c.timestamp.Some?)
  }

  function Stamp(c: Codec): Uint32 {
    match c
    case Aead(_, _, _) => 0
    case Blocks(_, _, timestamp) => if timestamp.Some? then timestamp.value else 0
    case Stream(_, _, _, _, started) => started
  }

  /** The part the digest covers, if it is right. */
  function Checked(d: Digest, packet: seq<Byte>): Option<seq<Byte>> {
    if |packet| < d.size then None
    else if d.size > 0 && packet[..d.size] != d.sum(packet[d.size..]) then None
    else Some(packet[d.size..])
  }

  /** The reverse of encoding, checking tag or digest and the padding, before the replay window has its say. */
  function Decode(c: Codec, extra: seq<Byte>, packet: seq<Byte>): Option<Opened> {
    match c
    case Aead(suffix, _, open) =>
      if |packet| < 4 + TAG_SIZE then None
      else
        var id := Uint32At(packet, 0);
        var sealed := packet[4 + TAG_SIZE..] + packet[4..4 + TAG_SIZE];
        var payload := open(Uint32Bytes(id) + suffix, sealed, extra + Uint32Bytes(id));
        if payload.None? then None else Some(Opened(id, 0, payload.value))
    case Blocks(_, digest, timestamp) =>
      var body := Checked(digest, packet);
      if body.None? then None
      else
        var plain := Unprotected(c, body.value);
        var head := if timestamp.Some? then 8 else 4;
        if plain.None? || |plain.value| < head then None
        else
          var id := Uint32At(plain.value, 0);
          if timestamp.Some? && id == 0 then None
          else Some(Opened(id, if timestamp.Some? then Uint32At(plain.value, 4) else 0, plain.value[head..]))
    case Stream(block, _, unstream, digest, _) =>
      var body := Checked(digest, packet);
      if body.None? || |body.value| <= block || block < 8 then None
      else
        var vector := body.value[..block];
        Some(Opened(Uint32At(vector, 0), Uint32At(vector, 4), unstream(vector, body.value[block..])))
  }

  function Unprotected(c: Codec, body: seq<Byte>): Option<seq<Byte>>
    requires c.Blocks?
  {
    if c.cipher.NoCipher? then Some(body)
    else
      var block := c.cipher.block;
      if block == 0 || |body| < 2 * block || |body| % block != 0 then None
      else Unpadded(c.cipher.decrypt(body[..block], body[block..]), block)
  }

  lemma ProtectRoundTrip(c: Codec, id: Uint32, iv: seq<Byte>, payload: seq<Byte>)
    requires Sound(c) && c.Blocks? && (c.cipher.Chained? ==> |iv| == c.cipher.block)
    ensures Unprotected(c, Protected(c, id, iv, payload)) == Some(Head(id, c.timestamp) + payload)
  {
    hide Head, Unpadded;
    if c.cipher.Chained? {
      var plain, block := Head(id, c.timestamp) + payload, c.cipher.block;
      var padded := Padded(plain, block).value;
      var body := Protected(c, id, iv, payload);
      PadRoundTrip(plain, block);
      Quotients(|plain|, block);
      var k := |plain| / block + 1;
      Times(1, k, block);
      NoRemainder(k + 1, block);
      assert |body| == (k + 1) * block;
      assert body[..block] == iv && body[block..] == c.cipher.encrypt(iv, padded);
    }
  }

  lemma CheckedSum(d: Digest, body: seq<Byte>)
    requires SoundDigest(d)
    ensures Checked(d, Summed(d, body)) == Some(body)
  {
    var packet := Summed(d, body);
    assert |d.sum(body)| == d.size;
    assert d.size > 0 ==> packet[..d.size] == d.sum(body) && packet[d.size..] == body;
    assert d.size == 0 ==> packet[0..] == body;
  }

  lemma HeadReads(id: Uint32, timestamp: Option<Uint32>, payload: seq<Byte>)
    ensures var plain := Head(id, timestamp) + payload;
            && Uint32At(plain, 0) == id && (timestamp.Some? ==> Uint32At(plain, 4) == timestamp.value)
            && plain[if timestamp.Some? then 8 else 4..] == payload
  {
    var plain := Head(id, timestamp) + payload;
    var rest := (if timestamp.Some? then Uint32Bytes(timestamp.value) else []) + payload;
    assert plain == Uint32Bytes(id) + rest;
    Uint32Reads(id, rest);
    if timestamp.Some? {
      Uint32Reads(timestamp.value, payload);
      assert plain[4..] == rest && plain[8..] == rest[4..];
    }
  }

  lemma BlocksRoundTrip(c: Codec, id: Uint32, extra: seq<Byte>, iv: seq<Byte>, payload: seq<Byte>)
    requires Sound(c) && c.Blocks? && (c.cipher.Chained? ==> |iv| == c.cipher.block) && id != 0
    ensures Decode(c, extra, Encode(c, id, extra, iv, payload).value) == Some(Opened(id, Stamp(c), payload))
  {
    hide Unprotected, Protected, Head, Checked, Summed;
    ProtectRoundTrip(c, id, iv, payload);
    CheckedSum(c.digest, Protected(c, id, iv, payload));
    HeadReads(id, c.timestamp, payload);
    assert |Head(id, c.timestamp)| == if c.timestamp.Some? then 8 else 4 by { HeadLength(id, c.timestamp); }
  }

  lemma HeadLength(id: Uint32, timestamp: Option<Uint32>)
    ensures |Head(id, timestamp)| == if timestamp.Some? then 8 else 4
  {
  }

  lemma AeadRoundTrip(c: Codec, id: Uint32, extra: seq<Byte>, iv: seq<Byte>, payload: seq<Byte>)
    requires Sound(c) && c.Aead? && id != 0
    ensures Decode(c, extra, Encode(c, id, extra, iv, payload).value) == Some(Opened(id, 0, payload))
  {
    var sealed := c.seal(Uint32Bytes(id) + c.suffix, payload, extra + Uint32Bytes(id));
    var packet := Encode(c, id, extra, iv, payload).value;
    var n := |sealed| - TAG_SIZE;
    Uint32Reads(id, sealed[n..] + sealed[..n]);
    assert packet == Uint32Bytes(id) + (sealed[n..] + sealed[..n]);
    assert packet[4..4 + TAG_SIZE] == sealed[n..] && packet[4 + TAG_SIZE..] == sealed[..n];
    assert sealed[..n] + sealed[n..] == sealed;
  }

  lemma StreamRoundTrip(c: Codec, id: Uint32, extra: seq<Byte>, iv: seq<Byte>, payload: seq<Byte>)
    requires Sound(c) && c.Stream? && id != 0
    ensures Decode(c, extra, Encode(c, id, extra, iv, payload).value) ==
            if |payload| == 0 then None else Some(Opened(id, c.started, payload))
  {
    hide Checked, Summed, Vector;
    var vector := Vector(id, c.started, c.block);
    var body := vector + c.stream(vector, payload);
    CheckedSum(c.digest, body);
    assert body[..c.block] == vector && body[c.block..] == c.stream(vector, payload);
  }

  /**
   Decoding gives back ID, timestamp and payload, except that a stream cipher's decoder refuses the
   empty payload its encoder sends.
   */
  lemma CodecRoundTrip(c: Codec, id: Uint32, extra: seq<Byte>, iv: seq<Byte>, payload: seq<Byte>)
    requires Sound(c) && (c.Blocks? && c.cipher.Chained? ==> |iv| == c.cipher.block) && id != 0
    ensures Decode(c, extra, Encode(c, id, extra, iv, payload).value) ==
            if c.Stream? && |payload| == 0 then None else Some(Opened(id, Stamp(c), payload))
  {
    hide Sound, Encode, Decode;
    match c
    case Aead(_, _, _) => AeadRoundTrip(c, id, extra, iv, payload);
    case Blocks(_, _, _) => BlocksRoundTrip(c, id, extra, iv, payload);
    case Stream(_, _, _, _, _) => StreamRoundTrip(c, id, extra, iv, payload);
  }
}
