/** The packet header of the wire protocol: writing it, reading it, and back. */
module PacketCodec {
  import opened Bytes

  const HARD_RESET_CLIENT_V1 := 1
  const HARD_RESET_SERVER_V1 := 2
  const SOFT_RESET_V1 := 3
  const CONTROL_V1 := 4
  const ACKNOWLEDGMENT_V1 := 5
  const DATA_V1 := 6
  const HARD_RESET_CLIENT_V2 := 7
  const HARD_RESET_SERVER_V2 := 8
  const DATA_V2 := 9
  const HARD_RESET_CLIENT_V3 := 10
  const CONTROL_WKC_V1 := 11

  /** Key IDs have three bits on the wire. */
  const KEY_ID_MAX := 7

  const NO_SESSION: seq<Byte> := [0, 0, 0, 0, 0, 0, 0, 0]
  const NO_PEER: seq<Byte> := [0, 0, 0]

  predicate IsControl(opcode: nat) {
    opcode in {HARD_RESET_CLIENT_V1, HARD_RESET_SERVER_V1, SOFT_RESET_V1, CONTROL_V1,
               HARD_RESET_CLIENT_V2, HARD_RESET_SERVER_V2, HARD_RESET_CLIENT_V3, CONTROL_WKC_V1}
  }

  predicate IsData(opcode: nat) {
    opcode == DATA_V1 || opcode == DATA_V2
  }

  /** Packets that carry session IDs and acknowledgments. */
  predicate HasSession(opcode: nat) {
    IsControl(opcode) || opcode == ACKNOWLEDGMENT_V1
  }

  datatype Packet = Packet(
    opcode: nat,
    keyID: nat,
    peerID: seq<Byte>,
    localSessionID: seq<Byte>,
    acknowledgmentIDs: seq<Uint32>,
    remoteSessionID: seq<Byte>,
    id: Uint32,
    payload: seq<Byte>)

  datatype Result<T> = Ok(value: T) | TooShort | ParseError | SerializeError

  /** The widths of the fixed-size fields. */
  predicate Sized(p: Packet) {
    |p.peerID| == 3 && |p.localSessionID| == 8 && |p.remoteSessionID| == 8
  }

  function AckBytes(ids: seq<Uint32>): (s: seq<Byte>)
    ensures |s| == 4 * |ids|
  {
    if |ids| == 0 then [] else AckBytes(ids[..|ids| - 1]) + Uint32Bytes(ids[|ids| - 1])
  }

  function AcksAt(s: seq<Byte>, pos: nat, n: nat): (ids: seq<Uint32>)
    requires pos + 4 * n <= |s|
    ensures |ids| == n
  {
    if n == 0 then [] else AcksAt(s, pos, n - 1) + [Uint32At(s, pos + 4 * (n - 1))]
  }

  function SessionBytes(p: Packet): seq<Byte>
    requires |p.acknowledgmentIDs| <= 255
  {
    p.localSessionID + [|p.acknowledgmentIDs|] + AckBytes(p.acknowledgmentIDs)
    + (if |p.acknowledgmentIDs| > 0 then p.remoteSessionID else [])
    + (if p.opcode != ACKNOWLEDGMENT_V1 then Uint32Bytes(p.id) else [])
  }

  /** The first byte keeps five bits of opcode and three of key ID. */
  function Head(p: Packet): Byte {
    (p.opcode % 32) * 8 + p.keyID % 8
  }

  function ToBytes(p: Packet): Result<seq<Byte>> {
    if p.opcode == DATA_V2 then Ok([Head(p)] + p.peerID + p.payload)
    else if HasSession(p.opcode) then
      if |p.acknowledgmentIDs| > 255 then SerializeError
      else Ok([Head(p)] + SessionBytes(p) + p.payload)
    else Ok([Head(p)] + p.payload)
  }

  function ParseSession(opcode: nat, keyID: nat, body: seq<Byte>): Result<Packet> {
    if |body| < 9 then TooShort
    else
      var count := body[8];
      var afterAcks := 9 + 4 * count;
      var afterRemote := afterAcks + if count > 0 then 8 else 0;
      var afterID := afterRemote + if opcode != ACKNOWLEDGMENT_V1 then 4 else 0;
      if |body| < afterID then ParseError
      else
        Ok(Packet(opcode, keyID, NO_PEER, body[..8], AcksAt(body, 9, count),
                  if count > 0 then body[afterAcks..afterRemote] else NO_SESSION,
                  if opcode != ACKNOWLEDGMENT_V1 then Uint32At(body, afterRemote) else 0,
                  body[afterID..]))
  }

  function Parse(raw: seq<Byte>): Result<Packet> {
    if |raw| < 1 then TooShort
    else
      var opcode, keyID := raw[0] / 8, raw[0] % 8;
      if opcode == DATA_V2 then
        if |raw| < 4 then TooShort
        else Ok(Packet(opcode, keyID, raw[1..4], NO_SESSION, [], NO_SESSION, 0, raw[4..]))
      else if HasSession(opcode) then ParseSession(opcode, keyID, raw[1..])
      else Ok(Packet(opcode, keyID, NO_PEER, NO_SESSION, [], NO_SESSION, 0, raw[1..]))
  }

  /** The view shares the payload with the raw packet instead of copying it. */
  function ParseView(raw: seq<Byte>): Result<Packet> {
    if |raw| < 1 then TooShort
    else
      var opcode := raw[0] / 8;
      if !IsData(opcode) then Parse(raw)
      else
        var body := raw[1..];
        if opcode == DATA_V2 then
          if |body| < 3 then TooShort
          else Ok(Packet(opcode, raw[0] % 8, body[..3], NO_SESSION, [], NO_SESSION, 0, body[3..]))
        else Ok(Packet(opcode, raw[0] % 8, NO_PEER, NO_SESSION, [], NO_SESSION, 0, body))
  }

  // ---- Round trips -------------------------------------------------------

  lemma Uint32Rebuilds(s: seq<Byte>, i: nat)
    requires i + 4 <= |s|
    ensures Uint32Bytes(Uint32At(s, i)) == s[i..i + 4]
  {
    var high, low := Uint16At(s, i), Uint16At(s, i + 2);
    assert Uint32At(s, i) / 0x1_0000 == high && Uint32At(s, i) % 0x1_0000 == low;
    assert Uint16Bytes(high) == [s[i], s[i + 1]] && Uint16Bytes(low) == [s[i + 2], s[i + 3]];
  }

  lemma {:induction false} AcksRebuild(s: seq<Byte>, pos: nat, n: nat)
    requires pos + 4 * n <= |s|
    ensures AckBytes(AcksAt(s, pos, n)) == s[pos..pos + 4 * n]
  {
    hide Uint32At, Uint32Bytes;
    if n > 0 {
      AcksRebuild(s, pos, n - 1);
      Uint32Rebuilds(s, pos + 4 * (n - 1));
      assert AcksAt(s, pos, n)[..n - 1] == AcksAt(s, pos, n - 1);
      assert s[pos..pos + 4 * n] == s[pos..pos + 4 * (n - 1)] + s[pos + 4 * (n - 1)..pos + 4 * n];
    }
  }

  lemma Uint32InPlace(front: seq<Byte>, n: Uint32, back: seq<Byte>)
    ensures Uint32At(front + Uint32Bytes(n) + back, |front|) == n
  {
    var s := front + Uint32Bytes(n) + back;
    assert s[|front|] == Uint32Bytes(n)[0] && s[|front| + 1] == Uint32Bytes(n)[1];
    assert s[|front| + 2] == Uint32Bytes(n)[2] && s[|front| + 3] == Uint32Bytes(n)[3];
  }

  lemma {:induction false} AcksReadBack(front: seq<Byte>, ids: seq<Uint32>, back: seq<Byte>)
    ensures AcksAt(front + AckBytes(ids) + back, |front|, |ids|) == ids
    decreases |ids|
  {
    hide Uint32At, Uint32Bytes;
    if |ids| > 0 {
      var init, last := ids[..|ids| - 1], ids[|ids| - 1];
      var s := front + AckBytes(ids) + back;
      assert s == front + AckBytes(init) + (Uint32Bytes(last) + back);
      AcksReadBack(front, init, Uint32Bytes(last) + back);
      assert s == (front + AckBytes(init)) + Uint32Bytes(last) + back;
      Uint32InPlace(front + AckBytes(init), last, back);
      assert init + [last] == ids;
    }
  }

  /** Whatever parses is written back byte for byte. */
  lemma BytesAfterParse(raw: seq<Byte>)
    requires Parse(raw).Ok?
    ensures ToBytes(Parse(raw).value) == Ok(raw)
  {
    hide ParseSession, SessionBytes;
    var p := Parse(raw).value;
    var opcode := raw[0] / 8;
    if opcode == DATA_V2 {
      assert raw == [raw[0]] + raw[1..4] + raw[4..];
    } else if HasSession(opcode) {
      SessionRebuilds(opcode, raw[0] % 8, raw[1..], p);
      assert [raw[0]] + SessionBytes(p) + p.payload == [raw[0]] + (SessionBytes(p) + p.payload) == raw;
    } else {
      assert raw == [raw[0]] + raw[1..];
    }
  }

  /** A sequence is its parts between given places. */
  lemma PartsRebuild(body: seq<Byte>, i: nat, j: nat, k: nat)
    requires 9 <= i <= j <= k <= |body|
    ensures body == body[..9] + body[9..i] + body[i..j] + body[j..k] + body[k..]
  {
    assert body[..9] + body[9..i] == body[..i];
    assert body[..i] + body[i..j] == body[..j];
    assert body[..j] + body[j..k] == body[..k];
  }

  lemma SessionRebuilds(opcode: nat, keyID: nat, body: seq<Byte>, p: Packet)
    requires ParseSession(opcode, keyID, body) == Ok(p)
    ensures p.opcode == opcode && p.keyID == keyID && |p.acknowledgmentIDs| <= 255
    ensures SessionBytes(p) + p.payload == body
  {
    hide AckBytes, AcksAt, Uint32Bytes, Uint32At;
    var count: int := body[8];
    var afterAcks := 9 + 4 * count;
    var afterRemote := afterAcks + if count > 0 then 8 else 0;
    var afterID := afterRemote + if opcode != ACKNOWLEDGMENT_V1 then 4 else 0;
    AcksRebuild(body, 9, count);
    if opcode != ACKNOWLEDGMENT_V1 {
      Uint32Rebuilds(body, afterRemote);
    }
    assert p.localSessionID + [count] == body[..9];
    PartsRebuild(body, afterAcks, afterRemote, afterID);
  }

  /** The fields an opcode does not carry come back empty. */
  function Carried(p: Packet): Packet {
    Packet(p.opcode, p.keyID % 8,
           if p.opcode == DATA_V2 then p.peerID else NO_PEER,
           if HasSession(p.opcode) then p.localSessionID else NO_SESSION,
           if HasSession(p.opcode) then p.acknowledgmentIDs else [],
           if HasSession(p.opcode) && |p.acknowledgmentIDs| > 0 then p.remoteSessionID else NO_SESSION,
           if IsControl(p.opcode) then p.id else 0,
           p.payload)
  }

  /** Whatever is written is read back, up to the fields the opcode does not carry. */
  lemma ParseAfterBytes(p: Packet)
    requires Sized(p) && p.opcode < 32
    ensures ToBytes(p).Ok? <==> (HasSession(p.opcode) ==> |p.acknowledgmentIDs| <= 255)
    ensures ToBytes(p).Ok? ==> Parse(ToBytes(p).value) == Ok(Carried(p))
  {
    hide AckBytes, AcksAt, Uint32Bytes, Uint32At, ParseSession, SessionBytes;
    if ToBytes(p).Ok? {
      var raw := ToBytes(p).value;
      assert raw[0] / 8 == p.opcode && raw[0] % 8 == p.keyID % 8;
      if p.opcode == DATA_V2 {
        assert raw[1..4] == p.peerID && raw[4..] == p.payload;
      } else if HasSession(p.opcode) {
        assert raw[1..] == SessionBytes(p) + p.payload;
        SessionReadBack(p);
      } else {
        assert raw[1..] == p.payload;
      }
    }
  }

  lemma Middle(front: seq<Byte>, mid: seq<Byte>, back: seq<Byte>)
    ensures var all := front + mid + back;
            && |all| == |front| + |mid| + |back| && all[..|front|] == front
            && all[|front|..|front| + |mid|] == mid && all[|front| + |mid|..] == back
  {
  }

  lemma Regrouped(a: seq<Byte>, b: seq<Byte>, c: seq<Byte>, d: seq<Byte>, e: seq<Byte>)
    ensures a + b + c + d + e == a + b + (c + d + e) == (a + b) + c + (d + e) == (a + b + c) + d + e
  {
  }

  /** Where the parser looks, it finds what was written. */
  lemma SessionFields(front: seq<Byte>, ids: seq<Uint32>, remote: seq<Byte>, id: seq<Byte>, payload: seq<Byte>)
    ensures var body, n := front + AckBytes(ids) + remote + id + payload, |front| + 4 * |ids|;
            && |body| == n + |remote| + |id| + |payload| && body[..|front|] == front &&
                  AcksAt(body, |front|, |ids|) == ids
            && body[n..n + |remote|] == remote && body[n + |remote|..n + |remote| + |id|] == id
            && body[n + |remote| + |id|..] == payload
  {
    hide AckBytes, AcksAt, Uint32Bytes, Uint32At;
    var acks := AckBytes(ids);
    Regrouped(front, acks, remote, id, payload);
    AcksReadBack(front, ids, remote + id + payload);
    Middle(front, acks, remote + id + payload);
    Middle(front + acks, remote, id + payload);
    Middle(front + acks + remote, id, payload);
  }

  lemma SessionOpcode(opcode: nat)
    requires HasSession(opcode)
    ensures opcode != DATA_V2 && (IsControl(opcode) <==> opcode != ACKNOWLEDGMENT_V1)
  {
  }

  /** Four bytes that are an ID read as that ID. */
  lemma IDInPlace(body: seq<Byte>, at: nat, id: Uint32)
    requires at + 4 <= |body| && body[at..at + 4] == Uint32Bytes(id)
    ensures Uint32At(body, at) == id
  {
    assert body == body[..at] + Uint32Bytes(id) + body[at + 4..];
    Uint32InPlace(body[..at], id, body[at + 4..]);
  }

  lemma SessionReadBack(p: Packet)
    requires Sized(p) && HasSession(p.opcode) && |p.acknowledgmentIDs| <= 255
    ensures ParseSession(p.opcode, p.keyID % 8, SessionBytes(p) + p.payload) == Ok(Carried(p))
  {
    hide AckBytes, AcksAt, Uint32Bytes, Uint32At;
    SessionOpcode(p.opcode);
    hide HasSession, IsControl;
    var count := |p.acknowledgmentIDs|;
    var front := p.localSessionID + [count];
    var remote := if count > 0 then p.remoteSessionID else [];
    var id := if p.opcode != ACKNOWLEDGMENT_V1 then Uint32Bytes(p.id) else [];
    var body := SessionBytes(p) + p.payload;
    assert body == front + AckBytes(p.acknowledgmentIDs) + remote + id + p.payload;
    hide SessionBytes;
    SessionFields(front, p.acknowledgmentIDs, remote, id, p.payload);
    assert front[..8] == p.localSessionID && front[8] == count;
    assert body[..9][..8] == body[..8] && body[..9][8] == body[8];
    if p.opcode != ACKNOWLEDGMENT_V1 { IDInPlace(body, 9 + 4 * count + |remote|, p.id); }
  }

  /** Both parsers agree on every input. */
  lemma ViewAgrees(raw: seq<Byte>)
    ensures ParseView(raw) == Parse(raw)
  {
    if |raw| >= 4 {
      assert raw[1..][..3] == raw[1..4] && raw[1..][3..] == raw[4..];
    }
  }

  // ---- The loops ---------------------------------------------------------

  /** Reads the acknowledgments one by one, as the parser does. */
  method ReadAcknowledgments(body: seq<Byte>, count: nat) returns (ids: seq<Uint32>, ok: bool)
    requires |body| >= 9
    ensures ok <==> 9 + 4 * count <= |body|
    ensures ok ==> ids == AcksAt(body, 9, count)
  {
    ids := [];
    for k := 0 to count
      invariant 9 + 4 * k <= |body| && ids == AcksAt(body, 9, k)
    {
      if 9 + 4 * k + 4 > |body| {
        return [], false;
      }
      ids := ids + [Uint32At(body, 9 + 4 * k)];
    }
    ok := true;
  }

  method WriteAcknowledgments(ids: seq<Uint32>) returns (s: seq<Byte>)
    ensures s == AckBytes(ids)
  {
    s := [];
    for k := 0 to |ids|
      invariant s == AckBytes(ids[..k])
    {
      assert ids[..k + 1][..k] == ids[..k];
      s := s + Uint32Bytes(ids[k]);
    }
    assert ids[..|ids|] == ids;
  }
}
