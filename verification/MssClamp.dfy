/** Lowering the maximum segment size in TCP SYN segments, with the checksum kept right. */
module MssClamp {
  import opened Bytes
  import opened Checksum

  const IPV4_HEADER := 20
  const IPV6_HEADER := 40
  const TCP := 6
  const TCP_HEADER := 20
  const CHECKSUM := 16
  const END := 0
  const NOP := 1
  const MSS := 2
  const MSS_LENGTH := 4

  /** Where the TCP header ends, if that is within the segment. */
  function DataOffset(s: seq<Byte>): (r: Option<nat>)
    requires |s| >= TCP_HEADER
    ensures r.Some? ==> TCP_HEADER <= r.value <= |s|
  {
    var n := (s[12] as int) / 16 * 4;
    if TCP_HEADER <= n <= |s| then Some(n) else None
  }

  /** Whether a well-formed option other than padding starts at `at`. */
  predicate OptionAt(s: seq<Byte>, end: nat, at: nat)
    requires end <= |s|
  {
    at + 1 < end && s[at] != END && s[at] != NOP && 2 <= s[at + 1] <= end - at
  }

  /** The offsets of the MSS values that the walk over the options reaches from `at`. */
  function Fields(s: seq<Byte>, end: nat, at: nat): (r: seq<nat>)
    requires end <= |s|
    ensures forall i :: 0 <= i < |r| ==> at + 2 <= r[i] && r[i] + 2 <= end
    ensures Apart(r)
    decreases end - at
  {
    if at >= end || s[at] == END then []
    else if s[at] == NOP then Fields(s, end, at + 1)
    else if !OptionAt(s, end, at) then []
    else if s[at] == MSS && s[at + 1] == MSS_LENGTH then [at + 2] + Fields(s, end, at + MSS_LENGTH)
    else Fields(s, end, at + (s[at + 1] as int))
  }

  /** The fields lie between the checksum and the end. */
  predicate Placed(fields: seq<nat>, length: nat) {
    forall i :: 0 <= i < |fields| ==> CHECKSUM + 2 <= fields[i] && fields[i] + 2 <= length
  }

  predicate Apart(fields: seq<nat>) {
    forall i, j :: 0 <= i < j < |fields| ==> fields[i] + MSS_LENGTH <= fields[j]
  }

  function Put(s: seq<Byte>, at: nat, n: Uint16): (r: seq<Byte>)
    requires at + 2 <= |s|
    ensures |r| == |s| && Uint16At(r, at) == n
    ensures forall k :: 0 <= k < |s| && k != at && k != at + 1 ==> r[k] == s[k]
  {
    s[at := n / 256][at + 1 := n % 256]
  }

  function Reversed(n: Uint16): Uint16 {
    n % 256 * 256 + n / 256
  }

  function Aligned(n: Uint16, at: nat): Uint16 {
    if at % 2 != 0 then Reversed(n) else n
  }

  /** One value lowered to the cap and the checksum corrected, if it is above the cap. */
  function Lowered(s: seq<Byte>, at: nat, cap: Uint16): (r: seq<Byte>)
    requires CHECKSUM + 2 <= at && at + 2 <= |s|
    ensures |r| == |s|
  {
    var value := Uint16At(s, at);
    if value > cap then
      Put(Put(s, at, cap), CHECKSUM, Updated(Uint16At(s, CHECKSUM), Aligned(value, at), Aligned(cap, at)))
    else s
  }

  function AllLowered(s: seq<Byte>, fields: seq<nat>, cap: Uint16): (r: seq<Byte>)
    requires Placed(fields, |s|)
    ensures |r| == |s|
  {
    if |fields| == 0 then s else Lowered(AllLowered(s, fields[..|fields| - 1], cap), fields[|fields| - 1], cap)
  }

  function Clamped(s: seq<Byte>, cap: Uint16): (r: seq<Byte>)
    requires |s| >= TCP_HEADER
    ensures |r| == |s|
  {
    match DataOffset(s)
    case None => s
    case Some(end) => AllLowered(s, Fields(s, end, TCP_HEADER), cap)
  }

  // ---- The checksum ------------------------------------------------------

  lemma WordWeight(n: Uint16, at: nat)
    ensures Weighted(n / 256, at) + Weighted(n % 256, at + 1) == Aligned(n, at)
  {
    assert (at + 1) % 2 == 0 <==> at % 2 != 0;
    assert n % 256 * 256 + n / 256 < 0x1_0000;
  }

  lemma WordBytes(s: seq<Byte>, at: nat)
    requires at + 2 <= |s|
    ensures Uint16At(s, at) / 256 == s[at] && Uint16At(s, at) % 256 == s[at + 1]
  {
  }

  lemma PutSum(s: seq<Byte>, at: nat, n: Uint16)
    requires at + 2 <= |s|
    ensures Sum(Put(s, at, n)) == Sum(s) - Aligned(Uint16At(s, at), at) + Aligned(n, at)
  {
    hide Sum, Weighted, Aligned, Uint16At;
    var once := s[at := n / 256];
    SumUpdate(s, at, n / 256);
    SumUpdate(once, at + 1, n % 256);
    WordBytes(s, at);
    WordWeight(Uint16At(s, at), at);
    WordWeight(n, at);
  }

  lemma LoweredBalances(s: seq<Byte>, at: nat, cap: Uint16)
    requires CHECKSUM + 2 <= at && at + 2 <= |s|
    ensures Sum(Lowered(s, at, cap)) % ONES == Sum(s) % ONES
  {
    hide Sum, Aligned, Updated, Put;
    var value := Uint16At(s, at);
    if value > cap {
      var once := Put(s, at, cap);
      var current := Uint16At(s, CHECKSUM);
      assert Uint16At(once, CHECKSUM) == current;
      var checksum := Updated(current, Aligned(value, at), Aligned(cap, at));
      PutSum(s, at, cap);
      PutSum(once, CHECKSUM, checksum);
      UpdateBalances(current, Aligned(value, at), Aligned(cap, at));
      assert Aligned(checksum, CHECKSUM) == checksum &&
          Aligned(current, CHECKSUM) == current by { EvenIsAligned(checksum); EvenIsAligned(current); }
      Balances(Sum(s), Sum(Lowered(s, at, cap)), current + Aligned(value, at), checksum + Aligned(cap, at));
    }
  }

  lemma EvenIsAligned(n: Uint16)
    ensures Aligned(n, CHECKSUM) == n
  {
  }

  lemma Balances(before: nat, after: nat, out: nat, back: nat)
    requires after == before - out + back && back % ONES == out % ONES
    ensures after % ONES == before % ONES
  {
    var q := back / ONES - out / ONES;
    assert back - out == q * ONES;
    SameRemainder(after, before, q);
  }

  lemma {:induction false} AllLoweredBalances(s: seq<Byte>, fields: seq<nat>, cap: Uint16)
    requires Placed(fields, |s|)
    ensures Sum(AllLowered(s, fields, cap)) % ONES == Sum(s) % ONES
    decreases |fields|
  {
    hide Sum, Lowered;
    if |fields| > 0 {
      var front := fields[..|fields| - 1];
      AllLoweredBalances(s, front, cap);
      LoweredBalances(AllLowered(s, front, cap), fields[|fields| - 1], cap);
    }
  }

  // ---- What changes and what does not ------------------------------------

  /** Whether offset `k` belongs to neither a field nor the checksum. */
  ghost predicate Free(fields: seq<nat>, k: nat) {
    k != CHECKSUM && k != CHECKSUM + 1 && forall i :: 0 <= i < |fields| ==> k < fields[i] || fields[i] + 2 <= k
  }

  lemma {:induction false} FreeStays(s: seq<Byte>, fields: seq<nat>, cap: Uint16, k: nat)
    requires Placed(fields, |s|) && Free(fields, k) && k < |s|
    ensures AllLowered(s, fields, cap)[k] == s[k]
    decreases |fields|
  {
    if |fields| > 0 {
      FreeStays(s, fields[..|fields| - 1], cap, k);
      assert fields[|fields| - 1] > k || fields[|fields| - 1] + 2 <= k;
      hide AllLowered;
    }
  }

  function Min(a: Uint16, b: Uint16): Uint16 {
    if a < b then a else b
  }

  /** Every field ends up at its old value or the cap, whichever is less. */
  lemma {:induction false} FieldsLowered(s: seq<Byte>, fields: seq<nat>, cap: Uint16, i: nat)
    requires Placed(fields, |s|) && Apart(fields) && i < |fields|
    ensures Uint16At(AllLowered(s, fields, cap), fields[i]) == Min(Uint16At(s, fields[i]), cap)
    decreases |fields|
  {
    var n := |fields| - 1;
    var front, at := fields[..n], fields[n];
    var before := AllLowered(s, front, cap);
    if i < n {
      FieldsLowered(s, front, cap, i);
      assert fields[i] + MSS_LENGTH <= at;
      LoweredElsewhere(before, at, cap, fields[i]);
    } else {
      assert forall j :: 0 <= j < n ==> fields[j] + MSS_LENGTH <= at;
      FreeStays(s, front, cap, at);
      FreeStays(s, front, cap, at + 1);
      assert Uint16At(before, at) == Uint16At(s, at);
      LoweredValue(before, at, cap);
    }
  }

  lemma LoweredElsewhere(s: seq<Byte>, at: nat, cap: Uint16, k: nat)
    requires CHECKSUM + 2 <= at && at + 2 <= |s| && CHECKSUM + 2 <= k && k + 2 <= at
    ensures Uint16At(Lowered(s, at, cap), k) == Uint16At(s, k)
  {
  }

  lemma LoweredValue(s: seq<Byte>, at: nat, cap: Uint16)
    requires CHECKSUM + 2 <= at && at + 2 <= |s|
    ensures Uint16At(Lowered(s, at, cap), at) == Min(Uint16At(s, at), cap)
  {
    hide Updated, Aligned;
  }

  function Next(s: seq<Byte>, end: nat, at: nat): nat
    requires end <= |s| && OptionAt(s, end, at)
  {
    at + (s[at + 1] as int)
  }

  lemma HeaderIsFree(s: seq<Byte>, end: nat, at: nat)
    requires TCP_HEADER <= at < end <= |s|
    ensures Free(Fields(s, end, at), at) && (s[at] != NOP && at + 1 < end ==> Free(Fields(s, end, at), at + 1))
  {
  }

  lemma LaterIsFree(s: seq<Byte>, end: nat, at: nat, k: nat)
    requires TCP_HEADER <= at && end <= |s| && OptionAt(s, end, at) && Next(s, end, at) <= k < end
    ensures Free(Fields(s, end, Next(s, end, at)), k) ==> Free(Fields(s, end, at), k)
  {
  }

  /** The walk reads only bytes that lowering leaves alone. */
  lemma {:induction false} SameWalk(s: seq<Byte>, t: seq<Byte>, end: nat, at: nat)
    requires TCP_HEADER <= at && end <= |s| == |t|
    requires forall k :: at <= k < end && Free(Fields(s, end, at), k) ==> t[k] == s[k]
    ensures Fields(t, end, at) == Fields(s, end, at)
    decreases end - at
  {
    hide Free;
    if at < end {
      HeaderIsFree(s, end, at);
      if s[at] == NOP {
        SameWalk(s, t, end, at + 1);
      } else if s[at] != END && OptionAt(s, end, at) {
        var next := Next(s, end, at);
        forall k | next <= k < end && Free(Fields(s, end, next), k) ensures t[k] == s[k] {
          LaterIsFree(s, end, at, k);
        }
        SameWalk(s, t, end, next);
      }
    }
  }

  // ---- The clamp as a whole ----------------------------------------------

  /** Every MSS value the walk reaches, none if the header is malformed. */
  function MssFields(s: seq<Byte>): (r: seq<nat>)
    requires |s| >= TCP_HEADER
    ensures Placed(r, |s|) && Apart(r)
  {
    match DataOffset(s)
    case None => []
    case Some(end) => Fields(s, end, TCP_HEADER)
  }

  lemma SameFields(s: seq<Byte>, cap: Uint16)
    requires |s| >= TCP_HEADER
    ensures MssFields(Clamped(s, cap)) == MssFields(s)
  {
    var t, fields := Clamped(s, cap), MssFields(s);
    FreeStays(s, fields, cap, 12);
    if DataOffset(s).Some? {
      var end := DataOffset(s).value;
      hide AllLowered;
      forall k | TCP_HEADER <= k < end && Free(fields, k) ensures t[k] == s[k] { FreeStays(s, fields, cap, k); }
      SameWalk(s, t, end, TCP_HEADER);
    }
  }

  /** Only MSS values and the checksum change, and every value reached is then the lesser of itself and the cap. */
  lemma ClampsExactly(s: seq<Byte>, cap: Uint16)
    requires |s| >= TCP_HEADER
    ensures var t, fields := Clamped(s, cap), MssFields(s);
            && MssFields(t) == fields
            && (forall i :: 0 <= i < |fields| ==> Uint16At(t, fields[i]) == Min(Uint16At(s, fields[i]), cap))
            && (forall k :: 0 <= k < |s| && Free(fields, k) ==> t[k] == s[k])
  {
    var t, fields := Clamped(s, cap), MssFields(s);
    SameFields(s, cap);
    assert t == AllLowered(s, fields, cap);
    hide AllLowered, MssFields, Clamped, Free;
    forall i | 0 <= i < |fields| ensures Uint16At(t, fields[i]) ==
        Min(Uint16At(s, fields[i]), cap) { FieldsLowered(s, fields, cap, i); }
    forall k | 0 <= k < |s| && Free(fields, k) ensures t[k] == s[k] { FreeStays(s, fields, cap, k); }
  }

  /** A valid checksum stays valid, whatever the offsets and however many values are lowered. */
  lemma ClampKeepsValid(s: seq<Byte>, cap: Uint16, pseudo: nat)
    requires |s| >= TCP_HEADER
    ensures Valid(Clamped(s, cap), pseudo) <==> Valid(s, pseudo)
  {
    hide Sum, AllLowered, Fields, Folded;
    var t := Clamped(s, cap);
    if DataOffset(s).Some? {
      var fields := MssFields(s);
      AllLoweredBalances(s, fields, cap);
      FreeStays(s, fields, cap, 12);
      assert s[12] > 0 && t[12] > 0;
      SumPositive(s, 12);
      SumPositive(t, 12);
      AddsEqually(pseudo, Sum(s), Sum(t));
    }
  }

  lemma AddsEqually(n: nat, a: nat, b: nat)
    requires a % ONES == b % ONES && a > 0 && b > 0
    ensures Folded(n + a) == Folded(n + b)
  {
    var q := a / ONES - b / ONES;
    SameRemainder(n + a, n + b, q);
    FoldedIsUnique(Folded(n + a), n + b);
  }

  lemma {:induction false} NothingToLower(s: seq<Byte>, fields: seq<nat>, cap: Uint16)
    requires Placed(fields, |s|) && forall i :: 0 <= i < |fields| ==> Uint16At(s, fields[i]) <= cap
    ensures AllLowered(s, fields, cap) == s
    decreases |fields|
  {
    if |fields| > 0 {
      NothingToLower(s, fields[..|fields| - 1], cap);
    }
  }

  /** A second clamp changes nothing. */
  lemma ClampTwice(s: seq<Byte>, cap: Uint16)
    requires |s| >= TCP_HEADER
    ensures Clamped(Clamped(s, cap), cap) == Clamped(s, cap)
  {
    var t := Clamped(s, cap);
    ClampsExactly(s, cap);
    NothingToLower(t, MssFields(t), cap);
  }

  // ---- In place ----------------------------------------------------------

  ghost predicate Above(s: seq<Byte>, fields: seq<nat>, cap: Uint16)
    requires Placed(fields, |s|)
  {
    exists i :: 0 <= i < |fields| && Uint16At(s, fields[i]) > cap
  }

  method PutUint16(packet: array<Byte>, at: nat, n: Uint16)
    requires at + 2 <= packet.Length
    modifies packet
    ensures packet[..] == Put(old(packet[..]), at, n)
  {
    packet[at] := n / 256;
    packet[at + 1] := n % 256;
  }

  /** Lowers one value of the segment that starts at `start`. */
  method Lower(packet: array<Byte>, start: nat, at: nat, cap: Uint16) returns (lowered: bool)
    requires CHECKSUM + 2 <= at && start + at + 2 <= packet.Length
    modifies packet
    ensures packet[..start] == old(packet[..start])
    ensures packet[start..] == Lowered(old(packet[start..]), at, cap)
    ensures lowered == (Uint16At(old(packet[start..]), at) > cap)
  {
    hide Updated, Aligned;
    ghost var s := packet[start..];
    var value := (packet[start + at] as int) * 256 + packet[start + at + 1];
    assert value == Uint16At(s, at);
    if value <= cap {
      return false;
    }
    PutUint16(packet, start + at, cap);
    assert packet[start..] == Put(s, at, cap);
    var previous, updated := Aligned(value, at), Aligned(cap, at);
    var current := (packet[start + CHECKSUM] as int) * 256 + packet[start + CHECKSUM + 1];
    assert current == Uint16At(s, CHECKSUM);
    var checksum := IncrementallyUpdate(current, previous, updated);
    PutUint16(packet, start + CHECKSUM, checksum);
    assert packet[start..] == Put(Put(s, at, cap), CHECKSUM, checksum);
    return true;
  }

  method ClampTCPSYNSegment(packet: array<Byte>, start: nat, cap: Uint16) returns (clamped: bool)
    requires start + TCP_HEADER <= packet.Length
    modifies packet
    ensures packet[..start] == old(packet[..start])
    ensures packet[start..] == Clamped(old(packet[start..]), cap)
    ensures clamped == Above(old(packet[start..]), MssFields(old(packet[start..])), cap)
  {
    hide Lowered, AllLowered, Uint16At, Fields, Walking, Above;
    ghost var s := packet[start..];
    var end := (packet[start + 12] as int) / 16 * 4;
    clamped := false;
    if end < TCP_HEADER || end > packet.Length - start {
      NotAbove(s, cap);
      return;
    }
    var at := TCP_HEADER;
    ghost var done: seq<nat> := [];
    StartWalking(s, end, cap);
    while at < end
      invariant TCP_HEADER <= at && packet[..start] == old(packet[..start]) && |packet[start..]| == |s|
      invariant Walking(s, packet[start..], done, end, at, cap, clamped)
      decreases end - at
    {
      Unvisited(s, packet[start..], done, end, at, cap, clamped);
      var kind := packet[start + at];
      assert kind == packet[start..][at] == s[at];
      if kind == END {
        break;
      }
      if kind == NOP {
        at := at + 1;
        continue;
      }
      if at + 1 >= end {
        break;
      }
      var length: int := packet[start + at + 1];
      assert length == packet[start..][at + 1] == s[at + 1];
      if length < 2 || at + length > end {
        break;
      }
      if kind != MSS || length != MSS_LENGTH {
        at := at + length;
        continue;
      }
      WalkField(s, packet[start..], done, end, at, cap, clamped);
      var lowered := Lower(packet, start, at + 2, cap);
      clamped := clamped || lowered;
      done := done + [at + 2];
      at := at + length;
    }
    EndWalking(s, packet[start..], done, end, at, cap, clamped);
  }

  /** The fields of `done` are behind `at` and have been lowered. */
  ghost predicate Walking(s: seq<Byte>, now: seq<Byte>, done: seq<nat>, end: nat, at: nat, cap: Uint16, clamped: bool)
    requires |s| >= TCP_HEADER
  {
    && TCP_HEADER <= at && end <= |s| && Placed(done, |s|) && (forall i :: 0 <= i < |done| ==> done[i] + 2 <= at)
    && done + Fields(s, end, at) == Fields(s, end, TCP_HEADER)
    && now == AllLowered(s, done, cap) && clamped == Above(s, done, cap)
  }

  lemma NotAbove(s: seq<Byte>, cap: Uint16)
    requires |s| >= TCP_HEADER && DataOffset(s).None?
    ensures !Above(s, MssFields(s), cap)
  {
  }

  lemma StartWalking(s: seq<Byte>, end: nat, cap: Uint16)
    requires TCP_HEADER <= end <= |s|
    ensures Walking(s, s, [], end, TCP_HEADER, cap, false)
  {
  }

  /** What lies ahead is as it was, and padding or another option adds no field. */
  lemma Unvisited(s: seq<Byte>, now: seq<Byte>, done: seq<nat>, end: nat, at: nat, cap: Uint16, clamped: bool)
    requires |s| >= TCP_HEADER && Walking(s, now, done, end, at, cap, clamped) && at < end
    ensures |now| == |s| && forall k :: at <= k < |s| ==> now[k] == s[k]
    ensures s[at] == NOP ==> Walking(s, now, done, end, at + 1, cap, clamped)
    ensures s[at] != NOP && OptionAt(s, end, at) && (s[at] != MSS || s[at + 1] != MSS_LENGTH) ==>
              Walking(s, now, done, end, Next(s, end, at), cap, clamped)
  {
    hide AllLowered, Above;
    forall k | at <= k < |s| ensures AllLowered(s, done, cap)[k] == s[k] { FreeStays(s, done, cap, k); }
  }

  lemma WalkField(s: seq<Byte>, now: seq<Byte>, done: seq<nat>, end: nat, at: nat, cap: Uint16, clamped: bool)
    requires |s| >= TCP_HEADER && Walking(s, now, done, end, at, cap, clamped)
    requires at < end && OptionAt(s, end, at) && s[at] == MSS && s[at + 1] == MSS_LENGTH
    ensures at + 4 <= |now|
    ensures Walking(s, Lowered(now, at + 2, cap), done + [at + 2], end, at + MSS_LENGTH, cap,
                    clamped || Uint16At(now, at + 2) > cap)
  {
    hide AllLowered, Above, Lowered, Uint16At;
    LowerNext(s, done, cap, at + 2);
    assert done + [at + 2] + Fields(s, end, at + MSS_LENGTH) == done + ([at + 2] + Fields(s, end, at + MSS_LENGTH));
  }

  lemma EndWalking(s: seq<Byte>, now: seq<Byte>, done: seq<nat>, end: nat, at: nat, cap: Uint16, clamped: bool)
    requires |s| >= TCP_HEADER && Walking(s, now, done, end, at, cap, clamped) && DataOffset(s) == Some(end)
    requires at >= end || s[at] == END || (s[at] != NOP && !OptionAt(s, end, at))
    ensures now == Clamped(s, cap) && clamped == Above(s, MssFields(s), cap)
  {
    hide AllLowered, Above;
    assert done + [] == done;
  }

  lemma LowerNext(s: seq<Byte>, done: seq<nat>, cap: Uint16, at: nat)
    requires Placed(done, |s|) && CHECKSUM + 2 <= at && at + 2 <= |s|
    requires forall i :: 0 <= i < |done| ==> done[i] + 2 <= at
    ensures AllLowered(s, done + [at], cap) == Lowered(AllLowered(s, done, cap), at, cap)
    ensures Uint16At(AllLowered(s, done, cap), at) == Uint16At(s, at)
    ensures Above(s, done + [at], cap) <==> Above(s, done, cap) || Uint16At(s, at) > cap
  {
    var all := done + [at];
    assert all[..|all| - 1] == done;
    FreeStays(s, done, cap, at);
    FreeStays(s, done, cap, at + 1);
    hide AllLowered, Lowered;
    assert forall i :: 0 <= i < |done| ==> all[i] == done[i];
    assert all[|done|] == at;
  }

  // ---- Whole packets -----------------------------------------------------

  const SYN := 13

  function Version(packet: seq<Byte>): nat
    requires |packet| > 0
  {
    (packet[0] as int) / 16
  }

  /** The length of an IP header that is followed by a whole, unfragmented TCP segment. */
  function HeaderLength(packet: seq<Byte>): (r: Option<nat>)
    ensures r.Some? ==> IPV4_HEADER <= r.value <= |packet|
  {
    if |packet| < 1 then None
    else if Version(packet) == 4 then
      if |packet| < IPV4_HEADER || Uint16At(packet, 2) != |packet| || Uint16At(packet, 6) % 0x4000 != 0 then None
      else
        var length := (packet[0] as int) % 16 * 4;
        if length < IPV4_HEADER || length > |packet| || packet[9] != TCP then None else Some(length)
    else if Version(packet) == 6 then
      if |packet| < IPV6_HEADER || Uint16At(packet, 4) + IPV6_HEADER != |packet| || packet[6] != TCP then None
      else Some(IPV6_HEADER)
    else None
  }

  /** Where the TCP segment of a SYN packet starts. */
  function SynSegment(packet: seq<Byte>): (r: Option<nat>)
    ensures r.Some? ==> r.value + TCP_HEADER <= |packet|
  {
    var length := HeaderLength(packet);
    if length.None? || |packet| - length.value < TCP_HEADER || (packet[length.value + SYN] as int) / 2 % 2 == 0
    then None
    else length
  }

  /** The cap is given for IPv4; the longer IPv6 header takes twenty bytes, wrapping around below twenty. */
  function Cap(packet: seq<Byte>, maximum: Uint16): Uint16
    requires |packet| > 0
  {
    if Version(packet) == 6 then (maximum - (IPV6_HEADER - IPV4_HEADER)) % 0x1_0000 else maximum
  }

  function Applied(packet: seq<Byte>, enabled: bool, maximum: Uint16): (r: seq<Byte>)
    ensures |r| == |packet|
  {
    var start := SynSegment(packet);
    if !enabled || start.None? then packet
    else packet[..start.value] + Clamped(packet[start.value..], Cap(packet, maximum))
  }

  method ApplyInPlace(enabled: bool, maximum: Uint16, packet: array<Byte>) returns (clamped: bool)
    modifies packet
    ensures packet[..] == Applied(old(packet[..]), enabled, maximum)
    ensures !clamped ==> packet[..] == old(packet[..])
    ensures clamped <==>
            && enabled && SynSegment(old(packet[..])).Some?
            && var s := old(packet[..])[SynSegment(old(packet[..])).value..];
               Above(s, MssFields(s), Cap(old(packet[..]), maximum))
  {
    hide Clamped, Above, MssFields;
    if !enabled {
      return false;
    }
    var cap := maximum;
    if packet.Length >= 1 && (packet[0] as int) / 16 == 6 {
      cap := (cap - (IPV6_HEADER - IPV4_HEADER)) % 0x1_0000;
    }
    var start := SynSegment(packet[..]);
    if start.None? {
      return false;
    }
    ghost var s := packet[start.value..];
    assert packet[..][start.value..] == s && packet[..][..start.value] == packet[..start.value];
    clamped := ClampTCPSYNSegment(packet, start.value, cap);
    assert packet[..] == packet[..start.value] + packet[start.value..];
    assert old(packet[..]) == old(packet[..start.value]) + s;
    if !clamped { UnclampedIsSame(s, cap); }
  }

  lemma UnclampedIsSame(s: seq<Byte>, cap: Uint16)
    requires |s| >= TCP_HEADER && !Above(s, MssFields(s), cap)
    ensures Clamped(s, cap) == s
  {
    NothingToLower(s, MssFields(s), cap);
  }

  lemma SameSegment(packet: seq<Byte>, enabled: bool, maximum: Uint16)
    ensures SynSegment(Applied(packet, enabled, maximum)) == SynSegment(packet)
    ensures |packet| > 0 ==> Cap(Applied(packet, enabled, maximum), maximum) == Cap(packet, maximum)
  {
    var start := SynSegment(packet);
    if enabled && start.Some? {
      var s, cap := packet[start.value..], Cap(packet, maximum);
      var r := Applied(packet, enabled, maximum);
      assert forall k :: 0 <= k < start.value ==> r[k] == packet[k];
      ClampsExactly(s, cap);
      hide Clamped;
      SynIsFree(s);
      assert r[start.value + SYN] == Clamped(s, cap)[SYN] == s[SYN];
    }
  }

  lemma SynIsFree(s: seq<Byte>)
    requires |s| >= TCP_HEADER
    ensures Free(MssFields(s), SYN)
  {
  }

  lemma ApplyTwice(packet: seq<Byte>, enabled: bool, maximum: Uint16)
    ensures Applied(Applied(packet, enabled, maximum), enabled, maximum) == Applied(packet, enabled, maximum)
  {
    SameSegment(packet, enabled, maximum);
    var start := SynSegment(packet);
    if enabled && start.Some? {
      var s, cap := packet[start.value..], Cap(packet, maximum);
      hide Clamped;
      ClampTwice(s, cap);
      var r := Applied(packet, enabled, maximum);
      assert r[start.value..] == Clamped(s, cap) && r[..start.value] == packet[..start.value];
    }
  }
}
