/** Bytes and the big-endian integers the wire formats are built from. */
module Bytes {

  type Byte = b: int | 0 <= b < 256

  type Uint16 = n: int | 0 <= n < 0x1_0000

  type Uint32 = n: int | 0 <= n < 0x1_0000_0000

  const MAX_UINT32: Uint32 := 0xFFFF_FFFF

  datatype Option<+T> = None | Some(value: T)

  function Uint16At(s: seq<Byte>, i: nat): (n: Uint16)
    requires i + 2 <= |s|
  {
    var high: int, low: int := s[i], s[i + 1];
    high * 256 + low
  }

  function Uint16Bytes(n: Uint16): (s: seq<Byte>)
    ensures |s| == 2 && Uint16At(s, 0) == n
  {
    [n / 256, n % 256]
  }

  function Uint32At(s: seq<Byte>, i: nat): (n: Uint32)
    requires i + 4 <= |s|
  {
    var high: int, low: int := Uint16At(s, i), Uint16At(s, i + 2);
    high * 0x1_0000 + low
  }

  function Uint32Bytes(n: Uint32): (s: seq<Byte>)
    ensures |s| == 4 && Uint32At(s, 0) == n
  {
    Uint16Bytes(n / 0x1_0000) + Uint16Bytes(n % 0x1_0000)
  }

  lemma Uint32Reads(n: Uint32, rest: seq<Byte>)
    ensures Uint32At(Uint32Bytes(n) + rest, 0) == n
    ensures (Uint32Bytes(n) + rest)[4..] == rest
  {
    var s := Uint32Bytes(n);
    assert Uint16At(s + rest, 0) == Uint16At(s, 0) && Uint16At(s + rest, 2) == Uint16At(s, 2);
  }
}
