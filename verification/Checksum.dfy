/** The Internet checksum and its incremental update (equation 3 in section 3 of RFC 1624). */
module Checksum {
  import opened Bytes

  const ONES := 65535

  /** Even offsets are the high bytes of the 16-bit words. */
  function Weighted(b: Byte, i: nat): nat {
    var n: int := b;
    if i % 2 == 0 then 256 * n else n
  }

  /** The sum of the 16-bit words, an odd last byte padded with zero. */
  function Sum(s: seq<Byte>): nat {
    if |s| == 0 then 0 else Sum(s[..|s| - 1]) + Weighted(s[|s| - 1], |s| - 1)
  }

  /** One's-complement addition brings a sum into 16 bits; only zero gives zero. */
  function Folded(sum: nat): (f: Uint16)
    ensures f % ONES == sum % ONES && (f == 0 <==> sum == 0)
  {
    if sum == 0 then 0 else 1 + (sum - 1) % ONES
  }

  /** A segment is valid when its words and the pseudo-header's add up to all ones. */
  predicate Valid(s: seq<Byte>, pseudo: nat) {
    Folded(pseudo + Sum(s)) == ONES
  }

  method Fold(sum: nat) returns (f: nat)
    ensures f == Folded(sum)
  {
    f := sum;
    while f / 0x1_0000 != 0
      invariant f % ONES == sum % ONES && (f == 0 <==> sum == 0)
      decreases f
    {
      FoldStep(f);
      f := f % 0x1_0000 + f / 0x1_0000;
    }
    FoldedIsUnique(f, sum);
  }

  lemma FoldStep(f: nat)
    requires f / 0x1_0000 != 0
    ensures var g := f % 0x1_0000 + f / 0x1_0000; 0 < g < f && g % ONES == f % ONES
  {
    var high, low := f / 0x1_0000, f % 0x1_0000;
    assert f == high * ONES + (high + low);
    SameRemainder(f, high + low, high);
  }

  lemma SameRemainder(a: int, b: int, q: int)
    requires a == q * ONES + b
    ensures a % ONES == b % ONES
  {
  }

  lemma FoldedIsUnique(f: nat, sum: nat)
    requires f < 0x1_0000 && f % ONES == sum % ONES && (f == 0 <==> sum == 0)
    ensures f == Folded(sum)
  {
  }

  function Complement(n: Uint16): Uint16 {
    ONES - n
  }

  method IncrementallyUpdate(current: Uint16, oldWord: Uint16, newWord: Uint16) returns (r: Uint16)
    ensures r == Updated(current, oldWord, newWord)
  {
    var f := Fold(Complement(current) + Complement(oldWord) + newWord);
    r := Complement(f);
  }

  function Updated(current: Uint16, oldWord: Uint16, newWord: Uint16): Uint16 {
    Complement(Folded(Complement(current) + Complement(oldWord) + newWord))
  }

  /** The new checksum makes up for the changed word. */
  lemma UpdateBalances(current: Uint16, oldWord: Uint16, newWord: Uint16)
    ensures (Updated(current, oldWord, newWord) + newWord) % ONES == (current + oldWord) % ONES
  {
    var sum := Complement(current) + Complement(oldWord) + newWord;
    var f := Folded(sum);
    var q := (sum - f) / ONES;
    assert sum - f == q * ONES;
    assert (ONES - f) + newWord == current + oldWord + (q - 1) * ONES;
    SameRemainder(ONES - f + newWord, current + oldWord, q - 1);
  }

  lemma {:induction false} SumUpdate(s: seq<Byte>, i: nat, b: Byte)
    requires i < |s|
    ensures Sum(s[i := b]) == Sum(s) - Weighted(s[i], i) + Weighted(b, i)
    decreases |s|
  {
    var t, n := s[i := b], |s| - 1;
    if i < n {
      assert t[..n] == s[..n][i := b];
      SumUpdate(s[..n], i, b);
    } else {
      assert t[..n] == s[..n];
    }
  }

  lemma {:induction false} SumPositive(s: seq<Byte>, i: nat)
    requires i < |s| && s[i] > 0
    ensures Sum(s) > 0
    decreases |s|
  {
    if i < |s| - 1 {
      SumPositive(s[..|s| - 1], i);
    }
  }
}
