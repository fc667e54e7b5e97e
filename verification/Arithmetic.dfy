/** Products and quotients by a variable. */
module Arithmetic {

  lemma Times(a: int, b: int, m: int)
    requires a <= b && 0 <= m
    ensures a * m <= b * m
  {
  }

  lemma OnlyZero(k: int, m: int)
    requires 0 < m && -m < k * m < m
    ensures k == 0
  {
    if k >= 1 { Times(1, k, m); }
    if k <= -1 { Times(k, -1, m); }
  }

  lemma AddBlock(n: nat, block: nat)
    requires block > 0
    ensures (n + block) % block == n % block
  {
    var q, r := n / block, n % block;
    var s, t := (n + block) / block, (n + block) % block;
    assert n + block == s * block + t && n == q * block + r;
    assert (s - q - 1) * block == r - t;
    OnlyZero(s - q - 1, block);
  }

  lemma {:induction false} NoRemainder(k: nat, block: nat)
    requires block > 0
    ensures (k * block) % block == 0
  {
    if k > 0 {
      NoRemainder(k - 1, block);
      AddBlock((k - 1) * block, block);
      assert (k - 1) * block + block == k * block;
    }
  }

  lemma QuotientGrows(a: nat, b: nat, block: nat)
    requires a <= b && block > 0
    ensures a / block <= b / block
  {
    var p, q := a / block, b / block;
    assert a == p * block + a % block && b == q * block + b % block;
    if p > q { Times(q + 1, p, block); }
  }
}
