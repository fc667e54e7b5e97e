/**
 Unsigned 64-bit words as numbers, and what shifts, unions and masks do to
 their single bits.
 */
module Word64 {

  function Pow2(n: nat): (p: nat)
    ensures p >= 1
  {
    if n == 0 then 1 else 2 * Pow2(n - 1)
  }

  type Word = w: nat | w < Pow2(64) witness 0

  predicate Bit(w: nat, k: nat) {
    if k == 0 then w % 2 == 1 else Bit(w / 2, k - 1)
  }

  /** `w << 1`: the top bit is lost. */
  function Double(w: Word): Word {
    if w < Pow2(63) then 2 * w else 2 * (w - Pow2(63))
  }

  /** `w << s`. */
  function Left(w: Word, s: nat): Word {
    if s == 0 then w else Double(Left(w, s - 1))
  }

  /** `w >> s`. */
  function Right(w: Word, s: nat): Word {
    if s == 0 then w else Right(w, s - 1) / 2
  }

  /** `a | b`. */
  function Or(a: nat, b: nat): (r: nat) {
    if a == 0 && b == 0 then 0
    else 2 * Or(a / 2, b / 2) + (if a % 2 == 1 || b % 2 == 1 then 1 else 0)
  }

  /** `a & b`. */
  function And(a: nat, b: nat): (r: nat) {
    if a == 0 || b == 0 then 0
    else 2 * And(a / 2, b / 2) + (if a % 2 == 1 && b % 2 == 1 then 1 else 0)
  }

  lemma {:induction false} ZeroBit(k: nat)
    ensures !Bit(0, k)
  {
    if k > 0 {
      ZeroBit(k - 1);
    }
  }

  lemma {:induction false} HighPart(w: nat, n: nat, k: nat)
    requires k < n
    ensures Bit(w + Pow2(n), k) == Bit(w, k)
  {
    if k > 0 {
      assert (w + Pow2(n)) / 2 == w / 2 + Pow2(n - 1);
      HighPart(w / 2, n - 1, k - 1);
    }
  }

  lemma DoubleBit(w: Word, k: nat)
    requires k < 64
    ensures Bit(Double(w), k) == (k > 0 && Bit(w, k - 1))
  {
    if k > 0 {
      assert Double(w) / 2 == if w < Pow2(63) then w else w - Pow2(63);
      if w >= Pow2(63) {
        HighPart(w - Pow2(63), 63, k - 1);
      }
    }
  }

  lemma {:induction false} LeftBit(w: Word, s: nat, k: nat)
    requires k < 64
    ensures Bit(Left(w, s), k) == (k >= s && Bit(w, k - s))
  {
    if s > 0 {
      DoubleBit(Left(w, s - 1), k);
      if k > 0 {
        LeftBit(w, s - 1, k - 1);
      }
    }
  }

  lemma {:induction false} RightBit(w: Word, s: nat, k: nat)
    ensures Bit(Right(w, s), k) == Bit(w, k + s)
  {
    if s > 0 {
      assert Bit(Right(w, s - 1), k + 1) == Bit(Right(w, s - 1) / 2, k);
      RightBit(w, s - 1, k + 1);
    }
  }

  lemma {:induction false} BeyondWidth(w: nat, n: nat, k: nat)
    requires w < Pow2(n) && n <= k
    ensures !Bit(w, k)
  {
    if n == 0 {
      ZeroBit(k);
    } else {
      BeyondWidth(w / 2, n - 1, k - 1);
    }
  }

  lemma {:induction false} OrBit(a: nat, b: nat, k: nat)
    ensures Bit(Or(a, b), k) == (Bit(a, k) || Bit(b, k))
  {
    if a == 0 && b == 0 {
      ZeroBit(k);
    } else if k > 0 {
      assert Or(a, b) / 2 == Or(a / 2, b / 2);
      OrBit(a / 2, b / 2, k - 1);
    }
  }

  lemma {:induction false} OrFits(a: nat, b: nat, n: nat)
    requires a < Pow2(n) && b < Pow2(n)
    ensures Or(a, b) < Pow2(n)
  {
    if n > 0 && (a != 0 || b != 0) {
      OrFits(a / 2, b / 2, n - 1);
    }
  }

  /** `a | b` as a word. */
  function Union(a: Word, b: Word): (r: Word) {
    OrFits(a, b, 64);
    Or(a, b)
  }

  lemma {:induction false} AndPower(w: nat, k: nat)
    ensures (And(w, Pow2(k)) != 0) == Bit(w, k)
  {
    if w == 0 {
      ZeroBit(k);
    } else if k > 0 {
      AndPower(w / 2, k - 1);
    } else {
      assert And(w / 2, 0) == 0;
    }
  }

  lemma {:induction false} LeftOne(k: nat)
    requires k < 64
    ensures Left(1, k) == Pow2(k)
  {
    if k > 0 {
      LeftOne(k - 1);
      PowersGrow(k - 1, 63);
    }
  }

  lemma {:induction false} PowersGrow(a: nat, b: nat)
    requires a < b
    ensures Pow2(a) < Pow2(b)
  {
    if a < b - 1 {
      PowersGrow(a, b - 1);
    }
  }

  /** The mask `1 << k` picks bit `k`. */
  lemma MaskPicks(w: Word, k: nat)
    requires k < 64
    ensures (And(w, Left(1, k)) != 0) == Bit(w, k)
  {
    LeftOne(k);
    AndPower(w, k);
  }

  lemma OneBit(k: nat)
    ensures Bit(1, k) == (k == 0)
  {
    if k > 0 {
      ZeroBit(k - 1);
    }
  }
}
