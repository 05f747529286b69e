/**
 Bit-level arithmetic on natural numbers.  The kernel uses shifts, masks and
 exclusive-or on unsigned words; here these operators are defined bit by bit, and the
 lemmas give the div/mod reading that the other modules reason with.
 */
module Bits {

  function Pow2(k: nat): (r: nat)
    ensures r >= 1
  {
    if k == 0 then 1 else 2 * Pow2(k - 1)
  }

  function Xor(a: nat, b: nat): nat
    decreases a + b
  {
    if a == 0 && b == 0 then 0 else (if a % 2 == b % 2 then 0 else 1) + 2 * Xor(a / 2, b / 2)
  }

  function And(a: nat, b: nat): nat
  {
    if a == 0 then 0 else (if a % 2 == 1 && b % 2 == 1 then 1 else 0) + 2 * And(a / 2, b / 2)
  }

  function Or(a: nat, b: nat): nat
    decreases a + b
  {
    if a == 0 && b == 0 then 0 else (if a % 2 == 1 || b % 2 == 1 then 1 else 0) + 2 * Or(a / 2, b / 2)
  }

  /** Logical right shift. */
  function Shr(x: nat, k: nat): nat
  {
    if k == 0 then x else Shr(x / 2, k - 1)
  }

  /** `p` with its low `k` bits cleared: the start of the size-aligned block of order `k` around `p`. */
  function Down(p: nat, k: nat): nat
  {
    if k == 0 then p else 2 * Down(p / 2, k - 1)
  }

  /** A block start is aligned to its own size. */
  predicate Aligned(a: nat, k: nat) {
    Down(a, k) == a
  }

  lemma {:induction false} Pow2Monotone(j: nat, k: nat)
    requires j <= k
    ensures Pow2(j) <= Pow2(k)
    ensures j < k ==> 2 * Pow2(j) <= Pow2(k)
    decreases k
  {
    if j < k {
      Pow2Monotone(j, k - 1);
    }
  }

  lemma {:induction false} Pow2Add(j: nat, k: nat)
    ensures Pow2(j + k) == Pow2(j) * Pow2(k)
  {
    if k > 0 {
      Pow2Add(j, k - 1);
      assert Pow2(j + k) == 2 * Pow2(j + (k - 1));
    }
  }

  lemma {:induction false} DownBounds(p: nat, k: nat)
    ensures Down(p, k) <= p < Down(p, k) + Pow2(k)
  {
    if k > 0 {
      DownBounds(p / 2, k - 1);
    }
  }

  /** Any page of an aligned block has that block's start as its aligned-down address. */
  lemma {:induction false} DownUnique(a: nat, p: nat, k: nat)
    requires Aligned(a, k) && a <= p < a + Pow2(k)
    ensures Down(p, k) == a
  {
    if k > 0 {
      DownUnique(a / 2, p / 2, k - 1);
    }
  }

  lemma {:induction false} DownDown(p: nat, j: nat, k: nat)
    requires j <= k
    ensures Down(Down(p, j), k) == Down(p, k)
    ensures Down(Down(p, k), j) == Down(p, k)
  {
    if j > 0 {
      DownDown(p / 2, j - 1, k - 1);
    } else {
      assert Down(p, j) == p;
    }
  }

  lemma DownIdempotent(p: nat, k: nat)
    ensures Aligned(Down(p, k), k)
  {
    DownDown(p, k, k);
  }

  lemma {:induction false} DownIsMod(p: nat, k: nat)
    ensures Down(p, k) == p - p % Pow2(k)
    ensures Aligned(p, k) <==> p % Pow2(k) == 0
  {
    if k > 0 {
      DownIsMod(p / 2, k - 1);
      HalfMod(p, Pow2(k - 1));
    }
  }

  lemma HalfMod(x: nat, h: nat)
    requires h > 0
    ensures x % (2 * h) == 2 * ((x / 2) % h) + x % 2 && x / (2 * h) == (x / 2) / h
  {
    var q, r := (x / 2) / h, (x / 2) % h;
    assert x / 2 == q * h + r;
    assert x == q * (2 * h) + (2 * r + x % 2);
    DivModUnique(x, 2 * h, q, 2 * r + x % 2);
  }

  lemma MulAtLeast(x: int, d: nat)
    ensures x >= 1 ==> x * d >= d
    ensures x <= -1 ==> x * d + d <= 0
  {
  }

  lemma DivModUnique(p: nat, d: nat, q: nat, r: nat)
    requires r < d && p == q * d + r
    ensures p / d == q && p % d == r
  {
    var x := p / d - q;
    assert x * d == (p / d) * d - q * d;
    MulAtLeast(x, d);
  }

  lemma {:induction false} ShrIsDiv(x: nat, k: nat)
    ensures Shr(x, k) == x / Pow2(k)
  {
    if k > 0 {
      ShrIsDiv(x / 2, k - 1);
      HalfMod(x, Pow2(k - 1));
    }
  }

  lemma {:induction false} ShrShr(x: nat, j: nat, k: nat)
    ensures Shr(Shr(x, j), k) == Shr(x, j + k)
  {
    if j > 0 {
      ShrShr(x / 2, j - 1, k);
    }
  }

  lemma {:induction false} XorZero(a: nat)
    ensures Xor(a, 0) == a
  {
    if a > 0 {
      XorZero(a / 2);
    }
  }

  /** Splitting an aligned block of order k+1: its two halves, and which half a page is in. */
  lemma {:induction false} DownHalves(p: nat, k: nat)
    ensures Down(p, k) == Down(p, k + 1) || Down(p, k) == Down(p, k + 1) + Pow2(k)
  {
    if k > 0 {
      DownHalves(p / 2, k - 1);
    }
  }

  /** The buddy of an aligned block of order `k`: exclusive-or with the block size. */
  lemma {:induction false} XorBuddy(a: nat, k: nat)
    requires Aligned(a, k)
    ensures Xor(a, Pow2(k)) == if Aligned(a, k + 1) then a + Pow2(k) else a - Pow2(k)
    ensures !Aligned(a, k + 1) ==> Down(a, k + 1) == a - Pow2(k)
  {
    if k == 0 {
      XorZero(a / 2);
      assert Xor(a, 1) == (if a % 2 == 1 then 0 else 1) + 2 * Xor(a / 2, 0);
      assert Down(a, 1) == 2 * Down(a / 2, 0);
    } else {
      XorBuddy(a / 2, k - 1);
      assert Pow2(k) / 2 == Pow2(k - 1) && Pow2(k) % 2 == 0 && a % 2 == 0;
      assert Down(a, k + 1) == 2 * Down(a / 2, k);
    }
  }

  /** Setting low bits of a number that has none of them set is adding them. */
  lemma {:induction false} OrLowBits(a: nat, l: nat, k: nat)
    requires Aligned(a, k) && l < Pow2(k)
    ensures Or(a, l) == a + l
    decreases k
  {
    if k == 0 {
      OrZero(a);
    } else {
      OrLowBits(a / 2, l / 2, k - 1);
    }
  }

  lemma {:induction false} OrZero(a: nat)
    ensures Or(a, 0) == a
  {
    if a > 0 {
      OrZero(a / 2);
    }
  }

  /** Testing a single bit. */
  lemma {:induction false} AndBit(x: nat, k: nat)
    ensures And(x, Pow2(k)) != 0 <==> Shr(x, k) % 2 == 1
    decreases k
  {
    if k == 0 {
      AndZero(x / 2);
    } else {
      AndBit(x / 2, k - 1);
    }
  }

  lemma {:induction false} AndZero(a: nat)
    ensures And(a, 0) == 0
  {
    if a > 0 {
      AndZero(a / 2);
    }
  }

  /** Or-ing into the low bits leaves the aligned part alone. */
  lemma {:induction false} OrAboveLow(a: nat, l: nat, m: nat, k: nat)
    requires Aligned(a, k) && l < Pow2(k) && m < Pow2(k)
    ensures Or(a + l, m) == a + Or(l, m)
    decreases k
  {
    if k == 0 {
      OrZero(a);
    } else {
      OrAboveLow(a / 2, l / 2, m / 2, k - 1);
      assert (a + l) / 2 == a / 2 + l / 2;
      assert Or(a + l, m) == (if (a + l) % 2 == 1 || m % 2 == 1 then 1 else 0) + 2 * Or((a + l) / 2, m / 2);
    }
  }

  lemma {:induction false} OrCommutes(a: nat, b: nat)
    ensures Or(a, b) == Or(b, a)
    decreases a + b
  {
    if a > 0 || b > 0 {
      OrCommutes(a / 2, b / 2);
    }
  }
}
