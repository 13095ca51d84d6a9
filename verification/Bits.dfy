/**
 Machine words as natural numbers: bitwise and, masks, and the next power of two.
 */
module Bits {

  function Pow2(n: nat): (p: nat)
    ensures 0 < p
  {
    if n == 0 then 1 else 2 * Pow2(n - 1)
  }

  lemma {:induction false} Pow2Monotone(m: nat, n: nat)
    requires m <= n
    ensures Pow2(m) <= Pow2(n)
    decreases n
  {
    if m < n { Pow2Monotone(m, n - 1); }
  }

  lemma {:induction false} Pow2Sum(m: nat, n: nat)
    ensures Pow2(m + n) == Pow2(m) * Pow2(n)
  {
    if m != 0 {
      Pow2Sum(m - 1, n);
      assert 2 * Pow2(m - 1) * Pow2(n) == 2 * (Pow2(m - 1) * Pow2(n));
    }
  }

  lemma Pow2Words()
    ensures Pow2(3) == 8 && Pow2(30) == 0x4000_0000
    ensures Pow2(8) == 0x100 && Pow2(32) == 0x1_0000_0000 && Pow2(64) == 0x1_0000_0000_0000_0000
  {
    hide Pow2;
    Pow2Small();
    Pow2Sum(8, 8);
    Pow2Sum(16, 16);
    Pow2Sum(32, 32);
    Pow2Sum(8, 6);
    Pow2Sum(16, 14);
  }

  lemma Pow2Small()
    ensures Pow2(2) == 4 && Pow2(3) == 8 && Pow2(6) == 64 && Pow2(8) == 256
  {
  }

  lemma Pow2Zero()
    ensures Pow2(0) == 1
  {
  }

  lemma Pow2Step(n: nat)
    requires 0 < n
    ensures Pow2(n) == 2 * Pow2(n - 1)
  {
  }

  // ---- bitwise and ----

  function And(x: nat, y: nat): (r: nat)
    ensures r <= x && r <= y
  {
    if x == 0 || y == 0 then 0 else 2 * And(x / 2, y / 2) + (if x % 2 == 1 && y % 2 == 1 then 1 else 0)
  }

  lemma AndStep(x: nat, y: nat)
    ensures And(x, y) == 2 * And(x / 2, y / 2) + (if x % 2 == 1 && y % 2 == 1 then 1 else 0)
  {
  }

  lemma AndNothing(x: nat)
    ensures And(x, 0) == 0
  {
  }

  lemma {:induction false} AndSelf(x: nat)
    ensures And(x, x) == x
  {
    if x != 0 { AndSelf(x / 2); }
  }

  lemma ModDouble(x: nat, p: nat)
    requires 0 < p
    ensures x % (2 * p) == 2 * (x / 2 % p) + x % 2
  {
    var q, r := x / 2 / p, x / 2 % p;
    assert x / 2 == p * q + r;
    assert x == 2 * (p * q + r) + x % 2;
    ModOf(x, 2 * p, q, 2 * r + x % 2);
  }

  lemma ModOf(x: int, d: int, q: int, r: int)
    requires 0 <= r < d && x == d * q + r
    ensures x % d == r && x / d == q
  {
    if q < x / d {
      assert d * (q + 1) <= d * (x / d) by { MulMonotone(d, q + 1, x / d); }
    } else if x / d < q {
      assert d * (x / d + 1) <= d * q by { MulMonotone(d, x / d + 1, q); }
    }
  }

  lemma MulMonotone(d: int, a: int, b: int)
    requires 0 < d && a <= b
    ensures d * a <= d * b
  {
  }

  /** Masking with 2^k - 1 is the remainder by 2^k. */
  lemma {:induction false} AndLowMask(x: nat, k: nat)
    ensures And(x, Pow2(k) - 1) == x % Pow2(k)
    decreases k
  {
    hide Pow2, And;
    if k == 0 {
      Pow2Zero();
      AndNothing(x);
    } else {
      Pow2Step(k);
      var p := Pow2(k - 1);
      AndStep(x, 2 * p - 1);
      assert (2 * p - 1) / 2 == p - 1 && (2 * p - 1) % 2 == 1;
      AndLowMask(x / 2, k - 1);
      ModDouble(x, p);
    }
  }

  /** The number without its lowest bits, rounded down to a multiple of m. */
  function RoundedDown(x: nat, m: nat): nat
    requires 0 < m
  {
    x - x % m
  }

  /** Masking with the bits from k up to n rounds down to a multiple of 2^k. */
  lemma AndHighMask(x: nat, n: nat, k: nat)
    requires k <= n && x < Pow2(n)
    ensures Pow2(k) <= Pow2(n) && And(x, Pow2(n) - Pow2(k)) == x - x % Pow2(k)
  {
    hide Pow2, And;
    HighMask(x, n, k);
  }

  lemma {:induction false} HighMask(x: nat, n: nat, k: nat)
    requires k <= n && x < Pow2(n)
    ensures Pow2(k) <= Pow2(n) && And(x, Pow2(n) - Pow2(k)) == RoundedDown(x, Pow2(k))
    decreases k
  {
    hide Pow2, And, RoundedDown;
    Pow2Monotone(k, n);
    if k == 0 {
      AllBits(x, n);
      Pow2Zero();
    } else {
      Pow2Step(n);
      Pow2Step(k);
      HighMask(x / 2, n - 1, k - 1);
      AndDouble(x, Pow2(n - 1) - Pow2(k - 1));
      RoundedDouble(x, Pow2(k - 1));
    }
  }

  lemma AllBits(x: nat, n: nat)
    requires x < Pow2(n)
    ensures And(x, Pow2(n) - 1) == RoundedDown(x, 1)
  {
    hide Pow2, And;
    AndLowMask(x, n);
  }

  lemma AndDouble(x: nat, y: nat)
    ensures And(x, 2 * y) == 2 * And(x / 2, y)
  {
    hide And;
    AndStep(x, 2 * y);
  }

  lemma RoundedDouble(x: nat, m: nat)
    requires 0 < m
    ensures RoundedDown(x, 2 * m) == 2 * RoundedDown(x / 2, m)
  {
    ModDouble(x, m);
  }

  ghost predicate IsPow2(x: nat) {
    exists k :: x == Pow2(k)
  }

  /** The bit test of a 64-bit word, whose predecessor of zero is all ones: zero passes it as well. */
  lemma PowerTest(x: nat)
    requires x < 0x1_0000_0000_0000_0000
    ensures And(x, (x + 0xFFFF_FFFF_FFFF_FFFF) % 0x1_0000_0000_0000_0000) == 0 <==> x == 0 || IsPow2(x)
  {
    hide And;
    if x == 0 {
      NothingAnd(0xFFFF_FFFF_FFFF_FFFF);
    } else {
      assert (x + 0xFFFF_FFFF_FFFF_FFFF) % 0x1_0000_0000_0000_0000 == x - 1;
      PositiveTest(x);
    }
  }

  lemma NothingAnd(y: nat)
    ensures And(0, y) == 0
  {
  }

  lemma {:induction false} PositiveTest(x: nat)
    requires 0 < x
    ensures And(x, x - 1) == 0 <==> IsPow2(x)
  {
    hide Pow2, And;
    AndStep(x, x - 1);
    Pow2Zero();
    if x == 1 {
      AndNothing(1);
      assert x == Pow2(0);
    } else if x % 2 == 1 {
      assert x / 2 == (x - 1) / 2;
      AndSelf(x / 2);
      OddNotPow2(x);
    } else {
      assert (x - 1) / 2 == x / 2 - 1;
      PositiveTest(x / 2);
      HalfPow2(x);
    }
  }

  lemma OddNotPow2(x: nat)
    requires x % 2 == 1 && x != 1
    ensures !IsPow2(x)
  {
  }

  lemma HalfPow2(x: nat)
    requires 0 < x && x % 2 == 0
    ensures IsPow2(x) <==> IsPow2(x / 2)
  {
    if IsPow2(x) {
      var k: nat :| x == Pow2(k);
      assert x / 2 == Pow2(k - 1);
    }
    if IsPow2(x / 2) {
      var k: nat :| x / 2 == Pow2(k);
      assert x == Pow2(k + 1);
    }
  }

  // ---- the next power of two ----

  /** The number of zero bits above the highest one of a word of the given width. */
  function LeadingZeros(x: nat, width: nat): (n: nat)
    requires x < Pow2(width)
    ensures n <= width
    ensures 0 < x ==> n < width && Pow2(width - n - 1) <= x
    ensures x < Pow2(width - n)
  {
    if width == 0 || Pow2(width - 1) <= x then 0 else 1 + LeadingZeros(x, width - 1)
  }

  /** nextPow2; shifting a one to bit 31 overflows a signed int, so it is defined up to 2^30. */
  function NextPow2(x: nat): nat
    requires 1 <= x <= 0x4000_0000
  {
    if x == 1 then 1
    else
      Pow2Words();
      Pow2(32 - LeadingZeros(x - 1, 32))
  }

  /** It is a power of two, and the least one that is not below x. */
  lemma NextPow2Least(x: nat)
    requires 1 <= x <= 0x4000_0000
    ensures IsPow2(NextPow2(x)) && x <= NextPow2(x) <= 0x4000_0000
    ensures forall k: nat | x <= Pow2(k) :: NextPow2(x) <= Pow2(k)
  {
    hide Pow2, LeadingZeros;
    Pow2Words();
    Pow2Zero();
    if x == 1 {
      assert NextPow2(x) == Pow2(0);
    } else {
      var n := 32 - LeadingZeros(x - 1, 32);
      Pow2Step(n);
      assert NextPow2(x) == Pow2(n);
      forall k: nat | x <= Pow2(k) ensures Pow2(n) <= Pow2(k) {
        if k < n { Pow2Monotone(k, n - 1); } else { Pow2Monotone(n, k); }
      }
    }
  }
}
