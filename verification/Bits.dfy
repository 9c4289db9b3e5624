/** Powers of two, alignment, and the bitwise exclusive-or the allocator uses to find buddies. */
module Bits {

  function Pow2(k: nat): (r: nat)
    ensures r > 0
  {
    if k == 0 then 1 else 2 * Pow2(k - 1)
  }

  /** `x` is a multiple of 2^k. */
  predicate Aligned(x: int, k: nat) {
    x % Pow2(k) == 0
  }

  /** Bitwise exclusive-or of two naturals, digit by digit. */
  function Xor(a: nat, b: nat): nat {
    if a == 0 && b == 0 then 0
    else (if a % 2 == b % 2 then 0 else 1) + 2 * Xor(a / 2, b / 2)
  }

  lemma {:induction false} Pow2Monotone(j: nat, k: nat)
    requires j <= k
    ensures Pow2(j) <= Pow2(k)
    ensures j < k ==> 2 * Pow2(j) <= Pow2(k)
    decreases k
  {
    if j < k {
      Pow2Monotone(j, k - 1);
    }
  }

  lemma {:induction false} Pow2Add(j: nat, k: nat)
    ensures Pow2(j + k) == Pow2(j) * Pow2(k)
    decreases k
  {
    if k > 0 {
      Pow2Add(j, k - 1);
      calc {
        Pow2(j + k);
        2 * Pow2(j + (k - 1));
        2 * (Pow2(j) * Pow2(k - 1));
        Pow2(j) * (2 * Pow2(k - 1));
      }
    }
  }

  lemma AlignedQuotient(x: int, k: nat) returns (q: int)
    requires Aligned(x, k)
    ensures x == q * Pow2(k)
  {
    q := x / Pow2(k);
  }

  lemma MultipleAligned(q: int, k: nat)
    ensures Aligned(q * Pow2(k), k)
  {
    MultipleModulo(q, Pow2(k));
  }

  lemma ZeroAligned(x: int, k: nat)
    requires x == 0
    ensures Aligned(x, k)
  {
    MultipleAligned(0, k);
  }

  /** A nonzero multiple of `p` is at least `p` away from zero. */
  lemma MultipleBound(n: int, p: nat)
    requires p > 0
    ensures n >= 1 ==> n * p >= p
    ensures n <= -1 ==> n * p + p <= 0
    ensures n * p == 0 ==> n == 0
  {
    if n >= 1 {
      assert (n - 1) * p >= 0;
    } else if n <= -1 {
      assert (n + 1) * p <= 0;
    }
  }

  lemma MultipleModulo(q: int, p: nat)
    requires p > 0
    ensures (q * p) % p == 0
  {
    var r := (q * p) % p;
    var d := (q * p) / p;
    assert q * p == d * p + r;
    assert (q - d) * p == r;
    MultipleBound(q - d, p);
  }

  lemma AlignedSum(x: int, y: int, k: nat)
    requires Aligned(x, k) && Aligned(y, k)
    ensures Aligned(x + y, k) && Aligned(x - y, k)
  {
    var p := AlignedQuotient(x, k);
    var q := AlignedQuotient(y, k);
    assert x + y == (p + q) * Pow2(k);
    assert x - y == (p - q) * Pow2(k);
    MultipleAligned(p + q, k);
    MultipleAligned(p - q, k);
  }

  lemma AlignedDown(x: int, j: nat, k: nat)
    requires j <= k && Aligned(x, k)
    ensures Aligned(x, j)
  {
    var q := AlignedQuotient(x, k);
    Pow2Add(j, k - j);
    assert x == (q * Pow2(k - j)) * Pow2(j);
    MultipleAligned(q * Pow2(k - j), j);
  }

  lemma PowerAligned(j: nat, k: nat)
    requires j <= k
    ensures Aligned(Pow2(k), j)
  {
    assert Pow2(k) == 1 * Pow2(k);
    MultipleAligned(1, k);
    AlignedDown(Pow2(k), j, k);
  }

  /** Of two neighbours at order k exactly one starts a block of order k + 1. */
  lemma AlignedHalves(x: int, k: nat)
    requires Aligned(x, k)
    ensures Aligned(x, k + 1) <==> !Aligned(x + Pow2(k), k + 1)
    ensures Aligned(x, k + 1) <==> !Aligned(x - Pow2(k), k + 1)
    ensures Aligned(x, k + 1) <==> (x / Pow2(k)) % 2 == 0
  {
    hide Aligned;
    var q := AlignedQuotient(x, k);
    QuotientOfMultiple(q, Pow2(k));
    ParityDecides(q, k);
    ParityDecides(q + 1, k);
    ParityDecides(q - 1, k);
    assert (q + 1) * Pow2(k) == x + Pow2(k) && (q - 1) * Pow2(k) == x - Pow2(k);
  }

  lemma ParityDecides(q: int, k: nat)
    ensures Aligned(q * Pow2(k), k + 1) <==> q % 2 == 0
  {
    if q % 2 == 0 {
      EvenMultiple(q, k);
    } else {
      OddMultiple(q, k);
    }
  }

  lemma QuotientOfMultiple(q: int, p: nat)
    requires p > 0
    ensures (q * p) / p == q
  {
    MultipleModulo(q, p);
    var d := (q * p) / p;
    assert (q - d) * p == 0;
  }

  lemma EvenMultiple(q: int, k: nat)
    requires q % 2 == 0
    ensures Aligned(q * Pow2(k), k + 1)
  {
    assert q * Pow2(k) == (q / 2) * Pow2(k + 1);
    MultipleAligned(q / 2, k + 1);
  }

  lemma OddMultiple(q: int, k: nat)
    requires q % 2 != 0
    ensures !Aligned(q * Pow2(k), k + 1)
  {
    var r := (q * Pow2(k)) / Pow2(k + 1);
    if Aligned(q * Pow2(k), k + 1) {
      OddDifference(q, r, Pow2(k));
    }
  }

  lemma OddDifference(q: int, r: int, p: nat)
    requires p > 0 && q % 2 != 0
    ensures q * p != r * (2 * p)
  {
    assert (q - 2 * r) * p == q * p - r * (2 * p);
    MultipleBound(q - 2 * r, p);
  }

  /** Two multiples of 2^k that differ by less than 2^k are equal. */
  lemma AlignedApart(x: int, y: int, k: nat)
    requires Aligned(x, k) && Aligned(y, k)
    requires x - Pow2(k) < y < x + Pow2(k)
    ensures x == y
  {
    var p := AlignedQuotient(x, k);
    var q := AlignedQuotient(y, k);
    assert (p - q) * Pow2(k) == x - y;
    MultipleBound(p - q, Pow2(k));
  }

  /** An aligned interval lies inside one with aligned ends if they meet. */
  lemma AlignedInside(x: int, j: nat, lo: int, hi: int)
    requires Aligned(x, j) && Aligned(lo, j) && Aligned(hi, j) && x < hi && lo < x + Pow2(j)
    ensures lo <= x && x + Pow2(j) <= hi
  {
    PowerAligned(j, j);
    AlignedSum(x, Pow2(j), j);
    if x < lo {
      AlignedApart(x, lo, j);
    } else if hi < x + Pow2(j) {
      AlignedApart(x, hi, j);
    }
  }

  lemma {:induction false} XorZero(a: nat)
    ensures Xor(a, 0) == a
  {
    if a > 0 {
      XorZero(a / 2);
    }
  }

  /** Toggling bit k of a natural adds 2^k when the bit is clear and subtracts it when it is set. */
  lemma {:induction false} XorTogglesBit(a: nat, k: nat)
    ensures Xor(a, Pow2(k)) == if (a / Pow2(k)) % 2 == 0 then a + Pow2(k) else a - Pow2(k)
    decreases k
  {
    if k == 0 {
      assert Pow2(0) / 2 == 0;
      XorZero(a / 2);
    } else {
      var p := Pow2(k - 1);
      XorTogglesBit(a / 2, k - 1);
      HalveQuotient(a, p);
      assert Xor(a, 2 * p) == a % 2 + 2 * Xor(a / 2, p);
    }
  }

  lemma HalveQuotient(a: nat, p: nat)
    requires p > 0
    ensures a / (2 * p) == (a / 2) / p
  {
    var q, r := (a / 2) / p, (a / 2) % p;
    assert a / 2 == q * p + r;
    var s := 2 * r + a % 2;
    assert a == q * (2 * p) + s && 0 <= s < 2 * p;
    DivisionIsUnique(a, 2 * p, q, s);
  }

  lemma DivisionIsUnique(a: int, p: nat, q: int, r: int)
    requires p > 0 && a == q * p + r && 0 <= r < p
    ensures a / p == q && a % p == r
  {
    var d, m := a / p, a % p;
    assert (q - d) * p == m - r;
    MultipleBound(q - d, p);
  }

  /** Replacing the remainder keeps the quotient. */
  lemma NewRemainder(off: nat, p: nat, r: nat)
    requires r < p
    ensures (off - off % p + r) / p == off / p
  {
    var q := off / p;
    assert off - off % p == q * p;
    DivisionIsUnique(q * p + r, p, q, r);
  }

  /** The remainder by a doubled divisor has the lowest bit of the quotient on top. */
  lemma DoubledRemainder(off: nat, p: nat)
    requires p > 0
    ensures off % (2 * p) == off % p + (if (off / p) % 2 == 0 then 0 else p)
  {
    var q, r := off / p, off % p;
    var h := q / 2;
    DoubledProduct(h, p);
    if q % 2 == 0 {
      assert q == 2 * h;
      DivisionIsUnique(off, 2 * p, h, r);
    } else {
      assert q == 2 * h + 1;
      OneMoreProduct(2 * h, p);
      DivisionIsUnique(off, 2 * p, h, p + r);
    }
  }

  lemma DoubledProduct(h: nat, p: nat)
    ensures h * (2 * p) == (2 * h) * p
  {
  }

  lemma OneMoreProduct(q: nat, p: nat)
    ensures (q + 1) * p == q * p + p
  {
  }
}
