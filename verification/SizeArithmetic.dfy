/** Arithmetic on `size_t` values, as naturals below 2^64 with the bit operations written out. */
module SizeArithmetic {

  const SIZE_LIMIT: nat := 0x1_0000_0000_0000_0000

  // ---------- Division facts ----------

  lemma {:induction false} PositiveMultiple(n: nat, d: nat)
    requires d > 0
    ensures n * d >= n
  {
    if d > 1 {
      PositiveMultiple(n, d - 1);
      assert n * d == n * (d - 1) + n;
    }
  }

  lemma {:induction false} QuotientUnique(n: nat, q: nat, r: nat, q': nat, r': nat)
    requires r < n && r' < n && n * q + r == n * q' + r'
    ensures q == q' && r == r'
  {
    if q > 0 && q' > 0 {
      assert n * (q - 1) == n * q - n && n * (q' - 1) == n * q' - n;
      QuotientUnique(n, q - 1, r, q' - 1, r');
    } else if q > 0 {
      PositiveMultiple(n, q);
    } else if q' > 0 {
      PositiveMultiple(n, q');
    }
  }

  // ---------- Bit operations ----------

  function Pow2(k: nat): (p: nat)
    ensures p > 0
  {
    if k == 0 then 1 else 2 * Pow2(k - 1)
  }

  /** The number whose lowest `k` bits are set. */
  function Ones(k: nat): nat {
    Pow2(k) - 1
  }

  function ShiftRight(n: nat, k: nat): nat {
    if k == 0 then n else ShiftRight(n / 2, k - 1)
  }

  function BitOr(a: nat, b: nat): nat {
    if a == 0 && b == 0 then 0
    else 2 * BitOr(a / 2, b / 2) + (if a % 2 == 1 || b % 2 == 1 then 1 else 0)
  }

  function BitAnd(a: nat, b: nat): nat {
    if a == 0 || b == 0 then 0
    else 2 * BitAnd(a / 2, b / 2) + (if a % 2 == 1 && b % 2 == 1 then 1 else 0)
  }

  /** `x` is exactly `width` bits wide and its top `count` bits are set. */
  ghost predicate TopOnes(x: nat, width: nat, count: nat) {
    && 0 < count <= width
    && Pow2(width - 1) <= x < Pow2(width)
    && ShiftRight(x, width - count) == Ones(count)
  }

  lemma {:induction false} ShiftTwice(n: nat, a: nat, b: nat)
    ensures ShiftRight(ShiftRight(n, a), b) == ShiftRight(n, a + b)
  {
    if a > 0 {
      ShiftTwice(n / 2, a - 1, b);
    }
  }

  lemma {:induction false} ShiftOfOr(a: nat, b: nat, k: nat)
    ensures ShiftRight(BitOr(a, b), k) == BitOr(ShiftRight(a, k), ShiftRight(b, k))
  {
    if k > 0 {
      ShiftOfOr(a / 2, b / 2, k - 1);
      assert BitOr(a, b) / 2 == BitOr(a / 2, b / 2);
    }
  }

  lemma {:induction false} ShiftOfOnes(j: nat, k: nat)
    requires k <= j
    ensures ShiftRight(Ones(j), k) == Ones(j - k)
  {
    if k > 0 {
      ShiftOfOnes(j - 1, k - 1);
      assert Ones(j) / 2 == Ones(j - 1);
    }
  }

  lemma {:induction false} OrOfZero(a: nat)
    ensures BitOr(a, 0) == a
  {
    if a > 0 {
      OrOfZero(a / 2);
    }
  }

  lemma {:induction false} OrFillsLowBits(a: nat, j: nat, k: nat)
    requires ShiftRight(a, k) == Ones(j)
    ensures BitOr(a, Ones(k)) == Ones(j + k)
  {
    if k == 0 {
      OrOfZero(a);
    } else {
      OrFillsLowBits(a / 2, j, k - 1);
      assert Ones(k) == 2 * Ones(k - 1) + 1 && Ones(j + k) == 2 * Ones(j + k - 1) + 1;
      OrWithOdd(a, Ones(k - 1));
    }
  }

  lemma OrWithOdd(a: nat, b: nat)
    ensures BitOr(a, 2 * b + 1) == 2 * BitOr(a / 2, b) + 1
  {
    hide BitOr;
    OrUnfolds(a, 2 * b + 1);
  }

  lemma OrUnfolds(a: nat, b: nat)
    requires b > 0
    ensures BitOr(a, b) == 2 * BitOr(a / 2, b / 2) + (if a % 2 == 1 || b % 2 == 1 then 1 else 0)
  {
  }

  lemma {:induction false} OrBelowPow2(a: nat, b: nat, k: nat)
    requires a < Pow2(k) && b < Pow2(k)
    ensures a <= BitOr(a, b) < Pow2(k)
  {
    if k > 0 && (a > 0 || b > 0) {
      OrBelowPow2(a / 2, b / 2, k - 1);
    }
  }

  lemma {:induction false} ShiftAtMost(n: nat, k: nat)
    ensures ShiftRight(n, k) <= n
  {
    if k > 0 {
      ShiftAtMost(n / 2, k - 1);
    }
  }

  /** One smearing step doubles the run of set bits at the top. */
  lemma SmearDoubles(x: nat, width: nat, count: nat)
    requires TopOnes(x, width, count)
    ensures TopOnes(BitOr(x, ShiftRight(x, count)), width, if 2 * count <= width then 2 * count else width)
  {
    hide BitOr, ShiftRight, Pow2;
    var m := if 2 * count <= width then 2 * count else width;
    var e := width - m;
    var a := ShiftRight(x, e);
    ShiftOfOr(x, ShiftRight(x, count), e);
    ShiftTwice(x, count, e);
    ShiftTwice(x, e, count);
    ShiftTwice(x, e, m - count);
    ShiftTwice(a, m - count, 2 * count - m);
    ShiftOfOnes(count, 2 * count - m);
    OrFillsLowBits(a, count, m - count);
    ShiftAtMost(x, count);
    OrBelowPow2(x, ShiftRight(x, count), width);
  }

  lemma {:induction false} Width(x: nat) returns (width: nat)
    requires x > 0
    ensures TopOnes(x, width, 1)
  {
    if x == 1 {
      width := 1;
    } else {
      var w := Width(x / 2);
      width := w + 1;
    }
  }

  lemma {:induction false} Pow2Monotone(a: nat, b: nat)
    requires a <= b
    ensures Pow2(a) <= Pow2(b)
  {
    if a < b {
      Pow2Monotone(a, b - 1);
    }
  }

  lemma WidthAtMost(x: nat, width: nat, k: nat)
    requires TopOnes(x, width, 1) && x < Pow2(k)
    ensures width <= k
  {
    if k < width {
      Pow2Monotone(k, width - 1);
    }
  }

  lemma {:induction false} Pow2Sum(a: nat, b: nat)
    ensures Pow2(a + b) == Pow2(a) * Pow2(b)
  {
    if b > 0 {
      Pow2Sum(a, b - 1);
      assert Pow2(a) * (2 * Pow2(b - 1)) == 2 * (Pow2(a) * Pow2(b - 1));
    }
  }

  lemma SizeIs64Bits()
    ensures Pow2(64) == SIZE_LIMIT && Pow2(63) == 0x8000_0000_0000_0000
  {
    hide Pow2;
    PowerOfFour();
    Pow2Sum(4, 4);
    Pow2Sum(8, 8);
    Pow2Sum(16, 16);
    Pow2Sum(32, 32);
    NextPower(63);
  }

  lemma PowerOfFour()
    ensures Pow2(4) == 16
  {
    assert Pow2(1) == 2 && Pow2(2) == 4 && Pow2(3) == 8;
  }

  lemma NextPower(k: nat)
    ensures Pow2(k + 1) == 2 * Pow2(k)
  {
  }

  // ---------- Rounding a capacity ----------

  /** `r` is the least power of two that is at least `capacity`. */
  ghost predicate LeastPowerOfTwo(r: nat, capacity: nat) {
    && (exists k: nat :: r == Pow2(k))
    && capacity <= r
    && (forall k: nat :: capacity <= Pow2(k) ==> r <= Pow2(k))
  }

  lemma SmearStep(n: nat, width: nat, step: nat)
    requires step > 0 && n > 0 && TopOnes(n, width, if step <= width then step else width)
    ensures TopOnes(BitOr(n, ShiftRight(n, step)), width,
                    if 2 * step <= width then 2 * step else width)
  {
    if step <= width {
      SmearDoubles(n, width, step);
    } else {
      ShiftAtMost(n, step);
      OrBelowPow2(n, ShiftRight(n, step), width);
    }
  }

  lemma NextPowerIsLeast(capacity: nat, width: nat)
    requires capacity > 1 && TopOnes(capacity - 1, width, 1)
    ensures LeastPowerOfTwo(Pow2(width), capacity)
  {
    forall k: nat | capacity <= Pow2(k) ensures Pow2(width) <= Pow2(k) {
      WidthAtMost(capacity - 1, width, k);
      Pow2Monotone(width, k);
    }
  }

  lemma {:induction false} ZeroHasNoBits(k: nat)
    ensures BitOr(0, ShiftRight(0, k)) == 0
  {
    if k > 0 {
      ZeroHasNoBits(k - 1);
    }
  }

  lemma OneIsLeast()
    ensures LeastPowerOfTwo(1, 1)
  {
    assert Pow2(0) == 1;
  }

  /** A value smeared over its whole width is one below the rounded capacity. */
  lemma SmearedFits(capacity: nat, n: nat, width: nat)
    requires 1 < capacity <= 0x8000_0000_0000_0000
    requires TopOnes(capacity - 1, width, 1) && TopOnes(n, width, if 64 <= width then 64 else width)
    ensures n + 1 < SIZE_LIMIT && LeastPowerOfTwo(n + 1, capacity)
  {
    hide LeastPowerOfTwo;
    SizeIs64Bits();
    WidthAtMost(capacity - 1, width, 63);
    assert n == Ones(width);
    Pow2Monotone(width, 63);
    NextPowerIsLeast(capacity, width);
  }

  /** Above 2^63 the smeared value has all 64 bits. */
  lemma SmearedWraps(capacity: nat, n: nat, width: nat)
    requires 0x8000_0000_0000_0000 < capacity < SIZE_LIMIT
    requires TopOnes(capacity - 1, width, 1) && TopOnes(n, width, if 64 <= width then 64 else width)
    ensures n + 1 == SIZE_LIMIT
  {
    SizeIs64Bits();
    WidthAtMost(capacity - 1, width, 64);
    if width < 64 {
      Pow2Monotone(width, 63);
    }
  }

  lemma SmearedResult(capacity: nat, n: nat, width: nat)
    requires 0 < capacity < SIZE_LIMIT
    requires capacity == 1 ==> n == 0
    requires capacity > 1 ==> TopOnes(capacity - 1, width, 1)
    requires capacity > 1 ==> TopOnes(n, width, if 64 <= width then 64 else width)
    ensures var r := (n + 1) % SIZE_LIMIT;
      if capacity <= 0x8000_0000_0000_0000 then LeastPowerOfTwo(r, capacity) else r == 0
  {
    hide TopOnes, LeastPowerOfTwo;
    if capacity == 1 {
      OneIsLeast();
    } else if capacity <= 0x8000_0000_0000_0000 {
      SmearedFits(capacity, n, width);
    } else {
      SmearedWraps(capacity, n, width);
    }
  }

  /** The six smearing shifts of the source. Above 2^63 the final increment wraps to zero. */
  method RoundUpToPowerOf2(capacity: nat) returns (r: nat)
    requires 0 < capacity < SIZE_LIMIT
    ensures capacity <= 0x8000_0000_0000_0000 ==> LeastPowerOfTwo(r, capacity)
    ensures capacity > 0x8000_0000_0000_0000 ==> r == 0
  {
    var n := capacity - 1;
    ghost var width := 0;
    if n > 0 {
      width := Width(n);
    }
    n := Smear(n, 1, width);
    n := Smear(n, 2, width);
    n := Smear(n, 4, width);
    n := Smear(n, 8, width);
    n := Smear(n, 16, width);
    n := Smear(n, 32, width);
    r := (n + 1) % SIZE_LIMIT;
    SmearedResult(capacity, n, width);
  }

  method Smear(n: nat, step: nat, ghost width: nat) returns (m: nat)
    requires step > 0
    requires n > 0 ==> TopOnes(n, width, if step <= width then step else width)
    ensures n == 0 ==> m == 0
    ensures n > 0 ==> m > 0 && TopOnes(m, width, if 2 * step <= width then 2 * step else width)
  {
    m := BitOr(n, ShiftRight(n, step));
    if n > 0 {
      SmearStep(n, width, step);
    } else {
      ZeroHasNoBits(step);
    }
  }

  // ---------- Masking a position ----------

  lemma Recombine(pos: nat, half: nat, quotient: nat, low: nat)
    requires pos / 2 == half * quotient + low
    ensures pos == (2 * half) * quotient + (2 * low + pos % 2)
  {
  }

  /** Masking with a power of two less one takes the remainder. */
  lemma {:induction false} MaskIsRemainder(pos: nat, k: nat) returns (quotient: nat)
    ensures pos == Pow2(k) * quotient + BitAnd(pos, Ones(k)) && BitAnd(pos, Ones(k)) < Pow2(k)
  {
    if k == 0 {
      quotient := pos;
    } else {
      quotient := MaskIsRemainder(pos / 2, k - 1);
      assert Ones(k) / 2 == Ones(k - 1) && Ones(k) % 2 == 1;
      var low := BitAnd(pos / 2, Ones(k - 1));
      assert BitAnd(pos, Ones(k)) == 2 * low + pos % 2;
      Recombine(pos, Pow2(k - 1), quotient, low);
    }
  }
}
