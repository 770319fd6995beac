/** The square root of src/permutations/feistel_num_permutation.cc:50, taken in double precision. */
module SquareRoots {
  import opened Bits
  import opened Permutations

  /** An integer of at most 53 bits over a power of two, as every double from 1 to 2^53 is. */
  ghost predicate IsDouble(d: real) {
    exists m: nat, e: nat :: m < 0x20_0000_0000_0000 && Scaled(d, e, m)
  }

  predicate Scaled(d: real, e: nat, m: nat) { d * Pow2(e) as real == m as real }

  function Distance(x: real, y: real): real { if x < y then y - x else x - y }

  /** Rounding gives a double, and no double is nearer; either may be taken when two are as near. */
  ghost predicate ToNearest(round: real -> real) {
    forall x: real | 1.0 <= x <= 4294967296.0 ::
      && IsDouble(round(x))
      && forall d: real | IsDouble(d) :: Distance(round(x), x) <= Distance(d, x)
  }

  lemma {:induction false} ProductAsReal(a: nat, b: nat)
    ensures (a * b) as real == a as real * b as real
  {
    if a > 0 {
      ProductAsReal(a - 1, b);
      assert a * b == (a - 1) * b + b;
      assert ((a - 1) * b + b) as real == ((a - 1) * b) as real + b as real;
      assert a as real == (a - 1) as real + 1.0;
      assert ((a - 1) as real + 1.0) * b as real == (a - 1) as real * b as real + b as real;
    }
  }

  lemma PositiveProduct(x: real, y: real)
    requires x > 0.0 && y > 0.0
    ensures x * y > 0.0
  {}

  lemma LessBySquare(x: real, d: real)
    requires x >= 0.0 && d >= 0.0
    ensures x * x < d * d ==> x < d
    ensures x * x <= d * d ==> x <= d
  {
    if x > d {
      PositiveProduct(x - d, x + d);
      assert x * x - d * d == (x - d) * (x + d);
    }
  }

  /** The root of an integer lies between consecutive integers. */
  lemma RootBetween(n: nat, x: real, m: nat)
    requires x >= 0.0 && x * x == n as real && m * m <= n < (m + 1) * (m + 1)
    ensures m as real <= x < (m + 1) as real
  {
    var k := m + 1;
    ProductAsReal(m, m);
    ProductAsReal(k, k);
    LessBySquare(m as real, x);
    LessBySquare(x, k as real);
  }

  lemma IntegersAreDoubles(m: nat)
    requires m < 0x20_0000_0000_0000
    ensures IsDouble(m as real)
  {
    assert Pow2(0) == 1;
    assert Scaled(m as real, 0, m);
  }

  /** With a double between x and k, no double from k on is nearest to x. */
  lemma StaysBelow(round: real -> real, x: real, k: nat, d: real)
    requires ToNearest(round) && 1.0 <= x <= 4294967296.0 && IsDouble(d)
    requires d < k as real && x < k as real && (x <= d || k as real - x > x - d)
    ensures round(x) < k as real
  {
    assert Distance(round(x), x) <= Distance(d, x);
  }

  lemma StaysAbove(round: real -> real, x: real, m: nat)
    requires ToNearest(round) && 1.0 <= x <= 4294967296.0 && m < 0x20_0000_0000_0000 && m as real <= x
    ensures m as real <= round(x)
  {
    IntegersAreDoubles(m);
    assert Distance(round(x), x) <= Distance(m as real, x);
  }

  /** Between 2^26 and 2^27 doubles are 2^-26 apart. */
  lemma Spacing(d: real, k: nat)
    requires IsDouble(d) && 0x400_0000 < k <= 0x800_0000
    requires d > k as real - 1.0 / 67108864.0 && d <= k as real
    ensures d == k as real
  {
    var m: nat, e: nat :| m < 0x20_0000_0000_0000 && Scaled(d, e, m);
    NoFinerScale(d, e, m);
    ScaleTo26(d, e, m);
    var w: nat := m * Pow2(26 - e);
    assert d * 67108864.0 == w as real;
    assert w as real > (k * 67108864) as real - 1.0;
    assert w == k * 67108864;
  }

  lemma NoFinerScale(d: real, e: nat, m: nat)
    requires m < 0x20_0000_0000_0000 && Scaled(d, e, m) && d >= 67108864.0
    ensures e <= 26
  {
    if e > 26 {
      ScaleIsLarge(e);
      ScaledUp(d, 134217728.0, Pow2(e) as real);
      assert false;
    }
  }

  lemma ScaledUp(d: real, a: real, b: real)
    requires d >= 67108864.0 && a <= b
    ensures d * a <= d * b
  {
    assert d * (b - a) >= 0.0;
    assert d * b == d * a + d * (b - a);
  }

  lemma ScaleIsLarge(e: nat)
    requires e > 26
    ensures Pow2(e) >= 134217728
  {
    Pow2Monotone(27, e);
    PowerOf27();
  }

  lemma PowerOf27()
    ensures Pow2(26) == 67108864 && Pow2(27) == 134217728
  {
    assert Pow2(8) == 256;
    Pow2Adds(8, 8);
    Pow2Adds(16, 8);
    assert Pow2(26) == 2 * Pow2(25) && Pow2(25) == 2 * Pow2(24);
  }

  lemma ScaleTo26(d: real, e: nat, m: nat)
    requires e <= 26 && Scaled(d, e, m)
    ensures d * 67108864.0 == (m * Pow2(26 - e)) as real
  {
    hide *;
    PowersTo26(e);
    ScaledIs(d, e, m);
    Rescale(d, Pow2(e), Pow2(26 - e), m, 67108864);
  }

  lemma PowersTo26(e: nat)
    requires e <= 26
    ensures Pow2(e) * Pow2(26 - e) == 67108864
  {
    PowerOf27();
    Pow2Adds(e, 26 - e);
  }

  lemma ScaledIs(d: real, e: nat, m: nat)
    requires Scaled(d, e, m)
    ensures d * Pow2(e) as real == m as real
  {}

  lemma Rescale(d: real, a: nat, b: nat, m: nat, w: nat)
    requires d * a as real == m as real && a * b == w
    ensures d * w as real == (m * b) as real
  {
    var x, y, z := a as real, b as real, m as real;
    ProductAsReal(a, b);
    ProductAsReal(m, b);
    Regroup(d, x, y, z);
  }

  lemma Regroup(d: real, a: real, b: real, m: real)
    requires d * a == m
    ensures d * (a * b) == m * b
  {
    assert d * (a * b) == (d * a) * b;
  }

  /** Up to 2^53, where every integer is a double: the source's root is the integer square root, except
      that above 2^52 it is one more just below a square, so that its square exceeds the request. */
  lemma DoubleRootIff(n: nat, x: real, round: real -> real)
    requires 1 <= n <= 0x20_0000_0000_0000 && x >= 0.0 && x * x == n as real && ToNearest(round)
    ensures var m, root := ISqrt(n), round(x).Floor;
            && (root == m <==> n <= 0x10_0000_0000_0000 || (m + 1) * (m + 1) != n + 1)
            && (root == m <==> root * root <= n)
            && (root != m ==> root == m + 1)
  {
    var m := ISqrt(n);
    var k := m + 1;
    hide ISqrt;
    RootBetween(n, x, m);
    RootIsSmall(n, m);
    StaysAbove(round, x, m);
    if n < 0x10_0000_0000_0000 {
      var d := k as real - 1.0 / 134217728.0;
      BelowByHalf(n, x, k);
      assert (k * 134217728 - 1) as real == d * 134217728.0;
      PowerOf27();
      assert Scaled(d, 27, k * 134217728 - 1);
      StaysBelow(round, x, k, d);
    } else if k * k != n + 1 {
      var d := k as real - 1.0 / 67108864.0;
      BelowMiddle(n, x, k);
      assert (k * 67108864 - 1) as real == d * 67108864.0;
      PowerOf27();
      assert Scaled(d, 26, k * 67108864 - 1);
      StaysBelow(round, x, k, d);
    } else {
      AboveMiddle(n, x, k);
      IntegersAreDoubles(k);
      assert Distance(round(x), x) <= Distance(k as real, x);
      Spacing(round(x), k);
    }
    assert k * k > n;
  }

  lemma RootIsSmall(n: nat, m: nat)
    requires 1 <= n <= 0x20_0000_0000_0000 && m * m <= n < (m + 1) * (m + 1)
    ensures 1 <= m < 0x800_0000
    ensures n < 0x10_0000_0000_0000 ==> m < 0x400_0000
    ensures n >= 0x10_0000_0000_0000 ==> m >= 0x400_0000
    ensures n == 0x10_0000_0000_0000 ==> (m + 1) * (m + 1) != n + 1
  {
    if m >= 0x800_0000 { SquareMonotone(0x800_0000, m); }
    if m >= 0x400_0000 { SquareMonotone(0x400_0000, m); } else { SquareMonotone(m + 1, 0x400_0000); }
    if n == 0x10_0000_0000_0000 { SquareMonotone(0x400_0001, m + 1); }
  }

  lemma SquareBelow(k: real, h: real)
    ensures (k - h) * (k - h) == k * k - 2.0 * h * k + h * h
  {
    assert (k - h) * (k - h) == k * k - k * h - h * k + h * h;
  }

  lemma BelowByHalf(n: nat, x: real, k: nat)
    requires x >= 0.0 && x * x == n as real && n < k * k && 0 < k <= 0x400_0000
    ensures x <= k as real - 1.0 / 134217728.0
  {
    var h, r := 1.0 / 134217728.0, k as real;
    SquareBelow(r, h);
    ProductAsReal(k, k);
    assert 2.0 * h * r <= 1.0;
    LessBySquare(x, r - h);
  }

  /** x is nearer to the double below k than to k. */
  lemma BelowMiddle(n: nat, x: real, k: nat)
    requires x >= 0.0 && x * x == n as real && n + 2 <= k * k && 0 < k <= 0x800_0000
    ensures x < k as real - 1.0 / 134217728.0
  {
    var h, r := 1.0 / 134217728.0, k as real;
    SquareBelow(r, h);
    ProductAsReal(k, k);
    assert 2.0 * h * r <= 2.0;
    assert h * h > 0.0;
    LessBySquare(x, r - h);
  }

  /** x is nearer to k than to the double below it. */
  lemma AboveMiddle(n: nat, x: real, k: nat)
    requires x >= 0.0 && x * x == n as real && n + 1 == k * k && k > 0x400_0000
    ensures x > k as real - 1.0 / 134217728.0
  {
    var h, r := 1.0 / 134217728.0, k as real;
    SquareBelow(r, h);
    ProductAsReal(k, k);
    assert 2.0 * h * r >= 1.0 + 1.0 / 67108864.0;
    assert h * h < 1.0 / 67108864.0;
    LessBySquare(r - h, x);
  }

  /** The least such request: the size becomes one more than was asked for. */
  lemma SizeExceedsRequest(x: real, round: real -> real)
    requires x >= 0.0 && x * x == 4503599761588224.0 && ToNearest(round)
    ensures round(x).Floor == 0x400_0001 && 0x400_0001 * 0x400_0001 == 4503599761588224 + 1
  {
    var n := 4503599761588224;
    RootUnique(n, 0x400_0000);
    DoubleRootIff(n, x, round);
  }

  lemma RootUnique(n: nat, m: nat)
    requires m * m <= n < (m + 1) * (m + 1)
    ensures ISqrt(n) == m
  {
    var r := ISqrt(n);
    if r < m { SquareMonotone(r + 1, m); }
    if r > m { SquareMonotone(m + 1, r); }
  }
}
