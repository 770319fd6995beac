/** Primality shown by certificate: an element of order 2^32 makes 2^64 - 2^32 + 1 a prime. */
module PrimeCertificates {
  import opened Bits
  import opened NumberTheory

  function LeastDivisor(n: nat, d: nat): (r: nat)
    requires 2 <= d <= n
    ensures d <= r <= n && n % r == 0 && forall k: nat {:trigger n % k} | d <= k < r :: n % k != 0
    decreases n - d
  {
    SmallRemainderOfItself(n);
    if n % d == 0 then d else LeastDivisor(n, d + 1)
  }

  lemma SmallRemainderOfItself(n: nat)
    requires n > 0
    ensures n % n == 0
  {
    ModUnique(n, n, 1, 0);
  }

  lemma DivisorOfDivisor(n: nat, p: nat, k: nat)
    requires p > 0 && k > 0 && n % p == 0
    ensures p % k == 0 ==> n % k == 0
  {
    if p % k == 0 {
      assert n == (n / p) * p;
      ScaledMultiple(k, p, n / p);
    }
  }

  lemma CoDivisor(n: nat, p: nat)
    requires 2 <= p < n && n % p == 0 && forall k: nat {:trigger n % k} | 2 <= k < p :: n % k != 0
    ensures p * p <= n
  {
    var c := n / p;
    assert n == p * c;
    assert c != 0 && c != 1;
    MultipleHasNoRemainder(c, p);
    assert n % c == 0;
    MulMonotone(p, c, p);
  }

  /** The least divisor is a prime, and no larger than the square root unless the number is prime. */
  lemma LeastDivisorIsPrime(n: nat)
    requires n >= 2
    ensures var p := LeastDivisor(n, 2); IsPrime(p) && n % p == 0 && (p == n || p * p <= n)
  {
    var p := LeastDivisor(n, 2);
    forall k: nat {:trigger p % k} | 2 <= k < p ensures p % k != 0 {
      DivisorOfDivisor(n, p, k);
    }
    if p < n { CoDivisor(n, p); }
  }

  /** A number whose prime divisors all lie above its square root is prime. */
  lemma PrimeByDivisors(n: nat)
    requires n >= 2 && forall d: nat {:trigger n % d} | IsPrime(d) && n % d == 0 :: d * d > n
    ensures IsPrime(n)
  {
    LeastDivisorIsPrime(n);
  }

  lemma RemainderTwice(x: int, n: nat, d: nat)
    requires d > 0 && n > 0 && n % d == 0
    ensures (x % n) % d == x % d
  {
    var q, c := x / n, n / d;
    assert x == n * q + x % n;
    assert n == d * c;
    assert n * q == d * (c * q);
    ModShift(x % n, c * q, d);
  }

  lemma {:induction false} PowOfOne(c: int, e: nat, k: nat, d: nat)
    requires d > 1 && Pow(c, e) % d == 1
    ensures Pow(c, e * k) % d == 1
  {
    if k == 0 {
      ModUnique(1, d, 0, 1);
      assert e * k == 0;
    } else {
      PowOfOne(c, e, k - 1, d);
      assert e * k == e + e * (k - 1);
      PowAdds(c, e, e * (k - 1));
      ModMul(Pow(c, e), Pow(c, e * (k - 1)), d);
      ModUnique(1, d, 0, 1);
    }
  }

  lemma {:induction false} PowOfPow(a: int, e: nat, k: nat)
    ensures Pow(Pow(a, e), k) == Pow(a, e * k)
  {
    if k == 0 {
      assert e * k == 0;
    } else {
      PowOfPow(a, e, k - 1);
      assert e * k == e + e * (k - 1);
      PowAdds(a, e, e * (k - 1));
    }
  }

  // ---------------------------------------------------------------- elements of order 2^32

  /** k squarings modulo m. */
  function Squared(v: nat, k: nat, m: nat): (r: nat)
    requires m > 0
    decreases k
  {
    if k == 0 then v % m else Squared((v * v) % m, k - 1, m)
  }

  lemma {:induction false} SquaredIsPow(v: nat, k: nat, m: nat)
    requires m > 0
    ensures Squared(v, k, m) == Pow(v, Pow2(k)) % m
    decreases k
  {
    if k == 0 {
      assert Pow(v, 1) == v * Pow(v, 0) == v;
    } else {
      SquaredIsPow((v * v) % m, k - 1, m);
      PowModBase(v * v, Pow2(k - 1), m);
      PowOfPow(v, 2, Pow2(k - 1));
      assert Pow(v, 2) == v * Pow(v, 1) && Pow(v, 1) == v * Pow(v, 0);
    }
  }

  lemma {:induction false} SquaredAdds(v: nat, j: nat, k: nat, m: nat)
    requires m > 0
    ensures Squared(v, j + k, m) == Squared(Squared(v, j, m), k, m)
    decreases j
  {
    if j == 0 {
      SquaredOfRemainder(v, k, m);
    } else {
      SquaredAdds((v * v) % m, j - 1, k, m);
    }
  }

  lemma SquaredOfRemainder(v: nat, k: nat, m: nat)
    requires m > 0
    ensures Squared(v % m, k, m) == Squared(v, k, m)
  {
    SmallMod(v, m);
    ModMul(v, v, m);
  }

  lemma {:induction false} MinusOneToOdd(m: nat, d: nat)
    requires d > 2 && m % 2 == 1
    ensures Pow(d - 1, m) % d == d - 1
  {
    if m == 1 {
      assert Pow(d - 1, 1) == (d - 1) * Pow(d - 1, 0) == d - 1;
      SmallRemainder(d - 1, d);
    } else {
      MinusOneToOdd(m - 2, d);
      var x := Pow(d - 1, m - 2);
      assert Pow(d - 1, m) == (d - 1) * ((d - 1) * x);
      assert (d - 1) * ((d - 1) * x) == x + d * ((d - 2) * x) by {
        assert (d - 1) * (d - 1) == 1 + d * (d - 2);
        assert (d - 1) * ((d - 1) * x) == ((d - 1) * (d - 1)) * x;
        assert (1 + d * (d - 2)) * x == x + d * ((d - 2) * x);
      }
      ModShift(x, (d - 2) * x, d);
    }
  }

  /** How often 2 divides n, and what is left. */
  lemma {:induction false} SplitTwos(n: nat) returns (t: nat, m: nat)
    requires n > 0
    ensures n == m * Pow2(t) && m % 2 == 1
  {
    if n % 2 == 1 {
      t, m := 0, n;
    } else {
      t, m := SplitTwos(n / 2);
      assert m * (2 * Pow2(t)) == 2 * (m * Pow2(t));
      t := t + 1;
    }
  }

  lemma Regroup(x: int, y: int, z: int)
    ensures (x * y) * z == (y * z) * x
  {}

  lemma Exponents(m: nat, t: nat, k: nat)
    requires t <= k
    ensures (m * Pow2(t)) * Pow2(k - t) == Pow2(k) * m
  {
    hide Pow2;
    Pow2Adds(t, k - t);
    Regroup(m, Pow2(t), Pow2(k - t));
  }

  lemma ReachesOne(d: nat, c: nat, m: nat, t: nat, k: nat)
    requires IsPrime(d) && 1 <= c < d && d - 1 == m * Pow2(t) && t <= k
    ensures Pow(c, Pow2(k) * m) % d == 1
  {
    hide Pow, Pow2, IsPrime;
    Fermat(d, c);
    PowOfOne(c, d - 1, Pow2(k - t), d);
    Exponents(m, t, k);
  }

  lemma ReachesMinusOne(d: nat, c: nat, e: nat, m: nat)
    requires d > 2 && m % 2 == 1 && Pow(c, e) % d == d - 1
    ensures Pow(c, e * m) % d == d - 1
  {
    hide Pow;
    PowOfPow(c, e, m);
    PowModBase(Pow(c, e), m, d);
    MinusOneToOdd(m, d);
  }

  lemma {:induction false} ZeroToPositive(e: nat)
    requires e > 0
    ensures Pow(0, e) == 0
  {
    assert Pow(0, e) == 0 * Pow(0, e - 1);
  }

  /** If k + 1 squarings, and no fewer, lead from g to 1 modulo a prime d, then 2^(k+1) divides d - 1. */
  lemma OrderOfTwo(d: nat, g: nat, k: nat)
    requires IsPrime(d) && d > 2 && Pow(g, Pow2(k)) % d == d - 1
    ensures d > Pow2(k + 1) && (d - 1) % Pow2(k + 1) == 0
  {
    hide Pow, Pow2, IsPrime;
    var t, m := SplitTwos(d - 1);
    var c := g % d;
    PowModBase(g, Pow2(k), d);
    if t <= k {
      if c == 0 {
        ZeroToPositive(Pow2(k));
        SmallRemainder(0, d);
      } else {
        ReachesOne(d, c, m, t, k);
        ReachesMinusOne(d, c, Pow2(k), m);
      }
      assert false;
    }
    Pow2Monotone(k + 1, t);
    MulAtLeast(Pow2(t), m);
    assert m * Pow2(t) == Pow2(t) * m;
    Exponents(m, k + 1, t);
    Pow2Adds(k + 1, t - (k + 1));
    MultipleHasNoRemainder(Pow2(k + 1), m * Pow2(t - (k + 1)));
    assert Pow2(k + 1) * (m * Pow2(t - (k + 1))) == (m * Pow2(k + 1)) * Pow2(t - (k + 1));
  }

  /** A number is 1 modulo w when all its prime divisors are. */
  lemma {:induction false} OneModulo(n: nat, w: nat)
    requires n > 0 && w > 1 && forall d: nat {:trigger n % d} | IsPrime(d) && n % d == 0 :: d % w == 1
    ensures n % w == 1
  {
    if n == 1 {
      SmallRemainder(1, w);
    } else {
      LeastDivisorIsPrime(n);
      var p := LeastDivisor(n, 2);
      var c := n / p;
      assert n == p * c && c > 0;
      MulMonotone(2, p, c);
      forall d: nat {:trigger c % d} | IsPrime(d) && c % d == 0 ensures d % w == 1 {
        ScaledMultiple(d, c, p);
        assert n % d == 0;
      }
      OneModulo(c, w);
      ModMul(p, c, w);
      SmallRemainder(1, w);
    }
  }

  /** Modulo an odd number n no power n - 1 is -1: every prime divisor would be 1 modulo a higher power
      of two than n is. */
  lemma NeverMinusOne(n: nat, s: nat, t: nat, a: nat)
    requires n >= 3 && n % 2 == 1 && s % 2 == 1 && n - 1 == s * Pow2(t)
    ensures Pow(a, s * Pow2(t)) % n != n - 1
  {
    if Pow(a, s * Pow2(t)) % n == n - 1 {
      var w := Pow2(t + 1);
      var g := Pow(a, s);
      PowIsNat(a, s);
      PowOfPow(a, s, Pow2(t));
      forall d: nat {:trigger n % d} | IsPrime(d) && n % d == 0 ensures d % w == 1 { DivisorIsOne(n, g, t, d); }
      OneModulo(n, w);
      HalfMultiple(n, s, t);
    }
  }

  lemma {:induction false} PowIsNat(a: nat, e: nat)
    ensures Pow(a, e) >= 0
  {
    if e > 0 { PowIsNat(a, e - 1); }
  }

  lemma DivisorIsOne(n: nat, g: nat, t: nat, d: nat)
    requires n >= 3 && n % 2 == 1 && IsPrime(d) && n % d == 0 && Pow(g, Pow2(t)) % n == n - 1
    ensures d % Pow2(t + 1) == 1
  {
    hide Pow, Pow2;
    if d == 2 { assert false; }
    var x, w := Pow(g, Pow2(t)), Pow2(t + 1);
    RemainderTwice(x, n, d);
    assert n == d * (n / d);
    assert n - 1 == d * (n / d - 1) + (d - 1);
    ModUnique(n - 1, d, n / d - 1, d - 1);
    OrderOfTwo(d, g, t);
    PositivePower(t);
    ModUnique(d, w, (d - 1) / w, 1);
  }

  lemma PositivePower(t: nat)
    ensures Pow2(t + 1) > 1
  {}

  lemma HalfMultiple(n: nat, s: nat, t: nat)
    requires n == s * Pow2(t) + 1 && n % Pow2(t + 1) == 1
    ensures s % 2 == 0
  {
    var w, h := Pow2(t + 1), Pow2(t);
    var q := n / w;
    assert n == w * q + 1 && w == 2 * h;
    assert w * q == (2 * q) * h;
    ModUnique(s * h, h, s, 0);
    ModUnique(s * h, h, 2 * q, 0);
    assert s == 2 * q;
  }

  // ---------------------------------------------------------------- 2^64 - 2^32 + 1

  const LARGE_PRIME: nat := 0xFFFF_FFFF_0000_0001

  /** An element of order 2^32. */
  const GENERATOR: nat := 0x185629dcda58878c

  /** One squaring, with its quotient. */
  lemma NextSquare(k: nat, a: nat, q: nat, b: nat)
    requires Squared(GENERATOR, k, LARGE_PRIME) == a && a * a == q * 0xFFFF_FFFF_0000_0001 + b &&
        b < 0xFFFF_FFFF_0000_0001
    ensures Squared(GENERATOR, k + 1, LARGE_PRIME) == b
  {
    SquaredAdds(GENERATOR, k, 1, LARGE_PRIME);
    ModUnique(a * a, LARGE_PRIME, q, b);
    SmallRemainder(b, LARGE_PRIME);
    assert Squared(a, 1, LARGE_PRIME) == Squared((a * a) % LARGE_PRIME, 0, LARGE_PRIME);
  }

  lemma Squarings0To8()
    requires Squared(GENERATOR, 0, LARGE_PRIME) == 0x185629dcda58878c
    ensures Squared(GENERATOR, 8, LARGE_PRIME) == 0x86cdcc31c307e171
  {
    hide Squared;
    NextSquare(0, 0x185629dcda58878c, 0x25044d9927c0e37, 0x400a7f755588e659);
    NextSquare(1, 0x400a7f755588e659, 0x10054028ef6a02ac, 0x7e9bd009b86a0845);
    NextSquare(2, 0x7e9bd009b86a0845, 0x3e9dbf9f64fb3c33, 0xdfa8c93ba46d2666);
    NextSquare(3, 0xdfa8c93ba46d2666, 0xc3677ddf68542c1f, 0x59049500004a4485);
    NextSquare(4, 0x59049500004a4485, 0x1ef42faf1de0d5fc, 0x10d78dd8915a171d);
    NextSquare(5, 0x10d78dd8915a171d, 0x11ba73aa3a356c3, 0xed41d05b78d6e286);
    NextSquare(6, 0xed41d05b78d6e286, 0xdbe2ecb5b1a8ee4c, 0x4bbaf5976ecfefd8);
    NextSquare(7, 0x4bbaf5976ecfefd8, 0x166714709cfd24cf, 0x86cdcc31c307e171);
  }

  lemma Squarings8To16()
    requires Squared(GENERATOR, 8, LARGE_PRIME) == 0x86cdcc31c307e171
    ensures Squared(GENERATOR, 16, LARGE_PRIME) == 0x54df9630bf79450e
  {
    hide Squared;
    NextSquare(8, 0x86cdcc31c307e171, 0x46fc173509ba0a56, 0xea9d5a1336fbc98b);
    NextSquare(9, 0xea9d5a1336fbc98b, 0xd704096392cb4ac4, 0x4b2a18ade67246b5);
    NextSquare(10, 0x4b2a18ade67246b5, 0x1611b162168955a5, 0xf502aef532322654);
    NextSquare(11, 0xf502aef532322654, 0xea7e22e96ff92423, 0x30ba2ecd5e93e76d);
    NextSquare(12, 0x30ba2ecd5e93e76d, 0x94658f517b9b167, 0xfbd41c6b8caa3302);
    NextSquare(13, 0xfbd41c6b8caa3302, 0xf7b99f7af2d80d58, 0x81281a7b05f9beac);
    NextSquare(14, 0x81281a7b05f9beac, 0x412970f8865e3982, 0xabd0a6e8aa3d8a0e);
    NextSquare(15, 0xabd0a6e8aa3d8a0e, 0x7350690aeda5d3b6, 0x54df9630bf79450e);
  }

  lemma Squarings16To24()
    requires Squared(GENERATOR, 16, LARGE_PRIME) == 0x54df9630bf79450e
    ensures Squared(GENERATOR, 24, LARGE_PRIME) == 0xbf79143ce60ca966
  {
    hide Squared;
    NextSquare(16, 0x54df9630bf79450e, 0x1c237dd71ad5d218, 0xf6b2cffe2306baac);
    NextSquare(17, 0xf6b2cffe2306baac, 0xedbc24a33f72c1ae, 0xe0ee099310bba1e2);
    NextSquare(18, 0xe0ee099310bba1e2, 0xc5a16e17f0b891ed, 0x1544ef2335d17997);
    NextSquare(19, 0x1544ef2335d17997, 0x1c461cbb2b01a5b, 0xf2c35199959dfcb6);
    NextSquare(20, 0xf2c35199959dfcb6, 0xe635db4caf110895, 0x653b4801da1c8cf);
    NextSquare(21, 0x653b4801da1c8cf, 0x2807d48be33def, 0x9d8f2ad78bfed972);
    NextSquare(22, 0x9d8f2ad78bfed972, 0x60f8ea9da6a95776, 0x1905d02a5c411f4e);
    NextSquare(23, 0x1905d02a5c411f4e, 0x27222ca1363525e, 0xbf79143ce60ca966);
  }

  lemma Squarings24To31()
    requires Squared(GENERATOR, 24, LARGE_PRIME) == 0xbf79143ce60ca966
    ensures Squared(GENERATOR, 31, LARGE_PRIME) == 0xffffffff00000000
  {
    hide Squared;
    NextSquare(24, 0xbf79143ce60ca966, 0x8f35e57791a7d4a3, 0xf80007ff08000001);
    NextSquare(25, 0xf80007ff08000001, 0xf0400f7f10000001, 0x8000000000);
    NextSquare(26, 0x8000000000, 0x4000, 0x3fffffffc000);
    NextSquare(27, 0x3fffffffc000, 0xfffffff, 0xefffffff00000001);
    NextSquare(28, 0xefffffff00000001, 0xe0ffffff01000000, 0xfffffffeff000001);
    NextSquare(29, 0xfffffffeff000001, 0xfffffffefe000001, 0x1000000000000);
    NextSquare(30, 0x1000000000000, 0x100000000, 0xffffffff00000000);
  }

  lemma GeneratorSquared()
    ensures Squared(GENERATOR, 31, LARGE_PRIME) == LARGE_PRIME - 1
  {
    SmallRemainder(GENERATOR, LARGE_PRIME);
    assert Squared(GENERATOR, 0, LARGE_PRIME) == GENERATOR;
    hide Squared;
    Squarings0To8();
    Squarings8To16();
    Squarings16To24();
    Squarings24To31();
  }

  lemma LargePrimeIsPrime()
    ensures IsPrime(LARGE_PRIME)
  {
    GeneratorSquared();
    SquaredIsPow(GENERATOR, 31, LARGE_PRIME);
    Pow2Values();
    hide Squared, Pow, Pow2, IsPrime;
    forall d: nat {:trigger LARGE_PRIME % d} | d > 0 && IsPrime(d) && LARGE_PRIME % d == 0 ensures d * d > LARGE_PRIME {
      DivisorOfLargePrime(d);
    }
    PrimeByDivisors(LARGE_PRIME);
  }

  lemma DivisorOfLargePrime(d: nat)
    requires IsPrime(d) && d > 0 && LARGE_PRIME % d == 0 && Pow(GENERATOR, Pow2(31)) % LARGE_PRIME == LARGE_PRIME - 1
    ensures d * d > LARGE_PRIME
  {
    assert d >= 2;
    hide Pow, Pow2, IsPrime;
    var n := LARGE_PRIME;
    assert n % 2 == 1 && d != 2;
    RemainderTwice(Pow(GENERATOR, Pow2(31)), n, d);
    OneBelow(n, d);
    ModUnique(n - 1, d, n / d - 1, d - 1);
    OrderOfTwo(d, GENERATOR, 31);
    Pow2Values();
    MulMonotone(0x1_0000_0000, d, d);
    MulMonotone(0x1_0000_0000, d, 0x1_0000_0000);
  }

  lemma OneBelow(n: nat, d: nat)
    requires d > 0 && n > 0 && n % d == 0
    ensures n - 1 == d * (n / d - 1) + (d - 1)
  {
    assert n == d * (n / d);
  }
}
