/** The number theory behind the prime search and the affine permutations: remainders,
    Euclid and Bezout, Euclid's lemma, Fermat's little theorem. */
module NumberTheory {
  import opened Bits

  // ---------------------------------------------------------------- remainders

  lemma MulMonotone(x: nat, y: nat, r: nat)
    ensures x <= y ==> x * r <= y * r
  {
    assert y * r == x * r + (y - x) * r;
  }

  lemma ModShift(n: int, k: int, d: int)
    requires d > 0
    ensures (n + d * k) % d == n % d
  {
    var q, r := n / d, n % d;
    assert n + d * k == d * (q + k) + r;
    ModUnique(n + d * k, d, q + k, r);
  }

  lemma MultipleHasNoRemainder(d: int, k: int)
    requires d > 0
    ensures (d * k) % d == 0
  {
    ModUnique(d * k, d, k, 0);
  }

  lemma ModMulLeft(a: int, b: int, m: int)
    requires m > 0
    ensures ((a % m) * b) % m == (a * b) % m
  {
    var q := a / m;
    assert a * b == (a % m) * b + m * (q * b) by {
      assert a == m * q + a % m;
      assert (m * q) * b == m * (q * b);
    }
    ModShift((a % m) * b, q * b, m);
  }

  lemma ModMul(a: int, b: int, m: int)
    requires m > 0
    ensures ((a % m) * (b % m)) % m == (a * b) % m
  {
    ModMulLeft(a, b % m, m);
    ModMulLeft(b, a, m);
    assert a * (b % m) == (b % m) * a;
    assert a * b == b * a;
  }

  lemma ModAddLeft(a: int, b: int, m: int)
    requires m > 0
    ensures ((a % m) + b) % m == (a + b) % m
  {
    var q := a / m;
    assert a + b == (a % m) + b + m * q;
    ModShift((a % m) + b, q, m);
  }

  /** a and b leave the same remainder exactly when m divides their difference. */
  lemma SameRemainder(a: int, b: int, m: int)
    requires m > 0
    ensures a % m == b % m <==> (a - b) % m == 0
  {
    if (a - b) % m == 0 {
      ModShift(b, (a - b) / m, m);
    }
    if a % m == b % m {
      ModSubLeft(a, b, m);
      ModSubLeft(b, b, m);
      ModUnique(0, m, 0, 0);
    }
  }

  lemma ModSubLeft(a: int, b: int, m: int)
    requires m > 0
    ensures ((a % m) - b) % m == (a - b) % m
  {
    ModAddLeft(a, -b, m);
  }

  // ---------------------------------------------------------------- Euclid

  function Gcd(a: nat, b: nat): nat
    decreases b
  {
    if b == 0 then a else Gcd(b, a % b)
  }

  /** Bezout: the greatest common divisor is an integer combination of its arguments. */
  lemma {:induction false} Bezout(a: nat, b: nat) returns (u: int, v: int)
    ensures u * a + v * b == Gcd(a, b)
    decreases b
  {
    if b == 0 {
      u, v := 1, 0;
    } else {
      var u', v' := Bezout(b, a % b);
      u, v := v', u' - v' * (a / b);
      BezoutStep(a, b, a / b, u', v');
    }
  }

  lemma BezoutStep(a: int, b: int, q: int, u: int, v: int)
    ensures v * a + (u - v * q) * b == u * b + v * (a - b * q)
  {
    var vq := v * q;
    assert (u - vq) * b == u * b - vq * b;
    assert v * (a - b * q) == v * a - v * (b * q);
    assert v * (b * q) == vq * b;
  }

  lemma {:induction false} GcdDivides(a: nat, b: nat)
    requires a > 0 || b > 0
    ensures Gcd(a, b) > 0
    ensures a % Gcd(a, b) == 0 && b % Gcd(a, b) == 0
    decreases b
  {
    if b == 0 {
      ModUnique(a, a, 1, 0);
      MultipleHasNoRemainder(a, 0);
    } else {
      GcdDivides(b, a % b);
      var g := Gcd(a, b);
      DividesCombination(g, b, a % b, a / b);
      assert a == b * (a / b) + a % b;
    }
  }

  /** A common divisor of x and y divides x * k + y. */
  lemma DividesCombination(g: nat, x: int, y: int, k: int)
    requires g > 0 && x % g == 0 && y % g == 0
    ensures (x * k + y) % g == 0
  {
    var x', y' := x / g, y / g;
    assert x == g * x' && y == g * y';
    assert (g * x') * k == g * (x' * k);
    assert x * k + y == g * (x' * k + y');
    MultipleHasNoRemainder(g, x' * k + y');
  }

  lemma {:induction false} GcdIsGreatest(a: nat, b: nat, d: nat)
    requires d > 0 && a % d == 0 && b % d == 0
    ensures Gcd(a, b) % d == 0
  {
    var u, v := Bezout(a, b);
    ScaledMultiple(d, b, v);
    DividesCombination(d, a, v * b, u);
    assert u * a == a * u;
  }

  lemma ScaledMultiple(d: nat, x: int, k: int)
    requires d > 0 && x % d == 0
    ensures (k * x) % d == 0
  {
    DividesCombination(d, x, 0, k);
    MultipleHasNoRemainder(d, 0);
    assert k * x == x * k + 0;
  }

  /** A number coprime to m has an inverse modulo m. */
  lemma InverseModulo(a: nat, m: nat) returns (u: nat)
    requires m > 0 && Gcd(a, m) == 1
    ensures u < m && (u * a) % m == 1 % m
  {
    var x, y := Bezout(a, m);
    u := x % m;
    ModMulLeft(x, a, m);
    assert x * a == 1 + m * (-y);
    ModShift(1, -y, m);
  }

  lemma {:induction false} OddIsPrimeToPowers(n: nat, k: nat)
    requires n % 2 == 1
    ensures Gcd(Pow2(k), n) == 1
  {
    var g := Gcd(Pow2(k), n);
    GcdDivides(Pow2(k), n);
    OddDivisorOfPower(g, k, n);
  }

  lemma OddInverse(s: nat, t: nat) returns (w: nat)
    requires s % 2 == 1 && t > 0
    ensures (w * s) % Pow2(t) == 1
  {
    var n := Pow2(t);
    OddIsPrimeToPowers(s, t);
    var u, v := Bezout(n, s);
    w := v % n;
    ModMulLeft(v, s, n);
    assert v * s == 1 + n * (-u);
    ModShift(1, -u, n);
    SmallRemainder(1, n);
  }

  lemma {:induction false} OddDivisorOfPower(g: nat, k: nat, n: nat)
    requires g > 0 && Pow2(k) % g == 0 && n % g == 0 && n % 2 == 1
    ensures g == 1
    decreases k
  {
    if k == 0 {
      DivisorAtMost(g, 1);
    } else {
      var q := Pow2(k) / g;
      assert 2 * Pow2(k - 1) == g * q;
      DivisorOfOdd(g, n);
      OddTimesOdd(g, q);
      DoubleProduct(g, q / 2);
      hide Pow2;
      assert g * (2 * (q / 2)) == 2 * Pow2(k - 1);
      MultipleHasNoRemainder(g, q / 2);
      OddDivisorOfPower(g, k - 1, n);
    }
  }

  lemma DivisorOfOdd(g: nat, n: nat)
    requires g > 0 && n % g == 0 && n % 2 == 1
    ensures g % 2 == 1
  {
    assert n == g * (n / g);
    EvenTimes(g, n / g);
  }

  lemma EvenTimes(x: nat, y: nat)
    ensures x % 2 == 0 ==> (x * y) % 2 == 0
  {
    if x % 2 == 0 { assert x * y == 2 * ((x / 2) * y); }
  }

  lemma OddTimesOdd(x: nat, y: nat)
    ensures x % 2 == 1 && y % 2 == 1 ==> (x * y) % 2 == 1
  {
    if x % 2 == 1 && y % 2 == 1 {
      assert x * y == 2 * ((x / 2) * y) + y;
    }
  }

  // ---------------------------------------------------------------- primes

  ghost predicate IsPrime(p: nat) {
    p >= 2 && forall d: nat {:trigger p % d} | 2 <= d < p :: p % d != 0
  }

  lemma PrimeGcd(p: nat, x: nat)
    requires IsPrime(p)
    ensures Gcd(x, p) == (if x % p == 0 then p else 1)
  {
    var g := Gcd(x, p);
    GcdDivides(x, p);
    DivisorAtMost(g, p);
    if x % p == 0 {
      ModUnique(p, p, 1, 0);
      GcdIsGreatest(x, p, p);
      DivisorAtMost(p, g);
    }
  }

  lemma DivisorAtMost(d: nat, n: nat)
    requires d > 0 && n > 0 && n % d == 0
    ensures d <= n
  {
    if d > n { SmallRemainder(n, d); }
  }

  /** Euclid's lemma. */
  lemma EuclidsLemma(p: nat, x: int, y: int)
    requires IsPrime(p) && (x * y) % p == 0
    ensures x % p == 0 || y % p == 0
  {
    if x % p != 0 {
      var r := x % p;
      ModUnique(r, p, 0, r);
      PrimeGcd(p, r);
      var u, v := Bezout(r, p);
      ModMulLeft(x, y, p);
      // y == (u * r + v * p) * y, and p divides both parts
      assert (u * r + v * p) * y == (r * y) * u + p * (v * y) by {
        assert (u * r) * y == (r * y) * u;
        assert (v * p) * y == p * (v * y);
      }
      MultipleHasNoRemainder(p, v * y);
      DividesCombination(p, r * y, p * (v * y), u);
    }
  }

  function Pow(a: int, e: nat): int {
    if e == 0 then 1 else a * Pow(a, e - 1)
  }

  lemma {:induction false} PowAdds(a: int, e: nat, f: nat)
    ensures Pow(a, e + f) == Pow(a, e) * Pow(a, f)
    decreases e
  {
    if e > 0 {
      PowAdds(a, e - 1, f);
      assert a * (Pow(a, e - 1) * Pow(a, f)) == a * Pow(a, e - 1) * Pow(a, f);
    }
  }

  lemma {:induction false} PowModBase(a: int, e: nat, m: int)
    requires m > 0
    ensures Pow(a % m, e) % m == Pow(a, e) % m
  {
    if e > 0 {
      PowModBase(a, e - 1, m);
      ModMul(a % m, Pow(a % m, e - 1), m);
      ModMul(a, Pow(a, e - 1), m);
      SmallMod(a, m);
    }
  }

  lemma SmallMod(a: int, m: int)
    requires m > 0
    ensures (a % m) % m == a % m
  {
    ModUnique(a % m, m, 0, a % m);
  }

  // ------------------------------------------------ Fermat's little theorem

  function Prod(s: seq<nat>): nat {
    if s == [] then 1 else s[0] * Prod(s[1..])
  }

  function Factorial(n: nat): nat {
    if n == 0 then 1 else n * Factorial(n - 1)
  }

  ghost predicate Distinct(s: seq<nat>) {
    forall i, j | 0 <= i < j < |s| :: s[i] != s[j]
  }

  ghost predicate Within(s: seq<nat>, n: nat) {
    forall i | 0 <= i < |s| :: 1 <= s[i] <= n
  }

  lemma {:induction false} ProdRemove(s: seq<nat>, i: nat)
    requires i < |s|
    ensures Prod(s) == s[i] * Prod(s[..i] + s[i + 1..])
  {
    var rest := s[..i] + s[i + 1..];
    if i == 0 {
      assert rest == s[1..];
    } else {
      ProdRemove(s[1..], i - 1);
      var rest' := s[1..][..i - 1] + s[1..][i..];
      assert rest[1..] == rest' && rest[0] == s[0];
      assert s[0] * (s[i] * Prod(rest')) == s[i] * (s[0] * Prod(rest'));
    }
  }

  /** n distinct numbers in 1..n include n. */
  lemma {:induction false} LargestIsPresent(s: seq<nat>, n: nat)
    requires |s| == n > 0 && Distinct(s)
    requires Within(s, n)
    ensures n in s
  {
    if n !in s {
      var image := set i | 0 <= i < |s| :: s[i];
      DistinctCount(s);
      BoundedSetCount(image + {0}, n);
    }
  }

  /** A set of numbers below n has at most n elements. */
  lemma {:induction false} BoundedSetCount(s: set<nat>, n: nat)
    requires forall x | x in s :: x < n
    ensures |s| <= n
  {
    if n == 0 {
      assert s == {};
    } else {
      BoundedSetCount(s - {n - 1}, n - 1);
    }
  }

  lemma {:induction false} DistinctCount(s: seq<nat>)
    requires Distinct(s)
    ensures |set i | 0 <= i < |s| :: s[i]| == |s|
  {
    var image := set i | 0 <= i < |s| :: s[i];
    if s != [] {
      var t := s[..|s| - 1];
      DistinctCount(t);
      var last := s[|s| - 1];
      var image' := set i | 0 <= i < |t| :: t[i];
      assert image == image' + {last} by {
        forall x | x in image ensures x in image' + {last} {
          var i :| 0 <= i < |s| && s[i] == x;
          if i < |t| { assert t[i] == x; }
        }
        forall x | x in image' + {last} ensures x in image {
          if x in image' {
            var i :| 0 <= i < |t| && t[i] == x;
            assert s[i] == x;
          } else {
            assert s[|s| - 1] == x;
          }
        }
      }
      assert last !in image';
    }
  }

  /** The product of n distinct numbers in 1..n is n factorial, whatever their order. */
  lemma {:induction false} PermutationProduct(s: seq<nat>, n: nat)
    requires |s| == n && Distinct(s)
    requires Within(s, n)
    ensures Prod(s) == Factorial(n)
    decreases n
  {
    if n > 0 {
      LargestIsPresent(s, n);
      var i :| 0 <= i < |s| && s[i] == n;
      var rest := s[..i] + s[i + 1..];
      ProdRemove(s, i);
      PermutationProduct(rest, n - 1);
    }
  }

  /** The multiples a, 2a, ..., na reduced modulo m. */
  function Multiples(a: nat, m: nat, n: nat): (s: seq<nat>)
    requires m > 0
    ensures |s| == n && forall i | 0 <= i < n :: s[i] == (a * (n - i)) % m
  {
    if n == 0 then [] else [(a * n) % m] + Multiples(a, m, n - 1)
  }

  lemma {:induction false} MultiplesProduct(a: nat, m: nat, n: nat)
    requires m > 0
    ensures Prod(Multiples(a, m, n)) % m == (Pow(a, n) * Factorial(n)) % m
  {
    if n > 0 {
      MultiplesProduct(a, m, n - 1);
      var rest := Multiples(a, m, n - 1);
      var p, q := Prod(rest), Pow(a, n - 1) * Factorial(n - 1);
      assert Multiples(a, m, n)[1..] == rest && Multiples(a, m, n)[0] == (a * n) % m;
      ModMulLeft(a * n, p, m);
      ModMul(a * n, p, m);
      ModMul(a * n, q, m);
      RegroupFour(a, Pow(a, n - 1), n, Factorial(n - 1));
    }
  }

  lemma RegroupFour(a: int, b: int, c: int, d: int)
    ensures (a * b) * (c * d) == (a * c) * (b * d)
  {
    assert (a * b) * (c * d) == ((a * b) * c) * d;
    assert (a * b) * c == (a * c) * b;
    assert ((a * c) * b) * d == (a * c) * (b * d);
  }

  lemma {:induction false} PrimeDoesNotDivideFactorial(p: nat, n: nat)
    requires IsPrime(p) && n < p
    ensures Factorial(n) % p != 0
  {
    if n == 0 {
      ModUnique(1, p, 0, 1);
    } else {
      PrimeDoesNotDivideFactorial(p, n - 1);
      ModUnique(n, p, 0, n);
      if Factorial(n) % p == 0 {
        EuclidsLemma(p, n, Factorial(n - 1));
      }
    }
  }

  lemma MultiplesDistinct(p: nat, a: nat)
    requires IsPrime(p) && 1 <= a < p
    ensures Distinct(Multiples(a, p, p - 1))
    ensures Within(Multiples(a, p, p - 1), p - 1)
  {
    var s := Multiples(a, p, p - 1);
    forall i, j | 0 <= i < j < |s| ensures s[i] != s[j] {
      MultiplesDiffer(p, a, p - 1 - j, p - 1 - i);
    }
    forall i | 0 <= i < |s| ensures 1 <= s[i] <= p - 1 {
      MultiplesDiffer(p, a, 0, p - 1 - i);
      ModUnique(0, p, 0, 0);
    }
  }

  lemma MultiplesDiffer(p: nat, a: nat, x: nat, y: nat)
    requires IsPrime(p) && 1 <= a < p && x < y < p
    ensures (a * x) % p != (a * y) % p
  {
    if (a * x) % p == (a * y) % p {
      SameRemainder(a * y, a * x, p);
      assert a * y - a * x == a * (y - x);
      EuclidsLemma(p, a, y - x);
      SmallRemainder(a, p);
      SmallRemainder(y - x, p);
    }
  }

  /** Fermat's little theorem. */
  lemma Fermat(p: nat, a: nat)
    requires IsPrime(p) && 1 <= a < p
    ensures Pow(a, p - 1) % p == 1
  {
    var n := p - 1;
    var s := Multiples(a, p, n);
    MultiplesDistinct(p, a);
    PermutationProduct(s, n);
    MultiplesProduct(a, p, n);
    PrimeDoesNotDivideFactorial(p, n);
    CancelFactor(p, Pow(a, n), Factorial(n));
  }

  lemma CancelFactor(p: nat, w: int, f: nat)
    requires IsPrime(p) && (w * f) % p == f % p && f % p != 0
    ensures w % p == 1
  {
    SameRemainder(w * f, f, p);
    assert w * f - f == (w - 1) * f;
    EuclidsLemma(p, w - 1, f);
    SameRemainder(w, 1, p);
    ModUnique(1, p, 0, 1);
  }

  /** 1 has only two square roots modulo a prime. */
  lemma SquareRootsOfOne(p: nat, m: nat)
    requires IsPrime(p) && m < p && (m * m) % p == 1
    ensures m == 1 || m == p - 1
  {
    ModUnique(1, p, 0, 1);
    SameRemainder(m * m, 1, p);
    assert m * m - 1 == (m - 1) * (m + 1);
    EuclidsLemma(p, m - 1, m + 1);
    if (m - 1) % p == 0 {
      SameRemainder(m, 1, p);
      ModUnique(m, p, 0, m);
    } else {
      if m + 1 < p { ModUnique(m + 1, p, 0, m + 1); }
    }
  }
}
