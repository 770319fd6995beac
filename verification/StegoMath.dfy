/** src/utils/stego_math.cc: 64-bit modular arithmetic, the Miller-Rabin test over the global
    `rand()` stream, and the downward prime search. */
module StegoMath {
  import opened Bits
  import opened NumberTheory
  import opened PrimeCertificates

  const WORD: nat := 0x1_0000_0000_0000_0000

  /** The value left in a 64-bit register. */
  function Wrap(n: nat): (w: nat)
    ensures w < WORD
  {
    n % WORD
  }

  // ---------------------------------------------------------------- Gcd, Lcm, Log2

  method GcdLoop(a0: nat, b0: nat) returns (r: nat)
    requires b0 > 0
    ensures r == Gcd(a0, b0)
  {
    var a: nat, b: nat := a0, b0;
    while true
      invariant b > 0 && Gcd(a, b) == Gcd(a0, b0)
      decreases b
    {
      a := a % b;
      if a == 0 { return b; }
      b := b % a;
      assert Gcd(a, b) == Gcd(a0, b0);
      if b == 0 { return a; }
    }
  }

  method Lcm(a: nat, b: nat) returns (r: nat)
    requires b > 0
    ensures Gcd(a, b) > 0 && r == a * b / Gcd(a, b)
  {
    var g := GcdLoop(a, b);
    GcdDivides(a, b);
    r := a * b / g;
  }

  /** The number of significant bits. */
  function BitLength(n: nat): nat {
    if n == 0 then 0 else 1 + BitLength(n / 2)
  }

  lemma {:induction false} BitLengthBounds(n: nat)
    ensures n < Pow2(BitLength(n))
    ensures n > 0 ==> BitLength(n) > 0 && Pow2(BitLength(n) - 1) <= n
  {
    if n > 0 { BitLengthBounds(n / 2); }
  }

  lemma BitLengthUnique(n: nat, k: nat)
    requires k > 0 && Pow2(k - 1) <= n < Pow2(k)
    ensures BitLength(n) == k
  {
    BitLengthBounds(n);
    if BitLength(n) < k {
      Pow2Monotone(BitLength(n), k - 1);
    } else if BitLength(n) > k {
      Pow2Monotone(k, BitLength(n) - 1);
    }
  }

  lemma BitLengthCompares(n: nat, k: nat)
    ensures BitLength(n) <= k <==> n < Pow2(k)
  {
    BitLengthBounds(n);
    Pow2Monotone(BitLength(n), k);
    if BitLength(n) > 0 { Pow2Monotone(k, BitLength(n) - 1); }
  }

  /** The bit length of a power of two is one more than its logarithm. */
  lemma BitLengthOfPower(k: nat)
    ensures BitLength(Pow2(k)) == k + 1
  {
    BitLengthUnique(Pow2(k), k + 1);
  }

  /** The scan over leading zeros computes the bit length, not the logarithm its name says. */
  method Log2(number: nat) returns (r: nat)
    requires number < WORD
    ensures r == BitLength(number) && r <= 64
  {
    if number == 0 { return 0; }
    HighBitsClear(number);
    hide Shr;
    var leadingZeros: nat := 0;
    while Shr(number, 63 - leadingZeros) % 2 == 0
      invariant leadingZeros < 64
      invariant forall j: nat | j >= 64 - leadingZeros :: !Bit(number, j)
      decreases 64 - leadingZeros
    {
      assert !Bit(number, 63 - leadingZeros);
      leadingZeros := leadingZeros + 1;
    }
    r := 64 - leadingZeros;
    TopBit(number, r);
  }

  lemma HighBitsClear(n: nat)
    requires 0 < n < WORD
    ensures forall j: nat | j >= 64 :: !Bit(n, j)
    ensures !(forall j: nat :: !Bit(n, j))
  {
    Pow2Values();
    FitsIffHighBitsClear(n, 64);
    FitsIffHighBitsClear(n, 0);
  }

  lemma TopBit(n: nat, r: nat)
    requires r > 0 && Bit(n, r - 1) && forall j: nat | j >= r :: !Bit(n, j)
    ensures BitLength(n) == r
  {
    FitsIffHighBitsClear(n, r);
    FitsIffHighBitsClear(n, r - 1);
    BitLengthUnique(n, r);
  }

  // ---------------------------------------------------------------- Mulmod

  const FAST: nat := 0xFFFFFF

  /** Shift-and-add with every intermediate value cut to 64 bits. */
  function ShiftAdd(a: nat, b: nat, m: nat, res: nat): nat
    requires m > 0
    decreases a
  {
    if a == 0 then res
    else ShiftAdd(a / 2, Wrap(2 * b) % m, m, if a % 2 == 1 then Wrap(res + b) % m else res)
  }

  function MulmodWord(a: nat, b: nat, m: nat): nat
    requires m > 0
  {
    if a < FAST && b < FAST then Wrap(a * b) % m else ShiftAdd(a, b, m, 0)
  }

  method Mulmod(a0: nat, b0: nat, m: nat) returns (r: nat)
    requires 0 < m < WORD && a0 < WORD && b0 < WORD
    ensures r == MulmodWord(a0, b0, m)
  {
    var a: nat, b: nat := a0, b0;
    if a < FAST && b < FAST {
      return Wrap(a * b) % m;
    }
    var res: nat := 0;
    while a != 0
      invariant ShiftAdd(a, b, m, res) == ShiftAdd(a0, b0, m, 0)
      decreases a
    {
      if BitAnd(a, 1) != 0 { res := Wrap(res + b) % m; }
      MaskIsRemainder(a, 1);
      ShiftByOne(a);
      ShiftByOne(b);
      a := Shr(a, 1);
      b := Wrap(Shl(b, 1)) % m;
    }
    r := res;
  }

  lemma {:induction false} ShiftAddCorrect(a: nat, b: nat, m: nat, res: nat)
    requires 0 < m <= WORD / 2 && b < m && res < m
    ensures ShiftAdd(a, b, m, res) == (res + a * b) % m
    decreases a
  {
    if a == 0 {
      SmallRemainder(res, m);
    } else {
      SmallRemainder(2 * b, WORD);
      SmallRemainder(res + b, WORD);
      var res' := if a % 2 == 1 then (res + b) % m else res;
      ShiftAddCorrect(a / 2, (2 * b) % m, m, res');
      ShiftAddStep(a, b, m, res);
    }
  }

  lemma ShiftAddStep(a: nat, b: nat, m: nat, res: nat)
    requires m > 0 && res < m
    ensures var res' := if a % 2 == 1 then (res + b) % m else res;
            (res' + (a / 2) * ((2 * b) % m)) % m == (res + a * b) % m
  {
    var h, odd, b' := a / 2, a % 2, (2 * b) % m;
    var q := (2 * b) / m;
    assert 2 * b == m * q + b';
    assert h * (m * q) == m * (h * q);
    assert h * (2 * b) == h * b' + m * (h * q);
    assert a * b == h * (2 * b) + odd * b by {
      assert a == 2 * h + odd;
      assert (2 * h + odd) * b == h * (2 * b) + odd * b;
    }
    ModShift(res + odd * b + h * b', h * q, m);
    ModAddLeft(res + odd * b, h * b', m);
    SmallRemainder(res, m);
  }

  lemma {:induction false} ShiftAddBelow(a: nat, b: nat, m: nat, res: nat)
    requires m > 0 && res < m
    ensures ShiftAdd(a, b, m, res) < m
    decreases a
  {
    if a != 0 {
      ShiftAddBelow(a / 2, Wrap(2 * b) % m, m, if a % 2 == 1 then Wrap(res + b) % m else res);
    }
  }

  lemma MulmodBelow(a: nat, b: nat, m: nat)
    requires m > 0
    ensures MulmodWord(a, b, m) < m
  {
    ShiftAddBelow(a, b, m, 0);
  }

  lemma FastProductFits(a: nat, b: nat)
    requires a < FAST && b < FAST
    ensures Wrap(a * b) == a * b
  {
    ProductFits(a, b, FAST);
    SmallRemainder(a * b, WORD);
  }

  /** No intermediate value leaves 64 bits while the modulus is at most 2^63. */
  lemma MulmodCorrect(a: nat, b: nat, m: nat)
    requires 0 < m <= WORD / 2 && b < m
    ensures MulmodWord(a, b, m) == (a * b) % m
  {
    if a < FAST && b < FAST { FastProductFits(a, b); } else { ShiftAddCorrect(a, b, m, 0); }
  }

  lemma MulmodOverflows(m: nat)
    requires WORD / 2 < m < WORD
    ensures MulmodWord(2, m - 1, m) != (2 * (m - 1)) % m
  {
    var b := m - 1;
    var w := 2 * b - WORD;
    ModUnique(2 * b, WORD, 1, w);
    SmallRemainder(w, m);
    assert ShiftAdd(2, b, m, 0) == ShiftAdd(1, w, m, 0);
    assert ShiftAdd(1, w, m, 0) == ShiftAdd(0, Wrap(2 * w) % m, m, Wrap(0 + w) % m);
    SmallRemainder(w, WORD);
    assert ShiftAdd(2, b, m, 0) == w;
    ModUnique(2 * b, m, 1, m - 2);
  }

  /** Exactly the moduli up to 2^63 are safe: above it the doubling of m - 1 wraps. */
  lemma MulmodCorrectIffModulusFits(m: nat)
    requires 0 < m < WORD
    ensures m <= WORD / 2 <==>
            forall a: nat, b: nat | a < WORD && b < m :: MulmodWord(a, b, m) == (a * b) % m
  {
    if m <= WORD / 2 {
      forall a: nat, b: nat | a < WORD && b < m ensures MulmodWord(a, b, m) == (a * b) % m {
        MulmodCorrect(a, b, m);
      }
    } else {
      MulmodOverflows(m);
    }
  }

  // ---------------------------------------------------------------- Modulo

  /** Square-and-multiply; x and y live in 128-bit registers. */
  method Modulo(a: nat, b0: nat, c: nat) returns (r: nat)
    requires a < WORD && b0 < WORD && 0 < c < WORD
    ensures r == Pow(a, b0) % c
  {
    var x, y, b := 1, a, b0;
    while b > 0
      invariant 0 <= x < WORD && 0 <= y < WORD
      invariant (x * Pow(y, b)) % c == Pow(a, b0) % c
      decreases b
    {
      ProductFits(x, y, WORD);
      ProductFits(y, y, WORD);
      assert x * y < WORD * WORD && y * y < WORD * WORD;
      SquareStep(x, y, b, c);
      if b % 2 == 1 {
        x := (x * y) % c;
      }
      y := (y * y) % c;
      b := b / 2;
    }
    assert x * Pow(y, 0) == x;
    r := x % c;
  }

  lemma ProductFits(x: nat, y: nat, w: nat)
    requires x < w && y < w
    ensures x * y < w * w
  {
    if x > 0 {
      assert x * w == x * y + x * (w - y);
      MulAtLeast(x, w - y);
      assert w * w == x * w + (w - x) * w;
      MulAtLeast(w, w - x);
    }
  }

  lemma SquareStep(x: nat, y: nat, b: nat, c: nat)
    requires c > 0 && b > 0
    ensures var x' := if b % 2 == 1 then (x * y) % c else x;
            (x' * Pow((y * y) % c, b / 2)) % c == (x * Pow(y, b)) % c
  {
    var h := b / 2;
    var x', z := (if b % 2 == 1 then x * y else x), Pow(y * y, h);
    SquaredPower(y, h);
    PowModBase(y * y, h, c);
    ModMul(x', Pow((y * y) % c, h), c);
    ModMul(x', z, c);
    ModMulLeft(x * y, Pow((y * y) % c, h), c);
    if b % 2 == 1 {
      PowAdds(y, 1, 2 * h);
      assert Pow(y, 1) == y * Pow(y, 0);
      assert x * y * Pow(y, 2 * h) == x * (y * Pow(y, 2 * h));
    }
  }

  lemma {:induction false} SquaredPower(y: int, h: nat)
    ensures Pow(y * y, h) == Pow(y, 2 * h)
  {
    if h > 0 {
      SquaredPower(y, h - 1);
      assert Pow(y, 2 * h) == y * (y * Pow(y, 2 * h - 2));
      assert y * (y * Pow(y, 2 * h - 2)) == (y * y) * Pow(y, 2 * h - 2);
    }
  }

  // ---------------------------------------------------------------- Miller-Rabin

  const MR_ROUNDS: nat := 26

  function OddPart(n: nat): (s: nat)
    requires n > 0
    ensures s > 0 && s % 2 == 1 && s <= n
  {
    if n % 2 == 0 then OddPart(n / 2) else n
  }

  function Twos(n: nat): nat
    requires n > 0
  {
    if n % 2 == 0 then 1 + Twos(n / 2) else 0
  }

  lemma {:induction false} OddPartTimesTwos(n: nat)
    requires n > 0
    ensures n == OddPart(n) * Pow2(Twos(n))
  {
    if n % 2 == 0 {
      OddPartTimesTwos(n / 2);
      assert OddPart(n) * (2 * Pow2(Twos(n / 2))) == 2 * (OddPart(n) * Pow2(Twos(n / 2)));
    }
  }

  /** The squaring loop of one round; j squarings are left before the exponent is p - 1. */
  predicate SquaringPasses(mod: nat, temp: nat, j: nat, p: nat)
    requires p > 0
    decreases j
  {
    if j == 0 || mod == 1 || mod == p - 1 then mod == p - 1 || temp % 2 != 0
    else SquaringPasses(MulmodWord(mod, mod, p), 2 * temp, j - 1, p)
  }

  predicate RoundPasses(p: nat, a: nat)
    requires p >= 2
  {
    var s := OddPart(p - 1);
    SquaringPasses(Pow(a, s) % p, s, Twos(p - 1), p)
  }

  /** The base drawn by the i-th call of `rand()` after `srand`. */
  function Base(rand: nat -> nat, i: nat, p: nat): (a: nat)
    requires p >= 2
    ensures 1 <= a < p
  {
    rand(i) % (p - 1) + 1
  }

  /** The first of the rounds i.. that rejects p, or MR_ROUNDS. */
  function FirstRejection(p: nat, rand: nat -> nat, c: nat, i: nat): nat
    requires p >= 2 && i <= MR_ROUNDS
    decreases MR_ROUNDS - i, p
  {
    if i == MR_ROUNDS then MR_ROUNDS
    else if !RoundPasses(p, Base(rand, c + i, p)) then i
    else FirstRejection(p, rand, c, i + 1)
  }

  predicate Accepts(p: nat, rand: nat -> nat, c: nat) {
    p >= 2 && (p == 2 || p % 2 != 0) && FirstRejection(p, rand, c, 0) == MR_ROUNDS
  }

  /** How many calls of `rand()` the test makes. */
  function Calls(p: nat, rand: nat -> nat, c: nat): nat {
    if p < 2 || (p != 2 && p % 2 == 0) then 0
    else
      var f := FirstRejection(p, rand, c, 0);
      if f == MR_ROUNDS then MR_ROUNDS else f + 1
  }

  method MillerRabin(p: nat, rand: nat -> nat, c: nat) returns (ok: bool, c': nat)
    requires p < WORD
    ensures ok == Accepts(p, rand, c) && c' == c + Calls(p, rand, c)
  {
    if p < 2 { return false, c; }
    if p != 2 && p % 2 == 0 { return false, c; }
    var s := p - 1;
    while s % 2 == 0
      invariant 0 < s <= p - 1 && OddPart(s) == OddPart(p - 1)
      decreases s
    {
      s := s / 2;
    }
    c' := c;
    for i := 0 to MR_ROUNDS
      invariant c' == c + i
      invariant FirstRejection(p, rand, c, 0) == FirstRejection(p, rand, c, i)
    {
      var a := rand(c') % (p - 1) + 1;
      c' := c' + 1;
      var pass := Round(p, a, s);
      if !pass { return false, c'; }
    }
    return true, c';
  }

  lemma MoveTwo(temp: nat, j: nat)
    requires j > 0
    ensures temp * Pow2(j) == (2 * temp) * Pow2(j - 1)
  {
    assert temp * (2 * Pow2(j - 1)) == (2 * temp) * Pow2(j - 1);
  }

  method Round(p: nat, a: nat, s: nat) returns (pass: bool)
    requires 2 <= p < WORD && (p == 2 || p % 2 != 0) && 1 <= a < p && s == OddPart(p - 1)
    ensures pass == RoundPasses(p, a)
  {
    var temp := s;
    var mod := Modulo(a, temp, p);
    ghost var j := Twos(p - 1);
    OddPartTimesTwos(p - 1);
    while temp != p - 1 && mod != 1 && mod != p - 1
      invariant 0 <= mod < p && temp > 0 && p - 1 == temp * Pow2(j)
      invariant SquaringPasses(mod, temp, j, p) == RoundPasses(p, a)
      decreases j
    {
      MoveTwo(temp, j);
      MulmodBelow(mod, mod, p);
      mod := Mulmod(mod, mod, p);
      temp := temp * 2;
      j := j - 1;
    }
    if temp == p - 1 && j > 0 {
      MoveTwo(temp, j);
      MulAtLeast(2 * temp, Pow2(j - 1));
    }
    pass := !(mod != p - 1 && temp % 2 == 0);
  }

  /** The primes whose rounds compute no product that could leave 64 bits: those up to 2^63, and those
      of the form 4k + 3, whose rounds square nothing. */
  predicate RoundsStayExact(p: nat) { p <= WORD / 2 || p % 4 == 3 }

  /** The squaring chain of a prime never runs into a rejection: an even exponent with residue 1
      would give 1 a third square root, and the last exponent gives 1 by Fermat. */
  lemma {:induction false} PrimeSquaringPasses(p: nat, a: nat, mod: nat, temp: nat, j: nat)
    requires IsPrime(p) && p <= WORD / 2 && 1 <= a < p
    requires temp > 0 && p - 1 == temp * Pow2(j)
    requires mod == Pow(a, temp) % p && (temp % 2 == 1 || mod != 1)
    ensures SquaringPasses(mod, temp, j, p)
    decreases j
  {
    if j == 0 {
      assert temp == p - 1;
      Fermat(p, a);
    } else if mod != 1 && mod != p - 1 {
      MoveTwo(temp, j);
      MulmodCorrect(mod, mod, p);
      PowAdds(a, temp, temp);
      ModMul(Pow(a, temp), Pow(a, temp), p);
      var next := (mod * mod) % p;
      if next == 1 { SquareRootsOfOne(p, mod); }
      PrimeSquaringPasses(p, a, next, 2 * temp, j - 1);
    }
  }

  /** With an odd half of p - 1, the power the round begins with is 1 or -1. */
  lemma FirstPowerPasses(p: nat, a: nat)
    requires IsPrime(p) && p % 4 == 3 && 1 <= a < p
    ensures RoundPasses(p, a)
  {
    var s := (p - 1) / 2;
    assert OddPart(p - 1) == OddPart(s) == s && Twos(p - 1) == 1 + Twos(s) == 1;
    var mod := Pow(a, s) % p;
    PowAdds(a, s, s);
    ModMul(Pow(a, s), Pow(a, s), p);
    Fermat(p, a);
    SquareRootsOfOne(p, mod);
  }

  /** Whatever base is drawn, a round accepts a prime. */
  lemma PrimeRoundPasses(p: nat, a: nat)
    requires IsPrime(p) && RoundsStayExact(p) && 1 <= a < p
    ensures RoundPasses(p, a)
  {
    if p <= WORD / 2 {
      var s := OddPart(p - 1);
      OddPartTimesTwos(p - 1);
      PrimeSquaringPasses(p, a, Pow(a, s) % p, s, Twos(p - 1));
    } else {
      FirstPowerPasses(p, a);
    }
  }

  lemma {:induction false} NoRoundRejectsPrime(p: nat, rand: nat -> nat, c: nat, i: nat)
    requires IsPrime(p) && RoundsStayExact(p) && i <= MR_ROUNDS
    ensures FirstRejection(p, rand, c, i) == MR_ROUNDS
    decreases MR_ROUNDS - i
  {
    if i < MR_ROUNDS {
      PrimeRoundPasses(p, Base(rand, c + i, p));
      NoRoundRejectsPrime(p, rand, c, i + 1);
    }
  }

  /** Miller-Rabin accepts every prime up to 2^63, and above it every prime of the form 4k + 3, for
      every stream of `rand()` results. */
  lemma MillerRabinAcceptsPrimes(p: nat, rand: nat -> nat, c: nat)
    requires IsPrime(p) && RoundsStayExact(p)
    ensures Accepts(p, rand, c)
  {
    if p != 2 { assert p % 2 != 0; }
    NoRoundRejectsPrime(p, rand, c, 0);
  }

  // ---------------------------------------------------------------- which primes are accepted

  /** The squaring chain passes from every root of 1 of order 2^t, where p - 1 = s * 2^t with s odd. */
  ghost predicate RootsPass(p: nat)
    requires p >= 2
  {
    forall x: nat | IsRoot(x, p) :: SquaringPasses(x, OddPart(p - 1), Twos(p - 1), p)
  }

  ghost predicate IsRoot(x: nat, p: nat)
    requires p >= 2
  {
    1 <= x < p && Pow(x, Pow2(Twos(p - 1))) % p == 1
  }

  /** A round begins with such a root, whatever its base. */
  lemma FirstPowerIsRoot(p: nat, a: nat)
    requires IsPrime(p) && 1 <= a < p
    ensures IsRoot(Pow(a, OddPart(p - 1)) % p, p)
  {
    var s, n := OddPart(p - 1), Pow2(Twos(p - 1));
    var x := Pow(a, s) % p;
    OddPartTimesTwos(p - 1);
    Fermat(p, a);
    PowOfPow(a, s, n);
    PowModBase(Pow(a, s), n, p);
    if x == 0 { ZeroPower(n, p); }
  }

  lemma ZeroPower(n: nat, p: nat)
    requires n > 0 && p >= 2
    ensures Pow(0, n) % p == 0
  {
    assert Pow(0, n) == 0;
    SmallRemainder(0, p);
  }

  /** Every such root begins a round: s is odd, so it has an inverse modulo 2^t. */
  lemma RootIsFirstPower(p: nat, x: nat) returns (a: nat)
    requires IsPrime(p) && p > 2 && IsRoot(x, p)
    ensures 1 <= a < p && Pow(a, OddPart(p - 1)) % p == x
  {
    var s, n := OddPart(p - 1), Pow2(Twos(p - 1));
    OddPartTimesTwos(p - 1);
    assert p % 2 != 0;
    var w := OddInverse(s, Twos(p - 1));
    var k := (w * s) / n;
    assert w * s == n * k + 1;
    a := Pow(x, w) % p;
    PowModBase(Pow(x, w), s, p);
    PowOfPow(x, w, s);
    PowAdds(x, 1, n * k);
    assert Pow(x, 1) == x * Pow(x, 0);
    PowOfOne(x, n, k, p);
    ModMul(x, Pow(x, n * k), p);
    SmallRemainder(x, p);
    if a == 0 { ZeroPower(s, p); }
  }

  /** A stream that draws one base only. */
  function Always(a: nat): nat -> nat
    requires a > 0
  {
    _ => a - 1
  }

  lemma AlwaysDraws(p: nat, a: nat, c: nat, i: nat)
    requires 1 <= a < p
    ensures Base(Always(a), c + i, p) == a
  {
    SmallRemainder(a - 1, p - 1);
  }

  lemma {:induction false} NoRoundRejects(p: nat, rand: nat -> nat, c: nat, i: nat)
    requires IsPrime(p) && RootsPass(p) && i <= MR_ROUNDS
    ensures FirstRejection(p, rand, c, i) == MR_ROUNDS
    decreases MR_ROUNDS - i
  {
    if i < MR_ROUNDS {
      FirstPowerIsRoot(p, Base(rand, c + i, p));
      NoRoundRejects(p, rand, c, i + 1);
    }
  }

  lemma SomeStreamRejects(p: nat) returns (rand: nat -> nat)
    requires IsPrime(p) && p >= 3 && !RootsPass(p)
    ensures !Accepts(p, rand, 0)
  {
    var x :| IsRoot(x, p) && !SquaringPasses(x, OddPart(p - 1), Twos(p - 1), p);
    var a := RootIsFirstPower(p, x);
    AlwaysDraws(p, a, 0, 0);
    rand := Always(a);
  }

  lemma TwoRootsPass()
    ensures RootsPass(2)
  {
    assert Twos(1) == 0 && OddPart(1) == 1;
  }

  /** Exactly the primes all of whose roots pass are accepted for every stream of `rand()` results. */
  lemma MillerRabinAcceptsIff(p: nat)
    requires IsPrime(p)
    ensures RootsPass(p) <==> forall rand: nat -> nat, c: nat :: Accepts(p, rand, c)
  {
    if p == 2 { TwoRootsPass(); } else { assert p % 2 != 0; }
    if RootsPass(p) {
      forall rand: nat -> nat, c: nat ensures Accepts(p, rand, c) { NoRoundRejects(p, rand, c, 0); }
    } else {
      var rand := SomeStreamRejects(p);
    }
  }

  lemma ExactRoundsPass(p: nat)
    requires IsPrime(p) && RoundsStayExact(p)
    ensures RootsPass(p)
  {
    forall rand: nat -> nat, c: nat ensures Accepts(p, rand, c) { MillerRabinAcceptsPrimes(p, rand, c); }
    MillerRabinAcceptsIff(p);
  }

  /** What a round makes of a square root of -1 when p = 8k + 5: two products of words. */
  predicate MinusOneIsMet(i: nat, p: nat)
    requires p > 0
  {
    var y := MulmodWord(i, i, p);
    y == p - 1 || (y != 1 && MulmodWord(y, y, p) == p - 1)
  }

  /** A prime 8k + 5 is accepted for every stream exactly when both square roots of -1 pass. */
  lemma FiveModEight(p: nat)
    requires IsPrime(p) && p % 8 == 5
    ensures (forall rand: nat -> nat, c: nat :: Accepts(p, rand, c)) <==>
            forall i: nat | i < p && (i * i) % p == p - 1 :: MinusOneIsMet(i, p)
  {
    MillerRabinAcceptsIff(p);
    FactorsOfFiveModEight(p);
    forall x: nat | x < p
      ensures IsRoot(x, p) <==> x == 1 || x == p - 1 || (x * x) % p == p - 1
      ensures SquaringPasses(x, OddPart(p - 1), 2, p) <==> x == 1 || x == p - 1 || MinusOneIsMet(x, p)
    {
      FourthRoots(p, x);
      TwoSquarings(p, x, OddPart(p - 1));
    }
    hide SquaringPasses, IsRoot;
    if RootsPass(p) {
      forall i: nat | i < p && (i * i) % p == p - 1 ensures MinusOneIsMet(i, p) {
        RootsOfMinusOne(p, i);
        assert IsRoot(i, p);
      }
    }
  }

  lemma FactorsOfFiveModEight(p: nat)
    requires p % 8 == 5
    ensures OddPart(p - 1) == (p - 1) / 4 && Twos(p - 1) == 2
  {
    assert OddPart(p - 1) == OddPart((p - 1) / 2) == OddPart((p - 1) / 4);
    assert Twos(p - 1) == 1 + Twos((p - 1) / 2) == 2 + Twos((p - 1) / 4);
  }

  lemma TwoSquarings(p: nat, x: nat, s: nat)
    requires p > 0 && s % 2 == 1
    ensures SquaringPasses(x, s, 2, p) <==> x == 1 || x == p - 1 || MinusOneIsMet(x, p)
  {
    hide MulmodWord;
    var y := MulmodWord(x, x, p);
    assert SquaringPasses(x, s, 2, p) == (x == 1 || x == p - 1 || SquaringPasses(y, 2 * s, 1, p));
    assert SquaringPasses(y, 2 * s, 1, p) ==
      if y == 1 || y == p - 1 then y == p - 1 else SquaringPasses(MulmodWord(y, y, p), 4 * s, 0, p);
  }

  /** A square root of -1 is neither 1 nor -1. */
  lemma RootsOfMinusOne(p: nat, i: nat)
    requires p > 2 && i < p && (i * i) % p == p - 1
    ensures i != 1 && i != p - 1
  {
    SmallRemainder(1, p);
    assert (p - 1) * (p - 1) == p * (p - 2) + 1;
    ModUnique((p - 1) * (p - 1), p, p - 2, 1);
  }

  lemma FourthRoots(p: nat, x: nat)
    requires IsPrime(p) && p % 8 == 5 && x < p
    ensures IsRoot(x, p) <==> x == 1 || x == p - 1 || (x * x) % p == p - 1
  {
    FactorsOfFiveModEight(p);
    assert Pow2(2) == 2 * Pow2(1) && Pow2(1) == 2 * Pow2(0);
    assert Pow(x, 2) == x * Pow(x, 1) && Pow(x, 1) == x * Pow(x, 0);
    PowAdds(x, 2, 2);
    var y := (x * x) % p;
    ModMul(x * x, x * x, p);
    assert Pow(x, 4) % p == (y * y) % p;
    SmallRemainder(1, p);
    ModUnique((p - 1) * (p - 1), p, p - 2, 1);
    if (y * y) % p == 1 {
      SquareRootsOfOne(p, y);
      if y == 1 { SquareRootsOfOne(p, x); }
    }
    if x == 0 { SmallRemainder(0, p); }
  }

  // ---------------------------------------------------------------- which numbers are accepted

  predicate MinusOneAt(a: nat, e: nat, p: nat)
    requires p > 0
  {
    Pow(a, e) % p == p - 1
  }

  /** The base a does not show that p is composite, where p - 1 = s * 2^t with s odd: its power s is 1,
      or -1 after fewer than t squarings. */
  ghost predicate NoWitness(p: nat, s: nat, t: nat, a: nat)
    requires p > 0
  {
    Pow(a, s) % p == 1 || exists j: nat :: j < t && MinusOneAt(a, s * Pow2(j), p)
  }

  ghost predicate ReachesMinusOneWithin(a: nat, e: nat, j: nat, p: nat)
    requires p > 0
  {
    exists i: nat :: i <= j && MinusOneAt(a, e * Pow2(i), p)
  }

  lemma ReachesAtOnce(a: nat, e: nat, j: nat, p: nat)
    requires p > 0
    ensures MinusOneAt(a, e, p) ==> ReachesMinusOneWithin(a, e, j, p)
    ensures j == 0 && ReachesMinusOneWithin(a, e, j, p) ==> MinusOneAt(a, e, p)
  {
    assert e * Pow2(0) == e;
  }

  /** After one squaring there is one fewer left. */
  lemma ReachesLater(a: nat, e: nat, j: nat, p: nat)
    requires p > 0 && j > 0 && !MinusOneAt(a, e, p)
    ensures ReachesMinusOneWithin(a, e, j, p) <==> ReachesMinusOneWithin(a, 2 * e, j - 1, p)
  {
    if ReachesMinusOneWithin(a, e, j, p) {
      var i: nat :| i <= j && MinusOneAt(a, e * Pow2(i), p);
      assert e * Pow2(0) == e;
      MoveTwo(e, i);
      assert MinusOneAt(a, (2 * e) * Pow2(i - 1), p);
    }
    if ReachesMinusOneWithin(a, 2 * e, j - 1, p) {
      var i: nat :| i <= j - 1 && MinusOneAt(a, (2 * e) * Pow2(i), p);
      MoveTwo(e, i + 1);
      assert MinusOneAt(a, e * Pow2(i + 1), p);
    }
  }

  /** Once 1 has been reached, -1 is not. */
  lemma OneStaysOne(a: nat, e: nat, j: nat, p: nat)
    requires p > 2 && Pow(a, e) % p == 1
    ensures !ReachesMinusOneWithin(a, e, j, p)
  {
    forall i: nat | i <= j ensures !MinusOneAt(a, e * Pow2(i), p) { PowOfOne(a, e, Pow2(i), p); }
  }

  lemma {:induction false} ChainPasses(p: nat, a: nat, mod: nat, temp: nat, j: nat)
    requires 2 < p <= WORD / 2 && p % 2 == 1 && temp > 0 && p - 1 == temp * Pow2(j) && mod == Pow(a, temp) % p
    ensures SquaringPasses(mod, temp, j, p) <==>
            (mod == 1 && temp % 2 == 1) || ReachesMinusOneWithin(a, temp, j, p)
    decreases j
  {
    hide ReachesMinusOneWithin, Pow;
    ReachesAtOnce(a, temp, j, p);
    if j == 0 {
      assert temp == p - 1;
    } else if mod == 1 {
      OneStaysOne(a, temp, j, p);
    } else if mod != p - 1 {
      ReachesLater(a, temp, j, p);
      MoveTwo(temp, j);
      MulmodCorrect(mod, mod, p);
      PowAdds(a, temp, temp);
      ModMul(Pow(a, temp), Pow(a, temp), p);
      ChainPasses(p, a, (mod * mod) % p, 2 * temp, j - 1);
    }
  }

  /** A round passes exactly when its base is no witness. */
  lemma RoundPassesIff(p: nat, s: nat, t: nat, a: nat)
    requires 2 < p <= WORD / 2 && p % 2 == 1 && s % 2 == 1 && p - 1 == s * Pow2(t)
    ensures RoundPasses(p, a) <==> NoWitness(p, s, t, a)
  {
    OddPartOfProduct(s, t);
    ChainPasses(p, a, Pow(a, s) % p, s, t);
    NeverMinusOne(p, s, t, a);
  }

  predicate PassesDraw(p: nat, rand: nat -> nat, n: nat)
    requires p >= 2
  {
    RoundPasses(p, Base(rand, n, p))
  }

  lemma {:induction false} NoRejection(p: nat, rand: nat -> nat, c: nat, i: nat)
    requires p >= 2 && i <= MR_ROUNDS
    ensures FirstRejection(p, rand, c, i) == MR_ROUNDS <==>
            forall n: nat | c + i <= n < c + MR_ROUNDS :: PassesDraw(p, rand, n)
    decreases MR_ROUNDS - i
  {
    hide RoundPasses;
    if i < MR_ROUNDS {
      NoRejection(p, rand, c, i + 1);
      assert PassesDraw(p, rand, c + i) == RoundPasses(p, Base(rand, c + i, p));
    }
  }

  /** The test accepts an odd number up to 2^63, prime or not, exactly when none of the 26 bases it
      draws is a witness; of the even numbers it accepts 2. */
  lemma AcceptsIff(p: nat, s: nat, t: nat, rand: nat -> nat, c: nat)
    requires p % 2 == 1 ==> 3 <= p <= WORD / 2 && s % 2 == 1 && p - 1 == s * Pow2(t)
    ensures p % 2 == 1 ==>
              (Accepts(p, rand, c) <==> forall n: nat | c <= n < c + 26 :: NoWitness(p, s, t, rand(n) % (p - 1) + 1))
    ensures p % 2 == 0 ==> (Accepts(p, rand, c) <==> p == 2)
  {
    if p % 2 == 1 {
      AcceptsOdd(p, rand, c);
      forall n: nat
        ensures PassesDraw(p, rand, n) <==> NoWitness(p, s, t, rand(n) % (p - 1) + 1)
      {
        RoundPassesIff(p, s, t, Base(rand, n, p));
      }
    } else if p == 2 {
      TwoIsPrime();
      MillerRabinAcceptsPrimes(2, rand, c);
    }
  }

  lemma AcceptsOdd(p: nat, rand: nat -> nat, c: nat)
    requires p % 2 == 1 && p >= 3
    ensures Accepts(p, rand, c) <==> forall n: nat | c <= n < c + 26 :: PassesDraw(p, rand, n)
  {
    hide FirstRejection, PassesDraw;
    NoRejection(p, rand, c, 0);
  }

  lemma TwoIsPrime()
    ensures IsPrime(2)
  {}

  /** Base 1 proves nothing: a stream that draws only it makes the test accept every odd number. */
  lemma {:induction false} BaseOneAccepts(n: nat, rand: nat -> nat, i: nat)
    requires n >= 3 && i <= MR_ROUNDS && forall k: nat :: rand(k) % (n - 1) == 0
    ensures FirstRejection(n, rand, 0, i) == MR_ROUNDS
    decreases MR_ROUNDS - i
  {
    if i < MR_ROUNDS {
      PowerOfOne(OddPart(n - 1));
      SmallRemainder(1, n);
      assert RoundPasses(n, 1);
      assert Base(rand, i, n) == 1;
      BaseOneAccepts(n, rand, i + 1);
    }
  }

  lemma {:induction false} PowerOfOne(e: nat)
    ensures Pow(1, e) == 1
  {
    if e > 0 { PowerOfOne(e - 1); }
  }

  // ---------------------------------------------------------------- prime search

  function SearchDown(n: nat, rand: nat -> nat, c: nat): (r: nat)
    ensures r <= n
    decreases n
  {
    if Accepts(n, rand, c) || n <= 2 then n
    else SearchDown(n - 2, rand, c + Calls(n, rand, c))
  }

  /** The search reseeds (`srand(2)`), so its result is a function of the number alone. */
  function SmallerPrime(number: nat, rand: nat -> nat): (r: nat)
    ensures r <= number
  {
    if number < 2 then 0
    else
      var r := SearchDown(if number % 2 == 0 then number - 1 else number, rand, 0);
      if r > 1 then r else 0
  }

  method ClosestSmallerPrime(n: nat, rand: nat -> nat) returns (r: nat)
    requires n < WORD
    ensures r == SmallerPrime(n, rand)
  {
    hide Accepts, Calls;
    if n < 2 { return 0; }
    var number: nat := n;
    if number % 2 == 0 { number := number - 1; }
    var c: nat := 0;
    ghost var start: nat, before: nat := number, c;
    var ok: bool;
    ok, c := MillerRabin(number, rand, c);
    while !ok && number > 2
      invariant number <= start
      invariant ok == Accepts(number, rand, before) && c == before + Calls(number, rand, before)
      invariant SearchDown(number, rand, before) == SearchDown(start, rand, 0)
      decreases number
    {
      number, before := number - 2, c;
      ok, c := MillerRabin(number, rand, c);
    }
    if number > 1 { return number; } else { return 0; }
  }

  /** The answer of the search has passed the test, and every odd number it has passed over has failed. */
  lemma {:induction false} SearchTests(n: nat, rand: nat -> nat, c: nat) returns (c': nat)
    requires n % 2 == 1
    ensures var r := SearchDown(n, rand, c);
            && r % 2 == 1 && (r >= 3 ==> Accepts(r, rand, c'))
            && forall m: nat | r < m <= n && m % 2 == 1 :: FailsSomewhere(m, rand)
    decreases n
  {
    hide Accepts, Calls;
    c' := c;
    if !(Accepts(n, rand, c) || n <= 2) {
      assert FailsSomewhere(n, rand);
      c' := SearchTests(n - 2, rand, c + Calls(n, rand, c));
    }
  }

  ghost predicate FailsSomewhere(m: nat, rand: nat -> nat) { exists c: nat :: !Accepts(m, rand, c) }

  lemma SearchAnswerPasses(number: nat, rand: nat -> nat) returns (c: nat)
    ensures var r := SmallerPrime(number, rand);
            && r <= number && (r >= 3 <==> number >= 3)
            && (r >= 3 ==> r % 2 == 1 && Accepts(r, rand, c))
            && (r >= 3 ==> forall m: nat | r < m <= number && m % 2 == 1 :: FailsSomewhere(m, rand))
  {
    c := 0;
    if number >= 3 {
      SearchMissesOnlyTwo(number, rand);
      c := SearchTests(if number % 2 == 0 then number - 1 else number, rand, 0);
    }
  }

  lemma {:induction false} SearchSkipsNoPrime(n: nat, rand: nat -> nat, c: nat, q: nat)
    requires n % 2 == 1
    requires IsPrime(q) && RootsPass(q) && q <= n && q != 2
    ensures q <= SearchDown(n, rand, c)
    decreases n
  {
    assert q % 2 != 0;
    if !(Accepts(n, rand, c) || n <= 2) {
      if q == n { MillerRabinAcceptsIff(q); }
      SearchSkipsNoPrime(n - 2, rand, c + Calls(n, rand, c), q);
    }
  }

  lemma ThreeIsPrime()
    ensures IsPrime(3)
  {
    assert 3 % 2 == 1;
  }

  /** No prime whose roots pass lies strictly above the result and at or below the number, except that
      the search misses the prime 2 when asked for it. */
  lemma SearchMissesOnlyTwo(number: nat, rand: nat -> nat)
    ensures (forall q: nat | IsPrime(q) && RootsPass(q) && q <= number :: q <= SmallerPrime(number, rand)) <==>
        number != 2
    ensures number >= 3 ==> 3 <= SmallerPrime(number, rand)
    ensures number < 3 ==> SmallerPrime(number, rand) == 0
  {
    hide RootsPass;
    var m := if number % 2 == 0 then number - 1 else number;
    if number >= 3 {
      ThreeIsPrime();
      ExactRoundsPass(3);
      SearchSkipsNoPrime(m, rand, 0, 3);
      forall q: nat | IsPrime(q) && RootsPass(q) && q <= number ensures q <= SmallerPrime(number, rand) {
        if q != 2 {
          assert q % 2 != 0;
          SearchSkipsNoPrime(m, rand, 0, q);
        }
      }
    } else if number == 2 {
      assert IsPrime(2);
      ExactRoundsPass(2);
      assert SearchDown(1, rand, 0) == 1;
    }
  }

  /** Exactly the odd primes whose roots pass are never stepped over, and each of them is its own
      closest prime. */
  lemma NeverMissedIff(q: nat)
    requires IsPrime(q) && q >= 3
    ensures RootsPass(q) <==> forall number: nat, rand: nat -> nat | q <= number :: q <= SmallerPrime(number, rand)
    ensures RootsPass(q) <==> forall rand: nat -> nat :: SmallerPrime(q, rand) == q
  {
    hide IsPrime, RootsPass;
    OddPrime(q);
    if RootsPass(q) {
      forall number: nat, rand: nat -> nat | q <= number ensures q <= SmallerPrime(number, rand) {
        SearchMissesOnlyTwo(number, rand);
      }
    } else {
      var rand := SomeStreamRejects(q);
      assert SmallerPrime(q, rand) < q;
    }
  }

  lemma OddPrime(q: nat)
    requires IsPrime(q) && q >= 3
    ensures q % 2 == 1
  {
    assert q % 2 != 0;
  }

  // ---------------------------------------------------------------- a prime that is rejected

  lemma {:induction false} OddPartOfProduct(m: nat, k: nat)
    requires m % 2 == 1
    ensures m * Pow2(k) > 0 && OddPart(m * Pow2(k)) == m && Twos(m * Pow2(k)) == k
  {
    if k > 0 {
      OddPartOfProduct(m, k - 1);
      assert m * Pow2(k) == 2 * (m * Pow2(k - 1));
    }
  }

  lemma {:induction false} AddingZeros(a: nat, m: nat)
    requires m > 0
    ensures ShiftAdd(a, 0, m, 0) == 0
    decreases a
  {
    if a > 0 {
      SmallRemainder(0, m);
      AddingZeros(a / 2, m);
    }
  }

  /** Doubling 2^63 leaves nothing of it in 64 bits. */
  lemma SquareVanishes(m: nat)
    requires m > 0
    ensures MulmodWord(WORD / 2, WORD / 2, m) == 0
  {
    SmallRemainder(0, m);
    ModUnique(WORD, WORD, 1, 0);
    AddingZeros(WORD / 4, m);
  }

  lemma {:induction false} ZeroIsRejected(temp: nat, j: nat, p: nat)
    requires p > 2 && temp % 2 == 0
    ensures !SquaringPasses(0, temp, j, p)
    decreases j
  {
    if j > 0 {
      SmallRemainder(0, p);
      ZeroIsRejected(2 * temp, j - 1, p);
    }
  }

  /** Modulo 2^64 - 2^32 + 1, the power 96 of 2 is -1. */
  lemma PowerOfTwoWraps()
    ensures Pow(2, 0xFFFF_FFFF) % LARGE_PRIME == WORD / 2
  {
    var p := LARGE_PRIME;
    hide Pow;
    PowersOfTwo();
    ModUnique(0x1_0000_0000_0000_0000_0000_0000, p, 0x1_0000_0000, p - 1);
    PowAdds(2, 96, 96);
    ModMul(Pow(2, 96), Pow(2, 96), p);
    ModUnique((p - 1) * (p - 1), p, p - 2, 1);
    PowOfOne(2, 192, 22369621, p);
    PowAdds(2, 192 * 22369621, 63);
    ModMulLeft(Pow(2, 192 * 22369621), Pow(2, 63), p);
    SmallRemainder(WORD / 2, p);
  }

  lemma PowersOfTwo()
    ensures Pow(2, 63) == WORD / 2 && Pow(2, 96) == 0x1_0000_0000_0000_0000_0000_0000
  {
    assert Pow(2, 3) == 8 by { assert Pow(2, 2) == 2 * Pow(2, 1); assert Pow(2, 1) == 2 * Pow(2, 0); }
    hide Pow;
    PowAdds(2, 3, 3);
    PowAdds(2, 6, 6);
    PowAdds(2, 12, 12);
    PowAdds(2, 24, 24);
    PowAdds(2, 48, 48);
    PowAdds(2, 48, 12);
    PowAdds(2, 60, 3);
  }

  lemma LargePrimeFactors()
    ensures OddPart(LARGE_PRIME - 1) == 0xFFFF_FFFF && Twos(LARGE_PRIME - 1) == 32
  {
    Pow2Values();
    OddPartOfProduct(0xFFFF_FFFF, 32);
  }

  /** In the round of base 2 the first power is 2^63, and its square vanishes. */
  lemma BaseTwoRejects()
    ensures !RoundPasses(LARGE_PRIME, 2)
  {
    hide Pow, OddPart, Twos, MulmodWord;
    LargePrimeFactors();
    PowerOfTwoWraps();
    SquareVanishes(LARGE_PRIME);
    ZeroIsRejected(2 * 0xFFFF_FFFF, 31, LARGE_PRIME);
  }

  /** Above 2^63 the test can reject a prime: 2^64 - 2^32 + 1 fails the round of base 2. */
  lemma LargePrimeIsRejected(rand: nat -> nat, c: nat)
    requires rand(c) % (LARGE_PRIME - 1) == 1
    ensures IsPrime(LARGE_PRIME) && WORD / 2 < LARGE_PRIME < WORD && LARGE_PRIME % 4 == 1
    ensures !Accepts(LARGE_PRIME, rand, c)
  {
    hide RoundPasses, IsPrime;
    LargePrimeIsPrime();
    BaseTwoRejects();
    assert FirstRejection(LARGE_PRIME, rand, c, 0) == 0;
  }

  /** The search then passes over it. */
  lemma SearchMissesALargePrime(rand: nat -> nat)
    requires rand(0) % (LARGE_PRIME - 1) == 1
    ensures IsPrime(LARGE_PRIME) && SmallerPrime(LARGE_PRIME, rand) < LARGE_PRIME
  {
    LargePrimeIsRejected(rand, 0);
    hide Accepts, IsPrime;
    assert SearchDown(LARGE_PRIME, rand, 0) == SearchDown(LARGE_PRIME - 2, rand, Calls(LARGE_PRIME, rand, 0));
  }
}
