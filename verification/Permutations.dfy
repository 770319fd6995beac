/** What the permutations of src/permutations compute, as functions of their parameters, and
    the proof that each is a bijection of [0, size). */
module Permutations {
  import opened Bits
  import opened NumberTheory
  import opened StegoMath
  import opened Outcomes

  const ROUNDS: nat := 5
  const MIN_REQUESTED_SIZE: nat := 1024
  const MAX_AFFINE_SIZE: nat := 0xFFFF_FFFF

  /** Everything a permutation takes from a key: its length, the xor-folded 64-bit words of its
      two halves, and the 32-bit hash words derived from it for table t, entry i. */
  datatype Key = Key(size: nat, foldA: nat, foldB: nat, word: (nat, nat) -> nat)

  type Tables = seq<seq<nat>>

  datatype Kind = IdentityKind | AffineKind | Affine64Kind | NumFeistelKind | MixFeistelKind

  /** The parameters of an initialised permutation. */
  datatype Perm =
    | Identity(n: nat)
    | Affine(n: nat, a: nat, b: nat)
    | Affine64(n: nat, a: nat, b: nat)
    | NumFeistel(modulus: nat, tables: Tables)
    | MixFeistel(leftMod: nat, rightBits: nat, tables: Tables)
  {
    function Size(): nat {
      match this
      case NumFeistel(m, _) => m * m
      case MixFeistel(l, r, _) => l * Pow2(r)
      case _ => n
    }

    ghost predicate Valid() {
      match this
      case Identity(n) => true
      case Affine(n, a, b) => 0 < n && Gcd(a, n) == 1
      case Affine64(n, a, b) => 0 < n <= WORD / 2 && a < n && Gcd(a, n) == 1
      case NumFeistel(m, t) => 0 < m && Shaped(t, m)
      case MixFeistel(l, r, t) => 0 < l <= Pow2(r) && Shaped(t, Pow2(r))
    }

    function Apply(i: nat): nat
      requires Valid() && i < Size()
    {
      match this
      case Identity(_) => i
      case Affine(n, a, b) => ((i * a) % n + b) % n
      case Affine64(n, a, b) => (MulmodWord(i, a, n) + b) % n
      case NumFeistel(m, t) => NumApply(m, t, i)
      case MixFeistel(l, r, t) => MixApply(l, r, t, i)
    }
  }

  predicate Shaped(t: Tables, width: nat) {
    |t| == ROUNDS && forall r | 0 <= r < ROUNDS :: |t[r]| == width
  }

  ghost predicate Bijective(p: Perm)
    requires p.Valid()
  {
    && (forall i: nat | i < p.Size() :: p.Apply(i) < p.Size())
    && (forall i: nat, j: nat | i < p.Size() && j < p.Size() && p.Apply(i) == p.Apply(j) :: i == j)
    && (forall y: nat | y < p.Size() :: Reached(p, y))
  }

  ghost predicate Reached(p: Perm, y: nat)
    requires p.Valid()
  {
    exists i: nat :: i < p.Size() && p.Apply(i) == y
  }

  // ---------------------------------------------------------------- halves of an index

  datatype Halves = Halves(left: nat, right: nat) {
    ghost predicate Fits(l: nat, r: nat) {
      left < l && right < r
    }
  }

  lemma HalvesFit(i: nat, l: nat, r: nat)
    requires i < l * r
    ensures l > 0 && r > 0 && i / r < l && i % r < r
    ensures i == (i / r) * r + i % r
  {
    PositiveFactor(l, r);
    MulMonotone(l, i / r, r);
    assert i == r * (i / r) + i % r;
    assert r * (i / r) == (i / r) * r;
  }

  lemma PositiveFactor(l: nat, r: nat)
    requires l * r > 0
    ensures l > 0 && r > 0
  {}

  lemma JoinHalves(left: nat, right: nat, l: nat, r: nat)
    requires left < l && right < r
    ensures left * r + right < l * r
    ensures (left * r + right) / r == left && (left * r + right) % r == right
  {
    assert left * r == r * left;
    ModUnique(left * r + right, r, left, right);
    assert l * r == left * r + (l - left) * r;
    MulAtLeast(r, l - left);
    assert r * (l - left) == (l - left) * r;
  }

  // ---------------------------------------------------------------- numeric Feistel

  function AddMod(x: nat, h: int, m: nat): (y: nat)
    requires m > 0
    ensures y < m
  {
    (x + h) % m
  }

  function NumRound(m: nat, t: Tables, r: nat, s: Halves): Halves
    requires 0 < m && Shaped(t, m) && r < ROUNDS && s.Fits(m, m)
  {
    if r % 2 == 1 then Halves(s.left, AddMod(s.right, t[r][s.left], m))
    else Halves(AddMod(s.left, t[r][s.right], m), s.right)
  }

  function NumUnround(m: nat, t: Tables, r: nat, s: Halves): Halves
    requires 0 < m && Shaped(t, m) && r < ROUNDS && s.Fits(m, m)
  {
    if r % 2 == 1 then Halves(s.left, AddMod(s.right, -(t[r][s.left] as int), m))
    else Halves(AddMod(s.left, -(t[r][s.right] as int), m), s.right)
  }

  /** The rounds r, r + 1, ... applied to the halves. */
  function NumForward(m: nat, t: Tables, r: nat, s: Halves): (s': Halves)
    requires 0 < m && Shaped(t, m) && r <= ROUNDS && s.Fits(m, m)
    ensures s'.Fits(m, m)
    decreases ROUNDS - r, m
  {
    if r == ROUNDS then s else NumForward(m, t, r + 1, NumRound(m, t, r, s))
  }

  /** The same rounds undone, last one first. */
  function NumBackward(m: nat, t: Tables, r: nat, s: Halves): (s': Halves)
    requires 0 < m && Shaped(t, m) && r <= ROUNDS && s.Fits(m, m)
    ensures s'.Fits(m, m)
    decreases ROUNDS - r, m
  {
    if r == ROUNDS then s else NumUnround(m, t, r, NumBackward(m, t, r + 1, s))
  }

  function NumApply(m: nat, t: Tables, i: nat): nat
    requires 0 < m && Shaped(t, m) && i < m * m
  {
    HalvesFit(i, m, m);
    var s := NumForward(m, t, 0, Halves(i / m, i % m));
    s.left * m + s.right
  }

  function NumInvert(m: nat, t: Tables, i: nat): nat
    requires 0 < m && Shaped(t, m) && i < m * m
  {
    HalvesFit(i, m, m);
    var s := NumBackward(m, t, 0, Halves(i / m, i % m));
    s.left * m + s.right
  }

  lemma AddModUndone(x: nat, h: int, m: nat)
    requires x < m
    ensures AddMod(AddMod(x, h, m), -h, m) == x
  {
    ModAddLeft(x + h, -h, m);
    SmallRemainder(x, m);
  }

  lemma NumRoundInverse(m: nat, t: Tables, r: nat, s: Halves)
    requires 0 < m && Shaped(t, m) && r < ROUNDS && s.Fits(m, m)
    ensures NumUnround(m, t, r, NumRound(m, t, r, s)) == s
    ensures NumRound(m, t, r, NumUnround(m, t, r, s)) == s
  {
    hide AddMod;
    if r % 2 == 1 {
      AddModUndone(s.right, t[r][s.left], m);
      AddModUndone(s.right, -(t[r][s.left] as int), m);
    } else {
      AddModUndone(s.left, t[r][s.right], m);
      AddModUndone(s.left, -(t[r][s.right] as int), m);
    }
  }

  lemma {:induction false} NumFeistelInverse(m: nat, t: Tables, r: nat, s: Halves)
    requires 0 < m && Shaped(t, m) && r <= ROUNDS && s.Fits(m, m)
    ensures NumBackward(m, t, r, NumForward(m, t, r, s)) == s
    ensures NumForward(m, t, r, NumBackward(m, t, r, s)) == s
    decreases ROUNDS - r
  {
    if r < ROUNDS {
      NumFeistelInverse(m, t, r + 1, NumRound(m, t, r, s));
      NumRoundInverse(m, t, r, s);
      NumFeistelInverse(m, t, r + 1, s);
      NumRoundInverse(m, t, r, NumBackward(m, t, r + 1, s));
    }
  }

  lemma NumTwoSided(m: nat, t: Tables, i: nat)
    requires 0 < m && Shaped(t, m) && i < m * m
    ensures NumApply(m, t, i) < m * m && NumInvert(m, t, NumApply(m, t, i)) == i
    ensures NumInvert(m, t, i) < m * m && NumApply(m, t, NumInvert(m, t, i)) == i
  {
    hide NumForward, NumBackward;
    HalvesFit(i, m, m);
    var s := Halves(i / m, i % m);
    NumFeistelInverse(m, t, 0, s);
    var f, g := NumForward(m, t, 0, s), NumBackward(m, t, 0, s);
    JoinHalves(f.left, f.right, m, m);
    JoinHalves(g.left, g.right, m, m);
  }

  // ---------------------------------------------------------------- mixed Feistel

  function MixRound(l: nat, bits: nat, t: Tables, r: nat, s: Halves): Halves
    requires 0 < l <= Pow2(bits) && Shaped(t, Pow2(bits)) && r < ROUNDS && s.Fits(l, Pow2(bits))
  {
    if r % 2 == 1 then Halves(s.left, BitXor(s.right, BitAnd(t[r][s.left], Pow2(bits) - 1)))
    else Halves(AddMod(s.left, Shr(t[r][s.right], bits), l), s.right)
  }

  function MixUnround(l: nat, bits: nat, t: Tables, r: nat, s: Halves): Halves
    requires 0 < l <= Pow2(bits) && Shaped(t, Pow2(bits)) && r < ROUNDS && s.Fits(l, Pow2(bits))
  {
    if r % 2 == 1 then Halves(s.left, BitXor(s.right, BitAnd(t[r][s.left], Pow2(bits) - 1)))
    else Halves(AddMod(s.left, -(Shr(t[r][s.right], bits) as int), l), s.right)
  }

  lemma MixRoundWithin(l: nat, bits: nat, t: Tables, r: nat, s: Halves)
    requires 0 < l <= Pow2(bits) && Shaped(t, Pow2(bits)) && r < ROUNDS && s.Fits(l, Pow2(bits))
    ensures MixRound(l, bits, t, r, s).Fits(l, Pow2(bits))
    ensures MixUnround(l, bits, t, r, s).Fits(l, Pow2(bits))
  {
    var h := t[r][s.left];
    MaskIsRemainder(h, bits);
    BitwiseFits(Xor, s.right, h % Pow2(bits), bits);
  }

  function MixForward(l: nat, bits: nat, t: Tables, r: nat, s: Halves): (s': Halves)
    requires 0 < l <= Pow2(bits) && Shaped(t, Pow2(bits)) && r <= ROUNDS && s.Fits(l, Pow2(bits))
    ensures s'.Fits(l, Pow2(bits))
    decreases ROUNDS - r, l
  {
    if r == ROUNDS then s
    else MixRoundWithin(l, bits, t, r, s); MixForward(l, bits, t, r + 1, MixRound(l, bits, t, r, s))
  }

  function MixBackward(l: nat, bits: nat, t: Tables, r: nat, s: Halves): (s': Halves)
    requires 0 < l <= Pow2(bits) && Shaped(t, Pow2(bits)) && r <= ROUNDS && s.Fits(l, Pow2(bits))
    ensures s'.Fits(l, Pow2(bits))
    decreases ROUNDS - r, l
  {
    if r == ROUNDS then s
    else
      var s1 := MixBackward(l, bits, t, r + 1, s);
      MixRoundWithin(l, bits, t, r, s1); MixUnround(l, bits, t, r, s1)
  }

  lemma MixRoundInverse(l: nat, bits: nat, t: Tables, r: nat, s: Halves)
    requires 0 < l <= Pow2(bits) && Shaped(t, Pow2(bits)) && r < ROUNDS && s.Fits(l, Pow2(bits))
    ensures MixRound(l, bits, t, r, s).Fits(l, Pow2(bits))
    ensures MixUnround(l, bits, t, r, s).Fits(l, Pow2(bits))
    ensures MixUnround(l, bits, t, r, MixRound(l, bits, t, r, s)) == s
    ensures MixRound(l, bits, t, r, MixUnround(l, bits, t, r, s)) == s
  {
    MixRoundWithin(l, bits, t, r, s);
    if r % 2 == 1 {
      MixOddInverse(l, bits, t, r, s);
    } else {
      MixEvenInverse(l, bits, t, r, s);
    }
  }

  lemma MixOddInverse(l: nat, bits: nat, t: Tables, r: nat, s: Halves)
    requires 0 < l <= Pow2(bits) && Shaped(t, Pow2(bits)) && r < ROUNDS && s.Fits(l, Pow2(bits))
    requires r % 2 == 1
    ensures MixRound(l, bits, t, r, s).Fits(l, Pow2(bits))
    ensures MixUnround(l, bits, t, r, s) == MixRound(l, bits, t, r, s)
    ensures MixRound(l, bits, t, r, MixRound(l, bits, t, r, s)) == s
  {
    MixRoundWithin(l, bits, t, r, s);
    var h := BitAnd(t[r][s.left], Pow2(bits) - 1);
    XorCancels(s.right, h);
    assert MixRound(l, bits, t, r, s) == Halves(s.left, BitXor(s.right, h));
  }

  lemma MixEvenInverse(l: nat, bits: nat, t: Tables, r: nat, s: Halves)
    requires 0 < l <= Pow2(bits) && Shaped(t, Pow2(bits)) && r < ROUNDS && s.Fits(l, Pow2(bits))
    requires r % 2 == 0
    ensures MixRound(l, bits, t, r, s).Fits(l, Pow2(bits))
    ensures MixUnround(l, bits, t, r, s).Fits(l, Pow2(bits))
    ensures MixUnround(l, bits, t, r, MixRound(l, bits, t, r, s)) == s
    ensures MixRound(l, bits, t, r, MixUnround(l, bits, t, r, s)) == s
  {
    hide Pow2, Shr, AddMod;
    MixRoundWithin(l, bits, t, r, s);
    AddModUndone(s.left, Shr(t[r][s.right], bits), l);
    AddModUndone(s.left, -(Shr(t[r][s.right], bits) as int), l);
  }

  lemma {:induction false} MixFeistelInverse(l: nat, bits: nat, t: Tables, r: nat, s: Halves)
    requires 0 < l <= Pow2(bits) && Shaped(t, Pow2(bits)) && r <= ROUNDS && s.Fits(l, Pow2(bits))
    ensures MixBackward(l, bits, t, r, MixForward(l, bits, t, r, s)) == s
    ensures MixForward(l, bits, t, r, MixBackward(l, bits, t, r, s)) == s
    decreases ROUNDS - r
  {
    if r < ROUNDS {
      MixRoundInverse(l, bits, t, r, s);
      MixFeistelInverse(l, bits, t, r + 1, MixRound(l, bits, t, r, s));
      MixFeistelInverse(l, bits, t, r + 1, s);
      MixRoundInverse(l, bits, t, r, MixBackward(l, bits, t, r + 1, s));
    }
  }

  function MixApply(l: nat, bits: nat, t: Tables, i: nat): nat
    requires 0 < l <= Pow2(bits) && Shaped(t, Pow2(bits)) && i < l * Pow2(bits)
  {
    hide Pow2;
    HalvesFit(i, l, Pow2(bits));
    var s := MixForward(l, bits, t, 0, Halves(i / Pow2(bits), i % Pow2(bits)));
    s.left * Pow2(bits) + s.right
  }

  function MixInvert(l: nat, bits: nat, t: Tables, i: nat): nat
    requires 0 < l <= Pow2(bits) && Shaped(t, Pow2(bits)) && i < l * Pow2(bits)
  {
    hide Pow2;
    HalvesFit(i, l, Pow2(bits));
    var s := MixBackward(l, bits, t, 0, Halves(i / Pow2(bits), i % Pow2(bits)));
    s.left * Pow2(bits) + s.right
  }

  lemma MixTwoSided(l: nat, bits: nat, t: Tables, i: nat)
    requires 0 < l <= Pow2(bits) && Shaped(t, Pow2(bits)) && i < l * Pow2(bits)
    ensures MixApply(l, bits, t, i) < l * Pow2(bits) && MixInvert(l, bits, t, MixApply(l, bits, t, i)) == i
    ensures MixInvert(l, bits, t, i) < l * Pow2(bits) && MixApply(l, bits, t, MixInvert(l, bits, t, i)) == i
  {
    hide Pow2, MixForward, MixBackward;
    var w := Pow2(bits);
    HalvesFit(i, l, w);
    var s := Halves(i / w, i % w);
    MixFeistelInverse(l, bits, t, 0, s);
    var f, g := MixForward(l, bits, t, 0, s), MixBackward(l, bits, t, 0, s);
    JoinHalves(f.left, f.right, l, w);
    JoinHalves(g.left, g.right, l, w);
  }

  // ---------------------------------------------------------------- the inverse of each permutation

  ghost function InverseFactor(a: nat, n: nat): (u: nat)
    requires 0 < n && Gcd(a, n) == 1
    ensures (u * a) % n == 1 % n
  {
    InverseExists(a, n);
    var u: nat :| InverseOf(u, a, n);
    u
  }

  lemma InverseExists(a: nat, n: nat)
    requires 0 < n && Gcd(a, n) == 1
    ensures exists u: nat :: InverseOf(u, a, n)
  {
    var u := InverseModulo(a, n);
    assert InverseOf(u, a, n);
  }

  ghost predicate InverseOf(u: nat, a: nat, n: nat)
    requires 0 < n
  {
    (u * a) % n == 1 % n
  }

  ghost function Invert(p: Perm, y: nat): nat
    requires p.Valid() && y < p.Size()
  {
    match p
    case Identity(_) => y
    case Affine(n, a, b) => (InverseFactor(a, n) * (y - b)) % n
    case Affine64(n, a, b) => (InverseFactor(a, n) * (y - b)) % n
    case NumFeistel(m, t) => NumInvert(m, t, y)
    case MixFeistel(l, r, t) => MixInvert(l, r, t, y)
  }

  lemma AffineInverse(n: nat, a: nat, b: nat, u: nat, i: nat)
    requires i < n && (u * a) % n == 1 % n
    ensures (u * (((i * a) % n + b) % n - b)) % n == i
    ensures (((u * (i - b)) % n * a) % n + b) % n == i
  {
    InverseAfter(n, a, b, u, i);
    InverseBefore(n, a, b, u, i);
  }

  lemma InverseAfter(n: nat, a: nat, b: nat, u: nat, i: nat)
    requires i < n && (u * a) % n == 1 % n
    ensures (u * (((i * a) % n + b) % n - b)) % n == i
  {
    var ia := i * a;
    ModAddLeft(ia, b, n);
    ModSubLeft(ia + b, b, n);
    ModMulRight(u, (ia + b) % n - b, n);
    ModMulRight(u, ia, n);
    UnitTimes(n, a, u, i);
    SmallRemainder(i, n);
  }

  lemma InverseBefore(n: nat, a: nat, b: nat, u: nat, i: nat)
    requires i < n && (u * a) % n == 1 % n
    ensures (((u * (i - b)) % n * a) % n + b) % n == i
  {
    var d := i - b;
    var ud := u * d;
    ModMulLeft(ud, a, n);
    assert ud * a == u * (d * a);
    UnitTimes(n, a, u, d);
    ModAddLeft(d, b, n);
    SmallRemainder(i, n);
  }

  lemma ModMulRight(u: int, x: int, n: int)
    requires n > 0
    ensures (u * (x % n)) % n == (u * x) % n
  {
    ModMulLeft(x, u, n);
    assert (x % n) * u == u * (x % n) && x * u == u * x;
  }

  lemma UnitTimes(n: nat, a: nat, u: nat, x: int)
    requires n > 0 && (u * a) % n == 1 % n
    ensures (u * (x * a)) % n == x % n
  {
    assert u * (x * a) == (u * a) * x;
    ModMulLeft(u * a, x, n);
    ModMulLeft(1, x, n);
  }

  /** Each permutation and its inverse undo each other on [0, size). */
  lemma InverseIsTwoSided(p: Perm, i: nat)
    requires p.Valid() && i < p.Size()
    ensures p.Apply(i) < p.Size() && Invert(p, p.Apply(i)) == i
    ensures Invert(p, i) < p.Size() && p.Apply(Invert(p, i)) == i
  {
    match p
    case Identity(_) =>
    case Affine(n, a, b) => AffineInverse(n, a, b, InverseFactor(a, n), i);
    case Affine64(n, a, b) => Affine64TwoSided(n, a, b, i);
    case NumFeistel(m, t) => NumTwoSided(m, t, i);
    case MixFeistel(l, r, t) => MixTwoSided(l, r, t, i);
  }

  lemma Affine64TwoSided(n: nat, a: nat, b: nat, i: nat)
    requires 0 < n <= WORD / 2 && a < n && Gcd(a, n) == 1 && i < n
    ensures var u := InverseFactor(a, n);
            && (u * ((MulmodWord(i, a, n) + b) % n - b)) % n == i
            && (MulmodWord((u * (i - b)) % n, a, n) + b) % n == i
  {
    var u := InverseFactor(a, n);
    MulmodCorrect(i, a, n);
    MulmodCorrect((u * (i - b)) % n, a, n);
    AffineInverse(n, a, b, u, i);
  }

  /** Every permutation is a bijection of [0, size), whatever its key words and tables. */
  lemma EveryPermutationIsBijective(p: Perm)
    requires p.Valid()
    ensures Bijective(p)
  {
    forall i: nat | i < p.Size() ensures p.Apply(i) < p.Size() {
      InverseIsTwoSided(p, i);
    }
    forall i: nat, j: nat | i < p.Size() && j < p.Size() && p.Apply(i) == p.Apply(j) ensures i == j {
      InverseIsTwoSided(p, i);
      InverseIsTwoSided(p, j);
    }
    forall y: nat | y < p.Size() ensures Reached(p, y) {
      InverseIsTwoSided(p, y);
    }
  }

  /** Affine64 is the same map as Affine; its products need no more than 64 bits. */
  lemma Affine64IsAffine(n: nat, a: nat, b: nat, i: nat)
    requires Affine64(n, a, b).Valid() && i < n
    ensures Affine(n, a, b).Valid() && Affine64(n, a, b).Apply(i) == Affine(n, a, b).Apply(i)
  {
    MulmodCorrect(i, a, n);
  }

  /** What `Affine64Permutation::Permute` computes for any size below 2^64: the sum may wrap too. */
  function Affine64Word(n: nat, a: nat, b: nat, i: nat): nat
    requires n > 0
  {
    Wrap(MulmodWord(i, a, n) + b) % n
  }

  /** No two indices share an image, whatever the parameters. */
  ghost predicate Affine64Injective(n: nat) {
    forall a: nat, b: nat, i: nat, j: nat |
      && a < n && b < n && Gcd(a, n) == 1 && i < n && j < n
      && Affine64Word(n, a, b, i) == Affine64Word(n, a, b, j) :: i == j
  }

  /** The factor 2^63 is prime to every odd size, and doubling it leaves nothing in 64 bits: indices 0
      and 2 collide. */
  lemma Affine64Collides(n: nat, b: nat)
    requires WORD / 2 < n < WORD && n % 2 == 1 && b < n
    ensures Gcd(WORD / 2, n) == 1
    ensures Affine64Word(n, WORD / 2, b, 0) == Affine64Word(n, WORD / 2, b, 2)
  {
    OddIsPrimeToPowers(n, 63);
    Pow2Values();
    assert 2 * Pow2(63) == Pow2(64);
    NothingLeft(n);
  }

  lemma NothingLeft(n: nat)
    requires n > 0
    ensures MulmodWord(0, WORD / 2, n) == 0 == MulmodWord(2, WORD / 2, n)
  {
    SmallRemainder(0, n);
    ModUnique(WORD, WORD, 1, 0);
    AddingZeros(1, n);
    assert ShiftAdd(2, WORD / 2, n, 0) == ShiftAdd(1, Wrap(WORD) % n, n, 0);
  }

  /** Exactly the odd sizes up to 2^63 are safe for every key; every size the search returns from 3 on
      is odd. */
  lemma Affine64InjectiveIff(n: nat)
    requires 0 < n < WORD && n % 2 == 1
    ensures Affine64Injective(n) <==> n <= WORD / 2
  {
    hide Gcd, MulmodWord;
    if n <= WORD / 2 {
      forall a: nat, b: nat, i: nat, j: nat |
        && a < n && b < n && Gcd(a, n) == 1 && i < n && j < n
        && Affine64Word(n, a, b, i) == Affine64Word(n, a, b, j)
        ensures i == j
      {
        Affine64IsExact(n, a, b, i);
        Affine64IsExact(n, a, b, j);
        Affine64TwoSided(n, a, b, i);
        Affine64TwoSided(n, a, b, j);
      }
    } else {
      Affine64Collides(n, 0);
    }
  }

  lemma Affine64IsExact(n: nat, a: nat, b: nat, i: nat)
    requires 0 < n <= WORD / 2 && b < n
    ensures Affine64Word(n, a, b, i) == (MulmodWord(i, a, n) + b) % n
  {
    hide MulmodWord;
    MulmodBelow(i, a, n);
    SmallRemainder(MulmodWord(i, a, n) + b, WORD);
  }

  /** The search can produce the colliding factor: it depends on the key alone. */
  lemma Affine64FactorOccurs(n: nat)
    requires WORD / 2 + 1 < n < WORD && n % 2 == 1
    ensures AffineParam(WORD / 2 - n / 2, n) == WORD / 2
  {
    SmallRemainder(WORD / 2 - n / 2, n / 2);
  }

  /** With sizes up to 2^32 - 1 the plain affine product stays inside 64 bits. */
  lemma AffineProductFits(n: nat, a: nat, b: nat, i: nat)
    requires i < n <= MAX_AFFINE_SIZE && a < n && b < n
    ensures i * a < WORD && (i * a) % n + b < WORD
  {
    ProductFits(i, a, n);
    ProductFits(n - 1, n - 1, 0x1_0000_0000);
    assert n * n <= 0x1_0000_0000 * 0x1_0000_0000 by { SquareMonotone(n, 0x1_0000_0000); }
  }

  lemma SquareMonotone(x: nat, y: nat)
    requires x <= y
    ensures x * x <= y * y
  {
    assert y * y == x * x + (y - x) * (y + x);
  }

  // ---------------------------------------------------------------- initialisation

  /** Where the search for affine parameters ends. */
  datatype Search = Found(prime: nat, a: nat, b: nat) | TooSmall | Forever

  function AffineParam(fold: nat, prime: nat): nat
    requires prime >= 2
  {
    fold % (prime / 2) + prime / 2
  }

  /** The search restarts from the modulus it rejected.  `ClosestSmallerPrime` reseeds `rand`, so
      a modulus it accepts again is rejected again, and the loop never ends. */
  function AffineSearch(n: nat, key: Key, rand: nat -> nat): Search
    decreases n
  {
    var p := SmallerPrime(n, rand);
    if p < 2 then TooSmall
    else
      var a := AffineParam(key.foldA, p);
      if Gcd(a, p) == 1 then Found(p, a, AffineParam(key.foldB, p))
      else if p == n then Forever
      else AffineSearch(p, key, rand)
  }

  /** `GetSizeUsingParams` with its three arguments; the key length is looked at once a prime is
      found. */
  function AffineSearchResult(n: nat, key: Key, rand: nat -> nat): Result<Search> {
    if key.size == 0 then Err(EmptyArgument)
    else if SmallerPrime(n, rand) < 1 then Ok(TooSmall)
    else if key.size < 8 || key.size % 16 != 0 then Err(InvalidArgument)
    else Ok(AffineSearch(n, key, rand))
  }

  function ISqrt(n: nat): (m: nat)
    ensures m * m <= n < (m + 1) * (m + 1)
  {
    if n == 0 then 0
    else
      var m := ISqrt(n - 1);
      if (m + 1) * (m + 1) <= n then m + 1 else m
  }

  function TableRow(key: Key, t: nat, width: nat, bound: nat): (row: seq<nat>)
    requires bound > 0
    ensures |row| == width && forall i | 0 <= i < width :: row[i] == key.word(t, i) % bound
  {
    seq(width, i requires 0 <= i < width => key.word(t, i) % bound)
  }

  function HashTables(key: Key, width: nat): (t: Tables)
    requires width > 0
    ensures Shaped(t, width)
    ensures forall r | 0 <= r < ROUNDS :: t[r] == TableRow(key, r, width, width)
  {
    seq(ROUNDS, t requires 0 <= t < ROUNDS => TableRow(key, t, width, width))
  }

  function MixRightBits(n: nat): nat {
    BitLength(n) - BitLength(n) / 2
  }

  /** What `Init` leaves in the object, or how it fails. */
  function InitResult(kind: Kind, n: nat, key: Key, rand: nat -> nat): Result<Perm> {
    match kind
    case IdentityKind => if n == 0 then Err(EmptyArgument) else Ok(Identity(n))
    case AffineKind =>
      if n > MAX_AFFINE_SIZE then Err(InvalidArgument)
      else (match AffineSearchResult(n, key, rand)
            case Err(e) => Err(e)
            case Ok(Found(p, a, b)) => Ok(Affine(p, a, b))
            case Ok(TooSmall) => Err(RuntimeError)
            case Ok(Forever) => Err(Hangs))
    case Affine64Kind =>
      (match AffineSearchResult(n, key, rand)
       case Err(e) => Err(e)
       case Ok(Found(p, a, b)) => Ok(Affine64(p, a, b))
       case Ok(TooSmall) => Err(InvalidArgument)
       case Ok(Forever) => Err(Hangs))
    case NumFeistelKind =>
      if key.size == 0 then Err(EmptyArgument)
      else if n < MIN_REQUESTED_SIZE then Err(InvalidArgument)
      else PositiveRoot(n); Ok(NumFeistel(ISqrt(n), HashTables(key, ISqrt(n))))
    case MixFeistelKind =>
      if key.size == 0 then Err(EmptyArgument)
      else if n < MIN_REQUESTED_SIZE then Err(InvalidArgument)
      else
        var bits := MixRightBits(n);
        Ok(MixFeistel(Shr(n, bits), bits, HashTables(key, Pow2(bits))))
  }

  /** The requests a permutation can take: a 64-bit word; for the mixed network below 2^60, where its
      mask still fits an `int`; for Affine64 up to 2^63, where it is a permutation for every key. */
  predicate Supported(kind: Kind, n: nat) {
    n < WORD && (kind == MixFeistelKind ==> n < 0x1000_0000_0000_0000) && (kind == Affine64Kind ==> n <= WORD / 2)
  }

  lemma SupportedBelow60(kind: Kind, n: nat)
    requires n < Pow2(60)
    ensures Supported(kind, n)
  {
    PowerSixty();
  }

  lemma PowerSixty()
    ensures Pow2(60) == 0x1000_0000_0000_0000
  {
    Pow2Values();
    Pow2Adds(60, 4);
    assert Pow2(4) == 16;
  }

  /** What `GetSizeUsingParams` answers. */
  function SizeResult(kind: Kind, n: nat, key: Key, rand: nat -> nat): Result<nat> {
    hide ISqrt, AffineSearchResult;
    match kind
    case IdentityKind => Ok(n)
    case NumFeistelKind => Ok(if n < MIN_REQUESTED_SIZE then 0 else ISqrt(n) * ISqrt(n))
    case MixFeistelKind =>
      var bits := MixRightBits(n);
      Ok(if n < MIN_REQUESTED_SIZE then 0 else Shl(Shr(n, bits), bits))
    case _ =>
      if n > MAX_AFFINE_SIZE then Ok(0)
      else (match AffineSearchResult(n, key, rand)
            case Err(e) => Err(e)
            case Ok(Found(p, _, _)) => Ok(p)
            case Ok(TooSmall) => Ok(0)
            case Ok(Forever) => Err(Hangs))
  }

  lemma PositiveRoot(n: nat)
    requires n > 0
    ensures ISqrt(n) > 0
  {}

  lemma {:induction false} AffineSearchFinds(n: nat, key: Key, rand: nat -> nat)
    requires AffineSearch(n, key, rand).Found?
    ensures var s := AffineSearch(n, key, rand);
            2 <= s.prime <= n && s.a < s.prime && s.b < s.prime && Gcd(s.a, s.prime) == 1
    decreases n
  {
    var p := SmallerPrime(n, rand);
    if !(Gcd(AffineParam(key.foldA, p), p) == 1) {
      AffineSearchFinds(p, key, rand);
    }
  }

  /** When the first modulus found is prime the first pass of the search succeeds with it. */
  lemma PrimeModulusFoundAtOnce(n: nat, key: Key, rand: nat -> nat)
    requires IsPrime(SmallerPrime(n, rand))
    ensures AffineSearch(n, key, rand).Found? && AffineSearch(n, key, rand).prime == SmallerPrime(n, rand)
  {
    var p := SmallerPrime(n, rand);
    var a := AffineParam(key.foldA, p);
    PrimeGcd(p, a);
    SmallRemainder(a, p);
  }

  /** A modulus the search accepts again and again without ever finding a factor prime to it. */
  predicate Stuck(m: nat, key: Key, rand: nat -> nat) {
    m >= 2 && SmallerPrime(m, rand) == m && Gcd(AffineParam(key.foldA, m), m) != 1
  }

  /** The modulus at which the search ends, one way or the other. */
  function LastModulus(n: nat, key: Key, rand: nat -> nat): (m: nat)
    ensures m <= n
    decreases n
  {
    var p := SmallerPrime(n, rand);
    if p < 2 || p == n || Gcd(AffineParam(key.foldA, p), p) == 1 then p else LastModulus(p, key, rand)
  }

  /** The search goes on for ever exactly when it gets stuck at its last modulus. */
  lemma {:induction false} SearchHangsIff(n: nat, key: Key, rand: nat -> nat)
    ensures AffineSearch(n, key, rand) == Forever <==> Stuck(LastModulus(n, key, rand), key, rand)
    decreases n
  {
    hide SmallerPrime, Gcd;
    var p := SmallerPrime(n, rand);
    if p >= 2 && p != n && Gcd(AffineParam(key.foldA, p), p) != 1 { SearchHangsIff(p, key, rand); }
  }

  /** It can only get stuck at a composite number that the primality test takes for a prime. */
  lemma StuckIsComposite(m: nat, key: Key, rand: nat -> nat)
    requires Stuck(m, key, rand)
    ensures !IsPrime(m)
  {
    if IsPrime(m) {
      PrimeGcd(m, AffineParam(key.foldA, m));
      SmallRemainder(AffineParam(key.foldA, m), m);
    }
  }

  /** If up to n the test mistakes no composite number for its own closest prime, the search returns. */
  lemma SearchReturns(n: nat, key: Key, rand: nat -> nat)
    requires forall m: nat | 2 <= m <= n && SmallerPrime(m, rand) == m :: IsPrime(m)
    ensures AffineSearch(n, key, rand) != Forever
  {
    hide SmallerPrime, Gcd, AffineSearch, IsPrime;
    SearchHangsIff(n, key, rand);
    var m := LastModulus(n, key, rand);
    if Stuck(m, key, rand) { StuckIsComposite(m, key, rand); }
  }

  /** The search does hang for some keys and streams: when only base 1 is drawn, 9 passes for a prime,
      and the factor 6 is not prime to it. */
  lemma SearchHangsAtNine(key: Key, rand: nat -> nat)
    requires key.foldA % 4 == 2 && forall i: nat :: rand(i) % 8 == 0
    ensures AffineSearch(9, key, rand) == Forever
  {
    BaseOneAccepts(9, rand, 0);
    assert SmallerPrime(9, rand) == 9;
    assert AffineParam(key.foldA, 9) == 6;
    assert Gcd(6, 9) == Gcd(9, 6) == Gcd(6, 3) == Gcd(3, 0) == 3;
  }

  /** The left half has fewer values than the tables have rows: every table index is in bounds. */
  lemma LeftHalfFitsTables(n: nat)
    requires n >= MIN_REQUESTED_SIZE
    ensures var bits := MixRightBits(n);
            && 0 < Shr(n, bits) <= Pow2(bits)
            && Shr(n, bits) < Pow2(BitLength(n) / 2)
            && Shr(n, bits) * Pow2(bits) <= n
  {
    var len := BitLength(n);
    var half, bits := len / 2, MixRightBits(n);
    assert Pow2(1) == 2 && bits == len - half;
    hide *;
    BitLengthBounds(n);
    BitLengthCompares(n, 1);
    Pow2Adds(half, bits);
    Pow2Monotone(half, bits);
    Pow2Monotone(bits, len - 1);
    ShiftsArePowers(n, bits);
    QuotientBounds(n, Pow2(half), Pow2(bits));
  }

  lemma QuotientBounds(n: nat, a: nat, w: nat)
    requires 0 < w <= n < a * w
    ensures 0 < n / w < a && (n / w) * w <= n
  {
    HalvesFit(n, a, w);
    MulMonotone(n / w, 0, w);
  }

  lemma MixInitIsValid(n: nat, key: Key, rand: nat -> nat)
    requires InitResult(MixFeistelKind, n, key, rand).Ok?
    ensures var p := InitResult(MixFeistelKind, n, key, rand).value; p.Valid() && 0 < p.Size() <= n
  {
    var p := InitResult(MixFeistelKind, n, key, rand).value;
    LeftHalfFitsTables(n);
    MulAtLeast(Pow2(p.rightBits), p.leftMod);
    assert Pow2(p.rightBits) * p.leftMod == p.leftMod * Pow2(p.rightBits);
  }

  /** Initialisation never enlarges the request, and establishes what the bijection proofs need unless
      it is Affine64 with a size above 2^63. */
  lemma InitIsValid(kind: Kind, n: nat, key: Key, rand: nat -> nat)
    requires InitResult(kind, n, key, rand).Ok?
    ensures var p := InitResult(kind, n, key, rand).value;
            && 0 < p.Size() <= n
            && (p.Valid() <==> !(kind == Affine64Kind && p.Size() > WORD / 2))
            && (p.Valid() ==> Bijective(p))
  {
    var p := InitResult(kind, n, key, rand).value;
    match kind {
      case IdentityKind =>
      case AffineKind => AffineSearchFinds(n, key, rand);
      case Affine64Kind => AffineSearchFinds(n, key, rand);
      case NumFeistelKind =>
        PositiveRoot(n);
        MulAtLeast(ISqrt(n), ISqrt(n));
      case MixFeistelKind => MixInitIsValid(n, key, rand);
    }
    hide Bijective;
    if p.Valid() { EveryPermutationIsBijective(p); }
  }

  /** The size announced before initialisation is the size set by it, except that Affine64
      announces nothing above 2^32 - 1 and initialises all the same. */
  lemma CapacityAgreement(kind: Kind, n: nat, key: Key, rand: nat -> nat)
    requires InitResult(kind, n, key, rand).Ok?
    ensures SizeResult(kind, n, key, rand) == Ok(InitResult(kind, n, key, rand).value.Size())
            <==> !(kind == Affine64Kind && n > MAX_AFFINE_SIZE)
  {
    if kind == Affine64Kind {
      AffineSearchFinds(n, key, rand);
    } else {
      InitIsValid(kind, n, key, rand);
    }
    if kind == MixFeistelKind {
      ShiftsArePowers(Shr(n, MixRightBits(n)), MixRightBits(n));
    }
  }

  /** A request of 2^32 + 1, with a key of zeros and a stream of zeros, is one on which they differ. */
  lemma CapacityDisagrees(key: Key, rand: nat -> nat)
    requires key.size == 16 && key.foldA == 0 && forall i: nat :: rand(i) == 0
    ensures SizeResult(Affine64Kind, 0x1_0000_0001, key, rand) == Ok(0)
    ensures InitResult(Affine64Kind, 0x1_0000_0001, key, rand).Ok?
    ensures InitResult(Affine64Kind, 0x1_0000_0001, key, rand).value.Size() == 0x1_0000_0001
  {
    var n := 0x1_0000_0001;
    forall k: nat ensures rand(k) % (n - 1) == 0 { SmallRemainder(0, n - 1); }
    BaseOneAccepts(n, rand, 0);
    assert SmallerPrime(n, rand) == n;
    OddIsPrimeToPowers(n, 31);
    Pow2Values();
    assert AffineParam(0, n) == Pow2(31);
  }

  /** Table entries made by `Init` are below 2^rightBits, so the shift that feeds the left half
      gives 0: the mixed network permutes inside each block of 2^rightBits indices only. */
  lemma MixKeepsLeftHalf(n: nat, key: Key, rand: nat -> nat, i: nat)
    requires InitResult(MixFeistelKind, n, key, rand).Ok?
    requires i < InitResult(MixFeistelKind, n, key, rand).value.Size()
    ensures var p := InitResult(MixFeistelKind, n, key, rand).value;
            p.Valid() && p.Apply(i) / Pow2(p.rightBits) == i / Pow2(p.rightBits)
  {
    var p := InitResult(MixFeistelKind, n, key, rand).value;
    InitIsValid(MixFeistelKind, n, key, rand);
    SmallEntriesKeepLeft(p.leftMod, p.rightBits, p.tables, i);
  }

  lemma SmallEntriesKeepLeft(l: nat, bits: nat, t: Tables, i: nat)
    requires 0 < l <= Pow2(bits) && Shaped(t, Pow2(bits)) && i < l * Pow2(bits)
    requires forall k, i | 0 <= k < ROUNDS && 0 <= i < Pow2(bits) :: t[k][i] < Pow2(bits)
    ensures MixApply(l, bits, t, i) / Pow2(bits) == i / Pow2(bits)
  {
    hide MixForward, Pow2;
    var w := Pow2(bits);
    HalvesFit(i, l, w);
    var s := Halves(i / w, i % w);
    LeftStays(l, bits, t, 0, s);
    var f := MixForward(l, bits, t, 0, s);
    JoinHalves(f.left, f.right, l, w);
  }

  lemma {:induction false} LeftStays(l: nat, bits: nat, t: Tables, r: nat, s: Halves)
    requires 0 < l <= Pow2(bits) && Shaped(t, Pow2(bits)) && r <= ROUNDS && s.Fits(l, Pow2(bits))
    requires forall k, i | 0 <= k < ROUNDS && 0 <= i < Pow2(bits) :: t[k][i] < Pow2(bits)
    ensures MixForward(l, bits, t, r, s).left == s.left
    decreases ROUNDS - r
  {
    if r < ROUNDS {
      MixRoundWithin(l, bits, t, r, s);
      if r % 2 == 0 {
        var h := t[r][s.right];
        ShiftsArePowers(h, bits);
        SmallRemainder(h, Pow2(bits));
        SmallRemainder(s.left, l);
      }
      LeftStays(l, bits, t, r + 1, MixRound(l, bits, t, r, s));
    }
  }
}
