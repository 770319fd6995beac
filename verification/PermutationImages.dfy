/** What the keyed permutations do to an index, written out digit by digit from the rows of their
    tables, and from the key. */
module PermutationImages {
  import opened Bits
  import opened NumberTheory
  import opened StegoMath
  import opened Outcomes
  import opened Permutations

  // ---------------------------------------------------------------- the network over two digits

  /** The rounds add the rows 0 to 4 in turn: to the left digit, to the right one, and so on. */
  lemma NumImage(m: nat, t: Tables, i: nat, l: nat, r: nat)
    requires Shaped(t, m) && l < m && r < m && i == l * m + r < m * m
    ensures var l1 := (l + t[0][r]) % m;
            var r1 := (r + t[1][l1]) % m;
            var l2 := (l1 + t[2][r1]) % m;
            var r2 := (r1 + t[3][l2]) % m;
            var l3 := (l2 + t[4][r2]) % m;
            NumApply(m, t, i) == l3 * m + r2
  {
    JoinHalves(l, r, m, m);
    var s0 := Halves(l, r);
    var s1 := NumRound(m, t, 0, s0);
    var s2 := NumRound(m, t, 1, s1);
    var s3 := NumRound(m, t, 2, s2);
    var s4 := NumRound(m, t, 3, s3);
    var s5 := NumRound(m, t, 4, s4);
    hide NumRound;
    assert NumForward(m, t, 0, s0) == NumForward(m, t, 1, s1) == NumForward(m, t, 2, s2);
    assert NumForward(m, t, 2, s2) == NumForward(m, t, 3, s3) == NumForward(m, t, 4, s4);
    assert NumForward(m, t, 4, s4) == NumForward(m, t, 5, s5) == s5;
  }

  // ---------------------------------------------------------------- the mixed network

  /** Row 0 is shifted and added to the left half, row 1 masked and xored into the right one, and so on
      with the rows 2, 3 and 4. */
  lemma MixImage(w: nat, bits: nat, m: nat, t: Tables, i: nat, l: nat, r: nat)
    requires w == Pow2(bits) && m <= w && Shaped(t, w) && l < m && r < w && i == l * w + r < m * w
    ensures (var l1 := (l + t[0][r] / w) % m;
             XorBelow(r, t[1][l1], w, bits);
             var r1 := BitXor(r, t[1][l1] % w);
             var l2 := (l1 + t[2][r1] / w) % m;
             XorBelow(r1, t[3][l2], w, bits);
             var r2 := BitXor(r1, t[3][l2] % w);
             var l3 := (l2 + t[4][r2] / w) % m;
             MixApply(m, bits, t, i) == l3 * w + r2)
  {
    var s := MixDigits(w, bits, m, t, l, r);
    hide Pow2, MixForward, MixApply, BitXor;
    MixApplyIs(m, bits, t, i, Halves(l, r), s);
  }

  lemma MixDigits(w: nat, bits: nat, m: nat, t: Tables, l: nat, r: nat) returns (s: Halves)
    requires w == Pow2(bits) && m <= w && Shaped(t, w) && l < m && r < w
    ensures MixForward(m, bits, t, 0, Halves(l, r)) == s
    ensures (var l1 := (l + t[0][r] / w) % m;
             XorBelow(r, t[1][l1], w, bits);
             var r1 := BitXor(r, t[1][l1] % w);
             var l2 := (l1 + t[2][r1] / w) % m;
             XorBelow(r1, t[3][l2], w, bits);
             var r2 := BitXor(r1, t[3][l2] % w);
             s == Halves((l2 + t[4][r2] / w) % m, r2))
  {
    hide Pow2, MixRound, MixForward, MixApply, Bitwise, BitXor;
    var s0 := Halves(l, r);
    var s1 := OneRound(m, bits, t, 0, s0);
    var s2 := OneRound(m, bits, t, 1, s1);
    var s3 := OneRound(m, bits, t, 2, s2);
    var s4 := OneRound(m, bits, t, 3, s3);
    s := OneRound(m, bits, t, 4, s4);
    NoRound(m, bits, t, s);
  }

  lemma MixApplyIs(m: nat, bits: nat, t: Tables, i: nat, s: Halves, s': Halves)
    requires 0 < m <= Pow2(bits) && Shaped(t, Pow2(bits)) && s.Fits(m, Pow2(bits))
    requires i == s.left * Pow2(bits) + s.right < m * Pow2(bits) && MixForward(m, bits, t, 0, s) == s'
    ensures MixApply(m, bits, t, i) == s'.left * Pow2(bits) + s'.right
  {
    hide Pow2, MixForward;
    JoinHalves(s.left, s.right, m, Pow2(bits));
  }

  lemma OneRound(m: nat, bits: nat, t: Tables, k: nat, s: Halves) returns (s': Halves)
    requires 0 < m <= Pow2(bits) && Shaped(t, Pow2(bits)) && k < 5 && s.Fits(m, Pow2(bits))
    ensures |t| == 5 && s'.Fits(m, Pow2(bits)) && MixForward(m, bits, t, k, s) == MixForward(m, bits, t, k + 1, s')
    ensures s' == if k % 2 == 1 then Halves(s.left, BitXor(s.right, t[k][s.left] % Pow2(bits)))
                  else Halves((s.left + t[k][s.right] / Pow2(bits)) % m, s.right)
  {
    s' := MixRound(m, bits, t, k, s);
    MixRoundWithin(m, bits, t, k, s);
    hide Pow2;
    if k % 2 == 1 { MaskIsRemainder(t[k][s.left], bits); } else { ShiftsArePowers(t[k][s.right], bits); }
  }

  lemma NoRound(m: nat, bits: nat, t: Tables, s: Halves)
    requires 0 < m <= Pow2(bits) && Shaped(t, Pow2(bits)) && s.Fits(m, Pow2(bits))
    ensures |t| == 5 && MixForward(m, bits, t, 5, s) == s
  {}

  lemma XorBelow(r: nat, h: nat, w: nat, bits: nat)
    requires r < w == Pow2(bits)
    ensures BitXor(r, h % w) < w
  {
    BitwiseFits(Xor, r, h % w, bits);
  }

  // ---------------------------------------------------------------- after initialisation

  /** After `Init` the rows are the hash words of the key, reduced. */
  lemma NumImageFromKey(m: nat, key: Key, i: nat, l: nat, r: nat)
    requires l < m && r < m && i == l * m + r < m * m
    ensures var l1 := (l + key.word(0, r) % m) % m;
            var r1 := (r + key.word(1, l1) % m) % m;
            var l2 := (l1 + key.word(2, r1) % m) % m;
            var r2 := (r1 + key.word(3, l2) % m) % m;
            var l3 := (l2 + key.word(4, r2) % m) % m;
            NumApply(m, HashTables(key, m), i) == l3 * m + r2
  {
    hide NumApply;
    NumImage(m, HashTables(key, m), i, l, r);
  }

  /** `Init` of the numeric network succeeds exactly from 1024 on, with a key. */
  lemma NumInit(n: nat, key: Key, rand: nat -> nat)
    ensures InitResult(NumFeistelKind, n, key, rand).Ok? <==> key.size > 0 && n >= 1024
    ensures InitResult(NumFeistelKind, n, key, rand).Ok? ==>
              var m := ISqrt(n);
              && m > 0 && m * m <= n < (m + 1) * (m + 1)
              && InitResult(NumFeistelKind, n, key, rand) == Ok(NumFeistel(m, HashTables(key, m)))
    ensures n < 1024 ==> SizeResult(NumFeistelKind, n, key, rand) == Ok(0)
  {
    hide ISqrt, HashTables;
  }

  /** After `Init` the shifted entries are 0: the left half stays, and the right one is xored with two
      hash words that the left half chooses. */
  lemma MixImageFromKey(w: nat, bits: nat, m: nat, key: Key, i: nat, l: nat, r: nat)
    requires w == Pow2(bits) && m <= w && l < m && r < w && i == l * w + r < m * w
    ensures MixApply(m, bits, HashTables(key, w), i)
         == l * w + BitXor(BitXor(r, key.word(1, l) % w), key.word(3, l) % w)
  {
    hide Pow2, MixApply, Bitwise;
    var t := HashTables(key, w);
    MixImage(w, bits, m, t, i, l, r);
    XorBelow(r, t[1][l], w, bits);
    var r1 := BitXor(r, t[1][l] % w);
    XorBelow(r1, t[3][l], w, bits);
    var r2 := BitXor(r1, t[3][l] % w);
    ReducedShiftsToZero(key.word(0, r), w, m, l);
    ReducedShiftsToZero(key.word(2, r1), w, m, l);
    ReducedShiftsToZero(key.word(4, r2), w, m, l);
    SmallMod(key.word(1, l), w);
    SmallMod(key.word(3, l), w);
  }

  lemma ReducedShiftsToZero(h: nat, w: nat, m: nat, l: nat)
    requires w > 0 && l < m
    ensures (l + h % w / w) % m == l
  {
    SmallRemainder(h % w, w);
    SmallRemainder(l, m);
  }

  /** `Init` of the mixed network succeeds exactly from 1024 on, with a key; of the b bits of the
      request the lower half, rounded up, is the right half of an index. */
  lemma MixInit(n: nat, key: Key, rand: nat -> nat, b: nat)
    requires b > 0 && Pow2(b - 1) <= n < Pow2(b)
    ensures InitResult(MixFeistelKind, n, key, rand).Ok? <==> key.size > 0 && n >= 1024
    ensures InitResult(MixFeistelKind, n, key, rand).Ok? ==>
              var w := Pow2((b + 1) / 2);
              InitResult(MixFeistelKind, n, key, rand) == Ok(MixFeistel(n / w, (b + 1) / 2, HashTables(key, w)))
    ensures n < 1024 ==> SizeResult(MixFeistelKind, n, key, rand) == Ok(0)
  {
    BitLengthUnique(n, b);
    assert MixRightBits(n) == (b + 1) / 2;
    ShiftsArePowers(n, MixRightBits(n));
    hide Pow2, HashTables, BitLength;
  }

  // ---------------------------------------------------------------- the affine permutations

  /** The parameters of an affine permutation are the folded halves of the key, reduced to the upper
      half of the size, and the image is affine in the index. */
  lemma AffineImageFromKey(kind: Kind, n: nat, key: Key, rand: nat -> nat, i: nat)
    requires kind == AffineKind || kind == Affine64Kind
    requires InitResult(kind, n, key, rand).Ok?
    ensures var p := InitResult(kind, n, key, rand).value;
            var q := p.Size();
            && q == LastModulus(n, key, rand) >= 2
            && (p.Valid() && i < q ==>
                  p.Apply(i) == (i * (key.foldA % (q / 2) + q / 2) + (key.foldB % (q / 2) + q / 2)) % q)
  {
    hide *;
    var p := InitResult(kind, n, key, rand).value;
    AffineInit(kind, n, key, rand);
    FoundIsLast(n, key, rand);
    if p.Valid() && i < p.Size() {
      AffineApplies(p, i);
      ParamIs(key.foldA, p.n);
      ParamIs(key.foldB, p.n);
    }
  }

  lemma ParamIs(fold: nat, q: nat)
    requires q >= 2
    ensures AffineParam(fold, q) == fold % (q / 2) + q / 2
  {}

  lemma AffineInit(kind: Kind, n: nat, key: Key, rand: nat -> nat)
    requires kind == AffineKind || kind == Affine64Kind
    requires InitResult(kind, n, key, rand).Ok?
    ensures var p, s := InitResult(kind, n, key, rand).value, AffineSearch(n, key, rand);
            && (p.Affine? || p.Affine64?) && p.Size() == p.n && s == Found(p.n, p.a, p.b)
  {
    hide AffineSearch, SmallerPrime;
  }

  lemma AffineApplies(p: Perm, i: nat)
    requires (p.Affine? || p.Affine64?) && p.Valid() && i < p.Size()
    ensures p.Size() == p.n > 0 && p.Apply(i) == (i * p.a + p.b) % p.n
  {
    hide MulmodWord, Gcd;
    ModAddLeft(i * p.a, p.b, p.n);
    if p.Affine64? { MulmodCorrect(i, p.a, p.n); }
  }

  lemma {:induction false} FoundIsLast(n: nat, key: Key, rand: nat -> nat)
    requires AffineSearch(n, key, rand).Found?
    ensures var s := AffineSearch(n, key, rand);
            && s.prime == LastModulus(n, key, rand) >= 2
            && s.a == AffineParam(key.foldA, s.prime) && s.b == AffineParam(key.foldB, s.prime)
    decreases n
  {
    hide SmallerPrime, Gcd;
    var p := SmallerPrime(n, rand);
    if Gcd(AffineParam(key.foldA, p), p) != 1 { FoundIsLast(p, key, rand); }
  }

  /** How the two affine permutations refuse a request, in the order of the tests. */
  lemma AffineErrors(kind: Kind, n: nat, key: Key, rand: nat -> nat)
    requires kind == AffineKind || kind == Affine64Kind
    ensures n > 0xFFFF_FFFF ==> SizeResult(kind, n, key, rand) == Ok(0)
    ensures var r := InitResult(kind, n, key, rand);
            if kind == AffineKind && n > 0xFFFF_FFFF then r == Err(InvalidArgument)
            else if key.size == 0 then r == Err(EmptyArgument)
            else if n < 3 then r == Err(if kind == AffineKind then RuntimeError else InvalidArgument)
            else if key.size % 16 != 0 then r == Err(InvalidArgument)
            else if AffineSearch(n, key, rand) == Forever then r == Err(Hangs)
            else r.Ok?
  {
    SearchMissesOnlyTwo(n, rand);
    hide AffineSearch, SmallerPrime, Gcd;
    if n >= 3 { SearchFindsSomething(n, key, rand); }
  }

  lemma {:induction false} SearchFindsSomething(n: nat, key: Key, rand: nat -> nat)
    requires n >= 3
    ensures AffineSearch(n, key, rand) != TooSmall
    decreases n
  {
    hide SmallerPrime, Gcd;
    SearchMissesOnlyTwo(n, rand);
    var p := SmallerPrime(n, rand);
    if p < n { SearchFindsSomething(p, key, rand); }
  }
}
