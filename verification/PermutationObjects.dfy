/** The permutation objects: the fields `Init` fills, the loops of `Permute`, and the pointer
    through which the rest of the library calls any of them. */
module PermutationObjects {
  import opened Bits
  import opened StegoMath
  import opened Outcomes
  import opened Permutations

  class IdentityPermutation {
    var size: nat
    var initialized: bool

    ghost predicate Valid() reads this { true }

    ghost function State(): Perm reads this { Identity(size) }

    constructor ()
      ensures Valid() && size == 0
    {
      size, initialized := 0, false;
    }

    method Init(requested: nat, key: Key, rand: nat -> nat) returns (r: Status)
      requires Valid() && requested < WORD
      modifies this
      ensures Valid()
      ensures InitDone(IdentityKind, requested, key, rand, r, size, State(), old(size), old(State()))
    {
      if requested == 0 { return Failed(EmptyArgument); }
      size := requested;
      initialized := true;
      return Done;
    }

    method Permute(index: nat) returns (r: Result<nat>)
      requires Valid()
      ensures r == Permuted(size, State(), index)
    {
      if index >= size { return Err(OutOfRange); }
      return Ok(index);
    }
  }

  /** The new state of a permutation after `Init`: that of InitResult, or the old one. */
  ghost predicate InitDone(kind: Kind, n: nat, key: Key, rand: nat -> nat, r: Status,
                           size: nat, state: Perm, oldSize: nat, oldState: Perm)
  {
    match InitResult(kind, n, key, rand)
    case Ok(p) => r == Done && state == p && size == p.Size()
    case Err(e) => r == Failed(e) && state == oldState && size == oldSize
  }

  lemma InitSucceeds(kind: Kind, n: nat, key: Key, rand: nat -> nat,
                     size: nat, state: Perm, oldSize: nat, oldState: Perm)
    requires InitResult(kind, n, key, rand) == Ok(state) && size == state.Size()
    ensures InitDone(kind, n, key, rand, Done, size, state, oldSize, oldState)
  {
    hide InitResult, Perm.Size;
  }

  lemma InitFails(kind: Kind, n: nat, key: Key, rand: nat -> nat, e: Error, size: nat, state: Perm)
    requires InitResult(kind, n, key, rand) == Err(e)
    ensures InitDone(kind, n, key, rand, Failed(e), size, state, size, state)
  {
    hide InitResult;
  }

  lemma MixRefuses(n: nat, key: Key, rand: nat -> nat)
    ensures key.size == 0 ==> InitResult(MixFeistelKind, n, key, rand) == Err(EmptyArgument)
    ensures key.size != 0 && n < MIN_REQUESTED_SIZE ==>
              InitResult(MixFeistelKind, n, key, rand) == Err(InvalidArgument)
  {}

  /** The range check in front of every `Permute`. */
  ghost function Permuted(size: nat, state: Perm, index: nat): Result<nat>
    requires size > 0 ==> state.Valid() && state.Size() == size
  {
    if index >= size then Err(OutOfRange) else Ok(state.Apply(index))
  }

  /** A permutation that was never initialised is stopped by the range check alone: no call reports
      what is wrong. */
  lemma OnlyRangeIsChecked(size: nat, state: Perm, index: nat)
    requires size > 0 ==> state.Valid() && state.Size() == size
    ensures Permuted(size, state, index).Err? <==> index >= size
    ensures Permuted(0, state, index) == Err(OutOfRange)
  {}

  /** The parameter search both affine permutations inherit. */
  method SearchAffine(requested: nat, key: Key, rand: nat -> nat) returns (s: Result<Search>)
    requires requested < WORD
    ensures s == AffineSearchResult(requested, key, rand)
  {
    if key.size == 0 { return Err(EmptyArgument); }
    var n: nat := requested;
    while true
      invariant n < WORD
      invariant n == requested || (key.size >= 8 && key.size % 16 == 0 && SmallerPrime(requested, rand) >= 1)
      invariant AffineSearch(n, key, rand) == AffineSearch(requested, key, rand)
      decreases n
    {
      var prime := ClosestSmallerPrime(n, rand);
      if prime < 1 { return Ok(TooSmall); }
      if key.size < 8 { return Err(InvalidArgument); }
      if key.size % 16 != 0 { return Err(InvalidArgument); }
      var a := key.foldA % (prime / 2);
      var b := key.foldB % (prime / 2);
      a := a + prime / 2;
      b := b + prime / 2;
      var g := GcdLoop(a, prime);
      if g == 1 { return Ok(Found(prime, a, b)); }
      // ClosestSmallerPrime answers the same again for ever
      if prime == n { return Ok(Forever); }
      n := prime;
    }
  }

  class AffinePermutation {
    var size: nat
    var initialized: bool
    var keyParamA: nat
    var keyParamB: nat

    ghost predicate Valid() reads this {
      size > 0 ==> State().Valid() && size <= MAX_AFFINE_SIZE && keyParamA < size && keyParamB < size
    }

    ghost function State(): Perm reads this { Affine(size, keyParamA, keyParamB) }

    constructor ()
      ensures Valid() && size == 0
    {
      size, initialized, keyParamA, keyParamB := 0, false, 0, 0;
    }

    method Init(requested: nat, key: Key, rand: nat -> nat) returns (r: Status)
      requires Valid() && requested < WORD
      modifies this
      ensures Valid()
      ensures InitDone(AffineKind, requested, key, rand, r, size, State(), old(size), old(State()))
    {
      if requested > MAX_AFFINE_SIZE { return Failed(InvalidArgument); }
      initialized := false;
      var s := SearchAffine(requested, key, rand);
      match s
      case Err(e) => return Failed(e);
      case Ok(TooSmall) => return Failed(RuntimeError);
      case Ok(Forever) => return Failed(Hangs);
      case Ok(Found(p, a, b)) =>
        AffineSearchFinds(requested, key, rand);
        size, keyParamA, keyParamB := p, a, b;
        initialized := true;
        return Done;
    }

    method Permute(index: nat) returns (r: Result<nat>)
      requires Valid()
      ensures r == Permuted(size, State(), index)
    {
      if index >= size { return Err(OutOfRange); }
      AffineProductFits(size, keyParamA, keyParamB, index);
      SmallRemainder(index * keyParamA, WORD);
      SmallRemainder((index * keyParamA) % size + keyParamB, WORD);
      return Ok(Wrap(Wrap(index * keyParamA) % size + keyParamB) % size);
    }
  }

  class Affine64Permutation {
    var size: nat
    var initialized: bool
    var keyParamA: nat
    var keyParamB: nat

    ghost predicate Reduced() reads this { size < WORD && (size > 0 ==> keyParamA < size && keyParamB < size) }

    ghost predicate Valid() reads this { Reduced() && (size > 0 ==> State().Valid()) }

    ghost function State(): Perm reads this { Affine64(size, keyParamA, keyParamB) }

    constructor ()
      ensures Valid() && size == 0
    {
      size, initialized, keyParamA, keyParamB := 0, false, 0, 0;
    }

    method Init(requested: nat, key: Key, rand: nat -> nat) returns (r: Status)
      requires Reduced() && requested < WORD
      modifies this
      ensures Reduced() && (old(Valid()) && requested <= WORD / 2 ==> Valid())
      ensures InitDone(Affine64Kind, requested, key, rand, r, size, State(), old(size), old(State()))
    {
      initialized := false;
      var s := SearchAffine(requested, key, rand);
      match s
      case Err(e) => return Failed(e);
      case Ok(TooSmall) => return Failed(InvalidArgument);
      case Ok(Forever) => return Failed(Hangs);
      case Ok(Found(p, a, b)) =>
        AffineSearchFinds(requested, key, rand);
        size, keyParamA, keyParamB := p, a, b;
        initialized := true;
        return Done;
    }

    method Permute(index: nat) returns (r: Result<nat>)
      requires Reduced()
      ensures r == if index >= size then Err(OutOfRange) else Ok(Affine64Word(size, keyParamA, keyParamB, index))
      ensures Valid() ==> r == Permuted(size, State(), index)
    {
      if index >= size { return Err(OutOfRange); }
      var product := Mulmod(index, keyParamA, size);
      if size <= WORD / 2 { Affine64IsExact(size, keyParamA, keyParamB, index); }
      return Ok(Wrap(product + keyParamB) % size);
    }
  }

  /** The doubly nested loop that fills the hash tables. */
  method FillTables(key: Key, width: nat) returns (tables: Tables)
    requires width > 0
    ensures tables == HashTables(key, width)
  {
    tables := seq(ROUNDS, t requires 0 <= t < ROUNDS => seq(width, i requires 0 <= i < width => 0));
    for t := 0 to ROUNDS
      invariant Shaped(tables, width)
      invariant forall r | 0 <= r < t :: tables[r] == TableRow(key, r, width, width)
    {
      for i := 0 to width
        invariant Shaped(tables, width)
        invariant forall r | 0 <= r < t :: tables[r] == TableRow(key, r, width, width)
        invariant forall j | 0 <= j < i :: tables[t][j] == key.word(t, j) % width
      {
        var row: seq<nat> := tables[t][i := key.word(t, i) % width];
        tables := tables[t := row];
      }
    }
    assert tables == HashTables(key, width);
  }

  class FeistelNumPermutation {
    var size: nat
    var initialized: bool
    var hashTables: Tables
    var modulus: nat

    ghost predicate Valid() reads this {
      size > 0 ==> State().Valid() && State().Size() == size
    }

    ghost function State(): Perm reads this { NumFeistel(modulus, hashTables) }

    constructor ()
      ensures Valid() && size == 0
    {
      size, initialized, hashTables, modulus := 0, false, [], 0;
    }

    method Init(requested: nat, key: Key, rand: nat -> nat) returns (r: Status)
      requires Valid() && requested < WORD
      modifies this
      ensures Valid()
      ensures InitDone(NumFeistelKind, requested, key, rand, r, size, State(), old(size), old(State()))
    {
      if key.size == 0 { return Failed(EmptyArgument); }
      if requested < MIN_REQUESTED_SIZE { return Failed(InvalidArgument); }
      initialized := false;
      InitIsValid(NumFeistelKind, requested, key, rand);
      modulus := ISqrt(requested);
      size := modulus * modulus;
      hashTables := FillTables(key, modulus);
      initialized := true;
      return Done;
    }

    method Permute(index: nat) returns (r: Result<nat>)
      requires Valid()
      ensures r == Permuted(size, State(), index)
    {
      if index >= size { return Err(OutOfRange); }
      HalvesFit(index, modulus, modulus);
      var right: nat := index % modulus;
      var left: nat := index / modulus;
      ghost var s := Halves(left, right);
      for r := 0 to ROUNDS
        invariant Halves(left, right).Fits(modulus, modulus)
        invariant NumForward(modulus, hashTables, r, Halves(left, right)) == NumForward(modulus, hashTables, 0, s)
      {
        ghost var before := Halves(left, right);
        if r % 2 != 0 {
          right := (right + hashTables[r][left]) % modulus;
        } else {
          left := (left + hashTables[r][right]) % modulus;
        }
        assert Halves(left, right) == NumRound(modulus, hashTables, r, before);
      }
      JoinHalves(left, right, modulus, modulus);
      return Ok(left * modulus + right);
    }
  }

  class FeistelMixPermutation {
    var size: nat
    var initialized: bool
    var hashTables: Tables
    var leftBits: nat
    var leftMod: nat
    var rightMask: nat
    var rightBits: nat

    ghost predicate Valid() reads this {
      size > 0 ==> State().Valid() && State().Size() == size && rightMask == Pow2(rightBits) - 1
    }

    ghost function State(): Perm reads this { MixFeistel(leftMod, rightBits, hashTables) }

    constructor ()
      ensures Valid() && size == 0
    {
      size, initialized, hashTables := 0, false, [];
      leftBits, leftMod, rightMask, rightBits := 0, 0, 0, 0;
    }

    /** The mask is computed in an `int`, so the request has to stay below 2^60. */
    method Init(requested: nat, key: Key, rand: nat -> nat) returns (r: Status)
      requires Valid() && requested < Pow2(60)
      modifies this
      ensures Valid()
      ensures InitDone(MixFeistelKind, requested, key, rand, r, size, State(), old(size), old(State()))
    {
      hide *;
      MixRefuses(requested, key, rand);
      if key.size == 0 {
        InitFails(MixFeistelKind, requested, key, rand, EmptyArgument, size, State());
        return Failed(EmptyArgument);
      }
      if requested < MIN_REQUESTED_SIZE {
        InitFails(MixFeistelKind, requested, key, rand, InvalidArgument, size, State());
        return Failed(InvalidArgument);
      }
      MixInitState(requested, key, rand);
      var bitLen := Log2(requested);
      if bitLen < 8 { return Failed(InvalidArgument); }
      var half := bitLen / 2;
      var bits := bitLen - half;
      var rows := Shr(requested, bits);
      var mask := Shl(1, bits) - 1;
      var tables := FillTables(key, mask + 1);
      initialized := false;
      leftBits, rightBits, leftMod, rightMask := half, bits, rows, mask;
      size := Shl(rows, bits);
      hashTables := tables;
      initialized := true;
      MixInitialised(requested, key, rand);
      InitSucceeds(MixFeistelKind, requested, key, rand, size, State(), old(size), old(State()));
      return Done;
    }

    lemma MixInitialised(n: nat, key: Key, rand: nat -> nat)
      requires InitResult(MixFeistelKind, n, key, rand).Ok? && rightMask == Pow2(rightBits) - 1
      requires var p := InitResult(MixFeistelKind, n, key, rand).value;
               p == MixFeistel(leftMod, rightBits, hashTables) && p.Valid() && p.Size() == size
      ensures Valid() && InitResult(MixFeistelKind, n, key, rand) == Ok(State())
    {}

    /** One round of the loop. */
    method MixOnce(left0: nat, right0: nat, r: nat) returns (left: nat, right: nat)
      requires Valid() && size > 0 && r < ROUNDS && Halves(left0, right0).Fits(leftMod, Pow2(rightBits))
      ensures Halves(left, right) == MixRound(leftMod, rightBits, hashTables, r, Halves(left0, right0))
      ensures Halves(left, right).Fits(leftMod, Pow2(rightBits))
    {
      hide Pow2, Shr, BitXor, BitAnd;
      MixRoundWithin(leftMod, rightBits, hashTables, r, Halves(left0, right0));
      left, right := left0, right0;
      if r % 2 != 0 {
        right := BitXor(right, BitAnd(hashTables[r][left], rightMask));
      } else {
        left := (left + Shr(hashTables[r][right], rightBits)) % leftMod;
      }
    }

    method Permute(index: nat) returns (r: Result<nat>)
      requires Valid()
      ensures r == Permuted(size, State(), index)
    {
      if index >= size { return Err(OutOfRange); }
      ghost var w := Pow2(rightBits);
      HalvesFit(index, leftMod, w);
      MaskIsRemainder(index, rightBits);
      ShiftsArePowers(index, rightBits);
      var right: nat := BitAnd(index, rightMask);
      var left: nat := Shr(index, rightBits);
      hide Pow2, Shr, BitXor, BitAnd;
      ghost var s := Halves(left, right);
      for r := 0 to ROUNDS
        invariant Halves(left, right).Fits(leftMod, w)
        invariant MixForward(leftMod, rightBits, hashTables, r, Halves(left, right))
               == MixForward(leftMod, rightBits, hashTables, 0, s)
      {
        left, right := MixOnce(left, right, r);
      }
      JoinHalves(left, right, leftMod, w);
      ShiftsArePowers(left, rightBits);
      return Ok(Shl(left, rightBits) + right);
    }
  }

  lemma MixInitState(n: nat, key: Key, rand: nat -> nat)
    requires key.size > 0 && MIN_REQUESTED_SIZE <= n < Pow2(60)
    ensures n < WORD && 8 <= BitLength(n) <= 60 && MixRightBits(n) == BitLength(n) - BitLength(n) / 2
    ensures var bits := MixRightBits(n);
            var p := MixFeistel(Shr(n, bits), bits, HashTables(key, Pow2(bits)));
            && bits <= 30
            && InitResult(MixFeistelKind, n, key, rand) == Ok(p)
            && p.Valid() && 0 < p.Size() == Shl(Shr(n, bits), bits)
            && Shl(1, bits) == Pow2(bits)
  {
    Pow2Values();
    Pow2Monotone(60, 64);
    ShortMask(n);
    InitIsValid(MixFeistelKind, n, key, rand);
    ShiftsArePowers(1, MixRightBits(n));
    ShiftsArePowers(Shr(n, MixRightBits(n)), MixRightBits(n));
  }

  /** Below 2^60 the mask fits an `int`, and a request of at least 1024 has at least eight bits. */
  lemma ShortMask(n: nat)
    requires MIN_REQUESTED_SIZE <= n < Pow2(60)
    ensures 8 <= BitLength(n) <= 60 && MixRightBits(n) <= 30
  {
    BitLengthCompares(n, 60);
    LongEnough(n);
  }

  lemma LongEnough(n: nat)
    requires n >= MIN_REQUESTED_SIZE
    ensures BitLength(n) >= 8
  {
    BitLengthCompares(n, 7);
    assert Pow2(7) == 128;
  }

  /** `std::shared_ptr<Permutation>`: one pointer to any of the permutation objects. */
  datatype PermutationPtr =
    | IdentityPtr(identity: IdentityPermutation)
    | AffinePtr(affine: AffinePermutation)
    | Affine64Ptr(affine64: Affine64Permutation)
    | NumPtr(num: FeistelNumPermutation)
    | MixPtr(mix: FeistelMixPermutation)
  {
    function Kind(): Kind {
      match this
      case IdentityPtr(_) => IdentityKind
      case AffinePtr(_) => AffineKind
      case Affine64Ptr(_) => Affine64Kind
      case NumPtr(_) => NumFeistelKind
      case MixPtr(_) => MixFeistelKind
    }

    ghost function Target(): object {
      match this
      case IdentityPtr(p) => p
      case AffinePtr(p) => p
      case Affine64Ptr(p) => p
      case NumPtr(p) => p
      case MixPtr(p) => p
    }

    ghost predicate Valid() reads Target() {
      match this
      case IdentityPtr(p) => p.Valid()
      case AffinePtr(p) => p.Valid()
      case Affine64Ptr(p) => p.Valid()
      case NumPtr(p) => p.Valid()
      case MixPtr(p) => p.Valid()
    }

    ghost function State(): Perm reads Target() {
      match this
      case IdentityPtr(p) => p.State()
      case AffinePtr(p) => p.State()
      case Affine64Ptr(p) => p.State()
      case NumPtr(p) => p.State()
      case MixPtr(p) => p.State()
    }

    /** `GetSize`, the number of indices permuted; 0 before initialisation. */
    function Size(): nat reads Target() {
      match this
      case IdentityPtr(p) => p.size
      case AffinePtr(p) => p.size
      case Affine64Ptr(p) => p.size
      case NumPtr(p) => p.size
      case MixPtr(p) => p.size
    }

    lemma StateIsValid()
      requires Valid() && Size() > 0
      ensures State().Valid() && State().Size() == Size() && Bijective(State())
    {
      EveryPermutationIsBijective(State());
    }

    method Init(requested: nat, key: Key, rand: nat -> nat) returns (r: Status)
      requires Valid() && Supported(Kind(), requested)
      modifies Target()
      ensures Valid()
      ensures InitDone(Kind(), requested, key, rand, r, Size(), State(), old(Size()), old(State()))
    {
      PowerSixty();
      match this
      case IdentityPtr(p) => r := p.Init(requested, key, rand);
      case AffinePtr(p) => r := p.Init(requested, key, rand);
      case Affine64Ptr(p) => r := p.Init(requested, key, rand);
      case NumPtr(p) => r := p.Init(requested, key, rand);
      case MixPtr(p) => r := p.Init(requested, key, rand);
    }

    method Permute(index: nat) returns (r: Result<nat>)
      requires Valid()
      ensures r == (if index >= Size() then Err(OutOfRange)
                    else StateIsValid(); Ok(State().Apply(index)))
    {
      match this
      case IdentityPtr(p) => r := p.Permute(index);
      case AffinePtr(p) => r := p.Permute(index);
      case Affine64Ptr(p) => r := p.Permute(index);
      case NumPtr(p) => r := p.Permute(index);
      case MixPtr(p) => r := p.Permute(index);
    }

    method GetSizeUsingParams(requested: nat, key: Key, rand: nat -> nat) returns (r: Result<nat>)
      requires requested < WORD
      ensures r == SizeResult(Kind(), requested, key, rand)
    {
      hide ISqrt, BitLength, Shr, Shl, AffineSearchResult;
      match this
      case IdentityPtr(_) => return Ok(requested);
      case NumPtr(_) =>
        if requested < MIN_REQUESTED_SIZE { return Ok(0); }
        var mod := ISqrt(requested);
        return Ok(mod * mod);
      case MixPtr(_) =>
        if requested < MIN_REQUESTED_SIZE { return Ok(0); }
        var bitLen := Log2(requested);
        if bitLen < 8 {
          // a request of 1024 or more has eleven bits
          LongEnough(requested);
          assert false;
        }
        var rightBits := bitLen - bitLen / 2;
        return Ok(Shl(Shr(requested, rightBits), rightBits));
      case _ =>
        if requested > MAX_AFFINE_SIZE { return Ok(0); }
        var s := SearchAffine(requested, key, rand);
        match s
        case Err(e) => return Err(e);
        case Ok(TooSmall) => return Ok(0);
        case Ok(Forever) => return Err(Hangs);
        case Ok(Found(p, _, _)) => return Ok(p);
    }
  }

  /** `PermutationFactory::GetPermutation`: a new permutation, not initialised. */
  method GetPermutation(kind: Kind) returns (p: PermutationPtr)
    ensures fresh(p.Target()) && p.Valid() && p.Size() == 0 && p.Kind() == kind
  {
    match kind
    case IdentityKind => var x := new IdentityPermutation(); p := IdentityPtr(x);
    case AffineKind => var x := new AffinePermutation(); p := AffinePtr(x);
    case Affine64Kind => var x := new Affine64Permutation(); p := Affine64Ptr(x);
    case NumFeistelKind => var x := new FeistelNumPermutation(); p := NumPtr(x);
    case MixFeistelKind => var x := new FeistelMixPermutation(); p := MixPtr(x);
  }
}
