/** Bit-level view of the unsigned integers the source works on.  A machine word is a `nat`
    with an explicit width bound where the width matters; `>>`, `<<`, `&`, `|` and `^` are
    defined by their bits, so that every later argument is about single bits. */
module Bits {

  type byte = x: nat | x < 256

  function Pow2(k: nat): (r: nat)
    ensures r > 0
  {
    if k == 0 then 1 else 2 * Pow2(k - 1)
  }

  function Shr(n: nat, k: nat): nat
    decreases k, n
  {
    if k == 0 then n else Shr(n / 2, k - 1)
  }

  function Shl(n: nat, k: nat): nat
    decreases k, n
  {
    if k == 0 then n else 2 * Shl(n, k - 1)
  }

  /** `(n >> j) & 1`. */
  predicate Bit(n: nat, j: nat) {
    Shr(n, j) % 2 == 1
  }

  datatype Op = And | Or | Xor {
    predicate Apply(x: bool, y: bool) {
      match this
      case And => x && y
      case Or => x || y
      case Xor => x != y
    }
  }

  function Bitwise(op: Op, a: nat, b: nat): nat
    decreases a + b
  {
    if a == 0 && b == 0 then 0
    else 2 * Bitwise(op, a / 2, b / 2) + (if op.Apply(a % 2 == 1, b % 2 == 1) then 1 else 0)
  }

  function BitAnd(a: nat, b: nat): nat { Bitwise(And, a, b) }
  function BitOr(a: nat, b: nat): nat { Bitwise(Or, a, b) }
  function BitXor(a: nat, b: nat): nat { Bitwise(Xor, a, b) }

  lemma {:induction false} BitOfZero(j: nat)
    ensures !Bit(0, j)
  {
    if j > 0 { BitOfZero(j - 1); }
  }

  /** Every bit of a bitwise operation is the operation on the two bits. */
  lemma {:induction false} BitwiseBit(op: Op, a: nat, b: nat, j: nat)
    ensures Bit(Bitwise(op, a, b), j) == op.Apply(Bit(a, j), Bit(b, j))
    decreases j
  {
    if a == 0 && b == 0 {
      BitOfZero(j);
    } else if j > 0 {
      assert Bitwise(op, a, b) / 2 == Bitwise(op, a / 2, b / 2);
      BitwiseBit(op, a / 2, b / 2, j - 1);
    }
  }

  lemma ShiftByOne(n: nat)
    ensures Shr(n, 1) == n / 2 && Shl(n, 1) == 2 * n
  {
    assert Shr(n, 1) == Shr(n / 2, 0) && Shl(n, 1) == 2 * Shl(n, 0);
  }

  lemma {:induction false} ShrBit(n: nat, k: nat, j: nat)
    ensures Bit(Shr(n, k), j) == Bit(n, j + k)
    decreases k
  {
    if k > 0 {
      ShrBit(n / 2, k - 1, j);
    }
  }

  lemma {:induction false} ShlBit(n: nat, k: nat, j: nat)
    ensures Bit(Shl(n, k), j) == (j >= k && Bit(n, j - k))
    decreases k
  {
    if k > 0 {
      if j > 0 {
        assert Shl(n, k) / 2 == Shl(n, k - 1);
        ShlBit(n, k - 1, j - 1);
      }
    }
  }

  /** Shifting is multiplying and dividing by powers of two. */
  lemma {:induction false} ShiftsArePowers(n: nat, k: nat)
    ensures Shl(n, k) == n * Pow2(k)
    ensures Shr(n, k) == n / Pow2(k)
    decreases k
  {
    if k > 0 {
      ShiftsArePowers(n, k - 1);
      ShiftsArePowers(n / 2, k - 1);
      HalfThenDivide(n, Pow2(k - 1));
      DoubleProduct(n, Pow2(k - 1));
    }
  }

  lemma DoubleProduct(n: nat, d: nat)
    ensures n * (2 * d) == 2 * (n * d)
  {}

  lemma HalfThenDivide(n: nat, d: nat)
    requires d > 0
    ensures n / (2 * d) == (n / 2) / d
    ensures n % (2 * d) == 2 * ((n / 2) % d) + n % 2
  {
    var q, r := (n / 2) / d, (n / 2) % d;
    assert n / 2 == d * q + r;
    DoubleProduct(q, d);
    assert (2 * d) * q == q * (2 * d) && d * q == q * d;
    ModUnique(n, 2 * d, q, 2 * r + n % 2);
  }

  /** Quotient and remainder are determined by their defining equation. */
  lemma ModUnique(n: int, d: int, q: int, r: int)
    requires d > 0 && n == d * q + r && 0 <= r < d
    ensures n % d == r && n / d == q
  {
    var q', r' := n / d, n % d;
    QuotientLeq(d, q, r, q', r');
    QuotientLeq(d, q', r', q, r);
  }

  lemma QuotientLeq(d: int, q: int, r: int, q': int, r': int)
    requires d > 0 && d * q + r == d * q' + r' && 0 <= r < d && 0 <= r' < d
    ensures q <= q'
  {
    if q > q' {
      var x := q - q';
      assert d * q == d * q' + d * x;
      MulAtLeast(d, x);
    }
  }

  lemma MulAtLeast(d: nat, x: nat)
    requires x > 0
    ensures d * x >= d
  {
    assert d * x == d * (x - 1) + d;
  }

  /** Two numbers with the same bits are the same number. */
  lemma {:induction false} BitsExtensional(a: nat, b: nat)
    requires forall j: nat :: Bit(a, j) == Bit(b, j)
    ensures a == b
    decreases a + b
  {
    assert Bit(a, 0) == Bit(b, 0);
    if a != 0 || b != 0 {
      forall j: nat ensures Bit(a / 2, j) == Bit(b / 2, j) {
        assert Bit(a, j + 1) == Bit(b, j + 1);
      }
      BitsExtensional(a / 2, b / 2);
    }
  }

  /** A number fits in k bits exactly when all higher bits are clear. */
  lemma {:induction false} FitsIffHighBitsClear(a: nat, k: nat)
    ensures a < Pow2(k) <==> forall j: nat | j >= k :: !Bit(a, j)
    decreases k
  {
    if k == 0 {
      if a == 0 {
        forall j: nat ensures !Bit(a, j) { BitOfZero(j); }
      } else {
        SomeBitSet(a);
      }
    } else {
      FitsIffHighBitsClear(a / 2, k - 1);
      forall j: nat ensures Bit(a / 2, j) == Bit(a, j + 1) {}
      if forall j: nat | j >= k :: !Bit(a, j) {
        forall j: nat | j >= k - 1 ensures !Bit(a / 2, j) { assert !Bit(a, j + 1); }
      }
      if forall j: nat | j >= k - 1 :: !Bit(a / 2, j) {
        forall j: nat | j >= k ensures !Bit(a, j) { assert !Bit(a / 2, j - 1); }
      }
    }
  }

  lemma {:induction false} SomeBitSet(a: nat)
    requires a > 0
    ensures exists j: nat :: Bit(a, j)
  {
    if a % 2 == 1 {
      assert Bit(a, 0);
    } else {
      SomeBitSet(a / 2);
      var j: nat :| Bit(a / 2, j);
      assert Bit(a, j + 1);
    }
  }

  lemma {:induction false} BitwiseFits(op: Op, a: nat, b: nat, k: nat)
    requires a < Pow2(k) && b < Pow2(k)
    ensures Bitwise(op, a, b) < Pow2(k)
  {
    FitsIffHighBitsClear(a, k);
    FitsIffHighBitsClear(b, k);
    forall j: nat | j >= k ensures !Bit(Bitwise(op, a, b), j) {
      BitwiseBit(op, a, b, j);
    }
    FitsIffHighBitsClear(Bitwise(op, a, b), k);
  }

  lemma PowerOfTwoBit(k: nat, j: nat)
    ensures Bit(Pow2(k), j) == (j == k)
  {
    ShiftsArePowers(1, k);
    ShlBit(1, k, j);
    if j > k { FitsIffHighBitsClear(1, 1); assert Pow2(1) == 2; }
  }

  lemma XorCommutes(a: nat, b: nat)
    ensures BitXor(a, b) == BitXor(b, a)
  {
    forall j: nat ensures Bit(BitXor(a, b), j) == Bit(BitXor(b, a), j) {
      BitwiseBit(Xor, a, b, j);
      BitwiseBit(Xor, b, a, j);
    }
    BitsExtensional(BitXor(a, b), BitXor(b, a));
  }

  lemma XorAssociates(a: nat, b: nat, c: nat)
    ensures BitXor(BitXor(a, b), c) == BitXor(a, BitXor(b, c))
  {
    var l, r := BitXor(BitXor(a, b), c), BitXor(a, BitXor(b, c));
    forall j: nat ensures Bit(l, j) == Bit(r, j) {
      BitwiseBit(Xor, a, b, j);
      BitwiseBit(Xor, b, c, j);
      BitwiseBit(Xor, BitXor(a, b), c, j);
      BitwiseBit(Xor, a, BitXor(b, c), j);
    }
    BitsExtensional(l, r);
  }

  lemma XorSelf(a: nat)
    ensures BitXor(a, a) == 0 && BitXor(a, 0) == a
  {
    forall j: nat ensures Bit(BitXor(a, a), j) == Bit(0, j) && Bit(BitXor(a, 0), j) == Bit(a, j) {
      BitwiseBit(Xor, a, a, j);
      BitwiseBit(Xor, a, 0, j);
      BitOfZero(j);
    }
    BitsExtensional(BitXor(a, a), 0);
    BitsExtensional(BitXor(a, 0), a);
  }

  /** Xor with the same word twice is the identity. */
  lemma XorCancels(a: nat, b: nat)
    ensures BitXor(BitXor(a, b), b) == a
    ensures BitXor(b, BitXor(b, a)) == a
  {
    XorAssociates(a, b, b);
    XorSelf(b);
    XorSelf(a);
    XorAssociates(b, b, a);
    XorCommutes(0, a);
  }

  lemma XorZeroIffEqual(a: nat, b: nat)
    ensures BitXor(a, b) == 0 <==> a == b
  {
    XorCancels(a, b);
    XorSelf(b);
    XorCommutes(0, b);
  }

  /** Masking with 2^k - 1 keeps the remainder modulo 2^k. */
  lemma {:induction false} MaskIsRemainder(n: nat, k: nat)
    ensures BitAnd(n, Pow2(k) - 1) == n % Pow2(k)
    decreases k
  {
    hide Bitwise;
    if k == 0 {
      AndZero(n);
    } else {
      var d := Pow2(k - 1);
      MaskIsRemainder(n / 2, k - 1);
      MaskStep(n, d - 1);
      HalfThenDivide(n, d);
    }
  }

  lemma {:induction false} BitsOfMask(k: nat, j: nat)
    ensures Bit(Pow2(k) - 1, j) == (j < k)
    decreases k
  {
    if k == 0 {
      BitOfZero(j);
    } else if j > 0 {
      assert (Pow2(k) - 1) / 2 == Pow2(k - 1) - 1;
      BitsOfMask(k - 1, j - 1);
    }
  }

  /** `n & 0xFF` keeps the low eight bits. */
  lemma LowByte(n: nat, j: nat)
    ensures BitAnd(n, 0xFF) < 256
    ensures Bit(BitAnd(n, 0xFF), j) == (j < 8 && Bit(n, j))
  {
    Pow2Values();
    MaskIsRemainder(n, 8);
    BitwiseBit(And, n, 0xFF, j);
    BitsOfMask(8, j);
  }

  lemma AndZero(n: nat)
    ensures BitAnd(n, 0) == 0
  {
    forall j: nat ensures Bit(BitAnd(n, 0), j) == Bit(0, j) {
      BitwiseBit(And, n, 0, j);
      BitOfZero(j);
    }
    BitsExtensional(BitAnd(n, 0), 0);
  }

  lemma MaskStep(n: nat, m: nat)
    ensures BitAnd(n, 2 * m + 1) == 2 * BitAnd(n / 2, m) + n % 2
  {
    assert (2 * m + 1) / 2 == m;
  }

  /** Clearing the lowest bit and or-ing in a new one: `(n & ~1) | bit`. */
  lemma ReplaceLowBit(n: nat, k: nat, bit: nat)
    requires n < Pow2(k) && k > 0 && bit < 2
    ensures BitOr(BitAnd(n, Pow2(k) - 2), bit) == n - n % 2 + bit
  {
    ClearLowBit(n, k);
    var c := n - n % 2;
    if !(c == 0 && bit == 0) {
      OrZero(c / 2);
      assert Bitwise(Or, c, bit) == 2 * Bitwise(Or, c / 2, 0) + bit;
    }
  }

  lemma ClearLowBit(n: nat, k: nat)
    requires n < Pow2(k) && k > 0
    ensures BitAnd(n, Pow2(k) - 2) == n - n % 2
  {
    var m := Pow2(k) - 2;
    assert m / 2 == Pow2(k - 1) - 1;
    if !(n == 0 && m == 0) {
      MaskIsRemainder(n / 2, k - 1);
      SmallRemainder(n / 2, Pow2(k - 1));
      assert BitAnd(n, m) == 2 * BitAnd(n / 2, m / 2);
    }
  }

  lemma SmallRemainder(n: nat, d: nat)
    requires n < d
    ensures n % d == n && n / d == 0
  {
    ModUnique(n, d, 0, n);
  }

  lemma OrZero(n: nat)
    ensures BitOr(n, 0) == n
  {
    forall j: nat ensures Bit(BitOr(n, 0), j) == Bit(n, j) {
      BitwiseBit(Or, n, 0, j);
      BitOfZero(j);
    }
    BitsExtensional(BitOr(n, 0), n);
  }

  lemma {:induction false} OrCommutes(a: nat, b: nat)
    ensures BitOr(a, b) == BitOr(b, a)
    decreases a + b
  {
    if a > 0 || b > 0 { OrCommutes(a / 2, b / 2); }
  }

  /** Bits that do not overlap are added. */
  lemma {:induction false} OrDisjoint(q: nat, k: nat, low: nat)
    requires low < Pow2(k)
    ensures BitOr(q * Pow2(k), low) == q * Pow2(k) + low
    decreases k
  {
    if k == 0 {
      OrZero(q);
    } else {
      var high := q * Pow2(k - 1);
      DoubleProduct(q, Pow2(k - 1));
      OrDisjoint(q, k - 1, low / 2);
      OrStep(high, low);
    }
  }

  lemma OrStep(high: nat, low: nat)
    ensures BitOr(2 * high, low) == 2 * BitOr(high, low / 2) + low % 2
  {
    assert (2 * high) / 2 == high && (2 * high) % 2 == 0;
  }

  /** Bytes are equal when their eight bits are. */
  lemma ByteExtensional(a: byte, b: byte)
    requires forall j: nat | j < 8 :: Bit(a, j) == Bit(b, j)
    ensures a == b
  {
    assert Pow2(8) == 256;
    FitsIffHighBitsClear(a, 8);
    FitsIffHighBitsClear(b, 8);
    BitsExtensional(a, b);
  }

  /** The byte whose bit j is f(j). */
  function ByteOf(f: nat -> bool): (b: byte)
    ensures forall j: nat | j < 8 :: Bit(b, j) == f(j)
  {
    var b := FromBits(f, 8);
    FromBitsSpec(f, 8);
    assert Pow2(8) == 256;
    b
  }

  function FromBits(f: nat -> bool, k: nat): nat
  {
    if k == 0 then 0 else (if f(0) then 1 else 0) + 2 * FromBits((j: nat) => f(j + 1), k - 1)
  }

  lemma {:induction false} FromBitsSpec(f: nat -> bool, k: nat)
    ensures FromBits(f, k) < Pow2(k)
    ensures forall j: nat | j < k :: Bit(FromBits(f, k), j) == f(j)
    decreases k
  {
    if k > 0 {
      var g := (j: nat) => f(j + 1);
      FromBitsSpec(g, k - 1);
      var n := FromBits(f, k);
      assert n / 2 == FromBits(g, k - 1);
      forall j: nat | j < k ensures Bit(n, j) == f(j) {
        if j > 0 { assert Bit(n, j) == Bit(n / 2, j - 1) == g(j - 1); }
      }
    }
  }

  lemma {:induction false} Pow2Adds(a: nat, b: nat)
    ensures Pow2(a + b) == Pow2(a) * Pow2(b)
    decreases a
  {
    if a > 0 {
      Pow2Adds(a - 1, b);
      assert Pow2(a) * Pow2(b) == 2 * (Pow2(a - 1) * Pow2(b));
    }
  }

  lemma {:induction false} Pow2Monotone(a: nat, b: nat)
    ensures a <= b ==> Pow2(a) <= Pow2(b)
    decreases b
  {
    if a < b { Pow2Monotone(a, b - 1); }
  }

  lemma Pow2Values()
    ensures Pow2(8) == 0x100 && Pow2(16) == 0x1_0000 && Pow2(32) == 0x1_0000_0000
    ensures Pow2(64) == 0x1_0000_0000_0000_0000
  {
    assert Pow2(8) == 0x100;
    Pow2Adds(8, 8);
    Pow2Adds(16, 16);
    Pow2Adds(32, 32);
  }
}
