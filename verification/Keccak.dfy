/** src/utils/keccak: the permutation that works in place on 25 lanes, and the loop that streams a
    message through it, against the step mappings and the sponge of FIPS 202. */
module Keccak {
  import opened Bits
  import opened NumberTheory
  import opened Spans
  import opened Fips202

  type Lane = x: nat | x < 0x1_0000_0000_0000_0000
  type Lanes = s: seq<Lane> | |s| == 25 witness seq(25, _ => 0)

  const ROUNDS: nat := 24

  const RNDC: seq<Lane> := [
    0x0000000000000001, 0x0000000000008082, 0x800000000000808a,
    0x8000000080008000, 0x000000000000808b, 0x0000000080000001,
    0x8000000080008081, 0x8000000000008009, 0x000000000000008a,
    0x0000000000000088, 0x0000000080008009, 0x000000008000000a,
    0x000000008000808b, 0x800000000000008b, 0x8000000000008089,
    0x8000000000008003, 0x8000000000008002, 0x8000000000000080,
    0x000000000000800a, 0x800000008000000a, 0x8000000080008081,
    0x8000000000008080, 0x0000000080000001, 0x8000000080008008]

  const ROTC: seq<nat> := [
    1, 3, 6, 10, 15, 21, 28, 36, 45, 55, 2, 14,
    27, 41, 56, 8, 25, 43, 62, 18, 39, 61, 20, 44]

  const PILN: seq<nat> := [
    10, 7, 11, 17, 18, 3, 5, 16, 8, 21, 24, 4,
    15, 23, 19, 13, 12, 2, 20, 14, 22, 9, 6, 1]

  // ---------------------------------------------------------------- lanes

  lemma {:induction false} ComplementBit(a: nat, k: nat, j: nat)
    requires a < Pow2(k)
    ensures Bit(Pow2(k) - 1 - a, j) == (j < k && !Bit(a, j))
    decreases k
  {
    if k == 0 {
      BitOfZero(j);
    } else if j > 0 {
      assert (Pow2(k) - 1 - a) / 2 == Pow2(k - 1) - 1 - a / 2;
      ComplementBit(a / 2, k - 1, j - 1);
    }
  }

  lemma RemainderBit(n: nat, k: nat, j: nat)
    ensures Bit(n % Pow2(k), j) == (j < k && Bit(n, j))
  {
    hide Bit, Bitwise;
    MaskIsRemainder(n, k);
    BitwiseBit(And, n, Pow2(k) - 1, j);
    BitsOfMask(k, j);
  }

  function LaneXor(a: Lane, b: Lane): (r: Lane)
    ensures forall z: nat :: Bit(r, z) == (Bit(a, z) != Bit(b, z))
  {
    Pow2Values();
    BitwiseFits(Xor, a, b, 64);
    assert forall z: nat :: Bit(BitXor(a, b), z) == (Bit(a, z) != Bit(b, z)) by {
      hide Bit, Bitwise;
      forall z: nat { BitwiseBit(Xor, a, b, z); }
    }
    BitXor(a, b)
  }

  /** `~a & b`. */
  function LaneAndNot(a: Lane, b: Lane): (r: Lane)
    ensures forall z: nat | z < 64 :: Bit(r, z) == (!Bit(a, z) && Bit(b, z))
  {
    Pow2Values();
    BitwiseFits(And, 0xFFFF_FFFF_FFFF_FFFF - a, b, 64);
    assert forall z: nat | z < 64 :: Bit(BitAnd(0xFFFF_FFFF_FFFF_FFFF - a, b), z) == (!Bit(a, z) && Bit(b, z)) by {
      hide Bit, Bitwise;
      forall z: nat | z < 64 ensures Bit(BitAnd(0xFFFF_FFFF_FFFF_FFFF - a, b), z) == (!Bit(a, z) && Bit(b, z)) {
        BitwiseBit(And, 0xFFFF_FFFF_FFFF_FFFF - a, b, z);
        ComplementBit(a, 64, z);
      }
    }
    BitAnd(0xFFFF_FFFF_FFFF_FFFF - a, b)
  }

  /** ROTL64 on 64-bit words, whose `<<` drops the bits past the word. */
  function Rotl(a: Lane, n: nat): (r: Lane)
    requires 0 < n < 64
    ensures forall z: nat | z < 64 :: Bit(r, z) == Bit(a, (z + 64 - n) % 64)
  {
    var high, low := Shl(a, n) % 0x1_0000_0000_0000_0000, Shr(a, 64 - n);
    RotlFits(a, n);
    assert forall z: nat | z < 64 :: Bit(BitOr(high, low), z) == Bit(a, (z + 64 - n) % 64) by {
      forall z: nat | z < 64 ensures Bit(BitOr(high, low), z) == Bit(a, (z + 64 - n) % 64) { RotlBit(a, n, z); }
    }
    BitOr(high, low)
  }

  lemma RotlFits(a: Lane, n: nat)
    requires 0 < n < 64
    ensures BitOr(Shl(a, n) % 0x1_0000_0000_0000_0000, Shr(a, 64 - n)) < 0x1_0000_0000_0000_0000
  {
    Pow2Values();
    hide Bit, Bitwise, Shl, Shr, Pow2;
    ShrAtMost(a, 64 - n);
    BitwiseFits(Or, Shl(a, n) % 0x1_0000_0000_0000_0000, Shr(a, 64 - n), 64);
  }

  lemma {:induction false} ShrAtMost(n: nat, k: nat)
    ensures Shr(n, k) <= n
    decreases k
  {
    if k > 0 { ShrAtMost(n / 2, k - 1); }
  }

  lemma OrBits(a: nat, b: nat)
    ensures BitOr(a, b) == Bitwise(Or, a, b)
    ensures forall x, y :: Or.Apply(x, y) == (x || y)
  {}

  lemma RotlBit(a: Lane, n: nat, z: nat)
    requires 0 < n < 64 && z < 64
    ensures Bit(BitOr(Shl(a, n) % 0x1_0000_0000_0000_0000, Shr(a, 64 - n)), z) == Bit(a, (z + 64 - n) % 64)
  {
    Pow2Values();
    var high, low := Shl(a, n) % 0x1_0000_0000_0000_0000, Shr(a, 64 - n);
    hide *;
    FitsIffHighBitsClear(a, 64);
    BitwiseBit(Or, high, low, z);
    OrBits(high, low);
    RemainderBit(Shl(a, n), 64, z);
    ShlBit(a, n, z);
    ShrBit(a, 64 - n, z);
    if z >= n { ModUnique(z + 64 - n, 64, 1, z - n); } else { SmallRemainder(z + 64 - n, 64); }
  }

  // ---------------------------------------------------------------- the step mappings on lanes

  /** The parity of column x; lane (x, y) is number 5y + x. */
  function Column(s: Lanes, x: nat): Lane
    requires x < 5
  {
    LaneXor(LaneXor(LaneXor(LaneXor(s[x], s[x + 5]), s[x + 10]), s[x + 15]), s[x + 20])
  }

  function ThetaMask(s: Lanes, x: nat): Lane
    requires x < 5
  {
    LaneXor(Column(s, (x + 4) % 5), Rotl(Column(s, (x + 1) % 5), 1))
  }

  function Theta(s: Lanes): Lanes {
    seq(25, k requires 0 <= k < 25 => LaneXor(s[k], ThetaMask(s, k % 5)))
  }

  lemma TablesInRange()
    ensures |PILN| == |ROTC| == 24 && forall t | 0 <= t < 24 :: 0 < PILN[t] < 25 && 0 < ROTC[t] < 64
  {}

  /** Round t of the combined rho and pi loop: the lane it fills, the lane it takes up, and by how
      much it rotates. */
  function Fills(t: nat): (k: nat)
    requires t < 24
    ensures 0 < k < 25
  {
    TablesInRange();
    PILN[t]
  }

  function Takes(t: nat): (k: nat)
    requires t < 24
    ensures 0 < k < 25
  {
    if t == 0 then 1 else Fills(t - 1)
  }

  function RotatesBy(t: nat): (n: nat)
    requires t < 24
    ensures 0 < n < 64
  {
    TablesInRange();
    ROTC[t]
  }

  const FILLED: seq<nat> := [
    24, 23, 17, 5, 11, 6, 22, 1, 8, 21, 0, 2,
    16, 15, 19, 12, 7, 3, 4, 14, 18, 9, 20, 13, 10]

  /** The round that fills lane k. */
  function FilledBy(k: nat): (t: nat)
    requires 0 < k < 25
    ensures t < 24 && Fills(t) == k
  {
    FilledInRange(k);
    FILLED[k]
  }

  lemma FilledInRange(k: nat)
    requires 0 < k < 25
    ensures |FILLED| == 25 && FILLED[k] < 24 && PILN[FILLED[k]] == k
  {}

  lemma FilledOnce(t: nat)
    requires t < 24
    ensures FilledBy(Fills(t)) == t
  {}

  function RhoPi(s: Lanes): Lanes {
    seq(25, k requires 0 <= k < 25 => if k == 0 then s[0] else RhoPiLane(s, FilledBy(k)))
  }

  function RhoPiLane(s: Lanes, t: nat): Lane
    requires t < 24
  {
    Rotl(s[Takes(t)], RotatesBy(t))
  }

  function Chi(s: Lanes): Lanes {
    seq(25, k requires 0 <= k < 25 => ChiLane(s, k / 5, k % 5))
  }

  function ChiLane(s: Lanes, y: nat, x: nat): Lane
    requires x < 5 && y < 5
  {
    LaneXor(s[5 * y + x], LaneAndNot(s[5 * y + (x + 1) % 5], s[5 * y + (x + 2) % 5]))
  }

  function Iota(s: Lanes, round: nat): Lanes
    requires round < ROUNDS
  {
    s[0 := LaneXor(s[0], RNDC[round])]
  }

  function Round(s: Lanes, round: nat): Lanes
    requires round < ROUNDS
  {
    Iota(Chi(RhoPi(Theta(s))), round)
  }

  /** The state after the first n rounds. */
  function Rounds(s: Lanes, n: nat): Lanes
    requires n <= ROUNDS
  {
    if n == 0 then s else Round(Rounds(s, n - 1), n - 1)
  }

  // ---------------------------------------------------------------- the loops

  method ThetaStep(st: array<Lane>)
    requires st.Length == 25
    modifies st
    ensures st[..] == Theta(old(st[..]))
  {
    hide LaneXor, Rotl, Column, ThetaMask;
    ghost var s: Lanes := st[..];
    var bc := new Lane[5](_ => 0);
    for i := 0 to 5
      invariant st[..] == s && forall x | 0 <= x < i :: bc[x] == Column(s, x)
    {
      bc[i] := ColumnOf(st, i);
    }
    for i := 0 to 5
      invariant forall x | 0 <= x < 5 :: bc[x] == Column(s, x)
      invariant forall k | 0 <= k < 25 :: st[k] == if k % 5 < i then LaneXor(s[k], ThetaMask(s, k % 5)) else s[k]
    {
      var t := MaskOf(bc, i, s);
      XorColumn(st, i, t);
    }
  }

  /** The inner loop of theta: one mask into the five lanes of a column. */
  method XorColumn(st: array<Lane>, i: nat, t: Lane)
    requires st.Length == 25 && i < 5
    modifies st
    ensures forall k | 0 <= k < 25 :: st[k] == if k % 5 == i then LaneXor(old(st[k]), t) else old(st[k])
  {
    hide LaneXor;
    var j := 0;
    while j < 25
      invariant j % 5 == 0 && j <= 25
      invariant forall k | 0 <= k < 25 :: st[k] == if k % 5 == i && k < j then LaneXor(old(st[k]), t) else old(st[k])
    {
      st[j + i] := LaneXor(st[j + i], t);
      j := j + 5;
    }
  }

  method ColumnOf(st: array<Lane>, i: nat) returns (c: Lane)
    requires st.Length == 25 && i < 5
    ensures c == Column(st[..], i)
  {
    return LaneXor(LaneXor(LaneXor(LaneXor(st[i], st[i + 5]), st[i + 10]), st[i + 15]), st[i + 20]);
  }

  method MaskOf(bc: array<Lane>, i: nat, ghost s: Lanes) returns (t: Lane)
    requires bc.Length == 5 && i < 5 && forall x | 0 <= x < 5 :: bc[x] == Column(s, x)
    ensures t == ThetaMask(s, i)
  {
    hide Column, LaneXor, Rotl;
    return LaneXor(bc[(i + 4) % 5], Rotl(bc[(i + 1) % 5], 1));
  }

  /** The lanes after i rounds of the combined loop. */
  ghost predicate RhoPiDone(s: Lanes, cur: seq<Lane>, i: nat) {
    && |cur| == 25 && cur[0] == s[0]
    && forall k | 0 < k < 25 :: cur[k] == if FilledBy(k) < i then RhoPiLane(s, FilledBy(k)) else s[k]
  }

  lemma RhoPiNext(s: Lanes, cur: seq<Lane>, i: nat)
    requires RhoPiDone(s, cur, i) && i < 24
    ensures cur[Fills(i)] == s[Fills(i)]
    ensures RhoPiDone(s, cur[Fills(i) := RhoPiLane(s, i)], i + 1)
  {
    FilledOnce(i);
    hide RhoPiLane, Fills, FilledBy;
  }

  method RhoPiStep(st: array<Lane>)
    requires st.Length == 25
    modifies st
    ensures st[..] == RhoPi(old(st[..]))
  {
    ghost var s: Lanes := st[..];
    var t := st[1];
    assert RhoPiDone(s, st[..], 0);
    hide Rotl, RhoPiDone, RhoPi;
    for i := 0 to 24
      invariant (i < 24 ==> t == s[Takes(i)]) && RhoPiDone(s, st[..], i)
    {
      ghost var cur := st[..];
      RhoPiNext(s, cur, i);
      TablesInRange();
      var j := PILN[i];
      var bc0 := st[j];
      st[j] := Rotl(t, ROTC[i]);
      assert st[..] == cur[j := st[j]];
      t := bc0;
    }
    AllFilled(s, st[..]);
  }

  lemma AllFilled(s: Lanes, cur: seq<Lane>)
    requires RhoPiDone(s, cur, 24)
    ensures cur == RhoPi(s)
  {
    hide RhoPiLane;
  }

  method ChiStep(st: array<Lane>)
    requires st.Length == 25
    modifies st
    ensures st[..] == Chi(old(st[..]))
  {
    hide ChiLane;
    ghost var s: Lanes := st[..];
    var bc := new Lane[5](_ => 0);
    for y := 0 to 5
      invariant forall k | 0 <= k < 25 :: st[k] == if k < 5 * y then ChiLane(s, k / 5, k % 5) else s[k]
    {
      ChiRow(st, bc, y, s);
    }
  }

  method ChiRow(st: array<Lane>, bc: array<Lane>, y: nat, ghost s: Lanes)
    requires st.Length == 25 && bc.Length == 5 && st != bc && y < 5
    requires forall k | 5 * y <= k < 25 :: st[k] == s[k]
    modifies st, bc
    ensures forall k | 0 <= k < 25 ::
      st[k] == if 5 * y <= k < 5 * y + 5 then ChiLane(s, k / 5, k % 5) else old(st[k])
  {
    hide LaneXor, LaneAndNot, ChiLane;
    var j := 5 * y;
    for i := 0 to 5
      invariant forall x | 0 <= x < i :: bc[x] == s[j + x]
      invariant forall k | 0 <= k < 25 :: st[k] == old(st[k])
    {
      bc[i] := st[j + i];
    }
    for i := 0 to 5
      invariant forall x | 0 <= x < 5 :: bc[x] == s[j + x]
      invariant forall k | 0 <= k < 25 :: st[k] == if j <= k < j + i then ChiLane(s, y, k - j) else old(st[k])
    {
      st[j + i] := ChiOf(st[j + i], bc, i, y, s);
    }
    forall k | j <= k < j + 5 ensures k / 5 == y && k % 5 == k - j {}
  }

  method ChiOf(lane: Lane, bc: array<Lane>, i: nat, ghost y: nat, ghost s: Lanes) returns (r: Lane)
    requires bc.Length == 5 && i < 5 && y < 5 && lane == s[5 * y + i] && forall x | 0 <= x < 5 :: bc[x] == s[5 * y + x]
    ensures r == ChiLane(s, y, i)
  {
    hide LaneXor, LaneAndNot;
    var next, second: nat := (i + 1) % 5, (i + 2) % 5;
    return LaneXor(lane, LaneAndNot(bc[next], bc[second]));
  }

  /** `keccakf`. */
  method Keccakf(st: array<Lane>, rounds: nat)
    requires st.Length == 25 && rounds <= ROUNDS
    modifies st
    ensures st[..] == Rounds(old(st[..]), rounds)
    ensures StateBits(st[..]) == KeccakP(StateBits(old(st[..])), rounds)
  {
    hide Theta, RhoPi, Chi, LaneXor, StateBits, KeccakP;
    RoundsAreKeccakP(st[..], rounds);
    for round := 0 to rounds
      invariant st[..] == Rounds(old(st[..]), round)
    {
      ThetaStep(st);
      RhoPiStep(st);
      ChiStep(st);
      ghost var before := st[..];
      st[0] := LaneXor(st[0], RNDC[round]);
      assert st[..] == Iota(before, round);
    }
  }

  // ---------------------------------------------------------------- FIPS 202, section 3.2: the step mappings on bits

  /** Bit A[x, y, z] of the state array. */
  predicate StateBit(s: Lanes, x: nat, y: nat, z: nat)
    requires x < 5 && y < 5
  {
    Bit(s[5 * y + x], z)
  }

  /** C[x, z] of section 3.2.1. */
  predicate Parity(s: Lanes, x: nat, z: nat)
    requires x < 5
  {
    (((StateBit(s, x, 0, z) != StateBit(s, x, 1, z)) != StateBit(s, x, 2, z)) != StateBit(s, x, 3, z)) != StateBit(s,
        x, 4, z)
  }

  lemma LaneNumber(x: nat, y: nat)
    requires x < 5 && y < 5
    ensures (5 * y + x) % 5 == x && (5 * y + x) / 5 == y
  {}

  lemma ColumnBit(s: Lanes, x: nat, z: nat)
    requires x < 5
    ensures Bit(Column(s, x), z) == Parity(s, x, z)
  {
    hide Bit, LaneXor;
  }

  /** Section 3.2.1. */
  lemma ThetaBits(s: Lanes, x: nat, y: nat, z: nat)
    requires x < 5 && y < 5 && z < 64
    ensures StateBit(Theta(s), x, y, z)
         == (StateBit(s, x, y, z) != (Parity(s, (x + 4) % 5, z) != Parity(s, (x + 1) % 5, (z + 63) % 64)))
  {
    hide Bit, LaneXor, Rotl, Column, Parity;
    LaneNumber(x, y);
    ColumnBit(s, (x + 4) % 5, z);
    ColumnBit(s, (x + 1) % 5, (z + 63) % 64);
  }

  lemma TablesFollowWalk(t: nat)
    requires t < 24
    ensures Fills(t) % 5 == Takes(t) / 5 && Fills(t) / 5 == (2 * (Takes(t) % 5) + 3 * (Takes(t) / 5)) % 5
  {
    if t < 12 { FirstRoundsFollowWalk(t); } else { LastRoundsFollowWalk(t); }
  }

  lemma FirstRoundsFollowWalk(t: nat)
    requires t < 12
    ensures Fills(t) % 5 == Takes(t) / 5 && Fills(t) / 5 == (2 * (Takes(t) % 5) + 3 * (Takes(t) / 5)) % 5
  {}

  lemma LastRoundsFollowWalk(t: nat)
    requires 12 <= t < 24
    ensures Fills(t) % 5 == Takes(t) / 5 && Fills(t) / 5 == (2 * (Takes(t) % 5) + 3 * (Takes(t) / 5)) % 5
  {}

  lemma TableOfOffsets(t: nat)
    requires t < 24
    ensures RotatesBy(t) == Offset(t) % 64
  {}

  lemma TakesWhatWasFilled(t: nat)
    requires t < 23
    ensures Takes(t + 1) == Fills(t)
  {
    hide Fills;
  }

  lemma WalkStarts()
    ensures Walk(0) == (1, 0) && Takes(0) == 1
  {}

  lemma WalkStep(t: nat)
    ensures Walk(t + 1) == (Walk(t).1, (2 * Walk(t).0 + 3 * Walk(t).1) % 5)
  {}

  /** The tables are the walk: round t takes up the lane the walk has reached after t steps. */
  lemma {:induction false} TakesFollowsWalk(t: nat)
    requires t < 24
    ensures Walk(t) == (Takes(t) % 5, Takes(t) / 5)
  {
    hide *;
    if t == 0 {
      WalkStarts();
    } else {
      TakesFollowsWalk(t - 1);
      TablesFollowWalk(t - 1);
      TakesWhatWasFilled(t - 1);
      WalkStep(t - 1);
    }
  }

  /** Sections 3.2.2 and 3.2.3: the lane at the walk's step t is rotated by its offset and moved to
      where pi takes it; the lane (0, 0) stays. */
  lemma RhoPiBits(s: Lanes, t: nat, z: nat)
    requires t < 24 && z < 64
    ensures var (x, y) := Walk(t);
            && x < 5 && y < 5
            && StateBit(RhoPi(s), y, (2 * x + 3 * y) % 5, z) == StateBit(s, x, y, (z + 64 - Offset(t) % 64) % 64)
    ensures StateBit(RhoPi(s), 0, 0, z) == StateBit(s, 0, 0, z)
  {
    hide Bit, Rotl, Walk, Takes, Fills, FilledBy, RotatesBy, Offset;
    TakesFollowsWalk(t);
    TablesFollowWalk(t);
    TableOfOffsets(t);
    FilledOnce(t);
    var k := Takes(t);
    assert RhoPi(s)[Fills(t)] == Rotl(s[k], RotatesBy(t));
    assert k == 5 * (k / 5) + k % 5 && Fills(t) == 5 * (Fills(t) / 5) + Fills(t) % 5;
  }

  /** The walk reaches every lane but (0, 0). */
  lemma WalkReaches(x: nat, y: nat) returns (t: nat)
    requires x < 5 && y < 5 && (x, y) != (0, 0)
    ensures t < 24 && Walk(t) == (x, y)
  {
    var k := 5 * y + x;
    LaneNumber(x, y);
    t := if k == 1 then 0 else FilledBy(k) + 1;
    TakenSomewhere(k);
    hide Takes, FilledBy, Walk;
    TakesFollowsWalk(t);
  }

  lemma TakenSomewhere(k: nat)
    requires 0 < k < 25
    ensures if k == 1 then Takes(0) == k else FilledBy(k) + 1 < 24 && Takes(FilledBy(k) + 1) == k
  {}

  /** The place where pi puts the lane that section 3.2.3 names as the source of (x, y) is (x, y). */
  lemma PiSource(x: nat, y: nat)
    requires x < 5 && y < 5
    ensures (2 * ((x + 3 * y) % 5) + 3 * x) % 5 == y
  {
    var q := (x + 3 * y) / 5;
    assert (x + 3 * y) % 5 == x + 3 * y - 5 * q;
    ModUnique(2 * ((x + 3 * y) % 5) + 3 * x, 5, x + y - 2 * q, y);
  }

  /** Rho and pi, for every lane (x, y) of the result: it is lane (x + 3y, x) of the state, rotated by
      the offset section 3.2.2 gives that lane. */
  lemma RhoPiSource(s: Lanes, x: nat, y: nat, z: nat) returns (t: nat)
    requires x < 5 && y < 5 && z < 64
    ensures var x' := (x + 3 * y) % 5;
            if (x', x) == (0, 0) then StateBit(RhoPi(s), x, y, z) == StateBit(s, x', x, z)
            else
              && t < 24 && Walk(t) == (x', x)
              && StateBit(RhoPi(s), x, y, z) == StateBit(s, x', x, (z + 64 - Offset(t) % 64) % 64)
  {
    hide *;
    var x' := (x + 3 * y) % 5;
    PiSource(x, y);
    t := 0;
    if (x', x) == (0, 0) {
      RhoPiBits(s, t, z);
    } else {
      t := WalkReaches(x', x);
      RhoPiBits(s, t, z);
    }
  }

  /** Section 3.2.4. */
  lemma ChiBits(s: Lanes, x: nat, y: nat, z: nat)
    requires x < 5 && y < 5 && z < 64
    ensures StateBit(Chi(s), x, y, z)
         == (StateBit(s, x, y, z) != (!StateBit(s, (x + 1) % 5, y, z) && StateBit(s, (x + 2) % 5, y, z)))
  {
    hide Bit, LaneXor, LaneAndNot;
    LaneNumber(x, y);
  }

  /** Section 3.2.5. */
  lemma IotaBits(s: Lanes, round: nat, x: nat, y: nat, z: nat)
    requires round < ROUNDS && x < 5 && y < 5 && z < 64
    ensures StateBit(Iota(s, round), x, y, z)
         == (StateBit(s, x, y, z) != ((x, y) == (0, 0) && Bit(RNDC[round], z)))
  {
    hide Bit, LaneXor;
  }

  // ---------------------------------------------------------------- the rounds on bits

  /** The string of a state, section 3.1.2. */
  function StateBits(s: Lanes): State {
    seq(1600, i requires 0 <= i < 1600 => Bit(s[i / 64], i % 64))
  }

  lemma StateBitsAt(s: Lanes, x: nat, y: nat, z: nat)
    requires x < 5 && y < 5 && z < 64
    ensures A(StateBits(s), x, y, z) == StateBit(s, x, y, z)
  {
    hide Bit;
    var k := 5 * y + x;
    assert (64 * k + z) / 64 == k && (64 * k + z) % 64 == z;
  }

  lemma ParityIsC(s: Lanes, x: nat, z: nat)
    requires x < 5 && z < 64
    ensures Parity(s, x, z) == C(StateBits(s), x, z)
  {
    hide StateBits, StateBit, A;
    StateBitsAt(s, x, 0, z);
    StateBitsAt(s, x, 1, z);
    StateBitsAt(s, x, 2, z);
    StateBitsAt(s, x, 3, z);
    StateBitsAt(s, x, 4, z);
  }

  lemma ThetaIsThetaBit(s: Lanes, x: nat, y: nat, z: nat)
    requires x < 5 && y < 5 && z < 64
    ensures StateBit(Theta(s), x, y, z) == ThetaBit(StateBits(s), x, y, z)
  {
    hide StateBits, StateBit, A, C, Parity, Theta;
    ThetaBits(s, x, y, z);
    StateBitsAt(s, x, y, z);
    ParityIsC(s, (x + 4) % 5, z);
    ParityIsC(s, (x + 1) % 5, (z + 63) % 64);
  }

  /** The walk gives the offsets of table 2. */
  lemma OffsetsAreTable2(t: nat)
    requires t < 24
    ensures RhoOffset(Takes(t) % 5, Takes(t) / 5) == Offset(t)
  {
    if t < 12 { FirstOffsets(t); } else { LastOffsets(t); }
    assert 5 * (Takes(t) / 5) + Takes(t) % 5 == Takes(t);
  }

  lemma FirstOffsets(t: nat)
    requires t < 12
    ensures |OFFSETS| == 25 && OFFSETS[Takes(t)] == Offset(t)
  {}

  lemma LastOffsets(t: nat)
    requires 12 <= t < 24
    ensures |OFFSETS| == 25 && OFFSETS[Takes(t)] == Offset(t)
  {}

  lemma RhoPiIsPiBit(s: Lanes, x: nat, y: nat, z: nat)
    requires x < 5 && y < 5 && z < 64
    ensures StateBit(RhoPi(Theta(s)), x, y, z) == PiBit(StateBits(s), x, y, z)
  {
    hide StateBits, StateBit, ThetaBit, RhoPi, Theta, Walk, Offset, RhoOffset;
    var x' := (x + 3 * y) % 5;
    var t := RhoPiSource(Theta(s), x, y, z);
    if (x', x) == (0, 0) {
      NoOffset();
      ThetaIsThetaBit(s, 0, 0, z);
    } else {
      TakesFollowsWalk(t);
      OffsetsAreTable2(t);
      var o := Offset(t);
      PlaceBelow(z, o);
      ThetaIsThetaBit(s, x', x, (z - o) % 64);
    }
  }

  lemma NoOffset()
    ensures RhoOffset(0, 0) == 0
  {}

  lemma PlaceBelow(z: nat, o: nat)
    requires z < 64
    ensures (z + 64 - o % 64) % 64 == (z - o) % 64
  {
    ModShift(z - o, o / 64 + 1, 64);
    assert z + 64 - o % 64 == z - o + 64 * (o / 64 + 1);
  }

  /** Any bit of the state after a round, as one formula in the bits of the state before it. */
  lemma RoundBits(s: Lanes, round: nat, x: nat, y: nat, z: nat)
    requires round < ROUNDS && x < 5 && y < 5 && z < 64
    ensures StateBit(Round(s, round), x, y, z) == RoundBit(StateBits(s), round, x, y, z)
  {
    hide StateBits, StateBit, PiBit, RhoPi, Theta, Chi, Iota, Bit, RoundConstant;
    IotaBits(Chi(RhoPi(Theta(s))), round, x, y, z);
    RoundConstantsAreGenerated(round);
    ChiBits(RhoPi(Theta(s)), x, y, z);
    RhoPiIsPiBit(s, x, y, z);
    RhoPiIsPiBit(s, (x + 1) % 5, y, z);
    RhoPiIsPiBit(s, (x + 2) % 5, y, z);
  }

  lemma RoundIsRnd(s: Lanes, round: nat)
    requires round < ROUNDS
    ensures StateBits(Round(s, round)) == Rnd(StateBits(s), round)
  {
    hide *;
    var r := Round(s, round);
    forall i: nat | i < 1600 ensures StateBits(r)[i] == Rnd(StateBits(s), round)[i] {
      var x, y, z := i / 64 % 5, i / 320, i % 64;
      assert 64 * (5 * y + x) + z == i;
      RoundBits(s, round, x, y, z);
      StateBitsAt(r, x, y, z);
      RndAt(StateBits(s), round, i);
      AIs(StateBits(r), x, y, z);
    }
  }

  lemma RndAt(S: State, round: nat, i: nat)
    requires i < 1600
    ensures Rnd(S, round)[i] == RoundBit(S, round, i / 64 % 5, i / 320, i % 64)
  {
    hide RoundBit;
  }

  lemma AIs(S: State, x: nat, y: nat, z: nat)
    requires x < 5 && y < 5 && z < 64
    ensures A(S, x, y, z) == S[64 * (5 * y + x) + z]
  {}

  /** The rounds on lanes are those of the standard on bits. */
  lemma {:induction false} RoundsAreKeccakP(s: Lanes, n: nat)
    requires n <= ROUNDS
    ensures StateBits(Rounds(s, n)) == KeccakP(StateBits(s), n)
  {
    hide StateBits, Round, Rnd;
    if n > 0 {
      RoundsAreKeccakP(s, n - 1);
      RoundIsRnd(Rounds(s, n - 1), n - 1);
    }
  }


  lemma RcBelow(t: nat)
    requires t < 255
    ensures Rc(t) == Bit01(Lfsr(t).r0)
  {
    hide Lfsr, Bit01;
    assert t % 255 == t;
  }

  lemma Advance(t: nat)
    ensures Lfsr(t + 7) == Lfsr(t).Step().Step().Step().Step().Step().Step().Step()
  {
    assert Lfsr(t + 1) == Lfsr(t).Step() && Lfsr(t + 2) == Lfsr(t + 1).Step();
    assert Lfsr(t + 3) == Lfsr(t + 2).Step() && Lfsr(t + 4) == Lfsr(t + 3).Step();
    assert Lfsr(t + 5) == Lfsr(t + 4).Step() && Lfsr(t + 6) == Lfsr(t + 5).Step();
  }

  /** The register after every seventh step. */
  const REGISTERS: seq<Register> := [
    Register(true, false, false, false, false, false, false, false),
    Register(false, false, false, false, false, false, false, true),
    Register(false, false, false, true, true, false, true, true),
    Register(false, true, false, true, true, false, false, false),
    Register(true, true, true, true, true, false, true, true),
    Register(true, false, false, true, false, false, false, false),
    Register(true, false, true, false, true, true, false, false),
    Register(true, true, true, true, false, false, true, false),
    Register(false, true, false, true, false, false, true, true),
    Register(false, false, false, false, true, true, true, false),
    Register(true, false, false, false, false, false, true, false),
    Register(false, false, true, true, false, true, true, true),
    Register(true, false, true, false, true, false, true, true),
    Register(true, false, true, true, false, false, true, true),
    Register(true, true, false, false, false, true, true, false),
    Register(true, true, false, true, false, true, false, true),
    Register(false, true, false, true, false, true, false, true),
    Register(false, true, false, true, false, true, false, false),
    Register(false, true, false, false, true, true, true, true),
    Register(false, false, false, true, false, true, true, true),
    Register(true, true, true, false, true, true, false, false),
    Register(false, true, true, true, true, true, false, false),
    Register(true, true, false, true, false, false, false, false),
    Register(false, false, true, false, false, false, true, false),
    Register(false, true, true, true, false, false, false, true)]

  function SevenSteps(r: Register): Register { r.Step().Step().Step().Step().Step().Step().Step() }

  lemma RegistersAdvance(i: nat)
    requires i < 24
    ensures |REGISTERS| == 25 && SevenSteps(REGISTERS[i]) == REGISTERS[i + 1]
  {
    if i < 12 { FirstRegistersAdvance(i); } else { LastRegistersAdvance(i); }
  }

  lemma FirstRegistersAdvance(i: nat)
    requires i < 12
    ensures |REGISTERS| == 25 && SevenSteps(REGISTERS[i]) == REGISTERS[i + 1]
  {}

  lemma LastRegistersAdvance(i: nat)
    requires 12 <= i < 24
    ensures |REGISTERS| == 25 && SevenSteps(REGISTERS[i]) == REGISTERS[i + 1]
  {}

  lemma {:induction false} RegisterAt(i: nat)
    requires i <= 24
    ensures |REGISTERS| == 25 && Lfsr(7 * i) == REGISTERS[i]
  {
    if i > 0 {
      RegisterAt(i - 1);
      Advance(7 * (i - 1));
      RegistersAdvance(i - 1);
    }
  }

  /** The bit the register gives after j steps, for j < 7. */
  function Ahead(r: Register, j: nat): bool
    decreases j
  {
    if j == 0 then r.r0 else Ahead(r.Step(), j - 1)
  }

  lemma {:induction false} AheadInTime(t: nat, j: nat)
    ensures Ahead(Lfsr(t), j) == Lfsr(t + j).r0
    decreases j
  {
    if j > 0 { AheadInTime(t + 1, j - 1); }
  }

  /** The same bit, in terms of the register. */
  function Soon(r: Register, j: nat): nat
    requires j < 7
  {
    Bit01(if j == 0 then r.r0
          else if j == 1 then r.r7
          else if j == 2 then r.r6
          else if j == 3 then r.r5 != r.r7
          else if j == 4 then r.r4 != (r.r6 != r.r7)
          else if j == 5 then r.r3 != (r.r5 != r.r6)
          else r.r2 != (r.r4 != r.r5))
  }

  function ConstantOf(r: Register): nat {
    Spread(Soon(r, 0), Soon(r, 1), Soon(r, 2), Soon(r, 3), Soon(r, 4), Soon(r, 5), Soon(r, 6))
  }

  lemma {:induction false} SoonIsAhead(r: Register, j: nat)
    requires j < 7
    ensures Soon(r, j) == Bit01(Ahead(r, j))
    decreases j
  {
    var s := r.Step().Step().Step();
    if j >= 3 {
      assert Ahead(r, j) == Ahead(r.Step(), j - 1) == Ahead(r.Step().Step(), j - 2) == Ahead(s, j - 3);
      SoonIsAhead(s, j - 3);
    } else if j > 0 {
      SoonIsAhead(r.Step(), j - 1);
    }
  }

  lemma RcAhead(t: nat, j: nat)
    requires t + j < 255 && j < 7
    ensures Rc(t + j) == Soon(Lfsr(t), j)
  {
    hide Rc, Lfsr, Soon;
    AheadInTime(t, j);
    RcBelow(t + j);
    SoonIsAhead(Lfsr(t), j);
  }

  lemma ConstantFromRegister(round: nat)
    requires round < ROUNDS
    ensures RoundConstant(round) == ConstantOf(Lfsr(7 * round))
  {
    hide Rc, Lfsr, Soon, Spread;
    var t := 7 * round;
    RcAhead(t, 0);
    RcAhead(t, 1);
    RcAhead(t, 2);
    RcAhead(t, 3);
    RcAhead(t, 4);
    RcAhead(t, 5);
    RcAhead(t, 6);
  }

  /** The table of round constants is the one the shift register generates. */
  lemma RoundConstantsAreGenerated(round: nat)
    requires round < ROUNDS
    ensures |RNDC| == ROUNDS && RNDC[round] == RoundConstant(round)
  {
    hide RoundConstant, ConstantOf, Lfsr;
    RegisterAt(round);
    ConstantFromRegister(round);
    if round < 12 { FirstConstants(round); } else { LastConstants(round); }
  }

  lemma FirstConstants(i: nat)
    requires i < 12
    ensures |REGISTERS| == 25 && |RNDC| == ROUNDS && RNDC[i] == ConstantOf(REGISTERS[i])
  {}

  lemma LastConstants(i: nat)
    requires 12 <= i < 24
    ensures |REGISTERS| == 25 && |RNDC| == ROUNDS && RNDC[i] == ConstantOf(REGISTERS[i])
  {}

  // ---------------------------------------------------------------- bytes and lanes

  /** Eight bytes as a lane, the first byte lowest. */
  function LaneOf(block: seq<byte>, i: nat): Lane
    requires 8 * i + 8 <= |block|
  {
    FromBytes(block[8 * i..8 * i + 8])
  }

  function FromBytes(b: seq<byte>): (n: nat)
    requires |b| <= 8
    ensures n < Pow2(8 * |b|) <= 0x1_0000_0000_0000_0000
  {
    Pow2Values();
    Pow2Monotone(8 * |b|, 64);
    if b == [] then 0
    else
      Pow2Adds(8, 8 * (|b| - 1));
      b[0] + 256 * FromBytes(b[1..])
  }

  function LaneByte(a: Lane, k: nat): byte { Shr(a, 8 * k) % 256 }

  lemma ByteAndRest(a: byte, rest: nat, z: nat)
    ensures Bit(a + 256 * rest, z) == if z < 8 then Bit(a, z) else Bit(rest, z - 8)
  {
    var n := a + 256 * rest;
    Pow2Values();
    if z < 8 {
      RemainderBit(n, 8, z);
      assert n % 256 == a;
    } else {
      ShiftsArePowers(n, 8);
      ShrBit(n, 8, z - 8);
      assert n / 256 == rest;
    }
  }

  lemma {:induction false} FromBytesBit(b: seq<byte>, z: nat)
    requires z < 8 * |b| <= 64
    ensures Bit(FromBytes(b), z) == Bit(b[z / 8], z % 8)
    decreases |b|
  {
    hide Bit, Pow2;
    ByteAndRest(b[0], FromBytes(b[1..]), z);
    if z >= 8 {
      FromBytesBit(b[1..], z - 8);
      assert (z - 8) / 8 == z / 8 - 1 && (z - 8) % 8 == z % 8;
    }
  }

  /** Section 3.1.2: bit z of lane i is bit 64 i + z of the string. */
  lemma LaneOfBit(block: seq<byte>, i: nat, z: nat)
    requires 8 * i + 8 <= |block| && z < 64
    ensures Bit(LaneOf(block, i), z) == Bit(block[8 * i + z / 8], z % 8)
  {
    hide Bit, FromBytes;
    FromBytesBit(block[8 * i..8 * i + 8], z);
  }

  lemma LaneByteBit(a: Lane, k: nat, j: nat)
    requires k < 8 && j < 8
    ensures Bit(LaneByte(a, k), j) == Bit(a, 8 * k + j)
  {
    hide Bit;
    Pow2Values();
    RemainderBit(Shr(a, 8 * k), 8, j);
    ShrBit(a, 8 * k, j);
  }

  // ---------------------------------------------------------------- the sponge of sections 4 and 5

  /** The block xored into the state; a last incomplete lane of it is not. */
  function XorBlock(s: Lanes, block: seq<byte>): Lanes {
    seq(25, i requires 0 <= i < 25 => if 8 * i + 8 <= |block| then LaneXor(s[i], LaneOf(block, i)) else s[i])
  }

  /** Bit by bit, a whole lane of the block is xored in and the rest is not. */
  lemma XorBlockBits(s: Lanes, block: seq<byte>, i: nat, z: nat)
    requires |block| <= 200 && i < 25 && z < 64
    ensures Bit(XorBlock(s, block)[i], z) ==
        (Bit(s[i], z) != (8 * i + 8 <= |block| && Bit(block[8 * i + z / 8], z % 8)))
  {
    hide Bit, LaneXor, LaneOf;
    if 8 * i + 8 <= |block| { LaneOfBit(block, i, z); }
  }

  /** The last bytes of a block that do not fill a lane do not reach the state. */
  lemma LastBytesAreIgnored(s: Lanes, a: seq<byte>, b: seq<byte>)
    requires |a| == |b| <= 200 && a[..|a| - |a| % 8] == b[..|b| - |b| % 8]
    ensures XorBlock(s, a) == XorBlock(s, b)
  {
    hide LaneXor, LaneOf;
    forall i: nat | i < 25 && 8 * i + 8 <= |a| ensures LaneOf(a, i) == LaneOf(b, i) {
      assert 8 * i + 8 <= |a| - |a| % 8;
      SameLane(a, b, |a| - |a| % 8, i);
    }
    assert XorBlock(s, a) == XorBlock(s, b);
  }

  lemma SameLane(a: seq<byte>, b: seq<byte>, m: nat, i: nat)
    requires |a| == |b| && m <= |a| && a[..m] == b[..m] && 8 * i + 8 <= m
    ensures LaneOf(a, i) == LaneOf(b, i)
  {
    hide FromBytes;
    assert a[8 * i..8 * i + 8] == a[..m][8 * i..8 * i + 8];
    assert b[8 * i..8 * i + 8] == b[..m][8 * i..8 * i + 8];
  }

  /** No two blocks of r bytes do the same to a state. */
  ghost predicate EveryByteCounts(r: nat) {
    forall s: Lanes, a: seq<byte>, b: seq<byte> | |a| == r && |b| == r && XorBlock(s, a) == XorBlock(s, b) :: a == b
  }

  lemma EveryByteCountsForWholeLanes(s: Lanes, a: seq<byte>, b: seq<byte>)
    requires |a| == |b| <= 200 && |a| % 8 == 0 && XorBlock(s, a) == XorBlock(s, b)
    ensures a == b
  {
    hide Bit, XorBlock;
    forall k | 0 <= k < |a| ensures a[k] == b[k] {
      forall j: nat | j < 8 ensures Bit(a[k], j) == Bit(b[k], j) {
        var z := 8 * (k % 8) + j;
        assert 8 * (k / 8) + z / 8 == k && z % 8 == j;
        XorBlockBits(s, a, k / 8, z);
        XorBlockBits(s, b, k / 8, z);
      }
      ByteExtensional(a[k], b[k]);
    }
  }

  /** The loop takes up the whole of every block exactly when the rate is a number of lanes. */
  lemma EveryByteCountsIff(r: nat)
    requires 0 < r <= 200
    ensures EveryByteCounts(r) <==> r % 8 == 0
  {
    hide XorBlock;
    if r % 8 == 0 {
      forall s: Lanes, a: seq<byte>, b: seq<byte> | |a| == r && |b| == r && XorBlock(s, a) == XorBlock(s, b)
        ensures a == b
      {
        EveryByteCountsForWholeLanes(s, a, b);
      }
    } else {
      var a, b := CollidingBlocks(r);
    }
  }

  /** r bytes, all zero but perhaps the last. */
  function LastByteSet(r: nat, last: byte): (b: seq<byte>)
    requires r > 0
    ensures |b| == r && b[r - 1] == last && forall k | 0 <= k < r - 1 :: b[k] == 0
  {
    seq<byte>(r - 1, _ => 0) + [last]
  }

  function ZeroState(): Lanes { seq(25, _ => 0) }

  lemma NextBlockFits(n: nat, r: nat)
    ensures Span(n + 1, r) == Span(n, r) + r
  {}

  /** The n-th block of r bytes. */
  function BlockOf(p: seq<byte>, r: nat, n: nat): (block: seq<byte>)
    requires Span(n + 1, r) <= |p|
    ensures |block| == r
  {
    p[Span(n, r)..Span(n, r) + r]
  }

  /** The state the loop reaches after the first n blocks. */
  function Absorb(p: seq<byte>, r: nat, n: nat): Lanes
    requires Span(n, r) <= |p|
  {
    if n == 0 then ZeroState()
    else
      hide *;
      NextBlockFits(n - 1, r);
      Rounds(XorBlock(Absorb(p, r, n - 1), BlockOf(p, r, n - 1)), ROUNDS)
  }

  /** The first d bytes of the state. */
  function Output(s: Lanes, d: nat): (md: seq<byte>)
    requires d <= 200
    ensures |md| == d
  {
    seq<byte>(d, k requires 0 <= k < d => LaneByte(s[k / 8], k % 8))
  }

  /** pad10*1 in bytes: to the next multiple of r, a first bit, zeros, and a last bit. */
  function PadBytes(length: nat, r: nat): (pad: seq<byte>)
    requires r > 0
    ensures 0 < |pad| <= r && |pad| == r - length % r
  {
    var q := r - length % r;
    if q == 1 then [0x81] else [0x01] + seq<byte>(q - 2, _ => 0) + [0x80]
  }

  function BitsOf(b: seq<byte>): seq<bool> {
    seq(8 * |b|, k requires 0 <= k < 8 * |b| => Bit(b[k / 8], k % 8))
  }

  lemma PadBytesArePad101(length: nat, r: nat)
    requires r > 0
    ensures BitsOf(PadBytes(length, r)) == Pad101(8 * r, 8 * length)
  {
    var q := r - length % r;
    var pad := PadBytes(length, r);
    ZerosBetween(length, r);
    var bits := BitsOf(pad);
    assert |bits| == 8 * q;
    forall k: nat | k < 8 * q ensures bits[k] == (k == 0 || k == 8 * q - 1) {
      PaddingByte(pad, k);
    }
  }

  lemma ZerosBetween(length: nat, r: nat)
    requires r > 0
    ensures (-((8 * length) as int) - 2) % (8 * r) == 8 * (r - length % r) - 2
  {
    var c := length / r;
    var j: nat := 8 * (r - length % r) - 2;
    assert length == r * c + length % r;
    ZerosQuotient(r, c, length % r, j);
  }

  lemma ZerosQuotient(r: nat, c: nat, rest: nat, j: nat)
    requires rest < r && j == 8 * (r - rest) - 2
    ensures (-((8 * (r * c + rest)) as int) - 2) % (8 * r) == j
  {
    assert -((8 * (r * c + rest)) as int) - 2 == (8 * r) * (-(c as int) - 1) + j by {
      assert (8 * r) * (-(c as int) - 1) == -(8 * (r * c)) - 8 * r;
    }
    ModUnique((8 * r) * (-(c as int) - 1) + j, 8 * r, -(c as int) - 1, j);
  }

  lemma PaddingByte(pad: seq<byte>, k: nat)
    requires |pad| > 0 && k < 8 * |pad|
    requires |pad| == 1 ==> pad == [0x81]
    requires |pad| > 1 ==> pad[0] == 0x01 && pad[|pad| - 1] == 0x80 && forall i | 0 < i < |pad| - 1 :: pad[i] == 0
    ensures Bit(pad[k / 8], k % 8) == (k == 0 || k == 8 * |pad| - 1)
  {
    var j := k % 8;
    PowerOfTwoBit(0, j);
    PowerOfTwoBit(7, j);
    BitOfZero(j);
    assert Pow2(0) == 1 && Pow2(7) == 128;
    if |pad| == 1 {
      EndBits(j);
    }
  }

  lemma EndBits(j: nat)
    requires j < 8
    ensures Bit(0x81, j) == (j == 0 || j == 7)
  {
    SetTopBit();
    BitwiseBit(Or, 1, 0x80, j);
    PowerOfTwoBit(0, j);
    PowerOfTwoBit(7, j);
    Pow2Values();
  }

  lemma SetTopBit()
    ensures BitOr(0, 0x80) == 0x80 && BitOr(1, 0x80) == 0x81
  {
    assert Pow2(7) == 0x80;
    hide *;
    OrCommutes(0, 0x80);
    OrCommutes(1, 0x80);
    OrZero(0x80);
    OrDisjoint(1, 7, 1);
  }

  function Padded(m: seq<byte>, r: nat): seq<byte>
    requires r > 0
  {
    m + PadBytes(|m|, r)
  }

  /** The state after the whole padded message. */
  function Absorbed(m: seq<byte>, r: nat): Lanes
    requires r > 0
  {
    BlocksOfPadded(m, r);
    Absorb(Padded(m, r), r, |m| / r + 1)
  }

  /** The padded message is a number of whole blocks, all but the last from the message alone. */
  lemma BlocksOfPadded(m: seq<byte>, r: nat)
    requires r > 0
    ensures |Padded(m, r)| == Span(|m| / r + 1, r) && Span(|m| / r, r) <= |m|
  {
    PositionSplits(|m|, r);
    hide PadBytes;
    assert |PadBytes(|m|, r)| == r - |m| % r;
  }

  // ---------------------------------------------------------------- the streaming loop

  /** What `keccak` computes, as `Hash` ensures. */
  function Digest(m: seq<byte>, mdlen: nat): (md: seq<byte>)
    requires mdlen < 100
    ensures |md| == mdlen
  {
    Output(Absorbed(m, 200 - 2 * mdlen), mdlen)
  }

  method XorInto(st: array<Lane>, data: seq<byte>)
    requires st.Length == 25 && |data| <= 200
    modifies st
    ensures st[..] == XorBlock(old(st[..]), data)
  {
    hide LaneXor, LaneOf;
    for i := 0 to |data| / 8
      invariant forall k | 0 <= k < 25 :: st[k] == if k < i then XorBlock(old(st[..]), data)[k] else old(st[k])
    {
      st[i] := LaneXor(st[i], LaneOf(data, i));
    }
  }

  /** `keccak`: the rate is 200 - 2 * mdlen bytes, and the message digest is cut from the state. */
  method Hash(input: seq<byte>, mdlen: nat) returns (md: seq<byte>)
    requires mdlen < 100
    ensures md == Digest(input, mdlen)
    ensures mdlen % 4 == 0 && mdlen <= 66 ==>
              BitsOf(md) == Sponge(BitsOf(input), 8 * (200 - 2 * mdlen), 8 * mdlen)
  {
    hide *;
    var rsiz := 200 - 2 * mdlen;
    var st := new Lane[25](_ => 0);
    AllZero(st[..]);
    var at := AbsorbMessage(st, input, rsiz);
    var temp := LastBlock(input[at..], rsiz);
    XorInto(st, temp);
    Keccakf(st, ROUNDS);
    LastAbsorbed(input, rsiz, at, temp);
    md := DigestOf(st, mdlen);
    DigestIsOutput(input, mdlen);
    if mdlen % 4 == 0 && mdlen <= 66 {
      DigestIsSponge(input, mdlen);
      assert md[..mdlen] == md;
      assert Sponge(BitsOf(input), 8 * rsiz, 8 * mdlen)[..8 * mdlen] == Sponge(BitsOf(input), 8 * rsiz, 8 * mdlen);
    }
  }

  lemma DigestIsOutput(m: seq<byte>, mdlen: nat)
    requires mdlen < 100
    ensures Digest(m, mdlen) == Output(Absorbed(m, 200 - 2 * mdlen), mdlen)
  {}

  lemma AllZero(s: seq<Lane>)
    requires |s| == 25 && forall k | 0 <= k < 25 :: s[k] == 0
    ensures s == ZeroState()
  {}

  /** The loop over the blocks that need no padding. */
  method AbsorbMessage(st: array<Lane>, input: seq<byte>, rsiz: nat) returns (at: nat)
    requires st.Length == 25 && st[..] == ZeroState() && 0 < rsiz <= 200
    modifies st
    ensures at == Span(|input| / rsiz, rsiz) <= |input| && st[..] == Absorb(input, rsiz, |input| / rsiz)
    ensures |input| - at < rsiz
  {
    hide XorBlock, Rounds;
    at := 0;
    var inlen: nat := |input|;
    ghost var n: nat := 0;
    while inlen >= rsiz
      invariant at + inlen == |input| && at == Span(n, rsiz) && st[..] == Absorb(input, rsiz, n)
      decreases inlen
    {
      XorInto(st, input[at..at + rsiz]);
      Keccakf(st, ROUNDS);
      at, inlen, n := at + rsiz, inlen - rsiz, n + 1;
    }
    PlaceInSlot(n, rsiz, inlen);
  }

  lemma {:induction false} SamePrefixAbsorbs(p: seq<byte>, q: seq<byte>, r: nat, n: nat)
    requires Span(n, r) <= |p| && p <= q
    ensures Absorb(p, r, n) == Absorb(q, r, n)
    decreases n
  {
    hide XorBlock, Rounds;
    if n > 0 {
      SamePrefixAbsorbs(p, q, r, n - 1);
      var at := Span(n - 1, r);
      assert q[at..at + r] == p[at..at + r];
    }
  }

  /** The padded rest is the last block of the padded message. */
  lemma LastAbsorbed(m: seq<byte>, r: nat, at: nat, block: seq<byte>)
    requires 0 < r <= 200 && at == Span(|m| / r, r) <= |m| && |m| - at < r
    requires block == m[at..] + PadBytes(|m| - at, r)
    ensures Absorbed(m, r) == Rounds(XorBlock(Absorb(m, r, |m| / r), block), ROUNDS)
  {
    hide *;
    var n := |m| / r;
    var p := Padded(m, r);
    RestPadding(m, r, at);
    BlocksOfPadded(m, r);
    PaddedIs(m, r);
    LastOf(m, PadBytes(|m|, r), at, block);
    SamePrefixAbsorbs(m, p, r, n);
    assert |block| == r;
    AbsorbLast(p, r, n, at);
    AbsorbedIs(m, r);
  }

  lemma PaddedIs(m: seq<byte>, r: nat)
    requires r > 0
    ensures Padded(m, r) == m + PadBytes(|m|, r)
  {}

  lemma AbsorbedIs(m: seq<byte>, r: nat)
    requires r > 0
    ensures Span(|m| / r + 1, r) <= |Padded(m, r)| && Absorbed(m, r) == Absorb(Padded(m, r), r, |m| / r + 1)
  {
    BlocksOfPadded(m, r);
    hide Absorb, Padded;
  }

  lemma RestPadding(m: seq<byte>, r: nat, at: nat)
    requires r > 0 && at == Span(|m| / r, r) <= |m| && |m| - at < r
    ensures PadBytes(|m| - at, r) == PadBytes(|m|, r) && |m| - at + |PadBytes(|m|, r)| == r
  {
    PositionSplits(|m|, r);
    SmallRemainder(|m| - at, r);
    SamePadding(|m| - at, |m|, r);
    hide PadBytes;
  }

  lemma AbsorbLast(p: seq<byte>, r: nat, n: nat, at: nat)
    requires Span(n + 1, r) <= |p| && at == Span(n, r)
    ensures at + r <= |p| && Absorb(p, r, n + 1) == Rounds(XorBlock(Absorb(p, r, n), p[at..at + r]), ROUNDS)
  {
    hide XorBlock, Rounds;
  }

  lemma SamePadding(a: nat, b: nat, r: nat)
    requires r > 0 && a % r == b % r
    ensures PadBytes(a, r) == PadBytes(b, r)
  {}

  lemma LastOf(m: seq<byte>, pad: seq<byte>, at: nat, block: seq<byte>)
    requires at <= |m| && block == m[at..] + pad
    ensures (m + pad)[at..at + |block|] == block
  {}

  method DigestOf(st: array<Lane>, mdlen: nat) returns (md: seq<byte>)
    requires st.Length == 25 && mdlen <= 200
    ensures md == Output(st[..], mdlen)
  {
    hide LaneByte;
    var out := new byte[mdlen](k requires 0 <= k < mdlen && st.Length == 25 reads st => LaneByte(st[k / 8], k % 8));
    md := out[..];
    assert md == Output(st[..], mdlen);
  }

  /** The last block, padded in a buffer of 500 bytes. */
  method LastBlock(rest: seq<byte>, rsiz: nat) returns (block: seq<byte>)
    requires |rest| < rsiz <= 200
    ensures |block| == rsiz && block == rest + PadBytes(|rest|, rsiz)
  {
    var temp := new byte[500](_ => 0);
    var inlen: nat := |rest|;
    forall i | 0 <= i < inlen { temp[i] := rest[i]; }
    temp[inlen] := 1;
    inlen := inlen + 1;
    forall i | inlen <= i < rsiz { temp[i] := 0; }
    SetTopBit();
    hide *;
    temp[rsiz - 1] := BitOr(temp[rsiz - 1], 0x80);
    block := temp[..rsiz];
    FilledIsPadded(block, rest);
  }

  lemma FilledIsPadded(block: seq<byte>, rest: seq<byte>)
    requires |rest| < |block| && block[..|rest|] == rest
    requires forall k | |rest| <= k < |block| ::
      block[k] == if k == |rest| then if k == |block| - 1 then 0x81 else 0x01 else if k == |block| - 1 then 0x80 else 0
    ensures block == rest + PadBytes(|rest|, |block|)
  {
    SmallRemainder(|rest|, |block|);
    assert forall k | 0 <= k < |rest| :: block[k] == block[..|rest|][k];
  }

  // ---------------------------------------------------------------- the digest and the sponge

  /** The padded message with zeros in the places of every block that do not fill a lane. */
  function Zeroed(p: seq<byte>, r: nat): (q: seq<byte>)
    requires r > 0
    ensures |q| == |p|
  {
    seq<byte>(|p|, k requires 0 <= k < |p| => if k % r < r - r % 8 then p[k] else 0)
  }

  lemma SpanOfBits(n: nat, r: nat)
    ensures Span(n, 8 * r) == 8 * Span(n, r)
  {
    SpanIsProduct(n, 8 * r);
    SpanIsProduct(n, r);
    assert n * (8 * r) == 8 * (n * r);
  }

  /** What the loop xors in is the block, cut to whole lanes and extended by zeros. */
  lemma XorBlockIsXor(s: Lanes, p: seq<byte>, r: nat, n: nat)
    requires 0 < r <= 200 && Span(n + 1, r) <= |p|
    ensures Span(n + 1, 8 * r) <= |BitsOf(Zeroed(p, r))|
    ensures StateBits(XorBlock(s, BlockOf(p, r, n))) ==
        XorString(StateBits(s), Extended(BitsOf(Zeroed(p, r)), 8 * r, n))
  {
    hide Bit, XorBlock, BitsOf, Zeroed;
    var block, q := BlockOf(p, r, n), Zeroed(p, r);
    SpanOfBits(n, r);
    SpanOfBits(n + 1, r);
    BitsAt(q, 0);
    var t := XorBlock(s, block);
    var e := Extended(BitsOf(q), 8 * r, n);
    forall i: nat | i < 1600 ensures StateBits(t)[i] == XorString(StateBits(s), e)[i] {
      XorBlockBits(s, block, i / 64, i % 64);
      ExtendedBit(p, r, n, i);
    }
  }

  lemma BitsAt(q: seq<byte>, i: nat)
    ensures |BitsOf(q)| == 8 * |q| && (i < 8 * |q| ==> BitsOf(q)[i] == Bit(q[i / 8], i % 8))
  {}

  lemma ExtendedBit(p: seq<byte>, r: nat, n: nat, i: nat)
    requires 0 < r <= 200 && Span(n + 1, r) <= |p| && i < 1600
    ensures Span(n + 1, 8 * r) <= |BitsOf(Zeroed(p, r))|
    ensures Extended(BitsOf(Zeroed(p, r)), 8 * r, n)[i]
         == (i / 64 * 8 + 8 <= r && Bit(p[Span(n, r) + i / 8], i % 8))
  {
    hide Bit, BitsOf;
    var q, at := Zeroed(p, r), Span(n, r);
    SpanOfBits(n, r);
    SpanOfBits(n + 1, r);
    assert Span(n + 1, r) == at + r;
    BitsAt(q, 8 * at + i);
    if i < 8 * r {
      assert (8 * at + i) / 8 == at + i / 8 && (8 * at + i) % 8 == i % 8;
      PlaceInSlot(n, r, i / 8);
      assert i / 64 * 8 + 8 <= r <==> i / 8 < r - r % 8;
      BitOfZero(i % 8);
    }
  }

  lemma ZeroStateBits()
    ensures StateBits(ZeroState()) == seq(1600, _ => false)
  {
    forall i: nat | i < 1600 ensures !StateBits(ZeroState())[i] { BitOfZero(i % 64); }
  }

  lemma {:induction false} AbsorbIsAbsorbs(p: seq<byte>, r: nat, n: nat)
    requires 0 < r <= 200 && Span(n, r) <= |p|
    ensures Span(n, 8 * r) <= |BitsOf(Zeroed(p, r))|
    ensures StateBits(Absorb(p, r, n)) == Absorbs(BitsOf(Zeroed(p, r)), 8 * r, n)
    decreases n
  {
    hide XorBlock, Rounds, StateBits, BitsOf, Zeroed, KeccakP, Extended, XorString, BlockOf;
    SpanOfBits(n, r);
    BitsAt(Zeroed(p, r), 0);
    if n == 0 {
      ZeroStateBits();
    } else {
      NextBlockFits(n - 1, r);
      AbsorbIsAbsorbs(p, r, n - 1);
      XorBlockIsXor(Absorb(p, r, n - 1), p, r, n - 1);
      RoundsAreKeccakP(XorBlock(Absorb(p, r, n - 1), BlockOf(p, r, n - 1)), ROUNDS);
    }
  }

  lemma OutputIsPrefix(s: Lanes, d: nat)
    requires d <= 200
    ensures BitsOf(Output(s, d)) == StateBits(s)[..8 * d]
  {
    hide Bit, Output;
    forall i: nat | i < 8 * d ensures BitsOf(Output(s, d))[i] == StateBits(s)[..8 * d][i] {
      OutputBits(s, d, i / 8, i % 8);
    }
  }

  lemma PaddedBits(m: seq<byte>, r: nat)
    requires r > 0
    ensures BitsOf(Padded(m, r)) == BitsOf(m) + Pad101(8 * r, |BitsOf(m)|)
  {
    hide Bit, PadBytes, Pad101;
    PadBytesArePad101(|m|, r);
    var pad := PadBytes(|m|, r);
    assert BitsOf(m + pad) == BitsOf(m) + BitsOf(pad);
  }

  /** For every digest length, `keccak` is the sponge over the padded message in which the bytes that
      do not fill a lane are zero, as far as the first block of output. */
  lemma DigestIsSpongeOf(m: seq<byte>, mdlen: nat)
    requires mdlen < 100
    ensures var r := 200 - 2 * mdlen;
            var d := if mdlen <= r then mdlen else r;
            BitsOf(Digest(m, mdlen)[..d]) == SpongeOf(BitsOf(Zeroed(Padded(m, r), r)), 8 * r, 8 * mdlen)[..8 * d]
  {
    var r := 200 - 2 * mdlen;
    var d := if mdlen <= r then mdlen else r;
    var n := |m| / r + 1;
    hide *;
    BlocksOfPadded(m, r);
    AbsorbIsAbsorbs(Padded(m, r), r, n);
    AbsorbedIs(m, r);
    DigestIsOutput(m, mdlen);
    OutputPrefix(Absorbed(m, r), d, mdlen);
    OutputIsPrefix(Absorbed(m, r), d);
    BitsAt(Zeroed(Padded(m, r), r), 0);
    SpanOfBits(n, r);
    SpongePrefix(BitsOf(Zeroed(Padded(m, r), r)), 8 * r, n, 8 * mdlen, 8 * d);
  }

  lemma OutputPrefix(s: Lanes, d: nat, mdlen: nat)
    requires d <= mdlen <= 200
    ensures Output(s, mdlen)[..d] == Output(s, d)
  {}

  lemma SpongePrefix(P: seq<bool>, r: nat, n: nat, d: nat, k: nat)
    requires 0 < r <= 1600 && |P| == Span(n, r) && k == if d <= r then d else r
    ensures SpongeOf(P, r, d)[..k] == Absorbs(P, r, n)[..k]
  {
    hide KeccakP, Absorbs;
    PlaceInSlot(n, r, 0);
  }

  /** When the rate is a number of lanes nothing is zeroed, and `keccak` is KECCAK of section 5.2. */
  lemma DigestIsSponge(m: seq<byte>, mdlen: nat)
    requires mdlen < 100 && mdlen % 4 == 0
    ensures var r := 200 - 2 * mdlen;
            var d := if mdlen <= 66 then mdlen else r;
            BitsOf(Digest(m, mdlen)[..d]) == Sponge(BitsOf(m), 8 * r, 8 * mdlen)[..8 * d]
  {
    var r := 200 - 2 * mdlen;
    hide *;
    DigestIsSpongeOf(m, mdlen);
    NothingZeroed(Padded(m, r), r);
    PaddedBits(m, r);
    SpongeIs(BitsOf(m), 8 * r, 8 * mdlen);
  }

  lemma NothingZeroed(p: seq<byte>, r: nat)
    requires r > 0 && r % 8 == 0
    ensures Zeroed(p, r) == p
  {}

  lemma SpongeIs(N: seq<bool>, r: nat, d: nat)
    requires 0 < r <= 1600
    ensures Sponge(N, r, d) == SpongeOf(N + Pad101(r, |N|), r, d)
  {}

  /** Otherwise the digest is not one of the whole message: two messages of one block share theirs. */
  lemma DigestCollides(mdlen: nat) returns (a: seq<byte>, b: seq<byte>)
    requires mdlen < 100 && mdlen % 4 != 0
    ensures |a| == |b| == 200 - 2 * mdlen && a != b && Digest(a, mdlen) == Digest(b, mdlen)
  {
    hide *;
    a, b := CollidingBlocks(200 - 2 * mdlen);
    FirstOfTwoBlocks(a, 200 - 2 * mdlen);
    FirstOfTwoBlocks(b, 200 - 2 * mdlen);
    DigestIsOutput(a, mdlen);
    DigestIsOutput(b, mdlen);
  }

  lemma CollidingBlocks(r: nat) returns (a: seq<byte>, b: seq<byte>)
    requires 0 < r <= 200 && r % 8 != 0
    ensures |a| == |b| == r && a != b && XorBlock(ZeroState(), a) == XorBlock(ZeroState(), b)
  {
    hide XorBlock, LastByteSet, ZeroState;
    a, b := LastByteSet(r, 0), LastByteSet(r, 1);
    assert a[r - 1] != b[r - 1];
    assert a[..r - r % 8] == b[..r - r % 8];
    LastBytesAreIgnored(ZeroState(), a, b);
  }

  /** A message of one block: that block, and a block of padding. */
  lemma FirstOfTwoBlocks(m: seq<byte>, r: nat)
    requires 0 < r <= 200 && |m| == r
    ensures Absorbed(m, r) == Rounds(XorBlock(Rounds(XorBlock(ZeroState(), m), ROUNDS), PadBytes(0, r)), ROUNDS)
  {
    hide XorBlock, Rounds, PadBytes, Padded, Absorbed;
    assert Span(1, r) == r + Span(0, r) == r;
    ModUnique(r, r, 1, 0);
    assert m[r..] + PadBytes(0, r) == PadBytes(0, r);
    LastAbsorbed(m, r, r, PadBytes(0, r));
    assert Absorb(m, r, 1) == Rounds(XorBlock(Absorb(m, r, 0), BlockOf(m, r, 0)), ROUNDS);
    assert BlockOf(m, r, 0) == m;
  }

  /** Section 3.1.3: byte k of the output holds bits 8k to 8k + 7 of the state's string. */
  lemma OutputBits(s: Lanes, d: nat, k: nat, j: nat)
    requires k < d <= 200 && j < 8
    ensures Bit(Output(s, d)[k], j) == Bit(s[(8 * k + j) / 64], (8 * k + j) % 64)
  {
    hide Bit, LaneByte;
    LaneByteBit(s[k / 8], k % 8, j);
    assert (8 * k + j) / 64 == k / 8 && (8 * k + j) % 64 == 8 * (k % 8) + j;
  }
}
