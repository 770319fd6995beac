/** FIPS 202 on strings of bits, for the permutation of width 1600: the definitions of the standard,
    against which the lanes and bytes of the implementation are proved. */
module Fips202 {
  import opened Bits
  import opened Spans

  /** A state as the string of section 3.1.2. */
  type State = S: seq<bool> | |S| == 1600 witness seq(1600, _ => false)

  /** Section 3.1.2. */
  predicate A(S: State, x: nat, y: nat, z: nat)
    requires x < 5 && y < 5 && z < 64
  {
    S[64 * (5 * y + x) + z]
  }

  // ---------------------------------------------------------------- one round, bit by bit

  /** The parity of a column, step 1 of algorithm 1. */
  predicate C(S: State, x: nat, z: nat)
    requires x < 5 && z < 64
  {
    (((A(S, x, 0, z) != A(S, x, 1, z)) != A(S, x, 2, z)) != A(S, x, 3, z)) != A(S, x, 4, z)
  }

  /** Theta: the bit and the parities of two columns nearby. */
  predicate ThetaBit(S: State, x: nat, y: nat, z: nat)
    requires x < 5 && y < 5 && z < 64
  {
    A(S, x, y, z) != (C(S, (x + 4) % 5, z) != C(S, (x + 1) % 5, (z + 63) % 64))
  }

  /** The offsets of table 2, row y = 0 first. */
  const OFFSETS: seq<nat> := [
    0, 1, 190, 28, 91,
    36, 300, 6, 55, 276,
    3, 10, 171, 153, 231,
    105, 45, 15, 21, 136,
    210, 66, 253, 120, 78]

  function RhoOffset(x: nat, y: nat): nat
    requires x < 5 && y < 5
  {
    assert |OFFSETS| == 25;
    OFFSETS[5 * y + x]
  }

  /** Pi, rho and theta: the bit comes from lane (x + 3y, x), from as many places below as the offset
      of that lane. */
  predicate PiBit(S: State, x: nat, y: nat, z: nat)
    requires x < 5 && y < 5 && z < 64
  {
    var x' := (x + 3 * y) % 5;
    ThetaBit(S, x', x, (z - RhoOffset(x', x)) % 64)
  }

  /** All five step mappings, section 3.3. */
  predicate RoundBit(S: State, round: nat, x: nat, y: nat, z: nat)
    requires x < 5 && y < 5 && z < 64
  {
    (PiBit(S, x, y, z) != (!PiBit(S, (x + 1) % 5, y, z) && PiBit(S, (x + 2) % 5, y, z)))
    != ((x, y) == (0, 0) && Bit(RoundConstant(round), z))
  }

  function Rnd(S: State, round: nat): State {
    seq(1600, i requires 0 <= i < 1600 => RoundBit(S, round, i / 64 % 5, i / 320, i % 64))
  }

  function KeccakP(S: State, rounds: nat): State {
    if rounds == 0 then S else Rnd(KeccakP(S, rounds - 1), rounds - 1)
  }

  /** The logarithm of the width of a lane. */
  const L: nat := 6

  /** KECCAK-f[1600], section 3.4. */
  function KeccakF(S: State): State { KeccakP(S, 12 + 2 * L) }

  // ---------------------------------------------------------------- the tables of the step mappings, generated

  /** The walk of step 3 of algorithm 2. */
  function Walk(t: nat): (nat, nat) {
    if t == 0 then (1, 0) else var (x, y) := Walk(t - 1); (y, (2 * x + 3 * y) % 5)
  }

  /** The offset of step 3a of algorithm 2. */
  function Offset(t: nat): nat { (t + 1) * (t + 2) / 2 }

  /** The shift register of algorithm 5. */
  datatype Register = Register(r0: bool, r1: bool, r2: bool, r3: bool, r4: bool, r5: bool, r6: bool, r7: bool) {
    function Step(): Register {
      Register(r7, r0, r1, r2, r3 != r7, r4 != r7, r5 != r7, r6)
    }
  }

  function Lfsr(t: nat): Register {
    if t == 0 then Register(true, false, false, false, false, false, false, false) else Lfsr(t - 1).Step()
  }

  function Rc(t: nat): nat { Bit01(Lfsr(t % 255).r0) }

  function Bit01(b: bool): nat { if b then 1 else 0 }

  /** Seven bits in the places 2^j - 1 of a lane. */
  function Spread(b0: nat, b1: nat, b2: nat, b3: nat, b4: nat, b5: nat, b6: nat): nat {
    b0 + b1 * 0x2 + b2 * 0x8 + b3 * 0x80 + b4 * 0x8000 + b5 * 0x8000_0000 + b6 * 0x8000_0000_0000_0000
  }

  /** The round constant of step 3 of algorithm 6. */
  function RoundConstant(round: nat): nat {
    var t := 7 * round;
    Spread(Rc(t), Rc(t + 1), Rc(t + 2), Rc(t + 3), Rc(t + 4), Rc(t + 5), Rc(t + 6))
  }

  // ---------------------------------------------------------------- the sponge of sections 4 and 5

  /** Section 5.1: pad10*1(x, m) is a one, j zeros and a one, for the least j that makes the length a
      multiple of x. */
  function Pad101(x: nat, m: nat): seq<bool>
    requires x > 0
  {
    [true] + seq((-(m as int) - 2) % x, _ => false) + [true]
  }

  function XorString(S: State, P: seq<bool>): State
    requires |P| == 1600
  {
    seq(1600, i requires 0 <= i < 1600 => S[i] != P[i])
  }

  /** The n-th block of r bits and its zeros. */
  function Extended(P: seq<bool>, r: nat, n: nat): (B: seq<bool>)
    requires Span(n + 1, r) <= |P| && r <= 1600
    ensures |B| == 1600
  {
    P[Span(n, r)..Span(n + 1, r)] + seq(1600 - r, _ => false)
  }

  /** Steps 5 and 6 of algorithm 8, over the first n blocks. */
  function Absorbs(P: seq<bool>, r: nat, n: nat): State
    requires Span(n, r) <= |P| && r <= 1600
  {
    if n == 0 then seq(1600, _ => false) else KeccakF(XorString(Absorbs(P, r, n - 1), Extended(P, r, n - 1)))
  }

  /** Steps 7 to 10 of algorithm 8: d bits, at most r of them from each state. */
  function Squeeze(S: State, r: nat, d: nat): (Z: seq<bool>)
    requires 0 < r <= 1600
    ensures |Z| == d
    decreases d
  {
    if d <= r then S[..d] else S[..r] + Squeeze(KeccakF(S), r, d - r)
  }

  /** What the sponge makes of a padded string. */
  function SpongeOf(P: seq<bool>, r: nat, d: nat): (Z: seq<bool>)
    requires 0 < r <= 1600
    ensures |Z| == d
  {
    PositionSplits(|P|, r);
    Squeeze(Absorbs(P, r, |P| / r), r, d)
  }

  /** KECCAK[1600 - r](N, d) of section 5.2. */
  function Sponge(N: seq<bool>, r: nat, d: nat): (Z: seq<bool>)
    requires 0 < r <= 1600
    ensures |Z| == d
  {
    SpongeOf(N + Pad101(r, |N|), r, d)
  }
}
