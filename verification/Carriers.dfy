/** What loading and saving a carrier means: the samples whose lowest bits carry data, the
    permuted bit buffer, the embedded blocks, and the laws connecting them. */
module Carriers {
  import opened Bits
  import opened HammingCode
  import opened Permutations

  /** A carrier on disk: the bytes of a bitmap, or the quantised coefficients of the luminance
      component of a JPEG as 16-bit patterns, row by row, block by block, 64 to a block. */
  datatype Image =
    | Bmp(samples: seq<nat>)
    | Jpeg(height: nat, width: nat, samples: seq<nat>)
  {
    predicate Valid() {
      match this
      case Bmp(s) => forall i | 0 <= i < |s| :: s[i] < 256
      case Jpeg(h, w, s) => |s| == h * w * 64 && forall i | 0 <= i < |s| :: s[i] < 0x1_0000
    }

    /** Whether sample i carries a bit: every bitmap byte; not the DC coefficients, not 0 and 1. */
    predicate Usable(i: nat)
      requires i < |samples|
    {
      Bmp? || (i % 64 != 0 && BitAnd(samples[i], 0xFFFE) != 0)
    }

    /** The usable samples among the first n, in scan order. */
    function Usables(n: nat): (u: seq<nat>)
      requires n <= |samples|
      ensures |u| <= n && forall k | 0 <= k < |u| :: u[k] < n && Usable(u[k])
    {
      if n == 0 then [] else Usables(n - 1) + (if Usable(n - 1) then [n - 1] else [])
    }

    function Channel(): (u: seq<nat>)
      ensures forall k | 0 <= k < |u| :: u[k] < |samples| && Usable(u[k])
    {
      Usables(|samples|)
    }

    /** `raw_capacity_`, in bytes. */
    function RawCapacity(): nat { |Channel()| / 8 }
  }

  lemma {:induction false} UsablesAreIncreasing(img: Image, n: nat)
    requires n <= |img.samples|
    ensures forall j, k | 0 <= j < k < |img.Usables(n)| :: img.Usables(n)[j] < img.Usables(n)[k]
  {
    if n > 0 { UsablesAreIncreasing(img, n - 1); }
  }

  lemma {:induction false} UsablesComplete(img: Image, n: nat, i: nat)
    requires i < n <= |img.samples| && img.Usable(i)
    ensures exists k: nat :: k < |img.Usables(n)| && img.Usables(n)[k] == i
  {
    var u := img.Usables(n);
    if i < n - 1 {
      UsablesComplete(img, n - 1, i);
      var k: nat :| k < |img.Usables(n - 1)| && img.Usables(n - 1)[k] == i;
      assert u[k] == i;
    } else {
      assert u[|u| - 1] == i;
    }
  }

  /** The bits carried by the first n usable samples. */
  function ReadBits(img: Image, n: nat): (bits: seq<bool>)
    requires n <= |img.Channel()|
    ensures |bits| == n
    ensures forall i | 0 <= i < n :: bits[i] == (img.samples[img.Channel()[i]] % 2 == 1)
  {
    seq(n, i requires 0 <= i < n => img.samples[img.Channel()[i]] % 2 == 1)
  }

  /** A sample with its lowest bit replaced. */
  function SetLowBit(v: nat, bit: bool): nat {
    v - v % 2 + (if bit then 1 else 0)
  }

  /** The samples after the first n bits have been written over the positions of the channel. */
  function Overwrite(s: seq<nat>, u: seq<nat>, bits: seq<bool>, n: nat): (r: seq<nat>)
    requires n <= |bits| <= |u| && forall k | 0 <= k < |u| :: u[k] < |s|
    ensures |r| == |s|
  {
    if n == 0 then s
    else var p := Overwrite(s, u, bits, n - 1); p[u[n - 1] := SetLowBit(p[u[n - 1]], bits[n - 1])]
  }

  function WriteBits(img: Image, bits: seq<bool>): (r: Image)
    requires |bits| <= |img.Channel()|
    ensures |r.samples| == |img.samples|
  {
    img.(samples := Overwrite(img.samples, img.Channel(), bits, |bits|))
  }

  lemma {:induction false} OverwriteAt(s: seq<nat>, u: seq<nat>, bits: seq<bool>, n: nat, i: nat)
    requires n <= |bits| <= |u| && forall k | 0 <= k < |u| :: u[k] < |s|
    requires forall j, k | 0 <= j < k < |u| :: u[j] < u[k]
    requires i < |s|
    ensures var r := Overwrite(s, u, bits, n);
            && (forall k | 0 <= k < n && u[k] == i :: r[i] == SetLowBit(s[i], bits[k]))
            && ((forall k | 0 <= k < n :: u[k] != i) ==> r[i] == s[i])
    decreases n
  {
    if n > 0 {
      OverwriteAt(s, u, bits, n - 1, i);
      if u[n - 1] == i {
        forall k | 0 <= k < n - 1 ensures u[k] != i { assert u[k] < u[n - 1]; }
      }
    }
  }

  /** Replacing the lowest bit never changes whether a sample is usable. */
  lemma LowBitKeepsUsability(v: nat, bit: bool)
    requires v < 0x1_0000
    ensures BitAnd(SetLowBit(v, bit), 0xFFFE) == BitAnd(v, 0xFFFE) && SetLowBit(v, bit) < 0x1_0000
  {
    Pow2Values();
    ClearLowBit(v, 16);
    ClearLowBit(SetLowBit(v, bit), 16);
  }

  /** Sample by sample: only carried bits change, and only the lowest bit of a sample. */
  lemma WrittenSample(img: Image, bits: seq<bool>, i: nat)
    requires img.Valid() && |bits| <= |img.Channel()| && i < |img.samples|
    ensures var r := WriteBits(img, bits);
            && (r.samples[i] == img.samples[i] || r.samples[i] == SetLowBit(img.samples[i], !(img.samples[i] % 2 == 1)))
            && (!img.Usable(i) ==> r.samples[i] == img.samples[i])
            && (forall k | 0 <= k < |bits| && img.Channel()[k] == i ::
                r.samples[i] == SetLowBit(img.samples[i], bits[k]))
            && ((forall k | 0 <= k < |bits| :: img.Channel()[k] != i) ==> r.samples[i] == img.samples[i])
            && r.Usable(i) == img.Usable(i)
            && r.samples[i] < (if img.Bmp? then 256 else 0x1_0000)
  {
    var u := img.Channel();
    UsablesAreIncreasing(img, |img.samples|);
    OverwriteAt(img.samples, u, bits, |bits|, i);
    if exists k :: 0 <= k < |bits| && u[k] == i {
      var k :| 0 <= k < |bits| && u[k] == i;
      LowBitKeepsUsability(img.samples[i], bits[k]);
    }
  }

  /** The channel is stable: after writing, the usable samples are the same ones. */
  lemma ChannelIsStable(img: Image, bits: seq<bool>)
    requires img.Valid() && |bits| <= |img.Channel()|
    ensures WriteBits(img, bits).Valid() && WriteBits(img, bits).Channel() == img.Channel()
  {
    var r := WriteBits(img, bits);
    forall i | 0 <= i < |img.samples|
      ensures r.Usable(i) == img.Usable(i) && r.samples[i] < (if img.Bmp? then 256 else 0x1_0000)
    {
      WrittenSample(img, bits, i);
    }
    SameUsables(img, r, |img.samples|);
  }

  lemma {:induction false} SameUsables(a: Image, b: Image, n: nat)
    requires |a.samples| == |b.samples| && n <= |a.samples|
    requires forall i | 0 <= i < |a.samples| :: a.Usable(i) == b.Usable(i)
    ensures a.Usables(n) == b.Usables(n)
  {
    if n > 0 { SameUsables(a, b, n - 1); }
  }

  /** Reading back what was written. */
  lemma ReadAfterWriteBits(img: Image, bits: seq<bool>)
    requires img.Valid() && |bits| <= |img.Channel()|
    ensures |bits| <= |WriteBits(img, bits).Channel()|
    ensures ReadBits(WriteBits(img, bits), |bits|) == bits
  {
    var r := WriteBits(img, bits);
    ChannelIsStable(img, bits);
    forall k | 0 <= k < |bits| ensures (r.samples[r.Channel()[k]] % 2 == 1) == bits[k] {
      WrittenSample(img, bits, img.Channel()[k]);
    }
  }

  /** Writing the bits already there changes nothing. */
  lemma WriteBackIsIdentity(img: Image, bits: seq<bool>)
    requires img.Valid() && |bits| <= |img.Channel()| && bits == ReadBits(img, |bits|)
    ensures WriteBits(img, bits) == img
  {
    var r := WriteBits(img, bits);
    UsablesAreIncreasing(img, |img.samples|);
    forall i | 0 <= i < |img.samples| ensures r.samples[i] == img.samples[i] {
      OverwriteAt(img.samples, img.Channel(), bits, |bits|, i);
    }
  }

  // ---------------------------------------------------------------- the permuted bit buffer

  /** Bit x of the buffer, least significant bit of a byte first. */
  predicate BufferBit(buf: Bytes, x: nat)
    requires x < 8 * |buf|
  {
    Bit(buf[x / 8], x % 8)
  }

  /** The buffer of `len` bytes in which bit p(i) is bits[i] and every other bit is 0. */
  ghost function Pack(bits: seq<bool>, p: Perm, len: nat): (buf: Bytes)
    requires p.Valid() && |bits| == p.Size()
    ensures |buf| == len
  {
    seq(len, q requires 0 <= q < len => ByteOf((j: nat) => j < 8 && PackedAt(bits, p, 8 * q + j)))
  }

  ghost predicate PackedAt(bits: seq<bool>, p: Perm, x: nat)
    requires p.Valid() && |bits| == p.Size()
  {
    x < p.Size() && (InverseIsTwoSided(p, x); bits[Invert(p, x)])
  }

  lemma PackBit(bits: seq<bool>, p: Perm, len: nat, x: nat)
    requires p.Valid() && |bits| == p.Size() && x < 8 * len
    ensures BufferBit(Pack(bits, p, len), x) == PackedAt(bits, p, x)
  {
    hide Bit, ByteOf, PackedAt;
    var q, j := x / 8, x % 8;
    var f := (j: nat) => j < 8 && PackedAt(bits, p, 8 * q + j);
    assert Pack(bits, p, len)[q] == ByteOf(f);
    assert 8 * q + j == x;
  }

  lemma BufferExtensional(a: Bytes, b: Bytes)
    requires |a| == |b|
    requires forall x: nat | x < 8 * |a| :: BufferBit(a, x) == BufferBit(b, x)
    ensures a == b
  {
    forall q | 0 <= q < |a| ensures a[q] == b[q] {
      forall j: nat | j < 8 ensures Bit(a[q], j) == Bit(b[q], j) {
        assert BufferBit(a, 8 * q + j) == BufferBit(b, 8 * q + j);
        assert (8 * q + j) / 8 == q && (8 * q + j) % 8 == j;
      }
      ByteExtensional(a[q], b[q]);
    }
  }

  /** The bits read back through the permutation. */
  function Unpack(buf: Bytes, p: Perm): (bits: seq<bool>)
    requires p.Valid() && Bijective(p) && p.Size() <= 8 * |buf|
    ensures |bits| == p.Size()
  {
    seq(p.Size(), i requires 0 <= i < p.Size() => BufferBit(buf, p.Apply(i)))
  }

  /** Unpacking inverts packing. */
  lemma UnpackPack(bits: seq<bool>, p: Perm, len: nat)
    requires p.Valid() && Bijective(p) && |bits| == p.Size() <= 8 * len
    ensures Unpack(Pack(bits, p, len), p) == bits
  {
    hide BufferBit, Perm.Apply;
    var r := Unpack(Pack(bits, p, len), p);
    forall i | 0 <= i < p.Size() ensures r[i] == bits[i] {
      InverseIsTwoSided(p, i);
      PackBit(bits, p, len, p.Apply(i));
    }
  }

  /** Packing inverts unpacking on buffers whose bits past the permutation are clear. */
  lemma PackUnpack(buf: Bytes, p: Perm)
    requires p.Valid() && Bijective(p) && p.Size() <= 8 * |buf|
    requires forall x: nat | p.Size() <= x < 8 * |buf| :: !BufferBit(buf, x)
    ensures Pack(Unpack(buf, p), p, |buf|) == buf
  {
    hide BufferBit, Perm.Apply;
    var bits := Unpack(buf, p);
    forall x: nat | x < 8 * |buf| ensures BufferBit(Pack(bits, p, |buf|), x) == BufferBit(buf, x) {
      PackBit(bits, p, |buf|, x);
      if x < p.Size() {
        InverseIsTwoSided(p, x);
      }
    }
    BufferExtensional(Pack(bits, p, |buf|), buf);
  }
}
