/** The steps of the loops that carry bits between the samples of a carrier and its permuted
    buffer. */
module BufferFilling {
  import opened Bits
  import opened Spans
  import opened HammingCode
  import opened Codecs
  import opened Permutations
  import opened Carriers

  /** The buffer with bit x set. */
  function WithBit(buf: Bytes, x: nat): (r: Bytes)
    requires x < 8 * |buf|
    ensures |r| == |buf|
  {
    OrFits(buf[x / 8], x % 8);
    buf[x / 8 := BitOr(buf[x / 8], Pow2(x % 8))]
  }

  lemma OrFits(b: byte, j: nat)
    requires j < 8
    ensures BitOr(b, Pow2(j)) < 256
  {
    Pow2Values();
    Pow2Monotone(j, 7);
    assert Pow2(7) == 128;
    BitwiseFits(Or, b, Pow2(j), 8);
  }

  lemma WithBitSets(buf: Bytes, x: nat, y: nat)
    requires x < 8 * |buf| && y < 8 * |buf|
    ensures BufferBit(WithBit(buf, x), y) == (BufferBit(buf, y) || x == y)
  {
    hide Bit, Bitwise, Pow2;
    BitwiseBit(Or, buf[x / 8], Pow2(x % 8), y % 8);
    PowerOfTwoBit(x % 8, y % 8);
  }

  /** Bit x once the first n bits have been put in their permuted places. */
  ghost predicate FilledAt(bits: seq<bool>, p: Perm, n: nat, x: nat)
    requires p.Valid() && |bits| == p.Size()
  {
    x < p.Size() && (InverseIsTwoSided(p, x); Invert(p, x) < n && bits[Invert(p, x)])
  }

  ghost predicate Filled(buf: Bytes, bits: seq<bool>, p: Perm, n: nat)
    requires p.Valid() && |bits| == p.Size()
  {
    forall x: nat | x < 8 * |buf| :: BufferBit(buf, x) == FilledAt(bits, p, n, x)
  }

  lemma FilledAtStart(buf: Bytes, bits: seq<bool>, p: Perm)
    requires p.Valid() && |bits| == p.Size()
    requires forall q | 0 <= q < |buf| :: buf[q] == 0
    ensures Filled(buf, bits, p, 0)
  {
    forall x: nat | x < 8 * |buf| ensures BufferBit(buf, x) == FilledAt(bits, p, 0, x) {
      BitOfZero(x % 8);
    }
  }

  lemma FillStep(buf: Bytes, bits: seq<bool>, p: Perm, n: nat)
    requires p.Valid() && Bijective(p) && |bits| == p.Size() <= 8 * |buf| && n < p.Size()
    requires Filled(buf, bits, p, n)
    ensures Filled(if bits[n] then WithBit(buf, p.Apply(n)) else buf, bits, p, n + 1)
  {
    hide BufferBit, WithBit, Perm.Apply, Invert;
    InverseIsTwoSided(p, n);
    var next := if bits[n] then WithBit(buf, p.Apply(n)) else buf;
    forall x: nat | x < 8 * |buf| ensures BufferBit(next, x) == FilledAt(bits, p, n + 1, x) {
      WithBitSets(buf, p.Apply(n), x);
      if x < p.Size() { InverseIsTwoSided(p, x); }
    }
  }

  lemma FilledIsPacked(buf: Bytes, bits: seq<bool>, p: Perm)
    requires p.Valid() && |bits| == p.Size() && Filled(buf, bits, p, p.Size())
    ensures buf == Pack(bits, p, |buf|)
  {
    hide BufferBit, Invert, Pack;
    forall x: nat | x < 8 * |buf| ensures BufferBit(buf, x) == BufferBit(Pack(bits, p, |buf|), x) {
      PackBit(bits, p, |buf|, x);
      if x < p.Size() { InverseIsTwoSided(p, x); }
    }
    BufferExtensional(buf, Pack(bits, p, |buf|));
  }

  /** In a bitmap every byte is usable. */
  lemma {:induction false} BmpUsables(img: Image, n: nat)
    requires img.Bmp? && n <= |img.samples|
    ensures |img.Usables(n)| == n && forall k | 0 <= k < n :: img.Usables(n)[k] == k
  {
    if n > 0 { BmpUsables(img, n - 1); }
  }

  lemma {:induction false} UsablesPrefix(img: Image, n: nat, m: nat)
    requires n <= m <= |img.samples|
    ensures img.Usables(n) <= img.Usables(m)
    decreases m
  {
    if n < m { UsablesPrefix(img, n, m - 1); }
  }

  /** What the scan sees at sample i: the next usable sample, or nothing. */
  lemma ScanStep(img: Image, i: nat)
    requires i < |img.samples|
    ensures var c := |img.Usables(i)|;
            && |img.Usables(i + 1)| == (if img.Usable(i) then c + 1 else c) <= |img.Channel()|
            && (img.Usable(i) ==> img.Channel()[c] == i)
  {
    UsablesPrefix(img, i + 1, |img.samples|);
  }

  /** Bits not yet written leave the samples from i on as they were. */
  lemma {:induction false} UnwrittenSample(img: Image, bits: seq<bool>, n: nat, i: nat, at: nat)
    requires n <= |bits| <= |img.Channel()| && i <= at < |img.samples| && n <= |img.Usables(i)|
    ensures Overwrite(img.samples, img.Channel(), bits, n)[at] == img.samples[at]
    decreases n
  {
    if n > 0 {
      UsablesPrefix(img, i, |img.samples|);
      UnwrittenSample(img, bits, n - 1, i, at);
      assert img.Channel()[n - 1] == img.Usables(i)[n - 1];
    }
  }

  /** `(v & mask) | bit` on a sample. */
  lemma SetLowBitByMasks(v: nat, k: nat, bit: bool)
    requires k > 0 && v < Pow2(k)
    ensures BitOr(BitAnd(v, Pow2(k) - 2), if bit then 1 else 0) == SetLowBit(v, bit)
  {
    ReplaceLowBit(v, k, if bit then 1 else 0);
  }

  /** Slot b of the extracted bytes. */
  lemma {:induction false} ExtractedSlot(c: Codec, buf: Bytes, n: nat, b: nat)
    requires c.Valid() && Span(n, c.CodeSize()) <= |buf| && b < n
    ensures Span(b + 1, c.CodeSize()) <= |buf| && Span(b + 1, c.DataSize()) <= Span(n, c.DataSize())
    ensures Slot(ExtractBlocks(c, buf, n), b, c.DataSize()) == c.Extract(Slot(buf, b, c.CodeSize()))
    decreases n
  {
    hide *;
    c.Sizes();
    SlotFits(b, c.CodeSize(), n);
    SlotFits(b, c.DataSize(), n);
    SlotFits(n - 1, c.CodeSize(), n);
    ExtractOneMore(c, buf, n - 1);
    if b < n - 1 {
      ExtractedSlot(c, buf, n - 1, b);
    }
    SlotOfConcat(ExtractBlocks(c, buf, n - 1), c.Extract(Slot(buf, n - 1, c.CodeSize())), n - 1, b, c.DataSize());
  }

  lemma SlotOfConcat(prev: Bytes, x: Bytes, n: nat, b: nat, w: nat)
    requires |prev| == Span(n, w) && |x| == w && b <= n
    ensures Span(b + 1, w) <= |prev + x| && (b < n ==> Span(b + 1, w) <= |prev|)
    ensures Slot(prev + x, b, w) == if b == n then x else Slot(prev, b, w)
  {
    SlotFits(n, w, n + 1);
    SlotFits(b, w, n + 1);
    SlotFits(b, w, n);
    var at := Span(b, w);
    if b == n {
      assert (prev + x)[at..at + w] == x;
    } else {
      assert (prev + x)[at..at + w] == prev[at..at + w];
    }
  }
}
