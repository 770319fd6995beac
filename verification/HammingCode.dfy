/** Matrix embedding with the Hamming code: what `HammingEncoder` computes on one block, and the
    laws of the code. */
module HammingCode {
  import opened Bits
  import opened Spans

  type Bytes = seq<byte>

  /** The sizes `Init` derives from the number of parity bits. */
  datatype Shape = Shape(parityBits: nat, totalBits: nat, dataBytes: nat, codewords: nat, codewordBytes: nat,
      blockBytes: nat) {
    ghost predicate Valid() {
      && 3 <= parityBits <= 8
      && totalBits == Pow2(parityBits) - 1
      && 8 * codewordBytes == totalBits + 1
      && 8 * dataBytes == Span(codewords, parityBits)
      && 0 < dataBytes && 0 < codewords
      && Sized()
    }

    /** A block is its codewords, one behind the other. */
    ghost predicate Sized() { blockBytes == Span(codewords, codewordBytes) }
  }

  // ---------------------------------------------------------------- one codeword

  /** Bit p (counted from 1, most significant bit of a byte first) of a codeword. */
  predicate CodeBit(cw: Bytes, p: nat)
    requires 1 <= p <= 8 * |cw|
  {
    Bit(cw[(p - 1) / 8], 7 - (p - 1) % 8)
  }

  /** The exclusive or of the positions of the set bits among the first n: H times the codeword. */
  function Syndrome(cw: Bytes, n: nat): nat
    requires n <= 8 * |cw|
  {
    if n == 0 then 0
    else BitXor(Syndrome(cw, n - 1), if CodeBit(cw, n) then n else 0)
  }

  function FlipBit(cw: Bytes, p: nat): (r: Bytes)
    requires 1 <= p <= 8 * |cw|
    ensures |r| == |cw|
  {
    var q := (p - 1) / 8;
    FlippedByte(cw[q], 7 - (p - 1) % 8);
    cw[q := BitXor(cw[q], Pow2(7 - (p - 1) % 8))]
  }

  lemma FlippedByte(b: byte, j: nat)
    requires j < 8
    ensures BitXor(b, Pow2(j)) < 256
    ensures forall i: nat :: Bit(BitXor(b, Pow2(j)), i) == (Bit(b, i) != (i == j))
  {
    Pow2Values();
    Pow2Monotone(j, 7);
    assert Pow2(7) < Pow2(8);
    BitwiseFits(Xor, b, Pow2(j), 8);
    forall i: nat ensures Bit(BitXor(b, Pow2(j)), i) == (Bit(b, i) != (i == j)) {
      BitwiseBit(Xor, b, Pow2(j), i);
      PowerOfTwoBit(j, i);
    }
  }

  lemma FlipChangesOneBit(cw: Bytes, p: nat, q: nat)
    requires 1 <= p <= 8 * |cw| && 1 <= q <= 8 * |cw|
    ensures CodeBit(FlipBit(cw, p), q) == (CodeBit(cw, q) != (p == q))
  {
    hide Bit, Pow2, BitXor;
    FlippedByte(cw[(p - 1) / 8], 7 - (p - 1) % 8);
  }

  /** Flipping bit p adds p to the syndrome. */
  lemma {:induction false} FlipAddsPosition(cw: Bytes, p: nat, n: nat)
    requires 1 <= p <= 8 * |cw| && n <= 8 * |cw|
    ensures Syndrome(FlipBit(cw, p), n) == (if p <= n then BitXor(Syndrome(cw, n), p) else Syndrome(cw, n))
    decreases n
  {
    if n > 0 {
      FlipAddsPosition(cw, p, n - 1);
      FlipChangesOneBit(cw, p, n);
      hide CodeBit, FlipBit, BitXor;
      var s := Syndrome(cw, n - 1);
      var t := if CodeBit(cw, n) then n else 0;
      if p < n {
        XorAssociates(s, p, t);
        XorCommutes(p, t);
        XorAssociates(s, t, p);
      } else if p == n {
        XorSelf(s);
        XorCancels(s, n);
      }
    }
  }

  lemma {:induction false} SyndromeFits(cw: Bytes, n: nat, k: nat)
    requires n <= 8 * |cw| && n < Pow2(k)
    ensures Syndrome(cw, n) < Pow2(k)
    decreases n
  {
    if n > 0 {
      SyndromeFits(cw, n - 1, k);
      BitwiseFits(Xor, Syndrome(cw, n - 1), if CodeBit(cw, n) then n else 0, k);
    }
  }

  /** One step of `Embed`: correct the syndrome of the codeword to the message m. */
  function EmbedCodeword(cw: Bytes, total: nat, m: nat): (r: Bytes)
    requires total <= 8 * |cw|
    ensures |r| == |cw|
  {
    var h := BitXor(Syndrome(cw, total), m);
    if 1 <= h <= total then FlipBit(cw, h) else cw
  }

  /** After embedding the syndrome is the message, at most one bit has changed and it is one of
      the first `total`; nothing changes exactly when the syndrome was the message already. */
  lemma CodewordEmbedding(k: nat, cw: Bytes, m: nat)
    requires Pow2(k) - 1 <= 8 * |cw| && m < Pow2(k)
    ensures var total := Pow2(k) - 1;
            var h := BitXor(Syndrome(cw, total), m);
            var r := EmbedCodeword(cw, total, m);
            && h <= total
            && Syndrome(r, total) == m
            && (r == cw <==> Syndrome(cw, total) == m)
            && (forall q | 1 <= q <= 8 * |cw| :: CodeBit(r, q) != CodeBit(cw, q) <==> q == h)
  {
    hide CodeBit, FlipBit, Pow2, Syndrome, Bitwise;
    var total := Pow2(k) - 1;
    var s := Syndrome(cw, total);
    var h := BitXor(s, m);
    SyndromeFits(cw, total, k);
    BitwiseFits(Xor, s, m, k);
    XorZeroIffEqual(s, m);
    if h != 0 {
      FlipAddsPosition(cw, h, total);
      XorCancels(m, s);
      forall q | 1 <= q <= 8 * |cw|
        ensures CodeBit(FlipBit(cw, h), q) != CodeBit(cw, q) <==> q == h
      {
        FlipChangesOneBit(cw, h, q);
      }
      assert CodeBit(FlipBit(cw, h), h) != CodeBit(cw, h);
    }
  }

  // ---------------------------------------------------------------- bits of the data block

  /** Bit i of a data block, most significant bit of a byte first. */
  predicate DataBit(d: Bytes, i: nat)
    requires i < 8 * |d|
  {
    Bit(d[i / 8], 7 - i % 8)
  }

  /** The number written in the bits offset, ..., offset + length - 1. */
  function Window(d: Bytes, offset: nat, length: nat): nat
    requires offset + length <= 8 * |d|
  {
    if length == 0 then 0
    else 2 * Window(d, offset, length - 1) + (if DataBit(d, offset + length - 1) then 1 else 0)
  }

  lemma {:induction false} WindowBits(d: Bytes, offset: nat, length: nat, t: nat)
    requires offset + length <= 8 * |d|
    ensures Bit(Window(d, offset, length), t) == (t < length && DataBit(d, offset + length - 1 - t))
    decreases length
  {
    if length == 0 {
      BitOfZero(t);
    } else {
      var w := Window(d, offset, length);
      assert w / 2 == Window(d, offset, length - 1);
      if t > 0 {
        WindowBits(d, offset, length - 1, t - 1);
      }
    }
  }

  lemma {:induction false} WindowFits(d: Bytes, offset: nat, length: nat)
    requires offset + length <= 8 * |d|
    ensures Window(d, offset, length) < Pow2(length)
  {
    if length > 0 { WindowFits(d, offset, length - 1); }
  }

  // ---------------------------------------------------------------- one block

  /** Codeword c of a block. */
  function Codeword(s: Shape, block: Bytes, c: nat): (cw: Bytes)
    requires s.Sized() && |block| == s.blockBytes && c < s.codewords
    ensures |cw| == s.codewordBytes
  {
    SlotFits(c, s.codewordBytes, s.codewords);
    block[Span(c, s.codewordBytes)..Span(c + 1, s.codewordBytes)]
  }

  /** The message embedded in codeword c. */
  function Message(s: Shape, data: Bytes, c: nat): nat
    requires s.Valid() && |data| == s.dataBytes && c < s.codewords
  {
    SlotFits(c, s.parityBits, s.codewords);
    Window(data, Span(c, s.parityBits), s.parityBits)
  }

  /** `b` with the bytes from `at` on overwritten by `cw`. */
  function Splice(b: Bytes, at: nat, cw: Bytes): (r: Bytes)
    requires at + |cw| <= |b|
    ensures |r| == |b|
  {
    b[..at] + cw + b[at + |cw|..]
  }

  lemma SliceOfSlice(b: Bytes, at: nat, size: nat, off: nat, w: nat)
    requires at + size <= |b| && off + w <= size
    ensures b[at..at + size][off..off + w] == b[at + off..at + off + w]
  {
    var l, r := b[at..at + size][off..off + w], b[at + off..at + off + w];
    forall i | 0 <= i < w ensures l[i] == r[i] {
      assert l[i] == b[at..at + size][off + i] == b[at + (off + i)];
    }
  }

  lemma SpliceSlices(b: Bytes, at: nat, cw: Bytes, from: nat, w: nat)
    requires at + |cw| <= |b| && from + w <= |b|
    ensures Splice(b, at, cw)[at..at + |cw|] == cw
    ensures from + w <= at || at + |cw| <= from ==> Splice(b, at, cw)[from..from + w] == b[from..from + w]
    ensures Splice(b, at, b[at..at + |cw|]) == b
  {}

  /** The block after its first n codewords have been embedded. */
  function EmbedPrefix(s: Shape, cover: Bytes, data: Bytes, n: nat): (r: Bytes)
    requires s.Valid() && |cover| == s.blockBytes && |data| == s.dataBytes && n <= s.codewords
    ensures |r| == |cover|
  {
    hide Pow2, Codeword, Message, EmbedCodeword;
    if n == 0 then cover
    else
      var prev := EmbedPrefix(s, cover, data, n - 1);
      SlotFits(n - 1, s.codewordBytes, s.codewords);
      Splice(prev, Span(n - 1, s.codewordBytes),
             EmbedCodeword(Codeword(s, prev, n - 1), s.totalBits, Message(s, data, n - 1)))
  }

  function EmbedBlock(s: Shape, cover: Bytes, data: Bytes): (r: Bytes)
    requires s.Valid() && |cover| == s.blockBytes && |data| == s.dataBytes
    ensures |r| == |cover|
  {
    EmbedPrefix(s, cover, data, s.codewords)
  }

  /** Splicing a codeword into slot n leaves the other slots alone. */
  lemma SpliceCodeword(s: Shape, block: Bytes, n: nat, cw: Bytes, c: nat)
    requires s.Sized() && |block| == s.blockBytes && n < s.codewords && c < s.codewords && |cw| == s.codewordBytes
    ensures Span(n, s.codewordBytes) + s.codewordBytes <= |block|
    ensures Codeword(s, Splice(block, Span(n, s.codewordBytes), cw), c) ==
        (if c == n then cw else Codeword(s, block, c))
  {
    hide Splice;
    var w := s.codewordBytes;
    SlotFits(n, w, s.codewords);
    SlotFits(c, w, s.codewords);
    SlotFits(c, w, n);
    SlotFits(n, w, c);
    SpliceSlices(block, Span(n, w), cw, Span(c, w), w);
  }

  /** Codeword by codeword, embedding the prefix embeds each of its codewords. */
  lemma {:induction false} PrefixCodeword(s: Shape, cover: Bytes, data: Bytes, n: nat, c: nat)
    requires s.Valid() && |cover| == s.blockBytes && |data| == s.dataBytes && n <= s.codewords
    requires c < s.codewords
    ensures Codeword(s, EmbedPrefix(s, cover, data, n), c)
         == if c < n then EmbedCodeword(Codeword(s, cover, c), s.totalBits, Message(s, data, c))
            else Codeword(s, cover, c)
    decreases n
  {
    hide Codeword, Message, EmbedCodeword, Pow2, Splice;
    if n > 0 {
      PrefixCodeword(s, cover, data, n - 1, c);
      var prev := EmbedPrefix(s, cover, data, n - 1);
      var cw := EmbedCodeword(Codeword(s, prev, n - 1), s.totalBits, Message(s, data, n - 1));
      SpliceCodeword(s, prev, n - 1, cw, c);
    }
  }

  /** Bit i of the extracted data: bit of the syndrome of the codeword it was embedded in. */
  predicate ExtractedBit(s: Shape, block: Bytes, i: nat)
    requires s.Valid() && |block| == s.blockBytes && i < 8 * s.dataBytes
  {
    SlotOf(i, s.parityBits, s.codewords);
    Bit(Syndrome(Codeword(s, block, i / s.parityBits), s.totalBits), s.parityBits - 1 - i % s.parityBits)
  }

  function ExtractBlock(s: Shape, block: Bytes): (d: Bytes)
    requires s.Valid() && |block| == s.blockBytes
    ensures |d| == s.dataBytes
    ensures forall i: nat | i < 8 * s.dataBytes :: DataBit(d, i) == ExtractedBit(s, block, i)
  {
    var bits := (i: nat) => i < 8 * s.dataBytes && ExtractedBit(s, block, i);
    PackedBits(bits, s.dataBytes);
    PackData(bits, s.dataBytes)
  }

  /** The bytes whose data bits are given. */
  function PackData(bits: nat -> bool, n: nat): (d: Bytes)
    ensures |d| == n
  {
    seq(n, q requires 0 <= q < n => ByteOf((j: nat) => j < 8 && bits(8 * q + 7 - j)))
  }

  lemma PackedBits(bits: nat -> bool, n: nat)
    ensures forall i: nat | i < 8 * n :: DataBit(PackData(bits, n), i) == bits(i)
  {
    forall i: nat | i < 8 * n ensures DataBit(PackData(bits, n), i) == bits(i) {
      PackedBit(bits, n, i);
    }
  }

  lemma PackedBit(bits: nat -> bool, n: nat, i: nat)
    requires i < 8 * n
    ensures DataBit(PackData(bits, n), i) == bits(i)
  {
    hide Bit, ByteOf;
    var q, j := i / 8, 7 - i % 8;
    var f := (j: nat) => j < 8 && bits(8 * q + 7 - j);
    assert PackData(bits, n)[q] == ByteOf(f);
    assert 8 * q + 7 - j == i;
  }

  lemma DataExtensional(a: Bytes, b: Bytes)
    requires |a| == |b|
    requires forall i: nat | i < 8 * |a| :: DataBit(a, i) == DataBit(b, i)
    ensures a == b
  {
    forall q | 0 <= q < |a| ensures a[q] == b[q] {
      forall j: nat | j < 8 ensures Bit(a[q], j) == Bit(b[q], j) {
        var i := 8 * q + 7 - j;
        assert DataBit(a, i) == DataBit(b, i);
        assert i / 8 == q && i % 8 == 7 - j;
      }
      ByteExtensional(a[q], b[q]);
    }
  }

  // ---------------------------------------------------------------- the laws

  /** What is extracted from an embedded block is the data. */
  lemma ExtractAfterEmbed(s: Shape, cover: Bytes, data: Bytes)
    requires s.Valid() && |cover| == s.blockBytes && |data| == s.dataBytes
    ensures ExtractBlock(s, EmbedBlock(s, cover, data)) == data
  {
    var r := EmbedBlock(s, cover, data);
    forall i: nat | i < 8 * s.dataBytes ensures ExtractedBit(s, r, i) == DataBit(data, i) {
      ExtractedIsEmbedded(s, cover, data, i);
    }
    DataExtensional(ExtractBlock(s, r), data);
  }

  lemma ExtractedIsEmbedded(s: Shape, cover: Bytes, data: Bytes, i: nat)
    requires s.Valid() && |cover| == s.blockBytes && |data| == s.dataBytes && i < 8 * s.dataBytes
    ensures ExtractedBit(s, EmbedBlock(s, cover, data), i) == DataBit(data, i)
  {
    hide Pow2, Bit, Syndrome, Window, DataBit, EmbedBlock, Codeword, Message;
    var k := s.parityBits;
    SlotOf(i, k, s.codewords);
    SyndromeAfterEmbed(s, cover, data, i / k);
    MessageBit(s, data, i / k, k - 1 - i % k);
  }

  lemma MessageBit(s: Shape, data: Bytes, c: nat, t: nat)
    requires s.Valid() && |data| == s.dataBytes && c < s.codewords && t < s.parityBits
    ensures Span(c, s.parityBits) + s.parityBits - 1 - t < 8 * |data|
    ensures Bit(Message(s, data, c), t) == DataBit(data, Span(c, s.parityBits) + s.parityBits - 1 - t)
  {
    hide Pow2, Bit, Window, DataBit;
    SlotFits(c, s.parityBits, s.codewords);
    WindowBits(data, Span(c, s.parityBits), s.parityBits, t);
  }

  lemma SyndromeAfterEmbed(s: Shape, cover: Bytes, data: Bytes, c: nat)
    requires s.Valid() && |cover| == s.blockBytes && |data| == s.dataBytes && c < s.codewords
    ensures Syndrome(Codeword(s, EmbedBlock(s, cover, data), c), s.totalBits) == Message(s, data, c)
  {
    hide Pow2, Syndrome, EmbedCodeword, Window, EmbedPrefix, Codeword, CodeBit;
    PrefixCodeword(s, cover, data, s.codewords, c);
    MessageFits(s, data, c);
    CodewordEmbedding(s.parityBits, Codeword(s, cover, c), Message(s, data, c));
  }

  /** Bit p of a block lies in one codeword; a bit changed by embedding is the one its codeword
      gives up, it is never the padding bit of the codeword, and a codeword whose syndrome is
      already the message changes nowhere. */
  lemma EmbedChangesOneBitPerCodeword(s: Shape, cover: Bytes, data: Bytes, c: nat, p: nat, q: nat)
    requires s.Valid() && |cover| == s.blockBytes && |data| == s.dataBytes && c < s.codewords
    requires 1 <= p <= 8 * s.codewordBytes && 1 <= q <= 8 * s.codewordBytes
    ensures var before, after := Codeword(s, cover, c), Codeword(s, EmbedBlock(s, cover, data), c);
            && (CodeBit(before, p) != CodeBit(after, p) && CodeBit(before, q) != CodeBit(after, q) ==> p == q)
            && (CodeBit(before, p) != CodeBit(after, p) ==> p <= s.totalBits)
            && (before == after <==> Syndrome(before, s.totalBits) == Message(s, data, c))
  {
    hide Pow2, Syndrome, EmbedCodeword, Window, EmbedPrefix, CodeBit;
    PrefixCodeword(s, cover, data, s.codewords, c);
    MessageFits(s, data, c);
    CodewordEmbedding(s.parityBits, Codeword(s, cover, c), Message(s, data, c));
  }

  lemma MessageFits(s: Shape, data: Bytes, c: nat)
    requires s.Valid() && |data| == s.dataBytes && c < s.codewords
    ensures Message(s, data, c) < Pow2(s.parityBits)
  {
    SlotFits(c, s.parityBits, s.codewords);
    WindowFits(data, Span(c, s.parityBits), s.parityBits);
  }

  /** Embedding the data a block already holds changes nothing. */
  lemma EmbedIdempotent(s: Shape, cover: Bytes, data: Bytes)
    requires s.Valid() && |cover| == s.blockBytes && |data| == s.dataBytes
    ensures var r := EmbedBlock(s, cover, data); EmbedBlock(s, r, data) == r
  {
    var r := EmbedBlock(s, cover, data);
    forall c: nat | c < s.codewords
      ensures EmbedCodeword(Codeword(s, r, c), s.totalBits, Message(s, data, c)) == Codeword(s, r, c)
    {
      CodewordIsFixed(s, cover, data, c);
    }
    FixedCodewordsStay(s, r, data, s.codewords);
  }

  lemma {:induction false} FixedCodewordsStay(s: Shape, r: Bytes, data: Bytes, n: nat)
    requires s.Valid() && |r| == s.blockBytes && |data| == s.dataBytes && n <= s.codewords
    requires forall c: nat | c < s.codewords ::
      EmbedCodeword(Codeword(s, r, c), s.totalBits, Message(s, data, c)) == Codeword(s, r, c)
    ensures EmbedPrefix(s, r, data, n) == r
    decreases n
  {
    hide Codeword, Message, EmbedCodeword, Pow2;
    if n > 0 {
      FixedCodewordsStay(s, r, data, n - 1);
      FixedCodewordKeepsPrefix(s, r, data, n);
    }
  }

  lemma FixedCodewordKeepsPrefix(s: Shape, r: Bytes, data: Bytes, n: nat)
    requires s.Valid() && |r| == s.blockBytes && |data| == s.dataBytes && 0 < n <= s.codewords
    requires EmbedPrefix(s, r, data, n - 1) == r
    requires s.totalBits <= 8 * s.codewordBytes
    requires EmbedCodeword(Codeword(s, r, n - 1), s.totalBits, Message(s, data, n - 1)) == Codeword(s, r, n - 1)
    ensures EmbedPrefix(s, r, data, n) == r
  {
    hide Codeword, Message, EmbedCodeword, Pow2;
    CodewordIsSlice(s, r, n - 1);
    SpliceSlices(r, Span(n - 1, s.codewordBytes), Codeword(s, r, n - 1), 0, 0);
  }

  lemma CodewordIsSlice(s: Shape, block: Bytes, c: nat)
    requires s.Sized() && |block| == s.blockBytes && c < s.codewords
    ensures Span(c, s.codewordBytes) + s.codewordBytes <= |block|
    ensures Codeword(s, block, c) == block[Span(c, s.codewordBytes)..Span(c, s.codewordBytes) + s.codewordBytes]
  {
    SlotFits(c, s.codewordBytes, s.codewords);
  }

  lemma CodewordIsFixed(s: Shape, cover: Bytes, data: Bytes, c: nat)
    requires s.Valid() && |cover| == s.blockBytes && |data| == s.dataBytes && c < s.codewords
    ensures var cw := Codeword(s, EmbedBlock(s, cover, data), c);
            EmbedCodeword(cw, s.totalBits, Message(s, data, c)) == cw
  {
    hide Pow2, Syndrome, EmbedCodeword, Window, EmbedPrefix, CodeBit;
    var r := EmbedBlock(s, cover, data);
    PrefixCodeword(s, cover, data, s.codewords, c);
    MessageFits(s, data, c);
    CodewordEmbedding(s.parityBits, Codeword(s, cover, c), Message(s, data, c));
    CodewordEmbedding(s.parityBits, Codeword(s, r, c), Message(s, data, c));
  }
}
