/** Where the data stands in a carrier, bit by bit, in the arithmetic of bytes and samples. */
module StegoFormat {
  import opened Bits
  import opened Spans
  import opened HammingCode
  import opened Codecs
  import opened Permutations
  import opened Carriers
  import opened Embedding
  import opened Layout
  import opened BufferFilling

  /** Bit j of a number. */
  predicate BitOf(n: nat, j: nat) { n / Pow2(j) % 2 == 1 }

  lemma BitIsBitOf(n: nat, j: nat)
    ensures Bit(n, j) == BitOf(n, j)
  {
    ShiftsArePowers(n, j);
  }

  // ---------------------------------------------------------------- samples

  /** The samples that carry a bit, in their order: all bytes of a bitmap; of a JPEG the coefficients
      other than the first of each block of 64 and other than 0 and 1. */
  lemma CarryingSamples(img: Image, i: nat)
    requires img.Valid() && i < |img.samples|
    ensures (exists k: nat :: k < |img.Channel()| && img.Channel()[k] == i)
       <==> img.Bmp? || (i % 64 != 0 && img.samples[i] != 0 && img.samples[i] != 1)
    ensures forall j, k | 0 <= j < k < |img.Channel()| :: img.Channel()[j] < img.Channel()[k]
    ensures 8 * img.RawCapacity() <= |img.Channel()| < 8 * (img.RawCapacity() + 1)
  {
    var u := img.Channel();
    UsablesAreIncreasing(img, |img.samples|);
    UsableIs(img, i);
    hide Image.Usable;
    if img.Usable(i) {
      UsablesComplete(img, |img.samples|, i);
      var k: nat :| k < |img.Usables(|img.samples|)| && img.Usables(|img.samples|)[k] == i;
      assert u[k] == i;
    }
    if k: nat :| k < |u| && u[k] == i { assert img.Usable(u[k]); }
  }

  lemma UsableIs(img: Image, i: nat)
    requires img.Valid() && i < |img.samples|
    ensures img.Usable(i) <==> img.Bmp? || (i % 64 != 0 && img.samples[i] != 0 && img.samples[i] != 1)
  {
    if img.Jpeg? {
      Pow2Values();
      var v := img.samples[i];
      assert v < Pow2(16);
      ClearLowBit(v, 16);
      hide Bitwise, Pow2;
    }
  }

  /** Bit j of the buffer, counted through the local permutation from the lowest bit of a byte on, is the
      lowest bit of the j-th carrying sample. */
  lemma BufferFromSamples(img: Image, st: Setup, j: nat)
    requires st.Fits(img) && j < st.perm.Size()
    ensures var x := st.perm.Apply(j);
            && x < 8 * |LoadBuffer(img, st)| && j < |img.Channel()|
            && BitOf(LoadBuffer(img, st)[x / 8], x % 8) == (img.samples[img.Channel()[j]] % 2 == 1)
  {
    hide Bit, Pack, ReadBits, Perm.Apply, Perm.Size, Perm.Valid, Codec.Valid, Image.Channel, Image.Valid, BitOf;
    var x := st.perm.Apply(j);
    var bits, len := ReadBits(img, st.perm.Size()), img.RawCapacity();
    UnpackPack(bits, st.perm, len);
    assert Unpack(Pack(bits, st.perm, len), st.perm)[j] == BufferBit(Pack(bits, st.perm, len), x);
    BitIsBitOf(LoadBuffer(img, st)[x / 8], x % 8);
  }

  /** After a save the lowest bit of the j-th carrying sample is that bit of the saved buffer; everything
      else in the samples is as before. */
  lemma SamplesFromBuffer(img: Image, st: Setup, data: Bytes, j: nat)
    requires st.Fits(img) && |data| == st.DataBytes() && j < st.perm.Size()
    ensures var x, r := st.perm.Apply(j), SaveImage(img, st, data);
            && x < 8 * |SavedBuffer(img, st, data)| && j < |img.Channel()|
            && (r.samples[img.Channel()[j]] % 2 == 1) == BitOf(SavedBuffer(img, st, data)[x / 8], x % 8)
    ensures forall i: nat | i < |img.samples| ::
              && SaveImage(img, st, data).samples[i] / 2 == img.samples[i] / 2
              && ((forall k | 0 <= k < st.perm.Size() :: k < |img.Channel()| && img.Channel()[k] != i) ==>
                    SaveImage(img, st, data).samples[i] == img.samples[i])
  {
    var r := SaveImage(img, st, data);
    var e := SavedBuffer(img, st, data);
    var bits := Unpack(e, st.perm);
    ReadAfterWriteBits(img, bits);
    ChannelIsStable(img, bits);
    BitIsBitOf(e[st.perm.Apply(j) / 8], st.perm.Apply(j) % 8);
    hide SavedBuffer, Bit, BitOf, Perm.Apply, Image.Usable, WriteBits, SaveImage;
    assert ReadBits(r, |bits|)[j] == bits[j];
    forall i: nat | i < |img.samples|
      ensures r.samples[i] / 2 == img.samples[i] / 2
      ensures (forall k | 0 <= k < st.perm.Size() :: k < |img.Channel()| && img.Channel()[k] != i) ==>
                r.samples[i] == img.samples[i]
    {
      WrittenSample(img, bits, i);
    }
  }

  // ---------------------------------------------------------------- codewords

  /** The parity of those of the first n bits from byte `at` on, most significant bit of a byte first,
      whose positions counted from 1 have bit t: row t of the check matrix. */
  predicate CheckBit(buf: Bytes, at: nat, t: nat, n: nat)
    requires 8 * at + n <= 8 * |buf|
  {
    n > 0 && CheckBit(buf, at, t, n - 1) != (BitOf(n, t) && BitOf(buf[at + (n - 1) / 8], 7 - (n - 1) % 8))
  }

  lemma {:induction false} SyndromeIsCheck(buf: Bytes, at: nat, w: nat, t: nat, n: nat)
    requires at + w <= |buf| && n <= 8 * w
    ensures Bit(Syndrome(buf[at..at + w], n), t) == CheckBit(buf, at, t, n)
    decreases n
  {
    hide Bit, BitOf, BitXor;
    var cw := buf[at..at + w];
    if n == 0 {
      BitOfZero(t);
    } else {
      SyndromeIsCheck(buf, at, w, t, n - 1);
      BitIsBitOf(n, t);
      BitIsBitOf(buf[at + (n - 1) / 8], 7 - (n - 1) % 8);
      assert cw[(n - 1) / 8] == buf[at + (n - 1) / 8];
      BitOfZero(t);
      XorBit(Syndrome(cw, n - 1), if CodeBit(cw, n) then n else 0, t);
    }
  }

  lemma XorBit(a: nat, b: nat, t: nat)
    ensures Bit(BitXor(a, b), t) == (Bit(a, t) != Bit(b, t))
  {
    BitwiseBit(Xor, a, b, t);
  }

  /** The Hamming encoder: codeword c of a block holds the bits c * k to c * k + k - 1 of the data, most
      significant bit of a byte first; they are the rows of the check matrix, the highest first. */
  lemma ExtractedBitIsCheck(s: Shape, block: Bytes, c: nat, d: nat)
    requires s.Valid() && |block| == s.blockBytes && c < s.codewords && d < s.parityBits
    ensures var k, i := s.parityBits, Span(c, s.parityBits) + d;
            && i < 8 * s.dataBytes
            && 8 * Span(c, s.codewordBytes) + (Pow2(k) - 1) <= 8 * |block|
            && BitOf(ExtractBlock(s, block)[i / 8], 7 - i % 8)
               == CheckBit(block, Span(c, s.codewordBytes), k - 1 - d, Pow2(k) - 1)
  {
    hide Bit, Syndrome, CheckBit, BitOf, ExtractBlock, Pow2, Span;
    var k, i := s.parityBits, Span(c, s.parityBits) + d;
    SlotFits(c, k, s.codewords);
    PlaceInSlot(c, k, d);
    CodewordIsSlice(s, block, c);
    SyndromeIsCheck(block, Span(c, s.codewordBytes), s.codewordBytes, k - 1 - d, s.totalBits);
    BitIsBitOf(ExtractBlock(s, block)[i / 8], 7 - i % 8);
    assert DataBit(ExtractBlock(s, block), i) == ExtractedBit(s, block, i);
  }

  /** The data of a carrier are the blocks extracted one behind the other. */
  lemma DataOfBlocks(img: Image, st: Setup, b: nat)
    requires st.Fits(img) && b < st.blocks
    ensures var w, v := st.codec.CodeSize(), st.codec.DataSize();
            && Span(b + 1, w) <= |LoadBuffer(img, st)| && Span(b + 1, v) <= |LoadData(img, st)|
            && Slot(LoadData(img, st), b, v) == st.codec.Extract(Slot(LoadBuffer(img, st), b, w))
  {
    hide LoadBuffer, Codec.Extract, Codec.CodeSize, Codec.DataSize, Image.Valid, Codec.Valid, Perm.Valid, Bijective;
    ExtractedSlot(st.codec, LoadBuffer(img, st), st.blocks, b);
  }

  // ---------------------------------------------------------------- the storage

  /** A carrier takes the byte at its offset through the global permutation, and 0 behind the storage. */
  lemma FetchedByte(data: Bytes, p: Perm, offset: nat, n: nat, j: nat)
    requires p.Valid() && Bijective(p) && |data| == p.Size() && j < n
    ensures FetchBytes(data, p, offset, n)[j] == if offset + j < p.Size() then data[p.Apply(offset + j)] else 0
  {}
}
