/** src/encoders/hamming_encoder.cc: the encoder object, its loops over bits and bytes, and the
    proof that they compute EmbedBlock and ExtractBlock. */
module HammingEncoder {
  import opened Bits
  import opened Spans
  import opened StegoMath
  import opened NumberTheory
  import opened Outcomes
  import opened HammingCode

  const PARITY_BITS_MIN: nat := 3
  const PARITY_BITS_MAX: nat := 8
  const DEFAULT_PARITY_BITS: nat := 5

  /** The block shape for k parity bits. */
  function ShapeFor(k: nat): (s: Shape)
    requires PARITY_BITS_MIN <= k <= PARITY_BITS_MAX
    ensures s.Valid() && s.parityBits == k
  {
    match k
    case 3 => Shape(3, 7, 3, 8, 1, 8)
    case 4 => Shape(4, 15, 1, 2, 2, 4)
    case 5 => Shape(5, 31, 5, 8, 4, 32)
    case 6 => Shape(6, 63, 3, 4, 8, 32)
    case 7 => Shape(7, 127, 7, 8, 16, 128)
    case _ => assert Pow2(8) == 256; Shape(8, 255, 1, 1, 32, 32)
  }

  class HammingEncoder {
    var parityBits: nat
    var totalBits: nat
    var dataBlockSize: nat
    var codewordsInBlock: nat
    var codewordBufferSize: nat
    var codewordBlockSize: nat

    ghost function Layout(): Shape reads this {
      Shape(parityBits, totalBits, dataBlockSize, codewordsInBlock, codewordBufferSize, codewordBlockSize)
    }

    ghost predicate Valid() reads this {
      Layout().Valid()
    }

    constructor ()
      ensures Valid() && Layout() == Shape(5, 31, 5, 8, 4, 32)
    {
      new;
      var r := Init(DEFAULT_PARITY_BITS);
    }

    method Init(k: nat) returns (r: Status)
      modifies this
      ensures r == Done <==> 3 <= k <= 8
      ensures r == Done ==> Valid() && Layout() == ShapeFor(k)
      ensures r != Done ==> r == Failed(OutOfRange) && unchanged(this)
    {
      if k < PARITY_BITS_MIN || k > PARITY_BITS_MAX { return Failed(OutOfRange); }
      parityBits := k;
      ShiftsArePowers(1, k);
      totalBits := Shl(1, k) - 1;
      var lcm := Lcm(k, 8);
      LcmWithEight(k);
      ghost var shape := ShapeFor(k);
      assert shape.Valid() && shape.totalBits == totalBits;
      hide ShapeFor, Shape.Valid, Gcd, Pow2, Shl;
      dataBlockSize := lcm / 8;
      codewordsInBlock := dataBlockSize * 8 / k;
      codewordBufferSize := (totalBits - 1) / 8 + 1;
      codewordBlockSize := codewordBufferSize * codewordsInBlock;
      return Done;
    }

    /** The product of the codeword at `at` with the check matrix. */
    method ComputeH(buffer: array<byte>, at: nat) returns (result: nat)
      requires Valid() && at + codewordBufferSize <= buffer.Length
      ensures result == Syndrome(buffer[at..at + codewordBufferSize], totalBits)
    {
      hide Pow2, Syndrome, CodeBit, BitXor, Bit;
      ghost var cw := buffer[at..at + codewordBufferSize];
      var hline: nat := 1;
      result := 0;
      SyndromeOfNothing(cw);
      for i := 0 to codewordBufferSize
        invariant hline == Min(8 * i, totalBits) + 1
        invariant result == Syndrome(cw, hline - 1)
      {
        for j := 8 downto 0
          invariant hline == Min(8 * i + 8 - j, totalBits) + 1
          invariant result == Syndrome(cw, hline - 1)
        {
          if hline <= totalBits {
            CodeBitAt(cw, i, j);
            SyndromeNext(cw, hline);
            if Bit(buffer[at + i], j) { result := BitXor(result, hline); }
            hline := hline + 1;
          }
        }
      }
    }

    /** Flips bit `bit` of the codeword at `at`; 0 means none. */
    method SwapBitInCodeword(buffer: array<byte>, at: nat, bit: nat)
      requires Valid() && at + codewordBufferSize <= buffer.Length && bit <= 8 * codewordBufferSize
      modifies buffer
      ensures buffer[..] == (if bit == 0 then old(buffer[..])
                             else Splice(old(buffer[..]), at, FlipBit(old(buffer[at..at + codewordBufferSize]), bit)))
    {
      if bit == 0 { return; }
      var q := (bit - 1) / 8;
      FlippedByte(buffer[at + q], 7 - (bit - 1) % 8);
      ShiftsArePowers(1, 7 - (bit - 1) % 8);
      buffer[at + q] := BitXor(buffer[at + q], Shl(1, 7 - (bit - 1) % 8));
    }

    /** The number in `length` bits from `offset` on. */
    method ReadBitsFromBuffer(buffer: array<byte>, start: nat, length: nat) returns (result: nat)
      requires start + length <= 8 * buffer.Length
      ensures result == Window(buffer[..], start, length)
    {
      hide Bit, Bitwise, Pow2, Shl, Shr;
      ghost var d := buffer[..];
      var offset := start;
      var written: nat := 0;
      result := 0;
      forall t: nat ensures !Bit(0, t) { BitOfZero(t); }
      while written < length
        invariant written <= length && offset == start + written
        invariant forall t: nat :: Bit(result, t) == BitRead(d, start, length, written, t)
        decreases length - written
      {
        var byteOffset := offset / 8;
        var bitOffset := offset % 8;
        var tmpValue := BitAnd(Shl(buffer[byteOffset], bitOffset), 0xFF);
        var tmpBits := 8 - bitOffset;
        ShrNothing(tmpValue);
        var need := if length - written < tmpBits then length - written else tmpBits;
        ReadStep(d, start, length, written, need, result);
        if length - written < tmpBits {
          tmpValue := Shr(tmpValue, tmpBits - (length - written));
          tmpBits := tmpBits - (tmpBits - (length - written));
        }
        tmpValue := Shr(tmpValue, bitOffset);
        result := BitXor(result, Shl(tmpValue, length - written - tmpBits));
        offset := offset + tmpBits;
        written := written + tmpBits;
      }
      ReadResult(d, start, length, result);
    }

    /** Xors the `parityBits` low bits of `value` into the buffer, from bit `start` on. */
    method WriteBitsToBuffer(value: nat, start: nat, buffer: array<byte>)
      requires Valid() && value < Pow2(parityBits)
      requires start + parityBits <= 8 * buffer.Length
      modifies buffer
      ensures forall i: nat | i < 8 * buffer.Length ::
        DataBit(buffer[..], i) == (DataBit(old(buffer[..]), i) != BitWritten(value, start, parityBits, parityBits, i))
    {
      hide Bit, Bitwise, Pow2, Shl, Shr, DataBit;
      ghost var d := buffer[..];
      var offset := start;
      var written: nat := 0;
      while written < parityBits
        invariant written <= parityBits
        invariant written < parityBits ==> offset == start + written
        invariant 0 < written < parityBits ==> offset % 8 == 0
        invariant forall i: nat | i < 8 * buffer.Length ::
          DataBit(buffer[..], i) == (DataBit(d, i) != BitWritten(value, start, parityBits, written, i))
        decreases parityBits - written
      {
        var byteOffset := offset / 8;
        var bitOffset := offset % 8;
        var shift := parityBits - 8 + bitOffset - written;
        var tmpValue: nat;
        if shift < 0 {
          tmpValue := BitAnd(Shl(value, -shift), BitAnd(Shl(0xFF, -shift), 0xFF));
        } else {
          tmpValue := BitAnd(Shr(value, shift), 0xFF);
        }
        ghost var before := buffer[..];
        WriteStep(d, before, value, start, parityBits, written, tmpValue);
        buffer[byteOffset] := BitXor(buffer[byteOffset], tmpValue);
        assert buffer[..] == before[byteOffset := BitXor(before[byteOffset], tmpValue)];
        written := if shift <= 0 then written + (parityBits - written)
                   else written + ((parityBits - written) - shift);
        offset := if shift <= 0 then offset + parityBits else offset + (parityBits - shift);
      }
    }

    /** Embeds one data block into the codeword block at `at`. */
    method Embed(buffer: array<byte>, at: nat, data: array<byte>)
      requires Valid() && at + codewordBlockSize <= buffer.Length && data.Length == dataBlockSize
      requires buffer != data
      modifies buffer
      ensures buffer[..] == Splice(old(buffer[..]), at,
        EmbedBlock(Layout(), old(buffer[at..at + codewordBlockSize]), data[..]))
    {
      hide Syndrome, Bitwise, Pow2, FlipBit, Splice, Window, EmbedPrefix, Codeword, EmbedCodeword;
      ghost var s, all, d := Layout(), buffer[..], data[..];
      ghost var cover := all[at..at + codewordBlockSize];
      SpliceSlices(all, at, cover, 0, 0);
      NothingEmbedded(s, cover, d);
      var bitOffset: nat := 0;
      for i := 0 to codewordsInBlock
        invariant bitOffset == Span(i, parityBits)
        invariant data[..] == d
        invariant buffer[..] == Splice(all, at, EmbedPrefix(s, cover, d, i))
      {
        SlotFits(i, codewordBufferSize, codewordsInBlock);
        SlotFits(i, parityBits, codewordsInBlock);
        EmbedStep(s, all, at, cover, d, i);
        var h := ComputeH(buffer, at + Span(i, codewordBufferSize));
        var m := ReadBitsFromBuffer(data, bitOffset, parityBits);
        h := BitXor(h, m);
        if h != 0 {
          SwapBitInCodeword(buffer, at + Span(i, codewordBufferSize), h);
        }
        bitOffset := bitOffset + parityBits;
      }
    }

    /** Extracts the data block embedded in the codeword block at `at`. */
    method Extract(buffer: array<byte>, at: nat, data: array<byte>)
      requires Valid() && at + codewordBlockSize <= buffer.Length && data.Length == dataBlockSize
      requires buffer != data
      modifies data
      ensures data[..] == ExtractBlock(Layout(), buffer[at..at + codewordBlockSize])
    {
      hide Syndrome, Bit, Pow2, DataBit, Codeword, BitWritten, ExtractedBit, ExtractBlock;
      ghost var s, block := Layout(), buffer[at..at + codewordBlockSize];
      forall i | 0 <= i < dataBlockSize { data[i] := 0; }
      ZeroBits(data[..]);
      var bitOffset: nat := 0;
      for i := 0 to codewordsInBlock
        invariant bitOffset == Span(i, parityBits)
        invariant buffer[at..at + codewordBlockSize] == block
        invariant forall n: nat | n < 8 * dataBlockSize ::
          DataBit(data[..], n) == (n < bitOffset && ExtractedBit(s, block, n))
      {
        SlotFits(i, codewordBufferSize, codewordsInBlock);
        SlotFits(i, parityBits, codewordsInBlock);
        var h := ComputeH(buffer, at + Span(i, codewordBufferSize));
        SliceOfSlice(buffer[..], at, codewordBlockSize, Span(i, codewordBufferSize), codewordBufferSize);
        CodewordIsSlice(s, block, i);
        SyndromeFits(Codeword(s, block, i), totalBits, parityBits);
        ghost var before := data[..];
        WriteBitsToBuffer(h, bitOffset, data);
        ExtractStep(s, block, i, before, data[..]);
        bitOffset := bitOffset + parityBits;
      }
      DataExtensional(data[..], ExtractBlock(s, block));
    }
  }

  lemma NothingEmbedded(s: Shape, cover: Bytes, d: Bytes)
    requires s.Valid() && |cover| == s.blockBytes && |d| == s.dataBytes
    ensures EmbedPrefix(s, cover, d, 0) == cover
  {}

  lemma ZeroBits(d: Bytes)
    requires forall i | 0 <= i < |d| :: d[i] == 0
    ensures forall i: nat | i < 8 * |d| :: !DataBit(d, i)
  {
    forall i: nat | i < 8 * |d| ensures !DataBit(d, i) { BitOfZero(7 - i % 8); }
  }

  lemma NestedSplice(b: Bytes, at: nat, x: Bytes, off: nat, cw: Bytes)
    requires at + |x| <= |b| && off + |cw| <= |x|
    ensures Splice(Splice(b, at, x), at + off, cw) == Splice(b, at, Splice(x, off, cw))
    ensures Splice(b, at, x)[at + off..at + off + |cw|] == x[off..off + |cw|]
  {
    SliceOfSplice(b, at, x, off, |cw|);
    var l, r := Splice(Splice(b, at, x), at + off, cw), Splice(b, at, Splice(x, off, cw));
    forall i | 0 <= i < |b| ensures l[i] == r[i] {}
  }

  lemma SliceOfSplice(b: Bytes, at: nat, x: Bytes, off: nat, w: nat)
    requires at + |x| <= |b| && off + w <= |x|
    ensures Splice(b, at, x)[at + off..at + off + w] == x[off..off + w]
  {
    SpliceSlices(b, at, x, 0, 0);
    SliceOfSlice(Splice(b, at, x), at, |x|, off, w);
  }

  /** What one turn of `Embed` sees and what it has to leave. */
  lemma EmbedStep(s: Shape, all: Bytes, at: nat, cover: Bytes, d: Bytes, i: nat)
    requires s.Valid() && |cover| == s.blockBytes && |d| == s.dataBytes && i < s.codewords
    requires at + |cover| <= |all|
    requires Span(i, s.codewordBytes) + s.codewordBytes <= |cover|
    ensures var prev := EmbedPrefix(s, cover, d, i);
            var before := Splice(all, at, prev);
            var from := at + Span(i, s.codewordBytes);
            var cw := before[from..from + s.codewordBytes];
            var h := BitXor(Syndrome(cw, s.totalBits), Message(s, d, i));
            && h <= s.totalBits
            && Splice(all, at, EmbedPrefix(s, cover, d, i + 1))
            == if h == 0 then before else Splice(before, from, FlipBit(cw, h))
  {
    hide Syndrome, Bitwise, Pow2, FlipBit, Splice, Message, CodeBit, Codeword;
    var prev := EmbedPrefix(s, cover, d, i);
    var w := s.codewordBytes;
    var cw := Codeword(s, prev, i);
    CodewordIsSlice(s, prev, i);
    NestedSplice(all, at, prev, Span(i, w), cw);
    MessageFits(s, d, i);
    CodewordEmbedding(s.parityBits, cw, Message(s, d, i));
    NestedSplice(all, at, prev, Span(i, w), EmbedCodeword(cw, s.totalBits, Message(s, d, i)));
    SpliceSlices(prev, Span(i, w), cw, 0, 0);
  }

  /** One turn of `Extract`. */
  lemma ExtractStep(s: Shape, block: Bytes, c: nat, before: Bytes, after: Bytes)
    requires s.Valid() && |block| == s.blockBytes && c < s.codewords
    requires |before| == |after| == s.dataBytes
    requires Span(c, s.parityBits) + s.parityBits <= 8 * s.dataBytes
    requires forall n: nat | n < 8 * s.dataBytes ::
      DataBit(before, n) == (n < Span(c, s.parityBits) && ExtractedBit(s, block, n))
    requires var h := Syndrome(Codeword(s, block, c), s.totalBits);
      forall n: nat | n < 8 * s.dataBytes ::
        DataBit(after, n) == (DataBit(before, n) != BitWritten(h, Span(c, s.parityBits), s.parityBits, s.parityBits, n))
    ensures forall n: nat | n < 8 * s.dataBytes ::
      DataBit(after, n) == (n < Span(c, s.parityBits) + s.parityBits && ExtractedBit(s, block, n))
  {
    hide Syndrome, Bit, Pow2, DataBit, Codeword;
    var k := s.parityBits;
    forall n: nat | n < 8 * s.dataBytes
      ensures DataBit(after, n) == (n < Span(c, k) + k && ExtractedBit(s, block, n))
    {
      assert DataBit(before, n) == (n < Span(c, k) && ExtractedBit(s, block, n));
      if Span(c, k) <= n < Span(c, k) + k {
        PlaceInSlot(c, k, n - Span(c, k));
      }
    }
  }

  /** Reading back a number just written into clear bits gives the number. */
  lemma ReadAfterWrite(before: Bytes, after: Bytes, value: nat, start: nat, k: nat)
    requires |before| == |after| && start + k <= 8 * |before| && value < Pow2(k)
    requires forall i: nat | start <= i < start + k :: !DataBit(before, i)
    requires forall i: nat | i < 8 * |before| ::
        DataBit(after, i) == (DataBit(before, i) != BitWritten(value, start, k, k, i))
    ensures Window(after, start, k) == value
  {
    hide Bit, DataBit;
    FitsIffHighBitsClear(value, k);
    forall t: nat ensures Bit(Window(after, start, k), t) == Bit(value, t) {
      WindowBits(after, start, k, t);
      if t < k {
        var i := start + k - 1 - t;
        assert DataBit(after, i) == (DataBit(before, i) != BitWritten(value, start, k, k, i));
      }
    }
    BitsExtensional(Window(after, start, k), value);
  }

  function Min(a: nat, b: nat): nat {
    if a < b then a else b
  }

  lemma SyndromeOfNothing(cw: Bytes)
    ensures Syndrome(cw, 0) == 0
  {}

  lemma SyndromeNext(cw: Bytes, n: nat)
    requires 1 <= n <= 8 * |cw|
    ensures Syndrome(cw, n) == if CodeBit(cw, n) then BitXor(Syndrome(cw, n - 1), n) else Syndrome(cw, n - 1)
  {
    XorSelf(Syndrome(cw, n - 1));
  }

  lemma CodeBitAt(cw: Bytes, i: nat, j: nat)
    requires i < |cw| && j < 8
    ensures CodeBit(cw, 8 * i + 8 - j) == Bit(cw[i], j)
  {
    var p := 8 * i + 8 - j;
    assert (p - 1) / 8 == i && 7 - (p - 1) % 8 == j;
  }

  /** Which bits of the number are known once `written` bits from `start` have been read. */
  predicate BitRead(d: Bytes, start: nat, length: nat, written: nat, t: nat)
    requires start + length <= 8 * |d| && written <= length
  {
    length - written <= t < length && DataBit(d, start + length - 1 - t)
  }

  /** One turn of the read loop, for the `need` bits taken from the current byte. */
  lemma ReadStep(d: Bytes, start: nat, length: nat, written: nat, need: nat, result: nat)
    requires start + length <= 8 * |d| && written < length
    requires var rest := 8 - (start + written) % 8; need == if length - written < rest then length - written else rest
    requires forall t: nat :: Bit(result, t) == BitRead(d, start, length, written, t)
    ensures var bo := (start + written) % 8;
            var chunk := Shr(Shr(BitAnd(Shl(d[(start + written) / 8], bo), 0xFF), 8 - bo - need), bo);
            var next, done := BitXor(result, Shl(chunk, length - written - need)), written + need;
            forall t: nat :: Bit(next, t) == BitRead(d, start, length, done, t)
  {
    hide Bit, Bitwise, Pow2, Shl, Shr;
    var off := start + written;
    var bo, b := off % 8, d[off / 8];
    var chunk := Shr(Shr(BitAnd(Shl(b, bo), 0xFF), 8 - bo - need), bo);
    var low := length - written - need;
    forall t: nat
      ensures Bit(BitXor(result, Shl(chunk, low)), t) == BitRead(d, start, length, written + need, t)
    {
      BitwiseBit(Xor, result, Shl(chunk, low), t);
      ShlBit(chunk, low, t);
      if t >= low {
        ChunkBit(b, bo, need, t - low);
        if t - low < need {
          var i := start + length - 1 - t;
          assert i / 8 == off / 8 && 7 - i % 8 == 8 - bo - need + (t - low);
        }
      }
    }
  }

  lemma ChunkBit(b: byte, bo: nat, need: nat, u: nat)
    requires bo < 8 && need <= 8 - bo
    ensures Bit(Shr(Shr(BitAnd(Shl(b, bo), 0xFF), 8 - bo - need), bo), u)
         == (u < need && Bit(b, 8 - bo - need + u))
  {
    hide Bit, Bitwise, Pow2, Shl, Shr;
    var masked := BitAnd(Shl(b, bo), 0xFF);
    ShrBit(Shr(masked, 8 - bo - need), bo, u);
    ShrBit(masked, 8 - bo - need, u + bo);
    LowByte(Shl(b, bo), u + 8 - need);
    ShlBit(b, bo, u + 8 - need);
  }

  lemma ShrNothing(n: nat)
    ensures Shr(n, 0) == n
  {}

  lemma ReadResult(d: Bytes, start: nat, length: nat, result: nat)
    requires start + length <= 8 * |d|
    requires forall t: nat :: Bit(result, t) == BitRead(d, start, length, length, t)
    ensures result == Window(d, start, length)
  {
    hide Bit;
    forall t: nat ensures Bit(result, t) == Bit(Window(d, start, length), t) {
      WindowBits(d, start, length, t);
    }
    BitsExtensional(result, Window(d, start, length));
  }

  /** Which data bits have been flipped once `written` of the k bits of `value` are stored. */
  predicate BitWritten(value: nat, start: nat, k: nat, written: nat, i: nat)
    requires written <= k
  {
    start <= i < start + written && Bit(value, k - 1 - (i - start))
  }

  /** One turn of the write loop. */
  lemma WriteStep(d: Bytes, before: Bytes, value: nat, start: nat, k: nat, written: nat, tmpValue: nat)
    requires value < Pow2(k) && k <= 8 && written < k && |d| == |before| && start + k <= 8 * |d|
    requires written > 0 ==> (start + written) % 8 == 0
    requires var shift := k - 8 + (start + written) % 8 - written;
             tmpValue == if shift < 0 then BitAnd(Shl(value, -shift), BitAnd(Shl(0xFF, -shift), 0xFF))
                         else BitAnd(Shr(value, shift), 0xFF)
    requires forall i: nat | i < 8 * |d| ::
        DataBit(before, i) == (DataBit(d, i) != BitWritten(value, start, k, written, i))
    ensures var off := start + written;
            var shift := k - 8 + off % 8 - written;
            var written' := if shift <= 0 then k else k - shift;
            && BitXor(before[off / 8], tmpValue) < 256
            && var after := before[off / 8 := BitXor(before[off / 8], tmpValue)];
               forall i: nat | i < 8 * |d| ::
                 DataBit(after, i) == (DataBit(d, i) != BitWritten(value, start, k, written', i))
  {
    hide Bit, Bitwise, Pow2, Shl, Shr;
    var off := start + written;
    var q := off / 8;
    var shift := k - 8 + off % 8 - written;
    TmpFits(value, shift, tmpValue, before[q]);
    var after := before[q := BitXor(before[q], tmpValue)];
    forall i: nat | i < 8 * |d|
      ensures DataBit(after, i) == (DataBit(d, i) !=
                BitWritten(value, start, k, if shift <= 0 then k else k - shift, i))
    {
      assert DataBit(before, i) == (DataBit(d, i) != BitWritten(value, start, k, written, i));
      if i / 8 == q {
        var j := 7 - i % 8;
        BitwiseBit(Xor, before[q], tmpValue, j);
        TmpBit(value, shift, tmpValue, j);
        if j + shift >= k { FitsIffHighBitsClear(value, k); }
      }
    }
  }

  lemma TmpBit(value: nat, shift: int, tmpValue: nat, j: nat)
    requires j < 8
    requires tmpValue == if shift < 0 then BitAnd(Shl(value, -shift), BitAnd(Shl(0xFF, -shift), 0xFF))
                         else BitAnd(Shr(value, shift), 0xFF)
    ensures Bit(tmpValue, j) == (j + shift >= 0 && Bit(value, j + shift))
  {
    hide Bit, Bitwise, Pow2, Shl, Shr;
    if shift < 0 {
      BitwiseBit(And, Shl(value, -shift), BitAnd(Shl(0xFF, -shift), 0xFF), j);
      ShlBit(value, -shift, j);
      LowByte(Shl(0xFF, -shift), j);
      ShlBit(0xFF, -shift, j);
      if j + shift >= 0 { OnesByte(j + shift); }
    } else {
      LowByte(Shr(value, shift), j);
      ShrBit(value, shift, j);
    }
  }

  lemma OnesByte(j: nat)
    ensures Bit(0xFF, j) == (j < 8)
  {
    BitsOfMask(8, j);
    Pow2Values();
  }

  lemma TmpFits(value: nat, shift: int, tmpValue: nat, b: byte)
    requires tmpValue == if shift < 0 then BitAnd(Shl(value, -shift), BitAnd(Shl(0xFF, -shift), 0xFF))
                         else BitAnd(Shr(value, shift), 0xFF)
    ensures BitXor(b, tmpValue) < 256
  {
    hide Bitwise, Shl, Shr;
    Pow2Values();
    if shift < 0 {
      var m := Shl(0xFF, -shift);
      LowByte(m, 0);
      AndFits(Shl(value, -shift), BitAnd(m, 0xFF), 8);
    } else {
      LowByte(Shr(value, shift), 0);
    }
    BitwiseFits(Xor, b, tmpValue, 8);
  }

  lemma AndFits(a: nat, b: nat, k: nat)
    requires b < Pow2(k)
    ensures BitAnd(a, b) < Pow2(k)
  {
    hide Bit, Bitwise;
    FitsIffHighBitsClear(b, k);
    forall j: nat | j >= k ensures !Bit(BitAnd(a, b), j) {
      BitwiseBit(And, a, b, j);
    }
    FitsIffHighBitsClear(BitAnd(a, b), k);
  }

  lemma LcmWithEight(k: nat)
    requires PARITY_BITS_MIN <= k <= PARITY_BITS_MAX
    ensures Gcd(k, 8) > 0
    ensures var s := ShapeFor(k);
            && k * 8 / Gcd(k, 8) / 8 == s.dataBytes
            && s.dataBytes * 8 / k == s.codewords
            && (s.totalBits - 1) / 8 + 1 == s.codewordBytes
            && s.blockBytes == s.codewordBytes * s.codewords
  {
    GcdWithEight(k);
    hide Pow2, Shape.Valid, Gcd;
    if k == 3 {
    } else if k == 4 {
    } else if k == 5 {
    } else if k == 6 {
    } else if k == 7 {
    } else {
      assert k == 8;
    }
  }

  lemma GcdWithEight(k: nat)
    requires PARITY_BITS_MIN <= k <= PARITY_BITS_MAX
    ensures Gcd(k, 8) == (if k == 4 then 4 else if k == 6 then 2 else if k == 8 then 8 else 1)
  {
    assert Gcd(3, 8) == 1 && Gcd(4, 8) == 4 && Gcd(5, 8) == 1;
    assert Gcd(6, 8) == 2 && Gcd(7, 8) == 1 && Gcd(8, 8) == 8;
  }
}
