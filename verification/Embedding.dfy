/** One carrier file as a whole: what saving writes into it, what loading reads from it, the round
    trip between them, and how little saving changes. */
module Embedding {
  import opened Bits
  import opened Spans
  import opened HammingCode
  import opened Codecs
  import opened Permutations
  import opened Carriers

  /** How a carrier is used: its local permutation, its encoder, the blocks it was given. */
  datatype Setup = Setup(perm: Perm, codec: Codec, blocks: nat) {

    ghost predicate Fits(img: Image) {
      && img.Valid() && perm.Valid() && Bijective(perm) && codec.Valid()
      && 8 * Span(blocks, codec.CodeSize()) <= perm.Size() <= 8 * img.RawCapacity()
    }

    function DataBytes(): nat { Span(blocks, codec.DataSize()) }
  }

  /** The permuted bit buffer of a carrier. */
  ghost function LoadBuffer(img: Image, st: Setup): (buf: Bytes)
    requires st.Fits(img)
    ensures |buf| == img.RawCapacity()
  {
    Pack(ReadBits(img, st.perm.Size()), st.perm, img.RawCapacity())
  }

  /** The bytes a carrier holds. */
  ghost function LoadData(img: Image, st: Setup): (d: Bytes)
    requires st.Fits(img)
    ensures |d| == st.DataBytes()
  {
    ExtractBlocks(st.codec, LoadBuffer(img, st), st.blocks)
  }

  /** The buffer with the data embedded. */
  ghost function SavedBuffer(img: Image, st: Setup, data: Bytes): (buf: Bytes)
    requires st.Fits(img) && |data| == st.DataBytes()
    ensures |buf| == img.RawCapacity()
  {
    EmbedBlocks(st.codec, LoadBuffer(img, st), data, st.blocks)
  }

  /** The carrier after saving the data into it. */
  ghost function SaveImage(img: Image, st: Setup, data: Bytes): (r: Image)
    requires st.Fits(img) && |data| == st.DataBytes()
    ensures |r.samples| == |img.samples|
  {
    WriteBits(img, Unpack(SavedBuffer(img, st, data), st.perm))
  }

  lemma BitsPastPermutationClear(img: Image, st: Setup, data: Bytes, x: nat)
    requires st.Fits(img) && |data| == st.DataBytes()
    requires st.perm.Size() <= x < 8 * img.RawCapacity()
    ensures !BufferBit(SavedBuffer(img, st, data), x)
  {
    hide BufferBit, Pack, ReadBits, EmbedBlocks, Codec.CodeSize, Codec.DataSize, Codec.Valid, Perm.Size, Bijective;
    var buf := LoadBuffer(img, st);
    var n := Span(st.blocks, st.codec.CodeSize());
    PackBit(ReadBits(img, st.perm.Size()), st.perm, img.RawCapacity(), x);
    EmbedKeepsTail(st.codec, buf, data, st.blocks);
    SameTailByte(SavedBuffer(img, st, data), buf, n, x / 8);
    SameByteSameBit(SavedBuffer(img, st, data), buf, x);
  }

  lemma SameTailByte(a: Bytes, b: Bytes, n: nat, q: nat)
    requires |a| == |b| && n <= q < |a| && a[n..] == b[n..]
    ensures a[q] == b[q]
  {
    assert a[q] == a[n..][q - n] && b[q] == b[n..][q - n];
  }

  lemma SameByteSameBit(a: Bytes, b: Bytes, x: nat)
    requires |a| == |b| && x < 8 * |a| && a[x / 8] == b[x / 8]
    ensures BufferBit(a, x) == BufferBit(b, x)
  {}

  /** Loading a saved carrier rebuilds the embedded buffer, bit for bit. */
  lemma ReloadedBuffer(img: Image, st: Setup, data: Bytes)
    requires st.Fits(img) && |data| == st.DataBytes()
    ensures var r := SaveImage(img, st, data);
            st.Fits(r) && LoadBuffer(r, st) == SavedBuffer(img, st, data)
  {
    var e := SavedBuffer(img, st, data);
    var bits := Unpack(e, st.perm);
    hide Unpack, Pack, SavedBuffer;
    ChannelIsStable(img, bits);
    ReadAfterWriteBits(img, bits);
    forall x: nat | st.perm.Size() <= x < 8 * |e| ensures !BufferBit(e, x) {
      BitsPastPermutationClear(img, st, data, x);
    }
    PackUnpack(e, st.perm);
  }

  /** Single-carrier round trip: what is saved is what is loaded. */
  lemma LoadAfterSave(img: Image, st: Setup, data: Bytes)
    requires st.Fits(img) && |data| == st.DataBytes()
    ensures var r := SaveImage(img, st, data); st.Fits(r) && LoadData(r, st) == data
  {
    ReloadedBuffer(img, st, data);
    ExtractEmbeddedBlocks(st.codec, LoadBuffer(img, st), data, st.blocks, st.blocks);
  }

  /** Saving the same data once more leaves the carrier as it is. */
  lemma SaveAgain(img: Image, st: Setup, data: Bytes)
    requires st.Fits(img) && |data| == st.DataBytes()
    ensures var r := SaveImage(img, st, data); st.Fits(r) && SaveImage(r, st, data) == r
  {
    var r := SaveImage(img, st, data);
    ReloadedBuffer(img, st, data);
    EmbedBlocksAgain(st.codec, LoadBuffer(img, st), data, st.blocks, st.blocks);
    var bits := Unpack(SavedBuffer(img, st, data), st.perm);
    ReadAfterWriteBits(img, bits);
    WriteBackIsIdentity(r, bits);
  }

  // ---------------------------------------------------------------- distortion

  /** The samples saving changes. */
  ghost function Changed(a: Image, b: Image): set<nat>
    requires |a.samples| == |b.samples|
  {
    set i: nat | i < |a.samples| && a.samples[i] != b.samples[i]
  }

  /** Codeword c of block b is codeword g of the buffer, counted over all blocks. */
  lemma GlobalCodeword(s: Shape, buf: Bytes, b: nat, c: nat, g: nat)
    requires s.Sized() && c < s.codewords && g == Span(b, s.codewords) + c
    requires Span(b + 1, s.blockBytes) <= |buf| && Span(g + 1, s.codewordBytes) <= |buf|
    ensures Codeword(s, Slot(buf, b, s.blockBytes), c) == Slot(buf, g, s.codewordBytes)
  {
    hide Codeword, Slot;
    var n, w := s.codewords, s.codewordBytes;
    SlotFits(c, w, n);
    SpanOfSpans(b, n, w);
    SpanAdds(Span(b, n), c, w);
    CodewordIsSlice(s, Slot(buf, b, Span(n, w)), c);
    SlotOfSlot(buf, b, Span(n, w), c, w, g);
  }

  lemma GlobalBounds(b: nat, c: nat, n: nat, w: nat, blocks: nat, g: nat)
    requires n > 0 && g < Span(blocks, n) && b == g / n && c == g % n
    ensures b < blocks && c < n && g == Span(b, n) + c
    ensures Span(g + 1, w) <= Span(blocks, Span(n, w)) && Span(b + 1, Span(n, w)) <= Span(blocks, Span(n, w))
  {
    SlotOf(g, n, blocks);
    SpanOfSpans(blocks, n, w);
    SlotFits(g, w, Span(blocks, n));
    SlotFits(b, Span(n, w), blocks);
  }

  lemma SlotOfSlot(buf: Bytes, b: nat, size: nat, c: nat, w: nat, g: nat)
    requires Span(b + 1, size) <= |buf| && Span(c, w) + w <= size
    requires Span(g + 1, w) <= |buf| && Span(b, size) + Span(c, w) == Span(g, w)
    ensures Slot(buf, b, size)[Span(c, w)..Span(c, w) + w] == Slot(buf, g, w)
  {
    SlotFits(b, size, b + 1);
    SlotFits(g, w, g + 1);
    SliceOfSlice(buf, Span(b, size), size, Span(c, w), w);
  }

  /** The codeword buffer bit x lies in, and its place there. */
  function CodewordOf(x: nat, w: nat): nat
    requires w > 0
  {
    x / 8 / w
  }

  function PlaceIn(x: nat, w: nat): (p: nat)
    requires w > 0
    ensures 1 <= p <= 8 * w
  {
    8 * ((x / 8) % w) + 8 - x % 8
  }

  lemma BitOfCodeword(buf: Bytes, x: nat, w: nat)
    requires w > 0 && x < 8 * |buf| && Span(CodewordOf(x, w) + 1, w) <= |buf|
    ensures CodeBit(Slot(buf, CodewordOf(x, w), w), PlaceIn(x, w)) == BufferBit(buf, x)
  {
    var q := x / 8;
    var g, r := q / w, q % w;
    PositionSplits(q, w);
    var p := 8 * r + 8 - x % 8;
    assert (p - 1) / 8 == r && 7 - (p - 1) % 8 == x % 8;
    assert Slot(buf, g, w)[r] == buf[q];
  }

  lemma SamePlace(x: nat, y: nat, w: nat)
    requires w > 0 && CodewordOf(x, w) == CodewordOf(y, w) && PlaceIn(x, w) == PlaceIn(y, w)
    ensures x == y
  {
    var a, b := x / 8, y / 8;
    assert a % w == b % w && x % 8 == y % 8;
    PositionSplits(a, w);
    PositionSplits(b, w);
  }

  /** Embedding changes at most one bit of each codeword, and none past the blocks used. */
  lemma OneChangePerCodeword(s: Shape, buf: Bytes, data: Bytes, blocks: nat, x: nat, y: nat)
    requires s.Valid() && Span(blocks, s.blockBytes) <= |buf| && Span(blocks, s.dataBytes) <= |data|
    requires x < 8 * |buf| && y < 8 * |buf|
    requires var e := EmbedBlocks(Hamming(s), buf, data, blocks);
             BufferBit(e, x) != BufferBit(buf, x) && BufferBit(e, y) != BufferBit(buf, y)
    ensures CodewordOf(x, s.codewordBytes) < Span(blocks, s.codewords)
    ensures CodewordOf(x, s.codewordBytes) == CodewordOf(y, s.codewordBytes) ==> x == y
  {
    hide BufferBit, CodeBit, EmbedBlocks, Slot, Pow2, CodewordOf, PlaceIn, Span;
    var w := s.codewordBytes;
    ChangeLiesInBlocks(s, buf, data, blocks, x);
    if CodewordOf(x, w) == CodewordOf(y, w) {
      var e := EmbedBlocks(Hamming(s), buf, data, blocks);
      var g := CodewordOf(x, w);
      GlobalBounds(g / s.codewords, g % s.codewords, s.codewords, w, blocks, g);
      BitOfCodeword(buf, x, w);
      BitOfCodeword(e, x, w);
      BitOfCodeword(buf, y, w);
      BitOfCodeword(e, y, w);
      OneChangeInCodeword(s, buf, data, blocks, g, PlaceIn(x, w), PlaceIn(y, w));
      SamePlace(x, y, w);
    }
  }

  lemma OneChangeInCodeword(s: Shape, buf: Bytes, data: Bytes, blocks: nat, g: nat, p: nat, q: nat)
    requires s.Valid() && Span(blocks, s.blockBytes) <= |buf| && Span(blocks, s.dataBytes) <= |data|
    requires g < Span(blocks, s.codewords) && Span(g + 1, s.codewordBytes) <= |buf|
    requires 1 <= p <= 8 * s.codewordBytes && 1 <= q <= 8 * s.codewordBytes
    ensures var before := Slot(buf, g, s.codewordBytes);
            var after := Slot(EmbedBlocks(Hamming(s), buf, data, blocks), g, s.codewordBytes);
            CodeBit(before, p) != CodeBit(after, p) && CodeBit(before, q) != CodeBit(after, q) ==> p == q
  {
    hide CodeBit, EmbedBlocks, Slot, Pow2, Span;
    var b, c := g / s.codewords, g % s.codewords;
    GlobalBounds(b, c, s.codewords, s.codewordBytes, blocks, g);
    OneChangeInBlock(s, buf, data, blocks, b, c, g, p, q);
  }

  lemma OneChangeInBlock(s: Shape, buf: Bytes, data: Bytes, blocks: nat, b: nat, c: nat, g: nat, p: nat, q: nat)
    requires s.Valid() && Span(blocks, s.blockBytes) <= |buf| && Span(blocks, s.dataBytes) <= |data|
    requires b < blocks && c < s.codewords && g == Span(b, s.codewords) + c
    requires Span(g + 1, s.codewordBytes) <= |buf| && Span(b + 1, s.blockBytes) <= |buf|
    requires 1 <= p <= 8 * s.codewordBytes && 1 <= q <= 8 * s.codewordBytes
    ensures var before := Slot(buf, g, s.codewordBytes);
            var after := Slot(EmbedBlocks(Hamming(s), buf, data, blocks), g, s.codewordBytes);
            CodeBit(before, p) != CodeBit(after, p) && CodeBit(before, q) != CodeBit(after, q) ==> p == q
  {
    hide CodeBit, EmbedBlocks, Slot, Pow2, EmbedBlock, Codeword, Syndrome, Span;
    var e := EmbedBlocks(Hamming(s), buf, data, blocks);
    GlobalCodeword(s, buf, b, c, g);
    GlobalCodeword(s, e, b, c, g);
    SlotFits(b, s.dataBytes, blocks);
    EmbeddedSlot(Hamming(s), buf, data, blocks, b);
    EmbedChangesOneBitPerCodeword(s, Slot(buf, b, s.blockBytes), Slot(data, b, s.dataBytes), c, p, q);
  }

  lemma ChangeLiesInBlocks(s: Shape, buf: Bytes, data: Bytes, blocks: nat, x: nat)
    requires s.Valid() && Span(blocks, s.blockBytes) <= |buf| && Span(blocks, s.dataBytes) <= |data|
    requires x < 8 * |buf|
    requires BufferBit(EmbedBlocks(Hamming(s), buf, data, blocks), x) != BufferBit(buf, x)
    ensures CodewordOf(x, s.codewordBytes) < Span(blocks, s.codewords)
  {
    hide BufferBit, EmbedBlocks, Pow2;
    var e := EmbedBlocks(Hamming(s), buf, data, blocks);
    EmbedKeepsTail(Hamming(s), buf, data, blocks);
    var n, q := Span(blocks, s.blockBytes), x / 8;
    if q >= n {
      SameTailByte(e, buf, n, q);
      SameByteSameBit(e, buf, x);
    }
    SpanOfSpans(blocks, s.codewords, s.codewordBytes);
    SlotOf(q, s.codewordBytes, Span(blocks, s.codewords));
  }

  /** The channel position of a sample. */
  ghost function PositionOf(img: Image, i: nat): (k: nat)
    requires i < |img.samples| && img.Usable(i)
    ensures k < |img.Channel()| && img.Channel()[k] == i
  {
    UsablesComplete(img, |img.samples|, i);
    var k: nat :| k < |img.Channel()| && img.Channel()[k] == i;
    k
  }

  /** A changed sample carries a changed buffer bit. */
  lemma ChangedSample(img: Image, st: Setup, data: Bytes, i: nat)
    requires st.Fits(img) && |data| == st.DataBytes()
    requires i in Changed(img, SaveImage(img, st, data))
    ensures img.Usable(i)
    ensures SaveImage(img, st, data).samples[i] == SetLowBit(img.samples[i], !(img.samples[i] % 2 == 1))
    ensures var k := PositionOf(img, i);
            && k < st.perm.Size()
            && BufferBit(SavedBuffer(img, st, data), st.perm.Apply(k)) != BufferBit(LoadBuffer(img, st),
                st.perm.Apply(k))
  {
    var e := SavedBuffer(img, st, data);
    var bits := Unpack(e, st.perm);
    hide BufferBit, Perm.Apply, Pack, SavedBuffer;
    WrittenSample(img, bits, i);
    UsablesAreIncreasing(img, |img.samples|);
    var k := PositionOf(img, i);
    if k < st.perm.Size() {
      UnpackPack(ReadBits(img, st.perm.Size()), st.perm, img.RawCapacity());
      assert bits[k] == BufferBit(e, st.perm.Apply(k));
      assert Unpack(LoadBuffer(img, st), st.perm)[k] == BufferBit(LoadBuffer(img, st), st.perm.Apply(k));
    }
  }

  /** Saving with the Hamming encoder changes at most one sample per codeword used, each in its
      lowest bit only: the local permutation preserves the number of changes. */
  lemma DistortionBound(img: Image, st: Setup, data: Bytes)
    requires st.Fits(img) && st.codec.Hamming? && |data| == st.DataBytes()
    ensures var r := SaveImage(img, st, data);
            && |Changed(img, r)| <= Span(st.blocks, st.codec.shape.codewords)
            && forall i | i in Changed(img, r) :: img.Usable(i) &&
                 r.samples[i] == SetLowBit(img.samples[i], !(img.samples[i] % 2 == 1))
  {
    hide SaveImage, SetLowBit, Setup.Fits, Image.Usable, PositionCodeword;
    var r := SaveImage(img, st, data);
    var changed := Changed(img, r);
    forall i | i in changed
      ensures img.Usable(i) && r.samples[i] == SetLowBit(img.samples[i], !(img.samples[i] % 2 == 1))
    {
      ChangedSample(img, st, data, i);
    }
    var f := (i: nat) requires i in changed => PositionCodeword(img, st, data, i);
    forall i, j | i in changed && j in changed
      ensures f(i) < Span(st.blocks, st.codec.shape.codewords) && (f(i) == f(j) ==> i == j)
    {
      ChangedInSameCodeword(img, st, data, i, j);
    }
    InjectionBound(changed, f, Span(st.blocks, st.codec.shape.codewords));
  }

  /** The buffer bit a changed sample holds. */
  ghost function ChangedBit(img: Image, st: Setup, data: Bytes, i: nat): nat
    requires st.Fits(img) && |data| == st.DataBytes()
    requires i in Changed(img, SaveImage(img, st, data))
  {
    ChangedSample(img, st, data, i);
    hide BufferBit, SavedBuffer, LoadBuffer, SaveImage, Image.Usable, Image.Channel;
    st.perm.Apply(PositionOf(img, i))
  }

  lemma CodewordBytesPositive(s: Shape)
    requires s.Valid()
    ensures s.codewordBytes > 0
  {}

  /** The codeword a changed sample was changed for. */
  ghost function PositionCodeword(img: Image, st: Setup, data: Bytes, i: nat): nat
    requires st.Fits(img) && st.codec.Hamming? && |data| == st.DataBytes()
    requires i in Changed(img, SaveImage(img, st, data))
  {
    hide ChangedBit, SaveImage, CodewordOf;
    CodewordBytesPositive(st.codec.shape);
    CodewordOf(ChangedBit(img, st, data, i), st.codec.shape.codewordBytes)
  }

  lemma ChangedInSameCodeword(img: Image, st: Setup, data: Bytes, i: nat, j: nat)
    requires st.Fits(img) && st.codec.Hamming? && |data| == st.DataBytes()
    requires i in Changed(img, SaveImage(img, st, data)) && j in Changed(img, SaveImage(img, st, data))
    ensures PositionCodeword(img, st, data, i) < Span(st.blocks, st.codec.shape.codewords)
    ensures PositionCodeword(img, st, data, i) == PositionCodeword(img, st, data, j) ==> i == j
  {
    ChangedSample(img, st, data, i);
    ChangedSample(img, st, data, j);
    var x, y := st.perm.Apply(PositionOf(img, i)), st.perm.Apply(PositionOf(img, j));
    OneChangePerCodeword(st.codec.shape, LoadBuffer(img, st), data, st.blocks, x, y);
  }

  lemma {:induction false} InjectionBound(s: set<nat>, f: nat --> nat, n: nat)
    requires forall x | x in s :: f.requires(x) && f(x) < n
    requires forall x, y | x in s && y in s && f(x) == f(y) :: x == y
    ensures |s| <= n
  {
    var image := set x | x in s :: f(x);
    ImageCount(s, f);
    NumberTheory.BoundedSetCount(image, n);
  }

  lemma {:induction false} ImageCount(s: set<nat>, f: nat --> nat)
    requires forall x | x in s :: f.requires(x)
    requires forall x, y | x in s && y in s && f(x) == f(y) :: x == y
    ensures |set x | x in s :: f(x)| == |s|
  {
    if s != {} {
      var x :| x in s;
      var rest := s - {x};
      ImageCount(rest, f);
      assert (set y | y in s :: f(y)) == (set y | y in rest :: f(y)) + {f(x)};
    }
  }
}
