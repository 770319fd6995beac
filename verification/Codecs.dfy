/** The block codes of src/encoders behind the `Encoder` interface, and the block loop of a
    carrier over a whole buffer. */
module Codecs {
  import opened Bits
  import opened Spans
  import opened HammingCode

  /** A configured encoder: matrix embedding, or plain copying in blocks. */
  datatype Codec = Hamming(shape: Shape) | Lsb(blockSize: nat) {

    ghost predicate Valid() {
      match this
      case Hamming(s) => s.Valid()
      case Lsb(n) => n > 0
    }

    function DataSize(): nat {
      match this
      case Hamming(s) => s.dataBytes
      case Lsb(n) => n
    }

    function CodeSize(): nat {
      match this
      case Hamming(s) => s.blockBytes
      case Lsb(n) => n
    }

    function Embed(cover: Bytes, data: Bytes): (r: Bytes)
      requires Valid() && |cover| == CodeSize() && |data| == DataSize()
      ensures |r| == CodeSize()
    {
      match this
      case Hamming(s) => EmbedBlock(s, cover, data)
      case Lsb(_) => data
    }

    function Extract(block: Bytes): (d: Bytes)
      requires Valid() && |block| == CodeSize()
      ensures |d| == DataSize()
    {
      match this
      case Hamming(s) => ExtractBlock(s, block)
      case Lsb(_) => block
    }

    lemma Sizes()
      requires Valid()
      ensures DataSize() > 0 && CodeSize() > 0
    {
      match this
      case Hamming(s) => MulAtLeast(s.codewords, s.codewordBytes);
      case Lsb(_) =>
    }

    /** The law of every encoder. */
    lemma RoundTrip(cover: Bytes, data: Bytes)
      requires Valid() && |cover| == CodeSize() && |data| == DataSize()
      ensures Extract(Embed(cover, data)) == data
      ensures Embed(Embed(cover, data), data) == Embed(cover, data)
    {
      match this
      case Hamming(s) =>
        ExtractAfterEmbed(s, cover, data);
        EmbedIdempotent(s, cover, data);
      case Lsb(_) =>
    }
  }

  /** Slice b of width w. */
  function Slot(buf: Bytes, b: nat, w: nat): (s: Bytes)
    requires Span(b + 1, w) <= |buf|
    ensures |s| == w
  {
    SlotFits(b, w, b + 1);
    buf[Span(b, w)..Span(b, w) + w]
  }

  /** The first n blocks of data embedded in the first n codeword blocks of a buffer. */
  function EmbedBlocks(c: Codec, buf: Bytes, data: Bytes, n: nat): (r: Bytes)
    requires c.Valid() && Span(n, c.CodeSize()) <= |buf| && Span(n, c.DataSize()) <= |data|
    ensures |r| == |buf|
  {
    if n == 0 then buf
    else
      SlotFits(n - 1, c.CodeSize(), n);
      SlotFits(n - 1, c.DataSize(), n);
      var prev := EmbedBlocks(c, buf, data, n - 1);
      Splice(prev, Span(n - 1, c.CodeSize()),
             c.Embed(Slot(prev, n - 1, c.CodeSize()), Slot(data, n - 1, c.DataSize())))
  }

  function ExtractBlocks(c: Codec, buf: Bytes, n: nat): (d: Bytes)
    requires c.Valid() && Span(n, c.CodeSize()) <= |buf|
    ensures |d| == Span(n, c.DataSize())
  {
    if n == 0 then []
    else
      SlotFits(n - 1, c.CodeSize(), n);
      SlotFits(n - 1, c.DataSize(), n);
      ExtractBlocks(c, buf, n - 1) + c.Extract(Slot(buf, n - 1, c.CodeSize()))
  }

  lemma SpliceSlot(buf: Bytes, n: nat, w: nat, block: Bytes, b: nat)
    requires |block| == w && Span(n + 1, w) <= |buf| && Span(b + 1, w) <= |buf|
    ensures Span(n, w) + w <= |buf|
    ensures Slot(Splice(buf, Span(n, w), block), b, w) == if b == n then block else Slot(buf, b, w)
  {
    hide Splice;
    SlotFits(n, w, n + 1);
    SlotFits(b, w, b + 1);
    SlotFits(b, w, n);
    SlotFits(n, w, b);
    SpliceSlices(buf, Span(n, w), block, Span(b, w), w);
  }

  /** Block by block, and nothing past the last block. */
  lemma {:induction false} EmbeddedSlot(c: Codec, buf: Bytes, data: Bytes, n: nat, b: nat)
    requires c.Valid() && Span(n, c.CodeSize()) <= |buf| && Span(n, c.DataSize()) <= |data|
    requires Span(b + 1, c.CodeSize()) <= |buf| && (b < n ==> Span(b + 1, c.DataSize()) <= |data|)
    ensures Slot(EmbedBlocks(c, buf, data, n), b, c.CodeSize())
         == if b < n then c.Embed(Slot(buf, b, c.CodeSize()), Slot(data, b, c.DataSize()))
            else Slot(buf, b, c.CodeSize())
    decreases n
  {
    hide Codec.Embed, Codec.CodeSize, Codec.DataSize, Slot, Splice;
    if n > 0 {
      SlotFits(n - 1, c.CodeSize(), n);
      SlotFits(n - 1, c.DataSize(), n);
      EmbeddedSlot(c, buf, data, n - 1, b);
      EmbeddedSlot(c, buf, data, n - 1, n - 1);
      var prev := EmbedBlocks(c, buf, data, n - 1);
      SpliceSlot(prev, n - 1, c.CodeSize(),
                 c.Embed(Slot(prev, n - 1, c.CodeSize()), Slot(data, n - 1, c.DataSize())), b);
    }
  }

  lemma {:induction false} EmbedKeepsTail(c: Codec, buf: Bytes, data: Bytes, n: nat)
    requires c.Valid() && Span(n, c.CodeSize()) <= |buf| && Span(n, c.DataSize()) <= |data|
    ensures EmbedBlocks(c, buf, data, n)[Span(n, c.CodeSize())..] == buf[Span(n, c.CodeSize())..]
    decreases n
  {
    hide Codec.Embed, Codec.CodeSize, Codec.DataSize, Codec.Valid, Slot, Splice;
    if n > 0 {
      EmbedKeepsTail(c, buf, data, n - 1);
      var prev := EmbedBlocks(c, buf, data, n - 1);
      TailAfterSplice(prev, buf, Span(n - 1, c.CodeSize()),
                      c.Embed(Slot(prev, n - 1, c.CodeSize()), Slot(data, n - 1, c.DataSize())));
    }
  }

  lemma TailAfterSplice(prev: Bytes, buf: Bytes, from: nat, block: Bytes)
    requires |prev| == |buf| && from + |block| <= |buf| && prev[from..] == buf[from..]
    ensures Splice(prev, from, block)[from + |block|..] == buf[from + |block|..]
  {
    var at := from + |block|;
    assert prev[at..] == prev[from..][|block|..] && buf[at..] == buf[from..][|block|..];
  }

  /** Extracting every block gives the data back. */
  lemma {:induction false} ExtractEmbeddedBlocks(c: Codec, buf: Bytes, data: Bytes, n: nat, m: nat)
    requires c.Valid() && n <= m && Span(m, c.CodeSize()) <= |buf| && Span(m, c.DataSize()) <= |data|
    requires Span(n, c.CodeSize()) <= |buf| && Span(n, c.DataSize()) <= |data|
    ensures ExtractBlocks(c, EmbedBlocks(c, buf, data, m), n) == data[..Span(n, c.DataSize())]
    decreases n
  {
    hide Codec.Embed, Codec.Extract, Codec.CodeSize, Codec.DataSize, Codec.Valid, Slot, EmbedBlocks;
    if n > 0 {
      var b := n - 1;
      ExtractEmbeddedBlocks(c, buf, data, b, m);
      SlotFits(b, c.CodeSize(), m);
      SlotFits(b, c.DataSize(), m);
      EmbeddedSlot(c, buf, data, m, b);
      c.RoundTrip(Slot(buf, b, c.CodeSize()), Slot(data, b, c.DataSize()));
      ExtractOneMore(c, EmbedBlocks(c, buf, data, m), b);
      TakeOneMore(data, b, c.DataSize());
    }
  }

  lemma ExtractOneMore(c: Codec, buf: Bytes, b: nat)
    requires c.Valid() && Span(b + 1, c.CodeSize()) <= |buf| && Span(b, c.CodeSize()) <= |buf|
    ensures ExtractBlocks(c, buf, b + 1) == ExtractBlocks(c, buf, b) + c.Extract(Slot(buf, b, c.CodeSize()))
  {}

  lemma TakeOneMore(data: Bytes, b: nat, w: nat)
    requires Span(b + 1, w) <= |data|
    ensures Span(b, w) <= |data| && data[..Span(b + 1, w)] == data[..Span(b, w)] + Slot(data, b, w)
  {
    SlotFits(b, w, b + 1);
  }

  /** Embedding once more changes nothing. */
  lemma {:induction false} EmbedBlocksAgain(c: Codec, buf: Bytes, data: Bytes, n: nat, m: nat)
    requires c.Valid() && n <= m && Span(m, c.CodeSize()) <= |buf| && Span(m, c.DataSize()) <= |data|
    requires Span(n, c.CodeSize()) <= |buf| && Span(n, c.DataSize()) <= |data|
    ensures var e := EmbedBlocks(c, buf, data, m); EmbedBlocks(c, e, data, n) == e
    decreases n
  {
    hide Codec.Embed, Codec.CodeSize, Codec.DataSize, Codec.Valid, Slot, Splice;
    var e := EmbedBlocks(c, buf, data, m);
    if n > 0 {
      var b := n - 1;
      EmbedBlocksAgain(c, buf, data, b, m);
      SlotFits(b, c.CodeSize(), m);
      SlotFits(b, c.DataSize(), m);
      EmbeddedSlot(c, buf, data, m, b);
      c.RoundTrip(Slot(buf, b, c.CodeSize()), Slot(data, b, c.DataSize()));
      SlotFits(b, c.CodeSize(), n);
      FixedSlotStays(c, e, data, b);
    }
  }

  lemma FixedSlotStays(c: Codec, e: Bytes, data: Bytes, b: nat)
    requires c.Valid() && Span(b + 1, c.CodeSize()) <= |e| && Span(b + 1, c.DataSize()) <= |data|
    requires Span(b, c.CodeSize()) <= |e| && Span(b, c.DataSize()) <= |data|
    requires EmbedBlocks(c, e, data, b) == e
    requires c.Embed(Slot(e, b, c.CodeSize()), Slot(data, b, c.DataSize())) == Slot(e, b, c.CodeSize())
    ensures EmbedBlocks(c, e, data, b + 1) == e
  {
    hide Codec.Embed, Codec.CodeSize, Codec.DataSize, Codec.Valid;
    SlotFits(b, c.CodeSize(), b + 1);
    SpliceSlices(e, Span(b, c.CodeSize()), Slot(e, b, c.CodeSize()), 0, 0);
  }
}
