/** src/carrier_files: the carrier object with its permuted buffer, and the loops of the bitmap and
    JPEG formats that load it and save it. */
module CarrierFile {
  import opened Bits
  import opened Spans
  import opened NumberTheory
  import opened StegoMath
  import opened Outcomes
  import opened HammingCode
  import opened Codecs
  import opened Permutations
  import opened PermutationObjects
  import opened Carriers
  import opened Embedding
  import opened Layout
  import opened Encoders
  import opened VirtualStorage
  import opened BufferFilling

  /** A file on disk. */
  class ImageFile {
    var content: Image

    constructor (img: Image)
      ensures content == img
    {
      content := img;
    }
  }

  /** Where block (row, col) of a plane of the given width begins: 64 coefficients a block. */
  function BlockAt(row: nat, width: nat, col: nat): nat {
    (row * width + col) * 64
  }

  lemma BlockBounds(img: Image, row: nat, col: nat)
    requires img.Jpeg? && img.Valid()
    ensures var at := BlockAt(row, img.width, col);
            && BlockAt(0, img.width, 0) == 0 && BlockAt(img.height, img.width, 0) == |img.samples|
            && at % 64 == 0
            && BlockAt(row, img.width, col + 1) == at + 64
            && BlockAt(row, img.width, img.width) == BlockAt(row + 1, img.width, 0)
            && (row < img.height && col < img.width ==> at + 64 <= |img.samples|)
  {
    MulMonotone(row + 1, img.height, img.width);
    assert (row + 1) * img.width == row * img.width + img.width;
  }

  /** `ComputeCapacity`: the nested loops over rows, blocks and coefficients. */
  method CountUsable(img: Image) returns (count: nat)
    requires img.Jpeg? && img.Valid()
    ensures count == |img.Channel()|
  {
    hide BitAnd, BlockAt, Image.Usables, Image.Valid;
    var w := img.width;
    count := 0;
    BlockBounds(img, 0, 0);
    NoUsables(img);
    for row := 0 to img.height
      invariant BlockAt(row, w, 0) <= |img.samples| && count == |img.Usables(BlockAt(row, w, 0))|
    {
      for col := 0 to w
        invariant BlockAt(row, w, col) <= |img.samples| && count == |img.Usables(BlockAt(row, w, col))|
      {
        BlockBounds(img, row, col);
        count := CountInBlock(img, BlockAt(row, w, col), count);
      }
      BlockBounds(img, row, 0);
    }
  }

  /** The coefficients 1..63 of one block; the DC coefficient is skipped. */
  method CountInBlock(img: Image, at: nat, before: nat) returns (count: nat)
    requires img.Jpeg? && at % 64 == 0 && at + 64 <= |img.samples| && before == |img.Usables(at)|
    ensures count == |img.Usables(at + 64)|
  {
    hide BitAnd, Image.Usables;
    count := before;
    ScanStep(img, at);
    for k := 1 to 64
      invariant count == |img.Usables(at + k)|
    {
      ScanStep(img, at + k);
      if BitAnd(img.samples[at + k], 0xFFFE) != 0 { count := count + 1; }
    }
  }

  lemma NoUsables(img: Image)
    ensures img.Usables(0) == []
  {}

  /** How far a scan for the first `limit` usable samples has come: at sample `at` it has seen
      `counter` of them, and it goes on until it has seen them all. */
  ghost predicate Scanning(img: Image, at: nat, counter: nat, limit: nat, goOn: bool) {
    && at <= |img.samples| && limit <= |img.Channel()|
    && (if goOn then counter == |img.Usables(at)| && counter < limit else counter == limit)
  }

  lemma ScanComplete(img: Image, counter: nat, limit: nat, goOn: bool)
    requires Scanning(img, |img.samples|, counter, limit, goOn)
    ensures counter == limit
  {}

  /** Bytes on their way into the storage: its permutation, its contents before, where they go. */
  datatype Transfer = Transfer(perm: Perm, before: Bytes, offset: nat, bytes: Bytes) {
    ghost predicate Fits() { perm.Valid() && Bijective(perm) && |before| == perm.Size() }
  }

  /** The first n of the bytes have been stored. */
  ghost predicate Stored(storage: VirtualStorage, t: Transfer, n: nat)
    reads storage, storage.data, storage.permutation.Target()
  {
    && storage.Applied() && storage.Global() == t.perm && t.Fits()
    && n <= |t.bytes| && storage.data[..] == StoreBytes(t.before, t.perm, t.offset, t.bytes, n)
  }

  /** Stores one data block; a byte past the storage is dropped. */
  method StoreBlock(storage: VirtualStorage, position: nat, block: array<byte>, ghost t: Transfer, ghost n: nat)
    requires Stored(storage, t, n) && position == t.offset + n && block != storage.data
    requires n + block.Length <= |t.bytes| && t.bytes[n..n + block.Length] == block[..]
    modifies storage.data
    ensures Stored(storage, t, n + block.Length)
  {
    hide Stored;
    for i := 0 to block.Length
      invariant Stored(storage, t, n + i)
    {
      assert t.bytes[n + i] == t.bytes[n..n + block.Length][i];
      StoreByte(storage, position + i, block[i], t, n + i);
    }
  }

  method StoreByte(storage: VirtualStorage, position: nat, v: byte, ghost t: Transfer, ghost n: nat)
    requires Stored(storage, t, n) && position == t.offset + n && n < |t.bytes| && t.bytes[n] == v
    modifies storage.data
    ensures Stored(storage, t, n + 1)
  {
    hide VirtualStorage.Valid, Perm.Valid, Bijective, Perm.Size, Perm.Apply, StoreAt;
    assert storage.permutation.Target() != (storage.data as object);
    var status := storage.WriteByte(position, v);
  }

  /** What the extracting loop keeps: the first n bytes extracted from the buffer are stored. */
  ghost predicate Extracting(e: EncoderPtr, buffer: array<byte>, block: array<byte>, storage: VirtualStorage,
                             codec: Codec, blocks: nat, t: Transfer, n: nat)
    reads e.Target(), buffer, storage, storage.data, storage.permutation.Target()
  {
    && e.Valid() && e.Codec() == codec && codec.Valid() && block.Length == codec.DataSize()
    && block != buffer && block != storage.data && buffer != storage.data
    && Span(blocks, codec.CodeSize()) <= buffer.Length && t.bytes == ExtractBlocks(codec, buffer[..], blocks)
    && Stored(storage, t, n)
  }

  lemma ExtractingStarts(e: EncoderPtr, buffer: array<byte>, block: array<byte>, storage: VirtualStorage,
                         blocks: nat, t: Transfer)
    requires e.Valid() && e.Codec().Valid() && block.Length == e.Codec().DataSize()
    requires block != buffer && block != storage.data && buffer != storage.data
    requires Span(blocks, e.Codec().CodeSize()) <= buffer.Length
    requires storage.Applied() && t.before == storage.data[..] && t.perm == storage.Global()
    requires t.bytes == ExtractBlocks(e.Codec(), buffer[..], blocks)
    ensures Extracting(e, buffer, block, storage, e.Codec(), blocks, t, 0)
  {
    hide ExtractBlocks, EncoderPtr.Valid, EncoderPtr.Codec, Bijective, Perm.Valid, Perm.Size;
  }

  lemma Extracted(e: EncoderPtr, buffer: array<byte>, block: array<byte>, storage: VirtualStorage,
                  codec: Codec, blocks: nat, t: Transfer)
    requires Extracting(e, buffer, block, storage, codec, blocks, t, Span(blocks, block.Length))
    ensures storage.Applied() && t.Fits() && Span(blocks, block.Length) == |t.bytes|
    ensures e.Valid() && e.Codec() == codec
    ensures storage.Global() == t.perm
    ensures storage.data[..] == StoreBytes(t.before, t.perm, t.offset, t.bytes, |t.bytes|)
  {
    hide ExtractBlocks;
  }

  /** One round of the extracting loop. */
  method ExtractBlockAt(e: EncoderPtr, buffer: array<byte>, block: array<byte>, storage: VirtualStorage, offset: nat,
      b: nat,
                        ghost codec: Codec, ghost blocks: nat, ghost t: Transfer)
    requires Extracting(e, buffer, block, storage, codec, blocks, t, Span(b, block.Length)) && b < blocks &&
        offset == t.offset
    modifies block, storage.data
    ensures Extracting(e, buffer, block, storage, codec, blocks, t, Span(b + 1, block.Length))
  {
    hide StoreBytes, ExtractBlocks, Bijective, Perm.Valid, Perm.Size, Codec.CodeSize, Codec.DataSize;
    hide VirtualStorage.Valid, Stored, EncoderPtr.Valid, EncoderPtr.Codec, Codec.Extract, Codec.Valid;
    var codeSize := e.GetCodewordBlockSize();
    SlotFits(b, codeSize, blocks);
    SlotFits(b, block.Length, blocks);
    SlotFits(b, block.Length, b + 1);
    ExtractedSlot(codec, buffer[..], blocks, b);
    assert allocated(e.Target()) && allocated(storage.permutation.Target());
    assert e.Target() != block as object && e.Target() != storage.data as object;
    assert storage.permutation.Target() != block as object;
    e.Extract(buffer, Span(b, codeSize), block);
    StoreBlock(storage, offset + Span(b, block.Length), block, t, Span(b, block.Length));
  }

  method ExtractAll(e: EncoderPtr, buffer: array<byte>, block: array<byte>, storage: VirtualStorage, offset: nat,
                    blocks: nat, ghost codec: Codec, ghost t: Transfer)
    requires Extracting(e, buffer, block, storage, codec, blocks, t, 0) && offset == t.offset
    modifies block, storage.data
    ensures Extracting(e, buffer, block, storage, codec, blocks, t, Span(blocks, block.Length))
  {
    hide Extracting;
    for b := 0 to blocks
      invariant Extracting(e, buffer, block, storage, codec, blocks, t, Span(b, block.Length))
    {
      ExtractBlockAt(e, buffer, block, storage, offset, b, codec, blocks, t);
    }
  }

  /** Reads one data block; a byte past the storage reads as 0. */
  method FetchBlock(storage: VirtualStorage, position: nat, block: array<byte>)
    requires storage.Applied() && block != storage.data
    modifies block
    ensures storage.Applied()
    ensures block[..] == FetchBytes(storage.data[..], storage.Global(), position, block.Length)
  {
    assert storage.permutation.Target() != block as object && allocated(storage.permutation.Target());
    hide FetchAt, Perm.Valid, Bijective, VirtualStorage.Valid;
    for i := 0 to block.Length
      invariant storage.Applied()
      invariant forall j | 0 <= j < i :: block[j] == FetchAt(storage.data[..], storage.Global(), position + j)
    {
      block[i] := FetchByte(storage, position + i);
    }
  }

  method FetchByte(storage: VirtualStorage, position: nat) returns (v: byte)
    requires storage.Applied()
    ensures v == storage.At(position)
  {
    hide Perm.Valid, Bijective, Perm.Apply;
    assert allocated(storage.permutation.Target());
    var r := storage.ReadByte(position);
    return if r.Ok? then r.value else 0;
  }

  lemma FetchedSlot(data: Bytes, p: Perm, offset: nat, n: nat, b: nat, w: nat)
    requires p.Valid() && Bijective(p) && |data| == p.Size() && b < n
    ensures Span(b + 1, w) <= Span(n, w)
    ensures Slot(FetchBytes(data, p, offset, Span(n, w)), b, w) == FetchBytes(data, p, offset + Span(b, w), w)
  {
    hide FetchAt, Perm.Valid, Bijective, Perm.Size;
    SlotFits(b, w, n);
  }

  /** The data to embed is what the storage holds from `offset` on. */
  ghost predicate Fetched(storage: VirtualStorage, data: Bytes, offset: nat)
    reads storage, storage.data, storage.permutation.Target()
  {
    storage.Applied() && data == FetchBytes(storage.data[..], storage.Global(), offset, |data|)
  }

  /** What the embedding loop keeps: the first n blocks of the data are embedded. */
  ghost predicate Embedded(e: EncoderPtr, buffer: array<byte>, codec: Codec, before: Bytes, data: Bytes, n: nat)
    reads e.Target(), buffer
  {
    && e.Valid() && e.Codec() == codec && codec.Valid() && |before| == buffer.Length
    && Span(n, codec.CodeSize()) <= |before| && Span(n, codec.DataSize()) <= |data|
    && buffer[..] == EmbedBlocks(codec, before, data, n)
  }

  /** One round of the embedding loop. */
  method EmbedBlockAt(e: EncoderPtr, buffer: array<byte>, block: array<byte>, storage: VirtualStorage, offset: nat,
                      b: nat, blocks: nat, ghost codec: Codec, ghost before: Bytes, ghost data: Bytes)
    requires Embedded(e, buffer, codec, before, data, b) && b < blocks && block.Length == codec.DataSize()
    requires Fetched(storage, data, offset) && |data| == Span(blocks, block.Length)
    requires Span(blocks, codec.CodeSize()) <= buffer.Length
    requires block != buffer && block != storage.data && buffer != storage.data
    modifies block, buffer
    ensures Fetched(storage, data, offset) && Embedded(e, buffer, codec, before, data, b + 1)
  {
    hide Embedded, Fetched, VirtualStorage.Applied, VirtualStorage.Global, FetchBytes, Slot, Span, Codec.CodeSize;
    hide Codec.DataSize;
    NextBlock(storage, data, offset, blocks, b, block.Length);
    SlotFits(b, codec.CodeSize(), blocks);
    assert e.Target() != block as object && storage.permutation.Target() != block as object;
    assert storage.permutation.Target() != buffer as object;
    assert allocated(e.Target()) && allocated(storage.permutation.Target());
    FetchBlock(storage, offset + Span(b, block.Length), block);
    EmbedFetched(e, buffer, block, b, codec, before, data);
  }

  /** The next block of the data is what the storage holds at its position. */
  lemma NextBlock(storage: VirtualStorage, data: Bytes, offset: nat, blocks: nat, b: nat, w: nat)
    requires Fetched(storage, data, offset) && b < blocks && |data| == Span(blocks, w)
    ensures storage.Applied() && Span(b + 1, w) <= |data|
    ensures Slot(data, b, w) == FetchBytes(storage.data[..], storage.Global(), offset + Span(b, w), w)
  {
    assert storage.data.Length == storage.Global().Size();
    hide Bijective, Perm.Valid, Perm.Size, FetchBytes, Slot, VirtualStorage.Valid, VirtualStorage.Global, Span;
    FetchedSlot(storage.data[..], storage.Global(), offset, blocks, b, w);
  }

  method EmbedFetched(e: EncoderPtr, buffer: array<byte>, block: array<byte>, b: nat,
                      ghost codec: Codec, ghost before: Bytes, ghost data: Bytes)
    requires Embedded(e, buffer, codec, before, data, b) && block.Length == codec.DataSize() && block != buffer
    requires Span(b + 1, codec.CodeSize()) <= buffer.Length && Span(b + 1, block.Length) <= |data|
    requires block[..] == Slot(data, b, block.Length)
    modifies buffer
    ensures Embedded(e, buffer, codec, before, data, b + 1)
  {
    hide *;
    assert allocated(e.Target());
    EncoderIsNoArray(e, buffer);
    EmbedNext(e, buffer, codec, before, data, b);
    var codeSize := e.GetCodewordBlockSize();
    e.Embed(buffer, Span(b, codeSize), block);
    NowEmbedded(e, buffer, codec, before, data, b, old(buffer[..]), old(block[..]));
  }

  lemma EncoderIsNoArray(e: EncoderPtr, a: array<byte>)
    ensures e.Target() != a as object
  {}

  lemma EmbedNext(e: EncoderPtr, buffer: array<byte>, codec: Codec, before: Bytes, data: Bytes, b: nat)
    requires Embedded(e, buffer, codec, before, data, b) && Span(b + 1, codec.CodeSize()) <= buffer.Length
    ensures e.Valid() && e.Codec() == codec && codec.Valid() && |before| == buffer.Length
    ensures Span(b, codec.CodeSize()) + codec.CodeSize() <= buffer.Length && Span(b, codec.DataSize()) <= |data|
    ensures buffer[..] == EmbedBlocks(codec, before, data, b)
  {}

  lemma NowEmbedded(e: EncoderPtr, buffer: array<byte>, codec: Codec, before: Bytes, data: Bytes, b: nat, prev: Bytes,
      block: Bytes)
    requires e.Valid() && e.Codec() == codec && codec.Valid() && |before| == |prev| == buffer.Length
    requires Span(b, codec.CodeSize()) <= |before| && Span(b, codec.DataSize()) <= |data|
    requires Span(b + 1, codec.CodeSize()) <= |before| && Span(b + 1, codec.DataSize()) <= |data|
    requires prev == EmbedBlocks(codec, before, data, b) && block == Slot(data, b, codec.DataSize())
    requires buffer[..] == Splice(prev, Span(b, codec.CodeSize()),
               codec.Embed(prev[Span(b, codec.CodeSize())..Span(b, codec.CodeSize()) + codec.CodeSize()], block))
    ensures Embedded(e, buffer, codec, before, data, b + 1)
  {
    hide EmbedBlocks, Codec.CodeSize, Codec.DataSize, Codec.Embed, Codec.Valid, Splice, Slot, Span, EncoderPtr.Valid;
    hide EncoderPtr.Codec;
    EmbedOneMore(codec, before, data, b);
    SlotIsSlice(prev, b, codec.CodeSize());
  }

  lemma EmbedOneMore(c: Codec, buf: Bytes, data: Bytes, b: nat)
    requires c.Valid() && Span(b + 1, c.CodeSize()) <= |buf| && Span(b + 1, c.DataSize()) <= |data|
    ensures Span(b, c.CodeSize()) + c.CodeSize() <= |buf| && Span(b, c.DataSize()) <= |data|
    ensures var prev := EmbedBlocks(c, buf, data, b);
            EmbedBlocks(c, buf, data, b + 1)
            == Splice(prev, Span(b, c.CodeSize()), c.Embed(Slot(prev, b, c.CodeSize()), Slot(data, b, c.DataSize())))
  {
    hide Codec.CodeSize, Codec.DataSize, Codec.Embed, Codec.Valid, Splice, Slot;
    SlotFits(b, c.CodeSize(), b + 1);
    SlotFits(b, c.DataSize(), b + 1);
  }

  lemma SlotIsSlice(buf: Bytes, b: nat, w: nat)
    requires Span(b + 1, w) <= |buf|
    ensures Span(b, w) + w <= |buf| && Slot(buf, b, w) == buf[Span(b, w)..Span(b, w) + w]
  {
    SlotFits(b, w, b + 1);
  }

  method EmbedAll(e: EncoderPtr, buffer: array<byte>, block: array<byte>, storage: VirtualStorage, offset: nat,
                  blocks: nat, ghost codec: Codec, ghost before: Bytes, ghost data: Bytes)
    requires Embedded(e, buffer, codec, before, data, 0) && block.Length == codec.DataSize()
    requires Fetched(storage, data, offset) && |data| == Span(blocks, block.Length)
    requires Span(blocks, codec.CodeSize()) <= buffer.Length
    requires block != buffer && block != storage.data && buffer != storage.data
    modifies block, buffer
    ensures Fetched(storage, data, offset) && Embedded(e, buffer, codec, before, data, blocks)
  {
    hide Embedded, Fetched, Span, Codec.CodeSize, Codec.DataSize;
    for b := 0 to blocks
      invariant Fetched(storage, data, offset) && Embedded(e, buffer, codec, before, data, b)
    {
      EmbedBlockAt(e, buffer, block, storage, offset, b, blocks, codec, before, data);
    }
  }

  lemma AllEmbedded(e: EncoderPtr, buffer: array<byte>, codec: Codec, before: Bytes, data: Bytes, blocks: nat)
    requires Embedded(e, buffer, codec, before, data, blocks)
    ensures e.Valid() && e.Codec() == codec && codec.Valid()
    ensures Span(blocks, codec.CodeSize()) <= |before| && Span(blocks, codec.DataSize()) <= |data|
    ensures buffer[..] == EmbedBlocks(codec, before, data, blocks)
  {}

  class CarrierFile {
    const file: ImageFile
    const permutation: PermutationPtr
    var encoder: Option<EncoderPtr>
    var buffer: array<byte>
    var codewordBlockSize: nat
    var dataBlockSize: nat
    var blockCount: nat
    var capacity: nat
    var rawCapacity: nat
    var blocksUsed: nat
    var storage: VirtualStorage?
    var virtualStorageOffset: nat
    var fileLoaded: bool
    var subkey: Key

    /** The fields that describe the file agree with it; a file has less than 2^32 usable samples. */
    ghost predicate Valid()
      reads this`rawCapacity, file, permutation.Target()
    {
      && permutation.Valid() && file.content.Valid()
      && rawCapacity == file.content.RawCapacity() && 8 * rawCapacity <= MAX_AFFINE_SIZE
      && permutation.Size() <= 8 * rawCapacity
    }

    /** The local permutation the carrier has, or will have once it is initialised. */
    ghost function LocalPerm(rand: nat -> nat): Result<Perm>
      reads this`rawCapacity, this`subkey, permutation.Target()
    {
      if permutation.Size() > 0 then Ok(permutation.State())
      else InitResult(permutation.Kind(), 8 * rawCapacity, subkey, rand)
    }

    ghost predicate HasEncoder()
      reads this`encoder, this`codewordBlockSize, this`dataBlockSize
      reads if encoder.Some? then {encoder.value.Target()} else {}
    {
      && encoder.Some? && encoder.value.Valid()
      && codewordBlockSize == encoder.value.Codec().CodeSize()
      && dataBlockSize == encoder.value.Codec().DataSize()
    }

    ghost function SetupWith(p: Perm): Setup
      requires encoder.Some?
      reads this`encoder, this`blocksUsed
      reads if encoder.Some? then {encoder.value.Target()} else {}
    {
      Setup(p, encoder.value.Codec(), blocksUsed)
    }

    constructor (f: ImageFile, p: PermutationPtr, key: Key)
      requires p.Valid() && p.Size() == 0 && f.content.Valid() && |f.content.samples| <= MAX_AFFINE_SIZE
      ensures Valid() && file == f && permutation == p && encoder == None && !fileLoaded && subkey == key
      ensures storage == null && fresh(buffer)
    {
      file, permutation, encoder, subkey := f, p, None, key;
      codewordBlockSize, dataBlockSize, blockCount, capacity := 0, 0, 0, 0;
      blocksUsed, virtualStorageOffset, fileLoaded, storage := 0, 0, false, null;
      buffer := new byte[0];
      new;
      if f.content.Bmp? {
        BmpUsables(f.content, |f.content.samples|);
        rawCapacity := |f.content.samples| / 8;
      } else {
        var bits := CountUsable(f.content);
        rawCapacity := bits / 8;
      }
    }

    // -------------------------------------------------------------- bits of the buffer

    method SetBitInBufferPermuted(index: nat) returns (r: Status)
      requires permutation.Valid() && permutation.Size() <= 8 * buffer.Length
      modifies buffer
      ensures r == if index >= permutation.Size() then Failed(OutOfRange) else Done
      ensures r != Done ==> buffer[..] == old(buffer[..])
      ensures r == Done ==>
                && permutation.State().Valid() && index < permutation.State().Size()
                && permutation.State().Apply(index) < 8 * buffer.Length
                && buffer[..] == WithBit(old(buffer[..]), permutation.State().Apply(index))
    {
      hide Bitwise, Pow2, Perm.Apply, Perm.Valid, Perm.Size;
      if index >= permutation.Size() { return Failed(OutOfRange); }
      permutation.StateIsValid();
      var p := permutation.Permute(index);
      var x := p.value;
      OrFits(buffer[x / 8], x % 8);
      ShiftsArePowers(1, x % 8);
      buffer[x / 8] := BitOr(buffer[x / 8], Shl(1, x % 8));
      return Done;
    }

    method GetBitInBufferPermuted(index: nat) returns (r: Result<nat>)
      requires permutation.Valid() && permutation.Size() <= 8 * buffer.Length
      ensures index >= permutation.Size() ==> r == Err(OutOfRange)
      ensures index < permutation.Size() ==>
                && permutation.State().Valid() && index < permutation.State().Size()
                && permutation.State().Apply(index) < 8 * buffer.Length
                && r == Ok(if BufferBit(buffer[..], permutation.State().Apply(index)) then 1 else 0)
    {
      hide Bit, Bitwise, Pow2, Perm.Apply, Perm.Valid, Perm.Size;
      if index >= permutation.Size() { return Err(OutOfRange); }
      permutation.StateIsValid();
      var p := permutation.Permute(index);
      var x := p.value;
      MaskTestsBit(buffer[x / 8], x % 8);
      return Ok(if BitAnd(buffer[x / 8], Shl(1, x % 8)) != 0 then 1 else 0);
    }

    // -------------------------------------------------------------- samples to buffer

    /** The local permutation is initialised, and is p. */
    ghost predicate Ready(p: Perm)
      reads permutation.Target()
    {
      && permutation.Valid() && permutation.State() == p && 0 < permutation.Size() == p.Size()
      && p.Valid() && Bijective(p)
    }

    /** The permutation fits both the buffer and the samples. */
    ghost predicate CanFill(img: Image, p: Perm)
      reads this`buffer, permutation.Target()
    {
      && img.Valid() && Ready(p) && p.Size() <= 8 * buffer.Length && p.Size() <= |img.Channel()|
    }

    /** `SetBitInBufferPermuted` on an index in range. */
    method SetCarriedBit(index: nat, ghost p: Perm)
      requires Ready(p) && p.Size() <= 8 * buffer.Length && index < p.Size()
      modifies buffer
      ensures Ready(p) && p.Apply(index) < 8 * buffer.Length
      ensures buffer[..] == WithBit(old(buffer[..]), p.Apply(index))
    {
      assert permutation.Target() != (buffer as object);
      hide PermutationPtr.State, PermutationPtr.Size, PermutationPtr.Valid, PermutationPtr.Target;
      hide WithBit, Perm.Apply, Bijective, Perm.Valid, Perm.Size;
      var r := SetBitInBufferPermuted(index);
    }

    /** Puts the bits of a bitmap into the cleared buffer. */
    method FillFromBitmap(img: Image, ghost p: Perm)
      requires img.Bmp? && CanFill(img, p) && forall q | 0 <= q < buffer.Length :: buffer[q] == 0
      modifies buffer
      ensures Ready(p) && buffer[..] == Pack(ReadBits(img, p.Size()), p, buffer.Length)
    {
      var bitsToModify := permutation.Size();
      ghost var bits := ReadBits(img, p.Size());
      FilledAtStart(buffer[..], bits, p);
      BmpUsables(img, |img.samples|);
      assert forall k | 0 <= k < bitsToModify :: bits[k] == (img.samples[k] % 2 == 1);
      hide Image.Channel, Image.Usables, ReadBits, Image.Valid, Ready;
      hide Filled, WithBit, Perm.Apply, Bijective, Perm.Valid, Perm.Size, Pack, Bitwise;
      for i := 0 to bitsToModify
        invariant Ready(p) && Filled(buffer[..], bits, p, i)
      {
        FillStep(buffer[..], bits, p, i);
        LowestBit(img.samples[i]);
        if BitAnd(img.samples[i], 1) != 0 { SetCarriedBit(i, p); }
      }
      FilledIsPacked(buffer[..], bits, p);
    }

    /** What the reading loops keep: the permutation, and the first `counter` bits in place. */
    ghost predicate Reading(img: Image, p: Perm, at: nat, counter: nat, goOn: bool)
      reads this`buffer, buffer, permutation.Target()
    {
      && img.Jpeg? && CanFill(img, p) && counter <= p.Size()
      && Scanning(img, at, counter, p.Size(), goOn)
      && Filled(buffer[..], ReadBits(img, p.Size()), p, counter)
    }

    lemma ReadingStopped(img: Image, p: Perm, at: nat, end: nat, counter: nat, goOn: bool)
      requires Reading(img, p, at, counter, goOn) && at <= end <= |img.samples| && (goOn ==> at == end)
      ensures Reading(img, p, end, counter, goOn)
    {}

    lemma ReadingSkips(img: Image, p: Perm, at: nat, counter: nat)
      requires Reading(img, p, at, counter, true) && at % 64 == 0 && at + 64 <= |img.samples|
      ensures Reading(img, p, at + 1, counter, true)
    {
      DcIsSkipped(img, at, counter, p.Size());
    }

    /** Puts the bits of the usable coefficients into the cleared buffer; every loop stops once
        enough have been seen. */
    method FillFromJpeg(img: Image, ghost p: Perm)
      requires img.Jpeg? && CanFill(img, p) && forall q | 0 <= q < buffer.Length :: buffer[q] == 0
      modifies buffer
      ensures Ready(p) && buffer[..] == Pack(ReadBits(img, p.Size()), p, buffer.Length)
    {
      FilledAtStart(buffer[..], ReadBits(img, p.Size()), p);
      BlockBounds(img, 0, 0);
      NoUsables(img);
      assert img.Valid() && Reading(img, p, 0, 0, true);
      var w := img.width;
      hide Reading, BlockAt, Image.Valid, Ready, CanFill, Filled, Pack, ReadBits, Perm.Valid, Perm.Size, Image.Channel;
      var coeffCounter: nat, shouldRead := 0, true;
      var row: nat := 0;
      while row < img.height && shouldRead
        invariant row <= img.height && Reading(img, p, BlockAt(row, w, 0), coeffCounter, shouldRead)
      {
        var col: nat := 0;
        while col < w && shouldRead
          invariant col <= w && Reading(img, p, BlockAt(row, w, col), coeffCounter, shouldRead)
        {
          BlockBounds(img, row, col);
          coeffCounter, shouldRead := ReadBlock(img, BlockAt(row, w, col), coeffCounter, p);
          col := col + 1;
        }
        RowEnds(img, row, col);
        ReadingStopped(img, p, BlockAt(row, w, col), BlockAt(row + 1, w, 0), coeffCounter, shouldRead);
        row := row + 1;
      }
      RowsEnd(img, row);
      ReadingStopped(img, p, BlockAt(row, w, 0), |img.samples|, coeffCounter, shouldRead);
      ReadingComplete(img, p, coeffCounter, shouldRead);
    }

    method ReadBlock(img: Image, at: nat, before: nat, ghost p: Perm) returns (counter: nat, shouldRead: bool)
      requires Reading(img, p, at, before, true) && at % 64 == 0 && at + 64 <= |img.samples|
      modifies buffer
      ensures Reading(img, p, at + 64, counter, shouldRead)
    {
      hide Reading;
      ReadingSkips(img, p, at, before);
      counter, shouldRead := before, true;
      var k: nat := 1;
      while k < 64 && shouldRead
        invariant 1 <= k <= 64 && Reading(img, p, at + k, counter, shouldRead)
      {
        counter, shouldRead := ReadCoefficient(img, at + k, counter, p);
        k := k + 1;
      }
      ReadingStopped(img, p, at + k, at + 64, counter, shouldRead);
    }

    method ReadCoefficient(img: Image, i: nat, before: nat, ghost p: Perm) returns (counter: nat, shouldRead: bool)
      requires Reading(img, p, i, before, true) && i < |img.samples| && i % 64 != 0
      modifies buffer
      ensures Reading(img, p, i + 1, counter, shouldRead)
    {
      counter, shouldRead := before, true;
      hide Image.Channel, Image.Usables, ReadBits, Image.Valid, Scanning, BitAnd, Bijective;
      hide Filled, WithBit, Perm.Apply, Perm.Valid, Perm.Size, PermutationPtr.State, PermutationPtr.Valid;
      ReadStep(img, buffer[..], ReadBits(img, p.Size()), p, i, counter);
      if BitAnd(img.samples[i], 0xFFFE) != 0 {
        if BitAnd(img.samples[i], 1) != 0 { SetCarriedBit(counter, p); }
        counter := counter + 1;
        if counter >= permutation.Size() { shouldRead := false; }
      }
    }

    lemma ReadingComplete(img: Image, p: Perm, counter: nat, goOn: bool)
      requires Reading(img, p, |img.samples|, counter, goOn)
      ensures Ready(p) && buffer[..] == Pack(ReadBits(img, p.Size()), p, buffer.Length)
    {
      ScanComplete(img, counter, p.Size(), goOn);
      FilledIsPacked(buffer[..], ReadBits(img, p.Size()), p);
    }

    // -------------------------------------------------------------- buffer to samples

    /** The bits the buffer holds for the samples. */
    ghost predicate Carries(p: Perm, bits: seq<bool>)
      reads this`buffer, buffer, permutation.Target()
    {
      Ready(p) && p.Size() <= 8 * buffer.Length && bits == Unpack(buffer[..], p)
    }

    /** `GetBitInBufferPermuted` on an index in range. */
    method CarriedBit(index: nat, ghost p: Perm, ghost bits: seq<bool>) returns (bit: nat)
      requires Carries(p, bits) && index < |bits|
      ensures Carries(p, bits) && bit == if bits[index] then 1 else 0
    {
      hide PermutationPtr.State, PermutationPtr.Size, PermutationPtr.Valid, PermutationPtr.Target;
      hide BufferBit, Perm.Apply, Bijective, Perm.Valid, Perm.Size;
      assert allocated(permutation.Target());
      var r := GetBitInBufferPermuted(index);
      return r.value;
    }

    /** The samples being rewritten are none of the carrier's own objects. */
    ghost predicate Apart(samples: array<nat>)
      reads this`buffer
    {
      samples as object != buffer && samples as object != permutation.Target()
    }

    /** Writes the permuted buffer over the lowest bits of a bitmap. */
    method WriteToBitmap(img: Image, ghost p: Perm) returns (r: Image)
      requires img.Bmp? && CanFill(img, p)
      ensures Ready(p) && r == WriteBits(img, Unpack(buffer[..], p))
    {
      ghost var bits := Unpack(buffer[..], p);
      var samples := new nat[|img.samples|](i requires 0 <= i < |img.samples| => img.samples[i]);
      assert samples[..] == img.samples && allocated(permutation.Target());
      assert Carries(p, bits) && Apart(samples) && permutation.Size() == |bits|;
      hide Carries, Apart, Image.Channel, Image.Usables, Overwrite, Image.Valid, Unpack, Perm.Valid, Perm.Size;
      hide Bijective;
      WriteBytes(img, samples, permutation.Size(), p, bits);
      CarriedBits(p, bits);
      return Bmp(samples[..]);
    }

    lemma CarriedBits(p: Perm, bits: seq<bool>)
      requires Carries(p, bits)
      ensures Ready(p) && p.Size() <= 8 * buffer.Length && bits == Unpack(buffer[..], p)
    {}

    method WriteBytes(ghost img: Image, samples: array<nat>, bitsToModify: nat, ghost p: Perm, ghost bits: seq<bool>)
      requires img.Bmp? && img.Valid() && samples[..] == img.samples && Carries(p, bits) && Apart(samples)
      requires bitsToModify == |bits| <= |img.Channel()|
      modifies samples
      ensures Carries(p, bits) && samples[..] == Overwrite(img.samples, img.Channel(), bits, |bits|)
    {
      BmpUsables(img, |img.samples|);
      hide Carries, Image.Channel, Image.Usables, Overwrite, Image.Valid, Perm.Valid, Perm.Size, Bijective, Bitwise;
      NothingWritten(img, bits);
      assert allocated(permutation.Target());
      for i := 0 to bitsToModify
        invariant Carries(p, bits) && samples[..] == Overwrite(img.samples, img.Channel(), bits, i)
      {
        ghost var was := samples[..];
        WriteBitmapStep(img, was, bits, i);
        var bit := CarriedBit(i, p, bits);
        samples[i] := BitOr(BitAnd(samples[i], 0xFE), bit);
        assert samples[..] == was[i := samples[i]];
      }
    }

    /** Writes the permuted buffer over the lowest bits of the usable coefficients. */
    method WriteToJpeg(img: Image, ghost p: Perm) returns (r: Image)
      requires img.Jpeg? && CanFill(img, p)
      ensures Ready(p) && r == WriteBits(img, Unpack(buffer[..], p))
    {
      ghost var bits := Unpack(buffer[..], p);
      var samples := new nat[|img.samples|](i requires 0 <= i < |img.samples| => img.samples[i]);
      assert samples[..] == img.samples && allocated(permutation.Target());
      assert Carries(p, bits) && Apart(samples) && permutation.Size() == |bits|;
      WritingStarts(img, bits);
      hide Carries, Apart, Writing, WriteBits, Unpack, Perm.Valid, Perm.Size, Image.Channel, Bijective;
      WriteRows(img, samples, permutation.Size(), p, bits);
      CarriedBits(p, bits);
      return Jpeg(img.height, img.width, samples[..]);
    }

    method WriteRows(img: Image, samples: array<nat>, bitsToModify: nat, ghost p: Perm, ghost bits: seq<bool>)
      requires img.Jpeg? && img.Valid() && Carries(p, bits) && Apart(samples) &&
          bitsToModify == |bits| <= |img.Channel()|
      requires Writing(img, samples[..], bits, 0, 0, true)
      modifies samples
      ensures Carries(p, bits) && WriteBits(img, bits) == Jpeg(img.height, img.width, samples[..])
    {
      hide Carries, Apart, Writing, BlockAt, Image.Valid, WriteBits, Image.Channel;
      var h, w := img.height, img.width;
      BlockBounds(img, 0, 0);
      var coeffCounter: nat, shouldWrite := 0, true;
      var row: nat := 0;
      while row < h && shouldWrite
        invariant row <= h && Writing(img, samples[..], bits, BlockAt(row, w, 0), coeffCounter, shouldWrite)
        invariant Carries(p, bits)
      {
        var col: nat := 0;
        while col < w && shouldWrite
          invariant col <= w && Writing(img, samples[..], bits, BlockAt(row, w, col), coeffCounter, shouldWrite)
          invariant Carries(p, bits)
        {
          BlockBounds(img, row, col);
          WritingLength(img, samples[..], bits, BlockAt(row, w, col), coeffCounter, shouldWrite);
          coeffCounter, shouldWrite := WriteBlock(img, samples, BlockAt(row, w, col), coeffCounter, bitsToModify, p,
              bits);
          col := col + 1;
        }
        RowEnds(img, row, col);
        WritingStopped(img, samples[..], bits, BlockAt(row, w, col), BlockAt(row + 1, w, 0), coeffCounter, shouldWrite);
        row := row + 1;
      }
      RowsEnd(img, row);
      WritingStopped(img, samples[..], bits, BlockAt(row, w, 0), |img.samples|, coeffCounter, shouldWrite);
      WritingComplete(img, samples[..], bits, coeffCounter, shouldWrite);
    }

    method WriteBlock(ghost img: Image, samples: array<nat>, at: nat, before: nat, bitsToModify: nat, ghost p: Perm,
        ghost bits: seq<bool>)
      returns (counter: nat, shouldWrite: bool)
      requires Carries(p, bits) && Apart(samples) && bitsToModify == |bits|
      requires samples.Length == |img.samples| && at % 64 == 0 && at + 64 <= samples.Length
      requires Writing(img, samples[..], bits, at, before, true)
      modifies samples
      ensures Carries(p, bits) && Writing(img, samples[..], bits, at + 64, counter, shouldWrite)
    {
      hide Carries, Apart, Writing;
      WritingSkips(img, samples[..], bits, at, before);
      counter, shouldWrite := before, true;
      var k: nat := 1;
      while k < 64 && shouldWrite
        invariant 1 <= k <= 64 && Carries(p, bits) && Writing(img, samples[..], bits, at + k, counter, shouldWrite)
      {
        InBlock(at, k);
        counter, shouldWrite := WriteCoefficient(img, samples, at + k, counter, bitsToModify, p, bits);
        k := k + 1;
      }
      WritingStopped(img, samples[..], bits, at + k, at + 64, counter, shouldWrite);
    }

    method WriteCoefficient(ghost img: Image, samples: array<nat>, i: nat, before: nat, bitsToModify: nat,
        ghost p: Perm, ghost bits: seq<bool>)
      returns (counter: nat, shouldWrite: bool)
      requires Carries(p, bits) && Apart(samples) && bitsToModify == |bits|
      requires samples.Length == |img.samples| && i < samples.Length && i % 64 != 0
      requires Writing(img, samples[..], bits, i, before, true)
      modifies samples
      ensures Carries(p, bits) && Writing(img, samples[..], bits, i + 1, counter, shouldWrite)
    {
      assert allocated(permutation.Target());
      hide Carries, Writing, Bitwise;
      ghost var was := samples[..];
      WriteStep(img, was, bits, i, before);
      counter, shouldWrite := before, true;
      if BitAnd(samples[i], 0xFFFE) != 0 {
        var bit := CarriedBit(counter, p, bits);
        samples[i] := BitOr(BitAnd(samples[i], 0xFFFE), bit);
        assert samples[..] == was[i := samples[i]];
        counter := counter + 1;
        if counter >= bitsToModify { shouldWrite := false; }
      }
    }

    // -------------------------------------------------------------- encoder and storage

    method SetEncoder(e: Option<EncoderPtr>, rand: nat -> nat) returns (r: Status)
      requires Valid() && (e.Some? ==> e.value.Valid())
      modifies this`encoder, this`dataBlockSize, this`codewordBlockSize, this`blockCount, this`capacity
      ensures Valid() && encoder == e
      ensures e == None ==>
                r == Done && dataBlockSize == codewordBlockSize == 1 && blockCount == capacity == 0
      ensures e.Some? ==> HasEncoder()
      ensures e.Some? ==>
                match SizeResult(permutation.Kind(), 8 * rawCapacity, subkey, rand)
                case Err(x) => r == Failed(x) && blockCount == old(blockCount) && capacity == old(capacity)
                case Ok(size) =>
                  && r == Done
                  && codewordBlockSize > 0
                  && 8 * Span(blockCount, codewordBlockSize) <= size < 8 * Span(blockCount + 1, codewordBlockSize)
                  && capacity == Span(blockCount, dataBlockSize)
    {
      hide SizeResult, PermutationPtr.Valid, PermutationPtr.Kind, PermutationPtr.Size, Image.Valid, Image.RawCapacity;
      hide Codec.DataSize, Codec.CodeSize, Codec.Valid, EncoderPtr.Valid, EncoderPtr.Codec;
      assert 8 * rawCapacity < WORD && allocated(permutation.Target());
      assert e.Some? ==> allocated(e.value.Target()) && e.value.Target() != this as object;
      encoder := e;
      if e == None {
        dataBlockSize, codewordBlockSize, blockCount, capacity := 1, 1, 0, 0;
        return Done;
      }
      e.value.CodecIsValid();
      e.value.Codec().Sizes();
      dataBlockSize, codewordBlockSize := e.value.GetDataBlockSize(), e.value.GetCodewordBlockSize();
      hide Valid, HasEncoder, Span, BlocksBelow;
      var size := permutation.GetSizeUsingParams(8 * rawCapacity, subkey, rand);
      if size.Err? { return Failed(size.error); }
      blockCount := BlocksBelow(size.value, codewordBlockSize);
      SpanIsProduct(blockCount, dataBlockSize);
      capacity := blockCount * dataBlockSize;
      return Done;
    }

    method SetSubkey(key: Key)
      modifies this`subkey
      ensures subkey == key
    {
      subkey := key;
    }

    method UnSetEncoder(rand: nat -> nat)
      requires Valid()
      modifies this`encoder, this`dataBlockSize, this`codewordBlockSize, this`blockCount, this`capacity
      ensures Valid() && encoder == None && capacity == 0
    {
      var r := SetEncoder(None, rand);
    }

    method AddToVirtualStorage(s: VirtualStorage, offset: nat, bytesUsed: nat)
      requires dataBlockSize > 0
      modifies this`storage, this`virtualStorageOffset, this`blocksUsed
      ensures storage == s && virtualStorageOffset == offset
      ensures blocksUsed == BlocksUsed(bytesUsed, dataBlockSize)
    {
      storage, virtualStorageOffset := s, offset;
      blocksUsed := if bytesUsed != 0 then (bytesUsed - 1) / dataBlockSize + 1 else 0;
    }

    /** The storage is sized, its memory is not the carrier's buffer, and the blocks used lie in a
        buffer of the given length. */
    ghost predicate Linked(length: nat)
      reads this`storage, this`encoder, this`blocksUsed, this`codewordBlockSize, this`dataBlockSize
      reads if storage == null then {} else {storage, storage.permutation.Target()}
      reads if encoder.Some? then {encoder.value.Target()} else {}
    {
      && storage != null && storage.Applied()
      && (encoder.Some? ==> HasEncoder() && Span(blocksUsed, codewordBlockSize) <= length)
    }

    method ExtractBufferUsingEncoder() returns (code: int)
      requires Linked(buffer.Length) && buffer != storage.data
      modifies if storage == null then {} else {storage.data}
      ensures storage.Applied()
      ensures code == if buffer.Length == 0 then -1
                      else if encoder == None then -2
                      else if codewordBlockSize == 0 then -3
                      else if blocksUsed == 0 then -4 else 0
      ensures code != 0 ==> storage.data[..] == old(storage.data[..])
      ensures code == 0 ==>
                && HasEncoder()
                && var d := ExtractBlocks(encoder.value.Codec(), buffer[..], blocksUsed);
                   storage.data[..] == StoreBytes(old(storage.data[..]), storage.Global(), virtualStorageOffset, d, |d|)
    {
      if buffer.Length == 0 { return -1; }
      if encoder == None { return -2; }
      if codewordBlockSize == 0 { return -3; }
      if blocksUsed == 0 { return -4; }
      ghost var codec := encoder.value.Codec();
      encoder.value.CodecIsValid();
      ghost var d := ExtractBlocks(codec, buffer[..], blocksUsed);
      ghost var t := Transfer(storage.Global(), storage.data[..], virtualStorageOffset, d);
      var dataBuffer := new byte[dataBlockSize];
      assert allocated(encoder.value.Target()) && allocated(storage.permutation.Target());
      hide VirtualStorage.Valid, EncoderPtr.Valid, EncoderPtr.Codec, ExtractBlocks, StoreBytes, Perm.Valid, Perm.Size;
      hide Bijective;
      ExtractingStarts(encoder.value, buffer, dataBuffer, storage, blocksUsed, t);
      hide Extracting, Codec.CodeSize, Codec.DataSize, HasEncoder, VirtualStorage.Applied;
      ExtractAll(encoder.value, buffer, dataBuffer, storage, virtualStorageOffset, blocksUsed, codec, t);
      Extracted(encoder.value, buffer, dataBuffer, storage, codec, blocksUsed, t);
      return 0;
    }

    method EmbedBufferUsingEncoder() returns (r: Status)
      requires Linked(buffer.Length) && buffer != storage.data
      modifies buffer
      ensures storage.Applied()
      ensures r == if buffer.Length == 0 then Failed(LengthError)
                   else if encoder == None then Failed(InvalidState)
                   else if codewordBlockSize == 0 then Failed(EmptyMember)
                   else if blocksUsed == 0 then Failed(EmptyMember) else Done
      ensures r == Done ==>
                && HasEncoder() && encoder.value.Codec().Valid()
                && var d := FetchBytes(storage.data[..], storage.Global(), virtualStorageOffset,
                    Span(blocksUsed, dataBlockSize));
                   buffer[..] == EmbedBlocks(encoder.value.Codec(), old(buffer[..]), d, blocksUsed)
    {
      assert encoder.Some? ==> allocated(encoder.value.Target()) && encoder.value.Target() != buffer as object;
      assert allocated(storage.permutation.Target()) && storage.permutation.Target() != buffer as object;
      if buffer.Length == 0 { return Failed(LengthError); }
      if encoder == None { return Failed(InvalidState); }
      if codewordBlockSize == 0 { return Failed(EmptyMember); }
      if blocksUsed == 0 { return Failed(EmptyMember); }
      encoder.value.CodecIsValid();
      ghost var codec, before := encoder.value.Codec(), buffer[..];
      ghost var d := FetchBytes(storage.data[..], storage.Global(), virtualStorageOffset,
          Span(blocksUsed, dataBlockSize));
      var dataBuffer := new byte[dataBlockSize];
      assert Embedded(encoder.value, buffer, codec, before, d, 0) && Fetched(storage, d, virtualStorageOffset);
      hide Embedded, Fetched, Codec.CodeSize, Codec.DataSize, EncoderPtr.Valid, EncoderPtr.Codec, Span, FetchBytes;
      hide EmbedBlocks;
      EmbedAll(encoder.value, buffer, dataBuffer, storage, virtualStorageOffset, blocksUsed, codec, before, d);
      AllEmbedded(encoder.value, buffer, codec, before, d, blocksUsed);
      return Done;
    }

    // -------------------------------------------------------------- load and save

    /** Initialises the local permutation when that has not happened yet, and reads the carried
        bits into a cleared buffer. */
    method ReadCarrier(rand: nat -> nat) returns (r: Status, ghost p: Perm)
      requires Valid()
      modifies this`buffer, permutation.Target()
      ensures Valid() && LocalPerm(rand) == old(LocalPerm(rand))
      ensures match old(LocalPerm(rand))
              case Err(e) => r == Failed(e)
              case Ok(q) =>
                && r == Done && p == q && Ready(p) && fresh(buffer) && buffer.Length == rawCapacity
                && p.Size() <= 8 * rawCapacity
                && buffer[..] == Pack(ReadBits(file.content, p.Size()), p, rawCapacity)
    {
      r := InitPermutation(rand);
      p := permutation.State();
      if r != Done { return; }
      buffer := new byte[rawCapacity](_ => 0);
      assert allocated(permutation.Target()) && CanFill(file.content, p);
      hide Ready, Pack, ReadBits, Image.RawCapacity, Image.Channel, Perm.Valid, Perm.Size, Bijective;
      if file.content.Bmp? { FillFromBitmap(file.content, p); } else { FillFromJpeg(file.content, p); }
    }

    method InitPermutation(rand: nat -> nat) returns (r: Status)
      requires Valid()
      modifies permutation.Target()
      ensures Valid() && LocalPerm(rand) == old(LocalPerm(rand))
      ensures match old(LocalPerm(rand))
              case Err(e) => r == Failed(e)
              case Ok(q) => r == Done && Ready(q)
    {
      hide InitResult, Perm.Valid, Perm.Size, Bijective, Pow2, Image.RawCapacity, Image.Valid;
      if permutation.Size() == 0 {
        Pow2Values();
        Pow2Monotone(32, 60);
        r := permutation.Init(8 * rawCapacity, subkey, rand);
        InitFitsRequest(permutation.Kind(), 8 * rawCapacity, subkey, rand);
        return;
      }
      permutation.StateIsValid();
      return Done;
    }

    /** The carrier has its storage, separate from its own objects, and the blocks it was given lie
        below its local permutation. */
    ghost predicate Attached(rand: nat -> nat)
      reads this`storage, this`encoder, this`blocksUsed, this`codewordBlockSize, this`dataBlockSize
      reads this`rawCapacity, this`subkey, permutation.Target(), file
      reads if storage == null then {} else {storage, storage.permutation.Target()}
      reads if encoder.Some? then {encoder.value.Target()} else {}
    {
      && Valid() && Linked(rawCapacity) && permutation.Target() != storage.permutation.Target()
      && (encoder.Some? && LocalPerm(rand).Ok? ==>
            8 * Span(blocksUsed, codewordBlockSize) <= LocalPerm(rand).value.Size())
    }

    /** The buffer holds the carried bits, permuted. */
    ghost predicate BufferRead(p: Perm)
      reads this`encoder, this`blocksUsed, this`rawCapacity, this`buffer, permutation.Target(), file, buffer
      reads if encoder.Some? then {encoder.value.Target()} else {}
    {
      && Ready(p) && buffer.Length == rawCapacity > 0
      && (encoder.Some? ==>
            SetupWith(p).Fits(file.content) && buffer[..] == LoadBuffer(file.content, SetupWith(p)))
    }

    /** The common beginning of loading and saving. */
    method ReadAttached(rand: nat -> nat) returns (r: Status, ghost p: Perm)
      requires Attached(rand)
      modifies this`buffer, permutation.Target()
      ensures Attached(rand) && LocalPerm(rand) == old(LocalPerm(rand)) && storage.Global() == old(storage.Global())
      ensures match old(LocalPerm(rand))
              case Err(e) => r == Failed(e)
              case Ok(q) => r == Done && p == q && Ready(p) && BufferRead(p) && fresh(buffer)
    {
      hide *;
      AttachedParts(rand);
      assert allocated(storage.permutation.Target());
      assert encoder.Some? ==> allocated(encoder.value.Target());
      r, p := ReadCarrier(rand);
      AttachedFromParts(rand);
      if r == Done { BufferIsRead(rand, p); }
    }

    lemma AttachedParts(rand: nat -> nat)
      requires Attached(rand)
      ensures storage != null && Valid() && Linked(rawCapacity) && permutation.Target() != storage.permutation.Target()
      ensures encoder.Some? && LocalPerm(rand).Ok? ==>
                8 * Span(blocksUsed, codewordBlockSize) <= LocalPerm(rand).value.Size()
      ensures permutation.Target() != storage && permutation.Target() != this
      ensures encoder.Some? ==> encoder.value.Target() != permutation.Target() && encoder.value.Target() != this
      ensures storage.permutation.Target() != this
    {
      hide PermutationPtr.Valid, PermutationPtr.Size, EncoderPtr.Valid, Image.Valid, Image.RawCapacity, LocalPerm, Span;
    }

    lemma AttachedFromParts(rand: nat -> nat)
      requires storage != null && Valid() && Linked(rawCapacity) && permutation.Target() != storage.permutation.Target()
      requires encoder.Some? && LocalPerm(rand).Ok? ==>
                 8 * Span(blocksUsed, codewordBlockSize) <= LocalPerm(rand).value.Size()
      ensures Attached(rand)
    {}

    lemma BufferIsRead(rand: nat -> nat, p: Perm)
      requires Attached(rand) && LocalPerm(rand) == Ok(p) && Ready(p) && buffer.Length == rawCapacity
      requires p.Size() <= 8 * rawCapacity && buffer[..] == Pack(ReadBits(file.content, p.Size()), p, rawCapacity)
      ensures BufferRead(p)
    {
      hide Pack, ReadBits, Bijective, LocalPerm, Span;
    }

    /** What loading makes of the storage, when the carrier holds data. */
    ghost predicate Loaded(p: Perm, before: Bytes)
      reads this`storage, this`encoder, this`blocksUsed, this`codewordBlockSize, this`dataBlockSize
      reads this`virtualStorageOffset, file
      reads if storage == null then {} else {storage, storage.permutation.Target(), storage.data}
      reads if encoder.Some? then {encoder.value.Target()} else {}
    {
      && encoder.Some? && HasEncoder() && SetupWith(p).Fits(file.content)
      && storage != null && storage.Applied() && |before| == storage.data.Length
      && var d := LoadData(file.content, SetupWith(p));
         storage.data[..] == StoreBytes(before, storage.Global(), virtualStorageOffset, d, |d|)
    }

    /** Extraction from a buffer that holds the carried bits. */
    method ExtractRead(ghost p: Perm) returns (code: int)
      requires Valid() && BufferRead(p) && Linked(rawCapacity) && buffer != storage.data
      modifies storage.data
      ensures Valid() && Ready(p) && Linked(rawCapacity)
      ensures if encoder == None || blocksUsed == 0 then code != 0 && storage.data[..] == old(storage.data[..])
              else code == 0 && Loaded(p, old(storage.data[..]))
    {
      assert encoder.Some? ==> allocated(encoder.value.Target()) && encoder.value.Target() != storage.data as object;
      assert permutation.Target() != storage.data as object && allocated(permutation.Target());
      if encoder.Some? { encoder.value.CodecIsValid(); encoder.value.Codec().Sizes(); }
      ghost var before := storage.data[..];
      hide Ready, Image.Valid, Image.RawCapacity, PermutationPtr.Valid, PermutationPtr.Size, Perm.Size, Perm.Valid;
      hide Bijective, LoadBuffer;
      hide EncoderPtr.Valid, EncoderPtr.Codec, Codec.Valid, Codec.CodeSize, Codec.DataSize, ExtractBlocks, StoreBytes;
      code := ExtractBufferUsingEncoder();
    }

    method LoadFile(rand: nat -> nat) returns (r: Status)
      requires Attached(rand)
      modifies this`buffer, this`fileLoaded, permutation.Target(), storage.data
      ensures Attached(rand) && LocalPerm(rand) == old(LocalPerm(rand))
      ensures old(fileLoaded) ==> r == Done && fileLoaded && storage.data[..] == old(storage.data[..])
      ensures !old(fileLoaded) ==>
                match old(LocalPerm(rand))
                case Err(e) => r == Failed(e) && !fileLoaded && storage.data[..] == old(storage.data[..])
                case Ok(p) =>
                  && Ready(p)
                  && if encoder == None || blocksUsed == 0 then
                       && storage.data[..] == old(storage.data[..])
                       && fileLoaded == file.content.Bmp?
                       && r == if fileLoaded then Done else Failed(RuntimeError)
                     else r == Done && fileLoaded && Loaded(p, old(storage.data[..]))
    {
      hide Valid, LocalPerm, Ready, BufferRead, Loaded, HasEncoder, VirtualStorage.Applied;
      if fileLoaded { return Done; }
      hide Linked;
      ghost var p;
      r, p := ReadAttached(rand);
      if r != Done { return; }
      var code := ExtractRead(p);
      assert encoder.Some? ==> allocated(encoder.value.Target());
      assert allocated(storage.permutation.Target());
      if code != 0 && file.content.Jpeg? { return Failed(RuntimeError); }
      fileLoaded := true;
    }

    /** The bytes of the storage this carrier is to hold. */
    ghost function Held(p: Perm): Bytes
      requires encoder.Some? && storage != null && storage.Applied()
      reads this`storage, this`encoder, this`blocksUsed, this`virtualStorageOffset
      reads if storage == null then {} else {storage, storage.permutation.Target(), storage.data}
      reads if encoder.Some? then {encoder.value.Target()} else {}
    {
      FetchBytes(storage.data[..], storage.Global(), virtualStorageOffset, SetupWith(p).DataBytes())
    }

    /** The buffer holds the carried bits with the data embedded. */
    ghost predicate BufferSaved(p: Perm)
      reads this`storage, this`encoder, this`blocksUsed, this`codewordBlockSize, this`dataBlockSize
      reads this`virtualStorageOffset, this`buffer, buffer, file
      reads if storage == null then {} else {storage, storage.permutation.Target(), storage.data}
      reads if encoder.Some? then {encoder.value.Target()} else {}
    {
      && encoder.Some? && HasEncoder() && SetupWith(p).Fits(file.content)
      && storage != null && storage.Applied()
      && buffer[..] == SavedBuffer(file.content, SetupWith(p), Held(p))
    }

    /** What saving makes of the file. */
    ghost predicate Saved(p: Perm, before: Image)
      reads this`storage, this`encoder, this`blocksUsed, this`codewordBlockSize, this`dataBlockSize
      reads this`virtualStorageOffset, file
      reads if storage == null then {} else {storage, storage.permutation.Target(), storage.data}
      reads if encoder.Some? then {encoder.value.Target()} else {}
    {
      && encoder.Some? && HasEncoder() && SetupWith(p).Fits(before)
      && storage != null && storage.Applied()
      && file.content == SaveImage(before, SetupWith(p), Held(p))
    }

    /** Embedding into a buffer that holds the carried bits. */
    method EmbedRead(ghost p: Perm) returns (r: Status)
      requires Valid() && BufferRead(p) && Linked(rawCapacity) && buffer != storage.data
      modifies buffer
      ensures Valid() && CanFill(file.content, p) && storage.Applied()
      ensures r == if encoder == None then Failed(InvalidState)
                   else if blocksUsed == 0 then Failed(EmptyMember) else Done
      ensures r == Done ==> BufferSaved(p)
    {
      assert encoder.Some? ==> allocated(encoder.value.Target()) && encoder.value.Target() != buffer as object;
      assert permutation.Target() != buffer as object && allocated(permutation.Target());
      if encoder.Some? { encoder.value.CodecIsValid(); encoder.value.Codec().Sizes(); }
      hide Image.Valid, Image.RawCapacity, PermutationPtr.Valid, PermutationPtr.Size, Perm.Size, Perm.Valid;
      hide Bijective, LoadBuffer;
      hide EncoderPtr.Valid, EncoderPtr.Codec, Codec.Valid, Codec.CodeSize, Codec.DataSize, EmbedBlocks, FetchBytes;
      hide Ready;
      r := EmbedBufferUsingEncoder();
    }

    /** The object agrees with an image of the file, and the buffer holds that image's saved bits. */
    ghost predicate Writable(p: Perm, img: Image, st: Setup, data: Bytes)
      reads this`storage, this`encoder, this`blocksUsed, this`codewordBlockSize, this`dataBlockSize
      reads this`virtualStorageOffset, this`rawCapacity, permutation.Target()
      reads if storage == null then {} else {storage, storage.permutation.Target(), storage.data}
      reads if encoder.Some? then {encoder.value.Target()} else {}
    {
      && permutation.Valid() && rawCapacity == img.RawCapacity() && 8 * rawCapacity <= MAX_AFFINE_SIZE
      && permutation.Size() <= 8 * rawCapacity
      && encoder.Some? && HasEncoder() && storage != null && storage.Applied()
      && st == SetupWith(p) && data == Held(p) && st.Fits(img) && st.perm == p
    }

    lemma NowWritable(p: Perm)
      requires Valid() && BufferSaved(p)
      ensures encoder.Some? && storage != null && storage.Applied()
      ensures Writable(p, file.content, SetupWith(p), Held(p)) && |Held(p)| == SetupWith(p).DataBytes()
      ensures SetupWith(p).Fits(file.content) && buffer[..] == SavedBuffer(file.content, SetupWith(p), Held(p))
      ensures SetupWith(p).perm == p
    {
      hide Setup.Fits, Image.Valid, Image.RawCapacity, PermutationPtr.Valid, PermutationPtr.Size, SavedBuffer;
      hide VirtualStorage.Applied, EncoderPtr.Valid, EncoderPtr.Codec;
    }

    lemma NowSaved(p: Perm, before: Image, st: Setup, data: Bytes)
      requires Writable(p, before, st, data) && |data| == st.DataBytes() && file.content == SaveImage(before, st, data)
      ensures Valid() && storage != null && storage.Applied() && Saved(p, before)
    {
      hide SaveImage, Setup.Fits, Image.Valid, Image.RawCapacity, PermutationPtr.Valid, PermutationPtr.Size;
      hide VirtualStorage.Applied, EncoderPtr.Valid, EncoderPtr.Codec, FetchBytes, HasEncoder;
      SavedImageIsValid(before, st, data);
    }

    lemma TargetsAreNoFile()
      ensures permutation.Target() != file as object
      ensures encoder.Some? ==> encoder.value.Target() != file as object
      ensures storage != null ==> storage.permutation.Target() != file as object
    {}

    /** Writes the embedded buffer back into the file. */
    method WriteBack(ghost p: Perm)
      requires Valid() && CanFill(file.content, p) && BufferSaved(p)
      modifies file
      ensures Valid() && Ready(p) && storage.Applied() && Saved(p, old(file.content))
    {
      hide *;
      NowWritable(p);
      ghost var img, st, data := file.content, SetupWith(p), Held(p);
      TargetsAreNoFile();
      assert allocated(encoder.value.Target()) && allocated(permutation.Target());
      assert allocated(storage.permutation.Target());
      var written := WrittenImage(file.content, p);
      SaveImageIsWritten(img, st, data);
      file.content := written;
      NowSaved(p, img, st, data);
    }

    method WrittenImage(img: Image, ghost p: Perm) returns (r: Image)
      requires CanFill(img, p)
      ensures Ready(p) && r == WriteBits(img, Unpack(buffer[..], p))
    {
      hide *;
      if img.Bmp? { r := WriteToBitmap(img, p); } else { r := WriteToJpeg(img, p); }
    }

    method SaveFile(rand: nat -> nat) returns (r: Status)
      requires Attached(rand)
      modifies this`buffer, permutation.Target(), file
      ensures Attached(rand) && LocalPerm(rand) == old(LocalPerm(rand))
      ensures !fileLoaded ==> r == Failed(InvalidState) && file.content == old(file.content)
      ensures fileLoaded ==>
                match old(LocalPerm(rand))
                case Err(e) => r == Failed(e) && file.content == old(file.content)
                case Ok(p) =>
                  && Ready(p)
                  && if encoder == None || blocksUsed == 0 then
                       && file.content == old(file.content)
                       && r == Failed(if encoder == None then InvalidState else EmptyMember)
                     else r == Done && Saved(p, old(file.content))
    {
      hide Valid, LocalPerm, Ready, BufferRead, BufferSaved, Saved, HasEncoder, VirtualStorage.Applied, CanFill;
      if !fileLoaded { return Failed(InvalidState); }
      hide Linked;
      ghost var p;
      r, p := ReadAttached(rand);
      if r != Done { return; }
      assert encoder.Some? ==> allocated(encoder.value.Target());
      assert allocated(storage.permutation.Target()) && allocated(permutation.Target());
      r := EmbedRead(p);
      if r != Done { return; }
      WriteBack(p);
    }
  }

  lemma SavedImageIsValid(img: Image, st: Setup, data: Bytes)
    requires st.Fits(img) && |data| == st.DataBytes()
    ensures var r := SaveImage(img, st, data); r.Valid() && r.RawCapacity() == img.RawCapacity()
  {
    ReloadedBuffer(img, st, data);
  }

  lemma SaveImageIsWritten(img: Image, st: Setup, data: Bytes)
    requires st.Fits(img) && |data| == st.DataBytes()
    ensures st.perm.Valid() && Bijective(st.perm) && st.perm.Size() <= 8 * |SavedBuffer(img, st, data)|
    ensures st.perm.Size() <= |img.Channel()|
    ensures SaveImage(img, st, data) == WriteBits(img, Unpack(SavedBuffer(img, st, data), st.perm))
  {}

  /** Leaving the loop over a row, early or not, the next row begins no earlier. */
  lemma RowEnds(img: Image, row: nat, col: nat)
    requires img.Jpeg? && img.Valid() && row < img.height && col <= img.width
    ensures BlockAt(row, img.width, col) <= BlockAt(row + 1, img.width, 0) <= |img.samples|
    ensures col == img.width ==> BlockAt(row, img.width, col) == BlockAt(row + 1, img.width, 0)
  {
    BlockBounds(img, row, col);
    MulMonotone(row + 1, img.height, img.width);
    assert (row + 1) * img.width == row * img.width + img.width;
  }

  lemma RowsEnd(img: Image, row: nat)
    requires img.Jpeg? && img.Valid() && row <= img.height
    ensures BlockAt(row, img.width, 0) <= |img.samples|
    ensures row == img.height ==> BlockAt(row, img.width, 0) == |img.samples|
  {
    MulMonotone(row, img.height, img.width);
  }

  /** What the writing loops keep: the first `counter` bits are in the samples. */
  ghost predicate Writing(img: Image, samples: seq<nat>, bits: seq<bool>, at: nat, counter: nat, goOn: bool) {
    && img.Jpeg? && img.Valid() && counter <= |bits| <= |img.Channel()|
    && Scanning(img, at, counter, |bits|, goOn)
    && samples == Overwrite(img.samples, img.Channel(), bits, counter)
  }

  lemma WritingStopped(img: Image, samples: seq<nat>, bits: seq<bool>, at: nat, end: nat, counter: nat, goOn: bool)
    requires Writing(img, samples, bits, at, counter, goOn) && at <= end <= |img.samples| && (goOn ==> at == end)
    ensures Writing(img, samples, bits, end, counter, goOn)
  {}

  lemma WritingSkips(img: Image, samples: seq<nat>, bits: seq<bool>, at: nat, counter: nat)
    requires Writing(img, samples, bits, at, counter, true) && at % 64 == 0 && at + 64 <= |img.samples|
    ensures Writing(img, samples, bits, at + 1, counter, true)
  {
    DcIsSkipped(img, at, counter, |bits|);
  }

  lemma WritingLength(img: Image, samples: seq<nat>, bits: seq<bool>, at: nat, counter: nat, goOn: bool)
    requires Writing(img, samples, bits, at, counter, goOn)
    ensures |samples| == |img.samples|
  {}

  lemma InBlock(at: nat, k: nat)
    requires at % 64 == 0 && 0 < k < 64
    ensures (at + k) % 64 != 0
  {}

  lemma WritingStarts(img: Image, bits: seq<bool>)
    requires img.Jpeg? && img.Valid() && 0 < |bits| <= |img.Channel()|
    ensures Writing(img, img.samples, bits, 0, 0, true)
  {
    NoUsables(img);
  }

  lemma WritingComplete(img: Image, samples: seq<nat>, bits: seq<bool>, counter: nat, goOn: bool)
    requires Writing(img, samples, bits, |img.samples|, counter, goOn)
    ensures WriteBits(img, bits) == Jpeg(img.height, img.width, samples)
  {
    ScanComplete(img, counter, |bits|, goOn);
  }

  /** One coefficient of the writing loop; the coefficients ahead are still the original ones. */
  lemma WriteStep(img: Image, samples: seq<nat>, bits: seq<bool>, i: nat, counter: nat)
    requires Writing(img, samples, bits, i, counter, true) && i < |img.samples| && i % 64 != 0
    ensures |samples| == |img.samples|
    ensures if BitAnd(samples[i], 0xFFFE) != 0
            then
              && counter < |bits|
              && var v := BitOr(BitAnd(samples[i], 0xFFFE), if bits[counter] then 1 else 0);
                 Writing(img, samples[i := v], bits, i + 1, counter + 1, counter + 1 < |bits|)
            else Writing(img, samples, bits, i + 1, counter, true)
  {
    hide Bitwise;
    ScanStep(img, i);
    UnwrittenSample(img, bits, counter, i, i);
    Pow2Values();
    if img.Usable(i) { SetLowBitByMasks(samples[i], 16, bits[counter]); }
  }

  lemma NothingWritten(img: Image, bits: seq<bool>)
    requires |bits| <= |img.Channel()|
    ensures Overwrite(img.samples, img.Channel(), bits, 0) == img.samples
  {}

  lemma WriteBitmapStep(img: Image, samples: seq<nat>, bits: seq<bool>, i: nat)
    requires img.Bmp? && img.Valid() && i < |bits| <= |img.Channel()| && |bits| <= |img.samples|
    requires samples == Overwrite(img.samples, img.Channel(), bits, i)
    ensures |samples| == |img.samples|
    ensures var v := BitOr(BitAnd(samples[i], 0xFE), if bits[i] then 1 else 0);
            samples[i := v] == Overwrite(img.samples, img.Channel(), bits, i + 1)
  {
    hide Bitwise;
    BmpUsables(img, |img.samples|);
    BmpUsables(img, i);
    UnwrittenSample(img, bits, i, i, i);
    assert Pow2(8) == 256;
    SetLowBitByMasks(samples[i], 8, bits[i]);
  }

  lemma DcIsSkipped(img: Image, at: nat, counter: nat, limit: nat)
    requires img.Jpeg? && at % 64 == 0 && at + 64 <= |img.samples| && Scanning(img, at, counter, limit, true)
    ensures Scanning(img, at + 1, counter, limit, true) && counter < limit
  {
    ScanStep(img, at);
  }

  /** One coefficient of the reading loop. */
  lemma ReadStep(img: Image, buf: Bytes, bits: seq<bool>, p: Perm, i: nat, counter: nat)
    requires img.Jpeg? && i < |img.samples| && i % 64 != 0
    requires p.Valid() && Bijective(p) && p.Size() <= 8 * |buf| && p.Size() <= |img.Channel()|
    requires bits == ReadBits(img, p.Size())
    requires Scanning(img, i, counter, p.Size(), true) && Filled(buf, bits, p, counter)
    ensures if BitAnd(img.samples[i], 0xFFFE) != 0
            then
              && counter < p.Size()
              && Filled(if BitAnd(img.samples[i], 1) != 0 then WithBit(buf, p.Apply(counter)) else buf, bits, p,
                  counter + 1)
              && Scanning(img, i + 1, counter + 1, p.Size(), counter + 1 < p.Size())
            else Scanning(img, i + 1, counter, p.Size(), true)
  {
    hide Filled, WithBit, Perm.Apply, Bijective, Perm.Valid, Perm.Size, BitAnd, Image.Usables, Image.Channel;
    ScanStep(img, i);
    LowestBit(img.samples[i]);
    if img.Usable(i) { FillStep(buf, bits, p, counter); }
  }

  lemma LowestBit(v: nat)
    ensures BitAnd(v, 1) != 0 <==> v % 2 == 1
  {
    MaskIsRemainder(v, 1);
    assert Pow2(1) == 2;
  }

  /** `(b & (1 << j)) != 0` is bit j. */
  lemma MaskTestsBit(b: nat, j: nat)
    ensures BitAnd(b, Shl(1, j)) != 0 <==> Bit(b, j)
  {
    ShiftsArePowers(1, j);
    var m := BitAnd(b, Pow2(j));
    BitwiseBit(And, b, Pow2(j), j);
    PowerOfTwoBit(j, j);
    if m == 0 {
      BitOfZero(j);
    } else {
      SomeBitSet(m);
      var i: nat :| Bit(m, i);
      BitwiseBit(And, b, Pow2(j), i);
      PowerOfTwoBit(j, i);
    }
  }
}
