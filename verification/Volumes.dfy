/** All carriers together: saving the virtual storage into them and loading it back. */
module Volumes {
  import opened Spans
  import opened HammingCode
  import opened Codecs
  import opened Permutations
  import opened Carriers
  import opened Embedding
  import opened Layout

  const HASH_LENGTH: nat := 32

  /** A carrier file with its initialised local permutation. */
  datatype File = File(image: Image, perm: Perm) {
    ghost predicate Usable() {
      image.Valid() && perm.Valid() && Bijective(perm) && perm.Size() <= 8 * image.RawCapacity()
    }
  }

  datatype Volume = Volume(files: seq<File>, codec: Codec, global: Perm) {

    /** The codeword blocks that fit below the local permutation's size. */
    function BlockCount(i: nat): nat
      requires codec.Valid() && i < |files|
    {
      codec.Sizes();
      BlocksBelow(files[i].perm.Size(), codec.CodeSize())
    }

    function Capacities(): (caps: seq<nat>)
      requires codec.Valid()
      ensures |caps| == |files|
      ensures forall i | 0 <= i < |files| :: caps[i] == Span(BlockCount(i), codec.DataSize())
    {
      seq(|files|, i requires 0 <= i < |files| => Span(BlockCount(i), codec.DataSize()))
    }

    ghost predicate Valid() {
      && codec.Valid()
      && global.Valid() && Bijective(global)
      && (forall f | f in files :: f.Usable())
      && global.Size() <= Offset(Capacities(), |files|)
    }

    /** What `SetEncoder` and `AddToVirtualStorage` leave in carrier i. */
    function SetupOf(i: nat): Setup
      requires codec.Valid() && i < |files|
    {
      codec.Sizes();
      Setup(files[i].perm, codec, BlocksUsed(BytesUsed(Capacities(), global.Size(), i), codec.DataSize()))
    }

    /** The bytes carrier i takes from the storage when it is saved. */
    function Share(data: Bytes, i: nat): (d: Bytes)
      requires Valid() && i < |files| && |data| == global.Size()
      ensures |d| == SetupOf(i).DataBytes()
    {
      FetchBytes(data, global, Offset(Capacities(), i), SetupOf(i).DataBytes())
    }

    lemma SetupFits(i: nat)
      requires Valid() && i < |files|
      ensures SetupOf(i).Fits(files[i].image)
      ensures var caps := Capacities();
              var n := SetupOf(i).DataBytes();
              && BytesUsed(caps, global.Size(), i) <= n <= caps[i]
              && (BytesUsed(caps, global.Size(), i) < n ==>
                    Offset(caps, i) + BytesUsed(caps, global.Size(), i) == global.Size())
    {
      codec.Sizes();
      var caps := Capacities();
      BlocksStayInside(caps, global.Size(), i, codec.DataSize(), BlockCount(i));
      var st := SetupOf(i);
      hide Codec.CodeSize, Codec.DataSize, Codec.Valid, Perm.Size, Perm.Valid, Bijective, Offset, BytesUsed;
      BlocksFitPermutation(st.blocks, BlockCount(i), codec.CodeSize(), files[i].perm.Size());
      assert files[i] in files;
    }

    /** Whether carrier i can be loaded: a JPEG that was given no block makes loading throw, a bitmap
        is then passed over. */
    predicate LoadsAt(i: nat)
      requires codec.Valid() && i < |files|
    {
      files[i].image.Bmp? || SetupOf(i).blocks > 0
    }

    /** Whether carrier i can be saved: without a block it throws. */
    predicate SavesAt(i: nat)
      requires codec.Valid() && i < |files|
    {
      SetupOf(i).blocks > 0
    }

    /** Every carrier file saved. */
    ghost function SaveAll(data: Bytes): (v: Volume)
      requires Valid() && |data| == global.Size()
      ensures |v.files| == |files| && v.codec == codec && v.global == global
      ensures forall i | 0 <= i < |files| ::
        SetupOf(i).Fits(files[i].image) &&
        v.files[i] == File(SaveImage(files[i].image, SetupOf(i), Share(data, i)), files[i].perm)
    {
      forall i | 0 <= i < |files| ensures SetupOf(i).Fits(files[i].image) { SetupFits(i); }
      var saved := seq(|files|, i requires 0 <= i < |files| =>
        File(SaveImage(files[i].image, SetupOf(i), Share(data, i)), files[i].perm));
      Volume(saved, codec, global)
    }

    /** The storage after carrier i has been loaded into it. */
    ghost function LoadOne(data: Bytes, i: nat): (r: Bytes)
      requires Valid() && |data| == global.Size() && i < |files|
      ensures |r| == |data|
    {
      SetupFits(i);
      var d := LoadData(files[i].image, SetupOf(i));
      StoreBytes(data, global, Offset(Capacities(), i), d, |d|)
    }

    /** The storage after the first n carriers have been loaded into it, one after the other. */
    ghost function LoadFirst(data: Bytes, n: nat): (r: Bytes)
      requires Valid() && |data| == global.Size() && n <= |files|
      ensures |r| == |data|
    {
      if n == 0 then data else LoadOne(LoadFirst(data, n - 1), n - 1)
    }
  }

  lemma BlocksFitPermutation(n: nat, count: nat, w: nat, size: nat)
    requires n <= count && MostBlocks(count, size, w)
    ensures 8 * Span(n, w) <= size
  {
    SpanMonotone(n, count, w);
  }

  /** Saving keeps the layout. */
  lemma SaveKeepsLayout(v: Volume, data: Bytes)
    requires v.Valid() && |data| == v.global.Size()
    ensures var w := v.SaveAll(data);
            && w.Valid() && w.Capacities() == v.Capacities()
            && forall i: nat | i < |v.files| :: w.SetupOf(i) == v.SetupOf(i)
  {
    var w := v.SaveAll(data);
    assert v.codec.Valid() && w.codec == v.codec;
    hide Codec.Valid, Perm.Valid, Perm.Size, Image.Valid, Setup.Fits, Volume.SetupOf;
    forall i: nat | i < |v.files| ensures w.BlockCount(i) == v.BlockCount(i) && w.files[i].Usable() {
      SavedFile(v, data, i);
    }
    hide Volume.BlockCount, File.Usable, Volume.SaveAll, Bijective, Perm.Valid, Codec.Valid, Codec.DataSize, SaveImage;
    assert w.Capacities() == v.Capacities();
    assert w.Valid();
    forall i: nat | i < |v.files| ensures w.SetupOf(i) == v.SetupOf(i) {}
  }

  lemma SavedFile(v: Volume, data: Bytes, i: nat)
    requires v.Valid() && |data| == v.global.Size() && i < |v.files|
    ensures var w := v.SaveAll(data); w.BlockCount(i) == v.BlockCount(i) && w.files[i].Usable()
  {
    v.SetupFits(i);
    ReloadedBuffer(v.files[i].image, v.SetupOf(i), v.Share(data, i));
    hide Volume.Capacities, Volume.SetupOf, Volume.Share, SaveImage, LoadBuffer, SavedBuffer, Bijective, Perm.Valid;
    hide Perm.Size;
    assert v.files[i] in v.files;
    assert v.SaveAll(data).files[i].perm == v.files[i].perm;
  }

  /** Loading the carriers up to n restores every storage cell whose position lies below the offset
      of carrier n. */
  lemma {:induction false} LoadedCells(v: Volume, data: Bytes, memory: Bytes, n: nat, pos: nat)
    requires v.Valid() && |data| == |memory| == v.global.Size() && n <= |v.files|
    requires v.SaveAll(data).Valid()
    requires pos < v.global.Size() && pos < Offset(v.Capacities(), n)
    ensures v.SaveAll(data).LoadFirst(memory, n)[v.global.Apply(pos)] == data[v.global.Apply(pos)]
    decreases n
  {
    var i := n - 1;
    var d := v.Share(data, i);
    var from := Offset(v.Capacities(), i);
    LoadStep(v, data, memory, i);
    OwnShare(v, data, i, pos);
    hide Volume.SaveAll, Volume.LoadFirst, Volume.SetupOf, Volume.Capacities, Volume.Share, StoreBytes, Perm.Apply;
    StoredByte(v.SaveAll(data).LoadFirst(memory, i), v.global, from, d, |d|, pos);
    if pos < from {
      LoadedCells(v, data, memory, i, pos);
    }
  }

  /** A position below the offset of the next carrier belongs to the share of this one or of an
      earlier one. */
  lemma OwnShare(v: Volume, data: Bytes, i: nat, pos: nat)
    requires v.Valid() && |data| == v.global.Size() && i < |v.files|
    requires pos < v.global.Size() && pos < Offset(v.Capacities(), i + 1)
    ensures var from := Offset(v.Capacities(), i);
            var d := v.Share(data, i);
            from <= pos ==> pos < from + |d| && d[pos - from] == data[v.global.Apply(pos)]
  {
    v.SetupFits(i);
    RemainingIsRest(v.Capacities(), v.global.Size(), i);
  }

  /** Loading carrier i writes back exactly the share it was saved with. */
  lemma LoadStep(v: Volume, data: Bytes, memory: Bytes, i: nat)
    requires v.Valid() && |data| == |memory| == v.global.Size() && i < |v.files|
    requires v.SaveAll(data).Valid()
    ensures var w := v.SaveAll(data);
            var d := v.Share(data, i);
            w.LoadFirst(memory, i + 1)
            == StoreBytes(w.LoadFirst(memory, i), v.global, Offset(v.Capacities(), i), d, |d|)
  {
    var w := v.SaveAll(data);
    SaveKeepsLayout(v, data);
    v.SetupFits(i);
    w.SetupFits(i);
    LoadAfterSave(v.files[i].image, v.SetupOf(i), v.Share(data, i));
    hide Volume.Capacities, Volume.SetupOf, Volume.Valid, Volume.Share, SaveImage, LoadData, Setup.Fits, StoreBytes;
    hide Bijective;
    assert LoadData(w.files[i].image, w.SetupOf(i)) == v.Share(data, i);
  }

  /** End to end: whatever the fresh storage contains, loading the saved carriers into it gives the
      storage that was saved. */
  lemma LoadAfterSaveAll(v: Volume, data: Bytes, memory: Bytes)
    requires v.Valid() && |data| == |memory| == v.global.Size()
    ensures v.SaveAll(data).Valid()
    ensures v.SaveAll(data).LoadFirst(memory, |v.files|) == data
  {
    SaveKeepsLayout(v, data);
    var r := v.SaveAll(data).LoadFirst(memory, |v.files|);
    forall cell: nat | cell < |data| ensures r[cell] == data[cell] {
      assert Reached(v.global, cell);
      var pos: nat :| pos < v.global.Size() && v.global.Apply(pos) == cell;
      LoadedCells(v, data, memory, |v.files|, pos);
    }
  }

  // ---------------------------------------------------------------- the checksum

  /** A hash of fixed length; the library uses Keccak with 32 bytes. */
  ghost predicate IsHash(h: Bytes -> Bytes) {
    forall d: Bytes :: |h(d)| == HASH_LENGTH
  }

  /** `WriteChecksum`: the hash of the usable bytes stored behind them. */
  function WithChecksum(h: Bytes -> Bytes, data: Bytes): (r: Bytes)
    requires |data| >= HASH_LENGTH
  {
    data[..|data| - HASH_LENGTH] + h(data[..|data| - HASH_LENGTH])
  }

  /** `IsValidChecksum`. */
  predicate ChecksumValid(h: Bytes -> Bytes, data: Bytes)
    requires |data| >= HASH_LENGTH
  {
    data[|data| - HASH_LENGTH..] == h(data[..|data| - HASH_LENGTH])
  }

  /** Write, save, reopen, load, read: the bytes written are the bytes read, and the checksum test
      after the reload succeeds. */
  lemma SaveReopenRead(v: Volume, h: Bytes -> Bytes, before: Bytes, at: nat, content: Bytes, memory: Bytes)
    requires v.Valid() && IsHash(h) && v.global.Size() > HASH_LENGTH
    requires |before| == |memory| == v.global.Size()
    requires at + |content| <= v.global.Size() - HASH_LENGTH
    ensures var saved := WithChecksum(h, Splice(before, at, content));
            && |saved| == v.global.Size() && v.SaveAll(saved).Valid()
            && var loaded := v.SaveAll(saved).LoadFirst(memory, |v.files|);
               && |loaded| == v.global.Size()
               && loaded[at..at + |content|] == content
               && ChecksumValid(h, loaded)
  {
    var saved := WithChecksum(h, Splice(before, at, content));
    SavedContent(h, before, at, content);
    LoadAfterSaveAll(v, saved, memory);
  }

  lemma SavedContent(h: Bytes -> Bytes, before: Bytes, at: nat, content: Bytes)
    requires IsHash(h) && at + |content| + HASH_LENGTH <= |before|
    ensures var saved := WithChecksum(h, Splice(before, at, content));
            && |saved| == |before| && saved[at..at + |content|] == content && ChecksumValid(h, saved)
  {
    var written := Splice(before, at, content);
    var saved := WithChecksum(h, written);
    var u := |written| - HASH_LENGTH;
    assert |h(written[..u])| == HASH_LENGTH;
    SpliceSlices(before, at, content, 0, 0);
    assert saved[..u] == written[..u] && saved[u..] == h(written[..u]);
    assert saved[at..at + |content|] == saved[..u][at..at + |content|] == written[at..at + |content|];
  }

  /** A second save with no write in between leaves every carrier as it is. */
  lemma SaveIsIdempotent(v: Volume, h: Bytes -> Bytes, data: Bytes)
    requires v.Valid() && IsHash(h) && |data| == v.global.Size() >= HASH_LENGTH
    ensures var saved := WithChecksum(h, data);
            && |saved| == |data| && WithChecksum(h, saved) == saved
            && v.SaveAll(saved).Valid()
            && v.SaveAll(saved).SaveAll(WithChecksum(h, saved)) == v.SaveAll(saved)
  {
    ChecksumAgain(h, data);
    hide Volume.Valid, Volume.SaveAll, WithChecksum, Perm.Size;
    SaveAllAgain(v, WithChecksum(h, data));
  }

  lemma ChecksumAgain(h: Bytes -> Bytes, data: Bytes)
    requires IsHash(h) && |data| >= HASH_LENGTH
    ensures var saved := WithChecksum(h, data); |saved| == |data| && WithChecksum(h, saved) == saved
  {
    var saved := WithChecksum(h, data);
    var u := |data| - HASH_LENGTH;
    assert |h(data[..u])| == HASH_LENGTH;
    assert saved[..u] == data[..u];
  }

  lemma SaveAllAgain(v: Volume, data: Bytes)
    requires v.Valid() && |data| == v.global.Size()
    ensures v.SaveAll(data).Valid() && v.SaveAll(data).SaveAll(data) == v.SaveAll(data)
  {
    hide *;
    var w := v.SaveAll(data);
    SaveKeepsLayout(v, data);
    var x := w.SaveAll(data);
    forall i: nat | i < |v.files| ensures x.files[i] == w.files[i] {
      SaveOneAgain(v, data, i);
    }
    assert x.files == w.files;
  }

  lemma SaveOneAgain(v: Volume, data: Bytes, i: nat)
    requires v.Valid() && |data| == v.global.Size() && i < |v.files|
    requires v.SaveAll(data).Valid()
    ensures v.SaveAll(data).SaveAll(data).files[i] == v.SaveAll(data).files[i]
  {
    var w := v.SaveAll(data);
    SaveKeepsLayout(v, data);
    v.SetupFits(i);
    SaveAgain(v.files[i].image, v.SetupOf(i), v.Share(data, i));
    hide Volume.Valid, Volume.SetupOf, SaveImage, Setup.Fits, Volume.Capacities, Setup.DataBytes;
    assert w.Share(data, i) == v.Share(data, i);
  }
}
