/** A whole session over carrier files: open them, write into the storage, save, open the same files
    again with the same keys, and read. */
module Sessions {
  import opened Bits
  import opened Spans
  import opened StegoMath
  import opened Outcomes
  import opened HammingCode
  import opened Codecs
  import opened Permutations
  import opened PermutationObjects
  import opened Carriers
  import opened Embedding
  import opened Layout
  import opened Volumes
  import opened Encoders
  import opened VirtualStorage
  import opened CarrierFile
  import opened CarrierFilesManager

  /** What the password, the names of the files and the configuration determine. */
  datatype Recipe = Recipe(kinds: LocalKinds, keys: seq<Key>, rand: Randomness,
                           globalKind: Kind, masterKey: Key, globalRand: nat -> nat, noKey: Key)

  /** A key for every carrier, and every carrier has capacity and less than 2^32 samples. */
  ghost predicate Suits(images: seq<Image>, r: Recipe) {
    && |images| == |r.keys| < 0x8000_0000
    && forall i | 0 <= i < |images| ::
         images[i].Valid() && |images[i].samples| <= MAX_AFFINE_SIZE && images[i].RawCapacity() > 0
  }

  // ---------------------------------------------------------------- opening, as a function of the files

  ghost function SizeOf(images: seq<Image>, r: Recipe, i: nat): Result<nat>
    requires Suits(images, r) && i < |images|
  {
    SizeResult(r.kinds.For(images[i]), 8 * images[i].RawCapacity(), r.keys[i], r.rand(i))
  }

  ghost function PermOf(images: seq<Image>, r: Recipe, i: nat): Result<Perm>
    requires Suits(images, r) && i < |images|
  {
    InitResult(r.kinds.For(images[i]), 8 * images[i].RawCapacity(), r.keys[i], r.rand(i))
  }

  ghost predicate AllSized(images: seq<Image>, r: Recipe)
    requires Suits(images, r)
  {
    forall i: nat | i < |images| :: SizeOf(images, r, i).Ok?
  }

  ghost predicate AllPermuted(images: seq<Image>, r: Recipe)
    requires Suits(images, r)
  {
    forall i: nat | i < |images| :: PermOf(images, r, i).Ok?
  }

  ghost function CapacityOf(images: seq<Image>, r: Recipe, codec: Codec, i: nat): nat
    requires Suits(images, r) && i < |images| && codec.Valid() && SizeOf(images, r, i).Ok?
  {
    codec.Sizes();
    Span(BlocksBelow(SizeOf(images, r, i).value, codec.CodeSize()), codec.DataSize())
  }

  ghost function AllCapacities(images: seq<Image>, r: Recipe, codec: Codec): (caps: seq<nat>)
    requires Suits(images, r) && codec.Valid() && AllSized(images, r)
    ensures |caps| == |images| && forall i: nat | i < |images| :: caps[i] == CapacityOf(images, r, codec, i)
  {
    hide CapacityOf, SizeOf, Codec.Valid;
    seq(|images|, i requires 0 <= i < |images| && SizeOf(images, r, i).Ok? => CapacityOf(images, r, codec, i))
  }

  ghost function Total(images: seq<Image>, r: Recipe, codec: Codec): nat
    requires Suits(images, r) && codec.Valid() && AllSized(images, r)
  {
    Offset(AllCapacities(images, r, codec), |images|)
  }

  ghost function GlobalOf(images: seq<Image>, r: Recipe, codec: Codec): Result<Perm>
    requires Suits(images, r) && codec.Valid() && AllSized(images, r)
  {
    InitResult(r.globalKind, Total(images, r, codec), r.masterKey, r.globalRand)
  }

  ghost function VolumeFor(images: seq<Image>, r: Recipe, codec: Codec, g: Perm): (v: Volume)
    requires Suits(images, r) && AllPermuted(images, r)
    ensures |v.files| == |images| && v.codec == codec && v.global == g
    ensures forall i: nat | i < |images| :: v.files[i] == File(images[i], PermOf(images, r, i).value)
  {
    hide PermOf;
    var files := seq(|images|, i requires 0 <= i < |images| && PermOf(images, r, i).Ok? =>
      File(images[i], PermOf(images, r, i).value));
    Volume(files, codec, g)
  }

  /** Opening succeeds: every permutation can be initialised, there is room for more than a checksum,
      and every carrier can be loaded. */
  ghost predicate CanOpen(images: seq<Image>, r: Recipe, codec: Codec)
    requires Suits(images, r) && codec.Valid()
  {
    && images != [] && AllSized(images, r) && Total(images, r, codec) > 0
    && GlobalOf(images, r, codec).Ok? && GlobalOf(images, r, codec).value.Size() > HASH_LENGTH
    && AllPermuted(images, r) && AllLoadable(VolumeFor(images, r, codec, GlobalOf(images, r, codec).value))
  }

  ghost function Opening(images: seq<Image>, r: Recipe, codec: Codec): Volume
    requires Suits(images, r) && codec.Valid() && CanOpen(images, r, codec)
  {
    VolumeFor(images, r, codec, GlobalOf(images, r, codec).value)
  }

  // ---------------------------------------------------------------- capacities are small

  lemma {:induction false} NarrowerSpan(n: nat, a: nat, b: nat, f: nat)
    requires a <= f * b
    ensures Span(n, a) <= f * Span(n, b)
  {
    if n > 0 { NarrowerSpan(n - 1, a, b, f); }
  }

  /** No encoder makes data larger. */
  lemma DataFitsCode(c: Codec)
    requires c.Valid()
    ensures 0 < c.DataSize() <= c.CodeSize()
  {
    c.Sizes();
    if c.Hamming? {
      var s := c.shape;
      PowersAreLarge(s.parityBits);
      NarrowerSpan(s.codewords, s.parityBits, s.codewordBytes, 8);
    }
  }

  lemma {:induction false} PowersAreLarge(k: nat)
    ensures k < Pow2(k)
  {
    if k > 0 { PowersAreLarge(k - 1); }
  }

  lemma CapacityAtMostRaw(images: seq<Image>, r: Recipe, codec: Codec, i: nat)
    requires Suits(images, r) && i < |images| && codec.Valid() && SizeOf(images, r, i).Ok?
    ensures CapacityOf(images, r, codec, i) <= images[i].RawCapacity() < 0x2000_0000
  {
    hide SizeResult, Codec.Valid, Codec.CodeSize, Codec.DataSize, Image.Valid;
    var size := SizeOf(images, r, i).value;
    SizeResultAtMost(r.kinds.For(images[i]), 8 * images[i].RawCapacity(), r.keys[i], r.rand(i));
    DataFitsCode(codec);
    var n := BlocksBelow(size, codec.CodeSize());
    NarrowerSpan(n, codec.DataSize(), codec.CodeSize(), 1);
    PositionSplits(size / 8, codec.CodeSize());
  }

  lemma {:induction false} OffsetAtMost(caps: seq<nat>, n: nat, w: nat)
    requires n <= |caps| && forall i: nat | i < |caps| :: caps[i] <= w
    ensures Offset(caps, n) <= Span(n, w)
  {
    if n > 0 { OffsetAtMost(caps, n - 1, w); }
  }

  lemma TotalBounded(images: seq<Image>, r: Recipe, codec: Codec)
    requires Suits(images, r) && codec.Valid() && AllSized(images, r)
    ensures Total(images, r, codec) < Pow2(60)
  {
    hide SizeOf, CapacityOf, Codec.Valid, Image.RawCapacity, Image.Valid, Offset, Span;
    var caps := AllCapacities(images, r, codec);
    forall i: nat | i < |caps| ensures caps[i] <= 0x2000_0000 { CapacityAtMostRaw(images, r, codec, i); }
    OffsetAtMost(caps, |images|, 0x2000_0000);
    SpanMonotone(|images|, 0x7FFF_FFFF, 0x2000_0000);
    SpanIsProduct(0x7FFF_FFFF, 0x2000_0000);
    PowerSixty();
  }

  // ---------------------------------------------------------------- opening, on objects

  /** The manager's carriers are those of the files, none of them loaded; e is the encoder. */
  ghost predicate Listed(m: CarrierFilesManager, files: seq<ImageFile>, r: Recipe, e: EncoderPtr)
    reads m`carrierFiles, m`encoder, m.carrierFiles`rawCapacity, m.carrierFiles`fileLoaded, files
    reads set c | c in m.carrierFiles :: c.file, set c | c in m.carrierFiles :: c.permutation.Target()
  {
    && m.encoder == Some(e) && |m.carrierFiles| == |files|
    && Distinct(m.carrierFiles, {m, e.Target()})
    && forall i | 0 <= i < |files| :: ListedAt(m.carrierFiles[i], files[i], r.kinds.For(files[i].content))
  }

  ghost predicate ListedAt(c: CarrierFile, f: ImageFile, kind: Kind)
    reads c`rawCapacity, c`fileLoaded, c.file, c.permutation.Target()
  {
    c.file == f && c.Valid() && c.permutation.Size() == 0 && c.permutation.Kind() == kind && !c.fileLoaded
  }

  lemma ListedFromFresh(c: CarrierFile, f: ImageFile, kind: Kind)
    requires FreshlyOpened(c, f, kind)
    ensures ListedAt(c, f, kind) && c.Valid()
  {
    hide CarrierFile.Valid, PermutationPtr.Size;
  }

  // Objects of different classes are different objects.

  lemma Apart(c: CarrierFile, d: CarrierFile, f: ImageFile, e: EncoderPtr, m: CarrierFilesManager)
    ensures c as object != f && c as object != m && c as object != e.Target() && c as object != c.permutation.Target()
    ensures c as object != d.file && c as object != d.permutation.Target() && c.file as object != d.permutation.Target()
    ensures f as object != m && f as object != e.Target() && f as object != c.permutation.Target()
    ensures c.file as object != m && c.file as object != e.Target()
    ensures c.permutation.Target() != m && c.permutation.Target() != e.Target() && m as object != e.Target()
  {}

  lemma StorageApart(s: VirtualStorage, c: CarrierFile, f: ImageFile, e: EncoderPtr, m: CarrierFilesManager)
    ensures c as object != s && c.file as object != s && c.permutation.Target() != s && f as object != s
    ensures c as object != s.permutation.Target() && c.file as object != s.permutation.Target()
    ensures f as object != s.permutation.Target() && m as object != s && m as object != s.permutation.Target()
    ensures e.Target() != s && e.Target() != s.permutation.Target()
  {}

  lemma EncoderApart(e: EncoderPtr, m: CarrierFilesManager?, s: VirtualStorage?, f: ImageFile?)
    ensures m != null ==> e.Target() != m
    ensures s != null ==> e.Target() != s && e.Target() != s.permutation.Target()
    ensures m != null && s != null ==> m as object != s.permutation.Target()
    ensures f != null ==> e.Target() != f
  {}

  lemma NewAreDistinct(cs: seq<CarrierFile>, m: CarrierFilesManager, e: EncoderPtr)
    requires forall i, j | 0 <= i < j < |cs| ::
      cs[i] != cs[j] && cs[i].file != cs[j].file && cs[i].permutation.Target() != cs[j].permutation.Target()
    ensures Distinct(cs, {m, e.Target()}) && Distinct(cs, {m})
  {
    hide PermutationPtr.Target, EncoderPtr.Target;
    forall i, j | 0 <= i < j < |cs| ensures Own(cs[i]) !! Own(cs[j]) {
      Apart(cs[i], cs[j], cs[i].file, e, m);
      Apart(cs[j], cs[i], cs[j].file, e, m);
    }
    forall i | 0 <= i < |cs| ensures Own(cs[i]) !! {m, e.Target()} {
      Apart(cs[i], cs[i], cs[i].file, e, m);
    }
  }

  /** Files that can be opened as a directory: no two are the same, and those with capacity suit the keys. */
  ghost predicate Directory(files: seq<ImageFile>, r: Recipe)
    reads files
  {
    && (forall f | f in files :: f.content.Valid() && |f.content.samples| <= MAX_AFFINE_SIZE)
    && NoRepeats(files) && Suits(Contents(KeptFiles(files)), r)
  }

  lemma DirectoryFacts(files: seq<ImageFile>, r: Recipe)
    requires Directory(files, r)
    ensures forall f | f in files :: f.content.Valid() && |f.content.samples| <= MAX_AFFINE_SIZE
    ensures Suits(Contents(KeptFiles(files)), r)
    ensures NoRepeats(KeptFiles(files))
  {
    hide Image.Valid, Suits, KeptIn;
    KeptAreDistinct(files, Contents(files));
    KeptFilesAre(files);
  }

  /** A new manager over the files with capacity, with the encoder set. */
  method List(files: seq<ImageFile>, r: Recipe, e: EncoderPtr) returns (m: CarrierFilesManager)
    requires Directory(files, r)
    ensures fresh(m) && Listed(m, KeptFiles(files), r, e) && m.virtualStorage == null && !m.isActiveEncoder
    ensures forall c | c in m.carrierFiles :: fresh(c) && fresh(c.permutation.Target()) && c.Valid()
    ensures forall i | 0 <= i < |m.carrierFiles| :: fresh(m.carrierFiles[i])
  {
    hide *;
    m := new CarrierFilesManager();
    DirectoryFacts(files, r);
    ghost var kept := KeptFiles(files);
    m.LoadDirectory(files, r.kinds, r.noKey);
    NewCarriers(m.carrierFiles, kept, r.kinds, m, e);
    ManagerIsValid(m);
    assert forall c | c in m.carrierFiles :: allocated(c.permutation.Target());
    label Loaded:
    m.SetEncoder(e, r.globalRand);
    forall i | 0 <= i < |kept| ensures ListedAt(m.carrierFiles[i], kept[i], r.kinds.For(kept[i].content)) {
      assert m.carrierFiles[i] in m.carrierFiles;
      forall j | 0 <= j < |m.carrierFiles|
        ensures m.carrierFiles[j] as object != m.carrierFiles[i].file
        ensures m.carrierFiles[j] as object != m.carrierFiles[i].permutation.Target()
      {
        assert m.carrierFiles[j] in m.carrierFiles;
      }
      assert old@Loaded(ListedAt(m.carrierFiles[i], kept[i], r.kinds.For(kept[i].content)));
      assert old@Loaded(kept[i].content) == kept[i].content;
    }
    NowListed(m, kept, r, e);
    ListedFacts(m, kept, r, e);
  }

  /** Carriers over different files, each with a permutation of its own, are listed and do not overlap. */
  lemma NewCarriers(cs: seq<CarrierFile>, kept: seq<ImageFile>, kinds: LocalKinds, m: CarrierFilesManager,
      e: EncoderPtr)
    requires |cs| == |kept| && NoRepeats(kept)
    requires forall i | 0 <= i < |cs| :: FreshlyOpened(cs[i], kept[i], kinds.For(kept[i].content))
    requires forall i, j | 0 <= i < j < |cs| ::
      cs[i] != cs[j] && cs[i].permutation.Target() != cs[j].permutation.Target()
    ensures Distinct(cs, {m, e.Target()}) && Distinct(cs, {m})
    ensures forall i | 0 <= i < |cs| ::
      ListedAt(cs[i], kept[i], kinds.For(kept[i].content)) && cs[i].file == kept[i]
    ensures forall c | c in cs :: c.Valid() && c.permutation.Target() != m && c.file as object != m
    ensures forall c: CarrierFile, d: CarrierFile | c in cs && d in cs ::
      c as object != d.permutation.Target() && c as object != d.file
  {
    hide *;
    forall i | 0 <= i < |cs|
      ensures ListedAt(cs[i], kept[i], kinds.For(kept[i].content)) && cs[i].file == kept[i] && cs[i].Valid()
    {
      ListedFromFresh(cs[i], kept[i], kinds.For(kept[i].content));
      FileOf(cs[i], kept[i], kinds.For(kept[i].content));
    }
    forall i, j | 0 <= i < j < |cs| ensures cs[i].file != cs[j].file { TwoFiles(kept, i, j); }
    NewAreDistinct(cs, m, e);
    forall c: CarrierFile, d: CarrierFile | c in cs && d in cs
      ensures c as object != d.permutation.Target() && c as object != d.file
      ensures c.permutation.Target() != m && c.file as object != m
    {
      Apart(c, d, c.file, e, m);
    }
  }

  lemma TwoFiles(files: seq<ImageFile>, i: nat, j: nat)
    requires NoRepeats(files) && i < j < |files|
    ensures files[i] != files[j]
  {}

  lemma FilesSuit(files: seq<ImageFile>, r: Recipe)
    requires Suits(Contents(files), r)
    ensures |r.keys| == |files|
    ensures forall f | f in files :: f.content.Valid() && |f.content.samples| <= MAX_AFFINE_SIZE
  {
    hide Image.Valid;
    forall f | f in files ensures f.content.Valid() && |f.content.samples| <= MAX_AFFINE_SIZE {
      var i :| 0 <= i < |files| && files[i] == f;
      assert Contents(files)[i] == f.content;
    }
  }

  lemma FileOf(c: CarrierFile, f: ImageFile, kind: Kind)
    requires ListedAt(c, f, kind)
    ensures c.file == f
  {}

  lemma ManagerIsValid(m: CarrierFilesManager)
    requires Distinct(m.carrierFiles, m.Others()) || (m.encoder == None && Distinct(m.carrierFiles, {m}))
    requires m.encoder.Some? ==> m.encoder.value.Valid()
    requires forall c | c in m.carrierFiles :: c.Valid()
    ensures m.Valid()
  {
    hide Distinct, CarrierFile.Valid, EncoderPtr.Valid;
    if m.encoder == None { assert m.Others() == {m}; }
  }

  lemma NowListed(m: CarrierFilesManager, files: seq<ImageFile>, r: Recipe, e: EncoderPtr)
    requires m.encoder == Some(e) && |m.carrierFiles| == |files| &&
        Distinct(m.carrierFiles, {m, e.Target()})
    requires forall i | 0 <= i < |files| :: ListedAt(m.carrierFiles[i], files[i], r.kinds.For(files[i].content))
    ensures Listed(m, files, r, e)
  {
    hide Distinct, ListedAt;
  }

  lemma ListedFacts(m: CarrierFilesManager, files: seq<ImageFile>, r: Recipe, e: EncoderPtr)
    requires Listed(m, files, r, e)
    ensures m.encoder == Some(e) && |m.carrierFiles| == |files|
    ensures Distinct(m.carrierFiles, {m, e.Target()}) && m.Others() == {m, e.Target()}
    ensures forall i | 0 <= i < |files| ::
              && ListedAt(m.carrierFiles[i], files[i], r.kinds.For(files[i].content)) &&
                  m.carrierFiles[i].file == files[i]
              && m.carrierFiles[i].Valid() && m.carrierFiles[i].permutation.Size() == 0
              && m.carrierFiles[i].permutation.Kind() == r.kinds.For(files[i].content) && !m.carrierFiles[i].fileLoaded
              && m.carrierFiles[i].rawCapacity == files[i].content.RawCapacity()
              && 8 * m.carrierFiles[i].rawCapacity <= MAX_AFFINE_SIZE
  {
    hide Distinct, PermutationPtr.Valid, PermutationPtr.Size, PermutationPtr.Kind, Image.RawCapacity, Image.Valid;
  }

  /** The encoder is applied exactly when every size is known, and some capacity results. */
  method Apply(m: CarrierFilesManager, ghost files: seq<ImageFile>, r: Recipe, e: EncoderPtr) returns (status: Status)
    requires Listed(m, files, r, e) && Suits(Contents(files), r) && e.Valid() && e.Codec().Valid()
    modifies m`capacity, m`isActiveEncoder, m.carrierFiles`subkey
    modifies m.carrierFiles`encoder, m.carrierFiles`dataBlockSize, m.carrierFiles`codewordBlockSize
    modifies m.carrierFiles`blockCount, m.carrierFiles`capacity
    ensures Listed(m, files, r, e) && e.Valid() && e.Codec() == old(e.Codec()) &&
        Contents(files) == old(Contents(files))
    ensures status == Done <==>
              files != [] && AllSized(Contents(files), r) && Total(Contents(files), r, e.Codec()) > 0
    ensures status == Done ==>
              && m.isActiveEncoder && m.capacity == Total(Contents(files), r, e.Codec())
              && m.AllEncoded(m.capacity, r.rand)
              && forall i | 0 <= i < |files| && i < |r.keys| :: m.carrierFiles[i].subkey == r.keys[i]
  {
    hide *;
    ListedFacts(m, files, r, e);
    FilesSuit(files, r);
    forall c | c in m.carrierFiles
      ensures c.Valid() && c as object != e.Target() && c.permutation.Target() != m && c.file as object != m
    {
      var i :| 0 <= i < |files| && m.carrierFiles[i] == c;
      Apart(c, c, c.file, e, m);
    }
    forall c: CarrierFile, d: CarrierFile | c in m.carrierFiles && d in m.carrierFiles
      ensures c as object != d.permutation.Target() && c as object != d.file && allocated(d.permutation.Target())
    {
      Apart(c, d, c.file, e, m);
    }
    assert allocated(e.Target());
    EncoderApart(e, m, null, null);
    forall f, c | f in files && c in m.carrierFiles ensures c as object != f && f as object != m {
      Apart(c, c, f, e, m);
    }
    ManagerIsValid(m);
    ghost var images := Contents(files);
    status := m.ApplyEncoder(r.keys, r.rand);
    forall i | 0 <= i < |files| ensures files[i].content == images[i] { assert files[i] in files; }
    assert Contents(files) == images;
    forall i | 0 <= i < |files| ensures ListedAt(m.carrierFiles[i], files[i], r.kinds.For(files[i].content)) {
      assert m.carrierFiles[i] in m.carrierFiles;
      forall j | 0 <= j < |m.carrierFiles|
        ensures m.carrierFiles[j] as object != m.carrierFiles[i].file
        ensures m.carrierFiles[j] as object != m.carrierFiles[i].permutation.Target()
      {
        assert m.carrierFiles[j] in m.carrierFiles;
      }
      assert old(ListedAt(m.carrierFiles[i], files[i], r.kinds.For(files[i].content)));
      assert old(files[i].content) == files[i].content;
    }
    NowListed(m, files, r, e);
    SizesAgree(m, files, r, e);
    if m.SizesKnown(r.keys, r.rand) && files != [] {
      TotalMatches(m, files, r, e, if status == Done then m.capacity else 0);
    }
  }

  lemma SizesAgree(m: CarrierFilesManager, files: seq<ImageFile>, r: Recipe, e: EncoderPtr)
    requires Listed(m, files, r, e) && Suits(Contents(files), r) && |r.keys| == |m.carrierFiles|
    ensures m.SizesKnown(r.keys, r.rand) <==> AllSized(Contents(files), r)
  {
    ListedFacts(m, files, r, e);
    hide Listed, ListedAt, SizeResult, Image.RawCapacity, Image.Valid, CarrierFile.Valid, Distinct;
    var images := Contents(files);
    forall i: nat | i < |files|
      ensures SizeOf(images, r, i)
           == SizeResult(m.carrierFiles[i].permutation.Kind(), 8 * m.carrierFiles[i].rawCapacity, r.keys[i], r.rand(i))
    {}
  }

  lemma TotalMatches(m: CarrierFilesManager, files: seq<ImageFile>, r: Recipe, e: EncoderPtr, total: nat)
    requires Listed(m, files, r, e) && Suits(Contents(files), r) && e.Valid() && e.Codec().Valid()
    requires m.AllEncoded(total, r.rand) && AllSized(Contents(files), r)
    requires |r.keys| == |files| && forall i | 0 <= i < |files| :: m.carrierFiles[i].subkey == r.keys[i]
    ensures total == Total(Contents(files), r, e.Codec())
  {
    hide *;
    ListedFacts(m, files, r, e);
    var images, codec := Contents(files), e.Codec();
    var caps := AllCapacities(images, r, codec);
    forall i: nat | i < |files| ensures CapacitiesOf(m.carrierFiles)[i] == caps[i] {
      EncodedAt(m, e, total, r.rand, i);
      SizedAt(images, r, i);
      SameCapacity(m.carrierFiles[i], e, images, r, i);
    }
    assert CapacitiesOf(m.carrierFiles) == caps;
    TotalIs(m, e, total, r.rand);
    TotalFor(images, r, codec);
  }

  lemma EncodedAt(m: CarrierFilesManager, e: EncoderPtr, total: nat, rand: Randomness, i: nat)
    requires m.AllEncoded(total, rand) && m.encoder == Some(e) && i < |m.carrierFiles|
    ensures Encoded(m.carrierFiles[i], e, rand(i))
  {
    hide Encoded, Distinct, Offset, CapacitiesOf;
  }

  lemma SizedAt(images: seq<Image>, r: Recipe, i: nat)
    requires Suits(images, r) && AllSized(images, r) && i < |images|
    ensures SizeOf(images, r, i).Ok?
  {}

  lemma TotalIs(m: CarrierFilesManager, e: EncoderPtr, total: nat, rand: Randomness)
    requires m.AllEncoded(total, rand)
    ensures total == Offset(CapacitiesOf(m.carrierFiles), |m.carrierFiles|)
  {}

  lemma TotalFor(images: seq<Image>, r: Recipe, codec: Codec)
    requires Suits(images, r) && codec.Valid() && AllSized(images, r)
    ensures Total(images, r, codec) == Offset(AllCapacities(images, r, codec), |images|)
  {}

  lemma SameCapacity(c: CarrierFile, e: EncoderPtr, images: seq<Image>, r: Recipe, i: nat)
    requires Encoded(c, e, r.rand(i)) && Suits(images, r) && i < |images| && e.Codec().Valid() &&
        SizeOf(images, r, i).Ok?
    requires c.permutation.Kind() == r.kinds.For(images[i]) && c.subkey == r.keys[i] &&
        c.rawCapacity == images[i].RawCapacity()
    ensures c.capacity == CapacityOf(images, r, e.Codec(), i)
  {
    AnnouncedIs(SizeResult(c.permutation.Kind(), 8 * c.rawCapacity, c.subkey, r.rand(i)), c.codewordBlockSize,
                c.dataBlockSize, c.capacity);
    hide SizeResult, Codec.Valid, Codec.CodeSize, Codec.DataSize, Image.RawCapacity, EncoderPtr.Valid;
    hide EncoderPtr.Codec, CarrierFile.Valid, Span, Announced, BlocksBelow;
  }

  /** The manager has opened the volume, and its carriers are those of the files. */
  ghost predicate Opened(m: CarrierFilesManager, files: seq<ImageFile>, r: Recipe, v: Volume)
    reads m, if m.virtualStorage == null then {} else {m.virtualStorage, m.virtualStorage.permutation.Target()}
    reads m.carrierFiles, set c | c in m.carrierFiles :: c.file, set c | c in m.carrierFiles :: c.permutation.Target()
    reads if m.encoder.Some? then {m.encoder.value.Target()} else {}
  {
    && |m.carrierFiles| == |files| && (forall i | 0 <= i < |files| :: m.carrierFiles[i].file == files[i])
    && m.Opened(v, r.rand)
  }

  lemma OpensOrNot(images: seq<Image>, r: Recipe, codec: Codec)
    requires Suits(images, r) && codec.Valid()
    ensures CanOpen(images, r, codec) <==>
              && images != [] && AllSized(images, r) && Total(images, r, codec) > 0
              && GlobalOf(images, r, codec).Ok? && GlobalOf(images, r, codec).value.Size() > HASH_LENGTH
              && AllPermuted(images, r) && AllLoadable(VolumeFor(images, r, codec, GlobalOf(images, r, codec).value))
    ensures CanOpen(images, r, codec) ==>
              Opening(images, r, codec) == VolumeFor(images, r, codec, GlobalOf(images, r, codec).value)
    ensures AllSized(images, r) ==>
              GlobalOf(images, r, codec) == InitResult(r.globalKind, Total(images, r, codec), r.masterKey, r.globalRand)
  {
    hide AllSized, AllPermuted, AllLoadable, InitResult, Perm.Size, Total, Suits;
  }

  lemma CanLoadNow(m: CarrierFilesManager, files: seq<ImageFile>, r: Recipe, e: EncoderPtr, s: VirtualStorage)
    requires Listed(m, files, r, e) && m.AllEncoded(m.capacity, r.rand) && e.Valid() && s.Valid()
    requires forall c | c in m.carrierFiles :: c.permutation.Target() != s.permutation.Target()
    ensures m.CanLoad(s, r.rand)
  {
    hide *;
    ListedFacts(m, files, r, e);
    EncoderApart(e, m, s, null);
    forall i: nat | i < |m.carrierFiles| ensures Unopened(m.carrierFiles[i], e, r.rand(i)) {
      EncodedAt(m, e, m.capacity, r.rand, i);
      NewIsUnopened(m.carrierFiles[i], e, r.rand(i));
    }
    forall c | c in m.carrierFiles ensures s !in Own(c) && s.permutation.Target() !in Own(c) {
      StorageApart(s, c, c.file, e, m);
      NotOwn(c, s);
      NotOwn(c, s.permutation.Target());
    }
    MoreOthers(m.carrierFiles, {m, e.Target()}, {s, s.permutation.Target()});
    assert {m, e.Target()} + {s, s.permutation.Target()} == {m, e.Target(), s, s.permutation.Target()};
    LoadsNow(m, e, s, r.rand);
  }

  lemma NewIsUnopened(c: CarrierFile, e: EncoderPtr, rand: nat -> nat)
    requires Encoded(c, e, rand) && c.permutation.Size() == 0 && !c.fileLoaded
    ensures Unopened(c, e, rand)
  {
    hide Encoded;
  }

  lemma MoreOthers(cs: seq<CarrierFile>, others: set<object>, more: set<object>)
    requires Distinct(cs, others) && forall c, o | c in cs && o in more :: o !in Own(c)
    ensures Distinct(cs, others + more)
  {
    hide Own;
    forall i | 0 <= i < |cs| ensures Own(cs[i]) !! (others + more) {
      assert cs[i] in cs && Own(cs[i]) !! others;
    }
  }

  lemma LoadsNow(m: CarrierFilesManager, e: EncoderPtr, s: VirtualStorage, rand: Randomness)
    requires m.encoder == Some(e) && e.Valid() && s.Valid() && m.AllEncoded(m.capacity, rand)
    requires Distinct(m.carrierFiles, {m, e.Target(), s, s.permutation.Target()})
    requires e.Target() != s && e.Target() != s.permutation.Target() && e.Target() != m &&
        m as object != s.permutation.Target()
    requires forall i: nat | i < |m.carrierFiles| :: Unopened(m.carrierFiles[i], e, rand(i))
    ensures m.CanLoad(s, rand)
  {
    hide Distinct, Unopened, EncoderPtr.Valid, VirtualStorage.Valid, CarrierFilesManager.AllEncoded;
  }

  /** The volume the new carriers are going to make up. */
  lemma PlanIs(m: CarrierFilesManager, files: seq<ImageFile>, r: Recipe, e: EncoderPtr, g: Perm)
    requires Listed(m, files, r, e) && Suits(Contents(files), r)
    requires |r.keys| == |files| && forall i | 0 <= i < |files| :: m.carrierFiles[i].subkey == r.keys[i]
    ensures m.PlanFor(r.rand, g).Some? <==> AllPermuted(Contents(files), r)
    ensures AllPermuted(Contents(files), r) ==>
              m.PlanFor(r.rand, g) == Some(VolumeFor(Contents(files), r, e.Codec(), g))
  {
    hide *;
    ListedFacts(m, files, r, e);
    var images, cs := Contents(files), m.carrierFiles;
    forall i: nat | i < |files| ensures cs[i].LocalPerm(r.rand(i)) == PermOf(images, r, i) {
      NewPerm(cs[i], images, r, i);
    }
    OpensWhenPermuted(cs, images, r);
    if AllPermuted(images, r) {
      var v, w := VolumeOf(cs, r.rand, e.Codec(), g), VolumeFor(images, r, e.Codec(), g);
      assert v.files == w.files;
      assert v == w;
    }
  }

  lemma NewPerm(c: CarrierFile, images: seq<Image>, r: Recipe, i: nat)
    requires Suits(images, r) && i < |images| && c.permutation.Size() == 0 &&
        c.permutation.Kind() == r.kinds.For(images[i])
    requires c.subkey == r.keys[i] && c.rawCapacity == images[i].RawCapacity()
    ensures c.LocalPerm(r.rand(i)) == PermOf(images, r, i)
  {
    hide InitResult, Image.RawCapacity, Suits;
  }

  lemma OpensWhenPermuted(cs: seq<CarrierFile>, images: seq<Image>, r: Recipe)
    requires Suits(images, r) && |cs| == |images|
    requires forall i: nat | i < |images| :: cs[i].LocalPerm(r.rand(i)) == PermOf(images, r, i)
    ensures Opens(cs, r.rand) <==> AllPermuted(images, r)
  {
    hide CarrierFile.LocalPerm, PermOf, Suits;
  }

  lemma OpenedWith(m: CarrierFilesManager, files: seq<ImageFile>, r: Recipe, v: Volume, memory: Bytes, before: Bytes,
                   h: Bytes -> Bytes, ok: bool)
    requires m.LoadedAll(v, r.rand, memory, before, h, ok)
    requires |m.carrierFiles| == |files| && forall i | 0 <= i < |files| :: m.carrierFiles[i].file == files[i]
    ensures Opened(m, files, r, v)
  {
    hide CarrierFilesManager.Opened;
  }

  /** What a buffer contains before anything is written into it. */
  function Garbage(n: nat, garbage: nat -> byte): (b: Bytes)
    ensures |b| == n
  {
    seq<byte>(n, i requires 0 <= i < n => garbage(i))
  }

  /** Every size is known, and the carriers have this capacity together. */
  ghost predicate HasCapacity(images: seq<Image>, r: Recipe, codec: Codec, capacity: nat)
    requires codec.Valid()
  {
    Suits(images, r) && AllSized(images, r) && capacity == Total(images, r, codec) > 0
  }

  /** Everything is ready for loading into the storage s. */
  ghost predicate Prepared(m: CarrierFilesManager, files: seq<ImageFile>, r: Recipe, e: EncoderPtr, s: VirtualStorage)
    reads m, m.carrierFiles, files, s, s.permutation.Target(), e.Target()
    reads set c | c in m.carrierFiles :: c.file, set c | c in m.carrierFiles :: c.permutation.Target()
  {
    && EncoderApplied(m, files, r, e) && s.Valid() && s.permutation.Kind() == r.globalKind
    && forall c | c in m.carrierFiles :: c.permutation.Target() != s.permutation.Target()
  }

  ghost predicate EncoderApplied(m: CarrierFilesManager, files: seq<ImageFile>, r: Recipe, e: EncoderPtr)
    reads m, m.carrierFiles, files, e.Target()
    reads set c | c in m.carrierFiles :: c.file, set c | c in m.carrierFiles :: c.permutation.Target()
  {
    && Listed(m, files, r, e) && e.Valid() && e.Codec().Valid()
    && |r.keys| == |files| && files != [] && HasCapacity(Contents(files), r, e.Codec(), m.capacity)
    && m.isActiveEncoder && m.AllEncoded(m.capacity, r.rand)
    && forall i | 0 <= i < |files| :: m.carrierFiles[i].subkey == r.keys[i]
  }

  lemma PreparedFacts(m: CarrierFilesManager, files: seq<ImageFile>, r: Recipe, e: EncoderPtr, s: VirtualStorage,
      g: Perm)
    requires Prepared(m, files, r, e, s)
    ensures m.encoder == Some(e) && m.isActiveEncoder && |m.carrierFiles| == |files| && files != []
    ensures Suits(Contents(files), r) && AllSized(Contents(files), r) && e.Codec().Valid()
    ensures m.capacity == Total(Contents(files), r, e.Codec()) > 0 && Supported(s.permutation.Kind(), m.capacity)
    ensures m.CanLoad(s, r.rand) && s.permutation.Kind() == r.globalKind
    ensures m.PlanFor(r.rand, g).Some? <==> AllPermuted(Contents(files), r)
    ensures AllPermuted(Contents(files), r) ==>
              m.PlanFor(r.rand, g) == Some(VolumeFor(Contents(files), r, e.Codec(), g))
  {
    hide Listed, AllSized, AllPermuted, VolumeFor, Total, Contents, Suits, CarrierFilesManager.AllEncoded;
    hide CarrierFilesManager.CanLoad;
    hide CarrierFilesManager.PlanFor, EncoderPtr.Valid, EncoderPtr.Codec, Codec.Valid, VirtualStorage.Valid;
    ListedFacts(m, files, r, e);
    CanLoadNow(m, files, r, e, s);
    TotalBounded(Contents(files), r, e.Codec());
    SupportedBelow60(s.permutation.Kind(), m.capacity);
    PlanIs(m, files, r, e, g);
  }

  /** Nothing that loading changes is a file or the encoder. */
  lemma LoadingIsApart(m: CarrierFilesManager, files: seq<ImageFile>, r: Recipe, e: EncoderPtr, s: VirtualStorage)
    requires Prepared(m, files, r, e, s)
    ensures m.encoder == Some(e) && |m.carrierFiles| == |files| &&
        (forall i | 0 <= i < |files| :: m.carrierFiles[i].file == files[i])
    ensures e.Target() != s && e.Target() != s.permutation.Target() && e.Target() != m
    ensures m as object != s && m as object != s.permutation.Target()
    ensures forall i | 0 <= i < |files| ::
              && m.carrierFiles[i] as object != e.Target() && m.carrierFiles[i].permutation.Target() != e.Target()
              && m.carrierFiles[i] as object != m && m.carrierFiles[i].permutation.Target() != m
    ensures forall f, c | f in files && c in m.carrierFiles :: f as object != c && f as object != c.permutation.Target()
    ensures forall f | f in files :: f as object != m && f as object != s && f as object != s.permutation.Target()
    ensures files != []
  {
    hide *;
    PreparedFacts(m, files, r, e, s, Identity(0));
    PreparedIsListed(m, files, r, e, s);
    ListedFacts(m, files, r, e);
    EncoderApart(e, m, s, null);
    StorageApart(s, m.carrierFiles[0], files[0], e, m);
    forall i | 0 <= i < |files|
      ensures m.carrierFiles[i] as object != e.Target() && m.carrierFiles[i].permutation.Target() != e.Target()
      ensures m.carrierFiles[i] as object != m && m.carrierFiles[i].permutation.Target() != m
    {
      Apart(m.carrierFiles[i], m.carrierFiles[i], files[i], e, m);
    }
    forall f, c | f in files && c in m.carrierFiles ensures f as object != c && f as object != c.permutation.Target() {
      StorageApart(s, c, f, e, m);
      Apart(c, c, f, e, m);
    }
    forall f | f in files ensures f as object != m && f as object != s && f as object != s.permutation.Target() {
      StorageApart(s, m.carrierFiles[0], f, e, m);
      Apart(m.carrierFiles[0], m.carrierFiles[0], f, e, m);
      Apart(m.carrierFiles[0], m.carrierFiles[0], f, e, m);
    }
  }

  lemma PreparedIsListed(m: CarrierFilesManager, files: seq<ImageFile>, r: Recipe, e: EncoderPtr, s: VirtualStorage)
    requires Prepared(m, files, r, e, s)
    ensures Listed(m, files, r, e)
  {}

  /** Loads what was prepared. */
  method Load(m: CarrierFilesManager, ghost files: seq<ImageFile>, r: Recipe, e: EncoderPtr, s: VirtualStorage,
              garbage: nat -> byte, h: Bytes -> Bytes)
    returns (answer: Result<bool>, ghost memory: Bytes, ghost before: Bytes)
    requires Prepared(m, files, r, e, s) && Suits(Contents(files), r) && e.Codec().Valid() && IsHash(h)
    modifies m`virtualStorage, m.carrierFiles, set c | c in m.carrierFiles :: c.permutation.Target()
    modifies s, s.permutation.Target()
    ensures Contents(files) == old(Contents(files)) && e.Codec() == old(e.Codec())
    ensures m.carrierFiles == old(m.carrierFiles)
    ensures answer.Ok? <==> CanOpen(Contents(files), r, e.Codec())
    ensures answer.Ok? ==>
              && m.virtualStorage == s && fresh(s.data)
              && Opened(m, files, r, Opening(Contents(files), r, e.Codec()))
              && m.LoadedAll(Opening(Contents(files), r, e.Codec()), r.rand, memory, before, h, answer.value)
  {
    hide *;
    ghost var images, codec := Contents(files), e.Codec();
    LoadingIsApart(m, files, r, e, s);
    PreparedFacts(m, files, r, e, s, Identity(0));
    ghost var g := if GlobalOf(images, r, codec).Ok? then GlobalOf(images, r, codec).value else Identity(0);
    PreparedFacts(m, files, r, e, s, g);
    OpensOrNot(images, r, codec);
    assert allocated(e.Target());
    var bytes := Garbage(m.capacity, garbage);
    memory := bytes;
    answer, before := m.LoadVirtualStorage(s, r.masterKey, r.globalRand, r.rand, bytes, h);
    forall i | 0 <= i < |files| ensures files[i].content == images[i] { assert files[i] in files; }
    assert Contents(files) == images;
    if answer.Ok? { OpenedWith(m, files, r, Opening(images, r, codec), memory, before, h, answer.value); }
  }

  /** Opens the files; the answer is the checksum test. */
  method Open(files: seq<ImageFile>, r: Recipe, e: EncoderPtr, garbage: nat -> byte, h: Bytes -> Bytes)
    returns (m: CarrierFilesManager, answer: Result<bool>, ghost memory: Bytes, ghost before: Bytes)
    requires Directory(files, r)
    requires e.Valid() && e.Codec().Valid() && IsHash(h)
    ensures Directory(files, r) && e.Valid() && e.Codec().Valid()
    ensures fresh(m) && (forall c | c in m.carrierFiles :: fresh(c) && fresh(c.permutation.Target()))
    ensures answer.Ok? <==> CanOpen(Contents(KeptFiles(files)), r, e.Codec())
    ensures answer.Ok? ==>
              var v := Opening(Contents(KeptFiles(files)), r, e.Codec());
              && m.virtualStorage != null && fresh(m.virtualStorage) && fresh(m.virtualStorage.data)
              && Opened(m, KeptFiles(files), r, v)
              && m.LoadedAll(v, r.rand, memory, before, h, answer.value)
  {
    hide *;
    memory, before := [], [];
    DirectoryFacts(files, r);
    ghost var kept := KeptFiles(files);
    ghost var images := Contents(kept);
    assert allocated(e.Target());
    var p := GetPermutation(r.globalKind);
    var s := new VirtualStorage(p);
    EncoderApart(e, null, s, null);
    assert allocated(s.permutation.Target());
    FilesSuit(kept, r);
    m := List(files, r, e);
    var status := Apply(m, kept, r, e);
    OpensOrNot(images, r, e.Codec());
    if status != Done { return m, Err(status.error), [], []; }
    NowPrepared(m, kept, r, e, s);
    answer, memory, before := Load(m, kept, r, e, s, garbage, h);
  }

  lemma NowPrepared(m: CarrierFilesManager, files: seq<ImageFile>, r: Recipe, e: EncoderPtr, s: VirtualStorage)
    requires Listed(m, files, r, e) && e.Valid() && e.Codec().Valid() && s.Valid() &&
        s.permutation.Kind() == r.globalKind
    requires Suits(Contents(files), r) && |r.keys| == |files| && files != [] && AllSized(Contents(files), r)
    requires m.isActiveEncoder && m.capacity == Total(Contents(files), r, e.Codec()) > 0 &&
        m.AllEncoded(m.capacity, r.rand)
    requires forall i | 0 <= i < |files| :: m.carrierFiles[i].subkey == r.keys[i]
    requires forall c | c in m.carrierFiles :: c.permutation.Target() != s.permutation.Target()
    ensures Prepared(m, files, r, e, s)
  {
    hide Listed, AllSized, Total, Contents, Suits, CarrierFilesManager.AllEncoded;
    hide EncoderPtr.Valid, EncoderPtr.Codec, Codec.Valid, VirtualStorage.Valid;
  }

  // ---------------------------------------------------------------- the session

  /** What the files contain once a volume over them has been saved. */
  ghost predicate Holding(images: seq<Image>, v: Volume) {
    |images| == |v.files| && forall i: nat | i < |images| :: images[i] == v.files[i].image
  }

  lemma SavedImage(v: Volume, data: Bytes, i: nat)
    requires v.Valid() && |data| == v.global.Size() && i < |v.files|
    ensures var img, saved := v.files[i].image, v.SaveAll(data).files[i].image;
            && saved.Valid() && saved.RawCapacity() == img.RawCapacity() && |saved.samples| == |img.samples|
            && saved.Bmp? == img.Bmp?
    ensures v.SaveAll(data).files[i].perm == v.files[i].perm
  {
    v.SetupFits(i);
    SavedImageIsValid(v.files[i].image, v.SetupOf(i), v.Share(data, i));
    hide SaveImage, Volume.SetupOf, Volume.Share, Volume.Valid, Image.RawCapacity, Image.Valid, Setup.Fits;
    hide Setup.DataBytes;
  }

  lemma SameSizes(images: seq<Image>, saved: seq<Image>, r: Recipe, codec: Codec)
    requires Suits(images, r) && Suits(saved, r) && codec.Valid() && |images| == |saved| && AllSized(images, r)
    requires forall i: nat | i < |images| ::
      saved[i].RawCapacity() == images[i].RawCapacity() && saved[i].Bmp? == images[i].Bmp?
    ensures AllSized(saved, r) && Total(saved, r, codec) == Total(images, r, codec)
    ensures GlobalOf(saved, r, codec) == GlobalOf(images, r, codec)
    ensures forall i: nat | i < |images| :: PermOf(saved, r, i) == PermOf(images, r, i)
  {
    hide Suits, Image.RawCapacity, Codec.Valid, SizeResult, InitResult, Span, Offset;
    forall i: nat | i < |images| ensures SizeOf(saved, r, i) == SizeOf(images, r, i) {}
    assert AllCapacities(saved, r, codec) == AllCapacities(images, r, codec);
  }

  /** Files that were opened, and saved, can be opened again, and make up the saved volume. */
  lemma Reopens(images: seq<Image>, saved: seq<Image>, r: Recipe, codec: Codec, data: Bytes)
    requires Suits(images, r) && codec.Valid() && CanOpen(images, r, codec)
    requires var v := Opening(images, r, codec);
             v.Valid() && AllSaveable(v) && |data| == v.global.Size() && Holding(saved, v.SaveAll(data))
    ensures Suits(saved, r) && CanOpen(saved, r, codec)
    ensures Opening(saved, r, codec) == Opening(images, r, codec).SaveAll(data)
  {
    hide *;
    var v := Opening(images, r, codec);
    var w := v.SaveAll(data);
    OpensOrNot(images, r, codec);
    HoldingImages(saved, w);
    forall i: nat | i < |saved|
      ensures saved[i].Valid() && saved[i].RawCapacity() == images[i].RawCapacity()
      ensures |saved[i].samples| == |images[i].samples| && saved[i].Bmp? == images[i].Bmp?
      ensures PermOf(images, r, i) == Ok(w.files[i].perm)
    {
      PermutedAt(images, r, i);
      SavedImage(v, data, i);
    }
    StillSuits(images, saved, r);
    SameSizes(images, saved, r, codec);
    SamePerms(images, saved, r);
    SavedIsLoadable(v, data);
    var x := VolumeFor(saved, r, codec, v.global);
    forall i: nat | i < |saved| ensures x.files[i] == w.files[i] {}
    assert x.files == w.files;
    assert x == w;
    OpensOrNot(saved, r, codec);
  }

  lemma PermutedAt(images: seq<Image>, r: Recipe, i: nat)
    requires Suits(images, r) && AllPermuted(images, r) && i < |images|
    ensures PermOf(images, r, i).Ok?
  {}

  lemma HoldingImages(images: seq<Image>, v: Volume)
    requires Holding(images, v)
    ensures |images| == |v.files| && forall i: nat | i < |images| :: images[i] == v.files[i].image
  {}

  lemma StillSuits(images: seq<Image>, saved: seq<Image>, r: Recipe)
    requires Suits(images, r) && |saved| == |images|
    requires forall i: nat | i < |saved| ::
      && saved[i].Valid() && |saved[i].samples| == |images[i].samples|
      && saved[i].RawCapacity() == images[i].RawCapacity()
    ensures Suits(saved, r)
  {
    hide Image.Valid, Image.RawCapacity;
  }

  lemma SamePerms(images: seq<Image>, saved: seq<Image>, r: Recipe)
    requires Suits(images, r) && Suits(saved, r) && |saved| == |images| && AllPermuted(images, r)
    requires forall i: nat | i < |images| :: PermOf(saved, r, i) == PermOf(images, r, i)
    ensures AllPermuted(saved, r)
  {
    hide PermOf, Suits;
  }

  /** What an open manager is, for its user. */
  lemma OpenFacts(m: CarrierFilesManager, files: seq<ImageFile>, r: Recipe, v: Volume)
    requires Opened(m, files, r, v)
    ensures m.virtualStorage != null && m.encoder.Some? && m.Opened(v, r.rand)
    ensures var s := m.virtualStorage;
            && s.Applied() && v.Valid() && v.global == s.Global()
            && s.data.Length == v.global.Size() == s.usableCapacity + HASH_LENGTH
            && s.permutation.Target() != s.data as object && m.encoder.value.Target() != s.data as object
            && allocated(s.permutation.Target()) && allocated(m.encoder.value.Target())
    ensures |m.carrierFiles| == |files| && forall i | 0 <= i < |files| :: m.carrierFiles[i].file == files[i]
    ensures forall c | c in m.carrierFiles ::
              allocated(c.permutation.Target()) && c.permutation.Target() != m.virtualStorage.data as object
    ensures Holding(Contents(files), v)
  {
    m.TaskIs(m.virtualStorage, r.rand);
    var t := m.Task(m.virtualStorage, r.rand);
    m.OpenedFacts(t, v);
    hide CarrierFilesManager.Opened, Volume.Valid, Distinct, Perm.Size, VirtualStorage.Global, CarrierFile.Attached;
    hide Assigned, Loading.Others;
    hide PermutationPtr.Valid, PermutationPtr.State, PermutationPtr.Size, Bijective, Perm.Valid;
    forall i: nat | i < |files| ensures files[i].content == v.files[i].image {
      assert t.PlacedAt(Some(v), i);
    }
  }

  lemma StillOpen(m: CarrierFilesManager, files: seq<ImageFile>, r: Recipe, v: Volume)
    requires m.Opened(v, r.rand)
    requires |m.carrierFiles| == |files| && forall i | 0 <= i < |files| :: m.carrierFiles[i].file == files[i]
    ensures Opened(m, files, r, v)
  {
    hide CarrierFilesManager.Opened;
  }

  /** After a save the same files have capacity, and they still make a directory. */
  lemma StillDirectory(files: seq<ImageFile>, before: seq<Image>, v: Volume, data: Bytes, r: Recipe)
    requires |before| == |files| && v.Valid() && |data| == v.global.Size()
    requires forall i | 0 <= i < |files| :: before[i].Valid() && |before[i].samples| <= MAX_AFFINE_SIZE
    requires NoRepeats(files)
    requires var kept := KeptIn(files, before);
             && |kept| == |v.files| && Holding(Contents(kept), v.SaveAll(data)) && Suits(Contents(kept), r)
             && (forall i, k: nat | 0 <= i < |files| && k < |kept| && files[i] == kept[k] ::
                 before[i] == v.files[k].image)
             && (forall i | 0 <= i < |files| && files[i] !in kept :: files[i].content == before[i])
    ensures KeptFiles(files) == KeptIn(files, before) && Directory(files, r)
  {
    hide Image.Valid, Image.RawCapacity, Volume.SaveAll, Suits, Holding, Volume.Valid, KeptIn;
    var kept := KeptIn(files, before);
    HoldingImages(Contents(kept), v.SaveAll(data));
    forall i | 0 <= i < |files|
      ensures files[i].content.RawCapacity() == before[i].RawCapacity() && files[i].content.Valid()
      ensures |files[i].content.samples| <= MAX_AFFINE_SIZE
    {
      if files[i] in kept {
        var k: nat :| k < |kept| && kept[k] == files[i];
        SavedImage(v, data, k);
        assert Contents(kept)[k] == files[i].content;
      }
    }
    KeptAgain(files, before, Contents(files));
  }

  /** Opens the files, writes, saves, opens the same files again, and reads. */
  method WriteSaveReopenRead(files: seq<ImageFile>, r: Recipe, e: EncoderPtr, garbage: nat -> byte,
                             garbage2: nat -> byte, h: Bytes -> Bytes, offset: nat, content: Bytes)
    returns (result: Result<(Bytes, bool)>)
    requires Directory(files, r)
    requires e.Valid() && e.Codec().Valid() && IsHash(h) && offset < WORD && |content| < WORD
    modifies files
    ensures result.Ok? ==> result.value == (content, true)
    ensures result.Ok? <==> old(
              var images := Contents(KeptFiles(files));
              && CanOpen(images, r, e.Codec())
              && offset + |content| + HASH_LENGTH <= Opening(images, r, e.Codec()).global.Size()
              && AllSaveable(Opening(images, r, e.Codec())))
  {
    hide *;
    DirectoryFacts(files, r);
    ghost var kept, all := KeptFiles(files), Contents(files);
    ghost var images, codec := Contents(kept), e.Codec();
    assert allocated(e.Target());
    DirectoryIs(files, r);
    var m, answer, first, unread := Open(files, r, e, garbage, h);
    if answer.Err? { return Err(answer.error); }
    ghost var v := Opening(images, r, codec);
    OpensOrNot(images, r, codec);
    OpenFacts(m, kept, r, v);
    HoldingImages(images, v);
    ghost var before := m.virtualStorage.data[..];
    var status := m.virtualStorage.Write(offset, content);
    if status != Done { return Err(status.error); }
    forall i | 0 <= i < |files| ensures e.Target() != files[i] { EncoderApart(e, null, null, files[i]); }
    forall c | c in m.carrierFiles
      ensures m as object != c && m as object != c.file && m as object != c.permutation.Target()
      ensures c.file in kept
    {
      Apart(c, c, c.file, e, m);
    }
    ghost var data := WithChecksum(h, m.virtualStorage.data[..]);
    status := m.SaveVirtualStorage(h, r.rand, v);
    if status != Done { return Err(status.error); }
    StillOpen(m, kept, r, v.SaveAll(data));
    OpenFacts(m, kept, r, v.SaveAll(data));
    Reopens(images, Contents(kept), r, codec, data);
    StillDirectory(files, all, v, data, r);
    var m', answer', memory, unread' := Open(files, r, e, garbage2, h);
    OpenFacts(m', kept, r, v.SaveAll(data));
    LoadedIsSaved(m', v, r.rand, h, before, offset, content, memory, unread', answer'.value);
    var bytes := m'.virtualStorage.Read(offset, |content|);
    return Ok((bytes.value, answer'.value));
  }

  /** Saving twice: the second save succeeds like the first, and leaves the storage and every file as
      the first left them. */
  method SaveTwice(m: CarrierFilesManager, ghost files: seq<ImageFile>, r: Recipe, h: Bytes -> Bytes, ghost v: Volume)
    returns (first: Status, second: Status, ghost between: seq<Image>, ghost memory: Bytes)
    requires Opened(m, files, r, v) && IsHash(h)
    modifies m.carrierFiles, set c | c in m.carrierFiles :: c.permutation.Target()
    modifies set c | c in m.carrierFiles :: c.file
    modifies if m.virtualStorage == null then {} else {m.virtualStorage.data}
    ensures first == second == (if AllSaveable(v) then Done else Failed(EmptyMember))
    ensures m.virtualStorage != null && m.virtualStorage.data[..] == memory
    ensures |old(m.virtualStorage.data[..])| >= HASH_LENGTH && memory == WithChecksum(h, old(m.virtualStorage.data[..]))
    ensures first == Done ==>
              && v.Valid() && |memory| == v.global.Size()
              && Holding(between, v.SaveAll(memory)) && Contents(files) == between
  {
    hide *;
    OpenFacts(m, files, r, v);
    ghost var before := m.virtualStorage.data[..];
    forall c | c in m.carrierFiles
      ensures m as object != c && m as object != c.file && m as object != c.permutation.Target()
      ensures c as object != m.virtualStorage && c.file as object != m.virtualStorage
      ensures c.permutation.Target() != m.virtualStorage
    {
      Apart(c, c, c.file, m.encoder.value, m);
      StorageApart(m.virtualStorage, c, c.file, m.encoder.value, m);
    }
    first := m.SaveVirtualStorage(h, r.rand, v);
    memory := m.virtualStorage.data[..];
    between := Contents(files);
    if first != Done { return first, first, between, memory; }
    ghost var w := v.SaveAll(memory);
    StillOpen(m, files, r, w);
    OpenFacts(m, files, r, w);
    SaveIsIdempotent(v, h, before);
    SavedIsLoadable(v, memory);
    second := m.SaveVirtualStorage(h, r.rand, w);
    StillOpen(m, files, r, w);
    OpenFacts(m, files, r, w);
    HoldingSame(between, Contents(files), w);
  }

  lemma HoldingSame(a: seq<Image>, b: seq<Image>, v: Volume)
    requires Holding(a, v) && Holding(b, v)
    ensures a == b
  {}

  lemma DirectoryIs(files: seq<ImageFile>, r: Recipe)
    requires Directory(files, r)
    ensures KeptFiles(files) == KeptIn(files, Contents(files))
    ensures forall i | 0 <= i < |files| :: files[i].content.Valid() && |files[i].content.samples| <= MAX_AFFINE_SIZE
    ensures NoRepeats(files)
  {
    hide Image.Valid, Suits, KeptIn;
  }
}
