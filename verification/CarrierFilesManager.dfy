/** src/file_management/carrier_files_manager.cc: all carriers together, in the order of their
    names: capacity, layout, loading and saving. */
module CarrierFilesManager {
  import opened Bits
  import opened Spans
  import opened Outcomes
  import opened HammingCode
  import opened Codecs
  import opened Permutations
  import opened PermutationObjects
  import opened Carriers
  import opened Embedding
  import opened Layout
  import opened Volumes
  import opened Encoders
  import opened VirtualStorage
  import opened CarrierFile

  /** The answers of `rand()` seen by carrier i. */
  type Randomness = nat -> (nat -> nat)

  /** The objects only carrier c changes. */
  ghost function Own(c: CarrierFile): set<object> { {c, c.file, c.permutation.Target()} }

  /** No two carriers share a file or a permutation, and none uses one of the others' objects. */
  ghost predicate Distinct(cs: seq<CarrierFile>, others: set<object>) {
    && (forall i, j | 0 <= i < j < |cs| :: Own(cs[i]) !! Own(cs[j]))
    && (forall i | 0 <= i < |cs| :: Own(cs[i]) !! others)
  }

  lemma FewerOthers(cs: seq<CarrierFile>, others: set<object>, fewer: set<object>)
    requires Distinct(cs, others) && fewer <= others
    ensures Distinct(cs, fewer)
  {
    hide Own;
  }

  lemma NotOwn(c: CarrierFile, o: object)
    requires o != c && o != c.file && o != c.permutation.Target()
    ensures o !in Own(c)
  {}

  /** The objects of one carrier are none of another's, nor of the others. */
  lemma OwnObjects(cs: seq<CarrierFile>, others: set<object>, i: nat, j: nat)
    requires Distinct(cs, others) && i < |cs| && j < |cs|
    ensures forall o | o in Own(cs[i]) :: o !in others && (i != j ==> o !in Own(cs[j]))
  {
    assert i < j ==> Own(cs[i]) !! Own(cs[j]);
    assert j < i ==> Own(cs[j]) !! Own(cs[i]);
  }

  /** The capacity is that of the blocks below the size the permutation announced. */
  ghost predicate Announced(size: Result<nat>, codeSize: nat, dataSize: nat, capacity: nat) {
    size.Ok? && codeSize > 0 && exists n: nat :: MostBlocks(n, size.value, codeSize) && capacity == Span(n, dataSize)
  }

  lemma AnnouncedIs(size: Result<nat>, codeSize: nat, dataSize: nat, capacity: nat)
    requires size.Ok? && codeSize > 0
    ensures Announced(size, codeSize, dataSize, capacity)
       <==> capacity == Span(BlocksBelow(size.value, codeSize), dataSize)
  {
    hide Span, MostBlocks, BlocksBelow;
    if Announced(size, codeSize, dataSize, capacity) {
      var n: nat :| MostBlocks(n, size.value, codeSize) && capacity == Span(n, dataSize);
      MostIsBelow(n, size.value, codeSize);
    }
  }

  /** The carrier has the encoder, and its capacity counts the blocks its permutation announced. */
  ghost predicate Encoded(c: CarrierFile, e: EncoderPtr, rand: nat -> nat)
    reads c`rawCapacity, c`encoder, c`codewordBlockSize, c`dataBlockSize, c`subkey, c`capacity
    reads c.file, c.permutation.Target(), e.Target()
  {
    && c.Valid() && c.encoder == Some(e) && c.HasEncoder()
    && Announced(SizeResult(c.permutation.Kind(), 8 * c.rawCapacity, c.subkey, rand),
                 c.codewordBlockSize, c.dataBlockSize, c.capacity)
  }

  /** The permutation is not initialised yet, or was by the same request and key. */
  ghost predicate Keyed(c: CarrierFile, rand: nat -> nat)
    reads c`rawCapacity, c`subkey, c.permutation.Target()
  {
    c.permutation.Size() > 0 ==>
      InitResult(c.permutation.Kind(), 8 * c.rawCapacity, c.subkey, rand) == Ok(c.permutation.State())
  }

  lemma SizeResultAtMost(kind: Kind, n: nat, key: Key, rand: nat -> nat)
    ensures SizeResult(kind, n, key, rand).Ok? ==> SizeResult(kind, n, key, rand).value <= n
  {
    hide AffineSearch, ISqrt, Shl, Shr, MixRightBits;
    ShiftedDown(n, MixRightBits(n));
    if AffineSearch(n, key, rand).Found? { AffineSearchFinds(n, key, rand); }
  }

  lemma ShiftedDown(n: nat, bits: nat)
    ensures Shl(Shr(n, bits), bits) <= n
  {
    ShiftsArePowers(Shr(n, bits), bits);
    ShiftsArePowers(n, bits);
  }

  /** What the announced size of a keyed carrier says about its permutation. */
  lemma AnnouncedSize(c: CarrierFile, rand: nat -> nat)
    requires c.Valid() && Keyed(c, rand)
    requires SizeResult(c.permutation.Kind(), 8 * c.rawCapacity, c.subkey, rand).Ok?
    ensures var size := SizeResult(c.permutation.Kind(), 8 * c.rawCapacity, c.subkey, rand).value;
            && size <= 8 * c.rawCapacity
            && (c.LocalPerm(rand).Ok? ==>
                  var p := c.LocalPerm(rand).value;
                  p.Size() == size && p.Valid() && Bijective(p))
  {
    var kind, n := c.permutation.Kind(), 8 * c.rawCapacity;
    SizeResultAtMost(kind, n, c.subkey, rand);
    if c.LocalPerm(rand).Ok? {
      Pow2Values();
      CapacityAgreement(kind, n, c.subkey, rand);
      InitIsValid(kind, n, c.subkey, rand);
    }
  }

  /** A carrier placed in the storage by the layout can be loaded and saved: the blocks it was
      given lie below its permutation. */
  lemma Attachable(c: CarrierFile, e: EncoderPtr, s: VirtualStorage, rand: nat -> nat, caps: seq<nat>, i: nat)
    requires Encoded(c, e, rand) && Keyed(c, rand) && e.Valid()
    requires c.storage == s && s.Applied() && c.permutation.Target() != s.permutation.Target()
    requires i < |caps| && caps[i] == c.capacity && c.dataBlockSize > 0
    requires c.blocksUsed == BlocksUsed(BytesUsed(caps, s.Global().Size(), i), c.dataBlockSize)
    ensures c.Attached(rand)
  {
    AnnouncedSize(c, rand);
    var size := SizeResult(c.permutation.Kind(), 8 * c.rawCapacity, c.subkey, rand).value;
    var count := BlocksBelow(size, c.codewordBlockSize);
    AnnouncedIs(SizeResult(c.permutation.Kind(), 8 * c.rawCapacity, c.subkey, rand), c.codewordBlockSize,
                c.dataBlockSize, c.capacity);
    hide BlocksBelow, MostBlocks, Announced;
    hide SizeResult, InitResult, Span, BytesUsed, Perm.Size, Bijective, Perm.Valid, EncoderPtr.Valid;
    hide PermutationPtr.Valid;
    BlocksStayInside(caps, s.Global().Size(), i, c.dataBlockSize, count);
    BlocksFitPermutation(c.blocksUsed, count, c.codewordBlockSize, size);
  }

  /** Every local permutation can be initialised. */
  ghost predicate Opens(cs: seq<CarrierFile>, rand: Randomness)
    reads cs, set c | c in cs :: c.permutation.Target()
  {
    forall i | 0 <= i < |cs| :: cs[i].LocalPerm(rand(i)).Ok?
  }

  /** The volume the carriers make up. */
  ghost function VolumeOf(cs: seq<CarrierFile>, rand: Randomness, codec: Codec, global: Perm): (v: Volume)
    requires Opens(cs, rand)
    reads cs, set c | c in cs :: c.file, set c | c in cs :: c.permutation.Target()
    ensures |v.files| == |cs| && v.codec == codec && v.global == global
    ensures forall i | 0 <= i < |cs| :: v.files[i] == File(cs[i].file.content, cs[i].LocalPerm(rand(i)).value)
  {
    Volume(seq(|cs|, i requires 0 <= i < |cs| && Opens(cs, rand)
                       reads cs, (set c | c in cs :: c.file), (set c | c in cs :: c.permutation.Target())
                     => File(cs[i].file.content, cs[i].LocalPerm(rand(i)).value)), codec, global)
  }

  /** The volume is valid, and its capacities are those of the carriers. */
  lemma VolumeIsValid(cs: seq<CarrierFile>, e: EncoderPtr, rand: Randomness, global: Perm)
    requires Opens(cs, rand) && e.Valid()
    requires forall i | 0 <= i < |cs| :: Encoded(cs[i], e, rand(i)) && Keyed(cs[i], rand(i))
    requires global.Valid() && Bijective(global) && global.Size() <= Offset(CapacitiesOf(cs), |cs|)
    ensures var v := VolumeOf(cs, rand, e.Codec(), global); v.Valid() && v.Capacities() == CapacitiesOf(cs)
  {
    hide *;
    e.CodecIsValid();
    var v := VolumeOf(cs, rand, e.Codec(), global);
    forall i | 0 <= i < |cs| ensures v.files[i].Usable() && v.Capacities()[i] == CapacitiesOf(cs)[i] {
      FileIsUsable(cs, e, rand, global, i);
    }
    assert v.Capacities() == CapacitiesOf(cs);
    AllUsable(v);
  }

  lemma AllUsable(v: Volume)
    requires v.codec.Valid() && v.global.Valid() && Bijective(v.global)
    requires v.global.Size() <= Offset(v.Capacities(), |v.files|)
    requires forall i | 0 <= i < |v.files| :: v.files[i].Usable()
    ensures v.Valid()
  {
    hide File.Usable;
  }

  lemma FileIsUsable(cs: seq<CarrierFile>, e: EncoderPtr, rand: Randomness, global: Perm, i: nat)
    requires Opens(cs, rand) && e.Valid() && e.Codec().Valid() && i < |cs| && Encoded(cs[i], e, rand(i)) &&
        Keyed(cs[i], rand(i))
    ensures var v := VolumeOf(cs, rand, e.Codec(), global);
            v.files[i].Usable() && v.Capacities()[i] == CapacitiesOf(cs)[i]
  {
    AnnouncedSize(cs[i], rand(i));
    AnnouncedIs(SizeResult(cs[i].permutation.Kind(), 8 * cs[i].rawCapacity, cs[i].subkey, rand(i)),
                cs[i].codewordBlockSize, cs[i].dataBlockSize, cs[i].capacity);
    hide Announced, BlocksBelow, MostBlocks;
    hide SizeResult, InitResult, Span, Perm.Size, Bijective, Perm.Valid, EncoderPtr.Valid, EncoderPtr.Codec;
    hide PermutationPtr.Valid;
    hide Codec.Valid, Codec.CodeSize, Codec.DataSize;
  }

  /** Where the layout puts carrier i. */
  ghost predicate LaidOut(c: CarrierFile, s: VirtualStorage, caps: seq<nat>, size: nat, i: nat)
    requires i < |caps|
    reads c`storage, c`virtualStorageOffset, c`blocksUsed, c`dataBlockSize
  {
    && c.storage == s && c.virtualStorageOffset == Offset(caps, i)
    && c.dataBlockSize > 0 && c.blocksUsed == BlocksUsed(BytesUsed(caps, size, i), c.dataBlockSize)
  }

  lemma LayoutStarts(caps: seq<nat>, size: nat)
    ensures Offset(caps, 0) == 0 && Remaining(caps, size, 0) == size
  {}

  /** One round of the layout loop. */
  method PlaceFile(file: CarrierFile, s: VirtualStorage, offset: nat, remaining: nat,
                   ghost caps: seq<nat>, ghost size: nat, ghost i: nat) returns (nextOffset: nat, rest: nat)
    requires i < |caps| && caps[i] == file.capacity && file.dataBlockSize > 0
    requires offset == Offset(caps, i) && remaining == Remaining(caps, size, i)
    modifies file`storage, file`virtualStorageOffset, file`blocksUsed
    ensures LaidOut(file, s, caps, size, i)
    ensures nextOffset == Offset(caps, i + 1) && rest == Remaining(caps, size, i + 1)
  {
    var bytesUsed: nat;
    if remaining > file.capacity {
      rest := remaining - file.capacity;
      bytesUsed := file.capacity;
    } else {
      bytesUsed := remaining;
      rest := 0;
    }
    file.AddToVirtualStorage(s, offset, bytesUsed);
    nextOffset := offset + file.capacity;
  }

  /** What the carrier was given as carrier i of the volume. */
  ghost predicate Assigned(c: CarrierFile, s: VirtualStorage, v: Volume, i: nat, rand: nat -> nat)
    reads c`encoder, c`virtualStorageOffset, c`blocksUsed, c`rawCapacity, c`subkey, c.permutation.Target()
    reads s, s.permutation.Target()
    reads if c.encoder.Some? then {c.encoder.value.Target()} else {}
  {
    && v.Valid() && i < |v.files| && v.global == s.Global()
    && c.encoder.Some? && c.encoder.value.Codec() == v.codec
    && c.virtualStorageOffset == Offset(v.Capacities(), i) && c.blocksUsed == v.SetupOf(i).blocks
    && c.LocalPerm(rand) == Ok(v.files[i].perm)
  }

  /** Carrier i is ready to be loaded or saved; when every permutation can be initialised, as
      carrier i of the volume. */
  ghost predicate Placed(c: CarrierFile, s: VirtualStorage, plan: Option<Volume>, i: nat, rand: nat -> nat)
    reads c, c.file, c.permutation.Target(), s, s.permutation.Target()
    reads if c.storage == null then {} else {c.storage, c.storage.permutation.Target()}
    reads if c.encoder.Some? then {c.encoder.value.Target()} else {}
  {
    && c.Attached(rand) && c.storage == s
    && match plan
       case None => true
       case Some(v) => Assigned(c, s, v, i, rand) && c.file.content == v.files[i].image
  }

  lemma SetupMatches(c: CarrierFile, s: VirtualStorage, v: Volume, i: nat, rand: nat -> nat)
    requires Placed(c, s, Some(v), i, rand)
    ensures v.Valid() && i < |v.files| && s.Applied() && s.data.Length == v.global.Size()
    ensures c.encoder.Some? && c.HasEncoder() && c.SetupWith(v.files[i].perm) == v.SetupOf(i)
    ensures c.LocalPerm(rand) == Ok(v.files[i].perm) && c.file.content == v.files[i].image
    ensures c.virtualStorageOffset == Offset(v.Capacities(), i) && s.Global() == v.global && c.storage == s
  {}

  /** Loading one placed carrier. */
  method LoadPlaced(c: CarrierFile, s: VirtualStorage, ghost plan: Option<Volume>, ghost i: nat, rand: nat -> nat)
      returns (r: Status)
    requires Placed(c, s, plan, i, rand) && !c.fileLoaded
    modifies c`buffer, c`fileLoaded, c.permutation.Target(), s.data
    ensures Placed(c, s, plan, i, rand) && (r == Done ==> c.fileLoaded && c.LocalPerm(rand).Ok?)
    ensures c.LocalPerm(rand) == old(c.LocalPerm(rand))
    ensures plan.Some? ==> LoadedAs(plan.value, i, old(s.data[..]), s.data[..], r)
  {
    hide CarrierFile.Attached, CarrierFile.Loaded, CarrierFile.LocalPerm, CarrierFile.Ready, VirtualStorage.Global;
    hide EncoderPtr.Codec;
    hide Volume.Valid, Volume.Capacities, Volume.SetupOf, Offset, PermutationPtr.Target, EncoderPtr.Target, LoadedAs;
    ghost var before := s.data[..];
    AttachedApart(c, s, rand);
    r := c.LoadFile(rand);
    if plan.Some? { LoadedAsPlanned(c, s, plan.value, i, rand, before, r); }
  }

  /** The objects a carrier changes are none of those it only reads. */
  lemma AttachedApart(c: CarrierFile, s: VirtualStorage, rand: nat -> nat)
    requires c.Attached(rand) && c.storage == s
    ensures var p := c.permutation.Target();
            && p != s.permutation.Target() && p != c && p != c.file && p != s && p != s.data as object
            && s.permutation.Target() != s.data as object && s.permutation.Target() != c &&
                s.permutation.Target() != c.file
            && allocated(p) && allocated(s.permutation.Target())
            && (c.encoder.Some? ==>
                  && c.encoder.value.Target() != p && c.encoder.value.Target() != c &&
                      c.encoder.value.Target() != c.file && c.encoder.value.Target() != s.data as object
                  && allocated(c.encoder.value.Target()))
  {}

  /** The outcome of `LoadFile` in terms of the volume. */
  lemma LoadedAsPlanned(c: CarrierFile, s: VirtualStorage, v: Volume, i: nat, rand: nat -> nat, before: Bytes,
      r: Status)
    requires Placed(c, s, Some(v), i, rand) && |before| == s.data.Length
    requires if c.blocksUsed == 0 then
               && s.data[..] == before
               && r == if c.file.content.Bmp? then Done else Failed(RuntimeError)
             else r == Done && c.Loaded(v.files[i].perm, before)
    ensures LoadedAs(v, i, before, s.data[..], r)
  {
    SetupMatches(c, s, v, i, rand);
    v.SetupFits(i);
    hide LoadData, StoreBytes, Setup.Fits, Placed, Volume.Valid, Volume.Capacities, Volume.SetupOf, Codec.DataSize;
    hide Codec.CodeSize, Bijective, Perm.Valid, Perm.Size, EncoderPtr.Codec, EncoderPtr.Valid;
    if c.blocksUsed == 0 { NothingLoaded(v, before, i); }
  }

  lemma NothingLoaded(v: Volume, before: Bytes, i: nat)
    requires v.Valid() && |before| == v.global.Size() && i < |v.files| && v.SetupOf(i).blocks == 0
    ensures v.LoadOne(before, i) == before
  {
    v.SetupFits(i);
    hide LoadData, Setup.Fits, Volume.Valid, Volume.Capacities, Volume.SetupOf;
    assert |LoadData(v.files[i].image, v.SetupOf(i))| == 0;
  }

  /** What loading carrier i of a volume does to the storage. */
  ghost predicate LoadedAs(v: Volume, i: nat, before: Bytes, after: Bytes, r: Status) {
    && v.Valid() && i < |v.files| && |before| == v.global.Size()
    && (r == Done <==> v.LoadsAt(i))
    && (r == Done ==> after == v.LoadOne(before, i))
  }

  /** Everything the loading loop works on: the carriers, their common encoder, the storage. */
  datatype Loading = Loading(files: seq<CarrierFile>, encoder: EncoderPtr, storage: VirtualStorage, rand: Randomness) {

    ghost function Others(): set<object>
      reads storage
    {
      {storage, storage.data, storage.permutation.Target(), encoder.Target()}
    }

    /** No two carriers share objects. */
    ghost predicate Spread(plan: Option<Volume>)
      reads storage
    {
      Distinct(files, Others()) && (plan.Some? ==> |plan.value.files| == |files|)
    }

    /** Carrier j is placed, with the common encoder. */
    ghost predicate PlacedAt(plan: Option<Volume>, j: nat)
      requires j < |files|
      reads files[j], files[j].file, files[j].permutation.Target()
      reads encoder.Target(), storage, storage.permutation.Target()
    {
      files[j].encoder == Some(encoder) && files[j].storage == storage && Placed(files[j], storage, plan, j, rand(j))
    }

    /** All carriers are placed. */
    ghost predicate Ready(plan: Option<Volume>)
      reads files, set c | c in files :: c.file, set c | c in files :: c.permutation.Target()
      reads encoder.Target(), storage, storage.permutation.Target()
    {
      Spread(plan) && forall j: nat | j < |files| :: PlacedAt(plan, j)
    }

    /** The first n carriers have been loaded, the others not. */
    ghost predicate FlagsAt(n: nat)
      reads files
    {
      n <= |files| && forall j: nat | j < |files| :: files[j].fileLoaded == (j < n)
    }

    /** Their permutations could all be initialised. */
    ghost predicate OpenAt(n: nat)
      reads files, set c | c in files :: c.permutation.Target()
    {
      n <= |files| && forall j: nat | j < n :: files[j].LocalPerm(rand(j)).Ok?
    }
  }

  /** The storage, which held `memory`, after the first n carriers of the volume. */
  ghost predicate Holds(plan: Option<Volume>, memory: Bytes, data: Bytes, n: nat) {
    plan.Some? ==>
      var v := plan.value;
      && v.Valid() && n <= |v.files| && |memory| == v.global.Size() && data == v.LoadFirst(memory, n)
      && forall j: nat | j < n :: v.LoadsAt(j)
  }

  /** The first n carriers have been loaded into a storage that held `memory`. */
  ghost predicate Loaded(t: Loading, plan: Option<Volume>, memory: Bytes, n: nat)
    reads t.files, set c | c in t.files :: c.file, set c | c in t.files :: c.permutation.Target()
    reads t.encoder.Target(), t.storage, t.storage.permutation.Target(), t.storage.data
  {
    t.Ready(plan) && t.FlagsAt(n) && t.OpenAt(n) && Holds(plan, memory, t.storage.data[..], n)
  }

  /** The objects touched by loading or saving carrier i: none that another carrier depends on. */
  lemma Untouched(t: Loading, plan: Option<Volume>, i: nat, j: nat)
    requires t.Spread(plan) && i < |t.files| && j < |t.files|
    ensures var c, p, d := t.files[i], t.files[i].permutation.Target(), t.files[j];
            && allocated(d.permutation.Target()) && allocated(t.encoder.Target()) &&
                allocated(t.storage.permutation.Target())
            && p != c && t.storage as object != p && t.storage.data as object != p
            && t.storage.permutation.Target() != c && t.storage.permutation.Target() != p
            && t.encoder.Target() != c && t.encoder.Target() != p
            && t.storage.permutation.Target() != t.storage.data as object &&
                t.encoder.Target() != t.storage.data as object
            && d.permutation.Target() != t.storage.data as object
            && (i != j ==> d != c && d.file != c.file && d as object != p && d.file as object != p
                           && d.permutation.Target() != c && d.permutation.Target() != p &&
                               d.permutation.Target() != c.file)
            && t.storage.permutation.Target() != c.file && t.encoder.Target() != c.file && t.storage as object != c.file
  {
    OwnObjects(t.files, t.Others(), i, j);
    OwnObjects(t.files, t.Others(), j, i);
    var own := Own(t.files[i]);
    assert t.files[i] in own && t.files[i].file in own && t.files[i].permutation.Target() in own;
    var other := Own(t.files[j]);
    assert t.files[j] in other && t.files[j].file in other && t.files[j].permutation.Target() in other;
  }

  method LoadOneFile(t: Loading, i: nat, ghost plan: Option<Volume>, ghost memory: Bytes) returns (r: Status)
    requires Loaded(t, plan, memory, i) && i < |t.files|
    modifies t.files[i], t.files[i].permutation.Target(), t.storage.data
    ensures t.Ready(plan) && t.storage.data == old(t.storage.data) && (r == Done ==> Loaded(t, plan, memory, i + 1))
    ensures t.storage.Applied() == old(t.storage.Applied()) && t.storage.Global() == old(t.storage.Global())
    ensures r != Done && plan.Some? ==> plan.value.Valid() && i < |plan.value.files| && !plan.value.LoadsAt(i)
    ensures forall j: nat | j < |t.files| :: t.files[j].LocalPerm(t.rand(j)) == old(t.files[j].LocalPerm(t.rand(j)))
  {
    hide *;
    var c := t.files[i];
    ghost var before := t.storage.data[..];
    OpenLoaded(t, plan, memory, i);
    forall j: nat | j < |t.files| { Untouched(t, plan, i, j); }
    r := LoadPlaced(c, t.storage, plan, i, t.rand(i));
    PlacedAgain(t, plan, i);
    if plan.Some? { HoldsMore(plan.value, memory, before, t.storage.data[..], i, r); }
    NextLoaded(t, plan, memory, i);
  }

  lemma OpenLoaded(t: Loading, plan: Option<Volume>, memory: Bytes, i: nat)
    requires Loaded(t, plan, memory, i) && i < |t.files|
    ensures t.Spread(plan) && Holds(plan, memory, t.storage.data[..], i)
    ensures forall j: nat | j < |t.files| :: t.PlacedAt(plan, j) && t.files[j].fileLoaded == (j < i)
    ensures forall j: nat | j < i :: t.files[j].LocalPerm(t.rand(j)).Ok?
    ensures t.files[i].encoder == Some(t.encoder) && t.files[i].storage == t.storage
    ensures Placed(t.files[i], t.storage, plan, i, t.rand(i))
  {
    hide Placed, Holds, CarrierFile.LocalPerm, Distinct;
    assert t.PlacedAt(plan, i);
  }

  lemma PlacedAgain(t: Loading, plan: Option<Volume>, i: nat)
    requires i < |t.files| && t.files[i].encoder == Some(t.encoder) && t.files[i].storage == t.storage
    requires Placed(t.files[i], t.storage, plan, i, t.rand(i))
    ensures t.PlacedAt(plan, i)
  {
    hide Placed;
  }

  lemma HoldsMore(v: Volume, memory: Bytes, before: Bytes, after: Bytes, i: nat, r: Status)
    requires Holds(Some(v), memory, before, i) && LoadedAs(v, i, before, after, r)
    ensures r == Done ==> Holds(Some(v), memory, after, i + 1)
    ensures v.Valid() && i < |v.files| && (r == Done <==> v.LoadsAt(i))
  {
    hide Volume.LoadsAt, Volume.LoadOne, Volume.Valid;
  }

  lemma NextLoaded(t: Loading, plan: Option<Volume>, memory: Bytes, i: nat)
    requires t.Spread(plan) && i < |t.files| && forall j: nat | j < |t.files| :: t.PlacedAt(plan, j)
    ensures t.Ready(plan)
    ensures
      && (forall j: nat | j < |t.files| :: t.files[j].fileLoaded == (j < i + 1))
      && (forall j: nat | j < i + 1 :: t.files[j].LocalPerm(t.rand(j)).Ok?)
      && (plan.Some? ==> Holds(plan, memory, t.storage.data[..], i + 1))
      ==> Loaded(t, plan, memory, i + 1)
  {
    hide Loading.PlacedAt, Loading.Spread, CarrierFile.LocalPerm;
  }

  /** `result.get()` for every carrier in turn: the loading tasks, one after the other. */
  method LoadFiles(t: Loading, ghost plan: Option<Volume>, ghost memory: Bytes) returns (r: Status)
    requires Loaded(t, plan, memory, 0)
    modifies t.files, set c | c in t.files :: c.permutation.Target(), t.storage.data
    ensures t.Ready(plan) && t.storage.data == old(t.storage.data) && (r == Done ==> Loaded(t, plan, memory, |t.files|))
    ensures t.storage.Applied() == old(t.storage.Applied()) && t.storage.Global() == old(t.storage.Global())
    ensures r != Done && plan.Some? ==> !AllLoadable(plan.value)
    ensures r == Done ==> old(Opens(t.files, t.rand))
  {
    hide *;
    r := Done;
    for i := 0 to |t.files|
      invariant r == Done && Loaded(t, plan, memory, i) && t.storage.data == old(t.storage.data)
      invariant t.storage.Applied() == old(t.storage.Applied()) && t.storage.Global() == old(t.storage.Global())
      invariant forall j: nat | j < |t.files| :: t.files[j].LocalPerm(t.rand(j)) == old(t.files[j].LocalPerm(t.rand(j)))
    {
      assert t.files[i] in t.files;
      r := LoadOneFile(t, i, plan, memory);
      if r != Done {
        if plan.Some? { Unloadable(plan.value, i); }
        return;
      }
    }
    StillReady(t, plan, memory, |t.files|);
    OpenedBefore(t);
  }

  twostate lemma OpenedBefore(t: Loading)
    requires forall j: nat | j < |t.files| :: t.files[j].LocalPerm(t.rand(j)).Ok?
    requires forall j: nat | j < |t.files| :: t.files[j].LocalPerm(t.rand(j)) == old(t.files[j].LocalPerm(t.rand(j)))
    ensures old(Opens(t.files, t.rand))
  {
    hide CarrierFile.LocalPerm;
    assert forall j | 0 <= j < |t.files| :: old(t.files[j].LocalPerm(t.rand(j)).Ok?);
  }

  ghost predicate AllLoadable(v: Volume)
  {
    v.codec.Valid() && forall i: nat | i < |v.files| :: v.LoadsAt(i)
  }

  ghost predicate AllSaveable(v: Volume)
  {
    v.codec.Valid() && forall i: nat | i < |v.files| :: v.SavesAt(i)
  }

  lemma Unloadable(v: Volume, i: nat)
    requires v.Valid() && i < |v.files| && !v.LoadsAt(i)
    ensures !AllLoadable(v)
  {}

  lemma StillReady(t: Loading, plan: Option<Volume>, memory: Bytes, n: nat)
    requires Loaded(t, plan, memory, n)
    ensures t.Ready(plan) && forall j: nat | j < n :: j < |t.files| && t.files[j].LocalPerm(t.rand(j)).Ok?
  {
    hide Loading.Ready, CarrierFile.LocalPerm;
  }

  /** The volume the carriers make up, when every permutation can be initialised. */
  ghost function PlanOf(t: Loading): (plan: Option<Volume>)
    reads t.files, set c | c in t.files :: c.file, set c | c in t.files :: c.permutation.Target()
    reads t.encoder.Target(), t.storage, t.storage.permutation.Target()
    ensures plan.Some? <==> Opens(t.files, t.rand)
    ensures plan.Some? ==> plan.value == VolumeOf(t.files, t.rand, t.encoder.Codec(), t.storage.Global())
  {
    if Opens(t.files, t.rand) then Some(VolumeOf(t.files, t.rand, t.encoder.Codec(), t.storage.Global())) else None
  }

  /** The state in which the tasks are queued. */
  ghost predicate Queued(t: Loading)
    reads t.files, set c | c in t.files :: c.file, set c | c in t.files :: c.permutation.Target()
    reads t.encoder.Target(), t.storage, t.storage.permutation.Target()
  {
    && t.encoder.Valid() && t.storage.Applied() && Distinct(t.files, t.Others())
    && t.storage.Global().Size() <= Offset(CapacitiesOf(t.files), |t.files|)
    && forall i: nat | i < |t.files| :: QueuedAt(t, i)
  }

  /** A carrier with its encoder that has not been loaded. */
  ghost predicate Unopened(c: CarrierFile, e: EncoderPtr, rand: nat -> nat)
    reads c`rawCapacity, c`encoder, c`codewordBlockSize, c`dataBlockSize, c`subkey, c`capacity, c`fileLoaded
    reads c.file, c.permutation.Target(), e.Target()
  {
    Encoded(c, e, rand) && Keyed(c, rand) && !c.fileLoaded
  }

  ghost predicate QueuedAt(t: Loading, i: nat)
    requires i < |t.files|
    reads t.files, t.files[i].file, t.files[i].permutation.Target(), t.encoder.Target(), t.storage
  {
    && Unopened(t.files[i], t.encoder, t.rand(i))
    && LaidOut(t.files[i], t.storage, CapacitiesOf(t.files), t.storage.rawCapacity, i)
  }

  lemma PlacedByLayout(t: Loading, i: nat)
    requires Queued(t) && i < |t.files|
    ensures t.PlacedAt(PlanOf(t), i)
  {
    QueuedFile(t, i);
    PlanIsValid(t);
    hide *;
    AttachedByLayout(t, i);
    PlacedInPlan(t, i);
  }

  lemma QueuedFile(t: Loading, i: nat)
    requires Queued(t) && i < |t.files|
    ensures QueuedAt(t, i) && t.encoder.Valid() && t.storage.Applied()
    ensures t.files[i].permutation.Target() != t.storage.permutation.Target()
  {
    hide QueuedAt, EncoderPtr.Valid, VirtualStorage.Applied;
    OwnObjects(t.files, t.Others(), i, i);
    assert t.files[i].permutation.Target() in Own(t.files[i]);
  }

  lemma PlanIsValid(t: Loading)
    requires Queued(t)
    ensures PlanOf(t).Some? ==> PlanOf(t).value.Valid() && PlanOf(t).value.Capacities() == CapacitiesOf(t.files)
  {
    if PlanOf(t).Some? {
      hide Encoded, Keyed, LaidOut, Opens, VolumeOf, Volume.Valid, Bijective, Perm.Valid, Perm.Size, EncoderPtr.Valid;
      hide Distinct, Volume.Capacities, CapacitiesOf;
      forall i: nat | i < |t.files| ensures Encoded(t.files[i], t.encoder, t.rand(i)) && Keyed(t.files[i], t.rand(i)) {
        assert QueuedAt(t, i);
      }
      VolumeIsValid(t.files, t.encoder, t.rand, t.storage.Global());
    }
  }

  lemma AttachedByLayout(t: Loading, i: nat)
    requires i < |t.files| && QueuedAt(t, i) && t.encoder.Valid() && t.storage.Applied()
    requires t.files[i].permutation.Target() != t.storage.permutation.Target()
    ensures t.files[i].Attached(t.rand(i))
  {
    assert t.storage.rawCapacity == t.storage.Global().Size();
    hide Encoded, Keyed, CarrierFile.Attached, VirtualStorage.Applied, VirtualStorage.Global, EncoderPtr.Valid;
    hide BlocksUsed, BytesUsed, Perm.Size;
    Attachable(t.files[i], t.encoder, t.storage, t.rand(i), CapacitiesOf(t.files), i);
  }

  lemma PlacedInPlan(t: Loading, i: nat)
    requires i < |t.files| && QueuedAt(t, i) && t.storage.Applied() && t.files[i].Attached(t.rand(i))
    requires PlanOf(t).Some? ==> PlanOf(t).value.Valid() && PlanOf(t).value.Capacities() == CapacitiesOf(t.files)
    ensures t.PlacedAt(PlanOf(t), i)
  {
    assert t.storage.rawCapacity == t.storage.Global().Size();
    hide CarrierFile.Attached, VirtualStorage.Applied, VirtualStorage.Global, Perm.Size, Volume.Valid;
    hide Volume.Capacities, CapacitiesOf;
    hide CarrierFile.Valid, CarrierFile.LocalPerm, Announced, Keyed, EncoderPtr.Codec, EncoderPtr.Valid;
    hide Codec.DataSize, Codec.CodeSize, BytesUsed, Offset;
  }

  lemma ReadyFacts(t: Loading, plan: Option<Volume>)
    requires t.Ready(plan)
    ensures t.Spread(plan) && (plan.Some? ==> |plan.value.files| == |t.files|)
    ensures allocated(t.encoder.Target()) && allocated(t.storage.permutation.Target())
    ensures forall c | c in t.files :: allocated(c.permutation.Target())
  {}

  lemma QueuedFacts(t: Loading)
    requires Queued(t)
    ensures t.storage.Applied()
  {}

  lemma HashFits(s: VirtualStorage)
    requires s.Applied()
    ensures s.data.Length >= HASH_LENGTH
  {}

  lemma LoadingStarts(t: Loading)
    requires Queued(t)
    ensures Loaded(t, PlanOf(t), t.storage.data[..], 0)
  {
    PlanIsValid(t);
    forall i: nat | i < |t.files| ensures t.PlacedAt(PlanOf(t), i) && !t.files[i].fileLoaded {
      PlacedByLayout(t, i);
      assert QueuedAt(t, i);
    }
    hide Loading.PlacedAt, Distinct, Volume.Valid, Opens, VolumeOf, QueuedAt, EncoderPtr.Valid;
    if PlanOf(t).Some? { NothingHeld(PlanOf(t).value, t.storage.data[..]); }
  }

  lemma NothingHeld(v: Volume, data: Bytes)
    requires v.Valid() && |data| == v.global.Size()
    ensures Holds(Some(v), data, data, 0)
  {}

  /** Saving one placed carrier. */
  method SavePlaced(c: CarrierFile, s: VirtualStorage, ghost v: Volume, ghost i: nat, rand: nat -> nat)
      returns (r: Status)
    requires Placed(c, s, Some(v), i, rand) && c.fileLoaded && s.data.Length == v.global.Size()
    modifies c`buffer, c.permutation.Target(), c.file
    ensures v.Valid() && i < |v.files|
    ensures r == (if v.SavesAt(i) then Done else Failed(EmptyMember))
    ensures r == Done ==> Placed(c, s, Some(v.SaveAll(s.data[..])), i, rand)
  {
    hide CarrierFile.Attached, CarrierFile.Saved, CarrierFile.LocalPerm, CarrierFile.Ready, VirtualStorage.Global;
    hide EncoderPtr.Codec;
    hide Volume.Valid, Volume.Capacities, Volume.SetupOf, Offset, PermutationPtr.Target, EncoderPtr.Target;
    hide Volume.SaveAll, Perm.Size;
    AttachedApart(c, s, rand);
    r := c.SaveFile(rand);
    if r == Done { SavedAsPlanned(c, s, v, i, rand); }
  }

  lemma SavedAsPlanned(c: CarrierFile, s: VirtualStorage, v: Volume, i: nat, rand: nat -> nat)
    requires c.Attached(rand) && c.storage == s && Assigned(c, s, v, i, rand) && s.data.Length == v.global.Size()
    requires c.Saved(v.files[i].perm, v.files[i].image)
    ensures Placed(c, s, Some(v.SaveAll(s.data[..])), i, rand)
  {
    var data := s.data[..];
    assert c.SetupWith(v.files[i].perm) == v.SetupOf(i);
    SaveKeepsLayout(v, data);
    hide CarrierFile.Attached, CarrierFile.LocalPerm, Volume.Valid, Volume.Capacities, Volume.SetupOf, Offset;
    hide SaveImage, Setup.Fits, EncoderPtr.Codec, VirtualStorage.Global;
    assert v.SaveAll(data).files[i] ==
        File(SaveImage(v.files[i].image, v.SetupOf(i), v.Share(data, i)), v.files[i].perm);
    assert c.Held(v.files[i].perm) == v.Share(data, i);
  }

  /** While the volume v is being saved: the first n carriers make up the saved volume, the others
      still v. */
  ghost predicate Saving(t: Loading, v: Volume, data: Bytes, n: nat)
    reads t.files, set c | c in t.files :: c.file, set c | c in t.files :: c.permutation.Target()
    reads t.encoder.Target(), t.storage, t.storage.permutation.Target(), t.storage.data
  {
    && t.Spread(Some(v)) && n <= |t.files| && t.storage.data[..] == data
    && v.Valid() && |data| == v.global.Size() && PlacedUpTo(t, v, v.SaveAll(data), n)
    && (forall c | c in t.files :: c.fileLoaded)
  }

  /** The first n carriers are those of the volume w, the others those of v. */
  ghost predicate PlacedUpTo(t: Loading, v: Volume, w: Volume, n: nat)
    requires n <= |t.files|
    reads t.files, set c | c in t.files :: c.file, set c | c in t.files :: c.permutation.Target()
    reads t.encoder.Target(), t.storage, t.storage.permutation.Target(), t.storage.data
  {
    && (forall j: nat | j < n :: t.PlacedAt(Some(w), j))
    && (forall j: nat | n <= j < |t.files| :: t.PlacedAt(Some(v), j))
  }

  method SaveOneFile(t: Loading, i: nat, ghost v: Volume, ghost data: Bytes) returns (r: Status)
    requires Saving(t, v, data, i) && i < |t.files|
    modifies t.files[i], t.files[i].permutation.Target(), t.files[i].file
    ensures v.Valid() && i < |v.files| && r == (if v.SavesAt(i) then Done else Failed(EmptyMember))
    ensures t.storage.data == old(t.storage.data) && (r == Done ==> Saving(t, v, data, i + 1))
    ensures t.storage.Applied() == old(t.storage.Applied()) && t.storage.Global() == old(t.storage.Global()) &&
        t.storage.data[..] == old(t.storage.data[..])
  {
    hide *;
    var c := t.files[i];
    OpenSaving(t, v, data, i);
    forall j: nat | j < |t.files| { Untouched(t, Some(v), i, j); }
    assert c in t.files;
    r := SavePlaced(c, t.storage, v, i, t.rand(i));
    if r == Done {
      PlacedAgain(t, Some(v.SaveAll(data)), i);
      NextSaving(t, v, data, i);
    }
  }

  lemma OpenSaving(t: Loading, v: Volume, data: Bytes, i: nat)
    requires Saving(t, v, data, i) && i < |t.files|
    ensures t.Spread(Some(v)) && t.storage.data[..] == data && v.Valid() && |data| == v.global.Size()
    ensures forall j: nat | j < i :: t.PlacedAt(Some(v.SaveAll(data)), j)
    ensures forall j: nat | i <= j < |t.files| :: t.PlacedAt(Some(v), j)
    ensures forall c | c in t.files :: c.fileLoaded
    ensures t.files[i].encoder == Some(t.encoder) && t.files[i].storage == t.storage
    ensures Placed(t.files[i], t.storage, Some(v), i, t.rand(i))
  {
    hide Placed, Distinct, Volume.Valid, Volume.SaveAll, Perm.Size;
    assert t.PlacedAt(Some(v), i);
  }

  lemma NextSaving(t: Loading, v: Volume, data: Bytes, i: nat)
    requires t.Spread(Some(v)) && i < |t.files| && t.storage.data[..] == data && v.Valid() && |data| == v.global.Size()
    requires forall j: nat | j <= i :: t.PlacedAt(Some(v.SaveAll(data)), j)
    requires forall j: nat | i < j < |t.files| :: t.PlacedAt(Some(v), j)
    requires forall c | c in t.files :: c.fileLoaded
    ensures Saving(t, v, data, i + 1)
  {
    hide Loading.PlacedAt, Loading.Spread, Volume.Valid, Volume.SaveAll, Perm.Size;
  }

  /** The saving tasks, one after the other. */
  method SaveFiles(t: Loading, ghost v: Volume, ghost data: Bytes) returns (r: Status)
    requires Saving(t, v, data, 0) && |v.files| == |t.files|
    modifies t.files, set c | c in t.files :: c.permutation.Target(), set c | c in t.files :: c.file
    ensures r == (if AllSaveable(v) then Done else Failed(EmptyMember))
    ensures r == Done ==> Saving(t, v, data, |t.files|)
    ensures t.storage.data == old(t.storage.data) && t.storage.data[..] == old(t.storage.data[..])
    ensures t.storage.Applied() == old(t.storage.Applied()) && t.storage.Global() == old(t.storage.Global())
  {
    hide *;
    r := Done;
    SavingFacts(t, v, data, 0);
    for i := 0 to |t.files|
      invariant r == Done && Saving(t, v, data, i) && v.Valid()
      invariant forall j: nat | j < i :: j < |v.files| && v.SavesAt(j)
      invariant t.storage.data == old(t.storage.data) && t.storage.data[..] == old(t.storage.data[..])
      invariant t.storage.Applied() == old(t.storage.Applied()) && t.storage.Global() == old(t.storage.Global())
    {
      assert t.files[i] in t.files;
      r := SaveOneFile(t, i, v, data);
      if r != Done {
        SaveableIff(v, i, |v.files|);
        return;
      }
    }
    SaveableIff(v, 0, |v.files|);
  }

  lemma SavingStarts(t: Loading, v: Volume)
    requires t.Ready(Some(v)) && v.Valid() && t.storage.data.Length == v.global.Size()
    requires forall c | c in t.files :: c.fileLoaded
    ensures Saving(t, v, t.storage.data[..], 0)
  {
    hide Loading.PlacedAt, Loading.Spread, Volume.Valid, Volume.SaveAll, Perm.Size;
  }

  lemma SavingFacts(t: Loading, v: Volume, data: Bytes, n: nat)
    requires Saving(t, v, data, n)
    ensures v.Valid()
  {}

  lemma SaveableIff(v: Volume, i: nat, n: nat)
    requires v.Valid() && n == |v.files|
    ensures i < n && !v.SavesAt(i) ==> !AllSaveable(v)
    ensures (forall j: nat | j < n :: v.SavesAt(j)) ==> AllSaveable(v)
  {}

  ghost function CapacitiesOf(cs: seq<CarrierFile>): (caps: seq<nat>)
    reads cs`capacity
    ensures |caps| == |cs|
    ensures forall i | 0 <= i < |cs| :: caps[i] == cs[i].capacity
  {
    if cs == [] then [] else CapacitiesOf(cs[..|cs| - 1]) + [cs[|cs| - 1].capacity]
  }

  /** A carrier object over a file, as its constructor leaves it. */
  ghost predicate FreshlyOpened(c: CarrierFile, f: ImageFile, kind: Kind)
    reads c, f, c.permutation.Target()
  {
    && c.file == f && c.Valid() && c.permutation.Size() == 0 && c.permutation.Kind() == kind
    && c.encoder == None && !c.fileLoaded && c.storage == null
  }

  /** The kind of local permutation configured for each format. */
  datatype LocalKinds = LocalKinds(bmp: Kind, jpeg: Kind) {
    function For(img: Image): Kind { if img.Bmp? then bmp else jpeg }
  }

  ghost function Contents(files: seq<ImageFile>): (images: seq<Image>)
    reads files
    ensures |images| == |files| && forall i | 0 <= i < |files| :: images[i] == files[i].content
  {
    seq(|files|, i requires 0 <= i < |files| reads files => files[i].content)
  }

  /** The files whose images have capacity, in their order. */
  ghost function KeptIn(files: seq<ImageFile>, images: seq<Image>): (kept: seq<ImageFile>)
    requires |files| == |images|
    ensures |kept| <= |files| && forall f | f in kept :: f in files
  {
    if files == [] then []
    else
      var n := |files| - 1;
      KeptIn(files[..n], images[..n]) + (if images[n].RawCapacity() > 0 then [files[n]] else [])
  }

  /** The files that become carriers: the factory drops those without capacity. */
  ghost function KeptFiles(files: seq<ImageFile>): (kept: seq<ImageFile>)
    reads files
    ensures |kept| <= |files| && forall f | f in kept :: f in files
  {
    KeptIn(files, Contents(files))
  }

  lemma NoneKept(files: seq<ImageFile>, images: seq<Image>)
    requires |files| == |images|
    ensures KeptIn(files[..0], images[..0]) == []
  {}

  lemma NextKept(files: seq<ImageFile>, images: seq<Image>, k: nat)
    requires |files| == |images| && k < |files|
    ensures KeptIn(files[..k + 1], images[..k + 1])
         == KeptIn(files[..k], images[..k]) + (if images[k].RawCapacity() > 0 then [files[k]] else [])
  {
    hide Image.RawCapacity;
    assert files[..k + 1][..k] == files[..k] && images[..k + 1][..k] == images[..k];
  }

  lemma KeptFilesAre(files: seq<ImageFile>)
    ensures KeptFiles(files) == KeptIn(files, Contents(files))
  {}

  ghost predicate NoRepeats(files: seq<ImageFile>) {
    forall i, j | 0 <= i < j < |files| :: files[i] != files[j]
  }

  lemma NoRepeatsWith(files: seq<ImageFile>, f: ImageFile)
    requires NoRepeats(files) && f !in files
    ensures NoRepeats(files + [f])
  {
    forall i, j | 0 <= i < j < |files| + 1 ensures (files + [f])[i] != (files + [f])[j] {
      assert files[i] in files;
    }
  }

  lemma {:induction false} KeptAreDistinct(files: seq<ImageFile>, images: seq<Image>)
    requires |files| == |images| && NoRepeats(files)
    ensures NoRepeats(KeptIn(files, images))
  {
    if files != [] {
      var n := |files| - 1;
      KeptAreDistinct(files[..n], images[..n]);
      hide Image.RawCapacity;
      var prev := KeptIn(files[..n], images[..n]);
      forall f | f in prev ensures f != files[n] {
        var k :| 0 <= k < n && files[..n][k] == f;
        assert files[k] != files[n];
      }
      assert files[n] !in prev;
      NoRepeatsWith(prev, files[n]);
      assert prev + [] == prev;
    }
  }

  /** Which files are kept depends on nothing but who has capacity. */
  lemma {:induction false} KeptAgain(files: seq<ImageFile>, a: seq<Image>, b: seq<Image>)
    requires |files| == |a| == |b| && forall i | 0 <= i < |files| :: a[i].RawCapacity() == b[i].RawCapacity()
    ensures KeptIn(files, a) == KeptIn(files, b)
  {
    if files != [] {
      var n := |files| - 1;
      KeptAgain(files[..n], a[..n], b[..n]);
    }
  }

  /** `CarrierFileFactory`: a carrier with a new permutation, or none when the file has no capacity. */
  method CreateCarrierFile(f: ImageFile, kinds: LocalKinds, noKey: Key) returns (c: Option<CarrierFile>)
    requires f.content.Valid() && |f.content.samples| <= MAX_AFFINE_SIZE
    ensures c.Some? <==> f.content.RawCapacity() > 0
    ensures c.Some? ==>
              && fresh(c.value) && fresh(c.value.permutation.Target())
              && FreshlyOpened(c.value, f, kinds.For(f.content))
  {
    hide PermutationPtr.Valid, PermutationPtr.Size, PermutationPtr.Kind, Image.Valid, Image.RawCapacity;
    var p := GetPermutation(kinds.For(f.content));
    var file := new CarrierFile(f, p, noKey);
    if file.rawCapacity < 1 { return None; }
    return Some(file);
  }

  class CarrierFilesManager {
    var carrierFiles: seq<CarrierFile>
    var encoder: Option<EncoderPtr>
    var isActiveEncoder: bool
    var capacity: nat
    var virtualStorage: VirtualStorage?

    ghost function Others(): set<object>
      reads this`encoder
    {
      {this} + (if encoder.Some? then {encoder.value.Target()} else {})
    }

    ghost predicate Valid()
      reads this, carrierFiles, set c | c in carrierFiles :: c.file, set c | c in carrierFiles :: c.permutation.Target()
      reads if encoder.Some? then {encoder.value.Target()} else {}
    {
      && Distinct(carrierFiles, Others())
      && (encoder.Some? ==> encoder.value.Valid())
      && forall c | c in carrierFiles :: c.Valid()
    }

    /** Every carrier has the encoder, and together they hold `total` bytes. */
    ghost predicate AllEncoded(total: nat, rand: Randomness)
      reads this`carrierFiles, this`encoder
      reads carrierFiles, set c | c in carrierFiles :: c.file, set c | c in carrierFiles :: c.permutation.Target()
      reads if encoder.Some? then {encoder.value.Target()} else {}
    {
      && encoder.Some? && Distinct(carrierFiles, Others()) &&
          total == Offset(CapacitiesOf(carrierFiles), |carrierFiles|)
      && forall i | 0 <= i < |carrierFiles| :: Encoded(carrierFiles[i], encoder.value, rand(i))
    }

    /** Every permutation can tell its size. */
    ghost predicate SizesKnown(keys: seq<Key>, rand: Randomness)
      requires |keys| == |carrierFiles|
      reads this`carrierFiles, carrierFiles`rawCapacity
    {
      forall i | 0 <= i < |carrierFiles| ::
        SizeResult(carrierFiles[i].permutation.Kind(), 8 * carrierFiles[i].rawCapacity, keys[i], rand(i)).Ok?
    }

    constructor ()
      ensures carrierFiles == [] && encoder == None && !isActiveEncoder && capacity == 0 && virtualStorage == null
    {
      carrierFiles, encoder, isActiveEncoder, capacity, virtualStorage := [], None, false, 0, null;
    }

    /** The carrier objects for the files with capacity, in the order of their names. */
    method LoadDirectory(files: seq<ImageFile>, kinds: LocalKinds, noKey: Key)
      requires forall f | f in files :: f.content.Valid() && |f.content.samples| <= MAX_AFFINE_SIZE
      modifies this`carrierFiles, this`capacity
      ensures capacity == 0 && |carrierFiles| == |KeptFiles(files)|
      ensures forall i | 0 <= i < |carrierFiles| ::
                && FreshlyOpened(carrierFiles[i], KeptFiles(files)[i], kinds.For(KeptFiles(files)[i].content))
                && fresh(carrierFiles[i]) && fresh(carrierFiles[i].permutation.Target())
      ensures forall i, j | 0 <= i < j < |carrierFiles| ::
                && carrierFiles[i] != carrierFiles[j]
                && carrierFiles[i].permutation.Target() != carrierFiles[j].permutation.Target()
    {
      hide *;
      capacity := 0;
      var cs: seq<CarrierFile> := [];
      ghost var images := Contents(files);
      ghost var kept: seq<ImageFile> := [];
      NoneKept(files, images);
      for k := 0 to |files|
        invariant kept == KeptIn(files[..k], images[..k]) && |cs| == |kept| && capacity == 0
        invariant forall i | 0 <= i < |cs| ::
                    && FreshlyOpened(cs[i], kept[i], kinds.For(kept[i].content))
                    && fresh(cs[i]) && fresh(cs[i].permutation.Target()) && allocated(cs[i].permutation.Target())
        invariant forall i, j | 0 <= i < j < |cs| ::
                    cs[i] != cs[j] && cs[i].permutation.Target() != cs[j].permutation.Target()
      {
        assert files[k] in files && images[k] == files[k].content;
        var c := CreateCarrierFile(files[k], kinds, noKey);
        NextKept(files, images, k);
        if c.Some? {
          cs := cs + [c.value];
          kept := kept + [files[k]];
        }
      }
      assert files[..|files|] == files && images[..|files|] == images;
      KeptFilesAre(files);
      forall i | 0 <= i < |cs| ensures cs[i].permutation.Target() != this && kept[i] as object != this {
        FileIsNoManager(kept[i]);
      }
      carrierFiles := cs;
    }

    lemma FileIsNoManager(f: ImageFile)
      ensures f as object != this
    {}

    /** `SetEncoder`: the encoder is not active until it is applied. */
    method SetEncoder(e: EncoderPtr, rand: nat -> nat)
      requires Valid()
      modifies this`encoder, this`isActiveEncoder
      modifies carrierFiles`encoder, carrierFiles`dataBlockSize, carrierFiles`codewordBlockSize
      modifies carrierFiles`blockCount, carrierFiles`capacity
      ensures encoder == Some(e) && !isActiveEncoder
      ensures old(encoder) == None ==>
                forall c | c in carrierFiles :: c.encoder == old(c.encoder) && c.capacity == old(c.capacity)
      ensures old(encoder).Some? ==> forall c | c in carrierFiles :: c.encoder == None && c.capacity == 0
    {
      if encoder.Some? { UnSetEncoder(rand); }
      encoder := Some(e);
      isActiveEncoder := false;
    }

    method UnSetEncoder(rand: nat -> nat)
      requires Valid()
      modifies this`encoder, this`isActiveEncoder
      modifies carrierFiles`encoder, carrierFiles`dataBlockSize, carrierFiles`codewordBlockSize
      modifies carrierFiles`blockCount, carrierFiles`capacity
      ensures encoder == None && !isActiveEncoder
      ensures forall c | c in carrierFiles :: c.encoder == None && c.capacity == 0
    {
      hide *;
      CarriersAreValid();
      for k := 0 to |carrierFiles|
        invariant forall c | c in carrierFiles :: c.Valid()
        invariant forall j | 0 <= j < k :: carrierFiles[j].encoder == None && carrierFiles[j].capacity == 0
      {
        carrierFiles[k].UnSetEncoder(rand);
      }
      encoder := None;
      isActiveEncoder := false;
    }

    lemma CarriersAreValid()
      requires Valid()
      ensures forall c | c in carrierFiles :: c.Valid() && allocated(c.permutation.Target())
      ensures forall c, d | c in carrierFiles && d in carrierFiles ::
                c as object != d.permutation.Target() && c as object != d.file
    {
      hide CarrierFile.Valid, Distinct, EncoderPtr.Valid;
    }

    /** Gives every carrier its subkey and the encoder, and sums their capacities. */
    method ApplyEncoder(keys: seq<Key>, rand: Randomness) returns (r: Status)
      requires Valid() && |keys| == |carrierFiles|
      modifies this`capacity, this`isActiveEncoder, carrierFiles`subkey
      modifies carrierFiles`encoder, carrierFiles`dataBlockSize, carrierFiles`codewordBlockSize
      modifies carrierFiles`blockCount, carrierFiles`capacity
      ensures encoder == None ==> r == Failed(InvalidState)
      ensures encoder.Some? && carrierFiles == [] ==> r == Failed(EmptyMember)
      ensures encoder.Some? && carrierFiles != [] && SizesKnown(keys, rand) ==>
                && (forall i | 0 <= i < |carrierFiles| :: carrierFiles[i].subkey == keys[i])
                && if r == Done then capacity > 0 && isActiveEncoder && AllEncoded(capacity, rand)
                   else r == Failed(ZeroAllocatedSize) && AllEncoded(0, rand)
      ensures r == Done ==> SizesKnown(keys, rand)
    {
      hide *;
      if encoder == None { return Failed(InvalidState); }
      if carrierFiles == [] { return Failed(EmptyMember); }
      var total;
      r, total := EncodeAll(keys, rand);
      if r != Done { return; }
      if total == 0 { return Failed(ZeroAllocatedSize); }
      capacity := total;
      isActiveEncoder := true;
    }

    /** The loop over the carriers. */
    method EncodeAll(keys: seq<Key>, rand: Randomness) returns (r: Status, total: nat)
      requires Valid() && |keys| == |carrierFiles| && encoder.Some?
      modifies carrierFiles`subkey, carrierFiles`encoder, carrierFiles`dataBlockSize, carrierFiles`codewordBlockSize
      modifies carrierFiles`blockCount, carrierFiles`capacity
      ensures r == Done <==> SizesKnown(keys, rand)
      ensures r == Done ==>
                && AllEncoded(total, rand) && encoder.value.Target() != this && allocated(encoder.value.Target())
                && forall i | 0 <= i < |carrierFiles| ::
                     && carrierFiles[i].permutation.Target() != this && allocated(carrierFiles[i].permutation.Target())
                     && carrierFiles[i].subkey == keys[i]
    {
      hide Applied, Valid, Encoded, Distinct, Own;
      r, total := Done, 0;
      ghost var caps: seq<nat> := [];
      ApplyStarts(keys, rand);
      for i := 0 to |carrierFiles|
        invariant r == Done && |caps| == i && total == Offset(caps, i) && Applied(keys, caps, rand)
        invariant forall j | 0 <= j < i ::
          SizeResult(carrierFiles[j].permutation.Kind(), 8 * carrierFiles[j].rawCapacity, keys[j], rand(j)).Ok?
      {
        r := SetOne(carrierFiles[i], keys, caps, rand, i);
        if r != Done { return; }
        total := total + carrierFiles[i].capacity;
        OffsetOfPrefix(caps, [carrierFiles[i].capacity], i);
        caps := caps + [carrierFiles[i].capacity];
      }
      ApplyDone(keys, caps, rand);
    }

    /** The layout loop of `LoadVirtualStorage`. */
    method PlaceFiles(s: VirtualStorage, ghost caps: seq<nat>)
      requires caps == CapacitiesOf(carrierFiles)
      requires forall i | 0 <= i < |carrierFiles| :: carrierFiles[i].dataBlockSize > 0
      requires forall i, j | 0 <= i < j < |carrierFiles| :: carrierFiles[i] != carrierFiles[j]
      modifies carrierFiles`storage, carrierFiles`virtualStorageOffset, carrierFiles`blocksUsed
      ensures forall i | 0 <= i < |carrierFiles| :: LaidOut(carrierFiles[i], s, caps, s.rawCapacity, i)
    {
      hide LaidOut, Offset, Remaining;
      var offset: nat := 0;
      var remaining: nat := s.rawCapacity;
      LayoutStarts(caps, remaining);
      for i := 0 to |carrierFiles|
        invariant offset == Offset(caps, i) && remaining == Remaining(caps, s.rawCapacity, i)
        invariant forall j | 0 <= j < i :: LaidOut(carrierFiles[j], s, caps, s.rawCapacity, j)
      {
        offset, remaining := PlaceFile(carrierFiles[i], s, offset, remaining, caps, s.rawCapacity, i);
      }
    }

    /** The loading task on a storage. */
    ghost function Task(s: VirtualStorage, rand: Randomness): Loading
      requires encoder.Some?
      reads this`carrierFiles, this`encoder
    {
      Loading(carrierFiles, encoder.value, s, rand)
    }

    /** The carriers are freshly opened and have the encoder; the storage is separate from them. */
    ghost predicate CanLoad(s: VirtualStorage, rand: Randomness)
      reads this, s, s.permutation.Target()
      reads carrierFiles, set c | c in carrierFiles :: c.file, set c | c in carrierFiles :: c.permutation.Target()
      reads if encoder.Some? then {encoder.value.Target()} else {}
    {
      && s.Valid() && AllEncoded(capacity, rand) && encoder.value.Valid()
      && Distinct(carrierFiles, {this, encoder.value.Target(), s, s.permutation.Target()})
      && encoder.value.Target() != s && encoder.value.Target() != s.permutation.Target()
      && encoder.value.Target() != this && this != s.permutation.Target()
      && forall i: nat | i < |carrierFiles| :: Unopened(carrierFiles[i], encoder.value, rand(i))
    }

    lemma CanLoadFacts(s: VirtualStorage, rand: Randomness, i: nat)
      requires CanLoad(s, rand) && i < |carrierFiles|
      ensures var c, e := carrierFiles[i], encoder.value.Target();
              && Unopened(c, encoder.value, rand(i)) && c.dataBlockSize > 0
              && allocated(c.permutation.Target())
              && c.permutation.Target() != s && c.permutation.Target() != s.permutation.Target() &&
                  c.permutation.Target() != this
              && c != s.permutation.Target() && c.file as object != s.permutation.Target() && c != e && c.file != e &&
                  c.permutation.Target() != e
              && c as object != this && c as object != s && c.file as object != this && c.file as object != s
              && forall j: nat | j < |carrierFiles| :: c.permutation.Target() != carrierFiles[j] &&
                  c.file as object != carrierFiles[j] && (i != j ==> c != carrierFiles[j])
    {
      var others := {this, encoder.value.Target(), s, s.permutation.Target()};
      var c := carrierFiles[i];
      assert c in Own(c) && c.file in Own(c) && c.permutation.Target() in Own(c);
      assert Unopened(c, encoder.value, rand(i));
      encoder.value.CodecIsValid();
      encoder.value.Codec().Sizes();
      OwnObjects(carrierFiles, others, i, i);
      forall j: nat | j < |carrierFiles|
        ensures c.permutation.Target() != carrierFiles[j] && c.file as object != carrierFiles[j] &&
            (i != j ==> c != carrierFiles[j])
      {
        OwnObjects(carrierFiles, others, i, j);
        assert carrierFiles[j] in Own(carrierFiles[j]);
      }
    }

    /** The volume the carriers make up under a global permutation. */
    ghost function PlanFor(rand: Randomness, global: Perm): (plan: Option<Volume>)
      requires encoder.Some?
      reads this`carrierFiles, this`encoder
      reads carrierFiles, set c | c in carrierFiles :: c.file, set c | c in carrierFiles :: c.permutation.Target()
      reads if encoder.Some? then {encoder.value.Target()} else {}
      ensures plan.Some? <==> Opens(carrierFiles, rand)
      ensures plan.Some? ==> plan.value == VolumeOf(carrierFiles, rand, encoder.value.Codec(), global)
    {
      if Opens(carrierFiles, rand) then Some(VolumeOf(carrierFiles, rand, encoder.value.Codec(), global)) else None
    }

    /** Sizes the storage and lays the carriers out in it. */
    method Prepare(s: VirtualStorage, masterKey: Key, globalRand: nat -> nat, ghost rand: Randomness, memory: Bytes)
        returns (r: Status)
      requires encoder.Some? && CanLoad(s, rand) && Supported(s.permutation.Kind(), capacity) && |memory| >= capacity
      modifies s, s.permutation.Target()
      modifies carrierFiles`storage, carrierFiles`virtualStorageOffset, carrierFiles`blocksUsed
      ensures unchanged(this) && encoder.value.Target() != this && s.permutation.Target() != this
      ensures forall c | c in carrierFiles :: c.permutation.Target() != this
      ensures match InitResult(s.permutation.Kind(), capacity, masterKey, globalRand)
              case Err(e) => r == Failed(e)
              case Ok(g) =>
                if g.Size() <= HASH_LENGTH then r == Failed(OutOfRange)
                else
                  && r == Done && Queued(Task(s, rand)) && fresh(s.data) && s.data[..] <= memory
                  && PlanOf(Task(s, rand)) == old(PlanFor(rand, g))
    {
      hide *;
      SharedFacts(s, rand);
      forall c | c in carrierFiles ensures c.permutation.Target() != this {
        var i: nat :| i < |carrierFiles| && carrierFiles[i] == c;
        CanLoadFacts(s, rand, i);
      }
      ghost var caps := CapacitiesOf(carrierFiles);
      ghost var init := InitResult(s.permutation.Kind(), capacity, masterKey, globalRand);
      ghost var g := if init.Ok? then init.value else Identity(0);
      ghost var plan := PlanFor(rand, g);
      PlanMatches(rand, g);
      r := SizeStorage(s, masterKey, globalRand, rand, memory, plan, g);
      if r != Done { return; }
      label Sized: SizedFacts(s, rand);
      PlaceFiles(s, caps);
      forall i: nat | i < |carrierFiles| ensures s.data as object !in Own(carrierFiles[i]) {
        NotOwn(carrierFiles[i], s.data);
      }
      NowQueued(s, rand, caps);
      MatchingPlan(s, plan, rand, g);
    }

    /** The storage has its size, and the carriers are as they were. */
    ghost predicate Sized(s: VirtualStorage, rand: Randomness)
      reads this, s, s.permutation.Target()
      reads carrierFiles, set c | c in carrierFiles :: c.file, set c | c in carrierFiles :: c.permutation.Target()
      reads if encoder.Some? then {encoder.value.Target()} else {}
    {
      && encoder.Some? && s.Applied() && CanLoad(s, rand)
      && s.Global().Size() <= Offset(CapacitiesOf(carrierFiles), |carrierFiles|)
      && forall i: nat | i < |carrierFiles| :: s.data as object != carrierFiles[i].permutation.Target()
    }

    lemma SizedFacts(s: VirtualStorage, rand: Randomness)
      requires Sized(s, rand)
      ensures encoder.value.Valid() && s.Applied()
      ensures Distinct(carrierFiles, {this, encoder.value.Target(), s, s.permutation.Target()})
      ensures s.Global().Size() <= Offset(CapacitiesOf(carrierFiles), |carrierFiles|)
      ensures forall i: nat | i < |carrierFiles| ::
                && Unopened(carrierFiles[i], encoder.value, rand(i)) && carrierFiles[i].dataBlockSize > 0
                && s.data as object != carrierFiles[i].permutation.Target() && s.data as object != carrierFiles[i].file
                && s.data as object != carrierFiles[i] && carrierFiles[i].permutation.Target() != this
                && allocated(carrierFiles[i].permutation.Target())
                && forall j: nat | j < |carrierFiles| ::
                     && carrierFiles[i].permutation.Target() != carrierFiles[j] &&
                         carrierFiles[i].file as object != carrierFiles[j]
                     && (i != j ==> carrierFiles[i] != carrierFiles[j])
      ensures forall j: nat | j < |carrierFiles| ::
                s.permutation.Target() != carrierFiles[j] && s as object != carrierFiles[j] &&
                    encoder.value.Target() != carrierFiles[j]
      ensures allocated(encoder.value.Target()) && allocated(s.permutation.Target())
    {
      hide CanLoad, Unopened, Distinct, Offset, CapacitiesOf, VirtualStorage.Applied, VirtualStorage.Global;
      hide EncoderPtr.Valid;
      SharedFacts(s, rand);
      forall i: nat | i < |carrierFiles| { CanLoadFacts(s, rand, i); }
    }

    method SizeStorage(s: VirtualStorage, masterKey: Key, globalRand: nat -> nat, ghost rand: Randomness, memory: Bytes,
                       ghost plan: Option<Volume>, ghost g: Perm) returns (r: Status)
      requires encoder.Some? && CanLoad(s, rand) && Supported(s.permutation.Kind(), capacity) && |memory| >= capacity
      modifies s, s.permutation.Target()
      ensures match InitResult(s.permutation.Kind(), capacity, masterKey, globalRand)
              case Err(e) => r == Failed(e)
              case Ok(g) =>
                if g.Size() <= HASH_LENGTH then r == Failed(OutOfRange)
                else r == Done && Sized(s, rand) && s.Global() == g && fresh(s.data) && s.data[..] <= memory
      ensures unchanged(this) && encoder.value.Codec() == old(encoder.value.Codec())
      ensures CapacitiesOf(carrierFiles) == old(CapacitiesOf(carrierFiles))
      ensures old(Matches(plan, rand, g)) ==> Matches(plan, rand, g)
    {
      hide *;
      forall i: nat | i < |carrierFiles| { CanLoadFacts(s, rand, i); }
      SharedFacts(s, rand);
      r := s.ApplyPermutation(capacity, masterKey, globalRand, memory);
      if r != Done { return; }
      InitFitsRequest(s.permutation.Kind(), capacity, masterKey, globalRand);
      NowSized(s, rand);
    }

    lemma NowSized(s: VirtualStorage, rand: Randomness)
      requires encoder.Some? && s.Valid() && s.Applied() && encoder.value.Valid()
      requires capacity == Offset(CapacitiesOf(carrierFiles), |carrierFiles|) && s.Global().Size() <= capacity
      requires Distinct(carrierFiles, {this, encoder.value.Target(), s, s.permutation.Target()})
      requires encoder.value.Target() != s && encoder.value.Target() != s.permutation.Target()
      requires encoder.value.Target() != this && this != s.permutation.Target()
      requires forall i: nat | i < |carrierFiles| ::
        Unopened(carrierFiles[i], encoder.value, rand(i)) && s.data as object != carrierFiles[i].permutation.Target()
      ensures Sized(s, rand)
    {
      hide Distinct, Offset, CapacitiesOf, VirtualStorage.Applied, VirtualStorage.Valid, VirtualStorage.Global;
      hide EncoderPtr.Valid, Encoded, Keyed, Own;
      FewerOthers(carrierFiles, {this, encoder.value.Target(), s, s.permutation.Target()}, Others());
    }

    lemma SharedFacts(s: VirtualStorage, rand: Randomness)
      requires CanLoad(s, rand)
      ensures var e := encoder.value.Target();
              && s.Valid() && encoder.value.Valid() && capacity == Offset(CapacitiesOf(carrierFiles), |carrierFiles|)
              && e != s && e != s.permutation.Target() && e != this && this != s.permutation.Target()
              && s != s.permutation.Target() && this as object != s && allocated(e) && allocated(s.permutation.Target())
              && Distinct(carrierFiles, {this, e, s, s.permutation.Target()})
    {}

    /** What is queued once every carrier is laid out. */
    lemma NowQueued(s: VirtualStorage, rand: Randomness, caps: seq<nat>)
      requires encoder.Some? && encoder.value.Valid() && s.Applied()
      requires Distinct(carrierFiles, {this, encoder.value.Target(), s, s.permutation.Target()})
      requires caps == CapacitiesOf(carrierFiles) && s.Global().Size() <= Offset(caps, |carrierFiles|)
      requires forall i: nat | i < |carrierFiles| ::
        && Unopened(carrierFiles[i], encoder.value, rand(i)) && s.data as object !in Own(carrierFiles[i])
        && LaidOut(carrierFiles[i], s, caps, s.rawCapacity, i)
      ensures Queued(Task(s, rand))
    {
      hide Unopened, LaidOut, EncoderPtr.Valid, VirtualStorage.Applied, VirtualStorage.Global, Offset;
      var t := Task(s, rand);
      forall i | 0 <= i < |t.files| ensures Own(t.files[i]) !! t.Others() {
        OwnObjects(carrierFiles, {this, encoder.value.Target(), s, s.permutation.Target()}, i, i);
      }
    }

    /** The plan describes the carriers. */
    ghost predicate Matches(plan: Option<Volume>, rand: Randomness, g: Perm)
      reads this`carrierFiles, this`encoder
      reads carrierFiles`rawCapacity, carrierFiles`subkey
      reads set c | c in carrierFiles :: c.file, set c | c in carrierFiles :: c.permutation.Target()
      reads if encoder.Some? then {encoder.value.Target()} else {}
    {
      && encoder.Some?
      && (plan.Some? <==> forall i: nat | i < |carrierFiles| :: carrierFiles[i].LocalPerm(rand(i)).Ok?)
      && (plan.Some? ==>
            var v := plan.value;
            && |v.files| == |carrierFiles| && v.codec == encoder.value.Codec() && v.global == g
            && forall i: nat | i < |carrierFiles| ::
                 v.files[i].image == carrierFiles[i].file.content &&
                     Ok(v.files[i].perm) == carrierFiles[i].LocalPerm(rand(i)))
    }

    lemma PlanMatches(rand: Randomness, g: Perm)
      requires encoder.Some?
      ensures Matches(PlanFor(rand, g), rand, g)
    {
      hide CarrierFile.LocalPerm, EncoderPtr.Codec;
    }

    lemma MatchingPlan(s: VirtualStorage, plan: Option<Volume>, rand: Randomness, g: Perm)
      requires encoder.Some? && Matches(plan, rand, g) && s.Global() == g
      ensures PlanOf(Task(s, rand)) == plan
    {
      hide CarrierFile.LocalPerm, EncoderPtr.Codec, VirtualStorage.Global;
      var now := PlanOf(Task(s, rand));
      if now.Some? { assert now.value.files == plan.value.files; }
    }

    /** The carriers are loaded, and make up the volume. */
    ghost predicate Opened(v: Volume, rand: Randomness)
      reads this, if virtualStorage == null then {} else {virtualStorage, virtualStorage.permutation.Target()}
      reads carrierFiles, set c | c in carrierFiles :: c.file, set c | c in carrierFiles :: c.permutation.Target()
      reads if encoder.Some? then {encoder.value.Target()} else {}
    {
      && virtualStorage != null && encoder.Some? && virtualStorage.Applied()
      && v.Valid() && v.global == virtualStorage.Global()
      && Task(virtualStorage, rand).Ready(Some(v))
      && forall c | c in carrierFiles :: c.fileLoaded
    }

    lemma TaskIs(s: VirtualStorage, rand: Randomness)
      requires encoder.Some?
      ensures Task(s, rand) == Loading(carrierFiles, encoder.value, s, rand)
    {}

    /** The storage, which began with `before`, holds what the carriers of the volume held, and `ok` is
        its checksum test. */
    ghost predicate LoadedAll(v: Volume, rand: Randomness, memory: Bytes, before: Bytes, h: Bytes -> Bytes, ok: bool)
      reads this
      reads if virtualStorage == null then {}
            else {virtualStorage, virtualStorage.permutation.Target(), virtualStorage.data}
      reads carrierFiles, set c | c in carrierFiles :: c.file, set c | c in carrierFiles :: c.permutation.Target()
      reads if encoder.Some? then {encoder.value.Target()} else {}
    {
      && Opened(v, rand) && before <= memory && Holds(Some(v), before, virtualStorage.data[..], |carrierFiles|)
      && virtualStorage.data.Length >= HASH_LENGTH && ok == ChecksumValid(h, virtualStorage.data[..])
    }

    /** Loads every carrier into the storage; the answer is the checksum test. */
    method LoadVirtualStorage(s: VirtualStorage?, masterKey: Key, globalRand: nat -> nat, rand: Randomness,
                              memory: Bytes, h: Bytes -> Bytes) returns (r: Result<bool>, ghost before: Bytes)
      requires IsHash(h)
      requires s != null && encoder.Some? && isActiveEncoder ==>
                 CanLoad(s, rand) && Supported(s.permutation.Kind(), capacity) && |memory| >= capacity
      modifies this`virtualStorage, carrierFiles, set c | c in carrierFiles :: c.permutation.Target()
      modifies if s == null then {} else {s, s.permutation.Target()}
      ensures s == null || encoder == None || !isActiveEncoder ==> r == Err(InvalidState)
      ensures s != null && encoder.Some? && isActiveEncoder ==>
                match InitResult(s.permutation.Kind(), capacity, masterKey, globalRand)
                case Err(e) => r == Err(e)
                case Ok(g) =>
                  if g.Size() <= HASH_LENGTH then r == Err(OutOfRange)
                  else
                    var plan := old(PlanFor(rand, g));
                    && (r.Ok? <==> plan.Some? && AllLoadable(plan.value))
                    && (r.Ok? ==>
                          && virtualStorage == s && fresh(s.data)
                          && LoadedAll(plan.value, rand, memory, before, h, r.value))
    {
      hide *;
      before := [];
      if s == null { return Err(InvalidState), before; }
      if encoder == None { return Err(InvalidState), before; }
      if !isActiveEncoder { return Err(InvalidState), before; }
      var status := Prepare(s, masterKey, globalRand, rand, memory);
      if status != Done { return Err(status.error), before; }
      var t := Loading(carrierFiles, encoder.value, s, rand);
      before := s.data[..];
      ghost var plan := PlanOf(t);
      TaskIs(s, rand);
      LoadingStarts(t);
      QueuedFacts(t);
      status := LoadFiles(t, plan, before);
      if status != Done { return Err(status.error), before; }
      var ok := FinishLoading(t, plan, memory, before, h);
      return Ok(ok), before;
    }

    /** The end of `LoadVirtualStorage`: the storage becomes the manager's, and its checksum is tested. */
    method FinishLoading(t: Loading, ghost plan: Option<Volume>, ghost memory: Bytes, ghost before: Bytes,
                         h: Bytes -> Bytes) returns (ok: bool)
      requires IsHash(h) && encoder == Some(t.encoder) && carrierFiles == t.files && t.storage.Applied()
      requires plan.Some? && Loaded(t, plan, before, |t.files|) && plan.value.global == t.storage.Global()
      requires t.Ready(plan) && before <= memory && t.encoder.Target() != this && t.storage.permutation.Target() != this
      requires forall c | c in t.files :: c.permutation.Target() != this
      modifies this`virtualStorage
      ensures virtualStorage == t.storage && AllLoadable(plan.value)
      ensures LoadedAll(plan.value, t.rand, memory, before, h, ok)
    {
      hide *;
      ReadyFacts(t, plan);
      assert forall c: CarrierFile | c in t.files :: (c as object) != this && (c.file as object) != this;
      virtualStorage := t.storage;
      HashFits(t.storage);
      ok := t.storage.IsValidChecksum(h);
      NowOpened(t, plan, memory, before, h, ok);
    }

    lemma NowOpened(t: Loading, plan: Option<Volume>, memory: Bytes, before: Bytes, h: Bytes -> Bytes, ok: bool)
      requires encoder == Some(t.encoder) && carrierFiles == t.files && virtualStorage == t.storage &&
          t.storage.Applied()
      requires plan.Some? && Loaded(t, plan, before, |t.files|) && plan.value.global == t.storage.Global()
      requires before <= memory && t.storage.data.Length >= HASH_LENGTH && ok == ChecksumValid(h, t.storage.data[..])
      ensures LoadedAll(plan.value, t.rand, memory, before, h, ok) && AllLoadable(plan.value)
    {
      hide Loading.Ready, VirtualStorage.Applied, Volume.LoadsAt, Volume.LoadFirst;
      ReadyFacts(t, plan);
      forall c | c in carrierFiles ensures c.fileLoaded {
        var i: nat :| i < |carrierFiles| && carrierFiles[i] == c;
        assert t.files[i].fileLoaded;
      }
    }

    /** Stores the checksum and saves every carrier. */
    method SaveVirtualStorage(h: Bytes -> Bytes, rand: Randomness, ghost v: Volume) returns (r: Status)
      requires IsHash(h) && (virtualStorage != null ==> Opened(v, rand))
      modifies carrierFiles, set c | c in carrierFiles :: c.permutation.Target(), set c | c in carrierFiles :: c.file
      modifies if virtualStorage == null then {} else {virtualStorage.data}
      ensures virtualStorage == null ==> r == Failed(InvalidState)
      ensures virtualStorage != null ==>
                && r == (if AllSaveable(v) then Done else Failed(EmptyMember))
                && |old(virtualStorage.data[..])| >= HASH_LENGTH
                && var data := WithChecksum(h, old(virtualStorage.data[..]));
                   && virtualStorage.data[..] == data && v.Valid() && |data| == v.global.Size()
                   && (r == Done ==> Opened(v.SaveAll(data), rand))
    {
      hide *;
      if virtualStorage == null { return Failed(InvalidState); }
      OpenedHasEncoder(v, rand);
      var t := Loading(carrierFiles, encoder.value, virtualStorage, rand);
      OpenedFacts(t, v);
      virtualStorage.WriteChecksum(h);
      SavingStarts(t, v);
      r := SaveFiles(t, v, virtualStorage.data[..]);
      if r == Done { StillOpened(t, v, virtualStorage.data[..]); }
    }

    lemma OpenedFacts(t: Loading, v: Volume)
      requires Opened(v, t.rand) && t == Loading(carrierFiles, encoder.value, virtualStorage, t.rand)
      ensures t.Ready(Some(v)) && t.storage.Applied() && v.Valid() && v.global == t.storage.Global() &&
          |v.files| == |t.files|
      ensures forall c | c in t.files :: c.fileLoaded && c.permutation.Target() != t.storage.data as object
                && allocated(c.permutation.Target()) && c.permutation.Target() != this
      ensures t.encoder.Target() != t.storage.data as object &&
          t.storage.permutation.Target() != t.storage.data as object
      ensures allocated(t.encoder.Target()) && allocated(t.storage.permutation.Target())
      ensures t.storage.data.Length == v.global.Size() >= HASH_LENGTH
    {
      hide Loading.PlacedAt, Volume.Valid, Distinct;
    }

    lemma StillOpened(t: Loading, v: Volume, data: Bytes)
      requires encoder == Some(t.encoder) && carrierFiles == t.files && virtualStorage == t.storage &&
          t.storage.Applied()
      requires Saving(t, v, data, |t.files|) && v.global == t.storage.Global() && |v.files| == |t.files|
      ensures v.Valid() && |data| == v.global.Size() && Opened(v.SaveAll(data), t.rand)
    {
      hide Loading.PlacedAt, Loading.Spread, Volume.Valid, Volume.SaveAll, Perm.Size, Distinct;
      hide VirtualStorage.Applied, VirtualStorage.Global;
      SaveKeepsLayout(v, data);
      SpreadAgain(t, v, v.SaveAll(data));
    }

    lemma SpreadAgain(t: Loading, v: Volume, w: Volume)
      requires t.Spread(Some(v)) && |w.files| == |v.files|
      ensures t.Spread(Some(w))
    {}

    lemma OpenedHasEncoder(v: Volume, rand: Randomness)
      requires Opened(v, rand)
      ensures encoder.Some?
    {}

    /** The first |caps| carriers have the encoder and those capacities. */
    ghost predicate Applied(keys: seq<Key>, caps: seq<nat>, rand: Randomness)
      reads this`encoder, this`carrierFiles
      reads carrierFiles, set c | c in carrierFiles :: c.file, set c | c in carrierFiles :: c.permutation.Target()
      reads if encoder.Some? then {encoder.value.Target()} else {}
    {
      && encoder.Some? && encoder.value.Valid() && Distinct(carrierFiles, Others())
      && |caps| <= |carrierFiles| == |keys|
      && (forall j | 0 <= j < |carrierFiles| :: carrierFiles[j].Valid())
      && forall j | 0 <= j < |caps| ::
           && caps[j] == carrierFiles[j].capacity && carrierFiles[j].subkey == keys[j]
           && Encoded(carrierFiles[j], encoder.value, rand(j))
    }

    lemma ApplyStarts(keys: seq<Key>, rand: Randomness)
      requires Valid() && |keys| == |carrierFiles| && encoder.Some?
      ensures Applied(keys, [], rand)
    {
      hide CarrierFile.Valid, EncoderPtr.Valid, Distinct;
    }

    lemma ApplyDone(keys: seq<Key>, caps: seq<nat>, rand: Randomness)
      requires Applied(keys, caps, rand) && |caps| == |carrierFiles|
      ensures AllEncoded(Offset(caps, |caps|), rand) && allocated(encoder.value.Target()) &&
          encoder.value.Target() != this
      ensures forall j | 0 <= j < |carrierFiles| ::
                && carrierFiles[j].permutation.Target() != this && allocated(carrierFiles[j].permutation.Target())
                && carrierFiles[j].subkey == keys[j]
    {
      hide Encoded;
      assert caps == CapacitiesOf(carrierFiles);
      forall j | 0 <= j < |carrierFiles| ensures carrierFiles[j].permutation.Target() != this {
        OwnObjects(carrierFiles, Others(), j, j);
        assert this in Others() && carrierFiles[j].permutation.Target() in Own(carrierFiles[j]);
      }
    }

    method SetOne(file: CarrierFile, keys: seq<Key>, ghost caps: seq<nat>, rand: Randomness, i: nat) returns (r: Status)
      requires Applied(keys, caps, rand) && i == |caps| < |carrierFiles| && file == carrierFiles[i]
      modifies file`subkey, file`encoder, file`dataBlockSize, file`codewordBlockSize, file`blockCount, file`capacity
      ensures r == Done <==> SizeResult(file.permutation.Kind(), 8 * file.rawCapacity, keys[i], rand(i)).Ok?
      ensures r == Done ==> Applied(keys, caps + [file.capacity], rand)
    {
      ghost var cs, others := carrierFiles, Others();
      OwnObjects(cs, others, i, i);
      assert this in others && encoder.value.Target() in others && cs[i] in Own(cs[i]);
      assert allocated(encoder.value.Target()) && forall j | 0 <= j < |cs| :: allocated(cs[j].permutation.Target());
      hide SizeResult, EncoderPtr.Valid, EncoderPtr.Codec, PermutationPtr.Valid, Encoded, Distinct, CarrierFile.Valid;
      r := SetSubkeyAndEncoder(file, keys[i], encoder.value, rand(i));
      forall j | 0 <= j < |cs| && j != i
        ensures cs[j].Valid() && cs[j].capacity == old(cs[j].capacity) && cs[j].subkey == old(cs[j].subkey)
        ensures j < i ==> Encoded(cs[j], encoder.value, rand(j))
      {
        OwnObjects(cs, others, i, j);
        assert cs[i] !in Own(cs[j]);
        assert cs[j] in Own(cs[j]) && cs[j].file in Own(cs[j]) && cs[j].permutation.Target() in Own(cs[j]);
      }
    }
  }

  method SetSubkeyAndEncoder(c: CarrierFile, key: Key, e: EncoderPtr, rand: nat -> nat) returns (r: Status)
    requires c.Valid() && e.Valid() && e.Target() != c
    modifies c`subkey, c`encoder, c`dataBlockSize, c`codewordBlockSize, c`blockCount, c`capacity
    ensures c.Valid() && c.subkey == key && e.Valid()
    ensures r == Done <==> SizeResult(c.permutation.Kind(), 8 * c.rawCapacity, key, rand).Ok?
    ensures r == Done ==> Encoded(c, e, rand)
  {
    assert allocated(e.Target()) && allocated(c.permutation.Target());
    hide SizeResult, EncoderPtr.Valid, EncoderPtr.Codec, CarrierFile.Valid;
    c.SetSubkey(key);
    r := c.SetEncoder(Some(e), rand);
  }

  /** Freshly opened carriers over the saved files, with the same keys, make up the saved volume. */
  lemma ReopenedVolume(cs: seq<CarrierFile>, rand: Randomness, v: Volume, data: Bytes)
    requires v.Valid() && |data| == v.global.Size() && |cs| == |v.files|
    requires forall i | 0 <= i < |cs| ::
      && cs[i].Valid() && cs[i].permutation.Size() == 0
      && cs[i].file.content == v.SaveAll(data).files[i].image
      && InitResult(cs[i].permutation.Kind(), 8 * v.files[i].image.RawCapacity(), cs[i].subkey, rand(i)) ==
          Ok(v.files[i].perm)
    ensures Opens(cs, rand) && VolumeOf(cs, rand, v.codec, v.global) == v.SaveAll(data)
  {
    var w := v.SaveAll(data);
    forall i | 0 <= i < |cs| ensures cs[i].LocalPerm(rand(i)) == Ok(v.files[i].perm) &&
        w.files[i].perm == v.files[i].perm {
      v.SetupFits(i);
      SavedImageIsValid(v.files[i].image, v.SetupOf(i), v.Share(data, i));
      hide SaveImage, Volume.SetupOf, Volume.Share, InitResult, Volume.Valid, Volume.Capacities, Image.RawCapacity;
      hide Setup.Fits;
    }
    hide CarrierFile.LocalPerm, Volume.SaveAll, Volume.Valid;
    assert VolumeOf(cs, rand, v.codec, v.global).files == w.files;
  }

  /** Saving succeeds exactly when every carrier has capacity and begins inside the storage. */
  lemma AllSaveableIff(v: Volume)
    requires v.Valid()
    ensures AllSaveable(v) <==>
            forall i: nat | i < |v.files| :: v.Capacities()[i] > 0 && Offset(v.Capacities(), i) < v.global.Size()
  {
    var caps := v.Capacities();
    v.codec.Sizes();
    forall i: nat | i < |v.files| ensures v.SavesAt(i) <==> caps[i] > 0 && Offset(caps, i) < v.global.Size() {
      CarrierIsUsed(caps, v.global.Size(), i, v.codec.DataSize());
    }
  }

  /** What could be saved can be loaded again. */
  lemma SavedIsLoadable(v: Volume, data: Bytes)
    requires v.Valid() && |data| == v.global.Size() && AllSaveable(v)
    ensures v.SaveAll(data).Valid() && AllLoadable(v.SaveAll(data)) && AllSaveable(v.SaveAll(data))
  {
    SaveKeepsLayout(v, data);
    hide Volume.SaveAll, Volume.SetupOf, Volume.Valid;
    var w := v.SaveAll(data);
    assert w.codec.Valid() by { hide *; ValidCodec(w); }
    forall i: nat | i < |w.files| ensures w.LoadsAt(i) && w.SavesAt(i) {
      assert v.SavesAt(i) && w.SetupOf(i) == v.SetupOf(i);
    }
  }

  lemma ValidCodec(v: Volume)
    requires v.Valid()
    ensures v.codec.Valid()
  {}

  /** End to end: after the carriers of a saved volume have been reopened and loaded, the storage is
      the one that was saved, its user's bytes are those written, and the checksum test succeeds. */
  lemma LoadedIsSaved(m: CarrierFilesManager, v: Volume, rand: Randomness, h: Bytes -> Bytes, before: Bytes, at: nat,
      content: Bytes, memory: Bytes, garbage: Bytes, ok: bool)
    requires v.Valid() && IsHash(h) && |before| == v.global.Size() > HASH_LENGTH
    requires at + |content| + HASH_LENGTH <= |before|
    requires var saved := WithChecksum(h, Splice(before, at, content));
             |saved| == v.global.Size() && m.LoadedAll(v.SaveAll(saved), rand, memory, garbage, h, ok)
    ensures m.virtualStorage != null
    ensures var loaded := m.virtualStorage.data[..];
            && loaded == WithChecksum(h, Splice(before, at, content))
            && at + |content| <= |loaded| && loaded[at..at + |content|] == content && ok
  {
    var saved := WithChecksum(h, Splice(before, at, content));
    SavedContent(h, before, at, content);
    LoadAfterSaveAll(v, saved, garbage);
    hide WithChecksum, Splice, ChecksumValid, Volume.Valid, Volume.SaveAll, Volume.LoadFirst, Loading.PlacedAt;
    assert |m.carrierFiles| == |v.files|;
  }

  lemma {:induction false} OffsetOfPrefix(a: seq<nat>, b: seq<nat>, i: nat)
    requires i <= |a|
    ensures Offset(a + b, i) == Offset(a, i)
  {
    if i > 0 { OffsetOfPrefix(a, b, i - 1); }
  }
}
