/** src/virtual_storage/virtual_storage.cc: the storage buffer, its plain accesses for the user and
    its permuted accesses for the carriers, and the checksum behind the user's bytes. */
module VirtualStorage {
  import opened Bits
  import opened StegoMath
  import opened Outcomes
  import opened HammingCode
  import opened Permutations
  import opened PermutationObjects
  import opened Layout
  import opened Volumes

  class VirtualStorage {
    const permutation: PermutationPtr
    var isSetGlobalPermutation: bool
    var rawCapacity: nat
    var usableCapacity: nat
    var data: array<byte>

    /** The permutation as a value. */
    ghost function Global(): Perm reads this, permutation.Target() { permutation.State() }

    ghost predicate Valid() reads this, permutation.Target() {
      && permutation.Valid()
      && (isSetGlobalPermutation ==>
            && permutation.Size() == rawCapacity == data.Length
            && rawCapacity == usableCapacity + HASH_LENGTH
            && usableCapacity > 0 && rawCapacity < WORD)
    }

    ghost predicate Applied() reads this, permutation.Target() {
      && Valid() && isSetGlobalPermutation
      && Global().Valid() && Bijective(Global()) && Global().Size() == rawCapacity
    }

    /** What a carrier reads at a position; 0 behind the storage. */
    ghost function At(position: nat): byte
      requires Applied()
      reads this, permutation.Target(), data
    {
      FetchAt(data[..], Global(), position)
    }

    constructor (p: PermutationPtr)
      requires p.Valid()
      ensures Valid() && permutation == p && !isSetGlobalPermutation && fresh(data)
    {
      permutation := p;
      isSetGlobalPermutation, rawCapacity, usableCapacity := false, 0, 0;
      data := new byte[0];
    }

    /** Sizes the storage by the global permutation; the buffer starts with arbitrary contents.  When
        an earlier application is repeated and fails, the sizes stay those of the earlier one, whatever
        has become of the permutation. */
    method ApplyPermutation(requested: nat, key: Key, rand: nat -> nat, memory: Bytes) returns (r: Status)
      requires Valid() && Supported(permutation.Kind(), requested) && |memory| >= requested
      modifies this, permutation.Target()
      ensures old(isSetGlobalPermutation) && r != Done ==>
                && isSetGlobalPermutation && rawCapacity == old(rawCapacity) && usableCapacity == old(usableCapacity)
                && data == old(data)
      ensures (old(isSetGlobalPermutation) && r != Done) || Valid()
      ensures match InitResult(permutation.Kind(), requested, key, rand)
              case Err(e) => r == Failed(e)
              case Ok(p) =>
                if p.Size() <= HASH_LENGTH then r == Failed(OutOfRange)
                else
                  && r == Done && Applied() && Global() == p && fresh(data) && data[..] <= memory
                  && data.Length == p.Size() && usableCapacity == p.Size() - 32
    {
      hide InitResult, Bijective, Perm.Valid, Perm.Size, PermutationPtr.State, PermutationPtr.Size, Pow2;
      r := permutation.Init(requested, key, rand);
      if r != Done { return; }
      InitFitsRequest(permutation.Kind(), requested, key, rand);
      if permutation.Size() == 0 { return Failed(RuntimeError); }
      var size := permutation.Size();
      if size <= HASH_LENGTH { return Failed(OutOfRange); }
      data := new byte[size](i requires 0 <= i < size => memory[i]);
      rawCapacity := size;
      usableCapacity := size - HASH_LENGTH;
      isSetGlobalPermutation := true;
      permutation.StateIsValid();
      return Done;
    }

    method ReadByte(position: nat) returns (r: Result<byte>)
      requires Applied()
      ensures r == if position >= rawCapacity then Err(OutOfRange)
                   else Ok(FetchAt(data[..], Global(), position))
      ensures r.Ok? ==> position < rawCapacity == data.Length && r.value == data[..][Global().Apply(position)]
    {
      if position >= rawCapacity { return Err(OutOfRange); }
      var p := permutation.Permute(position);
      return Ok(data[p.value]);
    }

    method WriteByte(position: nat, value: byte) returns (r: Status)
      requires Applied()
      modifies data
      ensures Applied()
      ensures r == if position >= rawCapacity then Failed(OutOfRange) else Done
      ensures data[..] == StoreAt(old(data[..]), Global(), position, value)
      ensures r == Done ==>
                && position < rawCapacity == |old(data[..])|
                && data[..] == old(data[..])[Global().Apply(position) := value]
    {
      if position >= rawCapacity { return Failed(OutOfRange); }
      var p := permutation.Permute(position);
      data[p.value] := value;
      return Done;
    }

    /** `memcpy` from the storage, without the permutation.  The sum in the range test is one of
        64 bits: when it wraps, the copy leaves the buffer. */
    method Read(offset: nat, length: nat) returns (r: Result<Bytes>)
      requires Applied() && offset < WORD && length < WORD
      ensures r.Ok? <==> offset + length <= usableCapacity
      ensures r == if Wrap(offset + length) > usableCapacity then Err(OutOfRange)
                   else if offset + length >= WORD then Err(OutsideBuffer)
                   else Ok(data[offset..offset + length])
    {
      SumInRange(offset, length);
      hide Wrap, Bijective, Perm.Valid, PermutationPtr.Valid;
      if Wrap(offset + length) > usableCapacity { return Err(OutOfRange); }
      if length == 0 {
        assert data[offset..offset + length] == [];
        return Ok([]);
      }
      if offset + length > data.Length { return Err(OutsideBuffer); }
      return Ok(data[offset..offset + length]);
    }

    method Write(offset: nat, buffer: Bytes) returns (r: Status)
      requires Applied() && offset < WORD && |buffer| < WORD
      modifies data
      ensures Applied()
      ensures r == if Wrap(offset + |buffer|) > usableCapacity then Failed(OutOfRange)
                   else if offset + |buffer| >= WORD then Failed(OutsideBuffer) else Done
      ensures r == Done <==> offset + |buffer| <= usableCapacity
      ensures data[..] == if r == Done then Splice(old(data[..]), offset, buffer) else old(data[..])
    {
      SumInRange(offset, |buffer|);
      assert allocated(permutation.Target()) && permutation.Target() != data as object;
      hide Wrap, Bijective, Perm.Valid, Perm.Size, PermutationPtr.Valid, PermutationPtr.Size, PermutationPtr.State;
      if Wrap(offset + |buffer|) > usableCapacity { return Failed(OutOfRange); }
      if |buffer| == 0 { return Done; }
      if offset + |buffer| > data.Length { return Failed(OutsideBuffer); }
      forall i | 0 <= i < |buffer| { data[offset + i] := buffer[i]; }
      return Done;
    }

    method WriteChecksum(h: Bytes -> Bytes)
      requires Applied() && IsHash(h)
      modifies data
      ensures Applied() && data[..] == WithChecksum(h, old(data[..]))
      ensures data.Length == usableCapacity + 32 && data[..usableCapacity] == old(data[..usableCapacity])
      ensures data[usableCapacity..] == h(old(data[..usableCapacity]))
    {
      var checksum := h(data[..usableCapacity]);
      assert |checksum| == HASH_LENGTH;
      ghost var before := data[..];
      assert before[..usableCapacity] == data[..usableCapacity];
      forall i | 0 <= i < HASH_LENGTH { data[usableCapacity + i] := checksum[i]; }
      assert data[..] == before[..usableCapacity] + checksum;
    }

    method IsValidChecksum(h: Bytes -> Bytes) returns (ok: bool)
      requires Applied() && IsHash(h)
      ensures ok == ChecksumValid(h, data[..])
      ensures ok <==> data[usableCapacity..] == h(data[..usableCapacity])
    {
      var checksum := h(data[..usableCapacity]);
      assert data[..][..usableCapacity] == data[..usableCapacity];
      assert data[..][usableCapacity..] == data[usableCapacity..];
      return data[usableCapacity..] == checksum;
    }
  }

  lemma SumInRange(offset: nat, length: nat)
    ensures offset + length < WORD ==> Wrap(offset + length) == offset + length
  {
    if offset + length < WORD { SmallRemainder(offset + length, WORD); }
  }

  /** The range test lets an access leave the storage exactly when the sum wraps and what is left of it
      is small. */
  lemma RangeTestProtects(offset: nat, length: nat, usable: nat)
    requires offset < WORD && length < WORD && usable < WORD
    ensures (Wrap(offset + length) <= usable ==> offset + length <= usable)
       <==> (offset + length < WORD || offset + length - WORD > usable)
  {
    if offset + length < WORD {
      SmallRemainder(offset + length, WORD);
    } else {
      ModUnique(offset + length, WORD, 1, offset + length - WORD);
    }
  }

  /** Two bytes at the last offset of all pass the test of every storage that is not empty. */
  lemma WrappedRangePasses(usable: nat)
    requires 0 < usable < WORD
    ensures var offset, length := WORD - 1, 2; Wrap(offset + length) <= usable < offset + length
  {
    ModUnique(WORD + 1, WORD, 1, 1);
  }

  lemma InitFitsRequest(kind: Kind, n: nat, key: Key, rand: nat -> nat)
    requires Supported(kind, n)
    ensures InitResult(kind, n, key, rand).Ok? ==>
            var p := InitResult(kind, n, key, rand).value; p.Valid() && Bijective(p) && 0 < p.Size() <= n < WORD
  {
    if InitResult(kind, n, key, rand).Ok? { InitIsValid(kind, n, key, rand); }
  }
}
