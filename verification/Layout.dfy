/** How the carriers share the virtual storage: the layout loop of `LoadVirtualStorage`, and the
    permuted byte accesses of the carriers to their intervals. */
module Layout {
  import opened Bits
  import opened Spans
  import opened HammingCode
  import opened Permutations

  // ---------------------------------------------------------------- intervals

  /** Where carrier i begins: the capacities of the carriers before it. */
  function Offset(caps: seq<nat>, i: nat): nat
    requires i <= |caps|
  {
    if i == 0 then 0 else Offset(caps, i - 1) + caps[i - 1]
  }

  /** `remaining_capacity` when the loop reaches carrier i. */
  function Remaining(caps: seq<nat>, size: nat, i: nat): nat
    requires i <= |caps|
  {
    if i == 0 then size
    else
      var r := Remaining(caps, size, i - 1);
      if r > caps[i - 1] then r - caps[i - 1] else 0
  }

  /** `bytes_used` of carrier i. */
  function BytesUsed(caps: seq<nat>, size: nat, i: nat): nat
    requires i < |caps|
  {
    var r := Remaining(caps, size, i);
    if r > caps[i] then caps[i] else r
  }

  /** `block_count_`: the whole blocks in the bytes below a number of bits. */
  function BlocksBelow(bits: nat, codeSize: nat): (n: nat)
    requires codeSize > 0
    ensures MostBlocks(n, bits, codeSize)
  {
    PositionSplits(bits / 8, codeSize);
    bits / 8 / codeSize
  }

  /** n blocks of codeSize bytes fit below that many bits, and n + 1 do not. */
  predicate MostBlocks(n: nat, bits: nat, codeSize: nat) {
    8 * Span(n, codeSize) <= bits < 8 * Span(n + 1, codeSize)
  }

  lemma MostIsBelow(n: nat, bits: nat, codeSize: nat)
    requires codeSize > 0 && MostBlocks(n, bits, codeSize)
    ensures n == BlocksBelow(bits, codeSize)
  {
    var b := BlocksBelow(bits, codeSize);
    SpanMonotone(n + 1, b, codeSize);
    SpanMonotone(b + 1, n, codeSize);
  }

  /** `blocks_used_` for a number of bytes. */
  function BlocksUsed(bytes: nat, blockSize: nat): nat
    requires blockSize > 0
  {
    if bytes == 0 then 0 else (bytes - 1) / blockSize + 1
  }

  lemma {:induction false} RemainingIsRest(caps: seq<nat>, size: nat, i: nat)
    requires i <= |caps|
    ensures Remaining(caps, size, i) == if Offset(caps, i) < size then size - Offset(caps, i) else 0
  {
    if i > 0 { RemainingIsRest(caps, size, i - 1); }
  }

  lemma {:induction false} OffsetsIncrease(caps: seq<nat>, i: nat, j: nat)
    requires i <= j <= |caps|
    ensures Offset(caps, i) <= Offset(caps, j)
    decreases j
  {
    if i < j { OffsetsIncrease(caps, i, j - 1); }
  }

  ghost predicate InInterval(caps: seq<nat>, size: nat, i: nat, pos: nat)
    requires i < |caps|
  {
    Offset(caps, i) <= pos < Offset(caps, i) + BytesUsed(caps, size, i)
  }

  ghost predicate Owned(caps: seq<nat>, size: nat, pos: nat) {
    exists i: nat :: i < |caps| && InInterval(caps, size, i, pos)
  }

  /** The intervals are disjoint and ordered, they stay within their carriers, together they cover
      exactly [0, size), and nothing remains, whenever the carriers can hold the storage at all. */
  lemma LayoutPartition(caps: seq<nat>, size: nat)
    requires size <= Offset(caps, |caps|)
    ensures forall i | 0 <= i < |caps| :: BytesUsed(caps, size, i) <= caps[i]
    ensures forall i, j | 0 <= i < j < |caps| ::
      Offset(caps, i) + BytesUsed(caps, size, i) <= Offset(caps, j)
    ensures forall pos: nat {:trigger Owned(caps, size, pos)} :: pos < size <==> Owned(caps, size, pos)
    ensures Remaining(caps, size, |caps|) == 0
  {
    RemainingIsRest(caps, size, |caps|);
    forall i, j | 0 <= i < j < |caps|
      ensures Offset(caps, i) + BytesUsed(caps, size, i) <= Offset(caps, j)
    {
      IntervalsOrdered(caps, size, i, j);
    }
    hide Offset, BytesUsed, Remaining;
    forall pos: nat {:trigger Owned(caps, size, pos)}
      ensures pos < size <==> Owned(caps, size, pos)
    {
      OwnedIffInside(caps, size, pos);
    }
  }

  lemma IntervalsOrdered(caps: seq<nat>, size: nat, i: nat, j: nat)
    requires i < j < |caps|
    ensures Offset(caps, i) + BytesUsed(caps, size, i) <= Offset(caps, j)
  {
    OffsetsIncrease(caps, i + 1, j);
  }

  lemma OwnedIffInside(caps: seq<nat>, size: nat, pos: nat)
    requires size <= Offset(caps, |caps|)
    ensures pos < size <==> Owned(caps, size, pos)
  {
    if pos < size {
      var i := Owner(caps, size, pos, |caps|);
    }
    if Owned(caps, size, pos) {
      var i: nat :| i < |caps| && InInterval(caps, size, i, pos);
      RemainingIsRest(caps, size, i);
    }
  }

  /** The carrier that owns a storage position. */
  lemma {:induction false} Owner(caps: seq<nat>, size: nat, pos: nat, n: nat) returns (i: nat)
    requires n <= |caps| && pos < size && pos < Offset(caps, n)
    ensures i < n && InInterval(caps, size, i, pos)
  {
    if pos < Offset(caps, n - 1) {
      i := Owner(caps, size, pos, n - 1);
    } else {
      i := n - 1;
      RemainingIsRest(caps, size, i);
    }
  }

  /** A carrier is given at least one block exactly when it has capacity and the carriers before it
      do not hold the whole storage. */
  lemma CarrierIsUsed(caps: seq<nat>, size: nat, i: nat, blockSize: nat)
    requires i < |caps| && blockSize > 0
    ensures BlocksUsed(BytesUsed(caps, size, i), blockSize) > 0 <==> caps[i] > 0 && Offset(caps, i) < size
  {
    RemainingIsRest(caps, size, i);
  }

  /** The blocks given to a carrier of whole blocks stay within it, and past its interval they
      only reach positions outside the storage. */
  lemma BlocksStayInside(caps: seq<nat>, size: nat, i: nat, blockSize: nat, blockCount: nat)
    requires i < |caps| && blockSize > 0 && caps[i] == Span(blockCount, blockSize)
    ensures var n := BlocksUsed(BytesUsed(caps, size, i), blockSize);
            && n <= blockCount
            && BytesUsed(caps, size, i) <= Span(n, blockSize) <= caps[i]
            && (BytesUsed(caps, size, i) < Span(n, blockSize) ==> Offset(caps, i) + BytesUsed(caps, size, i) == size)
  {
    RemainingIsRest(caps, size, i);
    CeilingBlocks(BytesUsed(caps, size, i), blockSize, blockCount);
    CeilingBlocks(caps[i], blockSize, blockCount);
  }

  lemma CeilingBlocks(bytes: nat, w: nat, count: nat)
    requires w > 0 && bytes <= Span(count, w)
    ensures BlocksUsed(bytes, w) <= count
    ensures bytes <= Span(BlocksUsed(bytes, w), w) <= Span(count, w)
    ensures bytes == Span(count, w) ==> BlocksUsed(bytes, w) == count
  {
    if bytes > 0 {
      var q := (bytes - 1) / w;
      SlotOf(bytes - 1, w, count);
      SlotFits(q, w, count);
      SpanMonotone(q + 2, count, w);
    }
  }

  // ---------------------------------------------------------------- the storage through its permutation

  /** `WriteByte` at a position; out of range it throws and the carrier ignores it. */
  function StoreAt(data: Bytes, p: Perm, pos: nat, v: byte): (r: Bytes)
    requires p.Valid() && Bijective(p) && |data| == p.Size()
    ensures |r| == |data|
  {
    if pos < p.Size() then data[p.Apply(pos) := v] else data
  }

  /** `ReadByte` at a position; out of range the carrier takes 0. */
  function FetchAt(data: Bytes, p: Perm, pos: nat): byte
    requires p.Valid() && Bijective(p) && |data| == p.Size()
  {
    if pos < p.Size() then data[p.Apply(pos)] else 0
  }

  function StoreBytes(data: Bytes, p: Perm, offset: nat, bytes: Bytes, n: nat): (r: Bytes)
    requires p.Valid() && Bijective(p) && |data| == p.Size() && n <= |bytes|
    ensures |r| == |data|
  {
    if n == 0 then data
    else StoreAt(StoreBytes(data, p, offset, bytes, n - 1), p, offset + n - 1, bytes[n - 1])
  }

  function FetchBytes(data: Bytes, p: Perm, offset: nat, n: nat): (r: Bytes)
    requires p.Valid() && Bijective(p) && |data| == p.Size()
    ensures |r| == n && forall j | 0 <= j < n :: r[j] == FetchAt(data, p, offset + j)
  {
    seq<byte>(n, j requires 0 <= j < n => FetchAt(data, p, offset + j))
  }

  lemma {:induction false} StoredByte(data: Bytes, p: Perm, offset: nat, bytes: Bytes, n: nat, pos: nat)
    requires p.Valid() && Bijective(p) && |data| == p.Size() && n <= |bytes| && pos < p.Size()
    ensures StoreBytes(data, p, offset, bytes, n)[p.Apply(pos)]
         == if offset <= pos < offset + n then bytes[pos - offset] else data[p.Apply(pos)]
  {
    hide Perm.Apply, Perm.Size;
    if n > 0 { StoredByte(data, p, offset, bytes, n - 1, pos); }
  }
}
