/** The encoder objects behind one pointer, as the carriers use them. */
module Encoders {
  import opened Bits
  import opened HammingCode
  import opened HammingEncoder
  import opened Codecs

  /** src/encoders/lsb_encoder.cc: copies whole blocks. */
  class LsbEncoder {
    var dataBlockSize: nat

    ghost predicate Valid() reads this { dataBlockSize > 0 }

    constructor (blockSize: nat)
      requires blockSize > 0
      ensures Valid() && dataBlockSize == blockSize
    {
      dataBlockSize := blockSize;
    }

    method Embed(buffer: array<byte>, at: nat, data: array<byte>)
      requires Valid() && at + dataBlockSize <= buffer.Length && data.Length == dataBlockSize
      requires buffer != data
      modifies buffer
      ensures buffer[..] == Splice(old(buffer[..]), at, data[..])
    {
      forall i | 0 <= i < data.Length { buffer[at + i] := data[i]; }
    }

    method Extract(buffer: array<byte>, at: nat, data: array<byte>)
      requires Valid() && at + dataBlockSize <= buffer.Length && data.Length == dataBlockSize
      requires buffer != data
      modifies data
      ensures data[..] == buffer[at..at + dataBlockSize]
    {
      forall i | 0 <= i < data.Length { data[i] := buffer[at + i]; }
    }
  }

  /** `std::shared_ptr<Encoder>`. */
  datatype EncoderPtr = HammingPtr(hamming: HammingEncoder) | LsbPtr(lsb: LsbEncoder) {

    ghost function Target(): object {
      match this
      case HammingPtr(e) => e
      case LsbPtr(e) => e
    }

    ghost predicate Valid() reads Target() {
      match this
      case HammingPtr(e) => e.Valid()
      case LsbPtr(e) => e.Valid()
    }

    ghost function Codec(): Codec reads Target() {
      match this
      case HammingPtr(e) => Hamming(e.Layout())
      case LsbPtr(e) => Lsb(e.dataBlockSize)
    }

    lemma CodecIsValid()
      requires Valid()
      ensures Codec().Valid()
    {}

    function GetDataBlockSize(): (n: nat)
      requires Valid()
      reads Target()
      ensures n == Codec().DataSize()
    {
      match this
      case HammingPtr(e) => e.dataBlockSize
      case LsbPtr(e) => e.dataBlockSize
    }

    function GetCodewordBlockSize(): (n: nat)
      requires Valid()
      reads Target()
      ensures n == Codec().CodeSize()
    {
      match this
      case HammingPtr(e) => e.codewordBlockSize
      case LsbPtr(e) => e.dataBlockSize
    }

    method Embed(buffer: array<byte>, at: nat, data: array<byte>)
      requires Valid() && at + Codec().CodeSize() <= buffer.Length && data.Length == Codec().DataSize()
      requires buffer != data
      modifies buffer
      ensures Valid() && Codec() == old(Codec())
      ensures buffer[..] == Splice(old(buffer[..]), at,
        Codec().Embed(old(buffer[..])[at..at + Codec().CodeSize()], old(data[..])))
    {
      assert buffer[at..at + Codec().CodeSize()] == buffer[..][at..at + Codec().CodeSize()];
      match this
      case HammingPtr(e) => e.Embed(buffer, at, data);
      case LsbPtr(e) => e.Embed(buffer, at, data);
    }

    method Extract(buffer: array<byte>, at: nat, data: array<byte>)
      requires Valid() && at + Codec().CodeSize() <= buffer.Length && data.Length == Codec().DataSize()
      requires buffer != data
      modifies data
      ensures Valid() && Codec() == old(Codec())
      ensures data[..] == Codec().Extract(buffer[at..at + Codec().CodeSize()])
    {
      match this
      case HammingPtr(e) => e.Extract(buffer, at, data);
      case LsbPtr(e) => e.Extract(buffer, at, data);
    }
  }
}
