# StegoDisk, modelled and verified in Dafny

StegoDisk keeps a virtual disk inside ordinary image files. The user's bytes are placed in a storage,
scattered by a global keyed permutation, cut into one interval per carrier, block-encoded with Hamming
matrix embedding, scattered again by a permutation of the carrier's bits, and written into the lowest
bits of its samples. This project models that pipeline with the number theory and the permutations under
it, the thread pool that loads carriers concurrently, the JSON reader and printer, and Keccak, and proves
what the library promises of them. `dafny verify dfyconfig.toml` checks all of it.

| files | what they hold |
|---|---|
| Bits, Spans, NumberTheory, PrimeCertificates | bits of natural numbers, slots of a buffer, Euclid, Fermat, primality by certificate |
| StegoMath | 64-bit modular arithmetic, Miller-Rabin over the `rand()` stream, prime search |
| Permutations, PermutationImages, SquareRoots, PermutationObjects | the five permutations as values with their inverses, what they compute from the key, the root in double precision, and the objects |
| HammingCode, HammingEncoder, Codecs, Encoders | the code, the encoder object working in place, and the block loop |
| Carriers, BufferFilling, Embedding, StegoFormat, CarrierFile | what a carrier's bits mean, the single-carrier round trip, where the data stands bit by bit, and the carrier object with the loops of both formats |
| Layout, Volumes, VirtualStorage | the intervals, all carriers together, the storage object and its checksum |
| CarrierFilesManager, Sessions | the manager object, and a whole session of opening, writing, saving and reopening |
| ConcurrentLoad, ThreadPool | interleavings of the loading tasks; the pool as a state machine and as an object |
| Fips202, Keccak | FIPS 202 on strings of bits; the permutation in place, the streaming loop, and the proof that they are the standard's |
| Json, JsonText, JsonAccepts, JsonRoundTrip | what is read and printed; the grammar of RFC 8259 as trees, that exactly its texts are read, and the round trip |
| JsonReader, JsonWriter | the cursor with one character of pushback, the printers |

An operation is a function on values, and where the source changes an object in place, a method proved
equal to that function. An exception is a `Result` or a `Status`. Calls of `rand()` are a function from
the number of the call to its answer, so that every theorem holds for every stream; key words, hash
tables and the checksum's hash are arbitrary in the same way. A virtual call is a datatype of object
references (`PermutationPtr`, `EncoderPtr`).

## Findings

What the code does where it differs from what its names and comments say; each line names the lemma.

| member | finding |
|---|---|
| StegoMath.MulmodCorrectIffModulusFits | `Mulmod` overflows for every modulus above 2^63, and for none up to it |
| StegoMath.MillerRabinAcceptsIff | so Miller-Rabin can reject a prime above 2^63, and does for some base exactly when the squaring loop fails from a root of 1 of order 2^t; primes 4k + 3 are safe at any size |
| StegoMath.LargePrimeIsRejected | 2^64 - 2^32 + 1 is such a prime: it fails for base 2 |
| StegoMath.SearchMissesOnlyTwo | the prime search answers 0 for the number 2, and misses no other prime that is always accepted |
| Permutations.Affine64InjectiveIff | Affine64 is a permutation for every key exactly up to size 2^63; above it, `Affine64Collides` gives a factor with which indices 0 and 2 have the same image |
| Permutations.SearchHangsAtNine | the search for affine parameters can run for ever: from 9, when `rand()` gives multiples of 8 only and the key folds to 4k + 2; `SearchHangsIff` says exactly when |
| Permutations.CapacityAgreement | above 2^32 - 1, Affine64 initialises but announces a size of 0; `CapacityDisagrees` is such a request |
| Permutations.MixKeepsLeftHalf | the table entries of the mixed Feistel network are shifted away, so its left half never moves |
| SquareRoots.DoubleRootIff | the numeric Feistel network takes its root in double precision; above 2^52 its size can be one more than was requested, first in `SizeExceedsRequest` |
| CarrierFilesManager.AllSaveableIff | saving throws when some carrier is given no block; loading passes over such a bitmap but throws for such a JPEG (`Volumes.Volume.LoadsAt`) |
| VirtualStorage.RangeTestProtects | the range test of `Read` and `Write` lets an access pass whose 64-bit sum wraps to a small value; `WrappedRangePasses` is such an access |
| Keccak.DigestCollides | for a digest length that is not a multiple of 4 the last bytes of every block are ignored |
| JsonText.NumberBecomesBool | a JSON number is stored through the constructor that takes a `bool` |
| StegoMath.BitLengthOfPower | `Log2` is the bit length, one more than the logarithm of a power of two |
| PermutationObjects.OnlyRangeIsChecked | the input check creates its exception for an uninitialised permutation without throwing it; only the range test, with size 0, stops the call |

## Model

| member | source | states |
|---|---|---|
| NumberTheory.Bezout | src/utils/stego_math.cc:21-31 | the greatest common divisor Euclid's loop reaches is an integer combination of its two arguments |
| NumberTheory.GcdIsGreatest | src/utils/stego_math.cc:21-31 | every common divisor divides the result of the loop |
| StegoMath.GcdLoop | src/utils/stego_math.cc:21-31 | the loop over two variables returns the greatest common divisor |
| StegoMath.Log2 | src/utils/stego_math.cc:177-187 | for every 64-bit word the scan over leading zeros returns the bit length (not the logarithm), 0 for 0, and never shifts by a negative amount |
| StegoMath.Mulmod | src/utils/stego_math.cc:108-120 | the loop computes the word function `MulmodWord`, in which every doubling and addition is cut to 64 bits |
| StegoMath.MulmodCorrect | src/utils/stego_math.cc:108-120 | for a modulus up to 2^63 and b below it the result is a*b mod m |
| StegoMath.MulmodCorrectIffModulusFits | src/utils/stego_math.cc:108-120 | `Mulmod` is right for all its arguments if and only if the modulus is at most 2^63 |
| StegoMath.Modulo | src/utils/stego_math.cc:86-106 | square-and-multiply returns a^b mod c for every c > 0, and no product leaves 128 bits |
| NumberTheory.Fermat | src/utils/stego_math.cc:42-82 | Fermat's little theorem, on which the acceptance of primes rests |
| NumberTheory.SquareRootsOfOne | src/utils/stego_math.cc:73-79 | 1 has only two square roots modulo a prime |
| StegoMath.MillerRabin | src/utils/stego_math.cc:42-82 | the nested loops decide `Accepts`, and draw from `rand()` exactly `Calls` times |
| StegoMath.MillerRabinAcceptsPrimes | src/utils/stego_math.cc:42-82 | whatever bases `rand()` gives, every prime up to 2^63, and every prime 4k + 3 above it, is accepted |
| StegoMath.MillerRabinAcceptsIff | src/utils/stego_math.cc:42-82 | a prime is accepted for every stream of `rand()` if and only if the squaring loop passes from each of the 2^t roots of 1 modulo p, where p - 1 is an odd number times 2^t: a round's first power runs through exactly these |
| StegoMath.FiveModEight | src/utils/stego_math.cc:73-79 | for a prime 8k + 5 this is one test of each square root of -1, with two calls of `Mulmod` |
| StegoMath.AcceptsIff | src/utils/stego_math.cc:42-82 | an odd number up to 2^63, prime or not, is accepted if and only if none of the 26 bases drawn is a witness: its power s is 1, or -1 after fewer than t squarings; of the even numbers only 2 is accepted |
| PrimeCertificates.NeverMinusOne | src/utils/stego_math.cc:73-79 | modulo an odd number n no power n - 1 is -1, so the last pass of the squaring loop never accepts |
| StegoMath.LargePrimeIsRejected | src/utils/stego_math.cc:73-79 | the prime 2^64 - 2^32 + 1 is rejected when base 2 is drawn, because `Mulmod` overflows: the bound of the line above is not idle |
| PrimeCertificates.LargePrimeIsPrime | src/utils/stego_math.cc:42-82 | 2^64 - 2^32 + 1 is a prime, by an element of order 2^32 |
| StegoMath.ClosestSmallerPrime | src/utils/stego_math.cc:127-143 | the downward search ends for every number and every stream of `rand()`, with the value `SmallerPrime` |
| StegoMath.SearchMissesOnlyTwo | src/utils/stego_math.cc:127-143 | for every number and stream, no prime whose roots pass lies above the result and at or below the number, if and only if the number is not 2; from 3 on the result is at least 3 |
| StegoMath.NeverMissedIff | src/utils/stego_math.cc:127-143 | an odd prime is never passed over by a search from above it, and is its own closest prime, for every stream, if and only if its roots pass |
| StegoMath.SearchAnswerPasses | src/utils/stego_math.cc:127-143 | from 3 on the answer is odd and has passed the test at its place in the stream, and every odd number between it and the request fails somewhere in it |
| StegoMath.SearchMissesALargePrime | src/utils/stego_math.cc:127-143 | the search passes over 2^64 - 2^32 + 1 itself when base 2 is drawn first |
| Permutations.InverseIsTwoSided | src/permutations/feistel_num_permutation.cc:85-106 | the explicit inverse of each of the five permutations undoes it on both sides, for arbitrary tables and key words |
| Permutations.EveryPermutationIsBijective | src/permutations/feistel_mix_permutation.cc:98-118 | every permutation is a bijection of [0, size) |
| Permutations.NumFeistelInverse | src/permutations/feistel_num_permutation.cc:85-106 | the rounds over two digits are undone by the rounds in reverse, for arbitrary hash tables |
| Permutations.MixFeistelInverse | src/permutations/feistel_mix_permutation.cc:98-118 | the alternating xor and modular rounds are undone by the rounds in reverse, for arbitrary hash tables |
| PermutationImages.NumImage | src/permutations/feistel_num_permutation.cc:85-98 | the image of the digits l and r, written out from the rows 0 to 4 of the tables: three additions to the left digit and two to the right one, in turn |
| PermutationImages.MixImage | src/permutations/feistel_mix_permutation.cc:98-112 | the image of the halves l and r, written out from the rows 0 to 4: shifted entries added to the left half, masked entries xored into the right one, in turn |
| PermutationImages.NumImageFromKey | src/permutations/feistel_num_permutation.cc:56-98 | after `Init` the rows are the hash words of the key for table and entry, reduced by the modulus |
| PermutationImages.NumInit | src/permutations/feistel_num_permutation.cc:40-52 | `Init` succeeds if and only if there is a key and the request is at least 1024; the modulus is the integer square root |
| PermutationImages.MixImageFromKey | src/permutations/feistel_mix_permutation.cc:66-112 | after `Init` the left half stays and the right half is xored with two hash words that the left half chooses |
| PermutationImages.MixInit | src/permutations/feistel_mix_permutation.cc:41-66 | `Init` succeeds if and only if there is a key and the request is at least 1024; of the b bits of the request (b + 1) / 2 are the right half of an index |
| PermutationImages.AffineImageFromKey | src/permutations/affine_permutation.cc:58-71 | the factor and the summand are the folded halves of the key, reduced to the upper half of the size, the size is the last modulus of the search, and the image is affine in the index |
| PermutationImages.AffineErrors | src/permutations/affine_permutation.cc:31-109 | which request is refused with which error, in the order of the tests; above 2^32 - 1 the announced size is 0 |
| Permutations.MixKeepsLeftHalf | src/permutations/feistel_mix_permutation.cc:89-108 | with the tables `Init` fills, the left half never moves: the mixed network permutes inside blocks of 2^rightBits indices |
| Permutations.LeftHalfFitsTables | src/permutations/feistel_mix_permutation.cc:49-62 | left_mod is positive and at most 2^right_bits, so every table index is in bounds |
| Permutations.AffineInverse | src/permutations/affine_permutation.cc:111-114 | a modular inverse of the factor undoes the affine map; only gcd(a, size) = 1 is used, not that the size is prime |
| Permutations.AffineProductFits | src/permutations/affine_permutation.cc:111-114 | for sizes below 2^32 no intermediate value leaves 64 bits |
| Permutations.AffineSearchFinds | src/permutations/affine_permutation.cc:31-81 | when the parameter search returns, the size is between 2 and the request and the factor is prime to it |
| Permutations.PrimeModulusFoundAtOnce | src/permutations/affine_permutation.cc:40-81 | the search stops in its first pass when its first modulus is prime |
| Permutations.SearchHangsIff | src/permutations/affine_permutation.cc:40-81 | the search runs for ever if and only if the last modulus it reaches is its own closest prime and shares a divisor with the factor |
| Permutations.SearchReturns | src/permutations/affine_permutation.cc:40-81 | the search returns when no composite number up to the request is its own closest prime |
| Permutations.Affine64IsAffine | src/permutations/affine64_permutation.cc:39-43 | Affine64 computes through `Mulmod` the same permutation as Affine, for sizes up to 2^63 |
| Permutations.Affine64InjectiveIff | src/permutations/affine64_permutation.cc:39-43 | for an odd size below 2^64 the map of 64-bit words has no collision, whatever the parameters, if and only if the size is at most 2^63 |
| Permutations.Affine64FactorOccurs | src/permutations/affine_permutation.cc:40-81 | the search can produce the factor 2^63 with which larger sizes collide |
| Permutations.InitIsValid | src/permutations/feistel_mix_permutation.cc:41-96 | a successful `Init` of any kind gives a size of at least 1 and at most the request, and a bijection unless it is Affine64 with a size above 2^63 |
| Permutations.CapacityAgreement | src/permutations/affine_permutation.cc:31-94 | `GetSizeUsingParams` announces the size `Init` sets, if and only if it is not Affine64 with a request above 2^32 - 1 |
| PermutationObjects.PermutationPtr.Init | src/permutations/permutation.cc:16-31 | initialising any of the five objects ends as `InitResult` says and leaves that permutation as its state |
| PermutationObjects.PermutationPtr.Permute | src/permutations/permutation.cc:24-31 | an index below the size is mapped by the state; any other gives the out-of-range error, and an uninitialised object has size 0 |
| PermutationObjects.FeistelMixPermutation.Init | src/permutations/feistel_mix_permutation.cc:41-96 | the loops that fill the tables, with the error for an empty key and a small request |
| PermutationObjects.FeistelMixPermutation.Permute | src/permutations/feistel_mix_permutation.cc:98-118 | the loop over the rounds computes the mixed network |
| PermutationObjects.FeistelNumPermutation.Init | src/permutations/feistel_num_permutation.cc:40-83 | the loops that fill the tables, with the error for an empty key and a small request |
| SquareRoots.DoubleRootIff | src/permutations/feistel_num_permutation.cc:50-52 | for requests up to 2^53 the root in double precision, rounded to nearest, is the integer root if and only if the request is at most 2^52 or not one less than a square; otherwise it is one more, and the size exceeds the request |
| PermutationObjects.FeistelNumPermutation.Permute | src/permutations/feistel_num_permutation.cc:85-106 | the loop over the rounds computes the network over two digits |
| PermutationObjects.AffinePermutation.Init | src/permutations/affine_permutation.cc:96-109 | the search's outcome, or the error for a request above 2^32 - 1 |
| PermutationObjects.Affine64Permutation.Init | src/permutations/affine64_permutation.cc:28-37 | the search's outcome for every 64-bit request, without a size limit |
| PermutationObjects.Affine64Permutation.Permute | src/permutations/affine64_permutation.cc:39-43 | the word map for every size, and the state's permutation when that is valid |
| PermutationObjects.SearchAffine | src/permutations/affine_permutation.cc:31-81 | the search loop returns what `AffineSearch` finds; where the source would loop for ever the answer is the outcome `Forever` |
| HammingCode.CodewordEmbedding | src/encoders/hamming_encoder.cc:271-290 | one codeword: after flipping the bit the syndrome points at, the syndrome is the message; at most one bit changes, none past 2^k - 1, none if the syndrome matched |
| HammingCode.ExtractAfterEmbed | src/encoders/hamming_encoder.cc:271-333 | for every parity from 3 to 8, every cover block and every data block, Extract after Embed returns the data |
| HammingCode.EmbedChangesOneBitPerCodeword | src/encoders/hamming_encoder.cc:280-290 | embedding changes each codeword of a block in at most one bit, and only a bit before 2^k - 1 |
| HammingCode.EmbedIdempotent | src/encoders/hamming_encoder.cc:280-290 | embedding data that is already there changes nothing |
| StegoFormat.ExtractedBitIsCheck | src/encoders/hamming_encoder.cc:308-333 | each extracted bit is the parity of the codeword's bits whose positions have the corresponding bit, with the order of bits, bytes and codewords written out |
| HammingEncoder.HammingEncoder.Init | src/encoders/hamming_encoder.cc:98-136 | succeeds exactly for 3 to 8 parity bits and then sets the block geometry of that parity; otherwise throws and changes nothing |
| HammingEncoder.HammingEncoder.ComputeH | src/encoders/hamming_encoder.cc:423-441 | the loop over bytes and bits computes the product with the check matrix |
| HammingEncoder.HammingEncoder.SwapBitInCodeword | src/encoders/hamming_encoder.cc:450-454 | exactly the addressed bit is flipped |
| HammingEncoder.HammingEncoder.ReadBitsFromBuffer | src/encoders/hamming_encoder.cc:385-421 | reads the bits from an unaligned offset across byte boundaries |
| HammingEncoder.HammingEncoder.WriteBitsToBuffer | src/encoders/hamming_encoder.cc:341-383 | xors the bits of the value at an unaligned offset and touches no other bit |
| HammingEncoder.ReadAfterWrite | src/encoders/hamming_encoder.cc:341-421 | reading back what was written over zero bits gives the value, for every offset and width |
| HammingEncoder.HammingEncoder.Embed | src/encoders/hamming_encoder.cc:271-306 | embeds one block in place and leaves the rest of the buffer as it is |
| HammingEncoder.HammingEncoder.Extract | src/encoders/hamming_encoder.cc:308-333 | extracts one block from the buffer |
| Codecs.Codec.RoundTrip | src/encoders/encoder.h:22-27 | the law of every encoder: Extract after Embed gives the data, and embedding twice is embedding once |
| Codecs.ExtractEmbeddedBlocks | src/carrier_files/carrier_file.cc:187-253 | the block loop of extraction after the block loop of embedding gives all the data back |
| Codecs.EmbedKeepsTail | src/carrier_files/carrier_file.cc:222-253 | the block loop leaves everything behind its blocks alone |
| Carriers.ChannelIsStable | src/carrier_files/carrier_file_jpeg.cc:288-312 | overwriting low bits never changes which samples are usable, so the n-th usable sample is the same afterwards |
| Carriers.WrittenSample | src/carrier_files/carrier_file_jpeg.cc:288-312 | a sample changes in its lowest bit only, to the bit written for it; DC coefficients and coefficients 0 and 1 are untouched |
| Carriers.ReadAfterWriteBits | src/carrier_files/carrier_file_jpeg.cc:136-156 | the bits written over the usable samples are the bits read back |
| Carriers.WriteBackIsIdentity | src/carrier_files/carrier_file_bmp.cc:171-179 | writing the bits that were read changes no sample |
| Embedding.ReloadedBuffer | src/carrier_files/carrier_file_bmp.cc:105-118 | loading a saved carrier rebuilds the embedded buffer bit for bit, through the local permutation |
| Embedding.LoadAfterSave | src/carrier_files/carrier_file.cc:187-253 | single-carrier round trip: the data saved into a carrier is the data loaded from it |
| Embedding.SaveAgain | src/carrier_files/carrier_file_bmp.cc:162-179 | a second save of the same data leaves every sample as it is |
| Embedding.DistortionBound | src/encoders/hamming_encoder.cc:280-290 | with the Hamming encoder, saving changes at most blocks * codewords samples, each in its lowest bit only and only usable ones |
| StegoFormat.CarryingSamples | src/carrier_files/carrier_file_jpeg.cc:68-83 | the carrying samples, in order, are all bytes of a bitmap, and of a JPEG the coefficients other than the first of 64 and other than 0 and 1; eight of them make a byte of raw capacity |
| StegoFormat.BufferFromSamples | src/carrier_files/carrier_file_jpeg.cc:130-156 | the j-th carrying sample's lowest bit is bit p(j) of the buffer, lowest bit of a byte first |
| StegoFormat.SamplesFromBuffer | src/carrier_files/carrier_file_jpeg.cc:288-312 | a save puts bit p(j) of the buffer into the lowest bit of the j-th carrying sample and changes nothing else |
| StegoFormat.DataOfBlocks | src/carrier_files/carrier_file.cc:187-219 | the data of a carrier are its codeword blocks extracted one behind the other |
| StegoFormat.FetchedByte | src/carrier_files/carrier_file.cc:231-245 | a saved byte comes from its position through the global permutation, or is 0 behind the storage |
| Layout.LayoutPartition | src/file_management/carrier_files_manager.cc:117-136 | the carriers' intervals are disjoint, ordered, no longer than the capacities, cover exactly the storage, and nothing remains |
| Layout.CarrierIsUsed | src/file_management/carrier_files_manager.cc:119-136 | a carrier is given a block if and only if it has capacity and the carriers before it do not hold the whole storage |
| Layout.BlocksStayInside | src/carrier_files/carrier_file.cc:106-119 | the blocks given to a carrier fit its capacity; past its interval they only reach positions outside the storage |
| Layout.BlocksBelow | src/carrier_files/carrier_file.cc:71-74 | the number of blocks is the greatest whose bits do not exceed the size |
| Volumes.SaveKeepsLayout | src/carrier_files/carrier_file.cc:60-76 | saving changes neither capacities nor layout nor any carrier's setup |
| Volumes.LoadAfterSaveAll | src/file_management/carrier_files_manager.cc:100-170 | whatever a fresh storage contains, loading the saved carriers into it gives the storage that was saved, for any carriers, permutations and encoder |
| Volumes.SaveReopenRead | src/file_management/carrier_files_manager.cc:100-170 | write, save, reopen, load, read: the bytes read are those written and the checksum test is true |
| Volumes.SaveIsIdempotent | src/file_management/carrier_files_manager.cc:161-170 | a second save without a write in between leaves every carrier as it is, the checksum included |
| VirtualStorage.VirtualStorage.ApplyPermutation | src/virtual_storage/virtual_storage.cc:117-146 | sizes the storage by the permutation and keeps 32 bytes for the checksum, or fails; a failing repetition keeps the old sizes |
| VirtualStorage.VirtualStorage.ReadByte | src/virtual_storage/virtual_storage.cc:158-168 | the byte at the permuted position, or out of range |
| VirtualStorage.VirtualStorage.WriteByte | src/virtual_storage/virtual_storage.cc:179-189 | changes the one cell at the permuted position, or nothing |
| VirtualStorage.VirtualStorage.Read | src/virtual_storage/virtual_storage.cc:201-216 | returns the bytes if and only if the access ends inside the usable part; the 64-bit sum of the range test may wrap |
| VirtualStorage.VirtualStorage.Write | src/virtual_storage/virtual_storage.cc:227-242 | replaces exactly the addressed bytes, or nothing, under the same condition |
| VirtualStorage.RangeTestProtects | src/virtual_storage/virtual_storage.cc:201-204 | the range test keeps an access inside if and only if the sum does not wrap to a small value |
| VirtualStorage.VirtualStorage.WriteChecksum | src/virtual_storage/virtual_storage.cc:305-323 | stores the hash of the usable bytes behind them and changes nothing else |
| VirtualStorage.VirtualStorage.IsValidChecksum | src/virtual_storage/virtual_storage.cc:276-298 | the answer is whether the stored hash is that of the usable bytes |
| CarrierFile.CountUsable | src/carrier_files/carrier_file_jpeg.cc:68-83 | the nested loops count the usable coefficients |
| CarrierFile.CarrierFile.SetBitInBufferPermuted | src/carrier_files/carrier_file.cc:157-172 | sets exactly the permuted bit, or throws |
| CarrierFile.CarrierFile.GetBitInBufferPermuted | src/carrier_files/carrier_file.cc:174-185 | reads exactly the permuted bit, or throws |
| CarrierFile.CarrierFile.SetEncoder | src/carrier_files/carrier_file.cc:60-76 | sets the block sizes of the encoder, the greatest number of codeword blocks whose bits the announced size holds, and the capacity of that many data blocks |
| CarrierFile.CarrierFile.AddToVirtualStorage | src/carrier_files/carrier_file.cc:106-119 | records the storage, the offset and the number of blocks, rounded up |
| CarrierFile.CarrierFile.ExtractBufferUsingEncoder | src/carrier_files/carrier_file.cc:187-219 | stores the extracted bytes at the carrier's positions and drops those past the storage; the return codes |
| CarrierFile.CarrierFile.EmbedBufferUsingEncoder | src/carrier_files/carrier_file.cc:222-253 | embeds the bytes of the carrier's positions, 0 for those past the storage; the exceptions |
| CarrierFile.CarrierFile.FillFromBitmap | src/carrier_files/carrier_file_bmp.cc:105-118 | the loop fills the buffer with the low bits, permuted |
| CarrierFile.CarrierFile.FillFromJpeg | src/carrier_files/carrier_file_jpeg.cc:130-156 | the nested loops with their early exits fill the buffer with the low bits of the first usable coefficients |
| CarrierFile.CarrierFile.WriteToBitmap | src/carrier_files/carrier_file_bmp.cc:177-180 | the loop writes the permuted bits into the low bits of the bytes |
| CarrierFile.CarrierFile.WriteToJpeg | src/carrier_files/carrier_file_jpeg.cc:288-312 | the nested loops with their early exits write the permuted bits into the usable coefficients |
| CarrierFile.CarrierFile.LoadFile | src/carrier_files/carrier_file_bmp.cc:75-127 | writes the carrier's data into the storage, or ends with the error of its format; does nothing when already loaded |
| CarrierFile.CarrierFile.SaveFile | src/carrier_files/carrier_file_jpeg.cc:180-353 | makes the file the image with the storage's bytes embedded, or throws and leaves it alone |
| CarrierFilesManager.CarrierFilesManager.LoadDirectory | src/file_management/carrier_files_manager.cc:57-94 | one new carrier for every file whose image has capacity, in their order, none loaded, none sharing a permutation; the others are dropped |
| CarrierFilesManager.CreateCarrierFile | src/carrier_files/carrier_file_factory.cc:26-62 | a carrier with the permutation of its format if and only if the raw capacity is positive |
| CarrierFilesManager.CarrierFilesManager.SetEncoder | src/file_management/carrier_files_manager.cc:224-231 | the encoder is set and not active; an earlier one is taken from every carrier |
| CarrierFilesManager.CarrierFilesManager.UnSetEncoder | src/file_management/carrier_files_manager.cc:214-222 | no carrier keeps an encoder or a capacity |
| CarrierFilesManager.CarrierFilesManager.ApplyEncoder | src/file_management/carrier_files_manager.cc:233-262 | gives every carrier its subkey and the encoder and sums the capacities, each that of the greatest number of blocks its announced size holds, or fails, exactly when no encoder, no carrier, an unknown size or no capacity |
| CarrierFilesManager.CarrierFilesManager.PlaceFiles | src/file_management/carrier_files_manager.cc:117-136 | the loop over offset and remaining capacity lays every carrier out as the layout functions say |
| CarrierFilesManager.CarrierFilesManager.LoadVirtualStorage | src/file_management/carrier_files_manager.cc:100-159 | succeeds exactly when the storage can be sized and every carrier loaded, and then holds what the carriers held; the answer is the checksum test |
| CarrierFilesManager.CarrierFilesManager.SaveVirtualStorage | src/file_management/carrier_files_manager.cc:161-170 | stores the checksum and saves every carrier, if and only if each was given a block |
| CarrierFilesManager.AllSaveableIff | src/carrier_files/carrier_file.cc:222-231 | every carrier can be saved if and only if each has capacity and begins inside the storage |
| CarrierFilesManager.VolumeIsValid | src/carrier_files/carrier_file.cc:60-76 | carriers with an encoder and a storage no larger than their capacities make up a valid volume with those capacities |
| CarrierFilesManager.SavedIsLoadable | src/carrier_files/carrier_file.cc:187-229 | carriers that could be saved can be loaded again |
| CarrierFilesManager.ReopenedVolume | src/file_management/carrier_files_manager.cc:294-321 | new carriers over the saved files, with the same keys, make up the saved volume |
| CarrierFilesManager.LoadedIsSaved | src/file_management/carrier_files_manager.cc:100-170 | a manager that has loaded a saved volume holds the storage that was saved, and its checksum test succeeded |
| Sessions.Open | src/file_management/carrier_files_manager.cc:57-159 | opening a directory succeeds if and only if `CanOpen` holds of the files with capacity, and then gives the volume that is a function of their contents and the keys |
| Sessions.Reopens | src/file_management/carrier_files_manager.cc:233-262 | files that were opened and saved can be opened again with the same keys, and make up the saved volume |
| Sessions.WriteSaveReopenRead | src/file_management/carrier_files_manager.cc:57-170 | the whole session on objects: it succeeds if and only if the files with capacity open, the access lies in the usable part and every carrier has a block; then it reads the bytes written and the checksum test is true |
| Sessions.SaveTwice | src/file_management/carrier_files_manager.cc:161-170 | on objects, a second save with no write in between ends like the first and leaves the storage and every file as they are |
| ConcurrentLoad.CellsAreDisjoint | src/carrier_files/carrier_file.cc:195-216 | no two carriers write the same storage cell |
| ConcurrentLoad.AnyScheduleIsSequential | src/file_management/carrier_files_manager.cc:138-147 | every complete interleaving of the `WriteByte` steps leaves the storage the sequential load leaves |
| ConcurrentLoad.EveryCellWrittenOnce | src/virtual_storage/virtual_storage.cc:179-189 | in every complete interleaving every storage cell is written exactly once |
| ConcurrentLoad.EveryScheduleCanFinish | src/file_management/carrier_files_manager.cc:138-147 | every interleaving can be continued to a complete one |
| ThreadPool.StepKeepsInv | src/utils/thread_pool.h:51-107 | every atomic step of workers, `enqueue` and destructor keeps the invariant |
| ThreadPool.TasksAreConserved | src/utils/thread_pool.h:53-96 | in every run, queued, running and finished tasks together are exactly those handed in before the stop, each once, dequeued in the order they were handed in |
| ThreadPool.AcceptedAreHandedIn | src/utils/thread_pool.h:80-96 | what the pool accepts in a run is exactly the sequence of tasks handed in before the first stop |
| ThreadPool.QueueIsServed | src/utils/thread_pool.h:58-96 | while tasks wait, some worker is awake or a notification is pending |
| ThreadPool.AllDoneAfterShutdown | src/utils/thread_pool.h:61-107 | when every worker has exited, the pool had been stopped and every task handed in before has finished |
| ThreadPool.ShutdownEnds | src/utils/thread_pool.h:98-107 | from every state reached after the stop some run ends with all workers returned |
| ThreadPool.ShutdownIsBounded | src/utils/thread_pool.h:98-107 | after the stop, only boundedly many steps remain |
| ThreadPool.QuietPoolIsDone | src/utils/thread_pool.h:58-96 | a pool with a worker, stopped or not, that can take no step but a new task, a stop or a spurious wake-up has finished every task it accepted |
| ThreadPool.WorkIsBounded | src/utils/thread_pool.h:58-96 | every run without those three is bounded by the work the pool has, so every such run leads there |
| ThreadPool.EveryTaskFinishes | src/utils/thread_pool.h:58-96 | from every state that keeps the invariant such a run finishes all tasks accepted so far |
| ThreadPool.ThreadPool.EnqueueTask | src/utils/thread_pool.h:80-96 | the task goes to the end of the queue with a notification due, or after a stop the exception and nothing changes; that is the protocol's step |
| ThreadPool.ThreadPool.NextTask | src/utils/thread_pool.h:57-65 | a worker takes the first task; without one it returns from a stopped pool and waits in any other; that is the protocol's step |
| ThreadPool.ThreadPool.StopPool | src/utils/thread_pool.h:98-103 | the stop flag is set, the tasks stay and the workers are about to be woken; that is the protocol's step |
| Keccak.Keccakf | src/utils/keccak/keccak.cc:33-72 | the rounds in place over 25 lanes are KECCAK-p of FIPS 202 on the string of 1600 bits, for every state and number of rounds |
| Keccak.ThetaBits | src/utils/keccak/keccak.cc:40-49 | theta bit by bit, section 3.2.1 of FIPS 202 |
| Keccak.RhoPiBits | src/utils/keccak/keccak.cc:51-58 | rho and pi in one walk: every lane is rotated by its offset and moved where pi takes it, sections 3.2.2 and 3.2.3 |
| Keccak.WalkReaches | src/utils/keccak/keccak.cc:51-58 | the walk reaches every lane but (0, 0) |
| Keccak.RhoPiSource | src/utils/keccak/keccak.cc:51-58 | read from the result: lane (x, y) is lane (x + 3y, x) rotated by that lane's offset, the direction of section 3.2.3 |
| Keccak.OffsetsAreTable2 | src/utils/keccak/keccak.cc:18-28 | the rotation offsets are those of table 2 of section 3.2.2 |
| Keccak.ChiBits | src/utils/keccak/keccak.cc:60-65 | chi bit by bit, section 3.2.4 |
| Keccak.IotaBits | src/utils/keccak/keccak.cc:67-69 | iota bit by bit, section 3.2.5 |
| Keccak.RoundConstantsAreGenerated | src/utils/keccak/keccak.cc:7-16 | the table of round constants is the one algorithm 5 of section 3.2.5 generates with its shift register |
| Keccak.RoundBits | src/utils/keccak/keccak.cc:38-69 | every bit after a round is one formula in the bits before it: theta, rho, pi, chi and iota in the order of section 3.3 |
| Keccak.RoundsAreKeccakP | src/utils/keccak/keccak.cc:33-72 | n rounds on lanes are n rounds of the standard on bits |
| Keccak.PadBytesArePad101 | src/utils/keccak/keccak.cc:95-99 | the bytes put behind the message are pad10*1 of section 5.1 |
| Keccak.Hash | src/utils/keccak/keccak.cc:74-109 | for every message the streaming loop with padding in its buffer gives the digest of the padded message; up to 66 bytes and a rate of whole lanes that is KECCAK of section 5.2 |
| Keccak.DigestIsSponge | src/utils/keccak/keccak.cc:74-109 | when the rate is a number of lanes the digest is, bit for bit, that of KECCAK of section 5.2 with pad10*1, as far as its first block of output |
| Keccak.DigestIsSpongeOf | src/utils/keccak/keccak.cc:74-109 | for any digest length it is the sponge over the padded message in which the bytes that do not fill a lane are zero |
| Keccak.EveryByteCountsIff | src/utils/keccak/keccak.cc:90-91 | the loop takes up every byte of every block if and only if the rate is a number of lanes |
| Keccak.DigestCollides | src/utils/keccak/keccak.cc:84-91 | otherwise two different messages of one block have the same digest |
| Keccak.OutputBits | src/utils/keccak/keccak.cc:106 | the digest is read from the state in the order of section 3.1.3 |
| Json.InsertKeepsOrder | src/utils/json.h:360-365 | whatever is inserted into an object, its keys stay in order, each once |
| Json.InsertStores | src/utils/json.h:360-365 | an insertion stores the value under its key and leaves every other key alone |
| Json.LessIsLexicographic | src/utils/json_object.h:44-48 | the order of keys is the lexicographic one |
| JsonText.SpaceIsSkipped | src/utils/json.h:75-83 | exactly blank, tab, line feed and carriage return are skipped, RFC 8259 section 2 |
| JsonText.PiecesAreRead | src/utils/json.h:170-206 | every string of section 7, with every escape in either case, is read as the bytes it stands for |
| JsonText.LastPairCounts | src/utils/json.h:227-246 | of several members with the same key the last one counts |
| JsonText.EveryTextIsRead | src/utils/json.h:267-302 | every text of the grammar of RFC 8259, in any layout, is read as its value, and the reader stops where it ends |
| JsonAccepts.AcceptsExactly | src/utils/json.h:267-302 | a text is accepted if and only if it begins with white space and a text of that grammar |
| JsonText.NumberBecomesBool | src/utils/json.h:285-335 | reading the text of a number gives the boolean whether it is not zero, and nothing else of it |
| JsonRoundTrip.PrintIsText | src/utils/json_object.h:378-469 | both printers write a text of the grammar whose value is the value printed |
| JsonRoundTrip.ParsePrinted | src/utils/json.h:267-302 | behind any of the four characters of white space, every printed value is read back, and the reader stops where its text ends |
| JsonRoundTrip.SerializeRoundTrip | src/utils/json_object.h:378-469 | parsing the output of either printer gives the value back and consumes exactly that text, whatever follows it |
| JsonRoundTrip.SerializeIsInjective | src/utils/json_object.h:378-469 | two values with the same text are the same |
| JsonRoundTrip.ParsePrintParse | src/utils/json.h:267-302 | what was read from any text and printed again is read as the same value |
| Json.ParsedIsWellFormed | src/utils/json.h:321-369 | every value the reader returns has its objects in order |
| Json.CodePointOfUnits | src/utils/json.h:128-150 | the escapes of every code point, one or a surrogate pair, are read as that code point, RFC 8259 section 7 |
| Json.DecodesUtf8 | src/utils/json.h:151-167 | the bytes pushed for a code point decode to it by RFC 3629, whatever follows them |
| Json.ReadsCodePoint | src/utils/json.h:128-206 | reading the escape of a code point inside a string gives bytes that decode to it, in front of the rest of the string |
| JsonReader.Input.GetC | src/utils/json.h:53-67 | delivers the next character or the one pushed back; the unread characters with the pushback shrink by one |
| JsonReader.Input.UngetC | src/utils/json.h:68-72 | takes back one character, not the end and not the same one twice |
| JsonReader.Input.SkipWs | src/utils/json.h:75-83 | stops in front of the first character that is no white space |
| JsonReader.Input.Expect | src/utils/json.h:84-91 | takes the expected character behind white space, and no other |
| JsonReader.Input.Match | src/utils/json.h:92-103 | succeeds if and only if the pattern comes next |
| JsonReader.ParseQuadHex | src/utils/json.h:106-125 | four hexadecimal digits, or -1 |
| JsonReader.ParseCodepoint | src/utils/json.h:128-167 | the shifts and masks push the UTF-8 bytes of the code point the escape stands for |
| JsonReader.ParseString | src/utils/json.h:170-206 | the loop over the cursor reads the string `ReadString` describes, or fails where it does |
| JsonReader.ParseNumber | src/utils/json.h:249-264 | collects the characters of a number and gives the first other one back |
| JsonReader.ParseArray | src/utils/json.h:209-224 | the loop over the items, over the cursor |
| JsonReader.ParseObject | src/utils/json.h:227-246 | the loop over the members, over the cursor; a repeated key keeps its last value |
| JsonReader.ParseValue | src/utils/json.h:267-302 | the recursive descent ends on every text, measured by unread characters and pushback, and delivers exactly `Parse`: value, position and pushback |
| JsonReader.ParseText | src/utils/json.h:405-424 | the value at the front of a text and where the cursor stands behind it |
| JsonWriter.SerializeStr | src/utils/json_object.h:349-375 | appends the quoted string |
| JsonWriter.Serialize | src/utils/json_object.h:378-417 | appends the compact text of the value |
| JsonWriter.PrettySerialize | src/utils/json_object.h:420-471 | appends the indented text of the value |

## Left out

- PermutationObjects.PermutationPtr.Init: an Affine64 request is at most 2^63, beyond which it need not become a permutation (Permutations.Affine64InjectiveIff; the object alone takes any), and one for the mixed network is below 2^60, beyond which the source shifts an `int` out of its range.
- Permutations.EveryPermutationIsBijective: an Affine64 size is at most 2^63, exactly the sizes for which it holds whatever the key (Permutations.Affine64InjectiveIff); so too Permutations.InverseIsTwoSided.
- VirtualStorage.VirtualStorage.ApplyPermutation: takes the requests PermutationPtr.Init takes.
- PermutationObjects.FeistelMixPermutation.Init: takes requests below 2^60, beyond which the source shifts an `int` out of its range.
- PermutationObjects.FeistelNumPermutation.Init: the root is the integer square root; SquareRoots.DoubleRootIff says exactly for which requests up to 2^53 the source's is.
- PermutationObjects.SearchAffine: a search that never ends in the source is the outcome `Forever`.
- Permutations.InitResult: hash tables are functions of a key given by its size and arbitrary words; how keys and subkeys are derived from the password and the file names is not modelled, only that the same file names and password give the same ones (carrier_file.cc:94-100).
- Carriers.Image: a carrier is the array of bytes or luminance coefficients that the source's libraries read and write; headers, compression, colour components other than the first, and file access are not modelled.
- CarrierFile.CarrierFile.Valid: a carrier has less than 2^32 usable samples.
- CarrierFilesManager.CarrierFilesManager.LoadVirtualStorage: the loading tasks run one after the other here; that their interleaving makes no difference is ConcurrentLoad's subject. The carriers are freshly opened: a loaded one only returns.
- ConcurrentLoad.AnyScheduleIsSequential: a task's shared effect is its `WriteByte` steps. The local permutations are taken as given: in the source each task may also initialise its own, and the affine searches then share the global `srand` and `rand`.
- ThreadPool.StepKeepsInv: locks and condition variable are atomic steps; a spurious wake-up is a step of its own; the future of a task and how its exception is passed on are not modelled.
- Keccak.DigestIsSponge: for digests longer than 66 bytes only the first block of output is compared, the source having no squeezing loop.
- JsonReader.ParseValue: numbers are read through an arbitrary function in place of `strtod`; line numbers, error texts, the value left behind by a failed parse, and the contexts that deny or ignore values are left out.
- Json.Json: a value has no numbers; a character stands for a byte.
- Sessions.WriteSaveReopenRead: one encoder object serves both openings.
- CarrierFilesManager.CarrierFilesManager.LoadDirectory: the files come in the order of their names; reading the directory is left out.
- Encoder and permutation factories by name, the context fitness (never passed by the factory), memory scrubbing, logging, the PNG, MKV and MPEG carriers, and the FUSE and Dokan services.
