# Verification of the RLBox process sandbox

Dafny models of two parts of the repository, with proofs: the entropy decoders and the PNG
reconstruction of `stb_image.h`, which its input generator uses, and the state machines of
the sandbox itself. Each specification is written without the code's tables, buffers and
loops; the code is then a class or a method with the source's fields and loops, proved
against it. The specifications of the three decoders are in turn tied, by round trips, to
encoders that follow the standards.

| file | models |
|---|---|
| `Bits.dfy`, `CanonicalCode.dfy`, `Deflate.dfy` | bit fields, canonical prefix codes, and what DEFLATE data means, bit by bit |
| `ZFixed.dfy`, `ZEncode.dfy` | the fixed codes as they are printed, and an encoder of DEFLATE streams with the round trip |
| `ZHuffman.dfy`, `ZReader.dfy`, `Zbuf.dfy`, `ZTruncated.dfy` | the zlib table builder, what the bit reader takes and makes up, the inflater, and truncated streams that it accepts |
| `JpegHuffman.dfy`, `JpegSegment.dfy`, `JpegReader.dfy`, `JpegBlock.dfy`, `JpegEncode.dfy` | the JPEG table builder, the segment and its reader, decoding and the combined table, the loop over AC coefficients, and an encoder with the round trip |
| `PngFilter.dfy`, `PngExpand.dfy`, `PngImage.dfy`, `Adam7.dfy` | scanline filters, sample expansion, unfiltering on two line buffers, de-interlacing |
| `PngEncode.dfy`, `Adam7Encode.dfy` | encoders of images, plain and interlaced, with the round trips |
| `MetaAlloc.dfy`, `MetaInvoke.dfy` | the ownership registry over two heaps, pointer translation, the choice of a backend |
| `LatencyRing.dfy`, `Dispatch.dfy`, `AdaptivePolicy.dfy` | latency medians, pinning, the adaptive policy |
| `WorkerPool.dfy`, `JobFraming.dfy` | the worker pool as a concurrent protocol, and the byte protocol with a worker |
| `Callbacks.dfy` | callback slots, host map and registry |
| `SeccompFilter.dfy` | the compiler from an allowlist to BPF, and an interpreter |
| `Options.dfy` | optional values |

Verify with `dafny verify dfyconfig.toml`.

Inputs are bytes, and machine integers are unbounded integers wherever the code cannot
overflow; the wrap-arounds that matter (the pin counter, 32-bit parameters, the size of the
output buffer, two's complement on the wire) are written out. Shifts and masks are
recursive functions on natural numbers. The exclusive-or in the length check of a stored
block is written as a subtraction from 0xFFFF.

Host addresses are taken to leave the tag bit free and process blocks to lie above wasm's
linear memory, as the source assumes; on a 32-bit host the first means the lower two
gigabytes.

## Where code and comments part

- A JPEG table of 256 codes in which the last has at most nine bits is accepted and then
  decoded wrongly: table index 255 doubles as the flag for codes that are not accelerated.
  On most windows that begin with its code the assertion after the search fails.
- Past a JPEG marker only one call, the one whose refill meets it, can see that bits are
  missing. In the AC loop that call is a lookup in the combined table, which fails, or the
  receipt of a magnitude, which gives 0; Huffman decoding there never sees it.
- The comment beside the sixteen padding bits of the zlib reader says that using any of them
  is caught. It is, but plain refills make up other zeros, which are not: some
  streams whose end is cut off are accepted.
- `stbi__zexpand` does not terminate on an expandable buffer of size zero.
- `impl_free_in_sandbox` falls back to the tag bit for a pointer that is not registered, as
  its comment says. The untagged offset of a block that wasm code allocated for itself then
  goes to the process heap.
- The comment beside `pinned` says that a pinned symbol skips the policy and the ownership
  override. Nothing on the invoke path reads `pinned`, so every dispatch is counted.
- `register_struct_type` is documented to abort on colliding sizes. It never does; the
  abort comes with the first allocation of such a size.
- The tagged scratch of a struct argument is passed to wasm without being stripped, which
  a 32-bit host does not narrow away, and a struct pointer that lost its tag is not found
  in the table of scratches at all.
- Wasm offset 0 is a valid address of linear memory that translates to null.
- A failed callback registration leaves its key in the host's map. A second registration of
  a live key, or one of a null key, breaks the agreement of the three parties.
- `push` drops instructions silently. A list that is too long loses the terminal action,
  and the kernel then refuses the program, so that the worker exits instead of running
  unfiltered.
- A worker between its fork and its push is in neither of the places pooled, in flight and
  reaped; the refill thread holds it.

## Model

| member | source | states |
|---|---|---|
| `Bits.BitReverse16Correct` | test/libjpeg-testing/create_input_utils/stb_image.h:4107-4114 | the four swap stages reverse the sixteen bits of every word |
| `Bits.BitReverseShort` | test/libjpeg-testing/create_input_utils/stb_image.h:4116-4122 | reversing sixteen bits and shifting away the rest reverses any width up to 16 |
| `CanonicalCode.EndCodeIsKraft` | test/libjpeg-testing/create_input_utils/stb_image.h:4141-4153 | the next free code of a length is the Kraft sum of the lengths so far: the check on each length is a check of the Kraft inequality |
| `CanonicalCode.CodeIsSum` | test/libjpeg-testing/create_input_utils/stb_image.h:4141-4163 | a codeword, as a binary fraction, is the Kraft sum of the codewords before it, by length and then by symbol: this determines every code |
| `CanonicalCode.MatchUnique` | test/libjpeg-testing/create_input_utils/stb_image.h:4124-4169 | canonical codes are prefix-free: at most one codeword begins a word, whatever the lengths |
| `CanonicalCode.SlowHit` | test/libjpeg-testing/create_input_utils/stb_image.h:4230-4240 | where the search by left-aligned end codes stops, the word begins with a codeword of that length, and its position in the sorted tables is the computed index |
| `CanonicalCode.NoLongerMatch` | test/libjpeg-testing/create_input_utils/stb_image.h:4230-4233 | no word that begins with a codeword of some length is at or above the first code of a greater length, so the first length that fits is the only one |
| `CanonicalCode.RankInjective` | test/libjpeg-testing/create_input_utils/stb_image.h:4154-4163 | no two symbols share a place in the sorted tables |
| `ZHuffman.FastHitIsMatch` | test/libjpeg-testing/create_input_utils/stb_image.h:4158-4164 | an index of the fast table extends a reversed codeword exactly when the bit buffer begins with the codeword |
| `ZHuffman.FastMiss` | test/libjpeg-testing/create_input_utils/stb_image.h:4224-4232 | a miss in the fast table puts the reversed buffer at or above the end of the nine-bit codes, so the search may start at ten |
| `ZHuffman.ZTable.Build` | test/libjpeg-testing/create_input_utils/stb_image.h:4124-4169 | for every list of at most 288 lengths of at most 15: accepted exactly when the Kraft sum is at most 1, and then all tables describe the canonical code |
| `Zbuf.ZBuf.FillBits` | test/libjpeg-testing/create_input_utils/stb_image.h:4202-4212 | the buffer goes on holding the bits at the read position, zeros past the input, with more than 24 of them; exactly as many bytes are taken; the guard on the buffer never fires |
| `Zbuf.ZBuf.Receive` | test/libjpeg-testing/create_input_utils/stb_image.h:4214-4222 | the next bits of the input as a number, first bit lowest; the position moves by exactly as many, and the count never goes negative |
| `Zbuf.ZBuf.HuffmanDecodeSlowpath` | test/libjpeg-testing/create_input_utils/stb_image.h:4224-4241 | after a fast miss: the symbol whose codeword is next and its length consumed, or -1 exactly when no codeword is next |
| `Zbuf.ZBuf.HuffmanDecodeFast` | test/libjpeg-testing/create_input_utils/stb_image.h:4263-4269 | an entry of the fast table names the symbol whose codeword is next, and its length |
| `Zbuf.ZBuf.HuffmanDecode` | test/libjpeg-testing/create_input_utils/stb_image.h:4243-4271 | the symbol whose codeword is next; -1 exactly when there is none or the sixteen padding bits have been reached into; the bytes taken and zeros made up are the stated function of the reader |
| `ZReader.GivesUp` | test/libjpeg-testing/create_input_utils/stb_image.h:4243-4262 | decoding gives up exactly where more bits have been used than the input has and plain refills made up, so never inside the input |
| `Deflate.CodewordUnique` | test/libjpeg-testing/create_input_utils/stb_image.h:4243-4271 | on every position of every input at most one codeword is next, so decoding has no choice |
| `Zbuf.ZBuf.Expand` | test/libjpeg-testing/create_input_utils/stb_image.h:4273-4293 | growing keeps every byte written and makes the room asked for; it fails only when a fixed buffer is too short or twice the need exceeds the heap or 32 bits, and goes on for ever exactly when an expandable buffer of size zero is asked for more |
| `Zbuf.DoublingReaches` | test/libjpeg-testing/create_input_utils/stb_image.h:4281-4284 | doubling reaches a size exactly when it starts above zero or the size is zero |
| `Zbuf.ZBuf.CopyMatch` | test/libjpeg-testing/create_input_utils/stb_image.h:4347-4356 | both copy loops, the one-byte run and the general one, are the append-only copy, overlapping or not |
| `Deflate.CopyPeriodic` | test/libjpeg-testing/create_input_utils/stb_image.h:4347-4356 | an overlapping copy repeats the last `dist` bytes periodically |
| `Deflate.LengthCodesTile` | test/libjpeg-testing/create_input_utils/stb_image.h:4295-4301 | the length codes tile 3 to 257, and 258 has its own |
| `Deflate.DistanceCodesTile` | test/libjpeg-testing/create_input_utils/stb_image.h:4303-4307 | the distance codes tile 1 to 32768 |
| `Zbuf.ZBuf.ReadMatch` | test/libjpeg-testing/create_input_utils/stb_image.h:4336-4343 | length and distance of a match are those of the token in the bits; it fails exactly when the token has no distance code or the reader gives up on it |
| `Zbuf.ZBuf.ParseToken` | test/libjpeg-testing/create_input_utils/stb_image.h:4312-4356 | one round of the loop is one token of the bits; each error is a token that cannot be read, one that reaches back too far, an end of block among the padding bits, or an output that cannot grow |
| `Zbuf.ZBuf.ParseHuffmanBlock` | test/libjpeg-testing/create_input_utils/stb_image.h:4309-4357 | success means that the tokens up to the end of block append exactly the bytes written, with the padding bits unread; failure names the token that is at fault and why |
| `Zbuf.ZBuf.ReadCodeLengthCode` | test/libjpeg-testing/create_input_utils/stb_image.h:4371-4375 | the lengths of the code-length code, unscrambled |
| `Zbuf.ZBuf.ExpandItem` | test/libjpeg-testing/create_input_utils/stb_image.h:4378-4400 | one run-length item: repeats may cross from literals to distances, and never pass the total; it fails exactly on a malformed item or where the reader gives up |
| `Zbuf.ZBuf.ExpandLengths` | test/libjpeg-testing/create_input_utils/stb_image.h:4376-4404 | the expansion loop computes the run-length expansion of section 3.2.7 of RFC 1951; it fails only when that is malformed or cannot be read |
| `Zbuf.ZBuf.ComputeHuffmanCodes` | test/libjpeg-testing/create_input_utils/stb_image.h:4359-4407 | the two tables describe the codes that the block header stands for; failure means that it stands for none or cannot be read |
| `Zbuf.ZBuf.DrainBuffer` | test/libjpeg-testing/create_input_utils/stb_image.h:4417-4421 | the whole bytes left in the bit buffer come first in the header of a stored block, and the buffer is empty then |
| `Zbuf.ZBuf.ParseUncompressedBlock` | test/libjpeg-testing/create_input_utils/stb_image.h:4409-4436 | a stored block copies exactly the bytes after its aligned header and leaves the bit buffer empty; on a well-formed one it fails only for want of room |
| `Deflate.FixedCodesHold` | test/libjpeg-testing/create_input_utils/stb_image.h:4452-4467 | both fixed codes satisfy the Kraft inequality, so building their tables never fails |
| `ZFixed.FixedCodesFill` | test/libjpeg-testing/create_input_utils/stb_image.h:4452-4467 | both fixed codes fill the code space exactly |
| `ZFixed.FixedLitCodes` | test/libjpeg-testing/create_input_utils/stb_image.h:4452-4463 | the fixed literal code is the table that section 3.2.6 of RFC 1951 prints |
| `ZFixed.FixedLitSymbol` | test/libjpeg-testing/create_input_utils/stb_image.h:4452-4463 | in a fixed block the next symbol is what the printed ranges say of the next seven, eight and nine bits, for every input and position |
| `ZFixed.FixedDistSymbol` | test/libjpeg-testing/create_input_utils/stb_image.h:4464-4467 | in a fixed block the next distance symbol is the next five bits as a number, five bits used, for every input and position |
| `Zbuf.ZBuf.ParseBlock` | test/libjpeg-testing/create_input_utils/stb_image.h:4488-4505 | one block takes position, output and reader where the bits say; on a block that can be read it fails only for want of room |
| `Zbuf.ZBuf.ParseZlib` | test/libjpeg-testing/create_input_utils/stb_image.h:4481-4508 | success leaves the one output that the chain of blocks means, and has overrun the input by at most the zeros that refills made up; every stream that ends inside the input, and every other that can be read, fails only for want of room; every encoded stream gives back what was encoded |
| `ZReader.ReadInsideInput` | test/libjpeg-testing/create_input_utils/stb_image.h:4243-4271 | every stream that means something and ends inside the input can be read to its end, with or without bytes behind it |
| `ZReader.AcceptedMeans` | test/libjpeg-testing/create_input_utils/stb_image.h:4326-4332 | a stream that is accepted means its output, and ends past the input exactly when fewer bits are left in the buffer than refills made up |
| `ZTruncated.SevenAccepted` | test/libjpeg-testing/create_input_utils/stb_image.h:4247-4262 | the seven bytes 3B 71 E2 C4 89 13 8E are accepted at bit 63 of 56: the refill inside Huffman decoding makes up zeros that the check at the end of a block does not see |
| `ZTruncated.OneAccepted` | test/libjpeg-testing/create_input_utils/stb_image.h:4214-4217 | so is the single byte 03, at bit 10 of 8, after the refill of a plain field |
| `Deflate.InflatedUnique` | test/libjpeg-testing/create_input_utils/stb_image.h:4481-4508 | a stream has at most one decoding, so two successful runs agree whatever their initial buffer sizes |
| `ZEncode.LengthPartsAre` | test/libjpeg-testing/create_input_utils/stb_image.h:4295-4301 | the length tables are the rule of section 3.2.5: four codes to each power of two, and 285 for 258 |
| `ZEncode.DistPartsAre` | test/libjpeg-testing/create_input_utils/stb_image.h:4303-4307 | the distance tables are two codes to each power of two |
| `ZEncode.OrderIs` | test/libjpeg-testing/create_input_utils/stb_image.h:4361 | the code-length lengths come in the order: repeat codes, zero, then from 8 outwards |
| `ZEncode.TokWritten` | test/libjpeg-testing/create_input_utils/stb_image.h:4312-4356 | a literal or a match that was encoded is read back as the bytes that it stands for |
| `ZEncode.ItemWritten` | test/libjpeg-testing/create_input_utils/stb_image.h:4378-4400 | a length, three to six repetitions, or three to 138 zeros, each encoded by the rule of section 3.2.7, are read back |
| `ZEncode.HeaderWritten` | test/libjpeg-testing/create_input_utils/stb_image.h:4359-4407 | the header of a dynamic block, however its lengths are run-length coded, gives back both codes |
| `ZEncode.StoredWritten` | test/libjpeg-testing/create_input_utils/stb_image.h:4409-4436 | a stored block that was encoded gives back its bytes |
| `ZEncode.EncodedInflates` | test/libjpeg-testing/create_input_utils/stb_image.h:4481-4508 | the round trip of DEFLATE: a stream of stored, fixed and dynamic blocks means the bytes that were encoded and ends where it was written to, whatever follows |
| `ZEncode.EncodedDecodes` | test/libjpeg-testing/create_input_utils/stb_image.h:4481-4508 | and no decoding of it means anything else |
| `ZEncode.EncodeEncodes` | test/libjpeg-testing/create_input_utils/stb_image.h:4481-4508 | every sequence of blocks has such bytes |
| `JpegHuffman.JHuffman.Build` | test/libjpeg-testing/create_input_utils/stb_image.h:2003-2046 | accepted exactly for at most 256 codes within the Kraft inequality, and then the tables describe the code of annex C.2 of ITU-T T.81 |
| `JpegHuffman.SizeListCounts` | test/libjpeg-testing/create_input_utils/stb_image.h:2007-2014 | the size list has as many codes of each length as the counts say |
| `JpegHuffman.LookupCorrect` | test/libjpeg-testing/create_input_utils/stb_image.h:2097-2146 | fast table and search agree with bit-by-bit decoding on every sixteen-bit window that no flagged index spoils |
| `JpegHuffman.LookupExact` | test/libjpeg-testing/create_input_utils/stb_image.h:2097-2146 | they agree on all windows exactly when the list is not one of 256 codes whose last has at most nine bits |
| `JpegHuffman.SpoiltWindow` | test/libjpeg-testing/create_input_utils/stb_image.h:2034-2043 | each excluded list has a window on which decoding goes wrong: index 255 reads as not accelerated |
| `JpegHuffman.SoundAssertion` | test/libjpeg-testing/create_input_utils/stb_image.h:2140 | where the search comes to the assertion on a window that the flag does not spoil, the matched bits are the code of the symbol |
| `JpegHuffman.SpoiltAssertion` | test/libjpeg-testing/create_input_utils/stb_image.h:2140 | on a spoilt window the search comes to the assertion, and it holds only for the last of the ten-bit windows |
| `JpegHuffman.AssertionExact` | test/libjpeg-testing/create_input_utils/stb_image.h:2140 | the assertion holds on every window that comes to it exactly when the list is not one of 256 codes whose last has at most nine bits; the code of index 255 followed by zeros fails it |
| `JpegHuffman.FlaggedAccepted` | test/libjpeg-testing/create_input_utils/stb_image.h:2003-2046 | such a list is accepted: 255 codes of eight bits and one of nine |
| `JpegReader.JpegBits.GrowBuffer` | test/libjpeg-testing/create_input_utils/stb_image.h:2075-2092 | the buffer goes on holding the unstuffed bits of the segment; it stops short exactly when it meets the marker now, and has zeros without end after that |
| `JpegEncode.StuffedRead` | test/libjpeg-testing/create_input_utils/stb_image.h:2075-2092 | the bytes of a segment, stuffed and followed by nothing or by a marker with fill bytes before it, are read back |
| `JpegReader.JpegBits.HuffDecode` | test/libjpeg-testing/create_input_utils/stb_image.h:2097-2146 | the value of the symbol whose codeword is next in the unstuffed bits; -1 exactly when there is none, or the marker is met by the refill of this very call and the codeword passes it; a flagged symbol costs ten bits and aborts exactly when the ten are not the last |
| `JpegBlock.PastTheMarker` | test/libjpeg-testing/create_input_utils/stb_image.h:2075-2113 | the bytes 7F FF D9: after a code of one bit, one of nine is decoded from seven bits and two made up |
| `JpegReader.ExtendStepCorrect` | test/libjpeg-testing/create_input_utils/stb_image.h:2160-2165 | rotation, masks and bias compute EXTEND of the top bits (section F.2.2.1 of ITU-T T.81) |
| `JpegReader.JpegBits.ExtendReceive` | test/libjpeg-testing/create_input_utils/stb_image.h:2153-2166 | the next bits, extended; 0 and nothing consumed exactly when the refill of this very call meets the marker with fewer to come |
| `JpegReader.BuildFastAc` | test/libjpeg-testing/create_input_utils/stb_image.h:2050-2073 | each entry of the combined table is what its index calls for |
| `JpegBlock.EntryExactly` | test/libjpeg-testing/create_input_utils/stb_image.h:2050-2073 | the combined table has an entry exactly where code and magnitude fit nine bits and the value fits a signed byte |
| `JpegBlock.FastStepExact` | test/libjpeg-testing/create_input_utils/stb_image.h:2234-2259 | an entry gives the run, coefficient and position of decoding and then extending, refills included, exactly when it uses no more bits than the refill of its round left; otherwise it fails, and decoding goes on |
| `JpegBlock.RoundRefill` | test/libjpeg-testing/create_input_utils/stb_image.h:2234-2247 | after the refill of a round Huffman decoding is never short of bits, since that refill met the marker if any does |
| `JpegBlock.CutShort` | test/libjpeg-testing/create_input_utils/stb_image.h:2241-2259 | a state where they part: a code of two bits and a magnitude of seven, with eight bits before the marker |
| `JpegBlock.DecodeAc` | test/libjpeg-testing/create_input_utils/stb_image.h:2229-2262 | the loop decodes what its rounds stand for, within the 79 entries of the zigzag table; the entry with number k in figure A.6 becomes coefficient k times the step of the same place, modulo 2 to the 16, and every other entry stays |
| `JpegBlock.RunStores` | test/libjpeg-testing/create_input_utils/stb_image.h:2232-2262 | the same of the run as a function, with the combined table or without |
| `JpegEncode.EncodedBlockDecodes` | test/libjpeg-testing/create_input_utils/stb_image.h:2229-2262 | the round trip of AC coefficients: a block encoded by section F.1.2.2 of ITU-T T.81, with runs of sixteen zeros and an end of block, comes back dequantized, each coefficient in its place, and the reader ends behind it |
| `JpegEncode.ExtendMagnitude` | test/libjpeg-testing/create_input_utils/stb_image.h:2153-2166 | the magnitude bits of a value, by its size category, extend to the value |
| `JpegBlock.RunsAgree` | test/libjpeg-testing/create_input_utils/stb_image.h:2229-2262 | with the combined table the loop gives what decoding code by code gives, if it does not fail; and it does not fail on a block that ends inside the segment |
| `JpegBlock.DezigzagInverse` | test/libjpeg-testing/create_input_utils/stb_image.h:2192-2206 | the first 64 places are the inverse of the zigzag order of figure A.6 of ITU-T T.81, so each coefficient has one place |
| `PngFilter.PaethCorrect` | test/libjpeg-testing/create_input_utils/stb_image.h:4657-4668 | the branch-free formulation is the Paeth predictor of section 6.6 of RFC 2083 for all integers |
| `PngFilter.PaethNearest` | test/libjpeg-testing/create_input_utils/stb_image.h:4657-4668 | the predictor is the nearest of left, upper and upper left to their linear estimate, ties in that order |
| `PngFilter.FilterTypes` | test/libjpeg-testing/create_input_utils/stb_image.h:4752-4787 | the reconstruction of each filter type, by its number, adds nothing, the left byte, the upper byte, their mean, or the Paeth predictor |
| `PngFilter.RowRoundTrip` | test/libjpeg-testing/create_input_utils/stb_image.h:4752-4787 | reconstructing a filtered scanline gives the scanline, for each filter and stride |
| `PngFilter.RowRoundTripBack` | test/libjpeg-testing/create_input_utils/stb_image.h:4752-4787 | filtering a reconstructed scanline gives the filtered bytes |
| `PngFilter.ImageRoundTrip` | test/libjpeg-testing/create_input_utils/stb_image.h:4734-4787 | the same for whole images with a filter type per row, whatever follows the data |
| `PngImage.UnfilterRow` | test/libjpeg-testing/create_input_utils/stb_image.h:4648-4655 | each branch of the switch writes the reconstructed scanline and nothing else; the substitutions for the first row are right for a prior row of zeros |
| `PngImage.Scanlines` | test/libjpeg-testing/create_input_utils/stb_image.h:4734-4853 | with two line buffers alternating, success outputs the pixels of the reconstruction of the data, failure means an unknown filter type |
| `PngImage.ScanlineBytes` | test/libjpeg-testing/create_input_utils/stb_image.h:4712-4745 | the bytes a filter loop covers are the bytes that a scanline occupies |
| `PngImage.FewestBytes` | test/libjpeg-testing/create_input_utils/stb_image.h:4718 | a scanline is the fewest bytes that hold its samples |
| `PngImage.CreateImageRaw` | test/libjpeg-testing/create_input_utils/stb_image.h:4696-4859 | too short data is refused, exactly; otherwise the result is the pixels of exactly the scanlines asked for, at every depth, with or without alpha |
| `PngExpand.Unpack` | test/libjpeg-testing/create_input_utils/stb_image.h:4791-4822 | the loops unpack the samples of one, two and four bits from the high bits down, scaled |
| `PngExpand.UnpackPack` | test/libjpeg-testing/create_input_utils/stb_image.h:4799-4822 | unpacking gives back every sample that an encoder packed |
| `PngExpand.ScaleIs` | test/libjpeg-testing/create_input_utils/stb_image.h:4670 | scaling takes a grey level of m to 255 times its fraction of m |
| `PngExpand.AlphaExpand` | test/libjpeg-testing/create_input_utils/stb_image.h:4675-4693 | running backwards, each sample is moved and alpha put in, with source and destination one buffer or two |
| `PngExpand.ExpandLine` | test/libjpeg-testing/create_input_utils/stb_image.h:4789-4852 | at every depth the line is the samples of the scanline, scaled, in the platform's byte order, with opaque alpha where it is added |
| `PngEncode.SampleBack` | test/libjpeg-testing/create_input_utils/stb_image.h:4789-4852 | every sample of an encoded scanline is read back as its level, at every depth |
| `PngEncode.EncodeLength` | test/libjpeg-testing/create_input_utils/stb_image.h:4712-4722 | an encoded image takes, for each row, one byte and the length of the packed row: what the source consumes |
| `PngEncode.EncodedAccepted` | test/libjpeg-testing/create_input_utils/stb_image.h:4696-4859 | encoded data is accepted, whatever follows it |
| `PngEncode.EncodedImageDecodes` | test/libjpeg-testing/create_input_utils/stb_image.h:4696-4859 | the round trip of images: for every legal format, filter type per row and byte order, each channel of each pixel is the level of the sample that was encoded, or opaque alpha |
| `Adam7.PassIs` | test/libjpeg-testing/create_input_utils/stb_image.h:4874-4877 | origins and spacings generate the published eight-by-eight pattern |
| `Adam7.PassIntoImage` | test/libjpeg-testing/create_input_utils/stb_image.h:4890-4895 | every pixel of a pass lands in the image, on a pixel of that pass, and is found again there |
| `Adam7.ImageFromPass` | test/libjpeg-testing/create_input_utils/stb_image.h:4880-4895 | every pixel of the image is a pixel of its pass |
| `Adam7.EveryPixelOnce` | test/libjpeg-testing/create_input_utils/stb_image.h:4873-4901 | exactly one (pass, column, row) writes each pixel of every image |
| `Adam7.PassSizesSum` | test/libjpeg-testing/create_input_utils/stb_image.h:4880-4881 | the pass sizes sum to width times height |
| `Adam7.CopyPass` | test/libjpeg-testing/create_input_utils/stb_image.h:4888-4896 | the copy loops of a pass place its pixels and touch no others |
| `Adam7.CreateImage` | test/libjpeg-testing/create_input_utils/stb_image.h:4861-4904 | at every depth: success exactly when the data has every nonempty pass, each beginning where the one before ended; then each pixel is the pixel of its pass |
| `Adam7Encode.PassDataLength` | test/libjpeg-testing/create_input_utils/stb_image.h:4882-4900 | an encoded pass takes as many bytes as the loop skips for it |
| `Adam7Encode.InterlacedImageDecodes` | test/libjpeg-testing/create_input_utils/stb_image.h:4861-4904 | the round trip of interlaced images: the seven encoded passes of an image, whatever follows, are accepted, and every channel of every pixel comes back in its place |
| `MetaAlloc.TagRoundTrip` | include/rlbox_meta_sandbox.hpp:187-203 | tagging and stripping are inverse, and the tag tells the owner |
| `MetaAlloc.Meta.Malloc` | include/rlbox_meta_sandbox.hpp:793-874 | a fresh block, recorded with the chosen owner, and a scratch exactly when one registered type calls for it and the wasm heap does not refuse; aborts only on an address in the tag bit or an ambiguous size; null only when the chosen heap refuses, and then nothing changes |
| `MetaAlloc.Meta.FindMatch` | include/rlbox_meta_sandbox.hpp:837-858 | the loop counts the registered types of a size and finds the last |
| `MetaAlloc.AmbiguousSize` | include/rlbox_meta_sandbox.hpp:837-859 | a size is ambiguous exactly when two registered types have it |
| `MetaAlloc.MatchesAre` | include/rlbox_meta_sandbox.hpp:837-858 | the types that match are exactly the registered ones of that size |
| `MetaAlloc.Meta.RegisterStructType` | include/rlbox_meta_sandbox.hpp:969-990 | a known symbol is replaced in place, a new one appended |
| `MetaAlloc.RegistrationKeepsDistinct` | include/rlbox_meta_sandbox.hpp:969-990 | symbols stay distinct and other types stay, whatever the sizes |
| `MetaAlloc.Meta.Free` | include/rlbox_meta_sandbox.hpp:876-925 | for every pointer: of a live one, block and scratch go back to the heaps they came from, whichever form it has; any other goes to the heap that its tag bit names, which takes a scratch if it is the tagged pointer to one and else is asked for a block it does not hold |
| `MetaAlloc.HeldWhen` | include/rlbox_meta_sandbox.hpp:881-924 | the heap asked holds the block exactly when the pointer is live or the tagged one to a scratch |
| `MetaAlloc.FreeFindsBlock` | include/rlbox_meta_sandbox.hpp:881-905 | for every block of either heap and each of its pointers: the call asks that heap for that block exactly when the pointer is registered in either form or its tag bit names the heap |
| `MetaAlloc.UntaggedOffset` | include/rlbox_meta_sandbox.hpp:881-905 | the untagged offset of a wasm block that the registry does not know goes to the process heap, which does not hold it |
| `MetaAlloc.FreeKeeps` | include/rlbox_meta_sandbox.hpp:906-924 | the heaps stay accounted for exactly when the pointer is not the tagged one to a scratch |
| `MetaAlloc.FoundInBothForms` | include/rlbox_meta_sandbox.hpp:881-905 | a live allocation is found under its tagged and under its stripped pointer |
| `MetaAlloc.Meta.RecordReturn` | include/rlbox_meta_sandbox.hpp:716-754 | a returned pointer is registered under its tagged form; an entry that is there stays |
| `MetaAlloc.StepConserves` | include/rlbox_meta_sandbox.hpp:793-925 | every step keeps the heaps accounted for |
| `MetaAlloc.RunConserves` | include/rlbox_meta_sandbox.hpp:272-296 | over every run of allocations, frees, library allocations and returned pointers: owners are tag bits, and each heap is exactly the registry, the scratches and the library's own blocks, nothing twice |
| `MetaAlloc.NothingLeft` | include/rlbox_meta_sandbox.hpp:876-925 | freeing everything empties both heaps, scratches included |
| `MetaAlloc.AllReturned` | include/rlbox_meta_sandbox.hpp:876-925 | and then every block was given back to its heap as often as it was handed out |
| `MetaAlloc.ReturnedPointer` | include/rlbox_meta_sandbox.hpp:716-754 | registering a returned pointer keeps the registry the set of live allocations exactly when it points to a block of the library's own |
| `MetaInvoke.TranslationRoundTrip` | include/rlbox_meta_sandbox.hpp:384-419 | host to sandbox and back is the identity exactly when the address is neither the first byte of linear memory nor a nonzero one below its size outside it |
| `MetaInvoke.TranslationInjective` | include/rlbox_meta_sandbox.hpp:406-419 | two addresses have the same sandbox pointer exactly when they are one, or one lies in linear memory at the offset that is the other |
| `MetaInvoke.OwnerSurvivesTranslation` | include/rlbox_meta_sandbox.hpp:927-946 | an allocation's pointer loses its tag in translation, not its recorded owner |
| `MetaInvoke.ChooseBackend` | include/rlbox_meta_sandbox.hpp:573-600 | the loop over arguments arrives at the owner of the allocations among them, at the pick when there is none, and aborts on mixed owners or a missing wasm symbol |
| `MetaInvoke.RunsOnOwner` | include/rlbox_meta_sandbox.hpp:573-600 | a call that is not aborted runs on the backend that owns each allocation passed to it, in either form |
| `MetaInvoke.RunsOnPick` | include/rlbox_meta_sandbox.hpp:571-600 | when no pointer argument is registered the call runs on the pick of the policy, and is aborted exactly when that is wasm and the symbol has no binding |
| `MetaInvoke.OwnersDecide` | include/rlbox_meta_sandbox.hpp:592-600 | when one is registered the pick does not matter |
| `MetaInvoke.ReceivesOwnBlock` | include/rlbox_meta_sandbox.hpp:673-676 | an allocation without a scratch reaches wasm as its own live offset, in either form and on either pointer width |
| `MetaInvoke.ReceivesScratch` | include/rlbox_meta_sandbox.hpp:645-665 | a wasm-owned struct allocation reaches wasm as its scratch exactly when it is passed tagged and pointers are wider than 32 bits |
| `MetaInvoke.ReceivesSlot` | include/rlbox_meta_sandbox.hpp:666-676 | a callback handle arrives as its wasm slot, null as null, and any other pointer without its tag |
| `LatencyRing.Ring.Push` | include/rlbox_meta_sandbox.hpp:231-235 | the window gains the sample and, from eight on, loses the oldest |
| `LatencyRing.Ring.Holds` | include/rlbox_meta_sandbox.hpp:226-236 | the occupied prefix of the array is the window as a multiset |
| `LatencyRing.Ring.Median` | include/rlbox_meta_sandbox.hpp:237-244 | the sample of rank ceil(n/2) of the window, 0 when it is empty |
| `LatencyRing.LowerMedianUnique` | include/rlbox_meta_sandbox.hpp:237-244 | there is at most one such sample value |
| `LatencyRing.LowerMedianHalves` | include/rlbox_meta_sandbox.hpp:237-244 | it is the sample with fewer than half of the samples below it and at least half not above it |
| `Dispatch.SymbolRecord.PushSample` | include/rlbox_meta_sandbox.hpp:602-630 | one more sample on the right ring; for any pin and any threshold, changed or not, the pin changes exactly when this pick makes the run long enough; a pin that is a function of the picks remains one, although the counter wraps at 2 to the 32; threshold 0 leaves it alone |
| `Dispatch.TrailingRunIs` | include/rlbox_meta_sandbox.hpp:618-627 | the counter counts the equal picks that end the history |
| `Dispatch.PinnedIsLatest` | include/rlbox_meta_sandbox.hpp:617-627 | the pin names the backend of the latest run of at least the threshold of equal picks |
| `Dispatch.PinnedWhen` | include/rlbox_meta_sandbox.hpp:617-627 | there is a pin exactly when some such run has been made |
| `Dispatch.PinStep` | include/rlbox_meta_sandbox.hpp:618-627 | one pick more, for every threshold from 1 to 2 to the 32 less one |
| `Dispatch.PinnedExactly` | include/rlbox_meta_sandbox.hpp:617-627 | from 2 on the pin is that of the latest long run; at 1 exactly when the latest pick repeats the one before, process before the first, or was pinned already |
| `AdaptivePolicy.Adaptive.Decide` | include/rlbox_meta_sandbox.hpp:110-157 | every answer is the update of the named invoke before, process without a wasm binding; the state depends on the named invokes alone |
| `AdaptivePolicy.AbortsOnlyForArguments` | include/rlbox_meta_sandbox.hpp:592-638 | under this policy a call is aborted only for the owners of its arguments |
| `AdaptivePolicy.AllocationsAreInvisible` | include/rlbox_meta_sandbox.hpp:124-126 | allocation queries, however many and wherever, change no later answer |
| `AdaptivePolicy.AnswersArgmin` | include/rlbox_meta_sandbox.hpp:110-157 | under any period: until the next named invoke the answer is the backend with the lower sum at the last, or the draw if the sums were equal or it explored |
| `AdaptivePolicy.AnswersLower` | include/rlbox_meta_sandbox.hpp:146-152 | when the last named invoke did not explore and its sums differ, the answer, binding permitting, is the backend whose sum was strictly lower |
| `AdaptivePolicy.FirstAnswer` | include/rlbox_meta_sandbox.hpp:110-126 | before any named invoke the answer is process |
| `AdaptivePolicy.ExploredCount` | include/rlbox_meta_sandbox.hpp:141-145 | of the first n named invokes, those of the warm-up explore and then one in each period, the first |
| `WorkerPool.RunInv` | src/rlbox_process_sandbox_shim.cpp:516-583 | all invariants below hold over every schedule of the refill thread and any number of callers |
| `WorkerPool.OnePlace` | src/rlbox_process_sandbox_shim.cpp:516-583 | in every reachable state a worker is in exactly one place: held by the refill thread, pooled once, in flight with one caller, or reaped |
| `WorkerPool.Safe` | src/rlbox_process_sandbox_shim.cpp:559-583 | in every reachable state the pool is at most the target, no worker has run two jobs, and the refill thread does not wait below target without a wake-up |
| `WorkerPool.FirstInFirstOut` | src/rlbox_process_sandbox_shim.cpp:518-528 | callers get workers in the order in which they were forked |
| `WorkerPool.RefillProgress` | src/rlbox_process_sandbox_shim.cpp:559-583 | below target the refill thread can always step, and steps nearer |
| `WorkerPool.PoolFills` | src/rlbox_process_sandbox_shim.cpp:559-583 | left alone with forks succeeding, it fills the pool within a bounded number of steps |
| `WorkerPool.Pool.TryAcquire` | src/rlbox_process_sandbox_shim.cpp:518-528 | the critical section of a caller is its step of the protocol |
| `WorkerPool.Pool.TestBelowTarget` | src/rlbox_process_sandbox_shim.cpp:562-570 | the predicate test under the lock is the refill thread's step |
| `WorkerPool.Pool.PushBack` | src/rlbox_process_sandbox_shim.cpp:578-581 | the push is the refill thread's step |
| `JobFraming.ReadFull` | src/rlbox_process_sandbox_shim.cpp:415-432 | moves exactly the bytes asked for, for every schedule of short reads and interrupts; on a reliable pipe it fails exactly when they are not there |
| `JobFraming.WriteFull` | src/rlbox_process_sandbox_shim.cpp:434-449 | on success exactly the data is behind what the pipe held, otherwise a prefix of it; never fails on a reliable pipe |
| `JobFraming.WordRoundTrip` | src/rlbox_process_sandbox_shim.cpp:402-407 | two's complement little-endian words of any width read back |
| `JobFraming.ParseWire` | src/rlbox_process_sandbox_shim.cpp:402-407 | whatever follows on the wire, the job that was sent is the job that is read |
| `JobFraming.WireLayout` | src/rlbox_process_sandbox_shim.cpp:402-407 | where each field of a job lies on the wire, lowest byte first, as the structure of the source lays it out |
| `JobFraming.WireInjective` | src/rlbox_process_sandbox_shim.cpp:402-407 | distinct jobs have distinct bytes |
| `JobFraming.SendJob` | src/rlbox_process_sandbox_shim.cpp:537-545 | the three writes put the job's bytes on the pipe |
| `JobFraming.ReceiveJob` | src/rlbox_process_sandbox_shim.cpp:453-469 | the three reads accept exactly what parses and consume exactly the job |
| `JobFraming.WorkerMain` | src/rlbox_process_sandbox_shim.cpp:453-482 | the result of the job goes out exactly when a job came in and the filter is in force |
| `JobFraming.DispatchToWorker` | src/rlbox_process_sandbox_shim.cpp:530-557 | whatever the pipes do, the caller gets the result of its own job or 0; on reliable pipes the result |
| `JobFraming.HandleInvoke` | src/rlbox_process_sandbox_shim.cpp:642-696 | what is not a call or has more than 32 arguments is answered 0 and sends nothing; any other call is answered, by a worker or by an inline fork, with its own result or 0, and on reliable pipes with 0 only if the filter or the fork failed |
| `Callbacks.System.ShimRegister` | src/rlbox_process_sandbox_shim.cpp:702-715 | the first free slot takes the key, none when all are taken |
| `Callbacks.System.ShimUnregister` | src/rlbox_process_sandbox_shim.cpp:717-728 | the first slot with the key is freed, and no other |
| `Callbacks.System.RegisterCallback` | include/rlbox_meta_sandbox.hpp:1034-1051 | the new state for every key; the agreement is kept for a key that is neither null nor live; 0 exactly when all slots are taken |
| `Callbacks.System.UnregisterCallback` | include/rlbox_meta_sandbox.hpp:1053-1070 | the new state for every key; an agreement is kept, without the key |
| `Callbacks.System.Fire` | include/rlbox_process_sandbox.hpp:196-213 | a trampoline call runs the callback registered for it, which sees its own key, and none for a free slot |
| `Callbacks.ThreeWay` | include/rlbox_meta_sandbox.hpp:1048-1050 | a slot holds a key exactly when the registry maps its trampoline to it, and then the host has its callback |
| `Callbacks.Reaches` | src/rlbox_process_sandbox_shim.cpp:167-199 | in an agreeing state a live trampoline reaches its callback, a free one none |
| `Callbacks.RunAgrees` | include/rlbox_meta_sandbox.hpp:1034-1070 | agreement over every run of registrations with distinct live keys and of removals |
| `Callbacks.RegisterKeepsExactly` | include/rlbox_meta_sandbox.hpp:1034-1051 | with a slot free, a registration keeps the agreement exactly when its key is not null and not live |
| `Callbacks.SecondRegistration` | src/rlbox_process_sandbox_shim.cpp:717-728 | a key registered twice redirects its first trampoline, and one removal leaves a slot without a callback |
| `Callbacks.FailedRegistrationStays` | include/rlbox_process_sandbox.hpp:737-767 | a registration that finds no slot leaves its key in the host's map |
| `SeccompFilter.FilterDecides` | src/rlbox_seccomp_filter.hpp:62-127 | a program that fits returns kill, allow or the terminal action as the list says, for every architecture and number |
| `SeccompFilter.FitsWhen` | src/rlbox_seccomp_filter.hpp:64-71 | it fits for at most 44 entries on x86-64 and 45 on i386 |
| `SeccompFilter.TruncatedFilter` | src/rlbox_seccomp_filter.hpp:67-71 | a program that does not fit runs off its end exactly for the calls that the kept entries do not allow |
| `SeccompFilter.WellFormedWhenFits` | src/rlbox_seccomp_filter.hpp:129-133 | the program is one that the kernel can take exactly when it fits |
| `SeccompFilter.Generate` | src/rlbox_seccomp_filter.hpp:62-127 | pushing into the buffer yields the specified program, cut at 96 instructions |
| `SeccompFilter.ApplyFilter` | src/rlbox_seccomp_filter.hpp:145-161 | true means no filter in mode Off, and otherwise a filter in force that kills calls of another architecture and of the x32 range, passes the listed ones, and kills the others when enforcing and logs them when auditing |
| `SeccompFilter.SourceListFits` | src/rlbox_seccomp_filter.hpp:99-124 | the 24 entries fit on both targets, with room for exactly 20 and 21 more |

## Left out

- JpegReader.JpegBits.HuffDecode: says nothing of the reader after a code that is none, where the count of bits goes negative and the decoder gives up.
- Zbuf.ZBuf.ParseZlib: begins after the two header bytes. It does not refuse every truncated stream, as the comment beside the padding bits has it, because the source does not; `ZReader.AcceptedMeans` says when an accepted stream was truncated, and `ZTruncated` has two.
- Zbuf.ZBuf.Expand: the answer of the allocator is a size limit; a loop that does not end is an outcome of the method.
- PngImage.CreateImageRaw: size overflow checks and failed allocations are not modelled, integers being unbounded; the three unpacking loops are one with the depth as a parameter.
- MetaAlloc.Meta.RecordReturn: does not keep the registry the set of live allocations for pointers into blocks; `MetaAlloc.ReturnedPointer` says exactly when it does.
- MetaAlloc.Meta.Free: does not keep the heaps accounted for when it is given the tagged pointer to a scratch; `MetaAlloc.FreeKeeps` says that it does for every other. What an allocator does with a block that it does not hold is not modelled beyond counting it.
- Callbacks.System.RegisterCallback: keeps the agreement only for keys that are neither null nor live, because the source does not keep it for others; `Callbacks.RegisterKeepsExactly` says so exactly.
- JobFraming.HandleInvoke: the library call, its argument types, the pipes, and whether a worker, a pipe and a fork are to be had are parameters and contracts.
- WorkerPool.PoolFills: assumes that forks succeed and no caller intervenes; fairness of the scheduler and of the condition variable is not modelled, nor is the shutdown flag, which nothing sets.
- MetaInvoke.ChooseBackend: the call itself, the time it takes and its cleanups are not modelled; the argument types are taken as known.
- PngEncode.EncodedImageDecodes: covers the formats that section 4.1.1 of RFC 2083 allows, several channels only with whole bytes; `PngImage.CreateImageRaw` covers the others.
- JpegEncode.EncodedBlockDecodes: covers blocks whose bits all lie before the marker; `JpegBlock.RunsAgree` and `JpegBlock.FastStepExact` say what happens past it.
- dlmalloc, the wasm allocator and the wasm callback table are known by contract only: fresh blocks or slots, or none.
- Latencies and their sums are real numbers: no NaN, no rounding, and no sum over the symbol cache.
- Random draws, the kernel's answers and the policy's pick are parameters.
- The asynchronous removal of callbacks over rpclib, and failures of the transports, sockets, shared memory and fork.
- The loaders for other image formats, PNG chunks, colour conversion, palettes and gamma, JPEG markers, the DC coefficient, inverse transform and progressive scans.
- Vectorised kernels, struct field copies and type-level conversions.
