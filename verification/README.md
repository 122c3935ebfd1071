# LZ4: formats, compressors, decoders, frames and checksums

A model of the LZ4 library and of the parts of its command-line program that handle sparse output, with proofs.

* `Lz4Format` defines blocks (sequences, their written form, what they stand for) independently of any code, and
  proves the format unambiguous in both directions. `Encodes(b, history, content)` says that the bytes `b` are a
  block, obeying the end rules, that stands for `content` after `history`.
* `DecoderSpec` restates `LZ4_decompress_generic` as a function on values and proves that it accepts exactly what it
  should; `BlockDecoder` is the same decoder at work in a destination array, with its over-copying loops;
  `DecoderApi` holds the entry points around it and the stream decoder; `UnsafeDecoder` the simple decoder that
  trusts its input.
* `MatchCount`, `BlockWriter` and `BlockCompressor` are the fast compressor, for every hash function, with its choices
  also given as a function of input, table and limit (`Planned`). `FastStream` is the state kept between calls;
  `IndexRescaling` shows that rescaling its indexes is invisible, and `AttachedDictionary` that attaching a dictionary
  stream is as good as copying it.
* `HcSearch`, `HcParser` and `HcOptimal` are the high-compression search and its two parsers, `HcStream` their streams.
* `StreamRuns` describes runs of the stream compressor, and `Streaming` runs compressors and decoders together.
* `FrameFormat` defines frames; `FrameDecoder` is the resumable decoder as a state machine over its stages, and
  `FrameCompressor` the buffering compressor. A checksum is an arbitrary function of the bytes fed to it.
* `Stripes`, `XxHash32` and `XxHash64` are the checksums themselves; `SparseFile` writes files with holes.
* `Division` and `Wrappers` are small helpers.

Memory shared by several calls is one array and pointers are indexes into it.

Three places where the code and what is said about it differ; the model follows the code:

* `lz4frame.h` says that `skipChecksums` disables all checksums for the rest of the frame. The checksum of a
  *compressed* block is compared all the same (`lz4frame.c:1813-1826`). `FrameDecoder.Dctx.DecodeBlock` states it.
* `lz4.h` says that an attached dictionary replaces the history of the stream and is detached by the first compression.
  A block that directly follows the stream's own dictionary is compressed after that one instead, and then, as after an
  empty block, the dictionary stays attached (`lz4.c:1670-1676`). `FastStream.Stream.CompressFastContinueAttached`
  tells the cases apart.
* A streamed `XXH64` is meant to equal the one-shot hash. Once the length counter has wrapped to a value below 32 the
  digest leaves the lanes out (`xxhash.c:981-1003`); `XxHash64.State.Digest` states exactly when the two are equal.

## Model

| member | source | states |
|---|---|---|
| Lz4Format.ParseEmitBlock | main/src/main/cpp/lz4/doc/lz4_Block_format.md:25-125 | The written form of any list of valid sequences with a last run of literals reads back as exactly that list, whatever the unused nibble of the last token holds. |
| Lz4Format.EmitOfParse | main/src/main/cpp/lz4/doc/lz4_Block_format.md:25-108 | Any bytes that read as a block are the written form of what they read as, up to the unused nibble: the format has one writing per sequence list. |
| Lz4Format.CopyMatchUnique | main/src/main/cpp/lz4/doc/lz4_Block_format.md:66-108 | An extension of the output in which every byte equals the one `offset` before it is the match copy: overlap repeats the pattern and nothing else does. |
| Lz4Format.EncodesWindow | main/src/main/cpp/lz4/doc/lz4_Block_format.md:78-91 | More history in front never changes what a block stands for, and history more than 65535 bytes back is never needed. |
| DecoderSpec.SafeRunComplete | main/src/main/cpp/lz4/lib/lz4.c:2113-2329 | From any sequence of a block that obeys the end rules and fits, the decoder's own acceptance tests let it through to the whole content; with partial decoding, to exactly its first `capacity` bytes. |
| DecoderSpec.SafeDecodeSound | main/src/main/cpp/lz4/lib/lz4.c:1936-2339 | What the safe decoder accepts from arbitrary bytes is a block of the format, and its output is what that block stands for. |
| DecoderSpec.SafeDecodeAlike | main/src/main/cpp/lz4/lib/lz4.c:2549-2560 | Histories that agree on their last 65535 bytes give the same verdict and the same output, for valid and corrupt input alike: overwriting older dictionary bytes cannot be observed. |
| BlockDecoder.DecompressGeneric | main/src/main/cpp/lz4/lib/lz4.c:1936-2339 | On arbitrary input, in each dictionary mode, with or without partial decoding: it terminates, writes nothing outside the destination, reports an error exactly when the specification rejects, and otherwise leaves the specified bytes and count, although its copy loops overshoot. |
| BlockDecoder.CopyWithinBlock | main/src/main/cpp/lz4/lib/lz4.c:2298-2328 | The copy of a match in pieces of four and eight bytes, spreading a short period first, has the effect of copying byte by byte, and overshoots by less than the slack it has checked for. |
| DecoderApi.DecompressSafePartial | main/src/main/cpp/lz4/lib/lz4.c:2353-2359 | On a valid block the result is the first min(target, capacity, size) bytes of the content and that count. |
| DecoderApi.DecompressPartial | main/src/main/cpp/lz4/lib/lz4.c:2381-2435 | The same with a prefix, a 64 KB prefix or an external dictionary, with nothing written beyond the target. |
| DecoderApi.DecompressUsingDict | main/src/main/cpp/lz4/lib/lz4.c:2612-2625 | On any input the outcome is that of the specified decoder with the dictionary handed to it: adjacent, adjacent and cut to the last 64 KB, or elsewhere; a block made after the dictionary decodes to its content. |
| DecoderApi.StreamDecode.DecompressSafeContinue | main/src/main/cpp/lz4/lib/lz4.c:2524-2561 | On any input the outcome is that of the specified decoder with the segments handed to it; without output the prefix stays, though a block that was to start elsewhere has turned it into the external dictionary. Each block of a stream decodes to its content if only the last 65535 bytes of what may be referred to lie outside the destination: continuing, rolling over the front of a ring, or switching buffers; the two segments then again cover the history. |
| UnsafeDecoder.DecompressUnsafeGeneric | main/src/main/cpp/lz4/lib/lz4.c:1794-1891 | For input that starts with a block standing for at least the given size it reads and writes within bounds; if the block stands for exactly that size, it returns the block's length and leaves its content when the end rules hold, and -1 otherwise. |
| UnsafeDecoder.DecodersAgree | main/src/main/cpp/lz4/lib/lz4.c:1794-1891 | On every valid block, followed by anything, the safe decoder and the one that trusts its input leave the same bytes, and the latter finds the end of the block by itself. |
| MatchCount.Count | main/src/main/cpp/lz4/lib/lz4.c:659-682 | Counting by words of eight, four, two and one bytes yields the length of the longest common prefix up to the limit, no less and no more. |
| BlockCompressor.CompressGenericValidated | main/src/main/cpp/lz4/lib/lz4.c:910-1302 | For every input, hash function, acceleration and admissible table, the output is a block that stands for the input consumed; unlimited output stays within the compress bound, limited output within its budget, failing only if that is below the bound; fill mode consumes what fits. Without fill mode the block and the table left are exactly the planned ones. |
| BlockCompressor.FillRunLargest | main/src/main/cpp/lz4/lib/lz4.c:1266-1279 | The cut made in fill mode keeps the longest run of last literals whose encoding fits. |
| IndexRescaling.PlannedSame | main/src/main/cpp/lz4/lib/lz4.c:1612-1629 | Rescaling the table and the start index together, and dropping history beyond 64 KB, changes neither the sequences chosen for a block nor, up to the same rescaling, the table left behind. |
| IndexRescaling.RenormInvisible | main/src/main/cpp/lz4/lib/lz4.c:1612-1629 | Over any run of blocks and saved dictionaries, an encoder that rescales its indexes when they grow too large outputs the same blocks as one with unbounded indexes. |
| FastStream.Stream.RenormDict | main/src/main/cpp/lz4/lib/lz4.c:1612-1629 | In place: below the limit nothing changes; above it every entry, the offset and the dictionary are rescaled as `IndexRescaling` says, so that the next block fits the index range. |
| FastStream.Stream.PrepareTable | main/src/main/cpp/lz4/lib/lz4.c:863-902 | The fast reset clears the table or leaves only entries that can do no harm: of the right width, and too far back to be accepted. |
| FastStream.Stream.CompressFast | main/src/main/cpp/lz4/lib/lz4.c:1346-1368 | On a fresh state the result stands for the input, within the bound and the budget; the empty input gives the single zero token; failure only for oversized input or a budget below the bound. |
| FastStream.Stream.CompressFastReset | main/src/main/cpp/lz4/lib/lz4.c:1378-1413 | The same on a state of unknown past use, without clearing it first, and the state can be used so again. |
| FastStream.Stream.CompressDestSize | main/src/main/cpp/lz4/lib/lz4.c:1444-1459 | The result fits the target size and stands for the part of the input reported as consumed, which is all of it when the target reaches the bound. |
| FastStream.Stream.CompressFastContinue | main/src/main/cpp/lz4/lib/lz4.c:1632-1708 | Whatever ran before, the block decodes after the whole history and after just the part of the dictionary that the block has not overwritten; the dictionary again ends the history, also after a failure; the block is the one that would be made had indexes never been rescaled. |
| AttachedDictionary.AttachedAsCopied | main/src/main/cpp/lz4/lib/lz4.c:1032-1043 | The sequences chosen by looking into two tables, the working stream's and the attached dictionary's, are those chosen from a copy of the dictionary's table, whatever the working stream's own table holds and wherever its indexes stand. |
| FastStream.Stream.AttachDictionary | main/src/main/cpp/lz4/lib/lz4.c:1583-1609 | A dictionary stream is attached unless it is empty, and the index of a new stream moves away from 0. |
| FastStream.Stream.CompressFastContinueAttached | main/src/main/cpp/lz4/lib/lz4.c:1632-1708 | With an attached dictionary, small blocks (two tables) and large ones (copied table) alike decode after the dictionary and are byte for byte the block that copying would give; the dictionary is then detached and the block is the new one. |
| FastStream.Stream.SaveDict | main/src/main/cpp/lz4/lib/lz4.c:1739-1759 | The end of the dictionary moves to the buffer, even if they overlap; it still ends the history and no other byte changes. |
| FastStream.Stream.LoadDict | main/src/main/cpp/lz4/lib/lz4.c:1541-1581 | The stream starts with the last 64 KB of the dictionary, and no table entry reaches outside what was indexed. |
| Streaming.BlockRoundTrip | main/src/main/cpp/lz4/lib/lz4.c:1346-1433 | Compressing and decompressing any input, also the empty one, into just its size restores it; with `LZ4_compressBound` bytes the compression succeeds. |
| Streaming.AttachedRoundTrip | main/src/main/cpp/lz4/lib/lz4.c:1541-1708 | Load a dictionary into one stream, fast-reset another of any past, attach, compress: decoding with the dictionary restores the block. |
| Streaming.HcStreamAndBack | main/src/main/cpp/lz4/lib/lz4hc.c:1066-1201 | At any level, a run of blocks placed anywhere in memory, over any part of what came before, and of saved dictionaries, is restored by the stream decoder. |
| Streaming.CompressRun | main/src/main/cpp/lz4/lib/lz4.c:1612-1759 | Over any run of blocks (continuing, elsewhere, or over the front of the dictionary) and saved dictionaries, each block decodes after all before it and is the one that an encoder with unbounded indexes writes, however often indexes are rescaled; the run ends early only at a step that breaks the caller's rules or has a budget below the bound, so that a caller who checks both beforehand gets to the end. |
| StreamRuns.AscendingAllowed | main/src/main/cpp/lz4/lib/lz4.c:1660-1668 | Blocks at ascending places that do not overlap keep the rules at every step of a run. |
| Streaming.StreamAndBack | main/src/main/cpp/lz4/lib/lz4.c:1632-1759 | Such a run, decoded by the stream decoder into one output, restores all input of the steps done, and gets as far as `CompressRun` says. |
| Streaming.RunInStep | main/src/main/cpp/lz4/lib/lz4.c:2474-2561 | Compressor and decoder advancing through buffers of equal size at equal places, a ring included, restore every block, although each may overwrite what it no longer needs; the run gets as far as the rules and budgets do. |
| HcSearch.Context.InsertAndGetWiderMatch | main/src/main/cpp/lz4/lib/lz4hc.c:240-447 | With a prefix and an external dictionary, any table contents, attempts, pattern analysis and chain swapping: what is returned is a genuine match, possibly across the two segments, within its limits, never shorter than the one given; all positions up to here are inserted. |
| HcParser.EncodeSequence | main/src/main/cpp/lz4/lib/lz4hc.c:467-548 | One sequence is written exactly as the format says, or the limit is reported as exceeded with what stands before untouched. |
| HcParser.CompressHashChain | main/src/main/cpp/lz4/lib/lz4hc.c:553-788 | Through all juggling with up to three overlapping matches the output stands for the input consumed, in the three limit modes, with the compress bound and with failure only below it. |
| HcOptimal.PriceIsSize | main/src/main/cpp/lz4/lib/lz4hc.c:1276-1299 | The price of a sequence is the number of bytes it takes when written. |
| HcOptimal.Reverse | main/src/main/cpp/lz4/lib/lz4hc.c:1534-1548 | Reversing the chosen path in the table of prices, in place, yields the path from the start that the back-links described, step for step. |
| HcOptimal.CompressOptimal | main/src/main/cpp/lz4/lib/lz4hc.c:1330-1632 | The price-driven parser, with any sufficient length and either update mode, has the guarantees of the hash-chain parser. |
| HcStream.HcStream.CompressContinue | main/src/main/cpp/lz4/lib/lz4hc.c:1111-1157 | Whatever ran before and wherever the block lies, it decodes after the whole history; the window (prefix and one dictionary segment) again ends the history, whether the block fitted or not. |
| HcStream.HcStream.LoadDict | main/src/main/cpp/lz4/lib/lz4hc.c:1066-1085 | From any state, the last 64 KB become the prefix of an otherwise empty window. |
| HcStream.HcStream.SaveDict | main/src/main/cpp/lz4/lib/lz4hc.c:1171-1193 | The end of the prefix moves to the buffer, even if they overlap; the window still ends the history and no other byte changes. |
| FrameDecoder.Dctx.Decompress | main/src/main/cpp/lz4/lib/lz4frame.c:1556-2058 | One call on arbitrary input terminates within its buffers. Following a well-formed frame it does not fail; it writes the next part of the content and consumes only bytes of the frame; it returns 0 exactly at the frame's end; otherwise input or room has run out, and the next call can go on. |
| FrameDecoder.Dctx.DecodeBlock | main/src/main/cpp/lz4/lib/lz4frame.c:1813-1925 | A complete block is decoded to the destination or to the internal buffer and the history kept; a wrong block checksum is always reported, even when checksums are to be skipped. |
| FrameDecoder.Dctx.UpdateDict | main/src/main/cpp/lz4/lib/lz4frame.c:1470-1535 | After output to the destination the dictionary, wherever it now lies, ends with the latest 64 KB of the history. |
| FrameDecoder.Dctx.UpdateDictFlush | main/src/main/cpp/lz4/lib/lz4frame.c:1470-1535 | The same for output flushed from the internal buffer, where as much history as the rest of the block still needs is kept in front of it. |
| FrameDecoder.DecodeInPieces | main/src/main/cpp/lz4/lib/lz4frame.c:1556-2079 | However the input is cut, whatever room each call gives, with or without a dictionary, and with checksums skipped from any call on: output is always a prefix of the content, and the run is complete exactly when the whole frame has been consumed, with exactly the content. Calls that give at least a byte of input and of room always make progress, so that as many of them as frame and content have bytes complete the run; one call with everything does so at once. |
| FrameCompressor.BoundCovers | main/src/main/cpp/lz4/lib/lz4frame.c:371-396 | `LZ4F_compressBound` covers any amount that may be buffered. |
| FrameCompressor.Cctx.MakeBlock | main/src/main/cpp/lz4/lib/lz4frame.c:825-850 | The block written stands for the source after the frame's history, stored when compression does not make it smaller, and never takes more than header, source and checksum. |
| FrameCompressor.Cctx.CompressBegin | main/src/main/cpp/lz4/lib/lz4frame.c:677-806 | On a context of any past use, the header of the new frame is written and nothing is carried over, although the block compressor's table is not cleared. |
| FrameCompressor.Cctx.CompressUpdate | main/src/main/cpp/lz4/lib/lz4frame.c:930-1046 | It succeeds exactly when a frame is open and the room reaches the bound; then blocks written and bytes buffered are together all of the input so far, what was written extends the frame, and no memory outside the internal buffer has changed. |
| FrameCompressor.Cctx.Flush | main/src/main/cpp/lz4/lib/lz4frame.c:1104-1138 | It succeeds exactly when nothing is buffered or there is room for it stored; then nothing is left buffered. |
| FrameCompressor.Cctx.CompressEnd | main/src/main/cpp/lz4/lib/lz4frame.c:1151-1187 | What has been written since the frame began is then a well-formed frame whose content is all of the input; a declared size that differs is reported. |
| FrameCompressor.CompressInPieces | main/src/main/cpp/lz4/lib/lz4frame.c:677-1187 | Input in any pieces from anywhere in memory, with any flushes and any preferences, gives a well-formed frame of exactly the bytes of those pieces as they stood before, or fails exactly when a declared size is wrong. |
| FrameCompressor.RoundTrip | main/src/main/cpp/lz4/lib/lz4frame.c:677-2058 | The bytes of the pieces given to the frame compressor are what the frame decoder gives back, in order: always a prefix of them, all of them when complete; and enough calls with input and room complete the run. |
| XxHash32.State.Update | main/src/main/cpp/lz4/lib/xxhash.c:451-524 | The state stands for everything fed so far, across the partly filled buffer. |
| XxHash32.State.Digest | main/src/main/cpp/lz4/lib/xxhash.c:526-554 | The digest is the hash of everything fed, for any length, although the length counter wraps. |
| XxHash32.Finalize | main/src/main/cpp/lz4/lib/xxhash.c:290-349 | The unrolled tail switch equals taking words and then bytes one by one. |
| XxHash32.HashInPieces | main/src/main/cpp/lz4/lib/xxhash.c:351-554 | Feeding any pieces and digesting equals hashing them at once. |
| XxHash64.Finalize | main/src/main/cpp/lz4/lib/xxhash.c:701-808 | The unrolled tail switch equals taking words of eight, a word of four and then bytes. |
| XxHash64.State.Digest | main/src/main/cpp/lz4/lib/xxhash.c:981-1013 | The digest equals the one-shot hash if and only if the length has not wrapped, or wrapped to at least 32, or the lanes happen to converge to what stands in their place; what is returned in the wrapped case is stated too. |
| XxHash64.ClosedInjective | main/src/main/cpp/lz4/lib/xxhash.c:672-808 | Closing a hash (length, tail, avalanche) is injective in the value closed. |
| XxHash64.DigestDiffers | main/src/main/cpp/lz4/lib/xxhash.c:981-1013 | For every seed and every 2^64 - 32 bytes there is a last stripe with which the digest of the whole is not its hash. |
| XxHash64.HashInPieces | main/src/main/cpp/lz4/lib/xxhash.c:810-1013 | Feeding any pieces and digesting equals hashing them at once under exactly the condition of Digest; the wrapped value is stated. |
| SparseFile.FwriteSparse | main/src/main/cpp/lz4/programs/lz4io.c:876-944 | The file, followed by the zeros still to be skipped, is all bytes accepted so far, as long as the count of skipped zeros fits in 32 bits, and that count is given exactly; once it does not, bytes are lost for good. |
| SparseFile.FwriteSparseEnd | main/src/main/cpp/lz4/programs/lz4io.c:947-956 | The pending zeros become part of the file, which then holds exactly the bytes accepted, or fewer if skips have been lost. |
| SparseFile.WriteAll | main/src/main/cpp/lz4/programs/lz4io.c:876-956 | Any buffers give a file of exactly their bytes if and only if the file is written plainly or the count of skipped zeros never overflows; buffers of at most 1 GB are enough for that. |
| SparseFile.LargestBuffer | main/src/main/cpp/lz4/programs/lz4io.c:876-925 | 1 GB is the largest size of buffer with which every sequence of buffers is written right: with larger ones, enough buffers of zeros overflow the count. |

## Left out

- BlockCompressor.CompressGenericValidated: the table of pointers (`byPtr`), used on 32-bit machines only.
- FrameDecoder.DecodeInPieces: `stableDst`, which keeps history in the caller's buffers between calls, and a null destination, which is treated as one without room; a reset in the middle of a frame.
- FastStream.Stream.CompressFastContinueAttached: a working stream whose indexes are above 0 but below 64 KB, which no reset leaves behind; the attached stream is one prepared by `LZ4_loadDict`, as the documentation asks, and is remembered as it was when attached.
- FastStream.Stream.CompressFastContinue: the debug entry point that forces external dictionaries.
- BlockDecoder.DecompressGeneric: when an offset of 0 occurs in corrupt input only the bounds of what is written are stated; source and destination do not overlap; the external dictionary is read as it was when the call began.
- UnsafeDecoder.DecompressUnsafeGeneric: input that does not start with a block is outside its contract, as in the source; offsets of 0 leave unspecified bytes.
- HcSearch.Context.InsertAndGetWiderMatch: no dictionary context (`LZ4_attach_HC_dictionary`).
- HcStream.HcStream.CompressContinue: no fill mode (`LZ4_compress_HC_continue_destSize`) and no dictionary context.
- HcStream.HcStream.SaveDict: not on a stream without a prefix.
- HcOptimal.CompressOptimal: that the path chosen is the cheapest is not stated; the code does not promise it either.
- FrameCompressor.Cctx.CompressUpdate: the fast compressor only; no dictionaries (`CDict`), no `LZ4F_uncompressedUpdate`, no `stableSrc`. A block is compressed to a scratch buffer and copied.
- SparseFile.FwriteSparse: input and output errors.
- The fast decoding loop (`FAST_DEC_LOOP`), an optimisation of the modelled one that some builds enable.
- Big-endian and unaligned variants of reading; overflow checks for 32-bit pointers; `size_t` wider than memory.
- Allocation always succeeds; custom memory functions.
- Two adjacent buffers are told apart: equality of a pointer one past the end of one with the start of another is equality of indexes into one memory.
- `LZ4F_getFrameInfo`, `LZ4F_headerSize` on its own, legacy frames, and the command-line program apart from sparse files.
