# LZ4 in Dafny

A model of the LZ4 library under `lz4libs/` and of the sizing code around it in `lz4/frame/_frame.c` and
`lz4/stream/_stream.c`, with proofs. Check everything with `dafny verify dfyconfig.toml`.

The layers, each used by the next:

- **Blocks.** `BlockFormat` says what a block is: a list of sequences and last literals. `BlockDecoderSpec` gives the
  outcome of the decoder on every input; `BlockRoundTrip` shows that every conforming block decodes to its content.
  `WildCopy` and `BlockDecoder` are the loops of `LZ4_decompress_generic` over a buffer, fast loop and tail, proved to
  have that outcome. `BlockAcceptance` says, for every input, what a success means. `DictLayout` and
  `DictLayoutPartial` say when the place of the history matters, `BlockApi` and `StreamDecode` cover the entry points.
- **Fast compression.** `FastMatcher`, `FastEncoder` and `FastCompressor` are `LZ4_compress_generic_validated` with its
  three output budgets and an arbitrary hash, `FastGreedy` the run they have to follow, without an output; `FastStream`
  is the stream around it, `StreamRun` its whole runs.
- **High compression.** `HcChains` shows that hash chains, chain swapping and pattern analysis lose no match.
  `HcPattern`, `HcMatchFinder`, `HcLazyParser`, `HcOptimalParser` and `HcCompress` are the match finder and both
  parsers, `HcThorough` says what the lazy one does not miss; `HcStream` is the stream.
- **Stream bindings.** `StreamBounds` and `StreamPages`.
- **Frames.** `FrameFormat` is the format, `FrameDecoder` the resumable decoder with `FrameTrack` and `FrameHistory`;
  `FrameAcceptance` says what it accepts. `FrameRuns` and `FrameChunks` are its runs. `FrameBound`, `FrameBlocks`,
  `FrameWire` and `FrameEncoder` are the compressor, `FrameTrip` the way there and back.
- **Hashes.** `XxhStripes`, `Xxh32`, `Xxh64`, with known answers in `Xxh32Answers` and `Xxh64Answers`.

A block is described by `IsBlockOf(h, source, block)`: the block is the encoding of a conforming parse of the source
after history `h`. By `BlockWriter.BlockDecodes` it then decodes to the source in every layout of that history, and by
`BlockDecoder.DecompressGeneric` the loops of the C decoder do so. The other way round, `StandsFor(source, h, r)` says
that the input reads as sequences and a last run that expand to `r`; it holds of whatever a decoder accepts, and
`WasFrame` says the same of frames.

Addresses are positions in one memory, pointers and lengths are unbounded integers unless a width matters (16-bit table
entries, 32-bit hash lengths and indices, the cut of the block count in the frame bound).

## Findings

Where the code does not do what one would expect, it is modelled as it is, and the exact condition is proved.

| what | input | exactly when |
|---|---|---|
| A full decoding may depend on where the history lies: the shortcut copies a match from the prefix into the last five bytes, the path for the external dictionary enforces the end rule. | `DictLayout.LayoutsDiffer`: 14 literals and an 18-byte match at offset 64 fill a 32-byte buffer, history of 64 bytes | `DictLayout.LayoutIndependence`: `LateMatchIn`. A caller is safe with five bytes of the buffer to spare (`RoomBehind`) and with every conforming block (`ConformingAgree`). |
| So may a partial decoding: a match from the prefix that fills the output ends it, one from the external dictionary goes on to the next token. | `DictLayoutPartial.PartialLayoutsDiffer`: `0E 40 00 F0` into 18 bytes, history of 64 bytes | `DictLayoutPartial.PartialLayoutIndependence`: `LateFillIn`. Safe when the output is not filled (`RoomLeft`) and with every conforming block. |
| A block as long as the compression bound fails the length test of a stream decompressor with the same page size. | page sizes that 255 divides | `StreamBounds.BoundIsNotAccepted`; real blocks are shorter and always pass (`ChunkPasses`). |
| `XXH64_digest` has no flag for a wrapped length. | inputs of 2^64 bytes and up to 31 more | `Xxh64.State.Digest`: wrong only when the length has wrapped to less than 32. |
| After a dictionary of less than 8 bytes the stream counts 64 KB that it does not hold; 16-bit tables then store truncated indices (the `assert` in `LZ4_putIndexOnHash` does not hold). | `LZ4_loadDict` of 7 bytes, then `LZ4_compress_fast_extState_fastReset` of 5000 | Harmless: every truncated entry fails the small-dictionary test (`FastMatcher.EntryUsable`, `StreamRun.AnyRun`). |
| Indices are 32 bits wide, and so is the sum that decides about rescaling them. Each fast reset after such a dictionary adds 64 KB; when index and source together reach 2^32 nothing is rescaled and the indices of the source wrap around. | `FastStream.IndicesWrap`: `LZ4_loadDict` of 7 bytes, 65534 fast resets with nothing compressed, a linked block of 65548 bytes | `FastStream.RescaledInTime`: in time if and only if index plus size is below 2^32; `StreamRun.IdleAllows` says which blocks that shuts out after how many resets. |
| The size that a call of the frame decoder returns may exceed what is left of the frame: within a compressed block its checksum is counted twice; and while the first bytes are gathered a frame header and a block header are expected, which is more than a skippable frame with less than three bytes holds. | a frame of one compressed block with a block checksum and no content checksum, read up to the middle of the block | `FrameDecoder.Dctx.WantedIsLeft`: if and only if `TooMuch`, and by 4 at most. |
| A block without content turns the page of a stream decompressor, but the history stays where it is. | a chunk, the block `00`, and a block that refers to the chunk | `StreamPages.Decompressor.TurnedBack`: the next block is decoded over the page that the chunk lies in. A compressor of this library forgets the chunk as well, so that its blocks come back (`StreamPages.AnyChunks`). |
| The end of a frame can be written without a beginning: there is no error, and an end mark comes out. | `LZ4F_compressEnd` on a new context | `FrameEncoder.Cctx.End`: whenever no frame is open. |

The offset 0, which the format forbids, is decoded as a run of zero bytes (`BlockFormat.CopyMatch`; what is accepted
beyond conforming blocks is listed by `BlockAcceptance.StandsFor`). The checksum of a compressed block is verified even
when checksums are skipped. Rotation in the pattern analysis never changes anything (`HcPattern.RotateConfirmed`). The
shortcut of the tail loop accepts blocks that end in fewer than five literals; the model follows the code.

## Model

| member | source | states |
|---|---|---|
| BlockFormat.CopyMatchUnique | lz4libs/lz4.c:2286-2298 | a match copied byte by byte is the only extension of the history with that period, overlap and offset 0 included |
| BlockFormat.CopyMatchSplit | lz4libs/lz4.c:2252-2278 | a match copied in two parts is the match copied at once |
| BlockFormat.ParseAppend | lz4libs/lz4.c:1813-1889 | one more sequence extends the expansion of a parse, its length and its encoding |
| BlockRoundTrip.RoundTrip | lz4libs/lz4.c:1936-2338 | for every conforming parse, history, split of the history, capacity and mode, decoding its block gives its content, and a partial decoding exactly the first bytes asked for |
| BlockRoundTrip.ReadExtension | lz4libs/lz4.c:1894-1928 | the reader of a variable-length field undoes its encoder |
| BlockRoundTrip.MatchPositions | lz4libs/lz4.c:240-255 | where the matches of a conforming block lie relative to the end of its content |
| BlockRoundTrip.DecodeFrom | lz4libs/lz4.c:1995-2329 | from every sequence of the block on, the decoder produces the rest of the content, up to the limit |
| BlockRoundTrip.EmptyBlock | lz4libs/lz4.c:1976-1983 | a block without content is the single byte 0 and decodes into any buffer |
| BlockDecoder.DecompressGeneric | lz4libs/lz4.c:1936-2338 | on every input, well formed or not, with the fast loop or without it: the value returned and the bytes left are those of the sequential specification, of which `BlockAcceptance` says what its success means, and nothing outside the output buffer changes |
| BlockDecoder.ReadVariableLength | lz4libs/lz4.c:1894-1928 | the loop reads what the specification of the field says, overruns included |
| BlockDecoder.FastLoop | lz4libs/lz4.c:1995-2109 | wild copies, skipped checks and jumps into the tail keep the outcome of the call |
| BlockDecoder.FastLiterals | lz4libs/lz4.c:2000-2025 | the literals of a sequence in the fast loop, over-writes not being read as history |
| BlockDecoder.FastMatch | lz4libs/lz4.c:2027-2065 | match length, offset test and copy in the fast loop keep the outcome |
| BlockDecoder.FastCopy | lz4libs/lz4.c:2098-2108 | the copies of the fast loop leave the byte-by-byte match before the cursor |
| BlockDecoder.CopyFromDict | lz4libs/lz4.c:2066-2096 | a match that starts in the external dictionary and may run on into the prefix and itself |
| BlockDecoder.TailLoop | lz4libs/lz4.c:2113-2329 | the careful loop, entered at any of its labels, ends with the outcome of the call |
| BlockDecoder.TailShortcut | lz4libs/lz4.c:2119-2158 | both stages of the shortcut give what the careful path gives |
| BlockDecoder.TailLastLiterals | lz4libs/lz4.c:2169-2229 | the last literals, or literals cut by a partial decoding |
| BlockDecoder.TailMatchCopy | lz4libs/lz4.c:2250-2328 | the match copy of the tail loop, partial decoding and both dictionary layouts included |
| BlockDecoder.OffsetCheck | lz4libs/lz4.c:2250 | the offset test, skipped for dictionaries of 64 KB, rejects exactly the offsets outside the history |
| BlockDecoder.StartShortcut | lz4libs/lz4.c:2128-2158 | the shortcut as a step of the specification |
| WildCopy.WildCopy8 | lz4libs/lz4.c:443-452 | at least the requested bytes are copied, 8 at a time, and nothing past 8 more changes |
| WildCopy.WildCopy32 | lz4libs/lz4.c:500-510 | the same 32 at a time, for overlaps of at least 16 |
| WildCopy.StrideTable | lz4libs/lz4.c:453-470 | the two tables move the source back by a multiple of the offset that the bytes just written allow |
| WildCopy.StrideIsPeriodic | lz4libs/lz4.c:474-495 | copying at that stride continues the run of period `offset` |
| WildCopy.SpreadFirst8 | lz4libs/lz4.c:474-495 | the first 8 bytes of a match with a small offset, by the tables, are the periodic ones |
| WildCopy.CopyUsingOffsetBase | lz4libs/lz4.c:474-495 | the whole copy for small and for larger offsets is the byte-by-byte copy |
| WildCopy.CopyUsingOffset | lz4libs/lz4.c:513-551 | the same with the 8-byte patterns of offsets 1, 2 and 4 |
| WildCopy.Copy18 | lz4libs/lz4.c:2146-2149 | the 18-byte copy of the shortcut is the overlapping match for offsets of at least 8 |
| WildCopy.TailCopy | lz4libs/lz4.c:2300-2328 | the copy of the tail loop, close to the end of the buffer or not, is the byte-by-byte copy |
| DictLayout.LayoutIndependence | lz4libs/lz4.c:2250-2328 | a full decoding has the same outcome, error position included, in two layouts of the same history if and only if no late match occurs |
| DictLayout.RoomBehind | lz4libs/lz4.c:2128-2158 | when the first layout succeeds and leaves five bytes of the buffer, so does the second, with the same bytes |
| DictLayout.ConformingAgree | lz4libs/lz4.c:2397-2457 | no conforming block tells two layouts apart, full or partial |
| DictLayout.LayoutsDiffer | lz4libs/lz4.c:2143-2153 | an 18-byte block that one layout decodes and the other rejects |
| DictLayout.LateEnds | lz4libs/lz4.c:2128-2158 | after a late match a decoding that succeeds ends in the last five bytes of the buffer |
| DictLayout.ErrorStart | lz4libs/lz4.c:2335-2338 | an error position lies behind the sequence it is found in, and the history never shrinks |
| DictLayoutPartial.PartialLayoutIndependence | lz4libs/lz4.c:2252-2298 | a partial decoding has the same outcome in two layouts if and only if there is no late fill; with one, the first layout fills the buffer and the second fails |
| DictLayoutPartial.RoomLeft | lz4libs/lz4.c:2280-2298 | a partial decoding that leaves room in the buffer is the same in both layouts |
| DictLayoutPartial.PartialLayoutsDiffer | lz4libs/lz4.c:2252-2298 | a 4-byte block that one layout decodes into a full buffer and the other rejects |
| DictLayoutPartial.StartFull | lz4libs/lz4.c:2160-2225 | with a full output the next token either leaves it as it is or fails on its literal length |
| DictLayoutPartial.PartialCopy | lz4libs/lz4.c:2252-2298 | what a match copy of a partial decoding amounts to in either layout |
| BlockAcceptance.LengthIsExtension | lz4libs/lz4.c:1894-1928 | a length field that is read is the encoding of its value, and of no other |
| BlockAcceptance.DecodedWasBlock | lz4libs/lz4.c:1936-2338 | whatever the input: when a full decoding succeeds, the input is exactly the bytes of some sequences and a last run, the output is what they expand to, and it fits the buffer; the empty input never succeeds |
| BlockAcceptance.PartialWasBlock | lz4libs/lz4.c:2160-2298 | when a partial decoding succeeds, the output is a prefix of what the sequences in the input expand to, and all of it unless the output is full |
| BlockAcceptance.SpecifiedUnless | lz4libs/lz4.c:2286-2298 | the only decodings without a specified outcome are partial ones of inputs that hold an offset of 0 |
| BlockAcceptance.BlockDecoded | lz4libs/lz4.c:1936-2338 | conversely, whatever reads as sequences and a last run by the end-of-block rules decodes to what it stands for |
| BlockAcceptance.BlockStandsFor | lz4libs/lz4.c:1936-2338 | a block that a compressor has made is a block in this sense |
| BlockApi.ShiftStart | lz4libs/lz4.c:2372-2387 | more than 64 KB of history in front changes nothing but the front of the result |
| BlockApi.LastWindow | lz4libs/lz4.c:2372-2387 | a contiguous history may be cut to its last 65535 bytes without visible effect |
| BlockApi.Prefix64k | lz4libs/lz4.c:2372-2387 | mode withPrefix64k returns what the whole dictionary would give |
| BlockApi.DecompressSafeUsingDict | lz4libs/lz4.c:2612-2640 | the dispatch on place and size of the dictionary gives the outcome of the whole history, full or partial |
| BlockApi.DecompressConforming | lz4libs/lz4.c:2344-2359 | every conforming block comes back as its content, or as the part asked for, wherever the dictionary lies |
| StreamDecode.Decoder.SetStreamDecode | lz4libs/lz4.c:2482-2495 | the dictionary becomes the segment that may go on |
| StreamDecode.Decoder.Dispatch | lz4libs/lz4.c:2524-2561 | each of the five ways to decode has, on every input, the outcome of the two segments as one history |
| StreamDecode.Decoder.Continue | lz4libs/lz4.c:2524-2561 | while the output does not touch what is known the outcome is the specified one, whatever the input; a block made after an end of what is known comes back, and is known next behind the segment it continues or leaves; a block that refers to nothing comes back in any case |
| BlockWriter.ParsedNext | lz4libs/lz4.c:1078-1201 | a true match behind the anchor that keeps the end-of-block rules extends the parse |
| BlockWriter.SeqnRoom | lz4libs/lz4.h:212 | the bytes of a sequence are paid for by the source bytes it stands for |
| BlockWriter.EmittedNext | lz4libs/lz4.c:1082-1197 | bytes written so far plus one sequence are the encoding of the longer parse, within the worst-case room |
| BlockWriter.EmittedLast | lz4libs/lz4.c:1266-1297 | with the last literals the output is a block of the source of at most n + n/255 + 2 bytes |
| BlockWriter.BlockDecodes | lz4libs/lz4.c:2344-2359 | a block of a source decodes to it, or to the part asked for, in every layout of the history |
| CommonBytes.NbCommonBytesCorrect | lz4libs/lz4.c:586-588 | for words that first differ in byte k the multiplication yields k |
| CommonBytes.DiffIs | lz4libs/lz4.c:586-588 | the xor of two words is zero exactly when they agree, and otherwise the trick on it gives the length of their common prefix |
| CommonBytes.WordStep | lz4libs/lz4.c:663-676 | a word comparison decides the common prefix or moves on by eight |
| CommonBytes.Count | lz4libs/lz4.c:657-682 | comparing words, their xor, and then 4, 2 and 1 bytes gives exactly the bounded longest common prefix |
| CommonBytes.CommonPrefixUnique | lz4libs/lz4.c:657-682 | the common prefix is the only length with its two properties |
| HcPattern.RotateConfirmed | lz4libs/lz4hc.c:166-174 | rotation does nothing to a pattern that the analysis has confirmed |
| HcPattern.CountPattern | lz4libs/lz4hc.c:176-206 | the exact length of the run of the pattern, by words and their xor |
| HcPattern.ReverseCountPattern | lz4libs/lz4hc.c:208-229 | the exact length of the run before a position |
| HcPattern.CountBack | lz4libs/lz4hc.c:144-164 | the exact number of common bytes before two positions |
| HcChains.InsertTabled | lz4libs/lz4hc.c:119-140 | one more position keeps the hash table: the slot of every position holds it or a later one with that hash |
| HcChains.NewLink | lz4libs/lz4hc.c:119-140 | the link written for a position passes over no other position with its hash |
| HcChains.Follow | lz4libs/lz4hc.c:412-413 | following the chain of a position, or of one some bytes on that agree, passes over no candidate worth more than what has been found |
| HcChains.SwapOnChain | lz4libs/lz4hc.c:317-338 | a longer match than the one found lies on the chain of every position within it, so that any of them may be followed |
| HcChains.WorthOfRun | lz4libs/lz4hc.c:340-410 | the match between two runs of one byte ends with the shorter of them |
| HcChains.JumpInSegment | lz4libs/lz4hc.c:376-388 | jumping to the position of a run from which it is as long as the run of the source, or to its start, passes over nothing worth more |
| HcChains.ClaimSegment | lz4libs/lz4hc.c:389-410 | the length claimed without a comparison is at least what any candidate in the run is worth |
| HcChains.EndOfCourse | lz4libs/lz4hc.c:239-447 | when the attempts are used up, all of the nearest positions with the hash have been looked at, as many as there were attempts |
| HcChains.SameTables | lz4libs/lz4hc.c:1093-1109 | tables stay right for a text that keeps the known positions: a longer prefix, a prefix that becomes the dictionary, a front cut off |
| HcMatchFinder.HcContext.constructor | lz4libs/lz4hc.c:100-116 | an empty context with valid tables |
| HcMatchFinder.HcContext.Insert | lz4libs/lz4hc.c:119-140 | all positions up to the target enter hash and chain table, which then know all of them |
| HcMatchFinder.HcContext.SetExternalDict | lz4libs/lz4hc.c:1093-1109 | the prefix becomes the external dictionary, indices going on, and the tables know all of it |
| HcMatchFinder.HcContext.InsertAndGetWiderMatch | lz4libs/lz4hc.c:239-447 | whenever the length exceeds the one passed in, all of it is a true match within the limits with offset 1 to 65535 that cannot be extended; and no candidate known within 64 KB is worth more, up to the number of attempts: the nearest ones with the hash, or, when chains are swapped, the nearest positions of the prefix |
| HcMatchFinder.HcContext.PatternJump | lz4libs/lz4hc.c:340-410 | a length claimed from pattern counts without a comparison is a true match, and the jump loses nothing |
| HcMatchFinder.HcContext.ChainSwap | lz4libs/lz4hc.c:317-338 | switching to another chain moves to older candidates and loses no longer match |
| HcMatchFinder.HcContext.Search | lz4libs/lz4hc.c:278-415 | the loop over candidates, chains and patterns looks at all that its attempts allow for |
| HcMatchFinder.TailDiffers | lz4libs/lz4hc.c:288 | the comparison of two bytes that comes first only drops candidates that are no longer |
| HcMatchFinder.WorthInDict | lz4libs/lz4hc.c:298-315 | the comparisons across the end of the dictionary give exactly what a candidate is worth |
| HcMatchFinder.HcContext.Replace | lz4libs/lz4hc.c:1111-1134 | what the caller has written over is forgotten, and only that |
| HcMatchFinder.HcContext.KeepEnd | lz4libs/lz4hc.c:1171-1193 | after all but the end of the prefix is dropped the tables still know that end |
| HcMatchFinder.HcContext.MeasurePrefix | lz4libs/lz4hc.c:285-297 | start and length of a match in the prefix |
| HcMatchFinder.HcContext.TryDict | lz4libs/lz4hc.c:298-315 | a match in the external dictionary, running on into the prefix or not |
| HcMatchFinder.PatternMatch | lz4libs/lz4hc.c:394-403 | two runs of the same byte make a match |
| HcMatchFinder.DictMatch | lz4libs/lz4hc.c:300-309 | the comparisons across the end of the dictionary make a match |
| HcEncoder.EncodeSequence | lz4libs/lz4hc.c:467-548 | one sequence is written as the format encodes it; it fails only when a block with this sequence, however it ends, does not fit |
| HcEncoder.EncodeLastLiterals | lz4libs/lz4hc.c:734-764 | the last literals complete a block of the source, of exactly the size of its parse, and are refused exactly when that does not fit |
| HcSearch.FindWider | lz4libs/lz4hc.c:239-447 | a match found from a source position, in source coordinates, as long as the bytes agree; nothing in reach of the attempts is longer |
| HcSearch.SilentMeans | lz4libs/lz4hc.c:239-447 | where nothing was found the four bytes repeat none of the positions that the attempts reach |
| HcThorough.ThoroughNext | lz4libs/lz4hc.c:553-788 | a sequence whose literals are quiet but for the last four extends a thorough parse |
| HcThorough.StretchedNext | lz4libs/lz4hc.c:553-788 | a match that goes on as far as the bytes agree, or is cut for the next one, extends a stretched parse |
| HcThorough.EncodeNext | lz4libs/lz4hc.c:467-548 | a match of the lazy parser keeps the parse thorough and stretched, or is refused for a parse that does not fit |
| HcThorough.EncodeLast | lz4libs/lz4hc.c:734-764 | with the last literals, all of them searched, a thorough block is complete, or refused because it does not fit |
| HcThorough.RefusedUnfit | lz4libs/lz4hc.c:767-787 | every refusal is for a parse that the capacity has no room for |
| HcLazyParser.CorrectedOk | lz4libs/lz4hc.c:631-642 | the correction of the second match at _Search3 keeps it true and long enough |
| HcLazyParser.StepSearch2 | lz4libs/lz4hc.c:599-625 | each turn of _Search2 keeps the pending matches true, full and in order, soon after the position where the search found something |
| HcLazyParser.StepSearch3 | lz4libs/lz4hc.c:627-731 | each turn of _Search3 keeps them so and makes progress |
| HcLazyParser.CompressHashChain | lz4libs/lz4hc.c:553-788 | a positive result is a block that decodes to the source after the history; all literals but the last four of a sequence, and all of the last run, repeat nothing that the search could have found, and every match is as long as the bytes agree or is cut for the next; 0 only for such a parse that does not fit |
| HcOptimalParser.PriceIsSize | lz4libs/lz4hc.c:1276-1299 | the price of a sequence is the number of bytes of its encoding |
| HcOptimalParser.FillTable | lz4libs/lz4hc.c:1392-1528 | every cell of the table holds a true match or a literal step whatever the prices |
| HcOptimalParser.ReverseTraversal | lz4libs/lz4hc.c:1530-1548 | the traversal reaches position 0 and leaves a forward path of the same steps |
| HcOptimalParser.EncodePath | lz4libs/lz4hc.c:1550-1564 | the path is written as true matches and the literals between them |
| HcOptimalParser.CompressOptimal | lz4libs/lz4hc.c:1330-1601 | a positive result is a block that decodes to the source; 0 only when a parse of true matches does not fit a limited output |
| HcCompress.CompressGeneric | lz4libs/lz4hc.c:800-861 | at every level the block decodes to the source after what the context holds, in at most n + n/255 + 2 bytes; at the levels of the lazy parser it is thorough; refused only for a parse that does not fit |
| HcStream.StreamHC.InitInternal | lz4libs/lz4hc.c:100-116 | a new prefix behind all indices in use; tables cleared once they reach 1 GB |
| HcStream.StreamHC.ResetFast | lz4libs/lz4hc.c:1033-1049 | the tables are kept unless a compression has failed |
| HcStream.StreamHC.LoadDict | lz4libs/lz4hc.c:1066-1085 | the last 64 KB of a dictionary become the prefix of a context made anew, and the tables know all of it |
| HcStream.StreamHC.SaveDict | lz4libs/lz4hc.c:1171-1193 | the end of the prefix moves to a safe place, possibly overlapping it, and is still the end of the history |
| HcStream.StreamHC.TrimDict | lz4libs/lz4hc.c:1135-1146 | exactly the part of the dictionary that the source has not overwritten is kept |
| HcStream.UsableLess | lz4libs/lz4hc.c:1124-1129 | renewing the context before indices overflow keeps an end of the history |
| HcStream.StreamHC.Arrange | lz4libs/lz4hc.c:1122-1147 | whatever comes before, the context holds an end of the history with room for the indices of the block |
| HcStream.StreamHC.Continue | lz4libs/lz4hc.c:1111-1157 | the block decodes after the history, with all of the history known if the memory has been left alone; a refusal is for a parse that does not fit; failed calls change nothing that was promised, and history and source are the history of the next call |
| HcStream.StreamHC.CompressFastReset | lz4libs/lz4hc.c:939-949 | a block of its own on the tables of earlier calls |
| FastMatcher.EntryUsable | lz4libs/lz4.c:1061-1073 | an entry that passes the small-dictionary and distance tests names available history strictly before the position and at most 65535 back |
| FastMatcher.TablePut | lz4libs/lz4.c:794-823 | registering a position keeps the table valid, 16-bit truncation included |
| FastMatcher.FindMatch | lz4libs/lz4.c:1014-1075 | the search ends with a true match of four bytes or at the end of the source; it is the search of the specification, which tests every position of its schedule |
| FastMatcher.CatchUp | lz4libs/lz4.c:1078-1080 | extending a match backwards keeps it true |
| FastMatcher.CountMatch | lz4libs/lz4.c:1136-1156 | the match is extended exactly as far as bytes agree before the last five, across a dictionary boundary too |
| FastMatcher.ClearFrom | lz4libs/lz4.c:1166-1178 | clearing the positions given back restores the validity of the table |
| FastEncoder.WriteMatchBytes | lz4libs/lz4.c:1184-1197 | four-byte stores leave the length bytes of the format and stay within the budget |
| FastEncoder.PutLiterals | lz4libs/lz4.c:1082-1107 | token, length and literals within the budget; refused only when no sequence with these literals and no last run fit behind them |
| FastEncoder.FitMatch | lz4libs/lz4.c:1158-1183 | a match that does not fit is refused, or, to fill the output, shortened to one that does; refused only when a block with this match, however it ends, does not fit |
| FastEncoder.PutLastLiterals | lz4libs/lz4.c:1266-1293 | the last literals complete a block of the source or, to fill the output, of a prefix of it; refused exactly when they do not fit |
| FastEncoder.PrefixBlock | lz4libs/lz4.c:1271-1275 | a source cut in its last literals still ends a block by the rules |
| BlockWriter.LiteralsNoRoom | lz4libs/lz4.c:1085-1088 | the estimate of the length bytes in the budget test is never too high: what it refuses does not fit |
| FastGreedy.GreedyBound | lz4libs/lz4.c:910-1302 | the greedy run of the specification never takes more than n + n/255 + 2 bytes, whatever table, hash and acceleration |
| FastGreedy.OneByteRun | lz4libs/lz4.c:910-1302 | of a source that repeats one byte it is one literal, one match and five literals |
| FastCompressor.CompressValidated | lz4libs/lz4.c:910-1302 | for any hash and acceleration the result is exactly the size of the greedy run of the specification, a block of the source, and the table is the one behind that run; a limited output is refused if and only if that size exceeds it; filling the output gives a block of the prefix consumed, all of it when the run leaves three bytes, and otherwise leaves at most one byte unused |
| FastStream.Stream.PrepareTable | lz4libs/lz4.c:863-902 | a table is kept only when all its entries are harmless |
| FastStream.Stream.Generic | lz4libs/lz4.c:1308-1343 | one compression with its update of the state, failed or not |
| FastStream.Stream.CompressFast | lz4libs/lz4.c:1346-1438 | a block of the source of exactly the size of the greedy run; 0 if and only if that exceeds the capacity, or above the maximal input |
| FastStream.Stream.CompressFastReset | lz4libs/lz4.c:1378-1413 | the same on whatever table earlier calls have left |
| FastStream.OneByteBlock | lz4libs/lz4.c:1346-1372 | of 1000 equal bytes a block of 14 bytes is made |
| FastStream.Stream.CompressDestSize | lz4libs/lz4.c:1444-1477 | a block of the reported prefix of the source that fits the buffer |
| FastStream.Stream.LoadDict | lz4libs/lz4.c:1541-1581 | the last 64 KB become the dictionary, and the table is exactly that of every third position |
| FastStream.DictIndexed | lz4libs/lz4.c:1571-1577 | in that table the slot of each of these positions holds it or a later one |
| FastStream.Stream.SaveDict | lz4libs/lz4.c:1739-1759 | the end of the dictionary moves to a safe place, possibly overlapping it |
| FastStream.Stream.Renorm | lz4libs/lz4.c:1612-1629 | rescaled indices keep the table valid and leave room for the next block |
| FastStream.Stream.TrimDict | lz4libs/lz4.c:1660-1668 | exactly what the source has not overwritten of the dictionary may be kept |
| FastStream.Stream.Continue | lz4libs/lz4.c:1632-1708 | the block decodes after the history and has exactly the size of the greedy run on the arranged dictionary and table; dictionary and source are the end of the history next, also when the call fails; empty sources included |
| FastStream.RescaledInTime | lz4libs/lz4.c:1612-1629 | the decision to rescale, itself a 32-bit sum, is right if and only if index and source stay below 2^32 |
| FastStream.IndicesWrap | lz4libs/lz4.c:1612-1629 | an index and a source for which it is wrong: a later position gets a smaller index |
| FastStream.Stream.EarlyFits | lz4libs/lz4.c:863-896 | without a dictionary too short to be used every source fits |
| StreamRun.IdleReached | lz4libs/lz4.c:888-896 | fast resets after such a dictionary add 64 KB each until the index is that of a new stream again |
| StreamRun.IdleAllows | lz4libs/lz4.c:1612-1629 | after how many of them which linked blocks do not fit |
| FastStream.TableEnd | lz4libs/lz4.c:1207 | every entry lies at least eight bytes before the end of what was indexed |
| StreamRun.StillEnds | lz4libs/lz4.c:1660-1668 | a source written over part of the dictionary leaves an end of the history |
| StreamRun.DoSingle | lz4libs/lz4.c:1378-1413 | a one-shot block in the middle of a run, also after a dictionary too short to be used |
| StreamRun.DoLinked | lz4libs/lz4.c:1632-1708 | a linked block in the middle of a run |
| StreamRun.AnyRun | lz4libs/lz4.c:1378-1759 | any sequence of resets, dictionaries loaded and saved, one-shot and linked blocks, failures and writes of the caller: every block decodes after the history since the last reset |
| StreamBounds.NearInverse | lz4/stream/_stream.c:366-421 | the input bound of the compression bound of n is n, or n + 1 when 255 divides n |
| StreamBounds.StoreBlockLength | lz4/stream/_stream.c:306-362 | a length is stored so that loading gives it back, or refused exactly when it does not fit |
| StreamBounds.ChunkPasses | lz4/stream/_stream.c:1335-1360 | every block that may come of a chunk within the page passes the tests of a decompressor with the same page and length field |
| StreamBounds.BoundIsNotAccepted | lz4/stream/_stream.c:1352-1358 | a block as long as the bound passes exactly when 255 does not divide the page size |
| StreamPages.OtherPage | lz4/stream/_stream.c:497-506 | what was written to one page is out of the way of the other |
| StreamPages.Compressor.Compress | lz4/stream/_stream.c:1137-1215 | fast or high compression, empty chunks included: length field and a block that decodes after the last chunk; refused exactly when the chunk is longer than a page |
| StreamPages.Decompressor.Decompress | lz4/stream/_stream.c:1302-1420 | of any source what the specification of a block gives after the last chunk, or an error exactly when that or the length tests fail; the block of a chunk comes back as the chunk |
| StreamPages.Decompressor.TurnedBack | lz4/stream/_stream.c:1302-1420 | a last chunk that lies in the page in use is in the way of the next block |
| StreamPages.AnyChunks | lz4/stream/_stream.c:1137-1420 | any chunks within the page, empty ones included, go through both ends of a stream and come back |
| FrameFormat.HeaderRoundTrip | lz4libs/lz4frame.c:1291-1380 | the header parser recovers the parameters that were written, from any prefix that is long enough, and asks for the right number of bytes otherwise |
| FrameFormat.HeaderSizeIs | lz4libs/lz4frame.c:1387-1411 | the size read off the first five bytes is the number of bytes of the header |
| FrameFormat.LE32Read | lz4libs/lz4frame.c:185-202 | reading a little-endian field gives back what was written |
| FrameFormat.LE64Read | lz4libs/lz4frame.c:204-229 | the same for eight bytes |
| FrameHistory.BlockKeeps | lz4libs/lz4frame.c:1470-1535 | a block made after a history is one after every string that ends like its last 64 KB |
| FrameHistory.CoversAppend | lz4libs/lz4frame.c:1470-1480 | a dictionary extended by the output covers the history extended by it |
| FrameHistory.CoversKept | lz4libs/lz4frame.c:1516-1525 | so does the end of it that is worth keeping |
| FrameHistory.CoversFront | lz4libs/lz4frame.c:1502-1514 | and what is copied in front of a block not flushed yet |
| FrameHistory.BlockNotEmpty | lz4libs/lz4frame.c:1671-1679 | a compressed block is not empty, so that its size is no end mark |
| FrameHistory.FullSpecified | lz4libs/lz4frame.c:1844-1848 | a full decoding of a block is specified on every input |
| FrameDecoder.Dctx.constructor | lz4libs/lz4frame.c:1230-1238 | a context that expects a frame header |
| FrameDecoder.Dctx.DecodeHeader | lz4libs/lz4frame.c:1291-1380 | all outcomes of the header, errors in their order, with the fields they set |
| FrameDecoder.Dctx.StepFrameHeader | lz4libs/lz4frame.c:1590-1617 | a header in one piece or gathered over calls leads to the frame it announces |
| FrameDecoder.Dctx.StepInit | lz4libs/lz4frame.c:1619-1642 | buffers large enough for the blocks of the frame |
| FrameDecoder.Dctx.StepBlockHeader | lz4libs/lz4frame.c:1644-1701 | the next block, or the end of the blocks, as the frame has it |
| FrameDecoder.Dctx.StepCopyDirect | lz4libs/lz4frame.c:1703-1744 | as much of a stored block as both buffers allow, hashed, counted and added to the history |
| FrameDecoder.Dctx.StepBlockChecksum | lz4libs/lz4frame.c:1746-1780 | the checksum of a stored block of a valid frame is never refused; whatever the input, a block that passes has the checksum of its data |
| FrameDecoder.Dctx.StepCBlock | lz4libs/lz4frame.c:1782-1902 | a compressed block of a valid frame is decoded to its content, to the caller or into the internal buffer; whatever the input, a block that passes has its checksum and stands for the bytes that come out |
| FrameDecoder.Dctx.StepFlush | lz4libs/lz4frame.c:1904-1924 | waiting content goes out in any portions |
| FrameDecoder.Dctx.StepSuffix | lz4libs/lz4frame.c:1926-1972 | the end of the frame: 0 is returned exactly at its last byte; whatever the input, 0 means that the declared size is reached, that the four bytes taken are the checksum of the content if there is one to check, and that a whole frame has been read |
| FrameDecoder.Dctx.StepSFrameSize | lz4libs/lz4frame.c:1974-2007 | the size of a skippable frame |
| FrameDecoder.Dctx.StepSkip | lz4libs/lz4frame.c:2009-2017 | a skippable frame is passed over, of exactly the length it announces |
| FrameDecoder.Dctx.UpdateDict | lz4libs/lz4frame.c:1470-1535 | in every branch the dictionary ends like all content so far over at least 64 KB or all of it; in the middle of a flush it is what that will need |
| FrameDecoder.Dctx.PreserveHistory | lz4libs/lz4frame.c:2023-2053 | at the end of a call with unstable output the history lies in the internal buffer |
| FrameDecoder.Dctx.CallDecoder | lz4libs/lz4frame.c:1835-1848 | the block decoder with the dictionary, cut to 64 KB above 1 GB, gives the content of the block; of any input what comes out is what the block stands for after the whole history |
| FrameDecoder.Dctx.Run | lz4libs/lz4frame.c:1580-2021 | the loop over the stages ends, and every pass follows the frame |
| FrameDecoder.Dctx.Decompress | lz4libs/lz4frame.c:1556-2058 | on a valid frame a call never fails, goes on until a buffer is exhausted, and returns 0 exactly at the last byte; on any input, 0 means that what has been read since the start is a frame with right checksums and its content is what came out, and any other value is what the stage wants |
| FrameDecoder.Dctx.WantedIsLeft | lz4libs/lz4frame.c:1801-1807 | the size a call returns is at most what is left of the frame, if and only if the decoder is not within a last compressed block with its own checksum and without a content checksum, or in the stored magic of a skippable frame of less than three bytes; it never exceeds that by more than 4 |
| FrameDecoder.Dctx.PriorBound | lz4libs/lz4frame.c:1556-2058 | on any input no byte read stands for more than 4 MB of output |
| FrameAcceptance.HeaderSound | lz4libs/lz4frame.c:1291-1380 | a header that is accepted is, byte for byte, the header of the parameters that were read |
| FrameAcceptance.DecodedStands | lz4libs/lz4frame.c:1835-1848 | what a decoding with the end of the history gives is what the block stands for after the whole history |
| FrameAcceptance.StandsKeeps | lz4libs/lz4frame.c:1470-1535 | a block stands for the same after every string that ends like its last 64 KB of history |
| FrameAcceptance.FrontNext | lz4libs/lz4frame.c:1644-1902 | header and blocks read, plus one block, are header and blocks read |
| FrameAcceptance.FrameEnd | lz4libs/lz4frame.c:1926-1972 | with end mark, size and checksum they are a frame |
| FrameAcceptance.ValidAccepted | lz4libs/lz4frame.c:1556-2058 | of a valid frame exactly its encoding is accepted: no other byte of header, block sizes, data or checksums |
| FrameDecoder.Dctx.ReadyFor | lz4libs/lz4frame.c:1274-1280 | a context that is new or has finished a frame is ready for any valid frame |
| FrameDecoder.Dctx.UseDict | lz4libs/lz4frame.c:2060-2078 | a dictionary set before the first block, and again in later calls |
| FrameDecoder.Dctx.GetFrameInfo | lz4libs/lz4frame.c:1428-1463 | at the start of a frame it reads exactly the header and sets what that announces, or fails exactly when too little is there; later it asks the decoder without moving on |
| FrameTrack.InfoSizeIs | lz4libs/lz4frame.c:1387-1411 | the bytes it wants to see are told from any five that a frame starts with |
| FrameDecoder.Dctx.EmittedBound | lz4libs/lz4frame.c:1556-2058 | no more is ever emitted than the frame holds |
| FrameRuns.OneCall | lz4libs/lz4frame.c:1556-2058 | one call, with empty buffers or not, goes on in the frame; with room and input it makes progress |
| FrameRuns.AnySplit | lz4libs/lz4frame.c:1556-2058 | any cut of the input, any fresh output buffers and any number of idle calls: the output is the content and the last byte read the last of the frame |
| FrameRuns.AnySplitUsingDict | lz4libs/lz4frame.c:2060-2078 | the same for frames whose blocks refer to a dictionary |
| FrameRuns.AnyCall | lz4libs/lz4frame.c:1556-2058 | one call on any input: an error, or more read and written, or the end of a frame |
| FrameRuns.AnyInput | lz4libs/lz4frame.c:1556-2058 | any input in any calls: when one of them returns 0, what has been read is a frame with right checksums and the output is its content |
| FrameChunks.Loop | lz4/frame/_frame.c:1038-1138 | the loop that grows its destination ends on every source, keeps within a length limit, and otherwise reads all of the source or to the end of the frame; it never fails on a valid frame, and what it takes for a whole frame is one |
| FrameChunks.DecompressChunk | lz4/frame/_frame.c:1002-1136 | the same from any point of a run, in a destination sized by the limit or the source, empty sources included |
| FrameChunks.DecompressWhole | lz4/frame/_frame.c:1002-1136 | one call without a limit gives the whole content and the size of the frame |
| FrameChunks.Decompress | lz4/frame/_frame.c:938-1193 | of a source that starts like a frame the whole content, or a failure exactly when the frame is cut off; of any source only the content of a frame with right checksums |
| FrameBound.BoundIsRoom | lz4libs/lz4frame.c:371-396 | the closed formula is the room for the blocks cut off one by one and the end of the frame |
| FrameBound.ChunkFits | lz4/frame/_frame.c:461-472 | whatever is buffered, the size allocated for an update passes the test of the library |
| FrameBound.FlushFits | lz4/frame/_frame.c:585 | the size allocated for a flush or the end is enough for what is buffered |
| FrameBound.OptimalBSID | lz4libs/lz4frame.c:351-363 | the smallest block size that holds the source, never more than requested |
| FrameBound.OptimalBoundSame | lz4libs/lz4frame.c:398-446 | choosing a block size does not change the room a frame takes |
| FrameWire.SoundNext | lz4libs/lz4frame.c:825-850 | header and blocks sent, plus one valid block, are header and blocks sent |
| FrameWire.SoundEnd | lz4libs/lz4frame.c:1151-1187 | with end mark and checksum they are a valid frame of the content |
| FrameBlocks.BlockStream.Init | lz4libs/lz4frame.c:639-658 | the stream of the level, reset for linked blocks |
| FrameBlocks.BlockStream.Next | lz4libs/lz4frame.c:865-886 | fast or high compression: a block after all that was sent, and what the stream refers to next; refused exactly when the greedy run does not fit, or for a parse of the high levels that does not |
| FrameBlocks.BlockStream.Alone | lz4libs/lz4frame.c:853-880 | fast or high compression: a block of its own on a state that is kept |
| FrameBlocks.BlockStream.Save | lz4libs/lz4frame.c:905-911 | the end of the history at the start of the internal buffer |
| FrameEncoder.Cctx.Begin | lz4libs/lz4frame.c:677-785 | the header of the preferences, refused exactly below 19 bytes, and an empty buffer with room for a block |
| FrameEncoder.Cctx.WriteHeader | lz4libs/lz4frame.c:753-781 | the fields written one by one are the header |
| FrameEncoder.Cctx.MakeBlock | lz4libs/lz4frame.c:821-850 | a valid block of the source in at most the source and its overhead; compressed, at the fast levels, if and only if the greedy run is shorter than the source; stored, at the high levels, only for a parse that is not |
| FrameEncoder.Cctx.WriteBlock | lz4libs/lz4frame.c:838-849 | the bytes written are the block of the format |
| FrameEncoder.Cctx.LocalSaveDict | lz4libs/lz4frame.c:905-911 | the history is kept, at the start of the buffer |
| FrameEncoder.Cctx.KeepWithinLimits | lz4libs/lz4frame.c:1022-1031 | room for a whole block again, the history kept |
| FrameEncoder.StillLeft | lz4libs/lz4frame.c:962-971 | bytes gathered for a block leave the part of the history that the block may refer to |
| FrameEncoder.Cctx.Flush | lz4libs/lz4frame.c:1104-1139 | what is buffered goes out as one block; refused exactly for lack of room |
| FrameEncoder.Cctx.Update | lz4libs/lz4frame.c:930-1069 | linked or not, at any level, source stable or not: what is sent and what is buffered are all that was given, cut into blocks of the block size, but for a last smaller one with autoFlush; refused exactly below the bound; the output leaves room for the end of the frame |
| FrameEncoder.Cctx.CompleteTmp | lz4libs/lz4frame.c:962-985 | the buffered block completed or extended |
| FrameEncoder.Cctx.CompressBlocks | lz4libs/lz4frame.c:987-1007 | full blocks straight from the source, and with autoFlush the rest |
| FrameEncoder.Cctx.PreserveDict | lz4libs/lz4frame.c:1009-1020 | the history stays available when the source goes away |
| FrameEncoder.Cctx.End | lz4libs/lz4frame.c:1151-1187 | what was sent is a valid frame of what was given; refused exactly when what is buffered and the end do not fit or the declared size is wrong; without a frame it writes an end mark |
| FrameTrip.EncodeFrame | lz4libs/lz4frame.c:677-1187 | begin, any updates from any places and flushes, and end make a valid frame of all data that declares the preferences, no call failing with the buffers the bindings allocate |
| FrameTrip.Adjust | lz4libs/lz4frame.c:430-444 | what a one-call frame declares: linked exactly when asked for and longer than a block, the smallest block size that holds the source, its size when asked for and not 0, checksums and dictionary as requested |
| FrameTrip.CompressFrame | lz4libs/lz4frame.c:420-466 | refused exactly below the bound for the preferences as requested; otherwise a valid frame of the source that declares exactly what was asked for, as `Adjust` has it |
| FrameTrip.RoundTrip | lz4libs/lz4frame.c:677-2058 | what was compressed comes back, however the frame is cut into calls |
| FrameTrip.WholeRoundTrip | lz4/frame/_frame.c:938-1193 | what `compress` makes in a buffer as large as the bound, `decompress` turns back into the source |
| XxhStripes.InTwoParts | lz4libs/xxhash.c:451-512 | feeding two strings is feeding both at once, what the first left behind in front of the second |
| Xxh32.Finalize | lz4libs/xxhash.c:290-348 | the unrolled switch is the loop over four bytes and then one |
| Xxh32.XXH32 | lz4libs/xxhash.c:351-389 | the one-shot function is the hash of the specification |
| Xxh32.State.Update | lz4libs/xxhash.c:451-512 | lanes, buffer and length are those of everything fed so far |
| Xxh32.State.CountInput | lz4libs/xxhash.c:464-465 | the length modulo 2^32 and the flag that outlives its wrap-around |
| Xxh32.State.Digest | lz4libs/xxhash.c:526-543 | the digest is the hash of everything fed |
| Xxh32.AnyPartition | lz4libs/xxhash.c:436-543 | however the input is cut into updates, the digest is the one-shot hash |
| Xxh32Answers.Answer0 | lz4libs/xxhash.c:351-389 | the hash of the empty string with seed 0 |
| Xxh32Answers.Answer0Seeded | lz4libs/xxhash.c:351-389 | the same with another seed |
| Xxh32Answers.Answer1 | lz4libs/xxhash.c:290-348 | the hash of one byte |
| Xxh32Answers.Answer4Seeded | lz4libs/xxhash.c:290-348 | of four bytes, with a seed |
| Xxh32Answers.Answer5 | lz4libs/xxhash.c:290-348 | of five bytes |
| Xxh32Answers.Answer14Seeded | lz4libs/xxhash.c:290-348 | of 14 bytes, with a seed |
| Xxh32Answers.Answer16 | lz4libs/xxhash.c:351-389 | of one stripe |
| Xxh32Answers.Answer23Seeded | lz4libs/xxhash.c:351-389 | of one stripe with a tail, with a seed |
| Xxh64.Finalize | lz4libs/xxhash.c:701-808 | the unrolled switch is the loop over eight, four and one bytes |
| Xxh64.XXH64 | lz4libs/xxhash.c:810-852 | the one-shot function is the hash of the specification |
| Xxh64.State.Update | lz4libs/xxhash.c:911-969 | lanes, buffer and length are those of everything fed so far |
| Xxh64.State.Digest | lz4libs/xxhash.c:981-1003 | the digest is the hash of everything fed, unless the length has wrapped around to less than a stripe |
| Xxh64.AnyPartition | lz4libs/xxhash.c:898-1003 | however the input is cut into updates, the digest is the one-shot hash |
| Xxh64Answers.Answer0 | lz4libs/xxhash.c:810-852 | the hash of the empty string with seed 0 |
| Xxh64Answers.Answer0Seeded | lz4libs/xxhash.c:810-852 | the same with another seed |
| Xxh64Answers.Answer1 | lz4libs/xxhash.c:701-808 | the hash of one byte |
| Xxh64Answers.Answer4Seeded | lz4libs/xxhash.c:701-808 | of four bytes, with a seed |
| Xxh64Answers.Answer8 | lz4libs/xxhash.c:701-808 | of eight bytes |
| Xxh64Answers.Answer14Seeded | lz4libs/xxhash.c:701-808 | of 14 bytes, with a seed |
| Xxh64Answers.Answer32 | lz4libs/xxhash.c:810-852 | of one stripe |
| Xxh64Answers.Answer47Seeded | lz4libs/xxhash.c:810-852 | of one stripe with a tail, with a seed |

## Left out

- FrameEncoder.Cctx.CountInput: the running hash of the compressor and of the decoder is kept as the bytes fed to it, and the digest taken from the one-shot hash; that the streaming state agrees is `Xxh32.AnyPartition`.
- FrameEncoder.Cctx.Update: uncompressed updates and their mixture with compressed ones, shared compression dictionaries, and sources that begin where the internal buffer ends are not modelled; a source must not lie over what the stream still refers to.
- FrameTrip.EncodeFrame: the sources of a run are not promised to stay in place; `FrameEncoder.Cctx.Update` covers that case for single calls and `FrameTrip.CompressFrame` uses it.
- FrameDecoder.Dctx.Decompress: frames begin in a context that is new or has finished a frame, because a reset in the middle of a frame keeps the remaining size; what an error leaves behind and allocation failures are not described.
- FrameChunks.DecompressChunk: sizes are not cut to machine words.
- FrameRuns.AnySplitUsingDict: the dictionary is set in the first call; setting the same bytes again is `FrameDecoder.Dctx.UseDict`.
- FastStream.Stream.Continue: sources above the maximal input size are excluded, because a failed call would count indices that no table holds; attached dictionary contexts are left out.
- FastStream.Stream.Generic: tables of pointers (32-bit builds) and the reading of a table of one index width as the other are left out; a change of width always clears the table.
- StreamRun.AnyRun: a caller may not write over the dictionary except to the place of the next source, and not over its end; blocks whose indices would reach 2^32 are left out (`StreamRun.LinkedFits`, `StreamRun.SingleFits`), which takes more than 32000 fast resets in a row after a dictionary too short to be used.
- FastStream.Stream.CompressFastReset: only while indices stay below 2^32; where they do not, see Findings.
- HcStream.StreamHC.SaveDict: only once a prefix exists; after a fast reset `end` holds a size and not a place.
- HcCompress.CompressGeneric: the budget that fills the output and attached dictionary contexts are left out.
- StreamPages.AnyChunks: the two pages are apart from each other, and a dictionary does not end where a page begins; touching pages, where a decoder may overwrite what it still needs, are left out.
- StreamDecode.Decoder.Continue: where the output overlaps what is known, only blocks that refer to nothing are described; the model reads a dictionary as it was before the call.
- HcOptimalParser.CompressOptimal: which of the possible paths is the cheapest is not described, since the prices are estimates; that the finder loses no match holds for this parser too, but where chains are swapped nothing is claimed about candidates in the external dictionary, because the bytes across its end are on no chain.
- HcLazyParser.CompressHashChain: the size of the block is not told in advance, as it is for the fast levels.
- FastCompressor.CompressValidated: when the output is to be filled, the whole source is consumed whenever the greedy run leaves three bytes, and otherwise at most one byte of the output stays unused; how much of the source that is is not told.
- BlockRoundTrip.RoundTrip: partial decoding of a match with offset 0 at the end of the output is unspecified, since old buffer bytes show through.
- CommonBytes.NbCommonBytesCorrect: 64-bit little-endian words; the variants for other words and for compiler intrinsics are left out.
- `LZ4_decompress_fast` and the other deprecated entry points, in-place decompression with overlapping input, address wrap-around checks, and the Python side of the bindings.
