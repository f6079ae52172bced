# Steganographic payload pipeline

A model of the part of the BMP steganography tool that hides a file in the
pixel components of a 24-bit bitmap and gets it back:

- **Payload framing.** `prepare_embedding_data` builds the hidden blob: a
  big-endian 32-bit file size, the file bytes, the file's extension (from
  the last `.` of its name, `.txt` when there is none) and a NUL. With a
  password the blob is encrypted and prefixed with the ciphertext length.
  `process_extracted_data` (and `extract_embedded_data` in the older
  src/core/extract.c) splits a recovered blob back into file bytes and
  output path. Two more revisions of the framing are modelled as modules of
  their own: src/core/embedding.c (native 32-bit headers, a double header
  when unencrypted, fully bounds-checked parse) and src/utils/steg_utils.c
  (a native `size_t` header, the output path left as given).
- **Codecs.** The grid is `Bitmap.Image`, a class over an `array<byte>` of
  `3 * width * height` components stored row by row, blue, green, red per
  pixel. The encoders mutate it in place: LSB1 (one message bit per
  component, most significant bit first), LSB4 (one nibble per component,
  high nibble first), the modular LSBI of src/core/embedding/lsbi_encode.c
  (two bits per component, visited red, green, blue, no map) and the
  map-based LSBI of src/core/embed.c (a four-bit inversion map in
  components 0-3, then one bit per blue or green component, flipped by the
  map flag for the component's bits 1-2). The decoders stream the hidden
  bits back into a buffer of `max_data_bytes`, read the big-endian size
  after four bytes, check it against the capacity and stop by the rule in
  `StopRule`.

Every encoder and decoder is a method with loop invariants, proved against
a function on the component sequence (`Lsb1Embedded`, `Lsb1Stream`,
`StopRule.Scan`, ...); round-trip lemmas connect each encoder's function
with its decoder's. `Pipeline` composes the whole path: prepare, embed,
decode, process.

Facts about the code that shape the model:

- src/core/embed.c:243 always writes the LSBI map 0 (`map_bits = 0`). The
  model embeds under any map and proves the round trip for every map, and
  `LsbiMapEncode` uses 0.
- The modular src/core/embedding/lsbi_encode.c writes two bits per component
  in red, green, blue order with no map, so `lsbi_decode` does not read
  back what it writes; `LsbiPairEncoder` is proved against its own reading
  order (`PairStream`), and only the map-based encoder is paired with
  `lsbi_decode`.
- The header of the unencrypted blob holds the file size, and extraction
  ends on a NUL rule.
- The framing revisions differ in byte order: big-endian in
  src/core/embedding/prepare_embedding_data.c and src/core/embed.c, the
  host's order in src/core/embedding.c and src/utils/steg_utils.c.

## Model

| member | source | states |
|---|---|---|
| Bits.SetLsb | src/core/embedding/lsb1_encode.c:43 | `(c & 0xFE) \| bit` puts the bit in bit 0 and keeps bits 1-7 |
| Bits.SetLowNibble | src/core/embedding/lsb4_encode.c:43 | `(c & 0xF0) \| nibble` puts the nibble in bits 0-3 and keeps bits 4-7 |
| Bits.SetLowPair | src/core/embedding/lsbi_encode.c:42 | `(c & 0xFC) \| twoBits` puts the pair in bits 0-1 and keeps bits 2-7 |
| Bits.SetLsbKeepsPattern | src/core/embed.c:292-300 | writing bit 0 keeps the pattern in bits 1-2, so the decoder selects the same map flag |
| Bits.MessageBitAt | src/core/embedding/lsb1_encode.c:40-51 | `(data[dataIndex] >> bitIndex) & 1` with bitIndex counting down from 7 is message bit `8 * dataIndex + 7 - bitIndex`: bits go most significant first |
| Bits.GatherMsbBits | src/core/extraction/lsb1_decode.c:19-27 | ORing eight bits in at positions 7 down to 0 rebuilds the byte they came from |
| Bits.NibblesOfByte | src/core/extraction/lsb4_decode.c:37-40 | the high nibble shifted up ORed with the low nibble is the byte |
| Bitmap.RowMajor | src/core/extraction/lsbi_decode.c:72-75 | the row, column and colour computed from a flat component index address that same component of the B,G,R row-major grid, inside the grid |
| Bytes.Extension | src/core/embedding/prepare_embedding_data.c:55-58 | the extension starts with `.`, is the suffix of the name from its last `.` with no `.` after it, and is `.txt` when the name has no `.` |
| Bytes.ReadBE32OfBE32 | src/core/extraction/process_extracted_data.c:25-26 | `ntohl` reads back what `htonl` stored, whatever follows the header |
| Bytes.BE32LeadingZero | src/core/extraction/process_extracted_data.c:48 | the header's first byte, where `strlen` of the buffer looks first, is 0 exactly when the size is below 2^24 |
| PrepareEmbedding.Payload | src/core/embedding/prepare_embedding_data.c:60-76 | the unencrypted blob is `4 + size + \|ext\| + 1` bytes long |
| PrepareEmbedding.PayloadLayout | src/core/embedding/prepare_embedding_data.c:72-76 | the blob is the 32-bit big-endian file size (truncated to 32 bits), the file bytes, the extension and a NUL |
| PrepareEmbedding.PayloadTerminator | src/core/embedding/prepare_embedding_data.c:75-76 | the first NUL after the file bytes is the blob's last byte |
| PrepareEmbedding.EnvelopeLayout | src/core/embedding/prepare_embedding_data.c:104-112 | the encrypted blob is the big-endian ciphertext length followed by the ciphertext, `4 + \|ct\|` bytes |
| PrepareEmbedding.Prepare | src/core/embedding/prepare_embedding_data.c:25-119 | NULL when the file cannot be read or encryption fails; without a password the unencrypted blob unchanged; with one, the envelope of the encrypted blob; the older copy in src/core/embed.c:325-410 has the same layout and encrypts when the algorithm is not `ENC_NONE` |
| PrepareEmbedding.PreparedSize | src/core/embedding/prepare_embedding_data.c:112-117 | `*total_data_size` is `4 + size + \|ext\| + 1`, or `4 + \|ct\|` when encrypted |
| StopRule.Scan | src/core/extraction/lsb1_decode.c:30-64 | what every decoder returns: NULL when `4 + size + 1 > max_data_bytes` (32-bit sum), otherwise the bytes up to the first stop at or past `4 + size` (at least 5), where a plain payload stops only on a NUL, with no NUL before it from the last file byte on; NULL when the carrier runs out first |
| StopRule.ScanCorrected | src/core/extraction/lsb1_decode.c:41-54 | the rule the payload layout calls for: an encrypted payload ends after exactly `4 + size` bytes, a plain one at the first NUL after the file bytes, and the buffer then ends in an extension free of NUL |
| StopRule.StoreByte | src/core/extraction/lsb1_decode.c:30-54 | storing a completed byte keeps the buffer equal to a prefix of the stream, and an oversized header makes the decoder's result `Scan`'s `TooLarge` |
| StopRule.Finish | src/core/extraction/lsb1_decode.c:60-66 | a decoder that ran out without stopping returns NULL, one that stopped returns its buffer: in both cases `Scan` |
| StopRule.AfterByte | src/core/extraction/lsb1_decode.c:35-54 | after a byte is stored: at byte 4 the size is read and an oversized one (`4 + size + 1 > max`, 32-bit) reports `TooLarge`; a stop is the stop `Scan` makes; otherwise the scan goes on |
| StopRule.TakeBit | src/core/extraction/lsb1_decode.c:23-27 | shifting a bit into `currentByte` at position `7 - bitIndex` and storing the byte when complete keeps the buffer a prefix of the packed stream |
| Lsb1Decoder.Lsb1Stream | src/core/extraction/lsb1_decode.c:6-27 | the LSB1 stream has `\|components\| / 8` bytes, `max_data_bytes` |
| Lsb1Decoder.Lsb1Decode | src/core/extraction/lsb1_decode.c:3-67 | `lsb1_decode` returns `Scan` of the LSB1 stream of the grid with capacity `3wh / 8`; the older `lsb1_decode` in src/core/extract.c:93-154 has the same capacity check and only the NUL stop, which is this method with `encrypted` false |
| Lsb4Decoder.Lsb4Stream | src/core/extraction/lsb4_decode.c:19-40 | the LSB4 stream has `\|components\| / 2` bytes, `max_data_bytes` |
| Lsb4Decoder.TakeComponent | src/core/extraction/lsb4_decode.c:37-67 | one component's low nibble goes into the high or low half of the current byte; a completed byte is stored and checked |
| Lsb4Decoder.Lsb4Decode | src/core/extraction/lsb4_decode.c:16-80 | `lsb4_decode` returns `Scan` of the LSB4 stream of the grid with capacity `3wh / 2`; the older `lsb4_decode` in src/core/extract.c:156-217 is this method with `encrypted` false |
| LsbiDecoder.ReadMap | src/core/extraction/lsbi_decode.c:38-53 | the map is the LSBs of components 0-3, most significant first; fewer than four components are all read and leave the map short |
| LsbiDecoder.DataBit | src/core/extraction/lsbi_decode.c:85-91 | a data bit is the component's LSB XOR the map flag `3 - pattern`, a single bit |
| LsbiDecoder.TakeComponent | src/core/extraction/lsbi_decode.c:85-122 | one blue or green component's data bit goes into the current byte, which is stored and checked when complete; the decoder's state stays that of `Scan` over the LSBI stream, or the result is `Scan`'s `TooLarge` |
| LsbiDecoder.StreamFits | src/core/extraction/lsbi_decode.c:22-26 | at most `2wh - 3` data bits exist, so the stream never outgrows the `(2wh) / 8` buffer |
| LsbiDecoder.CountStep | src/core/extraction/lsbi_decode.c:67-70 | from component 4 on, red components (`idx % 3 == 2`) carry no data bit and every other one carries the next |
| LsbiDecoder.LsbiExtract | src/core/extraction/lsbi_decode.c:55-59 | decoding fails for lack of a map exactly when the grid has fewer than four components |
| LsbiDecoder.LsbiDecode | src/core/extraction/lsbi_decode.c:18-133 | `lsbi_decode` returns `LsbiExtract`: `Scan` of the hidden bits of the blue and green components from 4 on, under the map read first |
| Lsb1Encoder.Lsb1Embedded | src/core/embedding/lsb1_encode.c:32-53 | the first `8 * \|data\|` components carry the message bits in bit 0, every other bit of every component is kept |
| Lsb1Encoder.Lsb1Fits | src/core/embedding/lsb1_encode.c:13-17 | a message that passes the 32-bit capacity check fits in the grid's components |
| Lsb1Encoder.Lsb1Encode | src/core/embedding/lsb1_encode.c:12-65 | -1 exactly when `8 * dataSize` exceeds the capacity, with the grid unchanged; otherwise 0 with the grid equal to `Lsb1Embedded` of the old grid (the "not all data" branch is dead); the older, void `lsb1_encode` in src/core/embed.c:105-155 makes the same check and embedding and drops the status |
| Lsb1Encoder.Lsb1RoundTrip | src/core/extraction/lsb1_decode.c:19-27 | the LSB1 stream of an embedded grid begins with the message |
| Lsb4Encoder.Lsb4Embedded | src/core/embedding/lsb4_encode.c:32-54 | the first `2 * \|data\|` components carry the message nibbles, high first, in bits 0-3, every other bit is kept |
| Lsb4Encoder.Lsb4Fits | src/core/embedding/lsb4_encode.c:12-17 | a message that passes the 32-bit capacity check fits |
| Lsb4Encoder.Lsb4Encode | src/core/embedding/lsb4_encode.c:11-63 | too large: grid unchanged; otherwise the grid is `Lsb4Embedded` of the old grid; the older copy in src/core/embed.c:167-219 is identical in check and embedding |
| Lsb4Encoder.Lsb4RoundTrip | src/core/extraction/lsb4_decode.c:37-40 | the LSB4 stream of an embedded grid begins with the message |
| LsbiPairEncoder.VisitPermutes | src/core/embedding/lsbi_encode.c:33-34 | visiting pixels in order and each pixel red, green, blue is a permutation of the components that undoes itself |
| LsbiPairEncoder.PairEmbedded | src/core/embedding/lsbi_encode.c:30-52 | the components visited at positions below `4 * \|data\|` carry the message pairs, most significant first, in bits 0-1 |
| LsbiPairEncoder.PairEmbeddedKeeps | src/core/embedding/lsbi_encode.c:36-42 | embedding changes bits 0-1 only, and only in visited components below `4 * \|data\|`: component 0 gets data bits 7-6 directly, no map |
| LsbiPairEncoder.NextPair | src/core/embedding/lsbi_encode.c:44-52 | the counters advance one pair, into the next byte after four; `done` exactly after the last pair of the last byte |
| LsbiPairEncoder.EmbedPair | src/core/embedding/lsbi_encode.c:33-42 | the next visited component receives the next message pair in bits 0-1, extending the embedded prefix by one |
| LsbiPairEncoder.PairFits | src/core/embedding/lsbi_encode.c:17-25 | a message that passes `4 * dataSize <= 3wh` (32-bit product) fits |
| LsbiPairEncoder.PairEncode | src/core/embedding/lsbi_encode.c:12-64 | too large: grid unchanged; otherwise the grid is `PairEmbedded` of the old grid, the early return after the last pair included |
| LsbiPairEncoder.PairRoundTrip | src/core/embedding/lsbi_encode.c:39-45 | reading bits 0-1 back in visiting order, four pairs per byte, recovers the message |
| LegacyLsbiEncoder.MapEmbedded | src/core/embed.c:243-317 | components 0-3 carry the map bits, then each blue or green component carries its message bit XOR the flag for its pattern |
| LegacyLsbiEncoder.MapEmbeddedKeeps | src/core/embed.c:292-300 | embedding changes bit 0 only, keeps every pattern, and leaves red components and those past the last message bit alone |
| LegacyLsbiEncoder.MapFits | src/core/embed.c:230-240 | a message that passes `dataSize + 4 <= (2wh) / 8` leaves room for the map and all its bits |
| LegacyLsbiEncoder.EmbedMap | src/core/embed.c:247-267 | the map loop writes bit `3 - idx` of the map into bit 0 of components 0-3 |
| LegacyLsbiEncoder.HiddenBit | src/core/embed.c:285-300 | the bit written is message bit `8 * dataIndex + bitIndex`, flipped when the flag for the component's pattern is set |
| LegacyLsbiEncoder.EmbedHiddenBit | src/core/embed.c:287-300 | writing one hidden bit sets component `idx` to its `MapEmbedded` value and changes no other component |
| LegacyLsbiEncoder.NextBit | src/core/embed.c:305-316 | the counters advance one bit, into the next byte after eight, and stop after the last byte |
| LegacyLsbiEncoder.LsbiMapEncode | src/core/embed.c:228-323 | too large: grid unchanged; otherwise the grid is `MapEmbedded` of the old grid under map 0 |
| LegacyLsbiEncoder.MapRoundTrip | src/core/extraction/lsbi_decode.c:38-53 | `lsbi_decode` reads back the map the encoder wrote |
| LegacyLsbiEncoder.MapEmbedRoundTrip | src/core/extraction/lsbi_decode.c:67-98 | for any map, the map comes back and the LSBI stream of the embedded grid begins with the message |
| ProcessExtracted.StrLen | src/core/extraction/process_extracted_data.c:48 | `strlen` is the position of the first NUL, or reads past the buffer when there is none |
| ProcessExtracted.StrnLen | src/core/extraction/process_extracted_data.c:49 | `strnlen` counts up to the bound or the first NUL, and reads past the buffer when neither comes first |
| ProcessExtracted.Unpack | src/core/extraction/process_extracted_data.c:44-66 | as written: whenever the `strlen`-derived guard lets a buffer through, the result agrees with `UnpackCorrected` |
| ProcessExtracted.UnpackCorrected | src/core/extraction/process_extracted_data.c:44-83 | an accepted buffer begins with `BE32(\|contents\|) ++ contents ++ ext ++ [0]`, and the path is the output path followed by the NUL-free extension |
| ProcessExtracted.Process | src/core/extraction/process_extracted_data.c:15-91 | a header past the buffer or a ciphertext past it is an over-read, a failed decryption is an error; an accepted plain buffer is unpacked as it is, and an accepted encrypted one is the unpacking of the decrypted `size` bytes after its header |
| ProcessExtracted.UnpackPayload | src/core/extraction/process_extracted_data.c:44-83 | the corrected unpacking of a prepared blob yields the file bytes and `outputPath ++ extension` |
| ProcessExtracted.UnpackAsWrittenRefuses | src/core/extraction/process_extracted_data.c:48-54 | when neither the header nor the file bytes hold a NUL, the guard refuses even a well-terminated extension |
| ProcessExtracted.UnpackAsWrittenAccepts | src/core/extraction/process_extracted_data.c:48-54 | when the header or the file bytes hold a NUL, `strlen` stops short, the subtraction wraps and the guard lets the buffer through |
| ProcessExtracted.UnpackPayloadRefused | src/core/extraction/process_extracted_data.c:48-54 | a prepared blob with no NUL in header and file bytes is refused as unterminated |
| ProcessExtracted.UnpackPayloadAccepted | src/core/extraction/process_extracted_data.c:48-54 | a prepared blob with a NUL in header or file bytes unpacks to the file and its path |
| ProcessExtracted.UnpackSmallPayload | src/core/extraction/process_extracted_data.c:48-54 | a file below 16 MiB has a leading zero header byte, so the guard never fires and the file comes back |
| ProcessExtracted.LargeFileRefused | src/core/extraction/process_extracted_data.c:48-54 | a file of `0x01010101` non-zero bytes is refused as written and recovered by the corrected step |
| ProcessExtracted.ProcessUnpacks | src/core/extraction/process_extracted_data.c:29-45 | with the matching cipher, a prepared payload, encrypted or not, reaches the unpacking step with the unencrypted blob |
| ProcessExtracted.ProcessRoundTrip | src/core/extraction/process_extracted_data.c:15-91 | corrected: every prepared payload, encrypted or not, comes back as the file and `outputPath ++ extension` |
| ProcessExtracted.ProcessAsWritten | src/core/extraction/process_extracted_data.c:15-91 | as written: the file comes back when its header or bytes hold a NUL, and is refused as unterminated otherwise |
| ProcessExtracted.UnpackTruncated | src/core/extraction/process_extracted_data.c:48-49 | a buffer cut off after the file bytes whose last byte is NUL sends `strnlen` past its end |
| LegacyExtraction.ExtractEmbeddedData | src/core/extract.c:219-281 | too short a buffer is an over-read, an extension not starting with `.` is rejected, and an accepted buffer is unpacked as by `UnpackCorrected` |
| LegacyExtraction.ExtractRoundTrip | src/core/extract.c:219-281 | corrected: every prepared blob comes back as the file and its path |
| LegacyExtraction.ExtractAsWritten | src/core/extract.c:243-248 | as written: the same `strlen` guard, refusing exactly the files whose header and bytes hold no NUL |
| NativeFrame.SplitFrame | src/core/embedding.c:182-210 | a size past the bytes or no byte left for an extension is rejected; accepted parts are `contents ++ ext ++ [0]` with an extension starting with `.` |
| NativeFrame.SplitFrameOf | src/core/embedding.c:182-210 | a frame of file bytes, an extension starting with `.` and its NUL splits back into them, whatever follows |
| DoubleHeaderFraming.Frame | src/core/embedding.c:15-111 | unencrypted: the native 32-bit length of the inner blob, then the inner blob; encrypted: the native ciphertext length, then the ciphertext; NULL when encryption fails |
| DoubleHeaderFraming.Inner | src/core/embedding.c:56-59 | the inner blob is `4 + size + \|ext\| + 1` bytes |
| DoubleHeaderFraming.InnerSplits | src/core/embedding.c:56-59 | the inner blob's native header reads back as the file size and the blob splits into file and extension |
| DoubleHeaderFraming.Snprintf | src/core/embedding.c:213-218 | `snprintf` into 512 bytes keeps a prefix shorter than 512, the whole string when it fits |
| DoubleHeaderFraming.Unframe | src/core/embedding.c:124-234 | fewer than 4 bytes or an outer length past the buffer is rejected; for an accepted buffer the body after the outer header (decrypted when encrypting) holds an inner LE32 header equal to the file's length, then the file, an extension starting with `.` and a NUL, and the output path is `outputPath` followed by that extension, cut to 512 bytes |
| DoubleHeaderFraming.RoundTrip | src/core/embedding.c:93-110 | unframing a frame, encrypted or not, yields the file and `outputPath ++ extension` |
| SizeTFraming.Frame | src/utils/steg_utils.c:11-60 | the native `size_t` file size, then the file bytes, the extension and a NUL; NULL when the file cannot be read |
| SizeTFraming.Unframe | src/utils/steg_utils.c:70-117 | fewer than 8 bytes, a size past the buffer or no byte for the extension is rejected; an accepted buffer yields exactly `messageSize` bytes written to the output path unchanged, and they are followed by a non-empty extension starting with `.` and a NUL, so an extension not starting with `.` is rejected |
| SizeTFraming.RoundTrip | src/utils/steg_utils.c:45-56 | unframing a frame yields the file, written to the output path |
| Pipeline.ScanCorrectedPlain | src/core/extraction/lsb1_decode.c:41-54 | with the corrected rule, a stream that begins with an unencrypted blob that fits yields exactly that blob and the file size |
| Pipeline.ScanCorrectedEncrypted | src/core/extraction/lsb1_decode.c:41-54 | with the corrected rule, a stream that begins with an envelope of `4 + \|ct\|` bytes that fits, the capacity filled exactly included, yields exactly that envelope |
| Pipeline.Recovers | src/core/extraction/process_extracted_data.c:15-91 | a carrier stream that begins with a prepared payload that fits is extracted by the corrected decoder and processed back into the file |
| Pipeline.Lsb1Pipeline | src/core/embedding/lsb1_encode.c:12-65 | prepare, LSB1 embed, corrected LSB1 decode and process recover every file that passes the capacity check |
| Pipeline.Lsb4Pipeline | src/core/embedding/lsb4_encode.c:11-63 | the same for LSB4 |
| Pipeline.LsbiPipeline | src/core/embed.c:228-323 | the same for map-based LSBI, the map read back as 0 |
| Pipeline.ScanStopsInData | src/core/extraction/lsb1_decode.c:47-50 | as written, a plain file whose last byte is NUL stops the decoder right after its data, before the extension |
| Pipeline.ScanStopsAtTerminator | src/core/extraction/lsb1_decode.c:47-50 | as written, a plain file whose last byte is not NUL is read up to the blob's terminator |
| Pipeline.TruncatedFileOverRead | src/core/extraction/lsb1_decode.c:47-50 | as written, a file ending in NUL is cut off before its extension, and processing reads the extension from past the filled part of the buffer (uninitialised memory, `OverRead`) |
| Pipeline.TerminatedAsWritten | src/core/extraction/process_extracted_data.c:48-54 | as written, a file not ending in NUL is read whole and then hits the `strlen` guard |
| Pipeline.NulFileOverRead | src/core/extraction/lsb1_decode.c:47-50 | for the one-byte file `[0]` the extension is read from uninitialised memory as written (`OverRead`); the corrected rule recovers the file |
| Pipeline.EncryptedAsWritten | src/core/extraction/lsb1_decode.c:41-52 | an encrypted payload is refused when `5 + \|ct\|` exceeds the capacity and read exactly otherwise |
| Pipeline.FullCarrierRefused | src/core/extraction/lsb1_decode.c:41-45 | an encrypted payload that fills the capacity exactly is refused as written and read by the corrected check |
| Pipeline.Lsb1FullCarrier | src/core/extraction/lsb1_decode.c:41-45 | an encrypted payload that the LSB1 encoder accepts as filling the grid exactly is refused by the LSB1 decoder |

## Left out

- Reading the message file, writing the output file and their failures
  (`fopen`, `fread`, `fwrite`): the file is a given `Option<seq<byte>>`,
  the written file a `Written(path, contents)` value.
- `malloc`/`realloc` failures and the leaked buffer when `realloc` fails:
  allocation always succeeds in the model.
- The ciphers and PBKDF2 key derivation: a `Cipher.Suite` of two functions
  is a parameter, and the round trips require that decryption undoes
  encryption (`Cipher.Inverse`).
- BMP reading and writing, row padding and header checks: the model starts
  from the component array.
- src/lib/embed.c: its three codecs read the message with `fgetc` inside
  the pixel loop and pass to `fwrite` only the pixels read after the
  message's end (src/lib/embed.c:119-122, 145-148, 170-173), so the
  modified pixels never reach the output file; `lsb1_embed` also keeps only
  bits 7-5 of each byte (126-128). There is no round trip to state.
- Command-line parsing, dispatch and console output (`embed()`,
  `extract()`, `printerr`, the tables).
- The nested row, column and colour loops of the LSB1 and LSB4 codecs and
  the modular LSBI encoder are one loop over the flat component index;
  `Bitmap.RowMajor` proves the orders agree. The LSBI decoder and the
  map-based encoder keep the source's row, column and colour computation.
- Native byte order is little-endian and `size_t` is 8 bytes, the
  platforms the tool is built for.
- A file longer than `size_t` can count is not modelled; sizes are
  unbounded naturals, truncated to 32 bits where the source casts to
  `uint32_t`, and products such as `biHeight * biWidth * 3` are taken
  modulo 2^32 where the source computes them in `uint32_t`.
- Reading past the filled part of a decoder's buffer (uninitialised memory)
  or past a buffer's end is modelled as the error `OverRead` instead of
  undefined behaviour.
- LegacyLsbiEncoder.LsbiMapEncode: requires at least one message byte when
  the capacity check passes. The data loop reads `data[dataIndex]` at every
  blue or green component from 4 on, with `dataIndex` 0 until a byte is
  done, and stops only after `8 * dataSize` bits; with an empty message it
  reads `data[0]` out of bounds. Every caller passes a prepared payload of
  at least six bytes.
- LegacyExtraction.ExtractEmbeddedData: the older extractor never
  decrypts, so it has no encrypted path.
- Lsb1Encoder.Lsb1Encode: also stands for the older `lsb1_encode` of
  src/core/embed.c, which returns nothing; its callers there see no status.

## Findings

| source | as written | input that shows it | evidently intended | confidence | as-written member | corrected member |
|---|---|---|---|---|---|---|
| src/core/extraction/lsb1_decode.c:47-50 | an unencrypted decode stops at the first NUL at or after byte `4 + size`, which is the last file byte; the same rule is in lsb4_decode.c:60-67, lsbi_decode.c:115-122 and src/core/extract.c:137-141 | the one-byte file `[0x00]`: decoding stops after 5 bytes, before the extension, and processing reads the extension from the uninitialised rest of the buffer | stop at the first NUL after the file bytes, at or after byte `5 + size` | not executed | Pipeline.NulFileOverRead | Pipeline.Recovers |
| src/core/extraction/lsb1_decode.c:41 | the capacity check `4 + size + 1 > max_data_bytes` also counts a terminator that an encrypted payload does not have; likewise lsb4_decode.c:54 and lsbi_decode.c:109 | a 32-byte ciphertext in a 12x8 grid (288 components, 36 bytes): the LSB1 encoder accepts the 36-byte payload, the decoder refuses it | count the terminator only for a plain payload | not executed | Pipeline.Lsb1FullCarrier | Pipeline.ScanCorrectedEncrypted |
| src/core/extraction/process_extracted_data.c:48-54 | the extension guard takes `strlen` of the whole buffer, header included: it is 0 for any file below 16 MiB, so the guard never fires, and it refuses valid files whose header and bytes hold no NUL; the same guard is in src/core/extract.c:243-248 | a file of `0x01010101` bytes all `0x01`: header `01 01 01 01`, `strlen` reaches the terminator and the guard rejects a well-terminated extension | bound the extension by the bytes after `4 + size` and look for its NUL there | not executed | ProcessExtracted.LargeFileRefused | ProcessExtracted.UnpackPayload |
