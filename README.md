# lib_mpeg frame header and synchronisation, in Dafny

This project models the core of lib_mpeg, a C++ library that finds MPEG
audio frames in a byte buffer. The library's pieces:

- **FOUR_CC** (`common.h`): packs four characters into a big-endian 32-bit
  word. It is module `FourCC`.
- **Two revisions of the 32-bit frame header.**
  - The newer one is the bitfield union of `header_raw.h`, module
    `HeaderRaw`. A free-format header (bitrate index 0) is valid in it.
  - The older one is class `CMPEGHeader` of `header.h` and `header.cpp`,
    module `MpegHeader`. It decodes version, layer, bitrate and sampling
    frequency once, in its constructor, and rejects free format.
  - Module `Revisions` states how the two relate.
- **Two revisions of the frame synchroniser.**
  - The newer one is in `mpeg.cpp`, module `Sync`. It confirms three chained
    valid headers. A free-format frame's size comes from a probe.
  - The older one is the stream class of `stream.cpp`, module `Stream`. It
    also has a frame walker, `CMPEGStream`. The walker counts consecutive
    frames that match the first header and averages their bitrates.

Both header revisions are proved against one independent reference, module
`Iso`. It reads the four header bytes in transmission order and spells out,
version by version and layer by layer, the field layout and tables of
ISO/IEC 11172-3 (sections 2.4.1.3, 2.4.2.3 and 2.4.3.1) and ISO/IEC 13818-3.

Conventions:

- The header word is the four buffer bytes loaded as a little-endian 32-bit
  integer (`*(const uint*)` on a little-endian machine). This is module
  `Bytes`.
- Header words are `bv32`, bytes are `bv8`, and offsets and sizes are `nat`.
- Small arithmetic facts live in module `Arith`.

Points where the code behaves differently from what a reader of the
library might expect; the model follows the code:

- **Sequence confirmation does not compare headers.** Neither
  `verifyFrameSequence` compares a header with the first one under the
  comparison mask. Each checks only that every header is valid and that
  every frame lands on the next header.
  `Sync.SequenceIgnoresStreamMismatch` shows three headers with three
  different sampling rates being accepted.
- **A mismatch aborts the walk.** The constructor's walk of `stream.cpp`
  does not stop on a header that differs from the first one under the
  comparison mask. It stops in an `ASSERT` there.
- **The walk never sizes a free-format frame.** The walk of `stream.cpp`
  never meets a free-format header, because its header revision rejects
  them.
- **`stream.cpp`'s `findHeader` never looks at the last position.** It
  never examines offset `size - 4`. The newer `mpeg.cpp` does.

## Model

| member | source | states |
|---|---|---|
| FourCC.Pack | common.h:9-13 | each argument's low byte reads back from its lane of the word, the first argument in bits 24-31 |
| FourCC.PackIsBigEndian | common.h:9-13 | as a number, the word is the four low bytes weighted 2^24, 2^16, 2^8 and 1 |
| FourCC.PackLowBytesOnly | common.h:10-13 | only the low 8 bits of each argument affect the word |
| FourCC.PackEqualIff | common.h:9-13 | two packings are equal exactly when the arguments agree in their low bytes |
| FourCC.PackInjective | common.h:9-13 | equal words come from equal low bytes (no two byte quadruples collide) |
| FourCC.PackExample | common.h:9-13 | FOUR_CC('R','I','F','F') is 0x52494646 |
| Bytes.LoadWord | mpeg.cpp:49 | the loaded word has `data[i]` in bits 0-7, up to `data[i+3]` in bits 24-31 |
| Bytes.LoadStore | mpeg.cpp:49 | loading the four bytes a little-endian store wrote gives the word back |
| Bytes.LoadWordSuffix | mpeg.cpp:33-34 | reading at `i` in the buffer passed as `f_data + o` is reading at `o + i` |
| HeaderRaw.Unpack | header_raw.h:13-32 | every bitfield read from the union fits its declared width |
| HeaderRaw.Pack | header_raw.h:11-34 | writing all fields and reading them back returns them (the fields tile the word) |
| HeaderRaw.PackUnpack | header_raw.h:11-34 | no bit of `uCell` lies outside a field |
| HeaderRaw.FieldsOnWire | header_raw.h:10-34 | each bitfield over the little-endian word is the field the standard puts in those wire bits |
| HeaderRaw.IsValidMatchesIso | header_raw.h:60-97 | `isValid` holds exactly when the standard allows the header, free format included |
| HeaderRaw.FreeFormatIsValid | header_raw.h:60-97 | a free-format MPEG-1 Layer III header is valid in this revision |
| HeaderRaw.Header.IsValid | header_raw.h:60-97 | valid iff both sync fields are all ones, no field holds its reserved code, and an MPEG-1 Layer II header has at most 192 kbit/s in mono and none of 32, 48, 56 or 80 kbit/s otherwise |
| HeaderRaw.Header.IsV2 | header_raw.h:99-103 | of the versions that are not reserved, every one but MPEG-1; bit 11 is clear |
| HeaderRaw.Header.IsProtected | header_raw.h:105 | a CRC follows exactly when bit 8 is clear |
| HeaderRaw.Header.IsFreeBitrate | header_raw.h:106 | free format exactly when bits 20-23 are all clear, the bits header.cpp's `!(m_header & 0xF00000)` tests |
| HeaderRaw.Header.Equals | header_raw.h:108-114 | two headers compare equal iff version, layer, sampling, channel mode and emphasis agree |
| HeaderRaw.EqualsIgnoresUnmaskedBits | header_raw.h:108-114 | flipping bits outside the comparison mask never changes the comparison |
| HeaderRaw.EqualsIsEquivalence | header_raw.h:108-114 | the comparison is reflexive, symmetric and transitive |
| MpegHeader.VersionOf | header.h:33-41 | code 1 is the only invalid version; codes 2 and 0 are "V2"; the table row is 0, 1 or 2 for MPEG-1, 2 and 2.5 |
| MpegHeader.CalcLayer | header.h:105 | layer codes 3, 2, 1 give layers 1, 2, 3 |
| MpegHeader.CalcBitrate | header.cpp:46-66 | whole kbit/s at most 448 kbit/s, 0 for the free and bad indexes, one row shared by MPEG-2 Layers II and III |
| MpegHeader.CalcFrequency | header.cpp:68-81 | the MPEG-1 rate, halved for MPEG-2 and quartered for MPEG 2.5 |
| MpegHeader.IsValidInternal | header.cpp:4-44 | valid iff sync bits set, no reserved version, layer, bitrate, sampling or emphasis code, no free format, and the MPEG-1 Layer II rule: at most 192 kbit/s in mono, none of 32, 48, 56 or 80 kbit/s otherwise |
| MpegHeader.CalcMpegVersion | header.h:103 | the version of bits 11-12 is invalid exactly when `isValidInternal`'s reserved-version test fires, and MPEG-2 or 2.5 exactly when bit 11 is clear |
| MpegHeader.Header.IsProtected | header.h:74 | a CRC follows exactly when bit 8 is clear |
| MpegHeader.Header.IsPadded | header.h:75 | padded exactly when bit 17 is set |
| MpegHeader.Header.IsPrivate | header.h:76 | private exactly when bit 16 is set |
| MpegHeader.Header.IsCopyrighted | header.h:77 | copyrighted exactly when bit 27 is set |
| MpegHeader.Header.IsOriginal | header.h:78 | original exactly when bit 26 is set |
| MpegHeader.Header.GetChannelMode | header.h:81 | codes 0-3 of bits 30-31 give stereo, joint stereo, dual channel and mono, in both directions |
| MpegHeader.FlagsOnWire | header.h:74-81 | each flag and the channel mode read the bit the standard assigns them in the header bytes |
| MpegHeader.Header.GetSideInfoSize | header.cpp:83-93 | 0 exactly outside Layer III; at most 32 bytes, 32 exactly for MPEG-1 non-mono, 9 exactly for MPEG-2/2.5 mono |
| MpegHeader.Header.GetFrameSize | header.cpp:111-129 | a valid header's frame is a whole number of slots, and a padded one holds at least its padding slot |
| MpegHeader.Header.GetEmphasis | header.cpp:96-109 | codes 1, 3 and 0 give 50/15, CCITT J.17 and none |
| MpegHeader.Header.GetNextFrame | header.h:86-90 | with the copyright bit clear the next frame is one frame size away |
| MpegHeader.Header.Equals | header.h:93 | equality under 0xC30C1E00 is equality of version, layer, sampling, channel mode and emphasis bits |
| MpegHeader.Header.NotEquals | header.h:94 | `!=` is the negation of `==` |
| MpegHeader.Make | header.h:49-65 | valid iff `isValidInternal`; fields stay reserved/0 when invalid; a valid header has 8-448 kbit/s and 8-48 kHz |
| MpegHeader.IsValidInternalMatchesIso | header.cpp:4-44 | `isValidInternal` holds exactly when the standard allows the header with free format refused |
| MpegHeader.BitrateMatchesIso | header.cpp:46-66 | a valid header's bitrate is the standard's table entry |
| MpegHeader.MakeMatchesIso | header.cpp:111-129 | layer, version class, bitrate, frequency, side-info size and frame size all equal the standard's |
| MpegHeader.DecodedRanges | header.cpp:46-81 | bitrate and frequency ranges per version and layer |
| MpegHeader.FrameSizeBounds | header.cpp:111-129 | a valid frame is 24 to 2881 bytes and `SPF8 * bitrate` does not overflow 32 bits |
| MpegHeader.SlotsBoundsV1 | header.cpp:119-128 | MPEG-1 slot counts before padding: 8-168 in Layer I, 96-1728 otherwise |
| MpegHeader.SlotsBoundsV2 | header.cpp:119-128 | MPEG-2/2.5 slot counts before padding: 16-384 in Layer I, 24-2880 otherwise |
| MpegHeader.PaddingAddsOneSlot | header.cpp:111-129 | setting the padding bit keeps the header valid and adds exactly one slot |
| MpegHeader.LayerOneFrameIsWholeSlots | header.cpp:126-128 | a Layer I frame is a multiple of 4 bytes |
| MpegHeader.SideInfoWithinFrame | header.cpp:83-93 | header plus side information fit strictly inside the frame |
| MpegHeader.FrameSizeExample | header.cpp:111-129 | MPEG-1 Layer III, 128 kbit/s, 44.1 kHz: 417 bytes, 418 padded |
| MpegHeader.FreeFormatIsInvalid | header.cpp:9-11 | a free-format header is refused by this revision |
| MpegHeader.EqualsIsEquivalence | header.h:93 | the comparison is an equivalence relation |
| Revisions.OlderIsNewerWithoutFree | header.cpp:4-44 | the older validity is the newer one minus free format |
| Revisions.FreeFormatSplitsRevisions | header.cpp:9-11 | 0x1B00FBFF is valid in the newer revision only |
| Revisions.RevisionsAgreeOnFields | header_raw.h:99-114 | both revisions read the same version class, protection flag and stream comparison |
| Sync.FrameSize | mpeg.cpp:63 | a valid non-free frame is 24 to 2881 bytes |
| Sync.FindHeader | mpeg.cpp:15-27 | the least offset with a valid header, or the size when none (and always below 4 bytes) |
| Sync.VerifyFrameSequence | mpeg.cpp:41-67 | true exactly when three valid headers chain from offset 0, free frames by the probe |
| Sync.ChainedStep | mpeg.cpp:49-63 | from a valid header the rest of the sequence starts one frame further on |
| Sync.Chained | mpeg.cpp:41-67 | a chain of one or more headers starts with a valid header inside the buffer; a chain of two or more leaves a byte past that header |
| Sync.CalcFirstHeaderOffset | mpeg.cpp:29-38 | the least offset at which a sequence is confirmed, or the size when none |
| Sync.SkippedStartNoSequence | mpeg.cpp:33 | no sequence starts at an offset `findHeader` skipped |
| Sync.IsIncompleteFrame | mpeg.cpp:70-83 | a buffer is incomplete only when its valid non-free header's frame is longer than the buffer |
| Sync.IncompleteFrameStartsNoSequence | mpeg.cpp:70-83 | an incomplete frame never starts a confirmed sequence |
| Sync.FailedProbeRejects | mpeg.cpp:54-59 | a free-format frame with no probed size rejects the sequence |
| Sync.SequenceIgnoresStreamMismatch | mpeg.cpp:41-67 | three headers that differ under the comparison mask are still confirmed |
| Stream.HeaderAt | stream.cpp:73 | the header built from the little-endian word at the offset |
| Stream.SequenceVerdict | stream.cpp:64-85 | a header past the buffer end rejects; any other verdict starts on a valid in-bounds header, and acceptance on one without the copyright bit |
| Stream.VerifyFrameSequence | stream.cpp:64-85 | true exactly when the header at 0 and the two after it are valid and inside the buffer |
| Stream.VerdictStep | stream.cpp:73-81 | one loop turn on a valid, non-aborting header moves to the next frame |
| Stream.AcceptedLeavesRoom | stream.cpp:64-85 | an accepted sequence leaves room for a whole frame and the next header |
| Stream.InvalidIsRejected | stream.cpp:73-75 | an invalid header at a position rejects it |
| Stream.FindHeader | stream.cpp:88-103 | the least valid position below `size - 4`, or the size |
| Stream.ScanStopsAtValid | stream.cpp:93-100 | `findHeader` stops at or before any valid header it can see |
| Stream.SkippedAreRejected | stream.cpp:57 | every skipped position is rejected |
| Stream.ScanSkipsNoSequence | stream.cpp:55-59 | one scan step never passes the first accepted position and skips no sequence |
| Stream.NoAbortUpTo | stream.cpp:58 | no position before the first accepted one aborts |
| Stream.NotAcceptedThrough | stream.cpp:58-59 | a rejected candidate lies before the accepted one and extends the rejected run |
| Stream.SequenceWitness | stream.cpp:53-62 | the accepted position the loop's exit relies on |
| Stream.CalcFirstHeaderOffset | stream.cpp:53-62 | the least position at which a sequence is accepted |
| Stream.Gen | stream.cpp:45-50 | a stream is made exactly when the sequence at 0 is accepted, and it is the constructor's: size, first data frame, frame count, average kbit/s and copied bytes of the walk |
| Stream.WalkFrom | stream.cpp:132-147 | the walk ends inside the buffer, and every frame start lies between its start and the buffer end |
| Stream.NextStart | stream.cpp:139 | the next frame starts 24 or more bytes on, inside the buffer |
| Stream.WalkStep | stream.cpp:132-147 | a valid header is counted and the walk continues at the next frame |
| Stream.WalkEnds | stream.cpp:134-136 | a walk ends on an invalid header; it counts nothing exactly when it ends where it starts |
| Stream.WalkIsChain | stream.cpp:132-147 | every counted frame passes the loop's checks and ends where the next begins, the last at the walk's end |
| Stream.WalkFramesCounted | stream.cpp:134-140 | every counted frame is valid, matches the first header, and lies inside the buffer |
| Stream.WalkFramesLinked | stream.cpp:132-139 | each counted frame ends where the next counted one starts |
| Stream.WalkLastFrameEnds | stream.cpp:132-139 | the last counted frame ends at the walk's end |
| Stream.FrameKbps | stream.cpp:145 | a valid frame adds 8 to 448 kbit/s |
| Stream.SumKbpsBounds | stream.cpp:145 | the sum of n frames' kbit/s lies between 8n and 448n |
| Stream.SumKbpsConstant | stream.cpp:145 | n frames of the same bitrate sum to n times it |
| Stream.SumKbpsAppend | stream.cpp:145 | counting one more frame adds its kbit/s |
| Stream.MpegStream.constructor | stream.cpp:108-156 | size, first data frame, frame count, average kbit/s and copied bytes are those of the walk |
| Stream.MpegStream.SkipXingFrame | stream.cpp:118-128 | the walk and `m_offset` start after the first frame exactly when it is a Xing frame |
| Stream.MpegStream.ParseFrames | stream.cpp:130-147 | frame count, kbit/s sum and stop offset are those of the walk |
| Stream.MpegStream.GetFirstDataFrameOffset | stream.cpp:15 | the first data frame lies inside the copied bytes |
| Stream.MpegStream.GetFrameCount | stream.cpp:16 | at least one frame |
| Stream.MpegStream.GetBitrate | stream.cpp:18 | the average lies between 8 and 448 kbit/s |
| Stream.ParseStep | stream.cpp:132-147 | one loop turn counts the frame, adds its kbit/s, and moves on by its size |
| Stream.WalkSplitStep | stream.cpp:137-140 | one loop turn keeps the counted frames and the rest of the walk together |
| Stream.ParseDone | stream.cpp:134-136 | on an invalid header every frame of the walk has been counted |
| Stream.Average | stream.cpp:155 | the average over valid frames lies between 8 and 448 kbit/s |
| Stream.WalkAverage | stream.cpp:150-155 | a walk that counts frames copies bytes past its start, and its average is in range |
| Stream.ConstantBitrateAverage | stream.cpp:155 | a constant-bitrate stream averages to that bitrate |
| Stream.AcceptedIsChained | stream.cpp:64-85 | a sequence the older synchroniser accepts is confirmed by the newer one, for any probe |
| Stream.FreeFormatSplitsSynchronisers | stream.cpp:73-75 | three free-format headers are confirmed by the newer synchroniser and rejected by the older |

## Left out

- **Floating point.** `getFrameLength`, `m_length` and `getLength` are not modelled.
- **32-bit wrap-around.** Buffer offsets and sizes are unbounded `nat`. The
  `uint` and `size_t` wrap-around of the sources is not modelled.
  `MpegHeader.FrameSizeBounds` proves that the frame size formula itself
  never wraps.
- **Free-format frame size.** `CHeader::calcFrameSize` is not part of this
  model. `Sync` takes it as the parameter `probe`, where 0 means failure.
- **The newer header class.** The `CHeader` that `mpeg.cpp` calls is not part
  of this model. `Sync` takes its `isValid` to be `header_raw.h`'s. It takes
  the frame size of a header with a bitrate to be `header.cpp`'s formula.
- **Xing and frame data offset.** `CXingHeader` is not part of this model;
  its `gen` is the parameter `isXing`. `getFrameDataOffset` is the
  parameter `frameDataOffset`.
- **`CMPEGHeader::gen`.** Not part of this model. It is taken to give a
  header exactly when `MpegHeader.Make` of the word is valid.
- **Allocation details.** Placement `new`, destructors and
  `IStream::create` are left out.
- **Other operations.** The `str()` functions, Xing header parsing, and
  cut/truncate of streams are left out.
- **`stream.h`.** It only declares what `stream.cpp` defines. The model
  follows `stream.cpp`.
- **`test.cpp`.** Not modelled.
- MpegHeader.CalcFrequency: requires a sampling index other than 3. With 3 the
  source reads past the end of the table row. `isValidInternal` already
  rules that index out.
- MpegHeader.Header.GetFrameSize: requires a valid header. For an invalid
  one the source stops in `ASSERT(!"Invalid frame")`, which aborts, so its
  `return 0` is never reached.
- MpegHeader.Header.GetNextFrame: requires a valid header and the copyright
  bit clear, which are the `ASSERT`s of `getFrameSize` and `getNextFrame`.
  So the two extra bytes for a copyrighted frame never arise.
- Stream.VerifyFrameSequence: requires that no header in the sequence is
  copyrighted. The source stops in `getNextFrame`'s `ASSERT` there.
- Stream.Gen: requires the same, and that the constructor can run to the
  end.
- Stream.FindHeader: requires at least 4 bytes. With fewer, the source's
  `limit` wraps around.
- Stream.CalcFirstHeaderOffset: requires some accepted position with no
  aborting one before it. Without one, the source's loop walks off the
  buffer.
- Stream.MpegStream.constructor: requires `Constructible`. This covers:
  - a valid first header, which the source dereferences unchecked;
  - the `ASSERT`s that every frame matches the first and fits the buffer;
  - reads that stay inside the buffer;
  - at least one frame, because the average divides by the frame count.
