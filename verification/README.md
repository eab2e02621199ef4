# AccuDisc: a verified model of its decoding, buffering and decision layers

AccuDisc is a C library for reading and burning audio CDs. This project models the parts of it that
compute something, in the form the C code has (methods with loops over arrays and objects that change
their fields, functions where the code is an expression), and proves what those parts are for.

| module | models |
|---|---|
| `Gf64`, `ReedSolomon`, `RwDecoder` | the R-W subchannel decoder: GF(2^6) tables, the (24,20) and (4,2) Reed-Solomon codes of the Philips/Sony R-W system description (sections 5.1.3 and 5.1.5 to 5.1.7), the 8-pack de-interleaver, runs of feed calls |
| `Crc16`, `CrcPeriod`, `SubQ` | the CRC-16 gate bit by bit and by table, which errors it detects, Q extraction and parsing |
| `AccuBuffer` | the chunk ring between read engine and sink, as a step system of two threads |
| `IndexMap` | the pregap and index decoder, over all damage patterns |
| `CdTextPack`, `CdText`, `CdTextBlob`, `CdTextEncode` | the string assembler, the blob validator that regenerates dropped check fields, the ring-fill packer |
| `Layout`, `ReadCd` | record order evidence and the in-place rewrite, READ CD with its per-handle latches |
| `C2Lag`, `Speeds`, `Offsets`, `Ready` | the C2 lag verdict, the speed ladder's windows and admission, the read offset lookup, the readiness and retry layer |
| `Popcount` | word-wise against byte-wise bit counting |
| `Common` | facts about slices and wrapping counters used by several modules |

A method that changes state is proved against a specification function or predicate of the inputs or of
the old state (`Decoded`, `Validated`, `Describes`, `IsVerdict`, `IsResult`, `IsAnswer`, `IsCall`, ...),
and the lemmas prove what the source promises about that specification. The drive, the sink and the clock
are arbitrary: replies, sink results and measured rates are universally quantified.

Where the code does not do what its comments or its callers expect, the code is modelled as it is and the
exact condition is proved:

- `src/read/accubuf.c:158-167`: a discarding stop zeroes the slot count while the sink may still be
  running; the consumer then decrements it (`:40`), wraps the 32-bit count and goes on delivering stale
  slots. `AccuBuffer.DiscardKeepsCountIff` and `AccuBuffer.DiscardIsFinalIff` show that this happens
  exactly when the sink is running at that moment, `AccuBuffer.DiscardRace` gives a run, and
  `AccuBuffer.StaleDeliveries` how many stale deliveries there can be.
- `src/drive/offsets.c:101-111`: the loop guard leaves room for one character but an iteration can write
  two, so the terminator can land one place behind the buffer. `Offsets.TerminatorFitsIff` says for which
  strings, `Offsets.TerminatorOverrunsTheKeyBuffer` names one. The declaration in `src/internal.h`
  promises a terminated buffer without that restriction. Callers of `accudisc_offset_for_inquiry` can pass
  such a string, since it takes any; the device path cannot, its fields holding at most 16 characters
  (`Offsets.DeviceFieldsFit`).
- `src/cdda/index_map.c:96`: a stored negative sector counts as nothing stored, so the cross-check field
  is not always the first index-1 sighting (`IndexMap.CrossCheckIsFirstSightingIff`,
  `IndexMap.NegativeSightingIsOverwritten`).
- `src/cdda/index_map.c:82-83`: the good-frame tally counts every CRC-good frame of the window, where
  `include/accudisc/accudisc.h:3926` documents CRC-good position frames.
  `IndexMap.TallyIsOfPositionFramesIff` says when the two agree.
- `src/meta/cdtext.c:15-20`: only a pack header can announce that a track has no string, so a string
  behind such a gap reaches its own track exactly when some pack begins in it
  (`CdText.AttributionIsRightIff`); then the whole recording comes back
  (`CdText.RecordedStringsAreDecoded`).
- `src/drive/ready.c:164-186`: the waited milliseconds wrap at 32 bits; the timeout is reached for every
  timeout value but the largest (`Ready.TimeoutIsReachedIff`, `Ready.LargestTimeoutNeverEnds`).
- `tools/bench_decode.c:83`: the word loop's guard adds to the index in 32 bits and is exact for all
  lengths but the last eight (`Popcount.GuardHoldsIff`).

## Model

| member | source | states |
|---|---|---|
| Gf64.Tables.Init | src/cdda/rw.c:37-53 | one walk of the orbit fills the exponent table, doubled, with the powers of the primitive element, and the logarithm table with their inverses |
| Gf64.Tables.MulByTableIsMul | src/cdda/rw.c:55-60 | multiplication through the tables is the field product, guard entry for zero included |
| Gf64.Tables.DivByTableIsDiv | src/cdda/rw.c:63-68 | division through the tables is the field quotient |
| Gf64.Tables.PowByTableIsPow | src/cdda/rw.c:71-74 | table lookup modulo 63 is the power for every nonnegative exponent |
| Gf64.XtimeByConditionalReduction | src/cdda/rw.c:47-49 | shifting and conditionally reducing by X^6 + X + 1 is multiplication by the primitive element and stays below 64 |
| Gf64.ExpInjective | src/cdda/rw.c:30-32 | the primitive element has order exactly 63: distinct exponents below it give distinct symbols |
| Gf64.ExpOnto | src/cdda/rw.c:30-32 | every nonzero symbol is a power of the primitive element |
| Gf64.LogExp | src/cdda/rw.c:42-46 | the logarithm table inverts the exponent table modulo the order |
| Gf64.MulAssoc | src/cdda/rw.c:55-60 | multiplication is associative |
| Gf64.MulDistributes | src/cdda/rw.c:55-60 | multiplication distributes over exclusive or |
| Gf64.MulNonzero | src/cdda/rw.c:55-60 | a product vanishes exactly when a factor does |
| Gf64.DivIsTheQuotient | src/cdda/rw.c:63-68 | division by a nonzero symbol gives the one symbol whose product with the divisor is the dividend |
| ReedSolomon.RsSyndromes | src/cdda/rw.c:90-104 | each computed syndrome is the block evaluated at a power of the primitive element, zero symbols and row 0 shortcuts included |
| ReedSolomon.RsVerify | src/cdda/rw.c:106-119 | true exactly for codewords |
| ReedSolomon.MinimumDistance | src/cdda/rw.c:76-89 | two codewords of up to 63 symbols that differ in at most as many places as there are parity symbols are equal |
| ReedSolomon.MinimumWeight | src/cdda/rw.c:76-89 | a codeword with at most nsyn nonzero symbols is zero |
| ReedSolomon.Determinant | src/cdda/rw.c:160-163 | the determinant of the locator system is nonzero for two errors at distinct places |
| ReedSolomon.LocatorOfTwoErrors | src/cdda/rw.c:154-166 | the solved coefficients are the sum and the product of the two error locations |
| ReedSolomon.LocatorRoots | src/cdda/rw.c:171-178 | the locator vanishes at the inverse of an error location and nowhere else |
| ReedSolomon.ChienSearch | src/cdda/rw.c:167-179 | the search finds the first two roots and misses none before the second |
| ReedSolomon.SingleErrorIsFound | src/cdda/rw.c:138-152 | if a codeword is one symbol away, the single-error attempt patches the block to a codeword: to that one in blocks of up to 63 symbols |
| ReedSolomon.TwoErrorsAreFound | src/cdda/rw.c:154-192 | if a codeword is two symbols away and none nearer, the two-error attempt patches the block to a codeword |
| ReedSolomon.TrySingle | src/cdda/rw.c:138-152 | for blocks of any length: success leaves a codeword one symbol away; failure restores the block and means no codeword is one symbol away |
| ReedSolomon.TryDouble | src/cdda/rw.c:154-192 | for blocks of any length: success leaves a codeword exactly two symbols away; failure restores the block and means none is within two |
| ReedSolomon.RsCorrect | src/cdda/rw.c:121-194 | for any block of any length: r >= 0 means a codeword with exactly r symbols changed, -1 means the block is untouched and no codeword is within half the parity count |
| ReedSolomon.DecodingRestores | src/cdda/rw.c:87-88 | completeness: in blocks of up to 63 symbols, up to floor(nsyn/2) wrong symbols of any codeword are restored and counted |
| ReedSolomon.DecodingSucceedsIff | src/cdda/rw.c:121-122 | -1 is returned exactly when no codeword lies within half the parity count |
| ReedSolomon.DecodingIsDeterministic | src/cdda/rw.c:121-194 | in blocks of up to 63 symbols the contract leaves one outcome: repaired block and count are settled by the input |
| ReedSolomon.DecodingIsUniqueIff | src/cdda/rw.c:76-89 | what was recorded is settled by what is decoded for every block length up to 63 and for none beyond, where places 63 apart are the same to the code |
| RwDecoder.PermIsTheTable | src/cdda/rw.c:201-212 | the permutation table is the three transpositions the comment names and the identity elsewhere |
| RwDecoder.PermIsInvolution | src/cdda/rw.c:201-212 | applying the permutation twice changes nothing |
| RwDecoder.SectorGivesItsPacks | src/cdda/rw.c:300-302 | bytes that carry four packs of symbols, whatever their P and Q bits, give back exactly those packs |
| RwDecoder.Decoder.PushChannelPack | src/cdda/rw.c:235-241 | the ring then holds the last eight channel packs ever pushed, the newest at age 0 |
| RwDecoder.Decoder.Assemble | src/cdda/rw.c:247-254 | what is read off the ring is the logical pack gathered with the complementary delays |
| RwDecoder.Decoder.EmitPack | src/cdda/rw.c:243-279 | the emitted pack is the gathered one after P then Q correction, with its counts and flags, and the statistics grow by it |
| RwDecoder.Decoder.Feed | src/cdda/rw.c:281-315 | the stream seen grows by the sector's four packs whatever the sink; emitted packs are exactly those the sector completes; a rejected call changes nothing |
| RwDecoder.GatherUndoesInterleave | src/cdda/rw.c:196-200 | on an interleaved recording the gathered packs are the logical packs in order |
| RwDecoder.DecodePackRepairs | src/cdda/rw.c:256-268 | up to two bad symbols of a recorded pack are repaired and counted, and Q then has nothing to do |
| RwDecoder.DecodePackOutcome | src/cdda/rw.c:256-268 | for any gathered pack: P fails exactly when no codeword is within two symbols, Q exactly when none is within one of the four symbols P leaves, each count is the number of symbols changed, and nothing else changes |
| RwDecoder.TallyTotals | src/cdda/rw.c:270-272 | the statistics count the packs and add up the symbols each code fixed |
| RwDecoder.TallyFailures | src/cdda/rw.c:273-274 | and the blocks each code gave up on |
| RwDecoder.TallyModes | src/cdda/rw.c:275-278 | and the packs whose first symbol is below 8 and from 8 to 15 |
| RwDecoder.EmissionsAreTheRecording | src/cdda/rw.c:243-315 | with at most two bad symbols per logical pack the emitted stream is the recording |
| RwDecoder.AnyRunDeliversTheRecording | src/cdda/rw.c:281-315 | from bytes to recording: after any run of priming, rejected and emitting calls whose accepted sectors carry a lightly damaged recording, P and Q being arbitrary, the next emitting call delivers the recorded packs its sector completes, seven packs late |
| RwDecoder.RunCalls | src/cdda/rw.c:281-315 | any list of feed calls made on a fresh decoder feeds and delivers, call by call, what the run theorems speak of |
| RwDecoder.EmissionsExtend | src/cdda/rw.c:304-311 | feeding more never changes what was emitted and continues where that stopped |
| RwDecoder.Stream | cli/main.c:2217-2228 | the client loop writes exactly the completed packs, in order, up to the first write the output refuses, and stops at that sector |
| Crc16.Compute | src/cdda/crc16.c:3-14 | the bitwise loop computes the shift register's value for the whole string |
| Crc16.TableInit | tools/bench_decode.c:105-113 | every table entry is the register after eight shifts of its byte |
| Crc16.ComputeByTable | tools/bench_decode.c:114-120 | the table form equals the bitwise form on every input |
| Crc16.CrcLinear | src/cdda/crc16.c:3-14 | the check value of a sum of strings is the sum of their check values |
| Crc16.ShiftInjective | src/cdda/crc16.c:9-11 | the shift step loses nothing: it can be run backwards |
| Crc16.CrcIsCrcOfBits | src/cdda/crc16.c:7-12 | entering a byte at the top and shifting eight times is entering its bits one by one |
| Crc16.AcceptsIffResidue | src/meta/cdtext.c:114-116 | a frame is accepted exactly when the register over all of it, check field included, is a constant |
| Crc16.UndetectedIffCrcZero | src/meta/cdtext.c:114-116 | an error pattern slips through exactly when its own check value is zero |
| Crc16.BurstIsDetected | src/cdda/crc16.c:3-14 | every nonzero error within 16 consecutive bits of an accepted frame of any length, in data, check field or both, is rejected |
| Crc16.OddErrorIsDetected | src/cdda/crc16.c:3-14 | every error in an odd number of bits is rejected |
| CrcPeriod.ReturnsIff | src/cdda/crc16.c:9-11 | a single bit in the register comes back after the multiples of 32767 shifts and no others |
| CrcPeriod.TwoBitErrorIsMissedIff | src/cdda/crc16.c:3-14 | an error in two bits of an accepted frame of any length is missed exactly when their distance is a multiple of 32767 |
| CrcPeriod.FewBitErrorsAreDetected | src/cdda/crc16.c:3-14 | in frames of up to 32767 bits, Q frames and CD-Text packs among them, every error of one, two or three bits is rejected |
| SubQ.ExtractQ | src/cdda/subq.c:30-36 | byte by byte, each output byte collects eight Q bits |
| SubQ.ExtractionKeepsTheBits | src/cdda/subq.c:30-36 | the 96 Q bits come out in the order the subcode carried them |
| SubQ.ExtractionPlacesEachBit | src/cdda/subq.c:30-36 | bit 6 of raw byte i becomes bit i mod 8, from the top, of Q byte i / 8 |
| SubQ.ExtractionRecoversTheFrame | src/cdda/subq.c:30-36 | raw bytes that carry a frame in bit 6, whatever their other bits, give that frame |
| SubQ.Parse | src/cdda/subq.c:49-105 | Ok exactly for a frame whose check field verifies; control and mode are read either way, a rejected frame has no payload, and each kind of payload appears only in its mode |
| SubQ.ParsingReadsTheRecording | src/cdda/subq.c:49-75 | every field of a recorded position frame is read back: two BCD digits each, in their places |
| SubQ.ParsingReadsTheCatalogueNumber | src/cdda/subq.c:78-86 | the 13 digits of a recorded catalogue number are read back, digit d as character 0x30 + d |
| SubQ.ParsingReadsTheIsrc | src/cdda/subq.c:87-100 | the five six-bit codes and seven digits of a recorded ISRC are read back, each as the character 0x30 above it |
| SubQ.SubcodeBurstIsRejected | src/cdda/subq.c:55-64 | disturbing the Q bits of up to 16 consecutive subcode frames of a good block never yields a good frame |
| AccuBuffer.SlotCount | src/read/accubuf.c:63-69 | the ring has as many slots as fit the byte budget, clamped to 2..4096 |
| AccuBuffer.Buffer.Take | src/read/accubuf.c:20-34 | first critical section of the consumer: wait, exit, or hand the tail slot's chunk to the sink |
| AccuBuffer.Buffer.Return | src/read/accubuf.c:38-51 | second critical section: the slot is freed, the first nonzero result latched, the producer woken, a refusal ends the thread |
| AccuBuffer.Buffer.Push | src/read/accubuf.c:123-146 | waits while full and unrefused, gives up on a refusal, otherwise copies the chunk into the head slot and wakes the consumer |
| AccuBuffer.Buffer.Stop | src/read/accubuf.c:156-170 | marks the producer done, abandons the queue when discarding, wakes everyone |
| AccuBuffer.InvStep | src/read/accubuf.c:11-184 | every step of either thread keeps the invariant of who waits for what and, until a discard, what the ring holds |
| AccuBuffer.DeliveredInOrderAndIntact | src/read/accubuf.c:8-10 | under every interleaving the sink sees an in-order prefix of what was pushed, and the chunk in flight stays intact in its slot for the whole callback |
| AccuBuffer.DrainingStopDeliversAll | src/read/accubuf.c:149-184 | a draining stop that reports no refusal has delivered everything pushed |
| AccuBuffer.StopReportsFirstRefusal | src/read/accubuf.c:41-50 | stop reports the sink's first nonzero result, and nothing was delivered after it |
| AccuBuffer.NoDeadlock | src/read/accubuf.c:20-51 | in no reachable state before stop returns are both threads blocked; whichever waits, the other can move |
| AccuBuffer.StopProgresses | src/read/accubuf.c:168-172 | draining or discarding, every step after stop brings the consumer's exit closer, so stop comes back when the callbacks do |
| AccuBuffer.DiscardKeepsCountIff | src/read/accubuf.c:158-167 | after a discarding stop the count stays within the ring in every continuation exactly when the sink was not running |
| AccuBuffer.DiscardIsFinalIff | src/read/accubuf.c:158-167 | a discarding stop is the last delivery in every continuation exactly when the sink was not running |
| AccuBuffer.InFlightAnswerDecides | src/read/accubuf.c:36-50 | with the sink running, the consumer stops after that callback in every continuation exactly when the callback refuses |
| AccuBuffer.StaleDeliveries | src/read/accubuf.c:36-50 | after a discarding stop during a callback the sink is called at most 2^32 - 1 times more, and exactly that often if it never refuses |
| AccuBuffer.DiscardRace | src/read/accubuf.c:36-40 | a reachable run in which one pushed chunk leads to two deliveries, the second two slots on: the same chunk in a ring of two, otherwise what the slot held before |
| IndexMap.ScanApproach | src/cdda/index_map.c:60-100 | the first pass finds the longest pregap, the highest index, the cross-check sector and the CRC tallies of the approach |
| IndexMap.WalkDown | src/cdda/index_map.c:109-128 | the second pass is clean exactly when the first frame not skipped as MCN/ISRC is a good position frame |
| IndexMap.DecodeTrack | src/cdda/index_map.c:42-129 | an entry describes its boundary: verdict, length and all evidence fields, NO_DATA when the sector before it was not read |
| IndexMap.TallyIsOfPositionFramesIff | src/cdda/index_map.c:76-83 | the good-frame tally counts position frames only exactly when no good frame of another kind lies in the window |
| IndexMap.EveryFrameIsTallied | src/cdda/index_map.c:73-83 | good and bad frames together are the scanned frames of the window |
| IndexMap.Decode | src/cdda/index_map.c:32-132 | as many entries as fit, each describing its track, nothing written beyond them |
| IndexMap.RecordedTimeIsRead | src/cdda/index_map.c:27-30 | a track-relative time recorded as minutes, seconds and frames is read back as its number of frames |
| IndexMap.RecordedSectorIsSeen | src/cdda/index_map.c:68-72 | a sector whose raw bytes carry a recorded position frame is seen as that frame: track, index and time |
| IndexMap.DamageNeverHidesAPregap | src/cdda/index_map.c:109-114 | for every set of frames lost, a recorded pregap is PRESENT or UNKNOWN, never NONE; PRESENT exactly when one of its position frames survives, and never longer than recorded |
| IndexMap.IntactTransitionGivesExactLength | src/cdda/index_map.c:90-94 | the reported length is the distance of the earliest surviving position frame, hence exact when the transition frame is one |
| IndexMap.GaplessIsNeverPresent | src/cdda/index_map.c:102-107 | a boundary without index-0 frames is never PRESENT, whatever was lost |
| IndexMap.GaplessIsNoneIff | src/cdda/index_map.c:109-128 | of a gapless boundary, over all damage patterns: NONE exactly when every frame from the last position frame to the boundary survived, UNKNOWN otherwise |
| IndexMap.GaplessWithoutPositionsIsUnknown | src/cdda/index_map.c:115-128 | without a position frame in the approach the answer is UNKNOWN |
| IndexMap.CrossCheckIsFirstSightingIff | src/cdda/index_map.c:95-98 | the cross-check field is the first trusted index-1 sector exactly when that sector is not negative or is the only one |
| IndexMap.NegativeSightingIsOverwritten | src/cdda/index_map.c:95-98 | a two-frame scan before sector 0 in which the later sighting wins |
| CdText.Assembler.PutChar | src/meta/cdtext.c:61-89 | one byte extends the truncated string; a NUL commits it to the current track, a lone TAB copying the previous one, and moves to the next |
| CdText.Assembler.FeedPack | src/meta/cdtext.c:131-136 | after a pack the assembler holds the closed form of its type's whole stream, other types untouched |
| CdText.Dispatch | src/meta/cdtext.c:110-138 | a pack is used exactly when its CRC verifies and it is a single-byte, non-extension, block-0 pack of a decoded type |
| CdText.UsableIff | src/meta/cdtext.c:114-130 | in numbers: which packs are used, and for which of the four kinds |
| CdText.Decode | src/meta/cdtext.c:91-146 | each type's strings are what its own packs say in closed form; ERR_SHORT exactly when no pack is usable |
| CdText.ByteStep | src/meta/cdtext.c:12-25 | one more stream byte changes the closed form as the assembler changes: the header of the pack plus the NULs earlier in it name the track |
| CdText.InterleavingDoesNotMatter | src/meta/cdtext.c:103-107 | neighbouring packs of different types can be exchanged without changing any decoded string |
| CdText.FieldIsLastCommit | src/meta/cdtext.c:73-85 | a track's string is the last one committed to it, a lone TAB standing for what the previous track held then |
| CdText.RecordedStringsAreDecoded | src/meta/cdtext.c:1-25 | recording round trip: strings for rising tracks, cut into packs whose byte 1 is the track in progress, come back each at its track, cut to 159 bytes, a lone TAB repeating the track before, all other tracks empty, given that every gap in the tracks is announced |
| CdText.AttributionIsRightIff | src/meta/cdtext.c:12-25 | every recorded string is committed to its own track exactly when in every string behind a gap a pack begins |
| CdTextBlob.CheckPack | src/meta/cdtext_blob.c:54-83 | a good pack is left alone, a zeroed check field is regenerated in place and counted, any other mismatch refuses |
| CdTextBlob.Validate | src/meta/cdtext_blob.c:30-85 | statuses, counts, size-info and the resulting blob as a function of the blob before |
| CdTextBlob.StatusIff | src/meta/cdtext_blob.c:38-70 | in terms of the bytes: which blobs are too short, malformed, damaged or accepted |
| CdTextBlob.GoodBlobIsAccepted | src/meta/cdtext_blob.c:45-85 | a blob of the announced length whose packs all verify is accepted and left as it is |
| CdTextBlob.SizeInfoIff | src/meta/cdtext_blob.c:77-78 | in numbers: which packs give the track range |
| CdTextBlob.RepairedPackIsGood | src/meta/cdtext_blob.c:60-65 | a regenerated check field verifies and the payload is unchanged |
| CdTextBlob.RepairUpToPacks | src/meta/cdtext_blob.c:54-70 | repairing changes exactly the packs before the stop and each as specified |
| CdTextBlob.OkMeansEveryPackGood | src/meta/cdtext_blob.c:9-17 | on OK every pack verifies and every byte outside a zeroed check field is what it was |
| CdTextBlob.RefusalNamesFirstDamage | src/meta/cdtext_blob.c:66-69 | on ERR_CRC the named pack is the least damaged one, those before verify, it and those after are untouched |
| CdTextBlob.ValidationIsIdempotent | src/meta/cdtext_blob.c:30-85 | validating a validated blob succeeds, recomputes nothing and changes nothing |
| CdTextBlob.DecoderSkipsNothingForCrc | src/meta/cdtext.c:114-116 | after OK the decoder skips no pack for its CRC |
| CdTextEncode.BlockCountIsLeast | src/meta/cdtext_encode.c:39-44 | the block count closes the ring of packs and no smaller positive count does |
| CdTextEncode.PackingRoundTrips | src/meta/cdtext_encode.c:48-54 | three bytes are recovered from their four symbols |
| CdTextEncode.PackingIsBase64 | src/meta/cdtext_encode.c:46-54 | read as numbers, four symbols in base 64 are the three bytes in base 256 |
| CdTextEncode.PackingIsSixBits | src/meta/cdtext_encode.c:46-47 | the P and Q bits stay clear |
| CdTextEncode.EncodeRw | src/meta/cdtext_encode.c:56-78 | the emitted symbols are the bit packing of the endless pack ring, from its start, and nothing else is written |
| CdTextEncode.RepeatedBlocksAreThePackedRing | src/meta/cdtext_encode.c:12-18 | repeating the emitted blocks forever is bit-packing the pack ring repeated forever |
| CdTextEncode.UnpackingRecoversThePacks | src/meta/cdtext_encode.c:9-10 | unpacking returns the source bytes of every block |
| Layout.QHits | src/cdda/layout.c:38-54 | the number of records whose field at the offset is a valid Q frame; none for other field lengths |
| Layout.ValidFieldIff | src/cdda/layout.c:17-31 | a field counts exactly when the frame it carries, in its Q bits or its first twelve bytes, verifies |
| Layout.WinnerIsSymmetric | src/cdda/layout.c:60-67 | the two positions cannot both win, and exchanging the evidence exchanges the verdict |
| Layout.Inspect | src/cdda/layout.c:69-112 | hits at both positions, the winner, and a displaced stride exactly when one within 16 bytes explains a suspicious buffer, the least such, which makes the layout UNKNOWN |
| Layout.VerdictIff | src/cdda/layout.c:60-85 | each order is named exactly when records verify at its position, at most a third as many at the other, and the buffer is not misframed |
| Layout.MisframedIff | src/cdda/layout.c:87-111 | a buffer is misframed exactly when it has four records or more, fewer than half verify at either position, and at a stride up to 16 bytes longer at least two and half of those behind the first do |
| Layout.RotateRecord | src/cdda/layout.c:128-134 | the three moves exchange the two trailing fields of one record in place and touch nothing else |
| Layout.ToMmc | src/cdda/layout.c:114-135 | every record's trailing fields are exchanged; any other record shape is left alone |
| Layout.RotatingBackRestores | src/cdda/layout.c:128-134 | exchanging back restores a record; its audio never moved |
| Layout.RewriteMovesTheEvidence | src/cdda/layout.c:82-84 | Q hits at the standard position after the rewrite equal those at the other position before |
| Layout.RewritingBackRestores | src/cdda/layout.c:114-135 | rewriting with the field lengths exchanged restores the whole buffer |
| ReadCd.RoundUpIsLeast | src/mmc/mmc.c:228-230 | the rounded transfer is the least multiple of 16 that holds the data |
| ReadCd.RecordSizes | src/mmc/cdb.c:242-255 | the record sizes of every mode |
| ReadCd.RetriedIff | src/mmc/mmc.c:224-273 | a second command is sent exactly when nothing is known about rounding, the transfer was rounded, and it failed on the wire or as an illegal request |
| ReadCd.OutcomeIsOkIff | src/mmc/mmc.c:108-117 | a call is good exactly when its answering transfer was and left nothing out beyond the rounding slack |
| ReadCd.Device.ReadOnce | src/mmc/mmc.c:94-118 | one command; a GOOD transfer short by more than the rounding slack is ERR_SHORT |
| ReadCd.Device.Transfer | src/mmc/mmc.c:217-278 | at most two commands, two only on a suspect rounded failure while nothing is learned; only exact bytes reach the caller |
| ReadCd.Device.SortRecords | src/mmc/mmc.c:137-184 | a misframed buffer is refused unchanged; otherwise the records are in the standard order by this buffer's verdict or else the latch |
| ReadCd.Device.Read | src/mmc/mmc.c:186-284 | argument refusal changes nothing; otherwise length latch, order latch, commands issued and buffer are as specified |
| ReadCd.LengthIsLearnedOnce | src/mmc/mmc.c:226-227 | over any run of calls the length latch moves at most once, from 0, and a second command is issued only while it is 0 |
| ReadCd.LatchIsLastGoodEvidence | src/mmc/mmc.c:160-178 | the order latch is the verdict of the last unmisframed buffer with at least two agreeing hits |
| ReadCd.NoEvidenceNoLatch | src/mmc/mmc.c:160-178 | buffers without such evidence never set it |
| ReadCd.ReadAll | src/mmc/mmc.c:137-284 | any list of requests on one handle leaves its length latch, its order latch in every mode and its commands as the run theorems describe them, each verdict being that of the data read |
| ReadCd.SubFirstComesBackStandard | src/mmc/mmc.c:180-183 | records delivered subchannel first, when the verdict or else the latch says so, come back as audio, C2, subchannel |
| ReadCd.StandardRecordsAreKept | src/mmc/mmc.c:137-184 | from data to answer: records that verify behind C2, and at most a third as often behind the audio, are judged standard and left alone whatever is latched |
| ReadCd.ExchangedRecordsComeBackStandard | src/mmc/mmc.c:137-184 | the same records with their trailing fields exchanged, judged by their own hits, come back standard |
| C2Lag.Accumulator.ScoreFlag | src/drive/c2lag.c:50-61 | one fired flag is counted at every lag at which it describes a byte of the sector |
| C2Lag.Accumulator.ScoreRead | src/drive/c2lag.c:46-63 | one read's bitmap adds its flags and true positives at every lag |
| C2Lag.Accumulator.Add | src/drive/c2lag.c:34-64 | the counters are the totals over all pairs added |
| C2Lag.FlagIsItsBit | src/drive/c2lag.c:48 | flag f is bit f mod 8, from the top, of byte f / 8 |
| C2Lag.EvidenceOfAPair | src/drive/c2lag.c:39-62 | what is counted, as sets: at lag s the fired flags f of either read whose byte f - 4 s exists, those among them whose byte differs between the reads, and the differing bytes |
| C2Lag.Result | src/drive/c2lag.c:66-106 | the first lag of greatest precision, the best of the others, the figures narrowed to their fields, and OK exactly when every threshold is met |
| C2Lag.Probe | src/drive/c2lag.c:34-106 | the verdict over a whole run of pairs |
| C2Lag.PrecisionIsMilli | src/drive/c2lag.c:71-73 | the precision is the ratio of true positives to flags in per mille, rounded down |
| C2Lag.VerdictIff | src/drive/c2lag.c:71-105 | OK naming lag s exactly when the counts at s reach 64 flags, 32 true positives and 64 differing bytes and the agreement there, in whole per mille, is at least 100 and three times that at every other lag |
| C2Lag.DominantLagIsNamed | src/drive/c2lag.h:18-25 | completeness: enough evidence at s, a tenth of agreement there and three times the ratio of every other lag suffice for OK naming s |
| C2Lag.NothingIsCutOff | src/drive/c2lag.c:92-97 | for counters that come from pairs the 16-bit figures are the precisions themselves |
| C2Lag.ConclusiveVerdictIsTrue | src/drive/c2lag.c:66-106 | when every fired flag is explained by one lag, a conclusive verdict names that lag exactly when some flag describes a byte at it; agreement never exceeds 1000 |
| C2Lag.TpAtMostFlags | src/drive/c2lag.c:59-60 | true positives never exceed flags |
| C2Lag.OrderOfPairsDoesNotMatter | src/drive/c2lag.c:34-64 | the verdict does not depend on the order of the pairs |
| C2Lag.SwappingReadsDoesNotMatter | src/drive/c2lag.c:39-49 | nor on which of the two reads of any pair came first |
| Speeds.WindowsAreDisjoint | src/drive/speeds.c:67-93 | windows of distinct rungs or bands, warm-up included, lie in the span and share no sector |
| Speeds.LayoutIff | src/drive/speeds.c:78-93 | a span is refused exactly when it has fewer than 177 sectors a window; otherwise the windows are as long as it allows |
| Speeds.WantedIs | src/drive/speeds.c:241-254 | 75 sectors per speed step are timed, within 150, 2250 and what the window leaves beside the warm-up |
| Speeds.RadiusStepIsTheShare | src/drive/speeds.c:117-130 | the radius step is the rung's spread shared out over the windows between its first and last band, rounded down |
| Speeds.MarginIsTheLargest | src/drive/speeds.c:183-191 | the margin is the largest of the noise floor and k radius steps of either rung, whichever is compared with which |
| Speeds.Pick | src/drive/speeds.c:156-165 | the slowest unsettled rung, the first in table order among equals |
| Speeds.Admit | src/drive/speeds.c:132-210 | every rung is settled in as many picks as there are rungs and is judged against the last one admitted before it; measurements are untouched |
| Speeds.ProgressStep | src/drive/speeds.c:155-205 | settling the next slowest rung keeps every earlier judgement |
| Speeds.UnknownIffUnmeasured | src/drive/speeds.c:171-179 | UNKNOWN exactly for unmeasured rungs, QUANTIZED, naming the reported speed, exactly for measured ones the drive reported slower than requested |
| Speeds.DuplicateNamesAnAdmittedRung | src/drive/speeds.c:196-199 | a duplicate names an admitted rung requested no faster, which it does not beat by the margin |
| Speeds.AdmittedRatesRise | src/drive/speeds.c:193-195 | admitted rungs in request order rise by more than the margin from one to the next and by more than the noise floor overall |
| Speeds.VerdictsIgnoreTableOrder | src/drive/speeds.c:148-151 | with distinct requests a rung's result does not depend on the order of the table |
| Offsets.Normalize | src/drive/offsets.c:96-112 | what is written is the normal form of a prefix: all of the string, or enough to fill the buffer |
| Offsets.TerminatorFitsIff | src/drive/offsets.c:101-111 | the terminator lands inside the buffer exactly when the normal form has no separator in the last place but one while going on |
| Offsets.TerminatorOverrunsTheKeyBuffer | src/drive/offsets.c:101-111 | a string of 32 characters whose terminator goes behind the 32-byte key buffer |
| Offsets.DeviceFieldsFit | src/drive/offsets.c:340-350 | strings shorter than the buffer, the INQUIRY fields among them, always fit with their terminator |
| Offsets.NormalIsIdempotent | src/drive/offsets.c:96-112 | the normal form of a normal form is itself |
| Offsets.NormalizingTwiceIsOnce | src/drive/offsets.c:96-112 | whatever fitted the buffer, cut or not, passes through unchanged a second time |
| Offsets.SpellingIsForgotten | src/drive/offsets.c:70-112 | however words are blanked apart and whatever their case, what is compared is the words in capitals, single-spaced, as far as 31 characters go |
| Offsets.VendorHit | src/drive/offsets.c:230-240 | pass 1 finds a row of the product and vendor exactly when there is one |
| Offsets.Merge | src/drive/offsets.c:261-297 | one more candidate row: distinct values, their sources, overflow, best-evidenced row |
| Offsets.Gather | src/drive/offsets.c:242-298 | pass 2 gathers exactly the candidates: vendor-narrowed, else not generic |
| Offsets.Lookup | src/drive/offsets.c:177-338 | NOTFOUND, OK or AMBIGUOUS exactly as the candidates have zero, one or more distinct offsets; values[] lists them as the rows bring them up, each with its sources, n_values is their number up to four and TRUNCATED is added exactly above; figures of the best-evidenced row only on OK |
| Offsets.AnswersFromIff | src/drive/offsets.c:219-260 | exactly which rows a query is answered from: of its product, of its vendor where some row has both, else not generic; none for an empty product |
| Offsets.VerdictIff | src/drive/offsets.c:296-337 | an offset exactly when all rows that answer agree on it, and otherwise the number no drive has |
| Offsets.AnswerBitsIff | src/drive/offsets.c:261-306 | sources, flags and each value's sources hold exactly the bits of the rows behind them |
| Offsets.RowOrderDoesNotMatter | src/drive/offsets.c:131-142 | verdict, offset, number of values, sources, flags and submission count depend only on which rows the table has |
| Offsets.BestIsMost | src/drive/offsets.c:265-274 | the figures come from a candidate that no other exceeds in submissions |
| Ready.Device.Exec | src/device.c:188-239 | the attempts form a call as specified; the returned code and the sense are the last attempt's; sleep is one poll per not-ready answer retried |
| Ready.VerdictIff | src/drive/ready.c:49-92 | which senses are a unit attention, a not-ready and a missing medium |
| Ready.RepeatedIff | src/device.c:188-239 | exactly when a command goes out again, in terms of its opcode and the senses so far |
| Ready.AttemptsAreBounded | src/device.c:188-239 | an opcode not on the allowlist is issued once, any other at most 244 times, and at most 4 times without sleep for TEST UNIT READY or with the wait suspended |
| Ready.StateChangesAreNeverRepeated | src/drive/ready.c:95-107 | the commands the comment keeps off the list, and every vendor opcode, are issued once whatever the drive answers |
| Ready.BoundIsReached | src/device.c:193-228 | the bound of 244 is attained by a drive that is never ready |
| Ready.Device.WaitReady | src/drive/ready.c:137-188 | stops at the first reply that ends the wait, whenever there is one; OK exactly right after a GOOD TEST UNIT READY, terminal answers passed through, ERR_IO on a not-ready answer with the timeout reached, less than one poll late |
| Ready.EndsIff | src/drive/ready.c:144-187 | exactly which replies end the wait |
| Ready.CalmDriveEnds | src/drive/ready.c:144-187 | such a reply exists for every drive whose unit attentions are finite and every timeout but the largest |
| Ready.LargestTimeoutNeverEnds | src/drive/ready.c:164-186 | with the largest timeout a drive that is never ready is waited for without end |
| Ready.TimeoutIsReachedIff | src/drive/ready.c:164-186 | the wrapping counter reaches every timeout but the largest 32-bit value |
| Popcount.CountByte | tools/bench_decode.c:73-79 | the number of set bits |
| Popcount.CountWord | tools/bench_decode.c:80-91 | the same number, eight bytes at a time and a byte-wise rest |
| Popcount.WordHoldsTheBits | tools/bench_decode.c:83-87 | a word has as many set bits as its bytes, for any word length |
| Popcount.GuardHoldsIff | tools/bench_decode.c:83 | the 32-bit loop guard is exact for a length exactly when it is below the last eight |

## Left out

- SG_IO transport, driver loading, tracing, logging, sense and error strings: environment.
- CDB builders in `src/mmc/cdb.c` except the sector length: straight-line byte layouts.
- `cli/`, bindings, install and the hardware probes in `tools/` other than `bench_decode.c`: user interface and measurement.
- `tools/gen_offsets.py`, the fetchers and the contents of the offset table: the lookup is proved for every table.
- `tools/cav_speed_model.py` and `q_retest.py`: floating-point statistics.
- Timing in `speeds.c`: measured rates are arbitrary inputs to admission.
- Feature, disc and rotation classification, census totals, write health, ABI size import: short tables and sums. The lookup's two size gates are the flags `hasValues` and `hasAccuracy`.
- MSF conversion: frames carry times as minutes, seconds and frames.
- Null-pointer checks: pointers are typed as present, except the sink of the R-W decoder, whose absence matters.
- Allocation and thread-creation failure, page touching, `peak_count` and `stalls` in AccuBuffer; a condition wait is a state left by a signal or spuriously; there is one producer thread, as in the engine.
- Widths of statistics counters: unbounded, except the AccuBuffer slot count, the millisecond counter of the readiness wait, the C2 lag result fields and the bit counts, where the wrap or clamp is modelled.
- Text behind a CD-Text field's terminator: fields are strings up to the NUL.
- The bounce buffer of READ CD is scratch memory with a persistent capacity; its bytes do not survive a call. Commands it issues are counted above the retry layer of `Ready`.
- The Reed-Solomon methods use the field operations; the tables are proved equal to them once, in `Gf64`.
- ReedSolomon.RsCorrect: requires at most four parity symbols and not one, because the source's syndrome array has four places and an error under a single parity symbol makes it read an unset one. The exponents `r * (n - 1 - j)` are unbounded, where the source multiplies 32-bit numbers.
- Offsets.Lookup: requires strings whose keys fit the 32-byte buffers with their terminator, because the source writes outside them otherwise and promises nothing then.
- Offsets.VendorHit: the same requirement, for the same reason.
- Offsets.Gather: the same requirement, for the same reason.
- Ready.Device.WaitReady: requires that some reply ends the wait, because the source does not return otherwise.
- Popcount.CountWord: requires a length below the last eight 32-bit values, because the source's guard wraps there.
