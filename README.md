# HLK-LD6001 radar components for ESPHome, modelled in Dafny

The repository holds three ESPHome components for Hi-Link mmWave radar sensors:

- **LD6001**: a binary protocol with fixed frames. Frames start with `0x4D`, carry a length byte, an 8-bit additive checksum and the end byte `0x4A`.
- **LD6001A** and **LD6001B**: a mixed text and binary protocol. Four matchers share one driver loop:
  - an `AT+...\r\n` acknowledgement;
  - a `55 AA` frame with an XOR checksum;
  - a frame with the `01..08` magic, a 32-bit length and an XOR checksum over two ranges;
  - a pseudo-JSON `{...}` parameter listing, repaired by textual substitution.

This project models the parts of the components that carry logic:

- the three streaming **frame parsers**. Bytes are pushed one at a time, complete frames are recognised, checked, consumed and reported, and garbage is dropped;
- the **command factories**, which build range-checked `AT+KEY=<decimal>\n` lines;
- the **command queue**: a FIFO with one command in flight and a 5000 ms timeout;
- the LD6001A **target tracker**: enter and left events, with the dwell time in whole seconds;
- the **zone** containment test.

## How the model is built

- **Modules.** They follow the source files:
  - `Ld6001Parser`, `Ld6001aParser` and `Ld6001bParser` hold the three parsers;
  - `Matching` holds what the LD6001A and LD6001B parsers share: the matchers' framing rules, `validate_frame`, and the driver loop as a function `Drive`;
  - `Text` holds `replaceAll`;
  - `Commands` and `Ld6001bCommands` hold the factories;
  - `CommandQueues` holds the queue;
  - `TargetTrackers` holds the tracker;
  - `Zones` holds the zone;
  - `Bytes`, `Formatting` and `Wrappers` are shared helpers.
- **Classes.** Each parser, the queue and the tracker is a `class` whose methods update its fields in place. Each method is proved against a specification function of the old state:
  - for the LD6001 parser: `TryParse`;
  - for the LD6001A and LD6001B parsers: `Drive` with the pass `PassOf`;
  - for the queue: `TrySendNextOf`, `EnqueueOf` and `HandleResponseOf`;
  - for the tracker: `UpdatedBy`.

  Lemmas about these functions state what the source promises.
- **Bytes.** Bytes are integers `0..255`. XOR and OR are defined bit by bit in `Bytes`. Multi-byte fields are little-endian, as the tests' `push_uint32` assumes. Integer widths are explicit wherever the source wraps around: the tracker's `uint32` dwell subtraction, and the queue's `uint32` timeout sum in `TimedOutAsWritten`. The queue operations themselves use the corrected test `TimedOut` (see Findings).
- **Callbacks.** The handler callbacks, the queue's sender and the tracker's event handler become an appended event or effect log. `millis()` becomes a `now` parameter.
- **JSON parsing.** ArduinoJson parses the repaired listing. It is a function parameter `parses` of the LD6001A and LD6001B parsers: it decides only whether the acknowledgement and parameter callbacks fire, never whether the listing is consumed.
- **Code over comments.** Where the code and its own comments disagree, the model follows the code:
  - the queue's comment promises a 1-second timeout, but the code waits 5000 ms;
  - `match_save_para_fail_` exists in both parsers but is missing from both matcher lists, so "Save Para Fail" is never reported.

## Model

| member | source | states |
|---|---|---|
| `Bytes.Ascii` | esphome/components/ld6001a/frame_parser.h:222 | a character string becomes the bytes of its codes, one byte per character |
| `Bytes.AsciiAppend` | esphome/components/ld6001a/frame_parser.h:237 | the byte form of a concatenation is the concatenation of the byte forms |
| `Bytes.ReadUint32OfBytes` | esphome/components/ld6001a/frame_parser.h:113-117 | `read_uint32` undoes the 4-byte little-endian encoding of any value, wherever it sits in the buffer |
| `Bytes.ReadUint32Window` | esphome/components/ld6001b/frame_parser.h:135-139 | a 4-byte window holding the encoding of `v` reads back as `v` |
| `Bytes.WordsBytesAt` | esphome/components/ld6001a/frame_parser.h:422-447 | word `k` of a sequence of encoded 32-bit words sits at bytes `4k..4k+4` |
| `Bytes.XorBits` | esphome/components/ld6001a/frame_parser.h:399-420 | the XOR of two n-bit values is again an n-bit value |
| `Bytes.XorBitsCancel` | esphome/components/ld6001a/frame_parser.h:399-420 | XOR with a fixed value is injective: equal results imply equal operands |
| `Bytes.XorBitsCommutes` | esphome/components/ld6001a/frame_parser.h:399-420 | the XOR the checksum accumulates is commutative |
| `Bytes.XorCancel` | esphome/components/ld6001a/frame_parser.h:399-420 | on bytes, `a ^ b == a ^ c` holds exactly when `b == c`, on either side |
| `Bytes.OrBits` | esphome/components/ld6001b/frame_parser.h:459 | the OR of two n-bit values is again an n-bit value |
| `Bytes.OrBitsCommutes` | esphome/components/ld6001b/frame_parser.h:459 | OR is commutative |
| `Bytes.OrBitsShiftFour` | esphome/components/ld6001b/frame_parser.h:459 | OR-ing a value shifted by four bits keeps the low nibble of the other operand and ORs the rest |
| `Bytes.XorFromAppend` | esphome/components/ld6001a/frame_parser.h:399-420 | the running XOR over two concatenated ranges is the running XOR of the second range started from the first's result |
| `Bytes.XorFromFour` | esphome/components/ld6001a/frame_parser.h:410-412 | the XOR over four bytes is the chain of four single XORs |
| `Bytes.SumOfIsSumMod256` | esphome/components/ld6001/frame_parser.h:101-109 | `get_iterator_checksum`'s 8-bit accumulation equals the sum of all bytes mod 256 |
| `Ld6001Parser.FrameParser.GetIteratorChecksum` | esphome/components/ld6001/frame_parser.h:101-109 | the accumulation loop returns `SumOf` of the range, which is the sum of its bytes mod 256 |
| `Bytes.SumOf` | esphome/components/ld6001/frame_parser.h:101-109 | the `uint8_t` accumulator of `get_iterator_checksum`, adding byte by byte with wrap-around; `SumOfIsSumMod256` proves it is the sum of all bytes mod 256 |
| `Bytes.Signed` | esphome/components/ld6001/frame_parser.h:66-67 | `static_cast<int8_t>` of a byte is the value in `-128..127` congruent to it mod 256 |
| `Formatting.Digits` | esphome/components/ld6001a/command_queue.h:40 | `%d` of a natural number is a non-empty string of decimal digits, with no leading zero unless the value is 0 |
| `Formatting.ParseDecimal` | esphome/components/ld6001a/command_queue.h:40 | a parsed decimal comes from a non-empty string, and a negative one starts with the minus sign |
| `Formatting.DigitsRoundTrip` | esphome/components/ld6001a/command_queue.h:40 | reading the digits `%d` prints gives back the number |
| `Formatting.DecimalRoundTrip` | esphome/components/ld6001a/command_queue.h:69 | `%d` of any integer, negative ones included, parses back to that integer |
| `Formatting.DecimalHasNoLeadingZero` | esphome/components/ld6001a/command_queue.h:69 | `%d` prints no leading zero and no minus sign before a zero |
| `Formatting.DigitsUnique` | esphome/components/ld6001a/command_queue.h:69 | a digit string without a leading zero is the one printed for its value |
| `Formatting.DecimalUnique` | esphome/components/ld6001a/command_queue.h:69 | a text without a leading zero that parses to a value is `%d` of that value |
| `Formatting.DecimalInjective` | esphome/components/ld6001a/command_queue.h:69 | different integers print differently |
| `Text.Find` | esphome/components/ld6001a/frame_parser.h:122 | `find` returns the first occurrence at or after the start, or none when there is no occurrence at all |
| `Text.ReplacingSkips` | esphome/components/ld6001a/frame_parser.h:119-126 | text before the first occurrence is copied unchanged |
| `Text.ReplaceAllWithoutOccurrence` | esphome/components/ld6001a/frame_parser.h:119-126 | without an occurrence of `from`, `replaceAll` leaves the text unchanged |
| `Text.SpliceKeepsResult` | esphome/components/ld6001a/frame_parser.h:122-124 | one in-place splice plus skipping past the inserted text keeps the final result: the loop invariant of `replaceAll` |
| `Text.NothingLeftToReplace` | esphome/components/ld6001a/frame_parser.h:122 | once `find` fails, the text is final |
| `Text.ReplaceAll` | esphome/components/ld6001a/frame_parser.h:119-126 | the in-place loop computes the left-to-right, non-overlapping replacement, and an empty `from` leaves the text alone |
| `Text.ReplaceAllLeftToRight` | esphome/components/ld6001a/frame_parser.h:122-124 | occurrences are taken left to right without overlap: "aaa" with "aa" replaced by "b" is "ba" |
| `Text.ReplaceAllDoesNotRescan` | esphome/components/ld6001a/frame_parser.h:124 | the inserted text is never scanned again: "aa" with "a" replaced by "aa" is "aaaa" |
| `Text.ReplacingKeepsLast` | esphome/components/ld6001a/frame_parser.h:237-239 | a replacement whose pattern and substitute end with the same byte keeps the last byte of a text ending with it: the `",\r\n}"` repair keeps the appended '}' last |
| `Matching.ScanToCR` | esphome/components/ld6001a/frame_parser.h:299-304 | the scan stops at the first carriage return after the start, or at the end of the buffer |
| `Matching.AtOk` | esphome/components/ld6001a/frame_parser.h:282-327 | a complete acknowledgement has at least 6 bytes and lies within the buffer |
| `Matching.AtOkCompleteIffAck` | esphome/components/ld6001a/frame_parser.h:282-327 | `match_at_ok_` completes with `n` bytes exactly when the first `n` bytes are "AT+", one byte, bytes other than CR, then CR LF |
| `Matching.AtOkPrefixWaits` | esphome/components/ld6001a/frame_parser.h:288-314 | every proper prefix of an acknowledgement is PARTIAL |
| `Matching.AtOkCrWithoutLf` | esphome/components/ld6001a/frame_parser.h:316-326 | a CR followed by anything but LF makes the line INVALID |
| `Matching.AtOkRejectsOtherFirstByte` | esphome/components/ld6001a/frame_parser.h:288-291 | a buffer not starting with 'A' is INVALID for the acknowledgement matcher |
| `Matching.ScanAtOk` | esphome/components/ld6001a/frame_parser.h:282-327 | the matcher's scanning loop computes the framing defined by `AtOk` |
| `Matching.Between` | esphome/components/ld6001a/frame_parser.h:402-417 | a checksum range `[lo, hi)` has `hi - lo` bytes, or none when it is empty |
| `Matching.ValidateFrame` | esphome/components/ld6001a/frame_parser.h:399-420 | the checksum loops accept exactly the frames whose XOR over the covered range equals their last byte: bytes `[2, n-1)` for `55 AA`, and `[12,16)` followed by `[32, n-1)` otherwise |
| `Matching.XorDetectsOneByte` | esphome/components/ld6001a/frame_parser.h:399-420 | changing any one covered byte changes the XOR |
| `Matching.Type1CorruptionDetected` | esphome/components/ld6001a/frame_parser.h:402-408 | a `55 AA` frame with one corrupted body byte fails `validate_frame` |
| `Matching.Type1Framing` | esphome/components/ld6001a/frame_parser.h:329-361 | once the length byte is present, a complete type-1 frame is `buffer[2]` bytes long and lies within the buffer (corrected for the early read, see Findings) |
| `Matching.Type1FramingAsWritten` | esphome/components/ld6001a/frame_parser.h:340-347 | the type-1 framing as written, taking the length byte from storage past the end when only the header is there; `Type1AsWrittenAgreesLater` and `Type1AsWrittenRejectsHeader` prove exactly where it departs from `Type1Framing` |
| `Matching.Type1AsWrittenAgreesLater` | esphome/components/ld6001a/frame_parser.h:346-347 | with 3 or more bytes, the as-written type-1 framing is the corrected one |
| `Matching.Type1AsWrittenRejectsHeader` | esphome/components/ld6001a/frame_parser.h:346-351 | as written, the bare header `55 AA` is judged by a byte it does not hold (INVALID when stale storage holds 0), where the corrected matcher waits |
| `Matching.Type1Frame` | esphome/components/ld6001a/frame_parser.h:402-408 | a type-1 frame built from a body is the header, the body and its XOR checksum |
| `Matching.Type1FrameRecognised` | esphome/components/ld6001a/frame_parser.h:329-361 | every proper prefix of a well-formed type-1 frame waits, and the whole frame completes with its full length |
| `Matching.Type2Length` | esphome/components/ld6001a/frame_parser.h:375 | the type-2 length is the 32-bit word at `[8,12)` plus 1, wrapping at `2^32` |
| `Matching.Type2Framing` | esphome/components/ld6001a/frame_parser.h:363-389 | a complete type-2 frame has at least 16 bytes and lies within the buffer (corrected for the early checksum read, see Findings) |
| `Matching.Type2FramingAsWritten` | esphome/components/ld6001a/frame_parser.h:371-384 | the type-2 framing as written, checksumming bytes `[12,16)` even when the announced length does not cover them; `Type2AsWrittenAgreesLater` and `Type2AsWrittenReadsStaleChecksum` prove exactly where it departs from `Type2Framing` |
| `Matching.Type2AsWrittenAgreesLater` | esphome/components/ld6001a/frame_parser.h:363-389 | with 16 or more bytes, the as-written type-2 framing is the corrected one |
| `Matching.Type2AsWrittenReadsStaleChecksum` | esphome/components/ld6001a/frame_parser.h:371-384 | as written, a 12-byte header with length word 11 completes or fails depending on storage past the end, where the corrected matcher waits |
| `Matching.Type2FrameRecognised` | esphome/components/ld6001a/frame_parser.h:363-389 | every proper prefix of a well-formed type-2 frame waits, and the whole frame completes with its full length |
| `Matching.SaveParaFailTakesMarker` | esphome/components/ld6001b/frame_parser.h:199-216 | `match_save_para_fail_` would complete on the 16-byte marker and wait on each of its prefixes |
| `Matching.Pass` | esphome/components/ld6001a/frame_parser.h:141-159 | a pass reports the first COMPLETE matcher; otherwise PARTIAL when some matcher is PARTIAL; INVALID only when every matcher is |
| `Matching.PassFirstMatch` | esphome/components/ld6001a/frame_parser.h:146-152 | the first COMPLETE matcher decides the pass, whatever the later ones would say |
| `Matching.PassDecidedBy` | esphome/components/ld6001a/frame_parser.h:146-159 | a matcher is decisive when every other matcher is INVALID |
| `Matching.Cap` | esphome/components/ld6001a/frame_parser.h:171-173 | a buffer above 1024 bytes is cleared, anything else is kept |
| `Matching.Drive` | esphome/components/ld6001a/frame_parser.h:141-174 | after the driver loop the buffer holds at most 1024 bytes; the state is IDLE, READING_HEADER or INVALID; only an IDLE ending reports events; an INVALID ending leaves the buffer empty |
| `Matching.DriveAfterPass` | esphome/components/ld6001a/frame_parser.h:161-174 | a COMPLETE pass ends the loop in IDLE with its events, a PARTIAL pass ends it in READING_HEADER with nothing dropped, and an INVALID pass drops one byte and repeats while bytes remain |
| `Matching.SettleStep` | esphome/components/ld6001a/frame_parser.h:161-174 | one settled pass either continues the loop on a shorter buffer with no new events, or ends it in the state and buffer that `Drive` gives |
| `Matching.DriveDropsOnlyRejected` | esphome/components/ld6001a/frame_parser.h:141-174 | the loop drops head bytes only while every matcher rejects them, and at most one frame is decoded per push |
| `Ld6001Parser.StatusOf` | esphome/components/ld6001/frame_parser.h:24-30 | a status frame needs 10 bytes; its `initialized` flag holds exactly when byte 9 is 0 |
| `Ld6001Parser.RadarOf` | esphome/components/ld6001/frame_parser.h:47-79 | fault is byte 4 and targets byte 5; there are always 10 slots; slot `t` below `targets` is decoded from bytes `12+8t..`, with distance ×10 and signed x and y ×10; later slots are all zero; no decoding exists only when an occupied slot's bytes are missing, so a frame with no targets always decodes |
| `Ld6001Parser.Dispatch` | esphome/components/ld6001/frame_parser.h:118-132 | a frame yields at most one callback, and one exactly when its type is 0x11 or 0x62 |
| `Ld6001Parser.Drain` | esphome/components/ld6001/frame_parser.h:112-116 | draining leaves a suffix that is empty or starts with 0x4D, and removes only bytes other than 0x4D |
| `Ld6001Parser.StepOf` | esphome/components/ld6001/frame_parser.h:139-165 | a step that resynchronises shortens the buffer, and an accepted frame is a prefix of at least 6 bytes with the rest kept in order (corrected for the stall, see Findings) |
| `Ld6001Parser.StepAsWritten` | esphome/components/ld6001/frame_parser.h:139-165 | one loop pass as written, where a wrong end byte only drains; `AsWrittenTerminatorMismatchStalls` and `AsWrittenHangsOnSixBytes` prove it can stall, and `CorrectionOnlyAffectsTheStall` that it is `StepOf` on every buffer not headed by 0x4D |
| `Ld6001Parser.TryParse` | esphome/components/ld6001/frame_parser.h:134-167 | the drain followed by the frame loop run to completion; `FrameParsesAlone`, `ShortBufferIsKept`, `LoopOnWait` and `LoopOnAccept` state what it leaves and reports, and `FrameParser.TryParseFrame` is proved to compute it |
| `Ld6001Parser.FrameParser.constructor` | esphome/components/ld6001/frame_parser.h:91-94 | a new parser has empty buffers and has reported nothing |
| `Ld6001Parser.FrameParser.PushData` | esphome/components/ld6001/frame_parser.h:96-99 | pushing a byte appends it and leaves the buffer and events that `TryParse` gives |
| `Ld6001Parser.FrameParser.DrainUntilFrameStart` | esphome/components/ld6001/frame_parser.h:112-116 | the erase loop leaves `Drain` of the buffer |
| `Ld6001Parser.FrameParser.ProcessFrame` | esphome/components/ld6001/frame_parser.h:118-132 | processing a frame appends the callback `Dispatch` names |
| `Ld6001Parser.FrameParser.TryParseFrame` | esphome/components/ld6001/frame_parser.h:134-167 | the drain and the frame loop leave the buffer and events of `TryParse` |
| `Ld6001Parser.FrameParser.ParseOnce` | esphome/components/ld6001/frame_parser.h:139-165 | one iteration either shortens the buffer without changing what the loop ends with, or stops with a short buffer and nothing reported |
| `Ld6001Parser.LoopOnWait` | esphome/components/ld6001/frame_parser.h:139-144 | with fewer than 6 bytes, or fewer than `6 + buffer[2]`, nothing is removed and nothing reported |
| `Ld6001Parser.LoopOnAccept` | esphome/components/ld6001/frame_parser.h:162-165 | a well-formed frame at the head is reported and exactly its `6 + buffer[2]` bytes are removed |
| `Ld6001Parser.StepAcceptsExactlyWellFormed` | esphome/components/ld6001/frame_parser.h:139-165 | a frame is accepted exactly when its bytes are present, its last byte is 0x4A and its second-to-last is the sum of the bytes before it |
| `Ld6001Parser.ChecksumMismatchDropsOneByte` | esphome/components/ld6001/frame_parser.h:151-160 | a checksum mismatch drops exactly one byte and goes on without realigning to 0x4D |
| `Ld6001Parser.TerminatorMismatchRealigns` | esphome/components/ld6001/frame_parser.h:146-148 | in the corrected parser, a wrong end byte drops the head and drains to the next 0x4D |
| `Ld6001Parser.ShortBufferIsKept` | esphome/components/ld6001/frame_parser.h:136-144 | a buffer too short after the drain is kept as drained, and nothing is reported |
| `Ld6001Parser.AsWrittenTerminatorMismatchStalls` | esphome/components/ld6001/frame_parser.h:146-148 | as written, a wrong end byte after a 0x4D head removes nothing, so the loop repeats forever |
| `Ld6001Parser.AsWrittenHangsOnSixBytes` | esphome/components/ld6001/frame_parser.h:146-148 | the bytes `4D 00 00 00 00 00` stall the as-written loop; the corrected one empties the buffer |
| `Ld6001Parser.CorrectionOnlyAffectsTheStall` | esphome/components/ld6001/frame_parser.h:139-165 | on every buffer not starting with 0x4D, the corrected step is the step as written |
| `Ld6001Parser.WithChecksum` | esphome/components/ld6001/frame_parser.h:151-152 | appending the checksum and the end byte keeps the body as the frame's prefix |
| `Ld6001Parser.WithChecksumIsFrame` | esphome/components/ld6001/frame_parser.h:139-165 | a body with the right start and length byte becomes a well-formed frame |
| `Ld6001Parser.PrefixOfFrameWaits` | esphome/components/ld6001/frame_parser.h:139-144 | every proper prefix of a frame waits in the buffer untouched |
| `Ld6001Parser.FeedPrefix` | esphome/components/ld6001/frame_parser.h:96-99 | pushing a proper prefix of a frame byte by byte keeps it in the buffer and reports nothing |
| `Ld6001Parser.FeedFrameDecodesOnce` | esphome/components/ld6001/frame_parser.h:96-99 | pushing a frame byte by byte into an empty parser reports it once and empties the buffer |
| `Ld6001Parser.FeedFrameIsOneParse` | esphome/components/ld6001/frame_parser.h:96-99 | pushing a frame byte by byte is the same as parsing it in one go |
| `Ld6001Parser.FeedLastOnly` | esphome/components/ld6001/frame_parser.h:96-99 | when a prefix only accumulates, the last push decides everything |
| `Ld6001Parser.FrameParsesAlone` | esphome/components/ld6001/frame_parser.h:134-167 | parsing a lone frame reports it and leaves nothing |
| `Ld6001Parser.StatusBody` | esphome/components/ld6001/frame_parser.h:24-30 | the body of a status frame is 12 bytes, of type 0x11, with length 8 |
| `Ld6001Parser.StatusRoundTrip` | esphome/components/ld6001/frame_parser.h:24-30 | every status response, encoded and pushed byte by byte, is reported back unchanged |
| `Ld6001Parser.StatusTestVector` | test/ld6001/test_frame_parser/frame_parser.cpp:32-50 | the test's status frame with checksum 113 decodes to versions 1, 2, 3 and 4, not initialized |
| `Ld6001Parser.RadarTestVector` | test/ld6001/test_frame_parser/frame_parser.cpp:95-104 | the test's radar frame decodes to one target with distance 2550, angles 120 and 90, x -1000 and y -1100, and 9 empty slots |
| `Ld6001Parser.RadarWithoutTargets` | esphome/components/ld6001/frame_parser.h:47-79 | a frame announcing no targets decodes, however short, to its fault byte, no targets and ten empty slots |
| `Ld6001Parser.EmptyRadarReported` | esphome/components/ld6001/frame_parser.h:47-79 | the shortest radar frame `4D 62 02 00 00 00 B1 4A`, pushed byte by byte, is reported with fault 0, no targets and ten empty slots |
| `Ld6001Parser.RadarTestSlots` | esphome/components/ld6001/frame_parser.h:47-79 | the slot decoding of the test frame, whatever its last two bytes |
| `Ld6001Parser.GetVersionChecksum` | esphome/components/ld6001/ld6001.cpp:25-29 | the outgoing version request carries the additive checksum of its first four bytes, then 0x4B |
| `Ld6001Parser.NormalRadarRequestChecksum` | esphome/components/ld6001/ld6001.cpp:25-29 | the normal radar request carries its additive checksum, then 0x4B |
| `Ld6001Parser.PreciseRadarRequestChecksum` | esphome/components/ld6001/ld6001.cpp:25-29 | the precise radar request carries its additive checksum, then 0x4B |
| `Ld6001aParser.CountOf` | esphome/components/ld6001a/frame_parser.h:358-359 | the type-1 people count is the frame's byte 8, and none exists for frames of 8 bytes or fewer |
| `Ld6001aParser.AtOkMatch` | esphome/components/ld6001a/frame_parser.h:282-327 | the acknowledgement matcher's outcome: INVALID, PARTIAL, or COMPLETE with `Ack` and the bytes after the line; `PassOnAck`, `AckLineAcknowledged` and `MatchersExclusive` state its part in the pass |
| `Ld6001aParser.Type1Match` | esphome/components/ld6001a/frame_parser.h:329-361 | the type-1 matcher's outcome, reporting `CountOf` of the frame and keeping what follows it; `PassOnType1` and `Type1FrameReported` state its part in the pass |
| `Ld6001aParser.Type2Match` | esphome/components/ld6001a/frame_parser.h:363-389 | the type-2 matcher's outcome, reporting `PeopleOf` and clearing the buffer; `PassOnType2`, `Type2FrameReported` and `Type2RoundTrip` state its part in the pass |
| `Ld6001aParser.ReadMatch` | esphome/components/ld6001a/frame_parser.h:196-280 | the listing matcher's outcome: INVALID without a leading '{', PARTIAL until `ReadEnd` finds the end, then COMPLETE with the rest after the end; `ListingPrefixWaits`, `ListingMatched` and `ListingAnswered` state it for every listing |
| `Ld6001aParser.PassOf` | esphome/components/ld6001a/frame_parser.h:134-159 | one pass of the four matchers in the source's order; `MatchersExclusive` proves that order cannot matter, and the `PassOn*` lemmas which matcher decides for each leading byte |
| `Ld6001aParser.MatchersExclusive` | esphome/components/ld6001a/frame_parser.h:134-159 | on a non-empty buffer at most one matcher does not reject; that one decides the pass, and the pass is INVALID when all reject |
| `Ld6001aParser.CountAfterEraseAgrees` | esphome/components/ld6001a/frame_parser.h:358-359 | reading index 8 after the erase gives the frame's byte 8 when at most 8 bytes follow the frame |
| `Ld6001aParser.CountAfterEraseReadsNextData` | esphome/components/ld6001a/frame_parser.h:358-359 | with more than 8 bytes after the frame, the late read takes a byte of the following data instead |
| `Ld6001aParser.PeopleOf` | esphome/components/ld6001a/frame_parser.h:422-447 | the type-2 people count is the word at `[28,32)` divided by 32, and person `i` is decoded from the 32 bytes at `32i+32`; no decoding exists when those bytes are missing |
| `Ld6001aParser.ReadEnd` | esphome/components/ld6001a/frame_parser.h:201-220 | without "Target exit" there is no end; after the first "Target exit" the listing ends at the first '}', else at the first "s,", else nowhere; the end lies within the buffer |
| `Ld6001aParser.Repair` | esphome/components/ld6001a/frame_parser.h:229-239 | the repaired text is non-empty and ends with the appended '}', which the final `",\r\n}"` substitution keeps |
| `Ld6001aParser.FrameParser.constructor` | esphome/components/ld6001a/frame_parser.h:72 | a new parser is IDLE with an empty buffer and has reported nothing |
| `Ld6001aParser.FrameParser.PushData` | esphome/components/ld6001a/frame_parser.h:76-82 | pushing a byte appends it and runs the driver loop: buffer, state and new events are those of `Drive` |
| `Ld6001aParser.FrameParser.DrainOneByte` | esphome/components/ld6001a/frame_parser.h:391-397 | drops the head byte of a non-empty buffer |
| `Ld6001aParser.FrameParser.TryParseFrame` | esphome/components/ld6001a/frame_parser.h:128-175 | the do-while loop leaves the buffer, state and events of `Drive` |
| `Ld6001aParser.FrameParser.ParsePass` | esphome/components/ld6001a/frame_parser.h:141-174 | one loop iteration either continues on a shorter buffer with the same outcome ahead, or ends with what `Drive` gives |
| `Ld6001aParser.FrameParser.SettlePass` | esphome/components/ld6001a/frame_parser.h:161-173 | the state follows the pass (PARTIAL before INVALID before COMPLETE); an INVALID pass drops one byte, then the cap applies |
| `Ld6001aParser.FrameParser.RunMatchers` | esphome/components/ld6001a/frame_parser.h:146-159 | the matcher loop's flags say whether the pass completed, is partial or is invalid, and its effect on buffer and events is the pass's |
| `Ld6001aParser.FrameParser.MatchAtOk` | esphome/components/ld6001a/frame_parser.h:282-327 | the acknowledgement matcher returns and applies `AtOkMatch` |
| `Ld6001aParser.FrameParser.MatchBinaryType1` | esphome/components/ld6001a/frame_parser.h:329-361 | the type-1 matcher returns and applies `Type1Match`, and sets READING_HEADER once past the header |
| `Ld6001aParser.FrameParser.MatchBinaryType2` | esphome/components/ld6001a/frame_parser.h:363-389 | the type-2 matcher returns and applies `Type2Match` |
| `Ld6001aParser.FrameParser.MatchReadResponse` | esphome/components/ld6001a/frame_parser.h:196-280 | the listing matcher returns and applies `ReadMatch` |
| `Ld6001aParser.FrameParser.TakeResponse` | esphome/components/ld6001a/frame_parser.h:222-276 | erases through the end marker; the repaired text goes to the callbacks only if it parses |
| `Ld6001aParser.FrameParser.ProcessBinaryType2Response` | esphome/components/ld6001a/frame_parser.h:422-447 | clears the whole buffer and reports the people decoded from it |
| `Ld6001aParser.Push` | esphome/components/ld6001a/frame_parser.h:76-82 | after every push the buffer holds at most 1024 bytes |
| `Ld6001aParser.FeedAppend` | esphome/components/ld6001a/frame_parser.h:84-88 | pushing two byte strings in turn is pushing their concatenation |
| `Ld6001aParser.PassOnForeign` | esphome/components/ld6001a/frame_parser.h:141-159 | a byte that starts no message makes the whole pass INVALID |
| `Ld6001aParser.PassOnAck` | esphome/components/ld6001a/frame_parser.h:146-159 | with 'A' at the head, the acknowledgement matcher alone decides the pass |
| `Ld6001aParser.PassOnType1` | esphome/components/ld6001a/frame_parser.h:146-159 | with 0x55 at the head, the type-1 matcher alone decides the pass |
| `Ld6001aParser.PassOnType2` | esphome/components/ld6001a/frame_parser.h:146-159 | with 0x01 at the head, the type-2 matcher alone decides the pass |
| `Ld6001aParser.PassOnRead` | esphome/components/ld6001a/frame_parser.h:146-159 | with '{' at the head, the listing matcher alone decides the pass |
| `Ld6001aParser.ForeignBytesDrained` | esphome/components/ld6001a/frame_parser.h:165-174 | a buffer of bytes that start no message is drained completely and ends INVALID |
| `Ld6001aParser.AckLineAcknowledged` | esphome/components/ld6001a/frame_parser.h:282-327 | an acknowledgement line pushed into an empty buffer is reported once, and the parser ends IDLE and empty |
| `Ld6001aParser.Type1FrameReported` | esphome/components/ld6001a/frame_parser.h:329-361 | a well-formed type-1 frame pushed byte by byte waits in READING_HEADER until its last byte, then reports its count |
| `Ld6001aParser.Type2FrameReported` | esphome/components/ld6001a/frame_parser.h:363-389 | a well-formed type-2 frame pushed byte by byte is reported once with the people it holds |
| `Ld6001aParser.ListingPrefixWaits` | esphome/components/ld6001a/frame_parser.h:196-220 | every non-empty prefix of a listing (a '{', a "Target exit", and neither '}' nor "s," after it) is PARTIAL for the listing matcher |
| `Ld6001aParser.ListingMatched` | esphome/components/ld6001a/frame_parser.h:222-276 | a listing closed by '}' completes whatever follows, leaving exactly what follows, and reports `Ack` and the repaired parameters exactly when the repaired text parses |
| `Ld6001aParser.ListingAnswered` | esphome/components/ld6001a/frame_parser.h:196-280 | a listing pushed byte by byte into an empty buffer is held in READING_HEADER with nothing reported; its '}' leaves the parser IDLE and empty, having reported `Ack` and the parameters exactly when the repaired text parses |
| `Ld6001aParser.PersonAtBytes` | esphome/components/ld6001a/frame_parser.h:429-439 | decoding 32 bytes that encode a person gives that person back |
| `Ld6001aParser.PeopleBytesAt` | esphome/components/ld6001a/frame_parser.h:429-430 | person `i` of an encoded list sits at bytes `32i..32i+32` |
| `Ld6001aParser.Type2Head` | esphome/components/ld6001a/frame_parser.h:423-430 | the frame head carries the magic, the length word `32+32n` and the byte count `32n` of `n` people |
| `Ld6001aParser.Type2FrameOf` | esphome/components/ld6001a/frame_parser.h:363-389 | a type-2 frame for `n` people is `33 + 32n` bytes long |
| `Ld6001aParser.Type2RoundTrip` | esphome/components/ld6001a/frame_parser.h:363-447 | every list of up to 31 people, framed, is recognised and decodes back to the same list |
| `Ld6001aParser.Type2FrameOfReported` | esphome/components/ld6001a/frame_parser.h:422-447 | every framed list of people, pushed byte by byte, is reported back unchanged |
| `Ld6001aParser.AckTestVector` | test/ld6001a/test_frame_parser/frame_parser.cpp:44 | the test's "AT+OK\r\n" line is acknowledged and the parser ends IDLE |
| `Ld6001aParser.SkipTestVector` | test/ld6001a/test_frame_parser/frame_parser.cpp:61-78 | "AT" waits, each '-' is dropped in state INVALID, and the acknowledgement that follows is still reported |
| `Ld6001aParser.Type1TestVector` | test/ld6001a/test_frame_parser/frame_parser.cpp:93-106 | the test's 10-byte type-1 frame waits in READING_HEADER after 4 bytes and then reports a count of 0 |
| `Ld6001aParser.CorruptedTestVector` | test/ld6001a/test_frame_parser/frame_parser.cpp:176-187 | the test's frame with a corrupted checksum produces no callback and ends INVALID |
| `Ld6001aParser.Type1TestChecksum` | test/ld6001a/test_frame_parser/frame_parser.cpp:93-106 | the XOR of the test's type-1 body is 0x0E |
| `Ld6001bParser.PersonAt` | esphome/components/ld6001b/frame_parser.h:442-451 | person `i` has id `i` |
| `Ld6001bParser.PeopleOf` | esphome/components/ld6001b/frame_parser.h:438-457 | the count is byte 4; person `i` takes its five values from bytes `6+5i..10+5i`; no decoding exists when the count byte, or the bytes of some counted person, are missing |
| `Ld6001bParser.MethodOf` | esphome/components/ld6001b/frame_parser.h:459 | `buffer[5] << 4 \| buffer[4]` fits in 12 bits |
| `Ld6001bParser.HeartBeatOf` | esphome/components/ld6001b/frame_parser.h:458-477 | a heartbeat needs 41 bytes; its method is `MethodOf(b4, b5)`, `interferes` is byte 6, the scan interval the 32-bit word at 6, the monitor, heart-beat and range intervals the 16-bit words at 10, 12 and 14, the sensitivity byte 16, and door window `i` the four bytes at `17+4i` |
| `Ld6001bParser.NoPeopleDecodeEmpty` | esphome/components/ld6001b/frame_parser.h:439-456 | a count of zero decodes to the empty list, whatever the buffer's length past byte 4 |
| `Ld6001bParser.MethodBits` | esphome/components/ld6001b/frame_parser.h:459 | the method's low nibble is that of byte 4, and the rest is byte 5 OR-ed with byte 4's high nibble |
| `Ld6001bParser.MethodBytesCollide` | esphome/components/ld6001b/frame_parser.h:459 | the 4-bit shift lets different byte pairs give the same method: `10 00` and `00 01` both give 0x10 |
| `Ld6001bParser.ScanIntervalOverlapsInterferes` | esphome/components/ld6001b/frame_parser.h:460-462 | the scan interval's low byte is the `interferes` byte, since both are read from byte 6 |
| `Ld6001bParser.Type1Report` | esphome/components/ld6001b/frame_parser.h:437-480 | a type-1 frame reports people exactly when its type byte is 0x01, and a heartbeat otherwise |
| `Ld6001bParser.AtOkMatch` | esphome/components/ld6001b/frame_parser.h:299-344 | the acknowledgement matcher's outcome, the LD6001A one; `PassOnAck`, `AckLineAcknowledged` and `MatchersExclusive` state its part in the pass |
| `Ld6001bParser.Type1Match` | esphome/components/ld6001b/frame_parser.h:346-376 | the type-1 matcher's outcome, reporting `Type1Report` and clearing the buffer; `PassOnType1` and `Type1FrameReported` state its part in the pass |
| `Ld6001bParser.Type1MatchAsWritten` | esphome/components/ld6001b/frame_parser.h:346-376 | the LD6001B type-1 matcher as written, taking the length and type bytes from storage past the end when the buffer holds only 2 or 3 bytes; `Type1AsWrittenAgreesLater` and `Type1AsWrittenDecidesEarly` prove where it departs from `Type1Match` |
| `Ld6001bParser.Type1AsWrittenAgreesLater` | esphome/components/ld6001b/frame_parser.h:355-363 | with 4 or more bytes, the as-written LD6001B type-1 matcher is the corrected one |
| `Ld6001bParser.Type1AsWrittenDecidesEarly` | esphome/components/ld6001b/frame_parser.h:355-363 | as written, `55 AA 01` is rejected, and `55 AA 00` completes and reports by the stale type byte, while the corrected matcher waits on both |
| `Ld6001bParser.Type2Match` | esphome/components/ld6001b/frame_parser.h:378-404 | the type-2 matcher's outcome, clearing the buffer with no callback; `PassOnType2` and `Type2FrameSilent` state its part in the pass |
| `Ld6001bParser.ReadMatch` | esphome/components/ld6001b/frame_parser.h:231-297 | the listing matcher's outcome: INVALID without a leading '{', PARTIAL until `ReadEnd` finds the end, then COMPLETE with the version marker's presence; `ListingPrefixWaits`, `ListingMatched` and `ListingAnswered` state it for every listing |
| `Ld6001bParser.PassOf` | esphome/components/ld6001b/frame_parser.h:150-181 | one pass of the four listed matchers in the source's order; `MatchersExclusive` proves that order cannot matter, and the `PassOn*` lemmas which matcher decides for each leading byte |
| `Ld6001bParser.MatchersExclusive` | esphome/components/ld6001b/frame_parser.h:156-181 | on a non-empty buffer at most one matcher does not reject; that one decides the pass, and the pass is INVALID when all reject |
| `Ld6001bParser.ReadEnd` | esphome/components/ld6001b/frame_parser.h:236-248 | without "Monitor_Time" there is no end; after the first "Monitor_Time" the listing ends at the first '}', and nowhere without one; the end lies within the buffer |
| `Ld6001bParser.ReadEndNeedsBrace` | esphome/components/ld6001b/frame_parser.h:243-248 | without a '}' the listing never ends: there is no "s," fallback |
| `Ld6001bParser.Repair` | esphome/components/ld6001b/frame_parser.h:262-265 | the repaired listing always ends with the appended '}' |
| `Ld6001bParser.OnlyReadSeesVersion` | esphome/components/ld6001b/frame_parser.h:250-254 | only the listing matcher can set `new_version` |
| `Ld6001bParser.SaveParaFailWouldReport` | esphome/components/ld6001b/frame_parser.h:199-216 | `match_save_para_fail_`, if it were listed, would report the marker and consume it |
| `Ld6001bParser.FrameParser.constructor` | esphome/components/ld6001b/frame_parser.h:88 | a new parser is IDLE, empty, has reported nothing and has not seen the new version |
| `Ld6001bParser.FrameParser.PushData` | esphome/components/ld6001b/frame_parser.h:92-98 | pushing a byte runs the driver loop; `new_version`, once set, stays set |
| `Ld6001bParser.FrameParser.DrainOneByte` | esphome/components/ld6001b/frame_parser.h:406-412 | drops the head byte of a non-empty buffer |
| `Ld6001bParser.FrameParser.TryParseFrame` | esphome/components/ld6001b/frame_parser.h:150-197 | the do-while loop leaves the buffer, state, events and version flag of `Drive` |
| `Ld6001bParser.FrameParser.ParsePass` | esphome/components/ld6001b/frame_parser.h:163-196 | one loop iteration continues on a shorter buffer with the same outcome ahead, or ends with what `Drive` gives |
| `Ld6001bParser.FrameParser.SettlePass` | esphome/components/ld6001b/frame_parser.h:183-195 | the state follows the pass; an INVALID pass drops one byte, then the cap applies |
| `Ld6001bParser.FrameParser.RunMatchers` | esphome/components/ld6001b/frame_parser.h:168-181 | the matcher loop's flags classify the pass, and its effect on buffer, events and version flag is the pass's |
| `Ld6001bParser.FrameParser.MatchAtOk` | esphome/components/ld6001b/frame_parser.h:299-344 | the acknowledgement matcher is the LD6001A one |
| `Ld6001bParser.FrameParser.MatchBinaryType1` | esphome/components/ld6001b/frame_parser.h:346-376 | the type-1 matcher returns and applies `Type1Match`, and sets READING_HEADER once length and type are present |
| `Ld6001bParser.FrameParser.DecodePeople` | esphome/components/ld6001b/frame_parser.h:439-456 | the people loop returns exactly `PeopleOf` of the buffer |
| `Ld6001bParser.FrameParser.DecodeHeartBeat` | esphome/components/ld6001b/frame_parser.h:458-475 | the heart-beat fields and the door-window loop return exactly `HeartBeatOf` of the buffer |
| `Ld6001bParser.FrameParser.ProcessBinaryType1Response` | esphome/components/ld6001b/frame_parser.h:437-480 | reports people or a heartbeat after the type byte and clears the entire buffer |
| `Ld6001bParser.FrameParser.MatchBinaryType2` | esphome/components/ld6001b/frame_parser.h:378-404 | the type-2 matcher returns and applies `Type2Match` |
| `Ld6001bParser.FrameParser.ProcessBinaryType2Response` | esphome/components/ld6001b/frame_parser.h:482-484 | a type-2 frame only clears the buffer |
| `Ld6001bParser.FrameParser.MatchReadResponse` | esphome/components/ld6001b/frame_parser.h:231-297 | the listing matcher returns and applies `ReadMatch` and sets `new_version` when it saw the marker |
| `Ld6001bParser.FrameParser.TakeResponse` | esphome/components/ld6001b/frame_parser.h:256-290 | erases through '}'; when the repaired text parses, the acknowledgement precedes the parameters |
| `Ld6001bParser.FrameParser.MatchSaveParaFail` | esphome/components/ld6001b/frame_parser.h:199-216 | the save-failure matcher returns and applies its outcome |
| `Ld6001bParser.DriveKeepsVersionSeen` | esphome/components/ld6001b/frame_parser.h:150-197 | the version can be seen only by a loop that ends IDLE |
| `Ld6001bParser.Push` | esphome/components/ld6001b/frame_parser.h:92-98 | after a push the buffer holds at most 1024 bytes, and a set version flag stays set |
| `Ld6001bParser.FeedKeepsVersion` | esphome/components/ld6001b/frame_parser.h:121 | `new_version` is never reset, whatever bytes follow |
| `Ld6001bParser.FeedAppend` | esphome/components/ld6001b/frame_parser.h:92-98 | pushing two byte strings in turn is pushing their concatenation |
| `Ld6001bParser.PassOnForeign` | esphome/components/ld6001b/frame_parser.h:163-181 | a byte that starts no message makes the whole pass INVALID |
| `Ld6001bParser.PassOnAck` | esphome/components/ld6001b/frame_parser.h:168-181 | with 'A' at the head, the acknowledgement matcher alone decides the pass |
| `Ld6001bParser.PassOnType1` | esphome/components/ld6001b/frame_parser.h:168-181 | with 0x55 at the head, the type-1 matcher alone decides the pass |
| `Ld6001bParser.PassOnType2` | esphome/components/ld6001b/frame_parser.h:168-181 | with 0x01 at the head, the type-2 matcher alone decides the pass |
| `Ld6001bParser.PassOnRead` | esphome/components/ld6001b/frame_parser.h:168-181 | with '{' at the head, the listing matcher alone decides the pass |
| `Ld6001bParser.ForeignByteDropped` | esphome/components/ld6001b/frame_parser.h:183-196 | a foreign byte pushed into an empty buffer is dropped, and the parser ends INVALID |
| `Ld6001bParser.ForeignStreamDropped` | esphome/components/ld6001b/frame_parser.h:183-196 | a stream of foreign bytes is dropped byte by byte |
| `Ld6001bParser.SaveParaFailDropped` | esphome/components/ld6001b/frame_parser.h:156-161 | "Save Para Fail\r\n" is never reported: its bytes are dropped and the parser ends INVALID |
| `Ld6001bParser.Type1FrameReported` | esphome/components/ld6001b/frame_parser.h:346-376 | a well-formed type-1 frame pushed byte by byte waits until its last byte, then reports once and empties the buffer |
| `Ld6001bParser.Type2FrameSilent` | esphome/components/ld6001b/frame_parser.h:482-484 | a well-formed type-2 frame is consumed with no callback |
| `Ld6001bParser.AckLineAcknowledged` | esphome/components/ld6001b/frame_parser.h:299-344 | an acknowledgement line pushed into an empty buffer is reported once, and the parser ends IDLE and empty with its version flag unchanged |
| `Ld6001bParser.ListingPrefixWaits` | esphome/components/ld6001b/frame_parser.h:236-248 | every non-empty prefix of a listing (a '{', a "Monitor_Time", and no '}' after it) is PARTIAL for the listing matcher |
| `Ld6001bParser.ListingMatched` | esphome/components/ld6001b/frame_parser.h:250-290 | a listing closed by '}' completes whatever follows, leaving exactly what follows, records whether "SoftVerison" occurs, and reports `Ack` and the parameters, named by the old flag or that marker, exactly when the repaired text parses |
| `Ld6001bParser.VersionInListing` | esphome/components/ld6001b/frame_parser.h:250-254 | closing a listing with '}' neither creates nor hides the "SoftVerison" marker |
| `Ld6001bParser.ListingAnswered` | esphome/components/ld6001b/frame_parser.h:231-297 | a listing pushed byte by byte into an empty buffer is held in READING_HEADER with nothing reported; its '}' leaves the parser IDLE and empty, with `new_version` set exactly when it was set or the listing holds "SoftVerison", and `Ack` and the parameters reported exactly when the repaired text parses |
| `Ld6001bParser.PeopleBody` | esphome/components/ld6001b/frame_parser.h:438-457 | a people body for `n` people is `4+5n` bytes with its length byte set |
| `Ld6001bParser.PeopleFrameWindow` | esphome/components/ld6001b/frame_parser.h:443 | person `i` of a people frame sits at bytes `6+5i..11+5i` |
| `Ld6001bParser.PeopleRoundTrip` | esphome/components/ld6001b/frame_parser.h:438-457 | every list of people numbered `0..n-1`, framed, decodes back to the same list |
| `Ld6001bParser.PeopleFrameReported` | esphome/components/ld6001b/frame_parser.h:437-480 | every such framed list, pushed byte by byte, is reported once and unchanged |
| `Commands.KeyCommandRoundTrip` | esphome/components/ld6001a/command_queue.h:37-41 | reading the value back out of `AT+KEY=<decimal>\n` gives the value |
| `Commands.KeyedCommand` | esphome/components/ld6001a/command_queue.h:37-41 | a parameterised command's line carries its value, as `%d` writes it (no leading zero, no `-0`), and keeps its callback |
| `Commands.CarriesValueIsKeyCommand` | esphome/components/ld6001a/command_queue.h:37-41 | a line that carries a value this way is exactly `prefix`, `%d` of the value and a newline, so the factories' contracts pin their whole line |
| `Commands.FixedCommand` | esphome/components/ld6001a/command_queue.h:21-35 | a fixed command is a bare `AT+WORD\n` line with the given word and callback |
| `Commands.BareLineCarriesNoValue` | esphome/components/ld6001a/command_queue.h:21-35 | a fixed line never parses as a keyed command |
| `Commands.ReadCommand` | esphome/components/ld6001a/command_queue.h:21 | the READ command is the bare line for READ |
| `Commands.StartCommand` | esphome/components/ld6001a/command_queue.h:23-25 | the START command is the bare line for START |
| `Commands.StopCommand` | esphome/components/ld6001a/command_queue.h:27 | the STOP command is the bare line for STOP |
| `Commands.ResetCommand` | esphome/components/ld6001a/command_queue.h:29-31 | the RESET command is the bare line for RESET |
| `Commands.RestoreCommand` | esphome/components/ld6001a/command_queue.h:33-35 | the RESTORE command is the bare line for RESTORE |
| `Commands.FixedCommandText` | esphome/components/ld6001b/command_queue.h:20-34 | a fixed command is exactly the text "AT+", the word and a newline, on both variants |
| `Commands.FixedCommandsDistinct` | esphome/components/ld6001a/command_queue.h:21-35 | the five fixed commands are pairwise different lines |
| `Commands.RangeCommand` | esphome/components/ld6001a/command_queue.h:37-41 | for radii 100 to 500, the line is `AT+RANGE=` and the radius |
| `Commands.TargetExitBoundaryTimeCommand` | esphome/components/ld6001a/command_queue.h:43-49 | for multiples of 100 from 200 to 100000 ms, the line carries the time in tenths of a second |
| `Commands.HeartBeatIntervalCommand` | esphome/components/ld6001a/command_queue.h:51-55 | for 10 to 999 s, the line is `AT+HEATIME=` and the interval |
| `Commands.InstallationHeightCommand` | esphome/components/ld6001a/command_queue.h:57-60 | for 50 to 500 cm, the line is `AT+HEIGHTD=` and the height |
| `Commands.RangeSensitivityCommand` | esphome/components/ld6001a/command_queue.h:62-65 | for 1 to 9, the line is `AT+DPKTH=` and the sensitivity |
| `Commands.XMinCommand` | esphome/components/ld6001a/command_queue.h:67-70 | for -500 to -20, the line is `AT+XNega=` and the negative bound |
| `Commands.XMaxCommand` | esphome/components/ld6001a/command_queue.h:72-75 | for 20 to 500, the line is `AT+XPosi=` and the bound |
| `Commands.YMinCommand` | esphome/components/ld6001a/command_queue.h:77-80 | for -500 to -20, the line is `AT+YNega=` and the negative bound |
| `Commands.YMaxCommand` | esphome/components/ld6001a/command_queue.h:82-85 | for 20 to 500, the line is `AT+YPosi=` and the bound |
| `Commands.ModeNumber` | esphome/components/ld6001a/command_queue.h:8-13 | the LD6001A protocol modes are numbered 0 to 3 |
| `Commands.ModeNumberInjective` | esphome/components/ld6001a/command_queue.h:8-13 | different modes have different numbers |
| `Commands.SetProtocolModeCommand` | esphome/components/ld6001a/command_queue.h:87-89 | the DEBUG line carries the mode's number |
| `Commands.SetMovingTargetDisappearanceTimeCommand` | esphome/components/ld6001a/command_queue.h:91-97 | for multiples of 100 from 500 to 100000 ms, the `AT+Moving=` line carries the time in tenths of a second |
| `Commands.SetStaticTargetDisappearanceTimeCommand` | esphome/components/ld6001a/command_queue.h:98-104 | for multiples of 100 from 500 to 100000 ms, the `AT+Static=` line carries the time in tenths of a second |
| `Ld6001bCommands.ScanIntervalCommand` | esphome/components/ld6001b/command_queue.h:42-46 | for 100 to 10000, the line is `AT+TIME=` and the interval |
| `Ld6001bCommands.MonitorIntervalCommand` | esphome/components/ld6001b/command_queue.h:48-52 | for 1 to 99, the line is `AT+MONTIME=` and the interval |
| `Ld6001bCommands.InstallationHeightCommand` | esphome/components/ld6001b/command_queue.h:60-63 | for 50 to 500 cm, the line is `AT+HEIGHT=` (not `HEIGHTD`) and the height |
| `Ld6001bCommands.SensitivityCommand` | esphome/components/ld6001b/command_queue.h:70-73 | for 1 to 19, the line is `AT+SENS=` and the sensitivity |
| `Ld6001bCommands.ModeNumber` | esphome/components/ld6001b/command_queue.h:8-12 | the LD6001B protocol modes are numbered 0 to 2 |
| `Ld6001bCommands.ModeNumberInjective` | esphome/components/ld6001b/command_queue.h:8-12 | different modes have different numbers |
| `Ld6001bCommands.ModeNumbersAgree` | esphome/components/ld6001b/command_queue.h:8-12 | each LD6001B mode has the number of the LD6001A mode of the same name |
| `Ld6001bCommands.SetProtocolModeCommand` | esphome/components/ld6001b/command_queue.h:75-77 | the DEBUG line carries the mode's number |
| `CommandQueues.TimeoutTestsAgree` | esphome/components/ld6001a/command_queue.h:149-152 | away from the 32-bit wrap, the as-written timeout test and the corrected one agree |
| `CommandQueues.TimedOutAsWritten` | esphome/components/ld6001a/command_queue.h:149 | the timeout test as written, with the `uint32` sum wrapping; `SpuriousTimeoutAsWritten`, `MissedTimeoutAsWritten` and `TimeoutTestsAgree` prove where it differs from `TimedOut` |
| `CommandQueues.TimedOut` | esphome/components/ld6001a/command_queue.h:149-152 | the timeout test on elapsed time; `TimedOutMeansElapsed` proves it fires exactly when more than 5000 ms have passed on the wrapping clock |
| `CommandQueues.TrySendNextOf` | esphome/components/ld6001a/command_queue.h:145-159 | `trySendNext` on the queue's state (corrected for the wrap of the timeout sum, see Findings); `TrySendNextSendsHeadOnly`, `SendsHeadWhenIdle`, `SingleInFlight`, `TimeoutResends` and `NoSenderNoSend` state what it does, and `CommandQueue.TrySendNext` is proved to compute it |
| `CommandQueues.EnqueueOf` | esphome/components/ld6001a/command_queue.h:111-114 | `enqueue` on the queue's state; `EnqueueAppends` and `EnqueueOnIdleSends` state what it does |
| `CommandQueues.SendOf` | esphome/components/ld6001a/command_queue.h:116-120 | `send` on the queue's state; `SendBypasses` states that it only writes the line |
| `CommandQueues.HandleResponseOf` | esphome/components/ld6001a/command_queue.h:126-138 | `handleResponse` on the queue's state; `HandleResponseIgnored` and `HandleResponsePopsOne` state what it does |
| `CommandQueues.SpuriousTimeoutAsWritten` | esphome/components/ld6001a/command_queue.h:149 | as written, a command sent at 0xFFFFF000 times out one millisecond later |
| `CommandQueues.MissedTimeoutAsWritten` | esphome/components/ld6001a/command_queue.h:149 | as written, a command sent at 0xFFFF0000 is still awaited 75536 ms later |
| `CommandQueues.TimedOutMeansElapsed` | esphome/components/ld6001a/command_queue.h:149-152 | the corrected test fires exactly when more than 5000 ms have elapsed on the wrapping clock |
| `CommandQueues.TrySendNextSendsHeadOnly` | esphome/components/ld6001a/command_queue.h:145-159 | trying to send never changes the queue and sends at most the head's line |
| `CommandQueues.SendsHeadWhenIdle` | esphome/components/ld6001a/command_queue.h:154-158 | with nothing awaited, the head goes out and its time is recorded |
| `CommandQueues.SingleInFlight` | esphome/components/ld6001a/command_queue.h:149-154 | while an answer is awaited and has not timed out, nothing is sent and nothing changes |
| `CommandQueues.TimeoutResends` | esphome/components/ld6001a/command_queue.h:149-158 | a timed-out command is not dropped: it is sent again and the queue keeps its length |
| `CommandQueues.NoSenderNoSend` | esphome/components/ld6001a/command_queue.h:154 | without a sender nothing is sent and no answer is awaited |
| `CommandQueues.EnqueueAppends` | esphome/components/ld6001a/command_queue.h:111-114 | a command goes to the back, and the ones ahead keep their order |
| `CommandQueues.EnqueueOnIdleSends` | esphome/components/ld6001b/command_queue.h:84-87 | on an idle, empty queue a new command is sent at once |
| `CommandQueues.HandleResponseIgnored` | esphome/components/ld6001a/command_queue.h:126-128 | an answer with nothing awaited, or with an empty queue, changes nothing |
| `CommandQueues.HandleResponsePopsOne` | esphome/components/ld6001a/command_queue.h:126-138 | an awaited answer goes to the head's callback only, exactly one command leaves the queue, and the next one, if any, is sent |
| `CommandQueues.SendBypasses` | esphome/components/ld6001a/command_queue.h:116-120 | `send` writes the line and changes neither the queue nor the awaited answer |
| `CommandQueues.OperationsKeepInFlightQueued` | esphome/components/ld6001a/command_queue.h:111-159 | every operation keeps an awaited command in the queue |
| `CommandQueues.ZeroTimeSendsTwice` | esphome/components/ld6001a/command_queue.h:157 | a command sent when the clock reads 0 looks not awaited, and the next call sends it again |
| `CommandQueues.CommandQueue.constructor` | esphome/components/ld6001a/command_queue.h:109 | a new queue is empty and awaits nothing |
| `CommandQueues.CommandQueue.Enqueue` | esphome/components/ld6001a/command_queue.h:111-114 | appends and tries to send, as `EnqueueOf` states |
| `CommandQueues.CommandQueue.Send` | esphome/components/ld6001a/command_queue.h:116-120 | hands the line to the sender, if there is one |
| `CommandQueues.CommandQueue.Loop` | esphome/components/ld6001a/command_queue.h:122-124 | tries to send, as `TrySendNextOf` states |
| `CommandQueues.CommandQueue.HandleResponse` | esphome/components/ld6001b/command_queue.h:99-111 | with an answer awaited: head callback, pop, clear, try to send; otherwise nothing |
| `CommandQueues.CommandQueue.TrySendNext` | esphome/components/ld6001a/command_queue.h:145-159 | forgets a timed-out answer, then sends the head when idle, as `TrySendNextOf` states (corrected for the wrap of the timeout sum, see Findings) |
| `TargetTrackers.FirstIndex` | esphome/components/ld6001a/target_tracker.h:33-43 | the first position in the snapshot that holds a given id |
| `TargetTrackers.Absorbed` | esphome/components/ld6001a/target_tracker.h:35 | `targets_` after the snapshot loop; `AbsorbedKeepsLast` and `AbsorbedKeys` state its keys and values |
| `TargetTrackers.EnterEvents` | esphome/components/ld6001a/target_tracker.h:37-40 | the enter events of a snapshot; `EnterEventsExact`, `EnterEventsNew` and `EnterEventsInFirstOccurrenceOrder` state which ids they name and in what order |
| `TargetTrackers.Dwell` | esphome/components/ld6001a/target_tracker.h:47 | the dwell in whole seconds; `DwellIsElapsedSeconds` proves it is the elapsed time on the wrapping clock |
| `TargetTrackers.UpdatedBy` | esphome/components/ld6001a/target_tracker.h:25-53 | the state `update` leaves; `UpdateEnterEvents`, `UpdateLeftEvents`, `UpdateKeepsPresent`, `UpdateKeepsTargets`, `NoEventFor` and `EntryBeforeLastSeen` state its consequences, and `TargetTracker.Update` is proved to reach it |
| `TargetTrackers.AbsorbedKeepsLast` | esphome/components/ld6001a/target_tracker.h:35 | `targets_` keeps the attributes of an id's last occurrence in the snapshot, and keeps ids the snapshot lacks unchanged |
| `TargetTrackers.AbsorbedKeys` | esphome/components/ld6001a/target_tracker.h:35 | `targets_` gains the snapshot's ids and loses none |
| `TargetTrackers.EnterEventsExact` | esphome/components/ld6001a/target_tracker.h:37-40 | an enter event fires for an id exactly when it is in the snapshot and had no entry time |
| `TargetTrackers.EnterEventsNew` | esphome/components/ld6001a/target_tracker.h:37-40 | every enter event names a snapshot id that had no entry time |
| `TargetTrackers.EnterEventsInFirstOccurrenceOrder` | esphome/components/ld6001a/target_tracker.h:33-43 | enter events come once per id, in the order of first occurrence in the snapshot |
| `TargetTrackers.LeftEventsCoverGone` | esphome/components/ld6001a/target_tracker.h:45-52 | every tracked id missing from the snapshot gets a left event with its dwell time |
| `TargetTrackers.DwellIsElapsedSeconds` | esphome/components/ld6001a/target_tracker.h:47 | the dwell time is the elapsed time on the wrapping 32-bit clock, in whole seconds |
| `TargetTrackers.TargetTracker.constructor` | esphome/components/ld6001a/target_tracker.h:23 | a new tracker has empty maps and has emitted nothing |
| `TargetTrackers.TargetTracker.Update` | esphome/components/ld6001a/target_tracker.h:25-53 | `update` leaves the state `UpdatedBy` describes: maps keyed by the snapshot's ids, entry times kept or set to now, last-seen times now, enters then lefts |
| `TargetTrackers.AbsorbAll` | esphome/components/ld6001a/target_tracker.h:33-43 | the snapshot loop leaves `targets_`, the entry and last-seen times and the enter events the invariant describes |
| `TargetTrackers.ForgetUnseen` | esphome/components/ld6001a/target_tracker.h:45-52 | the unseen loop erases exactly the gone ids from both time maps and emits one left event for each |
| `TargetTrackers.EntryBeforeLastSeen` | esphome/components/ld6001a/target_tracker.h:38-42 | with a clock that does not go back, entry time is at most last-seen time, which is at most now, for every tracked id |
| `TargetTrackers.UpdateEnterEvents` | esphome/components/ld6001a/target_tracker.h:33-43 | the update's events are the old ones, then distinct enter events for exactly the new ids in snapshot order, then the left events |
| `TargetTrackers.UpdateLeftEvents` | esphome/components/ld6001a/target_tracker.h:45-52 | left events name exactly the previously entered ids missing from the snapshot, one for each, with dwell `(now - entry) / 1000`, and those ids lose both records |
| `TargetTrackers.NoEventFor` | esphome/components/ld6001a/target_tracker.h:25-53 | an id that is neither new nor gone gets no event |
| `TargetTrackers.UpdateKeepsPresent` | esphome/components/ld6001a/target_tracker.h:37-42 | an id present before and after keeps its entry time, gets `now` as last-seen time, and no event |
| `TargetTrackers.UpdateKeepsTargets` | esphome/components/ld6001a/target_tracker.h:35 | `targets_` keys only grow, and a stale id without an entry time keeps its attributes and gets no event |
| `Zones.Contains` | esphome/components/ld6001b/ld6001b.h:47-49 | `contains`; `ContainsByAxis`, `CornersContained`, `InvertedIsEmpty`, `DefaultHoldsOnlyOrigin` and `CornersDecideInclusion` state which points it holds |
| `Zones.ContainsByAxis` | esphome/components/ld6001b/ld6001b.h:47-49 | a point is in the zone exactly when each coordinate lies between that axis's bounds, bounds included |
| `Zones.CornersContained` | esphome/components/ld6001b/ld6001b.h:48 | the four corners of a zone belong to it |
| `Zones.InvertedIsEmpty` | esphome/components/ld6001/ld6001.h:62 | a zone with a lower bound above its upper bound holds no point |
| `Zones.DefaultHoldsOnlyOrigin` | esphome/components/ld6001b/ld6001b.h:36-49 | the default all-zero zone holds the origin and nothing else |
| `Zones.ContainsIgnoresCount` | esphome/components/ld6001/ld6001.h:54-63 | whether a zone holds a point does not depend on its target count |
| `Zones.CornersDecideInclusion` | esphome/components/ld6001/ld6001.h:61-63 | a zone that holds two opposite corners of another zone holds all of it |

## Left out

- The component glue is not part of this model: `ld6001.cpp`, `ld6001a.cpp` and `ld6001b.cpp` hold the UART loop, sensor publishing with floating-point comparisons, preference storage and GPIO resets. The one exception is the LD6001 request constants, whose checksums are proved.
- The Python configuration and the number and button entity classes are not part of this model. They are code generation and one-line forwards to the component, including the LD6001B scan-interval number that forwards to the heartbeat setter.
- JSON parsing is a foreign library. It is the parameter `parses`, and the fields it would extract from the listing are not modelled.
- Floating-point values are not computed. The LD6001A person fields are kept as the raw 32-bit words of the floats. The LD6001B person fields are kept as the bytes the source converts with `(float)`, which loses nothing.
- Byte order is fixed as little-endian for `read_uint16`, `read_uint32` and the unions.
- `millis()` is the `now` parameter; logging (`ESP_LOG*`) is dropped. The handler, sender and queue callbacks are recorded in event logs, and the sender's presence is a flag fixed at construction.
- The `push_data` overload for arrays, and `push_float` and `push_uint32`, are the single-byte push repeated (`FeedAppend`). They have no rows of their own.
- The field `body_len_`, the copy `current_` (LD6001) and `current_frame_` are intermediate state that no result depends on, and are not kept as fields.
- Payload reads past the end of a frame (status, occupied radar slots, LD6001A people, counted LD6001B people and heartbeat) are undefined in the source. They yield a `None` payload here; a payload whose count is zero reads nothing past its count and decodes; reads past the end that steer control flow are under Findings.
- Ld6001aParser.CountOf: the model reports the frame's own byte 8 (`CountOf`). The source reads index 8 after the erase, which is storage past the end unless more than 8 bytes follow the frame. `CountAfterEraseAgrees` and `CountAfterEraseReadsNextData` describe when the two differ.
- Commands and Ld6001bCommands factories (`RangeCommand` to `SetStaticTargetDisappearanceTimeCommand`, `ScanIntervalCommand` to `SensitivityCommand`): each `assert` of the source (esphome/components/ld6001a/command_queue.h:38-101, esphome/components/ld6001b/command_queue.h:37-71) is a `requires`. The abort an out-of-range value causes is not modelled.
- A remark on the source: the LD6001B scan-interval number accepts 100 to 10000 (esphome/components/ld6001b/number/__init__.py:199-204) and forwards to `config_heartbeat_interval` (esphome/components/ld6001b/number/scan_interval_number.cpp:8-11, esphome/components/ld6001b/ld6001b.cpp:136-143), whose factory asserts 10 to 999 (esphome/components/ld6001b/command_queue.h:55). A setting of 1000 or more fails that assert. The forwarding is glue and is outside this model.
- Ld6001aParser.Outcomes: its contract says only that there are four outcomes. `MatchersExclusive` proves that their order cannot matter, and the `PassOn*` lemmas say which matcher decides for each leading byte.
- Ld6001bParser.Outcomes: the same as for LD6001A.
- The LD6001B heartbeat's `method` field is named `detection` in the model, because `method` is a Dafny keyword.
- TargetTrackers.TargetTracker.Update: left events are emitted in an arbitrary order, as the source's `unordered_set` iteration is. The contracts state the set of left events and their number, not their order. The source erases each snapshot id from `unseen` inside the snapshot loop; the model subtracts the snapshot's ids after that loop, which gives the same set.
- The tracker's event handler receives its calls as `Entered(id)` and `Left(id, dwell)` events in a log.
- CommandQueues.TrySendNextOf: uses the corrected elapsed-time test `TimedOut`, not the wrapping sum of the source; so do `EnqueueOf`, `HandleResponseOf` and the queue's methods. `TimedOutAsWritten`, `SpuriousTimeoutAsWritten` and `MissedTimeoutAsWritten` describe where the source's test differs.

## Findings

| source | as written | input that shows it | evidently intended | confidence | as-written member | corrected member |
|---|---|---|---|---|---|---|
| esphome/components/ld6001/frame_parser.h:146-148 | on a wrong end byte the loop calls `drain_until_frame_start_`, which removes nothing while the head is 0x4D, then `continue`s | the six bytes `4D 00 00 00 00 00` (length 0, end byte 00 instead of 4A): `try_parse_frame_` never returns | drop the head byte, then drain to the next 0x4D | high; not executed | `Ld6001Parser.AsWrittenHangsOnSixBytes` | `Ld6001Parser.TerminatorMismatchRealigns` |
| esphome/components/ld6001a/frame_parser.h:340-347 | after checking only for fewer than 2 bytes, the type-1 matcher reads the length byte `buffer_[2]`; the LD6001B matcher (esphome/components/ld6001b/frame_parser.h:355-363) also reads the type byte `buffer_[3]` with 2 or 3 bytes | LD6001A: the bare header `55 AA` with 0 in the storage past the end is INVALID and dropped. LD6001B: `55 AA 01` is INVALID, and `55 AA 00` is COMPLETE with the stale type byte | wait (PARTIAL) until the length (and type) bytes are present | medium; not executed | `Matching.Type1AsWrittenRejectsHeader`, `Ld6001bParser.Type1AsWrittenDecidesEarly` | `Matching.Type1FrameRecognised`, `Ld6001bParser.Type1FrameReported` |
| esphome/components/ld6001a/frame_parser.h:371-384 | the type-2 matcher reads the length from bytes `[8,12)` and validates once that many bytes are there, but `validate_frame` reads bytes `[12,16)`, which a length below 16 does not cover | the 12-byte header `01 02 03 04 05 06 07 08 0B 00 00 00`: COMPLETE or INVALID depending on storage past the end | wait until 16 bytes are present | medium; not executed | `Matching.Type2AsWrittenReadsStaleChecksum` | `Matching.Type2FrameRecognised` |
| esphome/components/ld6001a/command_queue.h:149 | the timeout test `waitingForAck + 5000 < currentMillis` on `uint32_t`; the sum wraps near the end of the clock range | sent at `0xFFFFF000`: times out 1 ms later; sent at `0xFFFF0000`: not timed out at `10000` after the clock wrapped | compare the elapsed time `currentMillis - waitingForAck` with 5000 | high; not executed | `CommandQueues.SpuriousTimeoutAsWritten` | `CommandQueues.TimedOutMeansElapsed` |
