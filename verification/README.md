# Verified model of the hardware-in-the-loop benchmark

This project models the NUCLEO-F446RE benchmark firmware, the transport of its result, the host that
collects it, and the runner of the VisionCB-8M-STD board, and proves what they promise about whole runs.
`dafny verify dfyconfig.toml` checks everything.

The parts, in the order in which a result travels:

- **Codec.** `Codec` says what the generated SensorSample encoder, size estimate and decoder compute;
  `GeneratedCodec` is their step-by-step form, proved equal to it. The serialization library they link
  against appears as a record of functions with a contract (`RuntimeContract`); all theorems are about every
  lawful library, and `StandIn` exhibits one, so the contract is consistent. `CodecProofs` and `DecodeProofs`
  hold the theorems: exact status, round trip, a total decoder with a meaning per field.
- **Firmware.** `Firmware` is the benchmark, storing its result struct word by word; codec and clock are
  arbitrary functions of the call number, so a faulty or inconsistent codec is covered. `Overhead`, `Stack`
  and `BaudRate` are its arithmetic and its start-up loops, `FirmwareProofs` and `VerdictProofs` say what a published
  record proves, and `StandInRun` that their conditions can all be met.
- **Layout.** `Layout` and `BenchRecord` relate the struct as the compiler lays it out to the unpacking format
  of the host.
- **Transport.** `Transport` frames the bytes in hexadecimal, `Pattern` is the regular expression with which
  the host looks for the frame, `Framing` shows that noise cannot mislead it, `SerialLink` is the buffer shared
  by reader thread and poller, `TornRead` the second path, reading memory while the firmware runs.
- **Host.** `Host` collects, parses, summarises and accepts; `Composition` joins everything from the codec
  to acceptance, and `EndToEnd` adds the polling: from the sample to the exit code.
- **VisionCB runner.** A run is a trace of events (`RunEvents`). `BootMonitor` states which events need what to
  have been shown in the current boot of the board, `RunMonitor` which exceptions are due, how links are opened and
  closed and what ended the run; `Runner` is the run itself against any behaviour of the world, `Base64` the
  firmware transfer, `Relay` the power relay, `ConsoleText` what is looked for in the console's text. `Script` spells
  out the lines of a complete sequence, `Conversation` shows that every collected report rests on one, and
  `TargetReport` what an accepted report says of the firmware's run.

Words, bytes and counters have their machine widths; wrap-around is written out. A clock is a function from
the number of the read to a time.

## Where the code departs from its own promises

- A NaN temperature passes through encoder and decoder unchanged but can never pass the firmware's check,
  which compares floats: the check passes if and only if all fields are present and the temperature is not NaN
  (`VerdictProofs.NormalFormMatches`, `VerdictProofs.NanSurvivesAndIsRefused`).
- Seeing state complete over the debug probe does not by itself make a read final; it does if and only if
  magic and version are right too (`TornRead.AcceptedReadIsFinal`, `TornRead.StateAloneIsNotEnough`).
- The VisionCB runner closes each link exactly once if and only if no close but the last call of the run fails.
  If closing for the retry raises, the cleanup closes the same descriptor again, and if that raises too, as it would
  on a closed descriptor, the exception leaves `main` without an exit code (`Runner.Session.Run`,
  `Runner.ClosesTwice`).
- The check for mounted eMMC partitions takes the absence of a line, at a look a fixed time after the question, for
  its answer. A silent console passes it; it is conclusive if and only if no part of the answer that shows a partition
  is printed after the look (`ConsoleText.LookSees`, `ConsoleText.AnyLookCanMislead`).
- The transmitted frame is what the host finds if and only if the noise before it, with `===` appended, holds
  no match of its own (`Framing.SearchFindsFrame`, `Framing.QuietIsNeeded`).
- The stack watermark is exact below the guard if and only if the lowest word used does not hold the paint
  pattern (`Stack.WatermarkIsSound`).

## Model

| member | source | states |
|---|---|---|
| DecodeProofs.RoundTrip | boards/nucleo-f446re/firmware/quarry_generated/hil/telemetry.generated.c:103-515 | Whenever encoding succeeds, decoding exactly the bytes written succeeds with no offset, and yields the normal form of the sample: same presence flags, present values identical bit for bit, absent fields, buffer tails and the terminator zero |
| CodecProofs.NormalFormIsUnique | boards/nucleo-f446re/firmware/quarry_generated/hil/telemetry.generated.c:255-255 | The normal form is a function of the sample, so the round trip determines every byte of the decoded struct |
| CodecProofs.EncodeStatusIsExact | boards/nucleo-f446re/firmware/quarry_generated/hil/telemetry.generated.c:103-248 | Encoding succeeds if and only if every present field meets its bound, enumeration and text condition and the estimated size fits the capacity; then exactly the estimated number of bytes is written, otherwise none; when only the space is missing, that is the error |
| CodecProofs.EncodeReportsFirstViolation | boards/nucleo-f446re/firmware/quarry_generated/hil/telemetry.generated.c:181-226 | Of several violations the one with the lowest field index is reported |
| CodecProofs.EncodeRefusalIsClassified | boards/nucleo-f446re/firmware/quarry_generated/hil/telemetry.generated.c:103-248 | Which status each refusal has, and which of several wins: an unknown enumeration value, a text that is too long, a text that is not UTF-8, too many raw bytes, too many readings, and last too little space |
| CodecProofs.RecordHoldsFields | boards/nucleo-f446re/firmware/quarry_generated/hil/telemetry.generated.c:119-246 | The record of a successful encoding holds every present field under its own index and in its own width, and nothing else |
| CodecProofs.EstimateIsExact | boards/nucleo-f446re/firmware/quarry_generated/hil/telemetry.generated.c:10-101 | On encodable samples the estimate, which checks nothing, equals the size of the record that encoding produces |
| CodecProofs.FirstFailureWins | boards/nucleo-f446re/firmware/quarry_generated/hil/telemetry.generated.c:103-248 | Over any list of field blocks the run fails with the first failing block, or succeeds if none fails |
| CodecProofs.FieldsAreStorable | boards/nucleo-f446re/firmware/quarry_generated/hil/telemetry.generated.c:107-246 | The field table handed to the container has strictly increasing indices below nine and contents of at most sixteen bytes |
| CodecProofs.FindsItem | boards/nucleo-f446re/firmware/quarry_generated/hil/telemetry.generated.c:276-280 | A container with the same fields gives back, for every index, the bytes that were put in for it, and nothing for a skipped field |
| DecodeProofs.DecodeIsExact | boards/nucleo-f446re/firmware/quarry_generated/hil/telemetry.generated.c:250-515 | Decoding is total and exact: it accepts if and only if the container parses, the record id is 1 and no known field is bad; an accepted value is field by field what the container holds; every reported offset lies within the input; only an unsupported field count is reported without an offset |
| DecodeProofs.DecodeReportsFirstBadField | boards/nucleo-f446re/firmware/quarry_generated/hil/telemetry.generated.c:276-513 | When the container is sound, the error concerns the bad field of lowest index, points into its bytes, and is the kind of error and the offset that the violation calls for |
| DecodeProofs.ContainerErrorsAreReported | boards/nucleo-f446re/firmware/quarry_generated/hil/telemetry.generated.c:257-273 | A bad container is reported with the status and the offset of the parser, without an offset only when there are too many fields; a record of another kind is refused at offset zero |
| DecodeProofs.ReencodingIsAFixpoint | boards/nucleo-f446re/firmware/quarry_generated/hil/telemetry.generated.c:103-515 | Every accepted value satisfies the input conditions of the encoder, and given capacity, encoding and decoding it again changes nothing |
| DecodeProofs.BlockIsExact | boards/nucleo-f446re/firmware/quarry_generated/hil/telemetry.generated.c:276-513 | Each field block stores if and only if the bytes are valid for that field, and a rejection carries an error and an offset inside those bytes, whatever was decoded before |
| DecodeProofs.RejectionIsClassified | boards/nucleo-f446re/firmware/quarry_generated/hil/telemetry.generated.c:276-513 | Which status and which offset each kind of violation produces, a value that cannot be read included; for the array that is the offset of the first unreadable element |
| DecodeProofs.ReadingsRejectionIsClassified | boards/nucleo-f446re/firmware/quarry_generated/hil/telemetry.generated.c:471-513 | For the counted array: a count that cannot be read, too many elements, a wrong remaining length, and otherwise the first element that cannot be read, at its own offset |
| DecodeProofs.BlockMeans | boards/nucleo-f446re/firmware/quarry_generated/hil/telemetry.generated.c:276-513 | A stored field has the meaning of its bytes, and the fields decoded before it are not disturbed |
| DecodeProofs.RunCarries | boards/nucleo-f446re/firmware/quarry_generated/hil/telemetry.generated.c:276-515 | An invariant kept by every block holds of the final value |
| DecodeProofs.RunStops | boards/nucleo-f446re/firmware/quarry_generated/hil/telemetry.generated.c:276-513 | The first rejecting block ends the run with its own result |
| DecodeProofs.ElementsReadBack | boards/nucleo-f446re/firmware/quarry_generated/hil/telemetry.generated.c:234-240 | The elements of the readings array are read back in order |
| DecodeProofs.MeaningIsEncodable | boards/nucleo-f446re/firmware/quarry_generated/hil/telemetry.generated.c:257-513 | What a sound container means is encodable and already normal |
| GeneratedCodec.EncodeSample | boards/nucleo-f446re/firmware/quarry_generated/hil/telemetry.generated.c:103-248 | The step-by-step encoder returns the status and the byte count of the specification, leaves the record at the front of the output buffer, and leaves the rest of the buffer alone |
| GeneratedCodec.EncodeFields | boards/nucleo-f446re/firmware/quarry_generated/hil/telemetry.generated.c:107-245 | The field table ends up with exactly the fields of the specification, or the status is that of the first refused field |
| GeneratedCodec.ReadingsScratch | boards/nucleo-f446re/firmware/quarry_generated/hil/telemetry.generated.c:86-97 | The 13-byte scratch buffer never overflows, whatever 32-bit number the count is, and holds the count and at most four elements |
| GeneratedCodec.EstimateSize | boards/nucleo-f446re/firmware/quarry_generated/hil/telemetry.generated.c:10-101 | The step-by-step estimate equals the specification on every sample, valid or not |
| GeneratedCodec.DecodeSample | boards/nucleo-f446re/firmware/quarry_generated/hil/telemetry.generated.c:250-516 | The step-by-step decoder returns the status, the partly filled value and the offset of the specification on every input |
| GeneratedCodec.DecodeUintBlock | boards/nucleo-f446re/firmware/quarry_generated/hil/telemetry.generated.c:276-298 | The blocks of the unsigned scalars, refined to the specification of the field |
| GeneratedCodec.DecodeCalibratedBlock | boards/nucleo-f446re/firmware/quarry_generated/hil/telemetry.generated.c:372-394 | The block of the boolean, refined to the specification of the field |
| GeneratedCodec.DecodeDeviceIdBlock | boards/nucleo-f446re/firmware/quarry_generated/hil/telemetry.generated.c:428-451 | The block of the text field: copied before it is checked, terminated after |
| GeneratedCodec.DecodeRawPayloadBlock | boards/nucleo-f446re/firmware/quarry_generated/hil/telemetry.generated.c:453-469 | The block of the byte field, refined to the specification of the field |
| GeneratedCodec.DecodeReadingsBlock | boards/nucleo-f446re/firmware/quarry_generated/hil/telemetry.generated.c:471-513 | The block of the counted array: count, bound, exact remaining length, elements, each with its own error offset |
| GeneratedCodec.ReadElements | boards/nucleo-f446re/firmware/quarry_generated/hil/telemetry.generated.c:501-509 | The element loop stops at the first unreadable element and keeps those before it |
| GeneratedCodec.StatusBlock | boards/nucleo-f446re/firmware/quarry_generated/hil/telemetry.generated.c:181-197 | The enumeration is checked before anything is written |
| GeneratedCodec.DeviceIdBlock | boards/nucleo-f446re/firmware/quarry_generated/hil/telemetry.generated.c:198-211 | The bound is checked before the text encoding |
| GeneratedCodec.RawPayloadBlock | boards/nucleo-f446re/firmware/quarry_generated/hil/telemetry.generated.c:212-221 | The bound of the byte field |
| GeneratedCodec.ReadingsBlock | boards/nucleo-f446re/firmware/quarry_generated/hil/telemetry.generated.c:222-245 | The bound of the array is checked before the scratch buffer is filled |
| GeneratedCodec.WriteRecord | boards/nucleo-f446re/firmware/quarry_generated/hil/telemetry.generated.c:246-246 | The container is written completely or not at all |
| StandIn.RuntimeIsLawful | boards/nucleo-f446re/firmware/quarry_generated/hil/telemetry.generated.c:246-260 | The contract assumed of the runtime library is consistent: a concrete length-prefixed runtime satisfies all of it |
| StandIn.VaruintReadsBack | boards/nucleo-f446re/firmware/quarry_generated/hil/telemetry.generated.c:229-229 | A base-128 count is read back from the front of any longer input |
| StandIn.VaruintLength | boards/nucleo-f446re/firmware/quarry_generated/hil/telemetry.generated.c:19-19 | A 32-bit count takes at most five bytes |
| Firmware.RunBenchmark | boards/nucleo-f446re/firmware/main.c:143-270 | From zeroed memory, for every codec, clock and stack: the record ends with every word determined (verdict, stages, statuses, overhead, the three loops, failures, watermark, unreached fields zero), and the stores begin with magic, version and state started and end with state complete, none of the three being stored to in between |
| Firmware.ValidateDecoded | boards/nucleo-f446re/firmware/main.c:84-107 | The check passes if and only if the decoded sample has all fields, equal values (floats as IEEE 754 compares them), equal lengths and equal contents in use |
| Firmware.EncodeLoop | boards/nucleo-f446re/firmware/main.c:189-211 | Minimum, maximum, 64-bit sum and samples are those of the 500 wrapped differences, and the failures count exactly the bad calls |
| Firmware.DecodeLoop | boards/nucleo-f446re/firmware/main.c:213-234 | The same for decoding the payload that the encode loop left behind |
| Firmware.RoundTripLoop | boards/nucleo-f446re/firmware/main.c:236-262 | The same for the combined span, where a failed encoding, a failed decoding or a mismatch is bad |
| Firmware.Record | boards/nucleo-f446re/firmware/main.c:203-210 | One iteration: failures, sample, extremes and the two-word sum advance by this iteration and nothing else in the struct changes |
| Firmware.AddToSum | boards/nucleo-f446re/firmware/main.c:210-210 | The 64-bit addition over two stored words loses nothing |
| Firmware.ProofPass | boards/nucleo-f446re/firmware/main.c:165-187 | The untimed pass reports stages and statuses, and the first failure decides the code |
| Firmware.OneMoreIteration | boards/nucleo-f446re/firmware/main.c:203-205 | The number of bad iterations is the size of the set of bad ones |
| Firmware.ExtremesAreAttained | boards/nucleo-f446re/firmware/main.c:208-209 | The folded minimum and maximum bound all samples and occur among them |
| Firmware.SumIsBetween | boards/nucleo-f446re/firmware/main.c:210-210 | n times the minimum is at most the sum, which is at most n times the maximum |
| Firmware.LoopsAreApart | boards/nucleo-f446re/firmware/main.c:189-262 | The three loops do not disturb one another, and their failures add up |
| Firmware.Board.Put | boards/nucleo-f446re/firmware/main.c:33-33 | Memory is at every moment what the stores so far make of zeroed memory |
| FirmwareProofs.PassIsExact | boards/nucleo-f446re/firmware/main.c:155-269 | The published code is PASS if and only if the counter works and the proof pass and all 1500 timed iterations were good; failures never exceed 1500 |
| FirmwareProofs.AllGoodMeans | boards/nucleo-f446re/firmware/main.c:165-262 | What went well means, call by call: the first call encodes and decodes what was just written, the next 500 encode to the same size, as many decode what call 500 left in the buffer, and the last 500 do both again |
| FirmwareProofs.CodesMean | boards/nucleo-f446re/firmware/main.c:155-269 | In the numbers of the header, each if and only if: 5, no cycle counter; 2, the first encoding failed; 3, its decoding or comparison failed; 4, some timed iteration was bad; 1, all went well |
| FirmwareProofs.StagesMean | boards/nucleo-f446re/firmware/main.c:143-269 | The identification, the three stages, the two statuses, the encoded size, the iteration count and the failures of a finished record, in the numbers of the header |
| FirmwareProofs.OutcomeIsExact | boards/nucleo-f446re/firmware/main.c:155-268 | The run reaches the end without failures if and only if nothing went wrong |
| FirmwareProofs.AggregatesAreSound | boards/nucleo-f446re/firmware/main.c:189-262 | The stored extremes are attained and bound every sample, the stored sum is exact, and lies between 500 times the extremes |
| FirmwareProofs.SamplesAreElapsed | boards/nucleo-f446re/firmware/main.c:197-201 | Each recorded sample is the true elapsed time when that is below 2^32 cycles, however the counter wrapped |
| FirmwareProofs.PopulateSample | boards/nucleo-f446re/firmware/main.c:43-82 | The shipped sample has all fields, meets every condition of the encoder and its temperature is a number |
| VerdictProofs.CorrectCodecVerdict | boards/nucleo-f446re/firmware/main.c:143-270 | With a correct codec the run is good if and only if the counter exists and the sample is complete, valid, fits 256 bytes and is free of NaN |
| VerdictProofs.NormalFormMatches | boards/nucleo-f446re/firmware/main.c:84-107 | What returns from the wire passes the check if and only if all fields are present and the temperature is not NaN |
| VerdictProofs.MatchIsSameContents | boards/nucleo-f446re/firmware/main.c:84-107 | The check compares everything: it passes if and only if all fields were decoded, the normal forms of the two samples agree in every byte but the temperature, and the temperatures are equal as floats |
| VerdictProofs.NanSurvivesAndIsRefused | boards/nucleo-f446re/firmware/main.c:90-90 | A NaN returns bit for bit and is refused all the same |
| VerdictProofs.ShippedSamplePasses | boards/nucleo-f446re/firmware/main.c:163-268 | On any correct codec that encodes it within the buffer, the shipped sample passes |
| VerdictProofs.DecodesAlike | boards/nucleo-f446re/firmware/main.c:217-262 | With a correct codec the decode and round-trip iterations all get the same verdict as the proof pass |
| StandInRun.StandInVerdict | boards/nucleo-f446re/firmware/main.c:143-270 | On the concrete runtime all conditions are met by every sample: the run ends without failures if and only if the sample is complete, valid and free of NaN |
| StandInRun.EncodableFits | boards/nucleo-f446re/firmware/main.c:28-28 | On the concrete runtime every encodable sample fits the 256-byte buffer |
| Overhead.SortU32 | boards/nucleo-f446re/firmware/main.c:110-121 | For every length the result is sorted and a permutation, and no index falls below zero |
| Overhead.Insert | boards/nucleo-f446re/firmware/main.c:112-119 | One insertion moves one element to its place in the sorted run before it |
| Overhead.MeasureOverhead | boards/nucleo-f446re/firmware/main.c:123-132 | The result is an upper median of the 32 wrapped differences: at least 17 are at most it, at least 16 are at least it |
| Overhead.MiddleIsMedian | boards/nucleo-f446re/firmware/main.c:130-131 | The middle of any sorted permutation is an upper median of the original |
| Overhead.CountIsOfMultiset | boards/nucleo-f446re/firmware/main.c:110-121 | How many samples satisfy a condition does not depend on their order |
| Overhead.DeltaIsElapsed | boards/nucleo-f446re/firmware/main.c:201-201 | A difference modulo 2^32 is the elapsed time when that is below 2^32 |
| Stack.PaintStack | boards/nucleo-f446re/firmware/startup.c:24-32 | Exactly the words below the 64-byte guard are painted |
| Stack.CopyAndZero | boards/nucleo-f446re/firmware/startup.c:42-52 | Initialised data is copied, uninitialised data is zero, all other memory is as before |
| Stack.StackWatermark | boards/nucleo-f446re/firmware/main.c:134-141 | The scan finds the first word that is not paint |
| Stack.RunLeavesPaint | boards/nucleo-f446re/firmware/main.c:134-141 | Any run whose writes lie at or above a mark leaves the paint below it |
| Stack.WatermarkIsSound | boards/nucleo-f446re/firmware/main.c:134-141 | The reported use never exceeds the larger of the true use and the guard; below the guard it is exact if and only if the lowest word used does not hold the paint pattern |
| BaudRate.ComputeDivisor | boards/nucleo-f446re/firmware/uart.h:66-78 | For every divisor whose rounded value fits the register: the fraction stays below sixteen after the carry, the mantissa within its twelve bits, and the register is the hundredfold divisor rounded to sixteenths |
| BaudRate.LargestIsExact | boards/nucleo-f446re/firmware/uart.h:70-76 | The largest hundredfold divisor admitted is the largest whose rounded value fits the register |
| BaudRate.DivisorIsClose | boards/nucleo-f446re/firmware/uart.h:66-78 | The register value is above the exact quotient of clock and baud rate by at most 0.50 and below it by less than 0.64 |
| BaudRate.ShippedDivisor | boards/nucleo-f446re/firmware/uart.h:66-70 | The shipped clock and baud rate give 0x8B |
| Layout.FieldsAreDisjoint | boards/nucleo-f446re/firmware/bench_result.h:48-90 | For any list of 4- and 8-byte fields, natural alignment gives aligned, increasing, disjoint offsets within the struct |
| Layout.FieldIsAtItsOffset | boards/nucleo-f446re/firmware/bench_result.h:48-90 | Reading a struct field by field reads each field at its offset |
| Layout.UnpackReadsStruct | boards/nucleo-f446re/run_nucleo_hil.py:72-72 | For any such list, unpacking the memory image with the format that spells out the padding gives back the fields, whatever the padding holds |
| Layout.ImageOfWords | boards/nucleo-f446re/run_nucleo_hil.py:60-72 | Every byte string of whole words is the memory image of exactly the words read from it |
| Words.LittleEndianReadsBack | boards/nucleo-f446re/run_nucleo_hil.py:72-72 | Little-endian bytes read back |
| Words.FourLittleEndian | boards/nucleo-f446re/run_nucleo_hil.py:72-72 | The least significant byte is the first |
| BenchRecord.HostReadsPrefix | boards/nucleo-f446re/run_nucleo_hil.py:72-84 | The struct as declared and the format of the host agree: same padding, 124 bytes, sample arrays at word 31, and the 27 values in the order of their names are the stored ones |
| BenchRecord.PaddedFields | boards/nucleo-f446re/firmware/bench_result.h:48-84 | The same for any numbers of leading words and of words between the sums |
| TornRead.AcceptedReadIsFinal | boards/nucleo-f446re/run_nucleo_hil.py:330-367 | Under every interleaving with the firmware, a read that shows state complete is the final record in every word but the heartbeat if and only if it also shows magic and version |
| TornRead.EveryStateIsSafe | boards/nucleo-f446re/firmware/main.c:147-269 | At every step of every interleaving: once the probe has seen state complete, all it has read since is final |
| TornRead.StateIsLast | boards/nucleo-f446re/firmware/main.c:269-269 | State complete cannot be seen before the last store of the run |
| TornRead.LateReadIsFinal | boards/nucleo-f446re/run_nucleo_hil.py:344-367 | A read that starts after the run always gets the final record |
| TornRead.StateAloneIsNotEnough | boards/nucleo-f446re/run_nucleo_hil.py:425-431 | For every run there is an interleaving whose read shows state complete and is not the final record, so the checks of magic and version are needed |
| TornRead.Beat | boards/nucleo-f446re/firmware/main.c:311-314 | The heartbeat stores to the counter alone, which wraps |
| Pattern.MatchAtIsSound | boards/nucleo-f446re/run_nucleo_hil.py:56-58 | What the matcher finds is a match of the pattern |
| Pattern.MatchAtIsComplete | boards/nucleo-f446re/run_nucleo_hil.py:56-58 | A match at a position is unique and is found |
| Pattern.SearchIsExact | boards/nucleo-f446re/run_nucleo_hil.py:307-307 | The search returns a match of least start if there is any match |
| Transport.Uart.WriteHex | boards/nucleo-f446re/firmware/uart.h:109-116 | Two lower-case digits for every byte, high half first |
| Transport.Uart.WriteStr | boards/nucleo-f446re/firmware/uart.h:92-97 | A C string is sent up to its terminator |
| Transport.Uart.ReportResult | boards/nucleo-f446re/firmware/main.c:291-297 | Exactly the frame is sent |
| Transport.HexReadsBack | boards/nucleo-f446re/run_nucleo_hil.py:316-316 | Reading the digits back gives the bytes |
| Transport.HexAt | boards/nucleo-f446re/firmware/uart.h:109-116 | The two characters of every byte are the digits of its halves in 0123456789abcdef |
| Transport.FromHexAt | boards/nucleo-f446re/run_nucleo_hil.py:316-316 | Every byte read is sixteen times the first digit and the second |
| Transport.DigitMeans | boards/nucleo-f446re/run_nucleo_hil.py:316-316 | A digit of either case has its position among the sixteen as value |
| Framing.SearchFindsFrame | boards/nucleo-f446re/run_nucleo_hil.py:307-316 | For noise that holds no complete match even with "===" appended, any hexadecimal frame, anything after it and any number of characters received: nothing is found before the end marker is complete, and from then on exactly the transmitted group |
| Framing.QuietIsNeeded | boards/nucleo-f446re/run_nucleo_hil.py:307-308 | If the noise does not meet that condition, an earlier match is found instead |
| Framing.NothingCrosses | boards/nucleo-f446re/run_nucleo_hil.py:54-58 | No match starts before a begin marker and ends beyond its first three characters, although the markers overlap themselves |
| Framing.MatchesInStream | boards/nucleo-f446re/run_nucleo_hil.py:307-308 | Every match in the stream is the frame or starts later and ends later |
| SerialLink.Link.Extend | infrastructure/core/serial_link.py:72-76 | One locked step of the reader keeps the buffer a suffix of what was received since the last clear, at most 2,000,000 bytes, and at least 1,000,000 once anything was dropped |
| SerialLink.BufferIsLive | infrastructure/core/serial_link.py:64-100 | The same after every interleaving of chunks, clears and snapshots |
| SerialLink.FrameIsFound | infrastructure/core/serial_link.py:94-116 | A frame within the last 1,000,000 bytes is found, whatever the chunks, the trimming and the quiet noise before it, from the moment its end marker is complete; until then nothing is found |
| SerialLink.WaitFor | infrastructure/core/serial_link.py:102-116 | Polling returns the first look that succeeds, or a timeout once the deadline has passed after a look that does not; the result is what the last look shows |
| SerialLink.LooksAreBounded | infrastructure/core/serial_link.py:102-116 | Polling ends after a bounded number of looks, and a look before the deadline that would succeed is never missed |
| SerialLink.LastLookIsUnique | infrastructure/core/serial_link.py:102-116 | Clock and looks determine how long polling goes on |
| SerialLink.CatchUbootPrompt | infrastructure/core/serial_link.py:118-138 | Clears the link, then sends an empty line, lets text arrive and looks, over and over, and nothing else; ends at the first look whose text has the prompt followed only by white space up to the end of a line or of the text, or at the deadline |
| SerialLink.PromptIsRecognised | infrastructure/core/serial_link.py:125-132 | The prompt is recognised if and only if the text is something, the prompt, white space, and then nothing or a line feed and more |
| SerialLink.OnlyNewText | infrastructure/core/serial_link.py:98-138 | Whatever happened to the link before, what is searched for the prompt has arrived since the clearing |
| SerialLink.NoiseIsNotFound | infrastructure/core/serial_link.py:102-116 | While only quiet noise has arrived nothing is found |
| SerialLink.QuietTail | infrastructure/core/serial_link.py:75-76 | Trimming cannot make quiet noise match |
| Host.CollectResult | boards/nucleo-f446re/run_nucleo_hil.py:283-316 | What is collected is determined: the record in the first look that shows a frame, an infrastructure error if that has the wrong length, a recovery error after partial output, and after silence exactly what reading over the debug probe leads to |
| Host.ReadResultOverSwd | boards/nucleo-f446re/run_nucleo_hil.py:330-367 | The loop ends at the first complete or unreadable attempt or after the deadline, and its result is what the last attempt amounts to; without the symbol there is no attempt |
| Host.ValidationIsExact | boards/nucleo-f446re/run_nucleo_hil.py:418-440 | The chain of document and checks accepts if and only if magic, version, state, code and failures have the one right value; no other field matters |
| Host.DocumentShowsRaw | boards/nucleo-f446re/run_nucleo_hil.py:370-410 | For every raw result, wherever it was read: which number each entry of the document is, at most 500 iterations, each summary with its extremes, its total and the nearest mean, which is zero without iterations |
| Host.WireBytesUnpack | boards/nucleo-f446re/run_nucleo_hil.py:319-327 | Any 124 bytes unpack, to the values of the words they are the image of |
| Host.RoundsToNearest | boards/nucleo-f446re/run_nucleo_hil.py:376-376 | The rounded mean is the nearest hundredth, ties to even, and is the only such value |
| Host.MeanIsBetween | boards/nucleo-f446re/run_nucleo_hil.py:376-376 | The rounded mean lies between minimum and maximum whenever the exact mean does |
| Host.StateIsThirdWord | boards/nucleo-f446re/run_nucleo_hil.py:358-358 | The polled state is the third word of the image |
| Host.NucleoRun | boards/nucleo-f446re/run_nucleo_hil.py:471-528 | The exit code is that of the exception of the preparation, or otherwise the one that console and probe determine |
| Host.EffortIsDetermined | boards/nucleo-f446re/run_nucleo_hil.py:283-367 | Console, probe and clocks leave no choice in the number of looks and attempts, so the exit code is a function of them |
| Host.ExitCodesMean | boards/nucleo-f446re/run_nucleo_hil.py:471-528 | Exit code 0, 1, 2 and 3 each if and only if: an acceptable result; an unacceptable one; a frame of the wrong length or unreadable memory; output without a frame, or silence and a record that is not complete |
| Host.SwdExit | boards/nucleo-f446re/run_nucleo_hil.py:330-367 | After silence the state, and in a complete record the checks, decide the exit code |
| EndToEnd.PolledRun | boards/nucleo-f446re/run_nucleo_hil.py:283-440 | A firmware run, a stream that arrives in pieces, a polling host: if the frame is complete at some look before the deadline it is not missed, and the host exits with 0 if and only if everything in the run went well, with 1 otherwise; if text has arrived but the frame is not complete at the last look it exits with 3 |
| EndToEnd.TalkingConsole | boards/nucleo-f446re/run_nucleo_hil.py:283-440 | If anything has arrived by the second look, the frame being complete at the last look alone decides between 0 or 1 and 3, and the probe is not asked |
| EndToEnd.CorrectCodecExitsZero | boards/nucleo-f446re/run_nucleo_hil.py:471-528 | With a correct codec and a frame that is complete before the deadline the host exits with 0 if and only if the core has a cycle counter and the sample is complete, valid, small enough and free of NaN |
| EndToEnd.SilentConsole | boards/nucleo-f446re/run_nucleo_hil.py:330-367 | After silence, with the probe reading while the firmware runs: exit code 0 proves that everything in the run went well, and if the last read began after the run, the code is 0 or 1 accordingly |
| Composition.ConsoleResultIsTheRun | boards/nucleo-f446re/run_nucleo_hil.py:283-327 | At every moment of reception, whatever quiet noise precedes the frame and however it is cut into chunks, the buffer shows nothing until the end marker is complete and then exactly the stored record, which is acceptable if and only if the counter worked and the proof pass and all 1500 timed iterations were good |
| Composition.CorrectCodecIsAccepted | boards/nucleo-f446re/run_nucleo_hil.py:380-440 | With a correct codec the host accepts if and only if the core has a cycle counter and the sample is complete, valid, small enough and free of NaN |
| Composition.AcceptedProbeReadIsTheRun | boards/nucleo-f446re/run_nucleo_hil.py:330-367 | A read over the debug probe that the host accepts proves that the whole run was good, and all its values but the heartbeat are the final ones |
| Composition.AcceptanceIsExact | boards/nucleo-f446re/run_nucleo_hil.py:418-440 | The record of a finished run is acceptable if and only if everything in the run went well |
| Composition.SummaryIsSound | boards/nucleo-f446re/run_nucleo_hil.py:370-410 | In the document of a run that reached the loops, every summary has attained extremes, the exact total, and a mean between the extremes and nearest to the exact one |
| Composition.DocumentIsSound | boards/nucleo-f446re/run_nucleo_hil.py:380-410 | What the document says of the state, the code, the counter, the overhead, the encoded size, the iterations, the failures, the stack and the heap is what the run established; for a run that did not reach the loops, zero iterations and failures and empty summaries |
| Composition.ProbeDocumentIsTheRun | boards/nucleo-f446re/run_nucleo_hil.py:330-410 | The document of an accepted read over the debug probe is that of the finished record in every entry, but for the heartbeat, which is the one that was read |
| Composition.ParsedIsStored | boards/nucleo-f446re/run_nucleo_hil.py:316-327 | Parsing the transmitted bytes gives the stored values |
| Composition.Publish | boards/nucleo-f446re/firmware/main.c:291-297 | The bytes sent are the frame of the memory image of the first 31 words |
| Base64.ImageArrives | boards/visioncb-8m-std/run_visioncb_hil.py:377-390 | For every image, even if line ends arrive as blank lines, the here-document ends at its terminator and no earlier, and its body is the base64 text of the image and of no other bytes |
| Base64.EncodeIsBase64 | boards/visioncb-8m-std/run_visioncb_hil.py:380-380 | Four characters for every three bytes: those of the base-64 digits of the 24 bits, most significant first, with padding in place of missing bytes |
| Base64.AlphabetIsStandard | boards/visioncb-8m-std/run_visioncb_hil.py:380-380 | The characters of the 64 digits are A to Z, a to z, 0 to 9, plus and slash, in this order; padding is the equals sign |
| Base64.TextIsUnique | boards/visioncb-8m-std/run_visioncb_hil.py:380-380 | There is only one base64 text of given bytes |
| Base64.DecodesBack | boards/visioncb-8m-std/run_visioncb_hil.py:380-380 | Decoding base64 gives back every byte string |
| Base64.LinesAreAligned | boards/visioncb-8m-std/run_visioncb_hil.py:381-389 | Every line has between 4 and 76 characters, a multiple of four, so none equals the six-character terminator |
| Base64.LinesJoin | boards/visioncb-8m-std/run_visioncb_hil.py:381-381 | The lines join to the text |
| BootMonitor.SafeInItsBoot | boards/visioncb-8m-std/run_visioncb_hil.py:630-665 | In a safe trace, whatever an event needs was shown in the same boot, by the answer to a line that was sent after the buffer was cleared in that boot: the expected banner before credentials, root on SD before eMMC partitions are looked for or unmounted, root on SD and no eMMC before any write to the target, a load before the core is started, and all of these with a matching stack and pc before a result is collected |
| BootMonitor.FactsAreShown | boards/visioncb-8m-std/run_visioncb_hil.py:315-355 | What the monitor holds true has been shown in the current boot |
| BootMonitor.FreshIsSound | boards/visioncb-8m-std/run_visioncb_hil.py:315-355 | What the freshness of the console buffer means in terms of the trace |
| BootMonitor.HistoryIsSafe | boards/visioncb-8m-std/run_visioncb_hil.py:630-665 | A trace along which every event was allowed is safe |
| Conversation.CollectingIsEarned | boards/visioncb-8m-std/run_visioncb_hil.py:630-665 | In a safe trace a report is collected only at the end of a conversation that is the whole script line by line, with the image and with the reader either seen on the target, by their checksums in a freshly cleared buffer, and then not sent, or sent as a whole and then confirmed |
| Conversation.SuppliesAreShown | boards/visioncb-8m-std/run_visioncb_hil.py:363-400 | What is held true of the image and of the reader was shown in the current sequence, by a look at the checksum or by a complete delivery and its receipt |
| Conversation.UnmountingIsDecided | boards/visioncb-8m-std/run_visioncb_hil.py:333-349 | Unmounting happens only while a partition may be mounted, and is left out only if this boot has shown none |
| Script.HalvesMakeWhole | boards/visioncb-8m-std/run_visioncb_hil.py:630-665 | The parts of a sequence make up the script, which is spelled out line by line |
| RunMonitor.ExceptionsAreDue | boards/visioncb-8m-std/run_visioncb_hil.py:673-771 | In a justified trace every exception follows something that makes it due: an exception of the world, an answer that did not come, a look that did not show what the line before it asks for, a refused report; which exception it is depends on which of these |
| RunMonitor.FailureNeedsTrouble | boards/visioncb-8m-std/run_visioncb_hil.py:732-771 | A run that ended by an exception met with something of that kind |
| RunMonitor.EndingMeans | boards/visioncb-8m-std/run_visioncb_hil.py:732-771 | What the monitor holds to have ended the run is the last event that ends anything |
| RunMonitor.CollectedMeans | boards/visioncb-8m-std/run_visioncb_hil.py:548-589 | The monitor holds exactly the report that was collected |
| RunMonitor.TallyCounts | boards/visioncb-8m-std/run_visioncb_hil.py:673-782 | The counts of the monitor are the counts of the events |
| RunMonitor.LinksAreClosedOnce | boards/visioncb-8m-std/run_visioncb_hil.py:730-774 | The monitor finds the links in order if and only if every link opened is closed by exactly one close and every close closes an open link |
| RunMonitor.ReleaseMeans | boards/visioncb-8m-std/run_visioncb_hil.py:747-774 | The monitor knows exactly whether a close failed and the run went on |
| ConsoleText.EmmcIsNoticed | boards/visioncb-8m-std/run_visioncb_hil.py:333-349 | A mounted eMMC partition is noticed if and only if some part of the output that no line end interrupts shows it |
| ConsoleText.LookSees | boards/visioncb-8m-std/run_visioncb_hil.py:328-354 | A look at an answer that has arrived in part shows a mounted partition if and only if an unbroken part that shows it ends within what has arrived, so absence is conclusive if and only if nothing of the kind is printed later |
| ConsoleText.AnyLookCanMislead | boards/visioncb-8m-std/run_visioncb_hil.py:328-354 | For every text, the empty one of a silent console included, there is an answer that begins with it and goes on to show a mounted partition |
| ConsoleText.BannerIsPrinted | boards/visioncb-8m-std/run_visioncb_hil.py:430-433 | The stack and pc that are compared stand in the text as the boot loader prints them |
| ConsoleText.BannerIsExact | boards/visioncb-8m-std/run_visioncb_hil.py:430-433 | The first line of this form in the text is found, read up to its last digit, and nothing is found only if there is none |
| ConsoleText.SameNumber | boards/visioncb-8m-std/run_visioncb_hil.py:434-435 | The numbers are compared digit by digit, in either case |
| Runner.Session.Run | boards/visioncb-8m-std/run_visioncb_hil.py:673-782 | For every behaviour of board, probe and tools: the whole trace is safe in its boots, true of the world, and its exceptions are due; at most 4 relay cycles, 4 hub-port cycles, 2 links and 2 sequences; every report is collected at the end of a complete conversation that supplied or confirmed image and reader; the exit code is 0, 1, 2 or 3 if and only if the last thing to end the run was an accepted report, a test failure, an infrastructure or unexpected error, or a recovery error; after a successful preparation it is 0 if and only if an acceptable report was collected, and 3 if and only if the recovery error was that of the probe or of the second sequence; no code but 0 without cause; each link is closed exactly once if and only if no close but the very last call fails; there is no exit code if and only if that one fails |
| Runner.ClosesTwice | boards/visioncb-8m-std/run_visioncb_hil.py:747-774 | A concrete behaviour of the world in which the retry cannot close its link: the link is closed a second time, which fails too, and there is no exit code |
| Runner.RunMeans | boards/visioncb-8m-std/run_visioncb_hil.py:673-782 | What the monitors hold at the end of a legal course, said of the trace alone |
| Runner.Session.RunHardwareSequence | boards/visioncb-8m-std/run_visioncb_hil.py:630-665 | One sequence, at most two relay cycles, started on an open link; it ends with the report it has collected or with an exception that is due |
| Runner.Session.AcquireConsole | boards/visioncb-8m-std/run_visioncb_hil.py:267-307 | Ends at the prompt, seen in this boot, after at most the given number of power cycles, with a recovery error only after all of them, and otherwise with the exception of the world |
| Runner.Session.ResumeLinux | boards/visioncb-8m-std/run_visioncb_hil.py:443-484 | Loads kernel and tree, sets the arguments and boots, in this order; ends normally only if the banner of the expected image was seen in this boot |
| Runner.Session.Login | boards/visioncb-8m-std/run_visioncb_hil.py:487-497 | Sends name and empty line, which it may only after the banner |
| Runner.Session.VerifyStorage | boards/visioncb-8m-std/run_visioncb_hil.py:315-355 | Ends normally only if this boot showed the root on SD and, last, no eMMC partition mounted; unmounts between its two looks if and only if the first shows a partition |
| Runner.Session.TransferFirmware | boards/visioncb-8m-std/run_visioncb_hil.py:363-400 | Ends normally only if the fresh answer to the checksum line showed the checksum, with no other line sent, or if the here-document of the image was sent line by line after it and the checksum then appeared; failures are infrastructure errors |
| Runner.Session.SendImage | boards/visioncb-8m-std/run_visioncb_hil.py:383-389 | What is sent is the here-document of the image, line by line |
| Runner.Session.EnsureReader | boards/visioncb-8m-std/run_visioncb_hil.py:505-545 | Ends normally only if the fresh answer showed the checksum of the reader, or if its source was sent line by line, compiled successfully and then marked |
| Runner.Session.LoadFirmware | boards/visioncb-8m-std/run_visioncb_hil.py:413-422 | Selects and rescans the card and loads; ends normally only if the load reported bytes read |
| Runner.Session.StartCore | boards/visioncb-8m-std/run_visioncb_hil.py:424-440 | Copies the image and starts the core, in this order; ends normally only if the printed stack and pc are those of the ELF file; other addresses are a test failure, no addresses an infrastructure error |
| Runner.Session.CollectResult | boards/visioncb-8m-std/run_visioncb_hil.py:548-589 | Runs the reader between its two marker lines, in a verified boot with the core started, at the end of a conversation that lacks nothing else |
| Runner.Session.ReadReport | boards/visioncb-8m-std/run_visioncb_hil.py:560-589 | A report, output without a result and a document that is none lead to the report, an infrastructure error and an unexpected exception, and to nothing else |
| TargetReport.AcceptedReportIsTheRun | boards/visioncb-8m-std/run_visioncb_hil.py:594-620 | A report that is accepted, read at any moment of the run of the firmware, proves that everything in it went well, that it was over and that at least one heartbeat had come; its other entries are final |
| TargetReport.GoodRunIsAccepted | boards/visioncb-8m-std/run_visioncb_hil.py:594-620 | The report of a reader that starts after the run is accepted if and only if everything went well and the heartbeat counter it read is not zero |
| TargetReport.BeatGoesOn | boards/nucleo-f446re/firmware/main.c:311-314 | The counter counts the turns of the loop, modulo 2^32 |
| Runner.Session.RecoverProbe | boards/visioncb-8m-std/run_visioncb_hil.py:219-254 | At most the given number of hub-port cycles, all of them before a recovery error; the polling inside ends |
| Runner.Session.DiscoverDevice | boards/visioncb-8m-std/run_visioncb_hil.py:202-216 | A plain resolve first: if it succeeds no hub port is cycled; recovery only if it finds nothing, and a recovery error only after two cycles |
| Runner.Session.Retry | boards/visioncb-8m-std/run_visioncb_hil.py:732-752 | Closes the link; if that raises, the link is still held and nothing more is tried; otherwise the probe is recovered, a link opened and one sequence run, which a report or a recovery error of a sequence implies |
| Relay.ParsesPrinted | infrastructure/core/power_relay.py:30-30 | Every printed state line parses back, including serials with underscores and equals signs and trailing space |
| Relay.ParsedIsPrinted | infrastructure/core/power_relay.py:30-30 | A line that parses is a printed entry followed by space |
| Relay.QueryRecoversInventory | infrastructure/core/power_relay.py:64-69 | From the printed inventory of distinct relays exactly those relays and their states are recovered |
| Relay.TargetOfInventory | infrastructure/core/power_relay.py:64-93 | On a printed inventory the chosen relay is channel 1 of the expected board, or of the only board there is, if it is listed, and no relay is chosen in any other case |
| Relay.SerialIsRecovered | infrastructure/core/power_relay.py:74-74 | Splitting at the last underscore recovers the serial |
| Relay.IdsAreUnique | infrastructure/core/power_relay.py:68-68 | The id determines serial and channel |
| Relay.ResolvedOnce | infrastructure/core/power_relay.py:72-93 | At most one relay can be chosen |
| Relay.Power.ResolveRelayId | infrastructure/core/power_relay.py:72-93 | Channel 1 of the expected board or of the only board, if it is listed; an error in every other case |
| Relay.Power.SetState | infrastructure/core/power_relay.py:96-109 | Succeeds if and only if the command worked and the query after it shows the requested state of that relay |
| Relay.Power.PowerCycle | infrastructure/core/power_relay.py:120-132 | Returns normally only after a confirmed OFF and then a confirmed ON of the one resolved relay; however it ends, no other relay is commanded, and ON only after a confirmed OFF |

## Left out

- The serialization library (container bytes, varuint, UTF-8) is not part of this model; its contract is, and
  `StandIn` is one implementation of it, not the library's own.
- The contract takes the field views of a parsed container to be slices of the input, and the byte count of a
  failed encoding to be zero with the output untouched; the library's sources would have to confirm both.
- The encoder's status checks after scratch writes cannot fail under the contract; the model asserts this in
  place of the dead branches.
- GeneratedCodec.DecodeRecord: the nine blocks that the source writes out one after the other are a loop over the
  field index; each kind of block is a method of its own.
- Record-level behaviour for an unsupported field count is kept only as a status of the container parser.
- `CodecProofs.EncodeStatusIsExact`: for a failed encoding the byte count is taken to be zero, as just said.
- Firmware.RunBenchmark: the sample is a parameter, so the statement covers every sample within its arrays;
  `PopulateSample` is the shipped one. The order of the two stores of a 64-bit field is fixed low word first;
  nothing proved depends on it.
- FirmwareProofs.SamplesAreElapsed: the clock is abstract; that the cycle counter ticks at the core clock is a
  hardware fact.
- TornRead.AcceptedReadIsFinal: memory is zeroed before the run and words are read atomically in increasing
  order; stale memory before start-up code has run is not modelled.
- Host.RoundsToNearest: the mean is rounded as an exact rational; the division in binary floating point is not modelled.
- Runner.Session.Run: outcomes are exit codes. The result text of an exception is its upper-cased class name,
  for example `TESTFAILURE`, where the result schema spells `TEST_FAILURE`, so no claim is made about the
  schema. Interrupts that are not ordinary exceptions are not modelled, nor are failures of the final cleanup other
  than that of closing the link.
- BootMonitor.SafeInItsBoot: a boot begins with a cycle of the relay or with the command to reboot; that the board
  resets on its own is not an event, so "the current boot" assumes that it does not.
- Runner.Session.VerifyStorage: what was shown is the text at the look; that nothing relevant is printed later is the
  condition of `ConsoleText.LookSees`.
- Runner.Session.CollectResult: the reader that runs on the target and the extraction of its JSON are one
  arbitrary function of the console text.
- SerialLink.WaitFor: the other threads appear as an arbitrary buffer at each look; `EndToEnd` fills it with what the
  locked steps of the reader make of a stream.
- EndToEnd.PolledRun: frame and what follows it fit the million bytes that the buffer is sure to keep; after more
  than that the frame may have been dropped.
- Runner.Session.TransferFirmware: lines are symbols; only those of the image and of the reader's source carry
  their text. That the text which the wait for the checksum returns contains the checksum is the meaning of that wait.
- TargetReport.AcceptedReportIsTheRun: the reader that runs on the target and the firmware of that board are not part
  of this model; they are taken to be a reader of the words in increasing order and a record of the same layout.
- Runner.Session.RecoverProbe: a cycle of the hub port is one event; sleeps are visible only as the advance of
  the clock.
- Runner: what a wait or a look returns is arbitrary text, so the relation between a pattern and the text that
  matched it is not used, except for the frame of the NUCLEO result.
- ConsoleText: line splitting covers the line ends that can occur in text decoded as ASCII.
- Relay.QueryRecoversInventory: the pattern is applied line by line; that its trailing white space may run over
  line ends does not change which lines match. The failure of the tool covers missing program, timeout and exit status.
- Stack.CopyAndZero: regions are whole words.
- Register addresses, barriers, clock enables, the vector table, `dwt.h` beyond the presence of the counter.
- Subprocess calls, terminal settings, file and log writing, argument parsing, building and flashing beyond how
  they end.
- `result_schema.py`, `usb_hub_power.py` beyond one event, `resolve_by_id_device`, `libc_shim.c`.
