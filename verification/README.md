# Sharak node and wire protocol: a verified model

Sharak is a vibration node. Its firmware reads an ADXL345 accelerometer over I2C, packs each
sample into a 16-byte payload, seals the payload with CRC-16/CCITT-FALSE, wraps it in an
HDLC-style frame and writes the frame to a serial line. This project models that path and
the frame decoder at its other end, and proves what the protocol is for: every payload sent
is delivered, in order; damage within stated bounds is reported; garbage harms nothing but
itself.

| file | contents |
|---|---|
| `Machine.dfy` | fixed-width integers, their bits and little-endian bytes, exclusive or, byte strings as bit strings |
| `Crc16.dfy` | the bitwise CRC loop; the register as sixteen bits; linearity, residue, parity |
| `CrcPolynomial.dfy` | the CRC as the remainder of a polynomial division over GF(2) |
| `CrcErrors.dfy` | error detection: bursts, odd errors, distance four, and that both bounds are sharp |
| `Framing.dfy` | stuffing, frames, the lenient destuffing of the decoder |
| `FrameEncoder.dfy` | the encoder writing into a caller's buffer |
| `Decoder.dfy` | the incremental decoder as a class, and its abstract state machine |
| `Stream.dfy` | whole streams: the decoder refines "split at FLAGs, destuff, judge" |
| `Delivery.dfy` | round trips, resynchronisation, garbage, conservation, damaged frames, bad escapes |
| `WireDamage.dfy` | flipped bits on the wire itself that spare FLAGs and ESCs: they reach the CRC undiminished |
| `ByteDamage.dfy` | any one byte of a frame changed on the wire: the exact verdict, and the changes that go unseen |
| `KnownAnswers.dfy` | two CRCs worked out: the published check value, and a frame of the greatest length |
| `Payload.dfy` | the three message types, packing and unpacking |
| `I2cSim.dfy`, `SimProperties.dfy` | the simulated ADXL345 and its behaviour over any history |
| `Adxl345.dfy`, `Driver.dfy` | decoding and scaling; init, read and selftest over a bus that may fail |
| `Node.dfy` | the firmware's super-loop and the end-to-end theorem |
| `Fleet.dfy` | the fleet simulator as a second producer |

Conventions. `uint8_t`, `uint16_t` and `uint32_t` are the subset types `byte`, `word` and
`uint32`; a shift or mask of an unsigned value is written as the multiplication, division or
remainder it stands for, and wrap-around is an explicit remainder. Exclusive or is defined on
bits. C division is `TruncDiv`. `size_t` in the simulator has the 32 bits of the target.
`uart_write` and `uart_puts` append to a byte sequence. The bus a driver is handed carries a
script of transaction failures, an assumption about the environment; the empty script is the
simulated bus. A NULL buffer is a null array reference. Functions named in a method's contract
are the specification; the lemmas beside them say what it means.

Where the code and its documentation differ, the model follows the code:

- The requirements (`docs/01_requirements_SWE1/node.md:77-80`) list a bad escape among the failures that
  are reported. The decoder clears a pending escape at a FLAG and lets ESC ESC pend, so it accepts
  some badly escaped frames. `Delivery.StrayEscapeAccepted` is a witness for every payload;
  `Delivery.BadEscapeReportedIff` and `Delivery.AcceptedIsCanonicalIff` say exactly when.
- `sim_touches_data` is described as the test whether a read overlaps the data registers
  (`firmware/i2c_sim.c:90`). It is not for reads whose pointer wraps;
  `SimProperties.WrappedReadIsStale` is such a read, which returns old data;
  `SimProperties.TouchesDataExactly` gives the exact condition.
- The decoder is said to ignore garbage between frames (`protocol/src/protocol.c:326-328`). It ignores
  what precedes the first FLAG; later bytes are judged at the next FLAG. The single byte 0x41 is
  reported (`Delivery.GarbageReported`); `Delivery.GarbageIgnoredIff` gives the exact condition.
- The wrap of the register pointer is said to keep any length inside the register file
  (`firmware/i2c_sim.c:47-48`). The first access is not wrapped: one byte read from pointer byte 0x3A
  lies outside (`SimProperties.PointerPastFile`); `SimProperties.LegalExactly` gives the exact condition.

## Model

| member | source | states |
|---|---|---|
| Crc16.Crc16CcittFalse | protocol/src/protocol.c:21-40 | the nested bit loop computes the CRC register of the bytes; a NULL pointer yields the initial value |
| Crc16.CrcIsFeed | protocol/src/protocol.c:29-38 | the byte-wise loop is the same as feeding single message bits, most significant first, to a 16-bit shift register |
| Crc16.FeedLinear | protocol/src/protocol.c:29-38 | the shift register is linear over GF(2) in start value and message, for messages of any length |
| Crc16.CrcLinear | protocol/src/protocol.c:21-40 | crc(c1^c2, a^b) = crc(c1,a) ^ crc(c2,b) for any two messages of one length |
| Crc16.Cleared | protocol/src/protocol.c:31-36 | sixteen or fewer bits clear a register only if they are its own leading bits followed by zeros, and sixteen such bits do |
| Crc16.Residue | protocol/src/protocol.c:216-224 | a message followed by two bytes has CRC zero exactly when the bytes are its CRC, high byte first |
| Crc16.CrcParity | protocol/src/protocol.c:21-40 | the CRC of every message has the bit parity of the message |
| KnownAnswers.CheckValue | docs/01_requirements_SWE1/node.md:66-69 | the CRC of the ASCII digits 1 to 9 is 0x29B1 |
| CrcPolynomial.Division | protocol/src/protocol.c:16-20 | division by x^16+x^12+x^5+1 has exactly one quotient and remainder, and the shift register computes both |
| CrcPolynomial.CrcIsRemainder | protocol/src/protocol.c:15-40 | a value is the CRC of a message if and only if it is the remainder of the init-adjusted message times x^16 |
| CrcErrors.SealedIffZeroResidue | protocol/src/protocol.c:290-295 | the decoder's comparison accepts exactly the byte strings of zero residue |
| CrcErrors.SealedIsSeal | protocol/src/protocol.c:216-225 | the only accepted byte strings are payloads followed by their own CRC |
| CrcErrors.OddErrorsDetected | protocol/src/protocol.c:290-295 | any odd number of flipped bits in a sealed string of any length breaks the check |
| CrcErrors.BurstDetected | protocol/src/protocol.c:290-295 | any change within sixteen consecutive bits of a sealed string of any length breaks the check |
| CrcErrors.OrbitMisses | protocol/src/protocol.c:31-36 | fed zeros, the register does not return to a single top bit within 144 steps of the polynomial |
| CrcErrors.MinimumDistance | protocol/include/sharak/protocol.h:41-41 | two different sealed strings of one length, at most 18 bytes, differ in at least four bits |
| CrcErrors.BoundsAreSharp | protocol/src/protocol.c:290-295 | in every sealed string, at every place, some four flipped bits within seventeen go unseen: neither bound can be improved |
| Framing.DestuffStuff | protocol/src/protocol.c:234-248 | destuffing undoes stuffing and leaves no escape pending |
| Framing.Canonical | protocol/src/protocol.c:234-248 | FLAG-free wire bytes are the stuffing of what they destuff to if and only if every ESC precedes 0x5D or 0x5E |
| Framing.FrameLength | protocol/include/sharak/protocol.h:42-43 | a frame is its payload, four bytes and one for each escape; at most 38 for an admissible payload |
| KnownAnswers.LongestFrame | protocol/include/sharak/protocol.h:42-43 | the bound of 38 bytes is reached by a payload that is escaped from end to end together with its CRC |
| Framing.FrameInterior | protocol/src/protocol.c:231-254 | a frame starts and ends with FLAG, holds none between, escapes well, and destuffs to payload and CRC |
| Framing.FramePrefixFree | protocol/src/protocol.c:203-257 | a frame is a prefix of another only if the payloads are equal: the encoding is prefix-free and injective |
| FrameEncoder.FrameEncode | protocol/src/protocol.c:203-257 | succeeds exactly when the length is admissible and the whole frame fits, then writes exactly the frame and returns its length; a capacity failure leaves the opening FLAG and as many whole inner bytes as fit; all other bytes stay; payload and out may be one buffer |
| FrameEncoder.TruncatedAt | protocol/src/protocol.c:236-253 | a failed encoding leaves a prefix of the frame within one byte of the capacity that splits no escaped pair, and the frame did not fit |
| FrameEncoder.TruncatedOnce | protocol/src/protocol.c:227-253 | payload, capacity and old contents leave one possible buffer after a failure |
| Decoder.FrameDecoder.Init | protocol/src/protocol.c:262-271 | from any contents the decoder returns to the hunting state |
| Decoder.FrameDecoder.Finish | protocol/src/protocol.c:274-304 | overflow, length, CRC and room are judged in that order; out changes only on delivery, and then only its first bytes |
| Decoder.FrameDecoder.Feed | protocol/src/protocol.c:306-348 | one byte moves the abstract state and returns the code of the one verdict, if any; out changes only on a positive return, and then holds the delivered payload with all else unchanged |
| Decoder.FrameDecoder.FeedAll | tests/test_framing.c:63-83 | feeding a buffer byte by byte reports the events of the whole run |
| Decoder.VerdictRange | protocol/src/protocol.c:280-303 | every delivery has 6 to 16 bytes, fits the room and is what the collected bytes seal; every rejection is one of the three codes |
| Delivery.StretchVerdict | protocol/src/protocol.c:280-303 | the report on every stretch between two FLAGs, by the number of its inner bytes (none, 1 to 7, 8 to 18, more), their CRC residue and the room, with the codes -1, -2 and -3 written out |
| Stream.SegmentsJoin | protocol/src/protocol.c:312-324 | the pieces a stream is cut into at its FLAGs join back to the stream |
| Stream.SegmentsNoFlag | protocol/src/protocol.c:312-324 | no piece holds a FLAG |
| Stream.RunInside | protocol/src/protocol.c:330-347 | inside a frame the count is min(18, destuffed length), overflow holds exactly beyond 18, and the buffer is the destuffed prefix |
| Stream.DecoderRefinesBatch | protocol/src/protocol.c:274-348 | for every stream and output capacity, a fresh decoder reports exactly: split at FLAGs, skip the first and unfinished pieces, destuff, skip empty ones, classify |
| Stream.Chunking | protocol/include/sharak/protocol.h:135-142 | the same however the stream is cut into pieces |
| Delivery.FramesDeliver | protocol/src/protocol.c:203-348 | from any decoder state a list of frames delivers exactly that list of payloads, after whatever the first FLAG closes |
| Delivery.SharedFlags | protocol/src/protocol.c:314-318 | the same with any number of FLAGs, at least one, before each frame: shared (section 3.1 of RFC 1662), separate or filled |
| Delivery.Resynchronises | protocol/include/sharak/protocol.h:139-140 | after any bytes in any state, every following frame is delivered |
| Delivery.FaultContained | protocol/src/protocol.c:312-324 | bytes inserted between frames lose, alter or reorder no other payload; the extra reports depend on those bytes alone |
| Delivery.PlainGarbage | protocol/src/protocol.c:312-324 | inserted bytes without a FLAG cause at most one report, their own verdict |
| Delivery.GarbageIgnoredIff | protocol/src/protocol.c:326-328 | bytes inserted between frames leave the reports as they were if and only if each is FLAG or ESC |
| Delivery.GarbageReported | protocol/src/protocol.c:326-328 | one byte 0x41 between any frames is reported as a frame of bad length |
| Delivery.ReportsBounded | protocol/src/protocol.c:312-324 | each FLAG yields at most one report and the first one yields none |
| Delivery.Conservation | protocol/src/protocol.c:297-303 | over any run, payload length plus three summed over all deliveries never exceeds the bytes fed, and the count stays at most 18 |
| Delivery.Provenance | protocol/src/protocol.c:312-324 | every delivered payload is what some stretch between two FLAGs of the input seals |
| Delivery.DamageReported | protocol/src/protocol.c:290-295 | every stretch of wire whose inner bytes differ from a sealed payload by up to three, an odd number, or a 16-bit burst of flipped bits is answered with the CRC error |
| WireDamage.FlipsKept | protocol/src/protocol.c:330-340 | destuffing keeps the number of bits in which two stretches with the same ESCs and no FLAG differ |
| WireDamage.DamageKept | protocol/src/protocol.c:330-340 | few, odd or bursty damage on such a stretch is damage of the same kind to its inner bytes |
| WireDamage.WireDamageReported | protocol/src/protocol.c:290-340 | up to three, any odd number, or a 16-bit burst of flipped bits on the wire of a frame that make and unmake no FLAG and no ESC are answered with the CRC error |
| WireDamage.DamagedInStream | protocol/src/protocol.c:290-340 | in the middle of any stream such a frame alone is lost, and the CRC error stands in its place |
| ByteDamage.SameSuffix | protocol/src/protocol.c:29-38 | two messages of any lengths followed by the same bytes have one CRC if and only if they have one without them |
| ByteDamage.EscapeMade | protocol/src/protocol.c:330-340 | a byte that becomes ESC loses an inner byte and toggles the next; unseen if and only if the payload has more than 6 bytes and the CRC before and after the lost byte differ in the bit 0x2000 alone, or in none where nothing is toggled |
| ByteDamage.EscapeUnmade | protocol/src/protocol.c:330-347 | an ESC that becomes a plain byte adds an inner byte; unseen if and only if the frame has room and that byte changes the CRC in the bit 0x2000 alone |
| ByteDamage.FlagMade | protocol/src/protocol.c:312-324 | a byte that becomes FLAG cuts the frame in two parts, each with its own verdict |
| ByteDamage.ClosingFlagLost | protocol/src/protocol.c:312-347 | a closing FLAG that becomes another byte is reported unless that byte is ESC, or is zero after a payload shorter than 16 |
| ByteDamage.OpeningFlagLost | protocol/src/protocol.c:312-347 | an opening FLAG that becomes a plain byte after an earlier FLAG is always reported |
| ByteDamage.OneByteDamaged | protocol/src/protocol.c:274-348 | the exact reports after any one byte between the FLAGs of any frame becomes any other |
| ByteDamage.Steered | protocol/src/protocol.c:29-38 | from any register two bytes lead to any other |
| ByteDamage.EscapeMadeUnseen | protocol/src/protocol.c:330-340 | after every prefix some frames deliver another, shorter payload when one flipped bit makes an ESC, whatever follows |
| ByteDamage.EscapeUnmadeUnseen | protocol/src/protocol.c:330-347 | after every prefix some frames deliver another, longer payload when one flipped bit unmakes an ESC, whatever follows |
| ByteDamage.FlagMadeUnseen | protocol/src/protocol.c:312-324 | some frames deliver another payload when one flipped bit makes a FLAG |
| ByteDamage.EscapeMadeReported | protocol/src/protocol.c:290-340 | one flipped bit that makes an ESC before an escaped byte, or at the end, is always reported |
| Delivery.AcceptedWire | protocol/src/protocol.c:330-340 | exactly the wire bytes that destuff to a payload with its CRC deliver that payload |
| Delivery.AcceptedIsCanonicalIff | protocol/src/protocol.c:330-340 | an accepted stretch is the encoder's own frame if and only if it is well escaped |
| Delivery.StrayEscapeAccepted | docs/01_requirements_SWE1/node.md:77-80 | for every payload, a stray ESC before the closing FLAG is accepted |
| Delivery.BadEscapeReportedIff | docs/01_requirements_SWE1/node.md:77-80 | a badly escaped stretch is reported exactly when it holds inner bytes and they fail length or CRC |
| Payload.PackLayout | protocol/include/sharak/protocol.h:17-24 | where the bytes of each field stand, as numbers: version 1, types 1 to 3, lengths 16, 6 and 8, low byte first, two's complement |
| Payload.PayloadBounds | protocol/include/sharak/protocol.h:37-38 | the shortest admissible payload is the temperature message's, 6 bytes, the longest the accel message's, 16, and no message lies outside |
| Payload.UnpackLayout | protocol/src/protocol.c:81-198 | for any bytes of any version and type the unpackers read these fields, and fail exactly below 4, 16, 6 and 8 bytes |
| Payload.UnpackLonger | protocol/src/protocol.c:81-198 | every message reads back, envelope included, from a buffer with any bytes after it |
| Payload.PayloadPack | protocol/src/protocol.c:45-79 | writes the accel payload at the start of the buffer, or nothing at all |
| Payload.PackTempInto | protocol/src/protocol.c:128-140 | writes the temperature payload, or nothing at all |
| Payload.PackCurrentInto | protocol/src/protocol.c:142-156 | writes the current payload, or nothing at all |
| Payload.PayloadUnpack | protocol/src/protocol.c:81-113 | reads the envelope and three signed fields of the first len bytes, or fails |
| Payload.EnvelopeUnpack | protocol/src/protocol.c:158-174 | reads version, type and sequence number, or fails |
| Payload.TempUnpack | protocol/src/protocol.c:176-186 | reads the signed 16-bit field, or fails |
| Payload.CurrentUnpack | protocol/src/protocol.c:188-198 | reads the signed 32-bit field, or fails |
| Payload.UnpackPack | protocol/src/protocol.c:45-198 | unpacking undoes packing for all field values of all three types, at the type's own length |
| Payload.PackUnpack | protocol/src/protocol.c:45-198 | packing undoes unpacking exactly for bytes with the protocol version and their type's own length |
| Payload.MessagesSurvive | protocol/include/sharak/protocol.h:17-29 | every list of messages of mixed types survives packing, framing, decoding and dispatch, from any decoder state |
| I2cSim.Simulator.Init | firmware/i2c_sim.c:165-176 | power-on state, whatever the state before |
| SimProperties.PowerOnReads | firmware/i2c_sim.c:165-176 | on a powered-on chip every read of registers other than DEVID returns zeros and samples nothing |
| SimProperties.PowerOnIdentity | firmware/i2c_sim.c:165-176 | the first byte read without a pointer byte is 0xE5 |
| SimProperties.MeasureBit | firmware/i2c_sim.c:151-153 | measuring is bit 3 of register 0x2D and no other |
| I2cSim.Simulator.RefreshSample | firmware/i2c_sim.c:64-88 | the six data registers become one snapshot and the phase advances by one, modulo 2^32 |
| I2cSim.Simulator.Write | firmware/i2c_sim.c:97-121 | status and register effect of a write, including the error cases |
| I2cSim.Simulator.WriteRead | firmware/i2c_sim.c:123-163 | status, chip effect and bytes returned of a combined transaction; nothing changes on an error |
| SimProperties.Burst | firmware/i2c_sim.c:148-162 | a measuring chip's six-byte burst is one sample of one phase, and advances the phase by exactly one |
| SimProperties.QuietRead | firmware/i2c_sim.c:151-162 | any other read changes neither registers nor phase, and returns the run of registers up to the last when it does not wrap |
| SimProperties.ReadsAccessed | firmware/i2c_sim.c:158-162 | every byte of a read comes from the register its access falls on, wrapping or not |
| SimProperties.TouchesDataExactly | firmware/i2c_sim.c:90-95 | the overlap test is right if and only if the pointer does not wrap into the block, the sum does not overflow, and an empty read does not start inside it |
| SimProperties.WrappedReadIsStale | firmware/i2c_sim.c:90-95 | sixty bytes read from register 0x38 of a measuring chip reach all data registers, unseen by the test, and return them as they were |
| SimProperties.LegalExactly | firmware/i2c_sim.c:47-56 | a transaction accesses only the register file if and only if it accesses nothing or starts below register 58 |
| SimProperties.PointerPastFile | firmware/i2c_sim.c:47-56 | one byte read from pointer byte 0x3A accesses a place outside the register file |
| SimProperties.ReadsLand | firmware/i2c_sim.c:158-162 | these accesses are the registers a read returns, one by one |
| SimProperties.StoresLand | firmware/i2c_sim.c:114-119 | every byte stored is found in the register its access falls on, unless a later one falls there too |
| SimProperties.StoresSpare | firmware/i2c_sim.c:114-119 | a register that no access falls on keeps its value |
| SimProperties.WritesLand | firmware/i2c_sim.c:114-119 | of any number of bytes written after a pointer byte, the i-th is found i registers on, around the file, unless the write came round to it again |
| SimProperties.WritesSpare | firmware/i2c_sim.c:114-119 | registers farther on than the bytes written keep their value |
| SimProperties.WritePointer | firmware/i2c_sim.c:114-119 | after a write the pointer stands behind the last byte, around the file |
| SimProperties.ReadPointer | firmware/i2c_sim.c:158-161 | the same after a read |
| SimProperties.PointerInRange | firmware/i2c_sim.c:47-56 | with in-range pointer bytes every history of transactions stays inside the register file and leaves the pointer below 58 |
| SimProperties.PhaseCounts | firmware/i2c_sim.c:148-155 | over any history the phase counts the fresh samples, modulo 2^32, and nothing else |
| SimProperties.StandbyIsFrozen | firmware/i2c_sim.c:18-19 | no history of reads changes a register or the phase of a chip in standby |
| Adxl345.ScaleExact | firmware/adxl345.c:36-42 | the scaled value is the one integer next to raw*125/32 on the side of zero |
| Adxl345.ScaleRange | firmware/adxl345.c:36-42 | intermediate values fit 32 bits; the result lies in -128000..127996 and within one of raw*125/32 |
| Adxl345.ScaleIncreasing | firmware/adxl345.c:36-42 | scaling is strictly increasing and injective over all 65536 patterns |
| Adxl345.ScaleOdd | firmware/adxl345.c:36-42 | negating a reading negates the scaled value wherever the negation exists |
| Adxl345.DecodeReads | firmware/adxl345.c:32-42 | every six bytes decode to X, Y and Z in this order, each the two's complement of its two bytes, low byte first, times 125/32 toward zero |
| Adxl345.DecodeFields | firmware/adxl345.c:32-42 | any three readings stored as the chip stores them decode to their scaled values |
| Adxl345.DecodeInjective | firmware/adxl345.c:32-42 | no two raw samples decode alike |
| Adxl345.PowerOnSample | firmware/adxl345.c:108-128 | a chip never started reads as the zero sample, again and again |
| Adxl345.ModelRises | firmware/i2c_sim.c:66-77 | from the start of every period X rises to 62 milli-g in four steps and falls again, and Y starts at its peak |
| Adxl345.ModelShape | firmware/i2c_sim.c:58-63 | Y runs a quarter period ahead of X, and half a period turns both about zero while Z rests at 1 g |
| Adxl345.SnapshotDecodes | firmware/i2c_sim.c:66-86 | decoding the data registers of a phase gives the closed-form triangle wave in milli-g |
| Adxl345.SamplesFollowModel | firmware/adxl345.c:108-128 | on a measuring chip the n-th sample of a run is the model n phases on, whatever reads outside the data block are interleaved, through every phase wrap |
| Driver.Init | firmware/adxl345.c:68-106 | status, chip and transactions used after every pattern of bus failures: -3 exactly when the identity was read and is not 0xE5, -2 exactly when a transaction it issues fails |
| Driver.InitStatusIff | firmware/adxl345.c:68-106 | which status init returns, each with its exact condition |
| Driver.InitFails | firmware/adxl345.c:81-106 | what a failure at each of the four transactions leaves: DATA_FORMAT first, BW_RATE next, POWER_CTL last |
| Driver.InitConfigures | docs/01_requirements_SWE1/node.md:42-45 | success leaves 0x0B, 0x0A and 0x08 in registers 0x31, 0x2C and 0x2D and a measuring chip; failure never starts one; no other register changes |
| Driver.DriverOnSimulator | firmware/adxl345.c:68-144 | after power-on and a successful init the n-th read is the model's sample n |
| Driver.Read | firmware/adxl345.c:108-128 | one burst, decoded; a bus failure leaves chip and output unchanged |
| Driver.SelfTest | firmware/adxl345.c:130-144 | status by identity or bus failure; registers and phase unchanged |
| Node.SuperLoop.StartSensor | firmware/main.c:51-54 | the phase is zero, and the chip measures exactly when init succeeds |
| Node.SuperLoop.Boot | firmware/main.c:45-60 | banner, then either a measuring chip or the init error text and a halt |
| Node.SuperLoop.Iterate | firmware/main.c:62-84 | one frame of the model's sample with the current sequence number, or the read error text and a halt |
| Node.SuperLoop.Run | firmware/main.c:36-85 | for every n and every pattern of bus failures, the serial output of n iterations; without failures neither error branch is taken |
| Node.EndToEnd | firmware/main.c:45-84 | a fresh decoder on that output delivers exactly n payloads in order, the k-th being sequence number k mod 65536 with the sample of phase k |
| Node.FaultyEndToEnd | firmware/main.c:54-72 | on a failing bus a decoder delivers nothing if init fails, otherwise the payloads before the first failing read, and reports no error text |
| Node.ServedIsFirstFailure | firmware/main.c:62-72 | the number of those iterations is the first whose read fails, if any does |
| Node.BannerBytes | firmware/main.c:48-48 | the banner, byte for byte |
| Node.ErrorBytes | firmware/main.c:54-72 | an error text, byte for byte around the word for what failed |
| Node.ErrorWords | firmware/main.c:54-72 | that word is init for the one text and read for the other |
| Node.NodeToDecoder | firmware/main.c:36-85 | the same of the node and decoder objects run one after the other |
| Node.NoiseBetweenIterations | firmware/main.c:62-84 | any bytes injected into the output of n iterations after the k-th, for every k from 0 to n, cost the node no message; the extra reports depend on these bytes and on whether a frame came before |
| Fleet.BuildFrame | sim/fleet_node.c:21-30 | the frame of the reading, or the encoder's failure handed on |
| Fleet.ReadingShape | sim/fleet_node.c:10-16 | the wave through every period: 0, 5, 8, 5, 0, -5, -8, -5 milli-g |
| Fleet.ReadingFields | sim/fleet_node.c:15-18 | Y runs two steps ahead of X, Z is 1000, the sequence number counts modulo 65536 |
| Fleet.FleetDelivers | sim/fleet_node.c:12-19 | from any start phase and any decoder state, every reading is delivered in order through every wrap |

## Left out

- Gateway decoding (`gateway/src/decode.cpp`) is a stub; transport, storage, event loop and kernel driver are not written.
- UART, I2C controller and start-up registers (`firmware/uart.c`, `firmware/i2c_stellaris.c`, `firmware/startup.c`) depend on hardware; the serial line is a growing byte sequence.
- Sockets, signals and arguments of `sim/fleet_main.c` and the scripts.
- NULL `this`-like pointers (decoder state, simulator, scale output) and optional output pointers of the unpackers: single-branch facts.
- Binding a bus to a NULL simulator, and a bus with only one method missing: a bus is bound or not.
- `delay_pace` and every claim about timing or throughput.
- Damage to several bytes on the wire that makes or unmakes FLAGs or ESCs. For one such byte the exact verdict is proved; `ByteDamage.EscapeMadeUnseen`, `ByteDamage.EscapeUnmadeUnseen` and `ByteDamage.FlagMadeUnseen` show that one flipped bit that makes or unmakes an ESC, or makes a FLAG, can go unseen.
- A lost FLAG that neighbouring frames share, or one that becomes ESC before a frame: their frames run together into one stretch, judged as `Stream.DecoderRefinesBatch` says.
