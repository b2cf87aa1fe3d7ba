# SMLReader framing and decoding, in Dafny

SMLReader is ESP8266 firmware that reads SML (Smart Message Language, transport
version 1) datagrams from the optical interface of an electricity meter. The
frames are then published. This project models the part that turns the serial
byte stream into frames and readings:

- **The framing state machine.** The machine waits for the start sequence
  `1B 1B 1B 1B 01 01 01 01`. It then collects the message into a 3840-byte
  buffer until the end sequence `1B 1B 1B 1B 1A`, reads the three trailer
  bytes (fill count and checksum), and hands the frame on. A session that takes
  longer than 30 seconds starts over.
  - The firmware contains the machine twice: as globals in `src/main.cpp` and as
    class `Sensor` in `src/Sensor.h`.
  - Both copies are specified once, as pure functions over a state snapshot in
    module `Framing`. The invariant is proved there, along with the cursor bounds
    and the buffer contents at every transition.
  - Class `SmlReader.Reader` (the global copy) and class `SensorMachine.Sensor`
    implement the handlers as methods with loops over an `array<byte>`. Each
    method is proved to produce exactly the state the `Framing` function
    describes.
- **The checksum gate of `process_message` (global copy only).** The check
  compares the CRC-16/X-25 of the frame with its last two bytes, read least
  significant first. CRC-16/X-25 is the FCS-16 of RFC 1662 (appendix C.2). The
  firmware takes it from a library; module `Crc16` specifies it bit by bit from
  the RFC.
  - It is proved that the firmware's comparison is equivalent to the "good FCS"
    residue test of the RFC.
  - It is proved that a frame sealed with its CRC passes, and that changing
    either checksum byte makes it fail.
  - The standard check value holds: 0x906E for "123456789".
- **The OBIS-pattern decoder of `process_message`.** The decoder byte-searches
  each metric's pattern. It then walks the type-length bytes of the SML list
  entry behind the pattern (status, time, unit, scaler, value), and accumulates
  the value big-endian into a `uint64_t` (module `Obis`).
  - The loop methods are proved against the specification function `DecodeAt`.
  - Decoding inverts encoding for every unsigned value below 2^63.
  - Several behaviours of the code as written are pinned down with concrete
    entries: no sign extension, a zero-length time field that is not skipped, and
    255 value bytes read for a zero length nibble.
- **The DLMS unit table of `src/unit.h`.** This is the table of unit codes of
  EN 62056-62 and the do-while lookup `dlms_get_unit` over it (module `Units`).

Bytes are the numbers 0 to 255. The masks `& 0x0f` and `& 0x70` of the decoder
are written as the equivalent arithmetic. `millis()` is a `uint32` parameter
`now`, and elapsed time is computed modulo 2^32 as the unsigned subtraction
does. The serial line is the sequence `input` that each handler drains. The
publisher and the callback are recorded histories (`published`, `delivered`).

In these places the model follows the code as written:
- **Start sequence.** After the start sequence has been matched, the cursor
  stays at 8 and the session clock is not restarted. `set_state(read_message)`
  changes only the state (`Framing.WaitMatchesStart`).
- **Signed values.** The "signed" marker `0x50` does not sign-extend short
  values. The conditional's common type is `uint64_t` (`Obis.SignMarkerIgnored`,
  `Obis.SignedByteNotExtended`).
- **Zero-length time field.** A time field of length zero is not stepped over.
  So the entry `01 00 62 1E 62 FF 64 …` decodes with unit 0x62 and
  scaler 98, and reads 255 value bytes (`Obis.ZeroLengthTimeNotSkipped`). With a
  one-byte time field (`01`) it decodes as intended (`Obis.EmptyTimeEntryDecodes`).
- **No checksum in `Sensor`.** The class copy hands every complete frame to its
  callback without any checksum test.

## Model

| member | source | states |
|---|---|---|
| Base.ToInt8 | src/main.cpp:212-214 | the scaler byte read as `int8_t`: non-negative exactly when below 0x80, and congruent to the byte modulo 256 |
| Base.ToInt64 | src/main.cpp:230 | `uint64_t` to `int64_t`: non-negative exactly below 2^63, and congruent modulo 2^64 |
| Base.ToUint64 | src/main.cpp:230 | `int64_t` to `uint64_t`: congruent modulo 2^64 |
| Crc16.Word | src/main.cpp:177 | the given checksum `(buffer[position-1] << 8) \| buffer[position-2]` has the first byte as its low octet and the second as its high octet |
| Crc16.WordOfOctets | src/main.cpp:177 | every 16-bit value is the word of its own low and high octets, so the byte swap loses nothing |
| Crc16.FcsSnoc | src/main.cpp:175 | CRC of a frame: appending one octet folds exactly that octet into the register |
| Crc16.ResidueStep | src/main.cpp:175-179 | appending the complemented register, low octet first, leaves the good FCS 0xF0B8 of RFC 1662 |
| Crc16.ResidueStepUnique | src/main.cpp:175-179 | only those two octets leave the good FCS |
| Crc16.CheckIffGoodResidue | src/main.cpp:175-179 | the firmware's comparison holds for a frame exactly when folding the whole frame leaves the good FCS |
| Crc16.CheckValue | src/main.cpp:175 | CRC-16/X-25 of "123456789" is 0x906E, the standard check value |
| Units.Probe | src/unit.h:108-114 | the do-while stops at the first row with the code, or at the last row before the sentinel; every row passed differs from the code, and the sentinel is never compared |
| Units.CodesStrictlyIncreasing | src/unit.h:36-106 | 65 real rows plus the sentinel `{0, ""}`; the codes start at 1 and strictly increase, so they are unique and never 0 |
| Units.GetUnit | src/unit.h:108-117 | a symbol is returned only when a real row pairs it with the code; NULL is returned only when no real row has the code |
| Units.GetUnitListed | src/unit.h:36-114 | every listed code yields the symbol on its own row |
| Units.GetUnitZero | src/unit.h:105-116 | code 0 yields NULL, not the sentinel's empty string |
| Units.GetUnitUnlisted | src/unit.h:36-116 | the unlisted codes 58, 59 and 65 to 252 yield NULL |
| Units.SearchIsBounded | src/unit.h:108-116 | the search makes at most 65 comparisons |
| Units.PowerAndEnergyUnits | src/unit.h:65-68 | 27 yields "W" and 30 yields "Wh" |
| Units.VoltageAndCountUnits | src/unit.h:73-104 | 35 yields "V" and 255 yields "(unitless)" |
| Framing.SetState | src/main.cpp:69-91 | entering wait rewinds the cursor to 0 and records `now`; entering read_checksum sets the countdown to 3; everything else changes only the phase; the buffer never changes |
| Framing.Reset | src/main.cpp:94-101 | reset yields the wait phase, cursor 0 and reset time `now`, with the buffer and countdown untouched |
| Framing.ResetTwice | src/main.cpp:94-101 | two consecutive resets equal the second one |
| Framing.NextMatch | src/main.cpp:111 | the rolling start-sequence match advances by at most one per byte |
| Framing.EndSequenceFound | src/main.cpp:136-150 | the backward comparison succeeds exactly when the five bytes before the cursor are the end sequence |
| Framing.ResetKeepsInv | src/main.cpp:94-101 | a reset always establishes the machine invariant |
| Framing.WaitKeepsInv | src/main.cpp:104-120 | the wait handler keeps the matched part of the start sequence in the buffer; it stays waiting only after draining all input, and leaves only for read_message with the cursor at 8 |
| Framing.WaitMatchesStart | src/main.cpp:104-120 | fed the rest of the start sequence, the wait handler stores it and enters read_message with the cursor at 8 and the buffer starting with the sequence; it reads nothing more and keeps the reset time |
| Framing.MarkerAfterEscapeMissed | src/main.cpp:106-119 | a start sequence preceded by one more 0x1B is not detected: the mismatching byte gets no prefix credit |
| Framing.ReadMessageKeepsInv | src/main.cpp:123-152 | read_message keeps the cursor between 8 and 3837 and never passes over an end sequence; it leaves for read_checksum or wait, or stays |
| Framing.EndMarkerEndsMessage | src/main.cpp:133-150 | the byte that completes an end sequence moves the machine to read_checksum, with the invariant |
| Framing.MessageContinues | src/main.cpp:133-150 | a byte that completes no end sequence is appended, and read_message continues with the invariant |
| Framing.ReadMessageAppends | src/main.cpp:123-152 | read_message consumes a prefix of the input and appends it behind the cursor. On overflow (`position + 3 == 3840`) it resets without consuming the next byte. It stays in read_message only when the input is exhausted |
| Framing.ReadMessageReadsBody | src/main.cpp:123-152 | fed a body whose first end sequence is its last five bytes, read_message appends the body and enters read_checksum right behind it, with countdown 3 |
| Framing.TrailerAppends | src/main.cpp:155-162 | the trailer loop appends what it consumes and counts it down; it stops when the countdown or the input runs out |
| Framing.TrailerReadsAll | src/main.cpp:155-170 | fed as many bytes as the countdown asks for, the trailer loop appends them all and stops at zero |
| Framing.TrailerKeepsFrame | src/main.cpp:155-162 | reading trailer bytes leaves the frame and its end sequence in place |
| Framing.ReadChecksumKeepsInv | src/main.cpp:155-170 | read_checksum keeps the invariant and enters process_message exactly when the countdown reaches 0 |
| Framing.Handle | src/main.cpp:240-252 | each handler keeps the invariant and moves at most one phase forward, or back to wait; a frame is processed exactly in process_message |
| Framing.Tick | src/main.cpp:240-252 | nothing happens before the machine is started. A frame is processed exactly when the tick finds it complete and not timed out; processing resets the machine and consumes nothing |
| Framing.WaitKeepsReset | src/main.cpp:104-120 | the wait handler never changes the time of the last reset |
| Framing.TimeoutRestartsSession | src/main.cpp:240-252 | a started session older than 30 s is discarded: the tick resets (clock restarted at `now`, cursor rewound), then runs the wait handler on the fresh state in the same tick; no frame is processed, and the machine ends waiting or right behind a start sequence |
| Framing.FrameIsProcessed | src/main.cpp:104-252 | a well-formed frame that arrives in time is read in four ticks; the fourth processes exactly the frame's bytes and starts over |
| SmlReader.Publication | src/main.cpp:172-238 | a complete frame is published at most once, exactly when its checksum matches; slot i holds the reading of metric i |
| SmlReader.ChecksumOkIffGoodFcs | src/main.cpp:175-179 | the checksum test passes exactly when the frame, folded whole, leaves the good FCS |
| SmlReader.SealedFrameIsAccepted | src/main.cpp:175-179 | the test passes exactly when the last two bytes are the CRC of the rest, low byte first |
| SmlReader.SealedFrameIsPublished | src/main.cpp:104-183 | a well-formed frame sealed with its CRC is complete after three ticks and passes the checksum test |
| SmlReader.Reader.constructor | src/main.cpp:51-56 | the globals start with a null state, cursor 0, reset time 0, countdown 0, a zeroed buffer and nothing published |
| SmlReader.Reader.SetState | src/main.cpp:69-91 | the new state is `Framing.SetState` of the old one |
| SmlReader.Reader.Reset | src/main.cpp:94-101 | the new state is `Framing.Reset` of the old one |
| SmlReader.Reader.WaitForStartSequence | src/main.cpp:104-120 | the loop yields exactly the state and unread input of `Framing.WaitSpec`, and keeps the invariant |
| SmlReader.Reader.ReadMessage | src/main.cpp:123-152 | the loop yields exactly `Framing.ReadMessageSpec`, and keeps the invariant |
| SmlReader.Reader.ReadChecksum | src/main.cpp:155-170 | the loop yields exactly `Framing.ReadChecksumSpec`, and keeps the invariant |
| SmlReader.Reader.ProcessMessage | src/main.cpp:172-238 | resets the machine, and appends `Publication` of the frame to what was published |
| SmlReader.Reader.RunCurrentState | src/main.cpp:240-252 | one tick is exactly `Framing.Tick`; when it processes a frame, that frame's `Publication` is appended |
| SensorMachine.Sensor.constructor | src/Sensor.h:35-63 | a new sensor waits for the start sequence with cursor 0, reset time `now` and nothing delivered |
| SensorMachine.Sensor.SetState | src/Sensor.h:105-127 | the new state is `Framing.SetState` of the old one |
| SensorMachine.Sensor.InitState | src/Sensor.h:130-133 | the new state is `Framing.Reset` of the old one |
| SensorMachine.Sensor.ResetState | src/Sensor.h:136-143 | the new state is `Framing.Reset` of the old one |
| SensorMachine.Sensor.WaitForStartSequence | src/Sensor.h:146-162 | the loop yields exactly `Framing.WaitSpec`, and keeps the invariant |
| SensorMachine.Sensor.ReadMessage | src/Sensor.h:165-194 | the loop yields exactly `Framing.ReadMessageSpec`, and keeps the invariant |
| SensorMachine.Sensor.ReadChecksum | src/Sensor.h:197-212 | the loop yields exactly `Framing.ReadChecksumSpec`, and keeps the invariant |
| SensorMachine.Sensor.ProcessMessage | src/Sensor.h:214-226 | a set callback receives the first `position` buffer bytes exactly once, with no checksum test; then the machine resets |
| SensorMachine.Sensor.RunCurrentState | src/Sensor.h:65-92 | one tick is exactly `Framing.Tick`: the timeout is checked before the dispatch, and `INIT` does nothing; a processed frame is delivered when a callback is set |
| SensorMachine.Sensor.Loop | src/Sensor.h:49-53 | one call of `loop` is one tick |
| Obis.SearchFromIsFirst | src/main.cpp:194 | the search from i finds an occurrence at i or later and skips none; it finds nothing exactly when nothing occurs there |
| Obis.FirstOccurrenceIsFirst | src/main.cpp:194-196 | `memmem_P` returns the first occurrence, and NULL exactly when the pattern does not occur |
| Obis.ValueLength | src/main.cpp:223-224 | `while (--nlen)` reads `(len - 1) mod 256` bytes, so a zero length reads 255 |
| Obis.ShiftInStep | src/main.cpp:226-227 | one `uvalue <<= 8; uvalue \|= b` is one big-endian step modulo 2^64 |
| Obis.AccumulateIsBeValue | src/main.cpp:222-228 | the accumulator holds the big-endian number of the bytes read, modulo 2^64 |
| Obis.ReadValue | src/main.cpp:222-228 | the value loop accumulates exactly the `len - 1` (wrapped) bytes behind the type-length byte |
| Obis.WalkToValue | src/main.cpp:199-219 | the walk skips status and time, takes unit and scaler at offset 1 of their fields, and stops on the value's type-length byte |
| Obis.DecodeEntry | src/main.cpp:199-230 | the walk over one entry yields `DecodeAt` of it |
| Obis.DecodeMetric | src/main.cpp:193-231 | one round of the metric loop yields the metric's `Reading`: nothing when the pattern is absent, else the entry behind its first occurrence |
| Obis.DecodeMetrics | src/main.cpp:191-232 | the metric loop fills the values with exactly `Readings`, one slot per metric |
| Obis.Readings | src/main.cpp:187-191 | there is one slot per metric |
| Obis.ReadingsAt | src/main.cpp:191-232 | slot i holds the reading of metric i |
| Obis.ReadingAbsentIff | src/main.cpp:194-196 | a slot stays empty exactly when the metric's pattern does not occur in the frame |
| Obis.SignMarkerIgnored | src/main.cpp:218-230 | the value is the big-endian number modulo 2^64, read as `int64_t`, whatever the type bits say |
| Obis.ShortValuesNonNegative | src/main.cpp:222-230 | values of at most seven bytes are read exactly and are never negative |
| Obis.DecodeEncode | src/main.cpp:199-230 | decoding an entry with unit, scaler and an unsigned value below 2^63 returns exactly those, wherever the entry sits |
| Obis.SignedByteNotExtended | src/main.cpp:218-230 | a signed one-byte value `52 FF` reads as 255, not as -1 |
| Obis.ZeroLengthTimeNotSkipped | src/main.cpp:202-224 | a zero-length time field is not skipped: behind `01 00 62 1E 62 FF 64` the unit is 0x62, the scaler 98, and 255 value bytes are read |
| Obis.EmptyTimeEntryDecodes | src/main.cpp:199-230 | behind `01 01 62 1E 62 FF 64 a b c` the unit is 0x1E, the scaler -1 and the value the unsigned big-endian `a b c` |

## Left out

- The web configuration (`src/webconf.h`), the MQTT and one-wire publishers, the
  debug output, and `setup`, `loop`, `configSaved` and `wifiConnected` of
  `src/main.cpp`. These are hardware, network and floating-point code around
  the machine. The initial `set_state(wait_for_start_sequence)` of `setup` is a
  call of `SmlReader.Reader.SetState`.
- The serial driver and `millis()`. The bytes available in one tick are the
  `input` sequence, and the clock is the parameter `now`, read once per tick.
  `yield()` and the `DEBUG` calls do nothing here.
- The internals of the CRC library. CRC-16/X-25 is specified bit by bit from
  RFC 1662, not table-driven as the library computes it.
- `loop_counter` is declared but never used.
- The unit symbols are kept as strings. Their encoding (UTF-8 "°", "³") is not
  modelled.
- `METRICS` and `NUM_OF_METRICS` are defined outside the files modelled here.
  The metric table is a parameter of `SmlReader.Reader`.
- Obis.DecodeMetrics: the firmware reads the entry behind a pattern without any
  bounds check. The decoder therefore requires every byte it reads to lie
  inside the 3840-byte buffer (`Decodes`); past it, the firmware's behaviour is
  undefined. Bytes between `position` and the end of the buffer are stale but
  defined, as in the firmware.
- Obis.DecodeMetric: a slot of `values[]` that is never written holds
  indeterminate stack contents in the firmware. Here it is `None`.
- Obis.FirstOccurrence: an empty pattern is found at index 0, the usual
  behaviour of `memmem`.
- SmlReader.Reader.RunCurrentState: the firmware calls it from `loop` only while
  the network is connected. That condition belongs to the left-out `loop`.
- SensorMachine.Sensor.ProcessMessage: the callback is recorded as the bytes it
  is given. What the callback then does is outside the class. The `Sensor *`
  argument is the object itself, and the config pointer (pin, name) is not
  modelled.
- SmlReader.Reader.constructor: requires fewer than 256 metrics. The metric loop of
  `process_message` counts with a `uint8_t`, so with 256 or more metrics it never
  ends; the model does not describe that non-terminating case.
- `bytes_until_checksum` is a `uint8_t` in the firmware. It is a `nat` here
  because it never exceeds 3.
