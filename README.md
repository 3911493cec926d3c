# esp32c3-superlab serial link, clocks and sensor selection in Dafny

This project models the logic of the esp32c3-superlab firmware and its host programs. It also proves properties of that model.

- **Frame codec.** A host and an ESP32-C3 device exchange `Command`s and `Response`s over a serial line. Each value is serialised, followed by the CRC-32/CKSUM of the serialised bytes and COBS-encoded into a zero-terminated frame (`serialize_crc_cobs`). `deserialize_crc_cobs` undoes this and reports `BitFlipData` when the checksums disagree. COBS, the checksum and the calendar arithmetic are modelled concretely. The serialiser is a fixed layout standing in for `ssmarshal`: a one-byte variant tag, then little-endian u32 fields. Its round trip and prefix delimitation are proved, not assumed.
- **Date conversion.** `UtcDateTime` converts to and from a chrono date-time. The device turns a date into Unix milliseconds by the day count of section 4.16 of POSIX.1-2017 Base Definitions.
- **Device (`serial_prototype`).**
  - The UART handler stores bytes up to a zero byte, then decodes the frame and dispatches the command.
  - It offers exactly one response to a bounded queue of capacity 100.
  - `Set(A(date))` moves the epoch to that date.
  - The timer handler adds the real-time-clock delta to the epoch.
  - The transmit task frames the queued responses.
- **Host `request`.** It writes the frame, reads bytes until a zero byte arrives, and resends on every timeout. Then it decodes the reply. The serial port is a finite sequence of read events.
- **Five-slot shift register.** The model follows the code as written.
- **Tap-tempo application.** A millisecond/second/minute/hour clock with carries, plus a blink period that a button press switches.
- **Sensor host client.** It tracks three devices, decides which are valid and selects the first valid one.
- **Day-phase lamp.** It picks a phase colour from the clock and blanks the LED on every other pass.

Code that changes state in place is modelled imperatively:
- classes with fields and `modifies` clauses;
- arrays for buffers;
- loops with invariants.

Each such method is proved to perform a pure step function. The properties are proved about those functions.

## Model

| member | source | states |
|---|---|---|
| Common.LeU32 | shared/src/lib.rs:63 | a serialised u32 (the checksum field) takes exactly four bytes |
| Common.ParseU32 | shared/src/lib.rs:78 | reading a u32 succeeds iff at least four bytes remain, and what follows them is returned untouched |
| Common.ParseLeU32 | shared/src/lib.rs:78 | reading back the four bytes of a serialised u32 gives the value and exactly the bytes after it |
| Common.I32Bits | shared/src/date_time.rs:6 | the i32 year travels as a u32 whose top bit is set exactly for negative years |
| Common.BitsI32 | shared/src/date_time.rs:6 | decoding a u32 gives the i32 that encodes to it |
| Common.I32BitsRoundTrip | shared/src/date_time.rs:6 | an i32 survives encoding and decoding |
| Crc32.Checksum | shared/src/lib.rs:46 | CRC-32/CKSUM of the bytes: polynomial 0x04C11DB7 fed top bit first from a zero register, result complemented |
| Crc32.SingleByteErrorDetected | shared/src/lib.rs:57-84 | two byte strings that differ in exactly one byte (any single flipped bit included) have different checksums, so `BitFlipData` catches every such corruption of the payload |
| Crc32.CheckValue | shared/src/lib.rs:46 | the CRC-32/CKSUM parameters give the catalogue check value 0x765E7680 on "123456789" |
| Cobs.Encode | shared/src/lib.rs:65-66 | the encoding is the stuffed blocks followed by the terminating zero |
| Cobs.RunLength | shared/src/lib.rs:65 | the leading block is at most 254 non-zero bytes and stops only at a zero or at 254 |
| Cobs.Blocks | shared/src/lib.rs:65 | the stuffed blocks are non-empty and start with a non-zero code byte |
| Cobs.BlocksZeroFree | shared/src/lib.rs:65 | no zero byte appears among the stuffed blocks |
| Cobs.EncodeDelimited | shared/src/lib.rs:65 | an encoded frame ends in its single terminating zero and has no other zero |
| Cobs.BlocksLength | shared/src/lib.rs:65-66 | encoding adds at least one and at most 1 + n/254 bytes before the terminator |
| Cobs.Decode | shared/src/lib.rs:75 | a decoded frame is shorter than the buffer it was decoded from; a malformed buffer gives None |
| Cobs.DecodeEncodeFull | shared/src/lib.rs:65-75 | a leading full 254-byte block decodes back when the rest of the frame does |
| Cobs.DecodeEncodeZero | shared/src/lib.rs:65-75 | a leading block cut at a zero decodes back, with that zero, when the rest of the frame does |
| Cobs.DecodeEncode | shared/src/lib.rs:65-75 | decoding an encoded frame gives the data back, whatever bytes follow the terminator in the buffer |
| DateTime.DaysInMonth | shared/src/date_time.rs:39 | every month has between 28 and 31 days (29 in a leap February) |
| DateTime.FromChrono | shared/src/date_time.rs:15-27 | a chrono date-time converts field by field into valid UtcDateTime fields |
| DateTime.ToChrono | shared/src/date_time.rs:29-41 | valid fields (the unwrap panics otherwise) give a valid chrono date-time with the nanoseconds dropped |
| DateTime.UtcRoundTrip | shared/src/date_time.rs:15-41 | UtcDateTime to chrono and back keeps year..second and sets nanoseconds to 0 |
| DateTime.ChronoRoundTrip | shared/src/date_time.rs:15-41 | chrono to UtcDateTime and back is the instant truncated to whole seconds |
| DateTime.DaysFromCivil | esp32c3/examples/serial_prototype.rs:217-219 | the day number of a date counted from 1970-01-01, through whole years, whole months and the day of the month |
| DateTime.UnixSeconds | esp32c3/examples/serial_prototype.rs:217-219 | seconds since the Epoch: 86400 per day plus the time of day |
| DateTime.TimestampMillis | esp32c3/examples/serial_prototype.rs:219 | chrono's `timestamp_millis`: whole seconds times 1000 plus the whole milliseconds of the nanoseconds |
| DateTime.DaysBeforeMonth | esp32c3/examples/serial_prototype.rs:217-219 | the days before a month lie between 0 and 335 |
| DateTime.YearLength | esp32c3/examples/serial_prototype.rs:217-219 | the epoch day count grows by 366 over a leap year and by 365 over any other year |
| DateTime.NextDay | esp32c3/examples/serial_prototype.rs:217 | the day after a valid date is a valid date |
| DateTime.NextDayCounts | esp32c3/examples/serial_prototype.rs:217-219 | consecutive calendar days have consecutive day numbers, across month, February and year ends |
| DateTime.EpochIsDayZero | esp32c3/examples/serial_prototype.rs:219 | 1970-01-01 is day 0 |
| DateTime.SecondsWithinDay | esp32c3/examples/serial_prototype.rs:219 | the seconds of a date fill exactly its 86400-second day |
| DateTime.DaysMonotone | esp32c3/examples/serial_prototype.rs:217-219 | later dates have larger day numbers, so the conversion is one-to-one |
| DateTime.MonthsBefore | esp32c3/examples/serial_prototype.rs:219 | a month ends no later than any later month starts |
| DateTime.InitialEpoch | esp32c3/examples/serial_prototype.rs:143-145 | 2023-01-01T00:00:00Z is 1672531200000 ms |
| Messages.Serialize | shared/src/lib.rs:56 | the bytes `ssmarshal::serialize` writes for a command or a response |
| Messages.ParseSerUtc | shared/src/date_time.rs:4-13 | a serialised UtcDateTime reads back as itself, with the rest of the bytes after it |
| Messages.ParseSerMessage | shared/src/lib.rs:23-28 | each `Message` variant reads back as itself, with the rest after it |
| Messages.ParseSerCommand | shared/src/lib.rs:16-19 | each `Command` reads back as itself, with the rest after it |
| Messages.ParseSerResponse | shared/src/lib.rs:32-38 | each `Response` reads back as itself, with the rest after it |
| Messages.Deserialize | shared/src/lib.rs:76 | a successful read yields a value of the requested kind and consumes a non-empty prefix of the input, whose length it reports |
| Messages.DeserializeSerialize | shared/src/lib.rs:56-76 | deserialising serialised bytes followed by anything gives the value and the serialised length (round trip, prefix-delimited) |
| Messages.CommandSize | shared/src/lib.rs:16-19 | a serialised command takes 13 to 46 bytes |
| Messages.ResponseSize | shared/src/lib.rs:32-38 | a serialised response takes 1 to 17 bytes |
| Framing.WireCrc | shared/src/lib.rs:57-61 | the transmitted checksum differs from the payload checksum exactly in test mode (the increment must not overflow) |
| Framing.TransmittedCrc | shared/src/lib.rs:56-61 | for a payload, the sent checksum is the payload checksum unless in test mode |
| Framing.RawFrame | shared/src/lib.rs:56-63 | before encoding, the frame is the serialised payload followed by four checksum bytes |
| Framing.Frame | shared/src/lib.rs:51-67 | the bytes `serialize_crc_cobs` returns: COBS of the payload followed by its (possibly test-mode) checksum |
| Framing.DecodedInPlace | shared/src/lib.rs:75 | in-place decoding keeps the buffer length and puts the decoded bytes at its front |
| Framing.Unframe | shared/src/lib.rs:71-87 | a successful result is the deserialised payload of the expected kind |
| Framing.FrameDelimited | shared/src/lib.rs:65 | a frame ends in a zero and has no other zero, which both receivers rely on |
| Framing.FrameLength | shared/src/lib.rs:65-66 | frame length lies between n+2 and n+2+n/254 for n payload-and-checksum bytes |
| Framing.UnframeRaw | shared/src/lib.rs:75-86 | decoding a frame of payload and checksum gives the payload, or BitFlipData iff the checksum differs from that of the payload bytes |
| Framing.UnframeFrame | shared/src/lib.rs:51-87 | a frame made by `serialize_crc_cobs` decodes as its payload, or as BitFlipData when made in test mode |
| Framing.RoundTrip | shared/src/lib.rs:51-87 | `deserialize_crc_cobs(serialize_crc_cobs(t, false)) == Ok(t)` |
| Framing.TestModeDetected | shared/src/lib.rs:59-84 | a frame sent in test mode always decodes as BitFlipData |
| Framing.SerializeCrcCobs | shared/src/lib.rs:51-67 | the buffer starts with the frame, whose length is returned; the bytes after it are unchanged |
| Framing.CrcCobsInPlace | shared/src/lib.rs:57-66 | after serialising, the buffer holds COBS(payload ++ checksum) and the returned length is that frame's length |
| Framing.PayloadAndCrc | shared/src/lib.rs:56-63 | the checksum is computed over exactly the payload bytes in the buffer and written right after them |
| Framing.EncodeFromCopy | shared/src/lib.rs:64-66 | encoding from a copy writes the encoding of the original bytes over the buffer |
| Framing.DeserializeCrcCobs | shared/src/lib.rs:71-87 | the method leaves the buffer decoded in place and returns exactly `Unframe` of the old buffer |
| HostRequest.Run | host/src/main.rs:83-126 | the transmission loop: write the frame, store bytes until a zero, restart on a timeout, stop on a write or read error |
| HostRequest.Request | host/src/main.rs:75-129 | `request`: the loop, then the closing decode of a complete frame |
| HostRequest.Finish | host/src/main.rs:128 | the final decode gives a reply, or it panics on a malformed reply or a checksum fault |
| HostRequest.WritesCountTimeouts | host/src/main.rs:85-126 | the frame is written once, then once more after each timeout consumed |
| HostRequest.EndsOnEvent | host/src/main.rs:93-124 | a frame is complete only right after a zero byte, and a read error ends the loop only right after a failed read |
| HostRequest.RequestEnds | host/src/main.rs:75-129 | a request replies only after a zero byte, reports a read error only after a failed read, and writes 1 + (timeouts) times |
| HostRequest.SkipTimeouts | host/src/main.rs:106-111 | each timeout resends the frame with the index back at 0 and changes nothing else |
| HostRequest.StoreBytes | host/src/main.rs:95-103 | non-zero bytes are stored consecutively in `in_buf` from the current index |
| HostRequest.FinishFrame | host/src/main.rs:128 | a reply frame in the buffer decodes as its response, or panics on the checksum when framed in test mode |
| HostRequest.ReadFrame | host/src/main.rs:91-124 | a zero-terminated frame read from index 0 ends up at the front of `in_buf` |
| HostRequest.FrameAfterTimeouts | host/src/main.rs:85-126 | after k timeouts, a frame is read whole once k + 1 writes have been made |
| HostRequest.ReplyAfterTimeouts | host/src/main.rs:75-129 | after any number of timeouts, the device's reply is returned (it panics if framed in test mode) after timeouts + 1 writes |
| HostRequest.OverrunPanics | host/src/main.rs:95-99 | as many non-zero bytes as the buffer holds run the index past `in_buf` |
| HostRequest.SendRequest | host/src/main.rs:75-129 | `request` gives the outcome, write count and buffer of `Request`, every write sends the same encoded frame, and `out_buf` starts with the frame of the command with the rest unchanged |
| HostRequest.Transmit | host/src/main.rs:83-126 | the transmission loop ends exactly as the specification's loop does, with the same write count, buffer and events consumed, and writes the same bytes every time |
| HostRequest.ReadReply | host/src/main.rs:91-125 | one attempt's reading ends in a resend, a complete frame or a stop, as the specification's loop does |
| HostRequest.DecodeReply | host/src/main.rs:128 | the closing decode gives the specification's outcome and leaves the buffer decoded in place |
| SerialPrototype.InitialDate | esp32c3/examples/serial_prototype.rs:143 | the start-up date 2023-01-01T00:00:00 is a valid date-time |
| SerialPrototype.AsCommand | esp32c3/examples/serial_prototype.rs:200 | decoding succeeds exactly when the command result is Ok |
| SerialPrototype.Dispatch | esp32c3/examples/serial_prototype.rs:203-262 | any decoded command answers SetOk and BitFlipData answers NotOK; only Set(A(date)) changes the epoch, to the date's Unix ms without nanoseconds |
| SerialPrototype.Offer | esp32c3/examples/serial_prototype.rs:264-269 | a response is appended iff the queue holds fewer than 100; queued responses keep their order, and the capacity is never exceeded |
| SerialPrototype.Answered | esp32c3/examples/serial_prototype.rs:196-269 | at a zero byte the cursor resets to 0 and at most one response is queued |
| SerialPrototype.Received | esp32c3/examples/serial_prototype.rs:191-274 | a non-zero byte is stored at the cursor, which advances; a zero byte resets it and offers one response |
| SerialPrototype.Fed | esp32c3/examples/serial_prototype.rs:191-275 | the receive loop keeps the buffer size |
| SerialPrototype.Advanced | esp32c3/examples/serial_prototype.rs:317-329 | the epoch gains `new - previous` ms and `previous` becomes the new reading |
| SerialPrototype.TicksTelescope | esp32c3/examples/serial_prototype.rs:317-329 | over consecutive ticks, the epoch gains the last reading minus the initial one |
| SerialPrototype.FeedRun | esp32c3/examples/serial_prototype.rs:191-274 | a run of non-zero bytes is stored consecutively from the cursor |
| SerialPrototype.DeviceAnswersFrame | esp32c3/examples/serial_prototype.rs:191-274 | a whole command frame is answered with SetOk, or NotOK in test mode; the cursor resets; the epoch moves only for Set(A(date)) |
| SerialPrototype.AnswersFrame | esp32c3/examples/serial_prototype.rs:196-269 | the terminator after a stored frame answers it and resets the cursor |
| SerialPrototype.ResponseFrameSize | esp32c3/examples/serial_prototype.rs:309 | every response frame fits in 23 bytes |
| SerialPrototype.Device.constructor | esp32c3/examples/serial_prototype.rs:136-147 | `init` gives a zeroed receive buffer, cursor 0, an empty queue, epoch 1672531200000 and the start-up RTC reading |
| SerialPrototype.Device.ReceiveByte | esp32c3/examples/serial_prototype.rs:191-274 | one pass of the receive loop performs exactly the step `Received` and leaves the previous RTC reading alone |
| SerialPrototype.Device.Uart0 | esp32c3/examples/serial_prototype.rs:181-278 | the handler performs `Fed` over the ready bytes and leaves the previous RTC reading alone |
| SerialPrototype.Device.AdvanceTime | esp32c3/examples/serial_prototype.rs:314-337 | the tick performs `Advanced` and leaves the receiver and the queue alone |
| SerialPrototype.Device.TransmitNext | esp32c3/examples/serial_prototype.rs:280-312 | the oldest response leaves the queue and is sent as its frame; the epoch, the cursor and the previous RTC reading are unchanged |
| ShiftRegisters.Inserted | shared/src/shift_register.rs:15-21 | after insert(v), slot 0 is v and slot 4 is unchanged |
| ShiftRegisters.Bumped | shared/src/shift_register.rs:22-24 | entries grows by one exactly when below 5 |
| ShiftRegisters.EntriesCapped | shared/src/shift_register.rs:22-24 | after n inserts, entries is min(n, 5) |
| ShiftRegisters.ValidFromFifth | shared/src/shift_register.rs:32-34 | `valid_entries` holds exactly from the fifth insert on |
| ShiftRegisters.ReplayShape | shared/src/shift_register.rs:15-25 | after inserts, slot 0 holds the newest value, slots 1-3 the one before it, and slot 4 zero |
| ShiftRegisters.AverageAfterTwo | shared/src/shift_register.rs:27-29 | after two or more inserts, the average is (newest + 3 × previous) / 5 |
| ShiftRegisters.ShiftRegister.constructor | shared/src/shift_register.rs:11-13 | `new` gives five zero slots and no entries |
| ShiftRegisters.ShiftRegister.Insert | shared/src/shift_register.rs:15-25 | the forward copy and the capped counter update are exactly `Inserted` and `Bumped` |
| ShiftRegisters.ShiftRegister.ValidEntries | shared/src/shift_register.rs:32-34 | `valid_entries`: five or more values were inserted |
| ShiftRegisters.ShiftRegister.Avg | shared/src/shift_register.rs:27-29 | `avg` is the floor of the sum of all five slots over 5 |
| ShiftRegisters.FromNew | shared/src/shift_register.rs:11-34 | inserting values into a new register gives the replayed slots and counter; it is valid iff five or more were inserted |
| ShiftRegisters.AvgWorks | shared/src/shift_register.rs:59-71 | after 1, 2, 3 the average is 1; after 4 more it is 2, not the 1 the example asserts |
| ShiftRegisters.ForwardCopyLosesHistory | shared/src/shift_register.rs:42-57 | after 1, 2, 3, 4 the register holds 4, 3, 3, 3, 0, not the window the test expects |
| ShiftRegisters.SlidingWindow | shared/src/shift_register.rs:42-57 | with the sliding insert, slot i holds the i-th newest value, or 0 |
| TapTempo.TimeMillis | esp32c3/examples/tap_tempo.rs:41-43 | `get_time_millis`: the clock's reading in milliseconds |
| TapTempo.Pressed | esp32c3/examples/tap_tempo.rs:148-158 | the button sets the pending switch and nothing else |
| TapTempo.Blinked | esp32c3/examples/tap_tempo.rs:162-185 | a blink inverts the LED and, when a switch is pending, swaps the period between 500 and 250 and clears it |
| TapTempo.Incremented | esp32c3/examples/tap_tempo.rs:47-63 | with normal fields and incr ≤ 1000, the fields stay normal and the reading grows by exactly incr; the carries chain 59→0 into the hours |
| TapTempo.NormalCanIncrement | esp32c3/examples/tap_tempo.rs:47-63 | a normal clock whose reading stays below 2^64 never overflows a field when incremented |
| TapTempo.Ticked | esp32c3/examples/tap_tempo.rs:188-195 | n timer ticks keep the clock normal and raise its reading by 10·n |
| TapTempo.NormalFromMillis | esp32c3/examples/tap_tempo.rs:41-43 | a normal clock's fields are the mixed-radix digits of `get_time_millis` |
| TapTempo.NormalInjective | esp32c3/examples/tap_tempo.rs:41-43 | two normal clocks with the same reading are equal |
| TapTempo.Rtc.constructor | esp32c3/examples/tap_tempo.rs:133 | the clock starts at all zeros |
| TapTempo.Rtc.IncrementMillis | esp32c3/examples/tap_tempo.rs:47-63 | `increment_millis` is exactly `Incremented` |
| TapTempo.Rtc.Reset | esp32c3/examples/tap_tempo.rs:64-69 | `reset` zeroes all fields, so the reading is 0 |
| TapTempo.BlinkPeriods | esp32c3/examples/tap_tempo.rs:163-185 | the period stays 500 or 250; a blink after a press swaps it, a blink without one keeps it; the LED flips on every blink and the switch is cleared |
| TapTempo.BlinksAlternate | esp32c3/examples/tap_tempo.rs:163-168 | n blinks flip the LED n times, and the period is fixed after the first blink |
| TapTempo.PressTwiceRestores | esp32c3/examples/tap_tempo.rs:148-185 | two press-and-blink rounds restore the period |
| TapTempo.App.constructor | esp32c3/examples/tap_tempo.rs:115-136 | `init` gives a zero clock, LED low, period 500 and no switch pending |
| TapTempo.App.Button | esp32c3/examples/tap_tempo.rs:148-158 | the button handler sets `led_switch` |
| TapTempo.App.BlinkTask | esp32c3/examples/tap_tempo.rs:162-185 | the blink handler performs `Blinked` |
| TapTempo.App.Timer | esp32c3/examples/tap_tempo.rs:188-195 | each timer tick advances the reading by `TIMER_UPDATE_PERIOD_MS` = 10 |
| TapTempo.RunTimer | esp32c3/examples/tap_tempo.rs:188-195 | n timer interrupts advance the reading by 10·n |
| SensorHost.InitialDevices | exercise_3/host-client/src/main.rs:214-248 | devices 0, 1, 2 start DEAD and invalid, with readings stamped at the epoch |
| SensorHost.Published | exercise_3/host-client/src/main.rs:117-122 | a reading makes the device OK and replaces only that reading, stamped now |
| SensorHost.ApplyPublish | exercise_3/host-client/src/main.rs:109-195 | a 4-byte payload on a device's topic updates only that device's reading; anything else changes nothing |
| SensorHost.IsValid | exercise_3/host-client/src/main.rs:290-309 | a device is valid iff it is OK and both readings are younger than 5 s |
| SensorHost.SelectDevice | exercise_3/host-client/src/main.rs:253-266 | returns the id of the first valid device, or usize::MAX iff none is valid |
| SensorHost.Step | exercise_3/host-client/src/main.rs:105-209 | one loop iteration keeps three devices and no reading stamped after now |
| SensorHost.Run | exercise_3/host-client/src/main.rs:105-209 | the loop keeps three devices with ids 0, 1, 2 and no future stamps |
| SensorHost.NoStampDuringStartup | exercise_3/host-client/src/main.rs:203-206 | no reading counts during the first five seconds |
| SensorHost.RunTracks | exercise_3/host-client/src/main.rs:105-209 | after any run, stamps are the last post-start-up arrivals, status is OK iff some reading arrived, and valid follows the rule at the last time |
| SensorHost.ValidIffRecent | exercise_3/host-client/src/main.rs:290-309 | a device is valid iff, after start-up, both its readings are younger than 5 s |
| SensorHost.SelectedIsFirstRecent | exercise_3/host-client/src/main.rs:253-266 | the selected device is the first in priority order with both readings recent, and none is selected during start-up |
| SensorHost.SelectsFirstValid | exercise_3/host-client/src/main.rs:253-266 | the selected id is the index of the first valid device |
| SensorHost.HandlePublish | exercise_3/host-client/src/main.rs:109-195 | the in-place topic rules are `ApplyPublish` |
| SensorHost.SetDeviceValid | exercise_3/host-client/src/main.rs:290-309 | only device k's valid flag changes: DEAD is invalid, OK is valid iff both ages are under 5 s |
| SensorHost.Initialise | exercise_3/host-client/src/main.rs:214-248 | the array holds the initial devices |
| SensorHost.Iterate | exercise_3/host-client/src/main.rs:105-209 | one in-place iteration performs `Step` |
| SensorHost.MainLoop | exercise_3/host-client/src/main.rs:105-209 | the loop leaves `Run` of the notifications and selects `SelectDevice` of it |
| RgbTest.PhaseAt | esp32c3/examples/rgb_test.rs:111-123 | exactly one phase per time: dawn [180,540), noon [540,900), evening [900,1260), night otherwise |
| RgbTest.WrittenOffIffOff | esp32c3/examples/rgb_test.rs:111-127 | the blank colour is written iff the LED is off; the phase depends only on whole seconds |
| RgbTest.RunLoop | esp32c3/examples/rgb_test.rs:108-142 | pass i writes the colour for its clock reading, lit iff i is odd |
| RgbTest.WritesAlternate | esp32c3/examples/rgb_test.rs:125-139 | writes alternate blank, phase colour, …, starting blank |

## Left out

- I/O is left out: UART and serial-port drivers, `write_bytes`, MQTT, WiFi, logging (`rprintln!`, `println!`, `report_system_status` output, `print_time`), the delays and all peripheral setup.
- RTIC scheduling, priorities and locks are left out. Each handler is one sequential step, and the response channel is a sequence bounded by 100.
- The internals of `ssmarshal`, `crc`, `corncobs` and `chrono` are not part of this model.
  - The serialiser is a fixed layout with the properties the framing needs.
  - COBS, CRC-32/CKSUM and the calendar are written from their definitions.
- `IN_SIZE` and `OUT_SIZE` (derived from `size_of` of Rust enums) are parameters: the buffer lengths.
- Panics become preconditions on the device. On the host, the panics of the read loop and of the closing decode become `Panicked` outcomes, because its input is an arbitrary event sequence.
- HostRequest.SendRequest: the `unwrap` in serialising the command is a precondition: the frame of the command fits `out_buf`. `OUT_SIZE` is `max_encoded_len` of the size of a `Command` plus four bytes (host/src/main.rs:26), which is meant to ensure that.
- The host and device call `serialize_crc_cobs` with two arguments while the library takes three. Those callers are modelled with test mode off.
- HostRequest.Run: the port is a finite event sequence, with a choice of which write fails. Running out of events is the outcome `EventsExhausted`. The source would block or keep retrying forever.
- SerialPrototype.Device.AdvanceTime: the i64 epoch is an unbounded integer. Its overflow is not modelled, nor is the second-resolution date that `advance_time` prints.
- TapTempo.Incremented: the u64 overflow of `get_time_millis` on huge hour counts is not modelled. Overflow of the fields is a precondition.
- `Message::C` and `Message::D` only log on the device. No scheduling or period change is modelled, because the code has none.
- The device uses `Utc.ymd(..).and_hms(..)`. It is modelled by the same validity rule and day count as `with_ymd_and_hms`.
- Floats are left out: sensor readings keep their four raw bytes. HSV to RGB conversion, gamma and brightness are also left out.
- In the sensor host, `SystemTime::now()` is read once per loop iteration, as an integer of milliseconds. The source reads it up to three times per iteration.
- That timestamps are never later than now (`duration_since(..).unwrap()`) is a precondition.
- `usize::MAX` is the value of a 64-bit host.
- `ShiftRegister::as_array` is left out: it is `todo!()`.
- `avg_works` lacks `#[test]`, and its second assertion does not hold. `ShiftRegisters.AvgWorks` proves what the code gives.
- SerialPrototype.Fed: its own contract states only that the buffer keeps its size. What the loop does is stated by `FeedRun` and `DeviceAnswersFrame`.
- `systimer_test`, `rough_tap_tempo`, the MQTT device firmware and the other host client are not part of this model.

## Findings

| source | as written | input that shows it | evidently intended | confidence | as-written member | corrected member |
|---|---|---|---|---|---|---|
| shared/src/shift_register.rs:15-25 | `insert` copies forward over indices 1 to 3, so slots 1 to 3 all receive the old slot 0 and slot 4 is never written | inserting 1, 2, 3, 4 into a new register gives 4, 3, 3, 3, 0 | a newest-first window (4, 3, 2, 1, 0), as `insert_works` expects, copying backwards from the last slot | not executed | ShiftRegisters.ForwardCopyLosesHistory | ShiftRegisters.SlidingWindow |
