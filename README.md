# greenhouse-monitor, modelled in Dafny

This project models the greenhouse monitor's telemetry path, on both sides of the wire.

**Server (`scripts/server.py`).** Each connection runs a loop over 64-byte frames. For every frame the server:
- reads exactly one frame from the TCP stream (`recv_all`);
- splits it into a 32-byte payload and a 32-byte HMAC-SHA256 tag, and drops it unless the tag matches;
- decodes the little-endian `'<HBBIiiffq'` payload;
- checks the magic, then the version;
- checks the reading (`validate_sensor_data`);
- updates the client's last sequence number, reporting any gap;
- appends one row to the log.

**Firmware (`main/`).** The model covers:
- the packed `sensor_data_t` / `authenticated_packet_t` layouts, as the encoder the server's decoder inverts;
- `send_all`, which hands a buffer to the TCP stack however few bytes each `send` takes;
- the DHT11 driver, which reads five bytes of MSB-first bits timed by pulse widths, verifies an eight-bit checksum and extracts humidity and temperature.

**Modules.** There is one file per module:

| File | Module | What it holds |
|---|---|---|
| `wrappers.dfy` | `Wrappers` | `Option` and `Result` |
| `bytes.dfy` | `Bytes` | fixed-width integers and the little-endian codec |
| `esp.dfy` | `Esp` | `esp_err_t` |
| `float32.dfy` | `Float32` | classifying a float from its 32 bits |
| `wire.dfy` | `Wire` | the firmware's encoder |
| `decoder.dfy` | `Decoder` | the server's `struct.unpack` |
| `validator.dfy` | `Validator` | `validate_sensor_data` |
| `sequence_tracker.dfy` | `SequenceTracker` | the per-client gap check |
| `frame_reader.dfy` | `FrameReader` | `recv_all` over an abstract socket |
| `pipeline.dfy` | `Pipeline` | the per-frame step and the connection loop |
| `client.dfy` | `Client` | `send_all` |
| `dht11.dfy` | `Dht11` | the sensor driver |

**How the outside world is modelled.**
- **HMAC.** HMAC-SHA256 under the shared key is a parameter `mac` from payload to 32-byte digest. `hmac.compare_digest` is sequence equality.
- **`recv`.** The socket holds the bytes the peer has sent but the server has not yet received, and how the stream ends: closed, silent until the 30-second timeout, or reset. Each `recv` hands over a non-empty prefix of any length up to the amount asked for, chosen nondeterministically.
- **`send`.** Each `send` returns -1 or takes between 1 and all of the offered bytes, chosen nondeterministically. The socket records every call and every accepted byte.
- **DHT11 waits.** The bus timing is a finite trace of delays, in microseconds. The n-th `dht11_wait_for_level` sees its level after the trace's n-th delay. It succeeds when that delay is within its 100 µs timeout, and past the end of the trace it times out.
- **Gas readings.** The CH4 and CO2 readings are C `float`s, kept as their raw 32-bit patterns. They are classified as NaN, infinite or finite. Python's `math.isnan`, `math.isinf` and `< 0` are exact on them, because widening binary32 to a double is exact.
- **Locks.** The two lock-protected regions, `seq_lock` and `csv_lock`, are atomic steps of one `Server` object.

## Model

| member | source | states |
|---|---|---|
| Bytes.NatToLe | main/client.h:11-21 | The little-endian image of a value below 256^n is n bytes long and reads back as that value. |
| Bytes.NatToLeOfLeToNat | scripts/server.py:20 | Every n-byte string is the little-endian image of the number it reads as. Reading loses nothing. |
| Bytes.LeToNatInjective | scripts/server.py:20 | Two byte strings of the same length that read as the same number are equal. |
| Bytes.ToSigned | scripts/server.py:20 | Reading an `i`/`q` field as two's complement gives a value in the signed range. The value is non-negative exactly when the top bit is clear. It differs from the unsigned reading by 0 or by 256^n. |
| Bytes.FromSigned | main/client.h:16-20 | The two's-complement bits of a signed field fit its width and read back as the same signed value. |
| Bytes.FromSignedOfToSigned | main/client.h:16-20 | Converting any bit pattern to signed and back gives the same bits. |
| Float32.FromBits | main/client.h:18-19 | A float's bits encode NaN exactly when the exponent is all ones and the fraction is non-zero. They encode an infinity exactly when the exponent is all ones and the fraction is zero. Bit 31 is the sign. A finite value's exponent is bits 30..23 (below 255) and its fraction is bits 22..0. |
| Float32.IsNan | scripts/server.py:61 | `math.isnan` holds for NaN only. A NaN is neither infinite nor below zero. |
| Float32.IsInf | scripts/server.py:61 | `math.isinf` holds for the two infinities only, and -inf is below zero while +inf is not. |
| Float32.LessThanZero | scripts/server.py:63 | `x < 0` holds only for values with the sign set, never for NaN and never for -0.0. |
| Float32.GasAcceptableIff | scripts/server.py:61-63 | A gas reading passes the NaN, infinity and sign checks exactly when its exponent bits are not all ones and its bits are at most 0x80000000: the sign is clear, or the value is -0.0. |
| Float32.LessThanZeroIsBelowZero | scripts/server.py:63 | Python's `x < 0` on a finite gas reading holds exactly when the real number it encodes is negative, so it is false for -0.0. |
| Wire.EncodeSensorData | main/client.h:11-21 | The packed `sensor_data_t` is 32 bytes. Decoder.UnpackEncoded and Decoder.Unpack show its layout is the one the server reads. |
| Wire.EncodePacket | main/client.h:25-28 | The packed `authenticated_packet_t` is 64 bytes: the payload at offset 0 and the tag at offset 32. |
| Wire.HeaderBytes | main/client.h:8-13 | A payload carrying the protocol header begins with the bytes 0x48, 0x47, 0x01. |
| Decoder.UnpackEncoded | scripts/server.py:92-93 | Decoding the firmware's encoding of any record with `'<HBBIiiffq'` gives back every field, in order. |
| Decoder.Unpack | scripts/server.py:92-93 | `struct.unpack('<HBBIiiffq', payload)` keeps the floats as their bits. Every 32-byte payload is the firmware's encoding of the record it decodes to, so with Decoder.UnpackEncoded decoding is a bijection. |
| Decoder.FieldsAtOffsets | scripts/server.py:20-21 | Fields of widths 2, 1, 1, 4, 4, 4, 4, 4 and 8, laid end to end with no padding, sit at offsets 0, 2, 3, 4, 8, 12, 16, 20 and 24. |
| Decoder.ConstantsAgree | scripts/server.py:18-23 | The server's magic, version, payload size and frame size equal the firmware's (main/client.h:8-9, 21, 23-28). |
| Validator.Validate | scripts/server.py:55-67 | A reading is accepted exactly when it satisfies all five rules, with inclusive bounds: temperature in [-40, 80]; humidity in [0, 100]; no NaN or infinite gas reading; no negative gas reading; timestamp in [1700000000, 2000000000]. A rejection names a rule the reading breaks, and the reading satisfies every earlier rule. |
| Validator.RejectionIsFirstFailure | scripts/server.py:57-66 | Conversely, a reading that breaks a rule and satisfies every earlier rule is rejected for exactly that rule. |
| SequenceTracker.Track | scripts/server.py:111-118 | The client's entry becomes the new number and every other entry is unchanged. A gap is reported exactly when the client has an entry and the number is not its successor. The report carries expected = last + 1, got = the number, and lost = got - expected, which is never 0. |
| SequenceTracker.TotalLostTelescopes | scripts/server.py:113-118 | Over any run from a known client, the reported losses add up to the last number minus the previously recorded one minus the run's length. |
| SequenceTracker.NoGapIffConsecutive | scripts/server.py:113-118 | A known client's run raises no gap report exactly when its numbers are consecutive from the recorded one. |
| SequenceTracker.TrackRunRecordsLast | scripts/server.py:118 | After a run, the client's entry is its last number and every other client's entry is untouched. |
| SequenceTracker.GapScenario | scripts/server.py:113-118 | 5 then 7 reports expected 6, got 7, 1 lost. 5 then 6 reports nothing. |
| SequenceTracker.WrapIsReportedAsGap | scripts/server.py:113-117 | A counter that wraps from 0xFFFFFFFF to 0 is reported as a gap of -4294967296 packets. |
| FrameReader.Socket.Recv | scripts/server.py:48 | While bytes are pending, a `recv` returns a non-empty prefix of them no longer than asked for. Once none are pending it returns what the stream's end dictates. |
| FrameReader.EndOfStream | scripts/server.py:48-50 | Once nothing is pending, a closed stream makes `recv` return b'', which `recv_all` turns into `ConnectionError`. A silent stream raises the timeout and a reset stream raises the reset; neither is the closed-stream error. |
| FrameReader.RecvAll | scripts/server.py:44-52 | If at least `length` bytes are pending, the result is exactly the next `length` bytes, however the transport splits them. Otherwise the result is the stream-end error, no data is returned, and the stream is used up. |
| Pipeline.Payload | scripts/server.py:83 | `raw_data[:DATA_SIZE]` is the frame's first 32 bytes. |
| Pipeline.Tag | scripts/server.py:84 | `raw_data[DATA_SIZE:]` is the 32 bytes that follow the payload. Payload and tag together are the whole frame. |
| Pipeline.CheckReading | scripts/server.py:105 | `validate_sensor_data` accepts an unpacked record exactly when temperature is in [-40, 80], humidity in [0, 100], the timestamp in [1700000000, 2000000000], and both gas readings pass Float32.GasAcceptable on their bits. |
| Pipeline.RowOf | scripts/server.py:129 | The row carries the timestamp, temperature, humidity, CH4 and CO2 of the record, in the CSV's column order, and none of the header fields. Formatting is under Left out. |
| Pipeline.Screen | scripts/server.py:83-108 | A frame is dropped for its HMAC exactly when its tag differs from the payload's MAC. It is accepted exactly when it is authentic, carries magic 0x4748 and version 1, and passes validation; the accepted record is what the payload decodes to. Each other drop reason holds only after the checks before it have passed: magic, then version, then the first failed rule. |
| Pipeline.Apply | scripts/server.py:105-129 | A dropped frame leaves the state unchanged. An accepted frame sets only its client's sequence entry, to its number, and appends exactly its own row. Its report is the tracker's gap report. |
| Pipeline.Step | scripts/server.py:83-129 | One loop iteration drops the frame for its HMAC exactly when the tag differs from the payload's MAC. A dropped frame leaves the state unchanged. A stored frame passed validation; it sets the tracker's new map and appends the decoded record's row, and its report is the tracker's gap report. |
| Pipeline.Frames | scripts/server.py:76-78 | A stream of n bytes holds n / 64 complete frames. Frame i is bytes 64i to 64(i+1). A trailing partial frame is not a frame. |
| Pipeline.ScreenAll | scripts/server.py:76-108 | There is one outcome per frame. |
| Pipeline.ScreenAllAt | scripts/server.py:76-108 | Outcome i is the screening of frame i alone: each frame is screened on its own, in order. |
| Pipeline.Ingest | scripts/server.py:76-129 | Over a run of frames the log only grows, by at most one row per frame. The sequence map gains no client other than this one and loses none. |
| Pipeline.IngestAppendsAcceptedRows | scripts/server.py:105-129 | Over a connection the log only grows, by exactly the rows of the accepted frames, in arrival order. |
| Pipeline.IngestKeepsOtherClients | scripts/server.py:111-118 | Frames from one client never add, remove or change another client's sequence entry. |
| Pipeline.IngestTracksAcceptedSequences | scripts/server.py:110-118 | Over a connection, the sequence map is the tracker run over the numbers of the accepted frames only. |
| Pipeline.SignedPacketIsAccepted | scripts/server.py:83-108 | An `authenticated_packet_t` signed with the shared key is accepted with every field intact, provided it has the protocol header and a valid reading. |
| Pipeline.ForgedTagIsDropped | scripts/server.py:86-90 | Replacing an authentic frame's tag gets the frame dropped for its HMAC, before any field is decoded. |
| Pipeline.Server.Record | scripts/server.py:110-129 | The two locked regions give the state and the gap report that Pipeline.Apply specifies for an accepted frame. |
| Pipeline.Server.HandleFrame | scripts/server.py:83-129 | One loop iteration on a complete frame produces the state and disposition of Pipeline.Step: screening, then Apply. |
| Pipeline.Server.HandleClient | scripts/server.py:70-129 | The connection ends with the stream's own error once every complete frame has been handled in order. The final state is Ingest over the screened frames. |
| Client.TcpSocket.Send | main/client.c:48 | `send` returns -1 or a count between 1 and the bytes offered. It records the call and appends exactly the accepted prefix to what the peer received. |
| Client.SendAll | main/client.c:44-57 | Every call offers the rest of the buffer, from just past what was accepted. `ESP_OK` is returned exactly when the accepted counts sum to the buffer's length, every call having succeeded, and the peer then received exactly the buffer, in order. On `ESP_FAIL` the last call failed, every earlier one succeeded, and the peer received a proper prefix. An empty buffer makes no call. |
| Dht11.Line.WaitForLevel | main/sensors.c:87-96 | A wait succeeds exactly when its level comes within the timeout (`dht11_wait_for_level` returns 0). Every wait consumes one step of the trace. The source's wait returns only 0 or -1; the pulse length that `dht11_read_byte` takes from `esp_timer_get_time()` before and after the wait (main/sensors.c:110, 115) is folded into the wait's second result, the delay it saw. |
| Dht11.ReadSlot | main/sensors.c:100-112 | A bit slot breaks off after 1, 2 or 3 waits, at the first that times out. Otherwise it is a bit. |
| Dht11.ReadBits | main/sensors.c:100-119 | n slots give at most n bits, three waits for each completed one. All n bits mean exactly 3n waits. The loop stops at the first broken slot. |
| Dht11.ReadBitsStops | main/sensors.c:103-112 | Once a bit slot has broken off, reading further slots changes nothing: the loop has ended. |
| Dht11.BitsToNatBound | main/sensors.c:116-120 | k bits shifted in from the right make a number below 2^k. A byte cut short is not left-aligned. |
| Dht11.ReadByteAt | main/sensors.c:98-121 | The byte read is below 2^k, where k is the number of completed bit slots. |
| Dht11.WaitSlot | main/sensors.c:102-112 | A slot completes exactly when its three waits succeed. Its bit is then 1 exactly when the high pulse lasted more than 50 µs, and it used three waits. A broken slot used the waits up to the failed one. |
| Dht11.ReadByte | main/sensors.c:98-121 | `dht11_read_byte` returns the byte ReadByteAt specifies: the completed bits, most significant first, ending at the first timed-out wait. It consumes exactly the waits that specification counts. |
| Dht11.ReadBytes | main/sensors.c:138-140 | n bytes read one after another give n bytes, each read where the one before stopped. |
| Dht11.ReadFrame | main/sensors.c:138-140 | The data loop fills a fresh `data[5]` with the five bytes Dht11.ReadBytes specifies and consumes exactly their waits. |
| Dht11.Checksum | main/sensors.c:142-145 | The check byte a frame must carry is (data[0] + data[1] + data[2] + data[3]) mod 256. |
| Dht11.Read | main/sensors.c:123-153 | The read is a handshake timeout exactly when one of the three response waits times out. A checksum mismatch carries five bytes whose last differs from the wrapped sum of the first four. |
| Dht11.StatusOf | main/sensors.c:130-152 | The status is `ESP_OK` exactly when a measurement was taken. |
| Dht11.ResponseWaits | main/sensors.c:130-136 | The handshake makes 1 to 3 waits, stopping at the first that times out, and all 3 when the sensor responds. |
| Dht11.AwaitResponse | main/sensors.c:130-136 | The handshake succeeds exactly when the low, high and low waits all arrive. It consumes the waits Dht11.ResponseWaits counts: up to the first timeout, and never a data wait. |
| Dht11.FrameChecksum | main/sensors.c:142-144 | The `uint8_t` accumulator ends as the sum of the four data bytes modulo 256. |
| Dht11.GetTempAndHumidity | main/sensors.c:123-153 | The status is that of Dht11.Read on the line. On a missing response or a checksum mismatch, both outputs keep their values. On `ESP_OK`, `*temp` is data[2] and `*humidity` is data[0] (when the two are distinct cells). Without a response it returns after the handshake's own waits and reads no data byte. After a response it consumes the three handshake waits and exactly the waits of five bytes. |
| Dht11.NoResponse | main/sensors.c:130-136 | A failed handshake is a handshake timeout, whatever follows. |
| Dht11.ReadOutcome | main/sensors.c:138-152 | After a response, five bytes are always read. Only the check byte decides between a checksum mismatch and a measurement of bytes 0 and 2. |
| Dht11.ReadSentBits | main/sensors.c:100-119 | Bits the sensor sends as 70 µs or at most 28 µs high pulses are read back exactly, three waits per bit. |
| Dht11.BitsToNatOfByteBits | main/sensors.c:116-118 | Shifting in the bits of a number most significant first rebuilds the number. |
| Dht11.ReadSentByte | main/sensors.c:98-121 | A byte the sensor sends is the byte `dht11_read_byte` returns, after 24 waits. |
| Dht11.ReadSentBytes | main/sensors.c:138-140 | Bytes the sensor sends one after another are the bytes read. |
| Dht11.ReadSentFrame | main/sensors.c:123-153 | A sensor that responds and sends a frame is read as that frame's humidity and temperature bytes when its check byte is the wrapped sum, and as a checksum mismatch otherwise. |
| Dht11.ChecksumWraps | main/sensors.c:142-146 | The check byte wraps: 200 + 100 + 30 + 0 is carried as 74. |

## Left out

- The TCP listener, thread-per-connection dispatch and the 30-second socket timeout (scripts/server.py:72, 132-141). A timeout appears only as one way a stream can end.
- Locking (scripts/server.py:33-35, 112, 126). Each locked region is one atomic step of the `Server` object; interleavings between connections are not modelled.
- The computation of HMAC-SHA256 and the constant-time comparison (scripts/server.py:87-88). The MAC is a parameter and the comparison is equality.
- The CSV header written at start-up, the file append and all logging (scripts/server.py:37-41, 89, 97, 101, 107, 116, 123-129). The log is a sequence of rows.
- Pipeline.RowOf: the row keeps the raw timestamp and gas bits. `datetime.fromtimestamp` formatting (timezone-dependent) and `round(…, 2)` on floats (scripts/server.py:120-121, 129) are not modelled.
- Float arithmetic on the gas readings. Only NaN, infinity and the sign are modelled, which is all the server inspects.
- `scripts/process.py`, the gas-sensor ADC and ppm arithmetic (main/sensors.c:11-68), `main/greenhouse_monitor.c`, `main/util.c`, `main/hmac.c`, and `my_connect`/`disconnect` in main/client.c. None of them is part of this model.
- The DHT11 start signal and pin direction (main/sensors.c:70-85, 127-128), the busy-wait clock and the level argument of `dht11_wait_for_level`. The waits are a trace of delays, and the level each one awaits is implied by its position in the protocol.
- Dht11.WaitSlot and Dht11.AwaitResponse are the three waits of one bit slot and of the handshake, written inline in the source. Dht11.ReadFrame and Dht11.FrameChecksum are the data loop and the checksum loop of `dht11_get_temp_and_humidity`. They are separate methods here, with the same control flow.
- Client.TcpSocket.Send: a `send` returning 0 or more than it was offered is excluded. The source's loop would spin forever on 0, and `len -= sent` would wrap on a larger count.
- Dht11.GetTempAndHumidity: when `*temp` and `*humidity` are the same cell, the contract states only the final value (data[2]).
- Streams that never end: Pipeline.Server.HandleClient takes a finite stream of pending bytes.
