/**
 * The DHT11 single-wire protocol as read by main/sensors.c. The bus timing is
 * abstracted: the n-th call of `dht11_wait_for_level` sees the awaited level
 * after a fixed delay, in microseconds, taken from a finite trace; a level that
 * never comes is a delay beyond every timeout. A wait succeeds when the delay
 * is within its timeout; the duration of a high pulse is the delay of the
 * falling edge that ends it.
 */
module Dht11 {
  import opened Bytes
  import opened Esp

  /** Every wait in the driver gives up after 100 microseconds. */
  const WaitTimeoutUs: nat := 100
  /** A high pulse strictly longer than this many microseconds is a 1 bit. */
  const OneThresholdUs: nat := 50
  const BitsPerByte: nat := 8
  /** The waits one byte takes when all eight of its slots complete. */
  const WaitsPerByte: nat := 24
  /** Humidity, its fraction, temperature, its fraction, checksum. */
  const FrameBytes: nat := 5

  /**
   * How long each wait's level takes to appear, by the number of waits made
   * before it. The trace is finite: past its end the line no longer changes.
   */
  type Schedule = seq<nat>

  /** A level that never comes: later than any wait is prepared to wait. */
  const NeverUs: nat := WaitTimeoutUs + 1

  /** The delay the wait numbered `k` sees. */
  function Delay(delays: Schedule, k: nat): (d: nat)
    ensures k >= |delays| ==> !Arrives(d, WaitTimeoutUs)
  {
    if k < |delays| then delays[k] else NeverUs
  }

  /** Whether a wait with this timeout sees its level (`dht11_wait_for_level` returns 0). */
  predicate Arrives(delayUs: nat, timeoutUs: nat)
  {
    delayUs <= timeoutUs
  }

  /** The data line, with the waits made on it so far. */
  class Line {
    const delays: Schedule
    var pos: nat

    constructor (delays: Schedule)
      ensures this.delays == delays && pos == 0
    {
      this.delays := delays;
      pos := 0;
    }

    /**
     * `dht11_wait_for_level`: succeed once the level shows up, fail once the
     * timeout has passed without it. The source returns only 0 or -1; the
     * second result stands for the caller's `esp_timer_get_time()` reads
     * around the wait, the time the level took to appear.
     */
    method WaitForLevel(timeoutUs: nat) returns (ok: bool, elapsedUs: nat)
      modifies this
      ensures pos == old(pos) + 1
      ensures ok <==> Arrives(Delay(delays, old(pos)), timeoutUs)
      ensures ok ==> elapsedUs == Delay(delays, old(pos))
    {
      elapsedUs := Delay(delays, pos);
      ok := Arrives(elapsedUs, timeoutUs);
      pos := pos + 1;
    }
  }

  /** One bit slot: a bit, or the loop broken off after `used` waits (1 to 3). */
  datatype Slot = Bit(one: bool) | Broken(used: nat)

  /**
   * A bit slot starting at wait k: the low pulse, the rising edge, then the
   * falling edge whose delay is the high pulse's length.
   */
  function ReadSlot(delays: Schedule, k: nat): (s: Slot)
    ensures s.Broken? ==> 1 <= s.used <= 3
  {
    if !Arrives(Delay(delays, k), WaitTimeoutUs) then Broken(1)
    else if !Arrives(Delay(delays, k + 1), WaitTimeoutUs) then Broken(2)
    else if !Arrives(Delay(delays, k + 2), WaitTimeoutUs) then Broken(3)
    else Bit(Delay(delays, k + 2) > OneThresholdUs)
  }

  /** Bits read and the number of waits it took to read them. */
  datatype Bits = Bits(bits: seq<bool>, used: nat)

  /**
   * The first n bit slots from wait k on: the bits of the slots that completed,
   * up to the first broken slot, after which no wait is made.
   */
  function ReadBits(delays: Schedule, k: nat, n: nat): (r: Bits)
    ensures |r.bits| <= n && 3 * |r.bits| <= r.used <= 3 * n
    ensures |r.bits| == n ==> r.used == 3 * n
    ensures n > 0 ==> r.used >= 1
  {
    if n == 0 then Bits([], 0)
    else
      var prefix := ReadBits(delays, k, n - 1);
      if |prefix.bits| < n - 1 then prefix
      else
        var slot := ReadSlot(delays, k + prefix.used);
        if slot.Broken? then Bits(prefix.bits, prefix.used + slot.used)
        else Bits(prefix.bits + [slot.one], prefix.used + 3)
  }

  /** Once a slot has broken off, reading more slots changes nothing. */
  lemma {:induction false} ReadBitsStops(delays: Schedule, k: nat, m: nat, n: nat)
    requires m <= n && |ReadBits(delays, k, m).bits| < m
    ensures ReadBits(delays, k, n) == ReadBits(delays, k, m)
    decreases n
  {
    if m < n {
      ReadBitsStops(delays, k, m, n - 1);
    }
  }

  /** The number a list of bits spells, most significant bit first. */
  function BitsToNat(bits: seq<bool>): nat
  {
    if bits == [] then 0
    else 2 * BitsToNat(bits[..|bits| - 1]) + (if bits[|bits| - 1] then 1 else 0)
  }

  /** k bits spell a number below 2^k: a byte cut short stays small, it is not left-aligned. */
  lemma {:induction false} BitsToNatBound(bits: seq<bool>)
    ensures BitsToNat(bits) < Pow2(|bits|)
  {
    if bits != [] {
      BitsToNatBound(bits[..|bits| - 1]);
    }
  }

  /** A byte read and the number of waits it took. */
  datatype ByteRead = ByteRead(value: uint8, used: nat)

  /** The byte `dht11_read_byte` returns when its first wait is wait k. */
  function ReadByteAt(delays: Schedule, k: nat): (r: ByteRead)
    ensures r.value < Pow2(|ReadBits(delays, k, BitsPerByte).bits|)
    ensures 1 <= r.used <= WaitsPerByte
  {
    var read := ReadBits(delays, k, BitsPerByte);
    BitsToNatBound(read.bits);
    Pow2Monotone(|read.bits|, BitsPerByte);
    ByteWidth();
    ByteRead(BitsToNat(read.bits), read.used)
  }

  lemma {:induction false} Pow2Monotone(j: nat, k: nat)
    requires j <= k
    ensures Pow2(j) <= Pow2(k)
    decreases k
  {
    if j < k {
      Pow2Monotone(j, k - 1);
    }
  }

  /** A byte holds eight bits: 2^7 and 2^8. */
  lemma ByteWidth()
    ensures Pow2(7) == 128 && Pow2(8) == 256
  {
  }

  /**
   * `dht11_read_byte`: at most eight bit slots, shifting each bit in from the
   * right; a timed-out wait ends the byte early with the bits gathered so far.
   */
  method ReadByte(line: Line) returns (result: uint8)
    modifies line
    ensures line.pos >= old(line.pos)
    ensures ReadByteAt(line.delays, old(line.pos)) == ByteRead(result, line.pos - old(line.pos))
  {
    result := 0;
    ghost var start := line.pos;
    ghost var broken := false;
    for i := 0 to BitsPerByte
      invariant start <= line.pos && result < Pow2(i)
      invariant Gathered(line.delays, start, i, line.pos, result)
    {
      ghost var slot := line.pos;
      var completed, duration := WaitSlot(line);
      if !completed {
        BrokenByte(line.delays, start, i, slot, result);
        broken := true;
        break;
      }
      var one := duration > OneThresholdUs;
      CompletedSlot(line.delays, start, i, slot, result, one);
      // `result <<= 1` cannot drop a bit: fewer than eight are in so far.
      Pow2Monotone(i, BitsPerByte - 1);
      ByteWidth();
      result := result * 2;
      if one {
        // `result |= 1` on an even number.
        result := result + 1;
      }
    }
    if !broken {
      CompleteByte(line.delays, start, line.pos, result);
    }
  }

  /**
   * The three waits of one bit slot of `dht11_read_byte`: the low pulse, the
   * rise, and the fall that ends the high pulse, each made only when the one
   * before it succeeded; the duration is the high pulse's.
   */
  method WaitSlot(line: Line) returns (completed: bool, durationUs: nat)
    modifies line
    ensures var slot := ReadSlot(line.delays, old(line.pos));
      && (completed <==> slot.Bit?)
      && (completed ==> line.pos == old(line.pos) + 3 && slot.one == (durationUs > OneThresholdUs))
      && (!completed ==> line.pos == old(line.pos) + slot.used)
  {
    var low, high: bool;
    low, durationUs := line.WaitForLevel(WaitTimeoutUs);
    if !low {
      return false, durationUs;
    }
    high, durationUs := line.WaitForLevel(WaitTimeoutUs);
    if !high {
      return false, durationUs;
    }
    completed, durationUs := line.WaitForLevel(WaitTimeoutUs);
  }

  /** The loop invariant of `ReadByte`: i slots completed, using the waits up to `pos`, and spell `value`. */
  ghost predicate Gathered(delays: Schedule, start: nat, i: nat, pos: nat, value: nat)
  {
    var read := ReadBits(delays, start, i);
    |read.bits| == i && start + read.used == pos && BitsToNat(read.bits) == value
  }

  /** A slot that completed shifts its bit in. */
  lemma CompletedSlot(delays: Schedule, start: nat, i: nat, slot: nat, value: nat, one: bool)
    requires Gathered(delays, start, i, slot, value) && ReadSlot(delays, slot) == Bit(one)
    ensures Gathered(delays, start, i + 1, slot + 3, 2 * value + (if one then 1 else 0))
  {
    BitsToNatAppend(ReadBits(delays, start, i).bits, one);
  }

  /** A byte whose slot at wait `slot` broke off is the value of the slots before it. */
  lemma BrokenByte(delays: Schedule, start: nat, i: nat, slot: nat, value: uint8)
    requires i < BitsPerByte && Gathered(delays, start, i, slot, value) && ReadSlot(delays, slot).Broken?
    ensures ReadByteAt(delays, start) == ByteRead(value, slot + ReadSlot(delays, slot).used - start)
  {
    ReadBitsStops(delays, start, i + 1, BitsPerByte);
  }

  /** A byte whose eight slots all completed is the number they spell. */
  lemma CompleteByte(delays: Schedule, start: nat, pos: nat, value: uint8)
    requires Gathered(delays, start, BitsPerByte, pos, value)
    ensures ReadByteAt(delays, start) == ByteRead(value, pos - start)
  {
  }

  /** Shifting a bit in from the right doubles the number and adds the bit. */
  lemma BitsToNatAppend(bits: seq<bool>, one: bool)
    ensures BitsToNat(bits + [one]) == 2 * BitsToNat(bits) + (if one then 1 else 0)
  {
    assert (bits + [one])[..|bits|] == bits;
  }

  /** Bytes read one after another and the number of waits they took. */
  datatype BytesRead = BytesRead(bytes: seq<uint8>, used: nat)

  /** The first n bytes read from wait k on. */
  function ReadBytes(delays: Schedule, k: nat, n: nat): (r: BytesRead)
    ensures |r.bytes| == n
  {
    if n == 0 then BytesRead([], 0)
    else
      var prefix := ReadBytes(delays, k, n - 1);
      var last := ReadByteAt(delays, k + prefix.used);
      BytesRead(prefix.bytes + [last.value], prefix.used + last.used)
  }

  /** Reading one more byte appends it to those read before. */
  lemma NextByte(delays: Schedule, k: nat, i: nat, bytes: seq<uint8>, pos: nat, b: uint8, next: nat)
    requires k <= pos <= next && ReadBytes(delays, k, i) == BytesRead(bytes, pos - k)
    requires ReadByteAt(delays, pos) == ByteRead(b, next - pos)
    ensures ReadBytes(delays, k, i + 1) == BytesRead(bytes + [b], next - k)
  {
  }

  /** The sum of some bytes. */
  function Sum(bytes: seq<uint8>): nat
  {
    if bytes == [] then 0 else Sum(bytes[..|bytes| - 1]) + bytes[|bytes| - 1]
  }

  /** The check byte a frame must carry: the sum of the four data bytes, wrapped to eight bits. */
  function Checksum(frame: seq<uint8>): (c: uint8)
    requires |frame| == FrameBytes
    ensures c == (frame[0] as int + frame[1] + frame[2] + frame[3]) % 256
  {
    assert frame[..4][..3] == frame[..3] && frame[..3][..2] == frame[..2];
    assert frame[..2][..1] == frame[..1] && frame[..1][..0] == [];
    assert Sum(frame[..1]) == frame[0];
    assert Sum(frame[..2]) == frame[0] as int + frame[1];
    assert Sum(frame[..3]) == frame[0] as int + frame[1] + frame[2];
    Sum(frame[..4]) % 256
  }

  /** What a read of the sensor yields. */
  datatype Reading = HandshakeTimeout | ChecksumMismatch(frame: seq<uint8>) | Measured(humidity: uint8, temp: uint8)

  /** The three waits of the sensor's response: low, high, low. */
  predicate Responds(delays: Schedule, k: nat)
  {
    Arrives(Delay(delays, k), WaitTimeoutUs)
    && Arrives(Delay(delays, k + 1), WaitTimeoutUs)
    && Arrives(Delay(delays, k + 2), WaitTimeoutUs)
  }

  /**
   * The result of `dht11_get_temp_and_humidity` on a line whose waits start
   * at k: no response, a frame whose check byte does not match, or the
   * integral humidity and temperature bytes.
   */
  function Read(delays: Schedule, k: nat): (r: Reading)
    ensures r.HandshakeTimeout? <==> !Responds(delays, k)
    ensures r.ChecksumMismatch? ==> |r.frame| == FrameBytes && r.frame[4] != Checksum(r.frame)
  {
    if !Responds(delays, k) then HandshakeTimeout
    else
      var frame := ReadBytes(delays, k + 3, FrameBytes).bytes;
      if frame[4] != Checksum(frame) then ChecksumMismatch(frame)
      else Measured(frame[0], frame[2])
  }

  /** The status `dht11_get_temp_and_humidity` returns for a reading. */
  function StatusOf(reading: Reading): (status: EspErr)
    ensures status == EspOk <==> reading.Measured?
  {
    match reading
    case HandshakeTimeout => EspFail
    case ChecksumMismatch(_) => EspErrInvalidCrc
    case Measured(_, _) => EspOk
  }

  /** The out-parameters `*temp` and `*humidity`. */
  class Cell {
    var value: int

    constructor (value: int)
      ensures this.value == value
    {
      this.value := value;
    }
  }

  /**
   * The waits the response handshake makes from wait k on: it gives up at the
   * first that times out, so it never goes past the three of the response.
   */
  function ResponseWaits(delays: Schedule, k: nat): (n: nat)
    ensures 1 <= n <= 3
    ensures n == 3 <== Responds(delays, k)
  {
    if !Arrives(Delay(delays, k), WaitTimeoutUs) then 1
    else if !Arrives(Delay(delays, k + 1), WaitTimeoutUs) then 2
    else 3
  }

  /** The response handshake of `dht11_get_temp_and_humidity`: low, high, then low again. */
  method AwaitResponse(line: Line) returns (ok: bool)
    modifies line
    ensures ok <==> Responds(line.delays, old(line.pos))
    ensures line.pos == old(line.pos) + ResponseWaits(line.delays, old(line.pos))
  {
    var elapsedUs;
    ok, elapsedUs := line.WaitForLevel(WaitTimeoutUs);
    if !ok {
      return;
    }
    ok, elapsedUs := line.WaitForLevel(WaitTimeoutUs);
    if !ok {
      return;
    }
    ok, elapsedUs := line.WaitForLevel(WaitTimeoutUs);
  }

  /** The data loop of `dht11_get_temp_and_humidity`: five bytes into a fresh `data[5]`. */
  method ReadFrame(line: Line) returns (data: array<uint8>)
    modifies line
    ensures fresh(data) && data.Length == FrameBytes
    ensures var read := ReadBytes(line.delays, old(line.pos), FrameBytes);
      data[..] == read.bytes && line.pos == old(line.pos) + read.used
  {
    data := new uint8[FrameBytes];
    for i := 0 to FrameBytes
      invariant line.pos >= old(line.pos)
      invariant ReadBytes(line.delays, old(line.pos), i) == BytesRead(data[..i], line.pos - old(line.pos))
    {
      ghost var before := line.pos;
      var b := ReadByte(line);
      NextByte(line.delays, old(line.pos), i, data[..i], before, b, line.pos);
      data[i] := b;
      assert data[..i + 1] == data[..i] + [b];
    }
  }

  /** The checksum loop of `dht11_get_temp_and_humidity`: an eight-bit sum of the four data bytes. */
  method FrameChecksum(data: array<uint8>) returns (checksum: uint8)
    requires data.Length == FrameBytes
    ensures checksum == Checksum(data[..])
  {
    checksum := 0;
    for i := 0 to 4
      invariant checksum == Sum(data[..i]) % 256
    {
      SumStep(data[..], i);
      assert data[..][..i] == data[..i] && data[..][..i + 1] == data[..i + 1];
      // The `uint8_t` accumulator wraps.
      checksum := (checksum + data[i]) % 256;
    }
    assert data[..][..4] == data[..4];
  }

  /**
   * `dht11_get_temp_and_humidity`: await the response, read five bytes,
   * verify the check byte, then store humidity and temperature. On a missing
   * response or a bad check byte the outputs keep their old values; on a
   * missing response no data byte is read.
   */
  method GetTempAndHumidity(line: Line, temp: Cell, humidity: Cell) returns (status: EspErr)
    modifies line, temp, humidity
    ensures var reading := Read(line.delays, old(line.pos));
      && status == StatusOf(reading)
      && (!reading.Measured? ==> temp.value == old(temp.value) && humidity.value == old(humidity.value))
      && (reading.Measured? ==> temp.value == reading.temp)
      && (reading.Measured? && temp != humidity ==> humidity.value == reading.humidity)
    ensures !Responds(line.delays, old(line.pos)) ==>
      line.pos == old(line.pos) + ResponseWaits(line.delays, old(line.pos))
    ensures Responds(line.delays, old(line.pos)) ==>
      line.pos == old(line.pos) + 3 + ReadBytes(line.delays, old(line.pos) + 3, FrameBytes).used
  {
    ghost var start := line.pos;
    var responded := AwaitResponse(line);
    if !responded {
      NoResponse(line.delays, start);
      return EspFail;
    }
    var data := ReadFrame(line);
    var checksum := FrameChecksum(data);
    ReadOutcome(line.delays, start, data[..]);
    if data[4] != checksum {
      return EspErrInvalidCrc;
    }
    humidity.value := data[0];
    temp.value := data[2];
    return EspOk;
  }

  /** Adding one more byte to a wrapped sum is wrapping the longer sum. */
  lemma SumStep(bytes: seq<uint8>, i: nat)
    requires i < |bytes|
    ensures (Sum(bytes[..i]) % 256 + bytes[i]) % 256 == Sum(bytes[..i + 1]) % 256
  {
    assert bytes[..i + 1][..i] == bytes[..i];
  }

  /** Without the three-wait response, the read is a handshake timeout. */
  lemma NoResponse(delays: Schedule, k: nat)
    requires !Responds(delays, k)
    ensures Read(delays, k) == HandshakeTimeout
  {
  }

  /** Once the sensor has responded, the reading is decided by the frame that follows. */
  lemma ReadOutcome(delays: Schedule, k: nat, frame: seq<uint8>)
    requires Responds(delays, k) && frame == ReadBytes(delays, k + 3, FrameBytes).bytes
    ensures Read(delays, k) == if frame[4] != Sum(frame[..4]) % 256 then ChecksumMismatch(frame) else Measured(frame[0], frame[2])
  {
  }

  /** A high pulse of a 0 bit lasts at most this long (26 to 28 microseconds in the DHT11 datasheet). */
  const ZeroPulseMaxUs: nat := 28
  /** A high pulse of a 1 bit lasts this long (70 microseconds in the DHT11 datasheet). */
  const OnePulseUs: nat := 70

  /** The sensor sends `one` in the slot at wait k: a low pulse, a rise, and a high pulse of the bit's length. */
  predicate SendsBit(delays: Schedule, k: nat, one: bool)
  {
    && Arrives(Delay(delays, k), WaitTimeoutUs)
    && Arrives(Delay(delays, k + 1), WaitTimeoutUs)
    && (if one then Delay(delays, k + 2) == OnePulseUs else Delay(delays, k + 2) <= ZeroPulseMaxUs)
  }

  /** The sensor sends these bits in consecutive slots from wait k on. */
  predicate SendsBits(delays: Schedule, k: nat, bits: seq<bool>)
  {
    bits != [] ==>
      && SendsBits(delays, k, bits[..|bits| - 1])
      && SendsBit(delays, k + 3 * (|bits| - 1), bits[|bits| - 1])
  }

  /** Bits the sensor sends are the bits read, one slot of three waits each. */
  lemma {:induction false} ReadSentBits(delays: Schedule, k: nat, bits: seq<bool>)
    requires SendsBits(delays, k, bits)
    ensures ReadBits(delays, k, |bits|) == Bits(bits, 3 * |bits|)
  {
    if bits != [] {
      var n := |bits|;
      ReadSentBits(delays, k, bits[..n - 1]);
      var prefix := ReadBits(delays, k, n - 1);
      assert prefix == Bits(bits[..n - 1], 3 * (n - 1));
      assert ReadSlot(delays, k + prefix.used) == Bit(bits[n - 1]);
      assert ReadBits(delays, k, n) == Bits(prefix.bits + [bits[n - 1]], prefix.used + 3);
      SplitLast(bits);
    }
  }

  /** A non-empty sequence is its front followed by its last element. */
  lemma SplitLast<T>(s: seq<T>)
    requires s != []
    ensures s[..|s| - 1] + [s[|s| - 1]] == s
  {
  }

  /** The n low bits of b, most significant first, as the sensor sends them. */
  function ByteBits(b: nat, n: nat): (bits: seq<bool>)
    ensures |bits| == n
  {
    if n == 0 then [] else ByteBits(b / 2, n - 1) + [b % 2 == 1]
  }

  /** Spelling out the bits of a number that fits in them gives the number back. */
  lemma {:induction false} BitsToNatOfByteBits(b: nat, n: nat)
    requires b < Pow2(n)
    ensures BitsToNat(ByteBits(b, n)) == b
  {
    if n > 0 {
      BitsToNatOfByteBits(b / 2, n - 1);
      var bits := ByteBits(b, n);
      assert bits[..n - 1] == ByteBits(b / 2, n - 1);
    }
  }

  /** A byte the sensor sends is the byte `dht11_read_byte` returns, after 24 waits. */
  lemma ReadSentByte(delays: Schedule, k: nat, b: uint8)
    requires SendsBits(delays, k, ByteBits(b, BitsPerByte))
    ensures ReadByteAt(delays, k) == ByteRead(b, WaitsPerByte)
  {
    ReadSentBits(delays, k, ByteBits(b, BitsPerByte));
    Pow2Monotone(BitsPerByte, BitsPerByte);
    BitsToNatOfByteBits(b, BitsPerByte);
  }

  /** The sensor sends these bytes one after another from wait k on. */
  predicate SendsBytes(delays: Schedule, k: nat, bytes: seq<uint8>)
  {
    bytes != [] ==>
      && SendsBytes(delays, k, bytes[..|bytes| - 1])
      && SendsBits(delays, k + 24 * (|bytes| - 1), ByteBits(bytes[|bytes| - 1], BitsPerByte))
  }

  /** Bytes the sensor sends are the bytes read. */
  lemma {:induction false} ReadSentBytes(delays: Schedule, k: nat, bytes: seq<uint8>)
    requires SendsBytes(delays, k, bytes)
    ensures ReadBytes(delays, k, |bytes|) == BytesRead(bytes, 24 * |bytes|)
  {
    if bytes != [] {
      var n := |bytes|;
      var front, last := bytes[..n - 1], bytes[n - 1];
      var used := 24 * (n - 1);
      ReadSentBytes(delays, k, front);
      assert ReadBytes(delays, k, n - 1) == BytesRead(front, used);
      ReadSentByte(delays, k + used, last);
      NextByte(delays, k, n - 1, front, k + used, last, k + used + WaitsPerByte);
      SplitLast(bytes);
    }
  }

  /**
   * A sensor that responds and sends a frame is read as that frame: its
   * humidity and temperature bytes when the check byte is the wrapped sum of
   * the others, a checksum mismatch otherwise.
   */
  lemma ReadSentFrame(delays: Schedule, k: nat, frame: seq<uint8>)
    requires |frame| == FrameBytes && Responds(delays, k) && SendsBytes(delays, k + 3, frame)
    ensures Read(delays, k) == if frame[4] == Checksum(frame) then Measured(frame[0], frame[2]) else ChecksumMismatch(frame)
  {
    ReadSentBytes(delays, k + 3, frame);
  }

  /** The check byte wraps: 200 + 100 + 30 + 0 is 330, carried as 74. */
  lemma ChecksumWraps()
    ensures Checksum([200, 100, 30, 0, 74]) == 74
  {
  }
}
