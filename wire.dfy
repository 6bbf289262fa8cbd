/**
 * The firmware's wire layout (main/client.h): the packed `sensor_data_t`
 * payload and the `authenticated_packet_t` that appends an HMAC-SHA256 tag
 * to it. The ESP32 is little-endian, so the bytes of a packed struct are its
 * fields' little-endian encodings laid end to end.
 */
module Wire {
  import opened Bytes

  const PacketMagic: uint16 := 0x4748  // "GH"
  const PacketVersion: uint8 := 1
  const SensorDataSize: nat := 32
  const HmacSha256Len: nat := 32
  const AuthenticatedPacketSize: nat := SensorDataSize + HmacSha256Len

  /** The fields of `sensor_data_t`, in declaration order; ch4 and co2 are the raw bits of C `float`s. */
  datatype SensorData = SensorData(
    magic: uint16,
    version: uint8,
    reserved: uint8,
    sequence: uint32,
    temp: int32,
    humidity: int32,
    ch4: uint32,
    co2: uint32,
    timestamp: int64)

  /** The memory image of a packed `sensor_data_t`: fields at offsets 0, 2, 3, 4, 8, 12, 16, 20, 24. */
  function EncodeSensorData(d: SensorData): (bs: seq<uint8>)
    ensures |bs| == SensorDataSize
  {
    WidthsArePowers();
    NatToLe(d.magic, 2) + NatToLe(d.version, 1) + NatToLe(d.reserved, 1) + NatToLe(d.sequence, 4)
    + NatToLe(FromSigned(d.temp, 4), 4) + NatToLe(FromSigned(d.humidity, 4), 4)
    + NatToLe(d.ch4, 4) + NatToLe(d.co2, 4) + NatToLe(FromSigned(d.timestamp, 8), 8)
  }

  /** The memory image of a packed `authenticated_packet_t`: the payload, then the tag at offset 32. */
  function EncodePacket(d: SensorData, hmac: seq<uint8>): (p: seq<uint8>)
    requires |hmac| == HmacSha256Len
    ensures |p| == AuthenticatedPacketSize
    ensures p[..SensorDataSize] == EncodeSensorData(d) && p[SensorDataSize..] == hmac
  {
    EncodeSensorData(d) + hmac
  }

  /** A payload carrying the protocol header starts with the bytes 'H', 'G' and then the version 0x01. */
  lemma HeaderBytes(d: SensorData)
    requires d.magic == PacketMagic && d.version == PacketVersion
    ensures EncodeSensorData(d)[..3] == [0x48, 0x47, 0x01]
  {
    var bs := EncodeSensorData(d);
    assert NatToLe(d.magic, 2) == [0x48, 0x47];
    assert NatToLe(d.version, 1) == [0x01];
    assert bs[..3] == NatToLe(d.magic, 2) + NatToLe(d.version, 1);
  }
}
