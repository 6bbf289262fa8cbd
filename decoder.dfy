/**
 * The server's payload decoder (scripts/server.py): the wire constants and
 * `struct.unpack('<HBBIiiffq', payload)`, little-endian with no padding.
 * Its partner is the firmware's encoder in module Wire: the two are inverse
 * to each other on every payload and every record.
 */
module Decoder {
  import opened Bytes
  import opened Wire

  const PacketMagic: uint16 := 0x4748
  const PacketVersion: uint8 := 1
  const DataSize: nat := 32  // struct.calcsize('<HBBIiiffq'): 2+1+1+4+4+4+4+4+8
  const HmacSize: nat := 32
  const PacketSize: nat := DataSize + HmacSize

  /**
   * `struct.unpack(DATA_FORMAT, payload)`; the floats are kept as their bit
   * patterns. Every payload is the firmware encoding of the record it decodes
   * to: decoding loses nothing.
   */
  function Unpack(payload: seq<uint8>): (d: SensorData)
    requires |payload| == DataSize
    ensures EncodeSensorData(d) == payload
  {
    WidthsArePowers();
    var d := SensorData(
      LeToNat(payload[0..2]),
      LeToNat(payload[2..3]),
      LeToNat(payload[3..4]),
      LeToNat(payload[4..8]),
      ToSigned(LeToNat(payload[8..12]), 4),
      ToSigned(LeToNat(payload[12..16]), 4),
      LeToNat(payload[16..20]),
      LeToNat(payload[20..24]),
      ToSigned(LeToNat(payload[24..32]), 8));
    EncodeUnpacked(payload, d);
    d
  }

  lemma EncodeUnpacked(p: seq<uint8>, d: SensorData)
    requires |p| == DataSize
    requires d.magic == LeToNat(p[0..2]) && d.version == LeToNat(p[2..3])
    requires d.reserved == LeToNat(p[3..4]) && d.sequence == LeToNat(p[4..8])
    requires d.temp == ToSigned(LeToNat(p[8..12]), 4) && d.humidity == ToSigned(LeToNat(p[12..16]), 4)
    requires d.ch4 == LeToNat(p[16..20]) && d.co2 == LeToNat(p[20..24])
    requires d.timestamp == ToSigned(LeToNat(p[24..32]), 8)
    ensures EncodeSensorData(d) == p
  {
    WidthsArePowers();
    EncodeUnsigned(p[0..2], d.magic);
    EncodeUnsigned(p[2..3], d.version);
    EncodeUnsigned(p[3..4], d.reserved);
    EncodeUnsigned(p[4..8], d.sequence);
    EncodeSigned(p[8..12], d.temp);
    EncodeSigned(p[12..16], d.humidity);
    EncodeUnsigned(p[16..20], d.ch4);
    EncodeUnsigned(p[20..24], d.co2);
    EncodeSigned(p[24..32], d.timestamp);
    SplitAtOffsets(p);
  }

  /** An unsigned field re-encodes to the bytes it was read from. */
  lemma EncodeUnsigned(bs: seq<uint8>, x: nat)
    requires x == LeToNat(bs)
    ensures NatToLe(x, |bs|) == bs
  {
    NatToLeOfLeToNat(bs);
  }

  /** A signed field re-encodes, through its two's-complement bits, to the bytes it was read from. */
  lemma EncodeSigned(bs: seq<uint8>, i: int)
    requires 0 < |bs| && i == ToSigned(LeToNat(bs), |bs|)
    ensures NatToLe(FromSigned(i, |bs|), |bs|) == bs
  {
    NatToLeOfLeToNat(bs);
    FromSignedOfToSigned(LeToNat(bs), |bs|);
  }

  /** A 32-byte payload is its nine fields, at the offsets `Unpack` reads, laid end to end. */
  lemma SplitAtOffsets(p: seq<uint8>)
    requires |p| == DataSize
    ensures p == p[0..2] + p[2..3] + p[3..4] + p[4..8] + p[8..12] + p[12..16] + p[16..20] + p[20..24] + p[24..32]
  {
    assert p[0..8] == p[0..2] + p[2..3] + p[3..4] + p[4..8];
    assert p[8..24] == p[8..12] + p[12..16] + p[16..20] + p[20..24];
    assert p == p[0..8] + p[8..24] + p[24..32];
  }

  /** Decoding what the firmware encodes gives back every field, in order (the `'<HBBIiiffq'` round trip). */
  lemma UnpackEncoded(d: SensorData)
    ensures Unpack(EncodeSensorData(d)) == d
  {
    WidthsArePowers();
    var m, v, r, s := NatToLe(d.magic, 2), NatToLe(d.version, 1), NatToLe(d.reserved, 1), NatToLe(d.sequence, 4);
    var t, h := NatToLe(FromSigned(d.temp, 4), 4), NatToLe(FromSigned(d.humidity, 4), 4);
    var c4, c2 := NatToLe(d.ch4, 4), NatToLe(d.co2, 4);
    var ts := NatToLe(FromSigned(d.timestamp, 8), 8);
    FieldsAtOffsets(EncodeSensorData(d), m, v, r, s, t, h, c4, c2, ts);
  }

  /** Nine fields of widths 2, 1, 1, 4, 4, 4, 4, 4, 8 laid end to end sit at the offsets `Unpack` reads. */
  lemma FieldsAtOffsets(p: seq<uint8>, m: seq<uint8>, v: seq<uint8>, r: seq<uint8>, s: seq<uint8>,
                        t: seq<uint8>, h: seq<uint8>, c4: seq<uint8>, c2: seq<uint8>, ts: seq<uint8>)
    requires p == m + v + r + s + t + h + c4 + c2 + ts
    requires |m| == 2 && |v| == 1 && |r| == 1 && |s| == 4
    requires |t| == 4 && |h| == 4 && |c4| == 4 && |c2| == 4 && |ts| == 8
    ensures p[0..2] == m && p[2..3] == v && p[3..4] == r && p[4..8] == s
    ensures p[8..12] == t && p[12..16] == h && p[16..20] == c4 && p[20..24] == c2
    ensures p[24..32] == ts
  {
    var header, readings := m + v + r + s, t + h + c4 + c2;
    assert |header| == 8 && |readings| == 16;
    assert p == header + readings + ts;
    assert p[0..8] == header;
    assert p[8..24] == readings;
    assert p[24..32] == ts;
    HeaderOffsets(header, m, v, r, s);
    Quarters(readings, t, h, c4, c2);
    SliceOfSlice(p, 0, 8, 0, 2);
    SliceOfSlice(p, 0, 8, 2, 3);
    SliceOfSlice(p, 0, 8, 3, 4);
    SliceOfSlice(p, 0, 8, 4, 8);
    SliceOfSlice(p, 8, 24, 0, 4);
    SliceOfSlice(p, 8, 24, 4, 8);
    SliceOfSlice(p, 8, 24, 8, 12);
    SliceOfSlice(p, 8, 24, 12, 16);
  }

  /** Magic, version, reserved byte and sequence number sit at offsets 0, 2, 3 and 4 of the header. */
  lemma HeaderOffsets(q: seq<uint8>, m: seq<uint8>, v: seq<uint8>, r: seq<uint8>, s: seq<uint8>)
    requires q == m + v + r + s && |m| == 2 && |v| == 1 && |r| == 1 && |s| == 4
    ensures q[0..2] == m && q[2..3] == v && q[3..4] == r && q[4..8] == s
  {
    assert q[0..2] == m;
    assert q[2..3] == v;
    assert q[3..4] == r;
  }

  /** Four four-byte fields laid end to end sit at offsets 0, 4, 8 and 12. */
  lemma Quarters(q: seq<uint8>, a: seq<uint8>, b: seq<uint8>, c: seq<uint8>, e: seq<uint8>)
    requires q == a + b + c + e && |a| == |b| == |c| == |e| == 4
    ensures q[0..4] == a && q[4..8] == b && q[8..12] == c && q[12..16] == e
  {
    assert q[0..4] == a;
    assert q[4..8] == b;
    assert q[8..12] == c;
  }

  /** A slice of a slice is a slice of the whole. */
  lemma SliceOfSlice(s: seq<uint8>, i: nat, j: nat, k: nat, l: nat)
    requires i <= j <= |s| && k <= l <= j - i
    ensures s[i..j][k..l] == s[i + k..i + l]
  {
    forall m | 0 <= m < l - k
      ensures s[i..j][k..l][m] == s[i + k..i + l][m]
    {
    }
  }

  /** The server's header constants are the firmware's. */
  lemma ConstantsAgree()
    ensures PacketMagic == Wire.PacketMagic && PacketVersion == Wire.PacketVersion
    ensures DataSize == SensorDataSize && PacketSize == AuthenticatedPacketSize
  {
  }
}
