/**
 * Fixed-width integers and their little-endian byte encoding, as used by the
 * packed C structs of the firmware and by Python's `struct` module with a
 * `<` (little-endian, no padding) format.
 */
module Bytes {
  type uint8 = x: int | 0 <= x < 0x100
  type uint16 = x: int | 0 <= x < 0x1_0000
  type uint32 = x: int | 0 <= x < 0x1_0000_0000
  type int32 = x: int | -0x8000_0000 <= x < 0x8000_0000
  type int64 = x: int | -0x8000_0000_0000_0000 <= x < 0x8000_0000_0000_0000

  /** 2^k, the number of distinct values of a k-bit field. */
  function Pow2(k: nat): (p: nat)
    ensures p >= 1
  {
    if k == 0 then 1 else 2 * Pow2(k - 1)
  }

  /** 256^n, the number of distinct values of an n-byte field. */
  function Pow256(n: nat): (p: nat)
    ensures p >= 1
  {
    if n == 0 then 1 else 256 * Pow256(n - 1)
  }

  /** The unsigned value of a little-endian byte string: byte 0 is the least significant. */
  function LeToNat(bs: seq<uint8>): (v: nat)
    ensures v < Pow256(|bs|)
  {
    if bs == [] then 0 else bs[0] + 256 * LeToNat(bs[1..])
  }

  /** The n-byte little-endian encoding of x; it decodes back to x. */
  function NatToLe(x: nat, n: nat): (bs: seq<uint8>)
    requires x < Pow256(n)
    ensures |bs| == n
    ensures LeToNat(bs) == x
  {
    if n == 0 then []
    else
      var rest := NatToLe(x / 256, n - 1);
      assert ([x % 256] + rest)[1..] == rest;
      [x % 256] + rest
  }

  /** Encoding is also a left inverse of decoding: every byte string is the encoding of its value. */
  lemma {:induction false} NatToLeOfLeToNat(bs: seq<uint8>)
    ensures NatToLe(LeToNat(bs), |bs|) == bs
  {
    if bs != [] {
      var v := LeToNat(bs[1..]);
      assert (bs[0] + 256 * v) % 256 == bs[0];
      assert (bs[0] + 256 * v) / 256 == v;
      NatToLeOfLeToNat(bs[1..]);
      assert bs == [bs[0]] + bs[1..];
    }
  }

  /** Two byte strings of one length with the same value are the same bytes. */
  lemma LeToNatInjective(a: seq<uint8>, b: seq<uint8>)
    requires |a| == |b| && LeToNat(a) == LeToNat(b)
    ensures a == b
  {
    NatToLeOfLeToNat(a);
    NatToLeOfLeToNat(b);
  }

  /** Two's-complement reading of an n-byte unsigned value (a C `intN_t` / a `struct` signed code). */
  function ToSigned(u: nat, n: nat): (i: int)
    requires 0 < n && u < Pow256(n)
    ensures -(Pow256(n) / 2) <= i < Pow256(n) / 2
    ensures i >= 0 <==> u < Pow256(n) / 2
    ensures i == u || i == u - Pow256(n)
  {
    HalfOfPow256(n);
    if u < Pow256(n) / 2 then u else u - Pow256(n)
  }

  /** A field of one or more bytes has an even number of values: half of them are negative. */
  lemma HalfOfPow256(n: nat)
    requires 0 < n
    ensures Pow256(n) % 2 == 0
  {
    var p := Pow256(n - 1);
    assert Pow256(n) == 256 * p;
  }

  /** The n-byte two's-complement bit pattern of i, read as unsigned. */
  function FromSigned(i: int, n: nat): (u: nat)
    requires 0 < n && -(Pow256(n) / 2) <= i < Pow256(n) / 2
    ensures u < Pow256(n)
    ensures ToSigned(u, n) == i
  {
    if i >= 0 then i else i + Pow256(n)
  }

  lemma FromSignedOfToSigned(u: nat, n: nat)
    requires 0 < n && u < Pow256(n)
    ensures FromSigned(ToSigned(u, n), n) == u
  {
  }

  /** The widths used by the wire format, as numbers of bytes. */
  lemma WidthsArePowers()
    ensures Pow256(1) == 0x100 && Pow256(2) == 0x1_0000 && Pow256(4) == 0x1_0000_0000
    ensures Pow256(8) == 0x1_0000_0000_0000_0000
  {
  }
}
