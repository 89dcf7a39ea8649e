/**
  Fixed-width unsigned integers and the little-endian byte encoding that
  `u64::to_le_bytes` produces. The counter of an inbox is turned into these
  eight bytes before it is used as a seed of the per-message address.
 */
module LittleEndian {

  /** An unsigned 8-bit value (`u8`). */
  type Byte = b: int | 0 <= b < 256

  const U64_MODULUS: nat := 0x1_0000_0000_0000_0000

  /** An unsigned 64-bit value (`u64`). */
  type U64 = n: int | 0 <= n < U64_MODULUS

  const U64_MAX: U64 := 0xFFFF_FFFF_FFFF_FFFF

  /** 256 to the power k: the number of values k bytes can hold. */
  function Pow256(k: nat): (p: nat)
    ensures p >= 1
  {
    if k == 0 then 1 else 256 * Pow256(k - 1)
  }

  /** The k low-order bytes of n, least significant byte first. */
  function EncodeLe(n: nat, k: nat): (bs: seq<Byte>)
    ensures |bs| == k
    ensures k > 0 ==> bs[0] == n % 256
  {
    if k == 0 then [] else [n % 256] + EncodeLe(n / 256, k - 1)
  }

  /** The number whose little-endian bytes are bs. */
  function DecodeLe(bs: seq<Byte>): (n: nat)
    ensures n < Pow256(|bs|)
  {
    if bs == [] then 0 else bs[0] + 256 * DecodeLe(bs[1..])
  }

  /** `n.to_le_bytes()` for a `u64`: always eight bytes. */
  function ToLeBytes(n: U64): (bs: seq<Byte>)
    ensures |bs| == 8
  {
    EncodeLe(n, 8)
  }

  /** `u64::from_le_bytes`: the inverse of ToLeBytes. */
  function FromLeBytes(bs: seq<Byte>): (n: U64)
    requires |bs| == 8
  {
    assert Pow256(8) == U64_MODULUS;
    DecodeLe(bs)
  }

  /** Decoding the k-byte encoding of a number that fits in k bytes gives it back. */
  lemma {:induction false} DecodeEncode(n: nat, k: nat)
    requires n < Pow256(k)
    ensures DecodeLe(EncodeLe(n, k)) == n
  {
    if k > 0 {
      var bs := EncodeLe(n, k);
      assert bs[1..] == EncodeLe(n / 256, k - 1);
      DecodeEncode(n / 256, k - 1);
    }
  }

  /** Encoding the value of a byte string at its own width gives the string back. */
  lemma {:induction false} EncodeDecode(bs: seq<Byte>)
    ensures EncodeLe(DecodeLe(bs), |bs|) == bs
  {
    if bs != [] {
      var n := DecodeLe(bs);
      assert n % 256 == bs[0] && n / 256 == DecodeLe(bs[1..]);
      EncodeDecode(bs[1..]);
    }
  }

  /** Every u64 survives the trip through its little-endian bytes. */
  lemma LeRoundTrip(n: U64)
    ensures FromLeBytes(ToLeBytes(n)) == n
  {
    assert Pow256(8) == U64_MODULUS;
    DecodeEncode(n, 8);
  }

  /** Every eight-byte string is the little-endian encoding of exactly one u64. */
  lemma LeBytesRoundTrip(bs: seq<Byte>)
    requires |bs| == 8
    ensures ToLeBytes(FromLeBytes(bs)) == bs
  {
    EncodeDecode(bs);
  }

  /** Distinct counters have distinct encodings. */
  lemma ToLeBytesInjective(a: U64, b: U64)
    requires a != b
    ensures ToLeBytes(a) != ToLeBytes(b)
  {
    LeRoundTrip(a);
    LeRoundTrip(b);
  }
}
