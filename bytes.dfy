/** Fixed-width unsigned integers and their little-endian byte encoding.

    The write-ahead log header writes a `uint8_t` tag and a `uint32_t` size
    through `Write<T>`, whose body is not part of this model. The model
    assumes each call appends the `sizeof(T)` bytes of its value, the size
    in little-endian order (least significant byte first), the order of the
    usual x86-64 and AArch64 targets.
 */
module Bytes {

  newtype uint8 = x: int | 0 <= x < 0x100
  newtype uint32 = x: int | 0 <= x < 0x1_0000_0000

  /** 256 to the power n: the number of values n bytes can hold. */
  function Pow256(n: nat): (r: nat)
    ensures r >= 1
  {
    if n == 0 then 1 else 256 * Pow256(n - 1)
  }

  /** Four bytes hold exactly the values of a `uint32_t`. */
  lemma Pow256Four()
    ensures Pow256(4) == 0x1_0000_0000
  {
  }

  /** Splitting a number into its lowest byte and the rest, and joining
      them again, are inverse to each other. */
  lemma DivModByte(x: nat)
    ensures 0 <= x % 256 < 256 && x == x % 256 + 256 * (x / 256)
  {
  }

  lemma JoinByte(a: nat, q: nat)
    requires a < 256
    ensures (a + 256 * q) % 256 == a && (a + 256 * q) / 256 == q
  {
  }

  /** The n bytes of x, least significant byte first. */
  function ToLittleEndian(x: nat, n: nat): (bs: seq<uint8>)
    requires x < Pow256(n)
    ensures |bs| == n
    decreases n
  {
    if n == 0 then []
    else
      DivModByte(x);
      [(x % 256) as uint8] + ToLittleEndian(x / 256, n - 1)
  }

  /** The number whose little-endian bytes are bs. */
  function FromLittleEndian(bs: seq<uint8>): (x: nat)
    ensures x < Pow256(|bs|)
  {
    if bs == [] then 0 else bs[0] as nat + 256 * FromLittleEndian(bs[1..])
  }

  /** Reading back the bytes of x gives x. */
  lemma {:induction false} FromToLittleEndian(x: nat, n: nat)
    requires x < Pow256(n)
    ensures FromLittleEndian(ToLittleEndian(x, n)) == x
    decreases n
  {
    if n > 0 {
      DivModByte(x);
      var bs := ToLittleEndian(x, n);
      assert bs[1..] == ToLittleEndian(x / 256, n - 1);
      FromToLittleEndian(x / 256, n - 1);
    }
  }

  /** Every byte sequence is the encoding of the number it denotes: the
      encoding misses no byte pattern and carries no redundancy. */
  lemma {:induction false} ToFromLittleEndian(bs: seq<uint8>)
    ensures ToLittleEndian(FromLittleEndian(bs), |bs|) == bs
  {
    if bs != [] {
      var x := FromLittleEndian(bs);
      JoinByte(bs[0] as nat, FromLittleEndian(bs[1..]));
      ToFromLittleEndian(bs[1..]);
      assert ToLittleEndian(x, |bs|) == [bs[0]] + bs[1..];
    }
  }
}
