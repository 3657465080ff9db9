// Raw memory as the blitting codec sees it: bytes, and the in-memory image of
// an unsigned integer (a `size_t` or a character code unit) on the host.

module Bytes {

  /** One `char` of raw memory, read as an unsigned value. */
  newtype byte = b: int | 0 <= b < 256

  /** `sizeof(size_t)` on the 64-bit hosts the program is built for. */
  const SIZE_T_WIDTH: nat := 8

  /** Number of distinct `size_t` values; arithmetic on `size_t` is modulo this. */
  const SIZE_T_MODULUS: nat := 0x1_0000_0000_0000_0000

  /** A `size_t` value. */
  type SizeT = n: nat | n < SIZE_T_MODULUS

  /** Number of distinct values an unsigned integer of `k` bytes can hold. */
  function Pow256(k: nat): (r: nat)
    ensures r >= 1
  {
    if k == 0 then 1 else 256 * Pow256(k - 1)
  }

  /** The `size_t` range is exactly what eight bytes can hold. */
  lemma SizeTFitsWidth()
    ensures Pow256(SIZE_T_WIDTH) == SIZE_T_MODULUS
  {
  }

  /**
   * The bytes of an unsigned integer of `width` bytes as they lie in memory
   * on a little-endian host: least significant byte first.
   */
  function LittleEndian(n: nat, width: nat): (r: seq<byte>)
    requires n < Pow256(width)
    ensures |r| == width
    ensures width > 0 ==> r[0] as nat == n % 256
  {
    if width == 0 then []
    else
      assert n / 256 < Pow256(width - 1);
      [(n % 256) as byte] + LittleEndian(n / 256, width - 1)
  }

  /** The unsigned integer whose little-endian image is `bs`. */
  function FromLittleEndian(bs: seq<byte>): (n: nat)
    ensures n < Pow256(|bs|)
  {
    if bs == [] then 0
    else
      var high := FromLittleEndian(bs[1..]);
      assert bs[0] as nat + 256 * high <= 255 + 256 * (Pow256(|bs| - 1) - 1);
      bs[0] as nat + 256 * high
  }

  /** Reading back the image of a value gives the value. */
  lemma {:induction false} LittleEndianRoundTrip(n: nat, width: nat)
    requires n < Pow256(width)
    ensures FromLittleEndian(LittleEndian(n, width)) == n
  {
    if width > 0 {
      LittleEndianRoundTrip(n / 256, width - 1);
      assert LittleEndian(n, width)[1..] == LittleEndian(n / 256, width - 1);
    }
  }

  /** Every byte string is the image of the value it reads as. */
  lemma {:induction false} FromLittleEndianRoundTrip(bs: seq<byte>)
    ensures LittleEndian(FromLittleEndian(bs), |bs|) == bs
  {
    if bs != [] {
      var n := FromLittleEndian(bs);
      var high := FromLittleEndian(bs[1..]);
      assert n % 256 == bs[0] as nat && n / 256 == high;
      FromLittleEndianRoundTrip(bs[1..]);
    }
  }

  /** The image of a `size_t`, as `write(&l, sizeof(size_t))` copies it. */
  function SizeBytes(n: SizeT): (r: seq<byte>)
    ensures |r| == SIZE_T_WIDTH
    ensures FromLittleEndian(r) == n
  {
    SizeTFitsWidth();
    LittleEndianRoundTrip(n, SIZE_T_WIDTH);
    LittleEndian(n, SIZE_T_WIDTH)
  }

  /** The `size_t` that `read(&l, sizeof(size_t))` fills in from eight bytes. */
  function SizeOf(bs: seq<byte>): (n: SizeT)
    requires |bs| == SIZE_T_WIDTH
    ensures SizeBytes(n) == bs
  {
    SizeTFitsWidth();
    FromLittleEndianRoundTrip(bs);
    FromLittleEndian(bs)
  }
}
