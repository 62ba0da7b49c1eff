/** Bytes as small integers, little-endian words, and a few sequence facts shared by all protocols. */
module Bytes {

  type Byte = b: int | 0 <= b < 256

  /** A 16-bit value in the order the wire uses: low byte first. */
  function Le16(v: int): (bytes: seq<Byte>)
    requires 0 <= v < 0x1_0000
    ensures |bytes| == 2
  {
    [v % 256, v / 256]
  }

  function FromLe16(lo: Byte, hi: Byte): (v: int)
    ensures 0 <= v < 0x1_0000
    ensures Le16(v) == [lo, hi]
  {
    lo + 256 * hi
  }

  lemma LowFirst(v: int)
    requires 0 <= v < 0x1_0000
    ensures FromLe16(v % 256, v / 256) == v
  {
  }

  /** A 32-bit value, low byte first. */
  function Le32(v: int): (bytes: seq<Byte>)
    requires 0 <= v < 0x1_0000_0000
    ensures |bytes| == 4
  {
    Le16(v % 0x1_0000) + Le16(v / 0x1_0000)
  }

  lemma Le32Bytes(v: int)
    requires 0 <= v < 0x1_0000_0000
    ensures Le32(v) == [v % 256, v / 0x100 % 256, v / 0x1_0000 % 256, v / 0x100_0000]
  {
    var lo, hi := v % 0x1_0000, v / 0x1_0000;
    LowByte(v, lo % 256, lo / 256 + 256 * hi);
    LowByte(lo / 256 + 256 * hi, lo / 256, hi);
    TopByte(v, lo + 0x1_0000 * (hi % 256), hi / 256);
  }

  lemma LowByte(v: int, d: int, q: int)
    requires v == d + 256 * q && 0 <= d < 256
    ensures v % 256 == d && v / 256 == q
  {
  }

  lemma TopByte(v: int, d: int, q: int)
    requires v == d + 0x100_0000 * q && 0 <= d < 0x100_0000
    ensures v / 0x100_0000 == q
  {
  }

  lemma Le32Value(v: int)
    requires 0 <= v < 0x1_0000_0000
    ensures var b := Le32(v); v == FromLe16(b[0], b[1]) + 0x1_0000 * FromLe16(b[2], b[3])
  {
  }

  function Pow2(k: nat): (r: nat)
    ensures r > 0
  {
    if k == 0 then 1 else 2 * Pow2(k - 1)
  }

  lemma {:induction false} PowerGrows(j: nat, k: nat)
    requires j <= k
    ensures Pow2(j) <= Pow2(k)
    decreases k
  {
    if j < k {
      PowerGrows(j, k - 1);
    }
  }

  // Shifts and single bits of a number.

  function Shr(c: nat, n: nat): nat {
    if n == 0 then c else Shr(c, n - 1) / 2
  }

  predicate BitSet(c: nat, n: nat) {
    Shr(c, n) % 2 == 1
  }
}
