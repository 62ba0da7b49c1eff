/** The software checksums: shift tricks and a table against plain polynomial division, bit by bit. */
module Checksums {

  // ---------- polynomial division, one bit at a time ----------

  /** Highest bit first. */
  function Msb(poly: bv16, c: bv16): bv16 {
    if c & 0x8000 != 0 then (c << 1) ^ poly else c << 1
  }

  function Msb8(poly: bv16, c: bv16): bv16 {
    Msb(poly, Msb(poly, Msb(poly, Msb(poly, Msb(poly, Msb(poly, Msb(poly, Msb(poly, c))))))))
  }

  /** The checksum of a buffer, each byte entering at the top. */
  function MsbSum(poly: bv16, buf: seq<bv8>, crc: bv16): bv16
    decreases |buf|
  {
    if buf == [] then crc else MsbSum(poly, buf[1..], Msb8(poly, crc ^ (buf[0] as bv16 << 8)))
  }

  /** Lowest bit first. */
  function Lsb16(poly: bv16, c: bv16): bv16 {
    if c & 1 != 0 then (c >> 1) ^ poly else c >> 1
  }

  function Lsb16x8(poly: bv16, c: bv16): bv16 {
    Lsb16(poly, Lsb16(poly, Lsb16(poly, Lsb16(poly, Lsb16(poly, Lsb16(poly, Lsb16(poly, Lsb16(poly, c))))))))
  }

  function Lsb16Sum(poly: bv16, buf: seq<bv8>, crc: bv16): bv16
    decreases |buf|
  {
    if buf == [] then crc else Lsb16Sum(poly, buf[1..], Lsb16x8(poly, crc ^ buf[0] as bv16))
  }

  function Lsb8(poly: bv8, c: bv8): bv8 {
    if c & 1 != 0 then (c >> 1) ^ poly else c >> 1
  }

  function Lsb8Bits(poly: bv8, c: bv8, n: nat): bv8
    decreases n
  {
    if n == 0 then c else Lsb8Bits(poly, Lsb8(poly, c), n - 1)
  }

  function Lsb8Sum(poly: bv8, buf: seq<bv8>, crc: bv8): bv8
    decreases |buf|
  {
    if buf == [] then crc else Lsb8Sum(poly, buf[1..], Lsb8Bits(poly, crc ^ buf[0], 8))
  }

  // One byte of each sum.

  lemma MsbNext(poly: bv16, buf: seq<bv8>, i: nat, crc: bv16)
    requires i < |buf|
    ensures MsbSum(poly, buf[i..], crc) == MsbSum(poly, buf[i + 1..], Msb8(poly, crc ^ (buf[i] as bv16 << 8)))
  {
    hide Msb8;
    assert buf[i..][1..] == buf[i + 1..];
  }

  lemma Lsb16Next(poly: bv16, buf: seq<bv8>, i: nat, crc: bv16)
    requires i < |buf|
    ensures Lsb16Sum(poly, buf[i..], crc) == Lsb16Sum(poly, buf[i + 1..], Lsb16x8(poly, crc ^ buf[i] as bv16))
  {
    hide Lsb16x8;
    assert buf[i..][1..] == buf[i + 1..];
  }

  // ---------- CRC_16 and CRC_16_CCITT ----------

  method Crc16(poly: bv16, buf: seq<bv8>, crc0: bv16) returns (crc: bv16)
    ensures crc == MsbSum(poly, buf, crc0)
  {
    hide Msb;
    crc := crc0;
    assert buf[0..] == buf;
    for i := 0 to |buf|
      invariant MsbSum(poly, buf[i..], crc) == MsbSum(poly, buf, crc0)
    {
      MsbNext(poly, buf, i, crc);
      crc := crc ^ (buf[i] as bv16 << 8);
      crc := Msb(poly, crc);
      crc := Msb(poly, crc);
      crc := Msb(poly, crc);
      crc := Msb(poly, crc);
      crc := Msb(poly, crc);
      crc := Msb(poly, crc);
      crc := Msb(poly, crc);
      crc := Msb(poly, crc);
    }
  }

  const CCITT_POLY: bv16 := 0x1021

  // Several bit steps at once, as long as none sees a bit that another has set. The bit-vector facts
  // are stated on named values, which keeps each of them a matter of substitution.

  predicate OneStep(c: bv16, d: bv16) {
    var k := c >> 15;
    d == (c << 1) ^ k ^ (k << 5) ^ (k << 12)
  }

  predicate TwoSteps(c: bv16, d: bv16) {
    var k := c >> 14;
    d == (c << 2) ^ k ^ (k << 5) ^ (k << 12)
  }

  predicate FourSteps(c: bv16, d: bv16) {
    var k := c >> 12;
    d == (c << 4) ^ k ^ (k << 5) ^ (k << 12)
  }

  lemma TopBit(c: bv16)
    ensures c & 0x8000 != 0 ==> c >> 15 == 1
    ensures c & 0x8000 == 0 ==> c >> 15 == 0
  {
    if c & 0x8000 != 0 {
      TopBitSet(c);
    } else {
      TopBitClear(c);
    }
  }

  lemma TopBitSet(c: bv16)
    requires c & 0x8000 != 0
    ensures c >> 15 == 1
  {
  }

  lemma TopBitClear(c: bv16)
    requires c & 0x8000 == 0
    ensures c >> 15 == 0
  {
  }

  lemma OneBit(c: bv16)
    ensures OneStep(c, Msb(CCITT_POLY, c))
  {
    TopBit(c);
  }

  lemma TwoBits(c: bv16, d: bv16, e: bv16)
    requires OneStep(c, d) && OneStep(d, e)
    ensures TwoSteps(c, e)
  {
  }

  lemma FourBits(c: bv16, d: bv16, e: bv16)
    requires TwoSteps(c, d) && TwoSteps(d, e)
    ensures FourSteps(c, e)
  {
  }

  function Msb4(poly: bv16, c: bv16): bv16 {
    Msb(poly, Msb(poly, Msb(poly, Msb(poly, c))))
  }

  lemma HalfByte(c: bv16)
    ensures FourSteps(c, Msb4(CCITT_POLY, c))
  {
    hide Msb, OneStep, TwoSteps, FourSteps;
    var c1 := Msb(CCITT_POLY, c);
    var c2 := Msb(CCITT_POLY, c1);
    var c3 := Msb(CCITT_POLY, c2);
    var c4 := Msb(CCITT_POLY, c3);
    OneBit(c);
    OneBit(c1);
    OneBit(c2);
    OneBit(c3);
    TwoBits(c, c1, c2);
    TwoBits(c2, c3, c4);
    FourBits(c, c2, c4);
  }

  lemma WholeByte(poly: bv16, c: bv16)
    ensures Msb8(poly, c) == Msb4(poly, Msb4(poly, c))
  {
    hide Msb;
  }

  predicate RotatedTo(c: bv16, r: bv16) {
    r == (c >> 8) | (c << 8)
  }

  /** The byte may enter below the rotation as well as above it. */
  lemma EntersBelow(crc: bv16, b: bv8, c: bv16, r: bv16)
    requires c == crc ^ (b as bv16 << 8) && r == ((crc >> 8) | (crc << 8)) ^ b as bv16
    ensures RotatedTo(c, r)
  {
  }

  /** What the three lines after the rotation do to c2. */
  predicate FoldedTo(c2: bv16, r: bv16) {
    var c3 := c2 ^ ((c2 & 0xFF) >> 4);
    var c4 := c3 ^ ((c3 << 8) << 4);
    r == c4 ^ (((c4 & 0xFF) << 4) << 1)
  }

  lemma FoldIsByte(c: bv16, c2: bv16, d: bv16, e: bv16, r: bv16)
    requires RotatedTo(c, c2) && FoldedTo(c2, r) && FourSteps(c, d) && FourSteps(d, e)
    ensures r == e
  {
  }

  lemma Folds(c2: bv16, c3: bv16, c4: bv16, r: bv16)
    requires c3 == c2 ^ ((c2 & 0xFF) >> 4) && c4 == c3 ^ ((c3 << 8) << 4) && r == c4 ^ (((c4 & 0xFF) << 4) << 1)
    ensures FoldedTo(c2, r)
  {
  }

  /** The body of the loop of CRC_16_CCITT, without any branch: eight bit steps with the polynomial 0x1021. */
  method CcittByte(crc0: bv16, b: bv8) returns (crc: bv16)
    ensures crc == Msb8(CCITT_POLY, crc0 ^ (b as bv16 << 8))
  {
    hide Msb8, Msb4, RotatedTo, FoldedTo, FourSteps;
    ghost var c := crc0 ^ (b as bv16 << 8);
    crc := (crc0 >> 8) | (crc0 << 8);
    crc := crc ^ b as bv16;
    EntersBelow(crc0, b, c, crc);
    ghost var c2 := crc;
    crc := crc ^ ((crc & 0xFF) >> 4);
    ghost var c3 := crc;
    crc := crc ^ ((crc << 8) << 4);
    ghost var c4 := crc;
    crc := crc ^ (((crc & 0xFF) << 4) << 1);
    Folds(c2, c3, c4, crc);
    HalfByte(c);
    HalfByte(Msb4(CCITT_POLY, c));
    WholeByte(CCITT_POLY, c);
    FoldIsByte(c, c2, Msb4(CCITT_POLY, c), Msb8(CCITT_POLY, c), crc);
  }

  method Crc16Ccitt(buf: seq<bv8>, crc0: bv16) returns (crc: bv16)
    ensures crc == MsbSum(CCITT_POLY, buf, crc0)
  {
    hide Msb8;
    crc := crc0;
    assert buf[0..] == buf;
    for i := 0 to |buf|
      invariant MsbSum(CCITT_POLY, buf[i..], crc) == MsbSum(CCITT_POLY, buf, crc0)
    {
      MsbNext(CCITT_POLY, buf, i, crc);
      crc := CcittByte(crc, buf[i]);
    }
  }

  function Unmsb(poly: bv16, c: bv16): bv16 {
    if c & 1 != 0 then ((c ^ poly) >> 1) | 0x8000 else c >> 1
  }

  lemma OddSet(poly: bv16, a: bv16)
    requires poly & 1 == 1 && a & 0x8000 != 0
    ensures ((a << 1) ^ poly) & 1 == 1
  {
  }

  /** With an odd polynomial no two states lead to the same state. */
  lemma MsbInvertible(poly: bv16, a: bv16)
    requires poly & 1 == 1
    ensures Unmsb(poly, Msb(poly, a)) == a
  {
    if a & 0x8000 != 0 {
      OddSet(poly, a);
    }
  }

  lemma Msb8Invertible(poly: bv16, a: bv16)
    requires poly & 1 == 1
    ensures Unmsb8(poly, Msb8(poly, a)) == a
  {
    hide Msb, Unmsb;
    var a1 := Msb(poly, a);
    var a2 := Msb(poly, a1);
    var a3 := Msb(poly, a2);
    var a4 := Msb(poly, a3);
    var a5 := Msb(poly, a4);
    var a6 := Msb(poly, a5);
    var a7 := Msb(poly, a6);
    MsbInvertible(poly, a); MsbInvertible(poly, a1); MsbInvertible(poly, a2); MsbInvertible(poly, a3);
    MsbInvertible(poly, a4); MsbInvertible(poly, a5); MsbInvertible(poly, a6); MsbInvertible(poly, a7);
  }

  function Unmsb8(poly: bv16, c: bv16): bv16 {
    Unmsb(poly, Unmsb(poly, Unmsb(poly, Unmsb(poly, Unmsb(poly, Unmsb(poly, Unmsb(poly, Unmsb(poly, c))))))))
  }

  lemma Msb8Injective(poly: bv16, a: bv16, b: bv16)
    requires poly & 1 == 1 && Msb8(poly, a) == Msb8(poly, b)
    ensures a == b
  {
    hide Msb8, Unmsb8;
    Msb8Invertible(poly, a);
    Msb8Invertible(poly, b);
  }

  lemma {:induction false} SeedMatters(poly: bv16, buf: seq<bv8>, c: bv16, d: bv16)
    requires poly & 1 == 1 && c != d
    ensures MsbSum(poly, buf, c) != MsbSum(poly, buf, d)
    decreases |buf|
  {
    hide Msb8;
    if buf != [] {
      var c1, d1 := Msb8(poly, c ^ (buf[0] as bv16 << 8)), Msb8(poly, d ^ (buf[0] as bv16 << 8));
      if c1 == d1 {
        Msb8Injective(poly, c ^ (buf[0] as bv16 << 8), d ^ (buf[0] as bv16 << 8));
      }
      SeedMatters(poly, buf[1..], c1, d1);
    }
  }

  /** Two buffers that differ in exactly one byte never have the same checksum. */
  lemma {:induction false} OneByteErrorDetected(poly: bv16, a: seq<bv8>, b: seq<bv8>, k: nat, crc: bv16)
    requires poly & 1 == 1 && |a| == |b| && k < |a| && a[k] != b[k]
    requires forall i :: 0 <= i < |a| && i != k ==> a[i] == b[i]
    ensures MsbSum(poly, a, crc) != MsbSum(poly, b, crc)
    decreases k
  {
    hide Msb8;
    if k == 0 {
      assert a[1..] == b[1..];
      var c, d := Msb8(poly, crc ^ (a[0] as bv16 << 8)), Msb8(poly, crc ^ (b[0] as bv16 << 8));
      if c == d {
        Msb8Injective(poly, crc ^ (a[0] as bv16 << 8), crc ^ (b[0] as bv16 << 8));
      }
      SeedMatters(poly, a[1..], c, d);
    } else {
      OneByteErrorDetected(poly, a[1..], b[1..], k - 1, Msb8(poly, crc ^ (a[0] as bv16 << 8)));
    }
  }

  // ---------- CRC_8_8C and CRC_8 ----------

  lemma Lsb8Bit(poly: bv8, c: bv8, n: nat)
    ensures Lsb8Bits(poly, c, 0) == c && Lsb8Bits(poly, c, n + 1) == Lsb8Bits(poly, Lsb8(poly, c), n)
  {
  }

  method Crc8With8C(buf: seq<bv8>, crc0: bv8) returns (crc: bv8)
    ensures crc == Lsb8Sum(0x8C, buf, crc0)
  {
    hide Lsb8Bits;
    crc := crc0;
    assert buf[0..] == buf;
    for i := 0 to |buf|
      invariant Lsb8Sum(0x8C, buf[i..], crc) == Lsb8Sum(0x8C, buf, crc0)
    {
      ghost var done := Lsb8Bits(0x8C, crc ^ buf[i], 8);
      crc := crc ^ buf[i];
      for j := 0 to 8
        invariant Lsb8Bits(0x8C, crc, 8 - j) == done
      {
        Lsb8Bit(0x8C, crc, 7 - j);
        if crc & 1 != 0 {
          crc := (crc >> 1) ^ 0x8C;
        } else {
          crc := crc >> 1;
        }
      }
      Lsb8Bit(0x8C, crc, 0);
    }
  }

  lemma Lsb8Cases(poly: bv8, c: bv8)
    ensures c & 1 != 0 ==> Lsb8(poly, c) == (c >> 1) ^ poly
    ensures c & 1 == 0 ==> Lsb8(poly, c) == c >> 1
  {
  }

  lemma ApartSet(poly: bv8, crc: bv8, v: bv8, x: bv8, y: bv8, next: bv8)
    requires x == crc ^ v && y == (x >> 1) ^ poly && next == (crc >> 1) ^ poly
    ensures y == next ^ (v >> 1)
  {
  }

  /** The byte is not mixed in but shifted along beside the state; for every polynomial the sum is the same. */
  method Crc8(poly: bv8, buf: seq<bv8>, crc0: bv8) returns (crc: bv8)
    ensures crc == Lsb8Sum(poly, buf, crc0)
  {
    hide Lsb8Bits;
    crc := crc0;
    assert buf[0..] == buf;
    for i := 0 to |buf|
      invariant Lsb8Sum(poly, buf[i..], crc) == Lsb8Sum(poly, buf, crc0)
    {
      crc := Crc8Byte(poly, buf[i], crc);
    }
  }

  method Crc8Byte(poly: bv8, b: bv8, crc0: bv8) returns (crc: bv8)
    ensures crc == Lsb8Bits(poly, crc0 ^ b, 8)
  {
    hide Lsb8Bits, Lsb8, Gone;
    crc := crc0;
    var v := b;
    GoneAfterEight(v);
    for j := 0 to 8
      invariant Lsb8Bits(poly, crc ^ v, 8 - j) == Lsb8Bits(poly, crc0 ^ b, 8)
      invariant Gone(v, 8 - j)
    {
      ghost var x := crc ^ v;
      Lsb8Bit(poly, x, 7 - j);
      Lsb8Cases(poly, x);
      GoneOn(v, 7 - j);
      if (crc ^ v) & 1 != 0 {
        ApartSet(poly, crc, v, x, Lsb8(poly, x), (crc >> 1) ^ poly);
        crc := (crc >> 1) ^ poly;
      } else {
        crc := crc >> 1;
      }
      v := v >> 1;
    }
    GoneAll(v);
    Lsb8Bit(poly, crc ^ v, 0);
    assert crc ^ v == crc;
  }

  /** After n more shifts nothing is left of v. */
  predicate Gone(v: bv8, n: nat)
    decreases n
  {
    if n == 0 then v == 0 else Gone(v >> 1, n - 1)
  }

  lemma GoneAfterEight(v: bv8)
    ensures Gone(v, 8)
  {
    assert Gone(v >> 1 >> 1 >> 1 >> 1 >> 1 >> 1, 2);
    assert Gone(v >> 1 >> 1 >> 1, 5);
  }

  lemma GoneOn(v: bv8, n: nat)
    requires Gone(v, n + 1)
    ensures Gone(v >> 1, n)
  {
  }

  lemma GoneAll(v: bv8)
    requires Gone(v, 0)
    ensures v == 0
  {
  }

  // ---------- CRC_16_IBM ----------

  // crc16_table, sixteen entries to a row.

  const ROW_0: seq<bv16> := [0x0000, 0xC0C1, 0xC181, 0x0140, 0xC301, 0x03C0, 0x0280, 0xC241,
    0xC601, 0x06C0, 0x0780, 0xC741, 0x0500, 0xC5C1, 0xC481, 0x0440]
  const ROW_1: seq<bv16> := [0xCC01, 0x0CC0, 0x0D80, 0xCD41, 0x0F00, 0xCFC1, 0xCE81, 0x0E40,
    0x0A00, 0xCAC1, 0xCB81, 0x0B40, 0xC901, 0x09C0, 0x0880, 0xC841]
  const ROW_2: seq<bv16> := [0xD801, 0x18C0, 0x1980, 0xD941, 0x1B00, 0xDBC1, 0xDA81, 0x1A40,
    0x1E00, 0xDEC1, 0xDF81, 0x1F40, 0xDD01, 0x1DC0, 0x1C80, 0xDC41]
  const ROW_3: seq<bv16> := [0x1400, 0xD4C1, 0xD581, 0x1540, 0xD701, 0x17C0, 0x1680, 0xD641,
    0xD201, 0x12C0, 0x1380, 0xD341, 0x1100, 0xD1C1, 0xD081, 0x1040]
  const ROW_4: seq<bv16> := [0xF001, 0x30C0, 0x3180, 0xF141, 0x3300, 0xF3C1, 0xF281, 0x3240,
    0x3600, 0xF6C1, 0xF781, 0x3740, 0xF501, 0x35C0, 0x3480, 0xF441]
  const ROW_5: seq<bv16> := [0x3C00, 0xFCC1, 0xFD81, 0x3D40, 0xFF01, 0x3FC0, 0x3E80, 0xFE41,
    0xFA01, 0x3AC0, 0x3B80, 0xFB41, 0x3900, 0xF9C1, 0xF881, 0x3840]
  const ROW_6: seq<bv16> := [0x2800, 0xE8C1, 0xE981, 0x2940, 0xEB01, 0x2BC0, 0x2A80, 0xEA41,
    0xEE01, 0x2EC0, 0x2F80, 0xEF41, 0x2D00, 0xEDC1, 0xEC81, 0x2C40]
  const ROW_7: seq<bv16> := [0xE401, 0x24C0, 0x2580, 0xE541, 0x2700, 0xE7C1, 0xE681, 0x2640,
    0x2200, 0xE2C1, 0xE381, 0x2340, 0xE101, 0x21C0, 0x2080, 0xE041]
  const ROW_8: seq<bv16> := [0xA001, 0x60C0, 0x6180, 0xA141, 0x6300, 0xA3C1, 0xA281, 0x6240,
    0x6600, 0xA6C1, 0xA781, 0x6740, 0xA501, 0x65C0, 0x6480, 0xA441]
  const ROW_9: seq<bv16> := [0x6C00, 0xACC1, 0xAD81, 0x6D40, 0xAF01, 0x6FC0, 0x6E80, 0xAE41,
    0xAA01, 0x6AC0, 0x6B80, 0xAB41, 0x6900, 0xA9C1, 0xA881, 0x6840]
  const ROW_10: seq<bv16> := [0x7800, 0xB8C1, 0xB981, 0x7940, 0xBB01, 0x7BC0, 0x7A80, 0xBA41,
    0xBE01, 0x7EC0, 0x7F80, 0xBF41, 0x7D00, 0xBDC1, 0xBC81, 0x7C40]
  const ROW_11: seq<bv16> := [0xB401, 0x74C0, 0x7580, 0xB541, 0x7700, 0xB7C1, 0xB681, 0x7640,
    0x7200, 0xB2C1, 0xB381, 0x7340, 0xB101, 0x71C0, 0x7080, 0xB041]
  const ROW_12: seq<bv16> := [0x5000, 0x90C1, 0x9181, 0x5140, 0x9301, 0x53C0, 0x5280, 0x9241,
    0x9601, 0x56C0, 0x5780, 0x9741, 0x5500, 0x95C1, 0x9481, 0x5440]
  const ROW_13: seq<bv16> := [0x9C01, 0x5CC0, 0x5D80, 0x9D41, 0x5F00, 0x9FC1, 0x9E81, 0x5E40,
    0x5A00, 0x9AC1, 0x9B81, 0x5B40, 0x9901, 0x59C0, 0x5880, 0x9841]
  const ROW_14: seq<bv16> := [0x8801, 0x48C0, 0x4980, 0x8941, 0x4B00, 0x8BC1, 0x8A81, 0x4A40,
    0x4E00, 0x8EC1, 0x8F81, 0x4F40, 0x8D01, 0x4DC0, 0x4C80, 0x8C41]
  const ROW_15: seq<bv16> := [0x4400, 0x84C1, 0x8581, 0x4540, 0x8701, 0x47C0, 0x4680, 0x8641,
    0x8201, 0x42C0, 0x4380, 0x8341, 0x4100, 0x81C1, 0x8081, 0x4040]

  const IBM_TABLE: seq<seq<bv16>> := [
    ROW_0, ROW_1, ROW_2, ROW_3, ROW_4, ROW_5, ROW_6, ROW_7,
    ROW_8, ROW_9, ROW_10, ROW_11, ROW_12, ROW_13, ROW_14, ROW_15]

  const IBM_POLY: bv16 := 0xA001

  /** Eight bit steps on index 16 * k + j. */
  function IbmEntry(k: bv16, j: bv16): bv16 {
    Lsb16x8(IBM_POLY, (k << 4) | j)
  }

  predicate RowIs(row: seq<bv16>, k: bv16) {
    && |row| == 16
    && row[0] == IbmEntry(k, 0) && row[1] == IbmEntry(k, 1) && row[2] == IbmEntry(k, 2) && row[3] == IbmEntry(k, 3)
    && row[4] == IbmEntry(k, 4) && row[5] == IbmEntry(k, 5) && row[6] == IbmEntry(k, 6) && row[7] == IbmEntry(k, 7)
    && row[8] == IbmEntry(k, 8) && row[9] == IbmEntry(k, 9) && row[10] == IbmEntry(k, 10)
    && row[11] == IbmEntry(k, 11) && row[12] == IbmEntry(k, 12) && row[13] == IbmEntry(k, 13)
    && row[14] == IbmEntry(k, 14) && row[15] == IbmEntry(k, 15)
  }

  lemma Rows0()
    ensures RowIs(ROW_0, 0) && RowIs(ROW_1, 1)
  {
  }

  lemma Rows2()
    ensures RowIs(ROW_2, 2) && RowIs(ROW_3, 3)
  {
  }

  lemma Rows4()
    ensures RowIs(ROW_4, 4) && RowIs(ROW_5, 5)
  {
  }

  lemma Rows6()
    ensures RowIs(ROW_6, 6) && RowIs(ROW_7, 7)
  {
  }

  lemma Rows8()
    ensures RowIs(ROW_8, 8) && RowIs(ROW_9, 9)
  {
  }

  lemma Rows10()
    ensures RowIs(ROW_10, 10) && RowIs(ROW_11, 11)
  {
  }

  lemma Rows12()
    ensures RowIs(ROW_12, 12) && RowIs(ROW_13, 13)
  {
  }

  lemma Rows14()
    ensures RowIs(ROW_14, 14) && RowIs(ROW_15, 15)
  {
  }

  lemma InRow(row: seq<bv16>, k: bv16, j: bv16)
    requires RowIs(row, k) && j < 16
    ensures (j as int) < 16 && row[j as int] == IbmEntry(k, j)
  {
    hide IbmEntry;
    if j == 0 { assert j as int == 0; } else if j == 1 { assert j as int == 1; }
    else if j == 2 { assert j as int == 2; } else if j == 3 { assert j as int == 3; }
    else if j == 4 { assert j as int == 4; } else if j == 5 { assert j as int == 5; }
    else if j == 6 { assert j as int == 6; } else if j == 7 { assert j as int == 7; }
    else if j == 8 { assert j as int == 8; } else if j == 9 { assert j as int == 9; }
    else if j == 10 { assert j as int == 10; } else if j == 11 { assert j as int == 11; }
    else if j == 12 { assert j as int == 12; } else if j == 13 { assert j as int == 13; }
    else if j == 14 { assert j as int == 14; } else { assert j as int == 15; }
  }

  lemma RowOf(k: bv16)
    requires k < 16
    ensures (k as int) < |IBM_TABLE| && RowIs(IBM_TABLE[k as int], k)
  {
    hide RowIs;
    Rows0(); Rows2(); Rows4(); Rows6(); Rows8(); Rows10(); Rows12(); Rows14();
    if k == 0 { assert k as int == 0; } else if k == 1 { assert k as int == 1; }
    else if k == 2 { assert k as int == 2; } else if k == 3 { assert k as int == 3; }
    else if k == 4 { assert k as int == 4; } else if k == 5 { assert k as int == 5; }
    else if k == 6 { assert k as int == 6; } else if k == 7 { assert k as int == 7; }
    else if k == 8 { assert k as int == 8; } else if k == 9 { assert k as int == 9; }
    else if k == 10 { assert k as int == 10; } else if k == 11 { assert k as int == 11; }
    else if k == 12 { assert k as int == 12; } else if k == 13 { assert k as int == 13; }
    else if k == 14 { assert k as int == 14; } else { assert k as int == 15; }
  }

  /** The table holds what eight bit steps make of its index. */
  lemma IbmTable(x: bv16)
    requires x < 256
    ensures ((x >> 4) as int) < |IBM_TABLE| && ((x & 15) as int) < |IBM_TABLE[(x >> 4) as int]|
    ensures IBM_TABLE[(x >> 4) as int][(x & 15) as int] == Lsb16x8(IBM_POLY, x)
  {
    var k, j := x >> 4, x & 15;
    assert k < 16 && j < 16 && (k << 4) | j == x;
    hide Lsb16x8;
    RowOf(k);
    InRow(IBM_TABLE[k as int], k, j);
  }

  lemma Lsb16Cases(poly: bv16, c: bv16)
    ensures c & 1 != 0 ==> Lsb16(poly, c) == (c >> 1) ^ poly
    ensures c & 1 == 0 ==> Lsb16(poly, c) == c >> 1
  {
  }

  lemma PassSet(poly: bv16, h: bv16, l: bv16, x: bv16, y: bv16, z: bv16)
    requires x == h ^ l && y == (x >> 1) ^ poly && z == (l >> 1) ^ poly
    ensures y == (h >> 1) ^ z
  {
  }

  lemma PassClear(h: bv16, l: bv16, x: bv16, y: bv16, z: bv16)
    requires x == h ^ l && y == x >> 1 && z == l >> 1
    ensures y == (h >> 1) ^ z
  {
  }

  /** Bits above the lowest pass through a bit step on their own. */
  lemma BitPasses(poly: bv16, h: bv16, l: bv16, x: bv16)
    requires h & 1 == 0 && x == h ^ l
    ensures Lsb16(poly, x) == (h >> 1) ^ Lsb16(poly, l)
  {
    hide Lsb16;
    Lsb16Cases(poly, x);
    Lsb16Cases(poly, l);
    if l & 1 != 0 {
      PassSet(poly, h, l, x, Lsb16(poly, x), Lsb16(poly, l));
    } else {
      PassClear(h, l, x, Lsb16(poly, x), Lsb16(poly, l));
    }
  }

  predicate Shifted(h: bv16, h1: bv16) {
    h1 == h >> 1
  }

  predicate Even(h: bv16) {
    h & 1 == 0
  }

  predicate Mixed(h: bv16, l: bv16, x: bv16) {
    x == h ^ l
  }

  lemma BitPassed(poly: bv16, h: bv16, l: bv16, x: bv16, h1: bv16)
    requires Even(h) && Shifted(h, h1) && Mixed(h, l, x)
    ensures Mixed(h1, Lsb16(poly, l), Lsb16(poly, x))
  {
    hide Lsb16;
    BitPasses(poly, h, l, x);
  }

  /** The upper byte passes through eight bit steps unchanged. */
  lemma UpperPasses(poly: bv16, c: bv16, low: bv16, high: bv16)
    requires low == c & 0xFF && high == c >> 8
    ensures Mixed(high, Lsb16x8(poly, low), Lsb16x8(poly, c))
  {
    var h0 := c & 0xFF00;
    var h1 := h0 >> 1;
    var h2 := h1 >> 1;
    var h3 := h2 >> 1;
    var h4 := h3 >> 1;
    var h5 := h4 >> 1;
    var h6 := h5 >> 1;
    var h7 := h6 >> 1;
    EightPass(poly, c, low, h0, h1, h2, h3, h4, h5, h6, h7, high);
  }

  lemma EightPass(poly: bv16, c: bv16, low: bv16, h0: bv16, h1: bv16, h2: bv16, h3: bv16, h4: bv16,
                  h5: bv16, h6: bv16, h7: bv16, h8: bv16)
    requires Mixed(h0, low, c) && Shifted(h0, h1) && Shifted(h1, h2) && Shifted(h2, h3) && Shifted(h3, h4)
    requires Shifted(h4, h5) && Shifted(h5, h6) && Shifted(h6, h7) && Shifted(h7, h8)
    requires Even(h0) && Even(h1) && Even(h2) && Even(h3) && Even(h4) && Even(h5) && Even(h6) && Even(h7)
    ensures Mixed(h8, Lsb16x8(poly, low), Lsb16x8(poly, c))
  {
    hide Lsb16, Mixed, Even, Shifted;
    var l1, c1 := Lsb16(poly, low), Lsb16(poly, c);
    var l2, c2 := Lsb16(poly, l1), Lsb16(poly, c1);
    var l3, c3 := Lsb16(poly, l2), Lsb16(poly, c2);
    var l4, c4 := Lsb16(poly, l3), Lsb16(poly, c3);
    var l5, c5 := Lsb16(poly, l4), Lsb16(poly, c4);
    var l6, c6 := Lsb16(poly, l5), Lsb16(poly, c5);
    var l7, c7 := Lsb16(poly, l6), Lsb16(poly, c6);
    BitPassed(poly, h0, low, c, h1);
    BitPassed(poly, h1, l1, c1, h2);
    BitPassed(poly, h2, l2, c2, h3);
    BitPassed(poly, h3, l3, c3, h4);
    BitPassed(poly, h4, l4, c4, h5);
    BitPassed(poly, h5, l5, c5, h6);
    BitPassed(poly, h6, l6, c6, h7);
    BitPassed(poly, h7, l7, c7, h8);
  }

  method Crc16Ibm(buf: seq<bv8>, crc0: bv16) returns (crc: bv16)
    ensures crc == Lsb16Sum(IBM_POLY, buf, crc0)
  {
    hide Lsb16x8;
    crc := crc0;
    assert buf[0..] == buf;
    for i := 0 to |buf|
      invariant Lsb16Sum(IBM_POLY, buf[i..], crc) == Lsb16Sum(IBM_POLY, buf, crc0)
    {
      Lsb16Next(IBM_POLY, buf, i, crc);
      crc := IbmByte(crc, buf[i]);
    }
  }

  lemma SmallIndex(crc: bv16, b: bv8, c: bv16)
    requires c == crc ^ b as bv16
    ensures c & 0xFF < 256 && c >> 8 == crc >> 8
  {
  }

  method IbmByte(crc0: bv16, b: bv8) returns (crc: bv16)
    ensures crc == Lsb16x8(IBM_POLY, crc0 ^ b as bv16)
  {
    hide Lsb16x8;
    ghost var c := crc0 ^ b as bv16;
    var x := (crc0 ^ b as bv16) & 0xFF;
    SmallIndex(crc0, b, c);
    IbmTable(x);
    UpperPasses(IBM_POLY, c, x, c >> 8);
    crc := (crc0 >> 8) ^ IBM_TABLE[(x >> 4) as int][(x & 15) as int];
  }
}
