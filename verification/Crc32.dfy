/** The STM32 CRC-32 in software: the bit-serial word step, the nibble-table word step,
    and the buffer loop with its zero-extended tail. */
module Crc32 {
  import opened Bytes

  const POLY: bv32 := 0x04C1_1DB7

  const NIBBLE_TABLE: seq<bv32> := [
    0x0000_0000, 0x04C1_1DB7, 0x0982_3B6E, 0x0D43_26D9,
    0x1304_76DC, 0x17C5_6B6B, 0x1A86_4DB2, 0x1E47_5005,
    0x2608_EDB8, 0x22C9_F00F, 0x2F8A_D6D6, 0x2B4B_CB61,
    0x350C_9B64, 0x31CD_86D3, 0x3C8E_A00A, 0x384F_BDBD]

  /** Thirty-two, kept symbolic so that no proof unrolls the thirty-two steps by accident. */
  const WORD_BITS: nat := 2 * |NIBBLE_TABLE|

  // ---------- specification: one bit at a time ----------

  function ShiftBit(c: bv32): bv32 {
    if c & 0x8000_0000 != 0 then (c << 1) ^ POLY else c << 1
  }

  function ShiftBits(c: bv32, n: nat): bv32
    decreases n
  {
    if n == 0 then c else ShiftBits(ShiftBit(c), n - 1)
  }

  function WordStep(seed: bv32, word: bv32): bv32 {
    ShiftBits(seed ^ word, WORD_BITS)
  }

  function Word(b0: bv8, b1: bv8, b2: bv8, b3: bv8): bv32 {
    b0 as bv32 | (b1 as bv32 << 8) | (b2 as bv32 << 16) | (b3 as bv32 << 24)
  }

  /** The word that starts at the head of a non-empty buffer, missing bytes read as zero. */
  function HeadWord(data: seq<bv8>): bv32
    requires data != []
  {
    Word(data[0],
         if |data| > 1 then data[1] else 0,
         if |data| > 2 then data[2] else 0,
         if |data| > 3 then data[3] else 0)
  }

  function Checksum(data: seq<bv8>, seed: bv32): bv32
    decreases |data|
  {
    if data == [] then seed
    else if |data| < 4 then WordStep(seed, HeadWord(data))
    else Checksum(data[4..], WordStep(seed, HeadWord(data)))
  }

  lemma NoShift(c: bv32)
    ensures ShiftBits(c, 0) == c
  {
  }

  lemma OneBit(c: bv32, n: nat)
    ensures ShiftBits(c, n + 1) == ShiftBits(ShiftBit(c), n)
  {
  }

  // ---------- the word steps ----------

  method StmCrcSlow(crc0: bv32, data: bv32) returns (crc: bv32)
    ensures crc == WordStep(crc0, data)
  {
    hide ShiftBits;
    crc := crc0 ^ data;
    for i := 0 to 32
      invariant ShiftBits(crc, 32 - i) == WordStep(crc0, data)
    {
      OneBit(crc, 31 - i);
      if crc & 0x8000_0000 != 0 {
        crc := (crc << 1) ^ 0x04C1_1DB7;
      } else {
        crc := crc << 1;
      }
    }
    NoShift(crc);
  }

  /** Each table entry is what four bit steps make of its index in the top nibble. */
  lemma NibbleTable(c: bv32)
    ensures (c >> 28) as int < 16
    ensures (c << 4) ^ NIBBLE_TABLE[(c >> 28) as int] == ShiftBit(ShiftBit(ShiftBit(ShiftBit(c))))
  {
    var k := c >> 28;
    assert k < 16;
    var i := k as int;
    assert i < 16;
    if k == 0 { assert i == 0; } else if k == 1 { assert i == 1; }
    else if k == 2 { assert i == 2; } else if k == 3 { assert i == 3; }
    else if k == 4 { assert i == 4; } else if k == 5 { assert i == 5; }
    else if k == 6 { assert i == 6; } else if k == 7 { assert i == 7; }
    else if k == 8 { assert i == 8; } else if k == 9 { assert i == 9; }
    else if k == 10 { assert i == 10; } else if k == 11 { assert i == 11; }
    else if k == 12 { assert i == 12; } else if k == 13 { assert i == 13; }
    else if k == 14 { assert i == 14; } else { assert k == 15; assert i == 15; }
  }

  lemma FourBits(c: bv32, n: nat)
    ensures ShiftBits(c, n + 4) == ShiftBits(ShiftBit(ShiftBit(ShiftBit(ShiftBit(c)))), n)
  {
    var c1 := ShiftBit(c);
    var c2 := ShiftBit(c1);
    var c3 := ShiftBit(c2);
    assert ShiftBits(c, n + 4) == ShiftBits(c1, n + 3) == ShiftBits(c2, n + 2) == ShiftBits(c3, n + 1);
  }

  method NibbleRound(crc0: bv32, ghost n: nat) returns (crc: bv32)
    ensures ShiftBits(crc0, n + 4) == ShiftBits(crc, n)
  {
    NibbleTable(crc0);
    FourBits(crc0, n);
    crc := (crc0 << 4) ^ NIBBLE_TABLE[(crc0 >> 28) as int];
  }

  method StmCrcFast(crc0: bv32, data: bv32) returns (crc: bv32)
    ensures crc == WordStep(crc0, data)
  {
    hide ShiftBits;
    crc := crc0 ^ data;
    crc := NibbleRound(crc, 28);
    crc := NibbleRound(crc, 24);
    crc := NibbleRound(crc, 20);
    crc := NibbleRound(crc, 16);
    crc := NibbleRound(crc, 12);
    crc := NibbleRound(crc, 8);
    crc := NibbleRound(crc, 4);
    crc := NibbleRound(crc, 0);
    NoShift(crc);
  }

  // ---------- the buffer loop ----------

  lemma MaskThree(b0: bv8, b1: bv8, b2: bv8, b3: bv8)
    ensures Word(b0, b1, b2, b3) & 0x00FF_FFFF == Word(b0, b1, b2, 0)
  {
  }

  lemma MaskTwo(b0: bv8, b1: bv8, b2: bv8, b3: bv8)
    ensures Word(b0, b1, b2, b3) & 0x0000_FFFF == Word(b0, b1, 0, 0)
  {
  }

  lemma MaskOne(b0: bv8, b1: bv8, b2: bv8, b3: bv8)
    ensures Word(b0, b1, b2, b3) & 0x0000_00FF == Word(b0, 0, 0, 0)
  {
  }

  /** The word that `*p32` reads at offset p of a buffer followed by the bytes `beyond`. */
  function LoadWord(data: seq<bv8>, beyond: seq<bv8>, p: nat): bv32
    requires p < |data| && |beyond| == 3
  {
    var memory := data + beyond;
    Word(memory[p], memory[p + 1], memory[p + 2], memory[p + 3])
  }

  lemma LoadIsHead(data: seq<bv8>, beyond: seq<bv8>, p: nat)
    requires p < |data| && |beyond| == 3
    ensures |data| - p >= 4 ==> LoadWord(data, beyond, p) == HeadWord(data[p..])
    ensures |data| - p == 3 ==> LoadWord(data, beyond, p) & 0x00FF_FFFF == HeadWord(data[p..])
    ensures |data| - p == 2 ==> LoadWord(data, beyond, p) & 0x0000_FFFF == HeadWord(data[p..])
    ensures |data| - p == 1 ==> LoadWord(data, beyond, p) & 0x0000_00FF == HeadWord(data[p..])
  {
    hide Word;
    var m := data + beyond;
    MaskThree(m[p], m[p + 1], m[p + 2], m[p + 3]);
    MaskTwo(m[p], m[p + 1], m[p + 2], m[p + 3]);
    MaskOne(m[p], m[p + 1], m[p + 2], m[p + 3]);
  }

  /** The source passes the running value as `data` and the buffer word as `crc`, and reads a whole
      word at the tail before masking it; `beyond` is whatever three bytes follow the buffer. */
  method Crc32Sw(data: seq<bv8>, beyond: seq<bv8>, seed: bv32) returns (crc: bv32)
    requires |beyond| == 3
    ensures crc == Checksum(data, seed)
  {
    hide WordStep, HeadWord, LoadWord;
    crc := seed;
    var p: nat := 0;
    var sz: nat := |data|;
    while sz >= 4
      invariant p + sz == |data|
      invariant Checksum(data[p..], crc) == Checksum(data, seed)
    {
      assert data[p..][4..] == data[p + 4..];
      LoadIsHead(data, beyond, p);
      SwapWordStep(crc, HeadWord(data[p..]));
      crc := StmCrcFast(LoadWord(data, beyond, p), crc);
      p, sz := p + 4, sz - 4;
    }
    if sz == 0 {
      return crc;
    }
    LoadIsHead(data, beyond, p);
    SwapWordStep(crc, HeadWord(data[p..]));
    if sz == 3 {
      crc := StmCrcFast(LoadWord(data, beyond, p) & 0x00FF_FFFF, crc);
    } else if sz == 2 {
      crc := StmCrcFast(LoadWord(data, beyond, p) & 0x0000_FFFF, crc);
    } else {
      crc := StmCrcFast(LoadWord(data, beyond, p) & 0x0000_00FF, crc);
    }
  }

  lemma SwapWordStep(seed: bv32, word: bv32)
    ensures WordStep(seed, word) == WordStep(word, seed)
  {
    assert seed ^ word == word ^ seed;
  }

  // ---------- one changed word always changes the checksum ----------

  function UnshiftBit(c: bv32): bv32 {
    if c & 1 != 0 then ((c ^ POLY) >> 1) | 0x8000_0000 else c >> 1
  }

  lemma TopBitSet(a: bv32)
    requires a & 0x8000_0000 != 0
    ensures ((a << 1) ^ 0x04C1_1DB7) & 1 != 0
    ensures ((((a << 1) ^ 0x04C1_1DB7) ^ 0x04C1_1DB7) >> 1) | 0x8000_0000 == a
  {
  }

  lemma TopBitClear(a: bv32)
    requires a & 0x8000_0000 == 0
    ensures (a << 1) & 1 == 0 && (a << 1) >> 1 == a
  {
  }

  lemma ShiftBitInvertible(a: bv32)
    ensures UnshiftBit(ShiftBit(a)) == a
  {
    if a & 0x8000_0000 != 0 {
      TopBitSet(a);
    } else {
      TopBitClear(a);
    }
  }

  lemma {:induction false} ShiftBitsInjective(a: bv32, b: bv32, n: nat)
    requires ShiftBits(a, n) == ShiftBits(b, n)
    ensures a == b
    decreases n
  {
    if n > 0 {
      ShiftBitsInjective(ShiftBit(a), ShiftBit(b), n - 1);
      ShiftBitInvertible(a);
      ShiftBitInvertible(b);
    }
  }

  /** The word step is a bijection of the seed for a fixed word, and of the word for a fixed seed. */
  lemma WordStepInjectiveInSeed(s1: bv32, s2: bv32, word: bv32)
    requires WordStep(s1, word) == WordStep(s2, word)
    ensures s1 == s2
  {
    hide ShiftBits;
    ShiftBitsInjective(s1 ^ word, s2 ^ word, 32);
  }

  lemma WordStepInjectiveInWord(seed: bv32, w1: bv32, w2: bv32)
    requires WordStep(seed, w1) == WordStep(seed, w2)
    ensures w1 == w2
  {
    hide ShiftBits;
    ShiftBitsInjective(seed ^ w1, seed ^ w2, 32);
  }

  lemma {:induction false} SeedInjective(data: seq<bv8>, s1: bv32, s2: bv32)
    requires Checksum(data, s1) == Checksum(data, s2)
    ensures s1 == s2
    decreases |data|
  {
    if data != [] {
      var w := HeadWord(data);
      if |data| >= 4 {
        SeedInjective(data[4..], WordStep(s1, w), WordStep(s2, w));
      }
      WordStepInjectiveInSeed(s1, s2, w);
    }
  }

  lemma WordBytes(a0: bv8, a1: bv8, a2: bv8, a3: bv8)
    ensures var w := Word(a0, a1, a2, a3);
            && (w & 0xFF) as bv8 == a0 && ((w >> 8) & 0xFF) as bv8 == a1
            && ((w >> 16) & 0xFF) as bv8 == a2 && ((w >> 24) & 0xFF) as bv8 == a3
  {
  }

  lemma WordInjective(a0: bv8, a1: bv8, a2: bv8, a3: bv8, b0: bv8, b1: bv8, b2: bv8, b3: bv8)
    requires Word(a0, a1, a2, a3) == Word(b0, b1, b2, b3)
    ensures a0 == b0 && a1 == b1 && a2 == b2 && a3 == b3
  {
    hide Word;
    WordBytes(a0, a1, a2, a3);
    WordBytes(b0, b1, b2, b3);
  }

  lemma HeadWordInjective(a: seq<bv8>, b: seq<bv8>, i: nat)
    requires |a| == |b| && i < |a| && i < 4 && a[i] != b[i]
    ensures HeadWord(a) != HeadWord(b)
  {
    hide Word;
    if HeadWord(a) == HeadWord(b) {
      WordInjective(a[0], if |a| > 1 then a[1] else 0, if |a| > 2 then a[2] else 0, if |a| > 3 then a[3] else 0,
                    b[0], if |b| > 1 then b[1] else 0, if |b| > 2 then b[2] else 0, if |b| > 3 then b[3] else 0);
    }
  }

  /** Two buffers of one length that differ, and differ only inside aligned word k (which may be
      the short tail word), never share a 32-bit checksum. */
  lemma {:induction false} OneWordErrorDetected(a: seq<bv8>, b: seq<bv8>, k: nat, seed: bv32)
    requires |a| == |b| && a != b && 4 * k < |a|
    requires forall i :: 0 <= i < |a| && !(4 * k <= i < 4 * k + 4) ==> a[i] == b[i]
    ensures Checksum(a, seed) != Checksum(b, seed)
    decreases k
  {
    if k == 0 {
      assert !(forall i :: 0 <= i < |a| ==> a[i] == b[i]);
      var i :| 0 <= i < |a| && a[i] != b[i];
      HeadWordInjective(a, b, i);
      if Checksum(a, seed) == Checksum(b, seed) {
        if |a| >= 4 {
          assert a[4..] == b[4..];
          SeedInjective(a[4..], WordStep(seed, HeadWord(a)), WordStep(seed, HeadWord(b)));
        }
        WordStepInjectiveInWord(seed, HeadWord(a), HeadWord(b));
      }
    } else {
      assert HeadWord(a) == HeadWord(b);
      assert a == a[..4] + a[4..] && b == b[..4] + b[4..];
      OneWordErrorDetected(a[4..], b[4..], k - 1, WordStep(seed, HeadWord(a)));
    }
  }

  // ---------- what the packet codecs append ----------

  const SEED: bv32 := 0xFFFF_FFFF

  function ToBits(data: seq<Byte>): seq<bv8> {
    seq(|data|, i requires 0 <= i < |data| => data[i] as bv8)
  }

  /** The checksum as a number. */
  function Number(data: seq<Byte>, seed: bv32): (n: int)
    ensures 0 <= n < 0x1_0000_0000
  {
    Checksum(ToBits(data), seed) as int
  }

  /** crc32(): the checksum of a buffer in memory. What the word behind the last whole one reads beyond the
      buffer is unknown and does not matter. */
  method ApxCrc32(data: seq<Byte>, seed: bv32) returns (crc: int)
    ensures crc == Number(data, seed)
  {
    hide Checksum;
    var b0: bv8, b1: bv8, b2: bv8 := *, *, *;
    var word := Crc32Sw(ToBits(data), [b0, b1, b2], seed);
    crc := word as int;
  }

  /** The CRC-32 of a packet cut to its low sixteen bits. */
  function PacketCrc(data: seq<Byte>): (crc: int)
    ensures 0 <= crc < 0x1_0000
  {
    Number(data, SEED) % 0x1_0000
  }

  /** What the packet codecs do: the result of crc32() in a 16-bit variable. */
  method PacketCrc16(data: seq<Byte>) returns (crc: int)
    ensures crc == PacketCrc(data)
  {
    hide Number;
    var word := ApxCrc32(data, SEED);
    crc := word % 0x1_0000;
  }

  lemma BitsOfByte(x: int)
    requires 0 <= x < 256
    ensures (x as bv8) as int == x
  {
    assert x % 256 == x;
  }

  lemma WordAsNumber(a: bv32, b: bv32)
    requires a as int == b as int
    ensures a == b
  {
    assert (a as int) as bv32 == a && (b as int) as bv32 == b;
  }

  lemma SameNumber(a: seq<Byte>, b: seq<Byte>, seed: bv32)
    requires Number(a, seed) == Number(b, seed)
    ensures Checksum(ToBits(a), seed) == Checksum(ToBits(b), seed)
  {
    hide Checksum, ToBits;
    WordAsNumber(Checksum(ToBits(a), seed), Checksum(ToBits(b), seed));
  }

  /** Two byte sequences of one length that differ inside one aligned word never have the same checksum
      bytes. */
  lemma BytesApart(a: seq<Byte>, b: seq<Byte>, k: nat, seed: bv32)
    requires |a| == |b| && a != b && 4 * k < |a|
    requires forall i :: 0 <= i < |a| && !(4 * k <= i < 4 * k + 4) ==> a[i] == b[i]
    ensures Le32(Number(a, seed)) != Le32(Number(b, seed))
  {
    hide Checksum, Le32, Number;
    BitsApart(a, b);
    OneWordErrorDetected(ToBits(a), ToBits(b), k, seed);
    Le32Value(Number(a, seed));
    Le32Value(Number(b, seed));
    if Number(a, seed) == Number(b, seed) {
      SameNumber(a, b, seed);
    }
  }

  lemma BitsApart(a: seq<Byte>, b: seq<Byte>)
    requires |a| == |b| && a != b
    ensures ToBits(a) != ToBits(b)
  {
    assert !(forall i :: 0 <= i < |a| ==> a[i] == b[i]);
    var i :| 0 <= i < |a| && a[i] != b[i];
    BitsOfByte(a[i]);
    BitsOfByte(b[i]);
    assert ToBits(a)[i] != ToBits(b)[i];
  }

  // ---------- checksums without a zero byte ----------

  function EightBits(c: bv32): bv32 {
    ShiftBit(ShiftBit(ShiftBit(ShiftBit(ShiftBit(ShiftBit(ShiftBit(ShiftBit(c))))))))
  }

  lemma EightOf(c: bv32, n: nat)
    ensures ShiftBits(c, n + 8) == ShiftBits(EightBits(c), n)
  {
    hide ShiftBit;
    var c4 := ShiftBit(ShiftBit(ShiftBit(ShiftBit(c))));
    FourBits(c, n + 4);
    FourBits(c4, n);
  }

  lemma FourBytes(c0: bv32, c1: bv32, c2: bv32, c3: bv32, c4: bv32, seed: bv32, word: bv32)
    requires c0 == seed ^ word
    requires EightBits(c0) == c1 && EightBits(c1) == c2 && EightBits(c2) == c3 && EightBits(c3) == c4
    ensures WordStep(seed, word) == c4
  {
    hide ShiftBits, EightBits;
    EightOf(c0, 24);
    EightOf(c1, 16);
    EightOf(c2, 8);
    EightOf(c3, 0);
    NoShift(c4);
  }

  lemma SumWholeWord()
    ensures WordStep(SEED, 0xB950_9BB6) == 0xFFFF_FFFF
  {
    FourBytes(0x46AF_6449, 0x8164_74C5, 0x09B9_3859, 0x9BF1_A90F, 0xFFFF_FFFF, SEED, 0xB950_9BB6);
  }

  lemma SumOneByte()
    ensures WordStep(SEED, 0x0000_0001) == 0xC3C5_C0CC
  {
    FourBytes(0xFFFF_FFFE, 0x4E08_BEB4, 0x00B6_647D, 0xB664_7D00, 0xC3C5_C0CC, SEED, 0x0000_0001);
  }

  lemma SumTwoBytes()
    ensures WordStep(SEED, 0x0000_0101) == 0x11DC_0110
  {
    FourBytes(0xFFFF_FEFE, 0x4E09_BEB4, 0x01B6_647D, 0xB2A5_60B7, 0x11DC_0110, SEED, 0x0000_0101);
  }

  lemma SumThreeBytes()
    ensures WordStep(SEED, 0x0001_0101) == 0x1004_AD97
  {
    FourBytes(0xFFFE_FEFE, 0x4F09_BEB4, 0x0577_79CA, 0x60BC_A16B, 0x1004_AD97, SEED, 0x0001_0101);
  }

  /** n bytes without a zero: a word that leaves the seed as it is, again and again, and a short tail. */
  function Worst(n: nat): (s: seq<Byte>)
    ensures |s| == n && forall i :: 0 <= i < n ==> s[i] != 0
  {
    if n >= 4 then [0xB6, 0x9B, 0x50, 0xB9] + Worst(n - 4) else seq(n, _ => 1)
  }

  /** The checksum of such bytes depends only on the length of the tail. */
  function TailSum(r: nat): bv32 {
    if r == 0 then 0xFFFF_FFFF else if r == 1 then 0xC3C5_C0CC else if r == 2 then 0x11DC_0110 else 0x1004_AD97
  }

  lemma WordFirst(bits: seq<bv8>, seed: bv32)
    requires |bits| >= 4
    ensures Checksum(bits, seed) == Checksum(bits[4..], WordStep(seed, HeadWord(bits)))
  {
    hide WordStep, HeadWord;
  }

  lemma ShortSum(n: nat)
    requires n < 4
    ensures Checksum(ToBits(Worst(n)), SEED) == TailSum(n)
  {
    hide WordStep, HeadWord, Worst;
    TailHead(n, ToBits(Worst(n)));
    SumOneByte();
    SumTwoBytes();
    SumThreeBytes();
  }

  lemma {:induction false} WorstSum(n: nat)
    ensures Checksum(ToBits(Worst(n)), SEED) == TailSum(n % 4)
    decreases n
  {
    hide WordStep, HeadWord, Checksum, TailSum, ToBits, Worst;
    if n >= 4 {
      WorstSum(n - 4);
      assert (n - 4) % 4 == n % 4;
      SumWholeWord();
      WorstHead(n, ToBits(Worst(n)));
      WordFirst(ToBits(Worst(n)), SEED);
    } else {
      assert n % 4 == n;
      ShortSum(n);
    }
  }

  lemma WorstHead(n: nat, bits: seq<bv8>)
    requires n >= 4 && bits == ToBits(Worst(n))
    ensures |bits| == n && HeadWord(bits) == 0xB950_9BB6 && bits[4..] == ToBits(Worst(n - 4))
  {
    hide WordStep, HeadWord;
    WorstWord(bits);
  }

  lemma WorstWord(bits: seq<bv8>)
    requires |bits| >= 4 && bits[0] == 0xB6 && bits[1] == 0x9B && bits[2] == 0x50 && bits[3] == 0xB9
    ensures HeadWord(bits) == 0xB950_9BB6
  {
    hide Worst;
  }

  lemma TailHead(n: nat, bits: seq<bv8>)
    requires n < 4 && bits == ToBits(Worst(n))
    ensures |bits| == n
    ensures n > 0 ==> HeadWord(bits) == if n == 1 then 0x1 else if n == 2 then 0x101 else 0x1_0101
  {
    assert forall i :: 0 <= i < n ==> bits[i] == 1;
  }

  /** Its 16-bit checksum has no zero byte either. */
  lemma WorstCrc(n: nat)
    ensures PacketCrc(Worst(n)) == if n % 4 == 0 then 0xFFFF else if n % 4 == 1 then 0xC0CC
                                   else if n % 4 == 2 then 0x0110 else 0xAD97
    ensures PacketCrc(Worst(n)) % 256 != 0 && PacketCrc(Worst(n)) / 256 != 0
  {
    hide Checksum, ToBits, Worst;
    WorstSum(n);
    LowHalves();
  }

  lemma LowHalves()
    ensures (0xFFFF_FFFF as bv32) as int % 0x1_0000 == 0xFFFF && (0xC3C5_C0CC as bv32) as int % 0x1_0000 == 0xC0CC
    ensures (0x11DC_0110 as bv32) as int % 0x1_0000 == 0x0110 && (0x1004_AD97 as bv32) as int % 0x1_0000 == 0xAD97
  {
  }
}
