/** A few packets byte for byte, as they are on the bus and on the line. */
module Samples {
  import opened Bytes
  import opened CanFormat
  import opened CanCodec
  import opened TelemetryStream
  import opened TelemetryFormat
  import Cobs
  import Crc32

  // ---------- checksums ----------

  lemma SumOfTwo()
    ensures Crc32.PacketCrc([2]) == 0xE615
  {
    hide Crc32.WordStep;
    var bits := Crc32.ToBits([2]);
    assert bits == [2];
    SumOf2();
    assert Crc32.HeadWord(bits) == 0x0000_0002;
    assert Crc32.Checksum(bits, Crc32.SEED) == 0xCE86_E615;
    assert (0xCE86_E615 as bv32) as int % 0x1_0000 == 0xE615;
  }

  lemma SumOf2()
    ensures Crc32.WordStep(Crc32.SEED, 0x0000_0002) == 0xCE86_E615
  {
    Crc32.FourBytes(0xFFFF_FFFD, 0x4E08_BDB4, 0x00B5_647D, 0xB564_7D00, 0xCE86_E615, Crc32.SEED, 0x0000_0002);
  }

  /** The packet 01 00 01 02 .. 09. */
  const ELEVEN: seq<Byte> := [1, 0, 1, 2, 3, 4, 5, 6, 7, 8, 9]

  lemma SumOfEleven()
    ensures Crc32.PacketCrc(ELEVEN) == 0xFBD3
  {
    hide Crc32.WordStep;
    var bits := Crc32.ToBits(ELEVEN);
    assert bits == [1, 0, 1, 2, 3, 4, 5, 6, 7, 8, 9];
    assert bits[4..] == [3, 4, 5, 6, 7, 8, 9] && bits[4..][4..] == [7, 8, 9];
    ElevenWords();
    assert Crc32.HeadWord(bits) == 0x0201_0001 && Crc32.HeadWord(bits[4..]) == 0x0605_0403;
    assert Crc32.HeadWord(bits[4..][4..]) == 0x0009_0807;
    assert Crc32.Checksum(bits[4..][4..], 0x562F_7066) == 0x8AB6_FBD3;
    assert Crc32.Checksum(bits[4..], 0x7E07_4492) == 0x8AB6_FBD3;
    assert Crc32.Checksum(bits, Crc32.SEED) == 0x8AB6_FBD3;
    assert (0x8AB6_FBD3 as bv32) as int % 0x1_0000 == 0xFBD3;
  }

  lemma ElevenWords()
    ensures Crc32.WordStep(Crc32.SEED, 0x0201_0001) == 0x7E07_4492
    ensures Crc32.WordStep(0x7E07_4492, 0x0605_0403) == 0x562F_7066
    ensures Crc32.WordStep(0x562F_7066, 0x0009_0807) == 0x8AB6_FBD3
  {
    Crc32.FourBytes(0xFDFE_FFFE, 0x468A_85DA, 0xA485_E7C5, 0x67CC_E5D2, 0x7E07_4492, Crc32.SEED, 0x0201_0001);
    Crc32.FourBytes(0x7802_4091, 0xC4FC_615F, 0xB2EF_B945, 0x5B05_F310, 0x562F_7066, 0x7E07_4492, 0x0605_0403);
    Crc32.FourBytes(0x5626_7861, 0x4469_87B5, 0x4E05_B3AB, 0x0DBB_7B7D, 0x8AB6_FBD3, 0x562F_7066, 0x0009_0807);
  }

  // ---------- CAN ----------

  /** It is sent as a start frame and an end frame of three bytes, the last two of them its checksum. */
  lemma ElevenBytes(net: Net, src: Src, frames: seq<Frame>)
    requires IsTransfer(net, src, ELEVEN, frames)
    ensures |frames| == 2
    ensures var key := Key(net, src, 1);
            && frames[0] == Frame(ExtId(key, FRM_START), 8, [1, 2, 3, 4, 5, 6, 7, 8])
            && frames[1].id == ExtId(key, FRM_END) && frames[1].dlc == 3 && frames[1].data[..3] == [9, 0xD3, 0xFB]
  {
    hide Crc32.PacketCrc;
    SumOfEleven();
    assert Body(ELEVEN) == [1, 2, 3, 4, 5, 6, 7, 8, 9, 0xD3, 0xFB];
    assert IsPart(net, src, ELEVEN, frames[0], 0) && IsPart(net, src, ELEVEN, frames[1], 1);
    assert frames[0].data == frames[0].data[..8] == Body(ELEVEN)[..8];
  }

  /** With one byte of the checksum changed it is not accepted. */
  lemma ElevenRejected(hi: Byte)
    ensures ChecksumOk(ELEVEN + [0xD3, hi]) <==> hi == 0xFB
  {
    hide Crc32.PacketCrc;
    SumOfEleven();
    var out := ELEVEN + [0xD3, hi];
    assert out[..|out| - 2] == ELEVEN;
  }

  // ---------- COBS ----------

  lemma OneByteOnTheLine()
    ensures Cobs.Encoded([1]) == [4, 1, 0xCC, 0xC0, 0]
  {
    hide Crc32.PacketCrc;
    Crc32.WorstCrc(1);
    assert Crc32.Worst(1) == [1];
    assert Cobs.Checked([1]) == [1, 0xCC, 0xC0];
    StuffedThree(1, 0xCC, 0xC0);
  }

  lemma StuffedThree(x: Byte, y: Byte, z: Byte)
    requires x != 0 && y != 0 && z != 0
    ensures Cobs.Stuff([], [x, y, z]) == [4, x, y, z]
  {
    var s: seq<Byte> := [x, y, z];
    var e: seq<Byte> := [];
    assert s[1..] == [y, z] && s[1..][1..] == [z] && s[1..][1..][1..] == e;
    assert e + [x] == [x] && [x] + [y] == [x, y] && [x, y] + [z] == s;
    assert Cobs.Stuff(e, s) == Cobs.Stuff([x], s[1..]);
    assert Cobs.Stuff([x], s[1..]) == Cobs.Stuff([x, y], s[1..][1..]);
    assert Cobs.Stuff([x, y], s[1..][1..]) == Cobs.Stuff(s, e);
  }

  /** With the payload changed the checksum is found wrong. */
  lemma ChangedOnTheLine(p: nat)
    requires p > 0
    ensures Cobs.Run(Cobs.RESTART, [4, 2, 0xCC, 0xC0, 0], p) == (Cobs.RESTART, [Cobs.Failed(Cobs.ErrorCRC)])
  {
    hide Crc32.PacketCrc, Cobs.Run, Cobs.Finish;
    var block: seq<Byte> := [4, 2, 0xCC, 0xC0];
    assert block + [0] == [4, 2, 0xCC, 0xC0, 0];
    Cobs.BlockBegun(Cobs.RESTART, block, p);
    assert [] + [] + block[1..] == [2, 0xCC, 0xC0];
    var e := Cobs.Rx([2, 0xCC, 0xC0], 4, 0);
    Cobs.RunAppend(Cobs.RESTART, block, [0], p);
    Cobs.OneByte(e, 0, p);
    WrongSum(e.mem);
    assert [] + [Cobs.Failed(Cobs.ErrorCRC)] == [Cobs.Failed(Cobs.ErrorCRC)];
  }

  lemma WrongSum(mem: seq<Byte>)
    requires mem == [2, 0xCC, 0xC0]
    ensures Cobs.Finish(mem, 0) == Cobs.Failed(Cobs.ErrorCRC)
  {
    hide Crc32.PacketCrc;
    SumOfTwo();
    assert mem[..1] == [2];
  }

  // ---------- telemetry ----------

  /** Tables of one field, number 1, as a 32-bit integer or as a float: the images and their hashes. */
  lemma TwoHashes()
    ensures TableBytes([Field(1, 0, 0, 3)]) == [1, 0, 3] && Hash([1, 0, 3]) == [0x50, 0xD3, 0x2A, 0x0F]
    ensures TableBytes([Field(1, 0, 0, 4)]) == [1, 0, 4] && Hash([1, 0, 4]) == [0xC5, 0x94, 0x21, 0x0A]
  {
    hide Crc32.Number, Le32;
    HashOfThree();
    HashOfFour();
    Le32Bytes(0x0F2A_D350);
    Le32Bytes(0x0A21_94C5);
  }

  lemma HashOfThree()
    ensures Crc32.Number([1, 0, 3], HASH_SEED) == 0x0F2A_D350
  {
    hide Crc32.WordStep;
    var bits := Crc32.ToBits([1, 0, 3]);
    assert bits == [1, 0, 3];
    WordOfThree();
    assert Crc32.HeadWord(bits) == 0x0003_0001;
    assert Crc32.Checksum(bits, HASH_SEED) == 0x0F2A_D350;
  }

  lemma HashOfFour()
    ensures Crc32.Number([1, 0, 4], HASH_SEED) == 0x0A21_94C5
  {
    hide Crc32.WordStep;
    var bits := Crc32.ToBits([1, 0, 4]);
    assert bits == [1, 0, 4];
    WordOfThree();
    assert Crc32.HeadWord(bits) == 0x0004_0001;
    assert Crc32.Checksum(bits, HASH_SEED) == 0x0A21_94C5;
  }

  lemma WordOfThree()
    ensures Crc32.WordStep(2, 0x0003_0001) == 0x0F2A_D350 && Crc32.WordStep(2, 0x0004_0001) == 0x0A21_94C5
  {
    Crc32.FourBytes(0x0003_0003, 0x0300_0300, 0x0D40_26D9, 0x71EB_5FD3, 0x0F2A_D350, 2, 0x0003_0001);
    Crc32.FourBytes(0x0004_0003, 0x0400_0300, 0x1307_76DC, 0x4624_21A9, 0x0A21_94C5, 2, 0x0004_0001);
  }

  /** Where the parts of a field's identifier are: uid 5, priority 3, rare; then the format. */
  lemma FieldImage()
    ensures FieldBytes(Field(5, 3, SEQ_RARE, 9)) == [0x05, 0x98, 9]
  {
  }

  /** A byte, a word that is not transmitted, two four-bit fields and a bitfield. */
  function FiveFields(): Job {
    Job([Field(1, 0, SEQ_ALWAYS, 1), Field(2, 0, SEQ_ALWAYS, 2), Field(3, 0, SEQ_ALWAYS, FMT_U4),
         Field(4, 0, SEQ_ALWAYS, FMT_U4), Field(5, 0, SEQ_ALWAYS, FMT_BIT)], 0,
        [true, false, true, true, false], [[0x11], [0, 0], [5], [6], []])
  }

  lemma FiveFieldsValid()
    ensures FiveFields().Valid() && FiveFields().N() == 4
  {
    hide FirstBit, Due, Size;
    FourBeforeTheBit();
    FiveSizes();
  }

  lemma FiveSizes()
    ensures var job := FiveFields();
            && |job.blocks| == |job.fields|
            && (forall i :: 0 <= i < |job.fields| ==> |job.blocks[i]| == Size(job.fields[i].fmt))
            && forall i :: 0 <= i < |job.fields| ==> Due(job.fields[i], 0)
  {
  }

  lemma FourBeforeTheBit()
    ensures FirstBit(FiveFields().fields) == 4
  {
    var fs := FiveFields().fields;
    assert fs[1..] == [fs[1], fs[2], fs[3], fs[4]] && fs[1..][1..] == [fs[2], fs[3], fs[4]];
    assert fs[1..][1..][1..] == [fs[3], fs[4]] && fs[1..][1..][1..][1..] == [fs[4]];
    assert FirstBit(fs[1..][1..][1..][1..]) == 0;
    assert FirstBit(fs[1..][1..][1..]) == 1;
    assert FirstBit(fs[1..][1..]) == 2;
    assert FirstBit(fs[1..]) == 3;
  }

  /** Three slots; the code with bits 0, 2 and 3; the byte; both nibbles in one byte, the first one low; and
      the bitfield. */
  lemma FiveFieldsPacket()
    ensures FiveFields().Valid() && FiveFields().N() == 4
    ensures Stream(FiveFields(), [true]) == [3, 0x0D, 0x11, 0x65, 1]
  {
    hide FirstBit;
    FiveFieldsValid();
    FiveCounts(FiveFields());
    FiveData(FiveFields());
    var job := FiveFields();
    assert FirstTx(job, 0) == 0;
    assert Emit(job, 4) == [];
    assert Emit(job, 0) == [Code(job, 0, 7)] + Data(job, 0, 7, false) + Emit(job, After(job, 0, 7));
    var one := [true];
    assert one[1..] == [];
    assert BitByte(one) == 1 && BitTail(one) == [1] + BitTail(one[1..]);
  }

  lemma FiveCounts(job: Job)
    requires job == FiveFields() && job.Valid() && job.N() == 4
    ensures Count(job, 0) == 3 && Code(job, 0, 7) == 13 && After(job, 0, 7) == 4
  {
    hide FirstBit, Pow2;
    assert Count(job, 3) == 1 && Count(job, 2) == 2 && Count(job, 1) == 2;
    assert Code(job, 4, 3) == 0 && Code(job, 3, 4) == 1 && Code(job, 2, 5) == 3 && Code(job, 1, 6) == 6;
    assert After(job, 4, 3) == 4 && After(job, 3, 4) == 4 && After(job, 2, 5) == 4 && After(job, 1, 6) == 4;
  }

  lemma FiveData(job: Job)
    requires job == FiveFields() && job.Valid() && job.N() == 4
    ensures Data(job, 0, 7, false) == [0x11, 0x65]
  {
    hide FirstBit;
    assert Data(job, 4, 3, false) == [] && Data(job, 3, 4, true) == [];
    assert High(job, 3, 4) == 6 && Nibble(job, 2) == 5;
    assert Data(job, 2, 5, false) == [0x65];
    assert Data(job, 1, 6, false) == [0x65];
  }
}
