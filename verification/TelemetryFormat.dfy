/** The field table: its order, its bytes and its hash. */
module TelemetryFormat {
  import opened Bytes
  import opened TelemetryStream
  import Crc32

  const FMT_VERSION: Byte := 2
  const FIELD_BYTES: nat := 3

  /** The part size the encoder uses unless told otherwise. */
  const FMT_BLOCK_SIZE: Byte := 64

  // ---------- order ----------

  function Zone(f: Field): nat {
    if f.fmt == FMT_BIT then 2 else if f.fmt == FMT_U4 then 1 else 0
  }

  predicate Before(a: Field, b: Field) {
    Zone(a) < Zone(b) || (Zone(a) == Zone(b) && a.uid < b.uid)
  }

  /** Three zones, each increasing by uid, and no uid twice in the whole table. */
  ghost predicate Ordered(fields: seq<Field>) {
    && (forall i, j :: 0 <= i < j < |fields| ==> Before(fields[i], fields[j]))
    && (forall i, j :: 0 <= i < j < |fields| ==> fields[i].uid != fields[j].uid)
  }

  predicate HasUid(fields: seq<Field>, uid: Uid) {
    exists i :: 0 <= i < |fields| && fields[i].uid == uid
  }

  function Inserted(fields: seq<Field>, index: nat, f: Field): seq<Field>
    requires index <= |fields|
  {
    fields[..index] + [f] + fields[index..]
  }

  lemma InsertKeepsOrder(fields: seq<Field>, index: nat, f: Field)
    requires Ordered(fields) && index <= |fields| && !HasUid(fields, f.uid)
    requires forall j :: 0 <= j < index ==> Before(fields[j], f)
    requires index < |fields| ==> Before(f, fields[index])
    ensures Ordered(Inserted(fields, index, f))
  {
    var r := Inserted(fields, index, f);
    assert forall j :: 0 <= j < |r| ==>
             r[j] == if j < index then fields[j] else if j == index then f else fields[j - 1];
    forall i, j | 0 <= i < j < |r| ensures Before(r[i], r[j]) && r[i].uid != r[j].uid {
      if i != index && j != index {
        assert Before(fields[if i < index then i else i - 1], fields[if j < index then j else j - 1]);
      } else if i == index && j > index + 1 {
        assert Before(fields[index], fields[j - 1]);
      }
    }
  }

  /** The order is the one the value stream relies on. */
  lemma OrderedIsZoned(fields: seq<Field>)
    requires Ordered(fields)
    ensures Zoned(fields)
  {
    forall i | FirstBit(fields) <= i < |fields| ensures fields[i].fmt == FMT_BIT {
      if i > FirstBit(fields) {
        assert Before(fields[FirstBit(fields)], fields[i]);
      }
    }
    forall i, j | 0 <= i < j < FirstBit(fields) && fields[i].fmt == FMT_U4 ensures fields[j].fmt == FMT_U4 {
      assert Before(fields[i], fields[j]);
    }
  }

  predicate SameKind(a: Field, b: Field) {
    (a.fmt == FMT_BIT <==> b.fmt == FMT_BIT) && (a.fmt == FMT_U4 <==> b.fmt == FMT_U4)
  }

  /** What the order is: ordinary fields, four-bit fields, bitfields, each kind increasing by uid, all uids
      different. */
  lemma OrderedExact(fields: seq<Field>)
    ensures Ordered(fields) <==>
              && Zoned(fields)
              && (forall i, j :: 0 <= i < j < |fields| && SameKind(fields[i], fields[j]) ==>
                    fields[i].uid < fields[j].uid)
              && (forall i, j :: 0 <= i < j < |fields| ==> fields[i].uid != fields[j].uid)
  {
    if Ordered(fields) {
      OrderedIsZoned(fields);
    }
  }

  // ---------- bytes ----------

  function Pid(f: Field): (p: int)
    ensures 0 <= p < 0x1_0000
  {
    f.uid + 2048 * f.pri + 16384 * f.seq2
  }

  function FieldBytes(f: Field): (b: seq<Byte>)
    ensures |b| == FIELD_BYTES
  {
    Le16(Pid(f)) + [f.fmt]
  }

  function TableBytes(fields: seq<Field>): (b: seq<Byte>)
    ensures |b| == FIELD_BYTES * |fields|
  {
    seq(FIELD_BYTES * |fields|, k requires 0 <= k < FIELD_BYTES * |fields| =>
      FieldBytes(fields[k / FIELD_BYTES])[k % FIELD_BYTES])
  }

  function ParseField(b: seq<Byte>): Field
    requires |b| >= FIELD_BYTES
  {
    var pid := FromLe16(b[0], b[1]);
    Field(pid % 2048, pid / 2048 % 8, pid / 16384, b[2])
  }

  /** The first n fields of a byte image of the table. */
  function ParseTable(b: seq<Byte>, n: nat): (fields: seq<Field>)
    requires FIELD_BYTES * n <= |b|
    ensures |fields| == n
  {
    seq(n, i requires 0 <= i < n => ParseField(b[FIELD_BYTES * i..FIELD_BYTES * i + FIELD_BYTES]))
  }

  lemma ParseFieldBytes(f: Field)
    ensures ParseField(FieldBytes(f)) == f
  {
    assert FromLe16(Pid(f) % 256, Pid(f) / 256) == Pid(f);
  }

  lemma BytesOfField(fields: seq<Field>, i: nat)
    requires i < |fields|
    ensures TableBytes(fields)[FIELD_BYTES * i..FIELD_BYTES * i + FIELD_BYTES] == FieldBytes(fields[i])
  {
    hide Pid;
    var b := TableBytes(fields);
    assert b[3 * i] == FieldBytes(fields[i])[0] && b[3 * i + 1] == FieldBytes(fields[i])[1]
           && b[3 * i + 2] == FieldBytes(fields[i])[2];
  }

  /** The image of a table, whatever follows it, is read back as that table. */
  lemma ParseTableBytes(fields: seq<Field>, rest: seq<Byte>)
    ensures ParseTable(TableBytes(fields) + rest, |fields|) == fields
  {
    hide TableBytes, ParseField, FieldBytes;
    var b := TableBytes(fields) + rest;
    forall i | 0 <= i < |fields| ensures ParseTable(b, |fields|)[i] == fields[i] {
      assert b[FIELD_BYTES * i..FIELD_BYTES * i + FIELD_BYTES]
             == TableBytes(fields)[FIELD_BYTES * i..FIELD_BYTES * i + FIELD_BYTES];
      BytesOfField(fields, i);
      ParseFieldBytes(fields[i]);
    }
  }

  // ---------- hash ----------

  const HASH_SEED: bv32 := 2

  function Hash(bytes: seq<Byte>): (h: seq<Byte>)
    ensures |h| == 4
  {
    Le32(Crc32.Number(bytes, HASH_SEED))
  }

  /** The bytes of crc32() with the format version as its start, one shifted out after the other. */
  method GetHash(bytes: seq<Byte>) returns (h: seq<Byte>)
    ensures h == Hash(bytes)
  {
    hide Crc32.Number, Le32;
    var v := Crc32.ApxCrc32(bytes, FMT_VERSION as bv32);
    h := [v % 256, v / 0x100 % 256, v / 0x1_0000 % 256, v / 0x100_0000];
    Le32Bytes(v);
  }

  /** Two images of one length that differ inside one aligned word never have the same hash. */
  lemma HashApart(a: seq<Byte>, b: seq<Byte>, k: nat)
    requires |a| == |b| && a != b && 4 * k < |a|
    requires forall i :: 0 <= i < |a| && !(4 * k <= i < 4 * k + 4) ==> a[i] == b[i]
    ensures Hash(a) != Hash(b)
  {
    hide Crc32.Number, Le32;
    Crc32.BytesApart(a, b, k, HASH_SEED);
  }

  // ---------- the format messages ----------

  /** How many parts of this size the table has; the header has one byte for it. */
  function PartCount(n: nat, size: Byte): nat
    requires size > 0
  {
    n / size + if n % size != 0 then 1 else 0
  }

  function Min(a: int, b: int): int {
    if a < b then a else b
  }

  /** Where a part begins. */
  function Pos(part: nat, size: nat): nat {
    part * size
  }

  /** The bytes of part number `part`, empty beyond the last one. */
  function Part(bytes: seq<Byte>, part: Byte, size: Byte): seq<Byte>
    requires size > 0
  {
    if part < PartCount(|bytes|, size) % 256 then
      PartBounds(|bytes|, part, size);
      bytes[Pos(part, size)..Min(Pos(part, size) + size, |bytes|)]
    else []
  }

  lemma PartBounds(n: nat, part: Byte, size: Byte)
    requires size > 0 && part < PartCount(n, size)
    ensures Pos(part, size) < n
    ensures part + 1 < PartCount(n, size) ==> Pos(part, size) + size < n
    ensures part + 1 == PartCount(n, size) ==> n <= Pos(part, size) + size
  {
    var q, r := n / size, n % size;
    assert n == q * size + r;
    if part < q {
      assert (part + 1) * size <= q * size;
    }
  }

  lemma NoParts(n: nat, size: Byte)
    requires size > 0
    ensures (PartCount(n, size) == 0 <==> n == 0) && Pos(0, size) == 0
  {
  }

  function FormatMessage(fields: seq<Field>, part: Byte, size: Byte): seq<Byte>
    requires size > 0
  {
    var bytes := TableBytes(fields);
    [FMT_VERSION, part, PartCount(|bytes|, size) % 256, size] + Hash(bytes) + Part(bytes, part, size)
  }

  // ---------- the value packets ----------

  const TS_MS: nat := 20

  /** A value packet: the time in steps of 20 ms, the byte of the hash that its seq selects, the values. */
  function ValuePacket(ts: nat, job: Job, bits: seq<bool>): seq<Byte>
    requires job.Valid() && |bits| == |job.fields| - job.N() && ts < 0x1_0000
  {
    Le16(ts) + [Hash(TableBytes(job.fields))[job.pseq % 4]] + Stream(job, bits)
  }
}
