/** The telemetry encoder: a sorted slot table kept in place, and the stream of changed values. */
module TelemetryEncoder {
  import opened Bytes
  import opened TelemetryStream
  import opened TelemetryFormat
  import opened TelemetrySteps

  /** A packed value as it lies in memory: four bytes, low byte first. */
  type Raw = r: seq<Byte> | |r| == 4 witness [0, 0, 0, 0]

  const NO_SLOT: Byte := 0xFF

  /** The first n entries of a column with x put in at index. */
  ghost function WithEntry<T>(column: seq<T>, n: nat, index: nat, x: T): seq<T>
    requires index <= n <= |column|
  {
    column[..index] + [x] + column[index..n]
  }

  // ---------- what one packet transmits ----------

  /** The values from slot n on as flags. */
  function FlagsOf(values: seq<nat>, n: nat): (bits: seq<bool>)
    requires n <= |values|
    ensures |bits| == |values| - n && forall j :: 0 <= j < |bits| ==> bits[j] == (values[n + j] != 0)
  {
    seq(|values| - n, j requires 0 <= j < |values| - n => values[n + j] != 0)
  }

  /** One more bitfield in a tail: a new byte when the bit index is zero, then the flag. */
  lemma BitStep(done: seq<bool>, v: bool, tail: seq<Byte>, bit: nat)
    requires tail == BitTail(done) && bit == |done| % 8
    ensures var wider := if bit == 0 then tail + [0] else tail;
            && wider != [] && wider[|wider| - 1] + Pow2(bit) < 256
            && BitTail(done + [v]) ==
                 if v then wider[|wider| - 1 := wider[|wider| - 1] + Pow2(bit)] else wider
  {
    hide BitTail;
    BitTailSnoc(done, v);
    NoBits();
  }

  /** Adding 0x01010101 to a 32-bit word. */
  function Bump(r: Raw): Raw {
    var b0: nat := (r[0] as int) + 1;
    var b1: nat := r[1] + 1 + b0 / 256;
    var b2: nat := r[2] + 1 + b1 / 256;
    var b3: nat := r[3] + 1 + b2 / 256;
    [b0 % 256, b1 % 256, b2 % 256, b3 % 256]
  }

  /** The four bytes as a word, low byte first. */
  function WordOf(r: Raw): int {
    var b0: int, b1: int, b2: int, b3: int := r[0], r[1], r[2], r[3];
    b0 + 0x100 * b1 + 0x1_0000 * b2 + 0x100_0000 * b3
  }

  /** Enforcing adds to that word, and what overflows is lost. */
  lemma BumpAdds(r: Raw)
    ensures WordOf(Bump(r)) == (WordOf(r) + 0x0101_0101) % 0x1_0000_0000
  {
    var b0: nat := (r[0] as int) + 1;
    var b1: nat := r[1] + 1 + b0 / 256;
    var b2: nat := r[2] + 1 + b1 / 256;
    var b3: nat := r[3] + 1 + b2 / 256;
    Split(b0);
    Split(b1);
    Split(b2);
    Split(b3);
    Carried(WordOf(r), r[0], r[1], r[2], r[3], b0 % 256, b1 % 256, b2 % 256, b3 % 256,
            b0 / 256, b1 / 256, b2 / 256, b3 / 256);
  }

  lemma Split(v: nat)
    ensures v == v % 256 + 256 * (v / 256) && 0 <= v % 256 < 256
  {
  }

  lemma Carried(w: int, r0: int, r1: int, r2: int, r3: int, d0: int, d1: int, d2: int, d3: int,
                c0: int, c1: int, c2: int, c3: int)
    requires w == r0 + 0x100 * r1 + 0x1_0000 * r2 + 0x100_0000 * r3
    requires r0 + 1 == d0 + 256 * c0 && r1 + 1 + c0 == d1 + 256 * c1
    requires r2 + 1 + c1 == d2 + 256 * c2 && r3 + 1 + c2 == d3 + 256 * c3
    requires 0 <= d0 < 256 && 0 <= d1 < 256 && 0 <= d2 < 256 && 0 <= d3 < 256
    ensures d0 + 0x100 * d1 + 0x1_0000 * d2 + 0x100_0000 * d3 == (w + 0x0101_0101) % 0x1_0000_0000
  {
    var d := d0 + 0x100 * d1 + 0x1_0000 * d2 + 0x100_0000 * d3;
    assert w + 0x0101_0101 == d + 0x1_0000_0000 * c3;
    Wrapped(w + 0x0101_0101, d, c3);
  }

  lemma Wrapped(v: int, d: int, q: int)
    requires v == d + 0x1_0000_0000 * q && 0 <= d < 0x1_0000_0000
    ensures v % 0x1_0000_0000 == d
  {
  }

  /** A forced re-pack always sees a difference. */
  lemma BumpDiffers(r: Raw)
    ensures Bump(r) != r
  {
    assert Bump(r)[0] != r[0];
  }

  /** pack_value() fills the low bytes of a word whose other bytes are whatever the stack held. */
  function RawOf(block: seq<Byte>, stack: Raw): Raw {
    if |block| <= 4 then block + stack[|block|..] else stack
  }

  /** The slots a packet transmits: due at this pseq, marked as updated, and packed differently from
      the last time. */
  ghost function Transmitted(fields: seq<Field>, pseq: Byte, upd: seq<bool>, packed: seq<Raw>,
                             blocks: seq<seq<Byte>>, stack: seq<Raw>): (tx: seq<bool>)
    requires |upd| == |packed| == |blocks| == |stack| == |fields|
    ensures |tx| == |fields|
    ensures forall i :: 0 <= i < |fields| ==>
              (tx[i] <==> i < FirstBit(fields) && Due(fields[i], pseq) && upd[i]
                          && packed[i] != RawOf(blocks[i], stack[i]))
  {
    seq(|fields|, i requires 0 <= i < |fields| =>
      i < FirstBit(fields) && Due(fields[i], pseq) && upd[i] && packed[i] != RawOf(blocks[i], stack[i]))
  }

  /** A due slot whose turn it is to be enforced is sent, whether its value has changed or not, if and
      only if the new packed value is not the very one that enforcing has put into the memory. */
  lemma EnforcedIsSent(fields: seq<Field>, pseq: Byte, upd: seq<bool>, packed: seq<Raw>,
                       blocks: seq<seq<Byte>>, stack: seq<Raw>, k: nat)
    requires |upd| == |packed| == |blocks| == |stack| == |fields| && k < FirstBit(fields) && Due(fields[k], pseq)
    ensures Transmitted(fields, pseq, upd[k := true], packed[k := Bump(packed[k])], blocks, stack)[k]
            <==> RawOf(blocks[k], stack[k]) != Bump(packed[k])
    ensures packed[k] == RawOf(blocks[k], stack[k]) ==>
              Transmitted(fields, pseq, upd[k := true], packed[k := Bump(packed[k])], blocks, stack)[k]
  {
    BumpDiffers(packed[k]);
  }

  /** The values pack_value() gives for the slots of a table. */
  ghost predicate Packs(fields: seq<Field>, blocks: seq<seq<Byte>>, stack: seq<Raw>) {
    && |blocks| == |stack| == |fields|
    && forall i :: 0 <= i < |fields| ==> |blocks[i]| == Size(fields[i].fmt)
  }

  lemma JobValid(fields: seq<Field>, pseq: Byte, upd: seq<bool>, packed: seq<Raw>,
                 blocks: seq<seq<Byte>>, stack: seq<Raw>)
    requires |upd| == |packed| == |fields| <= SLOTS_SIZE && Ordered(fields) && Packs(fields, blocks, stack)
    ensures Job(fields, pseq, Transmitted(fields, pseq, upd, packed, blocks, stack), blocks).Valid()
  {
    OrderedIsZoned(fields);
  }

  /** The job's slots are those that the columns upd and packed select. */
  ghost predicate Chooses(job: Job, upd: seq<bool>, packed: seq<Raw>, stack: seq<Raw>) {
    var n := |job.fields|;
    && |upd| >= n && |packed| >= n && |job.blocks| == |stack| == n
    && job.tx == Transmitted(job.fields, job.pseq, upd[..n], packed[..n], job.blocks, stack)
  }

  lemma ChoosesAt(job: Job, upd: seq<bool>, packed: seq<Raw>, stack: seq<Raw>, i: nat)
    requires Chooses(job, upd, packed, stack) && i < FirstBit(job.fields)
    ensures |stack| == |job.blocks| == |job.tx| == |job.fields| && |upd| >= |job.fields| && |packed| >= |job.fields|
    ensures job.tx[i] <==> Due(job.fields[i], job.pseq) && upd[i] && packed[i] != RawOf(job.blocks[i], stack[i])
  {
  }

  /** The slot columns after the loop has passed the first i slots: due slots lose their mark, and
      transmitted ones remember what was sent. */
  ghost predicate Passed(job: Job, i: nat, upd1: seq<bool>, packed1: seq<Raw>, stack: seq<Raw>,
                         upd: seq<bool>, packed: seq<Raw>)
    requires |job.fields| == |job.tx| == |job.blocks| == |stack|
  {
    && |upd| == |upd1| >= |job.fields| && |packed| == |packed1| >= |job.fields|
    && (forall j :: 0 <= j < |upd| ==>
          upd[j] == (upd1[j] && !(j < i && j < |job.fields| && Due(job.fields[j], job.pseq))))
    && (forall j :: 0 <= j < |packed| ==>
          packed[j] == if j < i && j < |job.fields| && job.tx[j] then RawOf(job.blocks[j], stack[j]) else packed1[j])
  }

  lemma PassedStep(job: Job, i: nat, upd1: seq<bool>, packed1: seq<Raw>, stack: seq<Raw>,
                   upd: seq<bool>, packed: seq<Raw>)
    requires |job.fields| == |job.tx| == |job.blocks| == |stack|
    requires Passed(job, i, upd1, packed1, stack, upd, packed) && i < |job.fields|
    requires job.tx[i] ==> Due(job.fields[i], job.pseq)
    ensures |upd| == |upd1| && |packed| == |packed1| && upd[i] == upd1[i] && packed[i] == packed1[i]
    ensures Passed(job, i + 1, upd1, packed1, stack,
                   if Due(job.fields[i], job.pseq) then upd[i := false] else upd,
                   if job.tx[i] then packed[i := RawOf(job.blocks[i], stack[i])] else packed)
  {
  }

  // ---------- the columns as a value ----------

  /** The marks, the packed values last sent, and whose turn it is to be enforced. */
  datatype Columns = Columns(upd: seq<bool>, packed: seq<Raw>, enforced: nat) {
    predicate Wide() {
      |upd| == |packed| == SLOTS_SIZE && enforced < SLOTS_SIZE
    }

    /** As clear() and add() leave n slots: nothing marked, nothing sent. */
    predicate Blank(n: nat)
      requires Wide() && n <= SLOTS_SIZE
    {
      forall i :: 0 <= i < n ==> !upd[i] && packed[i] == [0, 0, 0, 0]
    }
  }

  /** After a slot has been enforced in a table with n slots before the bitfields. */
  function Forced(c: Columns, n: nat): (r: Columns)
    requires c.Wide() && n <= SLOTS_SIZE
    ensures r.Wide()
  {
    Columns(c.upd[c.enforced := true], c.packed[c.enforced := Bump(c.packed[c.enforced])],
            if c.enforced + 1 < n then c.enforced + 1 else 0)
  }

  ghost function JobOf(fields: seq<Field>, pseq: Byte, c: Columns, blocks: seq<seq<Byte>>, stack: seq<Raw>): Job
    requires c.Wide() && |fields| <= SLOTS_SIZE && |blocks| == |stack| == |fields|
  {
    Job(fields, pseq, Transmitted(fields, pseq, c.upd[..|fields|], c.packed[..|fields|], blocks, stack), blocks)
  }

  /** After the packet: due slots have lost their mark, transmitted ones remember what was sent. */
  ghost function Settled(job: Job, c: Columns, stack: seq<Raw>): (r: Columns)
    requires c.Wide() && |job.tx| == |job.blocks| == |stack| == |job.fields| <= SLOTS_SIZE
    ensures r.Wide() && r.enforced == c.enforced
    ensures forall j :: 0 <= j < SLOTS_SIZE ==>
              r.upd[j] == (c.upd[j] && !(j < job.N() && Due(job.fields[j], job.pseq)))
    ensures forall j :: 0 <= j < SLOTS_SIZE ==>
              r.packed[j] == if j < job.N() && job.tx[j] then RawOf(job.blocks[j], stack[j]) else c.packed[j]
  {
    Columns(seq(SLOTS_SIZE, j requires 0 <= j < SLOTS_SIZE =>
              c.upd[j] && !(j < job.N() && Due(job.fields[j], job.pseq))),
            seq(SLOTS_SIZE, j requires 0 <= j < SLOTS_SIZE =>
              if j < job.N() && job.tx[j] then RawOf(job.blocks[j], stack[j]) else c.packed[j]),
            c.enforced)
  }

  lemma PassedIsSettled(job: Job, c: Columns, stack: seq<Raw>, upd: seq<bool>, packed: seq<Raw>)
    requires c.Wide() && |job.tx| == |job.blocks| == |stack| == |job.fields| <= SLOTS_SIZE
    requires Passed(job, job.N(), c.upd, c.packed, stack, upd, packed)
    ensures Columns(upd, packed, c.enforced) == Settled(job, c, stack)
  {
  }

  class Encoder {
    const fields: array<Field>
    const upd: array<bool>
    const value: array<nat>
    const packed: array<Raw>
    var slotsCnt: nat
    /** The slots before the bitfields. */
    var slotsUpdCnt: nat
    var enforcedUpd: nat
    var insertedIndex: int
    var hash: seq<Byte>
    const xpdrUids: seq<Uid>
    const xpdrIdx: array<Byte>

    ghost predicate Sized()
      reads this
    {
      && fields.Length == upd.Length == value.Length == packed.Length == SLOTS_SIZE
      && xpdrIdx.Length == |xpdrUids| && slotsCnt <= SLOTS_SIZE
    }

    ghost function Table(): seq<Field>
      reads this, fields
      requires Sized()
    {
      fields[..slotsCnt]
    }

    ghost function Cols(): (c: Columns)
      reads this, upd, packed
      requires Sized() && enforcedUpd < SLOTS_SIZE
      ensures c.Wide()
    {
      Columns(upd[..], packed[..], enforcedUpd)
    }

    /** xpdrIdx[i] is where the table holds uid number i, or NO_SLOT. */
    ghost predicate XpdrResolved()
      reads this, fields, xpdrIdx
      requires Sized()
    {
      forall i :: 0 <= i < |xpdrUids| ==>
        if HasUid(Table(), xpdrUids[i]) then
          xpdrIdx[i] as int < slotsCnt && fields[xpdrIdx[i]].uid == xpdrUids[i]
        else xpdrIdx[i] == NO_SLOT
    }

    ghost predicate Valid()
      reads this, fields, xpdrIdx
    {
      && Sized() && Ordered(Table()) && slotsUpdCnt == FirstBit(Table()) && enforcedUpd < SLOTS_SIZE
      && XpdrResolved() && hash == Hash(TableBytes(Table()))
    }

    constructor (uids: seq<Uid>)
      ensures Valid() && Table() == [] && xpdrUids == uids && Cols().Blank(0) && enforcedUpd == 0
    {
      fields := new Field[SLOTS_SIZE];
      upd := new bool[SLOTS_SIZE];
      value := new nat[SLOTS_SIZE];
      packed := new Raw[SLOTS_SIZE];
      xpdrUids := uids;
      xpdrIdx := new Byte[|uids|];
      slotsCnt, slotsUpdCnt, enforcedUpd := 0, 0, 0;
      insertedIndex := -1;
      hash := [0, 0, 0, 0];
      new;
      Clear();
    }

    method UpdateFeeds()
      requires Sized()
      modifies this`hash
      ensures hash == Hash(TableBytes(Table()))
    {
      hash := GetHash(TableBytes(fields[..slotsCnt]));
    }

    method Clear()
      requires Sized() && enforcedUpd < SLOTS_SIZE
      modifies this, fields, upd, value, packed, xpdrIdx
      ensures Valid() && Table() == [] && enforcedUpd == old(enforcedUpd)
      ensures forall i :: 0 <= i < SLOTS_SIZE ==> !upd[i] && value[i] == 0 && packed[i] == [0, 0, 0, 0]
    {
      slotsCnt, slotsUpdCnt := 0, 0;
      for i := 0 to SLOTS_SIZE
        modifies fields, upd, value, packed
        invariant forall j :: 0 <= j < i ==> !upd[j] && value[j] == 0 && packed[j] == [0, 0, 0, 0]
      {
        fields[i] := Field(0, 0, 0, 0);
        upd[i] := false;
        value[i] := 0;
        packed[i] := [0, 0, 0, 0];
      }
      UpdateFeeds();
      for i := 0 to xpdrIdx.Length
        modifies xpdrIdx
        invariant forall j :: 0 <= j < i ==> xpdrIdx[j] == NO_SLOT
      {
        xpdrIdx[i] := NO_SLOT;
      }
    }

    method SlotLookup(uid: Uid) returns (idx: int)
      requires Sized()
      ensures idx == -1 || 0 <= idx < slotsCnt
      ensures idx >= 0 ==> fields[idx].uid == uid
      ensures idx == -1 <==> !HasUid(Table(), uid)
    {
      for i := 0 to slotsCnt
        invariant forall j :: 0 <= j < i ==> fields[j].uid != uid
      {
        if fields[i].uid == uid {
          assert Table()[i].uid == uid;
          return i;
        }
      }
      return -1;
    }

    /** Where the field belongs: behind everything that comes before it. */
    method SortedIndex(f: Field) returns (index: nat)
      requires Sized() && Ordered(Table()) && !HasUid(Table(), f.uid)
      ensures index <= slotsCnt
      ensures forall j :: 0 <= j < index ==> Before(Table()[j], f)
      ensures index < slotsCnt ==> Before(f, Table()[index])
    {
      ghost var t := Table();
      index := 0;
      if f.fmt == FMT_BIT {
        while index < slotsCnt
          invariant index <= slotsCnt
          invariant forall j :: 0 <= j < index ==> Before(t[j], f) && t[j].fmt != FMT_BIT
        {
          if fields[index].fmt == FMT_BIT {
            break;
          }
          index := index + 1;
        }
        while index < slotsCnt
          invariant index <= slotsCnt
          invariant index < slotsCnt ==> t[index].fmt == FMT_BIT
          invariant forall j :: 0 <= j < index ==> Before(t[j], f)
        {
          assert t[index].uid != f.uid;
          if fields[index].uid > f.uid {
            break;
          }
          assert index + 1 < slotsCnt ==> Before(t[index], t[index + 1]);
          index := index + 1;
        }
      } else if f.fmt == FMT_U4 {
        while index < slotsCnt
          invariant index <= slotsCnt
          invariant forall j :: 0 <= j < index ==> Before(t[j], f)
        {
          if fields[index].fmt == FMT_BIT {
            break;
          }
          if fields[index].fmt == FMT_U4 {
            break;
          }
          index := index + 1;
        }
        while index < slotsCnt
          invariant index <= slotsCnt
          invariant index < slotsCnt ==> Zone(t[index]) >= 1
          invariant forall j :: 0 <= j < index ==> Before(t[j], f)
        {
          assert t[index].uid != f.uid;
          if fields[index].fmt == FMT_BIT {
            break;
          }
          if fields[index].uid > f.uid {
            break;
          }
          assert index + 1 < slotsCnt ==> Before(t[index], t[index + 1]);
          index := index + 1;
        }
      } else {
        while index < slotsCnt
          invariant index <= slotsCnt
          invariant forall j :: 0 <= j < index ==> Before(t[j], f)
        {
          assert t[index].uid != f.uid;
          if fields[index].fmt == FMT_BIT {
            break;
          }
          if fields[index].fmt == FMT_U4 {
            break;
          }
          if fields[index].uid > f.uid {
            break;
          }
          index := index + 1;
        }
      }
    }

    /** One column of the slot table makes room at index for a new entry. */
    method ShiftIn<T>(a: array<T>, index: nat, x: T)
      requires Sized() && index <= slotsCnt < a.Length
      modifies a
      ensures a[..slotsCnt + 1] == WithEntry(old(a[..]), slotsCnt, index, x)
    {
      hide WithEntry;
      ghost var was := a[..];
      var dest := slotsCnt;
      while dest > index
        invariant index <= dest <= slotsCnt
        invariant forall j :: 0 <= j < dest ==> a[j] == was[j]
        invariant forall j :: dest < j <= slotsCnt ==> a[j] == was[j - 1]
      {
        a[dest] := a[dest - 1];
        dest := dest - 1;
      }
      a[index] := x;
      ShiftedUp(was, a[..], slotsCnt, index, x);
    }

    static lemma ShiftedUp<T>(was: seq<T>, column: seq<T>, n: nat, index: nat, x: T)
      requires |column| == |was| > n >= index && column[index] == x
      requires forall j :: 0 <= j < index ==> column[j] == was[j]
      requires forall j :: index < j <= n ==> column[j] == was[j - 1]
      ensures column[..n + 1] == WithEntry(was, n, index, x)
    {
      assert column[..n + 1] == column[..index] + [x] + column[index + 1..n + 1];
    }

    static lemma InsertedEntry(column: seq<Field>, n: nat, index: nat, f: Field)
      requires index <= n <= |column|
      ensures WithEntry(column, n, index, f) == Inserted(column[..n], index, f)
    {
    }

    method Insert(index: nat, f: Field)
      requires Sized() && index <= slotsCnt < SLOTS_SIZE
      modifies this`slotsCnt, this`hash, fields, upd, value, packed
      ensures Sized() && slotsCnt == old(slotsCnt) + 1
      ensures Table() == Inserted(old(Table()), index, f)
      ensures upd[..slotsCnt] == WithEntry(old(upd[..]), old(slotsCnt), index, false)
      ensures value[..slotsCnt] == WithEntry(old(value[..]), old(slotsCnt), index, 0)
      ensures packed[..slotsCnt] == WithEntry(old(packed[..]), old(slotsCnt), index, [0, 0, 0, 0])
      ensures hash == Hash(TableBytes(Table()))
    {
      InsertedEntry(fields[..], slotsCnt, index, f);
      hide WithEntry;
      ShiftIn(fields, index, f);
      ShiftIn(upd, index, false);
      ShiftIn(value, index, 0);
      ShiftIn<Raw>(packed, index, [0, 0, 0, 0]);
      slotsCnt := slotsCnt + 1;
      UpdateFeeds();
    }

    method CountUpdSlots()
      requires Sized()
      modifies this`slotsUpdCnt
      ensures slotsUpdCnt == FirstBit(Table())
    {
      slotsUpdCnt := 0;
      while slotsUpdCnt < slotsCnt
        invariant slotsUpdCnt <= slotsCnt
        invariant forall j :: 0 <= j < slotsUpdCnt ==> fields[j].fmt != FMT_BIT
      {
        if fields[slotsUpdCnt].fmt == FMT_BIT {
          break;
        }
        slotsUpdCnt := slotsUpdCnt + 1;
      }
    }

    method ResyncXpdr()
      requires Sized()
      modifies xpdrIdx
      requires forall i :: 0 <= i < |xpdrUids| ==> HasUid(Table(), xpdrUids[i]) || xpdrIdx[i] == NO_SLOT
      ensures XpdrResolved()
    {
      for i := 0 to xpdrIdx.Length
        invariant forall k :: 0 <= k < i ==>
                    if HasUid(Table(), xpdrUids[k]) then
                      xpdrIdx[k] as int < slotsCnt && fields[xpdrIdx[k]].uid == xpdrUids[k]
                    else xpdrIdx[k] == NO_SLOT
        invariant forall k :: i <= k < |xpdrUids| ==> xpdrIdx[k] == old(xpdrIdx[k])
      {
        var j := SlotLookup(xpdrUids[i]);
        if j >= 0 {
          xpdrIdx[i] := j;
        }
      }
    }

    /** A full table refuses; a uid it already holds is accepted and changes nothing; otherwise the
        field goes to its place and every later slot moves up with all its state. */
    method Add(f: Field) returns (ok: bool)
      requires Valid()
      modifies this, fields, upd, value, packed, xpdrIdx
      ensures Valid() && enforcedUpd == old(enforcedUpd)
      ensures ok <==> old(slotsCnt) < SLOTS_SIZE
      ensures old(Cols().Blank(slotsCnt)) ==> Cols().Blank(slotsCnt)
      ensures insertedIndex >= 0 <==> ok && !HasUid(old(Table()), f.uid)
      ensures insertedIndex < 0 ==>
                && insertedIndex == -1 && Table() == old(Table())
                && upd[..] == old(upd[..]) && value[..] == old(value[..]) && packed[..] == old(packed[..])
      ensures insertedIndex >= 0 ==>
                && insertedIndex <= old(slotsCnt) < slotsCnt
                && Table() == Inserted(old(Table()), insertedIndex, f)
                && upd[..slotsCnt] == WithEntry(old(upd[..]), old(slotsCnt), insertedIndex, false)
                && value[..slotsCnt] == WithEntry(old(value[..]), old(slotsCnt), insertedIndex, 0)
                && packed[..slotsCnt] == WithEntry(old(packed[..]), old(slotsCnt), insertedIndex, [0, 0, 0, 0])
    {
      hide WithEntry, Inserted, Ordered, Hash, TableBytes, FirstBit;
      insertedIndex := -1;
      if slotsCnt >= SLOTS_SIZE {
        return false;
      }
      var dup := SlotLookup(f.uid);
      if dup >= 0 {
        return true;
      }
      var index := SortedIndex(f);
      ghost var table := Table();
      InsertKeepsOrder(table, index, f);
      Insert(index, f);
      insertedIndex := index;
      BlankGrows(old(Cols()), Cols(), old(slotsCnt), index);
      CountUpdSlots();
      UidsKept(table, index, f);
      ResyncXpdr();
      ok := true;
    }

    static lemma BlankGrows(c: Columns, r: Columns, n: nat, index: nat)
      requires c.Wide() && r.Wide() && index <= n < SLOTS_SIZE
      requires r.upd[..n + 1] == WithEntry(c.upd, n, index, false)
      requires r.packed[..n + 1] == WithEntry(c.packed, n, index, [0, 0, 0, 0])
      ensures c.Blank(n) ==> r.Blank(n + 1)
    {
      forall i | c.Blank(n) && 0 <= i < n + 1 ensures !r.upd[i] && r.packed[i] == [0, 0, 0, 0] {
        assert r.upd[..n + 1][i] == r.upd[i] && r.packed[..n + 1][i] == r.packed[i];
      }
    }

    lemma UidsKept(table: seq<Field>, index: nat, f: Field)
      requires index <= |table|
      ensures forall uid :: HasUid(table, uid) ==> HasUid(Inserted(table, index, f), uid)
    {
      forall uid | HasUid(table, uid) ensures HasUid(Inserted(table, index, f), uid) {
        var i :| 0 <= i < |table| && table[i].uid == uid;
        assert Inserted(table, index, f)[if i < index then i else i + 1].uid == uid;
      }
    }

    // ---------- the value stream ----------

    /** The distance loop of encode_values(). */
    static method WriteOffset(out0: seq<Byte>, distance: nat) returns (out: seq<Byte>)
      requires 0 < distance
      ensures out == out0 + Offset(distance)
    {
      out := out0;
      var dindex: nat := distance;
      var offset: nat := dindex;
      while dindex > 0 || offset == 0x7F
        invariant out0 + Offset(distance) ==
                    if dindex > 0 || offset == 0x7F then out + Offset(dindex) else out
        decreases dindex, offset == 0x7F
      {
        offset := dindex;
        if offset > 0x7F {
          offset := 0x7F;
        }
        out := out + [offset + 0x80];
        dindex := dindex - offset;
      }
    }

    /** Emits one changed slot: sets its presence bit or, behind two or more zero codes, replaces them
        by the distance, then writes its data. */
    static method SendSlot(st: State, fmt: Byte, raw: Raw, sz: nat, ghost job: Job, ghost total: seq<int>)
      returns (next: State)
      requires job.Valid() && Selected(job, st, total) && job.tx[st.i]
      requires fmt == job.fields[st.i].fmt && sz == Size(fmt) && raw[..sz] == job.blocks[st.i]
      ensures Promises(job, next, total) && next.i == st.i + 1 && next.zero == 0
    {
      hide Promises, Provisional, Emit, Data, Code, High, After, FirstBit, Zoned, Patched, Offset, Open, Marked, Nibble;
      var out: seq<Byte>;
      var bit, half := st.bit, st.half;
      if st.zero >= 2 {
        SelectedBounds(job, st, total);
        out := WriteOffset(st.out[..|st.out| - st.zero], st.i - st.codeIndex);
        Jump(job, st, out, total);
        bit := 6;
      } else {
        MarkReady(job, st, total);
        out := st.out[st.codePos := st.out[st.codePos] + Pow2(bit)];
        IsMarked(st, out);
        NibbleRoom(job, st.(zero := 0), total, out);
      }
      next := st.(bit := bit, zero := 0, i := st.i + 1);
      if fmt == FMT_U4 {
        var v := raw[0] % 16;
        NibbleOf(job, st.i, raw);
        if !half {
          next := next.(nibPos := |out|, half := true, out := out + [v]);
          if st.zero < 2 {
            MarkNibble(job, st.(zero := 0), out, total);
          }
        } else {
          next := next.(half := false, out := out[st.nibPos := out[st.nibPos] + v * 16]);
          MarkShared(job, st.(zero := 0), out, next.out, total);
        }
      } else {
        next := next.(half := false, out := out + raw[..sz]);
        if st.zero < 2 {
          MarkBlock(job, st.(zero := 0), out, total);
        }
      }
    }

    static lemma IsMarked(st: State, out: seq<Byte>)
      requires st.codePos < |st.out| && st.out[st.codePos] + Pow2(st.bit) < 256
      requires out == st.out[st.codePos := st.out[st.codePos] + Pow2(st.bit)]
      ensures out == Marked(st.(zero := 0))
    {
    }

    static lemma NibbleOf(job: Job, i: nat, raw: Raw)
      requires job.Valid() && i < |job.fields| && job.fields[i].fmt == FMT_U4 && raw[..1] == job.blocks[i]
      ensures raw[0] % 16 == Nibble(job, i)
    {
      assert raw[..1][0] == raw[0];
    }

    /** Forces one slot to be packed and compared again, and moves on to the next before the bitfields. */
    method EnforceOne()
      requires Valid()
      modifies this`enforcedUpd, upd, packed
      ensures Valid()
      ensures upd[..] == old(upd[..])[old(enforcedUpd) := true]
      ensures packed[..] == old(packed[..])[old(enforcedUpd) := Bump(old(packed[enforcedUpd]))]
      ensures enforcedUpd == if old(enforcedUpd) + 1 < slotsUpdCnt then old(enforcedUpd) + 1 else 0
    {
      upd[enforcedUpd] := true;
      packed[enforcedUpd] := Bump(packed[enforcedUpd]);
      enforcedUpd := enforcedUpd + 1;
      if enforcedUpd >= slotsCnt {
        enforcedUpd := 0;
      } else if enforcedUpd >= slotsUpdCnt {
        enforcedUpd := 0;
      }
    }

    method IsDue(f: Field, pseq: Byte) returns (due: bool)
      ensures due <==> Due(f, pseq)
    {
      if f.seq2 == SEQ_SKIP {
        return pseq % 2 == 0;
      } else if f.seq2 == SEQ_RARE {
        return pseq % 4 == 0;
      }
      return true;
    }

    /** Clears the mark of a slot and compares its packed value with the last one sent. */
    method Compare(i: nat, block: seq<Byte>, stack: Raw) returns (changed: bool, raw: Raw)
      requires i < upd.Length && i < packed.Length
      modifies upd, packed
      ensures raw == RawOf(block, stack)
      ensures changed <==> old(upd[i]) && old(packed[i]) != raw
      ensures upd[..] == old(upd[..])[i := false]
      ensures packed[..] == if changed then old(packed[..])[i := raw] else old(packed[..])
    {
      raw := RawOf(block, stack);
      changed := false;
      if upd[i] {
        upd[i] := false;
        if packed[i] != raw {
          packed[i] := raw;
          changed := true;
        }
      }
    }

    /** One due slot: opens a presence code or selects the next bit, and sends the slot if it changed. */
    method PackOne(st0: State, fmt: Byte, block: seq<Byte>, stack: Raw, ghost job: Job, ghost total: seq<int>)
      returns (st: State, changed: bool)
      requires Sized() && job.Valid() && Promises(job, st0, total)
      requires st0.i < job.N() && job.Coded(st0.i) && fmt == job.fields[st0.i].fmt && block == job.blocks[st0.i]
      requires job.tx[st0.i] <==> upd[st0.i] && packed[st0.i] != RawOf(block, stack)
      modifies upd, packed
      ensures Promises(job, st, total) && st.i == st0.i + 1 && st.bit <= 6 && st.zero <= |st.out|
      ensures changed == job.tx[st0.i]
      ensures if changed then st.zero == 0 else |st.out| - st.zero == |st0.out| - st0.zero
      ensures upd[..] == old(upd[..])[st0.i := false]
      ensures packed[..] == if changed then old(packed[..])[st0.i := RawOf(block, stack)] else old(packed[..])
    {
      PromisedBounds(job, st0, total);
      hide Promises, Selected, Zoned;
      st := st0;
      if st.bit == 6 {
        StepOpen(job, st, total);
        var codeIndex := if st.zero == 0 then st.i else st.codeIndex;
        st := st.(zero := st.zero + 1, codeIndex := codeIndex, bit := 0, codePos := |st.out|,
                  out := st.out + [0], half := false);
      } else {
        StepSelect(job, st, total);
        st := st.(bit := st.bit + 1);
      }
      var raw;
      changed, raw := Compare(st.i, block, stack);
      if changed {
        st := SendSlot(st, fmt, raw, |block|, job, total);
      } else {
        StepSilent(job, st, total);
        st := st.(i := st.i + 1);
      }
      PromisedBounds(job, st, total);
    }

    lemma PromisedBounds(job: Job, st: State, total: seq<int>)
      requires job.Valid() && Promises(job, st, total)
      ensures st.bit <= 6 && st.i <= job.N() && st.zero <= |st.out|
    {
    }

    /** The body of the loop over the slots before the bitfields. */
    method VisitSlot(st0: State, pseq: Byte, block: seq<Byte>, stackI: Raw, ghost job: Job, ghost total: seq<int>,
                     ghost upd1: seq<bool>, ghost packed1: seq<Raw>, ghost stack: seq<Raw>)
      returns (st: State, changed: bool)
      requires Sized() && job.Valid() && Promises(job, st0, total) && st0.i < job.N() && job.fields == Table()
      requires job.pseq == pseq && |stack| == |job.fields| && block == job.blocks[st0.i] && stackI == stack[st0.i]
      requires Chooses(job, upd1, packed1, stack) && Passed(job, st0.i, upd1, packed1, stack, upd[..], packed[..])
      modifies upd, packed
      ensures Promises(job, st, total) && st.i == st0.i + 1
      ensures changed == job.tx[st0.i]
      ensures st.zero <= |st.out|
      ensures if changed then st.zero == 0 else |st.out| - st.zero == |st0.out| - st0.zero
      ensures Passed(job, st.i, upd1, packed1, stack, upd[..], packed[..])
    {
      hide Promises, FirstBit, Zoned, Passed, Chooses, Due, Transmitted, RawOf;
      var i, f := st0.i, fields[st0.i];
      ChoosesAt(job, upd1, packed1, stack, i);
      PassedStep(job, i, upd1, packed1, stack, upd[..], packed[..]);
      PromisedBounds(job, st0, total);
      var due := IsDue(f, pseq);
      if !due {
        StepUncoded(job, st0, total);
        return st0.(i := i + 1), false;
      }
      st, changed := PackOne(st0, f.fmt, block, stackI, job, total);
    }

    /** The loop over the slots before the bitfields. */
    method PackSlots(pseq: Byte, blocks: seq<seq<Byte>>, stack: seq<Raw>, ghost job: Job)
      returns (body: seq<Byte>, cnt: Byte)
      requires Sized() && job.Valid() && job.fields == Table() && job.pseq == pseq && job.blocks == blocks
      requires |job.tx| == |blocks| == |stack| == slotsCnt && Chooses(job, upd[..], packed[..], stack)
      modifies upd, packed
      ensures Passed(job, job.N(), old(upd[..]), old(packed[..]), stack, upd[..], packed[..])
      ensures cnt == Count(job, 0) && body == Emit(job, 0)
    {
      hide Promises, Emit, Count, FirstBit, Zoned, Passed, Chooses, Due, Transmitted;
      ghost var total: seq<int> := Emit(job, 0);
      ghost var upd1, packed1 := upd[..], packed[..];
      NonePassed(job, upd1, packed1, stack);
      var st := State([], 0, 6, 0, 0, 0, false, 0);
      Begin(job);
      CountBound(job, 0);
      var sent: nat := 0;
      var posData: nat := 0;
      while st.i < slotsCnt && fields[st.i].fmt != FMT_BIT
        invariant st.i <= job.N() && Promises(job, st, total)
        invariant st.zero <= |st.out| && posData == |st.out| - st.zero
        invariant sent + Count(job, st.i) == Count(job, 0)
        invariant Passed(job, st.i, upd1, packed1, stack, upd[..], packed[..])
        decreases slotsCnt - st.i
      {
        InsideZone(job, st.i);
        CountStep(job, st.i);
        var changed;
        st, changed := VisitSlot(st, pseq, blocks[st.i], stack[st.i], job, total, upd1, packed1, stack);
        if changed {
          posData := |st.out|;
          sent := sent + 1;
        }
      }
      EndOfZone(job, st.i);
      Finished(job, st, total);
      NoneAtEnd(job);
      body := st.out[..posData];
      cnt := sent;
    }

    lemma NonePassed(job: Job, upd1: seq<bool>, packed1: seq<Raw>, stack: seq<Raw>)
      requires |job.fields| == |job.tx| == |job.blocks| == |stack|
      requires Chooses(job, upd1, packed1, stack)
      ensures Passed(job, 0, upd1, packed1, stack, upd1, packed1)
    {
    }

    lemma InsideZone(job: Job, i: nat)
      requires job.Valid() && i <= job.N() && i < |job.fields| && job.fields[i].fmt != FMT_BIT
      ensures i < job.N()
    {
    }

    lemma EndOfZone(job: Job, i: nat)
      requires job.Valid() && i <= job.N() && (i == |job.fields| || job.fields[i].fmt == FMT_BIT)
      ensures i == job.N()
    {
    }

    lemma CountStep(job: Job, i: nat)
      requires job.Valid() && i < job.N()
      ensures Count(job, i) == (if job.tx[i] then 1 else 0) + Count(job, i + 1)
    {
    }

    lemma NoneAtEnd(job: Job)
      requires job.Valid()
      ensures Count(job, job.N()) == 0
    {
    }

    /** The bitfields of the table, one flag each. */
    ghost function Bits(): (bits: seq<bool>)
      reads this, fields, value
      requires Sized()
      ensures |bits| == slotsCnt - FirstBit(Table())
    {
      FlagsOf(value[..slotsCnt], FirstBit(Table()))
    }

    method PackBits(first: nat) returns (tail: seq<Byte>)
      requires Sized() && first == FirstBit(Table())
      ensures tail == BitTail(Bits())
    {
      hide BitTail, Pow2, FirstBit;
      tail := [];
      NoBits();
      var bit := 7;
      ghost var done: seq<bool> := [];
      for index := first to slotsCnt
        invariant |done| == index - first
        invariant forall j :: 0 <= j < |done| ==> done[j] == (value[first + j] != 0)
        invariant tail == BitTail(done)
        invariant bit == if index == first then 7 else (index - first - 1) % 8
      {
        if bit == 7 {
          bit := 0;
        } else {
          bit := bit + 1;
        }
        tail := AddBit(tail, bit, value[index] != 0, done);
        done := done + [value[index] != 0];
      }
      assert done == Bits();
    }

    static method AddBit(tail0: seq<Byte>, bit: nat, v: bool, ghost done: seq<bool>) returns (tail: seq<Byte>)
      requires tail0 == BitTail(done) && bit == |done| % 8
      ensures tail == BitTail(done + [v])
    {
      hide BitTail, Pow2;
      BitStep(done, v, tail0, bit);
      tail := if bit == 0 then tail0 + [0] else tail0;
      if v {
        tail := tail[|tail| - 1 := tail[|tail| - 1] + Pow2(bit)];
      }
    }

    /** One value packet. blocks are the packed values of all slots, stack the bytes that pack_value()
        leaves untouched. The count byte, which the source keeps incrementing in the buffer, is put in
        front at the end. */
    method EncodeValues(pseq: Byte, blocks: seq<seq<Byte>>, stack: seq<Raw>)
      returns (out: seq<Byte>, ghost job: Job)
      requires Valid() && Packs(Table(), blocks, stack)
      modifies this`enforcedUpd, upd, packed
      ensures Valid() && Table() == old(Table()) && Bits() == old(Bits())
      ensures job.Valid() && job.fields == Table() && job.pseq == pseq && job.blocks == blocks
      ensures out == Stream(job, Bits())
      ensures var c1 := Forced(old(Cols()), FirstBit(Table()));
              job == JobOf(Table(), pseq, c1, blocks, stack) && Cols() == Settled(job, c1, stack)
    {
      hide Passed, BitTail, Emit, Count, HasUid, Hash, TableBytes, Zoned, Settled, Bump;
      EnforceOne();
      ghost var c1 := Cols();
      job := JobOf(Table(), pseq, c1, blocks, stack);
      JobValid(Table(), pseq, c1.upd[..slotsCnt], c1.packed[..slotsCnt], blocks, stack);
      assert Chooses(job, c1.upd, c1.packed, stack);
      hide Chooses;
      var body, cnt := PackSlots(pseq, blocks, stack, job);
      PassedIsSettled(job, c1, stack, upd[..], packed[..]);
      var tail := PackBits(slotsUpdCnt);
      out := [cnt] + body + tail;
    }

    method Encode(pseq: Byte, timestamp: nat, blocks: seq<seq<Byte>>, stack: seq<Raw>)
      returns (out: seq<Byte>, ghost job: Job)
      requires Valid() && Packs(Table(), blocks, stack)
      modifies this`enforcedUpd, upd, packed
      ensures Valid() && Table() == old(Table()) && Bits() == old(Bits())
      ensures job.Valid() && job.fields == Table() && job.pseq == pseq && job.blocks == blocks
      ensures out == ValuePacket(timestamp / TS_MS % 0x1_0000, job, Bits())
      ensures var c1 := Forced(old(Cols()), FirstBit(Table()));
              job == JobOf(Table(), pseq, c1, blocks, stack) && Cols() == Settled(job, c1, stack)
    {
      hide Forced, Settled, JobOf, Stream, Hash, TableBytes, Ordered, HasUid, FirstBit;
      out := Le16(timestamp / TS_MS % 0x1_0000) + [hash[pseq % 4]];
      var values;
      values, job := EncodeValues(pseq, blocks, stack);
      out := out + values;
    }

    /** One part of the field table, with its header. */
    method EncodeFormat(part: Byte, size: Byte) returns (out: seq<Byte>)
      requires Valid() && size > 0
      ensures out == FormatMessage(Table(), part, size)
    {
      hide Hash, TableBytes, Ordered, HasUid, FirstBit;
      var bytes := TableBytes(fields[..slotsCnt]);
      var cnt := FIELD_BYTES * slotsCnt;
      var pcnt := cnt / size;
      if cnt % size != 0 {
        pcnt := pcnt + 1;
      }
      pcnt := pcnt % 256;
      var from := Pos(part, size);
      if part < pcnt {
        PartBounds(cnt, part, size);
      }
      var sz := if part < pcnt then cnt - from else 0;
      if sz > size {
        sz := size;
      }
      out := [FMT_VERSION, part, pcnt, size] + hash;
      if sz > 0 {
        out := out + bytes[from..from + sz];
      }
    }
  }
}
